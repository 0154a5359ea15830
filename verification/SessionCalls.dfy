/**
 What each call on the session table comes to, whatever other threads do in between.

 A call is followed from the state in which its thread makes it to the state in which the
 thread is at rest again.  Its outcome is told in terms of the table at the one moment when
 the thread, holding the table mutex, looks at it.
 */
module SessionCalls {
  import opened Bytes
  import opened SessionTable

  /** The thread is not inside a call. */
  predicate AtRest(p: Pc) {
    p.Idle? || p.Holding?
  }

  /** A run in which thread t is inside a call all along, but perhaps for the last state. */
  ghost predicate Inside(s: State, t: nat, actions: seq<Action>) {
    && t < |s.pc| && Exec(s, actions).Some? && t < |Exec(s, actions).value.pc|
    && forall k | 0 <= k < |actions| :: InsideAt(s, t, actions, k)
  }

  ghost predicate InsideAt(s: State, t: nat, actions: seq<Action>, k: nat)
    requires k <= |actions|
  {
    var m := Exec(s, actions[..k]);
    m.Some? && t < |m.value.pc| && !AtRest(m.value.pc[t])
  }

  lemma {:induction false} RunKeepsInv(s: State, actions: seq<Action>)
    requires Inv(s) && Exec(s, actions).Some?
    ensures var n := Exec(s, actions).value; Inv(n) && |n.pc| == |s.pc|
    decreases |actions|
  {
    hide Inv, Apply;
    if actions != [] {
      RunKeepsInv(s, actions[..|actions| - 1]);
      ApplyInv(Exec(s, actions[..|actions| - 1]).value, actions[|actions| - 1]);
    }
  }

  /** The first part of such a run. */
  lemma InsideFront(s: State, t: nat, actions: seq<Action>)
    requires Inside(s, t, actions) && actions != []
    ensures var front := actions[..|actions| - 1];
            && Inside(s, t, front) && !AtRest(Exec(s, front).value.pc[t])
            && Apply(Exec(s, front).value, actions[|actions| - 1]) == Exec(s, actions)
            && forall k | 0 <= k <= |front| :: front[..k] == actions[..k]
  {
    hide Apply, AtRest;
    var front := actions[..|actions| - 1];
    assert InsideAt(s, t, actions, |front|) && actions[..|front|] == front;
    forall k | 0 <= k < |front| ensures InsideAt(s, t, front, k) {
      assert InsideAt(s, t, actions, k) && front[..k] == actions[..k];
    }
    assert forall k | 0 <= k <= |front| :: front[..k] == actions[..k];
  }

  /// The table as a lookup finds it

  ghost predicate Has(list: seq<Entry>, sid: nat) {
    exists id :: Entry(id, sid) in list
  }

  /** What a lookup did to the table, and where the thread is since then. */
  ghost predicate Follows(job: Job, m: State, m1: State, n: State, p: Pc) {
    match job
    case Get(sid) =>
      (match p
       case Locking(id) => Entry(id, sid) in m.list
       case Located(Some(id)) => Entry(id, sid) in m.list
       case Located(None) => !Has(m.list, sid)
       case Holding(id) => Entry(id, sid) in m.list
       case Idle => !Has(m.list, sid)
       case _ => false)
    case Create(sid) =>
      && !Has(m.list, sid) && m1.list == [Entry(m.nextId, sid)] + m.list && m1.nextId == m.nextId + 1
      && (p == Leaving(0) || p == Idle)
    case Finish(sid) =>
      if !Has(m.list, sid) then m1.list == m.list && (p == Leaving(0) || p == Idle)
      else
        exists id | Entry(id, sid) in m.list ::
          && (forall e :: e in m1.list <==> e in m.list && e.sid != sid)
          && (p == Retiring(id, false) || p == Closing(id, false) || p == Released(id, false)
              || ((p == Leaving(0) || p == Idle) && id in n.freed))
    case FinishAll => true
  }

  /** The table's mutex is asked for, or has just been taken. */
  predicate BeforeLookup(job: Job, p: Pc) {
    match job
    case Create(_) => (p.Waiting? || p.Running?) && p.job.Create?
    case _ => p == Waiting(job) || p == Running(job)
  }

  /** The job as it stands when the table is looked at: only a sid may have been drawn again. */
  predicate SameJob(job: Job, now: Job) {
    job == now || (job.Create? && now.Create?)
  }

  /// Single steps

  lemma OthersStay(s: State, a: Action, t: nat)
    requires t < |s.pc| && a.t < |s.pc| && a.t != t && Apply(s, a).Some?
    ensures var n := Apply(s, a).value; |n.pc| == |s.pc| && n.pc[t] == s.pc[t] && s.freed <= n.freed
  {
    hide Find;
  }

  lemma FreedGrows(s: State, t: nat)
    requires t < |s.pc| && Step(s, t).Some?
    ensures s.freed <= Step(s, t).value.freed
  {
    hide Find;
  }

  lemma LookupFollows(s: State, t: nat, now: Job)
    requires Inv(s) && t < |s.pc| && s.pc[t] == Running(now) && !now.FinishAll? && Step(s, t).Some?
    ensures var n := Step(s, t).value; |n.pc| == |s.pc| && Follows(now, s, n, n, n.pc[t])
  {
    hide Inv, Find;
    match now
    case Get(sid) => GetFindsItsSession(s, t, sid);
    case Finish(sid) =>
      FinishUnlinksItsSession(s, t, sid);
      FinishMoves(s, t, sid);
    case Create(sid) => CreateAdds(s, t, sid);
    case FinishAll =>
  }

  lemma FinishMoves(s: State, t: nat, sid: nat)
    requires Inv(s) && t < |s.pc| && s.pc[t] == Running(Finish(sid)) && Step(s, t).Some?
    ensures var n := Step(s, t).value;
            if Has(s.list, sid) then n.pc[t].Retiring? && !n.pc[t].all && Entry(n.pc[t].id, sid) in s.list
            else n.list == s.list && n.pc[t] == Leaving(0)
  {
    hide Inv;
    var r := Find(s.list, sid);
    if r.Some? {
      assert s.list[r.value] == Entry(s.list[r.value].id, sid);
    }
  }

  lemma CreateAdds(s: State, t: nat, sid: nat)
    requires t < |s.pc| && s.pc[t] == Running(Create(sid)) && Step(s, t).Some?
    ensures var n := Step(s, t).value;
            && !Has(s.list, sid) && n.list == [Entry(s.nextId, sid)] + s.list && n.nextId == s.nextId + 1
            && n.pc[t] == Leaving(0)
  {
    assert forall e | e in s.list :: e.sid != sid;
  }

  lemma OwnStepFollows(job: Job, m: State, m1: State, s: State, t: nat)
    requires t < |s.pc| && !job.FinishAll? && Follows(job, m, m1, s, s.pc[t]) && !AtRest(s.pc[t]) && Step(s, t).Some?
    ensures var n := Step(s, t).value; |n.pc| == |s.pc| && Follows(job, m, m1, n, n.pc[t])
  {
    hide Find, Has;
    FreedGrows(s, t);
  }

  lemma MoreFreed(job: Job, m: State, m1: State, s: State, n: State, p: Pc)
    requires Follows(job, m, m1, s, p) && s.freed <= n.freed
    ensures Follows(job, m, m1, n, p)
  {
    hide Has;
  }

  /// Whole calls

  /** The k-th action of the run is the thread's look at the table. */
  ghost predicate LooksAt(s: State, t: nat, actions: seq<Action>, k: nat, now: Job) {
    && k < |actions| && actions[k] == Next(t)
    && Exec(s, actions[..k]).Some? && Exec(s, actions[..k + 1]).Some?
    && var m := Exec(s, actions[..k]).value; t < |m.pc| && m.pc[t] == Running(now)
  }

  lemma {:induction false} CallFollows(s: State, t: nat, job: Job, actions: seq<Action>)
    returns (k: nat, now: Job)
    requires Inv(s) && Inside(s, t, actions) && BeforeLookup(job, s.pc[t]) && !job.FinishAll?
    ensures var n := Exec(s, actions).value;
            && t < |n.pc|
            && (BeforeLookup(job, n.pc[t]) ||
                (LooksAt(s, t, actions, k, now) && SameJob(job, now) &&
                 Follows(now, Exec(s, actions[..k]).value, Exec(s, actions[..k + 1]).value, n, n.pc[t])))
    decreases |actions|
  {
    hide Inv, Step, Apply, Follows, AtRest;
    k, now := 0, job;
    if actions != [] {
      var front, a := actions[..|actions| - 1], actions[|actions| - 1];
      InsideFront(s, t, actions);
      k, now := CallFollows(s, t, job, front);
      RunKeepsInv(s, front);
      var m := Exec(s, front).value;
      assert actions[..|front|] == front && actions[..|front| + 1] == actions;
      k, now := CallGoesOn(s, t, job, actions, k, now);
    }
  }

  lemma CallGoesOn(s: State, t: nat, job: Job, actions: seq<Action>, k0: nat, now0: Job) returns (k: nat, now: Job)
    requires actions != [] && t < |s.pc| && !job.FinishAll?
    requires var front := actions[..|actions| - 1];
             && Exec(s, front).Some? && Inv(Exec(s, front).value) && Exec(s, actions).Some?
             && actions[..|front|] == front && actions[..|front| + 1] == actions
             && (forall k | 0 <= k <= |front| :: front[..k] == actions[..k])
             && var m := Exec(s, front).value;
             && t < |m.pc| && !AtRest(m.pc[t]) && Apply(m, actions[|front|]) == Exec(s, actions)
             && actions[|front|].t < |m.pc|
             && (BeforeLookup(job, m.pc[t]) ||
                 (LooksAt(s, t, front, k0, now0) && SameJob(job, now0) &&
                  Follows(now0, Exec(s, front[..k0]).value, Exec(s, front[..k0 + 1]).value, m, m.pc[t])))
    ensures var n := Exec(s, actions).value;
            && t < |n.pc|
            && (BeforeLookup(job, n.pc[t]) ||
                (LooksAt(s, t, actions, k, now) && SameJob(job, now) &&
                 Follows(now, Exec(s, actions[..k]).value, Exec(s, actions[..k + 1]).value, n, n.pc[t])))
  {
    hide Inv, Exec, Follows, Find;
    k, now := k0, now0;
    var front := actions[..|actions| - 1];
    var m, a, n := Exec(s, front).value, actions[|front|], Exec(s, actions).value;
    if a.t != t {
      OthersStay(m, a, t);
      if !BeforeLookup(job, m.pc[t]) {
        MoreFreed(now0, Exec(s, front[..k0]).value, Exec(s, front[..k0 + 1]).value, m, n, m.pc[t]);
      }
    } else if BeforeLookup(job, m.pc[t]) {
      if a.Next? && m.pc[t].Running? {
        k, now := |front|, m.pc[t].job;
        LookupFollows(m, t, now);
      }
    } else {
      FollowingIsNext(now0, Exec(s, front[..k0]).value, Exec(s, front[..k0 + 1]).value, m, t, a);
      OwnStepFollows(now0, Exec(s, front[..k0]).value, Exec(s, front[..k0 + 1]).value, m, t);
    }
  }

  lemma FollowingIsNext(job: Job, m: State, m1: State, s: State, t: nat, a: Action)
    requires t < |s.pc| && a.t == t && !job.FinishAll? && Follows(job, m, m1, s, s.pc[t]) && !AtRest(s.pc[t])
    requires Apply(s, a).Some?
    ensures a == Next(t)
  {
    hide Has, Find, Step;
  }

  /** A call of `crypto_get_session_by_sid`, from its start to its end: the thread ends with the
      very session that had the sid when the table was looked up, or with none if and only if
      there was none. */
  lemma GetOutcome(s: State, t: nat, sid: nat, actions: seq<Action>) returns (k: nat)
    requires Inv(s) && t < |s.pc| && s.pc[t].Idle?
    ensures Apply(s, Call(t, Get(sid))).Some?
    ensures var c := Apply(s, Call(t, Get(sid))).value;
            Inside(c, t, actions) && AtRest(Exec(c, actions).value.pc[t]) ==>
              && LooksAt(c, t, actions, k, Get(sid))
              && var m, n := Exec(c, actions[..k]).value, Exec(c, actions).value;
              && (forall id :: n.pc[t] == Holding(id) <==> Entry(id, sid) in m.list)
              && (n.pc[t] == Idle <==> !Has(m.list, sid))
  {
    hide Step, Find;
    ApplyInv(s, Call(t, Get(sid)));
    var c := Apply(s, Call(t, Get(sid))).value;
    k := 0;
    if Inside(c, t, actions) && AtRest(Exec(c, actions).value.pc[t]) {
      var now;
      k, now := CallFollows(c, t, Get(sid), actions);
      PrefixKeepsInv(c, actions, k);
      OneIdPerSid(Exec(c, actions[..k]).value, sid);
    }
  }

  lemma PrefixKeepsInv(s: State, actions: seq<Action>, k: nat)
    requires Inv(s) && k <= |actions| && Exec(s, actions[..k]).Some?
    ensures Inv(Exec(s, actions[..k]).value)
  {
    hide Inv, Exec;
    RunKeepsInv(s, actions[..k]);
  }

  lemma OneIdPerSid(s: State, sid: nat)
    requires Inv(s)
    ensures forall i, j | Entry(i, sid) in s.list && Entry(j, sid) in s.list :: i == j
  {
  }

  /** A call of `crypto_create_session`: it ends with exactly one session added, under a sid that
      no other had. */
  lemma CreateOutcome(s: State, t: nat, sid: nat, actions: seq<Action>) returns (k: nat, drawn: nat)
    requires Inv(s) && t < |s.pc| && s.pc[t].Idle?
    ensures Apply(s, Call(t, Create(sid))).Some?
    ensures var c := Apply(s, Call(t, Create(sid))).value;
            Inside(c, t, actions) && AtRest(Exec(c, actions).value.pc[t]) ==>
              && LooksAt(c, t, actions, k, Create(drawn)) && Exec(c, actions).value.pc[t] == Idle
              && var m, m1 := Exec(c, actions[..k]).value, Exec(c, actions[..k + 1]).value;
              && (forall id :: Entry(id, drawn) !in m.list)
              && m1.list == [Entry(m.nextId, drawn)] + m.list && m1.nextId == m.nextId + 1
  {
    hide Step, Find;
    ApplyInv(s, Call(t, Create(sid)));
    var c := Apply(s, Call(t, Create(sid))).value;
    k, drawn := 0, sid;
    if Inside(c, t, actions) && AtRest(Exec(c, actions).value.pc[t]) {
      var now;
      k, now := CallFollows(c, t, Create(sid), actions);
      drawn := now.sid;
    }
  }

  /** A call of `crypto_finish_session`: if a session had the sid when the table was looked up, it
      and no other has left the list, and it is freed when the call returns; otherwise the list
      has not changed. */
  lemma FinishOutcome(s: State, t: nat, sid: nat, actions: seq<Action>) returns (k: nat)
    requires Inv(s) && t < |s.pc| && s.pc[t].Idle?
    ensures Apply(s, Call(t, Finish(sid))).Some?
    ensures var c := Apply(s, Call(t, Finish(sid))).value;
            Inside(c, t, actions) && AtRest(Exec(c, actions).value.pc[t]) ==>
              && LooksAt(c, t, actions, k, Finish(sid)) && Exec(c, actions).value.pc[t] == Idle
              && var m, m1, n := Exec(c, actions[..k]).value, Exec(c, actions[..k + 1]).value, Exec(c, actions).value;
              && (forall e :: e in m1.list <==> e in m.list && e.sid != sid)
              && (forall id | Entry(id, sid) in m.list :: id in n.freed)
  {
    hide Step, Find, Inv;
    ApplyInv(s, Call(t, Finish(sid)));
    var c := Apply(s, Call(t, Finish(sid))).value;
    k := 0;
    if Inside(c, t, actions) && AtRest(Exec(c, actions).value.pc[t]) {
      var now;
      k, now := CallFollows(c, t, Finish(sid), actions);
      PrefixKeepsInv(c, actions, k);
      var m := Exec(c, actions[..k]).value;
      OneIdPerSid(m, sid);
      if !Has(m.list, sid) {
        assert forall e | e in m.list && e.sid == sid :: Entry(e.id, sid) in m.list;
      }
    }
  }

  /// Finishing all

  /** Where a thread is that finishes all sessions.  It keeps the table mutex throughout, so the
      list stays as it leaves it. */
  ghost predicate Sweeps(n: State, p: Pc) {
    match p
    case Waiting(job) => job == FinishAll
    case Running(job) => job == FinishAll
    case Retiring(_, all) => all
    case Closing(_, all) => all
    case Released(_, all) => all
    case Leaving(ret) => ret == 0 && n.list == []
    case Idle => n.list == [] && AllFreed(n)
    case _ => false
  }

  ghost predicate AllFreed(n: State) {
    forall id | 0 <= id < n.nextId :: id in n.freed
  }

  /** While a thread has the table mutex, no other changes the list. */
  lemma OwnerKeepsList(s: State, a: Action, t: nat)
    requires Inv(s) && t < |s.pc| && OwnsTable(s.pc[t]) && a.t < |s.pc| && a.t != t && Apply(s, a).Some?
    ensures Apply(s, a).value.list == s.list
  {
    hide Find, Holders, ListInv, LockInv, AliveInv, RetiredInv, AccountInv;
  }

  lemma SweepStep(s: State, t: nat)
    requires Inv(s) && t < |s.pc| && Sweeps(s, s.pc[t]) && !AtRest(s.pc[t]) && Step(s, t).Some?
    ensures var n := Step(s, t).value; |n.pc| == |s.pc| && Sweeps(n, n.pc[t])
  {
    hide Inv, Find, AllFreed;
    if s.pc[t].Leaving? {
      NothingLeft(s, t);
      SameFreed(s, Step(s, t).value);
    }
  }

  lemma SameFreed(s: State, n: State)
    requires AllFreed(s)
    ensures n.freed == s.freed && n.nextId == s.nextId ==> AllFreed(n)
  {
  }

  lemma NothingLeft(s: State, t: nat)
    requires Inv(s) && t < |s.pc| && s.pc[t].Leaving? && s.list == []
    ensures AllFreed(s)
  {
    forall u | 0 <= u < |s.pc| ensures !Unlinked(s.pc[u]) {
      if u != t {
        OthersHold(s, t, u);
      }
    }
    assert forall id | 0 <= id < s.nextId :: !Listed(s.list, id) && !BeingFinished(s.pc, id);
  }

  lemma {:induction false} SweepFollows(s: State, t: nat, actions: seq<Action>)
    requires Inv(s) && Inside(s, t, actions) && s.pc[t] == Waiting(FinishAll)
    ensures var n := Exec(s, actions).value; t < |n.pc| && Sweeps(n, n.pc[t])
    decreases |actions|
  {
    hide Inv, Step, AtRest, AllFreed;
    if actions != [] {
      var front, a := actions[..|actions| - 1], actions[|actions| - 1];
      InsideFront(s, t, actions);
      SweepFollows(s, t, front);
      RunKeepsInv(s, front);
      var m := Exec(s, front).value;
      if a.t == t {
        SweepIsNext(m, t, a);
        SweepStep(m, t);
      } else {
        OthersStay(m, a, t);
        if m.pc[t].Leaving? {
          OwnerKeepsList(m, a, t);
        }
        SweepStays(m, Exec(s, actions).value, m.pc[t]);
      }
    }
  }

  lemma SweepIsNext(s: State, t: nat, a: Action)
    requires t < |s.pc| && a.t == t && Sweeps(s, s.pc[t]) && !AtRest(s.pc[t]) && Apply(s, a).Some?
    ensures a == Next(t)
  {
    hide Step, AllFreed;
  }

  lemma SweepStays(s: State, n: State, p: Pc)
    requires Sweeps(s, p) && !AtRest(p) && (p.Leaving? ==> n.list == s.list)
    ensures Sweeps(n, p)
  {
  }

  /** A call of `crypto_finish_all_sessions`: when it returns the list is empty, and every session
      that was ever created is freed. */
  lemma FinishAllOutcome(s: State, t: nat, actions: seq<Action>)
    requires Inv(s) && t < |s.pc| && s.pc[t].Idle?
    ensures Apply(s, Call(t, FinishAll)).Some?
    ensures var c := Apply(s, Call(t, FinishAll)).value;
            Inside(c, t, actions) && AtRest(Exec(c, actions).value.pc[t]) ==>
              var n := Exec(c, actions).value;
              n.pc[t] == Idle && n.list == [] && forall id | 0 <= id < n.nextId :: id in n.freed
  {
    hide Step, Find;
    ApplyInv(s, Call(t, FinishAll));
    var c := Apply(s, Call(t, FinishAll)).value;
    if Inside(c, t, actions) && AtRest(Exec(c, actions).value.pc[t]) {
      SweepFollows(c, t, actions);
    }
  }

  /** `crypto_put_session`: the thread gives the session back at once, and its mutex is free. */
  lemma PutOutcome(s: State, t: nat)
    requires Inv(s) && t < |s.pc| && s.pc[t].Holding?
    ensures Step(s, t).Some?
    ensures var n := Step(s, t).value;
            && n.pc == s.pc[t := Idle] && s.pc[t].id in s.locks && s.pc[t].id !in n.locks
            && n.list == s.list && n.freed == s.freed && n.puts == s.puts + 1
  {
    hide Holders, ListInv, TableInv, AliveInv, RetiredInv, AccountInv;
  }
}
