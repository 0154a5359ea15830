/**
 What a submission and a fetch on the job ring come to, whatever other threads and the worker
 do in between.
 */
module RingCalls {
  import opened Bytes
  import opened AsyncRing

  /** The action is thread t's own. */
  predicate By(a: Action, t: nat) {
    (a.Submit? || a.Fetch? || a.Next?) && a.t == t
  }

  /** A run in which thread t is inside a call all along, but perhaps for the last state. */
  ghost predicate Inside(s: State, t: nat, actions: seq<Action>) {
    && t < |s.pc| && Exec(s, actions).Some? && t < |Exec(s, actions).value.pc|
    && forall k | 0 <= k < |actions| :: InsideAt(s, t, actions, k)
  }

  ghost predicate InsideAt(s: State, t: nat, actions: seq<Action>, k: nat)
    requires k <= |actions|
  {
    var m := Exec(s, actions[..k]);
    m.Some? && t < |m.value.pc| && !m.value.pc[t].Idle?
  }

  lemma InsideFront(s: State, t: nat, actions: seq<Action>)
    requires Inside(s, t, actions) && actions != []
    ensures var front, a := actions[..|actions| - 1], actions[|actions| - 1];
            && Inside(s, t, front) && !Exec(s, front).value.pc[t].Idle?
            && Mine(Exec(s, front).value, a) && Exec(s, actions) == Some(Apply(Exec(s, front).value, a))
            && actions[..|front|] == front
            && forall k | 0 <= k <= |front| :: front[..k] == actions[..k]
  {
    hide Apply, Mine;
    var front := actions[..|actions| - 1];
    assert InsideAt(s, t, actions, |front|) && actions[..|front|] == front;
    forall k | 0 <= k < |front| ensures InsideAt(s, t, front, k) {
      assert InsideAt(s, t, actions, k) && front[..k] == actions[..k];
    }
    assert forall k | 0 <= k <= |front| :: front[..k] == actions[..k];
  }

  /** The jobs that thread t itself appends in the run. */
  function Appends(s: State, t: nat, actions: seq<Action>): seq<Job>
    requires Exec(s, actions).Some?
  {
    if actions == [] then []
    else
      var front, a := actions[..|actions| - 1], actions[|actions| - 1];
      var m, n := Exec(s, front).value, Exec(s, actions).value;
      Appends(s, t, front) + if By(a, t) && |m.appended| <= |n.appended| then n.appended[|m.appended|..] else []
  }

  /** The items that thread t itself takes from the done list. */
  function Takes(s: State, t: nat, actions: seq<Action>): seq<Item>
    requires Exec(s, actions).Some?
  {
    if actions == [] then []
    else
      var front, a := actions[..|actions| - 1], actions[|actions| - 1];
      var m, n := Exec(s, front).value, Exec(s, actions).value;
      Takes(s, t, front) + if By(a, t) && |m.taken| <= |n.taken| then n.taken[|m.taken|..] else []
  }

  /** An allocation that thread t asks for is refused. */
  predicate Denied(s: State, t: nat, actions: seq<Action>)
    requires Exec(s, actions).Some?
  {
    actions != [] &&
    var front, a := actions[..|actions| - 1], actions[|actions| - 1];
    var m := Exec(s, front).value;
    Denied(s, t, front) || (a == Next(t, false) && t < |m.pc| && m.pc[t].Allocating?)
  }

  /** The k-th action is thread t's own, taken in this place. */
  ghost predicate TurnAt(s: State, t: nat, actions: seq<Action>, k: nat, p: Pc) {
    && k < |actions| && By(actions[k], t) && Exec(s, actions[..k]).Some?
    && var m := Exec(s, actions[..k]).value; t < |m.pc| && m.pc[t] == p
  }

  /** The reply of the run's last action. */
  function LastReply(s: State, actions: seq<Action>): Option<int>
    requires Exec(s, actions).Some?
  {
    if actions == [] then None
    else Reply(Exec(s, actions[..|actions| - 1]).value, actions[|actions| - 1])
  }

  lemma OthersStay(s: State, a: Action, t: nat)
    requires Mine(s, a) && t < |s.pc| && !By(a, t)
    ensures var n := Apply(s, a); |n.pc| == |s.pc| && n.pc[t] == s.pc[t]
  {
  }

  /// Submitting

  /** Where a submission is, what it has appended, and whether an allocation was refused, in terms
      of the ring at its turn. */
  ghost predicate Submits(p: Pc, job: Job, turned: bool, m: State, appends: seq<Job>, denied: bool,
                          reply: Option<int>)
  {
    match p
    case Submitting(j) => j == job && !turned && appends == [] && !denied
    case Allocating(j) => j == job && turned && m.free == [] && m.itemcount < 64 && appends == [] && !denied
    case Filling(_, j) => j == job && turned && (m.free != [] || m.itemcount < 64) && appends == [] && !denied
    case Queueing => turned && (m.free != [] || m.itemcount < 64) && appends == [job] && !denied
    case Idle =>
      && turned
      && if m.free == [] && m.itemcount >= 64 then reply == Some(-16) && appends == [] && !denied
         else if denied then reply == Some(-14) && appends == []
         else reply == Some(0) && appends == [job]
    case _ => false
  }

  lemma SubmitsStep(s: State, t: nat, job: Job, turned: bool, m: State, appends: seq<Job>, a: Action,
                    before: Option<int>)
    requires Mine(s, a) && By(a, t) && t < |s.pc| && !s.pc[t].Idle?
    requires Submits(s.pc[t], job, turned, m, appends, false, before)
    ensures a.Next? && a.t == t
    ensures var n := Apply(s, a);
            && |n.pc| == |s.pc| && |s.appended| <= |n.appended|
            && Submits(n.pc[t], job, true, if turned then m else s, appends + n.appended[|s.appended|..],
                       !a.granted && s.pc[t].Allocating?, Reply(s, a))
  {
  }

  lemma {:induction false} SubmissionFollows(s: State, t: nat, job: Job, actions: seq<Action>)
    returns (turned: bool, k: nat)
    requires Inside(s, t, actions) && s.pc[t] == Submitting(job)
    ensures turned ==> TurnAt(s, t, actions, k, Submitting(job))
    ensures var n := Exec(s, actions).value;
            Submits(n.pc[t], job, turned, if turned then Exec(s, actions[..k]).value else s,
                    Appends(s, t, actions), Denied(s, t, actions), LastReply(s, actions))
    decreases |actions|
  {
    hide Apply, Step, Reply, Mine;
    turned, k := false, 0;
    if actions != [] {
      hide Submits;
      var front, a := actions[..|actions| - 1], actions[|actions| - 1];
      InsideFront(s, t, actions);
      turned, k := SubmissionFollows(s, t, job, front);
      var m := Exec(s, front).value;
      NotYetDenied(m.pc[t], job, turned, if turned then Exec(s, front[..k]).value else s, Appends(s, t, front),
                   Denied(s, t, front), LastReply(s, front));
      if By(a, t) {
        SubmitsStep(m, t, job, turned, if turned then Exec(s, front[..k]).value else s, Appends(s, t, front), a,
                    LastReply(s, front));
        if !turned {
          turned, k := true, |front|;
        }
      } else {
        OthersStay(m, a, t);
        ReplyLater(m.pc[t], job, turned, if turned then Exec(s, front[..k]).value else s, Appends(s, t, front),
                   Denied(s, t, front), LastReply(s, front), LastReply(s, actions));
        assert Appends(s, t, actions) == Appends(s, t, front);
      }
    }
  }

  lemma NotYetDenied(p: Pc, job: Job, turned: bool, m: State, appends: seq<Job>, denied: bool, reply: Option<int>)
    requires Submits(p, job, turned, m, appends, denied, reply) && !p.Idle?
    ensures !denied && (turned <==> !p.Submitting?)
  {
  }

  lemma ReplyLater(p: Pc, job: Job, turned: bool, m: State, appends: seq<Job>, denied: bool, r1: Option<int>,
                   r2: Option<int>)
    requires Submits(p, job, turned, m, appends, denied, r1) && !p.Idle?
    ensures Submits(p, job, turned, m, appends, denied, r2)
  {
  }

  /** `crypto_async_run` from its start to its end.  It returns -EINVAL exactly for a job that
      refuses zero copy, -EBUSY exactly if no item was free and 64 were counted at its turn,
      -EFAULT exactly if its allocation is refused, and otherwise 0, having appended this job
      and no other. */
  lemma SubmissionOutcome(s: State, t: nat, job: Job, actions: seq<Action>) returns (k: nat)
    requires t < |s.pc| && s.pc[t].Idle?
    ensures Mine(s, Submit(t, job))
    ensures Reply(s, Submit(t, job)) == if job.request.flags.noZc then Some(-22) else None
    ensures var c := Apply(s, Submit(t, job));
            && (job.request.flags.noZc ==> c == s)
            && (!job.request.flags.noZc && Inside(c, t, actions) && Exec(c, actions).value.pc[t].Idle? ==>
                  && TurnAt(c, t, actions, k, Submitting(job))
                  && var m := Exec(c, actions[..k]).value;
                  var reply, denied := LastReply(c, actions), Denied(c, t, actions);
                  && (reply == Some(-16) <==> m.free == [] && m.itemcount >= 64)
                  && (reply == Some(-14) <==> denied)
                  && (reply == Some(0) <==> !(m.free == [] && m.itemcount >= 64) && !denied)
                  && Appends(c, t, actions) == if reply == Some(0) then [job] else [])
  {
    k := 0;
    if !job.request.flags.noZc {
      var c := Apply(s, Submit(t, job));
      if Inside(c, t, actions) {
        var turned;
        turned, k := SubmissionFollows(c, t, job, actions);
      }
    }
    hide Exec, Denied, Appends, LastReply, Step;
  }

  /// Fetching

  ghost predicate Fetches(p: Pc, turned: bool, m: State, takes: seq<Item>, reply: Option<int>) {
    match p
    case Fetching => !turned && takes == []
    case Copying(item) => turned && m.done != [] && item == m.done[0] && takes == [item] && item.outcome.Some?
    case Idle =>
      && turned
      && if m.done == [] then reply == Some(-16) && takes == []
         else m.done[0].outcome.Some? && reply == Some(m.done[0].outcome.value.ret) && takes == [m.done[0]]
    case _ => false
  }

  lemma FetchesStep(s: State, t: nat, turned: bool, m: State, takes: seq<Item>, a: Action, before: Option<int>)
    requires Inv(s) && Mine(s, a) && By(a, t) && t < |s.pc| && !s.pc[t].Idle?
    requires Fetches(s.pc[t], turned, m, takes, before)
    ensures a.Next? && a.t == t
    ensures var n := Apply(s, a);
            && |n.pc| == |s.pc| && |s.taken| <= |n.taken|
            && Fetches(n.pc[t], true, if turned then m else s, takes + n.taken[|s.taken|..], Reply(s, a))
            && (s.pc[t].Copying? ==> n.free == s.free + [s.pc[t].item])
  {
    if s.pc[t].Fetching? && s.done != [] {
      FetchKeepsOrder(s, t, true);
    }
    hide Inv;
  }

  lemma {:induction false} FetchFollows(s: State, t: nat, actions: seq<Action>) returns (turned: bool, k: nat)
    requires Inv(s) && Inside(s, t, actions) && s.pc[t] == Fetching
    ensures turned ==> TurnAt(s, t, actions, k, Fetching)
    ensures var n := Exec(s, actions).value;
            Fetches(n.pc[t], turned, if turned then Exec(s, actions[..k]).value else s,
                    Takes(s, t, actions), LastReply(s, actions))
    decreases |actions|
  {
    hide Inv, Apply, Step, Reply, Mine;
    turned, k := false, 0;
    if actions != [] {
      var front, a := actions[..|actions| - 1], actions[|actions| - 1];
      InsideFront(s, t, actions);
      turned, k := FetchFollows(s, t, front);
      ExecInv(s, front);
      var m := Exec(s, front).value;
      if By(a, t) {
        FetchesStep(m, t, turned, if turned then Exec(s, front[..k]).value else s, Takes(s, t, front), a,
                    LastReply(s, front));
        if !turned {
          turned, k := true, |front|;
        }
      } else {
        OthersStay(m, a, t);
        assert Takes(s, t, actions) == Takes(s, t, front);
      }
    }
  }

  /** `crypto_async_fetch` from its start to its end.  It returns -EBUSY exactly if nothing was done
      at its turn; otherwise it has taken the oldest finished item and no other, and returns the
      result that `crypto_run` left in it. */
  lemma FetchOutcome(s: State, t: nat, actions: seq<Action>) returns (k: nat)
    requires Inv(s) && t < |s.pc| && s.pc[t].Idle?
    ensures Mine(s, Fetch(t))
    ensures var c := Apply(s, Fetch(t));
            Inside(c, t, actions) && Exec(c, actions).value.pc[t].Idle? ==>
              && TurnAt(c, t, actions, k, Fetching)
              && var m := Exec(c, actions[..k]).value;
              if m.done == [] then LastReply(c, actions) == Some(-16) && Takes(c, t, actions) == []
              else
                && m.done[0].outcome.Some? && LastReply(c, actions) == Some(m.done[0].outcome.value.ret)
                && Takes(c, t, actions) == [m.done[0]]
  {
    ApplyInv(s, Fetch(t));
    var c := Apply(s, Fetch(t));
    k := 0;
    hide Inv;
    if Inside(c, t, actions) {
      var turned;
      turned, k := FetchFollows(c, t, actions);
    }
    hide Exec, Takes, LastReply;
  }

  /** The steps that a call has before it. */
  function Ahead(p: Pc): nat {
    match p
    case Idle => 0
    case Submitting(_) => 4
    case Allocating(_) => 3
    case Filling(_, _) => 2
    case Queueing => 1
    case Fetching => 2
    case Copying(_) => 1
  }

  /** A call never waits for another thread, and is over after four steps of its own. */
  lemma CallsAdvance(s: State, t: nat, granted: bool)
    requires t < |s.pc| && !s.pc[t].Idle?
    ensures Mine(s, Next(t, granted))
    ensures var n := Apply(s, Next(t, granted)); |n.pc| == |s.pc| && Ahead(n.pc[t]) < Ahead(s.pc[t]) <= 4
  {
  }

  /** A ring is opened with 16 free items and nothing to do. */
  lemma OpenedWithSixteen(threads: nat)
    ensures var s := Start(threads);
            && |s.free| == s.itemcount == 16 && s.todo == s.tmp == s.done == [] && !s.queued && s.worker == Asleep
            && forall t | 0 <= t < threads :: s.pc[t] == Idle
  {
    OpenedOnce(16, 0);
    hide Opened;
  }

  /** What the runs of `crypto_run` have given, in order. */
  function OutcomesIn(actions: seq<Action>): seq<Outcome> {
    if actions == [] then []
    else
      OutcomesIn(actions[..|actions| - 1]) +
      (match actions[|actions| - 1] case Run(outcome) => [outcome] case _ => [])
  }

  /** Only the worker's runs are recorded. */
  lemma ApplyRan(s: State, a: Action)
    requires Mine(s, a)
    ensures a.Run? ==> exists job :: Apply(s, a).ran == s.ran + [Ran(job, a.outcome)]
    ensures !a.Run? ==> Apply(s, a).ran == s.ran
  {
  }

  lemma {:induction false} RanAreTheRuns(s: State, actions: seq<Action>)
    requires Exec(s, actions).Some? && s.ran == []
    ensures var ran, outcomes := Exec(s, actions).value.ran, OutcomesIn(actions);
            |ran| == |outcomes| && forall n | 0 <= n < |ran| :: ran[n].outcome == outcomes[n]
    decreases |actions|
  {
    if actions != [] {
      hide Apply, Mine;
      RanAreTheRuns(s, actions[..|actions| - 1]);
      ApplyRan(Exec(s, actions[..|actions| - 1]).value, actions[|actions| - 1]);
    }
  }

  /** Whatever threads and worker do, the n-th item ever fetched carries the n-th job ever appended
      and what the n-th run of `crypto_run` gave. */
  lemma FetchedAreTheRuns(threads: nat, actions: seq<Action>)
    requires Exec(Start(threads), actions).Some?
    ensures var s, outcomes := Exec(Start(threads), actions).value, OutcomesIn(actions);
            && |s.taken| <= |outcomes| <= |s.appended|
            && forall n | 0 <= n < |s.taken| ::
                 s.taken[n].job == Some(s.appended[n]) && s.taken[n].outcome == Some(outcomes[n])
  {
    RingConservesAndKeepsOrder(threads, actions);
    assert Start(threads).ran == [];
    hide Start, Exec;
    RanAreTheRuns(Start(threads), actions);
  }
}
