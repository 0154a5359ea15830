/**
 The session table of one open /dev/crypto, under any number of threads.

 The table mutex guards the list, and each session has a mutex of its own that the table
 mutex is held to look up but not to keep.  A thread's position in its call is part of the
 state, and a step is what one thread does between two mutex operations.
 */
module SessionTable {
  import opened Bytes

  const ENOENT := -2

  datatype Entry = Entry(id: nat, sid: nat)

  datatype Job = Create(sid: nat) | Get(sid: nat) | Finish(sid: nat) | FinishAll

  /** Where a thread is.  `all` tells the two callers of `crypto_destroy_session` apart. */
  datatype Pc =
    | Idle
    | Waiting(job: Job)             // asks for the table mutex
    | Running(job: Job)             // has it
    | Locking(id: nat)              // get: has it, asks for the session's mutex
    | Located(found: Option<nat>)   // get: about to give the table mutex back
    | Holding(id: nat)              // the session is handed out
    | Retiring(id: nat, all: bool)  // finish: session unlinked, asks for its mutex
    | Closing(id: nat, all: bool)   // finish: has it
    | Released(id: nat, all: bool)  // finish: has given it back, about to free the session
    | Leaving(ret: int)             // about to give the table mutex back

  datatype State = State(
    list: seq<Entry>,
    owner: Option<nat>,
    locks: map<nat, nat>,
    freed: set<nat>,
    nextId: nat,
    pc: seq<Pc>,
    gets: nat,
    puts: nat)

  /** The place of the first entry with this sid. */
  function Find(list: seq<Entry>, sid: nat): (r: Option<nat>)
    ensures r.Some? ==> r.value < |list| && list[r.value].sid == sid
    ensures r.None? <==> forall i | 0 <= i < |list| :: list[i].sid != sid
  {
    if list == [] then None
    else if list[0].sid == sid then Some(0)
    else
      var r := Find(list[1..], sid);
      assert list[1..] == [] || list[1..][0] == list[1];
      if r.Some? then Some(r.value + 1)
      else
        assert forall i | 0 < i < |list| :: list[i] == list[1..][i - 1];
        None
  }

  /** Another session with this sid is in the list. */
  predicate Taken(list: seq<Entry>, sid: nat) {
    Find(list, sid).Some?
  }

  /** What a pointer of the circular list can hold: null, the head, or a session. */
  datatype Link = Null | Head | Node(id: nat)

  /** Where the walk for a sid stops: at the first session with it, or back at the head. */
  function WalkEnd(list: seq<Entry>, sid: nat): Link {
    var r := Find(list, sid);
    if r.Some? then Node(list[r.value].id) else Head
  }

  /** The code that `crypto_finish_session` returns, by where its cursor stopped. */
  function FinishCode(cursor: Link): int {
    if cursor == Null then ENOENT else 0
  }

  /** What thread t does next; None if it has to wait, or has nothing to do. */
  function Step(s: State, t: nat): Option<State>
    requires t < |s.pc|
  {
    match s.pc[t]
    case Idle => None
    case Waiting(job) =>
      if s.owner.Some? then None else Some(s.(owner := Some(t), pc := s.pc[t := Running(job)]))
    case Running(Create(sid)) =>
      if Taken(s.list, sid) then None
      else Some(s.(list := [Entry(s.nextId, sid)] + s.list, nextId := s.nextId + 1, pc := s.pc[t := Leaving(0)]))
    case Running(Get(sid)) =>
      var r := Find(s.list, sid);
      Some(s.(pc := s.pc[t := if r.Some? then Locking(s.list[r.value].id) else Located(None)]))
    case Running(Finish(sid)) =>
      var r := Find(s.list, sid);
      if r.None? then Some(s.(pc := s.pc[t := Leaving(FinishCode(WalkEnd(s.list, sid)))]))
      else Some(s.(list := s.list[..r.value] + s.list[r.value + 1..],
                   pc := s.pc[t := Retiring(s.list[r.value].id, false)]))
    case Running(FinishAll) =>
      if s.list == [] then Some(s.(pc := s.pc[t := Leaving(0)]))
      else Some(s.(list := s.list[1..], pc := s.pc[t := Retiring(s.list[0].id, true)]))
    case Locking(id) =>
      if id in s.locks then None else Some(s.(locks := s.locks[id := t], pc := s.pc[t := Located(Some(id))]))
    case Located(None) => Some(s.(owner := None, pc := s.pc[t := Idle]))
    case Located(Some(id)) => Some(s.(owner := None, pc := s.pc[t := Holding(id)], gets := s.gets + 1))
    case Holding(id) => Some(s.(locks := s.locks - {id}, pc := s.pc[t := Idle], puts := s.puts + 1))
    case Retiring(id, all) =>
      if id in s.locks then None else Some(s.(locks := s.locks[id := t], pc := s.pc[t := Closing(id, all)]))
    case Closing(id, all) => Some(s.(locks := s.locks - {id}, pc := s.pc[t := Released(id, all)]))
    case Released(id, all) =>
      Some(s.(freed := s.freed + {id},
              pc := s.pc[t := if all then Running(FinishAll) else Leaving(FinishCode(Node(id)))]))
    case Leaving(_) => Some(s.(owner := None, pc := s.pc[t := Idle]))
  }

  datatype Action = Call(t: nat, job: Job) | Redraw(t: nat, sid: nat) | Next(t: nat)

  /** A step of the whole system: a thread makes a call, draws a new sid because its last one
      was taken, or goes on with its call. */
  function Apply(s: State, a: Action): Option<State>
    requires a.t < |s.pc|
  {
    match a
    case Call(t, job) => if s.pc[t].Idle? then Some(s.(pc := s.pc[t := Waiting(job)])) else None
    case Redraw(t, sid) =>
      if s.pc[t].Running? && s.pc[t].job.Create? && Taken(s.list, s.pc[t].job.sid) then
        Some(s.(pc := s.pc[t := Running(Create(sid))]))
      else None
    case Next(t) => Step(s, t)
  }

  /// The invariant

  predicate OwnsTable(p: Pc) {
    !p.Idle? && !p.Waiting? && !p.Holding?
  }

  function OwnsSession(p: Pc): Option<nat> {
    match p
    case Located(found) => found
    case Holding(id) => Some(id)
    case Closing(id, _) => Some(id)
    case _ => None
  }

  /** The session a thread will touch next. */
  function Refers(p: Pc): Option<nat> {
    match p
    case Locking(id) => Some(id)
    case Located(found) => found
    case Holding(id) => Some(id)
    case Retiring(id, _) => Some(id)
    case Closing(id, _) => Some(id)
    case Released(id, _) => Some(id)
    case _ => None
  }

  predicate Unlinked(p: Pc) {
    p.Retiring? || p.Closing? || p.Released?
  }

  ghost predicate DistinctEntries(list: seq<Entry>) {
    forall i, j | 0 <= i < j < |list| :: list[i].sid != list[j].sid && list[i].id != list[j].id
  }

  /** Sids and sessions in the list are distinct, and the sessions are alive. */
  ghost predicate ListInv(list: seq<Entry>, freed: set<nat>, nextId: nat) {
    && DistinctEntries(list)
    && (forall i | 0 <= i < |list| :: list[i].id < nextId && list[i].id !in freed)
    && (forall id | id in freed :: id < nextId)
  }

  /** The table mutex is held by the one thread that is past it. */
  ghost predicate TableInv(owner: Option<nat>, pc: seq<Pc>) {
    && (owner.Some? ==> owner.value < |pc|)
    && forall t | 0 <= t < |pc| :: OwnsTable(pc[t]) <==> owner == Some(t)
  }

  /** A session mutex is held by the thread that has taken it. */
  ghost predicate LockInv(locks: map<nat, nat>, pc: seq<Pc>) {
    && (forall t | 0 <= t < |pc| && OwnsSession(pc[t]).Some? ::
          OwnsSession(pc[t]).value in locks && locks[OwnsSession(pc[t]).value] == t)
    && (forall id | id in locks :: locks[id] < |pc| && OwnsSession(pc[locks[id]]) == Some(id))
  }

  /** No thread holds or waits for a session that has been freed. */
  ghost predicate AliveInv(pc: seq<Pc>, freed: set<nat>, nextId: nat) {
    forall t | 0 <= t < |pc| && Refers(pc[t]).Some? :: Refers(pc[t]).value < nextId && Refers(pc[t]).value !in freed
  }

  /** A session that is being finished is out of the list, and only a thread it is handed out
      to still knows it, until its mutex is taken. */
  ghost predicate RetiredInv(list: seq<Entry>, pc: seq<Pc>) {
    forall t | 0 <= t < |pc| && Unlinked(pc[t]) :: Alone(list, pc, t)
  }

  ghost predicate Alone(list: seq<Entry>, pc: seq<Pc>, t: nat)
    requires t < |pc| && Unlinked(pc[t])
  {
    && (forall i | 0 <= i < |list| :: list[i].id != pc[t].id)
    && (forall u | 0 <= u < |pc| && u != t && Refers(pc[u]) == Some(pc[t].id) :: pc[u].Holding? && pc[t].Retiring?)
  }

  predicate Listed(list: seq<Entry>, id: nat) {
    exists i :: 0 <= i < |list| && list[i].id == id
  }

  predicate BeingFinished(pc: seq<Pc>, id: nat) {
    exists t :: 0 <= t < |pc| && Unlinked(pc[t]) && pc[t].id == id
  }

  /** Every session ever created is in the list, freed, or on its way from one to the other. */
  ghost predicate AccountInv(s: State) {
    forall id | 0 <= id < s.nextId :: Listed(s.list, id) || BeingFinished(s.pc, id) || id in s.freed
  }

  /** Threads that a session is handed out to. */
  function Holders(pc: seq<Pc>): nat {
    if pc == [] then 0 else (if pc[0].Holding? then 1 else 0) + Holders(pc[1..])
  }

  ghost predicate Inv(s: State) {
    && ListInv(s.list, s.freed, s.nextId) && TableInv(s.owner, s.pc) && LockInv(s.locks, s.pc)
    && AliveInv(s.pc, s.freed, s.nextId) && RetiredInv(s.list, s.pc) && AccountInv(s)
    && s.gets == s.puts + Holders(s.pc)
  }

  lemma {:induction false} HoldersUpdate(pc: seq<Pc>, t: nat, p: Pc)
    requires t < |pc|
    ensures Holders(pc[t := p]) == Holders(pc) - (if pc[t].Holding? then 1 else 0) + (if p.Holding? then 1 else 0)
  {
    if t > 0 {
      assert pc[t := p][1..] == pc[1..][t - 1 := p];
      HoldersUpdate(pc[1..], t - 1, p);
    } else {
      assert pc[0 := p][1..] == pc[1..];
    }
  }

  /// What a step may do to each part

  /** The list gains a new session with a new sid in front, loses one entry, or stays. */
  ghost predicate ListMoves(s: State, n: State) {
    || (n.list == s.list && n.nextId == s.nextId)
    || (exists sid :: n.list == [Entry(s.nextId, sid)] + s.list && !Taken(s.list, sid) && n.nextId == s.nextId + 1)
    || (exists i :: 0 <= i < |s.list| && n.list == s.list[..i] + s.list[i + 1..] && n.nextId == s.nextId)
  }

  lemma StepMovesList(s: State, t: nat)
    requires Inv(s) && t < |s.pc| && Step(s, t).Some?
    ensures ListMoves(s, Step(s, t).value)
  {
    hide Find, Inv;
    assert s.list != [] ==> s.list[..0] + s.list[1..] == s.list[1..];
  }

  lemma AddedStaysDistinct(list: seq<Entry>, e: Entry, freed: set<nat>, nextId: nat)
    requires ListInv(list, freed, nextId) && e.id == nextId && !Taken(list, e.sid)
    ensures ListInv([e] + list, freed, nextId + 1)
  {
    var n := [e] + list;
    assert forall k | 0 < k < |n| :: n[k] == list[k - 1];
    hide Find;
  }

  lemma RemovedStaysDistinct(list: seq<Entry>, i: nat, freed: set<nat>, nextId: nat)
    requires ListInv(list, freed, nextId) && i < |list|
    ensures ListInv(list[..i] + list[i + 1..], freed, nextId)
  {
    var n := list[..i] + list[i + 1..];
    assert forall k | 0 <= k < |n| :: n[k] == list[if k < i then k else k + 1];
  }

  lemma ListMovesKeep(s: State, n: State)
    requires ListMoves(s, n) && ListInv(s.list, s.freed, s.nextId)
    ensures ListInv(n.list, s.freed, n.nextId)
  {
    hide ListInv;
    if n.list != s.list || n.nextId != s.nextId {
      if n.nextId == s.nextId {
        var i :| 0 <= i < |s.list| && n.list == s.list[..i] + s.list[i + 1..];
        RemovedStaysDistinct(s.list, i, s.freed, s.nextId);
      } else {
        var sid :| n.list == [Entry(s.nextId, sid)] + s.list && !Taken(s.list, sid);
        AddedStaysDistinct(s.list, Entry(s.nextId, sid), s.freed, s.nextId);
      }
    }
  }

  lemma StepKeepsList(s: State, t: nat)
    requires Inv(s) && t < |s.pc| && Step(s, t).Some?
    ensures var n := Step(s, t).value; ListInv(n.list, n.freed, n.nextId)
  {
    hide AccountInv;
    var n := Step(s, t).value;
    StepMovesList(s, t);
    ListMovesKeep(s, n);
    hide Find, ListMoves, TableInv, LockInv, Holders, DistinctEntries;
    if s.pc[t].Released? {
      assert Alone(s.list, s.pc, t);
    }
  }

  lemma StepKeepsTable(s: State, t: nat)
    requires Inv(s) && t < |s.pc| && Step(s, t).Some?
    ensures var n := Step(s, t).value; TableInv(n.owner, n.pc)
  {
    hide Holders, Find, ListInv, LockInv, AliveInv, RetiredInv;
  }

  lemma LockStays(locks: map<nat, nat>, pc: seq<Pc>, t: nat, p: Pc)
    requires LockInv(locks, pc) && t < |pc| && OwnsSession(p) == OwnsSession(pc[t])
    ensures LockInv(locks, pc[t := p])
  {
  }

  lemma LockTaken(locks: map<nat, nat>, pc: seq<Pc>, t: nat, p: Pc, id: nat)
    requires LockInv(locks, pc) && t < |pc| && OwnsSession(pc[t]).None? && OwnsSession(p) == Some(id) && id !in locks
    ensures LockInv(locks[id := t], pc[t := p])
  {
  }

  lemma LockDropped(locks: map<nat, nat>, pc: seq<Pc>, t: nat, p: Pc, id: nat)
    requires LockInv(locks, pc) && t < |pc| && OwnsSession(pc[t]) == Some(id) && OwnsSession(p).None?
    ensures LockInv(locks - {id}, pc[t := p])
  {
  }

  lemma StepKeepsLocks(s: State, t: nat)
    requires Inv(s) && t < |s.pc| && Step(s, t).Some?
    ensures var n := Step(s, t).value; LockInv(n.locks, n.pc)
  {
    hide Holders, Find, ListInv, TableInv, AliveInv, RetiredInv, LockInv;
    var n := Step(s, t).value;
    var p := n.pc[t];
    if OwnsSession(p) == OwnsSession(s.pc[t]) {
      LockStays(s.locks, s.pc, t, p);
    } else if OwnsSession(p).Some? {
      LockTaken(s.locks, s.pc, t, p, OwnsSession(p).value);
    } else {
      LockDropped(s.locks, s.pc, t, p, OwnsSession(s.pc[t]).value);
    }
  }

  lemma StepKeepsAlive(s: State, t: nat)
    requires Inv(s) && t < |s.pc| && Step(s, t).Some?
    ensures var n := Step(s, t).value; AliveInv(n.pc, n.freed, n.nextId)
  {
    hide Holders, TableInv, LockInv, DistinctEntries, AccountInv;
    if s.pc[t].Released? {
      assert Alone(s.list, s.pc, t);
    }
  }

  /** A thread that knows a session without holding the table has been handed it. */
  lemma OthersHold(s: State, t: nat, u: nat)
    requires Inv(s) && t < |s.pc| && u < |s.pc| && u != t && OwnsTable(s.pc[t])
    ensures !Unlinked(s.pc[u]) && (Refers(s.pc[u]).Some? ==> s.pc[u].Holding?)
  {
    hide Holders, ListInv, LockInv, AliveInv, RetiredInv, AccountInv;
  }

  lemma StepKeepsRetired(s: State, t: nat)
    requires Inv(s) && t < |s.pc| && Step(s, t).Some?
    ensures var n := Step(s, t).value; RetiredInv(n.list, n.pc)
  {
    hide Holders, Inv, LockInv, Alone;
    var n := Step(s, t).value;
    forall u | 0 <= u < |n.pc| && Unlinked(n.pc[u]) ensures Alone(n.list, n.pc, u) {
      if u == t {
        RetiringAlone(s, t);
      } else {
        StillAlone(s, t, u);
      }
    }
  }

  lemma RemovedIsGone(list: seq<Entry>, i: nat)
    requires i < |list| && DistinctEntries(list)
    ensures var rest := list[..i] + list[i + 1..]; forall k | 0 <= k < |rest| :: rest[k].id != list[i].id
  {
  }

  /** The finishing thread's own step. */
  lemma RetiringAlone(s: State, t: nat)
    requires Inv(s) && t < |s.pc| && Step(s, t).Some? && Unlinked(Step(s, t).value.pc[t])
    ensures var n := Step(s, t).value; Alone(n.list, n.pc, t)
  {
    hide AccountInv;
    if Unlinked(s.pc[t]) {
      hide Holders, TableInv, AliveInv, Find, DistinctEntries, ListInv;
      assert Alone(s.list, s.pc, t);
    } else {
      UnlinkedAlone(s, t);
    }
  }

  /** The step that takes a session out of the list. */
  lemma UnlinkStep(s: State, t: nat) returns (i: nat)
    requires t < |s.pc| && Step(s, t).Some? && !Unlinked(s.pc[t]) && Unlinked(Step(s, t).value.pc[t])
    ensures var n := Step(s, t).value;
            && OwnsTable(s.pc[t]) && i < |s.list| && n.list == s.list[..i] + s.list[i + 1..]
            && n.pc == s.pc[t := n.pc[t]] && n.pc[t].Retiring? && n.pc[t].id == s.list[i].id
  {
    i := if s.pc[t].job.FinishAll? then 0 else Find(s.list, s.pc[t].job.sid).value;
    hide Find;
    assert s.list != [] ==> s.list[..0] + s.list[1..] == s.list[1..];
  }

  lemma UnlinkedAlone(s: State, t: nat)
    requires Inv(s) && t < |s.pc| && Step(s, t).Some? && !Unlinked(s.pc[t]) && Unlinked(Step(s, t).value.pc[t])
    ensures var n := Step(s, t).value; Alone(n.list, n.pc, t)
  {
    var i := UnlinkStep(s, t);
    hide Step, Holders, TableInv, AliveInv, DistinctEntries, LockInv, RetiredInv;
    RemovedIsGone(s.list, i);
    forall u | 0 <= u < |s.pc| && u != t ensures Refers(s.pc[u]).Some? ==> s.pc[u].Holding? {
      OthersHold(s, t, u);
    }
  }

  /** The step of another thread. */
  lemma StillAlone(s: State, t: nat, u: nat)
    requires Inv(s) && t < |s.pc| && u < |s.pc| && u != t && Step(s, t).Some? && Unlinked(s.pc[u])
    ensures var n := Step(s, t).value; Alone(n.list, n.pc, u)
  {
    hide AccountInv, ListInv, LockInv, AliveInv, Holders, Find;
    if OwnsTable(s.pc[t]) {
      OthersHold(s, t, u);
    } else {
      assert Alone(s.list, s.pc, u);
    }
  }

  /** A step that unlinks nothing leaves every listed session listed. */
  lemma StillListed(s: State, t: nat, id: nat)
    requires t < |s.pc| && Step(s, t).Some? && Listed(s.list, id)
    requires Unlinked(s.pc[t]) || !Unlinked(Step(s, t).value.pc[t])
    ensures Listed(Step(s, t).value.list, id)
  {
    hide Find;
    var n := Step(s, t).value;
    var i :| 0 <= i < |s.list| && s.list[i].id == id;
    if n.list != s.list {
      assert n.list[i + 1] == s.list[i];
    }
  }

  lemma StepKeepsAccount(s: State, t: nat, id: nat)
    requires AccountInv(s) && t < |s.pc| && Step(s, t).Some? && id < Step(s, t).value.nextId
    ensures var n := Step(s, t).value; Listed(n.list, id) || BeingFinished(n.pc, id) || id in n.freed
  {
    hide Find, Listed;
    var n := Step(s, t).value;
    if id == s.nextId {
      NewIsListed(s, t);
    } else if BeingFinished(s.pc, id) {
      var u :| 0 <= u < |s.pc| && Unlinked(s.pc[u]) && s.pc[u].id == id;
      assert n.pc[u] == s.pc[u] || u == t;
      assert u == t && n.pc[t].Released? ==> n.pc[t].id == id;
    } else if Listed(s.list, id) {
      if !Unlinked(s.pc[t]) && Unlinked(n.pc[t]) {
        UnlinkedOrListed(s, t, id);
      } else {
        StillListed(s, t, id);
      }
    }
  }

  lemma NewIsListed(s: State, t: nat)
    requires t < |s.pc| && Step(s, t).Some? && Step(s, t).value.nextId > s.nextId
    ensures Listed(Step(s, t).value.list, s.nextId)
  {
    hide Find;
    assert Step(s, t).value.list[0].id == s.nextId;
  }

  lemma UnlinkedOrListed(s: State, t: nat, id: nat)
    requires t < |s.pc| && Step(s, t).Some? && !Unlinked(s.pc[t]) && Unlinked(Step(s, t).value.pc[t])
    requires Listed(s.list, id)
    ensures var n := Step(s, t).value; Listed(n.list, id) || BeingFinished(n.pc, id)
  {
    var i := UnlinkStep(s, t);
    hide Step;
    var n := Step(s, t).value;
    var k :| 0 <= k < |s.list| && s.list[k].id == id;
    if k == i {
      assert Unlinked(n.pc[t]) && n.pc[t].id == id;
    } else {
      assert n.list[if k < i then k else k - 1] == s.list[k];
    }
  }

  lemma StepKeepsCount(s: State, t: nat)
    requires t < |s.pc| && Step(s, t).Some? && s.gets == s.puts + Holders(s.pc)
    ensures var n := Step(s, t).value; n.gets == n.puts + Holders(n.pc) && |n.pc| == |s.pc|
  {
    hide Holders, Find;
    HoldersUpdate(s.pc, t, Step(s, t).value.pc[t]);
  }

  lemma StepInv(s: State, t: nat)
    requires Inv(s) && t < |s.pc| && Step(s, t).Some?
    ensures Inv(Step(s, t).value) && |Step(s, t).value.pc| == |s.pc|
  {
    StepKeepsList(s, t);
    StepKeepsTable(s, t);
    StepKeepsLocks(s, t);
    StepKeepsAlive(s, t);
    StepKeepsRetired(s, t);
    StepKeepsCount(s, t);
    forall id | 0 <= id < Step(s, t).value.nextId
      ensures var n := Step(s, t).value; Listed(n.list, id) || BeingFinished(n.pc, id) || id in n.freed
    {
      StepKeepsAccount(s, t, id);
    }
    hide Step, Listed, BeingFinished, Holders, ListInv, TableInv, LockInv, AliveInv, RetiredInv;
  }

  lemma ApplyInv(s: State, a: Action)
    requires Inv(s) && a.t < |s.pc| && Apply(s, a).Some?
    ensures Inv(Apply(s, a).value) && |Apply(s, a).value.pc| == |s.pc|
  {
    if a.Next? {
      StepInv(s, a.t);
    } else {
      hide Inv, Taken;
      Begins(s, a.t, if a.Call? then Waiting(a.job) else Running(Create(a.sid)));
    }
  }

  /** A call that begins, or a new sid, touches nothing but the thread itself. */
  lemma Begins(s: State, t: nat, p: Pc)
    requires Inv(s) && t < |s.pc| && Refers(s.pc[t]).None? && Refers(p).None?
    requires OwnsTable(s.pc[t]) == OwnsTable(p)
    ensures Inv(s.(pc := s.pc[t := p]))
  {
    HoldersUpdate(s.pc, t, p);
    LockStays(s.locks, s.pc, t, p);
    BeginsAccount(s, t, p);
    hide Holders, ListInv, LockInv, AccountInv;
    var n := s.(pc := s.pc[t := p]);
    forall u | 0 <= u < |n.pc| && Unlinked(n.pc[u]) ensures Alone(n.list, n.pc, u) {
      assert Alone(s.list, s.pc, u);
    }
  }

  lemma BeginsAccount(s: State, t: nat, p: Pc)
    requires AccountInv(s) && t < |s.pc| && Refers(s.pc[t]).None?
    ensures AccountInv(s.(pc := s.pc[t := p]))
  {
    hide Listed;
    var n := s.(pc := s.pc[t := p]);
    forall id | 0 <= id < n.nextId ensures Listed(n.list, id) || BeingFinished(n.pc, id) || id in n.freed {
      if BeingFinished(s.pc, id) {
        var u :| 0 <= u < |s.pc| && Unlinked(s.pc[u]) && s.pc[u].id == id;
        assert n.pc[u] == s.pc[u];
      }
    }
  }

  /// What the calls find

  /** Looking a sid up finds the one session that has it, or none if there is none. */
  lemma GetFindsItsSession(s: State, t: nat, sid: nat)
    requires Inv(s) && t < |s.pc| && s.pc[t] == Running(Get(sid))
    ensures Step(s, t).Some?
    ensures var p := Step(s, t).value.pc[t];
            && (forall id :: p == Locking(id) <==> Entry(id, sid) in s.list)
            && (p == Located(None) <==> forall e | e in s.list :: e.sid != sid)
  {
    hide Holders, TableInv, LockInv, AliveInv, RetiredInv, AccountInv;
  }

  /** Finishing a sid takes its session out of the list, and no other. */
  lemma FinishUnlinksItsSession(s: State, t: nat, sid: nat)
    requires Inv(s) && t < |s.pc| && s.pc[t] == Running(Finish(sid))
    ensures Step(s, t).Some?
    ensures var n := Step(s, t).value;
            && (forall e :: e in n.list <==> e in s.list && e.sid != sid)
            && (forall id :: n.pc[t] == Retiring(id, false) <==> Entry(id, sid) in s.list)
  {
    hide Holders, TableInv, LockInv, AliveInv, RetiredInv, AccountInv;
    var r := Find(s.list, sid);
    hide Find;
    if r.Some? {
      RemovedMembers(s.list, r.value);
    }
  }

  lemma RemovedMembers(list: seq<Entry>, i: nat)
    requires i < |list| && DistinctEntries(list)
    ensures forall e :: e in list[..i] + list[i + 1..] <==> e in list && e.sid != list[i].sid
  {
    var rest := list[..i] + list[i + 1..];
    forall e ensures e in rest <==> e in list && e.sid != list[i].sid {
      if e in list && e.sid != list[i].sid {
        var k :| 0 <= k < |list| && list[k] == e;
        assert rest[if k < i then k else k - 1] == e;
      }
      if e in rest {
        var k :| 0 <= k < |rest| && rest[k] == e;
        assert e == list[if k < i then k else k + 1];
      }
    }
  }

  /// Whole runs

  function Start(threads: nat): State {
    State([], None, map[], {}, 0, seq(threads, _ => Idle), 0, 0)
  }

  /** The state after the actions, or None if one of them could not be taken. */
  function Exec(s: State, actions: seq<Action>): Option<State> {
    if actions == [] then Some(s)
    else
      var before := Exec(s, actions[..|actions| - 1]);
      var a := actions[|actions| - 1];
      if before.None? || a.t >= |before.value.pc| then None else Apply(before.value, a)
  }

  lemma StartInv(threads: nat)
    ensures Inv(Start(threads))
  {
    NoHolders(threads);
    hide Holders;
  }

  lemma {:induction false} NoHolders(threads: nat)
    ensures Holders(seq<Pc>(threads, _ => Idle)) == 0
  {
    if threads > 0 {
      NoHolders(threads - 1);
      assert seq<Pc>(threads, _ => Idle)[1..] == seq<Pc>(threads - 1, _ => Idle);
    }
  }

  lemma {:induction false} ExecInv(threads: nat, actions: seq<Action>)
    requires Exec(Start(threads), actions).Some?
    ensures var s := Exec(Start(threads), actions).value; Inv(s) && |s.pc| == threads
    decreases |actions|
  {
    hide Inv, Apply;
    if actions == [] {
      StartInv(threads);
    } else {
      ExecInv(threads, actions[..|actions| - 1]);
      ApplyInv(Exec(Start(threads), actions[..|actions| - 1]).value, actions[|actions| - 1]);
    }
  }

  /** The life of a session, in every state that any number of threads can reach: sids are
      distinct, no thread holds or waits for a session that has been freed, no two threads are
      handed the same session, every session handed out has been put or is still out, and every
      session created is in the list, being finished or freed. */
  lemma SessionLifetime(threads: nat, actions: seq<Action>)
    requires Exec(Start(threads), actions).Some?
    ensures var s := Exec(Start(threads), actions).value;
            && |s.pc| == threads
            && (forall i, j | 0 <= i < j < |s.list| :: s.list[i].sid != s.list[j].sid)
            && (forall t | 0 <= t < threads && Refers(s.pc[t]).Some? :: Refers(s.pc[t]).value !in s.freed)
            && (forall t, u | 0 <= t < u < threads && OwnsSession(s.pc[t]).Some? ::
                  OwnsSession(s.pc[t]) != OwnsSession(s.pc[u]))
            && s.gets - s.puts == Holders(s.pc)
            && (forall id | 0 <= id < s.nextId :: Listed(s.list, id) || BeingFinished(s.pc, id) || id in s.freed)
  {
    ExecInv(threads, actions);
    hide Holders, Exec;
  }

  /// Progress

  /** The thread can go on, if need be with a new sid. */
  predicate CanMove(s: State, t: nat)
    requires t < |s.pc|
  {
    Step(s, t).Some? || (s.pc[t].Running? && s.pc[t].job.Create? && Taken(s.list, s.pc[t].job.sid))
  }

  /** No deadlock: while any call is under way, some thread in a call can go on. */
  lemma SomeoneCanMove(s: State, t: nat) returns (u: nat)
    requires Inv(s) && t < |s.pc| && !s.pc[t].Idle?
    ensures u < |s.pc| && !s.pc[u].Idle? && CanMove(s, u)
  {
    hide Holders, ListInv, AliveInv, RetiredInv, Taken, Find;
    u := if s.owner.Some? then s.owner.value else t;
    if (s.pc[u].Locking? || s.pc[u].Retiring?) && s.pc[u].id in s.locks {
      u := s.locks[s.pc[u].id];
    }
  }

  /** The steps a thread has before it at most, apart from new sids; a session in the list
      counts for those of finishing it. */
  function Ahead(p: Pc): nat {
    match p
    case Idle => 0
    case Waiting(Create(_)) => 7
    case Waiting(Get(_)) => 5
    case Waiting(_) => 3
    case Running(Create(_)) => 6
    case Running(Get(_)) => 4
    case Running(Finish(_)) => 2
    case Running(FinishAll) => 2
    case Locking(_) => 3
    case Located(_) => 2
    case Holding(_) => 1
    case Retiring(_, all) => if all then 5 else 4
    case Closing(_, all) => if all then 4 else 3
    case Released(_, all) => if all then 3 else 2
    case Leaving(_) => 1
  }

  function AllAhead(pc: seq<Pc>): nat {
    if pc == [] then 0 else Ahead(pc[0]) + AllAhead(pc[1..])
  }

  function Work(s: State): nat {
    AllAhead(s.pc) + 4 * |s.list|
  }

  lemma {:induction false} AheadUpdate(pc: seq<Pc>, t: nat, p: Pc)
    requires t < |pc|
    ensures AllAhead(pc[t := p]) == AllAhead(pc) - Ahead(pc[t]) + Ahead(p)
  {
    if t > 0 {
      assert pc[t := p][1..] == pc[1..][t - 1 := p];
      AheadUpdate(pc[1..], t - 1, p);
    } else {
      assert pc[0 := p][1..] == pc[1..];
    }
  }

  /** Every step of a call brings the system nearer to rest. */
  lemma StepWorks(s: State, t: nat)
    requires t < |s.pc| && Step(s, t).Some?
    ensures Work(Step(s, t).value) < Work(s)
  {
    hide AllAhead, Find;
    AheadUpdate(s.pc, t, Step(s, t).value.pc[t]);
  }

  /** The state after the threads have taken one step each, in this order. */
  function Quiet(s: State, schedule: seq<nat>): Option<State> {
    if schedule == [] then Some(s)
    else
      var before := Quiet(s, schedule[..|schedule| - 1]);
      var t := schedule[|schedule| - 1];
      if before.None? || t >= |before.value.pc| then None else Step(before.value, t)
  }

  /** Calls that are under way take a bounded number of steps, whatever the schedule; and as
      long as one of them has not returned, the schedule can go on. */
  lemma {:induction false} CallsReturn(s: State, schedule: seq<nat>)
    requires Inv(s) && Quiet(s, schedule).Some?
    ensures var n := Quiet(s, schedule).value;
            && |schedule| + Work(n) <= Work(s) && Inv(n) && |n.pc| == |s.pc|
            && ((exists t :: 0 <= t < |n.pc| && !n.pc[t].Idle?) ==>
                  exists u :: 0 <= u < |n.pc| && !n.pc[u].Idle? && CanMove(n, u))
    decreases |schedule|
  {
    hide Inv, Step, Work, CanMove;
    if schedule != [] {
      var before, t := Quiet(s, schedule[..|schedule| - 1]), schedule[|schedule| - 1];
      CallsReturn(s, schedule[..|schedule| - 1]);
      StepInv(before.value, t);
      StepWorks(before.value, t);
    }
    var n := Quiet(s, schedule).value;
    if t: nat :| 0 <= t < |n.pc| && !n.pc[t].Idle? {
      var u := SomeoneCanMove(n, t);
    }
  }

  /// The driver's steps

  lemma {:induction false} FoundFirst(list: seq<Entry>, sid: nat, i: nat)
    requires i < |list| && list[i].sid == sid && forall j | 0 <= j < i :: list[j].sid != sid
    ensures Find(list, sid) == Some(i)
  {
    if i > 0 {
      assert list[0].sid != sid;
      FoundFirst(list[1..], sid, i - 1);
    }
  }

  /** The i-th stop of a walk along the list; both ends are the head. */
  function Stop(list: seq<Entry>, i: int): Link {
    if 0 <= i < |list| then Node(list[i].id) else Head
  }

  /** The pointers form the circular list of these entries. */
  ghost predicate Ring(list: seq<Entry>, next: map<Link, Link>, prev: map<Link, Link>, sids: map<nat, nat>) {
    && DistinctEntries(list)
    && (forall i | -1 <= i < |list| :: Linked(list, next, prev, i))
    && (forall i | 0 <= i < |list| :: list[i].id in sids && sids[list[i].id] == list[i].sid)
  }

  ghost predicate Linked(list: seq<Entry>, next: map<Link, Link>, prev: map<Link, Link>, i: int) {
    && Stop(list, i) in next && next[Stop(list, i)] == Stop(list, i + 1)
    && Stop(list, i + 1) in prev && prev[Stop(list, i + 1)] == Stop(list, i)
  }

  lemma EmptyRing()
    ensures Ring([], map[Head := Head], map[Head := Head], map[])
  {
  }

  lemma RingFirst(list: seq<Entry>, next: map<Link, Link>, prev: map<Link, Link>, sids: map<nat, nat>)
    requires Ring(list, next, prev, sids)
    ensures Head in next && next[Head] == Stop(list, 0)
  {
    assert Linked(list, next, prev, -1);
  }

  /** list_add puts the entry behind the head. */
  lemma RingAdds(list: seq<Entry>, next: map<Link, Link>, prev: map<Link, Link>, sids: map<nat, nat>, e: Entry)
    requires Ring(list, next, prev, sids) && DistinctEntries([e] + list)
    ensures Head in next
    ensures var first := next[Head];
            Ring([e] + list, next[Node(e.id) := first][Head := Node(e.id)],
                 prev[Node(e.id) := Head][first := Node(e.id)], sids[e.id := e.sid])
  {
    var all := [e] + list;
    assert forall i | 0 <= i < |list| :: all[i + 1] == list[i];
    assert Linked(list, next, prev, -1);
    var first := next[Head];
    var n, p := next[Node(e.id) := first][Head := Node(e.id)], prev[Node(e.id) := Head][first := Node(e.id)];
    assert first == Stop(all, 1);
    forall i | 0 <= i < |all| ensures all[i].id in sids[e.id := e.sid] && sids[e.id := e.sid][all[i].id] == all[i].sid {
      if i > 0 {
        assert all[0].id != all[i].id && all[i] == list[i - 1];
      }
    }
    forall i | -1 <= i < |all| ensures Linked(all, n, p, i) {
      if i > 0 {
        assert Linked(list, next, prev, i - 1);
        assert Stop(all, i) == Stop(list, i - 1) && Stop(all, i + 1) == Stop(list, i);
        assert all[0].id != all[i].id && (i + 1 < |all| ==> all[0].id != all[i + 1].id && all[1].id != all[i + 1].id);
      }
    }
  }

  /** list_del links the neighbours of the i-th entry to each other. */
  lemma RingRemoves(list: seq<Entry>, next: map<Link, Link>, prev: map<Link, Link>, sids: map<nat, nat>, i: nat)
    requires Ring(list, next, prev, sids) && i < |list|
    ensures Node(list[i].id) in next && Node(list[i].id) in prev
    ensures var before, after := prev[Node(list[i].id)], next[Node(list[i].id)];
            Ring(list[..i] + list[i + 1..], next[before := after], prev[after := before], sids)
  {
    var rest := list[..i] + list[i + 1..];
    assert forall k: nat | k < |rest| :: rest[k] == list[if k < i then k else k + 1];
    assert Linked(list, next, prev, i) && Linked(list, next, prev, i - 1);
    var before, after := Stop(list, i - 1), Stop(list, i + 1);
    var n, p := next[before := after], prev[after := before];
    forall k | -1 <= k < |rest| ensures Linked(rest, n, p, k) {
      assert Linked(list, next, prev, if k < i then k else k + 1);
      assert Stop(rest, k) == Stop(list, if k < i then k else k + 1);
      assert Stop(rest, k + 1) == Stop(list, if k + 1 < i then k + 1 else k + 2);
    }
  }

  /** The session table with its intrusive list, and the threads at it. */
  class Fcrypt {
    var next: map<Link, Link>
    var prev: map<Link, Link>
    var sids: map<nat, nat>
    var owner: Option<nat>
    var locks: map<nat, nat>
    var nextId: nat
    var pc: seq<Pc>
    ghost var list: seq<Entry>
    ghost var freed: set<nat>
    ghost var gets: nat
    ghost var puts: nat

    constructor (threads: nat)
      ensures Valid() && View() == Start(threads)
    {
      next, prev, sids := map[Head := Head], map[Head := Head], map[];
      owner, locks, nextId, pc := None, map[], 0, Start(threads).pc;
      list, freed, gets, puts := [], {}, 0, 0;
      new;
      hide Inv, Ring;
      assert View() == Start(threads);
      hide Start;
      StartInv(threads);
      EmptyRing();
    }

    ghost function View(): State
      reads this
    {
      State(list, owner, locks, freed, nextId, pc, gets, puts)
    }

    /** The pointers hold the list, and the invariant of all runs holds. */
    ghost predicate Valid()
      reads this
    {
      Ring(list, next, prev, sids) && Inv(View())
    }

    /** The walk along the list that every lookup makes; its cursor ends at the head, never at
        null, if the sid is not there. */
    method Walk(sid: nat) returns (cursor: Link)
      requires Valid()
      ensures cursor == WalkEnd(list, sid) && cursor != Null
    {
      hide Inv, Find;
      assert Linked(list, next, prev, -1);
      cursor := next[Head];
      ghost var i := 0;
      while cursor != Head
        invariant 0 <= i <= |list| && cursor == Stop(list, i)
        invariant forall j | 0 <= j < i :: list[j].sid != sid
        decreases |list| - i
      {
        if sids[cursor.id] == sid {
          FoundFirst(list, sid, i);
          return;
        }
        assert Linked(list, next, prev, i);
        cursor, i := next[cursor], i + 1;
      }
    }

    method LockTable(t: nat)
      requires Valid() && t < |pc| && pc[t].Waiting? && owner.None?
      modifies this
      ensures Valid() && Some(View()) == Step(old(View()), t)
    {
      hide Inv, Ring, Find;
      StepInv(View(), t);
      owner := Some(t);
      pc := pc[t := Running(pc[t].job)];
    }

    /** The list part of `crypto_create_session`: a sid that is taken is drawn again. */
    method Insert(t: nat, drawn: nat) returns (inserted: bool)
      requires Valid() && t < |pc| && pc[t].Running? && pc[t].job.Create?
      modifies this
      ensures Valid()
      ensures Some(View()) == Apply(old(View()), if inserted then Next(t) else Redraw(t, drawn))
    {
      hide Inv, Ring, Find;
      var sid := pc[t].job.sid;
      var cursor := Walk(sid);
      inserted := cursor == Head;
      ApplyInv(View(), if inserted then Next(t) else Redraw(t, drawn));
      if inserted {
        NewEntry(View(), sid);
        AddEntry(sid);
        pc := pc[t := Leaving(0)];
      } else {
        pc := pc[t := Running(Create(drawn))];
      }
    }

    /** list_add of a new session. */
    method AddEntry(sid: nat)
      requires Ring(list, next, prev, sids) && DistinctEntries([Entry(nextId, sid)] + list)
      modifies this`next, this`prev, this`sids, this`list, this`nextId
      ensures Ring(list, next, prev, sids)
      ensures list == [Entry(old(nextId), sid)] + old(list) && nextId == old(nextId) + 1
    {
      RingAdds(list, next, prev, sids, Entry(nextId, sid));
      hide Ring;
      var node, first := Node(nextId), next[Head];
      next := next[node := first][Head := node];
      prev := prev[node := Head][first := node];
      sids := sids[nextId := sid];
      list := [Entry(nextId, sid)] + list;
      nextId := nextId + 1;
    }

    /** `crypto_get_session_by_sid`: the lookup, the session's mutex, and the way out. */
    method Lookup(t: nat)
      requires Valid() && t < |pc| && pc[t].Running? && pc[t].job.Get?
      modifies this
      ensures Valid() && Some(View()) == Step(old(View()), t)
    {
      var cursor := Walk(pc[t].job.sid);
      StepInv(View(), t);
      hide Inv, Ring, Find;
      pc := pc[t := if cursor.Node? then Locking(cursor.id) else Located(None)];
    }

    method LockSession(t: nat)
      requires Valid() && t < |pc| && pc[t].Locking? && pc[t].id !in locks
      modifies this
      ensures Valid() && Some(View()) == Step(old(View()), t)
    {
      hide Inv, Ring, Find;
      StepInv(View(), t);
      var id := pc[t].id;
      locks := locks[id := t];
      pc := pc[t := Located(Some(id))];
    }

    method HandOut(t: nat)
      requires Valid() && t < |pc| && pc[t].Located?
      modifies this
      ensures Valid() && Some(View()) == Step(old(View()), t)
    {
      hide Inv, Ring, Find;
      StepInv(View(), t);
      owner := None;
      if pc[t].found.Some? {
        gets := gets + 1;
        pc := pc[t := Holding(pc[t].found.value)];
      } else {
        pc := pc[t := Idle];
      }
    }

    /** `crypto_put_session`. */
    method Put(t: nat)
      requires Valid() && t < |pc| && pc[t].Holding?
      modifies this
      ensures Valid() && Some(View()) == Step(old(View()), t)
    {
      hide Inv, Ring, Find;
      StepInv(View(), t);
      locks := locks - {pc[t].id};
      pc := pc[t := Idle];
      puts := puts + 1;
    }

    /** list_del of the i-th entry. */
    method Remove(id: nat, ghost i: nat)
      requires Ring(list, next, prev, sids) && i < |list| && list[i].id == id
      modifies this`next, this`prev, this`list
      ensures Ring(list, next, prev, sids) && list == old(list[..i] + list[i + 1..])
    {
      RingRemoves(list, next, prev, sids, i);
      hide Ring;
      var before, after := prev[Node(id)], next[Node(id)];
      next, prev := next[before := after], prev[after := before];
      list := list[..i] + list[i + 1..];
    }

    /** The loop of `crypto_finish_session`, and the test of its cursor behind it. */
    method Unlink(t: nat)
      requires Valid() && t < |pc| && pc[t].Running? && pc[t].job.Finish?
      modifies this
      ensures Valid() && Some(View()) == Step(old(View()), t)
    {
      var cursor := Walk(pc[t].job.sid);
      StepInv(View(), t);
      hide Inv, Ring, Find;
      if cursor.Node? {
        Remove(cursor.id, Find(list, pc[t].job.sid).value);
        pc := pc[t := Retiring(cursor.id, false)];
      } else {
        var ret := if cursor == Null then ENOENT else 0;
        pc := pc[t := Leaving(ret)];
      }
    }

    /** One turn of `crypto_finish_all_sessions`. */
    method UnlinkNext(t: nat)
      requires Valid() && t < |pc| && pc[t].Running? && pc[t].job.FinishAll?
      modifies this
      ensures Valid() && Some(View()) == Step(old(View()), t)
    {
      StepInv(View(), t);
      RingFirst(list, next, prev, sids);
      var cursor := next[Head];
      if cursor == Head {
        pc := pc[t := Leaving(0)];
      } else {
        RemoveFirst(cursor.id);
        pc := pc[t := Retiring(cursor.id, true)];
      }
    }

    method RemoveFirst(id: nat)
      requires Ring(list, next, prev, sids) && list != [] && list[0].id == id
      modifies this`next, this`prev, this`list
      ensures Ring(list, next, prev, sids) && list == old(list[1..])
    {
      hide Ring;
      assert list[..0] + list[1..] == list[1..];
      Remove(id, 0);
    }

    /** `crypto_destroy_session`, in the three steps that other threads can see: its mutex
        taken, given back, and the session freed. */
    method Destroy(t: nat)
      requires Valid() && t < |pc| && Unlinked(pc[t]) && (pc[t].Retiring? ==> pc[t].id !in locks)
      modifies this
      ensures Valid() && Some(View()) == Step(old(View()), t)
    {
      hide Inv, Ring, Find;
      StepInv(View(), t);
      var id, all := pc[t].id, pc[t].all;
      if pc[t].Retiring? {
        locks := locks[id := t];
        pc := pc[t := Closing(id, all)];
      } else if pc[t].Closing? {
        locks := locks - {id};
        pc := pc[t := Released(id, all)];
      } else {
        freed := freed + {id};
        pc := pc[t := if all then Running(FinishAll) else Leaving(0)];
      }
    }

    method UnlockTable(t: nat) returns (ret: int)
      requires Valid() && t < |pc| && pc[t].Leaving?
      modifies this
      ensures Valid() && Some(View()) == Step(old(View()), t) && ret == old(pc[t].ret)
    {
      hide Inv, Ring, Find;
      StepInv(View(), t);
      ret := pc[t].ret;
      owner := None;
      pc := pc[t := Idle];
    }
  }

  lemma NewEntry(s: State, sid: nat)
    requires Inv(s) && Find(s.list, sid).None?
    ensures DistinctEntries([Entry(s.nextId, sid)] + s.list)
  {
    hide Find;
  }

  /** Finishing a sid that no session has. */
  lemma MissingSidReturnsZero(sid: nat)
    ensures Exec(Start(1), [Call(0, Finish(sid)), Next(0), Next(0)]) ==
            Some(Start(1).(owner := Some(0), pc := [Leaving(0)]))
  {
    var a, b := Call(0, Finish(sid)), Next(0);
    ExecNext(Start(1), [], a);
    ExecNext(Start(1), [a], b);
    ExecNext(Start(1), [a, b], b);
    assert [] + [a] == [a] && [a] + [b] == [a, b] && [a, b] + [b] == [a, b, b];
    hide Exec;
    assert Start(1).pc == [Idle];
    assert Exec(Start(1), [a]).value.pc == [Waiting(Finish(sid))];
    assert Exec(Start(1), [a, b]).value.pc == [Running(Finish(sid))];
    assert Exec(Start(1), [a, b, b]).value.pc == [Leaving(0)];
  }

  lemma ExecNext(s: State, actions: seq<Action>, a: Action)
    ensures Exec(s, []) == Some(s)
    ensures var before := Exec(s, actions);
            Exec(s, actions + [a]) ==
            if before.None? || a.t >= |before.value.pc| then None else Apply(before.value, a)
  {
    assert (actions + [a])[..|actions + [a]| - 1] == actions;
  }

  /** In every run a call that gives its code at the end returns 0: the cursor of the walk is
      never null behind it, so finishing a session that does not exist is not told apart from
      finishing one that does. */
  lemma {:induction false} MissingSidIsNotReported(threads: nat, actions: seq<Action>, t: nat)
    requires Exec(Start(threads), actions).Some? && t < threads
    ensures var s := Exec(Start(threads), actions).value;
            |s.pc| == threads && (s.pc[t].Leaving? ==> s.pc[t].ret == 0)
    decreases |actions|
  {
    ExecInv(threads, actions);
    hide Apply, Inv;
    if actions != [] {
      var before, a := Exec(Start(threads), actions[..|actions| - 1]).value, actions[|actions| - 1];
      MissingSidIsNotReported(threads, actions[..|actions| - 1], t);
      ZeroStep(before, a, t);
    }
  }

  lemma ZeroStep(s: State, a: Action, t: nat)
    requires a.t < |s.pc| && t < |s.pc| && Apply(s, a).Some? && (s.pc[t].Leaving? ==> s.pc[t].ret == 0)
    ensures var n := Apply(s, a).value; |n.pc| == |s.pc| && (n.pc[t].Leaving? ==> n.pc[t].ret == 0)
  {
    hide Find;
  }
}
