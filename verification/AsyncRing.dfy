/**
 The asynchronous job ring of one open /dev/crypto: submitters, one worker and fetchers.

 Items move from the free list to the todo list, through the worker's private list to the
 done list, and back.  A step is one critical section, or one job that the worker runs.
 */
module AsyncRing {
  import opened Bytes
  import opened UserPages
  import opened CryptoRun
  import opened CryptoOps

  const DEF_COP_RINGSIZE := 16
  const MAX_COP_RINGSIZE := 64
  const EBUSY := -16

  /** A job, and what running it leaves in its call block. */
  datatype Job = Job(ses: nat, request: Request)
  datatype Outcome = Outcome(ret: int, iv: seq<byte>, output: seq<byte>)

  /** One run of crypto_run: whose job, and what came of it. */
  datatype Ran = Ran(job: Option<Job>, outcome: Outcome)

  datatype Item = Item(id: nat, job: Option<Job>, outcome: Option<Outcome>)

  /** Where a submitter or a fetcher is. */
  datatype Pc =
    | Idle
    | Submitting(job: Job)
    | Allocating(job: Job)                // counted as an item, but has none yet
    | Filling(item: Item, job: Job)
    | Queueing                            // appended, about to queue the work
    | Fetching
    | Copying(item: Item)                 // took the item from the done list

  /** Where the worker is: asleep, awake before its cut, or `next` jobs into its list. */
  datatype Worker = Asleep | Awake | Busy(next: nat)

  datatype State = State(
    free: seq<Item>,
    todo: seq<Item>,
    tmp: seq<Item>,
    done: seq<Item>,
    itemcount: nat,
    queued: bool,
    worker: Worker,
    pc: seq<Pc>,
    nextId: nat,          // items allocated so far
    leaked: nat,          // items counted but never allocated
    appended: seq<Job>,   // every job put on the todo list, in order
    ran: seq<Ran>,        // every run of crypto_run, in order
    taken: seq<Item>,     // every item taken from the done list, in order
    turns: map<nat, nat>) // which of these each thread took last

  datatype Action =
    | Submit(t: nat, job: Job)
    | Fetch(t: nat)
    | Next(t: nat, granted: bool)
    | Wake
    | Cut
    | Run(outcome: Outcome)
    | Splice

  predicate Mine(s: State, a: Action) {
    match a
    case Submit(t, _) => t < |s.pc| && s.pc[t].Idle?
    case Fetch(t) => t < |s.pc| && s.pc[t].Idle?
    case Next(t, _) => t < |s.pc| && !s.pc[t].Idle?
    case Wake => s.queued && s.worker.Asleep?
    case Cut => s.worker.Awake?
    case Run(_) => s.worker.Busy? && s.worker.next < |s.tmp|
    case Splice => s.worker.Busy? && s.worker.next == |s.tmp|
  }

  /** The state after an action that can be taken. */
  function Apply(s: State, a: Action): State
    requires Mine(s, a)
  {
    match a
    case Submit(t, job) => if job.request.flags.noZc then s else s.(pc := s.pc[t := Submitting(job)])
    case Fetch(t) => s.(pc := s.pc[t := Fetching])
    case Next(t, granted) => Step(s, t, granted)
    case Wake => s.(queued := false, worker := Awake)
    case Cut => s.(tmp := s.todo, todo := [], worker := Busy(0))
    case Run(outcome) =>
      var i := s.worker.next;
      s.(tmp := s.tmp[i := s.tmp[i].(outcome := Some(outcome))], worker := Busy(i + 1),
         ran := s.ran + [Ran(s.tmp[i].job, outcome)])
    case Splice => s.(done := s.done + s.tmp, tmp := [], worker := Asleep)
  }

  /** `crypto_async_run` and `crypto_async_fetch`, one critical section at a time. */
  function Step(s: State, t: nat, granted: bool): State
    requires t < |s.pc|
  {
    match s.pc[t]
    case Idle => s
    case Submitting(job) =>
      if s.free != [] then s.(free := s.free[1..], pc := s.pc[t := Filling(s.free[0], job)])
      else if s.itemcount < MAX_COP_RINGSIZE then
        s.(itemcount := s.itemcount + 1, pc := s.pc[t := Allocating(job)])
      else s.(pc := s.pc[t := Idle])
    case Allocating(job) =>
      if granted then
        s.(nextId := s.nextId + 1, pc := s.pc[t := Filling(Item(s.nextId, None, None), job)])
      else s.(leaked := s.leaked + 1, pc := s.pc[t := Idle])
    case Filling(item, job) =>
      s.(todo := s.todo + [item.(job := Some(job))], appended := s.appended + [job], pc := s.pc[t := Queueing])
    case Queueing => s.(queued := true, pc := s.pc[t := Idle])
    case Fetching =>
      if s.done == [] then s.(pc := s.pc[t := Idle])
      else
        var item := s.done[0];
        s.(done := s.done[1..], pc := s.pc[t := Copying(item)], taken := s.taken + [item],
           turns := s.turns[t := |s.taken|])
    case Copying(item) => s.(free := s.free + [item], pc := s.pc[t := Idle])
  }

  /** What the call of thread t returns with this step, if it returns. */
  function Reply(s: State, a: Action): Option<int>
    requires Mine(s, a)
  {
    match a
    case Submit(t, job) => if job.request.flags.noZc then Some(EINVAL) else None
    case Next(t, granted) =>
      (match s.pc[t]
       case Submitting(_) => if s.free == [] && s.itemcount >= MAX_COP_RINGSIZE then Some(EBUSY) else None
       case Allocating(_) => if granted then None else Some(EFAULT)
       case Queueing => Some(0)
       case Fetching => if s.done == [] then Some(EBUSY) else None
       case Copying(item) => if item.outcome.Some? then Some(item.outcome.value.ret) else None
       case _ => None)
    case _ => None
  }

  /// Conservation of items

  /** How often item id is in the list. */
  function Count(list: seq<Item>, id: nat): nat {
    if list == [] then 0 else (if list[0].id == id then 1 else 0) + Count(list[1..], id)
  }

  predicate Holds(p: Pc, id: nat) {
    (p.Filling? || p.Copying?) && p.item.id == id
  }

  /** How many threads have item id in hand. */
  function InHand(pc: seq<Pc>, id: nat): nat {
    if pc == [] then 0 else (if Holds(pc[0], id) then 1 else 0) + InHand(pc[1..], id)
  }

  /** How many threads have an item in hand, and how many have been counted as one that they
      do not have yet. */
  function Hands(pc: seq<Pc>): nat {
    if pc == [] then 0 else (if pc[0].Filling? || pc[0].Copying? then 1 else 0) + Hands(pc[1..])
  }

  function Pending(pc: seq<Pc>): nat {
    if pc == [] then 0 else (if pc[0].Allocating? then 1 else 0) + Pending(pc[1..])
  }

  /** In how many places item id is. */
  function Places(s: State, id: nat): nat {
    Count(s.free, id) + Count(s.todo, id) + Count(s.tmp, id) + Count(s.done, id) + InHand(s.pc, id)
  }

  /** Every item allocated so far is in exactly one place. */
  ghost predicate OnePlace(s: State) {
    forall id: nat :: Places(s, id) == if id < s.nextId then 1 else 0
  }

  /** The count is what is in the lists and in hand, is being allocated, or never could be. */
  ghost predicate Counted(s: State) {
    && |s.free| + |s.todo| + |s.tmp| + |s.done| + Hands(s.pc) == s.nextId
    && s.nextId + Pending(s.pc) + s.leaked == s.itemcount <= MAX_COP_RINGSIZE
  }

  lemma {:induction false} CountConcat(a: seq<Item>, b: seq<Item>, id: nat)
    ensures Count(a + b, id) == Count(a, id) + Count(b, id)
  {
    if a == [] {
      assert a + b == b;
    } else {
      assert (a + b)[1..] == a[1..] + b;
      CountConcat(a[1..], b, id);
    }
  }

  lemma CountOne(item: Item, id: nat)
    ensures Count([item], id) == if item.id == id then 1 else 0
  {
    assert [item][1..] == [];
  }

  lemma {:induction false} CountRan(list: seq<Item>, i: nat, item: Item, id: nat)
    requires i < |list| && item.id == list[i].id
    ensures Count(list[i := item], id) == Count(list, id)
  {
    if i > 0 {
      assert list[i := item][1..] == list[1..][i - 1 := item];
      CountRan(list[1..], i - 1, item, id);
    } else {
      assert list[0 := item][1..] == list[1..];
    }
  }

  lemma {:induction false} HandsUpdate(pc: seq<Pc>, t: nat, p: Pc, id: nat)
    requires t < |pc|
    ensures InHand(pc[t := p], id) ==
            InHand(pc, id) - (if Holds(pc[t], id) then 1 else 0) + (if Holds(p, id) then 1 else 0)
    ensures Hands(pc[t := p]) == Hands(pc) - (if pc[t].Filling? || pc[t].Copying? then 1 else 0)
                                 + (if p.Filling? || p.Copying? then 1 else 0)
    ensures Pending(pc[t := p]) == Pending(pc) - (if pc[t].Allocating? then 1 else 0) + (if p.Allocating? then 1 else 0)
  {
    hide Holds;
    if t > 0 {
      assert pc[t := p][1..] == pc[1..][t - 1 := p];
      HandsUpdate(pc[1..], t - 1, p, id);
    } else {
      assert pc[0 := p][1..] == pc[1..];
    }
  }

  lemma CountFront(list: seq<Item>, id: nat)
    requires list != []
    ensures Count(list, id) == (if list[0].id == id then 1 else 0) + Count(list[1..], id)
  {
  }

  /** A step of a call moves each item it touches from one place to another. */
  lemma StepMoves(s: State, t: nat, granted: bool, id: nat)
    requires t < |s.pc|
    ensures var n := Step(s, t, granted);
            Places(n, id) == Places(s, id) + (if n.nextId > s.nextId && id == s.nextId then 1 else 0)
  {
    hide Count, InHand;
    var p := s.pc[t];
    var n := Step(s, t, granted);
    HandsUpdate(s.pc, t, n.pc[t], id);
    match p
    case Submitting(_) =>
      if s.free != [] { CountFront(s.free, id); }
    case Filling(item, job) =>
      CountConcat(s.todo, [item.(job := Some(job))], id);
      CountOne(item.(job := Some(job)), id);
    case Fetching =>
      if s.done != [] { CountFront(s.done, id); }
    case Copying(item) =>
      CountConcat(s.free, [item], id);
      CountOne(item, id);
    case _ =>
  }

  /** A worker's private list is empty while it is not working. */
  predicate WorkerInv(s: State) {
    s.tmp == [] || s.worker.Busy?
  }

  lemma ApplyMoves(s: State, a: Action, id: nat)
    requires Mine(s, a) && WorkerInv(s)
    ensures var n := Apply(s, a);
            Places(n, id) == Places(s, id) + (if n.nextId > s.nextId && id == s.nextId then 1 else 0)
  {
    hide Step, Count, InHand;
    match a
    case Submit(t, job) => HandsUpdate(s.pc, t, Submitting(job), id);
    case Fetch(t) => HandsUpdate(s.pc, t, Fetching, id);
    case Next(t, granted) => StepMoves(s, t, granted, id);
    case Run(outcome) => CountRan(s.tmp, s.worker.next, s.tmp[s.worker.next].(outcome := Some(outcome)), id);
    case Splice =>
      CountConcat(s.done, s.tmp, id);
      EmptyCount(id);
    case Cut => EmptyCount(id);
    case Wake =>
  }

  lemma EmptyCount(id: nat)
    ensures Count([], id) == 0
  {
  }

  lemma StepCounts(s: State, t: nat, granted: bool)
    requires t < |s.pc| && Counted(s)
    ensures var n := Step(s, t, granted);
            Counted(n) && |n.pc| == |s.pc| && s.nextId <= n.nextId <= s.nextId + 1
  {
    hide Hands, Pending;
    HandsUpdate(s.pc, t, Step(s, t, granted).pc[t], 0);
  }

  lemma ApplyCounts(s: State, a: Action)
    requires Mine(s, a) && Counted(s) && WorkerInv(s)
    ensures var n := Apply(s, a);
            Counted(n) && WorkerInv(n) && |n.pc| == |s.pc| && s.nextId <= n.nextId <= s.nextId + 1
  {
    hide Hands, Pending, Step, Counted;
    match a
    case Submit(t, job) => MoveCounts(s, t, Submitting(job));
    case Fetch(t) => MoveCounts(s, t, Fetching);
    case Next(t, granted) =>
      StepCounts(s, t, granted);
      StepLeavesWorker(s, t, granted);
    case _ => WorkerCounts(s, a);
  }

  lemma MoveCounts(s: State, t: nat, p: Pc)
    requires t < |s.pc| && Counted(s) && s.pc[t].Idle? && (p.Submitting? || p.Fetching?)
    ensures Counted(s.(pc := s.pc[t := p])) && s.pc[t := s.pc[t]] == s.pc
  {
    hide Hands, Pending;
    HandsUpdate(s.pc, t, p, 0);
  }

  lemma StepLeavesWorker(s: State, t: nat, granted: bool)
    requires t < |s.pc|
    ensures var n := Step(s, t, granted); n.tmp == s.tmp && n.worker == s.worker && n.ran == s.ran
  {
  }

  lemma WorkerCounts(s: State, a: Action)
    requires Mine(s, a) && Counted(s) && WorkerInv(s) && !a.Submit? && !a.Fetch? && !a.Next?
    ensures var n := Apply(s, a); Counted(n) && WorkerInv(n) && n.pc == s.pc && n.nextId == s.nextId
  {
    hide Hands, Pending;
  }

  /// Order

  /** The jobs that have been appended and not yet fetched. */
  function Line(s: State): seq<Item> {
    s.done + s.tmp + s.todo
  }

  /** How many jobs of the worker's list have been run. */
  function Handled(s: State): nat {
    if s.worker.Busy? then s.worker.next else 0
  }

  /** The line holds the jobs in the order they were appended, the front of it has been run in
      that order, and the n-th item fetched was that of the n-th job with the n-th outcome. */
  ghost predicate OrderInv(s: State) {
    && Handled(s) <= |s.tmp|
    && |s.taken| + |Line(s)| == |s.appended|
    && |s.taken| + |s.done| + Handled(s) == |s.ran|
    && (forall i | 0 <= i < |Line(s)| :: Line(s)[i].job == Some(s.appended[|s.taken| + i]))
    && (forall i | 0 <= i < |s.done| + Handled(s) :: Line(s)[i].outcome == Some(s.ran[|s.taken| + i].outcome))
    && (forall n | 0 <= n < |s.ran| :: s.ran[n].job == Some(s.appended[n]))
    && (forall n | 0 <= n < |s.taken| ::
          s.taken[n].job == Some(s.appended[n]) && s.taken[n].outcome == Some(s.ran[n].outcome))
  }

  /** An item in a fetcher's hand is the one of its turn. */
  ghost predicate TurnInv(s: State) {
    forall t | 0 <= t < |s.pc| && s.pc[t].Copying? :: t in s.turns && RightItem(s, s.pc[t].item, s.turns[t])
  }

  ghost predicate RightItem(s: State, item: Item, turn: nat) {
    && turn < |s.taken| && turn < |s.ran| && turn < |s.appended|
    && item == s.taken[turn]
    && s.ran[turn].job == item.job == Some(s.appended[turn]) && item.outcome == Some(s.ran[turn].outcome)
  }

  /** No job is left without someone who will see to it. */
  ghost predicate NotStranded(s: State) {
    s.todo != [] ==> s.queued || s.worker.Awake? || exists t :: 0 <= t < |s.pc| && s.pc[t].Queueing?
  }

  lemma AppendKeepsOrder(s: State, t: nat, granted: bool)
    requires OrderInv(s) && t < |s.pc| && s.pc[t].Filling?
    ensures OrderInv(Step(s, t, granted))
  {
    assert Line(Step(s, t, granted)) == Line(s) + [s.pc[t].item.(job := Some(s.pc[t].job))];
  }

  lemma OtherKeepsOrder(s: State, t: nat, granted: bool)
    requires OrderInv(s) && t < |s.pc| && !s.pc[t].Fetching? && !s.pc[t].Filling?
    ensures OrderInv(Step(s, t, granted))
  {
    var n := Step(s, t, granted);
    assert n.done == s.done && n.tmp == s.tmp && n.todo == s.todo && n.worker == s.worker;
    assert n.taken == s.taken && n.ran == s.ran && n.appended == s.appended;
    hide Step;
  }

  lemma FetchKeepsOrder(s: State, t: nat, granted: bool)
    requires OrderInv(s) && t < |s.pc| && s.pc[t].Fetching?
    ensures OrderInv(Step(s, t, granted))
    ensures s.done != [] ==>
              var n := Step(s, t, granted);
              |n.taken| == |s.taken| + 1 && RightItem(n, s.done[0], |s.taken|)
  {
    var n := Step(s, t, granted);
    if s.done != [] {
      TakeKeepsOrder(s, n);
    } else {
      assert n.done == s.done && n.taken == s.taken && n.tmp == s.tmp && n.todo == s.todo;
      assert n.ran == s.ran && n.appended == s.appended && n.worker == s.worker;
      hide Step;
    }
  }

  /** The oldest finished item leaves the line. */
  lemma TakeKeepsOrder(s: State, n: State)
    requires OrderInv(s) && s.done != [] && n.done == s.done[1..] && n.taken == s.taken + [s.done[0]]
    requires n.tmp == s.tmp && n.todo == s.todo && n.worker == s.worker && n.ran == s.ran && n.appended == s.appended
    ensures OrderInv(n) && RightItem(n, s.done[0], |s.taken|)
  {
    assert Line(s)[0] == s.done[0] && Line(n) == Line(s)[1..];
    assert forall i | 0 <= i < |Line(n)| :: Line(n)[i] == Line(s)[i + 1];
    assert Handled(n) == Handled(s);
    hide Line, Handled;
    assert s.ran[|s.taken|].job == Some(s.appended[|s.taken|]);
  }

  lemma RunKeepsOrder(s: State, outcome: Outcome)
    requires OrderInv(s) && Mine(s, Run(outcome))
    ensures OrderInv(Apply(s, Run(outcome)))
    ensures |s.ran| < |s.appended| && s.tmp[s.worker.next].job == Some(s.appended[|s.ran|])
  {
    var n, i, k := Apply(s, Run(outcome)), s.worker.next, |s.done| + s.worker.next;
    var item := s.tmp[i].(outcome := Some(outcome));
    assert Line(s)[k] == s.tmp[i] && Line(n) == Line(s)[k := item];
    assert n.ran == s.ran + [Ran(s.tmp[i].job, outcome)] && n.done == s.done && |n.tmp| == |s.tmp|;
    assert n.taken == s.taken && n.appended == s.appended && Handled(n) == Handled(s) + 1;
    hide Line, Apply, Handled;
  }

  lemma WorkerKeepsOrder(s: State, a: Action)
    requires OrderInv(s) && WorkerInv(s) && Mine(s, a) && (a.Wake? || a.Cut? || a.Splice?)
    ensures OrderInv(Apply(s, a))
  {
    var n := Apply(s, a);
    assert Line(n) == Line(s) && n.taken == s.taken && n.ran == s.ran && n.appended == s.appended;
    assert Handled(n) <= |n.tmp| && |n.done| + Handled(n) == |s.done| + Handled(s);
    hide Line, Apply, Handled;
  }

  lemma ApplyKeepsOrder(s: State, a: Action)
    requires OrderInv(s) && WorkerInv(s) && Mine(s, a)
    ensures OrderInv(Apply(s, a))
  {
    match a
    case Next(t, granted) =>
      if s.pc[t].Fetching? {
        FetchKeepsOrder(s, t, granted);
      } else if s.pc[t].Filling? {
        AppendKeepsOrder(s, t, granted);
      } else {
        OtherKeepsOrder(s, t, granted);
      }
    case Run(outcome) => RunKeepsOrder(s, outcome);
    case Submit(_, _) => assert Line(Apply(s, a)) == Line(s);
    case Fetch(_) => assert Line(Apply(s, a)) == Line(s);
    case _ => WorkerKeepsOrder(s, a);
  }

  /** The histories only grow. */
  lemma HistoriesGrow(s: State, a: Action)
    requires Mine(s, a)
    ensures var n := Apply(s, a);
            && |s.taken| <= |n.taken| && n.taken[..|s.taken|] == s.taken
            && |s.ran| <= |n.ran| && n.ran[..|s.ran|] == s.ran
            && |s.appended| <= |n.appended| && n.appended[..|s.appended|] == s.appended
  {
    var n := Apply(s, a);
    assert n.taken == s.taken || exists item :: n.taken == s.taken + [item] by {
      assert n.taken == s.taken || n.taken == s.taken + [s.done[0]];
    }
    assert n.ran == s.ran || exists r :: n.ran == s.ran + [r] by {
      assert n.ran == s.ran || n.ran == s.ran + [Ran(s.tmp[s.worker.next].job, a.outcome)];
    }
    assert n.appended == s.appended || exists job :: n.appended == s.appended + [job] by {
      assert n.appended == s.appended || n.appended == s.appended + [s.pc[a.t].job];
    }
    hide Apply;
  }

  lemma RightItemStays(s: State, a: Action, item: Item, turn: nat)
    requires Mine(s, a) && RightItem(s, item, turn)
    ensures RightItem(Apply(s, a), item, turn)
  {
    HistoriesGrow(s, a);
    var n := Apply(s, a);
    hide Apply;
    assert n.ran[..|s.ran|][turn] == n.ran[turn] && n.appended[..|s.appended|][turn] == n.appended[turn];
    assert n.taken[..|s.taken|][turn] == n.taken[turn];
  }

  lemma ApplyKeepsTurns(s: State, a: Action)
    requires OrderInv(s) && TurnInv(s) && Mine(s, a)
    ensures TurnInv(Apply(s, a))
  {
    hide OrderInv, RightItem;
    var n := Apply(s, a);
    forall t | 0 <= t < |n.pc| && n.pc[t].Copying? ensures t in n.turns && RightItem(n, n.pc[t].item, n.turns[t]) {
      if s.pc[t].Copying? {
        assert n.pc[t] == s.pc[t] && n.turns[t] == s.turns[t];
        RightItemStays(s, a, n.pc[t].item, n.turns[t]);
      } else {
        FetchKeepsOrder(s, t, a.granted);
      }
    }
  }

  lemma ApplyKeepsUnstranded(s: State, a: Action)
    requires NotStranded(s) && Mine(s, a)
    ensures NotStranded(Apply(s, a))
  {
    var n := Apply(s, a);
    if s.todo != [] && !s.queued && !s.worker.Awake? {
      var t :| 0 <= t < |s.pc| && s.pc[t].Queueing?;
      assert n.queued || n.pc[t].Queueing?;
    } else if a.Next? && s.pc[a.t].Filling? {
      assert n.pc[a.t].Queueing?;
    }
  }

  /// Whole runs

  ghost predicate Inv(s: State) {
    OnePlace(s) && Counted(s) && WorkerInv(s) && OrderInv(s) && TurnInv(s) && NotStranded(s)
  }

  /** The ring as it is opened: the items were put on the free list one after the other, each
      at its front. */
  function Opened(n: nat): seq<Item> {
    if n == 0 then [] else [Item(n - 1, None, None)] + Opened(n - 1)
  }

  function Start(threads: nat): State {
    State(Opened(DEF_COP_RINGSIZE), [], [], [], DEF_COP_RINGSIZE, false, Asleep, seq(threads, _ => Idle),
          DEF_COP_RINGSIZE, 0, [], [], [], map[])
  }

  lemma {:induction false} OpenedOnce(n: nat, id: nat)
    ensures Count(Opened(n), id) == (if id < n then 1 else 0) && |Opened(n)| == n
  {
    if n > 0 {
      assert Opened(n)[1..] == Opened(n - 1);
      OpenedOnce(n - 1, id);
    }
  }

  lemma {:induction false} AllIdle(threads: nat, id: nat)
    ensures var pc := seq<Pc>(threads, _ => Idle); InHand(pc, id) == Hands(pc) == Pending(pc) == 0
  {
    if threads > 0 {
      AllIdle(threads - 1, id);
      assert seq<Pc>(threads, _ => Idle)[1..] == seq<Pc>(threads - 1, _ => Idle);
    }
  }

  lemma StartInv(threads: nat)
    ensures Inv(Start(threads))
  {
    hide Opened, Count, InHand, Hands, Pending;
    var s := Start(threads);
    OpenedOnce(DEF_COP_RINGSIZE, 0);
    AllIdle(threads, 0);
    forall id: nat ensures Places(s, id) == if id < s.nextId then 1 else 0 {
      OpenedOnce(DEF_COP_RINGSIZE, id);
      AllIdle(threads, id);
      EmptyCount(id);
    }
  }

  lemma ApplyInv(s: State, a: Action)
    requires Inv(s) && Mine(s, a)
    ensures Inv(Apply(s, a)) && |Apply(s, a).pc| == |s.pc|
  {
    var n := Apply(s, a);
    ApplyCounts(s, a);
    ApplyKeepsOrder(s, a);
    ApplyKeepsTurns(s, a);
    ApplyKeepsUnstranded(s, a);
    hide Mine, Apply, Counted, WorkerInv, OrderInv, TurnInv, NotStranded, Places;
    forall id: nat ensures Places(n, id) == if id < n.nextId then 1 else 0 {
      ApplyMoves(s, a, id);
    }
  }

  /** The state after the actions, or None if one of them could not be taken. */
  function Exec(s: State, actions: seq<Action>): Option<State> {
    if actions == [] then Some(s)
    else
      var before := Exec(s, actions[..|actions| - 1]);
      var a := actions[|actions| - 1];
      if before.None? || !Mine(before.value, a) then None else Some(Apply(before.value, a))
  }

  lemma {:induction false} ExecInv(s: State, actions: seq<Action>)
    requires Inv(s) && Exec(s, actions).Some?
    ensures Inv(Exec(s, actions).value) && |Exec(s, actions).value.pc| == |s.pc|
    decreases |actions|
  {
    hide Inv, Apply, Mine;
    if actions != [] {
      ExecInv(s, actions[..|actions| - 1]);
      ApplyInv(Exec(s, actions[..|actions| - 1]).value, actions[|actions| - 1]);
    }
  }

  /** Conservation and order, in every state that any number of threads can reach: each item is
      in exactly one place, their number is the item count but for failed allocations, and is
      at most 64; the n-th run is of the n-th job appended, the n-th item ever fetched carries
      that job and that run's outcome, and a fetcher holds the item of its turn. */
  lemma RingConservesAndKeepsOrder(threads: nat, actions: seq<Action>)
    requires Exec(Start(threads), actions).Some?
    ensures var s := Exec(Start(threads), actions).value;
            && (forall id: nat :: Places(s, id) == if id < s.nextId then 1 else 0)
            && |s.free| + |s.todo| + |s.tmp| + |s.done| + Hands(s.pc) + Pending(s.pc) + s.leaked == s.itemcount
            && s.itemcount <= MAX_COP_RINGSIZE
            && |s.taken| <= |s.ran| <= |s.appended|
            && (forall n | 0 <= n < |s.ran| :: s.ran[n].job == Some(s.appended[n]))
            && (forall n | 0 <= n < |s.taken| ::
                  s.taken[n].job == Some(s.appended[n]) && s.taken[n].outcome == Some(s.ran[n].outcome))
            && (forall t | 0 <= t < |s.pc| && s.pc[t].Copying? ::
                  t in s.turns && s.turns[t] < |s.taken| && s.pc[t].item == s.taken[s.turns[t]])
            && (s.todo != [] ==> s.queued || s.worker.Awake? || exists t :: 0 <= t < |s.pc| && s.pc[t].Queueing?)
  {
    StartInv(threads);
    ExecInv(Start(threads), actions);
    hide Exec, Places, Hands, Pending, Start;
  }

  /// The worker on its own

  /** What the worker may do next, whatever the job it would run gives. */
  function WorkerTurn(s: State, outcome: Outcome): Option<Action> {
    match s.worker
    case Asleep => if s.queued then Some(Wake) else None
    case Awake => Some(Cut)
    case Busy(next) => if next < |s.tmp| then Some(Run(outcome)) else Some(Splice)
  }

  /** The worker's steps to its rest at most. */
  function Effort(s: State): nat
    requires Handled(s) <= |s.tmp|
  {
    (if s.queued then 4 else 0) + |s.todo| +
    match s.worker
    case Asleep => 0
    case Awake => 3
    case Busy(next) => 1 + |s.tmp| - next
  }

  /** The state after the worker has been left alone until it rests; `outcomes` says what its
      jobs give. */
  function Drained(s: State, outcomes: nat -> Outcome): State
    requires Handled(s) <= |s.tmp|
    decreases Effort(s)
  {
    var a := WorkerTurn(s, outcomes(|s.ran|));
    if a.None? then s else Drained(Apply(s, a.value), outcomes)
  }

  /** When no call is under way, the worker left alone comes to rest with every job that was
      appended run and on the done list. */
  lemma {:induction false} WorkerDrains(s: State, outcomes: nat -> Outcome)
    requires Inv(s) && forall t | 0 <= t < |s.pc| :: s.pc[t].Idle?
    ensures Handled(s) <= |s.tmp|
    ensures var n := Drained(s, outcomes);
            && Inv(n) && n.todo == [] && n.tmp == [] && n.worker.Asleep? && !n.queued
            && n.appended == s.appended && n.taken == s.taken && n.pc == s.pc && n.itemcount == s.itemcount
            && |n.ran| == |n.appended| == |n.taken| + |n.done|
            && (forall i | 0 <= i < |n.ran| :: n.ran[i].job == Some(n.appended[i]))
    decreases Effort(s)
  {
    hide Places, Hands, Pending;
    var a := WorkerTurn(s, outcomes(|s.ran|));
    if a.Some? {
      ApplyInv(s, a.value);
      WorkerDrains(Apply(s, a.value), outcomes);
    }
  }

  /// Release

  /** What `cryptodev_release` frees, once the worker has been stopped and no call is under way. */
  function Freed(s: State): seq<Item> {
    s.free + s.todo + s.done
  }

  /** The items freed are exactly those counted if and only if no allocation ever failed. */
  lemma ReleaseFreesAll(s: State)
    requires Inv(s) && s.worker.Asleep? && forall t | 0 <= t < |s.pc| :: s.pc[t].Idle?
    ensures |Freed(s)| + s.leaked == s.itemcount
    ensures |Freed(s)| == s.itemcount <==> s.leaked == 0
    ensures forall id: nat :: Count(Freed(s), id) == if id < s.nextId then 1 else 0
  {
    hide Hands, Pending, InHand, Count, OrderInv, TurnInv;
    NobodyHolds(s.pc, 0);
    forall id: nat ensures Count(Freed(s), id) == if id < s.nextId then 1 else 0 {
      NobodyHolds(s.pc, id);
      CountConcat(s.free + s.todo, s.done, id);
      CountConcat(s.free, s.todo, id);
      EmptyCount(id);
      assert Places(s, id) == if id < s.nextId then 1 else 0;
    }
  }

  lemma {:induction false} NobodyHolds(pc: seq<Pc>, id: nat)
    requires forall t | 0 <= t < |pc| :: pc[t].Idle?
    ensures InHand(pc, id) == Hands(pc) == Pending(pc) == 0
  {
    if pc != [] {
      NobodyHolds(pc[1..], id);
    }
  }

  lemma ApplyLeaks(s: State, a: Action)
    requires Mine(s, a)
    ensures Apply(s, a).leaked >= s.leaked
  {
  }

  lemma {:induction false} LeakedNeverFalls(s: State, actions: seq<Action>)
    requires Exec(s, actions).Some?
    ensures Exec(s, actions).value.leaked >= s.leaked
    decreases |actions|
  {
    hide Apply, Mine;
    if actions != [] {
      LeakedNeverFalls(s, actions[..|actions| - 1]);
      ApplyLeaks(Exec(s, actions[..|actions| - 1]).value, actions[|actions| - 1]);
    }
  }

  /** An allocation that fails is not made good: however the ring is used from then on, its
      release frees fewer items than are counted. */
  lemma FailedAllocationLeaks(s: State, t: nat, actions: seq<Action>)
    requires Inv(s) && t < |s.pc| && s.pc[t].Allocating? && Exec(Step(s, t, false), actions).Some?
    ensures Reply(s, Next(t, false)) == Some(EFAULT)
    ensures var n := Exec(Step(s, t, false), actions).value;
            n.worker.Asleep? && (forall u | 0 <= u < |n.pc| :: n.pc[u].Idle?) ==> |Freed(n)| < n.itemcount
  {
    ApplyInv(s, Next(t, false));
    ExecInv(Step(s, t, false), actions);
    LeakedNeverFalls(Step(s, t, false), actions);
    hide Inv, Exec, Freed;
    var n := Exec(Step(s, t, false), actions).value;
    if n.worker.Asleep? && (forall u | 0 <= u < |n.pc| :: n.pc[u].Idle?) {
      ReleaseFreesAll(n);
    }
  }

  /// The driver's steps

  class CryptPriv {
    var free: seq<Item>
    var todo: seq<Item>
    var tmp: seq<Item>
    var done: seq<Item>
    var itemcount: nat
    var queued: bool
    var worker: Worker
    var pc: seq<Pc>
    var nextId: nat
    ghost var leaked: nat
    ghost var appended: seq<Job>
    ghost var ran: seq<Ran>
    ghost var taken: seq<Item>
    ghost var turns: map<nat, nat>

    ghost function View(): State
      reads this
    {
      State(free, todo, tmp, done, itemcount, queued, worker, pc, nextId, leaked, appended, ran, taken,
            turns)
    }

    /** The invariant of all runs. */
    ghost predicate Valid()
      reads this
    {
      Inv(View())
    }

    /** `cryptodev_open`, when every item can be allocated. */
    constructor (threads: nat)
      ensures Valid() && View() == Start(threads)
    {
      free, todo, tmp, done, itemcount, queued, worker := [], [], [], [], 0, false, Asleep;
      pc, nextId, leaked, appended, ran, taken, turns := Start(threads).pc, 0, 0, [], [], [], map[];
      new;
      hide Inv;
      for i := 0 to DEF_COP_RINGSIZE
        invariant free == Opened(i) && itemcount == nextId == i
        invariant View() == Start(threads).(free := free, itemcount := itemcount, nextId := nextId)
      {
        free := [Item(nextId, None, None)] + free;
        nextId, itemcount := nextId + 1, itemcount + 1;
      }
      assert View() == Start(threads);
      hide Start;
      StartInv(threads);
    }

    /** The check in front of `crypto_async_run`. */
    method Enter(t: nat, job: Job) returns (ret: Option<int>)
      requires Valid() && t < |pc| && pc[t].Idle?
      modifies this
      ensures Valid()
      ensures View() == Apply(old(View()), Submit(t, job)) && ret == Reply(old(View()), Submit(t, job))
    {
      hide Inv;
      ApplyInv(View(), Submit(t, job));
      if job.request.flags.noZc {
        return Some(EINVAL);
      }
      pc := pc[t := Submitting(job)];
      ret := None;
    }

    /** The section of `crypto_async_run` under the free list's mutex. */
    method TakeFree(t: nat) returns (ret: Option<int>)
      requires Valid() && t < |pc| && pc[t].Submitting?
      modifies this
      ensures Valid()
      ensures View() == Apply(old(View()), Next(t, true)) && ret == Reply(old(View()), Next(t, true))
    {
      hide Inv;
      ApplyInv(View(), Next(t, true));
      var job := pc[t].job;
      ret := None;
      if free != [] {
        pc := pc[t := Filling(free[0], job)];
        free := free[1..];
      } else if itemcount < MAX_COP_RINGSIZE {
        itemcount := itemcount + 1;
        pc := pc[t := Allocating(job)];
      } else {
        pc := pc[t := Idle];
        ret := Some(EBUSY);
      }
    }

    method Allocate(t: nat, granted: bool) returns (ret: Option<int>)
      requires Valid() && t < |pc| && pc[t].Allocating?
      modifies this
      ensures Valid()
      ensures View() == Apply(old(View()), Next(t, granted)) && ret == Reply(old(View()), Next(t, granted))
    {
      hide Inv;
      ApplyInv(View(), Next(t, granted));
      if granted {
        pc := pc[t := Filling(Item(nextId, None, None), pc[t].job)];
        nextId := nextId + 1;
        ret := None;
      } else {
        leaked := leaked + 1;
        pc := pc[t := Idle];
        ret := Some(EFAULT);
      }
    }

    /** The job goes into the item, and the item to the end of the todo list. */
    method Append(t: nat)
      requires Valid() && t < |pc| && pc[t].Filling?
      modifies this
      ensures Valid()
      ensures View() == Apply(old(View()), Next(t, true))
    {
      hide Inv;
      ApplyInv(View(), Next(t, true));
      todo := todo + [pc[t].item.(job := Some(pc[t].job))];
      appended := appended + [pc[t].job];
      pc := pc[t := Queueing];
    }

    method QueueWork(t: nat) returns (ret: int)
      requires Valid() && t < |pc| && pc[t].Queueing?
      modifies this
      ensures Valid()
      ensures View() == Apply(old(View()), Next(t, true)) && Some(ret) == Reply(old(View()), Next(t, true))
    {
      hide Inv;
      ApplyInv(View(), Next(t, true));
      queued := true;
      pc := pc[t := Idle];
      ret := 0;
    }

    /** The section of `crypto_async_fetch` under the done list's mutex. */
    method TakeDone(t: nat) returns (ret: Option<int>)
      requires Valid() && t < |pc| && pc[t].Fetching?
      modifies this
      ensures Valid()
      ensures View() == Apply(old(View()), Next(t, true)) && ret == Reply(old(View()), Next(t, true))
    {
      hide Inv;
      ApplyInv(View(), Next(t, true));
      if done == [] {
        pc := pc[t := Idle];
        return Some(EBUSY);
      }
      pc := pc[t := Copying(done[0])];
      turns := turns[t := |taken|];
      taken := taken + [done[0]];
      done := done[1..];
      ret := None;
    }

    /** The rest of it: the call block and the result come from the item, and the item goes
        back to the end of the free list. */
    method GiveBack(t: nat) returns (job: Option<Job>, outcome: Option<Outcome>)
      requires Valid() && t < |pc| && pc[t].Copying?
      modifies this
      ensures Valid()
      ensures View() == Apply(old(View()), Next(t, true))
      ensures t in turns && turns == old(turns) && turns[t] < |ran| && turns[t] < |appended|
      ensures var turn := turns[t];
              && job == ran[turn].job == Some(appended[turn]) && outcome == Some(ran[turn].outcome)
              && Reply(old(View()), Next(t, true)) == Some(ran[turn].outcome.ret)
    {
      hide OnePlace, Counted, OrderInv, NotStranded, WorkerInv;
      var item := pc[t].item;
      assert RightItem(View(), item, turns[t]);
      ApplyInv(View(), Next(t, true));
      hide Inv;
      job, outcome := item.job, item.outcome;
      free := free + [item];
      pc := pc[t := Idle];
    }

    /** The workqueue runs a queued work item once at a time. */
    method StartWork()
      requires Valid() && queued && worker.Asleep?
      modifies this
      ensures Valid()
      ensures View() == Apply(old(View()), Wake)
    {
      hide Inv;
      ApplyInv(View(), Wake);
      queued, worker := false, Awake;
    }

    /** `cryptask_routine`, from one point where other threads can come in to the next. */
    method CutTodo()
      requires Valid() && worker.Awake?
      modifies this
      ensures Valid()
      ensures View() == Apply(old(View()), Cut)
    {
      hide Inv;
      ApplyInv(View(), Cut);
      tmp, todo, worker := todo, [], Busy(0);
    }

    method RunNext(outcome: Outcome)
      requires Valid() && worker.Busy? && worker.next < |tmp|
      modifies this
      ensures Valid()
      ensures View() == Apply(old(View()), Run(outcome))
    {
      hide Inv;
      ApplyInv(View(), Run(outcome));
      var i := worker.next;
      ran := ran + [Ran(tmp[i].job, outcome)];
      tmp := tmp[i := tmp[i].(outcome := Some(outcome))];
      worker := Busy(i + 1);
    }

    method SpliceDone()
      requires Valid() && worker.Busy? && worker.next == |tmp|
      modifies this
      ensures Valid()
      ensures View() == Apply(old(View()), Splice)
    {
      hide Inv;
      ApplyInv(View(), Splice);
      done, tmp, worker := done + tmp, [], Asleep;
    }

    /** `cryptodev_release` after the worker has been stopped: the lists are spliced and their
        items freed one by one. */
    method Release() returns (itemsFreed: nat)
      requires Inv(View()) && worker.Asleep? && forall t | 0 <= t < |pc| :: pc[t].Idle?
      modifies this
      ensures itemsFreed == |Freed(old(View()))| && free == []
      ensures itemsFreed == itemcount <==> leaked == 0
      ensures itemcount == old(itemcount) && leaked == old(leaked)
    {
      ReleaseFreesAll(View());
      hide Inv;
      free := free + todo;
      free := free + done;
      itemsFreed := 0;
      while free != []
        invariant itemsFreed + |free| == |Freed(old(View()))|
        invariant itemcount == old(itemcount) && leaked == old(leaked)
        decreases |free|
      {
        free := free[1..];
        itemsFreed := itemsFreed + 1;
      }
    }
  }
}
