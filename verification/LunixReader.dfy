/**
 One open Lunix device file against a sensor that is updated behind its back.

 A read call is not atomic: it snapshots the sensor under the spinlock, compares time
 stamps without it, may release the file's semaphore and sleep, and copies out.  `Apply`
 gives each of these atomic actions as a function on values; `OpenFile` performs them on
 the driver's fields; the theorems range over every sequence of actions.
 */
module LunixReader {
  import opened Bytes
  import opened LunixSensors

  const BUFSZ := 20
  const EAGAIN := -11
  const EFAULT := -14
  const ERESTARTSYS := -512

  /** Where the single reader of the file is inside `read`. */
  datatype Pc =
    | Outside
    | Refresh(cnt: nat)               // about to call state_update, f_pos is 0
    | Judge(cnt: nat, snap: nat)      // publication number `snap` was copied under the spinlock
    | Asleep(cnt: nat)                // semaphore released, waiting on the sensor
    | CopyOut(cnt: nat)               // semaphore held, about to copy to the user

  /** The text of a measurement: the lookup tables and the format are not part of this model. */
  datatype Format = Format(text: nat -> seq<byte>)

  /** Every text fits the device buffer together with its terminating zero. */
  ghost predicate Fits(fmt: Format) {
    forall v :: 1 <= |fmt.text(v)| < BUFSZ
  }

  datatype State = State(
    published: seq<Msr>,    // all measurements of the sensor; the first is the zeroed page
    bufData: seq<byte>,
    bufLim: nat,
    bufStamp: nat,
    fpos: nat,
    pc: Pc,
    // history
    cached: nat,            // publication number of the text in the buffer
    whole: seq<nat>,        // publication numbers of the texts delivered to their end
    delivered: seq<byte>)   // every byte handed to the user so far

  /** What a sensor may have published: the zeroed page of `lunix_sensor_init`, and updates
      with a non-decreasing clock. */
  predicate History(published: seq<Msr>) {
    published != [] && published[0] == Msr(0, 0) && StampsOrdered(published)
  }

  /** `lunix_chrdev_open` on a sensor with this history. */
  function Opened(published: seq<Msr>, bufData: seq<byte>): State {
    State(published, bufData, 0, 0, 0, Outside, 0, [], [])
  }

  datatype Action =
    | Publish(value: nat, now: nat)   // lunix_sensor_update, any other thread
    | Begin(cnt: nat)                 // read() enters and takes the semaphore
    | Snapshot                        // value and stamp under the spinlock
    | Decide(nonblock: bool)          // the unlocked freshness test, and what follows it
    | Wake                            // the wait condition holds; semaphore retaken
    | Interrupt                       // a signal ends the wait
    | Copy(fault: bool)               // copy_to_user, position update, auto-rewind

  function Last(s: State): Msr
    requires s.published != []
  {
    s.published[|s.published| - 1]
  }

  /** `lunix_chrdev_state_needs_refresh`. */
  predicate NeedsRefresh(s: State)
    requires s.published != []
  {
    Last(s).lastUpdate != s.bufStamp
  }

  predicate Enabled(s: State, a: Action) {
    && s.published != [] && s.bufData != []
    && match a
       case Publish(_, now) => now < 0x1_0000_0000 && Last(s).lastUpdate <= now
       case Begin(_) => s.pc == Outside
       case Snapshot => s.pc.Refresh?
       case Decide(_) => s.pc.Judge? && s.pc.snap < |s.published|
       case Wake => s.pc.Asleep? && NeedsRefresh(s)
       case Interrupt => s.pc.Asleep?
       case Copy(_) => s.pc.CopyOut? && s.fpos <= s.bufLim <= |s.bufData|
  }

  /** snprintf into the buffer: as much of the text as fits, a zero, and the old bytes
      behind it. */
  function Printed(text: seq<byte>, buf: seq<byte>): (r: seq<byte>)
    requires buf != []
    ensures |r| == |buf|
    ensures |text| < |buf| ==> r[..|text|] == text
  {
    if |text| < |buf| then text + [0] + buf[|text| + 1..] else text[..|buf| - 1] + [0]
  }

  function Apply(fmt: Format, s: State, a: Action): State
    requires Enabled(s, a)
  {
    match a
    case Publish(value, now) => s.(published := s.published + [Msr(value, now)])
    case Begin(cnt) => s.(pc := if s.fpos == 0 then Refresh(cnt) else CopyOut(cnt))
    case Snapshot => s.(pc := Judge(s.pc.cnt, |s.published| - 1))
    case Decide(nonblock) =>
      if NeedsRefresh(s) then
        var m := s.published[s.pc.snap];
        s.(bufData := Printed(fmt.text(m.value), s.bufData), bufLim := |fmt.text(m.value)|,
           bufStamp := m.lastUpdate, cached := s.pc.snap, pc := CopyOut(s.pc.cnt))
      else if nonblock then s.(pc := Outside)
      else s.(pc := Asleep(s.pc.cnt))
    case Wake => s.(pc := Refresh(s.pc.cnt))
    case Interrupt => s.(pc := Outside)
    case Copy(fault) =>
      var remaining := s.bufLim - s.fpos;
      var cnt := if s.pc.cnt >= remaining then remaining else s.pc.cnt;
      if fault then s.(pc := Outside)
      else
        var fpos := s.fpos + cnt;
        var t := s.(pc := Outside, delivered := s.delivered + s.bufData[s.fpos..fpos]);
        if fpos == s.bufLim then t.(fpos := 0, whole := s.whole + [s.cached])
        else t.(fpos := fpos)
  }

  /// What every state keeps

  /** The texts of the given publications, one after another. */
  function Render(fmt: Format, s: seq<Msr>, ids: seq<nat>): seq<byte>
    requires forall i | 0 <= i < |ids| :: ids[i] < |s|
  {
    if ids == [] then [] else Render(fmt, s, ids[..|ids| - 1]) + fmt.text(s[ids[|ids| - 1]].value)
  }

  predicate NonDecreasing(ids: seq<nat>) {
    forall i, j | 0 <= i < j < |ids| :: ids[i] <= ids[j]
  }

  predicate StampsOrdered(s: seq<Msr>) {
    forall i, j | 0 <= i < j < |s| :: s[i].lastUpdate <= s[j].lastUpdate
  }

  /** The buffer holds one publication's text, and a snapshot is never older than it. */
  ghost predicate Buffered(fmt: Format, s: State) {
    && History(s.published) && |s.bufData| == BUFSZ
    && s.cached < |s.published|
    && s.bufStamp == s.published[s.cached].lastUpdate
    && (s.fpos != 0 || s.pc.CopyOut? ==>
          && s.fpos < s.bufLim == |fmt.text(s.published[s.cached].value)| < BUFSZ
          && s.bufData[..s.bufLim] == fmt.text(s.published[s.cached].value))
    && (s.pc.Refresh? || s.pc.Judge? || s.pc.Asleep? ==> s.fpos == 0)
    && (s.pc.Judge? ==> s.cached <= s.pc.snap < |s.published|)
  }

  /** What has been delivered: whole texts in order, then a piece of the buffer. */
  ghost predicate Delivered(fmt: Format, s: State) {
    && s.fpos <= |s.bufData|
    && (forall i | 0 <= i < |s.whole| :: s.whole[i] <= s.cached < |s.published|)
    && NonDecreasing(s.whole)
    && s.delivered == Render(fmt, s.published, s.whole) + s.bufData[..s.fpos]
  }

  ghost predicate Inv(fmt: Format, s: State) {
    Buffered(fmt, s) && Delivered(fmt, s)
  }

  lemma {:induction false} RenderGrows(fmt: Format, s: seq<Msr>, m: Msr, ids: seq<nat>)
    requires forall i | 0 <= i < |ids| :: ids[i] < |s|
    ensures Render(fmt, s + [m], ids) == Render(fmt, s, ids)
  {
    if ids != [] {
      RenderGrows(fmt, s, m, ids[..|ids| - 1]);
    }
  }

  lemma RenderNext(fmt: Format, s: seq<Msr>, ids: seq<nat>, id: nat)
    requires id < |s| && forall i | 0 <= i < |ids| :: ids[i] < |s|
    ensures Render(fmt, s, ids + [id]) == Render(fmt, s, ids) + fmt.text(s[id].value)
  {
    assert (ids + [id])[..|ids + [id]| - 1] == ids;
  }

  lemma OpenedInv(fmt: Format, published: seq<Msr>, bufData: seq<byte>)
    requires History(published) && |bufData| == BUFSZ
    ensures Inv(fmt, Opened(published, bufData))
  {
  }

  lemma ApplyBuffered(fmt: Format, s: State, a: Action)
    requires Fits(fmt) && Buffered(fmt, s) && Enabled(s, a)
    ensures Buffered(fmt, Apply(fmt, s, a))
  {
    hide Printed;
  }

  lemma CopyDelivered(fmt: Format, s: State)
    requires Buffered(fmt, s) && Delivered(fmt, s) && Enabled(s, Copy(false))
    ensures Delivered(fmt, Apply(fmt, s, Copy(false)))
  {
    hide Render, Printed, StampsOrdered, NonDecreasing;
    var t := Apply(fmt, s, Copy(false));
    var n := if s.pc.cnt >= s.bufLim - s.fpos then s.bufLim else s.fpos + s.pc.cnt;
    var text := fmt.text(s.published[s.cached].value);
    Spliced(s.bufData, s.fpos, n, Render(fmt, s.published, s.whole));
    if n == s.bufLim {
      RenderNext(fmt, s.published, s.whole, s.cached);
      NonDecreasingNext(s.whole, s.cached);
      Spliced(t.bufData, 0, 0, t.delivered);
    }
  }

  lemma Spliced(buf: seq<byte>, i: nat, j: nat, before: seq<byte>)
    requires i <= j <= |buf|
    ensures before + buf[..i] + buf[i..j] == before + buf[..j]
    ensures before + buf[..0] == before
  {
    assert buf[..i] + buf[i..j] == buf[..j];
  }

  lemma ApplyDelivered(fmt: Format, s: State, a: Action)
    requires Buffered(fmt, s) && Delivered(fmt, s) && Enabled(s, a)
    ensures Delivered(fmt, Apply(fmt, s, a))
  {
    hide Printed, Render;
    match a
    case Publish(value, now) =>
      RenderGrows(fmt, s.published, Msr(value, now), s.whole);
    case Copy(fault) =>
      if !fault {
        CopyDelivered(fmt, s);
      }
    case Decide(_) =>
      assert Apply(fmt, s, a).bufData[..0] == s.bufData[..0];
    case _ =>
  }

  lemma ApplyInv(fmt: Format, s: State, a: Action)
    requires Fits(fmt) && Inv(fmt, s) && Enabled(s, a)
    ensures Inv(fmt, Apply(fmt, s, a))
  {
    hide Buffered, Delivered, Apply, Enabled;
    ApplyBuffered(fmt, s, a);
    ApplyDelivered(fmt, s, a);
  }

  /** The reader is never stuck inside read, and never copies past the buffer: it always has
      an action of its own, unless it sleeps with nothing new to wake it but a signal. */
  lemma ReaderCanStep(fmt: Format, s: State)
    requires Fits(fmt) && Inv(fmt, s)
    ensures s.pc.Refresh? ==> Enabled(s, Snapshot)
    ensures s.pc.Judge? ==> Enabled(s, Decide(false)) && !Apply(fmt, s, Decide(false)).pc.Judge?
    ensures s.pc.Asleep? ==>
              && (Enabled(s, Wake) <==> s.published[|s.published| - 1].lastUpdate != s.published[s.cached].lastUpdate)
              && Enabled(s, Interrupt)
    ensures s.pc.CopyOut? ==> Enabled(s, Copy(false)) && s.fpos < s.bufLim < |s.bufData|
  {
    hide Delivered;
  }

  /// Every run

  predicate Runs(fmt: Format, s: State, actions: seq<Action>)
    decreases |actions|
  {
    actions == [] || (Enabled(s, actions[0]) && Runs(fmt, Apply(fmt, s, actions[0]), actions[1..]))
  }

  /** The state after the actions. */
  function Exec(fmt: Format, s: State, actions: seq<Action>): State
    requires Runs(fmt, s, actions)
    decreases |actions|
  {
    if actions == [] then s else Exec(fmt, Apply(fmt, s, actions[0]), actions[1..])
  }

  lemma {:induction false} ExecInv(fmt: Format, s: State, actions: seq<Action>)
    requires Fits(fmt) && Inv(fmt, s) && Runs(fmt, s, actions)
    ensures Inv(fmt, Exec(fmt, s, actions))
    decreases |actions|
  {
    hide Inv, Apply, Enabled;
    if actions != [] {
      ApplyInv(fmt, s, actions[0]);
      ExecInv(fmt, Apply(fmt, s, actions[0]), actions[1..]);
    }
  }

  /** Stream integrity: whatever was published and however the reads were cut, the user has
      received a prefix of whole measurement texts, each of one single publication, in the
      order of publication, hence with non-decreasing time stamps. */
  lemma StreamIntegrity(fmt: Format, published: seq<Msr>, bufData: seq<byte>, actions: seq<Action>)
    requires Fits(fmt) && History(published) && |bufData| == BUFSZ && Runs(fmt, Opened(published, bufData), actions)
    ensures var t := Exec(fmt, Opened(published, bufData), actions);
            exists ids: seq<nat> :: Explains(fmt, t.published, ids, t.delivered)
  {
    OpenedInv(fmt, published, bufData);
    ExecInv(fmt, Opened(published, bufData), actions);
    Explained(fmt, Exec(fmt, Opened(published, bufData), actions));
  }

  /** The bytes are a prefix of the texts of these publications, which are in order. */
  ghost predicate Explains(fmt: Format, published: seq<Msr>, ids: seq<nat>, bytes: seq<byte>) {
    && (forall i | 0 <= i < |ids| :: ids[i] < |published|)
    && NonDecreasing(ids)
    && (forall i, j | 0 <= i < j < |ids| :: published[ids[i]].lastUpdate <= published[ids[j]].lastUpdate)
    && bytes <= Render(fmt, published, ids)
  }

  lemma Explained(fmt: Format, t: State)
    requires Inv(fmt, t)
    ensures exists ids: seq<nat> :: Explains(fmt, t.published, ids, t.delivered)
  {
    hide StampsOrdered, NonDecreasing;
    NonDecreasingNext(t.whole, t.cached);
    if t.fpos == 0 {
      assert t.bufData[..0] == [];
      OrderedByStamp(t.published, t.whole);
      assert Explains(fmt, t.published, t.whole, t.delivered);
    } else {
      var ids := t.whole + [t.cached];
      RenderNext(fmt, t.published, t.whole, t.cached);
      var text := fmt.text(t.published[t.cached].value);
      assert t.bufData[..t.fpos] == text[..t.fpos];
      OrderedByStamp(t.published, ids);
      assert Explains(fmt, t.published, ids, t.delivered);
    }
  }

  lemma NonDecreasingNext(ids: seq<nat>, id: nat)
    ensures NonDecreasing(ids) && (forall i | 0 <= i < |ids| :: ids[i] <= id) ==> NonDecreasing(ids + [id])
  {
  }

  lemma OrderedByStamp(published: seq<Msr>, ids: seq<nat>)
    requires StampsOrdered(published) && NonDecreasing(ids)
    requires forall i | 0 <= i < |ids| :: ids[i] < |published|
    ensures forall i, j | 0 <= i < j < |ids| :: published[ids[i]].lastUpdate <= published[ids[j]].lastUpdate
  {
    forall i, j | 0 <= i < j < |ids| ensures published[ids[i]].lastUpdate <= published[ids[j]].lastUpdate {
      assert ids[i] <= ids[j];
    }
  }

  /// The freshness test and the snapshot

  /** The freshness test is about to pass although the snapshot is what the buffer already
      holds: a later publication has answered it. */
  predicate Overtaken(s: State) {
    s.published != [] && s.pc.Judge? && s.pc.snap == s.cached && NeedsRefresh(s)
  }

  predicate Refreshes(s: State, a: Action) {
    a.Decide? && s.published != [] && s.pc.Judge? && NeedsRefresh(s)
  }

  /** No test of the run passes for a snapshot that has been overtaken. */
  predicate NeverOvertaken(fmt: Format, s: State, actions: seq<Action>)
    requires Runs(fmt, s, actions)
    decreases |actions|
  {
    actions == [] ||
    (!(actions[0].Decide? && Overtaken(s)) && NeverOvertaken(fmt, Apply(fmt, s, actions[0]), actions[1..]))
  }

  /** The publications whose text is put in the buffer, in the order of the run. */
  function Shown(fmt: Format, s: State, actions: seq<Action>): seq<nat>
    requires Runs(fmt, s, actions)
    decreases |actions|
  {
    if actions == [] then []
    else
      (if Refreshes(s, actions[0]) then [s.pc.snap] else []) +
      Shown(fmt, Apply(fmt, s, actions[0]), actions[1..])
  }

  predicate Increasing(ids: seq<nat>) {
    forall i, j | 0 <= i < j < |ids| :: ids[i] < ids[j]
  }

  lemma IncreasingTail(s: seq<nat>)
    requires |s| > 1 && Increasing(s)
    ensures s[0] < s[1] && Increasing(s[1..])
  {
  }

  lemma TailIsAbove(s: seq<nat>)
    requires s != [] && Increasing(s)
    ensures Increasing(s[1..]) && forall x | x in s[1..] :: s[0] < x
  {
  }

  lemma IncreasingFront(s: seq<nat>)
    requires |s| > 1 && s[0] < s[1] && Increasing(s[1..])
    ensures Increasing(s)
  {
    assert forall i | 0 < i < |s| :: s[i] == s[1..][i - 1];
  }

  lemma IncreasingCons(a: nat, b: nat, rest: seq<nat>)
    ensures Increasing([a] + ([b] + rest)) <==> a < b && Increasing([b] + rest)
  {
    hide Increasing;
    var s := [a] + ([b] + rest);
    assert s[1..] == [b] + rest;
    if Increasing(s) {
      IncreasingTail(s);
    } else if a < b && Increasing(s[1..]) {
      IncreasingFront(s);
    }
  }

  /** An action puts a new text in the buffer exactly if it is a refreshing test, which shows
      a publication not older than the last one, and the same one only if overtaken. */
  lemma ApplyCached(fmt: Format, s: State, a: Action)
    requires Inv(fmt, s) && Enabled(s, a)
    ensures Apply(fmt, s, a).cached == if Refreshes(s, a) then s.pc.snap else s.cached
    ensures Refreshes(s, a) ==> s.cached <= s.pc.snap && (s.cached == s.pc.snap <==> Overtaken(s))
    ensures a.Decide? && Overtaken(s) ==> Refreshes(s, a)
  {
    hide Delivered, Printed, History;
  }

  /** Every text put in the buffer is newer than the one before it if and only if no test
      passes for an overtaken snapshot. */
  lemma {:induction false} NewerIffNeverOvertaken(fmt: Format, s: State, actions: seq<Action>)
    requires Fits(fmt) && Inv(fmt, s) && Runs(fmt, s, actions)
    ensures Increasing([s.cached] + Shown(fmt, s, actions)) <==> NeverOvertaken(fmt, s, actions)
    decreases |actions|
  {
    if actions != [] {
      hide Inv, Apply, Enabled, Increasing, Overtaken, Refreshes;
      var a := actions[0];
      var n := Apply(fmt, s, a);
      ApplyInv(fmt, s, a);
      ApplyCached(fmt, s, a);
      NewerIffNeverOvertaken(fmt, n, actions[1..]);
      var rest := Shown(fmt, n, actions[1..]);
      IncreasingCons(s.cached, n.cached, rest);
      assert Refreshes(s, a) ==> Shown(fmt, s, actions) == [n.cached] + rest;
      assert !Refreshes(s, a) ==> Shown(fmt, s, actions) == rest;
    }
  }

  /// What reaches the user

  /** A text is in the buffer that may still be read. */
  predicate Midway(s: State) {
    s.fpos != 0 || s.pc.CopyOut?
  }

  /** The bytes that a copy hands to the user. */
  function Moved(s: State, a: Action): nat
    requires Enabled(s, a)
  {
    if a != Copy(false) then 0
    else if s.pc.cnt >= s.bufLim - s.fpos then s.bufLim - s.fpos else s.pc.cnt
  }

  /** The publications of which at least one byte is handed to the user, copy by copy. */
  function Handed(fmt: Format, s: State, actions: seq<Action>): seq<nat>
    requires Runs(fmt, s, actions)
    decreases |actions|
  {
    if actions == [] then []
    else
      (if Moved(s, actions[0]) > 0 then [s.cached] else []) +
      Handed(fmt, Apply(fmt, s, actions[0]), actions[1..])
  }

  /** The publications whose text is read to its end. */
  function Finished(fmt: Format, s: State, actions: seq<Action>): seq<nat>
    requires Runs(fmt, s, actions)
    decreases |actions|
  {
    if actions == [] then []
    else
      (if actions[0] == Copy(false) && s.fpos + Moved(s, actions[0]) == s.bufLim then [s.cached] else []) +
      Finished(fmt, Apply(fmt, s, actions[0]), actions[1..])
  }

  /** The text that is in the buffer, if any, and those that are still to come. */
  function Readable(fmt: Format, s: State, actions: seq<Action>): seq<nat>
    requires Runs(fmt, s, actions)
  {
    (if Midway(s) then [s.cached] else []) + Shown(fmt, s, actions)
  }

  predicate Subsequence(a: seq<nat>, b: seq<nat>)
    decreases |b|
  {
    a == [] || (b != [] && (Subsequence(a, b[1..]) || (a[0] == b[0] && Subsequence(a[1..], b[1..]))))
  }

  lemma {:induction false} SubsequenceIncreases(a: seq<nat>, b: seq<nat>)
    requires Subsequence(a, b) && Increasing(b)
    ensures Increasing(a) && forall i | 0 <= i < |a| :: a[i] in b
    decreases |b|
  {
    if a != [] {
      assert forall i | 0 < i < |b| :: b[i] == b[1..][i - 1];
      if Subsequence(a, b[1..]) {
        SubsequenceIncreases(a, b[1..]);
      } else {
        SubsequenceIncreases(a[1..], b[1..]);
        assert forall i | 0 < i < |a| :: a[i] == a[1..][i - 1];
      }
    }
  }

  lemma SubsequenceCons(a: seq<nat>, x: nat, b: seq<nat>)
    requires Subsequence(a, b)
    ensures Subsequence(a, [x] + b) && Subsequence([x] + a, [x] + b)
  {
    assert ([x] + b)[1..] == b && ([x] + a)[1..] == a;
  }

  /** How one action moves the reader along what can be read. */
  lemma ApplyReadable(fmt: Format, s: State, a: Action)
    requires Inv(fmt, s) && Enabled(s, a)
    ensures var n := Apply(fmt, s, a);
            && (Refreshes(s, a) ==> !Midway(s) && Midway(n) && n.cached == s.pc.snap)
            && (!Refreshes(s, a) ==> n.cached == s.cached && (Midway(n) ==> Midway(s)))
            && (Moved(s, a) > 0 ==> Midway(s))
            && (a == Copy(false) ==>
                  Midway(s) && (s.fpos + Moved(s, a) == s.bufLim ==> !Midway(n) && n.whole == s.whole + [s.cached]))
            && (a != Copy(false) || s.fpos + Moved(s, a) != s.bufLim ==> n.whole == s.whole)
  {
    hide Delivered, Printed, History;
  }

  /** Only texts that are put in the buffer are handed out, each read to its end at most once
      for each time it is put there, and in that order. */
  lemma {:induction false} FinishedAreShown(fmt: Format, s: State, actions: seq<Action>)
    requires Fits(fmt) && Inv(fmt, s) && Runs(fmt, s, actions)
    ensures Subsequence(Finished(fmt, s, actions), Readable(fmt, s, actions))
    ensures Exec(fmt, s, actions).whole == s.whole + Finished(fmt, s, actions)
    ensures forall id | id in Handed(fmt, s, actions) :: id in Readable(fmt, s, actions)
    decreases |actions|
  {
    if actions != [] {
      hide Inv, Apply, Enabled, Refreshes, Midway, Moved, Subsequence, Readable, Handed;
      var a := actions[0];
      var n := Apply(fmt, s, a);
      ApplyInv(fmt, s, a);
      ApplyReadable(fmt, s, a);
      FinishedAreShown(fmt, n, actions[1..]);
      ReadableStep(fmt, s, actions);
    }
  }

  /** The first action takes at most the text in the buffer off what can be read. */
  lemma ReadableFront(fmt: Format, s: State, actions: seq<Action>)
    requires Inv(fmt, s) && Runs(fmt, s, actions) && actions != []
    ensures var n := Apply(fmt, s, actions[0]);
            Readable(fmt, s, actions) ==
            (if Midway(s) && !Midway(n) then [s.cached] else []) + Readable(fmt, n, actions[1..])
  {
    hide Inv, Apply, Enabled, Refreshes, Midway, Moved;
    ApplyReadable(fmt, s, actions[0]);
    var n := Apply(fmt, s, actions[0]);
    var shown := Shown(fmt, n, actions[1..]);
    if Refreshes(s, actions[0]) {
      assert Shown(fmt, s, actions) == [n.cached] + shown;
    } else {
      assert Shown(fmt, s, actions) == [] + shown == shown;
    }
  }

  lemma ReadableStep(fmt: Format, s: State, actions: seq<Action>)
    requires Inv(fmt, s) && Runs(fmt, s, actions) && actions != []
    requires var n := Apply(fmt, s, actions[0]);
             && Subsequence(Finished(fmt, n, actions[1..]), Readable(fmt, n, actions[1..]))
             && forall id | id in Handed(fmt, n, actions[1..]) :: id in Readable(fmt, n, actions[1..])
    ensures Subsequence(Finished(fmt, s, actions), Readable(fmt, s, actions))
    ensures forall id | id in Handed(fmt, s, actions) :: id in Readable(fmt, s, actions)
  {
    hide Inv, Apply, Enabled, Refreshes, Midway, Moved, Subsequence, Shown;
    ApplyReadable(fmt, s, actions[0]);
    ReadableFront(fmt, s, actions);
    var n := Apply(fmt, s, actions[0]);
    var rest := Readable(fmt, n, actions[1..]);
    assert Midway(s) ==> s.cached in Readable(fmt, s, actions);
    hide Readable;
    FinishedFront(fmt, s, actions);
    SubsequenceCons(Finished(fmt, n, actions[1..]), s.cached, rest);
    hide Finished;
    assert [] + rest == rest;
  }

  lemma FinishedFront(fmt: Format, s: State, actions: seq<Action>)
    requires Runs(fmt, s, actions) && actions != []
    ensures var done := Finished(fmt, Apply(fmt, s, actions[0]), actions[1..]);
            Finished(fmt, s, actions) ==
            if actions[0] == Copy(false) && s.fpos + Moved(s, actions[0]) == s.bufLim then [s.cached] + done else done
  {
    hide Apply, Enabled, Moved;
  }

  /** Where no test passes for an overtaken snapshot, every measurement is read to its end at
      most once, in order, and the zeroed page never. */
  lemma ReadersSeeEachMeasurementOnce(fmt: Format, published: seq<Msr>, bufData: seq<byte>, actions: seq<Action>)
    requires Fits(fmt) && History(published) && |bufData| == BUFSZ && Runs(fmt, Opened(published, bufData), actions)
    requires NeverOvertaken(fmt, Opened(published, bufData), actions)
    ensures var t := Exec(fmt, Opened(published, bufData), actions);
            Increasing(t.whole) && forall i | 0 <= i < |t.whole| :: 0 < t.whole[i]
  {
    var s := Opened(published, bufData);
    OpenedInv(fmt, published, bufData);
    NewerIffNeverOvertaken(fmt, s, actions);
    FinishedAreShown(fmt, s, actions);
    var all := [s.cached] + Shown(fmt, s, actions);
    assert Readable(fmt, s, actions) == all[1..] && s.cached == 0 && s.whole == [];
    hide *;
    TailIsAbove(all);
    SubsequenceIncreases(Finished(fmt, s, actions), all[1..]);
  }

  /** A run in which no publication falls between a snapshot and its freshness test. */
  predicate Quiet(fmt: Format, s: State, actions: seq<Action>)
    requires Runs(fmt, s, actions)
    decreases |actions|
  {
    actions == [] ||
    (!(actions[0].Publish? && s.pc.Judge?) && Quiet(fmt, Apply(fmt, s, actions[0]), actions[1..]))
  }

  /** In such a run no snapshot is overtaken. */
  lemma {:induction false} QuietIsNeverOvertaken(fmt: Format, s: State, actions: seq<Action>)
    requires Fits(fmt) && Inv(fmt, s) && Runs(fmt, s, actions) && Quiet(fmt, s, actions)
    requires s.pc.Judge? ==> s.pc.snap == |s.published| - 1
    ensures NeverOvertaken(fmt, s, actions)
    decreases |actions|
  {
    if actions != [] {
      var a := actions[0];
      ApplyInv(fmt, s, a);
      JudgesLatest(fmt, s, a);
      hide Inv, Apply, Enabled, Overtaken;
      QuietIsNeverOvertaken(fmt, Apply(fmt, s, a), actions[1..]);
    }
  }

  lemma JudgesLatest(fmt: Format, s: State, a: Action)
    requires Inv(fmt, s) && Enabled(s, a) && !(a.Publish? && s.pc.Judge?)
    requires s.pc.Judge? ==> s.pc.snap == |s.published| - 1
    ensures !Overtaken(s)
    ensures var n := Apply(fmt, s, a); n.pc.Judge? ==> n.pc.snap == |n.published| - 1
  {
    hide Delivered, Printed, History;
  }

  /** So readers that are not raced see each measurement at most once. */
  lemma QuietReadersSeeEachMeasurementOnce(fmt: Format, published: seq<Msr>, bufData: seq<byte>, actions: seq<Action>)
    requires Fits(fmt) && History(published) && |bufData| == BUFSZ
    requires Runs(fmt, Opened(published, bufData), actions) && Quiet(fmt, Opened(published, bufData), actions)
    ensures var t := Exec(fmt, Opened(published, bufData), actions);
            Increasing(t.whole) && forall i | 0 <= i < |t.whole| :: 0 < t.whole[i]
  {
    OpenedInv(fmt, published, bufData);
    QuietIsNeverOvertaken(fmt, Opened(published, bufData), actions);
    ReadersSeeEachMeasurementOnce(fmt, published, bufData, actions);
  }

  /** The time stamp is taken over before the copy, so a refreshed text reaches the user if
      and only if its first copy neither faults nor asks for no bytes: no later call of the run
      hands out a byte of it. */
  lemma FirstCopyDecides(fmt: Format, s: State, fault: bool, actions: seq<Action>)
    requires Fits(fmt) && Inv(fmt, s) && s.pc.CopyOut? && s.fpos == 0
    requires Runs(fmt, s, [Copy(fault)] + actions) && NeverOvertaken(fmt, s, [Copy(fault)] + actions)
    ensures s.cached in Handed(fmt, s, [Copy(fault)] + actions) <==> !fault && s.pc.cnt > 0
  {
    var all, a := [Copy(fault)] + actions, Copy(fault);
    var n := Apply(fmt, s, a);
    assert all[0] == a && all[1..] == actions;
    FirstCopy(fmt, s, fault);
    ApplyInv(fmt, s, a);
    FinishedAreShown(fmt, n, actions);
    NewerIffNeverOvertaken(fmt, n, actions);
    hide Inv, Apply, Enabled, Moved, Shown, Finished, Subsequence;
    if fault || s.pc.cnt == 0 {
      var seen := [n.cached] + Shown(fmt, n, actions);
      TailIsAbove(seen);
      assert Readable(fmt, n, actions) == seen[1..];
      assert Handed(fmt, s, all) == Handed(fmt, n, actions);
    }
  }

  lemma FirstCopy(fmt: Format, s: State, fault: bool)
    requires Inv(fmt, s) && s.pc.CopyOut? && s.fpos == 0
    ensures Enabled(s, Copy(fault)) && Apply(fmt, s, Copy(fault)).cached == s.cached
    ensures Moved(s, Copy(fault)) > 0 <==> !fault && s.pc.cnt > 0
    ensures fault || s.pc.cnt == 0 ==> !Midway(Apply(fmt, s, Copy(fault)))
  {
    hide Delivered, Printed, History;
  }

  /** With the race, the zeroed page is delivered as if it had been measured, and the
      freshness test that let it through was answered by a measurement still unread. */
  lemma RaceShowsUnmeasuredValue(fmt: Format, bufData: seq<byte>, value: nat, now: nat)
    requires Fits(fmt) && |bufData| == BUFSZ && 0 < now < 0x1_0000_0000
    ensures var actions := [Begin(BUFSZ), Snapshot, Publish(value, now), Decide(false), Copy(false)];
            && Runs(fmt, Opened([Msr(0, 0)], bufData), actions)
            && !NeverOvertaken(fmt, Opened([Msr(0, 0)], bufData), actions)
            && Exec(fmt, Opened([Msr(0, 0)], bufData), actions).whole == [0]
            && Exec(fmt, Opened([Msr(0, 0)], bufData), actions).delivered == fmt.text(0)
  {
    var s0 := Opened([Msr(0, 0)], bufData);
    var a := [Begin(BUFSZ), Snapshot, Publish(value, now), Decide(false), Copy(false)];
    var s1 := Apply(fmt, s0, a[0]);
    var s2 := Apply(fmt, s1, a[1]);
    var s3 := Apply(fmt, s2, a[2]);
    var s4 := Apply(fmt, s3, a[3]);
    var s5 := Apply(fmt, s4, a[4]);
    assert s5.delivered == fmt.text(0) && s5.whole == [0];
    assert a[1..][1..] == a[2..] && a[2..][1..] == a[3..] && a[3..][1..] == a[4..] && a[4..][1..] == [];
    assert Overtaken(s3) && a[3..][0] == a[3] && a[2..][0] == a[2] && a[1..][0] == a[1];
    assert Runs(fmt, s4, a[4..]) && Exec(fmt, s4, a[4..]) == s5;
    assert Runs(fmt, s3, a[3..]) && Exec(fmt, s3, a[3..]) == s5 && !NeverOvertaken(fmt, s3, a[3..]);
    assert Runs(fmt, s2, a[2..]) && Exec(fmt, s2, a[2..]) == s5 && !NeverOvertaken(fmt, s2, a[2..]);
    assert Runs(fmt, s1, a[1..]) && Exec(fmt, s1, a[1..]) == s5 && !NeverOvertaken(fmt, s1, a[1..]);
  }

  /// The driver's fields

  class SensorPage {
    var value: nat
    var lastUpdate: nat

    constructor ()
      ensures value == 0 && lastUpdate == 0
    {
      value, lastUpdate := 0, 0;
    }
  }

  datatype Stage = AtUser | AtRefresh | AtJudge | InSleep | AtCopy

  class OpenFile {
    const page: SensorPage
    const bufData: array<byte>
    var bufLim: int
    var bufTimestamp: nat
    var fpos: nat
    // locals of the one read call in progress
    var stage: Stage
    var wanted: nat
    var snapValue: nat
    var snapStamp: nat
    // history
    ghost var published: seq<Msr>
    ghost var snapId: nat
    ghost var cached: nat
    ghost var whole: seq<nat>
    ghost var delivered: seq<byte>

    ghost function Control(): Pc
      reads this
    {
      match stage
      case AtUser => Outside
      case AtRefresh => Refresh(wanted)
      case AtJudge => Judge(wanted, snapId)
      case InSleep => Asleep(wanted)
      case AtCopy => CopyOut(wanted)
    }

    ghost function View(): State
      reads this, bufData
    {
      State(published, bufData[..], if bufLim < 0 then 0 else bufLim, bufTimestamp, fpos, Control(), cached, whole,
            delivered)
    }

    /** The fields agree with the history, and the invariant of all runs holds. */
    ghost predicate Valid(fmt: Format)
      reads this, page, bufData
    {
      && Inv(fmt, View()) && bufLim >= 0
      && page.value == Last(View()).value && page.lastUpdate == Last(View()).lastUpdate
      && (stage == AtJudge ==> Msr(snapValue, snapStamp) == published[snapId])
    }

    /** `lunix_chrdev_open`; the page holds the last of what the sensor has published. */
    constructor (ghost fmt: Format, page: SensorPage, ghost history: seq<Msr>, buffer: array<byte>)
      requires History(history) && buffer.Length == BUFSZ
      requires Msr(page.value, page.lastUpdate) == history[|history| - 1]
      ensures Valid(fmt) && View() == Opened(history, buffer[..]) && this.page == page && bufData == buffer
    {
      this.page, bufData := page, buffer;
      bufLim, bufTimestamp, fpos, stage, wanted := 0, 0, 0, AtUser, 0;
      snapValue, snapStamp := 0, 0;
      published, snapId, cached, whole, delivered := history, 0, 0, [], [];
      new;
      OpenedInv(fmt, history, buffer[..]);
    }

    method SensorUpdate(ghost fmt: Format, value: nat, now: nat)
      requires Fits(fmt) && Valid(fmt) && Enabled(View(), Publish(value, now))
      modifies this, page
      ensures Valid(fmt) && View() == Apply(fmt, old(View()), Publish(value, now))
      ensures page.value == value && page.lastUpdate == now
    {
      hide Render, Printed;
      assert stage == AtJudge ==> View().pc.snap < |published|;
      hide Inv;
      ApplyInv(fmt, View(), Publish(value, now));
      page.value := value;
      page.lastUpdate := now;
      published := published + [Msr(value, now)];
    }

    method BeginRead(ghost fmt: Format, cnt: nat)
      requires Fits(fmt) && Valid(fmt) && Enabled(View(), Begin(cnt))
      modifies this
      ensures Valid(fmt) && View() == Apply(fmt, old(View()), Begin(cnt))
    {
      hide Inv, Render, Printed;
      ApplyInv(fmt, View(), Begin(cnt));
      stage, wanted := if fpos == 0 then AtRefresh else AtCopy, cnt;
    }

    method StateUpdateSnapshot(ghost fmt: Format)
      requires Fits(fmt) && Valid(fmt) && Enabled(View(), Snapshot)
      modifies this
      ensures Valid(fmt) && View() == Apply(fmt, old(View()), Snapshot)
    {
      hide Inv, Render, Printed;
      ApplyInv(fmt, View(), Snapshot);
      snapValue, snapStamp := page.value, page.lastUpdate;
      assert Msr(snapValue, snapStamp) == Last(View());
      stage, snapId := AtJudge, |published| - 1;
    }

    /** The rest of `state_update`: 0 after a refresh, otherwise -EAGAIN and either back to
        the user or to sleep. */
    method StateUpdateDecide(fmt: Format, nonblock: bool) returns (ret: int)
      requires Fits(fmt) && Valid(fmt) && Enabled(View(), Decide(nonblock))
      modifies this, bufData
      ensures Valid(fmt) && View() == Apply(fmt, old(View()), Decide(nonblock))
      ensures ret == (if NeedsRefresh(old(View())) then 0 else EAGAIN)
    {
      hide Render, Printed;
      assert bufData.Length == BUFSZ;
      hide Inv;
      ApplyInv(fmt, View(), Decide(nonblock));
      if page.lastUpdate != bufTimestamp {
        bufTimestamp := snapStamp;
        var text := fmt.text(snapValue);
        Snprintf(text);
        bufLim := |text|;
        cached, stage := snapId, AtCopy;
        ret := 0;
      } else {
        ret := EAGAIN;
        stage := if nonblock then AtUser else InSleep;
      }
    }

    method Snprintf(text: seq<byte>)
      requires |text| < bufData.Length
      modifies bufData
      ensures bufData[..] == Printed(text, old(bufData[..]))
    {
      ghost var was := bufData[..];
      for i := 0 to |text|
        invariant forall k | 0 <= k < bufData.Length :: bufData[k] == if k < i then text[k] else was[k]
      {
        bufData[i] := text[i];
      }
      bufData[|text|] := 0;
      assert bufData[..] == text + [0] + was[|text| + 1..];
    }

    method WakeUp(ghost fmt: Format, interrupted: bool) returns (ret: int)
      requires Fits(fmt) && Valid(fmt)
      requires Enabled(View(), if interrupted then Interrupt else Wake)
      modifies this
      ensures Valid(fmt) && View() == Apply(fmt, old(View()), if interrupted then Interrupt else Wake)
      ensures ret == if interrupted then ERESTARTSYS else 0
    {
      hide Inv, Render, Printed;
      ApplyInv(fmt, View(), if interrupted then Interrupt else Wake);
      if interrupted {
        stage := AtUser;
        ret := ERESTARTSYS;
      } else {
        stage := AtRefresh;
        ret := 0;
      }
    }

    /** The copy, the new position and the auto-rewind; `fault` is copy_to_user failing. */
    method CopyToUser(ghost fmt: Format, fault: bool) returns (ret: int, bytes: seq<byte>)
      requires Fits(fmt) && Valid(fmt) && Enabled(View(), Copy(fault))
      modifies this
      ensures Valid(fmt) && View() == Apply(fmt, old(View()), Copy(fault))
      ensures delivered == old(delivered) + bytes && ret == if fault then EFAULT else |bytes|
    {
      hide Inv, Render, Printed;
      ApplyInv(fmt, View(), Copy(fault));
      var remaining := bufLim - fpos;
      var cnt := if wanted >= remaining then remaining else wanted;
      stage := AtUser;
      if fault {
        assert delivered + [] == delivered;
        return EFAULT, [];
      }
      bytes := bufData[fpos..fpos + cnt];
      delivered := delivered + bytes;
      fpos := fpos + cnt;
      ret := cnt;
      if fpos == bufLim {
        fpos := 0;
        whole := whole + [cached];
      }
    }
  }
}
