/**
 What a whole read call on a Lunix device file comes to, whatever else happens meanwhile.

 The actions of LunixReader are small steps; here a call is followed from its entry to its
 return, while the sensor publishes in between.
 */
module ReadCalls {
  import opened Bytes
  import opened LunixSensors
  import opened LunixReader

  /** The call under way in s returns with the last of the actions. */
  predicate Returns(fmt: Format, s: State, actions: seq<Action>)
    requires Runs(fmt, s, actions)
    decreases |actions|
  {
    if s.pc == Outside then actions == []
    else actions != [] && Returns(fmt, Apply(fmt, s, actions[0]), actions[1..])
  }

  /** A call that asks for cnt bytes, from its entry to its return. */
  predicate IsRead(fmt: Format, s: State, cnt: nat, actions: seq<Action>) {
    && s.pc == Outside && actions != [] && actions[0] == Begin(cnt) && Runs(fmt, s, actions)
    && Returns(fmt, Apply(fmt, s, actions[0]), actions[1..])
  }

  /** The measurements that arrive. */
  function Arrived(actions: seq<Action>): seq<Msr> {
    if actions == [] then []
    else
      (match actions[0] case Publish(value, now) => [Msr(value, now)] case _ => []) + Arrived(actions[1..])
  }

  /** What a call that started in s with position 0 or in the middle of a text has come to when
      action `last` returns it in t.  Only a copy hands out bytes: as many as are asked for, or
      the rest of one text; that of the text read before, or, at position 0, that of a measurement
      at least as new as the newest at entry.  A call that ends otherwise hands out nothing and
      leaves the position alone: the copy has faulted, a signal came, or the file does not block
      and the newest measurement is of the second that the buffer shows. */
  ghost predicate ReadDone(fmt: Format, s: State, cnt: nat, last: Action, t: State) {
    && t.pc == Outside && s.published != [] && t.cached < |t.published| && |s.published| <= |t.published|
    && (last == Copy(false) || last == Copy(true) || last == Interrupt || last == Decide(true))
    && (last == Copy(false) ==>
          && (if s.fpos == 0 then t.cached >= |s.published| - 1 else t.cached == s.cached)
          && var text := fmt.text(t.published[t.cached].value);
          && s.fpos < |text|
          && var end := if s.fpos + cnt < |text| then s.fpos + cnt else |text|;
          && t.delivered == s.delivered + text[s.fpos..end]
          && t.fpos == if end == |text| then 0 else end)
    && (last != Copy(false) ==> t.delivered == s.delivered && t.fpos == s.fpos)
    && (last == Decide(true) ==> s.fpos == 0 && t.published[|t.published| - 1].lastUpdate == s.bufStamp)
  }

  /** How far a call that started in s has got. */
  ghost predicate Under(s: State, cnt: nat, x: State) {
    && s.published != [] && |s.published| <= |x.published|
    && x.pc != Outside && x.pc.cnt == cnt && x.delivered == s.delivered && x.fpos == s.fpos
    && (!x.pc.CopyOut? ==> s.fpos == 0 && x.bufStamp == s.bufStamp)
    && (x.pc.Judge? ==> x.pc.snap >= |s.published| - 1)
    && (x.pc.CopyOut? ==> if s.fpos == 0 then x.cached >= |s.published| - 1 else x.cached == s.cached)
  }

  lemma Entered(fmt: Format, s: State, cnt: nat)
    requires Inv(fmt, s) && Enabled(s, Begin(cnt))
    ensures Under(s, cnt, Apply(fmt, s, Begin(cnt)))
  {
    hide Delivered, History;
  }

  lemma SliceOfFront(buf: seq<byte>, n: nat, i: nat, j: nat)
    requires i <= j <= n <= |buf|
    ensures buf[i..j] == buf[..n][i..j]
  {
  }

  lemma Copied(fmt: Format, s: State, cnt: nat, x: State)
    requires Inv(fmt, x) && Under(s, cnt, x) && Enabled(x, Copy(false))
    ensures ReadDone(fmt, s, cnt, Copy(false), Apply(fmt, x, Copy(false)))
  {
    hide Delivered, History;
    var text := fmt.text(x.published[x.cached].value);
    var end := if s.fpos + cnt < |text| then s.fpos + cnt else |text|;
    SliceOfFront(x.bufData, x.bufLim, s.fpos, end);
  }

  /** One action of the run while the call is under way: it goes on, or it is done. */
  lemma UnderStep(fmt: Format, s: State, cnt: nat, x: State, a: Action)
    requires Inv(fmt, x) && Under(s, cnt, x) && Enabled(x, a)
    ensures var n := Apply(fmt, x, a);
            if n.pc == Outside then ReadDone(fmt, s, cnt, a, n) else Under(s, cnt, n)
  {
    if a == Copy(false) {
      hide Apply, Inv, Enabled, Under;
      Copied(fmt, s, cnt, x);
    } else {
      hide Delivered, History, Printed;
    }
  }

  lemma {:induction false} UnderToEnd(fmt: Format, s: State, cnt: nat, x: State, actions: seq<Action>)
    requires Fits(fmt) && Inv(fmt, x) && Under(s, cnt, x) && Runs(fmt, x, actions) && Returns(fmt, x, actions)
    ensures actions != [] && ReadDone(fmt, s, cnt, actions[|actions| - 1], Exec(fmt, x, actions))
    decreases |actions|
  {
    var a := actions[0];
    var n := Apply(fmt, x, a);
    ApplyInv(fmt, x, a);
    UnderStep(fmt, s, cnt, x, a);
    hide Inv, Apply, Enabled, ReadDone;
    if n.pc != Outside {
      UnderToEnd(fmt, s, cnt, n, actions[1..]);
    }
  }

  /** Every read of every run, whatever is published meanwhile, ends in one of these ways. */
  lemma ReadOutcome(fmt: Format, s: State, cnt: nat, actions: seq<Action>)
    requires Fits(fmt) && Inv(fmt, s) && IsRead(fmt, s, cnt, actions)
    ensures ReadDone(fmt, s, cnt, actions[|actions| - 1], Exec(fmt, s, actions))
    ensures Exec(fmt, s, actions).published == s.published + Arrived(actions)
  {
    ArrivedArePublished(fmt, s, actions);
    Entered(fmt, s, cnt);
    ApplyInv(fmt, s, actions[0]);
    hide Inv, Apply, Enabled, ReadDone;
    UnderToEnd(fmt, s, cnt, Apply(fmt, s, actions[0]), actions[1..]);
  }

  lemma {:induction false} ArrivedArePublished(fmt: Format, s: State, actions: seq<Action>)
    requires Runs(fmt, s, actions)
    ensures Exec(fmt, s, actions).published == s.published + Arrived(actions)
    decreases |actions|
  {
    if actions != [] {
      ArrivedArePublished(fmt, Apply(fmt, s, actions[0]), actions[1..]);
    }
  }

  /** Reads of a file that does not block. */
  predicate NonBlocking(actions: seq<Action>) {
    forall i | 0 <= i < |actions| :: actions[i].Decide? ==> actions[i].nonblock
  }

  /** They never sleep. */
  lemma {:induction false} NonBlockingNeverSleeps(fmt: Format, s: State, actions: seq<Action>)
    requires Runs(fmt, s, actions) && NonBlocking(actions) && !s.pc.Asleep?
    ensures !Exec(fmt, s, actions).pc.Asleep?
    decreases |actions|
  {
    if actions != [] {
      var rest := actions[1..];
      assert forall i | 0 <= i < |rest| :: rest[i] == actions[i + 1];
      NonBlockingNeverSleeps(fmt, Apply(fmt, s, actions[0]), rest);
    }
  }
}
