/**
 The hash flags of `crypto_run` as a protocol over many calls.
 */
module MultiUpdate {
  import opened Bytes
  import opened CryptoRun

  /** The bits of cop->flags that the calls of this model look at. */
  datatype Flags = Flags(
    update: bool, final: bool, writeIv: bool, noZc: bool, tls: bool, srtp: bool, reset: bool)

  const NO_FLAGS := Flags(false, false, false, false, false, false, false)

  /** The hash is reset by a call without any flag, or with the reset flag. */
  predicate Resets(f: Flags) {
    f == NO_FLAGS || f.reset
  }

  /** A digest is handed out by a final, a one-shot or an empty call. */
  predicate Emits(f: Flags, len: nat) {
    f.final || !f.update || len == 0
  }

  datatype Call = Call(flags: Flags, data: seq<byte>)

  /** The hash while the call runs, just before any digest is taken. */
  function Fed(h: HashState, c: Call): HashState {
    Absorb(if Resets(c.flags) then Absorbing([]) else h, c.data)
  }

  /** The hash after the call. */
  function AfterCall(h: HashState, c: Call): HashState {
    if Emits(c.flags, |c.data|) then Finished else Fed(h, c)
  }

  /** The hash after the calls, on a session that was created with a fresh hash. */
  function AfterCalls(calls: seq<Call>): HashState {
    if calls == [] then Absorbing([])
    else AfterCall(AfterCalls(calls[..|calls| - 1]), calls[|calls| - 1])
  }

  /// The meaning of a history

  /** Where the current message began: the last resetting call, or the session's creation. */
  function MessageStart(calls: seq<Call>): (i: nat)
    ensures i <= |calls|
    ensures forall j | i < j < |calls| :: !Resets(calls[j].flags)
    ensures i == 0 || (i < |calls| && Resets(calls[i].flags))
  {
    if calls == [] then 0
    else if Resets(calls[|calls| - 1].flags) then |calls| - 1
    else MessageStart(calls[..|calls| - 1])
  }

  function AllData(calls: seq<Call>): seq<byte> {
    if calls == [] then [] else AllData(calls[..|calls| - 1]) + calls[|calls| - 1].data
  }

  /** The message: the data of every call since its start. */
  function Message(calls: seq<Call>): seq<byte> {
    AllData(calls[MessageStart(calls)..])
  }

  /** A digest has already been taken of the current message. */
  predicate Taken(calls: seq<Call>) {
    exists i | MessageStart(calls) <= i < |calls| :: Emits(calls[i].flags, |calls[i].data|)
  }

  lemma HistoryStep(calls: seq<Call>, c: Call)
    ensures Message(calls + [c]) == (if Resets(c.flags) then [] else Message(calls)) + c.data
    ensures Taken(calls + [c]) <==> Emits(c.flags, |c.data|) || (!Resets(c.flags) && Taken(calls))
  {
    hide AllData, Emits, Resets, Taken;
    StartStep(calls, c);
    var i := MessageStart(calls + [c]);
    assert (calls + [c])[i..] == calls[i..] + [c];
    AllDataStep(calls[i..], c);
    TakenStep(calls, c);
  }

  lemma StartStep(calls: seq<Call>, c: Call)
    ensures MessageStart(calls + [c]) == if Resets(c.flags) then |calls| else MessageStart(calls)
  {
    var all := calls + [c];
    assert all[..|all| - 1] == calls && all[|all| - 1] == c;
  }

  lemma TakenStep(calls: seq<Call>, c: Call)
    ensures Taken(calls + [c]) <==> Emits(c.flags, |c.data|) || (!Resets(c.flags) && Taken(calls))
  {
    hide Emits, Resets;
    StartStep(calls, c);
    var all := calls + [c];
    assert all[|calls|] == c && forall k | 0 <= k < |calls| :: all[k] == calls[k];
    hide MessageStart;
    if Taken(calls) && !Resets(c.flags) {
      var k :| MessageStart(calls) <= k < |calls| && Emits(calls[k].flags, |calls[k].data|);
      assert Emits(all[k].flags, |all[k].data|);
    }
  }

  lemma AllDataStep(calls: seq<Call>, c: Call)
    ensures AllData(calls + [c]) == AllData(calls) + c.data && AllData([]) == []
  {
    var all := calls + [c];
    assert all[..|all| - 1] == calls && all[|all| - 1] == c;
  }

  /** The session's hash state says exactly what the history says: the message since the last
      reset, or nothing once its digest has been taken. */
  lemma {:induction false} StateIsHistory(calls: seq<Call>)
    ensures AfterCalls(calls) == if Taken(calls) then Finished else Absorbing(Message(calls))
  {
    if calls != [] {
      hide AfterCalls, AfterCall, Message, Taken, MessageStart;
      var before, c := calls[..|calls| - 1], calls[|calls| - 1];
      assert calls == before + [c];
      StateIsHistory(before);
      HistoryStep(before, c);
      AfterStep(before, c);
      CallStep(before, c);
    } else {
      assert AllData([]) == [];
    }
  }

  lemma AfterStep(calls: seq<Call>, c: Call)
    ensures AfterCalls(calls + [c]) == AfterCall(AfterCalls(calls), c)
  {
    var all := calls + [c];
    assert all[..|all| - 1] == calls && all[|all| - 1] == c;
  }

  lemma CallStep(calls: seq<Call>, c: Call)
    ensures AfterCall(if Taken(calls) then Finished else Absorbing(Message(calls)), c)
         == if Emits(c.flags, |c.data|) || (!Resets(c.flags) && Taken(calls)) then Finished
            else Absorbing((if Resets(c.flags) then [] else Message(calls)) + c.data)
  {
    hide Taken, Message, Emits, Resets;
  }

  /** Whenever a call hands out a digest and none has been taken since the last reset, the
      digest is that of all data since that reset. */
  lemma DigestIsOfWholeMessage(calls: seq<Call>, c: Call)
    requires Resets(c.flags) || !Taken(calls)
    ensures Fed(AfterCalls(calls), c) == Absorbing(Message(calls + [c]))
  {
    StateIsHistory(calls);
    HistoryStep(calls, c);
    hide Message, Taken;
    assert [] + c.data == c.data;
  }

  /** Update calls only, without digests or resets in between. */
  predicate Updates(calls: seq<Call>) {
    forall i | 0 <= i < |calls| :: calls[i].flags.update && !calls[i].flags.final && calls[i].data != []
                                   && !Resets(calls[i].flags)
  }

  /** However a message is split into updates and closed by a final call, the digest is the
      one a single call over the whole message hands out. */
  lemma SplitIsInvisible(before: seq<Call>, first: Call, parts: seq<Call>, last: Call, whole: Call)
    requires Resets(first.flags) && first.flags.update && !first.flags.final && first.data != []
    requires Updates(parts) && last.flags.final && !Resets(last.flags)
    requires Resets(whole.flags) && whole.data == first.data + AllData(parts) + last.data
    ensures Fed(AfterCalls(before + [first] + parts), last) == Fed(AfterCalls(before), whole)
  {
    UpdatesAccumulate(before + [first], parts);
    HistoryStep(before, first);
    StateIsHistory(before + [first]);
    hide Message, Taken;
    assert [] + first.data == first.data && [] + whole.data == whole.data;
  }

  lemma {:induction false} UpdatesAccumulate(before: seq<Call>, parts: seq<Call>)
    requires Updates(parts) && AfterCalls(before).Absorbing?
    ensures AfterCalls(before + parts) == Absorbing(AfterCalls(before).msg + AllData(parts))
    decreases |parts|
  {
    if parts == [] {
      assert before + parts == before && AfterCalls(before).msg + [] == AfterCalls(before).msg;
    } else {
      var front, c := parts[..|parts| - 1], parts[|parts| - 1];
      var all := before + parts;
      assert all[..|all| - 1] == before + front && all[|all| - 1] == c;
      UpdatesAccumulate(before, front);
      assert AfterCalls(before).msg + AllData(front) + c.data == AfterCalls(before).msg + AllData(parts);
    }
  }

  /** A single call hashes its own data and nothing else, in every state of the session, if
      and only if its flags reset the hash: any other flag but the reset flag, even one that
      has nothing to do with hashing, keeps the old state. */
  lemma OneShotNeedsReset(c: Call)
    ensures (forall h: HashState :: Fed(h, c) == Absorbing(c.data)) <==> Resets(c.flags)
  {
    assert [] + c.data == c.data;
    if !Resets(c.flags) {
      assert Fed(Finished, c) == Finished;
    }
  }
}
