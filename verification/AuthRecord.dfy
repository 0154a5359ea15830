/**
 What the TLS and SRTP operations share: the call block, and the foreign calls on a mapped
 buffer.
 */
module AuthRecord {
  import opened Bytes
  import opened Ciphers
  import opened CryptoRun
  import opened UserPages
  import opened CryptoOps

  const EBADMSG := -74

  /** The call block of an authenticated operation. */
  class KernelAuthOp {
    const op: int
    const len: nat
    const tagLen: nat
    const ivlen: nat
    var iv: seq<byte>
    var dstLen: nat

    constructor (op: int, len: nat, tagLen: nat, ivlen: nat, iv: seq<byte>, dstLen: nat)
      requires ivlen <= |iv|
      ensures Valid() && this.op == op && this.len == len && this.tagLen == tagLen && this.ivlen == ivlen
      ensures this.iv == iv && this.dstLen == dstLen
    {
      this.op, this.len, this.tagLen, this.ivlen, this.iv, this.dstLen := op, len, tagLen, ivlen, iv, dstLen;
    }

    ghost predicate Valid()
      reads this
    {
      ivlen <= |iv|
    }
  }

  /** What the stack holds from the digest buffer on, at least as far as the tag reaches. */
  predicate Stack(buffer: seq<byte>, tagLen: nat) {
    AALG_MAX_RESULT_LEN <= |buffer| && tagLen <= |buffer|
  }

  /** The tag a message gets: the front of the digest, and past its end whatever the stack held
      before, also behind the digest buffer. */
  function Tag(h: Hash, msg: seq<byte>, buffer: seq<byte>, tagLen: nat): (r: seq<byte>)
    requires LawfulHash(h) && Stack(buffer, tagLen)
    ensures |r| == tagLen
  {
    HashOutput(h, msg, buffer)[..tagLen]
  }

  lemma DigestFits(h: Hash)
    requires LawfulHash(h)
    ensures h.digestsize <= AALG_MAX_RESULT_LEN
  {
  }

  /** A tag no longer than the digest does not depend on the stack. */
  lemma ShortTag(h: Hash, msg: seq<byte>, b1: seq<byte>, b2: seq<byte>, tagLen: nat)
    requires LawfulHash(h) && Stack(b1, tagLen) && Stack(b2, tagLen) && tagLen <= h.digestsize
    ensures Tag(h, msg, b1, tagLen) == Tag(h, msg, b2, tagLen) == h.digest(msg)[..tagLen]
  {
    assert |h.digest(msg)| == h.digestsize;
  }

  /** A longer one does. */
  lemma LongTag(h: Hash, m1: seq<byte>, m2: seq<byte>, tagLen: nat) returns (b1: seq<byte>, b2: seq<byte>)
    requires LawfulHash(h) && h.digestsize < tagLen
    ensures Stack(b1, tagLen) && Stack(b2, tagLen) && Tag(h, m1, b1, tagLen) != Tag(h, m2, b2, tagLen)
  {
    assert |h.digest(m1)| == h.digestsize && |h.digest(m2)| == h.digestsize;
    b1, b2 := seq(AALG_MAX_RESULT_LEN + tagLen, _ => 0), seq(AALG_MAX_RESULT_LEN + tagLen, _ => 1);
    assert Tag(h, m1, b1, tagLen)[h.digestsize] == 0 && Tag(h, m2, b2, tagLen)[h.digestsize] == 1;
  }

  /// Memory seen through a mapped list

  /** A mapped buffer: its bytes are in memory, each once. */
  ghost predicate Addressable(ram: seq<byte>, list: seq<nat>) {
    InRam(list, |ram|) && Distinct(list)
  }

  /** Nothing but the bytes of the list has changed. */
  ghost predicate OnlyAt(list: seq<nat>, before: seq<byte>, after: seq<byte>) {
    |after| == |before| && forall a | 0 <= a < |before| && a !in list :: after[a] == before[a]
  }

  lemma NothingChanged(list: seq<nat>, ram: seq<byte>)
    ensures OnlyAt(list, ram, ram)
  {
  }

  lemma OnlyAtTwice(list: seq<nat>, a: seq<byte>, b: seq<byte>, c: seq<byte>)
    requires OnlyAt(list, a, b) && OnlyAt(list, b, c)
    ensures OnlyAt(list, a, c)
  {
  }

  /** What a byte of the list holds after a part of the list has been written. */
  lemma PartAt(ram: seq<byte>, list: seq<nat>, at: nat, x: seq<byte>, i: nat)
    requires Addressable(ram, list) && at + |x| <= |list| && i < |list|
    ensures InRam(list[at..at + |x|], |ram|)
    ensures Scatter(ram, list[at..at + |x|], x)[list[i]] == if at <= i < at + |x| then x[i - at] else ram[list[i]]
  {
    var part := list[at..at + |x|];
    assert forall k | 0 <= k < |x| :: part[k] == list[at + k];
    if at <= i < at + |x| {
      ScatterAt(ram, part, x, i - at);
    } else {
      ScatterOther(ram, part, x, list[i]);
    }
  }

  lemma PartElsewhere(ram: seq<byte>, list: seq<nat>, at: nat, x: seq<byte>)
    requires Addressable(ram, list) && at + |x| <= |list|
    ensures InRam(list[at..at + |x|], |ram|)
    ensures OnlyAt(list, ram, Scatter(ram, list[at..at + |x|], x))
  {
    var part := list[at..at + |x|];
    assert forall k | 0 <= k < |x| :: part[k] == list[at + k];
    forall a | 0 <= a < |ram| && a !in list ensures Scatter(ram, part, x)[a] == ram[a] {
      ScatterOther(ram, part, x, a);
    }
  }

  /** A part of a list is written through, and read back, at its place in the whole list. */
  lemma PartOfList(ram: seq<byte>, list: seq<nat>, at: nat, x: seq<byte>)
    requires Addressable(ram, list) && at + |x| <= |list|
    ensures InRam(list[at..at + |x|], |ram|)
    ensures var was := Gather(ram, list);
            && Gather(ram, list[at..at + |x|]) == was[at..at + |x|]
            && Gather(Scatter(ram, list[at..at + |x|], x), list) == was[..at] + x + was[at + |x|..]
            && OnlyAt(list, ram, Scatter(ram, list[at..at + |x|], x))
  {
    PartElsewhere(ram, list, at, x);
    hide Scatter, Distinct, OnlyAt;
    var now := Scatter(ram, list[at..at + |x|], x);
    forall i | 0 <= i < |list| ensures now[list[i]] == if at <= i < at + |x| then x[i - at] else ram[list[i]] {
      PartAt(ram, list, at, x, i);
    }
    var was := Gather(ram, list);
    assert Gather(now, list) == was[..at] + x + was[at + |x|..];
  }

  lemma CryptKeepsLength(t: Transform, encrypt: bool, iv: seq<byte>, data: seq<byte>)
    requires Lawful(t) && |iv| == t.ivsize
    ensures t.blocksize > 0
    ensures |data| % t.blocksize == 0 ==>
              var o := Crypt(t, encrypt, iv, data); |o.data| == |data| && |o.iv| == t.ivsize
  {
    assert KeepsLength(t, encrypt, iv, data);
  }

  /** `scatterwalk_map_and_copy` into a list. */
  method WriteList(k: Kernel, list: seq<nat>, at: nat, x: seq<byte>)
    requires Addressable(k.ram, list) && at + |x| <= |list|
    modifies k`ram
    ensures Addressable(k.ram, list) && OnlyAt(list, old(k.ram), k.ram)
    ensures var was := Gather(old(k.ram), list);
            Gather(k.ram, list) == was[..at] + x + was[at + |x|..]
  {
    hide Scatter, Gather, OnlyAt, Distinct;
    PartOfList(k.ram, list, at, x);
    k.ram := Scatter(k.ram, list[at..at + |x|], x);
  }

  /** The cipher in place on a part of a list.  A cipher refuses a part of a block. */
  method CipherInPlace(s: Session, k: Kernel, encrypt: bool, list: seq<nat>, at: nat, len: nat) returns (ret: int)
    requires s.Valid() && s.cfg.cipher.Some? && Addressable(k.ram, list) && at + len <= |list|
    modifies s`iv, k`ram
    ensures s.Valid() && Addressable(k.ram, list) && OnlyAt(list, old(k.ram), k.ram)
    ensures ret == if len % s.cfg.cipher.value.blocksize == 0 then 0 else EINVAL
    ensures ret != 0 ==> s.iv == old(s.iv) && k.ram == old(k.ram)
    ensures ret == 0 ==>
              var was := Gather(old(k.ram), list);
              var o := Crypt(s.cfg.cipher.value, encrypt, old(s.iv), was[at..at + len]);
              && |o.data| == len && s.iv == o.iv
              && Gather(k.ram, list) == was[..at] + o.data + was[at + len..]
  {
    hide Lawful, LawfulHash, Gather, OnlyAt, InRam, Distinct;
    NothingChanged(list, k.ram);
    var t := s.cfg.cipher.value;
    var data := Gather(k.ram, list)[at..at + len];
    CryptKeepsLength(t, encrypt, s.iv, data);
    if len % t.blocksize != 0 {
      return EINVAL;
    }
    var o := Crypt(t, encrypt, s.iv, data);
    WriteList(k, list, at, o.data);
    s.iv := o.iv;
    ret := 0;
  }

  /** The part of `crypto_auth_run` before the data: the operation must be known and the cipher
      present; the hash starts afresh and the IV comes from the call block. */
  method AuthPrepare(s: Session, kcop: KernelAuthOp) returns (ret: int)
    requires s.Valid() && kcop.Valid()
    modifies s`iv, s`hash
    ensures s.Valid()
    ensures ret == if (kcop.op == COP_ENCRYPT || kcop.op == COP_DECRYPT) && s.cfg.cipher.Some? then 0 else EINVAL
    ensures ret != 0 ==> s.iv == old(s.iv) && s.hash == old(s.hash)
    ensures ret == 0 ==> s.iv == Overlay(old(s.iv), kcop.iv, IvBytes(s.cfg, kcop.ivlen))
                         && s.hash == if s.cfg.hash.Some? then Absorbing([]) else old(s.hash)
  {
    hide Lawful, LawfulHash, Overlay;
    if (kcop.op != COP_ENCRYPT && kcop.op != COP_DECRYPT) || s.cfg.cipher.None? {
      return EINVAL;
    }
    if s.cfg.hash.Some? {
      s.hash := Absorbing([]);
    }
    s.iv := Overlay(s.iv, kcop.iv, IvBytes(s.cfg, kcop.ivlen));
    ret := 0;
  }

  /** The hash, if there is one, has absorbed nothing yet. */
  predicate FreshHash(s: Session)
    reads s
  {
    s.cfg.hash.Some? ==> s.hash == Absorbing([])
  }
}
