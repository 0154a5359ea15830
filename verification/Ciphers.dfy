/**
 What the driver expects of the kernel's ciphers and hashes, and two ciphers that meet it.
 */
module Ciphers {
  import opened Bytes

  /** The bytes a cipher call writes, and the IV it leaves behind. */
  datatype Out = Out(data: seq<byte>, iv: seq<byte>)

  /** A cipher with its key.  Input comes in multiples of blocksize, and a call may be split
      at any multiple of granule. */
  datatype Transform = Transform(
    blocksize: nat,
    granule: nat,
    ivsize: nat,
    enc: (seq<byte>, seq<byte>) -> Out,
    dec: (seq<byte>, seq<byte>) -> Out)

  /** One of the two directions. */
  function Crypt(t: Transform, encrypt: bool, iv: seq<byte>, data: seq<byte>): Out {
    if encrypt then t.enc(iv, data) else t.dec(iv, data)
  }

  predicate Whole(t: Transform, iv: seq<byte>, data: seq<byte>)
    requires t.blocksize > 0
  {
    |iv| == t.ivsize && |data| % t.blocksize == 0
  }

  ghost predicate KeepsLength(t: Transform, encrypt: bool, iv: seq<byte>, data: seq<byte>)
    requires t.blocksize > 0
  {
    Whole(t, iv, data) ==>
      var o := Crypt(t, encrypt, iv, data);
      |o.data| == |data| && |o.iv| == t.ivsize
  }

  /** A call on a + b is a call on a and then, with the IV that left, a call on b. */
  ghost predicate Chains(t: Transform, encrypt: bool, iv: seq<byte>, a: seq<byte>, b: seq<byte>)
    requires t.blocksize > 0 && t.granule > 0
  {
    Whole(t, iv, b) && |a| % t.granule == 0 ==>
      var first := Crypt(t, encrypt, iv, a);
      var second := Crypt(t, encrypt, first.iv, b);
      Crypt(t, encrypt, iv, a + b) == Out(first.data + second.data, second.iv)
  }

  ghost predicate Inverts(t: Transform, iv: seq<byte>, data: seq<byte>)
    requires t.blocksize > 0
  {
    Whole(t, iv, data) ==> t.dec(iv, t.enc(iv, data).data) == Out(data, t.enc(iv, data).iv)
  }

  ghost predicate Lawful(t: Transform) {
    && t.blocksize > 0 && t.granule > 0 && t.granule % t.blocksize == 0
    && (forall e, iv, d :: KeepsLength(t, e, iv, d))
    && (forall e, iv, a, b :: Chains(t, e, iv, a, b))
    && (forall iv, d :: Inverts(t, iv, d))
  }

  /** A hash or MAC with its key: a function of the whole message absorbed since a reset. */
  datatype Hash = Hash(digestsize: nat, digest: seq<byte> -> seq<byte>)

  const AALG_MAX_RESULT_LEN := 64

  ghost predicate LawfulHash(h: Hash) {
    h.digestsize <= AALG_MAX_RESULT_LEN && forall m :: |h.digest(m)| == h.digestsize
  }

  /// Cipher block chaining

  datatype BlockCipher = BlockCipher(size: nat, E: seq<byte> -> seq<byte>, D: seq<byte> -> seq<byte>)

  ghost predicate Permutes(bc: BlockCipher, x: seq<byte>) {
    |x| == bc.size ==> |bc.E(x)| == bc.size && |bc.D(x)| == bc.size && bc.D(bc.E(x)) == x
  }

  ghost predicate Permutation(bc: BlockCipher) {
    bc.size > 0 && forall x :: Permutes(bc, x)
  }

  function CbcEnc(bc: BlockCipher, iv: seq<byte>, data: seq<byte>): Out
    decreases |data|
  {
    if bc.size == 0 || |data| < bc.size || |iv| != bc.size then Out([], iv)
    else
      var c := bc.E(XorSeq(data[..bc.size], iv));
      var rest := CbcEnc(bc, c, data[bc.size..]);
      Out(c + rest.data, rest.iv)
  }

  function CbcDec(bc: BlockCipher, iv: seq<byte>, data: seq<byte>): Out
    decreases |data|
  {
    if bc.size == 0 || |data| < bc.size || |iv| != bc.size || |bc.D(data[..bc.size])| != bc.size then Out([], iv)
    else
      var c := data[..bc.size];
      var rest := CbcDec(bc, c, data[bc.size..]);
      Out(XorSeq(bc.D(c), iv) + rest.data, rest.iv)
  }

  function Cbc(bc: BlockCipher): Transform {
    Transform(bc.size, bc.size, bc.size, (iv, d) => CbcEnc(bc, iv, d), (iv, d) => CbcDec(bc, iv, d))
  }

  function CbcCrypt(bc: BlockCipher, encrypt: bool, iv: seq<byte>, data: seq<byte>): Out {
    if encrypt then CbcEnc(bc, iv, data) else CbcDec(bc, iv, data)
  }

  lemma PermutationSize(bc: BlockCipher)
    requires Permutation(bc)
    ensures bc.size > 0
  {
  }

  lemma PermutesBlock(bc: BlockCipher, x: seq<byte>)
    requires Permutation(bc)
    ensures Permutes(bc, x)
  {
  }

  lemma MultipleOf(q: nat, size: nat)
    requires size > 0
    ensures (q * size) % size == 0 && (q * size) / size == q
  {
    var s: int := size;
    var d: int := q - (q * size) / size;
    assert s * d == (q * size) % size;
    assert d > 0 ==> s * d >= s;
    assert d < 0 ==> s * d <= -s;
  }

  lemma MultipleStep(n: nat, size: nat)
    requires size > 0 && n % size == 0 && n > 0
    ensures n >= size && (n - size) % size == 0
  {
    var q := n / size;
    assert n == q * size && q > 0;
    assert n - size == (q - 1) * size;
    MultipleOf(q - 1, size);
  }

  lemma {:induction false} CbcLength(bc: BlockCipher, encrypt: bool, iv: seq<byte>, data: seq<byte>)
    requires Permutation(bc) && |iv| == bc.size && |data| % bc.size == 0
    ensures |CbcCrypt(bc, encrypt, iv, data).data| == |data|
    ensures |CbcCrypt(bc, encrypt, iv, data).iv| == bc.size
    decreases |data|
  {
    if data != [] {
      MultipleStep(|data|, bc.size);
      var x := if encrypt then XorSeq(data[..bc.size], iv) else data[..bc.size];
      assert Permutes(bc, x);
      CbcLength(bc, encrypt, if encrypt then bc.E(x) else x, data[bc.size..]);
    }
  }

  lemma {:induction false} CbcChains(bc: BlockCipher, encrypt: bool, iv: seq<byte>, a: seq<byte>, b: seq<byte>)
    requires Permutation(bc) && |iv| == bc.size && |a| % bc.size == 0
    ensures var first := CbcCrypt(bc, encrypt, iv, a);
            var second := CbcCrypt(bc, encrypt, first.iv, b);
            CbcCrypt(bc, encrypt, iv, a + b) == Out(first.data + second.data, second.iv)
    decreases |a|
  {
    hide XorSeq, Permutation;
    PermutationSize(bc);
    if a == [] {
      assert a + b == b;
    } else {
      MultipleStep(|a|, bc.size);
      var x := if encrypt then XorSeq(a[..bc.size], iv) else a[..bc.size];
      PermutesBlock(bc, x);
      assert (a + b)[..bc.size] == a[..bc.size] && (a + b)[bc.size..] == a[bc.size..] + b;
      CbcChains(bc, encrypt, if encrypt then bc.E(x) else x, a[bc.size..], b);
    }
  }

  lemma {:induction false} CbcInverts(bc: BlockCipher, iv: seq<byte>, data: seq<byte>)
    requires Permutation(bc) && |iv| == bc.size && |data| % bc.size == 0
    ensures CbcDec(bc, iv, CbcEnc(bc, iv, data).data) == Out(data, CbcEnc(bc, iv, data).iv)
    decreases |data|
  {
    hide XorSeq, Permutation;
    PermutationSize(bc);
    if data != [] {
      MultipleStep(|data|, bc.size);
      var head, tail := data[..bc.size], data[bc.size..];
      var x := XorSeq(head, iv);
      var c := bc.E(x);
      PermutesBlock(bc, x);
      PermutesBlock(bc, c);
      XorSeqCancels(head, iv);
      CbcInverts(bc, c, tail);
      var rest := CbcEnc(bc, c, tail);
      assert (c + rest.data)[..bc.size] == c && (c + rest.data)[bc.size..] == rest.data;
      assert head + tail == data;
    }
  }

  /** The IV a call leaves is the last block of the cipher text, or the one it was given. */
  lemma {:induction false} CbcLeaves(bc: BlockCipher, encrypt: bool, iv: seq<byte>, data: seq<byte>)
    requires Permutation(bc) && |iv| == bc.size && |data| % bc.size == 0
    ensures |CbcCrypt(bc, encrypt, iv, data).data| == |data| && (data != [] ==> |data| >= bc.size)
    ensures var o := CbcCrypt(bc, encrypt, iv, data);
            o.iv == if data == [] then iv else (if encrypt then o.data else data)[|data| - bc.size..]
    decreases |data|
  {
    CbcLength(bc, encrypt, iv, data);
    if data != [] {
      MultipleStep(|data|, bc.size);
      var head, tail := data[..bc.size], data[bc.size..];
      PermutesBlock(bc, if encrypt then XorSeq(head, iv) else head);
      var next := if encrypt then bc.E(XorSeq(head, iv)) else head;
      var rest := CbcCrypt(bc, encrypt, next, tail);
      var o := CbcCrypt(bc, encrypt, iv, data);
      assert |next| == bc.size && o.iv == rest.iv && o.data[bc.size..] == rest.data && o.data[..bc.size] ==
        if encrypt then next else XorSeq(bc.D(head), iv);
      hide Permutation, XorSeq, CbcCrypt;
      CbcLeaves(bc, encrypt, next, tail);
    }
  }

  /** Cipher block chaining, block by block: a block is combined with the cipher text before it,
      the first one with the IV, and goes through the block cipher; backwards in the other
      direction. */
  lemma CbcBlock(bc: BlockCipher, iv: seq<byte>, pre: seq<byte>, x: seq<byte>, post: seq<byte>)
    requires Permutation(bc) && |iv| == |x| == bc.size && |pre| % bc.size == 0 && |post| % bc.size == 0
    ensures var n, data := |pre|, pre + x + post;
            var c, m := CbcEnc(bc, iv, data).data, CbcDec(bc, iv, data).data;
            && |c| == |m| == |data| && (n > 0 ==> n >= bc.size) && Permutes(bc, x)
            && c[n..n + bc.size] == bc.E(XorSeq(x, if n == 0 then iv else c[n - bc.size..n]))
            && m[n..n + bc.size] == XorSeq(bc.D(x), if n == 0 then iv else data[n - bc.size..n])
  {
    CbcBlockWay(bc, true, iv, pre, x, post);
    CbcBlockWay(bc, false, iv, pre, x, post);
  }

  lemma CbcBlockWay(bc: BlockCipher, encrypt: bool, iv: seq<byte>, pre: seq<byte>, x: seq<byte>, post: seq<byte>)
    requires Permutation(bc) && |iv| == |x| == bc.size && |pre| % bc.size == 0 && |post| % bc.size == 0
    ensures var n, data := |pre|, pre + x + post;
            var o := CbcCrypt(bc, encrypt, iv, data).data;
            && |o| == |data| && (n > 0 ==> n >= bc.size) && Permutes(bc, x)
            && o[n..n + bc.size] ==
               if encrypt then bc.E(XorSeq(x, if n == 0 then iv else o[n - bc.size..n]))
               else XorSeq(bc.D(x), if n == 0 then iv else data[n - bc.size..n])
  {
    PermutationSize(bc);
    var first := CbcCrypt(bc, encrypt, iv, pre);
    CbcLeaves(bc, encrypt, iv, pre);
    CbcFront(bc, encrypt, first.iv, x, post);
    var second := CbcCrypt(bc, encrypt, first.iv, x + post);
    CbcChains(bc, encrypt, iv, pre, x + post);
    assert pre + (x + post) == pre + x + post;
    hide Permutation, XorSeq, CbcCrypt;
    var o := first.data + second.data;
    assert o[|pre|..|pre| + bc.size] == second.data[..bc.size];
  }

  lemma CbcFront(bc: BlockCipher, encrypt: bool, iv: seq<byte>, x: seq<byte>, post: seq<byte>)
    requires Permutation(bc) && |iv| == |x| == bc.size && |post| % bc.size == 0
    ensures var o := CbcCrypt(bc, encrypt, iv, x + post).data;
            && |o| == bc.size + |post| && Permutes(bc, x)
            && o[..bc.size] == if encrypt then bc.E(XorSeq(x, iv)) else XorSeq(bc.D(x), iv)
  {
    var head := if encrypt then XorSeq(x, iv) else x;
    PermutesBlock(bc, head);
    CbcLength(bc, encrypt, if encrypt then bc.E(head) else x, post);
    assert (x + post)[..bc.size] == x && (x + post)[bc.size..] == post;
  }

  /** CBC over a block permutation is a lawful transform that may be cut at any block. */
  lemma CbcLawful(bc: BlockCipher)
    requires Permutation(bc)
    ensures Lawful(Cbc(bc))
  {
    var t := Cbc(bc);
    forall e, iv, d ensures KeepsLength(t, e, iv, d) {
      if Whole(t, iv, d) { CbcLength(bc, e, iv, d); }
    }
    forall e, iv, a, b ensures Chains(t, e, iv, a, b) {
      if Whole(t, iv, b) && |a| % bc.size == 0 { CbcChains(bc, e, iv, a, b); }
    }
    forall iv, d ensures Inverts(t, iv, d) {
      if Whole(t, iv, d) { CbcInverts(bc, iv, d); }
    }
  }

  /// Counter mode

  /** A key stream from the block function and the step of the counter block. */
  datatype Counter = Counter(size: nat, E: seq<byte> -> seq<byte>, next: seq<byte> -> seq<byte>)

  ghost predicate Steps(c: Counter, x: seq<byte>) {
    |x| == c.size ==> |c.E(x)| == c.size && |c.next(x)| == c.size
  }

  ghost predicate LawfulCounter(c: Counter) {
    c.size > 0 && forall x :: Steps(c, x)
  }

  function CtrCrypt(c: Counter, iv: seq<byte>, data: seq<byte>): Out
    decreases |data|
  {
    if c.size == 0 || data == [] || |c.E(iv)| != c.size then Out([], iv)
    else
      var n := if |data| < c.size then |data| else c.size;
      var rest := CtrCrypt(c, c.next(iv), data[n..]);
      Out(XorSeq(data[..n], c.E(iv)) + rest.data, rest.iv)
  }

  function Ctr(c: Counter): Transform {
    Transform(1, c.size, c.size, (iv, d) => CtrCrypt(c, iv, d), (iv, d) => CtrCrypt(c, iv, d))
  }

  lemma {:induction false} CtrLength(c: Counter, iv: seq<byte>, data: seq<byte>)
    requires LawfulCounter(c) && |iv| == c.size
    ensures |CtrCrypt(c, iv, data).data| == |data| && |CtrCrypt(c, iv, data).iv| == c.size
    decreases |data|
  {
    assert Steps(c, iv);
    if data != [] {
      CtrLength(c, c.next(iv), data[if |data| < c.size then |data| else c.size..]);
    }
  }

  lemma {:induction false} CtrChains(c: Counter, iv: seq<byte>, a: seq<byte>, b: seq<byte>)
    requires LawfulCounter(c) && |iv| == c.size && |a| % c.size == 0
    ensures var first := CtrCrypt(c, iv, a);
            var second := CtrCrypt(c, first.iv, b);
            CtrCrypt(c, iv, a + b) == Out(first.data + second.data, second.iv)
    decreases |a|
  {
    assert Steps(c, iv);
    if a == [] {
      assert a + b == b;
    } else {
      MultipleStep(|a|, c.size);
      assert (a + b)[..c.size] == a[..c.size] && (a + b)[c.size..] == a[c.size..] + b;
      CtrChains(c, c.next(iv), a[c.size..], b);
    }
  }

  lemma {:induction false} CtrInverts(c: Counter, iv: seq<byte>, data: seq<byte>)
    requires LawfulCounter(c) && |iv| == c.size
    ensures CtrCrypt(c, iv, CtrCrypt(c, iv, data).data) == Out(data, CtrCrypt(c, iv, data).iv)
    decreases |data|
  {
    assert Steps(c, iv);
    if data != [] {
      var n := if |data| < c.size then |data| else c.size;
      var head, tail := data[..n], data[n..];
      CtrInverts(c, c.next(iv), tail);
      CtrLength(c, c.next(iv), tail);
      XorSeqCancels(head, c.E(iv));
      var x, rest := XorSeq(head, c.E(iv)), CtrCrypt(c, c.next(iv), tail);
      assert (x + rest.data)[..n] == x && (x + rest.data)[n..] == rest.data;
      assert head + tail == data;
    }
  }

  /** The counter block behind n bytes: one step for each whole block. */
  function CounterAfter(c: Counter, iv: seq<byte>, n: nat): seq<byte>
    decreases n
  {
    if c.size == 0 || n < c.size then iv else CounterAfter(c, c.next(iv), n - c.size)
  }

  /** Counter mode, byte by byte: byte j behind some whole blocks is combined with byte j of the
      key stream block of the counter there; behind the last piece the counter has moved on. */
  lemma {:induction false} CtrByte(c: Counter, iv: seq<byte>, pre: seq<byte>, x: seq<byte>, j: nat)
    requires LawfulCounter(c) && |iv| == c.size && |pre| % c.size == 0 && j < |x| && j < c.size
    ensures var o, key := CtrCrypt(c, iv, pre + x), c.E(CounterAfter(c, iv, |pre|));
            && |o.data| == |pre| + |x| && |key| == c.size
            && o.data[|pre| + j] == Xor(x[j], key[j])
            && (|x| <= c.size ==> o.iv == c.next(CounterAfter(c, iv, |pre|)))
    decreases |pre|
  {
    StepsAt(c, iv);
    if pre == [] {
      assert pre + x == x;
      CtrFront(c, iv, x, j);
    } else {
      MultipleStep(|pre|, c.size);
      hide LawfulCounter, CtrCrypt;
      var rest := pre[c.size..];
      assert pre + x == pre[..c.size] + (rest + x);
      CtrByte(c, c.next(iv), rest, x, j);
      CtrOneBlock(c, iv, pre[..c.size], rest + x);
    }
  }

  lemma StepsAt(c: Counter, iv: seq<byte>)
    requires LawfulCounter(c) && |iv| == c.size
    ensures |c.E(iv)| == c.size && |c.next(iv)| == c.size && c.size > 0
  {
    assert Steps(c, iv);
  }

  lemma CtrFront(c: Counter, iv: seq<byte>, x: seq<byte>, j: nat)
    requires LawfulCounter(c) && |iv| == c.size && j < |x| && j < c.size
    ensures var o := CtrCrypt(c, iv, x);
            && |o.data| == |x| && |c.E(iv)| == c.size && o.data[j] == Xor(x[j], c.E(iv)[j])
            && (|x| <= c.size ==> o.iv == c.next(iv))
  {
    StepsAt(c, iv);
    CtrLength(c, iv, x);
    hide LawfulCounter;
    if |x| <= c.size {
      assert CtrCrypt(c, c.next(iv), []) == Out([], c.next(iv));
    }
  }

  lemma CtrOneBlock(c: Counter, iv: seq<byte>, a: seq<byte>, b: seq<byte>)
    requires LawfulCounter(c) && |iv| == |a| == c.size
    ensures var o, rest := CtrCrypt(c, iv, a + b), CtrCrypt(c, c.next(iv), b);
            |o.data| == |a| + |rest.data| && o.data[|a|..] == rest.data && o.iv == rest.iv
  {
    StepsAt(c, iv);
    hide LawfulCounter;
    assert (a + b)[..c.size] == a && (a + b)[c.size..] == b;
  }

  /** Counter mode is a lawful stream transform that may be cut at whole counter blocks. */
  lemma CtrLawful(c: Counter)
    requires LawfulCounter(c)
    ensures Lawful(Ctr(c)) && Ctr(c).blocksize == 1
  {
    var t := Ctr(c);
    forall e, iv, d ensures KeepsLength(t, e, iv, d) {
      if Whole(t, iv, d) { CtrLength(c, iv, d); }
    }
    forall e, iv, a, b ensures Chains(t, e, iv, a, b) {
      if Whole(t, iv, b) && |a| % c.size == 0 { CtrChains(c, iv, a, b); }
    }
    forall iv, d ensures Inverts(t, iv, d) {
      if Whole(t, iv, d) { CtrInverts(c, iv, d); }
    }
  }
}
