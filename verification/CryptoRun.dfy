/**
 The two ways `crypto_run` moves data, as functions of the machine state: page by page
 through a kernel page, or in place on the user's pages.

 Both are built from `HashNCrypt` over lists of physical addresses.  The main theorem says
 exactly for which calls they cannot be told apart.
 */
module CryptoRun {
  import opened Bytes
  import opened Ciphers
  import opened Scatterlist
  import opened UserPages

  const EFAULT := -14

  /** The message absorbed since the last reset; after a digest has been taken the kernel
      promises nothing until the next reset. */
  datatype HashState = Absorbing(msg: seq<byte>) | Finished

  function Absorb(h: HashState, data: seq<byte>): HashState {
    if h.Absorbing? then Absorbing(h.msg + data) else Finished
  }

  /** The algorithms of a session; either may be absent. */
  datatype Config = Config(cipher: Option<Transform>, hash: Option<Hash>)

  /** The state a call changes. */
  datatype Engine = Engine(ram: seq<byte>, iv: seq<byte>, hash: HashState)

  /// Memory seen through address lists

  predicate InRam(s: seq<nat>, size: nat) {
    forall i | 0 <= i < |s| :: s[i] < size
  }

  predicate Distinct(s: seq<nat>) {
    forall i, j | 0 <= i < j < |s| :: s[i] != s[j]
  }

  predicate Disjoint(s: seq<nat>, d: seq<nat>) {
    forall i, j | 0 <= i < |s| && 0 <= j < |d| :: s[i] != d[j]
  }

  function Gather(ram: seq<byte>, s: seq<nat>): (r: seq<byte>)
    requires InRam(s, |ram|)
    ensures |r| == |s| && forall i | 0 <= i < |s| :: r[i] == ram[s[i]]
  {
    seq(|s|, i requires 0 <= i < |s| => ram[s[i]])
  }

  function Scatter(ram: seq<byte>, d: seq<nat>, x: seq<byte>): (r: seq<byte>)
    requires InRam(d, |ram|) && |d| == |x|
    ensures |r| == |ram|
    decreases |d|
  {
    if d == [] then ram else Scatter(ram[d[0] := x[0]], d[1..], x[1..])
  }

  lemma {:induction false} ScatterOther(ram: seq<byte>, d: seq<nat>, x: seq<byte>, a: nat)
    requires InRam(d, |ram|) && |d| == |x| && a < |ram| && a !in d
    ensures Scatter(ram, d, x)[a] == ram[a]
    decreases |d|
  {
    if d != [] {
      ScatterOther(ram[d[0] := x[0]], d[1..], x[1..], a);
    }
  }

  lemma {:induction false} ScatterAt(ram: seq<byte>, d: seq<nat>, x: seq<byte>, i: nat)
    requires InRam(d, |ram|) && |d| == |x| && Distinct(d) && i < |d|
    ensures Scatter(ram, d, x)[d[i]] == x[i]
    decreases |d|
  {
    if i == 0 {
      ScatterOther(ram[d[0] := x[0]], d[1..], x[1..], d[0]);
    } else {
      ScatterAt(ram[d[0] := x[0]], d[1..], x[1..], i - 1);
    }
  }

  lemma {:induction false} ScatterSplit(ram: seq<byte>, d1: seq<nat>, x1: seq<byte>, d2: seq<nat>, x2: seq<byte>)
    requires InRam(d1, |ram|) && InRam(d2, |ram|) && |d1| == |x1| && |d2| == |x2|
    ensures InRam(d1 + d2, |ram|)
    ensures Scatter(ram, d1 + d2, x1 + x2) == Scatter(Scatter(ram, d1, x1), d2, x2)
    decreases |d1|
  {
    if d1 == [] {
      assert d1 + d2 == d2 && x1 + x2 == x2;
    } else {
      assert (d1 + d2)[1..] == d1[1..] + d2 && (x1 + x2)[1..] == x1[1..] + x2;
      ScatterSplit(ram[d1[0] := x1[0]], d1[1..], x1[1..], d2, x2);
    }
  }

  lemma GatherWritten(ram: seq<byte>, d: seq<nat>, x: seq<byte>)
    requires InRam(d, |ram|) && |d| == |x| && Distinct(d)
    ensures Gather(Scatter(ram, d, x), d) == x
  {
    forall i | 0 <= i < |d| ensures Scatter(ram, d, x)[d[i]] == x[i] {
      ScatterAt(ram, d, x, i);
    }
  }

  lemma GatherElsewhere(ram: seq<byte>, d: seq<nat>, x: seq<byte>, s: seq<nat>)
    requires InRam(d, |ram|) && |d| == |x| && InRam(s, |ram|) && Disjoint(s, d)
    ensures Gather(Scatter(ram, d, x), s) == Gather(ram, s)
  {
    forall i | 0 <= i < |s| ensures Scatter(ram, d, x)[s[i]] == ram[s[i]] {
      ScatterOther(ram, d, x, s[i]);
    }
  }

  /// One pass over two lists

  /** `hash_n_crypt`: hash before encryption, after decryption. */
  function HashNCrypt(cfg: Config, encrypt: bool, e: Engine, src: seq<nat>, dst: seq<nat>): (r: Engine)
    requires InRam(src, |e.ram|) && InRam(dst, |e.ram|)
    ensures |r.ram| == |e.ram|
  {
    if encrypt then
      CryptPass(cfg, encrypt, HashPass(cfg, e, src), src, dst)
    else
      HashPass(cfg, CryptPass(cfg, encrypt, e, src, dst), dst)
  }

  function HashPass(cfg: Config, e: Engine, s: seq<nat>): Engine
    requires InRam(s, |e.ram|)
  {
    if cfg.hash.Some? then e.(hash := Absorb(e.hash, Gather(e.ram, s))) else e
  }

  function CryptPass(cfg: Config, encrypt: bool, e: Engine, src: seq<nat>, dst: seq<nat>): (r: Engine)
    requires InRam(src, |e.ram|) && InRam(dst, |e.ram|)
    ensures |r.ram| == |e.ram|
  {
    if cfg.cipher.None? then e
    else
      var o := Crypt(cfg.cipher.value, encrypt, e.iv, Gather(e.ram, src));
      if |o.data| != |dst| then e else e.(ram := Scatter(e.ram, dst, o.data), iv := o.iv)
  }

  /** The lists of one call: both in memory, the target without repetition, and either the
      same list or nothing in common. */
  ghost predicate Lists(size: nat, src: seq<nat>, dst: seq<nat>) {
    && |src| == |dst| && InRam(src, size) && InRam(dst, size)
    && Distinct(dst) && (src == dst || Disjoint(src, dst))
  }

  /** The cipher of the session, if any, is lawful and the IV fits it. */
  ghost predicate Ready(cfg: Config, e: Engine) {
    cfg.cipher.Some? ==> Lawful(cfg.cipher.value) && |e.iv| == cfg.cipher.value.ivsize
  }

  /** A length that the cipher takes in one call. */
  predicate WholeBlocks(cfg: Config, n: nat) {
    cfg.cipher.Some? ==> cfg.cipher.value.blocksize > 0 && n % cfg.cipher.value.blocksize == 0
  }

  predicate WholeGranules(cfg: Config, n: nat) {
    cfg.cipher.Some? ==> cfg.cipher.value.granule > 0 && n % cfg.cipher.value.granule == 0
  }

  lemma GranuleIsBlocks(t: Transform, n: nat)
    requires Lawful(t) && n % t.granule == 0
    ensures n % t.blocksize == 0
  {
    var q, m := n / t.granule, t.granule / t.blocksize;
    assert n == q * t.granule && t.granule == m * t.blocksize;
    assert n == (q * m) * t.blocksize;
    MultipleOf(q * m, t.blocksize);
  }

  lemma CryptPassReady(cfg: Config, encrypt: bool, e: Engine, src: seq<nat>, dst: seq<nat>)
    requires Ready(cfg, e) && Lists(|e.ram|, src, dst) && WholeBlocks(cfg, |src|)
    ensures Ready(cfg, CryptPass(cfg, encrypt, e, src, dst))
    ensures cfg.cipher.Some? ==>
              var o := Crypt(cfg.cipher.value, encrypt, e.iv, Gather(e.ram, src));
              |o.data| == |dst| && Gather(CryptPass(cfg, encrypt, e, src, dst).ram, dst) == o.data
  {
    if cfg.cipher.Some? {
      var t := cfg.cipher.value;
      assert KeepsLength(t, encrypt, e.iv, Gather(e.ram, src));
      GatherWritten(e.ram, dst, Crypt(t, encrypt, e.iv, Gather(e.ram, src)).data);
    }
  }

  lemma GatherSplit(ram: seq<byte>, a: seq<nat>, b: seq<nat>)
    requires InRam(a, |ram|) && InRam(b, |ram|)
    ensures InRam(a + b, |ram|) && Gather(ram, a + b) == Gather(ram, a) + Gather(ram, b)
  {
  }

  lemma InRamSplit(size: nat, a: seq<nat>, b: seq<nat>)
    ensures InRam(a + b, size) <==> InRam(a, size) && InRam(b, size)
  {
    if InRam(a + b, size) {
      assert forall i | 0 <= i < |a| :: a[i] == (a + b)[i];
      assert forall i | 0 <= i < |b| :: b[i] == (a + b)[|a| + i];
    }
  }

  lemma DistinctSplit(a: seq<nat>, b: seq<nat>)
    requires Distinct(a + b)
    ensures Distinct(a) && Distinct(b) && Disjoint(b, a)
  {
    var s := a + b;
    assert forall i | 0 <= i < |a| :: a[i] == s[i];
    assert forall i | 0 <= i < |b| :: b[i] == s[|a| + i];
  }

  lemma DisjointSplit(a: seq<nat>, b: seq<nat>, c: seq<nat>, d: seq<nat>)
    requires Disjoint(a + b, c + d)
    ensures Disjoint(a, c) && Disjoint(b, d) && Disjoint(b, c)
  {
    var s, t := a + b, c + d;
    assert forall i | 0 <= i < |a| :: a[i] == s[i];
    assert forall i | 0 <= i < |b| :: b[i] == s[|a| + i];
    assert forall i | 0 <= i < |c| :: c[i] == t[i];
    assert forall i | 0 <= i < |d| :: d[i] == t[|c| + i];
  }

  /** Lists that belong together may be cut together. */
  lemma ListsSplit(size: nat, s1: seq<nat>, s2: seq<nat>, d1: seq<nat>, d2: seq<nat>)
    requires Lists(size, s1 + s2, d1 + d2) && |s1| == |d1|
    ensures Lists(size, s1, d1) && Lists(size, s2, d2) && Disjoint(s2, d1)
  {
    hide InRam, Distinct, Disjoint;
    InRamSplit(size, s1, s2);
    InRamSplit(size, d1, d2);
    DistinctSplit(d1, d2);
    if s1 + s2 == d1 + d2 {
      assert s1 == (s1 + s2)[..|s1|] && d1 == (d1 + d2)[..|s1|];
      assert s2 == (s1 + s2)[|s1|..] && d2 == (d1 + d2)[|s1|..];
    } else {
      DisjointSplit(s1, s2, d1, d2);
    }
  }

  lemma CryptPassSplit(cfg: Config, encrypt: bool, e: Engine, s1: seq<nat>, s2: seq<nat>, d1: seq<nat>, d2: seq<nat>)
    requires Ready(cfg, e) && Lists(|e.ram|, s1 + s2, d1 + d2) && |s1| == |d1|
    requires WholeGranules(cfg, |s1|) && WholeBlocks(cfg, |s2|)
    ensures Lists(|e.ram|, s1, d1) && Lists(|e.ram|, s2, d2)
    ensures CryptPass(cfg, encrypt, e, s1 + s2, d1 + d2)
         == CryptPass(cfg, encrypt, CryptPass(cfg, encrypt, e, s1, d1), s2, d2)
  {
    ListsSplit(|e.ram|, s1, s2, d1, d2);
    if cfg.cipher.Some? {
      hide Distinct, Disjoint, Gather, Scatter, Lawful;
      CipherSplit(cfg, encrypt, e, s1, s2, d1, d2);
    }
  }

  lemma CipherSplit(cfg: Config, encrypt: bool, e: Engine, s1: seq<nat>, s2: seq<nat>, d1: seq<nat>, d2: seq<nat>)
    requires cfg.cipher.Some? && Ready(cfg, e) && |s1| == |d1|
    requires Lists(|e.ram|, s1, d1) && Lists(|e.ram|, s2, d2) && Disjoint(s2, d1)
    requires WholeGranules(cfg, |s1|) && WholeBlocks(cfg, |s2|)
    ensures InRam(s1 + s2, |e.ram|) && InRam(d1 + d2, |e.ram|)
    ensures CryptPass(cfg, encrypt, e, s1 + s2, d1 + d2)
         == CryptPass(cfg, encrypt, CryptPass(cfg, encrypt, e, s1, d1), s2, d2)
  {
    var t := cfg.cipher.value;
    var x1, x2 := Gather(e.ram, s1), Gather(e.ram, s2);
    GranuleIsBlocks(t, |s1|);
    assert KeepsLength(t, encrypt, e.iv, x1) && Chains(t, encrypt, e.iv, x1, x2);
    var o1 := Crypt(t, encrypt, e.iv, x1);
    assert KeepsLength(t, encrypt, o1.iv, x2);
    var o2 := Crypt(t, encrypt, o1.iv, x2);
    hide Lawful, Lists, Distinct, Disjoint;
    GatherSplit(e.ram, s1, s2);
    ScatterSplit(e.ram, d1, o1.data, d2, o2.data);
    GatherElsewhere(e.ram, d1, o1.data, s2);
  }

  lemma CryptPassElsewhere(cfg: Config, encrypt: bool, e: Engine, src: seq<nat>, dst: seq<nat>, s: seq<nat>)
    requires InRam(src, |e.ram|) && InRam(dst, |e.ram|) && InRam(s, |e.ram|) && Disjoint(s, dst)
    ensures Gather(CryptPass(cfg, encrypt, e, src, dst).ram, s) == Gather(e.ram, s)
  {
    if cfg.cipher.Some? {
      var o := Crypt(cfg.cipher.value, encrypt, e.iv, Gather(e.ram, src));
      if |o.data| == |dst| {
        GatherElsewhere(e.ram, dst, o.data, s);
      }
    }
  }

  lemma CryptPassIgnoresHash(cfg: Config, encrypt: bool, e: Engine, src: seq<nat>, dst: seq<nat>, h: HashState)
    requires InRam(src, |e.ram|) && InRam(dst, |e.ram|)
    ensures CryptPass(cfg, encrypt, e.(hash := h), src, dst) == CryptPass(cfg, encrypt, e, src, dst).(hash := h)
    ensures CryptPass(cfg, encrypt, e, src, dst).hash == e.hash
  {
  }

  lemma AbsorbSplit(h: HashState, a: seq<byte>, b: seq<byte>)
    ensures Absorb(h, a + b) == Absorb(Absorb(h, a), b)
  {
    if h.Absorbing? {
      assert h.msg + (a + b) == h.msg + a + b;
    }
  }

  /** One pass over the whole lists is a pass over their fronts and then one over the rest. */
  lemma HashNCryptSplit(cfg: Config, encrypt: bool, e: Engine, s1: seq<nat>, s2: seq<nat>, d1: seq<nat>, d2: seq<nat>)
    requires Ready(cfg, e) && Lists(|e.ram|, s1 + s2, d1 + d2) && |s1| == |d1|
    requires WholeGranules(cfg, |s1|) && WholeBlocks(cfg, |s2|)
    ensures Lists(|e.ram|, s1, d1) && Lists(|e.ram|, s2, d2)
    ensures HashNCrypt(cfg, encrypt, e, s1 + s2, d1 + d2)
         == HashNCrypt(cfg, encrypt, HashNCrypt(cfg, encrypt, e, s1, d1), s2, d2)
  {
    ListsSplit(|e.ram|, s1, s2, d1, d2);
    CryptPassSplit(cfg, encrypt, e, s1, s2, d1, d2);
    var c1 := CryptPass(cfg, encrypt, e, s1, d1);
    var c2 := CryptPass(cfg, encrypt, c1, s2, d2);
    DistinctSplit(d1, d2);
    DisjointFlips(d2, d1);
    hide CryptPass, Lists, Distinct, Disjoint, Gather, InRam, Absorb;
    CryptPassElsewhere(cfg, encrypt, e, s1, d1, s2);
    CryptPassElsewhere(cfg, encrypt, c1, s2, d2, d1);
    ListsInRam(|e.ram|, s1, d1);
    ListsInRam(|e.ram|, s2, d2);
    var h1, h2 := if encrypt then Gather(e.ram, s1) else Gather(c1.ram, d1),
                  if encrypt then Gather(c1.ram, s2) else Gather(c2.ram, d2);
    AbsorbSplit(e.hash, h1, h2);
    if encrypt {
      GatherSplit(e.ram, s1, s2);
      var h := HashPass(cfg, e, s1).hash;
      CryptPassIgnoresHash(cfg, encrypt, e, s1, d1, h);
      CryptPassIgnoresHash(cfg, encrypt, c1, s2, d2, HashPass(cfg, c1.(hash := h), s2).hash);
      CryptPassIgnoresHash(cfg, encrypt, e, s1 + s2, d1 + d2, HashPass(cfg, e, s1 + s2).hash);
    } else {
      GatherSplit(c2.ram, d1, d2);
      var h := HashPass(cfg, c1, d1).hash;
      CryptPassIgnoresHash(cfg, encrypt, e, s1, d1, e.hash);
      CryptPassIgnoresHash(cfg, encrypt, c1, s2, d2, h);
    }
  }

  /** The hash always covers the plaintext: decrypting what was encrypted, with the IV and the
      hash as they were, restores the bytes and ends with the same hash and the same IV. */
  lemma PassRoundTrip(cfg: Config, e: Engine, src: seq<nat>, dst: seq<nat>)
    requires Ready(cfg, e) && Lists(|e.ram|, src, dst) && WholeBlocks(cfg, |src|) && (cfg.cipher.Some? || src == dst)
    ensures var c := HashNCrypt(cfg, true, e, src, dst);
            var back := HashNCrypt(cfg, false, e.(ram := c.ram), dst, dst);
            && (cfg.hash.Some? ==> c.hash == Absorb(e.hash, Gather(e.ram, src)))
            && Gather(back.ram, dst) == Gather(e.ram, src) && back.hash == c.hash && back.iv == c.iv
  {
    if cfg.cipher.Some? {
      var t, x := cfg.cipher.value, Gather(e.ram, src);
      var c := HashNCrypt(cfg, true, e, src, dst);
      var e1 := HashPass(cfg, e, src);
      CryptPassReady(cfg, true, e1, src, dst);
      assert Inverts(t, e.iv, x) && KeepsLength(t, true, e.iv, x);
      hide Distinct, Disjoint, Gather, Scatter, Lawful;
      SelfLists(|e.ram|, src, dst);
      CryptPassReady(cfg, false, e.(ram := c.ram), dst, dst);
    }
  }

  lemma SelfLists(size: nat, src: seq<nat>, dst: seq<nat>)
    requires Lists(size, src, dst)
    ensures Lists(size, dst, dst)
  {
  }

  lemma DisjointFlips(a: seq<nat>, b: seq<nat>)
    requires Disjoint(a, b)
    ensures Disjoint(b, a)
  {
  }

  lemma ListsInRam(size: nat, s: seq<nat>, d: seq<nat>)
    requires Lists(size, s, d)
    ensures InRam(s, size) && InRam(d, size)
  {
  }

  /// The kernel page in between

  /** a and b agree on every byte outside page `bounce`. */
  ghost predicate SameRam(a: seq<byte>, b: seq<byte>, bounce: nat) {
    |a| == |b| && forall i | 0 <= i < |a| && i / PAGE_SIZE != bounce :: a[i] == b[i]
  }

  ghost predicate Same(a: Engine, b: Engine, bounce: nat) {
    SameRam(a.ram, b.ram, bounce) && a.iv == b.iv && a.hash == b.hash
  }

  /** No address of the list lies in page `bounce`. */
  predicate Avoids(s: seq<nat>, bounce: nat) {
    forall i | 0 <= i < |s| :: s[i] / PAGE_SIZE != bounce
  }

  lemma SameGather(a: seq<byte>, b: seq<byte>, bounce: nat, s: seq<nat>)
    requires SameRam(a, b, bounce) && InRam(s, |a|) && Avoids(s, bounce)
    ensures Gather(a, s) == Gather(b, s)
  {
  }

  lemma {:induction false} SameScatter(a: seq<byte>, b: seq<byte>, bounce: nat, d: seq<nat>, x: seq<byte>)
    requires SameRam(a, b, bounce) && InRam(d, |a|) && |d| == |x|
    ensures SameRam(Scatter(a, d, x), Scatter(b, d, x), bounce)
    decreases |d|
  {
    if d != [] {
      SameScatter(a[d[0] := x[0]], b[d[0] := x[0]], bounce, d[1..], x[1..]);
    }
  }

  /** Writing inside the kernel page is invisible outside it. */
  lemma BounceWrite(ram: seq<byte>, bounce: nat, d: seq<nat>, x: seq<byte>)
    requires InRam(d, |ram|) && |d| == |x| && forall i | 0 <= i < |d| :: d[i] / PAGE_SIZE == bounce
    ensures SameRam(Scatter(ram, d, x), ram, bounce)
  {
    var r := Scatter(ram, d, x);
    forall i | 0 <= i < |ram| && i / PAGE_SIZE != bounce ensures r[i] == ram[i] {
      ScatterOther(ram, d, x, i);
    }
  }

  /** A pass over user lists does not look at the kernel page. */
  lemma SamePass(cfg: Config, encrypt: bool, a: Engine, b: Engine, bounce: nat, src: seq<nat>, dst: seq<nat>)
    requires Same(a, b, bounce) && InRam(src, |a.ram|) && InRam(dst, |a.ram|)
    requires Avoids(src, bounce) && Avoids(dst, bounce)
    ensures Same(HashNCrypt(cfg, encrypt, a, src, dst), HashNCrypt(cfg, encrypt, b, src, dst), bounce)
  {
    SameGather(a.ram, b.ram, bounce, src);
    var c, d := CryptPass(cfg, encrypt, a, src, dst), CryptPass(cfg, encrypt, b, src, dst);
    if cfg.cipher.Some? {
      var o := Crypt(cfg.cipher.value, encrypt, a.iv, Gather(a.ram, src));
      if |o.data| == |dst| {
        SameScatter(a.ram, b.ram, bounce, dst, o.data);
      }
    }
    SameGather(c.ram, d.ram, bounce, dst);
  }

  /// The bounce-buffer run

  /** The machine: every user page is in memory, and none is the kernel page. */
  ghost predicate Machine(frame: PageTable, bounce: nat, size: nat) {
    && (bounce + 1) * PAGE_SIZE <= size
    && forall p :: frame(p) != bounce && (frame(p) + 1) * PAGE_SIZE <= size
  }

  /** The user pages that can be read, and those that can be written. */
  datatype Access = Access(read: nat -> bool, write: nat -> bool)

  /** copy_from_user and copy_to_user fail on a range that touches a page they may not access. */
  predicate Accessible(ok: nat -> bool, addr: nat, len: nat) {
    forall p | addr / PAGE_SIZE <= p < addr / PAGE_SIZE + PageCount(addr, len) :: ok(p)
  }

  function Chunk(n: nat): nat {
    if n < PAGE_SIZE then n else PAGE_SIZE
  }

  /** The first n addresses of the kernel page. */
  function Bounce(bounce: nat, n: nat): (r: seq<nat>)
    ensures |r| == n
  {
    Run(bounce * PAGE_SIZE, n)
  }

  datatype RunResult = RunResult(ret: int, engine: Engine)

  /** One turn of the bounce loop over m bytes: in, work in the kernel page, out. */
  function BounceIn(e: Engine, bounce: nat, src: seq<nat>): Engine
    requires InRam(src, |e.ram|) && InRam(Bounce(bounce, |src|), |e.ram|)
  {
    e.(ram := Scatter(e.ram, Bounce(bounce, |src|), Gather(e.ram, src)))
  }

  function BounceWork(cfg: Config, encrypt: bool, e: Engine, bounce: nat, src: seq<nat>): (r: Engine)
    requires InRam(src, |e.ram|) && InRam(Bounce(bounce, |src|), |e.ram|)
    ensures |r.ram| == |e.ram|
  {
    var b := Bounce(bounce, |src|);
    HashNCrypt(cfg, encrypt, BounceIn(e, bounce, src), b, b)
  }

  function BounceOut(cfg: Config, e: Engine, bounce: nat, dst: seq<nat>): (r: Engine)
    requires InRam(dst, |e.ram|) && InRam(Bounce(bounce, |dst|), |e.ram|)
    ensures |r.ram| == |e.ram|
  {
    if cfg.cipher.None? then e
    else e.(ram := Scatter(e.ram, dst, Gather(e.ram, Bounce(bounce, |dst|))))
  }

  lemma RangeAt(frame: PageTable, addr: nat, len: nat, i: nat)
    requires i < len
    ensures Range(frame, addr, len)[i] == Phys(frame, addr + i)
  {
    hide Phys;
  }

  lemma PhysInMachine(frame: PageTable, bounce: nat, size: nat, a: nat)
    requires Machine(frame, bounce, size)
    ensures Phys(frame, a) < size && Phys(frame, a) / PAGE_SIZE != bounce
  {
    var f := frame(a / PAGE_SIZE);
    assert f != bounce && (f + 1) * PAGE_SIZE <= size;
    assert (f * PAGE_SIZE + a % PAGE_SIZE) / PAGE_SIZE == f;
  }

  lemma RangeInMachine(frame: PageTable, bounce: nat, size: nat, addr: nat, len: nat)
    requires Machine(frame, bounce, size)
    ensures InRam(Range(frame, addr, len), size) && Avoids(Range(frame, addr, len), bounce)
  {
    forall i | 0 <= i < len
      ensures Range(frame, addr, len)[i] < size && Range(frame, addr, len)[i] / PAGE_SIZE != bounce
    {
      RangeAt(frame, addr, len, i);
      PhysInMachine(frame, bounce, size, addr + i);
    }
  }

  lemma BounceInMachine(frame: PageTable, bounce: nat, size: nat, n: nat)
    requires Machine(frame, bounce, size) && n <= PAGE_SIZE
    ensures InRam(Bounce(bounce, n), size) && Distinct(Bounce(bounce, n))
    ensures forall i | 0 <= i < n :: Bounce(bounce, n)[i] / PAGE_SIZE == bounce
  {
  }

  /** `__crypto_run_std`: n bytes, a page at a time. */
  function StdRun(cfg: Config, encrypt: bool, e: Engine, frame: PageTable, ok: Access, bounce: nat,
                  src: nat, dst: nat, n: nat): (r: RunResult)
    requires forall m | 0 <= m <= Chunk(n) :: InRam(Bounce(bounce, m), |e.ram|)
    requires forall a, m :: InRam(Range(frame, a, m), |e.ram|)
    ensures |r.engine.ram| == |e.ram| && (r.ret == 0 || r.ret == EFAULT)
    decreases n
  {
    if n == 0 then RunResult(0, e)
    else
      var m := Chunk(n);
      if !Accessible(ok.read, src, m) then RunResult(EFAULT, e)
      else
        var worked := BounceWork(cfg, encrypt, e, bounce, Range(frame, src, m));
        if cfg.cipher.Some? && !Accessible(ok.write, dst, m) then RunResult(EFAULT, worked)
        else
          StdRun(cfg, encrypt, BounceOut(cfg, worked, bounce, Range(frame, dst, m)), frame, ok, bounce,
                 src + m, dst + m, n - m)
  }

  /** What both runs are meant to do: one pass over the user's own buffers. */
  function UserPass(cfg: Config, encrypt: bool, e: Engine, frame: PageTable, src: nat, dst: nat, n: nat): Engine
    requires forall a, m :: InRam(Range(frame, a, m), |e.ram|)
  {
    HashNCrypt(cfg, encrypt, e, Range(frame, src, n), Range(frame, dst, n))
  }

  /** Which of its lists `hash_n_crypt` looks at. */
  predicate UsesSource(cfg: Config, encrypt: bool) {
    cfg.cipher.Some? || (cfg.hash.Some? && encrypt)
  }

  predicate UsesTarget(cfg: Config, encrypt: bool) {
    cfg.cipher.Some? || (cfg.hash.Some? && !encrypt)
  }

  /** The buffers that are used are there. */
  predicate NonNull(cfg: Config, encrypt: bool, src: nat, dst: nat) {
    (UsesSource(cfg, encrypt) ==> src != 0) && (UsesTarget(cfg, encrypt) ==> dst != 0)
  }

  /** The list that `get_userbuf` makes of a buffer of n bytes.  A null buffer has the null list,
      but two null buffers pass for an operation in place and get the first entry of the table,
      whatever it holds. */
  function MappedList(frame: PageTable, stale: Sg, own: nat, other: nat, n: nat): Option<seq<nat>> {
    if own != 0 then Some(Range(frame, own, n))
    else if other == 0 then Some(Addrs(stale))
    else None
  }

  /** The list, if it is used, is there and reaches as far as the data. */
  predicate Reachable(used: bool, list: Option<seq<nat>>, n: nat, size: nat) {
    used ==> list.Some? && n <= |list.value| && InRam(list.value[..n], size)
  }

  /** The zero-copy run over the lists of `get_userbuf`.  There is no outcome if the kernel
      would follow a null list, or run off the end of one. */
  predicate Survives(cfg: Config, encrypt: bool, frame: PageTable, stale: Sg, src: nat, dst: nat, n: nat, size: nat) {
    && Reachable(UsesSource(cfg, encrypt), MappedList(frame, stale, src, dst, n), n, size)
    && Reachable(UsesTarget(cfg, encrypt), MappedList(frame, stale, dst, src, n), n, size)
  }

  /** The first n bytes of a list that is used. */
  function UsedPart(used: bool, list: Option<seq<nat>>, n: nat): seq<nat> {
    if used && list.Some? && n <= |list.value| then list.value[..n] else []
  }

  /** `__crypto_run_zc`, when all pages can be pinned. */
  function ZcRun(cfg: Config, encrypt: bool, e: Engine, frame: PageTable, stale: Sg, src: nat, dst: nat, n: nat)
    : (r: Option<Engine>)
    ensures r.Some? ==> |r.value.ram| == |e.ram|
  {
    if !Survives(cfg, encrypt, frame, stale, src, dst, n, |e.ram|) then None
    else
      var from := UsedPart(UsesSource(cfg, encrypt), MappedList(frame, stale, src, dst, n), n);
      var to := UsedPart(UsesTarget(cfg, encrypt), MappedList(frame, stale, dst, src, n), n);
      Some(HashNCrypt(cfg, encrypt, e, from, to))
  }

  /** If the buffers that are used are there, it is the pass over the user's buffers. */
  lemma ZcIsUserPass(cfg: Config, encrypt: bool, e: Engine, frame: PageTable, stale: Sg, src: nat, dst: nat, n: nat)
    requires forall a, m :: InRam(Range(frame, a, m), |e.ram|)
    requires NonNull(cfg, encrypt, src, dst)
    ensures ZcRun(cfg, encrypt, e, frame, stale, src, dst, n) == Some(UserPass(cfg, encrypt, e, frame, src, dst, n))
  {
    RangeWhole(frame, src, n);
    RangeWhole(frame, dst, n);
    hide Range, Addrs, InRam, Gather;
    assert MappedList(frame, stale, src, dst, n).Some? || !UsesSource(cfg, encrypt);
    assert MappedList(frame, stale, dst, src, n).Some? || !UsesTarget(cfg, encrypt);
  }

  lemma RangeWhole(frame: PageTable, addr: nat, n: nat)
    ensures |Range(frame, addr, n)| == n && Range(frame, addr, n)[..n] == Range(frame, addr, n)
  {
  }

  /** The branch of `hash_n_crypt` on which the two runs part: a decryption without a cipher
      hashes the destination list, which only the zero-copy run fills with other bytes. */
  predicate HashesSource(cfg: Config, encrypt: bool, src: nat, dst: nat) {
    cfg.cipher.Some? || cfg.hash.None? || encrypt || src == dst
  }

  /// Same result on both paths

  /** One turn of the bounce loop against one pass over the same bytes. */
  lemma TurnIsPass(cfg: Config, encrypt: bool, e: Engine, bounce: nat, s: seq<nat>, d: seq<nat>)
    requires Ready(cfg, e) && Lists(|e.ram|, s, d) && WholeBlocks(cfg, |s|)
    requires Avoids(s, bounce) && Avoids(d, bounce)
    requires var b := Bounce(bounce, |s|);
             InRam(b, |e.ram|) && Distinct(b) && forall i | 0 <= i < |b| :: b[i] / PAGE_SIZE == bounce
    requires cfg.cipher.Some? || cfg.hash.None? || encrypt || s == d
    ensures Same(BounceOut(cfg, BounceWork(cfg, encrypt, e, bounce, s), bounce, d),
                 HashNCrypt(cfg, encrypt, e, s, d), bounce)
  {
    var b := Bounce(bounce, |s|);
    var x := Gather(e.ram, s);
    var e1 := BounceIn(e, bounce, s);
    BounceWrite(e.ram, bounce, b, x);
    GatherWritten(e.ram, b, x);
    CryptPassReady(cfg, encrypt, e, s, d);
    CryptPassReady(cfg, encrypt, e1, b, b);
    hide Distinct, Disjoint, Gather, Scatter, Bounce, InRam, Avoids, Absorb;
    if cfg.cipher.Some? {
      var o := Crypt(cfg.cipher.value, encrypt, e.iv, x);
      BounceWrite(e1.ram, bounce, b, o.data);
      var ram2 := Scatter(e1.ram, b, o.data);
      SameTrans(ram2, e1.ram, e.ram, bounce);
      SameScatter(ram2, e.ram, bounce, d, o.data);
      CryptPassIgnoresHash(cfg, encrypt, e, s, d, HashPass(cfg, e, s).hash);
      CryptPassIgnoresHash(cfg, encrypt, e1, b, b, HashPass(cfg, e1, b).hash);
    }
  }

  lemma SameTrans(a: seq<byte>, b: seq<byte>, c: seq<byte>, bounce: nat)
    requires SameRam(a, b, bounce) && SameRam(b, c, bounce)
    ensures SameRam(a, c, bounce)
  {
  }

  lemma RangeSplit(frame: PageTable, addr: nat, m: nat, n: nat)
    ensures Range(frame, addr, m + n) == Range(frame, addr, m) + Range(frame, addr + m, n)
  {
    hide Phys;
    var whole, cut := Range(frame, addr, m + n), Range(frame, addr, m) + Range(frame, addr + m, n);
    forall i | 0 <= i < |whole| ensures whole[i] == cut[i] {
      assert i >= m ==> addr + m + (i - m) == addr + i;
    }
  }

  lemma AccessibleSplit(ok: nat -> bool, addr: nat, m: nat, n: nat)
    requires Accessible(ok, addr, m + n)
    ensures Accessible(ok, addr, m) && Accessible(ok, addr + m, n)
  {
  }

  lemma MultipleDifference(a: nat, b: nat, k: nat)
    requires k > 0 && b <= a && a % k == 0 && b % k == 0
    ensures (a - b) % k == 0
  {
    var p: int, q: int, m: int := a / k, b / k, k;
    assert a == p * m && b == q * m;
    assert a - b == (p - q) * m;
    assert p < q ==> (p - q) * m < 0;
    MultipleOf(p - q, k);
  }

  predicate Permits(ok: nat -> bool, a: nat) {
    ok(a / 4096)
  }

  /** The page of every byte must permit the access. */
  lemma AccessibleBytes(ok: nat -> bool, addr: nat, len: nat)
    ensures Accessible(ok, addr, len) <==> forall a: nat | addr <= a < addr + len :: Permits(ok, a)
  {
    if len > 0 && !Accessible(ok, addr, len) {
      var p :| addr / PAGE_SIZE <= p < addr / PAGE_SIZE + PageCount(addr, len) && !ok(p);
      var a := if p == addr / PAGE_SIZE then addr else p * PAGE_SIZE;
      assert addr <= a < addr + len && a / 4096 == p;
      assert !Permits(ok, a);
    }
  }

  /** The bounce loop succeeds if and only if every source byte can be read and, if there is a
      cipher, every target byte can be written. */
  lemma {:induction false} StdFaultsIff(cfg: Config, encrypt: bool, e: Engine, frame: PageTable, ok: Access,
                                        bounce: nat, src: nat, dst: nat, n: nat)
    requires forall m | 0 <= m <= PAGE_SIZE :: InRam(Bounce(bounce, m), |e.ram|)
    requires forall a, m :: InRam(Range(frame, a, m), |e.ram|)
    ensures StdRun(cfg, encrypt, e, frame, ok, bounce, src, dst, n).ret ==
            if && (forall a: nat | src <= a < src + n :: Permits(ok.read, a))
               && (cfg.cipher.Some? ==> forall a: nat | dst <= a < dst + n :: Permits(ok.write, a)) then 0 else -14
    decreases n
  {
    hide InRam, Range, Bounce, Accessible, BounceWork, BounceOut, Permits;
    if n > 0 {
      var m := Chunk(n);
      AccessibleBytes(ok.read, src, m);
      AccessibleBytes(ok.write, dst, m);
      var worked := BounceWork(cfg, encrypt, e, bounce, Range(frame, src, m));
      StdFaultsIff(cfg, encrypt, BounceOut(cfg, worked, bounce, Range(frame, dst, m)), frame, ok, bounce,
                   src + m, dst + m, n - m);
    }
  }

  /** What a caller provides: readable and writable buffers that lie in memory, coincide or
      are disjoint, and do not share a page with themselves. */
  ghost predicate Buffers(frame: PageTable, ok: Access, bounce: nat, size: nat, src: nat, dst: nat, n: nat) {
    && Machine(frame, bounce, size)
    && Accessible(ok.read, src, n) && Accessible(ok.write, dst, n)
    && Lists(size, Range(frame, src, n), Range(frame, dst, n))
  }

  lemma BuffersSplit(frame: PageTable, ok: Access, bounce: nat, size: nat, src: nat, dst: nat, m: nat, n: nat)
    requires Buffers(frame, ok, bounce, size, src, dst, m + n)
    ensures Buffers(frame, ok, bounce, size, src, dst, m) && Buffers(frame, ok, bounce, size, src + m, dst + m, n)
  {
    hide Machine, Accessible, Range, Lists;
    AccessibleSplit(ok.read, src, m, n);
    AccessibleSplit(ok.write, dst, m, n);
    RangeSplit(frame, src, m, n);
    RangeSplit(frame, dst, m, n);
    ListsSplit(size, Range(frame, src, m), Range(frame, src + m, n), Range(frame, dst, m), Range(frame, dst + m, n));
  }

  /** The cipher can be cut at pages. */
  predicate PageGranular(cfg: Config) {
    WholeGranules(cfg, PAGE_SIZE)
  }

  lemma CutAtPage(cfg: Config, e: Engine, n: nat)
    requires Ready(cfg, e) && PageGranular(cfg) && WholeBlocks(cfg, n) && n > PAGE_SIZE
    ensures WholeBlocks(cfg, PAGE_SIZE) && WholeBlocks(cfg, n - PAGE_SIZE)
  {
    if cfg.cipher.Some? {
      GranuleIsBlocks(cfg.cipher.value, PAGE_SIZE);
      MultipleDifference(n, PAGE_SIZE, cfg.cipher.value.blocksize);
    }
  }

  lemma PassReady(cfg: Config, encrypt: bool, e: Engine, s: seq<nat>, d: seq<nat>)
    requires Ready(cfg, e) && Lists(|e.ram|, s, d) && WholeBlocks(cfg, |s|)
    ensures Ready(cfg, HashNCrypt(cfg, encrypt, e, s, d))
  {
    hide Lists;
    ListsInRam(|e.ram|, s, d);
    CryptPassReady(cfg, encrypt, e, s, d);
    CryptPassReady(cfg, encrypt, HashPass(cfg, e, s), s, d);
  }

  lemma MachineWide(frame: PageTable, bounce: nat, size: nat)
    requires Machine(frame, bounce, size)
    ensures forall m | 0 <= m <= PAGE_SIZE :: InRam(Bounce(bounce, m), size)
    ensures forall a, m :: InRam(Range(frame, a, m), size)
  {
    forall m | 0 <= m <= PAGE_SIZE ensures InRam(Bounce(bounce, m), size) {
      BounceInMachine(frame, bounce, size, m);
    }
    forall a, m ensures InRam(Range(frame, a, m), size) {
      RangeInMachine(frame, bounce, size, a, m);
    }
  }

  /** One turn of the bounce loop, over a whole chunk of both buffers. */
  lemma ChunkIsPass(cfg: Config, encrypt: bool, e: Engine, frame: PageTable, ok: Access, bounce: nat,
                    src: nat, dst: nat, m: nat)
    requires Ready(cfg, e) && Buffers(frame, ok, bounce, |e.ram|, src, dst, m)
    requires m <= PAGE_SIZE && WholeBlocks(cfg, m) && HashesSource(cfg, encrypt, src, dst)
    ensures var s, d := Range(frame, src, m), Range(frame, dst, m);
            && InRam(s, |e.ram|) && InRam(d, |e.ram|) && InRam(Bounce(bounce, m), |e.ram|)
            && Same(BounceOut(cfg, BounceWork(cfg, encrypt, e, bounce, s), bounce, d),
                    HashNCrypt(cfg, encrypt, e, s, d), bounce)
            && Ready(cfg, HashNCrypt(cfg, encrypt, e, s, d))
  {
    hide Lists, Machine, Same, HashNCrypt, BounceOut, BounceWork, Lawful;
    RangeInMachine(frame, bounce, |e.ram|, src, m);
    RangeInMachine(frame, bounce, |e.ram|, dst, m);
    BounceInMachine(frame, bounce, |e.ram|, m);
    TurnIsPass(cfg, encrypt, e, bounce, Range(frame, src, m), Range(frame, dst, m));
    PassReady(cfg, encrypt, e, Range(frame, src, m), Range(frame, dst, m));
  }

  lemma EngineTrans(a: Engine, b: Engine, c: Engine, bounce: nat)
    requires Same(a, b, bounce) && Same(b, c, bounce)
    ensures Same(a, c, bounce)
  {
  }

  lemma SameWorld(cfg: Config, encrypt: bool, a: Engine, b: Engine, frame: PageTable, bounce: nat,
                  src: nat, dst: nat, n: nat)
    requires Same(a, b, bounce) && Machine(frame, bounce, |a.ram|)
    ensures InRam(Range(frame, src, n), |a.ram|) && InRam(Range(frame, dst, n), |a.ram|)
    ensures Same(HashNCrypt(cfg, encrypt, a, Range(frame, src, n), Range(frame, dst, n)),
                 HashNCrypt(cfg, encrypt, b, Range(frame, src, n), Range(frame, dst, n)), bounce)
  {
    RangeInMachine(frame, bounce, |a.ram|, src, n);
    RangeInMachine(frame, bounce, |a.ram|, dst, n);
    SamePass(cfg, encrypt, a, b, bounce, Range(frame, src, n), Range(frame, dst, n));
  }

  /** Page by page through the kernel page, the call succeeds with the memory outside that page,
      the IV and the hash state that one pass over the user's buffers leaves. */
  lemma {:induction false} StdIsUserPass(cfg: Config, encrypt: bool, e: Engine, frame: PageTable, ok: Access,
                                         bounce: nat, src: nat, dst: nat, n: nat)
    requires Ready(cfg, e) && PageGranular(cfg) && WholeBlocks(cfg, n) && n > 0
    requires Buffers(frame, ok, bounce, |e.ram|, src, dst, n) && HashesSource(cfg, encrypt, src, dst)
    ensures (forall m | 0 <= m <= PAGE_SIZE :: InRam(Bounce(bounce, m), |e.ram|))
         && (forall a, m :: InRam(Range(frame, a, m), |e.ram|))
    ensures var std := StdRun(cfg, encrypt, e, frame, ok, bounce, src, dst, n);
            std.ret == 0 && Same(std.engine, UserPass(cfg, encrypt, e, frame, src, dst, n), bounce)
    decreases n
  {
    hide Lists, Machine, Same, HashNCrypt, BounceOut, BounceWork, Lawful, Accessible, Range, InRam, Ready, WholeBlocks;
    BuffersMachine(frame, ok, bounce, |e.ram|, src, dst, n);
    MachineWide(frame, bounce, |e.ram|);
    var m := Chunk(n);
    if n > PAGE_SIZE {
      CutAtPage(cfg, e, n);
    }
    BuffersSplit(frame, ok, bounce, |e.ram|, src, dst, m, n - m);
    ChunkIsPass(cfg, encrypt, e, frame, ok, bounce, src, dst, m);
    var s, d := Range(frame, src, m), Range(frame, dst, m);
    var out := BounceOut(cfg, BounceWork(cfg, encrypt, e, bounce, s), bounce, d);
    var mid := HashNCrypt(cfg, encrypt, e, s, d);
    if n <= PAGE_SIZE {
      assert StdRun(cfg, encrypt, out, frame, ok, bounce, src + m, dst + m, 0) == RunResult(0, out);
    } else {
      ReadyFor(cfg, out, mid, bounce);
      StdIsUserPass(cfg, encrypt, out, frame, ok, bounce, src + m, dst + m, n - m);
      SameWorld(cfg, encrypt, out, mid, frame, bounce, src + m, dst + m, n - m);
      EngineTrans(StdRun(cfg, encrypt, out, frame, ok, bounce, src + m, dst + m, n - m).engine,
                  UserPass(cfg, encrypt, out, frame, src + m, dst + m, n - m),
                  UserPass(cfg, encrypt, mid, frame, src + m, dst + m, n - m), bounce);
      WholePass(cfg, encrypt, e, frame, ok, bounce, src, dst, n);
    }
  }

  lemma BuffersMachine(frame: PageTable, ok: Access, bounce: nat, size: nat, src: nat, dst: nat, n: nat)
    requires Buffers(frame, ok, bounce, size, src, dst, n)
    ensures Machine(frame, bounce, size) && Accessible(ok.read, src, n) && Accessible(ok.write, dst, n)
  {
  }

  lemma ReadyFor(cfg: Config, a: Engine, b: Engine, bounce: nat)
    requires Same(a, b, bounce) && Ready(cfg, b)
    ensures Ready(cfg, a) && |a.ram| == |b.ram|
  {
  }

  /** The pass over the whole buffers, cut after the first page. */
  lemma WholePass(cfg: Config, encrypt: bool, e: Engine, frame: PageTable, ok: Access, bounce: nat,
                  src: nat, dst: nat, n: nat)
    requires Ready(cfg, e) && PageGranular(cfg) && n > PAGE_SIZE && WholeBlocks(cfg, n - PAGE_SIZE)
    requires Buffers(frame, ok, bounce, |e.ram|, src, dst, n)
    requires forall a, m :: InRam(Range(frame, a, m), |e.ram|)
    ensures var m := PAGE_SIZE;
            UserPass(cfg, encrypt, e, frame, src, dst, n) ==
            UserPass(cfg, encrypt, UserPass(cfg, encrypt, e, frame, src, dst, m), frame, src + m, dst + m, n - m)
  {
    hide Range, HashNCrypt, Lists, Machine, Lawful;
    var m := PAGE_SIZE;
    RangeSplit(frame, src, m, n - m);
    RangeSplit(frame, dst, m, n - m);
    HashNCryptSplit(cfg, encrypt, e, Range(frame, src, m), Range(frame, src + m, n - m),
                    Range(frame, dst, m), Range(frame, dst + m, n - m));
  }

  /** The fast path refines the slow one: if the buffers that are used are not null, both succeed
      with the same memory outside the kernel page, the same final IV and the same hash. */
  lemma StdIsZc(cfg: Config, encrypt: bool, e: Engine, frame: PageTable, ok: Access, bounce: nat, stale: Sg,
                src: nat, dst: nat, n: nat)
    requires Ready(cfg, e) && PageGranular(cfg) && WholeBlocks(cfg, n) && n > 0
    requires Buffers(frame, ok, bounce, |e.ram|, src, dst, n)
    requires HashesSource(cfg, encrypt, src, dst) && NonNull(cfg, encrypt, src, dst)
    ensures forall m | 0 <= m <= PAGE_SIZE :: InRam(Bounce(bounce, m), |e.ram|)
    ensures forall a, m :: InRam(Range(frame, a, m), |e.ram|)
    ensures Agree(cfg, encrypt, e, frame, ok, bounce, stale, src, dst, n)
  {
    StdIsUserPass(cfg, encrypt, e, frame, ok, bounce, src, dst, n);
    hide Buffers, Ready, StdRun, Range, InRam, Bounce, Same, UserPass, Survives;
    ZcIsUserPass(cfg, encrypt, e, frame, stale, src, dst, n);
  }

  /** The two runs of one call, from one state and with one table entry, both succeed and end in
      the same state. */
  ghost predicate Agree(cfg: Config, encrypt: bool, e: Engine, frame: PageTable, ok: Access, bounce: nat, stale: Sg,
                        src: nat, dst: nat, n: nat)
    requires forall m | 0 <= m <= PAGE_SIZE :: InRam(Bounce(bounce, m), |e.ram|)
    requires forall a, m :: InRam(Range(frame, a, m), |e.ram|)
  {
    var std := StdRun(cfg, encrypt, e, frame, ok, bounce, src, dst, n);
    var zc := ZcRun(cfg, encrypt, e, frame, stale, src, dst, n);
    std.ret == 0 && zc.Some? && Same(std.engine, zc.value, bounce)
  }

  /** They do so whatever the memory, the IV, the hash and the table entry. */
  ghost predicate AlwaysAgree(cfg: Config, encrypt: bool, frame: PageTable, ok: Access, bounce: nat, size: nat,
                              src: nat, dst: nat, n: nat)
    requires forall m | 0 <= m <= PAGE_SIZE :: InRam(Bounce(bounce, m), size)
    requires forall a, m :: InRam(Range(frame, a, m), size)
  {
    forall e: Engine, stale | |e.ram| == size && Ready(cfg, e) ::
      Agree(cfg, encrypt, e, frame, ok, bounce, stale, src, dst, n)
  }

  /** Without a cipher the direction does not matter to the bounce loop. */
  lemma {:induction false} NoCipherNoDirection(cfg: Config, e: Engine, frame: PageTable, ok: Access, bounce: nat,
                                               src: nat, dst: nat, n: nat)
    requires cfg.cipher.None?
    requires forall m | 0 <= m <= PAGE_SIZE :: InRam(Bounce(bounce, m), |e.ram|)
    requires forall a, m :: InRam(Range(frame, a, m), |e.ram|)
    ensures StdRun(cfg, false, e, frame, ok, bounce, src, dst, n)
         == StdRun(cfg, true, e, frame, ok, bounce, src, dst, n)
    decreases n
  {
    if n > 0 {
      var m := Chunk(n);
      var s := Range(frame, src, m);
      assert BounceWork(cfg, false, e, bounce, s) == BounceWork(cfg, true, e, bounce, s);
      var out := BounceOut(cfg, BounceWork(cfg, true, e, bounce, s), bounce, Range(frame, dst, m));
      hide BounceWork, BounceOut, Range, InRam;
      NoCipherNoDirection(cfg, out, frame, ok, bounce, src + m, dst + m, n - m);
    }
  }

  /** A memory on which a decryption without a cipher hashes different bytes. */
  lemma RunsPart(cfg: Config, frame: PageTable, ok: Access, bounce: nat, size: nat, src: nat, dst: nat, n: nat)
    requires cfg.cipher.None? && cfg.hash.Some? && n > 0 && dst != 0
    requires Buffers(frame, ok, bounce, size, src, dst, n) && Disjoint(Range(frame, src, n), Range(frame, dst, n))
    requires forall m | 0 <= m <= PAGE_SIZE :: InRam(Bounce(bounce, m), size)
    requires forall a, m :: InRam(Range(frame, a, m), size)
    ensures !AlwaysAgree(cfg, false, frame, ok, bounce, size, src, dst, n)
  {
    var s, d := Range(frame, src, n), Range(frame, dst, n);
    var zeros: seq<byte> := seq(size, i => 0);
    var ones: seq<byte> := seq(n, i => 1);
    var ram := Scatter(zeros, d, ones);
    var e := Engine(ram, [], Absorbing([]));
    GatherWritten(zeros, d, ones);
    GatherElsewhere(zeros, d, ones, s);
    NoCipherNoDirection(cfg, e, frame, ok, bounce, src, dst, n);
    StdIsUserPass(cfg, true, e, frame, ok, bounce, src, dst, n);
    ZcIsUserPass(cfg, false, e, frame, BLANK, src, dst, n);
    hide Range, StdRun, Lists, Disjoint, InRam, ZcRun;
    var std := StdRun(cfg, false, e, frame, ok, bounce, src, dst, n).engine;
    assert std.hash == Absorbing([] + Gather(ram, s));
    assert UserPass(cfg, false, e, frame, src, dst, n).hash == Absorbing([] + ones);
    assert ([] + Gather(ram, s))[0] == 0 && ([] + ones)[0] == 1;
    assert Ready(cfg, e) && !Agree(cfg, false, e, frame, ok, bounce, BLANK, src, dst, n);
  }

  /** An entry of a table that has just been allocated. */
  const BLANK := Sg(0, 0, 0, false)

  /** With a null buffer that is used the zero-copy run of a new session has no outcome at all. */
  lemma NullPart(cfg: Config, encrypt: bool, frame: PageTable, ok: Access, bounce: nat, size: nat,
                 src: nat, dst: nat, n: nat)
    requires (cfg.cipher.Some? ==> Lawful(cfg.cipher.value)) && n > 0 && !NonNull(cfg, encrypt, src, dst)
    requires forall m | 0 <= m <= PAGE_SIZE :: InRam(Bounce(bounce, m), size)
    requires forall a, m :: InRam(Range(frame, a, m), size)
    ensures !AlwaysAgree(cfg, encrypt, frame, ok, bounce, size, src, dst, n)
  {
    var ram: seq<byte> := seq(size, i => 0);
    var iv: seq<byte> := if cfg.cipher.Some? then seq(cfg.cipher.value.ivsize, i => 0) else [];
    var e := Engine(ram, iv, Absorbing([]));
    assert Ready(cfg, e);
    hide Lawful, StdRun, Range, Bounce, InRam;
    assert ZcRun(cfg, encrypt, e, frame, BLANK, src, dst, n).None?;
    assert !Agree(cfg, encrypt, e, frame, ok, bounce, BLANK, src, dst, n);
  }

  /** The two runs agree on every state if and only if the buffers that are used are not null,
      and the call keeps off the one branch that hashes the destination in place of the source. */
  lemma PathsAgreeExactly(cfg: Config, encrypt: bool, frame: PageTable, ok: Access, bounce: nat, size: nat,
                          src: nat, dst: nat, n: nat)
    requires (cfg.cipher.Some? ==> Lawful(cfg.cipher.value)) && PageGranular(cfg) && WholeBlocks(cfg, n) && n > 0
    requires Buffers(frame, ok, bounce, size, src, dst, n)
    requires src == dst || Disjoint(Range(frame, src, n), Range(frame, dst, n))
    ensures (forall m | 0 <= m <= PAGE_SIZE :: InRam(Bounce(bounce, m), size))
         && (forall a, m :: InRam(Range(frame, a, m), size))
    ensures AlwaysAgree(cfg, encrypt, frame, ok, bounce, size, src, dst, n)
            <==> HashesSource(cfg, encrypt, src, dst) && NonNull(cfg, encrypt, src, dst)
  {
    hide Range, StdRun, Lists, Disjoint, InRam, Ready, Same, ZcRun, WholeBlocks, Agree, Lawful;
    BuffersMachine(frame, ok, bounce, size, src, dst, n);
    MachineWide(frame, bounce, size);
    if !NonNull(cfg, encrypt, src, dst) {
      NullPart(cfg, encrypt, frame, ok, bounce, size, src, dst, n);
    } else if HashesSource(cfg, encrypt, src, dst) {
      forall e: Engine, stale | |e.ram| == size && Ready(cfg, e)
        ensures Agree(cfg, encrypt, e, frame, ok, bounce, stale, src, dst, n)
      {
        StdIsZc(cfg, encrypt, e, frame, ok, bounce, stale, src, dst, n);
      }
    } else {
      RunsPart(cfg, frame, ok, bounce, size, src, dst, n);
    }
  }

  /** Two null buffers, an entry that is long enough, and page 0 mapped: of an encryption that
      hashes, the bounce run hashes page 0 and the zero-copy run the entry, so the two agree on
      the hash exactly if these hold the same bytes. */
  lemma NullBuffersPart(cfg: Config, e: Engine, frame: PageTable, ok: Access, bounce: nat, stale: Sg, n: nat)
    requires cfg.hash.Some? && e.hash.Absorbing?
    requires Ready(cfg, e) && PageGranular(cfg) && WholeBlocks(cfg, n) && n > 0
    requires Buffers(frame, ok, bounce, |e.ram|, 0, 0, n)
    requires n <= |Addrs(stale)| && InRam(Addrs(stale)[..n], |e.ram|)
    ensures (forall m | 0 <= m <= PAGE_SIZE :: InRam(Bounce(bounce, m), |e.ram|))
         && (forall a, m :: InRam(Range(frame, a, m), |e.ram|))
    ensures var std := StdRun(cfg, true, e, frame, ok, bounce, 0, 0, n);
            var zc := ZcRun(cfg, true, e, frame, stale, 0, 0, n);
            && std.ret == 0 && zc.Some?
            && (std.engine.hash == zc.value.hash <==>
                  Gather(e.ram, Range(frame, 0, n)) == Gather(e.ram, Addrs(stale)[..n]))
  {
    StdIsUserPass(cfg, true, e, frame, ok, bounce, 0, 0, n);
    hide Buffers, Lists, Ready, StdRun, Range, Addrs, InRam, Bounce, Gather, WholeBlocks;
    var own, other := Range(frame, 0, n), Addrs(stale)[..n];
    var zc := ZcRun(cfg, true, e, frame, stale, 0, 0, n);
    EncryptHash(cfg, e, own, own);
    EncryptHash(cfg, e, other, if cfg.cipher.Some? then other else []);
    AppendCancels(e.hash.msg, Gather(e.ram, own), Gather(e.ram, other));
  }

  /** The hash after an encryption. */
  lemma EncryptHash(cfg: Config, e: Engine, s: seq<nat>, d: seq<nat>)
    requires cfg.hash.Some? && InRam(s, |e.ram|) && InRam(d, |e.ram|)
    ensures HashNCrypt(cfg, true, e, s, d).hash == Absorb(e.hash, Gather(e.ram, s))
  {
  }

  lemma AppendCancels(m: seq<byte>, a: seq<byte>, b: seq<byte>)
    ensures m + a == m + b <==> a == b
  {
    assert (m + a)[|m|..] == a && (m + b)[|m|..] == b;
  }
}
