/**
 `crypto_run`: one call on a session, from its checks to the digest it hands out.

 The methods change the session, the call block and the machine as the driver does.  Each is
 tied to the functions of CryptoRun, so that a call is seen to do the same whichever way its
 data travelled.
 */
module CryptoOps {
  import opened Bytes
  import opened Ciphers
  import opened Scatterlist
  import opened UserPages
  import opened CryptoRun
  import opened MultiUpdate

  const COP_ENCRYPT := 0
  const COP_DECRYPT := 1

  /** The algorithms keep their laws, and the IV fits the cipher. */
  ghost predicate Usable(cfg: Config, iv: seq<byte>) {
    && (cfg.cipher.Some? ==> Lawful(cfg.cipher.value) && |iv| == cfg.cipher.value.ivsize)
    && (cfg.hash.Some? ==> LawfulHash(cfg.hash.value))
  }

  class Session {
    const cfg: Config
    const alignmask: nat
    const io: PageSet
    var iv: seq<byte>
    var hash: HashState

    constructor (cfg: Config, alignmask: nat, io: PageSet, iv: seq<byte>)
      ensures this.cfg == cfg && this.alignmask == alignmask && this.io == io
      ensures this.iv == iv && hash == Absorbing([])
    {
      this.cfg, this.alignmask, this.io, this.iv, hash := cfg, alignmask, io, iv, Absorbing([]);
    }

    /** The algorithms keep their laws, and the cipher can be cut at pages. */
    ghost predicate Valid()
      reads this
    {
      Usable(cfg, iv) && PageGranular(cfg)
    }

    /** The state that a call on this session works on. */
    function View(k: Kernel): Engine
      reads this, k
    {
      Engine(k.ram, iv, hash)
    }
  }

  /** What a call asks for. */
  datatype Request = Request(encrypt: bool, flags: Flags, src: nat, dst: nat, len: nat)

  /** The call block: what the user asks for, and what the driver fills in. */
  class KernelCryptOp {
    const op: int
    const src: nat
    const dst: nat
    const len: nat
    const ivlen: nat
    var flags: Flags
    var iv: seq<byte>
    var digestsize: nat
    var hashOutput: seq<byte>

    constructor (op: int, flags: Flags, src: nat, dst: nat, len: nat, ivlen: nat, iv: seq<byte>)
      requires ivlen <= |iv|
      ensures Valid() && this.op == op && this.src == src && this.dst == dst && this.len == len
      ensures this.flags == flags && this.ivlen == ivlen && this.iv == iv && digestsize == 0
    {
      this.op, this.src, this.dst, this.len, this.ivlen := op, src, dst, len, ivlen;
      this.flags, this.iv, digestsize := flags, iv, 0;
      hashOutput := seq(AALG_MAX_RESULT_LEN, _ => 0);
    }

    ghost predicate Valid()
      reads this
    {
      ivlen <= |iv| && |hashOutput| == AALG_MAX_RESULT_LEN
    }

    function Asked(): Request
      reads this
    {
      Request(op == COP_ENCRYPT, flags, src, dst, len)
    }
  }

  /** The environment of a call: which user pages can be accessed, and the kernel page. */
  datatype World = World(ok: Access, bounce: nat)

  /// Moving the data

  /** `hash_n_crypt` on the session's own state. */
  method HashNCryptLists(s: Session, k: Kernel, encrypt: bool, src: seq<nat>, dst: seq<nat>)
    requires InRam(src, |k.ram|) && InRam(dst, |k.ram|)
    modifies s`iv, s`hash, k`ram
    ensures s.View(k) == HashNCrypt(s.cfg, encrypt, old(s.View(k)), src, dst)
  {
    hide Gather, Scatter, InRam, Absorb;
    if encrypt {
      if s.cfg.hash.Some? {
        s.hash := Absorb(s.hash, Gather(k.ram, src));
      }
      if s.cfg.cipher.Some? {
        CipherLists(s, k, encrypt, src, dst);
      }
    } else {
      if s.cfg.cipher.Some? {
        CipherLists(s, k, encrypt, src, dst);
      }
      if s.cfg.hash.Some? {
        s.hash := Absorb(s.hash, Gather(k.ram, dst));
      }
    }
  }

  /** The foreign cipher call: the target list is overwritten and the chaining value moves on. */
  method CipherLists(s: Session, k: Kernel, encrypt: bool, src: seq<nat>, dst: seq<nat>)
    requires s.cfg.cipher.Some? && InRam(src, |k.ram|) && InRam(dst, |k.ram|)
    modifies s`iv, k`ram
    ensures s.View(k) == CryptPass(s.cfg, encrypt, old(s.View(k)), src, dst)
  {
    var o := Crypt(s.cfg.cipher.value, encrypt, s.iv, Gather(k.ram, src));
    if |o.data| == |dst| {
      k.ram := Scatter(k.ram, dst, o.data);
      s.iv := o.iv;
    }
  }

  /** `__crypto_run_std`: a page at a time through the kernel page. */
  method RunStd(s: Session, k: Kernel, w: World, encrypt: bool, src: nat, dst: nat, len: nat) returns (ret: int)
    requires Machine(k.frame, w.bounce, |k.ram|)
    modifies s`iv, s`hash, k`ram
    ensures forall m | 0 <= m <= PAGE_SIZE :: InRam(Bounce(w.bounce, m), |k.ram|)
    ensures forall a, m :: InRam(Range(k.frame, a, m), |k.ram|)
    ensures |k.ram| == |old(k.ram)|
    ensures RunResult(ret, s.View(k)) ==
            StdRun(s.cfg, encrypt, old(s.View(k)), k.frame, w.ok, w.bounce, src, dst, len)
  {
    hide Machine, Range, Bounce, Scatter, Gather, InRam, HashNCrypt, Accessible;
    MachineWide(k.frame, w.bounce, |k.ram|);
    ghost var goal := StdRun(s.cfg, encrypt, s.View(k), k.frame, w.ok, w.bounce, src, dst, len);
    var bufsize := if PAGE_SIZE < len then PAGE_SIZE else len;
    var from: nat, to: nat, nbytes: nat := src, dst, len;
    ret := 0;
    while nbytes > 0
      invariant ret == 0 && nbytes <= len
      invariant |k.ram| == |old(k.ram)| && Machine(k.frame, w.bounce, |k.ram|)
      invariant StdRun(s.cfg, encrypt, s.View(k), k.frame, w.ok, w.bounce, from, to, nbytes) == goal
      decreases nbytes
    {
      var currentLen := if nbytes > bufsize then bufsize else nbytes;
      var data := Bounce(w.bounce, currentLen);
      if !Accessible(w.ok.read, from, currentLen) {
        return EFAULT;
      }
      k.ram := Scatter(k.ram, data, Gather(k.ram, Range(k.frame, from, currentLen)));
      HashNCryptLists(s, k, encrypt, data, data);
      if s.cfg.cipher.Some? {
        if !Accessible(w.ok.write, to, currentLen) {
          return EFAULT;
        }
        k.ram := Scatter(k.ram, Range(k.frame, to, currentLen), Gather(k.ram, data));
      }
      to, nbytes, from := to + currentLen, nbytes - currentLen, from + currentLen;
    }
  }

  /** What the foreign pinning calls may return for one mapping. */
  predicate PinResults(src: nat, dst: nat, len: nat, gotSrc: int, gotDst: int) {
    gotSrc <= PageCount(src, EffectiveLen(src, len)) && gotDst <= PageCount(dst, EffectiveLen(dst, len))
  }

  /** All pages of the call can be pinned. */
  predicate Pinnable(src: nat, dst: nat, len: nat, gotSrc: int, gotDst: int) {
    && PinsAll(PageCount(src, EffectiveLen(src, len)), gotSrc)
    && (src == dst || PinsAll(PageCount(dst, EffectiveLen(dst, len)), gotDst))
  }

  /** `__crypto_run_zc`: one pass over the mapped lists if all pages can be pinned, and then every
      pin is given back; otherwise the bounce loop.  With two null buffers the list is whatever
      the first entry of the session's table held before. */
  method RunZeroCopy(s: Session, k: Kernel, w: World, encrypt: bool, src: nat, dst: nat, len: nat,
                     gotSrc: int, gotDst: int) returns (ret: int)
    requires s.io.Valid() && Machine(k.frame, w.bounce, |k.ram|)
    requires len > 0 && PinResults(src, dst, len, gotSrc, gotDst)
    requires Pinnable(src, dst, len, gotSrc, gotDst) ==>
               Survives(s.cfg, encrypt, k.frame, s.io.sg[0], src, dst, len, |k.ram|)
    modifies s`iv, s`hash, k`ram, k`log, s.io, s.io.pages, s.io.sg
    ensures s.io.Valid() && |k.ram| == |old(k.ram)|
    ensures forall m | 0 <= m <= PAGE_SIZE :: InRam(Bounce(w.bounce, m), |k.ram|)
    ensures forall a, m :: InRam(Range(k.frame, a, m), |k.ram|)
    ensures !Pinnable(src, dst, len, gotSrc, gotDst) ==>
              RunResult(ret, s.View(k)) ==
              StdRun(s.cfg, encrypt, old(s.View(k)), k.frame, w.ok, w.bounce, src, dst, len)
    ensures Pinnable(src, dst, len, gotSrc, gotDst) ==>
              && ret == 0 && s.io.usedPages == 0 && s.io.readonlyPages == 0
              && Balanced(old(k.log), k.log)
              && Flushed(k.log) == Flushed(old(k.log)) + TargetFrames(k.frame, dst, len)
              && Some(s.View(k)) ==
                 ZcRun(s.cfg, encrypt, old(s.View(k)), k.frame, old(s.io.sg[0]), src, dst, len)
  {
    hide Machine, Range, Bounce, InRam, HashNCrypt, Accessible, List, PageCount, Frames, Pins, Release;
    hide Held, Flushed, StdRun, Balanced, Addrs;
    MachineWide(k.frame, w.bounce, |k.ram|);
    NoPages(src, len);
    NoPages(dst, len);
    NoPages(dst, 0);
    ghost var stale := s.io.sg[0];
    var srcSg, dstSg;
    ret, srcSg, dstSg := GetUserbuf(s.io, k, src, len, dst, len, gotSrc, gotDst);
    if ret != 0 {
      ret := RunStd(s, k, w, encrypt, src, dst, len);
      return;
    }
    ghost var frames := MappedFrames(k.frame, src, EffectiveLen(src, len), dst, EffectiveLen(dst, len));
    var srcList := if srcSg.None? then None else Some(List(s.io.sg[..], srcSg.value));
    var dstList := if dstSg.None? then None else Some(List(s.io.sg[..], dstSg.value));
    assert srcList == MappedList(k.frame, stale, src, dst, len);
    assert dstList == MappedList(k.frame, stale, dst, src, len);
    var from := UsedPart(UsesSource(s.cfg, encrypt), srcList, len);
    var to := UsedPart(UsesTarget(s.cfg, encrypt), dstList, len);
    NothingInRam(|k.ram|);
    HashNCryptLists(s, k, encrypt, from, to);
    ghost var readonly := s.io.readonlyPages;
    ReleaseUserPages(s.io, k);
    ReleaseBalanced(old(k.log), k.log, frames, readonly, k.reserved);
    assert frames[readonly..] == TargetFrames(k.frame, dst, len);
  }

  /** The pages a call may have written. */
  function TargetFrames(frame: PageTable, dst: nat, len: nat): seq<nat> {
    Frames(frame, dst, PageCount(dst, EffectiveLen(dst, len)))
  }

  lemma NothingInRam(size: nat)
    ensures InRam([], size)
  {
  }

  /// One call

  function Min(a: nat, b: nat): nat {
    if a < b then a else b
  }

  /** The first n bytes of `given` laid over `own`. */
  function Overlay(own: seq<byte>, given: seq<byte>, n: nat): (r: seq<byte>)
    requires n <= |own| && n <= |given|
    ensures |r| == |own|
  {
    given[..n] + own[n..]
  }

  /** The bytes of the IV that a call block and a session exchange. */
  function IvBytes(cfg: Config, ivlen: nat): nat {
    if cfg.cipher.None? then 0 else Min(cfg.cipher.value.ivsize, ivlen)
  }

  /** The session as a call finds it after its flags have acted on the hash. */
  function HashReady(cfg: Config, e: Engine, flags: Flags): Engine {
    if cfg.hash.Some? && Resets(flags) then e.(hash := Absorbing([])) else e
  }

  /** The session as the data meets it. */
  function Prepared(cfg: Config, e: Engine, flags: Flags, iv: seq<byte>, ivlen: nat): Engine
    requires IvBytes(cfg, ivlen) <= |iv| && IvBytes(cfg, ivlen) <= |e.iv|
  {
    HashReady(cfg, e, flags).(iv := Overlay(e.iv, iv, IvBytes(cfg, ivlen)))
  }

  /** Zero copy is allowed by the flags and possible at these addresses. */
  predicate ZeroCopyAllowed(alignmask: nat, r: Request) {
    !r.flags.noZc && r.src % (alignmask + 1) == 0 && r.dst % (alignmask + 1) == 0
  }

  /** The data phase, on whichever path the call takes; there is no outcome if the kernel would
      follow a null list or run off the end of one. */
  function Executed(cfg: Config, w: World, frame: PageTable, stale: Sg, zeroCopy: bool, e: Engine, r: Request)
    : (x: Option<RunResult>)
    requires forall m | 0 <= m <= PAGE_SIZE :: InRam(Bounce(w.bounce, m), |e.ram|)
    requires forall a, m :: InRam(Range(frame, a, m), |e.ram|)
    ensures x.Some? ==> |x.value.engine.ram| == |e.ram| && (x.value.ret == 0 || x.value.ret == EFAULT)
  {
    if r.len == 0 then Some(RunResult(0, e))
    else if zeroCopy then
      var z := ZcRun(cfg, r.encrypt, e, frame, stale, r.src, r.dst, r.len);
      if z.Some? then Some(RunResult(0, z.value)) else None
    else Some(StdRun(cfg, r.encrypt, e, frame, w.ok, w.bounce, r.src, r.dst, r.len))
  }

  /** What the data phase is meant to do: one pass over the user's buffers. */
  function Processed(cfg: Config, frame: PageTable, e: Engine, r: Request): Engine
    requires forall a, m :: InRam(Range(frame, a, m), |e.ram|)
  {
    if r.len == 0 then e else UserPass(cfg, r.encrypt, e, frame, r.src, r.dst, r.len)
  }

  /** The buffers of a call that means the same on both paths: those that are used are not null,
      and they can be accessed. */
  ghost predicate Fits(cfg: Config, w: World, frame: PageTable, size: nat, r: Request) {
    r.len > 0 ==>
      && NonNull(cfg, r.encrypt, r.src, r.dst)
      && if cfg.cipher.None? && r.encrypt then Accessible(w.ok.read, r.src, r.len)
         else HashesSource(cfg, r.encrypt, r.src, r.dst) && Buffers(frame, w.ok, w.bounce, size, r.src, r.dst, r.len)
  }

  /** Whichever way the data of a call travels, and whatever the table holds, the outcome is the
      same. */
  lemma PathIsInvisible(cfg: Config, w: World, frame: PageTable, stale: Sg, zeroCopy: bool, e: Engine, r: Request)
    requires Machine(frame, w.bounce, |e.ram|)
    requires Ready(cfg, e) && PageGranular(cfg) && WholeBlocks(cfg, r.len) && Fits(cfg, w, frame, |e.ram|, r)
    ensures (forall m | 0 <= m <= PAGE_SIZE :: InRam(Bounce(w.bounce, m), |e.ram|))
         && (forall a, m :: InRam(Range(frame, a, m), |e.ram|))
    ensures var x := Executed(cfg, w, frame, stale, zeroCopy, e, r);
            x.Some? && x.value.ret == 0 && Same(x.value.engine, Processed(cfg, frame, e, r), w.bounce)
  {
    hide Machine, Ready, WholeBlocks, PageGranular, Accessible, Buffers, StdRun, ZcRun, UserPass, NonNull;
    hide Bounce, Range, InRam;
    MachineWide(frame, w.bounce, |e.ram|);
    if r.len > 0 {
      ZcIsUserPass(cfg, r.encrypt, e, frame, stale, r.src, r.dst, r.len);
      if cfg.cipher.None? && r.encrypt {
        HashOnlyRun(cfg, w, frame, e, r.src, r.dst, r.len);
      } else {
        StdIsUserPass(cfg, r.encrypt, e, frame, w.ok, w.bounce, r.src, r.dst, r.len);
      }
    }
  }

  /** Without a cipher, the bounce loop of an encryption hashes the source and writes nothing. */
  lemma {:induction false} HashOnlyRun(cfg: Config, w: World, frame: PageTable, e: Engine, src: nat, dst: nat, n: nat)
    requires cfg.cipher.None? && Machine(frame, w.bounce, |e.ram|) && Accessible(w.ok.read, src, n)
    ensures (forall m | 0 <= m <= PAGE_SIZE :: InRam(Bounce(w.bounce, m), |e.ram|))
         && (forall a, m :: InRam(Range(frame, a, m), |e.ram|))
    ensures var x := StdRun(cfg, true, e, frame, w.ok, w.bounce, src, dst, n);
            x.ret == 0 && Same(x.engine, UserPass(cfg, true, e, frame, src, dst, n), w.bounce)
    decreases n
  {
    hide Machine, Accessible, Range, InRam, Bounce, Gather, Scatter, Absorb, Same;
    MachineWide(frame, w.bounce, |e.ram|);
    if n == 0 {
      HashNothing(cfg, e, frame, src, dst, w.bounce);
    } else {
      var m := Chunk(n);
      AccessibleSplit(w.ok.read, src, m, n - m);
      HashOnlyTurn(cfg, w, frame, e, src, m);
      var s := Range(frame, src, m);
      var out := BounceWork(cfg, true, e, w.bounce, s);
      var mid := HashPass(cfg, e, s);
      SameSizes(out, mid, w.bounce);
      HashOnlyRun(cfg, w, frame, out, src + m, dst + m, n - m);
      SameWorld(cfg, true, out, mid, frame, w.bounce, src + m, dst + m, n - m);
      EngineTrans(StdRun(cfg, true, out, frame, w.ok, w.bounce, src + m, dst + m, n - m).engine,
                  UserPass(cfg, true, out, frame, src + m, dst + m, n - m),
                  UserPass(cfg, true, mid, frame, src + m, dst + m, n - m), w.bounce);
      RangeSplit(frame, src, m, n - m);
      GatherSplit(e.ram, s, Range(frame, src + m, n - m));
      AbsorbSplit(e.hash, Gather(e.ram, s), Gather(e.ram, Range(frame, src + m, n - m)));
    }
  }

  lemma SameSizes(a: Engine, b: Engine, bounce: nat)
    requires Same(a, b, bounce)
    ensures |a.ram| == |b.ram|
  {
  }

  lemma HashNothing(cfg: Config, e: Engine, frame: PageTable, src: nat, dst: nat, bounce: nat)
    requires cfg.cipher.None? && forall a, m :: InRam(Range(frame, a, m), |e.ram|)
    ensures UserPass(cfg, true, e, frame, src, dst, 0) == e && Same(e, e, bounce)
  {
    if e.hash.Absorbing? {
      assert e.hash.msg + [] == e.hash.msg;
    }
  }

  lemma HashOnlyTurn(cfg: Config, w: World, frame: PageTable, e: Engine, src: nat, m: nat)
    requires cfg.cipher.None? && Machine(frame, w.bounce, |e.ram|) && m <= PAGE_SIZE
    ensures InRam(Bounce(w.bounce, m), |e.ram|) && InRam(Range(frame, src, m), |e.ram|)
    ensures var s := Range(frame, src, m);
            Same(BounceWork(cfg, true, e, w.bounce, s), HashPass(cfg, e, s), w.bounce)
  {
    hide Machine, Range, InRam, Bounce, Gather, Scatter, Absorb;
    BounceInMachine(frame, w.bounce, |e.ram|, m);
    RangeInMachine(frame, w.bounce, |e.ram|, src, m);
    var x := Gather(e.ram, Range(frame, src, m));
    BounceWrite(e.ram, w.bounce, Bounce(w.bounce, m), x);
    GatherWritten(e.ram, Bounce(w.bounce, m), x);
  }

  lemma PassKeepsReady(cfg: Config, encrypt: bool, e: Engine, src: seq<nat>, dst: seq<nat>)
    requires InRam(src, |e.ram|) && InRam(dst, |e.ram|) && Ready(cfg, e) && WholeBlocks(cfg, |src|)
    ensures Ready(cfg, HashNCrypt(cfg, encrypt, e, src, dst)) && |HashNCrypt(cfg, encrypt, e, src, dst).iv| == |e.iv|
  {
    if cfg.cipher.Some? {
      assert KeepsLength(cfg.cipher.value, encrypt, e.iv, Gather(e.ram, src));
    }
  }

  lemma {:induction false} StdKeepsReady(cfg: Config, encrypt: bool, e: Engine, frame: PageTable, ok: Access,
                                         bounce: nat, src: nat, dst: nat, n: nat)
    requires Ready(cfg, e) && PageGranular(cfg) && WholeBlocks(cfg, n)
    requires forall m | 0 <= m <= PAGE_SIZE :: InRam(Bounce(bounce, m), |e.ram|)
    requires forall a, m :: InRam(Range(frame, a, m), |e.ram|)
    ensures var out := StdRun(cfg, encrypt, e, frame, ok, bounce, src, dst, n).engine;
            Ready(cfg, out) && |out.iv| == |e.iv|
    decreases n
  {
    hide Lawful, Range, InRam, Bounce, Gather, Scatter, HashNCrypt, Accessible, WholeBlocks, WholeGranules;
    if n > 0 {
      var m := Chunk(n);
      if n > PAGE_SIZE {
        CutAtPage(cfg, e, n);
      }
      var s := Range(frame, src, m);
      PassKeepsReady(cfg, encrypt, BounceIn(e, bounce, s), Bounce(bounce, m), Bounce(bounce, m));
      var worked := BounceWork(cfg, encrypt, e, bounce, s);
      if n > PAGE_SIZE {
        StdKeepsReady(cfg, encrypt, BounceOut(cfg, worked, bounce, Range(frame, dst, m)), frame, ok, bounce,
                      src + m, dst + m, n - m);
      }
    }
  }

  lemma ExecutedReady(cfg: Config, w: World, frame: PageTable, stale: Sg, zeroCopy: bool, e: Engine, r: Request)
    requires Ready(cfg, e) && PageGranular(cfg) && WholeBlocks(cfg, r.len)
    requires forall m | 0 <= m <= PAGE_SIZE :: InRam(Bounce(w.bounce, m), |e.ram|)
    requires forall a, m :: InRam(Range(frame, a, m), |e.ram|)
    ensures var x := Executed(cfg, w, frame, stale, zeroCopy, e, r);
            x.Some? ==> Ready(cfg, x.value.engine) && |x.value.engine.iv| == |e.iv|
  {
    hide Ready, PageGranular, StdRun, HashNCrypt, Range, InRam, Bounce, Addrs;
    if !zeroCopy {
      StdKeepsReady(cfg, r.encrypt, e, frame, w.ok, w.bounce, r.src, r.dst, r.len);
    } else if Survives(cfg, r.encrypt, frame, stale, r.src, r.dst, r.len, |e.ram|) {
      var from := UsedPart(UsesSource(cfg, r.encrypt), MappedList(frame, stale, r.src, r.dst, r.len), r.len);
      var to := UsedPart(UsesTarget(cfg, r.encrypt), MappedList(frame, stale, r.dst, r.src, r.len), r.len);
      NothingInRam(|e.ram|);
      PassKeepsReady(cfg, r.encrypt, e, from, to);
    }
  }

  /** On a session with only a hash, an encryption is a call of the hash protocol. */
  lemma HashCall(cfg: Config, frame: PageTable, e: Engine, r: Request)
    requires cfg.cipher.None? && cfg.hash.Some? && r.encrypt
    requires forall a, m :: InRam(Range(frame, a, m), |e.ram|)
    ensures var call := Call(r.flags, Gather(e.ram, Range(frame, r.src, r.len)));
            var done := Processed(cfg, frame, HashReady(cfg, e, r.flags), r);
            done.hash == Fed(e.hash, call) && Closed(cfg, done, r).hash == AfterCall(e.hash, call)
  {
    hide Range, InRam, Emits, Resets;
    var h := HashReady(cfg, e, r.flags).hash;
    if h.Absorbing? {
      assert h.msg + [] == h.msg;
    }
  }

  /** The session after a digest, if any, has been handed out. */
  function Closed(cfg: Config, e: Engine, r: Request): Engine {
    if cfg.hash.Some? && Emits(r.flags, r.len) then e.(hash := Finished) else e
  }

  /** `cryptodev_hash_final`: the digest is laid over the front of the output buffer.  The
      digest of a hash that is already finished is not defined. */
  method HashFinal(s: Session, buffer: seq<byte>) returns (output: seq<byte>)
    requires s.Valid() && |buffer| >= AALG_MAX_RESULT_LEN && s.cfg.hash.Some?
    modifies s`hash
    ensures s.hash == Finished && |output| == |buffer|
    ensures old(s.hash).Absorbing? ==> output == HashOutput(s.cfg.hash.value, old(s.hash).msg, buffer)
  {
    output := *;
    if s.hash.Absorbing? {
      output := HashOutput(s.cfg.hash.value, s.hash.msg, buffer);
    } else if |output| != |buffer| {
      output := buffer;
    }
    s.hash := Finished;
  }

  /** A digest in front of what the output buffer held before. */
  function HashOutput(h: Hash, msg: seq<byte>, buffer: seq<byte>): (r: seq<byte>)
    requires LawfulHash(h) && |buffer| >= AALG_MAX_RESULT_LEN
    ensures |r| == |buffer|
  {
    h.digest(msg) + buffer[h.digestsize..]
  }

  /** Zero copy is switched off for misaligned buffers. */
  method DisableUnaligned(s: Session, kcop: KernelCryptOp)
    modifies kcop`flags
    ensures kcop.flags == old(kcop.flags).(noZc := !ZeroCopyAllowed(s.alignmask, old(kcop.Asked())))
  {
    if !kcop.flags.noZc {
      if s.alignmask != 0 && kcop.src % (s.alignmask + 1) != 0 {
        kcop.flags := kcop.flags.(noZc := true);
      }
      if s.alignmask != 0 && kcop.dst % (s.alignmask + 1) != 0 {
        kcop.flags := kcop.flags.(noZc := true);
      }
    }
  }

  /** What pinning gives for a call, and that the kernel survives it if it is mapped. */
  predicate Provided(cfg: Config, alignmask: nat, r: Request, gotSrc: int, gotDst: int, frame: PageTable, stale: Sg,
                     size: nat)
  {
    r.len > 0 ==>
      && PinResults(r.src, r.dst, r.len, gotSrc, gotDst)
      && (TakesZeroCopy(alignmask, r, gotSrc, gotDst) ==>
            Survives(cfg, r.encrypt, frame, stale, r.src, r.dst, r.len, size))
  }

  /** The call takes the zero-copy path, and its pages can be pinned. */
  predicate TakesZeroCopy(alignmask: nat, r: Request, gotSrc: int, gotDst: int) {
    ZeroCopyAllowed(alignmask, r) && Pinnable(r.src, r.dst, r.len, gotSrc, gotDst)
  }

  /** The flags that a call leaves in its block: zero copy is off if it was not possible. */
  function FlagsAfter(alignmask: nat, r: Request): Flags {
    if r.len == 0 then r.flags else r.flags.(noZc := !ZeroCopyAllowed(alignmask, r))
  }

  /** A call block without flags that is used again as the call left it.  The first call hashes
      its own data; the second does if and only if both buffers are aligned, for otherwise the
      first has switched off zero copy in the block, and a call with that flag does not reset
      the hash. */
  lemma ReusedBlockNeedsAlignment(alignmask: nat, r: Request, h: HashState, first: seq<byte>, second: seq<byte>)
    requires r.flags == NO_FLAGS && |first| == |second| == r.len > 0
    ensures var a, b := Call(r.flags, first), Call(FlagsAfter(alignmask, r), second);
            && Fed(h, a) == Absorbing(first)
            && (Fed(AfterCall(h, a), b) == Absorbing(second) <==>
                  r.src % (alignmask + 1) == 0 && r.dst % (alignmask + 1) == 0)
  {
    assert [] + first == first && [] + second == second;
  }

  /** The data phase of `crypto_run`. */
  method RunData(s: Session, k: Kernel, w: World, kcop: KernelCryptOp, gotSrc: int, gotDst: int) returns (ret: int)
    requires s.io.Valid() && Machine(k.frame, w.bounce, |k.ram|)
    requires Provided(s.cfg, s.alignmask, kcop.Asked(), gotSrc, gotDst, k.frame, s.io.sg[0], |k.ram|)
    modifies kcop`flags, s`iv, s`hash, k`ram, k`log, s.io, s.io.pages, s.io.sg
    ensures s.io.Valid() && Machine(k.frame, w.bounce, |k.ram|)
    ensures forall m | 0 <= m <= PAGE_SIZE :: InRam(Bounce(w.bounce, m), |old(k.ram)|)
    ensures forall a, m :: InRam(Range(k.frame, a, m), |old(k.ram)|)
    ensures kcop.flags == FlagsAfter(s.alignmask, old(kcop.Asked()))
    ensures Some(RunResult(ret, s.View(k))) ==
            Executed(s.cfg, w, k.frame, old(s.io.sg[0]), TakesZeroCopy(s.alignmask, old(kcop.Asked()), gotSrc, gotDst),
                     old(s.View(k)), old(kcop.Asked()))
    ensures kcop.len > 0 && TakesZeroCopy(s.alignmask, old(kcop.Asked()), gotSrc, gotDst) ==>
              Balanced(old(k.log), k.log)
  {
    hide Machine, Range, Bounce, InRam, StdRun, ZcRun, Survives, Held, Flushed, PinResults, Pinnable, Addrs;
    MachineWide(k.frame, w.bounce, |k.ram|);
    ret := 0;
    if kcop.len != 0 {
      DisableUnaligned(s, kcop);
      if kcop.flags.noZc {
        ret := RunStd(s, k, w, kcop.op == COP_ENCRYPT, kcop.src, kcop.dst, kcop.len);
      } else {
        ret := RunZeroCopy(s, k, w, kcop.op == COP_ENCRYPT, kcop.src, kcop.dst, kcop.len, gotSrc, gotDst);
      }
    }
  }

  /** The part of `crypto_run` before the data: reset by flags, length check, IV in. */
  method Prepare(s: Session, kcop: KernelCryptOp, ghost k: Kernel) returns (ok: bool)
    requires s.Valid() && kcop.Valid()
    modifies s`iv, s`hash
    ensures s.Valid() && (ok <==> WholeBlocks(s.cfg, kcop.len))
    ensures s.View(k) == if ok then Prepared(s.cfg, old(s.View(k)), kcop.flags, kcop.iv, kcop.ivlen)
                         else HashReady(s.cfg, old(s.View(k)), kcop.flags)
  {
    OverlayNothing(s.iv, kcop.iv);
    assert s.cfg.cipher.Some? ==> s.cfg.cipher.value.blocksize > 0;
    hide Lawful, Overlay, Resets;
    if s.cfg.hash.Some? && Resets(kcop.flags) {
      s.hash := Absorbing([]);
    }
    if s.cfg.cipher.Some? {
      if kcop.len % s.cfg.cipher.value.blocksize != 0 {
        return false;
      }
      s.iv := Overlay(s.iv, kcop.iv, IvBytes(s.cfg, kcop.ivlen));
    }
    ok := true;
  }

  lemma OverlayNothing(own: seq<byte>, given: seq<byte>)
    ensures Overlay(own, given, 0) == own
  {
  }

  /** The part after the data: IV out, and the digest if the flags ask for it. */
  method Report(s: Session, kcop: KernelCryptOp, ghost k: Kernel)
    requires s.Valid() && kcop.Valid()
    modifies s`hash, kcop`iv, kcop`digestsize, kcop`hashOutput
    ensures s.Valid() && kcop.Valid()
    ensures s.View(k) == Closed(s.cfg, old(s.View(k)), kcop.Asked())
    ensures Reported(s.cfg, kcop, old(kcop.iv), old(kcop.hashOutput), old(s.View(k)))
  {
    OverlayNothing(kcop.iv, s.iv);
    hide Lawful, Overlay, Emits;
    if s.cfg.cipher.Some? {
      kcop.iv := Overlay(kcop.iv, s.iv, IvBytes(s.cfg, kcop.ivlen));
    }
    if s.cfg.hash.Some? && Emits(kcop.flags, kcop.len) {
      kcop.hashOutput := HashFinal(s, kcop.hashOutput);
      kcop.digestsize := s.cfg.hash.value.digestsize;
    }
  }

  /** What `crypto_run` reports in the call block: the IV left behind and the digest. */
  ghost predicate Reported(cfg: Config, kcop: KernelCryptOp, iv: seq<byte>, output: seq<byte>, e: Engine)
    requires IvBytes(cfg, kcop.ivlen) <= |iv| && IvBytes(cfg, kcop.ivlen) <= |e.iv|
    requires |output| == AALG_MAX_RESULT_LEN && (cfg.hash.Some? ==> LawfulHash(cfg.hash.value))
    reads kcop
  {
    && kcop.iv == Overlay(iv, e.iv, IvBytes(cfg, kcop.ivlen))
    && (cfg.hash.Some? && Emits(kcop.flags, kcop.len) && e.hash.Absorbing? ==>
          var h := cfg.hash.value;
          kcop.digestsize == h.digestsize && kcop.hashOutput == HashOutput(h, e.hash.msg, output))
    && (cfg.hash.None? || !Emits(kcop.flags, kcop.len) ==> kcop.hashOutput == output)
  }

  /** How a call on a prepared session ends: its data phase decides the return value, and on
      success the IV and the digest of the state it leaves are reported. */
  ghost predicate Completed(s: Session, w: World, frame: PageTable, stale: Sg, zeroCopy: bool, start: Engine,
                            after: Engine, r: Request, kcop: KernelCryptOp, iv: seq<byte>, output: seq<byte>, ret: int)
    requires forall m | 0 <= m <= PAGE_SIZE :: InRam(Bounce(w.bounce, m), |start.ram|)
    requires forall a, m :: InRam(Range(frame, a, m), |start.ram|)
    requires IvBytes(s.cfg, kcop.ivlen) <= |iv| && IvBytes(s.cfg, kcop.ivlen) <= |start.iv|
    requires |output| == AALG_MAX_RESULT_LEN && (s.cfg.hash.Some? ==> LawfulHash(s.cfg.hash.value))
    reads kcop
  {
    var x := Executed(s.cfg, w, frame, stale, zeroCopy, start, r);
    && x.Some? && ret == x.value.ret && |x.value.engine.iv| == |start.iv|
    && kcop.flags == FlagsAfter(s.alignmask, r)
    && (ret != 0 ==> after == x.value.engine && kcop.iv == iv && kcop.hashOutput == output)
    && (ret == 0 ==> after == Closed(s.cfg, x.value.engine, r) && Reported(s.cfg, kcop, iv, output, x.value.engine))
  }

  ghost predicate Ended(s: Session, w: World, frame: PageTable, stale: Sg, zeroCopy: bool, before: Engine,
                        after: Engine, r: Request, kcop: KernelCryptOp, iv: seq<byte>, output: seq<byte>, ret: int)
    requires forall m | 0 <= m <= PAGE_SIZE :: InRam(Bounce(w.bounce, m), |before.ram|)
    requires forall a, m :: InRam(Range(frame, a, m), |before.ram|)
    requires IvBytes(s.cfg, kcop.ivlen) <= |iv| && IvBytes(s.cfg, kcop.ivlen) <= |before.iv|
    requires |output| == AALG_MAX_RESULT_LEN && (s.cfg.hash.Some? ==> LawfulHash(s.cfg.hash.value))
    reads kcop
  {
    if !WholeBlocks(s.cfg, r.len) then
      && ret == EINVAL && after == HashReady(s.cfg, before, r.flags)
      && kcop.flags == r.flags && kcop.iv == iv && kcop.hashOutput == output
    else
      Completed(s, w, frame, stale, zeroCopy, Prepared(s.cfg, before, r.flags, iv, kcop.ivlen), after, r, kcop, iv,
                output, ret)
  }

  /** A call that fits succeeds, on every path and whatever the table holds, in the state that one
      pass over the user's buffers leaves, and reports the IV and the digest of that state. */
  lemma FittingCall(s: Session, w: World, frame: PageTable, stale: Sg, zeroCopy: bool, before: Engine,
                    after: Engine, r: Request, kcop: KernelCryptOp, iv: seq<byte>, output: seq<byte>, ret: int)
    requires Usable(s.cfg, before.iv) && PageGranular(s.cfg) && Machine(frame, w.bounce, |before.ram|)
    requires kcop.ivlen <= |iv| && |output| == AALG_MAX_RESULT_LEN
    requires forall m | 0 <= m <= PAGE_SIZE :: InRam(Bounce(w.bounce, m), |before.ram|)
    requires forall a, m :: InRam(Range(frame, a, m), |before.ram|)
    requires Ended(s, w, frame, stale, zeroCopy, before, after, r, kcop, iv, output, ret)
    requires WholeBlocks(s.cfg, r.len) && Fits(s.cfg, w, frame, |before.ram|, r)
    ensures var start := Prepared(s.cfg, before, r.flags, iv, kcop.ivlen);
            var done := Processed(s.cfg, frame, start, r);
            && ret == 0 && |done.iv| == |start.iv| && kcop.flags == FlagsAfter(s.alignmask, r)
            && Same(after, Closed(s.cfg, done, r), w.bounce)
            && Reported(s.cfg, kcop, iv, output, done)
  {
    hide Machine, Bounce, Range, InRam, Fits, Executed, Processed, Lawful, LawfulHash, PageGranular, WholeBlocks;
    hide Emits, Resets, SameRam, Overlay;
    var start := Prepared(s.cfg, before, r.flags, iv, kcop.ivlen);
    PathIsInvisible(s.cfg, w, frame, stale, zeroCopy, start, r);
  }

  /// What a call means, byte by byte

  /** The physical address behind address a of the user. */
  function UserAt(frame: PageTable, a: nat): nat {
    frame(a / 4096) * 4096 + a % 4096
  }

  ghost predicate Backed(frame: PageTable, size: nat) {
    forall a :: UserAt(frame, a) < size
  }

  /** What the user finds in n bytes from addr on. */
  ghost function UserBytes(ram: seq<byte>, frame: PageTable, addr: nat, n: nat): (r: seq<byte>)
    requires Backed(frame, |ram|)
    ensures |r| == n
  {
    seq(n, i requires 0 <= i < n => ram[UserAt(frame, addr + i)])
  }

  lemma UserBytesAreRange(ram: seq<byte>, frame: PageTable, addr: nat, n: nat)
    requires InRam(Range(frame, addr, n), |ram|) && Backed(frame, |ram|)
    ensures UserBytes(ram, frame, addr, n) == Gather(ram, Range(frame, addr, n))
  {
    forall i | 0 <= i < n ensures Range(frame, addr, n)[i] == UserAt(frame, addr + i) {
      assert Range(frame, addr, n)[i] == Phys(frame, addr + i);
    }
  }

  lemma MachineBacks(frame: PageTable, bounce: nat, size: nat)
    requires Machine(frame, bounce, size)
    ensures Backed(frame, size)
  {
    forall a: nat ensures UserAt(frame, a) < size {
      assert (frame(a / 4096) + 1) * PAGE_SIZE <= size;
    }
  }

  /** The IV that a call on a session with this cipher works under: the bytes of the call block as
      far as both reach, and the session's own behind that. */
  function CallIv(t: Transform, own: seq<byte>, given: seq<byte>, ivlen: nat): (r: seq<byte>)
    requires ivlen <= |given| && |own| == t.ivsize
    ensures |r| == t.ivsize
  {
    seq(t.ivsize, i requires 0 <= i < t.ivsize => if i < ivlen then given[i] else own[i])
  }

  /** The cipher text or plain text of the source, and the IV behind it. */
  function Ciphered(t: Transform, op: int, iv: seq<byte>, data: seq<byte>): Out {
    if data == [] then Out([], iv) else if op == 0 then t.enc(iv, data) else t.dec(iv, data)
  }

  /** The cipher's part of a call: the target holds what the cipher makes of the source under the
      call's IV, no other byte of the user changes, and the IV left goes to the session and, as
      far as both reach, to the call block. */
  ghost predicate CipherDone(t: Transform, frame: PageTable, bounce: nat, op: int, src: nat, dst: nat, len: nat,
                             ivlen: nat, before: Engine, after: Engine, ivIn: seq<byte>, ivOut: seq<byte>)
    requires ivlen <= |ivIn| && |before.iv| == t.ivsize && Backed(frame, |before.ram|)
  {
    var o := Ciphered(t, op, CallIv(t, before.iv, ivIn, ivlen), UserBytes(before.ram, frame, src, len));
    && |after.ram| == |before.ram| && |o.iv| == t.ivsize && |ivOut| == |ivIn|
    && UserBytes(after.ram, frame, dst, len) == o.data
    && (forall a | 0 <= a < |before.ram| && a / 4096 != bounce
                   && (forall u: nat | dst <= u < dst + len :: UserAt(frame, u) != a) :: after.ram[a] == before.ram[a])
    && after.iv == o.iv
    && forall i | 0 <= i < |ivIn| :: ivOut[i] == if i < ivlen && i < t.ivsize then o.iv[i] else ivIn[i]
  }

  /** Without a cipher a call changes no byte of the user and no IV. */
  ghost predicate NoCipherDone(bounce: nat, before: Engine, after: Engine, ivIn: seq<byte>, ivOut: seq<byte>) {
    && |after.ram| == |before.ram| && after.iv == before.iv && ivOut == ivIn
    && forall a | 0 <= a < |before.ram| && a / 4096 != bounce :: after.ram[a] == before.ram[a]
  }

  /** The message of the hash at the end of the call: the old one unless the call has the reset
      flag or no flag at all, and the plain text. */
  function MessageOf(f: Flags, was: HashState, plain: seq<byte>): HashState {
    if f.reset || (!f.update && !f.final && !f.writeIv && !f.noZc && !f.tls && !f.srtp) then Absorbing(plain)
    else if was.Absorbing? then Absorbing(was.msg + plain)
    else Finished
  }

  /** The hash's part of a call: a final call, one that is no update and an empty one hand out the
      digest of the message, in the front of the output buffer, and end the message. */
  ghost predicate HashDone(h: Hash, f: Flags, len: nat, plain: seq<byte>, before: HashState, after: HashState,
                           digestsize: nat, outIn: seq<byte>, outOut: seq<byte>)
  {
    var message := MessageOf(f, before, plain);
    if f.final || !f.update || len == 0 then
      && after == Finished
      && (message.Absorbing? ==>
            && digestsize == h.digestsize <= |outIn| == |outOut|
            && outOut[..digestsize] == h.digest(message.msg) && outOut[digestsize..] == outIn[digestsize..])
    else
      after == message && outOut == outIn
  }

  /** What a call that fits has done. */
  ghost predicate CallDone(cfg: Config, frame: PageTable, bounce: nat, op: int, f: Flags, src: nat, dst: nat,
                           len: nat, ivlen: nat, before: Engine, after: Engine, ivIn: seq<byte>, ivOut: seq<byte>,
                           digestsize: nat, outIn: seq<byte>, outOut: seq<byte>)
    requires ivlen <= |ivIn| && Backed(frame, |before.ram|)
    requires cfg.cipher.Some? ==> |before.iv| == cfg.cipher.value.ivsize
  {
    && |after.ram| == |before.ram|
    && (if cfg.cipher.Some? then
          CipherDone(cfg.cipher.value, frame, bounce, op, src, dst, len, ivlen, before, after, ivIn, ivOut)
        else NoCipherDone(bounce, before, after, ivIn, ivOut))
    && (if cfg.hash.Some? then
          var plain := if op == 0 || cfg.cipher.None? then UserBytes(before.ram, frame, src, len)
                       else UserBytes(after.ram, frame, dst, len);
          HashDone(cfg.hash.value, f, len, plain, before.hash, after.hash, digestsize, outIn, outOut)
        else after.hash == before.hash && outOut == outIn)
  }

  /** One pass over two lists: what the cipher and the hash make of the bytes. */
  lemma PassMeans(cfg: Config, encrypt: bool, e: Engine, src: seq<nat>, dst: seq<nat>)
    requires Ready(cfg, e) && WholeBlocks(cfg, |src|) && InRam(src, |e.ram|) && InRam(dst, |e.ram|)
    requires cfg.cipher.Some? ==> Lists(|e.ram|, src, dst)
    ensures var r := HashNCrypt(cfg, encrypt, e, src, dst);
            && (cfg.cipher.None? ==> r.ram == e.ram && r.iv == e.iv)
            && (cfg.cipher.Some? ==>
                  var o := Crypt(cfg.cipher.value, encrypt, e.iv, Gather(e.ram, src));
                  && Gather(r.ram, dst) == o.data && r.iv == o.iv && |o.iv| == |e.iv|
                  && forall a | 0 <= a < |e.ram| && a !in dst :: r.ram[a] == e.ram[a])
            && r.hash == if cfg.hash.None? then e.hash
                         else Absorb(e.hash, if encrypt then Gather(e.ram, src) else Gather(r.ram, dst))
  {
    if cfg.cipher.Some? {
      var t, data := cfg.cipher.value, Gather(e.ram, src);
      assert KeepsLength(t, encrypt, e.iv, data);
      hide Lawful;
      var o := Crypt(t, encrypt, e.iv, data);
      GatherWritten(e.ram, dst, o.data);
      forall a | 0 <= a < |e.ram| && a !in dst ensures Scatter(e.ram, dst, o.data)[a] == e.ram[a] {
        ScatterOther(e.ram, dst, o.data, a);
      }
    }
  }

  /** The data phase of a call that fits, seen from the user. */
  ghost predicate Meant(cfg: Config, frame: PageTable, start: Engine, r: Request, done: Engine)
    requires Backed(frame, |start.ram|)
  {
    var from := UserBytes(start.ram, frame, r.src, r.len);
    && |done.ram| == |start.ram|
    && (cfg.cipher.None? ==> done.ram == start.ram && done.iv == start.iv)
    && (cfg.cipher.Some? ==> CipherMeant(cfg.cipher.value, frame, start, r, done))
    && done.hash == if cfg.hash.None? then start.hash
                    else Absorb(start.hash, if r.encrypt || cfg.cipher.None? then from
                                            else UserBytes(done.ram, frame, r.dst, r.len))
  }

  ghost predicate CipherMeant(t: Transform, frame: PageTable, start: Engine, r: Request, done: Engine)
    requires Backed(frame, |start.ram|) && |done.ram| == |start.ram|
  {
    var o := Ciphered(t, if r.encrypt then 0 else 1, start.iv, UserBytes(start.ram, frame, r.src, r.len));
    && UserBytes(done.ram, frame, r.dst, r.len) == o.data && done.iv == o.iv && |o.iv| == |start.iv|
    && forall a | 0 <= a < |start.ram| && (forall u: nat | r.dst <= u < r.dst + r.len :: UserAt(frame, u) != a) ::
         done.ram[a] == start.ram[a]
  }

  lemma ProcessedMeans(cfg: Config, w: World, frame: PageTable, start: Engine, r: Request)
    requires Ready(cfg, start) && WholeBlocks(cfg, r.len) && Machine(frame, w.bounce, |start.ram|)
    requires forall a, m :: InRam(Range(frame, a, m), |start.ram|)
    requires Fits(cfg, w, frame, |start.ram|, r) && Backed(frame, |start.ram|)
    ensures Meant(cfg, frame, start, r, Processed(cfg, frame, start, r))
  {
    hide Lawful, Machine, WholeBlocks, Gather, InRam, Accessible;
    var src, dst := Range(frame, r.src, r.len), Range(frame, r.dst, r.len);
    UserBytesAreRange(start.ram, frame, r.src, r.len);
    if r.len == 0 {
      NothingAbsorbed(start.hash);
    } else {
      PassMeans(cfg, r.encrypt, start, src, dst);
      var done := Processed(cfg, frame, start, r);
      UserBytesAreRange(done.ram, frame, r.dst, r.len);
      forall a | 0 <= a < |start.ram| && (forall u: nat | r.dst <= u < r.dst + r.len :: UserAt(frame, u) != a)
        ensures a !in dst
      {
        OutsideRange(frame, r.dst, r.len, a);
      }
    }
  }

  lemma NothingAbsorbed(h: HashState)
    ensures Absorb(h, []) == h
  {
    if h.Absorbing? {
      assert h.msg + [] == h.msg;
    }
  }

  /** The kernel page apart, the user sees no difference. */
  lemma SameUserBytes(a: seq<byte>, b: seq<byte>, frame: PageTable, bounce: nat, addr: nat, n: nat)
    requires SameRam(a, b, bounce) && Machine(frame, bounce, |a|) && Backed(frame, |a|)
    ensures UserBytes(a, frame, addr, n) == UserBytes(b, frame, addr, n)
  {
    forall u: nat | addr <= u < addr + n ensures a[UserAt(frame, u)] == b[UserAt(frame, u)] {
      assert UserAt(frame, u) / PAGE_SIZE == frame(u / 4096);
    }
  }

  /** A call that fits does what its flags and its block ask for. */
  lemma FittingMeans(s: Session, w: World, frame: PageTable, stale: Sg, zeroCopy: bool, before: Engine,
                     after: Engine, r: Request, kcop: KernelCryptOp, iv: seq<byte>, output: seq<byte>, ret: int)
    requires Usable(s.cfg, before.iv) && PageGranular(s.cfg) && Machine(frame, w.bounce, |before.ram|)
    requires kcop.ivlen <= |iv| && |output| == AALG_MAX_RESULT_LEN
    requires forall m | 0 <= m <= PAGE_SIZE :: InRam(Bounce(w.bounce, m), |before.ram|)
    requires forall a, m :: InRam(Range(frame, a, m), |before.ram|)
    requires Ended(s, w, frame, stale, zeroCopy, before, after, r, kcop, iv, output, ret)
    requires WholeBlocks(s.cfg, r.len) && Fits(s.cfg, w, frame, |before.ram|, r)
    requires r.len == kcop.len && r.encrypt == (kcop.op == 0) && Backed(frame, |before.ram|)
    ensures ret == 0
    ensures CallDone(s.cfg, frame, w.bounce, kcop.op, r.flags, r.src, r.dst, r.len, kcop.ivlen, before, after,
                     iv, kcop.iv, kcop.digestsize, output, kcop.hashOutput)
  {
    hide Machine, Bounce, Range, InRam, Fits, Executed, Processed, PageGranular, WholeBlocks, Ended, SameRam;
    hide Lawful, LawfulHash, Meant, CallDone, Prepared, Closed, Reported;
    FittingCall(s, w, frame, stale, zeroCopy, before, after, r, kcop, iv, output, ret);
    var start := Prepared(s.cfg, before, r.flags, iv, kcop.ivlen);
    PreparedReady(s.cfg, before, r.flags, iv, kcop.ivlen);
    ProcessedMeans(s.cfg, w, frame, start, r);
    var done := Processed(s.cfg, frame, start, r);
    MeantIsDone(s.cfg, w, frame, before, start, done, after, r, kcop, iv, output);
  }

  lemma PreparedReady(cfg: Config, e: Engine, flags: Flags, iv: seq<byte>, ivlen: nat)
    requires Usable(cfg, e.iv) && ivlen <= |iv|
    ensures var start := Prepared(cfg, e, flags, iv, ivlen);
            && Ready(cfg, start) && start.ram == e.ram && start.hash == HashReady(cfg, e, flags).hash
            && (cfg.cipher.Some? ==> start.iv == CallIv(cfg.cipher.value, e.iv, iv, ivlen))
            && (cfg.cipher.None? ==> start.iv == e.iv)
  {
    OverlayNothing(e.iv, iv);
    hide Lawful, LawfulHash;
  }

  lemma MeantIsDone(cfg: Config, w: World, frame: PageTable, before: Engine, start: Engine, done: Engine,
                    after: Engine, r: Request, kcop: KernelCryptOp, iv: seq<byte>, output: seq<byte>)
    requires Usable(cfg, before.iv) && Machine(frame, w.bounce, |before.ram|) && Backed(frame, |before.ram|)
    requires kcop.ivlen <= |iv| && |output| == AALG_MAX_RESULT_LEN
    requires start == Prepared(cfg, before, r.flags, iv, kcop.ivlen) && |done.iv| == |start.iv|
    requires Meant(cfg, frame, start, r, done) && Same(after, Closed(cfg, done, r), w.bounce)
    requires Reported(cfg, kcop, iv, output, done) && kcop.flags.(noZc := false) == r.flags.(noZc := false)
    requires r.len == kcop.len && r.encrypt == (kcop.op == 0)
    ensures CallDone(cfg, frame, w.bounce, kcop.op, r.flags, r.src, r.dst, r.len, kcop.ivlen, before, after,
                     iv, kcop.iv, kcop.digestsize, output, kcop.hashOutput)
  {
    hide Machine, Prepared, Lawful, LawfulHash, UserBytes, CallIv, Overlay, HashOutput, CipherMeant, SameRam, Backed;
    hide Emits, Resets, Absorb, CallDone, CipherDone, NoCipherDone, HashDone;
    PreparedReady(cfg, before, r.flags, iv, kcop.ivlen);
    SameSizes(after, Closed(cfg, done, r), w.bounce);
    SameUserBytes(after.ram, done.ram, frame, w.bounce, r.dst, r.len);
    CipherPart(cfg, w, frame, before, start, done, after, r, kcop, iv);
    HashPart(cfg, kcop, r, before, done, after, iv, output, PlainOf(cfg, frame, before, after, r));
    Assembled(cfg, w, frame, before, after, r, kcop, iv, output);
  }

  /** The bytes the hash takes. */
  ghost function PlainOf(cfg: Config, frame: PageTable, before: Engine, after: Engine, r: Request): seq<byte>
    requires Backed(frame, |before.ram|) && |after.ram| == |before.ram|
  {
    if r.encrypt || cfg.cipher.None? then UserBytes(before.ram, frame, r.src, r.len)
    else UserBytes(after.ram, frame, r.dst, r.len)
  }

  lemma Assembled(cfg: Config, w: World, frame: PageTable, before: Engine, after: Engine, r: Request,
                  kcop: KernelCryptOp, iv: seq<byte>, output: seq<byte>)
    requires cfg.cipher.Some? ==> |before.iv| == cfg.cipher.value.ivsize
    requires kcop.ivlen <= |iv| && Backed(frame, |before.ram|) && |after.ram| == |before.ram|
    requires r.encrypt == (kcop.op == 0)
    requires if cfg.cipher.Some? then
               CipherDone(cfg.cipher.value, frame, w.bounce, kcop.op, r.src, r.dst, r.len, kcop.ivlen, before, after,
                          iv, kcop.iv)
             else NoCipherDone(w.bounce, before, after, iv, kcop.iv)
    requires if cfg.hash.Some? then
               HashDone(cfg.hash.value, r.flags, r.len, PlainOf(cfg, frame, before, after, r), before.hash, after.hash,
                        kcop.digestsize, output, kcop.hashOutput)
             else after.hash == before.hash && kcop.hashOutput == output
    ensures CallDone(cfg, frame, w.bounce, kcop.op, r.flags, r.src, r.dst, r.len, kcop.ivlen, before, after,
                     iv, kcop.iv, kcop.digestsize, output, kcop.hashOutput)
  {
    hide UserBytes, CipherDone, NoCipherDone, HashDone, Backed;
  }

  lemma HashPart(cfg: Config, kcop: KernelCryptOp, r: Request, before: Engine, done: Engine, after: Engine,
                 iv: seq<byte>, output: seq<byte>, plain: seq<byte>)
    requires cfg.hash.Some? ==> LawfulHash(cfg.hash.value)
    requires |output| == AALG_MAX_RESULT_LEN && r.len == kcop.len
    requires kcop.flags.(noZc := false) == r.flags.(noZc := false)
    requires done.hash == if cfg.hash.None? then before.hash else Absorb(HashReady(cfg, before, r.flags).hash, plain)
    requires after.hash == Closed(cfg, done, r).hash
    requires IvBytes(cfg, kcop.ivlen) <= |iv| && IvBytes(cfg, kcop.ivlen) <= |done.iv|
    requires Reported(cfg, kcop, iv, output, done)
    ensures if cfg.hash.Some? then
              HashDone(cfg.hash.value, r.flags, r.len, plain, before.hash, after.hash, kcop.digestsize, output,
                       kcop.hashOutput)
            else after.hash == before.hash && kcop.hashOutput == output
  {
    hide LawfulHash, HashOutput, HashDone, IvBytes, Emits, Resets, Absorb, Overlay;
    if cfg.hash.Some? {
      HashMeans(cfg.hash.value, kcop, r, before.hash, done.hash, after.hash, output, plain);
    }
  }

  lemma CipherPart(cfg: Config, w: World, frame: PageTable, before: Engine, start: Engine, done: Engine,
                   after: Engine, r: Request, kcop: KernelCryptOp, iv: seq<byte>)
    requires cfg.cipher.Some? ==> |before.iv| == cfg.cipher.value.ivsize
    requires kcop.ivlen <= |iv| && Backed(frame, |before.ram|) && start.ram == before.ram && |done.ram| == |start.ram|
    requires if cfg.cipher.Some? then
               && start.iv == CallIv(cfg.cipher.value, before.iv, iv, kcop.ivlen)
               && CipherMeant(cfg.cipher.value, frame, start, r, done)
             else done.ram == start.ram && done.iv == start.iv == before.iv
    requires SameRam(after.ram, done.ram, w.bounce) && |after.ram| == |before.ram| && after.iv == done.iv
    requires UserBytes(after.ram, frame, r.dst, r.len) == UserBytes(done.ram, frame, r.dst, r.len)
    requires r.encrypt == (kcop.op == 0) && |done.iv| == |before.iv|
    requires kcop.iv == Overlay(iv, done.iv, IvBytes(cfg, kcop.ivlen))
    ensures if cfg.cipher.Some? then
              CipherDone(cfg.cipher.value, frame, w.bounce, kcop.op, r.src, r.dst, r.len, kcop.ivlen, before, after,
                         iv, kcop.iv)
            else NoCipherDone(w.bounce, before, after, iv, kcop.iv)
  {
    hide UserBytes, CallIv, Overlay, CipherMeant, CipherDone, SameRam, Backed;
    if cfg.cipher.Some? {
      CipherMeans(cfg.cipher.value, frame, w.bounce, before, start, done, after, r, kcop, iv);
    } else {
      OverlayNothing(iv, done.iv);
      NoCipherMeans(w.bounce, before, done, after, iv);
    }
  }

  lemma NoCipherMeans(bounce: nat, before: Engine, done: Engine, after: Engine, iv: seq<byte>)
    requires done.ram == before.ram && SameRam(after.ram, done.ram, bounce) && after.iv == before.iv
    ensures NoCipherDone(bounce, before, after, iv, iv)
  {
  }

  lemma CipherMeans(t: Transform, frame: PageTable, bounce: nat, before: Engine, start: Engine, done: Engine,
                    after: Engine, r: Request, kcop: KernelCryptOp, iv: seq<byte>)
    requires |before.iv| == t.ivsize && kcop.ivlen <= |iv| && Backed(frame, |before.ram|)
    requires start.ram == before.ram && start.iv == CallIv(t, before.iv, iv, kcop.ivlen)
    requires |done.ram| == |start.ram| && CipherMeant(t, frame, start, r, done)
    requires SameRam(after.ram, done.ram, bounce) && after.iv == done.iv && r.encrypt == (kcop.op == 0)
    requires UserBytes(after.ram, frame, r.dst, r.len) == UserBytes(done.ram, frame, r.dst, r.len)
    requires kcop.iv == Overlay(iv, done.iv, Min(t.ivsize, kcop.ivlen))
    ensures CipherDone(t, frame, bounce, kcop.op, r.src, r.dst, r.len, kcop.ivlen, before, after, iv, kcop.iv)
  {
    OverlayAt(iv, done.iv, Min(t.ivsize, kcop.ivlen));
    hide UserBytes, CallIv, Overlay, Backed;
  }

  lemma OverlayAt(own: seq<byte>, given: seq<byte>, n: nat)
    requires n <= |own| && n <= |given|
    ensures forall i | 0 <= i < |own| :: Overlay(own, given, n)[i] == if i < n then given[i] else own[i]
  {
  }

  lemma HashMeans(h: Hash, kcop: KernelCryptOp, r: Request, before: HashState, done: HashState, after: HashState,
                  output: seq<byte>, plain: seq<byte>)
    requires LawfulHash(h) && |output| == AALG_MAX_RESULT_LEN
    requires r.len == kcop.len && kcop.flags.(noZc := false) == r.flags.(noZc := false)
    requires done == Absorb(if Resets(r.flags) then Absorbing([]) else before, plain)
    requires after == if Emits(r.flags, r.len) then Finished else done
    requires Emits(kcop.flags, kcop.len) && done.Absorbing? ==>
               kcop.digestsize == h.digestsize && kcop.hashOutput == HashOutput(h, done.msg, output)
    requires !Emits(kcop.flags, kcop.len) ==> kcop.hashOutput == output
    ensures HashDone(h, r.flags, r.len, plain, before, after, kcop.digestsize, output, kcop.hashOutput)
  {
    assert [] + plain == plain;
    if done.Absorbing? {
      assert |h.digest(done.msg)| == h.digestsize;
    }
  }

  lemma OutsideRange(frame: PageTable, addr: nat, n: nat, a: nat)
    requires forall u: nat | addr <= u < addr + n :: UserAt(frame, u) != a
    ensures a !in Range(frame, addr, n)
  {
    forall i | 0 <= i < n ensures Range(frame, addr, n)[i] != a {
      assert Range(frame, addr, n)[i] == Phys(frame, addr + i) == UserAt(frame, addr + i);
    }
  }

  /** `crypto_run` on the session it has looked up. */
  method RunCall(s: Session, k: Kernel, w: World, kcop: KernelCryptOp, gotSrc: int, gotDst: int) returns (ret: int)
    requires s.Valid() && s.io.Valid() && kcop.Valid() && Machine(k.frame, w.bounce, |k.ram|)
    requires Provided(s.cfg, s.alignmask, kcop.Asked(), gotSrc, gotDst, k.frame, s.io.sg[0], |k.ram|)
    modifies kcop, s`iv, s`hash, k`ram, k`log, s.io, s.io.pages, s.io.sg
    ensures s.Valid() && s.io.Valid() && kcop.Valid()
    ensures forall m | 0 <= m <= PAGE_SIZE :: InRam(Bounce(w.bounce, m), |old(k.ram)|)
    ensures forall a, m :: InRam(Range(k.frame, a, m), |old(k.ram)|)
    ensures if kcop.op != COP_ENCRYPT && kcop.op != COP_DECRYPT then
              ret == EINVAL && s.View(k) == old(s.View(k)) && unchanged(kcop)
            else
              Ended(s, w, k.frame, old(s.io.sg[0]), TakesZeroCopy(s.alignmask, old(kcop.Asked()), gotSrc, gotDst),
                    old(s.View(k)), s.View(k), old(kcop.Asked()), kcop, old(kcop.iv), old(kcop.hashOutput), ret)
    ensures Backed(k.frame, |old(k.ram)|)
    ensures var r := Request(kcop.op == 0, old(kcop.flags), kcop.src, kcop.dst, kcop.len);
            (kcop.op == 0 || kcop.op == 1) && WholeBlocks(s.cfg, r.len) && Fits(s.cfg, w, k.frame, |old(k.ram)|, r) ==>
              ret == 0 && CallDone(s.cfg, k.frame, w.bounce, kcop.op, r.flags, r.src, r.dst, r.len, kcop.ivlen,
                                   old(s.View(k)), s.View(k), old(kcop.iv), kcop.iv, kcop.digestsize,
                                   old(kcop.hashOutput), kcop.hashOutput)
  {
    hide Ended, Machine, Bounce, Range, InRam, Provided, Lawful, LawfulHash, WholeBlocks, PageGranular, Fits, CallDone;
    hide Backed;
    MachineWide(k.frame, w.bounce, |k.ram|);
    MachineBacks(k.frame, w.bounce, |k.ram|);
    if kcop.op != COP_ENCRYPT && kcop.op != COP_DECRYPT {
      return EINVAL;
    }
    ghost var before, r, iv, output, stale := s.View(k), kcop.Asked(), kcop.iv, kcop.hashOutput, s.io.sg[0];
    ret := RunKnown(s, k, w, kcop, gotSrc, gotDst);
    if WholeBlocks(s.cfg, r.len) && Fits(s.cfg, w, k.frame, |before.ram|, r) {
      FittingMeans(s, w, k.frame, stale, TakesZeroCopy(s.alignmask, r, gotSrc, gotDst), before, s.View(k), r, kcop,
                   iv, output, ret);
    }
  }

  method RunKnown(s: Session, k: Kernel, w: World, kcop: KernelCryptOp, gotSrc: int, gotDst: int) returns (ret: int)
    requires s.Valid() && s.io.Valid() && kcop.Valid() && Machine(k.frame, w.bounce, |k.ram|)
    requires Provided(s.cfg, s.alignmask, kcop.Asked(), gotSrc, gotDst, k.frame, s.io.sg[0], |k.ram|)
    modifies kcop, s`iv, s`hash, k`ram, k`log, s.io, s.io.pages, s.io.sg
    ensures s.Valid() && s.io.Valid() && kcop.Valid()
    ensures forall m | 0 <= m <= PAGE_SIZE :: InRam(Bounce(w.bounce, m), |old(k.ram)|)
    ensures forall a, m :: InRam(Range(k.frame, a, m), |old(k.ram)|)
    ensures Ended(s, w, k.frame, old(s.io.sg[0]), TakesZeroCopy(s.alignmask, old(kcop.Asked()), gotSrc, gotDst),
                  old(s.View(k)), s.View(k), old(kcop.Asked()), kcop, old(kcop.iv), old(kcop.hashOutput), ret)
  {
    hide Completed, Machine, Bounce, Range, InRam, Provided, Lawful, LawfulHash, Overlay, Resets;
    hide WholeBlocks, PageGranular;
    MachineWide(k.frame, w.bounce, |k.ram|);
    var ok := Prepare(s, kcop, k);
    if !ok {
      return EINVAL;
    }
    ret := RunPrepared(s, k, w, kcop, gotSrc, gotDst);
  }

  method RunPrepared(s: Session, k: Kernel, w: World, kcop: KernelCryptOp, gotSrc: int, gotDst: int) returns (ret: int)
    requires s.Valid() && s.io.Valid() && kcop.Valid() && Machine(k.frame, w.bounce, |k.ram|)
    requires WholeBlocks(s.cfg, kcop.len)
    requires Provided(s.cfg, s.alignmask, kcop.Asked(), gotSrc, gotDst, k.frame, s.io.sg[0], |k.ram|)
    modifies kcop, s`iv, s`hash, k`ram, k`log, s.io, s.io.pages, s.io.sg
    ensures s.Valid() && s.io.Valid() && kcop.Valid()
    ensures forall m | 0 <= m <= PAGE_SIZE :: InRam(Bounce(w.bounce, m), |old(k.ram)|)
    ensures forall a, m :: InRam(Range(k.frame, a, m), |old(k.ram)|)
    ensures Completed(s, w, k.frame, old(s.io.sg[0]), TakesZeroCopy(s.alignmask, old(kcop.Asked()), gotSrc, gotDst),
                      old(s.View(k)), s.View(k), old(kcop.Asked()), kcop, old(kcop.iv), old(kcop.hashOutput), ret)
  {
    hide Machine, Bounce, Range, InRam, Executed, Provided, Lawful, LawfulHash, Overlay, PageGranular, WholeBlocks;
    ret := RunToEnd(s, k, w, kcop, gotSrc, gotDst);
    if ret == 0 {
      Report(s, kcop, k);
    }
  }

  /** The data phase keeps the session valid. */
  method RunToEnd(s: Session, k: Kernel, w: World, kcop: KernelCryptOp, gotSrc: int, gotDst: int) returns (ret: int)
    requires s.Valid() && s.io.Valid() && Machine(k.frame, w.bounce, |k.ram|)
    requires WholeBlocks(s.cfg, kcop.len)
    requires Provided(s.cfg, s.alignmask, kcop.Asked(), gotSrc, gotDst, k.frame, s.io.sg[0], |k.ram|)
    modifies kcop`flags, s`iv, s`hash, k`ram, k`log, s.io, s.io.pages, s.io.sg
    ensures s.Valid() && s.io.Valid() && (ret == 0 || ret == EFAULT) && |s.iv| == |old(s.iv)|
    ensures forall m | 0 <= m <= PAGE_SIZE :: InRam(Bounce(w.bounce, m), |old(k.ram)|)
    ensures forall a, m :: InRam(Range(k.frame, a, m), |old(k.ram)|)
    ensures kcop.flags == FlagsAfter(s.alignmask, old(kcop.Asked()))
    ensures Some(RunResult(ret, s.View(k))) ==
            Executed(s.cfg, w, k.frame, old(s.io.sg[0]), TakesZeroCopy(s.alignmask, old(kcop.Asked()), gotSrc, gotDst),
                     old(s.View(k)), old(kcop.Asked()))
  {
    hide Machine, Range, Bounce, InRam, ZcRun, StdRun, Provided, TakesZeroCopy, Lawful, LawfulHash, Balanced;
    hide PageGranular, Executed, WholeBlocks, FlagsAfter;
    MachineWide(k.frame, w.bounce, |k.ram|);
    ghost var start, r, stale := s.View(k), kcop.Asked(), s.io.sg[0];
    ret := RunData(s, k, w, kcop, gotSrc, gotDst);
    ExecutedReady(s.cfg, w, k.frame, stale, TakesZeroCopy(s.alignmask, r, gotSrc, gotDst), start, r);
  }

  /** A call on a session with only a hash is one step of the hash protocol over the source
      bytes, and the digest it hands out is that of the message so far. */
  lemma HashOnlyCall(s: Session, w: World, frame: PageTable, stale: Sg, zeroCopy: bool, before: Engine, after: Engine,
                     r: Request, kcop: KernelCryptOp, iv: seq<byte>, output: seq<byte>, ret: int)
    requires s.cfg.cipher.None? && s.cfg.hash.Some? && LawfulHash(s.cfg.hash.value)
    requires r.encrypt && Machine(frame, w.bounce, |before.ram|)
    requires r.len > 0 ==> r.src != 0 && Accessible(w.ok.read, r.src, r.len)
    requires |output| == AALG_MAX_RESULT_LEN && kcop.len == r.len && kcop.ivlen <= |iv| && kcop.Valid()
    requires forall m | 0 <= m <= PAGE_SIZE :: InRam(Bounce(w.bounce, m), |before.ram|)
    requires forall a, m :: InRam(Range(frame, a, m), |before.ram|)
    requires Ended(s, w, frame, stale, zeroCopy, before, after, r, kcop, iv, output, ret)
    ensures ret == 0 && SameRam(after.ram, before.ram, w.bounce)
    ensures IsHashCall(s.cfg.hash.value, frame,
                       HashCallRecord(before, r, after, kcop.hashOutput[..s.cfg.hash.value.digestsize]))
  {
    hide Range, InRam, Bounce, Machine, Accessible, Gather, SameRam, Resets, Ended;
    HashOnlyFits(s.cfg, w, frame, before, r);
    FittingCall(s, w, frame, stale, zeroCopy, before, after, r, kcop, iv, output, ret);
    OverlayNothing(before.iv, iv);
    HashCall(s.cfg, frame, before, r);
    var start := Prepared(s.cfg, before, r.flags, iv, kcop.ivlen);
    assert start == HashReady(s.cfg, before, r.flags);
    var done := Processed(s.cfg, frame, start, r);
    assert done.ram == before.ram;
    assert Emits(kcop.flags, kcop.len) == Emits(r.flags, r.len);
    var h := s.cfg.hash.value;
    assert done.hash.Absorbing? ==> |h.digest(done.hash.msg)| == h.digestsize;
  }

  lemma HashOnlyFits(cfg: Config, w: World, frame: PageTable, e: Engine, r: Request)
    requires cfg.cipher.None? && r.encrypt && (r.len > 0 ==> r.src != 0 && Accessible(w.ok.read, r.src, r.len))
    ensures Fits(cfg, w, frame, |e.ram|, r) && WholeBlocks(cfg, r.len) && PageGranular(cfg)
  {
  }

  /// Whole histories of a hash-only session

  /** One call: the state it met, what it asked for, the state it left, and the digest that its
      block held behind it. */
  datatype HashCallRecord = HashCallRecord(before: Engine, r: Request, after: Engine, digest: seq<byte>)

  /** The call as the hash protocol sees it. */
  function CallOf(frame: PageTable, c: HashCallRecord): (call: Call)
    requires InRam(Range(frame, c.r.src, c.r.len), |c.before.ram|)
    ensures |call.data| == c.r.len
  {
    Call(c.r.flags, Gather(c.before.ram, Range(frame, c.r.src, c.r.len)))
  }

  /** The call is one step of the hash protocol over the source bytes, and a digest that it hands
      out is that of the message so far. */
  ghost predicate IsHashCall(h: Hash, frame: PageTable, c: HashCallRecord) {
    && InRam(Range(frame, c.r.src, c.r.len), |c.before.ram|)
    && c.after.hash == AfterCall(c.before.hash, CallOf(frame, c))
    && (Emits(c.r.flags, c.r.len) && Fed(c.before.hash, CallOf(frame, c)).Absorbing? ==>
          c.digest == h.digest(Fed(c.before.hash, CallOf(frame, c)).msg))
  }

  /** The calls on one session from its creation on.  Between two calls the memory may change in
      any way; the hash does not. */
  ghost predicate HashHistory(h: Hash, frame: PageTable, calls: seq<HashCallRecord>) {
    forall i | 0 <= i < |calls| ::
      && IsHashCall(h, frame, calls[i])
      && calls[i].before.hash == if i == 0 then Absorbing([]) else calls[i - 1].after.hash
  }

  function Sources(frame: PageTable, calls: seq<HashCallRecord>): (r: seq<Call>)
    requires forall i | 0 <= i < |calls| :: InRam(Range(frame, calls[i].r.src, calls[i].r.len), |calls[i].before.ram|)
    ensures |r| == |calls| && forall i | 0 <= i < |calls| :: r[i] == CallOf(frame, calls[i])
  {
    seq(|calls|, i requires 0 <= i < |calls| => CallOf(frame, calls[i]))
  }

  /** The hash that a call of the history meets. */
  lemma {:induction false} HistoryMeets(h: Hash, frame: PageTable, calls: seq<HashCallRecord>, n: nat)
    requires HashHistory(h, frame, calls) && n < |calls|
    ensures calls[n].before.hash == AfterCalls(Sources(frame, calls)[..n])
  {
    hide CallOf, AfterCall, InRam;
    assert IsHashCall(h, frame, calls[n]);
    if n > 0 {
      HistoryMeets(h, frame, calls, n - 1);
      var all := Sources(frame, calls);
      assert all[..n] == all[..n - 1] + [all[n - 1]];
      AfterStep(all[..n - 1], all[n - 1]);
      assert IsHashCall(h, frame, calls[n - 1]);
    } else {
      assert Sources(frame, calls)[..0] == [];
    }
  }

  /** Whatever the memory does in between, a digest that a call hands out, when none has been
      since the last reset, is that of all source bytes since that reset. */
  lemma DigestOfAllSources(h: Hash, frame: PageTable, calls: seq<HashCallRecord>, n: nat)
    requires HashHistory(h, frame, calls) && n < |calls| && Emits(calls[n].r.flags, calls[n].r.len)
    requires Resets(calls[n].r.flags) || !Taken(Sources(frame, calls)[..n])
    ensures calls[n].digest == h.digest(Message(Sources(frame, calls)[..n + 1]))
  {
    hide InRam, Emits, Resets, Taken, Message, Fed;
    HistoryMeets(h, frame, calls, n);
    var all := Sources(frame, calls);
    assert all[..n + 1] == all[..n] + [all[n]] && all[n] == CallOf(frame, calls[n]);
    assert all[n].flags == calls[n].r.flags;
    DigestIsOfWholeMessage(all[..n], all[n]);
    assert IsHashCall(h, frame, calls[n]);
  }

  /** Encrypting and then decrypting in place with the same IV gives the source bytes back and
      ends with the same hash, whichever paths the two calls take. */
  lemma CallsRoundTrip(cfg: Config, w: World, frame: PageTable, stale: Sg, e: Engine, r: Request,
                       first: bool, second: bool)
    requires cfg.cipher.Some? && r.encrypt && r.len > 0 && r.src != 0 && r.dst != 0
    requires Ready(cfg, e) && PageGranular(cfg) && WholeBlocks(cfg, r.len)
    requires Buffers(frame, w.ok, w.bounce, |e.ram|, r.src, r.dst, r.len)
    requires Accessible(w.ok.read, r.dst, r.len)
    ensures (forall m | 0 <= m <= PAGE_SIZE :: InRam(Bounce(w.bounce, m), |e.ram|))
         && (forall a, m :: InRam(Range(frame, a, m), |e.ram|))
    ensures var there := Executed(cfg, w, frame, stale, first, e, r);
            && there.Some? && there.value.ret == 0
            && var back := Executed(cfg, w, frame, stale, second, e.(ram := there.value.engine.ram),
                                    r.(encrypt := false, src := r.dst));
            && back.Some? && back.value.ret == 0
            && Gather(back.value.engine.ram, Range(frame, r.dst, r.len)) == Gather(e.ram, Range(frame, r.src, r.len))
            && back.value.engine.hash == there.value.engine.hash && back.value.engine.iv == there.value.engine.iv
  {
    hide Machine, Accessible, Range, InRam, Bounce, Gather, Lists, HashNCrypt, StdRun, ZcRun, Lawful;
    hide WholeBlocks, PageGranular, SameRam, Executed;
    BuffersMachine(frame, w.ok, w.bounce, |e.ram|, r.src, r.dst, r.len);
    MachineWide(frame, w.bounce, |e.ram|);
    var s, d, q := Range(frame, r.src, r.len), Range(frame, r.dst, r.len), r.(encrypt := false, src := r.dst);
    SelfLists(|e.ram|, s, d);
    LengthOfRange(frame, r.src, r.len);
    PathIsInvisible(cfg, w, frame, stale, first, e, r);
    var there, clean := Executed(cfg, w, frame, stale, first, e, r).value.engine, Processed(cfg, frame, e, r);
    PathIsInvisible(cfg, w, frame, stale, second, e.(ram := there.ram), q);
    var back := Executed(cfg, w, frame, stale, second, e.(ram := there.ram), q).value.engine;
    SameWorld(cfg, false, e.(ram := there.ram), e.(ram := clean.ram), frame, w.bounce, r.dst, r.dst, r.len);
    EngineTrans(back, Processed(cfg, frame, e.(ram := there.ram), q),
                HashNCrypt(cfg, false, e.(ram := clean.ram), d, d), w.bounce);
    PassRoundTrip(cfg, e, s, d);
    RangeInMachine(frame, w.bounce, |e.ram|, r.dst, r.len);
    SameGather(back.ram, HashNCrypt(cfg, false, e.(ram := clean.ram), d, d).ram, w.bounce, d);
  }
}
