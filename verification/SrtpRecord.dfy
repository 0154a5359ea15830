/**
 SRTP packets: encrypt in place, then authenticate the region around it (section 3.3 of RFC 3711).

 The authenticated region is one buffer; the encrypted part starts `diff` bytes into it.
 */
module SrtpRecord {
  import opened Bytes
  import opened Ciphers
  import opened Scatterlist
  import opened UserPages
  import opened CryptoRun
  import opened CryptoOps
  import opened AuthRecord
  import opened AuthMapping

  /** The cipher takes the encrypted part. */
  predicate Takes(cfg: Config, len: nat)
    requires cfg.cipher.Some? ==> cfg.cipher.value.blocksize > 0
  {
    cfg.cipher.Some? ==> len % cfg.cipher.value.blocksize == 0
  }

  /** The region with its encrypted part passed through the cipher. */
  function Region(cfg: Config, encrypt: bool, iv: seq<byte>, r: seq<byte>, diff: nat, len: nat): seq<byte>
    requires diff + len <= |r|
  {
    if cfg.cipher.None? then r
    else r[..diff] + Crypt(cfg.cipher.value, encrypt, iv, r[diff..diff + len]).data + r[diff + len..]
  }

  /** The IV that this leaves. */
  function IvLeft(cfg: Config, encrypt: bool, iv: seq<byte>, r: seq<byte>, diff: nat, len: nat): seq<byte>
    requires diff + len <= |r|
  {
    if cfg.cipher.None? then iv else Crypt(cfg.cipher.value, encrypt, iv, r[diff..diff + len]).iv
  }

  /** The outcome of a decryption: the return value and the region. */
  datatype Opening = Opening(ret: int, region: seq<byte>)

  /** Decryption of a region with the tag that came with it; None if the tag cannot be read. */
  function Unprotect(cfg: Config, iv: seq<byte>, r: seq<byte>, diff: nat, len: nat, tag: Option<seq<byte>>,
                     tagLen: nat, buffer: seq<byte>): Opening
    requires diff + len <= |r| && |buffer| >= AALG_MAX_RESULT_LEN && Usable(cfg, iv)
  {
    if cfg.hash.Some? && (tagLen > AALG_MAX_RESULT_LEN || tagLen > len) then Opening(EINVAL, r)
    else if cfg.hash.Some? && tag.None? then Opening(EFAULT, r)
    else if cfg.hash.Some? && tag.value != Tag(cfg.hash.value, r, buffer, tagLen) then Opening(EBADMSG, r)
    else if !Takes(cfg, len) then Opening(EINVAL, r)
    else Opening(0, Region(cfg, false, iv, r, diff, len))
  }

  /** An operation that is refused changes no byte. */
  lemma RefusalChangesNothing(cfg: Config, iv: seq<byte>, r: seq<byte>, diff: nat, len: nat, tag: Option<seq<byte>>,
                              tagLen: nat, buffer: seq<byte>)
    requires diff + len <= |r| && |buffer| >= AALG_MAX_RESULT_LEN && Usable(cfg, iv)
    ensures var o := Unprotect(cfg, iv, r, diff, len, tag, tagLen, buffer);
            && |o.region| == |r| && o.region[..diff] == r[..diff] && o.region[diff + len..] == r[diff + len..]
            && (o.ret != 0 ==> o.region == r)
            && (o.ret == EBADMSG <==> cfg.hash.Some? && tagLen <= AALG_MAX_RESULT_LEN && tagLen <= len && tag.Some?
                                      && tag.value != Tag(cfg.hash.value, r, buffer, tagLen))
  {
    if cfg.cipher.Some? && Takes(cfg, len) {
      assert KeepsLength(cfg.cipher.value, false, iv, r[diff..diff + len]);
    }
  }

  /// Round trip

  lemma RegionRoundTrip(cfg: Config, iv: seq<byte>, r: seq<byte>, diff: nat, len: nat)
    requires diff + len <= |r| && Usable(cfg, iv) && Takes(cfg, len)
    ensures var e := Region(cfg, true, iv, r, diff, len);
            |e| == |r| && Region(cfg, false, iv, e, diff, len) == r
  {
    if cfg.cipher.Some? {
      var t, x := cfg.cipher.value, r[diff..diff + len];
      assert KeepsLength(t, true, iv, x) && Inverts(t, iv, x);
      var e := Region(cfg, true, iv, r, diff, len);
      assert e[diff..diff + len] == t.enc(iv, x).data && e[..diff] == r[..diff] && e[diff + len..] == r[diff + len..];
      assert r[..diff] + x + r[diff + len..] == r;
    }
  }

  ghost predicate Restored(cfg: Config, iv: seq<byte>, r: seq<byte>, diff: nat, len: nat, tagLen: nat,
                           b1: seq<byte>, b2: seq<byte>)
    requires cfg.hash.Some? && Usable(cfg, iv) && diff + len <= |r| && Stack(b1, tagLen) && Stack(b2, tagLen)
  {
    var e := Region(cfg, true, iv, r, diff, len);
    |e| == |r| &&
    Unprotect(cfg, iv, e, diff, len, Some(Tag(cfg.hash.value, e, b1, tagLen)), tagLen, b2) == Opening(0, r)
  }

  /** Decrypting an encrypted packet accepts it and restores every authenticated byte, whatever
      the stack held on either side, if and only if the tag is no longer than the digest and
      than the encrypted part. */
  lemma RoundTrip(cfg: Config, iv: seq<byte>, r: seq<byte>, diff: nat, len: nat, tagLen: nat)
    requires cfg.hash.Some? && Usable(cfg, iv) && diff + len <= |r| && Takes(cfg, len)
    ensures (forall b1, b2 | Stack(b1, tagLen) && Stack(b2, tagLen) ::
               Restored(cfg, iv, r, diff, len, tagLen, b1, b2))
            <==> tagLen <= cfg.hash.value.digestsize && tagLen <= len
  {
    hide Lawful, LawfulHash, Tag, Region, Takes;
    RegionRoundTrip(cfg, iv, r, diff, len);
    var h, e := cfg.hash.value, Region(cfg, true, iv, r, diff, len);
    DigestFits(h);
    if tagLen <= h.digestsize && tagLen <= len {
      forall b1, b2 | Stack(b1, tagLen) && Stack(b2, tagLen)
        ensures Restored(cfg, iv, r, diff, len, tagLen, b1, b2)
      {
        ShortTag(h, e, b1, b2, tagLen);
      }
    } else if tagLen > h.digestsize {
      var b1, b2 := LongTag(h, e, e, tagLen);
      assert !Restored(cfg, iv, r, diff, len, tagLen, b1, b2);
    } else {
      var b: seq<byte> := seq(AALG_MAX_RESULT_LEN, _ => 0);
      assert Stack(b, tagLen) && !Restored(cfg, iv, r, diff, len, tagLen, b, b);
    }
  }

  /// The driver's steps

  method HashList(s: Session, k: Kernel, auth: seq<nat>, buffer: seq<byte>) returns (output: seq<byte>)
    requires s.Valid() && s.cfg.hash.Some? && FreshHash(s) && |buffer| >= AALG_MAX_RESULT_LEN
    requires InRam(auth, |k.ram|)
    modifies s`hash
    ensures s.Valid() && s.hash == Finished
    ensures output == HashOutput(s.cfg.hash.value, Gather(k.ram, auth), buffer)
  {
    assert [] + Gather(k.ram, auth) == Gather(k.ram, auth);
    s.hash := Absorb(s.hash, Gather(k.ram, auth));
    output := HashFinal(s, buffer);
  }

  /** The cipher in place on the first `len` bytes of the dst list, which is the auth list from
      byte `diff` on: seen through the auth list, the encrypted part of the region changes. */
  method CipherTail(s: Session, k: Kernel, encrypt: bool, auth: seq<nat>, dst: seq<nat>, ghost diff: nat, len: nat)
    returns (ret: int)
    requires s.Valid() && s.cfg.cipher.Some? && Addressable(k.ram, auth)
    requires diff + len <= |auth| && dst == auth[diff..]
    modifies s`iv, k`ram
    ensures s.Valid() && Addressable(k.ram, auth) && ret == if Takes(s.cfg, len) then 0 else EINVAL
    ensures ret != 0 ==> k.ram == old(k.ram) && s.iv == old(s.iv)
    ensures ret == 0 ==>
              && Gather(k.ram, auth) == Region(s.cfg, encrypt, old(s.iv), Gather(old(k.ram), auth), diff, len)
              && OnlyAt(auth, old(k.ram), k.ram)
              && s.iv == IvLeft(s.cfg, encrypt, old(s.iv), Gather(old(k.ram), auth), diff, len)
  {
    hide Lawful, LawfulHash, Gather, InRam, Distinct, OnlyAt;
    var t := s.cfg.cipher.value;
    var list := dst[..len];
    assert list == auth[diff..diff + len];
    PartInRam(k.ram, auth, diff, len);
    var data := Gather(k.ram, list);
    CryptKeepsLength(t, encrypt, s.iv, data);
    if len % t.blocksize != 0 {
      return EINVAL;
    }
    var o := Crypt(t, encrypt, s.iv, data);
    PartOfList(k.ram, auth, diff, o.data);
    k.ram, s.iv := Scatter(k.ram, list, o.data), o.iv;
    ret := 0;
  }

  lemma PartInRam(ram: seq<byte>, auth: seq<nat>, diff: nat, len: nat)
    requires InRam(auth, |ram|) && diff + len <= |auth|
    ensures InRam(auth[diff..diff + len], |ram|)
    ensures |Gather(ram, auth[diff..diff + len])| == len
  {
  }

  /** `srtp_auth_n_crypt`, encrypting.  `writable` says whether the user's tag can be written;
      the tag is returned. */
  method SrtpEncrypt(s: Session, k: Kernel, kcop: KernelAuthOp, auth: seq<nat>, dst: seq<nat>, ghost diff: nat,
                     writable: bool, buffer: seq<byte>) returns (ret: int, tag: Option<seq<byte>>)
    requires s.Valid() && FreshHash(s) && |buffer| >= AALG_MAX_RESULT_LEN
    requires Addressable(k.ram, auth) && diff + kcop.len <= |auth| && dst == auth[diff..]
    requires s.cfg.hash.Some? ==> Stack(buffer, kcop.tagLen)
    modifies s`iv, s`hash, k`ram, kcop`dstLen
    ensures s.Valid() && Addressable(k.ram, auth) && OnlyAt(auth, old(k.ram), k.ram)
    ensures ret == if !Takes(s.cfg, kcop.len) then EINVAL else if s.cfg.hash.Some? && !writable then EFAULT else 0
    ensures Gather(k.ram, auth) == if ret == EINVAL then Gather(old(k.ram), auth)
                          else Region(s.cfg, true, old(s.iv), Gather(old(k.ram), auth), diff, kcop.len)
    ensures tag == if ret == 0 && s.cfg.hash.Some?
                   then Some(Tag(s.cfg.hash.value, Gather(k.ram, auth), buffer, kcop.tagLen)) else None
    ensures kcop.dstLen == if ret == 0 then kcop.len else old(kcop.dstLen)
    ensures s.iv == if ret == EINVAL then old(s.iv)
                    else IvLeft(s.cfg, true, old(s.iv), Gather(old(k.ram), auth), diff, kcop.len)
  {
    hide Lawful, LawfulHash, HashOutput, Gather, InRam, Distinct, OnlyAt;
    NothingChanged(auth, k.ram);
    ret, tag := 0, None;
    if s.cfg.cipher.Some? {
      ret := CipherTail(s, k, true, auth, dst, diff, kcop.len);
      if ret != 0 {
        return;
      }
    }
    if s.cfg.hash.Some? {
      var output := HashList(s, k, auth, buffer);
      if !writable {
        return EFAULT, None;
      }
      tag := Some(output[..kcop.tagLen]);
    }
    kcop.dstLen := kcop.len;
  }

  /** `srtp_auth_n_crypt`, decrypting; `tag` is None if the user's tag cannot be read. */
  method SrtpDecrypt(s: Session, k: Kernel, kcop: KernelAuthOp, auth: seq<nat>, dst: seq<nat>, ghost diff: nat,
                     tag: Option<seq<byte>>, buffer: seq<byte>) returns (ret: int)
    requires s.Valid() && FreshHash(s) && |buffer| >= AALG_MAX_RESULT_LEN
    requires Addressable(k.ram, auth) && diff + kcop.len <= |auth| && dst == auth[diff..]
    modifies s`iv, s`hash, k`ram, kcop`dstLen
    ensures s.Valid() && Addressable(k.ram, auth)
    ensures Opening(ret, Gather(k.ram, auth)) ==
            Unprotect(s.cfg, old(s.iv), Gather(old(k.ram), auth), diff, kcop.len, tag, kcop.tagLen, buffer)
    ensures OnlyAt(auth, old(k.ram), k.ram) && (ret != 0 ==> k.ram == old(k.ram))
    ensures kcop.dstLen == if ret == 0 then kcop.len else old(kcop.dstLen)
    ensures s.iv == if ret != 0 then old(s.iv)
                    else IvLeft(s.cfg, false, old(s.iv), Gather(old(k.ram), auth), diff, kcop.len)
  {
    hide Lawful, LawfulHash, HashOutput, Gather, InRam, Distinct, OnlyAt;
    NothingChanged(auth, k.ram);
    ret := 0;
    if s.cfg.hash.Some? {
      if kcop.tagLen > AALG_MAX_RESULT_LEN || kcop.tagLen > kcop.len {
        return EINVAL;
      }
      if tag.None? {
        return EFAULT;
      }
      var output := HashList(s, k, auth, buffer);
      if tag.value != output[..kcop.tagLen] {
        return EBADMSG;
      }
    }
    if s.cfg.cipher.Some? {
      ret := CipherTail(s, k, false, auth, dst, diff, kcop.len);
      if ret != 0 {
        return;
      }
    }
    kcop.dstLen := kcop.len;
  }

  /// The whole operation

  /** What the user passes, apart from the call block, and what pinning its pages gives. */
  datatype Packet = Packet(src: nat, authSrc: nat, authLen: nat, got: int)

  /** The call gets as far as the guards on its lengths. */
  predicate Reaches(cfg: Config, kcop: KernelAuthOp, stream: bool) {
    (kcop.op == COP_ENCRYPT || kcop.op == COP_DECRYPT) && cfg.cipher.Some? && stream
  }

  /** The call gets past them. */
  predicate Guarded(cfg: Config, kcop: KernelAuthOp, dstLen: nat, stream: bool, u: Packet) {
    Reaches(cfg, kcop, stream) && PassesGuards(u.src, u.src, u.authSrc, u.authLen, dstLen)
  }

  /** The call gets as far as its data. */
  predicate Accepts(cfg: Config, kcop: KernelAuthOp, dstLen: nat, stream: bool, u: Packet, frame: PageTable,
                    stale: Sg)
  {
    Reaches(cfg, kcop, stream) && Maps(frame, u.src, u.src, u.authSrc, u.authLen, dstLen, u.got, stale)
  }

  /** `crypto_auth_run` for an SRTP operation on user memory.  It works on the user's auth buffer,
      or, if that is null and the call gets past the guards, on what the first entry of the
      session's table held before.  `received` is the user's tag before the call, None if it
      cannot be read.

      Every page put had been pinned exactly if the call stops at a guard or the auth buffer is
      not null; every page pinned is put again exactly if, moreover, pinning did not fail half
      way. */
  method SrtpRun(s: Session, k: Kernel, kcop: KernelAuthOp, u: Packet, stream: bool, received: Option<seq<byte>>,
                 writable: bool, buffer: seq<byte>) returns (ret: int, tag: Option<seq<byte>>)
    requires s.Valid() && s.io.Valid() && kcop.Valid() && |buffer| >= AALG_MAX_RESULT_LEN
    requires u.got <= PageCount(u.authSrc, u.authLen)
    requires Accepts(s.cfg, kcop, kcop.dstLen, stream, u, k.frame, s.io.sg[0]) ==>
               var mem := AuthMemory(k.frame, u.authSrc, u.authLen, s.io.sg[0]);
               && Addressable(k.ram, mem) && |mem| == u.authLen
               && Int32(u.src - u.authSrc) + kcop.len <= u.authLen
    requires kcop.op == COP_ENCRYPT && s.cfg.hash.Some? ==> Stack(buffer, kcop.tagLen)
    modifies s`iv, s`hash, s.io, s.io.pages, s.io.sg, k`ram, k`log, kcop`dstLen, kcop`iv
    ensures s.Valid() && s.io.Valid() && kcop.Valid()
    ensures var past := Guarded(s.cfg, kcop, old(kcop.dstLen), stream, u);
            && (PutsPinned(old(k.log), k.log) <==> !past || u.authSrc != 0)
            && (Balanced(old(k.log), k.log) <==>
                  !past || (u.authSrc != 0 && (u.got <= 0 || u.got == PageCount(u.authSrc, u.authLen))))
    ensures !Accepts(s.cfg, kcop, old(kcop.dstLen), stream, u, k.frame, old(s.io.sg[0])) ==>
              ret == EINVAL && k.ram == old(k.ram)
    ensures Accepts(s.cfg, kcop, old(kcop.dstLen), stream, u, k.frame, old(s.io.sg[0])) ==>
              var mem := AuthMemory(k.frame, u.authSrc, u.authLen, old(s.io.sg[0]));
              var iv := Overlay(old(s.iv), old(kcop.iv), IvBytes(s.cfg, kcop.ivlen));
              Done(s.cfg, kcop, mem, iv, Int32(u.src - u.authSrc), old(k.ram), k.ram, received, writable, buffer,
                   ret, tag, s.iv)
    ensures kcop.dstLen == if ret == 0 then kcop.len else old(kcop.dstLen)
    ensures kcop.iv == if ret == 0 then Overlay(old(kcop.iv), s.iv, IvBytes(s.cfg, kcop.ivlen)) else old(kcop.iv)
  {
    hide Lawful, LawfulHash, Overlay, Gather, InRam, Distinct, Range, List, PageCount, Frames, Pins, Release, Held;
    hide Flushed, Balanced, PutsPinned, OnlyAt, Unprotect, Region, IvLeft, Tag, AuthMemory, MappingLog, Done;
    NothingLogged(k.log);
    tag := None;
    ret := AuthPrepare(s, kcop);
    if ret != 0 {
      return;
    }
    if !stream {
      return EINVAL, None;
    }
    ghost var mem := AuthMemory(k.frame, u.authSrc, u.authLen, s.io.sg[0]);
    var dstSg;
    ret, dstSg := GetUserbufSrtp(s.io, k, u.src, u.src, u.authSrc, u.authLen, kcop.dstLen, u.got);
    if ret != 0 {
      return;
    }
    var auth, dst := List(s.io.sg[..], 0)[..u.authLen], List(s.io.sg[..], dstSg);
    ghost var pages, iv, was := s.io.pages[..s.io.usedPages], s.iv, k.ram;
    ghost var diff := Int32(u.src - u.authSrc);
    if kcop.op == COP_ENCRYPT {
      ret, tag := SrtpEncrypt(s, k, kcop, auth, dst, diff, writable, buffer);
      EncryptDone(s.cfg, kcop, mem, iv, diff, was, k.ram, received, writable, buffer, ret, tag, s.iv);
    } else {
      ret := SrtpDecrypt(s, k, kcop, auth, dst, diff, received, buffer);
      DecryptDone(s.cfg, kcop, mem, iv, diff, was, k.ram, received, writable, buffer, ret, tag, s.iv);
    }
    ReleaseUserPages(s.io, k);
    MappingReleased(old(k.log), k.log, k.frame, k.reserved, u.authSrc, u.authLen, u.got, pages);
    if ret == 0 {
      kcop.iv := Overlay(kcop.iv, s.iv, IvBytes(s.cfg, kcop.ivlen));
    }
  }

  /** What an accepted call does to the memory it works on, what it reports, and the IV it leaves:
      the part behind byte `diff` goes through the session's cipher, and the tag is the front of
      the digest of the whole region as it is sent or received. */
  ghost predicate Done(cfg: Config, kcop: KernelAuthOp, mem: seq<nat>, iv: seq<byte>, diff: nat, before: seq<byte>,
                       after: seq<byte>, received: Option<seq<byte>>, writable: bool, buffer: seq<byte>,
                       ret: int, tag: Option<seq<byte>>, left: seq<byte>)
    requires Usable(cfg, iv) && |buffer| >= AALG_MAX_RESULT_LEN && diff + kcop.len <= |mem| && cfg.cipher.Some?
    requires InRam(mem, |before|) && (kcop.op == COP_ENCRYPT && cfg.hash.Some? ==> Stack(buffer, kcop.tagLen))
  {
    var t, r, end, n := cfg.cipher.value, Gather(before, mem), diff + kcop.len, kcop.tagLen;
    var whole, h := kcop.len % t.blocksize == 0, cfg.hash;
    var rest := if h.Some? then buffer[h.value.digestsize..] else [];
    && OnlyAt(mem, before, after) && InRam(mem, |after|)
    && var now := Gather(after, mem);
    && now[..diff] == r[..diff] && now[end..] == r[end..]
    && (kcop.op == COP_ENCRYPT ==>
          && ret == (if !whole then -22 else if h.Some? && !writable then -14 else 0)
          && now[diff..end] == (if whole then t.enc(iv, r[diff..end]).data else r[diff..end])
          && left == (if whole then t.enc(iv, r[diff..end]).iv else iv)
          && tag == if ret == 0 && h.Some? then Some((h.value.digest(now) + rest)[..n]) else None)
    && (kcop.op == COP_DECRYPT ==>
          && ret == (if h.Some? && (n > 64 || n > kcop.len) then -22
                     else if h.Some? && received.None? then -14
                     else if h.Some? && received.value != (h.value.digest(r) + rest)[..n] then -74
                     else if !whole then -22 else 0)
          && now[diff..end] == (if ret == 0 then t.dec(iv, r[diff..end]).data else r[diff..end])
          && left == if ret == 0 then t.dec(iv, r[diff..end]).iv else iv)
  }

  lemma RegionParts(cfg: Config, encrypt: bool, iv: seq<byte>, r: seq<byte>, diff: nat, len: nat)
    requires Usable(cfg, iv) && cfg.cipher.Some? && diff + len <= |r|
    ensures cfg.cipher.value.blocksize > 0
    ensures Takes(cfg, len) ==>
              var t, now := cfg.cipher.value, Region(cfg, encrypt, iv, r, diff, len);
              && |now| == |r| && now[..diff] == r[..diff] && now[diff + len..] == r[diff + len..]
              && now[diff..diff + len] == Crypt(t, encrypt, iv, r[diff..diff + len]).data
  {
    CryptKeepsLength(cfg.cipher.value, encrypt, iv, r[diff..diff + len]);
    hide Lawful, LawfulHash;
  }

  lemma EncryptDone(cfg: Config, kcop: KernelAuthOp, mem: seq<nat>, iv: seq<byte>, diff: nat, before: seq<byte>,
                    after: seq<byte>, received: Option<seq<byte>>, writable: bool, buffer: seq<byte>, ret: int,
                    tag: Option<seq<byte>>, left: seq<byte>)
    requires Usable(cfg, iv) && |buffer| >= AALG_MAX_RESULT_LEN && diff + kcop.len <= |mem| && cfg.cipher.Some?
    requires InRam(mem, |before|) && kcop.op == COP_ENCRYPT && (cfg.hash.Some? ==> Stack(buffer, kcop.tagLen))
    requires OnlyAt(mem, before, after) && InRam(mem, |after|)
    requires ret == if !Takes(cfg, kcop.len) then EINVAL else if cfg.hash.Some? && !writable then EFAULT else 0
    requires Gather(after, mem) == if ret == EINVAL then Gather(before, mem)
                          else Region(cfg, true, iv, Gather(before, mem), diff, kcop.len)
    requires tag == if ret == 0 && cfg.hash.Some?
                    then Some(Tag(cfg.hash.value, Gather(after, mem), buffer, kcop.tagLen)) else None
    requires left == if ret == EINVAL then iv else IvLeft(cfg, true, iv, Gather(before, mem), diff, kcop.len)
    ensures Done(cfg, kcop, mem, iv, diff, before, after, received, writable, buffer, ret, tag, left)
  {
    RegionParts(cfg, true, iv, Gather(before, mem), diff, kcop.len);
    hide Lawful, LawfulHash, OnlyAt, InRam, Gather, Region;
  }

  lemma DecryptDone(cfg: Config, kcop: KernelAuthOp, mem: seq<nat>, iv: seq<byte>, diff: nat, before: seq<byte>,
                    after: seq<byte>, received: Option<seq<byte>>, writable: bool, buffer: seq<byte>, ret: int,
                    tag: Option<seq<byte>>, left: seq<byte>)
    requires Usable(cfg, iv) && |buffer| >= AALG_MAX_RESULT_LEN && diff + kcop.len <= |mem| && cfg.cipher.Some?
    requires InRam(mem, |before|) && kcop.op == COP_DECRYPT
    requires OnlyAt(mem, before, after) && InRam(mem, |after|)
    requires Opening(ret, Gather(after, mem)) ==
             Unprotect(cfg, iv, Gather(before, mem), diff, kcop.len, received, kcop.tagLen, buffer)
    requires left == if ret != 0 then iv else IvLeft(cfg, false, iv, Gather(before, mem), diff, kcop.len)
    ensures Done(cfg, kcop, mem, iv, diff, before, after, received, writable, buffer, ret, tag, left)
  {
    RegionParts(cfg, false, iv, Gather(before, mem), diff, kcop.len);
    hide Lawful, LawfulHash, OnlyAt, InRam, Gather, Region;
  }

  /** A null auth buffer and a source at address 1 pass the guards, and whether the lists are
      found or not, the page that the table held from before is put once without a pin. */
  lemma NullAuthBufferPutsUnpinned(frame: PageTable, reserved: nat -> bool, page: nat, got: int)
    ensures PassesGuards(1, 1, 0, 16, 16) && PageCount(0, 16) == 1
    ensures var failed := MappingLog(frame, reserved, 0, 16, got, [page], false);
            var released := MappingLog(frame, reserved, 0, 16, got, [page], true) + Release([page], 0, reserved);
            failed == released && Held(failed, page) == -1
  {
    hide Held, Release;
    ReleaseBalancesPins([page], 0, reserved, page);
    assert Pins([page]) == [Pin(page)];
    assert MappingLog(frame, reserved, 0, 16, got, [page], false) == Release([page], 0, reserved);
    HeldOne(Pin(page), page);
  }
}
