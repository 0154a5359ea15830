/**
 The lists of the authenticated operations: the record of a TLS operation, and for SRTP two
 that overlap, the authenticated region and its tail that is to be encrypted in place.
 */
module AuthMapping {
  import opened Scatterlist
  import opened UserPages

  /** The cast of a pointer difference to a 32-bit int. */
  function Int32(x: int): int {
    (x + 0x8000_0000) % 0x1_0000_0000 - 0x8000_0000
  }

  /** The cast keeps exactly the differences below 2 GB: farther away, a source outside the
      authenticated buffer passes for one inside it. */
  lemma Int32Exact(x: int)
    ensures Int32(x) == x <==> -0x8000_0000 <= x < 0x8000_0000
    ensures Int32(x + 0x1_0000_0000) == Int32(x)
  {
  }

  lemma {:induction false} ReachBound(t: seq<Sg>, i: nat, e: nat, len: nat)
    requires EndsAt(t, i, e)
    ensures Reach(t, i, len) <= e - i + 1
    decreases e - i
  {
    if i < e && len > t[i].length {
      ReachBound(t, i + 1, e, len - t[i].length);
    }
  }

  lemma RangeTail(frame: PageTable, addr: nat, len: nat, d: nat)
    requires d <= len
    ensures Range(frame, addr, len)[d..] == Range(frame, addr + d, len - d)
  {
    hide Phys;
    forall i | 0 <= i < len - d ensures Range(frame, addr, len)[d..][i] == Range(frame, addr + d, len - d)[i] {
      assert addr + (d + i) == addr + d + i;
    }
  }

  lemma BlankEnds(t: seq<Sg>, i: nat, n: nat)
    requires n > 0 && i + n <= |t| && t[i..i + n] == Blank(n)
    ensures EndsAt(t, i, i + n - 1) && forall k | i <= k < i + n :: t[k].length == 0
  {
    forall k | i <= k < i + n ensures (t[k].last <==> k == i + n - 1) && t[k].length == 0 {
      assert t[k] == t[i..i + n][k - i];
    }
  }

  /** The calls that get past the guards on lengths and distance. */
  predicate PassesGuards(src: nat, dst: nat, authSrc: nat, authLen: nat, dstLen: nat) {
    && (dst != 0 || authSrc != 0) && dstLen != 0 && authLen != 0
    && 0 <= Int32(src - authSrc) <= MAX_SRTP_AUTH_DATA_DIFF
  }

  /** For addresses less than 2 GB apart the guards let through exactly the sources that lie at
      most 256 bytes behind the start of the auth buffer, with lengths and a buffer given. */
  lemma GuardsMean(src: nat, dst: nat, authSrc: nat, authLen: nat, dstLen: nat)
    requires -0x8000_0000 <= src - authSrc < 0x8000_0000
    ensures PassesGuards(src, dst, authSrc, authLen, dstLen) <==>
              (dst != 0 || authSrc != 0) && dstLen > 0 && authLen > 0 && authSrc <= src <= authSrc + 256
  {
    Int32Exact(src - authSrc);
  }

  /** The addresses that the operation takes for the auth buffer: the buffer, or if its address
      is null, what the first entry of the table still held from before. */
  function AuthMemory(frame: PageTable, authSrc: nat, authLen: nat, stale: Sg): (r: seq<nat>)
    ensures |r| <= authLen
  {
    if authSrc != 0 then Range(frame, authSrc, authLen) else Front(Addrs(stale), authLen)
  }

  /** The mapping finds its two lists. */
  predicate Maps(frame: PageTable, src: nat, dst: nat, authSrc: nat, authLen: nat, dstLen: nat, got: int, stale: Sg) {
    && PassesGuards(src, dst, authSrc, authLen, dstLen)
    && (authSrc != 0 ==> got == PageCount(authSrc, authLen))
    && Int32(src - authSrc) < |AuthMemory(frame, authSrc, authLen, stale)|
  }

  /** What the mapping adds to the page log.  Behind a null auth buffer nothing is pinned, but
      the pages of the table are released all the same if the mapping fails. */
  function MappingLog(frame: PageTable, reserved: nat -> bool, authSrc: nat, authLen: nat, got: int, pages: seq<nat>,
                      maps: bool): seq<PageEvent>
  {
    (if authSrc == 0 then [] else Pins(Frames(frame, authSrc, Pinned(got)))) +
    (if maps || (authSrc != 0 && got != PageCount(authSrc, authLen)) then [] else Release(pages, 0, reserved))
  }

  /** `get_userbuf_srtp`.  The auth list denotes the auth buffer, and the dst list exactly its
      bytes from the source on, for a source within 2 GB of a non-null auth buffer.  A null
      auth buffer with a non-null destination is not refused: the lists are then those of a
      stale table entry, and its pages count as used without having been pinned. */
  method GetUserbufSrtp(p: PageSet, k: Kernel, src: nat, dst: nat, authSrc: nat, authLen: nat, dstLen: nat, got: int)
    returns (ret: int, dstSg: nat)
    requires p.Valid() && got <= PageCount(authSrc, authLen)
    modifies p, p.pages, p.sg, k`log
    ensures p.Valid()
    ensures ret == if Maps(k.frame, src, dst, authSrc, authLen, dstLen, got, old(p.sg[0])) then 0 else EINVAL
    ensures if PassesGuards(src, dst, authSrc, authLen, dstLen) then
              && Logged(p, k, old(k.log), authSrc, authLen, got, ret == 0)
              && (ret == 0 ==>
                    Covers(p, AuthMemory(k.frame, authSrc, authLen, old(p.sg[0])), Int32(src - authSrc), dstSg))
              && (ret == 0 ==> p.usedPages == PageCount(authSrc, authLen) && p.readonlyPages == 0)
            else k.log == old(k.log)
    ensures ret != 0 ==>
              var past := PassesGuards(src, dst, authSrc, authLen, dstLen);
              && (PutsPinned(old(k.log), k.log) <==> !past || authSrc != 0)
              && (Balanced(old(k.log), k.log) <==>
                    !past || (authSrc != 0 && (got <= 0 || got == PageCount(authSrc, authLen))))
  {
    hide List, Range, Segments, Frames, Pins, PageCount, Release, Addrs, AuthMemory, Covers, MappingLog;
    hide PutsPinned, Balanced, Held;
    NothingLogged(k.log);
    ret, dstSg := EINVAL, 0;
    if dst == 0 && authSrc == 0 {
      return;
    }
    if dstLen == 0 || authLen == 0 {
      return;
    }
    NoPages(authSrc, authLen);
    var pagecount := PageCount(authSrc, authLen);
    var diff := Int32(src - authSrc);
    if diff > MAX_SRTP_AUTH_DATA_DIFF || diff < 0 {
      return;
    }
    ret := AdjustSgArray(p, pagecount * 2);
    assert p.sg[0] == p.sg[..old(p.arraySize)][0] == old(p.sg[0]);
    ret, dstSg := MapAuth(p, k, authSrc, authLen, pagecount, diff, got);
    if ret != 0 {
      MappingFailed(old(k.log), k.log, k.frame, k.reserved, authSrc, authLen, got, p.pages[..]);
    }
  }

  /** The auth memory is mapped at entry 0, and its tail at `dstSg`. */
  ghost predicate Covers(p: PageSet, mem: seq<nat>, diff: nat, dstSg: nat)
    reads p, p.sg
  {
    && 0 < p.sg.Length && dstSg < p.sg.Length && diff <= |mem| <= |List(p.sg[..], 0)|
    && List(p.sg[..], 0)[..|mem|] == mem && List(p.sg[..], dstSg) == mem[diff..]
  }

  /** The page log after a mapping that got past its guards. */
  ghost predicate Logged(p: PageSet, k: Kernel, before: seq<PageEvent>, authSrc: nat, authLen: nat, got: int,
                         maps: bool)
    reads p, p.pages, k
  {
    var n := PageCount(authSrc, authLen);
    && 0 < n <= p.pages.Length
    && (authSrc != 0 && got == n ==> p.pages[..n] == Frames(k.frame, authSrc, n))
    && k.log == before + MappingLog(k.frame, k.reserved, authSrc, authLen, got, p.pages[..n], maps)
  }

  /** The part of `get_userbuf_srtp` behind its guards, on a table that is large enough. */
  method MapAuth(p: PageSet, k: Kernel, authSrc: nat, authLen: nat, pagecount: nat, diff: nat, got: int)
    returns (ret: int, dstSg: nat)
    requires p.Valid() && authLen > 0 && pagecount == PageCount(authSrc, authLen)
    requires got <= pagecount && 2 * pagecount <= p.arraySize
    modifies p`usedPages, p`readonlyPages, p.pages, p.sg, k`log
    ensures p.Valid()
    ensures var mem := AuthMemory(k.frame, authSrc, authLen, old(p.sg[0]));
            && ret == (if (authSrc != 0 ==> got == pagecount) && diff < |mem| then 0 else EINVAL)
            && (ret == 0 ==> Covers(p, mem, diff, dstSg) && p.usedPages == pagecount && p.readonlyPages == 0)
    ensures Logged(p, k, old(k.log), authSrc, authLen, got, ret == 0)
  {
    hide List, Range, Segments, Frames, Pins, PageCount, Release, Addrs;
    dstSg := 0;
    NoPages(authSrc, authLen);
    ret := GetUserbufRange(p, k, authSrc, authLen, pagecount, 0, got);
    if ret != 0 {
      return EINVAL, 0;
    }
    p.usedPages, p.readonlyPages := pagecount, 0;
    if authSrc == 0 {
      StaleList(p.sg[..], old(p.sg[0]), 0);
    } else {
      LengthOfRange(k.frame, authSrc, authLen);
      assert p.pages[..pagecount] == p.pages[..][0..pagecount] == Frames(k.frame, authSrc, pagecount);
    }
    var found;
    found, dstSg := CarveTail(p.sg, pagecount, authLen, diff, if authSrc == 0 then 0 else pagecount - 1);
    if !found {
      ReleaseUserPages(p, k);
      ret := EINVAL;
    }
  }

  /** The page log of a mapping that fails behind the guards. */
  lemma MappingFailed(before: seq<PageEvent>, after: seq<PageEvent>, frame: PageTable, reserved: nat -> bool,
                      authSrc: nat, authLen: nat, got: int, pages: seq<nat>)
    requires var n := PageCount(authSrc, authLen);
             && 0 < n <= |pages| && got <= n
             && (authSrc != 0 && got == n ==> pages[..n] == Frames(frame, authSrc, n))
             && after == before + MappingLog(frame, reserved, authSrc, authLen, got, pages[..n], false)
    ensures PutsPinned(before, after) <==> authSrc != 0
    ensures Balanced(before, after) <==> authSrc != 0 && (got <= 0 || got == PageCount(authSrc, authLen))
  {
    hide PageCount, Frames, Pins, Release, Held, Flushed, Balanced, PutsPinned;
    var n := PageCount(authSrc, authLen);
    if authSrc == 0 {
      assert after == before + Release(pages[..n], 0, reserved);
      StrayPuts(before, after, pages[..n], 0, reserved);
    } else if got == n {
      assert after == before + Pins(pages[..n]) + Release(pages[..n], 0, reserved);
      ReleaseBalanced(before, after, pages[..n], 0, reserved);
      BalancedPuts(before, after);
    } else {
      assert after == before + Pins(Frames(frame, authSrc, Pinned(got)));
      PartlyPinned(before, after, frame, authSrc, got);
    }
  }

  /** The page log of a mapping that succeeds and is released. */
  lemma MappingReleased(before: seq<PageEvent>, after: seq<PageEvent>, frame: PageTable, reserved: nat -> bool,
                        authSrc: nat, authLen: nat, got: int, pages: seq<nat>)
    requires |pages| == PageCount(authSrc, authLen) > 0
    requires authSrc != 0 ==> got == |pages| && pages == Frames(frame, authSrc, |pages|)
    requires after == before + MappingLog(frame, reserved, authSrc, authLen, got, pages, true)
                      + Release(pages, 0, reserved)
    ensures PutsPinned(before, after) <==> authSrc != 0
    ensures Balanced(before, after) <==> authSrc != 0
  {
    hide PageCount, Frames, Pins, Release, Held, Flushed, Balanced, PutsPinned;
    if authSrc == 0 {
      assert after == before + Release(pages, 0, reserved);
      StrayPuts(before, after, pages, 0, reserved);
    } else {
      assert after == before + Pins(pages) + Release(pages, 0, reserved);
      ReleaseBalanced(before, after, pages, 0, reserved);
      BalancedPuts(before, after);
    }
  }

  /** The user range from the source to the end of the auth buffer; empty if the source lies
      behind it. */
  function FromSource(frame: PageTable, src: nat, authSrc: nat, authLen: nat): seq<nat> {
    if src <= authSrc + authLen then Range(frame, src, authSrc + authLen - src) else []
  }

  /** The dst list of an accepted call with a non-null auth buffer denotes the source if and only
      if the source is less than 2 GB behind the start of the auth buffer: farther away it passes
      for one near it. */
  lemma TailIsSource(frame: PageTable, src: nat, authSrc: nat, authLen: nat, stale: Sg)
    requires authSrc != 0 && 0 <= Int32(src - authSrc) < authLen
    ensures var mem := AuthMemory(frame, authSrc, authLen, stale);
            && Int32(src - authSrc) < |mem|
            && (mem[Int32(src - authSrc)..] == FromSource(frame, src, authSrc, authLen) <==>
                  authSrc <= src < authSrc + 0x8000_0000)
  {
    var d := Int32(src - authSrc);
    hide Range;
    LengthOfRange(frame, authSrc, authLen);
    Int32Exact(src - authSrc);
    RangeTail(frame, authSrc, authLen, d);
    LengthOfRange(frame, authSrc + d, authLen - d);
    if src <= authSrc + authLen {
      LengthOfRange(frame, src, authSrc + authLen - src);
    }
  }

  /** A source 4 GB behind the auth buffer passes the guards, and the whole buffer is taken for it. */
  lemma FarSourceAliases(frame: PageTable, authSrc: nat, authLen: nat, dstLen: nat, stale: Sg)
    requires authSrc != 0 && authLen > 0 && dstLen > 0
    ensures var src := authSrc + 0x1_0000_0000;
            && Maps(frame, src, src, authSrc, authLen, dstLen, PageCount(authSrc, authLen), stale)
            && Int32(src - authSrc) == 0
            && AuthMemory(frame, authSrc, authLen, stale)[0..] != FromSource(frame, src, authSrc, authLen)
  {
    Int32Exact(0);
    Int32Exact(0x1_0000_0000);
    TailIsSource(frame, authSrc + 0x1_0000_0000, authSrc, authLen, stale);
  }

  /** The second half of the table becomes a copy of the first half's list, as far as len bytes,
      cut at its front. */
  method CarveTail(sg: array<Sg>, n: nat, len: nat, diff: nat, ghost e: nat) returns (found: bool, j: nat)
    requires n > 0 && 2 * n <= sg.Length && len > 0 && e < n && EndsAt(sg[..], 0, e)
    requires e == 0 || len <= |List(sg[..], 0)|
    modifies sg
    ensures EndsAt(sg[..], 0, e) && List(sg[..], 0) == List(old(sg[..]), 0)
    ensures found <==> diff < |Front(List(old(sg[..]), 0), len)|
    ensures found ==> n <= j < sg.Length && List(sg[..], j) == Front(List(old(sg[..]), 0), len)[diff..]
  {
    hide List, Blank, Addrs;
    ghost var t := sg[..];
    SgInitTable(sg, n, n);
    ghost var u := sg[..];
    BlankEnds(u, n, n);
    SameFront(t, u, e);
    ReachBound(u, 0, e, len);
    var copied := SgCopy(sg, 0, n, len, e, n + n - 1);
    ghost var f := if copied == 0 then n + Reach(u, 0, len) - 1 else n + n - 1;
    ghost var v := sg[..];
    SameFront(u, v, e);
    if copied != 0 {
      ListUnfold(u, 0, e);
      AddrsLength(u[0]);
      CopyShort(u, 0, n, n + n - 1, len);
    }
    assert List(v, n) == Front(List(t, 0), len);
    found, j := SgAdvance(sg, n, diff, f);
    SameFront(v, sg[..], e);
  }

  /** The first n elements, or all if there are fewer. */
  function Front(s: seq<nat>, n: nat): (r: seq<nat>)
    ensures |r| <= n
  {
    if n <= |s| then s[..n] else s
  }

  lemma AddrsLength(e: Sg)
    ensures |Addrs(e)| == e.length
  {
  }

  lemma SameFront(t: seq<Sg>, u: seq<Sg>, e: nat)
    requires EndsAt(t, 0, e) && e < |u| && forall k | 0 <= k <= e :: u[k] == t[k]
    ensures EndsAt(u, 0, e) && List(u, 0) == List(t, 0)
  {
    assert u[0..e + 1] == t[0..e + 1];
    ListFrame(t, u, 0, e);
  }

  /** `get_userbuf_tls`.  It succeeds exactly when there is a record buffer and all its pages
      can be pinned, and then the list denotes the buffer. */
  method GetUserbufTls(p: PageSet, k: Kernel, dst: nat, dstLen: nat, got: int) returns (ret: int)
    requires p.Valid() && got <= PageCount(dst, dstLen)
    modifies p, p.pages, p.sg, k`log
    ensures p.Valid() && (ret == 0 || ret == EINVAL)
    ensures ret == 0 <==> dst != 0 && dstLen != 0 && got == PageCount(dst, dstLen)
    ensures k.log == old(k.log) + (if dst == 0 || dstLen == 0 then [] else Pins(Frames(k.frame, dst, Pinned(got))))
    ensures ret == 0 ==>
              && 0 < p.sg.Length && List(p.sg[..], 0) == Range(k.frame, dst, dstLen)
              && p.usedPages == PageCount(dst, dstLen) <= p.arraySize && p.readonlyPages == 0
              && p.pages[..p.usedPages] == Frames(k.frame, dst, p.usedPages)
  {
    hide List, Range, Segments, Frames, Pins, PageCount;
    if dst == 0 || dstLen == 0 {
      return EINVAL;
    }
    NoPages(dst, dstLen);
    var pagecount := PageCount(dst, dstLen);
    p.usedPages, p.readonlyPages := pagecount, 0;
    ret := AdjustSgArray(p, pagecount);
    ret := GetUserbufRange(p, k, dst, dstLen, pagecount, 0, got);
    assert ret == 0 ==> p.pages[..pagecount] == Frames(k.frame, dst, pagecount);
  }
}
