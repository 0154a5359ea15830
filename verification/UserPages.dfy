/**
 User memory as pinned pages: from an address range to a scatterlist and back.

 The page table of the user is a parameter; a range of user addresses means the physical
 addresses behind it.  Every pin, dirty mark, cache flush and put is logged, so that what
 one mapping pins and its release puts can be compared.
 */
module UserPages {
  import opened Bytes
  import opened Scatterlist

  const EINVAL := -22
  const MAX_SRTP_AUTH_DATA_DIFF := 256
  const DEFAULT_PREALLOC_PAGES := 32

  /// Addresses

  type PageTable = nat -> nat

  function Phys(frame: PageTable, a: nat): nat {
    frame(a / PAGE_SIZE) * PAGE_SIZE + a % PAGE_SIZE
  }

  /** The physical addresses of the user range [addr, addr + len). */
  function Range(frame: PageTable, addr: nat, len: nat): (r: seq<nat>)
    ensures |r| == len
  {
    seq<nat>(len, k requires 0 <= k < len => Phys(frame, addr + k))
  }

  lemma LengthOfRange(frame: PageTable, addr: nat, len: nat)
    ensures |Range(frame, addr, len)| == len
  {
  }

  /** `PAGECOUNT`: the pages a range touches. */
  function PageCount(buf: nat, len: nat): nat {
    if len == 0 then 0 else (buf + len - 1) / PAGE_SIZE - buf / PAGE_SIZE + 1
  }

  /** The frames behind the n pages from the page of addr on. */
  function Frames(frame: PageTable, addr: nat, n: nat): (r: seq<nat>)
    ensures |r| == n
  {
    seq(n, k requires 0 <= k < n => frame(addr / PAGE_SIZE + k))
  }

  /** One segment for each page of the range, the last one marked. */
  function Segments(frame: PageTable, addr: nat, len: nat): seq<Sg>
    decreases len
  {
    if len == 0 then []
    else
      var n := FirstPart(addr, len);
      [Sg(frame(addr / PAGE_SIZE), addr % PAGE_SIZE, n, n == len)] + Segments(frame, addr + n, len - n)
  }

  /** The bytes of the range that lie in its first page. */
  function FirstPart(addr: nat, len: nat): (n: nat)
    ensures len > 0 ==> 0 < n <= len
  {
    if PAGE_SIZE - addr % PAGE_SIZE < len then PAGE_SIZE - addr % PAGE_SIZE else len
  }

  lemma PageCountStep(addr: nat, len: nat)
    requires len > 0
    ensures var n := FirstPart(addr, len);
            && PageCount(addr, len) == 1 + PageCount(addr + n, len - n)
            && (n < len ==> (addr + n) % PAGE_SIZE == 0 && (addr + n) / PAGE_SIZE == addr / PAGE_SIZE + 1)
  {
    var n := FirstPart(addr, len);
    if n < len {
      assert addr + n == (addr / PAGE_SIZE + 1) * PAGE_SIZE;
    }
  }

  lemma PhysInPage(frame: PageTable, addr: nat, k: nat)
    requires addr % PAGE_SIZE + k < PAGE_SIZE
    ensures Phys(frame, addr + k) == frame(addr / PAGE_SIZE) * PAGE_SIZE + addr % PAGE_SIZE + k
  {
    assert (addr + k) / PAGE_SIZE == addr / PAGE_SIZE && (addr + k) % PAGE_SIZE == addr % PAGE_SIZE + k;
  }

  lemma FirstPartInPage(frame: PageTable, addr: nat, len: nat)
    requires len > 0
    ensures var n := FirstPart(addr, len);
            && addr % PAGE_SIZE + n <= PAGE_SIZE
            && Range(frame, addr, len) == Addrs(Sg(frame(addr / PAGE_SIZE), addr % PAGE_SIZE, n, n == len))
                                          + Range(frame, addr + n, len - n)
  {
    hide Phys;
    var n := FirstPart(addr, len);
    var e := Sg(frame(addr / PAGE_SIZE), addr % PAGE_SIZE, n, n == len);
    forall k | 0 <= k < n ensures Range(frame, addr, len)[k] == Addrs(e)[k] {
      PhysInPage(frame, addr, k);
    }
    assert Range(frame, addr, len)[..n] == Addrs(e);
    assert Range(frame, addr, len)[n..] == Range(frame, addr + n, len - n);
  }

  predicate InOnePage(e: Sg) {
    0 < e.length && e.offset + e.length <= PAGE_SIZE
  }

  lemma {:induction false} SegmentCount(frame: PageTable, addr: nat, len: nat)
    ensures |Segments(frame, addr, len)| == PageCount(addr, len)
    decreases len
  {
    if len > 0 {
      PageCountStep(addr, len);
      SegmentCount(frame, addr + FirstPart(addr, len), len - FirstPart(addr, len));
    }
  }

  /** Each segment lies inside its own page, and only the last is marked. */
  lemma {:induction false} SegmentsInPages(frame: PageTable, addr: nat, len: nat, k: nat)
    requires k < PageCount(addr, len)
    ensures |Segments(frame, addr, len)| == PageCount(addr, len)
    ensures var e := Segments(frame, addr, len)[k];
            && InOnePage(e) && e.page == frame(addr / PAGE_SIZE + k)
            && (e.last <==> k == PageCount(addr, len) - 1)
    decreases len
  {
    SegmentCount(frame, addr, len);
    var n := FirstPart(addr, len);
    PageCountStep(addr, len);
    FirstPartInPage(frame, addr, len);
    if k > 0 {
      SegmentsInPages(frame, addr + n, len - n, k - 1);
    }
  }

  /** A table with the segments of a range denotes exactly the range. */
  lemma {:induction false} SegmentsCoverRange(frame: PageTable, t: seq<Sg>, i: nat, addr: nat, len: nat)
    requires len > 0
    requires var n := PageCount(addr, len);
             i + n <= |t| && t[i..i + n] == Segments(frame, addr, len)
    ensures EndsAt(t, i, i + PageCount(addr, len) - 1) && List(t, i) == Range(frame, addr, len)
    decreases len
  {
    hide List, Range, Addrs, InOnePage, PageCount;
    var n, m := FirstPart(addr, len), PageCount(addr, len);
    PageCountStep(addr, len);
    FirstPartInPage(frame, addr, len);
    var segments := Segments(frame, addr, len);
    assert t[i] == t[i..i + m][0] == segments[0];
    if n < len {
      assert t[i + 1..i + m] == t[i..i + m][1..] == segments[1..];
      NoPages(addr + n, len - n);
      SegmentsCoverRange(frame, t, i + 1, addr + n, len - n);
      assert EndsAt(t, i, i + m - 1);
    } else {
      NoPages(addr + n, 0);
      EmptyRange(frame, addr + n);
      assert EndsAt(t, i, i);
    }
    ListUnfold(t, i, i + m - 1);
  }

  function PageNumber(a: nat): nat {
    a / 4096
  }

  /** A byte of the range lies in page p. */
  ghost predicate Touches(addr: nat, len: nat, p: nat) {
    exists a: nat :: addr <= a < addr + len && PageNumber(a) == p
  }

  /** The frames of a range are those of the pages that it touches, one each, in the order of the
      pages, and every byte of the range lies in one of them. */
  lemma PagesAreTheRange(frame: PageTable, addr: nat, len: nat)
    ensures var pages := Frames(frame, addr, PageCount(addr, len));
            && (forall p: nat :: Touches(addr, len, p) <==> PageNumber(addr) <= p < PageNumber(addr) + |pages|)
            && (forall k | 0 <= k < |pages| :: pages[k] == frame(PageNumber(addr) + k))
            && forall a: nat | addr <= a < addr + len ::
                 Touches(addr, len, PageNumber(a)) && Phys(frame, a) / 4096 == frame(PageNumber(a))
  {
    var pages := Frames(frame, addr, PageCount(addr, len));
    forall p: nat | PageNumber(addr) <= p < PageNumber(addr) + |pages| ensures Touches(addr, len, p) {
      var a := if p == PageNumber(addr) then addr else p * 4096;
      assert addr <= a < addr + len && PageNumber(a) == p;
    }
    forall a: nat | addr <= a < addr + len ensures Phys(frame, a) / 4096 == frame(PageNumber(a)) {
      PageOf(frame, a);
    }
  }

  lemma PageOf(frame: PageTable, a: nat)
    ensures Phys(frame, a) / 4096 == frame(a / 4096)
  {
  }

  lemma NoPages(addr: nat, len: nat)
    ensures PageCount(addr, len) >= 0 && (PageCount(addr, len) == 0 <==> len == 0)
  {
  }

  lemma EmptyRange(frame: PageTable, addr: nat)
    ensures Range(frame, addr, 0) == []
  {
  }

  /** Two in-place lengths share their pages: the larger count is that of the longer range. */
  lemma InPlacePageCount(addr: nat, a: nat, b: nat)
    requires a <= b
    ensures PageCount(addr, a) <= PageCount(addr, b)
  {
  }

  /// Pins

  datatype PageEvent = Pin(frame: nat) | Dirty(frame: nat) | Flush(frame: nat) | Put(frame: nat)

  function Pins(frames: seq<nat>): (r: seq<PageEvent>)
    ensures |r| == |frames|
  {
    seq(|frames|, k requires 0 <= k < |frames| => Pin(frames[k]))
  }

  /** What a release logs for these frames, the first `readonly` of them not written. */
  function Release(frames: seq<nat>, readonly: nat, reserved: nat -> bool): seq<PageEvent> {
    if frames == [] then []
    else
      ReleaseOne(frames[0], readonly, reserved) +
      Release(frames[1..], if readonly == 0 then 0 else readonly - 1, reserved)
  }

  /** Pins of frame f not yet put. */
  function Held(log: seq<PageEvent>, f: nat): int {
    if log == [] then 0
    else Held(log[..|log| - 1], f) +
         (match log[|log| - 1]
          case Pin(g) => if g == f then 1 else 0
          case Put(g) => if g == f then -1 else 0
          case _ => 0)
  }

  function Flushed(log: seq<PageEvent>): seq<nat> {
    if log == [] then [] else (if log[0].Flush? then [log[0].frame] else []) + Flushed(log[1..])
  }

  lemma {:induction false} HeldSplit(a: seq<PageEvent>, b: seq<PageEvent>, f: nat)
    ensures Held(a + b, f) == Held(a, f) + Held(b, f)
    decreases |b|
  {
    if b == [] {
      assert a + b == a;
    } else {
      assert (a + b)[..|a + b| - 1] == a + b[..|b| - 1];
      HeldSplit(a, b[..|b| - 1], f);
    }
  }

  lemma FlushedFront(log: seq<PageEvent>)
    requires log != []
    ensures Flushed(log) == (if log[0].Flush? then [log[0].frame] else []) + Flushed(log[1..])
  {
  }

  lemma {:induction false} FlushedSplit(a: seq<PageEvent>, b: seq<PageEvent>)
    ensures Flushed(a + b) == Flushed(a) + Flushed(b)
  {
    if a == [] {
      assert a + b == b;
    } else {
      var s := a + b;
      assert s[0] == a[0] && s[1..] == a[1..] + b;
      FlushedSplit(a[1..], b);
      FlushedFront(a);
      FlushedFront(s);
      hide Flushed;
    }
  }

  lemma HeldOne(e: PageEvent, f: nat)
    ensures Held([e], f) == if e == Pin(f) then 1 else if e == Put(f) then -1 else 0
    ensures Flushed([e]) == if e.Flush? then [e.frame] else []
  {
    assert [e][..0] == [] && [e][1..] == [];
  }

  /** The events of one released page. */
  function ReleaseOne(g: nat, readonly: nat, reserved: nat -> bool): seq<PageEvent> {
    (if reserved(g) then [] else [Dirty(g)]) + (if readonly == 0 then [Flush(g)] else []) + [Put(g)]
  }

  lemma ReleaseOneEffect(g: nat, readonly: nat, reserved: nat -> bool, f: nat)
    ensures Held(ReleaseOne(g, readonly, reserved), f) == if g == f then -1 else 0
    ensures Flushed(ReleaseOne(g, readonly, reserved)) == if readonly == 0 then [g] else []
  {
    hide Held, Flushed;
    var dirty := if reserved(g) then [] else [Dirty(g)];
    var flush := if readonly == 0 then [Flush(g)] else [];
    HeldSplit(dirty + flush, [Put(g)], f);
    HeldSplit(dirty, flush, f);
    FlushedSplit(dirty + flush, [Put(g)]);
    FlushedSplit(dirty, flush);
    HeldOne(Dirty(g), f);
    HeldOne(Flush(g), f);
    HeldOne(Put(g), f);
    HeldNothing(f);
  }

  lemma HeldNothing(f: nat)
    ensures Held([], f) == 0 && Flushed([]) == []
  {
  }

  /** A release puts every page exactly once. */
  lemma {:induction false} ReleaseBalancesPins(frames: seq<nat>, readonly: nat, reserved: nat -> bool, f: nat)
    ensures Held(Pins(frames), f) + Held(Release(frames, readonly, reserved), f) == 0
    decreases |frames|
  {
    hide Held, Flushed, ReleaseOne;
    HeldNothing(f);
    if frames != [] {
      var g, less := frames[0], if readonly == 0 then 0 else readonly - 1;
      ReleaseOneEffect(g, readonly, reserved, f);
      ReleaseBalancesPins(frames[1..], less, reserved, f);
      assert Pins(frames) == [Pin(g)] + Pins(frames[1..]);
      HeldSplit([Pin(g)], Pins(frames[1..]), f);
      HeldOne(Pin(g), f);
      HeldSplit(ReleaseOne(g, readonly, reserved), Release(frames[1..], less, reserved), f);
    }
  }

  /** A release flushes exactly the pages behind the read-only ones. */
  lemma {:induction false} ReleaseFlushesWritable(frames: seq<nat>, readonly: nat, reserved: nat -> bool)
    requires readonly <= |frames|
    ensures Flushed(Release(frames, readonly, reserved)) == frames[readonly..]
    decreases |frames|
  {
    hide Flushed, ReleaseOne;
    HeldNothing(0);
    if frames != [] {
      var g, less := frames[0], if readonly == 0 then 0 else readonly - 1;
      ReleaseOneEffect(g, readonly, reserved, 0);
      ReleaseFlushesWritable(frames[1..], less, reserved);
      FlushedSplit(ReleaseOne(g, readonly, reserved), Release(frames[1..], less, reserved));
    }
  }

  /** A release puts each page once for each time it was pinned.  It marks exactly the pages that
      are not reserved as dirty, once for each put, and never puts one of them first. */
  lemma {:induction false} ReleaseMarks(frames: seq<nat>, readonly: nat, reserved: nat -> bool, f: nat)
    ensures var log := Release(frames, readonly, reserved);
            && Times(log, Put(f)) == Times(frames, f)
            && Times(log, Dirty(f)) == (if reserved(f) then 0 else Times(frames, f))
            && (!reserved(f) ==> MarkedFirst(log, f))
    decreases |frames|
  {
    if frames != [] {
      hide ReleaseOne, Release, MarkedFirst;
      var g, less := frames[0], if readonly == 0 then 0 else readonly - 1;
      var one, rest := ReleaseOne(g, readonly, reserved), Release(frames[1..], less, reserved);
      ReleaseMarks(frames[1..], less, reserved, f);
      MarksOne(g, readonly, reserved, f);
      ReleaseFirst(frames, readonly, reserved);
      TimesSplit(one, rest, Put(f));
      TimesSplit(one, rest, Dirty(f));
      if !reserved(f) {
        MarkedThroughout(one, rest, f);
      }
    }
  }

  /** How often x occurs in s. */
  function Times<T(==)>(s: seq<T>, x: T): nat {
    if s == [] then 0 else (if s[0] == x then 1 else 0) + Times(s[1..], x)
  }

  lemma {:induction false} TimesSplit<T>(a: seq<T>, b: seq<T>, x: T)
    ensures Times(a + b, x) == Times(a, x) + Times(b, x)
  {
    if a == [] {
      assert a + b == b;
    } else {
      assert (a + b)[0] == a[0] && (a + b)[1..] == a[1..] + b;
      TimesSplit(a[1..], b, x);
    }
  }

  /** At no point has page f been put more often than marked. */
  ghost predicate MarkedFirst(log: seq<PageEvent>, f: nat) {
    forall k | 0 <= k <= |log| :: Times(log[..k], Put(f)) <= Times(log[..k], Dirty(f))
  }

  lemma MarkedThroughout(a: seq<PageEvent>, b: seq<PageEvent>, f: nat)
    requires MarkedFirst(a, f) && MarkedFirst(b, f)
    ensures MarkedFirst(a + b, f)
  {
    forall k | 0 <= k <= |a + b| ensures Times((a + b)[..k], Put(f)) <= Times((a + b)[..k], Dirty(f)) {
      if k <= |a| {
        assert (a + b)[..k] == a[..k];
      } else {
        assert (a + b)[..k] == a + b[..k - |a|] && a[..|a|] == a;
        TimesSplit(a, b[..k - |a|], Put(f));
        TimesSplit(a, b[..k - |a|], Dirty(f));
      }
    }
  }

  lemma ReleaseFirst(frames: seq<nat>, readonly: nat, reserved: nat -> bool)
    requires frames != []
    ensures Release(frames, readonly, reserved) ==
            ReleaseOne(frames[0], readonly, reserved) +
            Release(frames[1..], if readonly == 0 then 0 else readonly - 1, reserved)
  {
  }

  lemma MarksOne(g: nat, readonly: nat, reserved: nat -> bool, f: nat)
    ensures var one := ReleaseOne(g, readonly, reserved);
            && Times(one, Put(f)) == (if g == f then 1 else 0)
            && Times(one, Dirty(f)) == (if g == f && !reserved(g) then 1 else 0)
            && (!reserved(f) ==> MarkedFirst(one, f))
  {
    var one := ReleaseOne(g, readonly, reserved);
    var dirty := if reserved(g) then [] else [Dirty(g)];
    var flush := if readonly == 0 then [Flush(g)] else [];
    forall e: PageEvent | e == Put(f) || e == Dirty(f)
      ensures Times(one, e) == (if e == Put(g) || (e == Dirty(g) && !reserved(g)) then 1 else 0)
    {
      TimesSplit(dirty + flush, [Put(g)], e);
      TimesSplit(dirty, flush, e);
      TimesOne(Put(g), e);
      TimesOne(Dirty(g), e);
      TimesOne(Flush(g), e);
    }
    forall k | 0 <= k <= |one| && !reserved(f) ensures Times(one[..k], Put(f)) <= Times(one[..k], Dirty(f)) {
      if k == |one| {
        assert one[..k] == one;
      } else {
        assert one[..k] == (dirty + flush)[..k];
        Absent(one[..k], Put(f));
      }
    }
  }

  lemma TimesOne<T>(x: T, y: T)
    ensures Times([x], y) == if x == y then 1 else 0
  {
    assert [x][1..] == [];
  }

  lemma {:induction false} Absent<T>(s: seq<T>, x: T)
    requires x !in s
    ensures Times(s, x) == 0
  {
    if s != [] {
      Absent(s[1..], x);
    }
  }

  /** Every page pinned in between has been put again, and no other. */
  ghost predicate Balanced(before: seq<PageEvent>, after: seq<PageEvent>) {
    forall f :: Held(after, f) == Held(before, f)
  }

  lemma ReleaseBalanced(before: seq<PageEvent>, after: seq<PageEvent>, frames: seq<nat>, readonly: nat,
                        reserved: nat -> bool)
    requires after == before + Pins(frames) + Release(frames, readonly, reserved) && readonly <= |frames|
    ensures Balanced(before, after) && Flushed(after) == Flushed(before) + frames[readonly..]
  {
    hide Held, Flushed, Pins, Release;
    forall f ensures Held(after, f) == Held(before, f) {
      HeldSplit(before + Pins(frames), Release(frames, readonly, reserved), f);
      HeldSplit(before, Pins(frames), f);
      ReleaseBalancesPins(frames, readonly, reserved, f);
    }
    FlushedSplit(before + Pins(frames), Release(frames, readonly, reserved));
    FlushedSplit(before, Pins(frames));
    PinsFlushNothing(frames);
    ReleaseFlushesWritable(frames, readonly, reserved);
  }

  lemma {:induction false} PinsFlushNothing(frames: seq<nat>)
    ensures Flushed(Pins(frames)) == []
  {
    if frames != [] {
      assert Pins(frames)[1..] == Pins(frames[1..]);
      PinsFlushNothing(frames[1..]);
    }
  }

  /** Every page put in between had been pinned. */
  ghost predicate PutsPinned(before: seq<PageEvent>, after: seq<PageEvent>) {
    forall f :: Held(after, f) >= Held(before, f)
  }

  lemma BalancedPuts(before: seq<PageEvent>, after: seq<PageEvent>)
    requires Balanced(before, after)
    ensures PutsPinned(before, after)
  {
  }

  lemma PinsHeld(frames: seq<nat>, f: nat)
    ensures Held(Pins(frames), f) >= 0 && (f in frames ==> Held(Pins(frames), f) > 0)
    decreases |frames|
  {
    if frames != [] {
      var front := frames[..|frames| - 1];
      assert Pins(frames)[..|frames| - 1] == Pins(front) && Pins(frames)[|frames| - 1] == Pin(frames[|frames| - 1]);
      PinsHeld(front, f);
    }
  }

  /** A release without pins puts pages that were not pinned. */
  lemma StrayPuts(before: seq<PageEvent>, after: seq<PageEvent>, frames: seq<nat>, readonly: nat, reserved: nat -> bool)
    requires after == before + Release(frames, readonly, reserved) && frames != []
    ensures !PutsPinned(before, after) && !Balanced(before, after)
  {
    hide Held, Pins, Release;
    var f := frames[0];
    HeldSplit(before, Release(frames, readonly, reserved), f);
    ReleaseBalancesPins(frames, readonly, reserved, f);
    PinsHeld(frames, f);
  }

  /** Pins without a release leave every page put that was put, but keep what they pinned. */
  lemma PinsLeft(before: seq<PageEvent>, after: seq<PageEvent>, frames: seq<nat>)
    requires after == before + Pins(frames)
    ensures PutsPinned(before, after) && (Balanced(before, after) <==> frames == [])
  {
    hide Held, Pins;
    forall f ensures Held(after, f) >= Held(before, f) && (f in frames ==> Held(after, f) > Held(before, f)) {
      HeldSplit(before, Pins(frames), f);
      PinsHeld(frames, f);
    }
    if frames == [] {
      assert Pins(frames) == [] && after == before;
    } else {
      assert frames[0] in frames;
    }
  }

  lemma NothingLogged(log: seq<PageEvent>)
    ensures PutsPinned(log, log) && Balanced(log, log) && log + [] == log
  {
  }

  /** A mapping that fails half way keeps the pages it has pinned. */
  lemma PartlyPinned(before: seq<PageEvent>, after: seq<PageEvent>, frame: PageTable, addr: nat, got: int)
    requires after == before || after == before + Pins(Frames(frame, addr, Pinned(got)))
    ensures PutsPinned(before, after)
    ensures after != before ==> got > 0
    ensures after == before + Pins(Frames(frame, addr, Pinned(got))) ==> (Balanced(before, after) <==> got <= 0)
  {
    hide Held, Pins;
    NothingLogged(before);
    if after == before + Pins(Frames(frame, addr, Pinned(got))) {
      PinsLeft(before, after, Frames(frame, addr, Pinned(got)));
    }
    assert got <= 0 ==> Frames(frame, addr, Pinned(got)) == [];
    assert Pins([]) == [];
  }

  /// The kernel's tables

  /** Physical memory, the user's page table and the page log. */
  class Kernel {
    const frame: PageTable
    const reserved: nat -> bool
    var ram: seq<byte>
    var log: seq<PageEvent>

    constructor (frame: PageTable, reserved: nat -> bool, ram: seq<byte>)
      ensures this.frame == frame && this.reserved == reserved && this.ram == ram && log == []
    {
      this.frame, this.reserved, this.ram, log := frame, reserved, ram, [];
    }
  }

  /** The page fields of a session. */
  class PageSet {
    var arraySize: nat
    var usedPages: nat
    var readonlyPages: nat
    var pages: array<nat>
    var sg: array<Sg>

    constructor ()
      ensures Valid() && fresh(pages) && fresh(sg)
      ensures arraySize == DEFAULT_PREALLOC_PAGES && usedPages == 0 && readonlyPages == 0
    {
      arraySize, usedPages, readonlyPages := DEFAULT_PREALLOC_PAGES, 0, 0;
      pages := new nat[DEFAULT_PREALLOC_PAGES](_ => 0);
      sg := new Sg[DEFAULT_PREALLOC_PAGES](_ => Sg(0, 0, 0, false));
    }

    ghost predicate Valid()
      reads this
    {
      arraySize > 0 && pages.Length == arraySize && sg.Length == arraySize
    }
  }

  function Max(a: nat, b: nat): nat {
    if a < b then b else a
  }

  /** The pages a call pinned, given its return value. */
  function Pinned(got: int): nat {
    if got < 0 then 0 else got
  }

  /** The entries from `base` on have been overwritten by x, and no others. */
  ghost predicate Replaced<T>(before: seq<T>, after: seq<T>, base: nat, x: seq<T>) {
    && |after| == |before| && base + |x| <= |before|
    && after[..base] == before[..base] && after[base..base + |x|] == x
    && after[base + |x|..] == before[base + |x|..]
  }

  lemma ReplacedNothing<T>(s: seq<T>, base: nat)
    requires base <= |s|
    ensures Replaced(s, s, base, [])
  {
  }

  lemma ReplacedNext<T>(before: seq<T>, mid: seq<T>, base: nat, x: seq<T>, e: T)
    requires Replaced(before, mid, base, x) && base + |x| < |before|
    ensures Replaced(before, mid[base + |x| := e], base, x + [e])
  {
    var after := mid[base + |x| := e];
    assert after[base..base + |x|] == mid[base..base + |x|];
    assert mid[base + |x|..][1..] == before[base + |x|..][1..];
  }

  lemma ReplacedTwice<T>(before: seq<T>, mid: seq<T>, after: seq<T>, base: nat, x: seq<T>, y: seq<T>)
    requires Replaced(before, mid, base, x) && Replaced(mid, after, base, y) && |x| == |y|
    ensures Replaced(before, after, base, y)
  {
  }

  /** What an array holds behind the entries that have been overwritten so far. */
  lemma ReplacedRest<T>(before: seq<T>, after: seq<T>, base: nat, x: seq<T>, i: nat)
    requires Replaced(before, after, base, x) && base + |x| <= i < |before|
    ensures after[i] == before[i]
  {
    assert after[i] == after[base + |x|..][i - base - |x|];
  }

  /** `get_user_pages`, a foreign call: it pins the first `got` of n pages, or fails with a
      negative `got`. */
  method GetUserPages(p: PageSet, k: Kernel, addr: nat, n: nat, base: nat, got: int) returns (ret: int)
    requires p.Valid() && base + n <= p.arraySize && got <= n
    modifies p.pages, k`log
    ensures ret == got
    ensures k.log == old(k.log) + Pins(Frames(k.frame, addr, Pinned(got)))
    ensures Replaced(old(p.pages[..]), p.pages[..], base, Frames(k.frame, addr, Pinned(got)))
  {
    hide Replaced;
    ret := got;
    ghost var was := p.pages[..];
    ReplacedNothing(was, base);
    assert Frames(k.frame, addr, 0) == [];
    var i := 0;
    while i < got
      invariant 0 <= i <= Pinned(got)
      invariant k.log == old(k.log) + Pins(Frames(k.frame, addr, i))
      invariant Replaced(was, p.pages[..], base, Frames(k.frame, addr, i))
    {
      var frame := k.frame(addr / PAGE_SIZE + i);
      ReplacedNext(was, p.pages[..], base, Frames(k.frame, addr, i), frame);
      ghost var mid := p.pages[..];
      p.pages[base + i] := frame;
      assert p.pages[..] == mid[base + i := frame];
      k.log := k.log + [Pin(frame)];
      assert Frames(k.frame, addr, i + 1) == Frames(k.frame, addr, i) + [frame];
      assert Pins(Frames(k.frame, addr, i + 1)) == Pins(Frames(k.frame, addr, i)) + [Pin(frame)];
      i := i + 1;
    }
  }

  /** `__get_userbuf`: pins the pages of a range and lays its segments out from entry `base`
      of the table.  Nothing is pinned for an empty range or a null address. */
  method GetUserbufRange(p: PageSet, k: Kernel, addr: nat, len: nat, pgcount: nat, base: nat, got: int)
    returns (ret: int)
    requires p.Valid() && base < p.arraySize && base + pgcount <= p.arraySize && got <= pgcount
    requires addr == 0 || pgcount == 0 || len == 0 || pgcount == PageCount(addr, len)
    modifies p.pages, p.sg, k`log
    ensures ret == 0 || ret == EINVAL
    ensures var idle := pgcount == 0 || len == 0 || addr == 0;
            && (ret == 0 <==> idle || got == pgcount)
            && (idle ==> k.log == old(k.log) && p.pages[..] == old(p.pages[..])
                         && p.sg[..] == old(p.sg[..])[base := old(p.sg[base]).(last := true)])
            && (!idle ==> k.log == old(k.log) + Pins(Frames(k.frame, addr, Pinned(got))))
            && (!idle && ret == 0 ==>
                  && Replaced(old(p.pages[..]), p.pages[..], base, Frames(k.frame, addr, pgcount))
                  && Replaced(old(p.sg[..]), p.sg[..], base, Segments(k.frame, addr, len))
                  && EndsAt(p.sg[..], base, base + pgcount - 1)
                  && List(p.sg[..], base) == Range(k.frame, addr, len))
  {
    hide Replaced, Segments, List, Range, PageCount, Frames, Pins, EndsAt;
    ret := 0;
    if pgcount == 0 || len == 0 || addr == 0 {
      p.sg[base] := p.sg[base].(last := true);
      return;
    }
    var pinned := GetUserPages(p, k, addr, pgcount, base, got);
    if pinned != pgcount {
      return EINVAL;
    }
    ReplacedPart(old(p.pages[..]), p.pages[..], base, Frames(k.frame, addr, pgcount));
    assert p.pages[base..base + pgcount] == p.pages[..][base..base + pgcount];
    LayOut(p, k.frame, addr, len, pgcount, base);
  }

  /** The table part of `__get_userbuf`. */
  method LayOut(p: PageSet, ghost frame: PageTable, addr: nat, len: nat, pgcount: nat, base: nat)
    requires p.Valid() && len > 0 && pgcount == PageCount(addr, len) && base + pgcount <= p.arraySize
    requires |Frames(frame, addr, pgcount)| == pgcount
    requires p.pages[base..base + pgcount] == Frames(frame, addr, pgcount)
    modifies p.sg
    ensures Replaced(old(p.sg[..]), p.sg[..], base, Segments(frame, addr, len))
    ensures EndsAt(p.sg[..], base, base + pgcount - 1) && List(p.sg[..], base) == Range(frame, addr, len)
  {
    hide Segments, List, Range, PageCount, Frames, EndsAt, Replaced;
    NoPages(addr, len);
    ghost var was := p.sg[..];
    SgInitTable(p.sg, base, pgcount);
    ghost var blank := p.sg[..];
    ReplacedPart(was, blank, base, Blank(pgcount));
    FillSegments(p, frame, addr, len, pgcount, base);
    SegmentCount(frame, addr, len);
    ReplacedTwice(was, blank, p.sg[..], base, Blank(pgcount), Segments(frame, addr, len));
    ReplacedPart(was, p.sg[..], base, Segments(frame, addr, len));
    SegmentsCoverRange(frame, p.sg[..], base, addr, len);
  }

  lemma ReplacedPart<T>(before: seq<T>, after: seq<T>, base: nat, x: seq<T>)
    requires Replaced(before, after, base, x)
    ensures |after| == |before| && base + |x| <= |before| && after[base..base + |x|] == x
  {
  }

  /** `sg_init_table`: blank entries, the last one marked. */
  method SgInitTable(sg: array<Sg>, base: nat, n: nat)
    requires n > 0 && base + n <= sg.Length
    modifies sg
    ensures Replaced(old(sg[..]), sg[..], base, Blank(n))
  {
    hide Replaced;
    ghost var was := sg[..];
    ReplacedNothing(was, base);
    for i := 0 to n
      invariant Replaced(was, sg[..], base, Blank(n)[..i])
    {
      ghost var mid := sg[..];
      ReplacedNext(was, mid, base, Blank(n)[..i], Blank(n)[i]);
      sg[base + i] := Sg(0, 0, 0, i == n - 1);
      assert sg[..] == mid[base + i := Blank(n)[i]];
      assert Blank(n)[..i + 1] == Blank(n)[..i] + [Blank(n)[i]];
    }
    assert Blank(n)[..n] == Blank(n);
  }

  function Blank(n: nat): (r: seq<Sg>)
    ensures |r| == n
  {
    seq(n, i requires 0 <= i < n => Sg(0, 0, 0, i == n - 1))
  }

  /** The loop of `__get_userbuf` over an initialised table. */
  method FillSegments(p: PageSet, ghost frame: PageTable, addr: nat, len: nat, pgcount: nat, base: nat)
    requires p.Valid() && len > 0 && pgcount == PageCount(addr, len) && base + pgcount <= p.arraySize
    requires p.pages[base..base + pgcount] == Frames(frame, addr, pgcount)
    requires p.sg[base..base + pgcount] == Blank(pgcount)
    modifies p.sg
    ensures Replaced(old(p.sg[..]), p.sg[..], base, Segments(frame, addr, len))
  {
    hide PageCount, Segments, Frames, FirstPart, Replaced, Blank;
    FramesAre(frame, addr, pgcount);
    ghost var was := p.sg[..];
    BlankAre(was, base, pgcount);
    SegmentCount(frame, addr, len);
    ReplacedNothing(was, base);
    var rest: nat, i: nat := len, 0;
    ghost var at: nat := addr;
    ghost var done: seq<Sg> := [];
    while rest > 0
      invariant i + PageCount(at, rest) == pgcount && |done| == i
      invariant rest > 0 ==> at / PAGE_SIZE == addr / PAGE_SIZE + i
      invariant rest > 0 ==> at % PAGE_SIZE == if i == 0 then addr % PAGE_SIZE else 0
      invariant done + Segments(frame, at, rest) == Segments(frame, addr, len)
      invariant Replaced(was, p.sg[..], base, done)
      decreases rest
    {
      FillStep(frame, at, rest, i, pgcount);
      var offset := if i == 0 then addr % PAGE_SIZE else 0;
      var pglen := if PAGE_SIZE - offset < rest then PAGE_SIZE - offset else rest;
      ghost var e := Sg(frame(at / PAGE_SIZE), at % PAGE_SIZE, pglen, pglen == rest);
      assert p.pages[base + i] == p.pages[base..base + pgcount][i];
      ghost var mid := p.sg[..];
      ReplacedRest(was, mid, base, done, base + i);
      ReplacedNext(was, mid, base, done, e);
      p.sg[base + i] := SetPage(p.sg[base + i], p.pages[base + i], pglen, offset);
      assert p.sg[..] == mid[base + i := e];
      done := done + [e];
      at, rest, i := at + pglen, rest - pglen, i + 1;
    }
    SegmentsStep(frame, at, rest);
    NoPages(at, rest);
    assert done == Segments(frame, addr, len);
  }

  /** What the i-th turn of the loop finds. */
  lemma FillStep(frame: PageTable, at: nat, rest: nat, i: nat, pgcount: nat)
    requires rest > 0 && i + PageCount(at, rest) == pgcount
    ensures var n := if PAGE_SIZE - at % PAGE_SIZE < rest then PAGE_SIZE - at % PAGE_SIZE else rest;
            && i < pgcount && i + 1 + PageCount(at + n, rest - n) == pgcount
            && (n == rest <==> i == pgcount - 1)
            && (n < rest ==> (at + n) % PAGE_SIZE == 0 && (at + n) / PAGE_SIZE == at / PAGE_SIZE + 1)
            && Segments(frame, at, rest) ==
               [Sg(frame(at / PAGE_SIZE), at % PAGE_SIZE, n, n == rest)] + Segments(frame, at + n, rest - n)
  {
    hide PageCount, Segments;
    PageCountStep(at, rest);
    NoPages(at + FirstPart(at, rest), rest - FirstPart(at, rest));
    SegmentsStep(frame, at, rest);
  }

  lemma BlankAre(t: seq<Sg>, base: nat, n: nat)
    requires base + n <= |t| && t[base..base + n] == Blank(n)
    ensures forall i | base <= i < base + n :: t[i] == Sg(0, 0, 0, i == base + n - 1)
  {
    assert forall i | base <= i < base + n :: t[i] == t[base..base + n][i - base];
  }

  lemma FramesAre(frame: PageTable, addr: nat, n: nat)
    ensures forall i | 0 <= i < n :: Frames(frame, addr, n)[i] == frame(addr / PAGE_SIZE + i)
  {
  }

  lemma SegmentsStep(frame: PageTable, addr: nat, len: nat)
    ensures len == 0 ==> Segments(frame, addr, len) == []
    ensures len > 0 ==>
              var n := FirstPart(addr, len);
              Segments(frame, addr, len) ==
              [Sg(frame(addr / PAGE_SIZE), addr % PAGE_SIZE, n, n == len)] + Segments(frame, addr + n, len - n)
  {
  }

  /** A table size doubled until it fits. */
  function Grown(size: nat, need: nat): (n: nat)
    requires size > 0
    ensures need <= n && size <= n && (n == size || n < 2 * need)
    decreases need - size
  {
    if size < need then Grown(size * 2, need) else size
  }

  /** `adjust_sg_array`: doubling until the count fits; the old entries move along. */
  method AdjustSgArray(p: PageSet, pagecount: nat) returns (ret: int)
    requires p.Valid()
    modifies p`arraySize, p`pages, p`sg
    ensures ret == 0 && p.Valid() && fresh(p.pages) && fresh(p.sg)
    ensures p.arraySize == Grown(old(p.arraySize), pagecount)
    ensures exists doublings: nat :: p.arraySize == old(p.arraySize) * Pow2(doublings)
    ensures p.pages[..old(p.arraySize)] == old(p.pages[..]) && p.sg[..old(p.arraySize)] == old(p.sg[..])
  {
    var was := p.arraySize;
    var size: nat := was;
    ghost var doublings := 0;
    while size < pagecount
      invariant size >= was && Grown(size, pagecount) == Grown(was, pagecount)
      invariant size == was * Pow2(doublings)
      invariant unchanged(p)
      decreases pagecount - size
    {
      size := size * 2;
      DoubledAgain(was, doublings);
      doublings := doublings + 1;
    }
    var pages := new nat[size](_ => 0);
    forall i | 0 <= i < p.arraySize {
      pages[i] := p.pages[i];
    }
    var sg := new Sg[size](_ => Sg(0, 0, 0, false));
    forall i | 0 <= i < p.arraySize {
      sg[i] := p.sg[i];
    }
    p.pages, p.sg, p.arraySize := pages, sg, size;
    ret := 0;
  }

  lemma DoubledAgain(n: nat, k: nat)
    ensures n * Pow2(k) * 2 == n * Pow2(k + 1)
  {
  }

  /** `release_user_pages`. */
  method ReleaseUserPages(p: PageSet, k: Kernel)
    requires p.Valid() && p.usedPages <= p.arraySize
    modifies p`usedPages, p`readonlyPages, k`log
    ensures k.log == old(k.log) + Release(old(p.pages[..p.usedPages]), old(p.readonlyPages), k.reserved)
    ensures p.usedPages == 0
    ensures p.readonlyPages ==
            if old(p.readonlyPages) <= old(p.usedPages) then 0 else old(p.readonlyPages - p.usedPages)
  {
    hide ReleaseOne;
    var i := 0;
    ghost var all, readonly := p.pages[..p.usedPages], p.readonlyPages;
    while i < p.usedPages
      invariant 0 <= i <= p.usedPages == old(p.usedPages)
      invariant p.readonlyPages == if readonly <= i then 0 else readonly - i
      invariant k.log + Release(all[i..], p.readonlyPages, k.reserved)
             == old(k.log) + Release(all, readonly, k.reserved)
    {
      ghost var before, ro := k.log, p.readonlyPages;
      assert all[i] == p.pages[i] && all[i..][1..] == all[i + 1..];
      ReleasePage(p, k, p.pages[i]);
      assert before + (ReleaseOne(all[i], ro, k.reserved) + Release(all[i + 1..], p.readonlyPages, k.reserved))
          == k.log + Release(all[i + 1..], p.readonlyPages, k.reserved);
      i := i + 1;
    }
    assert all[i..] == [];
    p.usedPages := 0;
  }

  method ReleasePage(p: PageSet, k: Kernel, page: nat)
    modifies p`readonlyPages, k`log
    ensures k.log == old(k.log) + ReleaseOne(page, old(p.readonlyPages), k.reserved)
    ensures p.readonlyPages == if old(p.readonlyPages) == 0 then 0 else old(p.readonlyPages) - 1
  {
    if !k.reserved(page) {
      k.log := k.log + [Dirty(page)];
    }
    if p.readonlyPages == 0 {
      k.log := k.log + [Flush(page)];
    } else {
      p.readonlyPages := p.readonlyPages - 1;
    }
    k.log := k.log + [Put(page)];
  }

  /// Mapping a source and a destination

  /** The length a buffer counts for: a null buffer is empty. */
  function EffectiveLen(addr: nat, len: nat): nat {
    if addr == 0 then 0 else len
  }

  /** The pages behind a mapped source and destination, in the order they are pinned. */
  function MappedFrames(frame: PageTable, src: nat, srcLen: nat, dst: nat, dstLen: nat): seq<nat> {
    if src == dst then Frames(frame, src, PageCount(src, Max(srcLen, dstLen)))
    else Frames(frame, src, PageCount(src, srcLen)) + Frames(frame, dst, PageCount(dst, dstLen))
  }

  /** A pinning call over n pages succeeds if it has nothing to do or pins them all. */
  predicate PinsAll(n: nat, got: int) {
    n == 0 || got == n
  }

  /** What the session holds after a successful mapping. */
  ghost predicate Mapped(p: PageSet, k: Kernel, src: nat, sl: nat, dst: nat, dl: nat)
    reads p, p.pages, p.sg
  {
    var frames := MappedFrames(k.frame, src, sl, dst, dl);
    && p.usedPages == |frames| <= p.arraySize == p.pages.Length == p.sg.Length
    && p.pages[..p.usedPages] == frames
    && p.readonlyPages == (if src == dst then 0 else PageCount(src, sl))
    && (src == dst && Max(sl, dl) > 0 ==>
          0 < p.arraySize && List(p.sg[..], 0) == Range(k.frame, src, Max(sl, dl)))
    && (src != dst && sl > 0 ==>
          0 < p.arraySize && List(p.sg[..], 0) == Range(k.frame, src, sl))
    && (src != dst && dl > 0 ==>
          p.readonlyPages < p.arraySize && List(p.sg[..], p.readonlyPages) == Range(k.frame, dst, dl))
  }

  /** `get_userbuf`.  On success every page of both ranges is pinned once, and the lists
      returned denote the ranges; in place both are one list over the longer length.  If both
      buffers are null, the list returned is what the table's first entry held before.
      `gotSrc` and `gotDst` are the results of the foreign pinning calls. */
  method GetUserbuf(p: PageSet, k: Kernel, src: nat, srcLen: nat, dst: nat, dstLen: nat, gotSrc: int, gotDst: int)
    returns (ret: int, srcSg: Option<nat>, dstSg: Option<nat>)
    requires p.Valid()
    requires dst != 0 && dst != src && dstLen == 0 ==>
               var n := PageCount(src, EffectiveLen(src, srcLen)); n < Grown(p.arraySize, n)
    requires src == dst ==> gotSrc <= PageCount(src, Max(EffectiveLen(src, srcLen), EffectiveLen(dst, dstLen)))
    requires src != dst ==> gotSrc <= PageCount(src, EffectiveLen(src, srcLen))
    requires src != dst ==> gotDst <= PageCount(dst, EffectiveLen(dst, dstLen))
    modifies p, p.pages, p.sg, k`log
    ensures p.Valid() && (ret == 0 || ret == EINVAL)
    ensures var sl, dl := EffectiveLen(src, srcLen), EffectiveLen(dst, dstLen);
            ret == 0 <==> if src == dst then PinsAll(PageCount(src, Max(sl, dl)), gotSrc)
                          else PinsAll(PageCount(src, sl), gotSrc) && PinsAll(PageCount(dst, dl), gotDst)
    ensures ret == 0 ==>
              var sl, dl := EffectiveLen(src, srcLen), EffectiveLen(dst, dstLen);
              && Mapped(p, k, src, sl, dst, dl)
              && k.log == old(k.log) + Pins(MappedFrames(k.frame, src, sl, dst, dl))
              && srcSg == (if src != 0 || dst == 0 then Some(0) else None)
              && dstSg == (if dst != 0 || src == 0 then Some(p.readonlyPages) else None)
    ensures src == 0 && dst == 0 ==>
              && ret == 0 && srcSg == dstSg == Some(0) && List(p.sg[..], 0) == Addrs(old(p.sg[0]))
              && k.log == old(k.log) && p.usedPages == 0
  {
    hide Segments, Release, List, Range, PageCount, Addrs;
    PinsNone(k.frame, src);
    ret, srcSg, dstSg := 0, None, None;
    var sl, dl := if src == 0 && srcLen != 0 then 0 else srcLen, if dst == 0 && dstLen != 0 then 0 else dstLen;
    NoPages(src, sl);
    NoPages(dst, dl);
    var srcPages, dstPages := PageCount(src, sl), PageCount(dst, dl);
    p.usedPages := if src == dst then Max(srcPages, dstPages) else srcPages + dstPages;
    p.readonlyPages := if src == dst then 0 else srcPages;
    if p.usedPages > p.arraySize {
      ret := AdjustSgArray(p, p.usedPages);
    }
    if src == dst {
      var longer := if sl < dl then dl else sl;
      InPlacePageCount(src, if sl < dl then sl else dl, longer);
      NoPages(src, longer);
      ret := GetUserbufRange(p, k, src, longer, p.usedPages, 0, gotSrc);
      srcSg, dstSg := Some(0), Some(0);
      if src == 0 {
        StaleList(p.sg[..], old(p.sg[0]), 0);
      }
    } else {
      ret, srcSg, dstSg := MapBoth(p, k, src, sl, dst, dl, gotSrc, gotDst);
    }
  }

  /** A list of one entry that was marked as the last. */
  lemma StaleList(t: seq<Sg>, e: Sg, i: nat)
    requires i < |t| && t[i] == e.(last := true)
    ensures List(t, i) == Addrs(e) && EndsAt(t, i, i)
  {
    ListUnfold(t, i, i);
  }

  /** The two mappings of `get_userbuf` when source and destination differ. */
  method MapBoth(p: PageSet, k: Kernel, src: nat, sl: nat, dst: nat, dl: nat, gotSrc: int, gotDst: int)
    returns (ret: int, srcSg: Option<nat>, dstSg: Option<nat>)
    requires p.Valid() && src != dst && (src == 0 ==> sl == 0) && (dst == 0 ==> dl == 0)
    requires dst != 0 && dl == 0 ==> p.readonlyPages < p.arraySize
    requires p.readonlyPages == PageCount(src, sl)
    requires p.usedPages == PageCount(src, sl) + PageCount(dst, dl) <= p.arraySize
    requires gotSrc <= PageCount(src, sl) && gotDst <= PageCount(dst, dl)
    modifies p`usedPages, p`readonlyPages, p.pages, p.sg, k`log
    ensures ret == 0 || ret == EINVAL
    ensures ret == 0 <==> PinsAll(PageCount(src, sl), gotSrc) && PinsAll(PageCount(dst, dl), gotDst)
    ensures ret == 0 ==>
              && Mapped(p, k, src, sl, dst, dl)
              && k.log == old(k.log) + Pins(MappedFrames(k.frame, src, sl, dst, dl))
              && srcSg == (if src != 0 || dst == 0 then Some(0) else None)
              && dstSg == (if dst != 0 || src == 0 then Some(p.readonlyPages) else None)
  {
    hide Release, List, Range, PageCount, Frames, Pins, EndsAt, Mapped, MappedFrames;
    ret, srcSg, dstSg := 0, None, None;
    NoPages(src, sl);
    NoPages(dst, dl);
    var n := p.readonlyPages;
    ret := MapPart(p, k, src, sl, n, 0, gotSrc);
    if ret != 0 {
      return;
    }
    srcSg := if src != 0 then Some(0) else None;
    ghost var t := p.sg[..];
    ret := MapPart(p, k, dst, dl, p.usedPages - n, n, gotDst);
    if ret != 0 {
      if dst != 0 {
        ReleaseUserPages(p, k);
      }
      return;
    }
    dstSg := if dst != 0 then Some(n) else None;
    BothMapped(p, k, src, sl, dst, dl, t);
  }

  /** Two parts mapped one behind the other are the whole mapping. */
  lemma BothMapped(p: PageSet, k: Kernel, src: nat, sl: nat, dst: nat, dl: nat, t: seq<Sg>)
    requires var n, m := PageCount(src, sl), PageCount(dst, dl);
             && p.Valid() && src != dst && p.readonlyPages == n && p.usedPages == n + m <= p.arraySize
             && p.pages[..n] == Frames(k.frame, src, n) && p.pages[n..n + m] == Frames(k.frame, dst, m)
             && |t| == p.sg.Length && p.sg[..n] == t[..n]
             && (n > 0 ==> EndsAt(t, 0, n - 1) && List(t, 0) == Range(k.frame, src, sl))
             && (m > 0 ==> n < p.sg.Length && List(p.sg[..], n) == Range(k.frame, dst, dl))
    ensures Mapped(p, k, src, sl, dst, dl)
    ensures Pins(MappedFrames(k.frame, src, sl, dst, dl))
         == Pins(Frames(k.frame, src, PageCount(src, sl))) + Pins(Frames(k.frame, dst, PageCount(dst, dl)))
  {
    hide List, Range, PageCount, Frames, Pins, EndsAt;
    var n, m := PageCount(src, sl), PageCount(dst, dl);
    NoPages(src, sl);
    NoPages(dst, dl);
    assert p.pages[..n + m] == p.pages[..n] + p.pages[n..n + m];
    PinsSplit(Frames(k.frame, src, n), Frames(k.frame, dst, m));
    if n > 0 {
      assert p.sg[..][0..n] == t[0..n];
      ListFrame(t, p.sg[..], 0, n - 1);
    }
  }

  /** One of the two mappings; a null buffer has nothing to map. */
  method MapPart(p: PageSet, k: Kernel, addr: nat, len: nat, n: nat, base: nat, got: int) returns (ret: int)
    requires p.Valid() && base + n <= p.arraySize && (addr != 0 ==> base < p.arraySize)
    requires n == PageCount(addr, len) && got <= n && (addr == 0 ==> len == 0)
    modifies p.pages, p.sg, k`log
    ensures ret == 0 || ret == EINVAL
    ensures ret == 0 <==> PinsAll(n, got)
    ensures ret == 0 ==> k.log == old(k.log) + Pins(Frames(k.frame, addr, n))
    ensures ret == 0 ==> p.pages[..base] == old(p.pages[..base]) && p.pages[base..base + n] == Frames(k.frame, addr, n)
    ensures ret == 0 ==> p.sg[..base] == old(p.sg[..base])
    ensures ret == 0 && n > 0 ==>
              EndsAt(p.sg[..], base, base + n - 1) && List(p.sg[..], base) == Range(k.frame, addr, len)
  {
    hide Segments, List, Range, PageCount, Frames, Pins, EndsAt, Replaced;
    ret := 0;
    NoPages(addr, len);
    PinsNone(k.frame, addr);
    if addr != 0 {
      ghost var pages, sg := p.pages[..], p.sg[..];
      ret := GetUserbufRange(p, k, addr, len, n, base, got);
      if ret == 0 && n > 0 {
        ReplacedFront(pages, p.pages[..], base, Frames(k.frame, addr, n));
        ReplacedFront(sg, p.sg[..], base, Segments(k.frame, addr, len));
        assert p.pages[base..base + n] == p.pages[..][base..base + n];
      }
    }
  }

  lemma ReplacedFront<T>(before: seq<T>, after: seq<T>, base: nat, x: seq<T>)
    requires Replaced(before, after, base, x)
    ensures |after| == |before| && base + |x| <= |before|
    ensures after[base..base + |x|] == x && after[..base] == before[..base]
  {
  }

  lemma PinsNone(frame: PageTable, addr: nat)
    ensures Pins(Frames(frame, addr, 0)) == [] == Pins([])
  {
  }

  lemma PinsSplit(a: seq<nat>, b: seq<nat>)
    ensures Pins(a + b) == Pins(a) + Pins(b)
  {
  }
}
