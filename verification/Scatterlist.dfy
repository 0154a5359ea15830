/**
 Scatterlists: tables of (page, offset, length) entries, the last one marked.

 A scatterlist means a sequence of physical byte addresses.  `SgAdvance` and `SgCopy` edit
 entries in place; their contracts say what they do to that meaning.
 */
module Scatterlist {
  const PAGE_SIZE := 4096
  const ENOMEM := -12

  datatype Sg = Sg(page: nat, offset: nat, length: nat, last: bool)

  /** The addresses of one entry. */
  function Addrs(e: Sg): (r: seq<nat>)
    ensures |r| == e.length
  {
    Run(e.page * PAGE_SIZE + e.offset, e.length)
  }

  function Run(start: nat, n: nat): (r: seq<nat>)
    ensures |r| == n && forall k | 0 <= k < n :: r[k] == start + k
  {
    seq(n, k requires 0 <= k < n => start + k)
  }

  /** The addresses of a list: entry i of the table and its successors up to the end mark. */
  function List(t: seq<Sg>, i: nat): (r: seq<nat>)
    requires i < |t|
    decreases |t| - i
  {
    Addrs(t[i]) + (if t[i].last || i + 1 == |t| then [] else List(t, i + 1))
  }

  /** The end mark of the list at i is in the table, at index e. */
  predicate EndsAt(t: seq<Sg>, i: nat, e: nat) {
    && i <= e < |t| && t[e].last
    && forall k | i <= k < e :: !t[k].last
  }

  function SetPage(e: Sg, page: nat, length: nat, offset: nat): Sg {
    e.(page := page, length := length, offset := offset)
  }

  /** `sg_next`: the index after i, or None at the end mark (as the length of the table). */
  function Next(t: seq<Sg>, i: nat): nat
    requires i < |t|
  {
    if t[i].last then |t| else i + 1
  }

  lemma ListUnfold(t: seq<Sg>, i: nat, e: nat)
    requires EndsAt(t, i, e)
    ensures i == e ==> List(t, i) == Addrs(t[i])
    ensures i < e ==> EndsAt(t, i + 1, e) && List(t, i) == Addrs(t[i]) + List(t, i + 1)
  {
    if i == e {
      assert Addrs(t[i]) + [] == Addrs(t[i]);
    }
  }

  /** A list depends on its own entries only. */
  lemma {:induction false} ListFrame(t: seq<Sg>, u: seq<Sg>, i: nat, e: nat)
    requires EndsAt(t, i, e) && e < |u| && t[i..e + 1] == u[i..e + 1]
    ensures EndsAt(u, i, e) && List(u, i) == List(t, i)
    decreases e - i
  {
    assert forall k | i <= k <= e :: u[k] == u[i..e + 1][k - i] == t[k];
    ListUnfold(t, i, e);
    assert EndsAt(u, i, e);
    ListUnfold(u, i, e);
    if i < e {
      assert t[i + 1..e + 1] == t[i..e + 1][1..] == u[i + 1..e + 1];
      ListFrame(t, u, i + 1, e);
    }
  }

  /** Moving an offset of a page or more into the page number keeps every address. */
  lemma NormalisedAddrs(e: Sg)
    ensures Addrs(e) == Addrs(SetPage(e, e.page + e.offset / PAGE_SIZE, e.length, e.offset % PAGE_SIZE))
  {
    assert (e.page + e.offset / PAGE_SIZE) * PAGE_SIZE + e.offset % PAGE_SIZE == e.page * PAGE_SIZE + e.offset;
  }

  /** Dropping d bytes of an entry. */
  lemma DroppedAddrs(e: Sg, d: nat)
    requires d <= e.length
    ensures Addrs(e.(offset := e.offset + d, length := e.length - d)) == Addrs(e)[d..]
    ensures Addrs(e.(length := d)) == Addrs(e)[..d]
  {
  }

  datatype Position = Position(found: bool, index: nat, rest: nat)

  /** The entry that holds byte c of the list at i, and where in the entry it is. */
  function Seek(t: seq<Sg>, i: nat, c: nat): Position
    requires i < |t|
    decreases |t| - i
  {
    if c < t[i].length then Position(true, i, c)
    else if t[i].last || i + 1 == |t| then Position(false, i, c - t[i].length)
    else Seek(t, i + 1, c - t[i].length)
  }

  lemma {:induction false} SeekMeaning(t: seq<Sg>, i: nat, e: nat, c: nat)
    requires EndsAt(t, i, e)
    ensures var p := Seek(t, i, c);
            && (p.found <==> c < |List(t, i)|)
            && (p.found ==> i <= p.index <= e && EndsAt(t, p.index, e) && p.rest < t[p.index].length
                            && List(t, p.index)[p.rest..] == List(t, i)[c..])
    decreases e - i
  {
    ListUnfold(t, i, e);
    if c >= t[i].length && i < e {
      SeekMeaning(t, i + 1, e, c - t[i].length);
      assert c < |List(t, i)| ==> List(t, i)[c..] == List(t, i + 1)[c - t[i].length..];
    }
  }

  /** The entry with its first d bytes gone, and its offset kept below a page. */
  function Trimmed(x: Sg, d: nat): (y: Sg)
    requires d <= x.length
    ensures y.last == x.last && y.offset < PAGE_SIZE
  {
    var y := x.(offset := x.offset + d, length := x.length - d);
    if y.offset >= PAGE_SIZE then
      SetPage(y, y.page + y.offset / PAGE_SIZE, y.length, y.offset % PAGE_SIZE)
    else y
  }

  lemma TrimmedAddrs(x: Sg, d: nat)
    requires d <= x.length
    ensures Addrs(Trimmed(x, d)) == Addrs(x)[d..] && |Addrs(x)| == x.length
  {
    DroppedAddrs(x, d);
    NormalisedAddrs(x.(offset := x.offset + d, length := x.length - d));
  }

  lemma TrimmedList(t: seq<Sg>, j: nat, e: nat, d: nat)
    requires EndsAt(t, j, e) && d < t[j].length
    ensures EndsAt(t[j := Trimmed(t[j], d)], j, e)
    ensures List(t[j := Trimmed(t[j], d)], j) == List(t, j)[d..]
  {
    hide List, Addrs, Trimmed;
    var u := t[j := Trimmed(t[j], d)];
    TrimmedAddrs(t[j], d);
    assert EndsAt(u, j, e);
    ListUnfold(t, j, e);
    ListUnfold(u, j, e);
    if j < e {
      ListFrame(t, u, j + 1, e);
    }
  }

  /** `sg_advance`: not found (NULL) exactly when the list has no more than `consumed`
      bytes; otherwise the entry returned heads the list without its first `consumed`
      bytes, and no other entry has changed. */
  method SgAdvance(sg: array<Sg>, start: nat, consumed: nat, ghost e: nat) returns (found: bool, j: nat)
    requires EndsAt(sg[..], start, e)
    modifies sg
    ensures found <==> consumed < |List(old(sg[..]), start)|
    ensures found ==> start <= j <= e && EndsAt(sg[..], j, e) && sg[j].offset < PAGE_SIZE
    ensures found ==> List(sg[..], j) == List(old(sg[..]), start)[consumed..]
    ensures sg[..] == if found then old(sg[..])[j := sg[j]] else old(sg[..])
  {
    hide List, Addrs;
    ghost var t := sg[..];
    SeekMeaning(t, start, e, consumed);
    j, found := start, true;
    var rest: nat := consumed;
    while rest >= sg[j].length
      invariant start <= j <= e && sg[..] == t
      invariant Seek(t, j, rest) == Seek(t, start, consumed)
      decreases e - j
    {
      rest := rest - sg[j].length;
      if sg[j].last {
        return false, j;
      }
      j := j + 1;
    }
    TrimmedList(t, j, e, rest);
    sg[j] := sg[j].(offset := sg[j].offset + rest, length := sg[j].length - rest);
    if sg[j].offset >= PAGE_SIZE {
      sg[j] := SetPage(sg[j], sg[j].page + sg[j].offset / PAGE_SIZE, sg[j].length, sg[j].offset % PAGE_SIZE);
    }
    assert sg[..] == t[j := Trimmed(t[j], rest)];
  }

  /// Copying

  /** How many entries the first len bytes of the list at i reach. */
  function Reach(t: seq<Sg>, i: nat, len: nat): (n: nat)
    requires i < |t|
    ensures n > 0
    decreases |t| - i
  {
    if len <= t[i].length || t[i].last || i + 1 == |t| then 1 else 1 + Reach(t, i + 1, len - t[i].length)
  }

  datatype Copied = Copied(ret: int, table: seq<Sg>)

  /** The table after copying len bytes of the list at src over the entries at dst. */
  function Copy(t: seq<Sg>, src: nat, dst: nat, len: nat): Copied
    requires src < |t| && dst < |t|
    decreases |t| - src
  {
    if len > t[src].length then
      var u := t[dst := SetPage(t[dst], t[src].page, t[src].length, t[src].offset)];
      if t[src].last || t[dst].last || src + 1 == |t| || dst + 1 == |t| then Copied(ENOMEM, u)
      else Copy(u, src + 1, dst + 1, len - t[src].length)
    else
      var u := if len != 0 then t[dst := SetPage(t[dst], t[src].page, len, t[src].offset)] else t;
      Copied(0, u[dst := u[dst].(last := true)])
  }

  /** What the target denotes after a copy of len bytes that are there: a copy of no bytes only
      marks the end of the first target entry, whatever that entry holds. */
  function Target(t: seq<Sg>, src: nat, dst: nat, len: nat): seq<nat>
    requires src < |t| && dst < |t| && len <= |List(t, src)|
  {
    if len == 0 then Addrs(t[dst]) else List(t, src)[..len]
  }

  /** The last entry of a copy, cut to len bytes and marked. */
  lemma CopyEnds(t: seq<Sg>, src: nat, e: nat, dst: nat, len: nat)
    requires EndsAt(t, src, e) && dst < |t| && len <= t[src].length
    ensures var u := Copy(t, src, dst, len).table;
            EndsAt(u, dst, dst) && len <= |List(t, src)| && List(u, dst) == Target(t, src, dst, len)
  {
    var u := Copy(t, src, dst, len).table;
    ListUnfold(t, src, e);
    ListUnfold(u, dst, dst);
    DroppedAddrs(t[src], len);
    assert List(t, src)[..len] == Addrs(t[src])[..len];
  }

  /** What a copy to the entries dst to f has done, in success and in failure. */
  ghost predicate CopyDone(t: seq<Sg>, src: nat, dst: nat, f: nat, len: nat, c: Copied)
    requires src < |t| && dst <= f < |t|
  {
    var n := Reach(t, src, len);
    && |c.table| == |t| && (c.ret == 0 || c.ret == ENOMEM)
    && (c.ret == 0 <==> len <= |List(t, src)| && n <= f - dst + 1)
    && (forall k | 0 <= k < |t| && !(dst <= k <= f) :: c.table[k] == t[k])
    && (c.ret == 0 ==> EndsAt(c.table, dst, dst + n - 1) && List(c.table, dst) == Target(t, src, dst, len))
    && (c.ret != 0 ==> EndsAt(c.table, dst, f))
  }

  lemma {:induction false} CopyMeaning(t: seq<Sg>, src: nat, e: nat, dst: nat, f: nat, len: nat)
    requires EndsAt(t, src, e) && EndsAt(t, dst, f) && (e < dst || f < src)
    ensures CopyDone(t, src, dst, f, len, Copy(t, src, dst, len))
    decreases e - src
  {
    var u := t[dst := SetPage(t[dst], t[src].page, t[src].length, t[src].offset)];
    hide *;
    if len <= t[src].length {
      CopyWithin(t, src, e, dst, f, len);
    } else if src < e && dst < f {
      CopyStep(t, u, src, e, dst, f, len);
      CopyMeaning(u, src + 1, e, dst + 1, f, len - t[src].length);
      CopyHead(t, u, Copy(t, src, dst, len), src, e, dst, f, len);
    } else {
      CopyStops(t, src, e, dst, f, len);
    }
  }

  /** The copy ends inside its first entry. */
  lemma CopyWithin(t: seq<Sg>, src: nat, e: nat, dst: nat, f: nat, len: nat)
    requires EndsAt(t, src, e) && EndsAt(t, dst, f) && len <= t[src].length
    ensures CopyDone(t, src, dst, f, len, Copy(t, src, dst, len))
  {
    hide List, Addrs, Target;
    CopyEnds(t, src, e, dst, len);
  }

  /** The copy runs out of bytes to read or of entries to write. */
  lemma CopyStops(t: seq<Sg>, src: nat, e: nat, dst: nat, f: nat, len: nat)
    requires EndsAt(t, src, e) && EndsAt(t, dst, f)
    requires len > t[src].length && !(src < e && dst < f)
    ensures CopyDone(t, src, dst, f, len, Copy(t, src, dst, len))
  {
    hide List, Addrs;
    ListUnfold(t, src, e);
    assert src == e ==> len > |List(t, src)|;
  }

  /** One turn of the copy leaves what is still to be read and written as it was. */
  lemma CopyStep(t: seq<Sg>, u: seq<Sg>, src: nat, e: nat, dst: nat, f: nat, len: nat)
    requires EndsAt(t, src, e) && EndsAt(t, dst, f) && (e < dst || f < src)
    requires len > t[src].length && src < e && dst < f
    requires u == t[dst := SetPage(t[dst], t[src].page, t[src].length, t[src].offset)]
    ensures !t[dst].last && e < |t| == |u| && f < |t| && src < |t|
    ensures Copy(t, src, dst, len) == Copy(u, src + 1, dst + 1, len - t[src].length)
    ensures Reach(t, src, len) == 1 + Reach(t, src + 1, len - t[src].length)
    ensures EndsAt(u, src + 1, e) && EndsAt(u, dst + 1, f) && u[dst + 1].length == t[dst + 1].length
    ensures List(u, src + 1) == List(t, src + 1)
    ensures Reach(u, src + 1, len - t[src].length) == Reach(t, src + 1, len - t[src].length)
  {
    assert u[src + 1..e + 1] == t[src + 1..e + 1];
    ListFrame(t, u, src + 1, e);
    ReachFrame(t, u, src + 1, e, len - t[src].length);
    hide List;
  }

  /** What the first entry of a copy adds to what is known of the rest. */
  lemma CopyHead(t: seq<Sg>, u: seq<Sg>, c: Copied, src: nat, e: nat, dst: nat, f: nat, len: nat)
    requires EndsAt(t, src, e) && len > t[src].length && src < e && dst < f < |t| && !t[dst].last
    requires u == t[dst := SetPage(t[dst], t[src].page, t[src].length, t[src].offset)]
    requires List(u, src + 1) == List(t, src + 1)
    requires Reach(u, src + 1, len - t[src].length) == Reach(t, src + 1, len - t[src].length)
    requires Reach(t, src, len) == 1 + Reach(t, src + 1, len - t[src].length)
    requires CopyDone(u, src + 1, dst + 1, f, len - t[src].length, c)
    ensures CopyDone(t, src, dst, f, len, c)
  {
    hide List, Reach, Addrs;
    var m := len - t[src].length;
    ListUnfold(t, src, e);
    SameAddrs(t[src], u[dst]);
    assert c.table[dst] == u[dst];
    if c.ret == 0 {
      var g := dst + Reach(t, src, len) - 1;
      assert EndsAt(c.table, dst, g);
      ListUnfold(c.table, dst, g);
      assert List(t, src)[..len] == Addrs(t[src]) + List(t, src + 1)[..m];
    } else {
      assert EndsAt(c.table, dst, f);
    }
  }

  lemma SameAddrs(x: Sg, y: Sg)
    requires x.page == y.page && x.offset == y.offset && x.length == y.length
    ensures Addrs(x) == Addrs(y) && |Addrs(x)| == x.length
  {
  }

  lemma {:induction false} ReachFrame(t: seq<Sg>, u: seq<Sg>, i: nat, e: nat, len: nat)
    requires EndsAt(t, i, e) && |u| == |t| && t[i..e + 1] == u[i..e + 1]
    ensures Reach(u, i, len) == Reach(t, i, len)
    decreases e - i
  {
    assert forall k | i <= k <= e :: u[k] == u[i..e + 1][k - i] == t[k];
    if len > t[i].length && i < e {
      assert t[i + 1..e + 1] == t[i..e + 1][1..] == u[i + 1..e + 1];
      ReachFrame(t, u, i + 1, e, len - t[i].length);
    }
  }

  /** A copy that asks a single entry for more bytes than it has, into empty entries, fails but
      leaves that entry's bytes in the target. */
  lemma CopyShort(t: seq<Sg>, src: nat, dst: nat, f: nat, len: nat)
    requires EndsAt(t, src, src) && EndsAt(t, dst, f)
    requires len > t[src].length && forall k | dst <= k <= f :: t[k].length == 0
    ensures var c := Copy(t, src, dst, len);
            c.ret != 0 && EndsAt(c.table, dst, f) && List(c.table, dst) == Addrs(t[src])
  {
    var u := t[dst := SetPage(t[dst], t[src].page, t[src].length, t[src].offset)];
    assert Copy(t, src, dst, len) == Copied(ENOMEM, u) && EndsAt(u, dst, f);
    hide Copy, List, Addrs;
    SameAddrs(t[src], u[dst]);
    ListUnfold(u, dst, f);
    if dst < f {
      EmptyList(u, dst + 1, f);
    }
  }

  lemma {:induction false} EmptyList(t: seq<Sg>, i: nat, e: nat)
    requires EndsAt(t, i, e) && forall k | i <= k <= e :: t[k].length == 0
    ensures List(t, i) == []
    decreases e - i
  {
    ListUnfold(t, i, e);
    if i < e {
      EmptyList(t, i + 1, e);
    }
  }

  /** What a copy between lists that do not overlap means. */
  ghost predicate CopyMeans(t: seq<Sg>, from: nat, to: nat, f: nat, len: nat, c: Copied)
    requires from < |t| && to <= f < |t|
  {
    && |c.table| == |t| && (c.ret == 0 || c.ret == ENOMEM)
    && (c.ret == 0 <==> len <= |List(t, from)| && Reach(t, from, len) <= f - to + 1)
    && (c.ret == 0 ==> (List(c.table, to) == List(t, from)[..len] <==> len > 0 || t[to].length == 0))
    && (c.ret == 0 && len == 0 ==> List(c.table, to) == Addrs(t[to]))
    && (c.ret == 0 ==> EndsAt(c.table, to, to + Reach(t, from, len) - 1))
    && (c.ret != 0 ==> EndsAt(c.table, to, f))
    && (forall k | 0 <= k < |t| && !(to <= k <= f) :: c.table[k] == t[k])
  }

  lemma CopySays(t: seq<Sg>, from: nat, to: nat, f: nat, len: nat, c: Copied)
    requires from < |t| && to <= f < |t| && CopyDone(t, from, to, f, len, c)
    ensures CopyMeans(t, from, to, f, len, c)
  {
  }

  /** `sg_copy` within one table, from the list at `from` to the f - to + 1 entries at `to`, in every
      case as `Copy` says.  If the two do not overlap, it fails exactly when the bytes are not
      there or take more entries than there are, and otherwise the target denotes the first len
      bytes of the source, unless no bytes are asked for and the target's first entry is not
      empty. */
  method SgCopy(sg: array<Sg>, from: nat, to: nat, len: nat, ghost e: nat, ghost f: nat) returns (ret: int)
    requires EndsAt(sg[..], from, e) && EndsAt(sg[..], to, f)
    modifies sg
    ensures Copied(ret, sg[..]) == Copy(old(sg[..]), from, to, len)
    ensures e < to || f < from ==> CopyMeans(old(sg[..]), from, to, f, len, Copied(ret, sg[..]))
  {
    hide List, Reach, CopyMeans;
    ghost var c := Copy(sg[..], from, to, len);
    if e < to || f < from {
      CopyMeaning(sg[..], from, e, to, f, len);
      CopySays(sg[..], from, to, f, len, c);
    }
    var src: nat, dst: nat, rest: nat := from, to, len;
    while rest > sg[src].length
      invariant src < sg.Length && dst < sg.Length
      invariant EndsAt(sg[..], src, e) && EndsAt(sg[..], dst, f)
      invariant Copy(sg[..], src, dst, rest) == c
      decreases e - src
    {
      ghost var t := sg[..];
      var entry := sg[src];
      rest := rest - entry.length;
      sg[dst] := SetPage(sg[dst], entry.page, entry.length, entry.offset);
      assert sg[..] == t[dst := SetPage(t[dst], entry.page, entry.length, entry.offset)];
      if sg[src].last || sg[dst].last {
        return ENOMEM;
      }
      src, dst := src + 1, dst + 1;
    }
    if rest != 0 {
      sg[dst] := SetPage(sg[dst], sg[src].page, rest, sg[src].offset);
    }
    sg[dst] := sg[dst].(last := true);
    ret := 0;
    assert sg[..] == c.table;
  }
}
