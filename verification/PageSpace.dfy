/**
The space on a b-tree page (allocateSpace, pageFindSlot, freeSpace, defragmentPage, insertCell, dropCell and the
accounting of btreeInitPage): cells, a list of freeblocks inside the page, and up to 62 bytes of fragments.
*/
module PageSpace {
  import opened Encoding

  /** A page as far as its type fixes it. cellSizePtr is the size of the cell that the given bytes begin with. */
  datatype Layout = Layout(pageSize: nat, usableSize: nat, hdr: nat, childPtrSize: nat, cellSizePtr: Bytes -> nat)
  {
    ghost predicate Valid() {
      && 480 <= usableSize <= pageSize <= 65536 && (hdr == 0 || hdr == 100) && (childPtrSize == 0 || childPtrSize == 4)
      // The size of a cell depends on the cell only, not on what follows it.
      && (forall s: Bytes, t: Bytes {:trigger cellSizePtr(s), cellSizePtr(t)} ::
            cellSizePtr(s) <= |s| && cellSizePtr(s) <= |t| && t[..cellSizePtr(s)] == s[..cellSizePtr(s)] ==>
              cellSizePtr(t) == cellSizePtr(s))
    }

    function CellOffset(): nat { hdr + 8 + childPtrSize }
  }

  // ----- Two-byte numbers -----

  function Get2(d: Bytes, i: nat): nat
    requires i + 2 <= |d|
  {
    d[i] as int * 256 + d[i + 1] as int
  }

  /** A content offset of 65536 is stored as 0. */
  function Top(L: Layout, d: Bytes): nat
    requires L.hdr + 7 <= |d|
  {
    if Get2(d, L.hdr + 5) == 0 then 65536 else Get2(d, L.hdr + 5)
  }

  function Put2(d: Bytes, i: nat, v: nat): (r: Bytes)
    requires i + 2 <= |d| && v <= 65536
    ensures |r| == |d|
    ensures v < 65536 ==> Get2(r, i) == v
    ensures v == 65536 ==> Get2(r, i) == 0
    ensures forall k :: 0 <= k < |d| && k != i && k != i + 1 ==> r[k] == d[k]
  {
    d[i := v / 256 % 256][i + 1 := v % 256]
  }

  // ----- Regions of a page -----

  datatype Region = Region(off: nat, size: nat)
  {
    function End(): nat { off + size }
  }

  predicate Apart(a: Region, b: Region) { a.End() <= b.off || b.End() <= a.off }

  ghost predicate AllApart(rs: seq<Region>) {
    forall i, j :: 0 <= i < j < |rs| ==> Apart(rs[i], rs[j])
  }

  ghost predicate ApartFrom(rs: seq<Region>, qs: seq<Region>) {
    forall i, j :: 0 <= i < |rs| && 0 <= j < |qs| ==> Apart(rs[i], qs[j])
  }

  ghost predicate Within(rs: seq<Region>, lo: nat, hi: nat) {
    forall i :: 0 <= i < |rs| ==> lo <= rs[i].off && rs[i].End() <= hi && rs[i].size >= 4
  }

  function Total(rs: seq<Region>): nat {
    if rs == [] then 0 else Total(rs[..|rs| - 1]) + rs[|rs| - 1].size
  }

  /** The first freeblock of at least n bytes. */
  predicate FirstFit(fl: seq<Region>, n: nat, j: nat) {
    j < |fl| && fl[j].size >= n && forall i :: 0 <= i < j ==> fl[i].size < n
  }

  /** Freeblocks ascend, with at least four bytes between them. */
  ghost predicate Ascending(fl: seq<Region>) {
    forall i, j :: 0 <= i < j < |fl| ==> fl[i].End() + 4 <= fl[j].off
  }

  // ----- Sums over regions -----

  lemma {:induction false} TotalConcat(a: seq<Region>, b: seq<Region>)
    ensures Total(a + b) == Total(a) + Total(b)
  {
    if b == [] {
      assert a + b == a;
    } else {
      assert (a + b)[..|a + b| - 1] == a + b[..|b| - 1];
      TotalConcat(a, b[..|b| - 1]);
    }
  }

  function InsertAt<T>(s: seq<T>, i: nat, x: T): seq<T>
    requires i <= |s|
  {
    s[..i] + [x] + s[i..]
  }

  function RemoveAt<T>(s: seq<T>, i: nat): seq<T>
    requires i < |s|
  {
    s[..i] + s[i + 1..]
  }

  /** r is s with x at index i, before what was there. */
  ghost predicate Inserted<T>(s: seq<T>, r: seq<T>, i: nat, x: T) {
    i <= |s| && |r| == |s| + 1 && r[..i] == s[..i] && r[i] == x && r[i + 1..] == s[i..]
  }

  /** r is s without its element i. */
  ghost predicate Removed<T>(s: seq<T>, r: seq<T>, i: nat) {
    i < |s| && |r| == |s| - 1 && r[..i] == s[..i] && r[i..] == s[i + 1..]
  }

  lemma InsertAtInserts<T>(s: seq<T>, i: nat, x: T)
    requires i <= |s|
    ensures Inserted(s, InsertAt(s, i, x), i, x)
  {}

  lemma RemoveAtRemoves<T>(s: seq<T>, i: nat)
    requires i < |s|
    ensures Removed(s, RemoveAt(s, i), i)
  {}

  lemma TotalOne(r: Region)
    ensures Total([r]) == r.size
  {
    assert [r][..0] == [];
    assert Total([r][..0]) == 0;
  }

  lemma TotalInsert(s: seq<Region>, i: nat, r: Region)
    requires i <= |s|
    ensures Total(InsertAt(s, i, r)) == Total(s) + r.size
  {
    assert s == s[..i] + s[i..];
    TotalOne(r);
    TotalConcat(s[..i], s[i..]);
    TotalConcat(s[..i], [r]);
    TotalConcat(s[..i] + [r], s[i..]);
  }

  lemma TotalRemove(s: seq<Region>, i: nat)
    requires i < |s|
    ensures Total(RemoveAt(s, i)) + s[i].size == Total(s)
  {
    hide Total;
    TotalInsert(RemoveAt(s, i), i, s[i]);
    assert InsertAt(RemoveAt(s, i), i, s[i]) == s;
  }

  lemma TotalUpdate(s: seq<Region>, i: nat, r: Region)
    requires i < |s|
    ensures Total(s[i := r]) + s[i].size == Total(s) + r.size
  {
    TotalRemove(s, i);
    TotalRemove(s[i := r], i);
    assert RemoveAt(s[i := r], i) == RemoveAt(s, i);
  }

  /** The bytes of a region, and of several. */
  ghost function Span(lo: int, hi: int): (s: set<int>)
    ensures forall x :: x in s <==> lo <= x < hi
    decreases hi - lo
  {
    if lo >= hi then {} else Span(lo, hi - 1) + {hi - 1}
  }

  lemma {:induction false} SpanSize(lo: int, hi: int)
    requires lo <= hi
    ensures |Span(lo, hi)| == hi - lo
    decreases hi - lo
  {
    if lo < hi {
      SpanSize(lo, hi - 1);
    }
  }

  ghost function Covered(rs: seq<Region>): set<int> {
    if rs == [] then {} else Covered(rs[..|rs| - 1]) + Span(rs[|rs| - 1].off, rs[|rs| - 1].End())
  }

  lemma {:induction false} CoveredHas(rs: seq<Region>, x: int)
    ensures x in Covered(rs) <==> exists i :: 0 <= i < |rs| && rs[i].off <= x < rs[i].End()
  {
    if rs != [] {
      var n := |rs| - 1;
      CoveredHas(rs[..n], x);
      if i :| 0 <= i < n && rs[i].off <= x < rs[i].End() {
        assert rs[..n][i] == rs[i];
      }
    }
  }

  lemma {:induction false} CoveredSize(rs: seq<Region>)
    requires AllApart(rs)
    ensures |Covered(rs)| == Total(rs)
  {
    if rs != [] {
      var n := |rs| - 1;
      var last := Span(rs[n].off, rs[n].End());
      CoveredSize(rs[..n]);
      SpanSize(rs[n].off, rs[n].End());
      forall x | x in Covered(rs[..n])
        ensures x !in last
      {
        CoveredHas(rs[..n], x);
        var i :| 0 <= i < n && rs[..n][i].off <= x < rs[..n][i].End();
        assert Apart(rs[i], rs[n]);
      }
      assert Covered(rs[..n]) !! last;
    }
  }

  lemma SubsetSize(a: set<int>, b: set<int>)
    requires a <= b
    ensures |a| <= |b| && |b - a| == |b| - |a|
  {
    assert b == a + (b - a);
  }

  /** Regions of a page that lie apart take no more than there is. */
  lemma TotalFits(rs: seq<Region>, lo: nat, hi: nat)
    requires AllApart(rs) && Within(rs, lo, hi) && lo <= hi
    ensures Total(rs) <= hi - lo
    ensures |Span(lo, hi) - Covered(rs)| == hi - lo - Total(rs)
  {
    CoveredSize(rs);
    SpanSize(lo, hi);
    forall x | x in Covered(rs)
      ensures x in Span(lo, hi)
    {
      CoveredHas(rs, x);
    }
    SubsetSize(Covered(rs), Span(lo, hi));
  }

  // ----- The freeblocks -----

  // Where the offset of freeblock j is stored: in the page header or in the freeblock before it.
  function LinkAddr(L: Layout, fl: seq<Region>, j: nat): nat
    requires j <= |fl|
  {
    if j == 0 then L.hdr + 1 else fl[j - 1].off
  }

  function OffAt(fl: seq<Region>, j: nat): nat { if j < |fl| then fl[j].off else 0 }

  ghost predicate LinkOk(L: Layout, d: Bytes, fl: seq<Region>, j: nat)
    requires j <= |fl|
  {
    LinkAddr(L, fl, j) + 2 <= |d| && Get2(d, LinkAddr(L, fl, j)) == OffAt(fl, j)
  }

  ghost predicate SizeOk(d: Bytes, fl: seq<Region>, j: nat)
    requires j < |fl|
  {
    fl[j].off + 4 <= |d| && Get2(d, fl[j].off + 2) == fl[j].size
  }

  /** The freeblocks are linked in order, each with its size in its third and fourth byte. */
  ghost predicate FreeList(L: Layout, d: Bytes, fl: seq<Region>) {
    && (forall j :: 0 <= j <= |fl| ==> LinkOk(L, d, fl, j))
    && (forall j :: 0 <= j < |fl| ==> SizeOk(d, fl, j))
  }

  /**
  The content area of a page: regions in use, freeblocks and fragments share the bytes from its top to the end of the
  usable space, and frag counts what is neither in use nor in a freeblock.
  */
  ghost predicate Partition(top: nat, end: nat, used: seq<Region>, fl: seq<Region>, frag: nat) {
    && top <= end
    && Within(used, top, end) && AllApart(used)
    && Within(fl, top + 1, end) && Ascending(fl) && ApartFrom(used, fl)
    && Total(used) + Total(fl) + frag == end - top
  }

  ghost predicate Space(L: Layout, d: Bytes, used: seq<Region>, fl: seq<Region>) {
    && L.Valid() && |d| == L.pageSize && L.CellOffset() <= Top(L, d) <= L.usableSize
    && Partition(Top(L, d), L.usableSize, used, fl, d[L.hdr + 7] as nat) && FreeList(L, d, fl) && d[L.hdr + 7] <= 62
  }

  /** The bytes in use are as before, and so are the pointer array and the gap behind it. */
  ghost predicate Keeps(L: Layout, d: Bytes, d': Bytes, used: seq<Region>)
    requires L.Valid() && |d| == L.pageSize
  {
    && |d'| == |d|
    && (forall i, k {:trigger used[i], d'[k]} :: 0 <= i < |used| && used[i].off <= k < used[i].End() && k < |d| ==>
          d'[k] == d[k])
    && (forall k :: L.hdr + 8 <= k < Top(L, d) && k < |d| ==> d'[k] == d[k])
    && (forall k :: 0 <= k <= L.hdr || L.usableSize <= k < |d| ==> d'[k] == d[k])
    && d'[L.hdr + 3] == d[L.hdr + 3] && d'[L.hdr + 4] == d[L.hdr + 4]
  }

  /**
  What no operation on cells touches: the file header before the header of page 1, the flags of the page, the right
  child of an interior page, and the reserved bytes at the end.
  */
  ghost predicate Outside(L: Layout, d: Bytes, d': Bytes) {
    && |d'| == |d| && L.CellOffset() <= |d|
    && forall k :: (0 <= k <= L.hdr || L.hdr + 8 <= k < L.CellOffset() || L.usableSize <= k < |d|) ==> d'[k] == d[k]
  }

  // Also when a region is given back.
  lemma FreedOutside(L: Layout, d: Bytes, d': Bytes, used: seq<Region>, fl: seq<Region>, k: nat)
    requires Space(L, d, used, fl) && k < |used| && Keeps(L, d, d', RemoveAt(used, k))
    ensures Outside(L, d, d')
  {}

  lemma OutsideSelf(L: Layout, d: Bytes, used: seq<Region>, fl: seq<Region>)
    requires Space(L, d, used, fl)
    ensures Outside(L, d, d)
  {}

  lemma KeepsOutside(L: Layout, d: Bytes, d': Bytes, used: seq<Region>, fl: seq<Region>)
    requires Space(L, d, used, fl) && Keeps(L, d, d', used)
    ensures Outside(L, d, d')
  {}

  // Changes outside of the links leave the list as it is.
  lemma SameFreeList(L: Layout, d: Bytes, d': Bytes, fl: seq<Region>)
    requires FreeList(L, d, fl) && |d'| == |d| && L.hdr + 8 <= |d|
    requires d'[L.hdr + 1] == d[L.hdr + 1] && d'[L.hdr + 2] == d[L.hdr + 2]
    requires forall j, k {:trigger fl[j], d'[k]} :: 0 <= j < |fl| && fl[j].off <= k < fl[j].off + 4 && k < |d| ==>
      d'[k] == d[k]
    ensures FreeList(L, d', fl)
  {
    forall j | 0 <= j <= |fl|
      ensures LinkOk(L, d', fl, j)
    {
      assert LinkOk(L, d, fl, j);
      assert j > 0 ==> SizeOk(d, fl, j - 1);
    }
    forall j | 0 <= j < |fl|
      ensures SizeOk(d', fl, j)
    {
      assert SizeOk(d, fl, j);
    }
  }

  // Freeblocks lie behind the page header, at least eight bytes from link to link.
  lemma Separate(L: Layout, fl: seq<Region>, i: nat, j: nat)
    requires Ascending(fl) && i < |fl| && j < |fl| && forall i :: 0 <= i < |fl| ==>
      fl[i].size >= 4 && fl[i].off >= L.hdr + 8
    ensures fl[i].size >= 4 && fl[i].off >= L.hdr + 8
    ensures i < j ==> fl[i].End() + 4 <= fl[j].off
    ensures j < i ==> fl[j].End() + 4 <= fl[i].off
  {}

  // ----- Taking space -----

  // The end of freeblock j is taken: only its size changes.
  lemma TakeTailList(L: Layout, d: Bytes, fl: seq<Region>, j: nat, x: nat)
    requires FreeList(L, d, fl) && Ascending(fl) && j < |fl| && 4 <= x < fl[j].size < 65536 && fl[j].off + 4 <= |d|
    requires forall i :: 0 <= i < |fl| ==> fl[i].size >= 4 && fl[i].off >= L.hdr + 8
    ensures FreeList(L, Put2(d, fl[j].off + 2, x), fl[j := Region(fl[j].off, x)])
  {
    hide Put2, Ascending;
    var d', fl' := Put2(d, fl[j].off + 2, x), fl[j := Region(fl[j].off, x)];
    forall i | 0 <= i <= |fl'|
      ensures LinkOk(L, d', fl', i)
    {
      assert LinkOk(L, d, fl, i);
      if i > 0 {
        Separate(L, fl, i - 1, j);
      }
    }
    forall i | 0 <= i < |fl'|
      ensures SizeOk(d', fl', i)
    {
      assert SizeOk(d, fl, i);
      Separate(L, fl, i, j);
    }
  }

  // Removing freeblock j from the list: its link goes to the one before it.
  lemma UnlinkLink(L: Layout, d: Bytes, fl: seq<Region>, j: nat, i: nat)
    requires j < |fl| && i < |fl|
    requires LinkOk(L, d, fl, j) && LinkOk(L, d, fl, if i <= j then i else i + 1) && OffAt(fl, j + 1) < 65536
    requires Ascending(fl) && forall i :: 0 <= i < |fl| ==> fl[i].size >= 4 && fl[i].off >= L.hdr + 8
    ensures LinkOk(L, Put2(d, LinkAddr(L, fl, j), OffAt(fl, j + 1)), RemoveAt(fl, j), i)
  {
    hide Put2, Ascending;
    if i > 0 && j > 0 {
      Separate(L, fl, if i <= j then i - 1 else i, j - 1);
    } else if i > 0 {
      Separate(L, fl, i, 0);
    }
  }

  lemma UnlinkSize(L: Layout, d: Bytes, fl: seq<Region>, j: nat, i: nat)
    requires j < |fl| && i + 1 < |fl|
    requires LinkOk(L, d, fl, j) && SizeOk(d, fl, if i < j then i else i + 1) && OffAt(fl, j + 1) < 65536
    requires Ascending(fl) && forall i :: 0 <= i < |fl| ==> fl[i].size >= 4 && fl[i].off >= L.hdr + 8
    ensures SizeOk(Put2(d, LinkAddr(L, fl, j), OffAt(fl, j + 1)), RemoveAt(fl, j), i)
  {
    Separate(L, fl, if i < j then i else i + 1, if j > 0 then j - 1 else 0);
    hide Put2, Ascending;
  }

  lemma UnlinkList(L: Layout, d: Bytes, fl: seq<Region>, j: nat)
    requires FreeList(L, d, fl) && Ascending(fl) && j < |fl| && L.hdr + 8 <= |d| <= 65536
    requires forall i :: 0 <= i < |fl| ==> fl[i].size >= 4 && fl[i].off >= L.hdr + 8
    ensures LinkAddr(L, fl, j) + 2 <= |d| && OffAt(fl, j + 1) < 65536
    ensures FreeList(L, Put2(d, LinkAddr(L, fl, j), OffAt(fl, j + 1)), RemoveAt(fl, j))
  {
    hide Put2, Ascending, Get2;
    assert LinkOk(L, d, fl, j) && (j + 1 < |fl| ==> SizeOk(d, fl, j + 1));
    var d', fl' := Put2(d, LinkAddr(L, fl, j), OffAt(fl, j + 1)), RemoveAt(fl, j);
    forall i | 0 <= i <= |fl'|
      ensures LinkOk(L, d', fl', i)
    {
      UnlinkLink(L, d, fl, j, i);
    }
    forall i | 0 <= i < |fl'|
      ensures SizeOk(d', fl', i)
    {
      UnlinkSize(L, d, fl, j, i);
    }
  }

  // Regions apart from each other, with one more.
  lemma ApartMore(used: seq<Region>, r: Region)
    requires AllApart(used) && forall i :: 0 <= i < |used| ==> Apart(used[i], r)
    ensures AllApart(used + [r])
  {}

  // A freeblock that has become shorter.
  lemma ShortenKeeps(lo: nat, hi: nat, used: seq<Region>, fl: seq<Region>, j: nat, b: Region)
    requires Within(fl, lo, hi) && Ascending(fl) && ApartFrom(used, fl) && j < |fl|
    requires b.off == fl[j].off && 4 <= b.size <= fl[j].size
    ensures Within(fl[j := b], lo, hi) && Ascending(fl[j := b]) && ApartFrom(used, fl[j := b])
  {
    var fl' := fl[j := b];
    forall i, m | 0 <= i < |used| && 0 <= m < |fl'|
      ensures Apart(used[i], fl'[m])
    {
      assert Apart(used[i], fl[m]);
    }
  }

  lemma BehindShortened(fl: seq<Region>, j: nat, b: Region, r: Region)
    requires Ascending(fl) && j < |fl| && b.off == fl[j].off && b.End() == r.off && r.End() == fl[j].End()
    ensures ApartFrom([r], fl[j := b])
  {
    var fl' := fl[j := b];
    forall m | 0 <= m < |fl'|
      ensures Apart(r, fl'[m])
    {
      assert m < j ==> fl[m].End() + 4 <= fl[j].off;
      assert j < m ==> fl[j].End() + 4 <= fl[m].off;
    }
  }

  lemma TakeTailRegions(top: nat, end: nat, used: seq<Region>, fl: seq<Region>, frag: nat, j: nat, n: nat)
    requires Partition(top, end, used, fl, frag) && j < |fl| && 4 <= n && n + 4 <= fl[j].size
    ensures var x := fl[j].size - n;
      Partition(top, end, used + [Region(fl[j].off + x, n)], fl[j := Region(fl[j].off, x)], frag)
  {
    hide Total, AllApart, Ascending, ApartFrom;
    var x := fl[j].size - n;
    var b, r := Region(fl[j].off, x), Region(fl[j].off + x, n);
    TotalUpdate(fl, j, b);
    TotalConcat(used, [r]);
    TotalOne(r);
    UsedApart(used, fl, j, r);
    ApartMore(used, r);
    ShortenKeeps(top + 1, end, used, fl, j, b);
    BehindShortened(fl, j, b, r);
    ApartFromMore(used, r, fl[j := b]);
  }

  lemma UsedApart(used: seq<Region>, fl: seq<Region>, j: nat, r: Region)
    requires ApartFrom(used, fl) && j < |fl| && fl[j].off <= r.off && r.End() <= fl[j].End()
    ensures forall i :: 0 <= i < |used| ==> Apart(used[i], r)
  {
    forall i | 0 <= i < |used|
      ensures Apart(used[i], r)
    {
      assert Apart(used[i], fl[j]);
    }
  }

  lemma RemoveKeeps(lo: nat, hi: nat, used: seq<Region>, fl: seq<Region>, j: nat)
    requires Within(fl, lo, hi) && Ascending(fl) && ApartFrom(used, fl) && j < |fl|
    ensures Within(RemoveAt(fl, j), lo, hi) && Ascending(RemoveAt(fl, j)) && ApartFrom(used, RemoveAt(fl, j))
  {}

  // Space inside freeblock j is apart from the other ones.
  lemma InsideBlock(fl: seq<Region>, j: nat, r: Region)
    requires Ascending(fl) && j < |fl| && fl[j].off <= r.off && r.End() <= fl[j].End()
    ensures ApartFrom([r], RemoveAt(fl, j))
  {
    var fl' := RemoveAt(fl, j);
    forall i | 0 <= i < |fl'|
      ensures Apart(r, fl'[i])
    {
      var i' := if i < j then i else i + 1;
      assert i' < j ==> fl[i'].End() + 4 <= fl[j].off;
      assert j < i' ==> fl[j].End() + 4 <= fl[i'].off;
    }
  }

  lemma ApartFromMore(used: seq<Region>, r: Region, fl: seq<Region>)
    requires ApartFrom(used, fl) && ApartFrom([r], fl)
    ensures ApartFrom(used + [r], fl)
  {
    forall i, j | 0 <= i < |used + [r]| && 0 <= j < |fl|
      ensures Apart((used + [r])[i], fl[j])
    {
      if i == |used| {
        assert Apart([r][0], fl[j]);
      }
    }
  }

  lemma TakeWholeRegions(top: nat, end: nat, used: seq<Region>, fl: seq<Region>, frag: nat, j: nat, n: nat)
    requires Partition(top, end, used, fl, frag) && j < |fl| && 4 <= n <= fl[j].size
    ensures var x := fl[j].size - n;
      Partition(top, end, used + [Region(fl[j].off + x, n)], RemoveAt(fl, j), frag + x)
  {
    var x := fl[j].size - n;
    var r, fl' := Region(fl[j].off + x, n), RemoveAt(fl, j);
    TotalRemove(fl, j);
    TotalConcat(used, [r]);
    TotalOne(r);
    forall i | 0 <= i < |used|
      ensures Apart(used[i], r)
    {
      assert Apart(used[i], fl[j]);
    }
    ApartMore(used, r);
    RemoveKeeps(top + 1, end, used, fl, j);
    InsideBlock(fl, j, r);
    ApartFromMore(used, r, fl');
    hide Total, AllApart, Ascending, ApartFrom;
  }

  lemma TakeGapRegions(top: nat, end: nat, used: seq<Region>, fl: seq<Region>, frag: nat, n: nat)
    requires Partition(top, end, used, fl, frag) && 4 <= n <= top
    ensures Partition(top - n, end, used + [Region(top - n, n)], fl, frag)
  {
    var r := Region(top - n, n);
    TotalConcat(used, [r]);
    TotalOne(r);
    ApartMore(used, r);
    hide Total, AllApart;
  }

  // Writing to a link or to the size of a freeblock keeps what is in use.
  lemma KeepsInBlock(L: Layout, d: Bytes, d': Bytes, used: seq<Region>, fl: seq<Region>, j: nat)
    requires L.Valid() && |d| == L.pageSize && |d'| == |d| && j < |fl| && ApartFrom(used, fl) && Top(L, d) <= fl[j].off
    requires L.hdr + 8 <= Top(L, d) && fl[j].End() <= L.usableSize
    requires forall k :: 0 <= k < |d| && !(fl[j].off <= k < fl[j].End()) ==> d'[k] == d[k]
    ensures Keeps(L, d, d', used)
  {
    forall i, k {:trigger used[i], d'[k]} | 0 <= i < |used| && used[i].off <= k < used[i].End() && k < |d|
      ensures d'[k] == d[k]
    {
      assert Apart(used[i], fl[j]);
    }
  }

  lemma KeepsInHeader(L: Layout, d: Bytes, d': Bytes, used: seq<Region>)
    requires L.Valid() && |d| == L.pageSize && |d'| == |d| && Within(used, Top(L, d), L.usableSize)
      && L.hdr + 8 <= Top(L, d)
    requires forall k :: 0 <= k < |d| && !(L.hdr + 1 <= k < L.hdr + 3) && !(L.hdr + 5 <= k < L.hdr + 8) ==>
      d'[k] == d[k]
    ensures Keeps(L, d, d', used)
  {}

  lemma KeepsTrans(L: Layout, d: Bytes, d': Bytes, d2: Bytes, used: seq<Region>)
    requires L.Valid() && |d| == L.pageSize && Keeps(L, d, d', used) && Top(L, d') == Top(L, d)
      && Keeps(L, d', d2, used)
    ensures Keeps(L, d, d2, used)
  {}

  lemma PartitionApart(top: nat, end: nat, used: seq<Region>, fl: seq<Region>, frag: nat)
    requires Partition(top, end, used, fl, frag)
    ensures ApartFrom(used, fl) && Within(used, top, end) && Within(fl, top + 1, end) && Ascending(fl)
  {}

  lemma SpaceFacts(L: Layout, d: Bytes, used: seq<Region>, fl: seq<Region>)
    requires Space(L, d, used, fl)
    ensures L.Valid() && 480 <= L.usableSize <= |d| == L.pageSize <= 65536
      && L.hdr + 8 <= L.CellOffset() <= Top(L, d) <= L.usableSize
    ensures Partition(Top(L, d), L.usableSize, used, fl, d[L.hdr + 7] as nat) && FreeList(L, d, fl)
      && d[L.hdr + 7] <= 62
    ensures ApartFrom(used, fl) && Within(used, Top(L, d), L.usableSize) && Within(fl, Top(L, d) + 1, L.usableSize)
      && Ascending(fl)
    ensures forall i :: 0 <= i < |fl| ==>
      fl[i].size >= 4 && fl[i].off >= L.hdr + 8 && fl[i].off > Top(L, d) && fl[i].End() <= L.usableSize
  {}

  lemma TopSame(L: Layout, d: Bytes, d': Bytes)
    requires L.hdr + 7 <= |d| == |d'| && d'[L.hdr + 5] == d[L.hdr + 5] && d'[L.hdr + 6] == d[L.hdr + 6]
    ensures Top(L, d') == Top(L, d)
  {}

  lemma TopPut(L: Layout, d: Bytes, top: nat)
    requires L.hdr + 7 <= |d| && 0 < top <= 65536
    ensures Top(L, Put2(d, L.hdr + 5, top)) == top
  {}

  lemma MakeSpace(L: Layout, d: Bytes, used: seq<Region>, fl: seq<Region>)
    requires L.Valid() && |d| == L.pageSize && L.CellOffset() <= Top(L, d) <= L.usableSize
    requires Partition(Top(L, d), L.usableSize, used, fl, d[L.hdr + 7] as nat) && FreeList(L, d, fl)
      && d[L.hdr + 7] <= 62
    ensures Space(L, d, used, fl)
  {}

  /** The end of a freeblock is taken and its head remains. */
  lemma TakeTail(L: Layout, d: Bytes, used: seq<Region>, fl: seq<Region>, j: nat, n: nat)
    requires Space(L, d, used, fl) && j < |fl| && 4 <= n && n + 4 <= fl[j].size
    ensures fl[j].off + 4 <= |d| && fl[j].size < 65536
    ensures var x := fl[j].size - n;
      var d' := Put2(d, fl[j].off + 2, x);
      && Space(L, d', used + [Region(fl[j].off + x, n)], fl[j := Region(fl[j].off, x)]) && Keeps(L, d, d', used)
      && Top(L, d') == Top(L, d)
  {
    hide Space, Partition, FreeList, Ascending, Top, Layout.Valid, ApartFrom, Within;
    SpaceFacts(L, d, used, fl);
    var x := fl[j].size - n;
    var d' := Put2(d, fl[j].off + 2, x);
    TakeTailList(L, d, fl, j, x);
    TakeTailRegions(Top(L, d), L.usableSize, used, fl, d[L.hdr + 7] as nat, j, n);
    KeepsInBlock(L, d, d', used, fl, j);
    TopSame(L, d, d');
    MakeSpace(L, d', used + [Region(fl[j].off + x, n)], fl[j := Region(fl[j].off, x)]);
  }

  // The bytes that change when a freeblock is unlinked.
  lemma UnlinkKeeps(L: Layout, d: Bytes, used: seq<Region>, fl: seq<Region>, j: nat, v: nat)
    requires Space(L, d, used, fl) && j <= |fl| && v < 65536
    ensures LinkAddr(L, fl, j) + 2 <= |d|
    ensures var d1 := Put2(d, LinkAddr(L, fl, j), v);
      Keeps(L, d, d1, used) && Top(L, d1) == Top(L, d) && d1[L.hdr + 7] == d[L.hdr + 7]
  {
    hide Space, Partition, FreeList, Ascending, Top, Layout.Valid, ApartFrom, Within;
    SpaceFacts(L, d, used, fl);
    var d1 := Put2(d, LinkAddr(L, fl, j), v);
    TopSame(L, d, d1);
    if j > 0 {
      KeepsInBlock(L, d, d1, used, fl, j - 1);
    } else {
      KeepsInHeader(L, d, d1, used);
    }
  }

  // The fragment count changes.
  lemma FragKeeps(L: Layout, d: Bytes, frag: u8, used: seq<Region>, fl: seq<Region>)
    requires L.Valid() && |d| == L.pageSize && L.hdr + 8 <= Top(L, d)
    requires Within(used, Top(L, d), L.usableSize) && Within(fl, Top(L, d) + 1, L.usableSize) && FreeList(L, d, fl)
    ensures var d' := d[L.hdr + 7 := frag];
      Keeps(L, d, d', used) && Top(L, d') == Top(L, d) && FreeList(L, d', fl)
  {
    var d' := d[L.hdr + 7 := frag];
    KeepsInHeader(L, d, d', used);
    forall i, k {:trigger fl[i], d'[k]} | 0 <= i < |fl| && fl[i].off <= k < fl[i].off + 4 && k < |d|
      ensures d'[k] == d[k]
    {}
    hide FreeList;
    SameFreeList(L, d, d', fl);
  }

  /** A whole freeblock is taken; up to three bytes of it become a fragment. */
  lemma TakeWhole(L: Layout, d: Bytes, used: seq<Region>, fl: seq<Region>, j: nat, n: nat)
    requires Space(L, d, used, fl) && j < |fl| && 4 <= n <= fl[j].size < n + 4 && d[L.hdr + 7] < 60
    ensures LinkAddr(L, fl, j) + 2 <= |d| && OffAt(fl, j + 1) < 65536
    ensures var x := fl[j].size - n;
      var d1 := Put2(d, LinkAddr(L, fl, j), OffAt(fl, j + 1));
      var d' := d1[L.hdr + 7 := d[L.hdr + 7] + x as u8];
      && d1[L.hdr + 7] == d[L.hdr + 7]
      && Space(L, d', used + [Region(fl[j].off + x, n)], RemoveAt(fl, j)) && Keeps(L, d, d', used)
      && Top(L, d') == Top(L, d)
  {
    hide Space, Partition, FreeList, Ascending, Top, Layout.Valid, ApartFrom, Within, Put2, Keeps, RemoveAt;
    SpaceFacts(L, d, used, fl);
    var x, fl', top := fl[j].size - n, RemoveAt(fl, j), Top(L, d);
    UnlinkList(L, d, fl, j);
    UnlinkKeeps(L, d, used, fl, j, OffAt(fl, j + 1));
    TakeWholeRegions(top, L.usableSize, used, fl, d[L.hdr + 7] as nat, j, n);
    var d1 := Put2(d, LinkAddr(L, fl, j), OffAt(fl, j + 1));
    var d' := d1[L.hdr + 7 := d[L.hdr + 7] + x as u8];
    PartitionApart(top, L.usableSize, used + [Region(fl[j].off + x, n)], fl', d[L.hdr + 7] as nat + x);
    FragKeeps(L, d1, d'[L.hdr + 7], used, fl');
    KeepsTrans(L, d, d1, d', used);
    MakeSpace(L, d', used + [Region(fl[j].off + x, n)], fl');
  }

  /** Space is taken from the gap below the content area. */
  lemma TakeGap(L: Layout, d: Bytes, used: seq<Region>, fl: seq<Region>, n: nat)
    requires Space(L, d, used, fl) && 4 <= n && L.CellOffset() + n <= Top(L, d)
    ensures var top := Top(L, d) - n;
      var d' := Put2(d, L.hdr + 5, top);
      && Space(L, d', used + [Region(top, n)], fl) && Keeps(L, d, d', used) && Top(L, d') == top
  {
    hide Space, Partition, FreeList, Ascending, Top, Layout.Valid, ApartFrom, Within;
    SpaceFacts(L, d, used, fl);
    var top := Top(L, d) - n;
    var d' := Put2(d, L.hdr + 5, top);
    TakeGapRegions(Top(L, d), L.usableSize, used, fl, d[L.hdr + 7] as nat, n);
    KeepsInHeader(L, d, d', used);
    TopPut(L, d, top);
    forall i, k {:trigger fl[i], d'[k]} | 0 <= i < |fl| && fl[i].off <= k < fl[i].off + 4 && k < |d|
      ensures d'[k] == d[k]
    {}
    SameFreeList(L, d, d', fl);
    MakeSpace(L, d', used + [Region(top, n)], fl);
  }

  // ----- Giving space back -----

  /** The freeblocks j1 to j2-1 and the regions and fragments between them have become one, b. */
  function Splice(fl: seq<Region>, j1: nat, j2: nat, b: Region): seq<Region>
    requires j1 <= j2 <= |fl|
  {
    fl[..j1] + [b] + fl[j2..]
  }

  /** Region r lies between freeblocks j-1 and j; the blocks with fewer than four bytes in between are joined to it. */
  ghost predicate Joined(fl: seq<Region>, r: Region, j: nat, j1: nat, j2: nat, b: Region) {
    && j1 <= j <= j2 <= |fl|
    && (forall i :: 0 <= i < j ==> fl[i].End() <= r.off) && (forall i :: j <= i < |fl| ==> r.End() <= fl[i].off)
    && (if j > 0 && r.off <= fl[j - 1].End() + 3 then j1 == j - 1 && b.off == fl[j - 1].off
        else j1 == j && b.off == r.off)
    && (if j < |fl| && fl[j].off <= r.End() + 3 then j2 == j + 1 && b.End() == fl[j].End()
        else j2 == j && b.End() == r.End())
  }

  // The fragments that are joined.
  function NFrag(fl: seq<Region>, r: Region, j: nat, j1: nat, j2: nat): int
    requires j1 <= j <= j2 <= |fl|
  {
    (if j1 < j then r.off - fl[j - 1].End() else 0) + (if j2 > j then fl[j].off - r.End() else 0)
  }

  lemma TotalSplice(fl: seq<Region>, r: Region, j: nat, j1: nat, j2: nat, b: Region)
    requires Joined(fl, r, j, j1, j2, b)
    ensures b.off <= r.off && r.End() <= b.End() && 0 <= NFrag(fl, r, j, j1, j2) <= 6
    ensures Total(Splice(fl, j1, j2, b)) == Total(fl) + r.size + NFrag(fl, r, j, j1, j2)
    ensures Total(fl) == Total(fl[..j1]) + Total(fl[j1..j]) + Total(fl[j..j2]) + Total(fl[j2..])
  {
    hide Total;
    TotalSlices(fl, j1, j, j2);
    TotalConcat(fl[..j1] + [b], fl[j2..]);
    TotalConcat(fl[..j1], [b]);
    TotalOne(b);
    TotalPart(fl, j1, j);
    TotalPart(fl, j, j2);
  }

  lemma TotalSlices(fl: seq<Region>, a: nat, b: nat, c: nat)
    requires a <= b <= c <= |fl|
    ensures Total(fl) == Total(fl[..a]) + Total(fl[a..b]) + Total(fl[b..c]) + Total(fl[c..])
  {
    hide Total;
    assert fl == fl[..c] + fl[c..];
    TotalConcat(fl[..c], fl[c..]);
    assert fl[..c] == fl[..b] + fl[b..c];
    TotalConcat(fl[..b], fl[b..c]);
    assert fl[..b] == fl[..a] + fl[a..b];
    TotalConcat(fl[..a], fl[a..b]);
  }

  lemma TotalPart(fl: seq<Region>, a: nat, b: nat)
    requires a <= b <= |fl| && b <= a + 1
    ensures Total(fl[a..b]) == if a < b then fl[a].size else 0
  {
    if a < b {
      assert fl[a..b] == [fl[a]];
      TotalOne(fl[a]);
    }
  }

  // Another region cannot lie in the few bytes between the joined ones.
  lemma JoinedApart(fl: seq<Region>, r: Region, j: nat, j1: nat, j2: nat, b: Region, u: Region)
    requires Joined(fl, r, j, j1, j2, b) && u.size >= 4 && Apart(u, r) && ApartFrom([u], fl)
    ensures Apart(u, b)
  {
    assert j1 < j ==> Apart([u][0], fl[j - 1]);
    assert j2 > j ==> Apart([u][0], fl[j]);
  }

  lemma SpliceAt(fl: seq<Region>, j1: nat, j2: nat, b: Region, i: nat)
    requires j1 <= j2 <= |fl| && i < |Splice(fl, j1, j2, b)|
    ensures Splice(fl, j1, j2, b)[i] == if i < j1 then fl[i] else if i == j1 then b else fl[i - j1 - 1 + j2]
  {}

  lemma JoinedAscends(lo: nat, hi: nat, fl: seq<Region>, r: Region, j: nat, j1: nat, j2: nat, b: Region)
    requires Joined(fl, r, j, j1, j2, b) && Ascending(fl) && Within(fl, lo, hi) && r.size >= 4 && lo <= b.off
      && r.End() <= hi
    ensures Ascending(Splice(fl, j1, j2, b)) && Within(Splice(fl, j1, j2, b), lo, hi)
  {
    forall i, i' | 0 <= i < i' < |Splice(fl, j1, j2, b)|
      ensures Splice(fl, j1, j2, b)[i].End() + 4 <= Splice(fl, j1, j2, b)[i'].off
    {
      hide Splice, Within;
      SpliceAt(fl, j1, j2, b, i);
      SpliceAt(fl, j1, j2, b, i');
      if i' == j1 {
        JoinedGap(fl, r, j, j1, j2, b, i);
      } else if i == j1 {
        JoinedGap(fl, r, j, j1, j2, b, i' - j1 - 1 + j2);
      }
    }
    forall i | 0 <= i < |Splice(fl, j1, j2, b)|
      ensures lo <= Splice(fl, j1, j2, b)[i].off && Splice(fl, j1, j2, b)[i].End() <= hi
        && Splice(fl, j1, j2, b)[i].size >= 4
    {
      hide Splice, Ascending;
      SpliceAt(fl, j1, j2, b, i);
    }
  }

  // The blocks that were not joined keep their distance.
  lemma JoinedGap(fl: seq<Region>, r: Region, j: nat, j1: nat, j2: nat, b: Region, i: nat)
    requires Joined(fl, r, j, j1, j2, b) && Ascending(fl) && i < |fl| && r.size >= 4
    ensures i < j1 ==> fl[i].End() + 4 <= b.off
    ensures i >= j2 ==> b.End() + 4 <= fl[i].off
  {
    if i < j - 1 {
      assert fl[i].End() + 4 <= fl[j - 1].off;
    }
    if i > j {
      assert fl[j].End() + 4 <= fl[i].off;
    }
  }

  lemma ApartConcat(a: seq<Region>, b: seq<Region>)
    requires AllApart(a) && AllApart(b) && ApartFrom(a, b)
    ensures AllApart(a + b)
  {
    forall i, j | 0 <= i < j < |a + b|
      ensures Apart((a + b)[i], (a + b)[j])
    {
      if i < |a| <= j {
        assert Apart(a[i], b[j - |a|]);
      }
    }
  }

  lemma AscendingApart(fl: seq<Region>)
    requires Ascending(fl)
    ensures AllApart(fl)
  {}

  // What is in use and what is free fit between top and end.
  lemma PartsFit(top: nat, end: nat, used: seq<Region>, fl: seq<Region>)
    requires top <= end && Within(used, top, end) && AllApart(used) && Within(fl, top, end) && Ascending(fl)
      && ApartFrom(used, fl)
    ensures Total(used) + Total(fl) <= end - top
  {
    AscendingApart(fl);
    ApartConcat(used, fl);
    TotalConcat(used, fl);
    TotalFits(used + fl, top, end);
  }

  lemma WithinRemove(used: seq<Region>, k: nat, lo: nat, hi: nat)
    requires Within(used, lo, hi) && AllApart(used) && k < |used|
    ensures Within(RemoveAt(used, k), lo, hi) && AllApart(RemoveAt(used, k))
    ensures forall i :: 0 <= i < |RemoveAt(used, k)| ==> Apart(RemoveAt(used, k)[i], used[k])
  {
    var rest := RemoveAt(used, k);
    forall i | 0 <= i < |rest|
      ensures Apart(rest[i], used[k])
    {
      var i' := if i < k then i else i + 1;
      assert rest[i] == used[i'];
      assert Apart(used[if i' < k then i' else k], used[if i' < k then k else i']);
    }
  }

  lemma UsedApartSplice(used: seq<Region>, k: nat, fl: seq<Region>, j: nat, j1: nat, j2: nat, b: Region, lo: nat,
                        hi: nat)
    requires k < |used| && Joined(fl, used[k], j, j1, j2, b) && AllApart(used) && ApartFrom(used, fl)
      && Within(used, lo, hi)
    ensures ApartFrom(RemoveAt(used, k), Splice(fl, j1, j2, b))
    ensures forall i :: 0 <= i < |RemoveAt(used, k)| ==> Apart(RemoveAt(used, k)[i], b)
  {
    var rest, fl' := RemoveAt(used, k), Splice(fl, j1, j2, b);
    WithinRemove(used, k, lo, hi);
    forall i | 0 <= i < |rest|
      ensures Apart(rest[i], b) && ApartFrom([rest[i]], fl)
    {
      assert rest[i] == used[if i < k then i else i + 1];
      forall m | 0 <= m < |fl|
        ensures Apart([rest[i]][0], fl[m])
      {}
      JoinedApart(fl, used[k], j, j1, j2, b, rest[i]);
    }
    forall i, m | 0 <= i < |rest| && 0 <= m < |fl'|
      ensures Apart(rest[i], fl'[m])
    {
      if m != j1 {
        assert Apart([rest[i]][0], fl[if m < j1 then m else m - j1 - 1 + j2]);
      }
    }
  }

  /** Region k becomes a freeblock, or part of one. */
  lemma FreeRegions(top: nat, end: nat, used: seq<Region>, fl: seq<Region>, frag: nat, k: nat, j: nat, j1: nat, j2: nat,
                    b: Region)
    requires Partition(top, end, used, fl, frag) && k < |used| && Joined(fl, used[k], j, j1, j2, b) && b.off > top
    ensures var nFrag := NFrag(fl, used[k], j, j1, j2);
      0 <= nFrag <= frag && nFrag <= 6 && Partition(top, end, RemoveAt(used, k), Splice(fl, j1, j2, b), frag - nFrag)
  {
    hide Total, AllApart, Ascending, ApartFrom, RemoveAt, Splice;
    TotalSplice(fl, used[k], j, j1, j2, b);
    TotalRemove(used, k);
    WithinRemove(used, k, top, end);
    JoinedAscends(top + 1, end, fl, used[k], j, j1, j2, b);
    UsedApartSplice(used, k, fl, j, j1, j2, b, top, end);
    PartsFit(top, end, RemoveAt(used, k), Splice(fl, j1, j2, b));
  }

  // Nothing else begins before the end of what is freed at the top.
  lemma BehindTop(top: nat, end: nat, used: seq<Region>, fl: seq<Region>, k: nat, j2: nat, b: Region)
    requires k < |used| && Joined(fl, used[k], 0, 0, j2, b) && used[k].off == top
    requires Within(used, top, end) && AllApart(used) && ApartFrom(used, fl) && Within(fl, top + 1, end)
      && Ascending(fl)
    ensures b.End() <= end && Within(RemoveAt(used, k), b.End(), end) && AllApart(RemoveAt(used, k))
    ensures Within(fl[j2..], b.End() + 1, end) && Ascending(fl[j2..]) && ApartFrom(RemoveAt(used, k), fl[j2..])
  {
    var rest, fl' := RemoveAt(used, k), fl[j2..];
    WithinRemove(used, k, top, end);
    UsedApartSplice(used, k, fl, 0, 0, j2, b, top, end);
    hide RemoveAt;
    forall i, m | 0 <= i < |rest| && 0 <= m < |fl'|
      ensures Apart(rest[i], fl'[m])
    {
      assert Apart(rest[i], Splice(fl, 0, j2, b)[m + 1]);
    }
  }

  /** The region at the top becomes part of the gap. */
  lemma FreeTopRegions(top: nat, end: nat, used: seq<Region>, fl: seq<Region>, frag: nat, k: nat, j2: nat, b: Region)
    requires Partition(top, end, used, fl, frag) && k < |used| && Joined(fl, used[k], 0, 0, j2, b) && used[k].off == top
    ensures var nFrag := NFrag(fl, used[k], 0, 0, j2);
      0 <= nFrag <= frag && nFrag <= 6 && Partition(b.End(), end, RemoveAt(used, k), fl[j2..], frag - nFrag)
  {
    hide Total, AllApart, Ascending, ApartFrom, RemoveAt, Splice, Within;
    TotalSplice(fl, used[k], 0, 0, j2, b);
    EmptyTotals(fl);
    TotalRemove(used, k);
    BehindTop(top, end, used, fl, k, j2, b);
    WithinLower(fl[j2..], b.End() + 1, b.End(), end);
    PartsFit(b.End(), end, RemoveAt(used, k), fl[j2..]);
    TotalPart(fl, 0, j2);
  }

  lemma EmptyTotals(fl: seq<Region>)
    ensures fl[..0] == [] && fl[0..0] == [] && Total([]) == 0
  {}

  lemma WithinLower(rs: seq<Region>, lo: nat, lo': nat, hi: nat)
    requires Within(rs, lo, hi) && lo' <= lo
    ensures Within(rs, lo', hi)
  {}

  // The first four bytes of a block, or the last two of them, are as before.
  ghost predicate KeptHead(d: Bytes, d': Bytes, off: nat, from: nat) {
    |d'| == |d| && forall m :: off + from <= m < off + 4 && m < |d| ==> d'[m] == d[m]
  }

  lemma KeptLink(L: Layout, d: Bytes, d': Bytes, fl: seq<Region>, j: nat, fl': seq<Region>, j': nat)
    requires j <= |fl| && j' <= |fl'| && LinkOk(L, d, fl, j) && |d'| == |d| && L.hdr + 8 <= |d|
    requires LinkAddr(L, fl', j') == LinkAddr(L, fl, j) && OffAt(fl', j') == OffAt(fl, j)
    requires if j == 0 then d'[L.hdr + 1] == d[L.hdr + 1] && d'[L.hdr + 2] == d[L.hdr + 2]
      else KeptHead(d, d', fl[j - 1].off, 0)
    ensures LinkOk(L, d', fl', j')
  {}

  lemma KeptSize(d: Bytes, d': Bytes, fl: seq<Region>, j: nat, fl': seq<Region>, j': nat)
    requires j < |fl| && j' < |fl'| && SizeOk(d, fl, j) && fl'[j'] == fl[j] && KeptHead(d, d', fl[j].off, 2)
    ensures SizeOk(d', fl', j')
  {}

  lemma KeptLess(d: Bytes, d': Bytes, off: nat)
    requires KeptHead(d, d', off, 0)
    ensures KeptHead(d, d', off, 2)
  {}

  // The list with block b in the place of blocks j1 to j2-1.
  lemma SpliceList(L: Layout, d: Bytes, d': Bytes, fl: seq<Region>, j1: nat, j2: nat, b: Region)
    requires FreeList(L, d, fl) && j1 <= j2 <= |fl| && |d'| == |d| && L.hdr + 8 <= |d|
    requires j1 > 0 ==> d'[L.hdr + 1] == d[L.hdr + 1] && d'[L.hdr + 2] == d[L.hdr + 2]
    requires forall i :: 0 <= i < |fl| && (i < j1 || i >= j2) ==>
      KeptHead(d, d', fl[i].off, if i == j1 - 1 then 2 else 0)
    requires LinkOk(L, d', Splice(fl, j1, j2, b), j1) && LinkOk(L, d', Splice(fl, j1, j2, b), j1 + 1)
    requires SizeOk(d', Splice(fl, j1, j2, b), j1)
    ensures FreeList(L, d', Splice(fl, j1, j2, b))
  {
    hide KeptHead, LinkOk, SizeOk, Splice;
    forall i | 0 <= i <= |Splice(fl, j1, j2, b)|
      ensures LinkOk(L, d', Splice(fl, j1, j2, b), i)
    {
      if i < j1 || i > j1 + 1 {
        SpliceLink(L, d, d', fl, j1, j2, b, i);
      }
    }
    forall i | 0 <= i < |Splice(fl, j1, j2, b)|
      ensures SizeOk(d', Splice(fl, j1, j2, b), i)
    {
      if i != j1 {
        SpliceSize(L, d, d', fl, j1, j2, b, i);
      }
    }
  }

  lemma SpliceLink(L: Layout, d: Bytes, d': Bytes, fl: seq<Region>, j1: nat, j2: nat, b: Region, i: nat)
    requires FreeList(L, d, fl) && j1 <= j2 <= |fl| && |d'| == |d| && L.hdr + 8 <= |d|
    requires j1 > 0 ==> d'[L.hdr + 1] == d[L.hdr + 1] && d'[L.hdr + 2] == d[L.hdr + 2]
    requires forall i :: 0 <= i < |fl| && (i < j1 || i >= j2) ==>
      KeptHead(d, d', fl[i].off, if i == j1 - 1 then 2 else 0)
    requires i <= |Splice(fl, j1, j2, b)| && (i < j1 || i > j1 + 1)
    ensures LinkOk(L, d', Splice(fl, j1, j2, b), i)
  {
    hide KeptHead, LinkOk, SizeOk, Splice;
    var fl', m := Splice(fl, j1, j2, b), if i < j1 then i else i - j1 - 1 + j2;
    SpliceLength(fl, j1, j2, b);
    if i < |fl'| {
      SpliceAt(fl, j1, j2, b, i);
    }
    if i > 0 {
      SpliceAt(fl, j1, j2, b, i - 1);
      assert KeptHead(d, d', fl[m - 1].off, 0);
    }
    assert LinkOk(L, d, fl, m);
    KeptLink(L, d, d', fl, m, fl', i);
  }

  lemma SpliceSize(L: Layout, d: Bytes, d': Bytes, fl: seq<Region>, j1: nat, j2: nat, b: Region, i: nat)
    requires FreeList(L, d, fl) && j1 <= j2 <= |fl| && |d'| == |d|
    requires forall i :: 0 <= i < |fl| && (i < j1 || i >= j2) ==>
      KeptHead(d, d', fl[i].off, if i == j1 - 1 then 2 else 0)
    requires i < |Splice(fl, j1, j2, b)| && i != j1
    ensures SizeOk(d', Splice(fl, j1, j2, b), i)
  {
    hide KeptHead, LinkOk, SizeOk, Splice;
    var m := if i < j1 then i else i - j1 - 1 + j2;
    SpliceLength(fl, j1, j2, b);
    SpliceAt(fl, j1, j2, b, i);
    assert KeptHead(d, d', fl[m].off, if m == j1 - 1 then 2 else 0) && SizeOk(d, fl, m);
    if m != j1 - 1 {
      KeptLess(d, d', fl[m].off);
    }
    KeptSize(d, d', fl, m, Splice(fl, j1, j2, b), i);
  }

  lemma SpliceLength(fl: seq<Region>, j1: nat, j2: nat, b: Region)
    requires j1 <= j2 <= |fl|
    ensures |Splice(fl, j1, j2, b)| == |fl| - (j2 - j1) + 1
  {}

  // What freeSpace writes when the freed space does not touch the gap.
  function FreedBytes(L: Layout, d: Bytes, frag: u8, ptr: nat, b: Region, next: nat): (d': Bytes)
    requires L.hdr + 8 <= |d| <= 65536 && ptr + 2 <= |d| && b.off + 4 <= |d| && b.size < 65536 && next < 65536
    ensures |d'| == |d|
    ensures forall m :: 0 <= m < |d| && m != L.hdr + 7 && !(b.off <= m < b.off + 4) && !(ptr <= m < ptr + 2) ==>
      d'[m] == d[m]
    ensures b.off >= L.hdr + 8 && (ptr + 2 <= L.hdr + 7 || ptr >= L.hdr + 8) ==> d'[L.hdr + 7] == frag
    ensures Get2(d', b.off) == next && Get2(d', b.off + 2) == b.size
    ensures ptr + 2 <= b.off || b.off + 4 <= ptr ==> Get2(d', ptr) == b.off
  {
    Put2(Put2(Put2(d[L.hdr + 7 := frag], ptr, b.off), b.off, next), b.off + 2, b.size)
  }

  lemma FreedHeads(L: Layout, d: Bytes, fl: seq<Region>, r: Region, j: nat, j1: nat, j2: nat, b: Region, frag: u8,
                   i: nat)
    requires Joined(fl, r, j, j1, j2, b) && r.size >= 4 && Ascending(fl) && i < |fl| && (i < j1 || i >= j2)
    requires forall i :: 0 <= i < |fl| ==> fl[i].size >= 4 && fl[i].off >= L.hdr + 8
    requires L.hdr + 8 <= |d| <= 65536 && LinkAddr(L, fl, j) + 2 <= |d| && b.off + 4 <= |d| && b.size < 65536
      && OffAt(fl, j2) < 65536
    ensures KeptHead(d, FreedBytes(L, d, frag, LinkAddr(L, fl, j), b, OffAt(fl, j2)), fl[i].off,
                     if i == j1 - 1 then 2 else 0)
  {
    hide FreedBytes;
    JoinedGap(fl, r, j, j1, j2, b, i);
    if j > 0 {
      Separate(L, fl, i, j - 1);
    }
    hide Joined, Ascending;
  }

  lemma FreedList(L: Layout, d: Bytes, used: seq<Region>, fl: seq<Region>, r: Region, j: nat, j1: nat, j2: nat,
                  b: Region, frag: u8)
    requires Space(L, d, used, fl) && Joined(fl, r, j, j1, j2, b) && r.size >= 4 && Top(L, d) < b.off
      && r.End() <= L.usableSize
    ensures LinkAddr(L, fl, j) + 2 <= |d| && OffAt(fl, j2) < 65536 && b.off + 4 <= |d| && b.size < 65536
    ensures FreeList(L, FreedBytes(L, d, frag, LinkAddr(L, fl, j), b, OffAt(fl, j2)), Splice(fl, j1, j2, b))
  {
    hide Space, Partition, Top, Layout.Valid, ApartFrom, Within, FreedBytes, KeptHead, Splice;
    SpaceFacts(L, d, used, fl);
    assert LinkOk(L, d, fl, j) && LinkOk(L, d, fl, j2);
    var d', fl' := FreedBytes(L, d, frag, LinkAddr(L, fl, j), b, OffAt(fl, j2)), Splice(fl, j1, j2, b);
    SpliceLength(fl, j1, j2, b);
    SpliceAt(fl, j1, j2, b, j1);
    if j1 + 1 < |fl'| {
      SpliceAt(fl, j1, j2, b, j1 + 1);
    }
    JoinedLink(L, d, fl, r, j, j1, j2, b, frag);
    forall i | 0 <= i < |fl| && (i < j1 || i >= j2)
      ensures KeptHead(d, d', fl[i].off, if i == j1 - 1 then 2 else 0)
    {
      FreedHeads(L, d, fl, r, j, j1, j2, b, frag, i);
    }
    hide Joined, Ascending, FreeList;
    SpliceList(L, d, d', fl, j1, j2, b);
  }

  lemma JoinedLink(L: Layout, d: Bytes, fl: seq<Region>, r: Region, j: nat, j1: nat, j2: nat, b: Region, frag: u8)
    requires FreeList(L, d, fl) && Ascending(fl) && Joined(fl, r, j, j1, j2, b) && r.size >= 4 && b.off >= L.hdr + 8
    requires L.hdr + 8 <= |d| <= 65536 && b.off + 4 <= |d| && b.size < 65536 && OffAt(fl, j2) < 65536
      && LinkAddr(L, fl, j) + 2 <= |d|
    requires forall i :: 0 <= i < |fl| ==> fl[i].size >= 4 && fl[i].off >= L.hdr + 8
    ensures LinkOk(L, FreedBytes(L, d, frag, LinkAddr(L, fl, j), b, OffAt(fl, j2)), Splice(fl, j1, j2, b), j1)
  {
    hide FreedBytes, Splice;
    assert LinkOk(L, d, fl, j1);
    SpliceLength(fl, j1, j2, b);
    SpliceAt(fl, j1, j2, b, j1);
    if j1 > 0 {
      SpliceAt(fl, j1, j2, b, j1 - 1);
      JoinedGap(fl, r, j, j1, j2, b, j1 - 1);
      Separate(L, fl, j1 - 1, j1 - 1);
      assert SizeOk(d, fl, j1 - 1);
    }
  }

  // What is written for a freed region is on the part of the page that cells may use.
  lemma FreedInside(L: Layout, d: Bytes, used: seq<Region>, fl: seq<Region>, k: nat, j: nat, j1: nat, j2: nat,
                    b: Region, frag: u8)
    requires Space(L, d, used, fl) && k < |used| && Joined(fl, used[k], j, j1, j2, b) && Top(L, d) < b.off
    requires LinkAddr(L, fl, j) + 2 <= |d| && OffAt(fl, j2) < 65536 && b.off + 4 <= |d| && b.size < 65536
    ensures var d' := FreedBytes(L, d, frag, LinkAddr(L, fl, j), b, OffAt(fl, j2));
      forall m :: 0 <= m <= L.hdr || L.usableSize <= m < |d| ==> d'[m] == d[m]
  {
    SpaceFacts(L, d, used, fl);
    PartitionUsed(Top(L, d), L.usableSize, used, fl, d[L.hdr + 7] as nat, k);
    hide Space, Partition, Top, Layout.Valid, FreeList, FreedBytes;
    assert b.off + 4 <= L.usableSize;
    assert j > 0 ==> fl[j - 1].off + 4 <= L.usableSize && fl[j - 1].off >= L.hdr + 8;
  }

  // What is written for a freed region, and into the links of freeblocks, is in none of the regions that stay.
  lemma FreedKeeps(L: Layout, d: Bytes, used: seq<Region>, fl: seq<Region>, k: nat, j: nat, j1: nat, j2: nat, b: Region,
                   frag: u8)
    requires Space(L, d, used, fl) && k < |used| && Joined(fl, used[k], j, j1, j2, b) && Top(L, d) < b.off
    ensures LinkAddr(L, fl, j) + 2 <= |d| && OffAt(fl, j2) < 65536 && b.off + 4 <= |d| && b.size < 65536
    ensures var d' := FreedBytes(L, d, frag, LinkAddr(L, fl, j), b, OffAt(fl, j2));
      Keeps(L, d, d', RemoveAt(used, k)) && Top(L, d') == Top(L, d) && d'[L.hdr + 7] == frag
  {
    hide Space, Partition, Top, Layout.Valid, FreedBytes, FreeList, ApartFrom, Ascending, Within;
    SpaceFacts(L, d, used, fl);
    PartitionUsed(Top(L, d), L.usableSize, used, fl, d[L.hdr + 7] as nat, k);
    assert LinkOk(L, d, fl, j) && LinkOk(L, d, fl, j2) by { FreeListAt(L, d, fl, j); FreeListAt(L, d, fl, j2); }
    var d', rest := FreedBytes(L, d, frag, LinkAddr(L, fl, j), b, OffAt(fl, j2)), RemoveAt(used, k);
    TopSame(L, d, d');
    FreedInside(L, d, used, fl, k, j, j1, j2, b, frag);
    UsedApartSplice(used, k, fl, j, j1, j2, b, Top(L, d), L.usableSize);
    forall i, m {:trigger rest[i], d'[m]} | 0 <= i < |rest| && rest[i].off <= m < rest[i].End() && m < |d|
      ensures d'[m] == d[m]
    {
      assert Apart(rest[i], b);
      assert rest[i] == used[if i < k then i else i + 1];
      if j > 0 {
        assert Apart(rest[i], fl[j - 1]);
      }
    }
  }

  lemma FreeListAt(L: Layout, d: Bytes, fl: seq<Region>, j: nat)
    requires FreeList(L, d, fl) && j <= |fl|
    ensures LinkOk(L, d, fl, j)
  {}

  lemma PartitionUsed(top: nat, end: nat, used: seq<Region>, fl: seq<Region>, frag: nat, k: nat)
    requires Partition(top, end, used, fl, frag) && k < |used|
    ensures AllApart(used) && top <= used[k].off && used[k].End() <= end && used[k].size >= 4
  {}

  /** Freeing a region that does not touch the gap. */
  lemma Free(L: Layout, d: Bytes, used: seq<Region>, fl: seq<Region>, k: nat, j: nat, j1: nat, j2: nat, b: Region)
    requires Space(L, d, used, fl) && k < |used| && Joined(fl, used[k], j, j1, j2, b) && Top(L, d) < b.off
    ensures LinkAddr(L, fl, j) + 2 <= |d| && OffAt(fl, j2) < 65536 && b.off + 4 <= |d| && b.size < 65536
    ensures 0 <= NFrag(fl, used[k], j, j1, j2) <= d[L.hdr + 7] as int
    ensures var d' := FreedBytes(L, d, d[L.hdr + 7] - NFrag(fl, used[k], j, j1, j2) as u8, LinkAddr(L, fl, j), b,
                                 OffAt(fl, j2));
      && Space(L, d', RemoveAt(used, k), Splice(fl, j1, j2, b)) && Keeps(L, d, d', RemoveAt(used, k))
      && Top(L, d') == Top(L, d)
  {
    hide Space, Partition, Top, Layout.Valid, FreedBytes, FreeList, Splice, RemoveAt, ApartFrom, Within, Ascending,
      NFrag, Keeps;
    SpaceFacts(L, d, used, fl);
    FreeRegions(Top(L, d), L.usableSize, used, fl, d[L.hdr + 7] as nat, k, j, j1, j2, b);
    var frag := d[L.hdr + 7] - NFrag(fl, used[k], j, j1, j2) as u8;
    PartitionUsed(Top(L, d), L.usableSize, used, fl, d[L.hdr + 7] as nat, k);
    FreedList(L, d, used, fl, used[k], j, j1, j2, b, frag);
    FreedKeeps(L, d, used, fl, k, j, j1, j2, b, frag);
    MakeSpace(L, FreedBytes(L, d, frag, LinkAddr(L, fl, j), b, OffAt(fl, j2)), RemoveAt(used, k),
              Splice(fl, j1, j2, b));
  }

  // What freeSpace writes when the gap grows up to end.
  function FreedTop(L: Layout, d: Bytes, frag: u8, next: nat, end: nat): (d': Bytes)
    requires L.hdr + 8 <= |d| && next < 65536 && end <= 65536
    ensures |d'| == |d|
    ensures forall m :: 0 <= m < |d| && !(L.hdr + 1 <= m < L.hdr + 3) && !(L.hdr + 5 <= m < L.hdr + 8) ==> d'[m] == d[m]
    ensures d'[L.hdr + 7] == frag && Get2(d', L.hdr + 1) == next
  {
    Put2(Put2(d[L.hdr + 7 := frag], L.hdr + 1, next), L.hdr + 5, end)
  }

  lemma FreedTopList(L: Layout, d: Bytes, fl: seq<Region>, j2: nat, frag: u8, end: nat)
    requires FreeList(L, d, fl) && L.hdr + 8 <= |d| && j2 <= |fl| && OffAt(fl, j2) < 65536 && end <= 65536
    requires forall i :: 0 <= i < |fl| ==> fl[i].size >= 4 && fl[i].off >= L.hdr + 8
    ensures FreeList(L, FreedTop(L, d, frag, OffAt(fl, j2), end), fl[j2..])
  {
    hide FreedTop;
    var d', fl' := FreedTop(L, d, frag, OffAt(fl, j2), end), fl[j2..];
    forall i | 0 <= i <= |fl'|
      ensures LinkOk(L, d', fl', i)
    {
      assert LinkOk(L, d, fl, i + j2);
      assert i > 0 ==> SizeOk(d, fl, i + j2 - 1);
    }
    forall i | 0 <= i < |fl'|
      ensures SizeOk(d', fl', i)
    {
      assert SizeOk(d, fl, i + j2);
    }
  }

  /** Freeing the region at the top of the content area. */
  lemma FreeTop(L: Layout, d: Bytes, used: seq<Region>, fl: seq<Region>, k: nat, j2: nat, b: Region)
    requires Space(L, d, used, fl) && k < |used| && Joined(fl, used[k], 0, 0, j2, b) && used[k].off == Top(L, d)
    ensures OffAt(fl, j2) < 65536 && b.End() <= 65536 && 0 <= NFrag(fl, used[k], 0, 0, j2) <= d[L.hdr + 7] as int
    ensures var d' := FreedTop(L, d, d[L.hdr + 7] - NFrag(fl, used[k], 0, 0, j2) as u8, OffAt(fl, j2), b.End());
      && Space(L, d', RemoveAt(used, k), fl[j2..]) && Keeps(L, d, d', RemoveAt(used, k)) && Top(L, d') == b.End()
  {
    hide Space, Partition, Top, Layout.Valid, FreeList, RemoveAt, ApartFrom, Ascending, NFrag;
    SpaceFacts(L, d, used, fl);
    FreeTopRegions(Top(L, d), L.usableSize, used, fl, d[L.hdr + 7] as nat, k, j2, b);
    var frag := d[L.hdr + 7] - NFrag(fl, used[k], 0, 0, j2) as u8;
    PartitionUsed(Top(L, d), L.usableSize, used, fl, d[L.hdr + 7] as nat, k);
    PartitionEnd(b.End(), L.usableSize, RemoveAt(used, k), fl[j2..], frag as nat);
    FreedTopList(L, d, fl, j2, frag, b.End());
    var d' := FreedTop(L, d, frag, OffAt(fl, j2), b.End());
    TopPut(L, Put2(d[L.hdr + 7 := frag], L.hdr + 1, OffAt(fl, j2)), b.End());
    hide FreedTop;
    WithinLower(RemoveAt(used, k), b.End(), Top(L, d), L.usableSize);
    KeepsInHeader(L, d, d', RemoveAt(used, k));
    MakeSpace(L, d', RemoveAt(used, k), fl[j2..]);
  }

  lemma PartitionEnd(top: nat, end: nat, used: seq<Region>, fl: seq<Region>, frag: nat)
    requires Partition(top, end, used, fl, frag)
    ensures top <= end && Within(used, top, end)
  {}

  // ----- The page -----

  /** The pointer array lists the cells; each has the size that its own bytes tell. */
  ghost predicate Pointers(L: Layout, d: Bytes, cells: seq<Region>) {
    && L.Valid() && |d| == L.pageSize && L.CellOffset() + 2 * |cells| <= Top(L, d)
    && L.CellOffset() + 2 * |cells| <= L.usableSize
    && Get2(d, L.hdr + 3) == |cells|
    && (forall i :: 0 <= i < |cells| ==> CellOk(L, d, cells, i))
  }

  ghost predicate CellOk(L: Layout, d: Bytes, cells: seq<Region>, i: nat)
    requires i < |cells|
  {
    && L.CellOffset() + 2 * i + 2 <= |d| && Get2(d, L.CellOffset() + 2 * i) == cells[i].off
    && cells[i].End() <= |d| && L.cellSizePtr(d[cells[i].off..]) == cells[i].size
  }

  /** The contents of the cells, in the order of the pointer array. */
  ghost function Contents(d: Bytes, cells: seq<Region>): seq<Bytes>
    requires forall i :: 0 <= i < |cells| ==> cells[i].End() <= |d|
  {
    seq(|cells|, i requires 0 <= i < |cells| => assert cells[i].End() <= |d|; Slice(d, cells[i].off, cells[i].size))
  }

  lemma ContentsLength(d: Bytes, cells: seq<Region>)
    requires forall i :: 0 <= i < |cells| ==> cells[i].End() <= |d|
    ensures |Contents(d, cells)| == |cells|
  {}

  function Slice(d: Bytes, off: nat, size: nat): (r: Bytes)
    requires off + size <= |d|
    ensures |r| == size
  {
    d[off..off + size]
  }

  method Put2At(a: array<u8>, i: nat, v: nat)
    requires i + 2 <= a.Length && v <= 65536
    modifies a
    ensures a[..] == Put2(old(a[..]), i, v)
  {
    a[i] := (v / 256 % 256) as u8;
    a[i + 1] := (v % 256) as u8;
  }

  method Get2At(a: array<u8>, i: nat) returns (v: nat)
    requires i + 2 <= a.Length
    ensures v == Get2(a[..], i)
  {
    v := a[i] as int * 256 + a[i + 1] as int;
  }

  // ----- Cells packed at the end of the page -----

  lemma {:induction false} TotalPrefix(rs: seq<Region>, i: nat, j: nat)
    requires i <= j <= |rs|
    ensures Total(rs[..i]) <= Total(rs[..j]) <= Total(rs)
    ensures j < |rs| ==> Total(rs[..j + 1]) == Total(rs[..j]) + rs[j].size
    decreases |rs| - i
  {
    if j < |rs| {
      assert rs[..j + 1] == rs[..j] + [rs[j]];
      TotalConcat(rs[..j], [rs[j]]);
      TotalOne(rs[j]);
    }
    assert rs == rs[..j] + rs[j..] && rs[..j] == rs[..i] + rs[i..j];
    TotalConcat(rs[..j], rs[j..]);
    TotalConcat(rs[..i], rs[i..j]);
  }

  // Where cell i goes.
  function NewOff(end: nat, cells: seq<Region>, i: nat): int
    requires i < |cells|
  {
    end - Total(cells[..i + 1])
  }

  function Packed(end: nat, cells: seq<Region>): seq<Region>
    requires Total(cells) <= end
  {
    seq(|cells|,
        i requires 0 <= i < |cells| => assert Total(cells[..i + 1]) <= end by { TotalPrefix(cells, i + 1, i + 1); }
      Region(NewOff(end, cells, i), cells[i].size))
  }

  lemma {:induction false} PackedTotal(end: nat, cells: seq<Region>)
    requires Total(cells) <= end
    ensures Total(Packed(end, cells)) == Total(cells)
  {
    SameTotal(Packed(end, cells), cells);
  }

  lemma {:induction false} SameTotal(a: seq<Region>, b: seq<Region>)
    requires |a| == |b| && forall i :: 0 <= i < |a| ==> a[i].size == b[i].size
    ensures Total(a) == Total(b)
  {
    if a != [] {
      SameTotal(a[..|a| - 1], b[..|b| - 1]);
    }
  }

  lemma PackedApart(lo: nat, end: nat, cells: seq<Region>)
    requires Total(cells) <= end - lo && lo <= end && forall i :: 0 <= i < |cells| ==> cells[i].size >= 4
    ensures AllApart(Packed(end, cells)) && Within(Packed(end, cells), lo, end)
  {
    var ps := Packed(end, cells);
    forall i, j | 0 <= i < j < |ps|
      ensures Apart(ps[i], ps[j])
    {
      TotalPrefix(cells, i + 1, j);
    }
    forall i | 0 <= i < |ps|
      ensures lo <= ps[i].off && ps[i].End() <= end && ps[i].size >= 4
    {
      TotalPrefix(cells, i, i);
      TotalPrefix(cells, i + 1, i + 1);
    }
  }

  /** A page without freeblocks and fragments, whose cells are packed at its end. */
  lemma PackedSpace(L: Layout, d: Bytes, cells: seq<Region>)
    requires L.Valid() && |d| == L.pageSize && L.CellOffset() + Total(cells) <= L.usableSize
    requires forall i :: 0 <= i < |cells| ==> cells[i].size >= 4
    requires Top(L, d) == L.usableSize - Total(cells) && Get2(d, L.hdr + 1) == 0 && d[L.hdr + 7] == 0
    ensures Space(L, d, Packed(L.usableSize, cells), [])
  {
    PackedApart(Top(L, d), L.usableSize, cells);
    PackedTotal(L.usableSize, cells);
    assert LinkOk(L, d, [], 0);
    hide AllApart, Within, Packed, Layout.Valid;
    assert Partition(Top(L, d), L.usableSize, Packed(L.usableSize, cells), [], 0);
  }

  // ----- Moving the cells -----

  ghost predicate PageFits(L: Layout, d: Bytes, rs: seq<Region>) {
    && L.Valid() && |d| == L.pageSize && L.CellOffset() + 2 * |rs| <= Top(L, d) <= L.usableSize
    && Total(rs) <= L.usableSize - Top(L, d)
    && Within(rs, Top(L, d), L.usableSize) && AllApart(rs)
  }

  lemma FitsFacts(L: Layout, d: Bytes, rs: seq<Region>, i: nat)
    requires PageFits(L, d, rs) && i < |rs|
    ensures L.CellOffset() + 2 * |rs| <= Top(L, d) <= L.usableSize <= |d| == L.pageSize
    ensures Top(L, d) <= rs[i].off && rs[i].End() <= L.usableSize && rs[i].size >= 4
    ensures NewOff(L.usableSize, rs, i) + rs[i].size == L.usableSize - Total(rs[..i])
    ensures Top(L, d) <= NewOff(L.usableSize, rs, i) && L.usableSize - Total(rs[..i]) <= L.usableSize
    ensures forall m :: 0 <= m < i ==> NewOff(L.usableSize, rs, m) >= L.usableSize - Total(rs[..i])
  {
    TotalPrefix(rs, i, i);
    TotalPrefix(rs, i + 1, i + 1);
    forall m | 0 <= m < i
      ensures NewOff(L.usableSize, rs, m) >= L.usableSize - Total(rs[..i])
    {
      TotalPrefix(rs, m + 1, i);
    }
  }

  /** Cell m has been moved: its pointer and its bytes are in the new place. */
  ghost predicate Moved(L: Layout, d: Bytes, d': Bytes, rs: seq<Region>, m: nat)
    requires m < |rs|
  {
    var to := NewOff(L.usableSize, rs, m);
    && L.CellOffset() + 2 * m + 2 <= |d'| && 0 <= to && to + rs[m].size <= |d'| && rs[m].End() <= |d|
    && Get2(d', L.CellOffset() + 2 * m) == to && Slice(d', to, rs[m].size) == Slice(d, rs[m].off, rs[m].size)
  }

  /** The first i cells have been moved. */
  ghost predicate Moving(L: Layout, d: Bytes, d': Bytes, rs: seq<Region>, i: nat) {
    && |d'| == |d| && i <= |rs|
    && (forall k :: 0 <= k < |d| && (k < L.CellOffset() || L.CellOffset() + 2 * i <= k < L.CellOffset() + 2 * |rs|) ==>
          d'[k] == d[k])
    && (forall k :: L.usableSize <= k < |d| ==> d'[k] == d[k])
    && (forall m :: 0 <= m < i ==> Moved(L, d, d', rs, m))
  }

  // The cells still to be moved lie before end.
  ghost predicate BelowEnd(rs: seq<Region>, i: nat, end: nat) {
    forall m :: i <= m < |rs| ==> rs[m].End() <= end
  }

  lemma MovingStep(L: Layout, d: Bytes, d1: Bytes, d2: Bytes, rs: seq<Region>, i: nat)
    requires PageFits(L, d, rs) && Moving(L, d, d1, rs, i) && i < |rs| && |d2| == |d1|
    requires Moved(L, d, d2, rs, i)
    requires var to := NewOff(L.usableSize, rs, i);
      forall k ::
        (0 <= k < |d1| && !(L.CellOffset() + 2 * i <= k < L.CellOffset() + 2 * i + 2)
         && !(to <= k < to + rs[i].size)) ==>
        d2[k] == d1[k]
    ensures Moving(L, d, d2, rs, i + 1)
  {
    hide PageFits, NewOff;
    FitsFacts(L, d, rs, i);
    forall m | 0 <= m < i
      ensures Moved(L, d, d2, rs, m)
    {
      FitsFacts(L, d, rs, m);
      assert Moved(L, d, d1, rs, m);
      MovedStays(L, d, d1, d2, rs, m, i);
    }
  }

  lemma MovedStays(L: Layout, d: Bytes, d1: Bytes, d2: Bytes, rs: seq<Region>, m: nat, i: nat)
    requires m < i < |rs| && |d2| == |d1| && Moved(L, d, d1, rs, m)
    requires var to := NewOff(L.usableSize, rs, i);
      && to + rs[i].size <= NewOff(L.usableSize, rs, m) && L.CellOffset() + 2 * |rs| <= to
      && forall k ::
          (0 <= k < |d1| && !(L.CellOffset() + 2 * i <= k < L.CellOffset() + 2 * i + 2)
           && !(to <= k < to + rs[i].size)) ==>
          d2[k] == d1[k]
    ensures Moved(L, d, d2, rs, m)
  {
    hide NewOff;
    var at := NewOff(L.usableSize, rs, m);
    assert Slice(d2, at, rs[m].size) == Slice(d1, at, rs[m].size);
  }

  // As long as the cells seen are in their place already, the others lie before them.
  lemma BelowStep(L: Layout, d: Bytes, rs: seq<Region>, i: nat, end: nat)
    requires PageFits(L, d, rs) && i < |rs| && BelowEnd(rs, i, end) && rs[i].End() == end
    ensures BelowEnd(rs, i + 1, rs[i].off)
  {
    forall m | i + 1 <= m < |rs|
      ensures rs[m].End() <= rs[i].off
    {
      assert Apart(rs[i], rs[m]);
    }
  }

  method CopyBytes(dst: array<u8>, at: nat, src: array<u8>, from: nat, n: nat)
    requires dst != src && at + n <= dst.Length && from + n <= src.Length
    modifies dst
    ensures forall k :: 0 <= k < dst.Length ==> dst[k] == if at <= k < at + n then src[from + k - at] else old(dst[k])
  {
    for i := 0 to n
      invariant forall k :: 0 <= k < dst.Length ==>
        dst[k] == if at <= k < at + i then src[from + k - at] else old(dst[k])
    {
      dst[at + i] := src[from + i];
    }
  }

  lemma Put2Same(d: Bytes, i: nat)
    requires i + 2 <= |d|
    ensures Get2(d, i) < 65536 && Put2(d, i, Get2(d, i)) == d
  {}

  // The size that a cell's bytes tell, wherever they are.
  lemma CellSizeAt(L: Layout, d: Bytes, rs: seq<Region>, i: nat, src: Bytes)
    requires L.Valid() && |src| == |d| && i < |rs| && CellOk(L, d, rs, i)
    requires forall k :: rs[i].off <= k < rs[i].End() ==> src[k] == d[k]
    ensures L.cellSizePtr(src[rs[i].off..]) == rs[i].size
  {
    var s, t, n := d[rs[i].off..], src[rs[i].off..], rs[i].size;
    assert L.cellSizePtr(s) == n && t[..n] == s[..n];
  }

  lemma MovedNow(L: Layout, d: Bytes, d': Bytes, rs: seq<Region>, i: nat, src: Bytes)
    requires i < |rs| && |src| == |d| == |d'| && rs[i].End() <= |d|
    requires var to := NewOff(L.usableSize, rs, i);
      && L.CellOffset() + 2 * i + 2 <= to && to + rs[i].size <= |d'| && Get2(d', L.CellOffset() + 2 * i) == to
      && forall k :: to <= k < to + rs[i].size ==> d'[k] == src[rs[i].off + k - to]
    requires forall k :: rs[i].off <= k < rs[i].End() ==> src[k] == d[k]
    ensures Moved(L, d, d', rs, i)
  {
    hide NewOff;
    var to := NewOff(L.usableSize, rs, i);
    forall k | 0 <= k < rs[i].size
      ensures Slice(d', to, rs[i].size)[k] == Slice(d, rs[i].off, rs[i].size)[k]
    {
      assert d'[to + k] == src[rs[i].off + k];
    }
  }

  // What defragmentPage starts from.
  lemma DefragStart(L: Layout, d: Bytes, cells: seq<Region>, fl: seq<Region>)
    requires Space(L, d, cells, fl) && Pointers(L, d, cells)
    ensures PageFits(L, d, cells) && Moving(L, d, d, cells, 0) && BelowEnd(cells, 0, L.usableSize)
    ensures forall i :: 0 <= i < |cells| ==> CellOk(L, d, cells, i)
    ensures Total(cells[..0]) == 0 && cells[..|cells|] == cells
  {}

  // Only the gap and what the header says about space have changed.
  ghost predicate GapCleared(L: Layout, d1: Bytes, d2: Bytes, lo: int, hi: int) {
    && |d2| == |d1|
    && forall k :: 0 <= k < |d1| ==>
         (L.hdr + 1 <= k < L.hdr + 3) || (L.hdr + 5 <= k < L.hdr + 8) || lo <= k < hi || d2[k] == d1[k]
  }

  /** Cell i of one page image is cell i of another, with its pointer. */
  ghost predicate SameCell(L: Layout, d: Bytes, cells: seq<Region>, d': Bytes, cells': seq<Region>, i: nat)
    requires i < |cells| == |cells'|
  {
    && cells[i].End() <= |d| && cells'[i].End() <= |d'| && CellOk(L, d', cells', i)
    && Slice(d', cells'[i].off, cells'[i].size) == Slice(d, cells[i].off, cells[i].size)
  }

  lemma SameContents(L: Layout, d: Bytes, cells: seq<Region>, d': Bytes, cells': seq<Region>)
    requires |cells| == |cells'| && forall i :: 0 <= i < |cells| ==> SameCell(L, d, cells, d', cells', i)
    ensures forall i :: 0 <= i < |cells| ==>
      cells[i].End() <= |d| && cells'[i].End() <= |d'| && CellOk(L, d', cells', i)
    ensures Contents(d', cells') == Contents(d, cells)
  {
    forall i | 0 <= i < |cells|
      ensures cells[i].End() <= |d| && cells'[i].End() <= |d'| && CellOk(L, d', cells', i)
      ensures Slice(d', cells'[i].off, cells'[i].size) == Slice(d, cells[i].off, cells[i].size)
    {
      assert SameCell(L, d, cells, d', cells', i);
    }
  }

  lemma PackedAt(end: nat, cells: seq<Region>, i: nat)
    requires Total(cells) <= end && i < |cells|
    ensures |Packed(end, cells)| == |cells| && NewOff(end, cells, i) >= 0
    ensures Packed(end, cells)[i] == Region(NewOff(end, cells, i), cells[i].size)
  {
    TotalPrefix(cells, i + 1, i + 1);
  }

  lemma PackedCell(L: Layout, d: Bytes, d1: Bytes, d2: Bytes, cells: seq<Region>, i: nat)
    requires PageFits(L, d, cells) && i < |cells| && CellOk(L, d, cells, i) && Moved(L, d, d1, cells, i) && |d1| == |d|
    requires GapCleared(L, d1, d2, L.CellOffset() + 2 * |cells|, L.usableSize - Total(cells))
    ensures Total(cells) <= L.usableSize && |Packed(L.usableSize, cells)| == |cells|
    ensures SameCell(L, d, cells, d2, Packed(L.usableSize, cells), i)
  {
    hide Moved, CellOk, Layout.Valid, AllApart, Within, PageFits, Packed, NewOff, Total, Top;
    PackedPlace(L, d, cells, i);
    CellMoved(L, d, d1, d2, cells, Packed(L.usableSize, cells), i);
    CellEnd(L, d, cells, i);
    CellEnd(L, d2, Packed(L.usableSize, cells), i);
  }

  lemma PackedPlace(L: Layout, d: Bytes, cells: seq<Region>, i: nat)
    requires PageFits(L, d, cells) && i < |cells|
    ensures L.Valid() && |d| == L.pageSize && Total(cells) <= L.usableSize && |Packed(L.usableSize, cells)| == |cells|
    ensures var to := NewOff(L.usableSize, cells, i);
      && to >= 0 && Packed(L.usableSize, cells)[i] == Region(to, cells[i].size)
      && L.CellOffset() + 2 * |cells| <= L.usableSize - Total(cells) <= to && to + cells[i].size <= L.usableSize <= |d|
  {
    FitsFacts(L, d, cells, i);
    hide Layout.Valid, AllApart, Within, Packed, Total, Top;
    TotalPrefix(cells, i + 1, i + 1);
    PackedAt(L.usableSize, cells, i);
  }

  lemma CellEnd(L: Layout, d: Bytes, cells: seq<Region>, i: nat)
    requires i < |cells| && CellOk(L, d, cells, i)
    ensures cells[i].End() <= |d|
  {}

  lemma FitsValid(L: Layout, d: Bytes, cells: seq<Region>)
    requires PageFits(L, d, cells)
    ensures L.Valid() && Total(cells) <= L.usableSize && |d| == L.pageSize
  {}

  // And what it ends with.
  lemma DefragEnd(L: Layout, d: Bytes, d1: Bytes, d2: Bytes, cells: seq<Region>, fl: seq<Region>)
    requires Space(L, d, cells, fl) && Pointers(L, d, cells) && Moving(L, d, d1, cells, |cells|)
    requires GapCleared(L, d1, d2, L.CellOffset() + 2 * |cells|, L.usableSize - Total(cells))
    requires Get2(d2, L.hdr + 1) == 0 && d2[L.hdr + 7] == 0 && Top(L, d2) == L.usableSize - Total(cells)
    ensures Total(cells) <= L.usableSize && Space(L, d2, Packed(L.usableSize, cells), [])
      && Pointers(L, d2, Packed(L.usableSize, cells))
    ensures forall i :: 0 <= i < |cells| ==> cells[i].End() <= |d| && Packed(L.usableSize, cells)[i].End() <= |d2|
    ensures Contents(d2, Packed(L.usableSize, cells)) == Contents(d, cells)
  {
    hide Space, Pointers, Moved, CellOk, Layout.Valid, Packed, Total, BelowEnd, Top, GapCleared, AllApart, SameCell,
      Contents, PageFits;
    DefragStart(L, d, cells, fl);
    CountKept(L, d, d1, d2, cells);
    FitsValid(L, d, cells);
    var ps := Packed(L.usableSize, cells);
    PackedLength(L.usableSize, cells);
    forall i | 0 <= i < |cells|
      ensures SameCell(L, d, cells, d2, ps, i)
    {
      assert Moved(L, d, d1, cells, i);
      PackedCell(L, d, d1, d2, cells, i);
    }
    SameContents(L, d, cells, d2, ps);
    PackedSpace(L, d2, cells);
    MakePointers(L, d2, ps);
  }

  lemma PackedLength(end: nat, cells: seq<Region>)
    requires Total(cells) <= end
    ensures |Packed(end, cells)| == |cells|
    ensures forall i :: 0 <= i < |cells| ==> Packed(end, cells)[i].size == cells[i].size
  {}

  lemma CountKept(L: Layout, d: Bytes, d1: Bytes, d2: Bytes, cells: seq<Region>)
    requires PageFits(L, d, cells) && Pointers(L, d, cells) && Moving(L, d, d1, cells, |cells|)
    requires GapCleared(L, d1, d2, L.CellOffset() + 2 * |cells|, L.usableSize - Total(cells))
    ensures Get2(d2, L.hdr + 3) == |cells| && |d2| == L.pageSize
      && L.CellOffset() + 2 * |cells| <= L.usableSize - Total(cells)
    ensures L.Valid() && forall i :: 0 <= i < |cells| ==> cells[i].size >= 4
  {}

  lemma MakePointers(L: Layout, d: Bytes, cells: seq<Region>)
    requires L.Valid() && |d| == L.pageSize && L.CellOffset() + 2 * |cells| <= Top(L, d) <= L.usableSize
    requires Get2(d, L.hdr + 3) == |cells| && forall i :: 0 <= i < |cells| ==> CellOk(L, d, cells, i)
    ensures Pointers(L, d, cells)
  {}

  lemma CellMoved(L: Layout, d: Bytes, d1: Bytes, d2: Bytes, cells: seq<Region>, ps: seq<Region>, i: nat)
    requires L.Valid() && i < |cells| == |ps| && |d| == |d1| == |d2| && Moved(L, d, d1, cells, i)
      && CellOk(L, d, cells, i)
    requires NewOff(L.usableSize, cells, i) >= 0 && ps[i] == Region(NewOff(L.usableSize, cells, i), cells[i].size)
    requires forall k :: L.CellOffset() + 2 * i <= k < L.CellOffset() + 2 * i + 2 || ps[i].off <= k < ps[i].End() ==>
      d2[k] == d1[k]
    ensures CellOk(L, d2, ps, i) && Slice(d2, ps[i].off, ps[i].size) == Slice(d, cells[i].off, cells[i].size)
  {
    hide NewOff;
    assert Slice(d2, ps[i].off, ps[i].size) == Slice(d1, ps[i].off, ps[i].size);
    var s, t, n := d[cells[i].off..], d2[ps[i].off..], cells[i].size;
    assert t[..n] == Slice(d2, ps[i].off, n) && s[..n] == Slice(d, cells[i].off, n);
  }

  // ----- What the operations keep -----

  /** Cells that are kept are still listed, with the same contents. */
  lemma KeepsPointers(L: Layout, d: Bytes, d': Bytes, cells: seq<Region>, used: seq<Region>)
    requires Pointers(L, d, cells) && Keeps(L, d, d', used) && L.CellOffset() + 2 * |cells| <= Top(L, d')
    requires cells <= used
    ensures Pointers(L, d', cells)
    ensures forall i :: 0 <= i < |cells| ==> cells[i].End() <= |d| && cells[i].End() <= |d'|
    ensures Contents(d', cells) == Contents(d, cells)
  {
    forall i | 0 <= i < |cells|
      ensures SameCell(L, d, cells, d', cells, i)
    {
      assert CellOk(L, d, cells, i);
      forall k | cells[i].off <= k < cells[i].End()
        ensures d'[k] == d[k]
      {
        assert used[i] == cells[i];
      }
      CellSizeAt(L, d, cells, i, d');
      assert Slice(d', cells[i].off, cells[i].size) == Slice(d, cells[i].off, cells[i].size);
    }
    SameContents(L, d, cells, d', cells);
  }

  /** Freeblocks and accounting do not depend on the contents of cells or on the pointer array. */
  lemma SpaceSame(L: Layout, d: Bytes, d': Bytes, used: seq<Region>, fl: seq<Region>)
    requires Space(L, d, used, fl) && |d'| == |d|
    requires forall k :: L.hdr + 1 <= k < L.hdr + 3 || L.hdr + 5 <= k < L.hdr + 8 ==> d'[k] == d[k]
    requires forall j, k {:trigger fl[j], d'[k]} :: 0 <= j < |fl| && fl[j].off <= k < fl[j].End() && k < |d| ==>
      d'[k] == d[k]
    ensures Space(L, d', used, fl) && Top(L, d') == Top(L, d)
  {
    hide Partition, Space, FreeList, Top, Ascending;
    SpaceFacts(L, d, used, fl);
    TopSame(L, d, d');
    SameFreeList(L, d, d', fl);
    MakeSpace(L, d', used, fl);
  }

  // The order in which regions are listed does not matter.
  lemma PartitionInsert(top: nat, end: nat, used: seq<Region>, fl: seq<Region>, frag: nat, i: nat, r: Region)
    requires Partition(top, end, used + [r], fl, frag) && i <= |used|
    ensures Partition(top, end, InsertAt(used, i, r), fl, frag)
  {
    hide Total, Ascending;
    var from, to := used + [r], InsertAt(used, i, r);
    TotalInsert(used, i, r);
    TotalConcat(used, [r]);
    TotalOne(r);
    forall a, b | 0 <= a < b < |to|
      ensures Apart(to[a], to[b])
    {
      InsertedFrom(used, i, r, a);
      InsertedFrom(used, i, r, b);
    }
    forall a | 0 <= a < |to|
      ensures top <= to[a].off && to[a].End() <= end && to[a].size >= 4
      ensures forall b :: 0 <= b < |fl| ==> Apart(to[a], fl[b])
    {
      InsertedFrom(used, i, r, a);
    }
  }

  lemma InsertedFrom(used: seq<Region>, i: nat, r: Region, a: nat)
    requires i <= |used| && a <= |used|
    ensures InsertAt(used, i, r)[a] == (used + [r])[if a < i then a else if a == i then |used| else a - 1]
  {}

  lemma ValidFacts(L: Layout, d: Bytes, cells: seq<Region>, fl: seq<Region>)
    requires Space(L, d, cells, fl) && Pointers(L, d, cells)
    ensures L.Valid() && L.hdr + 8 <= L.CellOffset()
      && L.CellOffset() + 2 * |cells| <= Top(L, d) <= L.usableSize <= L.pageSize
    ensures forall i :: 0 <= i < |cells| ==> cells[i].End() <= |d|
  {
    forall i | 0 <= i < |cells|
      ensures cells[i].End() <= |d|
    {
      assert CellOk(L, d, cells, i);
    }
  }

  // ----- The pointer array -----

  // Cell pointer i of the new array is pointer m of the old one.
  ghost predicate PointerFrom(L: Layout, d: Bytes, m: nat, d': Bytes, i: nat) {
    && L.CellOffset() + 2 * m + 2 <= |d| && L.CellOffset() + 2 * i + 2 <= |d'|
    && Get2(d', L.CellOffset() + 2 * i) == Get2(d, L.CellOffset() + 2 * m)
  }

  // It has moved up by one, or down.
  ghost predicate PointerUp(L: Layout, d: Bytes, m: nat, d': Bytes) { PointerFrom(L, d, m, d', m + 1) }

  ghost predicate PointerDown(L: Layout, d: Bytes, d': Bytes, i: nat) { PointerFrom(L, d, i + 1, d', i) }

  lemma CellFrom(L: Layout, d: Bytes, cells: seq<Region>, m: nat, d': Bytes, cells': seq<Region>, i: nat)
    requires L.Valid() && |d| == |d'| && m < |cells| && i < |cells'| && cells'[i] == cells[m] && CellOk(L, d, cells, m)
    requires PointerFrom(L, d, m, d', i) && forall k :: cells[m].off <= k < cells[m].End() ==> d'[k] == d[k]
    ensures CellOk(L, d', cells', i)
      && Slice(d', cells'[i].off, cells'[i].size) == Slice(d, cells[m].off, cells[m].size)
  {
    CellSizeAt(L, d, cells, m, d');
  }

  /** A cell has been written into its space r and listed as cell i; nothing else has changed. */
  ghost predicate CellWritten(L: Layout, d: Bytes, d': Bytes, n: nat, i: nat, r: Region, cell: Bytes)
    requires L.hdr + 8 <= |d|
  {
    && |d'| == |d| && |cell| == r.size && L.cellSizePtr(cell) == r.size && r.End() <= |d|
    && Slice(d', r.off, r.size) == cell
    && (forall k :: Top(L, d) <= k < |d| && !(r.off <= k < r.End()) ==> d'[k] == d[k])
    && (forall k :: L.hdr + 1 <= k < L.hdr + 3 || L.hdr + 5 <= k < L.hdr + 8 ==> d'[k] == d[k])
    && L.CellOffset() + 2 * n + 2 <= Top(L, d) && L.CellOffset() + 2 * n + 2 <= |d| && i <= n
    && Get2(d', L.hdr + 3) == n + 1 && Get2(d', L.CellOffset() + 2 * i) == r.off
    && (forall m :: 0 <= m < i ==> PointerFrom(L, d, m, d', m))
    && (forall m :: i <= m < n ==> PointerUp(L, d, m, d'))
  }

  lemma ListedSpace(L: Layout, d: Bytes, d': Bytes, cells: seq<Region>, fl: seq<Region>, i: nat, r: Region, cell: Bytes)
    requires Space(L, d, cells + [r], fl) && L.hdr + 8 <= |d| && CellWritten(L, d, d', |cells|, i, r, cell)
    ensures Space(L, d', InsertAt(cells, i, r), fl) && Top(L, d') == Top(L, d)
  {
    hide Space, Partition, Top, PointerFrom, Layout.Valid, InsertAt;
    SpaceFacts(L, d, cells + [r], fl);
    forall j, k {:trigger fl[j], d'[k]} | 0 <= j < |fl| && fl[j].off <= k < fl[j].End() && k < |d|
      ensures d'[k] == d[k]
    {
      assert Apart((cells + [r])[|cells|], fl[j]);
    }
    SpaceSame(L, d, d', cells + [r], fl);
    SpaceInsert(L, d', cells, fl, i, r);
  }

  lemma ListedCell(L: Layout, d: Bytes, d': Bytes, cells: seq<Region>, fl: seq<Region>, i: nat, r: Region, cell: Bytes,
                   m: nat)
    requires Space(L, d, cells + [r], fl) && L.hdr + 8 <= |d| && CellWritten(L, d, d', |cells|, i, r, cell)
      && m < |cells|
    requires CellOk(L, d, cells, m)
    ensures var to, m' := InsertAt(cells, i, r), if m < i then m else m + 1;
      CellOk(L, d', to, m') && to[m'] == cells[m]
        && Slice(d', cells[m].off, cells[m].size) == Slice(d, cells[m].off, cells[m].size)
  {
    hide Space, Partition, Top, PointerFrom, Layout.Valid, CellOk;
    SpaceFacts(L, d, cells + [r], fl);
    SpaceApart(L, d, cells + [r], fl);
    assert m >= i ==> PointerUp(L, d, m, d');
    assert Apart((cells + [r])[m], (cells + [r])[|cells|]) && (cells + [r])[m] == cells[m];
    assert Top(L, d) <= (cells + [r])[m].off;
    CellEnd(L, d, cells, m);
    CellFrom(L, d, cells, m, d', InsertAt(cells, i, r), if m < i then m else m + 1);
  }

  /** The page lists its cells with the new one among them. */
  lemma Listed(L: Layout, d: Bytes, d': Bytes, cells: seq<Region>, fl: seq<Region>, i: nat, r: Region, cell: Bytes)
    requires Space(L, d, cells + [r], fl) && Pointers(L, d, cells) && L.hdr + 8 <= |d|
      && CellWritten(L, d, d', |cells|, i, r, cell)
    ensures Space(L, d', InsertAt(cells, i, r), fl) && Pointers(L, d', InsertAt(cells, i, r))
    ensures forall m :: 0 <= m < |cells| ==> cells[m].End() <= |d|
    ensures forall m :: 0 <= m < |InsertAt(cells, i, r)| ==> InsertAt(cells, i, r)[m].End() <= |d'|
    ensures Contents(d', InsertAt(cells, i, r)) == InsertAt(Contents(d, cells), i, cell)
  {
    hide Space, Partition, Top, Layout.Valid, CellOk, PointerFrom;
    ListedSpace(L, d, d', cells, fl, i, r, cell);
    SpaceFacts(L, d', InsertAt(cells, i, r), fl);
    var to := InsertAt(cells, i, r);
    forall m | 0 <= m < |cells|
      ensures KeptBytes(d, d', cells[m])
    {
      assert CellOk(L, d, cells, m);
      CellEnd(L, d, cells, m);
      ListedCell(L, d, d', cells, fl, i, r, cell, m);
    }
    forall m | 0 <= m < |to|
      ensures CellOk(L, d', to, m)
    {
      if m == i {
        NewCellOk(L, d', to, i, cell);
      } else {
        var m' := if m < i then m else m - 1;
        assert CellOk(L, d, cells, m');
        ListedCell(L, d, d', cells, fl, i, r, cell, m');
      }
    }
    MakePointers(L, d', to);
    ListedContents(d, d', cells, i, r, cell);
  }

  ghost predicate KeptBytes(d: Bytes, d': Bytes, r: Region) {
    r.End() <= |d| && r.End() <= |d'| && Slice(d', r.off, r.size) == Slice(d, r.off, r.size)
  }

  lemma ListedContents(d: Bytes, d': Bytes, cells: seq<Region>, i: nat, r: Region, cell: Bytes)
    requires i <= |cells| && r.End() <= |d'| && Slice(d', r.off, r.size) == cell
    requires forall m :: 0 <= m < |cells| ==> KeptBytes(d, d', cells[m])
    ensures forall m :: 0 <= m < |cells| ==> cells[m].End() <= |d|
    ensures forall m :: 0 <= m < |InsertAt(cells, i, r)| ==> InsertAt(cells, i, r)[m].End() <= |d'|
    ensures Contents(d', InsertAt(cells, i, r)) == InsertAt(Contents(d, cells), i, cell)
  {
    forall m | 0 <= m < |cells|
      ensures cells[m].End() <= |d| && cells[m].End() <= |d'|
        && Slice(d', cells[m].off, cells[m].size) == Slice(d, cells[m].off, cells[m].size)
    {
      assert KeptBytes(d, d', cells[m]);
    }
  }

  lemma NewCellOk(L: Layout, d: Bytes, cells: seq<Region>, i: nat, cell: Bytes)
    requires L.Valid() && i < |cells| && cells[i].End() <= |d| && Slice(d, cells[i].off, cells[i].size) == cell
    requires L.cellSizePtr(cell) == |cell| && L.CellOffset() + 2 * i + 2 <= |d|
      && Get2(d, L.CellOffset() + 2 * i) == cells[i].off
    ensures CellOk(L, d, cells, i)
  {
    var t := d[cells[i].off..];
    assert cell[..|cell|] == cell && t[..|cell|] == cell;
    assert L.cellSizePtr(cell) <= |cell| && L.cellSizePtr(cell) <= |t|
      && t[..L.cellSizePtr(cell)] == cell[..L.cellSizePtr(cell)];
    assert L.cellSizePtr(t) == L.cellSizePtr(cell);
  }

  lemma SpaceApart(L: Layout, d: Bytes, used: seq<Region>, fl: seq<Region>)
    requires Space(L, d, used, fl)
    ensures AllApart(used)
  {}

  lemma SpaceInsert(L: Layout, d: Bytes, cells: seq<Region>, fl: seq<Region>, i: nat, r: Region)
    requires Space(L, d, cells + [r], fl) && i <= |cells|
    ensures Space(L, d, InsertAt(cells, i, r), fl)
  {
    hide Partition, Top, Layout.Valid, FreeList, InsertAt;
    SpaceFacts(L, d, cells + [r], fl);
    PartitionInsert(Top(L, d), L.usableSize, cells, fl, d[L.hdr + 7] as nat, i, r);
  }

  /** A cell pointer has been taken out of the array. */
  ghost predicate PointerRemoved(L: Layout, d: Bytes, d': Bytes, n: nat, i: nat) {
    && |d'| == |d| && i < n && L.CellOffset() + 2 * n <= |d|
    && (forall k :: L.CellOffset() + 2 * n <= k < |d| ==> d'[k] == d[k])
    && (forall k :: L.hdr + 1 <= k < L.hdr + 3 || L.hdr + 5 <= k < L.hdr + 8 ==> d'[k] == d[k])
    && Get2(d', L.hdr + 3) == n - 1
    && (forall m :: 0 <= m < i ==> PointerFrom(L, d, m, d', m))
    && (forall m :: i <= m < n - 1 ==> PointerDown(L, d, d', m))
  }

  lemma DroppedCell(L: Layout, d: Bytes, d1: Bytes, d2: Bytes, cells: seq<Region>, i: nat, m: nat)
    requires Pointers(L, d, cells) && i < |cells| && m < |cells| && m != i && Keeps(L, d, d1, RemoveAt(cells, i))
    requires PointerRemoved(L, d1, d2, |cells|, i) && Top(L, d) <= cells[m].off
    ensures var m' := if m < i then m else m - 1;
      && RemoveAt(cells, i)[m'] == cells[m] && CellOk(L, d2, RemoveAt(cells, i), m') && KeptBytes(d, d2, cells[m])
  {
    var rest, m' := RemoveAt(cells, i), if m < i then m else m - 1;
    assert rest[m'] == cells[m] && CellOk(L, d, cells, m);
    assert m > i ==> PointerDown(L, d1, d2, m');
    assert PointerFrom(L, d1, m, d2, m');
    CellFrom(L, d, cells, m, d2, rest, m');
  }

  /** The page after a cell has been dropped. */
  lemma Dropped(L: Layout, d: Bytes, d1: Bytes, d2: Bytes, cells: seq<Region>, fl0: seq<Region>, fl: seq<Region>,
                i: nat)
    requires Space(L, d, cells, fl0) && Pointers(L, d, cells) && i < |cells|
    requires Space(L, d1, RemoveAt(cells, i), fl) && Keeps(L, d, d1, RemoveAt(cells, i)) && Top(L, d) <= Top(L, d1)
    requires PointerRemoved(L, d1, d2, |cells|, i)
    ensures Space(L, d2, RemoveAt(cells, i), fl) && Pointers(L, d2, RemoveAt(cells, i)) && Top(L, d2) == Top(L, d1)
    ensures forall m :: 0 <= m < |cells| ==> cells[m].End() <= |d|
    ensures forall m :: 0 <= m < |cells| - 1 ==> RemoveAt(cells, i)[m].End() <= |d2|
    ensures Contents(d2, RemoveAt(cells, i)) == RemoveAt(Contents(d, cells), i)
  {
    hide Space, Partition, Top, PointerFrom, Layout.Valid, CellOk, RemoveAt, Keeps;
    SpaceFacts(L, d, cells, fl0);
    SpaceFacts(L, d1, RemoveAt(cells, i), fl);
    ValidFacts(L, d, cells, fl0);
    SpaceSame(L, d1, d2, RemoveAt(cells, i), fl);
    forall m | 0 <= m < |cells| && m != i
      ensures KeptBytes(d, d2, cells[m])
    {
      DroppedCell(L, d, d1, d2, cells, i, m);
    }
    RemovedLength(cells, i);
    forall m | 0 <= m < |cells| - 1
      ensures CellOk(L, d2, RemoveAt(cells, i), m)
    {
      DroppedCell(L, d, d1, d2, cells, i, if m < i then m else m + 1);
    }
    MakePointers(L, d2, RemoveAt(cells, i));
    DroppedContents(d, d2, cells, i);
  }

  lemma RemovedLength<T>(s: seq<T>, i: nat)
    requires i < |s|
    ensures |RemoveAt(s, i)| == |s| - 1
  {}

  lemma RemovedIndex<T>(s: seq<T>, i: nat, m: nat)
    requires i < |s| && m < |s| - 1
    ensures |RemoveAt(s, i)| == |s| - 1 && RemoveAt(s, i)[m] == s[if m < i then m else m + 1]
  {}

  lemma DroppedContents(d: Bytes, d': Bytes, cells: seq<Region>, i: nat)
    requires i < |cells| && (forall m :: 0 <= m < |cells| && m != i ==> KeptBytes(d, d', cells[m]))
      && cells[i].End() <= |d|
    ensures forall m :: 0 <= m < |cells| ==> cells[m].End() <= |d|
    ensures forall m :: 0 <= m < |RemoveAt(cells, i)| ==> RemoveAt(cells, i)[m].End() <= |d'|
    ensures Contents(d', RemoveAt(cells, i)) == RemoveAt(Contents(d, cells), i)
  {
    hide RemoveAt;
    forall m | 0 <= m < |cells|
      ensures cells[m].End() <= |d|
    {
      assert m != i ==> KeptBytes(d, d', cells[m]);
    }
    RemovedLength(cells, i);
    var rest, old' := RemoveAt(cells, i), Contents(d, cells);
    RemovedLength(old', i);
    forall m | 0 <= m < |rest|
      ensures rest[m].End() <= |d'| && Slice(d', rest[m].off, rest[m].size) == RemoveAt(old', i)[m]
    {
      RemovedIndex(cells, i, m);
      RemovedIndex(old', i, m);
      assert KeptBytes(d, d', cells[if m < i then m else m + 1]);
    }
    assert Contents(d', rest) == RemoveAt(old', i);
  }

  class MemPage {
    const L: Layout
    const aData: array<u8>
    var nCell: nat
    var nFree: int
    var apOvfl: seq<Bytes>          // cells that did not fit on the page, with the indices they belong at
    var aiOvfl: seq<nat>
    ghost var cells: seq<Region>
    ghost var fl: seq<Region>

    /** A page without cells. */
    constructor ZeroPage(layout: Layout)
      requires layout.Valid()
      ensures Valid() && L == layout && cells == [] && apOvfl == [] && fresh(aData)
    {
      L := layout;
      aData := new u8[layout.pageSize];
      nCell, apOvfl, aiOvfl, cells := 0, [], [], [];
      new;
      ResetEmpty();
      NoContents(aData[..], cells);
    }

    /**
    Search the freeblocks for nByte bytes: idx is where they are, or 0. They are the end of the first freeblock that is
    large enough. No slot is taken when that would make too many fragments; then the page has to be defragmented.
    */
    method PageFindSlot(nByte: nat) returns (idx: nat, bDefrag: bool)
      requires aData.Length == L.pageSize && Space(L, aData[..], cells, fl) && nByte >= 4
      modifies aData, this`fl
      ensures idx == 0 ==> aData[..] == old(aData[..]) && fl == old(fl)
      ensures idx != 0 ==> Space(L, aData[..], cells + [Region(idx, nByte)], fl) && !bDefrag
      ensures idx != 0 ==> Keeps(L, old(aData[..]), aData[..], cells) && Top(L, aData[..]) == Top(L, old(aData[..]))
      ensures idx != 0 ==> Outside(L, old(aData[..]), aData[..])
      ensures idx == 0 && !bDefrag ==> forall j :: 0 <= j < |fl| ==> fl[j].size < nByte
      ensures bDefrag ==> aData[L.hdr + 7] >= 60
      ensures bDefrag ==> exists j :: 0 <= j < |fl| && FirstFit(fl, nByte, j) && fl[j].size < nByte + 4
      ensures idx != 0 ==>
        exists j :: 0 <= j < |old(fl)| && FirstFit(old(fl), nByte, j) && idx == old(fl)[j].End() - nByte
    {
      hide Space, Keeps, Top, Put2, RemoveAt, Get2;
      ghost var d := aData[..];
      ghost var j := 0;
      var iAddr := L.hdr + 1;
      LinkFacts(L, d, cells, fl, 0);
      var pc := Get2At(aData, iAddr);
      while pc > 0
        invariant j <= |fl| && LinkAddr(L, fl, j) == iAddr && pc == OffAt(fl, j) && aData[..] == d && fl == old(fl)
        invariant forall i :: 0 <= i < j ==> fl[i].size < nByte
        decreases |fl| - j
      {
        LinkFacts(L, d, cells, fl, j);
        LinkFacts(L, d, cells, fl, j + 1);
        var size := Get2At(aData, pc + 2);
        if size >= nByte {
          var x := size - nByte;
          assert FirstFit(fl, nByte, j);
          if x < 4 {
            if aData[L.hdr + 7] >= 60 {
              return 0, true;
            }
            TakeWhole(L, d, cells, fl, j, nByte);
            var next := Get2At(aData, pc);
            Put2At(aData, iAddr, next);
            aData[L.hdr + 7] := aData[L.hdr + 7] + x as u8;
            fl := RemoveAt(fl, j);
          } else {
            TakeTail(L, d, cells, fl, j, nByte);
            Put2At(aData, pc + 2, x);
            fl := fl[j := Region(pc, x)];
          }
          KeepsOutside(L, d, aData[..], cells, old(fl));
          return pc + x, false;
        }
        iAddr, j := pc, j + 1;
        pc := Get2At(aData, iAddr);
      }
      NoMoreBlocks(L, d, cells, fl, j);
      return 0, false;
    }

    ghost predicate Valid()
      reads this, aData
    {
      && aData.Length == L.pageSize && Space(L, aData[..], cells, fl) && Pointers(L, aData[..], cells)
      && nCell == |cells| && nFree == L.usableSize - L.CellOffset() - 2 * |cells| - Total(cells)
      && (|cells| == 0 ==> fl == [] && Top(L, aData[..]) == L.usableSize)
    }

    /** Move the cells to the end of the page, so that all free space is in the gap. */
    method DefragmentPage()
      requires Valid()
      modifies aData, this`cells, this`fl
      ensures Valid() && fl == [] && |cells| == old(|cells|)
        && Contents(aData[..], cells) == old(Contents(aData[..], cells))
      ensures Top(L, aData[..]) - L.CellOffset() - 2 * |cells| == nFree
      ensures Outside(L, old(aData[..]), aData[..])
      ensures forall i :: 0 <= i < |cells| ==> cells[i].size == old(cells)[i].size
    {
      hide Space, Pointers, Put2, Total, PageFits, Moving, BelowEnd, Moved, CellOk, NewOff, Packed, Contents,
        Layout.Valid, Top;
      ghost var d, rs, fl0 := aData[..], cells, fl;
      DefragStart(L, d, rs, fl);
      SpaceFacts(L, d, rs, fl);
      var cellOffset := L.CellOffset();
      var iCellFirst := cellOffset + 2 * nCell;
      var cbrk: nat := L.usableSize;
      var temp := new u8[L.pageSize];
      var moved := false;
      var end: nat := cbrk;
      for i := 0 to nCell
        invariant aData.Length == L.pageSize && cells == rs && fl == fl0 && fresh(temp) && temp.Length == L.pageSize
        invariant cbrk == L.usableSize - Total(rs[..i]) && cbrk <= end <= L.usableSize
        invariant !moved ==> aData[..] == d && end == cbrk
        invariant Moving(L, d, aData[..], rs, i) && BelowEnd(rs, i, end)
        invariant moved ==> forall k :: Top(L, d) <= k < end ==> temp[k] == d[k]
      {
        cbrk, moved, end := MoveCell(d, rs, i, cbrk, moved, end, temp);
      }
      CountFits(L, d, rs);
      ghost var d1 := aData[..];
      FinishDefrag(iCellFirst, cbrk);
      DefragEnd(L, d, d1, aData[..], rs, fl0);
      DefragOutside(L, d, d1, aData[..], rs, iCellFirst, cbrk);
      cells, fl := Packed(L.usableSize, rs), [];
      PackedTotal(L.usableSize, rs);
      PackedLength(L.usableSize, rs);
    }

    // Move cell i. The cells behind it that are still in their place need not be touched; from the first one that is
    // not, what is left of the content area is read from a copy.
    method MoveCell(ghost d: Bytes, ghost rs: seq<Region>, i: nat, cbrk0: nat, moved0: bool, end0: nat, temp: array<u8>)
      returns (cbrk: nat, moved: bool, end: nat)
      requires PageFits(L, d, rs) && i < |rs| && CellOk(L, d, rs, i)
      requires aData.Length == L.pageSize == temp.Length && temp != aData
      requires cbrk0 == L.usableSize - Total(rs[..i]) && cbrk0 <= end0 <= L.usableSize
      requires !moved0 ==> aData[..] == d && end0 == cbrk0
      requires Moving(L, d, aData[..], rs, i) && BelowEnd(rs, i, end0)
      requires moved0 ==> forall k :: Top(L, d) <= k < end0 ==> temp[k] == d[k]
      modifies aData, temp
      ensures cbrk == L.usableSize - Total(rs[..i + 1]) && cbrk <= end <= L.usableSize
      ensures !moved ==> aData[..] == d && end == cbrk
      ensures Moving(L, d, aData[..], rs, i + 1) && BelowEnd(rs, i + 1, end)
      ensures moved ==> forall k :: Top(L, d) <= k < end ==> temp[k] == d[k]
    {
      hide Moving, BelowEnd, Moved, CellOk, PageFits, Total, NewOff, Top, Layout.Valid, Put2;
      MoveFacts(L, d, aData[..], rs, i, end0);
      ghost var d0 := aData[..];
      var pc := Get2At(aData, L.CellOffset() + 2 * i);
      ghost var src := if moved0 then temp[..] else aData[..];
      CellSizeAt(L, d, rs, i, src);
      var size := if moved0 then L.cellSizePtr(temp[pc..]) else L.cellSizePtr(aData[pc..]);
      assert size == rs[i].size by { assert (if moved0 then temp[pc..] else aData[pc..]) == src[pc..]; }
      cbrk, moved, end := cbrk0 - size, moved0, end0;
      Put2At(aData, L.CellOffset() + 2 * i, cbrk);
      if !moved && cbrk == pc {
        Put2Same(d, L.CellOffset() + 2 * i);
        BelowStep(L, d, rs, i, end);
        end := cbrk;
        InPlace(L, d, rs, i);
        MovingStep(L, d, d, d, rs, i);
        return;
      }
      if !moved {
        TopSame(L, d, aData[..]);
        var x := ContentStart();
        CopyBytes(temp, x, aData, x, end - x);
        moved := true;
      }
      CopyBytes(aData, cbrk, temp, pc, size);
      MovedNow(L, d, aData[..], rs, i, temp[..]);
      MovingStep(L, d, d0, aData[..], rs, i);
      BelowRest(rs, i, end);
    }

    // The offset of the content area, as get2byteNotZero reads it.
    method ContentStart() returns (top: nat)
      requires L.hdr + 8 <= aData.Length
      ensures top == Top(L, aData[..])
    {
      top := Get2At(aData, L.hdr + 5);
      if top == 0 {
        top := 65536;
      }
    }

    /**
    Find nByte bytes, which the page is known to have together with room for a cell pointer. This always succeeds.
    */
    method AllocateSpace(nByte: nat) returns (idx: nat)
      requires Valid() && 4 <= nByte && nByte + 2 <= nFree
      modifies aData, this`cells, this`fl
      ensures |cells| == old(|cells|) && aData.Length == L.pageSize && nCell == |cells|
      ensures Space(L, aData[..], cells + [Region(idx, nByte)], fl) && Pointers(L, aData[..], cells)
      ensures L.CellOffset() + 2 * |cells| + 2 <= Top(L, aData[..])
      ensures Total(cells) == old(Total(cells)) && Contents(aData[..], cells) == old(Contents(aData[..], cells))
      ensures Outside(L, old(aData[..]), aData[..])
    {
      hide Space, Pointers, Put2, Total, Keeps, Top, Contents, Outside;
      ghost var d := aData[..];
      ValidFacts(L, d, cells, fl);
      OutsideSelf(L, d, cells, fl);
      var gap := L.CellOffset() + 2 * nCell;
      var top := ContentStart();
      var b1, b2 := aData[L.hdr + 1], aData[L.hdr + 2];
      var bDefrag := false;
      if gap + 2 <= top && (b1 != 0 || b2 != 0) {
        idx, bDefrag := PageFindSlot(nByte);
        if idx != 0 {
          AllocatedFacts(L, d, aData[..], cells, fl, Region(idx, nByte));
          return;
        }
      }
      if bDefrag || gap + 2 + nByte > top {
        ghost var cells0 := cells;
        DefragmentPage();
        SameTotal(cells, cells0);
        top := ContentStart();
        assert gap + nByte <= top;
        ValidFacts(L, aData[..], cells, fl);
      }
      ghost var d1 := aData[..];
      idx := TakeFromGap(nByte, top);
      OutsideTrans(L, d, d1, aData[..]);
      AllocatedFacts(L, d1, aData[..], cells, fl, Region(idx, nByte));
    }

    // The bytes at the end of the gap.
    method TakeFromGap(nByte: nat, top: nat) returns (idx: nat)
      requires aData.Length == L.pageSize && Space(L, aData[..], cells, fl) && top == Top(L, aData[..])
      requires 4 <= nByte && L.CellOffset() + nByte <= top
      modifies aData
      ensures idx == top - nByte == Top(L, aData[..]) && Space(L, aData[..], cells + [Region(idx, nByte)], fl)
      ensures Keeps(L, old(aData[..]), aData[..], cells) && Outside(L, old(aData[..]), aData[..])
    {
      hide Space, Put2, Keeps, Top, Outside;
      ghost var d := aData[..];
      SpaceFacts(L, d, cells, fl);
      TakeGap(L, d, cells, fl, nByte);
      idx := top - nByte;
      Put2At(aData, L.hdr + 5, idx);
      KeepsOutside(L, d, aData[..], cells, fl);
    }

    /**
    Give back the space of cell k, joining it with the freeblocks on both sides of it and with the fragments in
    between, or with the gap.
    */
    method FreeSpace(iStart0: nat, iSize0: nat, ghost k: nat)
      requires aData.Length == L.pageSize && Space(L, aData[..], cells, fl)
      requires k < |cells| && cells[k] == Region(iStart0, iSize0)
      modifies aData, this`fl, this`nFree
      ensures Space(L, aData[..], RemoveAt(cells, k), fl) && Keeps(L, old(aData[..]), aData[..], RemoveAt(cells, k))
      ensures Top(L, old(aData[..])) <= Top(L, aData[..]) && nFree == old(nFree) + iSize0
      ensures Outside(L, old(aData[..]), aData[..])
    {
      hide Space, Put2, Keeps, Top, RemoveAt, NFrag, Get2, Joined;
      ghost var d := aData[..];
      FreeFacts(L, d, cells, fl, k);
      LinkFacts(L, d, cells, fl, 0);
      var iStart, iEnd, iPtr, iFreeBlk, nFrag := iStart0, iStart0 + iSize0, L.hdr + 1, 0, 0;
      ghost var j, j1, j2 := 0, 0, 0;
      var b1, b2 := aData[L.hdr + 1], aData[L.hdr + 2];
      if b1 == 0 && b2 == 0 {
        EmptyList(L, d, fl);
        JoinNone(fl, cells[k]);
      } else {
        iPtr, iFreeBlk, j := FindPlace(d, iStart0, k);
        iStart, iEnd, iFreeBlk, nFrag, j1, j2 := JoinNeighbours(d, k, j, iStart, iEnd, iPtr, iFreeBlk);
      }
      WriteFree(d, k, j, j1, j2, iStart, iEnd, iPtr, iFreeBlk, nFrag);
      nFree := nFree + iSize0;
      FreedOutside(L, d, aData[..], cells, old(fl), k);
    }

    // Join the freed space with the freeblocks that are fewer than four bytes away.
    method JoinNeighbours(ghost d: Bytes, ghost k: nat, ghost j: nat, iStart0: nat, iEnd0: nat, iPtr: nat,
                          iFreeBlk0: nat)
      returns (iStart: nat, iEnd: nat, iFreeBlk: nat, nFrag: int, ghost j1: nat, ghost j2: nat)
      requires aData.Length == L.pageSize && d == aData[..] && Space(L, d, cells, fl) && k < |cells| && j <= |fl|
      requires cells[k].off == iStart0 && cells[k].End() == iEnd0 && iPtr == LinkAddr(L, fl, j)
        && iFreeBlk0 == OffAt(fl, j)
      requires forall i :: 0 <= i < j ==> fl[i].End() <= iStart0
      requires forall i :: j <= i < |fl| ==> iEnd0 <= fl[i].off
      requires j > 0 <==> iPtr > L.hdr + 1
      ensures iStart <= iEnd && Joined(fl, cells[k], j, j1, j2, Region(iStart, iEnd - iStart))
      ensures j1 <= j <= j2 <= |fl| && iFreeBlk == OffAt(fl, j2) && nFrag == NFrag(fl, cells[k], j, j1, j2) >= 0
    {
      hide Space, Get2, Joined, NFrag;
      iStart, iEnd, iFreeBlk, nFrag, j1, j2 := iStart0, iEnd0, iFreeBlk0, 0, j, j;
      LinkFacts(L, d, cells, fl, j);
      if iFreeBlk != 0 && iEnd + 3 >= iFreeBlk {
        nFrag := iFreeBlk - iEnd;
        LinkFacts(L, d, cells, fl, j + 1);
        var size := Get2At(aData, iFreeBlk + 2);
        iEnd := iFreeBlk + size;
        iFreeBlk := Get2At(aData, iFreeBlk);
        j2 := j + 1;
      }
      if iPtr > L.hdr + 1 {
        LinkFacts(L, d, cells, fl, j - 1);
        var size := Get2At(aData, iPtr + 2);
        var iPtrEnd := iPtr + size;
        if iPtrEnd + 3 >= iStart {
          nFrag := nFrag + (iStart - iPtrEnd);
          iStart := iPtr;
          j1 := j - 1;
        }
      }
      MakeJoined(fl, cells[k], j, j1, j2, iStart, iEnd, nFrag);
    }

    // The place in the list of freeblocks for space that begins at iStart.
    method FindPlace(ghost d: Bytes, iStart: nat, ghost k: nat) returns (iPtr: nat, iFreeBlk: nat, ghost j: nat)
      requires aData.Length == L.pageSize && d == aData[..] && Space(L, d, cells, fl) && k < |cells|
        && cells[k].off == iStart
      ensures j <= |fl| && iPtr == LinkAddr(L, fl, j) && iFreeBlk == OffAt(fl, j)
      ensures forall i :: 0 <= i < j ==> fl[i].End() <= iStart
      ensures forall i :: j <= i < |fl| ==> cells[k].End() <= fl[i].off
      ensures j > 0 <==> iPtr > L.hdr + 1
    {
      hide Space, Get2;
      j, iPtr := 0, L.hdr + 1;
      LinkFacts(L, d, cells, fl, 0);
      iFreeBlk := Get2At(aData, iPtr);
      while iFreeBlk > 0 && iFreeBlk < iStart
        invariant j <= |fl| && iPtr == LinkAddr(L, fl, j) && iFreeBlk == OffAt(fl, j)
        invariant j > 0 ==> fl[j - 1].off < iStart
        decreases |fl| - j
      {
        iPtr, j := iFreeBlk, j + 1;
        LinkFacts(L, d, cells, fl, j);
        iFreeBlk := Get2At(aData, iPtr);
      }
      LinkFacts(L, d, cells, fl, j);
      PlaceFound(L, d, cells, fl, k, j);
    }

    method WriteFree(ghost d: Bytes, ghost k: nat, ghost j: nat, ghost j1: nat, ghost j2: nat, iStart: nat, iEnd: nat,
                     iPtr: nat, iFreeBlk: nat, nFrag: nat)
      requires aData.Length == L.pageSize && d == aData[..] && Space(L, d, cells, fl) && k < |cells|
      requires iStart <= iEnd && Joined(fl, cells[k], j, j1, j2, Region(iStart, iEnd - iStart))
      requires iPtr == LinkAddr(L, fl, j) && iFreeBlk == OffAt(fl, j2) && nFrag == NFrag(fl, cells[k], j, j1, j2)
      modifies aData, this`fl
      ensures Space(L, aData[..], RemoveAt(cells, k), fl) && Keeps(L, d, aData[..], RemoveAt(cells, k))
      ensures Top(L, d) <= Top(L, aData[..])
    {
      hide Space, Put2, Keeps, Top, RemoveAt, Splice, NFrag, Get2, Joined;
      ghost var b := Region(iStart, iEnd - iStart);
      FreeFacts(L, d, cells, fl, k);
      StartFacts(L, d, cells, fl, k, j, j1, j2, b);
      var top := Get2At(aData, L.hdr + 5);
      if iStart == top {
        FreeTop(L, d, cells, fl, k, j2, b);
        aData[L.hdr + 7] := aData[L.hdr + 7] - nFrag as u8;
        Put2At(aData, L.hdr + 1, iFreeBlk);
        Put2At(aData, L.hdr + 5, iEnd);
        assert aData[..] == FreedTop(L, d, d[L.hdr + 7] - nFrag as u8, iFreeBlk, iEnd);
        fl := fl[j2..];
      } else {
        Free(L, d, cells, fl, k, j, j1, j2, b);
        aData[L.hdr + 7] := aData[L.hdr + 7] - nFrag as u8;
        Put2At(aData, iPtr, iStart);
        Put2At(aData, iStart, iFreeBlk);
        Put2At(aData, iStart + 2, iEnd - iStart);
        assert aData[..] == FreedBytes(L, d, d[L.hdr + 7] - nFrag as u8, iPtr, b, iFreeBlk);
        fl := Splice(fl, j1, j2, b);
      }
    }

    /**
    Insert a cell as cell i. It goes onto the page exactly when there is room for it and its pointer and no cell has
    been turned away before; otherwise it is kept beside the page.
    */
    method InsertCell(i: nat, newCell: Bytes)
      requires Valid() && i <= |cells| + |apOvfl| && (apOvfl == [] ==> i <= |cells|)
      requires |newCell| >= 4 && L.cellSizePtr(newCell) == |newCell|
      modifies aData, this`cells, this`fl, this`nCell, this`nFree, this`apOvfl, this`aiOvfl
      ensures Valid() && Outside(L, old(aData[..]), aData[..])
      ensures if old(apOvfl) != [] || |newCell| + 2 > old(nFree)
              then apOvfl == old(apOvfl) + [newCell] && aiOvfl == old(aiOvfl) + [i] && aData[..] == old(aData[..])
                && cells == old(cells)
              else
                && apOvfl == old(apOvfl)
                && Contents(aData[..], cells) == InsertAt(old(Contents(aData[..], cells)), i, newCell)
                && Inserted(old(Contents(aData[..], cells)), Contents(aData[..], cells), i, newCell)
    {
      hide Space, Pointers, Total, Contents, CellWritten, Layout.Valid, Top, InsertAt, Outside, Inserted;
      OutsideSelf(L, aData[..], cells, fl);
      var sz := |newCell|;
      if apOvfl != [] || sz + 2 > nFree {
        apOvfl, aiOvfl := apOvfl + [newCell], aiOvfl + [i];
        return;
      }
      var idx := AllocateSpace(sz);
      ghost var d, r, cells0 := aData[..], Region(idx, sz), cells;
      AllocatedRoom(L, d, cells, fl, r);
      WriteCell(i, idx, newCell, nCell);
      OutsideTrans(L, old(aData[..]), d, aData[..]);
      Listed(L, d, aData[..], cells, fl, i, r, newCell);
      nCell := nCell + 1;
      nFree := nFree - (2 + sz);
      cells := InsertAt(cells, i, r);
      TotalInsert(cells0, i, r);
      InsertedLength(cells0, i, r);
      ContentsLength(d, cells0);
      InsertAtInserts(Contents(d, cells0), i, newCell);
    }

    // Write a cell, its pointer, and the number of cells.
    method WriteCell(i: nat, idx: nat, newCell: Bytes, n: nat)
      requires L.Valid() && aData.Length == L.pageSize && i <= n && L.cellSizePtr(newCell) == |newCell|
      requires idx + |newCell| <= L.usableSize
      requires Get2(aData[..], L.hdr + 3) == n && n + 1 < 65536
      requires L.CellOffset() + 2 * n + 2 <= Top(L, aData[..]) <= idx && idx + |newCell| <= aData.Length <= 65536
        && |newCell| >= 4
      modifies aData
      ensures CellWritten(L, old(aData[..]), aData[..], n, i, Region(idx, |newCell|), newCell)
      ensures Outside(L, old(aData[..]), aData[..])
    {
      hide Layout.Valid, Get2;
      ghost var d := aData[..];
      for k := 0 to |newCell|
        invariant forall m :: idx <= m < idx + k ==> aData[m] == newCell[m - idx]
        invariant forall m :: 0 <= m < aData.Length && !(idx <= m < idx + k) ==> aData[m] == d[m]
      {
        aData[idx + k] := newCell[k];
      }
      ghost var d1 := aData[..];
      LowBytes(L, d, d1, n);
      InsertPointer(i, idx, n);
      ghost var d2 := aData[..];
      assert Slice(d2, idx, |newCell|) == newCell;
      forall m | 0 <= m < i
        ensures PointerFrom(L, d, m, d2, m)
      {
        SamePointer(L, d, d1, n, m);
        assert PointerFrom(L, d1, m, d2, m);
      }
      forall m | i <= m < n
        ensures PointerUp(L, d, m, d2)
      {
        SamePointer(L, d, d1, n, m);
        assert PointerUp(L, d1, m, d2);
      }
    }

    // Make room in the pointer array and write pointer i.
    method InsertPointer(i: nat, idx: nat, n: nat)
      requires aData.Length == L.pageSize && i <= n && L.CellOffset() + 2 * n + 2 <= aData.Length
      requires Get2(aData[..], L.hdr + 3) == n && n + 1 < 65536 && idx < 65536
      modifies aData
      ensures forall k :: L.CellOffset() + 2 * n + 2 <= k < aData.Length ==> aData[k] == old(aData[k])
      ensures forall k :: 0 <= k < L.hdr + 3 || L.hdr + 5 <= k < L.CellOffset() ==> aData[k] == old(aData[k])
      ensures Get2(aData[..], L.hdr + 3) == n + 1 && Get2(aData[..], L.CellOffset() + 2 * i) == idx
      ensures forall m :: 0 <= m < i ==> PointerFrom(L, old(aData[..]), m, aData[..], m)
      ensures forall m :: i <= m < n ==> PointerUp(L, old(aData[..]), m, aData[..])
    {
      hide Put2;
      ghost var d := aData[..];
      var ins, end := L.CellOffset() + 2 * i, L.CellOffset() + 2 * n;
      var k := end;
      while k > ins
        invariant ins <= k <= end
        invariant forall m :: k + 2 <= m < end + 2 ==> aData[m] == d[m - 2]
        invariant forall m :: 0 <= m < aData.Length && !(k + 2 <= m < end + 2) ==> aData[m] == d[m]
      {
        k := k - 1;
        aData[k + 2] := aData[k];
      }
      ghost var d2 := aData[..];
      Put2At(aData, ins, idx);
      ghost var d3 := aData[..];
      Put2At(aData, L.hdr + 3, n + 1);
      ghost var d4 := aData[..];
      forall m | 0 <= m < i
        ensures PointerFrom(L, d, m, d4, m)
      {}
      forall m | i <= m < n
        ensures PointerUp(L, d, m, d4)
      {}
    }

    /** Remove cell idx from the page. */
    method DropCell(idx: nat, sz: nat)
      requires Valid() && idx < |cells| && sz == cells[idx].size
      modifies aData, this`cells, this`fl, this`nCell, this`nFree
      ensures Valid() && Contents(aData[..], cells) == RemoveAt(old(Contents(aData[..], cells)), idx)
      ensures Removed(old(Contents(aData[..], cells)), Contents(aData[..], cells), idx)
      ensures Outside(L, old(aData[..]), aData[..])
    {
      hide Space, Pointers, Total, Contents, PointerRemoved, Layout.Valid, Top, Keeps, RemoveAt, Outside, Removed;
      ghost var d, cells0, fl0 := aData[..], cells, fl;
      DropFacts(L, d, cells, fl, idx);
      var pc := Get2At(aData, L.CellOffset() + 2 * idx);
      FreeSpace(pc, sz, idx);
      ghost var d1 := aData[..];
      FreedPointers(L, d, d1, cells, fl, idx);
      RemovePointer(idx, nCell);
      OutsideTrans(L, d, d1, aData[..]);
      Dropped(L, d, d1, aData[..], cells0, fl0, fl, idx);
      TotalRemove(cells0, idx);
      RemovedLength(cells0, idx);
      ContentsLength(d, cells0);
      RemoveAtRemoves(Contents(d, cells0), idx);
      nCell := nCell - 1;
      cells := RemoveAt(cells0, idx);
      if nCell == 0 {
        NoContents(aData[..], cells);
        ghost var d2 := aData[..];
        ResetEmpty();
        OutsideTrans(L, d, d2, aData[..]);
        NoContents(aData[..], cells);
      } else {
        nFree := nFree + 2;
      }
    }

    // The array closes up, and the page has one cell less.
    method RemovePointer(idx: nat, n: nat)
      requires L.Valid() && aData.Length == L.pageSize && idx < n && Get2(aData[..], L.hdr + 3) == n
      requires L.CellOffset() + 2 * n <= L.usableSize <= aData.Length
      modifies aData
      ensures PointerRemoved(L, old(aData[..]), aData[..], n, idx) && Outside(L, old(aData[..]), aData[..])
    {
      hide Put2, Layout.Valid;
      ghost var d := aData[..];
      var ptr := L.CellOffset() + 2 * idx;
      for k := 0 to 2 * (n - 1 - idx)
        invariant forall m :: ptr <= m < ptr + k ==> aData[m] == d[m + 2]
        invariant forall m :: 0 <= m < aData.Length && !(ptr <= m < ptr + k) ==> aData[m] == d[m]
      {
        aData[ptr + k] := aData[ptr + k + 2];
      }
      ghost var d1 := aData[..];
      Put2At(aData, L.hdr + 3, n - 1);
      ghost var d2 := aData[..];
      forall m | 0 <= m < idx
        ensures PointerFrom(L, d, m, d2, m)
      {}
      forall m | idx <= m < n - 1
        ensures PointerDown(L, d, d2, m)
      {}
    }

    // A page without cells is all gap.
    method ResetEmpty()
      requires aData.Length == L.pageSize && L.Valid() && cells == []
      modifies aData, this`nFree, this`fl
      ensures Space(L, aData[..], cells, fl) && Pointers(L, aData[..], cells) && fl == []
        && Top(L, aData[..]) == L.usableSize
      ensures nFree == L.usableSize - L.CellOffset() && Outside(L, old(aData[..]), aData[..])
    {
      hide Put2;
      aData[L.hdr + 1] := 0;
      aData[L.hdr + 2] := 0;
      aData[L.hdr + 3] := 0;
      aData[L.hdr + 4] := 0;
      aData[L.hdr + 7] := 0;
      ghost var d := aData[..];
      Put2At(aData, L.hdr + 5, L.usableSize);
      TopPut(L, d, L.usableSize);
      nFree := L.usableSize - L.CellOffset();
      fl := [];
      hide Top;
      PackedSpace(L, aData[..], []);
    }

    /** What btreeInitPage computes as the free space is what has been kept up to date. */
    method InitPage() returns (free: int)
      requires Valid()
      ensures free == nFree
    {
      hide Space, Pointers, Total, Layout.Valid, Top, Get2;
      ghost var d := aData[..];
      ValidFacts(L, d, cells, fl);
      FreeAccount(L, d, cells, fl, nFree);
      LinkFacts(L, d, cells, fl, 0);
      var top := ContentStart();
      var iCellFirst := L.CellOffset() + 2 * nCell;
      ghost var j := 0;
      var pc := Get2At(aData, L.hdr + 1);
      free := aData[L.hdr + 7] as int + top;
      while pc > 0
        invariant j <= |fl| && pc == OffAt(fl, j)
        invariant free == d[L.hdr + 7] as int + top + Total(fl[..j])
        decreases |fl| - j
      {
        LinkFacts(L, d, cells, fl, j);
        LinkFacts(L, d, cells, fl, j + 1);
        TotalPrefix(fl, j, j);
        var next := Get2At(aData, pc);
        var size := Get2At(aData, pc + 2);
        free := free + size;
        pc, j := next, j + 1;
      }
      NoMoreBlocks(L, d, cells, fl, j);
      free := free - iCellFirst;
    }

    // The header and the gap after all cells have been moved.
    method FinishDefrag(iCellFirst: nat, cbrk: nat)
      requires L.hdr + 8 <= iCellFirst <= cbrk <= aData.Length <= 65536
      modifies aData
      ensures GapCleared(L, old(aData[..]), aData[..], iCellFirst, cbrk)
      ensures Get2(aData[..], L.hdr + 1) == 0 && aData[L.hdr + 7] == 0
      ensures cbrk > 0 && Top(L, aData[..]) == cbrk
    {
      hide Put2;
      ghost var d1 := aData[..];
      Put2At(aData, L.hdr + 5, cbrk);
      ghost var d2 := aData[..];
      TopPut(L, d1, cbrk);
      aData[L.hdr + 1] := 0;
      aData[L.hdr + 2] := 0;
      aData[L.hdr + 7] := 0;
      for k := iCellFirst to cbrk
        invariant forall m ::
            (0 <= m < aData.Length && !(iCellFirst <= m < k) && m != L.hdr + 1 && m != L.hdr + 2 && m != L.hdr + 7) ==>
            aData[m] == d2[m]
        invariant aData[L.hdr + 1] == 0 && aData[L.hdr + 2] == 0 && aData[L.hdr + 7] == 0
      {
        aData[k] := 0;
      }
      TopSame(L, d2, aData[..]);
    }
  }

  lemma AllocatedFacts(L: Layout, d: Bytes, d': Bytes, cells: seq<Region>, fl: seq<Region>, r: Region)
    requires Pointers(L, d, cells) && Keeps(L, d, d', cells) && L.CellOffset() + 2 * |cells| + 2 <= Top(L, d')
    ensures Pointers(L, d', cells) && d'[L.hdr] == d[L.hdr]
    ensures forall i :: 0 <= i < |cells| ==> cells[i].End() <= |d| && cells[i].End() <= |d'|
    ensures Contents(d', cells) == Contents(d, cells)
  {
    KeepsPointers(L, d, d', cells, cells);
  }

  lemma FreeFacts(L: Layout, d: Bytes, cells: seq<Region>, fl: seq<Region>, k: nat)
    requires Space(L, d, cells, fl) && k < |cells|
    ensures L.Valid() && L.hdr + 8 <= Top(L, d) <= cells[k].off && cells[k].End() <= L.usableSize <= |d|
      && cells[k].size >= 4
    ensures Top(L, d) == Get2(d, L.hdr + 5) && forall i :: 0 <= i < |fl| ==> fl[i].size >= 4 && fl[i].off > Top(L, d)
    ensures L.hdr + 8 <= |d|
  {
    SpaceFacts(L, d, cells, fl);
  }

  lemma EmptyList(L: Layout, d: Bytes, fl: seq<Region>)
    requires L.hdr + 8 <= |d| && Get2(d, L.hdr + 1) == OffAt(fl, 0) && d[L.hdr + 1] == 0 && d[L.hdr + 2] == 0
    requires forall i :: 0 <= i < |fl| ==> fl[i].off > 0
    ensures fl == []
  {}

  lemma JoinNone(fl: seq<Region>, r: Region)
    requires fl == []
    ensures Joined(fl, r, 0, 0, 0, r) && NFrag(fl, r, 0, 0, 0) == 0
  {}

  lemma MakeJoined(fl: seq<Region>, r: Region, j: nat, j1: nat, j2: nat, start: nat, end: nat, nFrag: int)
    requires j <= |fl| && (forall i :: 0 <= i < j ==> fl[i].End() <= r.off)
      && (forall i :: j <= i < |fl| ==> r.End() <= fl[i].off)
    requires if j > 0 && r.off <= fl[j - 1].End() + 3 then j1 == j - 1 && start == fl[j - 1].off
      else j1 == j && start == r.off
    requires if j < |fl| && fl[j].off <= r.End() + 3 then j2 == j + 1 && end == fl[j].End()
      else j2 == j && end == r.End()
    requires nFrag == (if j1 < j then r.off - fl[j - 1].End() else 0) + (if j2 > j then fl[j].off - r.End() else 0)
    ensures start <= end && Joined(fl, r, j, j1, j2, Region(start, end - start)) && NFrag(fl, r, j, j1, j2) == nFrag
  {}

  lemma PlaceFound(L: Layout, d: Bytes, cells: seq<Region>, fl: seq<Region>, k: nat, j: nat)
    requires Space(L, d, cells, fl) && k < |cells| && j <= |fl|
    requires j > 0 ==> fl[j - 1].off < cells[k].off
    requires j < |fl| ==> fl[j].off >= cells[k].off
    ensures forall i :: 0 <= i < j ==> fl[i].End() <= cells[k].off
    ensures forall i :: j <= i < |fl| ==> cells[k].End() <= fl[i].off
    ensures j > 0 <==> LinkAddr(L, fl, j) > L.hdr + 1
  {
    SpaceFacts(L, d, cells, fl);
    PartitionUsed(Top(L, d), L.usableSize, cells, fl, d[L.hdr + 7] as nat, k);
    forall i | 0 <= i < |fl|
      ensures i < j ==> fl[i].End() <= cells[k].off
      ensures i >= j ==> cells[k].End() <= fl[i].off
    {
      assert Apart(cells[k], fl[i]);
      if i < j - 1 {
        assert fl[i].End() + 4 <= fl[j - 1].off;
      } else if i > j {
        assert fl[j].End() + 4 <= fl[i].off;
      }
    }
  }

  // The freed space begins at the content area exactly when the cell does and no freeblock before it was joined.
  lemma StartFacts(L: Layout, d: Bytes, cells: seq<Region>, fl: seq<Region>, k: nat, j: nat, j1: nat, j2: nat,
                   b: Region)
    requires Space(L, d, cells, fl) && k < |cells| && Joined(fl, cells[k], j, j1, j2, b)
    ensures j1 <= j <= j2 <= |fl|
    ensures if b.off == Top(L, d) then j == 0 && j1 == 0 && cells[k].off == Top(L, d) else Top(L, d) < b.off
  {
    SpaceFacts(L, d, cells, fl);
    PartitionUsed(Top(L, d), L.usableSize, cells, fl, d[L.hdr + 7] as nat, k);
  }

  lemma AllocatedRoom(L: Layout, d: Bytes, cells: seq<Region>, fl: seq<Region>, r: Region)
    requires Space(L, d, cells + [r], fl) && Pointers(L, d, cells)
    ensures L.Valid() && L.hdr + 8 <= L.CellOffset() && L.hdr + 8 <= |d| == L.pageSize <= 65536
    ensures Top(L, d) <= r.off && r.End() <= L.usableSize <= |d| && Get2(d, L.hdr + 3) == |cells|
    ensures L.CellOffset() + 2 * |cells| + 2 <= Top(L, d) ==> |cells| + 1 < 65536
  {
    SpaceFacts(L, d, cells + [r], fl);
    assert Top(L, d) <= (cells + [r])[|cells|].off && (cells + [r])[|cells|].End() <= L.usableSize;
  }

  // Bytes below the content area have not changed: the count and the pointers are the same.
  lemma LowBytes(L: Layout, d: Bytes, d1: Bytes, n: nat)
    requires |d1| == |d| && L.CellOffset() + 2 * n + 2 <= |d| && forall k :: 0 <= k < L.CellOffset() + 2 * n + 2 ==>
      d1[k] == d[k]
    ensures Get2(d1, L.hdr + 3) == Get2(d, L.hdr + 3)
  {}

  lemma SamePointer(L: Layout, d: Bytes, d1: Bytes, n: nat, m: nat)
    requires |d1| == |d| && L.CellOffset() + 2 * n + 2 <= |d| && forall k :: 0 <= k < L.CellOffset() + 2 * n + 2 ==>
      d1[k] == d[k]
    requires m < n
    ensures Get2(d1, L.CellOffset() + 2 * m) == Get2(d, L.CellOffset() + 2 * m)
  {}

  lemma NoContents(d: Bytes, cells: seq<Region>)
    requires cells == []
    ensures Contents(d, cells) == [] && Total(cells) == 0
  {}

  lemma InsertedLength<T>(s: seq<T>, i: nat, x: T)
    requires i <= |s|
    ensures |InsertAt(s, i, x)| == |s| + 1
  {}

  lemma DropFacts(L: Layout, d: Bytes, cells: seq<Region>, fl: seq<Region>, i: nat)
    requires Space(L, d, cells, fl) && Pointers(L, d, cells) && i < |cells|
    ensures L.Valid() && L.CellOffset() + 2 * i + 2 <= |d| && Get2(d, L.CellOffset() + 2 * i) == cells[i].off
    // The checks of dropCell never fail.
    ensures cells[i].off >= Top(L, d) && cells[i].End() <= L.usableSize
  {
    assert CellOk(L, d, cells, i);
    SpaceFacts(L, d, cells, fl);
  }

  lemma FreedPointers(L: Layout, d: Bytes, d1: Bytes, cells: seq<Region>, fl: seq<Region>, i: nat)
    requires Pointers(L, d, cells) && i < |cells| && Keeps(L, d, d1, RemoveAt(cells, i))
    ensures Get2(d1, L.hdr + 3) == |cells| && L.CellOffset() + 2 * |cells| <= L.usableSize <= |d1|
  {}

  lemma FreeAccount(L: Layout, d: Bytes, cells: seq<Region>, fl: seq<Region>, nFree: int)
    requires Space(L, d, cells, fl) && nFree == L.usableSize - L.CellOffset() - 2 * |cells| - Total(cells)
    ensures nFree == d[L.hdr + 7] as int + Top(L, d) + Total(fl) - L.CellOffset() - 2 * |cells|
    ensures Total(fl[..0]) == 0
  {}

  // The list ends behind the last freeblock, whose offset is not 0.
  lemma NoMoreBlocks(L: Layout, d: Bytes, cells: seq<Region>, fl: seq<Region>, j: nat)
    requires Space(L, d, cells, fl) && j <= |fl| && OffAt(fl, j) == 0
    ensures j == |fl| && fl[..j] == fl
  {
    LinkFacts(L, d, cells, fl, j);
  }

  lemma DefragOutside(L: Layout, d: Bytes, d1: Bytes, d2: Bytes, rs: seq<Region>, lo: nat, hi: nat)
    requires Moving(L, d, d1, rs, |rs|) && GapCleared(L, d1, d2, lo, hi)
    requires L.CellOffset() <= lo <= hi <= L.usableSize && L.CellOffset() <= |d|
    ensures Outside(L, d, d2)
  {
    hide Moved;
    forall k | 0 <= k <= L.hdr || L.hdr + 8 <= k < L.CellOffset() || L.usableSize <= k < |d|
      ensures d2[k] == d[k]
    {
      assert d1[k] == d[k];
    }
  }

  lemma OutsideTrans(L: Layout, d: Bytes, d1: Bytes, d2: Bytes)
    requires Outside(L, d, d1) && Outside(L, d1, d2)
    ensures Outside(L, d, d2)
  {}

  lemma MoveFacts(L: Layout, d: Bytes, d': Bytes, rs: seq<Region>, i: nat, end: nat)
    requires PageFits(L, d, rs) && i < |rs| && CellOk(L, d, rs, i) && Moving(L, d, d', rs, i) && BelowEnd(rs, i, end)
    ensures L.Valid() && |d| == |d'| == L.pageSize && L.hdr + 8 <= L.CellOffset()
    ensures L.CellOffset() + 2 * |rs| <= Top(L, d) <= rs[i].off && rs[i].End() <= end && rs[i].size >= 4
      && rs[i].End() <= |d|
    ensures Get2(d', L.CellOffset() + 2 * i) == Get2(d, L.CellOffset() + 2 * i) == rs[i].off
    ensures NewOff(L.usableSize, rs, i) + rs[i].size == L.usableSize - Total(rs[..i])
    ensures NewOff(L.usableSize, rs, i) == L.usableSize - Total(rs[..i + 1]) >= Top(L, d)
    ensures d'[L.hdr + 5] == d[L.hdr + 5] && d'[L.hdr + 6] == d[L.hdr + 6]
    // The checks of defragmentPage never fail.
    ensures rs[i].off >= L.CellOffset() + 2 * |rs| && rs[i].off <= L.usableSize - 4 && rs[i].End() <= L.usableSize
  {
    FitsFacts(L, d, rs, i);
  }

  lemma InPlace(L: Layout, d: Bytes, rs: seq<Region>, i: nat)
    requires i < |rs| && CellOk(L, d, rs, i) && NewOff(L.usableSize, rs, i) == rs[i].off
    ensures Moved(L, d, d, rs, i)
  {}

  lemma BelowRest(rs: seq<Region>, i: nat, end: nat)
    requires BelowEnd(rs, i, end)
    ensures BelowEnd(rs, i + 1, end)
  {}

  lemma CountFits(L: Layout, d: Bytes, rs: seq<Region>)
    requires PageFits(L, d, rs)
    ensures L.CellOffset() + 2 * |rs| <= L.usableSize - Total(rs)
  {}

  // What the link to freeblock j says, and where it is; the checks of pageFindSlot never fail.
  lemma LinkFacts(L: Layout, d: Bytes, used: seq<Region>, fl: seq<Region>, j: nat)
    requires Space(L, d, used, fl) && j <= |fl|
    ensures LinkAddr(L, fl, j) + 2 <= |d| && Get2(d, LinkAddr(L, fl, j)) == OffAt(fl, j) && L.hdr + 8 <= |d|
    ensures j < |fl| ==> fl[j].off > 0 && fl[j].off <= L.usableSize - 4 && fl[j].off >= LinkAddr(L, fl, j) + 4
    ensures j < |fl| ==>
      fl[j].End() <= L.usableSize && fl[j].size >= 4 && fl[j].off + 4 <= |d| && Get2(d, fl[j].off + 2) == fl[j].size
  {
    SpaceFacts(L, d, used, fl);
    assert LinkOk(L, d, fl, j);
    if 0 < j < |fl| {
      Separate(L, fl, j - 1, j);
    }
    if j < |fl| {
      assert SizeOk(d, fl, j);
    }
  }
}
