/**
Distributing the cells of sibling pages over pages (the two packing passes of balance_nonroot).

Cell i takes szCell[i] bytes of content and two bytes of cell pointer. The cells of the siblings
and, unless the siblings are leaves of a rowid tree (leafData), the divider cells between
them form one sequence. A layout cnt says that page j holds the cells before cell cnt[j]; in
a tree without leafData cell cnt[j] itself becomes the divider between pages j and j+1.
*/
module Packing {

  // The number of siblings that take part in a balancing operation.
  const NB: nat := 3

  type Sizes = seq<nat>

  /** Bytes taken by cells a to b-1 on a page. */
  function Sum(sz: Sizes, a: nat, b: nat): nat
    decreases b
  {
    if b <= a || |sz| < b then 0 else Sum(sz, a, b - 1) + sz[b - 1] + 2
  }

  // The first cell of page j.
  function First(leafData: bool, cnt: seq<nat>, j: nat): nat
    requires j <= |cnt|
  {
    if j == 0 then 0 else if leafData then cnt[j - 1] else cnt[j - 1] + 1
  }

  /** Layout cnt puts all n cells, in order, onto |cnt| pages. */
  ghost predicate IsLayout(n: nat, leafData: bool, cnt: seq<nat>) {
    && |cnt| >= 1 && cnt[|cnt| - 1] == n
    && (forall j {:trigger First(leafData, cnt, j)} :: 0 <= j < |cnt| ==> First(leafData, cnt, j) <= cnt[j])
    && (forall j :: 0 <= j < |cnt| ==> cnt[j] <= n)
  }

  function PageSize(sz: Sizes, leafData: bool, cnt: seq<nat>, j: nat): nat
    requires IsLayout(|sz|, leafData, cnt) && j < |cnt|
  {
    Sum(sz, First(leafData, cnt, j), cnt[j])
  }

  /** No page of the layout is asked to hold more than usable bytes. */
  ghost predicate Fits(sz: Sizes, leafData: bool, usable: nat, cnt: seq<nat>) {
    && IsLayout(|sz|, leafData, cnt)
    && forall j {:trigger First(leafData, cnt, j)} :: 0 <= j < |cnt| ==>
         Sum(sz, First(leafData, cnt, j), cnt[j]) <= usable
  }

  /** A layout that fits and leaves no page empty when there is more than one. */
  ghost predicate Legal(sz: Sizes, leafData: bool, usable: nat, cnt: seq<nat>) {
    && Fits(sz, leafData, usable, cnt)
    && (|cnt| > 1 ==>
         forall j {:trigger First(leafData, cnt, j)} :: 0 <= j < |cnt| ==> First(leafData, cnt, j) < cnt[j])
  }

  /**
  The cell sizes a well-formed tree has: any cell fits on a page, and, where cells also serve as dividers,
  three cells do.
  */
  ghost predicate Admissible(sz: Sizes, leafData: bool, usable: nat) {
    forall i :: 0 <= i < |sz| ==> (if leafData then sz[i] + 2 else 3 * (sz[i] + 2)) <= usable
  }

  // Pages 0 to k-1 have been closed because the next cell did not fit, and page k starts at cell i.
  ghost predicate Greedy(sz: Sizes, leafData: bool, usable: nat, cnt: seq<nat>) {
    (forall j :: 0 <= j < |cnt| ==> cnt[j] < |sz|) &&
    forall j {:trigger First(leafData, cnt, j)} :: 0 <= j < |cnt| ==>
      && First(leafData, cnt, j) < cnt[j]
      && Sum(sz, First(leafData, cnt, j), cnt[j]) <= usable
      && Sum(sz, First(leafData, cnt, j), cnt[j] + 1) > usable
  }

  /**
  The boundary between two pages rests at c: the right one is not empty, and one more cell from the left would make the
  left page, which begins at `first`, the smaller one. In bulk loading it is enough that the right one is not empty.
  */
  ghost predicate Rests(sz: Sizes, leafData: bool, bBulk: bool, first: nat, c: nat, end: nat) {
    && Sum(sz, if leafData then c else c + 1, end) > 0
    && (bBulk || (c > 0 && Sum(sz, if leafData then c - 1 else c, end) > Sum(sz, first, c - 1)))
  }

  // At none of the places above c, up to c0, does the boundary rest.
  ghost predicate Moves(sz: Sizes, leafData: bool, bBulk: bool, first: nat, c: nat, c0: nat, end: nat) {
    forall b :: c < b <= c0 ==> !Rests(sz, leafData, bBulk, first, b, end)
  }

  // The boundary after page j - 1 has gone down from where that page was full to the first place where it rests.
  ghost predicate EvenAt(sz: Sizes, leafData: bool, bBulk: bool, full: seq<nat>, cnt: seq<nat>, j: nat) {
    && 0 < j < |cnt| == |full| + 1 && cnt[j - 1] <= full[j - 1]
    && Rests(sz, leafData, bBulk, First(leafData, full, j - 1), cnt[j - 1], cnt[j])
    && Moves(sz, leafData, bBulk, First(leafData, full, j - 1), cnt[j - 1], full[j - 1], cnt[j])
  }

  /**
  The layout is the evened out form of the one that fills all pages from the left: boundary by boundary from the right,
  each compared with the page on its left as that was filled.
  */
  ghost predicate Evened(sz: Sizes, leafData: bool, usable: nat, bBulk: bool, cnt: seq<nat>) {
    exists full :: Greedy(sz, leafData, usable, full) && EvenedFrom(sz, leafData, bBulk, full, cnt, 0)
  }

  ghost predicate EvenedFrom(sz: Sizes, leafData: bool, bBulk: bool, full: seq<nat>, cnt: seq<nat>, i: nat) {
    |cnt| == |full| + 1 && forall j :: i < j < |cnt| ==> EvenAt(sz, leafData, bBulk, full, cnt, j)
  }

  /** Between the two leftmost pages, one more cell to the right would make the left page the smaller one. */
  lemma FirstTwoEven(sz: Sizes, leafData: bool, usable: nat, cnt: seq<nat>)
    requires Legal(sz, leafData, usable, cnt) && Evened(sz, leafData, usable, false, cnt) && |cnt| > 1
    ensures cnt[0] > 0 && Sum(sz, if leafData then cnt[0] - 1 else cnt[0], cnt[1]) > Sum(sz, 0, cnt[0] - 1)
  {
    hide Sum;
    var full :| Greedy(sz, leafData, usable, full) && EvenedFrom(sz, leafData, false, full, cnt, 0);
    assert EvenAt(sz, leafData, false, full, cnt, 1);
  }

  /**
  Between later ones it may leave the left page no smaller, as that has since taken cells itself: five cells on three
  pages.
  */
  lemma LaterNotEven()
    ensures var sz, cnt := [7, 0, 3, 0, 3], [1, 4, 5];
      && Legal(sz, true, 11, cnt) && Evened(sz, true, 11, false, cnt)
      && Sum(sz, cnt[1] - 1, cnt[2]) <= Sum(sz, cnt[0], cnt[1] - 1)
  {
    var sz, full, cnt := [7, 0, 3, 0, 3], [2, 4], [1, 4, 5];
    assert Sum(sz, 0, 1) == 9 && Sum(sz, 0, 2) == 11 && Sum(sz, 0, 3) == 16;
    assert Sum(sz, 2, 3) == 5 && Sum(sz, 2, 4) == 7 && Sum(sz, 2, 5) == 12;
    assert Sum(sz, 1, 2) == 2 && Sum(sz, 1, 3) == 7 && Sum(sz, 1, 4) == 9;
    assert Sum(sz, 3, 4) == 2 && Sum(sz, 3, 5) == 7 && Sum(sz, 4, 5) == 5;
    assert First(true, cnt, 0) == 0 && First(true, cnt, 1) == 1 && First(true, cnt, 2) == 4;
    assert First(true, full, 0) == 0 && First(true, full, 1) == 2;
    assert Greedy(sz, true, 11, full);
    assert EvenAt(sz, true, false, full, cnt, 1) && EvenAt(sz, true, false, full, cnt, 2);
    assert EvenedFrom(sz, true, false, full, cnt, 0);
  }

  lemma {:induction false} SumMonotone(sz: Sizes, a: nat, a': nat, b: nat, b': nat)
    requires a <= a' && b' <= b <= |sz|
    ensures Sum(sz, a', b') <= Sum(sz, a, b)
    decreases b
  {
    if b > 0 {
      if b' < b {
        SumMonotone(sz, a, a', b - 1, b');
      } else {
        SumMonotone(sz, a, a', b - 1, b - 1);
      }
    }
  }

  lemma {:induction false} SumFront(sz: Sizes, a: nat, b: nat)
    requires a < b <= |sz|
    ensures Sum(sz, a, b) == sz[a] + 2 + Sum(sz, a + 1, b)
    decreases b
  {
    if a + 1 < b {
      SumFront(sz, a, b - 1);
    }
  }

  /**
  Filling each page as far as possible is optimal: no layout that fits puts more cells
  onto its first pages, so each page of it ends no later than the greedily filled one.
  */
  lemma {:induction false} GreedyIsAhead(sz: Sizes, leafData: bool, usable: nat, cnt: seq<nat>, other: seq<nat>, j: nat)
    requires Greedy(sz, leafData, usable, cnt) && Fits(sz, leafData, usable, other)
    requires j < |cnt| && j < |other|
    ensures other[j] <= cnt[j]
  {
    if j > 0 {
      GreedyIsAhead(sz, leafData, usable, cnt, other, j - 1);
    }
    if other[j] > cnt[j] {
      SumMonotone(sz, First(leafData, other, j), First(leafData, cnt, j), other[j], cnt[j] + 1);
    }
  }

  lemma GreedyNeedsPages(sz: Sizes, leafData: bool, usable: nat, cnt: seq<nat>, other: seq<nat>)
    requires Greedy(sz, leafData, usable, cnt) && Fits(sz, leafData, usable, other)
    ensures |other| > |cnt|
  {
    var last := |other| - 1;
    assert First(leafData, other, last) <= other[last] == |sz|;
    if |other| <= |cnt| {
      assert First(leafData, cnt, last) < cnt[last] < |sz|;
      GreedyIsAhead(sz, leafData, usable, cnt, other, |other| - 1);
    }
  }

  /**
  Both packing passes. The result is a legal layout on at most NB+2 pages together with the true
  size of each page; it fails only when the cells do not fit on NB+2 pages in any way.
  */
  method Pack(szCell: Sizes, leafData: bool, usableSpace: nat, bBulk: bool)
    returns (ok: bool, k: nat, cntNew: array<nat>, szNew: array<nat>)
    requires Admissible(szCell, leafData, usableSpace)
    ensures fresh(cntNew) && fresh(szNew) && cntNew.Length == szNew.Length == NB + 2
    ensures ok <==> exists cnt :: |cnt| <= NB + 2 && Fits(szCell, leafData, usableSpace, cnt)
    ensures ok ==> 1 <= k <= NB + 2 && Legal(szCell, leafData, usableSpace, cntNew[..k])
    ensures ok ==> forall j :: 0 <= j < k ==> szNew[j] == PageSize(szCell, leafData, cntNew[..k], j)
    ensures ok ==> forall cnt :: Fits(szCell, leafData, usableSpace, cnt) ==> k <= |cnt|
    ensures ok ==> Evened(szCell, leafData, usableSpace, bBulk, cntNew[..k])
  {
    cntNew, szNew := new nat[NB + 2], new nat[NB + 2];
    ok, k := FillPages(szCell, leafData, usableSpace, cntNew, szNew);
    if ok {
      EvenOut(szCell, leafData, usableSpace, bBulk, k, cntNew, szNew);
    }
  }

  // The first pass: fill the pages from the left, each as far as possible.
  method FillPages(szCell: Sizes, leafData: bool, usableSpace: nat, cntNew: array<nat>, szNew: array<nat>)
    returns (ok: bool, k: nat)
    requires Admissible(szCell, leafData, usableSpace)
    requires cntNew.Length == szNew.Length == NB + 2 && cntNew != szNew
    modifies cntNew, szNew
    ensures ok ==> 1 <= k <= NB + 2 && Fits(szCell, leafData, usableSpace, cntNew[..k])
    ensures ok ==> Greedy(szCell, leafData, usableSpace, cntNew[..k - 1])
    ensures ok ==> forall j :: 0 <= j < k ==> szNew[j] == PageSize(szCell, leafData, cntNew[..k], j)
    ensures !ok ==> forall cnt :: Fits(szCell, leafData, usableSpace, cnt) ==> |cnt| > NB + 2
    ensures ok ==> forall cnt :: Fits(szCell, leafData, usableSpace, cnt) ==> k <= |cnt|
  {
    hide Greedy, Fits, Admissible;
    var subtotal, i := 0, 0;
    k := 0;
    ghost var cnt: seq<nat>, szs: seq<nat> := [], [];
    NothingClosed(szCell, leafData, usableSpace);
    while i < |szCell|
      invariant k <= NB + 1 && |cnt| == |szs| == k && cntNew[..k] == cnt && szNew[..k] == szs
      invariant Greedy(szCell, leafData, usableSpace, cnt) && SizesOf(szCell, leafData, cnt, szs)
      invariant First(leafData, cnt, k) <= i <= |szCell|
      invariant subtotal == Sum(szCell, First(leafData, cnt, k), i) <= usableSpace
      decreases NB + 2 - k, |szCell| - i
    {
      subtotal := subtotal + szCell[i] + 2;
      if subtotal > usableSpace {
        szNew[k] := subtotal - szCell[i] - 2;
        cntNew[k] := i;
        CloseKeepsGreedy(szCell, leafData, usableSpace, cnt, i);
        CloseKeepsSizes(szCell, leafData, cnt, szs, i);
        cnt, szs := cnt + [i], szs + [subtotal - szCell[i] - 2];
        subtotal := 0;
        k := k + 1;
        if k > NB + 1 {
          forall other | Fits(szCell, leafData, usableSpace, other)
            ensures |other| > NB + 2
          {
            GreedyNeedsPages(szCell, leafData, usableSpace, cnt, other);
          }
          return false, k;
        }
        if !leafData {
          i := i + 1;
        }
      } else {
        i := i + 1;
      }
    }
    szNew[k] := subtotal;
    cntNew[k] := |szCell|;
    LastPage(szCell, leafData, usableSpace, cnt, szs);
    k := k + 1;
    assert cntNew[..k] == cnt + [|szCell|] && szNew[..k] == szs + [subtotal] && cntNew[..k - 1] == cnt;
    ok := true;
    forall other | Fits(szCell, leafData, usableSpace, other)
      ensures k <= |other|
    {
      GreedyNeedsPages(szCell, leafData, usableSpace, cnt, other);
    }
  }

  lemma NothingClosed(sz: Sizes, leafData: bool, usable: nat)
    ensures Greedy(sz, leafData, usable, [])
  {}

  // The recorded sizes szs are the true sizes of the closed pages cnt.
  ghost predicate SizesOf(sz: Sizes, leafData: bool, cnt: seq<nat>, szs: seq<nat>) {
    && |szs| == |cnt|
    && forall j {:trigger First(leafData, cnt, j)} :: 0 <= j < |cnt| ==>
         szs[j] == Sum(sz, First(leafData, cnt, j), cnt[j])
  }

  lemma CloseKeepsGreedy(sz: Sizes, leafData: bool, usable: nat, cnt: seq<nat>, i: nat)
    requires Greedy(sz, leafData, usable, cnt)
    requires Admissible(sz, leafData, usable) && First(leafData, cnt, |cnt|) <= i < |sz|
    requires Sum(sz, First(leafData, cnt, |cnt|), i) <= usable < Sum(sz, First(leafData, cnt, |cnt|), i + 1)
    ensures Greedy(sz, leafData, usable, cnt + [i])
  {
    FirstOfPrefix(leafData, cnt, [i]);
    assert First(leafData, cnt, |cnt|) < i;
  }

  lemma CloseKeepsSizes(sz: Sizes, leafData: bool, cnt: seq<nat>, szs: seq<nat>, i: nat)
    requires SizesOf(sz, leafData, cnt, szs) && i <= |sz|
    ensures SizesOf(sz, leafData, cnt + [i], szs + [Sum(sz, First(leafData, cnt, |cnt|), i)])
  {
    var cnt', szs' := cnt + [i], szs + [Sum(sz, First(leafData, cnt, |cnt|), i)];
    FirstOfPrefix(leafData, cnt, [i]);
    forall j {:trigger First(leafData, cnt', j)} | 0 <= j < |cnt'|
      ensures szs'[j] == Sum(sz, First(leafData, cnt', j), cnt'[j])
    {
      assert First(leafData, cnt', j) == First(leafData, cnt, j);
    }
  }

  lemma FirstOfPrefix(leafData: bool, cnt: seq<nat>, rest: seq<nat>)
    ensures forall j {:trigger First(leafData, cnt + rest, j)} :: 0 <= j <= |cnt| ==>
      First(leafData, cnt + rest, j) == First(leafData, cnt, j)
  {}

  // Closing the last page turns the greedy prefix into a layout that fits.
  lemma LastPage(sz: Sizes, leafData: bool, usable: nat, cnt: seq<nat>, szs: seq<nat>)
    requires Greedy(sz, leafData, usable, cnt) && SizesOf(sz, leafData, cnt, szs)
    requires First(leafData, cnt, |cnt|) <= |sz|
    requires Sum(sz, First(leafData, cnt, |cnt|), |sz|) <= usable
    ensures Fits(sz, leafData, usable, cnt + [|sz|])
    ensures forall j :: 0 <= j < |cnt| ==> PageSize(sz, leafData, cnt + [|sz|], j) == szs[j]
    ensures PageSize(sz, leafData, cnt + [|sz|], |cnt|) == Sum(sz, First(leafData, cnt, |cnt|), |sz|)
  {
    var cnt' := cnt + [|sz|];
    FirstOfPrefix(leafData, cnt, [|sz|]);
    forall j {:trigger First(leafData, cnt', j)} | 0 <= j < |cnt|
      ensures First(leafData, cnt', j) <= cnt[j] <= |sz|
      ensures szs[j] == Sum(sz, First(leafData, cnt', j), cnt[j]) <= usable
    {
      assert First(leafData, cnt', j) == First(leafData, cnt, j) < cnt[j];
    }
    assert First(leafData, cnt', |cnt|) == First(leafData, cnt, |cnt|);
  }

  // The state of the second pass before page i takes cells from its left neighbour.
  ghost predicate Evening(sz: Sizes, leafData: bool, usable: nat, cnt0: seq<nat>, cnt: seq<nat>, i: nat)
    requires |cnt| == |cnt0| && i < |cnt|
  {
    && Fits(sz, leafData, usable, cnt)
    && (forall j :: 0 <= j < i ==> cnt[j] == cnt0[j]) && (i == |cnt| - 1 ==> cnt == cnt0)
    && (forall j {:trigger First(leafData, cnt, j)} :: i <= j < |cnt| && !(i == j == |cnt| - 1) ==>
          First(leafData, cnt, j) < cnt[j])
  }

  lemma FirstOfUpdate(leafData: bool, cnt: seq<nat>, i: nat, c: nat)
    requires 0 < i < |cnt|
    ensures forall j {:trigger First(leafData, cnt[i - 1 := c], j)} :: 0 <= j < |cnt| ==>
      First(leafData, cnt[i - 1 := c], j) ==
      if j == i then (if leafData then c else c + 1) else First(leafData, cnt, j)
  {}

  // Moving the boundary between pages i-1 and i to c.
  lemma MoveBoundary(sz: Sizes, leafData: bool, usable: nat, cnt0: seq<nat>, cnt: seq<nat>, i: nat, c: nat)
    requires |cnt| == |cnt0| && 0 < i < |cnt| && Evening(sz, leafData, usable, cnt0, cnt, i)
    requires First(leafData, cnt, i - 1) < c <= cnt[i - 1]
    requires
      var first := if leafData then c else c + 1;
      first < cnt[i] && Sum(sz, first, cnt[i]) <= usable && Sum(sz, First(leafData, cnt, i - 1), c) <= usable
    ensures Evening(sz, leafData, usable, cnt0, cnt[i - 1 := c], i - 1)
    ensures PageSize(sz, leafData, cnt[i - 1 := c], i - 1) == Sum(sz, First(leafData, cnt, i - 1), c)
    ensures PageSize(sz, leafData, cnt[i - 1 := c], i) == Sum(sz, if leafData then c else c + 1, cnt[i])
    ensures forall j :: 0 <= j < |cnt| && j != i && j != i - 1 ==>
      PageSize(sz, leafData, cnt[i - 1 := c], j) == PageSize(sz, leafData, cnt, j)
  {
    var cnt' := cnt[i - 1 := c];
    FirstOfUpdate(leafData, cnt, i, c);
    forall j {:trigger First(leafData, cnt', j)} | 0 <= j < |cnt|
      ensures First(leafData, cnt', j) <= cnt'[j] <= |sz|
      ensures Sum(sz, First(leafData, cnt', j), cnt'[j]) <= usable
      ensures i - 1 <= j ==> First(leafData, cnt', j) < cnt'[j]
    {
      assert First(leafData, cnt, j) <= cnt[j] <= |sz| && Sum(sz, First(leafData, cnt, j), cnt[j]) <= usable;
      assert First(leafData, cnt', j) == if j == i then (if leafData then c else c + 1) else First(leafData, cnt, j);
    }
  }

  // An empty last page: its left neighbour is full, so that it keeps a cell when it gives one away.
  lemma FullLeftPage(sz: Sizes, usable: nat, first: nat, c: nat)
    requires Admissible(sz, false, usable) && first < c && c + 1 == |sz|
    requires Sum(sz, first, c + 1) > usable
    ensures first < c - 1
  {
    assert Sum(sz, c - 1, c) == sz[c - 1] + 2;
  }

  // The second pass: from the right, let each page take cells from its left neighbour while that
  // leaves the neighbour the larger of the two, or while the page is empty.
  method EvenOut(szCell: Sizes, leafData: bool, usableSpace: nat, bBulk: bool, k: nat,
                 cntNew: array<nat>, szNew: array<nat>)
    requires Admissible(szCell, leafData, usableSpace)
    requires 1 <= k <= NB + 2 && cntNew.Length == szNew.Length == NB + 2 && cntNew != szNew
    requires Fits(szCell, leafData, usableSpace, cntNew[..k]) && Greedy(szCell, leafData, usableSpace, cntNew[..k - 1])
    requires forall j :: 0 <= j < k ==> szNew[j] == PageSize(szCell, leafData, cntNew[..k], j)
    modifies cntNew, szNew
    ensures Legal(szCell, leafData, usableSpace, cntNew[..k])
    ensures forall j :: 0 <= j < k ==> szNew[j] == PageSize(szCell, leafData, cntNew[..k], j)
    ensures Evened(szCell, leafData, usableSpace, bBulk, cntNew[..k])
  {
    hide Sum, Greedy, Admissible, EvenedFrom, EvenAt, Rests, Moves;
    ghost var cnt0, cnt, szs := cntNew[..k], cntNew[..k], szNew[..k];
    ghost var full := cnt0[..k - 1];
    assert cntNew[..k - 1] == full;
    NoneEven(szCell, leafData, bBulk, full, cnt);
    var i := k - 1;
    while i > 0
      invariant 0 <= i < k
      invariant cnt == cntNew[..k] && szs == szNew[..k] && |cnt0| == k
      invariant Evening(szCell, leafData, usableSpace, cnt0, cnt, i)
      invariant EvenedFrom(szCell, leafData, bBulk, full, cnt, i)
      invariant forall j :: 0 <= j < k ==> szs[j] == PageSize(szCell, leafData, cnt, j)
    {
      LeftIsGreedy(szCell, leafData, usableSpace, cnt0, cnt, i);
      var szLeft, szRight := TakeFromLeft(szCell, leafData, usableSpace, bBulk, k, i, cntNew, szNew, cnt);
      MoveBoundary(szCell, leafData, usableSpace, cnt0, cnt, i, cntNew[i - 1]);
      OneMoreEven(szCell, leafData, usableSpace, bBulk, cnt0, cnt, i, cntNew[i - 1]);
      cnt, szs := cnt[i - 1 := cntNew[i - 1]], szs[i := szRight][i - 1 := szLeft];
      szNew[i] := szRight;
      szNew[i - 1] := szLeft;
      assert szNew[..k] == szs;
      i := i - 1;
    }
  }

  // Page i takes cells from page i-1, one at a time.
  method TakeFromLeft(szCell: Sizes, leafData: bool, usableSpace: nat, bBulk: bool, k: nat, i: nat,
                      cntNew: array<nat>, szNew: array<nat>, ghost cnt: seq<nat>)
    returns (szLeft: nat, szRight: nat)
    requires Admissible(szCell, leafData, usableSpace) && Fits(szCell, leafData, usableSpace, cnt)
    requires 0 < i < k <= NB + 2 && cntNew.Length == szNew.Length == NB + 2 && cntNew != szNew && cnt == cntNew[..k]
    requires szNew[i] == PageSize(szCell, leafData, cnt, i) && szNew[i - 1] == PageSize(szCell, leafData, cnt, i - 1)
    requires First(leafData, cnt, i - 1) < cnt[i - 1] && (leafData ==> cnt[i - 1] < cnt[i])
    requires First(leafData, cnt, i) == cnt[i] ==> !leafData && First(leafData, cnt, i - 1) < cnt[i - 1] - 1
    modifies cntNew
    ensures cntNew[..k] == cnt[i - 1 := cntNew[i - 1]]
    ensures First(leafData, cnt, i - 1) < cntNew[i - 1] <= cnt[i - 1]
    ensures szLeft == Sum(szCell, First(leafData, cnt, i - 1), cntNew[i - 1]) <= usableSpace
    ensures
      var first := if leafData then cntNew[i - 1] else cntNew[i - 1] + 1;
      first < cnt[i] && szRight == Sum(szCell, first, cnt[i]) <= usableSpace
    ensures Rests(szCell, leafData, bBulk, First(leafData, cnt, i - 1), cntNew[i - 1], cnt[i])
    ensures Moves(szCell, leafData, bBulk, First(leafData, cnt, i - 1), cntNew[i - 1], cnt[i - 1], cnt[i])
  {
    ghost var first := First(leafData, cnt, i - 1);
    ghost var end := cnt[i];
    assert First(leafData, cnt, i) <= end <= |szCell|;
    szRight, szLeft := szNew[i], szNew[i - 1];
    var r := cntNew[i - 1] - 1;
    var d := r + 1 - (if leafData then 1 else 0);
    while szRight == 0 || (!bBulk && szRight + szCell[d] + 2 <= szLeft - (szCell[r] + 2))
      invariant first < cntNew[i - 1] <= cnt[i - 1] && cntNew[..k] == cnt[i - 1 := cntNew[i - 1]]
      invariant r == cntNew[i - 1] - 1 && d == r + 1 - (if leafData then 1 else 0)
      invariant szLeft == Sum(szCell, first, r + 1) <= usableSpace
      invariant d < end <= |szCell| && szRight == Sum(szCell, d + 1, end) <= usableSpace
      invariant leafData ==> d + 1 < end
      invariant szRight == 0 <==> d + 1 == end
      invariant szRight == 0 ==> first < r
      invariant Moves(szCell, leafData, bBulk, first, cntNew[i - 1], cnt[i - 1], end)
      decreases cntNew[i - 1]
    {
      SumFront(szCell, d, end);
      szRight := szRight + szCell[d] + 2;
      szLeft := szLeft - (szCell[r] + 2);
      cntNew[i - 1] := cntNew[i - 1] - 1;
      r := cntNew[i - 1] - 1;
      d := r + 1 - (if leafData then 1 else 0);
    }
    SumFront(szCell, d, end);
  }

  lemma NoneEven(sz: Sizes, leafData: bool, bBulk: bool, full: seq<nat>, cnt: seq<nat>)
    requires |cnt| == |full| + 1
    ensures EvenedFrom(sz, leafData, bBulk, full, cnt, |full|)
  {}

  lemma OneMoreEven(sz: Sizes, leafData: bool, usable: nat, bBulk: bool, cnt0: seq<nat>, cnt: seq<nat>, i: nat, c: nat)
    requires |cnt| == |cnt0| && 0 < i < |cnt| && Evening(sz, leafData, usable, cnt0, cnt, i) && c <= cnt[i - 1]
    requires Rests(sz, leafData, bBulk, First(leafData, cnt, i - 1), c, cnt[i])
    requires Moves(sz, leafData, bBulk, First(leafData, cnt, i - 1), c, cnt[i - 1], cnt[i])
    requires EvenedFrom(sz, leafData, bBulk, cnt0[..|cnt| - 1], cnt, i)
    ensures EvenedFrom(sz, leafData, bBulk, cnt0[..|cnt| - 1], cnt[i - 1 := c], i - 1)
  {
    hide Rests, Moves, Fits;
    var full, cnt' := cnt0[..|cnt| - 1], cnt[i - 1 := c];
    assert First(leafData, full, i - 1) == First(leafData, cnt, i - 1);
    forall j | i - 1 < j < |cnt'|
      ensures EvenAt(sz, leafData, bBulk, full, cnt', j)
    {
      if j > i {
        assert EvenAt(sz, leafData, bBulk, full, cnt, j);
      }
    }
  }

  // What is known of pages i-1 and i before cells move between them.
  lemma LeftIsGreedy(sz: Sizes, leafData: bool, usable: nat, cnt0: seq<nat>, cnt: seq<nat>, i: nat)
    requires Admissible(sz, leafData, usable) && |cnt| == |cnt0| && 0 < i < |cnt|
    requires Greedy(sz, leafData, usable, cnt0[..|cnt0| - 1]) && Evening(sz, leafData, usable, cnt0, cnt, i)
    ensures First(leafData, cnt, i - 1) < cnt[i - 1]
    ensures leafData ==> cnt[i - 1] < cnt[i]
    ensures First(leafData, cnt, i) == cnt[i] ==> !leafData && First(leafData, cnt, i - 1) < cnt[i - 1] - 1
  {
    var closed := cnt0[..|cnt0| - 1];
    assert First(leafData, cnt, i - 1) == First(leafData, closed, i - 1) && cnt[i - 1] == closed[i - 1];
    if First(leafData, cnt, i) == cnt[i] {
      assert i == |cnt| - 1;
      FullLeftPage(sz, usable, First(leafData, cnt, i - 1), cnt[i - 1]);
    }
  }

  /**
  Every cell goes to exactly one place: onto the page of a layout, or between two pages as a divider.
  */
  function Pages<T>(cells: seq<T>, leafData: bool, cnt: seq<nat>, n: nat): seq<seq<T>>
    requires IsLayout(|cells|, leafData, cnt) && n <= |cnt|
  {
    if n == 0 then []
    else Pages(cells, leafData, cnt, n - 1) + [cells[First(leafData, cnt, n - 1)..cnt[n - 1]]]
  }

  function Interleaved<T>(cells: seq<T>, leafData: bool, cnt: seq<nat>, n: nat): seq<T>
    requires IsLayout(|cells|, leafData, cnt) && n <= |cnt|
  {
    if n == 0 then []
    else
      var page := cells[First(leafData, cnt, n - 1)..cnt[n - 1]];
      Interleaved(cells, leafData, cnt, n - 1)
      + (if n > 1 && !leafData then [cells[First(leafData, cnt, n - 1) - 1]] else []) + page
  }

  lemma SplitBefore<T>(s: seq<T>, f: nat, c: nat, apart: bool)
    requires f <= c <= |s| && (apart ==> f > 0)
    ensures s[..c] == s[..if apart then f - 1 else f] + (if apart then [s[f - 1]] else []) + s[f..c]
  {
    assert s[..c] == s[..f] + s[f..c];
  }

  lemma {:induction false} InterleavedIsAll<T>(cells: seq<T>, leafData: bool, cnt: seq<nat>, n: nat)
    requires IsLayout(|cells|, leafData, cnt) && 1 <= n <= |cnt|
    ensures First(leafData, cnt, n - 1) <= cnt[n - 1] <= |cells|
    ensures Interleaved(cells, leafData, cnt, n) == cells[..cnt[n - 1]]
  {
    if n > 1 {
      InterleavedIsAll(cells, leafData, cnt, n - 1);
      var f := First(leafData, cnt, n - 1);
      SplitBefore(cells, f, cnt[n - 1], !leafData);
    }
  }
}
