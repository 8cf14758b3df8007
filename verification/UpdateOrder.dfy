/**
The order in which balance_nonroot rewrites the sibling pages in place.

While the siblings are rewritten, the cell array still points into them. A page must therefore not
be rewritten before every other page that is to receive one of the cells stored on it.
*/
module UpdateOrder {
  import opened Packing

  /** Where a cell is found: in slot idx of a sibling page, or in memory outside of the siblings. */
  datatype CellPtr<T> = OnPage(page: nat, idx: nat) | Copy(cell: T)

  // The cell a pointer leads to, given the present contents of the pages.
  function Deref<T>(pages: seq<seq<T>>, ptr: CellPtr<T>): T
    requires ptr.OnPage? ==> ptr.page < |pages| && ptr.idx < |pages[ptr.page]|
  {
    match ptr
    case OnPage(page, idx) => pages[page][idx]
    case Copy(cell) => cell
  }

  /** Cell c lies on page p of a layout; pages from nOld on are new and hold none. */
  predicate Holds(leafData: bool, cnt: seq<nat>, nOld: nat, p: nat, c: nat)
    requires nOld <= |cnt|
  {
    p < nOld && First(leafData, cnt, p) <= c < cnt[p]
  }

  /** A balancing operation after the cells have been gathered and the new layout has been chosen. */
  ghost predicate Gathered<T>(pages: seq<seq<T>>, apCell: seq<CellPtr<T>>, leafData: bool,
                              nOld: nat, cntOld: seq<nat>, cntNew: seq<nat>) {
    && 1 <= nOld <= |cntOld| && |pages| == |cntOld| >= |cntNew|
    && IsLayout(|apCell|, leafData, cntOld[..nOld]) && IsLayout(|apCell|, leafData, cntNew)
    && (forall p :: nOld <= p < |cntOld| ==> cntOld[p] == |apCell|)
    && (forall c :: 0 <= c < |apCell| && apCell[c].OnPage? ==>
          && Holds(leafData, cntOld, nOld, apCell[c].page, c)
          && apCell[c].idx < |pages[apCell[c].page]|)
  }

  // The cells that page p is to hold.
  ghost function Intended<T>(pages: seq<seq<T>>, apCell: seq<CellPtr<T>>, leafData: bool,
                             nOld: nat, cntOld: seq<nat>, cntNew: seq<nat>, p: nat): (r: seq<T>)
    requires Gathered(pages, apCell, leafData, nOld, cntOld, cntNew) && p < |cntNew|
  {
    var iNew := First(leafData, cntNew, p);
    assert iNew <= cntNew[p] <= |apCell|;
    seq(cntNew[p] - iNew, t requires 0 <= t < cntNew[p] - iNew => Deref(pages, apCell[iNew + t]))
  }

  lemma LayoutMonotone(n: nat, leafData: bool, cnt: seq<nat>, p: nat, q: nat)
    requires IsLayout(n, leafData, cnt) && p < q < |cnt|
    ensures cnt[p] <= First(leafData, cnt, q) <= cnt[q]
    decreases q
  {
    if p < q - 1 {
      LayoutMonotone(n, leafData, cnt, p, q - 1);
    }
  }

  // Old boundaries including those of new pages do not descend.
  lemma OldMonotone<T>(pages: seq<seq<T>>, apCell: seq<CellPtr<T>>, leafData: bool,
                       nOld: nat, cntOld: seq<nat>, cntNew: seq<nat>, p: nat, q: nat)
    requires Gathered(pages, apCell, leafData, nOld, cntOld, cntNew) && p < q < |cntOld|
    ensures cntOld[p] <= cntOld[q] && (q < nOld ==> cntOld[p] <= First(leafData, cntOld, q))
  {
    var old' := cntOld[..nOld];
    if q < nOld {
      LayoutMonotone(|apCell|, leafData, old', p, q);
      assert First(leafData, old', q) == First(leafData, cntOld, q);
    }
  }

  /**
  Why the order is safe, for cells that move by any number of pages: when page iPg is rewritten on the way
  down, pages above it have been rewritten only if no cell crosses their left boundary to the left; on the
  way up pages below it have been rewritten too, but then cells cross the left boundary of iPg to the left.
  Either way no rewritten page q holds a cell c that page iPg is to receive.
  */
  lemma NotYetRewritten<T>(pages: seq<seq<T>>, apCell: seq<CellPtr<T>>, leafData: bool,
                           nOld: nat, cntOld: seq<nat>, cntNew: seq<nat>, iPg: nat, q: nat, c: nat)
    requires Gathered(pages, apCell, leafData, nOld, cntOld, cntNew)
    requires iPg < |cntNew| && First(leafData, cntNew, iPg) <= c < cntNew[iPg]
    requires q < |cntNew| && q != iPg
    requires q > iPg ==> cntOld[q - 1] >= cntNew[q - 1]
    requires q < iPg ==> cntOld[iPg - 1] < cntNew[iPg - 1]
    ensures !Holds(leafData, cntOld, nOld, q, c)
  {
    if Holds(leafData, cntOld, nOld, q, c) {
      if q > iPg {
        if iPg < q - 1 { LayoutMonotone(|apCell|, leafData, cntNew, iPg, q - 1); }
      } else {
        if q < iPg - 1 { OldMonotone(pages, apCell, leafData, nOld, cntOld, cntNew, q, iPg - 1); }
        LayoutMonotone(|apCell|, leafData, cntNew, iPg - 1, iPg);
      }
    }
  }

  // A page to be rewritten next: its cells are still in place.
  lemma SafeToRewrite<T>(pages0: seq<seq<T>>, pages: seq<seq<T>>, done: seq<bool>, apCell: seq<CellPtr<T>>,
                         leafData: bool, nOld: nat, cntOld: seq<nat>, cntNew: seq<nat>, iPg: nat)
    requires Gathered(pages0, apCell, leafData, nOld, cntOld, cntNew) && |pages| == |pages0|
    requires iPg < |cntNew| == |done| && !done[iPg]
    requires forall p :: 0 <= p < |pages| && !(p < |done| && done[p]) ==> pages[p] == pages0[p]
    requires forall q :: 0 <= q < |done| && q != iPg && done[q] ==>
      (q > iPg ==> cntOld[q - 1] >= cntNew[q - 1]) && (q < iPg ==> cntOld[iPg - 1] < cntNew[iPg - 1])
    ensures forall c :: First(leafData, cntNew, iPg) <= c < cntNew[iPg] && apCell[c].OnPage? ==>
      pages[apCell[c].page] == pages0[apCell[c].page]
  {
    assert First(leafData, cntNew, iPg) <= cntNew[iPg];
    forall c | First(leafData, cntNew, iPg) <= c < cntNew[iPg] && apCell[c].OnPage?
      ensures pages[apCell[c].page] == pages0[apCell[c].page]
    {
      var q := apCell[c].page;
      if q < |done| && done[q] {
        NotYetRewritten(pages0, apCell, leafData, nOld, cntOld, cntNew, iPg, q, c);
      }
    }
  }

  // A page written from unchanged pages has the cells it is to have.
  lemma WrittenAsIntended<T>(pages0: seq<seq<T>>, pages: seq<seq<T>>, page: seq<T>, apCell: seq<CellPtr<T>>,
                             leafData: bool, nOld: nat, cntOld: seq<nat>, cntNew: seq<nat>, iPg: nat)
    requires Gathered(pages0, apCell, leafData, nOld, cntOld, cntNew) && |pages| == |pages0| && iPg < |cntNew|
    requires First(leafData, cntNew, iPg) <= cntNew[iPg] <= |apCell|
    requires forall c :: First(leafData, cntNew, iPg) <= c < cntNew[iPg] && apCell[c].OnPage? ==>
      pages[apCell[c].page] == pages0[apCell[c].page]
    requires |page| == cntNew[iPg] - First(leafData, cntNew, iPg)
    requires forall t :: 0 <= t < |page| ==>
      page[t] == Deref(pages, apCell[First(leafData, cntNew, iPg)..cntNew[iPg]][t])
    ensures page == Intended(pages0, apCell, leafData, nOld, cntOld, cntNew, iPg)
  {
    var want := Intended(pages0, apCell, leafData, nOld, cntOld, cntNew, iPg);
    var iNew := First(leafData, cntNew, iPg);
    forall t | 0 <= t < |page|
      ensures page[t] == want[t]
    {
      assert apCell[iNew..cntNew[iPg]][t] == apCell[iNew + t];
    }
  }

  // Replace the cells of page iPg by the given ones (editPage and rebuildPage). Cells that are taken from
  // the page itself are copied before it is overwritten.
  method EditPage<T>(pages: array<seq<T>>, iPg: nat, apCell: seq<CellPtr<T>>)
    requires iPg < pages.Length
    requires forall c :: 0 <= c < |apCell| && apCell[c].OnPage? ==>
      apCell[c].page < pages.Length && apCell[c].idx < |pages[apCell[c].page]|
    modifies pages
    ensures pages[..] == old(pages[..])[iPg := pages[iPg]] && |pages[iPg]| == |apCell|
    ensures forall c :: 0 <= c < |apCell| ==> pages[iPg][c] == Deref(old(pages[..]), apCell[c])
  {
    var pTmp := pages[iPg];
    pages[iPg] := [];
    for i := 0 to |apCell|
      invariant |pages[iPg]| == i
      invariant forall p :: 0 <= p < pages.Length && p != iPg ==> pages[p] == old(pages[p])
      invariant forall c :: 0 <= c < i ==> pages[iPg][c] == Deref(old(pages[..]), apCell[c])
    {
      var cell := match apCell[i]
        case OnPage(p, idx) => if p == iPg then pTmp[idx] else pages[p][idx]
        case Copy(cell) => cell;
      pages[iPg] := pages[iPg] + [cell];
    }
  }

  /**
  Rewrite every new sibling page in place, in one pass down and one pass up: each page is written once,
  and ends up with exactly the cells the new layout gives it.
  */
  method UpdateSiblings<T>(pages: array<seq<T>>, apCell: seq<CellPtr<T>>, leafData: bool,
                           nOld: nat, cntOld: seq<nat>, nNew: nat, cntNew: seq<nat>)
    returns (ghost order: seq<nat>)
    requires nNew == |cntNew| && Gathered(pages[..], apCell, leafData, nOld, cntOld, cntNew)
    modifies pages
    ensures forall p :: 0 <= p < nNew ==>
      pages[p] == Intended(old(pages[..]), apCell, leafData, nOld, cntOld, cntNew, p)
    ensures forall p :: nNew <= p < pages.Length ==> pages[p] == old(pages[p])
    ensures forall p :: 0 <= p < nNew <==> p in order
    ensures forall a, b :: 0 <= a < b < |order| ==> order[a] != order[b]
  {
    ghost var pages0 := pages[..];
    var abDone := new bool[nNew](_ => false);
    order := [];
    var i := 1 - nNew;
    while i < nNew
      invariant 1 - nNew <= i <= nNew
      invariant forall p :: 0 <= p < nNew ==>
        abDone[p] == if i <= 0 then p > -i && cntOld[p - 1] >= cntNew[p - 1]
                     else p < i || cntOld[p - 1] >= cntNew[p - 1]
      invariant forall p :: 0 <= p < nNew && abDone[p] ==>
        pages[p] == Intended(pages0, apCell, leafData, nOld, cntOld, cntNew, p)
      invariant forall p :: 0 <= p < pages.Length && !(p < nNew && abDone[p]) ==> pages[p] == pages0[p]
      invariant forall p :: p in order <==> 0 <= p < nNew && abDone[p]
      invariant forall a, b :: 0 <= a < b < |order| ==> order[a] != order[b]
    {
      var iPg := if i < 0 then -i else i;
      if !abDone[iPg] {
        if i >= 0 || cntOld[iPg - 1] >= cntNew[iPg - 1] {
          var iNew := First(leafData, cntNew, iPg);
          SafeToRewrite(pages0, pages[..], abDone[..], apCell, leafData, nOld, cntOld, cntNew, iPg);
          ghost var before := pages[..];
          EditPage(pages, iPg, apCell[iNew..cntNew[iPg]]);
          WrittenAsIntended(pages0, before, pages[iPg], apCell, leafData, nOld, cntOld, cntNew, iPg);
          abDone[iPg] := true;
          order := order + [iPg];
        }
      }
      i := i + 1;
    }
  }
}
