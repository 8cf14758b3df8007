/**
Auto-vacuum: relocating pages towards the front of the file (incrVacuumStep, relocatePage,
setChildPtrmaps, modifyPagePointer, autoVacuumCommit and sqlite3BtreeIncrVacuum).

A page is described by the page numbers it stores; the remaining bytes are an opaque content.
*/
module AutoVacuum {
  import opened PtrMap

  type Bytes = seq<bv8>

  datatype Cell = Cell(child: nat, overflow: nat, content: Bytes)

  datatype Page =
    | Btree(leaf: bool, cells: seq<Cell>, rightChild: nat)
    | OverflowPage(next: nat, content: Bytes)

  datatype PtrType = RootPage | FreePage | Overflow1 | Overflow2 | BtreeChild

  datatype Entry = Entry(eType: PtrType, parent: nat)

  type Pages = map<nat, Page>
  type Ptrmap = map<nat, Entry>

  // ----- The page graph -----

  /** Page pg stores a pointer of type t to page p. */
  ghost predicate PointsTo(pg: Page, t: PtrType, p: nat) {
    && p != 0
    && match t
       case BtreeChild =>
         pg.Btree? && !pg.leaf && (pg.rightChild == p || exists i :: 0 <= i < |pg.cells| && pg.cells[i].child == p)
       case Overflow1 => pg.Btree? && exists i :: 0 <= i < |pg.cells| && pg.cells[i].overflow == p
       case Overflow2 => pg.OverflowPage? && pg.next == p
       case RootPage => false
       case FreePage => false
  }

  /** No page number is stored twice on one b-tree page, and interior pages have all their children. */
  ghost predicate DistinctPointers(pg: Page) {
    pg.Btree? ==>
      && (forall i, j :: 0 <= i < j < |pg.cells| && pg.cells[i].overflow != 0
            ==> pg.cells[i].overflow != pg.cells[j].overflow)
      && (!pg.leaf ==>
        && pg.rightChild != 0
        && (forall i :: 0 <= i < |pg.cells| ==> pg.cells[i].child != 0 && pg.cells[i].child != pg.rightChild)
        && (forall i, j :: 0 <= i < j < |pg.cells| ==> pg.cells[i].child != pg.cells[j].child))
  }

  // Every stored pointer leads to a page in use whose pointer-map entry names it.
  ghost predicate PointersMapped(pages: Pages, ptrmap: Ptrmap) {
    forall q, t, p :: q in pages && PointsTo(pages[q], t, p)
      ==> p in pages && p in ptrmap && ptrmap[p] == Entry(t, q)
  }

  // The pointer-map entry of a page that is not a root leads back to a pointer to it.
  ghost predicate MappedBack(pages: Pages, ptrmap: Ptrmap, p: nat)
    requires p in pages
  {
    && p in ptrmap
    && ptrmap[p].parent in pages && ptrmap[p].parent != p
    && PointsTo(pages[ptrmap[p].parent], ptrmap[p].eType, p)
    && (pages[p].Btree? <==> ptrmap[p].eType == BtreeChild)
  }

  ghost predicate RootMapped(pages: Pages, ptrmap: Ptrmap, p: nat) {
    p in pages && pages[p].Btree? && (p != 1 ==> p in ptrmap && ptrmap[p].eType == RootPage)
  }

  /** The pointer map describes the page graph exactly. */
  ghost predicate GraphOK(pages: Pages, ptrmap: Ptrmap, roots: set<nat>) {
    && 0 !in pages && 1 !in ptrmap
    && PointersMapped(pages, ptrmap)
    && (forall q :: q in pages ==> DistinctPointers(pages[q]))
    && (forall p :: p in roots ==> RootMapped(pages, ptrmap, p))
    && (forall p :: p in pages && p !in roots ==> MappedBack(pages, ptrmap, p))
  }

  // ----- Renumbering pages -----

  function Renumber(rho: map<nat, nat>, p: nat): nat { if p in rho then rho[p] else p }

  function RenumberCell(rho: map<nat, nat>, leaf: bool, c: Cell): Cell {
    Cell(if leaf then c.child else Renumber(rho, c.child), Renumber(rho, c.overflow), c.content)
  }

  function RenumberPage(rho: map<nat, nat>, pg: Page): Page {
    match pg
    case Btree(leaf, cells, rightChild) =>
      Btree(leaf, seq(|cells|, i requires 0 <= i < |cells| => RenumberCell(rho, leaf, cells[i])),
            if leaf then rightChild else Renumber(rho, rightChild))
    case OverflowPage(next, content) => OverflowPage(Renumber(rho, next), content)
  }

  ghost predicate Injective(rho: map<nat, nat>) {
    forall p, q :: p in rho && q in rho && rho[p] == rho[q] ==> p == q
  }

  /** pages' is pages with every page number p replaced by rho[p], and root pages stay where they are. */
  ghost predicate Isomorphic(pages: Pages, pages': Pages, roots: set<nat>, rho: map<nat, nat>) {
    && rho.Keys == pages.Keys && 0 !in rho && Injective(rho)
    && pages'.Keys == rho.Values
    && (forall p :: p in pages ==> pages'[rho[p]] == RenumberPage(rho, pages[p]))
    && (forall p :: p in roots ==> Renumber(rho, p) == p)
  }

  // The renumbering that moves page iFrom to page number iTo.
  function MoveMap(pages: Pages, iFrom: nat, iTo: nat): map<nat, nat> {
    map p | p in pages :: if p == iFrom then iTo else p
  }

  function MovedPages(pages: Pages, iFrom: nat, iTo: nat): Pages
    requires iFrom in pages
  {
    var rho := MoveMap(pages, iFrom, iTo);
    map q | q in pages.Keys - {iFrom} + {iTo} :: RenumberPage(rho, pages[if q == iTo then iFrom else q])
  }

  lemma MoveIsIsomorphic(pages: Pages, iFrom: nat, iTo: nat, roots: set<nat>)
    requires iFrom in pages && iTo !in pages && iTo != 0 && 0 !in pages && iFrom !in roots
    ensures Isomorphic(pages, MovedPages(pages, iFrom, iTo), roots, MoveMap(pages, iFrom, iTo))
    ensures 0 !in MoveMap(pages, iFrom, iTo).Values
  {
    var rho := MoveMap(pages, iFrom, iTo);
    var pages' := MovedPages(pages, iFrom, iTo);
    forall q
      ensures q in pages' <==> q in rho.Values
    {
      if q in pages' {
        var p := if q == iTo then iFrom else q;
        assert p in rho && rho[p] == q;
      }
    }
  }

  lemma IsomorphicIdentity(pages: Pages, roots: set<nat>)
    requires 0 !in pages
    ensures Isomorphic(pages, pages, roots, map p | p in pages :: p)
  {
    var rho := map p | p in pages :: p;
    forall p | p in pages
      ensures RenumberPage(rho, pages[p]) == pages[p]
    {
      if pages[p].Btree? {
        assert RenumberPage(rho, pages[p]).cells == pages[p].cells;
      }
    }
    forall q
      ensures q in pages <==> q in rho.Values
    {
      assert q in pages ==> rho[q] == q;
    }
  }

  /** Renumbering by rho1 first and by rho2 after that. */
  function Compose(rho1: map<nat, nat>, rho2: map<nat, nat>): map<nat, nat> {
    map p | p in rho1 :: Renumber(rho2, rho1[p])
  }

  lemma ComposeMaps(rho1: map<nat, nat>, rho2: map<nat, nat>)
    requires rho1.Values == rho2.Keys && Injective(rho1) && Injective(rho2)
    ensures Injective(Compose(rho1, rho2)) && Compose(rho1, rho2).Values == rho2.Values
    ensures forall p :: p in rho1 ==> rho1[p] in rho2
  {
    var rho := Compose(rho1, rho2);
    assert forall p :: p in rho1 ==> rho1[p] in rho1.Values;
    forall q
      ensures q in rho2.Values <==> q in rho.Values
    {
      if q in rho2.Values {
        var q1 :| q1 in rho2 && rho2[q1] == q;
        var p :| p in rho1 && rho1[p] == q1;
        assert rho[p] == q;
      }
    }
  }

  // The pages a graph's pointers lead to are pages of the graph.
  ghost predicate Closed(pages: Pages) {
    forall q, t, p :: q in pages && PointsTo(pages[q], t, p) ==> p in pages
  }

  /** Renumbering by rho1 and then by rho2 is renumbering by their composition. */
  lemma IsomorphicCompose(p0: Pages, p1: Pages, p2: Pages, roots: set<nat>,
                          rho1: map<nat, nat>, rho2: map<nat, nat>)
    requires Isomorphic(p0, p1, roots, rho1) && Isomorphic(p1, p2, roots, rho2)
    requires Closed(p0) && roots <= p0.Keys
    ensures Isomorphic(p0, p2, roots, Compose(rho1, rho2))
  {
    ComposeMaps(rho1, rho2);
    forall p | p in p0
      ensures Compose(rho1, rho2)[p] in p2
      ensures p2[Compose(rho1, rho2)[p]] == RenumberPage(Compose(rho1, rho2), p0[p])
    {
      assert rho1[p] in rho2 && rho1[p] in p1 && rho2[rho1[p]] in rho2.Values;
      ComposePage(p0, p0[p], rho1, rho2);
    }
  }

  lemma ComposePage(p0: Pages, pg: Page, rho1: map<nat, nat>, rho2: map<nat, nat>)
    requires rho1.Keys == p0.Keys && 0 !in rho1 && 0 !in rho2
    requires forall t, p :: PointsTo(pg, t, p) ==> p in p0
    ensures RenumberPage(rho2, RenumberPage(rho1, pg)) == RenumberPage(Compose(rho1, rho2), pg)
  {
    match pg
    case Btree(leaf, cells, rightChild) =>
      var l, r := RenumberPage(rho2, RenumberPage(rho1, pg)), RenumberPage(Compose(rho1, rho2), pg);
      forall i | 0 <= i < |cells|
        ensures l.cells[i] == r.cells[i]
      {
        assert cells[i].overflow != 0 ==> PointsTo(pg, Overflow1, cells[i].overflow);
        assert !leaf && cells[i].child != 0 ==> PointsTo(pg, BtreeChild, cells[i].child);
      }
      assert l.cells == r.cells;
      assert !leaf && rightChild != 0 ==> PointsTo(pg, BtreeChild, rightChild);
    case OverflowPage(next, content) =>
      assert next != 0 ==> PointsTo(pg, Overflow2, next);
  }

  // ----- Renumbering keeps the graph correct -----

  lemma RenumberedPointer(rho: map<nat, nat>, pg: Page, t: PtrType, p': nat) returns (p: nat)
    requires 0 !in rho && PointsTo(RenumberPage(rho, pg), t, p')
    ensures PointsTo(pg, t, p) && Renumber(rho, p) == p'
  {
    var pg' := RenumberPage(rho, pg);
    match t
    case BtreeChild =>
      if pg'.rightChild == p' {
        p := pg.rightChild;
      } else {
        var i :| 0 <= i < |pg'.cells| && pg'.cells[i].child == p';
        p := pg.cells[i].child;
      }
    case Overflow1 =>
      var i :| 0 <= i < |pg'.cells| && pg'.cells[i].overflow == p';
      p := pg.cells[i].overflow;
    case Overflow2 =>
      p := pg.next;
  }

  lemma PointerRenumbered(rho: map<nat, nat>, pg: Page, t: PtrType, p: nat)
    requires PointsTo(pg, t, p) && Renumber(rho, p) != 0
    ensures PointsTo(RenumberPage(rho, pg), t, Renumber(rho, p))
  {
    var pg' := RenumberPage(rho, pg);
    match t
    case BtreeChild =>
      if pg.rightChild != p {
        var i :| 0 <= i < |pg.cells| && pg.cells[i].child == p;
        assert pg'.cells[i].child == Renumber(rho, p);
      }
    case Overflow1 =>
      var i :| 0 <= i < |pg.cells| && pg.cells[i].overflow == p;
      assert pg'.cells[i].overflow == Renumber(rho, p);
    case Overflow2 =>
  }

  lemma DistinctRenumbered(rho: map<nat, nat>, pg: Page)
    requires DistinctPointers(pg) && Injective(rho) && 0 !in rho && 0 !in rho.Values
    requires forall t, p :: PointsTo(pg, t, p) ==> p in rho
    ensures DistinctPointers(RenumberPage(rho, pg))
  {
    if pg.Btree? {
      forall i | 0 <= i < |pg.cells|
        ensures pg.cells[i].overflow != 0 ==> pg.cells[i].overflow in rho
        ensures !pg.leaf ==> pg.cells[i].child in rho
      {
        assert pg.cells[i].overflow != 0 ==> PointsTo(pg, Overflow1, pg.cells[i].overflow);
        assert !pg.leaf ==> PointsTo(pg, BtreeChild, pg.cells[i].child);
      }
      assert !pg.leaf ==> PointsTo(pg, BtreeChild, pg.rightChild);
      assert forall p :: p in rho ==> rho[p] in rho.Values;
    }
  }

  /** ptrmap' holds, for each page in its new place, the entry it had, with its parent's new number. */
  ghost predicate PtrmapFollows(pages: Pages, ptrmap: Ptrmap, ptrmap': Ptrmap, roots: set<nat>, rho: map<nat, nat>)
    requires rho.Keys == pages.Keys
  {
    forall p :: p in pages && p in ptrmap && p != 1 ==>
      && rho[p] in ptrmap'
      && ptrmap'[rho[p]].eType == ptrmap[p].eType
      && (p !in roots ==> ptrmap'[rho[p]].parent == Renumber(rho, ptrmap[p].parent))
  }

  /** When pages and pointer map are renumbered alike, a correct pointer map stays correct. */
  lemma GraphRenumbered(pages: Pages, ptrmap: Ptrmap, pages': Pages, ptrmap': Ptrmap,
                        roots: set<nat>, rho: map<nat, nat>)
    requires GraphOK(pages, ptrmap, roots) && 1 in roots
    requires Isomorphic(pages, pages', roots, rho) && 0 !in rho.Values
    requires PtrmapFollows(pages, ptrmap, ptrmap', roots, rho) && 1 !in ptrmap'
    ensures GraphOK(pages', ptrmap', roots)
  {
    forall q', t, p' | q' in pages' && PointsTo(pages'[q'], t, p')
      ensures p' in pages' && p' in ptrmap' && ptrmap'[p'] == Entry(t, q')
    {
      var q :| q in rho && rho[q] == q';
      var p := RenumberedPointer(rho, pages[q], t, p');
      PointerFollows(pages, ptrmap, ptrmap', roots, rho, q, t, p);
    }
    forall q' | q' in pages'
      ensures DistinctPointers(pages'[q'])
      ensures q' !in roots ==> MappedBack(pages', ptrmap', q')
    {
      var q :| q in rho && rho[q] == q';
      DistinctRenumbered(rho, pages[q]);
      if q !in roots {
        MappedBackFollows(pages, ptrmap, pages', ptrmap', roots, rho, q);
      }
    }
    forall p | p in roots
      ensures RootMapped(pages', ptrmap', p)
    {
      assert RootMapped(pages, ptrmap, p);
      assert rho[p] == p && p in rho.Values;
    }
  }

  lemma PointerFollows(pages: Pages, ptrmap: Ptrmap, ptrmap': Ptrmap, roots: set<nat>, rho: map<nat, nat>,
                       q: nat, t: PtrType, p: nat)
    requires GraphOK(pages, ptrmap, roots) && 1 in roots && rho.Keys == pages.Keys
    requires PtrmapFollows(pages, ptrmap, ptrmap', roots, rho)
    requires q in pages && PointsTo(pages[q], t, p)
    ensures p in pages && rho[p] in rho.Values && rho[p] in ptrmap' && ptrmap'[rho[p]] == Entry(t, rho[q])
  {
    assert ptrmap[p] == Entry(t, q);
    assert p in roots ==> RootMapped(pages, ptrmap, p);
  }

  lemma MappedBackFollows(pages: Pages, ptrmap: Ptrmap, pages': Pages, ptrmap': Ptrmap,
                          roots: set<nat>, rho: map<nat, nat>, p: nat)
    requires GraphOK(pages, ptrmap, roots) && 1 in roots
    requires Isomorphic(pages, pages', roots, rho) && 0 !in rho.Values
    requires PtrmapFollows(pages, ptrmap, ptrmap', roots, rho)
    requires p in pages && p !in roots
    ensures rho[p] in pages' && MappedBack(pages', ptrmap', rho[p])
  {
    assert MappedBack(pages, ptrmap, p);
    var q := ptrmap[p].parent;
    assert rho[p] in rho.Values && rho[q] in rho.Values;
    PointerRenumbered(rho, pages[q], ptrmap[p].eType, p);
  }

  // ----- Relocating one page -----

  // The pointer map after every page that pg points to has been entered with parent pgno.
  ghost predicate ChildrenEntered(pg: Page, pgno: nat, before: Ptrmap, after: Ptrmap) {
    && (forall t, p :: PointsTo(pg, t, p) ==> p in after && after[p] == Entry(t, pgno))
    && (forall p :: NotPointedTo(pg, p) ==> (p in after <==> p in before) && (p in before ==> after[p] == before[p]))
  }

  ghost predicate NotPointedTo(pg: Page, p: nat) {
    !PointsTo(pg, BtreeChild, p) && !PointsTo(pg, Overflow1, p) && !PointsTo(pg, Overflow2, p)
  }

  // No page is pointed to from pg in two roles.
  ghost predicate OneRole(pg: Page) {
    forall t, u, p :: PointsTo(pg, t, p) && PointsTo(pg, u, p) ==> t == u
  }

  // The page without its right child and with the first n cells only.
  ghost function Prefix(pg: Page, n: nat): Page
    requires pg.Btree? && n <= |pg.cells|
  {
    Btree(pg.leaf, pg.cells[..n], 0)
  }

  lemma PrefixStep(pg: Page, n: nat, t: PtrType, p: nat)
    requires pg.Btree? && n < |pg.cells|
    ensures PointsTo(Prefix(pg, n + 1), t, p) <==>
      || PointsTo(Prefix(pg, n), t, p)
      || (p != 0 && t == Overflow1 && p == pg.cells[n].overflow)
      || (p != 0 && t == BtreeChild && !pg.leaf && p == pg.cells[n].child)
    ensures PointsTo(Prefix(pg, n + 1), t, p) ==> PointsTo(pg, t, p)
  {
    var pre, pre' := Prefix(pg, n), Prefix(pg, n + 1);
    if t == BtreeChild && PointsTo(pre, t, p) {
      var i :| 0 <= i < |pre.cells| && pre.cells[i].child == p;
      assert pre'.cells[i].child == p;
    }
    if t == Overflow1 && PointsTo(pre, t, p) {
      var i :| 0 <= i < |pre.cells| && pre.cells[i].overflow == p;
      assert pre'.cells[i].overflow == p;
    }
    assert pre'.cells[n] == pg.cells[n];
  }

  lemma PrefixWhole(pg: Page, t: PtrType, p: nat)
    requires pg.Btree?
    ensures PointsTo(pg, t, p) <==>
      || PointsTo(Prefix(pg, |pg.cells|), t, p)
      || (p != 0 && t == BtreeChild && !pg.leaf && p == pg.rightChild)
  {
    assert Prefix(pg, |pg.cells|).cells == pg.cells;
  }

  // The pointer map after the pointers of the first n cells have been entered.
  ghost function EnterCells(pg: Page, n: nat, pgno: nat, m: Ptrmap): Ptrmap
    requires pg.Btree? && n <= |pg.cells|
  {
    if n == 0 then m
    else
      var c, m1 := pg.cells[n - 1], EnterCells(pg, n - 1, pgno, m);
      var m2 := if c.overflow != 0 then m1[c.overflow := Entry(Overflow1, pgno)] else m1;
      if !pg.leaf then m2[c.child := Entry(BtreeChild, pgno)] else m2
  }

  lemma {:induction false} EnterCellsAt(pg: Page, n: nat, pgno: nat, m: Ptrmap, p: nat)
    requires pg.Btree? && n <= |pg.cells| && OneRole(pg) && DistinctPointers(pg)
    ensures var m' := EnterCells(pg, n, pgno, m);
      && (forall t :: PointsTo(Prefix(pg, n), t, p) ==> p in m' && m'[p] == Entry(t, pgno))
      && (!PointsTo(Prefix(pg, n), BtreeChild, p) && !PointsTo(Prefix(pg, n), Overflow1, p) ==>
            (p in m' <==> p in m) && (p in m ==> m'[p] == m[p]))
  {
    if n != 0 {
      EnterCellsAt(pg, n - 1, pgno, m, p);
      PrefixStep(pg, n - 1, BtreeChild, p);
      PrefixStep(pg, n - 1, Overflow1, p);
      var c := pg.cells[n - 1];
      assert c.overflow != 0 ==> PointsTo(pg, Overflow1, c.overflow);
      assert !pg.leaf ==> PointsTo(pg, BtreeChild, c.child);
    }
  }

  // All pointers of a page entered: those of its cells and then the right child.
  lemma EnterPage(pg: Page, pgno: nat, m: Ptrmap, m': Ptrmap)
    requires pg.Btree? && OneRole(pg) && DistinctPointers(pg)
    requires
      var m1 := EnterCells(pg, |pg.cells|, pgno, m);
      m' == if !pg.leaf then m1[pg.rightChild := Entry(BtreeChild, pgno)] else m1
    ensures ChildrenEntered(pg, pgno, m, m')
  {
    assert !pg.leaf ==> PointsTo(pg, BtreeChild, pg.rightChild);
    forall t, p | PointsTo(pg, t, p)
      ensures p in m' && m'[p] == Entry(t, pgno)
    {
      PrefixWhole(pg, t, p);
      EnterCellsAt(pg, |pg.cells|, pgno, m, p);
    }
    forall p | NotPointedTo(pg, p)
      ensures (p in m' <==> p in m) && (p in m ==> m'[p] == m[p])
    {
      PrefixWhole(pg, BtreeChild, p);
      PrefixWhole(pg, Overflow1, p);
      EnterCellsAt(pg, |pg.cells|, pgno, m, p);
    }
  }

  // ----- Redirecting the one pointer to a moved page -----

  function Redirect(pg: Page, iFrom: nat, iTo: nat): Page { RenumberPage(map[iFrom := iTo], pg) }

  lemma RedirectIsRenumber(pages: Pages, pg: Page, iFrom: nat, iTo: nat)
    requires iFrom in pages
    ensures RenumberPage(MoveMap(pages, iFrom, iTo), pg) == Redirect(pg, iFrom, iTo)
  {
    if pg.Btree? {
      assert RenumberPage(MoveMap(pages, iFrom, iTo), pg).cells == Redirect(pg, iFrom, iTo).cells;
    }
  }

  lemma RedirectNothing(pg: Page, iFrom: nat, iTo: nat)
    requires iFrom != 0 && forall t :: !PointsTo(pg, t, iFrom)
    ensures Redirect(pg, iFrom, iTo) == pg
  {
    if pg.Btree? {
      assert !PointsTo(pg, BtreeChild, iFrom) && !PointsTo(pg, Overflow1, iFrom);
      assert Redirect(pg, iFrom, iTo).cells == pg.cells;
    } else {
      assert !PointsTo(pg, Overflow2, iFrom);
    }
  }

  // Changing the overflow pointer of cell i alone, when that is the one pointer to iFrom.
  lemma RedirectOverflow(pg: Page, i: nat, iFrom: nat, iTo: nat)
    requires pg.Btree? && i < |pg.cells| && pg.cells[i].overflow == iFrom && iFrom != 0
    requires DistinctPointers(pg) && OneRole(pg)
    ensures Redirect(pg, iFrom, iTo) == pg.(cells := pg.cells[i := pg.cells[i].(overflow := iTo)])
  {
    assert PointsTo(pg, Overflow1, iFrom);
    assert !PointsTo(pg, BtreeChild, iFrom);
    assert Redirect(pg, iFrom, iTo).cells == pg.cells[i := pg.cells[i].(overflow := iTo)];
  }

  lemma RedirectChild(pg: Page, i: nat, iFrom: nat, iTo: nat)
    requires pg.Btree? && !pg.leaf && i < |pg.cells| && pg.cells[i].child == iFrom && iFrom != 0
    requires DistinctPointers(pg) && OneRole(pg)
    ensures Redirect(pg, iFrom, iTo) == pg.(cells := pg.cells[i := pg.cells[i].(child := iTo)])
  {
    assert PointsTo(pg, BtreeChild, iFrom);
    assert !PointsTo(pg, Overflow1, iFrom);
    assert Redirect(pg, iFrom, iTo).cells == pg.cells[i := pg.cells[i].(child := iTo)];
  }

  lemma RedirectRight(pg: Page, iFrom: nat, iTo: nat)
    requires pg.Btree? && !pg.leaf && pg.rightChild == iFrom && iFrom != 0
    requires DistinctPointers(pg) && OneRole(pg)
    ensures Redirect(pg, iFrom, iTo) == pg.(rightChild := iTo)
  {
    assert PointsTo(pg, BtreeChild, iFrom);
    assert !PointsTo(pg, Overflow1, iFrom);
    assert Redirect(pg, iFrom, iTo).cells == pg.cells;
  }

  // ----- What moving page iFrom to iTo does to pages and pointer map -----

  lemma GraphClosed(pages: Pages, ptrmap: Ptrmap, roots: set<nat>)
    requires GraphOK(pages, ptrmap, roots)
    ensures Closed(pages) && roots <= pages.Keys && 0 !in pages
  {
    assert forall r :: r in roots ==> RootMapped(pages, ptrmap, r);
  }

  lemma InjectiveSize(rho: map<nat, nat>)
    requires Injective(rho)
    ensures |rho.Values| == |rho.Keys|
  {
    if rho != map[] {
      var p :| p in rho;
      var rest := rho - {p};
      InjectiveSize(rest);
      assert rho.Keys == rest.Keys + {p};
      forall v
        ensures v in rho.Values <==> v in rest.Values + {rho[p]}
      {
        if v in rho.Values {
          var q :| q in rho && rho[q] == v;
          assert q == p || (q in rest && rest[q] == v);
        }
        if v in rest.Values {
          var q :| q in rest && rest[q] == v;
          assert q in rho && rho[q] == v;
        }
      }
      assert rho.Values == rest.Values + {rho[p]};
      assert rho[p] !in rest.Values;
    }
  }

  lemma IsomorphicSize(pages: Pages, pages': Pages, roots: set<nat>, rho: map<nat, nat>)
    requires Isomorphic(pages, pages', roots, rho)
    ensures |pages'.Keys| == |pages.Keys|
  {
    InjectiveSize(rho);
  }

  lemma GraphOneRole(pages: Pages, ptrmap: Ptrmap, roots: set<nat>, q: nat)
    requires GraphOK(pages, ptrmap, roots) && q in pages
    ensures OneRole(pages[q])
  {}

  lemma OnlyParentPoints(pages: Pages, ptrmap: Ptrmap, roots: set<nat>, p: nat, q: nat)
    requires GraphOK(pages, ptrmap, roots) && p in pages && p !in roots
    requires q in pages && q != ptrmap[p].parent
    ensures forall t :: !PointsTo(pages[q], t, p)
  {
    assert MappedBack(pages, ptrmap, p);
  }

  lemma MovedPagesAre(pages: Pages, ptrmap: Ptrmap, roots: set<nat>, iFrom: nat, iTo: nat, pages': Pages)
    requires GraphOK(pages, ptrmap, roots) && iFrom in pages && iFrom !in roots && iTo !in pages
    requires
      var moved := (map q | q in pages && q != iFrom :: pages[q])[iTo := pages[iFrom]];
      var parent := ptrmap[iFrom].parent;
      parent in moved && pages' == moved[parent := Redirect(moved[parent], iFrom, iTo)]
    ensures pages' == MovedPages(pages, iFrom, iTo) && pages'.Keys == pages.Keys - {iFrom} + {iTo}
  {
    var parent := ptrmap[iFrom].parent;
    assert MappedBack(pages, ptrmap, iFrom);
    forall q | q in pages'
      ensures q in MovedPages(pages, iFrom, iTo) && pages'[q] == MovedPages(pages, iFrom, iTo)[q]
    {
      var q0 := if q == iTo then iFrom else q;
      RedirectIsRenumber(pages, pages[q0], iFrom, iTo);
      if q0 != parent {
        OnlyParentPoints(pages, ptrmap, roots, iFrom, q0);
        RedirectNothing(pages[q0], iFrom, iTo);
      }
    }
  }

  lemma MovedPtrmapFollows(pages: Pages, ptrmap: Ptrmap, roots: set<nat>, iFrom: nat, iTo: nat,
                           mid: Ptrmap, ptrmap': Ptrmap)
    requires GraphOK(pages, ptrmap, roots) && iFrom in pages && iFrom !in roots && iTo !in pages && iTo > 1
    requires ChildrenEntered(pages[iFrom], iTo, ptrmap, mid)
    requires ptrmap' == mid[iTo := ptrmap[iFrom]]
    ensures PtrmapFollows(pages, ptrmap, ptrmap', roots, MoveMap(pages, iFrom, iTo))
    ensures 1 !in ptrmap'
    ensures forall p :: p !in pages && p != iTo ==>
      (p in ptrmap' <==> p in ptrmap) && (p in ptrmap ==> ptrmap'[p] == ptrmap[p])
  {
    var rho := MoveMap(pages, iFrom, iTo);
    assert MappedBack(pages, ptrmap, iFrom);
    assert NotPointedTo(pages[iFrom], iFrom);
    forall p | p in pages && p in ptrmap && p != 1
      ensures rho[p] in ptrmap' && ptrmap'[rho[p]].eType == ptrmap[p].eType
      ensures p !in roots ==> ptrmap'[rho[p]].parent == Renumber(rho, ptrmap[p].parent)
    {
      if p in roots {
        assert RootMapped(pages, ptrmap, p);
        assert NotPointedTo(pages[iFrom], p);
      } else {
        assert MappedBack(pages, ptrmap, p);
        if ptrmap[p].parent != iFrom {
          assert NotPointedTo(pages[iFrom], p);
        }
      }
    }
    assert NotPointedTo(pages[iFrom], 1);
    forall p | p !in pages && p != iTo
      ensures (p in ptrmap' <==> p in ptrmap) && (p in ptrmap ==> ptrmap'[p] == ptrmap[p])
    {
      assert NotPointedTo(pages[iFrom], p);
    }
  }

  lemma NextEntered(pg: Page, pgno: nat, before: Ptrmap, after: Ptrmap)
    requires pg.OverflowPage?
    requires after == if pg.next != 0 then before[pg.next := Entry(Overflow2, pgno)] else before
    ensures ChildrenEntered(pg, pgno, before, after)
  {
    forall p | NotPointedTo(pg, p)
      ensures (p in after <==> p in before) && (p in before ==> after[p] == before[p])
    {
      assert !PointsTo(pg, Overflow2, p);
    }
  }

  lemma MoveCorrect(pages: Pages, ptrmap: Ptrmap, roots: set<nat>, iFrom: nat, iTo: nat,
                    mid: Ptrmap, pages': Pages, ptrmap': Ptrmap)
    requires GraphOK(pages, ptrmap, roots) && 1 in roots
    requires iFrom in pages && iFrom !in roots && iTo !in pages && iTo > 1
    requires ChildrenEntered(pages[iFrom], iTo, ptrmap, mid) && ptrmap' == mid[iTo := ptrmap[iFrom]]
    requires
      var moved := (map q | q in pages && q != iFrom :: pages[q])[iTo := pages[iFrom]];
      var parent := ptrmap[iFrom].parent;
      parent in moved && pages' == moved[parent := Redirect(moved[parent], iFrom, iTo)]
    ensures GraphOK(pages', ptrmap', roots)
    ensures pages'.Keys == pages.Keys - {iFrom} + {iTo}
    ensures Isomorphic(pages, pages', roots, MoveMap(pages, iFrom, iTo))
    ensures forall p :: p !in pages && p != iTo ==>
      (p in ptrmap' <==> p in ptrmap) && (p in ptrmap' ==> ptrmap'[p] == ptrmap[p])
  {
    hide *;
    MovedPagesAre(pages, ptrmap, roots, iFrom, iTo, pages');
    MovedPtrmapFollows(pages, ptrmap, roots, iFrom, iTo, mid, ptrmap');
    GraphClosed(pages, ptrmap, roots);
    MoveIsIsomorphic(pages, iFrom, iTo, roots);
    GraphRenumbered(pages, ptrmap, pages', ptrmap', roots, MoveMap(pages, iFrom, iTo));
  }

  // ----- Counting pages -----

  ghost function OrdinarySet(g: Geometry, n: nat): set<nat>
    requires g.Valid()
  {
    set p: nat | p <= n && g.Ordinary(p)
  }

  lemma OrdinarySetStep(g: Geometry, n: nat)
    requires g.Valid() && n >= 1
    ensures OrdinarySet(g, n) == OrdinarySet(g, n - 1) + (if g.Ordinary(n) then {n} else {})
    ensures n !in OrdinarySet(g, n - 1)
  {
    forall p: nat
      ensures p in OrdinarySet(g, n) <==> p in OrdinarySet(g, n - 1) + (if g.Ordinary(n) then {n} else {})
    {
    }
  }

  lemma {:induction false} OrdinarySetSize(g: Geometry, n: nat)
    requires g.Valid()
    ensures |OrdinarySet(g, n)| == g.OrdinaryCount(n)
  {
    if n == 0 {
      assert OrdinarySet(g, 0) == {};
    } else {
      OrdinarySetSize(g, n - 1);
      OrdinarySetStep(g, n);
    }
  }

  lemma StepBack(g: Geometry, n: nat)
    requires g.Valid() && n >= 1 && !g.Ordinary(n)
    ensures n > 1 && OrdinarySet(g, n - 1) == OrdinarySet(g, n) && g.OrdinaryCount(n - 1) == g.OrdinaryCount(n)
  {
    OrdinarySetStep(g, n);
  }

  lemma SubsetSize(a: set<nat>, b: set<nat>)
    requires a <= b
    ensures |a| <= |b|
    ensures |a| == |b| ==> a == b
  {
    assert b == a + (b - a);
  }

  /**
  The state while a file with ordinary pages all is being compacted to those in front, which are
  the ones up to nFin, and the pages beyond iLast are done.
  */
  ghost predicate CompactingState(all: set<nat>, front: set<nat>, used: set<nat>, ptrmap: Ptrmap, free: set<nat>,
                                  nFin: nat, iLast: nat) {
    && (forall p :: p in front <==> p in all && p <= nFin) && nFin <= iLast
    && used !! free && used + free <= all
    && (forall p :: p in used ==> p <= iLast)
    && |used| == |front| && front <= used + free
    && (forall p :: p in all && nFin < p <= iLast && p !in used ==> p in ptrmap && ptrmap[p].eType == FreePage)
  }

  datatype Db = Db(nPage: nat, pages: Pages, ptrmap: Ptrmap, free: set<nat>)

  /** The database while it is being compacted to nFin pages and the pages beyond iLast are done. */
  ghost predicate Compacting(g: Geometry, db: Db, nFin: nat, iLast: nat, roots: set<nat>) {
    match db case Db(nPage, pages, ptrmap, free) =>
    && g.Valid() && g.Ordinary(nFin) && iLast <= nPage
    && GraphOK(pages, ptrmap, roots) && 1 in roots && roots <= pages.Keys && roots <= OrdinarySet(g, nFin)
    && CompactingState(OrdinarySet(g, nPage), OrdinarySet(g, nFin), pages.Keys, ptrmap, free, nFin, iLast)
  }

  /** The database between two transactions: every ordinary page is either in use or on the freelist. */
  ghost predicate Consistent(g: Geometry, db: Db, roots: set<nat>) {
    match db case Db(nPage, pages, ptrmap, free) =>
    && g.Valid() && g.Ordinary(nPage) && nPage < 0x8000_0000
    && GraphOK(pages, ptrmap, roots) && 1 in roots
    && pages.Keys !! free && pages.Keys + free == OrdinarySet(g, nPage)
    && (forall p :: p in free ==> p in ptrmap && ptrmap[p].eType == FreePage)
  }

  lemma CompactingFacts(g: Geometry, nPage: nat, pages: Pages, ptrmap: Ptrmap, free: set<nat>,
                        nFin: nat, iLast: nat, roots: set<nat>)
    requires Compacting(g, Db(nPage, pages, ptrmap, free), nFin, iLast, roots)
    ensures g.Valid() && GraphOK(pages, ptrmap, roots) && 1 in roots && 0 !in pages
    ensures pages.Keys !! free && forall p :: p in pages.Keys + free ==> 1 <= p <= nPage && g.Ordinary(p)
    ensures nFin <= iLast <= nPage && (iLast > nFin ==> iLast !in roots)
    ensures 1 in pages
  {
    assert forall p :: p in OrdinarySet(g, nPage) ==> g.Ordinary(p);
  }

  /**
  The counting argument of auto-vacuum: as long as a page in use lies beyond nFin, so that it must be
  moved, a page of the freelist lies at or below nFin.
  */
  lemma FreePageExists(g: Geometry, nPage: nat, pages: Pages, ptrmap: Ptrmap, free: set<nat>,
                       nFin: nat, iLast: nat, roots: set<nat>) returns (p: nat)
    requires Compacting(g, Db(nPage, pages, ptrmap, free), nFin, iLast, roots)
    requires iLast in pages && iLast > nFin
    ensures p in free && p <= nFin
  {
    var front, used := OrdinarySet(g, nFin), pages.Keys;
    if front <= used {
      SubsetSize(front, used);
    }
    p :| p in front && p !in used;
  }

  // A page allocated while compacting, once all other pages taken off the freelist lie beyond nFin.
  lemma TargetPage(g: Geometry, nPage: nat, pages: Pages, ptrmap: Ptrmap, free: set<nat>, free': set<nat>,
                   nFin: nat, iLast: nat, roots: set<nat>, p: nat)
    requires Compacting(g, Db(nPage, pages, ptrmap, free), nFin, iLast, roots)
    requires p in free && p <= nFin && p !in free'
    requires forall q :: q in free && q <= nFin && q != p ==> q in free'
    ensures p in OrdinarySet(g, nFin) && p > 1 && p !in pages
    ensures OrdinarySet(g, nFin) <= pages.Keys + free' + {p}
  {}

  // The pointer-map entry of the last page tells whether it is in use.
  lemma LastPageType(g: Geometry, nPage: nat, pages: Pages, ptrmap: Ptrmap, free: set<nat>,
                     nFin: nat, iLast: nat, roots: set<nat>)
    requires Compacting(g, Db(nPage, pages, ptrmap, free), nFin, iLast, roots) && nFin < iLast && g.Ordinary(iLast)
    ensures iLast in ptrmap && (ptrmap[iLast].eType == FreePage <==> iLast !in pages)
  {
    assert iLast in OrdinarySet(g, nPage);
    if iLast in pages {
      assert MappedBack(pages, ptrmap, iLast);
    }
  }

  lemma OrdinaryIff(g: Geometry, p: nat)
    requires g.Valid() && p >= 1
    ensures g.Ordinary(p) <==> !g.IsPtrmapPage(p) && p != g.pendingPage
  {}

  lemma ConsistentLast(g: Geometry, nPage: nat, pages: Pages, ptrmap: Ptrmap, free: set<nat>, roots: set<nat>)
    requires Consistent(g, Db(nPage, pages, ptrmap, free), roots)
    ensures g.Valid() && g.Ordinary(nPage) && nPage < 0x8000_0000 && nPage in pages.Keys + free
    ensures GraphOK(pages, ptrmap, roots)
  {
    assert nPage in OrdinarySet(g, nPage);
  }

  // Nothing has to be done for a last page that is free, or can never be in use.
  lemma SkipUnused(g: Geometry, nPage: nat, pages: Pages, ptrmap: Ptrmap, free: set<nat>, free': set<nat>,
                   nFin: nat, iLast: nat, roots: set<nat>)
    requires Compacting(g, Db(nPage, pages, ptrmap, free), nFin, iLast, roots) && nFin < iLast && iLast !in pages
    requires free' == free || free' == free - {iLast}
    ensures Compacting(g, Db(nPage, pages, ptrmap, free'), nFin, iLast - 1, roots)
  {}

  lemma PageMovedState(all: set<nat>, front: set<nat>, used: set<nat>, used': set<nat>, ptrmap: Ptrmap, ptrmap': Ptrmap,
                       free: set<nat>, free': set<nat>, nFin: nat, iLast: nat, iFree: nat)
    requires CompactingState(all, front, used, ptrmap, free, nFin, iLast) && nFin < iLast && iLast in used
    requires iFree in free && iFree in front && iFree !in free' && free' <= free
    requires front <= used + free' + {iFree} && used' == used - {iLast} + {iFree}
    requires forall p :: p !in used && p != iFree ==>
      (p in ptrmap' <==> p in ptrmap) && (p in ptrmap' ==> ptrmap'[p] == ptrmap[p])
    ensures CompactingState(all, front, used', ptrmap', free', nFin, iLast - 1)
  {}

  lemma PageMoved(g: Geometry, nPage: nat, pages: Pages, pages': Pages, ptrmap: Ptrmap, ptrmap': Ptrmap,
                  free: set<nat>, free': set<nat>, nFin: nat, iLast: nat, iFree: nat, roots: set<nat>)
    requires Compacting(g, Db(nPage, pages, ptrmap, free), nFin, iLast, roots) && nFin < iLast && iLast in pages
    requires iFree in free && iFree in OrdinarySet(g, nFin) && iFree !in free' && free' <= free
    requires OrdinarySet(g, nFin) <= pages.Keys + free' + {iFree}
    requires GraphOK(pages', ptrmap', roots) && pages'.Keys == pages.Keys - {iLast} + {iFree}
    requires forall p :: p !in pages && p != iFree ==>
      (p in ptrmap' <==> p in ptrmap) && (p in ptrmap' ==> ptrmap'[p] == ptrmap[p])
    ensures Compacting(g, Db(nPage, pages', ptrmap', free'), nFin, iLast - 1, roots)
    ensures pages'.Keys !! free'
    ensures free' == free - {iFree} ==> pages'.Keys + free' == pages.Keys + free - {iLast}
    ensures forall p :: p in free' ==> (p in ptrmap' <==> p in ptrmap) && (p in ptrmap' ==> ptrmap'[p] == ptrmap[p])
  {
    hide GraphOK, OrdinarySet, Geometry.Ordinary;
    assert iLast !in roots by { CompactingFacts(g, nPage, pages, ptrmap, free, nFin, iLast, roots); }
    PageMovedState(OrdinarySet(g, nPage), OrdinarySet(g, nFin), pages.Keys, pages'.Keys, ptrmap, ptrmap',
                   free, free', nFin, iLast, iFree);
    hide CompactingState;
  }

  // After a single step of an incremental vacuum nothing is left of the last page.
  lemma ConsistentAfter(g: Geometry, nPage: nat, nPage': nat, pages: Pages, pages': Pages, ptrmap: Ptrmap,
                        ptrmap': Ptrmap,
                        free: set<nat>, free': set<nat>, roots: set<nat>)
    requires Consistent(g, Db(nPage, pages, ptrmap, free), roots)
    requires GraphOK(pages', ptrmap', roots) && free' <= free && pages'.Keys !! free'
    requires pages'.Keys + free' == pages.Keys + free - {nPage}
    requires g.Ordinary(nPage') && nPage' < nPage && OrdinarySet(g, nPage') == OrdinarySet(g, nPage) - {nPage}
    requires forall p :: p in free' ==> (p in ptrmap' <==> p in ptrmap) && (p in ptrmap' ==> ptrmap'[p] == ptrmap[p])
    ensures Consistent(g, Db(nPage', pages', ptrmap', free'), roots)
  {}

  /** All root pages come before all other ordinary pages. */
  ghost predicate RootsInFront(g: Geometry, roots: set<nat>)
    requires g.Valid()
  {
    forall r, p: nat :: r in roots && p <= r && g.Ordinary(p) ==> p in roots
  }

  lemma RootsFit(g: Geometry, used: set<nat>, roots: set<nat>, nFin: nat, r: nat)
    requires g.Valid() && RootsInFront(g, roots) && roots <= used
    requires r in roots && g.Ordinary(r) && |used| == g.OrdinaryCount(nFin)
    ensures r <= nFin
  {
    if r > nFin {
      OrdinarySetSize(g, r);
      assert OrdinarySet(g, r) <= roots;
      SubsetSize(OrdinarySet(g, r), used);
      OrdinaryCountMonotone(g, nFin, r);
    }
  }

  lemma UsedCount(g: Geometry, nPage: nat, pages: Pages, ptrmap: Ptrmap, free: set<nat>, roots: set<nat>)
    requires Consistent(g, Db(nPage, pages, ptrmap, free), roots)
    ensures |pages.Keys| == g.OrdinaryCount(nPage) - |free| && |free| < g.OrdinaryCount(nPage)
  {
    OrdinarySetSize(g, nPage);
    assert |pages.Keys + free| == |pages.Keys| + |free|;
    assert 1 in pages.Keys;
  }

  lemma StartState(all: set<nat>, front: set<nat>, used: set<nat>, ptrmap: Ptrmap, free: set<nat>, nFin: nat,
                   nOrig: nat)
    requires nFin <= nOrig && used !! free && used + free == all && |used| == |front|
    requires forall p :: p in front <==> p in all && p <= nFin
    requires forall p :: p in all ==> p <= nOrig
    requires forall p :: p in free ==> p in ptrmap && ptrmap[p].eType == FreePage
    ensures CompactingState(all, front, used, ptrmap, free, nFin, nOrig)
  {}

  lemma StartCompacting(g: Geometry, nOrig: nat, pages: Pages, ptrmap: Ptrmap, free: set<nat>, nFin: nat,
                        roots: set<nat>)
    requires Consistent(g, Db(nOrig, pages, ptrmap, free), roots) && RootsInFront(g, roots)
    requires g.Ordinary(nFin) && nFin <= nOrig && |pages.Keys| == g.OrdinaryCount(nFin)
    ensures Compacting(g, Db(nOrig, pages, ptrmap, free), nFin, nOrig, roots) && 1 <= nFin
  {
    hide Geometry.PtrmapPageno, GraphOK, CompactingState;
    GraphClosed(pages, ptrmap, roots);
    forall r | r in roots
      ensures r in OrdinarySet(g, nFin)
    {
      assert r in OrdinarySet(g, nOrig);
      RootsFit(g, pages.Keys, roots, nFin, r);
    }
    OrdinarySetSize(g, nFin);
    StartState(OrdinarySet(g, nOrig), OrdinarySet(g, nFin), pages.Keys, ptrmap, free, nFin, nOrig);
  }

  /** When no free page is left, or all pages beyond nFin are done, exactly the first pages are in use. */
  lemma FinishCompacting(g: Geometry, nPage: nat, pages: Pages, ptrmap: Ptrmap, free: set<nat>,
                         nFin: nat, iLast: nat, roots: set<nat>)
    requires Compacting(g, Db(nPage, pages, ptrmap, free), nFin, iLast, roots) && nPage < 0x8000_0000
    requires free == {} || iLast == nFin
    ensures pages.Keys == OrdinarySet(g, nFin)
    ensures Consistent(g, Db(nFin, pages, ptrmap, {}), roots)
  {
    hide Geometry.PtrmapPageno, GraphOK;
    if free == {} {
      SubsetSize(OrdinarySet(g, nFin), pages.Keys);
    } else {
      assert pages.Keys <= OrdinarySet(g, nFin);
      SubsetSize(pages.Keys, OrdinarySet(g, nFin));
    }
  }

  datatype AllocMode = Any | Exact | AtMost

  /** A page number is taken off the free ones: with Exact the wanted one, and with AtMost one that is no greater. */
  ghost predicate Allocation(free: set<nat>, free': set<nat>, nearby: nat, eMode: AllocMode, rc: ResultCode,
                             pgno: nat) {
    && rc == (if eMode == AtMost && forall p :: p in free ==> p > nearby then CORRUPT else OK)
    && (rc == OK ==>
         && pgno in free && free' == free - {pgno}
         && (eMode == AtMost ==> pgno <= nearby)
         && (eMode == Exact && nearby in free ==> pgno == nearby))
  }

  datatype ResultCode = OK | DONE | CORRUPT

  class BtShared {
    const geom: Geometry
    var nPage: nat
    var pages: Pages
    var ptrmap: Ptrmap
    var free: set<nat>          // the pages on the freelist
    var doTruncate: bool

    constructor (geom: Geometry, nPage: nat, pages: Pages, ptrmap: Ptrmap, free: set<nat>)
      ensures this.geom == geom && this.nPage == nPage && this.pages == pages
      ensures this.ptrmap == ptrmap && this.free == free && !doTruncate
    {
      this.geom, this.nPage, this.pages, this.ptrmap, this.free := geom, nPage, pages, ptrmap, free;
      doTruncate := false;
    }

    // Set the pointer-map entries of all pages that page pgno points to.
    method SetChildPtrmaps(pgno: nat)
      requires pgno in pages && pages[pgno].Btree?
      requires OneRole(pages[pgno]) && DistinctPointers(pages[pgno])
      modifies this`ptrmap
      ensures ChildrenEntered(pages[pgno], pgno, old(ptrmap), ptrmap)
    {
      var pg := pages[pgno];
      for i := 0 to |pg.cells|
        invariant ptrmap == EnterCells(pg, i, pgno, old(ptrmap))
      {
        if pg.cells[i].overflow != 0 {
          ptrmap := ptrmap[pg.cells[i].overflow := Entry(Overflow1, pgno)];
        }
        if !pg.leaf {
          ptrmap := ptrmap[pg.cells[i].child := Entry(BtreeChild, pgno)];
        }
      }
      if !pg.leaf {
        ptrmap := ptrmap[pg.rightChild := Entry(BtreeChild, pgno)];
      }
      EnterPage(pg, pgno, old(ptrmap), ptrmap);
    }

    // Somewhere on page pgno is a pointer of type eType to page iFrom. Make it point to iTo.
    method ModifyPagePointer(pgno: nat, iFrom: nat, iTo: nat, eType: PtrType) returns (rc: ResultCode)
      requires pgno in pages && iFrom != 0 && eType in {Overflow1, Overflow2, BtreeChild}
      requires pages[pgno].OverflowPage? <==> eType == Overflow2
      requires eType == BtreeChild ==> !pages[pgno].leaf
      requires DistinctPointers(pages[pgno]) && OneRole(pages[pgno])
      modifies this`pages
      ensures rc == if PointsTo(old(pages)[pgno], eType, iFrom) then OK else CORRUPT
      ensures pages == if rc == OK then old(pages)[pgno := Redirect(old(pages)[pgno], iFrom, iTo)] else old(pages)
    {
      var pg := pages[pgno];
      if eType == Overflow2 {
        if pg.next != iFrom { return CORRUPT; }
        pages := pages[pgno := pg.(next := iTo)];
        return OK;
      }
      var i := 0;
      while i < |pg.cells|
        invariant 0 <= i <= |pg.cells| && pages == old(pages)
        invariant forall j :: 0 <= j < i ==>
          if eType == Overflow1 then pg.cells[j].overflow != iFrom else pg.cells[j].child != iFrom
      {
        if eType == Overflow1 {
          if pg.cells[i].overflow == iFrom {
            RedirectOverflow(pg, i, iFrom, iTo);
            pages := pages[pgno := pg.(cells := pg.cells[i := pg.cells[i].(overflow := iTo)])];
            break;
          }
        } else {
          if pg.cells[i].child == iFrom {
            RedirectChild(pg, i, iFrom, iTo);
            pages := pages[pgno := pg.(cells := pg.cells[i := pg.cells[i].(child := iTo)])];
            break;
          }
        }
        i := i + 1;
      }
      if i == |pg.cells| {
        if eType != BtreeChild || pg.rightChild != iFrom {
          return CORRUPT;
        }
        RedirectRight(pg, iFrom, iTo);
        pages := pages[pgno := pg.(rightChild := iTo)];
      }
      return OK;
    }

    // Move page iDbPage, not a root page, to the unused page number iFreePage.
    method RelocatePage(iDbPage: nat, eType: PtrType, iPtrPage: nat, iFreePage: nat, ghost roots: set<nat>)
      returns (rc: ResultCode)
      requires GraphOK(pages, ptrmap, roots) && 1 in roots
      requires iDbPage in pages && iDbPage !in roots && ptrmap[iDbPage] == Entry(eType, iPtrPage)
      requires iFreePage !in pages && iFreePage > 1
      modifies this`pages, this`ptrmap
      ensures rc == OK
      ensures GraphOK(pages, ptrmap, roots)
      ensures pages.Keys == old(pages.Keys) - {iDbPage} + {iFreePage}
      ensures Isomorphic(old(pages), pages, roots, MoveMap(old(pages), iDbPage, iFreePage))
      ensures forall p :: p !in old(pages) && p != iFreePage ==>
        (p in ptrmap <==> p in old(ptrmap)) && (p in ptrmap ==> ptrmap[p] == old(ptrmap[p]))
    {
      ghost var pages0, ptrmap0 := pages, ptrmap;
      assert MappedBack(pages, ptrmap, iDbPage);
      GraphOneRole(pages, ptrmap, roots, iDbPage);
      GraphOneRole(pages, ptrmap, roots, iPtrPage);
      var pg := pages[iDbPage];
      pages := (map q | q in pages && q != iDbPage :: pages[q])[iFreePage := pg];

      if eType == BtreeChild {
        SetChildPtrmaps(iFreePage);
      } else if pg.next != 0 {
        ptrmap := ptrmap[pg.next := Entry(Overflow2, iFreePage)];
      }
      ghost var mid := ptrmap;

      rc := ModifyPagePointer(iPtrPage, iDbPage, iFreePage, eType);
      if rc == OK {
        ptrmap := ptrmap[iFreePage := Entry(eType, iPtrPage)];
      }
      if pg.OverflowPage? { NextEntered(pg, iFreePage, ptrmap0, mid); }
      MoveCorrect(pages0, ptrmap0, roots, iDbPage, iFreePage, mid, pages, ptrmap);
    }

    // Take a page off the freelist (allocateBtreePage on a nonempty freelist).
    method AllocateBtreePage(nearby: nat, eMode: AllocMode) returns (rc: ResultCode, pgno: nat)
      requires free != {}
      modifies this`free
      ensures Allocation(old(free), free, nearby, eMode, rc, pgno)
    {
      rc, pgno := OK, 0;
      if eMode == AtMost {
        if p :| p in free && p <= nearby {
          pgno := p;
        } else {
          return CORRUPT, 0;
        }
      } else if eMode == Exact && nearby in free {
        pgno := nearby;
      } else {
        pgno :| pgno in free;
      }
      free := free - {pgno};
    }

    /**
    One step of a vacuum: make the last page unused. With bCommit the caller promises to go on
    until the file has nFin pages, and the freelist may be left with pages that are to be cut off.
    */
    method IncrVacuumStep(nFin: nat, iLastPg: nat, bCommit: bool, ghost roots: set<nat>)
      returns (rc: ResultCode, ghost rho: map<nat, nat>, ghost iLast: nat)
      requires nFin < iLastPg && Compacting(geom, Db(nPage, pages, ptrmap, free), nFin, iLastPg, roots)
      requires !bCommit ==> Consistent(geom, Db(nPage, pages, ptrmap, free), roots) && iLastPg == nPage
      modifies this
      ensures rc == OK || (rc == DONE && free == {} == old(free) && pages == old(pages) && ptrmap == old(ptrmap))
      ensures iLast == if rc == OK then iLastPg - 1 else iLastPg
      ensures bCommit || rc == DONE ==> nPage == old(nPage)
      ensures rc == DONE || bCommit ==> Compacting(geom, Db(nPage, pages, ptrmap, free), nFin, iLast, roots)
      ensures rc == OK && !bCommit ==> Consistent(geom, Db(nPage, pages, ptrmap, free), roots)
      ensures doTruncate == (old(doTruncate) || (rc == OK && !bCommit))
      ensures rc == OK && !bCommit ==>
        geom.Valid() && geom.OrdinaryCount(nPage) == geom.OrdinaryCount(old(nPage)) - 1
      ensures Isomorphic(old(pages), pages, roots, rho)
    {
      hide *;
      rc, iLast := OK, iLastPg - 1;
      ghost var db := (pages, ptrmap, free);
      CompactingFacts(geom, nPage, pages, ptrmap, free, nFin, iLastPg, roots);
      OrdinaryIff(geom, iLastPg);
      if !bCommit { ConsistentLast(geom, nPage, pages, ptrmap, free, roots); }
      IsomorphicIdentity(pages, roots);
      rho := map p | p in pages :: p;
      if !geom.IsPtrmapPage(iLastPg) && iLastPg != geom.pendingPage {
        if free == {} {
          return DONE, rho, iLastPg;
        }
        LastPageType(geom, nPage, pages, ptrmap, free, nFin, iLastPg, roots);
        var Entry(eType, iPtrPage) := ptrmap[iLastPg];
        if eType == FreePage {
          if !bCommit {
            var iFreePg;
            rc, iFreePg := AllocateBtreePage(iLastPg, Exact);
          }
          SkipUnused(geom, nPage, pages, ptrmap, db.2, free, nFin, iLastPg, roots);
        } else {
          rc, rho := MoveLastPage(nFin, iLastPg, bCommit, eType, iPtrPage, roots);
        }
      } else {
        SkipUnused(geom, nPage, pages, ptrmap, free, free, nFin, iLastPg, roots);
      }
      if !bCommit {
        nPage := PreviousOrdinary(iLastPg);
        doTruncate := true;
        ConsistentAfter(geom, iLastPg, nPage, db.0, pages, db.1, ptrmap, db.2, free, roots);
      }
    }

    // Move the last page, which is in use, to a page at or below nFin.
    method MoveLastPage(nFin: nat, iLastPg: nat, bCommit: bool, eType: PtrType, iPtrPage: nat, ghost roots: set<nat>)
      returns (rc: ResultCode, ghost rho: map<nat, nat>)
      requires nFin < iLastPg && Compacting(geom, Db(nPage, pages, ptrmap, free), nFin, iLastPg, roots)
        && iLastPg in pages
      requires iLastPg in ptrmap && ptrmap[iLastPg] == Entry(eType, iPtrPage)
      modifies this`pages, this`ptrmap, this`free
      ensures rc == OK && Compacting(geom, Db(nPage, pages, ptrmap, free), nFin, iLastPg - 1, roots)
      ensures GraphOK(pages, ptrmap, roots) && pages.Keys !! free
      ensures Isomorphic(old(pages), pages, roots, rho)
      ensures free <= old(free) && (!bCommit ==> pages.Keys + free == old(pages.Keys + free) - {iLastPg})
      ensures forall p :: p in free ==>
        (p in ptrmap <==> p in old(ptrmap)) && (p in ptrmap ==> ptrmap[p] == old(ptrmap[p]))
    {
      hide *;
      ghost var db := (pages, ptrmap, free);
      CompactingFacts(geom, nPage, pages, ptrmap, free, nFin, iLastPg, roots);
      var iFreePg := FreePageToMoveTo(nFin, iLastPg, bCommit, roots);
      rc := RelocatePage(iLastPg, eType, iPtrPage, iFreePg, roots);
      rho := MoveMap(db.0, iLastPg, iFreePg);
      PageMoved(geom, nPage, db.0, pages, db.1, ptrmap, db.2, free, nFin, iLastPg, iFreePg, roots);
    }

    // Find the page to move the last page to: with bCommit any freelist page at or below nFin,
    // dropping the pages beyond nFin that come before it; otherwise one allocated with BTALLOC_LE.
    method FreePageToMoveTo(nFin: nat, iLastPg: nat, bCommit: bool, ghost roots: set<nat>) returns (iFreePg: nat)
      requires nFin < iLastPg && Compacting(geom, Db(nPage, pages, ptrmap, free), nFin, iLastPg, roots)
        && iLastPg in pages
      modifies this`free
      ensures iFreePg > 1 && iFreePg !in pages
      ensures iFreePg in old(free) && iFreePg in OrdinarySet(geom, nFin) && iFreePg !in free && free <= old(free)
      ensures OrdinarySet(geom, nFin) <= pages.Keys + free + {iFreePg}
      ensures !bCommit ==> free == old(free) - {iFreePg}
    {
      hide *;
      ghost var target := FreePageExists(geom, nPage, pages, ptrmap, free, nFin, iLastPg, roots);
      ghost var free0 := free;
      var rc;
      rc, iFreePg := AllocateBtreePage(if bCommit then 0 else nFin, if bCommit then Any else AtMost);
      while bCommit && iFreePg > nFin
        invariant iFreePg in free0 && iFreePg !in free && free <= free0
        invariant forall q :: q in free0 && q <= nFin && q != iFreePg ==> q in free
        invariant !bCommit ==> iFreePg <= nFin && free == free0 - {iFreePg}
        decreases free
      {
        assert target in free;
        rc, iFreePg := AllocateBtreePage(0, Any);
      }
      TargetPage(geom, nPage, pages, ptrmap, free0, free, nFin, iLastPg, roots, iFreePg);
    }

    // Step back over pointer-map pages and the pending-byte page.
    method PreviousOrdinary(n: nat) returns (m: nat)
      requires geom.Valid() && n > 1 && geom.Ordinary(n)
      ensures geom.Ordinary(m) && m < n
      ensures geom.OrdinaryCount(m) == geom.OrdinaryCount(n) - 1
      ensures OrdinarySet(geom, m) == OrdinarySet(geom, n) - {n}
    {
      hide Geometry.PtrmapPageno, OrdinarySet;
      OrdinarySetStep(geom, n);
      m := n - 1;
      while m == geom.pendingPage || geom.IsPtrmapPage(m)
        invariant 1 <= m < n
        invariant geom.OrdinaryCount(m) == geom.OrdinaryCount(n) - 1
        invariant OrdinarySet(geom, m) == OrdinarySet(geom, n) - {n}
        decreases m
      {
        StepBack(geom, m);
        m := m - 1;
      }
    }

    /**
    Vacuum at commit. All pages in use are moved to the front, and the file ends at the last of them:
    the graph of pages is the old one up to renumbering, and the pointer map describes it.
    */
    method AutoVacuumCommit(ghost roots: set<nat>) returns (rc: ResultCode, ghost rho: map<nat, nat>)
      requires Consistent(geom, Db(nPage, pages, ptrmap, free), roots) && RootsInFront(geom, roots)
      modifies this
      ensures rc == OK && free == {}
      ensures Consistent(geom, Db(nPage, pages, ptrmap, free), roots)
      ensures pages.Keys == OrdinarySet(geom, nPage) && nPage <= old(nPage)
      ensures Isomorphic(old(pages), pages, roots, rho)
      ensures doTruncate == (old(doTruncate) || old(free) != {})
      ensures old(free) == {} ==> nPage == old(nPage) && pages == old(pages)
    {
      hide *;
      rc := OK;
      var nOrig, nFree := nPage, |free|;
      ConsistentLast(geom, nPage, pages, ptrmap, free, roots);
      UsedCount(geom, nPage, pages, ptrmap, free, roots);
      var nFin := FinalDbSize(geom, nOrig, nFree);
      if nFree == 0 { OrdinaryPageUnique(geom, nFin, nOrig); }
      StartCompacting(geom, nOrig, pages, ptrmap, free, nFin, roots);
      ghost var iLast;
      rc, rho, iLast := CompactTo(nFin, roots);
      FinishCompacting(geom, nOrig, pages, ptrmap, free, nFin, iLast, roots);
      if (rc == DONE || rc == OK) && nFree > 0 {
        rc := OK;
        free := {};
        nPage := nFin;
        doTruncate := true;
      }
    }

    // The loop of a commit's vacuum: step from the last page of the file down to page nFin.
    method CompactTo(nFin: nat, ghost roots: set<nat>)
      returns (rc: ResultCode, ghost rho: map<nat, nat>, ghost iLast: nat)
      requires Compacting(geom, Db(nPage, pages, ptrmap, free), nFin, nPage, roots)
      modifies this
      ensures nFin <= iLast && nPage == old(nPage)
      ensures Compacting(geom, Db(nPage, pages, ptrmap, free), nFin, iLast, roots)
      ensures Isomorphic(old(pages), pages, roots, rho)
      ensures if rc == OK then iLast == nFin else rc == DONE && free == {}
      ensures nFin == nPage ==> rc == OK && free == old(free) && pages == old(pages)
      ensures doTruncate == old(doTruncate)
    {
      hide *;
      ghost var pages0 := pages;
      CompactingFacts(geom, nPage, pages, ptrmap, free, nFin, nPage, roots);
      IsomorphicIdentity(pages, roots);
      GraphClosed(pages, ptrmap, roots);
      rc, rho := OK, map p | p in pages :: p;
      var iFree := nPage;
      iLast := iFree;
      while iFree > nFin && rc == OK
        invariant nFin <= iFree <= iLast <= nPage == old(nPage)
        invariant if rc == OK then iFree == iLast else rc == DONE && free == {}
        invariant Compacting(geom, Db(nPage, pages, ptrmap, free), nFin, iLast, roots)
        invariant Isomorphic(pages0, pages, roots, rho)
        invariant iFree == old(nPage) ==> rc == OK && free == old(free) && pages == old(pages)
        invariant doTruncate == old(doTruncate)
        decreases iFree
      {
        ghost var pages1, rho1 := pages, rho;
        ghost var rho2;
        rc, rho2, iLast := IncrVacuumStep(nFin, iFree, true, roots);
        rho := Compose(rho1, rho2);
        IsomorphicCompose(pages0, pages1, pages, roots, rho1, rho2);
        iFree := iFree - 1;
      }
    }

    /** One step of an incremental vacuum: the file gets shorter by one ordinary page. */
    method IncrVacuum(ghost roots: set<nat>) returns (rc: ResultCode, ghost rho: map<nat, nat>)
      requires Consistent(geom, Db(nPage, pages, ptrmap, free), roots) && RootsInFront(geom, roots)
      modifies this
      ensures rc == if old(free) == {} then DONE else OK
      ensures Consistent(geom, Db(nPage, pages, ptrmap, free), roots)
      ensures Isomorphic(old(pages), pages, roots, rho)
      ensures geom.OrdinaryCount(nPage) == geom.OrdinaryCount(old(nPage)) - (if rc == OK then 1 else 0)
      ensures |free| == old(|free|) - (if rc == OK then 1 else 0)
      ensures if rc == OK then doTruncate else unchanged(this)
    {
      hide *;
      var nOrig, nFree := nPage, |free|;
      ConsistentLast(geom, nPage, pages, ptrmap, free, roots);
      UsedCount(geom, nPage, pages, ptrmap, free, roots);
      var nFin := FinalDbSize(geom, nOrig, nFree);
      if nFree > 0 {
        ghost var pages0 := pages;
        StartCompacting(geom, nOrig, pages, ptrmap, free, nFin, roots);
        ghost var iLast;
        rc, rho, iLast := IncrVacuumStep(nFin, nOrig, false, roots);
        UsedCount(geom, nPage, pages, ptrmap, free, roots);
        IsomorphicSize(pages0, pages, roots, rho);
      } else {
        GraphClosed(pages, ptrmap, roots);
        IsomorphicIdentity(pages, roots);
        rho := map p | p in pages :: p;
        rc := DONE;
      }
    }
  }

  // ----- What a reader of the database sees -----

  /** An entry of a table as read from the file: the bytes on the b-tree page, then those of the overflow chain. */
  function Chain(pages: Pages, p: nat, fuel: nat): Bytes
    decreases fuel
  {
    if fuel == 0 || p !in pages || !pages[p].OverflowPage? then []
    else pages[p].content + Chain(pages, pages[p].next, fuel - 1)
  }

  /** The entries of the tree below page p in order, visiting at most fuel levels. */
  function Entries(pages: Pages, p: nat, fuel: nat): seq<(Bytes, Bytes)>
    decreases fuel, 1, 0
  {
    if fuel == 0 || p !in pages || !pages[p].Btree? then []
    else
      EntriesOfCells(pages, pages[p], |pages[p].cells|, fuel)
      + (if pages[p].leaf then [] else Entries(pages, pages[p].rightChild, fuel - 1))
  }

  function EntriesOfCells(pages: Pages, pg: Page, n: nat, fuel: nat): seq<(Bytes, Bytes)>
    requires pg.Btree? && n <= |pg.cells| && fuel > 0
    decreases fuel, 0, n
  {
    if n == 0 then []
    else
      EntriesOfCells(pages, pg, n - 1, fuel)
      + (if pg.leaf then [] else Entries(pages, pg.cells[n - 1].child, fuel - 1))
      + [(pg.cells[n - 1].content, Chain(pages, pg.cells[n - 1].overflow, fuel))]
  }

  lemma PageRenumbered(p0: Pages, p1: Pages, roots: set<nat>, rho: map<nat, nat>, p: nat)
    requires Isomorphic(p0, p1, roots, rho) && p in p0
    ensures Renumber(rho, p) in p1 && p1[Renumber(rho, p)] == RenumberPage(rho, p0[p])
    ensures Renumber(rho, 0) == 0 && (p in roots ==> Renumber(rho, p) == p)
  {
    assert rho[p] in rho.Values;
  }

  // The child, overflow and next pointers of a page lead to pages of the graph, or are zero.
  lemma PointersClosed(pages: Pages, p: nat)
    requires Closed(pages) && p in pages
    ensures
      var pg := pages[p];
      match pg
      case Btree(leaf, cells, rightChild) =>
        && (forall i :: 0 <= i < |cells| ==>
             && (cells[i].overflow == 0 || cells[i].overflow in pages)
             && (leaf || cells[i].child == 0 || cells[i].child in pages))
        && (leaf || rightChild == 0 || rightChild in pages)
      case OverflowPage(next, content) => next == 0 || next in pages
  {
    var pg := pages[p];
    match pg
    case Btree(leaf, cells, rightChild) =>
      forall i | 0 <= i < |cells|
        ensures cells[i].overflow == 0 || cells[i].overflow in pages
        ensures leaf || cells[i].child == 0 || cells[i].child in pages
      {
        assert cells[i].overflow != 0 ==> PointsTo(pg, Overflow1, cells[i].overflow);
        assert !leaf && cells[i].child != 0 ==> PointsTo(pg, BtreeChild, cells[i].child);
      }
      assert !leaf && rightChild != 0 ==> PointsTo(pg, BtreeChild, rightChild);
    case OverflowPage(next, content) =>
      assert next != 0 ==> PointsTo(pg, Overflow2, next);
  }

  lemma {:induction false} ChainRenumbered(p0: Pages, p1: Pages, roots: set<nat>, rho: map<nat, nat>, p: nat, fuel: nat)
    requires Isomorphic(p0, p1, roots, rho) && Closed(p0) && 0 !in p1 && 0 !in p0 && (p == 0 || p in p0)
    ensures Chain(p1, Renumber(rho, p), fuel) == Chain(p0, p, fuel)
    decreases fuel
  {
    hide Isomorphic, Closed;
    if p != 0 {
      PageRenumbered(p0, p1, roots, rho, p);
      if fuel != 0 && p0[p].OverflowPage? {
        PointersClosed(p0, p);
        ChainRenumbered(p0, p1, roots, rho, p0[p].next, fuel - 1);
      }
    } else {
      ZeroStays(p0, p1, roots, rho);
    }
  }

  lemma ZeroStays(p0: Pages, p1: Pages, roots: set<nat>, rho: map<nat, nat>)
    requires Isomorphic(p0, p1, roots, rho)
    ensures Renumber(rho, 0) == 0
  {}

  /**
  Vacuuming does not change what a table contains: renumbered pages hold the same entries in the
  same order, and a root page keeps its number.
  */
  lemma {:induction false} EntriesRenumbered(p0: Pages, p1: Pages, roots: set<nat>, rho: map<nat, nat>, p: nat,
                                             fuel: nat)
    requires Isomorphic(p0, p1, roots, rho) && Closed(p0) && 0 !in p1 && 0 !in p0 && (p == 0 || p in p0)
    ensures Entries(p1, Renumber(rho, p), fuel) == Entries(p0, p, fuel)
    ensures p in roots ==> Renumber(rho, p) == p
    decreases fuel, 2
  {
    hide Isomorphic, Closed, RenumberPage;
    RootStays(p0, p1, roots, rho, p);
    if p == 0 {
      ZeroStays(p0, p1, roots, rho);
    } else if fuel != 0 {
      PageRenumbered(p0, p1, roots, rho, p);
      EntriesOfPageRenumbered(p0, p1, roots, rho, p, fuel);
    }
  }

  lemma {:induction false} EntriesOfPageRenumbered(p0: Pages, p1: Pages, roots: set<nat>, rho: map<nat, nat>,
                                                   p: nat, fuel: nat)
    requires Isomorphic(p0, p1, roots, rho) && Closed(p0) && 0 !in p1 && 0 !in p0 && p in p0 && fuel > 0
    requires Renumber(rho, p) in p1 && p1[Renumber(rho, p)] == RenumberPage(rho, p0[p])
    ensures Entries(p1, Renumber(rho, p), fuel) == Entries(p0, p, fuel)
    decreases fuel, 1
  {
    hide Isomorphic, Closed;
    if p0[p].Btree? {
      EntriesOfCellsRenumbered(p0, p1, roots, rho, p, |p0[p].cells|, fuel);
      PointersClosed(p0, p);
      if !p0[p].leaf {
        EntriesRenumbered(p0, p1, roots, rho, p0[p].rightChild, fuel - 1);
      }
    }
  }

  lemma RootStays(p0: Pages, p1: Pages, roots: set<nat>, rho: map<nat, nat>, p: nat)
    requires Isomorphic(p0, p1, roots, rho)
    ensures p in roots ==> Renumber(rho, p) == p
  {}

  lemma {:induction false} EntriesOfCellsRenumbered(p0: Pages, p1: Pages, roots: set<nat>, rho: map<nat, nat>,
                                                    p: nat, n: nat, fuel: nat)
    requires Isomorphic(p0, p1, roots, rho) && Closed(p0) && 0 !in p1 && 0 !in p0
    requires p in p0 && p0[p].Btree? && n <= |p0[p].cells| && fuel > 0
    ensures EntriesOfCells(p1, RenumberPage(rho, p0[p]), n, fuel) == EntriesOfCells(p0, p0[p], n, fuel)
    decreases fuel, 0, n
  {
    hide Isomorphic, Closed;
    if n != 0 {
      EntriesOfCellsRenumbered(p0, p1, roots, rho, p, n - 1, fuel);
      PointersClosed(p0, p);
      var c := p0[p].cells[n - 1];
      ChainRenumbered(p0, p1, roots, rho, c.overflow, fuel);
      if !p0[p].leaf {
        EntriesRenumbered(p0, p1, roots, rho, c.child, fuel - 1);
      }
    }
  }
}
