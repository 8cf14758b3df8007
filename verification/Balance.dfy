/**
Restoring the balance of a tree after a change of one page (balance, balance_quick, balance_deeper), from that page
up to the root.
*/
module Balance {
  import opened Tree
  import opened Packing
  import opened Redistribution
  import opened Zipper

  /** The space for cells on page t; the root may hold the file header as well. */
  function Room(fmt: Format, ctx: Ctx, t: Node): int {
    fmt.Capacity(t.Leaf?) - if ctx.Top? then fmt.hdr else 0
  }

  /**
  Everything outside of the current page, whose height is h, is finished. Only the page at depth d may hold up to a
  third more than fits.
  */
  ghost predicate CtxSound(fmt: Format, ctx: Ctx, h: nat, d: int) {
    ctx.Under? ==>
      && ctx.page.Interior? && ctx.n <= |ctx.page.slots|
      && (forall i :: 0 <= i <= |ctx.page.slots| && i != ctx.n ==>
            ctx.page.Child(i).NCell() > 0 && Sound(fmt, ctx.page.Child(i), h))
      && (ctx.up.Under? ==> |ctx.page.slots| > 0)
      && (if ctx.up.Depth() == d then 3 * Content(fmt, ctx.page) <= 4 * fmt.Capacity(false)
          else Content(fmt, ctx.page) <= Room(fmt, ctx.up, ctx.page))
      && CtxSound(fmt, ctx.up, h + 1, d)
  }

  // The number of cells on the root.
  function RootCells(ctx: Ctx): nat
    requires IsCtx(ctx) && ctx.Under?
  {
    if ctx.up.Top? then |ctx.page.slots| else RootCells(ctx.up)
  }

  // On a leaf of a rowid tree: without cell x the page fits.
  ghost predicate OverBy(fmt: Format, t: Node, x: nat) {
    t.Leaf? && x < |t.cells|
      && Bytes(fmt, true, Items(t)[..x]) + Bytes(fmt, true, Items(t)[x + 1..]) <= fmt.Capacity(true)
  }

  /** The state of a balancing operation: over tells that the current page holds more than fits (cell x, on a leaf). */
  ghost predicate Unbalanced(fmt: Format, ctx: Ctx, cur: Node, h: nat, d: int, over: bool, x: nat, es: seq<Cell>) {
    && fmt.Valid() && IsCtx(ctx) && CtxSound(fmt, ctx, h, d) && ChildrenSound(fmt, cur, h) && Splits(fmt, cur, 3)
    && Entries(fmt.intKey, Plug(ctx, cur)) == es
    && (over ==> cur.NCell() > 0 && (fmt.LeafData(cur.Leaf?) ==> OverBy(fmt, cur, x)))
    && (!over ==> Content(fmt, cur) <= Room(fmt, ctx, cur))
    && (over && !(ctx.Under? && ctx.up.Top? && fmt.hdr > 0) ==> Content(fmt, cur) > Room(fmt, ctx, cur))
    && (fmt.hdr == 0 ==> if ctx.Top? then cur.Leaf? || cur.NCell() > 0
                         else RootCells(ctx) > 0 || (ctx.up.Top? && cur.NCell() > 0 && over))
  }

  /** Whether the separators of a rowid tree will be right once it has been balanced, where that is known. */
  datatype Seps = Right | Wrong | Unclear

  // What is known of the separators above a leaf that holds too much: of those that do not give way to new ones.
  ghost predicate Stays(es: seq<Cell>, ctx: Ctx, cur: Node, bBulk: bool, right: bool)
    requires IsCtx(ctx) && ctx.Under?
  {
    var p, n, o := SetChild(ctx.page, ctx.n, cur), ctx.n, |Ahead(true, ctx.up)|;
    && p.Interior? && |p.slots| == |ctx.page.slots|
    && var m, above := if Mends(|p.slots|, n, bBulk) then n + 1 else n, CtxSep(es, ctx.up, |Entries(true, p)|);
      if right then RunSep(es, o, p.slots[..n]) && RestSep(es, ChildEnd(o, p, m), p, m) && above
      else !above || (m == n && !RestSep(es, ChildEnd(o, p, n), p, n))
  }

  /** The separators at some stage of balancing. */
  ghost predicate Parted(fmt: Format, ctx: Ctx, cur: Node, over: bool, bBulk: bool, es: seq<Cell>, sep: Seps) {
    && IsCtx(ctx)
    && (fmt.intKey && !sep.Unclear? ==>
         && Ascending(es)
         && if cur.Leaf? && over && ctx.Under? then Stays(es, ctx, cur, bBulk, sep.Right?)
            else (SepAll(es, 0, Plug(ctx, cur)) <==> sep.Right?) && (cur.Leaf? ==> sep.Right?))
  }

  /** Every page fits, and none but a root that is a leaf, or that holds the file header, is empty. */
  ghost predicate Fitted(fmt: Format, root: Node, h: nat) {
    && ChildrenSound(fmt, root, h) && Content(fmt, root) + fmt.hdr <= fmt.Capacity(root.Leaf?)
    && (fmt.hdr == 0 ==> root.Leaf? || root.NCell() > 0)
  }

  /** A finished tree: the pages fit, and the separators of a rowid tree are right. */
  ghost predicate Finished(fmt: Format, root: Node, h: nat) {
    Fitted(fmt, root, h) && (fmt.intKey ==> Ascending(Entries(true, root)) && Separated(root))
  }

  // ----- One page up -----

  lemma ParentFacts(fmt: Format, ctx: Ctx, cur: Node, h: nat, d: int, over: bool, x: nat, es: seq<Cell>)
    requires Unbalanced(fmt, ctx, cur, h, d, over, x, es) && ctx.Under?
    ensures ctx.page.Interior? && ctx.n <= |ctx.page.slots|
    ensures var p := SetChild(ctx.page, ctx.n, cur);
      && p.Interior? && |p.slots| == |ctx.page.slots| && p.Child(ctx.n) == cur
      && Family(fmt, p, h, ctx.n)
      && 3 * Content(fmt, p) <= 4 * fmt.Capacity(false)
      && Plug(ctx, cur) == Plug(ctx.up, p)
  {
    hide Sound, ChildrenSound, Splits, SepAll, Entries, Bytes;
    var p := SetChild(ctx.page, ctx.n, cur);
    AssembleChild(ctx.page, ctx.n, ctx.n, [], cur, ctx.n);
    forall i | 0 <= i <= |p.slots| && i != ctx.n
      ensures p.Child(i).NCell() > 0 && Sound(fmt, p.Child(i), h)
    {
      AssembleChild(ctx.page, ctx.n, ctx.n, [], cur, i);
    }
    AssembleContent(fmt, ctx.page, ctx.n, ctx.n, [], cur);
    assert ctx.page.slots[ctx.n..ctx.n] == [];
    NoBytes(fmt);
  }

  lemma NoBytes(fmt: Format)
    ensures Bytes(fmt, false, []) == 0
  {}

  // The entries of the parent within the whole tree.
  lemma ParentStandsAt(intKey: bool, ctx: Ctx, p: Node, es: seq<Cell>)
    requires IsCtx(ctx) && Entries(intKey, Plug(ctx, p)) == es
    ensures intKey ==> StandsAt(es, |Ahead(true, ctx)|, Entries(true, p))
  {
    hide Entries, Ahead, Behind, Plug, StandsAt;
    if intKey {
      PlugEntries(true, ctx, p);
      StandsAtZero(es);
      MiddleStandsAt(es, 0, Ahead(true, ctx), Entries(true, p), Behind(true, ctx));
    }
  }

  lemma StandsAtZero(es: seq<Cell>)
    ensures StandsAt(es, 0, es)
  {}

  // A page that has the same entries takes the place of another.
  lemma PlugSame(intKey: bool, ctx: Ctx, p: Node, p': Node)
    requires IsCtx(ctx) && Entries(intKey, p') == Entries(intKey, p)
    ensures Entries(intKey, Plug(ctx, p')) == Entries(intKey, Plug(ctx, p))
  {
    hide Entries, Ahead, Behind, Plug;
    PlugEntries(intKey, ctx, p);
    PlugEntries(intKey, ctx, p');
  }

  // ----- Separators, one page up -----

  // The separators behind a later child are among those behind an earlier one.
  lemma RestSepLater(es: seq<Cell>, o: nat, p: Node, n: nat, m: nat)
    requires p.Interior? && n <= m <= |p.slots| && RestSep(es, ChildEnd(o, p, n), p, n)
    ensures RestSep(es, ChildEnd(o, p, m), p, m)
  {
    hide Flat, Entries, RunSep, SepAll, Cuts;
    if n < m < |p.slots| {
      var mid, post := p.slots[n + 1..m], p.slots[m + 1..];
      assert p.slots[n + 1..] == mid + [p.slots[m]] + post;
      RunSepConcat(es, ChildEnd(o, p, n), mid + [p.slots[m]], post);
      RunSepSnoc(es, ChildEnd(o, p, n), mid, p.slots[m]);
      FlatConcat(true, false, mid + [p.slots[m]], post);
      FlatPart(p, n + 1, m);
      FlatOfNext(p, n);
      FlatSnoc(true, false, mid, p.slots[m]);
    }
  }

  // What stays right, and what stays wrong, is right or wrong after the leaves have been balanced.
  lemma StaysKept(es: seq<Cell>, ctx: Ctx, cur: Node, bBulk: bool, right: bool, a: nat, m: nat)
    requires IsCtx(ctx) && ctx.Under? && Stays(es, ctx, cur, bBulk, right) && cur.Leaf?
    requires a <= ctx.n <= m <= |ctx.page.slots| && (m > ctx.n <==> Mends(|ctx.page.slots|, ctx.n, bBulk))
    requires SetChild(ctx.page, ctx.n, cur).Child(m).Leaf?
    ensures var p := SetChild(ctx.page, ctx.n, cur);
      && p.Interior? && |p.slots| == |ctx.page.slots|
      && (right <==> KeptSep(es, |Ahead(true, ctx.up)|, p, a, m) && CtxSep(es, ctx.up, |Entries(true, p)|))
  {
    hide Flat, Entries, RunSep, RestSep, CtxSep, SetChild, Ahead, ChildEnd;
    var p, n, o := SetChild(ctx.page, ctx.n, cur), ctx.n, |Ahead(true, ctx.up)|;
    if right {
      RestSepLater(es, o, p, if m > n then n + 1 else n, m);
      assert p.slots[..n] == p.slots[..a] + p.slots[a..n];
      RunSepConcat(es, o, p.slots[..a], p.slots[a..n]);
    }
  }

  // Separators that are all right also stay right.
  lemma AllRight(fmt: Format, ctx: Ctx, cur: Node, over: bool, bBulk: bool, es: seq<Cell>)
    requires IsCtx(ctx) && (fmt.intKey ==> Ascending(es) && SepAll(es, 0, Plug(ctx, cur)))
    ensures Parted(fmt, ctx, cur, over, bBulk, es, Right)
  {
    hide Flat, Entries, RunSep, RestSep, CtxSep, SetChild, Ahead, ChildEnd, Ascending, SepAll, Cuts;
    if fmt.intKey && cur.Leaf? && over && ctx.Under? {
      var p, n, o := SetChild(ctx.page, ctx.n, cur), ctx.n, |Ahead(true, ctx.up)|;
      AssembleChild(ctx.page, n, n, [], cur, n);
      SameSlots(ctx.page, n, cur);
      PlugSep(es, ctx.up, p);
      AssembleSelf(p, n, n);
      assert p.slots[n..n] == [];
      AssembleSep(es, o, p, n, n, [], p.Child(n));
      NoEntries(true);
      EndOfChildAt(o, p, n);
      RestSepLater(es, o, p, n, if Mends(|p.slots|, n, bBulk) then n + 1 else n);
    }
  }

  lemma SameSlots(p: Node, n: nat, t: Node)
    requires p.Interior? && n <= |p.slots|
    ensures SetChild(p, n, t).Interior? && |SetChild(p, n, t).slots| == |p.slots|
  {}

  lemma EndOfChildAt(o: nat, p: Node, n: nat)
    requires p.Interior? && n <= |p.slots|
    ensures ChildEnd(o, p, n) == o + |Flat(true, false, p.slots[..n])| + |Entries(true, p.Child(n))|
  {}

  /** Balancing the children of the parent leaves the verdict on the separators as it is. */
  lemma LevelParted(fmt: Format, ctx: Ctx, cur: Node, over: bool, bBulk: bool, es: seq<Cell>, sep: Seps,
                    p': Node, a: nat, m: nat, over': bool)
    requires Parted(fmt, ctx, cur, over, bBulk, es, sep) && ctx.Under? && p'.Interior? && fmt.intKey && !sep.Unclear?
    requires a <= ctx.n <= m <= |ctx.page.slots| && (m > ctx.n <==> Mends(|ctx.page.slots|, ctx.n, bBulk))
    requires var p := SetChild(ctx.page, ctx.n, cur);
      && p.Interior? && |p.slots| == |ctx.page.slots| && p.Child(m).Leaf? == cur.Leaf?
      && Entries(true, p') == Entries(true, p)
      && (SepAll(es, |Ahead(true, ctx.up)|, p') <==> KeptSep(es, |Ahead(true, ctx.up)|, p, a, m))
    ensures Parted(fmt, ctx.up, p', over', bBulk, es, sep)
  {
    hide Flat, Entries, RunSep, RestSep, CtxSep, SetChild, Ahead, ChildEnd, Ascending, SepAll, Cuts, Stays, KeptSep;
    var p, o := SetChild(ctx.page, ctx.n, cur), |Ahead(true, ctx.up)|;
    PlugSep(es, ctx.up, p);
    PlugSep(es, ctx.up, p');
    if cur.Leaf? && over {
      StaysKept(es, ctx, cur, bBulk, sep.Right?, a, m);
    } else {
      AllKept(es, o, p, a, m);
    }
  }

  lemma AllKept(es: seq<Cell>, o: nat, p: Node, a: nat, m: nat)
    requires p.Interior? && a <= m <= |p.slots|
    ensures p.Child(m).Interior? ==> (KeptSep(es, o, p, a, m) <==> SepAll(es, o, p))
    ensures SepAll(es, o, p) ==> KeptSep(es, o, p, a, m)
  {
    hide Flat, Entries, RunSep, RestSep, SepAll, Cuts;
    AssembleSelf(p, a, m);
    AssembleSep(es, o, p, a, m, p.slots[a..m], p.Child(m));
    FlatPart(p, a, m);
  }

  // A root that is the only child takes the place of the page above it, and the other way round.
  lemma RootParted(fmt: Format, c: Node, over: bool, over': bool, bBulk: bool, es: seq<Cell>, sep: Seps)
    ensures Parted(fmt, Top, Interior([], c), over, bBulk, es, sep) ==> Parted(fmt, Top, c, over', bBulk, es, sep)
    ensures Parted(fmt, Top, c, over, bBulk, es, sep) ==>
      Parted(fmt, Under(Top, Interior([], c), 0), c, over, bBulk, es, sep)
  {
    hide Entries, RunSep, Cuts, Ascending;
    var root, ctx := Interior([], c), Under(Top, Interior([], c), 0);
    SingleChild(fmt.intKey, es, c);
    SetOnly(c);
    NoSeparators(es, 0);
    assert Plug(ctx, c) == root;
    LeafIsParted(es, c);
  }

  lemma SetOnly(c: Node)
    ensures SetChild(Interior([], c), 0, c) == Interior([], c)
  {}

  lemma LeafIsParted(es: seq<Cell>, c: Node)
    ensures c.Leaf? ==> SepAll(es, 0, c)
  {}

  // A leaf that has become too full only by its last cell: that cell gets a page of its own.
  lemma QuickIsLegal(fmt: Format, cur: Node)
    requires fmt.Valid() && fmt.intKey && cur.Leaf? && |cur.cells| > 1 && OverBy(fmt, cur, |cur.cells| - 1)
    ensures var n := |cur.cells|;
      Legal(SizesOfItems(fmt, true, Items(cur)), true, fmt.Capacity(true), [n - 1, n])
  {
    var items, n := Items(cur), |cur.cells|;
    var sz, cnt := SizesOfItems(fmt, true, items), [n - 1, n];
    SumIsBytes(fmt, true, items, 0, n - 1);
    assert items[0..n - 1] == items[..n - 1];
    SizeBound(fmt, true, items[n - 1].cell);
    assert Sum(sz, n - 1, n) == sz[n - 1] + 2;
    assert First(true, cnt, 0) == 0 && First(true, cnt, 1) == n - 1;
    hide Sum;
    assert Fits(sz, true, fmt.Capacity(true), cnt);
  }

  /**
  The quick way for an append: a new leaf with the cell that is too much, and a divider with the greatest key of the
  old one.
  */
  method BalanceQuick(fmt: Format, pParent: Node, ghost h: nat, ghost es: seq<Cell>, ghost o: nat) returns (p': Node)
    requires fmt.Valid() && fmt.intKey && pParent.Interior? && Family(fmt, pParent, h, |pParent.slots|)
      && pParent.right.Leaf?
    requires |pParent.right.cells| > 1 && OverBy(fmt, pParent.right, |pParent.right.cells| - 1)
    ensures Balanced(fmt, pParent, p', h)
    ensures p'.Interior? && |p'.slots| == |pParent.slots| + 1 && p'.right.NCell() == 1
    ensures Ascending(es) && StandsAt(es, o, Entries(true, pParent)) ==>
      (SepAll(es, o, p') <==> KeptSep(es, o, pParent, |pParent.slots|, |pParent.slots|))
  {
    hide Sound, ChildrenSound, Splits, Entries, SepAll, StandsAt, Ascending, Balanced, KeptSep;
    var pPage := pParent.right;
    var n, m := |pPage.cells|, |pParent.slots|;
    ghost var items, cnt := Items(pPage), [n - 1, n];
    FamilyRun(fmt, pParent, h, m, m, m);
    QuickIsLegal(fmt, pPage);
    ghost var leafData := true;
    assert Gathered(leafData, pParent.slots[m..m], pPage) == items;
    RebuiltIsBalanced(fmt, pParent, h, m, m, m, cnt);
    if Ascending(es) && StandsAt(es, o, Entries(true, pParent)) {
      RebuiltSep(fmt, es, o, pParent, m, m, cnt);
    }
    var pNew := Leaf([pPage.cells[n - 1]]);
    var divider := Cell(pPage.cells[n - 2].key, []);
    p' := Interior(pParent.slots + [Slot(Leaf(pPage.cells[..n - 1]), divider)], pNew);
    QuickIsRebuilt(fmt, pParent);
  }

  lemma QuickPages(cells: seq<Cell>, link: Node)
    requires |cells| > 1
    ensures var n, items := |cells|, Items(Leaf(cells));
      && Spreadable(n, true, [n - 1, n])
      && PageOf(true, true, items, link, [n - 1, n], 0) == Leaf(cells[..n - 1])
      && PageOf(true, true, items, link, [n - 1, n], 1) == Leaf([cells[n - 1]])
      && Divider(true, items, [n - 1, n], 0) == Cell(cells[n - 2].key, [])
  {
    var n := |cells|;
    var cnt := [n - 1, n];
    assert First(true, cnt, 0) == 0 && First(true, cnt, 1) == n - 1;
  }

  lemma QuickIsRebuilt(fmt: Format, p: Node)
    requires fmt.intKey && p.Interior? && p.right.Leaf? && |p.right.cells| > 1
    ensures var n, m := |p.right.cells|, |p.slots|;
      && Spreadable(|Gathered(true, p.slots[m..m], p.right)|, true, [n - 1, n])
      && Rebuilt(fmt, p, m, m, [n - 1, n])
         == Interior(p.slots + [Slot(Leaf(p.right.cells[..n - 1]), Cell(p.right.cells[n - 2].key, []))],
                     Leaf([p.right.cells[n - 1]]))
  {
    hide PageOf, Divider, Spreadable, Items, Gather, Spread;
    var n, m := |p.right.cells|, |p.slots|;
    var items, link, cnt := Items(p.right), Link(p.right), [n - 1, n];
    GatheredAlone(p);
    QuickPages(p.right.cells, link);
    var s := SpreadSnoc(true, true, items, link, cnt, 0);
    SpreadNone(items, link, cnt);
    assert p.slots[..m] + ([] + [s]) == p.slots + [s];
  }

  lemma GatheredAlone(p: Node)
    requires p.Interior?
    ensures Gathered(true, p.slots[|p.slots|..|p.slots|], p.right) == Items(p.right)
  {}

  lemma SpreadNone(items: seq<Slot>, link: Node, cnt: seq<nat>)
    requires Spreadable(|items|, true, cnt) && |cnt| > 0
    ensures Spread(true, true, items, link, cnt, 0) == []
  {}

  // ----- Balancing one level -----

  /** The parent's turn: p' is the current page now, or its only child has replaced it as the root. */
  lemma LevelDone(fmt: Format, ctx: Ctx, cur: Node, h: nat, d: int, over: bool, x: nat, es: seq<Cell>, p': Node)
    requires Unbalanced(fmt, ctx, cur, h, d, over, x, es) && ctx.Under?
    requires ctx.page.Interior? && ctx.n <= |ctx.page.slots|
    requires Balanced(fmt, SetChild(ctx.page, ctx.n, cur), p', h)
    requires !(ctx.up.Top? && |p'.slots| == 0 && fmt.hdr <= fmt.Capacity(p'.right.Leaf?) - Content(fmt, p'.right))
    ensures Unbalanced(fmt, ctx.up, p', h + 1, d, Content(fmt, p') > Room(fmt, ctx.up, p'), 0, es)
    ensures |ctx.page.slots| == 0 ==> Content(fmt, p') <= Room(fmt, ctx.up, p')
  {
    hide Sound, Splits, SepAll, Entries, Content, Ascending, OverBy, Plug;
    var p := SetChild(ctx.page, ctx.n, cur);
    ParentFacts(fmt, ctx, cur, h, d, over, x, es);
    PlugSame(fmt.intKey, ctx.up, p, p');
    CrowdedPage(fmt, p');
    OnlyRoot(fmt, ctx, cur, h, d, p);
    SomeCells(fmt, p');
    assert p'.Child(|p'.slots|) == p'.right;
    SoundFacts(fmt, p'.right, h);
    if p'.right.NCell() == 0 {
      EmptyFits(fmt, p'.right);
    }
  }

  // Only the root can be without cells, and then the current page is its only child.
  lemma OnlyRoot(fmt: Format, ctx: Ctx, cur: Node, h: nat, d: int, p: Node)
    requires CtxSound(fmt, ctx, h, d) && ctx.Under? && p == SetChild(ctx.page, ctx.n, cur)
    ensures |ctx.page.slots| == 0 ==> ctx.up.Top? && p.Interior? && p.right == cur
  {}

  lemma SomeCells(fmt: Format, p: Node)
    ensures p.NCell() == 0 ==> Content(fmt, p) == 0
  {}

  lemma EmptyFits(fmt: Format, t: Node)
    requires fmt.Valid() && t.NCell() == 0
    ensures fmt.hdr <= fmt.Capacity(t.Leaf?) - Content(fmt, t)
  {
    SomeCells(fmt, t);
  }

  /** A root that is left with a single child takes over what is on it (balance-shallower). */
  lemma ShallowerDone(fmt: Format, ctx: Ctx, cur: Node, h: nat, d: int, over: bool, x: nat, es: seq<Cell>, p': Node)
    requires Unbalanced(fmt, ctx, cur, h, d, over, x, es) && ctx.Under? && ctx.up.Top?
    requires ctx.page.Interior? && ctx.n <= |ctx.page.slots|
    requires Balanced(fmt, SetChild(ctx.page, ctx.n, cur), p', h)
    requires |p'.slots| == 0 && fmt.hdr <= fmt.Capacity(p'.right.Leaf?) - Content(fmt, p'.right)
    ensures Unbalanced(fmt, Top, p'.right, h, d, false, 0, es)
  {
    hide Sound, Splits, SepAll, Entries, Content, Ascending, OverBy, Bytes;
    var p, c := SetChild(ctx.page, ctx.n, cur), p'.right;
    ParentFacts(fmt, ctx, cur, h, d, over, x, es);
    OnlyRoot(fmt, ctx, cur, h, d, p);
    assert p'.Child(0) == c;
    SoundFacts(fmt, c, h);
    FittingPage(fmt, c);
    SplitsMore(fmt, c);
    SingleChild(fmt.intKey, es, c);
    assert p' == Interior([], c);
  }

  lemma SoundFacts(fmt: Format, t: Node, h: nat)
    requires Sound(fmt, t, h)
    ensures Content(fmt, t) <= fmt.Capacity(t.Leaf?) && ChildrenSound(fmt, t, h)
  {}

  lemma SplitsMore(fmt: Format, t: Node)
    requires fmt.Valid() && Splits(fmt, t, 1)
    ensures Splits(fmt, t, 3)
  {}

  lemma SingleChild(intKey: bool, es: seq<Cell>, c: Node)
    ensures Entries(intKey, Interior([], c)) == Entries(intKey, c)
    ensures SepAll(es, 0, Interior([], c)) <==> SepAll(es, 0, c)
  {
    InteriorFlat(intKey, [], c);
    SepOfInterior(es, 0, [], c);
    NoEntries(intKey);
    NoSeparators(es, 0);
  }

  // An overfull root becomes the only child of a new one.
  lemma DeeperDone(fmt: Format, cur: Node, h: nat, d: int, x: nat, es: seq<Cell>)
    requires Unbalanced(fmt, Top, cur, h, d, true, x, es)
    ensures Unbalanced(fmt, Under(Top, Interior([], cur), 0), cur, h, d, true, x, es)
  {
    hide Sound, ChildrenSound, Splits, SepAll, Entries, Ascending, OverBy, Bytes;
    var root := Interior([], cur);
    SingleChild(fmt.intKey, es, cur);
    SomeCells(fmt, root);
    assert SetChild(root, 0, cur) == root;
    assert Plug(Under(Top, root, 0), cur) == root;
    assert CtxSound(fmt, Under(Top, root, 0), h, d);
  }

  // ----- The loop -----

  /** The pages above and below have been finished, and so has the current one. */
  ghost predicate Settled(fmt: Format, ctx: Ctx, cur: Node, h: nat, d: int, es: seq<Cell>) {
    && Unbalanced(fmt, ctx, cur, h, d, false, 0, es)
    && (ctx.Under? ==> cur.NCell() > 0)
  }

  /**
  What became of the cells of a page: for an append to a rowid tree a new leaf has the last one, and otherwise they are
  shared evenly with up to two siblings, on as few pages as can be.
  */
  ghost predicate Joined(fmt: Format, ctx: Ctx, cur: Node, over: bool, x: nat, bBulk: bool, p': Node) {
    && fmt.Valid() && ctx.Under? && ctx.page.Interior? && ctx.n <= |ctx.page.slots| && p'.Interior?
    && if fmt.LeafData(cur.Leaf?) && over && x == cur.NCell() - 1 && ctx.n == |ctx.page.slots|
          && !(ctx.up.Top? && fmt.hdr > 0)
       then |p'.slots| == |ctx.page.slots| + 1 && p'.right.NCell() == 1
       else SharedAround(fmt, SetChild(ctx.page, ctx.n, cur), ctx.n, bBulk, p')
  }

  ghost predicate SharedAround(fmt: Format, p: Node, n: nat, bBulk: bool, p': Node) {
    exists a: nat, m: nat, cnt :: a <= n <= m && Shared(fmt, p, a, m, bBulk, cnt, p')
  }

  /** The current page of a balancing operation, and where it is. */
  datatype Round = Round(ctx: Ctx, cur: Node, over: bool, x: nat)

  /** The operation ends at a page that fits and is the root, or has no more than two thirds of its space free. */
  ghost predicate AtRest(fmt: Format, s: Round) {
    !s.over && (s.ctx.Top? || 3 * (fmt.Capacity(s.cur.Leaf?) - Content(fmt, s.cur)) <= 2 * fmt.usable)
  }

  // The next page after the parent has become p': the parent, or a root's only child when that fits in its place.
  ghost predicate Upwards(fmt: Format, s: Round, p': Node, t: Round) {
    && s.ctx.Under? && p'.Interior?
    && t == if s.ctx.up.Top? && |p'.slots| == 0 && fmt.hdr <= fmt.Capacity(p'.right.Leaf?) - Content(fmt, p'.right)
            then Round(Top, p'.right, false, 0)
            else Round(s.ctx.up, p', Content(fmt, p') > Room(fmt, s.ctx.up, p'), 0)
  }

  /** From one page to the next: a root that is too full gets a new root above it, and any other page is shared. */
  ghost predicate Climb(fmt: Format, bBulk: bool, s: Round, t: Round) {
    if s.ctx.Top? then t == Round(Under(Top, Interior([], s.cur), 0), s.cur, s.over, s.x)
    else exists p' :: Joined(fmt, s.ctx, s.cur, s.over, s.x, bBulk, p') && Upwards(fmt, s, p', t)
  }

  ghost predicate ClimbAt(fmt: Format, bBulk: bool, trace: seq<Round>, k: nat) {
    0 < k < |trace| && !AtRest(fmt, trace[k - 1]) && Climb(fmt, bBulk, trace[k - 1], trace[k])
  }

  /** A whole balancing operation, from the page that was changed to the one at which it ends. */
  ghost predicate Climbs(fmt: Format, bBulk: bool, trace: seq<Round>, s: Round, t: Round) {
    && trace != [] && trace[0] == s && trace[|trace| - 1] == t
    && forall k :: 0 < k < |trace| ==> ClimbAt(fmt, bBulk, trace, k)
  }

  lemma ClimbsNowhere(fmt: Format, bBulk: bool, s: Round)
    ensures Climbs(fmt, bBulk, [s], s, s)
  {}

  lemma ClimbsOn(fmt: Format, bBulk: bool, trace: seq<Round>, s: Round, t: Round, t': Round)
    requires Climbs(fmt, bBulk, trace, s, t) && !AtRest(fmt, t) && Climb(fmt, bBulk, t, t')
    ensures Climbs(fmt, bBulk, trace + [t'], s, t')
  {
    hide AtRest, Climb;
    forall k | 0 < k < |trace + [t']|
      ensures ClimbAt(fmt, bBulk, trace + [t'], k)
    {
      if k < |trace| {
        assert ClimbAt(fmt, bBulk, trace, k);
      }
    }
  }

  /** The tree after the page of round s has been balanced, and all that became too full or too empty above it. */
  ghost predicate Rebalanced(fmt: Format, bBulk: bool, s: Round, root: Node) {
    exists trace, t :: Climbs(fmt, bBulk, trace, s, t) && AtRest(fmt, t) && IsCtx(t.ctx) && root == Plug(t.ctx, t.cur)
  }

  /** A balancing operation that begins with s ends at page cur. */
  ghost predicate ClimbsTo(fmt: Format, bBulk: bool, s: Round, ctx: Ctx, cur: Node) {
    exists trace, x: nat :: Climbs(fmt, bBulk, trace, s, Round(ctx, cur, false, x))
  }

  lemma ClimbsUnder(fmt: Format, bBulk: bool, trace: seq<Round>, s0: Round, s: Round)
    requires Climbs(fmt, bBulk, trace, s0, s) && s.ctx.Top? && s.over
    ensures var t := Round(Under(Top, Interior([], s.cur), 0), s.cur, s.over, s.x);
      Climbs(fmt, bBulk, trace + [t], s0, t)
  {
    hide Climbs;
    ClimbsOn(fmt, bBulk, trace, s0, s, Round(Under(Top, Interior([], s.cur), 0), s.cur, s.over, s.x));
  }

  lemma JoinedClimbs(fmt: Format, bBulk: bool, s: Round, p': Node, t: Round)
    requires Joined(fmt, s.ctx, s.cur, s.over, s.x, bBulk, p') && Upwards(fmt, s, p', t)
    ensures Climb(fmt, bBulk, s, t)
  {
    hide Joined, Upwards;
    assert s.ctx.Under? by {
      UpwardsUnder(fmt, s, p', t);
    }
  }

  lemma UpwardsUnder(fmt: Format, s: Round, p': Node, t: Round)
    requires Upwards(fmt, s, p', t)
    ensures s.ctx.Under?
  {}

  lemma RebalancedHere(fmt: Format, bBulk: bool, trace: seq<Round>, s: Round, t: Round)
    requires Climbs(fmt, bBulk, trace, s, t) && AtRest(fmt, t) && IsCtx(t.ctx)
    ensures Rebalanced(fmt, bBulk, s, Plug(t.ctx, t.cur))
    ensures !t.over ==> ClimbsTo(fmt, bBulk, s, t.ctx, t.cur)
  {
    hide Climbs, AtRest, Plug;
    assert t == Round(t.ctx, t.cur, t.over, t.x);
  }

  /**
  Balance the current page and then the pages above it, as long as they have become too full or too empty. Cell x is
  the one that is too much on an overfull leaf. The climb begins only at such a page, and ends at the root or at a page
  with no more than two thirds of its space free.
  */
  method BalancePages(fmt: Format, ctx0: Ctx, cur0: Node, ghost h0: nat, ghost d: int, over0: bool, x0: nat,
                      bBulk: bool,
                 ghost es: seq<Cell>, ghost sep: Seps)
    returns (ctx: Ctx, cur: Node, ghost h: nat)
    requires Unbalanced(fmt, ctx0, cur0, h0, d, over0, x0, es) && Parted(fmt, ctx0, cur0, over0, bBulk, es, sep)
    ensures Settled(fmt, ctx, cur, h, d, es) && Parted(fmt, ctx, cur, false, bBulk, es, sep)
    ensures AtRest(fmt, Round(ctx, cur, false, 0))
    ensures IsCtx(ctx) && Rebalanced(fmt, bBulk, Round(ctx0, cur0, over0, x0), Plug(ctx, cur))
    ensures ClimbsTo(fmt, bBulk, Round(ctx0, cur0, over0, x0), ctx, cur)
    ensures AtRest(fmt, Round(ctx0, cur0, over0, x0)) ==> ctx == ctx0 && cur == cur0
  {
    hide Unbalanced, CtxSound, Balanced, OverBy, Bytes, Content, Parted, Joined, Climbs, Rebalanced, Climb,
      ClimbsTo;
    ctx, cur, h := ctx0, cur0, h0;
    var nMin := fmt.usable * 2 / 3;
    var over, x := over0, x0;
    ghost var deeper := false;
    ghost var s0 := Round(ctx0, cur0, over0, x0);
    ghost var trace := [s0];
    ClimbsNowhere(fmt, bBulk, s0);
    while true
      invariant Unbalanced(fmt, ctx, cur, h, d, over, x, es) && Parted(fmt, ctx, cur, over, bBulk, es, sep)
      invariant Climbs(fmt, bBulk, trace, s0, Round(ctx, cur, over, x))
      invariant AtRest(fmt, s0) ==> ctx == ctx0 && cur == cur0 && over == over0
      invariant deeper ==> if ctx.Top? then !over else ctx.up.Top? && ctx.page.NCell() == 0
      decreases !deeper, ctx.Depth()
    {
      ghost var s := Round(ctx, cur, over, x);
      if ctx.Top? {
        if !over {
          break;
        }
        DeeperDone(fmt, cur, h, d, x, es);
        RootParted(fmt, cur, over, over, bBulk, es, sep);
        ctx := Under(Top, Interior([], cur), 0);
        deeper := true;
        ClimbsUnder(fmt, bBulk, trace, s0, s);
        trace := trace + [Round(ctx, cur, over, x)];
      } else if !over && fmt.Capacity(cur.Leaf?) - Content(fmt, cur) <= nMin {
        break;
      } else {
        var p' := BalanceChild(fmt, ctx, cur, h, d, over, x, bBulk, es, sep);
        if ctx.up.Top? && |p'.slots| == 0 && fmt.hdr <= fmt.Capacity(p'.right.Leaf?) - Content(fmt, p'.right) {
          ShallowerDone(fmt, ctx, cur, h, d, over, x, es, p');
          assert p' == Interior([], p'.right);
          RootParted(fmt, p'.right, false, false, bBulk, es, sep);
          cur, over, x, ctx := p'.right, false, 0, Top;
        } else {
          LevelDone(fmt, ctx, cur, h, d, over, x, es, p');
          InteriorParted(fmt, ctx.up, p', false, Content(fmt, p') > Room(fmt, ctx.up, p'), bBulk, es, sep);
          cur, over, x, h, ctx := p', Content(fmt, p') > Room(fmt, ctx.up, p'), 0, h + 1, ctx.up;
        }
        JoinedClimbs(fmt, bBulk, s, p', Round(ctx, cur, over, x));
        ClimbsOn(fmt, bBulk, trace, s0, s, Round(ctx, cur, over, x));
        trace := trace + [Round(ctx, cur, over, x)];
      }
    }
    SettledHere(fmt, ctx, cur, h, d, x, es, nMin);
    UnbalancedIsCtx(fmt, ctx, cur, h, d, over, x, es);
    RebalancedHere(fmt, bBulk, trace, s0, Round(ctx, cur, over, x));
  }

  lemma UnbalancedIsCtx(fmt: Format, ctx: Ctx, cur: Node, h: nat, d: int, over: bool, x: nat, es: seq<Cell>)
    requires Unbalanced(fmt, ctx, cur, h, d, over, x, es)
    ensures IsCtx(ctx)
  {}

  lemma InteriorParted(fmt: Format, ctx: Ctx, cur: Node, over: bool, over': bool, bBulk: bool, es: seq<Cell>, sep: Seps)
    requires Parted(fmt, ctx, cur, over, bBulk, es, sep) && cur.Interior?
    ensures Parted(fmt, ctx, cur, over', bBulk, es, sep)
  {}

  lemma SettledHere(fmt: Format, ctx: Ctx, cur: Node, h: nat, d: int, x: nat, es: seq<Cell>, nMin: int)
    requires Unbalanced(fmt, ctx, cur, h, d, false, x, es) && nMin == fmt.usable * 2 / 3
    requires ctx.Under? ==> fmt.Capacity(cur.Leaf?) - Content(fmt, cur) <= nMin
    ensures Settled(fmt, ctx, cur, h, d, es)
  {
    SomeCells(fmt, cur);
    hide Content, CtxSound, ChildrenSound, Splits, SepAll, Entries, Ascending, OverBy, Plug;
  }

  // The parent of the current page after the page has shared its cells.
  method BalanceChild(fmt: Format, ctx: Ctx, cur: Node, ghost h: nat, ghost d: int, over: bool, x: nat, bBulk: bool,
                      ghost es: seq<Cell>, ghost sep: Seps)
    returns (p': Node)
    requires Unbalanced(fmt, ctx, cur, h, d, over, x, es) && ctx.Under? && Parted(fmt, ctx, cur, over, bBulk, es, sep)
    ensures ctx.page.Interior? && ctx.n <= |ctx.page.slots| && p'.Interior?
    ensures Balanced(fmt, SetChild(ctx.page, ctx.n, cur), p', h)
    ensures Parted(fmt, ctx.up, p', false, bBulk, es, sep)
    ensures Joined(fmt, ctx, cur, over, x, bBulk, p')
  {
    hide CtxSound, OverBy, Content, ChildrenSound, Splits, SepAll, Entries, Ascending, Plug, Family, Assemble, KeptSep,
      Parted, Shared, SharedAround;
    ParentFacts(fmt, ctx, cur, h, d, over, x, es);
    var pParent := SetChild(ctx.page, ctx.n, cur);
    ParentStandsAt(fmt.intKey, ctx.up, pParent, es);
    ghost var o := |Ahead(true, ctx.up)|;
    ghost var a: nat, m: nat := |ctx.page.slots|, |ctx.page.slots|;
    if fmt.LeafData(cur.Leaf?) && over && x == cur.NCell() - 1 && !(ctx.up.Top? && fmt.hdr > 0)
        && ctx.n == |ctx.page.slots| {
      TwoCells(fmt, ctx, cur, h, d, x, es);
      p' := BalanceQuick(fmt, pParent, h, es, o);
    } else {
      ghost var cnt;
      p', a, m, cnt := BalanceNonroot(fmt, pParent, ctx.n, bBulk, h, es, o);
      AroundChild(fmt, pParent, ctx.n, a, m, bBulk, cnt, p');
    }
    FamilyChild(fmt, pParent, h, ctx.n, m);
    FamilyChild(fmt, pParent, h, ctx.n, ctx.n);
    ChildParted(fmt, ctx, cur, over, bBulk, es, sep, p', a, m);
  }

  lemma AroundChild(fmt: Format, p: Node, n: nat, a: nat, m: nat, bBulk: bool, cnt: seq<nat>, p': Node)
    requires a <= n <= m && Shared(fmt, p, a, m, bBulk, cnt, p')
    ensures SharedAround(fmt, p, n, bBulk, p')
  {
    hide Shared;
  }

  lemma ChildParted(fmt: Format, ctx: Ctx, cur: Node, over: bool, bBulk: bool, es: seq<Cell>, sep: Seps, p': Node,
                    a: nat, m: nat)
    requires Parted(fmt, ctx, cur, over, bBulk, es, sep) && ctx.Under? && p'.Interior?
    requires a <= ctx.n <= m <= |ctx.page.slots| && (m > ctx.n <==> Mends(|ctx.page.slots|, ctx.n, bBulk))
    requires var p := SetChild(ctx.page, ctx.n, cur);
      && p.Interior? && |p.slots| == |ctx.page.slots| && p.Child(m).Leaf? == cur.Leaf?
      && Entries(fmt.intKey, p') == Entries(fmt.intKey, p)
      && (fmt.intKey ==> StandsAt(es, |Ahead(true, ctx.up)|, Entries(true, p)))
      && (fmt.intKey && Ascending(es) && StandsAt(es, |Ahead(true, ctx.up)|, Entries(true, p)) ==>
           (SepAll(es, |Ahead(true, ctx.up)|, p') <==> KeptSep(es, |Ahead(true, ctx.up)|, p, a, m)))
    ensures Parted(fmt, ctx.up, p', false, bBulk, es, sep)
  {
    hide SepAll, KeptSep, SetChild, Entries, Ascending, StandsAt, Plug, Stays;
    if fmt.intKey && !sep.Unclear? {
      LevelParted(fmt, ctx, cur, over, bBulk, es, sep, p', a, m, false);
    }
  }

  // A leaf that is too full has two cells, as one would fit.
  lemma TwoCells(fmt: Format, ctx: Ctx, cur: Node, h: nat, d: int, x: nat, es: seq<Cell>)
    requires Unbalanced(fmt, ctx, cur, h, d, true, x, es) && ctx.Under? && fmt.LeafData(cur.Leaf?)
    requires !(ctx.up.Top? && fmt.hdr > 0)
    ensures |cur.cells| > 1
  {
    hide CtxSound, ChildrenSound, Splits, SepAll, Entries, Ascending, Plug;
    SizeBound(fmt, true, cur.cells[0]);
    SingleCell(fmt, cur);
  }

  lemma SingleCell(fmt: Format, t: Node)
    requires t.Leaf?
    ensures |t.cells| == 1 ==> Content(fmt, t) == fmt.Size(true, t.cells[0]) + 2
  {
    var items := Items(t);
    if |t.cells| == 1 {
      assert items[..0] == [] && Bytes(fmt, true, items[..0]) == 0;
    }
  }
}
