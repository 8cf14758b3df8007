/**
Inserting and deleting entries (sqlite3BtreeInsert and sqlite3BtreeDelete): the tree as an ordered map.
*/
module Update {
  import opened Tree
  import opened Path
  import opened Cursor
  import opened Packing
  import opened Redistribution
  import opened Zipper
  import opened Balance

  // ----- From the path of a cursor to the pages around its last page -----

  function CtxOf(pages: seq<Node>, idx: seq<nat>): Ctx {
    if |pages| <= 1 || |idx| != |pages| then Top
    else Under(CtxOf(ButLast(pages), ButLast(idx)), pages[|pages| - 2], idx[|idx| - 2])
  }

  lemma {:induction false} CtxOfPath(root: Node, h: nat, pages: seq<Node>, idx: seq<nat>)
    requires IsPath(root, h, pages, idx)
    ensures IsCtx(CtxOf(pages, idx)) && Plug(CtxOf(pages, idx), Last(pages)) == root
    ensures CtxOf(pages, idx).Depth() == |pages| - 1 <= h
    decreases |pages|
  {
    IndicesFit(root, h, pages, idx);
    if |pages| > 1 {
      Pop(true, root, h, pages, idx);
      CtxOfPath(root, h, ButLast(pages), ButLast(idx));
      var p, n := Last(ButLast(pages)), Last(ButLast(idx));
      AssembleSelf(p, n, n);
      assert p.slots[n..n] == [];
    }
  }

  lemma {:induction false} CtxOfAhead(intKey: bool, root: Node, h: nat, pages: seq<Node>, idx: seq<nat>)
    requires IsPath(root, h, pages, idx)
    ensures IsCtx(CtxOf(pages, idx))
    ensures |Ahead(intKey, CtxOf(pages, idx))| == Base(intKey, ButLast(pages), ButLast(idx))
    decreases |pages|
  {
    CtxOfPath(root, h, pages, idx);
    if |pages| > 1 {
      Pop(intKey, root, h, pages, idx);
      CtxOfAhead(intKey, root, h, ButLast(pages), ButLast(idx));
      BeforeIsFlat(intKey, Last(ButLast(pages)), Last(ButLast(idx)));
    }
  }

  /** In a finished tree the pages around any page are finished. */
  lemma {:induction false} CtxOfSound(fmt: Format, root: Node, h: nat, pages: seq<Node>, idx: seq<nat>)
    requires fmt.Valid() && IsPath(root, h, pages, idx)
    requires ChildrenSound(fmt, root, h) && Content(fmt, root) <= Room(fmt, Top, root)
    requires fmt.hdr == 0 ==> root.Leaf? || root.NCell() > 0
    ensures |pages| - 1 <= h && IsCtx(CtxOf(pages, idx))
    ensures var ctx, page, hp := CtxOf(pages, idx), Last(pages), h - (|pages| - 1);
      && CtxSound(fmt, ctx, hp, -1) && ChildrenSound(fmt, page, hp) && Content(fmt, page) <= Room(fmt, ctx, page)
      && (ctx.Under? ==> page.NCell() > 0)
      && (fmt.hdr == 0 ==> if ctx.Top? then page.Leaf? || page.NCell() > 0 else RootCells(ctx) > 0)
    decreases |pages|
  {
    hide Sound, ChildrenSound, Wf, Content;
    CtxOfPath(root, h, pages, idx);
    if |pages| > 1 {
      Pop(true, root, h, pages, idx);
      CtxOfSound(fmt, root, h, ButLast(pages), ButLast(idx));
      var p, n, hp := Last(ButLast(pages)), Last(ButLast(idx)), h - (|pages| - 2);
      SoundChild(fmt, p, hp);
      SoundFacts(fmt, p.Child(n), hp - 1);
    }
  }

  lemma SoundChild(fmt: Format, p: Node, h: nat)
    requires ChildrenSound(fmt, p, h) && p.Interior?
    ensures h > 0 && forall i :: 0 <= i <= |p.slots| ==> p.Child(i).NCell() > 0 && Sound(fmt, p.Child(i), h - 1)
  {}

  // ----- Keys and the separators above -----

  /** The path to the current page is the one for the key. */
  ghost predicate CtxRouted(ctx: Ctx, key: Key) {
    ctx.Under? ==> RoutedAt(ctx.page, ctx.n, key) && CtxRouted(ctx.up, key)
  }

  lemma {:induction false} CtxOfRouted(root: Node, h: nat, pages: seq<Node>, idx: seq<nat>, key: Key)
    requires IsPath(root, h, pages, idx) && Routed(pages, idx, key)
    ensures CtxRouted(CtxOf(pages, idx), key)
    decreases |pages|
  {
    if |pages| > 1 {
      Pop(true, root, h, pages, idx);
      assert RoutedAt(pages[|pages| - 2], idx[|pages| - 2], key);
      CtxOfRouted(root, h, ButLast(pages), ButLast(idx), key);
    }
  }

  lemma SetChildHas(p: Node, n: nat, t: Node)
    requires p.Interior? && n <= |p.slots|
    ensures var p' := SetChild(p, n, t);
      && p'.Interior? && |p'.slots| == |p.slots| && p'.Child(n) == t
      && forall i :: 0 <= i < |p.slots| ==> p'.slots[i].cell == p.slots[i].cell
  {
    AssembleChild(p, n, n, [], t, n);
  }

  lemma SetChildOther(p: Node, n: nat, t: Node, i: nat)
    requires p.Interior? && n <= |p.slots| && i <= |p.slots| && i != n
    ensures SetChild(p, n, t).Interior? && i <= |SetChild(p, n, t).slots| && SetChild(p, n, t).Child(i) == p.Child(i)
  {
    AssembleChild(p, n, n, [], t, i);
  }

  // A page below a search tree is one.
  lemma {:induction false} PlugSeparatedDown(ctx: Ctx, t: Node)
    requires IsCtx(ctx) && Separated(Plug(ctx, t))
    ensures Separated(t)
    decreases ctx
  {
    if ctx.Under? {
      var p := SetChild(ctx.page, ctx.n, t);
      PlugSeparatedDown(ctx.up, p);
      SetChildHas(ctx.page, ctx.n, t);
    }
  }

  // The entries below a page lie within its separators.
  lemma SeparatedAt(p: Node, n: nat)
    requires p.Interior? && n <= |p.slots| && Separated(p)
    ensures n < |p.slots| ==> AllAtMost(Entries(true, p.Child(n)), p.slots[n].cell.key)
    ensures n > 0 ==> AllAbove(Entries(true, p.Child(n)), p.slots[n - 1].cell.key)
    ensures Separated(p.Child(n))
  {
    if n > 0 {
      var m := n - 1;
      assert AllAbove(Entries(true, p.Child(m + 1)), p.slots[m].cell.key);
    }
  }

  lemma {:induction false} EntryIsRouted(ctx: Ctx, t: Node, x: Cell)
    requires IsCtx(ctx) && Separated(Plug(ctx, t)) && x in Entries(true, t)
    ensures CtxRouted(ctx, x.key)
    decreases ctx
  {
    if ctx.Under? {
      var p := SetChild(ctx.page, ctx.n, t);
      PlugSeparatedDown(ctx.up, p);
      SetChildHas(ctx.page, ctx.n, t);
      SeparatedAt(p, ctx.n);
      AssembleEntries(true, ctx.page, ctx.n, ctx.n, [], t);
      NoEntries(true);
      EntryIsRouted(ctx.up, p, x);
    }
  }

  /** A page whose entries are as before, but for c, which belongs there, leaves the tree a search tree. */
  lemma {:induction false} PlugSeparated(ctx: Ctx, t: Node, t': Node, c: Cell)
    requires IsCtx(ctx) && Separated(Plug(ctx, t)) && Separated(t') && CtxRouted(ctx, c.key)
    requires forall x :: x in Entries(true, t') ==> x in Entries(true, t) || x == c
    ensures Separated(Plug(ctx, t'))
    decreases ctx
  {
    if ctx.Under? {
      var p, p' := SetChild(ctx.page, ctx.n, t), SetChild(ctx.page, ctx.n, t');
      PlugSeparatedDown(ctx.up, p);
      SetChildSeparated(ctx.page, ctx.n, t, t', c);
      AssembleEntries(true, ctx.page, ctx.n, ctx.n, [], t);
      AssembleEntries(true, ctx.page, ctx.n, ctx.n, [], t');
      NoEntries(true);
      PlugSeparated(ctx.up, p, p', c);
    }
  }

  lemma SetChildSeparated(p: Node, n: nat, t: Node, t': Node, c: Cell)
    requires p.Interior? && n <= |p.slots| && Separated(SetChild(p, n, t)) && Separated(t') && RoutedAt(p, n, c.key)
    requires forall x :: x in Entries(true, t') ==> x in Entries(true, t) || x == c
    ensures Separated(SetChild(p, n, t'))
  {
    SetChildHas(p, n, t');
    forall i | 0 <= i <= |p.slots|
      ensures SeparatedChild(SetChild(p, n, t'), i)
    {
      SetChildSeparatedAt(p, n, t, t', c, i);
    }
    ChildrenSeparate(SetChild(p, n, t'));
  }

  // The entries below child i lie between the separators around it.
  ghost predicate SeparatedChild(p: Node, i: nat) {
    && p.Interior? && i <= |p.slots| && Separated(p.Child(i))
    && (i < |p.slots| ==> AllAtMost(Entries(true, p.Child(i)), p.slots[i].cell.key))
    && (i > 0 ==> AllAbove(Entries(true, p.Child(i)), p.slots[i - 1].cell.key))
  }

  lemma SetChildSeparatedAt(p: Node, n: nat, t: Node, t': Node, c: Cell, i: nat)
    requires p.Interior? && n <= |p.slots| && Separated(SetChild(p, n, t)) && Separated(t') && RoutedAt(p, n, c.key)
    requires forall x :: x in Entries(true, t') ==> x in Entries(true, t) || x == c
    requires i <= |p.slots|
    ensures SeparatedChild(SetChild(p, n, t'), i)
  {
    hide Entries, Separated, SetChild;
    SetChildHas(p, n, t);
    SetChildHas(p, n, t');
    SeparatedAt(SetChild(p, n, t), i);
    if i != n {
      SetChildOther(p, n, t, i);
      SetChildOther(p, n, t', i);
    } else {
      AddWithin(Entries(true, t), Entries(true, t'), c);
    }
  }

  lemma AddWithin(es: seq<Cell>, es': seq<Cell>, c: Cell)
    requires forall x :: x in es' ==> x in es || x == c
    ensures forall k {:trigger AllAtMost(es', k)} :: AllAtMost(es, k) && c.key <= k ==> AllAtMost(es', k)
    ensures forall k {:trigger AllAbove(es', k)} :: AllAbove(es, k) && c.key > k ==> AllAbove(es', k)
  {
    forall k {:trigger AllAtMost(es', k)} | AllAtMost(es, k) && c.key <= k
      ensures AllAtMost(es', k)
    {
      forall i | 0 <= i < |es'|
        ensures es'[i].key <= k
      {
        assert es'[i] in es';
      }
    }
    forall k {:trigger AllAbove(es', k)} | AllAbove(es, k) && c.key > k
      ensures AllAbove(es', k)
    {
      forall i | 0 <= i < |es'|
        ensures es'[i].key > k
      {
        assert es'[i] in es';
      }
    }
  }

  lemma ChildrenSeparate(p: Node)
    requires p.Interior? && forall i :: 0 <= i <= |p.slots| ==> SeparatedChild(p, i)
    ensures Separated(p)
  {
    hide Entries;
    forall i | 0 <= i < |p.slots|
      ensures AllAtMost(Entries(true, p.Child(i)), p.slots[i].cell.key)
      ensures AllAbove(Entries(true, p.Child(i + 1)), p.slots[i].cell.key) && Separated(p.slots[i].child)
    {
      assert SeparatedChild(p, i) && SeparatedChild(p, i + 1);
    }
    assert SeparatedChild(p, |p.slots|);
  }

  // ----- Entries after a change -----

  function InsertAt<T>(s: seq<T>, n: nat, x: T): seq<T>
    requires n <= |s|
  {
    s[..n] + [x] + s[n..]
  }

  function RemoveAt<T>(s: seq<T>, n: nat): seq<T>
    requires n < |s|
  {
    s[..n] + s[n + 1..]
  }

  lemma SpliceInsert<T>(a: seq<T>, m: seq<T>, b: seq<T>, n: nat, x: T)
    requires n <= |m|
    ensures a + InsertAt(m, n, x) + b == InsertAt(a + m + b, |a| + n, x)
  {}

  lemma SpliceRemove<T>(a: seq<T>, m: seq<T>, b: seq<T>, n: nat)
    requires n < |m|
    ensures a + RemoveAt(m, n) + b == RemoveAt(a + m + b, |a| + n)
  {}

  lemma SpliceReplace<T>(a: seq<T>, m: seq<T>, b: seq<T>, n: nat, x: T)
    requires n < |m|
    ensures a + m[n := x] + b == (a + m + b)[|a| + n := x]
  {}

  // ----- Bytes after a change -----

  lemma InsertBytes(fmt: Format, cells: seq<Cell>, n: nat, c: Cell)
    requires n <= |cells|
    ensures Content(fmt, Leaf(InsertAt(cells, n, c))) == Content(fmt, Leaf(cells)) + fmt.Size(true, c) + 2
    ensures Content(fmt, Leaf(cells)) <= fmt.Capacity(true) ==> OverBy(fmt, Leaf(InsertAt(cells, n, c)), n)
  {
    var items, items' := Items(Leaf(cells)), Items(Leaf(InsertAt(cells, n, c)));
    assert items == items[..n] + items[n..];
    assert items' == items[..n] + [Slot(Leaf([]), c)] + items[n..];
    assert items'[..n] == items[..n] && items'[n + 1..] == items[n..];
    OneItem(fmt, true, Slot(Leaf([]), c));
    hide Bytes;
    BytesConcat(fmt, true, items[..n], items[n..]);
    BytesConcat(fmt, true, items[..n], [Slot(Leaf([]), c)]);
    BytesConcat(fmt, true, items[..n] + [Slot(Leaf([]), c)], items[n..]);
  }

  lemma OneItem(fmt: Format, leaf: bool, s: Slot)
    ensures Bytes(fmt, leaf, [s]) == fmt.Size(leaf, s.cell) + 2
  {
    assert [s][..0] == [] && Bytes(fmt, leaf, [s][..0]) == 0;
  }

  lemma RemoveBytes(fmt: Format, cells: seq<Cell>, n: nat)
    requires n < |cells|
    ensures Content(fmt, Leaf(RemoveAt(cells, n))) <= Content(fmt, Leaf(cells))
  {
    InsertBytes(fmt, RemoveAt(cells, n), n, cells[n]);
    assert InsertAt(RemoveAt(cells, n), n, cells[n]) == cells;
  }

  // A page that fits still fits on three pages when a cell is added to it.
  lemma OneMoreSplits(fmt: Format, t: Node, n: nat)
    requires fmt.Valid()
    requires if fmt.LeafData(t.Leaf?) then OverBy(fmt, t, n) || Content(fmt, t) <= fmt.Capacity(true)
             else 3 * Content(fmt, t) <= 4 * fmt.Capacity(t.Leaf?)
    ensures Splits(fmt, t, 3)
  {
    if !fmt.LeafData(t.Leaf?) {
      CrowdedPage(fmt, t);
    } else if Content(fmt, t) <= fmt.Capacity(true) {
      FittingPage(fmt, t);
      SplitsMore(fmt, t);
    } else {
      var items, sz := Items(t), SizesOfItems(fmt, true, Items(t));
      SumIsBytes(fmt, true, items, 0, n);
      SumIsBytes(fmt, true, items, n + 1, |items|);
      assert items[0..n] == items[..n] && items[n + 1..|items|] == items[n + 1..];
      SizeBound(fmt, true, items[n].cell);
      OneOver(sz, fmt.Capacity(true), n);
    }
  }

  // ----- The tree right after an insertion -----

  lemma {:induction false} PlugWf(ctx: Ctx, t: Node, t': Node, h: nat)
    requires IsCtx(ctx) && Wf(Plug(ctx, t), h + ctx.Depth()) && Wf(t', h) && (ctx.Under? ==> t'.NCell() > 0)
    ensures Wf(Plug(ctx, t'), h + ctx.Depth())
    decreases ctx
  {
    if ctx.Under? {
      var p, p' := SetChild(ctx.page, ctx.n, t), SetChild(ctx.page, ctx.n, t');
      PlugWfDown(ctx.up, p, h + 1);
      SetChildHas(ctx.page, ctx.n, t);
      SetChildHas(ctx.page, ctx.n, t');
      forall i | 0 <= i <= |p'.slots|
        ensures p'.Child(i).NCell() > 0 && Wf(p'.Child(i), h)
      {
        if i != ctx.n {
          SetChildOther(ctx.page, ctx.n, t, i);
          SetChildOther(ctx.page, ctx.n, t', i);
          assert p.Child(i).NCell() > 0 && Wf(p.Child(i), h);
        }
      }
      PlugWf(ctx.up, p, p', h + 1);
    }
  }

  lemma {:induction false} PlugWfDown(ctx: Ctx, t: Node, h: nat)
    requires IsCtx(ctx) && Wf(Plug(ctx, t), h + ctx.Depth())
    ensures Wf(t, h) && (ctx.Under? ==> t.NCell() > 0)
    decreases ctx
  {
    if ctx.Under? {
      var p := SetChild(ctx.page, ctx.n, t);
      PlugWfDown(ctx.up, p, h + 1);
      SetChildHas(ctx.page, ctx.n, t);
      assert p.Child(ctx.n).NCell() > 0 && Wf(p.Child(ctx.n), h);
    }
  }

  /** What is known of a finished tree around the last page of a path. */
  lemma AroundPage(fmt: Format, root: Node, h: nat, pages: seq<Node>, idx: seq<nat>)
    requires fmt.Valid() && Finished(fmt, root, h) && IsPath(root, h, pages, idx)
    ensures |pages| - 1 <= h && IsCtx(CtxOf(pages, idx))
    ensures var ctx, page, hp := CtxOf(pages, idx), Last(pages), h - (|pages| - 1);
      && Plug(ctx, page) == root && ctx.Depth() == |pages| - 1
      && CtxSound(fmt, ctx, hp, -1) && ChildrenSound(fmt, page, hp) && Content(fmt, page) <= Room(fmt, ctx, page)
      && (ctx.Under? ==> page.NCell() > 0)
      && (fmt.hdr == 0 ==> if ctx.Top? then page.Leaf? || page.NCell() > 0 else RootCells(ctx) > 0)
      && |Ahead(fmt.intKey, ctx)| == Base(fmt.intKey, ButLast(pages), ButLast(idx))
  {
    hide Sound, ChildrenSound, Wf, Content, CtxSound;
    CtxOfPath(root, h, pages, idx);
    CtxOfAhead(fmt.intKey, root, h, pages, idx);
    CtxOfSound(fmt, root, h, pages, idx);
  }

  // A change of a leaf of a rowid tree: the separators still separate.
  lemma LeafSeparates(ctx: Ctx, t: Node, t': Node, c: Cell, h: nat, es': seq<Cell>)
    requires IsCtx(ctx) && Separated(Plug(ctx, t)) && Wf(Plug(ctx, t), h) && t'.Leaf? && h == ctx.Depth()
      && t'.NCell() > 0
    requires CtxRouted(ctx, c.key) && Entries(true, Plug(ctx, t')) == es' && Ascending(es')
    requires forall x :: x in Entries(true, t') ==> x in Entries(true, t) || x == c
    ensures SepAll(es', 0, Plug(ctx, t'))
  {
    hide Entries, SepAll, Separated, Plug;
    LeafSeparated(t');
    PlugSeparated(ctx, t, t', c);
    PlugWf(ctx, t, t', 0);
    StandsAtZero(es');
    SeparatedToSep(es', 0, Plug(ctx, t'), h);
  }

  lemma LeafSeparated(t: Node)
    requires t.Leaf?
    ensures Separated(t) && Wf(t, 0)
  {}

  /** Inserting a cell into a leaf, anywhere, gives pages that are ready for balancing. */
  lemma Inserted(fmt: Format, root: Node, h: nat, pages: seq<Node>, idx: seq<nat>, n: nat, c: Cell)
    requires fmt.Valid() && Finished(fmt, root, h) && IsPath(root, h, pages, idx) && Last(pages).Leaf?
      && n <= Last(pages).NCell()
    requires IsCtx(CtxOf(pages, idx))
    ensures h == |pages| - 1 && |Ahead(fmt.intKey, CtxOf(pages, idx))| + n <= |Entries(fmt.intKey, root)|
    ensures var ctx, page' := CtxOf(pages, idx), Leaf(InsertAt(Last(pages).cells, n, c));
      Unbalanced(fmt, ctx, page', 0, -1, Content(fmt, page') > Room(fmt, ctx, page'), n,
                 InsertAt(Entries(fmt.intKey, root), |Ahead(fmt.intKey, ctx)| + n, c))
  {
    hide Sound, ChildrenSound, Wf, Entries, Plug, Separated, Content, Splits, Ascending, CtxSound, OverBy, CtxOf, Ahead;
    var ctx, page := CtxOf(pages, idx), Last(pages);
    var page' := Leaf(InsertAt(page.cells, n, c));
    AroundPage(fmt, root, h, pages, idx);
    LeafHeight(fmt, page, h - (|pages| - 1));
    InsertBytes(fmt, page.cells, n, c);
    SizeBound(fmt, true, c);
    OneMoreSplits(fmt, page', n);
    LeafHeight(fmt, page', 0);
    InsertedEntries(fmt.intKey, ctx, page.cells, n, c);
  }

  /** When the leaf is the one for the key, the separators are right as well. */
  lemma InsertedRight(fmt: Format, root: Node, h: nat, pages: seq<Node>, idx: seq<nat>, n: nat, c: Cell)
    requires fmt.Valid() && fmt.intKey && Finished(fmt, root, h) && IsPath(root, h, pages, idx) && Last(pages).Leaf?
    requires n <= Last(pages).NCell() && IsCtx(CtxOf(pages, idx)) && CtxRouted(CtxOf(pages, idx), c.key)
    requires |Ahead(true, CtxOf(pages, idx))| + n <= |Entries(true, root)|
    requires Ascending(InsertAt(Entries(true, root), |Ahead(true, CtxOf(pages, idx))| + n, c))
    ensures SepAll(InsertAt(Entries(true, root), |Ahead(true, CtxOf(pages, idx))| + n, c), 0,
                   Plug(CtxOf(pages, idx), Leaf(InsertAt(Last(pages).cells, n, c))))
  {
    hide Sound, ChildrenSound, Wf, SepAll, Entries, Plug, Separated, Content, Ascending, CtxSound, CtxRouted, CtxOf,
      Ahead;
    var ctx, page := CtxOf(pages, idx), Last(pages);
    var page' := Leaf(InsertAt(page.cells, n, c));
    AroundPage(fmt, root, h, pages, idx);
    LeafHeight(fmt, page, h - (|pages| - 1));
    InsertedEntries(true, ctx, page.cells, n, c);
    FittedIsWf(fmt, root, h);
    LeafEntries(true, page.cells);
    LeafEntries(true, page'.cells);
    LeafSeparates(ctx, page, page', c, h, InsertAt(Entries(true, root), |Ahead(true, ctx)| + n, c));
  }

  lemma FittedIsWf(fmt: Format, root: Node, h: nat)
    requires Fitted(fmt, root, h)
    ensures Wf(root, h)
  {
    SoundIsWf(fmt, root, h);
  }

  lemma LeafHeight(fmt: Format, t: Node, h: nat)
    requires t.Leaf?
    ensures ChildrenSound(fmt, t, h) <==> h == 0
  {}

  lemma InsertedEntries(intKey: bool, ctx: Ctx, cells: seq<Cell>, n: nat, c: Cell)
    requires IsCtx(ctx) && n <= |cells|
    ensures |Ahead(intKey, ctx)| + n <= |Entries(intKey, Plug(ctx, Leaf(cells)))|
    ensures Entries(intKey, Plug(ctx, Leaf(InsertAt(cells, n, c))))
      == InsertAt(Entries(intKey, Plug(ctx, Leaf(cells))), |Ahead(intKey, ctx)| + n, c)
  {
    hide Entries, Plug, Ahead, Behind;
    PlugEntries(intKey, ctx, Leaf(cells));
    PlugEntries(intKey, ctx, Leaf(InsertAt(cells, n, c)));
    LeafEntries(intKey, cells);
    LeafEntries(intKey, InsertAt(cells, n, c));
    SpliceInsert(Ahead(intKey, ctx), cells, Behind(intKey, ctx), n, c);
  }

  lemma LeafEntries(intKey: bool, cells: seq<Cell>)
    ensures Entries(intKey, Leaf(cells)) == cells
  {}

  // ----- The tree right after a cell has been overwritten -----

  function ReplaceCell(p: Node, n: nat, c: Cell): Node
    requires n < p.NCell()
  {
    if p.Leaf? then Leaf(p.cells[n := c]) else Interior(p.slots[n := Slot(p.slots[n].child, c)], p.right)
  }

  lemma ReplaceBytes(fmt: Format, p: Node, n: nat, c: Cell)
    requires n < p.NCell()
    ensures Content(fmt, ReplaceCell(p, n, c)) + fmt.Size(p.Leaf?, p.CellAt(n)) == Content(fmt, p) + fmt.Size(p.Leaf?,
        c)
    ensures p.Leaf? && Content(fmt, p) <= fmt.Capacity(true) ==> OverBy(fmt, ReplaceCell(p, n, c), n)
  {
    var items, items' := Items(p), Items(ReplaceCell(p, n, c));
    assert items == items[..n] + [items[n]] + items[n + 1..] && items' == items[..n] + [items'[n]] + items[n + 1..];
    assert items'[..n] == items[..n] && items'[n + 1..] == items[n + 1..];
    OneItem(fmt, p.Leaf?, items[n]);
    OneItem(fmt, p.Leaf?, items'[n]);
    hide Bytes;
    BytesConcat(fmt, p.Leaf?, items[..n], [items[n]]);
    BytesConcat(fmt, p.Leaf?, items[..n] + [items[n]], items[n + 1..]);
    BytesConcat(fmt, p.Leaf?, items[..n], [items'[n]]);
    BytesConcat(fmt, p.Leaf?, items[..n] + [items'[n]], items[n + 1..]);
  }

  // The number of entries on and below p before its cell n.
  function CellOffset(intKey: bool, p: Node, n: nat): nat
    requires n < p.NCell()
  {
    if p.Leaf? then n else |Flat(intKey, !intKey, p.slots[..n])| + |Entries(intKey, p.slots[n].child)|
  }

  lemma ReplacedEntries(intKey: bool, p: Node, n: nat, c: Cell)
    requires n < p.NCell() && (p.Leaf? || !intKey)
    ensures CellOffset(intKey, p, n) < |Entries(intKey, p)|
      && Entries(intKey, p)[CellOffset(intKey, p, n)] == p.CellAt(n)
    ensures Entries(intKey, ReplaceCell(p, n, c)) == Entries(intKey, p)[CellOffset(intKey, p, n) := c]
  {
    if p.Interior? {
      ReplacedInside(p, n, c);
    }
  }

  lemma ReplacedInside(p: Node, n: nat, c: Cell)
    requires p.Interior? && n < |p.slots|
    ensures CellOffset(false, p, n) < |Entries(false, p)|
      && Entries(false, p)[CellOffset(false, p, n)] == p.slots[n].cell
    ensures Entries(false, ReplaceCell(p, n, c)) == Entries(false, p)[CellOffset(false, p, n) := c]
  {
    hide Flat, Entries;
    var a, s, s', b := p.slots[..n], p.slots[n], Slot(p.slots[n].child, c), p.slots[n + 1..];
    assert p.slots == a + [s] + b && ReplaceCell(p, n, c).slots == a + [s'] + b;
    InteriorFlat(false, p.slots, p.right);
    InteriorFlat(false, a + [s'] + b, p.right);
    FlatConcat(false, true, a + [s], b);
    FlatConcat(false, true, a + [s'], b);
    FlatSnoc(false, true, a, s);
    FlatSnoc(false, true, a, s');
    ReplaceInside(Flat(false, true, a), Entries(false, s.child), s.cell, c, Flat(false, true, b),
                  Entries(false, p.right));
  }

  lemma ReplaceInside<T>(a: seq<T>, e: seq<T>, x: T, y: T, b: seq<T>, r: seq<T>)
    ensures var s := (a + e + [x]) + b + r;
      |a| + |e| < |s| && s[|a| + |e|] == x && (a + e + [y]) + b + r == s[|a| + |e| := y]
  {}

  lemma PlugReplaced(intKey: bool, ctx: Ctx, p: Node, n: nat, c: Cell)
    requires IsCtx(ctx) && n < p.NCell() && (p.Leaf? || !intKey)
    ensures var es, i := Entries(intKey, Plug(ctx, p)), |Ahead(intKey, ctx)| + CellOffset(intKey, p, n);
      i < |es| && es[i] == p.CellAt(n) && Entries(intKey, Plug(ctx, ReplaceCell(p, n, c))) == es[i := c]
  {
    hide Flat, Entries, Plug, Ahead, Behind, CellOffset;
    ReplacedEntries(intKey, p, n, c);
    PlugEntries(intKey, ctx, p);
    PlugEntries(intKey, ctx, ReplaceCell(p, n, c));
    SpliceReplace(Ahead(intKey, ctx), Entries(intKey, p), Behind(intKey, ctx), CellOffset(intKey, p, n), c);
  }

  lemma ReplacedChildren(fmt: Format, p: Node, n: nat, c: Cell, h: nat)
    requires n < p.NCell() && ChildrenSound(fmt, p, h)
    ensures ChildrenSound(fmt, ReplaceCell(p, n, c), h)
  {
    if p.Interior? {
      var p' := ReplaceCell(p, n, c);
      forall i | 0 <= i <= |p'.slots|
        ensures p'.Child(i) == p.Child(i)
      {}
    }
  }

  /** Overwriting an entry, with whatever key, gives pages that are ready for balancing. */
  lemma Overwritten(fmt: Format, root: Node, h: nat, pages: seq<Node>, idx: seq<nat>, c: Cell)
    requires fmt.Valid() && Finished(fmt, root, h) && AtEntry(fmt.intKey, root, h, pages, idx)
      && IsCtx(CtxOf(pages, idx))
    ensures |pages| - 1 <= h
    ensures |Ahead(fmt.intKey, CtxOf(pages, idx))| + CellOffset(fmt.intKey, Last(pages),
                                                                Last(idx)) < |Entries(fmt.intKey, root)|
    ensures var ctx, page' := CtxOf(pages, idx), ReplaceCell(Last(pages), Last(idx), c);
      var i := |Ahead(fmt.intKey, ctx)| + CellOffset(fmt.intKey, Last(pages), Last(idx));
      Unbalanced(fmt, ctx, page', h - (|pages| - 1), -1, Content(fmt, page') > Room(fmt, ctx, page'), Last(idx),
                 Entries(fmt.intKey, root)[i := c])
  {
    hide Sound, ChildrenSound, Wf, Entries, Plug, Separated, Content, Splits, CtxSound, OverBy, CtxOf, CellOffset,
      Ahead;
    var ctx, page, n := CtxOf(pages, idx), Last(pages), Last(idx);
    var page' := ReplaceCell(page, n, c);
    AroundPage(fmt, root, h, pages, idx);
    var hp := h - (|pages| - 1);
    ReplacedChildren(fmt, page, n, c, hp);
    ReplaceBytes(fmt, page, n, c);
    SizeBound(fmt, page.Leaf?, c);
    OneMoreSplits(fmt, page', n);
    PlugReplaced(fmt.intKey, ctx, page, n, c);
  }

  /** When the key stays the same, the separators stay right. */
  lemma OverwrittenRight(fmt: Format, root: Node, h: nat, pages: seq<Node>, idx: seq<nat>, c: Cell)
    requires fmt.Valid() && fmt.intKey && Finished(fmt, root, h) && AtEntry(true, root, h, pages, idx)
      && IsCtx(CtxOf(pages, idx))
    requires c.key == Last(pages).CellAt(Last(idx)).key
    ensures var es' := Entries(true, Plug(CtxOf(pages, idx), ReplaceCell(Last(pages), Last(idx), c)));
      Ascending(es') ==> SepAll(es', 0, Plug(CtxOf(pages, idx), ReplaceCell(Last(pages), Last(idx), c)))
  {
    hide Sound, ChildrenSound, Wf, SepAll, Entries, Plug, Separated, Content, CtxSound, CtxRouted, CtxOf;
    var ctx, page, n := CtxOf(pages, idx), Last(pages), Last(idx);
    var page' := ReplaceCell(page, n, c);
    AroundPage(fmt, root, h, pages, idx);
    LeafHeight(fmt, page, h - (|pages| - 1));
    FittedIsWf(fmt, root, h);
    LeafEntries(true, page.cells);
    LeafEntries(true, page'.cells);
    EntryIsRouted(ctx, page, page.cells[n]);
    var es' := Entries(true, Plug(ctx, page'));
    if Ascending(es') {
      LeafSeparates(ctx, page, page', c, h, es');
    }
  }

  // ----- The tree right after an entry has been deleted from a leaf -----

  lemma CutsDrop(es: seq<Cell>, p: nat, q: nat, k: Key)
    requires p < |es| && Cuts(es, q, k)
    ensures Cuts(RemoveAt(es, p), if q <= p then q else q - 1, k)
  {}

  lemma FlatWithin(t: Node, n: nat)
    requires t.Interior? && n <= |t.slots|
    ensures |Flat(true, false, t.slots[..n])| <= |Flat(true, false, t.slots)|
    ensures |Entries(true, t)| == |Flat(true, false, t.slots)| + |Entries(true, t.right)|
    ensures n > 0 ==>
      |Flat(true, false, t.slots[..n])| == |Flat(true, false, t.slots[..n - 1])| + |Entries(true, t.slots[n - 1].child)|
  {
    assert t.slots == t.slots[..n] + t.slots[n..];
    FlatConcat(true, false, t.slots[..n], t.slots[n..]);
    InteriorFlat(true, t.slots, t.right);
    if n > 0 {
      FlatOfNext(t, n - 1);
    }
  }

  // Separators before the deleted entry stay where they are.
  lemma {:induction false} SepDropLeft(es: seq<Cell>, p: nat, o: nat, t: Node)
    requires p < |es| && SepAll(es, o, t) && o + |Entries(true, t)| <= p
    ensures SepAll(RemoveAt(es, p), o, t)
    decreases t, 1, 0
  {
    if t.Interior? {
      FlatWithin(t, |t.slots|);
      FirstSepDropLeft(es, p, o, t, |t.slots|);
      SepDropLeft(es, p, o + |Flat(true, false, t.slots)|, t.right);
    }
  }

  lemma {:induction false} FirstSepDropLeft(es: seq<Cell>, p: nat, o: nat, t: Node, n: nat)
    requires t.Interior? && n <= |t.slots| && p < |es| && FirstSep(es, o, t, n)
      && o + |Flat(true, false, t.slots[..n])| <= p
    ensures FirstSep(RemoveAt(es, p), o, t, n)
    decreases t, 0, n
  {
    if n > 0 {
      FlatWithin(t, n);
      FirstSepDropLeft(es, p, o, t, n - 1);
      SepDropLeft(es, p, o + |Flat(true, false, t.slots[..n - 1])|, t.slots[n - 1].child);
      CutsDrop(es, p, o + |Flat(true, false, t.slots[..n])|, t.slots[n - 1].cell.key);
    }
  }

  // Those behind it move one place.
  lemma {:induction false} SepDropRight(es: seq<Cell>, p: nat, o: nat, t: Node)
    requires p < |es| && p < o && SepAll(es, o, t)
    ensures SepAll(RemoveAt(es, p), o - 1, t)
    decreases t, 1, 0
  {
    if t.Interior? {
      FirstSepDropRight(es, p, o, t, |t.slots|);
      SepDropRight(es, p, o + |Flat(true, false, t.slots)|, t.right);
    }
  }

  lemma {:induction false} FirstSepDropRight(es: seq<Cell>, p: nat, o: nat, t: Node, n: nat)
    requires t.Interior? && n <= |t.slots| && p < |es| && p < o && FirstSep(es, o, t, n)
    ensures FirstSep(RemoveAt(es, p), o - 1, t, n)
    decreases t, 0, n
  {
    if n > 0 {
      FirstSepDropRight(es, p, o, t, n - 1);
      SepDropRight(es, p, o + |Flat(true, false, t.slots[..n - 1])|, t.slots[n - 1].child);
      CutsDrop(es, p, o + |Flat(true, false, t.slots[..n])|, t.slots[n - 1].cell.key);
    }
  }

  lemma RunSepDrop(es: seq<Cell>, p: nat, o: nat, run: seq<Slot>)
    requires p < |es| && RunSep(es, o, run)
    ensures o + |Flat(true, false, run)| <= p ==> RunSep(RemoveAt(es, p), o, run)
    ensures p < o ==> RunSep(RemoveAt(es, p), o - 1, run)
  {
    var t := Interior(run, Leaf([]));
    assert t.slots[..|run|] == run;
    if o + |Flat(true, false, run)| <= p {
      FirstSepDropLeft(es, p, o, t, |run|);
    } else if p < o {
      FirstSepDropRight(es, p, o, t, |run|);
    }
  }

  lemma RestSepDrop(es: seq<Cell>, p: nat, o: nat, page: Node, n: nat)
    requires page.Interior? && n <= |page.slots| && p < |es| && p < o && RestSep(es, o, page, n)
    ensures RestSep(RemoveAt(es, p), o - 1, page, n)
  {
    if n < |page.slots| {
      CutsDrop(es, p, o, page.slots[n].cell.key);
      RunSepDrop(es, p, o, page.slots[n + 1..]);
      SepDropRight(es, p, o + |Flat(true, false, page.slots[n + 1..])|, page.right);
    }
  }

  lemma {:induction false} CtxSepDrop(es: seq<Cell>, p: nat, ctx: Ctx, n: nat)
    requires IsCtx(ctx) && p < |es| && CtxSep(es, ctx, n) && |Ahead(true, ctx)| <= p < |Ahead(true, ctx)| + n
    ensures CtxSep(RemoveAt(es, p), ctx, n - 1)
    decreases ctx
  {
    hide Flat, RunSep, RestSep, Rest, Cuts;
    if ctx.Under? {
      var o, size := |Ahead(true, ctx.up)|, |Flat(true, false, ctx.page.slots[..ctx.n])| + n;
      RunSepDrop(es, p, o, ctx.page.slots[..ctx.n]);
      RestSepDrop(es, p, o + size, ctx.page, ctx.n);
      CtxSepDrop(es, p, ctx.up, size + |Rest(true, ctx.page, ctx.n)|);
    }
  }

  lemma RemovedEntries(intKey: bool, ctx: Ctx, cells: seq<Cell>, n: nat)
    requires IsCtx(ctx) && n < |cells|
    ensures |Ahead(intKey, ctx)| + n < |Entries(intKey, Plug(ctx, Leaf(cells)))|
    ensures Entries(intKey, Plug(ctx, Leaf(RemoveAt(cells, n))))
      == RemoveAt(Entries(intKey, Plug(ctx, Leaf(cells))), |Ahead(intKey, ctx)| + n)
  {
    hide Entries, Plug, Ahead, Behind;
    PlugEntries(intKey, ctx, Leaf(cells));
    PlugEntries(intKey, ctx, Leaf(RemoveAt(cells, n)));
    LeafEntries(intKey, cells);
    LeafEntries(intKey, RemoveAt(cells, n));
    SpliceRemove(Ahead(intKey, ctx), cells, Behind(intKey, ctx), n);
  }

  lemma AscendingRemoved(es: seq<Cell>, p: nat)
    requires Ascending(es) && p < |es|
    ensures Ascending(RemoveAt(es, p))
  {}

  // The separators of a search tree after one of its leaves has lost a cell.
  lemma RemovedSep(ctx: Ctx, cells: seq<Cell>, n: nat, h: nat)
    requires IsCtx(ctx) && n < |cells| && Wf(Plug(ctx, Leaf(cells)), h)
    requires Separated(Plug(ctx, Leaf(cells))) && Ascending(Entries(true, Plug(ctx, Leaf(cells))))
    ensures SepAll(Entries(true, Plug(ctx, Leaf(RemoveAt(cells, n)))), 0, Plug(ctx, Leaf(RemoveAt(cells, n))))
  {
    hide Entries, Plug, Ahead, Separated, Ascending, Wf, CtxSep;
    var root, p := Plug(ctx, Leaf(cells)), |Ahead(true, ctx)| + n;
    var es := Entries(true, root);
    StandsAtZero(es);
    SeparatedToSep(es, 0, root, h);
    PlugSep(es, ctx, Leaf(cells));
    RemovedEntries(true, ctx, cells, n);
    LeafEntries(true, cells);
    LeafEntries(true, RemoveAt(cells, n));
    CtxSepDrop(es, p, ctx, |cells|);
    PlugSep(RemoveAt(es, p), ctx, Leaf(RemoveAt(cells, n)));
    LeafSep(RemoveAt(es, p), |Ahead(true, ctx)|, Leaf(RemoveAt(cells, n)));
  }

  lemma PathPages(root: Node, h: nat, pages: seq<Node>, idx: seq<nat>)
    requires IsPath(root, h, pages, idx)
    ensures pages != [] && idx != [] && Wf(root, h)
  {}

  /** Deleting a cell from a leaf gives a tree that is ready for balancing. */
  lemma DeletedFromLeaf(fmt: Format, root: Node, h: nat, pages: seq<Node>, idx: seq<nat>, es': seq<Cell>, bBulk: bool)
    requires fmt.Valid() && Finished(fmt, root, h) && AtCell(root, h, pages, idx) && Last(pages).Leaf?
    requires IsCtx(CtxOf(pages, idx))
    requires var p := |Ahead(fmt.intKey, CtxOf(pages, idx))| + Last(idx);
      p < |Entries(fmt.intKey, root)| && es' == RemoveAt(Entries(fmt.intKey, root), p)
    ensures h == |pages| - 1
    ensures Unbalanced(fmt, CtxOf(pages, idx), Leaf(RemoveAt(Last(pages).cells, Last(idx))), 0, -1, false, 0, es')
    ensures Parted(fmt, CtxOf(pages, idx), Leaf(RemoveAt(Last(pages).cells, Last(idx))), false, bBulk, es', Right)
  {
    hide Sound, ChildrenSound, Wf, SepAll, Entries, Plug, Separated, Content, Splits, Ascending, CtxSound, CtxRouted,
      OverBy, CtxOf, Ahead,
      Behind, Base, Position, IsPath, Parted;
    PathPages(root, h, pages, idx);
    var ctx, page, n := CtxOf(pages, idx), Last(pages), Last(idx);
    AroundPage(fmt, root, h, pages, idx);
    LeafHeight(fmt, page, h - (|pages| - 1));
    RemovedLeaf(fmt, page.cells, n);
    RemovedEntries(fmt.intKey, ctx, page.cells, n);
    if fmt.intKey {
      FittedIsWf(fmt, root, h);
      RemovedSep(ctx, page.cells, n, h);
      AscendingRemoved(Entries(true, root), |Ahead(true, ctx)| + n);
    }
    AllRight(fmt, ctx, Leaf(RemoveAt(page.cells, n)), false, bBulk, es');
  }

  lemma RemovedLeaf(fmt: Format, cells: seq<Cell>, n: nat)
    requires fmt.Valid() && n < |cells| && Content(fmt, Leaf(cells)) <= fmt.Capacity(true)
    ensures var page' := Leaf(RemoveAt(cells, n));
      && Content(fmt, page') <= Content(fmt, Leaf(cells)) && Splits(fmt, page', 3) && ChildrenSound(fmt, page', 0)
  {
    RemoveBytes(fmt, cells, n);
    FittingPage(fmt, Leaf(RemoveAt(cells, n)));
    SplitsMore(fmt, Leaf(RemoveAt(cells, n)));
  }

  // ----- The tree right after an entry has been deleted from an interior page -----

  /** The page above at depth d, with its cell there overwritten. */
  function SetCell(ctx: Ctx, d: nat, c: Cell): Ctx
    requires d < ctx.Depth()
  {
    if ctx.up.Depth() != d then ctx.(up := SetCell(ctx.up, d, c))
    else if ctx.n < ctx.page.NCell() then ctx.(page := ReplaceCell(ctx.page, ctx.n, c)) else ctx
  }

  /** The path turns left of a cell at depth d and from there on follows right pointers. */
  ghost predicate LeftOfCell(ctx: Ctx, d: nat)
    requires d < ctx.Depth()
  {
    ctx.page.Interior? &&
    if ctx.up.Depth() == d then ctx.n < |ctx.page.slots| else ctx.n == |ctx.page.slots| && LeftOfCell(ctx.up, d)
  }

  lemma {:induction false} CtxOfLeftOfCell(root: Node, h: nat, pages0: seq<Node>, idx0: seq<nat>, pages: seq<Node>,
                                           idx: seq<nat>)
    requires AtCell(root, h, pages0, idx0) && Last(pages0).Interior? && IsPath(root, h, pages, idx)
    requires |pages0| < |pages| && pages0 <= pages && idx0 <= idx
    requires forall i {:trigger pages[i]} :: |pages0| <= i < |pages| - 1 ==> idx[i] == pages[i].NCell()
    ensures CtxOf(pages, idx).Depth() == |pages| - 1
    ensures LeftOfCell(CtxOf(pages, idx), |pages0| - 1)
    decreases |pages|
  {
    CtxOfPath(root, h, pages, idx);
    Pop(true, root, h, pages, idx);
    var d := |pages0| - 1;
    var pages', idx' := ButLast(pages), ButLast(idx);
    CtxOfPath(root, h, pages', idx');
    if |pages'| > |pages0| {
      forall i {:trigger pages'[i]} | |pages0| <= i < |pages'| - 1
        ensures idx'[i] == pages'[i].NCell()
      {
        assert pages'[i] == pages[i];
      }
      assert pages[|pages| - 2] == Last(pages');
      CtxOfLeftOfCell(root, h, pages0, idx0, pages', idx');
    } else {
      assert pages' == pages0 && idx' == idx0;
    }
  }

  lemma {:induction false} SetCellSame(fmt: Format, ctx: Ctx, d: nat, c: Cell, h: nat)
    requires d < ctx.Depth() && LeftOfCell(ctx, d) && IsCtx(ctx) && fmt.Valid() && CtxSound(fmt, ctx, h, -1)
    ensures var ctx' := SetCell(ctx, d, c);
      && IsCtx(ctx') && ctx'.Depth() == ctx.Depth() && CtxSound(fmt, ctx', h, d)
      && RootCells(ctx') == RootCells(ctx) && (ctx'.up.Top? <==> ctx.up.Top?)
    decreases ctx
  {
    hide Sound, Content;
    if ctx.up.Depth() == d {
      var p, n := ctx.page, ctx.n;
      ReplaceBytes(fmt, p, n, c);
      SizeBound(fmt, false, c);
      var p' := ReplaceCell(p, n, c);
      forall i | 0 <= i <= |p'.slots|
        ensures p'.Child(i) == p.Child(i)
      {}
      NoLooser(fmt, ctx.up, h + 1, -1, d);
    } else {
      SetCellSame(fmt, ctx.up, d, c, h + 1);
    }
  }

  // There is no page at a depth that is not above.
  lemma {:induction false} NoLooser(fmt: Format, ctx: Ctx, h: nat, d: int, d': int)
    requires CtxSound(fmt, ctx, h, d) && (d < 0 || d >= ctx.Depth()) && (d' < 0 || d' >= ctx.Depth())
    ensures CtxSound(fmt, ctx, h, d')
    decreases ctx
  {
    if ctx.Under? {
      NoLooser(fmt, ctx.up, h + 1, d, d');
    }
  }

  lemma {:induction false} SetCellEntries(ctx: Ctx, d: nat, c: Cell)
    requires IsCtx(ctx) && d < ctx.Depth() && LeftOfCell(ctx, d) && IsCtx(SetCell(ctx, d, c))
    ensures Ahead(false, SetCell(ctx, d, c)) == Ahead(false, ctx)
    ensures |Behind(false, ctx)| > 0 && Behind(false, SetCell(ctx, d, c)) == Behind(false, ctx)[0 := c]
    decreases ctx
  {
    hide Flat, Entries;
    var ctx' := SetCell(ctx, d, c);
    if ctx.up.Depth() == d {
      var p, n := ctx.page, ctx.n;
      assert ctx'.page.slots[..n] == p.slots[..n] && ctx'.page.slots[n + 1..] == p.slots[n + 1..];
    } else {
      SetCellEntries(ctx.up, d, c);
    }
  }

  /** What is known of the leaf with the entry before one of an interior page. */
  lemma BelowInterior(fmt: Format, root: Node, h: nat, pages0: seq<Node>, idx0: seq<nat>, pages: seq<Node>,
                      idx: seq<nat>)
    requires fmt.Valid() && !fmt.intKey && Finished(fmt, root, h)
    requires AtCell(root, h, pages0, idx0) && Last(pages0).Interior? && AtCell(root, h, pages, idx)
    requires LastBelowChild(pages0, idx0, pages, idx)
    ensures Last(pages).Leaf? && IsCtx(CtxOf(pages, idx)) && |pages0| - 1 < CtxOf(pages, idx).Depth() == h
    ensures LeftOfCell(CtxOf(pages, idx), |pages0| - 1)
    ensures var ctx, cells := CtxOf(pages, idx), Last(pages).cells;
      && Plug(ctx, Leaf(cells)) == root && cells != []
      && CtxSound(fmt, ctx, 0, -1) && Content(fmt, Leaf(cells)) <= fmt.Capacity(true)
      && (fmt.hdr == 0 ==> RootCells(ctx) > 0)
      && Position(false, root, h, pages, idx) + 1 == |Ahead(false, ctx)| + |cells|
  {
    hide Sound, ChildrenSound, Wf, Entries, Plug, Separated, Content, Ascending, CtxSound, CtxOf, Ahead, Behind,
      LeftOfCell, Base, Position,
      RootCells;
    AroundPage(fmt, root, h, pages, idx);
    LeafHeight(fmt, Last(pages), h - (|pages| - 1));
    CtxOfLeftOfCell(root, h, pages0, idx0, pages, idx);
    LeafPosition(false, root, h, pages, idx);
  }

  // The last cell of a leaf moves up into the place of the cell that follows it.
  lemma MovedUp(fmt: Format, ctx: Ctx, cells: seq<Cell>, d: nat)
    requires fmt.Valid() && !fmt.intKey && cells != [] && IsCtx(ctx) && d < ctx.Depth() && LeftOfCell(ctx, d)
    requires CtxSound(fmt, ctx, 0, -1) && Content(fmt, Leaf(cells)) <= fmt.Capacity(true)
    requires fmt.hdr == 0 ==> RootCells(ctx) > 0
    ensures var es, p := Entries(false, Plug(ctx, Leaf(cells))), |Ahead(false, ctx)| + |cells|;
      p < |es| && Unbalanced(fmt, SetCell(ctx, d, Last(cells)), Leaf(ButLast(cells)), 0, d, false, 0, RemoveAt(es, p))
  {
    hide Sound, Wf, SepAll, Entries, Plug, Content, Splits, CtxSound, OverBy, Ahead, Behind, SetCell, LeftOfCell,
      RootCells;
    var pred, n := Last(cells), |cells| - 1;
    var ctx', page' := SetCell(ctx, d, pred), Leaf(ButLast(cells));
    SetCellSame(fmt, ctx, d, pred, 0);
    SetCellEntries(ctx, d, pred);
    assert ButLast(cells) == RemoveAt(cells, n);
    RemovedLeaf(fmt, cells, n);
    PlugEntries(false, ctx, Leaf(cells));
    PlugEntries(false, ctx', page');
    LeafEntries(false, cells);
    LeafEntries(false, page'.cells);
    MoveUp(Ahead(false, ctx), cells, Behind(false, ctx));
  }

  lemma MoveUp<T>(a: seq<T>, m: seq<T>, b: seq<T>)
    requires m != [] && b != []
    ensures a + ButLast(m) + b[0 := Last(m)] == RemoveAt(a + m + b, |a| + |m|)
  {}

  // ----- The finished tree -----

  lemma {:induction false} PlugSound(fmt: Format, ctx: Ctx, cur: Node, h: nat)
    requires IsCtx(ctx) && CtxSound(fmt, ctx, h, -1) && ChildrenSound(fmt, cur, h)
    requires Content(fmt, cur) <= Room(fmt, ctx, cur) && (ctx.Under? ==> cur.NCell() > 0)
    ensures var root := Plug(ctx, cur);
      && ChildrenSound(fmt, root, h + ctx.Depth()) && Content(fmt, root) <= Room(fmt, Top, root)
      && root.NCell() == (if ctx.Top? then cur.NCell() else RootCells(ctx))
      && (ctx.Top? ==> root == cur)
    decreases ctx
  {
    hide Content;
    if ctx.Under? {
      var p := SetChild(ctx.page, ctx.n, cur);
      SetChildHas(ctx.page, ctx.n, cur);
      forall i | 0 <= i <= |p.slots|
        ensures p.Child(i).NCell() > 0 && Sound(fmt, p.Child(i), h)
      {
        if i != ctx.n {
          SetChildOther(ctx.page, ctx.n, cur, i);
        }
      }
      SameContent(fmt, ctx.page, ctx.n, cur);
      PlugSound(fmt, ctx.up, p, h + 1);
    }
  }

  lemma SameContent(fmt: Format, p: Node, n: nat, t: Node)
    requires p.Interior? && n <= |p.slots|
    ensures Content(fmt, SetChild(p, n, t)) == Content(fmt, p)
  {
    AssembleContent(fmt, p, n, n, [], t);
    assert p.slots[n..n] == [];
    NoBytes(fmt);
  }

  lemma SettledIsFitted(fmt: Format, ctx: Ctx, cur: Node, h: nat, d: int, es: seq<Cell>)
    requires Settled(fmt, ctx, cur, h, d, es) && (d < 0 || d >= ctx.Depth())
    ensures IsCtx(ctx) && Fitted(fmt, Plug(ctx, cur), h + ctx.Depth()) && Entries(fmt.intKey, Plug(ctx, cur)) == es
  {
    hide Sound, ChildrenSound, Content, Splits, Entries, CtxSound, Plug;
    NoLooser(fmt, ctx, h, d, -1);
    PlugSound(fmt, ctx, cur, h);
  }

  // The verdict on the separators, in terms of keys.
  lemma SepIsSeparated(root: Node, h: nat, es: seq<Cell>)
    requires Wf(root, h) && Entries(true, root) == es && Ascending(es)
    ensures SepAll(es, 0, root) <==> Separated(root)
  {
    hide Entries, SepAll, Separated, Wf, Ascending;
    StandsAtZero(es);
    if SepAll(es, 0, root) {
      SepToSeparated(es, 0, root);
    }
    if Separated(root) {
      SeparatedToSep(es, 0, root, h);
    }
  }

  lemma SettledIsFinished(fmt: Format, ctx: Ctx, cur: Node, h: nat, d: int, es: seq<Cell>, bBulk: bool)
    requires Settled(fmt, ctx, cur, h, d, es) && (d < 0 || d >= ctx.Depth())
      && Parted(fmt, ctx, cur, false, bBulk, es, Right)
    ensures IsCtx(ctx) && Finished(fmt, Plug(ctx, cur), h + ctx.Depth()) && Entries(fmt.intKey, Plug(ctx, cur)) == es
  {
    hide Fitted, Settled, Entries, SepAll, Ascending, Separated, Plug, Wf;
    SettledIsFitted(fmt, ctx, cur, h, d, es);
    if fmt.intKey {
      FittedIsWf(fmt, Plug(ctx, cur), h + ctx.Depth());
      SepIsSeparated(Plug(ctx, cur), h + ctx.Depth(), es);
    }
  }

  // ----- A second round of balancing, from a page further up -----

  /** One page up without balancing. */
  lemma StepUp(fmt: Format, ctx: Ctx, cur: Node, h: nat, d: int, es: seq<Cell>)
    requires Settled(fmt, ctx, cur, h, d, es) && ctx.Under? && !fmt.intKey
    ensures ctx.page.Interior? && ctx.n <= |ctx.page.slots|
    ensures ctx.up.Depth() != d ==> Settled(fmt, ctx.up, SetChild(ctx.page, ctx.n, cur), h + 1, d, es)
    ensures ctx.up.Depth() == d ==>
      var p := SetChild(ctx.page, ctx.n, cur);
      Unbalanced(fmt, ctx.up, p, h + 1, -1, Content(fmt, p) > Room(fmt, ctx.up, p), 0, es)
  {
    hide Sound, Content, Splits, Entries, SepAll, Ascending, Bytes, OverBy, SetChild;
    var p := SetChild(ctx.page, ctx.n, cur);
    ParentFacts(fmt, ctx, cur, h, d, false, 0, es);
    SettledSound(fmt, ctx, cur, h);
    forall i | 0 <= i <= |p.slots|
      ensures p.Child(i).NCell() > 0 && Sound(fmt, p.Child(i), h)
    {
      if i != ctx.n {
        FamilyChild(fmt, p, h, ctx.n, i);
      }
    }
    SameContent(fmt, ctx.page, ctx.n, cur);
    CrowdedPage(fmt, p);
    SomeCells(fmt, p);
    if ctx.up.Depth() == d {
      NoLooser(fmt, ctx.up, h + 1, d, -1);
    }
  }

  lemma SettledSound(fmt: Format, ctx: Ctx, cur: Node, h: nat)
    requires ChildrenSound(fmt, cur, h) && Content(fmt, cur) <= Room(fmt, ctx, cur)
    ensures Sound(fmt, cur, h)
  {}

  lemma SettledIsCtx(fmt: Format, ctx: Ctx, cur: Node, h: nat, d: int, es: seq<Cell>)
    requires Settled(fmt, ctx, cur, h, d, es)
    ensures IsCtx(ctx)
  {}

  method ClimbTo(fmt: Format, ctx0: Ctx, cur0: Node, ghost h0: nat, d: nat, ghost es: seq<Cell>)
    returns (ctx: Ctx, cur: Node, ghost h: nat)
    requires Settled(fmt, ctx0, cur0, h0, d, es) && ctx0.Depth() > d && !fmt.intKey
    ensures Unbalanced(fmt, ctx, cur, h, -1, Content(fmt, cur) > Room(fmt, ctx, cur), 0, es)
    ensures IsCtx(ctx0) && IsCtx(ctx) && ctx.Depth() == d && Plug(ctx, cur) == Plug(ctx0, cur0)
  {
    hide Settled, Unbalanced, Content;
    ctx, cur, h := ctx0, cur0, h0;
    SettledIsCtx(fmt, ctx0, cur0, h0, d, es);
    while ctx.up.Depth() > d
      invariant ctx.Depth() > d && Settled(fmt, ctx, cur, h, d, es)
      invariant IsCtx(ctx) && Plug(ctx, cur) == Plug(ctx0, cur0)
      decreases ctx.Depth()
    {
      StepUp(fmt, ctx, cur, h, d, es);
      ctx, cur, h := ctx.up, SetChild(ctx.page, ctx.n, cur), h + 1;
    }
    StepUp(fmt, ctx, cur, h, d, es);
    ctx, cur, h := ctx.up, SetChild(ctx.page, ctx.n, cur), h + 1;
  }

  // ----- The tree as an ordered map -----

  /** The entries with c put in its place, or in the place of the entry with its key. */
  function Upsert(es: seq<Cell>, c: Cell): seq<Cell> {
    if es == [] || c.key < es[0].key then [c] + es
    else if c.key == es[0].key then [c] + es[1..]
    else [es[0]] + Upsert(es[1..], c)
  }

  function ToMap(es: seq<Cell>): map<Key, seq<bv8>> {
    if es == [] then map[] else ToMap(es[..|es| - 1])[es[|es| - 1].key := es[|es| - 1].payload]
  }

  lemma BracketTail(es: seq<Cell>, key: Key, p: nat)
    requires Bracket(es, key, p, p) && p > 0
    ensures es != [] && es[0].key < key && Bracket(es[1..], key, p - 1, p - 1)
  {}

  lemma InsertTail<T>(s: seq<T>, p: nat, x: T)
    requires 0 < p <= |s|
    ensures InsertAt(s, p, x) == [s[0]] + InsertAt(s[1..], p - 1, x)
  {}

  lemma {:induction false} UpsertIsInsert(es: seq<Cell>, c: Cell, p: nat)
    requires Bracket(es, c.key, p, p)
    ensures Upsert(es, c) == InsertAt(es, p, c)
  {
    if p == 0 {
      assert InsertAt(es, 0, c) == [c] + es;
    } else {
      BracketTail(es, c.key, p);
      UpsertIsInsert(es[1..], c, p - 1);
      InsertTail(es, p, c);
    }
  }

  lemma {:induction false} UpsertIsReplace(es: seq<Cell>, c: Cell, p: nat)
    requires Ascending(es) && p < |es| && es[p].key == c.key
    ensures Upsert(es, c) == es[p := c]
  {
    if p > 0 {
      assert es[0].key < es[p].key;
      UpsertIsReplace(es[1..], c, p - 1);
    }
  }

  lemma {:induction false} UpsertAscends(es: seq<Cell>, c: Cell)
    requires Ascending(es)
    ensures Ascending(Upsert(es, c))
    ensures forall x :: x in Upsert(es, c) ==> x in es || x == c
  {
    if es != [] && c.key > es[0].key {
      UpsertAscends(es[1..], c);
      var rest := Upsert(es[1..], c);
      forall i | 0 <= i < |rest|
        ensures rest[i].key > es[0].key
      {
        assert rest[i] in rest;
      }
    }
  }

  // Where a key is found.
  lemma {:induction false} Lookup(es: seq<Cell>, k: Key) returns (i: int)
    requires Ascending(es)
    ensures k in ToMap(es) ==> 0 <= i < |es| && es[i].key == k && ToMap(es)[k] == es[i].payload
    ensures k !in ToMap(es) ==> forall j :: 0 <= j < |es| ==> es[j].key != k
  {
    var n := |es| - 1;
    if n < 0 {
      i := -1;
    } else if es[n].key == k {
      i := n;
    } else {
      i := Lookup(es[..n], k);
    }
  }

  lemma LookupEntry(es: seq<Cell>, i: nat)
    requires Ascending(es) && i < |es|
    ensures es[i].key in ToMap(es) && ToMap(es)[es[i].key] == es[i].payload
  {
    var j := Lookup(es, es[i].key);
    assert i == j by {
      assert es[i].key == es[j].key;
    }
  }

  /** Upsert is the update of the map, and taking an entry out is the removal of its key. */
  lemma UpsertUpdates(es: seq<Cell>, c: Cell)
    requires Ascending(es)
    ensures Ascending(Upsert(es, c)) && ToMap(Upsert(es, c)) == ToMap(es)[c.key := c.payload]
  {
    hide Upsert, ToMap, Ascending;
    var es' := Upsert(es, c);
    UpsertAscends(es, c);
    UpsertHas(es, c);
    var m, m' := ToMap(es)[c.key := c.payload], ToMap(es');
    forall k
      ensures k in m <==> k in m'
      ensures k in m ==> m[k] == m'[k]
    {
      var i := Lookup(es, k);
      var j := Lookup(es', k);
      if k == c.key {
        var x :| 0 <= x < |es'| && es'[x] == c;
        LookupEntry(es', x);
      } else if k in m {
        assert es[i] in es';
        var x :| 0 <= x < |es'| && es'[x] == es[i];
        LookupEntry(es', x);
      }
    }
  }

  lemma {:induction false} UpsertHas(es: seq<Cell>, c: Cell)
    requires Ascending(es)
    ensures c in Upsert(es, c) && forall x :: x in es && x.key != c.key ==> x in Upsert(es, c)
  {
    if es != [] && c.key > es[0].key {
      UpsertHas(es[1..], c);
      forall x | x in es && x.key != c.key
        ensures x in Upsert(es, c)
      {
        assert x == es[0] || x in es[1..];
      }
    }
  }

  lemma RemovedKey(es: seq<Cell>, p: nat, k: Key)
    requires Ascending(es) && p < |es| && Ascending(RemoveAt(es, p))
    ensures k in ToMap(RemoveAt(es, p)) <==> k in ToMap(es) && k != es[p].key
    ensures k in ToMap(RemoveAt(es, p)) ==> ToMap(RemoveAt(es, p))[k] == ToMap(es)[k]
  {
    hide ToMap;
    var es' := RemoveAt(es, p);
    var i := Lookup(es, k);
    var j := Lookup(es', k);
    if k in ToMap(es') {
      var x := if j < p then j else j + 1;
      assert es'[j] == es[x];
      LookupEntry(es, x);
    }
    if k in ToMap(es) && k != es[p].key {
      var x := if i < p then i else i - 1;
      assert es'[x] == es[i];
      LookupEntry(es', x);
    }
  }

  lemma RemovalRemoves(es: seq<Cell>, p: nat)
    requires Ascending(es) && p < |es|
    ensures Ascending(RemoveAt(es, p)) && ToMap(RemoveAt(es, p)) == ToMap(es) - {es[p].key}
  {
    AscendingRemoved(es, p);
    hide ToMap, Ascending, RemoveAt;
    var m, m' := ToMap(es), ToMap(RemoveAt(es, p));
    forall k: Key
      ensures k in m' <==> k in m && k != es[p].key
      ensures k in m' ==> m'[k] == m[k]
    {
      RemovedKey(es, p, k);
    }
    WithoutKey(m, m', es[p].key);
  }

  lemma WithoutKey(m: map<Key, seq<bv8>>, m': map<Key, seq<bv8>>, key: Key)
    requires forall k :: k in m' <==> k in m && k != key
    requires forall k :: k in m' ==> m'[k] == m[k]
    ensures m' == m - {key}
  {
    var d := m - {key};
    assert forall k :: k in m' <==> k in d;
    assert forall k :: k in m' ==> m'[k] == d[k];
    assert m'.Keys == d.Keys && m' == d;
  }

  // ----- Where to insert -----

  /** A cursor that a search for the key with result loc has left at an entry, or in an empty tree. */
  ghost predicate InsertionPoint(intKey: bool, root: Node, h: nat, eState: State, pages: seq<Node>, idx: seq<nat>,
                                 key: Key, loc: int) {
    if eState == INVALID then loc < 0 && pages == [root] && idx == [0] && root == Leaf([]) && Wf(root, h)
    else
      && eState == VALID && Sought(intKey, root, h, VALID, pages, idx, key, loc)
      && (loc != 0 ==> WellPlaced(intKey, root, h, pages, idx, key, loc))
  }

  // Behind the last entry of the tree the path has no separators.
  lemma {:induction false} EndIsRouted(ctx: Ctx, t: Node, x: Cell, key: Key, h: nat)
    requires IsCtx(ctx) && Separated(Plug(ctx, t)) && Wf(Plug(ctx, t), h + ctx.Depth())
    requires x in Entries(true, t) && x.key < key && Behind(true, ctx) == []
    ensures CtxRouted(ctx, key)
    decreases ctx
  {
    hide Separated, Wf, Entries, SetChild, Flat, Rest, RoutedAt;
    if ctx.Under? {
      PlugSeparatedDown(ctx.up, SetChild(ctx.page, ctx.n, t));
      PlugWfDown(ctx.up, SetChild(ctx.page, ctx.n, t), h + 1);
      EndIsRoutedAt(ctx.page, ctx.n, t, x, key, h);
      EndIsRouted(ctx.up, SetChild(ctx.page, ctx.n, t), x, key, h + 1);
    }
  }

  lemma EndIsRoutedAt(page: Node, n: nat, t: Node, x: Cell, key: Key, h: nat)
    requires page.Interior? && n <= |page.slots| && Separated(SetChild(page, n, t)) && Wf(SetChild(page, n, t), h + 1)
    requires x in Entries(true, t) && x.key < key && Rest(true, page, n) == []
    ensures RoutedAt(page, n, key) && x in Entries(true, SetChild(page, n, t))
  {
    hide Separated, Wf, Entries, SetChild, Flat;
    var p := SetChild(page, n, t);
    SetChildHas(page, n, t);
    SeparatedAt(p, n);
    if n < |page.slots| {
      SetChildOther(page, n, t, |page.slots|);
      ChildFacts(p, h + 1, |p.slots|);
    }
    AssembleEntries(true, page, n, n, [], t);
    NoEntries(true);
    SetChildIs(page, n, t);
  }

  lemma SetChildIs(page: Node, n: nat, t: Node)
    requires page.Interior? && n <= |page.slots|
    ensures SetChild(page, n, t) == Assemble(page, n, n, [], t)
  {}

  // The position of an entry, seen from the page.
  lemma PositionOffset(intKey: bool, root: Node, h: nat, pages: seq<Node>, idx: seq<nat>)
    requires AtEntry(intKey, root, h, pages, idx) && IsCtx(CtxOf(pages, idx))
    ensures Position(intKey, root, h, pages, idx)
      == |Ahead(intKey, CtxOf(pages, idx))| + CellOffset(intKey, Last(pages), Last(idx))
    ensures Position(intKey, root, h, pages, idx) < |Entries(intKey, root)|
  {
    CtxOfAhead(intKey, root, h, pages, idx);
    EntryAtPosition(intKey, root, h, pages, idx);
    if Last(pages).Interior? {
      BeforeIsFlat(intKey, Last(pages), Last(idx));
    }
  }

  lemma PointIsRouted(root: Node, h: nat, pages: seq<Node>, idx: seq<nat>, key: Key, loc: int)
    requires Ordered(true, root) && Wf(root, h) && IsCtx(CtxOf(pages, idx))
    requires Sought(true, root, h, VALID, pages, idx, key, loc) && WellPlaced(true, root, h, pages, idx, key, loc)
      && loc != 0
    ensures CtxRouted(CtxOf(pages, idx), key)
  {
    hide Position, Entries, Separated, Ascending, Wf, Ahead, Behind, CellOffset, Routed;
    if Routed(pages, idx, key) {
      CtxOfRouted(root, h, pages, idx, key);
    } else {
      var ctx, page, n := CtxOf(pages, idx), Last(pages), Last(idx);
      CtxOfPath(root, h, pages, idx);
      IndicesFit(root, h, pages, idx);
      PositionOffset(true, root, h, pages, idx);
      EntryAtPosition(true, root, h, pages, idx);
      PlugEntries(true, ctx, page);
      LeafEntries(true, page.cells);
      LeafOffset(page, n);
      EndIsRouted(ctx, page, page.cells[n], key, 0);
    }
  }

  lemma LeafOffset(p: Node, n: nat)
    requires p.Leaf? && n < |p.cells|
    ensures CellOffset(true, p, n) == CellOffset(false, p, n) == n
  {}

  // The index at which the new cell goes onto the leaf.
  function NewIndex(page: Node, idx: nat, loc: int): nat { if loc < 0 && page.NCell() > 0 then idx + 1 else idx }

  /** Where the new cell goes among all entries, after a search: where Upsert puts it, on the leaf for its key. */
  lemma PointPlace(fmt: Format, root: Node, h: nat, eState: State, pages: seq<Node>, idx: seq<nat>, c: Cell, loc: int)
    requires fmt.Valid() && Finished(fmt, root, h) && Ordered(fmt.intKey, root)
    requires InsertionPoint(fmt.intKey, root, h, eState, pages, idx, c.key, loc) && loc != 0
    ensures IsPath(root, h, pages, idx) && Last(pages).Leaf? && IsCtx(CtxOf(pages, idx))
    ensures NewIndex(Last(pages), Last(idx), loc) <= |Last(pages).cells|
    ensures var ctx, p := CtxOf(pages, idx), |Ahead(fmt.intKey, CtxOf(pages, idx))| + NewIndex(Last(pages), Last(idx),
        loc);
      && p <= |Entries(fmt.intKey, root)|
      && Upsert(Entries(fmt.intKey, root), c) == InsertAt(Entries(fmt.intKey, root), p, c)
      && (fmt.intKey ==> CtxRouted(ctx, c.key))
  {
    hide Position, Entries, Separated, Ascending, Wf, Ahead, CellOffset, Routed, CtxRouted, Upsert, Base, WellPlaced,
      Bracket, Sought, Finished;
    if eState == INVALID {
      EmptyPlace(fmt, root, c);
    } else {
      EntryPlace(fmt.intKey, root, h, pages, idx, c, loc);
      if fmt.intKey {
        PointIsRouted(root, h, pages, idx, c.key, loc);
      }
    }
  }

  lemma EmptyPlace(fmt: Format, root: Node, c: Cell)
    requires root == Leaf([])
    ensures CtxOf([root], [0]) == Top && |Ahead(fmt.intKey, Top)| == 0 && CtxRouted(Top, c.key)
    ensures Entries(fmt.intKey, root) == [] && Upsert([], c) == InsertAt([], 0, c)
  {}

  lemma EntryPlace(intKey: bool, root: Node, h: nat, pages: seq<Node>, idx: seq<nat>, c: Cell, loc: int)
    requires Sought(intKey, root, h, VALID, pages, idx, c.key, loc) && loc != 0
    requires WellPlaced(intKey, root, h, pages, idx, c.key, loc)
    ensures IsPath(root, h, pages, idx) && Last(pages).Leaf? && IsCtx(CtxOf(pages, idx))
      && Last(idx) < |Last(pages).cells|
    ensures var p := |Ahead(intKey, CtxOf(pages, idx))| + NewIndex(Last(pages), Last(idx), loc);
      p <= |Entries(intKey, root)| && Upsert(Entries(intKey, root), c) == InsertAt(Entries(intKey, root), p, c)
  {
    hide Position, Entries, Wf, Ahead, CellOffset, Routed, Upsert, Base, Bracket;
    CtxOfPath(root, h, pages, idx);
    PositionOffset(intKey, root, h, pages, idx);
    LeafOffset(Last(pages), Last(idx));
    UpsertIsInsert(Entries(intKey, root), c,
                   |Ahead(intKey, CtxOf(pages, idx))| + NewIndex(Last(pages), Last(idx), loc));
  }

  /** The insertion of a new key. */
  lemma InsertionReady(fmt: Format, root: Node, h: nat, eState: State, pages: seq<Node>, idx: seq<nat>, c: Cell,
                       loc: int,
                       bBulk: bool)
    requires fmt.Valid() && Finished(fmt, root, h) && Ordered(fmt.intKey, root)
    requires InsertionPoint(fmt.intKey, root, h, eState, pages, idx, c.key, loc) && loc != 0
    ensures CellReady(fmt, root, h, pages, idx, c, loc, bBulk, Upsert(Entries(fmt.intKey, root), c), Right)
  {
    hide Entries, Ordered, Ahead, CtxRouted, Upsert, Unbalanced, Content, Plug, Finished, InsertionPoint, CtxOf,
      Ascending, SepAll, Divided;
    PointPlace(fmt, root, h, eState, pages, idx, c, loc);
    var n := NewIndex(Last(pages), Last(idx), loc);
    Inserted(fmt, root, h, pages, idx, n, c);
    EntriesAscend(fmt.intKey, root);
    UpsertAscends(Entries(fmt.intKey, root), c);
    if fmt.intKey {
      InsertedRight(fmt, root, h, pages, idx, n, c);
    }
    RightDivided(fmt, CtxOf(pages, idx), Leaf(InsertAt(Last(pages).cells, n, c)), bBulk,
                 Upsert(Entries(fmt.intKey, root), c));
  }

  /** The separators after a page has been changed: at once, or after it has been balanced because it holds too much. */
  ghost predicate Divided(fmt: Format, ctx: Ctx, page': Node, bBulk: bool, es: seq<Cell>, sep: Seps) {
    && IsCtx(ctx)
    && if Content(fmt, page') > Room(fmt, ctx, page') then Parted(fmt, ctx, page', true, bBulk, es, sep)
       else fmt.intKey && !sep.Unclear? ==> Ascending(es) && (SepAll(es, 0, Plug(ctx, page')) <==> sep.Right?)
  }

  lemma RightDivided(fmt: Format, ctx: Ctx, page': Node, bBulk: bool, es: seq<Cell>)
    requires IsCtx(ctx) && (fmt.intKey ==> Ascending(es) && SepAll(es, 0, Plug(ctx, page')))
    ensures Divided(fmt, ctx, page', bBulk, es, Right)
  {
    hide SepAll, Ascending, Plug, Content, Parted;
    AllRight(fmt, ctx, page', true, bBulk, es);
  }

  lemma UnclearDivided(fmt: Format, ctx: Ctx, page': Node, bBulk: bool, es: seq<Cell>)
    requires IsCtx(ctx)
    ensures Divided(fmt, ctx, page', bBulk, es, Unclear)
  {}

  /**
  A cell that may now go onto the page of the cursor: over its cell, behind or before it; es is what comes of that.
  */
  ghost predicate CellReady(fmt: Format, root: Node, h: nat, pages: seq<Node>, idx: seq<nat>, c: Cell, loc: int,
                            bBulk: bool,
                            es: seq<Cell>, sep: Seps) {
    && IsPath(root, h, pages, idx) && |pages| - 1 <= h && IsCtx(CtxOf(pages, idx))
    && var ctx, page, idx' := CtxOf(pages, idx), Last(pages), NewIndex(Last(pages), Last(idx), loc);
      if loc == 0 then
        && idx' < page.NCell() && (page.Leaf? || !fmt.intKey)
        && var page' := ReplaceCell(page, idx', c);
          && Unbalanced(fmt, ctx, page', h - (|pages| - 1), -1, Content(fmt, page') > Room(fmt, ctx, page'), idx', es)
          && Divided(fmt, ctx, page', bBulk, es, sep)
      else
        && page.Leaf? && idx' <= |page.cells| && |pages| - 1 == h
        && var page' := Leaf(InsertAt(page.cells, idx', c));
          && Unbalanced(fmt, ctx, page', 0, -1, Content(fmt, page') > Room(fmt, ctx, page'), idx', es)
          && Divided(fmt, ctx, page', bBulk, es, sep)
  }

  /** The replacement of the current entry, in whatever order the entries are then. */
  lemma OverwriteReady(fmt: Format, root: Node, h: nat, pages: seq<Node>, idx: seq<nat>, c: Cell, bBulk: bool)
    requires fmt.Valid() && Finished(fmt, root, h) && Ordered(fmt.intKey, root)
      && AtEntry(fmt.intKey, root, h, pages, idx)
    ensures Position(fmt.intKey, root, h, pages, idx) < |Entries(fmt.intKey, root)|
    ensures var es' := Entries(fmt.intKey, root)[Position(fmt.intKey, root, h, pages, idx) := c];
      CellReady(fmt, root, h, pages, idx, c, 0, bBulk, es',
                if Last(pages).CellAt(Last(idx)).key == c.key then Right else Unclear)
  {
    hide Position, Entries, Separated, Ascending, Wf, Ahead, Behind, CellOffset, Upsert, Unbalanced, ChildrenSound,
      Content, Plug, Base,
      Divided, SepAll, Finished, CtxOf;
    CtxOfPath(root, h, pages, idx);
    PositionOffset(fmt.intKey, root, h, pages, idx);
    EntryAtPosition(fmt.intKey, root, h, pages, idx);
    EntriesAscend(fmt.intKey, root);
    Overwritten(fmt, root, h, pages, idx, c);
    PlugReplaced(fmt.intKey, CtxOf(pages, idx), Last(pages), Last(idx), c);
    var es, p := Entries(fmt.intKey, root), Position(fmt.intKey, root, h, pages, idx);
    UnclearDivided(fmt, CtxOf(pages, idx), ReplaceCell(Last(pages), Last(idx), c), bBulk, es[p := c]);
    if Last(pages).CellAt(Last(idx)).key == c.key {
      SameKeyAscends(es, p, c);
      if fmt.intKey {
        OverwrittenRight(fmt, root, h, pages, idx, c);
      }
      RightDivided(fmt, CtxOf(pages, idx), ReplaceCell(Last(pages), Last(idx), c), bBulk, es[p := c]);
    }
  }

  lemma SameKeyAscends(es: seq<Cell>, p: nat, c: Cell)
    requires Ascending(es) && p < |es| && es[p].key == c.key
    ensures Ascending(es[p := c])
  {}

  lemma EntriesAscend(intKey: bool, root: Node)
    requires Ordered(intKey, root)
    ensures Ascending(Entries(intKey, root))
  {}

  // ----- The path of the cursor after a change of its page -----

  function PagesOf(ctx: Ctx, cur: Node): seq<Node>
    requires IsCtx(ctx)
    decreases ctx
  {
    if ctx.Top? then [cur] else PagesOf(ctx.up, SetChild(ctx.page, ctx.n, cur)) + [cur]
  }

  function IdxOf(ctx: Ctx, n: nat): seq<nat> {
    if ctx.Top? then [n] else IdxOf(ctx.up, ctx.n) + [n]
  }

  lemma {:induction false} PagesOfPath(ctx: Ctx, cur: Node, n: nat, h: nat)
    requires IsCtx(ctx) && Wf(Plug(ctx, cur), h) && n <= cur.NCell()
    ensures IsPath(Plug(ctx, cur), h, PagesOf(ctx, cur), IdxOf(ctx, n))
    ensures Last(PagesOf(ctx, cur)) == cur && Last(IdxOf(ctx, n)) == n
    decreases ctx
  {
    if ctx.Under? {
      var p := SetChild(ctx.page, ctx.n, cur);
      SetChildHas(ctx.page, ctx.n, cur);
      PagesOfPath(ctx.up, p, ctx.n, h);
      var pages, idx := PagesOf(ctx.up, p), IdxOf(ctx.up, ctx.n);
      forall i | 0 <= i < |pages|
        ensures var pages', idx' := pages + [cur], idx + [n];
          pages'[i].Interior? && idx'[i] <= |pages'[i].slots| && pages'[i + 1] == pages'[i].Child(idx'[i])
      {
        if i == |pages| - 1 {
          assert pages[i] == p && idx[i] == ctx.n;
        }
      }
    }
  }

  lemma {:induction false} IdxOfCtx(root: Node, h: nat, pages: seq<Node>, idx: seq<nat>, n: nat)
    requires IsPath(root, h, pages, idx)
    ensures IdxOf(CtxOf(pages, idx), n) == ButLast(idx) + [n]
    decreases |pages|
  {
    if |pages| > 1 {
      Pop(true, root, h, pages, idx);
      IdxOfCtx(root, h, ButLast(pages), ButLast(idx), Last(ButLast(idx)));
      assert ButLast(idx) == ButLast(ButLast(idx)) + [Last(ButLast(idx))];
    }
  }

  lemma SettledWithout(fmt: Format, ctx: Ctx, cur: Node, h: nat, x: nat, es: seq<Cell>)
    requires Unbalanced(fmt, ctx, cur, h, -1, false, x, es) && cur.NCell() > 0
    ensures Settled(fmt, ctx, cur, h, -1, es)
  {
    hide Sound, ChildrenSound, Content, Splits, Entries, SepAll, Ascending, CtxSound, Plug, OverBy;
  }

  lemma FinishedIsOrdered(fmt: Format, root: Node, h: nat)
    requires Finished(fmt, root, h) && Ascending(Entries(fmt.intKey, root))
    ensures Wf(root, h) && Ordered(fmt.intKey, root)
  {
    SoundIsWf(fmt, root, h);
  }

  // ----- Behind the current entry, without a search -----

  /** The separator behind child n, if there is one, is not below the key. */
  predicate Bounded(p: Node, n: nat, key: Key) { n < p.NCell() ==> key <= p.CellAt(n).key }

  predicate AllBounded(ctx: Ctx, key: Key) { ctx.Under? ==> Bounded(ctx.page, ctx.n, key) && AllBounded(ctx.up, key) }

  /**
  The separators behind the current leaf leave room for the key. The one next to the leaf need not, when the leaf is
  going to hold too much, so that balancing puts another one in its place.
  */
  predicate Open(ctx: Ctx, key: Key, over: bool, bBulk: bool) {
    ctx.Under? ==>
      && (Bounded(ctx.page, ctx.n, key) || (over && Mends(ctx.page.NCell(), ctx.n, bBulk)))
      && AllBounded(ctx.up, key)
  }

  lemma {:induction false} BoundedIsRouted(ctx: Ctx, x: Key, key: Key)
    requires IsCtx(ctx) && CtxRouted(ctx, x) && x < key && AllBounded(ctx, key)
    ensures CtxRouted(ctx, key)
    decreases ctx
  {
    if ctx.Under? {
      BoundedIsRouted(ctx.up, x, key);
    }
  }

  // Separators that are right leave room for every entry before them.
  lemma {:induction false} CtxSepBounds(es: seq<Cell>, ctx: Ctx, n: nat, p: nat)
    requires IsCtx(ctx) && CtxSep(es, ctx, n) && p < |es| && p < |Ahead(true, ctx)| + n
    ensures AllBounded(ctx, es[p].key)
    decreases ctx
  {
    hide Flat, RunSep, Rest, SepAll, Entries;
    if ctx.Under? {
      var size := |Flat(true, false, ctx.page.slots[..ctx.n])| + n;
      CtxSepBounds(es, ctx.up, size + |Rest(true, ctx.page, ctx.n)|, p);
    }
  }

  // The divider behind the leaf, put up to the key.
  function Raised(ctx: Ctx, key: Key): Ctx
    requires ctx.Under? && ctx.page.Interior? && ctx.n < |ctx.page.slots|
  {
    ctx.(page := ReplaceCell(ctx.page, ctx.n, Cell(key, [])))
  }

  lemma ReplaceAndSet(page: Node, n: nat, c: Cell, t: Node)
    requires page.Interior? && n < |page.slots|
    ensures SetChild(page, n, t).Interior? && |SetChild(page, n, t).slots| == |page.slots|
    ensures SetChild(ReplaceCell(page, n, c), n, t) == ReplaceCell(SetChild(page, n, t), n, c)
  {}

  // The cells of interior pages of a rowid tree are no entries.
  lemma ReplacedSeparator(p: Node, n: nat, c: Cell)
    requires p.Interior? && n < |p.slots|
    ensures var p' := ReplaceCell(p, n, c);
      && Entries(true, p') == Entries(true, p)
      && forall i :: 0 <= i <= |p.slots| ==> p'.Child(i) == p.Child(i)
  {
    var p' := ReplaceCell(p, n, c);
    AssembleSelf(p, n, n);
    AssembleSelf(p', n, n);
    assert p.slots[n..n] == [] && p'.slots[n..n] == [];
    AssembleEntries(true, p, n, n, [], p.Child(n));
    AssembleEntries(true, p', n, n, [], p'.Child(n));
    assert p'.slots[..n] == p.slots[..n] && p'.slots[n + 1..] == p.slots[n + 1..];
  }

  lemma WithinPlug(ctx: Ctx, p: Node, i: nat, x: Cell)
    requires IsCtx(ctx) && p.Interior? && i <= |p.slots| && x in Entries(true, p.Child(i))
    ensures x in Entries(true, Plug(ctx, p))
  {
    hide Entries, Plug, Ahead, Behind, Before, After;
    SplitAt(true, p, i);
    PlugEntries(true, ctx, p);
  }

  // A divider may go up as far as there are no entries in between.
  lemma RaisedSeparates(up: Ctx, p: Node, n: nat, x: Key, key: Key)
    requires IsCtx(up) && p.Interior? && n < |p.slots| && Separated(Plug(up, p)) && x <= p.slots[n].cell.key < key
    requires forall y :: y in Entries(true, Plug(up, p)) ==> y.key <= x || y.key > key
    ensures Separated(ReplaceCell(p, n, Cell(key, [])))
  {
    hide Entries, Separated, Plug;
    var p' := ReplaceCell(p, n, Cell(key, []));
    PlugSeparatedDown(up, p);
    ReplacedSeparator(p, n, Cell(key, []));
    forall i | 0 <= i <= |p'.slots|
      ensures SeparatedChild(p', i)
    {
      SeparatedAt(p, i);
      if i == n + 1 {
        var s := Entries(true, p.Child(i));
        forall k | 0 <= k < |s|
          ensures s[k].key > key
        {
          WithinPlug(up, p, i, s[k]);
        }
      }
    }
    ChildrenSeparate(p');
  }

  lemma RaisedWf(p: Node, n: nat, c: Cell, h: nat)
    requires p.Interior? && n < |p.slots| && Wf(p, h)
    ensures Wf(ReplaceCell(p, n, c), h)
  {
    ReplacedSeparator(p, n, c);
  }

  /** The tree with the divider put up to the key. */
  lemma RaisedTree(ctx: Ctx, t: Node, x: Cell, key: Key, h: nat)
    requires IsCtx(ctx) && ctx.Under? && ctx.n < |ctx.page.slots| && Wf(Plug(ctx, t), h + ctx.Depth())
    requires Separated(Plug(ctx, t)) && x in Entries(true, t) && x.key < key && ctx.page.slots[ctx.n].cell.key < key
    requires forall y :: y in Entries(true, Plug(ctx, t)) ==> y.key <= x.key || y.key > key
    requires AllBounded(ctx.up, key)
    ensures var ctx' := Raised(ctx, key);
      && IsCtx(ctx') && ctx'.Depth() == ctx.Depth() && CtxRouted(ctx', key)
      && Separated(Plug(ctx', t)) && Wf(Plug(ctx', t), h + ctx.Depth())
      && Entries(true, Plug(ctx', t)) == Entries(true, Plug(ctx, t))
  {
    hide Entries, Separated, Plug, Wf, Ahead, Behind, RoutedAt, SetChild;
    var ctx', c, p, n := Raised(ctx, key), Cell(key, []), SetChild(ctx.page, ctx.n, t), ctx.n;
    UnderPlug(ctx, t);
    UnderPlug(ctx', t);
    ReplaceAndSet(ctx.page, n, c, t);
    SetChildHas(ctx.page, n, t);
    PlugSeparatedDown(ctx.up, p);
    SeparatedAt(p, n);
    EntryIsRouted(ctx, t, x);
    RaisedSeparates(ctx.up, p, n, x.key, key);
    ReplacedSeparator(p, n, c);
    BoundedIsRouted(ctx.up, x.key, key);
    RaisedRoute(ctx.page, n, x.key, key);
    PlugEntries(true, ctx.up, p);
    PlugEntries(true, ctx.up, ReplaceCell(p, n, c));
    PlugWfDown(ctx.up, p, h + 1);
    RaisedWf(p, n, c, h + 1);
    PlugWf(ctx.up, p, ReplaceCell(p, n, c), h + 1);
    PlugSeparated(ctx.up, p, ReplaceCell(p, n, c), c);
  }

  lemma UnderPlug(ctx: Ctx, t: Node)
    requires IsCtx(ctx) && ctx.Under?
    ensures Plug(ctx, t) == Plug(ctx.up, SetChild(ctx.page, ctx.n, t)) && IsCtx(ctx.up)
  {}

  lemma RaisedRoute(p: Node, n: nat, x: Key, key: Key)
    requires p.Interior? && n < |p.slots| && RoutedAt(p, n, x) && x < key
    ensures RoutedAt(ReplaceCell(p, n, Cell(key, [])), n, key)
  {}

  // A divider that gives way to a new one does not matter.
  lemma RaisedStays(es: seq<Cell>, ctx: Ctx, cur: Node, key: Key, bBulk: bool)
    requires IsCtx(ctx) && ctx.Under? && ctx.n < |ctx.page.slots| && Mends(|ctx.page.slots|, ctx.n, bBulk)
    requires IsCtx(Raised(ctx, key)) && Stays(es, Raised(ctx, key), cur, bBulk, true)
    ensures Stays(es, ctx, cur, bBulk, true)
  {
    hide Flat, Entries, RunSep, SepAll, Cuts, CtxSep, Ahead, SetChild;
    var p, n, o := SetChild(ctx.page, ctx.n, cur), ctx.n, |Ahead(true, ctx.up)|;
    var c := Cell(key, []);
    ReplaceAndSet(ctx.page, n, c, cur);
    var p' := ReplaceCell(p, n, c);
    ReplacedSeparator(p, n, c);
    assert p'.slots[..n] == p.slots[..n];
    if n + 1 < |p.slots| {
      assert p'.slots[n + 2..] == p.slots[n + 2..];
    }
    FlatOfNext(p, n);
    FlatOfNext(p', n);
    assert p'.Child(n) == p.Child(n) && p'.Child(n + 1) == p.Child(n + 1);
  }

  /** The entry behind the current one is in order exactly when its key is above, with no other entry in between. */
  lemma PlacedBehind(es: seq<Cell>, p: nat, c: Cell)
    requires Ascending(es) && p < |es|
    ensures Ascending(InsertAt(es, p + 1, c)) <==>
      es[p].key < c.key && forall x :: x in es ==> x.key <= es[p].key || x.key > c.key
    ensures Ascending(InsertAt(es, p + 1, c)) ==> InsertAt(es, p + 1, c) == Upsert(es, c)
  {
    hide Upsert;
    var es' := InsertAt(es, p + 1, c);
    if Ascending(es') {
      assert es'[p] == es[p] && es'[p + 1] == c;
      forall x | x in es
        ensures x.key <= es[p].key || x.key > c.key
      {
        var i :| 0 <= i < |es| && es[i] == x;
        assert i > p ==> es'[i + 1] == x;
      }
      BehindBracket(es, p, c);
      UpsertIsInsert(es, c, p + 1);
    }
  }

  lemma BehindBracket(es: seq<Cell>, p: nat, c: Cell)
    requires Ascending(es) && p < |es| && Ascending(InsertAt(es, p + 1, c))
    ensures Bracket(es, c.key, p + 1, p + 1)
  {
    var es' := InsertAt(es, p + 1, c);
    assert es'[p + 1] == c;
    forall i | 0 <= i < |es|
      ensures i < p + 1 ==> es[i].key < c.key
      ensures i >= p + 1 ==> es[i].key > c.key
    {
      assert i < p + 1 ==> es'[i] == es[i];
      assert i >= p + 1 ==> es'[i + 1] == es[i];
    }
  }

  /** What becomes of the separators when a cell goes behind the current one. */
  ghost function Verdict(es': seq<Cell>, open: bool): Seps {
    if !Ascending(es') then Unclear else if open then Right else Wrong
  }

  /** The current page when the cell has been put behind its current one. */
  function WithBehind(pages: seq<Node>, idx: seq<nat>, c: Cell): Node
    requires pages != [] && idx != [] && Last(pages).Leaf? && Last(idx) < |Last(pages).cells|
  {
    Leaf(InsertAt(Last(pages).cells, Last(idx) + 1, c))
  }

  predicate OverflowsBehind(fmt: Format, pages: seq<Node>, idx: seq<nat>, c: Cell)
    requires pages != [] && idx != [] && Last(pages).Leaf? && Last(idx) < |Last(pages).cells|
  {
    Content(fmt, WithBehind(pages, idx, c)) > Room(fmt, CtxOf(pages, idx), WithBehind(pages, idx, c))
  }

  predicate OpenBehind(fmt: Format, pages: seq<Node>, idx: seq<nat>, c: Cell, bBulk: bool)
    requires pages != [] && idx != [] && Last(pages).Leaf? && Last(idx) < |Last(pages).cells|
  {
    Open(CtxOf(pages, idx), c.key, OverflowsBehind(fmt, pages, idx, c), bBulk)
  }

  /** A cell may go behind the current one; whether the separators are right in the end is known. */
  lemma BehindReady(fmt: Format, root: Node, h: nat, pages: seq<Node>, idx: seq<nat>, c: Cell, bBulk: bool)
    requires fmt.Valid() && fmt.intKey && Finished(fmt, root, h) && AtEntry(true, root, h, pages, idx)
    ensures Position(true, root, h, pages, idx) < |Entries(true, root)|
    ensures var es' := InsertAt(Entries(true, root), Position(true, root, h, pages, idx) + 1, c);
      CellReady(fmt, root, h, pages, idx, c, -1, bBulk, es', Verdict(es', OpenBehind(fmt, pages, idx, c, bBulk)))
  {
    hide Position, Entries, Ahead, CellOffset, Unbalanced, Content, Plug, Base, Divided, Finished, CtxOf, Ascending,
      Open;
    CtxOfPath(root, h, pages, idx);
    PositionOffset(true, root, h, pages, idx);
    LeafOffset(Last(pages), Last(idx));
    Inserted(fmt, root, h, pages, idx, Last(idx) + 1, c);
    var ctx, page', es' := CtxOf(pages, idx), WithBehind(pages, idx, c),
                           InsertAt(Entries(true, root), Position(true, root, h, pages, idx) + 1, c);
    UnclearDivided(fmt, ctx, page', bBulk, es');
    if Ascending(es') {
      BehindDivided(fmt, root, h, pages, idx, c, bBulk, es');
    }
  }

  lemma BehindDivided(fmt: Format, root: Node, h: nat, pages: seq<Node>, idx: seq<nat>, c: Cell, bBulk: bool,
                      es': seq<Cell>)
    requires fmt.Valid() && fmt.intKey && Finished(fmt, root, h) && AtEntry(true, root, h, pages, idx)
      && IsCtx(CtxOf(pages, idx))
    requires var p := |Ahead(true, CtxOf(pages, idx))| + Last(idx) + 1;
      p <= |Entries(true, root)| && es' == InsertAt(Entries(true, root), p, c)
    requires Ascending(es')
    ensures Divided(fmt, CtxOf(pages, idx), WithBehind(pages, idx, c), bBulk, es',
                    Verdict(es', OpenBehind(fmt, pages, idx, c, bBulk)))
  {
    hide Entries, Ahead, Content, Plug, Divided, Finished, CtxOf, Ascending, AllBounded, CtxRouted, SepAll, Separated;
    var ctx, page, page' := CtxOf(pages, idx), Last(pages), WithBehind(pages, idx, c);
    var over := Content(fmt, page') > Room(fmt, ctx, page');
    BehindFacts(fmt, root, h, pages, idx, c, es');
    if AllBounded(ctx, c.key) {
      AllBoundedIsOpen(ctx, c.key, over, bBulk);
      BoundedIsRouted(ctx, page.cells[Last(idx)].key, c.key);
      InsertedRight(fmt, root, h, pages, idx, Last(idx) + 1, c);
      RightDivided(fmt, ctx, page', bBulk, es');
    } else if Open(ctx, c.key, over, bBulk) {
      OpenUnder(ctx, c.key, over, bBulk);
      MendedStays(fmt, root, h, pages, idx, c, bBulk, es');
      MendedDivided(fmt, ctx, page', bBulk, es');
    } else {
      BehindWrong(fmt, ctx, page.cells, Last(idx) + 1, c, bBulk, es');
    }
  }

  lemma AllBoundedIsOpen(ctx: Ctx, key: Key, over: bool, bBulk: bool)
    requires AllBounded(ctx, key)
    ensures Open(ctx, key, over, bBulk)
  {}

  lemma OpenUnder(ctx: Ctx, key: Key, over: bool, bBulk: bool)
    requires Open(ctx, key, over, bBulk) && !AllBounded(ctx, key) && IsCtx(ctx)
    ensures ctx.Under? && over && ctx.n < |ctx.page.slots| && Mends(|ctx.page.slots|, ctx.n, bBulk)
    ensures ctx.page.slots[ctx.n].cell.key < key && AllBounded(ctx.up, key)
  {}

  lemma BehindFacts(fmt: Format, root: Node, h: nat, pages: seq<Node>, idx: seq<nat>, c: Cell, es': seq<Cell>)
    requires fmt.Valid() && fmt.intKey && Finished(fmt, root, h) && AtEntry(true, root, h, pages, idx)
      && IsCtx(CtxOf(pages, idx))
    requires var p := |Ahead(true, CtxOf(pages, idx))| + Last(idx) + 1;
      p <= |Entries(true, root)| && es' == InsertAt(Entries(true, root), p, c)
    requires Ascending(es')
    ensures var ctx, x := CtxOf(pages, idx), Last(pages).cells[Last(idx)];
      && Plug(ctx, Last(pages)) == root && ctx.Depth() == h && Separated(root) && Wf(root, h)
      && x in Entries(true, Last(pages)) && CtxRouted(ctx, x.key) && x.key < c.key
      && (forall y :: y in Entries(true, root) ==> y.key <= x.key || y.key > c.key)
      && Entries(true, Plug(ctx, WithBehind(pages, idx, c))) == es'
  {
    hide Position, Entries, Ahead, CellOffset, Content, Plug, Base, CtxOf, Ascending, CtxRouted, Separated, Wf, Fitted;
    CtxOfPath(root, h, pages, idx);
    IndicesFit(root, h, pages, idx);
    PositionOffset(true, root, h, pages, idx);
    LeafOffset(Last(pages), Last(idx));
    EntryAtPosition(true, root, h, pages, idx);
    LeafEntries(true, Last(pages).cells);
    FittedIsWf(fmt, root, h);
    EntryIsRouted(CtxOf(pages, idx), Last(pages), Last(pages).cells[Last(idx)]);
    PlacedBehind(Entries(true, root), Position(true, root, h, pages, idx), c);
    InsertedEntries(true, CtxOf(pages, idx), Last(pages).cells, Last(idx) + 1, c);
  }

  // The divider that is in the way of the key gives way to a new one.
  lemma MendedStays(fmt: Format, root: Node, h: nat, pages: seq<Node>, idx: seq<nat>, c: Cell, bBulk: bool,
                    es': seq<Cell>)
    requires pages != [] && idx != [] && Last(pages).Leaf? && Last(idx) < |Last(pages).cells|
      && IsCtx(CtxOf(pages, idx))
    requires var ctx, x := CtxOf(pages, idx), Last(pages).cells[Last(idx)];
      && Plug(ctx, Last(pages)) == root && ctx.Depth() == h && Separated(root) && Wf(root, h)
      && x in Entries(true, Last(pages)) && x.key < c.key
      && (forall y :: y in Entries(true, root) ==> y.key <= x.key || y.key > c.key)
      && Entries(true, Plug(ctx, WithBehind(pages, idx, c))) == es'
      && ctx.Under? && ctx.n < |ctx.page.slots| && Mends(|ctx.page.slots|, ctx.n, bBulk)
      && ctx.page.slots[ctx.n].cell.key < c.key && AllBounded(ctx.up, c.key)
    requires Ascending(es') && fmt.intKey
    ensures Stays(es', CtxOf(pages, idx), WithBehind(pages, idx, c), bBulk, true)
  {
    hide Entries, Plug, CtxOf, Ascending, CtxRouted, Separated, Wf, Stays, AllBounded, SepAll, Raised, Content;
    var ctx, page, page' := CtxOf(pages, idx), Last(pages), WithBehind(pages, idx, c);
    RaisedTree(ctx, page, page.cells[Last(idx)], c.key, 0);
    var ctx' := Raised(ctx, c.key);
    RaisedIsUnder(ctx, c.key);
    LeafEntries(true, page.cells);
    LeafEntries(true, page'.cells);
    SameAround(ctx, c.key, page');
    LeafSeparates(ctx', page, page', c, h, es');
    AllRight(fmt, ctx', page', true, bBulk, es');
    PartedStays(fmt, ctx', page', bBulk, es');
    RaisedStays(es', ctx, page', c.key, bBulk);
  }

  lemma RaisedIsUnder(ctx: Ctx, key: Key)
    requires ctx.Under? && ctx.page.Interior? && ctx.n < |ctx.page.slots|
    ensures Raised(ctx, key).Under?
  {}

  lemma SameAround(ctx: Ctx, key: Key, t: Node)
    requires IsCtx(ctx) && ctx.Under? && ctx.n < |ctx.page.slots| && IsCtx(Raised(ctx, key))
    ensures Entries(true, Plug(Raised(ctx, key), t)) == Entries(true, Plug(ctx, t))
  {
    hide Entries, Plug, SetChild, Ahead, Behind;
    UnderPlug(ctx, t);
    UnderPlug(Raised(ctx, key), t);
    ReplaceAndSet(ctx.page, ctx.n, Cell(key, []), t);
    ReplacedSeparator(SetChild(ctx.page, ctx.n, t), ctx.n, Cell(key, []));
    PlugEntries(true, ctx.up, SetChild(ctx.page, ctx.n, t));
    PlugEntries(true, ctx.up, ReplaceCell(SetChild(ctx.page, ctx.n, t), ctx.n, Cell(key, [])));
  }

  lemma PartedStays(fmt: Format, ctx: Ctx, cur: Node, bBulk: bool, es: seq<Cell>)
    requires Parted(fmt, ctx, cur, true, bBulk, es, Right) && cur.Leaf? && ctx.Under? && fmt.intKey
    ensures Stays(es, ctx, cur, bBulk, true)
  {}

  lemma MendedDivided(fmt: Format, ctx: Ctx, page': Node, bBulk: bool, es: seq<Cell>)
    requires IsCtx(ctx) && ctx.Under? && page'.Leaf? && Ascending(es) && Stays(es, ctx, page', bBulk, true)
    requires Content(fmt, page') > Room(fmt, ctx, page')
    ensures Divided(fmt, ctx, page', bBulk, es, Right)
  {
    hide Stays, Content, Ascending, SepAll;
  }

  // A separator below the key that stays where it is stays wrong.
  lemma BehindWrong(fmt: Format, ctx: Ctx, cells: seq<Cell>, n: nat, c: Cell, bBulk: bool, es: seq<Cell>)
    requires IsCtx(ctx) && n <= |cells| && Ascending(es) && |Ahead(true, ctx)| + n < |es|
      && es[|Ahead(true, ctx)| + n] == c
    requires var page' := Leaf(InsertAt(cells, n, c));
      !Open(ctx, c.key, Content(fmt, page') > Room(fmt, ctx, page'), bBulk)
    ensures Divided(fmt, ctx, Leaf(InsertAt(cells, n, c)), bBulk, es, Wrong)
  {
    hide Entries, Plug, Ascending, SepAll, CtxSep, Content, AllBounded, Stays;
    var page' := Leaf(InsertAt(cells, n, c));
    LeafEntries(true, page'.cells);
    if Content(fmt, page') > Room(fmt, ctx, page') {
      WrongStays(ctx, page', n, c, bBulk, es);
    } else {
      PlugSep(es, ctx, page');
      if CtxSep(es, ctx, |page'.cells|) {
        CtxSepBounds(es, ctx, |page'.cells|, |Ahead(true, ctx)| + n);
        AllBoundedIsOpen(ctx, c.key, false, bBulk);
      }
    }
  }

  lemma WrongStays(ctx: Ctx, page': Node, n: nat, c: Cell, bBulk: bool, es: seq<Cell>)
    requires IsCtx(ctx) && page'.Leaf? && n < |page'.cells| && |Ahead(true, ctx)| + n < |es|
      && es[|Ahead(true, ctx)| + n] == c
    requires !Open(ctx, c.key, true, bBulk)
    ensures ctx.Under? && Stays(es, ctx, page', bBulk, false)
  {
    hide Flat, Entries, RunSep, SepAll, CtxSep, AllBounded;
    var p, o := SetChild(ctx.page, ctx.n, page'), |Ahead(true, ctx.up)|;
    LeafEntries(true, page'.cells);
    SetChildHas(ctx.page, ctx.n, page');
    SameSlots(ctx.page, ctx.n, page');
    assert p.slots[..ctx.n] == ctx.page.slots[..ctx.n];
    FamilySize(p, ctx.n);
    if CtxSep(es, ctx.up, |Entries(true, p)|) {
      CtxSepBounds(es, ctx.up, |Entries(true, p)|, |Ahead(true, ctx)| + n);
    }
  }

  // A page has room for the entries up to the end of any child.
  lemma FamilySize(p: Node, n: nat)
    requires p.Interior? && n <= |p.slots|
    ensures |Flat(true, false, p.slots[..n])| + |Entries(true, p.Child(n))| <= |Entries(true, p)|
  {
    hide Flat, Entries;
    AssembleSelf(p, n, n);
    assert p.slots[n..n] == [];
    AssembleEntries(true, p, n, n, [], p.Child(n));
  }

  // ----- Insert -----

  /** The cursor remembers the key before the new one, and its entry is taken to be the one before the new one. */
  predicate TakesShortcut(intKey: bool, validNKey: bool, infoKey: Key, key: Key) {
    intKey && validNKey && key > 0 && infoKey == key - 1
  }

  /** How the place for a new cell is found. */
  datatype Way = BySearch | AfterCurrent | OverCurrent

  function WayOf(c: BtCursor, key: Key, seekResult: int): Way
    reads c
  {
    if TakesShortcut(c.intKey, c.validNKey, c.infoKey, key) then AfterCurrent
    else if seekResult == 0 && SeeksInPlace(c.intKey, c.eState, c.validNKey, c.infoKey, c.atLast, key) then
      if c.infoKey == key then OverCurrent else AfterCurrent
    else BySearch
  }

  /**
  What a caller of Insert has to see to: a result of a search is passed on with the cursor as the search left it. The
  assertion at btree.c:7589 lets the shortcut through from an entry, and also after sqlite3BtreeClearCursor, which keeps
  the key and the pages.
  */
  ghost predicate MayInsert(c: BtCursor, fmt: Format, key: Key, seekResult: int)
    reads c
  {
    && fmt.Valid() && fmt.intKey == c.intKey && c.Usable() && Finished(fmt, c.root, c.h)
    && (TakesShortcut(c.intKey, c.validNKey, c.infoKey, key) ==>
         c.eState == VALID || (c.eState == INVALID && AtEntry(true, c.root, c.h, c.apPage, c.aiIdx)))
    && (seekResult != 0 ==>
         c.Valid() && InsertionPoint(c.intKey, c.root, c.h, c.eState, c.apPage, c.aiIdx, key, seekResult))
    && (seekResult > 0 ==> !c.atLast)
  }

  lemma CurrentIsEntry(c: BtCursor, fmt: Format, key: Key, seekResult: int)
    requires MayInsert(c, fmt, key, seekResult)
    ensures !WayOf(c, key, seekResult).BySearch? ==>
      && c.intKey && (c.eState == VALID || c.eState == INVALID) && AtEntry(true, c.root, c.h, c.apPage, c.aiIdx)
      && c.apPage != [] && c.aiIdx != [] && Last(c.apPage).Leaf? && Last(c.aiIdx) < |Last(c.apPage).cells|
      && Position(true, c.root, c.h, c.apPage, c.aiIdx) < |Entries(true, c.root)|
  {
    if !WayOf(c, key, seekResult).BySearch? {
      EntryAtPosition(true, c.root, c.h, c.apPage, c.aiIdx);
    }
  }

  /**
  When Insert does what it should: always after a search that moves the cursor. When the cursor stays, its entry has to
  have the key, or to be the one before it, with nothing in between and with room before the next separator.
  */
  predicate InsertRight(c: BtCursor, fmt: Format, cell: Cell, seekResult: int, bBulk: bool)
    requires MayInsert(c, fmt, cell.key, seekResult)
    reads c
  {
    CurrentIsEntry(c, fmt, cell.key, seekResult);
    match WayOf(c, cell.key, seekResult)
    case BySearch => true
    case OverCurrent => Last(c.apPage).cells[Last(c.aiIdx)].key == cell.key
    case AfterCurrent =>
      var cur := Last(c.apPage).cells[Last(c.aiIdx)].key;
      && cur < cell.key && (forall x :: x in Entries(true, c.root) ==> x.key <= cur || x.key > cell.key)
      && OpenBehind(fmt, c.apPage, c.aiIdx, cell, bBulk)
  }

  /** The cell goes behind the current one, and there is space for it. */
  predicate FitsBehind(c: BtCursor, fmt: Format, cell: Cell, seekResult: int)
    requires MayInsert(c, fmt, cell.key, seekResult)
    reads c
  {
    CurrentIsEntry(c, fmt, cell.key, seekResult);
    WayOf(c, cell.key, seekResult).AfterCurrent? && !OverflowsBehind(fmt, c.apPage, c.aiIdx, cell)
  }

  /** The entries after Insert, right or wrong. */
  ghost function Result(c: BtCursor, fmt: Format, cell: Cell, seekResult: int): seq<Cell>
    requires MayInsert(c, fmt, cell.key, seekResult)
    reads c
  {
    CurrentIsEntry(c, fmt, cell.key, seekResult);
    var es := Entries(c.intKey, c.root);
    match WayOf(c, cell.key, seekResult)
    case BySearch => Upsert(es, cell)
    case OverCurrent => es[Position(true, c.root, c.h, c.apPage, c.aiIdx) := cell]
    case AfterCurrent => InsertAt(es, Position(true, c.root, c.h, c.apPage, c.aiIdx) + 1, cell)
  }

  // A cell above the current entry of a cursor at the last entry is above all.
  lemma LastIsGreatest(intKey: bool, root: Node, h: nat, pages: seq<Node>, idx: seq<nat>, validNKey: bool, atLast: bool,
                       key: Key)
    requires FlagsOk(intKey, root, h, VALID, pages, idx, validNKey, atLast) && Ordered(intKey, root)
    requires AtEntry(intKey, root, h, pages, idx)
    ensures atLast && Last(pages).CellAt(Last(idx)).key <= key ==> AllAtMost(Entries(intKey, root), key)
  {
    EntryAtPosition(intKey, root, h, pages, idx);
    EntriesAscend(intKey, root);
    hide Entries, Position, Wf;
  }

  lemma FlagsOfRowid(intKey: bool, root: Node, h: nat, eState: State, pages: seq<Node>, idx: seq<nat>, validNKey: bool,
                     atLast: bool)
    ensures FlagsOk(intKey, root, h, eState, pages, idx, validNKey, atLast) && eState == VALID && validNKey ==> intKey
    ensures FlagsOk(intKey, root, h, eState, pages, idx, false, false)
  {}

  lemma PointAtLast(intKey: bool, root: Node, h: nat, eState: State, pages: seq<Node>, idx: seq<nat>, validNKey: bool,
                    atLast: bool, key: Key, loc: int)
    requires FlagsOk(intKey, root, h, eState, pages, idx, validNKey, atLast) && Ordered(intKey, root)
    requires InsertionPoint(intKey, root, h, eState, pages, idx, key, loc) && (loc > 0 ==> !atLast)
    ensures eState == VALID && atLast ==> AllAtMost(Entries(intKey, root), key)
  {
    if eState == VALID && atLast {
      EntryAtPosition(intKey, root, h, pages, idx);
      LastIsGreatest(intKey, root, h, pages, idx, validNKey, atLast, key);
    }
  }

  lemma KeyOnce(es: seq<Cell>, i: int, p: nat)
    requires Ascending(es) && p < |es|
    ensures 0 <= i < |es| && i != p ==> es[i].key != es[p].key
  {}

  // An entry overwritten with another key is lost.
  lemma PlacedOver(es: seq<Cell>, p: nat, c: Cell)
    requires Ascending(es) && p < |es|
    ensures es[p].key == c.key ==> es[p := c] == Upsert(es, c)
    ensures es[p].key != c.key ==> !Ascending(es[p := c]) || ToMap(es[p := c]) != ToMap(es)[c.key := c.payload]
  {
    hide ToMap, Upsert;
    var es', k := es[p := c], es[p].key;
    if k == c.key {
      UpsertIsReplace(es, c, p);
    } else if Ascending(es') {
      LookupEntry(es, p);
      var i := Lookup(es', k);
      KeyOnce(es, i, p);
    }
  }

  lemma PlacedAfter(es: seq<Cell>, p: nat, c: Cell, open: bool)
    requires Ascending(es) && p < |es|
    ensures var es', right := InsertAt(es, p + 1, c),
                              es[p].key < c.key && (forall x :: x in es ==> x.key <= es[p].key || x.key > c.key)
                                && open;
      && (right ==> es' == Upsert(es, c) && Verdict(es', open).Right?)
      && (!right ==> Verdict(es', open).Wrong? || !Ascending(es'))
  {
    hide Upsert, Ascending;
    PlacedBehind(es, p, c);
  }

  /**
  The new tree is the search tree with the new entry just when the entries and the separators are as they should be.
  */
  lemma Judged(fmt: Format, root: Node, h: nat, es: seq<Cell>, c: Cell, es': seq<Cell>, right: bool, sep: Seps)
    requires Fitted(fmt, root, h) && Entries(fmt.intKey, root) == es' && Ascending(es)
    requires fmt.intKey && !sep.Unclear? ==> Ascending(es') && (Separated(root) <==> sep.Right?)
    requires right ==> es' == Upsert(es, c) && sep.Right?
    requires !right ==> fmt.intKey && (sep.Wrong? || !Ascending(es') || ToMap(es') != ToMap(es)[c.key := c.payload])
    ensures right <==> Ordered(fmt.intKey, root) && ToMap(es') == ToMap(es)[c.key := c.payload]
    ensures right ==> Finished(fmt, root, h)
  {
    hide Fitted, Entries, Ascending, Separated, Upsert, ToMap;
    UpsertUpdates(es, c);
  }

  /** The cursor is at the new entry, and at the last one if it was. */
  lemma FlagsAfterInsert(intKey: bool, root: Node, h: nat, eState: State, pages: seq<Node>, idx: seq<nat>,
                         validNKey: bool,
                         atLast: bool, c: Cell, es: seq<Cell>)
    requires Ordered(intKey, root) && Entries(intKey, root) == Upsert(es, c) && Ascending(es)
    requires eState == INVALID || (eState == VALID && AtEntry(intKey, root, h, pages, idx)
                                   && Last(pages).CellAt(Last(idx)) == c)
    requires eState == VALID && validNKey ==> intKey
    requires eState == VALID && atLast ==> AllAtMost(es, c.key)
    ensures FlagsOk(intKey, root, h, eState, pages, idx, validNKey, atLast)
  {
    if eState == VALID && atLast {
      EntryAtPosition(intKey, root, h, pages, idx);
      EntriesAscend(intKey, root);
      UpsertAscends(es, c);
      var es', n := Entries(intKey, root), Position(intKey, root, h, pages, idx);
      hide Entries, Position, Wf, Upsert;
      var last := |es'| - 1;
      assert es'[last] in es' && es'[last].key <= c.key;
    }
  }

  // The cursor is at the new cell, in the state that it was in.
  ghost predicate Stands(c: BtCursor, eState: State, validNKey: bool, cell: Cell)
    reads c
  {
    && c.eState == eState && c.validNKey == validNKey && AtEntry(c.intKey, c.root, c.h, c.apPage, c.aiIdx)
    && c.apPage != [] && c.aiIdx != [] && Last(c.aiIdx) < Last(c.apPage).NCell()
    && Last(c.apPage).CellAt(Last(c.aiIdx)) == cell
  }

  /**
  Put a cell into the tree. Whatever the cursor remembers, the result is known, every page fits, and the tree is the
  search tree with the new entry exactly when InsertRight held before.
  */
  method Insert(c: BtCursor, fmt: Format, key: Key, payload: seq<bv8>, appendBias: bool, seekResult: int, hints: bool)
    requires MayInsert(c, fmt, key, seekResult)
    modifies c
    ensures Fitted(fmt, c.root, c.h) && Wf(c.root, c.h)
    ensures Entries(c.intKey, c.root) == old(Result(c, fmt, Cell(key, payload), seekResult))
    ensures old(InsertRight(c, fmt, Cell(key, payload), seekResult, hints)) <==>
      && Ordered(c.intKey, c.root)
      && ToMap(Entries(c.intKey, c.root)) == ToMap(old(Entries(c.intKey, c.root)))[key := payload]
    ensures old(InsertRight(c, fmt, Cell(key, payload), seekResult, hints)) ==>
      c.Usable() && (c.eState == VALID || !c.validNKey ==> c.Valid()) && Finished(fmt, c.root, c.h)
        && Entries(c.intKey, c.root) == Upsert(old(Entries(c.intKey, c.root)), Cell(key, payload))
    ensures (c.eState == INVALID && !c.validNKey)
      || ((c.eState == VALID || c.eState == INVALID) && Stands(c, c.eState, c.validNKey, Cell(key, payload)))
    ensures old(FitsBehind(c, fmt, Cell(key, payload), seekResult)) ==> c.eState == old(c.eState) && c.validNKey
    ensures c.validNKey ==>
      c.eState == old(c.eState) && old(c.validNKey) && c.infoKey == old(c.infoKey) && c.atLast == old(c.atLast)
    ensures c.validNKey && c.eState == INVALID ==> old(TakesShortcut(c.intKey, c.validNKey, c.infoKey, key))
    ensures Placed(fmt, hints, old(c.root), Cell(key, payload), c.root)
  {
    hide Fitted, Finished, InsertionPoint, Sought, Placed, Entries, Upsert, Wf, Ordered, WellPlaced, Content, Position,
      FlagsOk, ToMap, CellReady,
      OpenBehind, CtxOf, Ascending;
    CurrentIsEntry(c, fmt, key, seekResult);
    EntriesAscend(c.intKey, c.root);
    var cell, loc := Cell(key, payload), seekResult;
    ghost var way, es' := WayOf(c, key, seekResult), Result(c, fmt, cell, seekResult);
    ghost var right, es := InsertRight(c, fmt, cell, seekResult, hints), Entries(c.intKey, c.root);
    ghost var sep := Right;
    if TakesShortcut(c.intKey, c.validNKey, c.infoKey, key) {
      loc := -1;
    }
    if loc == 0 {
      loc := c.MovetoUnpacked(key, appendBias);
      if way.BySearch? {
        SoughtIsPoint(c.intKey, c.root, c.h, c.eState, c.apPage, c.aiIdx, key, loc);
      }
    }
    if way.BySearch? {
      PointReady(fmt, c.root, c.h, c.eState, c.apPage, c.aiIdx, cell, loc, hints);
      PointAtLast(c.intKey, c.root, c.h, c.eState, c.apPage, c.aiIdx, c.validNKey, c.atLast, key, loc);
    } else {
      EntryAtPosition(true, c.root, c.h, c.apPage, c.aiIdx);
      if c.eState == VALID {
        LastIsGreatest(true, c.root, c.h, c.apPage, c.aiIdx, c.validNKey, c.atLast, key);
      }
      ghost var p := Position(true, c.root, c.h, c.apPage, c.aiIdx);
      if way.AfterCurrent? {
        BehindReady(fmt, c.root, c.h, c.apPage, c.aiIdx, cell, hints);
        PlacedAfter(es, p, cell, OpenBehind(fmt, c.apPage, c.aiIdx, cell, hints));
        sep := Verdict(es', OpenBehind(fmt, c.apPage, c.aiIdx, cell, hints));
      } else {
        OverwriteReady(fmt, c.root, c.h, c.apPage, c.aiIdx, cell, hints);
        PlacedOver(es, p, cell);
        sep := if Last(c.apPage).CellAt(Last(c.aiIdx)).key == key then Right else Unclear;
      }
    }
    FlagsOfRowid(c.intKey, c.root, c.h, c.eState, c.apPage, c.aiIdx, c.validNKey, c.atLast);
    InsertCellAt(c, fmt, cell, loc, hints, es', sep);
    Judged(fmt, c.root, c.h, es, cell, es', right, sep);
    if right {
      FlagsAfterInsert(c.intKey, c.root, c.h, c.eState, c.apPage, c.aiIdx, c.validNKey, c.atLast, cell, es);
    }
  }

  /**
  At the last entry, where the cursor remembers its key or a smaller one, a greater key is always inserted rightly: so
  rows may be appended one after the other without a search.
  */
  lemma AppendIsRight(c: BtCursor, fmt: Format, cell: Cell, seekResult: int, bBulk: bool)
    requires MayInsert(c, fmt, cell.key, seekResult) && (c.validNKey ==> c.eState == VALID && c.atLast)
    requires c.validNKey ==> AtEntry(true, c.root, c.h, c.apPage, c.aiIdx)
    requires c.validNKey ==> c.infoKey <= Last(c.apPage).CellAt(Last(c.aiIdx)).key < cell.key
    ensures InsertRight(c, fmt, cell, seekResult, bBulk)
  {
    hide Fitted, Entries, Ordered, Wf, Position, FlagsOk, CtxOf, InsertionPoint, AllBounded, Content, AtEntry;
    CurrentIsEntry(c, fmt, cell.key, seekResult);
    if !WayOf(c, cell.key, seekResult).BySearch? {
      AtEndIsOpen(fmt, c.root, c.h, c.apPage, c.aiIdx, c.validNKey, cell, bBulk);
      NoneAboveLast(c.root, c.h, c.apPage, c.aiIdx, c.validNKey);
    }
  }

  lemma AtEndIsOpen(fmt: Format, root: Node, h: nat, pages: seq<Node>, idx: seq<nat>, validNKey: bool, c: Cell,
                    bBulk: bool)
    requires FlagsOk(true, root, h, VALID, pages, idx, validNKey, true) && Ordered(true, root) && Wf(root, h)
    requires AtEntry(true, root, h, pages, idx) && Last(pages).CellAt(Last(idx)).key < c.key
    ensures OpenBehind(fmt, pages, idx, c, bBulk)
  {
    hide Entries, Separated, Wf, Ahead, Behind, CellOffset, Content, Plug, CtxRouted;
    var ctx, page, n := CtxOf(pages, idx), Last(pages), Last(idx);
    CtxOfPath(root, h, pages, idx);
    IndicesFit(root, h, pages, idx);
    PositionOffset(true, root, h, pages, idx);
    EntryAtPosition(true, root, h, pages, idx);
    EntriesAscend(true, root);
    PlugEntries(true, ctx, page);
    LeafEntries(true, page.cells);
    LeafOffset(page, n);
    assert Behind(true, ctx) == [];
    hide Position, ArrivedAt, Ascending, AllBounded;
    EndIsRouted(ctx, page, page.cells[n], c.key, 0);
    RoutedIsBounded(ctx, c.key);
    AllBoundedIsOpen(ctx, c.key, OverflowsBehind(fmt, pages, idx, c), bBulk);
  }

  lemma NoneAboveLast(root: Node, h: nat, pages: seq<Node>, idx: seq<nat>, validNKey: bool)
    requires FlagsOk(true, root, h, VALID, pages, idx, validNKey, true) && Ordered(true, root)
    requires AtEntry(true, root, h, pages, idx)
    ensures forall x :: x in Entries(true, root) ==> x.key <= Last(pages).CellAt(Last(idx)).key
  {
    LastIsGreatest(true, root, h, pages, idx, validNKey, true, Last(pages).CellAt(Last(idx)).key);
    hide Entries, Position, Wf;
  }

  lemma {:induction false} RoutedIsBounded(ctx: Ctx, key: Key)
    requires CtxRouted(ctx, key)
    ensures AllBounded(ctx, key)
  {
    if ctx.Under? {
      RoutedIsBounded(ctx.up, key);
    }
  }

  // ----- Where Insert goes wrong -----

  // A path of a tree that is a leaf.
  lemma OnLeafRoot(root: Node, h: nat, pages: seq<Node>, idx: seq<nat>)
    requires AtEntry(true, root, h, pages, idx) && root.Leaf?
    ensures pages == [root] && |idx| == 1 && idx[0] < |root.cells| && CtxOf(pages, idx) == Top
    ensures Position(true, root, h, pages, idx) == idx[0]
  {
    IndicesFit(root, h, pages, idx);
    LeafPosition(true, root, h, pages, idx);
  }

  /**
  The cursor has gone to the only row, 5, and read its key; row 6 has been appended without a search. What the cursor
  remembers is still 5, so an insertion of 5 overwrites row 6 and leaves two rows 5.
  */
  method AppendThenInsert(c: BtCursor, fmt: Format, x: seq<bv8>, y: seq<bv8>, z: seq<bv8>)
    requires fmt.Valid() && fmt.intKey && c.intKey && c.Valid() && Finished(fmt, c.root, c.h) && !c.validNKey
    requires c.root == Leaf([Cell(5, x)])
      && Content(fmt, Leaf([Cell(5, x), Cell(6, y)])) <= fmt.Capacity(true) - fmt.hdr
    modifies c
    ensures Entries(true, c.root) == [Cell(5, x), Cell(5, z)] && !Ordered(true, c.root)
  {
    hide Finished, Fitted, Content, Position, Entries, Ordered, Wf, FitsBehind, InsertRight, Result, Upsert, ToMap;
    LeafEntries(true, [Cell(5, x)]);
    var none := c.GoToLast();
    var k := c.KeySize();
    OnlyRow(c, fmt, x, y);
    Insert(c, fmt, 6, y, true, 0, false);
    NewestRow(c, fmt, x, y, z);
    Insert(c, fmt, 5, z, true, 0, false);
    KeyTwice(c.root, [Cell(5, x), Cell(5, z)], 0);
  }

  lemma OnlyRow(c: BtCursor, fmt: Format, x: seq<bv8>, y: seq<bv8>)
    requires fmt.Valid() && fmt.intKey && c.intKey && c.Valid() && Finished(fmt, c.root, c.h) && c.eState == VALID
      && c.atLast
    requires c.root == Leaf([Cell(5, x)])
      && Content(fmt, Leaf([Cell(5, x), Cell(6, y)])) <= fmt.Capacity(true) - fmt.hdr
    requires c.validNKey && c.infoKey == 5
    ensures MayInsert(c, fmt, 6, 0) && InsertRight(c, fmt, Cell(6, y), 0, false) && FitsBehind(c, fmt, Cell(6, y), 0)
    ensures Upsert(Entries(true, c.root), Cell(6, y)) == [Cell(5, x), Cell(6, y)]
  {
    hide Fitted, Content, Position, Ordered, InsertRight;
    OnLeafRoot(c.root, c.h, c.apPage, c.aiIdx);
    AppendIsRight(c, fmt, Cell(6, y), 0, false);
    CurrentIsEntry(c, fmt, 6, 0);
    assert WithBehind(c.apPage, c.aiIdx, Cell(6, y)) == Leaf([Cell(5, x), Cell(6, y)]);
    assert Upsert([], Cell(6, y)) == [Cell(6, y)];
  }

  lemma NewestRow(c: BtCursor, fmt: Format, x: seq<bv8>, y: seq<bv8>, z: seq<bv8>)
    requires fmt.Valid() && fmt.intKey && c.intKey && c.Valid() && Finished(fmt, c.root, c.h) && c.eState == VALID
    requires Entries(true, c.root) == [Cell(5, x), Cell(6, y)] && Last(c.apPage).CellAt(Last(c.aiIdx)) == Cell(6, y)
    requires c.validNKey && c.infoKey == 5
    ensures MayInsert(c, fmt, 5, 0) && Result(c, fmt, Cell(5, z), 0) == [Cell(5, x), Cell(5, z)]
  {
    hide Fitted, Position, Ordered, Entries, Wf;
    EntryAtPosition(true, c.root, c.h, c.apPage, c.aiIdx);
    var p := Position(true, c.root, c.h, c.apPage, c.aiIdx);
    assert p == 1 && [Cell(5, x), Cell(6, y)][1 := Cell(5, z)] == [Cell(5, x), Cell(5, z)];
  }

  lemma KeyTwice(root: Node, es: seq<Cell>, i: nat)
    requires Entries(true, root) == es && i + 1 < |es| && es[i].key == es[i + 1].key
    ensures !Ordered(true, root)
  {
    hide Entries, Separated;
    var j := i + 1;
    assert es[i].key >= es[j].key;
  }

  /** Rows 4 and 5: with the key of row 4 read, an insertion of 5 does not look for the row that is there. */
  method InsertNext(c: BtCursor, fmt: Format, x: seq<bv8>, y: seq<bv8>, z: seq<bv8>)
    requires fmt.Valid() && fmt.intKey && c.intKey && c.Valid() && Finished(fmt, c.root, c.h)
    requires c.root == Leaf([Cell(4, x), Cell(5, y)])
    modifies c
    ensures Entries(true, c.root) == [Cell(4, x), Cell(5, z), Cell(5, y)] && !Ordered(true, c.root)
  {
    hide Finished, Fitted, Content, Position, Ordered, Wf, InsertRight, OpenBehind, Upsert, ToMap;
    var none := c.First();
    OnLeafRoot(c.root, c.h, c.apPage, c.aiIdx);
    var k := c.KeySize();
    Insert(c, fmt, 5, z, false, 0, false);
    KeyTwice(c.root, [Cell(4, x), Cell(5, z), Cell(5, y)], 1);
  }

  /** The states that those insertions begin in. */
  lemma FailingStates(c: BtCursor, fmt: Format, x: seq<bv8>, y: seq<bv8>, z: seq<bv8>, bBulk: bool)
    requires MayInsert(c, fmt, 5, 0) && c.intKey && c.eState == VALID && c.validNKey && c.apPage == [c.root]
    ensures c.root == Leaf([Cell(5, x), Cell(6, y)]) && c.aiIdx == [1] && c.infoKey == 5 ==>
      && !InsertRight(c, fmt, Cell(5, z), 0, bBulk) && !c.SeekRight(5)
      && Result(c, fmt, Cell(5, z), 0) == [Cell(5, x), Cell(5, z)]
    ensures c.root == Leaf([Cell(4, x), Cell(5, y)]) && c.aiIdx == [0] && c.infoKey == 4 ==>
      && !InsertRight(c, fmt, Cell(5, z), 0, bBulk)
      && Result(c, fmt, Cell(5, z), 0) == [Cell(4, x), Cell(5, z), Cell(5, y)]
  {
    hide Fitted, OpenBehind, Position;
    CurrentIsEntry(c, fmt, 5, 0);
    if c.root.Leaf? {
      OnLeafRoot(c.root, c.h, c.apPage, c.aiIdx);
    }
    if c.root == Leaf([Cell(4, x), Cell(5, y)]) && c.aiIdx == [0] && c.infoKey == 4 {
      assert Cell(5, y) in Entries(true, c.root);
    }
  }

  lemma AppendReady(c: BtCursor, fmt: Format, es: seq<Cell>, rows: seq<Cell>, i: nat)
    requires fmt.Valid() && fmt.intKey && c.intKey && c.Valid() && Finished(fmt, c.root, c.h) && i < |rows|
    requires Ascending(es + rows) && Entries(true, c.root) == es + rows[..i]
    requires c.validNKey ==> c.eState == VALID && c.atLast && c.infoKey <= Last(c.apPage).CellAt(Last(c.aiIdx)).key
    ensures MayInsert(c, fmt, rows[i].key, 0) && InsertRight(c, fmt, rows[i], 0, false)
    ensures c.validNKey ==> c.infoKey < rows[i].key
    ensures Upsert(Entries(true, c.root), rows[i]) == es + rows[..i + 1]
  {
    hide Fitted, Entries, Ordered, Wf, Position, InsertRight, Upsert, CtxOf;
    var now, all := es + rows[..i], es + rows;
    forall j | 0 <= j < |now|
      ensures now[j].key < rows[i].key
    {
      assert now[j] == all[j] && rows[i] == all[|now|];
    }
    UpsertIsInsert(now, rows[i], |now|);
    assert InsertAt(now, |now|, rows[i]) == es + rows[..i + 1];
    if c.validNKey {
      EntryAtPosition(true, c.root, c.h, c.apPage, c.aiIdx);
    }
    AppendIsRight(c, fmt, rows[i], 0, false);
  }

  /** Rows appended one after the other, beginning at the last row with its key read, are all in the tree. */
  method AppendRows(c: BtCursor, fmt: Format, rows: seq<Cell>)
    requires fmt.Valid() && fmt.intKey && c.intKey && c.Valid() && Finished(fmt, c.root, c.h)
    requires Ascending(Entries(true, c.root) + rows) && Entries(true, c.root) != []
    modifies c
    ensures c.Valid() && Finished(fmt, c.root, c.h) && Entries(true, c.root) == old(Entries(true, c.root)) + rows
  {
    hide Finished, Entries, Ordered, Wf, Position, InsertRight, Upsert, FitsBehind, Result, Ascending, ToMap;
    ghost var es := Entries(true, c.root);
    var none := c.GoToLast();
    var k := c.KeySize();
    assert rows[..0] == [] && es + [] == es;
    for i := 0 to |rows|
      invariant c.Valid() && Finished(fmt, c.root, c.h) && Entries(true, c.root) == es + rows[..i]
      invariant c.validNKey ==> c.eState == VALID && c.atLast && c.infoKey <= Last(c.apPage).CellAt(Last(c.aiIdx)).key
    {
      AppendReady(c, fmt, es, rows, i);
      Insert(c, fmt, rows[i].key, rows[i].payload, true, 0, false);
    }
    assert rows[..|rows|] == rows;
  }

  lemma SoughtIsPoint(intKey: bool, root: Node, h: nat, eState: State, pages: seq<Node>, idx: seq<nat>, key: Key,
                      loc: int)
    requires Sought(intKey, root, h, eState, pages, idx, key, loc) && Wf(root, h)
    requires eState == VALID && loc != 0 ==> WellPlaced(intKey, root, h, pages, idx, key, loc)
    requires eState == INVALID ==> pages == [root] && idx == [0] && root == Leaf([])
    requires eState == VALID || eState == INVALID
    ensures InsertionPoint(intKey, root, h, eState, pages, idx, key, loc)
  {}

  /** The tree after a page has got cell idx: with the new page in its place, or rebalanced when that holds too much. */
  ghost predicate StoredAs(fmt: Format, bBulk: bool, ctx: Ctx, page': Node, idx: nat, root: Node) {
    && IsCtx(ctx)
    && if Content(fmt, page') > Room(fmt, ctx, page') then Rebalanced(fmt, bBulk, Round(ctx, page', true, idx), root)
       else root == Plug(ctx, page')
  }

  // A page with a new cell: in place of another, or on a leaf before it.
  ghost predicate NewPage(page: Node, page': Node, idx: nat, c: Cell) {
    || (idx < page.NCell() && page' == ReplaceCell(page, idx, c))
    || (page.Leaf? && idx <= |page.cells| && page' == Leaf(InsertAt(page.cells, idx, c)))
  }

  /** One page of the tree has got the cell, and the tree has been rebalanced if that was too much for the page. */
  ghost predicate Placed(fmt: Format, bBulk: bool, root: Node, c: Cell, root': Node) {
    exists ctx, page, page', idx ::
      && IsCtx(ctx) && root == Plug(ctx, page) && NewPage(page, page', idx, c)
      && StoredAs(fmt, bBulk, ctx, page', idx, root')
  }

  lemma PlacedHere(fmt: Format, bBulk: bool, root: Node, h: nat, pages: seq<Node>, at: seq<nat>, page': Node, idx: nat,
                   c: Cell, root': Node)
    requires IsPath(root, h, pages, at) && pages != []
    requires NewPage(Last(pages), page', idx, c) && StoredAs(fmt, bBulk, CtxOf(pages, at), page', idx, root')
    ensures Placed(fmt, bBulk, root, c, root')
  {
    hide NewPage, StoredAs, Plug;
    CtxOfPath(root, h, pages, at);
  }

  // The cell goes onto the page of the cursor; when it does not fit, the tree is balanced and the cursor is let go.
  method InsertCellAt(c: BtCursor, fmt: Format, newCell: Cell, loc: int, hints: bool, ghost es: seq<Cell>,
                      ghost sep: Seps)
    requires fmt.intKey == c.intKey && (c.eState == VALID || c.eState == INVALID)
    requires CellReady(fmt, c.root, c.h, c.apPage, c.aiIdx, newCell, loc, hints, es, sep)
    modifies c
    ensures Fitted(fmt, c.root, c.h) && Wf(c.root, c.h) && Entries(c.intKey, c.root) == es
    ensures c.intKey && !sep.Unclear? ==> Ascending(es) && (Separated(c.root) <==> sep.Right?)
    ensures (c.eState == INVALID && !c.validNKey) || Stands(c, old(c.eState), old(c.validNKey), newCell)
    ensures c.infoKey == old(c.infoKey) && c.atLast == old(c.atLast)
    ensures loc < 0 && old(Last(c.aiIdx) < Last(c.apPage).NCell()) ==>
      if OverflowsBehind(fmt, old(c.apPage), old(c.aiIdx), newCell) then c.eState == INVALID && !c.validNKey
      else Stands(c, old(c.eState), old(c.validNKey), newCell)
    ensures Placed(fmt, hints, old(c.root), newCell, c.root)
  {
    hide Fitted, Unbalanced, Entries, Wf, Content, IsPath, Plug, Ascending, Separated, Divided, StoredAs, Placed;
    PathPages(c.root, c.h, c.apPage, c.aiIdx);
    ghost var root0, h0, pages0, idx0 := c.root, c.h, c.apPage, c.aiIdx;
    ghost var page': Node;
    var page, ctx, idx := Last(c.apPage), CtxOf(c.apPage, c.aiIdx), NewIndex(Last(c.apPage), Last(c.aiIdx), loc);
    if loc == 0 {
      page' := ReplaceCell(page, idx, newCell);
      StorePage(c, fmt, ctx, ReplaceCell(page, idx, newCell), c.h - (|c.apPage| - 1), idx, hints, es, sep);
    } else {
      page' := Leaf(InsertAt(page.cells, idx, newCell));
      StorePage(c, fmt, ctx, Leaf(InsertAt(page.cells, idx, newCell)), 0, idx, hints, es, sep);
    }
    PlacedHere(fmt, hints, root0, h0, pages0, idx0, page', idx, newCell, c.root);
  }

  // The page of the cursor has become page', with a new cell idx.
  method StorePage(c: BtCursor, fmt: Format, ctx: Ctx, page': Node, ghost h: nat, idx: nat, hints: bool,
                   ghost es: seq<Cell>,
                   ghost sep: Seps)
    requires fmt.intKey == c.intKey && IsPath(c.root, c.h, c.apPage, c.aiIdx) && ctx == CtxOf(c.apPage, c.aiIdx)
    requires Unbalanced(fmt, ctx, page', h, -1, Content(fmt, page') > Room(fmt, ctx, page'), idx, es)
    requires Divided(fmt, ctx, page', hints, es, sep)
    requires idx < page'.NCell() && (page'.Leaf? || !c.intKey) && (c.eState == VALID || c.eState == INVALID)
    modifies c
    ensures Fitted(fmt, c.root, c.h) && Wf(c.root, c.h) && Entries(c.intKey, c.root) == es
    ensures c.intKey && !sep.Unclear? ==> Ascending(es) && (Separated(c.root) <==> sep.Right?)
    ensures c.infoKey == old(c.infoKey) && c.atLast == old(c.atLast)
    ensures if Content(fmt, page') > Room(fmt, ctx, page') then c.eState == INVALID && !c.validNKey
            else Stands(c, old(c.eState), old(c.validNKey), page'.CellAt(idx))
    ensures StoredAs(fmt, hints, ctx, page', idx, c.root)
  {
    hide Fitted, Unbalanced, Settled, Entries, Wf, Content, Plug, Ascending, Separated, SepAll, Parted, IsPath, AtEntry,
      Rebalanced, AtRest;
    UnbalancedCtx(fmt, ctx, page', h, idx, es);
    ghost var idx0 := c.aiIdx;
    PathPages(c.root, c.h, c.apPage, c.aiIdx);
    c.aiIdx := ButLast(c.aiIdx) + [idx];
    if Content(fmt, page') > Room(fmt, ctx, page') {
      c.validNKey := false;
      var ctx', cur', h' := BalancePages(fmt, ctx, page', h, -1, true, idx, hints, es, sep);
      SettledIsFitted(fmt, ctx', cur', h', -1, es);
      PartedVerdict(fmt, ctx', cur', h' + ctx'.Depth(), hints, es, sep);
      c.root, c.h, c.eState := Plug(ctx', cur'), h' + ctx'.Depth(), INVALID;
    } else {
      StoredPage(c.intKey, fmt, c.root, c.h, c.apPage, idx0, ctx, page', h, idx, es);
      c.root, c.h, c.apPage := Plug(ctx, page'), h + ctx.Depth(), PagesOf(ctx, page');
    }
  }

  lemma StoredPage(intKey: bool, fmt: Format, root: Node, h0: nat, pages: seq<Node>, idx0: seq<nat>, ctx: Ctx,
                   page': Node, h: nat, idx: nat, es: seq<Cell>)
    requires intKey == fmt.intKey && IsPath(root, h0, pages, idx0) && ctx == CtxOf(pages, idx0) && IsCtx(ctx)
    requires Unbalanced(fmt, ctx, page', h, -1, false, idx, es)
    requires idx < page'.NCell() && (page'.Leaf? || !intKey)
    ensures Fitted(fmt, Plug(ctx, page'), h + ctx.Depth()) && Wf(Plug(ctx, page'), h + ctx.Depth())
    ensures Entries(intKey, Plug(ctx, page')) == es
    ensures intKey && Ascending(es) ==> (SepAll(es, 0, Plug(ctx, page')) <==> Separated(Plug(ctx, page')))
    ensures AtEntry(intKey, Plug(ctx, page'), h + ctx.Depth(), PagesOf(ctx, page'), ButLast(idx0) + [idx])
    ensures PagesOf(ctx, page') != [] && Last(PagesOf(ctx, page')) == page'
  {
    hide Fitted, Unbalanced, Settled, Entries, Wf, Content, Plug, Ascending, Separated, SepAll, CtxOf;
    SettledWithout(fmt, ctx, page', h, idx, es);
    SettledIsFitted(fmt, ctx, page', h, -1, es);
    FittedVerdict(fmt, Plug(ctx, page'), h + ctx.Depth(), es);
    NewPath(intKey, fmt, root, h0, pages, idx0, ctx, page', idx, h + ctx.Depth());
  }

  lemma FittedVerdict(fmt: Format, root: Node, h: nat, es: seq<Cell>)
    requires Fitted(fmt, root, h) && Entries(fmt.intKey, root) == es
    ensures Wf(root, h)
    ensures fmt.intKey && Ascending(es) ==> (SepAll(es, 0, root) <==> Separated(root))
  {
    hide Fitted, Entries, Wf, Ascending, SepAll, Separated;
    FittedIsWf(fmt, root, h);
    if fmt.intKey && Ascending(es) {
      SepIsSeparated(root, h, es);
    }
  }

  lemma PartedVerdict(fmt: Format, ctx: Ctx, cur: Node, h: nat, bBulk: bool, es: seq<Cell>, sep: Seps)
    requires Parted(fmt, ctx, cur, false, bBulk, es, sep)
    requires Fitted(fmt, Plug(ctx, cur), h) && Entries(fmt.intKey, Plug(ctx, cur)) == es
    ensures Wf(Plug(ctx, cur), h)
    ensures fmt.intKey && !sep.Unclear? ==> Ascending(es) && (Separated(Plug(ctx, cur)) <==> sep.Right?)
  {
    hide Fitted, Entries, Wf, Ascending, SepAll, Separated, Plug;
    FittedVerdict(fmt, Plug(ctx, cur), h, es);
  }

  lemma UnbalancedCtx(fmt: Format, ctx: Ctx, cur: Node, h: nat, x: nat, es: seq<Cell>)
    requires exists over :: Unbalanced(fmt, ctx, cur, h, -1, over, x, es)
    ensures fmt.Valid() && IsCtx(ctx)
  {}

  lemma NewPath(intKey: bool, fmt: Format, root: Node, h: nat, pages: seq<Node>, idx: seq<nat>, ctx: Ctx, page: Node,
                n: nat, h': nat)
    requires IsPath(root, h, pages, idx) && ctx == CtxOf(pages, idx) && IsCtx(ctx) && Fitted(fmt, Plug(ctx, page), h')
    requires n < page.NCell() && (page.Leaf? || !intKey)
    ensures AtEntry(intKey, Plug(ctx, page), h', PagesOf(ctx, page), ButLast(idx) + [n])
    ensures Last(PagesOf(ctx, page)) == page
  {
    SoundIsWf(fmt, Plug(ctx, page), h');
    PagesOfPath(ctx, page, n, h');
    IdxOfCtx(root, h, pages, idx, n);
    hide Fitted, Wf, Plug;
  }

  /** After a search the cell can go where the cursor is. */
  lemma PointReady(fmt: Format, root: Node, h: nat, eState: State, pages: seq<Node>, idx: seq<nat>, c: Cell, loc: int,
                   bBulk: bool)
    requires fmt.Valid() && Finished(fmt, root, h) && Ordered(fmt.intKey, root)
    requires InsertionPoint(fmt.intKey, root, h, eState, pages, idx, c.key, loc)
    ensures CellReady(fmt, root, h, pages, idx, c, loc, bBulk, Upsert(Entries(fmt.intKey, root), c), Right)
    ensures eState == VALID || eState == INVALID
  {
    hide Finished, Entries, Upsert, CellReady, WellPlaced, Position, Wf;
    if loc == 0 {
      OverwriteReady(fmt, root, h, pages, idx, c, bBulk);
      EntryAtPosition(fmt.intKey, root, h, pages, idx);
      EntriesAscend(fmt.intKey, root);
      UpsertIsReplace(Entries(fmt.intKey, root), c, Position(fmt.intKey, root, h, pages, idx));
    } else {
      InsertionReady(fmt, root, h, eState, pages, idx, c, loc, bBulk);
    }
  }

  /**
  Delete the entry of the cursor. The tree is rebalanced from the leaf that has lost a cell, and from the interior page
  if the cell took the place of another: a page with more than two thirds of its space free is joined with its siblings.
  */
  method Delete(c: BtCursor, fmt: Format, hints: bool)
    requires fmt.Valid() && fmt.intKey == c.intKey && c.Valid() && c.eState == VALID && Finished(fmt, c.root, c.h)
    modifies c
    ensures Finished(fmt, c.root, c.h) && Wf(c.root, c.h) && Ordered(c.intKey, c.root)
    ensures c.Usable() && !c.validNKey && !c.atLast
    ensures old(Position(c.intKey, c.root, c.h, c.apPage, c.aiIdx)) < |old(Entries(c.intKey, c.root))|
    ensures Entries(c.intKey, c.root)
      == RemoveAt(old(Entries(c.intKey, c.root)), old(Position(c.intKey, c.root, c.h, c.apPage, c.aiIdx)))
    ensures ToMap(Entries(c.intKey, c.root)) == ToMap(old(Entries(c.intKey, c.root))) - {old(c.CurrentKey())}
    ensures c.eState == if |Entries(c.intKey, c.root)| == 0 then INVALID else VALID
    ensures old(Last(c.apPage)).Leaf? ==>
      Rebalanced(fmt, hints, Round(old(CtxOf(c.apPage, c.aiIdx)),
                                   Leaf(RemoveAt(old(Last(c.apPage)).cells, old(Last(c.aiIdx)))), false, 0), c.root)
    ensures old(Last(c.apPage)).Interior? ==> MovedIn(fmt, hints, old(c.apPage), old(c.aiIdx), c.root)
  {
    hide Finished, Sought, Unbalanced, Settled, Entries, Wf, Ordered, Content, Position, Plug, FlagsOk, ToMap,
      Balance.Room, WentBack,
      LastBelowChild, CtxOf, SetCell, RemoveAt, Rebalanced, AtRest, MovedIn, ClimbsTo;
    ghost var es, p := Entries(c.intKey, c.root), Position(c.intKey, c.root, c.h, c.apPage, c.aiIdx);
    EntryAtPosition(c.intKey, c.root, c.h, c.apPage, c.aiIdx);
    EntriesAscend(c.intKey, c.root);
    RemovalRemoves(es, p);
    var ctx: Ctx, cur: Node;
    ghost var h: nat;
    if Last(c.apPage).Leaf? {
      LeafReady(fmt, c.root, c.h, c.apPage, c.aiIdx, hints);
      ctx, cur, h := BalancePages(fmt, CtxOf(c.apPage, c.aiIdx), Leaf(RemoveAt(Last(c.apPage).cells, Last(c.aiIdx))), 0,
                                  -1, false,
                                  0, hints, RemoveAt(es, p), Right);
      SettledIsFinished(fmt, ctx, cur, h, -1, RemoveAt(es, p), hints);
    } else {
      ctx, cur, h := DeleteInside(c, fmt, hints);
    }
    c.root, c.h := Plug(ctx, cur), h + ctx.Depth();
    FinishedIsOrdered(fmt, c.root, c.h);
    c.MoveToRoot();
    FlagsOfRowid(c.intKey, c.root, c.h, c.eState, c.apPage, c.aiIdx, c.validNKey, c.atLast);
  }

  lemma LeafReady(fmt: Format, root: Node, h: nat, pages: seq<Node>, idx: seq<nat>, bBulk: bool)
    requires fmt.Valid() && Finished(fmt, root, h) && AtEntry(fmt.intKey, root, h, pages, idx) && Last(pages).Leaf?
    ensures Position(fmt.intKey, root, h, pages, idx) < |Entries(fmt.intKey, root)|
    ensures Unbalanced(fmt, CtxOf(pages, idx), Leaf(RemoveAt(Last(pages).cells, Last(idx))), 0, -1, false, 0,
                       RemoveAt(Entries(fmt.intKey, root), Position(fmt.intKey, root, h, pages, idx)))
    ensures Parted(fmt, CtxOf(pages, idx), Leaf(RemoveAt(Last(pages).cells, Last(idx))), false, bBulk,
                   RemoveAt(Entries(fmt.intKey, root), Position(fmt.intKey, root, h, pages, idx)), Right)
  {
    hide Position, Entries, Ahead, CellOffset, Finished, Unbalanced, RemoveAt, Base, Parted;
    CtxOfPath(root, h, pages, idx);
    PositionOffset(fmt.intKey, root, h, pages, idx);
    LeafOffset(Last(pages), Last(idx));
    DeletedFromLeaf(fmt, root, h, pages, idx,
                    RemoveAt(Entries(fmt.intKey, root), Position(fmt.intKey, root, h, pages, idx)), bBulk);
  }

  // The tree, balanced from the page at depth d.
  ghost predicate BalancedAt(fmt: Format, bBulk: bool, root: Node, d: nat, root': Node) {
    exists ctx, cur ::
      && IsCtx(ctx) && ctx.Depth() == d && Plug(ctx, cur) == root
      && Rebalanced(fmt, bBulk, Round(ctx, cur, Content(fmt, cur) > Balance.Room(fmt, ctx, cur), 0), root')
  }

  /** The tree, balanced from the page of round s, and if that ended below depth d from the page there as well. */
  ghost predicate TwiceBalanced(fmt: Format, bBulk: bool, s: Round, d: nat, root: Node) {
    exists ctx, cur ::
      && IsCtx(ctx) && ClimbsTo(fmt, bBulk, s, ctx, cur) && AtRest(fmt, Round(ctx, cur, false, 0))
      && if ctx.Depth() > d then BalancedAt(fmt, bBulk, Plug(ctx, cur), d, root) else root == Plug(ctx, cur)
  }

  /** The last cell below the left child of a cell has taken its place, and the tree was balanced from both places. */
  ghost predicate MovedIn(fmt: Format, bBulk: bool, pages0: seq<Node>, idx0: seq<nat>, root: Node) {
    exists pages, idx :: MovedFrom(fmt, bBulk, pages0, idx0, pages, idx, root)
  }

  ghost predicate MovedFrom(fmt: Format, bBulk: bool, pages0: seq<Node>, idx0: seq<nat>, pages: seq<Node>,
                            idx: seq<nat>, root: Node) {
    && pages0 != [] && LastBelowChild(pages0, idx0, pages, idx) && |pages0| - 1 < CtxOf(pages, idx).Depth()
    && pages != [] && Last(pages).Leaf? && Last(pages).cells != []
    && TwiceBalanced(fmt, bBulk, Round(SetCell(CtxOf(pages, idx), |pages0| - 1, Last(Last(pages).cells)),
                                       Leaf(ButLast(Last(pages).cells)), false, 0), |pages0| - 1, root)
  }

  lemma OnceBalanced(fmt: Format, bBulk: bool, s: Round, d: nat, ctx: Ctx, cur: Node)
    requires IsCtx(ctx) && ClimbsTo(fmt, bBulk, s, ctx, cur) && AtRest(fmt, Round(ctx, cur, false, 0))
    requires ctx.Depth() <= d
    ensures TwiceBalanced(fmt, bBulk, s, d, Plug(ctx, cur))
  {
    hide ClimbsTo, AtRest, Plug;
  }

  lemma AgainBalanced(fmt: Format, bBulk: bool, s: Round, d: nat, ctx: Ctx, cur: Node, ctx': Ctx, cur': Node,
                      root: Node)
    requires IsCtx(ctx) && ClimbsTo(fmt, bBulk, s, ctx, cur) && AtRest(fmt, Round(ctx, cur, false, 0))
    requires ctx.Depth() > d && IsCtx(ctx') && ctx'.Depth() == d && Plug(ctx', cur') == Plug(ctx, cur)
    requires Rebalanced(fmt, bBulk, Round(ctx', cur', Content(fmt, cur') > Balance.Room(fmt, ctx', cur'), 0), root)
    ensures TwiceBalanced(fmt, bBulk, s, d, root)
  {
    hide ClimbsTo, AtRest, Plug, Rebalanced, Content;
    assert BalancedAt(fmt, bBulk, Plug(ctx, cur), d, root);
  }

  // The entry is on an interior page: the one before it takes its place, and both pages may need balancing.
  method DeleteInside(c: BtCursor, fmt: Format, hints: bool) returns (ctx: Ctx, cur: Node, ghost h: nat)
    requires fmt.Valid() && fmt.intKey == c.intKey && Finished(fmt, c.root, c.h) && c.eState == VALID
    requires AtEntry(c.intKey, c.root, c.h, c.apPage, c.aiIdx) && Last(c.apPage).Interior?
    requires Position(c.intKey, c.root, c.h, c.apPage, c.aiIdx) < |Entries(c.intKey, c.root)|
    modifies c
    ensures c.root == old(c.root)
    ensures var es, p := old(Entries(c.intKey, c.root)), old(Position(c.intKey, c.root, c.h, c.apPage, c.aiIdx));
      IsCtx(ctx) && Finished(fmt, Plug(ctx, cur), h + ctx.Depth())
        && Entries(fmt.intKey, Plug(ctx, cur)) == RemoveAt(es, p)
    ensures MovedIn(fmt, hints, old(c.apPage), old(c.aiIdx), Plug(ctx, cur))
  {
    hide Finished, Unbalanced, Settled, Entries, Wf, Content, Position, Plug, Balance.Room, WentBack, LastBelowChild,
      CtxOf, SetCell,
      RemoveAt, CtxSound, Rebalanced, ClimbsTo, AtRest, TwiceBalanced;
    ghost var pages0, idx0 := c.apPage, c.aiIdx;
    ghost var es := RemoveAt(Entries(c.intKey, c.root), Position(c.intKey, c.root, c.h, c.apPage, c.aiIdx));
    var iCellDepth := |c.apPage| - 1;
    var bof := c.StepPrevious();
    InsideReady(fmt, c.root, c.h, pages0, idx0, c.apPage, c.aiIdx);
    var cells := Last(c.apPage).cells;
    ctx, cur := SetCell(CtxOf(c.apPage, c.aiIdx), iCellDepth, Last(cells)), Leaf(ButLast(cells));
    IndexParted(fmt, ctx, cur, 0, iCellDepth, false, hints, es);
    ghost var s := Round(ctx, cur, false, 0);
    ctx, cur, h := BalancePages(fmt, ctx, cur, 0, iCellDepth, false, 0, hints, es, Right);
    if ctx.Depth() > iCellDepth {
      ghost var ctx1, cur1 := ctx, cur;
      ctx, cur, h := ClimbTo(fmt, ctx, cur, h, iCellDepth, es);
      ghost var ctx2, cur2 := ctx, cur;
      IndexParted(fmt, ctx, cur, h, -1, Content(fmt, cur) > Balance.Room(fmt, ctx, cur), hints, es);
      ctx, cur, h := BalancePages(fmt, ctx, cur, h, -1, Content(fmt, cur) > Balance.Room(fmt, ctx, cur), 0, hints, es,
                                  Right);
      SettledIsFinished(fmt, ctx, cur, h, -1, es, hints);
      AgainBalanced(fmt, hints, s, iCellDepth, ctx1, cur1, ctx2, cur2, Plug(ctx, cur));
    } else {
      SettledIsFinished(fmt, ctx, cur, h, iCellDepth, es, hints);
      OnceBalanced(fmt, hints, s, iCellDepth, ctx, cur);
    }
    assert MovedFrom(fmt, hints, pages0, idx0, c.apPage, c.aiIdx, Plug(ctx, cur));
  }

  // An index tree has no separators.
  lemma IndexParted(fmt: Format, ctx: Ctx, cur: Node, h: nat, d: int, over: bool, bBulk: bool, es: seq<Cell>)
    requires Unbalanced(fmt, ctx, cur, h, d, over, 0, es) && !fmt.intKey
    ensures Parted(fmt, ctx, cur, over, bBulk, es, Right)
  {}

  lemma InsideReady(fmt: Format, root: Node, h: nat, pages0: seq<Node>, idx0: seq<nat>, pages: seq<Node>, idx: seq<nat>)
    requires fmt.Valid() && Finished(fmt, root, h) && AtEntry(fmt.intKey, root, h, pages0, idx0)
      && Last(pages0).Interior?
    requires LastBelowChild(pages0, idx0, pages, idx)
    requires Position(fmt.intKey, root, h, pages0, idx0) < |Entries(fmt.intKey, root)|
    requires WentBack(fmt.intKey, root, h, pages, idx, false, Position(fmt.intKey, root, h, pages0, idx0))
    ensures pages != [] && Last(pages).Leaf? && Last(pages).cells != [] && |pages0| - 1 < CtxOf(pages, idx).Depth()
    ensures Unbalanced(fmt, SetCell(CtxOf(pages, idx), |pages0| - 1, Last(Last(pages).cells)),
                       Leaf(ButLast(Last(pages).cells)), 0,
                       |pages0| - 1, false, 0,
                       RemoveAt(Entries(fmt.intKey, root), Position(fmt.intKey, root, h, pages0, idx0)))
  {
    hide Finished, Entries, Wf, Position, Plug, LastBelowChild, CtxOf, SetCell, Ahead, CtxSound, LeftOfCell, Content,
      RootCells, Unbalanced, RemoveAt, Format.Valid, IsCtx;
    BelowInterior(fmt, root, h, pages0, idx0, pages, idx);
    MovedUp(fmt, CtxOf(pages, idx), Last(pages).cells, |pages0| - 1);
  }
}
