/**
Sibling pages share their cells anew (balance_nonroot), without changing the entries of the tree or their order.
*/
module Redistribution {
  import opened Tree
  import opened Packing

  /**
  How cells take up space. cellSize is the size of a cell on a leaf and keySize that of a rowid; hdr is the space
  that the file header takes on the root page.
  */
  datatype Format = Format(intKey: bool, usable: nat, hdr: nat, cellSize: Cell -> nat, keySize: Key -> nat)
  {
    /** Any cell fits on a leaf; where cells also stand between pages, three of them fit on an interior page. */
    ghost predicate Valid() {
      && usable >= 480 && hdr <= 100
      && (forall k {:trigger keySize(k)} :: 1 <= keySize(k) <= 9)
      && (forall c {:trigger cellSize(c)} ::
            if intKey then cellSize(c) + 10 <= usable else 3 * (cellSize(c) + 6) <= usable - 12)
    }

    // The size of a cell; on an interior page it has a child pointer, and in a rowid tree no payload.
    function Size(leaf: bool, c: Cell): nat {
      if leaf then cellSize(c) else if intKey then 4 + keySize(c.key) else 4 + cellSize(c)
    }

    function Capacity(leaf: bool): int { if leaf then usable - 8 else usable - 12 }

    function LeafData(leaf: bool): bool { leaf && intKey }
  }

  // ----- Pages as runs of items -----

  /** What is below the right pointer; below a leaf there is nothing. */
  function Link(t: Node): Node { if t.Leaf? then Leaf([]) else t.right }

  // The cells of a page with their left children.
  function Items(t: Node): (r: seq<Slot>)
    ensures |r| == t.NCell()
  {
    if t.Leaf? then seq(|t.cells|, i requires 0 <= i < |t.cells| => Slot(Leaf([]), t.cells[i])) else t.slots
  }

  function MakePage(leaf: bool, items: seq<Slot>, link: Node): (t: Node)
    ensures t.Leaf? == leaf && t.NCell() == |items|
  {
    if leaf then Leaf(seq(|items|, i requires 0 <= i < |items| => items[i].cell)) else Interior(items, link)
  }

  // Cells without children, as on a leaf.
  ghost predicate Childless(items: seq<Slot>) {
    forall i :: 0 <= i < |items| ==> items[i].child == Leaf([])
  }

  lemma ChildlessPart(items: seq<Slot>, a: nat, b: nat)
    requires a <= b <= |items| && Childless(items)
    ensures Childless(items[a..b])
  {}

  lemma ItemsOfPage(leaf: bool, items: seq<Slot>, link: Node)
    requires leaf ==> Childless(items)
    ensures Items(MakePage(leaf, items, link)) == items
  {}

  /** The entries of a run: those below each child, each followed by the cell itself where cells are entries. */
  function Flat(intKey: bool, withCells: bool, items: seq<Slot>): seq<Cell> {
    if items == [] then []
    else
      var s := items[|items| - 1];
      Flat(intKey, withCells, items[..|items| - 1]) + Entries(intKey, s.child) + (if withCells then [s.cell] else [])
  }

  lemma {:induction false} FlatConcat(intKey: bool, withCells: bool, a: seq<Slot>, b: seq<Slot>)
    ensures Flat(intKey, withCells, a + b) == Flat(intKey, withCells, a) + Flat(intKey, withCells, b)
  {
    hide Entries;
    if b == [] {
      assert a + b == a;
    } else {
      assert (a + b)[..|a + b| - 1] == a + b[..|b| - 1];
      FlatConcat(intKey, withCells, a, b[..|b| - 1]);
    }
  }

  lemma {:induction false} FlatOfChildless(intKey: bool, items: seq<Slot>)
    requires Childless(items)
    ensures |Flat(intKey, true, items)| == |items|
    ensures forall i :: 0 <= i < |items| ==> Flat(intKey, true, items)[i] == items[i].cell
  {
    if items != [] {
      FlatOfChildless(intKey, items[..|items| - 1]);
    }
  }

  lemma {:induction false} BeforeIsFlat(intKey: bool, t: Node, n: nat)
    requires t.Interior? && n <= |t.slots|
    ensures Before(intKey, t, n) == Flat(intKey, !intKey, t.slots[..n])
  {
    if n > 0 {
      BeforeIsFlat(intKey, t, n - 1);
      assert t.slots[..n][..n - 1] == t.slots[..n - 1];
    }
  }

  lemma EntriesAreFlat(intKey: bool, t: Node)
    ensures Entries(intKey, t) == Flat(intKey, t.Leaf? || !intKey, Items(t)) + Entries(intKey, Link(t))
  {
    if t.Leaf? {
      FlatOfChildless(intKey, Items(t));
    } else {
      BeforeIsFlat(intKey, t, |t.slots|);
      assert t.slots[..|t.slots|] == t.slots;
    }
  }

  /** The space that a run takes on a page. */
  function Bytes(fmt: Format, leaf: bool, items: seq<Slot>): nat {
    if items == [] then 0
    else Bytes(fmt, leaf, items[..|items| - 1]) + fmt.Size(leaf, items[|items| - 1].cell) + 2
  }

  function Content(fmt: Format, t: Node): nat { Bytes(fmt, t.Leaf?, Items(t)) }

  lemma {:induction false} BytesConcat(fmt: Format, leaf: bool, a: seq<Slot>, b: seq<Slot>)
    ensures Bytes(fmt, leaf, a + b) == Bytes(fmt, leaf, a) + Bytes(fmt, leaf, b)
  {
    if b == [] {
      assert a + b == a;
    } else {
      assert (a + b)[..|a + b| - 1] == a + b[..|b| - 1];
      BytesConcat(fmt, leaf, a, b[..|b| - 1]);
    }
  }

  // Only the cells count.
  lemma {:induction false} SameBytes(fmt: Format, leaf: bool, a: seq<Slot>, b: seq<Slot>)
    requires |a| == |b| && forall i :: 0 <= i < |a| ==> a[i].cell == b[i].cell
    ensures Bytes(fmt, leaf, a) == Bytes(fmt, leaf, b)
  {
    if a != [] {
      SameBytes(fmt, leaf, a[..|a| - 1], b[..|b| - 1]);
    }
  }

  function SizesOfItems(fmt: Format, leaf: bool, items: seq<Slot>): (r: seq<nat>)
    ensures |r| == |items|
  {
    seq(|items|, i requires 0 <= i < |items| => fmt.Size(leaf, items[i].cell))
  }

  lemma {:induction false} SumIsBytes(fmt: Format, leaf: bool, items: seq<Slot>, a: nat, b: nat)
    requires a <= b <= |items|
    ensures Sum(SizesOfItems(fmt, leaf, items), a, b) == Bytes(fmt, leaf, items[a..b])
    decreases b
  {
    if a < b {
      SumIsBytes(fmt, leaf, items, a, b - 1);
      assert items[a..b][..b - a - 1] == items[a..b - 1];
    }
  }

  // ----- Separators -----

  /** Key k separates the first p entries from the rest. */
  ghost predicate Cuts(es: seq<Cell>, p: nat, k: Key) {
    && p <= |es|
    && (forall i :: 0 <= i < p ==> es[i].key <= k)
    && (forall i :: p <= i < |es| ==> es[i].key > k)
  }

  /**
  The separators of a subtree of a rowid tree, whose entries begin at number o of es: each of them separates the
  entries before it from all those after it.
  */
  ghost predicate SepAll(es: seq<Cell>, o: nat, t: Node)
    decreases t, 1, 0
  {
    t.Interior? ==> FirstSep(es, o, t, |t.slots|) && SepAll(es, o + |Flat(true, false, t.slots)|, t.right)
  }

  // The first n separators of an interior page, and those below them.
  ghost predicate FirstSep(es: seq<Cell>, o: nat, t: Node, n: nat)
    requires t.Interior? && n <= |t.slots|
    decreases t, 0, n
  {
    n > 0 ==>
      && FirstSep(es, o, t, n - 1)
      && SepAll(es, o + |Flat(true, false, t.slots[..n - 1])|, t.slots[n - 1].child)
      && Cuts(es, o + |Flat(true, false, t.slots[..n])|, t.slots[n - 1].cell.key)
  }

  /** The same for a run of slots. */
  ghost predicate RunSep(es: seq<Cell>, o: nat, run: seq<Slot>) {
    FirstSep(es, o, Interior(run, Leaf([])), |run|)
  }

  lemma {:induction false} FirstSepSame(es: seq<Cell>, o: nat, t: Node, t': Node, n: nat)
    requires t.Interior? && t'.Interior? && n <= |t.slots| && n <= |t'.slots| && t.slots[..n] == t'.slots[..n]
    ensures FirstSep(es, o, t, n) <==> FirstSep(es, o, t', n)
    decreases n
  {
    if n > 0 {
      assert t.slots[..n - 1] == t.slots[..n][..n - 1] == t'.slots[..n - 1];
      assert t.slots[n - 1] == t.slots[..n][n - 1] == t'.slots[n - 1];
      FirstSepSame(es, o, t, t', n - 1);
    }
  }

  lemma SepOfInterior(es: seq<Cell>, o: nat, run: seq<Slot>, right: Node)
    ensures SepAll(es, o, Interior(run, right)) <==>
      RunSep(es, o, run) && SepAll(es, o + |Flat(true, false, run)|, right)
  {
    FirstSepSame(es, o, Interior(run, right), Interior(run, Leaf([])), |run|);
  }

  lemma RunSepSnoc(es: seq<Cell>, o: nat, run: seq<Slot>, s: Slot)
    ensures RunSep(es, o, run + [s]) <==>
      && RunSep(es, o, run) && SepAll(es, o + |Flat(true, false, run)|, s.child)
      && Cuts(es, o + |Flat(true, false, run + [s])|, s.cell.key)
  {
    var t, t' := Interior(run + [s], Leaf([])), Interior(run, Leaf([]));
    assert t.slots[..|run|] == run && t'.slots[..|run|] == run && t.slots[..|run| + 1] == run + [s];
    FirstSepSame(es, o, t, t', |run|);
  }

  lemma {:induction false} RunSepConcat(es: seq<Cell>, o: nat, a: seq<Slot>, b: seq<Slot>)
    ensures RunSep(es, o, a + b) <==> RunSep(es, o, a) && RunSep(es, o + |Flat(true, false, a)|, b)
    decreases |b|
  {
    if b == [] {
      assert a + b == a;
    } else {
      var n := |b| - 1;
      assert b == b[..n] + [b[n]] && a + b == a + b[..n] + [b[n]];
      RunSepConcat(es, o, a, b[..n]);
      RunSepSnoc(es, o, a + b[..n], b[n]);
      RunSepSnoc(es, o + |Flat(true, false, a)|, b[..n], b[n]);
      FlatConcat(true, false, a, b[..n]);
      FlatConcat(true, false, a, b);
      hide *;
    }
  }

  // ----- Gathering the cells of siblings -----

  ghost predicate AllLeaves(leaf: bool, mid: seq<Slot>) {
    forall i :: 0 <= i < |mid| ==> mid[i].child.Leaf? == leaf
  }

  /**
  The cells of siblings in order, with the dividers between them. A divider takes the right pointer of the page before
  it along; between the leaves of a rowid tree it is left out.
  */
  function Gather(leafData: bool, mid: seq<Slot>): seq<Slot> {
    if mid == [] then []
    else
      var n := |mid| - 1;
      Gather(leafData, mid[..n]) + Items(mid[n].child)
      + (if leafData then [] else [Slot(Link(mid[n].child), mid[n].cell)])
  }

  lemma FlatSnoc(intKey: bool, withCells: bool, run: seq<Slot>, s: Slot)
    ensures Flat(intKey, withCells, run + [s])
      == Flat(intKey, withCells, run) + Entries(intKey, s.child) + (if withCells then [s.cell] else [])
  {
    assert (run + [s])[..|run|] == run;
  }

  lemma GatherSnoc(leafData: bool, mid: seq<Slot>, s: Slot)
    ensures leafData ==> Gather(leafData, mid + [s]) == Gather(leafData, mid) + Items(s.child)
    ensures !leafData ==>
      Gather(leafData, mid + [s]) == Gather(leafData, mid) + Items(s.child) + [Slot(Link(s.child), s.cell)]
  {
    assert (mid + [s])[..|mid|] == mid;
  }

  lemma {:induction false} GatherFlat(intKey: bool, leaf: bool, mid: seq<Slot>)
    requires AllLeaves(leaf, mid)
    ensures Flat(intKey, !intKey, mid) == Flat(intKey, leaf || !intKey, Gather(leaf && intKey, mid))
  {
    if mid != [] {
      GatherFlat(intKey, leaf, mid[..|mid| - 1]);
      GatherFlatStep(intKey, leaf, mid[..|mid| - 1], mid[|mid| - 1]);
      assert mid == mid[..|mid| - 1] + [mid[|mid| - 1]];
    }
  }

  lemma GatherFlatStep(intKey: bool, leaf: bool, m: seq<Slot>, s: Slot)
    requires s.child.Leaf? == leaf
      && Flat(intKey, !intKey, m) == Flat(intKey, leaf || !intKey, Gather(leaf && intKey, m))
    ensures Flat(intKey, !intKey, m + [s]) == Flat(intKey, leaf || !intKey, Gather(leaf && intKey, m + [s]))
  {
    hide Flat, Gather, Entries, Items;
    var wc, leafData := leaf || !intKey, leaf && intKey;
    var g, sl, div := Gather(leafData, m), Items(s.child), Slot(Link(s.child), s.cell);
    FlatSnoc(intKey, !intKey, m, s);
    GatherSnoc(leafData, m, s);
    EntriesAreFlat(intKey, s.child);
    FlatConcat(intKey, wc, g, sl);
    FlatSnoc(intKey, wc, g + sl, div);
    NoEntries(intKey);
    GatherStep(Flat(intKey, wc, g), Flat(intKey, wc, sl), Entries(intKey, div.child), if intKey then [] else [s.cell]);
  }

  lemma NoEntries(intKey: bool)
    ensures Entries(intKey, Leaf([])) == [] && Flat(intKey, true, []) == [] && Flat(intKey, false, []) == []
  {}

  lemma GatherStep<T>(g: seq<T>, sl: seq<T>, e: seq<T>, c: seq<T>)
    ensures g + (sl + e) + c == (g + sl) + e + c
    ensures e == c == [] ==> g + (sl + e) + c == g + sl
  {}

  // Between interior pages, the separators of the pages and the dividers are those of the gathered run.
  lemma {:induction false} GatherSep(es: seq<Cell>, o: nat, mid: seq<Slot>)
    requires AllLeaves(false, mid)
    ensures RunSep(es, o, mid) <==> RunSep(es, o, Gather(false, mid))
  {
    if mid != [] {
      var n := |mid| - 1;
      var m, s := mid[..n], mid[n];
      assert mid == m + [s] && s.child.Interior?;
      GatherSep(es, o, m);
      GatherFlat(true, false, m);
      GatherSnoc(false, m, s);
      InteriorStep(es, o, m, Gather(false, m), s.child.slots, Slot(s.child.right, s.cell));
    }
  }

  // ----- Spreading the cells over pages -----

  // A layout that leaves no page empty when there is more than one.
  ghost predicate Spreadable(n: nat, leafData: bool, cnt: seq<nat>) {
    && IsLayout(n, leafData, cnt)
    && (|cnt| > 1 ==> forall j {:trigger First(leafData, cnt, j)} :: 0 <= j < |cnt| ==>
          First(leafData, cnt, j) < cnt[j])
  }

  /** The divider after page j: a cell of the run, or in a rowid tree above leaves a copy of the last key. */
  function Divider(leafData: bool, items: seq<Slot>, cnt: seq<nat>, j: nat): Cell
    requires Spreadable(|items|, leafData, cnt) && j + 1 < |cnt|
  {
    assert First(leafData, cnt, j) < cnt[j];
    assert First(leafData, cnt, j + 1) <= cnt[j + 1];
    if leafData then Cell(items[cnt[j] - 1].cell.key, []) else items[cnt[j]].cell
  }

  function PageOf(leaf: bool, leafData: bool, items: seq<Slot>, link: Node, cnt: seq<nat>, j: nat): (t: Node)
    requires Spreadable(|items|, leafData, cnt) && j < |cnt|
    ensures t.Leaf? == leaf && t.NCell() == cnt[j] - First(leafData, cnt, j)
  {
    assert First(leafData, cnt, j) <= cnt[j];
    assert j + 1 < |cnt| ==> First(leafData, cnt, j + 1) <= cnt[j + 1];
    MakePage(leaf, items[First(leafData, cnt, j)..cnt[j]],
             if j + 1 < |cnt| && !leafData then items[cnt[j]].child else link)
  }

  /** The first n pages with the dividers that follow them. */
  function Spread(leaf: bool, leafData: bool, items: seq<Slot>, link: Node, cnt: seq<nat>, n: nat): (r: seq<Slot>)
    requires Spreadable(|items|, leafData, cnt) && n < |cnt|
    ensures |r| == n
  {
    if n == 0 then []
    else
      Spread(leaf, leafData, items, link, cnt, n - 1)
      + [Slot(PageOf(leaf, leafData, items, link, cnt, n - 1), Divider(leafData, items, cnt, n - 1))]
  }

  lemma EntriesOfPage(intKey: bool, leaf: bool, items: seq<Slot>, link: Node)
    requires leaf ==> Childless(items)
    ensures Entries(intKey, MakePage(leaf, items, link))
      == Flat(intKey, leaf || !intKey, items) + (if leaf then [] else Entries(intKey, link))
  {
    ItemsOfPage(leaf, items, link);
    EntriesAreFlat(intKey, MakePage(leaf, items, link));
  }

  // What one page and its divider take from the run.
  lemma PageFlat(intKey: bool, leaf: bool, items: seq<Slot>, link: Node, cnt: seq<nat>, j: nat)
    requires Spreadable(|items|, leaf && intKey, cnt) && j + 1 < |cnt| && (leaf ==> Childless(items))
    ensures First(leaf && intKey, cnt, j) <= First(leaf && intKey, cnt, j + 1) <= |items|
    ensures Entries(intKey, PageOf(leaf, leaf && intKey, items, link, cnt, j))
            + (if intKey then [] else [Divider(leaf && intKey, items, cnt, j)])
      == Flat(intKey, leaf || !intKey, items[First(leaf && intKey, cnt, j)..First(leaf && intKey, cnt, j + 1)])
  {
    var leafData, wc := leaf && intKey, leaf || !intKey;
    var a, c := First(leafData, cnt, j), cnt[j];
    assert a < c && First(leafData, cnt, j + 1) <= cnt[j + 1] <= |items|;
    if leaf {
      ChildlessPart(items, a, c);
    }
    EntriesOfPage(intKey, leaf, items[a..c], if leafData then link else items[c].child);
    if !leafData {
      assert items[a..c + 1] == items[a..c] + [items[c]];
      FlatSnoc(intKey, wc, items[a..c], items[c]);
    }
  }

  lemma SpreadSnoc(leaf: bool, leafData: bool, items: seq<Slot>, link: Node, cnt: seq<nat>, n: nat)
    returns (s: Slot)
    requires Spreadable(|items|, leafData, cnt) && n + 1 < |cnt|
    ensures s == Slot(PageOf(leaf, leafData, items, link, cnt, n), Divider(leafData, items, cnt, n))
    ensures Spread(leaf, leafData, items, link, cnt, n + 1) == Spread(leaf, leafData, items, link, cnt, n) + [s]
  {
    s := Slot(PageOf(leaf, leafData, items, link, cnt, n), Divider(leafData, items, cnt, n));
  }

  // The bounds of page j and of its divider in the run.
  lemma PageBounds(n: nat, leafData: bool, cnt: seq<nat>, j: nat)
    requires Spreadable(n, leafData, cnt) && j + 1 < |cnt|
    ensures First(leafData, cnt, j) < cnt[j] <= First(leafData, cnt, j + 1) <= n
    ensures !leafData ==> First(leafData, cnt, j + 1) == cnt[j] + 1
    ensures leafData ==> First(leafData, cnt, j + 1) == cnt[j]
  {
    assert First(leafData, cnt, j) < cnt[j] && First(leafData, cnt, j + 1) <= cnt[j + 1];
  }

  lemma {:induction false} SpreadFlat(intKey: bool, leaf: bool, items: seq<Slot>, link: Node, cnt: seq<nat>, n: nat)
    requires Spreadable(|items|, leaf && intKey, cnt) && n < |cnt| && (leaf ==> Childless(items))
    ensures First(leaf && intKey, cnt, n) <= |items|
    ensures Flat(intKey, !intKey, Spread(leaf, leaf && intKey, items, link, cnt, n))
      == Flat(intKey, leaf || !intKey, items[..First(leaf && intKey, cnt, n)])
  {
    if n == 0 {
      assert items[..0] == [];
    } else {
      SpreadFlat(intKey, leaf, items, link, cnt, n - 1);
      SpreadFlatStep(intKey, leaf, items, link, cnt, n - 1);
    }
  }

  lemma SpreadFlatStep(intKey: bool, leaf: bool, items: seq<Slot>, link: Node, cnt: seq<nat>, n: nat)
    requires Spreadable(|items|, leaf && intKey, cnt) && n + 1 < |cnt| && (leaf ==> Childless(items))
    requires First(leaf && intKey, cnt, n) <= |items|
    requires Flat(intKey, !intKey, Spread(leaf, leaf && intKey, items, link, cnt, n))
      == Flat(intKey, leaf || !intKey, items[..First(leaf && intKey, cnt, n)])
    ensures First(leaf && intKey, cnt, n + 1) <= |items|
    ensures Flat(intKey, !intKey, Spread(leaf, leaf && intKey, items, link, cnt, n + 1))
      == Flat(intKey, leaf || !intKey, items[..First(leaf && intKey, cnt, n + 1)])
  {
    hide Flat, Entries, Spread, PageOf, Divider, Spreadable, First;
    var leafData, wc, m := leaf && intKey, leaf || !intKey, Spread(leaf, leaf && intKey, items, link, cnt, n);
    PageFlat(intKey, leaf, items, link, cnt, n);
    PageBounds(|items|, leafData, cnt, n);
    var s := SpreadSnoc(leaf, leafData, items, link, cnt, n);
    var a, b := First(leafData, cnt, n), First(leafData, cnt, n + 1);
    assert items[..b] == items[..a] + items[a..b];
    FlatConcat(intKey, wc, items[..a], items[a..b]);
    FlatSnoc(intKey, !intKey, m, s);
    SplitStep(Flat(intKey, wc, items[..a]), Entries(intKey, s.child), if intKey then [] else [s.cell]);
  }

  lemma SplitStep<T>(a: seq<T>, b: seq<T>, c: seq<T>)
    ensures a + (b + c) == a + b + c
    ensures c == [] ==> a + b + c == a + b
  {}

  // Interior pages: the separators are again those of the run.
  lemma {:induction false} SpreadSep(es: seq<Cell>, o: nat, items: seq<Slot>, link: Node, cnt: seq<nat>, n: nat)
    requires Spreadable(|items|, false, cnt) && n < |cnt|
    ensures First(false, cnt, n) <= |items|
    ensures RunSep(es, o, Spread(false, false, items, link, cnt, n)) <==> RunSep(es, o, items[..First(false, cnt, n)])
  {
    SpreadFlat(true, false, items, link, cnt, n);
    if n == 0 {
      assert items[..0] == [];
    } else {
      SpreadSep(es, o, items, link, cnt, n - 1);
      SpreadSepStep(es, o, items, link, cnt, n - 1);
    }
  }

  lemma SpreadSepStep(es: seq<Cell>, o: nat, items: seq<Slot>, link: Node, cnt: seq<nat>, n: nat)
    requires Spreadable(|items|, false, cnt) && n + 1 < |cnt| && First(false, cnt, n) <= |items|
    requires RunSep(es, o, Spread(false, false, items, link, cnt, n)) <==> RunSep(es, o, items[..First(false, cnt, n)])
    ensures First(false, cnt, n + 1) <= |items|
    ensures RunSep(es, o, Spread(false, false, items, link, cnt, n + 1))
      <==> RunSep(es, o, items[..First(false, cnt, n + 1)])
  {
    SpreadFlat(true, false, items, link, cnt, n);
    PageBounds(|items|, false, cnt, n);
    hide Flat, RunSep, Spread, First, Spreadable;
    var m := Spread(false, false, items, link, cnt, n);
    var s := SpreadSnoc(false, false, items, link, cnt, n);
    var a, c := First(false, cnt, n), cnt[n];
    assert s == Slot(Interior(items[a..c], items[c].child), items[c].cell);
    InteriorStep(es, o, m, items[..a], items[a..c], items[c]);
    assert items[..a] + items[a..c] == items[..c] && items[..c] + [items[c]] == items[..c + 1];
  }

  // A page with its divider, and the same cells in a run.
  lemma InteriorStep(es: seq<Cell>, o: nat, m: seq<Slot>, run: seq<Slot>, page: seq<Slot>, s: Slot)
    requires Flat(true, false, m) == Flat(true, false, run) && (RunSep(es, o, m) <==> RunSep(es, o, run))
    ensures RunSep(es, o, m + [Slot(Interior(page, s.child), s.cell)]) <==> RunSep(es, o, run + page + [s])
  {
    hide Flat, RunSep, SepAll, Cuts, Entries;
    var t, o1 := Interior(page, s.child), o + |Flat(true, false, m)|;
    var d := Slot(t, s.cell);
    RunSepSnoc(es, o, m, d);
    SepOfInterior(es, o1, page, s.child);
    RunSepConcat(es, o, run, page);
    RunSepSnoc(es, o, run + page, s);
    InteriorSize(m, run, page, s);
    assert o1 + |Flat(true, false, page)| == o + |Flat(true, false, run + page)|;
    assert o + |Flat(true, false, m + [d])| == o + |Flat(true, false, run + page + [s])|;
  }

  lemma InteriorSize(m: seq<Slot>, run: seq<Slot>, page: seq<Slot>, s: Slot)
    requires Flat(true, false, m) == Flat(true, false, run)
    ensures |Flat(true, false, m + [Slot(Interior(page, s.child), s.cell)])| == |Flat(true, false, run + page + [s])|
    ensures |Flat(true, false, run + page)| == |Flat(true, false, m)| + |Flat(true, false, page)|
  {
    hide Flat, Entries, Items;
    var t := Interior(page, s.child);
    assert Link(t) == s.child && Items(t) == page by { ItemsOfPage(false, page, s.child); }
    FlatConcat(true, false, run, page);
    FlatSnoc(true, false, run + page, s);
    FlatSnoc(true, false, m, Slot(t, s.cell));
    EntriesAreFlat(true, t);
  }

  // Leaves of a rowid tree: the last key of a page separates it from the next.
  lemma {:induction false} SpreadSepLeaf(es: seq<Cell>, o: nat, items: seq<Slot>, link: Node, cnt: seq<nat>, n: nat)
    requires Spreadable(|items|, true, cnt) && n < |cnt| && Childless(items)
    requires Ascending(es) && o + |items| <= |es| && forall i :: 0 <= i < |items| ==> es[o + i] == items[i].cell
    ensures RunSep(es, o, Spread(true, true, items, link, cnt, n))
  {
    if n > 0 {
      SpreadSepLeaf(es, o, items, link, cnt, n - 1);
      SpreadSepLeafStep(es, o, items, link, cnt, n - 1);
    }
  }

  lemma SpreadSepLeafStep(es: seq<Cell>, o: nat, items: seq<Slot>, link: Node, cnt: seq<nat>, n: nat)
    requires Spreadable(|items|, true, cnt) && n + 1 < |cnt| && Childless(items)
    requires Ascending(es) && o + |items| <= |es| && forall i :: 0 <= i < |items| ==> es[o + i] == items[i].cell
    requires RunSep(es, o, Spread(true, true, items, link, cnt, n))
    ensures RunSep(es, o, Spread(true, true, items, link, cnt, n + 1))
  {
    hide Flat, RunSep, Cuts, Spread, First, Spreadable, Ascending, IsLayout;
    PageBounds(|items|, true, cnt, n);
    SpreadFlat(true, true, items, link, cnt, n + 1);
    var m, c := Spread(true, true, items, link, cnt, n), cnt[n];
    var s := SpreadSnoc(true, true, items, link, cnt, n);
    FlatOfChildless(true, items[..c]);
    assert es[o + (c - 1)] == items[c - 1].cell;
    CutAfter(es, o + c, o + c - 1);
    RunSepSnoc(es, o, m, s);
  }

  lemma CutAfter(es: seq<Cell>, p: nat, q: nat)
    requires Ascending(es) && q + 1 == p <= |es|
    ensures Cuts(es, p, es[q].key)
  {}

  lemma {:induction false} GatherChildless(leafData: bool, mid: seq<Slot>)
    requires AllLeaves(true, mid)
    ensures Childless(Gather(leafData, mid))
  {
    if mid != [] {
      GatherChildless(leafData, mid[..|mid| - 1]);
    }
  }

  // ----- Replacing children of a page -----

  /** Page p with its children a to m replaced: by those of mid, and by last. */
  function Assemble(p: Node, a: nat, m: nat, mid: seq<Slot>, last: Node): Node
    requires p.Interior? && a <= m <= |p.slots|
  {
    if m == |p.slots| then Interior(p.slots[..a] + mid, last)
    else Interior(p.slots[..a] + mid + [Slot(last, p.slots[m].cell)] + p.slots[m + 1..], p.right)
  }

  function SetChild(p: Node, n: nat, t: Node): Node
    requires p.Interior? && n <= |p.slots|
  {
    Assemble(p, n, n, [], t)
  }

  // The entries that follow child m, and the space and the separators there.
  function Rest(intKey: bool, p: Node, m: nat): seq<Cell>
    requires p.Interior? && m <= |p.slots|
  {
    if m == |p.slots| then []
    else (if intKey then [] else [p.slots[m].cell]) + Flat(intKey, !intKey, p.slots[m + 1..]) + Entries(intKey, p.right)
  }

  ghost predicate RestSep(es: seq<Cell>, o: nat, p: Node, m: nat)
    requires p.Interior? && m <= |p.slots|
  {
    m < |p.slots| ==>
      && Cuts(es, o, p.slots[m].cell.key) && RunSep(es, o, p.slots[m + 1..])
      && SepAll(es, o + |Flat(true, false, p.slots[m + 1..])|, p.right)
  }

  lemma AssembleSelf(p: Node, a: nat, m: nat)
    requires p.Interior? && a <= m <= |p.slots|
    ensures Assemble(p, a, m, p.slots[a..m], p.Child(m)) == p
  {
    var mid := p.slots[a..m];
    assert p.slots[..a] + mid == p.slots[..m];
    if m < |p.slots| {
      assert p.slots[..m] + [p.slots[m]] + p.slots[m + 1..] == p.slots;
    } else {
      assert p.slots[..m] == p.slots;
    }
  }

  lemma InteriorFlat(intKey: bool, run: seq<Slot>, right: Node)
    ensures Entries(intKey, Interior(run, right)) == Flat(intKey, !intKey, run) + Entries(intKey, right)
  {
    EntriesAreFlat(intKey, Interior(run, right));
  }

  lemma AssembleEntries(intKey: bool, p: Node, a: nat, m: nat, mid: seq<Slot>, last: Node)
    requires p.Interior? && a <= m <= |p.slots|
    ensures Entries(intKey, Assemble(p, a, m, mid, last))
      == Flat(intKey, !intKey, p.slots[..a]) + (Flat(intKey, !intKey, mid) + Entries(intKey, last)) + Rest(intKey, p, m)
  {
    hide Flat, Entries;
    var wc, pre := !intKey, p.slots[..a];
    FlatConcat(intKey, wc, pre, mid);
    if m == |p.slots| {
      InteriorFlat(intKey, pre + mid, last);
      AppendEmpty(Flat(intKey, wc, pre), Flat(intKey, wc, mid), Entries(intKey, last));
    } else {
      var s, post := Slot(last, p.slots[m].cell), p.slots[m + 1..];
      InteriorFlat(intKey, pre + mid + [s] + post, p.right);
      FlatConcat(intKey, wc, pre + mid + [s], post);
      FlatSnoc(intKey, wc, pre + mid, s);
      Chain7(Flat(intKey, wc, pre), Flat(intKey, wc, mid), Entries(intKey, last), if intKey then [] else [s.cell],
             Flat(intKey, wc, post), Entries(intKey, p.right));
    }
  }

  lemma AppendEmpty<T>(a: seq<T>, b: seq<T>, c: seq<T>)
    ensures a + b + c == a + (b + c) + []
  {}

  lemma Chain7<T>(a: seq<T>, b: seq<T>, c: seq<T>, d: seq<T>, e: seq<T>, f: seq<T>)
    ensures a + b + c + d + e + f == a + (b + c) + (d + e + f)
  {}

  lemma AssembleSep(es: seq<Cell>, o: nat, p: Node, a: nat, m: nat, mid: seq<Slot>, last: Node)
    requires p.Interior? && a <= m <= |p.slots|
    ensures SepAll(es, o, Assemble(p, a, m, mid, last)) <==>
      var o1 := o + |Flat(true, false, p.slots[..a])|;
      var o2 := o1 + |Flat(true, false, mid)|;
      && RunSep(es, o, p.slots[..a]) && RunSep(es, o1, mid) && SepAll(es, o2, last)
      && RestSep(es, o2 + |Entries(true, last)|, p, m)
  {
    hide Flat, Entries, RunSep, SepAll, Cuts;
    var pre := p.slots[..a];
    FlatConcat(true, false, pre, mid);
    RunSepConcat(es, o, pre, mid);
    if m == |p.slots| {
      SepOfInterior(es, o, pre + mid, last);
    } else {
      var s, post := Slot(last, p.slots[m].cell), p.slots[m + 1..];
      SepOfInterior(es, o, pre + mid + [s] + post, p.right);
      RunSepConcat(es, o, pre + mid + [s], post);
      RunSepSnoc(es, o, pre + mid, s);
      FlatSnoc(true, false, pre + mid, s);
      FlatConcat(true, false, pre + mid + [s], post);
      assert |Flat(true, false, pre + mid + [s])| == |Flat(true, false, pre + mid)| + |Entries(true, last)|;
    }
  }

  // Only the dividers that replace others change what a page holds.
  lemma AssembleContent(fmt: Format, p: Node, a: nat, m: nat, mid: seq<Slot>, last: Node)
    requires p.Interior? && a <= m <= |p.slots|
    ensures Content(fmt, Assemble(p, a, m, mid, last)) + Bytes(fmt, false, p.slots[a..m])
      == Content(fmt, p) + Bytes(fmt, false, mid)
  {
    hide Bytes;
    var pre, old' := p.slots[..a], p.slots[a..m];
    BytesConcat(fmt, false, pre, mid);
    BytesConcat(fmt, false, pre, old');
    if m == |p.slots| {
      assert p.slots == pre + old';
    } else {
      var s, s', post := p.slots[m], Slot(last, p.slots[m].cell), p.slots[m + 1..];
      assert p.slots == pre + old' + [s] + post;
      BytesConcat(fmt, false, pre + old', [s]);
      BytesConcat(fmt, false, pre + old' + [s], post);
      BytesConcat(fmt, false, pre + mid, [s']);
      BytesConcat(fmt, false, pre + mid + [s'], post);
      SameBytes(fmt, false, [s], [s']);
    }
  }

  // Where the children of an assembled page come from.
  lemma AssembleChild(p: Node, a: nat, m: nat, mid: seq<Slot>, last: Node, i: nat)
    requires p.Interior? && a <= m <= |p.slots|
    ensures var p' := Assemble(p, a, m, mid, last);
      && p'.Interior? && |p'.slots| == |p.slots| - (m - a) + |mid|
      && (i <= |p'.slots| ==>
            p'.Child(i) == (if i < a then p.Child(i) else if i < a + |mid| then mid[i - a].child
                            else if i == a + |mid| then last else p.Child(i - |mid| + (m - a))))
  {
    var p' := Assemble(p, a, m, mid, last);
    if m < |p.slots| && a + |mid| < i < |p'.slots| {
      assert p'.slots[i] == p.slots[m + 1..][i - (a + |mid| + 1)];
    }
  }

  // ----- Finished subtrees -----

  ghost predicate ChildrenSound(fmt: Format, t: Node, h: nat)
    decreases h, 0
  {
    && (t.Leaf? <==> h == 0)
    && (t.Interior? ==> forall i :: 0 <= i <= |t.slots| ==> t.Child(i).NCell() > 0 && Sound(fmt, t.Child(i), h - 1))
  }

  /** All leaves are h levels below t, every page fits, and pages below t have at least one cell. */
  ghost predicate Sound(fmt: Format, t: Node, h: nat)
    decreases h, 1
  {
    Content(fmt, t) <= fmt.Capacity(t.Leaf?) && ChildrenSound(fmt, t, h)
  }

  lemma {:induction false} SoundIsWf(fmt: Format, t: Node, h: nat)
    requires ChildrenSound(fmt, t, h)
    ensures Wf(t, h)
    decreases h
  {
    if t.Interior? {
      forall i | 0 <= i <= |t.slots|
        ensures t.Child(i).NCell() > 0 && Wf(t.Child(i), h - 1)
      {
        SoundIsWf(fmt, t.Child(i), h - 1);
      }
    }
  }

  // ----- Separators seen from each page -----

  ghost predicate StandsAt(es: seq<Cell>, o: nat, part: seq<Cell>) {
    o + |part| <= |es| && es[o..o + |part|] == part
  }

  lemma MiddleStandsAt(es: seq<Cell>, o: nat, b: seq<Cell>, e: seq<Cell>, a: seq<Cell>)
    requires StandsAt(es, o, b + e + a)
    ensures StandsAt(es, o + |b|, e)
  {
    var whole := b + e + a;
    forall i | 0 <= i < |e|
      ensures es[o + |b| + i] == e[i]
    {
      assert es[o..o + |whole|][|b| + i] == whole[|b| + i];
    }
  }

  lemma FlatOfNext(t: Node, n: nat)
    requires t.Interior? && n < |t.slots|
    ensures |Flat(true, false, t.slots[..n + 1])| == |Flat(true, false, t.slots[..n])| + |Entries(true, t.Child(n))|
  {
    assert t.slots[..n + 1] == t.slots[..n] + [t.slots[n]];
    FlatSnoc(true, false, t.slots[..n], t.slots[n]);
  }

  // Where the entries of a child stand, given those of its page.
  lemma ChildStandsAt(es: seq<Cell>, o: nat, t: Node, n: nat)
    requires t.Interior? && n <= |t.slots| && StandsAt(es, o, Entries(true, t))
    ensures StandsAt(es, o + |Flat(true, false, t.slots[..n])|, Entries(true, t.Child(n)))
  {
    hide Entries, Before, After, Flat, StandsAt;
    SplitAt(true, t, n);
    BeforeIsFlat(true, t, n);
    MiddleStandsAt(es, o, Before(true, t, n), Entries(true, t.Child(n)), After(true, t, n));
  }

  lemma CutBetween(es: seq<Cell>, o: nat, l: seq<Cell>, r: seq<Cell>, k: Key)
    requires Ascending(es) && StandsAt(es, o, l) && StandsAt(es, o + |l|, r) && l != [] && r != []
    requires AllAtMost(l, k) && AllAbove(r, k)
    ensures Cuts(es, o + |l|, k)
  {
    assert es[o..o + |l|][|l| - 1] == es[o + |l| - 1] && es[o + |l|..o + |l| + |r|][0] == es[o + |l|];
  }

  lemma CutApart(es: seq<Cell>, o: nat, l: seq<Cell>, r: seq<Cell>, k: Key)
    requires StandsAt(es, o, l) && StandsAt(es, o + |l|, r) && Cuts(es, o + |l|, k)
    ensures AllAtMost(l, k) && AllAbove(r, k)
  {
    forall i | 0 <= i < |l|
      ensures l[i].key <= k
    {
      assert es[o..o + |l|][i] == es[o + i];
    }
    forall i | 0 <= i < |r|
      ensures r[i].key > k
    {
      assert es[o + |l|..o + |l| + |r|][i] == es[o + |l| + i];
    }
  }

  lemma ChildFacts(t: Node, h: nat, n: nat)
    requires t.Interior? && n <= |t.slots| && Wf(t, h) && Separated(t)
    ensures h > 0 && Wf(t.Child(n), h - 1) && Separated(t.Child(n)) && Entries(true, t.Child(n)) != []
    ensures n < |t.slots| ==> AllAtMost(Entries(true, t.Child(n)), t.slots[n].cell.key)
    ensures n < |t.slots| ==> AllAbove(Entries(true, t.Child(n + 1)), t.slots[n].cell.key)
  {
    assert t.Child(n).NCell() > 0 && Wf(t.Child(n), h - 1);
    EntriesNonempty(true, t.Child(n), h - 1);
  }

  /** The separators of a search tree without empty pages separate all its entries. */
  lemma {:induction false} SeparatedToSep(es: seq<Cell>, o: nat, t: Node, h: nat)
    requires Wf(t, h) && Separated(t) && Ascending(es) && StandsAt(es, o, Entries(true, t))
    ensures SepAll(es, o, t)
    decreases h, 1, 0
  {
    hide Flat, Wf, Entries, Separated, Cuts, StandsAt, Ascending;
    if t.Interior? {
      SeparatedToFirstSep(es, o, t, h, |t.slots|);
      ChildFacts(t, h, |t.slots|);
      ChildStandsAt(es, o, t, |t.slots|);
      assert t.slots[..|t.slots|] == t.slots;
      SeparatedToSep(es, o + |Flat(true, false, t.slots)|, t.right, h - 1);
    }
  }

  lemma {:induction false} SeparatedToFirstSep(es: seq<Cell>, o: nat, t: Node, h: nat, n: nat)
    requires t.Interior? && n <= |t.slots|
    requires Wf(t, h) && Separated(t) && Ascending(es) && StandsAt(es, o, Entries(true, t))
    ensures FirstSep(es, o, t, n)
    decreases h, 0, n
  {
    hide Flat, Wf, Entries, Separated, Cuts, StandsAt, Ascending;
    if n > 0 {
      SeparatedToFirstSep(es, o, t, h, n - 1);
      SlotCut(es, o, t, h, n - 1);
      ChildFacts(t, h, n - 1);
      ChildStandsAt(es, o, t, n - 1);
      SeparatedToSep(es, o + |Flat(true, false, t.slots[..n - 1])|, t.slots[n - 1].child, h - 1);
    }
  }

  lemma SlotCut(es: seq<Cell>, o: nat, t: Node, h: nat, n: nat)
    requires t.Interior? && n < |t.slots|
    requires Wf(t, h) && Separated(t) && Ascending(es) && StandsAt(es, o, Entries(true, t))
    ensures Cuts(es, o + |Flat(true, false, t.slots[..n + 1])|, t.slots[n].cell.key)
  {
    hide Flat, Wf, Entries, Separated, Cuts, StandsAt, Ascending, AllAtMost, AllAbove;
    ChildFacts(t, h, n);
    ChildFacts(t, h, n + 1);
    ChildStandsAt(es, o, t, n);
    ChildStandsAt(es, o, t, n + 1);
    FlatOfNext(t, n);
    var o1, l := o + |Flat(true, false, t.slots[..n])|, Entries(true, t.Child(n));
    assert o + |Flat(true, false, t.slots[..n + 1])| == o1 + |l|;
    CutBetween(es, o1, l, Entries(true, t.Child(n + 1)), t.slots[n].cell.key);
  }

  lemma {:induction false} SepToSeparated(es: seq<Cell>, o: nat, t: Node)
    requires SepAll(es, o, t) && StandsAt(es, o, Entries(true, t))
    ensures Separated(t)
    decreases t, 1, 0
  {
    if t.Interior? {
      assert t.slots[..|t.slots|] == t.slots;
      ChildStandsAt(es, o, t, |t.slots|);
      SepToSeparated(es, o + |Flat(true, false, t.slots)|, t.right);
      FirstSepToSeparated(es, o, t, |t.slots|);
    }
  }

  lemma {:induction false} FirstSepToSeparated(es: seq<Cell>, o: nat, t: Node, n: nat)
    requires t.Interior? && n <= |t.slots| && FirstSep(es, o, t, n) && StandsAt(es, o, Entries(true, t))
    ensures forall i :: 0 <= i < n ==> Separated(t.slots[i].child)
    ensures forall i :: 0 <= i < n ==>
      AllAtMost(Entries(true, t.Child(i)), t.slots[i].cell.key)
        && AllAbove(Entries(true, t.Child(i + 1)), t.slots[i].cell.key)
    decreases t, 0, n
  {
    if n > 0 {
      FirstSepToSeparated(es, o, t, n - 1);
      ChildStandsAt(es, o, t, n - 1);
      ChildStandsAt(es, o, t, n);
      FlatOfNext(t, n - 1);
      var o1, l, r := o + |Flat(true, false, t.slots[..n - 1])|, t.Child(n - 1), t.Child(n);
      SepToSeparated(es, o1, l);
      CutApart(es, o1, Entries(true, l), Entries(true, r), t.slots[n - 1].cell.key);
    }
  }

  // ----- Layouts for siblings -----

  function Joined(a: Sizes, b: Sizes, leafData: bool, d: nat): Sizes { if leafData then a + b else a + [d] + b }

  function JoinedLayout(a: Sizes, leafData: bool, cntA: seq<nat>, cntB: seq<nat>): (cnt: seq<nat>)
    ensures |cnt| == |cntA| + |cntB|
  {
    var off := if leafData then |a| else |a| + 1;
    cntA + seq(|cntB|, j requires 0 <= j < |cntB| => off + cntB[j])
  }

  // Two runs one after the other, each with a layout that fits.
  lemma JoinLayouts(a: Sizes, b: Sizes, leafData: bool, d: nat, usable: nat, cntA: seq<nat>, cntB: seq<nat>)
    requires Fits(a, leafData, usable, cntA) && Fits(b, leafData, usable, cntB)
    ensures Fits(Joined(a, b, leafData, d), leafData, usable, JoinedLayout(a, leafData, cntA, cntB))
  {
    var sz, cnt := Joined(a, b, leafData, d), JoinedLayout(a, leafData, cntA, cntB);
    LastOfLayout(b, leafData, usable, cntB);
    forall j {:trigger First(leafData, cnt, j)} | 0 <= j < |cnt|
      ensures First(leafData, cnt, j) <= cnt[j] <= |sz|
      ensures Sum(sz, First(leafData, cnt, j), cnt[j]) <= usable
    {
      JoinedPage(a, b, leafData, d, usable, cntA, cntB, j);
    }
  }

  lemma JoinedPage(a: Sizes, b: Sizes, leafData: bool, d: nat, usable: nat, cntA: seq<nat>, cntB: seq<nat>, j: nat)
    requires Fits(a, leafData, usable, cntA) && Fits(b, leafData, usable, cntB) && j < |cntA| + |cntB|
    ensures var sz, cnt := Joined(a, b, leafData, d), JoinedLayout(a, leafData, cntA, cntB);
      && First(leafData, cnt, j) <= cnt[j] <= |sz|
      && Sum(sz, First(leafData, cnt, j), cnt[j]) <= usable
  {
    hide Sum, Fits;
    var off := if leafData then |a| else |a| + 1;
    var sz, cnt := Joined(a, b, leafData, d), JoinedLayout(a, leafData, cntA, cntB);
    if j < |cntA| {
      PageOfPart(sz, a, leafData, usable, cntA, 0, j);
    } else {
      var i := j - |cntA|;
      LastOfLayout(a, leafData, usable, cntA);
      PageOfPart(sz, b, leafData, usable, cntB, off, i);
      assert First(leafData, cnt, j) == off + First(leafData, cntB, i);
    }
  }

  lemma LastOfLayout(sz: Sizes, leafData: bool, usable: nat, cnt: seq<nat>)
    requires Fits(sz, leafData, usable, cnt)
    ensures |cnt| >= 1 && cnt[|cnt| - 1] == |sz|
  {}

  // A page of a part is a page of the whole.
  lemma PageOfPart(sz: Sizes, part: Sizes, leafData: bool, usable: nat, cnt: seq<nat>, off: nat, j: nat)
    requires off + |part| <= |sz| && forall k :: 0 <= k < |part| ==> sz[off + k] == part[k]
    requires Fits(part, leafData, usable, cnt) && j < |cnt|
    ensures off + First(leafData, cnt, j) <= off + cnt[j] <= |sz|
    ensures Sum(sz, off + First(leafData, cnt, j), off + cnt[j]) <= usable
  {
    assert First(leafData, cnt, j) <= cnt[j] <= |part|;
    SumOfPart(sz, part, off, First(leafData, cnt, j), cnt[j]);
  }

  lemma {:induction false} SumOfPart(sz: Sizes, part: Sizes, off: nat, i: nat, j: nat)
    requires off + |part| <= |sz| && i <= j <= |part|
    requires forall k :: 0 <= k < |part| ==> sz[off + k] == part[k]
    ensures Sum(sz, off + i, off + j) == Sum(part, i, j)
    decreases j
  {
    if i < j {
      SumOfPart(sz, part, off, i, j - 1);
    }
  }

  /** Cells that fit on n pages in some way. */
  ghost predicate Splittable(sz: Sizes, leafData: bool, usable: nat, n: nat) {
    exists cnt :: |cnt| <= n && Fits(sz, leafData, usable, cnt)
  }

  lemma OnePage(sz: Sizes, leafData: bool, usable: nat)
    requires Sum(sz, 0, |sz|) <= usable
    ensures Splittable(sz, leafData, usable, 1)
  {
    assert Fits(sz, leafData, usable, [|sz|]);
  }

  // The first cell after i that does not fit on a page that begins with cell i.
  lemma {:induction false} FullPage(sz: Sizes, usable: nat, i: nat, j: nat) returns (c: nat)
    requires i <= j <= |sz| && Sum(sz, i, j) <= usable
    ensures j <= c <= |sz| && Sum(sz, i, c) <= usable
    ensures c < |sz| ==> Sum(sz, i, c + 1) > usable
    decreases |sz| - j
  {
    if j == |sz| || Sum(sz, i, j + 1) > usable {
      c := j;
    } else {
      c := FullPage(sz, usable, i, j + 1);
    }
  }

  lemma {:induction false} SumSplit(sz: Sizes, a: nat, b: nat, c: nat)
    requires a <= b <= c <= |sz|
    ensures Sum(sz, a, c) == Sum(sz, a, b) + Sum(sz, b, c)
    decreases c
  {
    if b < c {
      SumSplit(sz, a, b, c - 1);
    }
  }

  // A page with its divider fills a page and more, so that three pages are enough for three times the space.
  lemma ThreePages(sz: Sizes, usable: nat)
    requires Sum(sz, 0, |sz|) <= 3 * usable
    ensures Splittable(sz, false, usable, 3)
  {
    var n := |sz|;
    var c := FullPage(sz, usable, 0, 0);
    if c == n {
      OnePage(sz, false, usable);
    } else {
      SumSplit(sz, 0, c + 1, n);
      var d := FullPage(sz, usable, c + 1, c + 1);
      if d == n {
        CutOnce(sz, usable, c);
      } else {
        SumSplit(sz, c + 1, d + 1, n);
        CutTwice(sz, usable, c, d);
      }
    }
  }

  lemma CutOnce(sz: Sizes, usable: nat, c: nat)
    requires c < |sz| && Sum(sz, 0, c) <= usable && Sum(sz, c + 1, |sz|) <= usable
    ensures Splittable(sz, false, usable, 3)
  {
    hide Sum;
    var cnt := [c, |sz|];
    assert First(false, cnt, 0) == 0 && First(false, cnt, 1) == c + 1;
    assert Fits(sz, false, usable, cnt);
  }

  lemma CutTwice(sz: Sizes, usable: nat, c: nat, d: nat)
    requires c < d < |sz|
    requires Sum(sz, 0, c) <= usable && Sum(sz, c + 1, d) <= usable && Sum(sz, d + 1, |sz|) <= usable
    ensures Splittable(sz, false, usable, 3)
  {
    hide Sum;
    var cnt := [c, d, |sz|];
    assert First(false, cnt, 0) == 0 && First(false, cnt, 1) == c + 1 && First(false, cnt, 2) == d + 1;
    assert Fits(sz, false, usable, cnt);
  }

  // Leaves of a rowid tree: the cell that is too much gets a page of its own.
  lemma OneOver(sz: Sizes, usable: nat, x: nat)
    requires x < |sz| && sz[x] + 2 <= usable && Sum(sz, 0, x) + Sum(sz, x + 1, |sz|) <= usable
    ensures Splittable(sz, true, usable, 3)
  {
    assert Sum(sz, x, x) == 0 && Sum(sz, x, x + 1) == sz[x] + 2;
    ThreeLeaves(sz, usable, x);
  }

  lemma ThreeLeaves(sz: Sizes, usable: nat, x: nat)
    requires x < |sz| && Sum(sz, x, x + 1) <= usable && Sum(sz, 0, x) <= usable && Sum(sz, x + 1, |sz|) <= usable
    ensures Splittable(sz, true, usable, 3)
  {
    hide Sum;
    var cnt := [x, x + 1, |sz|];
    assert First(true, cnt, 0) == 0 && First(true, cnt, 1) == x && First(true, cnt, 2) == x + 1;
    assert Fits(sz, true, usable, cnt);
  }

  function Gathered(leafData: bool, mid: seq<Slot>, last: Node): seq<Slot> { Gather(leafData, mid) + Items(last) }

  /** The cells of page t fit on n pages of its kind. */
  ghost predicate Splits(fmt: Format, t: Node, n: nat)
    requires fmt.Valid()
  {
    Splittable(SizesOfItems(fmt, t.Leaf?, Items(t)), fmt.LeafData(t.Leaf?), fmt.Capacity(t.Leaf?), n)
  }

  lemma FittingPage(fmt: Format, t: Node)
    requires fmt.Valid() && Content(fmt, t) <= fmt.Capacity(t.Leaf?)
    ensures Splits(fmt, t, 1)
  {
    var items := Items(t);
    SumIsBytes(fmt, t.Leaf?, items, 0, |items|);
    assert items[0..|items|] == items;
    OnePage(SizesOfItems(fmt, t.Leaf?, items), fmt.LeafData(t.Leaf?), fmt.Capacity(t.Leaf?));
  }

  lemma CrowdedPage(fmt: Format, t: Node)
    requires fmt.Valid() && !fmt.LeafData(t.Leaf?) && Content(fmt, t) <= 3 * fmt.Capacity(t.Leaf?)
    ensures Splits(fmt, t, 3)
  {
    var items := Items(t);
    SumIsBytes(fmt, t.Leaf?, items, 0, |items|);
    assert items[0..|items|] == items;
    ThreePages(SizesOfItems(fmt, t.Leaf?, items), fmt.Capacity(t.Leaf?));
  }

  // A page of the siblings.
  function Sibling(mid: seq<Slot>, last: Node, i: nat): Node
    requires i <= |mid|
  {
    if i < |mid| then mid[i].child else last
  }

  lemma GatheredSnoc(fmt: Format, leaf: bool, mid: seq<Slot>, last: Node)
    requires mid != []
    ensures var n := |mid| - 1;
      var s, leafData := mid[n], fmt.LeafData(leaf);
      SizesOfItems(fmt, leaf, Gathered(leafData, mid, last))
        == Joined(SizesOfItems(fmt, leaf, Gathered(leafData, mid[..n], s.child)),
                  SizesOfItems(fmt, leaf, Items(last)), leafData, fmt.Size(leaf, s.cell))
  {
    var n := |mid| - 1;
    var s, leafData := mid[n], fmt.LeafData(leaf);
    GatherSnoc(leafData, mid[..n], s);
    assert mid == mid[..n] + [s];
    hide Gather, Items;
    var g := Gathered(leafData, mid[..n], s.child);
    assert Gathered(leafData, mid, last) == g + (if leafData then [] else [Slot(Link(s.child), s.cell)]) + Items(last);
  }

  /** One sibling may need three pages; as the others fit, two more than before are enough for all. */
  lemma {:induction false} EnoughPages(fmt: Format, leaf: bool, mid: seq<Slot>, last: Node, x: nat, extra: nat)
    requires fmt.Valid() && AllLeaves(leaf, mid) && last.Leaf? == leaf
    requires forall i :: 0 <= i <= |mid| ==> Splits(fmt, Sibling(mid, last, i), if i == x then 1 + extra else 1)
    ensures Splittable(SizesOfItems(fmt, leaf, Gathered(fmt.LeafData(leaf), mid, last)), fmt.LeafData(leaf),
                       fmt.Capacity(leaf), |mid| + 1 + if x <= |mid| then extra else 0)
    decreases |mid|
  {
    var leafData, n := fmt.LeafData(leaf), |mid| - 1;
    assert Splits(fmt, Sibling(mid, last, |mid|), if |mid| == x then 1 + extra else 1);
    if mid == [] {
      assert Gathered(leafData, mid, last) == Items(last);
    } else {
      forall i | 0 <= i <= n
        ensures Splits(fmt, Sibling(mid[..n], mid[n].child, i), if i == x then 1 + extra else 1)
      {
        assert Sibling(mid[..n], mid[n].child, i) == Sibling(mid, last, i);
      }
      EnoughPages(fmt, leaf, mid[..n], mid[n].child, x, extra);
      var a := SizesOfItems(fmt, leaf, Gathered(leafData, mid[..n], mid[n].child));
      var b := SizesOfItems(fmt, leaf, Items(last));
      GatheredSnoc(fmt, leaf, mid, last);
      JoinSplittable(a, b, leafData, fmt.Size(leaf, mid[n].cell), fmt.Capacity(leaf),
                     n + 1 + if x <= n then extra else 0, 1 + if x == |mid| then extra else 0);
    }
  }

  lemma JoinSplittable(a: Sizes, b: Sizes, leafData: bool, d: nat, usable: nat, n: nat, m: nat)
    requires Splittable(a, leafData, usable, n) && Splittable(b, leafData, usable, m)
    ensures Splittable(Joined(a, b, leafData, d), leafData, usable, n + m)
  {
    var cntA :| |cntA| <= n && Fits(a, leafData, usable, cntA);
    var cntB :| |cntB| <= m && Fits(b, leafData, usable, cntB);
    JoinLayouts(a, b, leafData, d, usable, cntA, cntB);
  }

  lemma SizesAdmissible(fmt: Format, leaf: bool, items: seq<Slot>)
    requires fmt.Valid()
    ensures Admissible(SizesOfItems(fmt, leaf, items), fmt.LeafData(leaf), fmt.Capacity(leaf))
  {
    forall i | 0 <= i < |items|
      ensures var z := fmt.Size(leaf, items[i].cell) + 2;
        (if fmt.LeafData(leaf) then z else 3 * z) <= fmt.Capacity(leaf)
    {
      SizeBound(fmt, leaf, items[i].cell);
    }
  }

  lemma SizeBound(fmt: Format, leaf: bool, c: Cell)
    requires fmt.Valid()
    ensures (if fmt.LeafData(leaf) then fmt.Size(leaf, c) + 2 else 3 * (fmt.Size(leaf, c) + 2)) <= fmt.Capacity(leaf)
  {
    assert fmt.keySize(c.key) <= 9 && fmt.cellSize(c) >= 0;
  }

  lemma {:induction false} DividerBytes(fmt: Format, mid: seq<Slot>, room: int)
    requires fmt.Valid() && room == fmt.Capacity(false)
    ensures 3 * Bytes(fmt, false, mid) <= |mid| * room
  {
    if mid != [] {
      var n := |mid| - 1;
      DividerBytes(fmt, mid[..n], room);
      SizeBound(fmt, false, mid[n].cell);
      hide *;
      assert |mid| * room == n * room + room;
    }
  }

  // ----- Pages made from a run -----

  /** The children of a run, and what follows it, are finished. */
  ghost predicate RunSound(fmt: Format, leaf: bool, items: seq<Slot>, h: nat) {
    && (leaf <==> h == 0) && (leaf ==> Childless(items))
    && (!leaf ==> forall i :: 0 <= i < |items| ==> items[i].child.NCell() > 0 && Sound(fmt, items[i].child, h - 1))
  }

  ghost predicate LinkSound(fmt: Format, leaf: bool, link: Node, h: nat) {
    && (leaf <==> h == 0)
    && (!leaf ==> link.NCell() > 0 && Sound(fmt, link, h - 1))
  }

  lemma PageRun(fmt: Format, t: Node, h: nat)
    requires ChildrenSound(fmt, t, h)
    ensures RunSound(fmt, t.Leaf?, Items(t), h) && LinkSound(fmt, t.Leaf?, Link(t), h)
  {
    if t.Interior? {
      forall i | 0 <= i < |t.slots|
        ensures t.slots[i].child.NCell() > 0 && Sound(fmt, t.slots[i].child, h - 1)
      {
        assert t.Child(i) == t.slots[i].child;
      }
      assert t.Child(|t.slots|) == t.right;
    }
  }

  lemma RunPage(fmt: Format, leaf: bool, items: seq<Slot>, link: Node, h: nat)
    requires RunSound(fmt, leaf, items, h) && LinkSound(fmt, leaf, link, h)
    ensures ChildrenSound(fmt, MakePage(leaf, items, link), h)
  {}

  lemma {:induction false} GatherSound(fmt: Format, leaf: bool, mid: seq<Slot>, h: nat)
    requires AllLeaves(leaf, mid) && (leaf <==> h == 0)
    requires forall i :: 0 <= i < |mid| ==> ChildrenSound(fmt, mid[i].child, h)
    ensures RunSound(fmt, leaf, Gather(fmt.LeafData(leaf), mid), h)
  {
    if mid != [] {
      var n := |mid| - 1;
      GatherSound(fmt, leaf, mid[..n], h);
      assert ChildrenSound(fmt, mid[n].child, h) && mid[n].child.Leaf? == leaf;
      PageRun(fmt, mid[n].child, h);
      hide Sound, ChildrenSound;
    }
  }

  // Every page of the new layout is finished.
  lemma PartSound(fmt: Format, leaf: bool, items: seq<Slot>, link: Node, h: nat, a: nat, c: nat, more: bool)
    requires RunSound(fmt, leaf, items, h) && LinkSound(fmt, leaf, link, h)
    requires a <= c <= |items| && (more ==> c < |items|)
    ensures RunSound(fmt, leaf, items[a..c], h) && LinkSound(fmt, leaf, if more then items[c].child else link, h)
  {
    hide Sound;
    if leaf {
      ChildlessPart(items, a, c);
    }
  }

  lemma NewPageSound(fmt: Format, leaf: bool, items: seq<Slot>, link: Node, h: nat, cnt: seq<nat>, j: nat)
    requires fmt.Valid() && RunSound(fmt, leaf, items, h) && LinkSound(fmt, leaf, link, h)
    requires Legal(SizesOfItems(fmt, leaf, items), fmt.LeafData(leaf), fmt.Capacity(leaf), cnt) && j < |cnt|
    ensures Spreadable(|items|, fmt.LeafData(leaf), cnt)
    ensures Sound(fmt, PageOf(leaf, fmt.LeafData(leaf), items, link, cnt, j), h)
    ensures |cnt| > 1 ==> PageOf(leaf, fmt.LeafData(leaf), items, link, cnt, j).NCell() > 0
  {
    var leafData := fmt.LeafData(leaf);
    var a, c := First(leafData, cnt, j), cnt[j];
    assert a <= c && Sum(SizesOfItems(fmt, leaf, items), a, c) <= fmt.Capacity(leaf);
    assert j + 1 < |cnt| ==> First(leafData, cnt, j + 1) <= cnt[j + 1];
    var link' := if j + 1 < |cnt| && !leafData then items[c].child else link;
    SumIsBytes(fmt, leaf, items, a, c);
    ItemsOfPage(leaf, items[a..c], link');
    PartSound(fmt, leaf, items, link, h, a, c, j + 1 < |cnt| && !leafData);
    hide Sum, Bytes, Sound, ChildrenSound, RunSound, LinkSound;
    RunPage(fmt, leaf, items[a..c], link', h);
  }

  // ----- Redistribution as a whole -----

  // The last page of a layout has the rest of the run.
  lemma LastPageOf(leaf: bool, leafData: bool, items: seq<Slot>, link: Node, cnt: seq<nat>)
    requires Spreadable(|items|, leafData, cnt)
    ensures |cnt| >= 1 && First(leafData, cnt, |cnt| - 1) <= |items|
    ensures PageOf(leaf, leafData, items, link, cnt, |cnt| - 1)
      == MakePage(leaf, items[First(leafData, cnt, |cnt| - 1)..], link)
    ensures items == items[..First(leafData, cnt, |cnt| - 1)] + items[First(leafData, cnt, |cnt| - 1)..]
  {
    var f := First(leafData, cnt, |cnt| - 1);
    assert f <= cnt[|cnt| - 1] == |items|;
    assert items[f..|items|] == items[f..];
  }

  lemma Redistributed(intKey: bool, leaf: bool, mid: seq<Slot>, last: Node, cnt: seq<nat>)
    requires AllLeaves(leaf, mid) && last.Leaf? == leaf
    requires Spreadable(|Gathered(leaf && intKey, mid, last)|, leaf && intKey, cnt)
    ensures var leafData, items := leaf && intKey, Gathered(leaf && intKey, mid, last);
      && |cnt| >= 1
      && Flat(intKey, !intKey, Spread(leaf, leafData, items, Link(last), cnt, |cnt| - 1))
         + Entries(intKey, PageOf(leaf, leafData, items, Link(last), cnt, |cnt| - 1))
         == Flat(intKey, !intKey, mid) + Entries(intKey, last)
  {
    hide Flat, Entries, Gather, Spread, Items, PageOf, Spreadable, First, Childless;
    var leafData, wc, items := leaf && intKey, leaf || !intKey, Gathered(leaf && intKey, mid, last);
    LastPageOf(leaf, leafData, items, Link(last), cnt);
    var n := |cnt| - 1;
    var f := First(leafData, cnt, n);
    if leaf {
      GatheredChildless(leafData, mid, last);
      ChildlessPart(items, f, |items|);
      assert items[f..|items|] == items[f..];
    }
    GatherFlat(intKey, leaf, mid);
    EntriesAreFlat(intKey, last);
    SpreadFlat(intKey, leaf, items, Link(last), cnt, n);
    EntriesOfPage(intKey, leaf, items[f..], Link(last));
    FlatConcat(intKey, wc, Gather(leafData, mid), Items(last));
    FlatConcat(intKey, wc, items[..f], items[f..]);
    NoEntries(intKey);
    RedistributedStep(Flat(intKey, wc, Gather(leafData, mid)), Flat(intKey, wc, Items(last)),
                      if leaf then [] else Entries(intKey, Link(last)),
                      Flat(intKey, wc, items[..f]), Flat(intKey, wc, items[f..]));
  }

  lemma GatheredChildless(leafData: bool, mid: seq<Slot>, last: Node)
    requires AllLeaves(true, mid) && last.Leaf?
    ensures Childless(Gathered(leafData, mid, last))
  {
    GatherChildless(leafData, mid);
  }

  lemma RedistributedStep<T>(g: seq<T>, l: seq<T>, e: seq<T>, a: seq<T>, b: seq<T>)
    requires g + l == a + b
    ensures a + (b + e) == g + (l + e)
  {
    assert a + (b + e) == (a + b) + e;
    assert g + (l + e) == (g + l) + e;
  }

  lemma RedistributedLeaves(es: seq<Cell>, o: nat, mid: seq<Slot>, last: Node, cnt: seq<nat>)
    requires AllLeaves(true, mid) && last.Leaf? && Spreadable(|Gathered(true, mid, last)|, true, cnt)
    requires Ascending(es) && StandsAt(es, o, Flat(true, false, mid) + Entries(true, last))
    ensures |cnt| >= 1 && RunSep(es, o, Spread(true, true, Gathered(true, mid, last), Link(last), cnt, |cnt| - 1))
  {
    hide Flat, Entries, Gather, Spread, RunSep, Spreadable, Ascending, Items, Childless;
    var items := Gathered(true, mid, last);
    LastPageOf(true, true, items, Link(last), cnt);
    GatheredChildless(true, mid, last);
    GatherFlat(true, true, mid);
    EntriesAreFlat(true, last);
    NoEntries(true);
    FlatConcat(true, true, Gather(true, mid), Items(last));
    FlatOfChildless(true, items);
    assert Flat(true, true, Items(last)) + [] == Flat(true, true, Items(last));
    var part := Flat(true, true, items);
    forall i | 0 <= i < |items|
      ensures es[o + i] == items[i].cell
    {
      assert es[o..o + |part|][i] == part[i];
    }
    SpreadSepLeaf(es, o, items, Link(last), cnt, |cnt| - 1);
  }

  lemma RedistributedInterior(es: seq<Cell>, o: nat, mid: seq<Slot>, last: Node, cnt: seq<nat>)
    requires AllLeaves(false, mid) && last.Interior? && Spreadable(|Gathered(false, mid, last)|, false, cnt)
    ensures |cnt| >= 1
    ensures var items := Gathered(false, mid, last);
      var mid', last' := Spread(false, false, items, last.right, cnt, |cnt| - 1),
                         PageOf(false, false, items, last.right, cnt, |cnt| - 1);
      RunSep(es, o, mid') && SepAll(es, o + |Flat(true, false, mid')|, last')
      <==> RunSep(es, o, mid) && SepAll(es, o + |Flat(true, false, mid)|, last)
  {
    hide Flat, RunSep, SepAll, Cuts, Gather, Spread, First, Spreadable, PageOf;
    var g, items := Gather(false, mid), Gathered(false, mid, last);
    LastPageOf(false, false, items, last.right, cnt);
    var n, f := |cnt| - 1, First(false, cnt, |cnt| - 1);
    GatherSep(es, o, mid);
    GatherFlat(true, false, mid);
    SpreadSep(es, o, items, last.right, cnt, n);
    SpreadFlat(true, false, items, last.right, cnt, n);
    SepOfInterior(es, o + |Flat(true, false, g)|, last.slots, last.right);
    RunSepConcat(es, o, g, last.slots);
    FlatConcat(true, false, g, last.slots);
    RunSepConcat(es, o, items[..f], items[f..]);
    FlatConcat(true, false, items[..f], items[f..]);
    SepOfInterior(es, o + |Flat(true, false, items[..f])|, items[f..], last.right);
  }

  // ----- The parent after its children have been balanced -----

  /** The children of p are finished, except that child x may hold too much for one page, or nothing. */
  ghost predicate Family(fmt: Format, p: Node, h: nat, x: nat)
    requires fmt.Valid()
  {
    && p.Interior? && x <= |p.slots|
    && (forall i :: 0 <= i <= |p.slots| && i != x ==> p.Child(i).NCell() > 0 && Sound(fmt, p.Child(i), h))
    && ChildrenSound(fmt, p.Child(x), h) && Splits(fmt, p.Child(x), 3)
  }

  lemma FamilyChild(fmt: Format, p: Node, h: nat, x: nat, i: nat)
    requires fmt.Valid() && Family(fmt, p, h, x) && i <= |p.slots|
    ensures ChildrenSound(fmt, p.Child(i), h) && (p.Child(i).Leaf? <==> h == 0)
    ensures i != x ==> p.Child(i).NCell() > 0 && Sound(fmt, p.Child(i), h) && Splits(fmt, p.Child(i), 1)
    ensures Splits(fmt, p.Child(i), if i == x then 3 else 1)
  {
    if i != x {
      assert Sound(fmt, p.Child(i), h);
      FittingPage(fmt, p.Child(i));
    }
  }

  /** Children a to m of p, redistributed according to cnt. */
  function Rebuilt(fmt: Format, p: Node, a: nat, m: nat, cnt: seq<nat>): Node
    requires p.Interior? && a <= m <= |p.slots|
    requires Spreadable(|Gathered(fmt.LeafData(p.Child(m).Leaf?), p.slots[a..m], p.Child(m))|,
                        fmt.LeafData(p.Child(m).Leaf?), cnt)
  {
    var last := p.Child(m);
    var leaf, leafData := last.Leaf?, fmt.LeafData(last.Leaf?);
    var items := Gathered(leafData, p.slots[a..m], last);
    Assemble(p, a, m, Spread(leaf, leafData, items, Link(last), cnt, |cnt| - 1),
             PageOf(leaf, leafData, items, Link(last), cnt, |cnt| - 1))
  }

  /** Redistribution leaves the entries of the tree and their order as they are. */
  lemma RebuiltEntries(fmt: Format, p: Node, a: nat, m: nat, cnt: seq<nat>)
    requires p.Interior? && a <= m <= |p.slots| && AllLeaves(p.Child(m).Leaf?, p.slots[a..m])
    requires Spreadable(|Gathered(fmt.LeafData(p.Child(m).Leaf?), p.slots[a..m], p.Child(m))|,
                        fmt.LeafData(p.Child(m).Leaf?), cnt)
    ensures Entries(fmt.intKey, Rebuilt(fmt, p, a, m, cnt)) == Entries(fmt.intKey, p)
  {
    hide Flat, Entries, Assemble, Gathered, Spread, PageOf, Spreadable;
    var intKey, mid, last := fmt.intKey, p.slots[a..m], p.Child(m);
    var leaf, leafData := last.Leaf?, last.Leaf? && fmt.intKey;
    var items := Gathered(leafData, mid, last);
    Redistributed(intKey, leaf, mid, last, cnt);
    AssembleSelf(p, a, m);
    AssembleEntries(intKey, p, a, m, mid, last);
    AssembleEntries(intKey, p, a, m, Spread(leaf, leafData, items, Link(last), cnt, |cnt| - 1),
                    PageOf(leaf, leafData, items, Link(last), cnt, |cnt| - 1));
  }

  lemma LeafSep(es: seq<Cell>, o: nat, t: Node)
    requires t.Leaf?
    ensures SepAll(es, o, t)
  {}

  // The position right behind child m, when the entries of p begin at o.
  function ChildEnd(o: nat, p: Node, m: nat): nat
    requires p.Interior? && m <= |p.slots|
  {
    o + |Flat(true, false, p.slots[..m])| + |Entries(true, p.Child(m))|
  }

  /** What redistributing children a to m of p keeps: between leaves, only the separators outside of them. */
  ghost predicate KeptSep(es: seq<Cell>, o: nat, p: Node, a: nat, m: nat)
    requires p.Interior? && a <= m <= |p.slots|
  {
    if p.Child(m).Leaf? then RunSep(es, o, p.slots[..a]) && RestSep(es, ChildEnd(o, p, m), p, m) else SepAll(es, o, p)
  }

  /**
  Redistribution keeps every separator of interior pages in its place, right or wrong. Between leaves of a rowid tree
  it puts new ones, which are right whatever the old ones were.
  */
  lemma RebuiltSep(fmt: Format, es: seq<Cell>, o: nat, p: Node, a: nat, m: nat, cnt: seq<nat>)
    requires p.Interior? && a <= m <= |p.slots| && AllLeaves(p.Child(m).Leaf?, p.slots[a..m]) && fmt.intKey
    requires Spreadable(|Gathered(fmt.LeafData(p.Child(m).Leaf?), p.slots[a..m], p.Child(m))|,
                        fmt.LeafData(p.Child(m).Leaf?), cnt)
    requires Ascending(es) && StandsAt(es, o, Entries(true, p))
    ensures SepAll(es, o, Rebuilt(fmt, p, a, m, cnt)) <==> KeptSep(es, o, p, a, m)
  {
    hide Flat, Entries, Assemble, Gathered, Spread, PageOf, Spreadable, RunSep, SepAll, RestSep, Rest, StandsAt,
      Ascending;
    var mid, last := p.slots[a..m], p.Child(m);
    var leaf, items := last.Leaf?, Gathered(last.Leaf?, mid, last);
    Redistributed(true, leaf, mid, last, cnt);
    var n := |cnt| - 1;
    var mid', last' := Spread(leaf, leaf, items, Link(last), cnt, n), PageOf(leaf, leaf, items, Link(last), cnt, n);
    AssembleSelf(p, a, m);
    AssembleEntries(true, p, a, m, mid, last);
    AssembleSep(es, o, p, a, m, mid, last);
    AssembleSep(es, o, p, a, m, mid', last');
    MiddleStandsAt(es, o, Flat(true, false, p.slots[..a]), Flat(true, false, mid) + Entries(true, last),
                   Rest(true, p, m));
    var o1 := o + |Flat(true, false, p.slots[..a])|;
    FlatPart(p, a, m);
    if leaf {
      RedistributedLeaves(es, o1, mid, last, cnt);
      LeafSep(es, o1 + |Flat(true, false, mid')|, last');
    } else {
      RedistributedInterior(es, o1, mid, last, cnt);
    }
    assert |Flat(true, false, mid') + Entries(true, last')| == |Flat(true, false, mid) + Entries(true, last)|;
  }

  lemma FlatPart(p: Node, a: nat, m: nat)
    requires p.Interior? && a <= m <= |p.slots|
    ensures |Flat(true, false, p.slots[..m])| == |Flat(true, false, p.slots[..a])| + |Flat(true, false, p.slots[a..m])|
  {
    assert p.slots[..m] == p.slots[..a] + p.slots[a..m];
    FlatConcat(true, false, p.slots[..a], p.slots[a..m]);
  }

  lemma {:induction false} SpreadAt(leaf: bool, leafData: bool, items: seq<Slot>, link: Node, cnt: seq<nat>, n: nat,
                                    i: nat)
    requires Spreadable(|items|, leafData, cnt) && i < n < |cnt|
    ensures Spread(leaf, leafData, items, link, cnt, n)[i].child == PageOf(leaf, leafData, items, link, cnt, i)
  {
    if i < n - 1 {
      SpreadAt(leaf, leafData, items, link, cnt, n - 1, i);
    }
  }

  lemma LegalIsSpreadable(sz: Sizes, leafData: bool, usable: nat, cnt: seq<nat>)
    requires Legal(sz, leafData, usable, cnt)
    ensures Spreadable(|sz|, leafData, cnt) && |cnt| >= 1
    ensures |cnt| == 1 ==> First(leafData, cnt, 0) == 0 && cnt[0] == |sz|
  {}

  // The gathered run of a family.
  lemma FamilyRun(fmt: Format, p: Node, h: nat, x: nat, a: nat, m: nat)
    requires fmt.Valid() && Family(fmt, p, h, x) && a <= m <= |p.slots|
    ensures AllLeaves(h == 0, p.slots[a..m]) && p.Child(m).Leaf? == (h == 0)
    ensures RunSound(fmt, h == 0, Gathered(fmt.LeafData(h == 0), p.slots[a..m], p.Child(m)), h)
    ensures LinkSound(fmt, h == 0, Link(p.Child(m)), h)
    ensures a < m && x != m ==> |Gathered(fmt.LeafData(h == 0), p.slots[a..m], p.Child(m))| > 0
  {
    hide Sound, ChildrenSound, Gather, Splits;
    var mid, last, leaf := p.slots[a..m], p.Child(m), h == 0;
    forall i | 0 <= i < |mid|
      ensures mid[i].child.Leaf? == leaf && ChildrenSound(fmt, mid[i].child, h)
    {
      assert mid[i].child == p.Child(a + i);
      FamilyChild(fmt, p, h, x, a + i);
    }
    FamilyChild(fmt, p, h, x, m);
    GatherSound(fmt, leaf, mid, h);
    PageRun(fmt, last, h);
  }

  lemma {:induction false} GatherSome(leafData: bool, mid: seq<Slot>, i: nat)
    requires i < |mid| && (mid[i].child.NCell() > 0 || !leafData)
    ensures |Gather(leafData, mid)| > 0
  {
    if i < |mid| - 1 {
      GatherSome(leafData, mid[..|mid| - 1], i);
    }
  }

  // With a sibling, there are cells to distribute.
  lemma SomeItems(fmt: Format, p: Node, h: nat, x: nat, a: nat, m: nat)
    requires fmt.Valid() && Family(fmt, p, h, x) && a < m <= |p.slots|
    ensures |Gathered(fmt.LeafData(h == 0), p.slots[a..m], p.Child(m))| > 0
  {
    hide Sound, ChildrenSound, Splits;
    if x == m {
      assert p.slots[a..m][0].child == p.Child(a);
      FamilyChild(fmt, p, h, x, a);
      GatherSome(fmt.LeafData(h == 0), p.slots[a..m], 0);
    } else {
      FamilyChild(fmt, p, h, x, m);
    }
  }

  /** After redistribution every child fits, and is not empty if there was more than one or some cell. */
  lemma RebuiltChild(fmt: Format, p: Node, h: nat, x: nat, a: nat, m: nat, cnt: seq<nat>, i: nat)
    requires fmt.Valid() && Family(fmt, p, h, x) && a <= x <= m <= |p.slots|
    requires Legal(SizesOfItems(fmt, h == 0, Gathered(fmt.LeafData(h == 0), p.slots[a..m], p.Child(m))),
                   fmt.LeafData(h == 0), fmt.Capacity(h == 0), cnt)
    requires p.Child(m).Leaf? == (h == 0)
    ensures Spreadable(|Gathered(fmt.LeafData(h == 0), p.slots[a..m], p.Child(m))|, fmt.LeafData(h == 0), cnt)
    ensures |cnt| >= 1
    ensures var p' := Rebuilt(fmt, p, a, m, cnt);
      && p'.Interior? && |p'.slots| == |p.slots| - (m - a) + |cnt| - 1
      && (i <= |p'.slots| ==> Sound(fmt, p'.Child(i), h))
      && (i <= |p'.slots| && (a < m || |cnt| > 1 || p.Child(m).NCell() > 0) ==> p'.Child(i).NCell() > 0)
  {
    hide Sound, ChildrenSound, Gather, Sum, Splits, SizesOfItems, Spread, First;
    var leafData, last := fmt.LeafData(h == 0), p.Child(m);
    var items := Gathered(leafData, p.slots[a..m], last);
    LegalIsSpreadable(SizesOfItems(fmt, h == 0, items), leafData, fmt.Capacity(h == 0), cnt);
    FamilyRun(fmt, p, h, x, a, m);
    var n := |cnt| - 1;
    var mid', last' := Spread(h == 0, leafData, items, Link(last), cnt, n),
                       PageOf(h == 0, leafData, items, Link(last), cnt, n);
    AssembleChild(p, a, m, mid', last', i);
    if a < m {
      SomeItems(fmt, p, h, x, a, m);
    }
    if a <= i <= a + n {
      NewPageSound(fmt, h == 0, items, Link(last), h, cnt, i - a);
      if i < a + n {
        SpreadAt(h == 0, leafData, items, Link(last), cnt, n, i - a);
      }
    } else if i < a {
      FamilyChild(fmt, p, h, x, i);
    } else if i <= |p.slots| - (m - a) + n {
      FamilyChild(fmt, p, h, x, i - n + (m - a));
    }
  }

  // The dividers of at most five pages take no more than the space of four thirds of a page.
  lemma RebuiltContent(fmt: Format, p: Node, a: nat, m: nat, cnt: seq<nat>)
    requires fmt.Valid() && p.Interior? && a <= m <= |p.slots| && 1 <= |cnt| <= NB + 2
    requires Spreadable(|Gathered(fmt.LeafData(p.Child(m).Leaf?), p.slots[a..m], p.Child(m))|,
                        fmt.LeafData(p.Child(m).Leaf?), cnt)
    ensures 3 * Content(fmt, Rebuilt(fmt, p, a, m, cnt)) <= 3 * Content(fmt, p) + 4 * fmt.Capacity(false)
    ensures |cnt| <= 3 ==> 3 * Content(fmt, Rebuilt(fmt, p, a, m, cnt)) <= 3 * Content(fmt, p) + 2 * fmt.Capacity(false)
  {
    hide Spread, PageOf, Gather, Spreadable, Bytes, Content;
    var last := p.Child(m);
    var leaf, leafData := last.Leaf?, fmt.LeafData(last.Leaf?);
    var items := Gathered(leafData, p.slots[a..m], last);
    var mid' := Spread(leaf, leafData, items, Link(last), cnt, |cnt| - 1);
    AssembleContent(fmt, p, a, m, mid', PageOf(leaf, leafData, items, Link(last), cnt, |cnt| - 1));
    DividerBytes(fmt, mid', fmt.Capacity(false));
    var room := fmt.Capacity(false);
    assert room >= 0;
    assert |mid'| * room <= 4 * room;
    assert |mid'| <= 2 ==> |mid'| * room <= 2 * room;
  }

  // The siblings of child x that take part: children a to m.
  lemma EnoughForFamily(fmt: Format, p: Node, h: nat, x: nat, a: nat, m: nat)
    requires fmt.Valid() && Family(fmt, p, h, x) && a <= x <= m <= |p.slots| && m - a < NB
    ensures p.Child(m).Leaf? == (h == 0)
    ensures Splittable(SizesOfItems(fmt, h == 0, Gathered(fmt.LeafData(h == 0), p.slots[a..m], p.Child(m))),
                       fmt.LeafData(h == 0), fmt.Capacity(h == 0), NB + 2)
  {
    hide Sound, ChildrenSound, Gather, Sum, Splits, SizesOfItems;
    var mid, last := p.slots[a..m], p.Child(m);
    FamilyRun(fmt, p, h, x, a, m);
    forall i | 0 <= i <= |mid|
      ensures Splits(fmt, Sibling(mid, last, i), if i == x - a then 1 + 2 else 1)
    {
      assert Sibling(mid, last, i) == p.Child(a + i);
      FamilyChild(fmt, p, h, x, a + i);
    }
    EnoughPages(fmt, h == 0, mid, last, x - a, 2);
    SplittableMore(SizesOfItems(fmt, h == 0, Gathered(fmt.LeafData(h == 0), mid, last)), fmt.LeafData(h == 0),
                   fmt.Capacity(h == 0), |mid| + 3);
  }

  lemma SplittableMore(sz: Sizes, leafData: bool, usable: nat, n: nat)
    requires Splittable(sz, leafData, usable, n) && n <= NB + 2
    ensures Splittable(sz, leafData, usable, NB + 2)
  {}

  lemma NoContent(fmt: Format, p: Node)
    requires p.Interior? && |p.slots| == 0
    ensures Content(fmt, p) == 0
  {}

  // An only child without cells stays one.
  lemma EmptyChild(fmt: Format, p: Node, h: nat, cnt: seq<nat>)
    requires fmt.Valid() && p.Interior? && |p.slots| == 0 && p.right.Leaf? == (h == 0)
    requires Legal(SizesOfItems(fmt, h == 0, Gathered(fmt.LeafData(h == 0), p.slots[0..0], p.Child(0))),
                   fmt.LeafData(h == 0), fmt.Capacity(h == 0), cnt)
    ensures Spreadable(|Gathered(fmt.LeafData(h == 0), p.slots[0..0], p.Child(0))|, fmt.LeafData(h == 0), cnt)
    ensures var p' := Rebuilt(fmt, p, 0, 0, cnt);
      p.right.NCell() == 0 ==> p'.Interior? && |p'.slots| == 0 && p'.right.NCell() == 0
  {
    hide Sum;
    var leafData := fmt.LeafData(h == 0);
    LegalIsSpreadable(SizesOfItems(fmt, h == 0, Gathered(leafData, p.slots[0..0], p.Child(0))), leafData,
                      fmt.Capacity(h == 0), cnt);
  }

  // An only child that fits on three pages.
  lemma OnlyChild(fmt: Format, p: Node, h: nat)
    requires fmt.Valid() && Family(fmt, p, h, 0) && |p.slots| == 0
    ensures p.Child(0).Leaf? == (h == 0)
    ensures Splittable(SizesOfItems(fmt, h == 0, Gathered(fmt.LeafData(h == 0), p.slots[0..0], p.Child(0))),
                       fmt.LeafData(h == 0), fmt.Capacity(h == 0), 3)
  {
    FamilyChild(fmt, p, h, 0, 0);
    assert Gathered(fmt.LeafData(h == 0), p.slots[0..0], p.Child(0)) == Items(p.Child(0));
  }

  /** What p' has to be after child x of p has been balanced. */
  ghost predicate Balanced(fmt: Format, p: Node, p': Node, h: nat)
    requires fmt.Valid() && p.Interior?
  {
    && Entries(fmt.intKey, p') == Entries(fmt.intKey, p)
    && p'.Interior? && (forall i :: 0 <= i <= |p'.slots| ==> Sound(fmt, p'.Child(i), h))
    && (|p.slots| > 0 || p.right.NCell() > 0 ==> forall i :: 0 <= i <= |p'.slots| ==> p'.Child(i).NCell() > 0)
    && (|p.slots| == 0 ==> 3 * Content(fmt, p') <= 2 * fmt.Capacity(false))
    && (|p.slots| == 0 && p.right.NCell() == 0 ==> |p'.slots| == 0 && p'.right.NCell() == 0)
    && 3 * Content(fmt, p') <= 3 * Content(fmt, p) + 4 * fmt.Capacity(false)
  }

  lemma RebuiltIsBalanced(fmt: Format, p: Node, h: nat, x: nat, a: nat, m: nat, cnt: seq<nat>)
    requires fmt.Valid() && Family(fmt, p, h, x) && a <= x <= m <= |p.slots| && |cnt| <= NB + 2
    requires p.Child(m).Leaf? == (h == 0)
    requires if |p.slots| == 0 then |cnt| <= 3 else a < m || |cnt| > 1
    requires Legal(SizesOfItems(fmt, h == 0, Gathered(fmt.LeafData(h == 0), p.slots[a..m], p.Child(m))),
                   fmt.LeafData(h == 0), fmt.Capacity(h == 0), cnt)
    ensures Spreadable(|Gathered(fmt.LeafData(h == 0), p.slots[a..m], p.Child(m))|, fmt.LeafData(h == 0), cnt)
    ensures AllLeaves(h == 0, p.slots[a..m]) && Balanced(fmt, p, Rebuilt(fmt, p, a, m, cnt), h)
  {
    hide Sound, ChildrenSound, Gather, Sum, Splits, Entries, Content, SizesOfItems, Rebuilt, Gathered, Legal, Family;
    FamilyIndex(fmt, p, h, x);
    FamilyRun(fmt, p, h, x, a, m);
    RebuiltChild(fmt, p, h, x, a, m, cnt, 0);
    RebuiltEntries(fmt, p, a, m, cnt);
    RebuiltContent(fmt, p, a, m, cnt);
    if |p.slots| == 0 {
      NoContent(fmt, p);
      EmptyChild(fmt, p, h, cnt);
    }
    var p' := Rebuilt(fmt, p, a, m, cnt);
    forall i | 0 <= i <= |p'.slots|
      ensures Sound(fmt, p'.Child(i), h) && (|p.slots| > 0 || p.right.NCell() > 0 ==> p'.Child(i).NCell() > 0)
    {
      RebuiltChild(fmt, p, h, x, a, m, cnt, i);
    }
  }

  /** The divider behind child n is one of those that are computed anew. */
  predicate Mends(nCell: nat, n: nat, bBulk: bool) { n < nCell && (nCell < 2 || n == 0 || !bBulk) }

  /**
  Child a and those after it, which hold the cells of children a to m as layout cnt says: no layout needs fewer pages,
  and the pages have been evened out.
  */
  ghost predicate Shared(fmt: Format, p: Node, a: nat, m: nat, bBulk: bool, cnt: seq<nat>, p': Node) {
    && p.Interior? && a <= m <= |p.slots|
    && var leaf := p.Child(m).Leaf?;
      var leafData := fmt.LeafData(leaf);
      var sz, usable := SizesOfItems(fmt, leaf, Gathered(leafData, p.slots[a..m], p.Child(m))), fmt.Capacity(leaf);
      && usable >= 0 && Legal(sz, leafData, usable, cnt) && Evened(sz, leafData, usable, bBulk, cnt)
      && (forall other :: Fits(sz, leafData, usable, other) ==> |cnt| <= |other|)
      && p'.Interior? && |p'.slots| + 1 == |p.slots| - (m - a) + |cnt|
      && forall j :: 0 <= j < |cnt| ==> p'.Child(a + j).NCell() == cnt[j] - First(leafData, cnt, j)
  }

  /** The children before and behind are those of before, and the pages have the cells that cnt gives them. */
  lemma RebuiltIsShared(fmt: Format, p: Node, h: nat, a: nat, m: nat, bBulk: bool, cnt: seq<nat>)
    requires fmt.Valid() && p.Interior? && a <= m <= |p.slots| && p.Child(m).Leaf? == (h == 0)
    requires var leafData := fmt.LeafData(h == 0);
      var sz := SizesOfItems(fmt, h == 0, Gathered(leafData, p.slots[a..m], p.Child(m)));
      && Legal(sz, leafData, fmt.Capacity(h == 0), cnt) && Evened(sz, leafData, fmt.Capacity(h == 0), bBulk, cnt)
      && forall other :: Fits(sz, leafData, fmt.Capacity(h == 0), other) ==> |cnt| <= |other|
    requires Spreadable(|Gathered(fmt.LeafData(h == 0), p.slots[a..m], p.Child(m))|, fmt.LeafData(h == 0), cnt)
    ensures Shared(fmt, p, a, m, bBulk, cnt, Rebuilt(fmt, p, a, m, cnt))
  {
    hide Gather, Sum, SizesOfItems, First, Legal, Evened, Fits, Gathered, Assemble;
    var leaf, leafData, last, n := h == 0, fmt.LeafData(h == 0), p.Child(m), |cnt| - 1;
    var items := Gathered(leafData, p.slots[a..m], last);
    var mid' := Spread(leaf, leafData, items, Link(last), cnt, n);
    var last' := PageOf(leaf, leafData, items, Link(last), cnt, n);
    AssembleChild(p, a, m, mid', last', 0);
    var p' := Rebuilt(fmt, p, a, m, cnt);
    forall j | 0 <= j < |cnt|
      ensures p'.Child(a + j).NCell() == cnt[j] - First(leafData, cnt, j)
    {
      AssembleChild(p, a, m, mid', last', a + j);
      if j < n {
        SpreadAt(leaf, leafData, items, Link(last), cnt, n, j);
      }
    }
  }

  /**
  Redistribute the cells of child iParentIdx and up to two of its siblings, a to m. The redistribution always succeeds;
  it does not change the entries, every child fits afterwards, and the parent grows by no more than four dividers.
  */
  method BalanceNonroot(fmt: Format, pParent: Node, iParentIdx: nat, bBulk: bool, ghost h: nat, ghost es: seq<Cell>,
                        ghost o: nat)
    returns (p': Node, ghost a: nat, ghost m: nat, ghost cnt: seq<nat>)
    requires fmt.Valid() && Family(fmt, pParent, h, iParentIdx)
    ensures pParent.Interior? && a <= iParentIdx <= m <= |pParent.slots| && Balanced(fmt, pParent, p', h)
    ensures m > iParentIdx <==> Mends(|pParent.slots|, iParentIdx, bBulk)
    ensures m - a + 1 == if |pParent.slots| < 2 then |pParent.slots| + 1 else if bBulk then 2 else 3
    ensures Shared(fmt, pParent, a, m, bBulk, cnt, p')
    ensures fmt.intKey && Ascending(es) && StandsAt(es, o, Entries(true, pParent)) ==>
      (SepAll(es, o, p') <==> KeptSep(es, o, pParent, a, m))
  {
    hide Sound, ChildrenSound, Gather, Gathered, Sum, Splits, Family, Entries, SepAll, StandsAt, Ascending,
      SizesOfItems, Balanced, Spread,
      PageOf, Assemble, KeptSep, Shared, Evened;
    FamilyIndex(fmt, pParent, h, iParentIdx);
    var nxDiv, nOld := ChooseSiblings(|pParent.slots|, iParentIdx, bBulk);
    var last := nxDiv + nOld - 1;
    a, m := nxDiv, last;
    EnoughForFamily(fmt, pParent, h, iParentIdx, nxDiv, last);
    var leaf := pParent.Child(last).Leaf?;
    var leafData := fmt.LeafData(leaf);
    var apCell := GatherCells(pParent, nxDiv, nOld, leafData);
    SizesAdmissible(fmt, leaf, apCell);
    var ok, k, cntNew, szNew := Pack(SizesOfItems(fmt, leaf, apCell), leafData, fmt.Capacity(leaf), bBulk);
    assert ok;
    var cntNow := cntNew[..k];
    cnt := cntNow;
    if |pParent.slots| == 0 {
      OnlyChild(fmt, pParent, h);
    }
    RebuiltIsBalanced(fmt, pParent, h, iParentIdx, nxDiv, last, cnt);
    if fmt.intKey && Ascending(es) && StandsAt(es, o, Entries(true, pParent)) {
      RebuiltSep(fmt, es, o, pParent, nxDiv, last, cnt);
    }
    p' := InsertPages(pParent, nxDiv, last, leaf, leafData, apCell, cntNow);
    RebuiltIsShared(fmt, pParent, h, nxDiv, last, bBulk, cnt);
  }

  // The children that take part: nOld of them, beginning with child nxDiv.
  method ChooseSiblings(nCell: nat, iParentIdx: nat, bBulk: bool) returns (nxDiv: nat, nOld: nat)
    requires iParentIdx <= nCell
    ensures 1 <= nOld <= NB && nxDiv <= iParentIdx < nxDiv + nOld <= nCell + 1
    ensures nCell > 0 ==> nOld > 1
    ensures nxDiv + nOld - 1 > iParentIdx <==> Mends(nCell, iParentIdx, bBulk)
    ensures nOld == if nCell < 2 then nCell + 1 else if bBulk then 2 else 3
  {
    var i := nCell;
    if i < 2 {
      nxDiv := 0;
    } else {
      if iParentIdx == 0 {
        nxDiv := 0;
      } else if iParentIdx == i {
        nxDiv := i - 2 + if bBulk then 1 else 0;
      } else {
        nxDiv := iParentIdx - 1;
      }
      i := 2 - if bBulk then 1 else 0;
    }
    nOld := i + 1;
  }

  lemma FamilyIndex(fmt: Format, p: Node, h: nat, x: nat)
    requires fmt.Valid() && Family(fmt, p, h, x)
    ensures p.Interior? && x <= |p.slots|
  {}

  lemma GatherNone(leafData: bool, mid: seq<Slot>)
    requires mid == []
    ensures Gather(leafData, mid) == []
  {}

  method GatherCells(p: Node, nxDiv: nat, nOld: nat, leafData: bool) returns (items: seq<Slot>)
    requires p.Interior? && nOld > 0 && nxDiv + nOld - 1 <= |p.slots|
    ensures items == Gathered(leafData, p.slots[nxDiv..nxDiv + nOld - 1], p.Child(nxDiv + nOld - 1))
  {
    hide Items, Gather;
    items := [];
    GatherNone(leafData, p.slots[nxDiv..nxDiv]);
    for i := 0 to nOld
      invariant i < nOld ==> items == Gather(leafData, p.slots[nxDiv..nxDiv + i])
      invariant i == nOld ==> items == Gathered(leafData, p.slots[nxDiv..nxDiv + nOld - 1], p.Child(nxDiv + nOld - 1))
    {
      var pOld := p.Child(nxDiv + i);
      items := items + Items(pOld);
      if i < nOld - 1 {
        if !leafData {
          items := items + [Slot(Link(pOld), p.slots[nxDiv + i].cell)];
        }
        GatherSnoc(leafData, p.slots[nxDiv..nxDiv + i], p.slots[nxDiv + i]);
        assert p.slots[nxDiv..nxDiv + i + 1] == p.slots[nxDiv..nxDiv + i] + [p.slots[nxDiv + i]];
      }
    }
  }

  method InsertPages(p: Node, a: nat, m: nat, leaf: bool, leafData: bool, items: seq<Slot>, cnt: seq<nat>)
    returns (p': Node)
    requires p.Interior? && a <= m <= |p.slots| && Spreadable(|items|, leafData, cnt) && |cnt| >= 1
    ensures var link := Link(p.Child(m));
      p' == Assemble(p, a, m, Spread(leaf, leafData, items, link, cnt, |cnt| - 1),
                     PageOf(leaf, leafData, items, link, cnt, |cnt| - 1))
  {
    hide PageOf, Divider, Spreadable;
    var link, nNew := Link(p.Child(m)), |cnt|;
    var mid: seq<Slot> := [];
    for i := 0 to nNew - 1
      invariant mid == Spread(leaf, leafData, items, link, cnt, i)
    {
      mid := mid + [Slot(PageOf(leaf, leafData, items, link, cnt, i), Divider(leafData, items, cnt, i))];
    }
    p' := Assemble(p, a, m, mid, PageOf(leaf, leafData, items, link, cnt, nNew - 1));
  }
}
