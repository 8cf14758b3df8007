/**
Positions in a b-tree: the pages from the root to the current page, with an index into each.
*/
module Path {
  import opened Tree

  /** Each page but the first is the child of the page before it that the index there selects. */
  ghost predicate IsPath(root: Node, h: nat, pages: seq<Node>, idx: seq<nat>) {
    && Wf(root, h) && |pages| == |idx| > 0 && pages[0] == root
    && (forall i :: 0 <= i < |pages| - 1 ==>
         pages[i].Interior? && idx[i] <= |pages[i].slots| && pages[i + 1] == pages[i].Child(idx[i]))
    && idx[|idx| - 1] <= pages[|pages| - 1].NCell()
  }

  function Last<T>(s: seq<T>): T
    requires s != []
  {
    s[|s| - 1]
  }

  function ButLast<T>(s: seq<T>): seq<T>
    requires s != []
  {
    s[..|s| - 1]
  }

  /** The number of entries before the child, or the leaf cell, that the path selects on its last page. */
  ghost function Base(intKey: bool, pages: seq<Node>, idx: seq<nat>): nat {
    if pages == [] || idx == [] || Last(idx) > Last(pages).NCell() then 0
    else Base(intKey, ButLast(pages), ButLast(idx)) + |Before(intKey, Last(pages), Last(idx))|
  }

  lemma {:induction false} PathWf(root: Node, h: nat, pages: seq<Node>, idx: seq<nat>, i: nat)
    requires IsPath(root, h, pages, idx) && i < |pages|
    ensures i <= h && Wf(pages[i], h - i) && (i > 0 ==> pages[i].NCell() > 0) && idx[i] <= pages[i].NCell()
  {
    if i > 0 {
      PathWf(root, h, pages, idx, i - 1);
      assert pages[i] == pages[i - 1].Child(idx[i - 1]);
    }
  }

  lemma Regroup<T>(p: seq<T>, b: seq<T>, e: seq<T>, a: seq<T>, q: seq<T>)
    ensures p + (b + e + a) + q == (p + b) + e + (a + q)
  {}

  /** The entries below the last page of a path lie in one piece among all entries. */
  lemma {:induction false} PathSplit(intKey: bool, root: Node, h: nat, pages: seq<Node>, idx: seq<nat>)
    returns (pre: seq<Cell>, post: seq<Cell>)
    requires IsPath(root, h, pages, idx)
    ensures |pre| == Base(intKey, ButLast(pages), ButLast(idx))
    ensures Entries(intKey, root) == pre + Entries(intKey, Last(pages)) + post
    decreases |pages|
  {
    if |pages| == 1 {
      pre, post := [], [];
    } else {
      var pages', idx' := ButLast(pages), ButLast(idx);
      PathWf(root, h, pages, idx, |pages'| - 1);
      var pre', post' := PathSplit(intKey, root, h, pages', idx');
      var p, n := Last(pages'), Last(idx');
      SplitAt(intKey, p, n);
      var b, e, a := Before(intKey, p, n), Entries(intKey, Last(pages)), After(intKey, p, n);
      pre, post := pre' + b, a + post';
      Regroup(pre', b, e, a, post');
    }
  }

  lemma IndicesFit(root: Node, h: nat, pages: seq<Node>, idx: seq<nat>)
    requires IsPath(root, h, pages, idx)
    ensures |pages| <= h + 1
    ensures (Last(pages).Leaf? <==> |pages| == h + 1)
    ensures |pages| > 1 ==> Last(pages).NCell() > 0
  {
    PathWf(root, h, pages, idx, |pages| - 1);
  }

  /** The path selects a cell of its last page. */
  ghost predicate AtCell(root: Node, h: nat, pages: seq<Node>, idx: seq<nat>) {
    IsPath(root, h, pages, idx) && Last(idx) < Last(pages).NCell()
  }

  /** The cell is an entry: any cell of an index tree, and a cell of a leaf in a rowid tree. */
  ghost predicate AtEntry(intKey: bool, root: Node, h: nat, pages: seq<Node>, idx: seq<nat>) {
    AtCell(root, h, pages, idx) && (intKey ==> Last(pages).Leaf?)
  }

  /** The number of entries before the selected cell. */
  ghost function Position(intKey: bool, root: Node, h: nat, pages: seq<Node>, idx: seq<nat>): nat
    requires AtCell(root, h, pages, idx)
  {
    Base(intKey, pages, idx) +
    match Last(pages)
    case Leaf(_) => 0
    case Interior(slots, _) => |Entries(intKey, slots[Last(idx)].child)|
  }

  /** The entry found in the selected cell is the one with that number. */
  lemma EntryAtPosition(intKey: bool, root: Node, h: nat, pages: seq<Node>, idx: seq<nat>)
    requires AtEntry(intKey, root, h, pages, idx)
    ensures Position(intKey, root, h, pages, idx) < |Entries(intKey, root)|
    ensures Entries(intKey, root)[Position(intKey, root, h, pages, idx)] == Last(pages).CellAt(Last(idx))
  {
    IndicesFit(root, h, pages, idx);
    var pre, post := PathSplit(intKey, root, h, pages, idx);
    var p, n := Last(pages), Last(idx);
    if p.Interior? {
      SplitAt(intKey, p, n);
      assert After(intKey, p, n)[0] == p.slots[n].cell;
      hide Entries, Before, After, Wf, IsPath;
      InTheMiddle(pre, Before(intKey, p, n), Entries(intKey, p.Child(n)), After(intKey, p, n), post);
    }
  }

  lemma InTheMiddle(pre: seq<Cell>, b: seq<Cell>, e: seq<Cell>, a: seq<Cell>, post: seq<Cell>)
    requires a != []
    ensures var es, n := pre + (b + e + a) + post, |pre| + |b| + |e|;
      n < |es| && es[n] == a[0]
  {}

  // ----- Pushing and popping a page -----

  lemma Push(intKey: bool, root: Node, h: nat, pages: seq<Node>, idx: seq<nat>, n: nat)
    requires IsPath(root, h, pages, idx) && Last(pages).Interior?
    requires n <= Last(pages).Child(Last(idx)).NCell()
    ensures var pages', idx' := pages + [Last(pages).Child(Last(idx))], idx + [n];
      && IsPath(root, h, pages', idx') && |pages| <= h
      && Base(intKey, pages', idx') == Base(intKey, pages, idx) + |Before(intKey, Last(pages'), n)|
      && Last(pages').NCell() > 0
  {
    var pages', idx' := pages + [Last(pages).Child(Last(idx))], idx + [n];
    IndicesFit(root, h, pages, idx);
    IndicesFit(root, h, pages', idx');
    assert ButLast(pages') == pages && ButLast(idx') == idx;
  }

  lemma Pop(intKey: bool, root: Node, h: nat, pages: seq<Node>, idx: seq<nat>)
    requires IsPath(root, h, pages, idx) && |pages| > 1
    ensures IsPath(root, h, ButLast(pages), ButLast(idx)) && Last(ButLast(pages)).Interior?
    ensures Last(pages) == Last(ButLast(pages)).Child(Last(ButLast(idx)))
  {
    PathWf(root, h, pages, idx, |pages| - 2);
  }
}
