/**
Cursor navigation (moveToRoot, moveToChild, moveToLeftmost, moveToRightmost, sqlite3BtreeFirst, -Last, -Next, -Previous
and sqlite3BtreeMovetoUnpacked), for index and for rowid trees.
*/
module Cursor {
  import opened Tree
  import opened Path

  datatype State = INVALID | VALID | SKIPNEXT | REQUIRESEEK

  // ----- Where a step leads -----

  /** The number of entries up to and including the selected cell. */
  ghost function Passed(intKey: bool, root: Node, h: nat, pages: seq<Node>, idx: seq<nat>): nat
    requires AtCell(root, h, pages, idx)
  {
    Position(intKey, root, h, pages, idx) + (if AtEntry(intKey, root, h, pages, idx) then 1 else 0)
  }

  /** The path is at entry number n; past the last entry when there is none. */
  ghost predicate ArrivedAt(intKey: bool, root: Node, h: nat, pages: seq<Node>, idx: seq<nat>, eof: bool, n: int) {
    if eof then n == |Entries(intKey, root)|
    else AtEntry(intKey, root, h, pages, idx) && Position(intKey, root, h, pages, idx) == n
  }

  // The number of entries up to the end of the last page of the path, with all that is below it.
  ghost function EndOf(intKey: bool, root: Node, h: nat, pages: seq<Node>, idx: seq<nat>): nat
    requires IsPath(root, h, pages, idx)
  {
    Base(intKey, ButLast(pages), ButLast(idx)) + |Entries(intKey, Last(pages))|
  }

  // The number of entries before the selected child or leaf cell.
  ghost function StartOf(intKey: bool, root: Node, h: nat, pages: seq<Node>, idx: seq<nat>): nat
    requires IsPath(root, h, pages, idx)
  {
    Base(intKey, pages, idx)
  }

  lemma EndOfRoot(intKey: bool, root: Node, h: nat, pages: seq<Node>, idx: seq<nat>)
    requires IsPath(root, h, pages, idx) && |pages| == 1
    ensures EndOf(intKey, root, h, pages, idx) == |Entries(intKey, root)|
  {}

  // The last child of a page ends where the page ends, and any other one before the cell that follows it.
  lemma EndOfChild(intKey: bool, root: Node, h: nat, pages: seq<Node>, idx: seq<nat>)
    requires IsPath(root, h, pages, idx) && |pages| > 1
    ensures
      var pages', idx' := ButLast(pages), ButLast(idx);
      && IsPath(root, h, pages', idx')
      && (Last(idx') >= Last(pages').NCell() ==>
           EndOf(intKey, root, h, pages, idx) == EndOf(intKey, root, h, pages', idx'))
      && (Last(idx') < Last(pages').NCell() ==>
           EndOf(intKey, root, h, pages, idx) == Position(intKey, root, h, pages', idx'))
  {
    Pop(intKey, root, h, pages, idx);
    IndicesFit(root, h, pages, idx);
  }

  // After the last cell of a leaf comes the end of the leaf.
  lemma PassedLeaf(intKey: bool, root: Node, h: nat, pages: seq<Node>, idx: seq<nat>)
    requires AtCell(root, h, pages, idx) && Last(pages).Leaf?
    ensures Passed(intKey, root, h, pages, idx) == Base(intKey, ButLast(pages), ButLast(idx)) + Last(idx) + 1
    ensures Last(idx) + 1 == Last(pages).NCell() ==>
      Passed(intKey, root, h, pages, idx) == EndOf(intKey, root, h, pages, idx)
  {
    IndicesFit(root, h, pages, idx);
  }

  // Stepping over a cell of an interior page leads to the entries of its next child.
  lemma PassedInterior(intKey: bool, root: Node, h: nat, pages: seq<Node>, idx: seq<nat>)
    requires AtCell(root, h, pages, idx) && Last(pages).Interior?
    ensures var idx' := ButLast(idx) + [Last(idx) + 1];
      && IsPath(root, h, pages, idx')
      && Base(intKey, pages, idx') == Passed(intKey, root, h, pages, idx)
  {
    hide Entries, Before, Wf, EndOf;
    var idx' := ButLast(idx) + [Last(idx) + 1];
    assert ButLast(idx') == ButLast(idx);
    BeforeNext(intKey, Last(pages), Last(idx));
    SameEnd(intKey, root, h, pages, idx, idx');
  }

  lemma BeforeNext(intKey: bool, p: Node, n: nat)
    requires p.Interior? && n < |p.slots|
    ensures Before(intKey, p, n + 1)
      == Before(intKey, p, n) + Entries(intKey, p.slots[n].child) + (if intKey then [] else [p.slots[n].cell])
  {}

  // The first entry below the selected child is the first cell of its leftmost leaf.
  lemma LeafPosition(intKey: bool, root: Node, h: nat, pages: seq<Node>, idx: seq<nat>)
    requires AtCell(root, h, pages, idx) && Last(pages).Leaf?
    ensures AtEntry(intKey, root, h, pages, idx)
    ensures Position(intKey, root, h, pages, idx) == StartOf(intKey, root, h, pages, idx)
    ensures StartOf(intKey, root, h, pages, idx) == Base(intKey, ButLast(pages), ButLast(idx)) + Last(idx)
  {
    IndicesFit(root, h, pages, idx);
  }

  lemma BaseOnLeaf(intKey: bool, root: Node, h: nat, pages: seq<Node>, idx: seq<nat>)
    requires IsPath(root, h, pages, idx) && Last(pages).Leaf?
    ensures StartOf(intKey, root, h, pages, idx) == Base(intKey, ButLast(pages), ButLast(idx)) + Last(idx)
  {}

  lemma BaseOfRoot(intKey: bool, root: Node)
    ensures Base(intKey, [root], [0]) == 0 && ButLast([root]) == [] && ButLast([0]) == []
  {}

  // The end of a page does not depend on the index into it.
  lemma SameEnd(intKey: bool, root: Node, h: nat, pages: seq<Node>, idx: seq<nat>, idx': seq<nat>)
    requires IsPath(root, h, pages, idx) && |idx'| == |idx| && ButLast(idx') == ButLast(idx)
    requires Last(idx') <= Last(pages).NCell()
    ensures IsPath(root, h, pages, idx')
    ensures EndOf(intKey, root, h, pages, idx') == EndOf(intKey, root, h, pages, idx)
  {
    forall i | 0 <= i < |pages| - 1
      ensures idx'[i] == idx[i]
    {
      assert ButLast(idx')[i] == ButLast(idx)[i];
    }
  }

  // Stepping to the next cell of the same page.
  lemma StepWithin(intKey: bool, root: Node, h: nat, pages: seq<Node>, idx: seq<nat>)
    requires AtCell(root, h, pages, idx) && Last(idx) + 1 < Last(pages).NCell()
    ensures var idx' := ButLast(idx) + [Last(idx) + 1];
      && AtCell(root, h, pages, idx')
      && StartOf(intKey, root, h, pages, idx') == Passed(intKey, root, h, pages, idx)
      && (Last(pages).Leaf? ==> AtEntry(intKey, root, h, pages, idx'))
      && (Last(pages).Leaf? ==> Position(intKey, root, h, pages, idx') == Passed(intKey, root, h, pages, idx))
  {
    hide Entries, Wf, Base;
    var idx' := ButLast(idx) + [Last(idx) + 1];
    SameEnd(intKey, root, h, pages, idx, idx');
    assert ButLast(idx') == ButLast(idx);
    if Last(pages).Leaf? {
      LeafPosition(intKey, root, h, pages, idx');
      LeafPosition(intKey, root, h, pages, idx);
      PassedLeaf(intKey, root, h, pages, idx);
    } else {
      PassedInterior(intKey, root, h, pages, idx);
    }
  }

  // An interior cell: an entry of an index tree, and a separator of a rowid tree that only entries follow.
  lemma ArriveInterior(intKey: bool, root: Node, h: nat, pages: seq<Node>, idx: seq<nat>)
    requires AtCell(root, h, pages, idx) && Last(pages).Interior?
    ensures
      var n := Position(intKey, root, h, pages, idx);
      if intKey then Passed(intKey, root, h, pages, idx) == n else ArrivedAt(intKey, root, h, pages, idx, false, n)
  {}

  lemma Arrive(intKey: bool, root: Node, h: nat, pages: seq<Node>, idx: seq<nat>)
    requires AtEntry(intKey, root, h, pages, idx)
    ensures AtCell(root, h, pages, idx)
    ensures ArrivedAt(intKey, root, h, pages, idx, false, Position(intKey, root, h, pages, idx))
  {}

  lemma ArriveEnd(intKey: bool, root: Node, h: nat, pages: seq<Node>, idx: seq<nat>)
    ensures ArrivedAt(intKey, root, h, pages, idx, true, |Entries(intKey, root)|)
  {}

  // Down into the last child of a page.
  lemma EnterRightChild(intKey: bool, root: Node, h: nat, pages: seq<Node>, idx: seq<nat>)
    requires AtCell(root, h, pages, idx) && Last(pages).Interior? && Last(idx) + 1 == Last(pages).NCell()
    ensures
      var idx1 := ButLast(idx) + [Last(idx) + 1];
      var pages2, idx2 := pages + [Last(pages).right], idx1 + [0];
      && IsPath(root, h, pages, idx1) && Last(pages).right == Last(pages).Child(Last(idx1))
      && IsPath(root, h, pages2, idx2) && Last(idx2) < Last(pages2).NCell()
      && StartOf(intKey, root, h, pages2, idx2) == Passed(intKey, root, h, pages, idx)
  {
    hide Entries, Wf, Base, Position, Passed;
    PassedInterior(intKey, root, h, pages, idx);
    Push(intKey, root, h, pages, ButLast(idx) + [Last(idx) + 1], 0);
  }

  lemma PassedLast(intKey: bool, root: Node, h: nat, pages: seq<Node>, idx: seq<nat>)
    requires AtCell(root, h, pages, idx) && Last(pages).Leaf? && Last(idx) + 1 == Last(pages).NCell()
    ensures
      var idx1 := ButLast(idx) + [Last(idx) + 1];
      && IsPath(root, h, pages, idx1)
      && Passed(intKey, root, h, pages, idx) == EndOf(intKey, root, h, pages, idx1)
  {
    var idx1 := ButLast(idx) + [Last(idx) + 1];
    assert ButLast(idx1) == ButLast(idx);
    PassedLeaf(intKey, root, h, pages, idx);
    SameEnd(intKey, root, h, pages, idx, idx1);
  }

  // ----- Stepping back -----

  // The entry before a cell of an interior page is the last one below its left child.
  lemma EnterLeftChild(intKey: bool, root: Node, h: nat, pages: seq<Node>, idx: seq<nat>)
    requires AtCell(root, h, pages, idx) && Last(pages).Interior?
    ensures var pages', idx' := pages + [Last(pages).slots[Last(idx)].child], idx + [0];
      && IsPath(root, h, pages', idx') && Last(pages').NCell() > 0
      && EndOf(intKey, root, h, pages', idx') == Position(intKey, root, h, pages, idx)
  {
    Push(intKey, root, h, pages, idx, 0);
    var pages', idx' := pages + [Last(pages).slots[Last(idx)].child], idx + [0];
    assert ButLast(pages') == pages && ButLast(idx') == idx;
    EndOfChild(intKey, root, h, pages', idx');
  }

  // Nothing comes before index 0 of the root, and index 0 of any other page starts where the page does.
  lemma StartOfPage(intKey: bool, root: Node, h: nat, pages: seq<Node>, idx: seq<nat>)
    requires IsPath(root, h, pages, idx) && Last(idx) == 0
    ensures |pages| == 1 ==> StartOf(intKey, root, h, pages, idx) == 0
    ensures |pages| > 1 ==> IsPath(root, h, ButLast(pages), ButLast(idx))
    ensures |pages| > 1 ==>
      StartOf(intKey, root, h, pages, idx) == StartOf(intKey, root, h, ButLast(pages), ButLast(idx))
  {
    IndicesFit(root, h, pages, idx);
    if |pages| > 1 {
      Pop(intKey, root, h, pages, idx);
    } else {
      assert Base(intKey, ButLast(pages), ButLast(idx)) == 0;
    }
  }

  // The cell before the index: an entry that ends there, or a separator that stands there.
  lemma StepBack(intKey: bool, root: Node, h: nat, pages: seq<Node>, idx: seq<nat>, idx': seq<nat>)
    requires IsPath(root, h, pages, idx) && |idx'| == |idx| && ButLast(idx') == ButLast(idx)
      && Last(idx') + 1 == Last(idx)
    ensures AtCell(root, h, pages, idx')
    ensures Passed(intKey, root, h, pages, idx') == StartOf(intKey, root, h, pages, idx)
  {
    hide Entries, Wf, Base, EndOf, Position;
    SameEnd(intKey, root, h, pages, idx, idx');
    if Last(pages).Interior? {
      assert ButLast(idx') + [Last(idx') + 1] == idx;
      PassedInterior(intKey, root, h, pages, idx');
    } else {
      LeafPosition(intKey, root, h, pages, idx');
      BaseOnLeaf(intKey, root, h, pages, idx);
    }
  }

  // The path is at the entry before number n; there is none before number 0.
  ghost predicate WentBack(intKey: bool, root: Node, h: nat, pages: seq<Node>, idx: seq<nat>, bof: bool, n: int) {
    if bof then n == 0 else ArrivedAt(intKey, root, h, pages, idx, false, n - 1)
  }

  lemma BackAtEntry(intKey: bool, root: Node, h: nat, pages: seq<Node>, idx: seq<nat>)
    requires AtCell(root, h, pages, idx)
    ensures AtEntry(intKey, root, h, pages, idx) == (intKey ==> Last(pages).Leaf?)
    ensures AtEntry(intKey, root, h, pages, idx) ==>
      WentBack(intKey, root, h, pages, idx, false, Passed(intKey, root, h, pages, idx))
    ensures !AtEntry(intKey, root, h, pages, idx) ==>
      Passed(intKey, root, h, pages, idx) == Position(intKey, root, h, pages, idx)
  {}

  lemma BackBelow(intKey: bool, root: Node, h: nat, pages: seq<Node>, idx: seq<nat>)
    requires AtEntry(intKey, root, h, pages, idx)
    ensures WentBack(intKey, root, h, pages, idx, false, Position(intKey, root, h, pages, idx) + 1)
  {}

  // ----- Where a key belongs -----

  // The entries before number lo are smaller than the key, and those from number hi on are greater.
  ghost predicate Bracket(es: seq<Cell>, key: Key, lo: int, hi: int) {
    && 0 <= lo <= hi <= |es|
    && (forall i :: 0 <= i < lo ==> es[i].key < key)
    && (forall i :: hi <= i < |es| ==> es[i].key > key)
  }

  /** The result of a search: the entry with the key, or else a neighbour of the place where it would be. */
  ghost predicate Sought(intKey: bool, root: Node, h: nat, eState: State, pages: seq<Node>, idx: seq<nat>, key: Key,
                         res: int) {
    var es := Entries(intKey, root);
    if es == [] then eState == INVALID && res < 0
    else
      && eState == VALID && AtEntry(intKey, root, h, pages, idx)
      && var n := Position(intKey, root, h, pages, idx);
        && n < |es|
        && (res == 0 ==> es[n].key == key)
        && (res < 0 ==> Bracket(es, key, n + 1, n + 1))
        && (res > 0 ==> Bracket(es, key, n, n))
  }

  lemma {:induction false} PathSeparated(root: Node, h: nat, pages: seq<Node>, idx: seq<nat>, i: nat)
    requires IsPath(root, h, pages, idx) && Separated(root) && i < |pages|
    ensures Separated(pages[i])
  {
    if i > 0 {
      PathSeparated(root, h, pages, idx, i - 1);
      assert pages[i] == pages[i - 1].Child(idx[i - 1]);
    }
  }

  lemma AroundJoint(pre: seq<Cell>, b: seq<Cell>, l: seq<Cell>, r: seq<Cell>, a: seq<Cell>, post: seq<Cell>)
    requires l != [] && r != []
    ensures var es := pre + (b + l + (r + a)) + post;
      var n := |pre| + |b| + |l|;
      0 < n < |es| && es[n - 1] == l[|l| - 1] && es[n] == r[0]
  {}

  // The entries on both sides of a separator.
  lemma AroundSeparator(p: Node, h: nat, n: nat) returns (b: seq<Cell>, l: seq<Cell>, r: seq<Cell>, a: seq<Cell>)
    requires p.Interior? && n < |p.slots| && Wf(p, h) && Separated(p)
    ensures Entries(true, p) == b + l + (r + a) && b == Before(true, p, n) && l == Entries(true, p.slots[n].child)
    ensures l != [] && r != [] && l[|l| - 1].key <= p.slots[n].cell.key < r[0].key
  {
    b, l, r, a := Before(true, p, n), Entries(true, p.Child(n)), Entries(true, p.Child(n + 1)), After(true, p, n + 1);
    SplitAt(true, p, n);
    assert After(true, p, n) == r + a;
    assert AllAtMost(l, p.slots[n].cell.key) && AllAbove(r, p.slots[n].cell.key);
    assert p.Child(n).NCell() > 0 && p.Child(n + 1).NCell() > 0;
    EntriesNonempty(true, p.Child(n), h - 1);
    EntriesNonempty(true, p.Child(n + 1), h - 1);
  }

  // In a rowid tree a separator stands between the last entry left of it and the first one right of it.
  lemma SeparatorNeighbours(root: Node, h: nat, pages: seq<Node>, idx: seq<nat>)
    requires AtCell(root, h, pages, idx) && Last(pages).Interior? && Separated(root)
    ensures
      var es, n, sep := Entries(true, root), Position(true, root, h, pages, idx), Last(pages).CellAt(Last(idx)).key;
      && StartOf(true, root, h, pages, idx) < n < |es|
      && es[n - 1].key <= sep < es[n].key
  {
    hide Entries, Before, Wf, Separated, Base, Position, StartOf;
    var i := |pages| - 1;
    IndicesFit(root, h, pages, idx);
    PathWf(root, h, pages, idx, i);
    PathSeparated(root, h, pages, idx, i);
    var b, l, r, a := AroundSeparator(pages[i], h - i, idx[i]);
    var pre, post := PathSplit(true, root, h, pages, idx);
    PositionParts(root, h, pages, idx);
    AroundJoint(pre, b, l, r, a, post);
  }

  lemma PositionParts(root: Node, h: nat, pages: seq<Node>, idx: seq<nat>)
    requires AtCell(root, h, pages, idx) && Last(pages).Interior?
    ensures StartOf(true, root, h, pages, idx)
      == Base(true, ButLast(pages), ButLast(idx)) + |Before(true, Last(pages), Last(idx))|
    ensures Position(true, root, h, pages, idx)
      == StartOf(true, root, h, pages, idx) + |Entries(true, Last(pages).slots[Last(idx)].child)|
  {}

  // A cell with a smaller key has only smaller entries before and in it.
  lemma CellBelow(intKey: bool, root: Node, h: nat, pages: seq<Node>, idx: seq<nat>, key: Key)
    requires AtCell(root, h, pages, idx) && Ordered(intKey, root) && Last(pages).CellAt(Last(idx)).key < key
    ensures var es, n := Entries(intKey, root), Passed(intKey, root, h, pages, idx);
      n <= |es| && forall i :: 0 <= i < n ==> es[i].key < key
  {
    hide Entries, Base, Wf, Position, Separated;
    if AtEntry(intKey, root, h, pages, idx) {
      EntryAtPosition(intKey, root, h, pages, idx);
    } else {
      SeparatorNeighbours(root, h, pages, idx);
    }
  }

  // A cell with a greater key, or a separator with the key itself, has only greater entries from it on.
  lemma CellAbove(intKey: bool, root: Node, h: nat, pages: seq<Node>, idx: seq<nat>, key: Key)
    requires AtCell(root, h, pages, idx) && Ordered(intKey, root)
    requires Last(pages).CellAt(Last(idx)).key > key
      || (Last(pages).CellAt(Last(idx)).key == key && !AtEntry(intKey, root, h, pages, idx))
    ensures var es, n := Entries(intKey, root), Position(intKey, root, h, pages, idx);
      n <= |es| && forall i :: n <= i < |es| ==> es[i].key > key
  {
    hide Entries, Base, Wf, Position, Separated;
    if AtEntry(intKey, root, h, pages, idx) {
      EntryAtPosition(intKey, root, h, pages, idx);
    } else {
      SeparatorNeighbours(root, h, pages, idx);
    }
  }

  // The place of the key on a page, as the search there found it.
  ghost predicate PlaceOnPage(intKey: bool, p: Node, key: Key, n: nat) {
    && n <= p.NCell()
    && (n < p.NCell() ==> p.CellAt(n).key > key || (p.CellAt(n).key == key && intKey && p.Interior?))
    && (n > 0 ==> p.CellAt(n - 1).key < key || (n < p.NCell() && p.CellAt(n).key == key))
  }

  // The entries around the place of the key on the last page of the path.
  lemma BracketBefore(intKey: bool, root: Node, h: nat, pages: seq<Node>, idx: seq<nat>, key: Key)
    requires IsPath(root, h, pages, idx) && Ordered(intKey, root)
    requires PlaceOnPage(intKey, Last(pages), key, Last(idx))
    requires Bracket(Entries(intKey, root), key, Base(intKey, ButLast(pages), ButLast(idx)),
                     EndOf(intKey, root, h, pages, idx))
    ensures var es, n := Entries(intKey, root), StartOf(intKey, root, h, pages, idx);
      n <= |es| && forall i :: 0 <= i < n ==> es[i].key < key
  {
    hide Entries, Wf, Base, Position, EndOf, Ordered, Passed, StartOf, Separated, Ascending;
    var p, n := Last(pages), Last(idx);
    if n > 0 && p.CellAt(n - 1).key < key {
      var idx' := ButLast(idx) + [n - 1];
      assert ButLast(idx') == ButLast(idx);
      StepBack(intKey, root, h, pages, idx, idx');
      CellBelow(intKey, root, h, pages, idx', key);
    } else if n > 0 {
      AscendingEntries(intKey, root);
      SeparatorNeighbours(root, h, pages, idx);
    } else {
      StartOfIndexZero(intKey, root, h, pages, idx);
    }
  }

  lemma StartOfIndexZero(intKey: bool, root: Node, h: nat, pages: seq<Node>, idx: seq<nat>)
    requires IsPath(root, h, pages, idx) && Last(idx) == 0
    ensures StartOf(intKey, root, h, pages, idx) == Base(intKey, ButLast(pages), ButLast(idx))
  {}

  lemma AscendingEntries(intKey: bool, root: Node)
    requires Ordered(intKey, root)
    ensures Ascending(Entries(intKey, root)) && (intKey ==> Separated(root))
  {}

  // One page further down.
  lemma BracketChild(intKey: bool, root: Node, h: nat, pages: seq<Node>, idx: seq<nat>, key: Key)
    requires IsPath(root, h, pages, idx) && Ordered(intKey, root) && Last(pages).Interior?
    requires PlaceOnPage(intKey, Last(pages), key, Last(idx))
    requires Bracket(Entries(intKey, root), key, Base(intKey, ButLast(pages), ButLast(idx)),
                     EndOf(intKey, root, h, pages, idx))
    ensures var pages', idx' := pages + [Last(pages).Child(Last(idx))], idx + [0];
      && IsPath(root, h, pages', idx') && |pages| <= h
      && Bracket(Entries(intKey, root), key, Base(intKey, ButLast(pages'), ButLast(idx')),
                 EndOf(intKey, root, h, pages', idx'))
  {
    var pages', idx' := pages + [Last(pages).Child(Last(idx))], idx + [0];
    BracketBefore(intKey, root, h, pages, idx, key);
    Push(intKey, root, h, pages, idx, 0);
    assert ButLast(pages') == pages && ButLast(idx') == idx;
    EndOfChild(intKey, root, h, pages', idx');
    if Last(idx) < Last(pages).NCell() {
      CellAbove(intKey, root, h, pages, idx, key);
    }
  }

  // The place of the key on a leaf is its place among all entries.
  lemma BracketOnLeaf(intKey: bool, root: Node, h: nat, pages: seq<Node>, idx: seq<nat>, key: Key)
    requires IsPath(root, h, pages, idx) && Ordered(intKey, root) && Last(pages).Leaf?
    requires PlaceOnPage(intKey, Last(pages), key, Last(idx))
    requires Bracket(Entries(intKey, root), key, Base(intKey, ButLast(pages), ButLast(idx)),
                     EndOf(intKey, root, h, pages, idx))
    ensures var n := StartOf(intKey, root, h, pages, idx);
      Bracket(Entries(intKey, root), key, n, n)
  {
    hide Entries, Base, Wf, Position, Ordered, StartOf;
    BracketBefore(intKey, root, h, pages, idx, key);
    BaseOnLeaf(intKey, root, h, pages, idx);
    if Last(idx) < Last(pages).NCell() {
      CellAbove(intKey, root, h, pages, idx, key);
      LeafPosition(intKey, root, h, pages, idx);
    } else {
      EndOfLeaf(intKey, root, h, pages, idx);
    }
  }

  lemma EndOfLeaf(intKey: bool, root: Node, h: nat, pages: seq<Node>, idx: seq<nat>)
    requires IsPath(root, h, pages, idx) && Last(pages).Leaf?
    ensures EndOf(intKey, root, h, pages, idx) == Base(intKey, ButLast(pages), ButLast(idx)) + Last(pages).NCell()
  {}

  lemma BaseAndPosition(intKey: bool, root: Node, h: nat, pages: seq<Node>, idx: seq<nat>, idx': seq<nat>)
    requires AtCell(root, h, pages, idx) && IsPath(root, h, pages, idx') && Last(pages).Leaf?
    requires ButLast(idx') == ButLast(idx)
    ensures StartOf(intKey, root, h, pages, idx') + Last(idx) == Position(intKey, root, h, pages, idx) + Last(idx')
  {
    LeafPosition(intKey, root, h, pages, idx);
    BaseOnLeaf(intKey, root, h, pages, idx');
  }

  // The search ends at the entry before or after the place of the key.
  lemma SoughtBeside(intKey: bool, root: Node, h: nat, pages: seq<Node>, idx: seq<nat>, key: Key, place: int, res: int)
    requires AtEntry(intKey, root, h, pages, idx) && Bracket(Entries(intKey, root), key, place, place)
    requires place == Position(intKey, root, h, pages, idx) + if res < 0 then 1 else 0
    requires res != 0
    ensures Sought(intKey, root, h, VALID, pages, idx, key, res)
  {
    EntryAtPosition(intKey, root, h, pages, idx);
  }

  lemma SoughtEqual(intKey: bool, root: Node, h: nat, pages: seq<Node>, idx: seq<nat>, key: Key)
    requires AtEntry(intKey, root, h, pages, idx) && Last(pages).CellAt(Last(idx)).key == key
    ensures Sought(intKey, root, h, VALID, pages, idx, key, 0)
  {
    EntryAtPosition(intKey, root, h, pages, idx);
  }

  // ----- What the cursor remembers -----

  /**
  A cursor that remembers a key is at an entry, though an insertion may have left it with the key of another one, and a
  cursor marked as such is at the last entry.
  */
  ghost predicate FlagsOk(intKey: bool, root: Node, h: nat, eState: State, pages: seq<Node>, idx: seq<nat>,
                          validNKey: bool, atLast: bool) {
    eState == VALID || eState == SKIPNEXT ==>
      && (validNKey ==> intKey && AtEntry(intKey, root, h, pages, idx))
      && (atLast ==> ArrivedAt(intKey, root, h, pages, idx, false, |Entries(intKey, root)| - 1))
  }

  // Past the last entry there is none to be at.
  lemma FlagsAfterNext(intKey: bool, root: Node, h: nat, old_pages: seq<Node>, old_idx: seq<nat>, eState: State,
                       pages: seq<Node>, idx: seq<nat>, atLast: bool)
    requires AtCell(root, h, old_pages, old_idx)
    requires FlagsOk(intKey, root, h, VALID, old_pages, old_idx, false, atLast)
    requires ArrivedAt(intKey, root, h, pages, idx, eState == INVALID, Passed(intKey, root, h, old_pages, old_idx))
    requires eState == INVALID || eState == VALID
    ensures FlagsOk(intKey, root, h, eState, pages, idx, false, atLast)
  {
    if eState == VALID && atLast {
      EntryAtPosition(intKey, root, h, pages, idx);
    }
  }

  /** A search in a rowid tree that does not move the cursor. */
  predicate SeeksInPlace(intKey: bool, eState: State, validNKey: bool, nKey: Key, atLast: bool, key: Key) {
    intKey && eState == VALID && validNKey && (nKey == key || (atLast && nKey < key))
  }

  /** Then the answer is right just when the current entry, too, has that key, or an even smaller one. */
  lemma SoughtInPlace(root: Node, h: nat, pages: seq<Node>, idx: seq<nat>, nKey: Key, atLast: bool, key: Key)
    requires FlagsOk(true, root, h, VALID, pages, idx, true, atLast) && Ordered(true, root)
    requires SeeksInPlace(true, VALID, true, nKey, atLast, key)
    ensures AtEntry(true, root, h, pages, idx) && idx != [] && pages != []
    ensures var cur, res := Last(pages).CellAt(Last(idx)).key, if nKey == key then 0 else -1;
      && (Sought(true, root, h, VALID, pages, idx, key, res) <==> if nKey == key then cur == key else cur < key)
      && (Sought(true, root, h, VALID, pages, idx, key, res) && res != 0 ==>
           WellPlaced(true, root, h, pages, idx, key, res))
  {
    EntryAtPosition(true, root, h, pages, idx);
  }

  // A child starts where the index that selects it does.
  lemma EnterFirst(intKey: bool, root: Node, h: nat, pages: seq<Node>, idx: seq<nat>)
    requires AtCell(root, h, pages, idx) && Last(pages).Interior?
    ensures var pages', idx' := pages + [Last(pages).slots[Last(idx)].child], idx + [0];
      && |pages| <= h && IsPath(root, h, pages', idx') && Last(pages').NCell() > 0
      && StartOf(intKey, root, h, pages', idx') == StartOf(intKey, root, h, pages, idx)
  {
    Push(intKey, root, h, pages, idx, 0);
  }

  // The last child of a page ends where the page does.
  lemma EnterLast(intKey: bool, root: Node, h: nat, pages: seq<Node>, idx: seq<nat>)
    requires IsPath(root, h, pages, idx) && Last(pages).Interior?
    ensures
      var idx1 := ButLast(idx) + [Last(pages).NCell()];
      var pages2, idx2 := pages + [Last(pages).right], idx1 + [0];
      && |pages| <= h && IsPath(root, h, pages, idx1) && Last(pages).right == Last(pages).Child(Last(idx1))
      && IsPath(root, h, pages2, idx2) && Last(pages2).NCell() > 0
      && EndOf(intKey, root, h, pages2, idx2) == EndOf(intKey, root, h, pages, idx)
  {
    var idx1 := ButLast(idx) + [Last(pages).NCell()];
    var pages2, idx2 := pages + [Last(pages).right], idx1 + [0];
    assert ButLast(idx1) == ButLast(idx);
    SameEnd(intKey, root, h, pages, idx, idx1);
    Push(intKey, root, h, pages, idx1, 0);
    assert ButLast(pages2) == pages && ButLast(idx2) == idx1;
    EndOfChild(intKey, root, h, pages2, idx2);
  }

  lemma LastOfLeaf(intKey: bool, root: Node, h: nat, pages: seq<Node>, idx: seq<nat>)
    requires IsPath(root, h, pages, idx) && Last(pages).Leaf? && Last(pages).NCell() > 0
    ensures var idx' := ButLast(idx) + [Last(pages).NCell() - 1];
      && AtEntry(intKey, root, h, pages, idx')
      && Position(intKey, root, h, pages, idx') == EndOf(intKey, root, h, pages, idx) - 1
  {
    var idx' := ButLast(idx) + [Last(pages).NCell() - 1];
    SameEnd(intKey, root, h, pages, idx, idx');
    assert ButLast(idx') == ButLast(idx);
    LeafPosition(intKey, root, h, pages, idx');
    PassedLeaf(intKey, root, h, pages, idx');
  }

  lemma LeafStart(intKey: bool, root: Node, h: nat, pages: seq<Node>, idx: seq<nat>)
    requires AtCell(root, h, pages, idx) && Last(pages).Leaf?
    ensures StartOf(intKey, root, h, pages, idx) == Position(intKey, root, h, pages, idx)
  {
    IndicesFit(root, h, pages, idx);
  }

  lemma BackAtStart(intKey: bool, root: Node, h: nat, pages: seq<Node>, idx: seq<nat>)
    ensures WentBack(intKey, root, h, pages, idx, true, 0)
  {}

  lemma SomeEntry(intKey: bool, root: Node, h: nat, pages: seq<Node>, idx: seq<nat>)
    requires AtEntry(intKey, root, h, pages, idx)
    ensures |Entries(intKey, root)| > 0
  {
    EntryAtPosition(intKey, root, h, pages, idx);
  }

  lemma SoughtNone(intKey: bool, root: Node, h: nat, pages: seq<Node>, idx: seq<nat>, key: Key)
    requires |Entries(intKey, root)| == 0
    ensures Sought(intKey, root, h, INVALID, pages, idx, key, -1)
  {}

  lemma SoughtIsEntry(intKey: bool, root: Node, h: nat, pages: seq<Node>, idx: seq<nat>, key: Key, res: int)
    requires Sought(intKey, root, h, VALID, pages, idx, key, res)
    ensures AtEntry(intKey, root, h, pages, idx)
  {}

  lemma BracketAll(intKey: bool, root: Node, h: nat, pages: seq<Node>, idx: seq<nat>, key: Key)
    requires IsPath(root, h, pages, idx) && Last(idx) == 0 && StartOf(intKey, root, h, pages, idx) == 0
    requires EndOf(intKey, root, h, pages, idx) == |Entries(intKey, root)|
    requires Ordered(intKey, root) && Last(pages).NCell() > 0
    requires |pages| == 1 || (|pages| == 2 && root.NCell() == 0)
    ensures Searching(intKey, root, h, pages, idx, key)
  {
    IndicesFit(root, h, pages, idx);
  }

  /** Child n of an interior page of a rowid tree is the one for the key. */
  ghost predicate RoutedAt(p: Node, n: nat, key: Key) {
    && n <= p.NCell()
    && (n < p.NCell() ==> key <= p.CellAt(n).key)
    && (n > 0 ==> p.CellAt(n - 1).key < key)
  }

  ghost predicate Routed(pages: seq<Node>, idx: seq<nat>, key: Key) {
    |pages| == |idx| && forall i {:trigger pages[i]} :: 0 <= i < |pages| - 1 ==> RoutedAt(pages[i], idx[i], key)
  }

  // The separators before and after a child of a rowid tree.
  lemma PlaceIsRoute(root: Node, h: nat, pages: seq<Node>, idx: seq<nat>, key: Key)
    requires IsPath(root, h, pages, idx) && Last(pages).Interior? && Separated(root)
    requires PlaceOnPage(true, Last(pages), key, Last(idx))
    ensures RoutedAt(Last(pages), Last(idx), key)
  {
    var i, n := |pages| - 1, Last(idx);
    if 0 < n < pages[i].NCell() {
      PathWf(root, h, pages, idx, i);
      PathSeparated(root, h, pages, idx, i);
      SeparatorsAscend(pages[i], h - i, n);
    }
  }

  lemma SeparatorsAscend(p: Node, h: nat, n: nat)
    requires p.Interior? && 0 < n < |p.slots| && Wf(p, h) && Separated(p)
    ensures p.slots[n - 1].cell.key < p.slots[n].cell.key
  {
    var e := Entries(true, p.Child(n));
    assert p.Child(n).NCell() > 0 && Wf(p.Child(n), h - 1);
    EntriesNonempty(true, p.Child(n), h - 1);
    var m := n - 1;
    assert AllAtMost(Entries(true, p.Child(n)), p.slots[n].cell.key)
      && AllAbove(Entries(true, p.Child(m + 1)), p.slots[m].cell.key);
    assert p.slots[m].cell.key < e[0].key <= p.slots[n].cell.key;
  }

  lemma RoutedFurther(pages: seq<Node>, idx: seq<nat>, n: nat, key: Key, child: Node)
    requires pages != [] && Routed(pages, idx, key) && RoutedAt(Last(pages), n, key)
    ensures Routed(pages + [child], ButLast(idx) + [n] + [0], key)
  {
    var pages', idx' := pages + [child], ButLast(idx) + [n] + [0];
    forall i {:trigger pages'[i]} | 0 <= i < |pages'| - 1
      ensures RoutedAt(pages'[i], idx'[i], key)
    {
      assert pages'[i] == pages[i];
      assert i < |pages| - 1 ==> idx'[i] == idx[i];
    }
  }

  lemma RoutedSame(pages: seq<Node>, idx: seq<nat>, n: nat, key: Key)
    requires pages != [] && Routed(pages, idx, key)
    ensures Routed(pages, ButLast(idx) + [n], key)
  {}

  /** An entry that a search has found beside the key is on the leaf where the key belongs. */
  ghost predicate WellPlaced(intKey: bool, root: Node, h: nat, pages: seq<Node>, idx: seq<nat>, key: Key, res: int) {
    && AtEntry(intKey, root, h, pages, idx) && Last(pages).Leaf?
    && (intKey ==>
         Routed(pages, idx, key)
         || (res < 0 && ArrivedAt(intKey, root, h, pages, idx, false, |Entries(intKey, root)| - 1)))
  }

  /** The key, if it is anywhere, is on the last page of the path or below it. */
  ghost predicate Searching(intKey: bool, root: Node, h: nat, pages: seq<Node>, idx: seq<nat>, key: Key) {
    && IsPath(root, h, pages, idx) && Ordered(intKey, root) && Last(pages).NCell() > 0
    && (intKey ==> Routed(pages, idx, key))
    && Bracket(Entries(intKey, root), key, Base(intKey, ButLast(pages), ButLast(idx)),
               EndOf(intKey, root, h, pages, idx))
  }

  lemma SearchPages(intKey: bool, root: Node, h: nat, pages: seq<Node>, idx: seq<nat>, key: Key)
    requires Searching(intKey, root, h, pages, idx, key)
    ensures 0 < |pages| == |idx| <= h + 1 && Last(pages).NCell() > 0
  {
    IndicesFit(root, h, pages, idx);
  }

  // The index into the last page does not matter.
  lemma SearchingAt(intKey: bool, root: Node, h: nat, pages: seq<Node>, idx: seq<nat>, key: Key, n: nat)
    requires Searching(intKey, root, h, pages, idx, key) && n <= Last(pages).NCell()
    ensures Searching(intKey, root, h, pages, ButLast(idx) + [n], key) && ButLast(ButLast(idx) + [n]) == ButLast(idx)
  {
    hide Entries, Base, Wf, EndOf, Ordered, RoutedAt;
    if intKey {
      RoutedSame(pages, idx, n, key);
    }
    assert ButLast(ButLast(idx) + [n]) == ButLast(idx);
    SameEnd(intKey, root, h, pages, idx, ButLast(idx) + [n]);
  }

  lemma FoundHere(intKey: bool, root: Node, h: nat, pages: seq<Node>, idx: seq<nat>, key: Key, n: nat)
    requires Searching(intKey, root, h, pages, idx, key) && (Last(pages).Leaf? || !intKey)
    requires n < Last(pages).NCell() && Last(pages).CellAt(n).key == key
    ensures Sought(intKey, root, h, VALID, pages, ButLast(idx) + [n], key, 0)
  {
    SearchingAt(intKey, root, h, pages, idx, key, n);
    SoughtEqual(intKey, root, h, pages, ButLast(idx) + [n], key);
  }

  lemma StopHere(intKey: bool, root: Node, h: nat, pages: seq<Node>, idx: seq<nat>, key: Key, n: nat, place: nat,
                 res: int)
    requires Searching(intKey, root, h, pages, idx, key) && Last(pages).Leaf?
    requires n < Last(pages).NCell() && PlaceOnPage(intKey, Last(pages), key, place)
    requires (res < 0 && place == n + 1) || (res > 0 && place == n)
    ensures Sought(intKey, root, h, VALID, pages, ButLast(idx) + [n], key, res)
    ensures WellPlaced(intKey, root, h, pages, ButLast(idx) + [n], key, res)
  {
    hide Entries, Base, Wf, EndOf, Position, StartOf, Ordered, Bracket, Sought, Routed;
    SearchingAt(intKey, root, h, pages, idx, key, n);
    SearchingAt(intKey, root, h, pages, idx, key, place);
    var at, to := ButLast(idx) + [n], ButLast(idx) + [place];
    BracketOnLeaf(intKey, root, h, pages, to, key);
    BaseAndPosition(intKey, root, h, pages, at, to);
    LeafPosition(intKey, root, h, pages, at);
    SoughtBeside(intKey, root, h, pages, at, key, StartOf(intKey, root, h, pages, to), res);
  }

  lemma GoDown(intKey: bool, root: Node, h: nat, pages: seq<Node>, idx: seq<nat>, key: Key, n: nat)
    requires Searching(intKey, root, h, pages, idx, key) && Last(pages).Interior?
    requires PlaceOnPage(intKey, Last(pages), key, n)
    ensures var idx1 := ButLast(idx) + [n];
      && IsPath(root, h, pages, idx1)
      && Searching(intKey, root, h, pages + [Last(pages).Child(n)], idx1 + [0], key)
  {
    hide Entries, Base, Wf, EndOf, Separated, Ascending, Routed, RoutedAt;
    SearchingAt(intKey, root, h, pages, idx, key, n);
    if intKey {
      PlaceIsRoute(root, h, pages, ButLast(idx) + [n], key);
      RoutedFurther(pages, idx, n, key, Last(pages).Child(n));
    }
    BracketChild(intKey, root, h, pages, ButLast(idx) + [n], key);
    ChildHasCells(root, h, pages, ButLast(idx) + [n]);
  }

  lemma ChildHasCells(root: Node, h: nat, pages: seq<Node>, idx: seq<nat>)
    requires IsPath(root, h, pages, idx) && Last(pages).Interior?
    ensures Last(pages).Child(Last(idx)).NCell() > 0
  {
    Push(true, root, h, pages, idx, 0);
  }

  /** A path goes on below the last page of another one, by right pointers only. */
  ghost predicate RightmostBelow(pages: seq<Node>, idx: seq<nat>, pages': seq<Node>, idx': seq<nat>) {
    && 0 < |pages| == |idx| <= |pages'| == |idx'|
    && pages <= pages' && ButLast(idx) <= idx'
    && forall i {:trigger pages'[i]} :: |pages| - 1 <= i < |pages'| - 1 ==> idx'[i] == pages'[i].NCell()
  }

  /** A path goes on below the selected child of another one, by right pointers only, to a last cell. */
  ghost predicate LastBelowChild(pages: seq<Node>, idx: seq<nat>, pages': seq<Node>, idx': seq<nat>) {
    && 0 < |pages| == |idx| < |pages'| == |idx'| && pages <= pages' && idx <= idx'
    && (forall i {:trigger pages'[i]} :: |pages| <= i < |pages'| - 1 ==> idx'[i] == pages'[i].NCell())
    && Last(pages').Leaf? && Last(idx') + 1 == Last(pages').NCell()
  }

  lemma RightmostSelf(pages: seq<Node>, idx: seq<nat>)
    requires 0 < |pages| == |idx|
    ensures RightmostBelow(pages, idx, pages, idx)
  {}

  // The index into the last page does not matter.
  lemma RightmostAt(pages: seq<Node>, idx: seq<nat>, pages': seq<Node>, idx': seq<nat>, n: nat)
    requires RightmostBelow(pages, idx, pages', idx')
    ensures RightmostBelow(pages, idx, pages', ButLast(idx') + [n])
  {
    var idx2 := ButLast(idx') + [n];
    forall i | 0 <= i < |idx| - 1
      ensures idx2[i] == idx[i]
    {
      assert idx'[i] == ButLast(idx)[i];
    }
  }

  lemma RightmostFurther(pages: seq<Node>, idx: seq<nat>, pages': seq<Node>, idx': seq<nat>, child: Node)
    requires RightmostBelow(pages, idx, pages', idx')
    ensures RightmostBelow(pages, idx, pages' + [child], ButLast(idx') + [Last(pages').NCell()] + [0])
  {
    var idx1 := ButLast(idx') + [Last(pages').NCell()];
    RightmostAt(pages, idx, pages', idx', Last(pages').NCell());
    var pages2, idx2 := pages' + [child], idx1 + [0];
    forall i {:trigger pages2[i]} | |pages| - 1 <= i < |pages2| - 1
      ensures idx2[i] == pages2[i].NCell()
    {
      if i < |pages'| - 1 {
        assert pages2[i] == pages'[i] && idx2[i] == idx1[i];
      }
    }
  }

  lemma RightmostIsBelow(pages: seq<Node>, idx: seq<nat>, child: Node, pages': seq<Node>, idx': seq<nat>)
    requires 0 < |pages| == |idx| && RightmostBelow(pages + [child], idx + [0], pages', idx') && Last(pages').Leaf?
    requires Last(idx') + 1 == Last(pages').NCell()
    ensures LastBelowChild(pages, idx, pages', idx')
  {
    assert ButLast(idx + [0]) == idx;
  }

  // ----- Steps in terms of keys -----

  /** The path is at the first entry above the key; eof when there is none. */
  ghost predicate FirstAbove(intKey: bool, root: Node, h: nat, pages: seq<Node>, idx: seq<nat>, eof: bool, key: Key) {
    var es := Entries(intKey, root);
    if eof then AllAtMost(es, key)
    else
      && AtEntry(intKey, root, h, pages, idx)
      && var n := Position(intKey, root, h, pages, idx);
        n < |es| && es[n].key > key && AllAtMost(es[..n], key)
  }

  /** The path is at the last entry below the key; bof when there is none. */
  ghost predicate LastBelow(intKey: bool, root: Node, h: nat, pages: seq<Node>, idx: seq<nat>, bof: bool, key: Key) {
    var es := Entries(intKey, root);
    if bof then forall i :: 0 <= i < |es| ==> es[i].key >= key
    else
      && AtEntry(intKey, root, h, pages, idx)
      && var n := Position(intKey, root, h, pages, idx);
        n < |es| && es[n].key < key && forall i :: n < i < |es| ==> es[i].key >= key
  }

  lemma SoughtState(intKey: bool, root: Node, h: nat, eState: State, pages: seq<Node>, idx: seq<nat>, key: Key,
                    res: int)
    requires Sought(intKey, root, h, eState, pages, idx, key, res)
    ensures eState == INVALID <==> Entries(intKey, root) == []
    ensures eState != INVALID ==> Sought(intKey, root, h, VALID, pages, idx, key, res)
    ensures eState != INVALID && res == 0 ==>
      AtEntry(intKey, root, h, pages, idx) && Last(pages).CellAt(Last(idx)).key == key
  {
    if eState != INVALID {
      EntryAtPosition(intKey, root, h, pages, idx);
    }
  }

  lemma NothingAbove(intKey: bool, root: Node, h: nat, pages: seq<Node>, idx: seq<nat>, key: Key)
    requires Entries(intKey, root) == []
    ensures FirstAbove(intKey, root, h, pages, idx, true, key)
  {}

  lemma NothingBelow(intKey: bool, root: Node, h: nat, pages: seq<Node>, idx: seq<nat>, key: Key)
    requires Entries(intKey, root) == []
    ensures LastBelow(intKey, root, h, pages, idx, true, key)
  {}

  // From the entry to the key: the entry itself when it is above, and otherwise the last one not above.
  lemma SoughtAbove(intKey: bool, root: Node, h: nat, pages: seq<Node>, idx: seq<nat>, key: Key, res: int)
    requires Sought(intKey, root, h, VALID, pages, idx, key, res) && res != 0 && Ordered(intKey, root)
    requires AtEntry(intKey, root, h, pages, idx)
    ensures res > 0 ==> FirstAbove(intKey, root, h, pages, idx, false, key)
    ensures res < 0 ==> LastNotAbove(intKey, root, h, pages, idx, key)
  {
    EntryAtPosition(intKey, root, h, pages, idx);
    hide Position, AtEntry, Entries;
  }

  lemma SoughtBelow(intKey: bool, root: Node, h: nat, pages: seq<Node>, idx: seq<nat>, key: Key, res: int)
    requires Sought(intKey, root, h, VALID, pages, idx, key, res) && res != 0 && Ordered(intKey, root)
    requires AtEntry(intKey, root, h, pages, idx)
    ensures res < 0 ==> LastBelow(intKey, root, h, pages, idx, false, key)
    ensures res > 0 ==> FirstNotBelow(intKey, root, h, pages, idx, key)
  {
    EntryAtPosition(intKey, root, h, pages, idx);
    hide Position, AtEntry, Entries;
  }

  ghost predicate LastNotAbove(intKey: bool, root: Node, h: nat, pages: seq<Node>, idx: seq<nat>, key: Key) {
    && AtEntry(intKey, root, h, pages, idx)
    && var es, n := Entries(intKey, root), Position(intKey, root, h, pages, idx);
      n < |es| && AllAtMost(es[..n + 1], key) && AllAbove(es[n + 1..], key)
  }

  ghost predicate FirstNotBelow(intKey: bool, root: Node, h: nat, pages: seq<Node>, idx: seq<nat>, key: Key) {
    && AtEntry(intKey, root, h, pages, idx)
    && var es, n := Entries(intKey, root), Position(intKey, root, h, pages, idx);
      n < |es| && AllBelow(es[..n], key) && forall i :: n <= i < |es| ==> es[i].key >= key
  }

  // The entry with the key itself is the last one not above and the first one not below.
  lemma OwnKey(intKey: bool, root: Node, h: nat, pages: seq<Node>, idx: seq<nat>)
    requires AtEntry(intKey, root, h, pages, idx) && Ordered(intKey, root)
    ensures LastNotAbove(intKey, root, h, pages, idx, Last(pages).CellAt(Last(idx)).key)
    ensures FirstNotBelow(intKey, root, h, pages, idx, Last(pages).CellAt(Last(idx)).key)
  {
    EntryAtPosition(intKey, root, h, pages, idx);
    AroundEntry(Entries(intKey, root), Position(intKey, root, h, pages, idx));
    hide Position, Entries, AtEntry, Ordered, AllAtMost, AllAbove, AllBelow;
  }

  lemma AroundEntry(es: seq<Cell>, n: nat)
    requires Ascending(es) && n < |es|
    ensures AllAtMost(es[..n + 1], es[n].key) && AllAbove(es[n + 1..], es[n].key)
    ensures AllBelow(es[..n], es[n].key) && forall i :: n <= i < |es| ==> es[i].key >= es[n].key
  {}

  lemma StepIsFirstAbove(intKey: bool, root: Node, h: nat, from: seq<Node>, fromIdx: seq<nat>,
                         pages: seq<Node>, idx: seq<nat>, eof: bool, key: Key)
    requires LastNotAbove(intKey, root, h, from, fromIdx, key)
    requires ArrivedAt(intKey, root, h, pages, idx, eof, Passed(intKey, root, h, from, fromIdx))
    ensures FirstAbove(intKey, root, h, pages, idx, eof, key)
    ensures !eof ==> AtEntry(intKey, root, h, pages, idx)
  {
    if !eof {
      EntryAtPosition(intKey, root, h, pages, idx);
    }
    hide Position, Entries, AtEntry;
    var es, n := Entries(intKey, root), Position(intKey, root, h, from, fromIdx);
    forall i | 0 <= i < n + 1
      ensures es[i].key <= key
    {
      assert es[..n + 1][i].key <= key;
    }
    if !eof {
      assert es[n + 1..][0].key > key;
    }
  }

  lemma StepIsLastBelow(intKey: bool, root: Node, h: nat, from: seq<Node>, fromIdx: seq<nat>,
                        pages: seq<Node>, idx: seq<nat>, bof: bool, key: Key)
    requires FirstNotBelow(intKey, root, h, from, fromIdx, key)
    requires WentBack(intKey, root, h, pages, idx, bof, Position(intKey, root, h, from, fromIdx))
    ensures LastBelow(intKey, root, h, pages, idx, bof, key)
    ensures !bof ==> AtEntry(intKey, root, h, pages, idx)
  {
    if !bof {
      EntryAtPosition(intKey, root, h, pages, idx);
      hide Position, Entries, AtEntry;
      var es, n := Entries(intKey, root), Position(intKey, root, h, from, fromIdx);
      assert es[..n][n - 1].key < key;
    }
  }

  lemma FlagsCleared(intKey: bool, root: Node, h: nat, pages: seq<Node>, idx: seq<nat>, validNKey: bool, atLast: bool)
    requires FlagsOk(intKey, root, h, VALID, pages, idx, validNKey, atLast)
    ensures FlagsOk(intKey, root, h, VALID, pages, idx, false, atLast)
  {}

  lemma BackFromEnd(intKey: bool, root: Node, h: nat, pages: seq<Node>, idx: seq<nat>, none: bool)
    requires none == (|Entries(intKey, root)| == 0)
    requires !none ==> ArrivedAt(intKey, root, h, pages, idx, false, |Entries(intKey, root)| - 1)
    ensures WentBack(intKey, root, h, pages, idx, none, |Entries(intKey, root)|)
  {}

  lemma BackEntry(intKey: bool, root: Node, h: nat, pages: seq<Node>, idx: seq<nat>, n: nat)
    requires WentBack(intKey, root, h, pages, idx, false, n)
    ensures AtEntry(intKey, root, h, pages, idx) && Position(intKey, root, h, pages, idx) == n - 1
    ensures n - 1 < |Entries(intKey, root)|
    ensures Entries(intKey, root)[n - 1..] == [Last(pages).CellAt(Last(idx))] + Entries(intKey, root)[n..]
  {
    EntryAtPosition(intKey, root, h, pages, idx);
  }

  lemma BackDone(intKey: bool, root: Node, h: nat, pages: seq<Node>, idx: seq<nat>, n: nat)
    requires WentBack(intKey, root, h, pages, idx, true, n)
    ensures n == 0
  {}

  class BtCursor {
    const intKey: bool
    var root: Node
    ghost var h: nat
    var eState: State
    var apPage: seq<Node>       // the pages from the root to the current one
    var aiIdx: seq<nat>         // the index of the current cell or child in each of them
    var validNKey: bool         // infoKey is the key of the current entry
    var infoKey: Key
    var atLast: bool            // the cursor is at the last entry
    var nKey: Key               // the key of a saved position
    var skipNext: int           // how the entry found for a saved position compares with its key

    /** The tree is in order, and so is what a cursor on some cell remembers. */
    ghost predicate Usable()
      reads this
    {
      && Wf(root, h) && Ordered(intKey, root)
      && (eState == VALID ==> FlagsOk(intKey, root, h, VALID, apPage, aiIdx, validNKey, atLast))
    }

    ghost predicate Valid()
      reads this
    {
      && Usable()
      && (eState == VALID || eState == SKIPNEXT ==> AtEntry(intKey, root, h, apPage, aiIdx))
      && FlagsOk(intKey, root, h, eState, apPage, aiIdx, validNKey, atLast)
      && (eState == INVALID || eState == SKIPNEXT ==> !validNKey)
      && (eState == SKIPNEXT ==> skipNext != 0 && Sought(intKey, root, h, VALID, apPage, aiIdx, nKey, skipNext))
    }

    /** The key that the cursor stands for: of its entry, or of its saved position. */
    ghost function CurrentKey(): Key
      requires Valid() && eState != INVALID
      reads this
    {
      if eState == VALID then Last(apPage).CellAt(Last(aiIdx)).key else nKey
    }

    // Go down to a child of the current page.
    method MoveToChild(child: Node)
      requires IsPath(root, h, apPage, aiIdx) && Last(apPage).Interior? && child == Last(apPage).Child(Last(aiIdx))
      modifies this`apPage, this`aiIdx, this`validNKey
      ensures IsPath(root, h, apPage, aiIdx) && apPage == old(apPage) + [child] && aiIdx == old(aiIdx) + [0]
        && child.NCell() > 0
      ensures |apPage| <= h + 1 && !validNKey
    {
      Push(intKey, root, h, apPage, aiIdx, 0);
      apPage := apPage + [child];
      aiIdx := aiIdx + [0];
      validNKey := false;
    }

    method MoveToParent()
      requires IsPath(root, h, apPage, aiIdx) && |apPage| > 1
      modifies this`apPage, this`aiIdx, this`validNKey
      ensures IsPath(root, h, apPage, aiIdx) && apPage == ButLast(old(apPage)) && aiIdx == ButLast(old(aiIdx))
        && Last(apPage).Interior?
      ensures !validNKey
    {
      Pop(intKey, root, h, apPage, aiIdx);
      apPage := ButLast(apPage);
      aiIdx := ButLast(aiIdx);
      validNKey := false;
    }

    // Go down to the leftmost leaf below the current child, or stay on the leaf.
    method MoveToLeftmost()
      requires IsPath(root, h, apPage, aiIdx) && Last(aiIdx) < Last(apPage).NCell()
      modifies this`apPage, this`aiIdx, this`validNKey
      ensures AtEntry(intKey, root, h, apPage, aiIdx) && Last(apPage).Leaf?
      ensures Position(intKey, root, h, apPage, aiIdx) == old(StartOf(intKey, root, h, apPage, aiIdx))
      ensures validNKey ==> old(validNKey)
    {
      hide Entries, Base, Wf, StartOf, Position, AtEntry;
      ghost var target := StartOf(intKey, root, h, apPage, aiIdx);
      while Last(apPage).Interior?
        invariant IsPath(root, h, apPage, aiIdx) && Last(aiIdx) < Last(apPage).NCell()
          && StartOf(intKey, root, h, apPage, aiIdx) == target
        invariant validNKey ==> old(validNKey)
        decreases h + 1 - |apPage|
      {
        EnterFirst(intKey, root, h, apPage, aiIdx);
        MoveToChild(Last(apPage).slots[Last(aiIdx)].child);
      }
      LeafPosition(intKey, root, h, apPage, aiIdx);
    }

    // Go to the last entry below the current page.
    method MoveToRightmost()
      requires IsPath(root, h, apPage, aiIdx) && Last(apPage).NCell() > 0
      modifies this`apPage, this`aiIdx, this`validNKey
      ensures AtEntry(intKey, root, h, apPage, aiIdx) && Last(apPage).Leaf?
      ensures Position(intKey, root, h, apPage, aiIdx) == old(EndOf(intKey, root, h, apPage, aiIdx)) - 1
      ensures validNKey ==> old(validNKey)
      ensures RightmostBelow(old(apPage), old(aiIdx), apPage, aiIdx) && Last(aiIdx) + 1 == Last(apPage).NCell()
    {
      hide Entries, Base, Wf, EndOf, Position, AtEntry, RightmostBelow;
      ghost var pages0, idx0 := apPage, aiIdx;
      RightmostSelf(apPage, aiIdx);
      ghost var target := EndOf(intKey, root, h, apPage, aiIdx);
      while Last(apPage).Interior?
        invariant IsPath(root, h, apPage, aiIdx) && Last(apPage).NCell() > 0
          && EndOf(intKey, root, h, apPage, aiIdx) == target
        invariant validNKey ==> old(validNKey)
        invariant RightmostBelow(pages0, idx0, apPage, aiIdx)
        decreases h + 1 - |apPage|
      {
        EnterLast(intKey, root, h, apPage, aiIdx);
        RightmostFurther(pages0, idx0, apPage, aiIdx, Last(apPage).right);
        aiIdx := ButLast(aiIdx) + [Last(apPage).NCell()];
        MoveToChild(Last(apPage).right);
      }
      LastOfLeaf(intKey, root, h, apPage, aiIdx);
      RightmostAt(pages0, idx0, apPage, aiIdx, Last(apPage).NCell() - 1);
      var n: nat := Last(apPage).NCell() - 1;
      aiIdx := ButLast(aiIdx) + [n];
    }

    // Go back to the root, or to its only child when the root itself has no cells.
    method MoveToRoot()
      requires Wf(root, h)
      modifies this`apPage, this`aiIdx, this`validNKey, this`eState, this`atLast
      ensures eState == if |Entries(intKey, root)| == 0 then INVALID else VALID
      ensures eState == VALID ==> IsPath(root, h, apPage, aiIdx) && Last(aiIdx) == 0 && Last(apPage).NCell() > 0
      ensures eState == VALID ==>
        StartOf(intKey, root, h, apPage, aiIdx) == 0 && EndOf(intKey, root, h, apPage, aiIdx) == |Entries(intKey, root)|
      ensures eState == VALID ==> |apPage| == 1 || (|apPage| == 2 && root.NCell() == 0)
      ensures eState == INVALID ==> apPage == [root] && aiIdx == [0] && root == Leaf([])
      ensures !validNKey && !atLast
    {
      apPage, aiIdx := [root], [0];
      atLast, validNKey := false, false;
      BaseOfRoot(intKey, root);
      if root.NCell() > 0 {
        eState := VALID;
        EntriesNonempty(intKey, root, h);
      } else if root.Interior? {
        eState := VALID;
        EntriesNonempty(intKey, root, h);
        Push(intKey, root, h, apPage, aiIdx, 0);
        MoveToChild(root.right);
        assert ButLast(apPage) == [root] && ButLast(aiIdx) == [0];
        EndOfChild(intKey, root, h, apPage, aiIdx);
      } else {
        eState := INVALID;
      }
    }

    /** Go to the first entry; res tells that there is none. */
    method First() returns (res: bool)
      requires Usable()
      modifies this`apPage, this`aiIdx, this`validNKey, this`eState, this`atLast
      ensures Valid() && eState == if res then INVALID else VALID
      ensures res == (|Entries(intKey, root)| == 0)
      ensures !res ==> ArrivedAt(intKey, root, h, apPage, aiIdx, false, 0)
      ensures !validNKey
    {
      hide Position, Entries, Wf, Ordered, Base;
      MoveToRoot();
      if eState == INVALID {
        res := true;
      } else {
        res := false;
        MoveToLeftmost();
      }
    }

    /** Go to the last entry; res tells that there is none. */
    method GoToLast() returns (res: bool)
      requires Usable()
      modifies this`apPage, this`aiIdx, this`validNKey, this`eState, this`atLast
      ensures Valid() && eState == if res then INVALID else VALID
      ensures res == (|Entries(intKey, root)| == 0)
      ensures !res ==> atLast && ArrivedAt(intKey, root, h, apPage, aiIdx, false, |Entries(intKey, root)| - 1)
      ensures validNKey ==> old(validNKey) && old(eState) == VALID
    {
      hide Position, Entries, Wf, Ordered, Base;
      if eState == VALID && atLast {
        SomeEntry(intKey, root, h, apPage, aiIdx);
        return false;
      }
      MoveToRoot();
      if eState == INVALID {
        res := true;
      } else {
        res := false;
        MoveToRightmost();
        atLast := true;
      }
    }

    // The key of the current entry of a rowid tree; the cursor remembers it.
    method KeySize() returns (k: Key)
      requires Valid() && eState == VALID && intKey
      modifies this`validNKey, this`infoKey
      ensures Valid() && k == CurrentKey() && validNKey && infoKey == k
    {
      k := Last(apPage).CellAt(Last(aiIdx)).key;
      validNKey, infoKey := true, k;
    }

    /**
    Go to the next entry; res tells that there is none. From a separator of a rowid tree, which is not an entry
    itself, go to the entry that follows it.
    */
    method StepNext() returns (res: bool)
      requires eState == VALID && AtCell(root, h, apPage, aiIdx)
      modifies this`apPage, this`aiIdx, this`validNKey, this`eState
      ensures eState == if res then INVALID else VALID
      ensures ArrivedAt(intKey, root, h, apPage, aiIdx, res, old(Passed(intKey, root, h, apPage, aiIdx)))
      ensures !validNKey
      decreases |apPage|, 1
    {
      hide Position, Passed, StartOf, Entries, Wf, AtEntry, ArrivedAt;
      validNKey := false;
      if Last(aiIdx) + 1 >= Last(apPage).NCell() {
        res := NextPage();
      } else {
        res := false;
        StepWithin(intKey, root, h, apPage, aiIdx);
        aiIdx := ButLast(aiIdx) + [Last(aiIdx) + 1];
        if Last(apPage).Interior? {
          MoveToLeftmost();
        }
        Arrive(intKey, root, h, apPage, aiIdx);
      }
    }

    // Step on from the last cell of a page.
    method NextPage() returns (res: bool)
      requires eState == VALID && AtCell(root, h, apPage, aiIdx) && Last(aiIdx) + 1 == Last(apPage).NCell()
      requires !validNKey
      modifies this`apPage, this`aiIdx, this`validNKey, this`eState
      ensures eState == if res then INVALID else VALID
      ensures ArrivedAt(intKey, root, h, apPage, aiIdx, res, old(Passed(intKey, root, h, apPage, aiIdx)))
      ensures !validNKey
      decreases |apPage|, 0
    {
      hide Position, Passed, EndOf, StartOf, Entries, Base, Wf, AtEntry, ArrivedAt;
      ghost var idx := aiIdx;
      aiIdx := ButLast(aiIdx) + [Last(aiIdx) + 1];
      if Last(apPage).Interior? {
        EnterRightChild(intKey, root, h, apPage, idx);
        MoveToChild(Last(apPage).right);
        MoveToLeftmost();
        Arrive(intKey, root, h, apPage, aiIdx);
        return false;
      }
      PassedLast(intKey, root, h, apPage, idx);
      res := LeavePage();
      if res {
        ArriveEnd(intKey, root, h, apPage, aiIdx);
      } else {
        ArriveInterior(intKey, root, h, apPage, aiIdx);
        if intKey {
          res := StepNext();
        }
      }
    }

    // Go up from a page that has been passed, to the first cell not yet passed.
    method LeavePage() returns (res: bool)
      requires eState == VALID && IsPath(root, h, apPage, aiIdx)
      modifies this`apPage, this`aiIdx, this`validNKey, this`eState
      ensures validNKey ==> old(validNKey)
      ensures eState == if res then INVALID else VALID
      ensures if res then old(EndOf(intKey, root, h, apPage, aiIdx)) == |Entries(intKey, root)|
              else AtCell(root, h, apPage, aiIdx) && Last(apPage).Interior? && |apPage| < old(|apPage|)
                   && Position(intKey, root, h, apPage, aiIdx) == old(EndOf(intKey, root, h, apPage, aiIdx))
    {
      ghost var target := EndOf(intKey, root, h, apPage, aiIdx);
      var first := true;
      while first || Last(aiIdx) >= Last(apPage).NCell()
        invariant IsPath(root, h, apPage, aiIdx) && eState == VALID && (validNKey ==> old(validNKey))
        invariant first || Last(aiIdx) >= Last(apPage).NCell() ==> EndOf(intKey, root, h, apPage, aiIdx) == target
        invariant first || (|apPage| < old(|apPage|) && Last(apPage).Interior?)
        invariant first ==> |apPage| == old(|apPage|)
        invariant !first && Last(aiIdx) < Last(apPage).NCell() ==> Position(intKey, root, h, apPage, aiIdx) == target
        decreases |apPage|
      {
        if |apPage| == 1 {
          EndOfRoot(intKey, root, h, apPage, aiIdx);
          eState := INVALID;
          return true;
        }
        EndOfChild(intKey, root, h, apPage, aiIdx);
        MoveToParent();
        first := false;
      }
      res := false;
    }

    // Go back one entry: the sibling of Next, with the same treatment of separators.
    method StepPrevious() returns (res: bool)
      requires eState == VALID && AtCell(root, h, apPage, aiIdx)
      modifies this`apPage, this`aiIdx, this`validNKey, this`eState, this`atLast
      ensures eState == if res then INVALID else VALID
      ensures WentBack(intKey, root, h, apPage, aiIdx, res, old(Position(intKey, root, h, apPage, aiIdx)))
      ensures !validNKey && !atLast
      ensures old(Last(apPage).Interior?) ==> !res && LastBelowChild(old(apPage), old(aiIdx), apPage, aiIdx)
      decreases |apPage|
    {
      hide Position, Passed, EndOf, StartOf, Entries, Base, Wf, AtEntry, ArrivedAt, WentBack, RightmostBelow,
        LastBelowChild;
      atLast, validNKey := false, false;
      if Last(apPage).Interior? {
        EnterLeftChild(intKey, root, h, apPage, aiIdx);
        ghost var pages0, idx0, child := apPage, aiIdx, Last(apPage).slots[Last(aiIdx)].child;
        MoveToChild(Last(apPage).slots[Last(aiIdx)].child);
        MoveToRightmost();
        RightmostIsBelow(pages0, idx0, child, apPage, aiIdx);
        BackBelow(intKey, root, h, apPage, aiIdx);
        return false;
      }
      LeafStart(intKey, root, h, apPage, aiIdx);
      res := LeaveFirst();
      if res {
        BackAtStart(intKey, root, h, apPage, aiIdx);
        return true;
      }
      ghost var idx := aiIdx;
      aiIdx := ButLast(aiIdx) + [Last(aiIdx) - 1];
      assert ButLast(aiIdx) == ButLast(idx);
      StepBack(intKey, root, h, apPage, idx, aiIdx);
      BackAtEntry(intKey, root, h, apPage, aiIdx);
      if intKey && Last(apPage).Interior? {
        res := StepPrevious();
      }
    }

    // Go up from index 0 of a page, to the first page where there is a cell before the index.
    method LeaveFirst() returns (res: bool)
      requires eState == VALID && AtCell(root, h, apPage, aiIdx) && Last(apPage).Leaf?
      modifies this`apPage, this`aiIdx, this`validNKey, this`eState
      ensures eState == if res then INVALID else VALID
      ensures validNKey ==> old(validNKey)
      ensures if res then old(StartOf(intKey, root, h, apPage, aiIdx)) == 0
              else IsPath(root, h, apPage, aiIdx) && Last(aiIdx) > 0
                   && StartOf(intKey, root, h, apPage, aiIdx) == old(StartOf(intKey, root, h, apPage, aiIdx))
      ensures !res && Last(apPage).Interior? ==> |apPage| < old(|apPage|)
    {
      hide StartOf, Wf, Entries, Base;
      ghost var target := StartOf(intKey, root, h, apPage, aiIdx);
      while Last(aiIdx) == 0
        invariant IsPath(root, h, apPage, aiIdx) && eState == VALID && (validNKey ==> old(validNKey))
        invariant StartOf(intKey, root, h, apPage, aiIdx) == target
        invariant |apPage| <= old(|apPage|)
        invariant |apPage| == old(|apPage|) ==> Last(apPage).Leaf?
        decreases |apPage|
      {
        StartOfPage(intKey, root, h, apPage, aiIdx);
        if |apPage| == 1 {
          eState := INVALID;
          return true;
        }
        MoveToParent();
      }
      res := false;
    }

    // Search the current page: idx is the last cell compared and c its comparison with the key.
    method SearchPage(key: Key, biasRight: bool) returns (lwr: nat, idx: nat, c: int)
      requires apPage != [] && Last(apPage).NCell() > 0
      ensures idx < Last(apPage).NCell() && lwr <= Last(apPage).NCell()
      ensures c == 0 ==> lwr == idx && Last(apPage).CellAt(idx).key == key
      ensures c < 0 ==> lwr == idx + 1
      ensures c > 0 ==> lwr == idx
      ensures c != 0 && lwr > 0 ==> Last(apPage).CellAt(lwr - 1).key < key
      ensures c != 0 && lwr < Last(apPage).NCell() ==> Last(apPage).CellAt(lwr).key > key
    {
      var page := Last(apPage);
      var upr: int := page.NCell() - 1;
      lwr := 0;
      idx := if biasRight then upr else upr / 2;
      while true
        invariant 0 <= lwr <= idx <= upr < page.NCell()
        invariant lwr > 0 ==> page.CellAt(lwr - 1).key < key
        invariant upr + 1 < page.NCell() ==> page.CellAt(upr + 1).key > key
        decreases upr - lwr
      {
        var nCellKey := page.CellAt(idx).key;
        if nCellKey < key {
          lwr := idx + 1;
          if lwr > upr {
            c := -1;
            return;
          }
        } else if nCellKey > key {
          upr := idx - 1;
          if lwr > upr {
            c := 1;
            return;
          }
        } else {
          lwr := idx;
          c := 0;
          return;
        }
        idx := (lwr + upr) / 2;
      }
    }

    /**
    Search for a key. The result is 0 at the entry with the key; otherwise the cursor is left at a neighbour of the
    place where the key would be, and the result tells how that entry compares with the key. A cursor that remembers
    the key, or at the last entry a smaller one, answers at once: that is right just when its entry agrees.
    */
    method MovetoUnpacked(key: Key, biasRight: bool) returns (res: int)
      requires Usable()
      modifies this`apPage, this`aiIdx, this`validNKey, this`eState, this`atLast
      ensures Valid() && (eState == VALID || eState == INVALID)
      ensures old(SeekRight(key)) <==> Sought(intKey, root, h, eState, apPage, aiIdx, key, res)
      ensures old(SeekRight(key)) && eState == VALID && res != 0 ==>
        WellPlaced(intKey, root, h, apPage, aiIdx, key, res)
      ensures eState == INVALID ==> apPage == [root] && aiIdx == [0] && root == Leaf([])
      ensures if old(SeeksInPlace(intKey, eState, validNKey, infoKey, atLast, key))
        then apPage == old(apPage) && aiIdx == old(aiIdx) && eState == VALID && validNKey && atLast == old(atLast)
             && res == if infoKey == key then 0 else -1
        else !validNKey && !atLast
    {
      hide Position, EndOf, StartOf, Entries, Base, Wf, ArrivedAt, Sought, Ordered, Routed, WellPlaced;
      if eState == VALID && validNKey && intKey {
        if infoKey == key {
          SoughtInPlace(root, h, apPage, aiIdx, infoKey, atLast, key);
          return 0;
        }
        if atLast && infoKey < key {
          SoughtInPlace(root, h, apPage, aiIdx, infoKey, atLast, key);
          return -1;
        }
      }
      MoveToRoot();
      if eState == INVALID {
        res := -1;
        SoughtNone(intKey, root, h, apPage, aiIdx, key);
      } else {
        BracketAll(intKey, root, h, apPage, aiIdx, key);
        res := Descend(key, biasRight);
        SoughtIsEntry(intKey, root, h, apPage, aiIdx, key, res);
        validNKey := false;
      }
    }

    /** A search will not be misled by what the cursor remembers. */
    predicate SeekRight(key: Key)
      requires Usable()
      reads this
    {
      SeeksInPlace(intKey, eState, validNKey, infoKey, atLast, key) ==>
        var cur := Last(apPage).CellAt(Last(aiIdx)).key;
        if infoKey == key then cur == key else cur < key
    }

    // Search from the current page down.
    method Descend(key: Key, biasRight: bool) returns (res: int)
      requires Searching(intKey, root, h, apPage, aiIdx, key)
      modifies this`apPage, this`aiIdx, this`validNKey
      ensures Sought(intKey, root, h, VALID, apPage, aiIdx, key, res)
      ensures res != 0 ==> WellPlaced(intKey, root, h, apPage, aiIdx, key, res)
    {
      hide Searching, Sought, IsPath, AtEntry, WellPlaced;
      SearchPages(intKey, root, h, apPage, aiIdx, key);
      while true
        invariant Searching(intKey, root, h, apPage, aiIdx, key)
        invariant 0 < |apPage| == |aiIdx| <= h + 1 && Last(apPage).NCell() > 0
        decreases h + 1 - |apPage|
      {
        var page := Last(apPage);
        var lwr, idx, c := SearchPage(key, biasRight);
        if c == 0 && (page.Leaf? || !intKey) {
          FoundHere(intKey, root, h, apPage, aiIdx, key, idx);
          aiIdx := ButLast(aiIdx) + [idx];
          return 0;
        }
        if page.Leaf? {
          StopHere(intKey, root, h, apPage, aiIdx, key, idx, lwr, c);
          aiIdx := ButLast(aiIdx) + [idx];
          return c;
        }
        GoDown(intKey, root, h, apPage, aiIdx, key, lwr);
        aiIdx := ButLast(aiIdx) + [lwr];
        MoveToChild(page.Child(lwr));
        SearchPages(intKey, root, h, apPage, aiIdx, key);
      }
    }

    // ----- A position that outlives changes of the tree -----

    /** Remember the key of the current entry and let go of the pages. */
    method SaveCursorPosition()
      requires Valid() && eState == VALID
      modifies this`eState, this`nKey, this`apPage, this`aiIdx, this`validNKey, this`infoKey
      ensures Valid() && eState == REQUIRESEEK && CurrentKey() == old(CurrentKey())
      ensures apPage == [] && aiIdx == [] && (validNKey ==> intKey)
    {
      if intKey {
        nKey := KeySize();
      } else {
        nKey := Last(apPage).CellAt(Last(aiIdx)).key;
      }
      apPage, aiIdx := [], [];
      eState := REQUIRESEEK;
    }

    /** Let go of the entry. The pages stay, and so does the key that is remembered. */
    method ClearCursor()
      requires Usable()
      modifies this`eState
      ensures Usable() && eState == INVALID
      ensures old(eState) == VALID && validNKey ==> AtEntry(true, root, h, apPage, aiIdx)
    {
      eState := INVALID;
    }

    /** Another cursor changes the tree, in any way: this one, which has been saved or is nowhere, keeps no pages. */
    method TreeChanged(root': Node, ghost h': nat)
      requires Usable() && (eState == INVALID || eState == REQUIRESEEK)
      requires Wf(root', h') && Ordered(intKey, root')
      modifies this`root, this`h, this`apPage, this`aiIdx
      ensures Usable() && root == root' && h == h' && apPage == [] && aiIdx == []
      ensures old(Valid()) ==> Valid() && (eState == REQUIRESEEK ==> CurrentKey() == old(CurrentKey()))
    {
      apPage, aiIdx := [], [];
      root, h := root', h';
    }

    /** Go back to the saved position, or to an entry next to where it was. */
    method RestoreCursorPosition()
      requires Valid() && eState == REQUIRESEEK
      modifies this`apPage, this`aiIdx, this`validNKey, this`eState, this`atLast, this`skipNext
      ensures Valid() && eState != REQUIRESEEK && !validNKey
      ensures eState == INVALID <==> Entries(intKey, root) == []
      ensures eState == INVALID || eState == SKIPNEXT || Last(apPage).CellAt(Last(aiIdx)).key == nKey
    {
      hide Position, Entries, Wf, AtEntry, Ordered;
      eState := INVALID;
      skipNext := MovetoUnpacked(nKey, false);
      SoughtState(intKey, root, h, eState, apPage, aiIdx, nKey, skipNext);
      if skipNext != 0 && eState == VALID {
        eState := SKIPNEXT;
      }
    }

    /** sqlite3BtreeCursorRestore: whether the saved entry is still there. */
    method CursorRestore() returns (differentRow: bool)
      requires Valid() && (eState == REQUIRESEEK || eState == SKIPNEXT)
      modifies this`apPage, this`aiIdx, this`validNKey, this`eState, this`atLast, this`skipNext
      ensures Valid() && eState != REQUIRESEEK && !validNKey && (differentRow <==> eState != VALID)
      ensures eState == INVALID <==> Entries(intKey, root) == []
      ensures eState != INVALID ==> CurrentKey() == nKey
    {
      hide Position, Wf, Ordered, Sought;
      if eState == REQUIRESEEK {
        RestoreCursorPosition();
      } else {
        EntryAtPosition(intKey, root, h, apPage, aiIdx);
      }
      differentRow := eState != VALID;
    }

    // The start of a step from a position that is not current: done when that was the whole step.
    method Resume(forward: bool) returns (done: bool)
      requires Valid() && eState != VALID
      modifies this`apPage, this`aiIdx, this`validNKey, this`eState, this`atLast, this`skipNext
      ensures Valid() && (eState == VALID || (eState == INVALID && done))
      ensures validNKey ==> old(validNKey)
      ensures eState == INVALID ==> old(eState) == INVALID || Entries(intKey, root) == []
      ensures old(eState) == INVALID ==> eState == INVALID
      ensures eState == VALID && forward ==>
        if done then FirstAbove(intKey, root, h, apPage, aiIdx, false, nKey)
        else LastNotAbove(intKey, root, h, apPage, aiIdx, nKey)
      ensures eState == VALID && !forward ==>
        if done then LastBelow(intKey, root, h, apPage, aiIdx, false, nKey)
        else FirstNotBelow(intKey, root, h, apPage, aiIdx, nKey)
    {
      hide Position, Entries, Wf, Ordered, ArrivedAt, FirstAbove, LastBelow, LastNotAbove, FirstNotBelow, Sought;
      if eState == REQUIRESEEK {
        RestoreCursorPosition();
      }
      if eState == INVALID {
        return true;
      }
      if eState == SKIPNEXT {
        eState := VALID;
        SoughtAbove(intKey, root, h, apPage, aiIdx, nKey, skipNext);
        SoughtBelow(intKey, root, h, apPage, aiIdx, nKey, skipNext);
        done := if forward then skipNext > 0 else skipNext < 0;
        skipNext := 0;
      } else {
        OwnKey(intKey, root, h, apPage, aiIdx);
        done := false;
      }
    }

    /**
    Go from the entry, or the saved position, to the first entry with a greater key; res tells that there is none.
    */
    method Next() returns (res: bool)
      requires Valid()
      modifies this`apPage, this`aiIdx, this`validNKey, this`eState, this`atLast, this`skipNext
      ensures Valid() && eState == if res then INVALID else VALID
      ensures old(eState) == INVALID ==> res
      ensures old(eState) != INVALID ==> FirstAbove(intKey, root, h, apPage, aiIdx, res, old(CurrentKey()))
      ensures old(eState) == VALID ==>
        ArrivedAt(intKey, root, h, apPage, aiIdx, res, old(Position(intKey, root, h, apPage, aiIdx)) + 1)
      ensures !validNKey
    {
      hide Position, Entries, Wf, Ordered, ArrivedAt, FirstAbove, LastNotAbove, LastBelow, FirstNotBelow, Sought;
      validNKey := false;
      if eState != VALID {
        var done := Resume(true);
        if done {
          if old(eState) != INVALID && eState == INVALID {
            NothingAbove(intKey, root, h, apPage, aiIdx, nKey);
          }
          return eState == INVALID;
        }
      } else {
        OwnKey(intKey, root, h, apPage, aiIdx);
      }
      ghost var pages, idx := apPage, aiIdx;
      FlagsCleared(intKey, root, h, apPage, aiIdx, validNKey, atLast);
      res := StepNext();
      FlagsAfterNext(intKey, root, h, pages, idx, eState, apPage, aiIdx, atLast);
      StepIsFirstAbove(intKey, root, h, pages, idx, apPage, aiIdx, res, old(CurrentKey()));
    }

    /**
    Go from the entry, or the saved position, to the last entry with a smaller key; res tells that there is none.
    */
    method Previous() returns (res: bool)
      requires Valid()
      modifies this`apPage, this`aiIdx, this`validNKey, this`eState, this`atLast, this`skipNext
      ensures Valid() && eState == if res then INVALID else VALID
      ensures old(eState) == INVALID ==> res
      ensures old(eState) != INVALID ==> LastBelow(intKey, root, h, apPage, aiIdx, res, old(CurrentKey()))
      ensures old(eState) == VALID ==>
        WentBack(intKey, root, h, apPage, aiIdx, res, old(Position(intKey, root, h, apPage, aiIdx)))
      ensures !validNKey
    {
      hide Position, Entries, Wf, Ordered, ArrivedAt, FirstAbove, LastNotAbove, LastBelow, FirstNotBelow, Sought,
        WentBack;
      atLast, validNKey := false, false;
      if eState != VALID {
        var done := Resume(false);
        if done {
          if old(eState) != INVALID && eState == INVALID {
            NothingBelow(intKey, root, h, apPage, aiIdx, nKey);
          }
          return eState == INVALID;
        }
      } else {
        OwnKey(intKey, root, h, apPage, aiIdx);
      }
      ghost var pages, idx := apPage, aiIdx;
      res := StepPrevious();
      StepIsLastBelow(intKey, root, h, pages, idx, apPage, aiIdx, res, old(CurrentKey()));
    }

    // ----- Whole runs -----

    /** First and then Next until the end visits every entry once, in key order. */
    method ScanForward() returns (out: seq<Cell>)
      requires Valid()
      modifies this
      ensures Valid() && root == old(root) && out == Entries(intKey, root)
    {
      hide Position, Entries, Wf, Ordered, Sought, FirstAbove;
      out := [];
      var eof := First();
      while !eof
        invariant Valid() && root == old(root) && h == old(h) && eState == if eof then INVALID else VALID
        invariant ArrivedAt(intKey, root, h, apPage, aiIdx, eof, |out|)
        invariant |out| <= |Entries(intKey, root)| && out == Entries(intKey, root)[..|out|]
        decreases |Entries(intKey, root)| - |out|
      {
        EntryAtPosition(intKey, root, h, apPage, aiIdx);
        out := out + [Last(apPage).CellAt(Last(aiIdx))];
        eof := Next();
      }
    }

    /** Last and then Previous until the start visits every entry once, in the opposite order. */
    method ScanBackward() returns (out: seq<Cell>)
      requires Valid()
      modifies this
      ensures Valid() && root == old(root) && out == Entries(intKey, root)
    {
      hide Position, Entries, Wf, Ordered, Sought, LastBelow, ArrivedAt, WentBack;
      out := [];
      var bof := GoToLast();
      ghost var n := |Entries(intKey, root)|;
      BackFromEnd(intKey, root, h, apPage, aiIdx, bof);
      while !bof
        invariant Valid() && root == old(root) && h == old(h) && eState == if bof then INVALID else VALID
        invariant 0 <= n <= |Entries(intKey, root)| && out == Entries(intKey, root)[n..]
        invariant WentBack(intKey, root, h, apPage, aiIdx, bof, n)
        decreases n
      {
        BackEntry(intKey, root, h, apPage, aiIdx, n);
        out := [Last(apPage).CellAt(Last(aiIdx))] + out;
        n := n - 1;
        bof := Previous();
      }
      BackDone(intKey, root, h, apPage, aiIdx, n);
    }
  }
}
