/**
B-trees as values: a page with its cells and the subtrees below it.

There are two kinds. In an index tree every cell is an entry. In a rowid tree (intKey) only the cells of
leaves are entries; the cells of interior pages are separators that repeat a key.
*/
module Tree {

  type Key = int

  datatype Cell = Cell(key: Key, payload: seq<bv8>)

  // A cell of an interior page carries the pointer to its left child.
  datatype Slot = Slot(child: Node, cell: Cell)

  /** An interior page has one more child than cells: the right child. */
  datatype Node = Leaf(cells: seq<Cell>) | Interior(slots: seq<Slot>, right: Node)
  {
    function NCell(): nat { if Leaf? then |cells| else |slots| }

    function CellAt(i: nat): Cell
      requires i < NCell()
    {
      if Leaf? then cells[i] else slots[i].cell
    }

    // The left child of cell i, or the right child when there is no such cell.
    function Child(i: nat): Node
      requires Interior? && i <= |slots|
    {
      if i < |slots| then slots[i].child else right
    }
  }

  /** All leaves are h levels below t, and pages below the root have at least one cell. */
  ghost predicate Wf(t: Node, h: nat)
    decreases h
  {
    && (t.Leaf? <==> h == 0)
    && (t.Interior? ==> forall i :: 0 <= i <= |t.slots| ==> t.Child(i).NCell() > 0 && Wf(t.Child(i), h - 1))
  }

  /** The entries below t in key order. */
  function Entries(intKey: bool, t: Node): seq<Cell>
    decreases t, 1, 0
  {
    match t
    case Leaf(cells) => cells
    case Interior(slots, right) => Before(intKey, t, |slots|) + Entries(intKey, right)
  }

  /** The entries below t that come before its child n, or before cell n of a leaf. */
  function Before(intKey: bool, t: Node, n: nat): seq<Cell>
    requires n <= t.NCell()
    decreases t, 0, n
  {
    match t
    case Leaf(cells) => cells[..n]
    case Interior(slots, right) =>
      if n == 0 then []
      else Before(intKey, t, n - 1) + Entries(intKey, slots[n - 1].child) + (if intKey then [] else [slots[n - 1].cell])
  }

  /** The entries below an interior page that come after its child n, beginning with cell n in an index tree. */
  function After(intKey: bool, t: Node, n: nat): seq<Cell>
    requires t.Interior? && n <= |t.slots|
    decreases |t.slots| - n
  {
    if n == |t.slots| then []
    else (if intKey then [] else [t.slots[n].cell]) + Entries(intKey, t.Child(n + 1)) + After(intKey, t, n + 1)
  }

  /** The entries of an interior page, split around any of its children. */
  lemma {:induction false} SplitAt(intKey: bool, t: Node, n: nat)
    requires t.Interior? && n <= |t.slots|
    ensures Entries(intKey, t) == Before(intKey, t, n) + Entries(intKey, t.Child(n)) + After(intKey, t, n)
    decreases |t.slots| - n
  {
    if n < |t.slots| {
      SplitAt(intKey, t, n + 1);
      var b, e, s := Before(intKey, t, n), Entries(intKey, t.Child(n)), if intKey then [] else [t.slots[n].cell];
      var e', a := Entries(intKey, t.Child(n + 1)), After(intKey, t, n + 1);
      assert ((b + e + s) + e') + a == (b + e) + (s + e' + a);
    }
  }

  lemma {:induction false} EntriesNonempty(intKey: bool, t: Node, h: nat)
    requires Wf(t, h) && (t.NCell() > 0 || h > 0)
    ensures |Entries(intKey, t)| > 0
    decreases h
  {
    if h > 0 {
      assert t.Child(|t.slots|) == t.right;
      EntriesNonempty(intKey, t.right, h - 1);
    }
  }

  // ----- Order -----

  ghost predicate Ascending(s: seq<Cell>) {
    forall i, j :: 0 <= i < j < |s| ==> s[i].key < s[j].key
  }

  ghost predicate AllAtMost(s: seq<Cell>, k: Key) {
    forall i :: 0 <= i < |s| ==> s[i].key <= k
  }

  ghost predicate AllBelow(s: seq<Cell>, k: Key) {
    forall i :: 0 <= i < |s| ==> s[i].key < k
  }

  ghost predicate AllAbove(s: seq<Cell>, k: Key) {
    forall i :: 0 <= i < |s| ==> s[i].key > k
  }

  /** In a rowid tree the keys left of a separator are at most the separator, and those right of it are greater. */
  ghost predicate Separated(t: Node)
    decreases t
  {
    t.Interior? ==>
      && (forall i :: 0 <= i < |t.slots| ==>
           && AllAtMost(Entries(true, t.Child(i)), t.slots[i].cell.key)
           && AllAbove(Entries(true, t.Child(i + 1)), t.slots[i].cell.key))
      && (forall i :: 0 <= i < |t.slots| ==> Separated(t.slots[i].child)) && Separated(t.right)
  }

  /** A search tree of either kind. */
  ghost predicate Ordered(intKey: bool, t: Node) {
    Ascending(Entries(intKey, t)) && (intKey ==> Separated(t))
  }
}
