/**
The cells of cellSizePtr and fillInCell are as the allocator of page space and the redistribution of cells assume.
*/
module CellFormat {
  import opened Encoding
  import Overflow
  import PageSpace
  import Redistribution
  import Tree

  // ----- The size of a cell depends on the cell only -----

  // Two byte strings that agree before n.
  ghost predicate Agree(s: Bytes, t: Bytes, n: nat) {
    n <= |s| && n <= |t| && t[..n] == s[..n]
  }

  lemma AgreeAt(s: Bytes, t: Bytes, n: nat, i: nat)
    requires Agree(s, t, n) && i < n
    ensures At(s, i) == At(t, i)
  {
    assert s[..n][i] == t[..n][i];
  }

  lemma {:induction false} SpanSame(s: Bytes, t: Bytes, n: nat, i: nat, k: nat)
    requires Agree(s, t, n) && k <= 8 && i + Span(s, i, k) <= n
    ensures Span(t, i, k) == Span(s, i, k)
    decreases 8 - k
  {
    AgreeAt(s, t, n, i + k);
    if k < 8 && At(s, i + k) >= 128 {
      SpanSame(s, t, n, i, k + 1);
    }
  }

  lemma {:induction false} GroupsSame(s: Bytes, t: Bytes, n: nat, i: nat, k: nat)
    requires Agree(s, t, n) && i + k <= n
    ensures Groups(t, i, k) == Groups(s, i, k)
  {
    if k > 0 {
      GroupsSame(s, t, n, i, k - 1);
      AgreeAt(s, t, n, i + k - 1);
    }
  }

  lemma QuickSame(s: Bytes, t: Bytes, n: nat, i: nat)
    requires Agree(s, t, n) && i + Overflow.QuickLength(s, i) <= n
    ensures Overflow.QuickLength(t, i) == Overflow.QuickLength(s, i)
      && Overflow.QuickValue(t, i) == Overflow.QuickValue(s, i)
  {
    SpanSame(s, t, n, i, 0);
    if Length(s, i) == 9 {
      AgreeAt(s, t, n, i + 8);
    }
    GroupsSame(s, t, n, i, Overflow.QuickLength(s, i));
  }

  lemma SizeSame(U: nat, kind: Overflow.Kind, s: Bytes, t: Bytes)
    requires U >= 480 && Agree(s, t, Overflow.QuickSize(U, kind, s))
    ensures Overflow.QuickSize(U, kind, t) == Overflow.QuickSize(U, kind, s)
  {
    hide Overflow.QuickLength, Overflow.QuickValue, Span, Agree, Overflow.MaxLocal, Overflow.MinLocal, Overflow.Local;
    var n, c := Overflow.QuickSize(U, kind, s), kind.ChildPtrSize();
    if kind.TableInterior? {
      SpanSame(s, t, n, 4, 0);
    } else {
      Overflow.LocalSpills(U, kind, Overflow.QuickValue(s, c));
      QuickSame(s, t, n, c);
      if kind.IntKey() {
        SpanSame(s, t, n, c + Overflow.QuickLength(s, c), 0);
      }
    }
  }

  /** Pages of every kind of b-tree meet what the allocator of page space requires. */
  lemma LayoutHolds(pageSize: nat, U: nat, hdr: nat, kind: Overflow.Kind)
    requires 480 <= U <= pageSize <= 65536 && (hdr == 0 || hdr == 100)
    ensures PageSpace.Layout(pageSize, U, hdr, kind.ChildPtrSize(), b => Overflow.QuickSize(U, kind, b)).Valid()
  {
    hide Overflow.QuickSize;
    forall s: Bytes, t: Bytes | Agree(s, t, Overflow.QuickSize(U, kind, s))
      ensures Overflow.QuickSize(U, kind, t) == Overflow.QuickSize(U, kind, s)
    {
      SizeSame(U, kind, s, t);
    }
  }

  // ----- Cells are small enough -----

  function LeafKind(intKey: bool): Overflow.Kind {
    if intKey then Overflow.TableLeaf else Overflow.IndexLeaf
  }

  // A rowid is stored as the 64 bits of it.
  function KeyBits(k: int): nat {
    k % TWO64
  }

  /** The size of an entry as a cell of a leaf. */
  function EntrySize(U: nat, intKey: bool, c: Tree.Cell): nat
    requires U >= 480
  {
    var n := |c.payload|;
    var key := if intKey then KeyBits(c.key) else n;
    Overflow.Layout(U, LeafKind(intKey), key, n, |Overflow.CellHeader(LeafKind(intKey), [], n, key)|).nSize
  }

  lemma EntrySmall(U: nat, intKey: bool, c: Tree.Cell)
    requires U >= 480
    ensures if intKey then EntrySize(U, intKey, c) + 10 <= U else 3 * (EntrySize(U, intKey, c) + 6) <= U - 12
  {
    hide Overflow.Local, Overflow.MinLocal, Encode;
    var n := |c.payload|;
    EncodeLength(n);
    EncodeLength(KeyBits(c.key));
    Overflow.LocalSpills(U, LeafKind(intKey), n);
  }

  /** The cells of every b-tree meet what the redistribution of cells requires. */
  lemma FormatHolds(U: nat, intKey: bool, hdr: nat)
    requires U >= 480 && hdr <= 100
    ensures Redistribution.Format(intKey, U, hdr, c => EntrySize(U, intKey, c), k => |Encode(KeyBits(k))|).Valid()
  {
    hide EntrySize, Encode;
    forall c
      ensures if intKey then EntrySize(U, intKey, c) + 10 <= U else 3 * (EntrySize(U, intKey, c) + 6) <= U - 12
    {
      EntrySmall(U, intKey, c);
    }
    forall k
      ensures 1 <= |Encode(KeyBits(k))| <= 9
    {
      EncodeLength(KeyBits(k));
    }
  }

  // ----- How much space a page has -----

  lemma {:induction false} SameBytes(fmt: Redistribution.Format, leaf: bool, items: seq<Tree.Slot>,
                                     cells: seq<PageSpace.Region>, n: nat)
    requires n <= |cells| == |items| && forall i :: 0 <= i < |cells| ==> cells[i].size == fmt.Size(leaf, items[i].cell)
    ensures PageSpace.Total(cells[..n]) + 2 * n == Redistribution.Bytes(fmt, leaf, items[..n])
  {
    if n > 0 {
      SameBytes(fmt, leaf, items, cells, n - 1);
      assert cells[..n][..n - 1] == cells[..n - 1] && items[..n][..n - 1] == items[..n - 1];
    }
  }

  /**
  The free bytes that are counted on a page are what balancing takes as its free space: all of the capacity, less the
  file header on page 1, that its cells and their pointers leave.
  */
  lemma RoomHolds(fmt: Redistribution.Format, m: PageSpace.MemPage, t: Tree.Node)
    requires m.Valid() && m.L.usableSize == fmt.usable && m.L.childPtrSize == (if t.Leaf? then 0 else 4)
    requires |m.cells| == |Redistribution.Items(t)| && forall i :: 0 <= i < |m.cells| ==>
      m.cells[i].size == fmt.Size(t.Leaf?, Redistribution.Items(t)[i].cell)
    ensures m.nFree == fmt.Capacity(t.Leaf?) - m.L.hdr - Redistribution.Content(fmt, t)
  {
    var items := Redistribution.Items(t);
    SameBytes(fmt, t.Leaf?, items, m.cells, |items|);
    assert m.cells[..|items|] == m.cells && items[..|items|] == items;
  }
}
