/**
Cells and their overflow pages (btreeParseCellPtr, cellSizePtr, fillInCell, getOverflowPage, accessPayload and
clearCell): how much of a payload stays on the b-tree page, the chain of pages that holds the rest, and reading any part
of it back.
*/
module Overflow {
  import opened Arith
  import opened Encoding
  import opened PtrMap

  datatype Kind = TableLeaf | TableInterior | IndexLeaf | IndexInterior
  {
    function ChildPtrSize(): nat { if TableInterior? || IndexInterior? then 4 else 0 }

    predicate IntKey() { TableLeaf? || TableInterior? }
  }

  function MaxLocal(U: nat, kind: Kind): nat {
    if U < 480 then 0 else if kind.IntKey() then U - 35 else (U - 12) * 64 / 255 - 23
  }

  function MinLocal(U: nat): nat {
    if U < 480 then 0 else (U - 12) * 32 / 255 - 23
  }

  // The bytes of a payload that stay on the b-tree page.
  function Local(U: nat, kind: Kind, nPayload: nat): nat
    requires U >= 480
  {
    if nPayload <= MaxLocal(U, kind) then nPayload
    else
      var surplus := MinLocal(U) + (nPayload - MinLocal(U)) % (U - 4);
      if surplus <= MaxLocal(U, kind) then surplus else MinLocal(U)
  }

  lemma LocalBounds(U: nat, kind: Kind)
    requires U >= 480
    ensures 35 <= MinLocal(U) <= MaxLocal(U, kind) <= U - 35
    ensures !kind.IntKey() ==> 3 * (MaxLocal(U, kind) + 15) <= U - 12
  {}

  /**
  What may stay on the page: of an index cell at most 64 and at least 32 parts in 255 of the page, less the rest of the
  cell and its pointer; and a whole page with room for one row of a table. A payload that does not fit leaves something
  for overflow pages, and fills the last of them if it can.
  */
  lemma LocalSpills(U: nat, kind: Kind, n: nat)
    requires U >= 480
    ensures kind.IntKey() ==> MaxLocal(U, kind) + 35 == U
    ensures !kind.IntKey() ==> 255 * (MaxLocal(U, kind) + 23) <= 64 * (U - 12) < 255 * (MaxLocal(U, kind) + 24)
    ensures 255 * (MinLocal(U) + 23) <= 32 * (U - 12) < 255 * (MinLocal(U) + 24)
    ensures var k := Local(U, kind, n);
      if n <= MaxLocal(U, kind) then k == n else MinLocal(U) <= k <= MaxLocal(U, kind) && k < n
    ensures var k := Local(U, kind, n);
      n > MaxLocal(U, kind) ==>
        (n - k) % (U - 4) == 0 || (k == MinLocal(U) && MinLocal(U) + (n - MinLocal(U)) % (U - 4) > MaxLocal(U, kind))
  {
    LocalBounds(U, kind);
    if n > MaxLocal(U, kind) {
      var q, r := DivMod(n - MinLocal(U), U - 4);
      if MinLocal(U) + r <= MaxLocal(U, kind) {
        IsMultiple(q, U - 4);
      }
    }
  }

  // ----- Cells as bytes -----

  datatype CellInfo = CellInfo(nKey: nat, nPayload: nat, nLocal: nat, iOverflow: nat, nSize: nat, payloadAt: nat)

  // getVarint32: larger numbers are read as the largest.
  function Value32(b: Bytes, i: nat): nat {
    if Value(b, i) > 0xffff_ffff then 0xffff_ffff else Value(b, i)
  }

  function Larger(x: nat, y: nat): nat {
    if x < y then y else x
  }

  function Smaller(x: nat, y: nat): nat {
    if x < y then x else y
  }

  // What follows from where the payload begins and how long it is.
  function Layout(U: nat, kind: Kind, nKey: nat, nPayload: nat, at: nat): CellInfo
    requires U >= 480
  {
    var nLocal := Local(U, kind, nPayload);
    if nPayload <= MaxLocal(U, kind) then CellInfo(nKey, nPayload, nLocal, 0, Larger(4, nPayload + at), at)
    else CellInfo(nKey, nPayload, nLocal, at + nLocal, at + nLocal + 4, at)
  }

  function Parse(U: nat, kind: Kind, b: Bytes): CellInfo
    requires U >= 480
  {
    match kind
    case TableLeaf =>
      var n := Length(b, 0);
      Layout(U, kind, Value(b, n), Value32(b, 0), n + Length(b, n))
    case TableInterior => CellInfo(Value(b, 4), 0, 0, 0, 4 + Length(b, 4), 4 + Length(b, 4))
    case _ =>
      var n := kind.ChildPtrSize();
      Layout(U, kind, Value32(b, n), Value32(b, n), n + Length(b, n))
  }

  // The second half of btreeParseCellPtr.
  method LocalPart(U: nat, kind: Kind, nKey: nat, nPayload: nat, pIter: nat) returns (info: CellInfo)
    requires U >= 480
    ensures info == Layout(U, kind, nKey, nPayload, pIter)
  {
    hide MaxLocal, MinLocal;
    if nPayload <= MaxLocal(U, kind) {
      var nSize := nPayload + pIter;
      if nSize < 4 { nSize := 4; }
      info := CellInfo(nKey, nPayload, nPayload, 0, nSize, pIter);
    } else {
      LocalBounds(U, kind);
      var minLocal, maxLocal := MinLocal(U), MaxLocal(U, kind);
      var surplus := minLocal + (nPayload - minLocal) % (U - 4);
      var nLocal := if surplus <= maxLocal then surplus else minLocal;
      info := CellInfo(nKey, nPayload, nLocal, pIter + nLocal, pIter + nLocal + 4, pIter);
    }
  }

  /** btreeParseCellPtr. */
  method ParseCellPtr(U: nat, kind: Kind, pCell: Bytes) returns (info: CellInfo)
    requires U >= 480
    ensures info == Parse(U, kind, pCell)
  {
    hide MaxLocal, MinLocal, Layout, Length, Value;
    var nPayload, pIter, nKey, n;
    if kind.TableLeaf? {
      nPayload, pIter := GetVarint(pCell, 0);
      nPayload := if nPayload > 0xffff_ffff then 0xffff_ffff else nPayload;
      nKey, n := GetVarint(pCell, pIter);
      pIter := pIter + n;
    } else if kind.TableInterior? {
      nKey, n := GetVarint(pCell, 4);
      return CellInfo(nKey, 0, 0, 0, 4 + n, 4 + n);
    } else {
      pIter := kind.ChildPtrSize();
      nPayload, n := GetVarint(pCell, pIter);
      nPayload := if nPayload > 0xffff_ffff then 0xffff_ffff else nPayload;
      pIter := pIter + n;
      nKey := nPayload;
    }
    info := LocalPart(U, kind, nKey, nPayload, pIter);
  }

  // ----- The quick computation of a cell's size -----

  // cellSizePtr reads up to ten bytes of a number, and keeps its low 32 bits.
  function QuickLength(b: Bytes, i: nat): nat {
    if Length(b, i) < 9 || At(b, i + 8) < 128 then Length(b, i) else 10
  }

  function QuickValue(b: Bytes, i: nat): nat {
    Groups(b, i, QuickLength(b, i)) % 0x1_0000_0000
  }

  function QuickSize(U: nat, kind: Kind, b: Bytes): nat
    requires U >= 480
  {
    var c := kind.ChildPtrSize();
    if kind.TableInterior? then 4 + Length(b, 4)
    else
      var n := c + QuickLength(b, c);
      var at := if kind.IntKey() then n + Length(b, n) else n;
      Layout(U, kind, 0, QuickValue(b, c), at).nSize
  }

  lemma LowBits(x: nat, y: nat)
    ensures (x * 128 + y) % 0x1_0000_0000 == (x % 0x1_0000_0000 * 128 + y) % 0x1_0000_0000
  {
    var q, r := x / 0x1_0000_0000, x % 0x1_0000_0000;
    var z := r * 128 + y;
    assert x * 128 + y == (q * 128) * 0x1_0000_0000 + z;
    DivUnique(x * 128 + y, 0x1_0000_0000, q * 128 + z / 0x1_0000_0000, z % 0x1_0000_0000);
  }

  // The loop over the bytes of a number whose value does not matter.
  method SkipVarint(b: Bytes, i: nat) returns (p: nat)
    ensures p == i + Length(b, i)
  {
    p := i;
    var pEnd := i + 9;
    var more := true;
    while more
      invariant i <= p <= pEnd && (more ==> p < pEnd && Span(b, i, p - i) == Length(b, i))
        && (!more ==> p == i + Length(b, i))
      decreases more, pEnd - p
    {
      var high := At(b, p) >= 128;
      p := p + 1;
      more := high && p < pEnd;
    }
  }

  // The loop over the bytes of the payload size.
  method QuickVarint(b: Bytes, i: nat) returns (nSize: nat, p: nat)
    ensures nSize == QuickValue(b, i) && p == i + QuickLength(b, i)
  {
    hide Groups;
    p := i;
    nSize := At(b, p);
    GroupsOne(b, i);
    if nSize >= 0x80 {
      var pEnd := i + 9;
      nSize := nSize % 128;
      var more := true;
      while more
        invariant i <= p <= pEnd && nSize == Groups(b, i, p - i + 1) % 0x1_0000_0000
        invariant more ==>
          p < pEnd && At(b, p) >= 128 && (p < i + 8 ==> Span(b, i, p - i + 1) == Length(b, i))
            && (p == i + 8 ==> Length(b, i) == 9)
        invariant !more ==> p + 1 == i + QuickLength(b, i)
        decreases pEnd - p
      {
        p := p + 1;
        GroupsMore(b, i, p - i);
        LowBits(Groups(b, i, p - i), At(b, p) % 128);
        nSize := (nSize * 128 + At(b, p) % 128) % 0x1_0000_0000;
        more := At(b, p) >= 128 && p < pEnd;
      }
    }
    p := p + 1;
  }

  lemma GroupsOne(b: Bytes, i: nat)
    ensures Groups(b, i, 1) == At(b, i) % 128
  {
    assert Groups(b, i, 0) == 0;
  }

  lemma GroupsMore(b: Bytes, i: nat, k: nat)
    ensures Groups(b, i, k + 1) == Groups(b, i, k) * 128 + At(b, i + k) % 128
  {}

  /** cellSizePtr. */
  method CellSizePtr(U: nat, kind: Kind, pCell: Bytes) returns (nSize: nat)
    requires U >= 480
    ensures nSize == QuickSize(U, kind, pCell)
  {
    hide MaxLocal, MinLocal, QuickLength, QuickValue, Length;
    var pIter := kind.ChildPtrSize();
    if kind.TableInterior? {
      pIter := SkipVarint(pCell, pIter);
      return pIter;
    }
    nSize, pIter := QuickVarint(pCell, pIter);
    if kind.IntKey() {
      pIter := SkipVarint(pCell, pIter);
    }
    if nSize <= MaxLocal(U, kind) {
      nSize := nSize + pIter;
      if nSize < 4 { nSize := 4; }
    } else {
      LocalBounds(U, kind);
      var minLocal := MinLocal(U);
      nSize := minLocal + (nSize - minLocal) % (U - 4);
      if nSize > MaxLocal(U, kind) {
        nSize := minLocal;
      }
      nSize := nSize + 4 + pIter;
    }
  }

  /** A payload size as it is written: of at most 8 bytes, and 32 bits. */
  predicate OrdinarySize(kind: Kind, b: Bytes) {
    kind.TableInterior? || (Length(b, kind.ChildPtrSize()) < 9 && Value(b, kind.ChildPtrSize()) < 0x1_0000_0000)
  }

  /** The quick computation agrees with the full parse. */
  lemma SizesAgree(U: nat, kind: Kind, b: Bytes)
    requires U >= 480 && OrdinarySize(kind, b)
    ensures QuickSize(U, kind, b) == Parse(U, kind, b).nSize
  {
    hide MaxLocal, MinLocal, Local, Length, Value, QuickValue, QuickLength;
    if !kind.TableInterior? {
      QuickRight(b, kind.ChildPtrSize());
    }
  }

  lemma QuickRight(b: Bytes, i: nat)
    requires Length(b, i) < 9 && Value(b, i) < 0x1_0000_0000
    ensures QuickLength(b, i) == Length(b, i) && QuickValue(b, i) == Value32(b, i) == Value(b, i)
  {
    hide Groups, Length;
  }

  // ----- Chains of overflow pages -----

  type Pages = map<nat, Bytes>

  // Where in the payload the part on overflow page k begins.
  function Start(U: nat, nLocal: nat, k: nat): nat
    requires U >= 480
  {
    nLocal + k * (U - 4)
  }

  lemma StartStep(U: nat, nLocal: nat, k: nat)
    requires U >= 480
    ensures Start(U, nLocal, k + 1) == Start(U, nLocal, k) + (U - 4) && Start(U, nLocal, 0) == nLocal
  {}

  lemma StartOrder(U: nat, nLocal: nat, j: nat, k: nat)
    requires U >= 480
    ensures j < k ==> Start(U, nLocal, j) + (U - 4) <= Start(U, nLocal, k)
    ensures j <= k ==> Start(U, nLocal, j) <= Start(U, nLocal, k)
  {
    if j < k {
      MulStep(j, k, U - 4);
    }
  }

  ghost predicate OnPage(data: Pages, U: nat, p: nat) {
    p in data && |data[p]| == U >= 480
  }

  // The number of the next page is at the beginning of each page.
  function NextOf(data: Pages, p: nat): nat {
    if p in data && |data[p]| >= 4 then Get4(data[p], 0) else 0
  }

  ghost predicate Linked(data: Pages, U: nat, list: seq<nat>, k: nat) {
    && k < |list| && list[k] >= 2 && OnPage(data, U, list[k])
    && NextOf(data, list[k]) == if k + 1 < |list| then list[k + 1] else 0
  }

  ghost predicate Distinct(list: seq<nat>) {
    forall j, k :: 0 <= j < k < |list| ==> list[j] != list[k]
  }

  /** The pages of list, each linked to the next one and the last to none. */
  ghost predicate Chain(data: Pages, U: nat, list: seq<nat>) {
    Distinct(list) && forall k :: 0 <= k < |list| ==> Linked(data, U, list, k)
  }

  // The part of the payload from `from` on that is on page p, as far as it lies before `to`.
  ghost predicate Piece(data: Pages, U: nat, p: nat, payload: Bytes, from: nat, to: nat) {
    && OnPage(data, U, p) && from <= to <= |payload|
    && var n := Smaller(U - 4, to - from); data[p][4..4 + n] == payload[from..from + n]
  }

  ghost predicate Pieces(data: Pages, U: nat, list: seq<nat>, nLocal: nat, payload: Bytes, to: nat)
    requires U >= 480
  {
    forall k :: 0 <= k < |list| ==> Piece(data, U, list[k], payload, Start(U, nLocal, k), to)
  }

  /** Cell b, with the overflow pages of list, holds the payload. */
  ghost predicate Stored(data: Pages, U: nat, kind: Kind, b: Bytes, list: seq<nat>, payload: Bytes)
    requires U >= 480
  {
    var info := Parse(U, kind, b);
    && info.nPayload == |payload| && info.nLocal <= |payload| && info.nSize <= |b|
    && info.payloadAt + info.nLocal <= |b|
    && b[info.payloadAt..info.payloadAt + info.nLocal] == payload[..info.nLocal]
    && (if info.iOverflow == 0 then list == [] && info.nLocal == |payload|
        else list != [] && info.iOverflow == info.payloadAt + info.nLocal && info.iOverflow + 4 <= |b|
             && Get4(b, info.iOverflow) == list[0]
             && Start(U, info.nLocal, |list| - 1) < |payload| <= Start(U, info.nLocal, |list|))
    && Chain(data, U, list) && Pieces(data, U, list, info.nLocal, payload, |payload|)
  }

  // The number of pages for n bytes, and the page of an offset and where it is there.
  function OverflowPages(U: nat, n: nat): nat
    requires U >= 480
  {
    (n + (U - 4) - 1) / (U - 4)
  }

  function PageIndex(U: nat, o: nat): nat
    requires U >= 480
  {
    o / (U - 4)
  }

  function PageOffset(U: nat, o: nat): nat
    requires U >= 480
  {
    o % (U - 4)
  }

  /** The number of overflow pages is what accessPayload and clearCell compute. */
  lemma ChainLength(U: nat, nLocal: nat, n: nat, len: nat)
    requires U >= 480 && len > 0 && Start(U, nLocal, len - 1) < n <= Start(U, nLocal, len)
    ensures n > nLocal && OverflowPages(U, n - nLocal) == len
  {
    StartStep(U, nLocal, len - 1);
    StartOrder(U, nLocal, 0, len - 1);
    var r := n - nLocal + (U - 4) - 1 - len * (U - 4);
    DivUnique(n - nLocal + (U - 4) - 1, U - 4, len, r);
  }

  /** Which page holds an offset of the payload, and where. */
  lemma PageOfOffset(U: nat, nLocal: nat, n: nat, len: nat, o: nat)
    requires U >= 480 && len > 0 && n <= Start(U, nLocal, len) && nLocal + o < n
    ensures PageIndex(U, o) < len && Start(U, nLocal, PageIndex(U, o)) + PageOffset(U, o) == nLocal + o
  {
    var q, r := DivMod(o, U - 4);
    if len <= q {
      StartOrder(U, nLocal, len, q);
    }
  }

  // ----- Reading -----

  datatype Code = Ok | Corrupt | Full

  // The part of a page that is copied is a slice of the payload.
  lemma PieceSlice(data: Pages, U: nat, p: nat, payload: Bytes, from: nat, off: nat, n: nat)
    requires Piece(data, U, p, payload, from, |payload|) && off + n <= U - 4 && from + off + n <= |payload|
    ensures data[p][off + 4..off + 4 + n] == payload[from + off..from + off + n]
  {
    var m := Smaller(U - 4, |payload| - from);
    SliceOfSlice(data[p], 4, m, off, n);
    SliceOfSlice(payload, from, m, off, n);
  }

  lemma SliceOfSlice(s: Bytes, a: nat, m: nat, off: nat, n: nat)
    requires a + m <= |s| && off + n <= m
    ensures s[a..a + m][off..off + n] == s[a + off..a + off + n]
  {
    var t, x, y := s[a..a + m], s[a..a + m][off..off + n], s[a + off..a + off + n];
    forall i | 0 <= i < n
      ensures x[i] == y[i]
    {
      assert x[i] == t[off + i] && t[off + i] == s[a + off + i];
    }
  }

  lemma SliceJoin(payload: Bytes, a: nat, b: nat, c: nat)
    requires a <= b <= c <= |payload|
    ensures payload[a..b] + payload[b..c] == payload[a..c]
  {}

  // ----- The database, as far as overflow pages go -----

  datatype PtrType = FreePage | Overflow1 | Overflow2 | Other

  datatype Entry = Entry(eType: PtrType, parent: nat)

  // The pointer-map entry of a page that says it comes after another is true, or is the one that is passed over.
  ghost predicate MapTrue(data: Pages, ptr: map<nat, Entry>, except: Option) {
    forall p :: p in ptr && ptr[p].eType == Overflow2 ==>
      except == Some(p, ptr[p].parent) || (p in data && ptr[p].parent in data && NextOf(data, ptr[p].parent) == p)
  }

  datatype Option = None | Some(page: nat, parent: nat)

  /** The entry of page k of a chain: the first belongs to a cell, any other comes after the one before it. */
  ghost predicate EntryOk(ptr: map<nat, Entry>, list: seq<nat>, k: nat)
    requires k < |list|
  {
    list[k] in ptr && if k == 0 then ptr[list[0]].eType == Overflow1 else ptr[list[k]] == Entry(Overflow2, list[k - 1])
  }

  /** The entries of the pages of a chain are true, and no others have changed. */
  ghost predicate Mapped(ptr: map<nat, Entry>, ptr': map<nat, Entry>, list: seq<nat>) {
    && (forall k :: 0 <= k < |list| ==> EntryOk(ptr', list, k))
    && (forall p :: p !in list ==> (p in ptr' <==> p in ptr) && (p in ptr' ==> ptr'[p] == ptr[p]))
  }

  lemma MappedMore(ptr: map<nat, Entry>, ptr': map<nat, Entry>, list: seq<nat>, p: nat)
    requires Mapped(ptr, ptr', list) && p !in list
    ensures var e := if list == [] then Entry(Overflow1, 0) else Entry(Overflow2, list[|list| - 1]);
      Mapped(ptr, ptr'[p := e], list + [p])
  {
    var e := if list == [] then Entry(Overflow1, 0) else Entry(Overflow2, list[|list| - 1]);
    var ptr2, list' := ptr'[p := e], list + [p];
    forall k | 0 <= k < |list'|
      ensures EntryOk(ptr2, list', k)
    {
      if k < |list| {
        assert EntryOk(ptr', list, k);
      }
    }
  }

  /** The first k pages of a list are entered as free, and no other entry has changed. */
  ghost predicate FreedMap(ptr: map<nat, Entry>, ptr': map<nat, Entry>, list: seq<nat>, k: nat) {
    && k <= |list| && (forall i :: 0 <= i < k ==> list[i] in ptr' && ptr'[list[i]].eType == FreePage)
    && (forall p :: p !in list[..k] ==> (p in ptr' <==> p in ptr) && (p in ptr' ==> ptr'[p] == ptr[p]))
  }

  lemma FreedMapNext(ptr: map<nat, Entry>, ptr': map<nat, Entry>, list: seq<nat>, k: nat)
    requires FreedMap(ptr, ptr', list, k) && k < |list|
    ensures FreedMap(ptr, ptr'[list[k] := Entry(FreePage, 0)], list, k + 1)
  {
    assert list[..k + 1] == list[..k] + [list[k]];
  }

  function Elements(s: seq<nat>): set<nat> {
    set p | p in s
  }

  lemma ElementsNext(s: seq<nat>, k: nat)
    requires k < |s|
    ensures Elements(s[..k + 1]) == Elements(s[..k]) + {s[k]}
  {
    assert s[..k + 1] == s[..k] + [s[k]];
  }

  // The first k pages of a list are no longer in use, and all others are as they were.
  ghost predicate Freed(data0: Pages, data: Pages, list: seq<nat>, k: nat) {
    k <= |list| && data == data0 - Elements(list[..k])
  }

  lemma ChainStart(data: Pages, ptr: map<nat, Entry>, list: seq<nat>)
    ensures Freed(data, data, list, 0)
  {
    assert list[..0] == [];
    assert data - Elements(list[..0]) == data;
  }

  lemma ChainPage(data0: Pages, data: Pages, U: nat, list: seq<nat>, k: nat)
    requires Chain(data0, U, list) && Freed(data0, data, list, k) && k < |list|
    ensures OnPage(data, U, list[k]) && list[k] >= 2 && data[list[k]] == data0[list[k]] && list[k] in data0
    ensures NextOf(data, list[k]) == if k + 1 < |list| then list[k + 1] else 0
    ensures k > 0 ==> list[k - 1] != list[k] && list[k - 1] >= 2
  {
    assert Linked(data0, U, list, k);
    assert list[k] !in list[..k];
    if k > 0 {
      assert Linked(data0, U, list, k - 1);
    }
  }

  lemma FreedNext(data0: Pages, data: Pages, U: nat, list: seq<nat>, k: nat)
    requires Freed(data0, data, list, k) && k < |list|
    ensures Freed(data0, data - {list[k]}, list, k + 1)
  {
    ElementsNext(list, k);
    assert data - {list[k]} == data0 - Elements(list[..k + 1]);
  }

  lemma FreedAll(data0: Pages, data: Pages, list: seq<nat>)
    requires Freed(data0, data, list, |list|)
    ensures data == data0 - Elements(list)
  {
    assert list[..|list|] == list;
  }

  // The entry that is not true while a chain is being freed.
  function Dangling(list: seq<nat>, k: nat): Option {
    if 0 < k < |list| then Some(list[k], list[k - 1]) else None
  }

  // Freeing a page leaves one untrue entry, that of the next page, until that is freed too.
  lemma MapFreed(data0: Pages, data: Pages, ptr: map<nat, Entry>, U: nat, list: seq<nat>, k: nat)
    requires Chain(data0, U, list) && Freed(data0, data, list, k) && k < |list| && 0 !in data
    requires MapTrue(data, ptr, Dangling(list, k))
    ensures MapTrue(data - {list[k]}, ptr[list[k] := Entry(FreePage, 0)], Dangling(list, k + 1))
  {
    ChainPage(data0, data, U, list, k);
    var data', ptr' := data - {list[k]}, ptr[list[k] := Entry(FreePage, 0)];
    forall p | p in ptr' && ptr'[p].eType == Overflow2
      ensures Dangling(list, k + 1) == Some(p, ptr'[p].parent) || (p in data' && ptr'[p].parent in data'
                                                                   && NextOf(data', ptr'[p].parent) == p)
    {
      var q := ptr'[p].parent;
      assert p != list[k] && ptr[p] == ptr'[p];
      assert p in data && q in data && NextOf(data, q) == p;
      if q == list[k] {
        assert k + 1 < |list| && p == list[k + 1];
      }
    }
  }

  /** A page that can hold data: with auto-vacuum that leaves out the pages of the pointer map. */
  predicate MayHold(g: Geometry, autoVacuum: bool, p: nat)
    requires g.Valid()
  {
    if autoVacuum then g.Ordinary(p) else p != g.pendingPage
  }

  ghost predicate PagesOk(g: Geometry, autoVacuum: bool, nPage: nat, data: Pages)
    requires g.Valid()
  {
    1 <= nPage <= MAX_PAGE
    && forall p :: p in data ==> 2 <= p <= nPage && |data[p]| == g.usableSize && MayHold(g, autoVacuum, p)
  }

  // ----- Filling in a cell -----

  /** The part of a payload before pos is in `done`, which is on the b-tree page, and on the pages of list. */
  ghost predicate Filling(data: Pages, U: nat, nLocal: nat, payload: Bytes, pos: nat, done: Bytes, list: seq<nat>)
    requires U >= 480
  {
    && pos <= |payload| && nLocal <= |payload| && done == payload[..Smaller(pos, nLocal)]
    && (list == [] ==> pos <= nLocal)
    && (list != [] ==> Start(U, nLocal, |list| - 1) <= pos <= Start(U, nLocal, |list|))
    && Chain(data, U, list) && Pieces(data, U, list, nLocal, payload, pos)
  }

  // The space that is left where the payload is being written.
  ghost predicate SpaceLeft(U: nat, nLocal: nat, pos: nat, list: seq<nat>, space: nat)
    requires U >= 480
  {
    if list == [] then space == nLocal - pos else pos + space == Start(U, nLocal, |list|)
  }

  ghost predicate Grown(data: Pages, data': Pages, list: seq<nat>) {
    && data'.Keys == data.Keys + Elements(list) && data.Keys !! Elements(list)
    && forall p :: p in data ==> data'[p] == data[p]
  }

  // The last page of the list is linked to a new one.
  function LinkedPages(data: Pages, list: seq<nat>, p: nat): Pages
    requires p in data && |data[p]| >= 4
  {
    var data1 := if list != [] && list[|list| - 1] in data && |data[list[|list| - 1]]| >= 4
      then data[list[|list| - 1] := Put4(data[list[|list| - 1]], 0, p)] else data;
    data1[p := Put4(data[p], 0, 0)]
  }

  lemma PieceKept(data: Pages, data': Pages, U: nat, p: nat, payload: Bytes, from: nat, to: nat)
    requires Piece(data, U, p, payload, from, to) && p in data' && |data'[p]| == U && data'[p][4..] == data[p][4..]
    ensures Piece(data', U, p, payload, from, to)
  {
    var n := Smaller(U - 4, to - from);
    assert data'[p][4..4 + n] == data'[p][4..][..n] && data[p][4..4 + n] == data[p][4..][..n];
  }

  lemma LinkFills(data: Pages, U: nat, nLocal: nat, payload: Bytes, pos: nat, done: Bytes, list: seq<nat>, p: nat)
    requires U >= 480 && Filling(data, U, nLocal, payload, pos, done, list) && SpaceLeft(U, nLocal, pos, list, 0)
    requires p in data && |data[p]| == U && p !in list && 2 <= p < 0x1_0000_0000
    ensures Filling(LinkedPages(data, list, p), U, nLocal, payload, pos, done, list + [p])
    ensures SpaceLeft(U, nLocal, pos, list + [p], U - 4)
  {
    hide Start, Piece;
    var data', list', n := LinkedPages(data, list, p), list + [p], |list|;
    StartStep(U, nLocal, 0);
    StartStep(U, nLocal, n);
    forall k | 0 <= k < |list'|
      ensures Linked(data', U, list', k) && Piece(data', U, list'[k], payload, Start(U, nLocal, k), pos)
    {
      if k < n {
        assert Linked(data, U, list, k);
        assert Piece(data, U, list[k], payload, Start(U, nLocal, k), pos);
        if k == n - 1 {
          GetFour(data'[list[k]], 0, p);
        }
        assert data'[list[k]][4..] == data[list[k]][4..];
        PieceKept(data, data', U, list[k], payload, Start(U, nLocal, k), pos);
      } else {
        GetFour(data'[p], 0, 0);
        EmptyPiece(data', U, p, payload, pos);
      }
    }
  }

  lemma EmptyPiece(data: Pages, U: nat, p: nat, payload: Bytes, pos: nat)
    requires OnPage(data, U, p) && pos <= |payload|
    ensures Piece(data, U, p, payload, pos, pos)
  {}

  // z is written on page p at offset at.
  function PageWritten(data: Pages, p: nat, at: nat, z: Bytes): Pages
    requires p in data && at + |z| <= |data[p]|
  {
    data[p := data[p][..at] + z + data[p][at + |z|..]]
  }

  lemma WriteFills(data: Pages, U: nat, nLocal: nat, payload: Bytes, pos: nat, done: Bytes, list: seq<nat>, n: nat,
                   space: nat)
    requires U >= 480 && Filling(data, U, nLocal, payload, pos, done, list) && SpaceLeft(U, nLocal, pos, list, space)
    requires list != [] && n <= space && pos + n <= |payload|
    ensures var p := list[|list| - 1];
      && p in data && |data[p]| == U && 4 <= U - space && U - space + n <= U
      && Filling(PageWritten(data, p, U - space, payload[pos..pos + n]), U, nLocal, payload, pos + n, done, list)
      && SpaceLeft(U, nLocal, pos + n, list, space - n)
  {
    hide Start, Piece;
    var m, p, z := |list| - 1, list[|list| - 1], payload[pos..pos + n];
    StartStep(U, nLocal, m);
    StartOrder(U, nLocal, 0, m);
    StartStep(U, nLocal, 0);
    assert Linked(data, U, list, m);
    var data' := PageWritten(data, p, U - space, z);
    forall k | 0 <= k < |list|
      ensures Linked(data', U, list, k) && Piece(data', U, list[k], payload, Start(U, nLocal, k), pos + n)
    {
      assert Linked(data, U, list, k);
      assert Piece(data, U, list[k], payload, Start(U, nLocal, k), pos);
      if k < m {
        StartOrder(U, nLocal, k, m);
        FullPiece(data, data', U, list[k], payload, Start(U, nLocal, k), pos, pos + n);
      } else {
        LongerPiece(data, U, p, payload, Start(U, nLocal, k), pos, n, U - space);
        GetSame(data'[p], data[p], 0, 0);
      }
    }
  }

  lemma FullPiece(data: Pages, data': Pages, U: nat, p: nat, payload: Bytes, from: nat, to: nat, to': nat)
    requires Piece(data, U, p, payload, from, to) && from + (U - 4) <= to <= to' <= |payload| && p in data'
      && data'[p] == data[p]
    ensures Piece(data', U, p, payload, from, to')
  {}

  lemma LongerPiece(data: Pages, U: nat, p: nat, payload: Bytes, from: nat, to: nat, n: nat, at: nat)
    requires Piece(data, U, p, payload, from, to) && to + n <= |payload| && at == 4 + (to - from) && at + n <= U
    ensures var data' := PageWritten(data, p, at, payload[to..to + n]);
      Piece(data', U, p, payload, from, to + n) && data'[p][0..4] == data[p][0..4]
  {
    var z := payload[to..to + n];
    var d, d', m := data[p], PageWritten(data, p, at, z)[p], to - from;
    assert d[4..4 + m] == payload[from..from + m];
    var x, y := d'[4..4 + m + n], payload[from..from + m + n];
    forall i | 0 <= i < m + n
      ensures x[i] == y[i]
    {
      if i < m {
        assert d'[4 + i] == d[4 + i] == d[4..4 + m][i] == payload[from..from + m][i];
      } else {
        assert d'[4 + i] == z[i - m];
      }
    }
    assert x == y;
  }

  // The pointer map stays true when a new page is linked to the end of a chain.
  lemma MapLinked(g: Geometry, autoVacuum: bool, nPage: nat, data: Pages, ptr: map<nat, Entry>, U: nat, list: seq<nat>,
                  p: nat)
    requires g.Valid() && PagesOk(g, autoVacuum, nPage, data) && p in data && U == g.usableSize
      && Chain(data - {p}, U, list)
    requires MapTrue(data - {p}, ptr, None) && p < 0x1_0000_0000
    ensures var e := if list == [] then Entry(Overflow1, 0) else Entry(Overflow2, list[|list| - 1]);
      MapTrue(LinkedPages(data, list, p), ptr[p := e], None)
  {
    var data0, data' := data - {p}, LinkedPages(data, list, p);
    var n := |list|;
    if n > 0 {
      assert Linked(data0, U, list, n - 1);
      GetFour(data'[list[n - 1]], 0, p);
    }
    var e := if list == [] then Entry(Overflow1, 0) else Entry(Overflow2, list[n - 1]);
    var ptr' := ptr[p := e];
    forall q | q in ptr' && ptr'[q].eType == Overflow2
      ensures q in data' && ptr'[q].parent in data' && NextOf(data', ptr'[q].parent) == q
    {
      if q != p {
        var r := ptr[q].parent;
        assert q in data0 && r in data0 && NextOf(data0, r) == q;
        assert n > 0 ==> r != list[n - 1];
      }
    }
  }

  lemma LinkedOk(g: Geometry, autoVacuum: bool, nPage: nat, data: Pages, list: seq<nat>, p: nat)
    requires g.Valid() && PagesOk(g, autoVacuum, nPage, data) && p in data
    ensures |data[p]| == g.usableSize && PagesOk(g, autoVacuum, nPage, LinkedPages(data, list, p))
  {
    hide MayHold;
  }

  lemma FillingFacts(data: Pages, U: nat, nLocal: nat, payload: Bytes, pos: nat, done: Bytes, list: seq<nat>)
    requires U >= 480 && Filling(data, U, nLocal, payload, pos, done, list)
    ensures Chain(data, U, list)
    ensures list != [] ==> list[|list| - 1] in data && |data[list[|list| - 1]]| == U && list[|list| - 1] >= 2
  {
    if list != [] {
      assert Linked(data, U, list, |list| - 1);
    }
  }

  // A new page leaves what is known of the others.
  lemma NewPage(data: Pages, U: nat, nLocal: nat, payload: Bytes, pos: nat, done: Bytes, list: seq<nat>, p: nat,
                z: Bytes)
    requires U >= 480 && Filling(data, U, nLocal, payload, pos, done, list) && p !in data
    ensures Filling(data[p := z], U, nLocal, payload, pos, done, list) && p !in list
  {
    hide Start;
    var data' := data[p := z];
    forall k | 0 <= k < |list|
      ensures Linked(data', U, list, k) && Piece(data', U, list[k], payload, Start(U, nLocal, k), pos)
    {
      assert Linked(data, U, list, k);
      assert Piece(data, U, list[k], payload, Start(U, nLocal, k), pos);
    }
    forall k | 0 <= k < |list|
      ensures list[k] != p
    {
      assert Linked(data, U, list, k);
    }
  }

  lemma GrownLinked(data0: Pages, data: Pages, list: seq<nat>, p: nat, z: Bytes)
    requires Grown(data0, data, list) && p !in data && |z| >= 4 && (list != [] ==> list[|list| - 1] in data)
    ensures Grown(data0, LinkedPages(data[p := z], list, p), list + [p])
  {
    assert list + [p] == (list + [p])[..|list| + 1];
    ElementsNext(list + [p], |list|);
    assert (list + [p])[..|list|] == list;
    if list != [] {
      assert list[|list| - 1] in Elements(list);
    }
  }

  lemma GrownWritten(data0: Pages, data: Pages, list: seq<nat>, at: nat, z: Bytes)
    requires Grown(data0, data, list) && list != [] && list[|list| - 1] in data && at + |z| <= |data[list[|list| - 1]]|
    ensures Grown(data0, PageWritten(data, list[|list| - 1], at, z), list)
  {
    assert list[|list| - 1] in Elements(list);
  }

  // Writing to a page past its first four bytes leaves the pointer map true.
  lemma MapWritten(g: Geometry, autoVacuum: bool, nPage: nat, data: Pages, ptr: map<nat, Entry>, p: nat, at: nat,
                   z: Bytes)
    requires g.Valid() && PagesOk(g, autoVacuum, nPage, data) && p in data && 4 <= at && at + |z| <= |data[p]|
    ensures PagesOk(g, autoVacuum, nPage, PageWritten(data, p, at, z))
    ensures MapTrue(data, ptr, None) ==> MapTrue(PageWritten(data, p, at, z), ptr, None)
  {
    var data' := PageWritten(data, p, at, z);
    GetSame(data'[p], data[p], 0, 0);
    assert forall q :: NextOf(data', q) == NextOf(data, q);
  }

  // ----- The bytes of a new cell -----

  /** A cell without its payload: the child pointer, the payload size of a row, and the key. */
  function CellHeader(kind: Kind, left: Bytes, nPayload: nat, nKey: nat): Bytes {
    left + (if kind.TableLeaf? then Encode(nPayload) else []) + Encode(nKey)
  }

  ghost predicate CellArgs(kind: Kind, left: Bytes, nKey: nat, nPayload: nat) {
    && |left| == kind.ChildPtrSize() && nPayload <= 0x7fff_ffff && nKey < TWO64
    && (kind.TableInterior? ==> nPayload == 0) && (!kind.IntKey() ==> nKey == nPayload)
  }

  /** What a cell that begins with a header is parsed as. */
  lemma HeaderParsed(U: nat, kind: Kind, left: Bytes, nKey: nat, nPayload: nat, b: Bytes)
    requires U >= 480 && CellArgs(kind, left, nKey, nPayload) && Holds(b, 0, CellHeader(kind, left, nPayload, nKey))
    ensures Parse(U, kind, b) == if kind.TableInterior? then CellInfo(nKey, 0, 0, 0,
        |CellHeader(kind, left, nPayload, nKey)|, |CellHeader(kind, left, nPayload, nKey)|)
      else Layout(U, kind, nKey, nPayload, |CellHeader(kind, left, nPayload, nKey)|)
    ensures OrdinarySize(kind, b)
  {
    hide Encode, Value, Length, Layout, Holds;
    var e1, e2 := if kind.TableLeaf? then Encode(nPayload) else [], Encode(nKey);
    HoldsPart(b, 0, left + e1, e2);
    HoldsPart(b, 0, left, e1);
    RoundTrip(b, |left| + |e1|, nKey);
    EncodeLength(nPayload);
    if kind.TableLeaf? {
      assert left == [];
      RoundTrip(b, 0, nPayload);
    }
  }

  // The whole cell: header, local payload, and the number of the first overflow page or some filling.
  function WholeCell(header: Bytes, local: Bytes, list: seq<nat>): Bytes {
    if list != [] then header + local + Four(list[0])
    else if |header + local| < 4 then header + local + seq(4 - |header + local|, _ => 0)
    else header + local
  }

  lemma PayloadPlaced(header: Bytes, local: Bytes, list: seq<nat>)
    ensures var b := WholeCell(header, local, list);
      && |b| >= |header| + |local| && Holds(b, 0, header) && b[|header|..|header| + |local|] == local
      && (list != [] ==>
            |b| == |header| + |local| + 4 && b[|header| + |local|..|header| + |local| + 4] == Four(list[0]))
      && (list == [] ==> |b| == Larger(4, |local| + |header|))
  {
    hide Four;
  }

  lemma WholeParsed(U: nat, kind: Kind, left: Bytes, nKey: nat, nPayload: nat, local: Bytes, list: seq<nat>)
    requires U >= 480 && CellArgs(kind, left, nKey, nPayload) && |local| == Local(U, kind, nPayload)
    requires list == [] <==> nPayload <= MaxLocal(U, kind)
    ensures var h := |CellHeader(kind, left, nPayload, nKey)|;
      var b := WholeCell(CellHeader(kind, left, nPayload, nKey), local, list);
      && OrdinarySize(kind, b)
      && Parse(U, kind, b) == CellInfo(nKey, nPayload, |local|, if list == [] then 0 else h + |local|, |b|, h)
  {
    hide CellHeader, WholeCell, Local, MaxLocal, Parse, OrdinarySize;
    var h := CellHeader(kind, left, nPayload, nKey);
    PayloadPlaced(h, local, list);
    HeaderParsed(U, kind, left, nKey, nPayload, WholeCell(h, local, list));
    HeaderLength(kind, left, nPayload, nKey);
    InteriorLocal(U);
    LocalSpills(U, kind, nPayload);
  }

  lemma HeaderLength(kind: Kind, left: Bytes, nPayload: nat, nKey: nat)
    requires CellArgs(kind, left, nKey, nPayload)
    ensures |CellHeader(kind, left, nPayload, nKey)| > kind.ChildPtrSize()
  {}

  lemma InteriorLocal(U: nat)
    requires U >= 480
    ensures Local(U, TableInterior, 0) == 0 <= MaxLocal(U, TableInterior)
  {}

  /** A payload that has been written completely is stored. */
  lemma FilledStored(data: Pages, U: nat, kind: Kind, left: Bytes, nKey: nat, payload: Bytes, local: Bytes,
                     list: seq<nat>)
    requires U >= 480 && CellArgs(kind, left, nKey, |payload|)
    requires Filling(data, U, Local(U, kind, |payload|), payload, |payload|, local, list)
    requires list != [] ==> Start(U, Local(U, kind, |payload|), |list| - 1) < |payload| && list[0] < 0x1_0000_0000
    ensures var b := WholeCell(CellHeader(kind, left, |payload|, nKey), local, list);
      Stored(data, U, kind, b, list, payload) && Parse(U, kind, b).nKey == nKey && Parse(U, kind, b).nSize == |b|
        && OrdinarySize(kind, b)
  {
    hide Parse, CellHeader, WholeCell, Local, Start, Pieces, Four, MaxLocal, MinLocal, OrdinarySize, CellArgs, Holds,
      Chain, Stored;
    var h, nLocal := CellHeader(kind, left, |payload|, nKey), Local(U, kind, |payload|);
    var b := WholeCell(h, local, list);
    PayloadPlaced(h, local, list);
    LocalSpills(U, kind, |payload|);
    StartStep(U, nLocal, 0);
    if list != [] {
      StartOrder(U, nLocal, 0, |list| - 1);
      GetFour(b, |h| + nLocal, list[0]);
    }
    WholeParsed(U, kind, left, nKey, |payload|, local, list);
    HeaderLength(kind, left, |payload|, nKey);
    StoredIf(data, U, kind, b, list, payload, local);
  }

  lemma StoredIf(data: Pages, U: nat, kind: Kind, b: Bytes, list: seq<nat>, payload: Bytes, local: Bytes)
    requires U >= 480
    requires var info := Parse(U, kind, b);
      && info.nPayload == |payload| && info.nSize == |b| && info.payloadAt + info.nLocal <= |b|
      && b[info.payloadAt..info.payloadAt + info.nLocal] == local
      && Filling(data, U, info.nLocal, payload, |payload|, local, list)
      && (if list == [] then info.iOverflow == 0 && info.nLocal == |payload|
          else
            && info.iOverflow == info.payloadAt + info.nLocal > 0 && info.iOverflow + 4 <= |b|
            && Get4(b, info.iOverflow) == list[0] && Start(U, info.nLocal, |list| - 1) < |payload|)
    ensures Stored(data, U, kind, b, list, payload)
  {
    hide Parse, Start, Pieces, Chain;
  }

  lemma HeaderBuilt(kind: Kind, left: Bytes, nPayload: nat, nKey: nat)
    ensures CellHeader(kind, left, nPayload, nKey) ==
      if kind.TableLeaf? then left + Encode(nPayload) + Encode(nKey) else left + Encode(nKey)
  {
    hide Encode;
    assert left + [] == left;
  }

  lemma FillingStart(data: Pages, U: nat, nLocal: nat, payload: Bytes)
    requires U >= 480 && nLocal <= |payload|
    ensures Filling(data, U, nLocal, payload, 0, [], []) && SpaceLeft(U, nLocal, 0, [], nLocal) && Grown(data, data, [])
  {
    assert Elements([]) == {};
    assert payload[..0] == [];
  }

  lemma LocalFills(data: Pages, U: nat, nLocal: nat, payload: Bytes, pos: nat, done: Bytes, list: seq<nat>, z: Bytes,
                   space: nat)
    requires U >= 480 && Filling(data, U, nLocal, payload, pos, done, list) && SpaceLeft(U, nLocal, pos, list, space)
      && list == []
    requires |z| <= space && pos + |z| <= |payload| && z == payload[pos..pos + |z|]
    ensures Filling(data, U, nLocal, payload, pos + |z|, done + z, list)
    ensures SpaceLeft(U, nLocal, pos + |z|, list, space - |z|)
  {
    assert payload[..pos] + payload[pos..pos + |z|] == payload[..pos + |z|];
  }

  // The last page of a complete chain holds something.
  lemma LastPage(g: Geometry, autoVacuum: bool, nPage: nat, data: Pages, nLocal: nat, payload: Bytes, local: Bytes,
                 list: seq<nat>, space: nat)
    requires g.Valid() && PagesOk(g, autoVacuum, nPage, data)
      && Filling(data, g.usableSize, nLocal, payload, |payload|, local, list)
    requires SpaceLeft(g.usableSize, nLocal, |payload|, list, space) && (list != [] ==> space < g.usableSize - 4)
    ensures list != [] ==> Start(g.usableSize, nLocal, |list| - 1) < |payload| && list[0] < 0x1_0000_0000
  {
    if list != [] {
      StartStep(g.usableSize, nLocal, |list| - 1);
      assert Linked(data, g.usableSize, list, 0);
    }
  }

  /**
  The bytes of a cell: the left child, the size of the payload in the leaf of a table, the key, the local part of the
  payload, and the first overflow page, or zeros up to four bytes.
  */
  function CellBytes(U: nat, kind: Kind, left: Bytes, nKey: nat, payload: Bytes, list: seq<nat>): Bytes
    requires U >= 480
  {
    LocalSpills(U, kind, |payload|);
    WholeCell(CellHeader(kind, left, |payload|, nKey), payload[..Local(U, kind, |payload|)], list)
  }

  lemma CellWhole(header: Bytes, local: Bytes, list: seq<nat>, first: nat)
    requires first == if list == [] then 0 else list[0]
    requires list != [] ==> first > 0
    ensures WholeCell(header, local, list) ==
      if first != 0 then header + local + Four(first)
      else if |header + local| < 4 then header + local + seq(4 - |header + local|, _ => 0) else header + local
  {
    hide Four;
  }

  lemma LocalWhole(data: Pages, U: nat, nLocal: nat, payload: Bytes, local: Bytes, list: seq<nat>)
    requires U >= 480 && Filling(data, U, nLocal, payload, |payload|, local, list)
    ensures nLocal <= |payload| && local == payload[..nLocal]
  {}

  lemma NoneMapped(ptr: map<nat, Entry>)
    ensures Mapped(ptr, ptr, [])
  {}

  class Database {
    const g: Geometry
    const autoVacuum: bool
    var nPage: nat
    var data: Pages               // the pages in use
    var ptr: map<nat, Entry>

    ghost predicate Valid()
      reads this
    {
      && g.Valid() && PagesOk(g, autoVacuum, nPage, data)
      && (autoVacuum ==> MapTrue(data, ptr, None))
    }

    // allocateBtreePage: any page that is not in use, unless the file would be too large.
    method AllocatePage() returns (rc: Code, pgno: nat)
      requires g.Valid() && PagesOk(g, autoVacuum, nPage, data)
      modifies `nPage, `data
      ensures PagesOk(g, autoVacuum, nPage, data) && (rc == Ok || (rc == Full && data == old(data)))
      ensures rc == Ok ==> pgno !in old(data) && 2 <= pgno <= MAX_PAGE && pgno in data
      ensures rc == Ok ==> data == old(data)[pgno := data[pgno]]
    {
      if p :| 2 <= p <= nPage && p !in data && MayHold(g, autoVacuum, p) {
        pgno := p;
      } else {
        if autoVacuum {
          pgno := NextOrdinary(g, nPage + 1);
        } else {
          pgno := if nPage + 1 == g.pendingPage then nPage + 2 else nPage + 1;
        }
        if pgno > MAX_PAGE {
          return Full, 0;
        }
        nPage := pgno;
      }
      data := data[pgno := seq(g.usableSize, _ => 0)];
      rc := Ok;
    }

    /** getOverflowPage: the next page, from the pointer map if a guess is right, or else from the page. */
    method GetOverflowPage(ovfl: nat, ghost except: Option) returns (next: nat)
      requires g.Valid() && ovfl >= 2 && OnPage(data, g.usableSize, ovfl) && (except.Some? ==> except.parent != ovfl)
      requires autoVacuum ==> MapTrue(data, ptr, except)
      ensures next == NextOf(data, ovfl)
    {
      if autoVacuum {
        var iGuess := NextOrdinary(g, ovfl + 1);
        if iGuess <= nPage && iGuess in ptr && ptr[iGuess] == Entry(Overflow2, ovfl) {
          return iGuess;
        }
      }
      next := Get4(data[ovfl], 0);
    }

    // freePage2: the page is no longer in use, and the pointer map says so.
    method FreePage2(pgno: nat)
      requires pgno in data
      modifies `data, `ptr
      ensures data == old(data) - {pgno}
      ensures ptr == if autoVacuum then old(ptr)[pgno := Entry(FreePage, 0)] else old(ptr)
    {
      data := data - {pgno};
      if autoVacuum {
        ptr := ptr[pgno := Entry(FreePage, 0)];
      }
    }

    // A further overflow page, linked to the last one, and its entry in the pointer map.
    method AppendPage(pgnoOvfl: nat, ghost list: seq<nat>, ghost nLocal: nat, ghost payload: Bytes, ghost pos: nat,
                      ghost done: Bytes,
                      ghost data0: Pages, ghost ptr0: map<nat, Entry>) returns (rc: Code, pgno: nat)
      requires Valid() && Filling(data, g.usableSize, nLocal, payload, pos, done, list) && Grown(data0, data, list)
      requires SpaceLeft(g.usableSize, nLocal, pos, list, 0) && pgnoOvfl == (if list == [] then 0 else list[|list| - 1])
      requires autoVacuum ==> Mapped(ptr0, ptr, list)
      modifies `data, `ptr, `nPage
      ensures Valid() && (rc == Ok || rc == Full)
      ensures rc == Ok ==>
        Filling(data, g.usableSize, nLocal, payload, pos, done, list + [pgno]) && Grown(data0, data, list + [pgno])
      ensures rc == Ok ==> SpaceLeft(g.usableSize, nLocal, pos, list + [pgno], g.usableSize - 4) && pgno >= 2
      ensures if autoVacuum then rc == Ok ==> Mapped(ptr0, ptr, list + [pgno]) else ptr == old(ptr)
    {
      hide Piece, Start, Pieces, Chain, PagesOk, Linked, SpaceLeft, Grown, MapTrue, Filling, MayHold, Mapped;
      ghost var d0 := data;
      FillingFacts(data, g.usableSize, nLocal, payload, pos, done, list);
      rc, pgno := AllocatePage();
      if rc != Ok {
        return;
      }
      ghost var d1 := data;
      NewPage(d0, g.usableSize, nLocal, payload, pos, done, list, pgno, d1[pgno]);
      assert d1 - {pgno} == d0;
      LinkedOk(g, autoVacuum, nPage, d1, list, pgno);
      if autoVacuum {
        MapLinked(g, autoVacuum, nPage, d1, ptr, g.usableSize, list, pgno);
        MappedMore(ptr0, ptr, list, pgno);
        ptr := ptr[pgno := if pgnoOvfl != 0 then Entry(Overflow2, pgnoOvfl) else Entry(Overflow1, 0)];
      }
      if pgnoOvfl != 0 {
        data := data[pgnoOvfl := Put4(data[pgnoOvfl], 0, pgno)];
      }
      data := data[pgno := Put4(data[pgno], 0, 0)];
      assert data == LinkedPages(d1, list, pgno);
      LinkFills(d1, g.usableSize, nLocal, payload, pos, done, list, pgno);
      GrownLinked(data0, d0, list, pgno, d1[pgno]);
    }

    /**
    fillInCell: the bytes of a new cell, and new overflow pages for what does not fit in it. The payload is src and
    nZero zeros after it.
    */
    method FillInCell(kind: Kind, left: Bytes, nKey: nat, src: Bytes, nZero: nat)
      returns (rc: Code, cell: Bytes, ghost list: seq<nat>)
      requires Valid() && CellArgs(kind, left, nKey, |src| + nZero)
      modifies `data, `ptr, `nPage
      ensures Valid() && (rc == Ok || rc == Full)
      ensures rc == Ok ==>
        Stored(data, g.usableSize, kind, cell, list, src + seq(nZero, _ => 0)) && OrdinarySize(kind, cell)
      ensures rc == Ok ==>
        Parse(g.usableSize, kind, cell).nKey == nKey && Parse(g.usableSize, kind, cell).nSize == |cell|
      ensures rc == Ok ==> Grown(old(data), data, list)
      ensures rc == Ok ==> cell == CellBytes(g.usableSize, kind, left, nKey, src + seq(nZero, _ => 0), list)
      ensures rc == Ok ==> left + (if kind.TableLeaf? then Encode(|src| + nZero) else []) + Encode(nKey) <= cell
      ensures rc == Ok && autoVacuum ==> Mapped(old(ptr), ptr, list)
      ensures !autoVacuum ==> ptr == old(ptr)
    {
      hide Parse, Piece, Start, Pieces, Chain, PagesOk, MapTrue, Filling, SpaceLeft, Encode, Stored, Grown,
        PageWritten, CellHeader, MaxLocal, MinLocal, Mapped, WholeCell;
      cell, list := [], [];
      var U := g.usableSize;
      ghost var payload := src + seq(nZero, _ => 0);
      var header := left;
      if kind.TableLeaf? {
        var v := PutVarint(|src| + nZero);
        header := header + v;
      }
      var k := PutVarint(nKey);
      header := header + k;
      assert header == CellHeader(kind, left, |payload|, nKey) by {
        HeaderBuilt(kind, left, |payload|, nKey);
      }
      LocalSpills(U, kind, |src| + nZero);
      var local, first;
      rc, local, first, list := FillPayload(src, nZero, Local(U, kind, |src| + nZero));
      if rc != Ok {
        return;
      }
      cell := header + local;
      assert header == left + (if kind.TableLeaf? then Encode(|src| + nZero) else []) + Encode(nKey);
      assert header <= cell;
      if first != 0 {
        cell := cell + Four(first);
      } else if |cell| < 4 {
        cell := cell + seq(4 - |cell|, _ => 0);
      }
      CellWhole(header, local, list, first);
      LocalWhole(data, U, Local(U, kind, |payload|), payload, local, list);
      FilledStored(data, U, kind, left, nKey, payload, local, list);
    }

    // The loop of fillInCell over the payload: nLocal bytes for the cell, and the rest on overflow pages.
    method FillPayload(src: Bytes, nZero: nat, nLocal: nat)
      returns (rc: Code, local: Bytes, first: nat, ghost list: seq<nat>)
      requires Valid() && nLocal <= |src| + nZero
      modifies `data, `ptr, `nPage
      ensures Valid() && (rc == Ok || rc == Full)
      ensures var payload := src + seq(nZero, _ => 0);
        rc == Ok ==>
          && Filling(data, g.usableSize, nLocal, payload, |payload|, local, list)
          && (list != [] ==> Start(g.usableSize, nLocal, |list| - 1) < |payload| && list[0] < 0x1_0000_0000)
      ensures rc == Ok ==> Grown(old(data), data, list) && first == (if list == [] then 0 else list[0])
      ensures rc == Ok ==> (first != 0 <==> list != [])
      ensures if autoVacuum then rc == Ok ==> Mapped(old(ptr), ptr, list) else ptr == old(ptr)
    {
      hide Piece, Start, Pieces, Chain, PagesOk, MapTrue, Filling, SpaceLeft, Grown, PageWritten, Mapped;
      list := [];
      var U := g.usableSize;
      ghost var payload := src + seq(nZero, _ => 0);
      var nPayload, nSrc, pos: nat := |src| + nZero, |src|, 0;
      var spaceLeft: nat := nLocal;
      var pgnoOvfl := 0;
      local, first := [], 0;
      FillingStart(data, U, nLocal, payload);
      NoneMapped(ptr);
      while nPayload > 0
        invariant Valid() && pos <= |payload| && nPayload == |payload| - pos && nSrc == |src| - pos
        invariant Filling(data, U, nLocal, payload, pos, local, list) && SpaceLeft(U, nLocal, pos, list, spaceLeft)
        invariant Grown(old(data), data, list) && pgnoOvfl == (if list == [] then 0 else list[|list| - 1])
        invariant (first != 0 <==> list != []) && (list != [] ==> first == list[0] && spaceLeft < U - 4)
        invariant if autoVacuum then Mapped(old(ptr), ptr, list) else ptr == old(ptr)
        decreases nPayload
      {
        if spaceLeft == 0 {
          rc, pgnoOvfl := AppendPage(pgnoOvfl, list, nLocal, payload, pos, local, old(data), old(ptr));
          if rc != Ok {
            return;
          }
          if first == 0 { first := pgnoOvfl; }
          list := list + [pgnoOvfl];
          spaceLeft := U - 4;
        }
        var n := Smaller(nPayload, spaceLeft);
        var z: Bytes;
        if nSrc > 0 {
          n := Smaller(n, nSrc);
          z := src[|src| - nSrc..|src| - nSrc + n];
        } else {
          z := seq(n, _ => 0);
        }
        assert z == payload[pos..pos + n];
        if first == 0 {
          LocalFills(data, U, nLocal, payload, pos, local, list, z, spaceLeft);
          local := local + z;
        } else {
          WritePage(pgnoOvfl, z, spaceLeft, list, nLocal, payload, pos, local, old(data));
        }
        nPayload := nPayload - n;
        nSrc := nSrc - n;
        pos := pos + n;
        spaceLeft := spaceLeft - n;
      }
      LastPage(g, autoVacuum, nPage, data, nLocal, payload, local, list, spaceLeft);
      rc := Ok;
    }

    // The part z of the payload goes to the last page of the chain.
    method WritePage(pgnoOvfl: nat, z: Bytes, spaceLeft: nat, ghost list: seq<nat>, ghost nLocal: nat,
                     ghost payload: Bytes, ghost pos: nat,
                     ghost done: Bytes, ghost data0: Pages)
      requires Valid() && list != [] && pgnoOvfl == list[|list| - 1] && |z| <= spaceLeft
      requires Filling(data, g.usableSize, nLocal, payload, pos, done, list)
        && SpaceLeft(g.usableSize, nLocal, pos, list, spaceLeft)
      requires pos + |z| <= |payload| && z == payload[pos..pos + |z|] && Grown(data0, data, list)
      modifies `data
      ensures Valid() && Filling(data, g.usableSize, nLocal, payload, pos + |z|, done, list) && Grown(data0, data, list)
      ensures SpaceLeft(g.usableSize, nLocal, pos + |z|, list, spaceLeft - |z|)
    {
      hide Piece, Start, Pieces, Chain, PagesOk, MapTrue, Filling, SpaceLeft, Grown;
      WriteFills(data, g.usableSize, nLocal, payload, pos, done, list, |z|, spaceLeft);
      var at := g.usableSize - spaceLeft;
      MapWritten(g, autoVacuum, nPage, data, ptr, pgnoOvfl, at, z);
      GrownWritten(data0, data, list, at, z);
      data := data[pgnoOvfl := data[pgnoOvfl][..at] + z + data[pgnoOvfl][at + |z|..]];
    }

    /** clearCell: all overflow pages of a cell are freed, and no other page; the size is that of the cell. */
    method ClearCell(kind: Kind, pCell: Bytes, ghost list: seq<nat>, ghost payload: Bytes)
      returns (nSize: nat, rc: Code)
      requires Valid() && Stored(data, g.usableSize, kind, pCell, list, payload)
      modifies `data, `ptr
      ensures Valid() && rc == Ok && nSize == Parse(g.usableSize, kind, pCell).nSize
      ensures data == old(data) - Elements(list)
      ensures if autoVacuum then FreedMap(old(ptr), ptr, list, |list|) else ptr == old(ptr)
    {
      hide Parse, Piece, Chain;
      var info := ParseCellPtr(g.usableSize, kind, pCell);
      nSize := info.nSize;
      if info.iOverflow == 0 {
        assert data - Elements(list) == data;
        return nSize, Ok;
      }
      var ovflPgno := Get4(pCell, info.iOverflow);
      ChainLength(g.usableSize, info.nLocal, |payload|, |list|);
      var nOvfl := OverflowPages(g.usableSize, info.nPayload - info.nLocal);
      ghost var data0, k := data, 0;
      ChainStart(data, ptr, list);
      while nOvfl > 0
        invariant 0 <= k <= |list| && nOvfl == |list| - k
        invariant nOvfl > 0 ==> ovflPgno == list[k]
        invariant Freed(data0, data, list, k) && g.Valid() && nPage == old(nPage)
        invariant autoVacuum ==> MapTrue(data, ptr, Dangling(list, k))
        invariant if autoVacuum then FreedMap(old(ptr), ptr, list, k) else ptr == old(ptr)
      {
        nOvfl := nOvfl - 1;
        ChainPage(data0, data, g.usableSize, list, k);
        if ovflPgno < 2 || ovflPgno > nPage {
          return nSize, Corrupt;
        }
        var iNext := 0;
        if nOvfl > 0 {
          iNext := GetOverflowPage(ovflPgno, Dangling(list, k));
        }
        ghost var ptr0, d0 := ptr, data;
        FreePage2(ovflPgno);
        FreedNext(data0, d0, g.usableSize, list, k);
        if autoVacuum {
          MapFreed(data0, d0, ptr0, g.usableSize, list, k);
          FreedMapNext(old(ptr), ptr0, list, k);
        }
        k := k + 1;
        ovflPgno := iNext;
      }
      FreedAll(data0, data, list);
      rc := Ok;
    }
  }

  // ----- A cursor on a cell, with its cache of overflow page numbers -----

  // An entry of the cache is 0, or the page it stands for.
  ghost predicate CacheOk(aOverflow: seq<nat>, list: seq<nat>) {
    |aOverflow| >= |list| && forall k :: 0 <= k < |list| ==> aOverflow[k] == 0 || aOverflow[k] == list[k]
  }

  // The page that is next to be read; 0 after the last.
  function PageAt(list: seq<nat>, k: nat): nat {
    if k < |list| then list[k] else 0
  }

  // What has been read, and what is to be read next: position `off` on page k of the chain.
  ghost predicate Reading(U: nat, nLocal: nat, payload: Bytes, list: seq<nat>, from: nat, end: nat, buf: Bytes,
                          amt: nat, k: nat, off: nat,
                          nextPage: nat)
    requires U >= 480
  {
    && from <= end <= |payload| && amt <= end - from && buf == payload[from..end - amt]
    && (amt > 0 ==> k < |list| && nextPage == list[k] && Start(U, nLocal, k) + off == end - amt)
  }

  lemma ReadSkip(U: nat, nLocal: nat, payload: Bytes, list: seq<nat>, from: nat, end: nat, buf: Bytes, amt: nat, k: nat,
                 off: nat, p: nat)
    requires U >= 480 && Reading(U, nLocal, payload, list, from, end, buf, amt, k, off, p) && amt > 0 && off >= U - 4
    requires |payload| <= Start(U, nLocal, |list|)
    ensures k + 1 < |list|
      && Reading(U, nLocal, payload, list, from, end, buf, amt, k + 1, off - (U - 4), PageAt(list, k + 1))
  {
    StartStep(U, nLocal, k);
    StartOrder(U, nLocal, |list|, k + 1);
  }

  lemma ReadPiece(data: Pages, U: nat, nLocal: nat, payload: Bytes, list: seq<nat>, from: nat, end: nat, buf: Bytes,
                  amt: nat, k: nat,
                  off: nat, p: nat)
    requires U >= 480 && Reading(U, nLocal, payload, list, from, end, buf, amt, k, off, p) && amt > 0 && off < U - 4
    requires |payload| <= Start(U, nLocal, |list|) && Pieces(data, U, list, nLocal, payload, |payload|)
    ensures OnPage(data, U, p)
    ensures var a := Smaller(amt, U - 4 - off);
      off + 4 + a <= U
        && Reading(U, nLocal, payload, list, from, end, buf + data[p][off + 4..off + 4 + a], amt - a, k + 1, 0,
                   PageAt(list, k + 1))
  {
    hide Start;
    var a := Smaller(amt, U - 4 - off);
    assert Piece(data, U, list[k], payload, Start(U, nLocal, k), |payload|);
    PieceSlice(data, U, p, payload, Start(U, nLocal, k), off, a);
    SliceJoin(payload, from, end - amt, end - amt + a);
    StartStep(U, nLocal, k);
    StartOrder(U, nLocal, |list|, k + 1);
  }

  // The part of the payload on the b-tree page.
  lemma ReadLocal(b: Bytes, at: nat, nLocal: nat, payload: Bytes, off: nat, n: nat)
    requires at + nLocal <= |b| && nLocal <= |payload| && b[at..at + nLocal] == payload[..nLocal] && off + n <= nLocal
    ensures b[at + off..at + off + n] == payload[off..off + n]
  {
    SliceOfSlice(b, at, nLocal, off, n);
    SliceOfSlice(payload, 0, nLocal, off, n);
  }

  lemma ChainAt(data: Pages, U: nat, list: seq<nat>, k: nat)
    requires Chain(data, U, list) && k < |list|
    ensures list[k] >= 2 && OnPage(data, U, list[k]) && NextOf(data, list[k]) == PageAt(list, k + 1)
    ensures list[k] in data && |data[list[k]]| == U >= 480
    ensures Get4(data[list[k]], 0) == PageAt(list, k + 1)
  {
    assert Linked(data, U, list, k);
  }

  // What a payload that is longer than what is on the b-tree page says about its chain.
  lemma Spilled(data: Pages, U: nat, kind: Kind, b: Bytes, list: seq<nat>, payload: Bytes, o: nat)
    requires U >= 480 && Stored(data, U, kind, b, list, payload) && Parse(U, kind, b).nLocal + o < |payload|
    ensures var info := Parse(U, kind, b);
      && list != [] && info.iOverflow + 4 <= |b| && Get4(b, info.iOverflow) == list[0]
      && info.nPayload == |payload| >= info.nLocal
      && OverflowPages(U, info.nPayload - info.nLocal) == |list|
      && PageIndex(U, o) < |list| && Start(U, info.nLocal, PageIndex(U, o)) + PageOffset(U, o) == info.nLocal + o
      && Start(U, info.nLocal, 0) == info.nLocal
  {
    hide Parse, Start, Chain, Pieces, OverflowPages, PageIndex, PageOffset;
    var nLocal := Parse(U, kind, b).nLocal;
    StartStep(U, nLocal, 0);
    ChainLength(U, nLocal, |payload|, |list|);
    PageOfOffset(U, nLocal, |payload|, |list|, o);
  }

  class BtCursor {
    const db: Database
    const kind: Kind
    var pCell: Bytes
    var aOverflow: seq<nat>
    var validOvfl: bool

    constructor (db: Database, kind: Kind, pCell: Bytes)
      ensures this.db == db && this.kind == kind && this.pCell == pCell && !validOvfl
    {
      this.db, this.kind, this.pCell, aOverflow, validOvfl := db, kind, pCell, [], false;
    }

    /**
    accessPayload, for reading: exactly the part of the payload that was asked for, whatever the cache holds. With eOp 2
    the cache is not filled.
    */
    method AccessPayload(offset: nat, amt: nat, eOp: nat, ghost list: seq<nat>, ghost payload: Bytes)
      returns (pBuf: Bytes, rc: Code)
      requires db.Valid() && Stored(db.data, db.g.usableSize, kind, pCell, list, payload)
      requires offset + amt <= |payload| && (eOp == 0 || (eOp == 2 && offset == 0))
        && (validOvfl ==> CacheOk(aOverflow, list))
      modifies `aOverflow, `validOvfl
      ensures rc == Ok && pBuf == payload[offset..offset + amt]
      ensures validOvfl ==> CacheOk(aOverflow, list)
      ensures eOp == 2 ==> validOvfl == old(validOvfl)
    {
      hide Parse, Piece, Chain, Start, CacheOk;
      var U := db.g.usableSize;
      var info := ParseCellPtr(U, kind, pCell);
      var off, left := offset, amt;
      pBuf := [];
      if off < info.nLocal {
        var a := left;
        if a + off > info.nLocal { a := info.nLocal - off; }
        ReadLocal(pCell, info.payloadAt, info.nLocal, payload, off, a);
        pBuf := pCell[info.payloadAt + off..info.payloadAt + off + a];
        off := 0;
        left := left - a;
      } else {
        off := off - info.nLocal;
      }
      if left > 0 {
        pBuf := ReadChain(info, off, left, pBuf, eOp, offset, list, payload);
      }
      rc := Ok;
    }

    // The overflow part of accessPayload: what is to be read begins at `offset` of the overflow data.
    method ReadChain(info: CellInfo, offset: nat, amt: nat, pBuf0: Bytes, eOp: nat, ghost from: nat,
                     ghost list: seq<nat>, ghost payload: Bytes)
      returns (pBuf: Bytes)
      requires db.Valid() && Stored(db.data, db.g.usableSize, kind, pCell, list, payload)
      requires info == Parse(db.g.usableSize, kind, pCell) && amt > 0 && info.nLocal + offset + amt <= |payload|
      requires from <= info.nLocal + offset && pBuf0 == payload[from..info.nLocal + offset]
      requires (eOp == 0 || (eOp == 2 && offset == 0)) && (validOvfl ==> CacheOk(aOverflow, list))
      modifies `aOverflow, `validOvfl
      ensures pBuf == payload[from..info.nLocal + offset + amt]
      ensures validOvfl ==> CacheOk(aOverflow, list)
      ensures eOp == 2 ==> validOvfl == old(validOvfl)
    {
      hide Parse, Piece, Start, Chain, CacheOk, Pieces;
      var iIdx, nextPage, off := FirstPage(info, offset, amt, eOp, list, payload);
      pBuf := ReadPages(info.nLocal, iIdx, nextPage, off, amt, pBuf0, from, info.nLocal + offset + amt, list, payload);
    }

    // Where to begin: at the head of the chain, or at a page that the cache knows.
    method FirstPage(info: CellInfo, offset: nat, amt: nat, eOp: nat, ghost list: seq<nat>, ghost payload: Bytes)
      returns (iIdx: nat, nextPage: nat, off: nat)
      requires db.Valid() && Stored(db.data, db.g.usableSize, kind, pCell, list, payload)
      requires info == Parse(db.g.usableSize, kind, pCell) && amt > 0 && info.nLocal + offset + amt <= |payload|
      requires (eOp == 0 || (eOp == 2 && offset == 0)) && (validOvfl ==> CacheOk(aOverflow, list))
      modifies `aOverflow, `validOvfl
      ensures iIdx < |list| && nextPage == list[iIdx]
        && Start(db.g.usableSize, info.nLocal, iIdx) + off == info.nLocal + offset
      ensures validOvfl == (eOp != 2 || old(validOvfl)) && (validOvfl ==> CacheOk(aOverflow, list))
        && (!validOvfl ==> off == 0)
    {
      hide Parse, Start, Stored, OverflowPages, PageIndex, PageOffset;
      var U := db.g.usableSize;
      Spilled(db.data, U, kind, pCell, list, payload, offset);
      off, iIdx := offset, 0;
      nextPage := Get4(pCell, info.iOverflow);
      if eOp != 2 && !validOvfl {
        var nOvfl := OverflowPages(U, info.nPayload - info.nLocal);
        aOverflow := seq(nOvfl, _ => 0);
        validOvfl := true;
      }
      if validOvfl && aOverflow[PageIndex(U, offset)] != 0 {
        iIdx := PageIndex(U, offset);
        nextPage := aOverflow[iIdx];
        off := PageOffset(U, offset);
      }
    }

    // The loop over overflow pages.
    method ReadPages(ghost nLocal: nat, iIdx0: nat, nextPage0: nat, off0: nat, amt: nat, pBuf0: Bytes, ghost from: nat,
                     ghost end: nat,
                     ghost list: seq<nat>, ghost payload: Bytes) returns (pBuf: Bytes)
      requires db.Valid() && Chain(db.data, db.g.usableSize, list)
        && |payload| <= Start(db.g.usableSize, nLocal, |list|)
      requires Pieces(db.data, db.g.usableSize, list, nLocal, payload, |payload|)
      requires Reading(db.g.usableSize, nLocal, payload, list, from, end, pBuf0, amt, iIdx0, off0, nextPage0)
      requires (validOvfl ==> CacheOk(aOverflow, list)) && (!validOvfl ==> off0 == 0)
      modifies `aOverflow
      ensures pBuf == payload[from..end]
      ensures validOvfl ==> CacheOk(aOverflow, list)
    {
      hide Start, Pieces, Chain, OnPage;
      var U := db.g.usableSize;
      var ovflSize := U - 4;
      var off: nat, left: nat, iIdx: nat, nextPage: nat := off0, amt, iIdx0, nextPage0;
      pBuf := pBuf0;
      while left > 0 && nextPage != 0
        invariant Reading(U, nLocal, payload, list, from, end, pBuf, left, iIdx, off, nextPage)
        invariant (validOvfl ==> CacheOk(aOverflow, list)) && (!validOvfl ==> off == 0)
        decreases left, off
      {
        ChainAt(db.data, U, list, iIdx);
        if validOvfl {
          aOverflow := aOverflow[iIdx := nextPage];
        }
        if off >= ovflSize {
          ReadSkip(U, nLocal, payload, list, from, end, pBuf, left, iIdx, off, nextPage);
          ChainAt(db.data, U, list, iIdx + 1);
          if aOverflow[iIdx + 1] != 0 {
            nextPage := aOverflow[iIdx + 1];
          } else {
            nextPage := db.GetOverflowPage(nextPage, None);
          }
          off := off - ovflSize;
        } else {
          var a := left;
          if a + off > ovflSize { a := ovflSize - off; }
          ReadPiece(db.data, U, nLocal, payload, list, from, end, pBuf, left, iIdx, off, nextPage);
          var aPayload := db.data[nextPage];
          nextPage := Get4(aPayload, 0);
          pBuf := pBuf + aPayload[off + 4..off + 4 + a];
          off := 0;
          left := left - a;
        }
        iIdx := iIdx + 1;
      }
      if left > 0 {
        ChainAt(db.data, U, list, iIdx);
      }
    }
  }

  /** A cell that is filled in and cleared again leaves the pages in use as they were. */
  method FillAndClear(db: Database, kind: Kind, left: Bytes, nKey: nat, src: Bytes, nZero: nat) returns (rc: Code)
    requires db.Valid() && CellArgs(kind, left, nKey, |src| + nZero)
    modifies db
    ensures db.Valid() && (rc == Ok || rc == Full)
    ensures rc == Ok ==> db.data == old(db.data)
  {
    hide Stored, Parse;
    var cell;
    ghost var list;
    rc, cell, list := db.FillInCell(kind, left, nKey, src, nZero);
    if rc == Ok {
      var nSize;
      ghost var data1 := db.data;
      nSize, rc := db.ClearCell(kind, cell, list, src + seq(nZero, _ => 0));
      GrownBack(old(db.data), data1, list);
    }
  }

  lemma GrownBack(data: Pages, data': Pages, list: seq<nat>)
    requires Grown(data, data', list)
    ensures data' - Elements(list) == data
  {
    var d := data' - Elements(list);
    assert d.Keys == data.Keys;
    assert forall p :: p in data ==> d[p] == data[p];
  }

  /** Any part of a payload that was just stored is read back, whether or not the cache of page numbers is filled. */
  method FillAndRead(db: Database, kind: Kind, left: Bytes, nKey: nat, src: Bytes, nZero: nat, parts: seq<(nat, nat)>)
      returns (rc: Code, bufs: seq<Bytes>)
    requires db.Valid() && CellArgs(kind, left, nKey, |src| + nZero)
    requires forall i :: 0 <= i < |parts| ==> parts[i].0 + parts[i].1 <= |src| + nZero
    modifies db
    ensures rc == Ok || rc == Full
    ensures rc == Ok ==> |bufs| == |parts|
    ensures rc == Ok ==> forall i :: 0 <= i < |parts| ==>
      bufs[i] == (src + seq(nZero, _ => 0))[parts[i].0..parts[i].0 + parts[i].1]
  {
    hide Stored, Parse, CacheOk;
    bufs := [];
    ghost var payload := src + seq(nZero, _ => 0);
    var cell;
    ghost var list;
    rc, cell, list := db.FillInCell(kind, left, nKey, src, nZero);
    if rc == Ok {
      var cur := new BtCursor(db, kind, cell);
      var i := 0;
      while i < |parts|
        invariant 0 <= i <= |parts| && |bufs| == i && rc == Ok && db.Valid() && cur.pCell == cell
        invariant Stored(db.data, db.g.usableSize, kind, cell, list, payload)
        invariant cur.validOvfl ==> CacheOk(cur.aOverflow, list)
        invariant forall j :: 0 <= j < i ==> bufs[j] == payload[parts[j].0..parts[j].0 + parts[j].1]
      {
        var buf;
        buf, rc := cur.AccessPayload(parts[i].0, parts[i].1, 0, list, payload);
        bufs := bufs + [buf];
        i := i + 1;
      }
    }
  }
}
