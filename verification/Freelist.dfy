/**
The freelist of a database file (allocateBtreePage and freePage2): trunk pages, each with the numbers of some leaf
pages, linked from the header on page 1, which also holds the number of free pages.
*/
module Freelist {
  import opened Encoding
  import opened PtrMap

  type Pages = map<nat, Bytes>

  /** A trunk page, and the leaves it lists. */
  datatype Trunk = Trunk(pgno: nat, leaves: seq<nat>)

  datatype PtrType = FreePage | Other

  datatype Mode = Any | Exact | AtMost

  datatype Code = Ok | Corrupt | Full

  // ----- The list as it is on the pages -----

  function NextPage(ts: seq<Trunk>, j: nat): nat {
    if j < |ts| then ts[j].pgno else 0
  }

  ghost predicate LeafOk(d: Bytes, leaves: seq<nat>, i: nat) {
    i < |leaves| && 8 + 4 * i + 4 <= |d| && Get4(d, 8 + 4 * i) == leaves[i]
  }

  // Page d holds a trunk with these leaves; the next trunk is `next`.
  ghost predicate TrunkPage(U: nat, d: Bytes, next: nat, leaves: seq<nat>) {
    && |d| == U && 480 <= U <= 65536 && Get4(d, 0) == next && Get4(d, 4) == |leaves| <= U / 4 - 2
    && forall i :: 0 <= i < |leaves| ==> LeafOk(d, leaves, i)
  }

  ghost predicate TrunkOk(U: nat, data: Pages, ts: seq<Trunk>, j: nat) {
    j < |ts| && ts[j].pgno in data && TrunkPage(U, data[ts[j].pgno], NextPage(ts, j + 1), ts[j].leaves)
  }

  ghost predicate ListOk(U: nat, page1: Bytes, data: Pages, ts: seq<Trunk>) {
    && |page1| >= 100 && Get4(page1, 32) == NextPage(ts, 0)
    && forall j :: 0 <= j < |ts| ==> TrunkOk(U, data, ts, j)
  }

  /** All pages of a list. */
  function Flat(ts: seq<Trunk>): seq<nat> {
    if ts == [] then [] else [ts[0].pgno] + ts[0].leaves + Flat(ts[1..])
  }

  lemma FlatFirst(ts: seq<Trunk>)
    requires ts != []
    ensures Flat(ts) == [ts[0].pgno] + ts[0].leaves + Flat(ts[1..])
  {}

  lemma {:induction false} FlatConcat(a: seq<Trunk>, b: seq<Trunk>)
    ensures Flat(a + b) == Flat(a) + Flat(b)
  {
    if a == [] {
      assert a + b == b;
    } else {
      FlatConcat(a[1..], b);
      FlatConcatStep(a, b);
    }
  }

  lemma FlatConcatStep(a: seq<Trunk>, b: seq<Trunk>)
    requires a != [] && Flat(a[1..] + b) == Flat(a[1..]) + Flat(b)
    ensures Flat(a + b) == Flat(a) + Flat(b)
  {
    hide Flat;
    FlatFirst(a);
    FlatFirst(a + b);
    assert (a + b)[0] == a[0] && (a + b)[1..] == a[1..] + b;
    var h := [a[0].pgno] + a[0].leaves;
    assert h + Flat(a[1..]) + Flat(b) == h + (Flat(a[1..]) + Flat(b));
  }

  function PagesOf(t: Trunk): multiset<nat> {
    multiset{t.pgno} + multiset(t.leaves)
  }

  // Trunk j is replaced by others.
  function Replaced(ts: seq<Trunk>, j: nat, mid: seq<Trunk>): seq<Trunk>
    requires j < |ts|
  {
    ts[..j] + mid + ts[j + 1..]
  }

  lemma FlatSplit(ts: seq<Trunk>, j: nat)
    requires j < |ts|
    ensures multiset(Flat(ts)) == multiset(Flat(ts[..j])) + PagesOf(ts[j]) + multiset(Flat(ts[j + 1..]))
  {
    FlatConcat(ts[..j], ts[j..]);
    assert ts[..j] + ts[j..] == ts;
    assert ts[j..][0] == ts[j] && ts[j..][1..] == ts[j + 1..];
  }

  lemma FlatReplaced(ts: seq<Trunk>, j: nat, mid: seq<Trunk>)
    requires j < |ts|
    ensures multiset(Flat(Replaced(ts, j, mid))) == multiset(Flat(ts)) - PagesOf(ts[j]) + multiset(Flat(mid))
  {
    FlatSplit(ts, j);
    FlatConcat(ts[..j] + mid, ts[j + 1..]);
    FlatConcat(ts[..j], mid);
  }

  lemma FlatOne(t: Trunk)
    ensures multiset(Flat([t])) == PagesOf(t)
  {
    assert Flat([t][1..]) == [];
    assert Flat([t]) == [t.pgno] + t.leaves;
  }

  /** The pages of the list are the free pages, each once, and all of them can hold data. */
  ghost predicate Lists(g: Geometry, nPage: nat, ts: seq<Trunk>, free: set<nat>)
    requires g.Valid()
  {
    && multiset(Flat(ts)) == multiset(free) && 1 <= nPage <= MAX_PAGE
    && forall p :: p in free ==> 2 <= p <= nPage && p != g.pendingPage
  }

  lemma InList(ts: seq<Trunk>, free: set<nat>, j: nat)
    requires multiset(Flat(ts)) == multiset(free) && j < |ts|
    ensures ts[j].pgno in free && forall i :: 0 <= i < |ts[j].leaves| ==> ts[j].leaves[i] in free
  {
    FlatSplit(ts, j);
    assert ts[j].pgno in multiset(Flat(ts));
    forall i | 0 <= i < |ts[j].leaves|
      ensures ts[j].leaves[i] in free
    {
      assert ts[j].leaves[i] in multiset(ts[j].leaves);
      assert ts[j].leaves[i] in multiset(Flat(ts));
    }
  }

  lemma TrunkDistinct(ts: seq<Trunk>, free: set<nat>, i: nat, j: nat)
    requires multiset(Flat(ts)) == multiset(free) && i < |ts| && j < |ts| && i != j
    ensures ts[i].pgno != ts[j].pgno && ts[i].pgno !in ts[j].leaves
  {
    FlatSplit(ts, j);
    var p := ts[i].pgno;
    var part := if i < j then ts[..j] else ts[j + 1..];
    var k := if i < j then i else i - j - 1;
    FlatSplit(part, k);
    assert part[k] == ts[i];
    assert multiset(Flat(part))[p] >= 1;
    assert p in ts[j].leaves <==> p in multiset(ts[j].leaves);
    assert multiset(free)[p] <= 1;
  }

  // A trunk is not one of its own leaves.
  lemma NotOwnLeaf(ts: seq<Trunk>, free: set<nat>, j: nat)
    requires multiset(Flat(ts)) == multiset(free) && j < |ts|
    ensures ts[j].pgno !in ts[j].leaves
  {
    FlatSplit(ts, j);
    var p := ts[j].pgno;
    assert p in ts[j].leaves <==> p in multiset(ts[j].leaves);
    assert multiset(free)[p] <= 1;
  }

  lemma {:induction false} AllInTrunks(ts: seq<Trunk>, p: nat) returns (j: nat)
    requires p in Flat(ts)
    ensures j < |ts| && (p == ts[j].pgno || p in ts[j].leaves)
  {
    if p == ts[0].pgno || p in ts[0].leaves {
      j := 0;
    } else {
      j := AllInTrunks(ts[1..], p);
      j := j + 1;
    }
  }

  lemma FreeInTrunks(ts: seq<Trunk>, free: set<nat>, p: nat) returns (j: nat)
    requires multiset(Flat(ts)) == multiset(free) && p in free
    ensures j < |ts| && (p == ts[j].pgno || p in ts[j].leaves)
  {
    assert p in multiset(Flat(ts));
    j := AllInTrunks(ts, p);
  }

  // There are fewer free pages than pages.
  lemma {:induction false} FewFree(free: set<nat>, n: nat)
    requires n >= 1 && forall p :: p in free ==> 2 <= p <= n
    ensures |free| < n
  {
    if n == 1 {
      assert free == {};
    } else {
      FewFree(free - {n}, n - 1);
    }
  }

  // ----- Writing to trunk pages -----

  // Four bytes of d2 are copied to d.
  function Copy4(d: Bytes, i: nat, d2: Bytes, i2: nat): (r: Bytes)
    requires i + 4 <= |d| && i2 + 4 <= |d2|
    ensures |r| == |d| && r[i..i + 4] == d2[i2..i2 + 4]
    ensures forall o :: 0 <= o < |d| && !(i <= o < i + 4) ==> r[o] == d[o]
  {
    d[..i] + d2[i2..i2 + 4] + d[i + 4..]
  }

  /** Only bytes between two offsets were written. */
  ghost predicate WrittenIn(d: Bytes, d': Bytes, from: nat, to: nat) {
    |d'| == |d| && forall o :: 0 <= o < |d| && !(from <= o < to) ==> d'[o] == d[o]
  }

  // Numbers other than the one that was written stay.
  lemma Get4Kept(d: Bytes, d': Bytes, i: nat, at: nat)
    requires |d'| == |d| && at + 4 <= |d| && (at + 4 <= i || i + 4 <= at)
    requires forall o :: 0 <= o < |d| && !(i <= o < i + 4) ==> d'[o] == d[o]
    ensures Get4(d', at) == Get4(d, at)
  {}

  lemma SetNext(U: nat, d: Bytes, d': Bytes, next: nat, leaves: seq<nat>, next': nat)
    requires TrunkPage(U, d, next, leaves) && |d'| == U && d'[0..4] == Four(next') && next' < 0x1_0000_0000
    requires forall o :: 4 <= o < |d| ==> d'[o] == d[o]
    ensures TrunkPage(U, d', next', leaves)
  {
    GetFour(d', 0, next');
    Get4Kept(d, d', 0, 4);
    forall i | 0 <= i < |leaves|
      ensures LeafOk(d', leaves, i)
    {
      assert LeafOk(d, leaves, i);
      Get4Kept(d, d', 0, 8 + 4 * i);
    }
  }

  // As memcpy copies it: the link of another trunk page.
  lemma CopyNext(U: nat, d: Bytes, next: nat, leaves: seq<nat>, d2: Bytes, next2: nat)
    requires TrunkPage(U, d, next, leaves) && |d2| >= 4 && Get4(d2, 0) == next2
    ensures TrunkPage(U, Copy4(d, 0, d2, 0), next2, leaves)
  {
    var d' := Copy4(d, 0, d2, 0);
    GetSame(d', d2, 0, 0);
    Get4Kept(d, d', 0, 4);
    forall i | 0 <= i < |leaves|
      ensures LeafOk(d', leaves, i)
    {
      assert LeafOk(d, leaves, i);
      Get4Kept(d, d', 0, 8 + 4 * i);
    }
  }

  // The leaves without number i: the last one takes its place.
  function Cut(leaves: seq<nat>, i: nat): seq<nat>
    requires i < |leaves|
  {
    leaves[i := leaves[|leaves| - 1]][..|leaves| - 1]
  }

  lemma CutCount(leaves: seq<nat>, i: nat)
    requires i < |leaves|
    ensures multiset(Cut(leaves, i)) == multiset(leaves) - multiset{leaves[i]}
  {
    var n := |leaves| - 1;
    var u := leaves[i := leaves[n]];
    assert u == u[..n] + [leaves[n]];
    assert leaves == leaves[..n] + [leaves[n]];
    if i == n {
      assert u[..n] == leaves[..n];
    } else {
      assert multiset(u) == multiset(leaves) - multiset{leaves[i]} + multiset{leaves[n]};
    }
  }

  lemma CutPages(t: Trunk, i: nat)
    requires i < |t.leaves|
    ensures PagesOf(t) == multiset{t.leaves[i]} + PagesOf(Trunk(t.pgno, Cut(t.leaves, i)))
  {
    hide Cut;
    CutCount(t.leaves, i);
    assert t.leaves[i] in multiset(t.leaves);
  }

  /** The bytes of a trunk page from which a leaf is taken. */
  function LeafTaken(d: Bytes, i: nat, k: nat): (r: Bytes)
    requires 0 < k && i < k && 8 + 4 * k <= |d|
    ensures |r| == |d|
  {
    Put4(Moved(d, i, k), 4, k - 1)
  }

  // The list after the leaf was overwritten by the last one, before the number of leaves is.
  function Moved(d: Bytes, i: nat, k: nat): (d1: Bytes)
    requires i < k && 8 + 4 * k <= |d|
    ensures |d1| == |d|
  {
    if i < k - 1 then Copy4(d, 8 + 4 * i, d, 4 + 4 * k) else d
  }

  lemma MovedAt(d: Bytes, leaves: seq<nat>, i: nat, j: nat)
    requires i < |leaves| && j < |leaves| - 1 && 8 + 4 * |leaves| <= |d|
    requires LeafOk(d, leaves, j) && LeafOk(d, leaves, |leaves| - 1)
    ensures Get4(Moved(d, i, |leaves|), 8 + 4 * j) == Cut(leaves, i)[j]
  {
    hide Get4;
    var k := |leaves|;
    if i < k - 1 {
      if j == i {
        GetSame(Moved(d, i, k), d, 8 + 4 * i, 4 + 4 * k);
      } else {
        Get4Kept(d, Moved(d, i, k), 8 + 4 * i, 8 + 4 * j);
      }
    }
  }

  lemma LeafTakenOk(U: nat, d: Bytes, next: nat, leaves: seq<nat>, i: nat)
    requires TrunkPage(U, d, next, leaves) && i < |leaves|
    ensures 8 + 4 * |leaves| <= |d| && TrunkPage(U, LeafTaken(d, i, |leaves|), next, Cut(leaves, i))
  {
    hide Get4, Four, Copy4, Put4;
    var k := |leaves|;
    assert LeafOk(d, leaves, k - 1);
    var d1, d' := Moved(d, i, k), LeafTaken(d, i, k);
    if i < k - 1 {
      Get4Kept(d, d1, 8 + 4 * i, 0);
    }
    Get4Kept(d1, d', 4, 0);
    GetFour(d', 4, k - 1);
    forall j | 0 <= j < k - 1
      ensures LeafOk(d', Cut(leaves, i), j)
    {
      assert LeafOk(d, leaves, j);
      MovedAt(d, leaves, i, j);
      Get4Kept(d1, d', 4, 8 + 4 * j);
    }
  }

  lemma PromotePages(t: Trunk)
    requires t.leaves != []
    ensures PagesOf(t) == multiset{t.pgno} + PagesOf(Trunk(t.leaves[0], t.leaves[1..]))
  {
    assert t.leaves == [t.leaves[0]] + t.leaves[1..];
  }

  /** The bytes of a leaf that becomes a trunk page in the place of d. */
  function Promoted(d2: Bytes, d: Bytes, k: nat): (r: Bytes)
    requires 0 < k && 8 + 4 * k <= |d| && |d2| == |d|
    ensures |r| == |d|
  {
    var d3 := Put4(Copy4(d2, 0, d, 0), 4, k - 1);
    d3[..8] + d[12..12 + 4 * (k - 1)] + d3[8 + 4 * (k - 1)..]
  }

  lemma PromotedOk(U: nat, d2: Bytes, d: Bytes, next: nat, leaves: seq<nat>)
    requires TrunkPage(U, d, next, leaves) && leaves != [] && |d2| == |d|
    ensures 8 + 4 * |leaves| <= |d| && TrunkPage(U, Promoted(d2, d, |leaves|), next, leaves[1..])
  {
    hide Get4, Four;
    var k := |leaves|;
    assert LeafOk(d, leaves, k - 1);
    var d1 := Copy4(d2, 0, d, 0);
    var d3 := Put4(d1, 4, k - 1);
    var d' := Promoted(d2, d, k);
    GetSame(d1, d, 0, 0);
    Get4Kept(d1, d3, 4, 0);
    GetFour(d3, 4, k - 1);
    assert d'[0..4] == d3[0..4] && d'[4..8] == d3[4..8];
    GetSame(d', d3, 0, 0);
    GetSame(d', d3, 4, 4);
    forall i | 0 <= i < k - 1
      ensures LeafOk(d', leaves[1..], i)
    {
      assert LeafOk(d, leaves, i + 1);
      PromotedSlice(d2, d, k, i);
      GetSame(d', d, 8 + 4 * i, 8 + 4 * (i + 1));
    }
  }

  lemma PromotedSlice(d2: Bytes, d: Bytes, k: nat, i: nat)
    requires 0 < k && 8 + 4 * k <= |d| && |d2| == |d| && i + 1 < k
    ensures Promoted(d2, d, k)[8 + 4 * i..8 + 4 * i + 4] == d[8 + 4 * (i + 1)..8 + 4 * (i + 1) + 4]
  {
    hide Four;
    var x, y := Promoted(d2, d, k)[8 + 4 * i..8 + 4 * i + 4], d[8 + 4 * (i + 1)..8 + 4 * (i + 1) + 4];
    var z := d[12..12 + 4 * (k - 1)];
    forall o | 0 <= o < 4
      ensures x[o] == y[o]
    {
      assert x[o] == Promoted(d2, d, k)[8 + 4 * i + o] == z[4 * i + o] == d[12 + 4 * i + o];
    }
  }

  /** The bytes of a trunk page to which a leaf is added. */
  function LeafAdded(d: Bytes, k: nat, p: nat): (r: Bytes)
    requires 8 + 4 * k + 4 <= |d|
    ensures |r| == |d|
  {
    Put4(Put4(d, 4, k + 1), 8 + 4 * k, p)
  }

  lemma LeafAddedOk(U: nat, d: Bytes, next: nat, leaves: seq<nat>, p: nat)
    requires TrunkPage(U, d, next, leaves) && |leaves| + 1 <= U / 4 - 2 && p < 0x1_0000_0000
    ensures TrunkPage(U, LeafAdded(d, |leaves|, p), next, leaves + [p])
  {
    hide Get4, Four;
    var k := |leaves|;
    var d1, d', at := Put4(d, 4, k + 1), LeafAdded(d, k, p), 8 + 4 * k;
    Get4Kept(d, d1, 4, 0);
    Get4Kept(d1, d', at, 0);
    GetFour(d1, 4, k + 1);
    Get4Kept(d1, d', at, 4);
    GetFour(d', at, p);
    forall i | 0 <= i < k + 1
      ensures LeafOk(d', leaves + [p], i)
    {
      if i < k {
        assert LeafOk(d, leaves, i);
        Get4Kept(d, d1, 4, 8 + 4 * i);
        Get4Kept(d1, d', at, 8 + 4 * i);
      }
    }
  }

  /** The bytes of a new trunk page without leaves. */
  function NewTrunk(d: Bytes, next: nat): (r: Bytes)
    requires |d| >= 8
    ensures |r| == |d|
  {
    Put4(Put4(d, 0, next), 4, 0)
  }

  lemma NewTrunkOk(U: nat, d: Bytes, next: nat)
    requires |d| == U && 480 <= U <= 65536 && next < 0x1_0000_0000
    ensures TrunkPage(U, NewTrunk(d, next), next, [])
  {
    var d1 := Put4(d, 0, next);
    GetFour(d1, 0, next);
    Get4Kept(d1, Put4(d1, 4, 0), 4, 0);
    GetFour(Put4(d1, 4, 0), 4, 0);
  }

  // ----- The list after a change -----

  // What links to trunk j: the header of the file, or the trunk before it.
  ghost predicate LinkedTo(U: nat, page1: Bytes, data: Pages, ts: seq<Trunk>, j: nat, next: nat) {
    j < |ts| && if j == 0 then |page1| >= 100 && Get4(page1, 32) == next
      else ts[j - 1].pgno in data && TrunkPage(U, data[ts[j - 1].pgno], next, ts[j - 1].leaves)
  }

  ghost predicate SameElsewhere(data: Pages, data': Pages, ts: seq<Trunk>, j: nat) {
    forall i :: 0 <= i < |ts| && i != j && i + 1 != j ==>
      ts[i].pgno in data' && ts[i].pgno in data && data'[ts[i].pgno] == data[ts[i].pgno]
  }

  /** Trunk j is taken out, or another is put in its place. */
  lemma Relinked(U: nat, page1: Bytes, data: Pages, ts: seq<Trunk>, j: nat, mid: seq<Trunk>, page1': Bytes,
                 data': Pages)
    requires ListOk(U, page1, data, ts) && j < |ts| && |mid| <= 1 && SameElsewhere(data, data', ts, j)
      && |page1'| >= 100
    requires LinkedTo(U, page1', data', ts, j, NextPage(mid + ts[j + 1..], 0))
    requires j > 0 ==> Get4(page1', 32) == Get4(page1, 32)
    requires mid != [] ==> mid[0].pgno in data' && TrunkPage(U, data'[mid[0].pgno], NextPage(ts, j + 1), mid[0].leaves)
    ensures ListOk(U, page1', data', Replaced(ts, j, mid))
  {
    hide TrunkPage;
    var ts' := Replaced(ts, j, mid);
    assert NextPage(ts', j) == NextPage(mid + ts[j + 1..], 0);
    forall i | 0 <= i < |ts'|
      ensures TrunkOk(U, data', ts', i)
    {
      if i + 1 < j {
        assert TrunkOk(U, data, ts, i) && ts'[i] == ts[i];
      } else if i + 1 == j {
        assert ts'[i] == ts[i];
      } else if i < j + |mid| {
        assert i == j && ts'[i] == mid[0];
      } else {
        var i0 := i - |mid| + 1;
        assert TrunkOk(U, data, ts, i0) && ts'[i] == ts[i0];
      }
    }
  }

  // No free page up to trunk j is one that is looked for.
  ghost predicate NoneBefore(ts: seq<Trunk>, j: nat, nearby: nat, eMode: Mode) {
    forall i :: 0 <= i < j && i < |ts| ==> NoneIn(ts[i], nearby, eMode)
  }

  predicate Wanted(p: nat, nearby: nat, eMode: Mode) {
    p == nearby || (p < nearby && eMode == AtMost)
  }

  ghost predicate NoneIn(t: Trunk, nearby: nat, eMode: Mode) {
    !Wanted(t.pgno, nearby, eMode) && forall i :: 0 <= i < |t.leaves| ==> !Wanted(t.leaves[i], nearby, eMode)
  }

  lemma NoneLeft(g: Geometry, nPage: nat, ts: seq<Trunk>, free: set<nat>, nearby: nat, eMode: Mode)
    requires g.Valid() && Lists(g, nPage, ts, free) && NoneBefore(ts, |ts|, nearby, eMode)
    ensures forall p :: p in free ==> !Wanted(p, nearby, eMode)
  {
    forall p | p in free
      ensures !Wanted(p, nearby, eMode)
    {
      var j := FreeInTrunks(ts, free, p);
      assert NoneIn(ts[j], nearby, eMode);
    }
  }

  function Distance(p: nat, nearby: nat): (r: nat)
    ensures r == p - nearby || r == nearby - p
  {
    if p < nearby then nearby - p else p - nearby
  }

  // The leaf of a trunk that is taken: for AtMost the first that is not greater, and otherwise the closest.
  ghost predicate Choice(leaves: seq<nat>, nearby: nat, eMode: Mode, c: nat) {
    && c < |leaves|
    && (nearby > 0 && eMode == AtMost ==>
          leaves[c] <= nearby || forall i :: 0 <= i < |leaves| ==> leaves[i] > nearby)
    && (nearby > 0 && eMode != AtMost ==> forall i :: 0 <= i < |leaves| ==>
          Distance(leaves[c], nearby) <= Distance(leaves[i], nearby))
  }

  lemma EmptyFirst(ts: seq<Trunk>, nearby: nat)
    requires ts != [] && ts[0].leaves == []
    ensures FromFirst(ts, nearby, ts[0].pgno)
  {}

  lemma ChosenFirst(ts: seq<Trunk>, nearby: nat, eMode: Mode, c: nat)
    requires ts != [] && eMode != AtMost && Choice(ts[0].leaves, nearby, eMode, c)
    ensures FromFirst(ts, nearby, ts[0].leaves[c])
  {}

  lemma ChoiceMisses(t: Trunk, nearby: nat, eMode: Mode, c: nat)
    requires Choice(t.leaves, nearby, eMode, c) && nearby > 0 && eMode != Any
    requires !Wanted(t.leaves[c], nearby, eMode) && !Wanted(t.pgno, nearby, eMode)
    ensures NoneIn(t, nearby, eMode)
  {}

  // The free pages after p is taken from trunk j.
  lemma ListsTaken(g: Geometry, nPage: nat, ts: seq<Trunk>, free: set<nat>, j: nat, mid: seq<Trunk>, p: nat)
    requires g.Valid() && Lists(g, nPage, ts, free) && j < |ts| && |mid| <= 1
    requires PagesOf(ts[j]) == multiset{p} + (if mid == [] then multiset{} else PagesOf(mid[0]))
    ensures p in free && Lists(g, nPage, Replaced(ts, j, mid), free - {p})
  {
    hide Flat, PagesOf, Geometry.Valid;
    var c := if mid == [] then multiset{} else PagesOf(mid[0]);
    FlatReplaced(ts, j, mid);
    FlatSplit(ts, j);
    FlatFew(mid);
    TakenOut(multiset(Flat(ts)), PagesOf(ts[j]), c, free, p);
  }

  lemma FlatFew(mid: seq<Trunk>)
    requires |mid| <= 1
    ensures multiset(Flat(mid)) == if mid == [] then multiset{} else PagesOf(mid[0])
  {
    if mid != [] {
      FlatOne(mid[0]);
      assert mid == [mid[0]];
    }
  }

  lemma TakenOut(a: multiset<nat>, b: multiset<nat>, c: multiset<nat>, free: set<nat>, p: nat)
    requires a == multiset(free) && b <= a && b == multiset{p} + c
    ensures p in free && a - b + c == multiset(free - {p})
  {
    assert b[p] >= 1 && a[p] >= 1;
    assert a - b + c == a - multiset{p};
  }

  // ----- The database file -----

  // All but the number of free pages in the header.
  ghost predicate FileOk(g: Geometry, autoVacuum: bool, nPage: nat, page1: Bytes, data: Pages, ptr: map<nat, PtrType>,
                         ts: seq<Trunk>,
                         free: set<nat>) {
    && g.Valid() && ListOk(g.usableSize, page1, data, ts) && Lists(g, nPage, ts, free)
    && (forall p :: 2 <= p <= nPage ==> p in data && |data[p]| == g.usableSize)
    && (autoVacuum ==> forall p :: p in free ==> p in ptr && ptr[p] == FreePage)
  }

  // The page that is taken without a search: the first trunk if it lists none, or else the leaf of it that is closest.
  ghost predicate FromFirst(ts: seq<Trunk>, nearby: nat, pgno: nat) {
    && ts != []
    && if ts[0].leaves == [] then pgno == ts[0].pgno
       else
         && pgno in ts[0].leaves
         && (nearby > 0 ==> forall l :: l in ts[0].leaves ==> Distance(pgno, nearby) <= Distance(l, nearby))
  }

  // Only the contents of free pages differ.
  ghost predicate OnlyFree(data: Pages, data': Pages, free: set<nat>) {
    && data'.Keys == data.Keys && (forall p :: p in data ==> |data'[p]| == |data[p]|)
    && forall p :: p in data && p !in free ==> data'[p] == data[p]
  }

  /** Writing pages that are in use does not touch the list. */
  lemma ListKept(g: Geometry, autoVacuum: bool, nPage: nat, page1: Bytes, data: Pages, data': Pages,
                 ptr: map<nat, PtrType>, ts: seq<Trunk>, free: set<nat>)
    requires FileOk(g, autoVacuum, nPage, page1, data, ptr, ts, free)
    requires forall p :: 2 <= p <= nPage ==>
      p in data' && |data'[p]| == g.usableSize && (p in free ==> data'[p] == data[p])
    ensures FileOk(g, autoVacuum, nPage, page1, data', ptr, ts, free)
  {
    hide Flat, Get4, TrunkPage;
    forall j | 0 <= j < |ts|
      ensures TrunkOk(g.usableSize, data', ts, j)
    {
      InList(ts, free, j);
      assert TrunkOk(g.usableSize, data, ts, j);
    }
  }

  lemma OnlyFreePut(data0: Pages, data: Pages, free: set<nat>, p: nat, d: Bytes)
    requires OnlyFree(data0, data, free) && p in free && p in data && |d| == |data[p]|
    ensures OnlyFree(data0, data[p := d], free)
  {}

  lemma FileNext(g: Geometry, autoVacuum: bool, nPage: nat, page1: Bytes, data: Pages, ptr: map<nat, PtrType>,
                 ts: seq<Trunk>,
                 free: set<nat>, page1': Bytes, data': Pages, ts': seq<Trunk>, free': set<nat>)
    requires FileOk(g, autoVacuum, nPage, page1, data, ptr, ts, free) && OnlyFree(data, data', free) && free' <= free
    requires ListOk(g.usableSize, page1', data', ts') && Lists(g, nPage, ts', free')
    ensures FileOk(g, autoVacuum, nPage, page1', data', ptr, ts', free')
  {
    hide ListOk, Flat, Geometry.Valid;
  }

  lemma FileParts(g: Geometry, autoVacuum: bool, nPage: nat, page1: Bytes, data: Pages, ptr: map<nat, PtrType>,
                  ts: seq<Trunk>,
                  free: set<nat>)
    requires FileOk(g, autoVacuum, nPage, page1, data, ptr, ts, free)
    ensures g.Valid() && ListOk(g.usableSize, page1, data, ts) && Lists(g, nPage, ts, free) && |page1| >= 100
      && nPage <= MAX_PAGE
    ensures forall p :: 2 <= p <= nPage ==> p in data && |data[p]| == g.usableSize
    ensures OnlyFree(data, data, free)
  {
    hide Flat, Geometry.Valid;
  }

  // What is known of trunk j and of the one before it.
  lemma StepFacts(g: Geometry, nPage: nat, page1: Bytes, data: Pages, ts: seq<Trunk>, free: set<nat>, j: nat)
    requires g.Valid() && ListOk(g.usableSize, page1, data, ts) && Lists(g, nPage, ts, free) && j < |ts|
    ensures ts[j].pgno in data && |data[ts[j].pgno]| == g.usableSize >= 480 && 2 <= ts[j].pgno < 0x1_0000_0000
    ensures TrunkPage(g.usableSize, data[ts[j].pgno], NextPage(ts, j + 1), ts[j].leaves)
    ensures Get4(data[ts[j].pgno], 0) == NextPage(ts, j + 1)
      && Get4(data[ts[j].pgno], 4) == |ts[j].leaves| <= g.usableSize / 4 - 2
    ensures ts[j].pgno in free && ts[j].pgno <= nPage
    ensures j > 0 ==>
      ts[j - 1].pgno in data && ts[j - 1].pgno in free && 2 <= ts[j - 1].pgno && ts[j - 1].pgno != ts[j].pgno
    ensures j > 0 ==>
      TrunkPage(g.usableSize, data[ts[j - 1].pgno], ts[j].pgno, ts[j - 1].leaves) && ts[j - 1].pgno !in ts[j].leaves
    ensures j > 0 ==> |data[ts[j - 1].pgno]| == g.usableSize && Get4(data[ts[j - 1].pgno], 0) == ts[j].pgno
    ensures |page1| >= 100 && Get4(page1, 32) == NextPage(ts, 0)
  {
    hide Flat;
    assert TrunkOk(g.usableSize, data, ts, j);
    InList(ts, free, j);
    if j > 0 {
      assert TrunkOk(g.usableSize, data, ts, j - 1);
      InList(ts, free, j - 1);
      TrunkDistinct(ts, free, j - 1, j);
    }
  }

  lemma LeafFacts(g: Geometry, nPage: nat, page1: Bytes, data: Pages, ts: seq<Trunk>, free: set<nat>, j: nat, i: nat)
    requires g.Valid() && ListOk(g.usableSize, page1, data, ts) && Lists(g, nPage, ts, free) && j < |ts|
      && i < |ts[j].leaves|
    requires forall p :: 2 <= p <= nPage ==> p in data && |data[p]| == g.usableSize
    ensures ts[j].pgno in data && 8 + i * 4 + 4 <= |data[ts[j].pgno]|
      && Get4(data[ts[j].pgno], 8 + i * 4) == ts[j].leaves[i]
    ensures var p := ts[j].leaves[i];
      p in free && p in data && |data[p]| == g.usableSize && 2 <= p <= nPage && p < 0x1_0000_0000 && p != ts[j].pgno
    ensures forall l :: 0 <= l < |ts| ==> ts[l].pgno != ts[j].leaves[i]
  {
    hide Flat, Get4;
    assert TrunkOk(g.usableSize, data, ts, j);
    assert LeafOk(data[ts[j].pgno], ts[j].leaves, i);
    InList(ts, free, j);
    NotOwnLeaf(ts, free, j);
    forall l | 0 <= l < |ts|
      ensures ts[l].pgno != ts[j].leaves[i]
    {
      if l != j {
        TrunkDistinct(ts, free, l, j);
      }
    }
  }

  // Pages that are not trunks j - 1 or j were left alone, if only these and a page that is no trunk were written.
  lemma Elsewhere(g: Geometry, nPage: nat, page1: Bytes, data: Pages, data': Pages, ts: seq<Trunk>, free: set<nat>,
                  j: nat)
    requires g.Valid() && Lists(g, nPage, ts, free) && j < |ts| && ListOk(g.usableSize, page1, data, ts)
    requires data.Keys <= data'.Keys
    requires forall p :: p in data && data'[p] != data[p] ==>
      p == ts[j].pgno || (j > 0 && p == ts[j - 1].pgno) || forall i :: 0 <= i < |ts| ==> ts[i].pgno != p
    ensures SameElsewhere(data, data', ts, j)
  {
    hide Flat;
    forall i | 0 <= i < |ts| && i != j && i + 1 != j
      ensures ts[i].pgno in data && data'[ts[i].pgno] == data[ts[i].pgno]
    {
      assert TrunkOk(g.usableSize, data, ts, i);
      TrunkDistinct(ts, free, i, j);
      if j > 0 {
        TrunkDistinct(ts, free, i, j - 1);
      }
    }
  }

  lemma FirstTrunk(g: Geometry, nPage: nat, page1: Bytes, ts: seq<Trunk>, free: set<nat>)
    requires g.Valid() && Lists(g, nPage, ts, free) && free != {}
    ensures ts != []
  {
    assert |multiset(free)| == |free| > 0;
    assert |multiset(Flat(ts))| == |Flat(ts)|;
  }

  // The link to trunk j, from wherever it is.
  lemma LinkFacts(g: Geometry, nPage: nat, page1: Bytes, data: Pages, ts: seq<Trunk>, free: set<nat>, j: nat)
    requires g.Valid() && ListOk(g.usableSize, page1, data, ts) && Lists(g, nPage, ts, free) && j <= |ts|
    ensures if j > 0 then ts[j - 1].pgno >= 2 && ts[j - 1].pgno in data && |data[ts[j - 1].pgno]| >= 4
                          && Get4(data[ts[j - 1].pgno], 0) == NextPage(ts, j)
            else |page1| >= 100 && Get4(page1, 32) == NextPage(ts, j)
    ensures j < |ts| ==> 2 <= NextPage(ts, j) <= nPage
  {
    hide Flat;
    if j > 0 {
      StepFacts(g, nPage, page1, data, ts, free, j - 1);
    }
    if j < |ts| {
      StepFacts(g, nPage, page1, data, ts, free, j);
    }
  }

  lemma TakenCount(free: set<nat>, p: nat)
    requires p in free
    ensures |free - {p}| == |free| - 1
  {}

  lemma FreeMapped(g: Geometry, autoVacuum: bool, nPage: nat, page1: Bytes, data: Pages, ptr: map<nat, PtrType>,
                   ts: seq<Trunk>,
                   free: set<nat>)
    requires FileOk(g, autoVacuum, nPage, page1, data, ptr, ts, free)
    ensures forall p :: p in free ==> 2 <= p <= nPage && (autoVacuum ==> p in ptr && ptr[p] == FreePage)
  {
    hide Flat, ListOk;
  }

  lemma LeafRoom(U: nat, n: nat)
    requires n < U / 4 - 8
    ensures n + 1 <= U / 4 - 2 && 8 + 4 * n + 4 <= U
  {}

  lemma FirstLink(U: nat, page1: Bytes, data: Pages, ts: seq<Trunk>)
    requires ListOk(U, page1, data, ts)
    ensures |page1| >= 100 && Get4(page1, 32) == NextPage(ts, 0)
  {
    hide TrunkOk;
  }

  // The free pages after p is added to the leaves of the first trunk.
  lemma ListsAdded(g: Geometry, nPage: nat, ts: seq<Trunk>, free: set<nat>, mid: seq<Trunk>, p: nat)
    requires g.Valid() && Lists(g, nPage, ts, free) && ts != [] && mid == [Trunk(ts[0].pgno, ts[0].leaves + [p])]
    requires p !in free && 2 <= p <= nPage && p != g.pendingPage
    ensures Lists(g, nPage, Replaced(ts, 0, mid), free + {p})
  {
    hide Flat, Replaced;
    OneMorePage(ts, mid, p);
    assert multiset(free + {p}) == multiset(free) + multiset{p};
  }

  lemma OneMorePage(ts: seq<Trunk>, mid: seq<Trunk>, p: nat)
    requires ts != [] && mid == [Trunk(ts[0].pgno, ts[0].leaves + [p])]
    ensures multiset(Flat(Replaced(ts, 0, mid))) == multiset(Flat(ts)) + multiset{p}
  {
    hide Flat, Replaced;
    FlatReplaced(ts, 0, mid);
    FlatSplit(ts, 0);
    FlatOne(mid[0]);
    assert PagesOf(mid[0]) == PagesOf(ts[0]) + multiset{p};
  }

  // The free pages, and the list, after p has become the first trunk.
  lemma TrunkPushed(g: Geometry, nPage: nat, page1: Bytes, data: Pages, ts: seq<Trunk>, free: set<nat>, page1': Bytes,
                    data': Pages, p: nat)
    requires g.Valid() && ListOk(g.usableSize, page1, data, ts) && Lists(g, nPage, ts, free)
    requires p !in free && 2 <= p <= nPage && p != g.pendingPage && p in data && p in data'
      && data' == data[p := data'[p]]
    requires |page1'| >= 100 && Get4(page1', 32) == p && TrunkPage(g.usableSize, data'[p], NextPage(ts, 0), [])
    ensures ListOk(g.usableSize, page1', data', [Trunk(p, [])] + ts) && Lists(g, nPage, [Trunk(p, [])] + ts, free + {p})
  {
    hide Flat, TrunkPage;
    var ts' := [Trunk(p, [])] + ts;
    forall j | 0 <= j < |ts'|
      ensures TrunkOk(g.usableSize, data', ts', j)
    {
      if j > 0 {
        assert TrunkOk(g.usableSize, data, ts, j - 1);
        InList(ts, free, j - 1);
        assert ts'[j] == ts[j - 1] && NextPage(ts', j + 1) == NextPage(ts, j);
      } else {
        assert NextPage(ts', 1) == NextPage(ts, 0);
      }
    }
    FlatConcat([Trunk(p, [])], ts);
    FlatOne(Trunk(p, []));
    assert multiset(free + {p}) == multiset(free) + multiset{p};
  }

  lemma FileAdded(g: Geometry, autoVacuum: bool, nPage: nat, page1: Bytes, data: Pages, ptr: map<nat, PtrType>,
                  ts: seq<Trunk>,
                  free: set<nat>, page1': Bytes, data': Pages, ts': seq<Trunk>, p: nat)
    requires FileOk(g, autoVacuum, nPage, page1, data, ptr, ts, free) && p !in free && p in data
      && data'.Keys == data.Keys
    requires forall q :: q in data ==> |data'[q]| == |data[q]| && (q != p && q !in free ==> data'[q] == data[q])
    requires ListOk(g.usableSize, page1', data', ts') && Lists(g, nPage, ts', free + {p})
    ensures FileOk(g, autoVacuum, nPage, page1', data', if autoVacuum then ptr[p := FreePage] else ptr, ts', free + {p})
    ensures OnlyFree(data, data', free + {p}) && |free + {p}| == |free| + 1
  {
    hide ListOk, Flat, Geometry.Valid;
  }

  lemma EmptyList(g: Geometry, nPage: nat, ts: seq<Trunk>, free: set<nat>)
    requires g.Valid() && Lists(g, nPage, ts, free) && free == {}
    ensures ts == []
  {
    assert |multiset(Flat(ts))| == |Flat(ts)|;
  }

  lemma NoneFree(g: Geometry, autoVacuum: bool, n: nat, page1: Bytes, data: Pages, ptr: map<nat, PtrType>)
    requires g.Valid() && 1 <= n <= MAX_PAGE && |page1| >= 100 && Get4(page1, 32) == 0
    requires forall p :: 2 <= p <= n ==> p in data && |data[p]| == g.usableSize
    ensures FileOk(g, autoVacuum, n, page1, data, ptr, [], {})
  {
    hide Get4, Geometry.Valid;
  }

  // A page past the end that is neither of the special ones can hold data.
  lemma AllOrdinary(g: Geometry, nPage: nat)
    requires g.Valid()
    ensures forall p: nat {:trigger g.Ordinary(p)} :: p > nPage && p > 1 ==>
      (g.Ordinary(p) <==> p != g.pendingPage && !g.IsPtrmapPage(p))
  {
    hide Geometry.IsPtrmapPage;
  }

  // After a pointer-map page comes one that is not, but may be the pending-byte page.
  lemma GrowPastMap(g: Geometry, nPage: nat, n: nat)
    requires g.Valid() && nPage >= 1 && n == (if nPage + 1 == g.pendingPage then nPage + 2 else nPage + 1)
      && g.IsPtrmapPage(n)
    ensures n != g.pendingPage
    ensures if n + 1 == g.pendingPage then g.Ordinary(n + 2) else g.Ordinary(n + 1)
  {
    PtrmapOnGrid(g, n);
    OrdinaryIf(g, n + 1);
    OrdinaryIf(g, n + 2);
    if g.OnGrid(n) {
      GridFar(g, n, n + 1);
      GridFar(g, n, n + 2);
    } else {
      GridFar(g, g.pendingPage, n + 1);
    }
  }

  lemma CountFits(g: Geometry, nPage: nat, ts: seq<Trunk>, free: set<nat>)
    requires g.Valid() && Lists(g, nPage, ts, free)
    ensures |free| < nPage
  {
    FewFree(free, nPage);
  }

  lemma CountPut(g: Geometry, autoVacuum: bool, nPage: nat, page1: Bytes, data: Pages, ptr: map<nat, PtrType>,
                 ts: seq<Trunk>,
                 free: set<nat>, n: nat)
    requires FileOk(g, autoVacuum, nPage, page1, data, ptr, ts, free) && |page1| >= 100 && n < 0x1_0000_0000
    ensures FileOk(g, autoVacuum, nPage, Put4(page1, 36, n), data, ptr, ts, free) && Get4(Put4(page1, 36, n), 36) == n
  {
    hide Four, Get4, Flat;
    Get4Kept(page1, Put4(page1, 36, n), 36, 32);
    GetFour(Put4(page1, 36, n), 36, n);
  }

  class BtShared {
    const g: Geometry
    const autoVacuum: bool
    var nPage: nat
    var page1: Bytes
    var data: Pages                // pages 2 to nPage
    var ptr: map<nat, PtrType>     // the types in the pointer map
    ghost var ts: seq<Trunk>
    ghost var free: set<nat>

    // All but the number of free pages in the header.
    ghost predicate Structure()
      reads this
    {
      FileOk(g, autoVacuum, nPage, page1, data, ptr, ts, free)
    }

    /** The freelist holds distinct pages of the file, and the header their number. */
    ghost predicate Valid()
      reads this
    {
      Structure() && Get4(page1, 36) == |free|
    }

    // Trunk iTrunk has no leaves, and is taken itself.
    method TakeTrunk(prev: nat, iTrunk: nat, ghost j: nat)
      requires Structure() && j < |ts| && ts[j] == Trunk(iTrunk, []) && prev == (if j > 0 then ts[j - 1].pgno else 0)
      modifies `page1, `data, `ts, `free
      ensures Structure() && iTrunk in old(free) && free == old(free) - {iTrunk}
        && Get4(page1, 36) == Get4(old(page1), 36)
      ensures OnlyFree(old(data), data, old(free)) && WrittenIn(old(page1), page1, 32, 36)
    {
      hide TrunkPage, Flat, Get4, ListOk, Lists, OnlyFree, FileOk;
      ghost var page0, data0 := page1, data;
      FileParts(g, autoVacuum, nPage, page1, data, ptr, ts, free);
      StepFacts(g, nPage, page1, data, ts, free, j);
      if prev == 0 {
        page1 := Copy4(page1, 32, data[iTrunk], 0);
        GetSame(page1, data[iTrunk], 32, 0);
        Get4Kept(page0, page1, 32, 36);
      } else {
        CopyNext(g.usableSize, data[prev], iTrunk, ts[j - 1].leaves, data[iTrunk], NextPage(ts, j + 1));
        OnlyFreePut(data0, data, free, prev, Copy4(data[prev], 0, data[iTrunk], 0));
        data := data[prev := Copy4(data[prev], 0, data[iTrunk], 0)];
      }
      assert [] + ts[j + 1..] == ts[j + 1..];
      Elsewhere(g, nPage, page0, data0, data, ts, free, j);
      Relinked(g.usableSize, page0, data0, ts, j, [], page1, data);
      ListsTaken(g, nPage, ts, free, j, [], iTrunk);
      FileNext(g, autoVacuum, nPage, page0, data0, ptr, ts, free, page1, data, Replaced(ts, j, []), free - {iTrunk});
      ts, free := Replaced(ts, j, []), free - {iTrunk};
    }

    // Trunk iTrunk is taken, and its first leaf becomes a trunk with the others.
    method Promote(prev: nat, iTrunk: nat, k: nat, ghost j: nat)
      requires Structure() && j < |ts| && ts[j].pgno == iTrunk && |ts[j].leaves| == k > 0
      requires prev == (if j > 0 then ts[j - 1].pgno else 0)
      modifies `page1, `data, `ts, `free
      ensures Structure() && iTrunk in old(free) && free == old(free) - {iTrunk}
        && Get4(page1, 36) == Get4(old(page1), 36)
      ensures OnlyFree(old(data), data, old(free)) && WrittenIn(old(page1), page1, 32, 36)
    {
      hide TrunkPage, Flat, Get4, Four, Promoted, ListOk, Lists, OnlyFree, FileOk, PagesOf, SameElsewhere;
      ghost var page0, data0, t := page1, data, ts[j];
      FileParts(g, autoVacuum, nPage, page1, data, ptr, ts, free);
      StepFacts(g, nPage, page1, data, ts, free, j);
      LeafFacts(g, nPage, page1, data, ts, free, j, 0);
      var iNewTrunk := Get4(data[iTrunk], 8);
      PromotedOk(g.usableSize, data[iNewTrunk], data[iTrunk], NextPage(ts, j + 1), t.leaves);
      OnlyFreePut(data0, data, free, iNewTrunk, Promoted(data[iNewTrunk], data[iTrunk], k));
      data := data[iNewTrunk := Promoted(data[iNewTrunk], data[iTrunk], k)];
      ghost var mid := [Trunk(iNewTrunk, t.leaves[1..])];
      assert (mid + ts[j + 1..])[0] == mid[0];
      if prev == 0 {
        page1 := Put4(page1, 32, iNewTrunk);
        GetFour(page1, 32, iNewTrunk);
        Get4Kept(page0, page1, 32, 36);
      } else {
        var d := Put4(data[prev], 0, iNewTrunk);
        SetNext(g.usableSize, data[prev], d, iTrunk, ts[j - 1].leaves, iNewTrunk);
        OnlyFreePut(data0, data, free, prev, d);
        data := data[prev := d];
      }
      Elsewhere(g, nPage, page0, data0, data, ts, free, j);
      Relinked(g.usableSize, page0, data0, ts, j, mid, page1, data);
      PromotePages(t);
      ListsTaken(g, nPage, ts, free, j, mid, iTrunk);
      FileNext(g, autoVacuum, nPage, page0, data0, ptr, ts, free, page1, data, Replaced(ts, j, mid), free - {iTrunk});
      ts, free := Replaced(ts, j, mid), free - {iTrunk};
    }

    // Leaf c of trunk iTrunk is taken.
    method TakeLeaf(iTrunk: nat, k: nat, c: nat, ghost j: nat) returns (iPage: nat)
      requires Structure() && j < |ts| && ts[j].pgno == iTrunk && |ts[j].leaves| == k && c < k
      modifies `data, `ts, `free
      ensures Structure() && iPage == old(ts[j].leaves[c]) && iPage in old(free) && free == old(free) - {iPage}
      ensures OnlyFree(old(data), data, old(free))
    {
      hide TrunkPage, Flat, Get4, Four, LeafTaken, Cut, ListOk, Lists, OnlyFree, FileOk, PagesOf, SameElsewhere;
      ghost var page0, data0, t := page1, data, ts[j];
      FileParts(g, autoVacuum, nPage, page1, data, ptr, ts, free);
      StepFacts(g, nPage, page1, data, ts, free, j);
      LeafFacts(g, nPage, page1, data, ts, free, j, c);
      iPage := Get4(data[iTrunk], 8 + c * 4);
      LeafTakenOk(g.usableSize, data[iTrunk], NextPage(ts, j + 1), t.leaves, c);
      OnlyFreePut(data0, data, free, iTrunk, LeafTaken(data[iTrunk], c, k));
      data := data[iTrunk := LeafTaken(data[iTrunk], c, k)];
      ghost var mid := [Trunk(iTrunk, Cut(t.leaves, c))];
      assert (mid + ts[j + 1..])[0] == mid[0];
      CutPages(t, c);
      Elsewhere(g, nPage, page0, data0, data, ts, free, j);
      Relinked(g.usableSize, page1, data0, ts, j, mid, page1, data);
      ListsTaken(g, nPage, ts, free, j, mid, iPage);
      FileNext(g, autoVacuum, nPage, page0, data0, ptr, ts, free, page1, data, Replaced(ts, j, mid), free - {iPage});
      ts, free := Replaced(ts, j, mid), free - {iPage};
    }

    // Which leaf of a trunk to take.
    method FindLeaf(iTrunk: nat, k: nat, nearby: nat, eMode: Mode, ghost j: nat) returns (closest: nat)
      requires Structure() && j < |ts| && ts[j].pgno == iTrunk && |ts[j].leaves| == k > 0
      ensures closest < k && Choice(ts[j].leaves, nearby, eMode, closest)
    {
      hide TrunkPage, Flat, Get4, ListOk, Lists, FileOk;
      FileParts(g, autoVacuum, nPage, page1, data, ptr, ts, free);
      StepFacts(g, nPage, page1, data, ts, free, j);
      ghost var leaves := ts[j].leaves;
      var aData := data[iTrunk];
      forall i | 0 <= i < k
        ensures 8 + i * 4 + 4 <= |aData| && Get4(aData, 8 + i * 4) == leaves[i]
      {
        LeafFacts(g, nPage, page1, data, ts, free, j, i);
      }
      closest := 0;
      if nearby > 0 {
        if eMode == AtMost {
          var i := 0;
          while i < k
            invariant 0 <= i <= k && closest == 0 && forall l :: 0 <= l < i ==> leaves[l] > nearby
          {
            assert leaves[i] == Get4(aData, 8 + i * 4);
            if Get4(aData, 8 + i * 4) <= nearby {
              return i;
            }
            i := i + 1;
          }
        } else {
          assert leaves[0] == Get4(aData, 8 + 0 * 4);
          var dist := Distance(Get4(aData, 8), nearby);
          var i := 1;
          while i < k
            invariant 1 <= i <= k && closest < i && dist == Distance(leaves[closest], nearby)
            invariant forall l :: 0 <= l < i ==> dist <= Distance(leaves[l], nearby)
          {
            assert leaves[i] == Get4(aData, 8 + i * 4);
            var d2 := Distance(Get4(aData, 8 + i * 4), nearby);
            if d2 < dist {
              closest, dist := i, d2;
            }
            i := i + 1;
          }
        }
      }
    }

    // There are no free pages: the file gets longer, by a page or by a pointer-map page and another.
    method Grow() returns (rc: Code, pgno: nat)
      requires Valid() && free == {} && nPage >= 1
      modifies `nPage, `data, `page1
      ensures rc == Ok || (rc == Full && nPage > MAX_PAGE && data == old(data))
      ensures rc == Ok ==>
        Valid() && pgno == nPage > old(nPage) && pgno != g.pendingPage && (autoVacuum ==> g.Ordinary(pgno))
      ensures rc == Ok ==> forall p :: 2 <= p <= old(nPage) ==> p in old(data) && data[p] == old(data)[p]
      ensures rc == Ok && autoVacuum ==> forall p :: old(nPage) < p < nPage ==> !g.Ordinary(p)
      ensures WrittenIn(old(page1), page1, 28, 32) && (rc == Ok ==> Get4(page1, 28) == nPage)
    {
      hide Flat, Get4, Four, FileOk, ListOk, Lists, Geometry.Valid, Geometry.Ordinary, Geometry.IsPtrmapPage, OnlyFree;
      FileParts(g, autoVacuum, nPage, page1, data, ptr, ts, free);
      AllOrdinary(g, nPage);
      var n := nPage + 1;
      if n == g.pendingPage { n := n + 1; }
      if autoVacuum && g.IsPtrmapPage(n) {
        if n > MAX_PAGE {
          nPage := n;
          return Full, 0;
        }
        GrowPastMap(g, nPage, n);
        n := n + 1;
        if n == g.pendingPage { n := n + 1; }
      }
      if n > MAX_PAGE {
        page1 := Put4(page1, 28, n);
        nPage := n;
        return Full, 0;
      }
      EmptyList(g, nPage, ts, free);
      FirstLink(g.usableSize, page1, data, ts);
      data := map p | 2 <= p <= n :: if p <= nPage then data[p] else seq(g.usableSize, _ => 0);
      ghost var page0 := page1;
      page1 := Put4(page1, 28, n);
      Get4Kept(page0, page1, 28, 32);
      Get4Kept(page0, page1, 28, 36);
      GetFour(page1, 28, n);
      NoneFree(g, autoVacuum, n, page1, data, ptr);
      nPage := n;
      pgno := n;
      rc := Ok;
    }

    // The loop of allocateBtreePage over trunks; without searchList the first one is used.
    method Search(nearby: nat, eMode: Mode, searchList0: bool) returns (rc: Code, pgno: nat)
      requires Structure() && free != {} && Get4(page1, 36) == |free| - 1
      requires eMode != Any ==> nearby > 0
      requires searchList0 ==> eMode == AtMost || (eMode == Exact && nearby in free)
      requires eMode == AtMost || (eMode == Exact && nearby in free) ==> searchList0
      modifies `page1, `data, `ts, `free
      ensures rc == Ok ==> Valid()
      ensures rc == Ok <==> eMode != AtMost || exists p :: p in old(free) && p <= nearby
      ensures rc == Ok ==> pgno in old(free) && free == old(free) - {pgno}
      ensures OnlyFree(old(data), data, old(free)) && WrittenIn(old(page1), page1, 32, 36)
      ensures rc == Ok && eMode == Exact && nearby in old(free) ==> pgno == nearby
      ensures rc == Ok && eMode == AtMost ==> pgno <= nearby
      ensures rc == Ok && !searchList0 ==> FromFirst(old(ts), nearby, pgno)
    {
      hide FileOk, Flat, Get4, ListOk, Lists, OnlyFree, TrunkPage, Choice, FromFirst;
      rc, pgno := Corrupt, 0;
      var prev, cur := 0, 0;
      ghost var j := 0;
      FileParts(g, autoVacuum, nPage, page1, data, ptr, ts, free);
      FirstTrunk(g, nPage, page1, ts, free);
      while true
        invariant Structure() && page1 == old(page1) && data == old(data) && ts == old(ts) && free == old(free)
        invariant j <= |ts| && cur == (if j > 0 then ts[j - 1].pgno else 0) && (j > 0 ==> searchList0)
        invariant searchList0 ==> NoneBefore(ts, j, nearby, eMode)
        decreases |ts| - j
      {
        prev := cur;
        LinkFacts(g, nPage, page1, data, ts, free, j);
        var iTrunk := if prev != 0 then Get4(data[prev], 0) else Get4(page1, 32);
        if iTrunk > nPage || iTrunk == 0 {
          if searchList0 { NoneLeft(g, nPage, ts, free, nearby, eMode); }
          return;
        }
        cur := iTrunk;
        StepFacts(g, nPage, page1, data, ts, free, j);
        var k := Get4(data[cur], 4);
        ghost var free0 := free;
        TakenCount(free, iTrunk);
        if k == 0 && !searchList0 {
          assert ts[j] == Trunk(iTrunk, []);
          EmptyFirst(ts, nearby);
          TakeTrunk(prev, iTrunk, j);
          return Ok, iTrunk;
        } else if k > g.usableSize / 4 - 2 {
          return;
        } else if searchList0 && Wanted(iTrunk, nearby, eMode) {
          if k == 0 {
            assert ts[j] == Trunk(iTrunk, []);
            TakeTrunk(prev, iTrunk, j);
          } else {
            Promote(prev, iTrunk, k, j);
          }
          return Ok, iTrunk;
        } else if k > 0 {
          var closest := FindLeaf(iTrunk, k, nearby, eMode, j);
          LeafFacts(g, nPage, page1, data, ts, free, j, closest);
          var iPage := Get4(data[iTrunk], 8 + closest * 4);
          if iPage > nPage {
            return;
          }
          if !searchList0 || Wanted(iPage, nearby, eMode) {
            TakenCount(free, iPage);
            if !searchList0 { ChosenFirst(ts, nearby, eMode, closest); }
            pgno := TakeLeaf(iTrunk, k, closest, j);
            rc := Ok;
            return;
          }
          ChoiceMisses(ts[j], nearby, eMode, closest);
        }
        assert NoneIn(ts[j], nearby, eMode);
        j := j + 1;
      }
    }

    /**
    allocateBtreePage. Taking a page from the freelist removes exactly that page; Exact takes the wanted page when it is
    free, and AtMost one that is no greater, when there is one. No other page that is in use is written.
    */
    method AllocateBtreePage(nearby: nat, eMode: Mode) returns (rc: Code, pgno: nat)
      requires Valid() && (eMode != Any ==> nearby > 0 && autoVacuum)
      requires eMode == Exact && nearby <= nPage && nearby in ptr && ptr[nearby] == FreePage ==> nearby in free
      modifies this
      ensures rc == Ok ==> Valid()
      ensures ptr == old(ptr)
      ensures old(free) == {} ==> rc == Ok || rc == Full
      ensures old(free) == {} && rc == Ok ==>
        free == {} && pgno == nPage > old(nPage) && (autoVacuum ==> g.Ordinary(pgno))
      ensures old(free) == {} && rc == Ok ==> forall p :: 2 <= p <= old(nPage) ==>
        p in old(data) && data[p] == old(data)[p]
      ensures old(free) != {} ==> (rc == Ok <==> eMode != AtMost || exists p :: p in old(free) && p <= nearby)
      ensures old(free) != {} && rc == Ok ==> pgno in old(free) && free == old(free) - {pgno} && nPage == old(nPage)
      ensures old(free) != {} ==> OnlyFree(old(data), data, old(free))
      ensures rc == Ok && eMode == Exact && nearby in old(free) ==> pgno == nearby
      ensures rc == Ok && eMode == AtMost && old(free) != {} ==> pgno <= nearby
      ensures rc == Ok && old(free) != {} && (eMode == Any || (eMode == Exact && nearby !in old(free))) ==>
        FromFirst(old(ts), nearby, pgno)
      ensures if old(free) == {} then WrittenIn(old(page1), page1, 28, 32) && (rc == Ok ==> Get4(page1, 28) == nPage)
              else WrittenIn(old(page1), page1, 32, 40)
    {
      hide FileOk, Flat, Get4, Four, ListOk, Lists, OnlyFree, FromFirst;
      FileParts(g, autoVacuum, nPage, page1, data, ptr, ts, free);
      CountFits(g, nPage, ts, free);
      var n := Get4(page1, 36);
      if n == 0 {
        assert free == {};
        rc, pgno := Grow();
        return;
      }
      var searchList := eMode == AtMost || (eMode == Exact && nearby <= nPage && nearby in ptr
                                            && ptr[nearby] == FreePage);
      ghost var page0 := page1;
      page1 := Put4(page1, 36, n - 1);
      CountPut(g, autoVacuum, nPage, page0, data, ptr, ts, free, n - 1);
      FreeMapped(g, autoVacuum, nPage, page0, data, ptr, ts, free);
      rc, pgno := Search(nearby, eMode, searchList);
    }

    // The page becomes a leaf of the first trunk.
    method AddLeaf(iPage: nat, iTrunk: nat, nLeaf: nat, ghost ptr0: map<nat, PtrType>)
      requires FileOk(g, autoVacuum, nPage, page1, data, ptr0, ts, free)
        && ptr == if autoVacuum then ptr0[iPage := FreePage] else ptr0
      requires 2 <= iPage <= nPage && iPage != g.pendingPage && iPage !in free
      requires ts != [] && ts[0].pgno == iTrunk && |ts[0].leaves| == nLeaf < g.usableSize / 4 - 8
      modifies `data, `ts, `free
      ensures Structure() && free == old(free) + {iPage} && OnlyFree(old(data), data, free) && |free| == |old(free)| + 1
      ensures ts == [Trunk(iTrunk, old(ts)[0].leaves + [iPage])] + old(ts)[1..]
    {
      hide FileOk, Flat, Get4, Four, ListOk, Lists, OnlyFree, TrunkPage, LeafAdded;
      ghost var data0 := data;
      FileParts(g, autoVacuum, nPage, page1, data, ptr0, ts, free);
      StepFacts(g, nPage, page1, data, ts, free, 0);
      LeafAddedOk(g.usableSize, data[iTrunk], NextPage(ts, 1), ts[0].leaves, iPage);
      LeafRoom(g.usableSize, nLeaf);
      data := data[iTrunk := LeafAdded(data[iTrunk], nLeaf, iPage)];
      ghost var mid := [Trunk(iTrunk, ts[0].leaves + [iPage])];
      Elsewhere(g, nPage, page1, data0, data, ts, free, 0);
      assert (mid + ts[1..])[0] == mid[0];
      Relinked(g.usableSize, page1, data0, ts, 0, mid, page1, data);
      ListsAdded(g, nPage, ts, free, mid, iPage);
      FileAdded(g, autoVacuum, nPage, page1, data0, ptr0, ts, free, page1, data, Replaced(ts, 0, mid), iPage);
      ts, free := Replaced(ts, 0, mid), free + {iPage};
    }

    // The page becomes the first trunk.
    method PushTrunk(iPage: nat, iTrunk: nat, ghost ptr0: map<nat, PtrType>)
      requires FileOk(g, autoVacuum, nPage, page1, data, ptr0, ts, free)
        && ptr == if autoVacuum then ptr0[iPage := FreePage] else ptr0
      requires 2 <= iPage <= nPage && iPage != g.pendingPage && iPage !in free && iTrunk == NextPage(ts, 0) <= MAX_PAGE
      modifies `page1, `data, `ts, `free
      ensures Structure() && free == old(free) + {iPage} && OnlyFree(old(data), data, free) && |free| == |old(free)| + 1
      ensures Get4(page1, 36) == Get4(old(page1), 36) && WrittenIn(old(page1), page1, 32, 36)
      ensures ts == [Trunk(iPage, [])] + old(ts)
    {
      hide FileOk, Flat, Get4, Four, ListOk, Lists, OnlyFree, TrunkPage, NewTrunk;
      ghost var page0, data0 := page1, data;
      FileParts(g, autoVacuum, nPage, page1, data, ptr0, ts, free);
      FirstLink(g.usableSize, page1, data, ts);
      NewTrunkOk(g.usableSize, data[iPage], iTrunk);
      ghost var ts' := [Trunk(iPage, [])] + ts;
      data := data[iPage := NewTrunk(data[iPage], iTrunk)];
      page1 := Put4(page1, 32, iPage);
      GetFour(page1, 32, iPage);
      Get4Kept(page0, page1, 32, 36);
      TrunkPushed(g, nPage, page0, data0, ts, free, page1, data, iPage);
      FileAdded(g, autoVacuum, nPage, page0, data0, ptr0, ts, free, page1, data, ts', iPage);
      ts, free := ts', free + {iPage};
    }

    /**
    freePage2: exactly one page is added to the freelist, as a leaf of the first trunk while that has fewer than
    usableSize / 4 - 8, or else as the first trunk. No other page that is in use is written.
    */
    method FreePage2(iPage: nat)
      requires Valid() && 2 <= iPage <= nPage && iPage != g.pendingPage && iPage !in free
      modifies `page1, `data, `ptr, `ts, `free
      ensures Valid() && free == old(free) + {iPage} && OnlyFree(old(data), data, free)
      ensures ptr == if autoVacuum then old(ptr)[iPage := FreePage] else old(ptr)
      ensures WrittenIn(old(page1), page1, 32, 40)
      ensures ts == if old(ts) != [] && |old(ts)[0].leaves| < g.usableSize / 4 - 8
                    then [Trunk(old(ts)[0].pgno, old(ts)[0].leaves + [iPage])] + old(ts)[1..]
                    else [Trunk(iPage, [])] + old(ts)
    {
      hide FileOk, Flat, Get4, Four, ListOk, Lists, OnlyFree, TrunkPage;
      FileParts(g, autoVacuum, nPage, page1, data, ptr, ts, free);
      CountFits(g, nPage, ts, free);
      var nFree := Get4(page1, 36);
      CountPut(g, autoVacuum, nPage, page1, data, ptr, ts, free, nFree + 1);
      page1 := Put4(page1, 36, nFree + 1);
      ghost var ptr0 := ptr;
      if autoVacuum {
        ptr := ptr[iPage := FreePage];
      }
      FileParts(g, autoVacuum, nPage, page1, data, ptr0, ts, free);
      var iTrunk := 0;
      if nFree != 0 {
        FirstTrunk(g, nPage, page1, ts, free);
        StepFacts(g, nPage, page1, data, ts, free, 0);
        iTrunk := Get4(page1, 32);
        var nLeaf := Get4(data[iTrunk], 4);
        assert nLeaf <= g.usableSize / 4 - 2;
        if nLeaf < g.usableSize / 4 - 8 {
          AddLeaf(iPage, iTrunk, nLeaf, ptr0);
          return;
        }
      } else {
        EmptyList(g, nPage, ts, free);
      }
      PushTrunk(iPage, iTrunk, ptr0);
    }

    /** The end of a commit that has vacuumed the file: it is cut to nFin pages, and the list is empty. */
    method CutOff(nFin: nat)
      requires Valid() && 1 <= nFin <= nPage
      modifies `page1, `nPage, `data, `ts, `free
      ensures Valid() && free == {} && nPage == nFin && Get4(page1, 28) == nFin
      ensures forall p :: 2 <= p <= nFin ==> p in data && p in old(data) && data[p] == old(data)[p]
      ensures WrittenIn(old(page1), page1, 28, 40)
    {
      hide Flat, Get4, Four;
      FileParts(g, autoVacuum, nPage, page1, data, ptr, ts, free);
      ghost var page0 := page1;
      page1 := Put4(page1, 32, 0);
      GetFour(page1, 32, 0);
      ghost var page2 := page1;
      page1 := Put4(page1, 36, 0);
      GetFour(page1, 36, 0);
      Get4Kept(page2, page1, 36, 32);
      ghost var page3 := page1;
      page1 := Put4(page1, 28, nFin);
      GetFour(page1, 28, nFin);
      Get4Kept(page3, page1, 28, 32);
      Get4Kept(page3, page1, 28, 36);
      data := map p | 2 <= p <= nFin :: data[p];
      nPage, ts, free := nFin, [], {};
      NoList(g, nPage);
    }
  }

  lemma NoList(g: Geometry, nPage: nat)
    requires g.Valid() && 1 <= nPage <= MAX_PAGE
    ensures Lists(g, nPage, [], {})
  {}
}
