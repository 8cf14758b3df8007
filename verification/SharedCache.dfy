/**
The table locks of a shared cache (querySharedCacheTableLock, setSharedCacheTableLock and their callers): connections
that share one BtShared lock tables, by root page, for reading or writing, within transactions of which one at most
writes.
*/
module SharedCache {

  datatype LockType = Read | Write

  datatype Trans = NoTrans | ReadTrans | WriteTrans

  /** Connection owner has the table with root page iTable locked. */
  datatype BtLock = BtLock(owner: nat, iTable: nat, eLock: LockType)

  datatype Option = None | Some(value: nat)

  datatype Code = Ok | Locked | ReadOnly | Failed(code: int)

  // The root page of the schema table.
  const MASTER_ROOT: nat := 1

  predicate Allows(t: Trans, e: LockType) {
    t == WriteTrans || (t == ReadTrans && e == Read)
  }

  // ----- Lists of locks -----

  /** A table that one connection has locked for writing is locked by no other. */
  ghost predicate Compatible(ls: seq<BtLock>) {
    forall i, j :: 0 <= i < |ls| && 0 <= j < |ls| && ls[i].owner != ls[j].owner && ls[i].iTable == ls[j].iTable ==>
      ls[i].eLock == Read && ls[j].eLock == Read
  }

  // A connection has one lock on a table.
  ghost predicate OneEach(ls: seq<BtLock>) {
    forall i, j :: 0 <= i < j < |ls| ==> ls[i].owner != ls[j].owner || ls[i].iTable != ls[j].iTable
  }

  ghost predicate HasLock(ls: seq<BtLock>, p: nat, iTable: nat) {
    exists i :: 0 <= i < |ls| && ls[i].owner == p && ls[i].iTable == iTable
  }

  function LockIndex(ls: seq<BtLock>, p: nat, iTable: nat): (i: nat)
    ensures i <= |ls|
    ensures i < |ls| ==> ls[i].owner == p && ls[i].iTable == iTable
    ensures forall j :: 0 <= j < i ==> ls[j].owner != p || ls[j].iTable != iTable
  {
    if ls == [] || (ls[0].owner == p && ls[0].iTable == iTable) then 0
    else
      var i := LockIndex(ls[1..], p, iTable);
      assert forall j :: 0 < j < i + 1 ==> ls[j] == ls[1..][j - 1];
      i + 1
  }

  /** The locks after one is granted: a new one at the head of the list, or the greater of the two. */
  function Granted(ls: seq<BtLock>, p: nat, iTable: nat, eLock: LockType): seq<BtLock> {
    var i := LockIndex(ls, p, iTable);
    if i == |ls| then [BtLock(p, iTable, eLock)] + ls
    else if eLock == Write then ls[i := ls[i].(eLock := Write)] else ls
  }

  function Without(ls: seq<BtLock>, p: nat): seq<BtLock> {
    if ls == [] then [] else (if ls[0].owner == p then [] else [ls[0]]) + Without(ls[1..], p)
  }

  function ReadOnes(ls: seq<BtLock>): seq<BtLock> {
    seq(|ls|, i requires 0 <= i < |ls| => ls[i].(eLock := Read))
  }

  // What stands in the way of a lock.
  predicate Conflict(l: BtLock, p: nat, iTable: nat, eLock: LockType) {
    l.owner != p && l.iTable == iTable && l.eLock != eLock
  }

  lemma {:induction false} WithoutMembers(ls: seq<BtLock>, p: nat)
    ensures forall l :: l in Without(ls, p) <==> l in ls && l.owner != p
  {
    if ls != [] {
      WithoutMembers(ls[1..], p);
      assert ls == [ls[0]] + ls[1..];
    }
  }

  lemma {:induction false} WithoutOneEach(ls: seq<BtLock>, p: nat)
    requires OneEach(ls)
    ensures OneEach(Without(ls, p))
  {
    if ls != [] {
      var rest := ls[1..];
      assert forall i :: 0 <= i < |rest| ==> rest[i] == ls[i + 1];
      WithoutOneEach(rest, p);
      WithoutMembers(rest, p);
      var w := Without(rest, p);
      forall i | 0 <= i < |w|
        ensures ls[0].owner != w[i].owner || ls[0].iTable != w[i].iTable
      {
        assert w[i] in w;
        var k :| 0 <= k < |rest| && rest[k] == w[i];
      }
    }
  }

  function CountOpen(ts: seq<Trans>): nat {
    if ts == [] then 0 else CountOpen(ts[..|ts| - 1]) + if ts[|ts| - 1] == NoTrans then 0 else 1
  }

  lemma {:induction false} CountSet(ts: seq<Trans>, p: nat, t: Trans)
    requires p < |ts|
    ensures CountOpen(ts[p := t])
      == CountOpen(ts) - (if ts[p] == NoTrans then 0 else 1) + (if t == NoTrans then 0 else 1)
  {
    var n := |ts| - 1;
    if p < n {
      CountSet(ts[..n], p, t);
      assert ts[p := t][..n] == ts[..n][p := t];
    } else {
      assert ts[p := t][..n] == ts[..n];
    }
  }

  // Two connections with transactions.
  lemma {:induction false} CountTwo(ts: seq<Trans>, p: nat, q: nat)
    requires p < |ts| && q < |ts| && p != q && ts[p] != NoTrans && ts[q] != NoTrans
    ensures CountOpen(ts) >= 2
  {
    var n := |ts| - 1;
    if p < n && q < n {
      CountTwo(ts[..n], p, q);
    } else if p < n {
      CountOne(ts[..n], p);
    } else {
      CountOne(ts[..n], q);
    }
  }

  lemma {:induction false} CountOne(ts: seq<Trans>, p: nat)
    requires p < |ts| && ts[p] != NoTrans
    ensures CountOpen(ts) >= 1
  {
    if p < |ts| - 1 {
      CountOne(ts[..|ts| - 1], p);
    }
  }

  lemma {:induction false} CountNone(ts: seq<Trans>)
    requires forall p :: 0 <= p < |ts| ==> ts[p] == NoTrans
    ensures CountOpen(ts) == 0
  {
    if ts != [] {
      CountNone(ts[..|ts| - 1]);
    }
  }

  lemma {:induction false} SomeOpen(ts: seq<Trans>) returns (p: nat)
    requires CountOpen(ts) > 0
    ensures p < |ts| && ts[p] != NoTrans
  {
    var n := |ts| - 1;
    if ts[n] != NoTrans {
      p := n;
    } else {
      p := SomeOpen(ts[..n]);
    }
  }

  // ----- The state of a BtShared -----

  /** The fields of a BtShared that locking uses, and the transaction of each connection. */
  datatype Cache = Cache(pLock: seq<BtLock>, pWriter: Option, exclusive: bool, pending: bool, nTransaction: nat,
                         inTransaction: Trans,
                         inTrans: seq<Trans>)

  function NewCache(n: nat): Cache {
    Cache([], None, false, false, 0, NoTrans, seq(n, _ => NoTrans))
  }

  // The locks fit the transactions of their owners.
  ghost predicate LockAt(s: Cache, i: nat) {
    i < |s.pLock| && s.pLock[i].owner < |s.inTrans| && Allows(s.inTrans[s.pLock[i].owner], s.pLock[i].eLock)
  }

  ghost predicate TransAt(s: Cache, p: nat) {
    && p < |s.inTrans| && (s.inTrans[p] != NoTrans ==> HasLock(s.pLock, p, MASTER_ROOT))
    && (s.inTrans[p] == WriteTrans <==> s.pWriter == Some(p))
  }

  /**
  Write locks belong only to the single writer; no table that is locked for writing is locked by another connection; an
  exclusive transaction owns every lock; the transactions are counted; and the pending flag is set only while a writer
  waits for others.
  */
  ghost predicate Safe(s: Cache) {
    LocksSafe(s) && s.inTransaction == OpenTrans(s.pWriter, s.nTransaction)
  }

  // The transaction of the file: that of the writer, or else of any reader.
  function OpenTrans(pWriter: Option, nTransaction: nat): Trans {
    if pWriter.Some? then WriteTrans else if nTransaction > 0 then ReadTrans else NoTrans
  }

  ghost predicate LocksSafe(s: Cache) {
    && Compatible(s.pLock) && OneEach(s.pLock)
    && (forall i :: 0 <= i < |s.pLock| ==> LockAt(s, i))
    && (forall p :: 0 <= p < |s.inTrans| ==> TransAt(s, p))
    && (s.pWriter.Some? ==> s.pWriter.value < |s.inTrans|)
    && (s.exclusive ==> s.pWriter.Some? && forall i :: 0 <= i < |s.pLock| ==> s.pLock[i].owner == s.pWriter.value)
    && s.nTransaction == CountOpen(s.inTrans)
    && (s.pending ==> s.pWriter.Some? && s.nTransaction >= 2)
  }

  lemma WithoutNext(kept: seq<BtLock>, ls: seq<BtLock>, i: nat, p: nat)
    requires i < |ls|
    ensures kept + Without(ls[i..], p)
      == (if ls[i].owner != p then kept + [ls[i]] else kept) + Without(ls[i + 1..], p)
  {
    assert ls[i..][1..] == ls[i + 1..];
  }

  lemma WithoutNone(kept: seq<BtLock>, ls: seq<BtLock>, p: nat)
    ensures kept + Without(ls[|ls|..], p) == kept
  {
    assert ls[|ls|..] == [];
  }

  lemma OwnerAllowed(s: Cache, i: nat)
    requires LocksSafe(s) && i < |s.pLock|
    ensures s.pLock[i].owner < |s.inTrans| && Allows(s.inTrans[s.pLock[i].owner], s.pLock[i].eLock)
    ensures s.exclusive ==> s.pWriter == Some(s.pLock[i].owner)
  {
    assert LockAt(s, i);
  }

  lemma PendingHasWriter(s: Cache)
    requires LocksSafe(s)
    ensures s.pending ==> s.pWriter.Some?
  {}

  /** In every safe state a table with a write lock has no other owner, and that owner is the writer. */
  lemma WriteLockAlone(s: Cache, i: nat, j: nat)
    requires Safe(s) && i < |s.pLock| && j < |s.pLock| && s.pLock[i].eLock == Write
    ensures s.pWriter == Some(s.pLock[i].owner)
    ensures s.pLock[j].iTable == s.pLock[i].iTable ==> s.pLock[j].owner == s.pLock[i].owner
    ensures s.pLock[j].eLock == Write ==> s.pLock[j].owner == s.pLock[i].owner
  {
    assert LockAt(s, i) && LockAt(s, j);
    assert TransAt(s, s.pLock[i].owner) && TransAt(s, s.pLock[j].owner);
  }

  /** During an exclusive transaction there is no other. */
  lemma ExclusiveAlone(s: Cache, p: nat)
    requires Safe(s) && s.exclusive && p < |s.inTrans| && s.pWriter != Some(p)
    ensures s.inTrans[p] == NoTrans
  {
    assert TransAt(s, p);
  }

  lemma GrantedLocks(ls: seq<BtLock>, p: nat, iTable: nat, eLock: LockType, l: BtLock)
    requires l in Granted(ls, p, iTable, eLock)
    ensures (l.owner == p && l.iTable == iTable && (l.eLock == eLock || l in ls)) || l in ls
  {}

  lemma GrantedHas(ls: seq<BtLock>, p: nat, iTable: nat, eLock: LockType, q: nat, iTab: nat)
    requires HasLock(ls, q, iTab)
    ensures HasLock(Granted(ls, p, iTable, eLock), q, iTab)
  {
    var k :| 0 <= k < |ls| && ls[k].owner == q && ls[k].iTable == iTab;
    var r := Granted(ls, p, iTable, eLock);
    if LockIndex(ls, p, iTable) == |ls| {
      assert r[k + 1] == ls[k];
    } else {
      assert r[k].owner == q;
    }
  }

  lemma GrantedOneEach(ls: seq<BtLock>, p: nat, iTable: nat, eLock: LockType)
    requires OneEach(ls)
    ensures OneEach(Granted(ls, p, iTable, eLock))
  {}

  /** A lock without conflicts is granted without a conflict. */
  lemma GrantedCompatible(ls: seq<BtLock>, p: nat, iTable: nat, eLock: LockType)
    requires Compatible(ls) && forall i :: 0 <= i < |ls| ==> !Conflict(ls[i], p, iTable, eLock)
    requires eLock == Write ==> forall i :: 0 <= i < |ls| && ls[i].owner != p ==> ls[i].eLock == Read
    ensures Compatible(Granted(ls, p, iTable, eLock))
  {
    var r := Granted(ls, p, iTable, eLock);
    forall i, j | 0 <= i < |r| && 0 <= j < |r| && r[i].owner != r[j].owner && r[i].iTable == r[j].iTable
      ensures r[i].eLock == Read && r[j].eLock == Read
    {
      GrantedPair(ls, p, iTable, eLock, i, j);
      GrantedPair(ls, p, iTable, eLock, j, i);
    }
  }

  lemma GrantedPair(ls: seq<BtLock>, p: nat, iTable: nat, eLock: LockType, i: nat, j: nat)
    requires Compatible(ls) && forall k :: 0 <= k < |ls| ==> !Conflict(ls[k], p, iTable, eLock)
    requires eLock == Write ==> forall k :: 0 <= k < |ls| && ls[k].owner != p ==> ls[k].eLock == Read
    requires var r := Granted(ls, p, iTable, eLock);
      i < |r| && j < |r| && r[i].owner != r[j].owner && r[i].iTable == r[j].iTable
    ensures Granted(ls, p, iTable, eLock)[i].eLock == Read
  {
    var r, n := Granted(ls, p, iTable, eLock), LockIndex(ls, p, iTable);
    if n == |ls| {
      if i == 0 {
        assert r[j] == ls[j - 1];
      } else if j == 0 {
        assert r[i] == ls[i - 1];
      } else {
        assert r[i] == ls[i - 1] && r[j] == ls[j - 1];
      }
    } else if i == n {
      assert r[j] == ls[j];
      assert !Conflict(ls[j], p, iTable, eLock);
    } else {
      assert r[i] == ls[i];
      assert !Conflict(ls[i], p, iTable, eLock);
    }
  }

  lemma WriterOnly(s: Cache, p: nat, i: nat)
    requires LocksSafe(s) && i < |s.pLock|
    ensures s.pWriter == Some(p) ==> s.pLock[i].owner == p || s.pLock[i].eLock == Read
  {
    assert LockAt(s, i);
    assert TransAt(s, s.pLock[i].owner);
  }

  lemma WriterIs(s: Cache, p: nat)
    requires Safe(s) && p < |s.inTrans|
    ensures s.inTrans[p] == WriteTrans <==> s.pWriter == Some(p)
  {
    assert TransAt(s, p);
  }

  // Somebody else has a lock, and so a transaction.
  lemma PendingSafe(s: Cache, p: nat, i: nat)
    requires Safe(s) && s.pWriter == Some(p) && i < |s.pLock| && s.pLock[i].owner != p
    ensures Safe(s.(pending := true))
  {
    hide Compatible, OneEach;
    var q := s.pLock[i].owner;
    assert LockAt(s, i);
    assert TransAt(s, p) && TransAt(s, q);
    CountTwo(s.inTrans, p, q);
    var s' := s.(pending := true);
    forall k | 0 <= k < |s'.pLock|
      ensures LockAt(s', k)
    {
      assert LockAt(s, k);
    }
    forall k | 0 <= k < |s'.inTrans|
      ensures TransAt(s', k)
    {
      assert TransAt(s, k);
    }
  }

  /** A lock that is granted leaves the state safe. */
  lemma GrantSafe(s: Cache, p: nat, iTable: nat, eLock: LockType)
    requires Safe(s) && p < |s.inTrans| && Allows(s.inTrans[p], eLock) && (s.exclusive ==> s.pWriter == Some(p))
    requires forall i :: 0 <= i < |s.pLock| ==> !Conflict(s.pLock[i], p, iTable, eLock)
    ensures Safe(s.(pLock := Granted(s.pLock, p, iTable, eLock)))
  {
    hide Granted;
    var s' := s.(pLock := Granted(s.pLock, p, iTable, eLock));
    assert TransAt(s, p);
    forall i | 0 <= i < |s.pLock| && s.pLock[i].owner != p && eLock == Write
      ensures s.pLock[i].eLock == Read
    {
      WriterOnly(s, p, i);
    }
    GrantedCompatible(s.pLock, p, iTable, eLock);
    GrantedOneEach(s.pLock, p, iTable, eLock);
    forall k | 0 <= k < |s'.pLock|
      ensures LockAt(s', k) && (s.exclusive ==> s'.pLock[k].owner == s.pWriter.value)
    {
      assert s'.pLock[k] in s'.pLock;
      GrantedLocks(s.pLock, p, iTable, eLock, s'.pLock[k]);
      if s'.pLock[k] in s.pLock {
        var l :| 0 <= l < |s.pLock| && s.pLock[l] == s'.pLock[k];
        assert LockAt(s, l);
      }
    }
    forall k | 0 <= k < |s'.inTrans|
      ensures TransAt(s', k)
    {
      assert TransAt(s, k);
      if s.inTrans[k] != NoTrans {
        GrantedHas(s.pLock, p, iTable, eLock, k, MASTER_ROOT);
      }
    }
  }

  lemma SafeParts(s: Cache)
    requires Safe(s)
    ensures LocksSafe(s) && s.inTransaction == OpenTrans(s.pWriter, s.nTransaction)
    ensures s.pending ==> s.pWriter.Some?
    ensures forall p :: 0 <= p < |s.inTrans| ==> (s.inTrans[p] == WriteTrans <==> s.pWriter == Some(p))
    ensures forall p :: 0 <= p < |s.inTrans| && s.inTrans[p] != NoTrans ==> s.nTransaction > 0
  {
    forall p | 0 <= p < |s.inTrans|
      ensures (s.inTrans[p] == WriteTrans <==> s.pWriter == Some(p)) && (s.inTrans[p] != NoTrans ==> s.nTransaction > 0)
    {
      assert TransAt(s, p);
      if s.inTrans[p] != NoTrans {
        CountOne(s.inTrans, p);
      }
    }
  }

  lemma LocksOnly(s: Cache, s': Cache)
    requires LocksSafe(s) && s' == s.(inTransaction := s'.inTransaction)
    ensures LocksSafe(s')
  {
    hide Compatible, OneEach;
    forall i | 0 <= i < |s'.pLock|
      ensures LockAt(s', i)
    {
      assert LockAt(s, i);
    }
    forall p | 0 <= p < |s'.inTrans|
      ensures TransAt(s', p)
    {
      assert TransAt(s, p);
    }
  }

  /** A transaction that begins leaves the state safe. */
  lemma BeginSafe(s: Cache, p: nat, wrflag: nat)
    requires Safe(s) && p < |s.inTrans| && !Enough(s.inTrans[p], wrflag) && !s.pending
      && (s.exclusive ==> s.pWriter == Some(p))
    requires wrflag > 0 ==> s.inTransaction != WriteTrans
    requires wrflag > 1 ==> forall k :: 0 <= k < |s.pLock| ==> s.pLock[k].owner == p
    requires forall i :: 0 <= i < |s.pLock| ==> !Conflict(s.pLock[i], p, MASTER_ROOT, Read)
    ensures Safe(Begun(s, p, wrflag)) && (wrflag > 0 ==> s.pWriter == None)
  {
    var s' := Begun(s, p, wrflag);
    assert TransAt(s, p);
    CountSet(s.inTrans, p, s'.inTrans[p]);
    BeginLocks(s, p, wrflag);
    forall q | 0 <= q < |s'.inTrans|
      ensures TransAt(s', q)
    {
      assert TransAt(s, q);
      BeginHas(s, p, wrflag, q);
    }
  }

  lemma BeginHas(s: Cache, p: nat, wrflag: nat, q: nat)
    requires p < |s.inTrans| && q < |s.inTrans| && TransAt(s, q)
    ensures s.inTrans[q] != NoTrans || q == p ==> HasLock(Begun(s, p, wrflag).pLock, q, MASTER_ROOT)
  {
    var ls := Begun(s, p, wrflag).pLock;
    if s.inTrans[q] != NoTrans {
      var k :| 0 <= k < |s.pLock| && s.pLock[k].owner == q && s.pLock[k].iTable == MASTER_ROOT;
      assert ls[k + (|ls| - |s.pLock|)] == s.pLock[k];
    } else if q == p {
      assert ls[0].owner == p;
    }
  }

  lemma BeginLocks(s: Cache, p: nat, wrflag: nat)
    requires Safe(s) && p < |s.inTrans| && !Enough(s.inTrans[p], wrflag) && (s.exclusive ==> s.pWriter == Some(p))
    requires wrflag > 1 ==> forall k :: 0 <= k < |s.pLock| ==> s.pLock[k].owner == p
    requires forall i :: 0 <= i < |s.pLock| ==> !Conflict(s.pLock[i], p, MASTER_ROOT, Read)
    ensures var s' := Begun(s, p, wrflag);
      && Compatible(s'.pLock) && OneEach(s'.pLock) && (forall i :: 0 <= i < |s'.pLock| ==> LockAt(s', i))
      && (wrflag > 1 ==> forall i :: 0 <= i < |s'.pLock| ==> s'.pLock[i].owner == p)
      && (s.exclusive ==> wrflag == 0 || s.pWriter == Some(p))
  {
    var s' := Begun(s, p, wrflag);
    assert TransAt(s, p);
    if s.inTrans[p] == NoTrans {
      forall i | 0 <= i < |s.pLock|
        ensures s.pLock[i].owner != p
      {
        assert LockAt(s, i);
      }
      GrantedCompatible(s.pLock, p, MASTER_ROOT, Read);
      assert Granted(s.pLock, p, MASTER_ROOT, Read) == s'.pLock;
      GrantedOneEach(s.pLock, p, MASTER_ROOT, Read);
    }
    forall i | 0 <= i < |s'.pLock|
      ensures LockAt(s', i)
    {
      var k := i - (|s'.pLock| - |s.pLock|);
      if k >= 0 {
        assert LockAt(s, k) && s'.pLock[i] == s.pLock[k];
      }
    }
  }

  /** A transaction that ends leaves the state safe. */
  lemma EndSafe(s: Cache, p: nat, reading: bool)
    requires Safe(s) && p < |s.inTrans|
    ensures Safe(Ended(s, p, reading))
  {
    hide Ended, Safe;
    if s.inTrans[p] != NoTrans {
      if reading {
        DowngradeSafe(s, p);
      } else {
        ClearSafe(s, p);
      }
    } else {
      EndedSame(s, p, reading);
    }
  }

  lemma EndedSame(s: Cache, p: nat, reading: bool)
    requires p < |s.inTrans| && s.inTrans[p] == NoTrans
    ensures Ended(s, p, reading) == s
  {}

  lemma DowngradeSafe(s: Cache, p: nat)
    requires Safe(s) && p < |s.inTrans| && s.inTrans[p] != NoTrans
    ensures Safe(Ended(s, p, true))
  {
    var s' := Ended(s, p, true);
    assert TransAt(s, p);
    if s.pWriter == Some(p) {
      CountSet(s.inTrans, p, ReadTrans);
      CountOne(s.inTrans, p);
      forall i | 0 <= i < |s'.pLock|
        ensures LockAt(s', i)
      {
        assert LockAt(s, i);
      }
      forall q | 0 <= q < |s'.inTrans|
        ensures TransAt(s', q)
      {
        assert TransAt(s, q);
        if s.inTrans[q] != NoTrans {
          var k :| 0 <= k < |s.pLock| && s.pLock[k].owner == q && s.pLock[k].iTable == MASTER_ROOT;
          assert s'.pLock[k].owner == q;
        }
      }
    }
  }

  lemma ClearSafe(s: Cache, p: nat)
    requires Safe(s) && p < |s.inTrans| && s.inTrans[p] != NoTrans
    ensures Safe(Ended(s, p, false))
  {
    var s' := Ended(s, p, false);
    assert TransAt(s, p);
    CountSet(s.inTrans, p, NoTrans);
    CountOne(s.inTrans, p);
    WithoutOneEach(s.pLock, p);
    WithoutMembers(s.pLock, p);
    assert s.pWriter.Some? && s.pWriter != Some(p) ==> s.inTrans[s.pWriter.value] == WriteTrans by {
      if s.pWriter.Some? {
        assert TransAt(s, s.pWriter.value);
      }
    }
    if s.pWriter.Some? && s.pWriter != Some(p) {
      CountTwo(s.inTrans, p, s.pWriter.value);
    }
    ClearLocks(s, p);
    forall q | 0 <= q < |s'.inTrans|
      ensures TransAt(s', q)
    {
      assert TransAt(s, q);
      if s.inTrans[q] != NoTrans && q != p {
        var k :| 0 <= k < |s.pLock| && s.pLock[k].owner == q && s.pLock[k].iTable == MASTER_ROOT;
        assert s.pLock[k] in s'.pLock;
      }
    }
  }

  lemma ClearLocks(s: Cache, p: nat)
    requires Safe(s) && p < |s.inTrans|
    ensures var ls := Without(s.pLock, p);
      && Compatible(ls)
      && (forall i :: 0 <= i < |ls| ==>
            ls[i].owner != p && ls[i].owner < |s.inTrans| && Allows(s.inTrans[ls[i].owner], ls[i].eLock))
      && (s.exclusive ==> forall i :: 0 <= i < |ls| ==> ls[i].owner == s.pWriter.value)
  {
    WithoutMembers(s.pLock, p);
    var ls := Without(s.pLock, p);
    forall i | 0 <= i < |ls|
      ensures ls[i].owner != p && ls[i].owner < |s.inTrans| && Allows(s.inTrans[ls[i].owner], ls[i].eLock)
      ensures s.exclusive ==> ls[i].owner == s.pWriter.value
    {
      assert ls[i] in ls;
      var k :| 0 <= k < |s.pLock| && s.pLock[k] == ls[i];
      assert LockAt(s, k);
    }
    forall i, j | 0 <= i < |ls| && 0 <= j < |ls| && ls[i].owner != ls[j].owner && ls[i].iTable == ls[j].iTable
      ensures ls[i].eLock == Read && ls[j].eLock == Read
    {
      assert ls[i] in ls && ls[j] in ls;
      var k :| 0 <= k < |s.pLock| && s.pLock[k] == ls[i];
      var l :| 0 <= l < |s.pLock| && s.pLock[l] == ls[j];
    }
  }

  // ----- Transactions, on values -----

  // The transaction that is asked for is open already.
  predicate Enough(t: Trans, wrflag: nat) {
    t == WriteTrans || (t == ReadTrans && wrflag == 0)
  }

  /** What sqlite3BtreeBeginTrans returns. */
  ghost function BeginCode(s: Cache, readOnly: bool, p: nat, wrflag: nat, fileRc: Code): Code
    requires p < |s.inTrans|
  {
    if Enough(s.inTrans[p], wrflag) then Ok
    else if readOnly && wrflag > 0 then ReadOnly
    else if (wrflag > 0 && s.inTransaction == WriteTrans) || s.pending then Locked
    else if wrflag > 1 && exists k :: 0 <= k < |s.pLock| && s.pLock[k].owner != p then Locked
    else if s.exclusive && s.pWriter != Some(p) then Locked
    else if exists i :: 0 <= i < |s.pLock| && Conflict(s.pLock[i], p, MASTER_ROOT, Read) then Locked
    else fileRc
  }

  function Begun(s: Cache, p: nat, wrflag: nat): Cache
    requires p < |s.inTrans|
  {
    var t := if wrflag > 0 then WriteTrans else ReadTrans;
    var fresh' := s.inTrans[p] == NoTrans;
    s.(pLock := if fresh' then [BtLock(p, MASTER_ROOT, Read)] + s.pLock else s.pLock,
       nTransaction := if fresh' then s.nTransaction + 1 else s.nTransaction,
       inTrans := s.inTrans[p := t],
       inTransaction := if wrflag > 0 || s.inTransaction == NoTrans then t else s.inTransaction,
       pWriter := if wrflag > 0 then Some(p) else s.pWriter,
       exclusive := if wrflag > 0 then wrflag > 1 else s.exclusive)
  }

  function Ended(s: Cache, p: nat, reading: bool): Cache
    requires p < |s.inTrans|
  {
    if s.inTrans[p] == NoTrans then s
    else if reading then
      if s.pWriter == Some(p) then
        s.(pLock := ReadOnes(s.pLock), pWriter := None, exclusive := false, pending := false,
           inTransaction := ReadTrans,
           inTrans := s.inTrans[p := ReadTrans])
      else s
    else
      var n := if s.nTransaction > 0 then s.nTransaction - 1 else 0;
      var w := if s.pWriter == Some(p) then None else s.pWriter;
      s.(pLock := Without(s.pLock, p), pWriter := w, exclusive := s.exclusive && w == s.pWriter,
         pending := s.pending && w == s.pWriter && s.nTransaction != 2, nTransaction := n,
         inTransaction := if n == 0 then NoTrans else if s.inTrans[p] == WriteTrans then ReadTrans else s.inTransaction,
         inTrans := s.inTrans[p := NoTrans])
  }

  /** A lock is refused during the exclusive transaction of another, and when another has a lock that conflicts. */
  ghost predicate Refused(s: Cache, p: nat, iTab: nat, eLock: LockType) {
    (s.exclusive && s.pWriter != Some(p)) || exists i :: 0 <= i < |s.pLock| && Conflict(s.pLock[i], p, iTab, eLock)
  }

  // ----- The rules, in terms of who has which lock -----

  /**
  A lock on a table: refused during the exclusive transaction of another, and when another connection has the table
  locked and one of the two locks is for writing. The owner then has one lock on the table, the stronger of what it
  asked for and what it had, and all other locks are as before.
  */
  ghost predicate LockRule(s: Cache, p: nat, iTab: nat, isWriteLock: bool, rc: Code, s': Cache) {
    if (s.exclusive && s.pWriter != Some(p))
      || (exists l :: l in s.pLock && l.owner != p && l.iTable == iTab && (isWriteLock || l.eLock == Write))
    then rc == Locked && s' == s.(pending := s.pending || isWriteLock)
    else
      var strong := isWriteLock || BtLock(p, iTab, Write) in s.pLock;
      && rc == Ok && s' == s.(pLock := s'.pLock)
      && BtLock(p, iTab, if strong then Write else Read) in s'.pLock
      && BtLock(p, iTab, if strong then Read else Write) !in s'.pLock
      && forall l: BtLock :: l.owner != p || l.iTable != iTab ==> (l in s'.pLock <==> l in s.pLock)
  }

  // No transaction may begin: a second writer, a writer that waits, locks of others, or a schema that is being written.
  ghost predicate Barred(s: Cache, p: nat, wrflag: nat) {
    || (wrflag > 0 && s.pWriter.Some?) || s.pending || (s.exclusive && s.pWriter != Some(p))
    || (wrflag > 1 && exists l :: l in s.pLock && l.owner != p)
    || exists l :: l in s.pLock && l.owner != p && l.iTable == MASTER_ROOT && l.eLock == Write
  }

  /**
  The beginning of a transaction: what it may be refused for, and that it adds a read lock on the schema table and
  nothing else to the locks.
  */
  ghost predicate BeginRule(s: Cache, readOnly: bool, p: nat, wrflag: nat, fileRc: Code, rc: Code, s': Cache)
    requires p < |s.inTrans|
  {
    var t := s.inTrans[p];
    if t == WriteTrans || (t == ReadTrans && wrflag == 0) then rc == Ok && s' == s
    else if readOnly && wrflag > 0 then rc == ReadOnly && s' == s
    else if Barred(s, p, wrflag) then rc == Locked && s' == s
    else if fileRc != Ok then rc == fileRc && s' == s
    else
      && rc == Ok && s'.pending == s.pending
      && s'.inTrans == s.inTrans[p := if wrflag > 0 then WriteTrans else ReadTrans]
      && s'.pWriter == (if wrflag > 0 then Some(p) else s.pWriter)
      && s'.exclusive == (if wrflag > 0 then wrflag > 1 else s.exclusive)
      && forall l :: l in s'.pLock <==> l in s.pLock || (l == BtLock(p, MASTER_ROOT, Read) && t == NoTrans)
  }

  /**
  The end of a transaction: the locks of the connection are gone, or if it is still reading those for writing are for
  reading; all other locks are as before. A writer that was waiting waits on while two others have transactions.
  */
  ghost predicate EndRule(s: Cache, p: nat, reading: bool, s': Cache)
    requires p < |s.inTrans|
  {
    if s.inTrans[p] == NoTrans || (reading && s.pWriter != Some(p)) then s' == s
    else
      && s'.inTrans == s.inTrans[p := if reading then ReadTrans else NoTrans]
      && s'.pWriter == (if s.pWriter == Some(p) then None else s.pWriter)
      && s'.exclusive == (s.exclusive && s.pWriter != Some(p))
      && s'.pending == (s.pending && s.pWriter != Some(p) && s.nTransaction > 2)
      && (forall l: BtLock :: l.owner != p ==> (l in s'.pLock <==> l in s.pLock))
      && forall t :: BtLock(p, t, Write) !in s'.pLock
           && (BtLock(p, t, Read) in s'.pLock <==>
                 reading && (BtLock(p, t, Read) in s.pLock || BtLock(p, t, Write) in s.pLock))
  }

  /** What is granted follows the rule: the shorter test that the code makes is the same in a safe state. */
  lemma LockRules(s: Cache, p: nat, iTab: nat, isWriteLock: bool)
    requires Safe(s) && p < |s.inTrans| && (isWriteLock ==> s.inTrans[p] == WriteTrans)
    ensures var e := if isWriteLock then Write else Read;
      if Refused(s, p, iTab, e) then LockRule(s, p, iTab, isWriteLock, Locked, s.(pending := s.pending || isWriteLock))
      else LockRule(s, p, iTab, isWriteLock, Ok, s.(pLock := Granted(s.pLock, p, iTab, e)))
  {
    hide Granted, Compatible;
    var e := if isWriteLock then Write else Read;
    forall i | 0 <= i < |s.pLock|
      ensures var l := s.pLock[i];
        Conflict(l, p, iTab, e) <==> l.owner != p && l.iTable == iTab && (isWriteLock || l.eLock == Write)
    {
      WriterOnly(s, p, i);
      assert TransAt(s, p);
    }
    if !Refused(s, p, iTab, e) {
      GrantedIs(s.pLock, p, iTab, e);
    } else if !(s.exclusive && s.pWriter != Some(p)) {
      var i :| 0 <= i < |s.pLock| && Conflict(s.pLock[i], p, iTab, e);
      assert s.pLock[i] in s.pLock;
    }
  }

  lemma GrantedIs(ls: seq<BtLock>, p: nat, iTable: nat, eLock: LockType)
    requires OneEach(ls)
    ensures var r, strong := Granted(ls, p, iTable, eLock), eLock == Write || BtLock(p, iTable, Write) in ls;
      && BtLock(p, iTable, if strong then Write else Read) in r
      && BtLock(p, iTable, if strong then Read else Write) !in r
      && forall l: BtLock :: l.owner != p || l.iTable != iTable ==> (l in r <==> l in ls)
  {
    var i, r := LockIndex(ls, p, iTable), Granted(ls, p, iTable, eLock);
    if i < |ls| {
      assert r[i] in r && ls[i] in ls && ls[i] == BtLock(p, iTable, ls[i].eLock);
      forall l: BtLock | l in ls && l.owner == p && l.iTable == iTable
        ensures l == ls[i]
      {
        var k :| 0 <= k < |ls| && ls[k] == l;
      }
      assert BtLock(p, iTable, Write) in ls <==> ls[i].eLock == Write;
      assert r[i] == BtLock(p, iTable, if eLock == Write then Write else ls[i].eLock);
      forall l: BtLock | (l.owner != p || l.iTable != iTable) && l in ls
        ensures l in r
      {
        var k :| 0 <= k < |ls| && ls[k] == l;
        assert r[k] == l;
      }
    } else {
      assert r[0] == BtLock(p, iTable, eLock);
      assert r[1..] == ls;
    }
  }

  lemma BarredIs(s: Cache, p: nat, wrflag: nat)
    requires Safe(s) && p < |s.inTrans|
    ensures Barred(s, p, wrflag) <==>
      || (wrflag > 0 && s.inTransaction == WriteTrans) || s.pending || (s.exclusive && s.pWriter != Some(p))
      || (wrflag > 1 && exists k :: 0 <= k < |s.pLock| && s.pLock[k].owner != p)
      || exists i :: 0 <= i < |s.pLock| && Conflict(s.pLock[i], p, MASTER_ROOT, Read)
  {
    SafeParts(s);
    hide Safe;
    if i :| 0 <= i < |s.pLock| && Conflict(s.pLock[i], p, MASTER_ROOT, Read) {
      assert s.pLock[i] in s.pLock;
    }
    if k :| 0 <= k < |s.pLock| && s.pLock[k].owner != p {
      assert s.pLock[k] in s.pLock;
    }
  }

  lemma BegunIs(s: Cache, readOnly: bool, p: nat, wrflag: nat)
    requires p < |s.inTrans| && !Enough(s.inTrans[p], wrflag) && !(readOnly && wrflag > 0) && !Barred(s, p, wrflag)
    ensures BeginRule(s, readOnly, p, wrflag, Ok, Ok, Begun(s, p, wrflag))
  {
    hide Barred;
  }

  lemma BeginRules(s: Cache, readOnly: bool, p: nat, wrflag: nat, fileRc: Code)
    requires Safe(s) && p < |s.inTrans|
    ensures var rc := BeginCode(s, readOnly, p, wrflag, fileRc);
      BeginRule(s, readOnly, p, wrflag, fileRc, rc,
                if Enough(s.inTrans[p], wrflag) || rc != Ok then s else Begun(s, p, wrflag))
  {
    hide Safe, Barred, Begun;
    BarredIs(s, p, wrflag);
    if !Enough(s.inTrans[p], wrflag) && !(readOnly && wrflag > 0) && !Barred(s, p, wrflag) {
      BegunIs(s, readOnly, p, wrflag);
    }
  }

  lemma EndRules(s: Cache, p: nat, reading: bool)
    requires Safe(s) && p < |s.inTrans|
    ensures EndRule(s, p, reading, Ended(s, p, reading))
  {
    SafeParts(s);
    WithoutMembers(s.pLock, p);
    if s.pWriter == Some(p) {
      forall i | 0 <= i < |s.pLock|
        ensures s.pLock[i].owner == p || s.pLock[i].eLock == Read
      {
        WriterOnly(s, p, i);
      }
      ReadOnesMembers(s.pLock);
    }
  }

  lemma ReadOnesMembers(ls: seq<BtLock>)
    ensures forall q, t :: BtLock(q, t, Write) !in ReadOnes(ls)
    ensures forall q, t :: BtLock(q, t, Read) in ReadOnes(ls) <==> BtLock(q, t, Read) in ls || BtLock(q, t, Write) in ls
  {
    var r := ReadOnes(ls);
    forall q, t
      ensures BtLock(q, t, Read) in r <==> BtLock(q, t, Read) in ls || BtLock(q, t, Write) in ls
    {
      if BtLock(q, t, Read) in r {
        var k :| 0 <= k < |r| && r[k] == BtLock(q, t, Read);
        assert ls[k] in ls && (ls[k].eLock == Read || ls[k].eLock == Write);
        assert ls[k] == BtLock(q, t, ls[k].eLock);
      }
      if BtLock(q, t, Read) in ls {
        var k :| 0 <= k < |ls| && ls[k] == BtLock(q, t, Read);
        assert r[k] in r;
      }
      if BtLock(q, t, Write) in ls {
        var k :| 0 <= k < |ls| && ls[k] == BtLock(q, t, Write);
        assert r[k] in r;
      }
    }
  }

  class BtShared {
    const readOnly: bool
    var pLock: seq<BtLock>
    var pWriter: Option
    var exclusive: bool
    var pending: bool
    var nTransaction: nat
    var inTransaction: Trans
    var inTrans: seq<Trans>       // of each connection

    ghost function State(): Cache
      reads this
    {
      Cache(pLock, pWriter, exclusive, pending, nTransaction, inTransaction, inTrans)
    }

    ghost predicate Valid()
      reads this
    {
      Safe(State())
    }

    constructor (readOnly: bool, n: nat)
      ensures Valid() && State() == NewCache(n) && this.readOnly == readOnly
    {
      this.readOnly := readOnly;
      pLock, pWriter, exclusive, pending, nTransaction, inTransaction := [], None, false, false, 0, NoTrans;
      inTrans := NewCache(n).inTrans;
      CountNone(NewCache(n).inTrans);
    }

    /** querySharedCacheTableLock: whether the lock may be taken; a writer that may not sets the pending flag. */
    method QueryTableLock(p: nat, iTab: nat, eLock: LockType) returns (rc: Code)
      requires Valid() && p < |inTrans| && (eLock == Write ==> pWriter == Some(p) && inTrans[p] == WriteTrans)
      modifies `pending
      ensures Valid()
      ensures rc == if (exclusive && pWriter != Some(p))
                       || (exists i :: 0 <= i < |pLock| && Conflict(pLock[i], p, iTab, eLock)) then Locked else Ok
      ensures pending == (old(pending) || (eLock == Write && rc == Locked))
    {
      hide Compatible, OneEach, TransAt;
      if exclusive && pWriter != Some(p) {
        return Locked;
      }
      var i := 0;
      while i < |pLock|
        invariant 0 <= i <= |pLock| && pending == old(pending) && forall k :: 0 <= k < i ==>
          !Conflict(pLock[k], p, iTab, eLock)
      {
        var l := pLock[i];
        WriterOnly(State(), p, i);
        assert eLock == Write ==> l.owner == p || l.eLock == Read;
        if l.owner != p && l.iTable == iTab && l.eLock != eLock {
          assert Conflict(pLock[i], p, iTab, eLock);
          if eLock == Write {
            PendingSafe(State(), p, i);
            pending := true;
          }
          return Locked;
        }
        i := i + 1;
      }
      rc := Ok;
    }

    // setSharedCacheTableLock
    method SetTableLock(p: nat, iTable: nat, eLock: LockType)
      modifies `pLock
      ensures pLock == Granted(old(pLock), p, iTable, eLock)
    {
      var ls := pLock;
      var i := 0;
      while i < |ls| && !(ls[i].iTable == iTable && ls[i].owner == p)
        invariant 0 <= i <= |ls| && i <= LockIndex(ls, p, iTable)
      {
        i := i + 1;
      }
      if i == |ls| {
        pLock := [BtLock(p, iTable, eLock)] + ls;
      } else if eLock == Write {
        pLock := ls[i := ls[i].(eLock := Write)];
      }
    }

    /** sqlite3BtreeLockTable: the lock is taken exactly when nothing is in the way, and then the owner has it. */
    method LockTable(p: nat, iTab: nat, isWriteLock: bool) returns (rc: Code)
      requires Valid() && p < |inTrans| && inTrans[p] != NoTrans && (isWriteLock ==> inTrans[p] == WriteTrans)
      modifies `pLock, `pending
      ensures Valid()
      ensures var eLock := if isWriteLock then Write else Read;
        rc == if (exclusive && pWriter != Some(p))
                 || (exists i :: 0 <= i < |old(pLock)| && Conflict(old(pLock)[i], p, iTab, eLock)) then Locked else Ok
      ensures pLock == if rc == Ok then Granted(old(pLock), p, iTab, if isWriteLock then Write else Read)
        else old(pLock)
      ensures pending == (old(pending) || (isWriteLock && rc == Locked))
      ensures LockRule(old(State()), p, iTab, isWriteLock, rc, State())
    {
      hide Safe, Granted, LockRule;
      LockRules(State(), p, iTab, isWriteLock);
      var lockType := if isWriteLock then Write else Read;
      WriterIs(State(), p);
      rc := QueryTableLock(p, iTab, lockType);
      if rc == Ok {
        GrantSafe(State(), p, iTab, lockType);
        SetTableLock(p, iTab, lockType);
      }
    }

    // clearAllSharedCacheTableLocks
    method ClearAllTableLocks(p: nat)
      requires LocksSafe(State()) && p < |inTrans| && inTrans[p] != NoTrans
      modifies `pLock, `pWriter, `exclusive, `pending
      ensures pLock == Without(old(pLock), p)
      ensures pWriter == (if old(pWriter) == Some(p) then None else old(pWriter))
      ensures exclusive == (old(exclusive) && old(pWriter) != Some(p))
      ensures pending == (old(pending) && old(pWriter) != Some(p) && nTransaction != 2)
    {
      hide LocksSafe, Without, Allows;
      PendingHasWriter(State());
      var ls := pLock;
      assert ls[0..] == ls;
      var kept: seq<BtLock> := [];
      var i := 0;
      while i < |ls|
        invariant 0 <= i <= |ls| && kept + Without(ls[i..], p) == Without(ls, p)
        invariant pLock == ls && unchanged(this)
      {
        OwnerAllowed(State(), i);
        assert !exclusive || pWriter == Some(ls[i].owner);
        assert Allows(inTrans[ls[i].owner], ls[i].eLock);
        WithoutNext(kept, ls, i, p);
        if ls[i].owner != p {
          kept := kept + [ls[i]];
        }
        i := i + 1;
      }
      WithoutNone(kept, ls, p);
      pLock := kept;
      assert !pending || pWriter.Some?;
      if pWriter == Some(p) {
        pWriter := None;
        exclusive, pending := false, false;
      } else if nTransaction == 2 {
        pending := false;
      }
    }

    // downgradeAllSharedCacheTableLocks
    method DowngradeTableLocks(p: nat)
      requires LocksSafe(State()) && p < |inTrans|
      modifies `pLock, `pWriter, `exclusive, `pending
      ensures if old(pWriter) == Some(p) then pLock == ReadOnes(old(pLock)) && pWriter == None && !exclusive && !pending
              else
                && pLock == old(pLock) && pWriter == old(pWriter) && exclusive == old(exclusive)
                && pending == old(pending)
    {
      if pWriter == Some(p) {
        var ls, i := pLock, 0;
        ghost var s0 := State();
        while i < |pLock|
          invariant 0 <= i <= |pLock| == |ls| && pWriter == old(pWriter)
          invariant forall k :: 0 <= k < |ls| ==> pLock[k] == if k < i then ls[k].(eLock := Read) else ls[k]
        {
          WriterOnly(s0, p, i);
          assert ls[i].eLock == Read || ls[i].owner == p;
          pLock := pLock[i := pLock[i].(eLock := Read)];
          i := i + 1;
        }
        pWriter, exclusive, pending := None, false, false;
      }
    }

    // The loop of sqlite3BtreeBeginTrans over the locks, for an exclusive transaction.
    method OthersHaveLocks(p: nat) returns (r: bool)
      ensures r <==> exists k :: 0 <= k < |pLock| && pLock[k].owner != p
    {
      r := false;
      var i := 0;
      while i < |pLock| && !r
        invariant 0 <= i <= |pLock|
        invariant r <==> exists k :: 0 <= k < i && pLock[k].owner != p
      {
        r := pLock[i].owner != p;
        i := i + 1;
      }
    }

    /**
    sqlite3BtreeBeginTrans, with wrflag 0, 1 or 2 for a read, write or exclusive transaction, and with what locking the
    file gave. There is no second writer, and no new transaction while a writer is pending; an exclusive transaction
    begins only when no other connection has a lock.
    */
    method BeginTrans(p: nat, wrflag: nat, fileRc: Code) returns (rc: Code)
      requires Valid() && p < |inTrans|
      modifies this
      ensures Valid() && |inTrans| == |old(inTrans)|
      ensures rc == BeginCode(old(State()), readOnly, p, wrflag, fileRc)
      ensures rc != Ok || Enough(old(inTrans)[p], wrflag) ==> State() == old(State())
      ensures rc == Ok && !Enough(old(inTrans)[p], wrflag) ==> State() == Begun(old(State()), p, wrflag)
      ensures BeginRule(old(State()), readOnly, p, wrflag, fileRc, rc, State())
    {
      hide Safe, BeginRule;
      ghost var s0 := State();
      BeginRules(s0, readOnly, p, wrflag, fileRc);
      if inTrans[p] == WriteTrans || (inTrans[p] == ReadTrans && wrflag == 0) {
        return Ok;
      }
      if readOnly && wrflag > 0 {
        return ReadOnly;
      }
      SafeParts(s0);
      var blocked := false;
      if (wrflag > 0 && inTransaction == WriteTrans) || pending {
        assert pWriter.Some?;
        blocked := true;
      } else if wrflag > 1 {
        blocked := OthersHaveLocks(p);
      }
      if blocked {
        return Locked;
      }
      rc := QueryTableLock(p, MASTER_ROOT, Read);
      assert State() == s0;
      if rc != Ok {
        return;
      }
      if fileRc != Ok {
        return fileRc;
      }
      BeginSafe(s0, p, wrflag);
      if inTrans[p] == NoTrans {
        nTransaction := nTransaction + 1;
        pLock := [BtLock(p, MASTER_ROOT, Read)] + pLock;
      }
      inTrans := inTrans[p := if wrflag > 0 then WriteTrans else ReadTrans];
      if inTransaction == NoTrans || inTrans[p] == WriteTrans {
        inTransaction := inTrans[p];
      }
      if wrflag > 0 {
        assert pWriter == None;
        pWriter := Some(p);
        exclusive := wrflag > 1;
      }
      assert State() == Begun(s0, p, wrflag);
      rc := Ok;
    }

    /**
    The end of a transaction (btreeEndTransaction, as sqlite3BtreeCommitPhaseTwo and sqlite3BtreeRollback call it): with
    other statements still reading it becomes a read transaction, and otherwise all locks of the connection are gone.
    */
    method EndTransaction(p: nat, reading: bool)
      requires Valid() && p < |inTrans|
      modifies this
      ensures Valid() && State() == Ended(old(State()), p, reading) && EndRule(old(State()), p, reading, State())
    {
      hide Safe, Without, LocksSafe, EndRule;
      ghost var s0 := State();
      EndRules(s0, p, reading);
      SafeParts(s0);
      EndSafe(s0, p, reading);
      if inTrans[p] == NoTrans {
        return;
      }
      if inTrans[p] == WriteTrans {
        assert inTransaction == WriteTrans;
        inTransaction := ReadTrans;
      }
      ghost var s1 := State();
      LocksOnly(s0, s1);
      if reading {
        DowngradeTableLocks(p);
        inTrans := inTrans[p := ReadTrans];
        assert s0.pWriter != Some(p) ==> inTrans == s0.inTrans;
        assert State() == Ended(s0, p, true);
      } else {
        ClearAllTableLocks(p);
        nTransaction := nTransaction - 1;
        if nTransaction == 0 {
          inTransaction := NoTrans;
        }
        inTrans := inTrans[p := NoTrans];
        assert State() == Ended(s0, p, false);
      }
    }
  }

  /** What a connection may ask for. */
  datatype Request =
    | Begin(p: nat, wrflag: nat, fileRc: Code)
    | Lock(p: nat, iTab: nat, isWriteLock: bool)
    | End(p: nat, reading: bool)

  datatype Answer = Passed | Answer(rc: Code)

  /** A connection that there is; and locks are asked for only within a transaction that allows them. */
  predicate Occurs(s: Cache, q: Request) {
    q.p < |s.inTrans|
    && (q.Lock? ==> s.inTrans[q.p] != NoTrans && (q.isWriteLock ==> s.inTrans[q.p] == WriteTrans))
  }

  function Wanted(q: Request): LockType
    requires q.Lock?
  {
    if q.isWriteLock then Write else Read
  }

  /** The state after one request: what is granted, begun or ended; a writer that is refused a lock is pending. */
  ghost function After(s: Cache, readOnly: bool, q: Request): Cache {
    if !Occurs(s, q) then s
    else
      match q
      case Begin(p, wrflag, fileRc) =>
        if Enough(s.inTrans[p], wrflag) || BeginCode(s, readOnly, p, wrflag, fileRc) != Ok then s
        else Begun(s, p, wrflag)
      case Lock(p, iTab, isWriteLock) =>
        if Refused(s, p, iTab, Wanted(q)) then s.(pending := s.pending || isWriteLock)
        else s.(pLock := Granted(s.pLock, p, iTab, Wanted(q)))
      case End(p, reading) => Ended(s, p, reading)
  }

  /** Its answer: a request that cannot occur is passed over. */
  ghost function Reply(s: Cache, readOnly: bool, q: Request): Answer {
    if !Occurs(s, q) then Passed
    else
      match q
      case Begin(p, wrflag, fileRc) => Answer(BeginCode(s, readOnly, p, wrflag, fileRc))
      case Lock(p, iTab, _) => Answer(if Refused(s, p, iTab, Wanted(q)) then Locked else Ok)
      case End(_, _) => Answer(Ok)
  }

  ghost function AfterAll(s: Cache, readOnly: bool, qs: seq<Request>): Cache
    decreases |qs|
  {
    if qs == [] then s else AfterAll(After(s, readOnly, qs[0]), readOnly, qs[1..])
  }

  ghost function Replies(s: Cache, readOnly: bool, qs: seq<Request>): seq<Answer>
    decreases |qs|
  {
    if qs == [] then [] else [Reply(s, readOnly, qs[0])] + Replies(After(s, readOnly, qs[0]), readOnly, qs[1..])
  }

  /** A request is answered, and changes the state, as the rules say. */
  ghost predicate Rule(s: Cache, readOnly: bool, q: Request, a: Answer, s': Cache) {
    if !Occurs(s, q) then a == Passed && s' == s
    else
      && a.Answer?
      && match q
         case Begin(p, wrflag, fileRc) => BeginRule(s, readOnly, p, wrflag, fileRc, a.rc, s')
         case Lock(p, iTab, isWriteLock) => LockRule(s, p, iTab, isWriteLock, a.rc, s')
         case End(p, reading) => a.rc == Ok && EndRule(s, p, reading, s')
  }

  lemma Rules(s: Cache, readOnly: bool, q: Request)
    requires Safe(s)
    ensures Rule(s, readOnly, q, Reply(s, readOnly, q), After(s, readOnly, q))
  {
    hide Safe, Granted, Begun, Ended, BeginCode, BeginRule, LockRule, EndRule;
    if Occurs(s, q) {
      match q {
        case Begin(p, wrflag, fileRc) => BeginRules(s, readOnly, p, wrflag, fileRc);
        case Lock(p, iTab, isWriteLock) => LockRules(s, p, iTab, isWriteLock);
        case End(p, reading) => EndRules(s, p, reading);
      }
    }
  }

  /** The state of a run after k of its requests. */
  ghost function StateAt(readOnly: bool, n: nat, qs: seq<Request>, k: nat): Cache
    requires k <= |qs|
  {
    AfterAll(NewCache(n), readOnly, qs[..k])
  }

  lemma {:induction false} AfterLast(s: Cache, readOnly: bool, qs: seq<Request>, q: Request)
    ensures AfterAll(s, readOnly, qs + [q]) == After(AfterAll(s, readOnly, qs), readOnly, q)
    decreases |qs|
  {
    hide After;
    if qs == [] {
      assert ([q])[1..] == [];
    } else {
      AfterLast(After(s, readOnly, qs[0]), readOnly, qs[1..], q);
      assert (qs + [q])[1..] == qs[1..] + [q];
    }
  }

  lemma {:induction false} ReplyAt(s: Cache, readOnly: bool, qs: seq<Request>, k: nat)
    requires k < |qs|
    ensures |Replies(s, readOnly, qs)| == |qs|
    ensures Replies(s, readOnly, qs)[k] == Reply(AfterAll(s, readOnly, qs[..k]), readOnly, qs[k])
    decreases |qs|
  {
    hide After, Reply;
    var s' := After(s, readOnly, qs[0]);
    if k > 0 {
      ReplyAt(s', readOnly, qs[1..], k - 1);
      assert qs[..k][1..] == qs[1..][..k - 1];
    } else if |qs| > 1 {
      ReplyAt(s', readOnly, qs[1..], 0);
    }
  }

  ghost predicate RuledAt(readOnly: bool, n: nat, qs: seq<Request>, answers: seq<Answer>, k: nat) {
    && k < |qs| == |answers|
    && Rule(StateAt(readOnly, n, qs, k), readOnly, qs[k], answers[k], StateAt(readOnly, n, qs, k + 1))
  }

  /** In a run every request is answered as the rules say, and the states on the way are safe. */
  lemma RunRules(readOnly: bool, n: nat, qs: seq<Request>, k: nat)
    requires k < |qs|
    ensures RuledAt(readOnly, n, qs, Replies(NewCache(n), readOnly, qs), k) && Safe(StateAt(readOnly, n, qs, k))
  {
    hide Safe, After, Reply, Rule;
    AlwaysSafe(readOnly, n, qs[..k]);
    Rules(StateAt(readOnly, n, qs, k), readOnly, qs[k]);
    ReplyAt(NewCache(n), readOnly, qs, k);
    AfterLast(NewCache(n), readOnly, qs[..k], qs[k]);
    assert qs[..k + 1] == qs[..k] + [qs[k]];
  }

  // Connection p has a lock on a table, which for writing is one for writing.
  ghost predicate Keeps(s: Cache, p: nat, iTab: nat, isWriteLock: bool) {
    BtLock(p, iTab, Write) in s.pLock || (!isWriteLock && BtLock(p, iTab, Read) in s.pLock)
  }

  lemma KeptByRule(s: Cache, readOnly: bool, r: Request, a: Answer, s': Cache, p: nat, iTab: nat, isWriteLock: bool)
    requires Safe(s) && Rule(s, readOnly, r, a, s') && Keeps(s, p, iTab, isWriteLock) && !(r.End? && r.p == p)
    ensures Keeps(s', p, iTab, isWriteLock)
  {}

  lemma {:induction false} KeptUntilEnd(readOnly: bool, n: nat, qs: seq<Request>, i: nat, j: nat, p: nat, iTab: nat,
                                        isWriteLock: bool)
    requires i < j <= |qs| && qs[i] == Lock(p, iTab, isWriteLock)
    requires |Replies(NewCache(n), readOnly, qs)| == |qs| && Replies(NewCache(n), readOnly, qs)[i] == Answer(Ok)
    requires forall k :: i < k < j ==> !(qs[k].End? && qs[k].p == p)
    ensures Keeps(StateAt(readOnly, n, qs, j), p, iTab, isWriteLock)
    decreases j
  {
    hide Safe, After, Reply, StateAt;
    RunRules(readOnly, n, qs, j - 1);
    if j > i + 1 {
      KeptUntilEnd(readOnly, n, qs, i, j - 1, p, iTab, isWriteLock);
      KeptByRule(StateAt(readOnly, n, qs, j - 1), readOnly, qs[j - 1], Replies(NewCache(n), readOnly, qs)[j - 1],
                 StateAt(readOnly, n, qs, j), p, iTab, isWriteLock);
    }
  }

  /**
  In every run, from the moment a connection is granted a lock until it ends its transaction, no other is granted a lock
  on the same table if one of the two is for writing.
  */
  lemma LockExcludes(readOnly: bool, n: nat, qs: seq<Request>, i: nat, j: nat)
    requires i < j < |qs| && qs[i].Lock? && qs[j].Lock? && qs[i].iTab == qs[j].iTab && qs[i].p != qs[j].p
    requires qs[i].isWriteLock || qs[j].isWriteLock
    requires |Replies(NewCache(n), readOnly, qs)| == |qs| && Replies(NewCache(n), readOnly, qs)[i] == Answer(Ok)
    requires forall k :: i < k < j ==> !(qs[k].End? && qs[k].p == qs[i].p)
    ensures Replies(NewCache(n), readOnly, qs)[j] in {Passed, Answer(Locked)}
  {
    hide Safe, After, Reply, StateAt, AfterAll, Replies;
    KeptUntilEnd(readOnly, n, qs, i, j, qs[i].p, qs[i].iTab, qs[i].isWriteLock);
    RunRules(readOnly, n, qs, j);
    var s := StateAt(readOnly, n, qs, j);
    assert exists l :: l in s.pLock && l.owner == qs[i].p && l.iTable == qs[i].iTab
                         && (qs[j].isWriteLock || l.eLock == Write);
  }

  method Serve(b: BtShared, q: Request) returns (a: Answer)
    requires b.Valid()
    modifies b
    ensures b.Valid() && b.State() == After(old(b.State()), b.readOnly, q) && a == Reply(old(b.State()), b.readOnly, q)
  {
    hide Safe, Granted, Begun, Ended, BeginCode, LockRule, BeginRule, EndRule;
    a := Passed;
    if q.p < |b.inTrans| {
      match q {
        case Begin(p, wrflag, fileRc) =>
          var rc := b.BeginTrans(p, wrflag, fileRc);
          a := Answer(rc);
        case Lock(p, iTab, isWriteLock) =>
          if b.inTrans[p] != NoTrans && (isWriteLock ==> b.inTrans[p] == WriteTrans) {
            var rc := b.LockTable(p, iTab, isWriteLock);
            a := Answer(rc);
          }
        case End(p, reading) =>
          b.EndTransaction(p, reading);
          a := Answer(Ok);
      }
    }
  }

  /**
  Whatever connections ask for, in any order, each gets the answer, and leaves the state, that the one-step functions
  give, and the state at the end is safe. Both are as the rules say at every step.
  */
  method Run(readOnly: bool, n: nat, requests: seq<Request>) returns (b: BtShared, answers: seq<Answer>)
    ensures b.Valid() && b.State() == AfterAll(NewCache(n), readOnly, requests)
    ensures answers == Replies(NewCache(n), readOnly, requests)
    ensures forall k :: 0 <= k < |requests| ==> RuledAt(readOnly, n, requests, answers, k)
  {
    hide Safe, After, Reply, RuledAt;
    b := new BtShared(readOnly, n);
    answers := [];
    assert requests[0..] == requests;
    var i := 0;
    while i < |requests|
      invariant 0 <= i <= |requests| && b.Valid() && fresh(b) && b.readOnly == readOnly
      invariant AfterAll(b.State(), readOnly, requests[i..]) == AfterAll(NewCache(n), readOnly, requests)
      invariant answers + Replies(b.State(), readOnly, requests[i..]) == Replies(NewCache(n), readOnly, requests)
    {
      assert requests[i..][1..] == requests[i + 1..];
      var a := Serve(b, requests[i]);
      answers := answers + [a];
      i := i + 1;
    }
    assert requests[i..] == [] && answers + [] == answers;
    forall k | 0 <= k < |requests|
      ensures RuledAt(readOnly, n, requests, answers, k)
    {
      RunRules(readOnly, n, requests, k);
    }
  }

  /** Every state that a run of requests reaches is safe. */
  lemma {:induction false} AlwaysSafe(readOnly: bool, n: nat, requests: seq<Request>)
    ensures Safe(AfterAll(NewCache(n), readOnly, requests))
  {
    hide Safe, After;
    NewSafe(n);
    RunSafe(NewCache(n), readOnly, requests);
  }

  lemma NewSafe(n: nat)
    ensures Safe(NewCache(n))
  {
    CountNone(NewCache(n).inTrans);
  }

  lemma {:induction false} RunSafe(s: Cache, readOnly: bool, requests: seq<Request>)
    requires Safe(s)
    ensures Safe(AfterAll(s, readOnly, requests))
    decreases |requests|
  {
    hide Safe, After;
    if requests != [] {
      StepSafe(s, readOnly, requests[0]);
      RunSafe(After(s, readOnly, requests[0]), readOnly, requests[1..]);
    }
  }

  lemma StepSafe(s: Cache, readOnly: bool, q: Request)
    requires Safe(s)
    ensures Safe(After(s, readOnly, q))
  {
    hide Safe, Granted, Begun, Ended;
    if Occurs(s, q) {
      match q {
        case Begin(p, wrflag, fileRc) =>
          if !Enough(s.inTrans[p], wrflag) && BeginCode(s, readOnly, p, wrflag, fileRc) == Ok {
            SafeParts(s);
            BeginSafe(s, p, wrflag);
          }
        case Lock(p, iTab, isWriteLock) => LockSafe(s, p, iTab, Wanted(q));
        case End(p, reading) => EndSafe(s, p, reading);
      }
    }
  }

  lemma LockSafe(s: Cache, p: nat, iTab: nat, eLock: LockType)
    requires Safe(s) && p < |s.inTrans| && s.inTrans[p] != NoTrans && (eLock == Write ==> s.inTrans[p] == WriteTrans)
    ensures if Refused(s, p, iTab, eLock) then Safe(s.(pending := s.pending || eLock == Write))
            else Safe(s.(pLock := Granted(s.pLock, p, iTab, eLock)))
  {
    hide Safe, Granted;
    SafeParts(s);
    if !Refused(s, p, iTab, eLock) {
      GrantSafe(s, p, iTab, eLock);
    } else if eLock == Write && !s.pending {
      var i :| 0 <= i < |s.pLock| && Conflict(s.pLock[i], p, iTab, eLock);
      PendingSafe(s, p, i);
    } else {
      assert s.(pending := s.pending || eLock == Write) == s;
    }
  }
}
