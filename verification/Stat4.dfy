/**
The statistics accumulator of ANALYZE (statPush, samplePushPrevious, sampleInsert, sampleIsBetter, sampleIsBetterPost
and the closing call in statGet): samples of an index, taken in one scan, with the numbers of rows that equal or
precede them in each prefix of the columns.
*/
module Stat4 {
  import opened Arith

  type Row = seq<int>

  // ----- Prefixes of rows and their order -----

  predicate Less(a: Row, b: Row) {
    |a| > 0 && |b| > 0 && (a[0] < b[0] || (a[0] == b[0] && Less(a[1..], b[1..])))
  }

  lemma {:induction false} LessIrreflexive(a: Row)
    ensures !Less(a, a)
  {
    if a != [] {
      LessIrreflexive(a[1..]);
    }
  }

  lemma {:induction false} LessTransitive(a: Row, b: Row, c: Row)
    requires Less(a, b) && Less(b, c)
    ensures Less(a, c)
  {
    if a[0] == b[0] == c[0] {
      LessTransitive(a[1..], b[1..], c[1..]);
    }
  }

  // A shorter prefix of two rows in order is in order, or the same.
  lemma {:induction false} LessPrefix(a: Row, b: Row, k: nat)
    requires Less(a, b) && |a| == |b| && k <= |a|
    ensures a[..k] == b[..k] || Less(a[..k], b[..k])
  {
    if k > 0 && a[0] == b[0] {
      LessPrefix(a[1..], b[1..], k - 1);
      assert a[..k] == [a[0]] + a[1..][..k - 1] && b[..k] == [b[0]] + b[1..][..k - 1];
      assert a[..k][1..] == a[1..][..k - 1] && b[..k][1..] == b[1..][..k - 1];
    }
  }

  // The first column in which two rows differ.
  function FirstDiff(a: Row, b: Row): (i: nat)
    requires |a| == |b|
    ensures i <= |a| && a[..i] == b[..i] && (i < |a| ==> a[i] != b[i])
  {
    if a == [] || a[0] != b[0] then 0
    else
      var i := FirstDiff(a[1..], b[1..]);
      assert a[..i + 1] == [a[0]] + a[1..][..i] && b[..i + 1] == [b[0]] + b[1..][..i];
      i + 1
  }

  /** Rows of C columns in strictly ascending order: the entries of an index. */
  ghost predicate Sorted(rows: seq<Row>, C: nat) {
    && C > 0 && (forall q :: 0 <= q < |rows| ==> |rows[q]| == C)
    && (forall q, r :: 0 <= q < r < |rows| ==> Less(rows[q], rows[r]))
  }

  // ----- What the numbers of a sample mean -----

  /** The number of rows that begin with p. */
  function NEq(rows: seq<Row>, p: Row): nat {
    if rows == [] then 0
    else NEq(rows[..|rows| - 1], p) + if p <= rows[|rows| - 1] then 1 else 0
  }

  function Head(r: Row, k: nat): Row {
    if k <= |r| then r[..k] else r
  }

  /** The number of rows that begin with less than p. */
  function NLt(rows: seq<Row>, p: Row): nat {
    if rows == [] then 0
    else NLt(rows[..|rows| - 1], p) + if Less(Head(rows[|rows| - 1], |p|), p) then 1 else 0
  }

  /** The different ways in which rows begin that are less than p. */
  function LessPrefixes(rows: seq<Row>, p: Row): set<Row> {
    if rows == [] then {}
    else
      var x := Head(rows[|rows| - 1], |p|);
      LessPrefixes(rows[..|rows| - 1], p) + if Less(x, p) then {x} else {}
  }

  function NDLt(rows: seq<Row>, p: Row): nat {
    |LessPrefixes(rows, p)|
  }

  // The first j + 1 columns of row q.
  function P(rows: seq<Row>, q: int, j: int): Row {
    if 0 <= q < |rows| && 0 <= j < |rows[q]| then rows[q][..j + 1] else []
  }

  // ----- One more row -----

  /** Row q is not less, in any prefix, than the rows before it. */
  lemma PrefixOrder(rows: seq<Row>, C: nat, q: nat, r: nat, j: nat)
    requires Sorted(rows, C) && q <= r < |rows| && j < C
    ensures P(rows, q, j) == P(rows, r, j) || Less(P(rows, q, j), P(rows, r, j))
    ensures !Less(P(rows, r, j), P(rows, q, j))
  {
    if q < r {
      LessPrefix(rows[q], rows[r], j + 1);
    }
    LessIrreflexive(P(rows, q, j));
    if Less(P(rows, q, j), P(rows, r, j)) && Less(P(rows, r, j), P(rows, q, j)) {
      LessTransitive(P(rows, q, j), P(rows, r, j), P(rows, q, j));
    }
  }

  lemma SortedPrefix(rows: seq<Row>, C: nat, n: nat)
    requires Sorted(rows, C) && n <= |rows|
    ensures Sorted(rows[..n], C)
  {}

  /** A further row changes the counts of a sample only by being equal to it in a prefix. */
  lemma OneMore(rows: seq<Row>, C: nat, row: Row, q: nat, j: nat)
    requires Sorted(rows + [row], C) && q < |rows| && j < C
    ensures Sorted(rows, C) && P(rows + [row], q, j) == P(rows, q, j)
    ensures var p := P(rows, q, j);
      && NEq(rows + [row], p) == NEq(rows, p) + (if P(rows + [row], |rows|, j) == p then 1 else 0)
      && NLt(rows + [row], p) == NLt(rows, p) && LessPrefixes(rows + [row], p) == LessPrefixes(rows, p)
  {
    hide Less;
    var rows', n := rows + [row], |rows|;
    assert rows'[..n] == rows;
    SortedPrefix(rows', C, n);
    PrefixOrder(rows', C, q, n, j);
    assert rows'[q] == rows[q] && |rows'[q]| == C && rows'[n] == row && |rows'[n]| == C;
    var p := P(rows, q, j);
    assert Head(row, |p|) == P(rows', n, j);
    assert p <= row <==> P(rows', n, j) == p;
  }

  /** All rows so far begin with the same columns as the last one, or with less. */
  lemma {:induction false} LastPrefix(rows: seq<Row>, C: nat, n: nat, r: nat, j: nat)
    requires Sorted(rows, C) && n <= r + 1 && r < |rows| && j < C
    ensures NLt(rows[..n], P(rows, r, j)) + NEq(rows[..n], P(rows, r, j)) == n
  {
    hide Less;
    if n > 0 {
      LastPrefix(rows, C, n - 1, r, j);
      assert rows[..n][..n - 1] == rows[..n - 1];
      PrefixOrder(rows, C, n - 1, r, j);
      var p, x := P(rows, r, j), rows[n - 1];
      LessIrreflexive(p);
      assert |x| == C && |rows[r]| == C && |p| == j + 1;
      assert Head(x, |p|) == P(rows, n - 1, j);
      assert p <= x <==> P(rows, n - 1, j) == p;
    }
  }

  lemma {:induction false} NoneEqual(rows: seq<Row>, p: Row)
    requires forall q :: 0 <= q < |rows| ==> !(p <= rows[q])
    ensures NEq(rows, p) == 0
  {
    if rows != [] {
      NoneEqual(rows[..|rows| - 1], p);
    }
  }

  // Two rows agree in a prefix exactly when it ends before the first column in which they differ.
  lemma SamePrefix(a: Row, b: Row, j: nat)
    requires |a| == |b| && j < |a|
    ensures a[..j + 1] == b[..j + 1] <==> j < FirstDiff(a, b)
  {
    var i := FirstDiff(a, b);
    if j < i {
      assert a[..j + 1] == a[..i][..j + 1] && b[..j + 1] == b[..i][..j + 1];
    } else {
      assert a[..j + 1][i] == a[i] && b[..j + 1][i] == b[i];
    }
  }

  /** The counts for the row that comes after the last one, from those of the last one. */
  lemma NextRow(rows: seq<Row>, C: nat, row: Row, j: nat)
    requires rows != [] && Sorted(rows + [row], C) && j < C
    ensures var rows', t := rows + [row], |rows| - 1;
      var p, p' := P(rows', t, j), P(rows', |rows|, j);
      && (p == p' <==> j < FirstDiff(rows[t], row))
      && (p == p' ==>
            NEq(rows', p') == NEq(rows, p) + 1 && NLt(rows', p') == NLt(rows, p) && NDLt(rows', p') == NDLt(rows, p))
      && (p != p' ==>
            NEq(rows', p') == 1 && NLt(rows', p') == NLt(rows, p) + NEq(rows, p)
              && NDLt(rows', p') == NDLt(rows, p) + 1)
  {
    var rows', t := rows + [row], |rows| - 1;
    SamePrefix(rows'[t], rows'[|rows|], j);
    OneMore(rows, C, row, t, j);
    if P(rows', t, j) != P(rows', |rows|, j) {
      NewPrefix(rows, C, row, j);
    }
  }

  lemma NewPrefix(rows: seq<Row>, C: nat, row: Row, j: nat)
    requires rows != [] && Sorted(rows + [row], C) && j < C
    requires P(rows + [row], |rows| - 1, j) != P(rows + [row], |rows|, j)
    ensures var rows', t := rows + [row], |rows| - 1;
      var p, p' := P(rows', t, j), P(rows', |rows|, j);
      NEq(rows', p') == 1 && NLt(rows', p') == NLt(rows, p) + NEq(rows, p) && NDLt(rows', p') == NDLt(rows, p) + 1
  {
    AllPrefixes(rows, C, row, j);
    NewPrefixCounts(rows, C, row, j);
  }

  lemma NewPrefixCounts(rows: seq<Row>, C: nat, row: Row, j: nat)
    requires rows != [] && Sorted(rows + [row], C) && j < C
    requires P(rows + [row], |rows| - 1, j) != P(rows + [row], |rows|, j)
    ensures Sorted(rows, C) && P(rows + [row], |rows| - 1, j) == P(rows, |rows| - 1, j)
    ensures var rows', p, p' := rows + [row], P(rows, |rows| - 1, j), P(rows + [row], |rows|, j);
      NEq(rows', p') == 1 && NLt(rows', p') == NLt(rows, p) + NEq(rows, p)
  {
    hide Less, Sorted;
    var rows', t, n := rows + [row], |rows| - 1, |rows|;
    var p, p' := P(rows, t, j), P(rows', n, j);
    assert rows'[..n] == rows && rows[..n] == rows && rows'[t] == rows[t];
    NotSeen(rows, C, row, j);
    NoneEqual(rows, p');
    assert NEq(rows', p') == 1 by {
      assert p' <= row;
    }
    assert NLt(rows, p') == n by {
      LastPrefix(rows', C, n, n, j);
    }
    assert NLt(rows, p) + NEq(rows, p) == n by {
      LastPrefix(rows, C, n, t, j);
    }
    LastNotLess(rows, C, row, j);
  }

  lemma LastNotLess(rows: seq<Row>, C: nat, row: Row, j: nat)
    requires Sorted(rows + [row], C) && j < C
    ensures NLt(rows + [row], P(rows + [row], |rows|, j)) == NLt(rows, P(rows + [row], |rows|, j))
  {
    hide Less;
    var rows', n := rows + [row], |rows|;
    assert rows'[..n] == rows && rows'[n] == row && |rows'[n]| == C;
    LessIrreflexive(P(rows', n, j));
    assert Head(row, j + 1) == P(rows', n, j);
  }

  lemma NotSeen(rows: seq<Row>, C: nat, row: Row, j: nat)
    requires rows != [] && Sorted(rows + [row], C) && j < C
    requires P(rows + [row], |rows| - 1, j) != P(rows + [row], |rows|, j)
    ensures Sorted(rows, C) && forall q :: 0 <= q < |rows| ==> !(P(rows + [row], |rows|, j) <= rows[q])
  {
    hide Less;
    var rows', t, n := rows + [row], |rows| - 1, |rows|;
    var p' := P(rows', n, j);
    assert rows'[..n] == rows;
    SortedPrefix(rows', C, n);
    forall q | 0 <= q < n
      ensures !(p' <= rows[q])
    {
      assert rows'[q] == rows[q] && |p'| == j + 1;
      assert p' <= rows[q] ==> P(rows', q, j) == p';
      PrefixOrder(rows', C, q, t, j);
      PrefixOrder(rows', C, t, n, j);
    }
  }

  lemma {:induction false} LessMember(rows: seq<Row>, p: Row, x: Row)
    requires forall q :: 0 <= q < |rows| ==> |rows[q]| >= |p|
    ensures x in LessPrefixes(rows, p) <==> Less(x, p) && exists q :: 0 <= q < |rows| && rows[q][..|p|] == x
  {
    if rows != [] {
      var n := |rows| - 1;
      LessMember(rows[..n], p, x);
      if q :| 0 <= q < n && rows[q][..|p|] == x {
        assert rows[..n][q][..|p|] == x;
      }
    }
  }

  // What is less than a new prefix is what was less than the last one, and that itself.
  lemma AllPrefixes(rows: seq<Row>, C: nat, row: Row, j: nat)
    requires rows != [] && Sorted(rows + [row], C) && j < C
    requires P(rows + [row], |rows| - 1, j) != P(rows + [row], |rows|, j)
    ensures Sorted(rows, C)
    ensures var t := |rows| - 1;
      NDLt(rows + [row], P(rows + [row], |rows|, j)) == NDLt(rows, P(rows, t, j)) + 1
  {
    var rows', t, n := rows + [row], |rows| - 1, |rows|;
    var p, p' := P(rows, t, j), P(rows', n, j);
    assert rows'[..n] == rows && rows'[t] == rows[t];
    SortedPrefix(rows', C, n);
    LessIrreflexive(p');
    LessIrreflexive(p);
    var old', new' := LessPrefixes(rows, p), LessPrefixes(rows, p');
    assert LessPrefixes(rows', p') == new';
    forall x
      ensures x in new' <==> x in old' || x == p
    {
      LessPrefixGrows(rows, C, row, j, x);
    }
    LessMember(rows, p, p);
    OneAdded(old', new', p);
  }

  lemma OneAdded(old': set<Row>, new': set<Row>, p: Row)
    requires p !in old' && forall x :: x in new' <==> x in old' || x == p
    ensures |new'| == |old'| + 1
  {
    assert new' == old' + {p};
  }

  lemma LessPrefixGrows(rows: seq<Row>, C: nat, row: Row, j: nat, x: Row)
    requires rows != [] && Sorted(rows + [row], C) && Sorted(rows, C) && j < C
    requires P(rows + [row], |rows| - 1, j) != P(rows + [row], |rows|, j)
    ensures var p, p' := P(rows, |rows| - 1, j), P(rows + [row], |rows|, j);
      x in LessPrefixes(rows, p') <==> x in LessPrefixes(rows, p) || x == p
  {
    var rows', t, n := rows + [row], |rows| - 1, |rows|;
    var p, p' := P(rows, t, j), P(rows', n, j);
    assert rows'[t] == rows[t];
    PrefixOrder(rows', C, t, n, j);
    LessMember(rows, p, x);
    LessMember(rows, p', x);
    if q :| 0 <= q < |rows| && rows[q][..j + 1] == x {
      PrefixOrder(rows, C, q, t, j);
      assert P(rows, q, j) == x;
      if Less(x, p) {
        LessTransitive(x, p, p');
      }
    }
    assert x == p ==> rows[t][..j + 1] == x;
  }

  // ----- Samples -----

  /** anEq, anLt and anDLt have an element for each prefix of the columns; iCol is why a sample was taken. */
  datatype Sample = Sample(anEq: seq<nat>, anLt: seq<nat>, anDLt: seq<nat>, iRowid: int, isPSample: bool, iCol: nat,
                           iHash: nat)

  /** The number of the row that s is a sample of: all rows before it are less. */
  function RowOf(C: nat, s: Sample): nat {
    if 0 < C <= |s.anLt| then s.anLt[C - 1] else 0
  }

  /** Sample s is of a row of the index, and its anLt and anDLt are the true counts. */
  ghost predicate Taken(rows: seq<Row>, rowids: seq<int>, C: nat, s: Sample) {
    && Sorted(rows, C) && |rowids| == |rows| && |s.anEq| == |s.anLt| == |s.anDLt| == C && RowOf(C, s) < |rows|
    && s.iRowid == rowids[RowOf(C, s)]
    && forall j :: 0 <= j < C ==> TakenAt(rows, C, s, j)
  }

  ghost predicate TakenAt(rows: seq<Row>, C: nat, s: Sample, j: nat)
    requires Sorted(rows, C) && j < C && |s.anLt| == |s.anDLt| == C && RowOf(C, s) < |rows|
  {
    s.anLt[j] == NLt(rows, P(rows, RowOf(C, s), j)) && s.anDLt[j] == NDLt(rows, P(rows, RowOf(C, s), j))
  }

  /** Its anEq is the true count for column j. */
  ghost predicate Counted(rows: seq<Row>, C: nat, s: Sample, j: nat) {
    && Sorted(rows, C) && j < C && |s.anEq| == |s.anLt| == C && RowOf(C, s) < |rows|
    && s.anEq[j] == NEq(rows, P(rows, RowOf(C, s), j))
  }

  /** A sample all of whose numbers are the true counts over the rows of the index. */
  ghost predicate Exact(rows: seq<Row>, rowids: seq<int>, C: nat, s: Sample) {
    Taken(rows, rowids, C, s) && forall j :: 0 <= j < C ==> Counted(rows, C, s, j)
  }

  // The last row begins with the same j + 1 columns as row q: that run of rows has not ended yet.
  ghost predicate Current(rows: seq<Row>, C: nat, q: nat, j: nat) {
    Sorted(rows, C) && q < |rows| && j < C && P(rows, q, j) == P(rows, |rows| - 1, j)
  }

  // What anEq[j] of a sample says: 0 while the run of its row goes on, and then the count; columns after i may have
  // been counted already.
  ghost predicate PendingAt(rows: seq<Row>, C: nat, s: Sample, i: int, j: nat)
    requires j < C && |s.anEq| == |s.anLt| == C
  {
    if j <= i then (if Current(rows, C, RowOf(C, s), j) then s.anEq[j] == 0 else Counted(rows, C, s, j))
    else (s.anEq[j] == 0 && Current(rows, C, RowOf(C, s), j)) || Counted(rows, C, s, j)
  }

  /** A retained sample, when the runs of the last row in the columns after i are being closed. */
  ghost predicate Pending(rows: seq<Row>, rowids: seq<int>, C: nat, nPS: nat, s: Sample, i: int) {
    && Taken(rows, rowids, C, s)
    && (forall j :: 0 <= j < C ==> PendingAt(rows, C, s, i, j))
    && (!s.isPSample ==>
          s.iCol + 1 < C && Counted(rows, C, s, s.iCol) && (s.iCol > i || !Current(rows, C, RowOf(C, s), s.iCol)))
    && (s.isPSample ==> nPS > 0 && (RowOf(C, s) + 1) % nPS == 0)
  }

  /** A candidate for column i: the last row that is known to be the best of the current run in that column. */
  ghost predicate Best(rows: seq<Row>, rowids: seq<int>, C: nat, s: Sample, i: nat) {
    && Taken(rows, rowids, C, s) && i + 1 < C && s.iCol == i && !s.isPSample
    && Current(rows, C, RowOf(C, s), i) && (forall j :: i < j < C ==> Counted(rows, C, s, j))
    && (Current(rows, C, RowOf(C, s), i + 1) ==> RowOf(C, s) == |rows| - 1)
  }

  // ----- Facts about runs of rows -----

  lemma {:induction false} NEqPositive(rows: seq<Row>, C: nat, q: nat, j: nat)
    requires Sorted(rows, C) && q < |rows| && j < C
    ensures NEq(rows, P(rows, q, j)) > 0
  {
    var n := |rows| - 1;
    if q < n {
      assert rows[..n][q] == rows[q];
      NEqPositive(rows[..n], C, q, j);
    }
  }

  // A longer prefix has no more rows.
  lemma {:induction false} NEqMonotone(rows: seq<Row>, p: Row, p': Row)
    requires forall q :: 0 <= q < |rows| ==> |rows[q]| >= |p'|
    requires |p| <= |p'| && p == p'[..|p|]
    ensures NEq(rows, p') <= NEq(rows, p)
  {
    if rows != [] {
      NEqMonotone(rows[..|rows| - 1], p, p');
      var r := rows[|rows| - 1];
      assert r[..|p'|][..|p|] == r[..|p|];
    }
  }

  lemma CurrentPrefix(rows: seq<Row>, C: nat, q: nat, j: nat, j': nat)
    requires Current(rows, C, q, j) && j' <= j
    ensures Current(rows, C, q, j')
  {
    assert P(rows, q, j') == P(rows, q, j)[..j' + 1] && P(rows, |rows| - 1, j') == P(rows, |rows| - 1, j)[..j' + 1];
  }

  // Rows between two of the same run belong to it.
  lemma Between(rows: seq<Row>, C: nat, q: nat, r: nat, j: nat)
    requires Current(rows, C, q, j) && q <= r < |rows|
    ensures Current(rows, C, r, j)
  {
    PrefixOrder(rows, C, q, r, j);
    PrefixOrder(rows, C, r, |rows| - 1, j);
  }

  // ----- Which sample is better -----

  function BetterPost(nCol: nat, pNew: Sample, pOld: Sample, i: nat): bool
    requires |pNew.anEq| == |pOld.anEq| == nCol
    decreases nCol - i
  {
    if i >= nCol then pNew.iHash > pOld.iHash
    else if pNew.anEq[i] > pOld.anEq[i] then true
    else if pNew.anEq[i] < pOld.anEq[i] then false
    else BetterPost(nCol, pNew, pOld, i + 1)
  }

  predicate Better(nCol: nat, pNew: Sample, pOld: Sample)
    requires |pNew.anEq| == |pOld.anEq| == nCol && pNew.iCol < nCol && pOld.iCol < nCol
  {
    var nEqNew, nEqOld := pNew.anEq[pNew.iCol], pOld.anEq[pOld.iCol];
    nEqNew > nEqOld
    || (nEqNew == nEqOld
        && (pNew.iCol < pOld.iCol || (pNew.iCol == pOld.iCol && BetterPost(nCol, pNew, pOld, pNew.iCol + 1))))
  }

  /**
  Of two samples one is better, unless they agree in all that is compared: first the number of equal rows in the column
  that each was taken for, then the column, then the numbers for the columns after it, and the hash at last.
  */
  lemma BetterOrder(nCol: nat, s: Sample, t: Sample)
    requires |s.anEq| == |t.anEq| == nCol && s.iCol < nCol && t.iCol < nCol
    ensures !(Better(nCol, s, t) && Better(nCol, t, s))
    ensures !Better(nCol, s, t) && !Better(nCol, t, s) <==>
      s.iCol == t.iCol && s.anEq[s.iCol..] == t.anEq[s.iCol..] && s.iHash == t.iHash
    ensures s.anEq[s.iCol] > t.anEq[t.iCol] ==> Better(nCol, s, t)
    ensures s.anEq[s.iCol] == t.anEq[t.iCol] && s.iCol < t.iCol ==> Better(nCol, s, t)
    ensures s.iCol == t.iCol && s.anEq[s.iCol..] == t.anEq[s.iCol..] && s.iHash > t.iHash ==> Better(nCol, s, t)
  {
    if s.iCol == t.iCol {
      PostOrder(nCol, s, t, s.iCol + 1);
      assert s.anEq[s.iCol..] == [s.anEq[s.iCol]] + s.anEq[s.iCol + 1..];
      assert t.anEq[s.iCol..] == [t.anEq[s.iCol]] + t.anEq[s.iCol + 1..];
    }
  }

  lemma {:induction false} PostOrder(nCol: nat, s: Sample, t: Sample, i: nat)
    requires |s.anEq| == |t.anEq| == nCol && i <= nCol
    ensures !(BetterPost(nCol, s, t, i) && BetterPost(nCol, t, s, i))
    ensures !BetterPost(nCol, s, t, i) && !BetterPost(nCol, t, s, i) <==>
      s.anEq[i..] == t.anEq[i..] && s.iHash == t.iHash
    ensures s.anEq[i..] == t.anEq[i..] && s.iHash > t.iHash ==> BetterPost(nCol, s, t, i)
    decreases nCol - i
  {
    if i < nCol {
      PostOrder(nCol, s, t, i + 1);
      assert s.anEq[i..] == [s.anEq[i]] + s.anEq[i + 1..] && t.anEq[i..] == [t.anEq[i]] + t.anEq[i + 1..];
    }
  }

  /** The better of two samples in the first of the columns compared in which they differ. */
  lemma {:induction false} PostDecides(nCol: nat, s: Sample, t: Sample, i: nat, j: nat)
    requires |s.anEq| == |t.anEq| == nCol && i <= j < nCol && s.anEq[i..j] == t.anEq[i..j] && s.anEq[j] > t.anEq[j]
    ensures BetterPost(nCol, s, t, i)
    decreases nCol - i
  {
    if i < j {
      assert s.anEq[i..j][0] == t.anEq[i..j][0] && s.anEq[i..j][1..] == t.anEq[i..j][1..];
      assert s.anEq[i + 1..j] == s.anEq[i..j][1..] && t.anEq[i + 1..j] == t.anEq[i..j][1..];
      PostDecides(nCol, s, t, i + 1, j);
    }
  }

  // The new sample, if the run in column i has just begun or it is better than the best one so far.
  function BestNow(nCol: nat, i: nat, iChng: nat, s: Sample, best: Sample): Sample
    requires i >= iChng || |s.anEq| == |best.anEq| == nCol
  {
    if i >= iChng || BetterPost(nCol, s, best, i + 1) then s else best
  }

  method SampleIsBetterPost(nCol: nat, pNew: Sample, pOld: Sample) returns (r: bool)
    requires |pNew.anEq| == |pOld.anEq| == nCol && pNew.iCol < nCol
    ensures r == BetterPost(nCol, pNew, pOld, pNew.iCol + 1)
  {
    var i := pNew.iCol + 1;
    while i < nCol
      invariant pNew.iCol < i <= nCol
      invariant BetterPost(nCol, pNew, pOld, i) == BetterPost(nCol, pNew, pOld, pNew.iCol + 1)
    {
      if pNew.anEq[i] > pOld.anEq[i] { return true; }
      if pNew.anEq[i] < pOld.anEq[i] { return false; }
      i := i + 1;
    }
    return pNew.iHash > pOld.iHash;
  }

  method SampleIsBetter(nCol: nat, pNew: Sample, pOld: Sample) returns (r: bool)
    requires |pNew.anEq| == |pOld.anEq| == nCol && pNew.iCol < nCol && pOld.iCol < nCol
    requires !pNew.isPSample && !pOld.isPSample
    ensures r == Better(nCol, pNew, pOld)
  {
    var nEqNew, nEqOld := pNew.anEq[pNew.iCol], pOld.anEq[pOld.iCol];
    if nEqNew > nEqOld { return true; }
    if nEqNew == nEqOld {
      if pNew.iCol < pOld.iCol { return true; }
      if pNew.iCol == pOld.iCol {
        r := SampleIsBetterPost(nCol, pNew, pOld);
        return;
      }
    }
    return false;
  }

  /**
  A retained sample that shares the run of the new one in its column was taken for a later column, and the new one is
  better.
  */
  lemma SharesRun(rows: seq<Row>, rowids: seq<int>, C: nat, nPS: nat, pNew: Sample, pOld: Sample, i: nat)
    requires Pending(rows, rowids, C, nPS, pOld, i) && i + 1 < C && pOld.anEq[i] == 0 && !pOld.isPSample
    requires Taken(rows, rowids, C, pNew) && pNew.iCol == i && Current(rows, C, RowOf(C, pNew), i)
      && Counted(rows, C, pNew, i)
    ensures Current(rows, C, RowOf(C, pOld), i)
    ensures pOld.iCol > i && pOld.iCol < C && Better(C, pNew, pOld)
  {
    var q := RowOf(C, pOld);
    assert PendingAt(rows, C, pOld, i, i);
    NEqPositive(rows, C, q, i);
    if pOld.iCol <= i {
      CurrentPrefix(rows, C, q, i, pOld.iCol);
    }
    var c := pOld.iCol;
    assert P(rows, q, i) == P(rows, q, c)[..i + 1];
    NEqMonotone(rows, P(rows, q, i), P(rows, q, c));
  }

  // Without such a sample, all retained samples are of earlier rows.
  lemma ComesLater(rows: seq<Row>, rowids: seq<int>, C: nat, nPS: nat, pNew: Sample, pOld: Sample, i: nat)
    requires Pending(rows, rowids, C, nPS, pOld, i) && i + 1 < C && pOld.anEq[i] != 0
    requires Taken(rows, rowids, C, pNew) && Current(rows, C, RowOf(C, pNew), i)
    ensures RowOf(C, pOld) < RowOf(C, pNew)
  {
    assert PendingAt(rows, C, pOld, i, i);
    if RowOf(C, pOld) >= RowOf(C, pNew) {
      Between(rows, C, RowOf(C, pNew), RowOf(C, pOld), i);
    }
  }

  lemma PendingWeaker(rows: seq<Row>, rowids: seq<int>, C: nat, nPS: nat, s: Sample, i: int)
    requires Pending(rows, rowids, C, nPS, s, i)
    ensures Pending(rows, rowids, C, nPS, s, i - 1)
  {
    var i' := i - 1;
    forall j | 0 <= j < C
      ensures PendingAt(rows, C, s, i', j)
    {
      assert PendingAt(rows, C, s, i, j);
    }
  }

  /** A sample whose priority is raised to column i. */
  lemma Upgraded(rows: seq<Row>, rowids: seq<int>, C: nat, nPS: nat, pNew: Sample, s: Sample, i: nat)
    requires Pending(rows, rowids, C, nPS, s, i) && i + 1 < C && Current(rows, C, RowOf(C, s), i) && !s.isPSample
    requires Taken(rows, rowids, C, pNew) && Current(rows, C, RowOf(C, pNew), i) && Counted(rows, C, pNew, i)
    ensures Pending(rows, rowids, C, nPS, s.(iCol := i, anEq := s.anEq[i := pNew.anEq[i]]), i - 1)
  {
    var s', i' := s.(iCol := i, anEq := s.anEq[i := pNew.anEq[i]]), i - 1;
    assert RowOf(C, s') == RowOf(C, s);
    assert Counted(rows, C, s', i);
    forall j | 0 <= j < C
      ensures TakenAt(rows, C, s', j)
    {
      assert TakenAt(rows, C, s, j);
    }
    forall j | 0 <= j < C
      ensures PendingAt(rows, C, s', i', j)
    {
      assert PendingAt(rows, C, s, i, j);
      assert j != i ==> Counted(rows, C, s', j) == Counted(rows, C, s, j);
    }
  }

  // The first n elements of anEq set to 0.
  function ZeroFirst(s: seq<nat>, n: nat): seq<nat>
    requires n <= |s|
  {
    seq(n, _ => 0) + s[n..]
  }

  /** The best sample of a column as it is retained. */
  lemma BestInserted(rows: seq<Row>, rowids: seq<int>, C: nat, nPS: nat, pNew: Sample, i: nat)
    requires Taken(rows, rowids, C, pNew) && i + 1 < C && pNew.iCol == i && !pNew.isPSample
      && Current(rows, C, RowOf(C, pNew), i)
    requires forall j :: i <= j < C ==> Counted(rows, C, pNew, j)
    ensures Pending(rows, rowids, C, nPS, pNew.(anEq := ZeroFirst(pNew.anEq, i)), i - 1)
  {
    var s', i' := pNew.(anEq := ZeroFirst(pNew.anEq, i)), i - 1;
    assert RowOf(C, s') == RowOf(C, pNew);
    forall j | 0 <= j < C
      ensures TakenAt(rows, C, s', j)
    {
      assert TakenAt(rows, C, pNew, j);
    }
    forall j | 0 <= j < C
      ensures PendingAt(rows, C, s', i', j) && (j >= i ==> Counted(rows, C, s', j))
    {
      if j < i {
        CurrentPrefix(rows, C, RowOf(C, pNew), i, j);
      } else {
        assert Counted(rows, C, pNew, j);
      }
    }
    assert Counted(rows, C, s', s'.iCol);
  }

  /** The last row as a periodic sample. */
  lemma PeriodicInserted(rows: seq<Row>, rowids: seq<int>, C: nat, nPS: nat, pNew: Sample)
    requires Taken(rows, rowids, C, pNew) && pNew.isPSample && RowOf(C, pNew) == |rows| - 1
      && Counted(rows, C, pNew, C - 1)
    requires nPS > 0 && |rows| % nPS == 0
    ensures Pending(rows, rowids, C, nPS, pNew.(anEq := ZeroFirst(pNew.anEq, C - 1)), C - 2)
  {
    var s', i' := pNew.(anEq := ZeroFirst(pNew.anEq, C - 1)), C - 2;
    assert RowOf(C, s') == RowOf(C, pNew);
    forall j | 0 <= j < C
      ensures TakenAt(rows, C, s', j)
    {
      assert TakenAt(rows, C, pNew, j);
    }
    forall j | 0 <= j < C
      ensures PendingAt(rows, C, s', i', j)
    {
      assert j == C - 1 ==> Counted(rows, C, s', j);
    }
  }

  // ----- The order in which samples are better is a strict one -----

  lemma {:induction false} BetterPostTransitive(C: nat, x: Sample, y: Sample, z: Sample, i: nat)
    requires |x.anEq| == |y.anEq| == |z.anEq| == C && BetterPost(C, x, y, i) && BetterPost(C, y, z, i)
    ensures BetterPost(C, x, z, i)
    decreases C - i
  {
    if i < C && x.anEq[i] == y.anEq[i] == z.anEq[i] {
      BetterPostTransitive(C, x, y, z, i + 1);
    }
  }

  lemma BetterTransitive(C: nat, x: Sample, y: Sample, z: Sample)
    requires |x.anEq| == |y.anEq| == |z.anEq| == C && x.iCol < C && y.iCol < C && z.iCol < C
    requires Better(C, x, y) && Better(C, y, z)
    ensures Better(C, x, z)
  {
    if x.anEq[x.iCol] == z.anEq[z.iCol] && x.iCol == z.iCol {
      BetterPostTransitive(C, x, y, z, x.iCol + 1);
    }
  }

  lemma {:induction false} BetterPostIrreflexive(C: nat, x: Sample, i: nat)
    requires |x.anEq| == C
    ensures !BetterPost(C, x, x, i)
    decreases C - i
  {
    if i < C {
      BetterPostIrreflexive(C, x, i + 1);
    }
  }

  // ----- All retained samples -----

  ghost predicate AllPending(rows: seq<Row>, rowids: seq<int>, C: nat, nPS: nat, a: seq<Sample>, i: int) {
    forall k :: 0 <= k < |a| ==> Pending(rows, rowids, C, nPS, a[k], i)
  }

  /** Samples in the order of their rows, each of another row. */
  ghost predicate Ascending(C: nat, a: seq<Sample>) {
    forall k, l :: 0 <= k < l < |a| ==> RowOf(C, a[k]) < RowOf(C, a[l])
  }

  /** How often the prefix occurs for which the sample was taken. */
  function Weight(s: Sample): nat {
    if s.iCol < |s.anEq| then s.anEq[s.iCol] else 0
  }

  ghost predicate AtLeast(a: seq<Sample>, w: nat) {
    forall k :: 0 <= k < |a| && !a[k].isPSample ==> Weight(a[k]) >= w
  }

  /** When there is no more space, iMin is a sample that is not periodic, of the least weight. */
  ghost predicate MinOk(mx: nat, a: seq<Sample>, iMin: int) {
    |a| >= mx ==> 0 <= iMin < |a| && !a[iMin].isPSample && AtLeast(a, Weight(a[iMin]))
  }

  /** Sample s begins with p, and is periodic or was taken for a prefix that is as frequent. */
  ghost predicate Stands(rows: seq<Row>, C: nat, s: Sample, p: Row) {
    && Sorted(rows, C) && |p| <= C && RowOf(C, s) < |rows| && p <= rows[RowOf(C, s)]
    && (s.isPSample || Weight(s) >= NEq(rows, p))
  }

  /**
  There is a sample that begins with p; or else there is no more space, and every sample that is not periodic was taken
  for a prefix that is at least as frequent.
  */
  ghost predicate Covered(rows: seq<Row>, C: nat, mx: nat, a: seq<Sample>, p: Row) {
    && Sorted(rows, C) && |p| <= C
    && ((exists k :: 0 <= k < |a| && Stands(rows, C, a[k], p)) || (|a| >= mx && AtLeast(a, NEq(rows, p))))
  }

  // Every run of rows that has ended is covered; runs in the columns after i count as ended.
  ghost predicate Selected(rows: seq<Row>, C: nat, mx: nat, a: seq<Sample>, i: int) {
    && Sorted(rows, C)
    && forall q, j :: 0 <= q < |rows| && 0 <= j && j + 1 < C && (j > i || !Current(rows, C, q, j)) ==>
      Covered(rows, C, mx, a, P(rows, q, j))
  }

  ghost predicate Store(rows: seq<Row>, rowids: seq<int>, C: nat, nPS: nat, mx: nat, a: seq<Sample>, iMin: int,
                        i: int) {
    && AllPending(rows, rowids, C, nPS, a, i) && Ascending(C, a) && |a| <= mx && MinOk(mx, a, iMin)
    && Selected(rows, C, mx, a, i)
  }

  function CountP(a: seq<Sample>): nat {
    if a == [] then 0 else CountP(a[..|a| - 1]) + if a[|a| - 1].isPSample then 1 else 0
  }

  /** There is a periodic sample of row q. */
  ghost predicate HasP(C: nat, a: seq<Sample>, q: nat) {
    exists k :: 0 <= k < |a| && a[k].isPSample && RowOf(C, a[k]) == q
  }

  function Without(a: seq<Sample>, k: nat): seq<Sample>
    requires k < |a|
  {
    a[..k] + a[k + 1..]
  }

  lemma {:induction false} CountPConcat(a: seq<Sample>, b: seq<Sample>)
    ensures CountP(a + b) == CountP(a) + CountP(b)
  {
    if b == [] {
      assert a + b == a;
    } else {
      var n := |b| - 1;
      CountPConcat(a, b[..n]);
      assert (a + b)[..|a + b| - 1] == a + b[..n];
    }
  }

  lemma CountPWithout(a: seq<Sample>, k: nat)
    requires k < |a|
    ensures CountP(Without(a, k)) == CountP(a) - if a[k].isPSample then 1 else 0
  {
    hide CountP;
    CountPConcat(a[..k], a[k + 1..]);
    CountPConcat(a[..k], a[k..]);
    CountPConcat([a[k]], a[k + 1..]);
    CountPAppend([], a[k]);
    assert a[..k] + a[k..] == a && [a[k]] + a[k + 1..] == a[k..];
    assert [] + [a[k]] == [a[k]];
  }

  // Only isPSample counts.
  lemma {:induction false} CountPSame(a: seq<Sample>, b: seq<Sample>)
    requires |a| == |b| && forall k :: 0 <= k < |a| ==> a[k].isPSample == b[k].isPSample
    ensures CountP(a) == CountP(b)
  {
    if a != [] {
      CountPSame(a[..|a| - 1], b[..|b| - 1]);
    }
  }

  lemma CountPAppend(a: seq<Sample>, s: Sample)
    ensures CountP(a + [s]) == CountP(a) + (if s.isPSample then 1 else 0) && CountP([]) == 0
  {
    assert (a + [s])[..|a|] == a;
  }

  // ----- What sampleInsert leaves -----

  /** Sample s shares the run of the last row in column i. */
  predicate Shares(s: Sample, i: nat) {
    i < |s.anEq| && s.anEq[i] == 0
  }

  ghost predicate SomeShares(a: seq<Sample>, i: nat) {
    exists k :: 0 <= k < |a| && Shares(a[k], i)
  }

  ghost predicate PeriodicShares(a: seq<Sample>, i: nat) {
    exists k :: 0 <= k < |a| && Shares(a[k], i) && a[k].isPSample
  }

  /** The best sample, of those that share the run of the last row in column i. */
  ghost predicate BestSharing(C: nat, a: seq<Sample>, i: nat, u: int) {
    && 0 <= u < |a| && Shares(a[u], i) && !a[u].isPSample && |a[u].anEq| == C && a[u].iCol < C
    && forall k :: 0 <= k < |a| && Shares(a[k], i) && |a[k].anEq| == C && a[k].iCol < C ==> !Better(C, a[k], a[u])
  }

  function Raised(s: Sample, pNew: Sample): Sample
    requires pNew.iCol < |pNew.anEq| == |s.anEq|
  {
    s.(iCol := pNew.iCol, anEq := s.anEq[pNew.iCol := pNew.anEq[pNew.iCol]])
  }

  function Zeroed(s: Sample, n: nat): Sample
    requires n <= |s.anEq|
  {
    s.(anEq := ZeroFirst(s.anEq, n))
  }

  /** The samples that make room for another one. */
  function Room(mx: nat, a: seq<Sample>, iMin: int): seq<Sample> {
    if |a| >= mx && 0 <= iMin < |a| then Without(a, iMin) else a
  }

  ghost predicate Inserted(C: nat, mx: nat, a: seq<Sample>, iMin: int, pNew: Sample, nEqZero: nat, a': seq<Sample>)
    requires pNew.iCol < C && |pNew.anEq| == C && nEqZero <= C
  {
    if !pNew.isPSample && PeriodicShares(a, pNew.iCol) then a' == a
    else if !pNew.isPSample && SomeShares(a, pNew.iCol) then
      exists u :: BestSharing(C, a, pNew.iCol, u) && a' == a[u := Raised(a[u], pNew)]
    else a' == Room(mx, a, iMin) + [Zeroed(pNew, nEqZero)]
  }

  // ----- What sampleInsert keeps -----

  /** The best sample of the current run in column i, when that run has ended. */
  ghost predicate Candidate(rows: seq<Row>, rowids: seq<int>, C: nat, s: Sample, i: nat) {
    && Taken(rows, rowids, C, s) && i + 1 < C && s.iCol == i && !s.isPSample && Current(rows, C, RowOf(C, s), i)
    && (forall j :: i <= j < C ==> Counted(rows, C, s, j))
  }

  lemma CandidateRun(rows: seq<Row>, rowids: seq<int>, C: nat, s: Sample, i: nat)
    requires Candidate(rows, rowids, C, s, i)
    ensures i + 1 < C && rows != [] && |s.anEq| == C && s.iCol == i && RowOf(C, s) < |rows|
    ensures P(rows, RowOf(C, s), i) == P(rows, |rows| - 1, i) && Weight(s) == NEq(rows, P(rows, |rows| - 1, i))
  {
    hide Sorted, NEq, TakenAt;
    assert Counted(rows, C, s, i);
  }

  ghost predicate CoversAll(rows: seq<Row>, C: nat, mx: nat, a: seq<Sample>, a': seq<Sample>) {
    forall p :: Covered(rows, C, mx, a, p) ==> Covered(rows, C, mx, a', p)
  }

  lemma SelectedStep(rows: seq<Row>, C: nat, mx: nat, a: seq<Sample>, a': seq<Sample>, i: nat)
    requires Selected(rows, C, mx, a, i) && i < C && CoversAll(rows, C, mx, a, a')
    requires rows != [] ==> Covered(rows, C, mx, a', P(rows, |rows| - 1, i))
    ensures Selected(rows, C, mx, a', i - 1)
  {
    hide Covered;
    forall q, j | 0 <= q < |rows| && 0 <= j && j + 1 < C && (j > i - 1 || !Current(rows, C, q, j))
      ensures Covered(rows, C, mx, a', P(rows, q, j))
    {
      if j > i || !Current(rows, C, q, j) {
        assert Covered(rows, C, mx, a, P(rows, q, j));
      }
    }
  }

  lemma CoverRaised(rows: seq<Row>, C: nat, mx: nat, a: seq<Sample>, u: nat, s: Sample)
    requires u < |a| && Weight(s) >= Weight(a[u]) && s.isPSample == a[u].isPSample && RowOf(C, s) == RowOf(C, a[u])
    ensures CoversAll(rows, C, mx, a, a[u := s])
  {
    hide Sorted, NEq, Weight, RowOf;
    var a' := a[u := s];
    forall p | Covered(rows, C, mx, a, p)
      ensures Covered(rows, C, mx, a', p)
    {
      if k :| 0 <= k < |a| && Stands(rows, C, a[k], p) {
        assert Stands(rows, C, a'[k], p);
      }
    }
  }

  lemma CoverAppended(rows: seq<Row>, C: nat, mx: nat, a: seq<Sample>, iMin: int, s: Sample)
    requires |a| <= mx && mx > 0 && MinOk(mx, a, iMin)
    requires |a| >= mx && !s.isPSample ==> Weight(s) >= Weight(a[iMin])
    ensures CoversAll(rows, C, mx, a, Room(mx, a, iMin) + [s])
  {
    hide Covered, AtLeast, Weight;
    forall p | Covered(rows, C, mx, a, p)
      ensures Covered(rows, C, mx, Room(mx, a, iMin) + [s], p)
    {
      if |a| < mx {
        CoverGrown(rows, C, mx, a, s, p);
      } else {
        CoverReplaced(rows, C, mx, a, iMin, s, p);
      }
    }
  }

  lemma CoverGrown(rows: seq<Row>, C: nat, mx: nat, a: seq<Sample>, s: Sample, p: Row)
    requires |a| < mx && Covered(rows, C, mx, a, p)
    ensures Covered(rows, C, mx, a + [s], p)
  {
    hide Sorted, NEq, Weight, RowOf;
    var k :| 0 <= k < |a| && Stands(rows, C, a[k], p);
    assert Stands(rows, C, (a + [s])[k], p);
  }

  lemma CoverReplaced(rows: seq<Row>, C: nat, mx: nat, a: seq<Sample>, iMin: int, s: Sample, p: Row)
    requires |a| == mx > 0 && MinOk(mx, a, iMin) && Covered(rows, C, mx, a, p)
    requires !s.isPSample ==> Weight(s) >= Weight(a[iMin])
    ensures Covered(rows, C, mx, Without(a, iMin) + [s], p)
  {
    hide Sorted, NEq, Weight, RowOf;
    var a' := Without(a, iMin) + [s];
    if k :| 0 <= k < |a| && k != iMin && Stands(rows, C, a[k], p) {
      var k' := if k < iMin then k else k - 1;
      assert Stands(rows, C, a'[k'], p);
    } else {
      var w := NEq(rows, p);
      assert AtLeast(a, w);
      forall k | 0 <= k < |a'| && !a'[k].isPSample
        ensures Weight(a'[k]) >= w
      {
        assert k == |a'| - 1 || a'[k] == a[if k < iMin then k else k + 1];
      }
    }
  }

  lemma AppendedOrder(C: nat, mx: nat, a: seq<Sample>, iMin: int, s: Sample)
    requires Ascending(C, a) && mx > 0 && |a| <= mx && MinOk(mx, a, iMin)
    requires forall k :: 0 <= k < |a| ==> RowOf(C, a[k]) < RowOf(C, s)
    ensures Ascending(C, Room(mx, a, iMin) + [s]) && |Room(mx, a, iMin) + [s]| <= mx
    ensures CountP(Room(mx, a, iMin) + [s]) == CountP(a) + if s.isPSample then 1 else 0
    ensures forall q :: HasP(C, a, q) ==> HasP(C, Room(mx, a, iMin) + [s], q)
    ensures s.isPSample ==> HasP(C, Room(mx, a, iMin) + [s], RowOf(C, s))
  {
    hide RowOf, Weight, CountP;
    var r := Room(mx, a, iMin);
    var a' := r + [s];
    if |a| >= mx {
      CountPWithout(a, iMin);
    }
    CountPAppend(r, s);
    assert a'[|a'| - 1] == s;
    forall q | HasP(C, a, q)
      ensures HasP(C, a', q)
    {
      var k :| 0 <= k < |a| && a[k].isPSample && RowOf(C, a[k]) == q;
      var k' := if |a| < mx || k < iMin then k else k - 1;
      assert a'[k'] == a[k];
    }
  }

  lemma AppendedPending(rows: seq<Row>, rowids: seq<int>, C: nat, nPS: nat, mx: nat, a: seq<Sample>, iMin: int,
                        s: Sample, i: int)
    requires AllPending(rows, rowids, C, nPS, a, i) && Pending(rows, rowids, C, nPS, s, i)
    ensures AllPending(rows, rowids, C, nPS, Room(mx, a, iMin) + [s], i)
  {
    hide Pending;
    var r := Room(mx, a, iMin);
    forall k | 0 <= k < |r + [s]|
      ensures Pending(rows, rowids, C, nPS, (r + [s])[k], i)
    {
      assert k < |r| ==> r[k] == a[k] || (|a| >= mx && k >= iMin >= 0 && r[k] == a[k + 1]);
    }
  }

  lemma AllWeaker(rows: seq<Row>, rowids: seq<int>, C: nat, nPS: nat, a: seq<Sample>, i: int)
    requires AllPending(rows, rowids, C, nPS, a, i)
    ensures AllPending(rows, rowids, C, nPS, a, i - 1)
  {
    hide Pending;
    var i' := i - 1;
    forall k | 0 <= k < |a|
      ensures Pending(rows, rowids, C, nPS, a[k], i')
    {
      PendingWeaker(rows, rowids, C, nPS, a[k], i);
    }
  }

  // A sample of the last run in column i stands for it.
  lemma StandsForLast(rows: seq<Row>, C: nat, mx: nat, a: seq<Sample>, k: nat, i: nat)
    requires k < |a| && Current(rows, C, RowOf(C, a[k]), i)
    requires a[k].isPSample || Weight(a[k]) >= NEq(rows, P(rows, |rows| - 1, i))
    ensures Covered(rows, C, mx, a, P(rows, |rows| - 1, i))
  {
    assert Stands(rows, C, a[k], P(rows, |rows| - 1, i));
  }

  lemma SharesCurrent(rows: seq<Row>, rowids: seq<int>, C: nat, nPS: nat, s: Sample, i: nat)
    requires Pending(rows, rowids, C, nPS, s, i) && i < C && Shares(s, i)
    ensures Current(rows, C, RowOf(C, s), i)
  {
    assert PendingAt(rows, C, s, i, i);
    NEqPositive(rows, C, RowOf(C, s), i);
  }

  lemma NoSharePassed(rows: seq<Row>, rowids: seq<int>, C: nat, nPS: nat, pNew: Sample, a: seq<Sample>, i: nat)
    requires AllPending(rows, rowids, C, nPS, a, i) && !SomeShares(a, i) && Candidate(rows, rowids, C, pNew, i)
    ensures forall k :: 0 <= k < |a| ==> RowOf(C, a[k]) < RowOf(C, pNew)
  {
    forall k | 0 <= k < |a|
      ensures RowOf(C, a[k]) < RowOf(C, pNew)
    {
      assert Pending(rows, rowids, C, nPS, a[k], i);
      assert !Shares(a[k], i);
      ComesLater(rows, rowids, C, nPS, pNew, a[k], i);
    }
  }

  /** What is retained after a candidate for column i was offered. */
  ghost predicate Offered(rows: seq<Row>, rowids: seq<int>, C: nat, nPS: nat, mx: nat, a: seq<Sample>, a': seq<Sample>,
                          i: int) {
    && AllPending(rows, rowids, C, nPS, a', i) && Ascending(C, a') && |a'| <= mx && Selected(rows, C, mx, a', i)
    && (forall q :: HasP(C, a, q) ==> HasP(C, a', q)) && |a| <= |a'|
  }

  lemma StopKeeps(rows: seq<Row>, rowids: seq<int>, C: nat, nPS: nat, mx: nat, a: seq<Sample>, iMin: int, pNew: Sample,
                  i: nat)
    requires Store(rows, rowids, C, nPS, mx, a, iMin, i) && Candidate(rows, rowids, C, pNew, i) && PeriodicShares(a, i)
    ensures Offered(rows, rowids, C, nPS, mx, a, a, i - 1)
  {
    hide Pending, Selected;
    AllWeaker(rows, rowids, C, nPS, a, i);
    var k :| 0 <= k < |a| && Shares(a[k], i) && a[k].isPSample;
    SharesCurrent(rows, rowids, C, nPS, a[k], i);
    StandsForLast(rows, C, mx, a, k, i);
    SelectedStep(rows, C, mx, a, a, i);
  }

  lemma RaiseKeeps(rows: seq<Row>, rowids: seq<int>, C: nat, nPS: nat, mx: nat, a: seq<Sample>, iMin: int, pNew: Sample,
                   i: nat, u: nat)
    requires Store(rows, rowids, C, nPS, mx, a, iMin, i) && Candidate(rows, rowids, C, pNew, i)
      && BestSharing(C, a, i, u)
    ensures |pNew.anEq| == |a[u].anEq| == C
    ensures Offered(rows, rowids, C, nPS, mx, a, a[u := Raised(a[u], pNew)], i - 1)
    ensures CountP(a[u := Raised(a[u], pNew)]) == CountP(a)
  {
    hide Selected, Sorted, NEq, PendingAt, TakenAt, CountP;
    var s := Raised(a[u], pNew);
    assert Pending(rows, rowids, C, nPS, a[u], i) && Counted(rows, C, pNew, i);
    SharesCurrent(rows, rowids, C, nPS, a[u], i);
    SharesRun(rows, rowids, C, nPS, pNew, a[u], i);
    Upgraded(rows, rowids, C, nPS, pNew, a[u], i);
    RaisedRest(rows, rowids, C, nPS, mx, a, u, s, i);
    CountPSame(a, a[u := s]);
    CandidateRun(rows, rowids, C, pNew, i);
    StandsForLast(rows, C, mx, a[u := s], u, i);
    SelectedStep(rows, C, mx, a, a[u := s], i);
  }

  lemma RaisedRest(rows: seq<Row>, rowids: seq<int>, C: nat, nPS: nat, mx: nat, a: seq<Sample>, u: nat, s: Sample,
                   i: nat)
    requires u < |a| && AllPending(rows, rowids, C, nPS, a, i) && Ascending(C, a)
    requires RowOf(C, s) == RowOf(C, a[u]) && s.isPSample == a[u].isPSample && Weight(s) >= Weight(a[u])
    requires Pending(rows, rowids, C, nPS, s, i - 1)
    ensures AllPending(rows, rowids, C, nPS, a[u := s], i - 1) && Ascending(C, a[u := s])
    ensures CoversAll(rows, C, mx, a, a[u := s])
    ensures forall q :: HasP(C, a, q) ==> HasP(C, a[u := s], q)
  {
    hide Pending, Weight, RowOf;
    CoverRaised(rows, C, mx, a, u, s);
    AllWeaker(rows, rowids, C, nPS, a, i);
    forall q | HasP(C, a, q)
      ensures HasP(C, a[u := s], q)
    {
      var k :| 0 <= k < |a| && a[k].isPSample && RowOf(C, a[k]) == q;
      assert a[u := s][k].isPSample;
    }
  }

  lemma CandidateZeroed(rows: seq<Row>, rowids: seq<int>, C: nat, nPS: nat, s: Sample, i: nat)
    requires Candidate(rows, rowids, C, s, i)
    ensures |s.anEq| == C && i < C && rows != []
    ensures var s' := Zeroed(s, i);
      && Pending(rows, rowids, C, nPS, s', i - 1) && RowOf(C, s') == RowOf(C, s) && Weight(s') == Weight(s)
      && !s'.isPSample
      && Current(rows, C, RowOf(C, s'), i) && Weight(s') == NEq(rows, P(rows, |rows| - 1, i))
  {
    hide Sorted, NEq, PendingAt, TakenAt, Pending;
    BestInserted(rows, rowids, C, nPS, s, i);
    CandidateRun(rows, rowids, C, s, i);
  }

  lemma AppendKeeps(rows: seq<Row>, rowids: seq<int>, C: nat, nPS: nat, mx: nat, a: seq<Sample>, iMin: int,
                    pNew: Sample, i: nat)
    requires Store(rows, rowids, C, nPS, mx, a, iMin, i) && Candidate(rows, rowids, C, pNew, i) && !SomeShares(a, i)
      && mx > 0
    requires |a| >= mx ==> Weight(pNew) >= Weight(a[iMin])
    ensures |pNew.anEq| == C
    ensures var a' := Room(mx, a, iMin) + [Zeroed(pNew, i)];
      Offered(rows, rowids, C, nPS, mx, a, a', i - 1) && CountP(a') == CountP(a)
  {
    hide Selected, Sorted, NEq, Pending, CountP, Covered, Candidate, Taken, Weight, RowOf, P, Current, Shares, AtLeast;
    CandidateZeroed(rows, rowids, C, nPS, pNew, i);
    var s := Zeroed(pNew, i);
    var a' := Room(mx, a, iMin) + [s];
    NoSharePassed(rows, rowids, C, nPS, pNew, a, i);
    AppendedOrder(C, mx, a, iMin, s);
    AllWeaker(rows, rowids, C, nPS, a, i);
    AppendedPending(rows, rowids, C, nPS, mx, a, iMin, s, i - 1);
    CoverAppended(rows, C, mx, a, iMin, s);
    assert a'[|a'| - 1] == s;
    StandsForLast(rows, C, mx, a', |a'| - 1, i);
    SelectedStep(rows, C, mx, a, a', i);
  }

  /** A candidate for which there is no space, and which is not better, can be passed over. */
  lemma PassKeeps(rows: seq<Row>, rowids: seq<int>, C: nat, nPS: nat, mx: nat, a: seq<Sample>, iMin: int, pNew: Sample,
                  i: nat)
    requires Store(rows, rowids, C, nPS, mx, a, iMin, i) && Candidate(rows, rowids, C, pNew, i) && |a| >= mx
    requires Weight(pNew) <= Weight(a[iMin])
    ensures Offered(rows, rowids, C, nPS, mx, a, a, i - 1)
  {
    hide Selected, Pending, PendingAt, TakenAt, NEq, Sorted;
    AllWeaker(rows, rowids, C, nPS, a, i);
    CandidateRun(rows, rowids, C, pNew, i);
    assert Covered(rows, C, mx, a, P(rows, |rows| - 1, i));
    SelectedStep(rows, C, mx, a, a, i);
  }

  /** The last row as a periodic sample. */
  lemma PeriodicKeeps(rows: seq<Row>, rowids: seq<int>, C: nat, nPS: nat, mx: nat, a: seq<Sample>, iMin: int,
                      pNew: Sample)
    requires Store(rows, rowids, C, nPS, mx, a, iMin, C - 2) && mx > 0 && nPS > 0
    requires Taken(rows, rowids, C, pNew) && pNew.isPSample && RowOf(C, pNew) == |rows| - 1
      && Counted(rows, C, pNew, C - 1)
    requires C > 0 && |rows| % nPS == 0 && forall k :: 0 <= k < |a| ==> RowOf(C, a[k]) < |rows| - 1
    ensures |pNew.anEq| == C
    ensures var a' := Room(mx, a, iMin) + [Zeroed(pNew, C - 1)];
      && Offered(rows, rowids, C, nPS, mx, a, a', C - 2) && CountP(a') == CountP(a) + 1 && HasP(C, a', |rows| - 1)
  {
    hide Pending, Sorted, NEq, PendingAt, TakenAt, CountP, Covered, P;
    var s := Zeroed(pNew, C - 1);
    var a' := Room(mx, a, iMin) + [s];
    PeriodicInserted(rows, rowids, C, nPS, pNew);
    assert RowOf(C, s) == RowOf(C, pNew);
    AppendedOrder(C, mx, a, iMin, s);
    AppendedPending(rows, rowids, C, nPS, mx, a, iMin, s, C - 2);
    CoverAppended(rows, C, mx, a, iMin, s);
    forall q, j | 0 <= q < |rows| && 0 <= j && j + 1 < C && (j > C - 2 || !Current(rows, C, q, j))
      ensures Covered(rows, C, mx, a', P(rows, q, j))
    {
      assert Covered(rows, C, mx, a, P(rows, q, j));
    }
  }

  // ----- The end of the runs of the last row -----

  // The elements from column n that are 0 are set to those of cur.
  function FillZeros(anEq: seq<nat>, cur: seq<nat>, n: nat): seq<nat>
    requires |anEq| == |cur|
  {
    seq(|anEq|, j requires 0 <= j < |anEq| => if j >= n && anEq[j] == 0 then cur[j] else anEq[j])
  }

  /** A retained sample after the runs of the last row in the columns from n have ended. */
  ghost predicate Closed(rows: seq<Row>, rowids: seq<int>, C: nat, nPS: nat, s: Sample, n: nat) {
    && Taken(rows, rowids, C, s)
    && (forall j :: 0 <= j < C ==> ClosedAt(rows, C, s, n, j))
    && (!s.isPSample ==>
          s.iCol + 1 < C && Counted(rows, C, s, s.iCol) && (s.iCol >= n || !Current(rows, C, RowOf(C, s), s.iCol)))
    && (s.isPSample ==> nPS > 0 && (RowOf(C, s) + 1) % nPS == 0)
  }

  ghost predicate ClosedAt(rows: seq<Row>, C: nat, s: Sample, n: nat, j: nat)
    requires j < C && |s.anEq| == |s.anLt| == C
  {
    if j < n then (if Current(rows, C, RowOf(C, s), j) then s.anEq[j] == 0 else Counted(rows, C, s, j))
    else Counted(rows, C, s, j)
  }

  ghost predicate AllClosed(rows: seq<Row>, rowids: seq<int>, C: nat, nPS: nat, a: seq<Sample>, n: nat) {
    forall k :: 0 <= k < |a| ==> Closed(rows, rowids, C, nPS, a[k], n)
  }

  /** s is the last row, with its true counts. */
  ghost predicate IsLast(rows: seq<Row>, rowids: seq<int>, C: nat, s: Sample) {
    Exact(rows, rowids, C, s) && RowOf(C, s) == |rows| - 1
  }

  lemma FilledClosed(rows: seq<Row>, rowids: seq<int>, C: nat, nPS: nat, s: Sample, cur: Sample, n: nat)
    requires Pending(rows, rowids, C, nPS, s, n - 1) && IsLast(rows, rowids, C, cur)
    ensures |s.anEq| == |cur.anEq|
    ensures Closed(rows, rowids, C, nPS, s.(anEq := FillZeros(s.anEq, cur.anEq, n)), n)
    ensures Weight(s.(anEq := FillZeros(s.anEq, cur.anEq, n))) == Weight(s) || s.isPSample
  {
    var s', i := s.(anEq := FillZeros(s.anEq, cur.anEq, n)), n - 1;
    var q := RowOf(C, s);
    assert RowOf(C, s') == q;
    forall j | 0 <= j < C
      ensures TakenAt(rows, C, s', j)
    {
      assert TakenAt(rows, C, s, j);
    }
    forall j | 0 <= j < C
      ensures ClosedAt(rows, C, s', n, j)
      ensures Counted(rows, C, s, j) ==> s'.anEq[j] == s.anEq[j]
    {
      FilledAt(rows, rowids, C, s, cur, n, j);
      assert PendingAt(rows, C, s, i, j);
    }
    assert !s.isPSample ==> Counted(rows, C, s', s'.iCol);
  }

  lemma FilledAt(rows: seq<Row>, rowids: seq<int>, C: nat, s: Sample, cur: Sample, n: nat, j: nat)
    requires j < C && |s.anEq| == |s.anLt| == |cur.anEq| == C && RowOf(C, s) < |rows|
    requires PendingAt(rows, C, s, n - 1, j) && IsLast(rows, rowids, C, cur)
    ensures ClosedAt(rows, C, s.(anEq := FillZeros(s.anEq, cur.anEq, n)), n, j)
    ensures Counted(rows, C, s, j) ==> s.anEq[j] > 0
  {
    var s', q := s.(anEq := FillZeros(s.anEq, cur.anEq, n)), RowOf(C, s);
    NEqPositive(rows, C, q, j);
    assert Counted(rows, C, cur, j);
    assert Counted(rows, C, s, j) ==> Counted(rows, C, s', j);
  }

  /** Two lists of samples that differ in the counts only. */
  ghost predicate SameSamples(C: nat, a: seq<Sample>, a': seq<Sample>) {
    |a| == |a'| && forall k :: 0 <= k < |a| ==> SameSample(C, a[k], a'[k])
  }

  ghost predicate SameSample(C: nat, s: Sample, s': Sample) {
    s'.isPSample == s.isPSample && RowOf(C, s') == RowOf(C, s) && (s.isPSample || Weight(s') == Weight(s))
  }

  lemma SameSelected(rows: seq<Row>, C: nat, mx: nat, a: seq<Sample>, a': seq<Sample>, i: int)
    requires Selected(rows, C, mx, a, i) && SameSamples(C, a, a')
    ensures Selected(rows, C, mx, a', i)
  {
    hide Sorted, Current, RowOf, Weight, P, NEq;
    forall q, j | 0 <= q < |rows| && 0 <= j && j + 1 < C && (j > i || !Current(rows, C, q, j))
      ensures Covered(rows, C, mx, a', P(rows, q, j))
    {
      var p := P(rows, q, j);
      assert Covered(rows, C, mx, a, p);
      if k :| 0 <= k < |a| && Stands(rows, C, a[k], p) {
        assert SameSample(C, a[k], a'[k]);
        assert Stands(rows, C, a'[k], p);
      } else {
        assert AtLeast(a', NEq(rows, p)) by {
          assert forall k :: 0 <= k < |a| ==> SameSample(C, a[k], a'[k]);
        }
      }
    }
  }

  lemma SameStore(C: nat, mx: nat, a: seq<Sample>, a': seq<Sample>, iMin: int)
    requires SameSamples(C, a, a') && Ascending(C, a) && MinOk(mx, a, iMin)
    ensures Ascending(C, a') && MinOk(mx, a', iMin) && CountP(a') == CountP(a)
    ensures forall q :: HasP(C, a, q) ==> HasP(C, a', q)
  {
    hide RowOf, Weight, CountP;
    forall k | 0 <= k < |a|
      ensures a[k].isPSample == a'[k].isPSample && RowOf(C, a'[k]) == RowOf(C, a[k])
        && (a[k].isPSample || Weight(a'[k]) == Weight(a[k]))
    {
      assert SameSample(C, a[k], a'[k]);
    }
    CountPSame(a, a');
    forall q | HasP(C, a, q)
      ensures HasP(C, a', q)
    {
      var k :| 0 <= k < |a| && a[k].isPSample && RowOf(C, a[k]) == q;
      assert a'[k].isPSample;
    }
  }

  // ----- A further row -----

  ghost predicate NextAt(rows: seq<Row>, C: nat, row: Row, n: nat) {
    Sorted(rows + [row], C) && rows != [] && |rows[|rows| - 1]| == |row| && n == FirstDiff(rows[|rows| - 1], row)
  }

  lemma NextBound(rows: seq<Row>, C: nat, row: Row, n: nat)
    requires NextAt(rows, C, row, n)
    ensures n < C && Sorted(rows, C)
  {
    var rows', t := rows + [row], |rows| - 1;
    assert rows'[..|rows|] == rows;
    SortedPrefix(rows', C, |rows|);
    assert rows'[t] == rows[t] && rows'[|rows|] == row && Less(rows'[t], row);
    LessIrreflexive(row);
    assert rows[t][..|row|] == rows[t] && row[..|row|] == row;
  }

  /** The runs of the new row are those of the last one in the columns before n, and new ones in the others. */
  lemma CurrentNext(rows: seq<Row>, C: nat, row: Row, n: nat, q: nat, j: nat)
    requires NextAt(rows, C, row, n) && q < |rows| && j < C
    ensures Current(rows + [row], C, q, j) <==> j < n && Current(rows, C, q, j)
    ensures P(rows + [row], q, j) == P(rows, q, j)
    ensures !(j < n && Current(rows, C, q, j)) ==> NEq(rows + [row], P(rows, q, j)) == NEq(rows, P(rows, q, j))
    ensures NLt(rows + [row], P(rows, q, j)) == NLt(rows, P(rows, q, j))
    ensures NDLt(rows + [row], P(rows, q, j)) == NDLt(rows, P(rows, q, j))
  {
    hide Less, NEq, NLt, LessPrefixes, Sorted;
    NextBound(rows, C, row, n);
    var rows', t := rows + [row], |rows| - 1;
    OneMore(rows, C, row, q, j);
    NextRow(rows, C, row, j);
    assert rows'[q] == rows[q] && rows'[t] == rows[t] && rows'[|rows|] == row;
    PrefixOrder(rows', C, q, t, j);
    PrefixOrder(rows', C, t, |rows|, j);
    LessIrreflexive(P(rows', |rows|, j));
  }

  lemma TakenNext(rows: seq<Row>, rowids: seq<int>, C: nat, row: Row, id: int, n: nat, s: Sample)
    requires NextAt(rows, C, row, n) && Taken(rows, rowids, C, s)
    ensures Taken(rows + [row], rowids + [id], C, s)
  {
    hide Sorted, NLt, LessPrefixes, NDLt, P, Less, Current;
    var rows' := rows + [row];
    forall j | 0 <= j < C
      ensures TakenAt(rows', C, s, j)
    {
      assert TakenAt(rows, C, s, j);
      CurrentNext(rows, C, row, n, RowOf(C, s), j);
    }
  }

  lemma CountedNext(rows: seq<Row>, C: nat, row: Row, n: nat, s: Sample, j: nat)
    requires NextAt(rows, C, row, n) && Counted(rows, C, s, j) && !(j < n && Current(rows, C, RowOf(C, s), j))
    ensures Counted(rows + [row], C, s, j) && !Current(rows + [row], C, RowOf(C, s), j)
  {
    hide Less, NEq, NLt, LessPrefixes, P;
    CurrentNext(rows, C, row, n, RowOf(C, s), j);
  }

  lemma ClosedNext(rows: seq<Row>, rowids: seq<int>, C: nat, nPS: nat, row: Row, id: int, n: nat, s: Sample)
    requires NextAt(rows, C, row, n) && Closed(rows, rowids, C, nPS, s, n)
    ensures Pending(rows + [row], rowids + [id], C, nPS, s, C - 2)
  {
    hide Sorted, P, TakenAt;
    var rows', i := rows + [row], C - 2;
    NextBound(rows, C, row, n);
    TakenNext(rows, rowids, C, row, id, n, s);
    forall j | 0 <= j < C
      ensures PendingAt(rows', C, s, i, j)
    {
      assert ClosedAt(rows, C, s, n, j);
      CurrentNext(rows, C, row, n, RowOf(C, s), j);
      if !(j < n && Current(rows, C, RowOf(C, s), j)) {
        CountedNext(rows, C, row, n, s, j);
      }
    }
    if !s.isPSample {
      CountedNext(rows, C, row, n, s, s.iCol);
    }
  }

  lemma SelectedNext(rows: seq<Row>, C: nat, mx: nat, row: Row, n: nat, a: seq<Sample>)
    requires NextAt(rows, C, row, n) && Selected(rows, C, mx, a, n - 1)
    ensures Selected(rows + [row], C, mx, a, C - 2)
  {
    hide Covered, P, NEq, Less, Current;
    var rows' := rows + [row];
    forall q, j | 0 <= q < |rows'| && 0 <= j && j + 1 < C && (j > C - 2 || !Current(rows', C, q, j))
      ensures Covered(rows', C, mx, a, P(rows', q, j))
    {
      LastIsCurrent(rows', C, j);
      CurrentNext(rows, C, row, n, q, j);
      assert Covered(rows, C, mx, a, P(rows, q, j));
      CoveredNext(rows, C, mx, row, a, P(rows, q, j));
    }
  }

  lemma LastIsCurrent(rows: seq<Row>, C: nat, j: nat)
    requires Sorted(rows, C) && rows != [] && j < C
    ensures Current(rows, C, |rows| - 1, j)
  {}

  lemma CoveredNext(rows: seq<Row>, C: nat, mx: nat, row: Row, a: seq<Sample>, p: Row)
    requires Sorted(rows + [row], C) && Covered(rows, C, mx, a, p) && NEq(rows + [row], p) == NEq(rows, p)
    ensures Covered(rows + [row], C, mx, a, p)
  {
    hide Sorted, NEq, RowOf, Weight;
    if k :| 0 <= k < |a| && Stands(rows, C, a[k], p) {
      assert Stands(rows + [row], C, a[k], p);
    }
  }

  ghost predicate Shape(C: nat, s: Sample) {
    |s.anEq| == |s.anLt| == |s.anDLt| == C && !s.isPSample
  }

  /** The counts of the row that comes next. */
  function Advanced(C: nat, s: Sample, n: nat): Sample
    requires |s.anEq| == |s.anLt| == |s.anDLt| == C
  {
    s.(anEq := seq(C, j requires 0 <= j < C => if j < n then s.anEq[j] + 1 else 1),
       anLt := seq(C, j requires 0 <= j < C => if j < n then s.anLt[j] else s.anLt[j] + s.anEq[j]),
       anDLt := seq(C, j requires 0 <= j < C => if j < n then s.anDLt[j] else s.anDLt[j] + 1))
  }

  // Each row but the last begins differently in all columns taken together.
  lemma {:induction false} RowsBefore(rows: seq<Row>, C: nat, n: nat, r: nat)
    requires Sorted(rows, C) && n <= r < |rows|
    ensures NLt(rows[..n], P(rows, r, C - 1)) == n
  {
    if n > 0 {
      RowsBefore(rows, C, n - 1, r);
      assert rows[..n][..n - 1] == rows[..n - 1];
      assert rows[n - 1][..C] == rows[n - 1] && rows[r][..C] == rows[r];
    }
  }

  lemma LastNumber(rows: seq<Row>, C: nat)
    requires Sorted(rows, C) && rows != []
    ensures NLt(rows, P(rows, |rows| - 1, C - 1)) == |rows| - 1
  {
    var n := |rows| - 1;
    RowsBefore(rows, C, n, n);
    LessIrreflexive(P(rows, n, C - 1));
    assert P(rows, n, C - 1) == rows[n][..C];
  }

  lemma LastNext(rows: seq<Row>, rowids: seq<int>, C: nat, row: Row, id: int, n: nat, s: Sample)
    requires NextAt(rows, C, row, n) && IsLast(rows, rowids, C, s)
    ensures |s.anEq| == |s.anLt| == |s.anDLt| == C
    ensures IsLast(rows + [row], rowids + [id], C, Advanced(C, s, n).(iRowid := id))
  {
    hide Less, NEq, NLt, LessPrefixes, NDLt, P, Sorted;
    var rows', s' := rows + [row], Advanced(C, s, n).(iRowid := id);
    NextBound(rows, C, row, n);
    assert C > 0 by { SortedColumns(rows, C); }
    forall j | 0 <= j < C
      ensures s'.anLt[j] == NLt(rows', P(rows', |rows|, j)) && s'.anDLt[j] == NDLt(rows', P(rows', |rows|, j))
      ensures s'.anEq[j] == NEq(rows', P(rows', |rows|, j))
    {
      NextRow(rows, C, row, j);
      assert TakenAt(rows, C, s, j) && Counted(rows, C, s, j);
      CurrentNext(rows, C, row, n, |rows| - 1, j);
    }
    LastNumber(rows', C);
    assert RowOf(C, s') == |rows|;
    assert forall j :: 0 <= j < C ==> TakenAt(rows', C, s', j) && Counted(rows', C, s', j);
  }

  lemma SortedColumns(rows: seq<Row>, C: nat)
    requires Sorted(rows, C)
    ensures C > 0
  {}

  /** The first row. */
  lemma FirstRow(C: nat, row: Row, id: int, s: Sample)
    requires Sorted([row], C) && |s.anEq| == |s.anLt| == |s.anDLt| == C && s.iRowid == id
    requires forall j :: 0 <= j < C ==> s.anEq[j] == 1 && s.anLt[j] == 0 && s.anDLt[j] == 0
    ensures IsLast([row], [id], C, s)
  {
    var rows := [row];
    assert rows[..0] == [];
    forall j | 0 <= j < C
      ensures TakenAt(rows, C, s, j) && Counted(rows, C, s, j)
    {
      LessIrreflexive(P(rows, 0, j));
      assert P(rows, 0, j) <= row;
      assert LessPrefixes(rows, P(rows, 0, j)) == {};
    }
  }

  // The counts of the last row and of the one after it, of the same run.
  lemma LastBetter(rows: seq<Row>, rowids: seq<int>, C: nat, row: Row, n: nat, s: Sample, cur: Sample, x: Sample,
                   i: nat)
    requires NextAt(rows, C, row, n) && Best(rows, rowids, C, s, i) && IsLast(rows, rowids, C, cur) && Shape(C, cur)
    requires i + 1 < n && Current(rows, C, RowOf(C, s), i + 1) && x.anEq == Advanced(C, cur, n).anEq
    ensures |x.anEq| == |s.anEq| == C && BetterPost(C, x, s, i + 1)
  {
    NextBound(rows, C, row, n);
    assert Counted(rows, C, s, i + 1) && Counted(rows, C, cur, i + 1);
  }

  // A best sample that the next row does not improve on stays the best.
  lemma BestStays(rows: seq<Row>, rowids: seq<int>, C: nat, row: Row, id: int, n: nat, s: Sample, cur: Sample,
                  x: Sample, i: nat)
    requires NextAt(rows, C, row, n) && Best(rows, rowids, C, s, i) && IsLast(rows, rowids, C, cur) && Shape(C, cur)
      && Shape(C, s)
    requires i < n && x.anEq == Advanced(C, cur, n).anEq && !BetterPost(C, x, s, i + 1)
    ensures Best(rows + [row], rowids + [id], C, s, i)
  {
    hide Best, IsLast, Current, NextAt;
    if i + 1 < n && Current(rows, C, RowOf(C, s), i + 1) {
      LastBetter(rows, rowids, C, row, n, s, cur, x, i);
    }
    BestNext(rows, rowids, C, row, id, n, s, i);
  }

  lemma BestNext(rows: seq<Row>, rowids: seq<int>, C: nat, row: Row, id: int, n: nat, s: Sample, i: nat)
    requires NextAt(rows, C, row, n) && Best(rows, rowids, C, s, i) && i < n
    requires i + 1 < n ==> !Current(rows, C, RowOf(C, s), i + 1)
    ensures Best(rows + [row], rowids + [id], C, s, i)
  {
    hide Less, NEq, NLt, LessPrefixes, NDLt, P, Sorted, TakenAt;
    var rows', q := rows + [row], RowOf(C, s);
    NextBound(rows, C, row, n);
    TakenNext(rows, rowids, C, row, id, n, s);
    CurrentNext(rows, C, row, n, q, i);
    CurrentNext(rows, C, row, n, q, i + 1);
    forall j | i < j < C
      ensures Counted(rows', C, s, j)
    {
      assert Counted(rows, C, s, j);
      if j < n && Current(rows, C, q, j) {
        CurrentPrefix(rows, C, q, j, i + 1);
      }
      CountedNext(rows, C, row, n, s, j);
    }
  }

  // The last row, as the best of column i.
  lemma BestIsLast(rows: seq<Row>, rowids: seq<int>, C: nat, s: Sample, i: nat)
    requires IsLast(rows, rowids, C, s) && i + 1 < C && s.iCol == i && !s.isPSample
    ensures Best(rows, rowids, C, s, i)
  {}

  /** The best of a column is a candidate once its run has ended. */
  lemma BestEnds(rows: seq<Row>, rowids: seq<int>, C: nat, s: Sample, cur: Sample, i: nat)
    requires Best(rows, rowids, C, s, i) && IsLast(rows, rowids, C, cur)
    ensures |s.anEq| == |cur.anEq| == C && i < C && Candidate(rows, rowids, C, s.(anEq := s.anEq[i := cur.anEq[i]]), i)
    ensures Best(rows, rowids, C, s.(anEq := s.anEq[i := cur.anEq[i]]), i)
  {
    hide Less, NEq, NLt, LessPrefixes, NDLt, P, Sorted;
    var s' := s.(anEq := s.anEq[i := cur.anEq[i]]);
    assert RowOf(C, s') == RowOf(C, s);
    forall j | 0 <= j < C
      ensures TakenAt(rows, C, s', j)
    {
      assert TakenAt(rows, C, s, j);
    }
    assert Counted(rows, C, cur, i);
    assert Counted(rows, C, s', i);
    forall j | i < j < C
      ensures Counted(rows, C, s', j)
    {
      assert Counted(rows, C, s, j);
    }
  }

  // ----- Periodic samples -----

  /** The row after nLt others is taken whatever it holds. */
  predicate IsPeriodic(nLt: nat, nPS: nat)
    requires nPS > 0
  {
    nLt / nPS != (nLt + 1) / nPS
  }

  lemma PeriodicStep(nLt: nat, nPS: nat)
    requires nPS > 0
    ensures IsPeriodic(nLt, nPS) <==> (nLt + 1) % nPS == 0
    ensures (nLt + 1) / nPS == nLt / nPS + if IsPeriodic(nLt, nPS) then 1 else 0
  {
    var q, r := DivMod(nLt, nPS);
    if r + 1 < nPS {
      DivUnique(nLt + 1, nPS, q, r + 1);
    } else {
      assert nLt + 1 == (q + 1) * nPS;
      DivUnique(nLt + 1, nPS, q + 1, 0);
    }
  }

  /** How often to take a periodic sample of an index of nEst rows. */
  function Period(nEst: nat, mx: nat): (nPS: nat)
    ensures nPS > 0
  {
    nEst / (mx / 3 + 1) + 1
  }

  /** The rows fall short of d periods, and would not if these were a row shorter: d is a third of the samples and 1. */
  predicate PeriodOf(nPS: nat, n: nat, mx: nat) {
    nPS > 0 && (nPS - 1) * (mx / 3 + 1) <= n < nPS * (mx / 3 + 1)
  }

  lemma PeriodIs(n: nat, mx: nat)
    ensures PeriodOf(Period(n, mx), n, mx)
  {
    var q, r := DivMod(n, mx / 3 + 1);
    assert (q + 1) * (mx / 3 + 1) == q * (mx / 3 + 1) + (mx / 3 + 1);
  }

  lemma FewPeriods(nEst: nat, mx: nat, n: nat)
    requires mx > 0 && n <= nEst
    ensures n / Period(nEst, mx) <= mx / 3 < mx
  {
    var d: nat, nPS := mx / 3 + 1, Period(nEst, mx);
    var e, r := DivMod(nEst, d);
    var k, r' := DivMod(n, nPS);
    assert d * nPS == e * d + d;
    if k >= d {
      MulLe(d, k, nPS);
    }
  }

  ghost predicate Periodic(rows: seq<Row>, C: nat, nPS: nat, a: seq<Sample>) {
    && nPS > 0 && CountP(a) == |rows| / nPS
    && forall q :: 0 <= q < |rows| && (q + 1) % nPS == 0 ==> HasP(C, a, q)
  }

  ghost predicate Bests(rows: seq<Row>, rowids: seq<int>, C: nat, aBest: seq<Sample>) {
    |aBest| == C && forall i :: 0 <= i < C - 1 ==> Best(rows, rowids, C, aBest[i], i)
  }

  // The samples whose anEq decides which are better.
  ghost predicate Rated(C: nat, a: seq<Sample>) {
    forall k :: 0 <= k < |a| && !a[k].isPSample ==> |a[k].anEq| == C && a[k].iCol < C
  }

  lemma PendingRated(rows: seq<Row>, rowids: seq<int>, C: nat, nPS: nat, a: seq<Sample>, i: int)
    requires AllPending(rows, rowids, C, nPS, a, i)
    ensures Rated(C, a)
  {
    forall k | 0 <= k < |a| && !a[k].isPSample
      ensures |a[k].anEq| == C && a[k].iCol < C
    {
      assert Pending(rows, rowids, C, nPS, a[k], i);
    }
  }

  lemma {:induction false} CountPAll(a: seq<Sample>)
    requires forall k :: 0 <= k < |a| ==> a[k].isPSample
    ensures CountP(a) == |a|
  {
    if a != [] {
      CountPAll(a[..|a| - 1]);
    }
  }

  // The loop of sampleInsert over samples that share the run of the last row.
  method FindUpgrade(ghost rows: seq<Row>, ghost rowids: seq<int>, C: nat, ghost nPS: nat, a: seq<Sample>, pNew: Sample)
      returns (stop: bool, u: int)
    requires pNew.iCol < C && Candidate(rows, rowids, C, pNew, pNew.iCol)
    requires AllPending(rows, rowids, C, nPS, a, pNew.iCol)
    ensures stop <==> PeriodicShares(a, pNew.iCol)
    ensures !stop ==> -1 <= u < |a| && (u >= 0 <==> SomeShares(a, pNew.iCol))
    ensures !stop && u >= 0 ==> BestSharing(C, a, pNew.iCol, u)
  {
    hide Pending, Better, Taken, Sorted, Current, Counted;
    PendingRated(rows, rowids, C, nPS, a, pNew.iCol);
    var col := pNew.iCol;
    stop, u := false, -1;
    var i := |a|;
    while i > 0
      invariant 0 <= i <= |a| && -1 <= u < |a| && !stop
      invariant forall k :: i <= k < |a| && Shares(a[k], col) ==> !a[k].isPSample && u >= 0
      invariant u >= 0 ==> i <= u && Shares(a[u], col) && !a[u].isPSample
      invariant u >= 0 ==> forall k :: i <= k < |a| && Shares(a[k], col) ==> !Better(C, a[k], a[u])
    {
      i := i - 1;
      var pOld := a[i];
      assert Pending(rows, rowids, C, nPS, pOld, col);
      PendingShape(rows, rowids, C, nPS, pOld, col);
      if pOld.anEq[col] == 0 {
        assert Shares(pOld, col);
        if pOld.isPSample { return true, u; }
        CandidateShares(rows, rowids, C, nPS, pNew, pOld, col);
        assert pOld.iCol > pNew.iCol;
        assert Better(C, pNew, pOld);
        if u == -1 {
          NotBetterItself(C, pOld);
          u := i;
        } else {
          var better := SampleIsBetter(C, pOld, a[u]);
          if better {
            forall k | i <= k < |a| && Shares(a[k], col)
              ensures !Better(C, a[k], a[i])
            {
              if k == i {
                NotBetterItself(C, pOld);
              } else if Better(C, a[k], a[i]) {
                BetterTransitive(C, a[k], a[i], a[u]);
              }
            }
            u := i;
          }
        }
      }
    }
  }

  lemma PendingShape(rows: seq<Row>, rowids: seq<int>, C: nat, nPS: nat, s: Sample, i: int)
    requires Pending(rows, rowids, C, nPS, s, i)
    ensures |s.anEq| == |s.anLt| == |s.anDLt| == C
  {}

  lemma NotBetterItself(C: nat, s: Sample)
    requires |s.anEq| == C && s.iCol < C
    ensures !Better(C, s, s)
  {
    BetterPostIrreflexive(C, s, s.iCol + 1);
  }

  lemma CandidateShares(rows: seq<Row>, rowids: seq<int>, C: nat, nPS: nat, pNew: Sample, s: Sample, i: nat)
    requires Candidate(rows, rowids, C, pNew, i) && Pending(rows, rowids, C, nPS, s, i) && i < |s.anEq|
      && s.anEq[i] == 0 && !s.isPSample
    ensures |pNew.anEq| == |s.anEq| == C && i < s.iCol < C && Better(C, pNew, s)
  {
    hide Pending, Sorted, NEq;
    PendingShape(rows, rowids, C, nPS, s, i);
    assert Counted(rows, C, pNew, i);
    SharesRun(rows, rowids, C, nPS, pNew, s, i);
  }

  // The loop of sampleInsert that looks for the sample to remove next.
  method FindNewMin(C: nat, a: seq<Sample>) returns (iMin: int)
    requires Rated(C, a) && CountP(a) < |a|
    ensures 0 <= iMin < |a| && !a[iMin].isPSample && |a[iMin].anEq| == C && a[iMin].iCol < C
    ensures forall k :: 0 <= k < |a| && !a[k].isPSample ==> !Better(C, a[iMin], a[k])
    ensures AtLeast(a, Weight(a[iMin]))
  {
    hide Better, CountP;
    iMin := -1;
    var i := 0;
    while i < |a|
      invariant 0 <= i <= |a| && -1 <= iMin < i
      invariant iMin >= 0 ==> !a[iMin].isPSample
      invariant iMin < 0 ==> forall k :: 0 <= k < i ==> a[k].isPSample
      invariant iMin >= 0 ==> forall k :: 0 <= k < i && !a[k].isPSample ==> !Better(C, a[iMin], a[k])
    {
      if !a[i].isPSample {
        if iMin < 0 {
          NotBetterItself(C, a[i]);
          iMin := i;
        } else {
          var better := SampleIsBetter(C, a[iMin], a[i]);
          if better {
            forall k | 0 <= k <= i && !a[k].isPSample
              ensures !Better(C, a[i], a[k])
            {
              if k == i {
                NotBetterItself(C, a[i]);
              } else if Better(C, a[i], a[k]) {
                BetterTransitive(C, a[iMin], a[i], a[k]);
              }
            }
            iMin := i;
          }
        }
      }
      i := i + 1;
    }
    if iMin < 0 {
      CountPAll(a);
    }
    LeastWeight(C, a, iMin);
  }

  lemma LeastWeight(C: nat, a: seq<Sample>, iMin: nat)
    requires Rated(C, a) && iMin < |a| && !a[iMin].isPSample
    requires forall k :: 0 <= k < |a| && !a[k].isPSample ==> !Better(C, a[iMin], a[k])
    ensures AtLeast(a, Weight(a[iMin]))
  {
    hide BetterPost;
    forall k | 0 <= k < |a| && !a[k].isPSample
      ensures Weight(a[k]) >= Weight(a[iMin])
    {
      assert !Better(C, a[iMin], a[k]);
    }
  }

  /** All that holds between two rows. */
  ghost predicate Scanned(rows: seq<Row>, rowids: seq<int>, C: nat, nPS: nat, mx: nat, a: seq<Sample>, iMin: int,
                          aBest: seq<Sample>,
                          current: Sample) {
    && IsLast(rows, rowids, C, current) && Store(rows, rowids, C, nPS, mx, a, iMin, C - 2)
    && Periodic(rows, C, nPS, a) && Bests(rows, rowids, C, aBest)
  }

  // ----- One call of sampleInsert, on values -----

  /**
  Samples are offered for a column when its run has ended, or are of the last row when that is to be a periodic one.
  */
  ghost predicate InsertReady(rows: seq<Row>, rowids: seq<int>, C: nat, nPS: nat, mx: nat, a: seq<Sample>, iMin: int,
                              pNew: Sample,
                              nEqZero: nat) {
    && mx > 0 && nPS > 0 && nEqZero < C && pNew.iCol < C
    && if pNew.isPSample then
         && Store(rows, rowids, C, nPS, mx, a, iMin, C - 2) && Taken(rows, rowids, C, pNew)
         && RowOf(C, pNew) == |rows| - 1
         && nEqZero == C - 1 && Counted(rows, C, pNew, C - 1) && |rows| % nPS == 0
         && forall k :: 0 <= k < |a| ==> RowOf(C, a[k]) < |rows| - 1
       else
         && Store(rows, rowids, C, nPS, mx, a, iMin, pNew.iCol) && Candidate(rows, rowids, C, pNew, pNew.iCol)
         && nEqZero == pNew.iCol && (|a| >= mx ==> Weight(pNew) >= Weight(a[iMin]))
  }

  // The runs in the columns after this one have been dealt with.
  function ColumnAfter(C: nat, pNew: Sample): int {
    if pNew.isPSample then C - 2 else pNew.iCol - 1
  }

  /** No retained sample that is not periodic is worse than iMin. */
  ghost predicate LeastGood(C: nat, a: seq<Sample>, iMin: int) {
    && 0 <= iMin < |a| && !a[iMin].isPSample && |a[iMin].anEq| == C && a[iMin].iCol < C && Rated(C, a)
    && forall k :: 0 <= k < |a| && !a[k].isPSample ==> !Better(C, a[iMin], a[k])
  }

  lemma ReadyShape(rows: seq<Row>, rowids: seq<int>, C: nat, nPS: nat, mx: nat, a: seq<Sample>, iMin: int, pNew: Sample,
                   nEqZero: nat)
    requires InsertReady(rows, rowids, C, nPS, mx, a, iMin, pNew, nEqZero)
    ensures mx > 0 && nEqZero < C && pNew.iCol < C && |pNew.anEq| == C && |a| <= mx && (|a| >= mx ==> 0 <= iMin < |a|)
    ensures !pNew.isPSample ==>
      Candidate(rows, rowids, C, pNew, pNew.iCol) && AllPending(rows, rowids, C, nPS, a, pNew.iCol)
  {
    hide Selected, Sorted, Pending, Ascending, AtLeast, NEq;
  }

  lemma SharingShape(C: nat, a: seq<Sample>, i: nat, u: int)
    requires BestSharing(C, a, i, u)
    ensures 0 <= u < |a| && |a[u].anEq| == C
  {}

  /** Whatever sampleInsert does with a sample keeps what is known of those retained. */
  lemma InsertedKeeps(rows: seq<Row>, rowids: seq<int>, C: nat, nPS: nat, mx: nat, a: seq<Sample>, iMin: int,
                      pNew: Sample, nEqZero: nat,
                      a': seq<Sample>)
    requires InsertReady(rows, rowids, C, nPS, mx, a, iMin, pNew, nEqZero)
    requires |pNew.anEq| == C && pNew.iCol < C && nEqZero <= C
    requires Inserted(C, mx, a, iMin, pNew, nEqZero, a')
    ensures Offered(rows, rowids, C, nPS, mx, a, a', ColumnAfter(C, pNew))
    ensures CountP(a') == CountP(a) + if pNew.isPSample then 1 else 0
    ensures pNew.isPSample ==> HasP(C, a', |rows| - 1)
  {
    hide Selected, Sorted, Pending, Ascending, AtLeast, NEq, CountP, HasP, Weight, Candidate, Taken, Store, Better,
      Offered;
    var i := pNew.iCol;
    if pNew.isPSample {
      PeriodicKeeps(rows, rowids, C, nPS, mx, a, iMin, pNew);
    } else if PeriodicShares(a, i) {
      StopKeeps(rows, rowids, C, nPS, mx, a, iMin, pNew, i);
    } else if SomeShares(a, i) {
      var u :| BestSharing(C, a, i, u) && a' == a[u := Raised(a[u], pNew)];
      RaiseKeeps(rows, rowids, C, nPS, mx, a, iMin, pNew, i, u);
    } else {
      AppendKeeps(rows, rowids, C, nPS, mx, a, iMin, pNew, i);
    }
  }

  lemma OfferedRated(rows: seq<Row>, rowids: seq<int>, C: nat, nPS: nat, mx: nat, a: seq<Sample>, a': seq<Sample>,
                     i: int)
    requires Offered(rows, rowids, C, nPS, mx, a, a', i)
    ensures Rated(C, a') && |a'| <= mx && forall q :: HasP(C, a, q) ==> HasP(C, a', q)
  {
    hide Selected, Pending, Ascending, HasP;
    PendingRated(rows, rowids, C, nPS, a', i);
  }

  lemma OfferedStore(rows: seq<Row>, rowids: seq<int>, C: nat, nPS: nat, mx: nat, a: seq<Sample>, a': seq<Sample>,
                     iMin: int, i: int)
    requires Offered(rows, rowids, C, nPS, mx, a, a', i) && MinOk(mx, a', iMin)
    ensures Store(rows, rowids, C, nPS, mx, a', iMin, i)
  {
    hide Selected, Pending, Ascending, HasP, MinOk;
  }

  lemma StopStore(rows: seq<Row>, rowids: seq<int>, C: nat, nPS: nat, mx: nat, a: seq<Sample>, iMin: int, pNew: Sample,
                  nEqZero: nat)
    requires InsertReady(rows, rowids, C, nPS, mx, a, iMin, pNew, nEqZero)
    requires Offered(rows, rowids, C, nPS, mx, a, a, ColumnAfter(C, pNew))
    ensures Store(rows, rowids, C, nPS, mx, a, iMin, ColumnAfter(C, pNew))
  {
    hide Selected, Pending, Ascending, HasP, AtLeast, Candidate, Taken;
  }

  // ----- One row, on values -----

  lemma StoreMin(rows: seq<Row>, rowids: seq<int>, C: nat, nPS: nat, mx: nat, a: seq<Sample>, iMin: int, i: int)
    requires Store(rows, rowids, C, nPS, mx, a, iMin, i) && |a| >= mx
    ensures 0 <= iMin < |a| && !a[iMin].isPSample && |a[iMin].anEq| == C && a[iMin].iCol < C
  {
    hide Selected, Sorted, Pending, Ascending, AtLeast;
    PendingRated(rows, rowids, C, nPS, a, i);
  }

  lemma BetterWeight(C: nat, x: Sample, y: Sample)
    requires |x.anEq| == |y.anEq| == C && x.iCol < C && y.iCol < C
    ensures if Better(C, x, y) then Weight(x) >= Weight(y) else Weight(x) <= Weight(y)
  {
    hide BetterPost;
  }

  lemma Offer(rows: seq<Row>, rowids: seq<int>, C: nat, nPS: nat, mx: nat, a: seq<Sample>, iMin: int, s: Sample, i: nat)
    requires Store(rows, rowids, C, nPS, mx, a, iMin, i) && Candidate(rows, rowids, C, s, i) && mx > 0 && nPS > 0
    requires |a| >= mx ==> 0 <= iMin < |a| && Weight(s) >= Weight(a[iMin])
    ensures InsertReady(rows, rowids, C, nPS, mx, a, iMin, s, i) && s.iCol == i && !s.isPSample
  {
    hide Store, Weight, Taken, Current;
  }

  lemma PassStore(rows: seq<Row>, rowids: seq<int>, C: nat, nPS: nat, mx: nat, a: seq<Sample>, iMin: int, s: Sample,
                  i: nat)
    requires Store(rows, rowids, C, nPS, mx, a, iMin, i) && Candidate(rows, rowids, C, s, i) && |a| >= mx
    requires 0 <= iMin < |a| && Weight(s) <= Weight(a[iMin])
    ensures Store(rows, rowids, C, nPS, mx, a, iMin, i - 1)
  {
    hide Selected, Pending, Ascending, HasP, AtLeast, Candidate, Weight;
    PassKeeps(rows, rowids, C, nPS, mx, a, iMin, s, i);
  }

  /** What is retained when the runs of the last row in the columns from n have ended, and are accounted for. */
  ghost predicate ClosedStore(rows: seq<Row>, rowids: seq<int>, C: nat, nPS: nat, mx: nat, a: seq<Sample>, iMin: int,
                              n: nat) {
    && AllClosed(rows, rowids, C, nPS, a, n) && Ascending(C, a) && |a| <= mx && MinOk(mx, a, iMin)
    && Selected(rows, C, mx, a, n - 1)
  }

  ghost predicate AllFilled(C: nat, a: seq<Sample>, a': seq<Sample>, cur: Sample, n: nat) {
    |a'| == |a| && forall k :: 0 <= k < |a| ==> Filled(C, a[k], a'[k], cur, n)
  }

  ghost predicate Filled(C: nat, s: Sample, s': Sample, cur: Sample, n: nat) {
    |s.anEq| == |cur.anEq| == C && s' == s.(anEq := FillZeros(s.anEq, cur.anEq, n))
  }

  lemma FilledStore(rows: seq<Row>, rowids: seq<int>, C: nat, nPS: nat, mx: nat, a: seq<Sample>, a': seq<Sample>,
                    iMin: int, cur: Sample,
                    n: nat)
    requires Store(rows, rowids, C, nPS, mx, a, iMin, n - 1) && AllFilled(C, a, a', cur, n)
      && IsLast(rows, rowids, C, cur)
    requires Periodic(rows, C, nPS, a)
    ensures ClosedStore(rows, rowids, C, nPS, mx, a', iMin, n) && Periodic(rows, C, nPS, a')
  {
    hide Selected, Pending, Ascending, HasP, MinOk, Weight, CountP, IsLast, Closed, FillZeros;
    forall k | 0 <= k < |a|
      ensures Closed(rows, rowids, C, nPS, a'[k], n) && SameSample(C, a[k], a'[k])
    {
      assert Filled(C, a[k], a'[k], cur, n);
      assert Pending(rows, rowids, C, nPS, a[k], n - 1);
      FilledClosed(rows, rowids, C, nPS, a[k], cur, n);
    }
    SameStore(C, mx, a, a', iMin);
    SameSelected(rows, C, mx, a, a', n - 1);
  }

  lemma ClosedStoreNext(rows: seq<Row>, rowids: seq<int>, C: nat, nPS: nat, mx: nat, a: seq<Sample>, iMin: int, n: nat,
                        row: Row, id: int)
    requires NextAt(rows, C, row, n) && ClosedStore(rows, rowids, C, nPS, mx, a, iMin, n)
    ensures Store(rows + [row], rowids + [id], C, nPS, mx, a, iMin, C - 2)
    ensures forall k :: 0 <= k < |a| ==> RowOf(C, a[k]) < |rows|
  {
    hide Selected, Pending, Ascending, MinOk, RowOf, NextAt, ClosedAt;
    var rows', rowids' := rows + [row], rowids + [id];
    forall k | 0 <= k < |a|
      ensures Pending(rows', rowids', C, nPS, a[k], C - 2) && RowOf(C, a[k]) < |rows|
    {
      assert Closed(rows, rowids, C, nPS, a[k], n);
      ClosedNext(rows, rowids, C, nPS, row, id, n, a[k]);
    }
    SelectedNext(rows, C, mx, row, n, a);
  }

  lemma FirstStore(rows: seq<Row>, rowids: seq<int>, C: nat, nPS: nat, mx: nat, iMin: int)
    requires Sorted(rows, C) && |rows| == 1 && mx > 0
    ensures Store(rows, rowids, C, nPS, mx, [], iMin, C - 2)
  {
    hide Covered;
    forall q, j | 0 <= q < |rows| && 0 <= j < C
      ensures Current(rows, C, q, j)
    {
      LastIsCurrent(rows, C, j);
    }
  }

  // Nothing but the counts and the rowid matters.
  lemma LastAgain(rows: seq<Row>, rowids: seq<int>, C: nat, s: Sample, s': Sample)
    requires IsLast(rows, rowids, C, s) && s'.anEq == s.anEq && s'.anLt == s.anLt && s'.anDLt == s.anDLt
      && s'.iRowid == s.iRowid
    ensures IsLast(rows, rowids, C, s')
  {
    assert RowOf(C, s') == RowOf(C, s);
    forall j | 0 <= j < C
      ensures TakenAt(rows, C, s', j) && Counted(rows, C, s', j)
    {
      assert TakenAt(rows, C, s, j) && Counted(rows, C, s, j);
    }
  }

  /** The periodic samples, when the new row is not to be one of them. */
  lemma NotPeriodic(rows: seq<Row>, C: nat, nPS: nat, a: seq<Sample>, row: Row)
    requires Periodic(rows, C, nPS, a) && !IsPeriodic(|rows|, nPS)
    ensures Periodic(rows + [row], C, nPS, a)
  {
    hide CountP, HasP, IsPeriodic;
    PeriodicStep(|rows|, nPS);
    forall q | 0 <= q < |rows| + 1 && (q + 1) % nPS == 0
      ensures HasP(C, a, q)
    {}
  }

  lemma NextPeriodic(rows: seq<Row>, C: nat, nPS: nat, a: seq<Sample>, a': seq<Sample>, row: Row)
    requires Periodic(rows, C, nPS, a) && IsPeriodic(|rows|, nPS) && CountP(a') == CountP(a) + 1
    requires HasP(C, a', |rows|) && forall q :: HasP(C, a, q) ==> HasP(C, a', q)
    ensures Periodic(rows + [row], C, nPS, a')
  {
    hide CountP, HasP, IsPeriodic;
    PeriodicStep(|rows|, nPS);
    forall q | 0 <= q < |rows| + 1 && (q + 1) % nPS == 0
      ensures HasP(C, a', q)
    {}
  }

  lemma LastShape(rows: seq<Row>, rowids: seq<int>, C: nat, s: Sample)
    requires IsLast(rows, rowids, C, s)
    ensures |s.anEq| == |s.anLt| == |s.anDLt| == C && C > 0 && |rowids| == |rows|
  {
    hide TakenAt, Counted;
  }

  lemma StoreShape(rows: seq<Row>, rowids: seq<int>, C: nat, nPS: nat, mx: nat, a: seq<Sample>, iMin: int, i: int)
    requires Store(rows, rowids, C, nPS, mx, a, iMin, i)
    ensures forall k :: 0 <= k < |a| ==> |a[k].anEq| == C
  {
    hide Selected, Sorted, Pending, Ascending, AtLeast;
    forall k | 0 <= k < |a|
      ensures |a[k].anEq| == C
    {
      PendingShape(rows, rowids, C, nPS, a[k], i);
    }
  }

  // The inner loop over the columns from n on.
  method FillCounts(anEq: seq<nat>, cur: seq<nat>, n: nat) returns (r: seq<nat>)
    requires |anEq| == |cur| && n <= |anEq|
    ensures r == FillZeros(anEq, cur, n)
  {
    r := anEq;
    var j := n;
    while j < |anEq|
      invariant n <= j <= |anEq| == |r|
      invariant forall k :: 0 <= k < |anEq| ==> r[k] == if n <= k < j && anEq[k] == 0 then cur[k] else anEq[k]
    {
      if r[j] == 0 {
        r := r[j := cur[j]];
      }
      j := j + 1;
    }
  }

  ghost predicate RowCounted(rows: seq<Row>, rowids: seq<int>, C: nat, nPS: nat, mx: nat, a: seq<Sample>, iMin: int,
                             current: Sample) {
    && IsLast(rows, rowids, C, current) && Shape(C, current) && Store(rows, rowids, C, nPS, mx, a, iMin, C - 2)
    && forall k :: 0 <= k < |a| ==> RowOf(C, a[k]) < |rows| - 1
  }

  lemma AdvancedShape(C: nat, s: Sample, n: nat)
    requires Shape(C, s)
    ensures Shape(C, Advanced(C, s, n))
  {}

  lemma EmptyPeriodic(C: nat, nPS: nat)
    requires nPS > 0
    ensures Periodic([], C, nPS, [])
  {
    DivUnique(0, nPS, 0, 0);
  }

  lemma LastRowOf(rows: seq<Row>, rowids: seq<int>, C: nat, s: Sample)
    requires IsLast(rows, rowids, C, s)
    ensures C > 0 && |s.anLt| == C && s.anLt[C - 1] == |rows| - 1
  {
    hide TakenAt, Counted;
  }

  lemma OfferLast(rows: seq<Row>, rowids: seq<int>, C: nat, nPS: nat, mx: nat, a: seq<Sample>, iMin: int, s: Sample)
    requires IsLast(rows, rowids, C, s) && s.isPSample && s.iCol == 0 && mx > 0 && nPS > 0 && |rows| % nPS == 0
    requires Store(rows, rowids, C, nPS, mx, a, iMin, C - 2) && forall k :: 0 <= k < |a| ==> RowOf(C, a[k]) < |rows| - 1
    ensures C > 0 && InsertReady(rows, rowids, C, nPS, mx, a, iMin, s, C - 1)
  {
    hide TakenAt, Store, Sorted;
    LastShape(rows, rowids, C, s);
    assert Counted(rows, C, s, C - 1);
  }

  /** With every run ended, no count is left to be filled in. */
  lemma ClosedExact(rows: seq<Row>, rowids: seq<int>, C: nat, nPS: nat, mx: nat, a: seq<Sample>, iMin: int)
    requires ClosedStore(rows, rowids, C, nPS, mx, a, iMin, 0)
    ensures forall k :: 0 <= k < |a| ==> Exact(rows, rowids, C, a[k])
    ensures forall q, j :: 0 <= q < |rows| && 0 <= j < C - 1 ==> Covered(rows, C, mx, a, P(rows, q, j))
  {
    hide Covered, Taken, Sorted, Counted, Current;
    forall k | 0 <= k < |a|
      ensures Exact(rows, rowids, C, a[k])
    {
      assert Closed(rows, rowids, C, nPS, a[k], 0);
      ExactAt(rows, rowids, C, nPS, a[k]);
    }
  }

  lemma ExactAt(rows: seq<Row>, rowids: seq<int>, C: nat, nPS: nat, s: Sample)
    requires Closed(rows, rowids, C, nPS, s, 0)
    ensures Exact(rows, rowids, C, s)
  {
    forall j | 0 <= j < C
      ensures Counted(rows, C, s, j)
    {
      assert ClosedAt(rows, C, s, 0, j);
    }
  }

  class Stat4Accum {
    const nCol: nat
    const mxSample: nat
    const nPSample: nat
    var nRow: nat
    var current: Sample
    var iPrn: nat
    var aBest: seq<Sample>
    var iMin: int
    var a: seq<Sample>

    // The index that is being scanned, of nEst rows; rows and rowids are what has been seen of it.
    ghost const nEst: nat
    ghost var rows: seq<Row>
    ghost var rowids: seq<int>

    ghost predicate Valid()
      reads this
    {
      && nCol > 0 && mxSample > 0 && nPSample == Period(nEst, mxSample)
      && nRow == |rows| == |rowids| <= nEst && |aBest| == nCol && Shape(nCol, current)
      && (forall i :: 0 <= i < nCol ==> Shape(nCol, aBest[i]) && aBest[i].iCol == i)
      && (if rows == [] then a == [] && forall j :: 0 <= j < nCol ==> current.anLt[j] == 0 && current.anDLt[j] == 0
          else Scanned(rows, rowids, nCol, nPSample, mxSample, a, iMin, aBest, current))
    }

    constructor (nCol: nat, nRowEst: nat, mxSample: nat, seed: nat)
      requires nCol > 0 && mxSample > 0
      ensures Valid() && rows == [] && rowids == [] && a == [] && nEst == nRowEst
      ensures this.nCol == nCol && this.mxSample == mxSample
    {
      var zero := Sample(seq(nCol, _ => 0), seq(nCol, _ => 0), seq(nCol, _ => 0), 0, false, 0, 0);
      this.nCol, this.mxSample, nPSample := nCol, mxSample, nRowEst / (mxSample / 3 + 1) + 1;
      nEst := nRowEst;
      nRow, current, iPrn, iMin, a := 0, zero, seed, 0, [];
      aBest := seq(nCol, i requires 0 <= i < nCol => zero.(iCol := i));
      rows, rowids := [], [];
    }

    /**
    What sampleInsert leaves is one of three things: nothing new, where a periodic sample shares the run; the best
    sample that shares it, taken for this column now; or the new sample after all others, iMin having made room.
    */
    method SampleInsert(pNew: Sample, nEqZero: nat, ghost nPeriods: nat)
      requires InsertReady(rows, rowids, nCol, nPSample, mxSample, a, iMin, pNew, nEqZero) && CountP(a) == nPeriods
      requires nPeriods + (if pNew.isPSample then 1 else 0) < mxSample
      modifies `a, `iMin
      ensures Inserted(nCol, mxSample, old(a), old(iMin), pNew, nEqZero, a)
      ensures Store(rows, rowids, nCol, nPSample, mxSample, a, iMin, ColumnAfter(nCol, pNew))
      ensures CountP(a) == nPeriods + if pNew.isPSample then 1 else 0
      ensures forall q :: HasP(nCol, old(a), q) ==> HasP(nCol, a, q)
      ensures pNew.isPSample ==> HasP(nCol, a, |rows| - 1)
      ensures a == old(a) || |a| < mxSample || LeastGood(nCol, a, iMin)
    {
      hide InsertReady, Store, Offered, HasP, CountP, Better, BestSharing, Shares, ZeroFirst;
      ReadyShape(rows, rowids, nCol, nPSample, mxSample, a, iMin, pNew, nEqZero);
      var upgraded := false;
      ghost var a0 := a;
      if !pNew.isPSample {
        var stop, u := FindUpgrade(rows, rowids, nCol, nPSample, a, pNew);
        if stop {
          InsertedKeeps(rows, rowids, nCol, nPSample, mxSample, a, iMin, pNew, nEqZero, a);
          StopStore(rows, rowids, nCol, nPSample, mxSample, a, iMin, pNew, nEqZero);
          return;
        }
        if u >= 0 {
          SharingShape(nCol, a, pNew.iCol, u);
          a := a[u := a[u].(iCol := pNew.iCol, anEq := a[u].anEq[pNew.iCol := pNew.anEq[pNew.iCol]])];
          upgraded := true;
          assert a == a0[u := Raised(a0[u], pNew)];
        }
      }
      if !upgraded {
        if |a| >= mxSample {
          a := a[..iMin] + a[iMin + 1..];
        }
        a := a + [pNew.(anEq := ZeroFirst(pNew.anEq, nEqZero))];
        assert a == Room(mxSample, a0, iMin) + [Zeroed(pNew, nEqZero)];
      }
      assert Inserted(nCol, mxSample, a0, iMin, pNew, nEqZero, a);
      InsertedKeeps(rows, rowids, nCol, nPSample, mxSample, a0, iMin, pNew, nEqZero, a);
      OfferedRated(rows, rowids, nCol, nPSample, mxSample, a0, a, ColumnAfter(nCol, pNew));
      if |a| >= mxSample {
        iMin := FindNewMin(nCol, a);
      }
      OfferedStore(rows, rowids, nCol, nPSample, mxSample, a0, a, iMin, ColumnAfter(nCol, pNew));
    }

    // The anEq of all samples, from column iChng on.
    method UpdateCounts(iChng: nat)
      requires iChng < nCol && |current.anEq| == nCol && forall k :: 0 <= k < |a| ==> |a[k].anEq| == nCol
      modifies `a
      ensures AllFilled(nCol, old(a), a, current, iChng)
    {
      hide FillZeros;
      ghost var a0 := a;
      var i := |a|;
      while i > 0
        invariant 0 <= i <= |a| == |a0|
        invariant forall k :: 0 <= k < i ==> a[k] == a0[k]
        invariant forall k :: i <= k < |a| ==> Filled(nCol, a0[k], a[k], current, iChng)
      {
        i := i - 1;
        var anEq := FillCounts(a[i].anEq, current.anEq, iChng);
        a := a[i := a[i].(anEq := anEq)];
      }
    }

    method SamplePushPrevious(iChng: nat)
      requires Valid() && rows != [] && iChng < nCol
      modifies `a, `iMin, `aBest
      ensures ClosedStore(rows, rowids, nCol, nPSample, mxSample, a, iMin, iChng) && Periodic(rows, nCol, nPSample, a)
      ensures |aBest| == nCol && Bests(rows, rowids, nCol, aBest)
      ensures forall i :: 0 <= i < nCol ==> Shape(nCol, aBest[i]) && aBest[i].iCol == i
      ensures forall i :: 0 <= i < iChng ==> aBest[i] == old(aBest)[i]
    {
      hide IsLast, Best, Store, CountP, HasP, Better, Weight, ClosedStore, Candidate, InsertReady, Inserted, LeastGood;
      LastShape(rows, rowids, nCol, current);
      ghost var n := CountP(a);
      FewPeriods(nEst, mxSample, |rows|);
      var i: int := nCol - 2;
      while i >= iChng
        invariant iChng - 1 <= i <= nCol - 2
        invariant Store(rows, rowids, nCol, nPSample, mxSample, a, iMin, i) && Periodic(rows, nCol, nPSample, a)
        invariant |aBest| == nCol && Bests(rows, rowids, nCol, aBest)
        invariant forall k :: 0 <= k < nCol ==> Shape(nCol, aBest[k]) && aBest[k].iCol == k
        invariant forall k :: 0 <= k < iChng ==> aBest[k] == old(aBest)[k]
      {
        assert Best(rows, rowids, nCol, aBest[i], i);
        BestEnds(rows, rowids, nCol, aBest[i], current, i);
        aBest := aBest[i := aBest[i].(anEq := aBest[i].anEq[i := current.anEq[i]])];
        var pBest := aBest[i];
        var insert := true;
        if |a| >= mxSample {
          StoreMin(rows, rowids, nCol, nPSample, mxSample, a, iMin, i);
          insert := SampleIsBetter(nCol, pBest, a[iMin]);
          BetterWeight(nCol, pBest, a[iMin]);
        }
        if insert {
          Offer(rows, rowids, nCol, nPSample, mxSample, a, iMin, pBest, i);
          SampleInsert(pBest, i, n);
        } else {
          PassStore(rows, rowids, nCol, nPSample, mxSample, a, iMin, pBest, i);
        }
        i := i - 1;
      }
      StoreShape(rows, rowids, nCol, nPSample, mxSample, a, iMin, i);
      ghost var a0 := a;
      UpdateCounts(iChng);
      FilledStore(rows, rowids, nCol, nPSample, mxSample, a0, a, iMin, current, iChng);
    }

    // anEq, anLt and anDLt of the current row.
    method Advance(iChng: nat)
      requires iChng < nCol && Shape(nCol, current)
      modifies `current
      ensures current == Advanced(nCol, old(current), iChng)
    {
      var anEq, anLt, anDLt := current.anEq, current.anLt, current.anDLt;
      var i := 0;
      while i < iChng
        invariant 0 <= i <= iChng && |anEq| == nCol
        invariant forall j :: 0 <= j < nCol ==> anEq[j] == current.anEq[j] + if j < i then 1 else 0
      {
        anEq := anEq[i := anEq[i] + 1];
        i := i + 1;
      }
      while i < nCol
        invariant iChng <= i <= nCol && |anEq| == |anLt| == |anDLt| == nCol
        invariant forall j :: 0 <= j < nCol ==>
          anEq[j] == if j < iChng then current.anEq[j] + 1 else if j < i then 1 else current.anEq[j]
        invariant forall j :: 0 <= j < nCol ==>
          anLt[j] == current.anLt[j] + if iChng <= j < i then current.anEq[j] else 0
        invariant forall j :: 0 <= j < nCol ==> anDLt[j] == current.anDLt[j] + if iChng <= j < i then 1 else 0
      {
        anDLt := anDLt[i := anDLt[i] + 1];
        anLt := anLt[i := anLt[i] + anEq[i]];
        anEq := anEq[i := 1];
        i := i + 1;
      }
      current := current.(anEq := anEq, anLt := anLt, anDLt := anDLt);
    }

    // The first row: 1 in all of anEq.
    method FirstCounts()
      requires Shape(nCol, current)
      modifies `current
      ensures current == old(current).(anEq := current.anEq) && |current.anEq| == nCol
      ensures forall j :: 0 <= j < nCol ==> current.anEq[j] == 1
    {
      var anEq := current.anEq;
      var i := 0;
      while i < nCol
        invariant 0 <= i <= nCol == |anEq| && forall j :: 0 <= j < i ==> anEq[j] == 1
      {
        anEq := anEq[i := 1];
        i := i + 1;
      }
      current := current.(anEq := anEq);
    }

    // The counts of the row after the last one, and of the samples that the last one completes.
    method CountNext(iChng: nat, ghost rowid: int, ghost row: Row)
      requires Valid() && rows != [] && Sorted(rows + [row], nCol) && NextAt(rows, nCol, row, iChng)
      modifies `a, `iMin, `aBest, `current
      ensures current == Advanced(nCol, old(current), iChng) && IsLast(rows, rowids, nCol, old(current))
      ensures RowCounted(rows + [row], rowids + [rowid], nCol, nPSample, mxSample, a, iMin, current.(iRowid := rowid))
      ensures Periodic(rows, nCol, nPSample, a) && Bests(rows, rowids, nCol, aBest)
      ensures |aBest| == nCol && forall i :: 0 <= i < nCol ==> Shape(nCol, aBest[i]) && aBest[i].iCol == i
      ensures forall i :: 0 <= i < iChng ==> aBest[i] == old(aBest)[i]
    {
      hide IsLast, Store, Sorted, Periodic, HasP, Bests, NextAt, ClosedStore, RowOf, Advanced;
      NextBound(rows, nCol, row, iChng);
      SamplePushPrevious(iChng);
      LastNext(rows, rowids, nCol, row, rowid, iChng, current);
      ClosedStoreNext(rows, rowids, nCol, nPSample, mxSample, a, iMin, iChng, row, rowid);
      Advance(iChng);
      AdvancedShape(nCol, old(current), iChng);
    }

    // The counts of the first row.
    method CountFirst(ghost rowid: int, ghost row: Row)
      requires Valid() && rows == [] && Sorted(rows + [row], nCol)
      modifies `current
      ensures RowCounted(rows + [row], rowids + [rowid], nCol, nPSample, mxSample, a, iMin, current.(iRowid := rowid))
      ensures Periodic(rows, nCol, nPSample, a)
    {
      hide IsLast, Store, Periodic, HasP, Sorted, RowOf, Scanned;
      assert rows + [row] == [row] && rowids + [rowid] == [rowid];
      FirstCounts();
      EmptyPeriodic(nCol, nPSample);
      FirstRow(nCol, row, rowid, current.(iRowid := rowid));
      FirstStore([row], [rowid], nCol, nPSample, mxSample, iMin);
    }

    // The counts of the new row.
    method CountRow(iChng: nat, rowid: int, ghost row: Row)
      requires Valid() && Sorted(rows + [row], nCol) && |rows| < nEst
      requires if rows == [] then iChng == 0 else NextAt(rows, nCol, row, iChng)
      modifies this
      ensures rows == old(rows) + [row] && rowids == old(rowids) + [rowid] && nRow == |rows| == |rowids|
      ensures RowCounted(rows, rowids, nCol, nPSample, mxSample, a, iMin, current)
      ensures Periodic(old(rows), nCol, nPSample, a)
      ensures |aBest| == nCol && forall i :: 0 <= i < nCol ==> Shape(nCol, aBest[i]) && aBest[i].iCol == i
      ensures old(rows) != [] ==>
        Bests(old(rows), old(rowids), nCol, aBest) && IsLast(old(rows), old(rowids), nCol, old(current))
      ensures old(rows) != [] ==> Shape(nCol, old(current)) && current.anEq == Advanced(nCol, old(current), iChng).anEq
      ensures forall i :: 0 <= i < iChng ==> aBest[i] == old(aBest)[i]
      ensures iPrn == (old(iPrn) * 1103515245 + 12345) % 0x1_0000_0000 == current.iHash
    {
      hide IsLast, Store, Sorted, Periodic, HasP, Bests, NextAt, RowOf, Advanced, Scanned;
      if nRow == 0 {
        CountFirst(rowid, row);
      } else {
        CountNext(iChng, rowid, row);
      }
      nRow := nRow + 1;
      rows, rowids := rows + [row], rowids + [rowid];
      ghost var s := current.(iRowid := rowid);
      iPrn := (iPrn * 1103515245 + 12345) % 0x1_0000_0000;
      current := current.(iRowid := rowid, iHash := iPrn);
      LastAgain(rows, rowids, nCol, s, current);
    }

    // The new row, if it is to be a periodic sample.
    method TakePeriodic(ghost rows0: seq<Row>)
      requires nCol > 0 && mxSample > 0 && nPSample == Period(nEst, mxSample) && |rows| == |rows0| + 1 <= nEst
        && rows == rows0 + [rows[|rows0|]]
      requires RowCounted(rows, rowids, nCol, nPSample, mxSample, a, iMin, current)
        && Periodic(rows0, nCol, nPSample, a)
      modifies `a, `iMin, `current
      ensures current == old(current).(iCol := current.iCol) && IsLast(rows, rowids, nCol, current)
      ensures Store(rows, rowids, nCol, nPSample, mxSample, a, iMin, nCol - 2) && Periodic(rows, nCol, nPSample, a)
    {
      hide IsLast, Store, HasP, CountP, IsPeriodic, Inserted, LeastGood, InsertReady;
      LastShape(rows, rowids, nCol, current);
      LastRowOf(rows, rowids, nCol, current);
      var nLt := current.anLt[nCol - 1];
      PeriodicStep(nLt, nPSample);
      FewPeriods(nEst, mxSample, |rows|);
      if IsPeriodic(nLt, nPSample) {
        current := current.(isPSample := true, iCol := 0);
        LastAgain(rows, rowids, nCol, old(current), current);
        OfferLast(rows, rowids, nCol, nPSample, mxSample, a, iMin, current);
        SampleInsert(current, nCol - 1, CountP(a));
        NextPeriodic(rows0, nCol, nPSample, old(a), a, rows[|rows0|]);
        current := current.(isPSample := false);
        LastAgain(rows, rowids, nCol, old(current), current);
      } else {
        NotPeriodic(rows0, nCol, nPSample, a, rows[|rows0|]);
      }
    }

    // The best samples of the columns, now that there is one more.
    method UpdateBests(iChng: nat, ghost rows0: seq<Row>, ghost rowids0: seq<int>, ghost row: Row, ghost rowid: int,
                       ghost cur0: Sample)
      requires nCol > 0 && rows == rows0 + [row] && rowids == rowids0 + [rowid] && Shape(nCol, current)
        && IsLast(rows, rowids, nCol, current)
      requires if rows0 == [] then iChng == 0 else
        NextAt(rows0, nCol, row, iChng) && Bests(rows0, rowids0, nCol, aBest) && IsLast(rows0, rowids0, nCol, cur0)
        && Shape(nCol, cur0) && current.anEq == Advanced(nCol, cur0, iChng).anEq
      requires |aBest| == nCol && forall i :: 0 <= i < nCol ==> Shape(nCol, aBest[i]) && aBest[i].iCol == i
      modifies `aBest, `current
      ensures current == old(current).(iCol := current.iCol) && IsLast(rows, rowids, nCol, current)
      ensures |aBest| == nCol && forall i :: 0 <= i < nCol ==> Shape(nCol, aBest[i]) && aBest[i].iCol == i
      ensures Bests(rows, rowids, nCol, aBest)
      ensures forall i :: 0 <= i < nCol - 1 ==>
        aBest[i] == BestNow(nCol, i, iChng, current.(iCol := i), old(aBest)[i])
    {
      hide IsLast, Best, NextAt, Advanced;
      ghost var aBest0, current0 := aBest, current;
      var i := 0;
      while i < nCol - 1
        invariant 0 <= i <= nCol && (i < nCol || nCol == 0) && |aBest| == nCol
        invariant current == current0.(iCol := current.iCol) && IsLast(rows, rowids, nCol, current)
        invariant forall k :: 0 <= k < nCol ==> Shape(nCol, aBest[k]) && aBest[k].iCol == k
        invariant forall k :: 0 <= k < i ==> Best(rows, rowids, nCol, aBest[k], k)
        invariant forall k :: i <= k < nCol ==> aBest[k] == aBest0[k]
        invariant forall k :: 0 <= k < i ==> aBest[k] == BestNow(nCol, k, iChng, current0.(iCol := k), aBest0[k])
      {
        LastAgain(rows, rowids, nCol, current, current.(iCol := i));
        current := current.(iCol := i);
        var better := i >= iChng;
        if !better {
          better := SampleIsBetterPost(nCol, current, aBest[i]);
          assert Best(rows0, rowids0, nCol, aBest[i], i);
          if !better {
            BestStays(rows0, rowids0, nCol, row, rowid, iChng, aBest[i], cur0, current, i);
          }
        }
        if better {
          BestIsLast(rows, rowids, nCol, current, i);
          aBest := aBest[i := current];
        }
        i := i + 1;
      }
    }

    /** The next row of the index, in which iChng is the first column to differ from the one before. */
    method StatPush(iChng: nat, rowid: int, ghost row: Row)
      requires Valid() && Sorted(rows + [row], nCol) && |rows| < nEst
      requires if rows == [] then iChng == 0 else NextAt(rows, nCol, row, iChng)
      modifies this
      ensures Valid() && rows == old(rows) + [row] && rowids == old(rowids) + [rowid]
      ensures iPrn == (old(iPrn) * 1103515245 + 12345) % 0x1_0000_0000 == current.iHash
      ensures forall i :: 0 <= i < nCol - 1 ==>
        aBest[i] == BestNow(nCol, i, iChng, current.(iCol := i), old(aBest)[i])
    {
      hide IsLast, Store, Sorted, Periodic, Bests, NextAt;
      ghost var rows0, rowids0, cur0 := rows, rowids, current;
      CountRow(iChng, rowid, row);
      TakePeriodic(rows0);
      UpdateBests(iChng, rows0, rowids0, row, rowid, cur0);
    }

    /** The end of the scan: every sample is of a row of the index, with the true counts for every prefix. */
    method Close()
      requires Valid() && rows != []
      modifies `a, `iMin, `aBest
      ensures forall k :: 0 <= k < |a| ==> Exact(rows, rowids, nCol, a[k])
      ensures Ascending(nCol, a) && |a| <= mxSample && PeriodOf(nPSample, nEst, mxSample)
      ensures Periodic(rows, nCol, nPSample, a)
      ensures forall q, j :: 0 <= q < |rows| && 0 <= j < nCol - 1 ==> Covered(rows, nCol, mxSample, a, P(rows, q, j))
    {
      hide Store, HasP, Covered, IsLast, Periodic, CountP, Bests, Scanned;
      SamplePushPrevious(0);
      PeriodIs(nEst, mxSample);
      ClosedExact(rows, rowids, nCol, nPSample, mxSample, a, iMin);
    }
  }

  // ----- The scan -----

  /** Rows next to each other differ in the columns that are tested, or in the one after them. */
  ghost predicate Told(rows: seq<Row>, C: nat, nColTest: nat) {
    Sorted(rows, C) && nColTest < C && forall q, r :: 0 <= q && r == q + 1 < |rows| ==>
      FirstDiff(rows[q], rows[r]) <= nColTest
  }

  /** It is enough to test all columns but the last one. */
  lemma AllTold(rows: seq<Row>, C: nat)
    requires Sorted(rows, C)
    ensures Told(rows, C, C - 1)
  {
    forall q, r | 0 <= q && r == q + 1 < |rows|
      ensures FirstDiff(rows[q], rows[r]) <= C - 1
    {
      assert Less(rows[q], rows[r]);
      LessIrreflexive(rows[r]);
      assert rows[q][..C] == rows[q] && rows[r][..C] == rows[r];
    }
  }

  lemma SameUpTo(a: Row, b: Row, n: nat)
    requires n <= |a| && n <= |b| && a[..n] == b[..n]
    ensures forall i :: 0 <= i < n ==> a[i] == b[i]
  {
    forall i | 0 <= i < n
      ensures a[i] == b[i]
    {
      assert a[..n][i] == b[..n][i];
    }
  }

  // The first column that has changed; regPrev holds the tested columns of the row before.
  method FirstChange(regPrev: seq<int>, row: Row, nColTest: nat, ghost prev: Row) returns (regChng: nat)
    requires nColTest == |regPrev| < |row| == |prev| && regPrev == prev[..nColTest] && FirstDiff(prev, row) <= nColTest
    ensures regChng == FirstDiff(prev, row)
  {
    regChng := 0;
    ghost var d := FirstDiff(prev, row);
    while regChng < nColTest && row[regChng] == regPrev[regChng]
      invariant regChng <= nColTest && prev[..regChng] == row[..regChng]
    {
      regChng := regChng + 1;
      assert prev[..regChng] == prev[..regChng - 1] + [prev[regChng - 1]];
      assert row[..regChng] == row[..regChng - 1] + [row[regChng - 1]];
    }
    SameUpTo(prev, row, regChng);
    SameUpTo(prev, row, d);
  }

  lemma RowAt(rows: seq<Row>, C: nat, nColTest: nat, q: nat)
    requires Told(rows, C, nColTest) && q < |rows|
    ensures Sorted(rows[..q] + [rows[q]], C) && rows[..q + 1] == rows[..q] + [rows[q]] && |rows[q]| == C
    ensures q > 0 ==>
      && |rows[q - 1]| == C && FirstDiff(rows[q - 1], rows[q]) <= nColTest
      && NextAt(rows[..q], C, rows[q], FirstDiff(rows[q - 1], rows[q]))
  {
    SortedPrefix(rows, C, q + 1);
    assert rows[..q + 1] == rows[..q] + [rows[q]];
    if q > 0 {
      var p := q - 1;
      assert FirstDiff(rows[p], rows[q]) <= nColTest;
      assert rows[..q][|rows[..q]| - 1] == rows[q - 1];
    }
  }

  /**
  The statistics of a whole index: every sample is exact, every nPS-th row is sampled as such, and no other, and every
  prefix is covered.
  */
  ghost predicate Analyzed(rows: seq<Row>, rowids: seq<int>, C: nat, mx: nat, nPS: nat, a: seq<Sample>)
    requires mx > 0
  {
    && |a| <= mx && Ascending(C, a) && (forall k :: 0 <= k < |a| ==> Exact(rows, rowids, C, a[k]))
    && PeriodOf(nPS, |rows|, mx) && Periodic(rows, C, nPS, a)
    && (forall q, j :: 0 <= q < |rows| && 0 <= j < C - 1 ==> Covered(rows, C, mx, a, P(rows, q, j)))
  }

  /** One scan over an index, row by row, with the change of columns found by comparing each row with the one before. */
  method Scan(rows: seq<Row>, rowids: seq<int>, nCol: nat, nColTest: nat, mxSample: nat, seed: nat)
    returns (p: Stat4Accum)
    requires Told(rows, nCol, nColTest) && |rowids| == |rows| && mxSample > 0
    ensures fresh(p) && p.nCol == nCol && p.mxSample == mxSample
    ensures if rows == [] then p.a == [] else Analyzed(rows, rowids, nCol, mxSample, p.nPSample, p.a)
  {
    hide Sorted, NextAt, Exact, Covered, HasP, Ascending, Scanned;
    p := new Stat4Accum(nCol, |rows|, mxSample, seed);
    var regPrev, regChng: nat := seq(nColTest, _ => 0), 0;
    for q := 0 to |rows|
      invariant fresh(p) && p.Valid() && p.rows == rows[..q] && p.rowids == rowids[..q] && p.nEst == |rows|
      invariant p.nCol == nCol && p.mxSample == mxSample && |regPrev| == nColTest
      invariant q > 0 ==> |rows[q - 1]| == nCol && regPrev == rows[q - 1][..nColTest]
      invariant q == 0 ==> p.a == []
    {
      RowAt(rows, nCol, nColTest, q);
      regChng := 0;
      if q > 0 {
        regChng := FirstChange(regPrev, rows[q], nColTest, rows[q - 1]);
      }
      assert regPrev[..regChng] == rows[q][..regChng];
      regPrev := regPrev[..regChng] + rows[q][regChng..nColTest];
      p.StatPush(regChng, rowids[q], rows[q]);
      assert rowids[..q + 1] == rowids[..q] + [rowids[q]];
    }
    assert rows[..|rows|] == rows && rowids[..|rows|] == rowids;
    if rows != [] {
      p.Close();
    }
  }

  /** No two rows have the same key. */
  ghost predicate KeysDistinct(rows: seq<Row>, nKeyCol: nat) {
    forall q, r :: 0 <= q < r < |rows| ==>
      nKeyCol <= |rows[q]| && nKeyCol <= |rows[r]| && rows[q][..nKeyCol] != rows[r][..nKeyCol]
  }

  lemma ShorterSame(a: Row, b: Row, d: nat, n: nat)
    requires n <= d <= |a| && d <= |b| && a[..d] == b[..d]
    ensures a[..n] == b[..n]
  {
    assert a[..n] == a[..d][..n] && b[..n] == b[..d][..n];
  }

  /** In a unique index without NULLs it is enough to test all columns of the key but the last one. */
  lemma UniqueTold(rows: seq<Row>, C: nat, nKeyCol: nat)
    requires Sorted(rows, C) && 0 < nKeyCol <= C && KeysDistinct(rows, nKeyCol)
    ensures Told(rows, C, nKeyCol - 1)
  {
    forall q, r | 0 <= q && r == q + 1 < |rows|
      ensures FirstDiff(rows[q], rows[r]) <= nKeyCol - 1
    {
      var d := FirstDiff(rows[q], rows[r]);
      if d >= nKeyCol {
        ShorterSame(rows[q], rows[r], d, nKeyCol);
      }
    }
  }

  /** The scan of any index with as many columns tested as analyzeOneTable has it. */
  method AnalyzeIndex(rows: seq<Row>, rowids: seq<int>, nCol: nat, nKeyCol: nat, uniqNotNull: bool, mxSample: nat,
                      seed: nat)
    returns (p: Stat4Accum)
    requires Sorted(rows, nCol) && |rowids| == |rows| && mxSample > 0 && 0 < nKeyCol <= nCol
    requires uniqNotNull ==> KeysDistinct(rows, nKeyCol)
    ensures fresh(p) && p.nCol == nCol && p.mxSample == mxSample
    ensures if rows == [] then p.a == [] else Analyzed(rows, rowids, nCol, mxSample, p.nPSample, p.a)
  {
    hide Sorted, Told, Analyzed, KeysDistinct;
    AllTold(rows, nCol);
    if uniqNotNull {
      UniqueTold(rows, nCol, nKeyCol);
    }
    p := Scan(rows, rowids, nCol, if uniqNotNull then nKeyCol - 1 else nCol - 1, mxSample, seed);
  }
}
