/**
Sets of page numbers (bitvec.c) in three forms: a bitmap when the largest number is small; a hash table with open
addressing; and, when that gets full, an array of smaller sets.
*/
module Bitvec {
  import opened Arith

  /**
  The sizes of the three forms: bytes of the bitmap, slots of the hash table, when it is divided, and into how many.
  */
  datatype Config = Config(nElem: nat, nInt: nat, mxHash: nat, nPtr: nat)
  {
    predicate Valid() {
      nElem > 0 && 2 <= nInt && mxHash == nInt / 2 && 2 <= nPtr < 0x1_0000_0000
    }

    function NBit(): nat { nElem * 8 }
  }

  // ----- The bitmap -----

  // 1 << k
  function Mask(k: nat): bv8
    requires k < 8
  {
    if k == 0 then 1 else if k == 1 then 2 else if k == 2 then 4 else if k == 3 then 8
    else if k == 4 then 16 else if k == 5 then 32 else if k == 6 then 64 else 128
  }

  lemma MaskSet(x: bv8, k: nat, j: nat)
    requires k < 8 && j < 8
    ensures (x | Mask(k)) & Mask(j) != 0 <==> j == k || x & Mask(j) != 0
  {}

  lemma MaskClear(x: bv8, k: nat, j: nat)
    requires k < 8 && j < 8
    ensures (x & !Mask(k)) & Mask(j) != 0 <==> j != k && x & Mask(j) != 0
  {}

  // Bit r of byte q.
  predicate BitIn(a: seq<bv8>, q: nat, r: nat)
    requires r < 8
  {
    q < |a| && a[q] & Mask(r) != 0
  }

  // Whether bit i is set; bits are counted from 0 here.
  predicate BitAt(a: seq<bv8>, i: nat) {
    BitIn(a, i / 8, i % 8)
  }

  lemma BitSetIn(a: seq<bv8>, q: nat, r: nat, q': nat, r': nat)
    requires q < |a| && r < 8 && r' < 8
    ensures BitIn(a[q := a[q] | Mask(r)], q', r') <==> (q' == q && r' == r) || BitIn(a, q', r')
  {
    hide Mask;
    MaskSet(a[q], r, r');
  }

  lemma BitClearIn(a: seq<bv8>, q: nat, r: nat, q': nat, r': nat)
    requires q < |a| && r < 8 && r' < 8
    ensures BitIn(a[q := a[q] & !Mask(r)], q', r') <==> !(q' == q && r' == r) && BitIn(a, q', r')
  {
    hide Mask;
    MaskClear(a[q], r, r');
  }

  lemma BitSet(a: seq<bv8>, i: nat, j: nat)
    requires i / 8 < |a|
    ensures BitAt(a[i / 8 := a[i / 8] | Mask(i % 8)], j) <==> j == i || BitAt(a, j)
  {
    hide Mask, BitIn;
    assert j == i <==> j / 8 == i / 8 && j % 8 == i % 8;
    BitSetIn(a, i / 8, i % 8, j / 8, j % 8);
  }

  lemma BitClear(a: seq<bv8>, i: nat, j: nat)
    requires i / 8 < |a|
    ensures BitAt(a[i / 8 := a[i / 8] & !Mask(i % 8)], j) <==> j != i && BitAt(a, j)
  {
    hide Mask, BitIn;
    assert j == i <==> j / 8 == i / 8 && j % 8 == i % 8;
    BitClearIn(a, i / 8, i % 8, j / 8, j % 8);
  }

  // ----- The hash table -----

  function Hash(n: nat, x: nat): (h: nat)
    requires n > 0
    ensures h < n
  {
    x % n
  }

  // The slot k places after h, around the end.
  function Slot(n: nat, h: nat, k: nat): nat {
    if h + k < n then h + k else h + k - n
  }

  // How many places after h a slot is.
  function Dist(n: nat, h: nat, s: nat): nat {
    if s >= h then s - h else if s + n >= h then s + n - h else 0
  }

  function Count(t: seq<nat>): nat {
    if t == [] then 0 else Count(t[..|t| - 1]) + if t[|t| - 1] != 0 then 1 else 0
  }

  // The k slots from h on are taken.
  ghost predicate Taken(t: seq<nat>, h: nat, k: nat) {
    forall d :: 0 <= d < k ==> TakenAt(t, h, d)
  }

  ghost predicate TakenAt(t: seq<nat>, h: nat, d: nat) {
    Slot(|t|, h, d) < |t| && t[Slot(|t|, h, d)] != 0
  }

  // A value is found from its hash slot: there is no empty slot on the way to it.
  ghost predicate Reached(t: seq<nat>, s: nat) {
    s < |t| && (t[s] != 0 ==> Taken(t, Hash(|t|, t[s] - 1), Dist(|t|, Hash(|t|, t[s] - 1), s)))
  }

  /** A hash table of distinct values, each found from its slot, and with an empty slot. */
  ghost predicate TableOk(t: seq<nat>, nSet: nat, iSize: nat) {
    && |t| >= 2 && nSet == Count(t) < |t|
    && (forall s :: 0 <= s < |t| ==> t[s] <= iSize)
    && (forall s :: 0 <= s < |t| ==> Reached(t, s))
    && (forall r, s :: 0 <= r < s < |t| && t[r] != 0 ==> t[r] != t[s])
  }

  lemma {:induction false} CountPut(t: seq<nat>, s: nat, v: nat)
    requires s < |t| && t[s] == 0 && v != 0
    ensures Count(t[s := v]) == Count(t) + 1
  {
    var n := |t| - 1;
    if s < n {
      CountPut(t[..n], s, v);
      assert t[s := v][..n] == t[..n][s := v];
    } else {
      assert t[s := v][..n] == t[..n];
    }
  }

  lemma {:induction false} EmptySlot(t: seq<nat>) returns (e: nat)
    requires Count(t) < |t|
    ensures e < |t| && t[e] == 0
  {
    var n := |t| - 1;
    if t[n] == 0 {
      e := n;
    } else {
      e := EmptySlot(t[..n]);
    }
  }

  lemma {:induction false} CountEmpty(t: seq<nat>)
    requires forall s :: 0 <= s < |t| ==> t[s] == 0
    ensures Count(t) == 0
  {
    if t != [] {
      CountEmpty(t[..|t| - 1]);
    }
  }

  lemma EmptyTable(n: nat, iSize: nat)
    requires n >= 2
    ensures TableOk(seq(n, _ => 0), 0, iSize)
  {
    CountEmpty(seq(n, _ => 0));
  }

  // The slots before k are taken by other values than v, and slot k is empty: v is nowhere.
  lemma NotFound(t: seq<nat>, nSet: nat, iSize: nat, v: nat, k: nat)
    requires TableOk(t, nSet, iSize) && v > 0 && k < |t| && t[Slot(|t|, Hash(|t|, v - 1), k)] == 0
    requires forall d :: 0 <= d < k ==> OtherAt(t, v, d)
    ensures v !in t
  {
    assert !TakenAt(t, Hash(|t|, v - 1), k);
    if v in t {
      var d := PlaceOf(t, nSet, iSize, v);
    }
  }

  // How far from its hash slot a value is.
  lemma PlaceOf(t: seq<nat>, nSet: nat, iSize: nat, v: nat) returns (d: nat)
    requires TableOk(t, nSet, iSize) && v > 0 && v in t
    ensures d < |t| && t[Slot(|t|, Hash(|t|, v - 1), d)] == v && Taken(t, Hash(|t|, v - 1), d) && !OtherAt(t, v, d)
  {
    var s :| 0 <= s < |t| && t[s] == v;
    assert Reached(t, s);
    d := Dist(|t|, Hash(|t|, v - 1), s);
    assert Slot(|t|, Hash(|t|, v - 1), d) == s;
  }

  ghost predicate OtherAt(t: seq<nat>, v: nat, d: nat)
    requires v > 0
  {
    |t| > 0 && Slot(|t|, Hash(|t|, v - 1), d) < |t| && t[Slot(|t|, Hash(|t|, v - 1), d)] != 0
      && t[Slot(|t|, Hash(|t|, v - 1), d)] != v
  }

  /** A new value goes to the first empty slot from its hash slot on. */
  lemma PutKeeps(t: seq<nat>, nSet: nat, iSize: nat, v: nat, k: nat)
    requires TableOk(t, nSet, iSize) && 0 < v <= iSize && v !in t && k < |t| && nSet + 1 < |t|
    requires Taken(t, Hash(|t|, v - 1), k) && t[Slot(|t|, Hash(|t|, v - 1), k)] == 0
    ensures TableOk(t[Slot(|t|, Hash(|t|, v - 1), k) := v], nSet + 1, iSize)
  {
    hide Hash;
    var n, h := |t|, Hash(|t|, v - 1);
    var s := Slot(n, h, k);
    var t' := t[s := v];
    CountPut(t, s, v);
    forall r | 0 <= r < n
      ensures Reached(t', r)
    {
      assert Reached(t, r);
      if r == s {
        assert Dist(n, h, s) == k;
        TakenMore(t, s, v, h, k);
      } else if t[r] != 0 {
        TakenMore(t, s, v, Hash(n, t[r] - 1), Dist(n, Hash(n, t[r] - 1), r));
      }
    }
  }

  lemma TakenMore(t: seq<nat>, s: nat, v: nat, h: nat, k: nat)
    requires Taken(t, h, k) && s < |t| && v != 0
    ensures Taken(t[s := v], h, k)
  {
    var t' := t[s := v];
    forall d | 0 <= d < k
      ensures TakenAt(t', h, d)
    {
      assert TakenAt(t, h, d);
    }
  }

  /** The values of a hash table. */
  function Values(t: seq<nat>): set<nat> {
    set v | v in t && v != 0
  }

  lemma ValuesPut(t: seq<nat>, s: nat, v: nat)
    requires s < |t| && t[s] == 0 && v != 0
    ensures Values(t[s := v]) == Values(t) + {v}
  {
    var t' := t[s := v];
    forall x
      ensures x in Values(t') <==> x in Values(t) + {v}
    {
      if x in t && x != 0 {
        var r :| 0 <= r < |t| && t[r] == x;
        assert t'[r] == x;
      }
      assert t'[s] == v;
    }
  }

  // ----- The divided form -----

  function Ceil(n: nat, d: nat): nat
    requires d > 0
  {
    (n + d - 1) / d
  }

  // iDivisor as 32-bit arithmetic gives it.
  function Divisor32(iSize: nat, nPtr: nat): nat
    requires nPtr > 0
  {
    ((iSize + nPtr - 1) % 0x1_0000_0000) / nPtr
  }

  /** The divisor is right exactly when the sum fits in 32 bits. */
  lemma DivisorFits(iSize: nat, nPtr: nat)
    requires 0 < iSize < 0x1_0000_0000 && 2 <= nPtr < 0x1_0000_0000
    ensures Divisor32(iSize, nPtr) == Ceil(iSize, nPtr) <==> iSize + nPtr - 1 < 0x1_0000_0000
  {
    var x: nat := iSize + nPtr - 1;
    if x >= 0x1_0000_0000 {
      var q, r := DivMod(x, nPtr);
      var q', r' := DivMod(x - 0x1_0000_0000, nPtr);
      assert x % 0x1_0000_0000 == x - 0x1_0000_0000;
      if q' >= q {
        MulLe(q, q', nPtr);
      }
    }
  }

  /** Where the sum does not fit, the divisor is 0, whatever the size. */
  lemma DivisorWraps(iSize: nat, nPtr: nat)
    requires 0 < iSize < 0x1_0000_0000 && 2 <= nPtr < 0x1_0000_0000
    ensures Divisor32(iSize, nPtr) == 0 <==> iSize + nPtr - 1 >= 0x1_0000_0000
  {
    var x: nat := iSize + nPtr - 1;
    var y := x % 0x1_0000_0000;
    var q, r := DivMod(y, nPtr);
    if x >= 0x1_0000_0000 {
      assert y == x - 0x1_0000_0000 < nPtr;
      if q >= 1 {
        MulLe(1, q, nPtr);
      }
    } else {
      assert y == x >= nPtr;
    }
  }

  lemma CeilBounds(n: nat, d: nat)
    requires n >= 2 && d >= 2
    ensures 0 < Ceil(n, d) < n
    ensures forall i :: 0 <= i < n ==> i / Ceil(n, d) < d
  {
    var x: nat := n + d - 1;
    var q, r := DivMod(x, d);
    assert q * d >= n;
    assert q < n by {
      if q >= n {
        MulLe(n, q, d);
        MulLe(2, d, n);
      }
    }
    forall i | 0 <= i < n
      ensures i / q < d
    {
      var k, s := DivMod(i, q);
      if k >= d {
        MulLe(d, k, q);
      }
    }
  }

  // Which part holds a value, and what it is there; values are counted from 1.
  function BinOf(div: nat, v: nat): nat
    requires div > 0 && v > 0
  {
    (v - 1) / div
  }

  function Inner(div: nat, v: nat): nat
    requires div > 0 && v > 0
  {
    (v - 1) % div + 1
  }

  lemma InnerBounds(div: nat, v: nat)
    requires div > 0 && v > 0
    ensures 1 <= Inner(div, v) <= div
  {}

  // Different values are in different parts, or different there.
  lemma InnerDistinct(div: nat, v: nat, w: nat)
    requires div > 0 && v > 0 && w > 0 && BinOf(div, v) == BinOf(div, w) && Inner(div, v) == Inner(div, w)
    ensures v == w
  {
    var q, r := DivMod(v - 1, div);
    var q', r' := DivMod(w - 1, div);
  }

  // ----- The three forms together -----

  // The probing loop of sqlite3BitvecTest.
  method Probe(t: seq<nat>, v: nat, ghost nSet: nat, ghost iSize: nat) returns (r: bool)
    requires TableOk(t, nSet, iSize) && v > 0
    ensures r <==> v in Values(t)
  {
    var slot, k := FindSlot(t, v, nSet, iSize);
    r := t[slot] == v;
    if !r {
      NotFound(t, nSet, iSize, v, k);
    }
  }

  // The first slot from the hash slot of v on that is empty or holds v.
  method FindSlot(t: seq<nat>, v: nat, ghost nSet: nat, ghost iSize: nat) returns (slot: nat, ghost k: nat)
    requires TableOk(t, nSet, iSize) && v > 0
    ensures k < |t| && slot == Slot(|t|, Hash(|t|, v - 1), k) < |t| && (t[slot] == 0 || t[slot] == v)
    ensures forall d :: 0 <= d < k ==> OtherAt(t, v, d)
  {
    hide Hash, TableOk;
    TableSize(t, nSet, iSize);
    ghost var e := EmptySlot(t);
    ghost var h := Hash(|t|, v - 1);
    ghost var last := Dist(|t|, h, e);
    assert Slot(|t|, h, last) == e;
    slot, k := Hash(|t|, v - 1), 0;
    while t[slot] != 0 && t[slot] != v
      invariant k <= last < |t| && slot == Slot(|t|, h, k) < |t|
      invariant forall d :: 0 <= d < k ==> OtherAt(t, v, d)
      decreases last - k
    {
      assert OtherAt(t, v, k);
      slot := if slot + 1 >= |t| then 0 else slot + 1;
      k := k + 1;
    }
  }

  lemma TableSize(t: seq<nat>, nSet: nat, iSize: nat)
    requires TableOk(t, nSet, iSize)
    ensures |t| >= 2 && Count(t) < |t| && nSet == Count(t)
  {}

  // A new value is put where the probing ended.
  lemma PutHere(t: seq<nat>, nSet: nat, iSize: nat, v: nat, k: nat)
    requires TableOk(t, nSet, iSize) && 0 < v <= iSize && v !in t && k < |t| && nSet + 1 < |t|
    requires t[Slot(|t|, Hash(|t|, v - 1), k)] == 0 && forall d :: 0 <= d < k ==> OtherAt(t, v, d)
    ensures TableOk(t[Slot(|t|, Hash(|t|, v - 1), k) := v], nSet + 1, iSize)
  {
    hide Hash, TableOk;
    var h := Hash(|t|, v - 1);
    forall d | 0 <= d < k
      ensures TakenAt(t, h, d)
    {
      assert OtherAt(t, v, d);
    }
    PutKeeps(t, nSet, iSize, v, k);
  }

  lemma ValuesNext(t: seq<nat>, j: nat)
    requires j < |t|
    ensures Values(t[..j + 1]) == Values(t[..j]) + if t[j] != 0 then {t[j]} else {}
  {
    assert t[..j + 1] == t[..j] + [t[j]];
  }

  lemma ValuesEmpty(t: seq<nat>)
    ensures Values(t[..0]) == {}
  {}

  lemma CeilFits(iSize: nat, cfg: Config)
    requires cfg.Valid() && iSize > cfg.NBit() && iSize + cfg.nPtr - 1 < 0x1_0000_0000
    ensures 0 < Ceil(iSize, cfg.nPtr) < iSize && Ceil(iSize, cfg.nPtr) + cfg.nPtr - 1 < 0x1_0000_0000
  {
    CeilBounds(iSize, cfg.nPtr);
  }

  lemma BinFits(iSize: nat, cfg: Config, v: nat)
    requires cfg.Valid() && iSize > cfg.NBit() && 1 <= v <= iSize
    ensures Ceil(iSize, cfg.nPtr) > 0 && BinOf(Ceil(iSize, cfg.nPtr), v) < cfg.nPtr
  {
    CeilBounds(iSize, cfg.nPtr);
  }

  lemma BitmapPut(bits: set<nat>, a: seq<bv8>, iSize: nat, i: nat)
    requires 1 <= i <= iSize <= |a| * 8 && forall v :: 1 <= v <= iSize ==> (v in bits <==> BitAt(a, v - 1))
    ensures var a' := a[(i - 1) / 8 := a[(i - 1) / 8] | Mask((i - 1) % 8)];
      forall v :: 1 <= v <= iSize ==> (v in bits + {i} <==> BitAt(a', v - 1))
  {
    hide BitAt, Mask;
    var a' := a[(i - 1) / 8 := a[(i - 1) / 8] | Mask((i - 1) % 8)];
    forall v | 1 <= v <= iSize
      ensures v in bits + {i} <==> BitAt(a', v - 1)
    {
      BitSet(a, i - 1, v - 1);
    }
  }

  lemma BitmapCut(bits: set<nat>, a: seq<bv8>, iSize: nat, i: nat)
    requires 1 <= i <= iSize <= |a| * 8 && forall v :: 1 <= v <= iSize ==> (v in bits <==> BitAt(a, v - 1))
    ensures var a' := a[(i - 1) / 8 := a[(i - 1) / 8] & !Mask((i - 1) % 8)];
      forall v :: 1 <= v <= iSize ==> (v in bits - {i} <==> BitAt(a', v - 1))
  {
    hide BitAt, Mask;
    var a' := a[(i - 1) / 8 := a[(i - 1) / 8] & !Mask((i - 1) % 8)];
    forall v | 1 <= v <= iSize
      ensures v in bits - {i} <==> BitAt(a', v - 1)
    {
      BitClear(a, i - 1, v - 1);
    }
  }

  lemma TableValues(t: seq<nat>, nSet: nat, iSize: nat)
    requires TableOk(t, nSet, iSize)
    ensures forall s :: 0 <= s < |t| ==> t[s] <= iSize
  {}

  // A hash table with the values of t but for v.
  method Rebuild(aiValues: seq<nat>, v: nat, ghost nSet0: nat, ghost iSize: nat) returns (t: seq<nat>, nSet: nat)
    requires TableOk(aiValues, nSet0, iSize) && v > 0
    ensures |t| == |aiValues| && TableOk(t, nSet, iSize) && Values(t) == Values(aiValues) - {v}
  {
    hide TableOk, Values, OtherAt;
    TableSize(aiValues, nSet0, iSize);
    t, nSet := seq(|aiValues|, _ => 0), 0;
    EmptyTable(|aiValues|, iSize);
    ValuesEmpty(aiValues);
    ValuesNone(t);
    var j := 0;
    while j < |aiValues|
      invariant 0 <= j <= |aiValues| == |t| && TableOk(t, nSet, iSize)
      invariant Values(t) == Values(aiValues[..j]) - {v} && nSet <= Count(aiValues[..j])
    {
      ValuesNext(aiValues, j);
      var x := aiValues[j];
      CountNext(aiValues, j);
      if x != 0 && x != v {
        ValueNew(aiValues, nSet0, iSize, j, t);
        var h, k := FindSlot(t, x, nSet, iSize);
        PutHere(t, nSet, iSize, x, k);
        ValuesPut(t, h, x);
        nSet := nSet + 1;
        t := t[h := x];
      }
      j := j + 1;
    }
    assert aiValues[..|aiValues|] == aiValues;
  }

  lemma ValuesNone(t: seq<nat>)
    requires forall s :: 0 <= s < |t| ==> t[s] == 0
    ensures Values(t) == {}
  {}

  lemma {:induction false} CountMonotone(t: seq<nat>, j: nat)
    requires j <= |t|
    ensures Count(t[..j]) <= Count(t)
  {
    if j < |t| {
      CountMonotone(t[..|t| - 1], j);
      assert t[..|t| - 1][..j] == t[..j];
    } else {
      assert t[..j] == t;
    }
  }

  lemma CountNext(t: seq<nat>, j: nat)
    requires j < |t|
    ensures Count(t[..j + 1]) == Count(t[..j]) + (if t[j] != 0 then 1 else 0) <= Count(t)
  {
    CountMonotone(t, j + 1);
    assert t[..j + 1][..j] == t[..j];
  }

  // The next value has not been put yet.
  lemma ValueNew(t: seq<nat>, nSet: nat, iSize: nat, j: nat, t': seq<nat>)
    requires TableOk(t, nSet, iSize) && j < |t| && t[j] != 0 && Values(t') <= Values(t[..j])
    ensures t[j] !in t' && t[j] <= iSize
  {
    var x := t[j];
    assert x !in t[..j] && x !in Values(t[..j]);
    assert x in t' ==> x in Values(t');
  }

  // ----- A table that is divided by 0 -----

  // The first slot, from k places after the hash slot of v on, that is empty or holds v.
  function FirstSlot(t: seq<nat>, v: nat, k: nat): (slot: nat)
    requires |t| > 0 && v > 0
    ensures slot < |t|
    decreases |t| - k
  {
    var slot := Slot(|t|, Hash(|t|, v - 1), k);
    if k >= |t| || slot >= |t| then 0 else if t[slot] == 0 || t[slot] == v then slot else FirstSlot(t, v, k + 1)
  }

  /** When sqlite3BitvecSet does not put a value into the table, but clears the table and sets all values anew. */
  predicate Divides(t: seq<nat>, nSet: nat, mxHash: nat, v: nat)
    requires |t| > 0 && v > 0
  {
    v !in t && if t[Hash(|t|, v - 1)] != 0 then nSet >= mxHash else nSet >= |t| - 1
  }

  datatype Option = None | Some(t: seq<nat>, nSet: nat)

  /**
  sqlite3BitvecSet on a hash table when the divisor comes out as 0, within `depth` calls of each other: it is a hash
  table still, now empty, but nSet stays as it was, and the values are set one after the other.
  */
  function SetNested(t: seq<nat>, nSet: nat, mxHash: nat, v: nat, depth: nat): Option
    requires |t| > 0 && v > 0
    decreases depth, 0
  {
    if depth == 0 then None
    else if v in t then Some(t, nSet)
    else if !Divides(t, nSet, mxHash, v) then Some(t[FirstSlot(t, v, 0) := v], nSet + 1)
    else
      var r := SetNested(seq(|t|, _ => 0), nSet, mxHash, v, depth - 1);
      if r.None? || r.t == [] then None else SetAll(r.t, r.nSet, mxHash, t, depth - 1)
  }

  // The values of vs, one after the other.
  function SetAll(t: seq<nat>, nSet: nat, mxHash: nat, vs: seq<nat>, depth: nat): Option
    requires |t| > 0
    decreases depth, |vs| + 1
  {
    if vs == [] then Some(t, nSet)
    else
      var r := SetAll(t, nSet, mxHash, vs[..|vs| - 1], depth);
      if r.None? || r.t == [] || vs[|vs| - 1] == 0 then r else SetNested(r.t, r.nSet, mxHash, vs[|vs| - 1], depth)
  }

  lemma {:induction false} FirstSlotFree(t: seq<nat>, v: nat, k: nat, nSet: nat, iSize: nat) returns (n: nat)
    requires TableOk(t, nSet, iSize) && v > 0 && v !in t && k < |t| && forall d :: 0 <= d < k ==> OtherAt(t, v, d)
    ensures n < |t| && FirstSlot(t, v, k) == Slot(|t|, Hash(|t|, v - 1), n) && t[FirstSlot(t, v, k)] == 0
    ensures forall d :: 0 <= d < n ==> OtherAt(t, v, d)
    decreases |t| - k
  {
    var slot := Slot(|t|, Hash(|t|, v - 1), k);
    var e := EmptySlot(t);
    var last := Dist(|t|, Hash(|t|, v - 1), e);
    assert Slot(|t|, Hash(|t|, v - 1), last) == e && !OtherAt(t, v, last);
    if t[slot] == 0 {
      n := k;
    } else {
      assert OtherAt(t, v, k) && k < last < |t|;
      n := FirstSlotFree(t, v, k + 1, nSet, iSize);
    }
  }

  /** A value that goes into the table as it is. */
  lemma PutPlainly(t: seq<nat>, nSet: nat, mxHash: nat, v: nat, iSize: nat)
    requires TableOk(t, Count(t), iSize) && 0 < v <= iSize && v !in t && Count(t) <= nSet && mxHash < |t|
    requires !Divides(t, nSet, mxHash, v)
    ensures var t' := t[FirstSlot(t, v, 0) := v];
      TableOk(t', Count(t) + 1, iSize) && Values(t') == Values(t) + {v} && nSet + 1 < |t|
  {
    var k := FirstSlotFree(t, v, 0, Count(t), iSize);
    PutHere(t, Count(t), iSize, v, k);
    ValuesPut(t, FirstSlot(t, v, 0), v);
  }

  // What a nested call leaves, if it returns: nSet has grown with every value that was set.
  ghost predicate Nested(t: seq<nat>, nSet: nat, t': seq<nat>, nSet': nat, new': nat, values: set<nat>, iSize: nat) {
    && |t'| == |t| && TableOk(t', Count(t'), iSize) && Count(t') <= nSet' && Values(t') == values
    && nSet' >= nSet + new' && (nSet' == nSet || nSet' < |t|)
  }

  lemma {:induction false} NestedSet(t: seq<nat>, nSet: nat, mxHash: nat, v: nat, depth: nat, iSize: nat)
    requires TableOk(t, Count(t), iSize) && Count(t) <= nSet && mxHash < |t| && 0 < v <= iSize
    ensures var r := SetNested(t, nSet, mxHash, v, depth);
      && (r.Some? ==> Nested(t, nSet, r.t, r.nSet, if v in t then 0 else 1, Values(t) + {v}, iSize))
      && (r.Some? && Divides(t, nSet, mxHash, v) ==> nSet + Count(t) + 1 < |t|)
    decreases depth, 0
  {
    hide TableOk, Values, FirstSlot, Hash;
    TableSize(t, Count(t), iSize);
    if depth == 0 {
    } else if v in t {
      InValues(t, v);
    } else if !Divides(t, nSet, mxHash, v) {
      PutPlainly(t, nSet, mxHash, v, iSize);
      TableSize(t[FirstSlot(t, v, 0) := v], Count(t) + 1, iSize);
    } else {
      var empty := seq(|t|, _ => 0);
      EmptyTable(|t|, iSize);
      TableSize(empty, 0, iSize);
      ValuesNone(empty);
      NestedSet(empty, nSet, mxHash, v, depth - 1, iSize);
      var r := SetNested(empty, nSet, mxHash, v, depth - 1);
      if r.Some? {
        TableSize(r.t, Count(r.t), iSize);
        assert t[..|t|] == t;
        NestedAll(r.t, r.nSet, mxHash, v, t, |t|, depth - 1, iSize);
      }
    }
  }

  lemma InValues(t: seq<nat>, v: nat)
    requires v in t && v > 0
    ensures Values(t) + {v} == Values(t)
  {}

  // The first j values of vs, after v.
  lemma {:induction false} NestedAll(t: seq<nat>, nSet: nat, mxHash: nat, v: nat, vs: seq<nat>, j: nat, depth: nat,
                                     iSize: nat)
    requires TableOk(t, Count(t), iSize) && Count(t) <= nSet < |t| && mxHash < |t| && Values(t) == {v} && v !in vs
    requires TableOk(vs, Count(vs), iSize) && j <= |vs|
    ensures var r := SetAll(t, nSet, mxHash, vs[..j], depth);
      r.Some? ==> Nested(t, nSet, r.t, r.nSet, Count(vs[..j]), {v} + Values(vs[..j]), iSize) && r.nSet < |t|
    decreases depth, j + 1
  {
    hide TableOk, Values, Hash;
    TableSize(t, Count(t), iSize);
    if j == 0 {
      ValuesEmpty(vs);
    } else {
      NestedAll(t, nSet, mxHash, v, vs, j - 1, depth, iSize);
      assert vs[..j][..j - 1] == vs[..j - 1];
      var r := SetAll(t, nSet, mxHash, vs[..j - 1], depth);
      ValuesNext(vs, j - 1);
      CountNext(vs, j - 1);
      if r.Some? && vs[j - 1] != 0 {
        TableSize(r.t, Count(r.t), iSize);
        NotYet(r.t, v, vs, j - 1, Count(vs), iSize);
        NestedSet(r.t, r.nSet, mxHash, vs[j - 1], depth, iSize);
        assert {v} + Values(vs[..j - 1]) + {vs[j - 1]} == {v} + Values(vs[..j]);
      }
    }
  }

  lemma NotYet(t: seq<nat>, v: nat, vs: seq<nat>, j: nat, nSet: nat, iSize: nat)
    requires TableOk(vs, nSet, iSize) && j < |vs| && vs[j] != 0 && v !in vs && Values(t) == {v} + Values(vs[..j])
    ensures vs[j] !in t && vs[j] <= iSize
  {
    var x := vs[j];
    assert x !in vs[..j] && x !in Values(vs[..j]);
    assert x in t ==> x in Values(t);
  }

  /**
  With a divisor of 0, setting a number returns, with the number in the table, exactly if the table need not be divided:
  otherwise the calls are nested without end.
  */
  lemma ReturnsUndivided(cfg: Config, t: seq<nat>, v: nat, iSize: nat)
    requires cfg.Valid() && |t| == cfg.nInt && TableOk(t, Count(t), iSize) && 0 < v <= iSize
    ensures Divides(t, Count(t), cfg.mxHash, v) ==>
      forall depth: nat :: SetNested(t, Count(t), cfg.mxHash, v, depth) == None
    ensures !Divides(t, Count(t), cfg.mxHash, v) ==>
      forall depth: nat :: depth > 0 ==>
        var r := SetNested(t, Count(t), cfg.mxHash, v, depth); r.Some? && Values(r.t) == Values(t) + {v}
  {
    hide TableOk, Values, FirstSlot, Hash;
    TableSize(t, Count(t), iSize);
    forall depth: nat
      ensures Divides(t, Count(t), cfg.mxHash, v) ==> SetNested(t, Count(t), cfg.mxHash, v, depth) == None
    {
      NestedSet(t, Count(t), cfg.mxHash, v, depth, iSize);
    }
    if v in t {
      InValues(t, v);
    } else if !Divides(t, Count(t), cfg.mxHash, v) {
      PutPlainly(t, Count(t), cfg.mxHash, v, iSize);
    }
  }

  class Bitvec {
    const cfg: Config
    const iSize: nat
    var nSet: nat
    var iDivisor: nat
    var aBitmap: seq<bv8>
    var aHash: seq<nat>
    var apSub: seq<Bitvec?>

    ghost var bits: set<nat>
    ghost var Repr: set<Bitvec>

    // The divisor is computed rightly.
    predicate Fits() {
      iSize + cfg.nPtr - 1 < 0x1_0000_0000
    }

    /** Setting a number would divide the hash table. */
    predicate WouldDivide(i: nat)
      requires i > 0 && cfg.Valid()
      reads this
    {
      iDivisor == 0 && iSize > cfg.NBit() && |aHash| == cfg.nInt && Divides(aHash, nSet, cfg.mxHash, i)
    }

    // What the form of this object says about its numbers.
    ghost predicate Form()
      reads this
    {
      && cfg.Valid() && 0 < iSize < 0x1_0000_0000 && (forall v :: v in bits ==> 1 <= v <= iSize)
      && (iDivisor != 0 ==>
            Fits() && iSize > cfg.NBit() && iDivisor == Ceil(iSize, cfg.nPtr) && |apSub| == cfg.nPtr)
      && (iDivisor == 0 && iSize <= cfg.NBit() ==>
            |aBitmap| == cfg.nElem && forall v :: 1 <= v <= iSize ==> (v in bits <==> BitAt(aBitmap, v - 1)))
      && (iDivisor == 0 && iSize > cfg.NBit() ==>
            |aHash| == cfg.nInt && TableOk(aHash, nSet, iSize) && bits == Values(aHash))
    }

    // A sub-set, when there is one, has objects of its own.
    ghost predicate SubAt(b: nat)
      reads this, Repr
      decreases Repr, 0
    {
      b < |apSub| && apSub[b] != null ==>
        apSub[b] in Repr && apSub[b].Repr <= Repr && this !in apSub[b].Repr && this in Repr
        && apSub[b].Valid() && apSub[b].iSize == iDivisor && apSub[b].cfg == cfg
    }

    ghost predicate Apart(b: nat, c: nat)
      reads this, Repr
    {
      b < |apSub| && c < |apSub| && apSub[b] != null && apSub[c] != null && apSub[b] in Repr && apSub[c] in Repr ==>
        apSub[b].Repr !! apSub[c].Repr
    }

    ghost predicate BitsAt(v: nat)
      requires v > 0 && iDivisor > 0
      reads this, Repr
    {
      v in bits <==>
        BinOf(iDivisor, v) < |apSub| && apSub[BinOf(iDivisor, v)] != null && apSub[BinOf(iDivisor, v)] in Repr
        && Inner(iDivisor, v) in apSub[BinOf(iDivisor, v)].bits
    }

    /** bits is the set that the object stands for; the sub-sets share no objects. */
    ghost predicate Valid()
      reads this, Repr
      decreases Repr, 1
    {
      && this in Repr && Form()
      && (iDivisor != 0 ==>
            && (forall b :: 0 <= b < |apSub| ==> SubAt(b))
            && (forall b, c :: 0 <= b < c < |apSub| ==> Apart(b, c))
            && (forall v :: 1 <= v <= iSize ==> BitsAt(v)))
    }

    /** sqlite3BitvecCreate. */
    constructor (cfg: Config, iSize: nat)
      requires cfg.Valid() && 0 < iSize < 0x1_0000_0000
      ensures Valid() && fresh(Repr) && bits == {} && this.iSize == iSize && this.cfg == cfg && iDivisor == 0
    {
      this.cfg, this.iSize := cfg, iSize;
      nSet, iDivisor := 0, 0;
      aBitmap, aHash, apSub := seq(cfg.nElem, _ => 0), seq(cfg.nInt, _ => 0), seq(cfg.nPtr, _ => null);
      bits, Repr := {}, {this};
      EmptyTable(cfg.nInt, iSize);
    }

    /** sqlite3BitvecTest: membership, whatever the form; it follows sub-sets, and probes end at an empty slot. */
    method Test(i: nat) returns (r: bool)
      requires Valid()
      ensures r <==> i in bits
    {
      if i > iSize || i == 0 {
        return false;
      }
      var p: Bitvec, v: nat := this, i;
      while p.iDivisor != 0
        invariant p.Valid() && 1 <= v <= p.iSize && (v in p.bits <==> i in bits)
        decreases p.iSize
      {
        CeilBounds(p.iSize, p.cfg.nPtr);
        InnerBounds(p.iDivisor, v);
        var bin := BinOf(p.iDivisor, v);
        assert p.SubAt(bin) && p.BitsAt(v);
        var q := p.apSub[bin];
        if q == null {
          return false;
        }
        v := Inner(p.iDivisor, v);
        p := q;
      }
      if p.iSize <= p.cfg.NBit() {
        r := BitAt(p.aBitmap, v - 1);
      } else {
        r := Probe(p.aHash, v, p.nSet, p.iSize);
      }
    }

    /**
    sqlite3BitvecSet: one number is added, whatever the form, and whether or not the hash table is divided. Where the
    divisor would be 0 a call that divides the table does not return, as ReturnsUndivided shows.
    */
    method Set(i: nat)
      requires Valid() && 1 <= i <= iSize && (Fits() || !WouldDivide(i))
      modifies Repr
      ensures Valid() && fresh(Repr - old(Repr)) && bits == old(bits) + {i}
      ensures old(iDivisor) != 0 ==> iDivisor == old(iDivisor)
      decreases iSize, if iDivisor == 0 then 3 else 1
    {
      if iSize > cfg.NBit() && iDivisor != 0 {
        SetSub(i);
      } else if iSize <= cfg.NBit() {
        SetBit(i);
      } else {
        SetHash(i);
      }
    }

    method SetBit(i: nat)
      requires Valid() && 1 <= i <= iSize <= cfg.NBit()
      modifies this
      ensures Valid() && Repr == old(Repr) && bits == old(bits) + {i} && iDivisor == old(iDivisor)
    {
      hide BitAt, Mask, TableOk, Config.Valid;
      BitmapPut(bits, aBitmap, iSize, i);
      aBitmap := aBitmap[(i - 1) / 8 := aBitmap[(i - 1) / 8] | Mask((i - 1) % 8)];
      bits := bits + {i};
    }

    // A number goes to the hash table, or the table is divided first.
    method SetHash(i: nat)
      requires Valid() && 1 <= i <= iSize && iDivisor == 0 && iSize > cfg.NBit() && (Fits() || !WouldDivide(i))
      modifies Repr
      ensures Valid() && fresh(Repr - old(Repr)) && bits == old(bits) + {i}
      decreases iSize, 2, 1
    {
      var collision := aHash[Hash(cfg.nInt, i - 1)] != 0;
      var h, k := FindSlot(aHash, i, nSet, iSize);
      if aHash[h] == i {
        assert bits == bits + {i};
        return;
      }
      NotFound(aHash, nSet, iSize, i, k);
      if (if collision then nSet >= cfg.mxHash else nSet >= cfg.nInt - 1) {
        Rehash(i);
      } else {
        PutHere(aHash, nSet, iSize, i, k);
        ValuesPut(aHash, h, i);
        nSet := nSet + 1;
        aHash := aHash[h := i];
        bits := bits + {i};
      }
    }

    // No sub-sets yet.
    method Divide()
      requires Valid() && iDivisor == 0 && iSize > cfg.NBit() && Fits()
      modifies this
      ensures Valid() && Repr == old(Repr) && bits == {} && iDivisor != 0
    {
      hide TableOk, BinOf, Inner;
      apSub := seq(cfg.nPtr, _ => null);
      iDivisor := Divisor32(iSize, cfg.nPtr);
      DivisorFits(iSize, cfg.nPtr);
      CeilFits(iSize, cfg);
      bits := {};
    }

    // The values of a full hash table, and a new one, go to sub-sets.
    method Rehash(i: nat)
      requires Valid() && 1 <= i <= iSize && iDivisor == 0 && iSize > cfg.NBit() && Fits()
      modifies Repr
      ensures Valid() && fresh(Repr - old(Repr)) && bits == old(bits) + {i}
      decreases iSize, 2, 0
    {
      hide TableOk, Values;
      var aiValues := aHash;
      TableValues(aiValues, nSet, iSize);
      Divide();
      Set(i);
      var j := 0;
      ValuesEmpty(aiValues);
      while j < |aiValues|
        invariant 0 <= j <= |aiValues| && Valid() && fresh(Repr - old(Repr)) && iDivisor != 0
        invariant bits == {i} + Values(aiValues[..j])
      {
        ValuesNext(aiValues, j);
        if aiValues[j] != 0 {
          Set(aiValues[j]);
        }
        j := j + 1;
      }
      assert aiValues[..|aiValues|] == aiValues;
      assert bits == Values(aiValues) + {i};
    }

    // The sub-set for a number is made if there is none.
    method MakeSub(bin: nat)
      requires Valid() && iDivisor != 0 && bin < |apSub|
      modifies this
      ensures Valid() && fresh(Repr - old(Repr)) && bits == old(bits) && iDivisor == old(iDivisor)
        && |apSub| == |old(apSub)|
      ensures apSub[bin] != null
    {
      hide Config.Valid, TableOk, Values, Ceil, BinOf, Inner;
      if apSub[bin] == null {
        CeilFits(iSize, cfg);
        var q := new Bitvec(cfg, iDivisor);
        apSub := apSub[bin := q];
        Repr := Repr + q.Repr;
        forall b | 0 <= b < |apSub|
          ensures SubAt(b) && (b != bin && apSub[b] != null ==> apSub[b].Repr <= old(Repr))
        {
          assert old(SubAt(b));
        }
        forall b, c | 0 <= b < c < |apSub|
          ensures Apart(b, c)
        {
          assert old(Apart(b, c));
        }
        forall v | 1 <= v <= iSize
          ensures BitsAt(v)
        {
          assert old(BitsAt(v));
        }
      }
    }

    // A number goes to the sub-set for it.
    method SetSub(i: nat)
      requires Valid() && 1 <= i <= iSize && iDivisor != 0
      modifies Repr
      ensures Valid() && fresh(Repr - old(Repr)) && bits == old(bits) + {i} && iDivisor == old(iDivisor)
      decreases iSize, 0
    {
      hide Config.Valid, TableOk, Values, Ceil, BinOf, Inner;
      CeilFits(iSize, cfg);
      InnerBounds(iDivisor, i);
      var bin, v := BinOf(iDivisor, i), Inner(iDivisor, i);
      BinFits(iSize, cfg, i);
      MakeSub(bin);
      assert SubAt(bin);
      var p: Bitvec := apSub[bin];
      label Before:
      p.Set(v);
      Repr := Repr + p.Repr;
      bits := bits + {i};
      forall b | 0 <= b < |apSub| && b != bin && apSub[b] != null
        ensures apSub[b].Repr == old@Before(apSub[b].Repr) && apSub[b].bits == old@Before(apSub[b].bits)
          && apSub[b].Valid()
      {
        assert old@Before(SubAt(b) && SubAt(bin));
        assert old@Before(apSub[b].Valid() && apSub[b] in apSub[b].Repr);
        if b < bin {
          assert old@Before(Apart(b, bin));
        } else {
          assert old@Before(Apart(bin, b));
        }
        assert old@Before(apSub[b].Repr !! p.Repr);
      }
      forall b | 0 <= b < |apSub|
        ensures SubAt(b)
      {
        assert old@Before(SubAt(b));
      }
      forall b, c | 0 <= b < c < |apSub|
        ensures Apart(b, c)
      {
        assert old@Before(Apart(b, c) && SubAt(b) && SubAt(c));
      }
      forall w | 1 <= w <= iSize
        ensures BitsAt(w)
      {
        assert old@Before(BitsAt(w));
        if BinOf(iDivisor, w) == bin && Inner(iDivisor, w) == v {
          InnerDistinct(iDivisor, w, i);
        }
      }
    }

    /** sqlite3BitvecClear: one number is taken away, whatever the form; the hash table is built again without it. */
    method Clear(i: nat)
      requires Valid() && 1 <= i <= iSize
      modifies Repr
      ensures Valid() && Repr == old(Repr) && bits == old(bits) - {i} && iDivisor == old(iDivisor)
      decreases iSize
    {
      if iDivisor != 0 {
        ClearSub(i);
      } else if iSize <= cfg.NBit() {
        hide BitAt, Mask, TableOk, Config.Valid;
        BitmapCut(bits, aBitmap, iSize, i);
        aBitmap := aBitmap[(i - 1) / 8 := aBitmap[(i - 1) / 8] & !Mask((i - 1) % 8)];
        bits := bits - {i};
      } else {
        hide TableOk, Values;
        aHash, nSet := Rebuild(aHash, i, nSet, iSize);
        bits := bits - {i};
      }
    }

    method ClearSub(i: nat)
      requires Valid() && 1 <= i <= iSize && iDivisor != 0
      modifies Repr
      ensures Valid() && Repr == old(Repr) && bits == old(bits) - {i} && iDivisor == old(iDivisor)
      decreases iSize, 0
    {
      hide Config.Valid, TableOk, Values, Ceil, BinOf, Inner;
      CeilFits(iSize, cfg);
      InnerBounds(iDivisor, i);
      var bin, v := BinOf(iDivisor, i), Inner(iDivisor, i);
      BinFits(iSize, cfg, i);
      assert SubAt(bin) && BitsAt(i);
      var p := apSub[bin];
      if p == null {
        assert bits - {i} == bits;
        return;
      }
      p.Clear(v);
      bits := bits - {i};
      forall b | 0 <= b < |apSub| && b != bin && apSub[b] != null
        ensures apSub[b].Repr == old(apSub[b].Repr) && apSub[b].bits == old(apSub[b].bits) && apSub[b].Valid()
      {
        assert old(SubAt(b) && SubAt(bin));
        assert old(apSub[b].Valid() && apSub[b] in apSub[b].Repr);
        if b < bin {
          assert old(Apart(b, bin));
        } else {
          assert old(Apart(bin, b));
        }
        assert old(apSub[b].Repr !! p.Repr);
      }
      forall b | 0 <= b < |apSub|
        ensures SubAt(b)
      {
        assert old(SubAt(b));
      }
      forall b, c | 0 <= b < c < |apSub|
        ensures Apart(b, c)
      {
        assert old(Apart(b, c));
      }
      forall w | 1 <= w <= iSize
        ensures BitsAt(w)
      {
        assert old(BitsAt(w));
        if BinOf(iDivisor, w) == bin && Inner(iDivisor, w) == v {
          InnerDistinct(iDivisor, w, i);
        }
      }
    }
  }

  datatype Op = SetOp(i: nat) | ClearOp(i: nat)

  /** The set after a run of operations. */
  function Model(bits: set<nat>, ops: seq<Op>): set<nat> {
    if ops == [] then bits
    else
      var o := ops[|ops| - 1];
      if o.SetOp? then Model(bits, ops[..|ops| - 1]) + {o.i} else Model(bits, ops[..|ops| - 1]) - {o.i}
  }

  // Setting i, with a divisor that is computed as 0, does not return.
  ghost predicate NeverReturns(p: Bitvec, i: nat)
    requires i > 0
    reads p
  {
    |p.aHash| > 0 && forall depth: nat :: SetNested(p.aHash, p.nSet, p.cfg.mxHash, i, depth) == None
  }

  /**
  After any run of sets and clears, Test answers membership in the set that the run leaves. For sizes for which the
  divisor wraps around, that is the run up to the first number whose setting does not return.
  */
  method Run(cfg: Config, iSize: nat, ops: seq<Op>, tests: seq<nat>)
    returns (done: nat, answers: seq<bool>, p: Bitvec)
    requires cfg.Valid() && 0 < iSize < 0x1_0000_0000
    requires forall k :: 0 <= k < |ops| ==> 1 <= ops[k].i <= iSize
    ensures done <= |ops| && (iSize + cfg.nPtr - 1 < 0x1_0000_0000 ==> done == |ops|)
    ensures p.iSize == iSize && p.cfg == cfg
    ensures done < |ops| ==> Divisor32(iSize, cfg.nPtr) == 0 && ops[done].SetOp? && NeverReturns(p, ops[done].i)
    ensures |answers| == |tests|
      && forall k :: 0 <= k < |tests| ==> (answers[k] <==> tests[k] in Model({}, ops[..done]))
  {
    hide Config.Valid, Divides, TableOk, Divisor32, SetNested, NeverReturns;
    p := new Bitvec(cfg, iSize);
    done := 0;
    while done < |ops| && (p.Fits() || ops[done].ClearOp? || !p.WouldDivide(ops[done].i))
      invariant 0 <= done <= |ops| && p.Valid() && fresh(p.Repr) && p.bits == Model({}, ops[..done])
      decreases |ops| - done
    {
      assert ops[..done + 1][..done] == ops[..done];
      match ops[done] {
        case SetOp(i) => p.Set(i);
        case ClearOp(i) => p.Clear(i);
      }
      done := done + 1;
    }
    if done < |ops| {
      Stuck(p, ops[done].i);
    }
    answers := [];
    var k := 0;
    while k < |tests|
      invariant 0 <= k <= |tests| && |answers| == k && p.Valid() && p.bits == Model({}, ops[..done])
      invariant forall l :: 0 <= l < k ==> (answers[l] <==> tests[l] in Model({}, ops[..done]))
      invariant done < |ops| ==> NeverReturns(p, ops[done].i)
    {
      var r := p.Test(tests[k]);
      answers := answers + [r];
      k := k + 1;
    }
  }

  lemma Stuck(p: Bitvec, i: nat)
    requires p.Valid() && 1 <= i <= p.iSize && !p.Fits() && p.WouldDivide(i)
    ensures NeverReturns(p, i) && Divisor32(p.iSize, p.cfg.nPtr) == 0
  {
    hide Divides, SetNested, Divisor32;
    DivisorWraps(p.iSize, p.cfg.nPtr);
    TableSize(p.aHash, p.nSet, p.iSize);
    ReturnsUndivided(p.cfg, p.aHash, i, p.iSize);
  }
}
