/**
The cache of what is known of a query's registers (CacheState and CacheHolder of sqpyte/mem.py): the flags of each
register, and its integer or real value when that is a constant. The states are interned: an update copies a state,
changes the copy and looks it up, by an equality that takes both zeros for the same.
*/
module RegisterCache {

  const STATE_UNKNOWN: bv8 := 0
  const STATE_FLAG_KNOWN: bv8 := 1
  const STATE_INT_KNOWN: bv8 := 2
  const STATE_FLOAT_KNOWN: bv8 := 4
  const STATE_CONSTANT: bv8 := 8

  // What a constant makes known of a register.
  const INT_CONSTANT: bv8 := STATE_INT_KNOWN | STATE_CONSTANT
  const REAL_CONSTANT: bv8 := STATE_FLOAT_KNOWN | STATE_CONSTANT

  // ----- Doubles -----

  /** A 64-bit floating point number, without regard to rounding: nothing here computes with one. */
  datatype Double = NaN(bits: nat) | Infinite(negative: bool) | NegZero | Finite(r: real)

  /** The number without the sign of a zero. */
  function Unsigned(x: Double): Double {
    if x.NegZero? then Finite(0.0) else x
  }

  predicate IsZero(x: Double) {
    Unsigned(x) == Finite(0.0)
  }

  function AllUnsigned(xs: seq<Double>): seq<Double> {
    seq(|xs|, i requires 0 <= i < |xs| => Unsigned(xs[i]))
  }

  predicate NoNaN(xs: seq<Double>) {
    forall i :: 0 <= i < |xs| ==> !xs[i].NaN?
  }

  predicate NoNegZero(xs: seq<Double>) {
    forall i :: 0 <= i < |xs| ==> xs[i] != NegZero
  }

  lemma NoNaNUnsigned(xs: seq<Double>, ys: seq<Double>)
    requires AllUnsigned(xs) == AllUnsigned(ys)
    ensures |xs| == |ys| && (NoNaN(xs) <==> NoNaN(ys))
  {
    assert |AllUnsigned(xs)| == |xs| && |AllUnsigned(ys)| == |ys|;
    forall i | 0 <= i < |xs|
      ensures xs[i].NaN? <==> ys[i].NaN?
    {
      assert AllUnsigned(xs)[i] == AllUnsigned(ys)[i];
    }
  }

  // Nothing is lost where no zero has a sign.
  lemma NoSigns(xs: seq<Double>, ys: seq<Double>)
    requires AllUnsigned(xs) == AllUnsigned(ys) && NoNegZero(xs) && NoNegZero(ys)
    ensures xs == ys
  {
    assert |AllUnsigned(xs)| == |xs| && |AllUnsigned(ys)| == |ys|;
    forall i | 0 <= i < |xs|
      ensures xs[i] == ys[i]
    {
      assert AllUnsigned(xs)[i] == AllUnsigned(ys)[i];
    }
  }

  lemma UnsignedAt(xs: seq<Double>, ys: seq<Double>, i: nat)
    requires AllUnsigned(xs) == AllUnsigned(ys) && i < |xs|
    ensures |xs| == |ys| && Unsigned(xs[i]) == Unsigned(ys[i])
  {
    assert |AllUnsigned(xs)| == |xs| && |AllUnsigned(ys)| == |ys|;
    assert AllUnsigned(xs)[i] == AllUnsigned(ys)[i];
  }

  lemma UnsignedUpdate(xs: seq<Double>, ys: seq<Double>, i: nat, x: Double)
    requires AllUnsigned(xs) == AllUnsigned(ys) && i < |xs|
    ensures |xs| == |ys| && AllUnsigned(xs[i := x]) == AllUnsigned(ys[i := x])
    ensures AllUnsigned(xs[i := x]) == AllUnsigned(ys) <==> Unsigned(x) == Unsigned(xs[i])
  {
    assert |AllUnsigned(xs)| == |xs| && |AllUnsigned(ys)| == |ys|;
    var a, b := AllUnsigned(xs[i := x]), AllUnsigned(ys[i := x]);
    forall j | 0 <= j < |xs|
      ensures a[j] == b[j] && (j != i ==> a[j] == AllUnsigned(ys)[j])
    {
      assert AllUnsigned(xs)[j] == AllUnsigned(ys)[j];
    }
    assert a == b;
    assert a[i] == Unsigned(x) && AllUnsigned(ys)[i] == Unsigned(xs[i]);
    if Unsigned(x) == Unsigned(xs[i]) {
      assert a == AllUnsigned(ys);
    }
  }

  // ----- What a state says -----

  /** The fields of a CacheState, by register. */
  datatype View = View(allFlags: seq<nat>, cacheStates: seq<bv8>, uiConstants: seq<int>, urConstants: seq<Double>)
  {
    predicate Sized(n: nat) {
      |allFlags| == |cacheStates| == |uiConstants| == |urConstants| == n
    }

    predicate IsFlagKnown(i: nat)
      requires i < |cacheStates|
    {
      cacheStates[i] & STATE_FLAG_KNOWN != 0
    }

    predicate IsIntKnown(i: nat)
      requires i < |cacheStates|
    {
      cacheStates[i] & STATE_INT_KNOWN != 0
    }

    predicate IsRealKnown(i: nat)
      requires i < |cacheStates|
    {
      cacheStates[i] & STATE_FLOAT_KNOWN != 0
    }

    predicate IsConstant(i: nat)
      requires i < |cacheStates|
    {
      cacheStates[i] & STATE_CONSTANT != 0
    }
  }

  function AllUnknown(n: nat): (v: View)
    ensures v.Sized(n)
  {
    View(seq(n, _ => 0), seq(n, _ => STATE_UNKNOWN), seq(n, _ => 0), seq(n, _ => Finite(0.0)))
  }

  /** What a state says but for the signs of zeros. */
  function Plain(v: View): View {
    v.(urConstants := AllUnsigned(v.urConstants))
  }

  /** CacheState.eq: the comparison of doubles takes -0.0 for 0.0, and a NaN for nothing, itself included. */
  predicate Eq(v: View, w: View) {
    NoNaN(v.urConstants) && Plain(v) == Plain(w)
  }

  // Nothing is said of a register that there is not.
  predicate Has(v: View, i: nat) {
    v.Sized(|v.cacheStates|) && i < |v.cacheStates|
  }

  function WithStatus(v: View, i: nat, status: bv8): View {
    if Has(v, i) then v.(cacheStates := v.cacheStates[i := status]) else v
  }

  function Knowing(v: View, i: nat, statusbits: bv8): View {
    if Has(v, i) then v.(cacheStates := v.cacheStates[i := v.cacheStates[i] | statusbits]) else v
  }

  /** A new value of one field of a register. */
  datatype Change = FlagsTo(flags: nat) | IntTo(i: int) | RealTo(r: Double)

  function Changed(v: View, i: nat, c: Change): View {
    if !Has(v, i) then v
    else
      match c
      case FlagsTo(flags) => v.(allFlags := v.allFlags[i := flags])
      case IntTo(x) => v.(uiConstants := v.uiConstants[i := x])
      case RealTo(x) => v.(urConstants := v.urConstants[i := x])
  }

  // Together with what that makes known.
  function With(v: View, i: nat, statusbits: bv8, c: Change): View {
    Changed(Knowing(v, i, statusbits), i, c)
  }

  function WithFlags(v: View, i: nat, flags: nat): View {
    With(v, i, STATE_FLAG_KNOWN, FlagsTo(flags))
  }

  function WithInt(v: View, i: nat, x: int): View {
    With(v, i, INT_CONSTANT, IntTo(x))
  }

  function WithReal(v: View, i: nat, x: Double): View {
    With(v, i, REAL_CONSTANT, RealTo(x))
  }

  lemma ChangedPlain(v: View, w: View, i: nat, c: Change)
    requires Plain(v) == Plain(w) && Has(w, i)
    ensures v.Sized(|w.cacheStates|) && Plain(Changed(v, i, c)) == Plain(Changed(w, i, c))
  {
    assert |AllUnsigned(v.urConstants)| == |v.urConstants| && |AllUnsigned(w.urConstants)| == |w.urConstants|;
    if c.RealTo? {
      UnsignedUpdate(v.urConstants, w.urConstants, i, c.r);
    }
  }

  lemma ChangedClean(v: View, i: nat, c: Change)
    requires NoNegZero(v.urConstants) && Has(v, i) && c != RealTo(NegZero)
    ensures NoNegZero(Changed(v, i, c).urConstants)
  {}

  lemma EqualReals(v: View, i: nat, x: Double)
    requires Has(v, i)
    ensures Eq(Knowing(v, i, REAL_CONSTANT), WithReal(v, i, x))
      <==> NoNaN(v.urConstants) && Unsigned(x) == Unsigned(v.urConstants[i])
  {
    UnsignedUpdate(v.urConstants, v.urConstants, i, x);
  }

  // ----- States as objects, and the table in which they are interned -----

  class CacheState {
    var allFlags: seq<nat>
    var cacheStates: seq<bv8>
    var uiConstants: seq<int>
    var urConstants: seq<Double>

    constructor (v: View)
      ensures Is() == v
    {
      allFlags, cacheStates, uiConstants, urConstants := v.allFlags, v.cacheStates, v.uiConstants, v.urConstants;
    }

    function Is(): View
      reads this
    {
      View(allFlags, cacheStates, uiConstants, urConstants)
    }
  }

  /** The dictionary of states, which all queries share. */
  class Interned {
    var table: set<CacheState>

    constructor ()
      ensures Valid() && table == {}
    {
      table := {};
    }

    /** A lookup has one result. */
    ghost predicate Valid()
      reads this, table
    {
      forall s, r :: s in table && r in table && Eq(s.Is(), r.Is()) ==> s == r
    }

    /** No state of the table holds a zero with a sign. */
    ghost predicate Clean()
      reads this, table
    {
      forall s :: s in table ==> NoNegZero(s.urConstants)
    }

    /** The states that were interned are the same objects, and say what they said. */
    twostate predicate Grown()
      reads this, table
    {
      forall s :: s in old(table) ==> s in table && s.Is() == old(s.Is())
    }

    // The states that are new say one of two things, but for the signs of zeros.
    twostate predicate Adds(v: View, w: View)
      reads this, table
    {
      forall s :: s in table ==> s in old(table) || Plain(s.Is()) == Plain(v) || Plain(s.Is()) == Plain(w)
    }

    /** CacheState.unique: the state of the table that is equal, and otherwise this one. */
    method Unique(s: CacheState) returns (r: CacheState)
      requires Valid()
      modifies this
      ensures Valid() && Grown() && table == old(table) + {r} && Plain(r.Is()) == Plain(s.Is())
      ensures forall e :: e in old(table) && Eq(e.Is(), s.Is()) ==> r == e
      ensures (forall e :: e in old(table) ==> !Eq(e.Is(), s.Is())) ==> r == s
      ensures old(Clean()) && NoNegZero(s.urConstants) ==> Clean() && r.Is() == s.Is()
    {
      hide AllUnsigned, NoNaN, NoNegZero;
      if e :| e in table && Eq(e.Is(), s.Is()) {
        r := e;
        forall d | d in table && Eq(d.Is(), s.Is())
          ensures d == r
        {
          assert Eq(d.Is(), e.Is());
        }
      } else {
        forall d | d in table
          ensures !Eq(s.Is(), d.Is())
        {
          if Eq(s.Is(), d.Is()) {
            NoNaNUnsigned(s.urConstants, d.urConstants);
          }
        }
        table := table + {s};
        r := s;
      }
      if old(Clean()) && NoNegZero(s.urConstants) {
        NoSigns(r.urConstants, s.urConstants);
      }
    }

    // A changed copy of a state is looked up.
    method UniqueCopy(v: View) returns (r: CacheState)
      requires Valid()
      modifies this
      ensures Valid() && Grown() && table <= old(table) + {r} && r in table && Plain(r.Is()) == Plain(v)
      ensures forall e :: e in old(table) && Eq(e.Is(), v) ==> r == e
      ensures (forall e :: e in old(table) ==> !Eq(e.Is(), v)) ==> r.Is() == v
      ensures old(Clean()) && NoNegZero(v.urConstants) ==> Clean() && r.Is() == v
    {
      hide AllUnsigned, NoNaN, NoNegZero;
      var result := new CacheState(v);
      r := Unique(result);
    }

    // The state s, which says v, is kept if it says w, and otherwise r is the state of the table that is equal to w.
    twostate predicate Gives(s: CacheState, new r: CacheState, v: View, w: View)
      reads this, table, r
    {
      && Valid() && Grown() && table <= old(table) + {r} && Plain(r.Is()) == Plain(w)
      && (if v == w then r == s && table == old(table) else r in table)
      && (v != w ==> forall e :: e in old(table) && Eq(old(e.Is()), w) ==> r == e)
      && ((forall e :: e in old(table) ==> !Eq(old(e.Is()), w)) ==> r.Is() == w)
      && (old(Clean()) && NoNegZero(v.urConstants) ==> Clean() && r.Is() == w)
    }

    method ChangeCacheState(s: CacheState, i: nat, status: bv8, ghost v: View) returns (r: CacheState)
      requires Valid() && v == s.Is() && Has(v, i)
      modifies this
      ensures Gives(s, r, v, WithStatus(v, i, status))
    {
      hide AllUnsigned, NoNaN, NoNegZero;
      if s.cacheStates[i] == status {
        assert s.cacheStates[i := status] == s.cacheStates;
        return s;
      }
      r := UniqueCopy(WithStatus(s.Is(), i, status));
    }

    method AddKnowledge(s: CacheState, i: nat, statusbits: bv8, ghost v: View) returns (r: CacheState)
      requires Valid() && v == s.Is() && Has(v, i)
      modifies this
      ensures Gives(s, r, v, Knowing(v, i, statusbits))
    {
      hide AllUnsigned, NoNaN, NoNegZero;
      assert WithStatus(v, i, v.cacheStates[i] | statusbits) == Knowing(v, i, statusbits);
      r := ChangeCacheState(s, i, s.cacheStates[i] | statusbits, v);
    }

    // add_knowledge, and a copy of its result with a new value: w1 and w are what the two say.
    method KnowAndChange(s: CacheState, i: nat, statusbits: bv8, c: Change, ghost v: View, ghost w1: View,
                         ghost w: View)
      returns (r: CacheState, ghost v1: View)
      requires Valid() && v == s.Is() && Has(v, i)
      requires w1 == Knowing(v, i, statusbits) && w == Changed(w1, i, c)
      modifies this
      ensures Valid() && Grown() && Adds(w1, w) && r in table && Plain(r.Is()) == Plain(w)
      ensures forall e :: e in old(table) && Eq(e.Is(), w) ==> r == e
      ensures Plain(v1) == Plain(w1) && v1.Sized(|w1.cacheStates|)
      ensures (forall e :: e in old(table) ==> !Eq(e.Is(), w)) ==>
        r.Is() == if w1 != v && Eq(w1, w) then w1 else Changed(v1, i, c)
      ensures old(Clean()) && NoNegZero(v.urConstants) && c != RealTo(NegZero) ==> Clean() && r.Is() == w
    {
      hide AllUnsigned, NoNaN, NoNegZero, Changed;
      var self := AddKnowledge(s, i, statusbits, v);
      v1 := self.Is();
      ChangedPlain(v1, w1, i, c);
      if Eq(w1, w) {
        NoNaNUnsigned(v1.urConstants, w1.urConstants);
      }
      if old(Clean()) && NoNegZero(v.urConstants) && c != RealTo(NegZero) {
        ChangedClean(w1, i, c);
      }
      r := UniqueCopy(Changed(self.Is(), i, c));
      assert table <= old(table) + {self, r} && Plain(self.Is()) == Plain(w1);
    }

    /** The result is the state of the table that is equal, with the zeros as that one holds them. */
    method ChangeFlags(s: CacheState, i: nat, newFlags: nat, ghost v: View) returns (r: CacheState)
      requires Valid() && v == s.Is() && Has(v, i)
      modifies this
      ensures var w1, w := Knowing(v, i, STATE_FLAG_KNOWN), WithFlags(v, i, newFlags);
        && Valid() && Grown() && Adds(w1, w) && Plain(r.Is()) == Plain(w) && (r == s || r in table)
        && (s in old(table) ==> forall e :: e in old(table) && Eq(e.Is(), w) ==> r == e)
        && (old(Clean()) && NoNegZero(v.urConstants) ==> Clean() && r.Is() == w)
    {
      hide AllUnsigned, NoNaN, NoNegZero;
      if s.Is().IsFlagKnown(i) && s.allFlags[i] == newFlags {
        OrKnown(s.cacheStates[i]);
        assert v == WithFlags(v, i, newFlags);
        return s;
      }
      ghost var v1;
      r, v1 := KnowAndChange(s, i, STATE_FLAG_KNOWN, FlagsTo(newFlags), v,
                             Knowing(v, i, STATE_FLAG_KNOWN), WithFlags(v, i, newFlags));
    }

    method SetIntConstant(s: CacheState, i: nat, x: int, ghost v: View) returns (r: CacheState)
      requires Valid() && v == s.Is() && Has(v, i)
      modifies this
      ensures var w := WithInt(v, i, x);
        && Valid() && Grown() && Plain(r.Is()) == Plain(w) && r in table
        && (old(Clean()) && NoNegZero(v.urConstants) ==> Clean() && r.Is() == w)
    {
      hide AllUnsigned, NoNaN, NoNegZero;
      ghost var v1;
      r, v1 := KnowAndChange(s, i, INT_CONSTANT, IntTo(x), v, Knowing(v, i, INT_CONSTANT),
                             WithInt(v, i, x));
    }

    /**
    Whether the state that set_u_r_constant returns holds x as it is: if the table has a state equal to the new one,
    that one must hold it. If it has none, x must not be a zero, or the state that add_knowledge interns first, with the
    constant as it was, must not be equal to the new one, or hold the same zero.
    */
    ghost predicate SignKept(v: View, i: nat, x: Double)
      reads this, table
    {
      var w := WithReal(v, i, x);
      if !Has(v, i) then false
      else if exists e :: e in table && Eq(e.Is(), w)
      then forall e :: e in table && Eq(e.Is(), w) ==> i < |e.urConstants| && e.urConstants[i] == x
      else
        || Knowing(v, i, REAL_CONSTANT) == v
        || !IsZero(x) || !IsZero(v.urConstants[i]) || !NoNaN(v.urConstants)
        || v.urConstants[i] == x
    }

    method SetRealConstant(s: CacheState, i: nat, x: Double, ghost v: View) returns (r: CacheState)
      requires Valid() && v == s.Is() && Has(v, i)
      modifies this
      ensures var w1, w := Knowing(v, i, REAL_CONSTANT), WithReal(v, i, x);
        && Valid() && Grown() && Adds(w1, w) && Plain(r.Is()) == Plain(w) && r in table
        && (old(Clean()) && NoNegZero(v.urConstants) && x != NegZero ==> Clean() && r.Is() == w)
      ensures i < |r.urConstants| && (r.urConstants[i] == x <==> old(SignKept(v, i, x)))
    {
      hide AllUnsigned, NoNaN, NoNegZero;
      ghost var w1, w := Knowing(v, i, REAL_CONSTANT), WithReal(v, i, x);
      ghost var v1;
      r, v1 := KnowAndChange(s, i, REAL_CONSTANT, RealTo(x), v, w1, w);
      PlainSizes(r.Is(), w);
      EqualReals(v, i, x);
    }

    // The state after a write of an integer.
    method NextInt(s: CacheState, i: nat, x: int, constant: bool, ghost v: View) returns (r: CacheState)
      requires Valid() && v == s.Is() && Has(v, i)
      modifies this
      ensures var w := AfterInt(v, i, x, constant);
        && Valid() && Grown() && Plain(r.Is()) == Plain(w)
        && (old(Clean()) && NoNegZero(v.urConstants) ==> Clean() && r.Is() == w)
    {
      hide AllUnsigned, NoNaN, NoNegZero;
      if !constant {
        r := ChangeCacheState(s, i, NotInt(s.cacheStates[i]), v);
      } else {
        r := SetIntConstant(s, i, x, v);
      }
    }

    // The state after a write of a real number.
    method NextReal(s: CacheState, i: nat, x: Double, constant: bool, ghost v: View) returns (r: CacheState)
      requires Valid() && v == s.Is() && Has(v, i)
      modifies this
      ensures var w := AfterReal(v, i, x, constant);
        && Valid() && Grown() && Plain(r.Is()) == Plain(w)
        && (old(Clean()) && NoNegZero(v.urConstants) && (constant ==> x != NegZero) ==> Clean() && r.Is() == w)
      ensures constant ==> i < |r.urConstants| && (r.urConstants[i] == x <==> old(SignKept(v, i, x)))
    {
      hide AllUnsigned, NoNaN, NoNegZero;
      if !constant {
        r := ChangeCacheState(s, i, NotReal(s.cacheStates[i]), v);
      } else {
        r := SetRealConstant(s, i, x, v);
      }
    }

    method SetUnknown(s: CacheState, i: nat, ghost v: View) returns (r: CacheState)
      requires Valid() && v == s.Is() && Has(v, i)
      modifies this
      ensures var w := Forgotten(v, i);
        && Valid() && Grown() && Plain(r.Is()) == Plain(w)
        && (old(Clean()) && NoNegZero(v.urConstants) ==> Clean() && r.Is() == w)
    {
      hide AllUnsigned, NoNaN, NoNegZero;
      r := s;
      if s.cacheStates[i] != 0 {
        r := ChangeFlags(s, i, 0, v);
        ghost var v1 := r.Is();
        PlainSizes(v1, WithFlags(v, i, 0));
        r := ChangeCacheState(r, i, STATE_UNKNOWN, v1);
      }
    }
  }

  lemma PlainSizes(v: View, w: View)
    requires Plain(v) == Plain(w)
    ensures |v.urConstants| == |w.urConstants| && |v.cacheStates| == |w.cacheStates| && |v.allFlags| == |w.allFlags|
      && |v.uiConstants| == |w.uiConstants|
  {
    assert |AllUnsigned(v.urConstants)| == |v.urConstants| && |AllUnsigned(w.urConstants)| == |w.urConstants|;
  }

  // What set_unknown makes of a state.
  function Forgotten(v: View, i: nat): View
  {
    if Has(v, i) && v.cacheStates[i] != 0 then WithStatus(WithFlags(v, i, 0), i, STATE_UNKNOWN) else v
  }

  lemma OrKnown(x: bv8)
    requires x & STATE_FLAG_KNOWN != 0
    ensures x | STATE_FLAG_KNOWN == x
  {}

  /** Two states of the table that say the same are the same object, as the comparison by identity assumes. */
  lemma SameObject(t: Interned, s: CacheState, r: CacheState)
    requires t.Valid() && s in t.table && r in t.table && Plain(s.Is()) == Plain(r.Is()) && NoNaN(s.urConstants)
    ensures s == r
  {}

  // ----- Registers -----

  /** The union of a register: what was last written, as 64 bits of either kind. */
  datatype Union = OfInt(i: int) | OfReal(r: Double)

  datatype Mem = Mem(flags: nat, u: Union)

  /** Which kind was last written through the cache; Any after a write that the cache does not see. */
  datatype Kind = Any | KInt | KReal

  /** How the bits of one kind are read as the other. */
  datatype Machine = Machine(intOfReal: Double -> int, realOfInt: int -> Double)
  {
    function ReadInt(u: Union): int {
      if u.OfInt? then u.i else intOfReal(u.r)
    }

    function ReadReal(u: Union): Double {
      if u.OfReal? then u.r else realOfInt(u.i)
    }
  }

  // What a state knows of register i is true of the memory; with exact, also of the sign of a zero.
  ghost predicate TrueAt(v: View, mem: seq<Mem>, kinds: seq<Kind>, i: nat, exact: bool) {
    && i < |v.cacheStates| == |v.allFlags| == |v.uiConstants| == |v.urConstants| && i < |mem| && i < |kinds|
    && (v.IsFlagKnown(i) ==> v.allFlags[i] == mem[i].flags)
    && (kinds[i] == Any ==> !v.IsIntKnown(i) && !v.IsRealKnown(i))
    && (kinds[i] == KInt ==> mem[i].u.OfInt? && (v.IsIntKnown(i) ==> v.IsConstant(i) && v.uiConstants[i] == mem[i].u.i))
    && (kinds[i] == KReal ==> mem[i].u.OfReal?)
    && (kinds[i] == KReal && v.IsRealKnown(i) ==>
          && v.IsConstant(i) && Unsigned(v.urConstants[i]) == Unsigned(mem[i].u.r)
          && (exact ==> v.urConstants[i] == mem[i].u.r))
  }

  ghost predicate True(v: View, mem: seq<Mem>, kinds: seq<Kind>, n: nat, exact: bool) {
    v.Sized(n) && n <= |mem| == |kinds| && forall i :: 0 <= i < n ==> TrueAt(v, mem, kinds, i, exact)
  }

  // Signs of zeros apart, a state may stand for one that is equal to it.
  lemma {:induction false} PlainTrue(v: View, w: View, mem: seq<Mem>, kinds: seq<Kind>, n: nat)
    requires True(v, mem, kinds, n, false) && Plain(v) == Plain(w)
    ensures True(w, mem, kinds, n, false)
  {
    hide AllUnsigned;
    PlainSizes(v, w);
    forall i | 0 <= i < n
      ensures TrueAt(w, mem, kinds, i, false)
    {
      assert TrueAt(v, mem, kinds, i, false);
      UnsignedAt(v.urConstants, w.urConstants, i);
    }
  }

  lemma Inexact(v: View, mem: seq<Mem>, kinds: seq<Kind>, n: nat, exact: bool)
    requires True(v, mem, kinds, n, exact)
    ensures True(v, mem, kinds, n, false)
  {
    forall i | 0 <= i < n
      ensures TrueAt(v, mem, kinds, i, false)
    {
      assert TrueAt(v, mem, kinds, i, exact);
    }
  }

  lemma UnknownTrue(mem: seq<Mem>, kinds: seq<Kind>, n: nat, exact: bool)
    requires n <= |mem| && KindsFit(mem, kinds)
    ensures True(AllUnknown(n), mem, kinds, n, exact) && NoNegZero(AllUnknown(n).urConstants)
  {
    Bits(0);
  }

  lemma Bits(x: bv8)
    ensures (x | STATE_FLAG_KNOWN) & STATE_FLAG_KNOWN != 0
    ensures (x | STATE_FLAG_KNOWN) & STATE_INT_KNOWN == x & STATE_INT_KNOWN
    ensures (x | STATE_FLAG_KNOWN) & STATE_FLOAT_KNOWN == x & STATE_FLOAT_KNOWN
    ensures (x | STATE_FLAG_KNOWN) & STATE_CONSTANT == x & STATE_CONSTANT
    ensures (x | INT_CONSTANT) & STATE_FLAG_KNOWN == x & STATE_FLAG_KNOWN
    ensures (x | INT_CONSTANT) & STATE_CONSTANT != 0 && (x | INT_CONSTANT) & STATE_INT_KNOWN != 0
    ensures (x | REAL_CONSTANT) & STATE_FLAG_KNOWN == x & STATE_FLAG_KNOWN
    ensures (x | REAL_CONSTANT) & STATE_CONSTANT != 0 && (x | REAL_CONSTANT) & STATE_FLOAT_KNOWN != 0
    ensures NotInt(x) & STATE_INT_KNOWN == 0 && NotInt(x) & STATE_FLAG_KNOWN == x & STATE_FLAG_KNOWN
    ensures NotReal(x) & STATE_FLOAT_KNOWN == 0 && NotReal(x) & STATE_FLAG_KNOWN == x & STATE_FLAG_KNOWN
    ensures STATE_UNKNOWN & STATE_FLAG_KNOWN == 0 && STATE_UNKNOWN & STATE_INT_KNOWN == 0
      && STATE_UNKNOWN & STATE_FLOAT_KNOWN == 0
  {}

  // The status after a value that is not a constant was written.
  function NotInt(x: bv8): bv8 {
    (x & !STATE_CONSTANT) & !STATE_INT_KNOWN
  }

  function NotReal(x: bv8): bv8 {
    (x & !STATE_CONSTANT) & !STATE_FLOAT_KNOWN
  }

  // What a write leaves of what is known.
  function AfterInt(v: View, i: nat, x: int, constant: bool): View
  {
    if constant then WithInt(v, i, x) else if Has(v, i) then WithStatus(v, i, NotInt(v.cacheStates[i])) else v
  }

  function AfterReal(v: View, i: nat, x: Double, constant: bool): View
  {
    if constant then WithReal(v, i, x) else if Has(v, i) then WithStatus(v, i, NotReal(v.cacheStates[i])) else v
  }

  // Nothing changes but what is said of register i.
  lemma TrueExcept(v: View, mem: seq<Mem>, kinds: seq<Kind>, v': View, mem': seq<Mem>, kinds': seq<Kind>, n: nat,
                   exact: bool, i: nat)
    requires True(v, mem, kinds, n, exact) && v'.Sized(n) && |mem'| == |mem| == |kinds'| && i < |mem|
    requires forall j :: 0 <= j < |mem| && j != i ==> mem'[j] == mem[j] && kinds'[j] == kinds[j]
    requires forall j :: 0 <= j < n && j != i ==> SameAt(v, v', j)
    requires i < n ==> TrueAt(v', mem', kinds', i, exact)
    ensures True(v', mem', kinds', n, exact) && True(v', mem', kinds', n, false)
  {
    forall j | 0 <= j < n
      ensures TrueAt(v', mem', kinds', j, exact)
    {
      if j != i {
        assert TrueAt(v, mem, kinds, j, exact) && SameAt(v, v', j);
      }
    }
    Inexact(v', mem', kinds', n, exact);
  }

  /** What the cache is told of a register: its flags, a value that may be a constant, or that nothing is known. */
  datatype Lesson = FlagsAre(flags: nat) | IntIs(i: int, constant: bool) | RealIs(r: Double, constant: bool) | AnyMore

  // Signs of zeros apart.
  ghost predicate AlikeAt(v: View, w: View, j: nat) {
    && Has(v, j) && Has(w, j) && w.cacheStates[j] == v.cacheStates[j] && w.allFlags[j] == v.allFlags[j]
    && w.uiConstants[j] == v.uiConstants[j] && Unsigned(w.urConstants[j]) == Unsigned(v.urConstants[j])
  }

  ghost predicate FlagsAlike(v: View, w: View, m: nat) {
    Has(v, m) && Has(w, m) && (w.IsFlagKnown(m) <==> v.IsFlagKnown(m)) && w.allFlags[m] == v.allFlags[m]
  }

  ghost predicate IntAlike(v: View, w: View, m: nat) {
    Has(v, m) && Has(w, m) && (w.IsIntKnown(m) <==> v.IsIntKnown(m)) && w.uiConstants[m] == v.uiConstants[m]
  }

  ghost predicate RealAlike(v: View, w: View, m: nat) {
    && Has(v, m) && Has(w, m) && (w.IsRealKnown(m) <==> v.IsRealKnown(m))
    && Unsigned(w.urConstants[m]) == Unsigned(v.urConstants[m])
  }

  /** The cache knows what it was told of a register, and all that it knew apart from that. */
  ghost predicate Learned(v: View, w: View, m: nat, l: Lesson) {
    && Has(v, m) && Has(w, m) && |w.cacheStates| == |v.cacheStates|
    && (forall j :: 0 <= j < |v.cacheStates| && j != m ==> AlikeAt(v, w, j))
    && match l
       case FlagsAre(flags) =>
         && w.IsFlagKnown(m) && w.allFlags[m] == flags && IntAlike(v, w, m) && RealAlike(v, w, m)
         && (w.IsConstant(m) <==> v.IsConstant(m))
       case IntIs(x, constant) =>
         && FlagsAlike(v, w, m) && RealAlike(v, w, m) && (w.IsConstant(m) <==> constant)
         && (w.IsIntKnown(m) <==> constant) && (constant ==> w.uiConstants[m] == x)
       case RealIs(x, constant) =>
         && FlagsAlike(v, w, m) && IntAlike(v, w, m) && (w.IsConstant(m) <==> constant)
         && (w.IsRealKnown(m) <==> constant) && (constant ==> Unsigned(w.urConstants[m]) == Unsigned(x))
       case AnyMore => !w.IsFlagKnown(m) && !w.IsIntKnown(m) && !w.IsRealKnown(m) && !w.IsConstant(m)
  }

  lemma NotBits(x: bv8)
    ensures NotInt(x) & STATE_CONSTANT == 0 && NotReal(x) & STATE_CONSTANT == 0
    ensures NotInt(x) & STATE_FLOAT_KNOWN == x & STATE_FLOAT_KNOWN
    ensures NotReal(x) & STATE_INT_KNOWN == x & STATE_INT_KNOWN
    ensures (x | REAL_CONSTANT) & STATE_INT_KNOWN == x & STATE_INT_KNOWN
    ensures (x | INT_CONSTANT) & STATE_FLOAT_KNOWN == x & STATE_FLOAT_KNOWN
    ensures STATE_UNKNOWN & STATE_CONSTANT == 0
    ensures x == 0 ==> x & STATE_FLAG_KNOWN == 0 && x & STATE_INT_KNOWN == 0 && x & STATE_FLOAT_KNOWN == 0
                       && x & STATE_CONSTANT == 0
  {}

  lemma KnownAlready(v: View, m: nat)
    requires Has(v, m) && v.IsFlagKnown(m)
    ensures Learned(v, v, m, FlagsAre(v.allFlags[m]))
  {}

  // What a state says after a lesson.
  function Taught(v: View, m: nat, l: Lesson): View {
    match l
    case FlagsAre(flags) => WithFlags(v, m, flags)
    case IntIs(x, constant) => AfterInt(v, m, x, constant)
    case RealIs(x, constant) => AfterReal(v, m, x, constant)
    case AnyMore => Forgotten(v, m)
  }

  lemma FlagsLearned(v: View, m: nat, flags: nat)
    requires Has(v, m)
    ensures Learned(v, WithFlags(v, m, flags), m, FlagsAre(flags))
  {
    Bits(v.cacheStates[m]);
  }

  lemma IntLearned(v: View, m: nat, x: int, constant: bool)
    requires Has(v, m)
    ensures Learned(v, AfterInt(v, m, x, constant), m, IntIs(x, constant))
  {
    Bits(v.cacheStates[m]);
    NotBits(v.cacheStates[m]);
  }

  lemma RealLearned(v: View, m: nat, x: Double, constant: bool)
    requires Has(v, m)
    ensures Learned(v, AfterReal(v, m, x, constant), m, RealIs(x, constant))
  {
    Bits(v.cacheStates[m]);
    NotBits(v.cacheStates[m]);
  }

  lemma Unlearned(v: View, m: nat)
    requires Has(v, m)
    ensures Learned(v, Forgotten(v, m), m, AnyMore)
  {
    NotBits(v.cacheStates[m]);
  }

  lemma TaughtLearned(v: View, m: nat, l: Lesson)
    requires Has(v, m)
    ensures Learned(v, Taught(v, m, l), m, l)
  {
    hide Learned, WithFlags, AfterInt, AfterReal, Forgotten;
    match l
    case FlagsAre(flags) => FlagsLearned(v, m, flags);
    case IntIs(x, constant) => IntLearned(v, m, x, constant);
    case RealIs(x, constant) => RealLearned(v, m, x, constant);
    case AnyMore => Unlearned(v, m);
  }

  lemma LearnedPlain(v: View, w: View, w': View, m: nat, l: Lesson)
    requires Learned(v, w, m, l) && Plain(w') == Plain(w)
    ensures Learned(v, w', m, l)
  {
    hide AllUnsigned;
    PlainSizes(w', w);
    forall j | 0 <= j < |v.cacheStates|
      ensures Unsigned(w'.urConstants[j]) == Unsigned(w.urConstants[j])
    {
      UnsignedAt(w'.urConstants, w.urConstants, j);
    }
    forall j | 0 <= j < |v.cacheStates| && j != m
      ensures AlikeAt(v, w', j)
    {
      assert AlikeAt(v, w, j);
    }
  }

  /** A state that says what a lesson makes of another knows it, whatever the zeros. */
  lemma Learns(v: View, w: View, m: nat, l: Lesson)
    requires Has(v, m) && Plain(w) == Plain(Taught(v, m, l))
    ensures Learned(v, w, m, l)
  {
    hide Learned, Taught, Plain;
    TaughtLearned(v, m, l);
    LearnedPlain(v, Taught(v, m, l), w, m, l);
  }

  ghost predicate SameAt(v: View, v': View, j: nat) {
    && j < |v.cacheStates| == |v.allFlags| == |v.uiConstants| == |v.urConstants|
    && j < |v'.cacheStates| == |v'.allFlags| == |v'.uiConstants| == |v'.urConstants|
    && v'.cacheStates[j] == v.cacheStates[j] && v'.allFlags[j] == v.allFlags[j] && v'.uiConstants[j] == v.uiConstants[j]
    && v'.urConstants[j] == v.urConstants[j]
  }

  lemma FlagsTrue(v: View, mem: seq<Mem>, kinds: seq<Kind>, n: nat, exact: bool, i: nat, flags: nat)
    requires True(v, mem, kinds, n, exact) && i < n
    ensures True(WithFlags(v, i, flags), mem[i := mem[i].(flags := flags)], kinds, n, exact)
    ensures True(WithFlags(v, i, flags), mem[i := mem[i].(flags := flags)], kinds, n, false)
  {
    assert TrueAt(v, mem, kinds, i, exact);
    Bits(v.cacheStates[i]);
    TrueExcept(v, mem, kinds, WithFlags(v, i, flags), mem[i := mem[i].(flags := flags)], kinds, n, exact, i);
  }

  lemma IntTrue(v: View, mem: seq<Mem>, kinds: seq<Kind>, n: nat, exact: bool, i: nat, x: int, constant: bool)
    requires True(v, mem, kinds, n, exact) && i < n
    ensures var mem', kinds' := mem[i := mem[i].(u := OfInt(x))], kinds[i := KInt];
      && True(AfterInt(v, i, x, constant), mem', kinds', n, exact)
      && True(AfterInt(v, i, x, constant), mem', kinds', n, false)
  {
    var mem', kinds' := mem[i := mem[i].(u := OfInt(x))], kinds[i := KInt];
    assert TrueAt(v, mem, kinds, i, exact);
    Bits(v.cacheStates[i]);
    TrueExcept(v, mem, kinds, AfterInt(v, i, x, constant), mem', kinds', n, exact, i);
  }

  lemma RealTrue(v: View, mem: seq<Mem>, kinds: seq<Kind>, n: nat, exact: bool, i: nat, x: Double, constant: bool)
    requires True(v, mem, kinds, n, exact) && i < n
    ensures var mem', kinds' := mem[i := mem[i].(u := OfReal(x))], kinds[i := KReal];
      && True(AfterReal(v, i, x, constant), mem', kinds', n, exact)
      && True(AfterReal(v, i, x, constant), mem', kinds', n, false)
  {
    var mem', kinds' := mem[i := mem[i].(u := OfReal(x))], kinds[i := KReal];
    assert TrueAt(v, mem, kinds, i, exact);
    Bits(v.cacheStates[i]);
    TrueExcept(v, mem, kinds, AfterReal(v, i, x, constant), mem', kinds', n, exact, i);
  }

  /** A register may hold anything once nothing is known of it. */
  lemma ForgottenTrue(v: View, mem: seq<Mem>, kinds: seq<Kind>, n: nat, exact: bool, i: nat, cell: Mem)
    requires True(v, mem, kinds, n, exact) && i < n
    ensures True(Forgotten(v, i), mem[i := cell], kinds[i := Any], n, exact)
    ensures True(Forgotten(v, i), mem[i := cell], kinds[i := Any], n, false)
  {
    var v' := Forgotten(v, i);
    Bits(v.cacheStates[i]);
    TrueExcept(v, mem, kinds, v', mem[i := cell], kinds[i := Any], n, exact, i);
  }

  // A write to a register that is not cached.
  lemma UncachedTrue(v: View, mem: seq<Mem>, kinds: seq<Kind>, n: nat, exact: bool, m: nat, cell: Mem, kind: Kind)
    requires True(v, mem, kinds, n, exact) && n <= m < |mem|
    ensures True(v, mem[m := cell], kinds[m := kind], n, exact)
    ensures True(v, mem[m := cell], kinds[m := kind], n, false)
  {
    TrueExcept(v, mem, kinds, v, mem[m := cell], kinds[m := kind], n, exact, m);
  }

  /**
  What the integer of a register is known by is not touched by a write of a real number, and the other way round: after
  a write that is not constant the other kind is known, without being constant, exactly if it was known before; after
  one that is, it is a constant exactly if it was known before.
  */
  lemma OtherKind(x: bv8)
    ensures NotReal(x) & STATE_INT_KNOWN == x & STATE_INT_KNOWN && NotReal(x) & STATE_CONSTANT == 0
    ensures NotInt(x) & STATE_FLOAT_KNOWN == x & STATE_FLOAT_KNOWN && NotInt(x) & STATE_CONSTANT == 0
    ensures (x | REAL_CONSTANT) & STATE_INT_KNOWN == x & STATE_INT_KNOWN
    ensures (x | INT_CONSTANT) & STATE_FLOAT_KNOWN == x & STATE_FLOAT_KNOWN
  {}

  // The last write of a register was of the kind that is kept for it.
  predicate KindsFit(mem: seq<Mem>, kinds: seq<Kind>) {
    |kinds| == |mem| && forall i :: 0 <= i < |mem| ==>
      (kinds[i] == KInt ==> mem[i].u.OfInt?) && (kinds[i] == KReal ==> mem[i].u.OfReal?)
  }

  lemma FlagsFit(mem: seq<Mem>, kinds: seq<Kind>, m: nat, flags: nat)
    requires KindsFit(mem, kinds) && m < |mem|
    ensures KindsFit(mem[m := mem[m].(flags := flags)], kinds)
  {}

  lemma ValueFits(mem: seq<Mem>, kinds: seq<Kind>, m: nat, u: Union, kind: Kind)
    requires KindsFit(mem, kinds) && m < |mem| && kind == if u.OfInt? then KInt else KReal
    ensures KindsFit(mem[m := mem[m].(u := u)], kinds[m := kind])
  {}

  lemma AnyFits(mem: seq<Mem>, kinds: seq<Kind>, m: nat, cell: Mem)
    requires KindsFit(mem, kinds) && m < |mem|
    ensures KindsFit(mem[m := cell], kinds[m := Any])
  {}

  lemma UnknownAt(n: nat, m: nat)
    requires m < n
    ensures AllUnknown(n).cacheStates[m] == STATE_UNKNOWN && !AllUnknown(n).IsIntKnown(m)
      && !AllUnknown(n).IsRealKnown(m)
  {
    Bits(0);
  }

  lemma SizedMem(v: View, mem: seq<Mem>, kinds: seq<Kind>, n: nat, exact: bool)
    requires True(v, mem, kinds, n, exact)
    ensures v.Sized(n) && n <= |mem| == |kinds|
  {}

  lemma KnownFlags(v: View, mem: seq<Mem>, kinds: seq<Kind>, n: nat, exact: bool, i: nat)
    requires True(v, mem, kinds, n, exact) && i < n
    ensures v.Sized(n) && i < |mem| && (v.IsFlagKnown(i) ==> v.allFlags[i] == mem[i].flags)
  {
    assert TrueAt(v, mem, kinds, i, exact);
  }

  lemma AfterIntClean(v: View, i: nat, x: int, constant: bool)
    requires NoNegZero(v.urConstants)
    ensures NoNegZero(AfterInt(v, i, x, constant).urConstants)
  {}

  lemma ForgottenClean(v: View, i: nat)
    requires NoNegZero(v.urConstants)
    ensures NoNegZero(Forgotten(v, i).urConstants)
  {}

  lemma AfterRealClean(v: View, i: nat, x: Double, constant: bool)
    requires Has(v, i) && NoNegZero(v.urConstants)
    requires constant ==> x != NegZero
    ensures NoNegZero(AfterReal(v, i, x, constant).urConstants)
  {}

  /** Registers 0 to n - 1 are cached, if useCache; mem also has registers that are not. */
  class CacheHolder {
    const n: nat
    const useCache: bool
    const machine: Machine
    const invalid: CacheState
    const states: Interned
    var virt: CacheState?
    var nonvirt: CacheState?
    var integers: seq<int>
    var floats: seq<Double>
    var mem: seq<Mem>

    ghost var hidden: CacheState?      // what hide put away
    ghost var kinds: seq<Kind>

    ghost function Objects(): set<CacheState>
      reads this
    {
      {invalid} + (if virt != null then {virt} else {}) + (if nonvirt != null then {nonvirt} else {})
      + (if hidden != null then {hidden} else {})
    }

    // The state that counts, wherever it is kept.
    ghost function Current(): CacheState
      reads this
    {
      if virt != null then virt else if nonvirt != null then nonvirt else if hidden != null then hidden else invalid
    }

    ghost function Says(): View
      reads this, Objects()
    {
      Current().Is()
    }

    // The invalid state and the two lists are as they were made, and the state is kept in one place.
    ghost predicate Made()
      reads this, invalid
    {
      && invalid.Is() == AllUnknown(n) && |integers| == |floats| == n
      && (forall i :: 0 <= i < n ==> integers[i] == 0 && floats[i] == Finite(0.0))
      && (virt == null || nonvirt == null)
    }

    // Apart from the table of states.
    ghost predicate Holds()
      reads this, Objects()
    {
      && Made() && (virt == null && nonvirt == null ==> hidden != null) && KindsFit(mem, kinds)
      && True(Says(), mem, kinds, n, false) && (!useCache ==> Says() == AllUnknown(n))
    }

    ghost predicate Valid()
      reads this, Objects(), states, states.table
    {
      states.Valid() && Holds()
    }

    /** No state holds a zero with a sign, and what is known is true of the signs of zeros in memory. */
    ghost predicate Exact()
      reads this, Objects(), states, states.table
    {
      states.Clean() && NoNegZero(Says().urConstants) && True(Says(), mem, kinds, n, true)
    }

    // Neither hidden nor put away.
    predicate Open()
      reads this
    {
      virt != null || nonvirt != null
    }

    constructor (n: nat, useCache: bool, machine: Machine, mem: seq<Mem>, states: Interned)
      requires n <= |mem| && states.Valid()
      ensures Valid() && fresh(Objects()) && virt == null && nonvirt != null && this.mem == mem && this.n == n
      ensures this.useCache == useCache && this.machine == machine && kinds == seq(|mem|, _ => Any)
      ensures this.states == states && Says() == AllUnknown(n) && (states.Clean() ==> Exact())
    {
      this.n, this.useCache, this.machine, this.mem := n, useCache, machine, mem;
      var s := new CacheState(AllUnknown(n));
      invalid, this.states, nonvirt, virt := s, states, s, null;
      integers, floats := seq(n, _ => 0), seq(n, _ => Finite(0.0));
      hidden, kinds := null, seq(|mem|, _ => Any);
      UnknownTrue(mem, seq(|mem|, _ => Any), n, false);
      UnknownTrue(mem, seq(|mem|, _ => Any), n, true);
    }

    method CacheStateNow() returns (s: CacheState)
      requires Open()
      ensures s == Current()
    {
      s := if virt != null then virt else nonvirt;
    }

    // The state that is kept instead, which is always the invalid one when there is no caching.
    method SetCacheState(cacheState: CacheState)
      requires Open()
      modifies `virt, `nonvirt
      ensures Current() == (if useCache then cacheState else invalid) && Open()
      ensures virt == null <==> old(virt) == null
      ensures old(virt) != null ==> nonvirt == old(nonvirt)
      ensures old(virt) == null ==> virt == null
    {
      var s := if useCache then cacheState else invalid;
      if virt != null {
        virt := s;
      } else {
        nonvirt := s;
      }
    }

    // The cache goes on in the same place.
    twostate predicate SameMode()
      reads this
    {
      && (virt == null <==> old(virt) == null) && (nonvirt == null <==> old(nonvirt) == null) && hidden == old(hidden)
    }

    // A state is kept that says w, which is true of the memory, but for the signs of zeros.
    method Keep(cacheState: CacheState, ghost w: View, ghost exact: bool)
      requires Open() && states.Valid() && Made()
      requires exact ==> states.Clean() && cacheState.Is() == w
      requires exact ==> NoNegZero(w.urConstants) && True(w, mem, kinds, n, true)
      requires True(w, mem, kinds, n, false) && Plain(cacheState.Is()) == Plain(w) && KindsFit(mem, kinds)
      modifies `virt, `nonvirt
      ensures Valid() && Open() && SameMode() && Current() == if useCache then cacheState else invalid
      ensures exact ==> Exact()
    {
      hide True, AllUnknown, AllUnsigned, NoNegZero, KindsFit;
      SizedMem(w, mem, kinds, n, false);
      UnknownTrue(mem, kinds, n, false);
      UnknownTrue(mem, kinds, n, true);
      PlainTrue(w, cacheState.Is(), mem, kinds, n);
      SetCacheState(cacheState);
    }

    // The flags of a register, which are in memory, become known: v is what was known.
    method LearnFlags(m: nat, flags: nat, ghost v: View, ghost exact: bool)
      requires Open() && states.Valid() && Made() && v == Says() && v.Sized(n) && m < n && KindsFit(mem, kinds)
      requires True(WithFlags(v, m, flags), mem, kinds, n, false)
      requires exact ==> states.Clean() && NoNegZero(v.urConstants)
      requires exact ==> True(WithFlags(v, m, flags), mem, kinds, n, true)
      modifies `virt, `nonvirt, states
      ensures states.Grown() && Valid() && Open() && SameMode()
      ensures useCache ==> Learned(v, Says(), m, FlagsAre(flags))
      ensures exact ==> Exact()
    {
      hide True, AllUnknown, AllUnsigned, NoNegZero, KindsFit, Learned;
      var state := CacheStateNow();
      var next := states.ChangeFlags(state, m, flags, v);
      Keep(next, WithFlags(v, m, flags), exact);
      if useCache {
        Learns(v, Says(), m, FlagsAre(flags));
      }
    }

    // A register that is not cached is written.
    method WriteUncached(m: nat, cell: Mem, ghost kind: Kind)
      requires Valid() && Open() && n <= m < |mem| && KindsFit(mem[m := cell], kinds[m := kind])
      modifies `mem, `kinds
      ensures Valid() && Open() && SameMode() && mem == old(mem)[m := cell] && kinds == old(kinds)[m := kind]
      ensures old(Exact()) ==> Exact()
    {
      hide True, AllUnknown, AllUnsigned, NoNegZero, KindsFit;
      SizedMem(Says(), mem, kinds, n, false);
      UncachedTrue(Says(), mem, kinds, n, false, m, cell, kind);
      UncachedTrue(Says(), mem, kinds, n, Exact(), m, cell, kind);
      mem := mem[m := cell];
      kinds := kinds[m := kind];
    }

    /** The flags are those in memory, read from it or known. */
    method GetFlags(m: nat) returns (flags: nat)
      requires Valid() && Open() && m < |mem|
      modifies this, states
      ensures states.Grown() && Valid() && Open() && SameMode() && mem == old(mem) && kinds == old(kinds)
      ensures flags == mem[m].flags && (old(Exact()) ==> Exact())
      ensures m < n && useCache ==> Learned(old(Says()), Says(), m, FlagsAre(flags))
    {
      hide True, AllUnknown, AllUnsigned, NoNegZero, KindsFit, Learned;
      if m >= n {
        return mem[m].flags;
      }
      var state := CacheStateNow();
      ghost var v := state.Is();
      KnownFlags(v, mem, kinds, n, false, m);
      if state.Is().IsFlagKnown(m) {
        assert state.allFlags[m] == mem[m].flags;
        KnownAlready(v, m);
        return state.allFlags[m];
      }
      flags := mem[m].flags;
      FlagsTrue(v, mem, kinds, n, Exact(), m, flags);
      assert mem[m := mem[m].(flags := flags)] == mem;
      LearnFlags(m, flags, v, old(Exact()));
    }

    // _set_flags: with needsWrite the flags are written to memory, and without it they are there already.
    method SetFlagsTo(m: nat, newFlags: nat, needsWrite: bool)
      requires Valid() && Open() && m < |mem| && (needsWrite || mem[m].flags == newFlags)
      modifies this, states
      ensures states.Grown() && Valid() && Open() && SameMode()
        && mem == old(mem)[m := old(mem)[m].(flags := newFlags)] && kinds == old(kinds)
      ensures old(Exact()) ==> Exact()
      ensures m < n && useCache ==> Learned(old(Says()), Says(), m, FlagsAre(newFlags))
    {
      hide True, AllUnknown, AllUnsigned, NoNegZero, KindsFit, Learned;
      SizedMem(Says(), mem, kinds, n, false);
      ghost var v, mem' := Says(), mem[m := mem[m].(flags := newFlags)];
      FlagsFit(mem, kinds, m, newFlags);
      if m >= n {
        assert kinds[m := kinds[m]] == kinds;
        if needsWrite {
          WriteUncached(m, mem[m].(flags := newFlags), kinds[m]);
        }
        assert mem == mem';
        return;
      }
      var state := CacheStateNow();
      KnownFlags(v, mem, kinds, n, false, m);
      if state.Is().IsFlagKnown(m) && state.allFlags[m] == newFlags {
        assert mem' == mem;
        KnownAlready(v, m);
        return;
      }
      FlagsTrue(v, mem, kinds, n, Exact(), m, newFlags);
      if needsWrite {
        mem := mem[m := mem[m].(flags := newFlags)];
      }
      assert mem == mem';
      if !useCache {
        UnknownTrue(mem, kinds, n, false);
        UnknownTrue(mem, kinds, n, true);
        return;
      }
      LearnFlags(m, newFlags, v, old(Exact()));
    }

    method SetFlags(m: nat, newFlags: nat)
      requires Valid() && Open() && m < |mem|
      modifies this, states
      ensures states.Grown() && Valid() && Open() && SameMode()
        && mem == old(mem)[m := old(mem)[m].(flags := newFlags)] && kinds == old(kinds)
      ensures old(Exact()) ==> Exact()
      ensures m < n && useCache ==> Learned(old(Says()), Says(), m, FlagsAre(newFlags))
    {
      hide Learned;
      SetFlagsTo(m, newFlags, true);
    }

    /** The caller has written these flags to memory, and the cache is to know them. */
    method AssureFlags(m: nat, newFlags: nat)
      requires Valid() && Open() && m < |mem| && mem[m].flags == newFlags
      modifies this, states
      ensures states.Grown() && Valid() && Open() && SameMode() && mem == old(mem) && kinds == old(kinds)
      ensures old(Exact()) ==> Exact()
      ensures m < n && useCache ==> Learned(old(Says()), Says(), m, FlagsAre(newFlags))
    {
      hide Learned;
      SetFlagsTo(m, newFlags, false);
      assert old(mem)[m := old(mem)[m].(flags := newFlags)] == old(mem);
    }

    // What get_u_i returns: the list of integers was never written.
    ghost function HeldInt(m: nat): int
      requires Holds() && m < |mem|
      reads this, Objects()
    {
      hide AllUnknown;
      if m >= n || !Says().IsIntKnown(m) then machine.ReadInt(mem[m].u)
      else if Says().IsConstant(m) then Says().uiConstants[m] else 0
    }

    // What get_u_r returns.
    ghost function HeldReal(m: nat): Double
      requires Holds() && m < |mem|
      reads this, Objects()
    {
      hide AllUnknown;
      if m >= n || !Says().IsRealKnown(m) then machine.ReadReal(mem[m].u)
      else if Says().IsConstant(m) then Says().urConstants[m] else Finite(0.0)
    }

    /** An integer that was written as one is read back; so is one from memory. */
    method GetInt(m: nat) returns (x: int)
      requires Valid() && Open() && m < |mem|
      ensures x == HeldInt(m) && ((m < n ==> kinds[m] != KReal) ==> x == machine.ReadInt(mem[m].u))
    {
      hide AllUnknown;
      if m >= n {
        return machine.ReadInt(mem[m].u);
      }
      var state := CacheStateNow();
      assert TrueAt(state.Is(), mem, kinds, m, false);
      if state.Is().IsIntKnown(m) && state.Is().IsConstant(m) {
        return state.uiConstants[m];
      }
      if state.Is().IsIntKnown(m) {
        return integers[m];
      }
      x := machine.ReadInt(mem[m].u);
    }

    /** A real number that was written as one is read back, but for the sign of a zero; so is one from memory. */
    method GetReal(m: nat) returns (x: Double)
      requires Valid() && Open() && m < |mem|
      ensures x == HeldReal(m)
      ensures (m < n ==> kinds[m] != KInt) ==> Unsigned(x) == Unsigned(machine.ReadReal(mem[m].u))
      ensures (m < n ==> kinds[m] != KInt) && (Exact() || !useCache) ==> x == machine.ReadReal(mem[m].u)
    {
      hide AllUnknown;
      if m >= n {
        return machine.ReadReal(mem[m].u);
      }
      var state := CacheStateNow();
      assert TrueAt(state.Is(), mem, kinds, m, false);
      if Exact() {
        assert TrueAt(state.Is(), mem, kinds, m, true);
      }
      if !useCache {
        UnknownAt(n, m);
      }
      if state.Is().IsRealKnown(m) && state.Is().IsConstant(m) {
        return state.urConstants[m];
      }
      if state.Is().IsRealKnown(m) {
        return floats[m];
      }
      x := machine.ReadReal(mem[m].u);
    }

    // What a write of an integer makes known, once it is in memory: v is what was known.
    method LearnInt(m: nat, x: int, constant: bool, ghost v: View, ghost exact: bool)
      requires Open() && states.Valid() && Made() && v == Says() && Has(v, m) && v.Sized(n) && KindsFit(mem, kinds)
      requires True(AfterInt(v, m, x, constant), mem, kinds, n, false)
      requires exact ==> states.Clean() && NoNegZero(v.urConstants)
      requires exact ==> True(AfterInt(v, m, x, constant), mem, kinds, n, true)
      modifies `virt, `nonvirt, states
      ensures states.Grown() && Valid() && Open() && SameMode()
      ensures useCache ==> Plain(Says()) == Plain(AfterInt(v, m, x, constant))
      ensures useCache ==> Learned(v, Says(), m, IntIs(x, constant))
      ensures exact ==> Exact()
    {
      hide True, AllUnknown, AllUnsigned, NoNegZero, KindsFit, Plain, Eq, AfterInt, Learned;
      if exact {
        AfterIntClean(v, m, x, constant);
      }
      var state := CacheStateNow();
      var next := states.NextInt(state, m, x, constant, v);
      Keep(next, AfterInt(v, m, x, constant), exact);
      if useCache {
        Learns(v, Says(), m, IntIs(x, constant));
      }
    }

    method SetInt(m: nat, x: int, constant: bool)
      requires Valid() && Open() && m < |mem|
      modifies this, states
      ensures states.Grown() && Valid() && Open() && SameMode() && mem == old(mem)[m := old(mem)[m].(u := OfInt(x))]
        && kinds == old(kinds)[m := KInt]
      ensures m < n && useCache ==> Plain(Says()) == Plain(AfterInt(old(Says()), m, x, constant))
      ensures m < n && useCache ==> Learned(old(Says()), Says(), m, IntIs(x, constant))
      ensures old(Exact()) ==> Exact()
    {
      hide True, AllUnknown, AllUnsigned, NoNegZero, KindsFit, AfterInt, Plain, Learned;
      SizedMem(Says(), mem, kinds, n, false);
      ValueFits(mem, kinds, m, OfInt(x), KInt);
      if m >= n {
        WriteUncached(m, mem[m].(u := OfInt(x)), KInt);
        return;
      }
      ghost var v := Says();
      IntTrue(v, mem, kinds, n, Exact(), m, x, constant);
      mem := mem[m := mem[m].(u := OfInt(x))];
      kinds := kinds[m := KInt];
      LearnInt(m, x, constant, v, old(Exact()));
    }

    // What a write of a real number makes known, once it is in memory: v is what was known.
    method LearnReal(m: nat, x: Double, constant: bool, ghost v: View, ghost exact: bool)
      requires Open() && states.Valid() && Made() && v == Says() && Has(v, m) && v.Sized(n) && KindsFit(mem, kinds)
      requires True(AfterReal(v, m, x, constant), mem, kinds, n, false)
      requires exact ==> states.Clean() && NoNegZero(v.urConstants) && (constant ==> x != NegZero)
      requires exact ==> True(AfterReal(v, m, x, constant), mem, kinds, n, true)
      modifies `virt, `nonvirt, states
      ensures states.Grown() && Valid() && Open() && SameMode()
      ensures useCache ==> Plain(Says()) == Plain(AfterReal(v, m, x, constant))
      ensures useCache && constant ==>
        m < |Says().urConstants| && (Says().urConstants[m] == x <==> old(states.SignKept(v, m, x)))
      ensures exact ==> Exact()
    {
      hide True, AllUnknown, AllUnsigned, NoNegZero, KindsFit, Plain, Eq, AfterReal;
      if exact {
        AfterRealClean(v, m, x, constant);
      }
      var state := CacheStateNow();
      var next := states.NextReal(state, m, x, constant, v);
      Keep(next, AfterReal(v, m, x, constant), exact);
    }

    method SetReal(m: nat, x: Double, constant: bool)
      requires Valid() && Open() && m < |mem|
      modifies this, states
      ensures states.Grown() && Valid() && Open() && SameMode() && mem == old(mem)[m := old(mem)[m].(u := OfReal(x))]
        && kinds == old(kinds)[m := KReal]
      ensures m < n && useCache ==> Plain(Says()) == Plain(AfterReal(old(Says()), m, x, constant))
      ensures m < n && useCache ==> Learned(old(Says()), Says(), m, RealIs(x, constant))
      ensures m < n && useCache && constant ==>
        m < |Says().urConstants| && (Says().urConstants[m] == x <==> old(states.SignKept(Says(), m, x)))
      ensures old(Exact()) && (constant ==> x != NegZero) ==> Exact()
    {
      hide True, AllUnknown, AllUnsigned, NoNegZero, KindsFit, AfterReal, Plain, Eq, Learned;
      SizedMem(Says(), mem, kinds, n, false);
      ValueFits(mem, kinds, m, OfReal(x), KReal);
      if m >= n {
        WriteUncached(m, mem[m].(u := OfReal(x)), KReal);
        return;
      }
      ghost var v := Says();
      RealTrue(v, mem, kinds, n, Exact(), m, x, constant);
      mem := mem[m := mem[m].(u := OfReal(x))];
      kinds := kinds[m := KReal];
      LearnReal(m, x, constant, v, old(Exact()) && (constant ==> x != NegZero));
      if useCache {
        Learns(v, Says(), m, RealIs(x, constant));
      }
    }

    // Nothing is known any more of a register that was written: v is what was known.
    method Forget(m: nat, ghost v: View, ghost exact: bool)
      requires Open() && states.Valid() && Made() && v == Says() && Has(v, m) && v.Sized(n) && KindsFit(mem, kinds)
      requires True(Forgotten(v, m), mem, kinds, n, false)
      requires exact ==> states.Clean() && NoNegZero(v.urConstants) && True(Forgotten(v, m), mem, kinds, n, true)
      modifies `virt, `nonvirt, states
      ensures states.Grown() && Valid() && Open() && SameMode()
      ensures useCache ==> Learned(v, Says(), m, AnyMore)
      ensures exact ==> Exact()
    {
      hide True, AllUnknown, AllUnsigned, NoNegZero, KindsFit, Forgotten, Learned;
      if exact {
        ForgottenClean(v, m);
      }
      var state := CacheStateNow();
      var next := states.SetUnknown(state, m, v);
      Keep(next, Forgotten(v, m), exact);
      if useCache {
        Learns(v, Says(), m, AnyMore);
      }
    }

    /** A register is written behind the back of the cache, which is told; for others there is nothing to tell. */
    method OutsideWrite(m: nat, cell: Mem)
      requires Valid() && Open() && m < |mem|
      modifies this, states
      ensures states.Grown() && Valid() && Open() && SameMode() && mem == old(mem)[m := cell]
        && kinds == old(kinds)[m := Any]
      ensures m < n && useCache ==> Learned(old(Says()), Says(), m, AnyMore)
      ensures old(Exact()) ==> Exact()
    {
      hide True, AllUnknown, AllUnsigned, NoNegZero, KindsFit, Learned;
      SizedMem(Says(), mem, kinds, n, false);
      AnyFits(mem, kinds, m, cell);
      if m >= n {
        WriteUncached(m, cell, Any);
        return;
      }
      ghost var v := Says();
      ForgottenTrue(v, mem, kinds, n, Exact(), m, cell);
      mem := mem[m := cell];
      kinds := kinds[m := Any];
      Forget(m, v, old(Exact()));
    }

    /** All registers may have been written. */
    method InvalidateAll(newMem: seq<Mem>)
      requires Valid() && Open() && |newMem| == |mem|
      modifies this
      ensures states.Grown() && Valid() && Open() && SameMode() && mem == newMem && kinds == seq(|newMem|, _ => Any)
      ensures Says() == AllUnknown(n)
      ensures old(Exact()) ==> Exact()
    {
      hide True, AllUnknown, AllUnsigned, NoNegZero;
      SizedMem(Says(), mem, kinds, n, false);
      mem := newMem;
      kinds := seq(|newMem|, _ => Any);
      UnknownTrue(newMem, kinds, n, false);
      UnknownTrue(newMem, kinds, n, true);
      Keep(invalid, AllUnknown(n), old(Exact()));
    }

    // Between two calls of the main loop.
    method InvalidateAllOutside(newMem: seq<Mem>)
      requires Valid() && virt == null && nonvirt != null && |newMem| == |mem|
      modifies this
      ensures Valid() && virt == null && nonvirt != null && mem == newMem && kinds == seq(|newMem|, _ => Any)
      ensures old(Exact()) ==> Exact()
    {
      hide True, AllUnknown, AllUnsigned, NoNegZero;
      SizedMem(Says(), mem, kinds, n, false);
      mem := newMem;
      kinds := seq(|newMem|, _ => Any);
      UnknownTrue(newMem, kinds, n, false);
      UnknownTrue(newMem, kinds, n, true);
      nonvirt := invalid;
    }

    /** The main loop is entered: what was known is known still. */
    method Reenter() returns (s: CacheState)
      requires Valid() && virt == null && nonvirt != null
      modifies this
      ensures Valid() && virt == s && nonvirt == null && mem == old(mem) && kinds == old(kinds) && s == old(Current())
      ensures old(Exact()) ==> Exact()
    {
      hide True, AllUnknown, NoNegZero, KindsFit;
      s := nonvirt;
      nonvirt := null;
      virt := s;
    }

    method PrepareReturn()
      requires Valid() && virt != null && nonvirt == null
      modifies this
      ensures Valid() && virt == null && nonvirt != null && mem == old(mem) && kinds == old(kinds)
        && Current() == old(Current())
      ensures old(Exact()) ==> Exact()
    {
      hide True, AllUnknown, NoNegZero, KindsFit;
      nonvirt := CacheStateNow();
      virt := null;
    }

    // The state is put away across a jump back, in a variable of the main loop, and taken up again.
    method Hide() returns (ghost s: CacheState)
      requires Valid() && virt != null && nonvirt == null
      modifies this
      ensures Valid() && !Open() && hidden == s == old(Current()) && mem == old(mem) && kinds == old(kinds)
      ensures old(Exact()) ==> Exact()
    {
      hide True, AllUnknown, NoNegZero, KindsFit;
      s := virt;
      hidden := virt;
      virt := null;
    }

    method Reveal(x: CacheState)
      requires Valid() && nonvirt == null && x == Current()
      modifies this
      ensures Valid() && virt == x && nonvirt == null && mem == old(mem) && kinds == old(kinds)
      ensures old(Exact()) ==> Exact()
    {
      hide True, AllUnknown, NoNegZero, KindsFit;
      virt := x;
    }
  }

  // ----- Runs -----

  /**
  What the main loop and its opcodes ask of the cache: reads and writes of registers, writes behind its back, a jump
  back (hide and reveal), and a return to the caller (prepare_return and reenter) between which registers may be
  written.
  */
  datatype Request =
    | ReadFlags(m: nat)
    | WriteFlags(m: nat, flags: nat)
    | KnowFlags(m: nat, flags: nat)
    | ReadInt(m: nat)
    | ReadReal(m: nat)
    | WriteInt(m: nat, i: int, constant: bool)
    | WriteReal(m: nat, r: Double, constant: bool)
    | WriteOutside(m: nat, cell: Mem)
    | ForgetAll(mem: seq<Mem>)
    | JumpBack
    | Return
    | ReturnForget(mem: seq<Mem>)

  datatype Answer = Nothing | Flags(flags: nat) | Int(i: int) | Real(r: Double)

  /** The memory, and which kind each register was last written as. */
  datatype Registers = Registers(mem: seq<Mem>, kinds: seq<Kind>)

  /** Reads are of the kind last written; flags that are assured are in memory. */
  predicate Allowed(n: nat, s: Registers, q: Request) {
    |s.kinds| == |s.mem| &&
    match q
    case ReadFlags(m) => m < |s.mem|
    case WriteFlags(m, _) => m < |s.mem|
    case KnowFlags(m, flags) => m < |s.mem| && s.mem[m].flags == flags
    case ReadInt(m) => m < |s.mem| && (m < n ==> s.kinds[m] != KReal)
    case ReadReal(m) => m < |s.mem| && (m < n ==> s.kinds[m] != KInt)
    case WriteInt(m, _, _) => m < |s.mem|
    case WriteReal(m, _, _) => m < |s.mem|
    case WriteOutside(m, _) => m < |s.mem|
    case ForgetAll(mem) => |mem| == |s.mem|
    case JumpBack => true
    case Return => true
    case ReturnForget(mem) => |mem| == |s.mem|
  }

  /** What a request does to the registers: the same, however much is cached. */
  function After(n: nat, s: Registers, q: Request): Registers
    requires Allowed(n, s, q)
  {
    match q
    case WriteFlags(m, flags) => s.(mem := s.mem[m := s.mem[m].(flags := flags)])
    case WriteInt(m, i, _) => Registers(s.mem[m := s.mem[m].(u := OfInt(i))], s.kinds[m := KInt])
    case WriteReal(m, r, _) => Registers(s.mem[m := s.mem[m].(u := OfReal(r))], s.kinds[m := KReal])
    case WriteOutside(m, cell) => Registers(s.mem[m := cell], s.kinds[m := Any])
    case ForgetAll(mem) => Registers(mem, seq(|mem|, _ => Any))
    case ReturnForget(mem) => Registers(mem, seq(|mem|, _ => Any))
    case _ => s
  }

  /** What is read from memory. */
  function Reads(machine: Machine, n: nat, s: Registers, q: Request): Answer
    requires Allowed(n, s, q)
  {
    match q
    case ReadFlags(m) => Flags(s.mem[m].flags)
    case ReadInt(m) => Int(machine.ReadInt(s.mem[m].u))
    case ReadReal(m) => Real(machine.ReadReal(s.mem[m].u))
    case _ => Nothing
  }

  /** Every request of a run is allowed when its turn comes. */
  predicate AllAllowed(n: nat, s: Registers, qs: seq<Request>)
    decreases |qs|
  {
    qs == [] || (Allowed(n, s, qs[0]) && AllAllowed(n, After(n, s, qs[0]), qs[1..]))
  }

  /** The answers to a run of requests, from memory alone. */
  function Answers(machine: Machine, n: nat, s: Registers, qs: seq<Request>): seq<Answer>
    requires AllAllowed(n, s, qs)
    decreases |qs|
  {
    if qs == [] then [] else [Reads(machine, n, s, qs[0])] + Answers(machine, n, After(n, s, qs[0]), qs[1..])
  }

  // An answer without the sign of a zero.
  function Plainly(a: Answer): Answer {
    if a.Real? then Real(Unsigned(a.r)) else a
  }

  /** The same answers, but for the signs of zeros. */
  predicate Alike(a: seq<Answer>, b: seq<Answer>) {
    |a| == |b| && forall i :: 0 <= i < |a| ==> Plainly(a[i]) == Plainly(b[i])
  }

  predicate NegZeroConstant(q: Request) {
    q.WriteReal? && q.constant && q.r == NegZero
  }

  // In the main loop.
  predicate Running(h: CacheHolder)
    reads h
  {
    h.virt != null && h.nonvirt == null
  }

  /** One request, served with or without the cache; with it, a zero may be read with the other sign. */
  method Serve(h: CacheHolder, q: Request) returns (a: Answer)
    requires h.Valid() && Running(h) && Allowed(h.n, Registers(h.mem, h.kinds), q)
    modifies h, h.states
    ensures h.Valid() && Running(h) && h.states.Grown()
    ensures var s := Registers(old(h.mem), old(h.kinds));
      && Plainly(a) == Plainly(Reads(h.machine, h.n, s, q)) && Registers(h.mem, h.kinds) == After(h.n, s, q)
      && (old(h.Exact()) || !h.useCache ==> a == Reads(h.machine, h.n, s, q))
    ensures old(h.Exact()) && !NegZeroConstant(q) ==> h.Exact()
  {
    hide True, AllUnknown, NoNegZero, KindsFit;
    a := Nothing;
    match q {
      case ReadFlags(m) =>
        var flags := h.GetFlags(m);
        a := Flags(flags);
      case WriteFlags(m, flags) => h.SetFlags(m, flags);
      case KnowFlags(m, flags) => h.AssureFlags(m, flags);
      case ReadInt(m) =>
        var i := h.GetInt(m);
        a := Int(i);
      case ReadReal(m) =>
        var r := h.GetReal(m);
        a := Real(r);
      case WriteInt(m, i, constant) => h.SetInt(m, i, constant);
      case WriteReal(m, r, constant) => h.SetReal(m, r, constant);
      case WriteOutside(m, cell) => h.OutsideWrite(m, cell);
      case ForgetAll(mem) => h.InvalidateAll(mem);
      case JumpBack =>
        var state := h.CacheStateNow();
        ghost var hidden := h.Hide();
        h.Reveal(state);
      case Return =>
        h.PrepareReturn();
        var state := h.Reenter();
      case ReturnForget(mem) =>
        h.PrepareReturn();
        h.InvalidateAllOutside(mem);
        var state := h.Reenter();
    }
  }

  lemma UncachedExact(h: CacheHolder)
    requires h.Valid() && !h.useCache && h.states.Clean()
    ensures h.Exact()
  {
    UnknownTrue(h.mem, h.kinds, h.n, true);
  }

  // One query is served beside another, which knows what it knew, also when they share the table.
  method ServeBeside(h: CacheHolder, o: CacheHolder, q: Request) returns (a: Answer)
    requires h.Valid() && Running(h) && Allowed(h.n, Registers(h.mem, h.kinds), q) && o.Valid() && o != h
    modifies h, h.states
    ensures h.Valid() && Running(h) && h.states.Grown() && o.Valid()
    ensures o.states == h.states || unchanged(o.states)
    ensures var s := Registers(old(h.mem), old(h.kinds));
      && Plainly(a) == Plainly(Reads(h.machine, h.n, s, q)) && Registers(h.mem, h.kinds) == After(h.n, s, q)
      && (old(h.Exact()) || !h.useCache ==> a == Reads(h.machine, h.n, s, q))
    ensures old(h.Exact()) && !NegZeroConstant(q) ==> h.Exact()
    ensures old(o.Exact()) && (h.states == o.states ==> h.Exact()) ==> o.Exact()
  {
    hide True, AllUnknown, AllUnsigned, NoNegZero, KindsFit, Allowed, After, Reads, NegZeroConstant;
    a := Serve(h, q);
    assert o.Holds();
  }

  // One request, served by both.
  method ServeBoth(c: CacheHolder, u: CacheHolder, q: Request, ghost exact: bool) returns (a: Answer, b: Answer)
    requires c.Valid() && Running(c) && c.useCache && u.Valid() && Running(u) && !u.useCache
    requires c != u && c.n == u.n && c.machine == u.machine && c.mem == u.mem && c.kinds == u.kinds
    requires Allowed(c.n, Registers(c.mem, c.kinds), q) && (exact ==> c.Exact() && !NegZeroConstant(q))
    modifies c, u, c.states, u.states
    ensures c.Valid() && Running(c) && u.Valid() && Running(u) && c.states.Grown() && u.states.Grown()
    ensures var s := Registers(old(c.mem), old(c.kinds));
      && b == Reads(c.machine, c.n, s, q) && Plainly(a) == Plainly(b) && (exact ==> a == b && c.Exact())
      && Registers(c.mem, c.kinds) == After(c.n, s, q) && c.mem == u.mem && c.kinds == u.kinds
  {
    hide True, AllUnknown, AllUnsigned, NoNegZero, KindsFit, Allowed, After, Reads, NegZeroConstant;
    a := ServeBeside(c, u, q);
    if exact && c.states == u.states {
      UncachedExact(u);
    }
    b := ServeBeside(u, c, q);
  }

  /**
  Over any run of requests a query that caches answers as one that does not, with the same memory, but for the signs of
  zeros; and exactly alike if no constant of the run is -0.0, and none has been in the table of states. No state that
  was interned before the run says anything else after it. The queries may share the table.
  */
  method Run(c: CacheHolder, u: CacheHolder, qs: seq<Request>) returns (cached: seq<Answer>, uncached: seq<Answer>)
    requires c.Valid() && Running(c) && c.useCache && u.Valid() && Running(u) && !u.useCache
    requires c != u && c.n == u.n && c.machine == u.machine && c.mem == u.mem && c.kinds == u.kinds
    requires AllAllowed(c.n, Registers(c.mem, c.kinds), qs)
    modifies c, u, c.states, u.states
    ensures uncached == Answers(c.machine, c.n, Registers(old(c.mem), old(c.kinds)), qs) && Alike(cached, uncached)
    ensures old(c.Exact()) && (forall q :: q in qs ==> !NegZeroConstant(q)) ==> cached == uncached
    ensures c.mem == u.mem && c.Valid() && u.Valid()
    ensures c.states.Grown() && u.states.Grown()
  {
    hide Allowed, After, Reads, True, AllUnknown, NoNegZero, KindsFit;
    cached, uncached := [], [];
    ghost var s0 := Registers(c.mem, c.kinds);
    ghost var exact := c.Exact() && forall q :: q in qs ==> !NegZeroConstant(q);
    var k := 0;
    while k < |qs|
      invariant 0 <= k <= |qs| && c.Valid() && Running(c) && u.Valid() && Running(u) && c.mem == u.mem
        && c.kinds == u.kinds
      invariant AllAllowed(c.n, Registers(c.mem, c.kinds), qs[k..]) && Alike(cached, uncached)
      invariant uncached + Answers(c.machine, c.n, Registers(c.mem, c.kinds), qs[k..])
        == Answers(c.machine, c.n, s0, qs)
      invariant exact ==> c.Exact() && cached == uncached
      invariant c.states.Grown() && u.states.Grown()
    {
      assert qs[k..][1..] == qs[k + 1..];
      var a, b := ServeBoth(c, u, qs[k], exact);
      cached, uncached := cached + [a], uncached + [b];
      k := k + 1;
    }
  }

  // ----- Where a read is not what was written -----

  ghost predicate KnowsInt(h: CacheHolder, m: nat)
    reads h, h.Objects()
  {
    m < h.n && m < |h.Says().cacheStates| == |h.Says().uiConstants| && h.Says().IsIntKnown(m)
  }

  ghost predicate KnowsReal(h: CacheHolder, m: nat)
    reads h, h.Objects()
  {
    m < h.n && m < |h.Says().cacheStates| == |h.Says().urConstants| && h.Says().IsRealKnown(m)
  }

  /**
  A constant that is read back after it was written is the one that was written exactly if the register is not cached,
  or the interned state holds it with its sign; it is never another number.
  */
  method ReadBack(h: CacheHolder, m: nat, x: Double) returns (y: Double)
    requires h.Valid() && h.Open() && m < |h.mem|
    modifies h, h.states
    ensures y == x <==> m >= h.n || !h.useCache || old(h.states.SignKept(h.Says(), m, x))
    ensures Unsigned(y) == Unsigned(x)
  {
    hide True, AllUnknown, AllUnsigned, NoNegZero, KindsFit;
    ghost var v := h.Says();
    SizedMem(v, h.mem, h.kinds, h.n, false);
    h.SetReal(m, x, true);
    if m < h.n && h.useCache {
      Bits(v.cacheStates[m]);
      PlainSizes(h.Says(), AfterReal(v, m, x, true));
    }
    y := h.GetReal(m);
  }

  /** On a register of which nothing is known, and from an empty table, -0.0 is read back as 0.0. */
  method NegativeZero(machine: Machine, mem: seq<Mem>, n: nat, m: nat) returns (cached: Double, uncached: Double)
    requires m < n <= |mem|
    ensures cached == Finite(0.0) && uncached == NegZero
  {
    hide True, AllUnsigned, NoNegZero, KindsFit;
    var states := new Interned();
    var c := new CacheHolder(n, true, machine, mem, states);
    Unequal(m);
    cached := ReadBack(c, m, NegZero);
    var others := new Interned();
    var u := new CacheHolder(n, false, machine, mem, others);
    uncached := ReadBack(u, m, NegZero);
  }

  lemma Unequal(m: nat)
    ensures forall n: nat :: m < n ==> Knowing(AllUnknown(n), m, REAL_CONSTANT) != AllUnknown(n)
    ensures forall n: nat :: NoNaN(AllUnknown(n).urConstants)
  {
    forall n: nat | m < n
      ensures Knowing(AllUnknown(n), m, REAL_CONSTANT) != AllUnknown(n)
    {
      Bits(0);
      assert Knowing(AllUnknown(n), m, REAL_CONSTANT).cacheStates[m] == STATE_UNKNOWN | REAL_CONSTANT;
    }
  }

  // What is known of the other kind after a write, from a state that may hold other signs of zeros.
  lemma RealKept(v: View, w: View, i: nat, x: int, constant: bool)
    requires Has(v, i) && Plain(w) == Plain(AfterInt(v, i, x, constant))
    ensures Has(w, i) && (w.IsRealKnown(i) <==> v.IsRealKnown(i)) && (w.IsConstant(i) <==> constant)
    ensures Unsigned(w.urConstants[i]) == Unsigned(v.urConstants[i])
  {
    Bits(v.cacheStates[i]);
    OtherKind(v.cacheStates[i]);
    PlainSizes(w, AfterInt(v, i, x, constant));
    UnsignedAt(w.urConstants, v.urConstants, i);
  }

  lemma IntKept(v: View, w: View, i: nat, x: Double, constant: bool)
    requires Has(v, i) && Plain(w) == Plain(AfterReal(v, i, x, constant))
    ensures Has(w, i) && (w.IsIntKnown(i) <==> v.IsIntKnown(i)) && (w.IsConstant(i) <==> constant)
    ensures w.uiConstants[i] == v.uiConstants[i]
  {
    Bits(v.cacheStates[i]);
    OtherKind(v.cacheStates[i]);
    PlainSizes(w, AfterReal(v, i, x, constant));
  }

  /**
  An integer read after a real number was written: the integer that was known before, if there was one, or 0 if the
  write was not constant; only otherwise, or by chance, what the memory holds.
  */
  method RealThenInt(h: CacheHolder, m: nat, x: Double, constant: bool) returns (y: int)
    requires h.Valid() && h.Open() && m < |h.mem|
    modifies h, h.states
    ensures h.mem == old(h.mem)[m := old(h.mem)[m].(u := OfReal(x))]
    ensures y == old(if !KnowsInt(h,
                                  m) then h.machine.intOfReal(x) else if constant then h.Says().uiConstants[m] else 0)
  {
    hide True, AllUnknown, AllUnsigned, NoNegZero, KindsFit, Plain, AfterInt, AfterReal;
    ghost var v := h.Says();
    SizedMem(v, h.mem, h.kinds, h.n, false);
    h.SetReal(m, x, constant);
    if m < h.n {
      UnknownAt(h.n, m);
      if h.useCache {
        IntKept(v, h.Says(), m, x, constant);
      }
    }
    y := h.GetInt(m);
  }

  /** The same for a real number that is read after an integer was written. */
  method IntThenReal(h: CacheHolder, m: nat, x: int, constant: bool) returns (y: Double)
    requires h.Valid() && h.Open() && m < |h.mem|
    modifies h, h.states
    ensures h.mem == old(h.mem)[m := old(h.mem)[m].(u := OfInt(x))]
    ensures Unsigned(y) == old(
      if !KnowsReal(h, m) then Unsigned(h.machine.realOfInt(x))
      else if constant then Unsigned(h.Says().urConstants[m]) else Finite(0.0))
  {
    hide True, AllUnknown, AllUnsigned, NoNegZero, KindsFit, Plain, AfterInt, AfterReal;
    ghost var v := h.Says();
    SizedMem(v, h.mem, h.kinds, h.n, false);
    h.SetInt(m, x, constant);
    if m < h.n {
      UnknownAt(h.n, m);
      if h.useCache {
        RealKept(v, h.Says(), m, x, constant);
      }
    }
    y := h.GetReal(m);
  }

  // What a state of one register says.
  function One(flags: nat, status: bv8, r: Double): View {
    View([flags], [status], [0], [r])
  }

  lemma OneSteps(flags: nat, x: Double)
    ensures WithReal(One(flags, 0, Finite(0.0)), 0, x) == One(flags, 12, x)
    ensures WithReal(One(flags, 13, Finite(0.0)), 0, x) == One(flags, 13, x)
    ensures WithReal(One(flags, 13, Finite(5.0)), 0, x) == One(flags, 13, x)
    ensures Knowing(One(flags, 0, x), 0, REAL_CONSTANT) == One(flags, 12, x)
    ensures Knowing(One(flags, 13, x), 0, REAL_CONSTANT) == One(flags, 13, x)
    ensures Knowing(One(flags, 12, x), 0, STATE_FLAG_KNOWN) == One(flags, 13, x)
    ensures Knowing(One(flags, 13, x), 0, STATE_FLAG_KNOWN) == One(flags, 13, x)
    ensures Has(One(flags, 13, x), 0) && Has(One(flags, 12, x), 0) && Has(One(flags, 0, x), 0)
    ensures forall f: nat :: WithFlags(One(flags, 12, x), 0, f) == One(f, 13, x)
    ensures forall f: nat :: WithFlags(One(flags, 13, x), 0, f) == One(f, 13, x)
    ensures NoNegZero([x]) <==> x != NegZero
    ensures NoNaN([x]) <==> !x.NaN?
    ensures AllUnsigned([x]) == [Unsigned(x)]
  {
    assert [x][0] == x;
  }

  ghost predicate NoneLike(t: Interned, v: View)
    reads t, t.table
  {
    forall e :: e in t.table ==> Plain(e.Is()) != Plain(v)
  }

  // A state with flags 9 and a zero.
  method ZeroState() returns (t: Interned, z: CacheState)
    ensures fresh(t) && t.Valid() && t.Clean() && z in t.table && z.Is() == One(9, 13, Finite(0.0))
    ensures NoneLike(t, One(7, 13, NegZero))
  {
    hide AllUnsigned, NoNegZero, NoNaN, WithReal, WithFlags, Knowing, Has, Eq;
    OneSteps(0, Finite(0.0));
    OneSteps(9, Finite(0.0));
    OneSteps(7, NegZero);
    t := new Interned();
    var s := new CacheState(One(0, STATE_UNKNOWN, Finite(0.0)));
    s := t.SetRealConstant(s, 0, Finite(0.0), One(0, STATE_UNKNOWN, Finite(0.0)));
    assert NoneLike(t, One(7, 13, NegZero));
    z := t.ChangeFlags(s, 0, 9, One(0, 12, Finite(0.0)));
  }

  // And one with flags 7 and a number that is not a zero.
  method TwoStates() returns (t: Interned, z: CacheState, s: CacheState)
    ensures fresh(t) && t.Valid() && t.Clean() && z in t.table && s in t.table
    ensures z.Is() == One(9, 13, Finite(0.0)) && s.Is() == One(7, 13, Finite(5.0))
    ensures NoneLike(t, One(7, 13, NegZero))
  {
    hide AllUnsigned, NoNegZero, NoNaN, WithReal, WithFlags, Knowing, Has, Eq;
    OneSteps(9, Finite(0.0));
    OneSteps(9, Finite(5.0));
    OneSteps(7, Finite(5.0));
    OneSteps(7, NegZero);
    t, z := ZeroState();
    s := t.SetRealConstant(z, 0, Finite(5.0), One(9, 13, Finite(0.0)));
    assert NoneLike(t, One(7, 13, NegZero));
    s := t.ChangeFlags(s, 0, 7, One(9, 13, Finite(5.0)));
  }

  /**
  A -0.0 that is held as it was written, and so read back, can become 0.0 when flags are written: the new state is equal
  to one that was interned before with 0.0.
  */
  method FlagsFlip() returns (before: Double, after: Double)
    ensures before == NegZero && after == Finite(0.0)
  {
    hide AllUnsigned, NoNegZero, NoNaN, WithReal, WithFlags, Has;
    OneSteps(7, Finite(5.0));
    OneSteps(7, NegZero);
    OneSteps(9, Finite(0.0));
    OneSteps(9, NegZero);
    var t, z, s := TwoStates();
    s := t.SetRealConstant(s, 0, NegZero, One(7, 13, Finite(5.0)));
    before := s.urConstants[0];
    FlagsLike(s.Is());
    var r := t.ChangeFlags(s, 0, 9, s.Is());
    assert r == z;
    after := r.urConstants[0];
  }

  lemma FlagsLike(v: View)
    requires Plain(v) == Plain(One(7, 13, NegZero))
    ensures Has(v, 0) && Plain(WithFlags(v, 0, 9)) == Plain(One(9, 13, Finite(0.0)))
  {
    PlainSizes(v, One(7, 13, NegZero));
    OneSteps(9, Finite(0.0));
    OneSteps(9, NegZero);
    OneSteps(7, NegZero);
    assert |v.urConstants| == 1 && AllUnsigned(v.urConstants) == [Finite(0.0)];
  }
}
