/**
Bytes, and numbers in them: 32-bit numbers with the most significant byte first (get4byte, put4byte) and the
variable-length integers of util.c, of 1 to 9 bytes with 7 bits of the number in each of the first eight.
*/
module Encoding {
  import opened Arith


  type u8 = x: int | 0 <= x < 256

  type Bytes = seq<u8>

  // A byte; there are zeros after the end.
  function At(b: Bytes, i: nat): u8 {
    if i < |b| then b[i] else 0
  }

  // ----- 32-bit numbers -----

  /** The low 32 bits of a number. */
  function Four(v: nat): (r: Bytes)
    ensures |r| == 4
  {
    [v / 256 / 256 / 256 % 256, v / 256 / 256 % 256, v / 256 % 256, v % 256]
  }

  function Get4(d: Bytes, i: nat): nat
    requires i + 4 <= |d|
  {
    ((d[i] as int * 256 + d[i + 1]) * 256 + d[i + 2]) * 256 + d[i + 3]
  }

  function Put4(d: Bytes, i: nat, v: nat): (r: Bytes)
    requires i + 4 <= |d|
    ensures |r| == |d| && r[i..i + 4] == Four(v)
    ensures forall o :: 0 <= o < |d| && !(i <= o < i + 4) ==> r[o] == d[o]
  {
    d[..i] + Four(v) + d[i + 4..]
  }

  lemma FourValue(v: nat)
    requires v < 0x1_0000_0000
    ensures var f := Four(v); ((f[0] as int * 256 + f[1]) * 256 + f[2]) * 256 + f[3] == v
  {
    var x := v / 256;
    var y := x / 256;
    assert v == x * 256 + v % 256 && x == y * 256 + x % 256 && y == y / 256 * 256 + y % 256;
  }

  lemma GetFour(d: Bytes, i: nat, v: nat)
    requires i + 4 <= |d| && d[i..i + 4] == Four(v) && v < 0x1_0000_0000
    ensures Get4(d, i) == v
  {
    FourValue(v);
    assert d[i] == d[i..i + 4][0] && d[i + 1] == d[i..i + 4][1] && d[i + 2] == d[i..i + 4][2]
      && d[i + 3] == d[i..i + 4][3];
  }

  lemma GetSame(d: Bytes, d': Bytes, i: nat, i': nat)
    requires i + 4 <= |d| && i' + 4 <= |d'| && d[i..i + 4] == d'[i'..i' + 4]
    ensures Get4(d, i) == Get4(d', i')
  {
    var x, y := d[i..i + 4], d'[i'..i' + 4];
    assert x[0] == d[i] && x[1] == d[i + 1] && x[2] == d[i + 2] && x[3] == d[i + 3];
    assert y[0] == d'[i'] && y[1] == d'[i' + 1] && y[2] == d'[i' + 2] && y[3] == d'[i' + 3];
  }

  // ----- Variable-length integers -----

  /** The bytes of the integer that begins at i, when its first k have the high bit set. */
  function Span(b: Bytes, i: nat, k: nat): (n: nat)
    requires k <= 8
    ensures k < n <= 9
    decreases 8 - k
  {
    if k == 8 || At(b, i + k) < 128 then k + 1 else Span(b, i, k + 1)
  }

  function Length(b: Bytes, i: nat): (n: nat)
    ensures 1 <= n <= 9
  {
    Span(b, i, 0)
  }

  // The number in the low 7 bits of k bytes.
  function Groups(b: Bytes, i: nat, k: nat): nat {
    if k == 0 then 0 else Groups(b, i, k - 1) * 128 + At(b, i + k - 1) % 128
  }

  /** The integer that begins at i. */
  function Value(b: Bytes, i: nat): nat {
    if Length(b, i) == 9 then Groups(b, i, 8) * 256 + At(b, i + 8) else Groups(b, i, Length(b, i))
  }

  /** sqlite3GetVarint. */
  method GetVarint(b: Bytes, i: nat) returns (v: nat, n: nat)
    ensures v == Value(b, i) && n == Length(b, i)
  {
    v, n := 0, 0;
    while n < 8 && At(b, i + n) >= 128
      invariant n <= 8 && v == Groups(b, i, n) && Span(b, i, n) == Length(b, i)
    {
      v := v * 128 + At(b, i + n) % 128;
      n := n + 1;
    }
    v := if n == 8 then v * 256 + At(b, i + n) else v * 128 + At(b, i + n);
    n := n + 1;
  }

  // The groups of 7 bits of a number, all with the high bit set.
  function High(v: nat): (r: Bytes)
    ensures |r| > 0
  {
    if v < 128 then [v + 128] else High(v / 128) + [v % 128 + 128]
  }

  function Low(v: nat): (r: Bytes)
    ensures |r| > 0
  {
    if v < 128 then [v] else High(v / 128) + [v % 128]
  }

  // The low k groups.
  function Fixed(v: nat, k: nat): (r: Bytes)
    ensures |r| == k
  {
    if k == 0 then [] else Fixed(v / 128, k - 1) + [v % 128 + 128]
  }

  const TWO56: nat := 0x100_0000_0000_0000
  const TWO64: nat := 0x1_0000_0000_0000_0000

  function Encode(v: nat): (r: Bytes)
    ensures |r| > 0
  {
    if v >= TWO56 then Fixed(v / 256, 8) + [v % 256] else Low(v)
  }

  // putVarint64 for a number of more than 56 bits.
  method PutLong(v: nat) returns (p: Bytes)
    ensures p == Fixed(v / 256, 8) + [v % 256]
  {
    p := [v % 256];
    ghost var last := p;
    var w: nat := v / 256;
    var i := 8;
    while i > 0
      invariant 0 <= i <= 8 && Fixed(v / 256, 8) + last == Fixed(w, i) + p
    {
      i := i - 1;
      p := [w % 128 + 128] + p;
      w := w / 128;
    }
  }

  // putVarint64 for other numbers: the groups from the lowest on, and then the other way round.
  method PutGroups(v: nat) returns (p: Bytes)
    requires v >= 128
    ensures p == Low(v)
  {
    hide High, Low, Reversed;
    var buf: Bytes := [v % 128];
    var w: nat := v / 128;
    LowGroups(v);
    while w != 0
      invariant Low(v) == Rest(w) + Reversed(buf)
      decreases w
    {
      Regroup(w, buf);
      buf := buf + [w % 128 + 128];
      w := w / 128;
    }
    assert Rest(0) + Reversed(buf) == Reversed(buf);
    p := Reverse(buf);
  }

  function Rest(w: nat): Bytes {
    if w > 0 then High(w) else []
  }

  lemma LowGroups(v: nat)
    requires v >= 128
    ensures Low(v) == Rest(v / 128) + Reversed([v % 128])
  {
    assert Reversed([v % 128]) == [v % 128];
  }

  lemma Regroup(w: nat, buf: Bytes)
    requires w > 0
    ensures Rest(w) + Reversed(buf) == Rest(w / 128) + Reversed(buf + [w % 128 + 128])
  {
    hide High, Rest, Reversed;
    ReversedAppend(buf, w % 128 + 128);
    RestStep(w);
    assert (Rest(w / 128) + [w % 128 + 128]) + Reversed(buf) == Rest(w / 128) + ([w % 128 + 128] + Reversed(buf));
  }

  lemma RestStep(w: nat)
    requires w > 0
    ensures Rest(w) == Rest(w / 128) + [w % 128 + 128]
  {}

  lemma ReversedAppend(s: Bytes, x: u8)
    ensures Reversed(s + [x]) == [x] + Reversed(s)
  {
    assert (s + [x])[..|s|] == s;
  }

  method Reverse(buf: Bytes) returns (p: Bytes)
    ensures p == Reversed(buf)
  {
    p := [];
    var j := |buf|;
    assert buf[..|buf|] == buf;
    while j > 0
      invariant 0 <= j <= |buf| && p + Reversed(buf[..j]) == Reversed(buf)
    {
      j := j - 1;
      assert buf[..j + 1] == buf[..j] + [buf[j]];
      ReversedAppend(buf[..j], buf[j]);
      p := p + [buf[j]];
    }
    assert buf[..0] == [];
  }

  /** sqlite3PutVarint: the bytes that are written. */
  method PutVarint(v: nat) returns (p: Bytes)
    requires v < TWO64
    ensures p == Encode(v)
  {
    if v <= 0x7f {
      return [v];
    }
    if v <= 0x3fff {
      assert v / 128 < 128;
      return [v / 128 + 128, v % 128];
    }
    if v >= TWO56 {
      p := PutLong(v);
    } else {
      p := PutGroups(v);
    }
  }

  function Reversed(s: Bytes): Bytes {
    if s == [] then [] else [s[|s| - 1]] + Reversed(s[..|s| - 1])
  }

  // ----- What is encoded is decoded -----

  function Pow128(k: nat): (p: nat)
    ensures p > 0
  {
    if k == 0 then 1 else 128 * Pow128(k - 1)
  }

  lemma {:induction false} HighShort(v: nat, k: nat)
    requires v < Pow128(k) && k > 0
    ensures |High(v)| <= k
  {
    if v >= 128 {
      assert k > 1 by {
        assert Pow128(1) == 128 * Pow128(0);
      }
      HighShort(v / 128, k - 1);
    }
  }

  // The bytes of e stand at i.
  ghost predicate Holds(b: Bytes, i: nat, e: Bytes) {
    i + |e| <= |b| && b[i..i + |e|] == e
  }

  lemma HoldsPart(b: Bytes, i: nat, e: Bytes, f: Bytes)
    requires Holds(b, i, e + f)
    ensures Holds(b, i, e) && Holds(b, i + |e|, f)
  {
    assert b[i..i + |e|] == b[i..i + |e + f|][..|e|];
    assert b[i + |e|..i + |e| + |f|] == b[i..i + |e + f|][|e|..];
  }

  lemma HoldsLast(b: Bytes, i: nat, e: Bytes, x: u8)
    requires Holds(b, i, e + [x])
    ensures Holds(b, i, e) && At(b, i + |e|) == x
  {
    HoldsPart(b, i, e, [x]);
    assert b[i + |e|..i + |e| + 1][0] == x;
  }

  predicate HighBit(b: Bytes, i: nat, k: nat) {
    At(b, i + k) >= 128
  }

  // The first n bytes have the high bit set, and their groups make up v.
  ghost predicate Prefix(b: Bytes, i: nat, n: nat, v: nat) {
    Groups(b, i, n) == v && forall k :: 0 <= k < n ==> HighBit(b, i, k)
  }

  lemma {:induction false} HighGroups(b: Bytes, i: nat, v: nat)
    requires Holds(b, i, High(v))
    ensures Prefix(b, i, |High(v)|, v)
  {
    var n := |High(v)| - 1;
    if v < 128 {
      HoldsLast(b, i, [], v + 128);
      assert [] + [v + 128] == High(v);
      assert Groups(b, i, 0) == 0;
    } else {
      HoldsLast(b, i, High(v / 128), v % 128 + 128);
      HighGroups(b, i, v / 128);
    }
  }

  lemma {:induction false} FixedGroups(b: Bytes, i: nat, v: nat, k: nat)
    requires Holds(b, i, Fixed(v, k)) && v < Pow128(k)
    ensures Prefix(b, i, k, v)
  {
    if k > 0 {
      HoldsLast(b, i, Fixed(v / 128, k - 1), v % 128 + 128);
      FixedGroups(b, i, v / 128, k - 1);
    }
  }

  lemma {:induction false} SpanSkips(b: Bytes, i: nat, k: nat, n: nat)
    requires k <= n <= 8 && forall j :: k <= j < n ==> HighBit(b, i, j)
    ensures Span(b, i, k) == Span(b, i, n)
    decreases n - k
  {
    if k < n {
      assert HighBit(b, i, k);
      SpanSkips(b, i, k + 1, n);
    }
  }

  /** The integer read is the one written, whatever follows, and as many bytes are read as were written. */
  lemma RoundTrip(b: Bytes, i: nat, v: nat)
    requires v < TWO64 && Holds(b, i, Encode(v))
    ensures Value(b, i) == v && Length(b, i) == |Encode(v)|
  {
    if v >= TWO56 {
      RoundTripLong(b, i, v);
    } else if v < 128 {
      HoldsLast(b, i, [], v);
      assert [] + [v] == Encode(v);
      assert Groups(b, i, 0) == 0;
    } else {
      RoundTripShort(b, i, v);
    }
  }

  lemma RoundTripLong(b: Bytes, i: nat, v: nat)
    requires TWO56 <= v < TWO64 && Holds(b, i, Fixed(v / 256, 8) + [v % 256])
    ensures Value(b, i) == v && Length(b, i) == 9
  {
    hide Fixed, Groups, Pow128, Holds;
    Powers();
    HoldsLast(b, i, Fixed(v / 256, 8), v % 256);
    FixedGroups(b, i, v / 256, 8);
    SpanSkips(b, i, 0, 8);
  }

  lemma RoundTripShort(b: Bytes, i: nat, v: nat)
    requires 128 <= v < TWO56 && Holds(b, i, High(v / 128) + [v % 128])
    ensures Value(b, i) == v && Length(b, i) == |High(v / 128)| + 1
  {
    hide High, Pow128, Holds;
    Powers();
    var h := High(v / 128);
    HighShort(v / 128, 7);
    HoldsLast(b, i, h, v % 128);
    HighGroups(b, i, v / 128);
    SpanSkips(b, i, 0, |h|);
    assert Groups(b, i, |h| + 1) == Groups(b, i, |h|) * 128 + v % 128;
  }

  lemma Powers()
    ensures Pow128(4) == 0x1000_0000 && Pow128(7) * 128 == TWO56 && Pow128(8) == TWO56
  {
    assert Pow128(0) == 1;
    assert Pow128(1) == 128;
    assert Pow128(2) == 0x4000;
    assert Pow128(3) == 0x20_0000;
    assert Pow128(4) == 0x1000_0000;
    assert Pow128(5) == 0x8_0000_0000;
    assert Pow128(6) == 0x400_0000_0000;
    assert Pow128(7) == 0x2_0000_0000_0000;
  }

  lemma {:induction false} HighLong(v: nat, k: nat)
    requires v >= Pow128(k)
    ensures |High(v)| > k
  {
    if k > 0 {
      assert v >= 128 by {
        MulLe(1, Pow128(k - 1), 128);
      }
      HighLong(v / 128, k - 1);
    }
  }

  // Bit 7 apart, the byte j places before byte n holds group j of v, counted from the lowest.
  ghost predicate Group(e: Bytes, n: nat, v: nat, j: nat) {
    j < n <= |e| && e[n - 1 - j] % 128 == v / Pow128(j) % 128
  }

  lemma DivideTwice(v: nat, p: nat)
    requires p > 0
    ensures v / 128 / p == v / (128 * p)
  {
    var a, b := DivMod(v, 128);
    var q, r := DivMod(a, p);
    MulAssoc(q, 128, p);
    MulAssoc(128, q, p);
    assert v == q * (128 * p) + (128 * r + b);
    DivUnique(v, 128 * p, q, 128 * r + b);
  }

  lemma {:induction false} HighGroup(v: nat, j: nat)
    requires j < |High(v)|
    ensures Group(High(v), |High(v)|, v, j)
  {
    if j > 0 {
      HighGroup(v / 128, j - 1);
      DivideTwice(v, Pow128(j - 1));
      assert High(v)[|High(v)| - 1 - j] == High(v / 128)[|High(v / 128)| - 1 - (j - 1)];
    }
  }

  lemma {:induction false} FixedGroup(v: nat, k: nat, j: nat)
    requires j < k
    ensures Group(Fixed(v, k), k, v, j)
  {
    if j > 0 {
      FixedGroup(v / 128, k - 1, j - 1);
      DivideTwice(v, Pow128(j - 1));
      assert Fixed(v, k)[k - 1 - j] == Fixed(v / 128, k - 1)[k - 1 - 1 - (j - 1)];
    }
  }

  lemma {:induction false} HighBits(v: nat, k: nat)
    ensures forall i :: 0 <= i < |High(v)| ==> High(v)[i] >= 128
    ensures forall i :: 0 <= i < k ==> Fixed(v, k)[i] >= 128
    decreases v + k
  {
    if v >= 128 {
      HighBits(v / 128, 0);
    }
    if k > 0 {
      HighBits(v / 128, k - 1);
    }
  }

  /**
  The format: as few bytes as will do, of 7 bits each, the highest first and all but the last with bit 7 set; or nine
  bytes, the last of which holds 8 bits.
  */
  lemma EncodeFormat(v: nat)
    requires v < TWO64
    ensures var e := Encode(v);
      && (forall i :: 0 <= i < |e| - 1 ==> e[i] >= 128)
      && if v < TWO56 then
           && e[|e| - 1] < 128 && (forall j :: 0 <= j < |e| ==> Group(e, |e|, v, j))
           && forall k :: 1 <= k <= 8 ==> (|e| <= k <==> v < Pow128(k))
         else |e| == 9 && e[8] == v % 256 && forall j :: 0 <= j < 8 ==> Group(e, 8, v / 256, j)
  {
    hide High, Fixed, Pow128;
    var e := Encode(v);
    if v >= TWO56 {
      HighBits(v / 256, 8);
      forall j | 0 <= j < 8
        ensures Group(e, 8, v / 256, j)
      {
        FixedGroup(v / 256, 8, j);
      }
    } else {
      HighBits(v / 128, 0);
      ShortLength(v);
      forall j | 0 <= j < |e|
        ensures Group(e, |e|, v, j)
      {
        ShortGroup(v, j);
      }
    }
  }

  lemma ShortLength(v: nat)
    requires v < TWO56
    ensures forall k :: 1 <= k <= 8 ==> (|Low(v)| <= k <==> v < Pow128(k))
  {
    hide High;
    Powers();
    forall k | 1 <= k <= 8
      ensures |Low(v)| <= k <==> v < Pow128(k)
    {
      if v < 128 {
        MulLe(1, Pow128(k - 1), 128);
      } else if v < Pow128(k) {
        assert k > 1 by {
          assert Pow128(1) == 128 * Pow128(0);
        }
        HighShort(v / 128, k - 1);
      } else {
        HighLong(v / 128, k - 1);
      }
    }
  }

  lemma ShortGroup(v: nat, j: nat)
    requires j < |Low(v)|
    ensures Group(Low(v), |Low(v)|, v, j)
  {
    if j > 0 {
      HighGroup(v / 128, j - 1);
      DivideTwice(v, Pow128(j - 1));
      assert Low(v)[|Low(v)| - 1 - j] == High(v / 128)[|High(v / 128)| - 1 - (j - 1)];
    } else {
      assert Pow128(0) == 1;
    }
  }

  lemma EncodeLength(v: nat)
    ensures |Encode(v)| <= 9
    ensures v < 0x8_0000_0000 ==> |Encode(v)| <= 5
    ensures v < 0x4000 ==> |Encode(v)| <= 2
  {
    Powers();
    if 128 <= v < TWO56 {
      HighShort(v / 128, 7);
      if v < 0x8_0000_0000 {
        HighShort(v / 128, 4);
      }
    }
  }
}
