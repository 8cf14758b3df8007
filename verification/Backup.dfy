/**
Online backup (backup.c): a copy of one database file into another that is made in steps, between which the source may
be written to, truncated or changed by others. The two files may have different page sizes. A file is the sequence of
its bytes, page k of size S being those from (k - 1) * S.
*/
module Backup {
  import opened Arith
  import opened Encoding

  datatype Code = Ok | Busy | Locked | ReadOnly | Done | Failed(code: int)

  /** Errors after which a backup cannot go on; the end of the backup counts as one. */
  predicate IsFatal(rc: Code): (r: bool)
    ensures r <==> rc.ReadOnly? || rc.Done? || rc.Failed?
  {
    rc != Ok && rc != Busy && rc != Locked
  }

  function Min(x: nat, y: nat): nat {
    if x < y then x else y
  }

  // ----- Pages of two sizes -----

  /** S and D are the page sizes of the source and the destination, and at PB is the byte that is used for locking. */
  ghost predicate Sizes(S: nat, D: nat, PB: nat) {
    && S >= 512 && D >= 512 && (S % D == 0 || D % S == 0) && PB > 0 && PB % S == 0 && PB % D == 0
  }

  /** The pages that hold the locking byte, of both files: their contents are not copied. */
  predicate Excluded(S: nat, D: nat, PB: nat, o: nat) {
    PB <= o < PB + S || PB <= o < PB + D
  }

  /** Where a page begins. */
  function Base(S: nat, k: nat): nat
    requires k > 0
  {
    (k - 1) * S
  }

  lemma BaseMultiple(S: nat, k: nat)
    requires k > 0 && S > 0
    ensures Base(S, k) % S == 0 && Base(S, k) / S == k - 1
  {
    IsMultiple(k - 1, S);
  }

  // Page k is the one of the locking byte exactly when it begins there.
  lemma PendingPage(S: nat, PB: nat, k: nat)
    requires k > 0 && S > 0 && PB % S == 0
    ensures k == PageOf(S, PB) <==> Base(S, k) == PB
    ensures Base(S, k) != PB ==> Base(S, k) + S <= PB || PB + S <= Base(S, k)
  {
    BaseMultiple(S, k);
    var q := Multiple(PB, S);
    if Base(S, k) < PB {
      Apart(Base(S, k), PB, S);
    } else if PB < Base(S, k) {
      Apart(PB, Base(S, k), S);
    }
  }

  // A page number is within the file exactly when the page is.
  lemma PageInFile(S: nat, n: nat, k: nat)
    requires S > 0 && n % S == 0 && k > 0
    ensures k <= n / S <==> Base(S, k) + S <= n
    ensures k > n / S <==> Base(S, k) >= n
  {
    var q := Multiple(n, S);
    if k <= q {
      MulLe(k, q, S);
      assert k * S == Base(S, k) + S;
    } else {
      MulLe(q, k - 1, S);
    }
  }

  // The page, of size n, that holds an offset, and where in the page that is.
  function PageOf(n: nat, o: nat): (k: nat)
    requires n > 0
    ensures k > 0
  {
    o / n + 1
  }

  function OffsetIn(n: nat, o: nat): nat
    requires n > 0
  {
    o % n
  }

  /** The offsets at which the loop of backupOnePage begins a round for the page at base. */
  ghost predicate OnGrid(S: nat, D: nat, base: nat, o: nat)
    requires D > 0
  {
    if S % D == 0 then o % D == 0 else o == base
  }

  lemma InPage(S: nat, base: nat, iOff: nat)
    requires S > 0 && base % S == 0 && base <= iOff < base + S
    ensures iOff % S == iOff - base
  {
    var q := Multiple(base, S);
    DivUnique(iOff, S, q, iOff - base);
  }

  // The page of the locking byte is the one that begins at PB.
  lemma PendingSlot(D: nat, PB: nat, o: nat)
    requires D > 0 && PB % D == 0
    ensures (o / D) * D + o % D == o
    ensures o / D == PB / D <==> PB <= o < PB + D
  {
    var e, r := DivMod(o, D);
    var p := Multiple(PB, D);
    if e < p {
      MulStep(e, p, D);
    } else if p < e {
      MulStep(p, e, D);
    }
  }

  lemma FirstSlot(S: nat, D: nat, base: nat)
    requires S > 0 && D > 0 && base % S == 0
    ensures OnGrid(S, D, base, base)
  {
    if S % D == 0 {
      var q := Multiple(base, S);
      ProductMultiple(q, S, D);
    }
  }

  /**
  The part of a source page that goes to one page of the destination: where it is in both, and whether that page of the
  destination is the one of the locking byte.
  */
  lemma Slot(S: nat, D: nat, PB: nat, base: nat, iOff: nat)
    requires Sizes(S, D, PB) && base % S == 0 && base <= iOff < base + S && OnGrid(S, D, base, iOff)
    ensures OffsetIn(S, iOff) == iOff - base && OffsetIn(D, iOff) + Min(S, D) <= D
    ensures Base(D, PageOf(D, iOff)) + OffsetIn(D, iOff) == iOff && iOff + Min(S, D) <= base + S
    ensures if PageOf(D, iOff) == PageOf(D, PB) then PB <= iOff && iOff + Min(S, D) <= PB + D
            else iOff + Min(S, D) <= PB || PB + D <= iOff
    ensures D > S ==> iOff == base
    ensures iOff == base || iOff >= base + D
    ensures iOff + D < base + S ==> OnGrid(S, D, base, iOff + D)
  {
    InPage(S, base, iOff);
    PendingSlot(D, PB, iOff);
    if S % D == 0 {
      SmallSlots(S, D, base, iOff);
      FirstSlot(S, D, base);
      if base < iOff {
        Apart(base, iOff, D);
      }
      NextMultiple(iOff, D);
      if iOff < PB {
        Apart(iOff, PB, D);
      } else if iOff < PB + D {
        NextMultiple(PB, D);
        Apart(iOff, PB + D, D);
      }
    } else {
      LargeSlot(S, D, PB, base);
    }
  }

  lemma NextMultiple(x: nat, d: nat)
    requires d > 0 && x % d == 0
    ensures (x + d) % d == 0
  {
    DivUnique(d, d, 1, 0);
    SumMultiple(x, d, d);
  }

  lemma SmallSlots(S: nat, D: nat, base: nat, iOff: nat)
    requires D > 0 && S > 0 && S % D == 0 && base % S == 0 && base <= iOff < base + S && iOff % D == 0
    ensures D <= S && iOff + D <= base + S
  {
    var q := Multiple(S, D);
    if q > 0 {
      MulLe(1, q, D);
    }
    var p := Multiple(base, S);
    assert base == p * S;
    ProductMultiple(p, S, D);
    SumMultiple(base, S, D);
    Apart(iOff, base + S, D);
  }

  lemma LargeSlot(S: nat, D: nat, PB: nat, base: nat)
    requires D > 0 && S > 0 && D % S == 0 && base % S == 0 && PB % S == 0
    ensures S <= D && base % D + S <= D
    ensures PB <= base < PB + D ==> base + S <= PB + D
    ensures base < PB ==> base + S <= PB
  {
    var q := Multiple(D, S);
    if q > 0 {
      MulLe(1, q, S);
    }
    var e, r := DivMod(base, D);
    ProductMultiple(e, D, S);
    assert r % S == 0 by {
      DifferenceMultiple(base, e * D, S);
    }
    Apart(r, D, S);
    SumMultiple(PB, D, S);
    if base < PB {
      Apart(base, PB, S);
    } else if base < PB + D {
      Apart(base, PB + D, S);
    }
  }

  // ----- Writing to a file -----

  // A file of at least n bytes; what is added is zero.
  function Padded(d: Bytes, n: nat): (r: Bytes)
    ensures |r| >= n && |r| >= |d|
    ensures forall o :: 0 <= o < |d| ==> r[o] == d[o]
  {
    if |d| >= n then d else d + seq(n - |d|, _ => 0)
  }

  function Written(d: Bytes, off: nat, z: Bytes): (r: Bytes)
    requires off + |z| <= |d|
    ensures |r| == |d|
    ensures forall o :: 0 <= o < |d| ==> r[o] == if off <= o < off + |z| then z[o - off] else d[o]
  {
    d[..off] + z + d[off + |z|..]
  }

  /** z was written over file d at off, which made it longer if need be. */
  ghost predicate PatchedTo(d: Bytes, d': Bytes, off: nat, z: Bytes) {
    && |d'| >= |d| && |d'| >= off + |z| && d'[off..off + |z|] == z
    && forall o :: 0 <= o < |d| && !(off <= o < off + |z|) ==> d'[o] == d[o]
  }

  lemma PatchedTwice(d: Bytes, d1: Bytes, d2: Bytes, off: nat, z: Bytes, at: nat, y: Bytes)
    requires at + |y| <= |z| && PatchedTo(d, d1, off, z) && PatchedTo(d1, d2, off + at, y)
    ensures PatchedTo(d, d2, off, Written(z, at, y))
  {
    var z' := Written(z, at, y);
    forall o | 0 <= o < |z|
      ensures d2[off + o] == z'[o]
    {
      if at <= o < at + |y| {
        assert d2[off + at..off + at + |y|][o - at] == y[o - at];
      } else {
        assert d1[off..off + |z|][o] == z[o] && d2[off + o] == d1[off + o];
      }
    }
    assert d2[off..off + |z|] == z';
  }

  function Pages(S: nat, src: Bytes): nat {
    if S > 0 then |src| / S else 0
  }

  /** The number of pages, in the header of the file. */
  predicate SizeField(o: nat) {
    28 <= o < 32
  }

  /**
  The destination: in memory, or in WAL mode, and whether its commits write a change counter. They do not in memory,
  where a commit writes nothing, nor in a temporary file.
  */
  datatype Mode = Mode(memdb: bool, wal: bool, counts: bool)
  {
    predicate Valid() {
      memdb ==> !wal && !counts
    }
  }

  /**
  What the end of a backup writes in the header: the change counters, the schema cookie and, for WAL, the version.
  */
  predicate Rewritten(mode: Mode, o: nat) {
    40 <= o < 44 || (mode.counts && (24 <= o < 28 || 92 <= o < 100)) || (mode.wal && 18 <= o < 20)
  }

  /** What that number is in the destination: as the source has it, or as it was counted when page 1 was copied. */
  datatype Field = OfSource | Counted(n: nat)

  // Byte o of both files is the same, but for the number of pages if that was counted.
  ghost predicate Same(src: Bytes, dest: Bytes, field: Field, o: nat) {
    o < |src| && o < |dest| && dest[o] == if SizeField(o) && field.Counted? then Four(field.n)[o - 28] else src[o]
  }

  /** The bytes of the source before end are in the destination. */
  ghost predicate Agree(S: nat, D: nat, PB: nat, src: Bytes, dest: Bytes, end: nat, field: Field) {
    forall o :: 0 <= o < |src| && o < end && !Excluded(S, D, PB, o) ==> Same(src, dest, field, o)
  }

  // The bytes that backupOnePage writes for a page.
  function PageData(z: Bytes, base: nat, bUpdate: bool, nPage: nat): (r: Bytes)
    requires |z| >= 32
    ensures |r| == |z|
  {
    if base == 0 && !bUpdate then Written(z, 28, Four(nPage)) else z
  }

  ghost predicate CopiedAt(d': Bytes, base: nat, z: Bytes, o: nat) {
    base <= o < base + |z| && o < |d'| && d'[o] == z[o - base]
  }

  // The destination after a source page that begins at base and holds z was copied up to offset end.
  ghost predicate CopiedTo(D: nat, PB: nat, d: Bytes, d': Bytes, base: nat, z: Bytes, end: nat) {
    && |d'| >= |d|
    && (forall o :: base <= o < end && o < base + |z| && !(PB <= o < PB + D) ==> CopiedAt(d', base, z, o))
    && (forall o :: 0 <= o < |d| && (o < base || o >= base + |z| || PB <= o < PB + D) ==> d'[o] == d[o])
  }

  lemma CopiedStart(D: nat, PB: nat, d: Bytes, base: nat, z: Bytes)
    ensures CopiedTo(D, PB, d, d, base, z, base)
  {}

  lemma CopiedSkip(D: nat, PB: nat, d: Bytes, d': Bytes, base: nat, z: Bytes, end: nat, n: nat)
    requires CopiedTo(D, PB, d, d', base, z, end) && PB <= end && end + n <= PB + D
    ensures CopiedTo(D, PB, d, d', base, z, end + n)
  {}

  lemma CopiedMore(D: nat, PB: nat, d: Bytes, d': Bytes, d2: Bytes, base: nat, z: Bytes, end: nat, n: nat)
    requires CopiedTo(D, PB, d, d', base, z, end) && base <= end && end + n <= base + |z|
    requires end + n <= PB || PB + D <= end
    requires PatchedTo(d', d2, end, z[end - base..end - base + n])
    ensures CopiedTo(D, PB, d, d2, base, z, end + n)
  {
    var y := z[end - base..end - base + n];
    forall o | base <= o < end + n && !(PB <= o < PB + D)
      ensures CopiedAt(d2, base, z, o)
    {
      if o >= end {
        assert d2[end..end + n][o - end] == y[o - end];
      } else {
        assert CopiedAt(d', base, z, o);
      }
    }
  }

  // The same, but for the page that begins at base.
  ghost predicate AgreeBut(S: nat, D: nat, PB: nat, src: Bytes, dest: Bytes, end: nat, field: Field, base: nat) {
    forall o :: 0 <= o < |src| && o < end && !Excluded(S, D, PB, o) && !(base <= o < base + S) ==>
      Same(src, dest, field, o)
  }

  /** A copied page agrees. */
  lemma PageAgrees(S: nat, D: nat, PB: nat, src: Bytes, d: Bytes, d': Bytes, base: nat, bUpdate: bool, nPage: nat,
                   end: nat, field: Field,
                   field': Field)
    requires S >= 512 && base + S <= |src| && AgreeBut(S, D, PB, src, d, end, field, base)
    requires CopiedTo(D, PB, d, d', base, PageData(src[base..base + S], base, bUpdate, nPage), base + S)
    requires base >= S || base == 0
    requires field' == if base > 0 then field else if bUpdate then OfSource else Counted(nPage)
    ensures Agree(S, D, PB, src, d', end, field') && (end == base ==> Agree(S, D, PB, src, d', base + S, field'))
  {
    hide Four;
    var z := src[base..base + S];
    var z' := PageData(z, base, bUpdate, nPage);
    forall o | 0 <= o < |src| && (o < end || base <= o < base + S) && !Excluded(S, D, PB, o)
      ensures Same(src, d', field', o)
    {
      if base <= o < base + S {
        assert CopiedAt(d', base, z', o);
        assert z[o - base] == src[o];
      } else {
        assert Same(src, d, field, o);
      }
    }
  }

  lemma AgreeAll(S: nat, D: nat, PB: nat, src: Bytes, d: Bytes, end: nat, field: Field, base: nat)
    requires Agree(S, D, PB, src, d, end, field)
    ensures AgreeBut(S, D, PB, src, d, end, field, base)
  {}

  /** The page of the locking byte is passed over. */
  lemma PendingAgrees(S: nat, D: nat, PB: nat, src: Bytes, d: Bytes, field: Field)
    requires Agree(S, D, PB, src, d, PB, field)
    ensures Agree(S, D, PB, src, d, PB + S, field)
  {}

  /** A page of the source is written, perhaps the first one after its end. */
  lemma SourceWritten(S: nat, D: nat, PB: nat, src: Bytes, src': Bytes, d: Bytes, end: nat, field: Field, base: nat,
                      z: Bytes)
    requires Agree(S, D, PB, src, d, end, field) && |z| == S && PatchedTo(src, src', base, z)
      && |src'| <= Larger(|src|, base + S)
    requires base <= |src| || (|src| == PB && base == PB + S)
    ensures AgreeBut(S, D, PB, src', d, end, field, base)
    ensures end <= base ==> Agree(S, D, PB, src', d, end, field)
  {
    forall o | 0 <= o < |src'| && o < end && !Excluded(S, D, PB, o) && !(base <= o < base + S)
      ensures Same(src', d, field, o)
    {
      assert o < |src|;
      assert Same(src, d, field, o);
    }
  }

  function Larger(x: nat, y: nat): nat {
    if x < y then y else x
  }

  lemma SourceCut(S: nat, D: nat, PB: nat, src: Bytes, d: Bytes, end: nat, field: Field, n: nat)
    requires Agree(S, D, PB, src, d, end, field) && n <= |src|
    ensures Agree(S, D, PB, src[..n], d, end, field)
  {
    forall o | 0 <= o < n && o < end && !Excluded(S, D, PB, o)
      ensures Same(src[..n], d, field, o)
    {
      assert Same(src, d, field, o);
    }
  }

  // ----- The end of a backup -----

  ghost predicate DoneAt(S: nat, D: nat, PB: nat, mode: Mode, src: Bytes, dest: Bytes, field: Field, o: nat) {
    Excluded(S, D, PB, o) || Rewritten(mode, o) || Same(src, dest, field, o)
  }

  ghost predicate AgreeDone(S: nat, D: nat, PB: nat, mode: Mode, src: Bytes, dest: Bytes, field: Field) {
    forall o :: 0 <= o < |src| ==> DoneAt(S, D, PB, mode, src, dest, field, o)
  }

  /** What the header of a finished destination holds. */
  ghost predicate Header(mode: Mode, dest: Bytes, schema: nat, counter: nat, version: nat) {
    && |dest| >= 100 && dest[40..44] == Four(schema) && (mode.wal ==> dest[18..20] == [2, 2])
    && (mode.counts ==>
          dest[24..28] == Four(counter) && dest[92..96] == Four(counter) && dest[96..100] == Four(version))
  }

  /**
  A finished copy: it is as long as the source, and each byte is the same, outside the source's page of the locking byte
  and the rewritten fields of the header.
  */
  ghost predicate Finished(S: nat, PB: nat, mode: Mode, src: Bytes, dest: Bytes, field: Field) {
    && |dest| == |src|
    && forall o :: 0 <= o < |src| && !(PB <= o < PB + S) && !Rewritten(mode, o) ==> Same(src, dest, field, o)
  }

  lemma HeaderPut(S: nat, D: nat, PB: nat, mode: Mode, src: Bytes, d: Bytes, d': Bytes, field: Field, off: nat,
                  z: Bytes)
    requires AgreeDone(S, D, PB, mode, src, d, field) && PatchedTo(d, d', off, z)
    requires forall o :: off <= o < off + |z| ==> Rewritten(mode, o)
    ensures AgreeDone(S, D, PB, mode, src, d', field)
  {
    forall o | 0 <= o < |src|
      ensures DoneAt(S, D, PB, mode, src, d', field, o)
    {
      assert DoneAt(S, D, PB, mode, src, d, field, o);
    }
  }

  lemma SliceKept(d: Bytes, d': Bytes, off: nat, z: Bytes, from: nat, to: nat)
    requires PatchedTo(d, d', off, z) && from <= to <= |d| && (to <= off || off + |z| <= from)
    ensures d'[from..to] == d[from..to]
  {}

  // Pages written past the page of the locking byte, straight to the file.
  ghost predicate ExtraTo(S: nat, PB: nat, src: Bytes, dest: Bytes, end: nat) {
    forall o :: PB + S <= o < end && o < |src| ==> ExtraAt(src, dest, o)
  }

  ghost predicate ExtraAt(src: Bytes, dest: Bytes, o: nat) {
    o < |src| && o < |dest| && dest[o] == src[o]
  }

  lemma ExtraPut(S: nat, D: nat, PB: nat, mode: Mode, src: Bytes, d: Bytes, d': Bytes, field: Field, off: nat)
    requires off + S <= |src| && PatchedTo(d, d', off, src[off..off + S]) && PB + S <= off && off + S <= PB + D
    requires AgreeDone(S, D, PB, mode, src, d, field) && ExtraTo(S, PB, src, d, off)
    ensures AgreeDone(S, D, PB, mode, src, d', field) && ExtraTo(S, PB, src, d', off + S)
  {
    forall o | 0 <= o < |src|
      ensures DoneAt(S, D, PB, mode, src, d', field, o)
    {
      assert DoneAt(S, D, PB, mode, src, d, field, o);
    }
    forall o | PB + S <= o < off + S && o < |src|
      ensures ExtraAt(src, d', o)
    {
      if o >= off {
        assert d'[off..off + S][o - off] == src[off..off + S][o - off];
      } else {
        assert ExtraAt(src, d, o);
      }
    }
  }

  /** The file is cut to the size of the source. */
  lemma Cut(S: nat, D: nat, PB: nat, mode: Mode, src: Bytes, d: Bytes, field: Field)
    requires Sizes(S, D, PB) && |src| >= S && |src| % S == 0 && |src| != PB + S
    requires AgreeDone(S, D, PB, mode, src, d, field)
    requires D > S ==> ExtraTo(S, PB, src, d, PB + D)
    ensures |d| >= |src| && Finished(S, PB, mode, src, d[..|src|], field)
  {
    hide Sizes;
    LastPageOffset(S, D, PB, |src|);
    var last := |src| - 1;
    assert DoneAt(S, D, PB, mode, src, d, field, last);
    assert PB + S <= last < PB + D ==> ExtraAt(src, d, last);
    forall o | 0 <= o < |src| && !(PB <= o < PB + S) && !Rewritten(mode, o)
      ensures Same(src, d[..|src|], field, o)
    {
      assert DoneAt(S, D, PB, mode, src, d, field, o);
      assert PB + S <= o < PB + D ==> ExtraAt(src, d, o);
    }
  }

  lemma LastPageOffset(S: nat, D: nat, PB: nat, n: nat)
    requires Sizes(S, D, PB) && n % S == 0 && n != PB + S
    ensures S >= 512 && !(PB < n <= PB + S)
  {
    if PB < n <= PB + S {
      Apart(PB, n, S);
    }
  }

  // ----- Faults -----

  /** Reading or writing page number slot, from 0, of those that a source page goes to fails. */
  datatype SlotFault = Fine | At(slot: nat, code: int)

  /**
  What may fail in a step besides locking: reading a source page, getting hold of a destination page that it goes to, or
  what follows once all pages have been copied.
  */
  datatype Fault =
    | NoFault
    | Reading(page: nat, code: int)
    | Writing(page: nat, fault: SlotFault)
    | Committing(code: int)
  {
    // The error that a fault shows up as.
    predicate Gives(r: Code) {
      match this
      case NoFault => false
      case Reading(_, code) => r == Failed(code)
      case Writing(_, fault) => fault.At? && r == Failed(fault.code)
      case Committing(code) => r == Failed(code)
    }
  }

  // ----- The backup object -----

  lemma SizesFacts(S: nat, D: nat, PB: nat)
    requires Sizes(S, D, PB)
    ensures S >= 512 && D >= 512
  {}

  // The slice of the first page that holds the number of pages.
  lemma FirstSlice(z: Bytes, n: nat, nPage: nat)
    requires 32 <= n <= |z|
    ensures Written(z[0..n], 28, Four(nPage)) == PageData(z, 0, false, nPage)[0..n]
  {
    hide Four;
  }

  lemma SameSlice(z: Bytes, base: nat, bUpdate: bool, nPage: nat, from: nat, n: nat)
    requires |z| >= 512 && from + n <= |z| && (base == 0 && !bUpdate ==> from >= 32)
    ensures PageData(z, base, bUpdate, nPage)[from..from + n] == z[from..from + n]
  {
    hide Four;
  }

  lemma CopiedToEnd(S: nat, D: nat, PB: nat, d: Bytes, d': Bytes, base: nat, z: Bytes, iOff: nat)
    requires CopiedTo(D, PB, d, d', base, z, iOff + Min(S, D)) && |z| == S && base <= iOff && (D > S ==> iOff == base)
    ensures CopiedTo(D, PB, d, d', base, z, iOff + D)
  {}

  lemma CopiedLess(D: nat, PB: nat, d: Bytes, d': Bytes, base: nat, z: Bytes, end: nat)
    requires CopiedTo(D, PB, d, d', base, z, end) && end >= base
    ensures CopiedTo(D, PB, d, d', base, z, base)
  {}

  lemma CopiedWhole(D: nat, PB: nat, d: Bytes, d': Bytes, base: nat, z: Bytes, end: nat)
    requires CopiedTo(D, PB, d, d', base, z, end) && end >= base + |z|
    ensures CopiedTo(D, PB, d, d', base, z, base + |z|)
  {}

  /** Where a call that copies up to nPage pages, or all of them when that is negative, ends. */
  function NextPage(iNext: nat, nPage: int, nSrcPage: nat): nat {
    if iNext > nSrcPage then iNext
    else if nPage < 0 || iNext + nPage > nSrcPage then nSrcPage + 1
    else iNext + nPage
  }

  lemma NextPageFacts(S: nat, src: Bytes, iNext: nat, nPage: int)
    requires S > 0
    ensures var n, next := |src| / S, NextPage(iNext, nPage, Pages(S, src));
      if next <= n then 0 <= nPage && next == iNext + nPage else nPage < 0 || iNext + nPage > n
    ensures Pages(S, src) == |src| / S
  {}

  lemma PageStep(S: nat, D: nat, PB: nat, src: Bytes, k: nat)
    requires Sizes(S, D, PB) && |src| % S == 0 && 0 < k <= Pages(S, src)
    ensures Base(S, k) + S <= |src| && Base(S, k + 1) == Base(S, k) + S && (Base(S, k) == 0 <==> k == 1) && |src| >= 32
    ensures Base(S, k) >= S || Base(S, k) == 0
    ensures k == PageOf(S, PB) ==> Base(S, k) == PB && k > 1
  {
    PageInFile(S, |src|, k);
    PendingPage(S, PB, k);
    if k > 1 {
      MulLe(1, k - 1, S);
    }
  }

  lemma HeaderKept(mode: Mode, d: Bytes, d': Bytes, off: nat, z: Bytes)
    requires |d| >= 44 && PatchedTo(d, d', off, z) && (off == 24 || off == 92 || off == 96) && |z| == 4
    ensures d'[40..44] == d[40..44] && d'[18..20] == d[18..20]
  {
    SliceKept(d, d', off, z, 40, 44);
    SliceKept(d, d', off, z, 18, 20);
  }

  lemma ExtraStart(S: nat, D: nat, PB: nat, src: Bytes, d: Bytes)
    requires Sizes(S, D, PB)
    ensures ExtraTo(S, PB, src, d, PB + S) && (PB + S) % S == 0
  {
    NextMultiple(PB, S);
  }

  lemma ExtraStep(S: nat, D: nat, PB: nat, src: Bytes, iOff: nat)
    requires Sizes(S, D, PB) && S < D && |src| % S == 0 && iOff % S == 0 && iOff < PB + D && iOff < |src|
    ensures iOff + S <= PB + D && iOff + S <= |src| && (iOff + S) % S == 0 && Base(S, PageOf(S, iOff)) == iOff
  {
    var p := Multiple(iOff, S);
    Apart(iOff, |src|, S);
    NextMultiple(iOff, S);
    SumMultiple(PB, D, S) by {
      if S % D == 0 {
        var q := Multiple(S, D);
        if q > 0 {
          MulLe(1, q, D);
        }
      }
    }
    Apart(iOff, PB + D, S);
  }

  lemma ExtraEnd(S: nat, D: nat, PB: nat, src: Bytes, d: Bytes, iOff: nat)
    requires ExtraTo(S, PB, src, d, iOff) && (iOff >= PB + D || iOff >= |src|)
    ensures ExtraTo(S, PB, src, d, PB + D)
  {}

  /** Once iNext is past the last page, everything agrees. */
  lemma AllAgree(S: nat, D: nat, PB: nat, mode: Mode, src: Bytes, d: Bytes, field: Field, k: nat)
    requires S > 0 && |src| % S == 0 && k > Pages(S, src) && Agree(S, D, PB, src, d, Base(S, k), field)
    ensures AgreeDone(S, D, PB, mode, src, d, field)
  {
    PageInFile(S, |src|, k);
  }

  lemma EmptyDone(S: nat, D: nat, PB: nat, mode: Mode, src: Bytes, d: Bytes, field: Field)
    requires S > 0 && |src| % S == 0 && Pages(S, src) == 0
    ensures AgreeDone(S, D, PB, mode, src, d, field) && src == []
  {
    PageInFile(S, |src|, 1);
  }

  /** The number of pages of the destination, as sqlite3_backup_step computes it. */
  function Truncation(S: nat, D: nat, PB: nat, nSrcPage: nat): nat
    requires S > 0 && D > 0
  {
    if S < D then
      var ratio := D / S;
      if ratio == 0 then 0
      else
        var n := (nSrcPage + ratio - 1) / ratio;
        if n == PageOf(D, PB) then n - 1 else n
    else nSrcPage * (S / D)
  }

  /** The assertions about the size of the destination hold. */
  lemma TruncationFacts(S: nat, D: nat, PB: nat, src: Bytes, nSrcPage: nat)
    requires Sizes(S, D, PB) && nSrcPage > 0
    ensures Truncation(S, D, PB, nSrcPage) > 0
    ensures var n, iSize := Truncation(S, D, PB, nSrcPage), S * nSrcPage;
      if S < D then n * D >= iSize || (n == PageOf(D, PB) - 1 && PB <= iSize <= PB + D) else n * D == iSize
  {
    if S < D {
      SmallDivides(S, D);
      TruncationUp(S, D, PB, nSrcPage);
    } else {
      TruncationDown(S, D, nSrcPage);
    }
  }

  lemma SmallDivides(S: nat, D: nat)
    requires 0 < S < D && (S % D == 0 || D % S == 0)
    ensures D % S == 0
  {
    if S % D == 0 {
      var q := Multiple(S, D);
      if q > 0 {
        MulLe(1, q, D);
      }
    }
  }

  lemma TruncationDown(S: nat, D: nat, n: nat)
    requires 0 < D <= S && (S % D == 0 || D % S == 0) && n > 0
    ensures (n * (S / D)) * D == S * n && n * (S / D) > 0
  {
    if D < S {
      SmallDivides(D, S);
    } else {
      DivUnique(D, D, 1, 0);
    }
    var q := Multiple(S, D);
    MulAssoc(n, q, D);
    assert n * q >= q by {
      MulLe(1, n, q);
    }
  }

  lemma TruncationUp(S: nat, D: nat, PB: nat, nSrcPage: nat)
    requires 0 < S < D && D % S == 0 && nSrcPage > 0 && PB > 0 && PB % D == 0
    ensures Truncation(S, D, PB, nSrcPage) > 0
    ensures var n, iSize := Truncation(S, D, PB, nSrcPage), S * nSrcPage;
      n * D >= iSize || (n == PageOf(D, PB) - 1 && PB <= iSize <= PB + D)
  {
    var ratio := Multiple(D, S);
    var n, r := DivMod(nSrcPage + ratio - 1, ratio);
    // n * ratio is nSrcPage rounded up.
    assert nSrcPage <= n * ratio < nSrcPage + ratio;
    MulAssoc(n, ratio, S);
    MulLe(nSrcPage, n * ratio, S);
    var p := Multiple(PB, D);
    if n == PageOf(D, PB) {
      assert p > 0;
      MulAssoc(p, ratio, S);
      assert p * ratio == n * ratio - ratio;
      MulLe(p * ratio, nSrcPage, S);
      assert n * D == PB + D;
    }
  }

  lemma HeaderExtra(D: nat, PB: nat, mode: Mode, d: Bytes, d': Bytes, schema: nat, counter: nat, version: nat)
    requires Header(mode, d, schema, counter, version) && PB >= 512 && |d'| >= 512
    requires forall o :: 0 <= o < |d'| && o < |d| && o < PB ==> d'[o] == d[o]
    ensures Header(mode, d', schema, counter, version)
  {
    hide Four;
    assert d'[40..44] == d[40..44] && d'[24..28] == d[24..28] && d'[92..96] == d[92..96] && d'[96..100] == d[96..100];
    assert d'[18..20] == d[18..20];
  }

  lemma PageSizeLe(S: nat, n: nat)
    requires S > 0 && n % S == 0 && n > 0
    ensures n >= S
  {
    DivUnique(0, S, 0, 0);
    Apart(0, n, S);
  }

  lemma PagesSize(S: nat, src: Bytes)
    requires S > 0 && |src| % S == 0
    ensures |src| == S * Pages(S, src) && (Pages(S, src) == 0 <==> src == [])
  {
    var q := Multiple(|src|, S);
  }

  lemma PendingLarge(S: nat, D: nat, PB: nat)
    requires Sizes(S, D, PB)
    ensures PB >= S && PB >= D
  {
    PageSizeLe(S, PB);
    PageSizeLe(D, PB);
  }

  /** The schema cookie of a file. */
  function Meta(d: Bytes): nat {
    if |d| >= 44 then Get4(d, 40) else 0
  }

  /** What a run shows of a backup at one moment: its code, both states of the destination, and how far it has come. */
  datatype Moment = Moment(rc: Code, dest: Bytes, saved: Bytes, iNext: nat, locked: bool)

  /** What a step that was not refused for an earlier error leaves. */
  ghost predicate StepResult(S: nat, D: nat, PB: nat, mode: Mode, src: Bytes, dest: Bytes, dest': Bytes, iNext: nat,
                             iNext': nat,
                             nPage: int, r: Code, field: Field, schema: nat, counter: nat, version: nat, newDb: Bytes) {
    var n := Pages(S, src);
    && (r == Done ==> NextPage(iNext, nPage, n) > n && Header(mode, dest', schema + 1, counter, version))
    && (r == Done && src != [] ==> Finished(S, PB, mode, src, dest', field))
    && (r == Done && src == [] ==>
          && |dest'| == S
          && forall o :: 0 <= o < S && o < D && o < |newDb| && !Rewritten(mode, o) ==> dest'[o] == newDb[o])
    && (r == Ok ==> iNext' == NextPage(iNext, nPage, n) <= n)
    && (r == Busy || r == Locked ==> iNext' == iNext && dest' == dest)
  }

  lemma BaseAtLeast(S: nat, k: nat)
    requires k > 0
    ensures Base(S, k) >= S || Base(S, k) == 0
    ensures k > 1 ==> Base(S, k) >= S
  {
    if k > 1 {
      MulLe(1, k - 1, S);
    }
  }

  lemma BaseOrder(S: nat, k: nat, l: nat)
    requires 0 < k <= l
    ensures Base(S, k) <= Base(S, l)
  {
    MulLe(k - 1, l - 1, S);
  }

  lemma SourceSize(S: nat, D: nat, PB: nat, src: Bytes, src': Bytes, k: nat)
    requires Sizes(S, D, PB) && |src| % S == 0 && |src| != PB + S && k > 0 && k != PageOf(S, PB)
    requires |src'| == Larger(|src|, Base(S, k) + S)
    ensures |src'| % S == 0 && |src'| != PB + S
  {
    BaseMultiple(S, k);
    NextMultiple(Base(S, k), S);
    PendingPage(S, PB, k);
  }

  lemma Refused(S: nat, D: nat, PB: nat, mode: Mode, src: Bytes, dest: Bytes, iNext: nat, nPage: int, r: Code,
                field: Field, schema: nat,
                counter: nat, version: nat, newDb: Bytes)
    requires r != Ok && r != Done
    ensures StepResult(S, D, PB, mode, src, dest, dest, iNext, iNext, nPage, r, field, schema, counter, version, newDb)
  {}

  class Sqlite3Backup {
    const S: nat
    const D: nat
    const PB: nat
    const mode: Mode
    var src: Bytes
    var dest: Bytes
    var saved: Bytes         // what the destination is after a rollback
    var iNext: nat
    var rc: Code
    var bDestLocked: bool
    var isAttached: bool
    var iDestSchema: nat
    var nRemaining: int
    var nPagecount: nat
    ghost var field: Field   // the number of pages in the header of the destination

    ghost function Now(): Moment
      reads this
    {
      Moment(rc, dest, saved, iNext, bDestLocked)
    }

    ghost predicate Valid()
      reads this
    {
      && Sizes(S, D, PB) && |src| % S == 0 && |src| != PB + S && iNext > 0 && mode.Valid()
      && (!IsFatal(rc) ==>
            (iNext > 1 ==> bDestLocked && isAttached) && Agree(S, D, PB, src, dest, Base(S, iNext), field))
      && (!bDestLocked || rc == Done ==> saved == dest)
    }

    constructor (S: nat, D: nat, PB: nat, mode: Mode, src: Bytes, dest: Bytes)
      requires Sizes(S, D, PB) && |src| % S == 0 && |src| != PB + S && mode.Valid()
      ensures Valid() && this.S == S && this.D == D && this.PB == PB && this.mode == mode
      ensures this.src == src && this.dest == dest && this.saved == dest && iNext == 1 && rc == Ok && !isAttached
    {
      this.S, this.D, this.PB, this.mode := S, D, PB, mode;
      this.src, this.dest, saved := src, dest, dest;
      iNext, rc, bDestLocked, isAttached, iDestSchema, nRemaining, nPagecount := 1, Ok, false, false, 0, 0, 0;
      field := OfSource;
    }

    // A page of the destination is read, and written with z at an offset.
    method PutDest(iDest: nat, at: nat, z: Bytes)
      requires iDest > 0 && at + |z| <= D
      modifies `dest
      ensures PatchedTo(old(dest), dest, Base(D, iDest) + at, z) && |dest| >= iDest * D
    {
      assert Base(D, iDest) + D == iDest * D;
      var off := Base(D, iDest) + at;
      dest := Written(Padded(dest, iDest * D), off, z);
      assert forall o :: 0 <= o < |z| ==> dest[off + o] == z[o];
      assert dest[off..off + |z|] == z;
    }

    // One round of the loop of backupOnePage: what goes to one page of the destination.
    method CopySlot(base: nat, iOff: nat, z: Bytes, bUpdate: bool, ghost d0: Bytes)
      requires Sizes(S, D, PB) && |z| == S && base % S == 0 && base <= iOff < base + S
      requires OnGrid(S, D, base, iOff)
      requires CopiedTo(D, PB, d0, dest, base, PageData(z, base, bUpdate, Pages(S, src)), iOff)
      modifies `dest
      ensures CopiedTo(D, PB, d0, dest, base, PageData(z, base, bUpdate, Pages(S, src)), iOff + Min(S, D))
    {
      hide Sizes, CopiedTo, PatchedTo, Four, Written, PageData, PageOf, OffsetIn, OnGrid, Base, Pages;
      SizesFacts(S, D, PB);
      Slot(S, D, PB, base, iOff);
      var iDest, nCopy, n := PageOf(D, iOff), Min(S, D), Pages(S, src);
      ghost var d1, z' := dest, PageData(z, base, bUpdate, n);
      if iDest != PageOf(D, PB) {
        var zIn := z[OffsetIn(S, iOff)..OffsetIn(S, iOff) + nCopy];
        PutDest(iDest, OffsetIn(D, iOff), zIn);
        ghost var d2 := dest;
        if iOff == 0 && !bUpdate {
          PutDest(iDest, OffsetIn(D, iOff) + 28, Four(n));
          PatchedTwice(d1, d2, dest, iOff, zIn, 28, Four(n));
          FirstSlice(z, nCopy, n);
        } else {
          SameSlice(z, base, bUpdate, n, iOff - base, nCopy);
        }
        CopiedMore(D, PB, d0, d1, dest, base, z', iOff, nCopy);
      } else {
        CopiedSkip(D, PB, d0, d1, base, z', iOff, nCopy);
      }
    }

    /** backupOnePage: with a fault the pages before it have been written. */
    method BackupOnePage(iSrcPg: nat, z: Bytes, bUpdate: bool, fault: SlotFault) returns (r: Code)
      requires Sizes(S, D, PB) && iSrcPg > 0 && |z| == S && iSrcPg != PageOf(S, PB) && bDestLocked && !IsFatal(rc)
      modifies `dest
      ensures if mode.memdb && S != D then r == ReadOnly else r == Ok || (fault.At? && r == Failed(fault.code))
      ensures r == ReadOnly ==> dest == old(dest)
      ensures CopiedTo(D, PB, old(dest), dest, Base(S, iSrcPg), PageData(z, Base(S, iSrcPg), bUpdate, Pages(S, src)),
                       Base(S, iSrcPg) + if r == Ok then S else 0)
    {
      hide Sizes, CopiedTo, Base, PageData, OnGrid, PageOf, OffsetIn, Pages;
      SizesFacts(S, D, PB);
      r := if S != D && mode.memdb then ReadOnly else Ok;
      var base := Base(S, iSrcPg);
      ghost var d0, z' := dest, PageData(z, base, bUpdate, Pages(S, src));
      BaseMultiple(S, iSrcPg);
      FirstSlot(S, D, base);
      CopiedStart(D, PB, dest, base, z');
      var iOff, slot := base, 0;
      while r == Ok && iOff < base + S
        invariant iOff >= base && (iOff < base + S ==> OnGrid(S, D, base, iOff)) && slot >= 0
        invariant CopiedTo(D, PB, d0, dest, base, z', iOff) && (r == ReadOnly ==> dest == d0)
        invariant if mode.memdb && S != D then r == ReadOnly else r == Ok || (fault.At? && r == Failed(fault.code))
        decreases base + S - iOff, if r == Ok then 1 else 0
      {
        if fault.At? && fault.slot == slot && PageOf(D, iOff) != PageOf(D, PB) {
          r := Failed(fault.code);
        } else {
          CopySlot(base, iOff, z, bUpdate, d0);
          Slot(S, D, PB, base, iOff);
          CopiedToEnd(S, D, PB, d0, dest, base, z', iOff);
          iOff, slot := iOff + D, slot + 1;
        }
      }
      if r == Ok {
        CopiedWhole(D, PB, d0, dest, base, z', iOff);
      } else {
        CopiedLess(D, PB, d0, dest, base, z', iOff);
      }
    }

    // The page iNext of the source, unless it is the one of the locking byte.
    method CopyNext(fault: Fault) returns (r: Code)
      requires Sizes(S, D, PB) && |src| % S == 0 && bDestLocked && !IsFatal(rc) && 0 < iNext <= Pages(S, src)
      requires Agree(S, D, PB, src, dest, Base(S, iNext), field)
      modifies `dest, `field
      ensures r == Ok || (r == ReadOnly && mode.memdb && S != D) || fault.Gives(r)
      ensures fault.Reading? && fault.page == iNext != PageOf(S, PB) ==> r == Failed(fault.code)
      ensures r == Ok && mode.memdb && S != D ==> iNext == PageOf(S, PB)
      ensures r == Ok ==> Agree(S, D, PB, src, dest, Base(S, iNext + 1), field)
      ensures r == Ok ==> field == if iNext == 1 then Counted(Pages(S, src)) else old(field)
    {
      hide Sizes, Agree, AgreeBut, PageOf, CopiedTo, PageData, Base, Pages, Four, Excluded;
      SizesFacts(S, D, PB);
      PageStep(S, D, PB, src, iNext);
      r := Ok;
      if iNext != PageOf(S, PB) {
        if fault.Reading? && fault.page == iNext {
          return Failed(fault.code);
        }
        var base := Base(S, iNext);
        ghost var d0 := dest;
        r := BackupOnePage(iNext, src[base..base + S], false,
                           if fault.Writing? && fault.page == iNext then fault.fault else Fine);
        if r == Ok {
          ghost var field' := if base == 0 then Counted(Pages(S, src)) else field;
          AgreeAll(S, D, PB, src, d0, base, field, base);
          PageAgrees(S, D, PB, src, d0, dest, base, false, Pages(S, src), base, field, field');
          field := field';
        }
      } else {
        PendingAgrees(S, D, PB, src, dest, field);
      }
    }

    // The loop of sqlite3_backup_step over source pages.
    method CopyPages(nPage: int, nSrcPage: nat, fault: Fault) returns (r: Code)
      requires Valid() && bDestLocked && !IsFatal(rc) && nSrcPage == Pages(S, src)
      modifies `dest, `iNext, `field
      ensures r == Ok || (r == ReadOnly && mode.memdb && S != D) || fault.Gives(r)
      ensures r == Ok ==> !Unread(fault, old(iNext), iNext)
      ensures r == Ok && mode.memdb && S != D ==>
        iNext == old(iNext) || (iNext == old(iNext) + 1 && old(iNext) == PageOf(S, PB))
      ensures iNext > 0 && (r == Ok ==> Agree(S, D, PB, src, dest, Base(S, iNext), field))
      ensures r == Ok ==> iNext == NextPage(old(iNext), nPage, nSrcPage)
      ensures r == Ok ==> field == if old(iNext) == 1 && iNext > 1 then Counted(nSrcPage) else old(field)
    {
      hide Sizes, Agree, Base, Pages, Four, PageOf;
      SizesFacts(S, D, PB);
      r := Ok;
      var ii := 0;
      while (nPage < 0 || ii < nPage) && iNext <= nSrcPage && r == Ok
        invariant iNext > 0 && ii >= 0 && (r == Ok || (r == ReadOnly && mode.memdb && S != D) || fault.Gives(r))
        invariant r == Ok ==>
          iNext == old(iNext) + ii && (ii > 0 ==> iNext <= nSrcPage + 1) && (nPage >= 0 ==> ii <= nPage)
        invariant r == Ok ==> Agree(S, D, PB, src, dest, Base(S, iNext), field)
        invariant r == Ok ==> field == if old(iNext) == 1 && iNext > 1 then Counted(nSrcPage) else old(field)
        invariant r == Ok ==> !Unread(fault, old(iNext), iNext)
        invariant r == Ok && mode.memdb && S != D ==>
          iNext == old(iNext) || (iNext == old(iNext) + 1 && old(iNext) == PageOf(S, PB))
        decreases nSrcPage + 1 - iNext, if r == Ok then 1 else 0
      {
        r := CopyNext(fault);
        iNext := iNext + 1;
        ii := ii + 1;
      }
    }

    // A page that cannot be read is among those from one on and before another.
    predicate Unread(fault: Fault, from: nat, to: nat) {
      S > 0 && fault.Reading? && from <= fault.page < to && fault.page != PageOf(S, PB)
    }

    // The header fields that the end of the backup and the commit of the destination write.
    method PutHeader(counter: nat, version: nat)
      requires D >= 512 && AgreeDone(S, D, PB, mode, src, dest, field)
      modifies `dest
      ensures AgreeDone(S, D, PB, mode, src, dest, field) && Header(mode, dest, iDestSchema + 1, counter, version)
      ensures |dest| >= |old(dest)| && forall o :: 0 <= o < |old(dest)| && !Rewritten(mode, o) ==>
        dest[o] == old(dest)[o]
    {
      hide Four, AgreeDone, Written, Padded;
      assert Base(D, 1) == 0;
      ghost var d0 := dest;
      PutDest(1, 40, Four(iDestSchema + 1));
      HeaderPut(S, D, PB, mode, src, d0, dest, field, 40, Four(iDestSchema + 1));
      if mode.wal {
        ghost var d1 := dest;
        PutDest(1, 18, [2, 2]);
        HeaderPut(S, D, PB, mode, src, d1, dest, field, 18, [2, 2]);
        SliceKept(d1, dest, 18, [2, 2], 40, 44);
      }
      if mode.counts {
        PutCounters(counter, version);
      }
    }

    // pager_write_changecounter
    method PutCounters(counter: nat, version: nat)
      requires D >= 512 && AgreeDone(S, D, PB, mode, src, dest, field) && mode.counts && |dest| >= 100
      modifies `dest
      ensures AgreeDone(S, D, PB, mode, src, dest, field)
      ensures |dest| >= |old(dest)| && dest[40..44] == old(dest)[40..44] && dest[18..20] == old(dest)[18..20]
      ensures dest[24..28] == Four(counter) && dest[92..96] == Four(counter) && dest[96..100] == Four(version)
      ensures forall o :: 0 <= o < |old(dest)| && !Rewritten(mode, o) ==> dest[o] == old(dest)[o]
    {
      hide Four, AgreeDone, Written, Padded;
      assert Base(D, 1) == 0;
      ghost var d2 := dest;
      PutDest(1, 24, Four(counter));
      HeaderPut(S, D, PB, mode, src, d2, dest, field, 24, Four(counter));
      HeaderKept(mode, d2, dest, 24, Four(counter));
      ghost var d3 := dest;
      PutDest(1, 92, Four(counter));
      HeaderPut(S, D, PB, mode, src, d3, dest, field, 92, Four(counter));
      HeaderKept(mode, d3, dest, 92, Four(counter));
      SliceKept(d3, dest, 92, Four(counter), 24, 28);
      ghost var d4 := dest;
      PutDest(1, 96, Four(version));
      HeaderPut(S, D, PB, mode, src, d4, dest, field, 96, Four(version));
      HeaderKept(mode, d4, dest, 96, Four(version));
      SliceKept(d4, dest, 96, Four(version), 24, 28);
      SliceKept(d4, dest, 96, Four(version), 92, 96);
    }

    // For a larger page size of the destination: the source pages past the one of the locking byte.
    method PutExtra()
      requires Sizes(S, D, PB) && S < D && |src| % S == 0 && AgreeDone(S, D, PB, mode, src, dest, field)
      modifies `dest
      ensures AgreeDone(S, D, PB, mode, src, dest, field) && ExtraTo(S, PB, src, dest, PB + D)
      ensures |dest| >= |old(dest)| && forall o :: 0 <= o < |old(dest)| && o < PB ==> dest[o] == old(dest)[o]
    {
      hide Sizes, AgreeDone, ExtraTo, Base, PageOf;
      SizesFacts(S, D, PB);
      ghost var d0 := dest;
      var iEnd, iOff := Min(PB + D, |src|), PB + S;
      ExtraStart(S, D, PB, src, dest);
      while iOff < iEnd
        invariant iOff >= PB + S && iOff % S == 0
        invariant AgreeDone(S, D, PB, mode, src, dest, field) && ExtraTo(S, PB, src, dest, iOff)
        invariant |dest| >= |d0| && forall o :: 0 <= o < |d0| && o < PB ==> dest[o] == d0[o]
        decreases iEnd - iOff
      {
        ExtraStep(S, D, PB, src, iOff);
        ghost var d1 := dest;
        var iSrcPg := PageOf(S, iOff);
        var zData := src[Base(S, iSrcPg)..Base(S, iSrcPg) + S];
        dest := Written(Padded(dest, iOff + S), iOff, zData);
        assert dest[iOff..iOff + S] == zData;
        ExtraPut(S, D, PB, mode, src, d1, dest, field, iOff);
        iOff := iOff + S;
      }
      ExtraEnd(S, D, PB, src, dest, iOff);
    }

    // The destination gets its final size.
    method Resize(nSrcPage: nat)
      requires Sizes(S, D, PB) && nSrcPage > 0 && |src| % S == 0 && |src| != PB + S
        && AgreeDone(S, D, PB, mode, src, dest, field)
      requires |src| > 0 ==> |src| == S * nSrcPage
      modifies `dest
      ensures |src| > 0 ==> Finished(S, PB, mode, src, dest, field)
      ensures forall o :: 0 <= o < |dest| && o < |old(dest)| && o < PB ==> dest[o] == old(dest)[o]
      ensures |dest| == S * nSrcPage || (src == [] && S < D && |dest| < S * nSrcPage && |dest| >= |old(dest)|)
    {
      hide Sizes, AgreeDone, ExtraTo, Finished, PageOf, Truncation, Rewritten, Excluded;
      SizesFacts(S, D, PB);
      TruncationFacts(S, D, PB, src, nSrcPage);
      var nDestTruncate, iSize := Truncation(S, D, PB, nSrcPage), S * nSrcPage;
      assert nDestTruncate > 0;
      if S < D {
        assert nDestTruncate * D >= iSize || (nDestTruncate == PageOf(D, PB) - 1 && PB <= iSize <= PB + D);
        PutExtra();
        if src != [] {
          PageSizeLe(S, |src|);
          Cut(S, D, PB, mode, src, dest, field);
        }
        if |dest| > iSize {
          dest := dest[..iSize];
        }
        assert src != [] ==> dest[..|src|] == dest;
      } else {
        assert nDestTruncate * D == iSize;
        if src != [] {
          PageSizeLe(S, |src|);
          Cut(S, D, PB, mode, src, dest, field);
        }
        dest := Padded(dest, nDestTruncate * D)[..nDestTruncate * D];
      }
    }

    // All that sqlite3_backup_step does when no source page is left.
    method Finalise(counter: nat, version: nat, newDb: Bytes)
      requires Sizes(S, D, PB) && |src| % S == 0 && |src| != PB + S && |newDb| == D
      requires iNext > Pages(S, src) && Agree(S, D, PB, src, dest, Base(S, iNext), field)
      modifies `dest
      ensures |src| > 0 ==> Finished(S, PB, mode, src, dest, field)
      ensures Header(mode, dest, iDestSchema + 1, counter, version)
      ensures |src| == 0 ==> |dest| == S && forall o :: 0 <= o < S && o < D && !Rewritten(mode, o) ==>
        dest[o] == newDb[o]
    {
      hide Sizes, AgreeDone, Agree, ExtraTo, Finished, Header, Excluded, Pages, Padded, Rewritten, Base;
      SizesFacts(S, D, PB);
      PendingLarge(S, D, PB);
      var nSrcPage := Pages(S, src);
      PagesSize(S, src);
      AllAgree(S, D, PB, mode, src, dest, field, iNext);
      if nSrcPage == 0 {
        PutNew(newDb);
        EmptyDone(S, D, PB, mode, src, dest, field);
        nSrcPage := 1;
      }
      ghost var d1 := dest;
      PutHeader(counter, version);
      ghost var d2 := dest;
      Resize(nSrcPage);
      HeaderExtra(D, PB, mode, d2, dest, iDestSchema + 1, counter, version);
    }

    // sqlite3BtreeNewDb: page 1 of an empty database.
    method PutNew(newDb: Bytes)
      requires |newDb| == D
      modifies `dest
      ensures |dest| >= D && forall o :: 0 <= o < D ==> dest[o] == newDb[o]
    {
      assert Base(D, 1) == 0;
      PutDest(1, 0, newDb);
      assert forall o :: 0 <= o < D ==> dest[0..0 + D][o] == dest[o];
    }

    // The locks of both files, with their outcomes given, and the one combination of modes that is refused.
    method BeginStep(inWrite: bool, lockDest: Code, lockSrc: Code) returns (r: Code)
      modifies `bDestLocked, `iDestSchema
      ensures inWrite ==> r == Busy && bDestLocked == old(bDestLocked)
      ensures !inWrite && !old(bDestLocked) && lockDest != Ok ==> r == lockDest && !bDestLocked
      ensures !inWrite && (old(bDestLocked) || lockDest == Ok) ==>
        && bDestLocked
        && r == if lockSrc != Ok then lockSrc else if mode.wal && S != D then ReadOnly else Ok
      ensures iDestSchema == if bDestLocked && !old(bDestLocked) then Meta(dest) else old(iDestSchema)
    {
      r := if inWrite then Busy else Ok;
      if r == Ok && !bDestLocked {
        r := lockDest;
        if r == Ok {
          bDestLocked := true;
          iDestSchema := Meta(dest);
        }
      }
      if r == Ok {
        r := lockSrc;
      }
      if r == Ok && mode.wal && S != D {
        r := ReadOnly;
      }
    }

    // The part of a step after both files are locked.
    method CopyStep(nPage: int, counter: nat, version: nat, newDb: Bytes, fault: Fault) returns (r: Code)
      requires Valid() && bDestLocked && !IsFatal(rc) && |newDb| == D
      modifies `dest, `iNext, `field, `isAttached, `nPagecount, `nRemaining, `saved
      ensures r == Ok || r == Done || (r == ReadOnly && mode.memdb && S != D) || fault.Gives(r)
      ensures r == Ok || r == Done ==> !Unread(fault, old(iNext), iNext)
      ensures r == Ok ==> 0 <= nPage && iNext == old(iNext) + nPage <= |src| / S
      ensures r == Done ==> nPage < 0 || old(iNext) + nPage > |src| / S
      ensures fault.Committing? ==> r != Done
      ensures StepResult(S, D, PB, mode, src, old(dest), dest, old(iNext), iNext, nPage, r, field, iDestSchema, counter,
                         version, newDb)
      ensures r == Ok ==> Agree(S, D, PB, src, dest, Base(S, iNext), field) && isAttached
      ensures r == Ok || r == Done ==> nRemaining == Pages(S, src) + 1 - iNext && nPagecount == Pages(S, src)
      ensures (r == Ok || r == Done) && mode.memdb && S != D ==>
        iNext == old(iNext) || (iNext == old(iNext) + 1 && old(iNext) == PageOf(S, PB))
      ensures iNext > 0 && saved == if r == Done then dest else old(saved)
      ensures r == Ok || r == Done ==>
        field == if old(iNext) == 1 && iNext > 1 then Counted(Pages(S, src)) else old(field)
    {
      hide Sizes, Agree, Finished, Header, Excluded, Pages, Rewritten, Base, NextPage, Four;
      SizesFacts(S, D, PB);
      var nSrcPage := Pages(S, src);
      r := CopyPages(nPage, nSrcPage, fault);
      if r == Ok {
        nPagecount, nRemaining := nSrcPage, nSrcPage + 1 - iNext;
        NextPageFacts(S, src, old(iNext), nPage);
        if iNext > nSrcPage {
          Finalise(counter, version, newDb);
          if fault.Committing? {
            r := Failed(fault.code);
          } else {
            saved := dest;
            r := Done;
          }
        } else {
          isAttached := true;
        }
      }
    }

    /**
    A call of sqlite3_backup_step. The outcomes of locking the two files are given, and what else may fail, as are the
    change counter that the commit writes and what page 1 of an empty database is. A call that returns Done leaves a
    finished copy, committed; one that fails leaves what a rollback restores.
    */
    method Step(nPage: int, inWrite: bool, lockDest: Code, lockSrc: Code, fault: Fault, counter: nat, version: nat,
                newDb: Bytes)
      returns (r: Code)
      requires Valid() && lockDest != Done && lockSrc != Done && |newDb| == D
      modifies this
      ensures Valid() && src == old(src) && r == rc
      ensures IsFatal(old(rc)) ==> Now() == old(Now())
      ensures !IsFatal(old(rc)) ==>
        StepResult(S, D, PB, mode, src, old(dest), dest, old(iNext), iNext, nPage, r, field, iDestSchema, counter,
                   version, newDb)
      ensures !IsFatal(old(rc)) && inWrite ==> Now() == old(Now()).(rc := Busy)
      ensures !IsFatal(old(rc)) && !inWrite && !old(bDestLocked) && lockDest != Ok ==>
        Now() == old(Now()).(rc := lockDest)
      ensures !IsFatal(old(rc)) && !inWrite && (old(bDestLocked) || lockDest == Ok) ==>
        && bDestLocked
        && (lockSrc != Ok ==> Now() == old(Now()).(rc := lockSrc, locked := true))
        && (lockSrc == Ok && mode.wal && S != D ==> Now() == old(Now()).(rc := ReadOnly, locked := true))
        && (lockSrc == Ok && !(mode.wal && S != D) ==>
              r == Ok || r == Done || (r == ReadOnly && mode.memdb && S != D) || fault.Gives(r))
      ensures !IsFatal(old(rc)) && bDestLocked && !old(bDestLocked) && |old(dest)| >= 44 ==>
        iDestSchema == Get4(old(dest), 40)
      ensures old(bDestLocked) ==> iDestSchema == old(iDestSchema)
      ensures !IsFatal(old(rc)) && r == Ok ==> 0 <= nPage && iNext == old(iNext) + nPage <= |src| / S
      ensures !IsFatal(old(rc)) && r == Done ==> nPage < 0 || old(iNext) + nPage > |src| / S
      ensures !IsFatal(old(rc)) && (r == Ok || r == Done) && mode.memdb && S != D ==>
        iNext == old(iNext) || (iNext == old(iNext) + 1 && old(iNext) == PageOf(S, PB))
      ensures !IsFatal(old(rc)) && (r == Ok || r == Done) ==> !Unread(fault, old(iNext), iNext)
      ensures !IsFatal(old(rc)) && r == Done ==> !fault.Committing?
      ensures !IsFatal(old(rc)) && (r == Ok || r == Done) ==>
        nRemaining == Pages(S, src) + 1 - iNext && nPagecount == Pages(S, src)
      ensures r != Done ==> saved == old(saved)
      ensures !IsFatal(old(rc)) && (r == Ok || r == Done) ==>
        field == if old(iNext) == 1 && iNext > 1 then Counted(Pages(S, src)) else old(field)
      ensures r == Busy || r == Locked ==> field == old(field)
    {
      hide Sizes, Agree, Finished, Header, Excluded, Pages, Rewritten, Base, NextPage, Four, StepResult, PageOf, Unread,
        Mode.Valid;
      if IsFatal(rc) {
        return rc;
      }
      r := BeginStep(inWrite, lockDest, lockSrc);
      if r == Ok {
        r := CopyStep(nPage, counter, version, newDb, fault);
      } else {
        Refused(S, D, PB, mode, src, dest, iNext, nPage, r, field, iDestSchema, counter, version, newDb);
      }
      rc := r;
    }

    // sqlite3BackupUpdate: page iPage of the source, which now holds z, has been written.
    method Update(iPage: nat, z: Bytes, fault: SlotFault)
      requires Sizes(S, D, PB) && iNext > 0 && iPage > 0 && iPage != PageOf(S, PB) && |z| == S
        && Base(S, iPage) + S <= |src|
      requires src[Base(S, iPage)..Base(S, iPage) + S] == z
      requires !IsFatal(rc) ==> iNext > 1 ==> bDestLocked && isAttached
      requires !IsFatal(rc) ==> AgreeBut(S, D, PB, src, dest, Base(S, iNext), field, Base(S, iPage))
      requires !IsFatal(rc) && iPage >= iNext ==> Agree(S, D, PB, src, dest, Base(S, iNext), field)
      modifies `dest, `rc, `field
      ensures IsFatal(old(rc)) || iPage >= old(iNext) ==> rc == old(rc) && dest == old(dest)
      ensures rc != old(rc) ==> (rc == ReadOnly && mode.memdb && S != D) || (fault.At? && rc == Failed(fault.code))
      ensures !IsFatal(rc) ==> Agree(S, D, PB, src, dest, Base(S, iNext), field)
      ensures field == old(field) || (iPage == 1 && field == OfSource)
    {
      hide Sizes, Agree, AgreeBut, PageOf, CopiedTo, PageData, Base, Pages, Four, Excluded;
      SizesFacts(S, D, PB);
      if isAttached && !IsFatal(rc) && iPage < iNext {
        ghost var d0 := dest;
        var r := BackupOnePage(iPage, z, true, fault);
        if r != Ok {
          rc := r;
        } else {
          ghost var base := Base(S, iPage);
          ghost var field' := if base == 0 then OfSource else field;
          BaseAtLeast(S, iPage);
          PageAgrees(S, D, PB, src, d0, dest, base, true, Pages(S, src), Base(S, iNext), field, field');
          field := field';
        }
      }
    }

    /**
    A page of the source is written by a connection that shares its cache: the backup is told, and fails if it cannot
    write the destination.
    */
    method SourceWrite(iPage: nat, z: Bytes, fault: SlotFault)
      requires Valid() && iPage > 0 && iPage != PageOf(S, PB) && |z| == S
      requires Base(S, iPage) <= |src| || (|src| == PB && Base(S, iPage) == PB + S)
      modifies `src, `dest, `rc, `field
      ensures Valid() && PatchedTo(old(src), src, Base(S, iPage), z) && |src| == Larger(|old(src)|, Base(S, iPage) + S)
      ensures src == Written(Padded(old(src), Base(S, iPage) + S), Base(S, iPage), z)
      ensures rc != old(rc) ==> (rc == ReadOnly && mode.memdb && S != D) || (fault.At? && rc == Failed(fault.code))
      ensures IsFatal(old(rc)) || iPage >= iNext ==> rc == old(rc) && dest == old(dest)
      ensures field == old(field) || (iPage == 1 && field == OfSource)
    {
      hide Sizes, Agree, AgreeBut, PageOf, Base, Excluded;
      ghost var src0 := src;
      var base := Base(S, iPage);
      src := Written(Padded(src, base + S), base, z);
      assert src[base..base + S] == z;
      SourceSize(S, D, PB, src0, src, iPage);
      if !IsFatal(rc) {
        SourceWritten(S, D, PB, src0, src, dest, Base(S, iNext), field, base, z);
        if iPage >= iNext {
          BaseOrder(S, iNext, iPage);
        }
      }
      Update(iPage, z, fault);
    }

    /** The source is made shorter; the backup is not told. */
    method SourceTruncate(n: nat)
      requires Valid() && n <= |src| && n % S == 0 && n != PB + S
      modifies `src
      ensures Valid() && src == old(src)[..n]
    {
      hide Sizes, Agree, Base, Excluded;
      if !IsFatal(rc) {
        SourceCut(S, D, PB, src, dest, Base(S, iNext), field, n);
      }
      src := src[..n];
    }

    /** Another connection has changed the source: sqlite3BackupRestart. */
    method SourceReplaced(newSrc: Bytes)
      requires Valid() && |newSrc| % S == 0 && |newSrc| != PB + S
      modifies `src, `iNext
      ensures Valid() && src == newSrc && iNext == 1
    {
      src := newSrc;
      iNext := 1;
      assert Base(S, 1) == 0;
    }

    /** The end of the backup object: what was not committed is rolled back. */
    method Finish() returns (r: Code)
      requires Valid()
      modifies `dest
      ensures r == (if rc == Done then Ok else rc) && dest == saved
      ensures rc == Done ==> dest == old(dest)
    {
      dest := saved;
      r := if rc == Done then Ok else rc;
    }
  }

  /**
  Source writes and truncations that the backup follows, and changes that make it restart, between steps of any size:
  one run of the protocol.
  */
  datatype Event =
    | StepBy(nPage: int, inWrite: bool, lockDest: Code, lockSrc: Code, fault: Fault)
    | Write(iPage: nat, z: Bytes, slot: SlotFault)
    | Truncate(n: nat)
    | Replace(newSrc: Bytes)

  /** The events that can occur to a source of these bytes. */
  predicate Possible(S: nat, PB: nat, src: Bytes, e: Event)
    requires S > 0
  {
    match e
    case StepBy(_, _, lockDest, lockSrc, _) => lockDest != Done && lockSrc != Done
    case Write(iPage, z, _) =>
      iPage > 0 && iPage != PageOf(S, PB) && |z| == S
        && (Base(S, iPage) <= |src| || (|src| == PB && Base(S, iPage) == PB + S))
    case Truncate(n) => n <= |src| && n % S == 0 && n != PB + S
    case Replace(newSrc) => |newSrc| % S == 0 && |newSrc| != PB + S
  }

  /** The source after an event, and after the first k of several; one that cannot occur is passed over. */
  function After(S: nat, PB: nat, src: Bytes, e: Event): Bytes
    requires S > 0
  {
    if !Possible(S, PB, src, e) then src
    else
      match e
      case StepBy(_, _, _, _, _) => src
      case Write(iPage, z, _) => Written(Padded(src, Base(S, iPage) + S), Base(S, iPage), z)
      case Truncate(n) => src[..n]
      case Replace(newSrc) => newSrc
  }

  function SourceAfter(S: nat, PB: nat, src: Bytes, events: seq<Event>, k: nat): Bytes
    requires S > 0 && k <= |events|
  {
    if k == 0 then src else After(S, PB, SourceAfter(S, PB, src, events, k - 1), events[k - 1])
  }

  /**
  The number of pages in the header was that of the source at some moment of the run, or the source has written it.
  */
  ghost predicate CountedDuring(S: nat, PB: nat, src: Bytes, events: seq<Event>, n: nat, field: Field)
    requires S > 0 && n <= |events|
  {
    field.OfSource? || exists k :: 0 <= k <= n && CountedAt(S, PB, src, events, k, field.n)
  }

  ghost predicate CountedAt(S: nat, PB: nat, src: Bytes, events: seq<Event>, k: nat, pages: nat)
    requires S > 0 && k <= |events|
  {
    pages == Pages(S, SourceAfter(S, PB, src, events, k))
  }

  lemma NotCounted(S: nat, PB: nat, src: Bytes, events: seq<Event>)
    requires S > 0
    ensures CountedDuring(S, PB, src, events, 0, OfSource) && SourceAfter(S, PB, src, events, 0) == src
  {}

  lemma StillCounted(S: nat, PB: nat, src: Bytes, events: seq<Event>, n: nat, field: Field, field': Field)
    requires S > 0 && n < |events| && CountedDuring(S, PB, src, events, n, field)
    requires field' == field || field' == OfSource || field' == Counted(Pages(S, SourceAfter(S, PB, src, events, n)))
    ensures CountedDuring(S, PB, src, events, n + 1, field')
  {
    if field'.Counted? && field' != field {
      assert CountedAt(S, PB, src, events, n, field'.n);
    }
  }

  /** A destination that is done: a finished copy of the source, or of an empty one the new database. */
  ghost predicate Copy(b: Sqlite3Backup, newDb: Bytes)
    reads b
  {
    if b.src != [] then Finished(b.S, b.PB, b.mode, b.src, b.dest, b.field)
    else |b.dest| == b.S && forall o :: 0 <= o < b.S && o < b.D && o < |newDb| && !Rewritten(b.mode, o) ==>
      b.dest[o] == newDb[o]
  }

  /**
  What an event may do: a step is refused, with nothing changed but what was locked, for a writer of the source, a lock
  that is not granted, or WAL mode with two page sizes; a write of a page that has not been copied changes nothing, and
  a change from outside only makes the backup start again.
  */
  ghost predicate Obeys(sameSize: bool, mode: Mode, e: Event, m: Moment, m': Moment) {
    match e
    case StepBy(_, inWrite, lockDest, lockSrc, _) =>
      if IsFatal(m.rc) then m' == m
      else if inWrite then m' == m.(rc := Busy)
      else if !m.locked && lockDest != Ok then m' == m.(rc := lockDest)
      else if lockSrc != Ok then m' == m.(rc := lockSrc, locked := true)
      else if mode.wal && !sameSize then m' == m.(rc := ReadOnly, locked := true)
      else m'.locked && (m'.rc != Done ==> m'.saved == m.saved)
    case Write(iPage, _, _) =>
      && m'.saved == m.saved && m'.iNext == m.iNext && m'.locked == m.locked
      && (IsFatal(m.rc) || iPage >= m.iNext ==> m' == m)
      && (m'.rc == m.rc || m'.rc == ReadOnly || m'.rc.Failed?)
    case Truncate(_) => m' == m
    case Replace(_) => m' == m.(iNext := 1)
  }

  /** A run as it was seen before and after each event; an event that cannot occur is passed over. */
  ghost predicate Traced(S: nat, D: nat, PB: nat, mode: Mode, src: Bytes, events: seq<Event>, trace: seq<Moment>)
    requires S > 0
  {
    && 0 < |trace| <= |events| + 1
    && forall k :: 0 < k < |trace| ==> TracedAt(S, D, PB, mode, src, events, trace, k)
  }

  ghost predicate TracedAt(S: nat, D: nat, PB: nat, mode: Mode, src: Bytes, events: seq<Event>, trace: seq<Moment>,
                           k: nat)
    requires S > 0 && 0 < k < |trace| <= |events| + 1
  {
    if Possible(S, PB, SourceAfter(S, PB, src, events, k - 1), events[k - 1])
    then Obeys(S == D, mode, events[k - 1], trace[k - 1], trace[k])
    else trace[k] == trace[k - 1]
  }

  lemma TracedStart(S: nat, D: nat, PB: nat, mode: Mode, src: Bytes, events: seq<Event>, m: Moment)
    requires S > 0
    ensures Traced(S, D, PB, mode, src, events, [m])
  {}

  lemma TracedMore(S: nat, D: nat, PB: nat, mode: Mode, src: Bytes, events: seq<Event>, trace: seq<Moment>, m: Moment)
    requires S > 0 && Traced(S, D, PB, mode, src, events, trace) && |trace| <= |events|
    requires var k := |trace| - 1;
      if Possible(S, PB, SourceAfter(S, PB, src, events, k), events[k])
      then Obeys(S == D, mode, events[k], trace[k], m) else m == trace[k]
    ensures Traced(S, D, PB, mode, src, events, trace + [m])
  {
    hide SourceAfter, Possible, Obeys;
    var trace' := trace + [m];
    forall k | 0 < k < |trace'|
      ensures TracedAt(S, D, PB, mode, src, events, trace', k)
    {
      if k < |trace| {
        assert TracedAt(S, D, PB, mode, src, events, trace, k);
      }
    }
  }

  /** A step that no one refused. */
  ghost predicate Granted(e: Event, locked: bool) {
    e.StepBy? && !e.inWrite && e.lockSrc == Ok && (locked || e.lockDest == Ok)
  }

  /** A destination that came to be locked was locked by a step that no writer of the source stood against. */
  lemma {:induction false} LockedBy(S: nat, D: nat, PB: nat, mode: Mode, src: Bytes, events: seq<Event>,
                                    trace: seq<Moment>, n: nat)
    requires S > 0 && Traced(S, D, PB, mode, src, events, trace) && n < |trace| && !trace[0].locked && trace[n].locked
    ensures exists k :: 0 <= k < n && events[k].StepBy? && !events[k].inWrite && events[k].lockDest == Ok
  {
    hide SourceAfter, Possible;
    assert n > 0;
    assert TracedAt(S, D, PB, mode, src, events, trace, n);
    if trace[n - 1].locked {
      LockedBy(S, D, PB, mode, src, events, trace, n - 1);
    } else {
      assert events[n - 1].StepBy?;
    }
  }

  /** The step after which a backup is done was refused by no one: the source was not written, and both were locked. */
  lemma DoneGranted(S: nat, D: nat, PB: nat, mode: Mode, src: Bytes, events: seq<Event>, trace: seq<Moment>, n: nat)
    requires S > 0 && Traced(S, D, PB, mode, src, events, trace) && 0 < n < |trace|
    requires trace[n - 1].rc != Done && trace[n].rc == Done
    ensures Granted(events[n - 1], trace[n - 1].locked) && trace[n].locked && !(mode.wal && S != D)
  {
    hide SourceAfter;
    assert TracedAt(S, D, PB, mode, src, events, trace, n);
  }

  method DoEvent(b: Sqlite3Backup, events: seq<Event>, n: nat, ghost src0: Bytes, counter: nat, version: nat,
                 newDb: Bytes)
    requires b.Valid() && b.S > 0 && n < |events| && b.rc != Done && |newDb| == b.D
    requires b.src == SourceAfter(b.S, b.PB, src0, events, n)
    requires !IsFatal(b.rc) ==> CountedDuring(b.S, b.PB, src0, events, n, b.field)
    modifies b
    ensures b.Valid() && (b.rc != Done ==> b.saved == old(b.saved))
    ensures b.src == SourceAfter(b.S, b.PB, src0, events, n + 1)
    ensures if Possible(b.S, b.PB, old(b.src), events[n])
            then Obeys(b.S == b.D, b.mode, events[n], old(b.Now()), b.Now())
            else b.Now() == old(b.Now())
    ensures b.rc == Done ==> Copy(b, newDb)
    ensures !IsFatal(b.rc) || b.rc == Done ==> CountedDuring(b.S, b.PB, src0, events, n + 1, b.field)
  {
    hide Sizes, Agree, Finished, Header, Excluded, PageOf, Base, Pages, NextPage, Four, PatchedTo,
      CountedDuring, Rewritten,
      Written, Padded;
    var e := events[n];
    ghost var field := b.field;
    if Possible(b.S, b.PB, b.src, e) {
      match e
      case StepBy(nPage, inWrite, lockDest, lockSrc, fault) =>
        var c := b.Step(nPage, inWrite, lockDest, lockSrc, fault, counter, version, newDb);
      case Write(iPage, z, slot) => b.SourceWrite(iPage, z, slot);
      case Truncate(k) => b.SourceTruncate(k);
      case Replace(newSrc) => b.SourceReplaced(newSrc);
    }
    if !IsFatal(b.rc) || b.rc == Done {
      StillCounted(b.S, b.PB, src0, events, n, field, b.field);
    }
  }

  /**
  Any run, up to and including the step that ends it, after n of the events: if the backup is done, the destination is
  a finished copy of what the source holds at that moment, and Finish leaves it; if it is not, Finish restores the
  destination. Each step on the way is refused as Obeys says, and the one that ends it was refused by no one.
  */
  method Run(b: Sqlite3Backup, events: seq<Event>, counter: nat, version: nat, newDb: Bytes)
    returns (r: Code, n: nat, ghost trace: seq<Moment>)
    requires b.Valid() && b.rc == Ok && |newDb| == b.D && b.field == OfSource && b.S > 0
    modifies b
    ensures r == (if b.rc == Done then Ok else b.rc)
    ensures n <= |events| && (b.rc != Done ==> n == |events| && b.dest == old(b.saved))
    ensures b.src == SourceAfter(b.S, b.PB, old(b.src), events, n)
    ensures b.rc == Done ==> Copy(b, newDb) && CountedDuring(b.S, b.PB, old(b.src), events, n, b.field)
    ensures |trace| == n + 1 && trace[0] == old(b.Now()) && trace[n].rc == b.rc
    ensures Traced(b.S, b.D, b.PB, b.mode, old(b.src), events, trace)
    ensures b.rc == Done ==>
      n > 0 && Granted(events[n - 1], trace[n - 1].locked) && !(b.mode.wal && b.S != b.D) && b.dest == trace[n].dest
  {
    hide Sizes, Agree, Finished, Header, Excluded, PageOf, Base, Pages, NextPage, Four, PatchedTo,
      CountedDuring, Rewritten,
      Written, Padded, IsFatal, Obeys, Traced, Granted, Possible, SourceAfter;
    n := 0;
    ghost var src0 := b.src;
    trace := [b.Now()];
    TracedStart(b.S, b.D, b.PB, b.mode, src0, events, b.Now());
    NotCounted(b.S, b.PB, src0, events);
    while n < |events| && b.rc != Done
      invariant 0 <= n <= |events| && b.Valid() && |newDb| == b.D && b.S > 0
      invariant b.rc != Done ==> b.saved == old(b.saved)
      invariant b.src == SourceAfter(b.S, b.PB, src0, events, n)
      invariant |trace| == n + 1 && trace[0] == old(b.Now()) && trace[n] == b.Now()
      invariant Traced(b.S, b.D, b.PB, b.mode, src0, events, trace)
      invariant b.rc == Done ==> n > 0 && trace[n - 1].rc != Done
      invariant b.rc == Done ==> Copy(b, newDb)
      invariant !IsFatal(b.rc) || b.rc == Done ==> CountedDuring(b.S, b.PB, src0, events, n, b.field)
    {
      DoEvent(b, events, n, src0, counter, version, newDb);
      TracedMore(b.S, b.D, b.PB, b.mode, src0, events, trace, b.Now());
      n, trace := n + 1, trace + [b.Now()];
    }
    if b.rc == Done {
      DoneGranted(b.S, b.D, b.PB, b.mode, src0, events, trace, n);
    }
    r := b.Finish();
  }
}
