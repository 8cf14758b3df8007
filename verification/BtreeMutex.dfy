/**
The mutexes of shared b-trees (btmutex.c): each connection keeps its b-trees in a list by ascending address of their
BtShared, and locks them so that two connections never wait for each other. The steps of all connections interleave.
*/
module BtreeMutex {

  /** A sharable b-tree of a connection; pBt is the address of the BtShared, which stands for its mutex. */
  datatype Btree = Btree(pBt: nat, locked: bool, wantToLock: nat)

  /**
  Where a connection is: not in any of these functions, or in btreeLockCarefully for b-tree i, about to try its mutex,
  to release the later one j, to wait for its mutex, or to lock the later one j again.
  */
  datatype Pc = Idle | Trying(i: nat) | Releasing(i: nat, j: nat) | Waiting(i: nat) | Relocking(i: nat, j: nat)

  datatype Conn = Conn(list: seq<Btree>, pc: Pc)

  type State = seq<Conn>

  // ----- Mutexes -----

  ghost predicate HoldsAt(c: Conn, k: nat, m: nat) {
    k < |c.list| && c.list[k].locked && c.list[k].pBt == m
  }

  ghost predicate Holds(c: Conn, m: nat) {
    exists k :: 0 <= k < |c.list| && HoldsAt(c, k, m)
  }

  ghost predicate Free(s: State, m: nat) {
    forall c :: 0 <= c < |s| ==> !Holds(s[c], m)
  }

  // ----- Steps -----

  function SetLocked(c: Conn, k: nat, locked: bool): Conn
    requires k < |c.list|
  {
    c.(list := c.list[k := c.list[k].(locked := locked)])
  }

  function SetWant(c: Conn, k: nat, want: nat): Conn
    requires k < |c.list|
  {
    c.(list := c.list[k := c.list[k].(wantToLock := want)])
  }

  // sqlite3BtreeEnter, up to the call of btreeLockCarefully.
  ghost predicate EnterStep(c: Conn, c': Conn, i: nat) {
    && c.pc == Idle && i < |c.list|
    && c' == SetWant(c, i, c.list[i].wantToLock + 1).(pc := if c.list[i].locked then Idle else Trying(i))
  }

  // sqlite3BtreeLeave.
  ghost predicate LeaveStep(c: Conn, c': Conn, i: nat) {
    && c.pc == Idle && i < |c.list| && c.list[i].wantToLock > 0
    && var d := SetWant(c, i, c.list[i].wantToLock - 1);
      c' == if c.list[i].wantToLock == 1 then SetLocked(d, i, false) else d
  }

  // sqlite3_mutex_try: it may fail even when the mutex is free.
  ghost predicate TryStep(s: State, c: Conn, c': Conn) {
    && c.pc.Trying? && c.pc.i < |c.list|
    && ((Free(s, c.list[c.pc.i].pBt) && c' == SetLocked(c, c.pc.i, true).(pc := Idle))
        || c' == c.(pc := Releasing(c.pc.i, c.pc.i + 1)))
  }

  // The loop that releases the later mutexes.
  ghost predicate ReleaseStep(c: Conn, c': Conn) {
    && c.pc.Releasing?
    && if c.pc.j < |c.list| then
         c' == (if c.list[c.pc.j].locked then SetLocked(c, c.pc.j, false) else c).(pc := Releasing(c.pc.i, c.pc.j + 1))
       else c' == c.(pc := Waiting(c.pc.i))
  }

  // lockBtreeMutex on p itself: the connection goes on when the mutex is free.
  ghost predicate WaitStep(s: State, c: Conn, c': Conn) {
    && c.pc.Waiting? && c.pc.i < |c.list| && Free(s, c.list[c.pc.i].pBt)
    && c' == SetLocked(c, c.pc.i, true).(pc := Relocking(c.pc.i, c.pc.i + 1))
  }

  // The loop that locks the later mutexes again.
  ghost predicate RelockStep(s: State, c: Conn, c': Conn) {
    && c.pc.Relocking?
    && if c.pc.j < |c.list| then
         if c.list[c.pc.j].wantToLock > 0 then
           Free(s, c.list[c.pc.j].pBt) && c' == SetLocked(c, c.pc.j, true).(pc := Relocking(c.pc.i, c.pc.j + 1))
         else c' == c.(pc := Relocking(c.pc.i, c.pc.j + 1))
       else c' == c.(pc := Idle)
  }

  // A further b-tree is opened: it is linked into the list of its connection.
  ghost predicate OpenStep(c: Conn, c': Conn, pBt: nat) {
    && c.pc == Idle && (forall k :: 0 <= k < |c.list| ==> c.list[k].pBt != pBt)
    && c' == c.(list := Linked(c.list, Btree(pBt, false, 0)))
  }

  // A b-tree that is not in use is closed: it is taken out of the list.
  ghost predicate CloseStep(c: Conn, c': Conn, i: nat) {
    && c.pc == Idle && i < |c.list| && c.list[i].wantToLock == 0
    && c' == c.(list := c.list[..i] + c.list[i + 1..])
  }

  ghost predicate ConnStep(s: State, c: Conn, c': Conn) {
    || (exists i :: 0 <= i < |c.list| && EnterStep(c, c', i))
    || (exists i :: 0 <= i < |c.list| && LeaveStep(c, c', i))
    || (exists pBt :: OpenStep(c, c', pBt))
    || (exists i :: 0 <= i < |c.list| && CloseStep(c, c', i))
    || TryStep(s, c, c') || ReleaseStep(c, c') || WaitStep(s, c, c') || RelockStep(s, c, c')
  }

  /** Any one connection takes a step. */
  ghost predicate Step(s: State, s': State) {
    exists n :: 0 <= n < |s| && StepOf(s, s', n)
  }

  ghost predicate StepOf(s: State, s': State, n: nat) {
    n < |s| && |s'| == |s| && s' == s[n := s'[n]] && ConnStep(s, s[n], s'[n])
  }

  // ----- The list of a connection -----

  ghost predicate Ascending(list: seq<Btree>) {
    forall j, k :: 0 <= j < k < |list| ==> list[j].pBt < list[k].pBt
  }

  /** Where a b-tree belongs in the list. */
  function Linked(list: seq<Btree>, p: Btree): seq<Btree> {
    if list == [] then [p]
    else if p.pBt < list[0].pBt then [p] + list
    else [list[0]] + Linked(list[1..], p)
  }

  lemma {:induction false} LinkedMembers(list: seq<Btree>, p: Btree)
    ensures multiset(Linked(list, p)) == multiset(list) + multiset{p}
    ensures forall b :: b in Linked(list, p) <==> b == p || b in list
  {
    if list != [] && p.pBt >= list[0].pBt {
      LinkedMembers(list[1..], p);
      assert list == [list[0]] + list[1..];
    }
  }

  /** A list stays ascending. */
  lemma {:induction false} LinkedAscending(list: seq<Btree>, p: Btree)
    requires Ascending(list) && forall k :: 0 <= k < |list| ==> list[k].pBt != p.pBt
    ensures Ascending(Linked(list, p))
    ensures forall b :: b in Linked(list, p) <==> b == p || b in list
  {
    LinkedMembers(list, p);
    if list != [] && p.pBt >= list[0].pBt {
      var l := list[1..];
      assert forall k :: 0 <= k < |l| ==> l[k] == list[k + 1];
      LinkedAscending(l, p);
      LinkedMembers(l, p);
      var l' := Linked(l, p);
      forall k | 0 <= k < |l'|
        ensures list[0].pBt < l'[k].pBt
      {
        assert l'[k] in l';
      }
    }
  }

  /** sqlite3BtreeOpen links a new b-tree into the list of its connection, walking from the head. */
  method Link(list: seq<Btree>, p: Btree) returns (r: seq<Btree>)
    requires Ascending(list) && forall k :: 0 <= k < |list| ==> list[k].pBt != p.pBt
    ensures r == Linked(list, p)
  {
    if list == [] || p.pBt < list[0].pBt {
      return [p] + list;
    }
    var i := 0;
    while i + 1 < |list| && list[i + 1].pBt < p.pBt
      invariant 0 <= i < |list| && list[i].pBt < p.pBt
      invariant Linked(list, p) == list[..i + 1] + Linked(list[i + 1..], p)
    {
      assert list[i + 1..][1..] == list[i + 2..];
      assert list[..i + 2] == list[..i + 1] + [list[i + 1]];
      i := i + 1;
    }
    assert i + 1 == |list| ==> list[i + 1..] == [];
    assert i + 1 < |list| ==> list[i + 1..][0] == list[i + 1];
    r := list[..i + 1] + [p] + list[i + 1..];
  }

  // ----- What every step keeps -----

  // A b-tree is locked exactly when it is wanted.
  predicate Settled(b: Btree) {
    b.locked <==> b.wantToLock > 0
  }

  // What the place in btreeLockCarefully says about b-tree k.
  ghost predicate PlaceAt(c: Conn, k: nat) {
    k < |c.list| &&
    match c.pc
    case Idle => Settled(c.list[k])
    case Trying(i) => if k == i then !c.list[k].locked && c.list[k].wantToLock > 0 else Settled(c.list[k])
    case Releasing(i, j) =>
      if k == i then !c.list[k].locked && c.list[k].wantToLock > 0
      else if i < k < j then !c.list[k].locked else Settled(c.list[k])
    case Waiting(i) =>
      if k == i then !c.list[k].locked && c.list[k].wantToLock > 0
      else if i < k then !c.list[k].locked else Settled(c.list[k])
    case Relocking(i, j) => if k < j then Settled(c.list[k]) else !c.list[k].locked
  }

  ghost predicate PcOk(c: Conn) {
    match c.pc
    case Idle => true
    case Trying(i) => i < |c.list|
    case Releasing(i, j) => i < |c.list| && i < j <= |c.list|
    case Waiting(i) => i < |c.list|
    case Relocking(i, j) => i < |c.list| && i < j <= |c.list| && c.list[i].wantToLock > 0
  }

  /** On return from Enter or Leave, when pc is Idle, a b-tree is locked exactly when its count is positive. */
  ghost predicate ConnOk(c: Conn) {
    Ascending(c.list) && PcOk(c) && forall k :: 0 <= k < |c.list| ==> PlaceAt(c, k)
  }

  /** No mutex is held by two connections. */
  ghost predicate Exclusive(s: State) {
    forall c, d :: 0 <= c < |s| && 0 <= d < |s| && c != d ==> Disjoint(s[c], s[d])
  }

  ghost predicate Disjoint(c: Conn, d: Conn) {
    forall m :: Holds(c, m) ==> !Holds(d, m)
  }

  ghost predicate Inv(s: State) {
    (forall c :: 0 <= c < |s| ==> ConnOk(s[c])) && Exclusive(s)
  }

  lemma SameHolds(c: Conn, c': Conn)
    requires |c'.list| == |c.list|
    requires forall k :: 0 <= k < |c.list| ==>
      c'.list[k].pBt == c.list[k].pBt && (c'.list[k].locked ==> c.list[k].locked)
    ensures forall m :: Holds(c', m) ==> Holds(c, m)
  {
    forall m | Holds(c', m)
      ensures Holds(c, m)
    {
      var k :| 0 <= k < |c'.list| && HoldsAt(c', k, m);
      assert HoldsAt(c, k, m);
    }
  }

  lemma OneMoreHeld(c: Conn, c': Conn, i: nat)
    requires |c'.list| == |c.list| && i < |c.list|
    requires forall k :: 0 <= k < |c.list| ==>
      c'.list[k].pBt == c.list[k].pBt && (c'.list[k].locked ==> c.list[k].locked || k == i)
    ensures forall m :: Holds(c', m) ==> Holds(c, m) || m == c.list[i].pBt
  {
    forall m | Holds(c', m)
      ensures Holds(c, m) || m == c.list[i].pBt
    {
      var k :| 0 <= k < |c'.list| && HoldsAt(c', k, m);
      if k != i {
        assert HoldsAt(c, k, m);
      }
    }
  }

  lemma OpenedHolds(c: Conn, c': Conn, p: Btree)
    requires ConnOk(c) && c'.list == Linked(c.list, p) && !p.locked && forall k :: 0 <= k < |c.list| ==>
      c.list[k].pBt != p.pBt
    ensures forall m :: Holds(c', m) ==> Holds(c, m)
  {
    LinkedAscending(c.list, p);
    forall m | Holds(c', m)
      ensures Holds(c, m)
    {
      var k :| 0 <= k < |c'.list| && HoldsAt(c', k, m);
      assert c'.list[k] in c'.list;
      var l :| 0 <= l < |c.list| && c.list[l] == c'.list[k];
      assert HoldsAt(c, l, m);
    }
  }

  // A connection keeps what is said of it, and gets no mutex that is not free.
  lemma ConnKeeps(s: State, c: Conn, c': Conn)
    requires ConnOk(c) && ConnStep(s, c, c')
    ensures ConnOk(c') && forall m :: Holds(c', m) ==> Holds(c, m) || Free(s, m)
  {
    hide Holds, Free;
    if i :| 0 <= i < |c.list| && EnterStep(c, c', i) {
      EnterKeeps(c, c', i);
    } else if i :| 0 <= i < |c.list| && LeaveStep(c, c', i) {
      LeaveKeeps(c, c', i);
    } else if pBt :| OpenStep(c, c', pBt) {
      OpenKeeps(c, c', pBt);
    } else if i :| 0 <= i < |c.list| && CloseStep(c, c', i) {
      CloseKeeps(c, c', i);
    } else if TryStep(s, c, c') {
      TryKeeps(s, c, c');
    } else if ReleaseStep(c, c') {
      ReleaseKeeps(c, c');
    } else if WaitStep(s, c, c') {
      WaitKeeps(s, c, c');
    } else {
      RelockKeeps(s, c, c');
    }
  }

  lemma EnterKeeps(c: Conn, c': Conn, i: nat)
    requires ConnOk(c) && EnterStep(c, c', i)
    ensures ConnOk(c') && forall m :: Holds(c', m) ==> Holds(c, m)
  {
    hide Holds;
    SameHolds(c, c');
    forall k | 0 <= k < |c'.list|
      ensures PlaceAt(c', k)
    {
      assert PlaceAt(c, k);
    }
  }

  lemma LeaveKeeps(c: Conn, c': Conn, i: nat)
    requires ConnOk(c) && LeaveStep(c, c', i)
    ensures ConnOk(c') && forall m :: Holds(c', m) ==> Holds(c, m)
  {
    hide Holds;
    SameHolds(c, c');
    forall k | 0 <= k < |c'.list|
      ensures PlaceAt(c', k)
    {
      assert PlaceAt(c, k);
    }
  }

  lemma OpenKeeps(c: Conn, c': Conn, pBt: nat)
    requires ConnOk(c) && OpenStep(c, c', pBt)
    ensures ConnOk(c') && forall m :: Holds(c', m) ==> Holds(c, m)
  {
    hide Holds;
    var p := Btree(pBt, false, 0);
    OpenedHolds(c, c', p);
    LinkedAscending(c.list, p);
    forall k | 0 <= k < |c'.list|
      ensures PlaceAt(c', k)
    {
      assert c'.list[k] in c'.list;
      if c'.list[k] != p {
        var l :| 0 <= l < |c.list| && c.list[l] == c'.list[k];
        assert PlaceAt(c, l);
      }
    }
  }

  lemma CloseKeeps(c: Conn, c': Conn, i: nat)
    requires ConnOk(c) && CloseStep(c, c', i)
    ensures ConnOk(c') && forall m :: Holds(c', m) ==> Holds(c, m)
  {
    forall k | 0 <= k < |c'.list|
      ensures PlaceAt(c', k)
    {
      assert PlaceAt(c, if k < i then k else k + 1);
    }
    forall m | Holds(c', m)
      ensures Holds(c, m)
    {
      var k :| 0 <= k < |c'.list| && HoldsAt(c', k, m);
      assert HoldsAt(c, if k < i then k else k + 1, m);
    }
  }

  lemma TryKeeps(s: State, c: Conn, c': Conn)
    requires ConnOk(c) && TryStep(s, c, c')
    ensures ConnOk(c') && forall m :: Holds(c', m) ==> Holds(c, m) || Free(s, m)
  {
    hide Holds, Free;
    OneMoreHeld(c, c', c.pc.i);
    if c' == c.(pc := Releasing(c.pc.i, c.pc.i + 1)) {
      SameHolds(c, c');
    }
    forall k | 0 <= k < |c'.list|
      ensures PlaceAt(c', k)
    {
      assert PlaceAt(c, k);
    }
  }

  lemma ReleaseKeeps(c: Conn, c': Conn)
    requires ConnOk(c) && ReleaseStep(c, c')
    ensures ConnOk(c') && forall m :: Holds(c', m) ==> Holds(c, m)
  {
    hide Holds;
    SameHolds(c, c');
    forall k | 0 <= k < |c'.list|
      ensures PlaceAt(c', k)
    {
      assert PlaceAt(c, k);
    }
  }

  lemma WaitKeeps(s: State, c: Conn, c': Conn)
    requires ConnOk(c) && WaitStep(s, c, c')
    ensures ConnOk(c') && forall m :: Holds(c', m) ==> Holds(c, m) || Free(s, m)
  {
    hide Holds, Free;
    OneMoreHeld(c, c', c.pc.i);
    forall k | 0 <= k < |c'.list|
      ensures PlaceAt(c', k)
    {
      assert PlaceAt(c, k);
    }
    assert PlaceAt(c, c.pc.i);
  }

  lemma RelockKeeps(s: State, c: Conn, c': Conn)
    requires ConnOk(c) && RelockStep(s, c, c')
    ensures ConnOk(c') && forall m :: Holds(c', m) ==> Holds(c, m) || Free(s, m)
  {
    hide Holds, Free;
    if c.pc.j < |c.list| && c.list[c.pc.j].wantToLock > 0 {
      OneMoreHeld(c, c', c.pc.j);
    } else {
      SameHolds(c, c');
    }
    forall k | 0 <= k < |c'.list|
      ensures PlaceAt(c', k)
    {
      assert PlaceAt(c, k);
    }
  }

  lemma FreeOf(s: State, m: nat, c: nat)
    requires c < |s|
    ensures Free(s, m) ==> !Holds(s[c], m)
  {}

  /** Every step keeps the order of the lists, the places in the protocol and the exclusion of two owners. */
  lemma StepKeeps(s: State, s': State)
    requires Inv(s) && Step(s, s')
    ensures Inv(s')
  {
    hide Holds, ConnOk, ConnStep;
    var n :| 0 <= n < |s| && StepOf(s, s', n);
    ConnKeeps(s, s[n], s'[n]);
    forall c, d | 0 <= c < |s'| && 0 <= d < |s'| && c != d
      ensures Disjoint(s'[c], s'[d])
    {
      assert Disjoint(s[c], s[d]);
      forall m | Holds(s'[c], m)
        ensures !Holds(s'[d], m)
      {
        FreeOf(s, m, c);
        FreeOf(s, m, d);
      }
    }
  }

  /** A run of the system, from connections that have no b-trees open. */
  ghost predicate IsRun(run: seq<State>) {
    && run != [] && (forall c :: 0 <= c < |run[0]| ==> run[0][c] == Conn([], Idle))
    && forall k :: 0 <= k < |run| - 1 ==> Step(run[k], run[k + 1])
  }

  lemma {:induction false} RunKeeps(run: seq<State>, k: nat)
    requires IsRun(run) && k < |run|
    ensures Inv(run[k])
  {
    if k == 0 {
      forall c, d | 0 <= c < |run[0]| && 0 <= d < |run[0]| && c != d
        ensures Disjoint(run[0][c], run[0][d])
      {}
    } else {
      RunKeeps(run, k - 1);
      assert Step(run[k - 1], run[k - 1 + 1]);
      StepKeeps(run[k - 1], run[k]);
    }
  }

  // ----- No deadlock -----

  /** Connection c cannot go on before mutex m is free. */
  ghost predicate WaitsFor(c: Conn, m: nat) {
    || (c.pc.Waiting? && c.pc.i < |c.list| && c.list[c.pc.i].pBt == m)
    || (c.pc.Relocking? && c.pc.j < |c.list| && c.list[c.pc.j].wantToLock > 0 && c.list[c.pc.j].pBt == m)
  }

  /** A connection that waits holds only mutexes that come earlier. */
  lemma HoldsEarlier(c: Conn, m: nat, h: nat)
    requires ConnOk(c) && WaitsFor(c, m) && Holds(c, h)
    ensures h < m
  {
    var k :| 0 <= k < |c.list| && HoldsAt(c, k, h);
    assert PlaceAt(c, k);
  }

  // Connection n waits for a mutex that connection l holds.
  ghost predicate BlockedBy(s: State, n: nat, l: nat, m: nat) {
    n < |s| && l < |s| && WaitsFor(s[n], m) && Holds(s[l], m)
  }

  ghost predicate WaitCycle(s: State, cs: seq<nat>, ms: seq<nat>) {
    && |cs| == |ms| + 1 && ms != [] && cs[0] == cs[|ms|]
    && forall k :: 0 <= k < |ms| ==> Link2(s, cs, ms, k)
  }

  ghost predicate Link2(s: State, cs: seq<nat>, ms: seq<nat>, k: nat) {
    k < |ms| && k + 1 < |cs| && BlockedBy(s, cs[k], cs[k + 1], ms[k])
  }

  lemma {:induction false} ChainAscends(s: State, cs: seq<nat>, ms: seq<nat>, k: nat)
    requires Inv(s) && |cs| == |ms| + 1 && (forall j :: 0 <= j < |ms| ==> Link2(s, cs, ms, j)) && k < |ms|
    ensures ms[0] <= ms[k]
  {
    hide Holds;
    if k > 0 {
      ChainAscends(s, cs, ms, k - 1);
      assert Link2(s, cs, ms, k - 1) && Link2(s, cs, ms, k);
      HoldsEarlier(s[cs[k]], ms[k], ms[k - 1]);
    }
  }

  /** In no reachable state do connections wait for each other in a circle. */
  lemma NoCycle(run: seq<State>, t: nat, cs: seq<nat>, ms: seq<nat>)
    requires IsRun(run) && t < |run|
    ensures !WaitCycle(run[t], cs, ms)
  {
    RunKeeps(run, t);
    if WaitCycle(run[t], cs, ms) {
      NotACycle(run[t], cs, ms);
    }
  }

  lemma NotACycle(s: State, cs: seq<nat>, ms: seq<nat>)
    requires Inv(s)
    ensures !WaitCycle(s, cs, ms)
  {
    hide Holds;
    var n := |ms| - 1;
    if |cs| == |ms| + 1 && ms != [] && forall k :: 0 <= k < |ms| ==> Link2(s, cs, ms, k) {
      ChainAscends(s, cs, ms, n);
      assert Link2(s, cs, ms, 0) && Link2(s, cs, ms, n);
      if cs[0] == cs[|ms|] {
        HoldsEarlier(s[cs[0]], ms[0], ms[n]);
      }
    }
  }

  // ----- Somebody can always go on -----

  // No mutex of any connection is at an address of `top` or more.
  ghost predicate Below(s: State, top: nat) {
    forall c, k :: 0 <= c < |s| && 0 <= k < |s[c].list| ==> s[c].list[k].pBt < top
  }

  ghost predicate Blocked(s: State, c: nat) {
    c < |s| && exists m :: WaitsFor(s[c], m) && !Free(s, m)
  }

  /** Whoever waits, waits in the end for a connection that holds the mutex and does not wait. */
  lemma {:induction false} SomebodyRuns(s: State, c: nat, m: nat, top: nat) returns (d: nat, h: nat)
    requires Inv(s) && c < |s| && WaitsFor(s[c], m) && !Free(s, m) && Below(s, top)
    ensures d < |s| && Holds(s[d], h) && h >= m && !Blocked(s, d)
    decreases top - m
  {
    hide Holds, ConnOk;
    d :| 0 <= d < |s| && Holds(s[d], m);
    h := m;
    if Blocked(s, d) {
      var m2 :| WaitsFor(s[d], m2) && !Free(s, m2);
      HoldsEarlier(s[d], m2, m);
      WaitsBelow(s, d, m2, top);
      d, h := SomebodyRuns(s, d, m2, top);
    }
  }

  lemma WaitsBelow(s: State, c: nat, m: nat, top: nat)
    requires Inv(s) && c < |s| && WaitsFor(s[c], m) && Below(s, top)
    ensures m < top
  {}

  lemma {:induction false} Bound(s: State) returns (top: nat)
    ensures Below(s, top)
  {
    if s == [] {
      top := 0;
    } else {
      var n := |s| - 1;
      top := Bound(s[..n]);
      var t := BoundList(s[n].list);
      top := if t > top then t else top;
      forall c, k | 0 <= c < |s| && 0 <= k < |s[c].list|
        ensures s[c].list[k].pBt < top
      {
        if c < n {
          assert s[..n][c].list[k] == s[c].list[k];
        }
      }
    }
  }

  lemma {:induction false} BoundList(list: seq<Btree>) returns (top: nat)
    ensures forall k :: 0 <= k < |list| ==> list[k].pBt < top
  {
    if list == [] {
      top := 0;
    } else {
      var n := |list| - 1;
      top := BoundList(list[..n]);
      top := if list[n].pBt >= top then list[n].pBt + 1 else top;
      assert forall k :: 0 <= k < n ==> list[k] == list[..n][k];
    }
  }

  /** In every reachable state, some connection is not blocked; if any waits, one that is not holds a mutex. */
  lemma NoDeadlock(run: seq<State>, t: nat, c: nat)
    requires IsRun(run) && t < |run| && c < |run[t]| && Blocked(run[t], c)
    ensures exists d, h :: 0 <= d < |run[t]| && Holds(run[t][d], h) && !Blocked(run[t], d)
  {
    hide Holds;
    RunKeeps(run, t);
    var m :| WaitsFor(run[t][c], m) && !Free(run[t], m);
    var top := Bound(run[t]);
    var d, h := SomebodyRuns(run[t], c, m, top);
  }

  // The step of a connection that is in btreeLockCarefully and is not blocked.
  function Onward(c: Conn): Conn {
    match c.pc
    case Idle => c
    case Trying(i) => c.(pc := Releasing(i, i + 1))
    case Releasing(i, j) =>
      if j < |c.list| then
        (if c.list[j].locked then SetLocked(c, j, false) else c).(pc := Releasing(i, j + 1))
      else c.(pc := Waiting(i))
    case Waiting(i) => if i < |c.list| then SetLocked(c, i, true).(pc := Relocking(i, i + 1)) else c
    case Relocking(i, j) =>
      if j >= |c.list| then c.(pc := Idle)
      else (if c.list[j].wantToLock > 0 then SetLocked(c, j, true) else c).(pc := Relocking(i, j + 1))
  }

  /** A connection that is not idle and not blocked has a step, which no other connection can hinder. */
  lemma UnblockedSteps(s: State, n: nat)
    requires Inv(s) && n < |s| && s[n].pc != Idle && !Blocked(s, n)
    ensures Step(s, s[n := Onward(s[n])])
  {
    hide Holds, Free;
    var c, c', s' := s[n], Onward(s[n]), s[n := Onward(s[n])];
    assert ConnOk(c);
    if c.pc.Waiting? {
      assert WaitsFor(c, c.list[c.pc.i].pBt);
    }
    if c.pc.Relocking? && c.pc.j < |c.list| && c.list[c.pc.j].wantToLock > 0 {
      assert WaitsFor(c, c.list[c.pc.j].pBt);
    }
    assert TryStep(s, c, c') || ReleaseStep(c, c') || WaitStep(s, c, c') || RelockStep(s, c, c');
    assert s'[n] == c' && s' == s[n := s'[n]];
    assert StepOf(s, s', n);
  }

  // ----- The counts -----

  // While a connection is in btreeLockCarefully, no step changes how often its b-trees are wanted.
  lemma WantsKept(s: State, c: Conn, c': Conn, k: nat)
    requires c.pc != Idle && ConnStep(s, c, c') && k < |c.list|
    ensures |c'.list| == |c.list| && c'.list[k].wantToLock == c.list[k].wantToLock && c'.list[k].pBt == c.list[k].pBt
  {}

  /**
  From one call of Enter to its return, whatever the others do in between, exactly one count has grown, by one; and then
  exactly the b-trees that are wanted are locked.
  */
  lemma {:induction false} EnterReturns(run: seq<State>, a: nat, b: nat, n: nat, i: nat)
    requires (forall k :: 0 <= k < |run| - 1 ==> Step(run[k], run[k + 1])) && a < b < |run| && n < |run[a]|
      && Inv(run[a])
    requires i < |run[a][n].list| && |run[a + 1]| == |run[a]| && EnterStep(run[a][n], run[a + 1][n], i)
    requires forall k :: a < k < b ==> |run[k]| == |run[a]| && n < |run[k]| && run[k][n].pc != Idle
    ensures |run[b]| == |run[a]| && Inv(run[b]) && |run[b][n].list| == |run[a][n].list|
    ensures forall k :: 0 <= k < |run[a][n].list| ==>
      run[b][n].list[k].wantToLock == run[a][n].list[k].wantToLock + if k == i then 1 else 0
    ensures run[b][n].pc == Idle ==> forall k :: 0 <= k < |run[b][n].list| ==> Settled(run[b][n].list[k])
    decreases b
  {
    hide ConnOk, Exclusive, Step, Settled, EnterStep;
    assert Step(run[b - 1], run[b - 1 + 1]);
    if b == a + 1 {
      StepKeeps(run[a], run[b]);
      EnterCounts(run[a][n], run[b][n], i);
    } else {
      EnterReturns(run, a, b - 1, n, i);
      StepKeeps(run[b - 1], run[b]);
      OthersKeepCounts(run[b - 1], run[b], n);
    }
    IdleSettled(run[b][n], run[b], n);
  }

  lemma EnterCounts(c: Conn, c': Conn, i: nat)
    requires EnterStep(c, c', i)
    ensures |c'.list| == |c.list|
    ensures forall k :: 0 <= k < |c.list| ==> c'.list[k].wantToLock == c.list[k].wantToLock + if k == i then 1 else 0
  {}

  // No step of any connection changes the counts of one that is in btreeLockCarefully.
  lemma OthersKeepCounts(s: State, s': State, n: nat)
    requires Step(s, s') && n < |s| && s[n].pc != Idle
    ensures |s'| == |s| && |s'[n].list| == |s[n].list|
    ensures forall k :: 0 <= k < |s[n].list| ==> s'[n].list[k].wantToLock == s[n].list[k].wantToLock
  {
    hide ConnStep;
    var l :| 0 <= l < |s| && StepOf(s, s', l);
    if l == n {
      SameLength(s, s[n], s'[n]);
      forall k | 0 <= k < |s[n].list|
        ensures s'[n].list[k].wantToLock == s[n].list[k].wantToLock
      {
        WantsKept(s, s[n], s'[n], k);
      }
    }
  }

  lemma SameLength(s: State, c: Conn, c': Conn)
    requires c.pc != Idle && ConnStep(s, c, c')
    ensures |c'.list| == |c.list|
  {}

  lemma IdleSettled(c: Conn, s: State, n: nat)
    requires Inv(s) && n < |s| && s[n] == c
    ensures c.pc == Idle ==> forall k :: 0 <= k < |c.list| ==> Settled(c.list[k])
  {
    assert ConnOk(c);
    forall k | 0 <= k < |c.list|
      ensures c.pc == Idle ==> Settled(c.list[k])
    {
      assert PlaceAt(c, k);
    }
  }

  /**
  A call of Leave takes exactly one count down, by one: the b-tree stays locked while it is still wanted, and otherwise
  its mutex is free for every connection. Nothing else of any connection changes.
  */
  lemma LeaveReturns(s: State, s': State, n: nat, i: nat)
    requires Inv(s) && n < |s| == |s'| && s' == s[n := s'[n]] && LeaveStep(s[n], s'[n], i)
    ensures Inv(s') && s'[n].pc == Idle && |s'[n].list| == |s[n].list|
    ensures forall k :: 0 <= k < |s[n].list| && k != i ==> s'[n].list[k] == s[n].list[k]
    ensures s'[n].list[i].pBt == s[n].list[i].pBt && s'[n].list[i].wantToLock == s[n].list[i].wantToLock - 1
    ensures s[n].list[i].wantToLock >= 2 ==> s'[n].list[i].locked && Holds(s'[n], s[n].list[i].pBt)
    ensures s[n].list[i].wantToLock == 1 ==> Free(s', s[n].list[i].pBt)
  {
    var c, c', m := s[n], s'[n], s[n].list[i].pBt;
    assert ConnOk(c);
    assert PlaceAt(c, i) && HoldsAt(c, i, m);
    assert ConnStep(s, c, c') && StepOf(s, s', n);
    StepKeeps(s, s');
    if c.list[i].wantToLock >= 2 {
      assert HoldsAt(c', i, m);
    } else {
      forall d | 0 <= d < |s'|
        ensures !Holds(s'[d], m)
      {
        if d != n {
          assert Disjoint(s[n], s[d]);
        }
      }
    }
  }
}
