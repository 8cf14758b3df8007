/**
Pointer-map page arithmetic of an auto-vacuum database (ptrmapPageno and finalDbSize).

A pointer-map page holds usableSize/5 entries, one for each of the pages that follow it.
Pointer-map pages therefore sit on a regular grid, except that the one which would land
on the pending-byte page is moved up by one.
*/
module PtrMap {
  import opened Arith

  /** The two constants of a database file that page arithmetic depends on. */
  datatype Geometry = Geometry(usableSize: nat, pendingPage: nat)
  {
    // usableSize >= 480 is enforced when a database is opened; a database page holds at most
    // 65536 bytes. The pending-byte page is page PENDING_BYTE/pageSize + 1.
    predicate Valid() {
      480 <= usableSize <= 65536 && 3 <= pendingPage < 0x8000_0000
    }

    // As many entries of five bytes as fit on a page.
    function Entries(): (n: nat)
      ensures 5 * n <= usableSize < 5 * (n + 1)
    {
      usableSize / 5
    }

    // The page holding the pointer-map entry of page pgno; 0 when there is none.
    function PtrmapPageno(pgno: nat): nat
      requires Valid()
    {
      if pgno < 2 then 0
      else
        var nPagesPerMapPage := usableSize / 5 + 1;
        var iPtrMap: nat := (pgno - 2) / nPagesPerMapPage;
        MulLe(0, iPtrMap, nPagesPerMapPage);
        var ret := iPtrMap * nPagesPerMapPage + 2;
        if ret == pendingPage then ret + 1 else ret
    }

    predicate IsPtrmapPage(pgno: nat)
      requires Valid()
    {
      PtrmapPageno(pgno) == pgno
    }

    /** A page that can hold data: neither a pointer-map page nor the pending-byte page. */
    predicate Ordinary(pgno: nat)
      requires Valid()
    {
      pgno >= 1 && pgno != pendingPage && !IsPtrmapPage(pgno)
    }

    /** The number of ordinary pages among pages 1 to n. */
    function OrdinaryCount(n: nat): nat
      requires Valid()
    {
      if n == 0 then 0 else OrdinaryCount(n - 1) + (if Ordinary(n) then 1 else 0)
    }

    // The number of grid positions (2, 2+p, 2+2p, ... for p = Entries()+1) that are at most n.
    function GridCount(n: nat): int { (n - 2) / (Entries() + 1) + 1 }

    predicate OnGrid(n: nat) { n >= 2 && (n - 2) % (Entries() + 1) == 0 }
  }

  lemma GridStep(g: Geometry, n: nat)
    requires g.Valid() && n >= 1
    ensures g.GridCount(n) == g.GridCount(n - 1) + (if g.OnGrid(n) then 1 else 0)
  {
    var p := g.Entries() + 1;
    var q, r := (n - 2) / p, (n - 2) % p;
    if r == 0 {
      DivUnique(n - 3, p, q - 1, p - 1);
    } else {
      DivUnique(n - 3, p, q, r - 1);
    }
    if n == 1 {
      DivUnique(-1, p, -1, p - 1);
    }
  }

  // Quotient and remainder of a page's distance from page 2, as a product the solver can use.
  lemma GridPosition(g: Geometry, n: nat) returns (q: nat, r: nat)
    requires n >= 2
    ensures n == q * (g.Entries() + 1) + 2 + r && r < g.Entries() + 1
    ensures q == (n - 2) / (g.Entries() + 1)
    ensures g.OnGrid(n) <==> r == 0
  {
    var p := g.Entries() + 1;
    q, r := (n - 2) / p, (n - 2) % p;
  }

  // Neighbours of a grid position are not on the grid.
  lemma GridNeighbour(g: Geometry, n: nat)
    requires n >= 2 && g.Entries() >= 2 && g.OnGrid(n)
    ensures !g.OnGrid(n + 1)
    ensures (n + 1 - 2) / (g.Entries() + 1) == (n - 2) / (g.Entries() + 1)
  {
    var q, r := GridPosition(g, n);
    DivUnique(n - 1, g.Entries() + 1, q, 1);
  }

  /** Pointer-map pages are the grid positions, with the pending-byte page replaced by its successor. */
  lemma PtrmapOnGrid(g: Geometry, n: nat)
    requires g.Valid()
    ensures g.IsPtrmapPage(n) <==>
      n == 0 || (g.OnGrid(n) && n != g.pendingPage) || (g.OnGrid(g.pendingPage) && n == g.pendingPage + 1)
  {
    if n >= 2 {
      var q, r := GridPosition(g, n);
      if g.OnGrid(g.pendingPage) && n == g.pendingPage + 1 {
        GridNeighbour(g, g.pendingPage);
        var q', r' := GridPosition(g, g.pendingPage);
      } else if r == 1 && g.pendingPage == n - 1 {
        DivUnique(g.pendingPage - 2, g.Entries() + 1, q, 0);
      }
    }
  }

  // One page further: the closed form and the count of ordinary pages grow together.
  lemma ClosedStep(g: Geometry, n: nat)
    requires g.Valid() && n >= 2
    ensures NotOrdinaryCount(g, n) == NotOrdinaryCount(g, n - 1) + (if g.Ordinary(n) then 0 else 1)
  {
    GridStep(g, n);
    PtrmapOnGrid(g, n);
    if g.OnGrid(n - 1) {
      GridNeighbour(g, n - 1);
    }
  }

  // The number of pointer-map and pending-byte pages up to page n, in closed form.
  function NotOrdinaryCount(g: Geometry, n: nat): int {
    g.GridCount(n) + (if n >= g.pendingPage && !(n == g.pendingPage && g.OnGrid(n)) then 1 else 0)
  }

  /** Closed form of the number of ordinary pages. */
  lemma {:induction false} OrdinaryCountClosed(g: Geometry, n: nat)
    requires g.Valid() && n >= 1
    ensures g.OrdinaryCount(n) == n - NotOrdinaryCount(g, n)
  {
    if n == 1 {
      assert g.OrdinaryCount(1) == g.OrdinaryCount(0) + 1;
      DivUnique(-1, g.Entries() + 1, -1, g.Entries());
    } else {
      OrdinaryCountClosed(g, n - 1);
      ClosedStep(g, n);
    }
  }

  lemma {:induction false} OrdinaryCountMonotone(g: Geometry, m: nat, n: nat)
    requires g.Valid() && m <= n
    ensures g.OrdinaryCount(m) <= g.OrdinaryCount(n) <= g.OrdinaryCount(m) + (n - m)
    ensures m < n && g.Ordinary(n) ==> g.OrdinaryCount(m) < g.OrdinaryCount(n)
    decreases n
  {
    if m < n {
      OrdinaryCountMonotone(g, m, n - 1);
    }
  }

  /** An ordinary page is determined by how many ordinary pages there are up to it. */
  lemma OrdinaryPageUnique(g: Geometry, m: nat, n: nat)
    requires g.Valid() && g.Ordinary(m) && g.Ordinary(n) && g.OrdinaryCount(m) == g.OrdinaryCount(n)
    ensures m == n
  {
    if m < n {
      OrdinaryCountMonotone(g, m, n);
    } else if n < m {
      OrdinaryCountMonotone(g, n, m);
    }
  }

  // The number nPtrmap of pointer-map pages given up, as computed in unsigned 32-bit arithmetic.
  function PtrmapPagesFreed(g: Geometry, nOrig: nat, nFree: nat): nat
    requires g.Valid()
  {
    ((nFree - nOrig + g.PtrmapPageno(nOrig) + g.Entries()) % 0x1_0000_0000) / g.Entries()
  }

  // The page number before the last pointer-map and pending-byte pages are skipped.
  function FirstGuess(g: Geometry, nOrig: nat, nFree: nat): int
    requires g.Valid()
  {
    var nFin := nOrig - nFree - PtrmapPagesFreed(g, nOrig, nFree);
    if nOrig > g.pendingPage && nFin < g.pendingPage then nFin - 1 else nFin
  }

  // A page that lies i pages above grid position number j.
  lemma CountAt(g: Geometry, n: nat, j: int, i: nat)
    requires g.Valid() && n >= 1 && n == j * (g.Entries() + 1) + 2 + i && i <= g.Entries()
    ensures g.OrdinaryCount(n) ==
      n - (j + 1) - (if n >= g.pendingPage && !(n == g.pendingPage && i == 0) then 1 else 0)
  {
    DivUnique(n - 2, g.Entries() + 1, j, i);
    OrdinaryCountClosed(g, n);
  }

  // Position of an ordinary page above its grid position: m grid steps and x pages more.
  lemma Decompose(g: Geometry, nOrig: nat) returns (m: nat, x: nat)
    requires g.Valid() && g.Ordinary(nOrig) && nOrig >= 2
    ensures nOrig == m * (g.Entries() + 1) + 2 + x && 1 <= x <= g.Entries()
    ensures g.pendingPage != m * (g.Entries() + 1) + 2 ==> nOrig - g.PtrmapPageno(nOrig) == x
    ensures g.pendingPage == m * (g.Entries() + 1) + 2 ==> x >= 2 && nOrig - g.PtrmapPageno(nOrig) == x - 1
  {
    m, x := GridPosition(g, nOrig);
    PtrmapOnGrid(g, nOrig);
    if g.pendingPage == m * (g.Entries() + 1) + 2 {
      DivUnique(g.pendingPage - 2, g.Entries() + 1, m, 0);
    }
  }

  // When fewer pages are free than follow the last pointer-map page, no pointer-map page goes.
  lemma GuessWithinLastGroup(g: Geometry, nOrig: nat, nFree: nat)
    requires g.Valid() && g.Ordinary(nOrig) && 2 <= nOrig < 0x8000_0000
    requires nFree < nOrig - g.PtrmapPageno(nOrig)
    ensures FirstGuess(g, nOrig, nFree) >= 1
    ensures g.OrdinaryCount(FirstGuess(g, nOrig, nFree)) == g.OrdinaryCount(nOrig) - nFree
  {
    var m, x := Decompose(g, nOrig);
    NoPtrmapFreed(g, nOrig, nFree);
    CountAt(g, nOrig, m, x);
    var f := FirstGuess(g, nOrig, nFree);
    CountAt(g, f, m, f - (m * (g.Entries() + 1) + 2));
  }

  lemma NoPtrmapFreed(g: Geometry, nOrig: nat, nFree: nat)
    requires g.Valid() && 2 <= nOrig < 0x8000_0000
    requires nFree < nOrig - g.PtrmapPageno(nOrig) <= g.Entries()
    ensures PtrmapPagesFreed(g, nOrig, nFree) == 0
  {
    var z := nFree - nOrig + g.PtrmapPageno(nOrig) + g.Entries();
    assert 0 <= z < g.Entries() && z % 0x1_0000_0000 == z;
    DivUnique(z, g.Entries(), 0, z);
  }

  lemma MulSucc(q: int, E: int)
    ensures (q + 1) * E == q * E + E && q * (E + 1) == q * E + q
  {}

  // Otherwise nFree reaches below the last pointer-map page: q whole groups and y pages more go.
  lemma GuessBelowLastGroup(g: Geometry, nOrig: nat, nFree: nat)
    requires g.Valid() && g.Ordinary(nOrig) && 2 <= nOrig < 0x8000_0000
    requires nOrig - g.PtrmapPageno(nOrig) <= nFree < g.OrdinaryCount(nOrig)
    ensures FirstGuess(g, nOrig, nFree) >= 1
    ensures g.OrdinaryCount(FirstGuess(g, nOrig, nFree)) == g.OrdinaryCount(nOrig) - nFree
  {
    var m, x := Decompose(g, nOrig);
    var d := nOrig - g.PtrmapPageno(nOrig);
    OrdinaryCountMonotone(g, 0, nOrig);
    var q, y := FreedGroups(g, nOrig, nFree, d);
    CountAt(g, nOrig, m, x);
    var f := FirstGuess(g, nOrig, nFree);
    var j, i := Landing(g.Entries(), g.pendingPage, nOrig, nFree, m, x, d, q, y, g.OrdinaryCount(nOrig), f);
    CountAt(g, f, j, i);
  }

  // Where the first guess f lands on the grid: i pages above position j.
  lemma Landing(E: nat, pending: nat, nOrig: nat, nFree: nat, m: nat, x: nat, d: nat, q: nat, y: nat,
                count: nat, f: int) returns (j: int, i: nat)
    requires E >= 96 && 1 <= x <= E && y < E
    requires nOrig == m * (E + 1) + 2 + x && nOrig != pending
    requires d == if pending == m * (E + 1) + 2 then x - 1 else x
    requires nFree + q == d + q * (E + 1) + y
    requires nFree < count && count == nOrig - (m + 1) - (if nOrig >= pending then 1 else 0)
    requires f == if nOrig > pending && nOrig - nFree - (q + 1) < pending then nOrig - nFree - (q + 1) - 1
                  else nOrig - nFree - (q + 1)
    ensures f >= 1 && f == j * (E + 1) + 2 + i && i <= E
    ensures count - nFree == f - (j + 1) - (if f >= pending && !(f == pending && i == 0) then 1 else 0)
  {
    GroupsFit(m, q, y, E, nOrig - nFree - (q + 1));
    Distribute(m, q, E + 1);
    Distribute(m - q, 1, E + 1);
    if d == x - 1 && q == 0 && y == 0 {
      j, i := m, 0;
    } else {
      j, i := m - q - 1, f - 2 - (m - q - 1) * (E + 1);
      if m == q {
        assert (m - q) * (E + 1) == 0;
      } else {
        MulAtLeast(m - q, E + 1);
      }
    }
  }

  lemma FreedGroups(g: Geometry, nOrig: nat, nFree: nat, d: nat) returns (q: nat, y: nat)
    requires g.Valid() && nOrig < 0x8000_0000
    requires d == nOrig - g.PtrmapPageno(nOrig) && d <= nFree <= nOrig
    ensures y < g.Entries() && nFree + q == d + q * (g.Entries() + 1) + y
    ensures PtrmapPagesFreed(g, nOrig, nFree) == q + 1
  {
    q, y := QuotientRemainder(nFree - d, g.Entries());
    MulSucc(q, g.Entries());
    DivUnique(nFree - d + g.Entries(), g.Entries(), q + 1, y);
    NoWrapAround(g, nOrig, nFree, d);
  }

  lemma QuotientRemainder(n: nat, d: nat) returns (q: nat, r: nat)
    requires d > 0
    ensures n == q * d + r && r < d
  {
    q, r := n / d, n % d;
  }

  lemma NoWrapAround(g: Geometry, nOrig: nat, nFree: nat, d: nat)
    requires g.Valid() && nOrig < 0x8000_0000
    requires d == nOrig - g.PtrmapPageno(nOrig) && d <= nFree <= nOrig
    ensures PtrmapPagesFreed(g, nOrig, nFree) == (nFree - d + g.Entries()) / g.Entries()
  {
    var z := nFree - nOrig + g.PtrmapPageno(nOrig) + g.Entries();
    assert 0 <= z < 0x1_0000_0000;
    assert z % 0x1_0000_0000 == z;
  }

  // Enough ordinary pages remain, so no more groups can go than there are.
  lemma GroupsFit(m: nat, q: nat, y: nat, E: nat, r: int)
    requires E >= 96
    requires r <= m * (E + 1) + 2 - q * (E + 1) - y
    requires r >= m - q + 1
    ensures q <= m
  {
    Distribute(q, m, E + 1);
    if q > m {
      MulAtLeast(q - m, E);
    }
  }

  lemma FirstGuessCount(g: Geometry, nOrig: nat, nFree: nat)
    requires g.Valid() && g.Ordinary(nOrig) && nOrig < 0x8000_0000
    requires nFree < g.OrdinaryCount(nOrig)
    ensures FirstGuess(g, nOrig, nFree) >= 1
    ensures g.OrdinaryCount(FirstGuess(g, nOrig, nFree)) == g.OrdinaryCount(nOrig) - nFree
  {
    if nOrig == 1 {
      assert g.OrdinaryCount(1) == g.OrdinaryCount(0) + 1;
      DivUnique(g.Entries() - 1, g.Entries(), 0, g.Entries() - 1);
    } else if nFree < nOrig - g.PtrmapPageno(nOrig) {
      GuessWithinLastGroup(g, nOrig, nFree);
    } else {
      GuessBelowLastGroup(g, nOrig, nFree);
    }
  }

  /**
  The size in pages after an auto-vacuum of a database of nOrig pages, nFree of them free.
  The result is the page up to which there are exactly as many ordinary pages as are in use.
  */
  method FinalDbSize(g: Geometry, nOrig: nat, nFree: nat) returns (nFin: nat)
    requires g.Valid() && g.Ordinary(nOrig) && nOrig < 0x8000_0000
    requires nFree < g.OrdinaryCount(nOrig)
    ensures g.Ordinary(nFin) && nFin <= nOrig
    ensures g.OrdinaryCount(nFin) == g.OrdinaryCount(nOrig) - nFree
  {
    var nEntry := g.usableSize / 5;
    var nPtrmap := ((nFree - nOrig + g.PtrmapPageno(nOrig) + nEntry) % 0x1_0000_0000) / nEntry;
    FirstGuessCount(g, nOrig, nFree);
    var n := nOrig - nFree - nPtrmap;
    if nOrig > g.pendingPage && n < g.pendingPage {
      n := n - 1;
    }
    nFin := n;
    while g.IsPtrmapPage(nFin) || nFin == g.pendingPage
      invariant 1 <= nFin <= nOrig
      invariant g.OrdinaryCount(nFin) == g.OrdinaryCount(nOrig) - nFree
      decreases nFin
    {
      assert g.OrdinaryCount(nFin) == g.OrdinaryCount(nFin - 1);
      nFin := nFin - 1;
    }
  }

  /** The largest page number. */
  const MAX_PAGE: nat := 0x7fff_fffe

  /** At most two pages in a row cannot hold data. */
  lemma OrdinarySoon(g: Geometry, n: nat)
    requires g.Valid() && n >= 2
    ensures g.Ordinary(n) || g.Ordinary(n + 1) || g.Ordinary(n + 2)
  {
    hide Geometry.OnGrid, Geometry.IsPtrmapPage;
    OrdinaryIf(g, n);
    OrdinaryIf(g, n + 1);
    OrdinaryIf(g, n + 2);
    if g.OnGrid(n) {
      GridFar(g, n, n + 1);
      GridFar(g, n, n + 2);
    } else if g.OnGrid(n + 1) {
      GridFar(g, n + 1, n + 2);
    }
    if n > 2 && n == g.pendingPage + 1 && g.OnGrid(n - 1) {
      GridFar(g, n - 1, n);
      GridFar(g, n - 1, n + 1);
    }
  }

  lemma OrdinaryIf(g: Geometry, n: nat)
    requires g.Valid() && n >= 2
    ensures g.Ordinary(n)
      <==> n != g.pendingPage && !g.OnGrid(n) && !(g.OnGrid(g.pendingPage) && n == g.pendingPage + 1)
  {
    PtrmapOnGrid(g, n);
  }

  // The loops that step over pointer-map pages and the pending-byte page.
  method NextOrdinary(g: Geometry, n: nat) returns (m: nat)
    requires g.Valid() && n >= 2
    ensures m >= n && g.Ordinary(m)
  {
    hide Geometry.IsPtrmapPage;
    OrdinarySoon(g, n);
    ghost var last := if g.Ordinary(n) then n else if g.Ordinary(n + 1) then n + 1 else n + 2;
    m := n;
    while g.IsPtrmapPage(m) || m == g.pendingPage
      invariant n <= m <= last && g.Ordinary(last)
      decreases last - m
    {
      m := m + 1;
    }
  }

  lemma GridFar(g: Geometry, n: nat, m: nat)
    requires g.Valid() && 2 <= n < m <= n + 90 && g.OnGrid(n)
    ensures !g.OnGrid(m)
  {
    var q, r := GridPosition(g, n);
    DivUnique(m - 2, g.Entries() + 1, q, m - n);
  }
}
