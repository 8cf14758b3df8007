/**
The free pages of auto-vacuum on the pages of the freelist: what a vacuum needs of its allocator is what the allocator
does on trunk and leaf pages.
*/
module VacuumFreelist {
  import AutoVacuum
  import Encoding
  import Freelist

  /** The list on the trunk pages holds the free set of the database, and the pointer map marks the same pages. */
  ghost predicate Represents(s: Freelist.BtShared, db: AutoVacuum.Db)
    reads s
  {
    && s.Valid() && s.autoVacuum && s.nPage == db.nPage && s.free == db.free
    && forall p :: p in s.ptr && s.ptr[p].FreePage? <==> p in db.ptrmap && db.ptrmap[p].eType.FreePage?
  }

  function ModeOf(eMode: AutoVacuum.AllocMode): Freelist.Mode {
    match eMode
    case Any => Freelist.Any
    case Exact => Freelist.Exact
    case AtMost => Freelist.AtMost
  }

  /** The number of free pages, from which the size of the file after a commit is computed, is in the header. */
  lemma CountInHeader(s: Freelist.BtShared, db: AutoVacuum.Db)
    requires Represents(s, db)
    ensures |s.page1| >= 40 && Encoding.Get4(s.page1, 36) == |db.free|
  {}

  /** Allocation by way of the list is the allocation that a vacuum relies on; pages in use are not written. */
  method AllocateBtreePage(s: Freelist.BtShared, nearby: nat, eMode: AutoVacuum.AllocMode, ghost db: AutoVacuum.Db)
    returns (rc: AutoVacuum.ResultCode, pgno: nat)
    requires Represents(s, db) && db.free != {} && (!eMode.Any? ==> nearby > 0) && (eMode.Exact? ==> nearby in db.free)
    modifies s
    ensures AutoVacuum.Allocation(db.free, s.free, nearby, eMode, rc, pgno)
    ensures rc.OK? ==> Represents(s, db.(free := s.free))
    ensures Freelist.OnlyFree(old(s.data), s.data, db.free)
  {
    hide Freelist.FileOk, Freelist.OnlyFree;
    var code;
    code, pgno := s.AllocateBtreePage(nearby, ModeOf(eMode));
    rc := if code.Ok? then AutoVacuum.OK else AutoVacuum.CORRUPT;
  }
}
