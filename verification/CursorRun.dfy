/**
Whole runs of one cursor over a table or an index: searches, insertions, deletions and steps both ways, positions that
are saved and restored, and changes that others make meanwhile, as operations on an ordered map.
*/
module CursorRun {
  import opened Tree
  import opened Path
  import opened Cursor
  import opened Redistribution
  import opened Balance
  import opened Update

  type Table = map<Key, seq<bv8>>

  /** With Elsewhere another cursor leaves a tree with the entries es. */
  datatype Request =
    | Find(key: Key)
    | Put(key: Key, payload: seq<bv8>)
    | Remove
    | ToFirst
    | ToLast
    | ToNext
    | ToPrevious
    | AskKey
    | Save
    | Restore
    | Clear
    | Elsewhere(root: Node, h: nat, es: seq<Cell>)

  datatype Answer = Compared(res: int) | Done | Reached(none: bool) | KeyIs(key: Key) | Moved(differentRow: bool)

  /** Where the cursor stands: at a key, at the key of a saved position, or nowhere in particular. */
  datatype Place = Nowhere | At(key: Key) | Saved(key: Key)

  // ----- The ordered map -----

  ghost predicate LeastAbove(m: Table, k: Key, x: Key) { x in m && x > k && forall y :: y in m && y > k ==> y >= x }

  ghost predicate GreatestBelow(m: Table, k: Key, x: Key) { x in m && x < k && forall y :: y in m && y < k ==> y <= x }

  ghost predicate Least(m: Table, x: Key) { x in m && forall y :: y in m ==> y >= x }

  ghost predicate Greatest(m: Table, x: Key) { x in m && forall y :: y in m ==> y <= x }

  /** An operation on an ordered map with a place in it. A search that fails stops at either neighbour. */
  ghost predicate Follows(m: Table, at: Place, req: Request, ans: Answer, m': Table, at': Place) {
    match req
    case Find(k) =>
      && m' == m && ans.Compared? && (ans.res == 0 <==> k in m)
      && (ans.res == 0 ==> at' == At(k))
      && (ans.res > 0 ==> at'.At? && LeastAbove(m, k, at'.key))
      && (ans.res < 0 ==> if m == map[] then at' == Nowhere else at'.At? && GreatestBelow(m, k, at'.key))
    case Put(k, payload) => m' == m[k := payload] && ans == Done && (at' == Nowhere || at' == At(k))
    case Remove => at.At? && at.key in m && m' == m - {at.key} && ans == Done && at' == Nowhere
    case ToFirst =>
      m' == m && ans == Reached(m == map[]) && if m == map[] then at' == Nowhere else at'.At? && Least(m, at'.key)
    case ToLast =>
      m' == m && ans == Reached(m == map[]) && if m == map[] then at' == Nowhere else at'.At? && Greatest(m, at'.key)
    case ToNext =>
      && !at.Nowhere? && m' == m && ans.Reached? && (ans.none <==> forall y :: y in m ==> y <= at.key)
      && if ans.none then at' == Nowhere else at'.At? && LeastAbove(m, at.key, at'.key)
    case ToPrevious =>
      && !at.Nowhere? && m' == m && ans.Reached? && (ans.none <==> forall y :: y in m ==> y >= at.key)
      && if ans.none then at' == Nowhere else at'.At? && GreatestBelow(m, at.key, at'.key)
    case AskKey => at.At? && m' == m && at' == at && ans == KeyIs(at.key)
    case Save => at.At? && m' == m && at' == Saved(at.key) && ans == Done
    case Restore =>
      && at.Saved? && m' == m && ans == Moved(at.key !in m)
      && at' == if at.key in m then At(at.key) else if m == map[] then Nowhere else at
    case Clear => m' == m && at' == Nowhere && ans == Done
    case Elsewhere(_, _, es) => !at.At? && m' == ToMap(es) && at' == at && ans == Done
  }

  // ----- Keys of the map and numbers of entries -----

  lemma InMap(es: seq<Cell>, k: Key)
    requires Ascending(es)
    ensures k in ToMap(es) <==> exists i :: 0 <= i < |es| && es[i].key == k
  {
    hide ToMap;
    var i := Lookup(es, k);
    forall j | 0 <= j < |es| && es[j].key == k
      ensures k in ToMap(es)
    {
      LookupEntry(es, j);
    }
  }

  lemma EntryInMap(es: seq<Cell>, n: nat)
    requires Ascending(es) && n < |es|
    ensures es[n].key in ToMap(es)
  {
    LookupEntry(es, n);
  }

  lemma EmptyMap(es: seq<Cell>)
    ensures ToMap(es) == map[] <==> es == []
  {
    if es != [] {
      assert es[|es| - 1].key in ToMap(es);
    }
  }

  // The entry with number n is the first one above a key, or the last one below it.
  lemma NumberAbove(es: seq<Cell>, k: Key, n: nat)
    requires Ascending(es) && n < |es| && es[n].key > k && AllAtMost(es[..n], k)
    ensures LeastAbove(ToMap(es), k, es[n].key)
  {
    hide ToMap;
    EntryInMap(es, n);
    PrefixAtMost(es, k, n);
    forall y | y in ToMap(es) && y > k
      ensures y >= es[n].key
    {
      var i := Lookup(es, y);
    }
  }

  lemma PrefixAtMost(es: seq<Cell>, k: Key, n: nat)
    requires n <= |es| && AllAtMost(es[..n], k)
    ensures forall i :: 0 <= i < n ==> es[i].key <= k
  {
    forall i | 0 <= i < n
      ensures es[i].key <= k
    {
      assert es[..n][i] == es[i];
    }
  }

  lemma NumberBelow(es: seq<Cell>, k: Key, n: nat)
    requires Ascending(es) && n < |es| && es[n].key < k && forall i :: n < i < |es| ==> es[i].key >= k
    ensures GreatestBelow(ToMap(es), k, es[n].key)
  {
    hide ToMap;
    EntryInMap(es, n);
    forall y | y in ToMap(es) && y < k
      ensures y <= es[n].key
    {
      var i := Lookup(es, y);
    }
  }

  lemma FirstAndLast(es: seq<Cell>)
    requires Ascending(es) && es != []
    ensures Least(ToMap(es), es[0].key) && Greatest(ToMap(es), es[|es| - 1].key)
  {
    hide ToMap;
    EntryInMap(es, 0);
    EntryInMap(es, |es| - 1);
    forall y | y in ToMap(es)
      ensures es[0].key <= y <= es[|es| - 1].key
    {
      var i := Lookup(es, y);
    }
  }

  lemma NoneAbove(es: seq<Cell>, k: Key)
    requires Ascending(es)
    ensures AllAtMost(es, k) <==> forall y :: y in ToMap(es) ==> y <= k
  {
    if AllAtMost(es, k) {
      forall y | y in ToMap(es)
        ensures y <= k
      {
        var i := Lookup(es, y);
      }
    } else {
      var i :| 0 <= i < |es| && es[i].key > k;
      EntryInMap(es, i);
    }
  }

  lemma NoneBelow(es: seq<Cell>, k: Key)
    requires Ascending(es)
    ensures (forall i :: 0 <= i < |es| ==> es[i].key >= k) <==> forall y :: y in ToMap(es) ==> y >= k
  {
    if forall i :: 0 <= i < |es| ==> es[i].key >= k {
      forall y | y in ToMap(es)
        ensures y >= k
      {
        var i := Lookup(es, y);
      }
    } else {
      var i :| 0 <= i < |es| && es[i].key < k;
      EntryInMap(es, i);
    }
  }

  // ----- What the methods of the cursor do, in terms of the map -----

  /** The place of a cursor that is at an entry. */
  ghost function PlaceOf(eState: State, pages: seq<Node>, idx: seq<nat>): Place {
    if eState == VALID && pages != [] && idx != []
        && Last(idx) < Last(pages).NCell() then At(Last(pages).CellAt(Last(idx)).key)
    else Nowhere
  }

  lemma FindFollows(intKey: bool, root: Node, h: nat, eState: State, pages: seq<Node>, idx: seq<nat>, key: Key,
                    res: int,
                    at: Place)
    requires Sought(intKey, root, h, eState, pages, idx, key, res) && Ordered(intKey, root)
      && (eState == VALID || eState == INVALID)
    ensures var m := ToMap(Entries(intKey, root));
      Follows(m, at, Find(key), Compared(res), m, PlaceOf(eState, pages, idx))
  {
    hide ToMap;
    var es := Entries(intKey, root);
    EntriesAscend(intKey, root);
    EmptyMap(es);
    InMap(es, key);
    if eState == VALID {
      EntryAtPosition(intKey, root, h, pages, idx);
      var n := Position(intKey, root, h, pages, idx);
      hide Position, Entries;
      if res == 0 {
        EntryInMap(es, n);
      } else if res > 0 {
        NumberAbove(es, key, n);
      } else {
        NumberBelow(es, key, n);
      }
    }
  }

  // An answer given in place is wrong when the entry does not agree.
  lemma FindFails(intKey: bool, root: Node, h: nat, pages: seq<Node>, idx: seq<nat>, key: Key, res: int, at: Place)
    requires AtEntry(intKey, root, h, pages, idx) && res <= 0 && Ordered(intKey, root)
    requires var cur := Last(pages).CellAt(Last(idx)).key; if res == 0 then cur != key else cur >= key
    ensures var m := ToMap(Entries(intKey, root));
      !Follows(m, at, Find(key), Compared(res), m, PlaceOf(VALID, pages, idx))
  {
    EntryIsPlace(intKey, root, h, pages, idx);
    hide Entries, ToMap;
  }

  lemma FirstFollows(intKey: bool, root: Node, h: nat, eState: State, pages: seq<Node>, idx: seq<nat>, res: bool,
                     at: Place)
    requires Ordered(intKey, root) && eState == (if res then INVALID else VALID)
      && res == (|Entries(intKey, root)| == 0)
    requires !res ==> ArrivedAt(intKey, root, h, pages, idx, false, 0)
    ensures var m := ToMap(Entries(intKey, root));
      Follows(m, at, ToFirst, Reached(res), m, PlaceOf(eState, pages, idx))
  {
    hide ToMap;
    EntriesAscend(intKey, root);
    EmptyMap(Entries(intKey, root));
    if !res {
      EntryAtPosition(intKey, root, h, pages, idx);
      FirstAndLast(Entries(intKey, root));
    }
  }

  lemma LastFollows(intKey: bool, root: Node, h: nat, eState: State, pages: seq<Node>, idx: seq<nat>, res: bool,
                    at: Place)
    requires Ordered(intKey, root) && eState == (if res then INVALID else VALID)
      && res == (|Entries(intKey, root)| == 0)
    requires !res ==> ArrivedAt(intKey, root, h, pages, idx, false, |Entries(intKey, root)| - 1)
    ensures var m := ToMap(Entries(intKey, root));
      Follows(m, at, ToLast, Reached(res), m, PlaceOf(eState, pages, idx))
  {
    hide ToMap;
    EntriesAscend(intKey, root);
    EmptyMap(Entries(intKey, root));
    if !res {
      EntryAtPosition(intKey, root, h, pages, idx);
      FirstAndLast(Entries(intKey, root));
    }
  }

  lemma NextFollows(intKey: bool, root: Node, h: nat, eState: State, pages: seq<Node>, idx: seq<nat>, res: bool,
                    at: Place)
    requires Ordered(intKey, root) && eState == (if res then INVALID else VALID) && !at.Nowhere?
    requires FirstAbove(intKey, root, h, pages, idx, res, at.key)
    ensures var m := ToMap(Entries(intKey, root));
      Follows(m, at, ToNext, Reached(res), m, PlaceOf(eState, pages, idx))
  {
    hide ToMap;
    var es := Entries(intKey, root);
    EntriesAscend(intKey, root);
    NoneAbove(es, at.key);
    if !res {
      EntryAtPosition(intKey, root, h, pages, idx);
      NumberAbove(es, at.key, Position(intKey, root, h, pages, idx));
    }
  }

  lemma PreviousFollows(intKey: bool, root: Node, h: nat, eState: State, pages: seq<Node>, idx: seq<nat>, res: bool,
                        at: Place)
    requires Ordered(intKey, root) && eState == (if res then INVALID else VALID) && !at.Nowhere?
    requires LastBelow(intKey, root, h, pages, idx, res, at.key)
    ensures var m := ToMap(Entries(intKey, root));
      Follows(m, at, ToPrevious, Reached(res), m, PlaceOf(eState, pages, idx))
  {
    hide ToMap;
    var es := Entries(intKey, root);
    EntriesAscend(intKey, root);
    NoneBelow(es, at.key);
    if !res {
      EntryAtPosition(intKey, root, h, pages, idx);
      NumberBelow(es, at.key, Position(intKey, root, h, pages, idx));
    }
  }

  lemma EntryIsPlace(intKey: bool, root: Node, h: nat, pages: seq<Node>, idx: seq<nat>)
    requires AtEntry(intKey, root, h, pages, idx) && Ordered(intKey, root)
    ensures PlaceOf(VALID, pages, idx) == At(Last(pages).CellAt(Last(idx)).key)
    ensures Last(pages).CellAt(Last(idx)).key in ToMap(Entries(intKey, root))
  {
    EntryAtPosition(intKey, root, h, pages, idx);
    EntriesAscend(intKey, root);
    EntryInMap(Entries(intKey, root), Position(intKey, root, h, pages, idx));
  }

  // ----- Runs -----

  // What the cursor remembers when it has let go of its entry: the pages are as it left them, or gone.
  ghost predicate Cleared(c: BtCursor)
    reads c
  {
    && (c.validNKey ==> c.intKey) && (c.eState == REQUIRESEEK ==> c.apPage == [])
    && (c.validNKey && c.eState == INVALID && c.apPage != [] ==> AtEntry(true, c.root, c.h, c.apPage, c.aiIdx))
  }

  /** The cursor of a run: it stands at the place, if there is one, and the tree holds the map. */
  ghost predicate Holds(c: BtCursor, fmt: Format, m: Table, at: Place)
    reads c
  {
    && fmt.Valid() && fmt.intKey == c.intKey && c.Usable() && Finished(fmt, c.root, c.h)
    && ToMap(Entries(c.intKey, c.root)) == m && Cleared(c)
    && (at.At? ==> c.Valid() && PlaceOf(c.eState, c.apPage, c.aiIdx) == at)
    && (at.Saved? ==> c.Valid() && c.nKey == at.key) && (at.Saved? <==> IsSaved(c))
  }

  // The position is kept by its key.
  predicate IsSaved(c: BtCursor)
    reads c
  {
    c.eState == REQUIRESEEK || c.eState == SKIPNEXT
  }

  /** The cursor remembers a key that a search or an insertion would use. */
  predicate Remembers(c: BtCursor)
    reads c
  {
    c.validNKey && (c.eState == VALID || (c.eState == INVALID && c.apPage != []))
  }

  /** A tree that another cursor may leave. */
  ghost predicate TreeOf(fmt: Format, root: Node, h: nat, es: seq<Cell>) {
    Finished(fmt, root, h) && Wf(root, h) && Ordered(fmt.intKey, root) && Entries(fmt.intKey, root) == es
  }

  /** The result of the last search, as long as the cursor is where that has left it. */
  datatype Hint = NoHint | Unfound(key: Key, res: int)

  ghost predicate HintOk(c: BtCursor, hint: Hint)
    reads c
  {
    hint.Unfound? ==>
      && hint.res != 0 && c.Valid() && (hint.res > 0 ==> !c.atLast)
      && InsertionPoint(c.intKey, c.root, c.h, c.eState, c.apPage, c.aiIdx, hint.key, hint.res)
  }

  function SeekResult(hint: Hint, key: Key): int { if hint.Unfound? && hint.key == key then hint.res else 0 }

  /**
  A request that makes sense: only from an entry can one read a key, delete, or save the position; steps go from an
  entry or a saved position; another cursor writes only after this one has been saved or has let go of its entry.
  Insertion asserts that a key just below the new one is not remembered without an entry.
  */
  predicate Legal(c: BtCursor, atEntry: bool, req: Request)
    reads c
  {
    match req
    case Put(k, _) => TakesShortcut(c.intKey, c.validNKey, c.infoKey, k) ==> Remembers(c)
    case Remove => atEntry
    case ToNext => atEntry || IsSaved(c)
    case ToPrevious => atEntry || IsSaved(c)
    case AskKey => atEntry && c.intKey
    case Save => atEntry
    case Restore => IsSaved(c)
    case Elsewhere(_, _, _) => c.eState == INVALID || c.eState == REQUIRESEEK
    case _ => true
  }

  /** Whether the code does a request rightly, which can be told before. */
  predicate Right(c: BtCursor, fmt: Format, ghost m: Table, ghost at: Place, hint: Hint, req: Request, hints: bool)
    requires Holds(c, fmt, m, at) && HintOk(c, hint) && Legal(c, at.At?, req)
    reads c
  {
    match req
    case Find(k) => c.SeekRight(k)
    case Put(k, payload) => InsertRight(c, fmt, Cell(k, payload), SeekResult(hint, k), hints)
    case _ => true
  }

  lemma HoldsUsable(c: BtCursor, fmt: Format, m: Table, at: Place)
    requires Holds(c, fmt, m, at)
    ensures c.Usable() && Ordered(c.intKey, c.root)
      && (at.At? ==> c.Valid() && c.eState == VALID && c.CurrentKey() == at.key)
    ensures at.At? ==> AtEntry(c.intKey, c.root, c.h, c.apPage, c.aiIdx) && PlaceOf(c.eState, c.apPage, c.aiIdx) == at
    ensures at.Saved? ==> c.Valid() && c.eState != INVALID && c.eState != VALID && c.CurrentKey() == at.key
  {}

  method DoFind(c: BtCursor, fmt: Format, k: Key, ghost m: Table, ghost at: Place) returns (res: int)
    requires Holds(c, fmt, m, at)
    modifies c
    ensures var at' := PlaceOf(c.eState, c.apPage, c.aiIdx);
      && Holds(c, fmt, m, at') && (at'.At? <==> c.eState == VALID)
      && (old(c.SeekRight(k)) <==> Follows(m, at, Find(k), Compared(res), m, at'))
    ensures old(c.SeekRight(k)) && res != 0 ==> HintOk(c, Unfound(k, res))
    ensures Remembers(c) ==> old(Remembers(c))
  {
    hide Finished, Sought, Entries, Wf, Ordered, WellPlaced, Position, FlagsOk, ToMap, Follows;
    ghost var right := c.SeekRight(k);
    res := c.MovetoUnpacked(k, false);
    if right {
      FindFollows(c.intKey, c.root, c.h, c.eState, c.apPage, c.aiIdx, k, res, at);
      SoughtIsPoint(c.intKey, c.root, c.h, c.eState, c.apPage, c.aiIdx, k, res);
    } else {
      FindFails(c.intKey, c.root, c.h, c.apPage, c.aiIdx, k, res, at);
    }
  }

  method DoFirst(c: BtCursor, fmt: Format, ghost m: Table, ghost at: Place) returns (res: bool)
    requires Holds(c, fmt, m, at)
    modifies c
    ensures var at' := PlaceOf(c.eState, c.apPage, c.aiIdx);
      Holds(c, fmt, m, at') && Follows(m, at, ToFirst, Reached(res), m, at') && (at'.At? <==> c.eState == VALID)
    ensures Remembers(c) ==> old(Remembers(c))
  {
    hide Finished, Sought, Entries, Wf, Ordered, Position, FlagsOk, ToMap, Follows;
    HoldsUsable(c, fmt, m, at);
    res := c.First();
    FirstFollows(c.intKey, c.root, c.h, c.eState, c.apPage, c.aiIdx, res, at);
  }

  method DoLast(c: BtCursor, fmt: Format, ghost m: Table, ghost at: Place) returns (res: bool)
    requires Holds(c, fmt, m, at)
    modifies c
    ensures var at' := PlaceOf(c.eState, c.apPage, c.aiIdx);
      Holds(c, fmt, m, at') && Follows(m, at, ToLast, Reached(res), m, at') && (at'.At? <==> c.eState == VALID)
    ensures Remembers(c) ==> old(Remembers(c))
  {
    hide Finished, Sought, Entries, Wf, Ordered, Position, FlagsOk, ToMap, Follows;
    HoldsUsable(c, fmt, m, at);
    res := c.GoToLast();
    LastFollows(c.intKey, c.root, c.h, c.eState, c.apPage, c.aiIdx, res, at);
  }

  method DoNext(c: BtCursor, fmt: Format, ghost m: Table, ghost at: Place) returns (res: bool)
    requires Holds(c, fmt, m, at) && !at.Nowhere?
    modifies c
    ensures var at' := PlaceOf(c.eState, c.apPage, c.aiIdx);
      Holds(c, fmt, m, at') && Follows(m, at, ToNext, Reached(res), m, at') && (at'.At? <==> c.eState == VALID)
    ensures Remembers(c) ==> old(Remembers(c))
  {
    hide Finished, Sought, Entries, Wf, Ordered, Position, FlagsOk, ToMap, Follows, FirstAbove, ArrivedAt;
    HoldsUsable(c, fmt, m, at);
    res := c.Next();
    NextFollows(c.intKey, c.root, c.h, c.eState, c.apPage, c.aiIdx, res, at);
  }

  method DoPrevious(c: BtCursor, fmt: Format, ghost m: Table, ghost at: Place) returns (res: bool)
    requires Holds(c, fmt, m, at) && !at.Nowhere?
    modifies c
    ensures var at' := PlaceOf(c.eState, c.apPage, c.aiIdx);
      Holds(c, fmt, m, at') && Follows(m, at, ToPrevious, Reached(res), m, at') && (at'.At? <==> c.eState == VALID)
    ensures Remembers(c) ==> old(Remembers(c))
  {
    hide Finished, Sought, Entries, Wf, Ordered, Position, FlagsOk, ToMap, Follows, LastBelow, WentBack;
    HoldsUsable(c, fmt, m, at);
    res := c.Previous();
    PreviousFollows(c.intKey, c.root, c.h, c.eState, c.apPage, c.aiIdx, res, at);
  }

  method DoSave(c: BtCursor, fmt: Format, ghost m: Table, ghost at: Place)
    requires Holds(c, fmt, m, at) && at.At?
    modifies c
    ensures Holds(c, fmt, m, Saved(at.key)) && Follows(m, at, Save, Done, m, Saved(at.key)) && !Remembers(c)
  {
    hide Finished, Sought, Entries, Wf, Ordered, Position, FlagsOk, ToMap;
    HoldsUsable(c, fmt, m, at);
    c.SaveCursorPosition();
  }

  method DoRestore(c: BtCursor, fmt: Format, ghost m: Table, ghost at: Place)
    returns (different: bool, ghost at': Place)
    requires Holds(c, fmt, m, at) && at.Saved?
    modifies c
    ensures Holds(c, fmt, m, at') && Follows(m, at, Restore, Moved(different), m, at') && !Remembers(c)
    ensures at'.At? <==> c.eState == VALID
  {
    hide Finished, Sought, Entries, Wf, Ordered, Position, FlagsOk, ToMap;
    HoldsUsable(c, fmt, m, at);
    different := c.CursorRestore();
    EmptyMap(Entries(c.intKey, c.root));
    if c.eState == VALID {
      EntryIsPlace(c.intKey, c.root, c.h, c.apPage, c.aiIdx);
      at' := At(at.key);
    } else if c.eState == SKIPNEXT {
      FindFollows(c.intKey, c.root, c.h, VALID, c.apPage, c.aiIdx, c.nKey, c.skipNext, at);
      at' := at;
    } else {
      at' := Nowhere;
    }
  }

  method DoClear(c: BtCursor, fmt: Format, ghost m: Table, ghost at: Place)
    requires Holds(c, fmt, m, at)
    modifies c
    ensures Holds(c, fmt, m, Nowhere) && Follows(m, at, Clear, Done, m, Nowhere) && c.eState == INVALID
    ensures Remembers(c) ==> old(Remembers(c))
  {
    hide Finished, Sought, Entries, Wf, Ordered, Position, FlagsOk, ToMap;
    HoldsUsable(c, fmt, m, at);
    c.ClearCursor();
  }

  method DoElsewhere(c: BtCursor, fmt: Format, root: Node, h: nat, es: seq<Cell>, ghost m: Table, ghost at: Place)
    requires Holds(c, fmt, m, at) && TreeOf(fmt, root, h, es) && (c.eState == INVALID || c.eState == REQUIRESEEK)
    modifies c
    ensures c.eState == old(c.eState) && !Remembers(c) && ToMap(Entries(c.intKey, c.root)) == ToMap(es)
    ensures Holds(c, fmt, ToMap(es), at) && Follows(m, at, Elsewhere(root, h, es), Done, ToMap(es), at)
  {
    hide Finished, Sought, Entries, Wf, Ordered, Position, FlagsOk, ToMap;
    HoldsUsable(c, fmt, m, at);
    c.TreeChanged(root, h);
  }

  method DoInsert(c: BtCursor, fmt: Format, k: Key, payload: seq<bv8>, seekResult: int, hints: bool, ghost m: Table,
                  ghost at: Place)
    requires Holds(c, fmt, m, at) && MayInsert(c, fmt, k, seekResult)
    modifies c
    ensures var m', at' := ToMap(Entries(c.intKey, c.root)), PlaceOf(c.eState, c.apPage, c.aiIdx);
      && (at'.At? <==> c.eState == VALID)
      && (old(InsertRight(c, fmt, Cell(k, payload), seekResult, hints)) ==> Holds(c, fmt, m', at'))
      && (old(InsertRight(c, fmt, Cell(k, payload), seekResult, hints)) <==>
           Ordered(c.intKey, c.root) && Follows(m, at, Put(k, payload), Done, m', at'))
    ensures Remembers(c) ==> old(Remembers(c))
  {
    hide Finished, Sought, Entries, Wf, Ordered, Position, FlagsOk, ToMap, Fitted, InsertRight, Result, FitsBehind,
      InsertionPoint;
    Insert(c, fmt, k, payload, false, seekResult, hints);
  }

  method DoDelete(c: BtCursor, fmt: Format, hints: bool, ghost m: Table, ghost at: Place)
    requires Holds(c, fmt, m, at) && at.At?
    modifies c
    ensures var m' := ToMap(Entries(c.intKey, c.root));
      Holds(c, fmt, m', Nowhere) && Follows(m, at, Remove, Done, m', Nowhere)
    ensures Remembers(c) ==> old(Remembers(c))
  {
    hide Finished, Sought, Entries, Wf, Ordered, Position, FlagsOk, ToMap;
    HoldsUsable(c, fmt, m, at);
    EntryIsPlace(c.intKey, c.root, c.h, c.apPage, c.aiIdx);
    Delete(c, fmt, hints);
  }

  method DoKeySize(c: BtCursor, fmt: Format, ghost m: Table, ghost at: Place) returns (k: Key)
    requires Holds(c, fmt, m, at) && at.At? && c.intKey
    modifies c
    ensures Holds(c, fmt, m, at) && Follows(m, at, AskKey, KeyIs(k), m, at)
  {
    hide Finished, Sought, Entries, Wf, Ordered, Position, FlagsOk, ToMap;
    HoldsUsable(c, fmt, m, at);
    k := c.KeySize();
  }

  /** The map and the place after some of the requests. */
  datatype Stage = Stage(m: Table, at: Place)

  ghost predicate StepFollows(before: Stage, req: Request, ans: Answer, after: Stage) {
    Follows(before.m, before.at, req, ans, after.m, after.at)
  }

  ghost predicate Answered(run: seq<Stage>, reqs: seq<Request>, answers: seq<Answer>) {
    && |answers| <= |reqs| && |run| == |answers| + 1
    && forall i {:trigger answers[i]} :: 0 <= i < |answers| ==> StepFollows(run[i], reqs[i], answers[i], run[i + 1])
  }

  /**
  One request. The code does it as the ordered map does, and leaves cursor and tree fit for the next one, exactly when
  Right held before.
  */
  method Serve(c: BtCursor, fmt: Format, req: Request, hints: bool, hint: Hint, ghost before: Stage)
    returns (ans: Answer, hint': Hint, ghost after: Stage)
    requires Holds(c, fmt, before.m, before.at) && HintOk(c, hint) && Legal(c, before.at.At?, req)
    requires req.Elsewhere? ==> TreeOf(fmt, req.root, req.h, req.es)
    modifies c
    ensures after.m == ToMap(Entries(c.intKey, c.root))
    ensures old(Right(c, fmt, before.m, before.at, hint, req, hints)) <==>
      Ordered(c.intKey, c.root) && StepFollows(before, req, ans, after)
    ensures old(Right(c, fmt, before.m, before.at, hint, req, hints)) ==>
      Holds(c, fmt, after.m, after.at) && HintOk(c, hint')
    ensures after.at.At? <==> c.eState == VALID && !req.Remove?
    ensures Remembers(c) ==> old(Remembers(c)) || req.AskKey?
  {
    hide Finished, Entries, Wf, Ordered, FlagsOk, ToMap, InsertRight, InsertionPoint, Follows, Fitted;
    HoldsUsable(c, fmt, before.m, before.at);
    hint' := NoHint;
    match req
    case Find(k) =>
      var res := DoFind(c, fmt, k, before.m, before.at);
      ans := Compared(res);
      after := Stage(before.m, PlaceOf(c.eState, c.apPage, c.aiIdx));
      HoldsUsable(c, fmt, after.m, after.at);
      if res != 0 {
        hint' := Unfound(k, res);
      }
    case Put(k, payload) =>
      DoInsert(c, fmt, k, payload, SeekResult(hint, k), hints, before.m, before.at);
      ans := Done;
      after := Stage(ToMap(Entries(c.intKey, c.root)), PlaceOf(c.eState, c.apPage, c.aiIdx));
    case Remove =>
      DoDelete(c, fmt, hints, before.m, before.at);
      ans := Done;
      after := Stage(ToMap(Entries(c.intKey, c.root)), Nowhere);
    case ToFirst =>
      var none := DoFirst(c, fmt, before.m, before.at);
      ans := Reached(none);
      after := Stage(before.m, PlaceOf(c.eState, c.apPage, c.aiIdx));
    case ToLast =>
      var none := DoLast(c, fmt, before.m, before.at);
      ans := Reached(none);
      after := Stage(before.m, PlaceOf(c.eState, c.apPage, c.aiIdx));
    case ToNext =>
      var none := DoNext(c, fmt, before.m, before.at);
      ans := Reached(none);
      after := Stage(before.m, PlaceOf(c.eState, c.apPage, c.aiIdx));
    case ToPrevious =>
      var none := DoPrevious(c, fmt, before.m, before.at);
      ans := Reached(none);
      after := Stage(before.m, PlaceOf(c.eState, c.apPage, c.aiIdx));
    case AskKey =>
      var k := DoKeySize(c, fmt, before.m, before.at);
      ans := KeyIs(k);
      after := before;
    case Save =>
      DoSave(c, fmt, before.m, before.at);
      ans := Done;
      after := Stage(before.m, Saved(before.at.key));
    case Restore =>
      var different;
      ghost var at';
      different, at' := DoRestore(c, fmt, before.m, before.at);
      ans := Moved(different);
      after := Stage(before.m, at');
    case Clear =>
      DoClear(c, fmt, before.m, before.at);
      ans := Done;
      after := Stage(before.m, Nowhere);
    case Elsewhere(root, h, es) =>
      DoElsewhere(c, fmt, root, h, es, before.m, before.at);
      ans := Done;
      after := Stage(ToMap(es), before.at);
  }

  /** Only a key that has been read can mislead the cursor. */
  lemma NothingRemembered(c: BtCursor, fmt: Format, m: Table, at: Place, hint: Hint, req: Request, hints: bool)
    requires Holds(c, fmt, m, at) && HintOk(c, hint) && !Remembers(c) && Legal(c, at.At?, req)
    ensures Right(c, fmt, m, at, hint, req, hints)
  {}

  /**
  A run of requests on one cursor, up to the first one that makes no sense there or that the code would not do rightly:
  so far every answer has been that of an ordered map, and the tree holds what the map holds.
  */
  method Run(c: BtCursor, fmt: Format, reqs: seq<Request>, hints: bool)
    returns (answers: seq<Answer>, ghost run: seq<Stage>, hint: Hint)
    requires fmt.Valid() && fmt.intKey == c.intKey && c.Valid() && Finished(fmt, c.root, c.h) && Cleared(c)
    requires forall q :: q in reqs && q.Elsewhere? ==> TreeOf(fmt, q.root, q.h, q.es)
    modifies c
    ensures Answered(run, reqs, answers) && run[0] == old(StartOf(c))
    ensures var last := run[|answers|];
      && last.m == ToMap(Entries(c.intKey, c.root)) && Holds(c, fmt, last.m, last.at) && HintOk(c, hint)
      && (|answers| < |reqs| ==>
           !Legal(c, last.at.At?, reqs[|answers|])
           || !Right(c, fmt, last.m, last.at, hint, reqs[|answers|], hints))
    ensures !old(Remembers(c)) && (forall i :: 0 <= i < |reqs| ==> !reqs[i].AskKey?) && |answers| < |reqs| ==>
      !Legal(c, run[|answers|].at.At?, reqs[|answers|])
  {
    hide Finished, Entries, Wf, Ordered, FlagsOk, ToMap, InsertRight, InsertionPoint, Follows, Holds, HintOk, Legal,
      StepFollows, Remembers, TreeOf;
    ghost var now := StartOf(c);
    var atEntry := false;
    answers, run, hint := [], [now], NoHint;
    StartHolds(c, fmt);
    while |answers| < |reqs|
      invariant Answered(run, reqs, answers) && run[0] == old(StartOf(c))
      invariant run[|answers|] == now && now.m == ToMap(Entries(c.intKey, c.root))
      invariant Remembers(c) ==> old(Remembers(c)) || exists i :: 0 <= i < |reqs| && reqs[i].AskKey?
      invariant Holds(c, fmt, now.m, now.at) && HintOk(c, hint) && (atEntry <==> now.at.At?)
      decreases |reqs| - |answers|
    {
      var req := reqs[|answers|];
      if !Legal(c, atEntry, req) {
        return;
      }
      if !Remembers(c) {
        NothingRemembered(c, fmt, now.m, now.at, hint, req, hints);
      }
      if !Right(c, fmt, now.m, now.at, hint, req, hints) {
        return;
      }
      ghost var before := now;
      var ans: Answer;
      ans, hint, now := Serve(c, fmt, req, hints, hint, before);
      atEntry := c.eState == VALID && !req.Remove?;
      run, answers := run + [now], answers + [ans];
    }
  }

  /** The map that the tree holds, and the position that is saved, if there is one. */
  ghost function StartOf(c: BtCursor): Stage
    reads c
  {
    Stage(ToMap(Entries(c.intKey, c.root)), if IsSaved(c) then Saved(c.nKey) else Nowhere)
  }

  lemma StartHolds(c: BtCursor, fmt: Format)
    requires fmt.Valid() && fmt.intKey == c.intKey && c.Valid() && Finished(fmt, c.root, c.h) && Cleared(c)
    ensures Holds(c, fmt, StartOf(c).m, StartOf(c).at) && HintOk(c, NoHint) && !StartOf(c).at.At?
  {}
}
