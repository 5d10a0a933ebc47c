/**
 What saving, reading and destroying a page do to a store in order: one key of the
 map of pages changes, and the shelf by one page.

 The record of a store is the map of its pages, the pids it has seen and its shelf.
 The requests keep the record true of the slots, so that their callers need not look
 at slots at all.
 */
module SwapRequests {
  import opened Bytes
  import opened SwapModel
  import opened SwapChunks
  import opened SwapTargets
  import opened SwapShelf

  ghost predicate InGoodOrder(fixed: bool, size: nat, st: Store) {
    if fixed then Chunked(st, size) && WholeChunks(st, size) else Lookable(st)
  }

  lemma OrderIsLookable(fixed: bool, size: nat, st: Store)
    requires InGoodOrder(fixed, size, st)
    ensures Lookable(st)
  {
    if fixed {
      ChunkedIsLookable(st, size);
    }
  }

  // What the shelf is after a save of a page.
  ghost function AfterSave(sh: Shelf, stored: map<PageKey, Page>, pid: nat, page: nat): Shelf {
    if PageKey(pid, page) !in stored && RoomFor(sh, pid, page) then Taken(sh, pid) else sh
  }

  ghost predicate Takes(sh: Shelf, stored: map<PageKey, Page>, pid: nat, page: nat) {
    PageKey(pid, page) in stored || RoomFor(sh, pid, page)
  }

  // All that is promised of a save.
  ghost predicate SavedRight(sh: Shelf, st: Store, p: Option<Place>, s: Slot) {
    var to := Saved(st, p, s);
    && (p.Some? <==> Takes(sh, MapOf(st), s.pid, s.page))
    && (p.Some? ==> At(st, p.value.file, p.value.slot))
    && InGoodOrder(sh.fixed, sh.size, to) && Shelved(AfterSave(sh, MapOf(st), s.pid, s.page), to)
    && MapOf(to) == if p.Some? then MapOf(st)[s.Key() := s.content] else MapOf(st)
  }

  lemma FixedSave(sh: Shelf, st: Store, pid: nat, page: nat, content: Page)
    requires Shelved(sh, st) && sh.fixed && InGoodOrder(true, sh.size, st) && InOrder(st, pid, page)
    ensures SavedRight(sh, st, FixedTarget(st, sh.size, pid, page), Slot(pid, page, true, content))
  {
    var p, s := FixedTarget(st, sh.size, pid, page), Slot(pid, page, true, content);
    FixedTargetInOrder(st, sh.size, pid, page);
    RoomIsShelf(sh, st, pid, page);
    if p.Some? {
      FixedSlotIsUpdate(st, sh.size, p.value.file, p.value.slot, s);
      FixedSaveShelved(sh, st, pid, page, content, p.value.file, p.value.slot);
    }
  }

  lemma GlobalSaveAt(sh: Shelf, st: Store, f: nat, i: nat, s: Slot)
    requires Shelved(sh, st) && !sh.fixed && Lookable(st) && s.used && Takes(sh, MapOf(st), s.pid, s.page)
    requires GlobalTarget(st, s.pid, s.page) == Some(Place(f, i))
    requires GlobalSpot(st, f, s.pid) && GlobalSlot(st, f, i, s.Key())
    ensures Lookable(Put(st, f, i, s)) && Shelved(AfterSave(sh, MapOf(st), s.pid, s.page), Put(st, f, i, s))
    ensures MapOf(Put(st, f, i, s)) == MapOf(st)[s.Key() := s.content]
  {
    GlobalSlotIsUpdate(st, f, i, s);
    GlobalSaveShelved(sh, st, s.pid, s.page, s.content, f, i);
  }

  lemma GlobalSave(sh: Shelf, st: Store, pid: nat, page: nat, content: Page)
    requires Shelved(sh, st) && !sh.fixed && Lookable(st)
    ensures SavedRight(sh, st, GlobalTarget(st, pid, page), Slot(pid, page, true, content))
  {
    var p, s := GlobalTarget(st, pid, page), Slot(pid, page, true, content);
    GlobalTargetIs(st, pid, page);
    if p.Some? {
      GlobalSlotIsUpdate(st, p.value.file, p.value.slot, s);
    }
    RoomIsShelf(sh, st, pid, page);
    if p.Some? {
      GlobalSaveAt(sh, st, p.value.file, p.value.slot, s);
    }
  }

  /**
   A save adds or replaces one page if the shelf has room for it or the page is
   stored already, and otherwise changes nothing.
   */
  lemma SaveIsRight(sh: Shelf, st: Store, pid: nat, page: nat, content: Page)
    requires Shelved(sh, st) && InGoodOrder(sh.fixed, sh.size, st) && (sh.fixed ==> InOrder(st, pid, page))
    ensures SavedRight(sh, st, Target(st, sh.fixed, sh.size, pid, page), Slot(pid, page, true, content))
  {
    if sh.fixed {
      FixedSave(sh, st, pid, page, content);
    } else {
      GlobalSave(sh, st, pid, page, content);
    }
  }

  // What a request leaves as it was: sizes of pages, and which pids slots are labelled with.
  lemma SavedKeeps(st: Store, p: Option<Place>, s: Slot, pageSize: nat)
    requires PagesSized(st, pageSize) && |s.content| == pageSize
    ensures PagesSized(Saved(st, p, s), pageSize)
    ensures forall q :: Carried(Saved(st, p, s), q) ==> (q == s.pid && p.Some?) || Carried(st, q)
  {
    if p.Some? && At(st, p.value.file, p.value.slot) {
      forall q | Carried(Saved(st, p, s), q) ensures q == s.pid || Carried(st, q) {
        PutCarries(st, p.value.file, p.value.slot, s, q);
      }
    }
  }

  lemma DestroyedKeeps(st: Store, p: Option<Place>, blank: Page, pageSize: nat)
    requires PagesSized(st, pageSize) && |blank| == pageSize
    ensures PagesSized(Destroyed(st, p, blank), pageSize)
    ensures forall q :: Carried(Destroyed(st, p, blank), q) ==> Carried(st, q)
  {
    if p.Some? && At(st, p.value.file, p.value.slot) {
      forall q | Carried(Destroyed(st, p, blank), q) ensures Carried(st, q) {
        FreeCarries(st, p.value.file, p.value.slot, blank, q);
      }
    }
  }

  // ----- reading and destroying

  // A slot with the key, in use exactly if the page is stored; or none, and the page is not stored.
  ghost predicate Finds(st: Store, pid: nat, page: nat, p: Option<Place>) {
    match p
    case None => PageKey(pid, page) !in MapOf(st)
    case Some(at) =>
      && At(st, at.file, at.slot) && st[at.file][at.slot].Key() == PageKey(pid, page)
      && (Live(st, at.file, at.slot) <==> PageKey(pid, page) in MapOf(st))
      && (Live(st, at.file, at.slot) ==> MapOf(st)[PageKey(pid, page)] == st[at.file][at.slot].content)
  }

  // A page is looked for in the file of its process, in the lowest slot with the key.
  lemma PageAtIs(st: Store, pid: nat, page: nat)
    requires Lookable(st)
    ensures PageAt(st, pid, page).Some? <==> Found(st, pid, page)
    ensures Finds(st, pid, page, PageAt(st, pid, page))
  {
    PidFileIs(st, pid);
    OwnFileIsOnly(st, pid);
    var k := PidFile(st, pid, 0);
    if k == -1 {
      NotLiveNotStored(st, pid, page);
    } else {
      var i :| 0 <= i < |st[k]| && st[k][i].used && st[k][i].pid == pid;
      assert Live(st, k, i);
      var hit := Lookup(st[k], PageKey(pid, page), 0);
      if hit == -1 {
        NotCarriedNotStored(st, k, i, page);
      } else {
        LookupReads(st, k, i, hit, page);
        assert At(st, k, hit);
      }
    }
  }

  // All that is promised of destroying a page.
  ghost predicate DestroyedRight(sh: Shelf, st: Store, pid: nat, page: nat, to: Store) {
    && InGoodOrder(sh.fixed, sh.size, to) && Shelved(AfterDestroy(sh, MapOf(st), pid, page), to)
    && MapOf(to) == MapOf(st) - {PageKey(pid, page)}
  }

  lemma FreeInOrder(sh: Shelf, st: Store, f: nat, i: nat, blank: Page)
    requires InGoodOrder(sh.fixed, sh.size, st) && At(st, f, i)
    requires sh.fixed && st[f][i].used ==> PageKey(st[f][i].pid, st[f][i].page + 1) !in MapOf(st)
    ensures InGoodOrder(sh.fixed, sh.size, Put(st, f, i, Freed(st[f][i], blank)))
  {
    if sh.fixed {
      FreeLastKeepsChunked(st, sh.size, f, i, blank);
    } else {
      FreeKeepsLookable(st, f, i, blank);
    }
  }

  /** Destroying a page takes exactly its key away; under fixed assignment, if it is the last page of its process. */
  lemma DestroyIsRight(sh: Shelf, st: Store, pid: nat, page: nat, blank: Page)
    requires Shelved(sh, st) && InGoodOrder(sh.fixed, sh.size, st)
    requires sh.fixed && PageKey(pid, page) in MapOf(st) ==> PageKey(pid, page + 1) !in MapOf(st)
    ensures DestroyedRight(sh, st, pid, page, Destroyed(st, PageAt(st, pid, page), blank))
  {
    OrderIsLookable(sh.fixed, sh.size, st);
    PageAtIs(st, pid, page);
    DestroyFound(sh, st, pid, page, PageAt(st, pid, page), blank);
  }

  lemma DestroyFound(sh: Shelf, st: Store, pid: nat, page: nat, p: Option<Place>, blank: Page)
    requires Shelved(sh, st) && InGoodOrder(sh.fixed, sh.size, st) && Lookable(st) && Finds(st, pid, page, p)
    requires sh.fixed && PageKey(pid, page) in MapOf(st) ==> PageKey(pid, page + 1) !in MapOf(st)
    ensures DestroyedRight(sh, st, pid, page, Destroyed(st, p, blank))
  {
    if p.Some? {
      var was := st[p.value.file][p.value.slot];
      assert was.pid == pid && was.page == page by {
        assert was.Key() == PageKey(was.pid, was.page);
      }
      DestroySlot(sh, st, p.value.file, p.value.slot, blank);
    } else {
      DestroyNothing(sh, st, pid, page);
    }
  }

  lemma DestroyNothing(sh: Shelf, st: Store, pid: nat, page: nat)
    requires Shelved(sh, st) && InGoodOrder(sh.fixed, sh.size, st) && PageKey(pid, page) !in MapOf(st)
    ensures DestroyedRight(sh, st, pid, page, st)
  {
    assert MapOf(st) - {PageKey(pid, page)} == MapOf(st);
  }

  lemma DestroySlot(sh: Shelf, st: Store, f: nat, i: nat, blank: Page)
    requires Shelved(sh, st) && InGoodOrder(sh.fixed, sh.size, st) && Lookable(st) && At(st, f, i)
    requires Live(st, f, i) <==> PageKey(st[f][i].pid, st[f][i].page) in MapOf(st)
    requires sh.fixed && Live(st, f, i) ==> PageKey(st[f][i].pid, st[f][i].page + 1) !in MapOf(st)
    ensures DestroyedRight(sh, st, st[f][i].pid, st[f][i].page, Put(st, f, i, Freed(st[f][i], blank)))
  {
    FreeInOrder(sh, st, f, i, blank);
    MapWithoutKey(st, f, i, blank);
    SlotShelved(sh, st, f, i, blank);
  }

  lemma SlotShelved(sh: Shelf, st: Store, f: nat, i: nat, blank: Page)
    requires Shelved(sh, st) && (sh.fixed ==> Chunked(st, sh.size)) && Lookable(st) && At(st, f, i)
    requires Live(st, f, i) <==> st[f][i].Key() in MapOf(st)
    requires sh.fixed && Live(st, f, i) ==> PageKey(st[f][i].pid, st[f][i].page + 1) !in MapOf(st)
    ensures Shelved(AfterDestroy(sh, MapOf(st), st[f][i].pid, st[f][i].page), Put(st, f, i, Freed(st[f][i], blank)))
  {
    if Live(st, f, i) {
      DestroyShelved(sh, st, f, i, blank);
    } else {
      StaleShelved(sh, st, f, i, blank);
    }
  }

  lemma MapWithoutKey(st: Store, f: nat, i: nat, blank: Page)
    requires Lookable(st) && At(st, f, i) && (Live(st, f, i) <==> st[f][i].Key() in MapOf(st))
    ensures MapOf(Put(st, f, i, Freed(st[f][i], blank))) == MapOf(st) - {st[f][i].Key()}
  {
    MapFree(st, f, i, blank);
    if !Live(st, f, i) {
      assert MapOf(st) - {st[f][i].Key()} == MapOf(st);
    }
  }

  // ----- the store and the record of it

  // What is stored, which pids were seen and how full the files are, as the slots have it.
  ghost predicate BackedNow(st: Store, stored: map<PageKey, Page>, seen: set<nat>, sh: Shelf, pageSize: nat) {
    && InGoodOrder(sh.fixed, sh.size, st) && PagesSized(st, pageSize)
    && Represents(stored, st) && Shelved(sh, st)
    && (forall q {:trigger Carried(st, q)} :: Carried(st, q) ==> q in seen)
  }

  ghost predicate LookInside(x: int) {
    true
  }

  ghost predicate Backed(st: Store, stored: map<PageKey, Page>, seen: set<nat>, sh: Shelf, pageSize: nat) {
    forall x {:trigger LookInside(x)} :: LookInside(x) ==> BackedNow(st, stored, seen, sh, pageSize)
  }

  lemma BackedIs(st: Store, stored: map<PageKey, Page>, seen: set<nat>, sh: Shelf, pageSize: nat)
    requires Backed(st, stored, seen, sh, pageSize)
    ensures BackedNow(st, stored, seen, sh, pageSize) && Lookable(st) && stored == MapOf(st)
  {
    assert LookInside(0);
    OrderIsLookable(sh.fixed, sh.size, st);
    RepresentsIsMap(stored, st);
  }

  lemma MakesBacked(st: Store, stored: map<PageKey, Page>, seen: set<nat>, sh: Shelf, pageSize: nat)
    requires InGoodOrder(sh.fixed, sh.size, st) && PagesSized(st, pageSize) && Shelved(sh, st) && stored == MapOf(st)
    requires forall q {:trigger Carried(st, q)} :: Carried(st, q) ==> q in seen
    ensures Backed(st, stored, seen, sh, pageSize)
  {
    OrderIsLookable(sh.fixed, sh.size, st);
    RepresentsIsMap(stored, st);
  }

  // The pids known after a save.
  ghost function Seen(seen: set<nat>, pid: nat, ok: bool): set<nat> {
    if ok then seen + {pid} else seen
  }

  ghost function Kept(stored: map<PageKey, Page>, s: Slot, ok: bool): map<PageKey, Page> {
    if ok then stored[s.Key() := s.content] else stored
  }

  lemma SavedBacked(st: Store, seen: set<nat>, sh: Shelf, p: Option<Place>, s: Slot)
    requires PagesSized(st, |s.content|) && SavedRight(sh, st, p, s)
    requires forall q {:trigger Carried(st, q)} :: Carried(st, q) ==> q in seen
    ensures Backed(Saved(st, p, s), Kept(MapOf(st), s, p.Some?), Seen(seen, s.pid, p.Some?), AfterSave(sh, MapOf(st), s.pid, s.page), |s.content|)
  {
    SavedKeeps(st, p, s, |s.content|);
    MakesBacked(Saved(st, p, s), Kept(MapOf(st), s, p.Some?), Seen(seen, s.pid, p.Some?), AfterSave(sh, MapOf(st), s.pid, s.page), |s.content|);
  }

  lemma NextIsInOrder(st: Store, seen: set<nat>, pid: nat, page: nat)
    requires NextInOrder(MapOf(st), pid in seen, pid, page) && (Carried(st, pid) ==> pid in seen)
    ensures InOrder(st, pid, page)
  {
  }

  lemma SaveKeepsBacked(st: Store, stored: map<PageKey, Page>, seen: set<nat>, sh: Shelf, pid: nat, page: nat, content: Page)
    requires Backed(st, stored, seen, sh, |content|) && (sh.fixed ==> NextInOrder(stored, pid in seen, pid, page))
    requires sh.fixed ==> sh.size > 0
    ensures var p := Target(st, sh.fixed, sh.size, pid, page); var ok := Takes(sh, stored, pid, page);
      && (p.Some? <==> ok) && (p.Some? ==> At(st, p.value.file, p.value.slot))
      && Backed(Saved(st, p, Slot(pid, page, true, content)), if ok then stored[PageKey(pid, page) := content] else stored,
                if ok then seen + {pid} else seen, AfterSave(sh, stored, pid, page), |content|)
  {
    BackedIs(st, stored, seen, sh, |content|);
    if sh.fixed {
      NextIsInOrder(st, seen, pid, page);
    }
    SaveIsRight(sh, st, pid, page, content);
    SavedBacked(st, seen, sh, Target(st, sh.fixed, sh.size, pid, page), Slot(pid, page, true, content));
  }

  lemma DestroyedBacked(st: Store, seen: set<nat>, sh: Shelf, pid: nat, page: nat, p: Option<Place>, blank: Page)
    requires PagesSized(st, |blank|) && DestroyedRight(sh, st, pid, page, Destroyed(st, p, blank))
    requires forall q {:trigger Carried(st, q)} :: Carried(st, q) ==> q in seen
    ensures Backed(Destroyed(st, p, blank), MapOf(st) - {PageKey(pid, page)}, seen, AfterDestroy(sh, MapOf(st), pid, page), |blank|)
  {
    DestroyedKeeps(st, p, blank, |blank|);
    MakesBacked(Destroyed(st, p, blank), MapOf(st) - {PageKey(pid, page)}, seen, AfterDestroy(sh, MapOf(st), pid, page), |blank|);
  }

  lemma DestroyKeepsBacked(st: Store, stored: map<PageKey, Page>, seen: set<nat>, sh: Shelf, pid: nat, page: nat, blank: Page)
    requires Backed(st, stored, seen, sh, |blank|)
    requires sh.fixed && PageKey(pid, page) in stored ==> PageKey(pid, page + 1) !in stored
    ensures PageAt(st, pid, page).Some? <==> Found(st, pid, page)
    ensures Backed(Destroyed(st, PageAt(st, pid, page), blank), stored - {PageKey(pid, page)}, seen,
                   AfterDestroy(sh, stored, pid, page), |blank|)
  {
    BackedIs(st, stored, seen, sh, |blank|);
    PageAtIs(st, pid, page);
    DestroyIsRight(sh, st, pid, page, blank);
    DestroyedBacked(st, seen, sh, pid, page, PageAt(st, pid, page), blank);
  }

  lemma BackedReads(st: Store, stored: map<PageKey, Page>, seen: set<nat>, sh: Shelf, pageSize: nat, pid: nat, page: nat)
    requires Backed(st, stored, seen, sh, pageSize)
    ensures PageAt(st, pid, page).Some? <==> Found(st, pid, page)
    ensures PageKey(pid, page) in stored ==>
      var p := PageAt(st, pid, page); p.Some? && st[p.value.file][p.value.slot].content == stored[PageKey(pid, page)]
  {
    BackedIs(st, stored, seen, sh, pageSize);
    PageAtIs(st, pid, page);
  }
}
