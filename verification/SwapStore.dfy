/**
 Swap files and the store made of them.

 Whatever the assignment, the store behaves as a map from (pid, page) to page
 contents: saving updates one key or changes nothing, destroying removes one key,
 reading returns what was saved last.
 */
module SwapStore {
  import opened Bytes
  import opened SwapModel
  import opened SwapChunks
  import opened SwapTargets
  import opened SwapShelf
  import opened SwapRequests

  datatype PageMetadata = PageMetadata(pid: nat, pageNumber: nat, used: bool)

  class SwapFile {
    const entries: array<PageMetadata>
    const pages: array<Page>
    const pageSize: nat

    // calloc leaves every entry free and labelled (0, 0)
    constructor (maxPages: nat, pageSize: nat)
      ensures Valid() && fresh(entries) && fresh(pages) && this.pageSize == pageSize
      ensures entries.Length == maxPages
      ensures forall i :: 0 <= i < maxPages ==> Slots()[i] == Slot(0, 0, false, ZeroPage(pageSize))
    {
      entries := new PageMetadata[maxPages](_ => PageMetadata(0, 0, false));
      pages := new Page[maxPages](_ => ZeroPage(pageSize));
      this.pageSize := pageSize;
    }

    ghost predicate Valid() {
      entries.Length == pages.Length
    }

    ghost function SlotAt(i: nat): Slot
      requires Valid() && i < entries.Length
      reads entries, pages
    {
      Slot(entries[i].pid, entries[i].pageNumber, entries[i].used, pages[i])
    }

    ghost function Slots(): (f: File)
      requires Valid()
      reads entries, pages
      ensures |f| == entries.Length
      ensures forall i :: 0 <= i < |f| ==> f[i] == SlotAt(i)
    {
      seq(entries.Length, i requires 0 <= i < entries.Length reads entries, pages => SlotAt(i))
    }

    method HasRoom() returns (hasRoom: bool)
      requires Valid()
      ensures hasRoom <==> exists i :: 0 <= i < |Slots()| && !Slots()[i].used
    {
      hasRoom := false;
      for i := 0 to entries.Length
        invariant !hasRoom
        invariant forall k :: 0 <= k < i ==> Slots()[k].used
      {
        if !entries[i].used {
          assert !Slots()[i].used;
          return true;
        }
      }
    }

    method HasPid(pid: nat) returns (hasPid: bool)
      requires Valid()
      ensures hasPid <==> SwapTargets.HasPid(Slots(), pid)
    {
      hasPid := false;
      for i := 0 to entries.Length
        invariant !hasPid
        invariant forall k :: 0 <= k < i ==> !(Slots()[k].used && Slots()[k].pid == pid)
      {
        if entries[i].used && entries[i].pid == pid {
          assert Slots()[i].used && Slots()[i].pid == pid;
          return true;
        }
      }
    }

    method CountPidPages(pid: nat) returns (pages: nat)
      requires Valid()
      ensures pages == CountPid(Slots(), pid)
    {
      pages := 0;
      ghost var f := Slots();
      for i := 0 to entries.Length
        invariant pages == CountPid(f[..i], pid)
      {
        assert f[..i + 1][..i] == f[..i];
        if entries[i].used && entries[i].pid == pid {
          pages := pages + 1;
        }
      }
      assert f[..entries.Length] == f;
    }

    method CountFreeIndexes() returns (indices: nat)
      requires Valid()
      ensures indices == CountFree(Slots())
    {
      indices := 0;
      ghost var f := Slots();
      for i := 0 to entries.Length
        invariant indices == CountFree(f[..i])
      {
        assert f[..i + 1][..i] == f[..i];
        if !entries[i].used {
          indices := indices + 1;
        }
      }
      assert f[..entries.Length] == f;
    }

    // The lowest slot carrying the key, in use or not; -1 if none does.
    method GetIndex(pid: nat, pageNumber: nat) returns (found: int)
      requires Valid()
      ensures found == Lookup(Slots(), PageKey(pid, pageNumber), 0)
      ensures found == -1 ==> NoCarrier(Slots(), PageKey(pid, pageNumber))
      ensures found != -1 ==> 0 <= found && LowestCarrier(Slots(), found, PageKey(pid, pageNumber))
    {
      found := -1;
      for i := 0 to entries.Length
        invariant found == -1
        invariant Lookup(Slots(), PageKey(pid, pageNumber), 0) == Lookup(Slots(), PageKey(pid, pageNumber), i)
      {
        if entries[i].pid == pid && entries[i].pageNumber == pageNumber {
          return i;
        }
      }
    }

    // The bound is tested before the entry is read.
    method FindFreeIndex() returns (index: int)
      requires Valid()
      ensures index == FirstFree(Slots(), 0)
    {
      var i := 0;
      while i < entries.Length && entries[i].used
        invariant 0 <= i <= entries.Length
        invariant FirstFree(Slots(), 0) == FirstFree(Slots(), i)
      {
        i := i + 1;
      }
      index := if i >= entries.Length then -1 else i;
    }

    method ReadAtIndex(index: nat) returns (page: Page)
      requires Valid() && index < entries.Length
      ensures page == Slots()[index].content
    {
      page := pages[index];
    }

    method WriteAtIndex(index: nat, page: Page)
      requires Valid() && index < entries.Length
      modifies pages
      ensures Slots() == old(Slots())[index := old(Slots())[index].(content := page)]
    {
      pages[index] := page;
    }

    method Register(pid: nat, pageNumber: nat, index: nat)
      requires Valid() && index < entries.Length
      modifies entries
      ensures Slots() == old(Slots())[index := Slot(pid, pageNumber, true, old(Slots())[index].content)]
    {
      entries[index] := PageMetadata(pid, pageNumber, true);
    }

    // swapFile_clearAtIndex, then the slot is marked free; the key stays.
    method Clear(index: nat)
      requires Valid() && index < entries.Length
      modifies entries, pages
      ensures Slots() == old(Slots())[index := Freed(old(Slots())[index], ZeroPage(pageSize))]
    {
      pages[index] := ZeroPage(pageSize);
      entries[index] := entries[index].(used := false);
    }
  }

  // Distinct new files and the set of their arrays.
  ghost predicate FreshFiles(list: seq<SwapFile>, arrays: set<object>, maxPages: nat, pageSize: nat)
    reads set k | 0 <= k < |list| :: list[k].entries, set k | 0 <= k < |list| :: list[k].pages
  {
    && (forall k :: 0 <= k < |list| ==>
          && list[k].Valid() && list[k].pageSize == pageSize && list[k].entries.Length == maxPages
          && list[k].entries in arrays && list[k].pages in arrays)
    && (forall k, l :: 0 <= k < l < |list| ==>
          list[k] != list[l] && list[k].entries != list[l].entries && list[k].pages != list[l].pages)
    && (forall k, i :: 0 <= k < |list| && 0 <= i < maxPages ==> list[k].Slots()[i] == Slot(0, 0, false, ZeroPage(pageSize)))
  }

  class SwapSpace {
    const files: seq<SwapFile>
    const fixed: bool
    const maxFrames: nat
    const pageSize: nat
    // the pages stored, whatever slots they are in
    ghost var stored: map<PageKey, Page>
    // every pid a slot may still be labelled with; fresh slots are labelled 0
    ghost var seenPids: set<nat>
    // how full the files are, and which one each process is in
    ghost var shelf: Shelf
    // the arrays of all files
    ghost const Arrays: set<object>

    constructor (fileQty: nat, maxPages: nat, pageSize: nat, fixed: bool, maxFrames: nat)
      requires fixed ==> maxFrames > 0 && Offset(maxPages, maxFrames) == 0
      ensures Valid() && fresh(Arrays) && stored == map[]
      ensures this.fixed == fixed && this.maxFrames == maxFrames && this.pageSize == pageSize && |files| == fileQty
      ensures seenPids == {0} && shelf == BlankShelf(fileQty, maxPages, fixed, maxFrames)
    {
      var list: seq<SwapFile> := [];
      ghost var arrays: set<object> := {};
      for n := 0 to fileQty
        invariant |list| == n && FreshFiles(list, arrays, maxPages, pageSize)
        invariant fresh(arrays) && forall o :: o in arrays ==> o is array<PageMetadata> || o is array<Page>
      {
        var file := new SwapFile(maxPages, pageSize);
        list := list + [file];
        arrays := arrays + {file.entries, file.pages};
      }
      this.files, this.fixed, this.maxFrames, this.pageSize := list, fixed, maxFrames, pageSize;
      Arrays := arrays;
      stored, seenPids := map[], {0};
      shelf := BlankShelf(fileQty, maxPages, fixed, maxFrames);
      new;
      BlankCounts(shelf, Content(), maxPages);
      NothingLive();
    }

    // ----- the files as a value

    ghost predicate Wf() {
      && (forall k :: 0 <= k < |files| ==> files[k].Valid() && files[k].pageSize == pageSize)
      && (forall k :: 0 <= k < |files| ==> files[k].entries in Arrays && files[k].pages in Arrays)
      && (forall k, l :: 0 <= k < l < |files| ==>
            files[k] != files[l] && files[k].entries != files[l].entries && files[k].pages != files[l].pages)
      && (fixed ==> maxFrames > 0)
      && this !in Arrays
    }

    ghost function Content(): (st: Store)
      requires Wf()
      reads Arrays
      ensures |st| == |files|
      ensures forall k :: 0 <= k < |st| ==> st[k] == files[k].Slots()
    {
      seq(|files|, k requires 0 <= k < |files| reads Arrays => files[k].Slots())
    }

    ghost predicate Valid()
      reads this, Arrays
    {
      && Wf() && shelf.fixed == fixed && shelf.size == maxFrames
      && Backed(Content(), stored, seenPids, shelf, pageSize)
    }

    /** What is recorded as stored is what the slots stand for. */
    lemma StoredIsMap()
      requires Valid()
      ensures stored == MapOf(Content())
    {
      BackedIs(Content(), stored, seenPids, shelf, pageSize);
    }

    /** A process has a home exactly if it has a page in swap. */
    lemma HomeIfStored(pid: nat)
      requires Valid()
      ensures pid in shelf.home <==> exists g: nat :: PageKey(pid, g) in stored
    {
      BackedIs(Content(), stored, seenPids, shelf, pageSize);
      HomeIsStored(shelf, Content(), pid);
    }

    // ----- one file of the list

    method PlacePage(k: nat, index: nat, pid: nat, page: nat, content: Page)
      requires Wf() && k < |files| && index < files[k].entries.Length
      modifies files[k].entries, files[k].pages
      ensures Content() == Put(old(Content()), k, index, Slot(pid, page, true, content))
    {
      files[k].WriteAtIndex(index, content);
      files[k].Register(pid, page, index);
      ghost var s := Slot(pid, page, true, content);
      assert files[k].Slots() == old(files[k].Slots())[index := s];
      forall l | 0 <= l < |files| ensures Content()[l] == Put(old(Content()), k, index, s)[l] {
        if l != k {
          assert files[l].Slots() == old(files[l].Slots());
        }
      }
    }

    method PidExists(pid: nat) returns (k: int)
      requires Wf()
      ensures k == PidFile(Content(), pid, 0)
    {
      for l := 0 to |files|
        invariant PidFile(Content(), pid, 0) == PidFile(Content(), pid, l)
      {
        var has := files[l].HasPid(pid);
        if has {
          return l;
        }
      }
      return -1;
    }

    method HasFreeChunk(f: nat) returns (hasFreeChunk: bool)
      requires Wf() && fixed && f < |files|
      ensures hasFreeChunk <==> FreeChunkFrom(Content()[f], maxFrames, 0) != -1
    {
      var sf := files[f];
      hasFreeChunk := false;
      var i := 0;
      while i < sf.entries.Length
        invariant 0 <= i && FreeChunkFrom(sf.Slots(), maxFrames, 0) == FreeChunkFrom(sf.Slots(), maxFrames, i)
        decreases sf.entries.Length - i
      {
        if !sf.entries[i].used {
          return true;
        }
        i := i + maxFrames;
      }
    }

    // The first chunk of the file whose first slot is free; -1 if there is none.
    method FindFreeChunk(f: nat) returns (base: int)
      requires Wf() && fixed && f < |files|
      ensures base == FreeChunkFrom(Content()[f], maxFrames, 0)
      ensures base != -1 ==> 0 <= base && FreeChunk(Content(), maxFrames, f, base)
      ensures forall k: nat :: (base == -1 || k < base) ==> !FreeChunk(Content(), maxFrames, f, k)
    {
      var sf := files[f];
      FreeChunkIs(sf.Slots(), maxFrames, 0);
      var i := 0;
      while i < sf.entries.Length
        invariant 0 <= i && FreeChunkFrom(sf.Slots(), maxFrames, 0) == FreeChunkFrom(sf.Slots(), maxFrames, i)
        decreases sf.entries.Length - i
      {
        if !sf.entries[i].used {
          return i;
        }
        i := i + maxFrames;
      }
      return -1;
    }

    // The chunk of a process: the first chunk whose first slot carries its pid, if that slot is in use.
    // The bound is tested before the entry is read.
    method GetChunk(sf: SwapFile, pid: nat) returns (base: int)
      requires Wf() && fixed && sf in files
      ensures base == OwnChunkFrom(sf.Slots(), maxFrames, pid, 0)
    {
      var i := 0;
      while i < sf.entries.Length && sf.entries[i].pid != pid
        invariant 0 <= i && OwnChunkFrom(sf.Slots(), maxFrames, pid, 0) == OwnChunkFrom(sf.Slots(), maxFrames, pid, i)
        decreases sf.entries.Length - i
      {
        i := i + maxFrames;
      }
      if i >= sf.entries.Length || !sf.entries[i].used {
        return -1;
      }
      return i;
    }

    // ----- fixed assignment

    method FirstWithFreeChunk() returns (k: int)
      requires Wf() && fixed
      ensures k == OpenFile(Content(), maxFrames, 0)
    {
      for l := 0 to |files|
        invariant OpenFile(Content(), maxFrames, 0) == OpenFile(Content(), maxFrames, l)
      {
        var has := HasFreeChunk(l);
        if has {
          return l;
        }
      }
      return -1;
    }

    method PickFixedFile(pid: nat) returns (k: int)
      requires Wf() && fixed
      ensures k == FixedFile(Content(), maxFrames, pid)
    {
      k := PidExists(pid);
      if k == -1 {
        k := FirstWithFreeChunk();
      }
    }

    // The slot of file k a page goes to when no slot carries its key; -1 if it is refused.
    method FreshIndex(k: nat, pid: nat) returns (index: int)
      requires Wf() && fixed && k < |files|
      ensures var base, count := ChunkFor(Content()[k], maxFrames, pid), CountPid(Content()[k], pid);
        index == if base == -1 || count == maxFrames then -1 else base + count
    {
      var base := GetChunk(files[k], pid);
      if base == -1 {
        base := FindFreeChunk(k);
      }
      if base == -1 {
        return -1;
      }
      var offset := files[k].CountPidPages(pid);
      index := if offset == maxFrames then -1 else base + offset;
    }

    // The slot fixed assignment chooses, in whatever order pages are saved.
    method FixedPlace(pid: nat, page: nat) returns (k: int, index: int)
      requires Wf() && fixed
      ensures match FixedTarget(Content(), maxFrames, pid, page)
        case None => k == -1
        case Some(p) => k == p.file && index == p.slot
    {
      index := -1;
      k := PickFixedFile(pid);
      if k != -1 {
        index := files[k].GetIndex(pid, page);
        if index == -1 {
          index := FreshIndex(k, pid);
        }
        if index == -1 {
          k := -1;
        }
      }
    }

    /** The whole of fixed assignment: the searches, then the write. */
    method Fija(pid: nat, page: nat, content: Page) returns (ok: bool)
      requires Wf() && fixed
      requires var p := FixedTarget(Content(), maxFrames, pid, page); p.Some? ==> At(Content(), p.value.file, p.value.slot)
      modifies Arrays
      ensures ok <==> FixedTarget(old(Content()), maxFrames, pid, page).Some?
      ensures Content() == Saved(old(Content()), FixedTarget(old(Content()), maxFrames, pid, page), Slot(pid, page, true, content))
    {
      var k, index := FixedPlace(pid, page);
      ok := k != -1;
      if ok {
        PlacePage(k, index, pid, page, content);
      }
    }

    // ----- global assignment

    // The first of two files unless the second has more free slots.
    method HasMoreFree(a: nat, b: nat) returns (more: nat)
      requires Wf() && a < |files| && b < |files|
      ensures more == if CountFree(Content()[a]) >= CountFree(Content()[b]) then a else b
    {
      var freeA := files[a].CountFreeIndexes();
      var freeB := files[b].CountFreeIndexes();
      more := if freeA >= freeB then a else b;
    }

    // The file with most free slots, the first of them if there are several; -1 if there are no files.
    method HasMoreFreeIndexes() returns (best: int)
      requires Wf()
      ensures best == if |files| == 0 then -1 else EmptiestFile(Content(), |files|)
    {
      if files == [] {
        return -1;
      }
      ghost var st := Content();
      best := 0;
      for l := 1 to |files|
        invariant 0 <= best < l && Content() == st && best == EmptiestFile(st, l)
      {
        EmptiestNext(st, l);
        best := HasMoreFree(best, l);
      }
    }

    method PickGlobalFile(pid: nat) returns (k: int)
      requires Wf()
      ensures k == GlobalFile(Content(), pid)
    {
      k := PidExists(pid);
      if k == -1 {
        k := HasMoreFreeIndexes();
      }
    }

    method GlobalPlace(pid: nat, page: nat) returns (k: int, index: int)
      requires Wf()
      ensures match GlobalTarget(Content(), pid, page)
        case None => k == -1
        case Some(p) => k == p.file && index == p.slot
    {
      index := -1;
      k := PickGlobalFile(pid);
      if k != -1 {
        index := files[k].GetIndex(pid, page);
        if index == -1 {
          var hasRoom := files[k].HasRoom();
          if hasRoom {
            index := files[k].FindFreeIndex();
          } else {
            k := -1;
          }
        }
      }
    }

    /** The whole of global assignment. */
    method Global(pid: nat, page: nat, content: Page) returns (ok: bool)
      requires Wf() && !fixed
      modifies Arrays
      ensures ok <==> GlobalTarget(old(Content()), pid, page).Some?
      ensures Content() == Saved(old(Content()), GlobalTarget(old(Content()), pid, page), Slot(pid, page, true, content))
    {
      var k, index := GlobalPlace(pid, page);
      ok := k != -1;
      if ok {
        PlacePage(k, index, pid, page, content);
      }
    }

    // ----- the requests

    // The slot the assignment chosen when memory connected leads to.
    ghost function Goal(pid: nat, page: nat): Option<Place>
      requires Wf()
      reads Arrays
    {
      Target(Content(), fixed, maxFrames, pid, page)
    }

    method Save(pid: nat, page: nat, content: Page) returns (ok: bool)
      requires Wf() && (Goal(pid, page).Some? ==> At(Content(), Goal(pid, page).value.file, Goal(pid, page).value.slot))
      modifies Arrays
      ensures ok <==> old(Goal(pid, page)).Some?
      ensures Content() == Saved(old(Content()), old(Goal(pid, page)), Slot(pid, page, true, content))
    {
      if fixed {
        ok := Fija(pid, page, content);
      } else {
        ok := Global(pid, page, content);
      }
    }

    /**
     Saving stores the page under its key exactly if it is stored already or there is
     room for it, and otherwise changes nothing.
     */
    method SavePage(pid: nat, page: nat, content: Page) returns (ok: bool)
      requires Valid() && |content| == pageSize
      requires fixed ==> NextInOrder(stored, pid in seenPids, pid, page)
      modifies this`stored, this`seenPids, this`shelf, Arrays
      ensures Valid()
      ensures ok <==> Takes(old(shelf), old(stored), pid, page)
      ensures stored == if ok then old(stored)[PageKey(pid, page) := content] else old(stored)
      ensures shelf == AfterSave(old(shelf), old(stored), pid, page)
      ensures Content() == Saved(old(Content()), old(Goal(pid, page)), Slot(pid, page, true, content))
      ensures !ok ==> Content() == old(Content())
      ensures seenPids == if ok then old(seenPids) + {pid} else old(seenPids)
    {
      SaveKeepsBacked(Content(), stored, seenPids, shelf, pid, page, content);
      ok := Save(pid, page, content);
      Remember(if ok then stored[PageKey(pid, page) := content] else stored,
               if ok then seenPids + {pid} else seenPids, AfterSave(shelf, stored, pid, page));
    }

    // Brings the record of what is stored up to date.
    ghost method Remember(m: map<PageKey, Page>, seen: set<nat>, sh: Shelf)
      requires Wf() && sh.fixed == fixed && sh.size == maxFrames && Backed(Content(), m, seen, sh, pageSize)
      modifies this`stored, this`seenPids, this`shelf
      ensures Valid() && stored == m && seenPids == seen && shelf == sh
    {
      stored, seenPids, shelf := m, seen, sh;
    }

    /** Reading returns what was saved last.  It also succeeds on the blank left by a destroyed page. */
    method ReadPage(pid: nat, page: nat) returns (r: Option<Page>)
      requires Valid()
      ensures r.Some? <==> Found(Content(), pid, page)
      ensures PageKey(pid, page) in stored ==> r == Some(stored[PageKey(pid, page)])
    {
      BackedReads(Content(), stored, seenPids, shelf, pageSize, pid, page);
      r := Read(pid, page);
    }

    method Read(pid: nat, page: nat) returns (r: Option<Page>)
      requires Wf()
      ensures match PageAt(Content(), pid, page)
        case None => r == None
        case Some(p) => r == Some(Content()[p.file][p.slot].content)
    {
      var k := PidExists(pid);
      if k == -1 {
        return None;
      }
      var index := files[k].GetIndex(pid, page);
      if index == -1 {
        return None;
      }
      var content := files[k].ReadAtIndex(index);
      return Some(content);
    }

    /** Destroying takes one key away.  Under fixed assignment pages are destroyed last first. */
    method DestroyPage(pid: nat, page: nat) returns (ok: bool)
      requires Valid()
      requires fixed && PageKey(pid, page) in stored ==> PageKey(pid, page + 1) !in stored
      modifies this`stored, this`seenPids, this`shelf, Arrays
      ensures Valid() && seenPids == old(seenPids)
      ensures ok <==> old(Found(Content(), pid, page))
      ensures stored == old(stored) - {PageKey(pid, page)}
      ensures shelf == AfterDestroy(old(shelf), old(stored), pid, page)
      ensures Content() == Destroyed(old(Content()), PageAt(old(Content()), pid, page), ZeroPage(pageSize))
    {
      DestroyKeepsBacked(Content(), stored, seenPids, shelf, pid, page, ZeroPage(pageSize));
      ok := Destroy(pid, page);
      Remember(stored - {PageKey(pid, page)}, seenPids, AfterDestroy(shelf, stored, pid, page));
    }

    method Destroy(pid: nat, page: nat) returns (ok: bool)
      requires Wf()
      modifies Arrays
      ensures ok <==> PageAt(old(Content()), pid, page).Some?
      ensures Content() == Destroyed(old(Content()), PageAt(old(Content()), pid, page), ZeroPage(pageSize))
    {
      var k := PidExists(pid);
      if k == -1 {
        return false;
      }
      var index := files[k].GetIndex(pid, page);
      if index == -1 {
        return false;
      }
      Blank(k, index);
      return true;
    }

    method Blank(k: nat, index: nat)
      requires Wf() && At(Content(), k, index)
      modifies files[k].entries, files[k].pages
      ensures Content() == Put(old(Content()), k, index, Freed(old(Content())[k][index], ZeroPage(pageSize)))
    {
      files[k].Clear(index);
      ghost var s := Freed(old(files[k].Slots())[index], ZeroPage(pageSize));
      assert files[k].Slots() == old(files[k].Slots())[index := s];
      forall l | 0 <= l < |files| ensures Content()[l] == Put(old(Content()), k, index, s)[l] {
        if l != k {
          assert files[l].Slots() == old(files[l].Slots());
        }
      }
    }

    lemma NothingLive()
      requires Wf() && forall f, i :: 0 <= f < |Content()| && 0 <= i < |Content()[f]| ==>
        Content()[f][i] == Slot(0, 0, false, ZeroPage(pageSize))
      requires fixed ==> WholeChunks(Content(), maxFrames)
      requires shelf.fixed == fixed && shelf.size == maxFrames && shelf.home == map[] && CountsFree(shelf, Content())
      ensures Backed(Content(), map[], {0}, shelf, pageSize)
    {
      assert forall f: nat, i: nat :: !Live(Content(), f, i);
      EmptyStore(Content());
      if fixed {
        EmptyIsChunked(Content(), maxFrames);
      }
      StartsShelved(shelf, Content());
      MakesBacked(Content(), map[], {0}, shelf, pageSize);
    }
  }
}
