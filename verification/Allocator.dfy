/** Allocating and freeing memory in the heap of a process. */
module Allocator {
  import opened Arith
  import opened Bytes
  import opened SwapModel
  import opened SwapShelf
  import opened Policies
  import opened FrameTable
  import opened VirtualMemory
  import opened AddressSpace
  import opened PageLifecycle
  import opened Petitions
  import opened HeapHeader
  import opened HeapList
  import opened HeapBytes

  // ----- headers

  method ReadHeader(s: Server, pid: nat, a: nat, ghost expected: Header) returns (h: Header)
    requires s.Serving(pid) && HeaderIs(s.spaces[pid], a, expected)
    modifies s`spaces, s`blocks, s.mmu.Repr
    ensures s.Serving(pid) && s.spaces == old(s.spaces) && Granted(old(s.blocks), s.blocks, pid)
    ensures h == expected
  {
    var content := s.HeapRead(pid, a, HEADER);
    h := Decode(content);
    assert Inspect(0);
  }

  method WriteHeader(s: Server, pid: nat, a: nat, h: Header)
    requires s.Serving(pid) && a + HEADER <= |s.spaces[pid]| && Storable(h)
    modifies s`spaces, s`blocks, s.mmu.Repr
    ensures s.Serving(pid) && Granted(old(s.blocks), s.blocks, pid)
    ensures HeaderSet(old(s.spaces)[pid], s.spaces[pid], a, h) && s.spaces == old(s.spaces)[pid := s.spaces[pid]]
  {
    s.HeapWrite(pid, a, Encode(h));
  }

  // ----- allocation

  /** Walks the list to the first block that fits, or to the last one. */
  method FindAlloc(s: Server, pid: nat, size: nat, ghost bs: Heap)
    returns (currentAllocAddr: nat, useLastAlloc: bool, ghost i: nat)
    requires s.Serving(pid) && Wf(bs) && HeadersLie(s.spaces[pid], bs)
    modifies s`spaces, s`blocks, s.mmu.Repr
    ensures s.Serving(pid) && s.spaces == old(s.spaces) && Granted(old(s.blocks), s.blocks, pid)
    ensures FirstFit(bs, size, i) && currentAllocAddr == bs[i].addr
    ensures useLastAlloc <==> i == |bs| - 1
  {
    currentAllocAddr, useLastAlloc, i := 0, false, 0;
    while true
      invariant s.Serving(pid) && s.spaces == old(s.spaces) && Granted(old(s.blocks), s.blocks, pid)
      invariant i < |bs| && currentAllocAddr == bs[i].addr
      invariant forall k: nat :: k < i ==> !Fits(bs, k, size)
      decreases |bs| - i
    {
      ghost var given := s.blocks;
      HeaderLies(s.spaces[pid], bs, i);
      var currentAlloc := ReadHeader(s, pid, currentAllocAddr, HeaderOf(bs, i));
      GrantedTrans(old(s.blocks), given, s.blocks, pid);
      if i + 1 < |bs| {
        Ascending(bs, i, i + 1);
      }
      if currentAlloc.next == 0 {
        return currentAllocAddr, true, i;
      } else if currentAlloc.isFree && currentAlloc.next - currentAllocAddr - HEADER >= size {
        return currentAllocAddr, false, i;
      }
      currentAllocAddr, i := currentAlloc.next, i + 1;
    }
  }

  // Where a new block may begin: its address must fit a header.
  ghost predicate Addressable(space: seq<byte>, size: nat, pageSize: nat) {
    |space| + size + pageSize < 0x1_0000_0000
  }

  // Block i becomes used, and a new header follows after size bytes.
  method WriteBoth(s: Server, pid: nat, found: Header, size: nat, ghost bs: Heap, ghost i: nat, a: nat)
    requires s.Serving(pid) && i < |bs| && a == bs[i].addr && found == HeaderOf(bs, i)
    requires a + HEADER + size + HEADER <= |s.spaces[pid]|
    requires Storable(found) && a + HEADER + size < 0x1_0000_0000
    modifies s`spaces, s`blocks, s.mmu.Repr
    ensures s.Serving(pid) && Granted(old(s.blocks), s.blocks, pid)
    ensures s.spaces == old(s.spaces)[pid := s.spaces[pid]]
    ensures exists t :: BothSet(old(s.spaces)[pid], t, s.spaces[pid], bs, i, size)
  {
    var m := a + HEADER + size;
    WriteHeader(s, pid, a, found.(next := m, isFree := false));
    ghost var given, t := s.blocks, s.spaces[pid];
    WriteHeader(s, pid, m, Header(a, found.next, true));
    GrantedTrans(old(s.blocks), given, s.blocks, pid);
    assert BothSet(old(s.spaces)[pid], t, s.spaces[pid], bs, i, size);
  }

  /** Allocates in a free block that fits, and splits it if more than a header would be left over. */
  method UseFree(s: Server, pid: nat, a: nat, size: nat, ghost bs: Heap, ghost i: nat)
    requires s.Serving(pid) && Lies(s.spaces[pid], bs, s.pageSize) && FirstFit(bs, size, i)
    requires i + 1 < |bs| && a == bs[i].addr && Addressable(s.spaces[pid], size, s.pageSize)
    modifies s`spaces, s`blocks, s.mmu.Repr
    ensures s.Serving(pid) && Granted(old(s.blocks), s.blocks, pid)
    ensures s.spaces == old(s.spaces)[pid := s.spaces[pid]]
    ensures Lies(s.spaces[pid], Allocated(bs, i, size), s.pageSize) && Untouched(bs, old(s.spaces)[pid], s.spaces[pid])
  {
    HeaderLies(s.spaces[pid], bs, i);
    var found := ReadHeader(s, pid, a, HeaderOf(bs, i));
    ghost var given := s.blocks;
    var distanceToNextAlloc := found.next - a - HEADER;
    if distanceToNextAlloc <= size + HEADER {
      WriteHeader(s, pid, a, found.(isFree := false));
      ExactLies(old(s.spaces)[pid], s.spaces[pid], bs, i, size, s.pageSize);
    } else {
      Split(s, pid, a, size, found, bs, i);
    }
    GrantedTrans(old(s.blocks), given, s.blocks, pid);
  }

  method Split(s: Server, pid: nat, a: nat, size: nat, found: Header, ghost bs: Heap, ghost i: nat)
    requires s.Serving(pid) && Lies(s.spaces[pid], bs, s.pageSize) && FirstFit(bs, size, i)
    requires i + 1 < |bs| && a == bs[i].addr && found == HeaderOf(bs, i) && Room(bs, i) > size + HEADER
    modifies s`spaces, s`blocks, s.mmu.Repr
    ensures s.Serving(pid) && Granted(old(s.blocks), s.blocks, pid)
    ensures s.spaces == old(s.spaces)[pid := s.spaces[pid]]
    ensures Lies(s.spaces[pid], Allocated(bs, i, size), s.pageSize) && Untouched(bs, old(s.spaces)[pid], s.spaces[pid])
  {
    ghost var before := s.spaces[pid];
    HeaderLies(before, bs, i);
    HeaderLies(before, bs, i + 1);
    var oldNextAlloc := ReadHeader(s, pid, found.next, HeaderOf(bs, i + 1));
    ghost var given := s.blocks;
    WriteBoth(s, pid, found, size, bs, i, a);
    GrantedTrans(old(s.blocks), given, s.blocks, pid);
    given := s.blocks;
    FinishSplit(s, pid, a, size, found.next, oldNextAlloc, before, bs, i);
    GrantedTrans(old(s.blocks), given, s.blocks, pid);
  }

  lemma FinishReady(before: seq<byte>, t: seq<byte>, mid: seq<byte>, bs: Heap, i: nat, size: nat)
    requires HeadersLie(before, bs) && i + 1 < |bs| && BothSet(before, t, mid, bs, i, size) && Room(bs, i) > size + HEADER
    ensures bs[i + 1].addr + HEADER <= |mid| && Storable(HeaderOf(bs, i + 1).(prev := bs[i].addr + HEADER + size))
  {
    HeaderLies(before, bs, i);
    HeaderLies(before, bs, i + 1);
  }

  // The block after the new header learns its new predecessor.
  method FinishSplit(s: Server, pid: nat, a: nat, size: nat, next: nat, oldNextAlloc: Header,
                     ghost before: seq<byte>, ghost bs: Heap, ghost i: nat)
    requires s.Serving(pid) && Lies(before, bs, s.pageSize) && FirstFit(bs, size, i)
    requires i + 1 < |bs| && a == bs[i].addr && next == bs[i + 1].addr && Room(bs, i) > size + HEADER
    requires oldNextAlloc == HeaderOf(bs, i + 1)
    requires exists t :: BothSet(before, t, s.spaces[pid], bs, i, size)
    modifies s`spaces, s`blocks, s.mmu.Repr
    ensures s.Serving(pid) && Granted(old(s.blocks), s.blocks, pid)
    ensures s.spaces == old(s.spaces)[pid := s.spaces[pid]]
    ensures Lies(s.spaces[pid], Allocated(bs, i, size), s.pageSize) && Untouched(bs, before, s.spaces[pid])
  {
    ghost var mid := s.spaces[pid];
    ghost var t :| BothSet(before, t, mid, bs, i, size);
    FinishReady(before, t, mid, bs, i, size);
    WriteHeader(s, pid, next, oldNextAlloc.(prev := a + HEADER + size));
    SplitLies(before, t, mid, s.spaces[pid], bs, i, size, s.pageSize);
  }

  // Makes sure the page a new last header would end on is there; q is its number.
  method MakeRoom(s: Server, pid: nat, a: nat, size: nat, ghost p: nat, ghost q: nat) returns (ok: bool)
    requires s.Serving(pid) && EndsWith(s.spaces[pid], a, p, s.pageSize) && OnPage(a + HEADER + size + HEADER, q, s.pageSize)
    modifies s`spaces, s`blocks, s`shelf, s.mmu.Repr
    ensures s.Serving(pid) && s.blocks == old(s.blocks) && s.spaces == old(s.spaces)[pid := s.spaces[pid]]
    ensures pid in old(s.shelf).home && (ok <==> RoomForMore(old(s.shelf), pid, p + 1, q - p))
    ensures s.shelf == if ok then Filled(old(s.shelf), pid, q - p) else old(s.shelf)
    ensures !ok ==> s.spaces == old(s.spaces)
    ensures ok ==> Extends(old(s.spaces)[pid], s.spaces[pid]) && EndsWith(s.spaces[pid], a + HEADER + size, q, s.pageSize)
  {
    AppendPages(a, size, p, s.pageSize);
    s.HasHome(pid);
    var freeSpaceInPage := s.pageSize - (a + HEADER) % s.pageSize;
    var necessarySize := size + HEADER + 1;
    if freeSpaceInPage >= necessarySize {
      SamePage(a + HEADER + size + HEADER, p, q, s.pageSize);
      FilledNone(s.shelf, pid);
      return true;
    }
    var newPageQty := DivRoundUp(necessarySize - freeSpaceInPage, s.pageSize);
    SamePage(a + HEADER + size + HEADER, p + newPageQty, q, s.pageSize);
    ok := s.Grow(pid, newPageQty, a, p + 1);
    PageStartAdds(p + 1, newPageQty, s.pageSize);
  }

  lemma SamePage(addr: nat, p: nat, q: nat, pageSize: nat)
    requires OnPage(addr, p, pageSize) && OnPage(addr, q, pageSize)
    ensures p == q
  {
    OnPageIsQuotient(addr, p, pageSize);
    OnPageIsQuotient(addr, q, pageSize);
  }

  // Swap has room for the pages that the heap bs needs to become the heap after.
  ghost predicate Affords(sh: Shelf, pid: nat, bs: Heap, after: Heap, pageSize: nat)
    requires pageSize > 0
  {
    pid in sh.home && RoomForMore(sh, pid, PagesIn(bs, pageSize), PagesIn(after, pageSize) - PagesIn(bs, pageSize))
  }

  // What the shelf becomes then.
  ghost function Resized(sh: Shelf, pid: nat, bs: Heap, after: Heap, pageSize: nat): Shelf
    requires pageSize > 0
  {
    if pid in sh.home then Filled(sh, pid, PagesIn(after, pageSize) - PagesIn(bs, pageSize)) else sh
  }

  /** Allocates at the end, on new pages if need be; if swap has no room for them nothing changes. */
  method UseLast(s: Server, pid: nat, a: nat, size: nat, ghost bs: Heap) returns (ok: bool)
    requires s.Serving(pid) && Lies(s.spaces[pid], bs, s.pageSize) && FirstFit(bs, size, |bs| - 1)
    requires a == LastAddr(bs) && Addressable(s.spaces[pid], size, s.pageSize)
    modifies s`spaces, s`blocks, s`shelf, s.mmu.Repr
    ensures s.Serving(pid) && Granted(old(s.blocks), s.blocks, pid)
    ensures s.spaces == old(s.spaces)[pid := s.spaces[pid]]
    ensures var after := Allocated(bs, |bs| - 1, size);
      && (ok <==> Affords(old(s.shelf), pid, bs, after, s.pageSize))
      && s.shelf == (if ok then Resized(old(s.shelf), pid, bs, after, s.pageSize) else old(s.shelf))
      && (ok ==> Lies(s.spaces[pid], after, s.pageSize) && Untouched(bs, old(s.spaces)[pid], s.spaces[pid]))
    ensures !ok ==> s.spaces == old(s.spaces)
  {
    ghost var before := s.spaces[pid];
    LiesOnPages(before, bs, s.pageSize);
    HeaderLies(before, bs, |bs| - 1);
    var lastAlloc := ReadHeader(s, pid, a, HeaderOf(bs, |bs| - 1));
    ghost var given := s.blocks;
    ghost var q := NewLastPage(bs, size, s.pageSize);
    ok := MakeRoom(s, pid, a, size, PagesIn(bs, s.pageSize) - 1, q);
    if ok {
      Append(s, pid, a, size, lastAlloc, bs, before, q);
      GrantedTrans(old(s.blocks), given, s.blocks, pid);
    }
  }

  // The page the header of an extension ends on.
  lemma NewLastPage(bs: Heap, size: nat, pageSize: nat) returns (q: nat)
    requires bs != [] && pageSize > 0
    ensures OnPage(LastAddr(bs) + HEADER + size + HEADER, q, pageSize)
    ensures PagesIn(Allocated(bs, |bs| - 1, size), pageSize) == q + 1
  {
    q := AddressPage(LastAddr(bs) + HEADER + size + HEADER, pageSize);
    AppendEndsAt(bs, size);
    PagesUpTo(Allocated(bs, |bs| - 1, size), q, pageSize);
  }

  // t begins with s.
  ghost predicate Extends(s: seq<byte>, t: seq<byte>) {
    SameBytes(s, t, 0, |s|)
  }

  lemma ExtendKeepsHeaders(s: seq<byte>, t: seq<byte>, bs: Heap)
    requires Extends(s, t) && HeadersLie(s, bs)
    ensures HeadersLie(t, bs) && Untouched(bs, s, t)
  {
    forall k: nat | k < |bs| ensures HeaderIs(t, bs[k].addr, HeaderOf(bs, k)) {
      HeaderLies(s, bs, k);
      var a := bs[k].addr;
      assert t[a..a + HEADER] == s[a..a + HEADER];
    }
  }

  // The last header becomes used and a new one is written after size bytes.
  method Append(s: Server, pid: nat, a: nat, size: nat, lastAlloc: Header, ghost bs: Heap,
                ghost before: seq<byte>, ghost p: nat)
    requires s.Serving(pid) && Wf(bs) && FirstFit(bs, size, |bs| - 1) && a == LastAddr(bs)
    requires lastAlloc == HeaderOf(bs, |bs| - 1) && HeadersLie(before, bs) && Extends(before, s.spaces[pid])
    requires EndsWith(s.spaces[pid], a + HEADER + size, p, s.pageSize) && a + HEADER + size < 0x1_0000_0000
    modifies s`spaces, s`blocks, s.mmu.Repr
    ensures s.Serving(pid) && Granted(old(s.blocks), s.blocks, pid)
    ensures s.spaces == old(s.spaces)[pid := s.spaces[pid]]
    ensures Lies(s.spaces[pid], Allocated(bs, |bs| - 1, size), s.pageSize) && Untouched(bs, before, s.spaces[pid])
  {
    ghost var start := s.spaces[pid];
    ExtendKeepsHeaders(before, start, bs);
    HeaderLies(start, bs, |bs| - 1);
    WriteBoth(s, pid, lastAlloc, size, bs, |bs| - 1, a);
    ghost var t :| BothSet(start, t, s.spaces[pid], bs, |bs| - 1, size);
    AppendLies(start, t, s.spaces[pid], bs, size, p, s.pageSize);
    UntouchedTrans(bs, before, start, s.spaces[pid]);
  }

  // The list of a process that has just got its first page, if it had none.
  function Started(bs: Heap): (to: Heap)
    ensures to != []
  {
    if bs == [] then [Block(0, true)] else bs
  }

  // The heap of a process, or nothing yet.
  ghost predicate HeapOf(space: seq<byte>, bs: Heap, pageSize: nat) {
    if space == [] then bs == [] else Lies(space, bs, pageSize)
  }

  // The first page of a process, with the header of an empty heap.
  method FirstBlock(s: Server, pid: nat) returns (ok: bool)
    requires s.Valid() && pid in s.spaces && s.spaces[pid] == [] && pid !in s.orphans && s.pageSize > HEADER
    requires RoomForFirst(s.shelf) ==> s.Room(pid)
    modifies s`spaces, s`blocks, s`past, s`shelf, s`orphans, s.mmu.Repr
    ensures s.Valid() && s.past == old(s.past) && (ok <==> RoomForFirst(old(s.shelf)))
    ensures s.orphans == if ok then old(s.orphans) else old(s.orphans) + {pid}
    ensures s.shelf == if ok then Taken(old(s.shelf), pid) else old(s.shelf)
    ensures !ok ==> s.spaces == old(s.spaces) && s.blocks == old(s.blocks)
    ensures ok ==>
      && s.Serving(pid) && Granted(old(s.blocks), s.blocks, pid)
      && s.spaces == old(s.spaces)[pid := s.spaces[pid]] && |s.spaces[pid]| == s.pageSize
      && Lies(s.spaces[pid], [Block(0, true)], s.pageSize)
  {
    ok := s.FirstPage(pid);
    if ok {
      ghost var start := s.spaces[pid];
      WriteHeader(s, pid, 0, Header(0, 0, true));
      FirstHeap(start, s.spaces[pid], s.pageSize);
    }
  }

  /**
   Allocation in a heap that has at least one block: first fit.  It fails exactly if
   it needs pages that swap has no room for, never if a block fits, and then nothing
   has changed.
   */
  method AllocIn(s: Server, pid: nat, size: nat, ghost bs: Heap) returns (ptr: nat, ghost after: Heap)
    requires s.Serving(pid) && Lies(s.spaces[pid], bs, s.pageSize) && Addressable(s.spaces[pid], size, s.pageSize)
    modifies s`spaces, s`blocks, s`shelf, s.mmu.Repr
    ensures s.Serving(pid) && Granted(old(s.blocks), s.blocks, pid) && s.spaces == old(s.spaces)[pid := s.spaces[pid]]
    ensures Lies(s.spaces[pid], after, s.pageSize) && Untouched(bs, old(s.spaces)[pid], s.spaces[pid])
    ensures ptr != 0 <==> Affords(old(s.shelf), pid, bs, AfterAlloc(bs, size), s.pageSize)
    ensures ptr != 0 ==> ptr == PointerTo(bs, size) && after == AfterAlloc(bs, size)
    ensures ptr != 0 ==> GivesPayload(bs, after, size, ptr)
    ensures ptr == 0 ==> after == bs && s.spaces == old(s.spaces) && NothingFits(bs, size)
    ensures s.shelf == Resized(old(s.shelf), pid, bs, after, s.pageSize)
  {
    s.HasHome(pid);
    FilledNone(s.shelf, pid);
    var currentAllocAddr, useLastAlloc;
    ghost var i;
    currentAllocAddr, useLastAlloc, i := FindAlloc(s, pid, size, bs);
    FirstFitIs(bs, size, i, 0);
    ghost var given := s.blocks;
    var ok := true;
    if !useLastAlloc {
      FitTakesNoPages(bs, i, size, s.pageSize);
      UseFree(s, pid, currentAllocAddr, size, bs, i);
    } else {
      ok := UseLast(s, pid, currentAllocAddr, size, bs);
    }
    GrantedTrans(old(s.blocks), given, s.blocks, pid);
    ptr := if ok then currentAllocAddr + HEADER else 0;
    after := if ok then Allocated(bs, i, size) else bs;
    PointerIsNewPayload(bs, size);
    NothingFitsIs(bs, size);
  }

  // An allocation needs a first page that no file of swap has room for.
  ghost predicate NoStart(sh: Shelf, bs: Heap) {
    bs == [] && !RoomForFirst(sh)
  }

  // The shelf once the process has a first page.
  ghost function StartedShelf(sh: Shelf, pid: nat, bs: Heap): Shelf {
    if bs == [] then Taken(sh, pid) else sh
  }

  /**
   Allocates size bytes, first fit.  The pointer is 0 exactly if swap has no room for
   the first page or for the pages behind the last block.  A process without its first
   page becomes an orphan; in a heap that is not empty a failure changes nothing.
   */
  method MemAlloc(s: Server, pid: nat, size: nat, ghost bs: Heap) returns (ptr: nat, ghost after: Heap)
    requires s.Valid() && pid in s.spaces && pid !in s.orphans && s.pageSize > HEADER
    requires NoStart(s.shelf, bs) || s.Room(pid)
    requires HeapOf(s.spaces[pid], bs, s.pageSize) && Addressable(s.spaces[pid], size, 2 * s.pageSize)
    modifies s`spaces, s`blocks, s`past, s`shelf, s`orphans, s.mmu.Repr
    ensures s.Valid() && s.past == old(s.past)
    ensures pid in s.spaces && s.spaces == old(s.spaces)[pid := s.spaces[pid]]
    ensures NoStart(old(s.shelf), bs) ==>
      && ptr == 0 && after == [] && s.spaces == old(s.spaces) && s.shelf == old(s.shelf) && s.blocks == old(s.blocks)
      && s.orphans == old(s.orphans) + {pid}
    ensures !NoStart(old(s.shelf), bs) ==>
      var sh, start := StartedShelf(old(s.shelf), pid, bs), Started(bs);
      && Granted(old(s.blocks), s.blocks, pid) && s.orphans == old(s.orphans)
      && Lies(s.spaces[pid], after, s.pageSize) && Untouched(bs, old(s.spaces)[pid], s.spaces[pid])
      && (ptr != 0 <==> Affords(sh, pid, start, AfterAlloc(start, size), s.pageSize))
      && (ptr != 0 ==> ptr == PointerTo(start, size) && after == AfterAlloc(start, size) && GivesPayload(start, after, size, ptr))
      && (ptr == 0 ==> after == start && NothingFits(start, size) && (bs != [] ==> s.spaces == old(s.spaces)))
      && s.shelf == Resized(sh, pid, start, after, s.pageSize)
  {
    var pages := s.PageQuantity(pid);
    PageStartOrder(1, pages, s.pageSize);
    if pages == 0 {
      var ok := FirstBlock(s, pid);
      if !ok {
        return 0, [];
      }
    }
    ghost var given := s.blocks;
    ptr, after := AllocIn(s, pid, size, Started(bs));
    GrantedTrans(old(s.blocks), given, s.blocks, pid);
  }

  // ----- freeing

  // The block after block i, if it is free, gives it its successor.
  method AbsorbRight(s: Server, pid: nat, thisAlloc: Header, ghost bs: Heap, ghost i: nat) returns (next: nat)
    requires s.Serving(pid) && Wf(bs) && HeadersLie(s.spaces[pid], bs) && InUse(bs, i) && thisAlloc == HeaderOf(bs, i)
    modifies s`spaces, s`blocks, s.mmu.Repr
    ensures s.Serving(pid) && s.spaces == old(s.spaces) && Granted(old(s.blocks), s.blocks, pid)
    ensures next == NextAfter(bs, i)
  {
    next := thisAlloc.next;
    Ascending(bs, i, i + 1);
    if thisAlloc.next != 0 {
      HeaderLies(s.spaces[pid], bs, i + 1);
      var rightAlloc := ReadHeader(s, pid, thisAlloc.next, HeaderOf(bs, i + 1));
      if rightAlloc.isFree {
        next := rightAlloc.next;
      }
    }
  }

  // The block before block i, which is block i itself when it is the first.
  method ReadLeft(s: Server, pid: nat, thisAlloc: Header, ghost bs: Heap, ghost i: nat) returns (leftAlloc: Header)
    requires s.Serving(pid) && Wf(bs) && HeadersLie(s.spaces[pid], bs) && InUse(bs, i) && thisAlloc == HeaderOf(bs, i)
    modifies s`spaces, s`blocks, s.mmu.Repr
    ensures s.Serving(pid) && s.spaces == old(s.spaces) && Granted(old(s.blocks), s.blocks, pid)
    ensures leftAlloc == HeaderOf(bs, if i == 0 then 0 else i - 1)
  {
    ghost var left := if i == 0 then 0 else i - 1;
    HeaderLies(s.spaces[pid], bs, left);
    leftAlloc := ReadHeader(s, pid, thisAlloc.prev, HeaderOf(bs, left));
  }

  /** Joins block i with the free blocks beside it. */
  method Join(s: Server, pid: nat, thisAllocPtr: nat, ghost bs: Heap, ghost i: nat)
    returns (finalAllocPtr: nat, next: nat)
    requires s.Serving(pid) && Wf(bs) && HeadersLie(s.spaces[pid], bs) && InUse(bs, i) && thisAllocPtr == bs[i].addr
    modifies s`spaces, s`blocks, s.mmu.Repr
    ensures s.Serving(pid) && Granted(old(s.blocks), s.blocks, pid)
    ensures s.spaces == old(s.spaces)[pid := s.spaces[pid]]
    ensures finalAllocPtr == bs[Final(bs, i)].addr && next == NextAfter(bs, i)
    ensures exists t :: Joined(old(s.spaces)[pid], t, s.spaces[pid], bs, i)
  {
    ghost var start, owners := s.spaces[pid], s.blocks;
    HeaderLies(start, bs, i);
    var thisAlloc := ReadHeader(s, pid, thisAllocPtr, HeaderOf(bs, i));
    ghost var given := s.blocks;
    next := AbsorbRight(s, pid, thisAlloc, bs, i);
    GrantedTrans(owners, given, s.blocks, pid);
    given := s.blocks;
    var leftAlloc := ReadLeft(s, pid, thisAlloc, bs, i);
    GrantedTrans(owners, given, s.blocks, pid);
    given := s.blocks;
    finalAllocPtr := WriteJoined(s, pid, thisAllocPtr, thisAlloc, leftAlloc, next, bs, i);
    GrantedTrans(owners, given, s.blocks, pid);
  }

  method WriteJoined(s: Server, pid: nat, thisAllocPtr: nat, thisAlloc: Header, leftAlloc: Header, next: nat,
                     ghost bs: Heap, ghost i: nat) returns (finalAllocPtr: nat)
    requires s.Serving(pid) && Wf(bs) && HeadersLie(s.spaces[pid], bs) && InUse(bs, i) && thisAllocPtr == bs[i].addr
    requires thisAlloc == HeaderOf(bs, i) && leftAlloc == HeaderOf(bs, if i == 0 then 0 else i - 1)
    requires next == NextAfter(bs, i)
    modifies s`spaces, s`blocks, s.mmu.Repr
    ensures s.Serving(pid) && Granted(old(s.blocks), s.blocks, pid)
    ensures s.spaces == old(s.spaces)[pid := s.spaces[pid]]
    ensures finalAllocPtr == bs[Final(bs, i)].addr
    ensures exists t :: Joined(old(s.spaces)[pid], t, s.spaces[pid], bs, i)
  {
    ghost var start, owners := s.spaces[pid], s.blocks;
    HeaderLies(start, bs, i);
    HeaderLies(start, bs, i + After(bs, i));
    finalAllocPtr := thisAllocPtr;
    if leftAlloc.isFree {
      HeaderLies(start, bs, i - 1);
      finalAllocPtr := thisAlloc.prev;
      WriteHeader(s, pid, thisAlloc.prev, leftAlloc.(next := next));
    }
    ghost var given, t := s.blocks, s.spaces[pid];
    WriteHeader(s, pid, thisAllocPtr, thisAlloc.(next := next, isFree := true));
    GrantedTrans(owners, given, s.blocks, pid);
    assert Joined(start, t, s.spaces[pid], bs, i);
  }

  method SetPrev(s: Server, pid: nat, a: nat, prev: nat, ghost expected: Header)
    requires s.Serving(pid) && HeaderIs(s.spaces[pid], a, expected) && Storable(expected.(prev := prev))
    modifies s`spaces, s`blocks, s.mmu.Repr
    ensures s.Serving(pid) && Granted(old(s.blocks), s.blocks, pid)
    ensures s.spaces == old(s.spaces)[pid := s.spaces[pid]]
    ensures HeaderSet(old(s.spaces)[pid], s.spaces[pid], a, expected.(prev := prev))
  {
    var alloc := ReadHeader(s, pid, a, expected);
    ghost var given := s.blocks;
    WriteHeader(s, pid, a, alloc.(prev := prev));
    GrantedTrans(old(s.blocks), given, s.blocks, pid);
  }

  // The header of the block after the freed one, before and after it learns its new predecessor.
  lemma RelinkReady(start: seq<byte>, t: seq<byte>, mid: seq<byte>, bs: Heap, i: nat, n: nat)
    requires Wf(bs) && HeadersLie(start, bs) && InUse(bs, i) && n == i + After(bs, i) + 1 < |bs|
    requires Joined(start, t, mid, bs, i)
    ensures HeaderIs(mid, bs[n].addr, HeaderOf(bs, n)) && bs[n].addr == NextAfter(bs, i)
    ensures Storable(HeaderOf(bs, n).(prev := bs[Final(bs, i)].addr))
  {
    JoinedKept(start, t, mid, bs, i, n);
    FinalBefore(bs, i, n);
    PrevStorable(start, bs, n, bs[Final(bs, i)].addr);
  }

  lemma FinalBefore(bs: Heap, i: nat, n: nat)
    requires Wf(bs) && InUse(bs, i) && n == i + After(bs, i) + 1 < |bs|
    ensures bs[Final(bs, i)].addr <= bs[n - 1].addr
  {
    if Final(bs, i) < n - 1 {
      Ascending(bs, Final(bs, i), n - 1);
    }
  }

  lemma PrevStorable(start: seq<byte>, bs: Heap, n: nat, prev: nat)
    requires HeadersLie(start, bs) && 0 < n < |bs| && prev <= bs[n - 1].addr
    ensures Storable(HeaderOf(bs, n).(prev := prev))
  {
    HeaderLies(start, bs, n);
  }

  // The block after the freed one points back to it.
  method Relink(s: Server, pid: nat, finalAllocPtr: nat, next: nat,
                ghost start: seq<byte>, ghost t: seq<byte>, ghost bs: Heap, ghost i: nat)
    requires s.Serving(pid) && Lies(start, bs, s.pageSize) && InUse(bs, i) && i + After(bs, i) + 1 < |bs|
    requires Joined(start, t, s.spaces[pid], bs, i)
    requires finalAllocPtr == bs[Final(bs, i)].addr && next == NextAfter(bs, i)
    modifies s`spaces, s`blocks, s.mmu.Repr
    ensures s.Serving(pid) && Granted(old(s.blocks), s.blocks, pid)
    ensures s.spaces == old(s.spaces)[pid := s.spaces[pid]]
    ensures Lies(s.spaces[pid], WithFreed(bs, i), s.pageSize)
    ensures Untouched(WithFreed(bs, i), start, s.spaces[pid])
  {
    ghost var mid := s.spaces[pid];
    ghost var n := i + After(bs, i) + 1;
    RelinkReady(start, t, mid, bs, i, n);
    SetPrev(s, pid, next, finalAllocPtr, HeaderOf(bs, n));
    InnerLies(start, t, mid, s.spaces[pid], bs, i, s.pageSize);
  }

  // Drops the pages behind the header at a.
  method DropBehind(s: Server, pid: nat, a: nat, ghost p: nat, ghost pages: nat)
    requires s.Valid() && pid in s.spaces && pid !in s.orphans && OnPage(a + HEADER, p, s.pageSize)
    requires p + 1 <= pages && |s.spaces[pid]| == PageStart(pages, s.pageSize)
    modifies s`spaces, s`blocks, s`shelf, s.mmu.Repr
    ensures s.Valid() && s.blocks == old(s.blocks) && pid in old(s.shelf).home
    ensures PageStart(p + 1, s.pageSize) <= |old(s.spaces)[pid]|
    ensures s.spaces == old(s.spaces)[pid := old(s.spaces)[pid][..PageStart(p + 1, s.pageSize)]]
    ensures s.shelf == Filled(old(s.shelf), pid, p + 1 - pages)
  {
    var firstFreeByte := a + HEADER;
    OnPageIsQuotient(firstFreeByte, p, s.pageSize);
    var pageToDelete := 1 + firstFreeByte / s.pageSize;
    s.DropPages(pid, pageToDelete, pages);
  }

  // The pages behind the freed block, now the last one, are dropped.
  method Trim(s: Server, pid: nat, finalAllocPtr: nat,
              ghost start: seq<byte>, ghost t: seq<byte>, ghost bs: Heap, ghost i: nat, ghost p: nat)
    requires s.Serving(pid) && pid !in s.orphans && Lies(start, bs, s.pageSize)
    requires InUse(bs, i) && i + After(bs, i) + 1 == |bs|
    requires Joined(start, t, s.spaces[pid], bs, i) && finalAllocPtr == bs[Final(bs, i)].addr
    requires OnPage(finalAllocPtr + HEADER, p, s.pageSize)
    modifies s`spaces, s`blocks, s`shelf, s.mmu.Repr
    ensures s.Serving(pid) && s.blocks == old(s.blocks)
    ensures s.spaces == old(s.spaces)[pid := s.spaces[pid]]
    ensures s.shelf == Resized(old(s.shelf), pid, bs, WithFreed(bs, i), s.pageSize)
    ensures Lies(s.spaces[pid], WithFreed(bs, i), s.pageSize)
    ensures Untouched(WithFreed(bs, i), start, s.spaces[pid])
  {
    ghost var mid := s.spaces[pid];
    TrimFits(start, t, mid, bs, i, p, s.pageSize);
    TrimmedPages(bs, i, p, s.pageSize);
    DropBehind(s, pid, finalAllocPtr, p, PagesIn(bs, s.pageSize));
    OuterLies(start, t, mid, s.spaces[pid], bs, i, p, s.pageSize);
  }

  lemma TrimmedPages(bs: Heap, i: nat, p: nat, pageSize: nat)
    requires InUse(bs, i) && i + After(bs, i) + 1 == |bs| && pageSize > 0
    requires OnPage(bs[Final(bs, i)].addr + HEADER, p, pageSize)
    ensures PagesIn(WithFreed(bs, i), pageSize) == p + 1
  {
    OuterFreeEndsAt(bs, i);
    PagesUpTo(WithFreed(bs, i), p, pageSize);
  }

  lemma TrimFits(start: seq<byte>, t: seq<byte>, mid: seq<byte>, bs: Heap, i: nat, p: nat, pageSize: nat)
    requires Lies(start, bs, pageSize) && InUse(bs, i) && Joined(start, t, mid, bs, i) && pageSize > 0
    requires OnPage(bs[Final(bs, i)].addr + HEADER, p, pageSize)
    ensures |mid| == PageStart(PagesIn(bs, pageSize), pageSize) && 0 < PageStart(p + 1, pageSize) <= |mid|
    ensures p + 1 <= PagesIn(bs, pageSize)
  {
    var q: nat := PagesIn(bs, pageSize) - 1;
    LiesOnPages(start, bs, pageSize);
    Ascending(bs, Final(bs, i), |bs| - 1);
    PageStartOrder(q + 1, p, pageSize);
    PageStartOrder(p + 1, q + 1, pageSize);
    JoinedUntouched(start, t, mid, bs, i);
  }

  // Joins block i with its free neighbours, then closes the list behind it or drops the pages behind it.
  method FreeBlock(s: Server, pid: nat, thisAllocPtr: nat, ghost bs: Heap, ghost i: nat)
    requires s.Serving(pid) && pid !in s.orphans && Lies(s.spaces[pid], bs, s.pageSize)
    requires InUse(bs, i) && thisAllocPtr == bs[i].addr
    modifies s`spaces, s`blocks, s`shelf, s.mmu.Repr
    ensures s.Serving(pid) && Granted(old(s.blocks), s.blocks, pid)
    ensures s.spaces == old(s.spaces)[pid := s.spaces[pid]]
    ensures s.shelf == Resized(old(s.shelf), pid, bs, WithFreed(bs, i), s.pageSize)
    ensures Lies(s.spaces[pid], WithFreed(bs, i), s.pageSize)
    ensures Untouched(WithFreed(bs, i), old(s.spaces)[pid], s.spaces[pid])
  {
    ghost var start := s.spaces[pid];
    s.HasHome(pid);
    FilledNone(s.shelf, pid);
    var finalAllocPtr, next := Join(s, pid, thisAllocPtr, bs, i);
    ghost var given := s.blocks;
    ghost var t :| Joined(start, t, s.spaces[pid], bs, i);
    NextIsZeroAtEnd(bs, i);
    if next == 0 {
      ghost var p := AddressPage(finalAllocPtr + HEADER, s.pageSize);
      Trim(s, pid, finalAllocPtr, start, t, bs, i, p);
    } else {
      InnerFreeKeepsPages(bs, i, s.pageSize);
      Relink(s, pid, finalAllocPtr, next, start, t, bs, i);
    }
    GrantedTrans(old(s.blocks), given, s.blocks, pid);
  }

  lemma AddressPage(addr: nat, pageSize: nat) returns (p: nat)
    requires pageSize > 0
    ensures OnPage(addr, p, pageSize)
  {
    p := addr / pageSize;
    OnPageIsQuotient(addr, p, pageSize);
  }

  lemma NextIsZeroAtEnd(bs: Heap, i: nat)
    requires Wf(bs) && InUse(bs, i)
    ensures NextAfter(bs, i) == 0 <==> i + After(bs, i) + 1 == |bs|
  {
    if i + After(bs, i) + 1 < |bs| {
      Ascending(bs, i + After(bs, i), i + After(bs, i) + 1);
    }
  }

  // A pointer to the payload of a block in use.
  ghost predicate Points(bs: Heap, ptr: nat, i: nat) {
    InUse(bs, i) && ptr == bs[i].addr + HEADER
  }

  /**
   Frees what a pointer points to.  A pointer outside the address space is refused, and
   so is every pointer of a process without pages.
   */
  method MemFree(s: Server, pid: nat, addr: nat, ghost bs: Heap) returns (ok: bool, ghost after: Heap)
    requires s.Valid() && pid in s.spaces && pid !in s.orphans && HeapOf(s.spaces[pid], bs, s.pageSize)
    requires addr < |s.spaces[pid]| ==> s.Room(pid) && exists i :: Points(bs, addr, i)
    modifies s`spaces, s`blocks, s`shelf, s.mmu.Repr
    ensures s.Valid() && pid in s.spaces && s.spaces == old(s.spaces)[pid := s.spaces[pid]]
    ensures ok <==> addr < |old(s.spaces)[pid]|
    ensures !ok ==> s.spaces == old(s.spaces) && s.blocks == old(s.blocks) && s.shelf == old(s.shelf) && after == bs
    ensures ok ==>
      && Granted(old(s.blocks), s.blocks, pid) && (exists i :: Points(bs, addr, i) && after == WithFreed(bs, i))
      && s.shelf == Resized(old(s.shelf), pid, bs, after, s.pageSize)
      && Lies(s.spaces[pid], after, s.pageSize) && Untouched(after, old(s.spaces)[pid], s.spaces[pid])
  {
    var pages := s.PageQuantity(pid);
    if addr >= pages * s.pageSize {
      return false, bs;
    }
    ghost var i :| Points(bs, addr, i);
    FreeBlock(s, pid, addr - HEADER, bs, i);
    return true, WithFreed(bs, i);
  }
}
