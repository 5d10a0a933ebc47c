/** What processes ask of memory. */
module Petitions {
  import opened Arith
  import opened Bytes
  import opened SwapModel
  import opened SwapChunks
  import opened SwapShelf
  import opened SwapStore
  import opened Policies
  import opened FrameTable
  import opened VirtualMemory
  import opened AddressSpace
  import opened PageLifecycle
  import opened Paging

  // ----- reading and writing the address space

  // Page and offset of an address.
  lemma AddressSplits(addr: nat, pageSize: nat)
    requires pageSize > 0
    ensures 0 <= addr / pageSize && 0 <= addr % pageSize < pageSize
    ensures addr == AddrOf(addr / pageSize, addr % pageSize, pageSize)
  {
    DivMod(addr, pageSize);
    PageStartIsProduct(addr / pageSize, pageSize);
  }

  // first and last are the pages of the first and the last byte of a stretch.
  ghost predicate Span(addr: nat, size: nat, pageSize: nat, first: nat, offset: nat, last: int, end: int) {
    && offset < pageSize && addr == AddrOf(first, offset, pageSize)
    && first <= last + 1
    && (first == last ==> offset + size <= pageSize)
    && (first > last ==> size == 0)
    && (first < last ==> 0 <= end < pageSize && addr + size == AddrOf(last, end, pageSize) + 1)
  }

  lemma SpanOf(addr: nat, size: nat, pageSize: nat, first: nat, offset: nat, last: nat, end: nat)
    requires offset < pageSize && addr == AddrOf(first, offset, pageSize)
    requires end < pageSize && addr + size == AddrOf(last, end, pageSize) + 1
    ensures Span(addr, size, pageSize, first, offset, last, end)
  {
    if first < last {
      PageStartMono(first, last, pageSize);
    } else if last < first {
      LaterAddress(last, end, first, offset, pageSize);
    }
  }

  lemma LaterAddress(last: nat, end: nat, first: nat, offset: nat, pageSize: nat)
    requires last < first && end < pageSize
    ensures AddrOf(last, end, pageSize) < AddrOf(first, offset, pageSize)
    ensures last + 1 < first ==> AddrOf(last, end, pageSize) + 1 < AddrOf(first, offset, pageSize)
  {
    PageStartMono(last, first, pageSize);
    if last + 1 < first {
      PageStartMono(last, last + 1, pageSize);
      PageStartMono(last + 1, first, pageSize);
    }
  }

  lemma StretchSpans(addr: nat, size: nat, pageSize: nat)
    requires pageSize > 0
    ensures Span(addr, size, pageSize, addr / pageSize, addr % pageSize,
                 CQuot(addr + size - 1, pageSize), CRem(addr + size - 1, pageSize))
  {
    AddressSplits(addr, pageSize);
    if addr + size > 0 {
      AddressSplits(addr + size - 1, pageSize);
      SpanOf(addr, size, pageSize, addr / pageSize, addr % pageSize,
             (addr + size - 1) / pageSize, (addr + size - 1) % pageSize);
      RemainderOf(addr + size - 1, pageSize);
    } else {
      SmallQuotient(pageSize);
    }
  }

  lemma RemainderOf(a: nat, b: nat)
    requires b > 0
    ensures CQuot(a, b) == a / b && CRem(a, b) == a % b
  {
  }

  lemma SmallQuotient(b: nat)
    requires b > 0
    ensures CQuot(-1, b) == if b == 1 then -1 else 0
  {
  }

  // Where the bytes on page i of a stretch begin, counted from address 0.
  ghost function Reached(addr: nat, size: nat, pageSize: nat, first: nat, last: int, i: int): int {
    if i <= first then addr else if i == last + 1 then addr + size else PageStart(i, pageSize)
  }

  // The part of a stretch that lies on page i.
  lemma NextPart(addr: nat, size: nat, pageSize: nat, first: nat, offset: nat, last: int, end: int, i: nat)
    requires Span(addr, size, pageSize, first, offset, last, end) && first < last && first <= i <= last
    ensures var at := Reached(addr, size, pageSize, first, last, i);
      && addr <= at < Reached(addr, size, pageSize, first, last, i + 1) <= addr + size
      && PageStart(i, pageSize) <= at
      && at == AddrOf(i, if i == first then offset else 0, pageSize)
      && Reached(addr, size, pageSize, first, last, i + 1) - at ==
           if i == first then pageSize - offset else if i == last then end + 1 else pageSize
  {
    if first < i {
      PageStartMono(first, i, pageSize);
    }
    if i < last {
      PageStartMono(i, i + 1, pageSize);
      PageStartOrder(i + 1, last, pageSize);
    }
  }

  lemma Longer(s: seq<byte>, addr: nat, at: nat, to: nat)
    requires addr <= at <= to <= |s|
    ensures s[addr..at] + s[at..to] == s[addr..to]
  {
  }

  // A stretch that crosses pages, inside an address space.
  ghost predicate Crossing(flat: seq<byte>, addr: nat, size: nat, pageSize: nat,
                           first: nat, offset: nat, last: int, end: int) {
    Span(addr, size, pageSize, first, offset, last, end) && first < last && addr + size <= |flat|
  }

  lemma NothingWritten(seen: map<nat, seq<byte>>, pid: nat, at: nat, data: seq<byte>)
    requires pid in seen && at <= |seen[pid]|
    ensures WrittenTo(seen, seen, pid, at, data[..0])
  {
    assert seen == seen[pid := seen[pid]];
  }

  // The bound on an access: it has to end before the last byte of the address space.
  predicate Accepts(space: seq<byte>, addr: nat, size: nat) {
    addr + size < |space|
  }

  // Mentioned where the invariant of a server is looked into; elsewhere it stays folded.
  ghost predicate Unfold(x: int) {
    true
  }

  class Server {
    const mmu: Mmu
    const pageSize: nat
    // what each process sees, and which process each block of frames was given to
    ghost var spaces: map<nat, seq<byte>>
    ghost var blocks: seq<int>
    // the pids of processes that ended
    ghost var past: set<nat>
    // how full swap is, and the processes whose first page found no room in it
    ghost var shelf: Shelf
    ghost var orphans: set<nat>

    constructor (mmu: Mmu)
      requires mmu.Valid() && mmu.tables == map[] && mmu.orphans == {} && mmu.pageSize > 0
      ensures Valid() && this.mmu == mmu && pageSize == mmu.pageSize && fresh(this)
      ensures spaces == map[] && blocks == mmu.Owners() && past == mmu.past && shelf == mmu.swap.shelf && orphans == {}
    {
      this.mmu, pageSize := mmu, mmu.pageSize;
      spaces, blocks, past, shelf, orphans := map[], mmu.Owners(), mmu.past, mmu.swap.shelf, {};
      new;
      assert mmu.Seen() == map[];
    }

    ghost predicate Sound()
      reads this, mmu, mmu.Repr
    {
      && mmu.Valid() && pageSize == mmu.pageSize > 0
      && spaces == mmu.Seen() && blocks == mmu.Owners() && past == mmu.past
      && shelf == mmu.swap.shelf && orphans == mmu.orphans
    }

    ghost predicate Valid()
      reads this, mmu, mmu.Repr
    {
      pageSize > 0 && this !in mmu.Repr && forall x {:trigger Unfold(x)} :: Unfold(x) ==> Sound()
    }

    // Under fixed assignment, a process has a block of frames or can get one.
    ghost predicate Room(pid: nat)
      reads this`blocks
    {
      mmu.meta.fixed ==> Placeable(blocks, pid)
    }

    // A process that has pages and can bring them to memory.
    ghost predicate Serving(pid: nat)
      reads this, mmu, mmu.Repr
    {
      Valid() && Room(pid) && pid in spaces && spaces[pid] != []
    }

    // ----- one page at a time

    lemma Opens()
      requires Valid()
      ensures Sound()
    {
      assert Unfold(0);
    }

    lemma BlocksDistinct()
      requires Valid()
      ensures OwnersDistinct(blocks)
    {
      Opens();
    }

    // Brings the record of what processes see and own up to date.
    ghost method Record()
      requires this !in mmu.Repr && mmu.Valid() && pageSize == mmu.pageSize > 0 && past == mmu.past
      requires shelf == mmu.swap.shelf && orphans == mmu.orphans
      modifies this`spaces, this`blocks
      ensures Valid() && spaces == old(mmu.Seen()) && blocks == old(mmu.Owners())
    {
      spaces, blocks := mmu.Seen(), mmu.Owners();
    }

    // The same when pages or processes came or went.
    ghost method RecordAll()
      requires this !in mmu.Repr && mmu.Valid() && pageSize == mmu.pageSize > 0
      modifies this`spaces, this`blocks, this`past, this`shelf, this`orphans
      ensures Valid() && spaces == old(mmu.Seen()) && blocks == old(mmu.Owners()) && past == old(mmu.past)
      ensures shelf == old(mmu.swap.shelf) && orphans == old(mmu.orphans)
    {
      past, shelf, orphans := mmu.past, mmu.swap.shelf, mmu.orphans;
      Record();
    }

    // Reads the part of a stretch on one page.
    method ReadOn(pid: nat, page: nat, offset: nat, size: nat) returns (part: seq<byte>)
      requires Serving(pid) && offset + size <= pageSize && PageStart(page, pageSize) < |spaces[pid]|
      modifies this`spaces, this`blocks, mmu.Repr
      ensures Serving(pid) && spaces == old(spaces) && Granted(old(blocks), blocks, pid)
      ensures |part| == size && Piece(spaces[pid], AddrOf(page, offset, pageSize), part)
    {
      Opens();
      part := ReadPage(pid, page, offset, size);
      Record();
    }

    method ReadPage(pid: nat, page: nat, offset: nat, size: nat) returns (part: seq<byte>)
      requires Sound() && Room(pid) && pid in spaces && offset + size <= pageSize && PageStart(page, pageSize) < |spaces[pid]|
      modifies mmu.Repr
      ensures mmu.Valid() && mmu.HasRoom(pid) && Granted(old(mmu.Owners()), mmu.Owners(), pid)
      ensures mmu.past == old(mmu.past) && mmu.swap.shelf == old(mmu.swap.shelf) && mmu.orphans == old(mmu.orphans)
      ensures mmu.Seen() == old(mmu.Seen()) && pid in mmu.Seen()
      ensures |part| == size && Piece(mmu.Seen()[pid], AddrOf(page, offset, pageSize), part)
    {
      mmu.PageExists(pid, page);
      part := mmu.ReadPart(pid, page, offset, size);
    }

    method WriteOn(pid: nat, page: nat, offset: nat, from: seq<byte>)
      requires Serving(pid) && offset + |from| <= pageSize && PageStart(page, pageSize) < |spaces[pid]|
      modifies this`spaces, this`blocks, mmu.Repr
      ensures Serving(pid) && Granted(old(blocks), blocks, pid)
      ensures WrittenTo(old(spaces), spaces, pid, AddrOf(page, offset, pageSize), from)
    {
      Opens();
      WritePage(pid, page, offset, from);
      Record();
    }

    method WritePage(pid: nat, page: nat, offset: nat, from: seq<byte>)
      requires Sound() && Room(pid) && pid in spaces && offset + |from| <= pageSize && PageStart(page, pageSize) < |spaces[pid]|
      modifies mmu.Repr
      ensures mmu.Valid() && mmu.HasRoom(pid) && Granted(old(mmu.Owners()), mmu.Owners(), pid)
      ensures mmu.past == old(mmu.past) && mmu.swap.shelf == old(mmu.swap.shelf) && mmu.orphans == old(mmu.orphans)
      ensures WrittenTo(old(mmu.Seen()), mmu.Seen(), pid, AddrOf(page, offset, pageSize), from)
    {
      mmu.PageExists(pid, page);
      mmu.WritePart(pid, page, offset, from);
    }

    // From the first offset to the end of its page, from the start of the last page to the last offset, else whole pages.
    method ReadPiece(pid: nat, i: nat, first: nat, offset: nat, last: nat, end: int, ghost addr: nat, ghost size: nat)
      returns (part: seq<byte>)
      requires Serving(pid) && first <= i <= last
      requires Crossing(spaces[pid], addr, size, pageSize, first, offset, last, end)
      modifies this`spaces, this`blocks, mmu.Repr
      ensures Serving(pid) && spaces == old(spaces) && Granted(old(blocks), blocks, pid)
      ensures var at := Reached(addr, size, pageSize, first, last, i);
              var to := Reached(addr, size, pageSize, first, last, i + 1);
        addr <= at <= to <= addr + size && part == spaces[pid][at..to]
    {
      NextPart(addr, size, pageSize, first, offset, last, end, i);
      if i == first {
        part := ReadOn(pid, i, offset, pageSize - offset);
      } else if i == last {
        part := ReadOn(pid, i, 0, end + 1);
      } else {
        part := ReadOn(pid, i, 0, pageSize);
      }
    }

    method ReadPages(pid: nat, first: nat, offset: nat, last: nat, end: int, ghost addr: nat, ghost size: nat)
      returns (content: seq<byte>)
      requires Serving(pid) && Crossing(spaces[pid], addr, size, pageSize, first, offset, last, end)
      modifies this`spaces, this`blocks, mmu.Repr
      ensures Serving(pid) && spaces == old(spaces) && Granted(old(blocks), blocks, pid)
      ensures content == spaces[pid][addr..addr + size]
    {
      ghost var flat := spaces[pid];
      content := [];
      for i := first to last + 1
        invariant Serving(pid) && spaces == old(spaces) && Granted(old(blocks), blocks, pid)
        invariant addr <= Reached(addr, size, pageSize, first, last, i) <= addr + size
        invariant content == flat[addr..Reached(addr, size, pageSize, first, last, i)]
      {
        ghost var before := blocks;
        var part := ReadPiece(pid, i, first, offset, last, end, addr, size);
        GrantedTrans(old(blocks), before, blocks, pid);
        Longer(flat, addr, Reached(addr, size, pageSize, first, last, i), Reached(addr, size, pageSize, first, last, i + 1));
        content := content + part;
      }
    }

    /** Reads a stretch of the address space of a process, page after page. */
    method HeapRead(pid: nat, addr: nat, size: nat) returns (content: seq<byte>)
      requires Serving(pid) && addr + size <= |spaces[pid]|
      modifies this`spaces, this`blocks, mmu.Repr
      ensures Serving(pid) && spaces == old(spaces) && Granted(old(blocks), blocks, pid)
      ensures content == spaces[pid][addr..addr + size]
    {
      var startPage, startOffset := addr / pageSize, addr % pageSize;
      var finishPage, finishOffset := CQuot(addr + size - 1, pageSize), CRem(addr + size - 1, pageSize);
      StretchSpans(addr, size, pageSize);
      if startPage == finishPage {
        content := ReadOn(pid, startPage, startOffset, size);
      } else if startPage < finishPage {
        content := ReadPages(pid, startPage, startOffset, finishPage, finishOffset, addr, size);
      } else {
        content := [];
      }
    }

    // Writes the part of the data that goes on page i.
    method WritePiece(pid: nat, i: nat, first: nat, offset: nat, last: nat, end: int, rest: seq<byte>,
                      ghost addr: nat, ghost size: nat) returns (taken: nat)
      requires Serving(pid) && first <= i <= last
      requires Crossing(spaces[pid], addr, size, pageSize, first, offset, last, end)
      requires |rest| == addr + size - Reached(addr, size, pageSize, first, last, i)
      modifies this`spaces, this`blocks, mmu.Repr
      ensures Serving(pid) && Granted(old(blocks), blocks, pid) && taken <= |rest|
      ensures taken == Reached(addr, size, pageSize, first, last, i + 1) - Reached(addr, size, pageSize, first, last, i)
      ensures WrittenTo(old(spaces), spaces, pid, Reached(addr, size, pageSize, first, last, i), rest[..taken])
    {
      NextPart(addr, size, pageSize, first, offset, last, end, i);
      if i == first {
        taken := pageSize - offset;
        WriteOn(pid, i, offset, rest[..taken]);
      } else if i == last {
        taken := end + 1;
        WriteOn(pid, i, 0, rest[..taken]);
      } else {
        taken := pageSize;
        WriteOn(pid, i, 0, rest[..taken]);
      }
    }

    // The part of the data on page i, after the parts on the pages before it.
    method WriteNext(pid: nat, i: nat, first: nat, offset: nat, last: nat, end: int, data: seq<byte>, dataOffset: nat,
                     ghost addr: nat, ghost seen: map<nat, seq<byte>>, ghost owners: seq<int>) returns (reached: nat)
      requires Serving(pid) && first <= i <= last && dataOffset <= |data|
      requires Crossing(spaces[pid], addr, |data|, pageSize, first, offset, last, end) && Granted(owners, blocks, pid)
      requires addr + dataOffset == Reached(addr, |data|, pageSize, first, last, i)
      requires WrittenTo(seen, spaces, pid, addr, data[..dataOffset])
      modifies this`spaces, this`blocks, mmu.Repr
      ensures Serving(pid) && Granted(owners, blocks, pid) && reached <= |data|
      ensures addr + reached == Reached(addr, |data|, pageSize, first, last, i + 1)
      ensures WrittenTo(seen, spaces, pid, addr, data[..reached])
    {
      ghost var before, given := spaces, blocks;
      var taken := WritePiece(pid, i, first, offset, last, end, data[dataOffset..], addr, |data|);
      GrantedTrans(owners, given, blocks, pid);
      assert data[dataOffset..][..taken] == data[dataOffset..dataOffset + taken];
      WrittenOnwards(seen, before, spaces, pid, addr, data, dataOffset, taken);
      reached := dataOffset + taken;
    }

    method WritePages(pid: nat, first: nat, offset: nat, last: nat, end: int, data: seq<byte>, ghost addr: nat)
      requires Serving(pid) && Crossing(spaces[pid], addr, |data|, pageSize, first, offset, last, end)
      modifies this`spaces, this`blocks, mmu.Repr
      ensures Serving(pid) && Granted(old(blocks), blocks, pid) && WrittenTo(old(spaces), spaces, pid, addr, data)
    {
      var dataOffset: nat := 0;
      NothingWritten(spaces, pid, addr, data);
      for i := first to last + 1
        invariant Serving(pid) && Granted(old(blocks), blocks, pid) && dataOffset <= |data|
        invariant addr + dataOffset == Reached(addr, |data|, pageSize, first, last, i)
        invariant WrittenTo(old(spaces), spaces, pid, addr, data[..dataOffset])
      {
        dataOffset := WriteNext(pid, i, first, offset, last, end, data, dataOffset, addr, old(spaces), old(blocks));
      }
      assert data[..dataOffset] == data;
    }

    /** Writes a stretch of the address space of a process, page after page; nothing else changes. */
    method HeapWrite(pid: nat, addr: nat, data: seq<byte>)
      requires Serving(pid) && addr + |data| <= |spaces[pid]|
      modifies this`spaces, this`blocks, mmu.Repr
      ensures Serving(pid) && Granted(old(blocks), blocks, pid) && WrittenTo(old(spaces), spaces, pid, addr, data)
    {
      var startPage, startOffset := addr / pageSize, addr % pageSize;
      var finishPage, finishOffset := CQuot(addr + |data| - 1, pageSize), CRem(addr + |data| - 1, pageSize);
      StretchSpans(addr, |data|, pageSize);
      if startPage == finishPage {
        WriteOn(pid, startPage, startOffset, data);
      } else if startPage < finishPage {
        WritePages(pid, startPage, startOffset, finishPage, finishOffset, data, addr);
      } else {
        NothingWritten(spaces, pid, addr, data);
      }
    }

    // ----- the size of an address space

    method PageQuantity(pid: nat) returns (pages: nat)
      requires Valid() && pid in spaces && pid !in orphans
      ensures |spaces[pid]| == PageStart(pages, pageSize) == pages * pageSize
    {
      Opens();
      SpaceLength(mmu.State(), pid, pageSize);
      mmu.Listed(pid);
      pages := |mmu.pageTables[pid]|;
      PageStartIsProduct(pages, pageSize);
    }

    lemma TableSize(pid: nat, pages: nat)
      requires Sound() && pid in spaces && |spaces[pid]| == PageStart(pages, pageSize)
      ensures pid in mmu.tables && |mmu.tables[pid]| == pages
    {
      SpaceLength(mmu.State(), pid, pageSize);
      var n := |mmu.tables[pid]|;
      PageStartOrder(n + 1, pages, pageSize);
      PageStartOrder(pages + 1, n, pageSize);
    }

    // A process has a home in swap exactly if it has an address space.
    lemma HasHome(pid: nat)
      requires Valid()
      ensures pid in shelf.home <==> pid in spaces && spaces[pid] != []
    {
      Opens();
      mmu.HasHome(pid);
      if pid in spaces {
        SpaceLength(mmu.State(), pid, pageSize);
        PageStartOrder(1, |mmu.tables[pid]|, pageSize);
      }
    }

    /** Adds pages at the end if swap has room for all of them, or else none at all. */
    method Grow(pid: nat, newPageQty: nat, lastAllocAddr: nat, ghost pages: nat) returns (ok: bool)
      requires Valid() && pid in spaces && |spaces[pid]| == PageStart(pages, pageSize)
      requires OnPage(lastAllocAddr + 9, pages - 1, pageSize)
      modifies this`spaces, this`blocks, this`shelf, mmu.Repr
      ensures Valid() && blocks == old(blocks)
      ensures pid in old(shelf).home && (ok <==> RoomForMore(old(shelf), pid, pages, newPageQty))
      ensures shelf == if ok then Filled(old(shelf), pid, newPageQty) else old(shelf)
      ensures spaces == if ok then old(spaces)[pid := old(spaces)[pid] + Zeros(newPageQty, pageSize)] else old(spaces)
    {
      Opens();
      ok := GrowTable(pid, newPageQty, lastAllocAddr, pages);
      shelf := mmu.swap.shelf;
      Record();
    }

    method GrowTable(pid: nat, newPageQty: nat, lastAllocAddr: nat, ghost pages: nat) returns (ok: bool)
      requires Sound() && this !in mmu.Repr && pid in spaces && |spaces[pid]| == PageStart(pages, pageSize)
      requires OnPage(lastAllocAddr + 9, pages - 1, pageSize)
      modifies mmu.Repr
      ensures mmu.Valid() && mmu.Owners() == blocks && mmu.past == past && mmu.orphans == orphans
      ensures pid in shelf.home && (ok <==> RoomForMore(shelf, pid, pages, newPageQty))
      ensures mmu.swap.shelf == if ok then Filled(shelf, pid, newPageQty) else shelf
      ensures mmu.Seen() == if ok then spaces[pid := spaces[pid] + Zeros(newPageQty, pageSize)] else spaces
    {
      TableSize(pid, pages);
      ok := mmu.Grow(pid, newPageQty, lastAllocAddr);
    }

    /**
     The first page of a process, if some file of swap has room for it; if not, a table
     entry without a page is left behind.
     */
    method FirstPage(pid: nat) returns (ok: bool)
      requires Valid() && pid in spaces && spaces[pid] == [] && pid !in orphans
      modifies this`spaces, this`blocks, this`past, this`shelf, this`orphans, mmu.Repr
      ensures Valid() && blocks == old(blocks) && past == old(past) && (ok <==> RoomForFirst(old(shelf)))
      ensures spaces == if ok then old(spaces)[pid := ZeroPage(pageSize)] else old(spaces)
      ensures shelf == if ok then Taken(old(shelf), pid) else old(shelf)
      ensures orphans == if ok then old(orphans) else old(orphans) + {pid}
    {
      Opens();
      ok := StartTable(pid);
      RecordAll();
    }

    method StartTable(pid: nat) returns (ok: bool)
      requires Sound() && this !in mmu.Repr && pid in spaces && spaces[pid] == [] && pid !in orphans
      modifies mmu.Repr
      ensures mmu.Valid() && mmu.Owners() == blocks && mmu.past == past && (ok <==> RoomForFirst(shelf))
      ensures mmu.Seen() == if ok then spaces[pid := ZeroPage(pageSize)] else spaces
      ensures mmu.swap.shelf == if ok then Taken(shelf, pid) else shelf
      ensures mmu.orphans == if ok then orphans else orphans + {pid}
    {
      TableSize(pid, 0);
      ok := mmu.FirstPage(pid);
    }

    /** Drops the pages from a number on; at least one stays. */
    method DropPages(pid: nat, pageToDelete: nat, ghost pages: nat)
      requires Valid() && pid in spaces && pid !in orphans
      requires 1 <= pageToDelete <= pages && |spaces[pid]| == PageStart(pages, pageSize)
      modifies this`spaces, this`blocks, this`shelf, mmu.Repr
      ensures Valid() && blocks == old(blocks) && pid in old(shelf).home
      ensures PageStart(pageToDelete, pageSize) <= |old(spaces)[pid]|
      ensures spaces == old(spaces)[pid := old(spaces)[pid][..PageStart(pageToDelete, pageSize)]]
      ensures shelf == Filled(old(shelf), pid, pageToDelete - pages)
    {
      ghost var seen, sh := spaces, shelf;
      var totalPages := PageQuantity(pid);
      PageStartOrder(totalPages + 1, pages, pageSize);
      PageStartOrder(pages + 1, totalPages, pageSize);
      PageStartOrder(1, pages, pageSize);
      WholeSpace(seen, pid);
      HasHome(pid);
      FilledNone(sh, pid);
      ghost var gone: int := 0;
      for i := totalPages downto pageToDelete
        invariant Valid() && blocks == old(blocks) && i + gone == totalPages
        invariant PageStart(i, pageSize) <= |seen[pid]| && spaces == seen[pid := seen[pid][..PageStart(i, pageSize)]]
        invariant shelf == Filled(sh, pid, -gone)
      {
        DropNext(pid, seen, sh, i, gone);
        gone := gone + 1;
      }
    }

    // Page number i, the last one left of those in seen.
    method DropNext(pid: nat, ghost seen: map<nat, seq<byte>>, ghost sh: Shelf, ghost i: nat, ghost gone: int)
      requires Valid() && i > 0 && pid in seen && pid in sh.home && PageStart(i + 1, pageSize) <= |seen[pid]|
      requires spaces == seen[pid := seen[pid][..PageStart(i + 1, pageSize)]] && shelf == Filled(sh, pid, -gone)
      modifies this`spaces, this`blocks, this`shelf, mmu.Repr
      ensures Valid() && blocks == old(blocks)
      ensures PageStart(i, pageSize) <= |seen[pid]| && spaces == seen[pid := seen[pid][..PageStart(i, pageSize)]]
      ensures shelf == Filled(sh, pid, -gone - 1)
    {
      ghost var now := spaces;
      DropLast(pid, i + 1);
      PageStartOrder(i, i + 1, pageSize);
      Shorter(seen, now, pid, PageStart(i + 1, pageSize), PageStart(i, pageSize));
      FilledTwice(sh, pid, -gone, -1);
    }

    method DropLast(pid: nat, ghost pages: nat)
      requires Valid() && pid in spaces && pages > 1 && |spaces[pid]| == PageStart(pages, pageSize)
      modifies this`spaces, this`blocks, this`shelf, mmu.Repr
      ensures Valid() && blocks == old(blocks)
      ensures PageStart(pages - 1, pageSize) <= |old(spaces)[pid]|
      ensures spaces == old(spaces)[pid := old(spaces)[pid][..PageStart(pages - 1, pageSize)]]
      ensures pid in old(shelf).home && shelf == Filled(old(shelf), pid, -1)
    {
      Opens();
      DropFromTable(pid, pages);
      shelf := mmu.swap.shelf;
      Record();
    }

    method DropFromTable(pid: nat, ghost pages: nat)
      requires Sound() && this !in mmu.Repr && pid in spaces && pages > 1 && |spaces[pid]| == PageStart(pages, pageSize)
      modifies mmu.Repr
      ensures mmu.Valid() && mmu.Owners() == blocks && mmu.past == past && mmu.orphans == orphans
      ensures PageStart(pages - 1, pageSize) <= |spaces[pid]|
      ensures mmu.Seen() == spaces[pid := spaces[pid][..PageStart(pages - 1, pageSize)]]
      ensures pid in shelf.home && mmu.swap.shelf == Filled(shelf, pid, -1)
    {
      TableSize(pid, pages);
      mmu.DropLastSeen(pid);
    }

    // ----- the handlers

    /** Reads a stretch.  One that ends with the last byte of the address space is already refused. */
    method MemRead(pid: nat, addr: nat, size: nat) returns (data: Option<seq<byte>>)
      requires Valid() && pid in spaces && spaces[pid] != [] && pid !in orphans
      requires Accepts(spaces[pid], addr, size) ==> Room(pid)
      modifies this`spaces, this`blocks, mmu.Repr
      ensures Valid() && spaces == old(spaces)
      ensures data == if addr + size < |spaces[pid]| then Some(spaces[pid][addr..addr + size]) else None
      ensures if data.Some? then Granted(old(blocks), blocks, pid) else blocks == old(blocks)
    {
      var pages := PageQuantity(pid);
      var maxAddr := pages * pageSize - 1;
      if addr + size > maxAddr {
        return None;
      }
      var content := HeapRead(pid, addr, size);
      return Some(content);
    }

    /** Writes a stretch, or refuses to. */
    method MemWrite(pid: nat, addr: nat, data: seq<byte>) returns (ok: bool)
      requires Valid() && pid in spaces && spaces[pid] != [] && pid !in orphans
      requires Accepts(spaces[pid], addr, |data|) ==> Room(pid)
      modifies this`spaces, this`blocks, mmu.Repr
      ensures Valid() && (ok <==> addr + |data| < |old(spaces)[pid]|)
      ensures if ok then WrittenTo(old(spaces), spaces, pid, addr, data) else spaces == old(spaces)
      ensures if ok then Granted(old(blocks), blocks, pid) else blocks == old(blocks)
    {
      var pages := PageQuantity(pid);
      var maxAddr := pages * pageSize - 1;
      if addr + |data| > maxAddr {
        return false;
      }
      HeapWrite(pid, addr, data);
      return true;
    }

    /** Suspends a process; no address space changes, and its block of frames becomes available. */
    method Suspend(pid: nat)
      requires Valid() && pid in spaces
      modifies this`spaces, this`blocks, mmu.Repr
      ensures Valid() && spaces == old(spaces) && blocks == Released(old(blocks), pid)
      ensures mmu.Shape() && mmu.OutOfMemory(pid)
    {
      Opens();
      mmu.Suspend(pid);
      Record();
    }

    /** A process connects. */
    method CapiId(pid: nat)
      requires Valid() && pid !in spaces && (mmu.meta.fixed ==> pid !in past)
      modifies this`spaces, this`blocks, mmu.Repr
      ensures Valid() && spaces == old(spaces)[pid := []] && blocks == old(blocks)
    {
      Opens();
      mmu.Register(pid);
      Record();
    }

    /**
     A process ends, orphan or not: its address space goes, every other one stays.  Its
     block of frames is not made available.
     */
    method CapiTerm(pid: nat, ghost pages: nat)
      requires Valid() && pid in spaces && |spaces[pid]| == PageStart(pages, pageSize)
      modifies this`spaces, this`blocks, this`past, this`shelf, this`orphans, mmu.Repr
      ensures Valid() && spaces == old(spaces) - {pid} && blocks == old(blocks) && past == old(past) + {pid}
      ensures shelf == Left(old(shelf), pid, pages) && orphans == old(orphans) - {pid}
    {
      Opens();
      EndProcess(pid, pages);
      RecordAll();
    }

    method EndProcess(pid: nat, ghost pages: nat)
      requires Sound() && this !in mmu.Repr && pid in spaces && |spaces[pid]| == PageStart(pages, pageSize)
      modifies mmu.Repr
      ensures mmu.Valid() && mmu.Seen() == spaces - {pid} && mmu.Owners() == blocks
      ensures mmu.past == past + {pid} && mmu.orphans == orphans - {pid} && mmu.swap.shelf == Left(shelf, pid, pages)
    {
      ghost var vm := mmu.State();
      TableSize(pid, pages);
      mmu.HasHome(pid);
      mmu.Terminate(pid);
      mmu.TerminatedIsValid(vm, pid);
    }

    /** Clearing the TLB is invisible. */
    method CleanTLB()
      requires Valid()
      modifies this`spaces, this`blocks, mmu.Repr
      ensures Valid() && spaces == old(spaces) && blocks == old(blocks) && mmu.tlb.cache == map[]
    {
      Opens();
      mmu.CleanTLB();
      Record();
    }
  }
}
