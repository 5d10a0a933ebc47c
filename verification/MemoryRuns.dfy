/**
 Whole runs of the memory module against a description of it that knows only
 address spaces, heaps and how full swap is: no frames, page tables, TLB, slots or
 policies.
 */
module MemoryRuns {
  import opened Bytes
  import opened Maps
  import opened SwapModel
  import opened SwapChunks
  import opened SwapShelf
  import opened SwapStore
  import opened Ram
  import opened Policies
  import opened FrameTable
  import opened Tlb
  import opened VirtualMemory
  import opened AddressSpace
  import opened Paging
  import opened Petitions
  import opened HeapHeader
  import opened HeapList
  import opened HeapBytes
  import opened Allocator

  datatype Request =
    | Connect(pid: nat)
    | Alloc(pid: nat, size: nat)
    | Free(pid: nat, addr: nat)
    | Read(pid: nat, addr: nat, size: nat)
    | Write(pid: nat, addr: nat, data: seq<byte>)
    | Suspend(pid: nat)
    | Finish(pid: nat)
    | ClearTlb

  datatype Reply = Done | Refused | Pointer(addr: nat) | Chunk(data: seq<byte>)

  // A process: its address space and the blocks of its heap.
  datatype Process = Process(space: seq<byte>, heap: Heap)

  /**
   The processes and those that ended; those whose first page found no room in swap;
   how full swap is; under fixed assignment, who may own a block of frames.
   */
  datatype World = World(live: map<nat, Process>, past: set<nat>, orphans: set<nat>, shelf: Shelf, holders: set<nat>)

  // How the module was started: under fixed assignment, with so many blocks of frames.
  datatype Setup = Setup(pageSize: nat, fixed: bool, blocks: nat)

  // ----- the description

  // The request brings pages of its process to memory, so that the process needs a block of frames.
  ghost predicate Touches(w: World, req: Request) {
    match req
    case Alloc(pid, size) => pid in w.live && !NoStart(w.shelf, w.live[pid].heap)
    case Free(pid, addr) => pid in w.live && addr < |w.live[pid].space|
    case Read(pid, addr, size) => pid in w.live && Accepts(w.live[pid].space, addr, size)
    case Write(pid, addr, data) => pid in w.live && Accepts(w.live[pid].space, addr, |data|)
    case _ => false
  }

  // A block is left for the process, if it has none.
  ghost predicate BlockLeft(w: World, pid: nat, setup: Setup) {
    setup.fixed ==> |w.holders + {pid}| <= setup.blocks
  }

  // A process that can use its heap.
  ghost predicate Able(w: World, pid: nat) {
    pid in w.live && pid !in w.orphans
  }

  // What a client may ask: it connects first, frees pointers it holds and writes inside its payloads.
  ghost predicate Legal(w: World, req: Request, setup: Setup) {
    match req
    case Connect(pid) => pid !in w.live && (setup.fixed ==> pid !in w.past)
    case Alloc(pid, size) =>
      && Able(w, pid) && Addressable(w.live[pid].space, size, 2 * setup.pageSize)
      && (Touches(w, req) ==> BlockLeft(w, pid, setup))
    case Free(pid, addr) =>
      Able(w, pid) && (Touches(w, req) ==> BlockLeft(w, pid, setup) && exists i :: Points(w.live[pid].heap, addr, i))
    case Read(pid, addr, size) =>
      Able(w, pid) && w.live[pid].heap != [] && (Touches(w, req) ==> BlockLeft(w, pid, setup))
    case Write(pid, addr, data) =>
      && Able(w, pid) && w.live[pid].heap != []
      && (Touches(w, req) ==> BlockLeft(w, pid, setup) && exists a, e :: Inside(w.live[pid].heap, a, e, addr, |data|))
    case Suspend(pid) => pid in w.live
    case Finish(pid) => pid in w.live
    case ClearTlb => true
  }

  // A stretch lies inside the payload of the block in use at a.
  ghost predicate Inside(bs: Heap, a: nat, e: nat, addr: nat, size: nat) {
    LiveAt(bs, a, e) && a + HEADER <= addr && addr + size <= e
  }

  // First fit; 0 exactly if swap has no room for the first page or for the pages behind the last block.
  ghost predicate Allocates(w: World, pid: nat, size: nat, ptr: nat, to: World, pageSize: nat)
    requires pid in w.live && pageSize > 0
  {
    var p := w.live[pid];
    if NoStart(w.shelf, p.heap) then ptr == 0 && to == w.(orphans := w.orphans + {pid})
    else
      && pid in to.live
      && var q, sh, start := to.live[pid], StartedShelf(w.shelf, pid, p.heap), Started(p.heap);
      var ok := Affords(sh, pid, start, AfterAlloc(start, size), pageSize);
      && Lies(q.space, q.heap, pageSize) && Untouched(p.heap, p.space, q.space)
      && ptr == (if ok then PointerTo(start, size) else 0)
      && q.heap == (if ok then AfterAlloc(start, size) else start)
      && (!ok && p.heap != [] ==> q == p)
      && to == w.(live := w.live[pid := q], shelf := Resized(sh, pid, start, q.heap, pageSize), holders := w.holders + {pid})
  }

  ghost predicate Frees(w: World, pid: nat, addr: nat, to: World, pageSize: nat)
    requires pid in w.live && pageSize > 0
  {
    && pid in to.live
    && var p, q := w.live[pid], to.live[pid];
    && Lies(q.space, q.heap, pageSize) && Untouched(q.heap, p.space, q.space)
    && (exists i :: Points(p.heap, addr, i) && q.heap == WithFreed(p.heap, i))
    && to == w.(live := w.live[pid := q], shelf := Resized(w.shelf, pid, p.heap, q.heap, pageSize),
                holders := w.holders + {pid})
  }

  // The reply to a request, and the world after it.
  ghost predicate Answers(w: World, req: Request, reply: Reply, to: World, setup: Setup)
    requires setup.pageSize > 0
  {
    match req
    case Connect(pid) => reply == Done && to == w.(live := w.live[pid := Process([], [])])
    case Alloc(pid, size) => pid in w.live && reply.Pointer? && Allocates(w, pid, size, reply.addr, to, setup.pageSize)
    case Free(pid, addr) =>
      && pid in w.live
      && (if Touches(w, req) then reply == Done && Frees(w, pid, addr, to, setup.pageSize) else reply == Refused && to == w)
    case Read(pid, addr, size) =>
      && pid in w.live
      && (if Touches(w, req) then
            reply == Chunk(w.live[pid].space[addr..addr + size]) && to == w.(holders := w.holders + {pid})
          else reply == Refused && to == w)
    case Write(pid, addr, data) =>
      && pid in w.live
      && (if Touches(w, req) then
            && reply == Done && pid in to.live && to.live[pid].heap == w.live[pid].heap
            && Spliced(w.live[pid].space, to.live[pid].space, addr, data)
            && to == w.(live := w.live[pid := to.live[pid]], holders := w.holders + {pid})
          else reply == Refused && to == w)
    case Suspend(pid) => reply == Done && to == w.(holders := w.holders - {pid})
    case Finish(pid) =>
      && pid in w.live && reply == Done
      && to == w.(live := w.live - {pid}, past := w.past + {pid}, orphans := w.orphans - {pid},
                  shelf := Left(w.shelf, pid, PagesIn(w.live[pid].heap, setup.pageSize)))
    case ClearTlb => reply == Done && to == w
  }

  // ----- a server stands for a world

  ghost function SpacesOf(live: map<nat, Process>): map<nat, seq<byte>> {
    map pid | pid in live :: live[pid].space
  }

  ghost predicate HeapsLie(live: map<nat, Process>, pageSize: nat) {
    forall pid :: pid in live ==> HeapOf(live[pid].space, live[pid].heap, pageSize)
  }

  // Every owner of a block is among the holders.
  ghost predicate OwnersHold(blocks: seq<int>, holders: set<nat>) {
    forall b :: 0 <= b < |blocks| && blocks[b] != -1 ==> blocks[b] >= 0 && blocks[b] in holders
  }

  ghost predicate Stands(s: Server, w: World, setup: Setup)
    reads s, s.mmu, s.mmu.Repr
  {
    && s.Valid() && s.pageSize > HEADER && setup == Setup(s.pageSize, s.mmu.meta.fixed, |s.blocks|)
    && s.spaces == SpacesOf(w.live) && HeapsLie(w.live, s.pageSize)
    && s.past == w.past && s.orphans == w.orphans && s.shelf == w.shelf && OwnersHold(s.blocks, w.holders)
  }

  lemma SpacesAfter(live: map<nat, Process>, pid: nat, p: Process)
    ensures SpacesOf(live[pid := p]) == SpacesOf(live)[pid := p.space]
  {
    SameMap(SpacesOf(live[pid := p]), SpacesOf(live)[pid := p.space]);
  }

  lemma SpacesWithout(live: map<nat, Process>, pid: nat)
    ensures SpacesOf(live - {pid}) == SpacesOf(live) - {pid}
  {
    SameMap(SpacesOf(live - {pid}), SpacesOf(live) - {pid});
  }

  // ----- blocks of frames, under fixed assignment

  lemma {:induction false} DistinctCount(owners: seq<int>, pids: set<nat>)
    requires OwnersDistinct(owners)
    requires forall b :: 0 <= b < |owners| ==> owners[b] != -1 && owners[b] >= 0 && owners[b] in pids
    ensures |owners| <= |pids|
    decreases |owners|
  {
    if owners != [] {
      var n := |owners| - 1;
      DistinctCount(owners[..n], pids - {owners[n]});
    }
  }

  /** While fewer processes than there are blocks may own one, another one gets a block. */
  lemma HoldersLeaveRoom(blocks: seq<int>, holders: set<nat>, pid: nat)
    requires OwnersDistinct(blocks) && OwnersHold(blocks, holders) && |holders + {pid}| <= |blocks|
    ensures Placeable(blocks, pid)
  {
    if !Placeable(blocks, pid) {
      DistinctCount(blocks, holders + {pid} - {pid});
    }
  }

  lemma HasRoom(s: Server, w: World, pid: nat, setup: Setup)
    requires Stands(s, w, setup) && BlockLeft(w, pid, setup)
    ensures s.Room(pid)
  {
    s.BlocksDistinct();
    if s.mmu.meta.fixed {
      HoldersLeaveRoom(s.blocks, w.holders, pid);
    }
  }

  lemma GrantedHold(blocks: seq<int>, after: seq<int>, pid: nat, holders: set<nat>)
    requires OwnersHold(blocks, holders) && Granted(blocks, after, pid)
    ensures OwnersHold(after, holders + {pid})
  {
  }

  // ----- one request

  // A process of the world, as the server knows it.
  lemma Known(s: Server, w: World, pid: nat, setup: Setup)
    requires Stands(s, w, setup) && pid in w.live
    ensures pid in s.spaces && s.spaces[pid] == w.live[pid].space
    ensures HeapOf(w.live[pid].space, w.live[pid].heap, s.pageSize)
    ensures w.live[pid].space == [] <==> w.live[pid].heap == []
    ensures |s.spaces[pid]| == PageStart(PagesIn(w.live[pid].heap, s.pageSize), s.pageSize)
  {
    var p := w.live[pid];
    assert HeapOf(p.space, p.heap, s.pageSize);
    if p.space != [] {
      LiesOnPages(p.space, p.heap, s.pageSize);
    }
  }

  // Only one address space changed, and its heap is known.
  lemma OneChanged(live: map<nat, Process>, before: map<nat, seq<byte>>, after: map<nat, seq<byte>>,
                   pid: nat, q: Process, pageSize: nat)
    requires HeapsLie(live, pageSize) && before == SpacesOf(live) && after == before[pid := q.space]
    requires HeapOf(q.space, q.heap, pageSize)
    ensures after == SpacesOf(live[pid := q]) && HeapsLie(live[pid := q], pageSize)
  {
    SpacesAfter(live, pid, q);
  }

  method ServeAlloc(s: Server, pid: nat, size: nat, ghost w: World, ghost setup: Setup)
    returns (reply: Reply, ghost to: World)
    requires Stands(s, w, setup) && Legal(w, Alloc(pid, size), setup)
    modifies s, s.mmu.Repr
    ensures Stands(s, to, setup) && Answers(w, Alloc(pid, size), reply, to, setup)
  {
    Known(s, w, pid, setup);
    ghost var p, spaces, blocks := w.live[pid], s.spaces, s.blocks;
    if BlockLeft(w, pid, setup) {
      HasRoom(s, w, pid, setup);
    }
    var ptr;
    ghost var after;
    ptr, after := MemAlloc(s, pid, size, p.heap);
    reply := Pointer(ptr);
    if NoStart(w.shelf, p.heap) {
      to := w.(orphans := w.orphans + {pid});
    } else {
      ghost var q := Process(s.spaces[pid], after);
      to := w.(live := w.live[pid := q], shelf := s.shelf, holders := w.holders + {pid});
      LiesIsHeap(q.space, after, s.pageSize);
      OneChanged(w.live, spaces, s.spaces, pid, q, s.pageSize);
      GrantedHold(blocks, s.blocks, pid, w.holders);
    }
  }

  method ServeFree(s: Server, pid: nat, addr: nat, ghost w: World, ghost setup: Setup)
    returns (reply: Reply, ghost to: World)
    requires Stands(s, w, setup) && Legal(w, Free(pid, addr), setup)
    modifies s, s.mmu.Repr
    ensures Stands(s, to, setup) && Answers(w, Free(pid, addr), reply, to, setup)
  {
    Known(s, w, pid, setup);
    ghost var p, spaces, blocks := w.live[pid], s.spaces, s.blocks;
    if BlockLeft(w, pid, setup) {
      HasRoom(s, w, pid, setup);
    }
    var ok;
    ghost var after;
    ok, after := MemFree(s, pid, addr, p.heap);
    reply := if ok then Done else Refused;
    to := w;
    if ok {
      ghost var q := Process(s.spaces[pid], after);
      to := w.(live := w.live[pid := q], shelf := s.shelf, holders := w.holders + {pid});
      LiesIsHeap(q.space, after, s.pageSize);
      OneChanged(w.live, spaces, s.spaces, pid, q, s.pageSize);
      GrantedHold(blocks, s.blocks, pid, w.holders);
    }
  }

  method ServeRead(s: Server, pid: nat, addr: nat, size: nat, ghost w: World, ghost setup: Setup)
    returns (reply: Reply, ghost to: World)
    requires Stands(s, w, setup) && Legal(w, Read(pid, addr, size), setup)
    modifies s, s.mmu.Repr
    ensures Stands(s, to, setup) && Answers(w, Read(pid, addr, size), reply, to, setup)
  {
    Known(s, w, pid, setup);
    ghost var blocks := s.blocks;
    if BlockLeft(w, pid, setup) {
      HasRoom(s, w, pid, setup);
    }
    var data := s.MemRead(pid, addr, size);
    reply := if data.Some? then Chunk(data.value) else Refused;
    to := w;
    if data.Some? {
      to := w.(holders := w.holders + {pid});
      GrantedHold(blocks, s.blocks, pid, w.holders);
    }
  }

  method ServeWrite(s: Server, pid: nat, addr: nat, data: seq<byte>, ghost w: World, ghost setup: Setup)
    returns (reply: Reply, ghost to: World)
    requires Stands(s, w, setup) && Legal(w, Write(pid, addr, data), setup)
    modifies s, s.mmu.Repr
    ensures Stands(s, to, setup) && Answers(w, Write(pid, addr, data), reply, to, setup)
  {
    Known(s, w, pid, setup);
    ghost var p, spaces, blocks := w.live[pid], s.spaces, s.blocks;
    if BlockLeft(w, pid, setup) {
      HasRoom(s, w, pid, setup);
    }
    var ok := s.MemWrite(pid, addr, data);
    reply := if ok then Done else Refused;
    to := w;
    if ok {
      ghost var a, e :| Inside(p.heap, a, e, addr, |data|);
      ghost var q := Process(s.spaces[pid], p.heap);
      PayloadWriteKeepsHeap(p.space, q.space, p.heap, a, e, addr, data, s.pageSize);
      to := w.(live := w.live[pid := q], holders := w.holders + {pid});
      LiesIsHeap(q.space, q.heap, s.pageSize);
      OneChanged(w.live, spaces, s.spaces, pid, q, s.pageSize);
      GrantedHold(blocks, s.blocks, pid, w.holders);
    }
  }

  method ServeSuspend(s: Server, pid: nat, ghost w: World, ghost setup: Setup)
    returns (reply: Reply, ghost to: World)
    requires Stands(s, w, setup) && Legal(w, Suspend(pid), setup)
    modifies s, s.mmu.Repr
    ensures Stands(s, to, setup) && Answers(w, Suspend(pid), reply, to, setup)
    ensures s.mmu.Shape() && s.mmu.OutOfMemory(pid)
  {
    s.Suspend(pid);
    reply, to := Done, w.(holders := w.holders - {pid});
  }

  method ServeConnect(s: Server, pid: nat, ghost w: World, ghost setup: Setup)
    returns (reply: Reply, ghost to: World)
    requires Stands(s, w, setup) && Legal(w, Connect(pid), setup)
    modifies s, s.mmu.Repr
    ensures Stands(s, to, setup) && Answers(w, Connect(pid), reply, to, setup)
  {
    ghost var spaces := s.spaces;
    s.CapiId(pid);
    reply, to := Done, w.(live := w.live[pid := Process([], [])]);
    OneChanged(w.live, spaces, s.spaces, pid, Process([], []), s.pageSize);
  }

  method ServeFinish(s: Server, pid: nat, ghost w: World, ghost setup: Setup)
    returns (reply: Reply, ghost to: World)
    requires Stands(s, w, setup) && Legal(w, Finish(pid), setup)
    modifies s, s.mmu.Repr
    ensures Stands(s, to, setup) && Answers(w, Finish(pid), reply, to, setup)
  {
    Known(s, w, pid, setup);
    SpacesWithout(w.live, pid);
    ghost var pages := PagesIn(w.live[pid].heap, s.pageSize);
    s.CapiTerm(pid, pages);
    reply := Done;
    to := w.(live := w.live - {pid}, past := w.past + {pid}, orphans := w.orphans - {pid}, shelf := Left(w.shelf, pid, pages));
  }

  method ServeClear(s: Server, ghost w: World, ghost setup: Setup) returns (reply: Reply, ghost to: World)
    requires Stands(s, w, setup)
    modifies s, s.mmu.Repr
    ensures Stands(s, to, setup) && Answers(w, ClearTlb, reply, to, setup) && s.mmu.tlb.cache == map[]
  {
    s.CleanTLB();
    reply, to := Done, w;
  }

  // ----- whole runs

  // A client picks each request from the replies it got so far.
  type Client = seq<Reply> -> Request

  // Whatever the replies, the next n requests of the client are legal.
  ghost predicate Behaves(client: Client, w: World, replies: seq<Reply>, n: nat, setup: Setup)
    requires setup.pageSize > 0
    decreases n
  {
    n > 0 ==>
      && Legal(w, client(replies), setup)
      && forall reply: Reply, to: World {:trigger Answers(w, client(replies), reply, to, setup)} ::
           Answers(w, client(replies), reply, to, setup) ==> Behaves(client, to, replies + [reply], n - 1, setup)
  }

  // The worlds a run goes through.
  ghost predicate Explains(client: Client, replies: seq<Reply>, trace: seq<World>, setup: Setup)
    requires setup.pageSize > 0
  {
    && |trace| == |replies| + 1
    && forall k: nat {:trigger Step(client, replies, trace, k, setup)} :: k < |replies| ==> Step(client, replies, trace, k, setup)
  }

  ghost predicate Step(client: Client, replies: seq<Reply>, trace: seq<World>, k: nat, setup: Setup)
    requires k < |replies| && k + 1 < |trace| && setup.pageSize > 0
  {
    Answers(trace[k], client(replies[..k]), replies[k], trace[k + 1], setup)
  }

  lemma ExplainsMore(client: Client, replies: seq<Reply>, trace: seq<World>, reply: Reply, to: World, setup: Setup)
    requires setup.pageSize > 0 && Explains(client, replies, trace, setup)
    requires Answers(trace[|replies|], client(replies), reply, to, setup)
    ensures Explains(client, replies + [reply], trace + [to], setup)
  {
    var rs, ts := replies + [reply], trace + [to];
    forall k: nat | k < |rs| ensures Step(client, rs, ts, k, setup) {
      if k < |replies| {
        assert Step(client, replies, trace, k, setup);
        assert rs[..k] == replies[..k];
      } else {
        assert rs[..k] == replies;
      }
    }
  }

  /** Every request gets the reply the description gives it. */
  method Serve(s: Server, req: Request, ghost w: World, ghost setup: Setup) returns (reply: Reply, ghost to: World)
    requires Stands(s, w, setup) && Legal(w, req, setup)
    modifies s, s.mmu.Repr
    ensures Stands(s, to, setup) && Answers(w, req, reply, to, setup)
    ensures req.Suspend? ==> s.mmu.Shape() && s.mmu.OutOfMemory(req.pid)
    ensures req.ClearTlb? ==> s.mmu.tlb.cache == map[]
  {
    match req
    case Connect(pid) => reply, to := ServeConnect(s, pid, w, setup);
    case Alloc(pid, size) => reply, to := ServeAlloc(s, pid, size, w, setup);
    case Free(pid, addr) => reply, to := ServeFree(s, pid, addr, w, setup);
    case Read(pid, addr, size) => reply, to := ServeRead(s, pid, addr, size, w, setup);
    case Write(pid, addr, data) => reply, to := ServeWrite(s, pid, addr, data, w, setup);
    case Suspend(pid) => reply, to := ServeSuspend(s, pid, w, setup);
    case Finish(pid) => reply, to := ServeFinish(s, pid, w, setup);
    case ClearTlb => reply, to := ServeClear(s, w, setup);
  }

  /**
   Paging is invisible: whatever well-behaved clients ask, under either replacement
   policy and either assignment, the replies are those of address spaces and heaps
   alone, and an allocation fails exactly when swap is too full for it.  Processes that
   cannot get their first page do not disturb the others.
   */
  method Run(s: Server, client: Client, n: nat, ghost w: World, ghost setup: Setup)
    returns (replies: seq<Reply>, ghost trace: seq<World>)
    requires Stands(s, w, setup) && Behaves(client, w, [], n, setup)
    modifies s, s.mmu.Repr
    ensures setup.pageSize > 0 && Explains(client, replies, trace, setup) && trace[0] == w && |replies| == n
    ensures Stands(s, trace[n], setup)
  {
    replies, trace := [], [w];
    for k := 0 to n
      invariant |replies| == k && Explains(client, replies, trace, setup) && trace[0] == w
      invariant Stands(s, trace[k], setup) && Behaves(client, trace[k], replies, n - k, setup)
    {
      var reply;
      ghost var to;
      reply, to := Serve(s, client(replies), trace[k], setup);
      ExplainsMore(client, replies, trace, reply, to, setup);
      replies, trace := replies + [reply], trace + [to];
    }
  }

  function BlockQty(frameQty: nat, fixed: bool, framesPerProcess: nat): nat
    requires fixed ==> framesPerProcess > 0
  {
    if fixed then frameQty / framesPerProcess else 0
  }

  function BlankWorld(shelf: Shelf): World {
    World(map[], {0}, {}, shelf, {})
  }

  method NewMmu(frameQty: nat, pageSize: nat, fixed: bool, framesPerProcess: nat, lru: bool, tlbSize: nat, tlbLru: bool,
                fileQty: nat, maxPages: nat, maxFrames: nat) returns (mmu: Mmu)
    requires (if fixed then framesPerProcess else frameQty) >= (if lru then 2 else 1)
    requires fixed ==> maxFrames > 0 && Offset(maxPages, maxFrames) == 0
    ensures mmu.Valid() && mmu.tables == map[] && mmu.orphans == {} && mmu.past == {0}
    ensures mmu.pageSize == pageSize && mmu.meta.fixed == fixed && mmu.lru == lru
    ensures mmu.swap.shelf == BlankShelf(fileQty, maxPages, fixed, maxFrames)
    ensures |mmu.Owners()| == BlockQty(frameQty, fixed, framesPerProcess) && OwnersHold(mmu.Owners(), {})
  {
    var ram := new Memory(frameQty, pageSize);
    var meta := new Frames(frameQty, fixed, framesPerProcess);
    var tlb := new TlbBuffer(tlbSize, tlbLru);
    var swap := new SwapSpace(fileQty, maxPages, pageSize, fixed, maxFrames);
    mmu := new Mmu(ram, meta, tlb, swap, lru);
  }

  /** A server just started stands for a world without processes, with all of swap free. */
  method Boot(frameQty: nat, pageSize: nat, fixed: bool, framesPerProcess: nat, lru: bool, tlbSize: nat, tlbLru: bool,
              fileQty: nat, maxPages: nat, maxFrames: nat) returns (s: Server)
    requires pageSize > HEADER && (if fixed then framesPerProcess else frameQty) >= (if lru then 2 else 1)
    requires fixed ==> maxFrames > 0 && Offset(maxPages, maxFrames) == 0
    ensures Stands(s, BlankWorld(BlankShelf(fileQty, maxPages, fixed, maxFrames)),
                   Setup(pageSize, fixed, BlockQty(frameQty, fixed, framesPerProcess)))
  {
    var mmu := NewMmu(frameQty, pageSize, fixed, framesPerProcess, lru, tlbSize, tlbLru, fileQty, maxPages, maxFrames);
    s := new Server(mmu);
    assert SpacesOf(map[]) == map[];
  }

  // ----- worlds that occur

  // Heaps lie in their address spaces, and exactly the processes with a heap have pages in swap.
  ghost predicate Sane(w: World, setup: Setup) {
    && setup.pageSize > 0 && HeapsLie(w.live, setup.pageSize)
    && Homed(w.live, w.shelf.home)
  }

  lemma StandsIsSane(s: Server, w: World, setup: Setup)
    requires Stands(s, w, setup)
    ensures Sane(w, setup)
  {
    forall pid ensures pid in w.shelf.home <==> pid in w.live && w.live[pid].heap != [] {
      s.HasHome(pid);
      if pid in w.live {
        Known(s, w, pid, setup);
      }
    }
  }

  lemma LiveFits(s: seq<byte>, bs: Heap, a: nat, e: nat, pageSize: nat)
    requires Lies(s, bs, pageSize) && LiveAt(bs, a, e)
    ensures a + HEADER <= e && e + HEADER <= |s|
  {
    var i: nat :| InUse(bs, i) && bs[i].addr == a && bs[i + 1].addr == e;
    Ascending(bs, i, i + 1);
    HeaderLies(s, bs, i + 1);
  }

  lemma LiesIsHeap(s: seq<byte>, bs: Heap, pageSize: nat)
    requires Lies(s, bs, pageSize)
    ensures HeapOf(s, bs, pageSize)
  {
    HeaderLies(s, bs, 0);
  }

  lemma AnswerKeepsHeaps(w: World, req: Request, reply: Reply, to: World, setup: Setup)
    requires Sane(w, setup) && Legal(w, req, setup) && Answers(w, req, reply, to, setup)
    ensures HeapsLie(to.live, setup.pageSize)
  {
    if req.Write? && Touches(w, req) {
      var p, q := w.live[req.pid], to.live[req.pid];
      var a, e :| Inside(p.heap, a, e, req.addr, |req.data|);
      PayloadWriteKeepsHeap(p.space, q.space, p.heap, a, e, req.addr, req.data, setup.pageSize);
      LiesIsHeap(q.space, q.heap, setup.pageSize);
    } else if (req.Alloc? || req.Free?) && Touches(w, req) {
      LiesIsHeap(to.live[req.pid].space, to.live[req.pid].heap, setup.pageSize);
    }
  }

  // Exactly the processes with a heap have pages in swap.
  ghost predicate Homed(live: map<nat, Process>, home: map<nat, nat>) {
    forall pid :: pid in home <==> pid in live && live[pid].heap != []
  }

  lemma AllocKeepsHomed(w: World, pid: nat, size: nat, ptr: nat, to: World, pageSize: nat)
    requires pid in w.live && pageSize > 0 && Homed(w.live, w.shelf.home) && Allocates(w, pid, size, ptr, to, pageSize)
    ensures Homed(to.live, to.shelf.home)
  {
  }

  lemma FreeKeepsHomed(w: World, pid: nat, addr: nat, to: World, pageSize: nat)
    requires pid in w.live && pageSize > 0 && Homed(w.live, w.shelf.home) && Frees(w, pid, addr, to, pageSize)
    ensures Homed(to.live, to.shelf.home)
  {
  }

  lemma AnswerKeepsSane(w: World, req: Request, reply: Reply, to: World, setup: Setup)
    requires Sane(w, setup) && Legal(w, req, setup) && Answers(w, req, reply, to, setup)
    ensures Sane(to, setup)
  {
    AnswerKeepsHeaps(w, req, reply, to, setup);
    match req
    case Alloc(pid, size) => AllocKeepsHomed(w, pid, size, reply.addr, to, setup.pageSize);
    case Free(pid, addr) =>
      if Touches(w, req) {
        FreeKeepsHomed(w, pid, addr, to, setup.pageSize);
      }
    case _ =>
  }

  // ----- when an allocation fails

  /**
   In a heap that is not empty an allocation fails if and only if no block fits and the
   pages behind the last block do not fit in the chunk of the process or in its file.
   */
  lemma RefusedIffFull(w: World, pid: nat, size: nat, reply: Reply, to: World, setup: Setup)
    requires Sane(w, setup) && pid in w.live && w.live[pid].heap != []
    requires Answers(w, Alloc(pid, size), reply, to, setup)
    ensures pid in w.shelf.home
    ensures var bs := w.live[pid].heap;
      var before, after := PagesIn(bs, setup.pageSize), PagesIn(Allocated(bs, |bs| - 1, size), setup.pageSize);
      reply == Pointer(0) <==>
        && NothingFits(bs, size)
        && before < after
        && (if w.shelf.fixed then after > w.shelf.size else after - before > Spare(w.shelf, w.shelf.home[pid]))
  {
    var bs := w.live[pid].heap;
    NothingFitsIs(bs, size);
    var i := FirstFitFrom(bs, size, 0);
    FirstFitHolds(bs, size, 0);
    if i + 1 < |bs| {
      FitTakesNoPages(bs, i, size, setup.pageSize);
    }
  }

  /** The first allocation fails if and only if it finds no file with room, or the room it finds is too little. */
  lemma FirstRefusedIffFull(w: World, pid: nat, size: nat, reply: Reply, to: World, setup: Setup)
    requires Sane(w, setup) && pid in w.live && w.live[pid].heap == []
    requires Answers(w, Alloc(pid, size), reply, to, setup)
    ensures var sh, start := Taken(w.shelf, pid), Started([]);
      var pages := PagesIn(Allocated(start, 0, size), setup.pageSize);
      reply == Pointer(0) <==>
        || !RoomForFirst(w.shelf)
        || (PagesIn(start, setup.pageSize) < pages &&
            if sh.fixed then pages > sh.size else pages - PagesIn(start, setup.pageSize) > Spare(sh, sh.home[pid]))
  {
    FirstFitHolds(Started([]), size, 0);
  }

  // The payload an allocation gave is a block in use that lies in the address space.
  lemma GivenIsHeld(s: seq<byte>, bs: Heap, to: Heap, size: nat, ptr: nat, pageSize: nat) returns (i: nat, e: nat)
    requires GivesPayload(bs, to, size, ptr) && Lies(s, to, pageSize)
    ensures Points(to, ptr, i) && ptr >= HEADER && Inside(to, ptr - HEADER, e, ptr, size) && ptr + size < |s|
  {
    var a: nat;
    a, e :| LiveAt(to, a, e) && a + HEADER == ptr && ptr + size <= e <= ptr + size + HEADER;
    LiveFits(s, to, a, e, pageSize);
    i :| InUse(to, i) && to[i].addr == a && to[i + 1].addr == e;
  }

  /**
   The pointer an allocation returned may be freed, and as many bytes as were asked for
   may be written and read there, as soon as a block of frames is left.
   */
  lemma PointerIsUsable(w: World, pid: nat, size: nat, ptr: nat, to: World, setup: Setup, data: seq<byte>)
    requires Sane(w, setup) && Able(w, pid) && Answers(w, Alloc(pid, size), Pointer(ptr), to, setup)
    requires ptr != 0 && |data| <= size
    ensures Able(to, pid) && (exists i :: Points(to.live[pid].heap, ptr, i))
    ensures exists a: nat, e: nat :: Inside(to.live[pid].heap, a, e, ptr, size) && a + HEADER == ptr
    ensures Touches(to, Free(pid, ptr)) && Touches(to, Write(pid, ptr, data)) && Touches(to, Read(pid, ptr, |data|))
    ensures BlockLeft(to, pid, setup) ==>
      && Legal(to, Free(pid, ptr), setup) && Legal(to, Write(pid, ptr, data), setup) && Legal(to, Read(pid, ptr, |data|), setup)
  {
    var q, start := to.live[pid], Started(w.live[pid].heap);
    assert HeapOf(w.live[pid].space, w.live[pid].heap, setup.pageSize);
    PointerIsNewPayload(start, size);
    var i, e := GivenIsHeld(q.space, start, q.heap, size, ptr, setup.pageSize);
    assert Inside(q.heap, ptr - HEADER, e, ptr, |data|);
  }

  // The pointer an allocation returned points to the block it took.
  lemma PointsToNew(bs: Heap, size: nat, j: nat)
    requires Wf(bs) && Wf(AfterAlloc(bs, size)) && Points(AfterAlloc(bs, size), PointerTo(bs, size), j)
    ensures WithFreed(AfterAlloc(bs, size), j) == bs && FirstFit(bs, size, j) && AfterAlloc(bs, size) == Allocated(bs, j, size)
  {
    var i := FirstFitFrom(bs, size, 0);
    FirstFitHolds(bs, size, 0);
    FreeUndoesAlloc(bs, i, size);
    AllocatedAt(bs, i, size, i);
    SameBlock(AfterAlloc(bs, size), i, j);
  }

  lemma PointsInside(s: seq<byte>, bs: Heap, size: nat, pageSize: nat)
    requires Wf(bs) && Lies(s, AfterAlloc(bs, size), pageSize)
    ensures PointerTo(bs, size) < |s|
  {
    var i := FirstFitFrom(bs, size, 0);
    FirstFitHolds(bs, size, 0);
    FreeUndoesAlloc(bs, i, size);
    AllocatedAt(bs, i, size, i);
    PointerInside(s, AfterAlloc(bs, size), i, pageSize);
  }

  lemma ResizedBack(sh: Shelf, pid: nat, bs: Heap, after: Heap, pageSize: nat)
    requires pageSize > 0
    ensures Resized(Resized(sh, pid, bs, after, pageSize), pid, after, bs, pageSize) == sh
  {
    if pid in sh.home {
      var k := PagesIn(after, pageSize) - PagesIn(bs, pageSize);
      FilledTwice(sh, pid, k, -k);
      FilledNone(sh, pid);
    }
  }

  // The heap after a free of the pointer that an allocation returned.
  lemma FreedHeap(mid: World, to: World, pid: nat, size: nat, bs: Heap, pageSize: nat)
    requires Wf(bs) && pid in mid.live && pageSize > 0 && mid.live[pid].heap == AfterAlloc(bs, size)
    requires Wf(AfterAlloc(bs, size)) && Frees(mid, pid, PointerTo(bs, size), to, pageSize)
    ensures to.live[pid].heap == bs
  {
    var after := AfterAlloc(bs, size);
    var j: nat :| Points(after, PointerTo(bs, size), j) && to.live[pid].heap == WithFreed(after, j);
    PointsToNew(bs, size, j);
  }

  lemma SameHeapSameLength(s: seq<byte>, t: seq<byte>, bs: Heap, pageSize: nat)
    requires Lies(s, bs, pageSize) && Lies(t, bs, pageSize) && pageSize > 0
    ensures |s| == |t|
  {
    LiesOnPages(s, bs, pageSize);
    LiesOnPages(t, bs, pageSize);
  }

  /** Freeing what was just allocated gives back the heap, the pages and the room in swap. */
  lemma FreeingUndoes(w: World, mid: World, to: World, pid: nat, size: nat, ptr: nat, reply: Reply, setup: Setup)
    requires Sane(w, setup) && pid in w.live && w.live[pid].heap != [] && ptr != 0
    requires Answers(w, Alloc(pid, size), Pointer(ptr), mid, setup)
    requires Answers(mid, Free(pid, ptr), reply, to, setup)
    ensures reply == Done && to.live[pid].heap == w.live[pid].heap && |to.live[pid].space| == |w.live[pid].space|
    ensures to.shelf == w.shelf && to.live == w.live[pid := to.live[pid]]
  {
    var bs := w.live[pid].heap;
    assert HeapOf(w.live[pid].space, bs, setup.pageSize);
    PointsInside(mid.live[pid].space, bs, size, setup.pageSize);
    FreedHeap(mid, to, pid, size, bs, setup.pageSize);
    SameHeapSameLength(w.live[pid].space, to.live[pid].space, bs, setup.pageSize);
    ResizedBack(w.shelf, pid, bs, AfterAlloc(bs, size), setup.pageSize);
  }

  lemma PointerInside(s: seq<byte>, bs: Heap, i: nat, pageSize: nat)
    requires Lies(s, bs, pageSize) && InUse(bs, i)
    ensures bs[i].addr + HEADER < |s|
  {
    HeaderLies(s, bs, i + 1);
    Ascending(bs, i, i + 1);
  }

  lemma SameBlock(bs: Heap, i: nat, j: nat)
    requires Wf(bs) && i < |bs| && j < |bs| && bs[i].addr == bs[j].addr
    ensures i == j
  {
    if i < j {
      Ascending(bs, i, j);
    } else if j < i {
      Ascending(bs, j, i);
    }
  }

  // ----- what a run keeps

  // The request neither ends the process, nor frees the block at a, nor writes any of the bytes lo to hi.
  ghost predicate Spares(req: Request, pid: nat, a: nat, lo: nat, hi: nat) {
    && req != Finish(pid)
    && req != Free(pid, a + HEADER)
    && (req.Write? && req.pid == pid ==> req.addr + |req.data| <= lo || hi <= req.addr)
  }

  // The block at a of a process is in use up to e.
  ghost predicate Holds(w: World, pid: nat, a: nat, e: nat) {
    pid in w.live && LiveAt(w.live[pid].heap, a, e)
  }

  lemma AllocKeepsBlock(w: World, pid: nat, size: nat, ptr: nat, to: World, pageSize: nat, a: nat, e: nat)
    requires pid in w.live && pageSize > 0 && Lies(w.live[pid].space, w.live[pid].heap, pageSize)
    requires Allocates(w, pid, size, ptr, to, pageSize) && LiveAt(w.live[pid].heap, a, e)
    ensures pid in to.live && LiveAt(to.live[pid].heap, a, e)
    ensures SameBytes(w.live[pid].space, to.live[pid].space, a + HEADER, e)
  {
    var bs := w.live[pid].heap;
    LiveFits(w.live[pid].space, bs, a, e, pageSize);
    FirstFitHolds(bs, size, 0);
    AllocAddsOne(bs, FirstFitFrom(bs, size, 0), size, a, e);
  }

  lemma FreeKeepsBlock(w: World, pid: nat, addr: nat, to: World, pageSize: nat, a: nat, e: nat)
    requires pid in w.live && pageSize > 0 && Lies(w.live[pid].space, w.live[pid].heap, pageSize)
    requires Frees(w, pid, addr, to, pageSize) && LiveAt(w.live[pid].heap, a, e) && addr != a + HEADER
    ensures LiveAt(to.live[pid].heap, a, e)
    ensures SameBytes(w.live[pid].space, to.live[pid].space, a + HEADER, e)
  {
    var bs := w.live[pid].heap;
    LiveFits(w.live[pid].space, bs, a, e, pageSize);
    var i :| Points(bs, addr, i) && to.live[pid].heap == WithFreed(bs, i);
    FreeTakesOne(bs, i, a, e);
  }

  /** A request that spares some bytes of a payload keeps them, whichever process it comes from. */
  lemma StepKeepsPayload(w: World, req: Request, reply: Reply, to: World, setup: Setup,
                         pid: nat, a: nat, e: nat, lo: nat, hi: nat)
    requires Sane(w, setup) && Legal(w, req, setup) && Answers(w, req, reply, to, setup)
    requires Holds(w, pid, a, e) && a + HEADER <= lo <= hi <= e && Spares(req, pid, a, lo, hi)
    ensures Holds(to, pid, a, e) && SameBytes(w.live[pid].space, to.live[pid].space, lo, hi)
  {
    var p := w.live[pid];
    LiveFits(p.space, p.heap, a, e, setup.pageSize);
    if req.Alloc? && req.pid == pid {
      AllocKeepsBlock(w, pid, req.size, reply.addr, to, setup.pageSize, a, e);
    } else if req.Free? && req.pid == pid && Touches(w, req) {
      FreeKeepsBlock(w, pid, req.addr, to, setup.pageSize, a, e);
    }
  }

  // Along a run the client keeps behaving, and heaps keep lying in their address spaces.
  lemma {:induction false} BehavesAlong(client: Client, replies: seq<Reply>, trace: seq<World>, n: nat, setup: Setup, k: nat)
    requires setup.pageSize > 0 && Explains(client, replies, trace, setup)
    requires Behaves(client, trace[0], [], n, setup) && Sane(trace[0], setup)
    requires k <= |replies| <= n
    ensures Behaves(client, trace[k], replies[..k], n - k, setup) && Sane(trace[k], setup)
    decreases k
  {
    if k == 0 {
      assert replies[..0] == [];
    } else {
      BehavesAlong(client, replies, trace, n, setup, k - 1);
      assert Step(client, replies, trace, k - 1, setup);
      AnswerKeepsSane(trace[k - 1], client(replies[..k - 1]), replies[k - 1], trace[k], setup);
      assert replies[..k] == replies[..k - 1] + [replies[k - 1]];
    }
  }

  // The client spares bytes lo to hi of the block at a in every step from i on, before j.
  ghost predicate SparedFor(client: Client, replies: seq<Reply>, i: nat, j: nat, pid: nat, a: nat, lo: nat, hi: nat) {
    forall k: nat {:trigger replies[..k]} :: i <= k < j && k <= |replies| ==> Spares(client(replies[..k]), pid, a, lo, hi)
  }

  lemma {:induction false} RunKeepsPayload(client: Client, replies: seq<Reply>, trace: seq<World>, n: nat, setup: Setup,
                                           i: nat, j: nat, pid: nat, a: nat, e: nat, lo: nat, hi: nat)
    requires setup.pageSize > 0 && Explains(client, replies, trace, setup)
    requires Behaves(client, trace[0], [], n, setup) && Sane(trace[0], setup)
    requires i <= j <= |replies| <= n && SparedFor(client, replies, i, j, pid, a, lo, hi)
    requires Holds(trace[i], pid, a, e) && a + HEADER <= lo <= hi <= e
    ensures Holds(trace[j], pid, a, e) && SameBytes(trace[i].live[pid].space, trace[j].live[pid].space, lo, hi)
    decreases j
  {
    if i == j {
      BehavesAlong(client, replies, trace, n, setup, i);
      LiveFits(trace[i].live[pid].space, trace[i].live[pid].heap, a, e, setup.pageSize);
    } else {
      RunKeepsPayload(client, replies, trace, n, setup, i, j - 1, pid, a, e, lo, hi);
      BehavesAlong(client, replies, trace, n, setup, j - 1);
      assert Step(client, replies, trace, j - 1, setup);
      StepKeepsPayload(trace[j - 1], client(replies[..j - 1]), replies[j - 1], trace[j], setup, pid, a, e, lo, hi);
    }
  }

  /**
   What a process wrote into a payload it reads back, after any number of requests
   by any processes that neither free the block nor write over it.
   */
  lemma ReadsWhatWasWritten(client: Client, replies: seq<Reply>, trace: seq<World>, n: nat, setup: Setup,
                            i: nat, j: nat, pid: nat, a: nat, e: nat, addr: nat, data: seq<byte>)
    requires setup.pageSize > 0 && Explains(client, replies, trace, setup)
    requires Behaves(client, trace[0], [], n, setup) && Sane(trace[0], setup)
    requires i < j < |replies| <= n
    requires client(replies[..i]) == Write(pid, addr, data) && client(replies[..j]) == Read(pid, addr, |data|)
    requires pid in trace[i].live && Inside(trace[i].live[pid].heap, a, e, addr, |data|)
    requires SparedFor(client, replies, i + 1, j, pid, a, addr, addr + |data|)
    ensures replies[i] == Done && replies[j] == Chunk(data)
  {
    BehavesAlong(client, replies, trace, n, setup, i);
    var p := trace[i].live[pid];
    LiveFits(p.space, p.heap, a, e, setup.pageSize);
    assert Step(client, replies, trace, i, setup);
    assert Step(client, replies, trace, j, setup);
    RunKeepsPayload(client, replies, trace, n, setup, i + 1, j, pid, a, e, addr, addr + |data|);
    BehavesAlong(client, replies, trace, n, setup, j);
    ReadBack(p.space, trace[i + 1].live[pid].space, trace[j].live[pid].space, addr, data);
    LiveFits(trace[j].live[pid].space, trace[j].live[pid].heap, a, e, setup.pageSize);
  }

  lemma ReadBack(s: seq<byte>, t: seq<byte>, r: seq<byte>, addr: nat, data: seq<byte>)
    requires Spliced(s, t, addr, data) && SameBytes(t, r, addr, addr + |data|)
    ensures r[addr..addr + |data|] == data
  {
    var a := r[addr..addr + |data|];
    forall k | 0 <= k < |data| ensures a[k] == data[k] {
      assert r[addr + k] == t[addr + k];
    }
  }
}
