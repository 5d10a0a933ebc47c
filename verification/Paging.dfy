/**
 The paged memory: page tables, frames, TLB and swap behind a flat address space
 per process.
 */
module Paging {
  import opened Arith
  import opened Bytes
  import opened SwapModel
  import opened SwapChunks
  import opened SwapShelf
  import opened SwapRequests
  import opened SwapStore
  import opened Queues
  import opened Policies
  import opened FrameTable
  import opened Tlb
  import opened Ram
  import opened VirtualMemory
  import opened AddressSpace
  import opened PageLifecycle

  // What changes when the memory module works.
  ghost function Objects(ram: Memory, meta: Frames, tlb: TlbBuffer, swap: SwapSpace): set<object> {
    {ram.memory, meta, meta.entries, meta.firstFrame, meta.clockHands, tlb, tlb.entries, swap} + swap.Arrays
  }

  // No two parts share an object.
  ghost predicate Apart(ram: Memory, meta: Frames, tlb: TlbBuffer, swap: SwapSpace) {
    && {ram.memory, meta, meta.entries, meta.firstFrame, meta.clockHands, tlb, tlb.entries, swap} !! swap.Arrays
    && ram.memory as object != meta.entries && ram.memory as object != meta.firstFrame
    && ram.memory as object != meta.clockHands && ram.memory as object != tlb.entries
    && meta.entries as object != meta.firstFrame && meta.entries as object != meta.clockHands
    && meta.entries as object != tlb.entries
    && tlb.entries as object != meta.firstFrame && tlb.entries as object != meta.clockHands
  }

  // All parts are configured alike, and there are frames enough for the replacement policy.
  ghost predicate Compatible(ram: Memory, meta: Frames, swap: SwapSpace, lru: bool) {
    && ram.Wf() && ram.frameQty == meta.entries.Length
    && swap.Wf() && swap.pageSize == ram.pageSize && swap.fixed == meta.fixed
    && meta.RangeSize() >= (if lru then 2 else 1)
  }

  // tables are the page tables as they are, but for the single entry a failed first page left to each orphan.
  ghost predicate Shows(pageTables: map<nat, seq<Pte>>, tables: map<nat, seq<Pte>>, orphans: set<nat>) {
    forall pid {:trigger AnyPid(pid)} :: AnyPid(pid) ==>
      && (pid in pageTables <==> pid in tables)
      && (pid in orphans ==> pid in tables && tables[pid] == [] && pageTables[pid] == [Pte(false, 0)])
      && (pid in tables && pid !in orphans ==> pageTables[pid] == tables[pid])
  }

  lemma NoRoomForAny(sh: Shelf, pid: nat, pages: nat, k: nat, n: nat)
    requires pid in sh.home && 0 < k <= n && !RoomForMore(sh, pid, pages, k)
    ensures !RoomForMore(sh, pid, pages, n)
  {
  }

  // Mentioned where it matters which frames an access uses; elsewhere that stays folded.
  ghost predicate Watch(x: int) {
    true
  }

  class Mmu {
    const pageSize: nat
    const lru: bool
    const ram: Memory
    const meta: Frames
    const tlb: TlbBuffer
    const swap: SwapSpace
    var pageTables: map<nat, seq<Pte>>
    // the page tables without the entries that stand for no page, and the processes that have such an entry
    ghost var tables: map<nat, seq<Pte>>
    ghost var orphans: set<nat>
    // the pids of processes that ended, and 0, which blank swap slots are labelled with
    ghost var past: set<nat>

    // the objects of swap files and everything else the memory module changes
    ghost const Repr: set<object>

    constructor (ram: Memory, meta: Frames, tlb: TlbBuffer, swap: SwapSpace, lru: bool)
      requires Apart(ram, meta, tlb, swap) && Compatible(ram, meta, swap, lru)
      requires meta.Valid() && tlb.Valid() && swap.Valid() && tlb.cache == map[] && swap.stored == map[]
      requires forall f :: 0 <= f < meta.entries.Length ==> meta.entries[f] == FrameMeta(true, false, false, 0, 0, 0)
      requires swap.seenPids <= {0}
      ensures Valid() && tables == map[] && orphans == {} && past == {0} && this.lru == lru && this.pageSize == ram.pageSize
      ensures this.ram == ram && this.meta == meta && this.tlb == tlb && this.swap == swap
      ensures Repr == {this} + Objects(ram, meta, tlb, swap)
    {
      this.pageSize, this.lru, pageTables := ram.pageSize, lru, map[];
      tables, orphans, past := map[], {}, {0};
      this.ram, this.meta, this.tlb, this.swap := ram, meta, tlb, swap;
      Repr := {this} + Objects(ram, meta, tlb, swap);
      new;
      StartsValid();
    }

    lemma StartsValid()
      requires Parts() && tables == map[] && tlb.cache == map[] && swap.stored == map[] && swap.seenPids <= past
      requires forall f :: 0 <= f < meta.entries.Length ==> meta.entries[f] == FrameMeta(true, false, false, 0, 0, 0)
      ensures Valid()
    {
    }

    // ----- shape

    ghost predicate Shape() {
      && Repr == {this} + Objects(ram, meta, tlb, swap) && this !in Objects(ram, meta, tlb, swap)
      && ram.pageSize == pageSize
      && Apart(ram, meta, tlb, swap) && Compatible(ram, meta, swap, lru)
    }

    ghost predicate Parts()
      reads this, Repr
    {
      Shape() && meta.Valid() && tlb.Valid() && swap.Valid() && Shows(pageTables, tables, orphans)
    }

    ghost function State(): Vm
      requires Shape()
      reads this, Repr
    {
      Vm(tables, meta.entries[..], ram.Pages(), tlb.cache, swap.stored, swap.shelf)
    }

    ghost function Owners(): seq<int>
      requires Shape()
      reads this, Repr
    {
      meta.firstFrame[..]
    }

    // A process without pages must not have left any in swap, under fixed assignment.
    ghost predicate NewPidsFresh()
      requires Shape()
      reads this, Repr
    {
      swap.fixed ==> FreshPids(tables, swap.seenPids, past)
    }

    // Valid between the steps of one page fault.
    ghost predicate Consistent()
      reads this, Repr
    {
      && Parts() && Inv(State(), pageSize)
      && BlocksOwned(State().frames, Owners(), meta.framesPerProcess) && NewPidsFresh()
    }

    ghost predicate Valid()
      reads this, Repr
    {
      Consistent() && InUseWasUsed(State().frames)
    }

    // ----- page tables

    // The table of a process that is no orphan.
    lemma Listed(pid: nat)
      requires Shows(pageTables, tables, orphans)
      ensures pid in pageTables <==> pid in tables
      ensures pid in tables && tables[pid] != [] ==> pid !in orphans
      ensures pid in tables && pid !in orphans ==> pageTables[pid] == tables[pid]
      ensures pid in orphans ==> pid in tables && tables[pid] == [] && pageTables[pid] == [Pte(false, 0)]
    {
      assert AnyPid(pid);
    }

    method SetTable(pid: nat, entries: seq<Pte>)
      requires Parts() && pid in tables && pid !in orphans
      modifies this`pageTables, this`tables
      ensures Parts() && State() == old(State()).(tables := old(tables)[pid := entries])
    {
      assert AnyPid(pid);
      pageTables, tables := pageTables[pid := entries], tables[pid := entries];
    }

    // ----- page faults

    method DropTranslation(pid: nat, page: nat)
      requires Parts()
      modifies tlb`cache, tlb.entries
      ensures Parts() && State() == old(State()).(cache := old(tlb.cache) - {PageKey(pid, page)})
    {
      tlb.DropEntry(pid, page);
    }

    // Saves the page in a frame over its copy in swap.
    method SaveFrame(frame: nat, pid: nat, page: nat)
      requires Parts() && frame < meta.entries.Length && PageKey(pid, page) in swap.stored
      modifies swap`stored, swap`seenPids, swap`shelf, swap.Arrays
      ensures Parts() && State() == old(State()).(swap := old(swap.stored)[PageKey(pid, page) := old(ram.Pages())[frame]])
      ensures swap.seenPids == old(swap.seenPids) + {pid}
    {
      var content := ram.Read(frame, 0, pageSize);
      assert content == ram.Pages()[frame];
      var ok := swap.SavePage(pid, page, content);
    }

    // The page in frame victim goes out; it is saved only if it was modified.
    method Evict(victim: nat)
      requires Parts() && victim < meta.entries.Length
      requires HasPage(State(), FrameKey(meta.entries[victim])) && FrameKey(meta.entries[victim]) in swap.stored
      requires !meta.entries[victim].isFree
      modifies this`pageTables, this`tables, tlb`cache, tlb.entries, swap`stored, swap`seenPids, swap`shelf, swap.Arrays
      ensures Parts()
      ensures State() == Evicted(old(State()), victim).(frames := old(State()).frames)
      ensures swap.seenPids <= old(swap.seenPids) + {old(meta.entries[victim].pid)}
    {
      var e := meta.entries[victim];
      DropTranslation(e.pid, e.page);
      if e.modified {
        SaveFrame(victim, e.pid, e.page);
      }
      Listed(e.pid);
      SetTable(e.pid, pageTables[e.pid][e.page := Pte(false, -1)]);
    }

    method WriteFrame(frame: nat, content: Page)
      requires Parts() && frame < meta.entries.Length && |content| == pageSize
      modifies ram.memory, meta.entries
      ensures Parts() && State() == Written(old(State()), frame, content)
    {
      meta.MarkModified(frame);
      ram.Edit(frame, 0, content);
      assert Splice(old(ram.Pages())[frame], 0, content) == content;
    }

    // The translation of the page is cached, unless the TLB has no slots.
    ghost predicate Translated(pid: nat, page: nat)
      reads tlb
    {
      tlb.entries.Length > 0 ==> PageKey(pid, page) in tlb.cache
    }

    method AddTranslation(pid: nat, page: nat, frame: nat)
      requires Parts() && PageKey(pid, page) !in tlb.cache
      modifies tlb`victimQueue, tlb`uses, tlb`cache, tlb.entries
      ensures Parts() && State() == old(State()).(cache := tlb.cache)
      ensures CacheWithin(tlb.cache, old(tlb.cache)[PageKey(pid, page) := frame]) && Translated(pid, page)
    {
      ghost var slot := tlb.AddEntry(pid, page, frame);
    }

    // The frame gets the content of the page, and the page table points to it.
    method FillFrame(victim: nat, pid: nat, page: nat, content: Page)
      requires Parts() && victim < meta.entries.Length && HasPage(State(), PageKey(pid, page)) && |content| == pageSize
      modifies this`pageTables, this`tables, ram.memory, meta.entries
      ensures Parts()
      ensures State() == Written(old(State()), victim, content).(tables := SetPte(old(State()), PageKey(pid, page), Pte(true, victim)))
    {
      WriteFrame(victim, content);
      Listed(pid);
      SetTable(pid, pageTables[pid][page := Pte(true, victim)]);
    }

    // The page goes into the frame, whatever was there.
    method LoadInto(victim: nat, pid: nat, page: nat, content: Page)
      requires Parts() && victim < meta.entries.Length && HasPage(State(), PageKey(pid, page))
      requires PageKey(pid, page) in swap.stored && content == swap.stored[PageKey(pid, page)] && |content| == pageSize
      requires PageKey(pid, page) !in tlb.cache
      modifies this`pageTables, this`tables, ram.memory, meta.entries, tlb`victimQueue, tlb`uses, tlb`cache, tlb.entries
      ensures Parts()
      ensures CacheWithin(tlb.cache, old(tlb.cache)[PageKey(pid, page) := victim]) && Translated(pid, page)
      ensures State() == Loaded(old(State()), victim, PageKey(pid, page), tlb.cache)
    {
      FillFrame(victim, pid, page, content);
      AddTranslation(pid, page, victim);
      meta.Label(victim, pid, page);
    }

    // The frames a process may use: those of its block under fixed assignment, else all.
    ghost predicate MayUse(pid: nat, frame: nat, block: nat)
      requires Shape()
      reads this, Repr
    {
      && frame < meta.entries.Length
      && (meta.fixed ==> block < |Owners()| && InBlock(block, meta.framesPerProcess, frame) && Owners()[block] == pid)
    }

    // Out with what is in the frame, in with the page.
    method Exchange(victim: nat, pid: nat, page: nat, content: Page)
      requires Parts() && victim < meta.entries.Length && HasPage(State(), PageKey(pid, page))
      requires PageKey(pid, page) in swap.stored && content == swap.stored[PageKey(pid, page)] && |content| == pageSize
      requires PageKey(pid, page) !in tlb.cache
      requires !meta.entries[victim].isFree ==>
        var key := FrameKey(meta.entries[victim]);
        HasPage(State(), key) && key in swap.stored && key != PageKey(pid, page)
      requires HasPage(Evicted(State(), victim), PageKey(pid, page)) && PageKey(pid, page) in Evicted(State(), victim).swap
      modifies this`pageTables, this`tables, ram.memory, meta.entries, tlb`victimQueue, tlb`uses, tlb`cache, tlb.entries
      modifies swap`stored, swap`seenPids, swap`shelf, swap.Arrays
      ensures Parts()
      ensures State() == Replaced(old(State()), victim, PageKey(pid, page), tlb.cache)
      ensures CacheWithin(tlb.cache, Evicted(old(State()), victim).cache[PageKey(pid, page) := victim]) && Translated(pid, page)
      ensures swap.seenPids <= old(swap.seenPids) + (if old(meta.entries[victim].isFree) then {} else {old(meta.entries[victim].pid)})
    {
      if !meta.entries[victim].isFree {
        Evict(victim);
      }
      LoadInto(victim, pid, page, content);
    }

    /** Brings a page that is not in memory into frame victim. */
    method Replace(victim: nat, pid: nat, page: nat, ghost block: nat) returns (frame: int)
      requires Consistent() && MayUse(pid, victim, block)
      requires HasPage(State(), PageKey(pid, page)) && !tables[pid][page].present
      modifies this`pageTables, this`tables, ram.memory, meta.entries, tlb`victimQueue, tlb`uses, tlb`cache, tlb.entries
      modifies swap`stored, swap`seenPids, swap`shelf, swap.Arrays
      ensures Consistent() && frame == victim
      ensures SamePages(old(State()), State()) && Resident(State(), PageKey(pid, page), victim)
      ensures HasPage(Evicted(old(State()), victim), PageKey(pid, page))
      ensures PageKey(pid, page) in Evicted(old(State()), victim).swap
      ensures State() == Replaced(old(State()), victim, PageKey(pid, page), tlb.cache)
      ensures State().frames == old(State()).frames[victim := LoadedMeta(old(State()).frames[victim], PageKey(pid, page))]
      ensures Translated(pid, page)
    {
      ghost var vm, seen := State(), swap.seenPids;
      FaultReady(vm, victim, PageKey(pid, page), pageSize);
      var pageFromSwap := swap.ReadPage(pid, page);
      if pageFromSwap.None? {
        return -1;
      }
      Exchange(victim, pid, page, pageFromSwap.value);
      ReplacedIsConsistent(vm, victim, PageKey(pid, page), block, seen);
      return victim;
    }

    lemma ReplacedIsConsistent(vm: Vm, victim: nat, key: PageKey, block: nat, seen: set<nat>)
      requires Parts() && Inv(vm, pageSize) && MayUse(key.pid, victim, block) && |vm.frames| == meta.entries.Length
      requires HasPage(vm, key) && !PteOf(vm, key).present
      requires HasPage(Evicted(vm, victim), key) && key in Evicted(vm, victim).swap
      requires State() == Replaced(vm, victim, key, tlb.cache)
      requires CacheWithin(tlb.cache, Evicted(vm, victim).cache[key := victim])
      requires BlocksOwned(vm.frames, Owners(), meta.framesPerProcess) && (swap.fixed ==> FreshPids(vm.tables, seen, past))
      requires swap.seenPids <= seen + (if vm.frames[victim].isFree then {} else {vm.frames[victim].pid})
      ensures Consistent() && SamePages(vm, State()) && Resident(State(), key, victim)
      ensures State().frames == vm.frames[victim := LoadedMeta(vm.frames[victim], key)]
    {
      ReplaceKeepsInv(vm, victim, key, tlb.cache, pageSize);
      FaultKeepsOwned(vm, victim, key, block);
      if swap.fixed {
        FaultKeepsFresh(vm, State(), victim, seen, swap.seenPids, past, pageSize);
      }
    }

    lemma FaultKeepsOwned(vm: Vm, victim: nat, key: PageKey, block: nat)
      requires Shape() && MayUse(key.pid, victim, block) && |vm.frames| == meta.entries.Length
      requires BlocksOwned(vm.frames, Owners(), meta.framesPerProcess)
      requires !meta.fixed ==> |Owners()| == 0
      ensures BlocksOwned(vm.frames[victim := LoadedMeta(vm.frames[victim], key)], Owners(), meta.framesPerProcess)
    {
      if meta.fixed {
        LabelKeepsOwned(vm.frames, Owners(), meta.framesPerProcess, block, victim, LoadedMeta(vm.frames[victim], key));
      }
    }

    // The frames the assignment lets a process choose a victim from.
    method Assign(pid: nat) returns (start: nat, end: nat, ghost block: nat)
      requires Valid() && (meta.fixed ==> Placeable(Owners(), pid))
      modifies meta.firstFrame
      ensures Valid() && State() == old(State())
      ensures meta.RangeOk(start, end, block) && end - start == meta.RangeSize()
      ensures meta.fixed ==> BlockFor(old(Owners()), pid, block) && Owners() == old(Owners())[block := pid]
      ensures !meta.fixed ==> Owners() == old(Owners())
      ensures Granted(old(Owners()), Owners(), pid)
    {
      if meta.fixed {
        ghost var owners := Owners();
        var s, e, ok;
        s, e, ok, block := meta.Fijo(pid);
        AssignKeepsOwned(meta.entries[..], owners, meta.framesPerProcess, block, pid);
        GrantedBlock(owners, block, pid);
        return s, e, block;
      } else {
        return 0, meta.entries.Length, 0;
      }
    }

    /**
     The lowest free frame, or else the one the replacement policy gives up.  LRU over one
     used frame finds it unless it was the last one accessed.
     */
    method ChooseVictim(start: nat, end: nat, ghost block: nat) returns (victim: int)
      requires Parts() && meta.RangeOk(start, end, block) && start < end && InUseWasUsed(meta.entries[..])
      requires lru && end == start + 1 && !meta.entries[start].isFree ==>
        meta.history != [] && meta.history[|meta.history| - 1] != start
      modifies meta`clockHand, meta.entries, meta.clockHands
      ensures Parts() && start <= victim < end
      ensures State() == old(State()).(frames := State().frames)
      ensures Chosen(lru, old(meta.entries[..]), meta.history, start, end, old(meta.Hands()[block]), victim)
      ensures ChoiceLeaves(lru, old(meta.entries[..]), start, end, old(meta.Hands()[block]), victim,
                           meta.entries[..], meta.Hands()[block])
      ensures meta.Hands() == old(meta.Hands())[block := meta.Hands()[block]]
    {
      if lru {
        victim := meta.VictimOfLru(start, end, meta.Hands()[block]);
      } else {
        victim := meta.VictimOfClock(start, end, block);
      }
    }

    // Choosing a victim changes no more than use bits.
    method PickVictim(start: nat, end: nat, ghost block: nat, ghost pid: nat) returns (victim: nat)
      requires Valid() && meta.RangeOk(start, end, block) && end - start == meta.RangeSize()
      requires meta.fixed ==> block < |Owners()| && Owners()[block] == pid
      modifies meta`clockHand, meta.entries, meta.clockHands
      ensures Valid() && MayUse(pid, victim, block) && SamePages(old(State()), State())
      ensures Chosen(lru, old(meta.entries[..]), meta.history, start, end, old(meta.Hands()[block]), victim)
      ensures ChoiceLeaves(lru, old(meta.entries[..]), start, end, old(meta.Hands()[block]), victim,
                           meta.entries[..], meta.Hands()[block])
      ensures meta.Hands() == old(meta.Hands())[block := meta.Hands()[block]]
    {
      ghost var vm := State();
      ghost var hand := meta.Hands()[block];
      victim := ChooseVictim(start, end, block);
      ChoiceIsSameUse(lru, vm.frames, start, end, hand, victim, State().frames, meta.Hands()[block]);
      SameUseKeepsInv(vm, State(), pageSize);
      RelabelKeepsOwned(vm.frames, State().frames, Owners(), meta.framesPerProcess);
    }

    // What of a replacement does not depend on the victim.
    method Admit(victim: nat, pid: nat, page: nat, ghost block: nat) returns (frame: int)
      requires Valid() && MayUse(pid, victim, block)
      requires HasPage(State(), PageKey(pid, page)) && !tables[pid][page].present
      modifies this`pageTables, this`tables, ram.memory, meta.entries, tlb`victimQueue, tlb`uses, tlb`cache, tlb.entries
      modifies swap`stored, swap`seenPids, swap`shelf, swap.Arrays
      ensures Consistent() && frame == victim && UsedBut(State().frames, frame)
      ensures SamePages(old(State()), State()) && Resident(State(), PageKey(pid, page), frame) && Translated(pid, page)
      ensures meta.Now() == Labelled(old(meta.Now()), victim, pid, page)
    {
      frame := Replace(victim, pid, page, block);
    }

    // Assignment, then victim.
    method ChooseFrame(pid: nat) returns (victim: nat, ghost block: nat)
      requires Valid() && (meta.fixed ==> Placeable(Owners(), pid))
      modifies meta`clockHand, meta.entries, meta.clockHands, meta.firstFrame
      ensures Valid() && MayUse(pid, victim, block) && SamePages(old(State()), State()) && State().tables == old(State()).tables
      ensures Granted(old(Owners()), Owners(), pid)
      ensures meta.Picks(lru, old(meta.Now()), pid, block, victim, meta.Now())
    {
      var start, end;
      start, end, block := Assign(pid);
      victim := PickVictim(start, end, block, pid);
    }

    // A frame that assignment and policy choose got the page.
    ghost predicate Chose(was: FrameState, pid: nat, page: nat, frame: nat, to: FrameState) {
      exists block: nat, chosen: FrameState :: meta.Picks(lru, was, pid, block, frame, chosen) &&
        frame < |chosen.frames| && to == Labelled(chosen, frame, pid, page)
    }

    lemma ChoseBy(was: FrameState, pid: nat, page: nat, block: nat, frame: nat, chosen: FrameState)
      requires meta.Picks(lru, was, pid, block, frame, chosen) && frame < |chosen.frames|
      ensures Chose(was, pid, page, frame, Labelled(chosen, frame, pid, page))
    {
    }

    /**
     A page fault: the frame that assignment and policy choose gets the page.  Whatever
     they choose, no page changes.
     */
    method SwapPage(pid: nat, page: nat) returns (frame: int)
      requires Valid() && (meta.fixed ==> Placeable(Owners(), pid))
      requires HasPage(State(), PageKey(pid, page)) && !tables[pid][page].present
      modifies this`pageTables, this`tables, ram.memory, meta`clockHand, meta.entries, meta.clockHands, meta.firstFrame
      modifies tlb`victimQueue, tlb`uses, tlb`cache, tlb.entries, swap`stored, swap`seenPids, swap`shelf, swap.Arrays
      ensures Consistent() && 0 <= frame && UsedBut(State().frames, frame)
      ensures SamePages(old(State()), State()) && Resident(State(), PageKey(pid, page), frame) && Translated(pid, page)
      ensures Granted(old(Owners()), Owners(), pid)
      ensures Chose(old(meta.Now()), pid, page, frame, meta.Now())
    {
      ghost var vm, was := State(), meta.Now();
      var victim;
      ghost var block;
      victim, block := ChooseFrame(pid);
      ghost var before := State();
      ChoseBy(was, pid, page, block, victim, meta.Now());
      frame := Admit(victim, pid, page, block);
      SamePagesTrans(vm, before, State());
    }

    // ----- access to pages

    // What each process sees.
    ghost function Seen(): map<nat, seq<byte>>
      requires Shape()
      reads this, Repr
    {
      Spaces(State())
    }

    // Under fixed assignment, a process has a block or can get one.
    ghost predicate HasRoom(pid: nat)
      requires Shape()
      reads this, Repr
    {
      meta.fixed ==> Placeable(Owners(), pid)
    }

    method CacheResident(pid: nat, page: nat, frame: nat)
      requires Valid() && Resident(State(), PageKey(pid, page), frame) && PageKey(pid, page) !in tlb.cache
      modifies tlb`victimQueue, tlb`uses, tlb`cache, tlb.entries
      ensures Valid() && State() == old(State()).(cache := tlb.cache) && SamePages(old(State()), State())
      ensures Translated(pid, page) && meta.Now() == old(meta.Now())
    {
      ghost var vm := State();
      AddTranslation(pid, page, frame);
      CacheAdds(vm, tlb.cache, PageKey(pid, page), frame, pageSize);
    }

    lemma AccessIsValid(vm: Vm, frame: nat)
      requires Parts() && Inv(vm, pageSize) && frame < |vm.frames| == meta.entries.Length && UsedBut(vm.frames, frame)
      requires State() == vm.(frames := Touched(vm.frames, frame, |meta.history|)) && meta.history != []
      requires BlocksOwned(vm.frames, Owners(), meta.framesPerProcess) && NewPidsFresh()
      ensures Valid() && SamePages(vm, State()) && forall key :: Resident(vm, key, frame) ==> Resident(State(), key, frame)
    {
      AccessKeepsInv(vm, frame, |meta.history|, Owners(), meta.framesPerProcess, pageSize);
    }

    // An access to a frame that was found in the TLB or just filled.
    method Touch(frame: nat)
      requires Consistent() && frame < meta.entries.Length && UsedBut(State().frames, frame)
      modifies meta`counter, meta`history, meta.entries
      ensures Valid() && SamePages(old(State()), State())
      ensures forall key :: Resident(old(State()), key, frame) ==> Resident(State(), key, frame)
      ensures meta.Now() == Accessed(old(meta.Now()), frame) && tlb.cache == old(tlb.cache)
    {
      ghost var vm := State();
      meta.UseThenStamp(frame);
      AccessIsValid(vm, frame);
    }

    // An access to a frame that was found in a page table.
    method TouchResident(frame: nat)
      requires Valid() && frame < meta.entries.Length
      modifies meta`counter, meta`history, meta.entries
      ensures Valid() && SamePages(old(State()), State())
      ensures forall key :: Resident(old(State()), key, frame) ==> Resident(State(), key, frame)
      ensures meta.Now() == Accessed(old(meta.Now()), frame) && tlb.cache == old(tlb.cache)
    {
      ghost var vm := State();
      meta.StampThenUse(frame);
      AccessIsValid(vm, frame);
    }

    method Lookup(pid: nat, page: nat) returns (frame: int)
      requires Valid()
      modifies tlb`victimQueue, tlb`uses
      ensures Valid() && State() == old(State())
      ensures frame == -1 ==> PageKey(pid, page) !in tlb.cache
      ensures frame != -1 ==> 0 <= frame < meta.entries.Length && Resident(State(), PageKey(pid, page), frame) && Translated(pid, page)
    {
      frame := tlb.GetFrame(pid, page);
      assert frame != -1 ==> PteOf(State(), PageKey(pid, page)) == Pte(true, frame);
    }

    // A hit in the TLB.
    method Hit(pid: nat, page: nat, frame: nat)
      requires Valid() && Resident(State(), PageKey(pid, page), frame) && frame < meta.entries.Length
      modifies meta`counter, meta`history, meta.entries
      ensures Valid() && SamePages(old(State()), State()) && Resident(State(), PageKey(pid, page), frame)
      ensures meta.Now() == Accessed(old(meta.Now()), frame)
    {
      Touch(frame);
    }

    // A page in memory without a cached translation.
    method Walk(pid: nat, page: nat, frame: nat)
      requires Valid() && Resident(State(), PageKey(pid, page), frame) && frame < meta.entries.Length
      requires PageKey(pid, page) !in tlb.cache
      modifies meta`counter, meta`history, meta.entries, tlb`victimQueue, tlb`uses, tlb`cache, tlb.entries
      ensures Valid() && SamePages(old(State()), State()) && Translated(pid, page)
      ensures meta.Now() == Accessed(old(meta.Now()), frame)
    {
      ghost var vm := State();
      TouchResident(frame);
      ghost var mid := State();
      CacheResident(pid, page, frame);
      SamePagesTrans(vm, mid, State());
    }

    // It was accessed afterwards.
    ghost predicate Faulted(was: FrameState, pid: nat, page: nat, frame: nat, to: FrameState) {
      exists mid: FrameState :: Chose(was, pid, page, frame, mid) && frame < |mid.frames| && to == Accessed(mid, frame)
    }

    lemma FaultedIs(was: FrameState, pid: nat, page: nat, frame: nat, to: FrameState)
      requires Faulted(was, pid, page, frame, to)
      ensures frame < |to.frames| && to.frames[frame] == FrameMeta(false, false, true, pid, page, |to.history|)
      ensures to.history == was.history + [frame]
    {
    }

    // What an access to a page, in memory or not, does to the frame table.
    ghost predicate Visited(was: FrameState, present: bool, pid: nat, page: nat, frame: nat, to: FrameState) {
      if present then frame < |was.frames| && to == Accessed(was, frame) else Faulted(was, pid, page, frame, to)
    }

    // In some frame; the page is written then, or only read.
    ghost predicate VisitedPage(was: FrameState, present: bool, pid: nat, page: nat, to: FrameState, written: bool) {
      forall x {:trigger Watch(x)} :: Watch(x) ==> exists frame: nat, mid: FrameState ::
        Visited(was, present, pid, page, frame, mid) && frame < |mid.frames| && to == if written then Modified(mid, frame) else mid
    }

    method Fault(pid: nat, page: nat) returns (frame: nat)
      requires Valid() && HasRoom(pid)
      requires HasPage(State(), PageKey(pid, page)) && !tables[pid][page].present
      modifies this`pageTables, this`tables, ram.memory, meta, meta.entries, meta.clockHands, meta.firstFrame
      modifies tlb`victimQueue, tlb`uses, tlb`cache, tlb.entries, swap`stored, swap`seenPids, swap`shelf, swap.Arrays
      ensures Valid() && SamePages(old(State()), State()) && Resident(State(), PageKey(pid, page), frame)
      ensures Granted(old(Owners()), Owners(), pid) && Translated(pid, page)
      ensures Faulted(old(meta.Now()), pid, page, frame, meta.Now())
    {
      ghost var vm, was := State(), meta.Now();
      frame := SwapPage(pid, page);
      ghost var mid := State();
      assert Chose(was, pid, page, frame, meta.Now());
      Touch(frame);
      SamePagesTrans(vm, mid, State());
    }

    // Without a cached translation: through the page table, or from swap.
    method Miss(pid: nat, page: nat) returns (frame: nat)
      requires Valid() && HasPage(State(), PageKey(pid, page)) && HasRoom(pid) && PageKey(pid, page) !in tlb.cache
      modifies this`pageTables, this`tables, ram.memory, meta, meta.entries, meta.clockHands, meta.firstFrame
      modifies tlb`victimQueue, tlb`uses, tlb`cache, tlb.entries, swap`stored, swap`seenPids, swap`shelf, swap.Arrays
      ensures Valid() && SamePages(old(State()), State()) && Resident(State(), PageKey(pid, page), frame)
      ensures Granted(old(Owners()), Owners(), pid) && Translated(pid, page) && frame < meta.entries.Length
      ensures Visited(old(meta.Now()), old(tables[pid][page].present), pid, page, frame, meta.Now())
    {
      assert PteOf(State(), PageKey(pid, page)) == tables[pid][page];
      Listed(pid);
      if pageTables[pid][page].present {
        frame := pageTables[pid][page].frame;
        Walk(pid, page, frame);
      } else {
        frame := Fault(pid, page);
      }
    }

    /**
     The frame of a page, which is in memory afterwards, with its translation cached.  No
     page changes.  The frame is used now and was accessed last; if the page was in memory
     nothing else changes in the frame table, and if not the frame is the one that
     assignment and policy choose.
     */
    method GetFrame(pid: nat, page: nat) returns (frame: nat)
      requires Valid() && HasPage(State(), PageKey(pid, page)) && HasRoom(pid)
      modifies this`pageTables, this`tables, ram.memory, meta, meta.entries, meta.clockHands, meta.firstFrame
      modifies tlb`victimQueue, tlb`uses, tlb`cache, tlb.entries, swap`stored, swap`seenPids, swap`shelf, swap.Arrays
      ensures Valid() && SamePages(old(State()), State()) && Resident(State(), PageKey(pid, page), frame)
      ensures Granted(old(Owners()), Owners(), pid) && Translated(pid, page) && frame < meta.entries.Length
      ensures meta.entries[frame].u && meta.entries[frame].timeStamp == |meta.history| && meta.history == old(meta.history) + [frame]
      ensures old(tables[pid][page].present) ==>
        && meta.Now().hands == old(meta.Now()).hands && meta.Now().owners == old(meta.Now()).owners
        && meta.entries[..] == old(meta.entries[..])[frame := old(meta.entries[..])[frame].(u := true, timeStamp := |meta.history|)]
      ensures Visited(old(meta.Now()), old(tables[pid][page].present), pid, page, frame, meta.Now())
    {
      ghost var was, present := meta.Now(), tables[pid][page].present;
      frame := Locate(pid, page);
      if !present {
        FaultedIs(was, pid, page, frame, meta.Now());
      }
    }

    method Locate(pid: nat, page: nat) returns (frame: nat)
      requires Valid() && HasPage(State(), PageKey(pid, page)) && HasRoom(pid)
      modifies this`pageTables, this`tables, ram.memory, meta, meta.entries, meta.clockHands, meta.firstFrame
      modifies tlb`victimQueue, tlb`uses, tlb`cache, tlb.entries, swap`stored, swap`seenPids, swap`shelf, swap.Arrays
      ensures Valid() && SamePages(old(State()), State()) && Resident(State(), PageKey(pid, page), frame)
      ensures Granted(old(Owners()), Owners(), pid) && Translated(pid, page) && frame < meta.entries.Length
      ensures Visited(old(meta.Now()), old(tables[pid][page].present), pid, page, frame, meta.Now())
    {
      var cached := Lookup(pid, page);
      if cached != -1 {
        frame := cached;
        Hit(pid, page, frame);
      } else {
        frame := Miss(pid, page);
      }
    }

    lemma PageExists(pid: nat, page: nat)
      requires Valid() && pid in Seen() && PageStart(page, pageSize) < |Seen()[pid]|
      ensures HasPage(State(), PageKey(pid, page))
    {
      SpaceLength(State(), pid, pageSize);
      PageStartOrder(|tables[pid]|, page, pageSize);
    }

    lemma SeenSame(vm: Vm)
      requires Valid() && SamePages(vm, State())
      ensures Seen() == Spaces(vm)
    {
      SpacesSame(vm, State());
    }

    // Brings a page to memory.
    method Bring(pid: nat, page: nat) returns (frame: nat)
      requires Valid() && HasPage(State(), PageKey(pid, page)) && HasRoom(pid)
      modifies this`pageTables, this`tables, ram.memory, meta, meta.entries, meta.clockHands, meta.firstFrame
      modifies tlb`victimQueue, tlb`uses, tlb`cache, tlb.entries, swap`stored, swap`seenPids, swap`shelf, swap.Arrays
      ensures Valid() && HasRoom(pid) && Seen() == old(Seen()) && Resident(State(), PageKey(pid, page), frame)
      ensures swap.shelf == old(swap.shelf)
      ensures Granted(old(Owners()), Owners(), pid)
      ensures Visited(old(meta.Now()), old(tables[pid][page].present), pid, page, frame, meta.Now())
    {
      ghost var vm, owners := State(), Owners();
      frame := GetFrame(pid, page);
      SeenSame(vm);
      if meta.fixed {
        GrantedKeepsRoom(owners, Owners(), pid);
      }
    }

    // ram_editFrame: marks the frame, then writes it.
    method EditFrame(frame: nat, offset: nat, from: seq<byte>)
      requires Valid() && frame < meta.entries.Length && offset + |from| <= pageSize
      modifies ram.memory, meta.entries
      ensures Parts() && tlb.cache == old(tlb.cache) && Owners() == old(Owners()) && swap.stored == old(swap.stored)
      ensures State() == Written(old(State()), frame, Splice(old(State()).ram[frame], offset, from))
    {
      meta.MarkModified(frame);
      ram.Edit(frame, offset, from);
    }

    method WriteResident(pid: nat, page: nat, frame: nat, offset: nat, from: seq<byte>)
      requires Valid() && Resident(State(), PageKey(pid, page), frame) && offset + |from| <= pageSize
      modifies this`pageTables, this`tables, ram.memory, meta, meta.entries, meta.clockHands, meta.firstFrame
      modifies tlb`victimQueue, tlb`uses, tlb`cache, tlb.entries, swap`stored, swap`seenPids, swap`shelf, swap.Arrays
      ensures Valid() && Owners() == old(Owners()) && swap.shelf == old(swap.shelf)
      ensures WrittenTo(old(Seen()), Seen(), pid, AddrOf(page, offset, pageSize), from)
      ensures meta.Now() == Modified(old(meta.Now()), frame)
    {
      ghost var vm := State();
      WriteIsSplice(vm, frame, PageKey(pid, page), offset, from, pageSize);
      WriteKeepsUsed(vm, frame, Splice(vm.ram[frame], offset, from), Owners(), meta.framesPerProcess);
      EditFrame(frame, offset, from);
    }

    /** Brings a page to memory and writes part of it. */
    method WritePart(pid: nat, page: nat, offset: nat, from: seq<byte>)
      requires Valid() && HasPage(State(), PageKey(pid, page)) && HasRoom(pid) && offset + |from| <= pageSize
      modifies this`pageTables, this`tables, ram.memory, meta, meta.entries, meta.clockHands, meta.firstFrame
      modifies tlb`victimQueue, tlb`uses, tlb`cache, tlb.entries, swap`stored, swap`seenPids, swap`shelf, swap.Arrays
      ensures Valid() && HasRoom(pid) && Granted(old(Owners()), Owners(), pid) && swap.shelf == old(swap.shelf)
      ensures WrittenTo(old(Seen()), Seen(), pid, AddrOf(page, offset, pageSize), from)
      ensures VisitedPage(old(meta.Now()), old(tables[pid][page].present), pid, page, meta.Now(), true)
    {
      var frame := Bring(pid, page);
      assert Visited(old(meta.Now()), old(tables[pid][page].present), pid, page, frame, meta.Now());
      WriteResident(pid, page, frame, offset, from);
    }

    method ReadResident(pid: nat, page: nat, frame: nat, offset: nat, size: nat) returns (content: seq<byte>)
      requires Valid() && Resident(State(), PageKey(pid, page), frame) && offset + size <= pageSize
      ensures Valid() && Owners() == old(Owners()) && Seen() == old(Seen()) && meta.Now() == old(meta.Now())
      ensures |content| == size && pid in Seen() && Piece(Seen()[pid], AddrOf(page, offset, pageSize), content)
    {
      ReadsPiece(State(), frame, PageKey(pid, page), offset, size, pageSize);
      content := ram.Read(frame, offset, size);
    }

    /** Brings a page to memory and reads part of it. */
    method ReadPart(pid: nat, page: nat, offset: nat, size: nat) returns (content: seq<byte>)
      requires Valid() && HasPage(State(), PageKey(pid, page)) && HasRoom(pid) && offset + size <= pageSize
      modifies this`pageTables, this`tables, ram.memory, meta, meta.entries, meta.clockHands, meta.firstFrame
      modifies tlb`victimQueue, tlb`uses, tlb`cache, tlb.entries, swap`stored, swap`seenPids, swap`shelf, swap.Arrays
      ensures Valid() && HasRoom(pid) && Granted(old(Owners()), Owners(), pid) && Seen() == old(Seen())
      ensures swap.shelf == old(swap.shelf)
      ensures |content| == size && pid in Seen() && Piece(Seen()[pid], AddrOf(page, offset, pageSize), content)
      ensures VisitedPage(old(meta.Now()), old(tables[pid][page].present), pid, page, meta.Now(), false)
    {
      var frame := Bring(pid, page);
      content := ReadResident(pid, page, frame, offset, size);
    }

    // ----- pages added

    // Pages of a process are saved in order.
    lemma NextPageInOrder(pid: nat)
      requires Shape() && Inv(State(), pageSize) && pid in tables
      requires swap.fixed && tables[pid] == [] ==> pid !in swap.seenPids
      ensures swap.fixed ==> NextInOrder(swap.stored, pid in swap.seenPids, pid, |tables[pid]|)
    {
      forall g: nat ensures PageKey(pid, g) in swap.stored <==> g < |tables[pid]| {
        assert HasPage(State(), PageKey(pid, g)) <==> PageKey(pid, g) in State().swap;
      }
    }

    // A process has a home in swap exactly if it has pages.
    lemma HasHome(pid: nat)
      requires Parts() && Inv(State(), pageSize)
      ensures pid in swap.shelf.home <==> pid in tables && tables[pid] != []
    {
      swap.HomeIfStored(pid);
      assert HasPage(State(), PageKey(pid, 0)) <==> PageKey(pid, 0) in State().swap;
      forall g: nat | PageKey(pid, g) in swap.stored ensures pid in tables && tables[pid] != [] {
        assert HasPage(State(), PageKey(pid, g)) <==> PageKey(pid, g) in State().swap;
      }
    }

    /** Adds a blank page; it fails exactly if swap has no room for it, and then the page table grows all the same. */
    method CreatePage(pid: nat) returns (page: int)
      requires Parts() && pid in tables && pid !in orphans && PageKey(pid, |tables[pid]|) !in swap.stored
      requires swap.fixed ==> NextInOrder(swap.stored, pid in swap.seenPids, pid, |tables[pid]|)
      modifies this`pageTables, this`tables, swap`stored, swap`seenPids, swap`shelf, swap.Arrays
      ensures page == if RoomFor(old(swap.shelf), pid, old(|tables[pid]|)) then old(|tables[pid]|) else -1
      ensures Parts() && swap.seenPids == if page == -1 then old(swap.seenPids) else old(swap.seenPids) + {pid}
      ensures State() == if page == -1 then Dangling(old(State()), pid)
                         else PageAdded(old(State()), pid, ZeroPage(pageSize))
    {
      Listed(pid);
      page := |pageTables[pid]|;
      SetTable(pid, pageTables[pid] + [Pte(false, 0)]);
      var saved := swap.SavePage(pid, page, ZeroPage(pageSize));
      if !saved {
        page := -1;
      }
    }

    lemma GrownIsValid(vm: Vm, pid: nat, k: nat, seen: set<nat>)
      requires Parts() && Inv(vm, pageSize) && pid in vm.tables && State() == Extended(vm, pid, k, ZeroPage(pageSize))
      requires BlocksOwned(vm.frames, Owners(), meta.framesPerProcess) && InUseWasUsed(vm.frames)
      requires (swap.fixed ==> FreshPids(vm.tables, seen, past)) && swap.seenPids <= seen + {pid}
      requires k > 0 || vm.tables[pid] != []
      ensures Valid() && Seen() == Spaces(vm)[pid := Spaces(vm)[pid] + Zeros(k, pageSize)]
    {
      ExtendKeepsInv(vm, pid, k, pageSize);
      ExtendedFrame(vm, pid, k, ZeroPage(pageSize));
    }

    // One step of deleting pages that were never in memory.
    method EraseLast(pid: nat)
      requires Parts() && pid in tables && tables[pid] != []
      requires PageKey(pid, |tables[pid]|) !in swap.stored
      modifies this`pageTables, this`tables, swap`stored, swap`seenPids, swap`shelf, swap.Arrays
      ensures Parts() && swap.seenPids == old(swap.seenPids) && State() == LastRemoved(old(State()), pid)
    {
      Listed(pid);
      var last := |pageTables[pid]| - 1;
      var erased := swap.DestroyPage(pid, last);
      SetTable(pid, pageTables[pid][..last]);
    }

    method EraseLeftover(pid: nat, ghost vm: Vm, ghost k: nat, ghost failed: bool)
      requires Parts() && Inv(vm, pageSize) && pid in vm.tables && k > 0 && vm.tables[pid] != [] && pid in vm.shelf.home
      requires State() == Leftover(vm, pid, k, failed, ZeroPage(pageSize))
      modifies this`pageTables, this`tables, swap`stored, swap`seenPids, swap`shelf, swap.Arrays
      ensures Parts() && swap.seenPids == old(swap.seenPids)
      ensures State() == Leftover(vm, pid, k - 1, false, ZeroPage(pageSize))
    {
      RemoveLeftover(vm, pid, k, failed, pageSize);
      EraseLast(pid);
    }

    /** Deletes the pages added since the last block ended on the last page. */
    method DeleteLastPages(pid: nat, lastAllocAddr: nat, ghost vm: Vm, ghost k: nat, ghost failed: bool)
      requires Parts() && Inv(vm, pageSize) && pid in vm.tables && pid in vm.shelf.home && pageSize > 0 && (failed ==> k > 0)
      requires OnPage(lastAllocAddr + 9, |vm.tables[pid]| - 1, pageSize)
      requires State() == Leftover(vm, pid, k, failed, ZeroPage(pageSize))
      modifies this`pageTables, this`tables, swap`stored, swap`seenPids, swap`shelf, swap.Arrays
      ensures Parts() && swap.seenPids == old(swap.seenPids) && State() == vm
    {
      OnPageIsQuotient(lastAllocAddr + 9, |vm.tables[pid]| - 1, pageSize);
      var firstToDelete := (lastAllocAddr + 9) / pageSize;
      Listed(pid);
      var i := |pageTables[pid]| - 1;
      ghost var left, last := k, failed;
      while i > firstToDelete
        invariant i == firstToDelete + left && (last ==> left > 0)
        invariant Parts() && swap.seenPids == old(swap.seenPids)
        invariant State() == Leftover(vm, pid, left, last, ZeroPage(pageSize))
      {
        EraseLeftover(pid, vm, left, last);
        left, last := left - 1, false;
        i := i - 1;
      }
    }

    // ----- pages dropped

    // The frame and the translation of the last page.
    method Unmap(pid: nat)
      requires Parts() && Droppable(State(), pid)
      modifies meta.entries, tlb`cache, tlb.entries
      ensures Parts() && State() == Unmapped(old(State()), pid)
    {
      Listed(pid);
      var pte := pageTables[pid][|pageTables[pid]| - 1];
      if pte.present {
        meta.ClearFrameMetadata(pte.frame);
        DropTranslation(pid, |pageTables[pid]| - 1);
      }
    }

    method UnmapAndErase(pid: nat)
      requires Parts() && Droppable(State(), pid)
      modifies this`pageTables, this`tables, meta.entries, tlb`cache, tlb.entries, swap`stored, swap`seenPids, swap`shelf, swap.Arrays
      ensures Parts() && swap.seenPids == old(swap.seenPids) && State() == LastRemoved(Unmapped(old(State()), pid), pid)
    {
      Unmap(pid);
      EraseLast(pid);
    }

    /** One step of trimming the address space of a process that keeps at least one page. */
    method DropLast(pid: nat)
      requires Valid() && pid in tables && |tables[pid]| > 1
      modifies this`pageTables, this`tables, meta.entries, tlb`cache, tlb.entries, swap`stored, swap`seenPids, swap`shelf, swap.Arrays
      ensures Valid() && pid in tables && |tables[pid]| == old(|tables[pid]|) - 1
      ensures LastPageDropped(old(State()), pid, State())
    {
      ghost var vm := State();
      LastIsDroppable(vm, pid, pageSize);
      UnmapAndRemoveDrops(vm, pid);
      UnmapAndErase(pid);
      DroppedIsValid(vm, pid);
    }

    lemma DroppedIsValid(vm: Vm, pid: nat)
      requires Parts() && Inv(vm, pageSize) && pid in vm.tables && |vm.tables[pid]| > 1
      requires LastPageDropped(vm, pid, State())
      requires BlocksOwned(vm.frames, Owners(), meta.framesPerProcess) && InUseWasUsed(vm.frames)
      requires swap.fixed ==> FreshPids(vm.tables, swap.seenPids, past)
      ensures Valid()
    {
      DropPageKeepsInv(vm, pid, State(), pageSize);
      FreeKeepsUse(vm.frames, State().frames, Owners(), meta.framesPerProcess);
    }

    method DropLastSeen(pid: nat)
      requires Valid() && pid in tables && |tables[pid]| > 1
      modifies this`pageTables, this`tables, meta.entries, tlb`cache, tlb.entries, swap`stored, swap`seenPids, swap`shelf, swap.Arrays
      ensures Valid() && Owners() == old(Owners()) && LastPageDropped(old(State()), pid, State())
      ensures pid in old(swap.shelf.home) && swap.shelf == Filled(old(swap.shelf), pid, -1)
      ensures pid in tables && |tables[pid]| == old(|tables[pid]|) - 1
      ensures pid in old(Seen()) && PageStart(|tables[pid]|, pageSize) <= |old(Seen())[pid]|
      ensures Seen() == old(Seen())[pid := old(Seen())[pid][..PageStart(|tables[pid]|, pageSize)]]
    {
      ghost var vm := State();
      HasHome(pid);
      DropLast(pid);
      DroppedIsShorter(vm, pid, State(), pageSize);
    }

    // One more blank page; if swap has no room, its entry is the last leftover.
    method AddPage(pid: nat, ghost vm: Vm, ghost k: nat) returns (page: int)
      requires Parts() && Inv(vm, pageSize) && pid in vm.tables && vm.tables[pid] != [] && pid in vm.shelf.home
      requires State() == Leftover(vm, pid, k, false, ZeroPage(pageSize))
      modifies this`pageTables, this`tables, swap`stored, swap`seenPids, swap`shelf, swap.Arrays
      ensures Parts() && swap.seenPids <= old(swap.seenPids) + {pid}
      ensures page == -1 <==> !RoomFor(Filled(vm.shelf, pid, k), pid, |vm.tables[pid]| + k)
      ensures State() == Leftover(vm, pid, k + 1, page == -1, ZeroPage(pageSize))
    {
      ExtendKeepsInv(vm, pid, k, pageSize);
      ExtendedShelf(vm, pid, k, ZeroPage(pageSize));
      LaterNotSaved(State(), pid, |tables[pid]|, pageSize);
      Listed(pid);
      NextPageInOrder(pid);
      page := CreatePage(pid);
    }

    /** Adds pages, all of them if swap has room and otherwise none at all. */
    method AddPages(pid: nat, newPageQty: nat, lastAllocAddr: nat) returns (ok: bool)
      requires Parts() && Inv(State(), pageSize) && pid in tables && pageSize > 0
      requires OnPage(lastAllocAddr + 9, |tables[pid]| - 1, pageSize)
      modifies this`pageTables, this`tables, swap`stored, swap`seenPids, swap`shelf, swap.Arrays
      ensures Parts() && swap.seenPids <= old(swap.seenPids) + {pid}
      ensures pid in old(swap.shelf.home) && (ok <==> RoomForMore(old(swap.shelf), pid, old(|tables[pid]|), newPageQty))
      ensures State() == if ok then Extended(old(State()), pid, newPageQty, ZeroPage(pageSize)) else old(State())
    {
      ghost var vm := State();
      HasHome(pid);
      for i := 0 to newPageQty
        invariant Parts() && swap.seenPids <= old(swap.seenPids) + {pid}
        invariant State() == Leftover(vm, pid, i, false, ZeroPage(pageSize))
        invariant RoomForMore(vm.shelf, pid, |vm.tables[pid]|, i)
      {
        ok := AddOrUndo(pid, lastAllocAddr, vm, i);
        if !ok {
          NoRoomForAny(vm.shelf, pid, |vm.tables[pid]|, i + 1, newPageQty);
          return;
        }
      }
      return true;
    }

    // One more page, or back to the state before the first one.
    method AddOrUndo(pid: nat, lastAllocAddr: nat, ghost vm: Vm, ghost i: nat) returns (ok: bool)
      requires Parts() && Inv(vm, pageSize) && pid in vm.tables && pid in vm.shelf.home && pageSize > 0
      requires OnPage(lastAllocAddr + 9, |vm.tables[pid]| - 1, pageSize)
      requires State() == Leftover(vm, pid, i, false, ZeroPage(pageSize)) && RoomForMore(vm.shelf, pid, |vm.tables[pid]|, i)
      modifies this`pageTables, this`tables, swap`stored, swap`seenPids, swap`shelf, swap.Arrays
      ensures Parts() && swap.seenPids <= old(swap.seenPids) + {pid}
      ensures ok <==> RoomForMore(vm.shelf, pid, |vm.tables[pid]|, i + 1)
      ensures State() == if ok then Leftover(vm, pid, i + 1, false, ZeroPage(pageSize)) else vm
    {
      FilledRoom(vm.shelf, pid, |vm.tables[pid]|, i);
      var page := AddPage(pid, vm, i);
      ok := page != -1;
      if !ok {
        DeleteLastPages(pid, lastAllocAddr, vm, i + 1, true);
      }
    }

    // ----- suspension

    // The page in a frame goes to swap and the frame is given up; its translation stays cached.
    method SuspendPage(pid: nat, i: nat)
      requires Parts() && HasPage(State(), PageKey(pid, i)) && PageKey(pid, i) in swap.stored
      requires 0 <= tables[pid][i].frame < meta.entries.Length
      modifies this`pageTables, this`tables, meta.entries, swap`stored, swap`seenPids, swap`shelf, swap.Arrays
      ensures Parts() && swap.seenPids == old(swap.seenPids) + {pid}
      ensures State() == Suspended(old(State()), PageKey(pid, i))
    {
      Listed(pid);
      var frame := pageTables[pid][i].frame;
      SaveFrame(frame, pid, i);
      meta.MarkFree(frame);
      SetTable(pid, pageTables[pid][i := pageTables[pid][i].(present := false)]);
    }

    method SuspendPages(pid: nat)
      requires Parts() && Inv(State(), pageSize) && pid in tables
      modifies this`pageTables, this`tables, meta.entries, swap`stored, swap`seenPids, swap`shelf, swap.Arrays
      ensures Parts() && swap.seenPids <= old(swap.seenPids) + (if old(tables)[pid] == [] then {} else {pid})
      ensures pid in old(State()).tables
      ensures Suspending(old(State()), State(), pid, |old(tables)[pid]|, pageSize)
    {
      ghost var vm := State();
      SuspendingStarts(vm, pid, pageSize);
      Listed(pid);
      var pages := |pageTables[pid]|;
      for i := 0 to pages
        invariant Parts() && swap.seenPids <= old(swap.seenPids) + (if vm.tables[pid] == [] then {} else {pid})
        invariant Suspending(vm, State(), pid, i, pageSize) && pid in pageTables && |pageTables[pid]| == pages
      {
        Listed(pid);
        if pid !in orphans {
          SuspendingStep(vm, State(), pid, i, pageSize);
        }
        if pageTables[pid][i].present {
          SuspendPage(pid, i);
          Listed(pid);
        }
      }
    }

    method ReleaseBlocks(pid: nat)
      requires Parts()
      modifies meta.firstFrame
      ensures Parts() && State() == old(State()) && Owners() == Released(old(Owners()), pid)
    {
      if meta.fixed {
        meta.ReleaseBlocks(pid);
      }
    }

    method FreeProcessEntries(pid: nat)
      requires Parts()
      modifies tlb`cache, tlb.entries
      ensures Parts() && State() == Calm(old(State()), pid)
    {
      tlb.FreeProcessEntries(pid);
    }

    lemma SuspendedIsValid(vm: Vm, st: Vm, pid: nat, owners: seq<int>, seen: set<nat>)
      requires Parts() && Inv(vm, pageSize) && pid in vm.tables
      requires Suspending(vm, st, pid, |vm.tables[pid]|, pageSize) && State() == Calm(st, pid)
      requires BlocksOwned(vm.frames, owners, meta.framesPerProcess) && InUseWasUsed(vm.frames)
      requires Owners() == Released(owners, pid)
      requires swap.fixed ==> FreshPids(vm.tables, seen, past)
      requires swap.seenPids <= seen + (if vm.tables[pid] == [] then {} else {pid})
      ensures Valid() && Seen() == Spaces(vm)
    {
      SuspendingEnds(vm, st, pid, pageSize);
      FreeKeepsUse(vm.frames, st.frames, owners, meta.framesPerProcess);
      ReleaseKeepsOwned(st.frames, owners, meta.framesPerProcess, pid);
      forall q | q in tables && tables[q] == [] ensures q in vm.tables && vm.tables[q] == [] {
        SameLength(vm, State(), q);
      }
    }

    // The process has nothing in memory.
    ghost predicate OutOfMemory(pid: nat)
      requires Shape()
      reads this, Repr
    {
      && (forall f :: 0 <= f < meta.entries.Length && !meta.entries[f].isFree ==> meta.entries[f].pid != pid)
      && (forall key :: key in tlb.cache ==> key.pid != pid)
    }

    /** Every page of the process goes to swap; its frames, its block and its translations are given up. */
    method Suspend(pid: nat)
      requires Valid() && pid in tables
      modifies this`pageTables, this`tables, meta.entries, meta.firstFrame, tlb`cache, tlb.entries
      modifies swap`stored, swap`seenPids, swap`shelf, swap.Arrays
      ensures Valid() && Seen() == old(Seen()) && Owners() == Released(old(Owners()), pid)
      ensures swap.shelf == old(swap.shelf) && OutOfMemory(pid)
      ensures forall f :: 0 <= f < meta.entries.Length && !old(meta.entries[f].isFree) ==>
        var e := old(meta.entries[f]); meta.entries[f] == if e.pid == pid then e.(isFree := true) else e
      ensures pid in tables && tables == old(tables)[pid := tables[pid]]
      ensures forall p :: 0 <= p < |tables[pid]| ==> !tables[pid][p].present
      ensures tlb.cache == map key | key in old(tlb.cache) && key.pid != pid :: old(tlb.cache)[key]
    {
      ghost var vm, owners, seen := State(), Owners(), swap.seenPids;
      SuspendPages(pid);
      ghost var st := State();
      ReleaseBlocks(pid);
      FreeProcessEntries(pid);
      SuspendedIsValid(vm, st, pid, owners, seen);
      SuspendingEnds(vm, st, pid, pageSize);
      assert meta.entries[..] == st.frames;
    }

    // ----- processes come and go

    // The pages of a process from number i on are gone from swap, and their frames from the frame table.
    ghost predicate Ending(vm: Vm, pid: nat, i: nat)
      requires Shape()
      reads this, Repr
    {
      State() == Vm(tables, FramesEnding(vm.frames, pid, i), vm.ram, vm.cache, SwapEnding(vm.swap, pid, i),
                    ShelfEnding(vm.shelf, pid, PageCount(vm, pid), i))
    }

    method EndPage(pid: nat, i: nat, ghost vm: Vm)
      requires Parts() && Inv(vm, pageSize) && Ending(vm, pid, i + 1) && pid in pageTables && i < |pageTables[pid]|
      requires EntryOf(vm, pid, i, pageTables[pid][i])
      modifies meta.entries, swap`stored, swap`seenPids, swap`shelf, swap.Arrays
      ensures Parts() && Ending(vm, pid, i) && swap.seenPids == old(swap.seenPids)
    {
      EndingStep(vm, pid, i, pageSize);
      EndingShelf(vm, pid, PageCount(vm, pid), i, pageSize);
      var erased := swap.DestroyPage(pid, i);
      if pageTables[pid][i].present {
        meta.MarkFree(pageTables[pid][i].frame);
      }
    }

    // The entry of page i, or the entry without a page that an orphan has.
    ghost predicate EntryOf(vm: Vm, pid: nat, i: nat, pte: Pte) {
      if HasPage(vm, PageKey(pid, i)) then pte == vm.tables[pid][i] else !pte.present
    }

    method EndPages(pid: nat)
      requires Parts() && Inv(State(), pageSize) && pid in tables
      modifies meta.entries, swap`stored, swap`seenPids, swap`shelf, swap.Arrays
      ensures Parts() && Ending(old(State()), pid, 0) && swap.seenPids == old(swap.seenPids)
    {
      ghost var vm := State();
      Listed(pid);
      var pageQty := |pageTables[pid]|;
      EndingStarts(vm, pid, pageQty, pageSize);
      for i := pageQty downto 0
        invariant Parts() && Ending(vm, pid, i) && swap.seenPids == old(swap.seenPids)
      {
        EndPage(pid, i, vm);
      }
    }

    // The dictionary loses its entry.
    method RemoveTable(pid: nat)
      requires Parts() && pid in tables
      modifies this`pageTables, this`tables, this`orphans, this`past
      ensures Parts() && State() == old(State()).(tables := old(tables) - {pid})
      ensures orphans == old(orphans) - {pid} && past == old(past) + {pid}
    {
      ghost var before := tables;
      assert forall q {:trigger AnyPid(q)} :: AnyPid(q) && q != pid ==> (q in pageTables <==> q in tables);
      pageTables := pageTables - {pid};
      tables, orphans, past := tables - {pid}, orphans - {pid}, past + {pid};
    }

    /**
     The end of a process: its pages, frames and translations go, its table is removed.
     Its block of frames keeps its owner.
     */
    method Terminate(pid: nat)
      requires Parts() && Inv(State(), pageSize) && pid in tables
      modifies this`pageTables, this`tables, this`orphans, this`past, meta.entries, tlb`cache, tlb.entries
      modifies swap`stored, swap`seenPids, swap`shelf, swap.Arrays
      ensures Parts() && State() == Terminated(old(State()), pid) && swap.seenPids == old(swap.seenPids)
      ensures orphans == old(orphans) - {pid} && past == old(past) + {pid}
    {
      EndPages(pid);
      RemoveTable(pid);
      FreeProcessEntries(pid);
    }

    lemma TerminatedIsValid(vm: Vm, pid: nat)
      requires Parts() && Inv(vm, pageSize) && State() == Terminated(vm, pid)
      requires BlocksOwned(vm.frames, Owners(), meta.framesPerProcess) && InUseWasUsed(vm.frames)
      requires swap.fixed ==> FreshPids(vm.tables - {pid}, swap.seenPids, past)
      ensures Valid() && Seen() == Spaces(vm) - {pid}
    {
      TerminateKeepsInv(vm, pid, pageSize);
      FreeKeepsUse(vm.frames, State().frames, Owners(), meta.framesPerProcess);
    }

    /** A process connects, with no pages. */
    method Register(pid: nat)
      requires Valid() && pid !in tables && (swap.fixed ==> pid !in past)
      modifies this`pageTables, this`tables
      ensures Valid() && Seen() == old(Seen())[pid := []]
    {
      AddProcessSpaces(State(), pid, pageSize);
      Listed(pid);
      pageTables, tables := pageTables[pid := []], tables[pid := []];
    }

    // Adding pages to a process that has some, at the end of whose last page its last block ends.
    method Grow(pid: nat, newPageQty: nat, lastAllocAddr: nat) returns (ok: bool)
      requires Valid() && pid in tables && pageSize > 0
      requires OnPage(lastAllocAddr + 9, |tables[pid]| - 1, pageSize)
      modifies this`pageTables, this`tables, swap`stored, swap`seenPids, swap`shelf, swap.Arrays
      ensures Valid() && pid in old(Seen()) && Owners() == old(Owners())
      ensures pid in old(swap.shelf.home) && (ok <==> RoomForMore(old(swap.shelf), pid, old(|tables[pid]|), newPageQty))
      ensures swap.shelf == if ok then Filled(old(swap.shelf), pid, newPageQty) else old(swap.shelf)
      ensures Seen() == if ok then old(Seen())[pid := old(Seen())[pid] + Zeros(newPageQty, pageSize)] else old(Seen())
    {
      ghost var vm, seen := State(), swap.seenPids;
      ok := AddPages(pid, newPageQty, lastAllocAddr);
      ExtendedShelf(vm, pid, newPageQty, ZeroPage(pageSize));
      GrownIsValid(vm, pid, if ok then newPageQty else 0, seen);
    }

    // The entry without a page that a failed first page leaves.
    ghost method Orphan(pid: nat, vm: Vm)
      requires Parts() && pid in vm.tables && vm.tables[pid] == [] && State() == Dangling(vm, pid) && pid !in orphans
      modifies this`tables, this`orphans
      ensures Parts() && State() == vm && orphans == old(orphans) + {pid}
    {
      Listed(pid);
      tables, orphans := vm.tables, orphans + {pid};
    }

    /**
     The first page of a process; it fails exactly if no file of swap has room for it,
     and then leaves an entry without a page.
     */
    method FirstPage(pid: nat) returns (ok: bool)
      requires Valid() && pid in tables && tables[pid] == [] && pid !in orphans
      modifies this`pageTables, this`tables, this`orphans, swap`stored, swap`seenPids, swap`shelf, swap.Arrays
      ensures Valid() && (ok <==> RoomForFirst(old(swap.shelf)))
      ensures swap.shelf == if ok then Taken(old(swap.shelf), pid) else old(swap.shelf)
      ensures Seen() == if ok then old(Seen())[pid := ZeroPage(pageSize)] else old(Seen())
      ensures orphans == if ok then old(orphans) else old(orphans) + {pid}
    {
      ghost var vm, seen := State(), swap.seenPids;
      ok := CreateFirst(pid);
      if ok {
        FirstPageSpaces(vm, pid);
        GrownIsValid(vm, pid, 1, seen);
      } else {
        Orphan(pid, vm);
      }
    }

    method CreateFirst(pid: nat) returns (ok: bool)
      requires Parts() && Inv(State(), pageSize) && NewPidsFresh() && pid in tables && tables[pid] == [] && pid !in orphans
      modifies this`pageTables, this`tables, swap`stored, swap`seenPids, swap`shelf, swap.Arrays
      ensures ok <==> RoomForFirst(old(swap.shelf))
      ensures Parts() && swap.seenPids == if ok then old(swap.seenPids) + {pid} else old(swap.seenPids)
      ensures State() == if ok then PageAdded(old(State()), pid, ZeroPage(pageSize)) else Dangling(old(State()), pid)
      ensures swap.shelf == if ok then Taken(old(swap.shelf), pid) else old(swap.shelf)
    {
      assert AnyPid(pid);
      HasHome(pid);
      LaterNotSaved(State(), pid, 0, pageSize);
      NextPageInOrder(pid);
      var page := CreatePage(pid);
      ok := page != -1;
    }

    lemma FirstPageSpaces(vm: Vm, pid: nat)
      requires pid in vm.tables && vm.tables[pid] == []
      ensures Extended(vm, pid, 1, ZeroPage(pageSize)) == PageAdded(vm, pid, ZeroPage(pageSize))
      ensures Spaces(vm)[pid] + Zeros(1, pageSize) == ZeroPage(pageSize)
    {
      assert Extended(vm, pid, 0, ZeroPage(pageSize)) == vm;
      assert Zeros(0, pageSize) == [];
      assert Spaces(vm)[pid] == [];
      assert Zeros(1, pageSize) == ZeroPage(pageSize);
    }

    method CleanTLB()
      requires Valid()
      modifies tlb`cache, tlb.entries
      ensures Valid() && Seen() == old(Seen()) && State() == old(State()).(cache := map[])
    {
      ghost var vm := State();
      tlb.CleanTLB();
      RelabelKeepsInv(vm, State(), pageSize);
      SeenSame(vm);
    }
  }
}
