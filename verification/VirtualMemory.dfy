/**
 The state of the memory module as one value, its invariant, and the pages it
 stands for.

 A page is in a frame or in swap.  The invariant ties page tables, frame table,
 TLB and swap together so that moving pages between them never changes what a
 process sees: the page tables and the frame table are inverses of each other, a
 resident page that nobody modified equals its copy in swap, and an entry of the
 TLB is an entry of a page table.
 */
module VirtualMemory {
  import opened Bytes
  import opened SwapModel
  import opened SwapShelf
  import opened Policies
  import opened FrameTable

  datatype Pte = Pte(present: bool, frame: int)

  datatype Vm = Vm(
    tables: map<nat, seq<Pte>>,
    frames: seq<FrameMeta>,
    ram: seq<Page>,
    cache: map<PageKey, nat>,
    swap: map<PageKey, Page>,
    shelf: Shelf)

  predicate HasPage(vm: Vm, key: PageKey) {
    key.pid in vm.tables && key.page < |vm.tables[key.pid]|
  }

  function PteOf(vm: Vm, key: PageKey): Pte
    requires HasPage(vm, key)
  {
    vm.tables[key.pid][key.page]
  }

  function FrameKey(e: FrameMeta): PageKey {
    PageKey(e.pid, e.page)
  }

  // Page key is in frame f.
  predicate Resident(vm: Vm, key: PageKey, f: int) {
    HasPage(vm, key) && PteOf(vm, key) == Pte(true, f)
  }

  // ----- the invariant

  ghost predicate Sized(vm: Vm, pageSize: nat) {
    && |vm.ram| == |vm.frames|
    && (forall f :: 0 <= f < |vm.ram| ==> |vm.ram[f]| == pageSize)
    && (forall key :: key in vm.swap ==> |vm.swap[key]| == pageSize)
  }

  // A present page is in a frame that is in use and labelled with it.
  ghost predicate TablesAgree(vm: Vm) {
    forall key {:trigger PteOf(vm, key)} :: HasPage(vm, key) && PteOf(vm, key).present ==>
      var f := PteOf(vm, key).frame;
      0 <= f < |vm.frames| && !vm.frames[f].isFree && FrameKey(vm.frames[f]) == key
  }

  // A frame in use holds the page it is labelled with.
  ghost predicate FramesAgree(vm: Vm) {
    forall f :: 0 <= f < |vm.frames| && !vm.frames[f].isFree ==> Resident(vm, FrameKey(vm.frames[f]), f)
  }

  // A page that was not modified since it was loaded equals its copy in swap.
  ghost predicate CleanPagesSaved(vm: Vm)
    requires |vm.ram| == |vm.frames|
  {
    forall f :: 0 <= f < |vm.frames| && !vm.frames[f].isFree && !vm.frames[f].modified ==>
      FrameKey(vm.frames[f]) in vm.swap && vm.swap[FrameKey(vm.frames[f])] == vm.ram[f]
  }

  ghost predicate SwapHasAll(vm: Vm) {
    forall key {:trigger HasPage(vm, key)} {:trigger key in vm.swap} :: HasPage(vm, key) <==> key in vm.swap
  }

  // Every cached translation is right.
  ghost predicate CacheCoherent(vm: Vm) {
    forall key :: key in vm.cache ==> Resident(vm, key, vm.cache[key])
  }

  ghost predicate Inv(vm: Vm, pageSize: nat) {
    && Sized(vm, pageSize)
    && TablesAgree(vm)
    && FramesAgree(vm)
    && CleanPagesSaved(vm)
    && SwapHasAll(vm)
    && CacheCoherent(vm)
  }

  /** Page tables and frame table are inverses of each other, and the TLB agrees with both. */
  lemma TablesAndFramesInverse(vm: Vm, key: PageKey, f: nat, pageSize: nat)
    requires Inv(vm, pageSize)
    ensures Resident(vm, key, f) <==> f < |vm.frames| && !vm.frames[f].isFree && FrameKey(vm.frames[f]) == key
    ensures key in vm.cache ==>
      vm.cache[key] < |vm.frames| && !vm.frames[vm.cache[key]].isFree && FrameKey(vm.frames[vm.cache[key]]) == key
  {
    if key in vm.cache {
      assert Resident(vm, key, vm.cache[key]);
    }
    if f < |vm.frames| && !vm.frames[f].isFree {
      assert Resident(vm, FrameKey(vm.frames[f]), f);
    }
  }

  // ----- what processes see

  ghost function PageOf(vm: Vm, key: PageKey): Page {
    if HasPage(vm, key) && PteOf(vm, key).present && 0 <= PteOf(vm, key).frame < |vm.ram| then vm.ram[PteOf(vm, key).frame]
    else if key in vm.swap then vm.swap[key]
    else []
  }

  // The pages of every process, and how full swap is.
  ghost predicate SamePages(vm: Vm, to: Vm) {
    && (forall key :: HasPage(vm, key) <==> HasPage(to, key))
    && (forall key :: HasPage(vm, key) ==> PageOf(to, key) == PageOf(vm, key))
    && to.tables.Keys == vm.tables.Keys
    && to.shelf == vm.shelf
  }

  lemma SamePagesTrans(a: Vm, b: Vm, c: Vm)
    requires SamePages(a, b) && SamePages(b, c)
    ensures SamePages(a, c)
  {
    forall key | HasPage(a, key) ensures PageOf(c, key) == PageOf(a, key) {
      assert HasPage(b, key);
    }
    forall key ensures HasPage(a, key) <==> HasPage(c, key) {
      assert HasPage(a, key) <==> HasPage(b, key);
    }
  }

  function SetPte(vm: Vm, key: PageKey, pte: Pte): map<nat, seq<Pte>>
    requires HasPage(vm, key)
  {
    vm.tables[key.pid := vm.tables[key.pid][key.page := pte]]
  }

  lemma SetPteAt(vm: Vm, to: Vm, key: PageKey, pte: Pte, other: PageKey)
    requires HasPage(vm, key) && to.tables == SetPte(vm, key, pte)
    ensures HasPage(to, other) <==> HasPage(vm, other)
    ensures HasPage(vm, other) ==> PteOf(to, other) == if other == key then pte else PteOf(vm, other)
    ensures to.tables.Keys == vm.tables.Keys
  {
  }

  // ----- a victim leaves its frame

  function SaveVictim(vm: Vm, v: nat): map<PageKey, Page>
    requires v < |vm.frames| && v < |vm.ram|
  {
    if vm.frames[v].modified then vm.swap[FrameKey(vm.frames[v]) := vm.ram[v]] else vm.swap
  }

  ghost function Evicted(vm: Vm, v: nat): Vm
    requires v < |vm.frames| && v < |vm.ram|
  {
    if vm.frames[v].isFree || !HasPage(vm, FrameKey(vm.frames[v])) then vm
    else
      var key := FrameKey(vm.frames[v]);
      Vm(SetPte(vm, key, Pte(false, -1)), vm.frames[v := vm.frames[v].(isFree := true)], vm.ram,
         vm.cache - {key}, SaveVictim(vm, v), vm.shelf)
  }

  /** Evicting a page, saved only if it was modified, is invisible. */
  lemma EvictKeepsInv(vm: Vm, v: nat, pageSize: nat)
    requires Inv(vm, pageSize) && v < |vm.frames|
    ensures Inv(Evicted(vm, v), pageSize) && SamePages(vm, Evicted(vm, v))
    ensures Evicted(vm, v).frames[v].isFree
  {
    var to := Evicted(vm, v);
    if !vm.frames[v].isFree {
      var key := FrameKey(vm.frames[v]);
      assert Resident(vm, key, v);
      forall k ensures HasPage(to, k) <==> HasPage(vm, k) {
        SetPteAt(vm, to, key, Pte(false, -1), k);
      }
      EvictPtes(vm, v, pageSize);
      EvictTables(vm, v, pageSize);
      EvictPages(vm, v, pageSize);
    }
  }

  lemma EvictPtes(vm: Vm, v: nat, pageSize: nat)
    requires Inv(vm, pageSize) && v < |vm.frames| && !vm.frames[v].isFree
    requires HasPage(vm, FrameKey(vm.frames[v]))
    ensures var to := Evicted(vm, v); var key := FrameKey(vm.frames[v]);
      && (forall k :: HasPage(to, k) <==> HasPage(vm, k))
      && (forall k {:trigger PteOf(to, k)} {:trigger PteOf(vm, k)} :: HasPage(vm, k) ==>
            PteOf(to, k) == if k == key then Pte(false, -1) else PteOf(vm, k))
      && to.tables.Keys == vm.tables.Keys
  {
    var to, key := Evicted(vm, v), FrameKey(vm.frames[v]);
    forall k ensures HasPage(to, k) <==> HasPage(vm, k) {
      SetPteAt(vm, to, key, Pte(false, -1), k);
    }
    forall k | HasPage(vm, k) ensures PteOf(to, k) == if k == key then Pte(false, -1) else PteOf(vm, k) {
      SetPteAt(vm, to, key, Pte(false, -1), k);
    }
  }

  lemma EvictTables(vm: Vm, v: nat, pageSize: nat)
    requires Inv(vm, pageSize) && v < |vm.frames| && !vm.frames[v].isFree
    ensures var to := Evicted(vm, v);
      TablesAgree(to) && FramesAgree(to) && SwapHasAll(to) && CacheCoherent(to)
  {
    var to, key := Evicted(vm, v), FrameKey(vm.frames[v]);
    assert Resident(vm, key, v);
    EvictPtes(vm, v, pageSize);
    forall f | 0 <= f < |to.frames| && !to.frames[f].isFree ensures Resident(to, FrameKey(to.frames[f]), f) {
      assert Resident(vm, FrameKey(vm.frames[f]), f);
    }
    forall k | k in to.cache ensures Resident(to, k, to.cache[k]) {
      assert Resident(vm, k, vm.cache[k]);
    }
  }

  lemma EvictPages(vm: Vm, v: nat, pageSize: nat)
    requires Inv(vm, pageSize) && v < |vm.frames| && !vm.frames[v].isFree
    ensures var to := Evicted(vm, v);
      Sized(to, pageSize) && CleanPagesSaved(to) && SamePages(vm, to)
  {
    var to, key := Evicted(vm, v), FrameKey(vm.frames[v]);
    assert Resident(vm, key, v);
    EvictPtes(vm, v, pageSize);
    forall k | HasPage(vm, k) ensures PageOf(to, k) == PageOf(vm, k) {
      assert k in vm.swap;
      assert PteOf(to, k) == if k == key then Pte(false, -1) else PteOf(vm, k);
    }
    forall f | 0 <= f < |to.frames| && !to.frames[f].isFree && !to.frames[f].modified
      ensures FrameKey(to.frames[f]) in to.swap && to.swap[FrameKey(to.frames[f])] == to.ram[f]
    {
      assert Resident(vm, FrameKey(vm.frames[f]), f);
      assert FrameKey(vm.frames[f]) != key;
    }
  }

  // ----- a page enters a free frame

  // The cache may lose entries at any time.
  ghost predicate CacheWithin(cache: map<PageKey, nat>, bound: map<PageKey, nat>) {
    forall key :: key in cache ==> key in bound && cache[key] == bound[key]
  }

  function LoadedMeta(e: FrameMeta, key: PageKey): FrameMeta {
    FrameMeta(false, false, true, key.pid, key.page, e.timeStamp)
  }

  ghost function Loaded(vm: Vm, v: nat, key: PageKey, cache: map<PageKey, nat>): Vm
    requires v < |vm.frames| && v < |vm.ram| && HasPage(vm, key) && key in vm.swap
  {
    Vm(SetPte(vm, key, Pte(true, v)), vm.frames[v := LoadedMeta(vm.frames[v], key)],
       vm.ram[v := vm.swap[key]], cache, vm.swap, vm.shelf)
  }

  lemma LoadPtes(vm: Vm, v: nat, key: PageKey, cache: map<PageKey, nat>)
    requires v < |vm.frames| && v < |vm.ram| && HasPage(vm, key) && key in vm.swap
    ensures var to := Loaded(vm, v, key, cache);
      && (forall k :: HasPage(to, k) <==> HasPage(vm, k))
      && (forall k {:trigger PteOf(to, k)} {:trigger PteOf(vm, k)} :: HasPage(vm, k) ==>
            PteOf(to, k) == if k == key then Pte(true, v) else PteOf(vm, k))
      && to.tables.Keys == vm.tables.Keys
  {
    var to := Loaded(vm, v, key, cache);
    forall k ensures HasPage(to, k) <==> HasPage(vm, k) {
      SetPteAt(vm, to, key, Pte(true, v), k);
    }
    forall k | HasPage(vm, k) ensures PteOf(to, k) == if k == key then Pte(true, v) else PteOf(vm, k) {
      SetPteAt(vm, to, key, Pte(true, v), k);
    }
  }

  lemma LoadTables(vm: Vm, v: nat, key: PageKey, cache: map<PageKey, nat>, pageSize: nat)
    requires Inv(vm, pageSize) && v < |vm.frames| && vm.frames[v].isFree
    requires HasPage(vm, key) && !PteOf(vm, key).present && key in vm.swap
    requires CacheWithin(cache, vm.cache[key := v])
    ensures var to := Loaded(vm, v, key, cache);
      TablesAgree(to) && FramesAgree(to) && SwapHasAll(to) && CacheCoherent(to)
  {
    var to := Loaded(vm, v, key, cache);
    LoadPtes(vm, v, key, cache);
    forall f | 0 <= f < |to.frames| && !to.frames[f].isFree ensures Resident(to, FrameKey(to.frames[f]), f) {
      if f != v {
        assert Resident(vm, FrameKey(vm.frames[f]), f);
      }
    }
    forall k | k in to.cache ensures Resident(to, k, to.cache[k]) {
      if k != key {
        assert Resident(vm, k, vm.cache[k]);
      }
    }
    assert PteOf(to, key) == Pte(true, v);
  }

  lemma LoadPages(vm: Vm, v: nat, key: PageKey, cache: map<PageKey, nat>, pageSize: nat)
    requires Inv(vm, pageSize) && v < |vm.frames| && vm.frames[v].isFree
    requires HasPage(vm, key) && !PteOf(vm, key).present && key in vm.swap
    ensures var to := Loaded(vm, v, key, cache);
      Sized(to, pageSize) && CleanPagesSaved(to) && SamePages(vm, to)
  {
    var to := Loaded(vm, v, key, cache);
    LoadPtes(vm, v, key, cache);
    forall k | HasPage(vm, k) ensures PageOf(to, k) == PageOf(vm, k) {
      assert k in vm.swap;
      assert PteOf(to, k) == if k == key then Pte(true, v) else PteOf(vm, k);
    }
  }

  /** Loading an absent page into a free frame is invisible. */
  lemma LoadKeepsInv(vm: Vm, v: nat, key: PageKey, cache: map<PageKey, nat>, pageSize: nat)
    requires Inv(vm, pageSize) && v < |vm.frames| && vm.frames[v].isFree
    requires HasPage(vm, key) && !PteOf(vm, key).present && key in vm.swap
    requires CacheWithin(cache, vm.cache[key := v])
    ensures Inv(Loaded(vm, v, key, cache), pageSize) && SamePages(vm, Loaded(vm, v, key, cache))
    ensures Resident(Loaded(vm, v, key, cache), key, v)
  {
    LoadTables(vm, v, key, cache, pageSize);
    LoadPages(vm, v, key, cache, pageSize);
  }

  // ----- bookkeeping that changes no page

  // Use bits and timestamps may change freely.
  ghost predicate SameLabels(es: seq<FrameMeta>, t: seq<FrameMeta>) {
    && |t| == |es|
    && forall f :: 0 <= f < |es| ==>
         && t[f].isFree == es[f].isFree && t[f].modified == es[f].modified
         && t[f].pid == es[f].pid && t[f].page == es[f].page
  }

  lemma RelabelKeepsInv(vm: Vm, to: Vm, pageSize: nat)
    requires Inv(vm, pageSize) && SameLabels(vm.frames, to.frames) && CacheWithin(to.cache, vm.cache)
    requires to.tables == vm.tables && to.ram == vm.ram && to.swap == vm.swap && to.shelf == vm.shelf
    ensures Inv(to, pageSize) && SamePages(vm, to)
  {
    assert forall k :: HasPage(to, k) <==> HasPage(vm, k);
    assert forall k :: HasPage(vm, k) ==> PteOf(to, k) == PteOf(vm, k);
    forall f | 0 <= f < |to.frames| && !to.frames[f].isFree ensures Resident(to, FrameKey(to.frames[f]), f) {
      assert Resident(vm, FrameKey(vm.frames[f]), f);
    }
    forall k | k in to.cache ensures Resident(to, k, to.cache[k]) {
      assert Resident(vm, k, vm.cache[k]);
    }
  }

  lemma CacheAdds(vm: Vm, cache: map<PageKey, nat>, key: PageKey, f: nat, pageSize: nat)
    requires Inv(vm, pageSize) && Resident(vm, key, f) && CacheWithin(cache, vm.cache[key := f])
    ensures Inv(vm.(cache := cache), pageSize) && SamePages(vm, vm.(cache := cache))
  {
    var to := vm.(cache := cache);
    assert forall k :: HasPage(to, k) <==> HasPage(vm, k);
    assert forall k :: HasPage(vm, k) ==> PteOf(to, k) == PteOf(vm, k);
    forall f | 0 <= f < |to.frames| && !to.frames[f].isFree ensures Resident(to, FrameKey(to.frames[f]), f) {
      assert Resident(vm, FrameKey(vm.frames[f]), f);
    }
    forall k | k in to.cache ensures Resident(to, k, to.cache[k]) {
      if k != key {
        assert Resident(vm, k, vm.cache[k]);
      }
    }
  }

  // ----- a resident page is written

  ghost function Written(vm: Vm, f: nat, content: Page): Vm
    requires f < |vm.frames| && f < |vm.ram|
  {
    vm.(frames := vm.frames[f := vm.frames[f].(modified := true, u := true)], ram := vm.ram[f := content])
  }

  /** Writing a frame in use changes exactly the page it is labelled with. */
  lemma WriteIsVisible(vm: Vm, f: nat, key: PageKey, content: Page, pageSize: nat)
    requires Inv(vm, pageSize) && f < |vm.frames| && Resident(vm, key, f) && |content| == pageSize
    ensures var to := Written(vm, f, content);
      && Inv(to, pageSize)
      && to.tables == vm.tables
      && PageOf(to, key) == content
      && forall k :: HasPage(vm, k) && k != key ==> PageOf(to, k) == PageOf(vm, k)
  {
    var to := Written(vm, f, content);
    assert PteOf(vm, key) == Pte(true, f);
    assert forall k :: HasPage(to, k) <==> HasPage(vm, k);
    assert forall k :: HasPage(vm, k) ==> PteOf(to, k) == PteOf(vm, k);
    forall g | 0 <= g < |to.frames| && !to.frames[g].isFree ensures Resident(to, FrameKey(to.frames[g]), g) {
      assert Resident(vm, FrameKey(vm.frames[g]), g);
    }
    forall k | k in to.cache ensures Resident(to, k, to.cache[k]) {
      assert Resident(vm, k, vm.cache[k]);
    }
  }

  // ----- pages come and go

  ghost function PageAdded(vm: Vm, pid: nat, content: Page): Vm
    requires pid in vm.tables
  {
    vm.(tables := vm.tables[pid := vm.tables[pid] + [Pte(false, 0)]],
        swap := vm.swap[PageKey(pid, |vm.tables[pid]|) := content], shelf := Taken(vm.shelf, pid))
  }

  lemma AddPageKeepsInv(vm: Vm, pid: nat, content: Page, pageSize: nat)
    requires Inv(vm, pageSize) && pid in vm.tables && |content| == pageSize
    ensures var to := PageAdded(vm, pid, content); var key := PageKey(pid, |vm.tables[pid]|);
      && Inv(to, pageSize)
      && PageOf(to, key) == content
      && (forall k :: HasPage(to, k) <==> HasPage(vm, k) || k == key)
      && (forall k :: HasPage(vm, k) ==> PageOf(to, k) == PageOf(vm, k))
  {
    var to, key := PageAdded(vm, pid, content), PageKey(pid, |vm.tables[pid]|);
    assert forall k :: HasPage(to, k) <==> HasPage(vm, k) || k == key;
    assert forall k :: HasPage(vm, k) ==> PteOf(to, k) == PteOf(vm, k);
    assert PteOf(to, key) == Pte(false, 0);
    forall g | 0 <= g < |to.frames| && !to.frames[g].isFree ensures Resident(to, FrameKey(to.frames[g]), g) {
      assert Resident(vm, FrameKey(vm.frames[g]), g);
    }
    forall k | k in to.cache ensures Resident(to, k, to.cache[k]) {
      assert Resident(vm, k, vm.cache[k]);
    }
  }

  // The last page of a process is dropped; its frame, if it has one, becomes free.
  ghost predicate LastPageDropped(vm: Vm, pid: nat, to: Vm)
    requires pid in vm.tables && vm.tables[pid] != []
  {
    var n := |vm.tables[pid]| - 1;
    var key := PageKey(pid, n);
    var pte := vm.tables[pid][n];
    && to.tables == vm.tables[pid := vm.tables[pid][..n]]
    && to.ram == vm.ram
    && to.swap == vm.swap - {key}
    && to.shelf == AfterDestroy(vm.shelf, vm.swap, pid, n)
    && to.cache == vm.cache - {key}
    && |to.frames| == |vm.frames|
    && (forall f :: 0 <= f < |vm.frames| && !(pte.present && pte.frame == f) ==> to.frames[f] == vm.frames[f])
    && (pte.present && 0 <= pte.frame < |to.frames| ==> to.frames[pte.frame].isFree)
  }

  lemma DropPages(vm: Vm, pid: nat, to: Vm)
    requires pid in vm.tables && vm.tables[pid] != [] && LastPageDropped(vm, pid, to)
    ensures var key := PageKey(pid, |vm.tables[pid]| - 1);
      && (forall k :: HasPage(to, k) <==> HasPage(vm, k) && k != key)
      && (forall k {:trigger PteOf(to, k)} :: HasPage(to, k) ==> PteOf(to, k) == PteOf(vm, k))
  {
  }

  lemma DropPageKeepsTables(vm: Vm, pid: nat, to: Vm, pageSize: nat)
    requires Inv(vm, pageSize) && pid in vm.tables && vm.tables[pid] != [] && LastPageDropped(vm, pid, to)
    ensures TablesAgree(to) && FramesAgree(to) && CacheCoherent(to)
  {
    var key := PageKey(pid, |vm.tables[pid]| - 1);
    DropPages(vm, pid, to);
    assert HasPage(vm, key) && PteOf(vm, key) == vm.tables[pid][|vm.tables[pid]| - 1];
    forall g | 0 <= g < |to.frames| && !to.frames[g].isFree ensures Resident(to, FrameKey(to.frames[g]), g) {
      assert to.frames[g] == vm.frames[g];
      assert Resident(vm, FrameKey(vm.frames[g]), g);
      assert FrameKey(vm.frames[g]) != key;
    }
    forall k | k in to.cache ensures Resident(to, k, to.cache[k]) {
      assert Resident(vm, k, vm.cache[k]);
    }
  }

  /** Dropping the last page of a process changes no other page. */
  lemma DropPageKeepsInv(vm: Vm, pid: nat, to: Vm, pageSize: nat)
    requires Inv(vm, pageSize) && pid in vm.tables && vm.tables[pid] != [] && LastPageDropped(vm, pid, to)
    ensures Inv(to, pageSize)
    ensures forall k :: HasPage(to, k) <==> HasPage(vm, k) && k != PageKey(pid, |vm.tables[pid]| - 1)
    ensures forall k :: HasPage(to, k) ==> PageOf(to, k) == PageOf(vm, k)
  {
    DropPages(vm, pid, to);
    DropPageKeepsTables(vm, pid, to, pageSize);
    forall f | 0 <= f < |to.frames| && !to.frames[f].isFree && !to.frames[f].modified
      ensures FrameKey(to.frames[f]) in to.swap && to.swap[FrameKey(to.frames[f])] == to.ram[f]
    {
      assert Resident(to, FrameKey(to.frames[f]), f);
    }
  }

  // ----- suspension

  // A resident page without a cached translation goes to swap and leaves its frame.
  ghost function Suspended(vm: Vm, key: PageKey): Vm
    requires HasPage(vm, key) && 0 <= PteOf(vm, key).frame < |vm.frames| && |vm.ram| == |vm.frames|
  {
    var f := PteOf(vm, key).frame;
    vm.(tables := SetPte(vm, key, PteOf(vm, key).(present := false)),
        frames := vm.frames[f := vm.frames[f].(isFree := true)],
        swap := vm.swap[key := vm.ram[f]])
  }

  lemma SuspendPtes(vm: Vm, key: PageKey)
    requires HasPage(vm, key) && 0 <= PteOf(vm, key).frame < |vm.frames| && |vm.ram| == |vm.frames|
    ensures var to := Suspended(vm, key);
      && (forall k :: HasPage(to, k) <==> HasPage(vm, k))
      && (forall k {:trigger PteOf(to, k)} {:trigger PteOf(vm, k)} :: HasPage(vm, k) ==>
            PteOf(to, k) == if k == key then PteOf(vm, key).(present := false) else PteOf(vm, k))
      && to.tables.Keys == vm.tables.Keys
  {
    var to, pte := Suspended(vm, key), PteOf(vm, key).(present := false);
    forall k ensures HasPage(to, k) <==> HasPage(vm, k) {
      SetPteAt(vm, to, key, pte, k);
    }
    forall k | HasPage(vm, k) ensures PteOf(to, k) == if k == key then pte else PteOf(vm, k) {
      SetPteAt(vm, to, key, pte, k);
    }
  }

  /** Suspending a page, saved whether modified or not, is invisible. */
  lemma SuspendKeepsInv(vm: Vm, key: PageKey, pageSize: nat)
    requires Inv(vm, pageSize) && HasPage(vm, key) && PteOf(vm, key).present && key !in vm.cache
    ensures 0 <= PteOf(vm, key).frame < |vm.frames|
    ensures Inv(Suspended(vm, key), pageSize) && SamePages(vm, Suspended(vm, key))
  {
    var to, f := Suspended(vm, key), PteOf(vm, key).frame;
    SuspendPtes(vm, key);
    assert Resident(vm, key, f);
    forall g | 0 <= g < |to.frames| && !to.frames[g].isFree ensures Resident(to, FrameKey(to.frames[g]), g) {
      assert Resident(vm, FrameKey(vm.frames[g]), g);
    }
    forall k | k in to.cache ensures Resident(to, k, to.cache[k]) {
      assert Resident(vm, k, vm.cache[k]);
    }
    forall k | HasPage(vm, k) ensures PageOf(to, k) == PageOf(vm, k) {
      assert k in vm.swap;
      assert PteOf(to, k) == if k == key then PteOf(vm, key).(present := false) else PteOf(vm, k);
    }
  }

  // ----- processes come and go

  lemma AddProcessKeepsInv(vm: Vm, pid: nat, pageSize: nat)
    requires Inv(vm, pageSize) && pid !in vm.tables
    ensures var to := vm.(tables := vm.tables[pid := []]);
      && Inv(to, pageSize)
      && (forall k :: HasPage(to, k) <==> HasPage(vm, k))
      && (forall k :: HasPage(vm, k) ==> PageOf(to, k) == PageOf(vm, k))
  {
    var to := vm.(tables := vm.tables[pid := []]);
    assert forall k :: HasPage(to, k) <==> HasPage(vm, k);
    SameProcesses(vm, to, pageSize);
  }

  lemma SameProcesses(vm: Vm, to: Vm, pageSize: nat)
    requires Inv(vm, pageSize) && to == vm.(tables := to.tables)
    requires forall k :: HasPage(to, k) <==> HasPage(vm, k)
    requires forall k :: HasPage(vm, k) ==> PteOf(to, k) == PteOf(vm, k)
    ensures Inv(to, pageSize)
    ensures forall k :: HasPage(vm, k) ==> PageOf(to, k) == PageOf(vm, k)
  {
    forall g | 0 <= g < |to.frames| && !to.frames[g].isFree ensures Resident(to, FrameKey(to.frames[g]), g) {
      assert Resident(vm, FrameKey(vm.frames[g]), g);
    }
    forall k | k in to.cache ensures Resident(to, k, to.cache[k]) {
      assert Resident(vm, k, vm.cache[k]);
    }
  }

  // ----- a page fault

  // Page key replaces whatever is in frame v.
  ghost function Replaced(vm: Vm, v: nat, key: PageKey, cache: map<PageKey, nat>): Vm
    requires v < |vm.frames| && v < |vm.ram|
    requires HasPage(Evicted(vm, v), key) && key in Evicted(vm, v).swap
  {
    Loaded(Evicted(vm, v), v, key, cache)
  }

  lemma EvictLeavesOther(vm: Vm, v: nat, key: PageKey, pageSize: nat)
    requires Inv(vm, pageSize) && v < |vm.frames| && HasPage(vm, key) && !PteOf(vm, key).present
    ensures var to := Evicted(vm, v);
      && HasPage(to, key) && !PteOf(to, key).present && key in to.swap && to.swap[key] == vm.swap[key]
      && key in vm.swap && key !in to.cache && key !in vm.cache
  {
    AbsentNotCached(vm, key, pageSize);
    if !vm.frames[v].isFree {
      assert Resident(vm, FrameKey(vm.frames[v]), v);
      EvictPtes(vm, v, pageSize);
    }
  }

  lemma AbsentNotCached(vm: Vm, key: PageKey, pageSize: nat)
    requires Inv(vm, pageSize) && HasPage(vm, key) && !PteOf(vm, key).present
    ensures key !in vm.cache
  {
  }

  /** A page fault that replaces a page is invisible, for whatever victim. */
  lemma ReplaceKeepsInv(vm: Vm, v: nat, key: PageKey, cache: map<PageKey, nat>, pageSize: nat)
    requires Inv(vm, pageSize) && v < |vm.frames| && HasPage(vm, key) && !PteOf(vm, key).present
    requires CacheWithin(cache, Evicted(vm, v).cache[key := v])
    ensures HasPage(Evicted(vm, v), key) && key in Evicted(vm, v).swap
    ensures Inv(Replaced(vm, v, key, cache), pageSize) && SamePages(vm, Replaced(vm, v, key, cache))
    ensures Resident(Replaced(vm, v, key, cache), key, v)
    ensures Replaced(vm, v, key, cache).frames == vm.frames[v := LoadedMeta(vm.frames[v], key)]
  {
    EvictKeepsInv(vm, v, pageSize);
    EvictLeavesOther(vm, v, key, pageSize);
    LoadKeepsInv(Evicted(vm, v), v, key, cache, pageSize);
    SamePagesTrans(vm, Evicted(vm, v), Replaced(vm, v, key, cache));
  }

  // Processes keep the number of their pages.
  lemma SameLength(vm: Vm, to: Vm, q: nat)
    requires q in vm.tables && q in to.tables
    requires forall p: nat :: HasPage(vm, PageKey(q, p)) <==> HasPage(to, PageKey(q, p))
    ensures |to.tables[q]| == |vm.tables[q]|
  {
    var n, m := |vm.tables[q]|, |to.tables[q]|;
    assert HasPage(vm, PageKey(q, m)) <==> HasPage(to, PageKey(q, m));
    assert HasPage(vm, PageKey(q, n)) <==> HasPage(to, PageKey(q, n));
  }

  lemma LabelHasPage(vm: Vm, f: nat, pageSize: nat)
    requires Inv(vm, pageSize) && f < |vm.frames| && !vm.frames[f].isFree
    ensures HasPage(vm, FrameKey(vm.frames[f])) && FrameKey(vm.frames[f]) in vm.swap
  {
    assert Resident(vm, FrameKey(vm.frames[f]), f);
  }

  // What a page fault finds: the page is in swap, and is not the one in the victim's frame.
  lemma FaultReady(vm: Vm, v: nat, key: PageKey, pageSize: nat)
    requires Inv(vm, pageSize) && v < |vm.frames| && HasPage(vm, key) && !PteOf(vm, key).present
    ensures key in vm.swap && |vm.swap[key]| == pageSize && key !in vm.cache
    ensures HasPage(Evicted(vm, v), key) && key in Evicted(vm, v).swap
    ensures !vm.frames[v].isFree ==>
      HasPage(vm, FrameKey(vm.frames[v])) && FrameKey(vm.frames[v]) in vm.swap && FrameKey(vm.frames[v]) != key
  {
    EvictLeavesOther(vm, v, key, pageSize);
    if !vm.frames[v].isFree {
      assert Resident(vm, FrameKey(vm.frames[v]), v);
    }
  }

  // Mentioned where the pids swap has seen matter.
  ghost predicate AnyPid(pid: nat) {
    true
  }

  // A process without pages has a pid that swap has not seen; swap has seen no pids but those in use and past ones.
  ghost predicate FreshPids(tables: map<nat, seq<Pte>>, seen: set<nat>, past: set<nat>) {
    forall pid {:trigger AnyPid(pid)} :: AnyPid(pid) ==>
      && (pid in tables && tables[pid] == [] ==> pid !in seen)
      && (pid in seen ==> pid in tables || pid in past)
  }

  lemma FaultKeepsFresh(vm: Vm, to: Vm, v: nat, seen: set<nat>, after: set<nat>, past: set<nat>, pageSize: nat)
    requires Inv(vm, pageSize) && v < |vm.frames| && SamePages(vm, to)
    requires after <= seen + (if vm.frames[v].isFree then {} else {vm.frames[v].pid})
    requires FreshPids(vm.tables, seen, past)
    ensures FreshPids(to.tables, after, past)
  {
    if !vm.frames[v].isFree {
      LabelHasPage(vm, v, pageSize);
    }
    forall pid | AnyPid(pid)
      ensures pid in to.tables && to.tables[pid] == [] ==> pid !in after
      ensures pid in after ==> pid in to.tables || pid in past
    {
      if pid in vm.tables {
        SameLength(vm, to, pid);
      }
    }
  }

  /** Under fixed assignment a fault moves no page of another process. */
  lemma FixedFaultIsLocal(vm: Vm, v: nat, key: PageKey, cache: map<PageKey, nat>, pageSize: nat,
                          owners: seq<int>, size: nat, block: nat)
    requires Inv(vm, pageSize) && v < |vm.frames| && HasPage(vm, key) && !PteOf(vm, key).present
    requires BlocksOwned(vm.frames, owners, size)
    requires block < |owners| && InBlock(block, size, v) && owners[block] == key.pid
    ensures HasPage(Evicted(vm, v), key) && key in Evicted(vm, v).swap
    ensures forall k, f: nat :: Resident(vm, k, f) && k.pid != key.pid ==> Resident(Replaced(vm, v, key, cache), k, f)
  {
    EvictLeavesOther(vm, v, key, pageSize);
    LoadPtes(Evicted(vm, v), v, key, cache);
    forall k, f: nat | Resident(vm, k, f) && k.pid != key.pid ensures Resident(Replaced(vm, v, key, cache), k, f) {
      if !vm.frames[v].isFree {
        LabelHasPage(vm, v, pageSize);
        EvictPtes(vm, v, pageSize);
      }
    }
  }

  // ----- owners and relabelling

  lemma RelabelKeepsOwned(es: seq<FrameMeta>, t: seq<FrameMeta>, owners: seq<int>, size: nat)
    requires BlocksOwned(es, owners, size) && SameLabels(es, t)
    ensures BlocksOwned(t, owners, size)
  {
  }

  // Frames in use were used, but for one.
  ghost predicate UsedBut(es: seq<FrameMeta>, frame: int) {
    forall f :: 0 <= f < |es| && f != frame && !es[f].isFree ==> es[f].timeStamp > 0
  }

  // Blocks without an owner may get pid as one; pid has one.
  ghost predicate Granted(owners: seq<int>, after: seq<int>, pid: nat) {
    && |after| == |owners|
    && (forall b :: 0 <= b < |owners| ==> after[b] == owners[b] || (owners[b] == -1 && after[b] == pid))
    && (pid in owners ==> after == owners)
  }

  lemma GrantedBlock(owners: seq<int>, block: nat, pid: nat)
    requires BlockFor(owners, pid, block)
    ensures Granted(owners, owners[block := pid], pid)
  {
    if pid in owners {
      assert owners[block := pid] == owners;
    }
  }

  lemma GrantedTrans(a: seq<int>, b: seq<int>, c: seq<int>, pid: nat)
    requires Granted(a, b, pid) && Granted(b, c, pid)
    ensures Granted(a, c, pid)
  {
  }

  lemma GrantedKeepsRoom(owners: seq<int>, after: seq<int>, pid: nat)
    requires Granted(owners, after, pid) && Placeable(owners, pid)
    ensures Placeable(after, pid)
  {
    if pid !in owners {
      var b :| 0 <= b < |owners| && owners[b] == -1;
      assert after[b] in after;
    }
  }

  // Only use bits differ.
  ghost predicate SameUse(es: seq<FrameMeta>, t: seq<FrameMeta>) {
    |t| == |es| && forall f :: 0 <= f < |es| ==> t[f].(u := es[f].u) == es[f]
  }

  lemma ChoiceIsSameUse(lru: bool, es: seq<FrameMeta>, start: nat, end: nat, hand: nat, v: nat, t: seq<FrameMeta>, next: nat)
    requires start <= end <= |es| && ChoiceLeaves(lru, es, start, end, hand, v, t, next)
    ensures SameUse(es, t)
  {
  }

  lemma SameUseKeepsInv(vm: Vm, to: Vm, pageSize: nat)
    requires Inv(vm, pageSize) && SameUse(vm.frames, to.frames) && to == vm.(frames := to.frames)
    ensures SameLabels(vm.frames, to.frames)
    ensures Inv(to, pageSize) && SamePages(vm, to)
    ensures InUseWasUsed(vm.frames) ==> InUseWasUsed(to.frames)
  {
    forall f | 0 <= f < |vm.frames|
      ensures to.frames[f].isFree == vm.frames[f].isFree && to.frames[f].modified == vm.frames[f].modified
      ensures to.frames[f].pid == vm.frames[f].pid && to.frames[f].page == vm.frames[f].page
      ensures to.frames[f].timeStamp == vm.frames[f].timeStamp
    {
      assert to.frames[f].(u := vm.frames[f].u) == vm.frames[f];
    }
    RelabelKeepsInv(vm, to, pageSize);
  }

  // ----- an access

  // The frames after an access at time now.
  function Touched(es: seq<FrameMeta>, frame: nat, now: nat): seq<FrameMeta>
    requires frame < |es|
  {
    es[frame := es[frame].(u := true, timeStamp := now)]
  }

  lemma AccessKeepsInv(vm: Vm, frame: nat, now: nat, owners: seq<int>, size: nat, pageSize: nat)
    requires Inv(vm, pageSize) && BlocksOwned(vm.frames, owners, size)
    requires frame < |vm.frames| && UsedBut(vm.frames, frame) && now > 0
    ensures var to := vm.(frames := Touched(vm.frames, frame, now));
      && Inv(to, pageSize) && SamePages(vm, to) && InUseWasUsed(to.frames) && BlocksOwned(to.frames, owners, size)
      && forall key :: Resident(vm, key, frame) ==> Resident(to, key, frame)
  {
    var to := vm.(frames := Touched(vm.frames, frame, now));
    RelabelKeepsInv(vm, to, pageSize);
    RelabelKeepsOwned(vm.frames, to.frames, owners, size);
  }

  lemma WriteKeepsUsed(vm: Vm, frame: nat, content: Page, owners: seq<int>, size: nat)
    requires frame < |vm.frames| && frame < |vm.ram| && InUseWasUsed(vm.frames) && BlocksOwned(vm.frames, owners, size)
    ensures InUseWasUsed(Written(vm, frame, content).frames)
    ensures BlocksOwned(Written(vm, frame, content).frames, owners, size)
  {
  }
}
