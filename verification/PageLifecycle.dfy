/**
 Pages and processes come and go: what adding, removing, suspending and ending do
 to the address spaces.

 An address space grows by a page of zeroes at its end and shrinks from its end; a
 page table that fails to get its first page stays behind empty and can be removed.
 Suspending a process writes its modified pages to swap and frees its frames without
 changing what it sees; ending it takes its pages, frames and TLB entries and those
 of nobody else.
 */
module PageLifecycle {
  import opened Bytes
  import opened Maps
  import opened SwapModel
  import opened SwapShelf
  import opened Policies
  import opened FrameTable
  import opened VirtualMemory
  import opened AddressSpace

  // ----- growing and shrinking

  lemma AddPageSpaces(vm: Vm, pid: nat, content: Page, pageSize: nat)
    requires Inv(vm, pageSize) && pid in vm.tables && |content| == pageSize
    ensures var to := PageAdded(vm, pid, content);
      && Inv(to, pageSize) && Spaces(to) == Spaces(vm)[pid := Spaces(vm)[pid] + content]
  {
    var to, n := PageAdded(vm, pid, content), |vm.tables[pid]|;
    AddPageKeepsInv(vm, pid, content, pageSize);
    forall p | 0 <= p < n ensures PageOf(to, PageKey(pid, p)) == PageOf(vm, PageKey(pid, p)) {
      assert HasPage(vm, PageKey(pid, p));
    }
    FlatSameUpTo(vm, to, pid, n);
    FlatSnoc(to, pid, n);
    SpacesButOne(vm, to, pid);
  }

  // The table gained an entry, but swap had no room for the page.
  ghost function Dangling(vm: Vm, pid: nat): Vm
    requires pid in vm.tables
  {
    vm.(tables := vm.tables[pid := vm.tables[pid] + [Pte(false, 0)]])
  }

  ghost function Extended(vm: Vm, pid: nat, k: nat, blank: Page): (to: Vm)
    requires pid in vm.tables
    ensures pid in to.tables && |to.tables[pid]| == |vm.tables[pid]| + k
    ensures pid in vm.shelf.home ==> pid in to.shelf.home
  {
    if k == 0 then vm else PageAdded(Extended(vm, pid, k - 1, blank), pid, blank)
  }

  lemma {:induction false} ExtendedFrame(vm: Vm, pid: nat, k: nat, blank: Page)
    requires pid in vm.tables
    ensures var to := Extended(vm, pid, k, blank);
      && to.frames == vm.frames && to.ram == vm.ram && to.cache == vm.cache
      && to.tables == vm.tables[pid := to.tables[pid]]
  {
    if k == 0 {
      assert vm.tables == vm.tables[pid := vm.tables[pid]];
    } else {
      ExtendedFrame(vm, pid, k - 1, blank);
    }
  }

  lemma {:induction false} ExtendedShelf(vm: Vm, pid: nat, k: nat, blank: Page)
    requires pid in vm.tables && pid in vm.shelf.home
    ensures Extended(vm, pid, k, blank).shelf == Filled(vm.shelf, pid, k)
  {
    if k == 0 {
      FilledNone(vm.shelf, pid);
    } else {
      ExtendedShelf(vm, pid, k - 1, blank);
      FilledTwice(vm.shelf, pid, k - 1, 1);
    }
  }

  // What deleting the last page does to tables and swap.
  ghost function LastRemoved(vm: Vm, pid: nat): Vm
    requires pid in vm.tables && vm.tables[pid] != []
  {
    var n := |vm.tables[pid]| - 1;
    vm.(tables := vm.tables[pid := vm.tables[pid][..n]], swap := vm.swap - {PageKey(pid, n)},
        shelf := AfterDestroy(vm.shelf, vm.swap, pid, n))
  }

  lemma RemoveUndoesAdd(vm: Vm, pid: nat, content: Page, pageSize: nat)
    requires Inv(vm, pageSize) && pid in vm.tables && vm.tables[pid] != [] && pid in vm.shelf.home
    ensures LastRemoved(PageAdded(vm, pid, content), pid) == vm
  {
    var n := |vm.tables[pid]|;
    var key := PageKey(pid, n);
    assert !HasPage(vm, key);
    assert HasPage(vm, PageKey(pid, 0));
    assert PageKey(pid, 0) in vm.swap[key := content];
    FilledTwice(vm.shelf, pid, 1, -1);
    FilledNone(vm.shelf, pid);
    SameMap(vm.swap[key := content] - {key}, vm.swap);
    assert (vm.tables[pid] + [Pte(false, 0)])[..n] == vm.tables[pid];
    SameMap(LastRemoved(PageAdded(vm, pid, content), pid).tables, vm.tables);
  }

  lemma RemoveUndoesDangling(vm: Vm, pid: nat, pageSize: nat)
    requires Inv(vm, pageSize) && pid in vm.tables
    ensures LastRemoved(Dangling(vm, pid), pid) == vm
  {
    var n := |vm.tables[pid]|;
    var key := PageKey(pid, n);
    assert !HasPage(vm, key);
    SameMap(vm.swap - {key}, vm.swap);
    assert (vm.tables[pid] + [Pte(false, 0)])[..n] == vm.tables[pid];
    SameMap(LastRemoved(Dangling(vm, pid), pid).tables, vm.tables);
  }

  function Zeros(k: nat, pageSize: nat): (z: seq<byte>)
    ensures |z| == PageStart(k, pageSize) && forall i :: 0 <= i < |z| ==> z[i] == 0
  {
    if k == 0 then [] else Zeros(k - 1, pageSize) + ZeroPage(pageSize)
  }

  lemma ExtendedInv(vm: Vm, pid: nat, k: nat, pageSize: nat)
    requires Inv(vm, pageSize) && pid in vm.tables
    ensures Inv(Extended(vm, pid, k, ZeroPage(pageSize)), pageSize)
  {
    ExtendKeepsInv(vm, pid, k, pageSize);
  }

  lemma {:induction false} ExtendKeepsInv(vm: Vm, pid: nat, k: nat, pageSize: nat)
    requires Inv(vm, pageSize) && pid in vm.tables
    ensures var to := Extended(vm, pid, k, ZeroPage(pageSize));
      && Inv(to, pageSize) && Spaces(to) == Spaces(vm)[pid := Spaces(vm)[pid] + Zeros(k, pageSize)]
  {
    if k == 0 {
      assert Spaces(vm)[pid] + Zeros(0, pageSize) == Spaces(vm)[pid];
    } else {
      ExtendKeepsInv(vm, pid, k - 1, pageSize);
      ExtendOnce(vm, Extended(vm, pid, k - 1, ZeroPage(pageSize)), pid, k, pageSize);
    }
  }

  lemma ExtendOnce(vm: Vm, mid: Vm, pid: nat, k: nat, pageSize: nat)
    requires Inv(mid, pageSize) && pid in vm.tables && pid in mid.tables && k > 0
    requires Spaces(mid) == Spaces(vm)[pid := Spaces(vm)[pid] + Zeros(k - 1, pageSize)]
    ensures var to := PageAdded(mid, pid, ZeroPage(pageSize));
      && Inv(to, pageSize) && Spaces(to) == Spaces(vm)[pid := Spaces(vm)[pid] + Zeros(k, pageSize)]
  {
    AddPageSpaces(mid, pid, ZeroPage(pageSize), pageSize);
    MoreZeros(Spaces(vm)[pid], k, pageSize);
  }

  lemma MoreZeros(s: seq<byte>, k: nat, pageSize: nat)
    requires k > 0
    ensures (s + Zeros(k - 1, pageSize)) + ZeroPage(pageSize) == s + Zeros(k, pageSize)
  {
  }

  lemma DropPageSpaces(vm: Vm, pid: nat, to: Vm, pageSize: nat)
    requires Inv(vm, pageSize) && pid in vm.tables && vm.tables[pid] != [] && LastPageDropped(vm, pid, to)
    ensures Inv(to, pageSize) && pid in Spaces(vm)
    ensures PageStart(|vm.tables[pid]| - 1, pageSize) <= |Spaces(vm)[pid]|
    ensures Spaces(to) == Spaces(vm)[pid := Spaces(vm)[pid][..PageStart(|vm.tables[pid]| - 1, pageSize)]]
  {
    var n := |vm.tables[pid]| - 1;
    DropPageKeepsInv(vm, pid, to, pageSize);
    forall p | 0 <= p < n ensures PageOf(to, PageKey(pid, p)) == PageOf(vm, PageKey(pid, p)) {
      assert HasPage(to, PageKey(pid, p));
    }
    FlatSameUpTo(vm, to, pid, n);
    PagesAreFull(vm, pid, pageSize);
    FlatLength(vm, pid, n, pageSize);
    FlatSnoc(vm, pid, n);
    SpacesButOne(vm, to, pid);
  }

  lemma DroppedIsShorter(vm: Vm, pid: nat, to: Vm, pageSize: nat)
    requires Inv(vm, pageSize) && pid in vm.tables && |vm.tables[pid]| > 1 && LastPageDropped(vm, pid, to)
    requires pid in vm.shelf.home
    ensures pid in to.tables && |to.tables[pid]| == |vm.tables[pid]| - 1 && pid in Spaces(vm)
    ensures PageStart(|to.tables[pid]|, pageSize) <= |Spaces(vm)[pid]|
    ensures Spaces(to) == Spaces(vm)[pid := Spaces(vm)[pid][..PageStart(|to.tables[pid]|, pageSize)]]
    ensures to.shelf == Filled(vm.shelf, pid, -1)
  {
    LastDestroyed(vm, pid, pageSize);
    DropPageSpaces(vm, pid, to, pageSize);
  }

  // A process keeps its home when it loses its last page but has others.
  lemma LastDestroyed(vm: Vm, pid: nat, pageSize: nat)
    requires Inv(vm, pageSize) && pid in vm.tables && |vm.tables[pid]| > 1 && pid in vm.shelf.home
    ensures AfterDestroy(vm.shelf, vm.swap, pid, |vm.tables[pid]| - 1) == Filled(vm.shelf, pid, -1)
  {
    assert HasPage(vm, PageKey(pid, 0)) && HasPage(vm, PageKey(pid, |vm.tables[pid]| - 1));
  }

  // ----- suspension

  // The cache without the translations of a process.
  ghost function CacheWithout(cache: map<PageKey, nat>, pid: nat): map<PageKey, nat> {
    map key | key in cache && key.pid != pid :: cache[key]
  }

  lemma CacheWithoutKeepsInv(vm: Vm, pid: nat, pageSize: nat)
    requires Inv(vm, pageSize)
    ensures var to := vm.(cache := CacheWithout(vm.cache, pid)); Inv(to, pageSize) && SamePages(vm, to)
  {
    RelabelKeepsInv(vm, vm.(cache := CacheWithout(vm.cache, pid)), pageSize);
  }

  // None of the first n pages of a process is in memory.
  ghost predicate AbsentUpTo(vm: Vm, pid: nat, n: nat)
  {
    forall p: nat {:trigger vm.tables[pid][p]} :: pid in vm.tables && p < n && p < |vm.tables[pid]| ==> !vm.tables[pid][p].present
  }

  lemma AbsentOwnsNoFrame(vm: Vm, pid: nat, pageSize: nat)
    requires Inv(vm, pageSize) && pid in vm.tables && AbsentUpTo(vm, pid, |vm.tables[pid]|)
    ensures forall f :: 0 <= f < |vm.frames| && !vm.frames[f].isFree ==> vm.frames[f].pid != pid
  {
    forall f | 0 <= f < |vm.frames| && !vm.frames[f].isFree ensures vm.frames[f].pid != pid {
      LabelHasPage(vm, f, pageSize);
      assert Resident(vm, FrameKey(vm.frames[f]), f);
    }
  }

  // ----- the end of a process

  // The frames holding pages of a process from number i on given up.
  ghost function FramesEnding(es: seq<FrameMeta>, pid: nat, i: nat): (t: seq<FrameMeta>)
    ensures |t| == |es|
    ensures forall f :: 0 <= f < |es| ==>
      t[f] == if !es[f].isFree && es[f].pid == pid && es[f].page >= i then es[f].(isFree := true) else es[f]
  {
    seq(|es|, f requires 0 <= f < |es| =>
      if !es[f].isFree && es[f].pid == pid && es[f].page >= i then es[f].(isFree := true) else es[f])
  }

  ghost function SwapEnding(swap: map<PageKey, Page>, pid: nat, i: nat): map<PageKey, Page> {
    map key | key in swap && !(key.pid == pid && key.page >= i) :: swap[key]
  }

  // The shelf when pages i to n - 1, the last ones of a process, are gone.
  ghost function ShelfEnding(sh: Shelf, pid: nat, n: nat, i: nat): Shelf {
    if pid !in sh.home || n <= i then sh else if i == 0 then Emptied(sh, pid, n) else Filled(sh, pid, i - n)
  }

  lemma EndingShelf(vm: Vm, pid: nat, n: nat, i: nat, pageSize: nat)
    requires Inv(vm, pageSize) && n == PageCount(vm, pid)
    ensures AfterDestroy(ShelfEnding(vm.shelf, pid, n, i + 1), SwapEnding(vm.swap, pid, i + 1), pid, i) ==
            ShelfEnding(vm.shelf, pid, n, i)
  {
    var sh, swap := vm.shelf, SwapEnding(vm.swap, pid, i + 1);
    assert HasPage(vm, PageKey(pid, i)) <==> PageKey(pid, i) in vm.swap;
    if i < n && pid in sh.home {
      assert HasPage(vm, PageKey(pid, 0)) && PageKey(pid, 0) in swap;
      if i + 1 < n {
        if i == 0 {
          FilledThenEmptied(sh, pid, n);
        } else {
          FilledTwice(sh, pid, i + 1 - n, -1);
        }
      }
    }
  }

  // Erasing page i, then giving up its frame.
  lemma EndingStep(vm: Vm, pid: nat, i: nat, pageSize: nat)
    requires Inv(vm, pageSize)
    ensures SwapEnding(vm.swap, pid, i + 1) - {PageKey(pid, i)} == SwapEnding(vm.swap, pid, i)
    ensures PageKey(pid, i + 1) !in SwapEnding(vm.swap, pid, i + 1)
    ensures HasPage(vm, PageKey(pid, i)) && vm.tables[pid][i].present ==>
      var es := FramesEnding(vm.frames, pid, i + 1); var f := vm.tables[pid][i].frame;
      0 <= f < |es| && es[f := es[f].(isFree := true)] == FramesEnding(vm.frames, pid, i)
    ensures !(HasPage(vm, PageKey(pid, i)) && vm.tables[pid][i].present) ==>
      FramesEnding(vm.frames, pid, i + 1) == FramesEnding(vm.frames, pid, i)
  {
    SameMap(SwapEnding(vm.swap, pid, i + 1) - {PageKey(pid, i)}, SwapEnding(vm.swap, pid, i));
    EndingFrames(vm, pid, i, pageSize);
  }

  lemma EndingFrames(vm: Vm, pid: nat, i: nat, pageSize: nat)
    requires Inv(vm, pageSize)
    ensures HasPage(vm, PageKey(pid, i)) && vm.tables[pid][i].present ==>
      var es := FramesEnding(vm.frames, pid, i + 1); var f := vm.tables[pid][i].frame;
      0 <= f < |es| && es[f := es[f].(isFree := true)] == FramesEnding(vm.frames, pid, i)
    ensures !(HasPage(vm, PageKey(pid, i)) && vm.tables[pid][i].present) ==>
      FramesEnding(vm.frames, pid, i + 1) == FramesEnding(vm.frames, pid, i)
  {
    var key := PageKey(pid, i);
    forall f | 0 <= f < |vm.frames| && !vm.frames[f].isFree && FrameKey(vm.frames[f]) == key
      ensures HasPage(vm, key) && PteOf(vm, key) == Pte(true, f)
    {
      assert Resident(vm, FrameKey(vm.frames[f]), f);
    }
    if HasPage(vm, key) && PteOf(vm, key).present {
      assert PteOf(vm, key) == vm.tables[pid][i];
    }
  }

  lemma EndingStarts(vm: Vm, pid: nat, n: nat, pageSize: nat)
    requires Inv(vm, pageSize) && (pid in vm.tables ==> |vm.tables[pid]| <= n)
    ensures FramesEnding(vm.frames, pid, n) == vm.frames && SwapEnding(vm.swap, pid, n) == vm.swap
  {
    forall f | 0 <= f < |vm.frames| && !vm.frames[f].isFree && vm.frames[f].pid == pid ensures vm.frames[f].page < n {
      LabelHasPage(vm, f, pageSize);
    }
    forall key: PageKey | key in vm.swap && key.pid == pid ensures key.page < n {
      assert HasPage(vm, key);
    }
    SameMap(SwapEnding(vm.swap, pid, n), vm.swap);
  }

  ghost function PageCount(vm: Vm, pid: nat): nat {
    if pid in vm.tables then |vm.tables[pid]| else 0
  }

  ghost function Terminated(vm: Vm, pid: nat): Vm {
    Vm(vm.tables - {pid}, FramesEnding(vm.frames, pid, 0), vm.ram, CacheWithout(vm.cache, pid), SwapEnding(vm.swap, pid, 0),
       ShelfEnding(vm.shelf, pid, PageCount(vm, pid), 0))
  }

  lemma TerminatePtes(vm: Vm, pid: nat)
    ensures var to := Terminated(vm, pid);
      && (forall k :: HasPage(to, k) <==> HasPage(vm, k) && k.pid != pid)
      && (forall k {:trigger PteOf(to, k)} :: HasPage(to, k) ==> PteOf(to, k) == PteOf(vm, k))
  {
  }

  lemma TerminateKeepsTables(vm: Vm, pid: nat, pageSize: nat)
    requires Inv(vm, pageSize)
    ensures var to := Terminated(vm, pid); TablesAgree(to) && FramesAgree(to) && SwapHasAll(to) && CacheCoherent(to)
  {
    var to := Terminated(vm, pid);
    TerminatePtes(vm, pid);
    forall f | 0 <= f < |to.frames| && !to.frames[f].isFree ensures Resident(to, FrameKey(to.frames[f]), f) {
      assert Resident(vm, FrameKey(vm.frames[f]), f);
    }
    forall k | k in to.cache ensures Resident(to, k, to.cache[k]) {
      assert Resident(vm, k, vm.cache[k]);
    }
  }

  /** Ending a process takes its pages away and changes no other page. */
  lemma TerminateKeepsInv(vm: Vm, pid: nat, pageSize: nat)
    requires Inv(vm, pageSize)
    ensures var to := Terminated(vm, pid); Inv(to, pageSize) && Spaces(to) == Spaces(vm) - {pid}
  {
    var to := Terminated(vm, pid);
    TerminatePtes(vm, pid);
    TerminateKeepsTables(vm, pid, pageSize);
    forall f | 0 <= f < |to.frames| && !to.frames[f].isFree && !to.frames[f].modified
      ensures FrameKey(to.frames[f]) in to.swap && to.swap[FrameKey(to.frames[f])] == to.ram[f]
    {
      assert Resident(to, FrameKey(to.frames[f]), f);
    }
    forall q | q in vm.tables && q != pid ensures Flat(to, q) == Flat(vm, q) {
      forall p | 0 <= p < |vm.tables[q]| ensures PageOf(to, PageKey(q, p)) == PageOf(vm, PageKey(q, p)) {
        assert HasPage(vm, PageKey(q, p));
      }
      FlatSameUpTo(vm, to, q, |vm.tables[q]|);
    }
    SameMap(Spaces(to), Spaces(vm) - {pid});
  }

  lemma AddProcessSpaces(vm: Vm, pid: nat, pageSize: nat)
    requires Inv(vm, pageSize) && pid !in vm.tables
    ensures var to := vm.(tables := vm.tables[pid := []]); Inv(to, pageSize) && Spaces(to) == Spaces(vm)[pid := []]
  {
    var to := vm.(tables := vm.tables[pid := []]);
    AddProcessKeepsInv(vm, pid, pageSize);
    forall q | q in vm.tables ensures Flat(to, q) == Flat(vm, q) {
      forall p | 0 <= p < |vm.tables[q]| ensures PageOf(to, PageKey(q, p)) == PageOf(vm, PageKey(q, p)) {
        assert HasPage(vm, PageKey(q, p));
      }
      FlatSameUpTo(vm, to, q, |vm.tables[q]|);
    }
    SameMap(Spaces(to), Spaces(vm)[pid := []]);
  }

  // ----- frames given up

  // Frames stay as they are or become free.
  ghost predicate OnlyFreed(es: seq<FrameMeta>, t: seq<FrameMeta>) {
    |t| == |es| && forall f :: 0 <= f < |es| ==> t[f] == es[f] || t[f].isFree
  }

  // Frames stay as they are, or are one of the process and become free.
  ghost predicate OnlyFreedOf(es: seq<FrameMeta>, t: seq<FrameMeta>, pid: nat) {
    |t| == |es| && forall f :: 0 <= f < |es| ==> t[f] == es[f] || (es[f].pid == pid && t[f] == es[f].(isFree := true))
  }

  lemma FreeKeepsUse(es: seq<FrameMeta>, t: seq<FrameMeta>, owners: seq<int>, size: nat)
    requires OnlyFreed(es, t) && BlocksOwned(es, owners, size) && InUseWasUsed(es)
    ensures BlocksOwned(t, owners, size) && InUseWasUsed(t)
  {
  }

  // ----- deleting pages that were just added

  lemma LaterNotSaved(vm: Vm, pid: nat, p: nat, pageSize: nat)
    requires Inv(vm, pageSize) && pid in vm.tables && |vm.tables[pid]| <= p
    ensures PageKey(pid, p) !in vm.swap
  {
    assert !HasPage(vm, PageKey(pid, p));
  }

  // k pages were added to vm, the last one without a copy in swap if the addition failed.
  ghost function Leftover(vm: Vm, pid: nat, k: nat, failed: bool, blank: Page): (to: Vm)
    requires pid in vm.tables && (failed ==> k > 0)
    ensures pid in to.tables && |to.tables[pid]| == |vm.tables[pid]| + k
  {
    if failed then Dangling(Extended(vm, pid, k - 1, blank), pid) else Extended(vm, pid, k, blank)
  }

  lemma RemoveLeftover(vm: Vm, pid: nat, k: nat, failed: bool, pageSize: nat)
    requires Inv(vm, pageSize) && pid in vm.tables && k > 0 && vm.tables[pid] != [] && pid in vm.shelf.home
    ensures var blank := ZeroPage(pageSize); var from := Leftover(vm, pid, k, failed, blank);
      && LastRemoved(from, pid) == Leftover(vm, pid, k - 1, false, blank)
      && PageKey(pid, |vm.tables[pid]| + k) !in from.swap
  {
    var blank := ZeroPage(pageSize);
    var mid := Extended(vm, pid, k - 1, blank);
    ExtendedInv(vm, pid, k - 1, pageSize);
    LaterNotSaved(mid, pid, |vm.tables[pid]| + k, pageSize);
    if failed {
      RemoveUndoesDangling(mid, pid, pageSize);
    } else {
      RemoveUndoesAdd(mid, pid, blank, pageSize);
    }
  }

  // The frame and the translation of the last page given up.
  ghost function Unmapped(vm: Vm, pid: nat): Vm
    requires pid in vm.tables && vm.tables[pid] != []
  {
    var n := |vm.tables[pid]| - 1;
    var pte := vm.tables[pid][n];
    if pte.present && 0 <= pte.frame < |vm.frames| then
      vm.(frames := vm.frames[pte.frame :=
            vm.frames[pte.frame].(isFree := true, page := 0, u := false, modified := false)],
          cache := vm.cache - {PageKey(pid, n)})
    else vm
  }

  // What the last page of a process looks like before it is dropped.
  ghost predicate Droppable(vm: Vm, pid: nat) {
    && pid in vm.tables && vm.tables[pid] != []
    && var n := |vm.tables[pid]| - 1; var pte := vm.tables[pid][n];
    && (pte.present ==> 0 <= pte.frame < |vm.frames|)
    && (!pte.present ==> PageKey(pid, n) !in vm.cache)
    && PageKey(pid, n + 1) !in vm.swap
  }

  lemma LastIsDroppable(vm: Vm, pid: nat, pageSize: nat)
    requires Inv(vm, pageSize) && pid in vm.tables && vm.tables[pid] != []
    ensures Droppable(vm, pid)
  {
    var key := PageKey(pid, |vm.tables[pid]| - 1);
    assert HasPage(vm, key) && PteOf(vm, key) == vm.tables[pid][|vm.tables[pid]| - 1];
    LaterNotSaved(vm, pid, |vm.tables[pid]|, pageSize);
    if !PteOf(vm, key).present {
      AbsentNotCached(vm, key, pageSize);
    }
  }

  lemma UnmapAndRemoveDrops(vm: Vm, pid: nat)
    requires Droppable(vm, pid)
    ensures LastPageDropped(vm, pid, LastRemoved(Unmapped(vm, pid), pid))
  {
  }

  lemma WholeSpace(seen: map<nat, seq<byte>>, pid: nat)
    requires pid in seen
    ensures seen == seen[pid := seen[pid][..|seen[pid]|]]
  {
    assert seen[pid][..|seen[pid]|] == seen[pid];
    assert seen == seen[pid := seen[pid]];
  }

  lemma Shorter(seen: map<nat, seq<byte>>, now: map<nat, seq<byte>>, pid: nat, a: nat, b: nat)
    requires pid in seen && b <= a <= |seen[pid]| && now == seen[pid := seen[pid][..a]]
    ensures now[pid := now[pid][..b]] == seen[pid := seen[pid][..b]]
  {
    assert seen[pid][..a][..b] == seen[pid][..b];
  }

  // ----- the steps of a suspension

  // The state without the translations of a process, which are dropped only at the end.
  ghost function Calm(vm: Vm, pid: nat): Vm {
    vm.(cache := CacheWithout(vm.cache, pid))
  }

  // The first i pages of a process have left memory, and nothing that can be seen changed since vm.
  ghost predicate Suspending(vm: Vm, st: Vm, pid: nat, i: nat, pageSize: nat) {
    && Inv(Calm(st, pid), pageSize) && SamePages(vm, Calm(st, pid))
    && pid in vm.tables && pid in st.tables && |st.tables[pid]| == |vm.tables[pid]|
    && AbsentUpTo(st, pid, i) && OnlyFreedOf(vm.frames, st.frames, pid) && st.cache == vm.cache
    && st.tables == vm.tables[pid := st.tables[pid]]
  }

  lemma SuspendingStarts(vm: Vm, pid: nat, pageSize: nat)
    requires Inv(vm, pageSize) && pid in vm.tables
    ensures Suspending(vm, vm, pid, 0, pageSize)
  {
    CacheWithoutKeepsInv(vm, pid, pageSize);
  }

  lemma SuspendingStep(vm: Vm, st: Vm, pid: nat, i: nat, pageSize: nat)
    requires pid in vm.tables && Suspending(vm, st, pid, i, pageSize) && i < |vm.tables[pid]|
    ensures HasPage(st, PageKey(pid, i)) && PageKey(pid, i) in st.swap
    ensures !st.tables[pid][i].present ==> Suspending(vm, st, pid, i + 1, pageSize)
    ensures st.tables[pid][i].present ==>
      && 0 <= st.tables[pid][i].frame < |st.frames| && |st.ram| == |st.frames|
      && Suspending(vm, Suspended(st, PageKey(pid, i)), pid, i + 1, pageSize)
  {
    var key := PageKey(pid, i);
    assert HasPage(Calm(st, pid), key) && PteOf(Calm(st, pid), key) == st.tables[pid][i];
    if st.tables[pid][i].present {
      SuspendKeepsInv(Calm(st, pid), key, pageSize);
      SuspendPtes(st, key);
      SuspendedCalm(st, pid, key);
      SamePagesTrans(vm, Calm(st, pid), Calm(Suspended(st, key), pid));
      SuspendedAbsent(st, pid, i);
      SuspendedElsewhere(vm, st, pid, i);
    }
  }

  // Frames and tables of other processes stay as they are.
  lemma SuspendedElsewhere(vm: Vm, st: Vm, pid: nat, i: nat)
    requires HasPage(st, PageKey(pid, i)) && 0 <= PteOf(st, PageKey(pid, i)).frame < |st.frames| && |st.ram| == |st.frames|
    requires st.frames[PteOf(st, PageKey(pid, i)).frame].pid == pid
    requires OnlyFreedOf(vm.frames, st.frames, pid) && pid in vm.tables && st.tables == vm.tables[pid := st.tables[pid]]
    ensures var to := Suspended(st, PageKey(pid, i));
      OnlyFreedOf(vm.frames, to.frames, pid) && pid in to.tables && to.tables == vm.tables[pid := to.tables[pid]]
  {
  }

  lemma SuspendedCalm(st: Vm, pid: nat, key: PageKey)
    requires HasPage(st, key) && 0 <= PteOf(st, key).frame < |st.frames| && |st.ram| == |st.frames|
    ensures Calm(Suspended(st, key), pid) == Suspended(Calm(st, pid), key)
  {
  }

  lemma SuspendedAbsent(st: Vm, pid: nat, i: nat)
    requires HasPage(st, PageKey(pid, i)) && AbsentUpTo(st, pid, i)
    requires 0 <= PteOf(st, PageKey(pid, i)).frame < |st.frames| && |st.ram| == |st.frames|
    ensures AbsentUpTo(Suspended(st, PageKey(pid, i)), pid, i + 1)
  {
  }

  /** A suspended process has no frame, and no address space has changed. */
  lemma SuspendingEnds(vm: Vm, st: Vm, pid: nat, pageSize: nat)
    requires pid in vm.tables && Suspending(vm, st, pid, |vm.tables[pid]|, pageSize)
    ensures Inv(Calm(st, pid), pageSize) && Spaces(Calm(st, pid)) == Spaces(vm)
    ensures |st.frames| == |vm.frames| && forall f :: 0 <= f < |st.frames| && !vm.frames[f].isFree ==>
      st.frames[f] == if vm.frames[f].pid == pid then vm.frames[f].(isFree := true) else vm.frames[f]
    ensures forall f :: 0 <= f < |st.frames| && !st.frames[f].isFree ==> st.frames[f].pid != pid
  {
    SpacesSame(vm, Calm(st, pid));
    AbsentOwnsNoFrame(Calm(st, pid), pid, pageSize);
  }
}
