/** Which page a fault takes out of memory, over any sequence of accesses. */
module PageUse {
  import opened Queues
  import opened SwapModel
  import opened Policies
  import opened FrameTable
  import opened VirtualMemory
  import opened Paging

  // No two frames in use hold the same page.
  ghost predicate LabelsApart(es: seq<FrameMeta>) {
    forall f, g :: 0 <= f < g < |es| && !es[f].isFree && !es[g].isFree ==> FrameKey(es[f]) != FrameKey(es[g])
  }

  // The accesses to pages so far: the last one to the page in a frame is the last use of the frame.
  ghost predicate Traced(st: FrameState, accesses: seq<PageKey>) {
    && |accesses| == |st.history|
    && forall f :: 0 <= f < |st.frames| && !st.frames[f].isFree ==>
         0 < LastUse(st.history, f) == LastUse(accesses, FrameKey(st.frames[f]))
  }

  // Frames keep their pages or lose them: what faults do besides the access, and what suspending and ending do.
  ghost predicate NoNewPages(es: seq<FrameMeta>, t: seq<FrameMeta>) {
    |t| == |es| && forall f :: 0 <= f < |t| && !t[f].isFree ==> !es[f].isFree && FrameKey(t[f]) == FrameKey(es[f])
  }

  lemma LosingKeepsTraced(st: FrameState, accesses: seq<PageKey>, to: FrameState)
    requires Traced(st, accesses) && to.history == st.history && NoNewPages(st.frames, to.frames)
    ensures Traced(to, accesses)
  {
  }

  lemma InvApart(vm: Vm, pageSize: nat)
    requires Inv(vm, pageSize)
    ensures LabelsApart(vm.frames)
  {
    forall f, g | 0 <= f < g < |vm.frames| && !vm.frames[f].isFree && !vm.frames[g].isFree
      ensures FrameKey(vm.frames[f]) != FrameKey(vm.frames[g])
    {
      assert Resident(vm, FrameKey(vm.frames[f]), f) && Resident(vm, FrameKey(vm.frames[g]), g);
    }
  }

  lemma AccessKeepsTraced(st: FrameState, accesses: seq<PageKey>, frame: nat, to: FrameState)
    requires frame < |st.frames| && to == Accessed(st, frame) && !st.frames[frame].isFree && LabelsApart(st.frames)
    requires |accesses| == |st.history|
    requires forall f :: 0 <= f < |st.frames| && !st.frames[f].isFree && f != frame ==>
      0 < LastUse(st.history, f) == LastUse(accesses, FrameKey(st.frames[f]))
    ensures Traced(to, accesses + [FrameKey(st.frames[frame])])
  {
    var key := FrameKey(st.frames[frame]);
    forall f | 0 <= f < |to.frames| && !to.frames[f].isFree
      ensures 0 < LastUse(to.history, f) == LastUse(accesses + [key], FrameKey(to.frames[f]))
    {
      LastUseAfter(st.history, frame, f);
      LastUseAfter(accesses, key, FrameKey(to.frames[f]));
    }
  }

  // What the choice of a frame leaves of the others.
  lemma PickLosesNothing(m: Mmu, was: FrameState, pid: nat, block: nat, v: nat, to: FrameState)
    requires m.meta.Picks(m.lru, was, pid, block, v, to)
    ensures v < |was.frames| && NoNewPages(was.frames, to.frames) && to.history == was.history
  {
  }

  lemma PickOfFault(m: Mmu, was: FrameState, pid: nat, page: nat, frame: nat, to: FrameState)
    returns (block: nat, chosen: FrameState)
    requires m.Faulted(was, pid, page, frame, to)
    ensures m.meta.Picks(m.lru, was, pid, block, frame, chosen)
    ensures frame < |chosen.frames| && to == Accessed(Labelled(chosen, frame, pid, page), frame)
  {
    var mid: FrameState :| m.Chose(was, pid, page, frame, mid) && frame < |mid.frames| && to == Accessed(mid, frame);
    block, chosen :| m.meta.Picks(m.lru, was, pid, block, frame, chosen) &&
      frame < |chosen.frames| && mid == Labelled(chosen, frame, pid, page);
  }

  /** Every access, whether the page was in memory or not, is traced. */
  lemma VisitKeepsTraced(m: Mmu, was: FrameState, accesses: seq<PageKey>, present: bool, pid: nat, page: nat, frame: nat, to: FrameState)
    requires m.Visited(was, present, pid, page, frame, to) && Traced(was, accesses)
    requires LabelsApart(was.frames) && LabelsApart(to.frames)
    requires present ==> !was.frames[frame].isFree && FrameKey(was.frames[frame]) == PageKey(pid, page)
    ensures Traced(to, accesses + [PageKey(pid, page)])
  {
    if present {
      AccessKeepsTraced(was, accesses, frame, to);
    } else {
      var block, chosen := PickOfFault(m, was, pid, page, frame, to);
      var mid := Labelled(chosen, frame, pid, page);
      PickLosesNothing(m, was, pid, block, frame, chosen);
      LosingKeepsTraced(was, accesses, chosen);
      SameLabelsApart(to.frames, mid.frames);
      AccessKeepsTraced(mid, accesses, frame, to);
    }
  }

  lemma SameLabelsApart(es: seq<FrameMeta>, t: seq<FrameMeta>)
    requires LabelsApart(es) && SameLabels(es, t)
    ensures LabelsApart(t)
  {
  }

  lemma OldestOfRange(was: FrameState, accesses: seq<PageKey>, start: nat, end: nat, hand: nat, frame: nat)
    requires Traced(was, accesses) && start <= end <= |was.frames|
    requires Chosen(true, was.frames, was.history, start, end, hand, frame)
    ensures start <= frame < end
    ensures !was.frames[frame].isFree ==> forall f :: start <= f < end && f != frame ==>
      !was.frames[f].isFree && LastUse(accesses, FrameKey(was.frames[frame])) < LastUse(accesses, FrameKey(was.frames[f]))
  {
    if !was.frames[frame].isFree {
      assert !SomeFree(was.frames, start, end);
    }
  }

  /**
   Under LRU a fault takes, of the frames its process may use, the one with the page that
   was accessed least recently of all pages in them, whichever frames they had before.
   */
  lemma LruTakesOldestPage(m: Mmu, was: FrameState, accesses: seq<PageKey>, pid: nat, page: nat, frame: nat, to: FrameState)
    returns (start: nat, end: nat)
    requires m.lru && m.Faulted(was, pid, page, frame, to) && Traced(was, accesses)
    ensures end - start == m.meta.RangeSize() && start <= frame < end <= |was.frames|
    ensures if m.meta.fixed then exists b: nat :: BlockFor(was.owners, pid, b) && InBlock(b, end - start, start) else start == 0
    ensures !was.frames[frame].isFree ==> forall f :: start <= f < end && f != frame ==>
      !was.frames[f].isFree && LastUse(accesses, FrameKey(was.frames[frame])) < LastUse(accesses, FrameKey(was.frames[f]))
  {
    var block, chosen := PickOfFault(m, was, pid, page, frame, to);
    start := if m.meta.fixed then Frames.MulNat(block, m.meta.framesPerProcess) else 0;
    end := start + m.meta.RangeSize();
    OldestOfRange(was, accesses, start, end, was.hands[block], frame);
    if m.meta.fixed {
      assert BlockFor(was.owners, pid, block) && InBlock(block, end - start, start);
    }
  }
}
