/**
 The heap of a process as a list of blocks, and what allocating and freeing do to it.
 */
module HeapList {
  import opened HeapHeader

  // A block begins with its header; it ends where the next one begins.
  datatype Block = Block(addr: nat, free: bool)

  type Heap = seq<Block>

  // Addresses grow by at least a header, the last block is free, and no two neighbours are.
  ghost predicate Wf(bs: Heap) {
    && bs != [] && bs[0].addr == 0 && bs[|bs| - 1].free
    && (forall i: nat {:trigger Linked(bs, i)} :: i + 1 < |bs| ==> Linked(bs, i))
  }

  ghost predicate Linked(bs: Heap, i: nat)
    requires i + 1 < |bs|
  {
    bs[i].addr + HEADER <= bs[i + 1].addr && !(bs[i].free && bs[i + 1].free)
  }

  function LastAddr(bs: Heap): nat
    requires bs != []
  {
    bs[|bs| - 1].addr
  }

  function HeaderOf(bs: Heap, i: nat): Header
    requires i < |bs|
  {
    Header(if i == 0 then 0 else bs[i - 1].addr, if i == |bs| - 1 then 0 else bs[i + 1].addr, bs[i].free)
  }

  lemma {:induction false} Ascending(bs: Heap, i: nat, j: nat)
    requires Wf(bs) && i < j < |bs|
    ensures bs[i].addr + HEADER <= bs[i + 1].addr <= bs[j].addr
    decreases j
  {
    assert Linked(bs, i);
    if i + 1 < j {
      Ascending(bs, i, j - 1);
      assert Linked(bs, j - 1);
    }
  }

  // ----- payloads in use

  // Block i is in use.
  predicate InUse(bs: Heap, i: nat) {
    i + 1 < |bs| && !bs[i].free
  }

  // Some block in use begins at a and ends at e.
  ghost predicate LiveAt(bs: Heap, a: nat, e: nat) {
    exists i: nat :: InUse(bs, i) && bs[i].addr == a && bs[i + 1].addr == e
  }

  lemma LiveIndex(bs: Heap, a: nat, e: nat, i: nat)
    requires Wf(bs) && LiveAt(bs, a, e) && i < |bs| && bs[i].addr == a
    ensures InUse(bs, i) && bs[i + 1].addr == e
  {
    var k: nat :| InUse(bs, k) && bs[k].addr == a && bs[k + 1].addr == e;
    if k < i {
      Ascending(bs, k, i);
    } else if i < k {
      Ascending(bs, i, k);
    }
  }

  /** Payloads in use are disjoint, from each other and from every header. */
  lemma LiveApart(bs: Heap, a: nat, e: nat, j: nat)
    requires Wf(bs) && LiveAt(bs, a, e) && j < |bs| && bs[j].addr != a
    ensures a + HEADER <= e
    ensures bs[j].addr + HEADER <= a || e <= bs[j].addr
    ensures j + 1 < |bs| ==> bs[j + 1].addr <= a || e <= bs[j].addr
  {
    var i: nat :| InUse(bs, i) && bs[i].addr == a && bs[i + 1].addr == e;
    assert Linked(bs, i);
    if i < j {
      Ascending(bs, i, j);
    } else if j < i {
      Ascending(bs, j, i);
    }
  }

  // ----- the list is determined by the payloads in use

  lemma SameNext(bs: Heap, cs: Heap, k: nat)
    requires Wf(bs) && Wf(cs) && k < |bs| && k < |cs| && bs[..k] == cs[..k] && bs[k].addr == cs[k].addr
    requires forall a, e :: LiveAt(bs, a, e) <==> LiveAt(cs, a, e)
    ensures bs[k] == cs[k]
  {
    if InUse(bs, k) {
      assert LiveAt(bs, bs[k].addr, bs[k + 1].addr);
      LiveIndex(cs, bs[k].addr, bs[k + 1].addr, k);
    }
    if InUse(cs, k) {
      assert LiveAt(cs, cs[k].addr, cs[k + 1].addr);
      LiveIndex(bs, cs[k].addr, cs[k + 1].addr, k);
    }
  }

  // The block after k in cs begins no later than in bs.
  lemma NextNotAfter(bs: Heap, cs: Heap, k: nat)
    requires Wf(bs) && Wf(cs) && k < |bs| && k < |cs| && bs[k] == cs[k] && k + 1 < |bs|
    requires forall a, e :: LiveAt(bs, a, e) <==> LiveAt(cs, a, e)
    ensures k + 1 < |cs| && cs[k + 1].addr <= bs[k + 1].addr
  {
    assert Linked(bs, k);
    if bs[k].free {
      assert InUse(bs, k + 1);
      assert LiveAt(bs, bs[k + 1].addr, bs[k + 2].addr);
      var i: nat :| InUse(cs, i) && cs[i].addr == bs[k + 1].addr && cs[i + 1].addr == bs[k + 2].addr;
      Ascending(bs, k, k + 1);
      if i < k {
        Ascending(cs, i, k);
      } else if k < i {
        Ascending(cs, k, i);
      }
    } else {
      assert InUse(bs, k);
      assert LiveAt(bs, bs[k].addr, bs[k + 1].addr);
      LiveIndex(cs, bs[k].addr, bs[k + 1].addr, k);
    }
  }

  lemma {:induction false} SamePrefix(bs: Heap, cs: Heap, k: nat)
    requires Wf(bs) && Wf(cs) && k <= |bs|
    requires forall a, e :: LiveAt(bs, a, e) <==> LiveAt(cs, a, e)
    ensures k <= |cs| && bs[..k] == cs[..k]
    decreases k
  {
    if k == 1 {
      SameNext(bs, cs, 0);
      assert bs[..1] == [bs[0]] && cs[..1] == [cs[0]];
    } else if k > 1 {
      SamePrefix(bs, cs, k - 1);
      assert bs[..k - 1][k - 2] == bs[k - 2] && cs[..k - 1][k - 2] == cs[k - 2];
      NextNotAfter(bs, cs, k - 2);
      NextNotAfter(cs, bs, k - 2);
      SameNext(bs, cs, k - 1);
      assert bs[..k] == bs[..k - 1] + [bs[k - 1]] && cs[..k] == cs[..k - 1] + [cs[k - 1]];
    }
  }

  /** Heaps with the same payloads in use are the same, whatever was allocated and freed on the way. */
  lemma Canonical(bs: Heap, cs: Heap)
    requires Wf(bs) && Wf(cs)
    requires forall a, e :: LiveAt(bs, a, e) <==> LiveAt(cs, a, e)
    ensures bs == cs
  {
    SamePrefix(bs, cs, |bs|);
    SamePrefix(cs, bs, |cs|);
  }

  // ----- allocation

  // Bytes between the header of block i and the next block.
  function Room(bs: Heap, i: nat): int
    requires i + 1 < |bs|
  {
    bs[i + 1].addr - bs[i].addr - HEADER
  }

  predicate Fits(bs: Heap, i: nat, size: nat) {
    i + 1 < |bs| && bs[i].free && Room(bs, i) >= size
  }

  // The block an allocation uses: the lowest that fits, or else the last.
  ghost predicate FirstFit(bs: Heap, size: nat, i: nat) {
    && i < |bs|
    && (i + 1 < |bs| ==> Fits(bs, i, size))
    && (forall k: nat :: k < i ==> !Fits(bs, k, size))
  }

  // The block an allocation uses, searched from block k on.
  function FirstFitFrom(bs: Heap, size: nat, k: nat): (i: nat)
    requires k < |bs|
    ensures k <= i < |bs|
    decreases |bs| - k
  {
    if k == |bs| - 1 || Fits(bs, k, size) then k else FirstFitFrom(bs, size, k + 1)
  }

  lemma {:induction false} FirstFitIs(bs: Heap, size: nat, i: nat, k: nat)
    requires FirstFit(bs, size, i) && k <= i
    ensures FirstFitFrom(bs, size, k) == i
    decreases |bs| - k
  {
    if k < i {
      FirstFitIs(bs, size, i, k + 1);
    }
  }

  lemma {:induction false} FirstFitHolds(bs: Heap, size: nat, k: nat)
    requires k < |bs| && forall j: nat :: j < k ==> !Fits(bs, j, size)
    ensures FirstFit(bs, size, FirstFitFrom(bs, size, k))
    decreases |bs| - k
  {
    if k + 1 < |bs| && !Fits(bs, k, size) {
      FirstFitHolds(bs, size, k + 1);
    }
  }

  // Block i becomes used, with room for size; what is left over becomes a free block if it can hold more than a header.
  function Allocated(bs: Heap, i: nat, size: nat): Heap
    requires i < |bs|
  {
    var a := bs[i].addr;
    if i + 1 < |bs| && Room(bs, i) <= size + HEADER then bs[i := Block(a, false)]
    else bs[..i] + [Block(a, false), Block(a + HEADER + size, true)] + bs[i + 1..]
  }

  lemma AllocatedAt(bs: Heap, i: nat, size: nat, k: nat)
    requires i < |bs| && k < |Allocated(bs, i, size)|
    ensures var to := Allocated(bs, i, size); var shift := |to| - |bs|;
      && shift == (if i + 1 < |bs| && Room(bs, i) <= size + HEADER then 0 else 1)
      && (k < i ==> to[k] == bs[k])
      && (k == i ==> to[k] == Block(bs[i].addr, false))
      && (k == i + 1 && shift == 1 ==> to[k] == Block(bs[i].addr + HEADER + size, true))
      && (k > i + shift ==> to[k] == bs[k - shift])
  {
  }

  // What an allocation of size bytes makes of a heap, and the pointer it returns, if there is room for it.
  function AfterAlloc(bs: Heap, size: nat): Heap
    requires bs != []
  {
    Allocated(bs, FirstFitFrom(bs, size, 0), size)
  }

  function PointerTo(bs: Heap, size: nat): nat
    requires bs != []
  {
    bs[FirstFitFrom(bs, size, 0)].addr + HEADER
  }

  lemma AllocKeepsWf(bs: Heap, i: nat, size: nat)
    requires Wf(bs) && FirstFit(bs, size, i)
    ensures Wf(Allocated(bs, i, size))
  {
    var to := Allocated(bs, i, size);
    var shift := |to| - |bs|;
    AllocatedAt(bs, i, size, 0);
    AllocatedAt(bs, i, size, |to| - 1);
    forall k: nat | k + 1 < |to| ensures Linked(to, k) {
      AllocatedAt(bs, i, size, k);
      AllocatedAt(bs, i, size, k + 1);
      assert k + 1 < |bs| ==> Linked(bs, k);
      assert k >= shift && k + 1 < |bs| + shift ==> Linked(bs, k - shift);
    }
  }

  // The end of the payload that allocating size in block i gives.
  function AllocEnd(bs: Heap, i: nat, size: nat): nat
    requires i < |bs|
  {
    if i + 1 < |bs| && Room(bs, i) <= size + HEADER then bs[i + 1].addr else bs[i].addr + HEADER + size
  }

  /** Allocating adds one payload, large enough, and takes none away. */
  lemma AllocAddsOne(bs: Heap, i: nat, size: nat, a: nat, e: nat)
    requires Wf(bs) && FirstFit(bs, size, i)
    ensures AllocEnd(bs, i, size) == bs[i].addr + HEADER +
      if i + 1 < |bs| && Room(bs, i) - size <= HEADER then Room(bs, i) else size
    ensures size <= AllocEnd(bs, i, size) - bs[i].addr - HEADER <= size + HEADER
    ensures LiveAt(Allocated(bs, i, size), a, e) <==>
      LiveAt(bs, a, e) || (a == bs[i].addr && e == AllocEnd(bs, i, size))
  {
    var to := Allocated(bs, i, size);
    if LiveAt(to, a, e) {
      var k: nat :| InUse(to, k) && to[k].addr == a && to[k + 1].addr == e;
      AllocLiveBack(bs, i, size, k);
    }
    if LiveAt(bs, a, e) {
      var k: nat :| InUse(bs, k) && bs[k].addr == a && bs[k + 1].addr == e;
      AllocLiveForth(bs, i, size, k);
    }
    AllocatedAt(bs, i, size, i);
    AllocatedAt(bs, i, size, i + 1);
    assert InUse(to, i);
  }

  lemma AllocLiveBack(bs: Heap, i: nat, size: nat, k: nat)
    requires Wf(bs) && FirstFit(bs, size, i) && InUse(Allocated(bs, i, size), k)
    ensures var to := Allocated(bs, i, size);
      if k == i then to[k].addr == bs[i].addr && to[k + 1].addr == AllocEnd(bs, i, size)
      else LiveAt(bs, to[k].addr, to[k + 1].addr)
  {
    var to := Allocated(bs, i, size);
    var shift := |to| - |bs|;
    AllocatedAt(bs, i, size, k);
    AllocatedAt(bs, i, size, k + 1);
    if k < i {
      assert InUse(bs, k);
    } else if k > i {
      assert InUse(bs, k - shift);
    }
  }

  lemma AllocLiveForth(bs: Heap, i: nat, size: nat, k: nat)
    requires Wf(bs) && FirstFit(bs, size, i) && InUse(bs, k)
    ensures LiveAt(Allocated(bs, i, size), bs[k].addr, bs[k + 1].addr)
  {
    var to := Allocated(bs, i, size);
    var shift := |to| - |bs|;
    assert k != i;
    var j := if k < i then k else k + shift;
    AllocatedAt(bs, i, size, j);
    AllocatedAt(bs, i, size, j + 1);
    assert InUse(to, j);
  }

  /**
   Behind ptr lies a payload that was not in use before, of the size asked for and at
   most a header more.
   */
  ghost predicate GivesPayload(bs: Heap, to: Heap, size: nat, ptr: nat) {
    && (forall a: nat, e: nat :: LiveAt(bs, a, e) ==> a + HEADER != ptr)
    && exists a: nat, e: nat :: LiveAt(to, a, e) && a + HEADER == ptr && ptr + size <= e <= ptr + size + HEADER
  }

  /** The pointer an allocation returns is to a payload of its own. */
  lemma PointerIsNewPayload(bs: Heap, size: nat)
    requires Wf(bs)
    ensures GivesPayload(bs, AfterAlloc(bs, size), size, PointerTo(bs, size))
  {
    var i := FirstFitFrom(bs, size, 0);
    FirstFitHolds(bs, size, 0);
    var a, e := bs[i].addr, AllocEnd(bs, i, size);
    AllocAddsOne(bs, i, size, a, e);
    forall b: nat, c: nat | LiveAt(bs, b, c) ensures b != a {
      if b == a {
        LiveIndex(bs, b, c, i);
      }
    }
    assert LiveAt(AfterAlloc(bs, size), a, e);
  }

  // No free block before the last one has size bytes behind its header.
  ghost predicate NothingFits(bs: Heap, size: nat) {
    forall k: nat :: k + 1 < |bs| && bs[k].free ==> bs[k + 1].addr - (bs[k].addr + HEADER) < size
  }

  lemma NothingFitsIs(bs: Heap, size: nat)
    ensures NothingFits(bs, size) <==> forall k: nat :: !Fits(bs, k, size)
  {
    if forall k: nat :: !Fits(bs, k, size) {
      forall k: nat | k + 1 < |bs| && bs[k].free ensures bs[k + 1].addr - (bs[k].addr + HEADER) < size {
        assert !Fits(bs, k, size);
      }
    }
  }

  // ----- freeing

  // Block i becomes free and joins the free blocks beside it.
  function WithFreed(bs: Heap, i: nat): Heap
    requires i + 1 < |bs|
  {
    var left := if i > 0 && bs[i - 1].free then i - 1 else i;
    var right := if bs[i + 1].free then i + 2 else i + 1;
    bs[..left] + [Block(bs[left].addr, true)] + bs[right..]
  }

  // How many blocks freeing takes away before, and after, block i.
  function Before(bs: Heap, i: nat): nat
    requires i < |bs|
  {
    if i > 0 && bs[i - 1].free then 1 else 0
  }

  function After(bs: Heap, i: nat): nat
    requires i + 1 < |bs|
  {
    if bs[i + 1].free then 1 else 0
  }

  lemma FreedAt(bs: Heap, i: nat, k: nat)
    requires i + 1 < |bs| && k < |WithFreed(bs, i)|
    ensures var to := WithFreed(bs, i); var left := i - Before(bs, i); var gone := Before(bs, i) + After(bs, i);
      && |to| == |bs| - gone
      && (k < left ==> to[k] == bs[k])
      && (k == left ==> to[k] == Block(bs[left].addr, true))
      && (k > left ==> to[k] == bs[k + gone])
  {
  }

  lemma FreeKeepsWf(bs: Heap, i: nat)
    requires Wf(bs) && InUse(bs, i)
    ensures Wf(WithFreed(bs, i))
  {
    var to := WithFreed(bs, i);
    assert |to| == |bs| - Before(bs, i) - After(bs, i);
    FreedAt(bs, i, 0);
    FreedAt(bs, i, |to| - 1);
    forall k: nat | k + 1 < |to| ensures Linked(to, k) {
      FreedAt(bs, i, k);
      FreedAt(bs, i, k + 1);
      FreeGap(bs, i, k);
      FreeFlags(bs, i, k);
    }
  }

  lemma FreeGap(bs: Heap, i: nat, k: nat)
    requires Wf(bs) && InUse(bs, i) && k + 1 < |WithFreed(bs, i)|
    ensures WithFreed(bs, i)[k].addr + HEADER <= WithFreed(bs, i)[k + 1].addr
  {
    var left, gone := i - Before(bs, i), Before(bs, i) + After(bs, i);
    FreedAt(bs, i, k);
    FreedAt(bs, i, k + 1);
    if k == left {
      Ascending(bs, left, k + 1 + gone);
    } else {
      assert Linked(bs, if k < left then k else k + gone);
    }
  }

  lemma FreeFlags(bs: Heap, i: nat, k: nat)
    requires Wf(bs) && InUse(bs, i) && k + 1 < |WithFreed(bs, i)|
    ensures !(WithFreed(bs, i)[k].free && WithFreed(bs, i)[k + 1].free)
  {
    var left, gone := i - Before(bs, i), Before(bs, i) + After(bs, i);
    FreedAt(bs, i, k);
    FreedAt(bs, i, k + 1);
    assert Linked(bs, if k < left then k else k + gone);
  }

  /** Freeing takes one payload away and no other. */
  lemma FreeTakesOne(bs: Heap, i: nat, a: nat, e: nat)
    requires Wf(bs) && InUse(bs, i)
    ensures LiveAt(WithFreed(bs, i), a, e) <==> LiveAt(bs, a, e) && a != bs[i].addr
  {
    var to := WithFreed(bs, i);
    if LiveAt(to, a, e) {
      var k: nat :| InUse(to, k) && to[k].addr == a && to[k + 1].addr == e;
      FreeLiveBack(bs, i, k);
    }
    if LiveAt(bs, a, e) && a != bs[i].addr {
      var k: nat :| InUse(bs, k) && bs[k].addr == a && bs[k + 1].addr == e;
      FreeLiveForth(bs, i, k);
    }
  }

  lemma FreeLiveBack(bs: Heap, i: nat, k: nat)
    requires Wf(bs) && InUse(bs, i) && InUse(WithFreed(bs, i), k)
    ensures var to := WithFreed(bs, i); LiveAt(bs, to[k].addr, to[k + 1].addr) && to[k].addr != bs[i].addr
  {
    var left, gone := i - Before(bs, i), Before(bs, i) + After(bs, i);
    FreedAt(bs, i, k);
    FreedAt(bs, i, k + 1);
    if k < left {
      assert InUse(bs, k);
      Ascending(bs, k, i);
    } else {
      assert InUse(bs, k + gone);
      Ascending(bs, i, k + gone);
    }
  }

  lemma FreeLiveForth(bs: Heap, i: nat, k: nat)
    requires Wf(bs) && InUse(bs, i) && InUse(bs, k) && k != i
    ensures LiveAt(WithFreed(bs, i), bs[k].addr, bs[k + 1].addr)
  {
    var to := WithFreed(bs, i);
    var left, gone := i - Before(bs, i), Before(bs, i) + After(bs, i);
    var j := if k < i then k else k - gone;
    FreedAt(bs, i, j);
    FreedAt(bs, i, j + 1);
    assert InUse(to, j);
  }

  /** Freeing what was just allocated restores the heap. */
  lemma FreeUndoesAlloc(bs: Heap, i: nat, size: nat)
    requires Wf(bs) && FirstFit(bs, size, i)
    ensures InUse(Allocated(bs, i, size), i) && WithFreed(Allocated(bs, i, size), i) == bs
  {
    var mid := Allocated(bs, i, size);
    AllocKeepsWf(bs, i, size);
    AllocatedAt(bs, i, size, i);
    FreeKeepsWf(mid, i);
    forall a, e ensures LiveAt(WithFreed(mid, i), a, e) <==> LiveAt(bs, a, e) {
      FreeTakesOne(mid, i, a, e);
      AllocAddsOne(bs, i, size, a, e);
      if LiveAt(bs, a, e) && a == bs[i].addr {
        LiveIndex(bs, a, e, i);
      }
    }
    Canonical(WithFreed(mid, i), bs);
  }
}
