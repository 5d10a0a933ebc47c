/**
 The heap as it lies in the address space of its process: a doubly linked list of
 headers, with the last header on the last page.
 */
module HeapBytes {
  import opened Arith
  import opened Bytes
  import opened AddressSpace
  import opened HeapHeader
  import opened HeapList

  ghost predicate HeadersLie(s: seq<byte>, bs: Heap) {
    forall k: nat {:trigger HeaderOf(bs, k)} :: k < |bs| ==> HeaderIs(s, bs[k].addr, HeaderOf(bs, k))
  }

  // The address space ends with the page on which the last header ends.
  ghost predicate Tight(s: seq<byte>, bs: Heap, pageSize: nat)
    requires bs != []
  {
    exists p: nat :: EndsWith(s, LastAddr(bs), p, pageSize)
  }

  // Page p is the last one, and the last header, at a, ends on it.
  ghost predicate EndsWith(s: seq<byte>, a: nat, p: nat, pageSize: nat) {
    OnPage(a + HEADER, p, pageSize) && |s| == PageStart(p + 1, pageSize)
  }

  ghost predicate Lies(s: seq<byte>, bs: Heap, pageSize: nat) {
    Wf(bs) && HeadersLie(s, bs) && Tight(s, bs, pageSize)
  }

  /** Pages are accounted for exactly. */
  lemma TightIsQuotient(s: seq<byte>, bs: Heap, pageSize: nat, pages: nat)
    requires bs != [] && pageSize > 0 && |s| == PageStart(pages, pageSize)
    ensures Tight(s, bs, pageSize) <==> pages - 1 == (LastAddr(bs) + HEADER) / pageSize
  {
    var q := (LastAddr(bs) + HEADER) / pageSize;
    OnPageIsQuotient(LastAddr(bs) + HEADER, q, pageSize);
    if Tight(s, bs, pageSize) {
      var p: nat :| EndsWith(s, LastAddr(bs), p, pageSize);
      OnPageIsQuotient(LastAddr(bs) + HEADER, p, pageSize);
      PageStartOrder(pages + 1, p + 1, pageSize);
      PageStartOrder(p + 2, pages, pageSize);
    }
    if pages - 1 == q {
      assert EndsWith(s, LastAddr(bs), q, pageSize);
    }
  }

  // How many pages a heap takes.
  function PagesIn(bs: Heap, pageSize: nat): (n: nat)
    requires pageSize > 0
  {
    if bs == [] then 0 else (LastAddr(bs) + HEADER) / pageSize + 1
  }

  lemma LiesOnPages(s: seq<byte>, bs: Heap, pageSize: nat)
    requires Lies(s, bs, pageSize) && pageSize > 0
    ensures |s| == PageStart(PagesIn(bs, pageSize), pageSize)
    ensures EndsWith(s, LastAddr(bs), PagesIn(bs, pageSize) - 1, pageSize)
  {
    var p: nat :| EndsWith(s, LastAddr(bs), p, pageSize);
    OnPageIsQuotient(LastAddr(bs) + HEADER, p, pageSize);
  }

  // The pages of a heap whose last header is at a.
  lemma PagesUpTo(bs: Heap, p: nat, pageSize: nat)
    requires bs != [] && pageSize > 0 && OnPage(LastAddr(bs) + HEADER, p, pageSize)
    ensures PagesIn(bs, pageSize) == p + 1
  {
    OnPageIsQuotient(LastAddr(bs) + HEADER, p, pageSize);
  }

  // An allocation in a block that is not the last one takes no pages.
  lemma FitTakesNoPages(bs: Heap, i: nat, size: nat, pageSize: nat)
    requires i + 1 < |bs| && pageSize > 0
    ensures PagesIn(Allocated(bs, i, size), pageSize) == PagesIn(bs, pageSize)
  {
    AllocatedAt(bs, i, size, |Allocated(bs, i, size)| - 1);
  }

  lemma AppendEndsAt(bs: Heap, size: nat)
    requires bs != []
    ensures LastAddr(Allocated(bs, |bs| - 1, size)) == LastAddr(bs) + HEADER + size
  {
    AllocatedAt(bs, |bs| - 1, size, |bs|);
  }

  // A block freed before the last one gives up no pages.
  lemma InnerFreeKeepsPages(bs: Heap, i: nat, pageSize: nat)
    requires i + 1 < |bs| && i + After(bs, i) + 1 < |bs| && pageSize > 0
    ensures PagesIn(WithFreed(bs, i), pageSize) == PagesIn(bs, pageSize)
  {
    FreedAt(bs, i, |WithFreed(bs, i)| - 1);
  }

  lemma OuterFreeEndsAt(bs: Heap, i: nat)
    requires i + 1 < |bs| && i + After(bs, i) + 1 == |bs|
    ensures LastAddr(WithFreed(bs, i)) == bs[Final(bs, i)].addr
  {
    FreedAt(bs, i, |WithFreed(bs, i)| - 1);
  }

  /** Freeing what was just allocated gives the pages back. */
  lemma FreeUndoesAllocPages(s: seq<byte>, t: seq<byte>, bs: Heap, i: nat, size: nat, pageSize: nat)
    requires Lies(s, bs, pageSize) && FirstFit(bs, size, i) && pageSize > 0
    requires InUse(Allocated(bs, i, size), i) && Lies(t, WithFreed(Allocated(bs, i, size), i), pageSize)
    ensures |t| == |s|
  {
    FreeUndoesAlloc(bs, i, size);
    LiesOnPages(s, bs, pageSize);
    LiesOnPages(t, bs, pageSize);
  }

  lemma HeaderLies(s: seq<byte>, bs: Heap, k: nat)
    requires HeadersLie(s, bs) && k < |bs|
    ensures HeaderIs(s, bs[k].addr, HeaderOf(bs, k))
    ensures bs[k].addr + HEADER <= |s|
    ensures Decode(s[bs[k].addr..bs[k].addr + HEADER]) == HeaderOf(bs, k) && Storable(HeaderOf(bs, k))
  {
    assert Inspect(0);
  }

  // ----- writing headers

  predicate Away(a: nat, b: nat) {
    a + HEADER <= b || b + HEADER <= a
  }

  lemma BlocksAway(bs: Heap, i: nat, j: nat)
    requires Wf(bs) && i < |bs| && j < |bs| && i != j
    ensures Away(bs[i].addr, bs[j].addr)
  {
    if i < j {
      Ascending(bs, i, j);
    } else {
      Ascending(bs, j, i);
    }
  }

  // A header at h touches no payload in use.
  ghost predicate Clear(bs: Heap, h: nat) {
    forall a: nat, e: nat {:trigger LiveAt(bs, a, e)} :: LiveAt(bs, a, e) ==> h <= a || e <= h
  }

  // No byte of a payload in use is different.
  ghost predicate Untouched(bs: Heap, s: seq<byte>, t: seq<byte>) {
    forall a: nat, e: nat {:trigger LiveAt(bs, a, e)} :: LiveAt(bs, a, e) && e <= |s| ==> SameBytes(s, t, a + HEADER, e)
  }

  lemma BlockClear(bs: Heap, j: nat)
    requires Wf(bs) && j < |bs|
    ensures Clear(bs, bs[j].addr)
  {
    forall a: nat, e: nat | LiveAt(bs, a, e) ensures bs[j].addr <= a || e <= bs[j].addr {
      if bs[j].addr != a {
        LiveApart(bs, a, e, j);
      }
    }
  }

  lemma ClearUntouched(bs: Heap, s: seq<byte>, t: seq<byte>, a: nat, h: Header)
    requires Wf(bs) && HeaderSet(s, t, a, h) && Clear(bs, a)
    ensures Untouched(bs, s, t)
  {
    forall lo: nat, e: nat | LiveAt(bs, lo, e) && e <= |s| ensures SameBytes(s, t, lo + HEADER, e) {
      BytesStay(s, t, a, h, lo + HEADER, e);
    }
  }

  lemma UntouchedTrans(bs: Heap, s: seq<byte>, t: seq<byte>, r: seq<byte>)
    requires Untouched(bs, s, t) && Untouched(bs, t, r) && |s| <= |t|
    ensures Untouched(bs, s, r)
  {
    forall a: nat, e: nat | LiveAt(bs, a, e) && e <= |s| ensures SameBytes(s, r, a + HEADER, e) {
      assert SameBytes(s, t, a + HEADER, e) && SameBytes(t, r, a + HEADER, e);
    }
  }

  // ----- allocation: the headers of the new list

  lemma AllocHeader(bs: Heap, i: nat, size: nat, k: nat)
    requires i < |bs| && k < |Allocated(bs, i, size)|
    ensures var to := Allocated(bs, i, size); var shift := |to| - |bs|; var m := bs[i].addr + HEADER + size;
      && (k < i ==> HeaderOf(to, k) == HeaderOf(bs, k))
      && (k == i && shift == 0 ==> HeaderOf(to, k) == HeaderOf(bs, i).(isFree := false))
      && (k == i && shift == 1 ==> HeaderOf(to, k) == HeaderOf(bs, i).(next := m, isFree := false))
      && (k == i + 1 && shift == 1 ==> HeaderOf(to, k) == Header(bs[i].addr, HeaderOf(bs, i).next, true))
      && (k == i + 2 && shift == 1 ==> HeaderOf(to, k) == HeaderOf(bs, i + 1).(prev := m))
      && (k > i + 2 * shift ==> HeaderOf(to, k) == HeaderOf(bs, k - shift))
  {
    AllocatedAt(bs, i, size, k);
    if k > 0 {
      AllocatedAt(bs, i, size, k - 1);
    }
    if k + 1 < |Allocated(bs, i, size)| {
      AllocatedAt(bs, i, size, k + 1);
    }
  }

  // A header away from the one written.
  lemma HeaderKept(s: seq<byte>, t: seq<byte>, a: nat, h: Header, bs: Heap, k: nat)
    requires HeadersLie(s, bs) && k < |bs| && HeaderSet(s, t, a, h) && Away(a, bs[k].addr)
    ensures HeaderIs(t, bs[k].addr, HeaderOf(bs, k))
  {
    HeaderLies(s, bs, k);
    HeaderStays(s, t, a, h, bs[k].addr, HeaderOf(bs, k));
  }

  lemma ExactHeader(s: seq<byte>, t: seq<byte>, bs: Heap, i: nat, size: nat, k: nat)
    requires Wf(bs) && HeadersLie(s, bs) && i + 1 < |bs| && Room(bs, i) <= size + HEADER && k < |bs|
    requires HeaderSet(s, t, bs[i].addr, HeaderOf(bs, i).(isFree := false))
    ensures var to := Allocated(bs, i, size); |to| == |bs| && HeaderIs(t, to[k].addr, HeaderOf(to, k))
  {
    AllocatedAt(bs, i, size, k);
    AllocHeader(bs, i, size, k);
    if k == i {
      HeaderThere(s, t, bs[i].addr, HeaderOf(bs, i).(isFree := false));
    } else {
      BlocksAway(bs, i, k);
      HeaderKept(s, t, bs[i].addr, HeaderOf(bs, i).(isFree := false), bs, k);
    }
  }

  lemma ExactHeaders(s: seq<byte>, t: seq<byte>, bs: Heap, i: nat, size: nat)
    requires Wf(bs) && HeadersLie(s, bs) && i + 1 < |bs| && Room(bs, i) <= size + HEADER
    requires HeaderSet(s, t, bs[i].addr, HeaderOf(bs, i).(isFree := false))
    ensures HeadersLie(t, Allocated(bs, i, size)) && LastAddr(Allocated(bs, i, size)) == LastAddr(bs)
  {
    var to := Allocated(bs, i, size);
    forall k: nat | k < |to| ensures HeaderIs(t, to[k].addr, HeaderOf(to, k)) {
      ExactHeader(s, t, bs, i, size, k);
    }
    AllocatedAt(bs, i, size, |to| - 1);
  }

  // One header changes: block i becomes used.
  lemma ExactLies(s: seq<byte>, t: seq<byte>, bs: Heap, i: nat, size: nat, pageSize: nat)
    requires Lies(s, bs, pageSize) && FirstFit(bs, size, i) && i + 1 < |bs| && Room(bs, i) <= size + HEADER
    requires HeaderSet(s, t, bs[i].addr, HeaderOf(bs, i).(isFree := false))
    ensures Lies(t, Allocated(bs, i, size), pageSize) && Untouched(bs, s, t)
  {
    AllocKeepsWf(bs, i, size);
    ExactHeaders(s, t, bs, i, size);
    BlockClear(bs, i);
    ClearUntouched(bs, s, t, bs[i].addr, HeaderOf(bs, i).(isFree := false));
    SameTight(s, t, bs, Allocated(bs, i, size), pageSize);
  }

  lemma SameTight(s: seq<byte>, t: seq<byte>, bs: Heap, cs: Heap, pageSize: nat)
    requires bs != [] && cs != [] && |s| == |t| && LastAddr(bs) == LastAddr(cs) && Tight(s, bs, pageSize)
    ensures Tight(t, cs, pageSize)
  {
    var p: nat :| EndsWith(s, LastAddr(bs), p, pageSize);
    assert EndsWith(t, LastAddr(cs), p, pageSize);
  }

  // The new header of a split, or of an extension.
  lemma MiddleAway(bs: Heap, i: nat, size: nat, k: nat)
    requires Wf(bs) && i < |bs| && k < |bs|
    requires i + 1 < |bs| ==> bs[i].free && Room(bs, i) > size + HEADER
    ensures Away(bs[i].addr + HEADER + size, bs[k].addr)
    ensures Clear(bs, bs[i].addr + HEADER + size)
  {
    if k < i {
      Ascending(bs, k, i);
    } else if i + 1 < k {
      Ascending(bs, i + 1, k);
    }
    forall a: nat, e: nat | LiveAt(bs, a, e) ensures bs[i].addr + HEADER + size <= a || e <= bs[i].addr + HEADER + size {
      var j: nat :| InUse(bs, j) && bs[j].addr == a && bs[j + 1].addr == e;
      if j < i {
        Ascending(bs, j, i);
      } else if i < j && i + 1 < j {
        Ascending(bs, i + 1, j);
      }
    }
  }

  // Block i becomes used, with a new header after size bytes.
  ghost predicate BothSet(s: seq<byte>, t: seq<byte>, r: seq<byte>, bs: Heap, i: nat, size: nat)
    requires i < |bs|
  {
    var a := bs[i].addr; var m := a + HEADER + size;
    && HeaderSet(s, t, a, HeaderOf(bs, i).(next := m, isFree := false))
    && HeaderSet(t, r, m, Header(a, HeaderOf(bs, i).next, true))
  }

  // There is room behind block i for a header after size bytes.
  ghost predicate Divisible(bs: Heap, i: nat, size: nat) {
    i < |bs| && (i + 1 < |bs| ==> bs[i].free && Room(bs, i) > size + HEADER)
  }

  lemma BothKept(s: seq<byte>, t: seq<byte>, r: seq<byte>, bs: Heap, i: nat, size: nat, k: nat)
    requires Wf(bs) && HeadersLie(s, bs) && Divisible(bs, i, size) && BothSet(s, t, r, bs, i, size)
    requires k < |bs| && k != i
    ensures HeaderIs(r, bs[k].addr, HeaderOf(bs, k))
  {
    var a := bs[i].addr; var m := a + HEADER + size;
    BlocksAway(bs, i, k);
    MiddleAway(bs, i, size, k);
    HeaderKept(s, t, a, HeaderOf(bs, i).(next := m, isFree := false), bs, k);
    HeaderStays(t, r, m, Header(a, HeaderOf(bs, i).next, true), bs[k].addr, HeaderOf(bs, k));
  }

  lemma BothThere(s: seq<byte>, t: seq<byte>, r: seq<byte>, bs: Heap, i: nat, size: nat)
    requires i < |bs| && BothSet(s, t, r, bs, i, size)
    ensures var a := bs[i].addr; var m := a + HEADER + size;
      && HeaderIs(r, a, HeaderOf(bs, i).(next := m, isFree := false))
      && HeaderIs(r, m, Header(a, HeaderOf(bs, i).next, true))
  {
    var a := bs[i].addr; var m := a + HEADER + size;
    HeaderThere(s, t, a, HeaderOf(bs, i).(next := m, isFree := false));
    HeaderStays(t, r, m, Header(a, HeaderOf(bs, i).next, true), a, HeaderOf(bs, i).(next := m, isFree := false));
    HeaderThere(t, r, m, Header(a, HeaderOf(bs, i).next, true));
  }

  lemma BothUntouched(s: seq<byte>, t: seq<byte>, r: seq<byte>, bs: Heap, i: nat, size: nat)
    requires Wf(bs) && Divisible(bs, i, size) && BothSet(s, t, r, bs, i, size)
    ensures Untouched(bs, s, r) && |r| == |s|
  {
    var a := bs[i].addr; var m := a + HEADER + size;
    BlockClear(bs, i);
    MiddleAway(bs, i, size, i);
    ClearUntouched(bs, s, t, a, HeaderOf(bs, i).(next := m, isFree := false));
    ClearUntouched(bs, t, r, m, Header(a, HeaderOf(bs, i).next, true));
    UntouchedTrans(bs, s, t, r);
  }

  // The last block becomes used, and a new last block follows.
  lemma AppendHeaders(s: seq<byte>, t: seq<byte>, r: seq<byte>, bs: Heap, size: nat)
    requires Wf(bs) && HeadersLie(s, bs) && BothSet(s, t, r, bs, |bs| - 1, size)
    ensures HeadersLie(r, Allocated(bs, |bs| - 1, size))
    ensures LastAddr(Allocated(bs, |bs| - 1, size)) == LastAddr(bs) + HEADER + size
  {
    var i := |bs| - 1;
    var to := Allocated(bs, i, size);
    BothThere(s, t, r, bs, i, size);
    AllocatedAt(bs, i, size, i);
    AllocatedAt(bs, i, size, i + 1);
    forall k: nat | k < |to| ensures HeaderIs(r, to[k].addr, HeaderOf(to, k)) {
      AllocatedAt(bs, i, size, k);
      AllocHeader(bs, i, size, k);
      if k < i {
        BothKept(s, t, r, bs, i, size, k);
      }
    }
  }

  lemma AppendLies(s: seq<byte>, t: seq<byte>, r: seq<byte>, bs: Heap, size: nat, p: nat, pageSize: nat)
    requires Wf(bs) && HeadersLie(s, bs) && FirstFit(bs, size, |bs| - 1) && BothSet(s, t, r, bs, |bs| - 1, size)
    requires EndsWith(s, LastAddr(bs) + HEADER + size, p, pageSize)
    ensures Lies(r, Allocated(bs, |bs| - 1, size), pageSize) && Untouched(bs, s, r)
  {
    AllocKeepsWf(bs, size := size, i := |bs| - 1);
    AppendHeaders(s, t, r, bs, size);
    BothUntouched(s, t, r, bs, |bs| - 1, size);
    assert EndsWith(r, LastAddr(bs) + HEADER + size, p, pageSize);
  }

  // The block after the new header gets it as its predecessor.
  ghost predicate PrevSet(r: seq<byte>, u: seq<byte>, bs: Heap, i: nat, size: nat)
    requires i + 1 < |bs|
  {
    HeaderSet(r, u, bs[i + 1].addr, HeaderOf(bs, i + 1).(prev := bs[i].addr + HEADER + size))
  }

  lemma SplitFar(s: seq<byte>, t: seq<byte>, r: seq<byte>, u: seq<byte>, bs: Heap, i: nat, size: nat, j: nat)
    requires Wf(bs) && HeadersLie(s, bs) && i + 1 < |bs| && Divisible(bs, i, size) && BothSet(s, t, r, bs, i, size)
    requires PrevSet(r, u, bs, i, size) && j < |bs| && j != i && j != i + 1
    ensures HeaderIs(u, bs[j].addr, HeaderOf(bs, j))
  {
    BothKept(s, t, r, bs, i, size, j);
    BlocksAway(bs, i + 1, j);
    HeaderStays(r, u, bs[i + 1].addr, HeaderOf(bs, i + 1).(prev := bs[i].addr + HEADER + size), bs[j].addr, HeaderOf(bs, j));
  }

  lemma SplitNear(s: seq<byte>, t: seq<byte>, r: seq<byte>, u: seq<byte>, bs: Heap, i: nat, size: nat)
    requires Wf(bs) && i + 1 < |bs| && Divisible(bs, i, size) && BothSet(s, t, r, bs, i, size) && PrevSet(r, u, bs, i, size)
    ensures var a := bs[i].addr; var m := a + HEADER + size;
      && HeaderIs(u, a, HeaderOf(bs, i).(next := m, isFree := false))
      && HeaderIs(u, m, Header(a, HeaderOf(bs, i).next, true))
      && HeaderIs(u, bs[i + 1].addr, HeaderOf(bs, i + 1).(prev := m))
  {
    var a := bs[i].addr; var m := a + HEADER + size;
    var n, h := bs[i + 1].addr, HeaderOf(bs, i + 1).(prev := m);
    BothThere(s, t, r, bs, i, size);
    BlocksAway(bs, i, i + 1);
    MiddleAway(bs, i, size, i + 1);
    HeaderStays(r, u, n, h, a, HeaderOf(bs, i).(next := m, isFree := false));
    HeaderStays(r, u, n, h, m, Header(a, HeaderOf(bs, i).next, true));
    HeaderThere(r, u, n, h);
  }

  lemma SplitHeader(s: seq<byte>, t: seq<byte>, r: seq<byte>, u: seq<byte>, bs: Heap, i: nat, size: nat, k: nat)
    requires Wf(bs) && HeadersLie(s, bs) && i + 1 < |bs| && Divisible(bs, i, size) && BothSet(s, t, r, bs, i, size)
    requires PrevSet(r, u, bs, i, size) && k < |Allocated(bs, i, size)|
    ensures HeaderIs(u, Allocated(bs, i, size)[k].addr, HeaderOf(Allocated(bs, i, size), k))
  {
    if i <= k <= i + 2 {
      SplitHeaderNear(s, t, r, u, bs, i, size, k);
    } else {
      SplitHeaderFar(s, t, r, u, bs, i, size, k);
    }
  }

  // The addresses and headers that a split changes.
  lemma NearHeaders(bs: Heap, i: nat, size: nat)
    requires i + 1 < |bs| && Divisible(bs, i, size)
    ensures var to := Allocated(bs, i, size); var a, m := bs[i].addr, bs[i].addr + HEADER + size;
      && |to| == |bs| + 1 && to[i].addr == a && to[i + 1].addr == m && to[i + 2].addr == bs[i + 1].addr
      && HeaderOf(to, i) == HeaderOf(bs, i).(next := m, isFree := false)
      && HeaderOf(to, i + 1) == Header(a, HeaderOf(bs, i).next, true)
      && HeaderOf(to, i + 2) == HeaderOf(bs, i + 1).(prev := m)
  {
    AllocatedAt(bs, i, size, i);
    AllocatedAt(bs, i, size, i + 1);
    AllocatedAt(bs, i, size, i + 2);
    AllocHeader(bs, i, size, i);
    AllocHeader(bs, i, size, i + 1);
    AllocHeader(bs, i, size, i + 2);
  }

  lemma NearHeaderIs(u: seq<byte>, bs: Heap, i: nat, size: nat, k: nat)
    requires i + 1 < |bs| && Divisible(bs, i, size) && k < |Allocated(bs, i, size)| && i <= k <= i + 2
    requires var a, m := bs[i].addr, bs[i].addr + HEADER + size;
      && HeaderIs(u, a, HeaderOf(bs, i).(next := m, isFree := false))
      && HeaderIs(u, m, Header(a, HeaderOf(bs, i).next, true))
      && HeaderIs(u, bs[i + 1].addr, HeaderOf(bs, i + 1).(prev := m))
    ensures HeaderIs(u, Allocated(bs, i, size)[k].addr, HeaderOf(Allocated(bs, i, size), k))
  {
    NearHeaders(bs, i, size);
  }

  lemma SplitHeaderNear(s: seq<byte>, t: seq<byte>, r: seq<byte>, u: seq<byte>, bs: Heap, i: nat, size: nat, k: nat)
    requires Wf(bs) && i + 1 < |bs| && Divisible(bs, i, size) && BothSet(s, t, r, bs, i, size)
    requires PrevSet(r, u, bs, i, size) && k < |Allocated(bs, i, size)| && i <= k <= i + 2
    ensures HeaderIs(u, Allocated(bs, i, size)[k].addr, HeaderOf(Allocated(bs, i, size), k))
  {
    SplitNear(s, t, r, u, bs, i, size);
    NearHeaderIs(u, bs, i, size, k);
  }

  lemma SplitHeaderFar(s: seq<byte>, t: seq<byte>, r: seq<byte>, u: seq<byte>, bs: Heap, i: nat, size: nat, k: nat)
    requires Wf(bs) && HeadersLie(s, bs) && i + 1 < |bs| && Divisible(bs, i, size) && BothSet(s, t, r, bs, i, size)
    requires PrevSet(r, u, bs, i, size) && k < |Allocated(bs, i, size)| && (k < i || i + 2 < k)
    ensures HeaderIs(u, Allocated(bs, i, size)[k].addr, HeaderOf(Allocated(bs, i, size), k))
  {
    AllocatedAt(bs, i, size, k);
    AllocHeader(bs, i, size, k);
    SplitFar(s, t, r, u, bs, i, size, if k < i then k else k - 1);
  }

  lemma SplitHeaders(s: seq<byte>, t: seq<byte>, r: seq<byte>, u: seq<byte>, bs: Heap, i: nat, size: nat)
    requires Wf(bs) && HeadersLie(s, bs) && i + 1 < |bs| && Divisible(bs, i, size) && BothSet(s, t, r, bs, i, size)
    requires PrevSet(r, u, bs, i, size)
    ensures HeadersLie(u, Allocated(bs, i, size)) && LastAddr(Allocated(bs, i, size)) == LastAddr(bs)
  {
    var to := Allocated(bs, i, size);
    forall k: nat | k < |to| ensures HeaderIs(u, to[k].addr, HeaderOf(to, k)) {
      SplitHeader(s, t, r, u, bs, i, size, k);
    }
    AllocatedAt(bs, i, size, |to| - 1);
  }

  lemma SplitLies(s: seq<byte>, t: seq<byte>, r: seq<byte>, u: seq<byte>, bs: Heap, i: nat, size: nat, pageSize: nat)
    requires Lies(s, bs, pageSize) && FirstFit(bs, size, i) && i + 1 < |bs| && Divisible(bs, i, size)
    requires BothSet(s, t, r, bs, i, size) && PrevSet(r, u, bs, i, size)
    ensures Lies(u, Allocated(bs, i, size), pageSize) && Untouched(bs, s, u)
  {
    AllocKeepsWf(bs, i, size);
    SplitHeaders(s, t, r, u, bs, i, size);
    BothUntouched(s, t, r, bs, i, size);
    BlockClear(bs, i + 1);
    ClearUntouched(bs, r, u, bs[i + 1].addr, HeaderOf(bs, i + 1).(prev := bs[i].addr + HEADER + size));
    UntouchedTrans(bs, s, r, u);
    SameTight(s, u, bs, Allocated(bs, i, size), pageSize);
  }

  // How many pages an extension needs.
  lemma AppendPages(a: nat, size: nat, p: nat, pageSize: nat)
    requires pageSize > 0 && OnPage(a + HEADER, p, pageSize)
    ensures var offset := (a + HEADER) % pageSize; var need := size + HEADER + 1; var free := pageSize - offset;
      && 0 <= offset < pageSize
      && (free >= need ==> OnPage(a + HEADER + size + HEADER, p, pageSize))
      && (free < need ==>
            var q := DivRoundUp(need - free, pageSize);
            q > 0 && OnPage(a + HEADER + size + HEADER, p + q, pageSize))
  {
    OnPageIsQuotient(a + HEADER, p, pageSize);
    DivMod(a + HEADER, pageSize);
    PageStartIsProduct(p, pageSize);
    var offset := (a + HEADER) % pageSize;
    var free, need := pageSize - offset, size + HEADER + 1;
    if free < need {
      ExtraPages(a + HEADER + size + HEADER, need - free, p, pageSize);
    }
  }

  lemma ExtraPages(m: nat, extra: nat, p: nat, pageSize: nat)
    requires pageSize > 0 && extra > 0 && m + 1 == PageStart(p, pageSize) + pageSize + extra
    ensures var q := DivRoundUp(extra, pageSize); q > 0 && OnPage(m, p + q, pageSize)
  {
    var q := DivRoundUp(extra, pageSize);
    RoundUpCovers(extra, pageSize);
    PageStartAdds(p + 1, q - 1, pageSize);
    PageStartIsProduct(q - 1, pageSize);
    assert q * pageSize == (q - 1) * pageSize + pageSize;
  }

  // ----- freeing: the headers of the new list

  // The header that follows block i once the free block after it, if any, is absorbed; 0 if there is none.
  function NextAfter(bs: Heap, i: nat): nat
    requires i + 1 < |bs|
  {
    HeaderOf(bs, i + After(bs, i)).next
  }

  // The block that block i ends up in.
  function Final(bs: Heap, i: nat): nat
    requires i < |bs|
  {
    i - Before(bs, i)
  }

  lemma FreedHeader(bs: Heap, i: nat, k: nat)
    requires i + 1 < |bs| && k < |WithFreed(bs, i)|
    ensures var to := WithFreed(bs, i); var left := Final(bs, i); var gone := Before(bs, i) + After(bs, i);
      && (k < left ==> HeaderOf(to, k) == HeaderOf(bs, k))
      && (k == left ==> HeaderOf(to, k) == Header(HeaderOf(bs, left).prev, NextAfter(bs, i), true))
      && (k == left + 1 ==> HeaderOf(to, k) == HeaderOf(bs, k + gone).(prev := bs[left].addr))
      && (k > left + 1 ==> HeaderOf(to, k) == HeaderOf(bs, k + gone))
  {
    FreedAt(bs, i, k);
    if k > 0 {
      FreedAt(bs, i, k - 1);
    }
    if k + 1 < |WithFreed(bs, i)| {
      FreedAt(bs, i, k + 1);
    }
  }

  // A free block before block i absorbs it; block i is marked free in any case.
  ghost predicate Joined(s: seq<byte>, t: seq<byte>, r: seq<byte>, bs: Heap, i: nat)
    requires i + 1 < |bs|
  {
    var next := NextAfter(bs, i);
    && (if Before(bs, i) == 1 then HeaderSet(s, t, bs[i - 1].addr, HeaderOf(bs, i - 1).(next := next)) else t == s)
    && HeaderSet(t, r, bs[i].addr, HeaderOf(bs, i).(next := next, isFree := true))
  }

  lemma JoinedKept(s: seq<byte>, t: seq<byte>, r: seq<byte>, bs: Heap, i: nat, j: nat)
    requires Wf(bs) && HeadersLie(s, bs) && InUse(bs, i) && Joined(s, t, r, bs, i)
    requires j < |bs| && j != i && (Before(bs, i) == 1 ==> j != i - 1)
    ensures HeaderIs(r, bs[j].addr, HeaderOf(bs, j))
  {
    HeaderLies(s, bs, j);
    if Before(bs, i) == 1 {
      BlocksAway(bs, i - 1, j);
      HeaderKept(s, t, bs[i - 1].addr, HeaderOf(bs, i - 1).(next := NextAfter(bs, i)), bs, j);
    }
    BlocksAway(bs, i, j);
    HeaderStays(t, r, bs[i].addr, HeaderOf(bs, i).(next := NextAfter(bs, i), isFree := true), bs[j].addr, HeaderOf(bs, j));
  }

  lemma JoinedFinal(s: seq<byte>, t: seq<byte>, r: seq<byte>, bs: Heap, i: nat)
    requires Wf(bs) && InUse(bs, i) && Joined(s, t, r, bs, i)
    ensures var left := Final(bs, i);
      HeaderIs(r, bs[left].addr, Header(HeaderOf(bs, left).prev, NextAfter(bs, i), true))
  {
    var here := HeaderOf(bs, i).(next := NextAfter(bs, i), isFree := true);
    if Before(bs, i) == 1 {
      var h := HeaderOf(bs, i - 1).(next := NextAfter(bs, i));
      HeaderThere(s, t, bs[i - 1].addr, h);
      BlocksAway(bs, i - 1, i);
      HeaderStays(t, r, bs[i].addr, here, bs[i - 1].addr, h);
    } else {
      HeaderThere(t, r, bs[i].addr, here);
    }
  }

  lemma JoinedUntouched(s: seq<byte>, t: seq<byte>, r: seq<byte>, bs: Heap, i: nat)
    requires Wf(bs) && InUse(bs, i) && Joined(s, t, r, bs, i)
    ensures Untouched(bs, s, r) && |r| == |s|
  {
    if Before(bs, i) == 1 {
      BlockClear(bs, i - 1);
      ClearUntouched(bs, s, t, bs[i - 1].addr, HeaderOf(bs, i - 1).(next := NextAfter(bs, i)));
    }
    BlockClear(bs, i);
    ClearUntouched(bs, t, r, bs[i].addr, HeaderOf(bs, i).(next := NextAfter(bs, i), isFree := true));
    UntouchedTrans(bs, s, t, r);
  }

  // What stays untouched of the old list stays untouched of the new one.
  lemma FreedUntouched(bs: Heap, i: nat, s: seq<byte>, t: seq<byte>)
    requires Wf(bs) && InUse(bs, i) && Untouched(bs, s, t)
    ensures Untouched(WithFreed(bs, i), s, t)
  {
    forall a: nat, e: nat | LiveAt(WithFreed(bs, i), a, e) && e <= |s| ensures SameBytes(s, t, a + HEADER, e) {
      FreeTakesOne(bs, i, a, e);
    }
  }

  // When a block follows the freed one, it learns its new predecessor.
  ghost predicate Relinked(r: seq<byte>, u: seq<byte>, bs: Heap, i: nat)
    requires i + 1 < |bs| && i + After(bs, i) + 1 < |bs|
  {
    var n := i + After(bs, i) + 1;
    HeaderSet(r, u, bs[n].addr, HeaderOf(bs, n).(prev := bs[Final(bs, i)].addr))
  }

  lemma RelinkedKept(r: seq<byte>, u: seq<byte>, bs: Heap, i: nat, j: nat, h: Header)
    requires Wf(bs) && i + 1 < |bs| && i + After(bs, i) + 1 < |bs| && Relinked(r, u, bs, i)
    requires j < |bs| && j != i + After(bs, i) + 1 && HeaderIs(r, bs[j].addr, h)
    ensures HeaderIs(u, bs[j].addr, h)
  {
    var n := i + After(bs, i) + 1;
    BlocksAway(bs, n, j);
    HeaderStays(r, u, bs[n].addr, HeaderOf(bs, n).(prev := bs[Final(bs, i)].addr), bs[j].addr, h);
  }

  lemma InnerHeader(s: seq<byte>, t: seq<byte>, r: seq<byte>, u: seq<byte>, bs: Heap, i: nat, k: nat)
    requires Wf(bs) && HeadersLie(s, bs) && InUse(bs, i) && Joined(s, t, r, bs, i)
    requires i + After(bs, i) + 1 < |bs| && k < |WithFreed(bs, i)| && Relinked(r, u, bs, i)
    requires k != Final(bs, i) && k != Final(bs, i) + 1
    ensures HeaderIs(u, WithFreed(bs, i)[k].addr, HeaderOf(WithFreed(bs, i), k))
  {
    FreedAt(bs, i, k);
    FreedHeader(bs, i, k);
    var j := if k < Final(bs, i) then k else k + Before(bs, i) + After(bs, i);
    JoinedKept(s, t, r, bs, i, j);
    RelinkedKept(r, u, bs, i, j, HeaderOf(bs, j));
  }

  lemma InnerFinal(s: seq<byte>, t: seq<byte>, r: seq<byte>, u: seq<byte>, bs: Heap, i: nat, k: nat)
    requires Wf(bs) && InUse(bs, i) && Joined(s, t, r, bs, i)
    requires i + After(bs, i) + 1 < |bs| && k < |WithFreed(bs, i)| && Relinked(r, u, bs, i)
    requires k == Final(bs, i) || k == Final(bs, i) + 1
    ensures HeaderIs(u, WithFreed(bs, i)[k].addr, HeaderOf(WithFreed(bs, i), k))
  {
    if k == Final(bs, i) {
      InnerJoined(s, t, r, u, bs, i);
    } else {
      InnerNext(r, u, bs, i);
    }
  }

  lemma InnerJoined(s: seq<byte>, t: seq<byte>, r: seq<byte>, u: seq<byte>, bs: Heap, i: nat)
    requires Wf(bs) && InUse(bs, i) && Joined(s, t, r, bs, i)
    requires i + After(bs, i) + 1 < |bs| && Final(bs, i) < |WithFreed(bs, i)| && Relinked(r, u, bs, i)
    ensures var k := Final(bs, i); HeaderIs(u, WithFreed(bs, i)[k].addr, HeaderOf(WithFreed(bs, i), k))
  {
    var k := Final(bs, i);
    FreedAt(bs, i, k);
    FreedHeader(bs, i, k);
    JoinedFinal(s, t, r, bs, i);
    RelinkedKept(r, u, bs, i, k, HeaderOf(WithFreed(bs, i), k));
  }

  lemma InnerNext(r: seq<byte>, u: seq<byte>, bs: Heap, i: nat)
    requires Wf(bs) && InUse(bs, i)
    requires i + After(bs, i) + 1 < |bs| && Final(bs, i) + 1 < |WithFreed(bs, i)| && Relinked(r, u, bs, i)
    ensures var k := Final(bs, i) + 1; HeaderIs(u, WithFreed(bs, i)[k].addr, HeaderOf(WithFreed(bs, i), k))
  {
    var n := i + After(bs, i) + 1;
    FreedAt(bs, i, Final(bs, i) + 1);
    FreedHeader(bs, i, Final(bs, i) + 1);
    HeaderThere(r, u, bs[n].addr, HeaderOf(bs, n).(prev := bs[Final(bs, i)].addr));
  }

  lemma InnerLies(s: seq<byte>, t: seq<byte>, r: seq<byte>, u: seq<byte>, bs: Heap, i: nat, pageSize: nat)
    requires Lies(s, bs, pageSize) && InUse(bs, i) && Joined(s, t, r, bs, i)
    requires i + After(bs, i) + 1 < |bs| && Relinked(r, u, bs, i)
    ensures Lies(u, WithFreed(bs, i), pageSize) && Untouched(WithFreed(bs, i), s, u)
  {
    var to, n := WithFreed(bs, i), i + After(bs, i) + 1;
    FreeKeepsWf(bs, i);
    forall k: nat | k < |to| ensures HeaderIs(u, to[k].addr, HeaderOf(to, k)) {
      if k == Final(bs, i) || k == Final(bs, i) + 1 {
        InnerFinal(s, t, r, u, bs, i, k);
      } else {
        InnerHeader(s, t, r, u, bs, i, k);
      }
    }
    JoinedUntouched(s, t, r, bs, i);
    BlockClear(bs, n);
    ClearUntouched(bs, r, u, bs[n].addr, HeaderOf(bs, n).(prev := bs[Final(bs, i)].addr));
    UntouchedTrans(bs, s, r, u);
    FreedUntouched(bs, i, s, u);
    FreedAt(bs, i, |to| - 1);
    SameTight(s, u, bs, to, pageSize);
  }

  lemma HeaderBelow(r: seq<byte>, u: seq<byte>, a: nat, h: Header)
    requires |u| <= |r| && u == r[..|u|] && a + HEADER <= |u| && HeaderIs(r, a, h)
    ensures HeaderIs(u, a, h)
  {
    assert Inspect(0);
    assert u[a..a + HEADER] == r[a..a + HEADER];
  }

  // When no block follows, the pages behind the final header are dropped.
  lemma OuterHeader(s: seq<byte>, t: seq<byte>, r: seq<byte>, bs: Heap, i: nat, k: nat)
    requires Wf(bs) && HeadersLie(s, bs) && InUse(bs, i) && Joined(s, t, r, bs, i)
    requires i + After(bs, i) + 1 == |bs| && k < |WithFreed(bs, i)|
    ensures HeaderIs(r, WithFreed(bs, i)[k].addr, HeaderOf(WithFreed(bs, i), k))
    ensures WithFreed(bs, i)[k].addr <= bs[Final(bs, i)].addr
  {
    FreedAt(bs, i, k);
    FreedHeader(bs, i, k);
    if k == Final(bs, i) {
      JoinedFinal(s, t, r, bs, i);
    } else {
      JoinedKept(s, t, r, bs, i, k);
      Ascending(bs, k, Final(bs, i));
    }
  }

  lemma OuterLies(s: seq<byte>, t: seq<byte>, r: seq<byte>, u: seq<byte>, bs: Heap, i: nat, p: nat, pageSize: nat)
    requires Lies(s, bs, pageSize) && InUse(bs, i) && Joined(s, t, r, bs, i) && i + After(bs, i) + 1 == |bs|
    requires OnPage(bs[Final(bs, i)].addr + HEADER, p, pageSize)
    requires PageStart(p + 1, pageSize) <= |r| && u == r[..PageStart(p + 1, pageSize)]
    ensures Lies(u, WithFreed(bs, i), pageSize) && Untouched(WithFreed(bs, i), s, u)
  {
    var to := WithFreed(bs, i);
    FreeKeepsWf(bs, i);
    forall k: nat | k < |to| ensures HeaderIs(u, to[k].addr, HeaderOf(to, k)) {
      OuterHeader(s, t, r, bs, i, k);
      HeaderBelow(r, u, to[k].addr, HeaderOf(to, k));
    }
    FreedAt(bs, i, |to| - 1);
    assert EndsWith(u, LastAddr(to), p, pageSize);
    OuterUntouched(s, t, r, u, bs, i);
  }

  lemma OuterUntouched(s: seq<byte>, t: seq<byte>, r: seq<byte>, u: seq<byte>, bs: Heap, i: nat)
    requires Wf(bs) && InUse(bs, i) && Joined(s, t, r, bs, i) && i + After(bs, i) + 1 == |bs|
    requires |u| <= |r| && u == r[..|u|] && bs[Final(bs, i)].addr <= |u|
    ensures Untouched(WithFreed(bs, i), s, u)
  {
    var to := WithFreed(bs, i);
    JoinedUntouched(s, t, r, bs, i);
    FreedUntouched(bs, i, s, r);
    FreeKeepsWf(bs, i);
    FreedAt(bs, i, |to| - 1);
    forall a: nat, e: nat | LiveAt(to, a, e) && e <= |s| ensures SameBytes(s, u, a + HEADER, e) {
      var k: nat :| InUse(to, k) && to[k].addr == a && to[k + 1].addr == e;
      if k + 1 < |to| - 1 {
        Ascending(to, k + 1, |to| - 1);
      }
      assert SameBytes(s, r, a + HEADER, e);
    }
  }

  // ----- what the bytes say

  // A process that writes inside its payloads leaves the heap as it is.
  lemma PayloadWriteKeepsHeap(s: seq<byte>, t: seq<byte>, bs: Heap, a: nat, e: nat, at: nat, data: seq<byte>, pageSize: nat)
    requires Lies(s, bs, pageSize) && LiveAt(bs, a, e)
    requires a + HEADER <= at && at + |data| <= e && Spliced(s, t, at, data)
    ensures Lies(t, bs, pageSize)
  {
    forall k: nat | k < |bs| ensures HeaderIs(t, bs[k].addr, HeaderOf(bs, k)) {
      HeaderLies(s, bs, k);
      if bs[k].addr != a {
        LiveApart(bs, a, e, k);
      }
      SpliceOutside(s, at, data, bs[k].addr, bs[k].addr + HEADER);
    }
    SameTight(s, t, bs, bs, pageSize);
  }

  lemma {:induction false} SameListUpTo(s: seq<byte>, bs: Heap, cs: Heap, k: nat)
    requires Wf(bs) && Wf(cs) && HeadersLie(s, bs) && HeadersLie(s, cs) && 0 < k <= |bs|
    ensures k <= |cs| && bs[..k] == cs[..k]
    decreases k
  {
    if k > 1 {
      SameListUpTo(s, bs, cs, k - 1);
      assert bs[..k - 1][k - 2] == bs[k - 2] && cs[..k - 1][k - 2] == cs[k - 2];
      HeaderLies(s, bs, k - 2);
      HeaderLies(s, cs, k - 2);
      Ascending(bs, k - 2, k - 1);
    }
    HeaderLies(s, bs, k - 1);
    HeaderLies(s, cs, k - 1);
    if k == 1 {
      assert bs[..1] == [bs[0]] && cs[..1] == [cs[0]];
    } else {
      assert bs[..k] == bs[..k - 1] + [bs[k - 1]] && cs[..k] == cs[..k - 1] + [cs[k - 1]];
    }
  }

  /** The bytes determine the list. */
  lemma HeapUnique(s: seq<byte>, bs: Heap, cs: Heap)
    requires Wf(bs) && Wf(cs) && HeadersLie(s, bs) && HeadersLie(s, cs)
    ensures bs == cs
  {
    SameListUpTo(s, bs, cs, |bs|);
    SameListUpTo(s, cs, bs, |cs|);
  }

  // The heap of a process that just got its first page.
  lemma FirstHeap(s: seq<byte>, t: seq<byte>, pageSize: nat)
    requires pageSize >= HEADER + 1 && |s| == pageSize && HeaderSet(s, t, 0, Header(0, 0, true))
    ensures Lies(t, [Block(0, true)], pageSize)
  {
    var bs := [Block(0, true)];
    HeaderThere(s, t, 0, Header(0, 0, true));
    assert HeaderOf(bs, 0) == Header(0, 0, true);
    assert PageStart(1, pageSize) == PageStart(0, pageSize) + pageSize;
    assert EndsWith(t, LastAddr(bs), 0, pageSize);
  }
}
