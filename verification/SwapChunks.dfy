/**
 Fixed assignment: every process owns one chunk of consecutive slots.

 The chunk's live slots are its first ones, in page order, and whatever carries
 the process's pid, live or stale, is in its chunk at the place of its page.  That
 is what lets a lookup ignore whether a slot is in use: the slot it meets first is
 the only one that can hold the page.  Pages that are saved in order and destroyed
 last first keep it so; one page destroyed out of order is enough to lose another.
 */
module SwapChunks {
  import opened Bytes
  import opened SwapModel

  // The place of slot i in its chunk; chunks begin at 0, size, 2 * size, ...
  function Offset(i: nat, size: nat): (o: nat)
    requires size > 0
    ensures o < size && o <= i
  {
    if i < size then i else Offset(i - size, size)
  }

  // where the chunk of slot i begins
  function Base(i: nat, size: nat): nat
    requires size > 0
  {
    i - Offset(i, size)
  }

  lemma {:induction false} BaseOf(b: nat, size: nat, o: nat)
    requires size > 0 && Offset(b, size) == 0 && o < size
    ensures Offset(b + o, size) == o && Base(b + o, size) == b
    decreases b
  {
    if b >= size {
      BaseOf(b - size, size, o);
    }
  }

  lemma {:induction false} BaseIsStart(i: nat, size: nat)
    requires size > 0
    ensures Offset(Base(i, size), size) == 0
    decreases i
  {
    if i >= size {
      BaseIsStart(i - size, size);
    }
  }

  // Slots between the base of i's chunk and i are in i's chunk.
  lemma SameChunk(i: nat, k: nat, size: nat)
    requires size > 0 && Base(i, size) <= k <= i
    ensures Base(k, size) == Base(i, size)
  {
    BaseIsStart(i, size);
    BaseOf(Base(i, size), size, k - Base(i, size));
  }

  // ----- the invariant

  // The slots of a chunk fill up from its base, in page order, for one process.
  ghost predicate FilledInOrder(st: Store, size: nat)
    requires size > 0
  {
    && (forall f: nat, i: nat :: Live(st, f, i) ==> st[f][i].page == Offset(i, size))
    && (forall f: nat, i: nat, k: nat {:trigger Live(st, f, i), Live(st, f, k)} ::
          Live(st, f, i) && Base(i, size) <= k <= i ==> Live(st, f, k) && st[f][k].pid == st[f][i].pid)
  }

  // Slots carrying the pid of a live slot, even stale ones, are in its chunk at their page's place.
  ghost predicate OwnChunk(st: Store, size: nat)
    requires size > 0
  {
    forall f: nat, i: nat, g: nat, k: nat {:trigger Live(st, f, i), At(st, g, k)} ::
      Live(st, f, i) && At(st, g, k) && st[g][k].pid == st[f][i].pid ==>
        g == f && Base(k, size) == Base(i, size) && st[g][k].page == Offset(k, size)
  }

  ghost predicate Chunked(st: Store, size: nat) {
    size > 0 && FilledInOrder(st, size) && OwnChunk(st, size)
  }

  lemma CarrierPlace(st: Store, size: nat, f: nat, i: nat, g: nat, k: nat)
    requires Chunked(st, size) && Live(st, f, i) && At(st, g, k) && st[g][k].pid == st[f][i].pid
    ensures g == f && Base(k, size) == Base(i, size) && st[g][k].page == Offset(k, size)
    ensures st[g][k].page == st[f][i].page ==> k == i
  {
  }

  lemma ChunkedIsLookable(st: Store, size: nat)
    requires Chunked(st, size)
    ensures Lookable(st)
  {
    forall f: nat, i: nat, k: nat | Live(st, f, i) && k < i ensures st[f][k].Key() != st[f][i].Key() {
      if st[f][k].pid == st[f][i].pid {
        CarrierPlace(st, size, f, i, f, k);
      }
    }
  }

  // Slot i of file f is the next one process pid may fill.
  ghost predicate NextSlot(st: Store, size: nat, f: nat, i: nat, pid: nat)
    requires size > 0
  {
    && At(st, f, i) && !Live(st, f, i)
    && (forall k: nat :: Base(i, size) <= k < i ==> Live(st, f, k) && st[f][k].pid == pid)
    && (forall g: nat, k: nat :: At(st, g, k) && st[g][k].pid == pid ==>
          g == f && Base(k, size) == Base(i, size) && st[g][k].page == Offset(k, size))
  }

  lemma FillKeepsOrder(st: Store, size: nat, f: nat, i: nat, s: Slot)
    requires Chunked(st, size) && s.used && s.page == Offset(i, size) && NextSlot(st, size, f, i, s.pid)
    ensures FilledInOrder(Put(st, f, i, s), size)
  {
    var t := Put(st, f, i, s);
    forall g: nat, k: nat, l: nat | Live(t, g, k) && Base(k, size) <= l <= k
      ensures Live(t, g, l) && t[g][l].pid == t[g][k].pid
    {
      if g == f && k == i {
        assert l < i ==> Live(st, f, l);
      } else {
        assert Live(st, g, k);
        assert Live(st, g, l);
      }
    }
    forall g: nat, k: nat | Live(t, g, k) ensures t[g][k].page == Offset(k, size) {
      assert (g == f && k == i) || Live(st, g, k);
    }
  }

  lemma FillPlace(st: Store, size: nat, f: nat, i: nat, s: Slot, g: nat, k: nat, h: nat, l: nat)
    requires Chunked(st, size) && s.used && s.page == Offset(i, size) && NextSlot(st, size, f, i, s.pid)
    requires var t := Put(st, f, i, s); Live(t, g, k) && At(t, h, l) && t[h][l].pid == t[g][k].pid
    ensures h == g && Base(l, size) == Base(k, size) && Put(st, f, i, s)[h][l].page == Offset(l, size)
  {
    assert At(st, h, l) && At(st, g, k);
    if !(g == f && k == i) && !(h == f && l == i) {
      CarrierPlace(st, size, g, k, h, l);
    }
  }

  lemma FillKeepsChunks(st: Store, size: nat, f: nat, i: nat, s: Slot)
    requires Chunked(st, size) && s.used && s.page == Offset(i, size) && NextSlot(st, size, f, i, s.pid)
    ensures OwnChunk(Put(st, f, i, s), size)
  {
    var t := Put(st, f, i, s);
    forall g: nat, k: nat, h: nat, l: nat | Live(t, g, k) && At(t, h, l) && t[h][l].pid == t[g][k].pid
      ensures h == g && Base(l, size) == Base(k, size) && t[h][l].page == Offset(l, size)
    {
      FillPlace(st, size, f, i, s, g, k, h, l);
    }
  }

  lemma FillKeepsChunked(st: Store, size: nat, f: nat, i: nat, s: Slot)
    requires Chunked(st, size) && s.used && s.page == Offset(i, size) && NextSlot(st, size, f, i, s.pid)
    ensures Chunked(Put(st, f, i, s), size)
  {
    FillKeepsOrder(st, size, f, i, s);
    FillKeepsChunks(st, size, f, i, s);
  }

  // What matters about a store are the keys and the used flags.
  ghost predicate SameShape(st: Store, t: Store) {
    && |t| == |st|
    && (forall f :: 0 <= f < |st| ==> |t[f]| == |st[f]|)
    && (forall f, i :: 0 <= f < |st| && 0 <= i < |st[f]| ==>
          t[f][i].pid == st[f][i].pid && t[f][i].page == st[f][i].page && (t[f][i].used ==> st[f][i].used))
  }

  lemma ShapeKeepsChunks(st: Store, t: Store, size: nat)
    requires size > 0 && OwnChunk(st, size) && SameShape(st, t)
    ensures OwnChunk(t, size)
  {
    forall f: nat, i: nat, g: nat, k: nat | Live(t, f, i) && At(t, g, k) && t[g][k].pid == t[f][i].pid
      ensures g == f && Base(k, size) == Base(i, size) && t[g][k].page == Offset(k, size)
    {
      assert Live(st, f, i) && At(st, g, k);
    }
  }

  // Rewriting a live slot's content moves nothing.
  lemma RewriteKeepsChunked(st: Store, size: nat, f: nat, i: nat, s: Slot)
    requires Chunked(st, size) && Live(st, f, i) && s.used && s.Key() == st[f][i].Key()
    ensures Chunked(Put(st, f, i, s), size)
  {
    var t := Put(st, f, i, s);
    ShapeKeepsChunks(st, t, size);
    forall g: nat, k: nat, l: nat | Live(t, g, k) && Base(k, size) <= l <= k
      ensures Live(t, g, l) && t[g][l].pid == t[g][k].pid
    {
      assert Live(st, g, k) && Live(st, g, l);
    }
    forall g: nat, k: nat | Live(t, g, k) ensures t[g][k].page == Offset(k, size) {
      assert Live(st, g, k);
    }
  }

  // If a later slot of the chunk is live, the page after slot i's is stored.
  lemma LaterPage(st: Store, size: nat, f: nat, i: nat, k: nat)
    requires Chunked(st, size) && Live(st, f, k) && Base(k, size) <= i < k
    ensures Live(st, f, i) && PageKey(st[f][i].pid, st[f][i].page + 1) in MapOf(st)
  {
    assert Live(st, f, i) && Live(st, f, i + 1);
    SameChunk(k, i, size);
    SameChunk(k, i + 1, size);
    ChunkedIsLookable(st, size);
    MapAt(st, f, i + 1);
  }

  lemma FreeLastKeepsOrder(st: Store, size: nat, f: nat, i: nat, t: Store)
    requires Chunked(st, size) && At(st, f, i) && SameShape(st, t)
    requires forall g: nat, k: nat :: Live(st, g, k) && !(g == f && k == i) ==> Live(t, g, k)
    requires st[f][i].used ==> PageKey(st[f][i].pid, st[f][i].page + 1) !in MapOf(st)
    requires !Live(t, f, i)
    ensures FilledInOrder(t, size)
  {
    forall g: nat, k: nat, l: nat | Live(t, g, k) && Base(k, size) <= l <= k
      ensures Live(t, g, l) && t[g][l].pid == t[g][k].pid
    {
      assert Live(st, g, k) && Live(st, g, l);
      if g == f && l == i {
        LaterPage(st, size, f, i, k);
      }
    }
    forall g: nat, k: nat | Live(t, g, k) ensures t[g][k].page == Offset(k, size) {
      assert Live(st, g, k);
    }
  }

  /** Freeing the last page of a process, or a stale slot, keeps the chunks in order. */
  lemma FreeLastKeepsChunked(st: Store, size: nat, f: nat, i: nat, blank: Page)
    requires Chunked(st, size) && At(st, f, i)
    requires st[f][i].used ==> PageKey(st[f][i].pid, st[f][i].page + 1) !in MapOf(st)
    ensures Chunked(Put(st, f, i, Freed(st[f][i], blank)), size)
  {
    var t := Put(st, f, i, Freed(st[f][i], blank));
    ShapeKeepsChunks(st, t, size);
    FreeLastKeepsOrder(st, size, f, i, t);
  }

  // ----- how many slots a process has

  function CountPid(f: File, pid: nat): (n: nat)
    ensures n <= |f|
  {
    if f == [] then 0
    else CountPid(f[..|f| - 1], pid) + if f[|f| - 1].used && f[|f| - 1].pid == pid then 1 else 0
  }

  lemma {:induction false} CountNone(f: File, pid: nat)
    requires forall k :: 0 <= k < |f| ==> !(f[k].used && f[k].pid == pid)
    ensures CountPid(f, pid) == 0
    decreases |f|
  {
    if f != [] {
      CountNone(f[..|f| - 1], pid);
    }
  }

  // The live slots of pid are exactly b, ..., b + n - 1.
  lemma {:induction false} CountRange(f: File, pid: nat, b: nat, n: nat)
    requires b + n <= |f|
    requires forall k :: 0 <= k < |f| ==> (f[k].used && f[k].pid == pid <==> b <= k < b + n)
    ensures CountPid(f, pid) == n
    decreases |f|
  {
    if n == 0 {
      CountNone(f, pid);
    } else if b + n == |f| {
      CountRange(f[..|f| - 1], pid, b, n - 1);
    } else {
      CountRange(f[..|f| - 1], pid, b, n);
    }
  }

  // ----- where the next page of a process goes

  ghost predicate WholeChunks(st: Store, size: nat)
    requires size > 0
  {
    forall f :: 0 <= f < |st| ==> Offset(|st[f]|, size) == 0
  }

  lemma {:induction false} WholeFits(b: nat, n: nat, size: nat)
    requires size > 0 && Offset(b, size) == 0 && Offset(n, size) == 0 && b < n
    ensures b + size <= n
    decreases b
  {
    if b >= size {
      WholeFits(b - size, n - size, size);
    }
  }

  // The live slots of pid in file f are the n slots from b on, and b begins a chunk.
  ghost predicate Extent(st: Store, size: nat, f: nat, pid: nat, b: nat, n: nat)
    requires size > 0
  {
    && f < |st| && 0 < n <= size && b + n <= |st[f]| && Offset(b, size) == 0
    && (forall k :: 0 <= k < |st[f]| ==> (st[f][k].used && st[f][k].pid == pid <==> b <= k < b + n))
  }

  lemma FilledUpTo(st: Store, size: nat, f: nat, k: nat, l: nat)
    requires Chunked(st, size) && Live(st, f, k) && Base(k, size) <= l <= k
    ensures Live(st, f, l) && st[f][l].pid == st[f][k].pid
  {
  }

  lemma LiveExtent(st: Store, size: nat, f: nat, i: nat) returns (b: nat, n: nat)
    requires Chunked(st, size) && Live(st, f, i)
    ensures Extent(st, size, f, st[f][i].pid, b, n) && b == Base(i, size)
    ensures CountPid(st[f], st[f][i].pid) == n
  {
    var pid := st[f][i].pid;
    b := Base(i, size);
    BaseIsStart(i, size);
    n := i - b + 1;
    while n < size && b + n < |st[f]| && st[f][b + n].used && st[f][b + n].pid == pid
      invariant n <= size && b + n <= |st[f]|
      invariant forall k: nat :: b <= k < b + n ==> Live(st, f, k) && st[f][k].pid == pid
    {
      n := n + 1;
    }
    var top: nat := b + n;
    forall k: nat | k < |st[f]| ensures st[f][k].used && st[f][k].pid == pid <==> b <= k < top {
      if st[f][k].used && st[f][k].pid == pid {
        CarrierPlace(st, size, f, i, f, k);
        assert Live(st, f, k);
        if top <= k {
          FilledUpTo(st, size, f, k, top);
        }
      }
    }
    CountRange(st[f], pid, b, n);
  }

  // The page after the last one of a process: its slot, and what a lookup by key sees.
  lemma NextPage(st: Store, size: nat, f: nat, i: nat, b: nat, n: nat)
    requires Chunked(st, size) && WholeChunks(st, size) && Live(st, f, i)
    requires Extent(st, size, f, st[f][i].pid, b, n) && b == Base(i, size)
    ensures n < size ==> Offset(b + n, size) == n && NextSlot(st, size, f, b + n, st[f][i].pid)
    ensures forall k: nat :: k < |st[f]| && st[f][k].Key() == PageKey(st[f][i].pid, n) ==> n < size && k == b + n
  {
    forall k: nat | k < |st[f]| && st[f][k].Key() == PageKey(st[f][i].pid, n) ensures n < size && k == b + n {
      CarrierPlace(st, size, f, i, f, k);
    }
    if n < size {
      BaseOf(b, size, n);
      WholeFits(b, |st[f]|, size);
      forall g: nat, k: nat | At(st, g, k) && st[g][k].pid == st[f][i].pid
        ensures g == f && Base(k, size) == b && st[g][k].page == Offset(k, size)
      {
        CarrierPlace(st, size, f, i, g, k);
      }
    }
  }

  // Only its base begins the chunk of a live process.
  lemma OnlyBase(st: Store, size: nat, f: nat, i: nat, k: nat)
    requires Chunked(st, size) && Live(st, f, i)
    requires k < |st[f]| && Offset(k, size) == 0 && st[f][k].pid == st[f][i].pid
    ensures k == Base(i, size)
  {
    CarrierPlace(st, size, f, i, f, k);
  }

  // ----- saving pages in order

  ghost predicate Carried(st: Store, pid: nat) {
    exists f: nat, i: nat :: At(st, f, i) && st[f][i].pid == pid
  }

  /**
   What fixed assignment asks of its client: rewrite a stored page, or save the page
   after the last stored one, starting with page 0 of a pid the store has never seen.
   */
  ghost predicate InOrder(st: Store, pid: nat, page: nat) {
    forall x {:trigger Look(x)} :: Look(x) ==> InOrderNow(st, pid, page)
  }

  ghost predicate InOrderNow(st: Store, pid: nat, page: nat) {
    PageKey(pid, page) in MapOf(st) ||
    (&& (forall g: nat :: PageKey(pid, g) in MapOf(st) <==> g < page)
     && (page == 0 ==> !Carried(st, pid)))
  }

  // Mentioned where the definitions of InOrder and FixedSlot matter; elsewhere they stay folded.
  ghost predicate Look(x: int) {
    true
  }

  lemma LastSlot(st: Store, size: nat, f: nat, i: nat, b: nat, n: nat) returns (k: nat)
    requires Chunked(st, size) && Live(st, f, i) && Extent(st, size, f, st[f][i].pid, b, n) && b == Base(i, size)
    ensures Live(st, f, k) && st[f][k].pid == st[f][i].pid && st[f][k].page == n - 1
  {
    k := b + n - 1;
    CarrierPlace(st, size, f, i, f, k);
  }

  // The last live slot of a process holds its last page ...
  lemma LastPageStored(st: Store, size: nat, f: nat, i: nat, b: nat, n: nat)
    requires Chunked(st, size) && Live(st, f, i) && Extent(st, size, f, st[f][i].pid, b, n) && b == Base(i, size)
    ensures PageKey(st[f][i].pid, n - 1) in MapOf(st)
  {
    var k := LastSlot(st, size, f, i, b, n);
    ChunkedIsLookable(st, size);
    MapAt(st, f, k);
  }

  // ... and nothing comes after it.
  lemma NoPageAfter(st: Store, size: nat, f: nat, i: nat, b: nat, n: nat)
    requires Chunked(st, size) && Live(st, f, i) && Extent(st, size, f, st[f][i].pid, b, n) && b == Base(i, size)
    ensures PageKey(st[f][i].pid, n) !in MapOf(st)
  {
    if PageKey(st[f][i].pid, n) in MapOf(st) {
      var g, k := MapHas(st, PageKey(st[f][i].pid, n));
      CarrierPlace(st, size, f, i, g, k);
    }
  }

  // For a live process, in order means one page more than it has.
  lemma InOrderCount(st: Store, size: nat, f: nat, i: nat, page: nat, b: nat, n: nat)
    requires Chunked(st, size) && Live(st, f, i) && Extent(st, size, f, st[f][i].pid, b, n) && b == Base(i, size)
    requires InOrder(st, st[f][i].pid, page) && PageKey(st[f][i].pid, page) !in MapOf(st)
    ensures page == n
  {
    assert Look(0);
    LastPageStored(st, size, f, i, b, n);
    NoPageAfter(st, size, f, i, b, n);
  }

  /** Saving the next page of a live process, or the first one of a new process, updates exactly that key. */
  lemma FillIsUpdate(st: Store, size: nat, f: nat, i: nat, s: Slot)
    requires Chunked(st, size) && s.used && s.page == Offset(i, size) && NextSlot(st, size, f, i, s.pid)
    ensures Chunked(Put(st, f, i, s), size)
    ensures MapOf(Put(st, f, i, s)) == MapOf(st)[s.Key() := s.content]
  {
    FillKeepsChunked(st, size, f, i, s);
    ChunkedIsLookable(st, size);
    ChunkedIsLookable(Put(st, f, i, s), size);
    MapPut(st, f, i, s);
  }

  lemma RewriteIsUpdate(st: Store, size: nat, f: nat, i: nat, s: Slot)
    requires Chunked(st, size) && Live(st, f, i) && s.used && s.Key() == st[f][i].Key()
    ensures Chunked(Put(st, f, i, s), size)
    ensures MapOf(Put(st, f, i, s)) == MapOf(st)[s.Key() := s.content]
  {
    RewriteKeepsChunked(st, size, f, i, s);
    ChunkedIsLookable(st, size);
    ChunkedIsLookable(Put(st, f, i, s), size);
    MapPut(st, f, i, s);
  }

  // The first slot of a free chunk is the next one of a pid nobody carries.
  lemma FreshNextSlot(st: Store, size: nat, f: nat, i: nat, pid: nat)
    requires size > 0 && At(st, f, i) && !st[f][i].used && Offset(i, size) == 0 && !Carried(st, pid)
    ensures NextSlot(st, size, f, i, pid)
  {
  }

  // Chunk starts are at least a chunk apart.
  lemma NextStart(i: nat, size: nat)
    requires size > 0 && Offset(i, size) == 0
    ensures Offset(i + size, size) == 0
  {
  }

  lemma PutCarries(st: Store, f: nat, i: nat, s: Slot, q: nat)
    requires At(st, f, i) && Carried(Put(st, f, i, s), q)
    ensures q == s.pid || Carried(st, q)
  {
    var g: nat, k: nat :| At(Put(st, f, i, s), g, k) && Put(st, f, i, s)[g][k].pid == q;
    assert At(st, g, k);
  }

  // Whatever carries a stored key is its live slot.
  lemma StoredLookup(st: Store, size: nat, f: nat, i: nat, page: nat, index: nat)
    requires Chunked(st, size) && Live(st, f, i) && At(st, f, index)
    requires PageKey(st[f][i].pid, page) in MapOf(st) && st[f][index].Key() == PageKey(st[f][i].pid, page)
    ensures Live(st, f, index)
  {
    var g, k := MapHas(st, PageKey(st[f][i].pid, page));
    CarrierPlace(st, size, f, i, g, k);
    CarrierPlace(st, size, f, i, f, index);
  }

  lemma StoredIsCarried(st: Store, size: nat, f: nat, i: nat, page: nat)
    requires Chunked(st, size) && Live(st, f, i) && PageKey(st[f][i].pid, page) in MapOf(st)
    ensures !NoCarrier(st[f], PageKey(st[f][i].pid, page)) && page < size
  {
    var g, k := MapHas(st, PageKey(st[f][i].pid, page));
    CarrierPlace(st, size, f, i, g, k);
  }

  // A page in order that is not stored yet goes right after the process's live slots.
  lemma UnstoredIsNext(st: Store, size: nat, f: nat, i: nat, page: nat)
    requires Chunked(st, size) && WholeChunks(st, size) && Live(st, f, i)
    requires InOrder(st, st[f][i].pid, page) && PageKey(st[f][i].pid, page) !in MapOf(st)
    ensures page == CountPid(st[f], st[f][i].pid) <= size
    ensures IsNext(st, size, f, i, page)
  {
    var b, n := LiveExtent(st, size, f, i);
    InOrderCount(st, size, f, i, page, b, n);
    NextPage(st, size, f, i, b, n);
  }

  ghost predicate IsNext(st: Store, size: nat, f: nat, i: nat, page: nat)
    requires size > 0 && Live(st, f, i)
  {
    && (page < size ==>
          Offset(Base(i, size) + page, size) == page && NextSlot(st, size, f, Base(i, size) + page, st[f][i].pid))
    && (forall k: nat :: k < |st[f]| && st[f][k].Key() == PageKey(st[f][i].pid, page) ==>
          page < size && k == Base(i, size) + page)
  }

  // The slot a page may be written to: its own, or the next one of its process.
  ghost predicate FixedSlot(st: Store, size: nat, f: nat, index: nat, pid: nat, page: nat)
    requires size > 0
  {
    At(st, f, index) && forall x {:trigger Look(x)} :: Look(x) ==>
      || (Live(st, f, index) && st[f][index].Key() == PageKey(pid, page))
      || (NextSlot(st, size, f, index, pid) && Offset(index, size) == page)
  }

  // What a lookup by key returns for a live process whose page is in order.
  lemma LookupInOrder(st: Store, size: nat, f: nat, i: nat, page: nat, index: nat)
    requires Chunked(st, size) && WholeChunks(st, size) && Live(st, f, i) && InOrder(st, st[f][i].pid, page)
    requires LowestCarrier(st[f], index, PageKey(st[f][i].pid, page))
    ensures FixedSlot(st, size, f, index, st[f][i].pid, page) && page < size
  {
    if PageKey(st[f][i].pid, page) in MapOf(st) {
      StoredLookup(st, size, f, i, page, index);
      StoredIsCarried(st, size, f, i, page);
    } else {
      UnstoredIsNext(st, size, f, i, page);
    }
  }

  // When no slot carries the key, the page goes right after the process's live slots.
  lemma NoCarrierInOrder(st: Store, size: nat, f: nat, i: nat, page: nat)
    requires Chunked(st, size) && WholeChunks(st, size) && Live(st, f, i) && InOrder(st, st[f][i].pid, page)
    requires NoCarrier(st[f], PageKey(st[f][i].pid, page))
    ensures PageKey(st[f][i].pid, page) !in MapOf(st) && page == CountPid(st[f], st[f][i].pid) <= size
    ensures page < size ==> FixedSlot(st, size, f, Base(i, size) + page, st[f][i].pid, page)
  {
    if PageKey(st[f][i].pid, page) in MapOf(st) {
      StoredIsCarried(st, size, f, i, page);
    }
    UnstoredIsNext(st, size, f, i, page);
  }

  ghost predicate FreeChunk(st: Store, size: nat, f: nat, k: nat)
    requires size > 0
  {
    At(st, f, k) && Offset(k, size) == 0 && !st[f][k].used
  }

  /** When fixed assignment has room for a page in order. */
  ghost predicate FixedRoom(st: Store, size: nat, pid: nat, page: nat)
    requires size > 0
  {
    || PageKey(pid, page) in MapOf(st)
    || if LivePid(st, pid) then page < size else exists f: nat, k: nat :: FreeChunk(st, size, f, k)
  }

  /** When global assignment has room for a page. */
  ghost predicate GlobalRoom(st: Store, pid: nat, page: nat) {
    || PageKey(pid, page) in MapOf(st)
    || (if LivePid(st, pid) then
          exists f: nat, i: nat, k: nat :: Live(st, f, i) && st[f][i].pid == pid && At(st, f, k) && !st[f][k].used
        else exists f: nat, k: nat :: At(st, f, k) && !st[f][k].used)
  }

  // A process without live pages is in order only with page 0, and nothing carries its pid.
  lemma NotLiveInOrder(st: Store, pid: nat, page: nat)
    requires InOrder(st, pid, page) && !LivePid(st, pid)
    ensures page == 0 && !Carried(st, pid) && PageKey(pid, page) !in MapOf(st)
  {
    assert Look(0);
    NotLiveNotStored(st, pid, 0);
    NotLiveNotStored(st, pid, page);
  }

  // The first slot of a free chunk takes page 0 of a new process.
  lemma NewProcessSlot(st: Store, size: nat, f: nat, k: nat, pid: nat)
    requires size > 0 && FreeChunk(st, size, f, k) && !Carried(st, pid)
    ensures FixedSlot(st, size, f, k, pid, 0) && CountPid(st[f], pid) == 0
  {
    FreshNextSlot(st, size, f, k, pid);
    forall l | 0 <= l < |st[f]| ensures st[f][l].pid != pid {
      assert At(st, f, l);
    }
    CountNone(st[f], pid);
  }

  lemma FixedSlotIsUpdate(st: Store, size: nat, f: nat, i: nat, s: Slot)
    requires Chunked(st, size) && s.used && FixedSlot(st, size, f, i, s.pid, s.page)
    ensures Chunked(Put(st, f, i, s), size)
    ensures MapOf(Put(st, f, i, s)) == MapOf(st)[s.Key() := s.content]
  {
    assert Look(0);
    if Live(st, f, i) && st[f][i].Key() == s.Key() {
      RewriteIsUpdate(st, size, f, i, s);
    } else {
      FillIsUpdate(st, size, f, i, s);
    }
  }

  // ----- saving pages under global assignment

  // The slot a page may be written to: the lowest one carrying its key, or else a free one.
  ghost predicate GlobalSlot(st: Store, f: nat, index: nat, key: PageKey) {
    && At(st, f, index)
    && (LowestCarrier(st[f], index, key) || (NoCarrier(st[f], key) && !st[f][index].used))
  }

  // File f is the one the process's live pages are in, or has most free slots if there are none.
  ghost predicate GlobalSpot(st: Store, f: nat, pid: nat) {
    && f < |st|
    && (if LivePid(st, pid) then exists i: nat :: Live(st, f, i) && st[f][i].pid == pid
        else forall l :: 0 <= l < |st| ==> CountFree(st[l]) <= CountFree(st[f]))
  }

  lemma AllFull(st: Store, f: nat)
    requires f < |st| && CountFree(st[f]) == 0 && forall l :: 0 <= l < |st| ==> CountFree(st[l]) <= CountFree(st[f])
    ensures forall g: nat, k: nat :: At(st, g, k) ==> st[g][k].used
  {
    forall g: nat, k: nat | At(st, g, k) ensures st[g][k].used {
      NoneFree(st[g]);
    }
  }

  lemma NotLiveNoRoom(st: Store, pid: nat, page: nat)
    requires !LivePid(st, pid) && forall f: nat, k: nat :: At(st, f, k) ==> st[f][k].used
    ensures !GlobalRoom(st, pid, page)
  {
    NotLiveNotStored(st, pid, page);
  }

  // A full file that does not carry the key has no room for its page, and neither has any other file.
  lemma NoSlotNoRoom(st: Store, f: nat, pid: nat, page: nat)
    requires Lookable(st) && GlobalSpot(st, f, pid)
    requires NoCarrier(st[f], PageKey(pid, page)) && CountFree(st[f]) == 0
    ensures !GlobalRoom(st, pid, page)
  {
    if LivePid(st, pid) {
      if PageKey(pid, page) in MapOf(st) {
        var g, k := MapHas(st, PageKey(pid, page));
      }
      NoneFree(st[f]);
    } else {
      AllFull(st, f);
      NotLiveNoRoom(st, pid, page);
    }
  }

  /** Global assignment has room whenever it finds a slot, and what it does is a map update. */
  lemma GlobalSlotIsUpdate(st: Store, f: nat, i: nat, s: Slot)
    requires Lookable(st) && s.used && GlobalSpot(st, f, s.pid) && GlobalSlot(st, f, i, s.Key())
    ensures Lookable(Put(st, f, i, s))
    ensures MapOf(Put(st, f, i, s)) == MapOf(st)[s.Key() := s.content]
    ensures GlobalRoom(st, s.pid, s.page)
  {
    PutKeepsLookable(st, f, i, s);
    MapPut(st, f, i, s);
    if st[f][i].used {
      assert Live(st, f, i);
      MapAt(st, f, i);
    }
  }

  lemma FreeCarries(st: Store, f: nat, i: nat, blank: Page, q: nat)
    requires At(st, f, i)
    ensures Carried(Put(st, f, i, Freed(st[f][i], blank)), q) <==> Carried(st, q)
  {
    var t := Put(st, f, i, Freed(st[f][i], blank));
    assert forall g: nat, k: nat :: At(t, g, k) <==> At(st, g, k);
    assert forall g: nat, k: nat :: At(t, g, k) ==> t[g][k].pid == st[g][k].pid;
    if Carried(st, q) {
      var g: nat, k: nat :| At(st, g, k) && st[g][k].pid == q;
      assert At(t, g, k);
    }
    if Carried(t, q) {
      var g: nat, k: nat :| At(t, g, k) && t[g][k].pid == q;
      assert At(st, g, k);
    }
  }

  // An empty store is in order for both assignments.
  lemma EmptyIsChunked(st: Store, size: nat)
    requires size > 0 && forall f: nat, i: nat :: !Live(st, f, i)
    ensures Chunked(st, size)
  {
  }

  /** The same in terms of the pages stored and of whether the store knows the pid. */
  ghost predicate NextInOrder(stored: map<PageKey, Page>, known: bool, pid: nat, page: nat) {
    PageKey(pid, page) in stored ||
    (&& (forall g: nat :: PageKey(pid, g) in stored <==> g < page)
     && (page == 0 ==> !known))
  }
}
