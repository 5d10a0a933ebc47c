/** The translation lookaside buffer: a cache of (pid, page) -> frame. */
module Tlb {
  import opened Maps
  import opened Queues
  import opened SwapModel

  // Entries keep their key when they are freed, and dropping an entry stops at the
  // first one with the key without testing whether it is free.  It still drops the
  // live entry, because no slot below a live entry ever carries its key.

  datatype TlbEntry = TlbEntry(pid: nat, page: nat, frame: nat, isFree: bool) {
    function Key(): PageKey {
      PageKey(pid, page)
    }
  }

  // ----- entries as a value

  ghost predicate Active(es: seq<TlbEntry>, i: nat) {
    i < |es| && !es[i].isFree
  }

  ghost predicate ActiveIsLowest(es: seq<TlbEntry>) {
    forall i: nat, k: nat {:trigger Active(es, i), es[k]} :: Active(es, i) && k < i ==> es[k].Key() != es[i].Key()
  }

  // The replacement queue names slots, and every active slot is in it.
  ghost predicate Queued(es: seq<TlbEntry>, queue: seq<nat>) {
    && (forall i :: i in queue ==> i < |es|)
    && (forall i: nat :: Active(es, i) ==> i in queue)
  }

  ghost function Keys(es: seq<TlbEntry>): set<PageKey> {
    set i: nat | i < |es| && Active(es, i) :: es[i].Key()
  }

  ghost function FrameOf(es: seq<TlbEntry>, key: PageKey): nat
    requires key in Keys(es)
  {
    var i: nat :| Active(es, i) && es[i].Key() == key;
    es[i].frame
  }

  ghost function CacheOf(es: seq<TlbEntry>): map<PageKey, nat> {
    map key | key in Keys(es) :: FrameOf(es, key)
  }

  lemma ActiveUnique(es: seq<TlbEntry>, i: nat, k: nat)
    requires ActiveIsLowest(es) && Active(es, i) && Active(es, k) && es[i].Key() == es[k].Key()
    ensures i == k
  {
  }

  lemma CacheAt(es: seq<TlbEntry>, i: nat)
    requires ActiveIsLowest(es) && Active(es, i)
    ensures es[i].Key() in CacheOf(es) && CacheOf(es)[es[i].Key()] == es[i].frame
  {
    var key := es[i].Key();
    assert key in Keys(es);
    var k: nat :| Active(es, k) && es[k].Key() == key && FrameOf(es, key) == es[k].frame;
    ActiveUnique(es, i, k);
  }

  lemma CacheHas(es: seq<TlbEntry>, key: PageKey) returns (i: nat)
    requires key in CacheOf(es)
    ensures Active(es, i) && es[i].Key() == key
  {
    i :| Active(es, i) && es[i].Key() == key;
  }

  ghost predicate Listed(es: seq<TlbEntry>, key: PageKey) {
    exists i: nat :: Active(es, i) && es[i].Key() == key
  }

  // m is the map the active entries stand for, said so that a key of m by itself brings up no entry.
  ghost predicate Caches(m: map<PageKey, nat>, es: seq<TlbEntry>) {
    && (forall i: nat {:trigger Active(es, i)} :: Active(es, i) ==> es[i].Key() in m && m[es[i].Key()] == es[i].frame)
    && (forall key {:trigger Listed(es, key)} :: key in m ==> Listed(es, key))
  }

  lemma CachesIsMap(m: map<PageKey, nat>, es: seq<TlbEntry>)
    requires ActiveIsLowest(es)
    ensures Caches(m, es) <==> m == CacheOf(es)
  {
    if Caches(m, es) {
      forall key | key in m ensures key in CacheOf(es) && m[key] == CacheOf(es)[key] {
        assert Listed(es, key);
        var i: nat :| Active(es, i) && es[i].Key() == key;
        CacheAt(es, i);
      }
      forall key | key in CacheOf(es) ensures key in m {
        var i := CacheHas(es, key);
      }
      SameMap(m, CacheOf(es));
    }
    if m == CacheOf(es) {
      forall i: nat | Active(es, i) ensures es[i].Key() in m && m[es[i].Key()] == es[i].frame {
        CacheAt(es, i);
      }
      forall key | key in m ensures Listed(es, key) {
        var i := CacheHas(es, key);
      }
    }
  }

  // The key of the entry slot i holds, if it is active.
  ghost function KeyAt(es: seq<TlbEntry>, i: nat): set<PageKey>
    requires i < |es|
  {
    if Active(es, i) then {es[i].Key()} else {}
  }

  // Filling slot i with a key no active entry has, when no slot below i is free or when none is free at all.
  lemma FillCache(es: seq<TlbEntry>, i: nat, e: TlbEntry)
    requires ActiveIsLowest(es) && i < |es| && !e.isFree && e.Key() !in CacheOf(es)
    requires forall k: nat :: k < i ==> Active(es, k)
    requires Active(es, i) ==> forall k: nat :: k < |es| ==> Active(es, k)
    ensures ActiveIsLowest(es[i := e])
    ensures CacheOf(es[i := e]) == (CacheOf(es) - KeyAt(es, i))[e.Key() := e.frame]
  {
    var t := es[i := e];
    forall a: nat, k: nat | Active(t, a) && k < a ensures t[k].Key() != t[a].Key() {
      if a == i {
        CacheAt(es, k);
      } else {
        assert Active(es, a);
        CacheAt(es, a);
      }
    }
    FillCacheMap(es, i, e);
  }

  lemma FillCacheMap(es: seq<TlbEntry>, i: nat, e: TlbEntry)
    requires ActiveIsLowest(es) && i < |es| && !e.isFree && e.Key() !in CacheOf(es)
    requires ActiveIsLowest(es[i := e])
    ensures CacheOf(es[i := e]) == (CacheOf(es) - KeyAt(es, i))[e.Key() := e.frame]
  {
    var t := es[i := e];
    var m, n := CacheOf(t), (CacheOf(es) - KeyAt(es, i))[e.Key() := e.frame];
    forall key | key in m ensures key in n && m[key] == n[key] {
      var a := CacheHas(t, key);
      CacheAt(t, a);
      if a != i {
        assert Active(es, a);
        CacheAt(es, a);
        if Active(es, i) && es[i].Key() == key {
          ActiveUnique(es, i, a);
        }
      }
    }
    forall key | key in n ensures key in m {
      if key == e.Key() {
        assert Active(t, i);
        CacheAt(t, i);
      } else {
        var a := CacheHas(es, key);
        assert Active(t, a);
        CacheAt(t, a);
      }
    }
    SameMap(m, n);
  }

  // Every slot stays queued when one moves to the end of the queue.
  lemma MoveKeepsQueued(es: seq<TlbEntry>, queue: seq<nat>, i: nat, to: seq<nat>)
    requires Queued(es, queue) && MovedToEnd(queue, i, to)
    ensures Queued(es, to) && i < |es|
  {
    var k: nat :| FirstAt(queue, i, k) && to == queue[..k] + queue[k + 1..] + [i];
    assert queue == queue[..k] + [i] + queue[k + 1..];
    forall x ensures x in to <==> x in queue {
    }
    assert i in queue;
  }

  lemma FillKeepsQueued(es: seq<TlbEntry>, queue: seq<nat>, i: nat, e: TlbEntry)
    requires Queued(es, queue) && i < |es| && i in queue
    ensures Queued(es[i := e], queue)
  {
    forall k: nat | Active(es[i := e], k) ensures k in queue {
      assert k != i ==> Active(es, k);
    }
  }

  lemma FillQueues(es: seq<TlbEntry>, queue: seq<nat>, i: nat, e: TlbEntry)
    requires Queued(es, queue) && i < |es|
    ensures Queued(es[i := e], queue + [i])
  {
    forall k: nat | Active(es[i := e], k) ensures k in queue + [i] {
      assert k != i ==> Active(es, k);
    }
  }

  lemma NotListed(es: seq<TlbEntry>, key: PageKey)
    requires forall k: nat :: Active(es, k) ==> es[k].Key() != key
    ensures key !in CacheOf(es)
  {
    if key in CacheOf(es) {
      var i := CacheHas(es, key);
    }
  }

  lemma EmptyQueue(es: seq<TlbEntry>, queue: seq<nat>)
    requires Queued(es, queue) && queue == []
    requires forall k: nat :: k < |es| ==> Active(es, k)
    ensures |es| == 0
  {
    assert !Active(es, 0);
  }

  // t is es with the slots freed whose keys are gone
  ghost predicate FreesExactly(es: seq<TlbEntry>, t: seq<TlbEntry>, gone: iset<PageKey>) {
    && |t| == |es|
    && (forall i :: 0 <= i < |es| ==> t[i].Key() == es[i].Key() && t[i].frame == es[i].frame)
    && (forall i: nat :: Active(t, i) <==> Active(es, i) && es[i].Key() !in gone)
  }

  lemma FreeCache(es: seq<TlbEntry>, t: seq<TlbEntry>, gone: iset<PageKey>)
    requires ActiveIsLowest(es) && FreesExactly(es, t, gone)
    ensures ActiveIsLowest(t)
    ensures CacheOf(t) == map key | key in CacheOf(es) && key !in gone :: CacheOf(es)[key]
  {
    forall a: nat, k: nat | Active(t, a) && k < a ensures t[k].Key() != t[a].Key() {
      assert Active(es, a);
      assert es[k].Key() != es[a].Key();
    }
    var m, n := CacheOf(t), map key | key in CacheOf(es) && key !in gone :: CacheOf(es)[key];
    forall key | key in m ensures key in n && m[key] == n[key] {
      var a := CacheHas(t, key);
      CacheAt(t, a);
      CacheAt(es, a);
    }
    forall key | key in n ensures key in m {
      var a := CacheHas(es, key);
      CacheAt(t, a);
    }
    SameMap(m, n);
  }

  // ----- the buffer

  // Exactly the active slots are queued, each one once.
  ghost predicate Tidy(es: seq<TlbEntry>, queue: seq<nat>) {
    NoTwice(queue) && forall i :: i in queue ==> Active(es, i)
  }

  lemma MoveKeepsTidy(es: seq<TlbEntry>, queue: seq<nat>, i: nat, to: seq<nat>)
    requires Tidy(es, queue) && MovedToEnd(queue, i, to)
    ensures Tidy(es, to)
  {
    MoveKeepsNoTwice(queue, i, to);
  }

  lemma FillKeepsTidy(es: seq<TlbEntry>, queue: seq<nat>, i: nat, e: TlbEntry)
    requires Tidy(es, queue) && i < |es| && !Active(es, i) && !e.isFree
    ensures Tidy(es[i := e], queue + [i])
  {
    forall k | k in queue + [i] ensures Active(es[i := e], k) {
      assert k != i ==> Active(es, k);
    }
  }

  // Slot i was used less recently than every other active slot.
  ghost predicate LeastRecent(es: seq<TlbEntry>, uses: seq<nat>, i: nat) {
    forall k: nat :: Active(es, k) && k != i ==> LastUse(uses, i) < LastUse(uses, k)
  }

  /**
   With all slots active, the one at the head of the queue is the one used least recently
   if and only if it is not queued again behind the last place of another one.
   */
  lemma HeadIsLru(es: seq<TlbEntry>, queue: seq<nat>, uses: seq<nat>)
    requires Queued(es, queue) && InUseOrder(queue, uses) && queue != []
    requires forall k: nat :: k < |es| ==> Active(es, k)
    ensures HeadIsOldest(queue) <==> LeastRecent(es, uses, queue[0])
    ensures Tidy(es, queue) ==> HeadIsOldest(queue)
  {
    HeadIsLeastRecent(queue, uses);
    if NoTwice(queue) {
      NoTwiceHeadIsOldest(queue);
    }
  }

  class TlbBuffer {
    const entries: array<TlbEntry>
    var victimQueue: seq<nat>
    const lru: bool
    // the translations cached, whatever entries they are in
    ghost var cache: map<PageKey, nat>
    // the slots filled and, under LRU, hit, in the order of time
    ghost var uses: seq<nat>

    constructor (size: nat, lru: bool)
      ensures Valid() && cache == map[] && fresh(entries) && this.lru == lru && entries.Length == size
      ensures victimQueue == [] && uses == [] && forall i: nat :: !Active(entries[..], i)
    {
      entries := new TlbEntry[size](_ => TlbEntry(0, 0, 0, true));
      victimQueue := [];
      this.lru := lru;
      cache, uses := map[], [];
      new;
      assert forall i: nat :: !Active(entries[..], i);
    }

    ghost predicate Valid()
      reads this, entries
    {
      && ActiveIsLowest(entries[..]) && Queued(entries[..], victimQueue) && Caches(cache, entries[..])
      && InUseOrder(victimQueue, uses)
    }

    // LRU moves the slot that was hit to the end of the queue; FIFO leaves the queue alone.
    method UpdateVictimQueue(i: nat)
      requires Valid() && i in victimQueue
      modifies this`victimQueue, this`uses
      ensures Valid() && (old(Tidy(entries[..], victimQueue)) ==> Tidy(entries[..], victimQueue))
      ensures if lru then MovedToEnd(old(victimQueue), i, victimQueue) && uses == old(uses) + [i]
              else victimQueue == old(victimQueue) && uses == old(uses)
    {
      if lru {
        RemoveThenAppend(victimQueue, i);
        MoveToEnd(i, RemoveFirst(victimQueue, i) + [i]);
      }
    }

    method MoveToEnd(i: nat, queue: seq<nat>)
      requires Valid() && MovedToEnd(victimQueue, i, queue)
      modifies this`victimQueue, this`uses
      ensures Valid() && victimQueue == queue && uses == old(uses) + [i]
      ensures old(Tidy(entries[..], victimQueue)) ==> Tidy(entries[..], victimQueue)
    {
      MoveKeepsQueued(entries[..], victimQueue, i, queue);
      MoveKeepsOrder(victimQueue, uses, i, queue);
      if Tidy(entries[..], victimQueue) {
        MoveKeepsTidy(entries[..], victimQueue, i, queue);
      }
      victimQueue, uses := queue, uses + [i];
    }

    // What a hit on slot i leaves: under LRU the slot is moved behind all others, which keep their order.
    ghost predicate UsedSlot(queue: seq<nat>, before: seq<nat>, i: nat)
      reads this, entries
    {
      if lru then MovedToEnd(queue, i, victimQueue) && uses == before + [i] else victimQueue == queue && uses == before
    }

    /** The frame of a cached translation, or -1.  A hit under LRU moves its slot, and nothing else, to the end of the queue. */
    method GetFrame(pid: nat, page: nat) returns (frame: int)
      requires Valid()
      modifies this`victimQueue, this`uses
      ensures Valid() && (old(Tidy(entries[..], victimQueue)) ==> Tidy(entries[..], victimQueue))
      ensures frame == if PageKey(pid, page) in cache then cache[PageKey(pid, page)] else -1
      ensures frame == -1 ==> victimQueue == old(victimQueue) && uses == old(uses)
      ensures frame != -1 ==> exists i: nat ::
        Active(entries[..], i) && entries[i].Key() == PageKey(pid, page) && UsedSlot(old(victimQueue), old(uses), i)
    {
      frame := -1;
      ghost var hit: nat := 0;
      for i := 0 to entries.Length
        invariant Valid() && (old(Tidy(entries[..], victimQueue)) ==> Tidy(entries[..], victimQueue))
        invariant frame == -1 ==> victimQueue == old(victimQueue) && uses == old(uses)
        invariant frame == -1 ==> forall k: nat :: k < i && Active(entries[..], k) ==> entries[k].Key() != PageKey(pid, page)
        invariant frame != -1 ==> hit < i && Active(entries[..], hit) && entries[hit].Key() == PageKey(pid, page)
        invariant frame != -1 ==> frame == entries[hit].frame && UsedSlot(old(victimQueue), old(uses), hit)
      {
        if entries[i].pid == pid && entries[i].page == page && !entries[i].isFree {
          assert Active(entries[..], i) && entries[..][i] == entries[i];
          assert frame == -1;
          UpdateVictimQueue(i);
          frame, hit := entries[i].frame, i;
        }
      }
      CachesIsMap(cache, entries[..]);
      if frame == -1 {
        NotListed(entries[..], PageKey(pid, page));
      } else {
        CacheAt(entries[..], hit);
      }
    }

    // The entry in slot i, which is free, or active like all others.
    method FillSlot(i: nat, e: TlbEntry)
      requires Valid() && i < entries.Length && i in victimQueue && !e.isFree && e.Key() !in cache
      requires forall k: nat :: k < i ==> Active(entries[..], k)
      requires Active(entries[..], i) ==> forall k: nat :: k < entries.Length ==> Active(entries[..], k)
      modifies this`cache, entries
      ensures Valid() && entries[..] == old(entries[..])[i := e]
      ensures cache == (old(cache) - KeyAt(old(entries[..]), i))[e.Key() := e.frame]
    {
      ghost var es := entries[..];
      CachesIsMap(cache, es);
      FillCache(es, i, e);
      FillKeepsQueued(es, victimQueue, i, e);
      entries[i] := e;
      assert entries[..] == es[i := e];
      cache := CacheOf(entries[..]);
      CachesIsMap(cache, entries[..]);
    }

    // A free slot is filled, no lower one being free.
    method UseFreeSlot(i: nat, e: TlbEntry)
      requires Valid() && i < entries.Length && !Active(entries[..], i) && !e.isFree && e.Key() !in cache
      requires forall k: nat :: k < i ==> Active(entries[..], k)
      modifies this`victimQueue, this`uses, this`cache, entries
      ensures Valid() && entries[..] == old(entries[..])[i := e]
      ensures cache == old(cache)[e.Key() := e.frame]
      ensures victimQueue == old(victimQueue) + [i] && uses == old(uses) + [i]
      ensures old(Tidy(entries[..], victimQueue)) ==> Tidy(entries[..], victimQueue)
    {
      ghost var es, queue := entries[..], victimQueue;
      FillQueues(es, queue, i, es[i]);
      assert es[i := es[i]] == es;
      UseAppends(queue, uses, i);
      victimQueue, uses := victimQueue + [i], uses + [i];
      FillSlot(i, e);
      if Tidy(es, queue) {
        FillKeepsTidy(es, queue, i, e);
      }
    }

    // No slot is free: the entry at the head of the queue is replaced.
    method ReplaceHead(e: TlbEntry)
      requires Valid() && victimQueue != [] && !e.isFree && e.Key() !in cache
      requires forall k: nat :: k < entries.Length ==> Active(entries[..], k)
      modifies this`victimQueue, this`uses, this`cache, entries
      ensures Valid() && old(victimQueue)[0] < entries.Length
      ensures entries[..] == old(entries[..])[old(victimQueue)[0] := e]
      ensures cache == (old(cache) - {old(entries[..][victimQueue[0]].Key())})[e.Key() := e.frame]
      ensures victimQueue == old(victimQueue)[1..] + [old(victimQueue)[0]] && uses == old(uses) + [old(victimQueue)[0]]
      ensures old(Tidy(entries[..], victimQueue)) ==> Tidy(entries[..], victimQueue)
    {
      ghost var es := entries[..];
      var victim := victimQueue[0];
      HeadMoves(victimQueue);
      MoveKeepsQueued(es, victimQueue, victim, victimQueue[1..] + [victim]);
      MoveToEnd(victim, victimQueue[1..] + [victim]);
      assert entries[..] == es;
      FillSlot(victim, e);
    }

    /**
     The new entry goes into the lowest free slot, or else replaces the entry at the
     head of the queue, which is the one used least recently unless its slot is queued
     again later.  A buffer without slots stays empty.
     */
    method AddEntry(pid: nat, page: nat, frame: nat) returns (ghost slot: nat)
      requires Valid() && PageKey(pid, page) !in cache
      modifies this`victimQueue, this`uses, this`cache, entries
      ensures Valid() && (old(Tidy(entries[..], victimQueue)) ==> Tidy(entries[..], victimQueue))
      ensures entries.Length == 0 ==> cache == old(cache)
      ensures entries.Length > 0 ==>
        && slot < entries.Length && uses == old(uses) + [slot]
        && entries[..] == old(entries[..])[slot := TlbEntry(pid, page, frame, false)]
        && cache == (old(cache) - KeyAt(old(entries[..]), slot))[PageKey(pid, page) := frame]
      ensures entries.Length > 0 && !Active(old(entries[..]), slot) ==>
        victimQueue == old(victimQueue) + [slot] && forall k: nat :: k < slot ==> Active(old(entries[..]), k)
      ensures entries.Length > 0 && Active(old(entries[..]), slot) ==>
        && (forall k: nat :: k < entries.Length ==> Active(old(entries[..]), k))
        && old(victimQueue) != [] && slot == old(victimQueue)[0] && victimQueue == old(victimQueue)[1..] + [slot]
        && (LeastRecent(old(entries[..]), old(uses), slot) <==> HeadIsOldest(old(victimQueue)))
        && (old(Tidy(entries[..], victimQueue)) ==> LeastRecent(old(entries[..]), old(uses), slot))
    {
      ghost var es := entries[..];
      for i := 0 to entries.Length
        invariant Valid() && entries[..] == es && cache == old(cache) && victimQueue == old(victimQueue) && uses == old(uses)
        invariant forall k: nat :: k < i ==> Active(es, k)
      {
        if entries[i].isFree {
          assert !Active(es, i);
          UseFreeSlot(i, TlbEntry(pid, page, frame, false));
          return i;
        }
        assert Active(es, i);
      }
      if victimQueue != [] {
        HeadIsLru(es, victimQueue, uses);
        slot := victimQueue[0];
        ReplaceHead(TlbEntry(pid, page, frame, false));
      } else {
        slot := 0;
        EmptyQueue(es, victimQueue);
      }
    }

    // The cache after some entries were marked as free.
    ghost method Forget(es: seq<TlbEntry>, gone: iset<PageKey>)
      requires ActiveIsLowest(es) && Queued(es, victimQueue) && Caches(cache, es) && InUseOrder(victimQueue, uses)
      requires FreesExactly(es, entries[..], gone)
      modifies this`cache
      ensures Valid() && cache == map key | key in old(cache) && key !in gone :: old(cache)[key]
    {
      CachesIsMap(cache, es);
      FreeCache(es, entries[..], gone);
      cache := CacheOf(entries[..]);
      CachesIsMap(cache, entries[..]);
    }

    // Marks the first entry with the key as free, whether or not it is.
    method DropEntry(pid: nat, page: nat)
      requires Valid()
      modifies this`cache, entries
      ensures Valid()
      ensures cache == old(cache) - {PageKey(pid, page)}
      ensures forall k: nat :: Active(entries[..], k) <==>
        Active(old(entries[..]), k) && old(entries[..])[k].Key() != PageKey(pid, page)
    {
      ghost var es := entries[..];
      ghost var gone := iset{PageKey(pid, page)};
      for i := 0 to entries.Length
        invariant entries[..] == es && cache == old(cache)
        invariant forall k :: 0 <= k < i ==> es[k].Key() != PageKey(pid, page)
      {
        if entries[i].pid == pid && entries[i].page == page {
          entries[i] := entries[i].(isFree := true);
          assert FreesExactly(es, entries[..], gone);
          Forget(es, gone);
          return;
        }
      }
      assert FreesExactly(es, entries[..], gone);
      Forget(es, gone);
    }

    method CleanTLB()
      requires Valid()
      modifies this`cache, entries
      ensures Valid() && cache == map[]
    {
      for i := 0 to entries.Length
        invariant forall k :: 0 <= k < i ==> entries[k].isFree
      {
        entries[i] := entries[i].(isFree := true);
      }
      assert forall i: nat :: !Active(entries[..], i);
      cache := map[];
    }

    method FreeProcessEntries(pid: nat)
      requires Valid()
      modifies this`cache, entries
      ensures Valid()
      ensures cache == map key | key in old(cache) && key.pid != pid :: old(cache)[key]
    {
      ghost var es := entries[..];
      for i := 0 to entries.Length
        invariant cache == old(cache)
        invariant forall k :: 0 <= k < i ==> entries[k] == if es[k].pid == pid then es[k].(isFree := true) else es[k]
        invariant forall k :: i <= k < entries.Length ==> entries[k] == es[k]
      {
        if entries[i].pid == pid {
          entries[i] := entries[i].(isFree := true);
        }
      }
      ghost var gone := iset key: PageKey | key.pid == pid;
      assert FreesExactly(es, entries[..], gone);
      Forget(es, gone);
    }
  }

  /**
   Dropping an entry leaves its slot queued.  Of two slots the first one is filled, freed
   and filled again; then it is replaced although it was filled last.
   */
  method NewestIsReplaced(lru: bool) returns (tlb: TlbBuffer)
    ensures tlb.Valid() && tlb.entries.Length == 2 && tlb.uses == [0, 1, 0, 0]
    ensures tlb.cache == map[PageKey(1, 1) := 6, PageKey(1, 3) := 8]
  {
    tlb := TwoFilled(lru);
    ReplaceDropped(tlb);
  }

  method TwoFilled(lru: bool) returns (tlb: TlbBuffer)
    ensures fresh(tlb) && fresh(tlb.entries) && tlb.Valid() && tlb.victimQueue == [0, 1] && tlb.uses == [0, 1]
    ensures tlb.entries[..] == [TlbEntry(1, 0, 5, false), TlbEntry(1, 1, 6, false)]
    ensures tlb.cache == map[PageKey(1, 0) := 5, PageKey(1, 1) := 6]
  {
    tlb := new TlbBuffer(2, lru);
    assert !Active(tlb.entries[..], 0) && !Active(tlb.entries[..], 1);
    ghost var slot := tlb.AddEntry(1, 0, 5);
    assert slot == 0;
    assert !Active(tlb.entries[..], 1);
    slot := tlb.AddEntry(1, 1, 6);
  }

  method ReplaceDropped(tlb: TlbBuffer)
    requires tlb.Valid() && tlb.victimQueue == [0, 1] && tlb.uses == [0, 1]
    requires tlb.entries[..] == [TlbEntry(1, 0, 5, false), TlbEntry(1, 1, 6, false)]
    requires tlb.cache == map[PageKey(1, 0) := 5, PageKey(1, 1) := 6]
    modifies tlb, tlb.entries
    ensures tlb.Valid() && tlb.uses == [0, 1, 0, 0]
    ensures tlb.cache == map[PageKey(1, 1) := 6, PageKey(1, 3) := 8]
  {
    DropThenFill(tlb);
    assert Active(tlb.entries[..], 0) && Active(tlb.entries[..], 1);
    ghost var slot := tlb.AddEntry(1, 3, 8);
  }

  method DropThenFill(tlb: TlbBuffer)
    requires tlb.Valid() && tlb.victimQueue == [0, 1] && tlb.uses == [0, 1]
    requires tlb.entries[..] == [TlbEntry(1, 0, 5, false), TlbEntry(1, 1, 6, false)]
    requires tlb.cache == map[PageKey(1, 0) := 5, PageKey(1, 1) := 6]
    modifies tlb, tlb.entries
    ensures tlb.Valid() && tlb.victimQueue == [0, 1, 0] && tlb.uses == [0, 1, 0]
    ensures Active(tlb.entries[..], 0) && Active(tlb.entries[..], 1) && tlb.entries[0].Key() == PageKey(1, 2)
    ensures tlb.cache == map[PageKey(1, 1) := 6, PageKey(1, 2) := 7]
  {
    assert Active(tlb.entries[..], 1);
    tlb.DropEntry(1, 0);
    ghost var es := tlb.entries[..];
    assert !Active(es, 0) && Active(es, 1);
    ghost var slot := tlb.AddEntry(1, 2, 7);
    assert slot == 0 && tlb.entries[..] == es[0 := TlbEntry(1, 2, 7, false)];
    assert tlb.entries[..][1] == es[1];
  }
}
