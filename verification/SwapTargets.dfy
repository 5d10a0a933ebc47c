/**
 The searches of the swap store as functions of its slots: where a request finds a
 page, and where it puts one.

 The searches make no promise about the slots they meet.  Pages saved in order lead
 them to the right slot; a page destroyed out of order can lead them to the slot of
 another one, which the save then overwrites.
 */
module SwapTargets {
  import opened Bytes
  import opened SwapModel
  import opened SwapChunks

  datatype Place = Place(file: nat, slot: nat)

  // ----- searches in one file

  // The lowest slot from i on that carries the key, in use or not; -1 if none does.
  function Lookup(f: File, key: PageKey, i: nat): (r: int)
    requires i <= |f|
    ensures r == -1 <==> forall k :: i <= k < |f| ==> f[k].Key() != key
    ensures r != -1 ==> i <= r < |f| && f[r].Key() == key && forall k :: i <= k < r ==> f[k].Key() != key
    decreases |f| - i
  {
    if i == |f| then -1 else if f[i].Key() == key then i else Lookup(f, key, i + 1)
  }

  // The lowest free slot from i on; -1 if there is none.
  function FirstFree(f: File, i: nat): (r: int)
    requires i <= |f|
    ensures r == -1 <==> forall k :: i <= k < |f| ==> f[k].used
    ensures r != -1 ==> i <= r < |f| && !f[r].used && forall k :: i <= k < r ==> f[k].used
    decreases |f| - i
  {
    if i == |f| then -1 else if !f[i].used then i else FirstFree(f, i + 1)
  }

  // The first chunk from i on that is labelled with the pid, if its first slot is in use; otherwise -1.
  function OwnChunkFrom(f: File, size: nat, pid: nat, i: nat): (r: int)
    requires size > 0
    ensures r != -1 ==> i <= r < |f| && f[r].used && f[r].pid == pid
    decreases |f| - i
  {
    if i >= |f| then -1
    else if f[i].pid == pid then (if f[i].used then i else -1)
    else OwnChunkFrom(f, size, pid, i + size)
  }

  // The first chunk from i on whose first slot is free; -1 if there is none.
  function FreeChunkFrom(f: File, size: nat, i: nat): (r: int)
    requires size > 0
    ensures r != -1 ==> i <= r < |f| && !f[r].used
    decreases |f| - i
  {
    if i >= |f| then -1 else if !f[i].used then i else FreeChunkFrom(f, size, i + size)
  }

  lemma {:induction false} FreeChunkIs(f: File, size: nat, i: nat)
    requires size > 0 && Offset(i, size) == 0
    ensures var r := FreeChunkFrom(f, size, i);
      && (r != -1 ==> Offset(r, size) == 0)
      && (forall k :: i <= k < (if r == -1 then |f| else r) && Offset(k, size) == 0 ==> f[k].used)
    decreases |f| - i
  {
    if i < |f| && f[i].used {
      NextStart(i, size);
      FreeChunkIs(f, size, i + size);
      forall k | i < k < |f| && Offset(k, size) == 0 ensures i + size <= k {
        WholeFits(i, k, size);
      }
    }
  }

  // The search for the chunk of a live process passes over the chunks before it.
  lemma {:induction false} OwnChunkFound(st: Store, size: nat, f: nat, h: nat, i: nat)
    requires Chunked(st, size) && Live(st, f, h) && Offset(i, size) == 0 && i <= Base(h, size)
    ensures OwnChunkFrom(st[f], size, st[f][h].pid, i) == Base(h, size)
    decreases Base(h, size) - i
  {
    BaseIsStart(h, size);
    FilledUpTo(st, size, f, h, Base(h, size));
    if i < Base(h, size) {
      if st[f][i].pid == st[f][h].pid {
        OnlyBase(st, size, f, h, i);
      }
      WholeFits(i, Base(h, size), size);
      NextStart(i, size);
      OwnChunkFound(st, size, f, h, i + size);
    }
  }

  // ----- searches among files

  predicate HasPid(f: File, pid: nat) {
    exists i :: 0 <= i < |f| && f[i].used && f[i].pid == pid
  }

  // The first file from l on with live slots of the process; -1 if there is none.
  function PidFile(st: Store, pid: nat, l: nat): (r: int)
    requires l <= |st|
    ensures r == -1 || l <= r < |st|
    decreases |st| - l
  {
    if l == |st| then -1 else if HasPid(st[l], pid) then l else PidFile(st, pid, l + 1)
  }

  lemma {:induction false} PidFileScan(st: Store, pid: nat, l: nat)
    requires l <= |st|
    ensures var r := PidFile(st, pid, l);
      if r == -1 then forall k :: l <= k < |st| ==> !HasPid(st[k], pid) else HasPid(st[r], pid)
    decreases |st| - l
  {
    if l < |st| && !HasPid(st[l], pid) {
      PidFileScan(st, pid, l + 1);
    }
  }

  lemma PidFileIs(st: Store, pid: nat)
    ensures PidFile(st, pid, 0) != -1 <==> LivePid(st, pid)
    ensures PidFile(st, pid, 0) != -1 ==> HasPid(st[PidFile(st, pid, 0)], pid)
  {
    PidFileScan(st, pid, 0);
    if LivePid(st, pid) {
      var f: nat, i: nat :| Live(st, f, i) && st[f][i].pid == pid;
      assert HasPid(st[f], pid);
    }
    var r := PidFile(st, pid, 0);
    if r != -1 {
      var i :| 0 <= i < |st[r]| && st[r][i].used && st[r][i].pid == pid;
      assert Live(st, r, i);
    }
  }

  // The first file from l on with a free chunk; -1 if there is none.
  function OpenFile(st: Store, size: nat, l: nat): (r: int)
    requires size > 0 && l <= |st|
    ensures r == -1 <==> forall k :: l <= k < |st| ==> FreeChunkFrom(st[k], size, 0) == -1
    ensures r != -1 ==> l <= r < |st| && FreeChunkFrom(st[r], size, 0) != -1
    ensures r != -1 ==> forall k :: l <= k < r ==> FreeChunkFrom(st[k], size, 0) == -1
    decreases |st| - l
  {
    if l == |st| then -1 else if FreeChunkFrom(st[l], size, 0) != -1 then l else OpenFile(st, size, l + 1)
  }

  // The first of the files before n with most free slots.
  function EmptiestFile(st: Store, n: nat): (r: nat)
    requires 0 < n <= |st|
    ensures r < n
    decreases n
  {
    if n == 1 then 0
    else
      var best := EmptiestFile(st, n - 1);
      if CountFree(st[best]) >= CountFree(st[n - 1]) then best else n - 1
  }

  lemma {:induction false} EmptiestIs(st: Store, n: nat)
    requires 0 < n <= |st|
    ensures var r := EmptiestFile(st, n);
      && (forall l :: 0 <= l < n ==> CountFree(st[l]) <= CountFree(st[r]))
      && (forall l :: 0 <= l < r ==> CountFree(st[l]) < CountFree(st[r]))
    decreases n
  {
    if n > 1 {
      EmptiestIs(st, n - 1);
    }
  }

  lemma EmptiestNext(st: Store, n: nat)
    requires 0 < n < |st|
    ensures var best := EmptiestFile(st, n);
      EmptiestFile(st, n + 1) == if CountFree(st[best]) >= CountFree(st[n]) then best else n
  {
  }

  // ----- where a page goes

  // The file a process has to use under fixed assignment: its own, or the first with a free chunk; -1 if there is none.
  function FixedFile(st: Store, size: nat, pid: nat): (k: int)
    requires size > 0
    ensures k == -1 || 0 <= k < |st|
  {
    var own := PidFile(st, pid, 0);
    if own != -1 then own else OpenFile(st, size, 0)
  }

  // The chunk of a file a new page of a process goes to: its own, or the first free one; -1 if there is none.
  function ChunkFor(f: File, size: nat, pid: nat): int
    requires size > 0
  {
    var own := OwnChunkFrom(f, size, pid, 0);
    if own != -1 then own else FreeChunkFrom(f, size, 0)
  }

  /** The slot fixed assignment writes a page to, whatever the slots hold; none if it refuses the page. */
  function FixedTarget(st: Store, size: nat, pid: nat, page: nat): Option<Place>
    requires size > 0
  {
    var k := FixedFile(st, size, pid);
    if k == -1 then None
    else
      var hit := Lookup(st[k], PageKey(pid, page), 0);
      if hit != -1 then Some(Place(k, hit))
      else
        var base, count := ChunkFor(st[k], size, pid), CountPid(st[k], pid);
        if base == -1 || count == size then None else Some(Place(k, base + count))
  }

  // The file a process has to use under global assignment; -1 if there are no files.
  function GlobalFile(st: Store, pid: nat): (k: int)
    ensures k == -1 || 0 <= k < |st|
    ensures k == -1 ==> |st| == 0
  {
    var own := PidFile(st, pid, 0);
    if own != -1 then own else if |st| == 0 then -1 else EmptiestFile(st, |st|)
  }

  /** The slot global assignment writes a page to; none if it refuses the page. */
  function GlobalTarget(st: Store, pid: nat, page: nat): Option<Place> {
    var k := GlobalFile(st, pid);
    if k == -1 then None
    else
      var hit := Lookup(st[k], PageKey(pid, page), 0);
      var index := if hit != -1 then hit else FirstFree(st[k], 0);
      if index == -1 then None else Some(Place(k, index))
  }

  function Target(st: Store, fixed: bool, size: nat, pid: nat, page: nat): Option<Place>
    requires fixed ==> size > 0
  {
    if fixed then FixedTarget(st, size, pid, page) else GlobalTarget(st, pid, page)
  }

  /** The slot a page is read from or destroyed in, in use or not; none if the request fails. */
  function PageAt(st: Store, pid: nat, page: nat): (p: Option<Place>)
    ensures p.Some? ==> At(st, p.value.file, p.value.slot)
  {
    var k := PidFile(st, pid, 0);
    if k == -1 then None
    else
      var hit := Lookup(st[k], PageKey(pid, page), 0);
      if hit == -1 then None else Some(Place(k, hit))
  }

  // What the requests do to the slots.
  function Saved(st: Store, p: Option<Place>, s: Slot): Store {
    if p.Some? && At(st, p.value.file, p.value.slot) then Put(st, p.value.file, p.value.slot, s) else st
  }

  function Destroyed(st: Store, p: Option<Place>, blank: Page): Store {
    if p.Some? && At(st, p.value.file, p.value.slot) then
      Put(st, p.value.file, p.value.slot, Freed(st[p.value.file][p.value.slot], blank))
    else st
  }

  // ----- what a save does, in any order

  // The file chosen is the one the live pages of the process are in, if it has any.
  lemma OwnFileIsOnly(st: Store, pid: nat)
    requires Lookable(st)
    ensures var k := PidFile(st, pid, 0);
      forall g: nat, i: nat {:trigger Live(st, g, i)} :: Live(st, g, i) && st[g][i].pid == pid ==> g == k
  {
    var k := PidFile(st, pid, 0);
    PidFileScan(st, pid, 0);
    forall g: nat, i: nat | Live(st, g, i) && st[g][i].pid == pid ensures g == k {
      assert HasPid(st[g], pid);
      var j :| 0 <= j < |st[k]| && st[k][j].used && st[k][j].pid == pid;
      assert Live(st, k, j);
    }
  }

  /**
   Whatever the order of the requests: the save a search leads to updates exactly one
   key if and only if the slot it leads to is free or already holds the page.
   */
  lemma SaveIsUpdateIff(st: Store, fixed: bool, size: nat, pid: nat, page: nat, content: Page)
    requires Lookable(st) && (fixed ==> size > 0)
    requires var p := Target(st, fixed, size, pid, page); p.Some? && At(st, p.value.file, p.value.slot)
    ensures var p := Target(st, fixed, size, pid, page); var was := st[p.value.file][p.value.slot];
      MapOf(Saved(st, p, Slot(pid, page, true, content))) == MapOf(st)[PageKey(pid, page) := content] <==>
        (!was.used || was.Key() == PageKey(pid, page))
  {
    var p := Target(st, fixed, size, pid, page).value;
    OwnFileIsOnly(st, pid);
    PidFileIs(st, pid);
    var hit := Lookup(st[p.file], PageKey(pid, page), 0);
    SaveIsUpdateIffSlotIsFree(st, p.file, p.slot, Slot(pid, page, true, content));
  }

  // A lookup does not see whether a slot is in use.
  lemma {:induction false} LookupSameKeys(f: File, t: File, key: PageKey, i: nat)
    requires i <= |f| == |t| && forall k :: 0 <= k < |f| ==> t[k].Key() == f[k].Key()
    ensures Lookup(t, key, i) == Lookup(f, key, i)
    decreases |f| - i
  {
    if i < |f| {
      LookupSameKeys(f, t, key, i + 1);
    }
  }

  /**
   A page that was destroyed is found all the same, and reads as the blank content, if and
   only if its process has another page in swap.
   */
  lemma DestroyedIsFoundIff(st: Store, pid: nat, page: nat, blank: Page)
    requires Lookable(st) && PageAt(st, pid, page).Some?
    ensures var p := PageAt(st, pid, page); var to := Destroyed(st, p, blank);
      && (PageAt(to, pid, page).Some? <==> LivePid(to, pid))
      && (LivePid(to, pid) ==> PageAt(to, pid, page) == p && to[p.value.file][p.value.slot].content == blank)
  {
    var p := PageAt(st, pid, page).value;
    var to := Destroyed(st, Some(p), blank);
    FreeKeepsLookable(st, p.file, p.slot, blank);
    PidFileIs(to, pid);
    if LivePid(to, pid) {
      var g: nat, k: nat :| Live(to, g, k) && to[g][k].pid == pid;
      OwnFileIsOnly(st, pid);
      OwnFileIsOnly(to, pid);
      assert Live(st, g, k) && st[g][k].pid == pid;
      LookupSameKeys(st[p.file], to[p.file], PageKey(pid, page), 0);
    }
  }

  // ----- saving pages in order

  lemma OpenFileIs(st: Store, size: nat)
    requires size > 0
    ensures OpenFile(st, size, 0) == -1 ==> forall f: nat, i: nat :: !FreeChunk(st, size, f, i)
  {
    if OpenFile(st, size, 0) == -1 {
      forall f: nat, i: nat ensures !FreeChunk(st, size, f, i) {
        if f < |st| {
          FreeChunkIs(st[f], size, 0);
        }
      }
    }
  }

  // What a save in order comes to: a slot it may write, or a refusal because there is no room.
  ghost predicate Decides(st: Store, size: nat, pid: nat, page: nat, p: Option<Place>)
    requires size > 0
  {
    match p
    case None => !FixedRoom(st, size, pid, page)
    case Some(at) => FixedRoom(st, size, pid, page) && FixedSlot(st, size, at.file, at.slot, pid, page)
  }

  // A process that has pages: the slot a lookup finds, or the next one of its chunk.
  function OwnSlot(f: File, size: nat, pid: nat, page: nat, k: nat, base: nat): Option<Place> {
    var hit := Lookup(f, PageKey(pid, page), 0);
    if hit != -1 then Some(Place(k, hit)) else if page == size then None else Some(Place(k, base + page))
  }

  lemma OwnTargetIs(st: Store, size: nat, pid: nat, page: nat, k: nat, base: nat)
    requires size > 0 && k < |st| && PidFile(st, pid, 0) == k && OwnChunkFrom(st[k], size, pid, 0) == base
    requires Lookup(st[k], PageKey(pid, page), 0) == -1 ==> page == CountPid(st[k], pid)
    ensures FixedTarget(st, size, pid, page) == OwnSlot(st[k], size, pid, page, k, base)
  {
  }

  lemma OwnMiss(st: Store, size: nat, pid: nat, page: nat, k: nat, h: nat)
    requires Chunked(st, size) && WholeChunks(st, size) && InOrder(st, pid, page)
    requires Live(st, k, h) && st[k][h].pid == pid && NoCarrier(st[k], PageKey(pid, page))
    ensures page == CountPid(st[k], pid) <= size
    ensures FixedRoom(st, size, pid, page) <==> page < size
    ensures page < size ==> FixedSlot(st, size, k, Base(h, size) + page, pid, page)
  {
    NoCarrierInOrder(st, size, k, h, page);
    OwnRoom(st, size, pid, page);
  }

  lemma OwnRoom(st: Store, size: nat, pid: nat, page: nat)
    requires size > 0 && LivePid(st, pid) && PageKey(pid, page) !in MapOf(st)
    ensures FixedRoom(st, size, pid, page) <==> page < size
  {
  }

  lemma OwnSlotDecides(st: Store, size: nat, pid: nat, page: nat, k: nat, h: nat)
    requires Chunked(st, size) && WholeChunks(st, size) && InOrder(st, pid, page)
    requires Live(st, k, h) && st[k][h].pid == pid
    ensures Decides(st, size, pid, page, OwnSlot(st[k], size, pid, page, k, Base(h, size)))
    ensures Lookup(st[k], PageKey(pid, page), 0) == -1 ==> page == CountPid(st[k], pid)
  {
    var hit := Lookup(st[k], PageKey(pid, page), 0);
    if hit != -1 {
      LookupInOrder(st, size, k, h, page, hit);
    } else {
      OwnMiss(st, size, pid, page, k, h);
    }
  }

  lemma OwnTarget(st: Store, size: nat, pid: nat, page: nat, k: nat, h: nat)
    requires Chunked(st, size) && WholeChunks(st, size) && InOrder(st, pid, page)
    requires Live(st, k, h) && st[k][h].pid == pid
    ensures FixedTarget(st, size, pid, page) == OwnSlot(st[k], size, pid, page, k, Base(h, size))
    ensures Decides(st, size, pid, page, FixedTarget(st, size, pid, page))
  {
    OwnFile(st, size, pid, k, h);
    OwnChunkFound(st, size, k, h, 0);
    OwnSlotDecides(st, size, pid, page, k, h);
    OwnTargetIs(st, size, pid, page, k, Base(h, size));
  }

  lemma OwnFile(st: Store, size: nat, pid: nat, k: nat, h: nat)
    requires Chunked(st, size) && Live(st, k, h) && st[k][h].pid == pid
    ensures PidFile(st, pid, 0) == k
  {
    ChunkedIsLookable(st, size);
    OwnFileIsOnly(st, pid);
    PidFileIs(st, pid);
  }

  // A process without pages: the first slot of a free chunk.
  lemma NewTarget(st: Store, size: nat, pid: nat, page: nat)
    requires size > 0 && InOrder(st, pid, page) && !LivePid(st, pid)
    ensures var p := FixedTarget(st, size, pid, page);
      Decides(st, size, pid, page, p) && (p.Some? ==> p.value.file == OpenFile(st, size, 0))
  {
    NotLiveInOrder(st, pid, page);
    PidFileIs(st, pid);
    OpenFileIs(st, size);
    var k := OpenFile(st, size, 0);
    if k != -1 {
      NewInFile(st, size, pid, k);
    }
  }

  lemma NewInFile(st: Store, size: nat, pid: nat, k: nat)
    requires size > 0 && k < |st| && !Carried(st, pid) && FreeChunkFrom(st[k], size, 0) != -1
    ensures var base := FreeChunkFrom(st[k], size, 0);
      && Lookup(st[k], PageKey(pid, 0), 0) == -1 && ChunkFor(st[k], size, pid) == base && CountPid(st[k], pid) == 0
      && FixedSlot(st, size, k, base, pid, 0) && FreeChunk(st, size, k, base)
  {
    forall i | 0 <= i < |st[k]| ensures st[k][i].pid != pid {
      assert At(st, k, i);
    }
    FreeChunkIs(st[k], size, 0);
    NewProcessSlot(st, size, k, FreeChunkFrom(st[k], size, 0), pid);
  }

  /** Pages saved in order go to the next slot of their process; one is refused if and only if there is no room. */
  lemma FixedTargetInOrder(st: Store, size: nat, pid: nat, page: nat)
    requires Chunked(st, size) && WholeChunks(st, size) && InOrder(st, pid, page)
    ensures Decides(st, size, pid, page, FixedTarget(st, size, pid, page))
  {
    if LivePid(st, pid) {
      var k: nat, h: nat :| Live(st, k, h) && st[k][h].pid == pid;
      OwnTarget(st, size, pid, page, k, h);
    } else {
      NewTarget(st, size, pid, page);
    }
  }

  /** Under global assignment, in any order. */
  lemma GlobalTargetIs(st: Store, pid: nat, page: nat)
    requires Lookable(st)
    ensures match GlobalTarget(st, pid, page)
      case None => !GlobalRoom(st, pid, page)
      case Some(p) => GlobalSpot(st, p.file, pid) && GlobalSlot(st, p.file, p.slot, PageKey(pid, page))
  {
    PidFileIs(st, pid);
    OwnFileIsOnly(st, pid);
    var k := GlobalFile(st, pid);
    if k == -1 {
      NotLiveNoRoom(st, pid, page);
    } else {
      if PidFile(st, pid, 0) == -1 {
        EmptiestIs(st, |st|);
      } else {
        var i :| 0 <= i < |st[k]| && st[k][i].used && st[k][i].pid == pid;
        assert Live(st, k, i);
      }
      assert GlobalSpot(st, k, pid);
      if GlobalTarget(st, pid, page) == None {
        NoneFree(st[k]);
        NoSlotNoRoom(st, k, pid, page);
      }
    }
  }

  // ----- pages destroyed out of order

  // A save under fixed assignment.
  function SaveFixed(st: Store, size: nat, pid: nat, page: nat, content: Page): Store
    requires size > 0
  {
    Saved(st, FixedTarget(st, size, pid, page), Slot(pid, page, true, content))
  }

  // A store of one file with two blank slots, in one chunk.
  function TwoSlots(blank: Page): Store {
    [[Slot(0, 0, false, blank), Slot(0, 0, false, blank)]]
  }

  // A process saves its pages 0 and 1, then destroys page 0.
  function FirstDestroyed(pid: nat, blank: Page, p0: Page, p1: Page): Store {
    var st := SaveFixed(SaveFixed(TwoSlots(blank), 2, pid, 0, p0), 2, pid, 1, p1);
    Destroyed(st, PageAt(st, pid, 0), blank)
  }

  lemma FirstDestroyedIs(pid: nat, blank: Page, p0: Page, p1: Page)
    requires pid != 0
    ensures FirstDestroyed(pid, blank, p0, p1) == [[Slot(pid, 0, false, blank), Slot(pid, 1, true, p1)]]
  {
    var s0, s1, empty := Slot(pid, 0, true, p0), Slot(pid, 1, true, p1), Slot(0, 0, false, blank);
    TwoSlotSave([empty, empty], pid, 0, p0);
    assert [empty, empty][0 := s0] == [s0, empty];
    TwoSlotSave([s0, empty], pid, 1, p1);
    assert [s0, empty][1 := s1] == [s0, s1];
    var f := [s0, s1];
    assert f[0].used && HasPid(f, pid);
    assert PageAt([f], pid, 0) == Some(Place(0, 0));
    assert f[0 := Freed(s0, blank)] == [Freed(s0, blank), s1];
    assert [f][0 := f[0 := Freed(s0, blank)]] == [[Freed(s0, blank), s1]];
  }

  // The target in one chunk of two slots, neither of which carries the key.
  lemma TwoSlotTargets(f: File, pid: nat, page: nat)
    requires |f| == 2 && f[0].Key() != PageKey(pid, page) && f[1].Key() != PageKey(pid, page)
    requires !f[0].used || f[0].pid == pid
    requires f[1].pid == pid || !f[1].used
    ensures CountPid(f, pid) == (if f[0].used then 1 else 0) + (if f[1].used then 1 else 0)
    ensures CountPid(f, pid) < 2 ==> FixedTarget([f], 2, pid, page) == Some(Place(0, CountPid(f, pid)))
  {
    assert f[..1] == [f[0]] && f[..1][..0] == [];
    assert CountPid(f[..1], pid) == if f[0].used && f[0].pid == pid then 1 else 0;
    if f[0].used {
      assert HasPid(f, pid);
    }
  }

  lemma LiveIsStored(st: Store, f: nat, i: nat)
    requires Live(st, f, i)
    ensures st[f][i].Key() in MapOf(st)
  {
    assert st[f][i].Key() in Keys(st);
  }

  lemma TwoSlotSave(f: File, pid: nat, page: nat, content: Page)
    requires |f| == 2 && f[0].Key() != PageKey(pid, page) && f[1].Key() != PageKey(pid, page)
    requires !f[0].used || f[0].pid == pid
    requires f[1].pid == pid || !f[1].used
    requires !f[0].used || !f[1].used
    ensures var n := CountPid(f, pid);
      n < 2 && SaveFixed([f], 2, pid, page, content) == [f[n := Slot(pid, page, true, content)]]
  {
    TwoSlotTargets(f, pid, page);
    var n := CountPid(f, pid);
    assert [f][0 := f[n := Slot(pid, page, true, content)]] == [f[n := Slot(pid, page, true, content)]];
  }

  /**
   Out of order the store loses pages: after page 0 of two pages is destroyed, the
   searches lead a save of page 2 to the slot of page 1.
   */
  lemma OutOfOrderLosesAPage(pid: nat, blank: Page, p0: Page, p1: Page, p2: Page)
    requires pid != 0
    ensures var st := FirstDestroyed(pid, blank, p0, p1);
      && FixedTarget(st, 2, pid, 2) == Some(Place(0, 1)) && st[0][1] == Slot(pid, 1, true, p1)
      && PageKey(pid, 1) in MapOf(st) && PageKey(pid, 1) !in MapOf(SaveFixed(st, 2, pid, 2, p2))
  {
    var st := FirstDestroyed(pid, blank, p0, p1);
    FirstDestroyedIs(pid, blank, p0, p1);
    TwoSlotTargets(st[0], pid, 2);
    TwoSlotSave(st[0], pid, 2, p2);
    LiveIsStored(st, 0, 1);
    var after := SaveFixed(st, 2, pid, 2, p2);
    if PageKey(pid, 1) in MapOf(after) {
      var f, i := MapHas(after, PageKey(pid, 1));
    }
  }
}
