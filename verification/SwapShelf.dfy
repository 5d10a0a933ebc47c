/**
 How full the swap files are, and which file each process has its pages in.

 Whether a save succeeds depends on nothing else: a process whose file or chunk is
 full is refused although another file has room, and a new process goes to the
 emptiest file, or to the first one with a free chunk.
 */
module SwapShelf {
  import opened Bytes
  import opened Maps
  import opened SwapModel
  import opened SwapChunks
  import opened SwapTargets

  // free: how many slots of each file are free, or how many chunks under fixed assignment; chunks have size slots.
  datatype Shelf = Shelf(fixed: bool, size: nat, free: seq<int>, home: map<nat, nat>)

  function Spare(sh: Shelf, f: nat): int {
    if f < |sh.free| then sh.free[f] else 0
  }

  // A process with pages in swap has room for k more.
  predicate RoomForMore(sh: Shelf, pid: nat, pages: nat, k: int)
    requires pid in sh.home
  {
    k <= 0 || if sh.fixed then pages + k <= sh.size else k <= Spare(sh, sh.home[pid])
  }

  // Some file takes the first page of a process.
  predicate RoomForFirst(sh: Shelf) {
    exists f :: 0 <= f < |sh.free| && sh.free[f] > 0
  }

  // Room for page number page of a process, which is not stored yet.
  predicate RoomFor(sh: Shelf, pid: nat, page: nat) {
    if pid in sh.home then RoomForMore(sh, pid, page, 1) else RoomForFirst(sh)
  }

  // ----- where a new process goes

  // The first file from l on with something free.
  function FirstOpen(free: seq<int>, l: nat): (r: nat)
    requires l <= |free|
    ensures l <= r <= |free| && (r < |free| ==> free[r] > 0)
    ensures forall k :: l <= k < r ==> free[k] <= 0
    decreases |free| - l
  {
    if l == |free| || free[l] > 0 then l else FirstOpen(free, l + 1)
  }

  // The first of the files before n with most free.
  function FirstMost(free: seq<int>, n: nat): (r: nat)
    requires 0 < n <= |free|
    ensures r < n && (forall l :: 0 <= l < n ==> free[l] <= free[r]) && (forall l :: 0 <= l < r ==> free[l] < free[r])
    decreases n
  {
    if n == 1 then 0
    else
      var best := FirstMost(free, n - 1);
      if free[best] >= free[n - 1] then best else n - 1
  }

  function Pick(sh: Shelf): nat {
    if sh.fixed then FirstOpen(sh.free, 0) else if |sh.free| == 0 then 0 else FirstMost(sh.free, |sh.free|)
  }

  // ----- what requests do to it

  function Moved(free: seq<int>, f: nat, d: int): seq<int> {
    if f < |free| then free[f := free[f] + d] else free
  }

  // k pages more of a process that has some; fewer if k is negative.
  function Filled(sh: Shelf, pid: nat, k: int): (to: Shelf)
    requires pid in sh.home
    ensures to.home == sh.home && to.fixed == sh.fixed && to.size == sh.size
  {
    if sh.fixed then sh else sh.(free := Moved(sh.free, sh.home[pid], -k))
  }

  // One page more of any process.
  function Taken(sh: Shelf, pid: nat): (to: Shelf)
    ensures pid in to.home && to.fixed == sh.fixed && to.size == sh.size
    ensures pid in sh.home ==> to.home == sh.home
  {
    if pid in sh.home then Filled(sh, pid, 1)
    else sh.(free := Moved(sh.free, Pick(sh), -1), home := sh.home[pid := Pick(sh)])
  }

  // A process gives up its last n pages.
  function Emptied(sh: Shelf, pid: nat, n: nat): Shelf
    requires pid in sh.home
  {
    sh.(free := Moved(sh.free, sh.home[pid], if sh.fixed then 1 else n), home := sh.home - {pid})
  }

  // A process with n pages, or none, gives them all up.
  function Left(sh: Shelf, pid: nat, n: nat): Shelf {
    if pid in sh.home then Emptied(sh, pid, n) else sh
  }

  lemma FilledTwice(sh: Shelf, pid: nat, k: int, l: int)
    requires pid in sh.home
    ensures Filled(Filled(sh, pid, k), pid, l) == Filled(sh, pid, k + l)
  {
  }

  lemma FilledNone(sh: Shelf, pid: nat)
    requires pid in sh.home
    ensures Filled(sh, pid, 0) == sh
  {
  }

  lemma FilledRoom(sh: Shelf, pid: nat, pages: nat, k: nat)
    requires pid in sh.home
    ensures RoomForMore(sh, pid, pages, k + 1) <==> RoomForMore(sh, pid, pages, k) && RoomFor(Filled(sh, pid, k), pid, pages + k)
  {
  }

  lemma FilledThenEmptied(sh: Shelf, pid: nat, n: nat)
    requires pid in sh.home && n > 0
    ensures Emptied(Filled(sh, pid, -(n - 1)), pid, 1) == Emptied(sh, pid, n)
  {
  }

  // ----- the shelf of a store

  // Slot i of a file counts as free; under fixed assignment, only as the first slot of a chunk.
  predicate Vacant(fixed: bool, size: nat, f: File, i: nat)
    requires i < |f| && (fixed ==> size > 0)
  {
    !f[i].used && (fixed ==> Offset(i, size) == 0)
  }

  function Vacancies(fixed: bool, size: nat, f: File, n: nat): (c: nat)
    requires n <= |f| && (fixed ==> size > 0)
    ensures c > 0 <==> exists i: nat :: i < n && Vacant(fixed, size, f, i)
  {
    if n == 0 then 0
    else
      var c := Vacancies(fixed, size, f, n - 1);
      if Vacant(fixed, size, f, n - 1) then c + 1 else c
  }

  lemma {:induction false} VacanciesPut(fixed: bool, size: nat, f: File, i: nat, s: Slot, n: nat)
    requires n <= |f| && i < |f| && (fixed ==> size > 0)
    ensures Vacancies(fixed, size, f[i := s], n) == Vacancies(fixed, size, f, n)
      + (if i < n && Vacant(fixed, size, f[i := s], i) then 1 else 0)
      - (if i < n && Vacant(fixed, size, f, i) then 1 else 0)
    decreases n
  {
    if n > 0 {
      VacanciesPut(fixed, size, f, i, s, n - 1);
    }
  }

  lemma {:induction false} VacanciesAreFree(size: nat, f: File, n: nat)
    requires n <= |f|
    ensures Vacancies(false, size, f, n) == CountFree(f[..n])
    decreases n
  {
    if n > 0 {
      VacanciesAreFree(size, f, n - 1);
      assert f[..n][..n - 1] == f[..n - 1];
    }
  }

  ghost predicate CountsFree(sh: Shelf, st: Store) {
    && (sh.fixed ==> sh.size > 0)
    && |sh.free| == |st|
    && (forall f {:trigger sh.free[f]} :: 0 <= f < |st| ==> sh.free[f] == Vacancies(sh.fixed, sh.size, st[f], |st[f]|))
  }

  ghost predicate KnowsHomes(sh: Shelf, st: Store) {
    && (forall f: nat, i: nat {:trigger Live(st, f, i)} :: Live(st, f, i) ==>
          st[f][i].pid in sh.home && sh.home[st[f][i].pid] == f)
    && (forall pid {:trigger LivePid(st, pid)} {:trigger pid in sh.home} :: pid in sh.home ==> LivePid(st, pid))
  }

  ghost predicate Shelved(sh: Shelf, st: Store) {
    CountsFree(sh, st) && KnowsHomes(sh, st)
  }

  // ----- a slot is filled

  lemma CountsPut(sh: Shelf, st: Store, f: nat, i: nat, s: Slot, d: int)
    requires CountsFree(sh, st) && At(st, f, i)
    requires d == (if Vacant(sh.fixed, sh.size, st[f][i := s], i) then 1 else 0)
               - (if Vacant(sh.fixed, sh.size, st[f], i) then 1 else 0)
    ensures CountsFree(sh.(free := Moved(sh.free, f, d)), Put(st, f, i, s))
  {
    VacanciesPut(sh.fixed, sh.size, st[f], i, s, |st[f]|);
  }

  lemma CountsKept(sh: Shelf, st: Store, f: nat, i: nat, s: Slot)
    requires CountsFree(sh, st) && At(st, f, i)
    requires Vacant(sh.fixed, sh.size, st[f][i := s], i) <==> Vacant(sh.fixed, sh.size, st[f], i)
    ensures CountsFree(sh, Put(st, f, i, s))
  {
    CountsPut(sh, st, f, i, s, 0);
    assert sh.free[f := sh.free[f] + 0] == sh.free;
  }

  lemma HomesPut(sh: Shelf, st: Store, f: nat, i: nat, s: Slot)
    requires KnowsHomes(sh, st) && At(st, f, i) && s.used && (Live(st, f, i) ==> st[f][i].pid == s.pid)
    requires s.pid in sh.home ==> sh.home[s.pid] == f
    ensures KnowsHomes(sh.(home := sh.home[s.pid := f]), Put(st, f, i, s))
  {
    var t, home := Put(st, f, i, s), sh.home[s.pid := f];
    forall g: nat, k: nat | Live(t, g, k) ensures t[g][k].pid in home && home[t[g][k].pid] == g {
      assert (g == f && k == i) || Live(st, g, k);
    }
    forall pid | pid in home ensures LivePid(t, pid) {
      if pid == s.pid {
        assert Live(t, f, i);
      } else {
        assert LivePid(st, pid);
        var g: nat, k: nat :| Live(st, g, k) && st[g][k].pid == pid;
        assert Live(t, g, k);
      }
    }
  }

  // Writing over a live slot of the same process moves nothing.
  lemma RewriteShelved(sh: Shelf, st: Store, f: nat, i: nat, s: Slot)
    requires Shelved(sh, st) && Live(st, f, i) && s.used && st[f][i].pid == s.pid
    ensures Shelved(sh, Put(st, f, i, s))
  {
    CountsKept(sh, st, f, i, s);
    HomesPut(sh, st, f, i, s);
    assert sh.home[s.pid := f] == sh.home;
  }

  // Filling a free slot of the file a process is in, or goes to.
  lemma FillShelved(sh: Shelf, st: Store, f: nat, i: nat, s: Slot)
    requires Shelved(sh, st) && At(st, f, i) && !Live(st, f, i) && s.used
    requires f == (if s.pid in sh.home then sh.home[s.pid] else Pick(sh))
    requires sh.fixed ==> (Offset(i, sh.size) == 0 <==> s.pid !in sh.home)
    ensures Shelved(Taken(sh, s.pid), Put(st, f, i, s))
  {
    HomesPut(sh, st, f, i, s);
    if s.pid in sh.home {
      assert sh.home[s.pid := f] == sh.home;
    }
    if sh.fixed && s.pid in sh.home {
      CountsKept(sh, st, f, i, s);
    } else {
      CountsPut(sh, st, f, i, s, -1);
    }
  }

  // ----- a slot is freed

  lemma StaleShelved(sh: Shelf, st: Store, f: nat, i: nat, blank: Page)
    requires Shelved(sh, st) && At(st, f, i) && !Live(st, f, i)
    ensures Shelved(sh, Put(st, f, i, Freed(st[f][i], blank)))
  {
    var t := Put(st, f, i, Freed(st[f][i], blank));
    CountsKept(sh, st, f, i, Freed(st[f][i], blank));
    assert forall g: nat, k: nat :: Live(t, g, k) <==> Live(st, g, k);
    forall pid | pid in sh.home ensures LivePid(t, pid) {
      assert LivePid(st, pid);
      var g: nat, k: nat :| Live(st, g, k) && st[g][k].pid == pid;
      assert Live(t, g, k);
    }
  }

  // No other slot holds a page of the process of slot i.
  ghost predicate Alone(st: Store, f: nat, i: nat)
    requires Live(st, f, i)
  {
    forall g: nat, k: nat {:trigger Live(st, g, k)} :: Live(st, g, k) && st[g][k].pid == st[f][i].pid ==> g == f && k == i
  }

  lemma FreeShelved(sh: Shelf, st: Store, f: nat, i: nat, blank: Page)
    requires Shelved(sh, st) && Live(st, f, i)
    requires sh.fixed ==> (Offset(i, sh.size) == 0 <==> Alone(st, f, i))
    ensures st[f][i].pid in sh.home
    ensures var pid := st[f][i].pid;
      Shelved(if Alone(st, f, i) then Emptied(sh, pid, 1) else Filled(sh, pid, -1), Put(st, f, i, Freed(st[f][i], blank)))
  {
    var pid, s := st[f][i].pid, Freed(st[f][i], blank);
    if sh.fixed && !Alone(st, f, i) {
      CountsKept(sh, st, f, i, s);
    } else {
      CountsPut(sh, st, f, i, s, 1);
    }
    FreeHomes(sh, st, f, i, blank);
  }

  lemma FreeHomes(sh: Shelf, st: Store, f: nat, i: nat, blank: Page)
    requires KnowsHomes(sh, st) && Live(st, f, i)
    ensures KnowsHomes(sh.(home := if Alone(st, f, i) then sh.home - {st[f][i].pid} else sh.home),
                       Put(st, f, i, Freed(st[f][i], blank)))
  {
    var t := Put(st, f, i, Freed(st[f][i], blank));
    forall g: nat, k: nat | Live(t, g, k) ensures Live(st, g, k) && !(g == f && k == i) && t[g][k] == st[g][k] {
    }
    forall pid | pid in sh.home && !(Alone(st, f, i) && pid == st[f][i].pid) ensures LivePid(t, pid) {
      OtherLives(sh, st, f, i, blank, pid);
    }
  }

  lemma OtherLives(sh: Shelf, st: Store, f: nat, i: nat, blank: Page, pid: nat)
    requires KnowsHomes(sh, st) && Live(st, f, i) && pid in sh.home && !(Alone(st, f, i) && pid == st[f][i].pid)
    ensures LivePid(Put(st, f, i, Freed(st[f][i], blank)), pid)
  {
    assert LivePid(st, pid);
    var g: nat, k: nat :| Live(st, g, k) && st[g][k].pid == pid && !(g == f && k == i);
    assert Live(Put(st, f, i, Freed(st[f][i], blank)), g, k);
  }

  // ----- what the shelf says about searches

  lemma FirstIs(sh: Shelf, st: Store)
    requires CountsFree(sh, st)
    ensures sh.fixed ==> (RoomForFirst(sh) <==> exists f: nat, i: nat :: FreeChunk(st, sh.size, f, i))
    ensures !sh.fixed ==> (RoomForFirst(sh) <==> exists f: nat, i: nat :: At(st, f, i) && !st[f][i].used)
  {
    if f :| 0 <= f < |sh.free| && sh.free[f] > 0 {
      var i: nat :| i < |st[f]| && Vacant(sh.fixed, sh.size, st[f], i);
      assert At(st, f, i);
      assert sh.fixed ==> FreeChunk(st, sh.size, f, i);
    }
    forall f: nat, i: nat | At(st, f, i) && Vacant(sh.fixed, sh.size, st[f], i) ensures RoomForFirst(sh) {
      assert sh.free[f] > 0;
    }
  }

  lemma HomeIsLive(sh: Shelf, st: Store, pid: nat)
    requires KnowsHomes(sh, st)
    ensures pid in sh.home <==> LivePid(st, pid)
    ensures pid in sh.home <==> PidFile(st, pid, 0) != -1
    ensures pid in sh.home ==> sh.home[pid] == PidFile(st, pid, 0)
  {
    PidFileIs(st, pid);
    var k := PidFile(st, pid, 0);
    if k != -1 {
      var i :| 0 <= i < |st[k]| && st[k][i].used && st[k][i].pid == pid;
      assert Live(st, k, i);
    }
  }

  lemma OpenFileIsPick(sh: Shelf, st: Store)
    requires CountsFree(sh, st) && sh.fixed && OpenFile(st, sh.size, 0) != -1
    ensures OpenFile(st, sh.size, 0) == Pick(sh)
  {
    forall f | 0 <= f < |st| ensures sh.free[f] > 0 <==> FreeChunkFrom(st[f], sh.size, 0) != -1 {
      FreeChunkIs(st[f], sh.size, 0);
      var r := FreeChunkFrom(st[f], sh.size, 0);
      if r != -1 {
        assert Vacant(true, sh.size, st[f], r);
      }
    }
  }

  lemma EmptiestIsPick(sh: Shelf, st: Store)
    requires CountsFree(sh, st) && !sh.fixed && |st| > 0
    ensures EmptiestFile(st, |st|) == Pick(sh)
  {
    EmptiestIs(st, |st|);
    forall f | 0 <= f < |st| ensures sh.free[f] == CountFree(st[f]) {
      VacanciesAreFree(sh.size, st[f], |st[f]|);
      assert st[f][..|st[f]|] == st[f];
    }
  }

  // ----- saving

  // The next slot of a process is not the one of a stored page, and begins a chunk only for a new process.
  lemma NextSlotIs(st: Store, size: nat, f: nat, i: nat, pid: nat, page: nat)
    requires Chunked(st, size) && NextSlot(st, size, f, i, pid) && Offset(i, size) == page
    ensures PageKey(pid, page) !in MapOf(st)
    ensures LivePid(st, pid) ==> page > 0 && exists k: nat :: Live(st, f, k) && st[f][k].pid == pid
  {
    if PageKey(pid, page) in MapOf(st) {
      var g, k := MapHas(st, PageKey(pid, page));
    }
    if LivePid(st, pid) {
      var g: nat, k: nat :| Live(st, g, k) && st[g][k].pid == pid;
      assert At(st, g, k);
      if page == 0 {
        FilledUpTo(st, size, f, k, i);
      }
    }
  }

  // What a save under fixed assignment does to the shelf.
  lemma FixedSaveShelved(sh: Shelf, st: Store, pid: nat, page: nat, content: Page, f: nat, i: nat)
    requires Shelved(sh, st) && sh.fixed && Chunked(st, sh.size) && InOrder(st, pid, page)
    requires FixedSlot(st, sh.size, f, i, pid, page) && FixedTarget(st, sh.size, pid, page) == Some(Place(f, i))
    ensures Shelved(if PageKey(pid, page) in MapOf(st) then sh else Taken(sh, pid), Put(st, f, i, Slot(pid, page, true, content)))
  {
    assert Look(0);
    var s := Slot(pid, page, true, content);
    if Live(st, f, i) && st[f][i].Key() == PageKey(pid, page) {
      LiveIsStored(st, f, i);
      RewriteShelved(sh, st, f, i, s);
    } else {
      NextSlotIs(st, sh.size, f, i, pid, page);
      FixedFillShelved(sh, st, f, i, s);
    }
  }

  lemma FixedFillShelved(sh: Shelf, st: Store, f: nat, i: nat, s: Slot)
    requires Shelved(sh, st) && sh.fixed && InOrder(st, s.pid, s.page) && s.used && At(st, f, i) && !Live(st, f, i)
    requires Offset(i, sh.size) == s.page && FixedTarget(st, sh.size, s.pid, s.page) == Some(Place(f, i))
    requires LivePid(st, s.pid) ==> s.page > 0 && exists k: nat :: Live(st, f, k) && st[f][k].pid == s.pid
    ensures Shelved(Taken(sh, s.pid), Put(st, f, i, s))
  {
    HomeIsLive(sh, st, s.pid);
    if !LivePid(st, s.pid) {
      NotLiveInOrder(st, s.pid, s.page);
      NewTarget(st, sh.size, s.pid, s.page);
      OpenFileIsPick(sh, st);
    }
    FillShelved(sh, st, f, i, s);
  }

  // What a save under global assignment does to the shelf.
  lemma GlobalSaveShelved(sh: Shelf, st: Store, pid: nat, page: nat, content: Page, f: nat, i: nat)
    requires Shelved(sh, st) && !sh.fixed && Lookable(st) && GlobalTarget(st, pid, page) == Some(Place(f, i))
    ensures At(st, f, i)
    ensures Shelved(if PageKey(pid, page) in MapOf(st) then sh else Taken(sh, pid), Put(st, f, i, Slot(pid, page, true, content)))
  {
    var s := Slot(pid, page, true, content);
    HomeIsLive(sh, st, pid);
    GlobalSlotStored(st, pid, page, f, i);
    if Live(st, f, i) {
      RewriteShelved(sh, st, f, i, s);
    } else {
      if pid !in sh.home {
        EmptiestIsPick(sh, st);
      }
      FillShelved(sh, st, f, i, s);
    }
  }

  // The slot is in use exactly if the page is stored, and then holds it.
  lemma GlobalSlotStored(st: Store, pid: nat, page: nat, f: nat, i: nat)
    requires Lookable(st) && GlobalTarget(st, pid, page) == Some(Place(f, i))
    ensures At(st, f, i) && (Live(st, f, i) <==> PageKey(pid, page) in MapOf(st))
    ensures Live(st, f, i) ==> st[f][i].Key() == PageKey(pid, page)
  {
    PidFileIs(st, pid);
    OwnFileIsOnly(st, pid);
    if Live(st, f, i) {
      LiveIsStored(st, f, i);
    }
    if PageKey(pid, page) in MapOf(st) {
      var g, k := MapHas(st, PageKey(pid, page));
      LookupFindsLive(st, g, k, g, k);
    }
  }

  /** A save succeeds if and only if the page is stored already or the shelf has room for it. */
  lemma RoomIsShelf(sh: Shelf, st: Store, pid: nat, page: nat)
    requires Shelved(sh, st)
    ensures sh.fixed ==>
      (FixedRoom(st, sh.size, pid, page) <==> PageKey(pid, page) in MapOf(st) || RoomFor(sh, pid, page))
    ensures !sh.fixed && Lookable(st) ==>
      (GlobalRoom(st, pid, page) <==> PageKey(pid, page) in MapOf(st) || RoomFor(sh, pid, page))
  {
    HomeIsLive(sh, st, pid);
    FirstIs(sh, st);
    if !sh.fixed && Lookable(st) && pid in sh.home {
      OwnFileHasRoom(sh, st, pid);
    }
  }

  lemma OwnFileHasRoom(sh: Shelf, st: Store, pid: nat)
    requires Shelved(sh, st) && !sh.fixed && Lookable(st) && pid in sh.home
    ensures Spare(sh, sh.home[pid]) > 0 <==>
      exists f: nat, i: nat, k: nat :: Live(st, f, i) && st[f][i].pid == pid && At(st, f, k) && !st[f][k].used
  {
    HomeIsLive(sh, st, pid);
    var h := sh.home[pid];
    var i :| 0 <= i < |st[h]| && st[h][i].used && st[h][i].pid == pid;
    assert Live(st, h, i);
    if Spare(sh, h) > 0 {
      var k: nat :| k < |st[h]| && Vacant(false, sh.size, st[h], k);
      assert Live(st, h, i) && At(st, h, k);
    }
    if f: nat, j: nat, k: nat :| Live(st, f, j) && st[f][j].pid == pid && At(st, f, k) && !st[f][k].used {
      assert f == h && Vacant(false, sh.size, st[h], k);
    }
  }

  // ----- destroying

  // The shelf after page number page of a process is destroyed, if it was stored.
  ghost function AfterDestroy(sh: Shelf, stored: map<PageKey, Page>, pid: nat, page: nat): Shelf {
    if PageKey(pid, page) !in stored || pid !in sh.home then sh
    else if forall g: nat :: PageKey(pid, g) in stored ==> g == page then Emptied(sh, pid, 1)
    else Filled(sh, pid, -1)
  }

  lemma AloneIsOnly(st: Store, f: nat, i: nat)
    requires Lookable(st) && Live(st, f, i)
    ensures Alone(st, f, i) <==> forall g: nat :: PageKey(st[f][i].pid, g) in MapOf(st) ==> g == st[f][i].page
  {
    var pid := st[f][i].pid;
    if Alone(st, f, i) {
      forall g: nat | PageKey(pid, g) in MapOf(st) ensures g == st[f][i].page {
        var h, k := MapHas(st, PageKey(pid, g));
      }
    } else {
      var h: nat, k: nat :| Live(st, h, k) && st[h][k].pid == pid && !(h == f && k == i);
      LiveIsStored(st, h, k);
      assert st[h][k].Key() == PageKey(pid, st[h][k].page);
      if st[h][k].page == st[f][i].page {
        LiveUnique(st, f, i, h, k);
      }
    }
  }

  // The last page of a process is its only one exactly if it begins a chunk.
  lemma LastBeginsChunk(st: Store, size: nat, f: nat, i: nat)
    requires Chunked(st, size) && Live(st, f, i) && PageKey(st[f][i].pid, st[f][i].page + 1) !in MapOf(st)
    ensures Offset(i, size) == 0 <==> Alone(st, f, i)
  {
    if Offset(i, size) == 0 {
      forall g: nat, k: nat | Live(st, g, k) && st[g][k].pid == st[f][i].pid ensures g == f && k == i {
        CarrierPlace(st, size, f, i, g, k);
        if i < k {
          LaterPage(st, size, f, i, k);
        }
      }
    } else {
      FilledUpTo(st, size, f, i, Base(i, size));
      assert Live(st, f, Base(i, size));
    }
  }

  /** Destroying a page gives its slot back, and its file up if it was the last page of its process. */
  lemma DestroyShelved(sh: Shelf, st: Store, f: nat, i: nat, blank: Page)
    requires Shelved(sh, st) && Lookable(st) && Live(st, f, i)
    requires sh.fixed ==> Chunked(st, sh.size) && PageKey(st[f][i].pid, st[f][i].page + 1) !in MapOf(st)
    ensures st[f][i].pid in sh.home
    ensures Shelved(AfterDestroy(sh, MapOf(st), st[f][i].pid, st[f][i].page), Put(st, f, i, Freed(st[f][i], blank)))
  {
    LiveIsStored(st, f, i);
    assert st[f][i].Key() == PageKey(st[f][i].pid, st[f][i].page);
    AloneIsOnly(st, f, i);
    if sh.fixed {
      LastBeginsChunk(st, sh.size, f, i);
    }
    FreeShelved(sh, st, f, i, blank);
  }

  // A process has a home exactly if it has a page in swap.
  lemma HomeIsStored(sh: Shelf, st: Store, pid: nat)
    requires Shelved(sh, st)
    ensures pid in sh.home <==> exists g: nat :: PageKey(pid, g) in MapOf(st)
  {
    HomeIsLive(sh, st, pid);
    if LivePid(st, pid) {
      var f: nat, i: nat :| Live(st, f, i) && st[f][i].pid == pid;
      LiveIsStored(st, f, i);
      assert st[f][i].Key() == PageKey(pid, st[f][i].page);
    }
    if g: nat :| PageKey(pid, g) in MapOf(st) {
      var f, i := MapHas(st, PageKey(pid, g));
    }
  }

  // Nothing is stored, and everything is free.
  lemma StartsShelved(sh: Shelf, st: Store)
    requires CountsFree(sh, st) && sh.home == map[] && forall f: nat, i: nat :: !Live(st, f, i)
    ensures Shelved(sh, st)
  {
  }

  // How many chunks begin before slot n.
  function ChunksBefore(n: nat, size: nat): nat
    requires size > 0
    decreases n
  {
    if n == 0 then 0 else if n <= size then 1 else 1 + ChunksBefore(n - size, size)
  }

  lemma {:induction false} OneChunkMore(n: nat, size: nat)
    requires size > 0
    ensures ChunksBefore(n + 1, size) == ChunksBefore(n, size) + if Offset(n, size) == 0 then 1 else 0
    decreases n
  {
    if n >= size {
      OneChunkMore(n - size, size);
    }
  }

  lemma {:induction false} BlankVacancies(fixed: bool, size: nat, f: File, n: nat)
    requires n <= |f| && (fixed ==> size > 0) && forall i :: 0 <= i < |f| ==> !f[i].used
    ensures Vacancies(fixed, size, f, n) == if fixed then ChunksBefore(n, size) else n
    decreases n
  {
    if n > 0 {
      BlankVacancies(fixed, size, f, n - 1);
      if fixed {
        OneChunkMore(n - 1, size);
      }
    }
  }

  // Files of n free slots each.
  function BlankShelf(fileQty: nat, n: nat, fixed: bool, size: nat): Shelf
    requires fixed ==> size > 0
  {
    Shelf(fixed, size, seq(fileQty, _ => if fixed then ChunksBefore(n, size) else n), map[])
  }

  lemma BlankCounts(sh: Shelf, st: Store, n: nat)
    requires (sh.fixed ==> sh.size > 0) && sh == BlankShelf(|st|, n, sh.fixed, sh.size)
    requires forall f :: 0 <= f < |st| ==> |st[f]| == n
    requires forall f, i :: 0 <= f < |st| && 0 <= i < n ==> !st[f][i].used
    ensures CountsFree(sh, st)
  {
    forall f | 0 <= f < |st| ensures sh.free[f] == Vacancies(sh.fixed, sh.size, st[f], |st[f]|) {
      BlankVacancies(sh.fixed, sh.size, st[f], n);
    }
  }
}
