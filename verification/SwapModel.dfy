/** The swap store as a value: files of slots, and the map of pages they stand for. */
module SwapModel {
  import opened Bytes
  import opened Maps

  // A slot keeps the key of the page it last held even after that page is
  // destroyed, and lookups do not test whether a slot is in use.  They find the
  // right slot all the same, because of two invariants: the live pages of a process
  // are in one file, and no slot below a live one, live or stale, carries its key.

  datatype PageKey = PageKey(pid: nat, page: nat)

  datatype Slot = Slot(pid: nat, page: nat, used: bool, content: Page) {
    function Key(): PageKey {
      PageKey(pid, page)
    }
  }

  type File = seq<Slot>
  type Store = seq<File>

  predicate At(st: Store, f: nat, i: nat) {
    f < |st| && i < |st[f]|
  }

  predicate Live(st: Store, f: nat, i: nat) {
    At(st, f, i) && st[f][i].used
  }

  // ----- the invariants

  ghost predicate OneFile(st: Store) {
    forall f: nat, i: nat, g: nat, k: nat ::
      Live(st, f, i) && Live(st, g, k) && st[f][i].pid == st[g][k].pid ==> f == g
  }

  ghost predicate LiveIsLowest(st: Store) {
    forall f: nat, i: nat, k: nat :: Live(st, f, i) && k < i ==> st[f][k].Key() != st[f][i].Key()
  }

  ghost predicate Lookable(st: Store) {
    OneFile(st) && LiveIsLowest(st)
  }

  // ----- the map

  ghost function Keys(st: Store): set<PageKey> {
    set f: nat, i: nat | f < |st| && i < |st[f]| && Live(st, f, i) :: st[f][i].Key()
  }

  ghost function ContentOf(st: Store, key: PageKey): Page
    requires key in Keys(st)
  {
    var f: nat, i: nat :| Live(st, f, i) && st[f][i].Key() == key;
    st[f][i].content
  }

  ghost function MapOf(st: Store): map<PageKey, Page> {
    map key | key in Keys(st) :: ContentOf(st, key)
  }

  lemma LiveUnique(st: Store, f: nat, i: nat, g: nat, k: nat)
    requires Lookable(st) && Live(st, f, i) && Live(st, g, k) && st[f][i].Key() == st[g][k].Key()
    ensures f == g && i == k
  {
    assert f == g;
  }

  lemma MapAt(st: Store, f: nat, i: nat)
    requires Lookable(st) && Live(st, f, i)
    ensures st[f][i].Key() in MapOf(st) && MapOf(st)[st[f][i].Key()] == st[f][i].content
  {
    var key := st[f][i].Key();
    assert key in Keys(st);
    var g: nat, k: nat :| Live(st, g, k) && st[g][k].Key() == key && ContentOf(st, key) == st[g][k].content;
    LiveUnique(st, f, i, g, k);
  }

  lemma MapHas(st: Store, key: PageKey) returns (f: nat, i: nat)
    requires key in MapOf(st)
    ensures Live(st, f, i) && st[f][i].Key() == key
  {
    var g: nat, k: nat :| Live(st, g, k) && st[g][k].Key() == key;
    f, i := g, k;
  }

  function Put(st: Store, f: nat, i: nat, s: Slot): Store
    requires At(st, f, i)
  {
    st[f := st[f][i := s]]
  }

  // Filling a slot that is not in use, or that has the same key, adds or replaces one page.
  lemma MapPut(st: Store, f: nat, i: nat, s: Slot)
    requires Lookable(st) && At(st, f, i) && s.used && Lookable(Put(st, f, i, s))
    requires st[f][i].used ==> st[f][i].Key() == s.Key()
    ensures MapOf(Put(st, f, i, s)) == MapOf(st)[s.Key() := s.content]
  {
    var t := Put(st, f, i, s);
    var m, n := MapOf(t), MapOf(st)[s.Key() := s.content];
    forall key | key in m ensures key in n && m[key] == n[key] {
      var g, k := MapHas(t, key);
      MapAt(t, g, k);
      if g != f || k != i {
        assert Live(st, g, k);
        MapAt(st, g, k);
        assert Live(t, f, i);
        if key == s.Key() {
          LiveUnique(t, g, k, f, i);
        }
      }
    }
    forall key | key in n ensures key in m {
      if key == s.Key() {
        assert Live(t, f, i);
        MapAt(t, f, i);
      } else {
        var g, k := MapHas(st, key);
        assert Live(t, g, k);
        MapAt(t, g, k);
      }
    }
    SameMap(m, n);
  }

  function Freed(s: Slot, blank: Page): Slot {
    s.(used := false, content := blank)
  }

  lemma FreeKeepsLookable(st: Store, f: nat, i: nat, blank: Page)
    requires Lookable(st) && At(st, f, i)
    ensures Lookable(Put(st, f, i, Freed(st[f][i], blank)))
  {
    var t := Put(st, f, i, Freed(st[f][i], blank));
    assert forall g: nat, k: nat :: Live(t, g, k) ==> Live(st, g, k) && t[g][k] == st[g][k];
    assert forall g: nat, k: nat :: At(t, g, k) ==> t[g][k].Key() == st[g][k].Key();
  }

  // A slot freed elsewhere keeps its page.
  lemma KeptByFree(st: Store, f: nat, i: nat, blank: Page, g: nat, k: nat)
    requires Lookable(st) && At(st, f, i) && Live(st, g, k) && !(g == f && k == i)
    ensures var t := Put(st, f, i, Freed(st[f][i], blank)); var key := st[g][k].Key();
      && key in MapOf(t) && MapOf(t)[key] == MapOf(st)[key] && key in MapOf(st)
      && (Live(st, f, i) ==> key != st[f][i].Key())
  {
    var t := Put(st, f, i, Freed(st[f][i], blank));
    FreeKeepsLookable(st, f, i, blank);
    assert Live(t, g, k);
    MapAt(st, g, k);
    MapAt(t, g, k);
    if Live(st, f, i) && st[g][k].Key() == st[f][i].Key() {
      LiveUnique(st, g, k, f, i);
    }
  }

  // Freeing a slot takes away its page, if it was in use.
  lemma MapFree(st: Store, f: nat, i: nat, blank: Page)
    requires Lookable(st) && At(st, f, i)
    ensures MapOf(Put(st, f, i, Freed(st[f][i], blank))) ==
            if st[f][i].used then MapOf(st) - {st[f][i].Key()} else MapOf(st)
  {
    var t := Put(st, f, i, Freed(st[f][i], blank));
    var m, n := MapOf(t), if st[f][i].used then MapOf(st) - {st[f][i].Key()} else MapOf(st);
    forall key | key in m ensures key in n && m[key] == n[key] {
      var g, k := MapHas(t, key);
      assert Live(st, g, k);
      KeptByFree(st, f, i, blank, g, k);
    }
    forall key | key in n ensures key in m {
      var g, k := MapHas(st, key);
      KeptByFree(st, f, i, blank, g, k);
    }
    SameMap(m, n);
  }

  // ----- what a lookup by key sees

  // The lowest slot of f, live or stale, that carries the key.
  ghost predicate LowestCarrier(f: File, i: nat, key: PageKey) {
    i < |f| && f[i].Key() == key && forall k :: 0 <= k < i ==> f[k].Key() != key
  }

  ghost predicate NoCarrier(f: File, key: PageKey) {
    forall k :: 0 <= k < |f| ==> f[k].Key() != key
  }

  /** A lookup that ignores whether slots are in use still finds the live slot of a stored key. */
  lemma LookupFindsLive(st: Store, f: nat, i: nat, g: nat, k: nat)
    requires Lookable(st) && Live(st, f, i) && Live(st, g, k) && st[g][k].pid == st[f][i].pid
    ensures g == f
    ensures LowestCarrier(st[g], i, st[f][i].Key())
  {
  }

  // A store that is lookable stays so when a key goes where no slot below it carries it.
  lemma PutKeepsLookable(st: Store, f: nat, i: nat, s: Slot)
    requires Lookable(st) && At(st, f, i) && s.used
    requires NoCarrier(st[f], s.Key()) || LowestCarrier(st[f], i, s.Key())
    requires forall g: nat, k: nat :: Live(st, g, k) && st[g][k].pid == s.pid ==> g == f
    ensures Lookable(Put(st, f, i, s))
  {
    var t := Put(st, f, i, s);
    forall g: nat, k: nat, h: nat, l: nat | Live(t, g, k) && Live(t, h, l) && t[g][k].pid == t[h][l].pid
      ensures g == h
    {
      assert (g == f && k == i) || Live(st, g, k);
      assert (h == f && l == i) || Live(st, h, l);
    }
    forall g: nat, k: nat, l: nat | Live(t, g, k) && l < k ensures t[g][l].Key() != t[g][k].Key() {
      if g == f && k == i {
      } else {
        assert Live(st, g, k);
        assert st[g][l].Key() != st[g][k].Key();
      }
    }
  }

  /**
   Saving a page into the slot a lookup picks updates exactly its key if and only
   if the slot is free or already holds that page.
   */
  lemma SaveIsUpdateIffSlotIsFree(st: Store, f: nat, i: nat, s: Slot)
    requires Lookable(st) && At(st, f, i) && s.used
    requires NoCarrier(st[f], s.Key()) || LowestCarrier(st[f], i, s.Key())
    requires forall g: nat, k: nat :: Live(st, g, k) && st[g][k].pid == s.pid ==> g == f
    ensures MapOf(Put(st, f, i, s)) == MapOf(st)[s.Key() := s.content] <==>
            (!st[f][i].used || st[f][i].Key() == s.Key())
  {
    PutKeepsLookable(st, f, i, s);
    if !st[f][i].used || st[f][i].Key() == s.Key() {
      MapPut(st, f, i, s);
    } else {
      var lost := st[f][i].Key();
      MapAt(st, f, i);
      if lost in MapOf(Put(st, f, i, s)) {
        var g, k := MapHas(Put(st, f, i, s), lost);
        LiveUnique(st, f, i, g, k);
      }
    }
  }

  function CountFree(f: File): (n: nat)
    ensures n <= |f|
  {
    if f == [] then 0
    else CountFree(f[..|f| - 1]) + if !f[|f| - 1].used then 1 else 0
  }

  lemma {:induction false} NoneFree(f: File)
    ensures CountFree(f) == 0 <==> forall k :: 0 <= k < |f| ==> f[k].used
    decreases |f|
  {
    if f != [] {
      NoneFree(f[..|f| - 1]);
      assert forall k :: 0 <= k < |f| - 1 ==> f[..|f| - 1][k] == f[k];
    }
  }

  ghost predicate PagesSized(st: Store, pageSize: nat) {
    forall f, i :: 0 <= f < |st| && 0 <= i < |st[f]| ==> |st[f][i].content| == pageSize
  }

  // ----- reading and destroying

  ghost predicate LivePid(st: Store, pid: nat) {
    exists f: nat, i: nat :: Live(st, f, i) && st[f][i].pid == pid
  }

  datatype Option<T> = None | Some(value: T)

  // The file the process's live pages are in carries the key, in use or not.
  ghost predicate Found(st: Store, pid: nat, page: nat) {
    exists f: nat, i: nat, k: nat :: Live(st, f, i) && st[f][i].pid == pid && At(st, f, k) && st[f][k].Key() == PageKey(pid, page)
  }

  // In the file of a live process, the lowest carrier of a stored key holds its page.
  lemma LookupReads(st: Store, f: nat, i: nat, index: nat, page: nat)
    requires Lookable(st) && Live(st, f, i) && LowestCarrier(st[f], index, PageKey(st[f][i].pid, page))
    ensures PageKey(st[f][i].pid, page) in MapOf(st) <==> st[f][index].used
    ensures st[f][index].used ==> MapOf(st)[PageKey(st[f][i].pid, page)] == st[f][index].content
  {
    if st[f][index].used {
      assert Live(st, f, index);
      MapAt(st, f, index);
    }
    if PageKey(st[f][i].pid, page) in MapOf(st) {
      var g, k := MapHas(st, PageKey(st[f][i].pid, page));
      LookupFindsLive(st, g, k, f, i);
    }
  }

  lemma NotCarriedNotStored(st: Store, f: nat, i: nat, page: nat)
    requires Lookable(st) && Live(st, f, i) && NoCarrier(st[f], PageKey(st[f][i].pid, page))
    ensures PageKey(st[f][i].pid, page) !in MapOf(st) && !Found(st, st[f][i].pid, page)
  {
    if PageKey(st[f][i].pid, page) in MapOf(st) {
      var g, k := MapHas(st, PageKey(st[f][i].pid, page));
      LookupFindsLive(st, g, k, f, i);
    }
  }

  lemma NotLiveNotStored(st: Store, pid: nat, page: nat)
    requires !LivePid(st, pid)
    ensures PageKey(pid, page) !in MapOf(st) && !Found(st, pid, page)
  {
    if PageKey(pid, page) in MapOf(st) {
      var f, i := MapHas(st, PageKey(pid, page));
    }
  }

  /** Destroying the page a lookup finds takes exactly its key out of the map, even if the slot was stale. */
  lemma DestroyIsRemoval(st: Store, f: nat, i: nat, index: nat, page: nat, blank: Page)
    requires Lookable(st) && Live(st, f, i) && LowestCarrier(st[f], index, PageKey(st[f][i].pid, page))
    ensures MapOf(Put(st, f, index, Freed(st[f][index], blank))) == MapOf(st) - {PageKey(st[f][i].pid, page)}
  {
    LookupReads(st, f, i, index, page);
    MapFree(st, f, index, blank);
  }

  lemma EmptyStore(st: Store)
    requires forall f: nat, i: nat :: !Live(st, f, i)
    ensures Lookable(st) && MapOf(st) == map[]
  {
    if key :| key in MapOf(st) {
      var f, i := MapHas(st, key);
    }
  }

  // ----- the map kept beside the slots

  ghost predicate Slotted(st: Store, key: PageKey) {
    exists f: nat, i: nat :: Live(st, f, i) && st[f][i].Key() == key
  }

  // m is the map of pages of the store, said so that a key of m by itself brings up no slot.
  ghost predicate Represents(m: map<PageKey, Page>, st: Store) {
    && (forall f: nat, i: nat {:trigger Live(st, f, i)} :: Live(st, f, i) ==>
          st[f][i].Key() in m && m[st[f][i].Key()] == st[f][i].content)
    && (forall key {:trigger Slotted(st, key)} :: key in m ==> Slotted(st, key))
  }

  /** The map kept beside the slots is the map the slots stand for. */
  lemma RepresentsIsMap(m: map<PageKey, Page>, st: Store)
    requires Lookable(st)
    ensures Represents(m, st) <==> m == MapOf(st)
  {
    if Represents(m, st) {
      forall key | key in m ensures key in MapOf(st) && m[key] == MapOf(st)[key] {
        assert Slotted(st, key);
        var f: nat, i: nat :| Live(st, f, i) && st[f][i].Key() == key;
        MapAt(st, f, i);
      }
      forall key | key in MapOf(st) ensures key in m {
        var f, i := MapHas(st, key);
      }
      SameMap(m, MapOf(st));
    }
    if m == MapOf(st) {
      forall f: nat, i: nat | Live(st, f, i) ensures st[f][i].Key() in m && m[st[f][i].Key()] == st[f][i].content {
        MapAt(st, f, i);
      }
      forall key | key in m ensures Slotted(st, key) {
        var f, i := MapHas(st, key);
      }
    }
  }
}
