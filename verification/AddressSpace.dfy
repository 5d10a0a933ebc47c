/**
 The flat address space of a process: its pages one after the other.
 */
module AddressSpace {
  import opened Arith
  import opened Bytes
  import opened Maps
  import opened SwapModel
  import opened Policies
  import opened FrameTable
  import opened VirtualMemory

  ghost function FlatUpTo(vm: Vm, pid: nat, n: nat): seq<byte>
    decreases n
  {
    if n == 0 then [] else FlatUpTo(vm, pid, n - 1) + PageOf(vm, PageKey(pid, n - 1))
  }

  ghost function Flat(vm: Vm, pid: nat): seq<byte>
    requires pid in vm.tables
  {
    FlatUpTo(vm, pid, |vm.tables[pid]|)
  }

  lemma PageSized(vm: Vm, key: PageKey, pageSize: nat)
    requires Inv(vm, pageSize) && HasPage(vm, key)
    ensures |PageOf(vm, key)| == pageSize
  {
    assert key in vm.swap;
  }

  ghost predicate FullPages(vm: Vm, pid: nat, n: nat, pageSize: nat) {
    forall p {:trigger PageOf(vm, PageKey(pid, p))} :: 0 <= p < n ==> |PageOf(vm, PageKey(pid, p))| == pageSize
  }

  lemma PagesAreFull(vm: Vm, pid: nat, pageSize: nat)
    requires Inv(vm, pageSize) && pid in vm.tables
    ensures FullPages(vm, pid, |vm.tables[pid]|, pageSize)
  {
    forall p | 0 <= p < |vm.tables[pid]| ensures |PageOf(vm, PageKey(pid, p))| == pageSize {
      PageSized(vm, PageKey(pid, p), pageSize);
    }
  }

  // Where page p begins.
  function PageStart(p: nat, pageSize: nat): nat
    decreases p
  {
    if p == 0 then 0 else PageStart(p - 1, pageSize) + pageSize
  }

  lemma {:induction false} PageStartIsProduct(p: nat, pageSize: nat)
    ensures PageStart(p, pageSize) == p * pageSize
    decreases p
  {
    if p > 0 {
      PageStartIsProduct(p - 1, pageSize);
      assert p * pageSize == (p - 1) * pageSize + pageSize;
    }
  }

  lemma {:induction false} PageStartMono(p: nat, q: nat, pageSize: nat)
    requires p < q
    ensures PageStart(p, pageSize) + pageSize <= PageStart(q, pageSize)
    decreases q
  {
    if p < q - 1 {
      PageStartMono(p, q - 1, pageSize);
    }
  }

  lemma PageStartOrder(p: nat, q: nat, pageSize: nat)
    ensures p <= q ==> PageStart(p, pageSize) <= PageStart(q, pageSize)
  {
    if p < q {
      PageStartMono(p, q, pageSize);
    }
  }

  lemma {:induction false} PageStartAdds(p: nat, q: nat, pageSize: nat)
    ensures PageStart(p + q, pageSize) == PageStart(p, pageSize) + PageStart(q, pageSize)
    decreases q
  {
    if q > 0 {
      PageStartAdds(p, q - 1, pageSize);
    }
  }

  // The address is on page p.
  predicate OnPage(addr: nat, p: int, pageSize: nat) {
    0 <= p && PageStart(p, pageSize) <= addr < PageStart(p, pageSize) + pageSize
  }

  lemma OnPageIsQuotient(addr: nat, p: nat, pageSize: nat)
    requires pageSize > 0
    ensures OnPage(addr, p, pageSize) <==> p == addr / pageSize
  {
    PageStartIsProduct(p, pageSize);
    DivMod(addr, pageSize);
    if OnPage(addr, p, pageSize) {
      DivUnique(p, addr - p * pageSize, addr / pageSize, addr % pageSize, pageSize);
    }
  }

  lemma {:induction false} FlatLength(vm: Vm, pid: nat, n: nat, pageSize: nat)
    requires FullPages(vm, pid, n, pageSize)
    ensures |FlatUpTo(vm, pid, n)| == PageStart(n, pageSize)
    decreases n
  {
    if n > 0 {
      FlatLength(vm, pid, n - 1, pageSize);
    }
  }

  // The piece of length size at position at of s.
  ghost predicate Piece(s: seq<byte>, at: int, page: Page) {
    0 <= at && at + |page| <= |s| && s[at..at + |page|] == page
  }

  lemma PieceLeft(a: seq<byte>, b: seq<byte>, at: int, page: Page)
    requires Piece(a, at, page)
    ensures Piece(a + b, at, page)
  {
  }

  // Page p of a process is the p-th piece of its address space.
  lemma {:induction false} FlatPiece(vm: Vm, pid: nat, n: nat, p: nat, pageSize: nat)
    requires FullPages(vm, pid, n, pageSize) && p < n
    ensures Piece(FlatUpTo(vm, pid, n), PageStart(p, pageSize), PageOf(vm, PageKey(pid, p)))
    decreases n
  {
    FlatLength(vm, pid, n - 1, pageSize);
    var a, b := FlatUpTo(vm, pid, n - 1), PageOf(vm, PageKey(pid, n - 1));
    if p < n - 1 {
      FlatPiece(vm, pid, n - 1, p, pageSize);
      PieceLeft(a, b, PageStart(p, pageSize), PageOf(vm, PageKey(pid, p)));
    }
  }

  lemma {:induction false} FlatSameUpTo(vm: Vm, to: Vm, pid: nat, n: nat)
    requires forall p :: 0 <= p < n ==> PageOf(to, PageKey(pid, p)) == PageOf(vm, PageKey(pid, p))
    ensures FlatUpTo(to, pid, n) == FlatUpTo(vm, pid, n)
    decreases n
  {
    if n > 0 {
      FlatSameUpTo(vm, to, pid, n - 1);
    }
  }

  // What one process does to memory leaves every other process's pages alone.
  ghost predicate SameBut(vm: Vm, to: Vm, pid: nat) {
    && to.tables.Keys == vm.tables.Keys
    && (forall key: PageKey :: key.pid != pid ==> (HasPage(vm, key) <==> HasPage(to, key)))
    && (forall key: PageKey :: key.pid != pid && HasPage(vm, key) ==> PageOf(to, key) == PageOf(vm, key))
  }

  /** Moving pages around does not change any address space. */
  lemma FlatSame(vm: Vm, to: Vm, pid: nat)
    requires SamePages(vm, to) && pid in vm.tables
    ensures pid in to.tables && Flat(to, pid) == Flat(vm, pid)
  {
    SameLength(vm, to, pid);
    forall p | 0 <= p < |vm.tables[pid]| ensures PageOf(to, PageKey(pid, p)) == PageOf(vm, PageKey(pid, p)) {
      assert HasPage(vm, PageKey(pid, p));
    }
    FlatSameUpTo(vm, to, pid, |vm.tables[pid]|);
  }

  /** What one process does leaves every other address space alone. */
  lemma FlatOther(vm: Vm, to: Vm, pid: nat, q: nat)
    requires SameBut(vm, to, pid) && q in vm.tables && q != pid
    ensures q in to.tables && Flat(to, q) == Flat(vm, q)
  {
    SameLength(vm, to, q);
    forall p | 0 <= p < |vm.tables[q]| ensures PageOf(to, PageKey(q, p)) == PageOf(vm, PageKey(q, p)) {
      assert HasPage(vm, PageKey(q, p));
    }
    FlatSameUpTo(vm, to, q, |vm.tables[q]|);
  }

  // ----- writing within a page

  // t is s with data written at position at.
  ghost predicate Spliced(s: seq<byte>, t: seq<byte>, at: int, data: seq<byte>) {
    0 <= at && at + |data| <= |s| && t == Splice(s, at, data)
  }

  lemma SplicedLeft(a: seq<byte>, t: seq<byte>, b: seq<byte>, at: nat, data: seq<byte>)
    requires Spliced(a, t, at, data)
    ensures Spliced(a + b, t + b, at, data)
  {
  }

  lemma SplicedRight(a: seq<byte>, b: seq<byte>, t: seq<byte>, at: nat, data: seq<byte>, there: nat)
    requires Spliced(b, t, at, data) && there == |a| + at
    ensures Spliced(a + b, a + t, there, data)
  {
  }

  // The address of an offset in a page.
  function AddrOf(p: nat, offset: nat, pageSize: nat): nat {
    PageStart(p, pageSize) + offset
  }

  // What is known of one page when another is written.
  ghost predicate SameAt(vm: Vm, to: Vm, pid: nat, p: nat) {
    PageOf(to, PageKey(pid, p)) == PageOf(vm, PageKey(pid, p))
  }

  lemma FlatSnoc(vm: Vm, pid: nat, n: nat)
    ensures FlatUpTo(vm, pid, n + 1) == FlatUpTo(vm, pid, n) + PageOf(vm, PageKey(pid, n))
  {
  }

  lemma FlatWriteHere(vm: Vm, to: Vm, pid: nat, p: nat, offset: nat, data: seq<byte>, pageSize: nat)
    requires FullPages(vm, pid, p, pageSize)
    requires forall k: nat {:trigger SameAt(vm, to, pid, k)} :: k < p ==> SameAt(vm, to, pid, k)
    requires Spliced(PageOf(vm, PageKey(pid, p)), PageOf(to, PageKey(pid, p)), offset, data)
    ensures Spliced(FlatUpTo(vm, pid, p + 1), FlatUpTo(to, pid, p + 1), AddrOf(p, offset, pageSize), data)
  {
    forall k | 0 <= k < p ensures PageOf(to, PageKey(pid, k)) == PageOf(vm, PageKey(pid, k)) {
      assert SameAt(vm, to, pid, k);
    }
    FlatSameUpTo(vm, to, pid, p);
    FlatLength(vm, pid, p, pageSize);
    SplicedRight(FlatUpTo(vm, pid, p), PageOf(vm, PageKey(pid, p)), PageOf(to, PageKey(pid, p)), offset, data,
                 AddrOf(p, offset, pageSize));
    FlatSnoc(vm, pid, p);
    FlatSnoc(to, pid, p);
  }

  lemma {:induction false} FlatWrite(vm: Vm, to: Vm, pid: nat, n: nat, p: nat, offset: nat, data: seq<byte>, pageSize: nat)
    requires FullPages(vm, pid, n, pageSize) && p < n
    requires forall k: nat {:trigger SameAt(vm, to, pid, k)} :: k < n && k != p ==> SameAt(vm, to, pid, k)
    requires Spliced(PageOf(vm, PageKey(pid, p)), PageOf(to, PageKey(pid, p)), offset, data)
    ensures Spliced(FlatUpTo(vm, pid, n), FlatUpTo(to, pid, n), AddrOf(p, offset, pageSize), data)
    decreases n
  {
    if p == n - 1 {
      FlatWriteHere(vm, to, pid, p, offset, data, pageSize);
    } else {
      FlatWrite(vm, to, pid, n - 1, p, offset, data, pageSize);
      assert SameAt(vm, to, pid, n - 1);
      SplicedLeft(FlatUpTo(vm, pid, n - 1), FlatUpTo(to, pid, n - 1), PageOf(vm, PageKey(pid, n - 1)),
                  AddrOf(p, offset, pageSize), data);
      FlatSnoc(vm, pid, n - 1);
      FlatSnoc(to, pid, n - 1);
    }
  }

  /** Writing a resident page is a write to the address space of its process, and to nothing else. */
  lemma WriteSplices(vm: Vm, f: nat, key: PageKey, offset: nat, data: seq<byte>, pageSize: nat)
    requires Inv(vm, pageSize) && f < |vm.frames| && Resident(vm, key, f) && offset + |data| <= pageSize
    ensures |vm.ram[f]| == pageSize
    ensures var to := Written(vm, f, Splice(vm.ram[f], offset, data));
      && Inv(to, pageSize) && SameBut(vm, to, key.pid) && to.tables == vm.tables
      && Spliced(Flat(vm, key.pid), Flat(to, key.pid), AddrOf(key.page, offset, pageSize), data)
  {
    var content := Splice(vm.ram[f], offset, data);
    var to := Written(vm, f, content);
    WriteIsVisible(vm, f, key, content, pageSize);
    assert PageOf(vm, key) == vm.ram[f];
    forall k: nat | k < |vm.tables[key.pid]| && k != key.page ensures SameAt(vm, to, key.pid, k) {
      assert HasPage(vm, PageKey(key.pid, k));
    }
    PagesAreFull(vm, key.pid, pageSize);
    FlatWrite(vm, to, key.pid, |vm.tables[key.pid]|, key.page, offset, data, pageSize);
    forall k: PageKey | k.pid != key.pid && HasPage(vm, k) ensures PageOf(to, k) == PageOf(vm, k) {
    }
    forall k ensures HasPage(vm, k) <==> HasPage(to, k) {
    }
  }

  // Part of a resident page is the same part of the address space.
  lemma ReadsPiece(vm: Vm, f: nat, key: PageKey, offset: nat, size: nat, pageSize: nat)
    requires Inv(vm, pageSize) && f < |vm.frames| && Resident(vm, key, f) && offset + size <= pageSize
    ensures |vm.ram[f]| == pageSize && AddrOf(key.page, offset, pageSize) + size <= |Flat(vm, key.pid)|
    ensures vm.ram[f][offset..offset + size] ==
      Flat(vm, key.pid)[AddrOf(key.page, offset, pageSize)..AddrOf(key.page, offset, pageSize) + size]
  {
    assert PageOf(vm, key) == vm.ram[f];
    PagesAreFull(vm, key.pid, pageSize);
    FlatPiece(vm, key.pid, |vm.tables[key.pid]|, key.page, pageSize);
    PieceOfPiece(Flat(vm, key.pid), PageStart(key.page, pageSize), vm.ram[f], offset, size);
  }

  lemma PieceOfPiece(s: seq<byte>, at: nat, page: Page, offset: nat, size: nat)
    requires Piece(s, at, page) && offset + size <= |page|
    ensures at + offset + size <= |s| && page[offset..offset + size] == s[at + offset..at + offset + size]
  {
    SliceOfSlice(s, at, at + |page|, offset, size);
  }

  // ----- every address space

  ghost function Spaces(vm: Vm): map<nat, seq<byte>> {
    map pid | pid in vm.tables :: Flat(vm, pid)
  }

  lemma SpacesSame(vm: Vm, to: Vm)
    requires SamePages(vm, to)
    ensures Spaces(to) == Spaces(vm)
  {
    forall pid | pid in vm.tables ensures Flat(to, pid) == Flat(vm, pid) {
      FlatSame(vm, to, pid);
    }
    SameMap(Spaces(to), Spaces(vm));
  }

  lemma SpacesButOne(vm: Vm, to: Vm, pid: nat)
    requires SameBut(vm, to, pid) && pid in vm.tables
    ensures Spaces(to) == Spaces(vm)[pid := Flat(to, pid)]
  {
    forall q | q in vm.tables && q != pid ensures Flat(to, q) == Flat(vm, q) {
      FlatOther(vm, to, pid, q);
    }
    SameMap(Spaces(to), Spaces(vm)[pid := Flat(to, pid)]);
  }

  // ----- consecutive pieces

  lemma SplicedOnwards(s: seq<byte>, t: seq<byte>, r: seq<byte>, at: nat, data: seq<byte>, done: nat, more: nat)
    requires done + more <= |data| && Spliced(s, t, at, data[..done])
    requires Spliced(t, r, at + done, data[done..done + more])
    ensures Spliced(s, r, at, data[..done + more])
  {
  }

  lemma SpaceLength(vm: Vm, pid: nat, pageSize: nat)
    requires Inv(vm, pageSize) && pid in vm.tables
    ensures pid in Spaces(vm) && |Spaces(vm)[pid]| == PageStart(|vm.tables[pid]|, pageSize)
  {
    PagesAreFull(vm, pid, pageSize);
    FlatLength(vm, pid, |vm.tables[pid]|, pageSize);
  }

  /** Writing a resident page changes one stretch of one address space. */
  lemma WriteIsSplice(vm: Vm, f: nat, key: PageKey, offset: nat, data: seq<byte>, pageSize: nat)
    requires Inv(vm, pageSize) && f < |vm.frames| && Resident(vm, key, f) && offset + |data| <= pageSize
    ensures |vm.ram[f]| == pageSize
    ensures var to := Written(vm, f, Splice(vm.ram[f], offset, data));
      && Inv(to, pageSize)
      && WrittenTo(Spaces(vm), Spaces(to), key.pid, AddrOf(key.page, offset, pageSize), data)
  {
    WriteSplices(vm, f, key, offset, data, pageSize);
    SpacesButOne(vm, Written(vm, f, Splice(vm.ram[f], offset, data)), key.pid);
  }

  // data was written at address at of one address space.
  ghost predicate WrittenTo(seen: map<nat, seq<byte>>, after: map<nat, seq<byte>>, pid: nat, at: int, data: seq<byte>) {
    && pid in seen && pid in after && Spliced(seen[pid], after[pid], at, data)
    && after == seen[pid := after[pid]]
  }

  lemma WrittenOnwards(s: map<nat, seq<byte>>, t: map<nat, seq<byte>>, r: map<nat, seq<byte>>,
                       pid: nat, at: nat, data: seq<byte>, done: nat, more: nat)
    requires done + more <= |data| && WrittenTo(s, t, pid, at, data[..done])
    requires WrittenTo(t, r, pid, at + done, data[done..done + more])
    ensures WrittenTo(s, r, pid, at, data[..done + more])
  {
    SplicedOnwards(s[pid], t[pid], r[pid], at, data, done, more);
    assert r == s[pid := r[pid]];
  }
}
