/**
 Why the depth-first search for a circular wait may stop at a process it has seen.
 */
module CircularWait {
  import opened Matrices
  import opened WaitGraph
  import opened WaitFor

  // b is reached from i in n steps, each from a waiting process to a holder.
  ghost predicate HoldPath(s: Snapshot, i: nat, b: nat, n: nat)
    requires s.Valid()
    decreases n
  {
    if n == 0 then i == b else exists h: nat :: Waits(s, i, h, false) && HoldPath(s, h, b, n - 1)
  }

  ghost predicate HoldReach(s: Snapshot, i: nat, b: nat)
    requires s.Valid()
  {
    exists n: nat :: n >= 1 && HoldPath(s, i, b, n)
  }

  lemma HoldStep(s: Snapshot, i: nat, h: nat, b: nat)
    requires s.Valid() && Waits(s, i, h, false)
    requires h == b || HoldReach(s, h, b)
    ensures HoldReach(s, i, b)
  {
    if h == b {
      assert HoldPath(s, h, b, 0);
      assert HoldPath(s, i, b, 1);
    } else {
      var n: nat :| n >= 1 && HoldPath(s, h, b, n);
      assert HoldPath(s, i, b, n + 1);
    }
  }

  // Does the graph of requests lead from process i to process b?
  ghost predicate Leads(s: Snapshot, i: nat, b: nat)
    requires s.Valid() && i < |s.procs| && b < |s.procs|
  {
    Reach(GraphOf(s, false), s.procs[i], s.procs[b])
  }

  // Everything seen, except for i itself, waits for something seen; b was not seen.
  ghost predicate SeenClosed(s: Snapshot, seen: seq<int>, i: nat, b: nat)
    requires s.Valid() && i < |s.procs| && b < |s.procs|
  {
    && s.procs[b] !in seen
    && forall x | x in seen && x != s.procs[i] :: SeenEdge(GraphOf(s, false), seen, x)
  }

  ghost predicate SeenEdge(g: Graph, seen: seq<int>, x: int) {
    x in g && g[x] in seen
  }

  lemma LeadsVia(s: Snapshot, i: nat, h: nat, b: nat)
    requires Disciplined(s) && Waits(s, i, h, false) && b < |s.procs|
    ensures Leads(s, i, b) <==> h == b || Leads(s, h, b)
  {
    var g := GraphOf(s, false);
    GraphEdge(s, i, h, false);
    ReachStep(g, s.procs[i]);
    if Leads(s, i, b) {
      var n: nat :| n >= 1 && Path(g, s.procs[i], s.procs[b], n);
      assert Path(g, s.procs[h], s.procs[b], n - 1);
    }
    if Leads(s, h, b) {
      ReachTrans(g, s.procs[i], s.procs[h], s.procs[b]);
    }
  }

  lemma NoEdgeNoLead(s: Snapshot, i: nat, b: nat)
    requires Disciplined(s) && i < |s.procs| && b < |s.procs|
    requires forall h: nat :: !Waits(s, i, h, false)
    ensures !Leads(s, i, b)
  {
    if Leads(s, i, b) {
      var n: nat :| n >= 1 && Path(GraphOf(s, false), s.procs[i], s.procs[b], n);
      var a, h := GraphNode(s, s.procs[i], false);
    }
  }

  lemma SeenSetClosed(s: Snapshot, seen: seq<int>, i: nat, h: nat, b: nat)
    requires Disciplined(s) && b < |s.procs| && Waits(s, i, h, false)
    requires SeenClosed(s, seen, i, b) && s.procs[h] in seen
    ensures Closed(GraphOf(s, false), set x | x in seen)
  {
    GraphEdge(s, i, h, false);
    forall x | x in seen ensures SeenEdge(GraphOf(s, false), seen, x) {
    }
  }

  lemma ReachClosed(g: Graph, d: set<int>, x: int, y: int)
    requires Closed(g, d) && x in d && Reach(g, x, y)
    ensures y in d
  {
    var n: nat :| n >= 1 && Path(g, x, y, n);
    PathClosed(g, d, x, y, n);
  }

  /** A walk that comes back to what it has seen never gets to b. */
  lemma SeenIsDeadEnd(s: Snapshot, seen: seq<int>, i: nat, h: nat, b: nat)
    requires Disciplined(s) && b < |s.procs| && Waits(s, i, h, false)
    requires SeenClosed(s, seen, i, b) && s.procs[h] in seen
    ensures !Leads(s, i, b)
  {
    SeenSetClosed(s, seen, i, h, b);
    LeadsVia(s, i, h, b);
    if Leads(s, h, b) {
      ReachClosed(GraphOf(s, false), (set x | x in seen), s.procs[h], s.procs[b]);
    }
  }

  lemma SeenGrows(s: Snapshot, seen: seq<int>, i: nat, h: nat, b: nat)
    requires Disciplined(s) && b < |s.procs| && Waits(s, i, h, false) && h != b
    requires SeenClosed(s, seen, i, b)
    ensures SeenClosed(s, seen + [s.procs[h]], h, b)
  {
    var g, more := GraphOf(s, false), seen + [s.procs[h]];
    GraphEdge(s, i, h, false);
    forall x | x in more && x != s.procs[h] ensures SeenEdge(g, more, x) {
      if x != s.procs[i] {
        assert SeenEdge(g, seen, x);
      }
    }
  }

  // Processes the search has not seen yet.
  ghost function Unseen(procs: seq<int>, seen: seq<int>): nat {
    if procs == [] then 0 else (if procs[0] in seen then 0 else 1) + Unseen(procs[1..], seen)
  }

  lemma {:induction false} UnseenDrops(procs: seq<int>, seen: seq<int>, more: seq<int>)
    requires forall p :: p in seen ==> p in more
    ensures Unseen(procs, more) <= Unseen(procs, seen)
    ensures (exists p :: p in procs && p in more && p !in seen) ==> Unseen(procs, more) < Unseen(procs, seen)
  {
    if procs != [] {
      UnseenDrops(procs[1..], seen, more);
      assert forall p :: p in procs <==> p == procs[0] || p in procs[1..];
    }
  }

  // Where a search under the discipline stands after the cells before (j, next): either it has met no
  // edge out of i, or it has met the only one, through (hit.1, hit.0), and found is the answer.
  datatype Hit = NoHit | HitAt(h: nat, j: nat)

  ghost predicate Before(k: nat, h: nat, j: nat, next: nat) {
    k < j || (k == j && h < next)
  }

  ghost predicate Scanned(s: Snapshot, i: nat, base: nat, hit: Hit, found: bool, j: nat, next: nat)
    requires s.Valid() && i < |s.procs| && base < |s.procs|
  {
    match hit
    case NoHit => !found && forall k: nat, h: nat :: WaitsThrough(s, i, h, k, false) ==> !Before(k, h, j, next)
    case HitAt(h, k) => WaitsThrough(s, i, h, k, false) && Before(k, h, j, next) && (found <==> Leads(s, i, base))
  }

  // The cells from (j, next) to before (j', next') hold no edge out of i.
  lemma ScanOn(s: Snapshot, i: nat, base: nat, hit: Hit, found: bool, j: nat, next: nat, j': nat, next': nat)
    requires s.Valid() && i < |s.procs| && base < |s.procs| && Scanned(s, i, base, hit, found, j, next)
    requires forall k: nat, h: nat :: !Before(k, h, j, next) && Before(k, h, j', next') ==> !WaitsThrough(s, i, h, k, false)
    requires forall k: nat, h: nat :: Before(k, h, j, next) ==> Before(k, h, j', next')
    ensures Scanned(s, i, base, hit, found, j', next')
  {
  }

  // The first edge the search meets is the only one.
  lemma ScanMeets(s: Snapshot, i: nat, base: nat, hit: Hit, found: bool, j: nat, next: nat)
    requires Disciplined(s) && i < |s.procs| && base < |s.procs| && Scanned(s, i, base, hit, found, j, next)
    requires WaitsThrough(s, i, next, j, false)
    ensures hit == NoHit && !found
  {
  }

  lemma ScanEnd(s: Snapshot, i: nat, base: nat, hit: Hit, found: bool)
    requires Disciplined(s) && i < |s.procs| && base < |s.procs|
    requires Scanned(s, i, base, hit, found, |s.available|, 0)
    ensures found <==> Leads(s, i, base)
  {
    if hit == NoHit {
      forall h: nat ensures !Waits(s, i, h, false) {
        forall k: nat ensures !WaitsThrough(s, i, h, k, false) {
          assert k < |s.available| ==> Before(k, h, |s.available|, 0);
        }
      }
      NoEdgeNoLead(s, i, base);
    }
  }

  /** For a deadlocked process, the search from itself to itself decides whether it is on a cycle. */
  lemma LeadsToItself(s: Snapshot, i: nat)
    requires Disciplined(s) && Deadlocked(s, i)
    ensures Leads(s, i, i) <==> OnCycle(WaitGraphOf(s), s.procs[i])
  {
    LooseCycleIsStrict(s, i);
  }

  lemma OnlyDeadlockedOnCycle(s: Snapshot, i: nat)
    requires Disciplined(s) && i < |s.procs| && !Deadlocked(s, i)
    ensures !OnCycle(WaitGraphOf(s), s.procs[i])
  {
    if OnCycle(WaitGraphOf(s), s.procs[i]) {
      CycleIsDeadlocked(s, i);
    }
  }

  ghost predicate IsOnCycle(s: Snapshot, i: nat)
    requires s.Valid() && i < |s.procs|
  {
    OnCycle(WaitGraphOf(s), s.procs[i])
  }

  // The candidates found among the first n processes; exact says that none is missing.
  ghost predicate Candidates(s: Snapshot, found: seq<nat>, n: nat, exact: bool)
    requires s.Valid() && n <= |s.procs|
  {
    && (forall i :: i in found ==> i < n && Deadlocked(s, i) && HoldReach(s, i, i))
    && (exact ==> forall i: nat :: i < n ==> (i in found <==> IsOnCycle(s, i)))
  }

  lemma MoreCandidates(s: Snapshot, found: seq<nat>, i: nat, circular: bool, exact: bool)
    requires s.Valid() && i < |s.procs| && Candidates(s, found, i, exact)
    requires circular ==> Deadlocked(s, i) && HoldReach(s, i, i)
    requires exact ==> (circular <==> IsOnCycle(s, i))
    ensures Candidates(s, if circular then found + [i] else found, i + 1, exact)
  {
  }

  // Cycles are made of processes, so the candidates are everybody on a cycle.
  lemma CandidatesAreAll(s: Snapshot, found: seq<nat>)
    requires Disciplined(s) && Candidates(s, found, |s.procs|, true)
    ensures forall i: nat :: i in found ==> OnCycle(WaitGraphOf(s), s.procs[i])
    ensures forall p :: OnCycle(WaitGraphOf(s), p) ==> exists i: nat :: i in found && s.procs[i] == p
  {
    forall i: nat | i in found ensures OnCycle(WaitGraphOf(s), s.procs[i]) {
      assert IsOnCycle(s, i);
    }
    forall p | OnCycle(WaitGraphOf(s), p) ensures exists i: nat :: i in found && s.procs[i] == p {
      var i := OnCycleIsProcess(s, p);
      assert IsOnCycle(s, i);
    }
  }
}
