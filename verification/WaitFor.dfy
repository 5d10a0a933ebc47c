/** From the detector's matrices to a wait-for graph. */
module WaitFor {
  import opened Matrices
  import opened WaitGraph

  // The resolver is exact when every process waits for at most one unit and every
  // semaphore is held by at most one process.  Under that discipline a deadlock is
  // either a cycle of the wait-for graph or a process that holds something while
  // it waits for a unit nobody can give back.

  ghost predicate SingleRequest(s: Snapshot)
    requires s.Valid()
  {
    && (forall i, j :: 0 <= i < |s.procs| && 0 <= j < |s.available| ==> s.request[i][j] <= 1)
    && (forall i, j, k | 0 <= i < |s.procs| && 0 <= j < |s.available| && 0 <= k < |s.available| ::
          s.request[i][j] != 0 && s.request[i][k] != 0 ==> j == k)
  }

  ghost predicate SingleHolder(s: Snapshot)
    requires s.Valid()
  {
    forall i, k, j | 0 <= i < |s.procs| && 0 <= k < |s.procs| && 0 <= j < |s.available| ::
      s.allocation[i][j] != 0 && s.allocation[k][j] != 0 ==> i == k
  }

  ghost predicate Disciplined(s: Snapshot) {
    s.Valid() && SingleRequest(s) && SingleHolder(s)
  }

  // Process i waits for a unit of j held by h; a strict wait finds none available.
  ghost predicate WaitsThrough(s: Snapshot, i: nat, h: nat, j: nat, strict: bool)
    requires s.Valid()
  {
    && i < |s.procs| && h < |s.procs| && j < |s.available|
    && s.request[i][j] != 0 && s.allocation[h][j] != 0
    && (strict ==> s.available[j] == 0)
  }

  ghost predicate Waits(s: Snapshot, i: nat, h: nat, strict: bool)
    requires s.Valid()
  {
    exists j :: WaitsThrough(s, i, h, j, strict)
  }

  ghost predicate PidWaits(s: Snapshot, p: int, q: int, strict: bool)
    requires s.Valid()
  {
    exists i: nat, h: nat :: Waits(s, i, h, strict) && s.procs[i] == p && s.procs[h] == q
  }

  ghost function Pids(s: Snapshot): set<int> {
    set p | p in s.procs
  }

  ghost function GraphOf(s: Snapshot, strict: bool): Graph
    requires s.Valid()
  {
    map p | p in Pids(s) && IsWaiting(s, p, strict) :: Target(s, p, strict)
  }

  ghost predicate IsWaiting(s: Snapshot, p: int, strict: bool)
    requires s.Valid()
  {
    exists q :: PidWaits(s, p, q, strict)
  }

  ghost function Target(s: Snapshot, p: int, strict: bool): (q: int)
    requires s.Valid() && IsWaiting(s, p, strict)
    ensures PidWaits(s, p, q, strict)
  {
    var q :| PidWaits(s, p, q, strict); q
  }

  // The graph a deadlock is about: strict waits only.
  ghost function WaitGraphOf(s: Snapshot): Graph
    requires s.Valid()
  {
    GraphOf(s, true)
  }

  // Process i holds something and waits for a unit that is neither available nor held.
  ghost predicate StuckOn(s: Snapshot, i: nat, j: nat)
    requires s.Valid()
  {
    && i < |s.procs| && j < |s.available| && Holds(s, i)
    && s.request[i][j] != 0 && s.available[j] == 0
    && forall h :: 0 <= h < |s.procs| ==> s.allocation[h][j] == 0
  }

  ghost predicate NoneStuck(s: Snapshot)
    requires s.Valid()
  {
    forall i, j :: !StuckOn(s, i, j)
  }

  // ----- the graph has exactly the edges of the matrices

  lemma WaitsUnique(s: Snapshot, i: nat, h: nat, k: nat, strict: bool)
    requires Disciplined(s) && Waits(s, i, h, strict) && Waits(s, i, k, strict)
    ensures h == k
  {
    var j :| WaitsThrough(s, i, h, j, strict);
    var l :| WaitsThrough(s, i, k, l, strict);
    assert j == l;
  }

  lemma PidWaitsIndex(s: Snapshot, i: nat, q: int, strict: bool) returns (h: nat)
    requires s.Valid() && i < |s.procs| && PidWaits(s, s.procs[i], q, strict)
    ensures Waits(s, i, h, strict) && s.procs[h] == q
  {
    var a: nat, b: nat :| Waits(s, a, b, strict) && s.procs[a] == s.procs[i] && s.procs[b] == q;
    assert a == i;
    h := b;
  }

  lemma GraphEdge(s: Snapshot, i: nat, h: nat, strict: bool)
    requires Disciplined(s) && i < |s.procs| && h < |s.procs|
    ensures Waits(s, i, h, strict) <==>
            s.procs[i] in GraphOf(s, strict) && GraphOf(s, strict)[s.procs[i]] == s.procs[h]
  {
    var p := s.procs[i];
    if Waits(s, i, h, strict) {
      assert PidWaits(s, p, s.procs[h], strict);
    }
    if p in GraphOf(s, strict) {
      var q := GraphOf(s, strict)[p];
      assert PidWaits(s, p, q, strict);
      var k := PidWaitsIndex(s, i, q, strict);
      if Waits(s, i, h, strict) {
        WaitsUnique(s, i, h, k, strict);
      }
    }
  }

  // A node of the graph is a process that waits for a process.
  lemma GraphNode(s: Snapshot, p: int, strict: bool) returns (i: nat, h: nat)
    requires Disciplined(s) && p in GraphOf(s, strict)
    ensures i < |s.procs| && s.procs[i] == p && Waits(s, i, h, strict) && s.procs[h] == GraphOf(s, strict)[p]
  {
    i :| i < |s.procs| && s.procs[i] == p;
    h := PidWaitsIndex(s, i, GraphOf(s, strict)[p], strict);
  }

  // ----- what never completes

  ghost predicate Untouched(s: Snapshot, order: seq<nat>, d: set<int>) {
    forall k :: 0 <= k < |order| && order[k] < |s.procs| ==> s.procs[order[k]] !in d
  }

  // A strict waiter cannot complete before the process that holds what it waits for.
  lemma BlockedUntilHolder(s: Snapshot, before: seq<nat>, i: nat, h: nat, j: nat)
    requires Disciplined(s) && WaitsThrough(s, i, h, j, true) && h !in before
    ensures !Satisfiable(s, Elems(before), i)
  {
    forall x | x in Elems(before) && x < |s.procs| ensures s.allocation[x][j] == 0 {
      assert x in before;
    }
    ReleasedNone(s, Elems(before), j, |s.procs|);
  }

  // Process i waits strictly for a process of d.
  ghost predicate WaitsInto(s: Snapshot, i: nat, d: set<int>)
    requires s.Valid()
  {
    exists h: nat, j: nat :: WaitsThrough(s, i, h, j, true) && s.procs[h] in d
  }

  ghost predicate ClosedWaits(s: Snapshot, d: set<int>)
    requires s.Valid()
  {
    forall i: nat {:trigger WaitsInto(s, i, d)} | i < |s.procs| && s.procs[i] in d :: WaitsInto(s, i, d)
  }

  lemma ClosedGraphWaits(s: Snapshot, d: set<int>)
    requires Disciplined(s) && Closed(WaitGraphOf(s), d)
    ensures ClosedWaits(s, d)
  {
    forall i: nat | i < |s.procs| && s.procs[i] in d ensures WaitsInto(s, i, d) {
      ClosedAt(WaitGraphOf(s), d, s.procs[i]);
      var a, h := GraphNode(s, s.procs[i], true);
      var j :| WaitsThrough(s, a, h, j, true);
    }
  }

  // No member of a closed set of strict waiters is ever completed.
  lemma {:induction false} ClosedNeverCompletes(s: Snapshot, d: set<int>, order: seq<nat>)
    requires Disciplined(s) && ClosedWaits(s, d) && Schedule(s, order)
    ensures Untouched(s, order, d)
    decreases |order|
  {
    if order != [] {
      var k := |order| - 1;
      SchedulePrefix(s, order, k);
      ClosedNeverCompletes(s, d, order[..k]);
      if s.procs[order[k]] in d {
        assert WaitsInto(s, order[k], d);
        var h: nat, j: nat :| WaitsThrough(s, order[k], h, j, true) && s.procs[h] in d;
        BlockedUntilHolder(s, order[..k], order[k], h, j);
      }
      assert forall x :: 0 <= x < k ==> order[x] == order[..k][x];
    }
  }

  lemma SchedulePrefix(s: Snapshot, order: seq<nat>, k: nat)
    requires s.Valid() && Schedule(s, order) && k <= |order|
    ensures Schedule(s, order[..k])
  {
    var before := order[..k];
    forall x | 0 <= x < k
      ensures before[x] < |s.procs| && before[x] !in before[..x] && Satisfiable(s, Elems(before[..x]), before[x])
    {
      assert before[..x] == order[..x];
      assert before[x] == order[x];
    }
  }

  // The nodes reached from a cycle node.
  ghost function Orbit(g: Graph, x: int): set<int> {
    set y | y in g && Reach(g, x, y)
  }

  lemma OrbitClosed(g: Graph, x: int)
    requires OnCycle(g, x)
    ensures Closed(g, Orbit(g, x)) && x in Orbit(g, x)
  {
    forall y | y in Orbit(g, x) ensures g[y] in Orbit(g, x) {
      ReachStep(g, y);
      ReachTrans(g, x, y, g[y]);
      CycleBack(g, x, g[y]);
    }
  }

  lemma CycleNeverCompletes(s: Snapshot, i: nat)
    requires Disciplined(s) && i < |s.procs| && OnCycle(WaitGraphOf(s), s.procs[i])
    ensures !Completes(s, i)
  {
    var d := Orbit(WaitGraphOf(s), s.procs[i]);
    OrbitClosed(WaitGraphOf(s), s.procs[i]);
    ClosedGraphWaits(s, d);
    forall order | Schedule(s, order) ensures i !in order {
      ClosedNeverCompletes(s, d, order);
    }
  }

  // The predecessor on the cycle waits for a unit that i holds.
  lemma CycleMemberHolds(s: Snapshot, i: nat)
    requires Disciplined(s) && i < |s.procs| && OnCycle(WaitGraphOf(s), s.procs[i])
    ensures Holds(s, i)
  {
    var y := CyclePredecessor(WaitGraphOf(s), s.procs[i]);
    var a, b := GraphNode(s, y, true);
    var j :| WaitsThrough(s, a, b, j, true);
    assert b == i;
  }

  /** Whoever is on a cycle of strict waits is deadlocked. */
  lemma CycleIsDeadlocked(s: Snapshot, i: nat)
    requires Disciplined(s) && i < |s.procs| && OnCycle(WaitGraphOf(s), s.procs[i])
    ensures Deadlocked(s, i)
  {
    CycleNeverCompletes(s, i);
    CycleMemberHolds(s, i);
  }

  lemma CyclePredecessor(g: Graph, x: int) returns (y: int)
    requires OnCycle(g, x)
    ensures y in g && g[y] == x
  {
    var n: nat :| n >= 1 && Path(g, x, x, n);
    y := LastStep(g, x, x, n);
  }

  lemma {:induction false} LastStep(g: Graph, x: int, z: int, n: nat) returns (y: int)
    requires n >= 1 && Path(g, x, z, n)
    ensures y in g && g[y] == z
    decreases n
  {
    if n == 1 {
      y := x;
    } else {
      y := LastStep(g, g[x], z, n - 1);
    }
  }

  lemma StuckIsDeadlocked(s: Snapshot, i: nat, j: nat)
    requires s.Valid() && StuckOn(s, i, j)
    ensures Deadlocked(s, i)
  {
    forall order | Schedule(s, order) ensures i !in order {
      if i in order {
        var k :| 0 <= k < |order| && order[k] == i;
        ReleasedNone(s, Elems(order[..k]), j, |s.procs|);
      }
    }
  }

  // ----- a schedule that cannot be prolonged

  lemma {:induction false} MaximalSchedule(s: Snapshot, order: seq<nat>) returns (full: seq<nat>)
    requires s.Valid() && Schedule(s, order)
    ensures Schedule(s, full)
    ensures forall i :: 0 <= i < |s.procs| && Satisfiable(s, Elems(full), i) ==> i in full
    decreases |s.procs| - |order|
  {
    if i: nat :| i < |s.procs| && i !in order && Satisfiable(s, Elems(order), i) {
      ScheduleSnoc(s, order, i);
      MissingOne(order, |s.procs|, i);
      full := MaximalSchedule(s, order + [i]);
    } else {
      full := order;
    }
  }

  // A deadlocked process waits strictly, and any holder of what it waits for is deadlocked too.
  lemma DeadlockedWaits(s: Snapshot, i: nat) returns (j: nat)
    requires Disciplined(s) && Deadlocked(s, i)
    ensures j < |s.available| && s.request[i][j] == 1 && s.available[j] == 0
    ensures forall h: nat :: h < |s.procs| && s.allocation[h][j] != 0 ==> Deadlocked(s, h)
  {
    assert Schedule(s, []);
    var full := MaximalSchedule(s, []);
    assert i !in full;
    j :| 0 <= j < |s.available| && s.request[i][j] > Work(s, Elems(full), j);
    ReleasedAtLeast(s, Elems(full), 0, j, |s.procs|);
    forall h: nat | h < |s.procs| && s.allocation[h][j] != 0 ensures Deadlocked(s, h) {
      ReleasedAtLeast(s, Elems(full), h, j, |s.procs|);
      assert h !in full;
      forall order | Schedule(s, order) ensures h !in order {
        FixpointIsComplete(s, Elems(full), order);
      }
    }
  }

  lemma DeadlockedStep(s: Snapshot, i: nat, h: nat, strict: bool)
    requires Disciplined(s) && Deadlocked(s, i) && Waits(s, i, h, strict)
    ensures Deadlocked(s, h) && Waits(s, i, h, true)
  {
    var j := DeadlockedWaits(s, i);
    var k :| WaitsThrough(s, i, h, k, strict);
    assert WaitsThrough(s, i, h, j, true);
  }

  ghost function DeadlockedPids(s: Snapshot): set<int>
    requires s.Valid()
  {
    set i: nat | i < |s.procs| && Deadlocked(s, i) :: s.procs[i]
  }

  /** For a deadlocked process, being on a cycle of requests and being on a cycle of strict waits is the same. */
  lemma LooseCycleIsStrict(s: Snapshot, i: nat)
    requires Disciplined(s) && Deadlocked(s, i)
    ensures OnCycle(GraphOf(s, false), s.procs[i]) <==> OnCycle(WaitGraphOf(s), s.procs[i])
  {
    var p := s.procs[i];
    var loose, g := GraphOf(s, false), WaitGraphOf(s);
    if OnCycle(g, p) {
      var n: nat :| n >= 1 && Path(g, p, p, n);
      forall x | x in g ensures x in loose && loose[x] == g[x] {
        var a, b := GraphNode(s, x, true);
        var j :| WaitsThrough(s, a, b, j, true);
        assert WaitsThrough(s, a, b, j, false);
        GraphEdge(s, a, b, false);
      }
      PathMono(g, loose, p, p, n);
    }
    if OnCycle(loose, p) {
      var n: nat :| n >= 1 && Path(loose, p, p, n);
      var d := DeadlockedPids(s);
      forall x | x in d && x in loose ensures loose[x] in d && x in g && g[x] == loose[x] {
        var k: nat :| k < |s.procs| && Deadlocked(s, k) && s.procs[k] == x;
        var h := LooseStepIsStrict(s, k);
      }
      PathWithin(loose, g, d, p, p, n);
    }
  }

  lemma LooseStepIsStrict(s: Snapshot, i: nat) returns (h: nat)
    requires Disciplined(s) && Deadlocked(s, i) && s.procs[i] in GraphOf(s, false)
    ensures Deadlocked(s, h) && GraphOf(s, false)[s.procs[i]] == s.procs[h]
    ensures s.procs[i] in WaitGraphOf(s) && WaitGraphOf(s)[s.procs[i]] == s.procs[h]
  {
    var a, b := GraphNode(s, s.procs[i], false);
    h := b;
    DeadlockedStep(s, i, h, false);
    GraphEdge(s, i, h, true);
  }

  lemma OnCycleIsProcess(s: Snapshot, x: int) returns (i: nat)
    requires Disciplined(s) && OnCycle(WaitGraphOf(s), x)
    ensures i < |s.procs| && s.procs[i] == x
  {
    var n: nat :| n >= 1 && Path(WaitGraphOf(s), x, x, n);
    var a, h := GraphNode(s, x, true);
    i := a;
  }

  // With no stuck process, a deadlocked one waits for a deadlocked one.
  lemma DeadlockedEdge(s: Snapshot, i: nat) returns (h: nat)
    requires Disciplined(s) && NoneStuck(s) && Deadlocked(s, i)
    ensures Deadlocked(s, h) && Waits(s, i, h, true)
  {
    var j := DeadlockedWaits(s, i);
    assert !StuckOn(s, i, j);
    h :| h < |s.procs| && s.allocation[h][j] != 0;
    assert WaitsThrough(s, i, h, j, true);
  }

  lemma DeadlockedClosed(s: Snapshot)
    requires Disciplined(s) && NoneStuck(s)
    ensures Closed(WaitGraphOf(s), DeadlockedPids(s))
  {
    var g, d := WaitGraphOf(s), DeadlockedPids(s);
    forall x | x in d ensures x in g && g[x] in d {
      var i: nat :| i < |s.procs| && Deadlocked(s, i) && s.procs[i] == x;
      var h := DeadlockedEdge(s, i);
      GraphEdge(s, i, h, true);
    }
  }

  /** A deadlock is a cycle of strict waits or a stuck process, and nothing else. */
  lemma DeadlockIffCycleOrStuck(s: Snapshot)
    requires Disciplined(s)
    ensures IsDeadlock(s) <==> !Acyclic(WaitGraphOf(s)) || !NoneStuck(s)
  {
    if x :| OnCycle(WaitGraphOf(s), x) {
      var i := OnCycleIsProcess(s, x);
      CycleIsDeadlocked(s, i);
    } else if i: nat, j: nat :| StuckOn(s, i, j) {
      StuckIsDeadlocked(s, i, j);
    } else if i: nat :| Deadlocked(s, i) {
      DeadlockedClosed(s);
      assert s.procs[i] in DeadlockedPids(s);
      var c := ClosedHasCycle(WaitGraphOf(s), DeadlockedPids(s));
    }
  }
}
