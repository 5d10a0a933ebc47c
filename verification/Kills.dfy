/** What killing processes does to a deadlock. */
module Kills {
  import opened Maps
  import opened Matrices
  import opened WaitGraph
  import opened WaitFor

  // A kill returns everything the victim holds and removes its row.  On the
  // wait-for graph it removes one node, so the resolver's behaviour reduces to the
  // graph facts of WaitGraph: it ends exactly when no process is stuck, it kills
  // one process per cycle, and no smaller set of kills would do.

  function DropAt<T>(xs: seq<T>, v: nat): (r: seq<T>)
    requires v < |xs|
    ensures |r| == |xs| - 1
    ensures forall k :: 0 <= k < |r| ==> r[k] == xs[if k < v then k else k + 1]
  {
    xs[..v] + xs[v + 1..]
  }

  function AddRow(a: seq<int>, b: seq<int>): (r: seq<int>)
    requires |a| == |b|
    ensures |r| == |a| && forall j :: 0 <= j < |a| ==> r[j] == a[j] + b[j]
  {
    seq(|a|, j requires 0 <= j < |a| => a[j] + b[j])
  }

  function SetCell(m: seq<seq<int>>, i: nat, j: nat, x: int): (r: seq<seq<int>>)
    requires i < |m| && j < |m[i]|
    ensures |r| == |m| && r[i] == m[i][j := x]
    ensures forall k :: 0 <= k < |m| && k != i ==> r[k] == m[k]
  {
    m[i := m[i][j := x]]
  }

  lemma SetCellAgain(m: seq<seq<int>>, i: nat, j: nat, x: int, y: int)
    requires i < |m| && j < |m[i]|
    ensures SetCell(m, i, j, m[i][j]) == m
    ensures SetCell(SetCell(m, i, j, x), i, j, y) == SetCell(m, i, j, y)
  {
    assert m[i][j := m[i][j]] == m[i];
    assert m[i][j := x][j := y] == m[i][j := y];
  }

  // What the victim's row, and the available units, look like after its first j columns are released.
  function Zeroed(row: seq<int>, j: nat): (r: seq<int>)
    ensures |r| == |row|
    ensures forall k :: 0 <= k < |row| ==> r[k] == if k < j then 0 else row[k]
  {
    seq(|row|, k requires 0 <= k < |row| => if k < j then 0 else row[k])
  }

  function Returned(a: seq<int>, row: seq<int>, j: nat): (r: seq<int>)
    requires |a| == |row|
    ensures |r| == |a|
    ensures forall k :: 0 <= k < |a| ==> r[k] == a[k] + if k < j then row[k] else 0
  {
    seq(|a|, k requires 0 <= k < |a| => a[k] + if k < j then row[k] else 0)
  }

  ghost function PartKill(s: Snapshot, v: nat, j: nat): Snapshot
    requires s.Valid() && v < |s.procs|
  {
    Snapshot(s.procs, Returned(s.available, s.allocation[v], j),
             s.allocation[v := Zeroed(s.allocation[v], j)], s.request[v := Zeroed(s.request[v], j)])
  }

  lemma PartKillStart(s: Snapshot, v: nat)
    requires s.Valid() && v < |s.procs|
    ensures PartKill(s, v, 0) == s
  {
    assert Zeroed(s.allocation[v], 0) == s.allocation[v];
    assert Zeroed(s.request[v], 0) == s.request[v];
    assert Returned(s.available, s.allocation[v], 0) == s.available;
  }

  lemma PartKillStep(s: Snapshot, v: nat, j: nat)
    requires s.Valid() && v < |s.procs| && j < |s.available|
    ensures var t := PartKill(s, v, j);
      && t.Valid() && t.allocation[v][j] == s.allocation[v][j] && t.request[v][j] == s.request[v][j]
      && PartKill(s, v, j + 1) ==
        Snapshot(s.procs, t.available[j := t.available[j] + s.allocation[v][j]],
                 SetCell(t.allocation, v, j, 0), SetCell(t.request, v, j, 0))
  {
    assert Zeroed(s.allocation[v], j + 1) == Zeroed(s.allocation[v], j)[j := 0];
    assert Zeroed(s.request[v], j + 1) == Zeroed(s.request[v], j)[j := 0];
  }

  lemma PartKillValid(s: Snapshot, v: nat, j: nat)
    requires s.Valid() && v < |s.procs|
    ensures PartKill(s, v, j).Valid()
  {
  }

  lemma PartKillEnd(s: Snapshot, v: nat)
    requires s.Valid() && v < |s.procs|
    ensures var t := PartKill(s, v, |s.available|);
      Kill(s, v) == Snapshot(DropAt(t.procs, v), t.available, DropAt(t.allocation, v), DropAt(t.request, v))
  {
    var t := PartKill(s, v, |s.available|);
    assert DropAt(t.allocation, v) == DropAt(s.allocation, v);
    assert DropAt(t.request, v) == DropAt(s.request, v);
    assert t.available == AddRow(s.available, s.allocation[v]);
  }

  ghost function Kill(s: Snapshot, v: nat): Snapshot
    requires s.Valid() && v < |s.procs|
  {
    Snapshot(DropAt(s.procs, v), AddRow(s.available, s.allocation[v]),
             DropAt(s.allocation, v), DropAt(s.request, v))
  }

  lemma KillKeepsValid(s: Snapshot, v: nat)
    requires s.Valid() && v < |s.procs|
    ensures Kill(s, v).Valid()
  {
  }

  lemma KillKeepsDiscipline(s: Snapshot, v: nat)
    requires Disciplined(s) && v < |s.procs|
    ensures Disciplined(Kill(s, v))
  {
    KillKeepsValid(s, v);
  }

  // Where row i goes when row v is removed.
  function Shift(v: nat, i: nat): nat {
    if i < v then i else if i == 0 then 0 else i - 1
  }

  lemma KillWaits(s: Snapshot, v: nat, i: nat, h: nat)
    requires Disciplined(s) && v < |s.procs| && i < |s.procs| && h < |s.procs| && i != v && h != v
    ensures Kill(s, v).Valid()
    ensures Waits(Kill(s, v), Shift(v, i), Shift(v, h), true) <==> Waits(s, i, h, true)
  {
    KillKeepsValid(s, v);
    var t, i', h' := Kill(s, v), Shift(v, i), Shift(v, h);
    assert t.request[i'] == s.request[i] && t.allocation[h'] == s.allocation[h];
    if Waits(s, i, h, true) {
      var j :| WaitsThrough(s, i, h, j, true);
      assert WaitsThrough(t, i', h', j, true);
    }
    if Waits(t, i', h', true) {
      var j :| WaitsThrough(t, i', h', j, true);
      assert WaitsThrough(s, i, h, j, true);
    }
  }

  // Nobody waits for the victim any more.
  lemma KillRow(s: Snapshot, v: nat, i': nat) returns (i: nat)
    requires s.Valid() && v < |s.procs| && i' < |s.procs| - 1
    ensures i < |s.procs| && i != v && Shift(v, i) == i' && Kill(s, v).procs[i'] == s.procs[i]
  {
    i := if i' < v then i' else i' + 1;
  }

  lemma KillGraphSub(s: Snapshot, v: nat, p: int)
    requires Disciplined(s) && v < |s.procs| && Disciplined(Kill(s, v))
    requires p in WaitGraphOf(Kill(s, v))
    ensures p in Remove(WaitGraphOf(s), s.procs[v])
    ensures WaitGraphOf(Kill(s, v))[p] == Remove(WaitGraphOf(s), s.procs[v])[p]
  {
    var i', h' := GraphNode(Kill(s, v), p, true);
    var i := KillRow(s, v, i');
    var h := KillRow(s, v, h');
    KillWaits(s, v, i, h);
    GraphEdge(s, i, h, true);
  }

  lemma KillGraphSuper(s: Snapshot, v: nat, i: nat, h: nat)
    requires Disciplined(s) && v < |s.procs| && Disciplined(Kill(s, v))
    requires i < |s.procs| && h < |s.procs| && i != v && h != v && Waits(s, i, h, true)
    ensures s.procs[i] in WaitGraphOf(Kill(s, v))
  {
    KillWaits(s, v, i, h);
    var i', h' := Shift(v, i), Shift(v, h);
    assert Kill(s, v).procs[i'] == s.procs[i];
    GraphEdge(Kill(s, v), i', h', true);
  }

  // Killing v leaves no edge but those of the graph without v ...
  lemma KillAddsNothing(s: Snapshot, v: nat)
    requires Disciplined(s) && v < |s.procs| && Disciplined(Kill(s, v))
    ensures forall p :: p in WaitGraphOf(Kill(s, v)) ==>
      && p in Remove(WaitGraphOf(s), s.procs[v])
      && WaitGraphOf(Kill(s, v))[p] == Remove(WaitGraphOf(s), s.procs[v])[p]
  {
    forall p | p in WaitGraphOf(Kill(s, v))
      ensures p in Remove(WaitGraphOf(s), s.procs[v])
      ensures WaitGraphOf(Kill(s, v))[p] == Remove(WaitGraphOf(s), s.procs[v])[p]
    {
      KillGraphSub(s, v, p);
    }
  }

  // ... and all of them.
  lemma KillLosesNothing(s: Snapshot, v: nat)
    requires Disciplined(s) && v < |s.procs| && Disciplined(Kill(s, v))
    ensures forall p :: p in Remove(WaitGraphOf(s), s.procs[v]) ==> p in WaitGraphOf(Kill(s, v))
  {
    forall p | p in Remove(WaitGraphOf(s), s.procs[v]) ensures p in WaitGraphOf(Kill(s, v)) {
      var i, h := GraphNode(s, p, true);
      KillGraphSuper(s, v, i, h);
    }
  }

  /** On the wait-for graph, a kill removes the victim and nothing else. */
  lemma KillIsRemove(s: Snapshot, v: nat)
    requires Disciplined(s) && v < |s.procs|
    ensures Disciplined(Kill(s, v))
    ensures WaitGraphOf(Kill(s, v)) == Remove(WaitGraphOf(s), s.procs[v])
  {
    KillKeepsDiscipline(s, v);
    KillAddsNothing(s, v);
    KillLosesNothing(s, v);
    SameMap(WaitGraphOf(Kill(s, v)), Remove(WaitGraphOf(s), s.procs[v]));
  }

  lemma KillStuck(s: Snapshot, v: nat, i: nat, j: nat)
    requires s.Valid() && v < |s.procs| && i < |s.procs| && i != v
    ensures Kill(s, v).Valid()
    ensures StuckOn(Kill(s, v), Shift(v, i), j) <==> StuckOn(s, i, j)
  {
    KillKeepsValid(s, v);
    var t, i' := Kill(s, v), Shift(v, i);
    assert t.request[i'] == s.request[i] && t.allocation[i'] == s.allocation[i];
    if Holds(s, i) {
      var l :| 0 <= l < |s.available| && s.allocation[i][l] != 0;
      assert t.allocation[i'][l] != 0;
    }
    if Holds(t, i') {
      var l :| 0 <= l < |s.available| && t.allocation[i'][l] != 0;
      assert s.allocation[i][l] != 0;
    }
    if StuckOn(t, i', j) {
      forall h | 0 <= h < |s.procs| ensures s.allocation[h][j] == 0 {
        if h != v {
          assert t.allocation[Shift(v, h)] == s.allocation[h];
        }
      }
    }
  }

  lemma KillNoneStuck(s: Snapshot, v: nat)
    requires s.Valid() && v < |s.procs| && NoneStuck(s)
    ensures Kill(s, v).Valid() && NoneStuck(Kill(s, v))
  {
    KillKeepsValid(s, v);
    forall i': nat, j: nat ensures !StuckOn(Kill(s, v), i', j) {
      if i' < |s.procs| - 1 {
        var i := KillRow(s, v, i');
        KillStuck(s, v, i, j);
        assert !StuckOn(s, i, j);
      }
    }
  }

  // ----- sequences of kills, by pid

  ghost function KillPid(s: Snapshot, p: int): (r: Snapshot)
    requires s.Valid()
    ensures r.Valid()
  {
    if i: nat :| i < |s.procs| && s.procs[i] == p then KillKeepsValid(s, i); Kill(s, i) else s
  }

  ghost function KillAll(s: Snapshot, ps: seq<int>): (r: Snapshot)
    requires s.Valid()
    ensures r.Valid()
    decreases ps
  {
    if ps == [] then s else KillAll(KillPid(s, ps[0]), ps[1..])
  }

  lemma KillPidIs(s: Snapshot, v: nat)
    requires s.Valid() && v < |s.procs|
    ensures KillPid(s, s.procs[v]) == Kill(s, v)
  {
  }

  lemma {:induction false} KillAllSnoc(s: Snapshot, ps: seq<int>, p: int)
    requires s.Valid()
    ensures KillAll(s, ps + [p]) == KillPid(KillAll(s, ps), p)
    decreases ps
  {
    if ps == [] {
      assert (ps + [p])[1..] == [];
    } else {
      KillAllSnoc(KillPid(s, ps[0]), ps[1..], p);
      assert (ps + [p])[1..] == ps[1..] + [p];
    }
  }

  // A pid that is no process of s is not in its graph.
  lemma NotInGraph(s: Snapshot, p: int)
    requires Disciplined(s) && p !in s.procs
    ensures Remove(WaitGraphOf(s), p) == WaitGraphOf(s)
  {
    var g := WaitGraphOf(s);
    forall x | x in g ensures x != p && g[x] != p {
      var i, h := GraphNode(s, x, true);
    }
  }

  lemma KillPidIsRemove(s: Snapshot, p: int)
    requires Disciplined(s)
    ensures Disciplined(KillPid(s, p))
    ensures WaitGraphOf(KillPid(s, p)) == Remove(WaitGraphOf(s), p)
    ensures NoneStuck(s) ==> NoneStuck(KillPid(s, p))
  {
    if v: nat :| v < |s.procs| && s.procs[v] == p {
      KillPidIs(s, v);
      KillIsRemove(s, v);
      if NoneStuck(s) {
        KillNoneStuck(s, v);
      }
    } else {
      NotInGraph(s, p);
    }
  }

  lemma {:induction false} KillAllIsRemoveAll(s: Snapshot, ps: seq<int>)
    requires Disciplined(s)
    ensures Disciplined(KillAll(s, ps))
    ensures WaitGraphOf(KillAll(s, ps)) == RemoveAll(WaitGraphOf(s), ps)
    ensures NoneStuck(s) ==> NoneStuck(KillAll(s, ps))
    decreases ps
  {
    if ps != [] {
      KillPidIsRemove(s, ps[0]);
      KillAllIsRemoveAll(KillPid(s, ps[0]), ps[1..]);
    }
  }

  /** The processes killed by a finished resolver: each on a cycle when killed, none deadlocked at the end. */
  ghost predicate Resolved(s: Snapshot, killed: seq<int>)
    requires s.Valid()
  {
    CycleKills(WaitGraphOf(s), killed) && !IsDeadlock(KillAll(s, killed))
  }

  /**
   A finished resolver has killed exactly one process of every cycle of the
   original wait-for graph, and nobody else.
   */
  lemma ResolverKillsOnePerCycle(s: Snapshot, killed: seq<int>)
    requires Disciplined(s) && Resolved(s, killed)
    ensures forall v :: v in killed ==> OnCycle(WaitGraphOf(s), v)
    ensures forall x :: OnCycle(WaitGraphOf(s), x) ==>
      exists i :: 0 <= i < |killed| && SameCycle(WaitGraphOf(s), x, killed[i])
    ensures forall i, j :: 0 <= i < j < |killed| ==> !SameCycle(WaitGraphOf(s), killed[i], killed[j])
  {
    KillAllIsRemoveAll(s, killed);
    DeadlockIffCycleOrStuck(KillAll(s, killed));
    OneKillPerCycle(WaitGraphOf(s), killed);
  }

  /** No set of kills that removes the deadlock is smaller than the resolver's. */
  lemma ResolverIsMinimal(s: Snapshot, killed: seq<int>, other: seq<int>)
    requires Disciplined(s) && Resolved(s, killed)
    requires !IsDeadlock(KillAll(s, other))
    ensures |killed| <= |other|
  {
    KillAllIsRemoveAll(s, other);
    DeadlockIffCycleOrStuck(KillAll(s, other));
    KillsAreMinimal(WaitGraphOf(s), killed, other);
  }

  lemma StuckNeverWaits(s: Snapshot, i: nat, j: nat, h: nat)
    requires Disciplined(s) && StuckOn(s, i, j)
    ensures !Waits(s, i, h, true)
  {
    forall l: nat ensures !WaitsThrough(s, i, h, l, true) {
      if l < |s.available| && s.request[i][l] != 0 {
        assert l == j;
      }
    }
  }

  lemma OnCycleWaits(s: Snapshot, v: nat) returns (h: nat)
    requires Disciplined(s) && v < |s.procs| && OnCycle(WaitGraphOf(s), s.procs[v])
    ensures Waits(s, v, h, true)
  {
    var n: nat :| n >= 1 && Path(WaitGraphOf(s), s.procs[v], s.procs[v], n);
    var a, b := GraphNode(s, s.procs[v], true);
    h := b;
  }

  // A process that is stuck is never the victim of a kill on a cycle, and stays stuck.
  lemma StuckSurvives(s: Snapshot, v: nat, i: nat, j: nat)
    requires Disciplined(s) && StuckOn(s, i, j) && v < |s.procs| && OnCycle(WaitGraphOf(s), s.procs[v])
    ensures Disciplined(Kill(s, v)) && i != v && StuckOn(Kill(s, v), Shift(v, i), j)
  {
    KillKeepsDiscipline(s, v);
    var h := OnCycleWaits(s, v);
    StuckNeverWaits(s, i, j, h);
    KillStuck(s, v, i, j);
  }

  lemma {:induction false} StuckForever(s: Snapshot, killed: seq<int>, i: nat, j: nat)
    requires Disciplined(s) && StuckOn(s, i, j) && CycleKills(WaitGraphOf(s), killed)
    ensures IsDeadlock(KillAll(s, killed))
    decreases killed
  {
    if killed == [] {
      StuckIsDeadlocked(s, i, j);
    } else {
      var v := OnCycleIsProcess(s, killed[0]);
      KillPidIs(s, v);
      KillIsRemove(s, v);
      StuckSurvives(s, v, i, j);
      StuckForever(Kill(s, v), killed[1..], Shift(v, i), j);
    }
  }

  /**
   Under the discipline, some sequence of kills on cycles ends the deadlock if
   and only if no process is stuck.  With a stuck process the resolver's loop
   reports a deadlock after every kill and never ends.
   */
  lemma ResolvableIffNoneStuck(s: Snapshot)
    requires Disciplined(s)
    ensures (exists killed :: Resolved(s, killed)) <==> NoneStuck(s)
  {
    if NoneStuck(s) {
      var killed := SomeKills(s);
    } else {
      var i: nat, j: nat :| StuckOn(s, i, j);
      forall killed | CycleKills(WaitGraphOf(s), killed) ensures !Resolved(s, killed) {
        StuckForever(s, killed, i, j);
      }
    }
  }

  lemma {:induction false} SomeKills(s: Snapshot) returns (killed: seq<int>)
    requires Disciplined(s) && NoneStuck(s)
    ensures Resolved(s, killed)
    decreases |s.procs|
  {
    DeadlockIffCycleOrStuck(s);
    if x :| OnCycle(WaitGraphOf(s), x) {
      var v := OnCycleIsProcess(s, x);
      KillPidIs(s, v);
      KillPidIsRemove(s, x);
      var rest := SomeKills(Kill(s, v));
      killed := [x] + rest;
      OneKillMore(s, x, rest);
    } else {
      killed := [];
    }
  }

  lemma OneKillMore(s: Snapshot, x: int, rest: seq<int>)
    requires Disciplined(s) && OnCycle(WaitGraphOf(s), x) && Resolved(KillPid(s, x), rest)
    ensures Resolved(s, [x] + rest)
  {
    var g, kills := WaitGraphOf(s), [x] + rest;
    KillPidIsRemove(s, x);
    assert kills[1..] == rest && kills[0] == x;
    assert CycleKills(g, kills);
    assert KillAll(s, kills) == KillAll(KillPid(s, x), rest);
  }

  /**
   The resolver's loop does not end on every disciplined state: process 7 holds
   semaphore 0 and waits on semaphore 1, whose only unit is gone.
   */
  lemma StuckExample()
    ensures exists s: Snapshot :: Disciplined(s) && IsDeadlock(s) && forall killed :: !Resolved(s, killed)
  {
    var s := Snapshot([7], [0, 0], [[1, 0]], [[0, 1]]);
    assert s.allocation[0][0] == 1 && s.allocation[0][1] == 0;
    assert Disciplined(s);
    assert StuckOn(s, 0, 1);
    StuckIsDeadlocked(s, 0, 1);
    ResolvableIffNoneStuck(s);
  }

  // ----- the mutex discipline

  /** Every semaphore has one unit, available or held. */
  ghost predicate OneUnitEach(s: Snapshot)
    requires s.Valid()
  {
    forall j :: 0 <= j < |s.available| ==> s.available[j] + Released(s, Below(|s.procs|), j, |s.procs|) == 1
  }

  lemma {:induction false} ReleasedTwo(s: Snapshot, all: set<nat>, i: nat, k: nat, j: nat, n: nat)
    requires s.Valid() && j < |s.available| && n <= |s.procs| && i < k < n && i in all && k in all
    ensures Released(s, all, j, n) >= s.allocation[i][j] + s.allocation[k][j]
    decreases n
  {
    if k == n - 1 {
      ReleasedAtLeast(s, all, i, j, n - 1);
    } else {
      ReleasedTwo(s, all, i, k, j, n - 1);
    }
  }

  /** Mutexes and one request per process are enough for the resolver to be exact and to end. */
  lemma MutexesAreDisciplined(s: Snapshot)
    requires s.Valid() && SingleRequest(s) && OneUnitEach(s)
    ensures Disciplined(s) && NoneStuck(s)
  {
    var all := Below(|s.procs|);
    forall i, k, j | 0 <= i < |s.procs| && 0 <= k < |s.procs| && 0 <= j < |s.available|
      ensures s.allocation[i][j] != 0 && s.allocation[k][j] != 0 ==> i == k
    {
      if i < k {
        ReleasedTwo(s, all, i, k, j, |s.procs|);
      } else if k < i {
        ReleasedTwo(s, all, k, i, j, |s.procs|);
      }
    }
    forall i: nat, j: nat ensures !StuckOn(s, i, j) {
      if j < |s.available| && forall h :: 0 <= h < |s.procs| ==> s.allocation[h][j] == 0 {
        ReleasedNone(s, all, j, |s.procs|);
      }
    }
  }
}
