/** Wait-for graphs in which every process waits for at most one other process. */
module WaitGraph {
  // A graph maps a waiting process to the process it waits for.  Everything the
  // deadlock resolver relies on is a fact about such graphs: a process that
  // reaches a cycle member from inside the cycle is on that cycle, killing one
  // member of a cycle destroys that cycle and no other, and hence no way of
  // killing processes beats one kill per cycle.

  type Graph = map<int, int>

  // y is reached from x in exactly n steps
  ghost predicate Path(g: Graph, x: int, y: int, n: nat)
    decreases n
  {
    if n == 0 then x == y else x in g && Path(g, g[x], y, n - 1)
  }

  // y is reached from x in one step or more
  ghost predicate Reach(g: Graph, x: int, y: int) {
    exists n: nat :: n >= 1 && Path(g, x, y, n)
  }

  ghost predicate OnCycle(g: Graph, x: int) {
    Reach(g, x, x)
  }

  ghost predicate SameCycle(g: Graph, x: int, y: int) {
    Reach(g, x, y) && Reach(g, y, x)
  }

  ghost predicate Acyclic(g: Graph) {
    forall x :: !OnCycle(g, x)
  }

  // Every process of d waits for a process of d.
  ghost predicate Closed(g: Graph, d: set<int>) {
    forall x {:trigger g[x]} {:trigger x in g} :: x in d ==> x in g && g[x] in d
  }

  lemma ClosedAt(g: Graph, d: set<int>, x: int)
    requires Closed(g, d) && x in d
    ensures x in g && g[x] in d
  {
  }

  // ----- paths

  lemma {:induction false} PathTrans(g: Graph, x: int, y: int, z: int, n: nat, k: nat)
    requires Path(g, x, y, n) && Path(g, y, z, k)
    ensures Path(g, x, z, n + k)
    decreases n
  {
    if n > 0 {
      PathTrans(g, g[x], y, z, n - 1, k);
    }
  }

  // In a graph with one way out of every node, the longer path extends the shorter one.
  lemma {:induction false} PathSplit(g: Graph, x: int, y: int, z: int, n: nat, k: nat)
    requires Path(g, x, y, n) && Path(g, x, z, k) && n <= k
    ensures Path(g, y, z, k - n)
    decreases n
  {
    if n > 0 {
      PathSplit(g, g[x], y, z, n - 1, k - 1);
    }
  }

  lemma {:induction false} PathClosed(g: Graph, d: set<int>, x: int, y: int, n: nat)
    requires Closed(g, d) && x in d && Path(g, x, y, n)
    ensures y in d
    decreases n
  {
    if n > 0 {
      PathClosed(g, d, g[x], y, n - 1);
    }
  }

  lemma ReachTrans(g: Graph, x: int, y: int, z: int)
    requires Reach(g, x, y) && Reach(g, y, z)
    ensures Reach(g, x, z)
  {
    var n: nat :| n >= 1 && Path(g, x, y, n);
    var k: nat :| k >= 1 && Path(g, y, z, k);
    PathTrans(g, x, y, z, n, k);
  }

  lemma ReachStep(g: Graph, x: int)
    requires x in g
    ensures Reach(g, x, g[x])
  {
    assert Path(g, g[x], g[x], 0);
    assert Path(g, x, g[x], 1);
  }

  // A path out of a cycle node can be prolonged around the cycle as often as needed.
  lemma {:induction false} CyclePath(g: Graph, x: int, y: int, n: nat, k: nat)
    requires Path(g, x, x, k) && k >= 1 && Path(g, x, y, n)
    ensures Reach(g, y, x)
    decreases n
  {
    if n < k {
      PathSplit(g, x, y, x, n, k);
    } else {
      PathSplit(g, x, x, y, k, n);
      CyclePath(g, x, y, n - k, k);
    }
  }

  // What a cycle node reaches is on the same cycle.
  lemma CycleBack(g: Graph, x: int, y: int)
    requires OnCycle(g, x) && Reach(g, x, y)
    ensures SameCycle(g, x, y) && OnCycle(g, y)
  {
    var k: nat :| k >= 1 && Path(g, x, x, k);
    var n: nat :| n >= 1 && Path(g, x, y, n);
    CyclePath(g, x, y, n, k);
    ReachTrans(g, y, x, y);
  }

  // ----- a closed set of waiting processes contains a cycle

  lemma {:induction false} ClosedHasCycle(g: Graph, d: set<int>) returns (c: int)
    requires Closed(g, d) && d != {}
    ensures c in d && OnCycle(g, c)
    decreases |d|
  {
    var x :| x in d;
    if OnCycle(g, x) {
      c := x;
    } else {
      var e := set y | y in d && Reach(g, x, y);
      ReachStep(g, x);
      assert g[x] in e;
      forall y | y in e ensures y in g && g[y] in e {
        ReachStep(g, y);
        ReachTrans(g, x, y, g[y]);
      }
      assert x !in e;
      assert e <= d - {x};
      SubsetSmaller(e, d - {x});
      c := ClosedHasCycle(g, e);
    }
  }

  lemma SubsetSmaller(a: set<int>, b: set<int>)
    requires a <= b
    ensures |a| <= |b|
  {
    assert b == a + (b - a);
  }

  // ----- killing processes

  // Killing v removes v and frees whoever waited for v.
  ghost function Remove(g: Graph, v: int): Graph {
    map x | x in g && x != v && g[x] != v :: g[x]
  }

  ghost function RemoveAll(g: Graph, vs: seq<int>): Graph
    decreases vs
  {
    if vs == [] then g else RemoveAll(Remove(g, vs[0]), vs[1..])
  }

  lemma {:induction false} RemoveAllIs(g: Graph, vs: seq<int>)
    ensures RemoveAll(g, vs) == map x | x in g && x !in vs && g[x] !in vs :: g[x]
    decreases vs
  {
    if vs == [] {
    } else {
      RemoveAllIs(Remove(g, vs[0]), vs[1..]);
      assert forall x :: x in vs <==> x == vs[0] || x in vs[1..];
    }
  }

  // A path of a graph with fewer edges is a path.
  lemma {:induction false} PathMono(g: Graph, h: Graph, x: int, y: int, n: nat)
    requires forall z :: z in g ==> z in h && h[z] == g[z]
    requires Path(g, x, y, n)
    ensures Path(h, x, y, n)
    decreases n
  {
    if n > 0 {
      PathMono(g, h, g[x], y, n - 1);
    }
  }

  // Two graphs that agree on a set one of them does not leave have the same paths out of it.
  lemma {:induction false} PathWithin(g: Graph, h: Graph, d: set<int>, x: int, y: int, n: nat)
    requires forall z :: z in d && z in g ==> g[z] in d && z in h && h[z] == g[z]
    requires x in d && Path(g, x, y, n)
    ensures Path(h, x, y, n)
    decreases n
  {
    if n > 0 {
      PathWithin(g, h, d, g[x], y, n - 1);
    }
  }

  // A path that avoids the killed processes survives.
  lemma {:induction false} PathAvoids(g: Graph, vs: seq<int>, x: int, y: int, n: nat)
    requires Path(g, x, y, n)
    requires x !in vs && forall z :: z in vs ==> !Reach(g, x, z)
    ensures Path(RemoveAll(g, vs), x, y, n)
    decreases n
  {
    RemoveAllIs(g, vs);
    if n > 0 {
      ReachStep(g, x);
      forall z | z in vs ensures !Reach(g, g[x], z) {
        if Reach(g, g[x], z) {
          ReachTrans(g, x, g[x], z);
        }
      }
      PathAvoids(g, vs, g[x], y, n - 1);
    }
  }

  // A process is still on a cycle exactly when its cycle lost no member.
  lemma SurvivingCycle(g: Graph, vs: seq<int>, x: int)
    ensures OnCycle(RemoveAll(g, vs), x) <==>
            OnCycle(g, x) && forall v :: v in vs ==> !SameCycle(g, x, v)
  {
    var h := RemoveAll(g, vs);
    RemoveAllIs(g, vs);
    if OnCycle(h, x) {
      var n: nat :| n >= 1 && Path(h, x, x, n);
      PathMono(h, g, x, x, n);
      forall v | v in vs ensures !SameCycle(g, x, v) {
        if SameCycle(g, x, v) {
          var k: nat :| k >= 1 && Path(g, x, v, k);
          CycleAvoids(g, h, vs, x, v, n, k);
        }
      }
    }
    if OnCycle(g, x) && forall v :: v in vs ==> !SameCycle(g, x, v) {
      var n: nat :| n >= 1 && Path(g, x, x, n);
      forall v | v in vs ensures !Reach(g, x, v) {
        if Reach(g, x, v) {
          CycleBack(g, x, v);
        }
      }
      PathAvoids(g, vs, x, x, n);
    }
  }

  // A surviving cycle cannot be left, so it never leads to a killed process.
  lemma {:induction false} CycleAvoids(g: Graph, h: Graph, vs: seq<int>, x: int, v: int, n: nat, k: nat)
    requires h == RemoveAll(g, vs) && v in vs
    requires n >= 1 && Path(h, x, x, n) && Path(g, x, v, k)
    ensures false
    decreases k
  {
    RemoveAllIs(g, vs);
    assert x in h;
    if k > 0 {
      // the rest of the cycle is a cycle through the next node
      var y := h[x];
      assert Path(h, y, y, 0);
      PathTrans(h, y, x, y, n - 1, 1);
      CycleAvoids(g, h, vs, y, v, n, k - 1);
    }
  }

  // ----- the resolver's kills

  // Each killed process is on a cycle at the time it is killed.
  ghost predicate CycleKills(g: Graph, vs: seq<int>)
    decreases vs
  {
    vs == [] || (OnCycle(g, vs[0]) && CycleKills(Remove(g, vs[0]), vs[1..]))
  }

  lemma RemoveOne(g: Graph, v: int)
    ensures RemoveAll(g, [v]) == Remove(g, v)
  {
    assert [v][1..] == [];
    assert RemoveAll(g, [v]) == RemoveAll(Remove(g, v), []);
  }

  lemma SurvivingCycleOne(g: Graph, v: int, x: int)
    ensures OnCycle(Remove(g, v), x) <==> OnCycle(g, x) && !SameCycle(g, x, v)
  {
    RemoveOne(g, v);
    SurvivingCycle(g, [v], x);
    assert forall z :: z in [v] <==> z == v;
  }

  // Survivors of a kill are on the same cycle exactly when they were before.
  lemma SameCycleAfter(g: Graph, v: int, x: int, y: int)
    requires OnCycle(Remove(g, v), x)
    ensures SameCycle(Remove(g, v), x, y) <==> SameCycle(g, x, y)
  {
    var h := Remove(g, v);
    RemoveOne(g, v);
    SurvivingCycleOne(g, v, x);
    if SameCycle(h, x, y) {
      var n: nat :| n >= 1 && Path(h, x, y, n);
      var k: nat :| k >= 1 && Path(h, y, x, k);
      PathMono(h, g, x, y, n);
      PathMono(h, g, y, x, k);
    }
    if SameCycle(g, x, y) {
      var n: nat :| n >= 1 && Path(g, x, y, n);
      if Reach(g, x, v) {
        CycleBack(g, x, v);
      }
      assert forall z :: z in [v] <==> z == v;
      PathAvoids(g, [v], x, y, n);
      CycleBack(h, x, y);
    }
  }

  /** Kills made on cycles until none is left hit every cycle exactly once, and nothing else. */
  lemma {:induction false} OneKillPerCycle(g: Graph, vs: seq<int>)
    requires CycleKills(g, vs) && Acyclic(RemoveAll(g, vs))
    ensures forall v :: v in vs ==> OnCycle(g, v)
    ensures forall x :: OnCycle(g, x) ==> exists i :: 0 <= i < |vs| && SameCycle(g, x, vs[i])
    ensures forall i, j :: 0 <= i < j < |vs| ==> !SameCycle(g, vs[i], vs[j])
    decreases vs
  {
    if vs == [] {
    } else {
      var v, rest := vs[0], vs[1..];
      var h := Remove(g, v);
      OneKillPerCycle(h, rest);
      forall w | w in rest ensures OnCycle(g, w) && !SameCycle(g, w, v) {
        SurvivingCycleOne(g, v, w);
      }
      forall x | OnCycle(g, x) ensures exists i :: 0 <= i < |vs| && SameCycle(g, x, vs[i]) {
        if SameCycle(g, x, v) {
          assert SameCycle(g, x, vs[0]);
        } else {
          SurvivingCycleOne(g, v, x);
          var i :| 0 <= i < |rest| && SameCycle(h, x, rest[i]);
          SameCycleAfter(g, v, x, rest[i]);
          assert SameCycle(g, x, vs[i + 1]);
        }
      }
      forall i, j | 0 <= i < j < |vs| ensures !SameCycle(g, vs[i], vs[j]) {
        assert vs[j] == rest[j - 1] && vs[j] in rest;
        if i == 0 {
          assert !SameCycle(g, vs[j], v);
        } else {
          assert vs[i] == rest[i - 1];
          SurvivingCycleOne(g, v, vs[i]);
          SameCycleAfter(g, v, vs[i], vs[j]);
        }
      }
    }
  }

  ghost function Without(ks: seq<int>, w: int): (r: seq<int>)
    ensures forall x :: x in r <==> x in ks && x != w
    ensures |r| <= |ks| && (w in ks ==> |r| < |ks|)
    decreases ks
  {
    if ks == [] then [] else
    assert forall x :: x in ks <==> x == ks[0] || x in ks[1..];
    if ks[0] == w then Without(ks[1..], w) else [ks[0]] + Without(ks[1..], w)
  }

  /** Any set of kills that leaves no cycle is at least as large as the resolver's. */
  lemma {:induction false} KillsAreMinimal(g: Graph, vs: seq<int>, ks: seq<int>)
    requires CycleKills(g, vs)
    requires Acyclic(RemoveAll(g, ks))
    ensures |vs| <= |ks|
    decreases vs
  {
    if vs != [] {
      var v := vs[0];
      var h := Remove(g, v);
      // some kill in ks hits v's cycle
      SurvivingCycle(g, ks, v);
      var w :| w in ks && SameCycle(g, v, w);
      var ks' := Without(ks, w);
      forall x ensures !OnCycle(RemoveAll(h, ks'), x) {
        if OnCycle(RemoveAll(h, ks'), x) {
          SurvivingCycle(h, ks', x);
          SurvivingCycleOne(g, v, x);
          forall k | k in ks ensures !SameCycle(g, x, k) {
            if SameCycle(g, x, k) {
              SameCycleAfter(g, v, x, k);
              assert k == w;
              ReachTrans(g, x, w, v);
              ReachTrans(g, v, w, x);
              assert false;
            }
          }
          SurvivingCycle(g, ks, x);
          assert false;
        }
      }
      KillsAreMinimal(h, vs[1..], ks');
    }
  }

  lemma {:induction false} CycleKillsSnoc(g: Graph, vs: seq<int>, v: int)
    requires CycleKills(g, vs) && OnCycle(RemoveAll(g, vs), v)
    ensures CycleKills(g, vs + [v])
    decreases vs
  {
    if vs == [] {
      assert (vs + [v])[1..] == [];
    } else {
      CycleKillsSnoc(Remove(g, vs[0]), vs[1..], v);
      assert (vs + [v])[1..] == vs[1..] + [v];
    }
  }

  ghost predicate Biggest(g: Graph, v: int) {
    forall p :: OnCycle(g, p) ==> p <= v
  }

  // Each killed process has the biggest pid of all processes on cycles at the time.
  ghost predicate BiggestFirst(g: Graph, vs: seq<int>)
    decreases vs
  {
    vs == [] || (Biggest(g, vs[0]) && BiggestFirst(Remove(g, vs[0]), vs[1..]))
  }

  lemma {:induction false} BiggestFirstSnoc(g: Graph, vs: seq<int>, v: int)
    requires BiggestFirst(g, vs) && Biggest(RemoveAll(g, vs), v)
    ensures BiggestFirst(g, vs + [v])
    decreases vs
  {
    if vs == [] {
      assert (vs + [v])[1..] == [];
    } else {
      BiggestFirstSnoc(Remove(g, vs[0]), vs[1..], v);
      assert (vs + [v])[1..] == vs[1..] + [v];
    }
  }

  /** So each one has the biggest pid of its own cycle. */
  lemma {:induction false} VictimIsBiggestOfCycle(g: Graph, vs: seq<int>, i: nat, q: int)
    requires CycleKills(g, vs) && BiggestFirst(g, vs) && i < |vs| && SameCycle(g, vs[i], q)
    ensures q <= vs[i]
    decreases vs
  {
    ReachTrans(g, q, vs[i], q);
    assert OnCycle(g, q);
    if i > 0 {
      CycleKillsStay(g, vs, i);
      SameCycleAfter(g, vs[0], vs[i], q);
      VictimIsBiggestOfCycle(Remove(g, vs[0]), vs[1..], i - 1, q);
    }
  }

  // A later victim is still on its cycle after the first kill.
  lemma {:induction false} CycleKillsStay(g: Graph, vs: seq<int>, i: nat)
    requires CycleKills(g, vs) && 0 < i < |vs|
    ensures OnCycle(Remove(g, vs[0]), vs[i])
    decreases vs
  {
    var h, rest := Remove(g, vs[0]), vs[1..];
    if i > 1 {
      CycleKillsStay(h, rest, i - 1);
      SurvivingCycleOne(h, rest[0], rest[i - 1]);
    }
  }
}
