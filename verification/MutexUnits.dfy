/**
 Units of semaphores through every update of the books: who conserves them, and
 exactly when one is made up or lost.
 */
module MutexUnits {
  import opened Matrices
  import opened WaitFor
  import opened Kills
  import opened SemBooks

  // Units of column j held by the processes of the first n rows.
  function ColumnSum(m: seq<seq<int>>, j: nat, n: nat): int
    requires n <= |m| && forall i :: 0 <= i < |m| ==> j < |m[i]|
    decreases n
  {
    if n == 0 then 0 else ColumnSum(m, j, n - 1) + m[n - 1][j]
  }

  // The units of a semaphore: available or held.
  ghost function Units(s: Snapshot, j: nat): int
    requires s.Valid() && j < |s.available|
  {
    s.available[j] + ColumnSum(s.allocation, j, |s.procs|)
  }

  lemma {:induction false} SumIsReleased(s: Snapshot, all: set<nat>, j: nat, n: nat)
    requires s.Valid() && j < |s.available| && n <= |s.procs| && forall x :: 0 <= x < n ==> x in all
    ensures ColumnSum(s.allocation, j, n) == Released(s, all, j, n)
    decreases n
  {
    if n > 0 {
      SumIsReleased(s, all, j, n - 1);
    }
  }

  lemma OneUnitIsUnits(s: Snapshot)
    requires s.Valid()
    ensures OneUnitEach(s) <==> forall j: nat :: j < |s.available| ==> Units(s, j) == 1
  {
    forall j: nat | j < |s.available|
      ensures Units(s, j) == s.available[j] + Released(s, Below(|s.procs|), j, |s.procs|)
    {
      SumIsReleased(s, Below(|s.procs|), j, |s.procs|);
    }
  }

  lemma {:induction false} SumSet(m: seq<seq<int>>, i: nat, j: nat, x: int, l: nat, n: nat)
    requires n <= |m| && i < |m| && j < |m[i]| && forall k :: 0 <= k < |m| ==> l < |m[k]|
    ensures forall k :: 0 <= k < |m| ==> l < |SetCell(m, i, j, x)[k]|
    ensures ColumnSum(SetCell(m, i, j, x), l, n) == ColumnSum(m, l, n) + if i < n && l == j then x - m[i][j] else 0
    decreases n
  {
    if n > 0 {
      SumSet(m, i, j, x, l, n - 1);
    }
  }

  lemma {:induction false} SumDrop(m: seq<seq<int>>, v: nat, l: nat, n: nat)
    requires n < |m| && v < |m| && forall k :: 0 <= k < |m| ==> l < |m[k]|
    ensures forall k :: 0 <= k < |m| - 1 ==> l < |DropAt(m, v)[k]|
    ensures ColumnSum(DropAt(m, v), l, n) ==
      if v < n then ColumnSum(m, l, n + 1) - m[v][l] else ColumnSum(m, l, n)
    decreases n
  {
    if n > 0 {
      SumDrop(m, v, l, n - 1);
    }
    if v == n {
      SumDropAt(m, v, l, n);
    }
  }

  lemma {:induction false} SumDropAt(m: seq<seq<int>>, v: nat, l: nat, n: nat)
    requires n <= v < |m| && forall k :: 0 <= k < |m| ==> l < |m[k]|
    ensures ColumnSum(DropAt(m, v), l, n) == ColumnSum(m, l, n)
    decreases n
  {
    if n > 0 {
      SumDropAt(m, v, l, n - 1);
    }
  }

  lemma DroppedRow(m: seq<seq<int>>, v: nat, l: nat)
    requires v < |m| && forall k :: 0 <= k < |m| ==> l < |m[k]|
    ensures ColumnSum(DropAt(m, v), l, |m| - 1) == ColumnSum(m, l, |m|) - m[v][l]
  {
    var n := |m| - 1;
    SumDrop(m, v, l, n);
    if v == n {
      SumDropAt(m, v, l, n);
    }
  }

  /** Taking a unit, at once or after waiting, conserves the units of every semaphore. */
  lemma TakingConserves(s: Snapshot, i: nat, j: nat, l: nat)
    requires s.Valid() && i < |s.procs| && j < |s.available| && l < |s.available| && s.available[j] >= 1
    ensures TakenAtOnce(s, i, j).Valid() && Units(TakenAtOnce(s, i, j), l) == Units(s, l)
    ensures s.request[i][j] >= 1 ==>
      TakenAfterWait(s, i, j).Valid() && Units(TakenAfterWait(s, i, j), l) == Units(s, l)
  {
    SumSet(s.allocation, i, j, s.allocation[i][j] + 1, l, |s.procs|);
  }

  /** A post makes a unit up exactly when its process does not hold one. */
  lemma PostConservesIffHeld(s: Snapshot, i: nat, j: nat)
    requires s.Valid() && i < |s.procs| && j < |s.available|
    ensures Posted(s, i, j).Valid()
    ensures Units(Posted(s, i, j), j) == Units(s, j) <==> s.allocation[i][j] != 0
    ensures Units(Posted(s, i, j), j) == Units(s, j) + if s.allocation[i][j] == 0 then 1 else 0
  {
    if s.allocation[i][j] != 0 {
      SumSet(s.allocation, i, j, s.allocation[i][j] - 1, j, |s.procs|);
    }
  }

  /** A kill gives back everything its victim held, and so conserves the units of every semaphore. */
  lemma KillConserves(s: Snapshot, v: nat, l: nat)
    requires s.Valid() && v < |s.procs| && l < |s.available|
    ensures Kill(s, v).Valid() && Units(Kill(s, v), l) == Units(s, l)
  {
    KillKeepsValid(s, v);
    DroppedRow(s.allocation, v, l);
  }

  /** A process that ends loses the units it holds: they are conserved exactly when it holds none. */
  lemma EndConservesIffEmpty(s: Snapshot, i: nat, l: nat)
    requires s.Valid() && i < |s.procs| && l < |s.available|
    ensures ProcDropped(s, i).Valid()
    ensures Units(ProcDropped(s, i), l) == Units(s, l) - s.allocation[i][l]
    ensures Units(ProcDropped(s, i), l) == Units(s, l) <==> s.allocation[i][l] == 0
  {
    DroppedRow(s.allocation, i, l);
    assert ProcDropped(s, i).Valid();
  }

  /** So the mutex discipline survives the resolver. */
  lemma KillKeepsMutexes(s: Snapshot, v: nat)
    requires s.Valid() && v < |s.procs| && SingleRequest(s) && OneUnitEach(s)
    ensures Kill(s, v).Valid() && SingleRequest(Kill(s, v)) && OneUnitEach(Kill(s, v))
  {
    KillKeepsValid(s, v);
    MutexesAreDisciplined(s);
    KillKeepsDiscipline(s, v);
    OneUnitIsUnits(s);
    forall l: nat | l < |s.available| ensures Units(Kill(s, v), l) == 1 {
      KillConserves(s, v, l);
    }
    OneUnitIsUnits(Kill(s, v));
  }
}
