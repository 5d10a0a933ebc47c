/** The matrices of the deadlock detector as one value, and what a deadlock is. */
module Matrices {
  // Rows are processes, columns are semaphores.  A process is deadlocked when it
  // holds some unit and no order in which processes run to completion, each one
  // giving back everything it holds, ever makes its own request available.

  datatype Snapshot = Snapshot(
    procs: seq<int>,
    available: seq<int>,
    allocation: seq<seq<int>>,
    request: seq<seq<int>>)
  {
    ghost predicate Valid() {
      && |allocation| == |procs| && |request| == |procs|
      && (forall i :: 0 <= i < |procs| ==> |allocation[i]| == |available|)
      && (forall i :: 0 <= i < |procs| ==> |request[i]| == |available|)
      && (forall i, j :: 0 <= i < |procs| && 0 <= j < |available| ==> allocation[i][j] >= 0)
      && (forall i, j :: 0 <= i < |procs| && 0 <= j < |available| ==> request[i][j] >= 0)
      && (forall j :: 0 <= j < |available| ==> available[j] >= 0)
      && (forall i, k :: 0 <= i < k < |procs| ==> procs[i] != procs[k])
    }
  }

  ghost function Elems(order: seq<nat>): set<nat> {
    set x | x in order
  }

  // Units of semaphore j given back by those of the first n processes that are in done.
  ghost function Released(s: Snapshot, done: set<nat>, j: nat, n: nat): int
    requires s.Valid() && j < |s.available| && n <= |s.procs|
    decreases n
  {
    if n == 0 then 0
    else Released(s, done, j, n - 1) + if n - 1 in done then s.allocation[n - 1][j] else 0
  }

  // What is available of semaphore j once the processes of done have completed.
  ghost function Work(s: Snapshot, done: set<nat>, j: nat): int
    requires s.Valid() && j < |s.available|
  {
    s.available[j] + Released(s, done, j, |s.procs|)
  }

  ghost predicate Satisfiable(s: Snapshot, done: set<nat>, i: nat)
    requires s.Valid() && i < |s.procs|
  {
    forall j :: 0 <= j < |s.available| ==> s.request[i][j] <= Work(s, done, j)
  }

  ghost predicate Holds(s: Snapshot, i: nat)
    requires s.Valid() && i < |s.procs|
  {
    exists j :: 0 <= j < |s.available| && s.allocation[i][j] != 0
  }

  // An order in which distinct processes can complete one after the other.
  ghost predicate Schedule(s: Snapshot, order: seq<nat>)
    requires s.Valid()
  {
    forall k :: 0 <= k < |order| ==>
      && order[k] < |s.procs|
      && order[k] !in order[..k]
      && Satisfiable(s, Elems(order[..k]), order[k])
  }

  ghost predicate Completes(s: Snapshot, i: nat)
    requires s.Valid()
  {
    exists order :: Schedule(s, order) && i in order
  }

  ghost predicate Deadlocked(s: Snapshot, i: nat)
    requires s.Valid()
  {
    i < |s.procs| && Holds(s, i) && !Completes(s, i)
  }

  ghost predicate IsDeadlock(s: Snapshot)
    requires s.Valid()
  {
    exists i :: Deadlocked(s, i)
  }

  // ----- the sum of released units

  lemma {:induction false} ReleasedMono(s: Snapshot, a: set<nat>, b: set<nat>, j: nat, n: nat)
    requires s.Valid() && j < |s.available| && n <= |s.procs|
    requires forall i :: i in a && i < n && s.allocation[i][j] != 0 ==> i in b
    ensures Released(s, a, j, n) <= Released(s, b, j, n)
    decreases n
  {
    if n > 0 {
      ReleasedMono(s, a, b, j, n - 1);
    }
  }

  lemma {:induction false} ReleasedInsert(s: Snapshot, a: set<nat>, i: nat, j: nat, n: nat)
    requires s.Valid() && j < |s.available| && n <= |s.procs| && i !in a
    ensures Released(s, a + {i}, j, n) == Released(s, a, j, n) + if i < n then s.allocation[i][j] else 0
    decreases n
  {
    if n > 0 {
      ReleasedInsert(s, a, i, j, n - 1);
    }
  }

  lemma {:induction false} ReleasedAtLeast(s: Snapshot, a: set<nat>, i: nat, j: nat, n: nat)
    requires s.Valid() && j < |s.available| && n <= |s.procs|
    ensures Released(s, a, j, n) >= 0
    ensures i in a && i < n ==> Released(s, a, j, n) >= s.allocation[i][j]
    decreases n
  {
    if n > 0 {
      ReleasedAtLeast(s, a, i, j, n - 1);
    }
  }

  // If nobody in a holds units of j, completing a adds none.
  lemma {:induction false} ReleasedNone(s: Snapshot, a: set<nat>, j: nat, n: nat)
    requires s.Valid() && j < |s.available| && n <= |s.procs|
    requires forall i :: i in a && i < n ==> s.allocation[i][j] == 0
    ensures Released(s, a, j, n) == 0
    decreases n
  {
    if n > 0 {
      ReleasedNone(s, a, j, n - 1);
    }
  }

  // ----- schedules

  lemma ScheduleSnoc(s: Snapshot, order: seq<nat>, i: nat)
    requires s.Valid() && Schedule(s, order)
    requires i < |s.procs| && i !in order && Satisfiable(s, Elems(order), i)
    ensures Schedule(s, order + [i])
    ensures Elems(order + [i]) == Elems(order) + {i}
  {
    var o := order + [i];
    forall k | 0 <= k < |o|
      ensures o[k] < |s.procs| && o[k] !in o[..k] && Satisfiable(s, Elems(o[..k]), o[k])
    {
      if k < |order| {
        assert o[..k] == order[..k];
      } else {
        assert o[..k] == order;
      }
    }
  }

  // Completing more processes never makes a request unsatisfiable.
  lemma SatisfiableMono(s: Snapshot, a: set<nat>, b: set<nat>, i: nat)
    requires s.Valid() && i < |s.procs| && Satisfiable(s, a, i)
    requires forall x :: x in a && x < |s.procs| && Holds(s, x) ==> x in b
    ensures Satisfiable(s, b, i)
  {
    forall j | 0 <= j < |s.available| ensures s.request[i][j] <= Work(s, b, j) {
      ReleasedMono(s, a, b, j, |s.procs|);
    }
  }

  // When no holder outside done can be satisfied any more, done contains every holder that ever completes.
  lemma {:induction false} FixpointIsComplete(s: Snapshot, done: set<nat>, order: seq<nat>)
    requires s.Valid() && Schedule(s, order)
    requires forall i :: 0 <= i < |s.procs| && Holds(s, i) && Satisfiable(s, done, i) ==> i in done
    ensures forall i :: i in order && Holds(s, i) ==> i in done
    decreases |order|
  {
    if order != [] {
      var k := |order| - 1;
      var before, last := order[..k], order[k];
      forall x | 0 <= x < k
        ensures before[x] < |s.procs| && before[x] !in before[..x] && Satisfiable(s, Elems(before[..x]), before[x])
      {
        assert before[..x] == order[..x];
        assert before[x] == order[x];
      }
      FixpointIsComplete(s, done, before);
      SatisfiableMono(s, Elems(before), done, last);
      assert order == before + [last];
    }
  }

  ghost function Below(n: nat): (r: set<nat>)
    ensures |r| == n
    ensures forall x: nat :: x in r <==> x < n
  {
    if n == 0 then {} else Below(n - 1) + {n - 1}
  }

  // Distinct numbers below n that miss one of them are fewer than n.
  lemma MissingOne(order: seq<nat>, n: nat, i: nat)
    requires forall k :: 0 <= k < |order| ==> order[k] < n && order[k] !in order[..k]
    requires i < n && i !in order
    ensures |order| < n
  {
    DistinctCount(order);
    var room := Below(n) - {i};
    assert Elems(order) <= room;
    assert room == Elems(order) + (room - Elems(order));
  }

  lemma {:induction false} DistinctCount(order: seq<nat>)
    requires forall k :: 0 <= k < |order| ==> order[k] !in order[..k]
    ensures |Elems(order)| == |order|
    decreases |order|
  {
    if order != [] {
      var k := |order| - 1;
      var before := order[..k];
      forall x | 0 <= x < k ensures before[x] !in before[..x] {
        assert before[..x] == order[..x] && before[x] == order[x];
      }
      DistinctCount(before);
      assert order == before + [order[k]];
      assert Elems(order) == Elems(before) + {order[k]};
    }
  }
}
