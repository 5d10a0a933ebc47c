/** The invariant of the detector's reduction, as facts about values. */
module Reduction {
  import opened Matrices
  import opened Kills

  // The reduction keeps a vector of available units and a flag per process.  Both
  // are explained by the order in which it has let processes complete so far.

  ghost predicate ReduceState(s: Snapshot, order: seq<nat>, finish: seq<bool>, work: seq<int>) {
    && s.Valid() && Schedule(s, order)
    && |finish| == |s.procs| && |work| == |s.available|
    && (forall i :: 0 <= i < |s.procs| ==> (finish[i] <==> !Holds(s, i) || i in order))
    && (forall j :: 0 <= j < |s.available| ==> work[j] == Work(s, Elems(order), j))
  }

  // No holder outside the order can be satisfied any more.
  ghost predicate Fixpoint(s: Snapshot, order: seq<nat>)
    requires s.Valid()
  {
    FixpointBelow(s, order, |s.procs|)
  }

  ghost predicate FixpointBelow(s: Snapshot, order: seq<nat>, n: nat)
    requires s.Valid() && n <= |s.procs|
  {
    forall i :: 0 <= i < n && Holds(s, i) && Satisfiable(s, Elems(order), i) ==> i in order
  }

  lemma ReduceStart(s: Snapshot, finish: seq<bool>)
    requires s.Valid() && |finish| == |s.procs|
    requires forall i :: 0 <= i < |s.procs| ==> (finish[i] <==> !Holds(s, i))
    ensures ReduceState(s, [], finish, s.available)
  {
    forall j | 0 <= j < |s.available| ensures Work(s, Elems([]), j) == s.available[j] {
      ReleasedNone(s, Elems([]), j, |s.procs|);
    }
  }

  lemma ReduceStep(s: Snapshot, order: seq<nat>, finish: seq<bool>, work: seq<int>, i: nat)
    requires ReduceState(s, order, finish, work)
    requires i < |s.procs| && !finish[i]
    requires forall j :: 0 <= j < |s.available| ==> s.request[i][j] <= work[j]
    ensures ReduceState(s, order + [i], finish[i := true], AddRow(work, s.allocation[i]))
  {
    ScheduleSnoc(s, order, i);
    forall j | 0 <= j < |s.available|
      ensures AddRow(work, s.allocation[i])[j] == Work(s, Elems(order + [i]), j)
    {
      ReleasedInsert(s, Elems(order), i, j, |s.procs|);
    }
  }

  lemma ManyIsFixpoint(s: Snapshot, order: seq<nat>)
    requires s.Valid() && Schedule(s, order) && |order| >= |s.procs|
    ensures Fixpoint(s, order)
  {
    forall i: nat | i < |s.procs| ensures i in order {
      if i !in order {
        MissingOne(order, |s.procs|, i);
      }
    }
  }

  /** At a fixpoint the flags are exact: an unset flag is a deadlocked process. */
  lemma FixpointIsExact(s: Snapshot, order: seq<nat>, finish: seq<bool>, work: seq<int>, i: nat)
    requires ReduceState(s, order, finish, work) && Fixpoint(s, order) && i < |s.procs|
    ensures !finish[i] <==> Deadlocked(s, i)
  {
    if !finish[i] {
      forall o | Schedule(s, o) ensures i !in o {
        FixpointIsComplete(s, Elems(order), o);
      }
    }
  }
}
