/**
 The semaphores, the deadlock detector's matrices and the resolver.

 The detector keeps one row per process and one column per semaphore.  Every
 update method below is specified by the matrices it leaves; the resolver is
 specified by the facts of Kills about those matrices.
 */
module DeadlockResolver {
  import opened Queues
  import opened Matrices
  import opened WaitGraph
  import opened WaitFor
  import opened Kills
  import opened Reduction
  import opened CircularWait
  import opened Rounds
  import opened SemBooks

  class MateSem {
    var sem: nat
    var waiting: seq<int>

    constructor (initial: nat)
      ensures sem == initial && waiting == []
    {
      sem, waiting := initial, [];
    }

    method Wait(p: int) returns (blocked: bool)
      modifies this
      ensures blocked <==> old(sem) < 1
      ensures sem == if blocked then old(sem) else old(sem) - 1
      ensures waiting == if blocked then old(waiting) + [p] else old(waiting)
    {
      if sem < 1 {
        waiting := waiting + [p];
        blocked := true;
      } else {
        sem := sem - 1;
        blocked := false;
      }
    }

    // signal tells whether the semaphore's thread is woken up.
    method Post() returns (signal: bool)
      modifies this`sem
      ensures sem == old(sem) + 1
      ensures signal <==> waiting != [] && old(sem) == 0
    {
      signal := waiting != [] && sem == 0;
      sem := sem + 1;
    }

    // The semaphore's thread lets the first waiting process through.
    method Admit() returns (p: int)
      requires waiting != [] && sem != 0
      modifies this
      ensures p == old(waiting)[0] && waiting == old(waiting)[1..] && sem == old(sem) - 1
    {
      p := waiting[0];
      waiting := waiting[1..];
      sem := sem - 1;
    }

    method RemoveBy(p: int)
      modifies this`waiting
      ensures waiting == RemoveFirst(old(waiting), p)
    {
      waiting := RemoveFirst(waiting, p);
    }
  }

  class DeadlockDetector {
    var sems: seq<MateSem>
    var procs: seq<int>
    var available: seq<int>
    var allocation: seq<seq<int>>
    var request: seq<seq<int>>
    var seen: seq<int>
    // the units that processes took and gave back
    ghost var log: seq<UnitEvent<MateSem>>

    constructor ()
      ensures InStepNow() && procs == [] && sems == [] && log == []
    {
      sems, procs, available, allocation, request, seen, log := [], [], [], [], [], [], [];
    }

    ghost function Snap(): Snapshot
      reads this`procs, this`available, this`allocation, this`request
    {
      Snapshot(procs, available, allocation, request)
    }

    ghost predicate Valid()
      reads this`sems, this`procs, this`available, this`allocation, this`request
    {
      && Snap().Valid()
      && |sems| == |available|
      && forall j, k :: 0 <= j < k < |sems| ==> sems[j] != sems[k]
    }

    ghost function Counters(): (c: seq<int>)
      reads this`sems, sems
      ensures |c| == |sems| && forall j :: 0 <= j < |sems| ==> c[j] == sems[j].sem
    {
      var ss := sems; seq(|ss|, j requires 0 <= j < |ss| reads ss => ss[j].sem)
    }

    ghost function Queues(): (q: seq<seq<int>>)
      reads this`sems, sems
      ensures |q| == |sems| && forall j :: 0 <= j < |sems| ==> q[j] == sems[j].waiting
    {
      var ss := sems; seq(|ss|, j requires 0 <= j < |ss| reads ss => ss[j].waiting)
    }

    // ----- the books

    method FindSem(sem: MateSem) returns (j: nat)
      requires Valid() && sem in sems
      ensures j < |sems| && sems[j] == sem
    {
      j := 0;
      while sems[j] != sem
        invariant j < |sems| && sem !in sems[..j]
        decreases |sems| - j
      {
        assert sem in sems[j..];
        assert sems[j..] == [sems[j]] + sems[j + 1..];
        j := j + 1;
      }
    }

    method FindProc(proc: int) returns (i: nat)
      requires Valid() && proc in procs
      ensures i < |procs| && procs[i] == proc
    {
      i := 0;
      while procs[i] != proc
        invariant i < |procs| && proc !in procs[..i]
        decreases |procs| - i
      {
        i := i + 1;
      }
    }

    method DDSemInit(newSem: MateSem, newSemValue: nat)
      requires Valid() && newSem !in sems
      modifies this`sems, this`available, this`allocation, this`request
      ensures sems == old(sems) + [newSem]
      ensures Snap() == SemAdded(old(Snap()), newSemValue)
    {
      sems := sems + [newSem];
      available := available + [newSemValue];
      var i := 0;
      while i < |procs|
        invariant 0 <= i <= |procs|
        invariant sems == old(sems) + [newSem] && available == old(available) + [newSemValue]
        invariant |allocation| == |old(allocation)| && |request| == |old(request)|
        invariant forall k :: 0 <= k < i ==> allocation[k] == old(allocation)[k] + [0] && request[k] == old(request)[k] + [0]
        invariant forall k :: i <= k < |procs| ==> allocation[k] == old(allocation)[k] && request[k] == old(request)[k]
      {
        allocation := allocation[i := allocation[i] + [0]];
        request := request[i := request[i] + [0]];
        i := i + 1;
      }
      assert allocation == AddColumn(old(allocation)) && request == AddColumn(old(request));
    }

    method DDSemAllocatedInstant(proc: int, sem: MateSem) returns (ghost i: nat, ghost j: nat)
      requires Valid() && proc in procs && sem in sems
      modifies this`available, this`allocation
      ensures i < |procs| && procs[i] == proc && j < |sems| && sems[j] == sem
      ensures Snap() == TakenAtOnce(old(Snap()), i, j)
    {
      var col := FindSem(sem);
      var row := FindProc(proc);
      available := available[col := available[col] - 1];
      allocation := SetCell(allocation, row, col, allocation[row][col] + 1);
      return row, col;
    }

    method DDSemAllocated(proc: int, sem: MateSem) returns (ghost i: nat, ghost j: nat)
      requires Valid() && proc in procs && sem in sems
      modifies this`available, this`allocation, this`request
      ensures i < |procs| && procs[i] == proc && j < |sems| && sems[j] == sem
      ensures Snap() == TakenAfterWait(old(Snap()), i, j)
    {
      var col := FindSem(sem);
      var row := FindProc(proc);
      available := available[col := available[col] - 1];
      request := SetCell(request, row, col, request[row][col] - 1);
      allocation := SetCell(allocation, row, col, allocation[row][col] + 1);
      return row, col;
    }

    method DDSemRequested(proc: int, sem: MateSem) returns (ghost i: nat, ghost j: nat)
      requires Valid() && proc in procs && sem in sems
      modifies this`request
      ensures i < |procs| && procs[i] == proc && j < |sems| && sems[j] == sem
      ensures Snap() == Requested(old(Snap()), i, j)
    {
      var col := FindSem(sem);
      var row := FindProc(proc);
      request := SetCell(request, row, col, request[row][col] + 1);
      return row, col;
    }

    method DDSemRelease(proc: int, sem: MateSem) returns (ghost i: nat, ghost j: nat)
      requires Valid() && proc in procs && sem in sems
      modifies this`available, this`allocation
      ensures i < |procs| && procs[i] == proc && j < |sems| && sems[j] == sem
      ensures Snap() == Posted(old(Snap()), i, j)
    {
      var col := FindSem(sem);
      var row := FindProc(proc);
      available := available[col := available[col] + 1];
      if allocation[row][col] != 0 {
        allocation := SetCell(allocation, row, col, allocation[row][col] - 1);
      }
      return row, col;
    }

    method DDSemDestroy(sem: MateSem) returns (ghost j: nat)
      requires Valid() && sem in sems
      modifies this`sems, this`available, this`allocation, this`request
      ensures j < |old(sems)| && old(sems)[j] == sem
      ensures sems == DropAt(old(sems), j)
      ensures Snap() == SemDropped(old(Snap()), j)
    {
      var col := FindSem(sem);
      sems := DropAt(sems, col);
      available := DropAt(available, col);
      var i := 0;
      while i < |procs|
        invariant 0 <= i <= |procs|
        invariant sems == DropAt(old(sems), col) && available == DropAt(old(available), col)
        invariant |allocation| == |old(allocation)| && |request| == |old(request)|
        invariant forall k :: 0 <= k < i ==>
          allocation[k] == DropAt(old(allocation)[k], col) && request[k] == DropAt(old(request)[k], col)
        invariant forall k :: i <= k < |procs| ==> allocation[k] == old(allocation)[k] && request[k] == old(request)[k]
      {
        allocation := allocation[i := DropAt(allocation[i], col)];
        request := request[i := DropAt(request[i], col)];
        i := i + 1;
      }
      assert allocation == DropColumn(old(allocation), col) && request == DropColumn(old(request), col);
      return col;
    }

    method DDProcInit(newProc: int)
      requires Valid()
      modifies this`procs, this`allocation, this`request
      ensures Snap() == ProcAdded(old(Snap()), newProc)
    {
      procs := procs + [newProc];
      allocation := allocation + [Zeros(|available|)];
      request := request + [Zeros(|available|)];
    }

    method DDProcTerm(proc: int) returns (ghost i: nat)
      requires Valid() && proc in procs
      modifies this`procs, this`allocation, this`request
      ensures i < |old(procs)| && old(procs)[i] == proc
      ensures Snap() == ProcDropped(old(Snap()), i)
    {
      var row := FindProc(proc);
      procs := DropAt(procs, row);
      allocation := DropAt(allocation, row);
      request := DropAt(request, row);
      return row;
    }

    // ----- requests and semaphore threads, each as one step that keeps books and semaphores in step

    ghost predicate InStepNow()
      reads this`sems, this`procs, this`available, this`allocation, this`request, this`log, sems
    {
      Valid() && InStep(Snap(), Counters(), Queues()) && Credited(Snap(), sems, log)
    }

    method SemInit(initial: nat) returns (sem: MateSem)
      requires InStepNow()
      modifies this
      ensures InStepNow() && fresh(sem) && sems == old(sems) + [sem]
      ensures Snap() == SemAdded(old(Snap()), initial) && log == old(log)
    {
      ghost var c, q := Counters(), Queues();
      sem := new MateSem(initial);
      AddSemInStep(Snap(), c, q, initial);
      AddSemCredits(Snap(), initial, sems, sem, log);
      DDSemInit(sem, initial);
      assert Counters() == c + [initial] && Queues() == q + [[]];
    }

    // The units every process is booked with are as they were, but for d more of one semaphore and process.
    ghost predicate Moved(before: seq<seq<int>>, proc: int, sem: MateSem, d: int)
      reads this`sems, this`procs, this`allocation
    {
      && |before| == |allocation| == |procs|
      && (forall i :: 0 <= i < |procs| ==> |before[i]| == |allocation[i]| == |sems|)
      && forall i, j :: 0 <= i < |procs| && 0 <= j < |sems| ==>
           allocation[i][j] == before[i][j] + if procs[i] == proc && sems[j] == sem then d else 0
    }

    /**
     The caller of sem_wait is running, so it waits nowhere.  It is queued if there is no
     unit, and otherwise one unit goes from the semaphore to it, in the books too.
     */
    method SemWait(proc: int, sem: MateSem) returns (blocked: bool)
      requires InStepNow() && sem in sems && proc in procs && !Waiting(Queues(), proc)
      modifies this`available, this`allocation, this`request, this`log, sem
      ensures InStepNow()
      ensures blocked <==> old(sem.sem) == 0
      ensures blocked ==> sem.waiting == old(sem.waiting) + [proc] && sem.sem == old(sem.sem)
      ensures !blocked ==> sem.waiting == old(sem.waiting) && sem.sem == old(sem.sem) - 1
      ensures Moved(old(allocation), proc, sem, if blocked then 0 else 1)
      ensures log == if blocked then old(log) else old(log) + [Took(proc, sem)]
    {
      ghost var c, q := Counters(), Queues();
      blocked := sem.Wait(proc);
      if blocked {
        assert Counters() == c;
        BookRequest(proc, sem, c, q);
      } else {
        assert Queues() == q;
        BookUnit(proc, sem, c, q);
      }
    }

    // The semaphore's queue has grown by proc; the books follow.
    method BookRequest(proc: int, sem: MateSem, ghost c: seq<int>, ghost q: seq<seq<int>>)
      requires Valid() && sem in sems && proc in procs && InStep(Snap(), c, q) && !Waiting(q, proc)
      requires Counters() == c && Credited(Snap(), sems, log)
      requires forall j :: 0 <= j < |sems| ==> Queues()[j] == if sems[j] == sem then q[j] + [proc] else q[j]
      modifies this`request
      ensures InStepNow()
    {
      ghost var s := Snap();
      ghost var i, j := DDSemRequested(proc, sem);
      RequestInStep(s, c, q, i, j);
      assert Queues() == q[j := q[j] + [proc]];
    }

    // The semaphore's counter has lost a unit to proc; the books follow.
    method BookUnit(proc: int, sem: MateSem, ghost c: seq<int>, ghost q: seq<seq<int>>)
      requires Valid() && sem in sems && proc in procs && InStep(Snap(), c, q) && Credited(Snap(), sems, log)
      requires Queues() == q
      requires forall j :: 0 <= j < |sems| ==> Counters()[j] == if sems[j] == sem then c[j] - 1 else c[j]
      modifies this`available, this`allocation, this`log
      ensures InStepNow() && log == old(log) + [Took(proc, sem)]
      ensures Moved(old(allocation), proc, sem, 1)
    {
      ghost var s := Snap();
      ghost var i, j := DDSemAllocatedInstant(proc, sem);
      assert Counters()[j] == c[j] - 1;
      TakeAtOnceInStep(s, c, q, i, j);
      assert Counters() == c[j := c[j] - 1];
      LogTaken(s, proc, sem, i, j);
    }

    // One more unit was booked to a process.
    ghost method LogTaken(s: Snapshot, proc: int, sem: MateSem, i: nat, j: nat)
      requires Valid() && s.Valid() && Snap().procs == s.procs && Credited(s, sems, log)
      requires i < |procs| && procs[i] == proc && j < |sems| && sems[j] == sem
      requires allocation == SetCell(s.allocation, i, j, s.allocation[i][j] + 1)
      modifies this`log
      ensures log == old(log) + [Took(proc, sem)] && Credited(Snap(), sems, log)
      ensures Moved(s.allocation, proc, sem, 1)
    {
      assert OneCell(s, Snap(), sems, proc, sem, 1);
      TakeCredits(s, Snap(), sems, log, proc, sem);
      log := log + [Took(proc, sem)];
    }

    /** One unit goes to the semaphore, in the books from the process if it held one. */
    method SemPost(proc: int, sem: MateSem) returns (signal: bool)
      requires InStepNow() && sem in sems && proc in procs
      modifies this`available, this`allocation, this`log, sem`sem
      ensures InStepNow()
      ensures sem.sem == old(sem.sem) + 1
      ensures signal <==> sem.waiting != [] && old(sem.sem) == 0
      ensures Moved(old(allocation), proc, sem, if Held(old(log), proc, sem) > 0 then -1 else 0)
      ensures log == old(log) + [Gave(proc, sem)]
    {
      ghost var c, q := Counters(), Queues();
      signal := sem.Post();
      assert Queues() == q;
      BookRelease(proc, sem, c, q);
    }

    // The semaphore's counter has gained a unit from proc; the books follow.
    method BookRelease(proc: int, sem: MateSem, ghost c: seq<int>, ghost q: seq<seq<int>>)
      requires Valid() && sem in sems && proc in procs && InStep(Snap(), c, q) && Credited(Snap(), sems, log)
      requires Queues() == q
      requires forall j :: 0 <= j < |sems| ==> Counters()[j] == if sems[j] == sem then c[j] + 1 else c[j]
      modifies this`available, this`allocation, this`log
      ensures InStepNow() && log == old(log) + [Gave(proc, sem)]
      ensures Moved(old(allocation), proc, sem, if Held(old(log), proc, sem) > 0 then -1 else 0)
    {
      ghost var s := Snap();
      ghost var i, j := DDSemRelease(proc, sem);
      assert Counters()[j] == c[j] + 1;
      PostInStep(s, c, q, i, j);
      assert Counters() == c[j := c[j] + 1];
      LogGiven(s, proc, sem, i, j);
    }

    // One unit less is booked to a process, if it held one.
    ghost method LogGiven(s: Snapshot, proc: int, sem: MateSem, i: nat, j: nat)
      requires Valid() && s.Valid() && Snap().procs == s.procs && Credited(s, sems, log)
      requires i < |procs| && procs[i] == proc && j < |sems| && sems[j] == sem
      requires allocation ==
        if s.allocation[i][j] != 0 then SetCell(s.allocation, i, j, s.allocation[i][j] - 1) else s.allocation
      modifies this`log
      ensures log == old(log) + [Gave(proc, sem)] && Credited(Snap(), sems, log)
      ensures Moved(s.allocation, proc, sem, if Held(old(log), proc, sem) > 0 then -1 else 0)
    {
      assert OneCell(s, Snap(), sems, proc, sem, if Held(log, proc, sem) > 0 then -1 else 0);
      GiveCredits(s, Snap(), sems, log, proc, sem);
      log := log + [Gave(proc, sem)];
    }

    /** The semaphore's thread admits the first waiter as soon as there is a unit, which goes to it, in the books too. */
    method SemAdmit(sem: MateSem) returns (proc: int)
      requires InStepNow() && sem in sems && sem.waiting != [] && sem.sem != 0
      modifies this`available, this`allocation, this`request, this`log, sem
      ensures InStepNow() && !Waiting(Queues(), proc)
      ensures proc == old(sem.waiting)[0] && sem.waiting == old(sem.waiting)[1..] && sem.sem == old(sem.sem) - 1
      ensures Moved(old(allocation), proc, sem, 1) && log == old(log) + [Took(proc, sem)]
    {
      ghost var c, q := Counters(), Queues();
      ghost var k := FindSemGhost(sem);
      assert q[k] == sem.waiting && c[k] == sem.sem;
      proc := sem.Admit();
      BookAdmitted(proc, sem, c, q, k);
    }

    // The semaphore has let the head of its queue through; the books follow.
    method BookAdmitted(proc: int, sem: MateSem, ghost c: seq<int>, ghost q: seq<seq<int>>, ghost k: nat)
      requires Valid() && InStep(Snap(), c, q) && Credited(Snap(), sems, log) && k < |sems| && sems[k] == sem
      requires q[k] != [] && q[k][0] == proc && c[k] >= 1
      requires forall j :: 0 <= j < |sems| ==> Counters()[j] == if sems[j] == sem then c[j] - 1 else c[j]
      requires forall j :: 0 <= j < |sems| ==> Queues()[j] == if sems[j] == sem then q[j][1..] else q[j]
      modifies this`available, this`allocation, this`request, this`log
      ensures InStepNow() && !Waiting(Queues(), proc)
      ensures Moved(old(allocation), proc, sem, 1) && log == old(log) + [Took(proc, sem)]
    {
      ghost var s := Snap();
      ghost var i, j := BookTransfer(proc, sem, c, q, k);
      LogTaken(s, proc, sem, i, j);
    }

    // The unit goes from the semaphore to the process it has let through.
    method BookTransfer(proc: int, sem: MateSem, ghost c: seq<int>, ghost q: seq<seq<int>>, ghost k: nat)
      returns (ghost i: nat, ghost j: nat)
      requires Valid() && InStep(Snap(), c, q) && k < |sems| && sems[k] == sem
      requires q[k] != [] && q[k][0] == proc && c[k] >= 1
      requires forall j :: 0 <= j < |sems| ==> Counters()[j] == if sems[j] == sem then c[j] - 1 else c[j]
      requires forall j :: 0 <= j < |sems| ==> Queues()[j] == if sems[j] == sem then q[j][1..] else q[j]
      modifies this`available, this`allocation, this`request
      ensures Valid() && InStep(Snap(), Counters(), Queues()) && !Waiting(Queues(), proc)
      ensures i < |procs| && procs[i] == proc && j < |sems| && sems[j] == sem
      ensures allocation == SetCell(old(allocation), i, j, old(allocation)[i][j] + 1)
    {
      ghost var s := Snap();
      assert QueueOk(s, q[k], k) && proc in q[k];
      i, j := DDSemAllocated(proc, sem);
      AdmitInStep(s, c, q, i, j);
      assert Counters() == c[j := c[j] - 1] && Queues() == q[j := q[j][1..]];
    }

    ghost function FindSemGhost(sem: MateSem): (j: nat)
      reads this
      requires sem in sems
      ensures j < |sems| && sems[j] == sem
    {
      var j :| 0 <= j < |sems| && sems[j] == sem; j
    }

    method SemDestroy(sem: MateSem)
      requires InStepNow() && sem in sems && sem.waiting == []
      modifies this`sems, this`available, this`allocation, this`request
      ensures InStepNow() && sem !in sems && log == old(log)
      ensures exists j: nat :: FirstAt(old(sems), sem, j) && sems == DropAt(old(sems), j) && Snap() == SemDropped(old(Snap()), j)
    {
      ghost var s, c, q, list := Snap(), Counters(), Queues(), sems;
      ghost var j := DDSemDestroy(sem);
      DropSemInStep(s, c, q, j);
      DropSemCredits(s, j, list, log);
      assert FirstAt(list, sem, j);
      OneSemLess(list, c, q, j);
    }

    // The counters and queues of the semaphores without number j.
    lemma OneSemLess(list: seq<MateSem>, c: seq<int>, q: seq<seq<int>>, j: nat)
      requires j < |list| == |c| == |q| && sems == DropAt(list, j)
      requires forall k :: 0 <= k < |list| ==> c[k] == list[k].sem && q[k] == list[k].waiting
      ensures Counters() == DropAt(c, j) && Queues() == DropAt(q, j)
    {
    }

    method ProcInit(proc: int)
      requires InStepNow() && proc !in procs
      modifies this`procs, this`allocation, this`request
      ensures InStepNow() && procs == old(procs) + [proc] && log == old(log)
    {
      ghost var s, c, q := Snap(), Counters(), Queues();
      DDProcInit(proc);
      AddProcInStep(s, c, q, proc);
      AddProcCredits(s, proc, sems, log);
      assert Counters() == c && Queues() == q;
    }

    // A process ends from the running state, so it waits nowhere.
    method ProcTerm(proc: int)
      requires InStepNow() && proc in procs && !Waiting(Queues(), proc)
      modifies this`procs, this`allocation, this`request, this`log
      ensures InStepNow() && proc !in procs && log == old(log) + [Gone(proc)]
      ensures exists i: nat :: FirstAt(old(procs), proc, i) && Snap() == ProcDropped(old(Snap()), i)
    {
      ghost var s, c, q := Snap(), Counters(), Queues();
      ghost var i := DDProcTerm(proc);
      DropProcInStep(s, c, q, i);
      GoneCredits(s, Snap(), i, sems, log);
      assert FirstAt(s.procs, proc, i);
      log := log + [Gone(proc)];
      assert Counters() == c && Queues() == q;
    }

    // ----- the reduction

    method HoldsNothing(i: nat) returns (nothing: bool)
      requires Valid() && i < |procs|
      ensures nothing <==> !Holds(Snap(), i)
    {
      nothing := true;
      var j := 0;
      while j < |available|
        invariant 0 <= j <= |available|
        invariant nothing
        invariant forall k :: 0 <= k < j ==> allocation[i][k] == 0
      {
        if allocation[i][j] != 0 {
          nothing := false;
          assert Snap().allocation[i][j] != 0;
          break;
        }
        j := j + 1;
      }
    }

    method AsksForMore(i: nat, work: array<int>) returns (more: bool)
      requires Valid() && i < |procs| && work.Length == |available|
      ensures more <==> exists j :: 0 <= j < |available| && request[i][j] > work[j]
    {
      more := false;
      var j := 0;
      while j < |available|
        invariant 0 <= j <= |available|
        invariant !more
        invariant forall k :: 0 <= k < j ==> request[i][k] <= work[k]
      {
        if request[i][j] > work[j] {
          more := true;
          break;
        }
        j := j + 1;
      }
    }

    // A process completes: its units go to work, its flag is set.
    method Complete(i: nat, work: array<int>, finish: array<bool>)
      requires Valid() && i < |procs| && work.Length == |available| && finish.Length == |procs|
      requires Holds(Snap(), i)
      modifies work, finish
      ensures work[..] == AddRow(old(work[..]), allocation[i])
      ensures finish[..] == old(finish[..])[i := true]
    {
      for j := 0 to |available|
        invariant forall k :: 0 <= k < j ==> work[k] == old(work[k]) + allocation[i][k]
        invariant forall k :: j <= k < |available| ==> work[k] == old(work[k])
        invariant finish[..] == if j == 0 then old(finish[..]) else old(finish[..])[i := true]
      {
        work[j] := work[j] + allocation[i][j];
        finish[i] := true;
      }
      assert |available| > 0;
    }

    /** The flag of a process ends unset exactly when the process is deadlocked. */
    method Reduce() returns (finish: array<bool>)
      requires Valid()
      ensures fresh(finish) && finish.Length == |procs|
      ensures forall i :: 0 <= i < |procs| ==> (!finish[i] <==> Deadlocked(Snap(), i))
    {
      ghost var s := Snap();
      var n := |procs|;
      var work := new int[|available|](j requires 0 <= j < |available| reads this => available[j]);
      finish := new bool[n];
      assert work[..] == available;
      for i := 0 to n
        invariant work[..] == s.available
        invariant forall k :: 0 <= k < i ==> (finish[k] <==> !Holds(s, k))
      {
        finish[i] := HoldsNothing(i);
      }
      ReduceStart(s, finish[..]);
      ghost var order: seq<nat> := [];
      for ii := 0 to n
        invariant ReduceState(s, order, finish[..], work[..])
        invariant Fixpoint(s, order) || |order| >= ii
      {
        order := Pass(s, order, work, finish);
      }
      if |order| >= n {
        ManyIsFixpoint(s, order);
      }
      forall i | 0 <= i < n ensures !finish[i] <==> Deadlocked(s, i) {
        FixpointIsExact(s, order, finish[..], work[..], i);
      }
    }

    // One pass over the processes: it makes progress unless nothing is left to do.
    method Pass(ghost s: Snapshot, ghost order: seq<nat>, work: array<int>, finish: array<bool>)
      returns (ghost order': seq<nat>)
      requires Valid() && s == Snap() && work.Length == |available| && finish.Length == |procs|
      requires ReduceState(s, order, finish[..], work[..])
      modifies work, finish
      ensures ReduceState(s, order', finish[..], work[..])
      ensures Fixpoint(s, order') || |order'| > |order|
      ensures Fixpoint(s, order) ==> order' == order
    {
      order' := order;
      for i := 0 to |procs|
        invariant ReduceState(s, order', finish[..], work[..])
        invariant |order'| > |order| || (order' == order && FixpointBelow(s, order, i))
        invariant Fixpoint(s, order) ==> order' == order
      {
        order' := Visit(s, order', work, finish, i);
        assert order' == order ==> FixpointBelow(s, order, i + 1);
      }
    }

    // A process that holds something, is not done and can be satisfied.
    ghost predicate Next(s: Snapshot, order: seq<nat>, i: nat)
      requires s.Valid() && i < |s.procs| && forall k :: 0 <= k < |order| ==> order[k] < |s.procs|
    {
      Holds(s, i) && i !in order && Satisfiable(s, Elems(order), i)
    }

    // What a pass does with one process.
    method Visit(ghost s: Snapshot, ghost order: seq<nat>, work: array<int>, finish: array<bool>, i: nat)
      returns (ghost order': seq<nat>)
      requires Valid() && s == Snap() && work.Length == |available| && finish.Length == |procs| && i < |procs|
      requires ReduceState(s, order, finish[..], work[..])
      modifies work, finish
      ensures ReduceState(s, order', finish[..], work[..])
      ensures order' == if Next(s, order, i) then order + [i] else order
    {
      order' := order;
      var more := AsksForMore(i, work);
      if !finish[i] && !more {
        assert Satisfiable(s, Elems(order), i);
        ReduceStep(s, order, finish[..], work[..], i);
        Complete(i, work, finish);
        order' := order + [i];
      } else if !finish[i] {
        assert !Satisfiable(s, Elems(order), i) by {
          var j :| 0 <= j < |available| && request[i][j] > work[j];
          assert work[..][j] == Work(s, Elems(order), j);
        }
      }
    }

    // ----- the search for a circular wait

    /**
     In any state a positive answer is a real chain of requests and holders from
     i to base.  Under the discipline the answer is exact.
     */
    method IsInCircularWait(i: nat, base: nat) returns (found: bool)
      requires Valid() && i < |procs| && base < |procs|
      modifies this`seen
      ensures forall p :: p in old(seen) ==> p in seen
      ensures found ==> HoldReach(Snap(), i, base)
      ensures Disciplined(Snap()) && SeenClosed(Snap(), old(seen), i, base) ==> (found <==> Leads(Snap(), i, base))
      decreases Unseen(procs, seen), 4
    {
      found := Search(i, base, Disciplined(Snap()) && SeenClosed(Snap(), seen, i, base));
    }

    // The semaphores that a process requests, one after the other.
    method Search(i: nat, base: nat, ghost exact: bool) returns (found: bool)
      requires Valid() && i < |procs| && base < |procs|
      requires exact ==> Disciplined(Snap()) && SeenClosed(Snap(), seen, i, base)
      modifies this`seen
      ensures forall p :: p in old(seen) ==> p in seen
      ensures found ==> HoldReach(Snap(), i, base)
      ensures exact ==> (found <==> Leads(Snap(), i, base))
      decreases Unseen(procs, seen), 3
    {
      ghost var s := Snap();
      ghost var hit := NoHit;
      found := false;
      for j := 0 to |available|
        invariant s == Snap() && Valid()
        invariant forall p :: p in old(seen) ==> p in seen
        invariant found ==> HoldReach(s, i, base)
        invariant exact ==> Scanned(s, i, base, hit, found, j, 0) && (hit == NoHit ==> seen == old(seen))
      {
        UnseenDrops(procs, old(seen), seen);
        var stop;
        found, stop, hit := VisitColumn(i, j, base, found, hit, old(seen), exact);
        if stop {
          return found;
        }
      }
      if exact {
        ScanEnd(s, i, base, hit, found);
      }
    }

    // One semaphore, whether the process requests it or not.
    method VisitColumn(i: nat, j: nat, base: nat, already: bool, ghost hit0: Hit, ghost seen0: seq<int>, ghost exact: bool)
      returns (found: bool, stop: bool, ghost hit: Hit)
      requires Valid() && i < |procs| && base < |procs| && j < |available|
      requires already ==> HoldReach(Snap(), i, base)
      requires exact ==> Disciplined(Snap()) && SeenClosed(Snap(), seen0, i, base)
      requires exact ==> Scanned(Snap(), i, base, hit0, already, j, 0) && (hit0 == NoHit ==> seen == seen0)
      modifies this`seen
      ensures forall p :: p in old(seen) ==> p in seen
      ensures found ==> HoldReach(Snap(), i, base)
      ensures exact && stop ==> (found <==> Leads(Snap(), i, base))
      ensures exact && !stop ==> Scanned(Snap(), i, base, hit, found, j + 1, 0) && (hit == NoHit ==> seen == seen0)
      decreases Unseen(procs, seen), 2
    {
      found, stop, hit := already, false, hit0;
      if request[i][j] != 0 {
        found, stop, hit := ScanColumn(i, j, base, already, hit0, seen0, exact);
      }
      if exact && !stop {
        ScanOn(Snap(), i, base, hit, found, j, if request[i][j] != 0 then |procs| else 0, j + 1, 0);
      }
    }

    // The holders of the semaphore that a process requests.
    method ScanColumn(i: nat, j: nat, base: nat, already: bool, ghost hit0: Hit, ghost seen0: seq<int>, ghost exact: bool)
      returns (found: bool, stop: bool, ghost hit: Hit)
      requires Valid() && i < |procs| && base < |procs| && j < |available| && request[i][j] != 0
      requires already ==> HoldReach(Snap(), i, base)
      requires exact ==> Disciplined(Snap()) && SeenClosed(Snap(), seen0, i, base)
      requires exact ==> Scanned(Snap(), i, base, hit0, already, j, 0) && (hit0 == NoHit ==> seen == seen0)
      modifies this`seen
      ensures forall p :: p in old(seen) ==> p in seen
      ensures found ==> HoldReach(Snap(), i, base)
      ensures exact && stop ==> (found <==> Leads(Snap(), i, base))
      ensures exact && !stop ==> Scanned(Snap(), i, base, hit, found, j, |procs|) && (hit == NoHit ==> seen == seen0)
      decreases Unseen(procs, seen), 1
    {
      ghost var s := Snap();
      found, stop, hit := already, false, hit0;
      for next := 0 to |procs|
        invariant s == Snap() && Valid() && !stop
        invariant forall p :: p in old(seen) ==> p in seen
        invariant found ==> HoldReach(s, i, base)
        invariant exact ==> Scanned(s, i, base, hit, found, j, next) && (hit == NoHit ==> seen == seen0)
      {
        if allocation[next][j] != 0 {
          assert WaitsThrough(s, i, next, j, false);
          if exact {
            ScanMeets(s, i, base, hit, found, j, next);
          }
          UnseenDrops(procs, old(seen), seen);
          found, stop := Follow(i, next, base, found);
          if stop {
            return;
          }
          hit := HitAt(next, j);
        } else if exact {
          ScanOn(s, i, base, hit, found, j, next, j, next + 1);
        }
      }
    }

    // What the search does with one edge: stop, or go on from the holder unless it has already succeeded.
    method Follow(i: nat, next: nat, base: nat, already: bool) returns (found: bool, stop: bool)
      requires Valid() && base < |procs| && Waits(Snap(), i, next, false)
      requires already ==> HoldReach(Snap(), i, base)
      modifies this`seen
      ensures forall p :: p in old(seen) ==> p in seen
      ensures found ==> HoldReach(Snap(), i, base)
      ensures !already && Disciplined(Snap()) && SeenClosed(Snap(), old(seen), i, base) ==>
        (found <==> Leads(Snap(), i, base))
      decreases Unseen(procs, seen), 0
    {
      ghost var s := Snap();
      ghost var exact := Disciplined(s) && SeenClosed(s, seen, i, base);
      if exact {
        LeadsVia(s, i, next, base);
      }
      if next == base {
        HoldStep(s, i, next, base);
        return true, true;
      }
      if procs[next] in seen {
        if exact {
          SeenIsDeadEnd(s, seen, i, next, base);
        }
        return false, true;
      }
      if exact {
        SeenGrows(s, seen, i, next, base);
      }
      UnseenDrops(procs, seen, seen + [procs[next]]);
      seen := seen + [procs[next]];
      found, stop := already, false;
      if !already {
        found := IsInCircularWait(next, base);
        if found {
          HoldStep(s, i, next, base);
        }
      }
    }

    // ----- the kill

    // The victim stops waiting in column j and gives back its units of it.
    method ReleaseColumn(i: nat, j: nat)
      requires Valid() && i < |procs| && j < |available|
      modifies this`available, this`allocation, this`request, sems[j]
      ensures available == old(available)[j := old(available)[j] + old(allocation)[i][j]]
      ensures allocation == SetCell(old(allocation), i, j, 0)
      ensures request == SetCell(old(request), i, j, 0)
      ensures sems[j].sem == old(sems[j].sem) + old(allocation)[i][j]
      ensures sems[j].waiting == Left(old(sems[j].waiting), procs[i], old(request)[i][j] != 0)
    {
      SetCellAgain(request, i, j, 0, 0);
      SetCellAgain(allocation, i, j, 0, 0);
      if request[i][j] != 0 {
        sems[j].RemoveBy(procs[i]);
        request := SetCell(request, i, j, 0);
      }
      ghost var a := allocation;
      while allocation[i][j] != 0
        invariant request == SetCell(old(request), i, j, 0)
        invariant |allocation| == |a| && |allocation[i]| == |a[i]| && allocation[i][j] >= 0
        invariant allocation == SetCell(a, i, j, allocation[i][j])
        invariant available == old(available)[j := old(available)[j] + a[i][j] - allocation[i][j]]
        invariant sems[j].sem == old(sems[j].sem) + a[i][j] - allocation[i][j]
        invariant sems[j].waiting == Left(old(sems[j].waiting), procs[i], old(request)[i][j] != 0)
        decreases allocation[i][j]
      {
        var _ := sems[j].Post();
        SetCellAgain(a, i, j, allocation[i][j], allocation[i][j] - 1);
        allocation := SetCell(allocation, i, j, allocation[i][j] - 1);
        available := available[j := available[j] + 1];
      }
    }

    // What the victim's departure does to a semaphore's counter and queue.
    ghost predicate Released(s: Snapshot, i: nat, j: nat, sem0: int, waiting0: seq<int>, sem: int, waiting: seq<int>)
      requires s.Valid() && i < |s.procs| && j < |s.available|
    {
      sem == sem0 + s.allocation[i][j] && waiting == Left(waiting0, s.procs[i], s.request[i][j] != 0)
    }

    method ReleaseNext(ghost s: Snapshot, i: nat, j: nat)
      requires Valid() && s.Valid() && i < |s.procs| && j < |s.available| && Snap() == PartKill(s, i, j)
      modifies this`available, this`allocation, this`request, sems[j]
      ensures Valid() && Snap() == PartKill(s, i, j + 1)
      ensures Released(s, i, j, old(sems[j].sem), old(sems[j].waiting), sems[j].sem, sems[j].waiting)
    {
      PartKillStep(s, i, j);
      ReleaseColumn(i, j);
      PartKillValid(s, i, j + 1);
    }

    // The victim's semaphores, one after the other.
    method ReleaseAll(ghost s: Snapshot, i: nat)
      requires Valid() && s == Snap() && i < |procs|
      modifies this`available, this`allocation, this`request, sems
      ensures Valid() && Snap() == PartKill(s, i, |s.available|)
      ensures forall j :: 0 <= j < |sems| ==>
        Released(s, i, j, old(sems[j].sem), old(sems[j].waiting), sems[j].sem, sems[j].waiting)
    {
      PartKillStart(s, i);
      for j := 0 to |available|
        invariant Valid() && Snap() == PartKill(s, i, j)
        invariant forall k :: 0 <= k < j ==>
          Released(s, i, k, old(sems[k].sem), old(sems[k].waiting), sems[k].sem, sems[k].waiting)
        invariant forall k :: j <= k < |sems| ==> sems[k].sem == old(sems[k].sem) && sems[k].waiting == old(sems[k].waiting)
      {
        ReleaseNext(s, i, j);
      }
    }

    method KillProcess(i: nat)
      requires Valid() && i < |procs|
      modifies this`procs, this`available, this`allocation, this`request, sems
      ensures Valid()
      ensures Snap() == Kill(old(Snap()), i)
      ensures forall j :: 0 <= j < |sems| ==>
        && sems[j].sem == old(sems[j].sem) + old(allocation[i][j])
        && sems[j].waiting == Left(old(sems[j].waiting), old(procs[i]), old(request[i][j]) != 0)
    {
      ghost var s := Snap();
      ReleaseAll(s, i);
      PartKillEnd(s, i);
      KillKeepsValid(s, i);
      procs := DropAt(procs, i);
      allocation := DropAt(allocation, i);
      request := DropAt(request, i);
    }

    method KillInBooks(i: nat)
      requires Valid() && i < |procs|
      modifies this`procs, this`available, this`allocation, this`request, this`log, sems
      ensures Valid() && Snap() == Kill(old(Snap()), i) && log == old(log) + [Gone(old(procs)[i])]
      ensures old(InStepNow()) ==> InStepNow()
    {
      ghost var s, c, q := Snap(), Counters(), Queues();
      KillProcess(i);
      if InStep(s, c, q) {
        KillInStep(s, c, q, i, Counters(), Queues());
      }
      if Credited(s, sems, log) {
        GoneCredits(s, Snap(), i, sems, log);
      }
      log := log + [Gone(s.procs[i])];
    }

    // ----- detection and resolution

    // A search from a process to itself, with nothing seen before or after.
    method WaitsForItself(i: nat) returns (circular: bool)
      requires Valid() && seen == [] && Deadlocked(Snap(), i)
      modifies this`seen
      ensures seen == []
      ensures circular ==> HoldReach(Snap(), i, i)
      ensures Disciplined(Snap()) ==> (circular <==> IsOnCycle(Snap(), i))
    {
      if Disciplined(Snap()) {
        LeadsToItself(Snap(), i);
      }
      circular := IsInCircularWait(i, i);
      seen := [];
    }

    /** Who is in a circular wait, among the processes the reduction left unfinished. */
    method CircularWaits(finish: array<bool>) returns (isDeadlock: bool, inCircularWait: seq<nat>)
      requires Valid() && finish.Length == |procs|
      requires forall i :: 0 <= i < |procs| ==> (!finish[i] <==> Deadlocked(Snap(), i))
      modifies this`seen
      ensures isDeadlock <==> IsDeadlock(Snap())
      ensures Candidates(Snap(), inCircularWait, |procs|, Disciplined(Snap()))
    {
      ghost var s := Snap();
      ghost var exact := Disciplined(s);
      isDeadlock, inCircularWait, seen := false, [], [];
      for i := 0 to |procs|
        invariant s == Snap() && Valid() && seen == []
        invariant isDeadlock <==> exists k: nat :: k < i && Deadlocked(s, k)
        invariant Candidates(s, inCircularWait, i, exact)
      {
        if !finish[i] {
          isDeadlock := true;
          var circular := WaitsForItself(i);
          MoreCandidates(s, inCircularWait, i, circular, exact);
          if circular {
            inCircularWait := inCircularWait + [i];
          }
        } else {
          if exact {
            OnlyDeadlockedOnCycle(s, i);
          }
          MoreCandidates(s, inCircularWait, i, false, exact);
        }
      }
    }

    method BiggestPid(candidates: seq<nat>) returns (locked: nat)
      requires candidates != [] && forall i :: i in candidates ==> i < |procs|
      ensures locked in candidates
      ensures forall i :: i in candidates ==> procs[i] <= procs[locked]
    {
      locked := candidates[0];
      for k := 1 to |candidates|
        invariant locked in candidates && forall l :: 0 <= l < |candidates| ==> candidates[l] in candidates
        invariant forall l :: 0 <= l < k ==> procs[candidates[l]] <= procs[locked]
      {
        if !(procs[locked] > procs[candidates[k]]) {
          locked := candidates[k];
        }
      }
    }

    // The reduction, then the search for processes in a circular wait.
    method Suspects() returns (isDeadlock: bool, inCircularWait: seq<nat>)
      requires Valid()
      modifies this`seen
      ensures isDeadlock <==> IsDeadlock(Snap())
      ensures Candidates(Snap(), inCircularWait, |procs|, Disciplined(Snap()))
    {
      var finish := Reduce();
      isDeadlock, inCircularWait := CircularWaits(finish);
    }

    // The biggest pid among them is the one a round kills.
    method ChooseVictim(inCircularWait: seq<nat>) returns (locked: nat)
      requires Valid() && inCircularWait != [] && Candidates(Snap(), inCircularWait, |procs|, Disciplined(Snap()))
      ensures locked < |procs| && Round(Snap(), true, [procs[locked]], Kill(Snap(), locked))
    {
      locked := BiggestPid(inCircularWait);
      RoundKill(Snap(), inCircularWait, locked);
    }

    /**
     One round of the resolver: reports whether there is a deadlock and kills the
     biggest pid found in a circular wait, if any.  The ghost result names the victim.
     */
    method FindDeadlocks() returns (again: bool, ghost victim: seq<int>)
      requires Valid()
      modifies this, sems
      ensures Valid() && sems == old(sems)
      ensures Round(old(Snap()), again, victim, Snap())
      ensures log == if victim == [] then old(log) else old(log) + [Gone(victim[0])]
      ensures old(InStepNow()) ==> InStepNow()
    {
      ghost var s := Snap();
      var isDeadlock, inCircularWait := Suspects();
      CandidatesAreDeadlocked(s, inCircularWait);
      if !isDeadlock || inCircularWait == [] {
        RoundIdle(s);
        return isDeadlock, [];
      }
      again := true;
      victim := KillVictim(inCircularWait);
    }

    method KillVictim(inCircularWait: seq<nat>) returns (ghost victim: seq<int>)
      requires Valid() && inCircularWait != [] && Candidates(Snap(), inCircularWait, |procs|, Disciplined(Snap()))
      modifies this, sems
      ensures Valid() && sems == old(sems) && Round(old(Snap()), true, victim, Snap())
      ensures |victim| == 1 && log == old(log) + [Gone(victim[0])]
      ensures old(InStepNow()) ==> InStepNow()
    {
      var locked := ChooseVictim(inCircularWait);
      victim := [procs[locked]];
      KillInBooks(locked);
    }

    /**
     The detector thread's loop.  When no process is stuck it ends, without a
     deadlock, having killed processes on cycles only and always the biggest pid.
     */
    method ResolveDeadlocks() returns (ghost killed: seq<int>)
      requires Valid() && Disciplined(Snap()) && NoneStuck(Snap())
      modifies this, sems
      ensures Valid() && !IsDeadlock(Snap())
      ensures Snap() == KillAll(old(Snap()), killed)
      ensures Resolved(old(Snap()), killed) && BiggestFirst(WaitGraphOf(old(Snap())), killed)
      ensures old(InStepNow()) ==> InStepNow()
    {
      ghost var s := Snap();
      killed := [];
      while true
        invariant Valid() && sems == old(sems) && RoundsOf(s, killed, Snap())
        invariant old(InStepNow()) ==> InStepNow()
        decreases |procs|
      {
        ghost var before := Snap();
        RoundsAreDisciplined(s, killed, before);
        var again;
        ghost var victim;
        again, victim := FindDeadlocks();
        if !again {
          return;
        }
        OneMoreRound(s, killed, before, victim, Snap());
        killed := killed + victim;
      }
    }
  }
}
