/** The detector's books against the semaphores themselves. */
module SemBooks {
  import opened Queues
  import opened Matrices
  import opened WaitFor
  import opened Kills

  // The updates of the matrices as functions, and the relation the detector must
  // keep with the counters and waiting queues of the real semaphores: a unit is
  // available exactly when the counter has it, and a request is on the books
  // exactly while its process is in the queue.

  // ----- the updates

  // sem_wait goes straight through
  function TakenAtOnce(s: Snapshot, i: nat, j: nat): Snapshot
    requires i < |s.allocation| && j < |s.available| && j < |s.allocation[i]|
  {
    s.(available := s.available[j := s.available[j] - 1],
       allocation := SetCell(s.allocation, i, j, s.allocation[i][j] + 1))
  }

  // a waiting process is let through
  function TakenAfterWait(s: Snapshot, i: nat, j: nat): Snapshot
    requires i < |s.allocation| && i < |s.request| && j < |s.available|
    requires j < |s.allocation[i]| && j < |s.request[i]|
  {
    TakenAtOnce(s, i, j).(request := SetCell(s.request, i, j, s.request[i][j] - 1))
  }

  function Requested(s: Snapshot, i: nat, j: nat): Snapshot
    requires i < |s.request| && j < |s.request[i]|
  {
    s.(request := SetCell(s.request, i, j, s.request[i][j] + 1))
  }

  function Posted(s: Snapshot, i: nat, j: nat): Snapshot
    requires i < |s.allocation| && j < |s.available| && j < |s.allocation[i]|
  {
    s.(available := s.available[j := s.available[j] + 1],
       allocation := if s.allocation[i][j] != 0 then SetCell(s.allocation, i, j, s.allocation[i][j] - 1) else s.allocation)
  }

  function AddColumn(m: seq<seq<int>>): (r: seq<seq<int>>)
    ensures |r| == |m| && forall i :: 0 <= i < |m| ==> r[i] == m[i] + [0]
  {
    seq(|m|, i requires 0 <= i < |m| => m[i] + [0])
  }

  function DropColumn(m: seq<seq<int>>, j: nat): (r: seq<seq<int>>)
    requires forall i :: 0 <= i < |m| ==> j < |m[i]|
    ensures |r| == |m| && forall i :: 0 <= i < |m| ==> r[i] == DropAt(m[i], j)
  {
    seq(|m|, i requires 0 <= i < |m| => DropAt(m[i], j))
  }

  function SemAdded(s: Snapshot, v: int): Snapshot {
    Snapshot(s.procs, s.available + [v], AddColumn(s.allocation), AddColumn(s.request))
  }

  ghost function SemDropped(s: Snapshot, j: nat): Snapshot
    requires s.Valid() && j < |s.available|
  {
    Snapshot(s.procs, DropAt(s.available, j), DropColumn(s.allocation, j), DropColumn(s.request, j))
  }

  function Zeros(m: nat): (r: seq<int>)
    ensures |r| == m && forall j :: 0 <= j < m ==> r[j] == 0
  {
    seq(m, _ => 0)
  }

  function ProcAdded(s: Snapshot, p: int): Snapshot {
    Snapshot(s.procs + [p], s.available, s.allocation + [Zeros(|s.available|)], s.request + [Zeros(|s.available|)])
  }

  // A process that ends keeps what it holds: the units are not given back.
  ghost function ProcDropped(s: Snapshot, i: nat): Snapshot
    requires s.Valid() && i < |s.procs|
  {
    Snapshot(DropAt(s.procs, i), s.available, DropAt(s.allocation, i), DropAt(s.request, i))
  }

  // ----- the books agree with the semaphores

  ghost predicate QueueOk(s: Snapshot, q: seq<int>, j: nat)
    requires s.Valid() && j < |s.available|
  {
    && NoTwice(q)
    && (forall p :: p in q ==> p in s.procs)
    && (forall i :: 0 <= i < |s.procs| ==> s.request[i][j] == if s.procs[i] in q then 1 else 0)
  }

  ghost predicate InStep(s: Snapshot, counters: seq<int>, queues: seq<seq<int>>) {
    && s.Valid()
    && counters == s.available && |queues| == |s.available|
    && (forall j :: 0 <= j < |queues| ==> QueueOk(s, queues[j], j))
    && QueuesDisjoint(queues)
  }

  ghost predicate QueuesDisjoint(queues: seq<seq<int>>) {
    forall j, k, p | 0 <= j < |queues| && 0 <= k < |queues| && p in queues[j] && p in queues[k] :: j == k
  }

  lemma OneQueue(queues: seq<seq<int>>, j: nat, k: nat, p: int)
    requires QueuesDisjoint(queues) && j < |queues| && k < |queues| && p in queues[j] && p in queues[k]
    ensures j == k
  {
  }

  ghost predicate Waiting(queues: seq<seq<int>>, p: int) {
    exists j :: 0 <= j < |queues| && p in queues[j]
  }

  /** Books in step never show a process with two requests. */
  lemma InStepSingleRequest(s: Snapshot, counters: seq<int>, queues: seq<seq<int>>)
    requires InStep(s, counters, queues)
    ensures SingleRequest(s)
  {
    forall i, j, k | 0 <= i < |s.procs| && 0 <= j < |s.available| && 0 <= k < |s.available|
      ensures s.request[i][j] != 0 && s.request[i][k] != 0 ==> j == k
    {
      assert QueueOk(s, queues[j], j) && QueueOk(s, queues[k], k);
      if s.request[i][j] != 0 && s.request[i][k] != 0 {
        OneQueue(queues, j, k, s.procs[i]);
      }
    }
    forall i, j | 0 <= i < |s.procs| && 0 <= j < |s.available| ensures s.request[i][j] <= 1 {
      assert QueueOk(s, queues[j], j);
    }
  }

  lemma RequestInStep(s: Snapshot, c: seq<int>, q: seq<seq<int>>, i: nat, j: nat)
    requires InStep(s, c, q) && i < |s.procs| && j < |q| && !Waiting(q, s.procs[i])
    ensures InStep(Requested(s, i, j), c, q[j := q[j] + [s.procs[i]]])
  {
    var t, r := Requested(s, i, j), q[j := q[j] + [s.procs[i]]];
    assert QueueOk(s, q[j], j);
    forall k | 0 <= k < |r| ensures QueueOk(t, r[k], k) {
      assert QueueOk(s, q[k], k);
    }
  }

  lemma TakeAtOnceInStep(s: Snapshot, c: seq<int>, q: seq<seq<int>>, i: nat, j: nat)
    requires InStep(s, c, q) && i < |s.procs| && j < |q| && c[j] >= 1
    ensures InStep(TakenAtOnce(s, i, j), c[j := c[j] - 1], q)
  {
    var t := TakenAtOnce(s, i, j);
    forall k | 0 <= k < |q| ensures QueueOk(t, q[k], k) {
      assert QueueOk(s, q[k], k);
    }
  }

  lemma AdmitInStep(s: Snapshot, c: seq<int>, q: seq<seq<int>>, i: nat, j: nat)
    requires InStep(s, c, q) && i < |s.procs| && j < |q| && c[j] >= 1 && q[j] != [] && q[j][0] == s.procs[i]
    ensures s.request[i][j] == 1
    ensures InStep(TakenAfterWait(s, i, j), c[j := c[j] - 1], q[j := q[j][1..]])
    ensures !Waiting(q[j := q[j][1..]], s.procs[i])
  {
    assert QueueOk(s, q[j], j);
    var t, r := TakenAfterWait(s, i, j), q[j := q[j][1..]];
    forall k | 0 <= k < |r| ensures QueueOk(t, r[k], k) {
      assert QueueOk(s, q[k], k);
    }
  }

  lemma PostInStep(s: Snapshot, c: seq<int>, q: seq<seq<int>>, i: nat, j: nat)
    requires InStep(s, c, q) && i < |s.procs| && j < |q|
    ensures InStep(Posted(s, i, j), c[j := c[j] + 1], q)
  {
    var t := Posted(s, i, j);
    forall k | 0 <= k < |q| ensures QueueOk(t, q[k], k) {
      assert QueueOk(s, q[k], k);
    }
  }

  lemma AddSemInStep(s: Snapshot, c: seq<int>, q: seq<seq<int>>, v: nat)
    requires InStep(s, c, q)
    ensures InStep(SemAdded(s, v), c + [v], q + [[]])
  {
    var t, r := SemAdded(s, v), q + [[]];
    forall k | 0 <= k < |r| ensures QueueOk(t, r[k], k) {
      assert k < |q| ==> QueueOk(s, q[k], k);
    }
  }

  lemma DropSemInStep(s: Snapshot, c: seq<int>, q: seq<seq<int>>, j: nat)
    requires InStep(s, c, q) && j < |q| && q[j] == []
    ensures InStep(SemDropped(s, j), DropAt(c, j), DropAt(q, j))
  {
    var t, r := SemDropped(s, j), DropAt(q, j);
    forall k | 0 <= k < |r| ensures QueueOk(t, r[k], k) {
      assert QueueOk(s, q[if k < j then k else k + 1], if k < j then k else k + 1);
    }
  }

  lemma AddProcInStep(s: Snapshot, c: seq<int>, q: seq<seq<int>>, p: int)
    requires InStep(s, c, q) && p !in s.procs
    ensures InStep(ProcAdded(s, p), c, q)
  {
    var t := ProcAdded(s, p);
    forall k | 0 <= k < |q| ensures QueueOk(t, q[k], k) {
      assert QueueOk(s, q[k], k);
      assert p !in q[k];
    }
  }

  lemma DropProcInStep(s: Snapshot, c: seq<int>, q: seq<seq<int>>, i: nat)
    requires InStep(s, c, q) && i < |s.procs| && !Waiting(q, s.procs[i])
    ensures InStep(ProcDropped(s, i), c, q)
  {
    var t := ProcDropped(s, i);
    forall k | 0 <= k < |q| ensures QueueOk(t, q[k], k) {
      assert QueueOk(s, q[k], k);
      forall p | p in q[k] ensures p in t.procs {
        var l :| 0 <= l < |s.procs| && s.procs[l] == p;
        assert t.procs[if l < i then l else l - 1] == p;
      }
    }
  }

  // ----- who holds how many units

  // A process took a unit of a semaphore, posted one, or ended.
  datatype UnitEvent<S(==)> = Took(proc: int, sem: S) | Gave(proc: int, sem: S) | Gone(proc: int)

  // The units of a semaphore that a process took and did not give back since it came.
  function Held<S(==)>(log: seq<UnitEvent<S>>, proc: int, sem: S): nat {
    if log == [] then 0
    else
      var before, last := Held(log[..|log| - 1], proc, sem), log[|log| - 1];
      if last.proc != proc then before
      else if last.Gone? then 0
      else if last.sem != sem then before
      else if last.Took? then before + 1
      else if before > 0 then before - 1 else 0
  }

  lemma HeldAfter<S>(log: seq<UnitEvent<S>>, ev: UnitEvent<S>, proc: int, sem: S)
    ensures Held(log + [ev], proc, sem) ==
      var before := Held(log, proc, sem);
      if ev.proc != proc then before
      else if ev.Gone? then 0
      else if ev.sem != sem then before
      else if ev.Took? then before + 1
      else if before > 0 then before - 1 else 0
  {
    assert (log + [ev])[..|log|] == log;
  }

  lemma {:induction false} NeverTaken<S>(log: seq<UnitEvent<S>>, proc: int, sem: S)
    requires forall k :: 0 <= k < |log| && !log[k].Gone? ==> log[k].sem != sem
    ensures Held(log, proc, sem) == 0
    decreases |log|
  {
    if log != [] {
      NeverTaken(log[..|log| - 1], proc, sem);
    }
  }

  // The books show for every process and semaphore what the process holds; nobody else holds anything.
  ghost predicate Credited<S>(s: Snapshot, sems: seq<S>, log: seq<UnitEvent<S>>) {
    && s.Valid() && |sems| == |s.available|
    && (forall i, j :: 0 <= i < |s.procs| && 0 <= j < |sems| ==> s.allocation[i][j] == Held(log, s.procs[i], sems[j]))
    && (forall p, j :: p !in s.procs && 0 <= j < |sems| ==> Held(log, p, sems[j]) == 0)
  }

  // The cells of t are those of s, but for one row and column, where there are d more.
  ghost predicate OneCell<S>(s: Snapshot, t: Snapshot, sems: seq<S>, proc: int, sem: S, d: int) {
    && s.Valid() && t.Valid() && t.procs == s.procs && |sems| == |s.available| == |t.available|
    && forall i, j :: 0 <= i < |s.procs| && 0 <= j < |sems| ==>
         t.allocation[i][j] == s.allocation[i][j] + if s.procs[i] == proc && sems[j] == sem then d else 0
  }

  lemma TakeCredits<S>(s: Snapshot, t: Snapshot, sems: seq<S>, log: seq<UnitEvent<S>>, proc: int, sem: S)
    requires Credited(s, sems, log) && proc in s.procs && OneCell(s, t, sems, proc, sem, 1)
    ensures Credited(t, sems, log + [Took(proc, sem)])
  {
    forall p, j | 0 <= j < |sems| ensures Held(log + [Took(proc, sem)], p, sems[j]) ==
      Held(log, p, sems[j]) + if p == proc && sems[j] == sem then 1 else 0
    {
      HeldAfter(log, Took(proc, sem), p, sems[j]);
    }
  }

  lemma GiveCredits<S>(s: Snapshot, t: Snapshot, sems: seq<S>, log: seq<UnitEvent<S>>, proc: int, sem: S)
    requires Credited(s, sems, log) && proc in s.procs
    requires OneCell(s, t, sems, proc, sem, if Held(log, proc, sem) > 0 then -1 else 0)
    ensures Credited(t, sems, log + [Gave(proc, sem)])
  {
    forall p, j | 0 <= j < |sems| ensures Held(log + [Gave(proc, sem)], p, sems[j]) ==
      Held(log, p, sems[j]) - if p == proc && sems[j] == sem && Held(log, proc, sem) > 0 then 1 else 0
    {
      HeldAfter(log, Gave(proc, sem), p, sems[j]);
    }
  }

  // The row of a process goes, by its end or by a kill.
  lemma GoneCredits<S>(s: Snapshot, t: Snapshot, v: nat, sems: seq<S>, log: seq<UnitEvent<S>>)
    requires Credited(s, sems, log) && v < |s.procs| && t.Valid() && |t.available| == |s.available|
    requires t.procs == DropAt(s.procs, v) && t.allocation == DropAt(s.allocation, v)
    ensures Credited(t, sems, log + [Gone(s.procs[v])])
  {
    var p := s.procs[v];
    forall i, j | 0 <= i < |t.procs| && 0 <= j < |sems|
      ensures t.allocation[i][j] == Held(log + [Gone(p)], t.procs[i], sems[j])
    {
      var l := if i < v then i else i + 1;
      assert s.procs[l] != p;
      HeldAfter(log, Gone(p), t.procs[i], sems[j]);
    }
    forall q | q in s.procs && q != p ensures q in t.procs {
      var l :| 0 <= l < |s.procs| && s.procs[l] == q;
      assert t.procs[if l < v then l else l - 1] == q;
    }
    forall q, j | q !in t.procs && 0 <= j < |sems| ensures Held(log + [Gone(p)], q, sems[j]) == 0 {
      HeldAfter(log, Gone(p), q, sems[j]);
      assert q == p || q !in s.procs;
    }
  }

  lemma AddSemCredits<S>(s: Snapshot, v: nat, sems: seq<S>, sem: S, log: seq<UnitEvent<S>>)
    requires Credited(s, sems, log) && forall k :: 0 <= k < |log| && !log[k].Gone? ==> log[k].sem != sem
    ensures Credited(SemAdded(s, v), sems + [sem], log)
  {
    forall p ensures Held(log, p, sem) == 0 {
      NeverTaken(log, p, sem);
    }
  }

  lemma DropSemCredits<S>(s: Snapshot, j: nat, sems: seq<S>, log: seq<UnitEvent<S>>)
    requires Credited(s, sems, log) && j < |sems|
    ensures Credited(SemDropped(s, j), DropAt(sems, j), log)
  {
  }

  lemma AddProcCredits<S>(s: Snapshot, p: int, sems: seq<S>, log: seq<UnitEvent<S>>)
    requires Credited(s, sems, log) && p !in s.procs
    ensures Credited(ProcAdded(s, p), sems, log)
  {
    assert ProcAdded(s, p).Valid();
  }

  // ----- kills

  // The queue of a semaphore after process p, if it waits there, has left it.
  function Left(q: seq<int>, p: int, waits: bool): seq<int> {
    if waits then RemoveFirst(q, p) else q
  }

  lemma LeftQueueOk(s: Snapshot, v: nat, q: seq<int>, j: nat)
    requires s.Valid() && v < |s.procs| && j < |s.available| && QueueOk(s, q, j)
    ensures Kill(s, v).Valid() && QueueOk(Kill(s, v), Left(q, s.procs[v], s.request[v][j] != 0), j)
  {
    KillKeepsValid(s, v);
    var t, r := Kill(s, v), Left(q, s.procs[v], s.request[v][j] != 0);
    LeftIs(q, s.procs[v], s.request[v][j] != 0);
    forall p | p in r ensures p in t.procs {
      var l :| 0 <= l < |s.procs| && s.procs[l] == p;
      assert t.procs[if l < v then l else l - 1] == p;
    }
    forall i | 0 <= i < |t.procs| ensures t.request[i][j] == if t.procs[i] in r then 1 else 0 {
      OthersStayQueued(s, v, q, j, i);
    }
  }

  // Everybody but process p stays where they were.
  lemma LeftIs(q: seq<int>, p: int, waits: bool)
    requires NoTwice(q) && (p in q ==> waits)
    ensures NoTwice(Left(q, p, waits)) && forall x :: x in Left(q, p, waits) <==> x in q && x != p
  {
    RemoveFirstOnce(q, p);
    RemoveFirstElements(q, p);
  }

  lemma OthersStayQueued(s: Snapshot, v: nat, q: seq<int>, j: nat, i: nat)
    requires s.Valid() && v < |s.procs| && j < |s.available| && QueueOk(s, q, j) && i < |s.procs| - 1
    ensures Kill(s, v).Valid() && i < |Kill(s, v).procs|
    ensures var t := Kill(s, v); t.request[i][j] == if t.procs[i] in q && t.procs[i] != s.procs[v] then 1 else 0
  {
    KillKeepsValid(s, v);
    var l := if i < v then i else i + 1;
    assert Kill(s, v).procs[i] == s.procs[l] && Kill(s, v).request[i] == s.request[l];
  }

  lemma KillInStep(s: Snapshot, c: seq<int>, q: seq<seq<int>>, v: nat, c': seq<int>, q': seq<seq<int>>)
    requires InStep(s, c, q) && v < |s.procs| && |c'| == |c| && |q'| == |q|
    requires forall j :: 0 <= j < |c| ==> c'[j] == c[j] + s.allocation[v][j]
    requires forall j :: 0 <= j < |q| ==> q'[j] == Left(q[j], s.procs[v], s.request[v][j] != 0)
    ensures InStep(Kill(s, v), c', q')
  {
    KillKeepsValid(s, v);
    forall j | 0 <= j < |q'| ensures QueueOk(Kill(s, v), q'[j], j) {
      LeftQueueOk(s, v, q[j], j);
    }
  }
}
