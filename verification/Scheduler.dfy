/**
 The long-term and medium-term schedulers of the kernel: the threads that admit,
 suspend and resume processes, and the semaphores they pass slots through.
 */
module Scheduler {
  import opened Queues

  // One event is one step of one thread; a run is any interleaving of them.

  // What the threads share, and how far each of them has got.
  datatype Sched = Sched(
    newQueue: seq<nat>,
    ready: seq<nat>,
    exec: seq<nat>,
    blocked: seq<nat>,
    suspendedBlocked: seq<nat>,
    suspendedReady: seq<nat>,
    // taken off a queue of blocked processes by a device or semaphore thread, and not yet put anywhere
    waking: seq<nat>,
    wakingSuspended: seq<nat>,
    semMultiprogram: nat,
    semNewProcess: nat,
    longTermSem: nat,
    cuposLibres: int,
    // semaphores the unsuspender has passed since it last looked at the queues
    unsuspender: nat,
    // the long-term thread has passed its semaphore
    longTerm: bool,
    // processes put in suspendedReady for which sem_newProcess is still to be posted
    pendingPosts: nat,
    // slots posted to sem_multiprogram that cuposLibres does not show yet
    pendingCredits: nat,
    // processes killed while they were suspended
    suspendedKills: nat)

  datatype Event =
    | Arrive(pid: nat)
    | PassSlot | PassNew | Decide
    | PassLongTerm | Admit
    | Suspend
    | Dispatch(pid: nat)
    | Block(pid: nat)
    | Wake(pid: nat) | PutReady(pid: nat) | PutSuspendedReady(pid: nat) | PostNew
    | Terminate(pid: nat) | Credit
    | Kill(pid: nat)

  function Start(degree: nat): Sched {
    Sched([], [], [], [], [], [], [], [], degree, 0, 0, degree, 0, false, 0, 0, 0)
  }

  lemma WithoutOne(q: seq<nat>, pid: nat)
    requires pid in q
    ensures |RemoveFirst(q, pid)| == |q| - 1
    ensures multiset(RemoveFirst(q, pid)) == multiset(q) - multiset{pid}
  {
    RemoveFirstElements(q, pid);
    assert FirstAt(q, pid, IndexOf(q, pid));
  }

  // ----- steps

  // What a thread waits for before the step.
  predicate Enabled(st: Sched, ev: Event) {
    match ev
    case Arrive(pid) => true
    case PassSlot => st.unsuspender == 0 && st.semMultiprogram > 0
    case PassNew => st.unsuspender == 1 && st.semNewProcess > 0
    case Decide => st.unsuspender == 2
    case PassLongTerm => !st.longTerm && st.longTermSem > 0
    case Admit => st.longTerm
    case Suspend => st.cuposLibres < 1 && st.newQueue != [] && st.ready == [] && st.blocked != []
    case Dispatch(pid) => pid in st.ready
    case Block(pid) => pid in st.exec
    case Wake(pid) => pid in st.blocked || pid in st.suspendedBlocked
    case PutReady(pid) => pid in st.waking
    case PutSuspendedReady(pid) => pid in st.wakingSuspended
    case PostNew => st.pendingPosts > 0
    case Terminate(pid) => pid in st.exec
    case Credit => st.pendingCredits > 0
    case Kill(pid) => pid in st.blocked || pid in st.suspendedBlocked
  }

  // The step needs a process at the head of newQueue.
  predicate Defined(st: Sched, ev: Event) {
    ev.Admit? ==> st.newQueue != []
  }

  function Apply(st: Sched, ev: Event): Sched
    requires Enabled(st, ev) && Defined(st, ev)
  {
    match ev
    case Arrive(pid) => st.(newQueue := st.newQueue + [pid], semNewProcess := st.semNewProcess + 1)
    case PassSlot => st.(semMultiprogram := st.semMultiprogram - 1, unsuspender := 1)
    case PassNew => st.(semNewProcess := st.semNewProcess - 1, unsuspender := 2)
    case Decide =>
      if st.suspendedReady == [] then st.(longTermSem := st.longTermSem + 1, unsuspender := 0)
      else st.(suspendedReady := st.suspendedReady[1..], ready := st.ready + [st.suspendedReady[0]],
               cuposLibres := st.cuposLibres - 1, unsuspender := 0)
    case PassLongTerm => st.(longTermSem := st.longTermSem - 1, longTerm := true)
    case Admit =>
      st.(newQueue := st.newQueue[1..], ready := st.ready + [st.newQueue[0]],
          cuposLibres := st.cuposLibres - 1, longTerm := false)
    case Suspend =>
      var last := |st.blocked| - 1;
      st.(blocked := st.blocked[..last], suspendedBlocked := st.suspendedBlocked + [st.blocked[last]],
          semMultiprogram := st.semMultiprogram + 1, cuposLibres := st.cuposLibres + 1)
    case Dispatch(pid) => st.(ready := RemoveFirst(st.ready, pid), exec := st.exec + [pid])
    case Block(pid) => st.(exec := RemoveFirst(st.exec, pid), blocked := st.blocked + [pid])
    case Wake(pid) =>
      if pid in st.blocked then st.(blocked := RemoveFirst(st.blocked, pid), waking := st.waking + [pid])
      else st.(suspendedBlocked := RemoveFirst(st.suspendedBlocked, pid), wakingSuspended := st.wakingSuspended + [pid])
    case PutReady(pid) => st.(waking := RemoveFirst(st.waking, pid), ready := st.ready + [pid])
    case PutSuspendedReady(pid) =>
      st.(wakingSuspended := RemoveFirst(st.wakingSuspended, pid), suspendedReady := st.suspendedReady + [pid],
          pendingPosts := st.pendingPosts + 1)
    case PostNew => st.(semNewProcess := st.semNewProcess + 1, pendingPosts := st.pendingPosts - 1)
    case Terminate(pid) =>
      st.(exec := RemoveFirst(st.exec, pid), semMultiprogram := st.semMultiprogram + 1, pendingCredits := st.pendingCredits + 1)
    case Credit => st.(cuposLibres := st.cuposLibres + 1, pendingCredits := st.pendingCredits - 1)
    case Kill(pid) =>
      var to := st.(semMultiprogram := st.semMultiprogram + 1, pendingCredits := st.pendingCredits + 1);
      if pid in st.blocked then to.(blocked := RemoveFirst(st.blocked, pid))
      else to.(suspendedBlocked := RemoveFirst(st.suspendedBlocked, pid), suspendedKills := st.suspendedKills + 1)
  }

  // ----- what every step keeps

  // Processes that take up a slot.
  function Active(st: Sched): nat {
    |st.ready| + |st.exec| + |st.blocked| + |st.waking|
  }

  // Slots on their way to a process.
  function InFlight(st: Sched): nat {
    st.semMultiprogram + (if st.unsuspender > 0 then 1 else 0) + st.longTermSem + (if st.longTerm then 1 else 0)
  }

  // Arrivals and resumptions on their way to the long-term thread or the unsuspender.
  function Announced(st: Sched): nat {
    st.semNewProcess + st.pendingPosts + (if st.unsuspender == 2 then 1 else 0) + st.longTermSem + (if st.longTerm then 1 else 0)
  }

  predicate Inv(st: Sched, degree: nat) {
    && st.unsuspender <= 2
    && Active(st) + InFlight(st) == degree + st.suspendedKills
    && st.cuposLibres + st.pendingCredits == degree + st.suspendedKills - Active(st)
    && Announced(st) == |st.newQueue| + |st.suspendedReady|
    && st.longTermSem + (if st.longTerm then 1 else 0) <= |st.newQueue|
  }

  function Times(q: seq<nat>, pid: nat): nat {
    multiset(q)[pid]
  }

  // In how many places a process is.
  function Places(st: Sched, pid: nat): nat {
    Times(st.newQueue, pid) + Times(st.ready, pid) + Times(st.exec, pid) + Times(st.blocked, pid)
    + Times(st.suspendedBlocked, pid) + Times(st.suspendedReady, pid) + Times(st.waking, pid) + Times(st.wakingSuspended, pid)
  }

  function Joins(ev: Event, pid: nat): nat {
    if ev == Arrive(pid) then 1 else 0
  }

  function Leaves(ev: Event, pid: nat): nat {
    if ev == Terminate(pid) || ev == Kill(pid) then 1 else 0
  }

  lemma TimesAppend(q: seq<nat>, x: nat, pid: nat)
    ensures Times(q + [x], pid) == Times(q, pid) + if x == pid then 1 else 0
  {
  }

  lemma TimesWithout(q: seq<nat>, x: nat, pid: nat)
    requires x in q
    ensures Times(q, pid) == Times(RemoveFirst(q, x), pid) + if x == pid then 1 else 0
  {
    WithoutOne(q, x);
  }

  lemma TimesTail(q: seq<nat>, pid: nat)
    requires q != []
    ensures Times(q, pid) == Times(q[1..], pid) + if q[0] == pid then 1 else 0
    ensures Times(q, pid) == Times(q[..|q| - 1], pid) + if q[|q| - 1] == pid then 1 else 0
  {
    assert q == [q[0]] + q[1..];
    assert q == q[..|q| - 1] + [q[|q| - 1]];
  }

  // Steps of the threads that pass slots on.
  predicate OfSchedulers(ev: Event) {
    ev.PassSlot? || ev.PassNew? || ev.Decide? || ev.PassLongTerm? || ev.Admit? || ev.Suspend?
  }

  // Steps that wake a process up.
  predicate OfWakers(ev: Event) {
    ev.Wake? || ev.PutReady? || ev.PutSuspendedReady? || ev.PostNew?
  }

  lemma SchedulersKeepInv(st: Sched, ev: Event, degree: nat)
    requires Inv(st, degree) && Enabled(st, ev) && OfSchedulers(ev)
    ensures Defined(st, ev) && Inv(Apply(st, ev), degree)
  {
  }

  lemma WakersKeepInv(st: Sched, ev: Event, degree: nat)
    requires Inv(st, degree) && Enabled(st, ev) && OfWakers(ev)
    ensures Inv(Apply(st, ev), degree)
  {
    match ev
    case Wake(pid) => WithoutOne(if pid in st.blocked then st.blocked else st.suspendedBlocked, pid);
    case PutReady(pid) => WithoutOne(st.waking, pid);
    case PutSuspendedReady(pid) => WithoutOne(st.wakingSuspended, pid);
    case PostNew =>
  }

  lemma OthersKeepInv(st: Sched, ev: Event, degree: nat)
    requires Inv(st, degree) && Enabled(st, ev) && !OfSchedulers(ev) && !OfWakers(ev)
    ensures Inv(Apply(st, ev), degree)
  {
    if ev.Kill? {
      KillKeepsInv(st, ev.pid, degree);
    } else {
      match ev
      case Dispatch(pid) => WithoutOne(st.ready, pid);
      case Block(pid) => WithoutOne(st.exec, pid);
      case Terminate(pid) => WithoutOne(st.exec, pid);
      case _ =>
    }
  }

  lemma KillKeepsInv(st: Sched, pid: nat, degree: nat)
    requires Inv(st, degree) && Enabled(st, Kill(pid))
    ensures Inv(Apply(st, Kill(pid)), degree)
  {
    WithoutOne(if pid in st.blocked then st.blocked else st.suspendedBlocked, pid);
  }

  /** Every step of every thread keeps slots and announcements accounted for. */
  lemma StepKeepsInv(st: Sched, ev: Event, degree: nat)
    requires Inv(st, degree) && Enabled(st, ev)
    ensures Defined(st, ev) && Inv(Apply(st, ev), degree)
  {
    if OfSchedulers(ev) {
      SchedulersKeepInv(st, ev, degree);
    } else if OfWakers(ev) {
      WakersKeepInv(st, ev, degree);
    } else {
      OthersKeepInv(st, ev, degree);
    }
  }

  // x moves from one queue to another.
  lemma Moves(from: seq<nat>, to: seq<nat>, x: nat, pid: nat)
    requires x in from
    ensures Times(RemoveFirst(from, x), pid) + Times(to + [x], pid) == Times(from, pid) + Times(to, pid)
  {
    TimesWithout(from, x, pid);
    TimesAppend(to, x, pid);
  }

  lemma DecideConserves(st: Sched, pid: nat)
    requires Enabled(st, Decide)
    ensures Places(Apply(st, Decide), pid) == Places(st, pid)
  {
    if st.suspendedReady != [] {
      TimesTail(st.suspendedReady, pid);
      TimesAppend(st.ready, st.suspendedReady[0], pid);
    }
  }

  lemma AdmitConserves(st: Sched, pid: nat)
    requires Enabled(st, Admit) && Defined(st, Admit)
    ensures Places(Apply(st, Admit), pid) == Places(st, pid)
  {
    TimesTail(st.newQueue, pid);
    TimesAppend(st.ready, st.newQueue[0], pid);
  }

  lemma SuspendConserves(st: Sched, pid: nat)
    requires Enabled(st, Suspend)
    ensures Places(Apply(st, Suspend), pid) == Places(st, pid)
  {
    TimesTail(st.blocked, pid);
    TimesAppend(st.suspendedBlocked, st.blocked[|st.blocked| - 1], pid);
  }

  lemma SchedulersConserve(st: Sched, ev: Event, pid: nat)
    requires Enabled(st, ev) && Defined(st, ev) && OfSchedulers(ev)
    ensures Places(Apply(st, ev), pid) == Places(st, pid)
  {
    if ev.Decide? {
      DecideConserves(st, pid);
    } else if ev.Admit? {
      AdmitConserves(st, pid);
    } else if ev.Suspend? {
      SuspendConserves(st, pid);
    }
  }

  lemma WakersConserve(st: Sched, ev: Event, pid: nat)
    requires Enabled(st, ev) && OfWakers(ev)
    ensures Places(Apply(st, ev), pid) == Places(st, pid)
  {
    match ev
    case Wake(x) =>
      if x in st.blocked {
        Moves(st.blocked, st.waking, x, pid);
      } else {
        Moves(st.suspendedBlocked, st.wakingSuspended, x, pid);
      }
    case PutReady(x) => Moves(st.waking, st.ready, x, pid);
    case PutSuspendedReady(x) => Moves(st.wakingSuspended, st.suspendedReady, x, pid);
    case PostNew =>
  }

  lemma CpuConserves(st: Sched, ev: Event, pid: nat)
    requires Enabled(st, ev) && (ev.Arrive? || ev.Dispatch? || ev.Block? || ev.Credit?)
    ensures Places(Apply(st, ev), pid) == Places(st, pid) + Joins(ev, pid)
  {
    match ev
    case Arrive(x) => TimesAppend(st.newQueue, x, pid);
    case Dispatch(x) => Moves(st.ready, st.exec, x, pid);
    case Block(x) => Moves(st.exec, st.blocked, x, pid);
    case Credit =>
  }

  lemma EndsConserve(st: Sched, ev: Event, pid: nat)
    requires Enabled(st, ev) && (ev.Terminate? || ev.Kill?)
    ensures Places(Apply(st, ev), pid) + Leaves(ev, pid) == Places(st, pid)
  {
    match ev
    case Terminate(x) => TimesWithout(st.exec, x, pid);
    case Kill(x) => TimesWithout(if x in st.blocked then st.blocked else st.suspendedBlocked, x, pid);
  }

  lemma OthersConserve(st: Sched, ev: Event, pid: nat)
    requires Enabled(st, ev) && !OfSchedulers(ev) && !OfWakers(ev)
    ensures Places(Apply(st, ev), pid) + Leaves(ev, pid) == Places(st, pid) + Joins(ev, pid)
  {
    if ev.Terminate? || ev.Kill? {
      EndsConserve(st, ev, pid);
    } else {
      CpuConserves(st, ev, pid);
    }
  }

  /** No step loses a process or puts it in two places. */
  lemma StepConserves(st: Sched, ev: Event, pid: nat)
    requires Enabled(st, ev) && Defined(st, ev)
    ensures Places(Apply(st, ev), pid) + Leaves(ev, pid) == Places(st, pid) + Joins(ev, pid)
  {
    if OfSchedulers(ev) {
      SchedulersConserve(st, ev, pid);
    } else if OfWakers(ev) {
      WakersConserve(st, ev, pid);
    } else {
      OthersConserve(st, ev, pid);
    }
  }

  // ----- whole runs

  // The steps of a run, each of which its thread could take.
  predicate Runs(st: Sched, evs: seq<Event>, to: Sched)
    decreases |evs|
  {
    if evs == [] then to == st
    else Enabled(st, evs[0]) && Defined(st, evs[0]) && Runs(Apply(st, evs[0]), evs[1..], to)
  }

  lemma {:induction false} RunKeepsInv(st: Sched, evs: seq<Event>, to: Sched, degree: nat)
    requires Inv(st, degree) && Runs(st, evs, to)
    ensures Inv(to, degree)
    decreases |evs|
  {
    if evs != [] {
      StepKeepsInv(st, evs[0], degree);
      RunKeepsInv(Apply(st, evs[0]), evs[1..], to, degree);
    }
  }

  /**
   The multiprogramming degree over any interleaving: free slots and processes that
   take one up add to the degree, plus one for every process killed while suspended.
   */
  lemma DegreeHolds(degree: nat, evs: seq<Event>, to: Sched)
    requires Runs(Start(degree), evs, to)
    ensures to.cuposLibres + to.pendingCredits == degree + to.suspendedKills - Active(to) == InFlight(to)
    ensures Active(to) <= degree + to.suspendedKills
    ensures to.longTerm ==> to.newQueue != []
  {
    RunKeepsInv(Start(degree), evs, to, degree);
  }

  /** The slots add up to the degree if and only if no process was killed while suspended. */
  lemma DegreeIffNoSuspendedKill(degree: nat, evs: seq<Event>, to: Sched)
    requires Runs(Start(degree), evs, to)
    ensures to.cuposLibres + to.pendingCredits == degree - Active(to) <==> to.suspendedKills == 0
    ensures Active(to) + InFlight(to) == degree <==> to.suspendedKills == 0
  {
    RunKeepsInv(Start(degree), evs, to, degree);
  }

  // How often a process arrived, and how often it ended, in a run.
  function Arrivals(evs: seq<Event>, pid: nat): nat {
    if evs == [] then 0 else Joins(evs[0], pid) + Arrivals(evs[1..], pid)
  }

  function Ends(evs: seq<Event>, pid: nat): nat {
    if evs == [] then 0 else Leaves(evs[0], pid) + Ends(evs[1..], pid)
  }

  lemma {:induction false} RunConserves(st: Sched, evs: seq<Event>, to: Sched, pid: nat)
    requires Runs(st, evs, to)
    ensures Places(to, pid) + Ends(evs, pid) == Places(st, pid) + Arrivals(evs, pid)
    decreases |evs|
  {
    if evs != [] {
      StepConserves(st, evs[0], pid);
      RunConserves(Apply(st, evs[0]), evs[1..], to, pid);
    }
  }

  /** A process that arrived once is in exactly one place until it ends. */
  lemma OnePlace(degree: nat, evs: seq<Event>, to: Sched, pid: nat)
    requires Runs(Start(degree), evs, to) && Arrivals(evs, pid) == 1
    ensures Places(to, pid) == 1 - Ends(evs, pid)
  {
    RunConserves(Start(degree), evs, to, pid);
  }

  // A step of the long-term thread, of the unsuspender, or of a thread that still owes a post.
  predicate PassesSlots(ev: Event) {
    ev.PassSlot? || ev.PassNew? || ev.Decide? || ev.PassLongTerm? || ev.Admit? || ev.PostNew?
  }

  /** While a slot is free and a process waits for one, some thread can bring them together. */
  lemma NeverStuck(st: Sched, degree: nat) returns (ev: Event)
    requires Inv(st, degree)
    requires Active(st) < degree + st.suspendedKills && (st.newQueue != [] || st.suspendedReady != [])
    ensures PassesSlots(ev) && Enabled(st, ev)
  {
    ev :=
      if st.longTerm then Admit
      else if st.longTermSem > 0 then PassLongTerm
      else if st.unsuspender == 2 then Decide
      else if st.unsuspender == 0 then PassSlot
      else if st.semNewProcess > 0 then PassNew
      else PostNew;
  }

  // How many steps the slot-passing threads can take without admitting anybody.
  function Work(st: Sched): nat {
    5 * st.pendingPosts + 4 * st.semNewProcess + st.longTermSem
    + (if st.unsuspender == 0 then 1 else if st.unsuspender == 1 then 0 else 3)
  }

  // A waiting process got a slot.
  predicate Admitted(st: Sched, to: Sched) {
    && Active(to) == Active(st) + 1
    && |to.newQueue| + |to.suspendedReady| == |st.newQueue| + |st.suspendedReady| - 1
  }

  lemma PassingEndsOrAdmits(st: Sched, ev: Event, degree: nat)
    requires Inv(st, degree) && PassesSlots(ev) && Enabled(st, ev)
    ensures Defined(st, ev)
    ensures var to := Apply(st, ev);
      || Admitted(st, to)
      || (&& Work(to) < Work(st) && Active(to) == Active(st) && to.suspendedKills == st.suspendedKills
          && to.newQueue == st.newQueue && to.suspendedReady == st.suspendedReady)
  {
    StepKeepsInv(st, ev, degree);
  }

  /**
   However the slot-passing threads are interleaved, any Work(st) + 1 of their steps in a
   row admit a process; and by NeverStuck there is a next step while a slot is free and
   a process waits.
   */
  lemma {:induction false} AdmissionComes(st: Sched, evs: seq<Event>, to: Sched, degree: nat)
    returns (k: nat, before: Sched, after: Sched)
    requires Inv(st, degree) && Runs(st, evs, to) && |evs| > Work(st)
    requires forall i :: 0 <= i < |evs| ==> PassesSlots(evs[i])
    ensures k < |evs| && k <= Work(st) && Runs(st, evs[..k], before) && Runs(after, evs[k + 1..], to)
    ensures Enabled(before, evs[k]) && Defined(before, evs[k]) && after == Apply(before, evs[k]) && Admitted(before, after)
    decreases |evs|
  {
    var next := Apply(st, evs[0]);
    PassingEndsOrAdmits(st, evs[0], degree);
    if Admitted(st, next) {
      k, before, after := 0, st, next;
    } else {
      StepKeepsInv(st, evs[0], degree);
      var l;
      l, before, after := AdmissionComes(next, evs[1..], to, degree);
      OneStepEarlier(st, evs, l, before);
      k := l + 1;
      assert evs[1..][l + 1..] == evs[k + 1..];
    }
  }

  lemma OneStepEarlier(st: Sched, evs: seq<Event>, l: nat, before: Sched)
    requires l < |evs| && Enabled(st, evs[0]) && Defined(st, evs[0]) && Runs(Apply(st, evs[0]), evs[1..][..l], before)
    ensures Runs(st, evs[..l + 1], before)
  {
    assert evs[..l + 1][1..] == evs[1..][..l];
  }

  // ----- a process killed while suspended

  lemma {:induction false} RunsOn(st: Sched, a: seq<Event>, mid: Sched, b: seq<Event>, to: Sched)
    requires Runs(st, a, mid) && Runs(mid, b, to)
    ensures Runs(st, a + b, to)
    decreases |a|
  {
    if a == [] {
      assert a + b == b;
    } else {
      RunsOn(Apply(st, a[0]), a[1..], mid, b, to);
      assert (a + b)[1..] == a[1..] + b;
    }
  }

  // The idle threads admit the only process in newQueue.
  lemma GetsIn(st: Sched, pid: nat) returns (evs: seq<Event>, to: Sched)
    requires st.unsuspender == 0 && !st.longTerm && st.longTermSem == 0 && st.newQueue == [pid] && st.suspendedReady == []
    requires st.semMultiprogram > 0 && st.semNewProcess > 0
    ensures Runs(st, evs, to)
    ensures to == st.(newQueue := [], ready := st.ready + [pid], semMultiprogram := st.semMultiprogram - 1,
                      semNewProcess := st.semNewProcess - 1, cuposLibres := st.cuposLibres - 1)
  {
    var s2 := Apply(st, PassSlot);
    var s3 := Apply(s2, PassNew);
    var s4 := Apply(s3, Decide);
    var s5 := Apply(s4, PassLongTerm);
    to := Apply(s5, Admit);
    evs := [PassSlot, PassNew, Decide, PassLongTerm, Admit];
    RunsOn(s5, [Admit], to, [], to);
    RunsOn(s4, [PassLongTerm], s5, [Admit], to);
    RunsOn(s3, [Decide], s4, [PassLongTerm, Admit], to);
    RunsOn(s2, [PassNew], s3, [Decide, PassLongTerm, Admit], to);
    RunsOn(st, [PassSlot], s2, [PassNew, Decide, PassLongTerm, Admit], to);
  }

  // A process is admitted, runs, blocks, and is suspended because another one waits for its slot.
  lemma GetsSuspended(st: Sched, evs: seq<Event>, in1: Sched) returns (more: seq<Event>, to: Sched)
    requires Runs(st, evs, in1) && in1 == Start(1).(ready := [1], semMultiprogram := 0, cuposLibres := 0)
    ensures Runs(st, more, to)
    ensures to == Start(1).(newQueue := [2], semNewProcess := 1, suspendedBlocked := [1])
  {
    var s1 := Apply(in1, Dispatch(1));
    var s2 := Apply(s1, Block(1));
    var s3 := Apply(s2, Arrive(2));
    to := Apply(s3, Suspend);
    RunsOn(s3, [Suspend], to, [], to);
    RunsOn(s2, [Arrive(2)], s3, [Suspend], to);
    RunsOn(s1, [Block(1)], s2, [Arrive(2), Suspend], to);
    RunsOn(in1, [Dispatch(1)], s1, [Block(1), Arrive(2), Suspend], to);
    more := evs + [Dispatch(1), Block(1), Arrive(2), Suspend];
    RunsOn(st, evs, in1, [Dispatch(1), Block(1), Arrive(2), Suspend], to);
  }

  // One step, then the idle threads admit the process that is in newQueue after it.
  lemma StepThenGetsIn(st: Sched, evs: seq<Event>, mid: Sched, ev: Event, pid: nat) returns (more: seq<Event>, to: Sched)
    requires Runs(st, evs, mid) && Enabled(mid, ev) && Defined(mid, ev)
    requires var s := Apply(mid, ev);
      && s.unsuspender == 0 && !s.longTerm && s.longTermSem == 0 && s.newQueue == [pid] && s.suspendedReady == []
      && s.semMultiprogram > 0 && s.semNewProcess > 0
    ensures Runs(st, more, to)
    ensures var s := Apply(mid, ev);
      to == s.(newQueue := [], ready := s.ready + [pid], semMultiprogram := s.semMultiprogram - 1,
               semNewProcess := s.semNewProcess - 1, cuposLibres := s.cuposLibres - 1)
  {
    var rest;
    rest, to := GetsIn(Apply(mid, ev), pid);
    assert Runs(mid, [ev] + rest, to) by {
      assert ([ev] + rest)[1..] == rest;
    }
    more := evs + ([ev] + rest);
    RunsOn(st, evs, mid, [ev] + rest, to);
  }

  /** With a degree of one, two processes take up slots after a process is killed while suspended. */
  lemma SuspendedKillOverfills() returns (evs: seq<Event>, to: Sched)
    ensures Runs(Start(1), evs, to) && Active(to) == 2 && to.suspendedKills == 1
  {
    var e1, s1 := StepThenGetsIn(Start(1), [], Start(1), Arrive(1), 1);
    var e2, s2 := GetsSuspended(Start(1), e1, s1);
    var e3, s3 := KillThenAdmit(e2, s2);
    evs, to := e3, s3;
  }

  lemma KillThenAdmit(evs: seq<Event>, st: Sched) returns (more: seq<Event>, to: Sched)
    requires Runs(Start(1), evs, st) && st == Start(1).(newQueue := [2], semNewProcess := 1, suspendedBlocked := [1])
    ensures Runs(Start(1), more, to) && Active(to) == 2 && to.suspendedKills == 1
  {
    var e1, s1 := GetsIn(st, 2);
    RunsOn(Start(1), evs, st, e1, s1);
    var s2 := Apply(s1, Kill(1));
    RunsOn(s1, [Kill(1)], s2, [], s2);
    RunsOn(Start(1), evs + e1, s1, [Kill(1)], s2);
    more, to := StepThenGetsIn(Start(1), evs + e1 + [Kill(1)], s2, Arrive(3), 3);
  }
}
