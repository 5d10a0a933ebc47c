/** In what order processes are admitted, suspended and resumed, over any interleaving of the kernel's threads. */
module Orders {
  import opened Queues
  import opened Scheduler

  // ----- what happened in a run, in order

  function ArrivedPids(evs: seq<Event>): seq<nat> {
    if evs == [] then [] else (if evs[0].Arrive? then [evs[0].pid] else []) + ArrivedPids(evs[1..])
  }

  // The processes that stopped waiting while they were suspended.
  function WokenPids(evs: seq<Event>): seq<nat> {
    if evs == [] then [] else (if evs[0].PutSuspendedReady? then [evs[0].pid] else []) + WokenPids(evs[1..])
  }

  function BlockedPids(evs: seq<Event>): seq<nat> {
    if evs == [] then [] else (if evs[0].Block? then [evs[0].pid] else []) + BlockedPids(evs[1..])
  }

  // The processes that a step put at the end of ready.
  function Readied(st: Sched, ev: Event): seq<nat>
    requires Enabled(st, ev) && Defined(st, ev)
  {
    var r := Apply(st, ev).ready;
    if |r| > |st.ready| then r[|st.ready|..] else []
  }

  // The processes that the long-term thread made ready in a run.
  function AdmittedPids(st: Sched, evs: seq<Event>): seq<nat>
    decreases |evs|
  {
    if evs == [] || !Enabled(st, evs[0]) || !Defined(st, evs[0]) then []
    else (if evs[0].Admit? then Readied(st, evs[0]) else []) + AdmittedPids(Apply(st, evs[0]), evs[1..])
  }

  // The processes that the unsuspender made ready.
  function ResumedPids(st: Sched, evs: seq<Event>): seq<nat>
    decreases |evs|
  {
    if evs == [] || !Enabled(st, evs[0]) || !Defined(st, evs[0]) then []
    else (if evs[0].Decide? then Readied(st, evs[0]) else []) + ResumedPids(Apply(st, evs[0]), evs[1..])
  }

  // ----- first come, first served

  // A queue that entries join at one end and leave at the other, over one step and then over the rest of a run.
  lemma Passes(q: seq<nat>, one: seq<nat>, gone: seq<nat>, mid: seq<nat>, joined: seq<nat>, left: seq<nat>, to: seq<nat>)
    requires q + one == gone + mid && mid + joined == left + to
    ensures q + (one + joined) == (gone + left) + to
  {
    assert q + (one + joined) == (gone + mid) + joined;
    assert (gone + mid) + joined == gone + (left + to);
  }

  lemma AdmittedNext(st: Sched, ev: Event)
    requires Enabled(st, ev) && Defined(st, ev)
    ensures st.newQueue + (if ev.Arrive? then [ev.pid] else []) == (if ev.Admit? then Readied(st, ev) else []) + Apply(st, ev).newQueue
  {
  }

  lemma {:induction false} AdmittedFrom(st: Sched, evs: seq<Event>, to: Sched)
    requires Runs(st, evs, to)
    ensures st.newQueue + ArrivedPids(evs) == AdmittedPids(st, evs) + to.newQueue
    decreases |evs|
  {
    if evs != [] {
      var to1 := Apply(st, evs[0]);
      AdmittedNext(st, evs[0]);
      AdmittedFrom(to1, evs[1..], to);
      var one, gone := if evs[0].Arrive? then [evs[0].pid] else [], if evs[0].Admit? then Readied(st, evs[0]) else [];
      Passes(st.newQueue, one, gone, to1.newQueue, ArrivedPids(evs[1..]), AdmittedPids(to1, evs[1..]), to.newQueue);
    }
  }

  /** New processes become ready in the order in which they arrived, none of them left out. */
  lemma AdmittedInOrder(degree: nat, evs: seq<Event>, to: Sched)
    requires Runs(Start(degree), evs, to)
    ensures ArrivedPids(evs) == AdmittedPids(Start(degree), evs) + to.newQueue
  {
    AdmittedFrom(Start(degree), evs, to);
  }

  lemma ResumedNext(st: Sched, ev: Event)
    requires Enabled(st, ev) && Defined(st, ev)
    ensures st.suspendedReady + (if ev.PutSuspendedReady? then [ev.pid] else []) ==
      (if ev.Decide? then Readied(st, ev) else []) + Apply(st, ev).suspendedReady
  {
  }

  lemma {:induction false} ResumedFrom(st: Sched, evs: seq<Event>, to: Sched)
    requires Runs(st, evs, to)
    ensures st.suspendedReady + WokenPids(evs) == ResumedPids(st, evs) + to.suspendedReady
    decreases |evs|
  {
    if evs != [] {
      var to1 := Apply(st, evs[0]);
      ResumedNext(st, evs[0]);
      ResumedFrom(to1, evs[1..], to);
      var one, gone := if evs[0].PutSuspendedReady? then [evs[0].pid] else [], if evs[0].Decide? then Readied(st, evs[0]) else [];
      Passes(st.suspendedReady, one, gone, to1.suspendedReady, WokenPids(evs[1..]), ResumedPids(to1, evs[1..]), to.suspendedReady);
    }
  }

  /** Suspended processes become ready in the order in which they stopped waiting. */
  lemma ResumedInOrder(degree: nat, evs: seq<Event>, to: Sched)
    requires Runs(Start(degree), evs, to)
    ensures WokenPids(evs) == ResumedPids(Start(degree), evs) + to.suspendedReady
  {
    ResumedFrom(Start(degree), evs, to);
  }

  // ----- who gets a slot, and who gives it up

  /**
   A slot goes to the long-term thread only when no suspended process is ready; while
   one is, a decision takes exactly the first of them to ready.
   */
  lemma SuspendedGoFirst(st: Sched, ev: Event)
    requires Enabled(st, ev) && Defined(st, ev)
    ensures Apply(st, ev).longTermSem > st.longTermSem ==> ev.Decide? && st.suspendedReady == []
    ensures ev.Decide? && st.suspendedReady != [] ==>
      Readied(st, ev) == [st.suspendedReady[0]] && [st.suspendedReady[0]] + Apply(st, ev).suspendedReady == st.suspendedReady
  {
  }

  /**
   A process is suspended exactly when a new one waits, somebody is blocked and nobody
   ready, and all slots, of suspended processes killed too, are taken up or not yet given back.
   */
  lemma SuspendIff(st: Sched, degree: nat)
    requires Inv(st, degree)
    ensures Enabled(st, Suspend) <==>
      && st.newQueue != [] && st.blocked != [] && st.ready == []
      && |st.exec| + |st.blocked| + |st.waking| + st.pendingCredits >= degree + st.suspendedKills
  {
  }

  // No process is, or will be, in two places.
  ghost predicate ArriveOnce(st: Sched, evs: seq<Event>) {
    forall pid: nat :: Places(st, pid) + Arrivals(evs, pid) <= 1
  }

  lemma ArriveOnceOn(st: Sched, evs: seq<Event>)
    requires ArriveOnce(st, evs) && evs != [] && Enabled(st, evs[0]) && Defined(st, evs[0])
    ensures ArriveOnce(Apply(st, evs[0]), evs[1..])
  {
    forall pid: nat ensures Places(Apply(st, evs[0]), pid) + Arrivals(evs[1..], pid) <= 1 {
      StepConserves(st, evs[0], pid);
      assert Places(st, pid) + Arrivals(evs, pid) <= 1;
    }
  }

  lemma BlockedOnce(st: Sched, evs: seq<Event>)
    requires ArriveOnce(st, evs)
    ensures NoTwice(st.blocked)
  {
    forall k, l | 0 <= k < l < |st.blocked| ensures st.blocked[k] != st.blocked[l] {
      assert Places(st, st.blocked[k]) + Arrivals(evs, st.blocked[k]) <= 1;
      if st.blocked[k] == st.blocked[l] {
        TwiceCounts(st.blocked, k, l);
      }
    }
  }

  lemma TwiceCounts(q: seq<nat>, k: nat, l: nat)
    requires k < l < |q| && q[k] == q[l]
    ensures Times(q, q[k]) >= 2
  {
    assert q == q[..l] + [q[l]] + q[l + 1..];
    assert q[k] in q[..l];
  }

  lemma StepKeepsBlockedOrder(st: Sched, ev: Event, h: seq<nat>)
    requires InUseOrder(st.blocked, h) && NoTwice(st.blocked) && Enabled(st, ev) && Defined(st, ev)
    ensures InUseOrder(Apply(st, ev).blocked, h + if ev.Block? then [ev.pid] else [])
  {
    assert h + [] == h;
    match ev
    case Block(pid) => UseAppends(st.blocked, h, pid);
    case Suspend =>
      var last := |st.blocked| - 1;
      OutKeepsOrder(st.blocked, h, last);
      assert st.blocked[..last] + st.blocked[last + 1..] == st.blocked[..last];
    case Wake(pid) =>
      if pid in st.blocked {
        RemoveKeepsOrder(st.blocked, h, pid);
      }
    case Kill(pid) =>
      if pid in st.blocked {
        RemoveKeepsOrder(st.blocked, h, pid);
      }
    case _ =>
  }

  lemma {:induction false} BlockedInOrder(st: Sched, evs: seq<Event>, to: Sched, h: seq<nat>)
    requires Runs(st, evs, to) && ArriveOnce(st, evs) && InUseOrder(st.blocked, h)
    ensures InUseOrder(to.blocked, h + BlockedPids(evs)) && NoTwice(to.blocked)
    decreases |evs|
  {
    BlockedOnce(st, evs);
    if evs != [] {
      var one := if evs[0].Block? then [evs[0].pid] else [];
      StepKeepsBlockedOrder(st, evs[0], h);
      ArriveOnceOn(st, evs);
      BlockedInOrder(Apply(st, evs[0]), evs[1..], to, h + one);
      assert h + one + BlockedPids(evs[1..]) == h + BlockedPids(evs);
    } else {
      assert h + BlockedPids(evs) == h;
    }
  }

  /** Last in, first out: the process that is suspended blocked later than all that stay blocked. */
  lemma SuspendsLastBlocked(degree: nat, evs: seq<Event>, st: Sched) returns (pid: nat)
    requires Runs(Start(degree), evs, st) && Enabled(st, Suspend)
    requires forall p :: Arrivals(evs, p) <= 1
    ensures pid in st.blocked && Apply(st, Suspend).suspendedBlocked == st.suspendedBlocked + [pid]
    ensures forall p :: p in Apply(st, Suspend).blocked <==> p in st.blocked && p != pid
    ensures forall p :: p in Apply(st, Suspend).blocked ==> LastUse(BlockedPids(evs), p) < LastUse(BlockedPids(evs), pid)
  {
    BlockedInOrder(Start(degree), evs, st, []);
    assert [] + BlockedPids(evs) == BlockedPids(evs);
    var last := |st.blocked| - 1;
    pid := st.blocked[last];
    assert st.blocked == st.blocked[..last] + [pid];
    forall p | p in st.blocked && p != pid ensures LastUse(BlockedPids(evs), p) < LastUse(BlockedPids(evs), pid) {
      LastIsLatest(st.blocked, BlockedPids(evs), p);
    }
  }
}
