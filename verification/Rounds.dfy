/**
 The resolver's rounds: what one call of the detection does to the matrices, and
 what a loop of such calls adds up to.
 */
module Rounds {
  import opened Matrices
  import opened WaitGraph
  import opened WaitFor
  import opened Kills
  import opened CircularWait

  // One process is killed: it was in a circular wait.
  ghost predicate KillsOne(s: Snapshot, victim: seq<int>, t: Snapshot, i: nat)
    requires s.Valid()
  {
    i < |s.procs| && victim == [s.procs[i]] && t == Kill(s, i) && HoldReach(s, i, i)
  }

  /**
   A round reports whether there is a deadlock.  It kills at most one process,
   which waits for itself; under the discipline it is the biggest pid of all those
   on cycles of the wait-for graph, and there is a victim unless no cycle exists.
   */
  ghost predicate Round(s: Snapshot, again: bool, victim: seq<int>, t: Snapshot)
    requires s.Valid()
  {
    && (again <==> IsDeadlock(s))
    && (victim == [] ==> t == s)
    && (victim != [] ==> again && exists i: nat :: KillsOne(s, victim, t, i))
    && (Disciplined(s) && again && victim == [] ==> Acyclic(WaitGraphOf(s)))
    && (Disciplined(s) && victim != [] ==> OnCycle(WaitGraphOf(s), victim[0]) && Biggest(WaitGraphOf(s), victim[0]))
  }

  lemma CandidatesAreDeadlocked(s: Snapshot, found: seq<nat>)
    requires s.Valid() && Candidates(s, found, |s.procs|, Disciplined(s))
    ensures found != [] ==> IsDeadlock(s)
  {
    if found != [] {
      assert found[0] in found;
    }
  }

  lemma RoundIdle(s: Snapshot)
    requires s.Valid() && Candidates(s, [], |s.procs|, Disciplined(s))
    ensures Round(s, IsDeadlock(s), [], s)
  {
    if Disciplined(s) {
      CandidatesAreAll(s, []);
    }
  }

  lemma RoundKill(s: Snapshot, found: seq<nat>, locked: nat)
    requires s.Valid() && Candidates(s, found, |s.procs|, Disciplined(s))
    requires locked in found && forall i :: i in found ==> s.procs[i] <= s.procs[locked]
    ensures Round(s, true, [s.procs[locked]], Kill(s, locked)) && IsDeadlock(s)
  {
    assert KillsOne(s, [s.procs[locked]], Kill(s, locked), locked);
    if Disciplined(s) {
      CandidatesAreAll(s, found);
    }
  }

  // now is what a resolver that started at s has left after killing the processes of killed.
  ghost predicate RoundsOf(s: Snapshot, killed: seq<int>, now: Snapshot) {
    && Disciplined(s) && NoneStuck(s)
    && now == KillAll(s, killed)
    && CycleKills(WaitGraphOf(s), killed)
    && BiggestFirst(WaitGraphOf(s), killed)
  }

  lemma RoundsAreDisciplined(s: Snapshot, killed: seq<int>, now: Snapshot)
    requires RoundsOf(s, killed, now)
    ensures Disciplined(now) && NoneStuck(now)
    ensures WaitGraphOf(now) == RemoveAll(WaitGraphOf(s), killed)
    ensures IsDeadlock(now) <==> !Acyclic(WaitGraphOf(now))
    ensures !IsDeadlock(now) ==> Resolved(s, killed)
  {
    KillAllIsRemoveAll(s, killed);
    DeadlockIffCycleOrStuck(now);
  }

  // Every round but the last kills somebody, so the loop gets shorter.
  lemma OneMoreRound(s: Snapshot, killed: seq<int>, now: Snapshot, victim: seq<int>, next: Snapshot)
    requires RoundsOf(s, killed, now) && now.Valid() && Round(now, true, victim, next)
    ensures victim != [] && RoundsOf(s, killed + victim, next) && |next.procs| < |now.procs|
  {
    RoundsAreDisciplined(s, killed, now);
    var i: nat :| KillsOne(now, victim, next, i);
    KillPidIs(now, i);
    KillAllSnoc(s, killed, victim[0]);
    CycleKillsSnoc(WaitGraphOf(s), killed, victim[0]);
    BiggestFirstSnoc(WaitGraphOf(s), killed, victim[0]);
  }
}
