/** The kernel's scheduling threads, one method a step. */
module KernelThreads {
  import opened Queues
  import opened Scheduler

  class Kernel {
    const degree: nat
    var newQueue: seq<nat>
    var readyQueue: seq<nat>
    var exec: seq<nat>
    var blockedQueue: seq<nat>
    var suspendedBlockedQueue: seq<nat>
    var suspendedReadyQueue: seq<nat>
    var waking: seq<nat>
    var wakingSuspended: seq<nat>
    var semMultiprogram: nat
    var semNewProcess: nat
    var longTermSem: nat
    var cuposLibres: int
    // where the threads are between two steps
    ghost var unsuspender: nat
    ghost var longTerm: bool
    ghost var pendingPosts: nat
    ghost var pendingCredits: nat
    ghost var suspendedKills: nat

    constructor (degree: nat)
      ensures Valid() && State() == Start(degree) && this.degree == degree
    {
      this.degree := degree;
      newQueue, readyQueue, exec, blockedQueue, suspendedBlockedQueue, suspendedReadyQueue := [], [], [], [], [], [];
      waking, wakingSuspended := [], [];
      semMultiprogram, semNewProcess, longTermSem, cuposLibres := degree, 0, 0, degree;
      unsuspender, longTerm, pendingPosts, pendingCredits, suspendedKills := 0, false, 0, 0, 0;
    }

    ghost function State(): Sched
      reads this
    {
      Sched(newQueue, readyQueue, exec, blockedQueue, suspendedBlockedQueue, suspendedReadyQueue, waking, wakingSuspended,
            semMultiprogram, semNewProcess, longTermSem, cuposLibres, unsuspender, longTerm,
            pendingPosts, pendingCredits, suspendedKills)
    }

    ghost predicate Valid()
      reads this
    {
      Inv(State(), degree)
    }

    // Every thread may take the step it is at, and finds what it needs.
    ghost predicate Ready(ev: Event)
      reads this
    {
      Valid() && Enabled(State(), ev)
    }

    method PutToReady(pid: nat)
      modifies this`readyQueue
      ensures readyQueue == old(readyQueue) + [pid]
    {
      readyQueue := readyQueue + [pid];
    }

    // ----- main: a process connects

    method Connect(pid: nat)
      requires Ready(Arrive(pid))
      modifies this
      ensures Valid() && State() == Apply(old(State()), Arrive(pid))
    {
      StepKeepsInv(State(), Arrive(pid), degree);
      newQueue := newQueue + [pid];
      semNewProcess := semNewProcess + 1;
    }

    // ----- long-term thread

    method LongTermWait()
      requires Ready(PassLongTerm)
      modifies this
      ensures Valid() && State() == Apply(old(State()), PassLongTerm)
    {
      StepKeepsInv(State(), PassLongTerm, degree);
      longTermSem := longTermSem - 1;
      longTerm := true;
    }

    /** The thread takes the head of newQueue, which is never empty here. */
    method LongTermAdmit()
      requires Ready(Admit)
      modifies this
      ensures old(newQueue) != [] && Valid() && State() == Apply(old(State()), Admit)
    {
      StepKeepsInv(State(), Admit, degree);
      var process := newQueue[0];
      newQueue := newQueue[1..];
      PutToReady(process);
      cuposLibres := cuposLibres - 1;
      longTerm := false;
    }

    // ----- unsuspender thread

    method WaitSlot()
      requires Ready(PassSlot)
      modifies this
      ensures Valid() && State() == Apply(old(State()), PassSlot)
    {
      StepKeepsInv(State(), PassSlot, degree);
      semMultiprogram := semMultiprogram - 1;
      unsuspender := 1;
    }

    method WaitNew()
      requires Ready(PassNew)
      modifies this
      ensures Valid() && State() == Apply(old(State()), PassNew)
    {
      StepKeepsInv(State(), PassNew, degree);
      semNewProcess := semNewProcess - 1;
      unsuspender := 2;
    }

    // Takes the head of suspendedReadyQueue to ready.
    method Resume()
      requires suspendedReadyQueue != []
      modifies this`suspendedReadyQueue, this`readyQueue, this`cuposLibres
      ensures State() == old(State()).(suspendedReady := old(suspendedReadyQueue)[1..],
                                       ready := old(readyQueue) + [old(suspendedReadyQueue)[0]], cuposLibres := old(cuposLibres) - 1)
    {
      var process := suspendedReadyQueue[0];
      suspendedReadyQueue := suspendedReadyQueue[1..];
      PutToReady(process);
      cuposLibres := cuposLibres - 1;
    }

    /** Without a process to resume, the slot goes to the long-term thread. */
    method Unsuspend()
      requires Ready(Decide)
      modifies this
      ensures Valid() && State() == Apply(old(State()), Decide)
    {
      StepKeepsInv(State(), Decide, degree);
      unsuspender := 0;
      if suspendedReadyQueue == [] {
        longTermSem := longTermSem + 1;
      } else {
        Resume();
      }
    }

    // ----- medium-term thread

    /** The last process that blocked gives its slot up. */
    method SuspendLast()
      requires Ready(Suspend)
      modifies this
      ensures Valid() && State() == Apply(old(State()), Suspend)
    {
      StepKeepsInv(State(), Suspend, degree);
      var last := |blockedQueue| - 1;
      var process := blockedQueue[last];
      blockedQueue := blockedQueue[..last];
      suspendedBlockedQueue := suspendedBlockedQueue + [process];
      semMultiprogram := semMultiprogram + 1;
      cuposLibres := cuposLibres + 1;
    }

    // ----- CPU threads

    method TakeReady(pid: nat)
      requires Ready(Dispatch(pid))
      modifies this
      ensures Valid() && State() == Apply(old(State()), Dispatch(pid))
    {
      StepKeepsInv(State(), Dispatch(pid), degree);
      readyQueue := RemoveFirst(readyQueue, pid);
      exec := exec + [pid];
    }

    // A process waits in a semaphore without units, or for a device.
    method BlockProcess(pid: nat)
      requires Ready(Block(pid))
      modifies this
      ensures Valid() && State() == Apply(old(State()), Block(pid))
    {
      StepKeepsInv(State(), Block(pid), degree);
      exec := RemoveFirst(exec, pid);
      blockedQueue := blockedQueue + [pid];
    }

    method TerminateProcess(pid: nat)
      requires Ready(Terminate(pid))
      modifies this
      ensures Valid() && State() == Apply(old(State()), Terminate(pid))
    {
      StepKeepsInv(State(), Terminate(pid), degree);
      exec := RemoveFirst(exec, pid);
      PostSlot();
    }

    method CreditSlot()
      requires Ready(Credit)
      modifies this
      ensures Valid() && State() == Apply(old(State()), Credit)
    {
      StepKeepsInv(State(), Credit, degree);
      cuposLibres := cuposLibres + 1;
      pendingCredits := pendingCredits - 1;
    }

    // ----- device and semaphore threads

    method WakeProcess(pid: nat)
      requires Ready(Wake(pid))
      modifies this
      ensures Valid() && State() == Apply(old(State()), Wake(pid))
    {
      StepKeepsInv(State(), Wake(pid), degree);
      if pid in blockedQueue {
        blockedQueue := RemoveFirst(blockedQueue, pid);
        waking := waking + [pid];
      } else {
        suspendedBlockedQueue := RemoveFirst(suspendedBlockedQueue, pid);
        wakingSuspended := wakingSuspended + [pid];
      }
    }

    method ReadyWoken(pid: nat)
      requires Ready(PutReady(pid))
      modifies this
      ensures Valid() && State() == Apply(old(State()), PutReady(pid))
    {
      StepKeepsInv(State(), PutReady(pid), degree);
      waking := RemoveFirst(waking, pid);
      PutToReady(pid);
    }

    method QueueWoken(pid: nat)
      requires Ready(PutSuspendedReady(pid))
      modifies this
      ensures Valid() && State() == Apply(old(State()), PutSuspendedReady(pid))
    {
      StepKeepsInv(State(), PutSuspendedReady(pid), degree);
      wakingSuspended := RemoveFirst(wakingSuspended, pid);
      suspendedReadyQueue := suspendedReadyQueue + [pid];
      pendingPosts := pendingPosts + 1;
    }

    method PostWoken()
      requires Ready(PostNew)
      modifies this
      ensures Valid() && State() == Apply(old(State()), PostNew)
    {
      StepKeepsInv(State(), PostNew, degree);
      semNewProcess := semNewProcess + 1;
      pendingPosts := pendingPosts - 1;
    }

    // ----- deadlock detector thread

    // Takes a process that waits off its queue.
    method RemoveWaiting(pid: nat)
      requires pid in blockedQueue || pid in suspendedBlockedQueue
      modifies this`blockedQueue, this`suspendedBlockedQueue, this`suspendedKills
      ensures State() ==
        if pid in old(blockedQueue) then old(State()).(blocked := RemoveFirst(old(blockedQueue), pid))
        else old(State()).(suspendedBlocked := RemoveFirst(old(suspendedBlockedQueue), pid), suspendedKills := old(suspendedKills) + 1)
    {
      if pid in blockedQueue {
        blockedQueue := RemoveFirst(blockedQueue, pid);
      } else {
        suspendedBlockedQueue := RemoveFirst(suspendedBlockedQueue, pid);
        suspendedKills := suspendedKills + 1;
      }
    }

    method PostSlot()
      modifies this`semMultiprogram, this`pendingCredits
      ensures State() ==
        old(State()).(semMultiprogram := old(semMultiprogram) + 1, pendingCredits := old(pendingCredits) + 1)
    {
      semMultiprogram := semMultiprogram + 1;
      pendingCredits := pendingCredits + 1;
    }

    /** The slot of a killed process is posted whether or not it still had one. */
    method KillProcess(pid: nat)
      requires Ready(Kill(pid))
      modifies this
      ensures Valid() && State() == Apply(old(State()), Kill(pid))
    {
      ghost var st := State();
      StepKeepsInv(st, Kill(pid), degree);
      RemoveWaiting(pid);
      PostSlot();
    }
  }
}
