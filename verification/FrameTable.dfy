/**
 The frame table: per-frame metadata, assignment of frames to processes, victim
 selection.
 */
module FrameTable {
  import opened Arith
  import opened Queues
  import opened Policies

  // What the choice of a frame depends on: the frames, the order of their uses, who owns the blocks, the clock's hands.
  datatype FrameState = FrameState(frames: seq<FrameMeta>, history: seq<nat>, owners: seq<int>, hands: seq<nat>)

  // One frame was accessed: its use bit is set, and its access is the last one.
  function Accessed(was: FrameState, frame: nat): FrameState
    requires frame < |was.frames|
  {
    was.(history := was.history + [frame],
         frames := was.frames[frame := was.frames[frame].(u := true, timeStamp := |was.history| + 1)])
  }

  // One frame got a page: it is in use, used and not modified.
  function Labelled(was: FrameState, frame: nat, pid: nat, page: nat): FrameState
    requires frame < |was.frames|
  {
    was.(frames := was.frames[frame := FrameMeta(false, false, true, pid, page, was.frames[frame].timeStamp)])
  }

  // One frame was written.
  function Modified(was: FrameState, frame: nat): FrameState
    requires frame < |was.frames|
  {
    was.(frames := was.frames[frame := was.frames[frame].(modified := true, u := true)])
  }

  class Frames {
    const entries: array<FrameMeta>
    const fixed: bool
    const framesPerProcess: nat
    // owner of each block under fixed assignment, -1 if it has none
    const firstFrame: array<int>
    // one clock hand per block under fixed assignment, otherwise a single one
    const clockHands: array<nat>
    var clockHand: nat
    var counter: nat
    ghost var history: seq<nat>

    constructor (frameQty: nat, fixed: bool, framesPerProcess: nat)
      requires fixed ==> framesPerProcess > 0
      ensures Valid() && fresh(entries) && fresh(firstFrame) && fresh(clockHands)
      ensures this.fixed == fixed && this.framesPerProcess == framesPerProcess && entries.Length == frameQty
      ensures forall f :: 0 <= f < frameQty ==> entries[f] == FrameMeta(true, false, false, 0, 0, 0)
      ensures forall b :: 0 <= b < firstFrame.Length ==> firstFrame[b] == -1
      ensures firstFrame.Length == if fixed then frameQty / framesPerProcess else 0
      ensures history == []
    {
      entries := new FrameMeta[frameQty](_ => FrameMeta(true, false, false, 0, 0, 0));
      this.fixed, this.framesPerProcess := fixed, framesPerProcess;
      var blockQty := if fixed then frameQty / framesPerProcess else 0;
      firstFrame := new int[blockQty](_ => -1);
      clockHands := new nat[blockQty](b requires 0 <= b => MulNat(b, framesPerProcess));
      clockHand, counter, history := 0, 0, [];
    }

    static function MulNat(a: nat, b: nat): (c: nat)
      ensures c == a * b
    {
      MulMono(0, a, b);
      a * b
    }

    ghost predicate Valid()
      reads this, entries, firstFrame, clockHands
    {
      && firstFrame as object != clockHands as object
      && (fixed ==> framesPerProcess > 0 && firstFrame.Length == entries.Length / framesPerProcess)
      && (!fixed ==> firstFrame.Length == 0)
      && clockHands.Length == firstFrame.Length
      && (forall b :: 0 <= b < clockHands.Length ==> HandOk(b))
      && (!fixed && entries.Length > 0 ==> clockHand < entries.Length)
      && counter == |history| && Stamped(entries[..], history)
      && OwnersDistinct(firstFrame[..])
    }

    ghost predicate HandOk(b: nat)
      requires b < clockHands.Length
      reads clockHands
    {
      HandIn(b, clockHands[b])
    }

    // The position is in the block.
    ghost predicate HandIn(b: nat, c: nat) {
      MulNat(b, framesPerProcess) <= c < MulNat(b, framesPerProcess) + framesPerProcess
    }

    // start .. end is what the assignment gives to a process: a block, or everything.
    ghost predicate RangeOk(start: nat, end: nat, block: nat)
    {
      && end <= entries.Length
      && (if fixed then
            block < clockHands.Length && start == MulNat(block, framesPerProcess) && end == start + framesPerProcess
          else block == 0 && start == 0 && end == entries.Length)
    }

    // how many frames a process may choose a victim from
    function RangeSize(): nat {
      if fixed then framesPerProcess else entries.Length
    }

    ghost function Hands(): (hands: seq<nat>)
      reads this`clockHand, clockHands
    {
      if fixed then clockHands[..] else [clockHand]
    }

    ghost function Now(): FrameState
      reads this, entries, firstFrame, clockHands
    {
      FrameState(entries[..], history, firstFrame[..], Hands())
    }

    /**
     A fault of a process takes frame v: under fixed assignment one of its block, which it
     has or is given, and otherwise any.  No other block or hand changes.
     */
    ghost predicate Picks(lru: bool, was: FrameState, pid: nat, block: nat, v: nat, to: FrameState) {
      var start := if fixed then MulNat(block, framesPerProcess) else 0;
      var end := start + RangeSize();
      && end <= |was.frames| && block < |was.hands| == |to.hands|
      && (if fixed then BlockFor(was.owners, pid, block) && to.owners == was.owners[block := pid]
          else block == 0 && to.owners == was.owners)
      && Chosen(lru, was.frames, was.history, start, end, was.hands[block], v)
      && ChoiceLeaves(lru, was.frames, start, end, was.hands[block], v, to.frames, to.hands[block])
      && to.hands == was.hands[block := to.hands[block]] && to.history == was.history
    }

    // ----- assignment

    /** Fixed assignment: the process's block, or else the first one without an owner, which becomes its own. */
    method Fijo(pid: nat) returns (start: int, end: int, ok: bool, ghost block: nat)
      requires Valid() && fixed
      modifies firstFrame
      ensures Valid()
      ensures ok <==> Placeable(old(firstFrame[..]), pid)
      ensures !ok ==> start == end == -1 && firstFrame[..] == old(firstFrame[..])
      ensures ok ==> 0 <= start && 0 <= end && RangeOk(start, end, block)
      ensures ok ==> BlockFor(old(firstFrame[..]), pid, block)
      ensures ok ==> firstFrame[..] == old(firstFrame[..])[block := pid]
    {
      ghost var owners := firstFrame[..];
      for i := 0 to firstFrame.Length
        invariant firstFrame[..] == owners
        invariant forall b :: 0 <= b < i ==> owners[b] != pid
      {
        if firstFrame[i] == pid {
          BlockFits(i);
          assert owners[i := pid] == owners;
          return i * framesPerProcess, i * framesPerProcess + framesPerProcess, true, i;
        }
      }
      for i := 0 to firstFrame.Length
        invariant firstFrame[..] == owners
        invariant forall b :: 0 <= b < i ==> owners[b] != -1
      {
        if firstFrame[i] == -1 {
          BlockFits(i);
          firstFrame[i] := pid;
          assert firstFrame[..] == owners[i := pid];
          return i * framesPerProcess, i * framesPerProcess + framesPerProcess, true, i;
        }
      }
      return -1, -1, false, 0;
    }

    lemma BlockFits(b: nat)
      requires Valid() && fixed && b < clockHands.Length
      ensures RangeOk(MulNat(b, framesPerProcess), MulNat(b, framesPerProcess) + framesPerProcess, b)
    {
      DivMod(entries.Length, framesPerProcess);
      MulApart(b, clockHands.Length, framesPerProcess);
    }

    // ----- free frames

    method GetFreeFrame(start: nat, end: nat) returns (frame: int)
      requires start <= end <= entries.Length
      ensures frame == -1 ==> forall f :: start <= f < end ==> !entries[f].isFree
      ensures frame != -1 ==> LowestFree(entries[..], start, end, frame)
    {
      for i := start to end
        invariant forall f :: start <= f < i ==> !entries[f].isFree
      {
        if entries[i].isFree {
          return i;
        }
      }
      return -1;
    }

    // ----- least recently used

    method Lru(start: nat, end: nat) returns (frame: int)
      requires Valid() && start <= end <= entries.Length
      ensures if exists f :: start <= f < end && entries[f].isFree then frame != -1 && LowestFree(entries[..], start, end, frame)
              else OldestBelow(entries[..], start, end, |history|, frame)
    {
      frame := GetFreeFrame(start, end);
      if frame != -1 {
        return;
      }
      var min := counter;
      for i := start to end
        invariant frame == -1 || start <= frame < i
        invariant min == if frame == -1 then counter else entries[frame].timeStamp
        invariant OldestBelow(entries[..], start, i, counter, frame)
      {
        if entries[i].timeStamp < min {
          frame := i;
          min := entries[i].timeStamp;
        }
      }
    }

    // ----- enhanced clock

    // First sweep: the first frame neither used nor modified.
    method SweepClean(start: nat, total: nat, hand: nat)
      returns (found: bool, frame: nat, next: nat, ghost steps: nat)
      requires start + total <= entries.Length && OnClock(start, total, hand) && HandWraps(start, total)
      ensures found ==> NearestClean(entries[..], start, total, hand, frame) && next == Clockwise(start, total, frame, 1)
      ensures !found ==> next == hand && NoneClean(entries[..], start, total)
      ensures steps <= total
    {
      var c := hand;
      steps := 0;
      for i := 0 to total
        invariant OnClock(start, total, c) && steps == i
        invariant c == if i < total then Clockwise(start, total, hand, i) else hand
        invariant forall f: nat :: OnClock(start, total, f) && Distance(total, hand, f) < i ==> Rank(entries[..][f]) != 0
      {
        steps := steps + 1;
        assert NextHand(start, total, c) == Clockwise(start, total, c, 1);
        if !entries[c].u && !entries[c].modified {
          return true, c, NextHand(start, total, c), steps;
        }
        c := NextHand(start, total, c);
      }
      return false, 0, c, steps;
    }

    method ClearUse(f: nat)
      requires f < entries.Length
      modifies entries
      ensures entries[..] == old(entries[..])[f := old(entries[f]).(u := false)]
    {
      entries[f] := entries[f].(u := false);
    }

    // Second sweep: the first frame not used; the use bits of the frames passed are cleared.
    method SweepUse(start: nat, total: nat, hand: nat)
      returns (found: bool, frame: nat, next: nat, ghost steps: nat)
      requires start + total <= entries.Length && OnClock(start, total, hand) && HandWraps(start, total)
      modifies entries
      ensures found ==> NearestUnused(old(entries[..]), start, total, hand, frame) && next == Clockwise(start, total, frame, 1)
      ensures found ==> SweptBelow(old(entries[..]), entries[..], start, total, hand, Distance(total, hand, frame))
      ensures !found ==> next == hand && AllUsed(old(entries[..]), start, total)
      ensures !found ==> SweptBelow(old(entries[..]), entries[..], start, total, hand, total)
      ensures steps <= if found then Distance(total, hand, frame) + 1 else total
    {
      ghost var es := entries[..];
      var c := hand;
      steps := 0;
      for i := 0 to total
        invariant OnClock(start, total, c) && steps == i
        invariant c == if i < total then Clockwise(start, total, hand, i) else hand
        invariant forall f: nat :: OnClock(start, total, f) && Distance(total, hand, f) < i ==> es[f].u
        invariant SweptBelow(es, entries[..], start, total, hand, i)
      {
        steps := steps + 1;
        SweptNext(es, entries[..], start, total, hand, i);
        assert NextHand(start, total, c) == Clockwise(start, total, c, 1);
        if !entries[c].u {
          return true, c, NextHand(start, total, c), steps;
        }
        ClearUse(c);
        c := NextHand(start, total, c);
      }
      return false, 0, c, steps;
    }

    method SetHand(block: nat, c: nat)
      requires fixed ==> block < clockHands.Length
      modifies this`clockHand, clockHands
      ensures fixed ==> clockHands[..] == old(clockHands[..])[block := c] && clockHand == old(clockHand)
      ensures !fixed ==> clockHands[..] == old(clockHands[..]) && clockHand == c
    {
      if fixed {
        clockHands[block] := c;
      } else {
        clockHand := c;
      }
    }

    // What the frames of the range look like when a round of two sweeps begins.
    ghost predicate RoundBegins(es: seq<FrameMeta>, start: nat, total: nat, hand: nat, first: bool)
      requires start + total <= entries.Length && |es| == entries.Length
      reads entries
    {
      if first then entries[..] == es
      else AllUsed(es, start, total) && SweptBelow(es, entries[..], start, total, hand, total)
    }

    // A round: a sweep for a frame neither used nor modified, then one for a frame not used.  The second round finds one.
    method Round(start: nat, total: nat, hand: nat, ghost es: seq<FrameMeta>, ghost first: bool)
      returns (found: bool, frame: nat, next: nat, ghost steps: nat)
      requires start + total <= entries.Length && OnClock(start, total, hand) && HandWraps(start, total)
      requires |es| == entries.Length && RoundBegins(es, start, total, hand, first)
      modifies entries
      ensures found ==>
        && OnClock(start, total, frame) && next == Clockwise(start, total, frame, 1)
        && ClockVictim(es, start, total, hand, frame) && ClockEffect(es, start, total, hand, frame, entries[..])
      ensures !found ==> first && next == hand && RoundBegins(es, start, total, hand, false)
      ensures steps <= if first then 2 * total else total + 1
    {
      ghost var t := entries[..];
      ghost var s;
      found, frame, next, steps := SweepClean(start, total, hand);
      if found {
        if first {
          FirstSweepFinds(es, start, total, hand, frame);
        } else {
          ThirdSweepFinds(es, t, start, total, hand, frame);
        }
        return;
      }
      if !first {
        FourthSweepStops(es, t, start, total, hand);
      }
      found, frame, next, s := SweepUse(start, total, hand);
      steps := steps + s;
      if found {
        if first {
          SecondSweepFinds(es, entries[..], start, total, hand, frame);
        } else {
          FourthSweepFinds(es, t, entries[..], start, total, hand, frame);
        }
      }
    }

    /**
     Rounds of two sweeps until a victim is found.  It takes at most three full
     sweeps and one more frame.
     */
    method Sweep(start: nat, total: nat, hand: nat) returns (frame: nat, next: nat, ghost steps: nat)
      requires start + total <= entries.Length && OnClock(start, total, hand) && HandWraps(start, total)
      modifies entries
      ensures OnClock(start, total, frame) && next == Clockwise(start, total, frame, 1)
      ensures ClockVictim(old(entries[..]), start, total, hand, frame)
      ensures ClockEffect(old(entries[..]), start, total, hand, frame, entries[..])
      ensures steps <= 3 * total + 1
    {
      ghost var es := entries[..];
      ghost var first := true;
      var c := hand;
      steps := 0;
      while true
        invariant c == hand && RoundBegins(es, start, total, hand, first) && steps <= if first then 0 else 2 * total
        decreases first
      {
        var found;
        ghost var s;
        found, frame, next, s := Round(start, total, c, es, first);
        steps := steps + s;
        if found {
          return;
        }
        c, first := next, false;
      }
    }

    /** The victim among the frames of the range, and where the hand is left. */
    method ClockM(start: nat, end: nat, ghost block: nat) returns (frame: int, ghost steps: nat)
      requires Valid() && RangeOk(start, end, block) && start < end
      modifies this`clockHand, entries, clockHands
      ensures Valid() && steps <= 3 * (end - start) + 1
      ensures start <= frame < end
      ensures (exists f :: start <= f < end && old(entries[f].isFree)) ==>
        LowestFree(old(entries[..]), start, end, frame) && entries[..] == old(entries[..]) && Hands() == old(Hands())
      ensures (forall f :: start <= f < end ==> !old(entries[f].isFree)) ==>
        && ClockVictim(old(entries[..]), start, end - start, old(Hands()[block]), frame)
        && ClockEffect(old(entries[..]), start, end - start, old(Hands()[block]), frame, entries[..])
        && Hands() == old(Hands())[block := Clockwise(start, end - start, frame, 1)]
    {
      steps := 0;
      frame := GetFreeFrame(start, end);
      if frame == -1 {
        frame, steps := Turn(start, end - start, block);
      }
    }

    // The hand that serves the range, and where it starts from.
    method ReadHand(start: nat, total: nat, ghost block: nat) returns (at: nat, hand: nat)
      requires Valid() && RangeOk(start, start + total, block) && total > 0
      ensures fixed ==> at == block
      ensures hand == Hands()[block] && OnClock(start, total, hand)
      ensures HandWraps(start, total)
    {
      AlignedRangeWraps(if fixed then block else 0, start, total);
      if fixed {
        DivModOf(block, framesPerProcess, 0);
        at := start / framesPerProcess;
        assert HandOk(block);
        hand := clockHands[at];
      } else {
        at := 0;
        hand := clockHand;
      }
    }

    // The sweeps, which leave everything but use bits alone.
    method SweepRange(start: nat, total: nat, hand: nat) returns (frame: nat, next: nat, ghost steps: nat)
      requires Valid() && start + total <= entries.Length && OnClock(start, total, hand) && HandWraps(start, total)
      modifies entries
      ensures Valid() && steps <= 3 * total + 1
      ensures OnClock(start, total, frame) && OnClock(start, total, next) && next == Clockwise(start, total, frame, 1)
      ensures ClockVictim(old(entries[..]), start, total, hand, frame)
      ensures ClockEffect(old(entries[..]), start, total, hand, frame, entries[..])
    {
      ghost var es := entries[..];
      frame, next, steps := Sweep(start, total, hand);
      EffectKeepsStamps(es, start, total, hand, frame, entries[..], history);
    }

    // Leaves the hand somewhere in the range it serves.
    method LeaveHand(start: nat, end: nat, at: nat, c: nat, ghost block: nat)
      requires Valid() && RangeOk(start, end, block) && start <= c < end && (fixed ==> at == block)
      modifies this`clockHand, clockHands
      ensures Valid() && Hands() == old(Hands())[block := c]
    {
      ghost var hands := clockHands[..];
      forall b: nat | b < |hands| ensures HandIn(b, hands[b]) {
        assert HandOk(b);
      }
      SetHand(at, c);
      HandsStay(hands, block, c);
    }

    lemma HandsStay(hands: seq<nat>, block: nat, c: nat)
      requires |hands| == clockHands.Length && forall b: nat {:trigger HandIn(b, hands[b])} :: b < |hands| ==> HandIn(b, hands[b])
      requires if fixed then block < |hands| && HandIn(block, c) && clockHands[..] == hands[block := c] else clockHands[..] == hands
      ensures forall b :: 0 <= b < clockHands.Length ==> HandOk(b)
    {
      forall b | 0 <= b < clockHands.Length ensures HandOk(b) {
        assert clockHands[b] == clockHands[..][b];
        assert HandIn(b, hands[b]);
      }
    }

    method Turn(start: nat, total: nat, ghost block: nat) returns (frame: nat, ghost steps: nat)
      requires Valid() && RangeOk(start, start + total, block) && total > 0
      modifies this`clockHand, entries, clockHands
      ensures Valid() && steps <= 3 * total + 1 && OnClock(start, total, frame)
      ensures ClockVictim(old(entries[..]), start, total, old(Hands()[block]), frame)
      ensures ClockEffect(old(entries[..]), start, total, old(Hands()[block]), frame, entries[..])
      ensures Hands() == old(Hands())[block := Clockwise(start, total, frame, 1)]
    {
      var at, hand := ReadHand(start, total, block);
      var next;
      frame, next, steps := SweepRange(start, total, hand);
      LeaveHand(start, start + total, at, next, block);
    }

    // ----- the choice of a victim

    lemma LruFinds(start: nat, end: nat, victim: int)
      requires Valid() && start < end <= entries.Length && OldestBelow(entries[..], start, end, |history|, victim)
      requires forall k :: start <= k < end ==> entries[k].timeStamp > 0
      requires end == start + 1 ==> history != [] && history[|history| - 1] != start
      ensures start <= victim < end
      ensures forall k :: start <= k < end && k != victim ==> LastUse(history, victim) < LastUse(history, k)
    {
      if end == start + 1 {
        LruOfOneFrame(entries[..], history, start, victim);
      } else {
        LruIsOldest(entries[..], history, start, end, victim);
      }
    }

    // LRU over one used frame finds it unless it was the last one accessed.
    method VictimOfLru(start: nat, end: nat, ghost hand: nat) returns (victim: int)
      requires Valid() && start < end <= entries.Length && InUseWasUsed(entries[..])
      requires end == start + 1 && !entries[start].isFree ==> history != [] && history[|history| - 1] != start
      ensures start <= victim < end && Chosen(true, entries[..], history, start, end, hand, victim)
      ensures ChoiceLeaves(true, entries[..], start, end, hand, victim, entries[..], hand)
    {
      victim := Lru(start, end);
      if victim == -1 || !entries[victim].isFree {
        LruFinds(start, end, victim);
      }
    }

    method VictimOfClock(start: nat, end: nat, ghost block: nat) returns (victim: int)
      requires Valid() && RangeOk(start, end, block) && start < end
      modifies this`clockHand, entries, clockHands
      ensures Valid() && start <= victim < end
      ensures Chosen(false, old(entries[..]), history, start, end, old(Hands()[block]), victim)
      ensures ChoiceLeaves(false, old(entries[..]), start, end, old(Hands()[block]), victim, entries[..], Hands()[block])
      ensures Hands() == old(Hands())[block := Hands()[block]]
    {
      ghost var steps;
      victim, steps := ClockM(start, end, block);
    }

    // ----- updates of the metadata

    method UpdateTimestamp(frame: nat)
      requires Valid() && frame < entries.Length
      modifies this`counter, this`history, entries
      ensures Valid() && history == old(history) + [frame]
      ensures entries[..] == old(entries[..])[frame := old(entries[frame]).(timeStamp := |history|)]
    {
      ghost var es := entries[..];
      counter := counter + 1;
      entries[frame] := entries[frame].(timeStamp := counter);
      history := history + [frame];
      assert entries[..] == es[frame := es[frame].(timeStamp := counter)];
      forall f | 0 <= f < entries.Length ensures entries[..][f].timeStamp == LastUse(history, f) {
        LastUseAfter(history[..|history| - 1], frame, f);
        assert history == history[..|history| - 1] + [frame];
        assert es[f].timeStamp == LastUse(history[..|history| - 1], f);
      }
    }

    // Everything but the timestamp of one frame.
    method SetMeta(frame: nat, e: FrameMeta)
      requires Valid() && frame < entries.Length && e.timeStamp == entries[frame].timeStamp
      modifies entries
      ensures Valid() && entries[..] == old(entries[..])[frame := e]
    {
      ghost var es := entries[..];
      entries[frame] := e;
      assert entries[..] == es[frame := e];
      forall f | 0 <= f < entries.Length ensures entries[..][f].timeStamp == LastUse(history, f) {
        assert es[f].timeStamp == LastUse(history, f);
      }
    }

    method MarkUsed(frame: nat)
      requires Valid() && frame < entries.Length
      modifies entries
      ensures Valid() && entries[..] == old(entries[..])[frame := old(entries[frame]).(u := true)]
    {
      SetMeta(frame, entries[frame].(u := true));
    }

    // An access after a fault or a hit: the use bit, then the timestamp.
    method UseThenStamp(frame: nat)
      requires Valid() && frame < entries.Length
      modifies this`counter, this`history, entries
      ensures Valid() && Now() == Accessed(old(Now()), frame)
    {
      MarkUsed(frame);
      UpdateTimestamp(frame);
    }

    // An access through the page table: the timestamp, then the use bit.
    method StampThenUse(frame: nat)
      requires Valid() && frame < entries.Length
      modifies this`counter, this`history, entries
      ensures Valid() && Now() == Accessed(old(Now()), frame)
    {
      UpdateTimestamp(frame);
      MarkUsed(frame);
    }

    method MarkModified(frame: nat)
      requires Valid() && frame < entries.Length
      modifies entries
      ensures Valid() && entries[..] == old(entries[..])[frame := old(entries[frame]).(modified := true, u := true)]
    {
      SetMeta(frame, entries[frame].(modified := true, u := true));
    }

    method MarkFree(frame: nat)
      requires Valid() && frame < entries.Length
      modifies entries
      ensures Valid() && entries[..] == old(entries[..])[frame := old(entries[frame]).(isFree := true)]
    {
      SetMeta(frame, entries[frame].(isFree := true));
    }

    method ClearFrameMetadata(frame: nat)
      requires Valid() && frame < entries.Length
      modifies entries
      ensures Valid()
      ensures entries[..] ==
        old(entries[..])[frame := old(entries[frame]).(isFree := true, page := 0, u := false, modified := false)]
    {
      SetMeta(frame, entries[frame].(isFree := true, page := 0, u := false, modified := false));
    }

    method Label(frame: nat, pid: nat, page: nat)
      requires Valid() && frame < entries.Length
      modifies entries
      ensures Valid()
      ensures entries[..] ==
        old(entries[..])[frame := FrameMeta(false, false, true, pid, page, old(entries[frame]).timeStamp)]
    {
      SetMeta(frame, FrameMeta(false, false, true, pid, page, entries[frame].timeStamp));
    }

    // The blocks of a process lose their owner.
    method ReleaseBlocks(pid: nat)
      requires Valid()
      modifies firstFrame
      ensures Valid()
      ensures firstFrame[..] == Released(old(firstFrame[..]), pid)
    {
      ghost var owners := firstFrame[..];
      for b := 0 to firstFrame.Length
        invariant forall a :: 0 <= a < b ==> firstFrame[a] == if owners[a] == pid then -1 else owners[a]
        invariant forall a :: b <= a < firstFrame.Length ==> firstFrame[a] == owners[a]
      {
        if firstFrame[b] == pid {
          firstFrame[b] := -1;
        }
      }
      assert firstFrame[..] == Released(owners, pid);
    }
  }

  // ----- owners of blocks

  ghost predicate OwnersDistinct(owners: seq<int>) {
    forall a, b :: 0 <= a < b < |owners| && owners[a] != -1 ==> owners[a] != owners[b]
  }

  ghost predicate Placeable(owners: seq<int>, pid: nat) {
    pid in owners || -1 in owners
  }

  // The block a process has, or is given.
  ghost predicate BlockFor(owners: seq<int>, pid: nat, b: nat) {
    && b < |owners|
    && (if pid in owners then owners[b] == pid
        else owners[b] == -1 && forall a :: 0 <= a < b ==> owners[a] != -1)
  }

  ghost predicate LowestFree(es: seq<FrameMeta>, start: nat, end: nat, f: int) {
    start <= f < end <= |es| && es[f].isFree && forall g :: start <= g < f ==> !es[g].isFree
  }

  ghost predicate SomeFree(es: seq<FrameMeta>, start: nat, end: nat)
    requires end <= |es|
  {
    exists f :: start <= f < end && es[f].isFree
  }

  /**
   The frame a fault takes of a range: the lowest free one; if there is none, under LRU
   the one whose last use is oldest, and otherwise the one the clock finds from its hand.
   */
  ghost predicate Chosen(lru: bool, es: seq<FrameMeta>, history: seq<nat>, start: nat, end: nat, hand: nat, v: nat)
    requires start <= end <= |es|
  {
    if SomeFree(es, start, end) then LowestFree(es, start, end, v)
    else if lru then
      start <= v < end && forall f :: start <= f < end && f != v ==> LastUse(history, v) < LastUse(history, f)
    else ClockVictim(es, start, end - start, hand, v)
  }

  // What the choice leaves of the frames, and where it leaves the hand.
  ghost predicate ChoiceLeaves(lru: bool, es: seq<FrameMeta>, start: nat, end: nat, hand: nat, v: nat, t: seq<FrameMeta>, next: nat)
    requires start <= end <= |es|
  {
    if lru || SomeFree(es, start, end) then t == es && next == hand
    else v < |es| && ClockEffect(es, start, end - start, hand, v, t) && next == Clockwise(start, end - start, v, 1)
  }

  function Released(owners: seq<int>, pid: nat): (r: seq<int>)
    ensures |r| == |owners|
    ensures forall b :: 0 <= b < |r| ==> r[b] == if owners[b] == pid then -1 else owners[b]
  {
    seq(|owners|, b requires 0 <= b < |owners| => if owners[b] == pid then -1 else owners[b])
  }

  // ----- blocks belong to processes

  ghost predicate InBlock(b: nat, size: nat, f: nat) {
    b * size <= f < b * size + size
  }

  // A frame in use belongs to the owner of its block.
  ghost predicate BlocksOwned(es: seq<FrameMeta>, owners: seq<int>, size: nat) {
    forall b: nat, f: nat {:trigger InBlock(b, size, f)} ::
      b < |owners| && f < |es| && InBlock(b, size, f) && !es[f].isFree ==> owners[b] == es[f].pid
  }

  // Every frame in use was used.
  ghost predicate InUseWasUsed(es: seq<FrameMeta>) {
    forall f :: 0 <= f < |es| && !es[f].isFree ==> es[f].timeStamp > 0
  }

  lemma OneBlock(a: nat, b: nat, size: nat, f: nat)
    requires InBlock(a, size, f) && InBlock(b, size, f)
    ensures a == b
  {
    if a < b {
      MulApart(a, b, size);
    } else if b < a {
      MulApart(b, a, size);
    }
  }

  lemma AssignKeepsOwned(es: seq<FrameMeta>, owners: seq<int>, size: nat, b: nat, pid: nat)
    requires BlocksOwned(es, owners, size) && b < |owners| && (owners[b] == -1 || owners[b] == pid)
    ensures BlocksOwned(es, owners[b := pid], size)
  {
  }

  // A frame of the process's own block may be labelled with one of its pages.
  lemma LabelKeepsOwned(es: seq<FrameMeta>, owners: seq<int>, size: nat, b: nat, f: nat, e: FrameMeta)
    requires BlocksOwned(es, owners, size) && f < |es|
    requires b < |owners| && InBlock(b, size, f) && owners[b] == e.pid
    ensures BlocksOwned(es[f := e], owners, size)
  {
    forall a: nat, g: nat | a < |owners| && g < |es| && InBlock(a, size, g) && !es[f := e][g].isFree
      ensures owners[a] == es[f := e][g].pid
    {
      if g == f {
        OneBlock(a, b, size, f);
      }
    }
  }

  // Releasing the blocks of a process none of whose pages is in a frame.
  lemma ReleaseKeepsOwned(es: seq<FrameMeta>, owners: seq<int>, size: nat, pid: nat)
    requires BlocksOwned(es, owners, size) && forall f :: 0 <= f < |es| && !es[f].isFree ==> es[f].pid != pid
    ensures BlocksOwned(es, Released(owners, pid), size)
  {
  }
}
