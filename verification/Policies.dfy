/**
 Which frame to give up: the meaning of the two replacement policies.
 */
module Policies {
  import opened Arith
  import opened Queues

  datatype FrameMeta = FrameMeta(isFree: bool, modified: bool, u: bool, pid: nat, page: nat, timeStamp: nat)

  // ----- a range of frames seen as a clock

  // The frame d places clockwise from the hand.
  function Clockwise(start: nat, total: nat, hand: nat, d: nat): nat {
    if hand + d < start + total then hand + d else hand + d - total
  }

  function Distance(total: nat, hand: nat, f: nat): int {
    if f >= hand then f - hand else f + total - hand
  }

  ghost predicate OnClock(start: nat, total: nat, hand: nat) {
    start <= hand < start + total
  }

  lemma ClockInverse(start: nat, total: nat, hand: nat, f: nat)
    requires OnClock(start, total, hand) && OnClock(start, total, f)
    ensures Distance(total, hand, f) < total
    ensures Clockwise(start, total, hand, Distance(total, hand, f)) == f
  {
  }

  lemma ClockwiseOnClock(start: nat, total: nat, hand: nat, d: nat)
    requires OnClock(start, total, hand) && d < total
    ensures OnClock(start, total, Clockwise(start, total, hand, d))
    ensures Distance(total, hand, Clockwise(start, total, hand, d)) == d
  {
  }

  // The hand advances modulo the size of the range, which works because ranges are aligned to their size.
  ghost predicate HandWraps(start: nat, total: nat) {
    total > 0 && forall c: nat :: OnClock(start, total, c) ==> NextHand(start, total, c) == Clockwise(start, total, c, 1)
  }

  function NextHand(start: nat, total: nat, c: nat): nat
    requires total > 0
  {
    start + (c + 1) % total
  }

  lemma AlignedRangeWraps(block: nat, start: nat, total: nat)
    requires total > 0 && start == block * total
    ensures HandWraps(start, total)
  {
    forall c: nat | OnClock(start, total, c) ensures NextHand(start, total, c) == Clockwise(start, total, c, 1) {
      if c + 1 < start + total {
        DivModOf(block, total, c + 1 - start);
      } else {
        DivModOf(block + 1, total, 0);
        assert (block + 1) * total == block * total + total;
      }
    }
  }

  // ----- enhanced clock

  // (u, modified), most significant first
  function Rank(e: FrameMeta): nat {
    (if e.u then 2 else 0) + (if e.modified then 1 else 0)
  }

  /** The frame of least (u, modified), and of those the first one clockwise from the hand. */
  ghost predicate ClockVictim(es: seq<FrameMeta>, start: nat, total: nat, hand: nat, v: nat)
    requires start + total <= |es|
  {
    && OnClock(start, total, v)
    && forall f: nat :: OnClock(start, total, f) ==>
         Rank(es[v]) < Rank(es[f])
         || (Rank(es[v]) == Rank(es[f]) && Distance(total, hand, v) <= Distance(total, hand, f))
  }

  lemma ClockVictimUnique(es: seq<FrameMeta>, start: nat, total: nat, hand: nat, v: nat, w: nat)
    requires start + total <= |es| && OnClock(start, total, hand)
    requires ClockVictim(es, start, total, hand, v) && ClockVictim(es, start, total, hand, w)
    ensures v == w
  {
    ClockInverse(start, total, hand, v);
    ClockInverse(start, total, hand, w);
  }

  // Frames that lose their use bit: those the second sweep passed before it stopped.
  ghost predicate Swept(es: seq<FrameMeta>, total: nat, hand: nat, v: nat, f: nat)
    requires v < |es|
  {
    Rank(es[v]) >= 2 || (Rank(es[v]) == 1 && Distance(total, hand, f) < Distance(total, hand, v))
  }

  ghost predicate ClockEffect(es: seq<FrameMeta>, start: nat, total: nat, hand: nat, v: nat, t: seq<FrameMeta>)
    requires start + total <= |es| && v < |es|
  {
    && |t| == |es|
    && forall f :: 0 <= f < |es| ==>
         t[f] == if OnClock(start, total, f) && Swept(es, total, hand, v, f) then es[f].(u := false) else es[f]
  }

  // The second sweep has cleared the use bits of the frames less than i places from the hand.
  ghost predicate SweptBelow(es: seq<FrameMeta>, t: seq<FrameMeta>, start: nat, total: nat, hand: nat, i: int) {
    && |t| == |es|
    && forall f: nat :: f < |es| ==>
         t[f] == if OnClock(start, total, f) && Distance(total, hand, f) < i then es[f].(u := false) else es[f]
  }

  lemma SweptNext(es: seq<FrameMeta>, t: seq<FrameMeta>, start: nat, total: nat, hand: nat, i: nat)
    requires start + total <= |es| && OnClock(start, total, hand) && i < total
    requires SweptBelow(es, t, start, total, hand, i)
    ensures var c := Clockwise(start, total, hand, i);
      OnClock(start, total, c) && t[c] == es[c]
      && SweptBelow(es, t[c := t[c].(u := false)], start, total, hand, i + 1)
  {
    ClockwiseOnClock(start, total, hand, i);
  }

  // The nearest frame from the hand among those with a property has it, and no nearer one does.
  ghost predicate NearestClean(es: seq<FrameMeta>, start: nat, total: nat, hand: nat, v: nat)
    requires start + total <= |es|
  {
    && OnClock(start, total, v) && Rank(es[v]) == 0
    && forall f: nat :: OnClock(start, total, f) && Rank(es[f]) == 0 ==> Distance(total, hand, v) <= Distance(total, hand, f)
  }

  ghost predicate NearestUnused(es: seq<FrameMeta>, start: nat, total: nat, hand: nat, v: nat)
    requires start + total <= |es|
  {
    && OnClock(start, total, v) && !es[v].u
    && forall f: nat :: OnClock(start, total, f) && Distance(total, hand, f) < Distance(total, hand, v) ==> es[f].u
  }

  ghost predicate NoneClean(es: seq<FrameMeta>, start: nat, total: nat)
    requires start + total <= |es|
  {
    forall f: nat :: OnClock(start, total, f) ==> Rank(es[f]) != 0
  }

  ghost predicate AllUsed(es: seq<FrameMeta>, start: nat, total: nat)
    requires start + total <= |es|
  {
    forall f: nat :: OnClock(start, total, f) ==> es[f].u
  }

  lemma FirstSweepFinds(es: seq<FrameMeta>, start: nat, total: nat, hand: nat, v: nat)
    requires start + total <= |es| && NearestClean(es, start, total, hand, v)
    ensures ClockVictim(es, start, total, hand, v) && ClockEffect(es, start, total, hand, v, es)
  {
  }

  lemma SecondSweepFinds(es: seq<FrameMeta>, t: seq<FrameMeta>, start: nat, total: nat, hand: nat, v: nat)
    requires start + total <= |es| && NoneClean(es, start, total) && NearestUnused(es, start, total, hand, v)
    requires SweptBelow(es, t, start, total, hand, Distance(total, hand, v))
    ensures ClockVictim(es, start, total, hand, v) && ClockEffect(es, start, total, hand, v, t)
  {
  }

  lemma ThirdSweepFinds(es: seq<FrameMeta>, t: seq<FrameMeta>, start: nat, total: nat, hand: nat, v: nat)
    requires start + total <= |es| && OnClock(start, total, hand) && AllUsed(es, start, total)
    requires SweptBelow(es, t, start, total, hand, total) && NearestClean(t, start, total, hand, v)
    ensures ClockVictim(es, start, total, hand, v) && ClockEffect(es, start, total, hand, v, t)
  {
    forall f: nat | OnClock(start, total, f) ensures t[f] == es[f].(u := false) {
      ClockInverse(start, total, hand, f);
    }
  }

  lemma FourthSweepFinds(es: seq<FrameMeta>, t: seq<FrameMeta>, r: seq<FrameMeta>, start: nat, total: nat, hand: nat, v: nat)
    requires start + total <= |es| && OnClock(start, total, hand) && AllUsed(es, start, total)
    requires SweptBelow(es, t, start, total, hand, total) && NoneClean(t, start, total)
    requires NearestUnused(t, start, total, hand, v)
    requires SweptBelow(t, r, start, total, hand, Distance(total, hand, v))
    ensures v == hand && ClockVictim(es, start, total, hand, v) && ClockEffect(es, start, total, hand, v, r)
  {
    forall f: nat | OnClock(start, total, f) ensures t[f] == es[f].(u := false) {
      ClockInverse(start, total, hand, f);
    }
    ClockInverse(start, total, hand, v);
  }

  // The fourth sweep stops at once.
  lemma FourthSweepStops(es: seq<FrameMeta>, t: seq<FrameMeta>, start: nat, total: nat, hand: nat)
    requires start + total <= |es| && OnClock(start, total, hand)
    requires SweptBelow(es, t, start, total, hand, total)
    ensures !t[hand].u
  {
    ClockInverse(start, total, hand, hand);
  }

  // ----- least recently used

  // What the scan for the smallest timestamp below the counter finds.
  ghost predicate OldestBelow(es: seq<FrameMeta>, start: nat, end: nat, bound: nat, f: int)
    requires end <= |es|
  {
    if f == -1 then forall k :: start <= k < end ==> es[k].timeStamp >= bound
    else
      && start <= f < end && es[f].timeStamp < bound
      && (forall k :: start <= k < end ==> es[f].timeStamp <= es[k].timeStamp)
      && (forall k :: start <= k < f ==> es[f].timeStamp < es[k].timeStamp)
  }

  ghost predicate Stamped(es: seq<FrameMeta>, history: seq<nat>) {
    forall f :: 0 <= f < |es| ==> es[f].timeStamp == LastUse(history, f)
  }

  lemma EffectKeepsStamps(es: seq<FrameMeta>, start: nat, total: nat, hand: nat, v: nat, t: seq<FrameMeta>, history: seq<nat>)
    requires start + total <= |es| && v < |es| && ClockEffect(es, start, total, hand, v, t) && Stamped(es, history)
    ensures Stamped(t, history)
  {
    forall f | 0 <= f < |t| ensures t[f].timeStamp == LastUse(history, f) {
      assert es[f].timeStamp == LastUse(history, f);
    }
  }

  /**
   Over two frames or more, all of them used, the scan succeeds, and the frame it
   finds is the one whose last use lies furthest back.
   */
  lemma LruIsOldest(es: seq<FrameMeta>, history: seq<nat>, start: nat, end: nat, f: int)
    requires end <= |es| && start + 2 <= end && Stamped(es, history)
    requires forall k :: start <= k < end ==> es[k].timeStamp > 0
    requires OldestBelow(es, start, end, |history|, f)
    ensures f != -1
    ensures forall k :: start <= k < end && k != f ==> LastUse(history, f) < LastUse(history, k)
  {
    LastUseApart(history, start, start + 1);
    if f != -1 {
      forall k | start <= k < end && k != f ensures LastUse(history, f) < LastUse(history, k) {
        LastUseApart(history, f, k);
      }
    }
  }

  /**
   Over a single frame the scan succeeds exactly when that frame was not the last
   one used anywhere.
   */
  lemma LruOfOneFrame(es: seq<FrameMeta>, history: seq<nat>, start: nat, f: int)
    requires start < |es| && Stamped(es, history)
    requires OldestBelow(es, start, start + 1, |history|, f)
    ensures f == -1 <==> history == [] || history[|history| - 1] == start
  {
    assert es[start].timeStamp == LastUse(history, start);
  }
}
