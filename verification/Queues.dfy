/** Queues that processes and cache entries wait in, and the order of last uses. */
module Queues {

  // Entry k is the first one equal to x.
  predicate FirstAt<T(==)>(q: seq<T>, x: T, k: nat) {
    k < |q| && q[k] == x && forall l :: 0 <= l < k ==> q[l] != x
  }

  function IndexOf<T(==)>(q: seq<T>, x: T): (k: nat)
    requires x in q
    ensures FirstAt(q, x, k)
  {
    if q[0] == x then 0
    else
      assert q == [q[0]] + q[1..];
      1 + IndexOf(q[1..], x)
  }

  // The queue without its first x; everybody else keeps their place in the order.
  function RemoveFirst<T(==)>(q: seq<T>, x: T): (r: seq<T>)
    ensures x !in q ==> r == q
    ensures forall k: nat {:trigger FirstAt(q, x, k)} :: FirstAt(q, x, k) ==> r == q[..k] + q[k + 1..]
  {
    if x in q then
      var k := IndexOf(q, x);
      q[..k] + q[k + 1..]
    else q
  }

  // The queue with its first x moved to the end, the others in the order they were.
  ghost predicate MovedToEnd<T>(q: seq<T>, x: T, to: seq<T>) {
    exists k: nat :: FirstAt(q, x, k) && to == q[..k] + q[k + 1..] + [x]
  }

  lemma RemoveThenAppend<T>(q: seq<T>, x: T)
    requires x in q
    ensures MovedToEnd(q, x, RemoveFirst(q, x) + [x])
  {
    var k := IndexOf(q, x);
    assert FirstAt(q, x, k);
  }

  lemma HeadMoves<T>(q: seq<T>)
    requires q != []
    ensures MovedToEnd(q, q[0], q[1..] + [q[0]])
  {
    assert FirstAt(q, q[0], 0);
  }

  lemma RemoveFirstElements<T>(q: seq<T>, x: T)
    ensures multiset(RemoveFirst(q, x)) == multiset(q) - multiset{x}
    ensures forall y :: y in RemoveFirst(q, x) ==> y in q
    ensures forall y :: y in q && y != x ==> y in RemoveFirst(q, x)
  {
    if x in q {
      var k := IndexOf(q, x);
      assert q == q[..k] + [x] + q[k + 1..];
    } else {
      assert multiset(q)[x] == 0;
    }
  }

  // Nobody is in the queue twice.
  predicate NoTwice<T(==)>(q: seq<T>) {
    forall k, l :: 0 <= k < l < |q| ==> q[k] != q[l]
  }

  lemma RemoveFirstOnce<T>(q: seq<T>, x: T)
    requires NoTwice(q)
    ensures NoTwice(RemoveFirst(q, x)) && x !in RemoveFirst(q, x)
  {
    if x in q {
      var k := IndexOf(q, x);
      assert RemoveFirst(q, x) == q[..k] + q[k + 1..];
    }
  }

  // ----- last uses

  // One more than the position of the last x in a history; 0 if there is none.
  function LastUse<T(==)>(history: seq<T>, x: T): (n: nat)
    ensures n <= |history|
    ensures n > 0 ==> history[n - 1] == x
    ensures forall k :: n <= k < |history| ==> history[k] != x
  {
    if history == [] then 0
    else if history[|history| - 1] == x then |history|
    else LastUse(history[..|history| - 1], x)
  }

  // No two are last used at the same time.
  lemma LastUseApart<T>(history: seq<T>, x: T, y: T)
    requires x != y && LastUse(history, x) > 0
    ensures LastUse(history, x) != LastUse(history, y)
  {
  }

  lemma LastUseAfter<T>(history: seq<T>, used: T, x: T)
    ensures LastUse(history + [used], x) == if x == used then |history| + 1 else LastUse(history, x)
  {
    assert (history + [used])[..|history|] == history;
  }

  // ----- a queue in the order of last uses

  ghost predicate Later(h: seq<nat>, x: nat, y: nat) {
    LastUse(h, x) < LastUse(h, y)
  }

  // The last places in the queue are in the order of the last uses.
  ghost predicate InUseOrder(q: seq<nat>, h: seq<nat>) {
    && (forall x :: x in q ==> LastUse(h, x) > 0)
    && (forall x, y {:trigger Later(q, x, y)} {:trigger Later(h, x, y)} :: x in q && y in q ==> (Later(q, x, y) <==> Later(h, x, y)))
  }

  lemma UseAppends(q: seq<nat>, h: seq<nat>, i: nat)
    requires InUseOrder(q, h)
    ensures InUseOrder(q + [i], h + [i])
  {
    forall x | x in q + [i] ensures LastUse(h + [i], x) > 0 {
      LastUseAfter(h, i, x);
    }
    forall x, y | x in q + [i] && y in q + [i] ensures Later(q + [i], x, y) <==> Later(h + [i], x, y) {
      LastUseAfter(q, i, x);
      LastUseAfter(q, i, y);
      LastUseAfter(h, i, x);
      LastUseAfter(h, i, y);
      assert x != i && y != i ==> (Later(q, x, y) <==> Later(h, x, y));
    }
  }

  // Taking an entry out moves the later ones one place on.
  lemma LastUseWithout(q: seq<nat>, k: nat, x: nat)
    requires k < |q| && q[k] != x
    ensures var n := LastUse(q, x); LastUse(q[..k] + q[k + 1..], x) == if n > k then n - 1 else n
  {
    var r, n := q[..k] + q[k + 1..], LastUse(q, x);
    var m := if n > k then n - 1 else n;
    assert m > 0 ==> r[m - 1] == x;
    forall l | m <= l < |r| ensures r[l] != x {
      assert r[l] == q[if l < k then l else l + 1];
    }
  }

  lemma MoveKeepsOrder(q: seq<nat>, h: seq<nat>, i: nat, to: seq<nat>)
    requires InUseOrder(q, h) && MovedToEnd(q, i, to)
    ensures InUseOrder(to, h + [i])
  {
    var k: nat :| FirstAt(q, i, k) && to == q[..k] + q[k + 1..] + [i];
    var r := q[..k] + q[k + 1..];
    forall x | x in to ensures LastUse(h + [i], x) > 0 {
      LastUseAfter(h, i, x);
    }
    forall x, y | x in to && y in to ensures Later(to, x, y) <==> Later(h + [i], x, y) {
      MovedLater(q, k, i, x, y);
      LastUseAfter(h, i, x);
      LastUseAfter(h, i, y);
    }
  }

  lemma MovedLater(q: seq<nat>, k: nat, i: nat, x: nat, y: nat)
    requires FirstAt(q, i, k)
    ensures var to := q[..k] + q[k + 1..] + [i];
      && (x != i && y != i && x in q && y in q ==> (Later(to, x, y) <==> Later(q, x, y)))
      && (x == i ==> !Later(to, x, y)) && (x != i && y == i ==> Later(to, x, y))
  {
    var r := q[..k] + q[k + 1..];
    LastUseAfter(r, i, x);
    LastUseAfter(r, i, y);
    if x != i && y != i {
      LastUseWithout(q, k, x);
      LastUseWithout(q, k, y);
    }
  }

  lemma OutKeepsOrder(q: seq<nat>, h: seq<nat>, k: nat)
    requires InUseOrder(q, h) && NoTwice(q) && k < |q|
    ensures InUseOrder(q[..k] + q[k + 1..], h)
  {
    var r := q[..k] + q[k + 1..];
    forall x, y | x in r && y in r ensures Later(r, x, y) <==> Later(h, x, y) {
      LastUseWithout(q, k, x);
      LastUseWithout(q, k, y);
      assert Later(q, x, y) <==> Later(h, x, y);
    }
  }

  lemma RemoveKeepsOrder(q: seq<nat>, h: seq<nat>, x: nat)
    requires InUseOrder(q, h) && NoTwice(q) && x in q
    ensures InUseOrder(RemoveFirst(q, x), h)
  {
    var k := IndexOf(q, x);
    assert RemoveFirst(q, x) == q[..k] + q[k + 1..];
    OutKeepsOrder(q, h, k);
  }

  lemma LastIsLatest(q: seq<nat>, h: seq<nat>, x: nat)
    requires InUseOrder(q, h) && q != [] && x in q && x != q[|q| - 1]
    ensures LastUse(h, x) < LastUse(h, q[|q| - 1])
  {
    assert Later(q, x, q[|q| - 1]);
  }

  // The head is not queued again behind the last place of another entry.
  ghost predicate HeadIsOldest(q: seq<nat>)
    requires q != []
  {
    forall x :: x in q && x != q[0] ==> Later(q, q[0], x)
  }

  /** The head of a queue in the order of last uses is the one used least recently exactly if it is not queued again later. */
  lemma HeadIsLeastRecent(q: seq<nat>, h: seq<nat>)
    requires InUseOrder(q, h) && q != []
    ensures HeadIsOldest(q) <==> forall x :: x in q && x != q[0] ==> LastUse(h, q[0]) < LastUse(h, x)
  {
    forall x | x in q && x != q[0] ensures Later(q, q[0], x) <==> LastUse(h, q[0]) < LastUse(h, x) {
    }
  }

  lemma NoTwiceHeadIsOldest(q: seq<nat>)
    requires NoTwice(q) && q != []
    ensures HeadIsOldest(q)
  {
    forall x | x in q && x != q[0] ensures Later(q, q[0], x) {
      var k :| 0 <= k < |q| && q[k] == x;
      var n := LastUse(q, q[0]);
      assert q[n - 1] == q[0];
    }
  }

  lemma MoveKeepsNoTwice<T>(q: seq<T>, x: T, to: seq<T>)
    requires NoTwice(q) && MovedToEnd(q, x, to)
    ensures NoTwice(to) && |to| == |q| && forall y :: y in to <==> y in q
  {
    var k: nat :| FirstAt(q, x, k) && to == q[..k] + q[k + 1..] + [x];
    assert q == q[..k] + [x] + q[k + 1..];
    forall y ensures y in to <==> y in q {
    }
  }
}
