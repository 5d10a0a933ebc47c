/** Division with remainder, in the few forms paging needs. */
module Arith {

  lemma {:induction false} MulMono(a: int, b: int, t: nat)
    requires a <= b
    ensures a * t <= b * t
    decreases b - a
  {
    if a < b {
      MulMono(a, b - 1, t);
      assert b * t == (b - 1) * t + t;
    }
  }

  // Quotient and remainder are determined.
  lemma DivUnique(q: int, r: nat, p: int, s: nat, t: nat)
    requires r < t && s < t && q * t + r == p * t + s
    ensures q == p && r == s
  {
    if q < p {
      MulApart(q, p, t);
    } else if p < q {
      MulApart(p, q, t);
    }
  }

  lemma DivModOf(q: nat, t: nat, r: nat)
    requires r < t
    ensures q * t + r >= 0 && (q * t + r) / t == q && (q * t + r) % t == r
  {
    MulMono(0, q, t);
    var x := q * t + r;
    assert x == (x / t) * t + x % t;
    DivUnique(q, r, x / t, x % t, t);
  }

  lemma DivMod(x: nat, t: nat)
    requires t > 0
    ensures x == (x / t) * t + x % t && 0 <= x % t < t && 0 <= x / t
  {
  }

  // Products with distinct factors are at least one t apart.
  lemma MulApart(a: int, b: int, t: nat)
    requires a < b
    ensures a * t + t <= b * t
  {
    MulMono(a + 1, b, t);
    assert (a + 1) * t == a * t + t;
  }

  // C's integer division: it truncates toward zero.
  function CQuot(a: int, b: int): int
    requires b > 0
  {
    if a < 0 then -((-a) / b) else a / b
  }

  function CRem(a: int, b: int): int
    requires b > 0
  {
    a - CQuot(a, b) * b
  }

  // Division that rounds up.
  function DivRoundUp(a: int, b: int): int
    requires b > 0
  {
    if CRem(a, b) == 0 then CQuot(a, b) else CQuot(a, b) + 1
  }

  lemma RoundUpCovers(a: nat, b: nat)
    requires a > 0 && b > 0
    ensures var q := DivRoundUp(a, b); 0 < q && (q - 1) * b < a <= q * b
  {
    DivMod(a, b);
    assert a == (a / b) * b + a % b;
    assert (a / b + 1) * b == (a / b) * b + b;
    if a % b == 0 {
      assert (a / b - 1) * b == (a / b) * b - b;
    }
  }
}
