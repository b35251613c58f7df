/**
 Shifts and masks of unsigned numbers, bit by bit, as quotients and remainders by powers of two, and
 the rounding up that src/uthash.h computes with them.
 */
module MachineWords {

  function Pow2(n: nat): (p: nat)
    ensures p > 0
  {
    if n == 0 then 1 else 2 * Pow2(n - 1)
  }

  /** x >> k: the last bit goes, k times. */
  function Shifted(x: nat, k: nat): nat {
    if k == 0 then x else Shifted(x, k - 1) / 2
  }

  /** x & y: the last bits are multiplied, and so on. */
  function And(x: nat, y: nat): nat {
    if x == 0 || y == 0 then 0 else x % 2 * (y % 2) + 2 * And(x / 2, y / 2)
  }

  /** Shifting right by k is the quotient by 2^k. */
  lemma {:induction false} ShiftIsQuotient(x: nat, k: nat)
    ensures Shifted(x, k) == x / Pow2(k)
  {
    if k > 0 {
      ShiftIsQuotient(x, k - 1);
      QuotientTwice(x, Pow2(k - 1));
    }
  }

  /** Masking with 2^k - 1 is the remainder by 2^k. */
  lemma {:induction false} MaskIsRemainder(x: nat, k: nat)
    ensures And(x, Pow2(k) - 1) == x % Pow2(k)
  {
    if k > 0 {
      var m := Pow2(k) - 1;
      assert m % 2 == 1 && m / 2 == Pow2(k - 1) - 1;
      MaskIsRemainder(x / 2, k - 1);
      RemainderTwice(x, Pow2(k - 1));
      if x == 0 {
        DivisionUnique(0, Pow2(k), 0, 0);
      }
    }
  }

  lemma Divide(x: nat, b: nat) returns (q: nat, r: nat)
    requires b > 0
    ensures x == q * b + r && r == x % b < b && q == x / b
  {
    q, r := x / b, x % b;
  }

  lemma Reassociate(q: nat, p: nat)
    ensures q * (2 * p) == 2 * (q * p)
  {
  }

  lemma DivisionUnique(x: nat, b: nat, q: nat, r: nat)
    requires r < b && x == q * b + r
    ensures x % b == r && x / b == q
  {
    var q', r' := Divide(x, b);
    if q' < q {
      AtLeast(q - q', b);
      Distribute(q, q', b);
    } else if q < q' {
      AtLeast(q' - q, b);
      Distribute(q', q, b);
    }
  }

  lemma AtLeast(d: nat, b: nat)
    requires d > 0
    ensures d * b >= b
  {
  }

  lemma Distribute(a: nat, c: nat, b: nat)
    ensures (a - c) * b == a * b - c * b
  {
  }

  lemma RemainderTwice(x: nat, p: nat)
    requires p > 0
    ensures x % (2 * p) == x % 2 + 2 * (x / 2 % p)
  {
    var q, r := Divide(x / 2, p);
    Reassociate(q, p);
    DivisionUnique(x, 2 * p, q, x % 2 + 2 * r);
  }

  lemma QuotientTwice(x: nat, p: nat)
    requires p > 0
    ensures x / p / 2 == x / (2 * p)
  {
    var q, r := Divide(x, p);
    Reassociate(q / 2, p);
    assert q == 2 * (q / 2) + q % 2;
    Split(q / 2, q % 2, p);
    DivisionUnique(x, 2 * p, q / 2, q % 2 * p + r);
  }

  lemma Split(h: nat, b: nat, p: nat)
    requires b < 2
    ensures (2 * h + b) * p == 2 * (h * p) + b * p && b * p <= p
  {
  }

  // ----- Rounding up -----

  /** c is the quotient of n by b, rounded up. */
  ghost predicate IsCeiling(c: nat, n: nat, b: nat) {
    (c == 0 ==> n == 0) && (c > 0 ==> (c - 1) * b < n) && n <= c * b
  }

  /** Quotient and remainder give the ceiling, which is positive for a positive n. */
  lemma CeilingFact(n: nat, b: nat)
    requires b > 0
    ensures var c := n / b + (if n % b != 0 then 1 else 0);
            IsCeiling(c, n, b) && (n > 0 ==> c > 0)
  {
    var q, r := n / b, n % b;
    assert n == q * b + r;
    assert (q + 1) * b == q * b + b;
    assert q > 0 ==> (q - 1) * b == q * b - b;
  }

  /** The ceiling of n by 2^k as HASH_EXPAND_BUCKETS computes it: a shift, and one more if anything
      is left under the mask. */
  lemma CeilingOfBits(n: nat, k: nat)
    ensures var c := Shifted(n, k) + (if And(n, Pow2(k) - 1) != 0 then 1 else 0);
      IsCeiling(c, n, Pow2(k)) && (n > 0 ==> c > 0)
  {
    ShiftIsQuotient(n, k);
    MaskIsRemainder(n, k);
    CeilingFact(n, Pow2(k));
  }
}
