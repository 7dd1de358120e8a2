/**
 * The redraw throttle of `rm_fmt_prog`: a request redraws when the counter
 * value it reads is a multiple of the update interval.  Over a run of requests
 * that read consecutive counter values this is a count of multiples.
 */
module Throttle {

  /** How many of the counter values `c, c + 1, ..., c + n - 1` are multiples
      of `interval`: the number of redraws in a run of `n` throttled requests. */
  function Ticks(c: nat, n: nat, interval: nat): nat
    requires interval >= 1
    decreases n
  {
    if n == 0 then 0 else (if c % interval == 0 then 1 else 0) + Ticks(c + 1, n - 1, interval)
  }

  /** Euclidean division is determined by quotient and remainder. */
  lemma DivUnique(a: int, d: int, q: int, r: int)
    requires d >= 1 && 0 <= r < d && a == q * d + r
    ensures a / d == q && a % d == r
  {
    var q0, r0 := a / d, a % d;
    assert q0 * d + r0 == a;
    assert (q - q0) * d == r0 - r;
    SmallMultiple(q - q0, d);
  }

  /** The only multiple of `d` strictly between `-d` and `d` is zero. */
  lemma SmallMultiple(k: int, d: int)
    requires d >= 1 && -d < k * d < d
    ensures k == 0
  {
    assert k >= 1 ==> k * d >= d;
    assert k <= -1 ==> k * d <= -d;
  }

  /** `(c + interval - 1) / interval` counts the multiples of `interval` below
      `c`; it grows by one from `c` to `c + 1` exactly when `c` is a multiple. */
  lemma CeilStep(c: nat, interval: nat)
    requires interval >= 1
    ensures (c + interval) / interval - (c + interval - 1) / interval == if c % interval == 0 then 1 else 0
  {
    var q, r := c / interval, c % interval;
    if r == 0 {
      DivUnique(c + interval - 1, interval, q, interval - 1);
      DivUnique(c + interval, interval, q + 1, 0);
    } else {
      DivUnique(c + interval - 1, interval, q + 1, r - 1);
      DivUnique(c + interval, interval, q + 1, r);
    }
  }

  /** The number of multiples of `interval` in `[c, c + n)` in closed form. */
  lemma {:induction false} TicksClosedForm(c: nat, n: nat, interval: nat)
    requires interval >= 1
    ensures Ticks(c, n, interval) == (c + n + interval - 1) / interval - (c + interval - 1) / interval
    decreases n
  {
    if n > 0 {
      TicksClosedForm(c + 1, n - 1, interval);
      CeilStep(c, interval);
    }
  }

  /** `n / d` rounded up. */
  function CeilDiv(n: nat, d: nat): nat
    requires d >= 1
  {
    (n + d - 1) / d
  }

  /** `ceil(a / d)` from the quotient and remainder of `a`. */
  lemma CeilOf(a: nat, d: nat, q: nat, r: nat)
    requires d >= 1 && r < d && a == q * d + r
    ensures CeilDiv(a, d) == q + (if r > 0 then 1 else 0)
  {
    if r > 0 {
      DivUnique(a + d - 1, d, q + 1, r - 1);
    } else {
      DivUnique(a + d - 1, d, q, d - 1);
    }
  }

  /** Rounding up a sum loses at most one against rounding up its parts,
      and nothing when the first part is a multiple. */
  lemma CeilSplit(a: nat, b: nat, d: nat)
    requires d >= 1
    ensures CeilDiv(a, d) + CeilDiv(b, d) - 1 <= CeilDiv(a + b, d) <= CeilDiv(a, d) + CeilDiv(b, d)
    ensures a % d == 0 ==> CeilDiv(a + b, d) == CeilDiv(a, d) + CeilDiv(b, d)
  {
    var qa, ra := a / d, a % d;
    var qb, rb := b / d, b % d;
    CeilOf(a, d, qa, ra);
    CeilOf(b, d, qb, rb);
    CeilOfSum(a, b, d, qa, ra, qb, rb);
  }

  /** The case split behind `CeilSplit`, on quotients and remainders given. */
  lemma CeilOfSum(a: nat, b: nat, d: nat, qa: nat, ra: nat, qb: nat, rb: nat)
    requires d >= 1 && ra < d && rb < d && a == qa * d + ra && b == qb * d + rb
    ensures CeilDiv(a + b, d) == qa + qb + (if ra + rb == 0 then 0 else if ra + rb <= d then 1 else 2)
  {
    assert (qa + qb) * d == qa * d + qb * d;
    if ra + rb < d {
      CeilOf(a + b, d, qa + qb, ra + rb);
    } else {
      assert (qa + qb + 1) * d == (qa + qb) * d + d;
      CeilOf(a + b, d, qa + qb + 1, ra + rb - d);
    }
  }

  /** From any counter, `n` consecutive values hold `ceil(n / interval)`
      multiples of the interval, or one fewer. */
  lemma TicksNearCeil(c: nat, n: nat, interval: nat)
    requires interval >= 1
    ensures CeilDiv(n, interval) - 1 <= Ticks(c, n, interval) <= CeilDiv(n, interval)
    ensures c % interval == 0 ==> Ticks(c, n, interval) == CeilDiv(n, interval)
  {
    TicksClosedForm(c, n, interval);
    assert Ticks(c, n, interval) == CeilDiv(c + n, interval) - CeilDiv(c, interval);
    CeilSplit(c, n, interval);
  }
}
