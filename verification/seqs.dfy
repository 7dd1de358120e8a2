/** Small sequence helpers shared by the bar, the padding and the handler. */
module Seqs {

  /** `n` copies of `x`. */
  function Repeat<T>(x: T, n: nat): (r: seq<T>)
    ensures |r| == n
    ensures forall k :: 0 <= k < n ==> r[k] == x
  {
    if n == 0 then [] else [x] + Repeat(x, n - 1)
  }

  /** Number of occurrences of `x` in `s`. */
  function Count<T(==)>(x: T, s: seq<T>): (r: nat)
    ensures r <= |s|
  {
    if |s| == 0 then 0 else (if s[0] == x then 1 else 0) + Count(x, s[1..])
  }

  lemma {:induction false} CountAppend<T>(x: T, a: seq<T>, b: seq<T>)
    ensures Count(x, a + b) == Count(x, a) + Count(x, b)
    decreases |a|
  {
    if |a| == 0 {
      assert a + b == b;
    } else {
      assert (a + b)[0] == a[0];
      assert (a + b)[1..] == a[1..] + b;
      CountAppend(x, a[1..], b);
    }
  }

  lemma {:induction false} CountRepeat<T>(x: T, y: T, n: nat)
    ensures Count(x, Repeat(y, n)) == if x == y then n else 0
  {
    if n > 0 {
      CountRepeat(x, y, n - 1);
    }
  }

  function Min(a: int, b: int): int
  {
    if a <= b then a else b
  }
}
