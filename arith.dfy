/** Facts about multiplication and Euclidean division by a positive resolution. */
module Arith {

  lemma {:induction false} MulBounds(a: int, b: nat)
    requires b > 0
    ensures a >= 1 ==> a * b >= b
    ensures a <= -1 ==> a * b <= 0 - b
  {
  }

  lemma {:induction false} MulDivCancel(x: nat, b: nat)
    requires b > 0
    ensures (x * b) / b == x && (x * b) % b == 0
  {
    var q, r := (x * b) / b, (x * b) % b;
    assert x * b == q * b + r;
    assert (x - q) * b == x * b - q * b;
    MulBounds(x - q, b);
  }

  lemma {:induction false} MulSub(a: nat, c: nat, b: nat)
    requires c <= a
    ensures (a - c) * b + c * b == a * b
  {
  }

  lemma {:induction false} MulAdd(a: nat, c: nat, b: nat)
    ensures (a + c) * b == a * b + c * b
  {
  }

  /** x * b <= a gives x <= a / b. */
  lemma {:induction false} MulLeDiv(x: nat, a: nat, b: nat)
    requires b > 0 && x * b <= a
    ensures x <= a / b
  {
    var q := a / b;
    assert a == q * b + a % b;
    assert (x - q) * b == x * b - q * b;
    MulBounds(x - q, b);
  }

  /** q * b <= a < q * b + b gives a / b == q. */
  lemma {:induction false} DivFromBounds(a: nat, b: nat, q: nat)
    requires b > 0 && q * b <= a < q * b + b
    ensures a / b == q
  {
    var d := a / b;
    assert a == d * b + a % b;
    assert (d - q) * b == d * b - q * b;
    MulBounds(d - q, b);
  }

  lemma {:induction false} MulShuffle(h: nat, t: nat, b: nat)
    ensures (2 * h * t) * b == t * ((2 * b) * h)
  {
  }

  /** The duration in ns of n samples of res ns each. */
  function Scaled(n: nat, res: nat): (r: nat)
    ensures r == n * res
  {
    n * res
  }
}
