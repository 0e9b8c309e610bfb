/** Non-negative integers as bit sets: the output flag is the OR of 2^pin. */
module Bits {

  function Pow2(n: nat): (r: nat)
    ensures r >= 1
  {
    if n == 0 then 1 else 2 * Pow2(n - 1)
  }

  /** Whether bit b of x is set. */
  predicate Bit(x: nat, b: nat)
  {
    if b == 0 then x % 2 == 1 else Bit(x / 2, b - 1)
  }

  lemma {:induction false} ZeroBit(b: nat)
    ensures !Bit(0, b)
  {
    if b > 0 {
      ZeroBit(b - 1);
    }
  }

  /** x | 2^p, computed bit by bit. */
  function SetBit(x: nat, p: nat): (r: nat)
    ensures forall b :: Bit(r, b) <==> Bit(x, b) || b == p
  {
    if p == 0 then
      (if x % 2 == 1 then x else x + 1)
    else
      var h := SetBit(x / 2, p - 1);
      var r := 2 * h + x % 2;
      assert r / 2 == h && r % 2 == x % 2;
      assert forall b :: b > 0 ==> (Bit(r, b) <==> Bit(h, b - 1));
      r
  }

  /** OR with a single bit adds that bit's weight exactly when it is not yet set. */
  lemma {:induction false} SetBitValue(x: nat, p: nat)
    ensures SetBit(x, p) == if Bit(x, p) then x else x + Pow2(p)
  {
    if p > 0 {
      SetBitValue(x / 2, p - 1);
    }
  }

  /** A number is determined by its set of bits. */
  lemma {:induction false} BitsDetermine(x: nat, y: nat)
    requires forall b :: Bit(x, b) == Bit(y, b)
    ensures x == y
    decreases x + y
  {
    if x != 0 || y != 0 {
      assert Bit(x, 0) == Bit(y, 0);
      forall b: nat ensures Bit(x / 2, b) == Bit(y / 2, b) {
        assert Bit(x, b + 1) == Bit(y, b + 1);
      }
      BitsDetermine(x / 2, y / 2);
    }
  }
}
