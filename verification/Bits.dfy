/** Unsigned words as natural numbers: exclusive or, bit by bit, and its algebra. */
module Bits {

  type Byte = n: nat | n < 256

  function Pow2(n: nat): nat {
    if n == 0 then 1 else 2 * Pow2(n - 1)
  }

  /** `x ^ y` on unsigned words of any width. */
  function Xor(x: nat, y: nat): nat {
    if x == 0 && y == 0 then 0
    else (if x % 2 == y % 2 then 0 else 1) + 2 * Xor(x / 2, y / 2)
  }

  lemma {:induction false} XorZero(x: nat)
    ensures Xor(x, 0) == x && Xor(0, x) == x
  {
    if x != 0 {
      XorZero(x / 2);
    }
  }

  lemma {:induction false} XorSelf(x: nat)
    ensures Xor(x, x) == 0
  {
    if x != 0 {
      XorSelf(x / 2);
    }
  }

  lemma {:induction false} XorCommutes(x: nat, y: nat)
    ensures Xor(x, y) == Xor(y, x)
  {
    if x != 0 || y != 0 {
      XorCommutes(x / 2, y / 2);
    }
  }

  lemma XorHalf(x: nat, y: nat)
    ensures Xor(x, y) / 2 == Xor(x / 2, y / 2)
    ensures Xor(x, y) % 2 == if x % 2 == y % 2 then 0 else 1
  {
  }

  lemma {:induction false} XorAssociates(x: nat, y: nat, z: nat)
    ensures Xor(Xor(x, y), z) == Xor(x, Xor(y, z))
    decreases x + y + z
  {
    if x != 0 || y != 0 || z != 0 {
      XorAssociates(x / 2, y / 2, z / 2);
      XorHalf(x, y);
      XorHalf(y, z);
      XorHalf(Xor(x, y), z);
      XorHalf(x, Xor(y, z));
    }
  }

  lemma {:induction false} XorBound(x: nat, y: nat, n: nat)
    requires x < Pow2(n) && y < Pow2(n)
    ensures Xor(x, y) < Pow2(n)
    decreases n
  {
    if n > 0 && (x != 0 || y != 0) {
      XorBound(x / 2, y / 2, n - 1);
    }
  }

  /** `v` moved up by `n` bits. */
  function Up(v: nat, n: nat): nat {
    if n == 0 then v else 2 * Up(v, n - 1)
  }

  lemma UpIsEven(v: nat, n: nat)
    requires n > 0
    ensures Up(v, n) % 2 == 0 && Up(v, n) / 2 == Up(v, n - 1)
  {
  }

  lemma HalfBelowPow2(low: nat, n: nat)
    requires n > 0 && low < Pow2(n)
    ensures low / 2 < Pow2(n - 1)
  {
  }

  lemma Halves(x: nat)
    ensures x == 2 * (x / 2) + x % 2
  {
  }

  /** Words without a common bit add up. */
  lemma {:induction false} XorDisjoint(low: nat, high: nat, n: nat)
    requires low < Pow2(n)
    ensures Xor(low, Up(high, n)) == low + Up(high, n)
    decreases n
  {
    if n == 0 {
      XorZero(high);
    } else {
      hide Xor, Up, Pow2;
      HalfBelowPow2(low, n);
      XorDisjoint(low / 2, high, n - 1);
      UpIsEven(high, n);
      XorHalf(low, Up(high, n));
      Halves(low);
      Halves(Up(high, n));
      Halves(Xor(low, Up(high, n)));
    }
  }

  /** `(a ^ p) ^ (b ^ p) == a ^ b`, and the two ways of pulling `p` out of one side. */
  lemma XorCancels(p: nat, a: nat, b: nat)
    ensures Xor(Xor(p, a), Xor(p, b)) == Xor(a, b)
    ensures Xor(Xor(p, a), b) == Xor(p, Xor(a, b))
    ensures Xor(a, Xor(p, b)) == Xor(p, Xor(a, b))
  {
    XorAssociates(p, a, b);
    XorAssociates(a, p, b);
    XorCommutes(a, p);
    XorAssociates(p, a, Xor(p, b));
    XorAssociates(p, p, Xor(a, b));
    XorSelf(p);
    XorZero(Xor(a, b));
  }
}
