/** The bit operators of C on non-negative integers, and what they amount to. */
module Bits {
  import opened Common

  /** `a | b` */
  function Or(a: nat, b: nat): nat {
    if a == 0 then b else if b == 0 then a
    else 2 * Or(a / 2, b / 2) + if a % 2 == 1 || b % 2 == 1 then 1 else 0
  }

  /** `a & b` */
  function And(a: nat, b: nat): nat {
    if a == 0 || b == 0 then 0
    else 2 * And(a / 2, b / 2) + if a % 2 == 1 && b % 2 == 1 then 1 else 0
  }

  /** `a >> k` */
  function ShiftRight(a: nat, k: nat): nat {
    if k == 0 then a else ShiftRight(a / 2, k - 1)
  }

  /** The cast to an octet. */
  function Octet(a: nat): byte {
    a % 256
  }

  lemma {:induction false} ShiftTwice(a: nat, j: nat, k: nat)
    ensures ShiftRight(ShiftRight(a, j), k) == ShiftRight(a, j + k)
  {
    if j > 0 {
      ShiftTwice(a / 2, j - 1, k);
    }
  }

  /** Shifts by multiples of six divide by powers of 64. */
  lemma ShiftSixes(a: nat)
    ensures ShiftRight(a, 6) == a / 64 && ShiftRight(a, 12) == a / 4096 && ShiftRight(a, 18) == a / 262144
  {
    hide ShiftRight;
    ShiftSix(a);
    ShiftSix(a / 64);
    ShiftSix(a / 4096);
    ShiftTwice(a, 6, 6);
    ShiftTwice(a, 12, 6);
    assert a / 64 / 64 == a / 4096 && a / 4096 / 64 == a / 262144;
  }

  lemma ShiftSix(a: nat)
    ensures ShiftRight(a, 6) == a / 64
  {
    var c := a / 2 / 2 / 2;
    assert ShiftRight(a, 6) == ShiftRight(a / 2, 5) == ShiftRight(a / 2 / 2, 4) == ShiftRight(c, 3);
    assert ShiftRight(c, 3) == ShiftRight(c / 2, 2) == ShiftRight(c / 2 / 2, 1) == c / 2 / 2 / 2;
    assert c == a / 8 && c / 2 / 2 / 2 == c / 8;
  }

  lemma AndOdd(a: nat, m: nat)
    ensures And(a, 2 * m + 1) == 2 * And(a / 2, m) + a % 2
  {
    assert (2 * m + 1) / 2 == m;
  }

  lemma AndSevens(a: nat, m: nat)
    ensures And(a, 8 * m + 7) == 8 * And(a / 8, m) + a % 8
  {
    hide And;
    AndOdd(a, 4 * m + 3);
    AndOdd(a / 2, 2 * m + 1);
    AndOdd(a / 2 / 2, m);
    assert a / 2 / 2 / 2 == a / 8;
  }

  /** Masking with six ones keeps the low six bits. */
  lemma MaskSix(a: nat)
    ensures And(a, 0x3F) == a % 64
  {
    hide And;
    AndSevens(a, 7);
    AndSevens(a / 8, 0);
    AndZero(a / 8 / 8);
    LowSix(a);
  }

  lemma LowSix(a: nat)
    ensures 8 * (a / 8 % 8) + a % 8 == a % 64
  {
    assert a / 8 / 8 == a / 64;
  }

  lemma AndZero(a: nat)
    ensures And(a, 0) == 0
  {
  }

  /** Bits set in a gap are added. */
  lemma {:induction false} OrAdds(q: nat, x: nat, k: nat)
    requires x < Pow2(k)
    ensures Or(Pow2(k) * q, x) == Pow2(k) * q + x
  {
    hide Or;
    if k > 0 {
      var p := Pow2(k - 1);
      OrAdds(q, x / 2, k - 1);
      OrHalves(p * q, x);
      Doubled(p, q);
    } else {
      OrZero(q);
    }
  }

  lemma OrZero(a: nat)
    ensures Or(a, 0) == a
  {
  }

  lemma OrHalves(a: nat, x: nat)
    ensures Or(2 * a, x) == 2 * Or(a, x / 2) + x % 2
  {
    assert 2 * a / 2 == a;
    OrZero(a);
    OrZero(2 * a);
  }

  lemma Doubled(p: nat, q: nat)
    ensures 2 * p * q == 2 * (p * q)
  {
  }

  lemma Powers()
    ensures Pow2(4) == 16 && Pow2(5) == 32 && Pow2(6) == 64
  {
    assert Pow2(3) == 2 * (2 * (2 * Pow2(0)));
    assert Pow2(6) == 2 * (2 * (2 * Pow2(3)));
  }
}
