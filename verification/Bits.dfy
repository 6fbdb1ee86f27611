/** Bitwise OR on natural numbers, and the fact that it acts on every bit separately. */
module Bits {

  function Pow2(k: nat): (p: nat)
    ensures p >= 1
  {
    if k == 0 then 1 else 2 * Pow2(k - 1)
  }

  function Bit0(a: nat, b: nat): nat {
    if a % 2 == 1 || b % 2 == 1 then 1 else 0
  }

  function Or(a: nat, b: nat): nat
    decreases a + b
  {
    if a == 0 && b == 0 then 0 else 2 * Or(a / 2, b / 2) + Bit0(a, b)
  }

  /** All bits from position k up, moved down by k. */
  function High(a: nat, k: nat): nat
    decreases k
  {
    if k == 0 then a else High(a / 2, k - 1)
  }

  /** The k lowest bits. */
  function Low(a: nat, k: nat): nat
    decreases k
  {
    if k == 0 then 0 else 2 * Low(a / 2, k - 1) + a % 2
  }

  lemma {:induction false} OrHigh(a: nat, b: nat, k: nat)
    ensures High(Or(a, b), k) == Or(High(a, k), High(b, k))
    decreases k
  {
    if k > 0 {
      assert Or(a, b) / 2 == Or(a / 2, b / 2);
      OrHigh(a / 2, b / 2, k - 1);
    }
  }

  lemma {:induction false} OrLow(a: nat, b: nat, k: nat)
    ensures Low(Or(a, b), k) == Or(Low(a, k), Low(b, k))
    decreases k
  {
    if k > 0 {
      assert Or(a, b) / 2 == Or(a / 2, b / 2) && Or(a, b) % 2 == Bit0(a, b);
      OrLow(a / 2, b / 2, k - 1);
      var x, y := Low(a, k), Low(b, k);
      assert x / 2 == Low(a / 2, k - 1) && y / 2 == Low(b / 2, k - 1);
      assert x % 2 == a % 2 && y % 2 == b % 2;
    }
  }

  lemma {:induction false} HighLow(a: nat, k: nat)
    ensures a == Pow2(k) * High(a, k) + Low(a, k)
    ensures Low(a, k) < Pow2(k)
    decreases k
  {
    if k > 0 {
      HighLow(a / 2, k - 1);
      OneDigitMore(a, Pow2(k - 1), High(a / 2, k - 1), Low(a / 2, k - 1));
    }
  }

  lemma OneDigitMore(a: nat, p: nat, h: nat, l: nat)
    requires a / 2 == p * h + l && l < p
    ensures a == (2 * p) * h + (2 * l + a % 2) && 2 * l + a % 2 < 2 * p
  {
    assert (2 * p) * h == 2 * (p * h);
  }

  lemma MulAtLeast(p: int, d: int)
    requires p >= 1
    ensures d >= 1 ==> p * d >= p
    ensures d <= -1 ==> p * d <= -p
  {
    if d >= 1 {
      assert p * d == p + p * (d - 1);
    } else if d <= -1 {
      assert p * d == -p + p * (d + 1);
    }
  }

  /** Quotient and remainder are the only ones of their kind. */
  lemma DivModUnique(x: int, p: int, q: int, r: int)
    requires x == p * q + r && 0 <= r < p
    ensures x / p == q && x % p == r
  {
    var d := x / p - q;
    assert p * d == p * (x / p) - p * q;
    MulAtLeast(p, d);
  }

  /** OR works on the high part and on the low part of its operands separately. */
  lemma OrSplit(a: nat, b: nat, k: nat, p: nat, ah: nat, al: nat, bh: nat, bl: nat)
    requires p == Pow2(k)
    requires a == p * ah + al && al < p
    requires b == p * bh + bl && bl < p
    ensures Or(a, b) == p * Or(ah, bh) + Or(al, bl)
    ensures Or(al, bl) < p
  {
    HighLow(a, k);
    DivModUnique(a, p, ah, al);
    DivModUnique(a, p, High(a, k), Low(a, k));
    HighLow(b, k);
    DivModUnique(b, p, bh, bl);
    DivModUnique(b, p, High(b, k), Low(b, k));
    OrHigh(a, b, k);
    OrLow(a, b, k);
    HighLow(Or(a, b), k);
  }

  lemma {:induction false} OrZero(a: nat)
    ensures Or(a, 0) == a && Or(0, a) == a
  {
    if a > 0 {
      OrZero(a / 2);
    }
  }

  lemma OrParity(a: nat, b: nat)
    ensures Or(a, b) % 2 == Bit0(a, b)
  {
    if a != 0 || b != 0 {
      var r := Or(a / 2, b / 2);
      assert Or(a, b) == 2 * r + Bit0(a, b);
      hide Or;
    }
  }
}
