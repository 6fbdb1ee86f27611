/** Small facts about products. */
module Products {
  lemma MulAdd(x: nat, y: nat, b: nat)
    ensures (x + y) * b == x * b + y * b
  {
  }

  lemma MulMonotone(x: nat, y: nat, b: nat)
    requires x <= y
    ensures x * b <= y * b
  {
    MulAdd(x, y - x, b);
  }

  lemma AtLeastOne(count: nat, size: nat)
    requires count > 0
    ensures count * size >= size
  {
    MulMonotone(1, count, size);
  }

  lemma MulAssoc(a: nat, b: nat, c: nat)
    ensures (a * b) * c == a * (b * c)
  {
  }

  lemma CancelFactor(a: nat, b: nat, c: nat)
    requires c > 0 && a * c <= b * c
    ensures a <= b
  {
    MulAdd(b, 1, c);
    if a > b {
      MulMonotone(b + 1, a, c);
    }
  }
}
