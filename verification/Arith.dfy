/** Division with a variable divisor, by counting. */
module Arith {

  /** `x / s` for the integers of C. */
  function Quot(x: nat, s: nat): nat
    requires s > 0
  {
    if x < s then 0 else 1 + Quot(x - s, s)
  }

  /** `x % s` for the integers of C. */
  function Rem(x: nat, s: nat): (r: nat)
    requires s > 0
    ensures r < s && r <= x
  {
    if x < s then x else Rem(x - s, s)
  }

  lemma {:induction false} QuotRemIsDivMod(x: nat, s: nat)
    requires s > 0
    ensures Quot(x, s) == x / s && Rem(x, s) == x % s
  {
    if x >= s {
      QuotRemIsDivMod(x - s, s);
      DivMinus(x, s);
    } else {
      DivUnique(x, s, 0, x);
    }
  }

  lemma {:induction false} DivMinus(x: nat, s: nat)
    requires s > 0 && x >= s
    ensures x / s == (x - s) / s + 1 && x % s == (x - s) % s
  {
    var q := (x - s) / s;
    assert s * (q + 1) == s * q + s;
    DivUnique(x, s, q + 1, (x - s) % s);
  }

  lemma {:induction false} MulMono(d: nat, a: int, b: int)
    requires a <= b
    ensures d * a <= d * b
  {
  }

  /** Quotient and remainder are determined by what they add up to. */
  lemma {:induction false} DivUnique(x: int, d: nat, q: int, r: int)
    requires d > 0 && x == d * q + r && 0 <= r < d
    ensures x / d == q && x % d == r
  {
    var q' := x / d;
    assert x == d * q' + x % d;
    assert d * (q' + 1) == d * q' + d && d * (q + 1) == d * q + d;
    if q' < q {
      MulMono(d, q' + 1, q);
    } else if q < q' {
      MulMono(d, q + 1, q');
    }
  }

  /** Quotient and remainder of a sum. */
  lemma {:induction false} QuotSum(x: nat, y: nat, s: nat)
    requires s > 0
    ensures var o, b := Rem(x, s), Rem(y, s);
            if o + b < s
            then Quot(x + y, s) == Quot(x, s) + Quot(y, s) && Rem(x + y, s) == o + b
            else Quot(x + y, s) == Quot(x, s) + Quot(y, s) + 1 && Rem(x + y, s) == o + b - s
    decreases x + y
  {
    if x >= s {
      QuotSum(x - s, y, s);
    } else if y >= s {
      QuotSum(x, y - s, s);
    }
  }
}
