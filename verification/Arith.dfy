/** Products by repeated addition, and division with remainder in terms of them. */
module Arith {
  /** a * n, by repeated addition. */
  ghost function Times(a: nat, n: nat): (r: nat) {
    if a == 0 then 0 else Times(a - 1, n) + n
  }

  lemma {:induction false} TimesIsProduct(a: nat, n: nat)
    ensures Times(a, n) == a * n
  {
    if a > 0 {
      TimesIsProduct(a - 1, n);
    }
  }

  lemma {:induction false} TimesMonotone(a: nat, b: nat, n: nat)
    requires a <= b
    ensures Times(a, n) <= Times(b, n)
    ensures a < b ==> Times(a, n) + n <= Times(b, n)
    decreases b
  {
    if a < b {
      TimesMonotone(a, b - 1, n);
    }
  }

  lemma DivModSum(x: nat, n: nat)
    requires n > 0
    ensures x == Times(x / n, n) + x % n
  {
    TimesIsProduct(x / n, n);
  }

  /** Quotient and remainder of a position below total, seen as groups of n. */
  lemma DivMod(x: nat, n: nat, groups: nat, total: nat)
    requires n > 0 && x < total <= Times(groups, n)
    ensures x / n < groups && x == Times(x / n, n) + x % n
  {
    DivModSum(x, n);
    if groups <= x / n {
      TimesMonotone(groups, x / n, n);
    }
  }

  lemma DivModOf(x: nat, g: nat, i: nat, n: nat)
    requires i < n && x == Times(g, n) + i
    ensures x / n == g && x % n == i
  {
    DivModSum(x, n);
    if x / n < g {
      TimesMonotone(x / n, g, n);
    } else if g < x / n {
      TimesMonotone(g, x / n, n);
    }
  }

  /** Dividing twice divides by the product. */
  lemma DivDiv(x: nat, a: nat, b: nat)
    requires a > 0 && b > 0
    ensures a * b > 0 && x / a / b == x / (a * b)
  {
    var m, q, r := x / a, x / a / b, x / a % b;
    DivModSum(x, a);
    DivModSum(m, b);
    TimesIsProduct(m, a);
    TimesIsProduct(q, b);
    TimesIsProduct(q, a * b);
    Spread(q, b, r, a);
    Below(r, b, a, x % a);
    DivModOf(x, q, r * a + x % a, a * b);
  }

  lemma Spread(q: nat, b: nat, r: nat, a: nat)
    ensures (q * b + r) * a == q * (a * b) + r * a
  {
  }

  lemma Below(r: nat, b: nat, a: nat, rest: nat)
    requires r < b && rest < a
    ensures 0 <= r * a + rest < a * b
  {
    TimesMonotone(r, b, a);
    TimesIsProduct(r, a);
    TimesIsProduct(b, a);
  }
}
