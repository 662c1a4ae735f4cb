/** Products, quotients and remainders of two variables, by repeated addition and subtraction. Proofs
    about sectors and clusters then stay within linear arithmetic; the lemmas here tie the functions
    to the operators of the same meaning. */
module Arith {

  function Times(a: nat, b: nat): (r: nat)
    decreases a
  {
    if a == 0 then 0 else b + Times(a - 1, b)
  }

  function Quot(n: nat, d: nat): (r: nat)
    requires d > 0
    decreases n
  {
    if n < d then 0 else 1 + Quot(n - d, d)
  }

  function Rem(n: nat, d: nat): (r: nat)
    requires d > 0
    ensures r < d
    decreases n
  {
    if n < d then n else Rem(n - d, d)
  }

  lemma {:induction false} TimesIsProduct(a: nat, b: nat)
    ensures Times(a, b) == a * b
    decreases a
  {
    if a > 0 {
      TimesIsProduct(a - 1, b);
      assert a * b == (a - 1) * b + b;
    }
  }

  lemma {:induction false} TimesStep(a: nat, b: nat, k: nat)
    requires a < b
    ensures Times(a, k) + k <= Times(b, k)
    decreases b
  {
    if a < b - 1 { TimesStep(a, b - 1, k); }
  }

  lemma {:induction false} TimesPlus(a: nat, b: nat, n: nat)
    ensures Times(a + b, n) == Times(a, n) + Times(b, n)
    decreases b
  {
    if b > 0 { TimesPlus(a, b - 1, n); }
  }

  lemma {:induction false} QuotRem(n: nat, d: nat)
    requires d > 0
    ensures n == Times(Quot(n, d), d) + Rem(n, d)
    decreases n
  {
    if n >= d { QuotRem(n - d, d); }
  }

  lemma ProductOrder(p: nat, q: nat, d: nat)
    requires p < q
    ensures p * d + d <= q * d
  {
    TimesStep(p, q, d);
    TimesIsProduct(p, d);
    TimesIsProduct(q, d);
  }

  lemma QuotientUnique(d: nat, p: nat, r: nat, q: nat, s: nat)
    requires r < d && s < d && p * d + r == q * d + s
    ensures p == q && r == s
  {
    if p < q { ProductOrder(p, q, d); } else if q < p { ProductOrder(q, p, d); }
  }

  lemma QuotRemAreDivMod(n: nat, d: nat)
    requires d > 0
    ensures Quot(n, d) == n / d && Rem(n, d) == n % d
  {
    QuotRem(n, d);
    TimesIsProduct(Quot(n, d), d);
    assert n == n / d * d + n % d;
    QuotientUnique(d, Quot(n, d), Rem(n, d), n / d, n % d);
  }
}
