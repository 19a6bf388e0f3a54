/** Small facts of integer arithmetic that the solver does not find alone
    (products and floor division), kept apart so each proof stays small. */
module Arith {

  lemma DivBounds(s: int, n: int)
    requires n > 0
    ensures n * (s / n) <= s < n * (s / n) + n
  {}

  lemma MulLeCancel(q: int, c: int, n: int)
    requires n > 0 && n * q <= n * c
    ensures q <= c
  {}

  lemma MulLtCancel(q: int, c: int, n: int)
    requires n > 0 && n * q < n * c
    ensures q < c
  {}

  lemma MulPred(a: int, b: int)
    ensures a * (b - 1) + a == a * b
  {}

  lemma MulDistr(a: int, b: int, c: int)
    ensures (a + b) * c == a * c + b * c
  {}

  lemma MulMono(a: int, b: int, n: int)
    requires n >= 0 && a <= b
    ensures n * a <= n * b
  {}

  /** Floor division by a positive number is monotone. */
  lemma DivMono(a: int, b: int, n: int)
    requires n > 0 && a <= b
    ensures a / n <= b / n
  {
    DivBounds(a, n);
    DivBounds(b, n);
    MulDistr(b / n, 1, n);
    MulLtCancel(a / n, b / n + 1, n);
  }

  /** Multiplying and then dividing by the same positive number is exact. */
  lemma MulDivCancel(a: int, n: int)
    requires n > 0
    ensures (a * n) / n == a
  {
    DivBounds(a * n, n);
    MulDistr(a, 1, n);
    MulDistr((a * n) / n, 1, n);
    MulLtCancel(a, (a * n) / n + 1, n);
    MulLtCancel((a * n) / n, a + 1, n);
  }

  /** n * a, written recursively so bounds on sums stay linear. */
  function Mul(n: nat, a: int): int
  {
    if n == 0 then 0 else Mul(n - 1, a) + a
  }

  lemma {:induction false} MulIsProduct(n: nat, a: int)
    ensures Mul(n, a) == n * a
  {
    if n > 0 {
      MulIsProduct(n - 1, a);
    }
  }

  lemma DivLower(s: int, n: int, lo: int)
    requires n > 0 && n * lo <= s
    ensures lo <= s / n
  {
    DivBounds(s, n);
    MulPred(n, s / n + 1);
    MulLtCancel(lo, s / n + 1, n);
  }

  lemma DivUpper(s: int, n: int, hi: int)
    requires n > 0 && s <= n * hi
    ensures s / n <= hi
  {
    DivBounds(s, n);
    MulLeCancel(s / n, hi, n);
  }

  /** The floored mean of n values in [lo, hi) is in [lo, hi). */
  lemma DivInRange(s: int, n: int, lo: int, hi: int)
    requires n > 0 && Mul(n, lo) <= s <= Mul(n, hi - 1)
    ensures lo <= s / n < hi
  {
    MulIsProduct(n, lo);
    MulIsProduct(n, hi - 1);
    DivLower(s, n, lo);
    DivUpper(s, n, hi - 1);
  }

  /** Quotient and remainder are determined by x == w * k + r, 0 <= r < w. */
  lemma DivModUnique(x: int, w: int, k: int, r: int)
    requires w > 0 && 0 <= r < w && x == w * k + r
    ensures x / w == k && x % w == r
  {
    DivBounds(x, w);
    MulPred(w, k + 1);
    MulPred(w, x / w + 1);
    MulLtCancel(x / w, k + 1, w);
    MulLtCancel(k, x / w + 1, w);
  }

  /** Reducing one summand first does not change a remainder. */
  lemma ModAdd(a: int, b: int, w: int)
    requires w > 0
    ensures (a % w + b) % w == (a + b) % w
  {
    var x := a % w + b;
    DivBounds(a, w);
    DivBounds(x, w);
    MulDistr(a / w, x / w, w);
    assert a + b == w * (a / w + x / w) + x % w;
    DivModUnique(a + b, w, a / w + x / w, x % w);
  }

  /** Shifting by s and back by s is the identity on [0, w). */
  lemma ModShiftBack(j: int, s: int, w: int)
    requires w > 0 && 0 <= j < w
    ensures ((j + s) % w - s) % w == j
  {
    ModAdd(j + s, -s, w);
    DivModUnique(j, w, 0, j);
  }
}
