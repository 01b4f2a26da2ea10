/** Bitwise operators of C and Python on non-negative integers, given by their binary digits,
    with the facts that turn masks, shifts and disjoint ors into arithmetic. */
module Bits {

  function Pow2(n: nat): (r: nat)
    ensures r > 0
  {
    if n == 0 then 1 else 2 * Pow2(n - 1)
  }

  /** `x & y` */
  function And(x: nat, y: nat): nat {
    if x == 0 || y == 0 then 0 else 2 * And(x / 2, y / 2) + (if x % 2 == 1 && y % 2 == 1 then 1 else 0)
  }

  /** `x | y` */
  function Or(x: nat, y: nat): nat {
    if x == 0 then y
    else if y == 0 then x
    else 2 * Or(x / 2, y / 2) + (if x % 2 == 1 || y % 2 == 1 then 1 else 0)
  }

  /** `x << n` */
  function Shl(x: nat, n: nat): nat { x * Pow2(n) }

  /** `x >> n` */
  function Shr(x: nat, n: nat): nat {
    QuotientNonneg(x, Pow2(n));
    x / Pow2(n)
  }

  lemma {:induction false} Pow2Add(a: nat, b: nat)
    ensures Pow2(a + b) == Pow2(a) * Pow2(b)
  {
    hide Pow2;
    if a == 0 {
      Pow2OfZero();
    } else {
      Pow2Add(a - 1, b);
      Pow2Step(a);
      Pow2Step(a + b);
      ProductOfDouble(Pow2(a - 1), Pow2(b));
    }
  }

  lemma Pow2OfZero()
    ensures Pow2(0) == 1
  {
  }

  lemma Pow2Step(k: nat)
    requires k > 0
    ensures Pow2(k) == 2 * Pow2(k - 1)
  {
  }

  lemma ProductOfDouble(x: int, y: int)
    ensures (2 * x) * y == 2 * (x * y)
  {
  }

  lemma DoubleProduct(x: int, y: int)
    ensures x * (2 * y) == 2 * (x * y)
  {
  }

  /** Masking with 2^k - 1 is the remainder by 2^k. */
  lemma {:induction false} AndMask(x: nat, k: nat)
    ensures And(x, Pow2(k) - 1) == x % Pow2(k)
  {
    hide And, Pow2;
    if k == 0 {
      Pow2OfZero();
      AndZero(x);
    } else {
      Pow2Step(k);
      AndMask(x / 2, k - 1);
      ModDouble(x, Pow2(k - 1));
      AndOdd(x, Pow2(k - 1) - 1);
    }
  }

  lemma AndZero(x: nat)
    ensures And(x, 0) == 0
  {
  }

  lemma AndOdd(x: nat, y: nat)
    ensures And(x, 2 * y + 1) == 2 * And(x / 2, y) + x % 2
  {
    assert (2 * y + 1) / 2 == y;
  }

  lemma ModDouble(x: nat, m: nat)
    requires m > 0
    ensures x % (2 * m) == 2 * ((x / 2) % m) + x % 2
  {
    var h := x / 2;
    var q, r := h / m, h % m;
    assert h == m * q + r;
    assert (2 * m) * q == 2 * (m * q);
    ModUnique(x, 2 * m, q, 2 * r + x % 2);
  }

  lemma MulMono(m: nat, x: int, y: int)
    requires x <= y
    ensures m * x <= m * y
  {
    assert m * (y - x) >= 0;
  }

  lemma QuotientNonneg(x: nat, m: nat)
    requires m > 0
    ensures x / m >= 0
  {
    var q, r := x / m, x % m;
    assert x == m * q + r;
    if q < 0 {
      MulMono(m, q, -1);
      assert false;
    }
  }

  /** Quotient and remainder are the only pair that fits. */
  lemma ModUnique(x: int, m: nat, q: int, r: int)
    requires m > 0 && 0 <= r < m && x == m * q + r
    ensures x / m == q && x % m == r
  {
    var q', r' := x / m, x % m;
    assert x == m * q' + r';
    if q' < q {
      MulMono(m, q' + 1, q);
      assert false;
    }
    if q < q' {
      MulMono(m, q + 1, q');
      assert false;
    }
  }

  /** Or-ing in a value whose low k digits are clear adds it. */
  lemma {:induction false} OrDisjoint(low: nat, high: nat, k: nat)
    requires low < Pow2(k)
    ensures Or(low, high * Pow2(k)) == low + high * Pow2(k)
  {
    hide Or, Pow2;
    if k == 0 {
      Pow2OfZero();
      OrZero(high);
    } else {
      var p := Pow2(k - 1);
      Pow2Step(k);
      OrDisjoint(low / 2, high, k - 1);
      DoubleProduct(high, p);
      OrEven(low, high * p);
    }
  }

  lemma OrZero(y: nat)
    ensures Or(0, y) == y
  {
  }

  lemma OrEven(x: nat, y: nat)
    ensures Or(x, 2 * y) == 2 * Or(x / 2, y) + x % 2
  {
    assert (2 * y) / 2 == y;
  }

  lemma {:induction false} OrCommutes(x: nat, y: nat)
    ensures Or(x, y) == Or(y, x)
  {
    if x > 0 && y > 0 {
      OrCommutes(x / 2, y / 2);
    }
  }

  lemma {:induction false} AndCommutes(x: nat, y: nat)
    ensures And(x, y) == And(y, x)
  {
    if x > 0 && y > 0 {
      AndCommutes(x / 2, y / 2);
    }
  }

  lemma DivDiv(x: nat, a: nat, b: nat)
    requires a > 0 && b > 0
    ensures a * b > 0 && x / (a * b) == (x / a) / b
  {
    QuotientNonneg(x, a);
    var q, r := x / a, x % a;
    var q2, r2 := q / b, q % b;
    DivDivArith(x, a, b, q, r, q2, r2);
    ModUnique(x, a * b, q2, a * r2 + r);
  }

  lemma DivDivArith(x: nat, a: nat, b: nat, q: nat, r: nat, q2: int, r2: nat)
    requires 0 <= r < a && 0 <= r2 < b && x == a * q + r && q == b * q2 + r2
    ensures a * b > 0 && x == (a * b) * q2 + (a * r2 + r) && 0 <= a * r2 + r < a * b
  {
    MulMono(a, 1, b);
    MulMono(a, r2 + 1, b);
    calc {
      a * q;
      a * (b * q2 + r2);
      a * (b * q2) + a * r2;
      (a * b) * q2 + a * r2;
    }
  }
}
