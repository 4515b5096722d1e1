/** Integer and real powers, and Bernoulli's inequality. */
module Powers {

  function Pow(b: nat, e: nat): (p: nat)
    ensures b > 0 ==> p > 0
  {
    if e == 0 then 1 else b * Pow(b, e - 1)
  }

  function RealPow(b: real, e: nat): real {
    if e == 0 then 1.0 else b * RealPow(b, e - 1)
  }

  lemma PowUnfolds(b: nat, e: nat)
    requires e > 0
    ensures Pow(b, e) == b * Pow(b, e - 1)
  {
  }

  lemma MulMonotone(x: nat, a: nat, b: nat)
    requires a <= b
    ensures x * a <= x * b && a * x <= b * x
  {
  }

  lemma MulStrict(a: nat, b: nat, x: nat)
    requires a < b && x > 0
    ensures a * x < b * x
  {
  }

  lemma {:induction false} PowMonotone(a: nat, b: nat, e: nat)
    requires a <= b
    ensures Pow(a, e) <= Pow(b, e)
  {
    if e > 0 {
      PowMonotone(a, b, e - 1);
      PowStep(a, b, e);
    }
  }

  lemma PowStep(a: nat, b: nat, e: nat)
    requires a <= b && e > 0 && Pow(a, e - 1) <= Pow(b, e - 1)
    ensures Pow(a, e) <= Pow(b, e)
    ensures a < b ==> Pow(a, e) < Pow(b, e)
  {
    hide Pow;
    PowUnfolds(a, e);
    PowUnfolds(b, e);
    MulMonotone(a, Pow(a, e - 1), Pow(b, e - 1));
    MulMonotone(Pow(b, e - 1), a, b);
    if a < b {
      MulStrict(a, b, Pow(b, e - 1));
    }
  }

  lemma {:induction false} PowStrict(a: nat, b: nat, e: nat)
    requires a < b && e > 0
    ensures Pow(a, e) < Pow(b, e)
  {
    PowMonotone(a, b, e - 1);
    PowStep(a, b, e);
  }

  lemma MulSwap(a: nat, b: nat, x: nat, y: nat)
    ensures (a * b) * (x * y) == (a * x) * (b * y)
  {
    assert (a * b) * (x * y) == a * (b * (x * y));
    assert b * (x * y) == x * (b * y);
    assert a * (x * (b * y)) == (a * x) * (b * y);
  }

  lemma {:induction false} PowProduct(a: nat, b: nat, e: nat)
    ensures Pow(a * b, e) == Pow(a, e) * Pow(b, e)
  {
    hide Pow;
    if e > 0 {
      PowProduct(a, b, e - 1);
      PowUnfolds(a, e);
      PowUnfolds(b, e);
      PowUnfolds(a * b, e);
      MulSwap(a, b, Pow(a, e - 1), Pow(b, e - 1));
    } else {
      PowOfNone(a);
      PowOfNone(b);
      PowOfNone(a * b);
    }
  }

  lemma PowOfNone(b: nat)
    ensures Pow(b, 0) == 1
  {
  }

  /** Bernoulli's inequality, multiplied out. */
  lemma {:induction false} Bernoulli(c: nat, y: nat, m: nat)
    requires m > 0
    ensures Pow(c + y, m) >= Pow(c, m) + m * Pow(c, m - 1) * y
  {
    if m == 1 {
      assert Pow(c, 0) == 1;
    } else {
      Bernoulli(c, y, m - 1);
      var p, q := Pow(c, m - 1), Pow(c, m - 2);
      assert p == c * q;
      BernoulliStep(c, y, m, Pow(c + y, m - 1), p, q);
    }
  }

  lemma BernoulliStep(c: nat, y: nat, m: nat, s: nat, p: nat, q: nat)
    requires m > 1 && p == c * q && s >= p + (m - 1) * q * y
    ensures (c + y) * s >= c * p + m * p * y
  {
    var k := (m - 1) * q * y;
    calc {
      (c + y) * s;
    >= (c + y) * (p + k);
    == c * p + y * p + c * k + y * k;
    >= c * p + y * p + c * k;
    == { assert c * k == (m - 1) * (c * q) * y; }
      c * p + y * p + (m - 1) * p * y;
    == c * p + m * p * y;
    }
  }

  lemma {:induction false} RealPowMonotone(a: real, b: real, e: nat)
    requires 0.0 <= a < b && e > 0
    ensures 0.0 <= RealPow(a, e) < RealPow(b, e)
  {
    if e == 1 {
      assert RealPow(a, 0) == 1.0 && RealPow(b, 0) == 1.0;
    } else {
      RealPowMonotone(a, b, e - 1);
      calc {
        a * RealPow(a, e - 1);
      <= a * RealPow(b, e - 1);
      <  b * RealPow(b, e - 1);
      }
    }
  }

  lemma {:induction false} RealPowOfInt(n: nat, e: nat)
    ensures RealPow(n as real, e) == Pow(n, e) as real
  {
    if e > 0 {
      RealPowOfInt(n, e - 1);
      assert (n * Pow(n, e - 1)) as real == n as real * Pow(n, e - 1) as real;
    }
  }

  lemma {:induction false} RealPowProduct(a: real, b: real, e: nat)
    ensures RealPow(a * b, e) == RealPow(a, e) * RealPow(b, e)
  {
    if e > 0 {
      RealPowProduct(a, b, e - 1);
      var x, y := RealPow(a, e - 1), RealPow(b, e - 1);
      calc {
        (a * b) * (x * y);
        (a * x) * (b * y);
      }
    }
  }
}
