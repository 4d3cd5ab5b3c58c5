// Exact powers, over the naturals and over the reals with integer exponents,
// and the few facts about products and quotients that the proofs share.
module Powers {

  type uint32 = x: int | 0 <= x < 0x1_0000_0000
  type uint64 = x: int | 0 <= x < 0x1_0000_0000_0000_0000

  // ---------- Products and quotients ----------

  lemma MulLe(a: int, b: int, c: int)
    requires a <= b && 0 <= c
    ensures a * c <= b * c
  {
  }

  lemma MulLt(a: int, b: int, c: int)
    requires a < b && 0 < c
    ensures a * c < b * c
  {
  }

  lemma MulCancelLt(a: int, b: int, c: int)
    requires a * c < b * c && 0 <= c
    ensures a < b
  {
    if b <= a { MulLe(b, a, c); }
  }

  lemma MulCancelLe(a: int, b: int, c: int)
    requires a * c <= b * c && 0 < c
    ensures a <= b
  {
    if b < a { MulLt(b, a, c); }
  }

  lemma MulOneMore(a: int, b: int)
    ensures (a + 1) * b == a * b + b
  {
  }

  lemma MulAssoc(a: int, b: int, c: int)
    ensures a * b * c == a * (b * c)
  {
  }

  lemma MulSwap(a: int, b: int, c: int)
    ensures a * b * c == a * c * b
  {
  }

  lemma DivUnique(a: int, b: int, q: int, r: int)
    requires a == q * b + r && 0 <= r < b
    ensures a / b == q && a % b == r
  {
    var q', r' := a / b, a % b;
    assert (q - q') * b == r' - r;
    if q < q' { MulLe(q - q', -1, b); }
    if q' < q { MulLe(1, q - q', b); }
  }

  lemma DivMod(a: int, b: int)
    requires 0 < b
    ensures a == (a / b) * b + a % b && 0 <= a % b < b
  {
  }

  lemma DivLe(a: int, b: int, q: int)
    requires 0 < b && q * b <= a
    ensures q <= a / b
  {
    DivMod(a, b);
    if a / b < q { MulLe(a / b + 1, q, b); }
  }

  lemma DivLt(a: int, b: int, q: int)
    requires 0 < b && a < q * b
    ensures a / b < q
  {
    DivMod(a, b);
    if q <= a / b { MulLe(q, a / b, b); }
  }

  lemma DivAtMost(a: nat, b: nat)
    requires 0 < b
    ensures a / b <= a
  {
    MulLe(1, b, a + 1);
    DivLt(a, b, a + 1);
  }

  lemma TenDivides(m: nat, p: nat, n: nat)
    requires n == m * (10 * p)
    ensures n % 10 == 0
  {
    assert n == (m * p) * 10;
    DivUnique(n, 10, m * p, 0);
  }

  // ---------- Natural powers ----------

  function Pow(b: nat, n: nat): (p: nat)
  {
    if n == 0 then 1 else b * Pow(b, n - 1)
  }

  lemma PowZero(b: nat)
    ensures Pow(b, 0) == 1
  {
  }

  lemma PowStep(b: nat, n: nat)
    ensures Pow(b, n + 1) == b * Pow(b, n)
  {
  }

  lemma {:induction false} PowPos(b: nat, n: nat)
    requires 0 < b
    ensures 0 < Pow(b, n)
  {
    if n != 0 {
      PowPos(b, n - 1);
      MulLe(1, b, Pow(b, n - 1));
    }
  }

  lemma {:induction false} PowAdd(b: nat, m: nat, n: nat)
    ensures Pow(b, m + n) == Pow(b, m) * Pow(b, n)
  {
    if m != 0 {
      PowAdd(b, m - 1, n);
      assert b * (Pow(b, m - 1) * Pow(b, n)) == b * Pow(b, m - 1) * Pow(b, n);
    }
  }

  lemma {:induction false} PowMul(b: nat, m: nat, n: nat)
    ensures 0 <= m * n && Pow(b, m * n) == Pow(Pow(b, m), n)
  {
    if n != 0 {
      PowMul(b, m, n - 1);
      assert m * n == m + m * (n - 1);
      PowAdd(b, m, m * (n - 1));
    }
  }

  lemma MulPairs(a: int, b: int, x: int, y: int)
    ensures a * b * (x * y) == a * x * (b * y)
  {
  }

  lemma {:induction false} PowProduct(a: nat, b: nat, n: nat)
    ensures Pow(a * b, n) == Pow(a, n) * Pow(b, n)
  {
    if n != 0 {
      hide Pow;
      PowProduct(a, b, n - 1);
      PowStep(a, n - 1);
      PowStep(b, n - 1);
      PowStep(a * b, n - 1);
      MulPairs(a, b, Pow(a, n - 1), Pow(b, n - 1));
    }
  }

  lemma PowMono(b: nat, m: nat, n: nat)
    requires 1 <= b && m <= n
    ensures Pow(b, m) <= Pow(b, n)
  {
    hide Pow;
    PowAdd(b, m, n - m);
    PowPos(b, m);
    PowPos(b, n - m);
    MulLe(1, Pow(b, n - m), Pow(b, m));
  }

  lemma PowStrictMono(b: nat, m: nat, n: nat)
    requires 2 <= b && m < n
    ensures Pow(b, m) < Pow(b, n)
  {
    hide Pow;
    PowStep(b, n - 1);
    PowMono(b, m, n - 1);
    PowPos(b, n - 1);
    MulLt(1, b, Pow(b, n - 1));
  }

  lemma {:induction false} PowBaseMono(a: nat, b: nat, n: nat)
    requires a <= b
    ensures Pow(a, n) <= Pow(b, n)
  {
    if n != 0 {
      PowBaseMono(a, b, n - 1);
      MulLe(Pow(a, n - 1), Pow(b, n - 1), a);
      MulLe(a, b, Pow(b, n - 1));
    }
  }

  lemma TwoTo1()
    ensures Pow(2, 1) == 2
  {
  }

  lemma TwoTo10()
    ensures Pow(2, 10) == 1024
  {
  }

  lemma TwoTo53()
    ensures Pow(2, 11) == 2048 && Pow(2, 52) == 0x10_0000_0000_0000 && Pow(2, 53) == 0x20_0000_0000_0000
    ensures Pow(2, 60) == 0x1000_0000_0000_0000
  {
    hide Pow;
    TwoTo10();
    TwoTo1();
    PowAdd(2, 10, 1);
    PowAdd(2, 10, 10);
    PowAdd(2, 20, 20);
    PowAdd(2, 40, 11);
    PowAdd(2, 51, 1);
    PowAdd(2, 52, 1);
    PowAdd(2, 40, 20);
  }

  lemma Five9()
    ensures Pow(5, 9) == 1953125 && Pow(5, 1) == 5 && Pow(5, 6) == 15625
  {
  }

  lemma Five19()
    ensures Pow(5, 19) == 19073486328125
  {
    hide Pow;
    Five9();
    PowAdd(5, 9, 9);
    PowAdd(5, 18, 1);
  }

  // ---------- Real powers with an integer exponent ----------

  function RPow(b: nat, e: int): (p: real)
    requires 0 < b
    decreases if e < 0 then -e else e
  {
    if e == 0 then 1.0
    else if e > 0 then b as real * RPow(b, e - 1)
    else RPow(b, e + 1) / b as real
  }

  lemma RealMul(a: int, b: int)
    ensures (a * b) as real == a as real * b as real
  {
  }

  lemma RPowZero(b: nat)
    requires 0 < b
    ensures RPow(b, 0) == 1.0
  {
  }

  lemma {:induction false} RPowPos(b: nat, e: int)
    requires 0 < b
    ensures 0.0 < RPow(b, e)
    decreases if e < 0 then -e else e
  {
    if e > 0 { RPowPos(b, e - 1); }
    if e < 0 { RPowPos(b, e + 1); }
  }

  lemma {:induction false} RPowNat(b: nat, e: nat)
    requires 0 < b
    ensures RPow(b, e) == Pow(b, e) as real
  {
    if e != 0 {
      RPowNat(b, e - 1);
      RealMul(b, Pow(b, e - 1));
    }
  }

  lemma RPowStep(b: nat, e: int)
    requires 0 < b
    ensures RPow(b, e + 1) == b as real * RPow(b, e)
  {
    if e < 0 {
      DivTimes(RPow(b, e + 1), b as real);
    }
  }

  lemma DivTimes(a: real, b: real)
    requires b != 0.0
    ensures b * (a / b) == a
  {
  }

  lemma {:induction false} RPowAdd(b: nat, m: int, n: int)
    requires 0 < b
    ensures RPow(b, m + n) == RPow(b, m) * RPow(b, n)
    decreases if m < 0 then -m else m
  {
    hide RPow;
    var x, q := b as real, RPow(b, n);
    if m > 0 {
      RPowAdd(b, m - 1, n);
      RPowStep(b, m - 1);
      RPowStep(b, m - 1 + n);
      ScaleProduct(x, RPow(b, m - 1), RPow(b, m), q, RPow(b, m - 1 + n), RPow(b, m + n));
    } else if m < 0 {
      RPowAdd(b, m + 1, n);
      RPowStep(b, m);
      RPowStep(b, m + n);
      ScaleProduct(x, RPow(b, m), RPow(b, m + 1), q, RPow(b, m + n), RPow(b, m + 1 + n));
    } else {
      RPowNat(b, 0);
    }
  }

  lemma ScaleProduct(x: real, a: real, xa: real, b: real, s: real, xs: real)
    requires 0.0 < x && xa == x * a && xs == x * s
    ensures s == a * b <==> xs == xa * b
  {
    RealAssoc(x, a, b);
    if xs == xa * b { RealCancel(s, a * b, x); }
  }

  lemma RealAssoc(a: real, b: real, c: real)
    ensures a * (b * c) == (a * b) * c
  {
  }

  lemma RealCancel(a: real, b: real, c: real)
    requires 0.0 < c && c * a == c * b
    ensures a == b
  {
  }

  lemma RealMulLe(a: real, b: real, c: real)
    requires a <= b && 0.0 <= c
    ensures a * c <= b * c
  {
  }

  lemma RealMulLt(a: real, b: real, c: real)
    requires a < b && 0.0 < c
    ensures a * c < b * c
  {
  }

  lemma RealPositive(a: real, b: real)
    requires 0.0 < a && 0.0 < b
    ensures 0.0 < a * b
  {
  }

  lemma RealProductLe(a: real, b: real, c: real, d: real)
    requires 0.0 <= a <= c && 0.0 <= b <= d
    ensures a * b <= c * d
  {
    RealMulLe(a, c, b);
    RealMulLe(b, d, c);
  }

  lemma CountedProductLe(a: nat, b: nat, w: real, u: real)
    requires a <= b && 0.0 <= w <= u
    ensures a as real * w <= b as real * u
  {
    RealProductLe(a as real, w, b as real, u);
  }

  lemma {:induction false} RPowMono(b: nat, m: int, n: int)
    requires 1 <= b && m <= n
    ensures RPow(b, m) <= RPow(b, n)
    decreases n - m
  {
    hide RPow;
    if m < n {
      RPowMono(b, m, n - 1);
      RPowStep(b, n - 1);
      RPowPos(b, n - 1);
      RealMulLe(1.0, b as real, RPow(b, n - 1));
    }
  }

  // m * b^q for an m of at most n digits in base b.
  lemma BelowPower(b: nat, m: nat, n: nat, q: int)
    requires 0 < b && m < Pow(b, n)
    ensures m as real * RPow(b, q) < RPow(b, n + q)
  {
    hide RPow, Pow;
    RPowPos(b, q);
    RPowNat(b, n);
    RPowAdd(b, n, q);
    RealMulLt(m as real, Pow(b, n) as real, RPow(b, q));
  }
}
