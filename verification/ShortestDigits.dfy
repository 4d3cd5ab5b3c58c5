// The arithmetic behind generating the shortest digits of a fraction between
// two boundaries.
module ShortestDigits {
  import opened Powers

  // The fraction n/d with the boundaries (n - minus)/d and (n + plus)/d, which
  // belong to the interval only if inclusive.
  datatype Interval = Interval(inclusive: bool, n: nat, d: nat, minus: nat, plus: nat) {

    // The number x/d lies in the interval.
    ghost predicate Has(x: int)
    {
      if inclusive then n - minus <= x <= n + plus else n - minus < x < n + plus
    }

    ghost predicate Proper() { 0 < d && 0 < minus && 0 < plus }

    // The upper boundary is at least one, or on it and excluded.
    predicate ReachesOne()
    {
      if inclusive then n + plus >= d else n + plus > d
    }

    function FixedUp(): Interval
    {
      if ReachesOne() then this else Interval(inclusive, 10 * n, d, 10 * minus, 10 * plus)
    }

    // Everything but the denominator multiplied by 10^k.
    ghost function Scaled(k: nat): Interval
    {
      var p := Pow(10, k);
      this.(n := n * p, minus := minus * p, plus := plus * p)
    }

    lemma ScaledZero()
      ensures Scaled(0) == this
    {
      hide Pow;
      PowZero(10);
    }

    lemma ScaledStep(k: nat)
      requires Proper()
      ensures var s, t := Scaled(k), Scaled(k + 1);
        && s.Proper() && t.Proper() && s.d == t.d == d && s.inclusive == t.inclusive == inclusive
        && t.n == 10 * s.n && t.minus == 10 * s.minus && t.plus == 10 * s.plus
    {
      hide Pow;
      PowPos(10, k);
      PowStep(10, k);
      var p := Pow(10, k);
      MulLe(1, p, minus);
      MulLe(1, p, plus);
      TenTimes(n, p);
      TenTimes(minus, p);
      TenTimes(plus, p);
    }

    // What generation starts from: the fraction is below 10, its upper boundary
    // is at least 1, its lower one above 0, and with seventeen digits the
    // boundaries are further apart than the last digit's unit.
    ghost predicate Start()
    {
      && Proper() && minus < n
      && (if inclusive then d <= n + plus < 10 * d else d < n + plus <= 10 * d)
      && d < Scaled(16).minus + Scaled(16).plus
    }

    // Neither r nor r + 1, the neighbours of the fraction, is in the interval.
    ghost predicate Missed(r: int)
    {
      r * d <= n < (r + 1) * d && !Has(r * d) && !Has((r + 1) * d)
    }

    lemma MissedAll(r: int, e: int)
      requires Proper() && Missed(r)
      ensures !Has(e * d)
    {
      if e <= r { MulLe(e, r, d); } else { MulLe(r + 1, e, d); }
    }

    // After k digits with value r the rest n/d is below 10, and no decimal of
    // k digits was good enough.
    ghost predicate Generated(k: nat, r: nat, rest: nat)
    {
      && Scaled(k).n == 10 * (r * d) + rest && rest < 10 * d
      && (k == 0 ==> r == 0)
      && (k > 0 ==> Scaled(k - 1).Missed(r))
    }

    lemma GeneratedStart()
      requires Start()
      ensures Generated(0, 0, n)
    {
      ScaledZero();
    }

    lemma RestBelow(k: nat, r: nat, rest: nat)
      requires Generated(k, r, rest)
      ensures rest < 10 * d
    {
    }

    // One division: the new digit, its rest, and the two room tests.
    lemma DigitStep(k: nat, r: nat, rest: nat)
      requires Proper() && Generated(k, r, rest)
      ensures var digit, rest', low := rest / d, rest % d, 10 * r + rest / d;
        var s := Scaled(k);
        && 0 <= digit <= 9 && low * d + rest' == s.n && (low + 1) * d == low * d + d
        && ((if inclusive then rest' <= s.minus else rest' < s.minus) <==> s.Has(low * d))
        && ((if inclusive then rest' + s.plus >= d else rest' + s.plus > d) <==> s.Has((low + 1) * d))
    {
      hide Interval.Scaled, Interval.Missed, Interval.Generated, Interval.Has;
      RestBelow(k, r, rest);
      DigitOfRest(rest, d);
      RoomTests(k, r, rest, rest / d, rest % d);
    }

    lemma RoomTests(k: nat, r: nat, rest: nat, digit: nat, rest': nat)
      requires Proper() && Generated(k, r, rest) && rest == digit * d + rest' && rest' < d
      ensures var low, s := 10 * r + digit, Scaled(k);
        && low * d + rest' == s.n && (low + 1) * d == low * d + d
        && ((if inclusive then rest' <= s.minus else rest' < s.minus) <==> s.Has(low * d))
        && ((if inclusive then rest' + s.plus >= d else rest' + s.plus > d) <==> s.Has((low + 1) * d))
    {
      ScaledStep(k);
      hide Interval.Scaled, Interval.Missed;
      ShiftedDigit(r, digit, d);
    }

    // Going on to the next digit, at most sixteen times.
    lemma NextDigit(k: nat, r: nat, rest: nat, digit: nat, rest': nat)
      requires Start() && Generated(k, r, rest) && digit == rest / d && rest' == rest % d
      requires !Scaled(k).Has((10 * r + digit) * d) && !Scaled(k).Has((10 * r + digit + 1) * d)
      ensures Generated(k + 1, 10 * r + digit, rest' * 10)
      ensures k < 16 && Scaled(k).minus + Scaled(k).plus <= d
      ensures k == 0 ==> digit != 0
    {
      DigitStep(k, r, rest);
      ScaledStep(k);
      ScaledZero();
      if k >= 16 { ScaledMonotone(16, k); }
      hide Interval.Scaled;
      DivMod(rest, d);
    }

    lemma {:induction false} ScaledMonotone(j: nat, k: nat)
      requires Proper() && j <= k
      ensures Scaled(j).minus <= Scaled(k).minus && Scaled(j).plus <= Scaled(k).plus
    {
      hide Interval.Scaled;
      if j < k {
        ScaledMonotone(j, k - 1);
        ScaledStep(k - 1);
      }
    }

    // A nine is never rounded up, and a leading zero always is.
    lemma RoundUpDigit(k: nat, r: nat, rest: nat)
      requires Start() && Generated(k, r, rest)
      ensures Scaled(k).Has((10 * r + rest / d + 1) * d) ==> rest / d != 9
      ensures k == 0 && rest / d == 0 ==> !Scaled(k).Has((10 * r + rest / d) * d)
    {
      DigitStep(k, r, rest);
      ScaledZero();
      if k > 0 { ScaledStep(k - 1); }
      hide Interval.Scaled;
      if rest / d == 9 {
        TenTimes(r + 1, d);
      }
    }

    // ---------- The result ----------

    // The best decimal of its length, the even one of two equally good ones, and
    // no shorter one is in the interval.
    ghost predicate Shortest(length: nat, r: nat)
    {
      && 0 < length
      && Scaled(length - 1).Has(r * d)
      && (forall e: int :: Scaled(length - 1).Has(e * d)
            ==> Gap(r * d, Scaled(length - 1).n) <= Gap(e * d, Scaled(length - 1).n))
      && (forall e: int :: e != r && Scaled(length - 1).Has(e * d)
            && Gap(r * d, Scaled(length - 1).n) == Gap(e * d, Scaled(length - 1).n)
            ==> r % 2 == 0)
      && (length > 1 ==> forall e: int :: !Scaled(length - 2).Has(e * d))
    }

    // Rounding to the nearer of two good neighbours, to the even one at a tie, or
    // to the only good one.
    ghost predicate Chosen(low: int, r: int)
    {
      && (r == low || r == low + 1)
      && Has(r * d)
      && (r == low && Has((low + 1) * d) ==> 2 * (n - low * d) <= d)
      && (r == low + 1 && Has(low * d) ==> 2 * (n - low * d) >= d)
      && (Has(low * d) && Has((low + 1) * d) && 2 * (n - low * d) == d ==> r % 2 == 0)
    }

    lemma Choose(low: int, rest: int, up: bool)
      requires low * d + rest == n && (low + 1) * d == low * d + d
      requires up ==> Has((low + 1) * d) && (Has(low * d) ==> 2 * rest >= d)
      requires !up ==> Has(low * d) && (Has((low + 1) * d) ==> 2 * rest <= d)
      requires Has(low * d) && Has((low + 1) * d) && 2 * rest == d ==> (up <==> low % 2 != 0)
      ensures Chosen(low, if up then low + 1 else low)
    {
    }

    lemma ChosenIsNearest(low: int, r: int, e: int)
      requires Proper() && low * d <= n < (low + 1) * d
      requires Chosen(low, r) && Has(e * d)
      ensures Gap(r * d, n) <= Gap(e * d, n)
    {
      ShiftedDigit(0, low, d);
      if e <= low { MulLe(e, low, d); } else { MulLe(low + 1, e, d); }
    }

    lemma ChosenIsEven(low: int, r: int, e: int)
      requires Proper() && low * d <= n < (low + 1) * d
      requires Chosen(low, r) && Has(e * d) && e != r && Gap(r * d, n) == Gap(e * d, n)
      ensures r % 2 == 0
    {
      ShiftedDigit(0, low, d);
      if e < low {
        MulLe(e, low - 1, d);
        ShiftedDigit(0, low - 1, d);
      } else if low + 1 < e {
        MulLe(low + 2, e, d);
        ShiftedDigit(0, low + 1, d);
      }
    }

    lemma ShortestFound(k: nat, r: nat, rest: nat, result: nat)
      requires Start() && Generated(k, r, rest)
      requires Scaled(k).Chosen(10 * r + rest / d, result)
      ensures Shortest(k + 1, result)
    {
      DigitStep(k, r, rest);
      ScaledStep(k);
      if k > 0 { ScaledStep(k - 1); }
      hide Interval.Scaled;
      DivMod(rest, d);
      forall e: int | Scaled(k).Has(e * d)
        ensures Gap(result * d, Scaled(k).n) <= Gap(e * d, Scaled(k).n)
      {
        Scaled(k).ChosenIsNearest(10 * r + rest / d, result, e);
      }
      forall e: int | e != result && Scaled(k).Has(e * d) && Gap(result * d, Scaled(k).n) == Gap(e * d, Scaled(k).n)
        ensures result % 2 == 0
      {
        Scaled(k).ChosenIsEven(10 * r + rest / d, result, e);
      }
      if k > 0 {
        forall e: int
          ensures !Scaled(k - 1).Has(e * d)
        {
          Scaled(k - 1).MissedAll(r, e);
        }
      }
    }
  }

  ghost function Gap(x: int, y: int): int { if x < y then y - x else x - y }

  lemma TenTimes(a: int, p: int)
    ensures a * (10 * p) == 10 * (a * p) == 10 * a * p
  {
  }

  lemma DigitOfRest(rest: nat, d: nat)
    requires 0 < d && rest < 10 * d
    ensures 0 <= rest / d <= 9 && rest == rest / d * d + rest % d && 0 <= rest % d < d
  {
    DivMod(rest, d);
    DivLt(rest, d, 10);
  }

  lemma ShiftedDigit(r: int, digit: int, d: int)
    ensures (10 * r + digit) * d == 10 * (r * d) + digit * d
    ensures (10 * r + digit + 1) * d == (10 * r + digit) * d + d
  {
  }
}
