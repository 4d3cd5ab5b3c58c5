// The number a little-endian sequence of 28-bit bigits stands for.
module Bigits {
  import opened Powers

  const BIGIT_SIZE := 28
  const BASE := 0x1000_0000
  const CAPACITY := 128

  type Bigit = x: int | 0 <= x < BASE

  // Weight of bigit n.
  function PB(n: nat): (p: nat)
    ensures 1 <= p
  {
    PowPos(BASE, n);
    Pow(BASE, n)
  }

  lemma PBOne()
    ensures PB(0) == 1 && PB(1) == BASE
  {
    assert Pow(BASE, 0) == 1;
  }

  lemma PBStep(n: nat)
    ensures PB(n + 1) == BASE * PB(n)
  {
  }

  lemma PBAdd(m: nat, n: nat)
    ensures PB(m + n) == PB(m) * PB(n)
  {
    PowAdd(BASE, m, n);
  }

  lemma PBMono(m: nat, n: nat)
    requires m <= n
    ensures PB(m) <= PB(n)
  {
    PowMono(BASE, m, n);
  }

  function Val(s: seq<Bigit>): int
  {
    if |s| == 0 then 0
    else Val(s[..|s| - 1]) + s[|s| - 1] * PB(|s| - 1)
  }

  lemma ValAppend(s: seq<Bigit>, x: Bigit)
    ensures Val(s + [x]) == Val(s) + x * PB(|s|)
  {
    assert (s + [x])[..|s|] == s;
  }

  lemma ValSingle(x: Bigit)
    ensures Val([x]) == x
  {
    assert [] + [x] == [x];
    ValAppend([], x);
  }

  lemma {:induction false} ValConcat(s: seq<Bigit>, t: seq<Bigit>)
    ensures Val(s + t) == Val(s) + PB(|s|) * Val(t)
  {
    if |t| == 0 {
      assert s + t == s;
    } else {
      hide PB;
      var t', x := t[..|t| - 1], t[|t| - 1];
      assert s + t == (s + t') + [x] && t == t' + [x];
      ValAppend(s + t', x);
      ValAppend(t', x);
      ValConcat(s, t');
      PBAdd(|s|, |t'|);
      Distribute(PB(|s|), Val(t'), x, PB(|t'|));
    }
  }

  lemma Distribute(p: int, v: int, x: int, q: int)
    ensures p * (v + x * q) == p * v + x * (p * q)
  {
  }

  lemma {:induction false} ValBound(s: seq<Bigit>)
    ensures 0 <= Val(s) < PB(|s|)
  {
    if |s| != 0 {
      hide PB;
      ValBound(s[..|s| - 1]);
      var top: int := s[|s| - 1];
      PBStep(|s| - 1);
      MulLe(top + 1, BASE, PB(|s| - 1));
    }
  }

  lemma ValTop(s: seq<Bigit>)
    requires |s| != 0
    ensures s[|s| - 1] * PB(|s| - 1) <= Val(s) < (s[|s| - 1] + 1) * PB(|s| - 1)
  {
    ValBound(s[..|s| - 1]);
  }

  function Zeros(n: nat): (s: seq<Bigit>)
    ensures |s| == n && forall k :: 0 <= k < n ==> s[k] == 0
  {
    seq(n, _ => 0)
  }

  lemma {:induction false} ValZeros(n: nat)
    ensures Val(Zeros(n)) == 0
  {
    if n != 0 {
      ValZeros(n - 1);
      assert Zeros(n)[..n - 1] == Zeros(n - 1);
    }
  }

  // The first n bigits, with zeros past the end of s.
  function Extended(s: seq<Bigit>, n: nat): (r: seq<Bigit>)
    ensures |r| == n
    ensures forall k :: 0 <= k < n ==> r[k] == if k < |s| then s[k] else 0
  {
    if n <= |s| then s[..n] else s + Zeros(n - |s|)
  }

  lemma ExtendedStep(s: seq<Bigit>, n: nat, x: Bigit)
    requires x == if n < |s| then s[n] else 0
    ensures Val(Extended(s, n + 1)) == Val(Extended(s, n)) + x * PB(n)
  {
    hide Val, PB;
    assert Extended(s, n + 1) == Extended(s, n) + [x];
    ValAppend(Extended(s, n), x);
  }

  lemma ExtendedBeyond(s: seq<Bigit>, n: nat)
    requires |s| <= n
    ensures Val(Extended(s, n)) == Val(s)
  {
    hide PB, Val;
    if n == |s| {
      assert Extended(s, n) == s;
    } else {
      ValConcat(s, Zeros(n - |s|));
      ValZeros(n - |s|);
    }
  }

  // Cutting a number at bigit i.
  lemma ValSplit(s: seq<Bigit>, i: nat)
    requires i <= |s|
    ensures Val(s) == Val(s[..i]) + PB(i) * Val(s[i..])
  {
    assert s == s[..i] + s[i..];
    ValConcat(s[..i], s[i..]);
  }

  lemma ValBigitAt(s: seq<Bigit>, i: nat)
    requires i < |s|
    ensures Val(s) / PB(i) % BASE == s[i]
  {
    hide PB, Val;
    ValSplit(s, i);
    ValBound(s[..i]);
    DivUnique(Val(s), PB(i), Val(s[i..]), Val(s[..i]));
    ValSplit(s[i..], 1);
    assert s[i..][..1] == [s[i]];
    ValSingle(s[i]);
    PBOne();
    DivUnique(Val(s[i..]), BASE, Val(s[i..][1..]), s[i]);
  }
}
