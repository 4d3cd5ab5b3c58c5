// Column sums of a square: the products of bigits whose indices add up to the
// same number, and why their weighted sum is the square of the value.
module Columns {
  import opened Powers
  import opened Bigits

  function Term(s: seq<Bigit>, k: nat, j: nat): int
    requires j < |s|
  {
    if j <= k && k - j < |s| then s[k - j] as int * s[j] as int else 0
  }

  // Column k, counting only the first m bigits as right factors.
  function Column(s: seq<Bigit>, k: nat, m: nat): int
    requires m <= |s|
  {
    if m == 0 then 0 else Column(s, k, m - 1) + Term(s, k, m - 1)
  }

  // The first n columns with their weights.
  function ColumnTotal(s: seq<Bigit>, m: nat, n: nat): int
    requires m <= |s|
  {
    if n == 0 then 0 else ColumnTotal(s, m, n - 1) + Column(s, n - 1, m) * PB(n - 1)
  }

  // What right factor m contributes to the first n columns.
  function RowTotal(s: seq<Bigit>, m: nat, n: nat): int
    requires m < |s|
  {
    if n == 0 then 0 else RowTotal(s, m, n - 1) + Term(s, n - 1, m) * PB(n - 1)
  }

  lemma {:induction false} TotalByRows(s: seq<Bigit>, m: nat, n: nat)
    requires m < |s|
    ensures ColumnTotal(s, m + 1, n) == ColumnTotal(s, m, n) + RowTotal(s, m, n)
  {
    hide PB, Term;
    if n != 0 {
      TotalByRows(s, m, n - 1);
      SumTimes(Column(s, n - 1, m), Term(s, n - 1, m), PB(n - 1));
    }
  }

  lemma SumTimes(a: int, b: int, p: int)
    ensures (a + b) * p == a * p + b * p
  {
  }

  // A row is the whole number, shifted to bigit m and multiplied by s[m].
  lemma {:induction false} RowValue(s: seq<Bigit>, m: nat, n: nat)
    requires m < |s|
    ensures n <= m ==> RowTotal(s, m, n) == 0
    ensures m <= n <= m + |s| ==> RowTotal(s, m, n) == s[m] * (PB(m) * Val(s[..n - m]))
    ensures m + |s| <= n ==> RowTotal(s, m, n) == s[m] * (PB(m) * Val(s))
  {
    hide PB, Val;
    ValEmptyPrefix(s);
    assert s[..|s|] == s;
    if n > 0 {
      RowValue(s, m, n - 1);
      var j := n - 1 - m;
      if 0 <= j < |s| {
        assert s[..j + 1] == s[..j] + [s[j]];
        ValAppend(s[..j], s[j]);
        PBAdd(m, j);
        RowStep(s[m], s[j], Val(s[..j]), PB(m), PB(j));
      }
    }
  }

  lemma ValEmptyPrefix(s: seq<Bigit>)
    ensures Val(s[..0]) == 0
  {
  }

  lemma RowStep(x: int, y: int, v: int, p: int, q: int)
    ensures x * (p * (v + y * q)) == x * (p * v) + y * x * (p * q)
  {
  }

  lemma {:induction false} TotalIsProduct(s: seq<Bigit>, m: nat)
    requires m <= |s|
    ensures ColumnTotal(s, m, 2 * |s|) == Val(s) * Val(s[..m])
  {
    hide PB, Val;
    ValEmptyPrefix(s);
    if m == 0 {
      EmptyColumns(s, 2 * |s|);
    } else {
      TotalIsProduct(s, m - 1);
      TotalByRows(s, m - 1, 2 * |s|);
      RowValue(s, m - 1, 2 * |s|);
      assert s[..m] == s[..m - 1] + [s[m - 1]];
      ValAppend(s[..m - 1], s[m - 1]);
      ProductStep(Val(s), Val(s[..m - 1]), s[m - 1], PB(m - 1));
    }
  }

  lemma ProductStep(v: int, w: int, x: int, p: int)
    ensures v * (w + x * p) == v * w + x * (p * v)
  {
  }

  lemma {:induction false} EmptyColumns(s: seq<Bigit>, n: nat)
    ensures ColumnTotal(s, 0, n) == 0
  {
    if n != 0 { EmptyColumns(s, n - 1); }
  }

  // The columns of s add up to its square.
  lemma TotalIsSquare(s: seq<Bigit>)
    ensures ColumnTotal(s, |s|, 2 * |s|) == Val(s) * Val(s)
  {
    TotalIsProduct(s, |s|);
    assert s[..|s|] == s;
  }

  // Factors whose partner would lie outside the number add nothing.
  lemma {:induction false} ColumnLowPart(s: seq<Bigit>, k: nat, m: nat)
    requires m <= |s| && m + |s| <= k + 1
    ensures Column(s, k, m) == 0
  {
    if m != 0 { ColumnLowPart(s, k, m - 1); }
  }

  lemma {:induction false} ColumnHighPart(s: seq<Bigit>, k: nat, m: nat)
    requires k < m <= |s|
    ensures Column(s, k, m) == Column(s, k, k + 1)
  {
    if m != k + 1 { ColumnHighPart(s, k, m - 1); }
  }

  lemma {:induction false} ColumnBound(s: seq<Bigit>, k: nat, m: nat)
    requires m <= |s|
    ensures 0 <= Column(s, k, m) <= m * ((BASE - 1) * (BASE - 1))
  {
    if m != 0 {
      ColumnBound(s, k, m - 1);
      if m - 1 <= k && k - (m - 1) < |s| {
        var x: int, y: int := s[k - (m - 1)], s[m - 1];
        MulLe(0, x, y);
        MulLe(x, BASE - 1, y);
        MulLe(y, BASE - 1, BASE - 1);
      }
    }
  }
}
