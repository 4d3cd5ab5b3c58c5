// Where a string first occurs in another, and sequences of chunks. Shared by the
// two streaming algorithms of external/cpp-httplib/httplib.h.
module Substrings {

  predicate OccursAt(s: seq<char>, text: seq<char>, i: nat)
  {
    i + |s| <= |text| && text[i..i + |s|] == s
  }

  predicate IsFirst(s: seq<char>, text: seq<char>, i: nat)
  {
    OccursAt(s, text, i) && forall j: nat :: j < i ==> !OccursAt(s, text, j)
  }

  predicate NoneBefore(s: seq<char>, text: seq<char>, n: nat)
  {
    forall j: nat :: j < n ==> !OccursAt(s, text, j)
  }

  // The first occurrence from a position on.
  ghost function FirstOccurrence(s: seq<char>, text: seq<char>, from: nat): (i: nat)
    requires NoneBefore(s, text, from) && !NoneBefore(s, text, |text|)
    ensures IsFirst(s, text, i)
    decreases |text| - from
  {
    if OccursAt(s, text, from) then from else FirstOccurrence(s, text, from + 1)
  }

  lemma FirstIsUnique(s: seq<char>, text: seq<char>, i: nat, j: nat)
    requires IsFirst(s, text, i) && IsFirst(s, text, j)
    ensures i == j
  {
  }

  lemma TwoParts(s: seq<char>, m: nat, n: nat)
    requires m <= n <= |s|
    ensures s[..n] == s[..m] + s[m..n]
  {
  }

  // What is delivered and what stays, when a piece of the pending input is
  // delivered and what follows it is dropped.
  lemma Delivered(delivered: seq<char>, buf: seq<char>, spos: nat, epos: nat, n: nat, drop: nat)
    requires spos + n + drop <= epos <= |buf|
    ensures buf[spos..epos] == buf[spos..spos + n] + buf[spos + n..spos + n + drop] + buf[spos + n + drop..epos]
    ensures buf[spos..epos][n..n + drop] == buf[spos + n..spos + n + drop]
    ensures delivered + buf[spos..epos]
         == delivered + buf[spos..spos + n] + buf[spos + n..spos + n + drop] + buf[spos + n + drop..epos]
  {
  }

  lemma DeliveredSome(delivered: seq<char>, buf: seq<char>, spos: nat, epos: nat, n: nat)
    requires spos + n <= epos <= |buf|
    ensures delivered + buf[spos..epos] == delivered + buf[spos..spos + n] + buf[spos + n..epos]
    ensures |buf[spos..spos + n]| == n && |buf[spos + n..epos]| == epos - spos - n
  {
    assert buf[spos..epos] == buf[spos..spos + n] + buf[spos + n..epos];
  }

  lemma Occurrence(s: seq<char>, text: seq<char>, i: nat)
    requires OccursAt(s, text, i)
    ensures i + |s| <= |text| && text[i..i + |s|] == s
  {
  }

  lemma NoneBeforeLess(s: seq<char>, text: seq<char>, m: nat, n: nat)
    requires NoneBefore(s, text, n) && m <= n
    ensures NoneBefore(s, text, m)
  {
  }

  lemma NotStarting(s: seq<char>, text: seq<char>, from: nat, to: nat)
    requires 0 < |s| && from <= to <= |text| && NoneBefore(s, text, from)
    requires forall k :: from <= k < to ==> text[k] != s[0]
    ensures NoneBefore(s, text, to)
  {
    forall j: nat | j < to
      ensures !OccursAt(s, text, j)
    {
      if from <= j && j + |s| <= |text| {
        assert text[j..j + |s|][0] == text[j];
      }
    }
  }

  lemma NoRoom(s: seq<char>, text: seq<char>, from: nat)
    requires from <= |text| < from + |s| && NoneBefore(s, text, from)
    ensures NoneBefore(s, text, |text|)
  {
  }

  lemma InPending(s: seq<char>, buf: seq<char>, spos: nat, epos: nat, p: nat)
    requires spos <= p <= epos <= |buf|
    ensures OccursAt(s, buf[..epos], p) <==> OccursAt(s, buf[spos..epos], p - spos)
  {
    if p + |s| <= epos {
      assert buf[..epos][p..p + |s|] == buf[spos..epos][p - spos..p - spos + |s|];
    }
  }

  // An occurrence that starts in what has been delivered would have ended in the
  // input that was there then.
  lemma Extended(s: seq<char>, input: seq<char>, data: seq<char>, n: nat, pending: nat)
    requires NoneBefore(s, input, n) && n + pending == |input| && (n > 0 ==> |s| <= pending)
    ensures NoneBefore(s, input + data, n)
  {
    forall j: nat | j < n
      ensures !OccursAt(s, input + data, j)
    {
      assert (input + data)[j..j + |s|] == input[j..j + |s|];
      assert !OccursAt(s, input, j);
    }
  }

  // Too little is pending for an occurrence.
  lemma NoneInside(s: seq<char>, text: seq<char>, n: nat)
    requires NoneBefore(s, text, n) && n <= |text| < n + |s|
    ensures NoneBefore(s, text, |text|)
  {
  }

  // Occurrences in what is pending are those of the whole input, further on.
  lemma Behind(s: seq<char>, before: seq<char>, pending: seq<char>, pos: nat)
    requires NoneBefore(s, before + pending, |before|) && pos <= |pending| && NoneBefore(s, pending, pos)
    ensures NoneBefore(s, before + pending, |before| + pos)
    ensures OccursAt(s, pending, pos) <==> OccursAt(s, before + pending, |before| + pos)
  {
    forall j: nat | j <= pos
      ensures OccursAt(s, pending, j) <==> OccursAt(s, before + pending, |before| + j)
    {
      if j + |s| <= |pending| {
        assert (before + pending)[|before| + j..|before| + j + |s|] == pending[j..j + |s|];
      }
    }
    forall i: nat | i < |before| + pos
      ensures !OccursAt(s, before + pending, i)
    {
      if |before| <= i {
        assert !OccursAt(s, pending, i - |before|);
      }
    }
  }

  // The first occurrence in a prefix is the first one in the whole.
  lemma FirstInPrefix(s: seq<char>, prefix: seq<char>, text: seq<char>, i: nat)
    requires prefix <= text && IsFirst(s, prefix, i)
    ensures IsFirst(s, text, i)
  {
    assert text[i..i + |s|] == prefix[i..i + |s|];
    forall j: nat | j < i
      ensures !OccursAt(s, text, j)
    {
      assert text[j..j + |s|] == prefix[j..j + |s|];
      assert !OccursAt(s, prefix, j);
    }
  }

  ghost function Flat(chunks: seq<seq<char>>): seq<char>
  {
    if |chunks| == 0 then [] else Flat(chunks[..|chunks| - 1]) + chunks[|chunks| - 1]
  }

  lemma FlatStep(chunks: seq<seq<char>>, n: nat)
    requires n < |chunks|
    ensures Flat(chunks[..n + 1]) == Flat(chunks[..n]) + chunks[n]
  {
    assert chunks[..n + 1][..n] == chunks[..n];
  }

  lemma {:induction false} FlatFront(chunks: seq<seq<char>>)
    requires |chunks| > 0
    ensures Flat(chunks) == chunks[0] + Flat(chunks[1..])
  {
    if |chunks| == 1 {
      assert chunks[..0] == [] && chunks[1..] == [];
      assert Flat([]) == [];
      assert chunks[0] + [] == [] + chunks[0];
    } else {
      var front := chunks[..|chunks| - 1];
      FlatFront(front);
      assert front[1..] == chunks[1..][..|chunks| - 2];
      assert Flat(front) + chunks[|chunks| - 1] == chunks[0] + (Flat(front[1..]) + chunks[|chunks| - 1]);
    }
  }

  lemma {:induction false} FlatPrefix(chunks: seq<seq<char>>, n: nat)
    requires n <= |chunks|
    ensures Flat(chunks[..n]) <= Flat(chunks)
  {
    if n < |chunks| {
      FlatPrefix(chunks[..|chunks| - 1], n);
      assert chunks[..|chunks| - 1][..n] == chunks[..n];
    } else {
      assert chunks[..n] == chunks;
    }
  }
}
