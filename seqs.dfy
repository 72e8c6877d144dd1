/** Sequence operations the dialog relies on: Array.prototype.indexOf, the
    last position of a value, de-duplication that keeps first occurrences,
    and removal of every copy of a value. */
module Seqs {

  /** No value occurs twice in s. */
  predicate NoDup<T(==)>(s: seq<T>) {
    forall i, j :: 0 <= i < j < |s| ==> s[i] != s[j]
  }

  /** Array.prototype.indexOf: the position of the first x in s, or -1. */
  function IndexOf<T(==)>(s: seq<T>, x: T): (i: int)
    ensures -1 <= i < |s|
    ensures i < 0 <==> x !in s
    ensures 0 <= i ==> s[i] == x && x !in s[..i]
  {
    if |s| == 0 then -1
    else if s[0] == x then 0
    else
      var j := IndexOf(s[1..], x);
      assert 0 <= j ==> s[..j + 1] == [s[0]] + s[1..][..j];
      if j < 0 then -1 else j + 1
  }

  /** The position of the last x in s, or -1. */
  function LastIndexOf<T(==)>(s: seq<T>, x: T): (i: int)
    ensures -1 <= i < |s|
    ensures i < 0 <==> x !in s
    ensures 0 <= i ==> s[i] == x && x !in s[i + 1..]
  {
    if |s| == 0 then -1
    else if s[|s| - 1] == x then |s| - 1
    else
      var j := LastIndexOf(s[..|s| - 1], x);
      assert s == s[..|s| - 1] + [s[|s| - 1]];
      assert 0 <= j ==> s[j + 1..] == s[..|s| - 1][j + 1..] + [s[|s| - 1]];
      j
  }

  lemma AppendAssoc<T>(x: seq<T>, y: seq<T>, z: seq<T>)
    ensures x + (y + z) == x + y + z
  {
  }

  /** A prefix of s extended by the next element of s is the next prefix. */
  lemma PrefixSnoc<T>(s: seq<T>, prefix: seq<T>, x: T)
    requires |prefix| < |s| && prefix == s[..|prefix|] && x == s[|prefix|]
    ensures prefix + [x] == s[..|prefix| + 1]
  {
  }

  /** Cutting position i out of s is s[0] before the cut of i - 1 out of s[1..]. */
  lemma ConsSplice<T>(s: seq<T>, i: nat)
    requires 0 < i < |s|
    ensures [s[0]] + (s[1..][..i - 1] + s[1..][i..]) == s[..i] + s[i + 1..]
  {
    assert s[..i] == [s[0]] + s[1..][..i - 1];
    assert s[i + 1..] == s[1..][i..];
  }

  /** Appending one value does not move the first occurrence of anything
      already present, and puts a new value at the old length. */
  lemma {:induction false} IndexOfAppend<T>(p: seq<T>, z: T, x: T)
    ensures IndexOf(p + [z], x) == if x in p then IndexOf(p, x) else if x == z then |p| else -1
  {
    if |p| > 0 && p[0] != x {
      assert (p + [z])[1..] == p[1..] + [z];
      IndexOfAppend(p[1..], z, x);
    }
  }

  /** Appending another value does not move the last occurrence of x. */
  lemma LastIndexOfAppend<T>(p: seq<T>, z: T, x: T)
    requires x != z
    ensures LastIndexOf(p + [z], x) == LastIndexOf(p, x)
  {
    assert (p + [z])[..|p|] == p;
  }

  /** The values of s in order of first occurrence, each once. */
  function Distinct<T(==,!new)>(s: seq<T>): (d: seq<T>)
    ensures NoDup(d)
    ensures forall x :: x in d <==> x in s
  {
    if |s| == 0 then []
    else
      var p := Distinct(s[..|s| - 1]);
      assert s == s[..|s| - 1] + [s[|s| - 1]];
      if s[|s| - 1] in p then p else p + [s[|s| - 1]]
  }

  /** One step of Distinct on a sequence extended at its end. */
  lemma DistinctAppend<T(!new)>(p: seq<T>, x: T)
    ensures Distinct(p + [x]) == if x in p then Distinct(p) else Distinct(p) + [x]
  {
    assert (p + [x])[..|p|] == p;
  }

  /** The ordering claim of DistinctOrder, for one sequence. */
  ghost predicate InFirstOccurrenceOrder<T(!new)>(s: seq<T>, d: seq<T>) {
    forall i, j :: 0 <= i < j < |d| ==> IndexOf(s, d[i]) < IndexOf(s, d[j])
  }

  /** Distinct keeps the order of first occurrences in s. */
  lemma {:induction false} DistinctOrder<T(!new)>(s: seq<T>)
    ensures InFirstOccurrenceOrder(s, Distinct(s))
  {
    if |s| > 0 {
      var p, z := s[..|s| - 1], s[|s| - 1];
      assert s == p + [z];
      DistinctOrder(p);
      DistinctOrderStep(p, z);
    }
  }

  /** Every value already in p keeps its first position when z is appended. */
  lemma IndexOfAppendAll<T(!new)>(p: seq<T>, z: T, dp: seq<T>)
    requires forall y :: y in dp ==> y in p
    ensures forall i :: 0 <= i < |dp| ==> IndexOf(p + [z], dp[i]) == IndexOf(p, dp[i]) < |p|
  {
    forall i | 0 <= i < |dp| ensures IndexOf(p + [z], dp[i]) == IndexOf(p, dp[i]) < |p| {
      IndexOfAppend(p, z, dp[i]);
    }
  }

  lemma DistinctOrderStep<T(!new)>(p: seq<T>, z: T)
    requires InFirstOccurrenceOrder(p, Distinct(p))
    ensures InFirstOccurrenceOrder(p + [z], Distinct(p + [z]))
  {
    var dp := Distinct(p);
    DistinctAppend(p, z);
    IndexOfAppendAll(p, z, dp);
    if z !in dp {
      IndexOfAppend(p, z, z);
      assert IndexOf(p + [z], z) == |p|;
    }
  }

  /** s with every copy of x removed. */
  function Without<T(==,!new)>(s: seq<T>, x: T): (r: seq<T>)
    ensures x !in r
    ensures forall y :: y != x ==> (y in r <==> y in s)
    ensures |r| <= |s|
  {
    if |s| == 0 then []
    else (if s[0] == x then [] else [s[0]]) + Without(s[1..], x)
  }

  /** Without distributes over concatenation. */
  lemma {:induction false} WithoutConcat<T(!new)>(a: seq<T>, b: seq<T>, x: T)
    ensures Without(a + b, x) == Without(a, x) + Without(b, x)
  {
    if |a| == 0 {
      assert a + b == b;
    } else {
      assert (a + b)[1..] == a[1..] + b;
      WithoutConcat(a[1..], b, x);
    }
  }

  /** On a duplicate-free sequence, removing the one x at its position is the
      same as removing every x. */
  lemma {:induction false} WithoutNoDup<T(!new)>(s: seq<T>, x: T)
    requires NoDup(s) && x in s
    ensures Without(s, x) == s[..IndexOf(s, x)] + s[IndexOf(s, x) + 1..]
  {
    NoDupTail(s);
    if s[0] == x {
      assert x !in s[1..] by {
        forall k | 1 <= k < |s| ensures s[k] != x { assert s[0] == x; }
      }
      WithoutAbsent(s[1..], x);
    } else {
      var t := s[1..];
      assert x in t by { assert s == [s[0]] + t; }
      WithoutNoDup(t, x);
      var j := IndexOf(t, x);
      assert IndexOf(s, x) == j + 1;
      assert Without(s, x) == [s[0]] + Without(t, x);
      ConsSplice(s, j + 1);
    }
  }

  lemma NoDupTail<T>(s: seq<T>)
    requires NoDup(s) && |s| > 0
    ensures NoDup(s[1..])
  {
    var t := s[1..];
    forall i, j | 0 <= i < j < |t| ensures t[i] != t[j] {
      assert t[i] == s[i + 1] && t[j] == s[j + 1];
    }
  }

  /** Removing a value that is not there changes nothing. */
  lemma {:induction false} WithoutAbsent<T(!new)>(s: seq<T>, x: T)
    requires x !in s
    ensures Without(s, x) == s
  {
    if |s| > 0 {
      WithoutAbsent(s[1..], x);
      assert s == [s[0]] + s[1..];
    }
  }

  /** A duplicate-free sequence is its own Distinct. */
  lemma {:induction false} DistinctOfNoDup<T(!new)>(s: seq<T>)
    requires NoDup(s)
    ensures Distinct(s) == s
  {
    if |s| > 0 {
      var p := s[..|s| - 1];
      DistinctOfNoDup(p);
      assert s[|s| - 1] !in p;
    }
  }
}
