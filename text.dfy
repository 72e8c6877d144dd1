/** The string operations the dialog uses: String.prototype.replace with a
    one-character string pattern, Array.prototype.join with a one-character
    separator, and the splitting that undoes a join. */
module Text {
  import opened Seqs

  /** s.replace(c, ''): with a string (not regular-expression) pattern,
      replace drops only the first occurrence of c. */
  function RemoveFirst(s: string, c: char): (r: string)
    ensures |r| == if c in s then |s| - 1 else |s|
  {
    if |s| == 0 then s
    else if s[0] == c then s[1..]
    else [s[0]] + RemoveFirst(s[1..], c)
  }

  /** With no c in s, replace finds nothing and s comes back unchanged. */
  lemma {:induction false} RemoveFirstAbsent(s: string, c: char)
    requires c !in s
    ensures RemoveFirst(s, c) == s
  {
    if |s| > 0 {
      assert s == [s[0]] + s[1..];
      RemoveFirstAbsent(s[1..], c);
    }
  }

  /** The one character removed is the one at the first c. */
  lemma RemoveFirstAt(s: string, c: char)
    requires c in s
    ensures RemoveFirst(s, c) == s[..IndexOf(s, c)] + s[IndexOf(s, c) + 1..]
  {
    var i := IndexOf(s, c);
    forall k | 0 <= k < i ensures s[k] != c {
      assert s[..i][k] == s[k];
    }
    RemoveFirstAtIndex(s, c, i);
  }

  lemma {:induction false} RemoveFirstAtIndex(s: string, c: char, i: nat)
    requires i < |s| && s[i] == c
    requires forall k :: 0 <= k < i ==> s[k] != c
    ensures RemoveFirst(s, c) == s[..i] + s[i + 1..]
  {
    if i == 0 {
      assert s[..0] + s[1..] == s[1..];
    } else {
      var t := s[1..];
      assert s[0] != c;
      forall k | 0 <= k < i - 1 ensures t[k] != c {
        assert t[k] == s[k + 1];
      }
      RemoveFirstAtIndex(t, c, i - 1);
      ConsSplice(s, i);
    }
  }

  /** Characters other than c are neither lost nor gained. */
  lemma {:induction false} RemoveFirstKeeps(s: string, c: char, d: char)
    requires d != c
    ensures d in RemoveFirst(s, c) <==> d in s
  {
    if |s| > 0 {
      assert s == [s[0]] + s[1..];
      if s[0] != c {
        RemoveFirstKeeps(s[1..], c, d);
      }
    }
  }

  /** c is gone from the result exactly when s held at most one c. */
  lemma {:induction false} RemoveFirstClears(s: string, c: char)
    ensures c !in RemoveFirst(s, c) <==> multiset(s)[c] <= 1
  {
    if |s| > 0 {
      assert s == [s[0]] + s[1..];
      assert multiset(s) == multiset{s[0]} + multiset(s[1..]);
      if s[0] != c {
        RemoveFirstClears(s[1..], c);
      }
    }
  }

  /** Up to the first c, nothing moves; the c goes and the rest follows. */
  lemma RemoveFirstAfter(a: string, c: char, rest: string)
    requires c !in a
    ensures RemoveFirst(a + [c] + rest, c) == a + rest
  {
    var s := a + [c] + rest;
    forall k | 0 <= k < |a| ensures s[k] != c {
      assert s[k] == a[k];
    }
    RemoveFirstAtIndex(s, c, |a|);
    assert s[..|a|] == a;
    assert s[|a| + 1..] == rest;
  }

  /** Only one copy of c goes: any later copies survive. */
  lemma {:induction false} OnlyFirstRemoved(s: string, c: char)
    requires c in s
    ensures |RemoveFirst(s, c)| == |s| - 1
    ensures multiset(RemoveFirst(s, c)) + multiset{c} == multiset(s)
  {
    assert s == [s[0]] + s[1..];
    if s[0] != c {
      OnlyFirstRemoved(s[1..], c);
    }
  }

  /** parts.join([sep]): the parts with one sep between neighbours; [] joins to "". */
  function Join(parts: seq<string>, sep: char): (r: string)
    ensures |parts| >= 1 ==> parts[0] <= r
    ensures |parts| >= 2 ==> |parts[0]| < |r| && r[|parts[0]|] == sep
  {
    if |parts| == 0 then ""
    else if |parts| == 1 then parts[0]
    else parts[0] + [sep] + Join(parts[1..], sep)
  }

  /** s.split([sep]): the maximal runs between separators; never empty. */
  function Split(s: string, sep: char): (r: seq<string>)
    ensures |r| >= 1
    ensures Avoid(r, sep)
  {
    if |s| == 0 then [""]
    else
      var rest := Split(s[1..], sep);
      if s[0] == sep then [""] + rest
      else [[s[0]] + rest[0]] + rest[1..]
  }

  /** No part contains c. */
  predicate Avoid(parts: seq<string>, c: char) {
    forall i :: 0 <= i < |parts| ==> c !in parts[i]
  }

  /** The characters of a join are those of its parts, plus the separator
      when there are at least two parts. */
  lemma {:induction false} JoinChars(parts: seq<string>, sep: char, c: char)
    ensures c in Join(parts, sep) <==> (c == sep && |parts| >= 2) || !Avoid(parts, c)
  {
    if |parts| >= 2 {
      var tail := parts[1..];
      JoinChars(tail, sep, c);
      if !Avoid(tail, c) {
        var i :| 0 <= i < |tail| && c in tail[i];
        assert c in parts[i + 1];
      }
      if !Avoid(parts, c) {
        var i :| 0 <= i < |parts| && c in parts[i];
        if i > 0 {
          assert c in tail[i - 1];
        }
      }
    }
  }

  /** Splitting text that starts with a separator-free run a. */
  lemma {:induction false} SplitPrefix(a: string, t: string, sep: char)
    requires sep !in a
    ensures Split(a + t, sep) == [a + Split(t, sep)[0]] + Split(t, sep)[1..]
  {
    if |a| == 0 {
      var r := Split(t, sep);
      assert a + t == t && a + r[0] == r[0];
      assert r == [r[0]] + r[1..];
    } else {
      assert (a + t)[0] == a[0] != sep;
      assert (a + t)[1..] == a[1..] + t;
      SplitPrefix(a[1..], t, sep);
      var rest := Split(a[1..] + t, sep);
      assert rest[0] == a[1..] + Split(t, sep)[0];
      assert [a[0]] + rest[0] == a + Split(t, sep)[0];
    }
  }

  /** Splitting undoes joining exactly when there is at least one part and no
      part contains the separator: nothing is quoted or escaped. */
  lemma {:induction false} SplitJoin(parts: seq<string>, sep: char)
    ensures Split(Join(parts, sep), sep) == parts <==> |parts| >= 1 && Avoid(parts, sep)
  {
    if |parts| >= 1 && Avoid(parts, sep) {
      SplitJoinClean(parts, sep);
    }
  }

  lemma {:induction false} SplitJoinClean(parts: seq<string>, sep: char)
    requires |parts| >= 1 && Avoid(parts, sep)
    ensures Split(Join(parts, sep), sep) == parts
  {
    if |parts| == 1 {
      SplitPrefix(parts[0], "", sep);
      assert parts[0] + "" == parts[0];
    } else {
      var t := [sep] + Join(parts[1..], sep);
      assert Join(parts, sep) == parts[0] + t;
      SplitPrefix(parts[0], t, sep);
      SplitJoinClean(parts[1..], sep);
      assert t[0] == sep && t[1..] == Join(parts[1..], sep);
      assert Split(t, sep) == [""] + parts[1..];
      assert parts[0] + "" == parts[0];
      assert parts == [parts[0]] + parts[1..];
    }
  }

  /** A line with exactly one separator splits into the two sides. */
  lemma SplitPair(x: string, y: string, sep: char)
    requires sep !in x && sep !in y
    ensures Split(x + [sep] + y, sep) == [x, y]
  {
    var parts := [x, y];
    assert parts[1..] == [y];
    assert Join(parts, sep) == x + [sep] + y;
    SplitJoinClean(parts, sep);
  }
}
