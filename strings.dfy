/** String helpers shared by the upload and access modules: subsequences,
    substring search (`String.prototype.includes`) and splitting on a
    separator character (`String.prototype.split`). */
module Strings {

  /** `a` is obtained from `b` by deleting zero or more characters. */
  predicate IsSubsequence(a: string, b: string)
    decreases |b|
  {
    a == [] || (b != [] && ((a[0] == b[0] && IsSubsequence(a[1..], b[1..])) || IsSubsequence(a, b[1..])))
  }

  lemma {:induction false} SubsequenceShorter(a: string, b: string)
    requires IsSubsequence(a, b)
    ensures |a| <= |b|
    decreases |b|
  {
    if a != [] {
      if a[0] == b[0] && IsSubsequence(a[1..], b[1..]) {
        SubsequenceShorter(a[1..], b[1..]);
      } else {
        SubsequenceShorter(a, b[1..]);
      }
    }
  }

  /** Every character of a subsequence occurs in the original. */
  lemma {:induction false} SubsequenceChars(a: string, b: string)
    requires IsSubsequence(a, b)
    ensures forall i :: 0 <= i < |a| ==> a[i] in b
    decreases |b|
  {
    if a != [] {
      if a[0] == b[0] && IsSubsequence(a[1..], b[1..]) {
        SubsequenceChars(a[1..], b[1..]);
        forall i | 0 <= i < |a| ensures a[i] in b {
          if i > 0 {
            assert a[i] == a[1..][i - 1];
            assert a[i] in b[1..];
          }
        }
      } else {
        SubsequenceChars(a, b[1..]);
      }
    }
  }

  lemma {:induction false} SubsequenceTransitive(a: string, b: string, c: string)
    requires IsSubsequence(a, b) && IsSubsequence(b, c)
    ensures IsSubsequence(a, c)
    decreases |c|
  {
    if a != [] {
      assert b != [] && c != [];
      if IsSubsequence(b, c[1..]) {
        SubsequenceTransitive(a, b, c[1..]);
      } else {
        assert b[0] == c[0] && IsSubsequence(b[1..], c[1..]);
        if a[0] == b[0] && IsSubsequence(a[1..], b[1..]) {
          SubsequenceTransitive(a[1..], b[1..], c[1..]);
        } else {
          SubsequenceTransitive(a, b[1..], c[1..]);
        }
      }
    }
  }

  lemma {:induction false} SubsequenceReflexive(s: string)
    ensures IsSubsequence(s, s)
  {
    if s != [] {
      SubsequenceReflexive(s[1..]);
    }
  }

  /** Any contiguous slice is a subsequence. */
  lemma {:induction false} SliceIsSubsequence(s: string, i: nat, j: nat)
    requires i <= j <= |s|
    ensures IsSubsequence(s[i..j], s)
    decreases |s|
  {
    if i < j {
      if i > 0 {
        assert s[1..][i - 1..j - 1] == s[i..j];
        SliceIsSubsequence(s[1..], i - 1, j - 1);
      } else {
        assert s[0..j][1..] == s[1..][0..j - 1];
        SliceIsSubsequence(s[1..], 0, j - 1);
      }
    }
  }

  /** A string equal to a slice is a subsequence. */
  lemma SliceIsSubsequenceOf(r: string, s: string, i: nat, j: nat)
    requires i <= j <= |s| && r == s[i..j]
    ensures IsSubsequence(r, s)
  {
    SliceIsSubsequence(s, i, j);
  }

  /** Dropping a prefix of the original keeps a subsequence a subsequence. */
  lemma {:induction false} SubsequenceOfSuffix(a: string, b: string, k: nat)
    requires k <= |b| && IsSubsequence(a, b[k..])
    ensures IsSubsequence(a, b)
    decreases k
  {
    if k > 0 && a != [] {
      assert b[1..][k - 1..] == b[k..];
      SubsequenceOfSuffix(a, b[1..], k - 1);
    }
  }

  /** `t` occurs in `s` starting at index `i`. */
  predicate OccursAt(s: string, t: string, i: int)
  {
    0 <= i && i + |t| <= |s| && s[i..i + |t|] == t
  }

  /** JavaScript `s.includes(t)`. */
  predicate HasSubstring(s: string, t: string)
  {
    exists i :: 0 <= i <= |s| - |t| && OccursAt(s, t, i)
  }

  /** `t` occurs right after any prefix. */
  lemma OccursAfterPrefix(p: string, t: string, q: string)
    ensures OccursAt(p + t + q, t, |p|)
    ensures HasSubstring(p + t + q, t)
  {
    assert (p + t + q)[|p|..|p| + |t|] == t;
    assert OccursAt(p + t + q, t, |p|);
  }

  /** A character of `t` that `s` lacks rules out `t` occurring in `s`. */
  lemma MissingCharRulesOutSubstring(s: string, t: string, c: char)
    requires c in t && c !in s
    ensures !HasSubstring(s, t)
  {
    var k :| 0 <= k < |t| && t[k] == c;
    forall i | 0 <= i && i + |t| <= |s|
      ensures !OccursAt(s, t, i)
    {
      assert s[i..i + |t|][k] == s[i + k] != t[k];
    }
  }

  /** Index of the first occurrence of `c`, or -1. */
  function IndexOf(s: string, c: char): (r: int)
    ensures -1 <= r < |s|
    ensures r >= 0 ==> s[r] == c
    ensures forall k :: 0 <= k < |s| && (r < 0 || k < r) ==> s[k] != c
  {
    if s == [] then -1
    else if s[0] == c then 0
    else
      var r := IndexOf(s[1..], c);
      if r < 0 then -1 else r + 1
  }

  /** Joins fields with a separator (JavaScript `fields.join(sep)`). */
  function Join(fields: seq<string>, sep: char): string
  {
    if |fields| == 0 then []
    else if |fields| == 1 then fields[0]
    else fields[0] + [sep] + Join(fields[1..], sep)
  }

  /** JavaScript `s.split(sep)` for a one-character separator: the fields
      between consecutive separators, always at least one. */
  function Split(s: string, sep: char): (fields: seq<string>)
    ensures |fields| >= 1
    ensures forall i :: 0 <= i < |fields| ==> sep !in fields[i]
    decreases |s|
  {
    var i := IndexOf(s, sep);
    if i < 0 then [s]
    else [s[..i]] + Split(s[i + 1..], sep)
  }

  /** Joining a head field to the rest puts one separator between them. */
  lemma JoinCons(head: string, rest: seq<string>, sep: char)
    requires |rest| >= 1
    ensures Join([head] + rest, sep) == head + [sep] + Join(rest, sep)
  {
    var f := [head] + rest;
    assert f[0] == head && f[1..] == rest;
  }

  /** The first separator after a field free of separators ends that field. */
  lemma IndexOfAfterField(a: string, sep: char, b: string)
    requires sep !in a
    ensures IndexOf(a + [sep] + b, sep) == |a|
    ensures (a + [sep] + b)[..|a|] == a && (a + [sep] + b)[|a| + 1..] == b
  {
    var s := a + [sep] + b;
    assert s[|a|] == sep;
    assert forall k :: 0 <= k < |a| ==> s[k] == a[k];
  }

  /** Joining the fields restores the string. */
  lemma {:induction false} JoinSplit(s: string, sep: char)
    ensures Join(Split(s, sep), sep) == s
    decreases |s|
  {
    var i := IndexOf(s, sep);
    if i >= 0 {
      var rest := Split(s[i + 1..], sep);
      JoinSplit(s[i + 1..], sep);
      JoinCons(s[..i], rest, sep);
      assert s == s[..i] + [sep] + s[i + 1..];
    }
  }

  /** Splitting undoes joining fields that hold no separator. */
  lemma {:induction false} SplitJoin(fields: seq<string>, sep: char)
    requires |fields| >= 1
    requires forall i :: 0 <= i < |fields| ==> sep !in fields[i]
    ensures Split(Join(fields, sep), sep) == fields
    decreases |fields|
  {
    if |fields| == 1 {
      assert IndexOf(fields[0], sep) < 0;
    } else {
      var tail := Join(fields[1..], sep);
      assert fields == [fields[0]] + fields[1..];
      JoinCons(fields[0], fields[1..], sep);
      IndexOfAfterField(fields[0], sep, tail);
      SplitJoin(fields[1..], sep);
    }
  }

  /** JavaScript `list.includes(x)`, scanning from the front. */
  predicate Includes(list: seq<string>, x: string)
  {
    list != [] && (list[0] == x || Includes(list[1..], x))
  }

  lemma {:induction false} IncludesIsMembership(list: seq<string>, x: string)
    ensures Includes(list, x) <==> x in list
  {
    if list != [] {
      IncludesIsMembership(list[1..], x);
      assert list == [list[0]] + list[1..];
    }
  }
}
