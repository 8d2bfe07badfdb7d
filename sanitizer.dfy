/** The filename sanitiser `sanitizeFilename` (server.js:99-106): four
    rewrites applied in a fixed order to the client-supplied name:
    strip the characters <>:"/\|?*, delete ".." pairs left to right,
    strip leading dots, then trim surrounding whitespace. */
module Sanitizer {
  import opened Strings

  /** The character class of `/[<>:"/\\|?*]/g`. */
  const ForbiddenChars: set<char> := {'<', '>', ':', '"', '/', '\\', '|', '?', '*'}

  predicate NoForbidden(s: string)
  {
    forall i :: 0 <= i < |s| ==> s[i] !in ForbiddenChars
  }

  /** ".." starts at index i. */
  predicate DotPairAt(s: string, i: int)
    requires 0 <= i < |s| - 1
  {
    s[i] == '.' && s[i + 1] == '.'
  }

  /** No ".." substring. */
  predicate NoDotPair(s: string)
  {
    forall i :: 0 <= i < |s| - 1 ==> !DotPairAt(s, i)
  }

  /** The code points `String.prototype.trim` removes: ECMAScript
      WhiteSpace and LineTerminator. */
  predicate IsWhitespace(c: char)
  {
    || c == '\t' || c == '\n' || c == '\U{B}' || c == '\U{C}' || c == '\r' || c == ' '
    || c == '\U{A0}' || c == '\U{1680}' || ('\U{2000}' <= c <= '\U{200A}')
    || c == '\U{2028}' || c == '\U{2029}' || c == '\U{202F}' || c == '\U{205F}'
    || c == '\U{3000}' || c == '\U{FEFF}'
  }

  predicate IsTrimmed(s: string)
  {
    s == [] || (!IsWhitespace(s[0]) && !IsWhitespace(s[|s| - 1]))
  }

  lemma ConsNoDotPair(c: char, r: string)
    requires NoDotPair(r)
    requires c != '.' || r == [] || r[0] != '.'
    ensures NoDotPair([c] + r)
  {
    var s := [c] + r;
    forall i | 0 <= i < |s| - 1 ensures !DotPairAt(s, i) {
      if i > 0 {
        assert s[i] == r[i - 1] && s[i + 1] == r[i] && !DotPairAt(r, i - 1);
      }
    }
  }

  /** Joining two names free of ".." creates none unless a dot meets a dot. */
  lemma ConcatNoDotPair(a: string, b: string)
    requires NoDotPair(a) && NoDotPair(b)
    requires a == [] || b == [] || a[|a| - 1] != '.' || b[0] != '.'
    ensures NoDotPair(a + b)
  {
    var s := a + b;
    forall i | 0 <= i < |s| - 1 ensures !DotPairAt(s, i) {
      if i + 1 < |a| {
        assert s[i] == a[i] && s[i + 1] == a[i + 1] && !DotPairAt(a, i);
      } else if i >= |a| {
        assert s[i] == b[i - |a|] && s[i + 1] == b[i + 1 - |a|] && !DotPairAt(b, i - |a|);
      }
    }
  }

  lemma ConcatNoForbidden(a: string, b: string)
    requires NoForbidden(a) && NoForbidden(b)
    ensures NoForbidden(a + b)
  {
    var s := a + b;
    forall i | 0 <= i < |s| ensures s[i] !in ForbiddenChars {
      if i < |a| {
        assert s[i] == a[i];
      } else {
        assert s[i] == b[i - |a|];
      }
    }
  }

  lemma TailNoDotPair(s: string)
    requires s != [] && NoDotPair(s)
    ensures NoDotPair(s[1..])
  {
    var t := s[1..];
    forall i | 0 <= i < |t| - 1 ensures !DotPairAt(t, i) {
      assert t[i] == s[i + 1] && t[i + 1] == s[i + 2] && !DotPairAt(s, i + 1);
    }
  }

  /** A name the sanitiser leaves exactly as it is (see SanitizeFixedPoints). */
  predicate IsSafeName(s: string)
  {
    NoForbidden(s) && NoDotPair(s) && IsTrimmed(s) && (s == [] || s[0] != '.')
  }

  /** Step 1, `.replace(/[<>:"/\\|?*]/g, '')`: deletes the forbidden
      characters (StripForbiddenContents says it deletes nothing else). */
  function StripForbidden(s: string): (r: string)
    ensures NoForbidden(r)
  {
    if s == [] then []
    else if s[0] in ForbiddenChars then StripForbidden(s[1..])
    else [s[0]] + StripForbidden(s[1..])
  }

  /** Step 1 keeps, in order, every character that is not forbidden. */
  lemma {:induction false} StripForbiddenContents(s: string)
    ensures IsSubsequence(StripForbidden(s), s)
    ensures forall c :: c !in ForbiddenChars ==> multiset(StripForbidden(s))[c] == multiset(s)[c]
  {
    if s != [] {
      var rest := StripForbidden(s[1..]);
      StripForbiddenContents(s[1..]);
      assert s == [s[0]] + s[1..];
      if s[0] in ForbiddenChars {
        SubsequenceOfSuffix(rest, s, 1);
      }
    }
  }

  /** Step 2, `.replace(/\.\./g, '')`: a global replacement scans left to
      right and removes non-overlapping ".." pairs. */
  function RemoveDotPairs(s: string): (r: string)
    ensures NoDotPair(r)
    ensures s != [] && s[0] != '.' ==> r != [] && r[0] == s[0]
  {
    if |s| >= 2 && s[0] == '.' && s[1] == '.' then RemoveDotPairs(s[2..])
    else if s == [] then []
    else
      var rest := RemoveDotPairs(s[1..]);
      ConsNoDotPair(s[0], rest);
      [s[0]] + rest
  }

  /** Step 2 deletes only dots, keeping the order of what remains. */
  lemma {:induction false} RemoveDotPairsContents(s: string)
    ensures IsSubsequence(RemoveDotPairs(s), s)
    ensures forall c :: c != '.' ==> multiset(RemoveDotPairs(s))[c] == multiset(s)[c]
    decreases |s|
  {
    if |s| >= 2 && s[0] == '.' && s[1] == '.' {
      var rest := RemoveDotPairs(s[2..]);
      RemoveDotPairsContents(s[2..]);
      SubsequenceOfSuffix(rest, s, 2);
      assert s == [s[0], s[1]] + s[2..];
    } else if s != [] {
      RemoveDotPairsContents(s[1..]);
      assert s == [s[0]] + s[1..];
    }
  }

  /** Step 3, `.replace(/^\.+/, '')`: drops the run of leading dots, leaving a
      suffix of the input (LeadingDotsRemoved says what was dropped). */
  function StripLeadingDots(s: string): (r: string)
    ensures |r| <= |s| && r == s[|s| - |r|..]
    ensures r == [] || r[0] != '.'
  {
    if s != [] && s[0] == '.' then StripLeadingDots(s[1..]) else s
  }

  lemma {:induction false} StripLeadingDotsSubsequence(s: string)
    ensures IsSubsequence(StripLeadingDots(s), s)
  {
    if s != [] && s[0] == '.' {
      StripLeadingDotsSubsequence(s[1..]);
      SubsequenceOfSuffix(StripLeadingDots(s[1..]), s, 1);
    } else {
      SubsequenceReflexive(s);
    }
  }

  lemma {:induction false} LeadingDotsRemoved(s: string)
    ensures forall i :: 0 <= i < |s| - |StripLeadingDots(s)| ==> s[i] == '.'
  {
    if s != [] && s[0] == '.' {
      LeadingDotsRemoved(s[1..]);
      assert forall i :: 1 <= i < |s| - |StripLeadingDots(s)| ==> s[i] == s[1..][i - 1];
    }
  }

  /** Leading half of `.trim()`. */
  function TrimStart(s: string): (r: string)
    ensures |r| <= |s| && r == s[|s| - |r|..]
    ensures r == [] || !IsWhitespace(r[0])
  {
    if s != [] && IsWhitespace(s[0]) then TrimStart(s[1..]) else s
  }

  /** Trailing half of `.trim()`. */
  function TrimEnd(s: string): (r: string)
    ensures |r| <= |s| && r == s[..|r|]
    ensures r == [] || !IsWhitespace(r[|r| - 1])
  {
    if s != [] && IsWhitespace(s[|s| - 1]) then TrimEnd(s[..|s| - 1]) else s
  }

  /** `.trim()` removes nothing but whitespace from the start ... */
  lemma {:induction false} TrimStartRemovesOnlyWhitespace(s: string)
    ensures forall i :: 0 <= i < |s| - |TrimStart(s)| ==> IsWhitespace(s[i])
  {
    if s != [] && IsWhitespace(s[0]) {
      TrimStartRemovesOnlyWhitespace(s[1..]);
      forall i | 1 <= i < |s| - |TrimStart(s)| ensures IsWhitespace(s[i]) {
        assert s[i] == s[1..][i - 1];
      }
    }
  }

  /** ... and from the end. */
  lemma {:induction false} TrimEndRemovesOnlyWhitespace(s: string)
    ensures forall i :: |TrimEnd(s)| <= i < |s| ==> IsWhitespace(s[i])
  {
    if s != [] && IsWhitespace(s[|s| - 1]) {
      TrimEndRemovesOnlyWhitespace(s[..|s| - 1]);
      forall i | |TrimEnd(s)| <= i < |s| - 1 ensures IsWhitespace(s[i]) {
        assert s[i] == s[..|s| - 1][i];
      }
    }
  }

  /** Step 4, `.trim()`: the input without its leading and trailing
      whitespace (TrimIsSlice relates it to the input). */
  function Trim(s: string): (r: string)
    ensures IsTrimmed(r)
    ensures |r| <= |s|
  {
    TrimEnd(TrimStart(s))
  }

  /** `.trim()` returns a slice of its input, so it is a subsequence of it
      and keeps a clean input clean. */
  lemma TrimIsSlice(s: string)
    ensures IsSubsequence(Trim(s), s)
    ensures NoForbidden(s) && NoDotPair(s) ==> NoForbidden(Trim(s)) && NoDotPair(Trim(s))
  {
    var r := Trim(s);
    var i := TrimSlice(s);
    var j := i + |r|;
    assert i <= j <= |s| && r == s[i..j];
    SliceIsSubsequenceOf(r, s, i, j);
    SliceKeepsClean(r, s, i, j);
  }

  /** Where in its input the trimmed value sits. */
  lemma TrimSlice(s: string) returns (i: nat)
    ensures i + |Trim(s)| <= |s| && Trim(s) == s[i..i + |Trim(s)|]
  {
    var t := TrimStart(s);
    i := |s| - |t|;
    PrefixOfSuffix(s, t, TrimEnd(t));
  }

  lemma PrefixOfSuffix(s: string, t: string, r: string)
    requires |t| <= |s| && t == s[|s| - |t|..]
    requires |r| <= |t| && r == t[..|r|]
    ensures r == s[|s| - |t|..|s| - |t| + |r|]
  {
  }

  /** The value after the first three steps, before `.trim()`. */
  function PreTrim(s: string): string
  {
    StripLeadingDots(RemoveDotPairs(StripForbidden(s)))
  }

  /** `sanitizeFilename`: whatever the input, the result holds none of
      <>:"/\|?*, no ".." and no surrounding whitespace. */
  function Sanitize(s: string): (r: string)
    ensures NoForbidden(r) && NoDotPair(r) && IsTrimmed(r)
  {
    PreTrimClean(s);
    TrimIsSlice(PreTrim(s));
    Trim(PreTrim(s))
  }

  lemma SliceKeepsClean(t: string, s: string, i: nat, j: nat)
    requires i <= j <= |s| && t == s[i..j]
    ensures NoForbidden(s) && NoDotPair(s) ==> NoForbidden(t) && NoDotPair(t)
  {
    if NoDotPair(s) {
      forall k | 0 <= k < |t| - 1 ensures !DotPairAt(t, k) {
        assert t[k] == s[i + k] && t[k + 1] == s[i + k + 1] && !DotPairAt(s, i + k);
      }
    }
  }

  /** Step 2 introduces no character, so it keeps a name free of forbidden ones. */
  lemma {:induction false} RemoveDotPairsKeepsNoForbidden(s: string)
    requires NoForbidden(s)
    ensures NoForbidden(RemoveDotPairs(s))
    decreases |s|
  {
    if |s| >= 2 && s[0] == '.' && s[1] == '.' {
      RemoveDotPairsKeepsNoForbidden(s[2..]);
    } else if s != [] {
      RemoveDotPairsKeepsNoForbidden(s[1..]);
    }
  }

  lemma PreTrimClean(s: string)
    ensures NoForbidden(PreTrim(s)) && NoDotPair(PreTrim(s))
  {
    var a := StripForbidden(s);
    var b := RemoveDotPairs(a);
    var c := StripLeadingDots(b);
    RemoveDotPairsKeepsNoForbidden(a);
    SliceKeepsClean(c, b, |b| - |c|, |b|);
  }

  lemma PreTrimSubsequence(s: string)
    ensures IsSubsequence(PreTrim(s), s)
  {
    var a := StripForbidden(s);
    var b := RemoveDotPairs(a);
    var c := StripLeadingDots(b);
    StripForbiddenContents(s);
    RemoveDotPairsContents(a);
    StripLeadingDotsSubsequence(b);
    SubsequenceTransitive(b, a, s);
    SubsequenceTransitive(c, b, s);
  }

  /** What the sanitiser promises for every input: none of <>:"/\|?*, no
      "..", no surrounding whitespace, and a subsequence of the input (so
      never longer than it). */
  lemma SanitizeIsSafe(s: string)
    ensures NoForbidden(Sanitize(s))
    ensures NoDotPair(Sanitize(s))
    ensures IsTrimmed(Sanitize(s))
    ensures IsSubsequence(Sanitize(s), s)
    ensures |Sanitize(s)| <= |s|
  {
    var p := PreTrim(s);
    var r := Trim(p);
    PreTrimClean(s);
    PreTrimSubsequence(s);
    TrimIsSlice(p);
    SubsequenceTransitive(r, p, s);
    SubsequenceShorter(r, s);
  }

  /** Only the pre-trim value is guaranteed not to start with a dot. */
  lemma PreTrimNoLeadingDot(s: string)
    ensures PreTrim(s) == [] || PreTrim(s)[0] != '.'
  {
  }

  /** The final result starts with a dot only when whitespace preceded that
      dot before trimming. */
  lemma SanitizeLeadingDotNeedsWhitespace(s: string)
    requires Sanitize(s) != [] && Sanitize(s)[0] == '.'
    ensures PreTrim(s) != [] && IsWhitespace(PreTrim(s)[0])
  {
    var p := PreTrim(s);
    var t := TrimStart(p);
    assert TrimEnd(t) == t[..|TrimEnd(t)|];
    assert t != [] && t[0] == '.';
    assert |t| < |p|;
  }

  lemma {:induction false} StripForbiddenKeepsClean(s: string)
    requires NoForbidden(s)
    ensures StripForbidden(s) == s
  {
    if s != [] {
      StripForbiddenKeepsClean(s[1..]);
    }
  }

  lemma {:induction false} RemoveDotPairsKeepsClean(s: string)
    requires NoDotPair(s)
    ensures RemoveDotPairs(s) == s
  {
    if s != [] {
      assert |s| >= 2 ==> !DotPairAt(s, 0);
      TailNoDotPair(s);
      RemoveDotPairsKeepsClean(s[1..]);
      assert s == [s[0]] + s[1..];
    }
  }

  /** Whitespace in front of an otherwise safe dot-name survives as a
      leading dot: `" .env"` becomes `".env"`. */
  lemma {:induction false} WhitespaceShieldsLeadingDot(t: string)
    requires NoForbidden(t) && NoDotPair(t) && IsTrimmed(t)
    requires t != [] && t[0] == '.'
    ensures Sanitize(" " + t) == t
  {
    var s := " " + t;
    assert NoForbidden(s) by {
      forall k | 0 <= k < |s| ensures s[k] !in ForbiddenChars {
        if k > 0 { assert s[k] == t[k - 1]; }
      }
    }
    assert NoDotPair(s) by {
      forall k | 0 <= k < |s| - 1 ensures !DotPairAt(s, k) {
        if k > 0 { assert s[k] == t[k - 1] && s[k + 1] == t[k] && !DotPairAt(t, k - 1); }
      }
    }
    StripForbiddenKeepsClean(s);
    RemoveDotPairsKeepsClean(s);
    assert PreTrim(s) == s;
    assert s[1..] == t;
    assert TrimStart(s) == TrimStart(t) == t;
  }

  /** Both halves of the worked example below: ".env" is otherwise safe. */
  lemma DotEnvIsClean(t: string)
    requires t == ".env"
    ensures NoForbidden(t) && NoDotPair(t) && IsTrimmed(t)
  {
    forall k | 0 <= k < |t| ensures t[k] !in ForbiddenChars {
      assert t[k] in {'.', 'e', 'n', 'v'};
    }
    forall k | 0 <= k < |t| - 1 ensures !DotPairAt(t, k) {
      assert t[k + 1] != '.';
    }
  }

  /** `sanitizeFilename(" .env")` is the hidden-file name ".env". */
  lemma LeadingDotExample(s: string)
    requires s == " .env"
    ensures Sanitize(s) == ".env"
  {
    DotEnvIsClean(".env");
    assert s == " " + ".env";
    WhitespaceShieldsLeadingDot(".env");
  }

  lemma SafeNamesAreFixed(s: string)
    requires IsSafeName(s)
    ensures Sanitize(s) == s
  {
    StripForbiddenKeepsClean(s);
    RemoveDotPairsKeepsClean(s);
    assert PreTrim(s) == s;
  }

  lemma FixedNamesAreSafe(s: string)
    requires Sanitize(s) == s
    ensures IsSafeName(s)
  {
    SanitizeIsSafe(s);
    if s != [] && s[0] == '.' {
      StripForbiddenKeepsClean(s);
      RemoveDotPairsKeepsClean(s);
      assert false;
    }
  }

  /** The sanitiser leaves a name unchanged exactly when it is already safe. */
  lemma SanitizeFixedPoints(s: string)
    ensures Sanitize(s) == s <==> IsSafeName(s)
  {
    if IsSafeName(s) {
      SafeNamesAreFixed(s);
    }
    if Sanitize(s) == s {
      FixedNamesAreSafe(s);
    }
  }

  function Dots(k: nat): (r: string)
  {
    seq(k, _ => '.')
  }

  /** A run of k dots on its own becomes k mod 2 dots. */
  lemma {:induction false} DotRunParity(k: nat)
    ensures RemoveDotPairs(Dots(k)) == Dots(k % 2)
  {
    var d := Dots(k);
    if k >= 2 {
      assert d[0] == '.' && d[1] == '.';
      assert d[2..] == Dots(k - 2);
      DotRunParity(k - 2);
    } else if k == 1 {
      assert d == ['.'];
      assert d[1..] == [];
    } else {
      assert d == [];
    }
  }

  /** A maximal run of k dots followed by another character becomes k mod 2
      dots, and the rest is rewritten independently. */
  lemma {:induction false} DotRunThenChar(k: nat, c: char, t: string)
    requires c != '.'
    ensures RemoveDotPairs(Dots(k) + [c] + t) == Dots(k % 2) + [c] + RemoveDotPairs(t)
  {
    var s := Dots(k) + [c] + t;
    if k >= 2 {
      assert s[2..] == Dots(k - 2) + [c] + t;
      DotRunThenChar(k - 2, c, t);
    } else if k == 1 {
      assert s[1..] == [c] + t;
      assert ([c] + t)[1..] == t;
    } else {
      assert s == [c] + t;
      assert s[1..] == t;
    }
  }

  /** A trailing ".." after a name free of ".." that does not end in a dot
      is deleted by step 2. */
  lemma {:induction false} RemoveTrailingDotPair(t: string)
    requires NoDotPair(t) && (t == [] || t[|t| - 1] != '.')
    ensures RemoveDotPairs(t + "..") == t
  {
    var s := t + "..";
    if t == [] {
      assert s[2..] == [];
    } else {
      assert |t| >= 2 ==> !DotPairAt(t, 0);
      assert s[1..] == t[1..] + "..";
      TailNoDotPair(t);
      RemoveTrailingDotPair(t[1..]);
      assert t == [t[0]] + t[1..];
    }
  }

  /** A safe name not ending in a dot is what the sanitiser makes of it
      followed by "..": "shell.php.." becomes "shell.php". */
  lemma TrailingDotPairDropped(t: string)
    requires IsSafeName(t) && t != [] && t[|t| - 1] != '.'
    ensures Sanitize(t + "..") == t
  {
    var s := t + "..";
    assert NoForbidden(s) by {
      forall k | 0 <= k < |s| ensures s[k] !in ForbiddenChars {
        if k < |t| { assert s[k] == t[k]; }
      }
    }
    StripForbiddenKeepsClean(s);
    RemoveTrailingDotPair(t);
  }
}
