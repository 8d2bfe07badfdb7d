/** The dangerous-extension test `isDangerousExtension` (server.js:108-112):
    Node's POSIX `path.extname`, ASCII lower-casing, and membership in the
    fixed denylist of server.js:93-96. */
module Extension {
  import opened Strings

  /** The denylist DANGEROUS_EXTENSIONS, in source order. */
  const DangerousExtensions: seq<string> :=
    [".exe", ".bat", ".cmd", ".com", ".pif", ".scr", ".vbs", ".js", ".jar",
     ".php", ".asp", ".jsp", ".sh", ".ps1", ".py", ".rb", ".pl", ".cgi"]

  predicate NoSlash(s: string)
  {
    forall i :: 0 <= i < |s| ==> s[i] != '/'
  }

  /** Index of the last occurrence of `c`, or -1. */
  function LastIndexOf(s: string, c: char): (r: int)
    ensures -1 <= r < |s|
    ensures r >= 0 ==> s[r] == c
    ensures forall i :: r < i < |s| ==> s[i] != c
  {
    if s == [] then -1
    else if s[|s| - 1] == c then |s| - 1
    else LastIndexOf(s[..|s| - 1], c)
  }

  /** The postcondition of LastIndexOf determines its value. */
  lemma LastIndexOfIs(s: string, c: char, k: int)
    requires -1 <= k < |s|
    requires k >= 0 ==> s[k] == c
    requires forall i :: k < i < |s| ==> s[i] != c
    ensures LastIndexOf(s, c) == k
  {
    var r := LastIndexOf(s, c);
    if k >= 0 {
      assert s[k] == c;
    }
    if r >= 0 {
      assert s[r] == c;
    }
  }

  /** A tail free of `c` does not move the last occurrence of `c`. */
  lemma LastIndexOfPastClean(a: string, b: string, c: char)
    requires forall i :: 0 <= i < |b| ==> b[i] != c
    ensures LastIndexOf(a + b, c) == LastIndexOf(a, c)
  {
    var p := a + b;
    var j := LastIndexOf(a, c);
    forall i | j < i < |p| ensures p[i] != c {
      if i < |a| {
        assert p[i] == a[i];
      } else {
        assert p[i] == b[i - |a|];
      }
    }
    if j >= 0 {
      assert p[j] == a[j];
    }
    LastIndexOfIs(p, c, j);
  }

  /** A tail that starts with `c` and holds no other `c` puts the last
      occurrence at its start. */
  lemma LastIndexOfAtTail(a: string, b: string, c: char)
    requires b != [] && b[0] == c
    requires forall i :: 1 <= i < |b| ==> b[i] != c
    ensures LastIndexOf(a + b, c) == |a|
  {
    var p := a + b;
    forall i | |a| < i < |p| ensures p[i] != c {
      assert p[i] == b[i - |a|];
    }
    assert p[|a|] == b[0];
    LastIndexOfIs(p, c, |a|);
  }

  /** `path.extname` first drops trailing separators, and nothing else. */
  function TrimTrailingSlashes(p: string): (r: string)
    ensures |r| <= |p| && r == p[..|r|]
    ensures forall i :: |r| <= i < |p| ==> p[i] == '/'
    ensures r == [] || r[|r| - 1] != '/'
    ensures NoSlash(p) ==> r == p
  {
    if p != [] && p[|p| - 1] == '/' then TrimTrailingSlashes(p[..|p| - 1]) else p
  }

  /** The last path component, without trailing separators. */
  function Basename(p: string): (b: string)
    ensures NoSlash(b)
    ensures NoSlash(p) ==> b == p
  {
    var q := TrimTrailingSlashes(p);
    var k := LastIndexOf(q, '/');
    assert NoSlash(p) ==> k == -1;
    q[k + 1..]
  }

  /** Node's POSIX `path.extname`: from the last '.' of the last path
      component to its end, except that a component with no dot, whose only
      dot is its first character, or that is exactly ".." has extension "". */
  function Extname(p: string): (e: string)
    ensures e != [] ==> e[0] == '.' && |e| < |Basename(p)|
    ensures e != [] ==> e == Basename(p)[|Basename(p)| - |e|..]
    ensures forall i :: 1 <= i < |e| ==> e[i] != '.' && e[i] != '/'
  {
    BaseExtension(Basename(p))
  }

  /** The extension of a last path component: from its last dot, unless
      that dot leads the component or the component is "..". */
  function BaseExtension(base: string): (e: string)
    ensures e != [] ==> e[0] == '.' && |e| < |base| && e == base[|base| - |e|..]
    ensures forall i :: 1 <= i < |e| ==> e[i] != '.'
  {
    var dot := LastIndexOf(base, '.');
    if dot <= 0 || base == ".." then [] else base[dot..]
  }

  /** A trailing separator changes neither the last component nor the
      extension: "a/b.txt/" has the extension of "a/b.txt". */
  lemma ExtnameIgnoresTrailingSlash(p: string)
    ensures Basename(p + "/") == Basename(p)
    ensures Extname(p + "/") == Extname(p)
  {
    var q := p + "/";
    assert q[..|q| - 1] == p;
  }

  /** A single path component is its own last component. */
  lemma ExtnameOfComponent(p: string)
    requires NoSlash(p)
    ensures Extname(p) == BaseExtension(p)
  {
  }

  /** A component whose last dot is at `k > 0` has the extension from `k`. */
  lemma ExtensionFromLastDot(base: string, k: nat)
    requires 0 < k < |base| && base[k] == '.'
    requires forall i :: k < i < |base| ==> base[i] != '.'
    requires base != ".."
    ensures BaseExtension(base) == base[k..]
  {
    LastIndexOfIs(base, '.', k);
  }

  /** A name `stem + x`, where `x` is a dot followed by no further dot or
      separator, has extension `x` whenever the stem is non-empty, does not
      end in a separator, and the last component is not "..". */
  lemma ExtnameOfSuffix(stem: string, x: string)
    requires x != [] && x[0] == '.'
    requires forall i :: 1 <= i < |x| ==> x[i] != '.' && x[i] != '/'
    requires stem != [] && stem[|stem| - 1] != '/'
    requires |x| >= 2 || stem[|stem| - 1] != '.'
    ensures Extname(stem + x) == x
  {
    var pre := BasenameOfSuffix(stem, x);
    var base := pre + x;
    LastIndexOfAtTail(pre, x, '.');
    assert base[|pre|..] == x;
    if |base| == 2 {
      assert base[0] == stem[|stem| - 1];
    }
  }

  /** Appending a tail free of separators (and not ending in one) to a path
      whose last character is no separator extends its last component. */
  lemma BasenameOfSuffix(stem: string, x: string) returns (pre: string)
    requires x != [] && forall i :: 0 <= i < |x| ==> x[i] != '/'
    requires stem != [] && stem[|stem| - 1] != '/'
    ensures pre != [] && |pre| <= |stem| && pre == stem[|stem| - |pre|..]
    ensures Basename(stem + x) == pre + x
  {
    var p := stem + x;
    assert p[|p| - 1] == x[|x| - 1];
    assert TrimTrailingSlashes(p) == p;
    var j := LastIndexOf(stem, '/');
    LastIndexOfPastClean(stem, x, '/');
    pre := stem[j + 1..];
    assert p[j + 1..] == pre + x;
  }

  /** A name without a dot has no extension. */
  lemma NoDotNoExtension(p: string)
    requires forall i :: 0 <= i < |p| ==> p[i] != '.'
    ensures Extname(p) == []
  {
    var base := Basename(p);
    var q := TrimTrailingSlashes(p);
    var k := LastIndexOf(q, '/');
    assert base == q[k + 1..];
    forall i | 0 <= i < |base| ensures base[i] != '.' {
      assert base[i] == q[k + 1 + i] == p[k + 1 + i];
    }
    LastIndexOfIs(base, '.', -1);
  }

  /** A single component whose only dot is its first character (".js",
      ".env") has no extension. */
  lemma LeadingDotOnlyNoExtension(p: string)
    requires NoSlash(p) && p != [] && p[0] == '.'
    requires forall i :: 1 <= i < |p| ==> p[i] != '.'
    ensures Extname(p) == []
  {
    ExtnameOfComponent(p);
    LastIndexOfIs(p, '.', 0);
  }

  function LowerChar(c: char): char
  {
    if 'A' <= c <= 'Z' then (c as int + 32) as char else c
  }

  /** `toLowerCase`, restricted to ASCII letters. */
  function AsciiLower(s: string): (r: string)
    ensures |r| == |s|
    ensures forall i :: 0 <= i < |s| ==> r[i] == LowerChar(s[i])
  {
    seq(|s|, i requires 0 <= i < |s| => LowerChar(s[i]))
  }

  /** `isDangerousExtension`: the lower-cased extension is on the denylist. */
  predicate IsDangerousExtension(name: string)
    ensures IsDangerousExtension(name) <==> AsciiLower(Extname(name)) in DangerousExtensions
  {
    IncludesIsMembership(DangerousExtensions, AsciiLower(Extname(name)));
    Includes(DangerousExtensions, AsciiLower(Extname(name)))
  }

  lemma LowerCharKeepsSeparators(c: char)
    ensures LowerChar(c) == '.' <==> c == '.'
    ensures LowerChar(c) == '/' <==> c == '/'
  {
  }

  lemma LowerLastIndexOf(s: string, c: char)
    requires c == '.' || c == '/'
    ensures LastIndexOf(AsciiLower(s), c) == LastIndexOf(s, c)
  {
    var k := LastIndexOf(s, c);
    var t := AsciiLower(s);
    forall i | k < i < |t| ensures t[i] != c {
      LowerCharKeepsSeparators(s[i]);
    }
    LastIndexOfIs(t, c, k);
  }

  lemma LowerSlice(s: string, a: nat, b: nat)
    requires a <= b <= |s|
    ensures AsciiLower(s[a..b]) == AsciiLower(s)[a..b]
  {
  }

  lemma {:induction false} LowerTrimTrailingSlashes(p: string)
    ensures TrimTrailingSlashes(AsciiLower(p)) == AsciiLower(TrimTrailingSlashes(p))
  {
    var l := AsciiLower(p);
    if p != [] {
      LowerCharKeepsSeparators(p[|p| - 1]);
      if p[|p| - 1] == '/' {
        LowerSlice(p, 0, |p| - 1);
        assert l[..|l| - 1] == AsciiLower(p[..|p| - 1]);
        LowerTrimTrailingSlashes(p[..|p| - 1]);
      }
    }
  }

  lemma LowerBasename(p: string)
    ensures Basename(AsciiLower(p)) == AsciiLower(Basename(p))
  {
    var q := TrimTrailingSlashes(p);
    LowerTrimTrailingSlashes(p);
    LowerLastIndexOf(q, '/');
    var k := LastIndexOf(q, '/');
    LowerSlice(q, k + 1, |q|);
  }

  /** `path.extname` commutes with ASCII lower-casing: lower-casing changes
      neither separators nor dots. */
  lemma ExtnameIgnoresCase(p: string)
    ensures Extname(AsciiLower(p)) == AsciiLower(Extname(p))
  {
    LowerBasename(p);
    BaseExtensionIgnoresCase(Basename(p));
  }

  lemma BaseExtensionIgnoresCase(base: string)
    ensures BaseExtension(AsciiLower(base)) == AsciiLower(BaseExtension(base))
  {
    LowerLastIndexOf(base, '.');
    var dot := LastIndexOf(base, '.');
    LowerDotDot(base);
    if dot > 0 {
      LowerSlice(base, dot, |base|);
    }
  }

  /** Only ".." lower-cases to "..". */
  lemma LowerDotDot(s: string)
    ensures s == ".." <==> AsciiLower(s) == ".."
  {
    if |s| == 2 {
      LowerCharKeepsSeparators(s[0]);
      LowerCharKeepsSeparators(s[1]);
    }
  }

  /** The test is case-insensitive: names that agree up to ASCII case are
      either both dangerous or both harmless. */
  lemma DangerousIgnoresCase(a: string, b: string)
    requires AsciiLower(a) == AsciiLower(b)
    ensures IsDangerousExtension(a) <==> IsDangerousExtension(b)
  {
    ExtnameIgnoresCase(a);
    ExtnameIgnoresCase(b);
  }

  /** Every denylisted extension in the list is a dot followed by at least
      two characters, none of them a dot or a separator. */
  lemma DenylistShape(e: string)
    requires e in DangerousExtensions
    ensures |e| >= 3 && e[0] == '.'
    ensures forall i :: 1 <= i < |e| ==> e[i] != '.' && e[i] != '/'
  {
  }

  /** No denylisted extension begins ".t". */
  lemma DenylistNoT(e: string)
    requires e in DangerousExtensions
    ensures |e| >= 2 && e[1] != 't'
  {
  }

  /** A name made of a non-empty stem (not ending in a separator) and a
      denylisted extension in any ASCII case is dangerous. */
  lemma DenylistedSuffixIsDangerous(stem: string, x: string)
    requires AsciiLower(x) in DangerousExtensions
    requires stem != [] && stem[|stem| - 1] != '/'
    ensures IsDangerousExtension(stem + x)
  {
    var e := AsciiLower(x);
    DenylistShape(e);
    IncludesIsMembership(DangerousExtensions, e);
    LowerCharKeepsSeparators(x[0]);
    forall i | 1 <= i < |x| ensures x[i] != '.' && x[i] != '/' {
      LowerCharKeepsSeparators(x[i]);
    }
    ExtnameOfSuffix(stem, x);
  }

  /** "report.EXE" is dangerous. */
  lemma ReportExeIsDangerous(name: string)
    requires name == "report.EXE"
    ensures IsDangerousExtension(name)
  {
    var x := ".EXE";
    assert AsciiLower(x) == ".exe";
    assert name == "report" + x;
    DenylistedSuffixIsDangerous("report", x);
  }

  /** Every denylisted extension has at least three characters, so a
      shorter extension (such as "" or ".") is never dangerous. */
  lemma ShortExtensionNeverDangerous(p: string)
    requires |Extname(p)| < 3
    ensures !IsDangerousExtension(p)
  {
    IncludesIsMembership(DangerousExtensions, AsciiLower(Extname(p)));
    forall e | e in DangerousExtensions ensures |e| >= 3 {
      DenylistShape(e);
    }
  }

  /** A name with no dot, or whose only dot is its first character, is
      never dangerous, whatever it spells: "exe", ".js". */
  lemma NoExtensionNeverDangerous(p: string)
    requires Extname(p) == []
    ensures !IsDangerousExtension(p)
  {
    ShortExtensionNeverDangerous(p);
  }
}
