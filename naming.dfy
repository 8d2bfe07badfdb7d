/** The destination-name resolver, multer's `filename` callback
    (server.js:119-138): the sanitised client name, or `file-<now>` when
    sanitising leaves nothing; if a file of that name already exists, the
    name with `-<now>` inserted before its extension. The directory is the
    set of names it holds, and each read of the clock is a parameter. */
module Naming {
  import opened Strings
  import opened Sanitizer
  import opened Extension

  predicate IsDigit(c: char)
  {
    '0' <= c <= '9'
  }

  function DigitChar(d: nat): (c: char)
    requires d < 10
    ensures IsDigit(c)
  {
    ('0' as int + d) as char
  }

  /** A clock reading rendered by a template literal: decimal digits, no
      leading zero. */
  function DecimalDigits(n: nat): (d: string)
    ensures d != []
    ensures forall i :: 0 <= i < |d| ==> IsDigit(d[i])
    ensures d[0] == '0' ==> n == 0
    decreases n
  {
    if n < 10 then [DigitChar(n)] else DecimalDigits(n / 10) + [DigitChar(n % 10)]
  }

  function DigitValue(c: char): nat
    requires IsDigit(c)
  {
    c as int - '0' as int
  }

  /** The number a string of digits denotes. */
  function DecimalValue(d: string): nat
    requires forall i :: 0 <= i < |d| ==> IsDigit(d[i])
  {
    if d == [] then 0 else DecimalValue(d[..|d| - 1]) * 10 + DigitValue(d[|d| - 1])
  }

  /** Rendering a clock reading loses nothing: reading the digits back gives
      the same number, so different readings give different names. */
  lemma {:induction false} DecimalRoundTrip(n: nat)
    ensures DecimalValue(DecimalDigits(n)) == n
    decreases n
  {
    var d := DecimalDigits(n);
    if n >= 10 {
      DecimalRoundTrip(n / 10);
      assert d[..|d| - 1] == DecimalDigits(n / 10);
    }
  }

  lemma DigitsInjective(m: nat, n: nat)
    requires DecimalDigits(m) == DecimalDigits(n)
    ensures m == n
  {
    DecimalRoundTrip(m);
    DecimalRoundTrip(n);
  }

  /** Digits and '-' are neither forbidden characters nor dots. */
  lemma StampClean(now: nat)
    ensures NoForbidden("-" + DecimalDigits(now))
    ensures forall i :: 0 <= i < |"-" + DecimalDigits(now)| ==> ("-" + DecimalDigits(now))[i] != '.'
  {
    var m := "-" + DecimalDigits(now);
    forall i | 0 <= i < |m| ensures m[i] !in ForbiddenChars && m[i] != '.' {
      if i > 0 {
        assert IsDigit(m[i]);
      }
    }
  }

  /** `file-${Date.now()}`. */
  function FallbackName(now: nat): string
  {
    "file-" + DecimalDigits(now)
  }

  /** `sanitizedName || \`file-${Date.now()}\``. */
  function FinalName(original: string, now: nat): (r: string)
    ensures IsCleanName(r)
  {
    var s := Sanitize(original);
    FallbackIsClean(now);
    if s == [] then FallbackName(now) else s
  }

  /** The name used on a collision: `${nameWithoutExt}-${timestamp}${ext}`,
      with `ext = path.extname(name)` and `nameWithoutExt =
      path.basename(name, ext)`. */
  function StampedName(name: string, now: nat): (r: string)
    ensures |r| == |Basename(name)| + 1 + |DecimalDigits(now)|
    ensures r[|r| - |Extname(name)|..] == Extname(name)
  {
    var ext := Extname(name);
    var base := Basename(name);
    base[..|base| - |ext|] + "-" + DecimalDigits(now) + ext
  }

  /** `fs.existsSync(path.join(UPLOAD_DIR, name))` for a name without a
      separator: a stored file of that name, or "." which joins to the
      upload directory itself and so always exists. */
  predicate Exists(existing: set<string>, name: string)
    ensures name in existing ==> Exists(existing, name)
    ensures name != "." && name !in existing ==> !Exists(existing, name)
  {
    name in existing || name == "."
  }

  /** The name the callback hands to multer, given the names already in the
      directory and the clock readings at server.js:124 and server.js:131. */
  function DestinationName(original: string, existing: set<string>, nowAtFallback: nat, nowAtRename: nat): (r: string)
    ensures IsCleanName(r) && r != "."
  {
    var f := FinalName(original, nowAtFallback);
    StampedIsClean(f, nowAtRename);
    if Exists(existing, f) then StampedName(f, nowAtRename) else f
  }

  /** A name with nothing for the sanitiser to remove and no separator. */
  predicate IsCleanName(s: string)
  {
    s != [] && NoForbidden(s) && NoDotPair(s)
  }

  lemma CleanHasNoSlash(s: string)
    requires NoForbidden(s)
    ensures NoSlash(s)
  {
    forall i | 0 <= i < |s| ensures s[i] != '/' {
      assert s[i] !in ForbiddenChars;
    }
  }

  /** The fallback `file-<now>` is a clean name. */
  lemma FallbackIsClean(now: nat)
    ensures IsCleanName(FallbackName(now))
  {
    var m := Stamp(now);
    var w := "file";
    assert FallbackName(now) == w + m;
    assert NoForbidden(w) && NoDotPair(w) by {
      forall i | 0 <= i < |w| ensures w[i] !in ForbiddenChars && w[i] != '.' {
        assert w[i] in {'f', 'i', 'l', 'e'};
      }
    }
    ConcatNoForbidden(w, m);
    ConcatNoDotPair(w, m);
  }

  /** The stem and extension a clean name splits into. */
  lemma CleanNameParts(name: string) returns (stem: string, ext: string)
    requires IsCleanName(name)
    ensures ext == Extname(name) && name == stem + ext
    ensures stem == Basename(name)[..|Basename(name)| - |ext|]
    ensures NoForbidden(stem) && NoDotPair(stem) && NoForbidden(ext) && NoDotPair(ext)
  {
    CleanHasNoSlash(name);
    ext := Extname(name);
    stem := name[..|name| - |ext|];
    assert name == stem + ext;
    SliceKeepsClean(stem, name, 0, |name| - |ext|);
    SliceKeepsClean(ext, name, |name| - |ext|, |name|);
  }

  /** The stamp `-<now>`, as the three facts the proofs below need. */
  lemma Stamp(now: nat) returns (m: string)
    ensures m == "-" + DecimalDigits(now)
    ensures NoForbidden(m) && NoDotPair(m)
    ensures forall i :: 0 <= i < |m| ==> m[i] != '.' && m[i] != '/'
    ensures |m| >= 2 && IsDigit(m[|m| - 1])
  {
    m := "-" + DecimalDigits(now);
    StampClean(now);
    forall i | 0 <= i < |m| ensures m[i] != '/' {
      assert m[i] !in ForbiddenChars;
    }
    assert NoDotPair(m) by {
      forall i | 0 <= i < |m| - 1 ensures !DotPairAt(m, i) {
        assert m[i] != '.';
      }
    }
  }

  /** A collision rename of a clean name is its stem, the stamp, and its
      extension. */
  lemma StampedParts(name: string, now: nat) returns (stem: string, m: string, ext: string)
    requires IsCleanName(name)
    ensures ext == Extname(name) && name == stem + ext
    ensures StampedName(name, now) == (stem + m) + ext
    ensures NoForbidden(stem) && NoDotPair(stem) && NoForbidden(ext) && NoDotPair(ext)
    ensures NoForbidden(m) && NoDotPair(m)
    ensures forall i :: 0 <= i < |m| ==> m[i] != '.' && m[i] != '/'
    ensures |m| >= 2 && IsDigit(m[|m| - 1])
  {
    stem, ext := CleanNameParts(name);
    m := Stamp(now);
    CleanHasNoSlash(name);
    assert Basename(name) == name;
    var d := DecimalDigits(now);
    assert stem + "-" + d + ext == (stem + m) + ext;
  }

  /** A collision rename of a clean name is clean, and strictly longer, so it
      never equals the name it replaces. */
  lemma StampedIsClean(name: string, now: nat)
    requires IsCleanName(name)
    ensures IsCleanName(StampedName(name, now))
    ensures |StampedName(name, now)| > |name|
  {
    var stem, m, ext := StampedParts(name, now);
    ConcatNoForbidden(stem, m);
    ConcatNoDotPair(stem, m);
    var sm := stem + m;
    assert sm[|sm| - 1] == m[|m| - 1];
    ConcatNoForbidden(sm, ext);
    ConcatNoDotPair(sm, ext);
  }

  /** A collision rename keeps the extension: "a.txt" becomes "a-<now>.txt",
      never "a.txt-<now>". */
  lemma StampedKeepsExtension(name: string, now: nat)
    requires IsCleanName(name)
    ensures Extname(StampedName(name, now)) == Extname(name)
  {
    var stem, m, ext := StampedParts(name, now);
    var sm := stem + m;
    assert sm[|sm| - 1] == m[|m| - 1];
    if ext != [] {
      ExtnameOfSuffix(sm, ext);
    } else {
      CleanHasNoSlash(name);
      assert stem == name;
      NoDotInStampKeepsNoExtension(name, m);
    }
  }

  lemma ConcatNoSlash(a: string, b: string)
    requires NoSlash(a) && forall i :: 0 <= i < |b| ==> b[i] != '/'
    ensures NoSlash(a + b)
  {
    var p := a + b;
    forall i | 0 <= i < |p| ensures p[i] != '/' {
      if i < |a| { assert p[i] == a[i]; } else { assert p[i] == b[i - |a|]; }
    }
  }

  /** With no extension, appending the stamp adds none. */
  lemma NoDotInStampKeepsNoExtension(name: string, m: string)
    requires IsCleanName(name) && NoSlash(name) && Extname(name) == []
    requires m != [] && IsDigit(m[|m| - 1])
    requires forall i :: 0 <= i < |m| ==> m[i] != '.' && m[i] != '/'
    ensures Extname(name + m) == []
  {
    var p := name + m;
    ConcatNoSlash(name, m);
    assert Basename(p) == p && Basename(name) == name;
    assert name != ".." by {
      if |name| == 2 && name[0] == '.' { assert !DotPairAt(name, 0); }
    }
    NoDotSuffixAddsNoExtension(name, m);
  }

  lemma NoDotSuffixAddsNoExtension(a: string, m: string)
    requires BaseExtension(a) == [] && a != ".."
    requires m != [] && m[|m| - 1] != '.'
    requires forall i :: 0 <= i < |m| ==> m[i] != '.'
    ensures BaseExtension(a + m) == []
  {
    LastIndexOfPastClean(a, m, '.');
    assert (a + m)[|a + m| - 1] == m[|m| - 1];
  }

  /** The callback always produces a clean, non-empty name other than ".",
      and it returns the sanitised (or fallback) name unchanged exactly when
      no file of that name exists. */
  lemma DestinationIsClean(original: string, existing: set<string>, t1: nat, t2: nat)
    ensures IsCleanName(DestinationName(original, existing, t1, t2))
    ensures DestinationName(original, existing, t1, t2) != "."
    ensures DestinationName(original, existing, t1, t2) == FinalName(original, t1)
        <==> !Exists(existing, FinalName(original, t1))
  {
    var f := FinalName(original, t1);
    StampedIsClean(f, t2);
  }

  /** Uniqueness is not promised: the chosen name is already taken exactly
      when both the plain name and its collision rename are taken. */
  lemma DestinationTakenIff(original: string, existing: set<string>, t1: nat, t2: nat)
    ensures DestinationName(original, existing, t1, t2) in existing <==>
      Exists(existing, FinalName(original, t1)) && StampedName(FinalName(original, t1), t2) in existing
  {
  }

  /** A name the sanitiser keeps, not yet in the directory, is stored under
      the client's own name (the upload reply's `preserved` flag). */
  lemma SafeFreshNamePreserved(original: string, existing: set<string>, t1: nat, t2: nat)
    requires IsSafeName(original) && original != [] && original !in existing
    ensures DestinationName(original, existing, t1, t2) == original
  {
    SafeNamesAreFixed(original);
  }

  /** The name " ." is sanitised to ".", which names the upload directory
      itself, so it always counts as taken: the file is stored as ".-<now>". */
  lemma DotNameIsRenamed(original: string, existing: set<string>, t1: nat, t2: nat)
    requires original == " ."
    ensures FinalName(original, t1) == "."
    ensures DestinationName(original, existing, t1, t2) == "." + "-" + DecimalDigits(t2)
  {
    SpaceDotSanitized(original);
    SanitizedToDotIsRenamed(original, existing, t1, t2);
  }

  /** Any name the sanitiser turns into "." is stored as ".-<now>". */
  lemma SanitizedToDotIsRenamed(original: string, existing: set<string>, t1: nat, t2: nat)
    requires Sanitize(original) == "."
    ensures FinalName(original, t1) == "."
    ensures DestinationName(original, existing, t1, t2) == "." + "-" + DecimalDigits(t2)
  {
    var f := FinalName(original, t1);
    assert f == ".";
    assert Exists(existing, f);
    assert DestinationName(original, existing, t1, t2) == StampedName(f, t2);
    DotStamped(f, t2);
  }

  lemma SpaceDotSanitized(original: string)
    requires original == " ."
    ensures Sanitize(original) == "."
  {
    var t := ".";
    assert NoForbidden(t) && NoDotPair(t) && IsTrimmed(t);
    assert original == " " + t;
    WhitespaceShieldsLeadingDot(t);
  }

  /** "." has no extension, so its rename is ".-<now>". */
  lemma DotStamped(t: string, now: nat)
    requires t == "."
    ensures StampedName(t, now) == "." + "-" + DecimalDigits(now)
  {
    LeadingDotOnlyNoExtension(t);
    StampedWithoutExtension(t, now);
  }

  /** A single component without an extension is renamed to itself
      followed by the stamp. */
  lemma StampedWithoutExtension(name: string, now: nat)
    requires NoSlash(name) && Extname(name) == []
    ensures StampedName(name, now) == name + "-" + DecimalDigits(now)
  {
    assert Basename(name) == name;
    assert name[..|name|] == name;
  }

  /** "a.txt" is a safe name. */
  lemma ATxtIsSafe(name: string)
    requires name == "a.txt"
    ensures IsSafeName(name) && IsCleanName(name)
  {
    forall k | 0 <= k < |name| ensures name[k] !in ForbiddenChars {
      assert name[k] in {'a', '.', 't', 'x'};
    }
    forall k | 0 <= k < |name| - 1 ensures !DotPairAt(name, k) {
      assert name[k] != '.' || name[k + 1] != '.';
    }
  }

  /** "a.txt" has extension ".txt". */
  lemma ATxtExtension(stem: string, x: string)
    requires stem == "a" && x == ".txt"
    ensures Extname(stem + x) == x
  {
    forall i | 1 <= i < |x| ensures x[i] != '.' && x[i] != '/' {
      assert x[i] in {'t', 'x'};
    }
    ExtnameOfSuffix(stem, x);
  }

  /** The clock reading 5 is rendered "5". */
  lemma FiveDigits(now: nat)
    requires now == 5
    ensures DecimalDigits(now) == "5"
  {
    assert DigitChar(5) == '5';
  }

  /** The collision rename of "a.txt" at clock reading 5 is "a-5.txt". */
  lemma ATxtStamped(name: string, now: nat)
    requires name == "a.txt" && now == 5
    ensures StampedName(name, now) == "a-5.txt"
  {
    ATxtIsSafe(name);
    CleanHasNoSlash(name);
    assert name == "a" + ".txt";
    ATxtExtension("a", ".txt");
    StampedOfComponent("a", ".txt", now);
    FiveDigits(now);
  }

  /** The collision rename of a single component `stem + x` whose
      extension is `x`. */
  lemma StampedOfComponent(stem: string, x: string, now: nat)
    requires NoSlash(stem + x) && Extname(stem + x) == x
    ensures StampedName(stem + x, now) == stem + "-" + DecimalDigits(now) + x
  {
    var name := stem + x;
    assert Basename(name) == name;
    assert name[..|name| - |x|] == stem;
  }

  /** A rename can collide too: with "a.txt" and "a-5.txt" present and the
      clock reading 5, an upload of "a.txt" is given "a-5.txt", a name
      already in the directory. */
  lemma CollisionRenameCanCollide(original: string, existing: set<string>, t1: nat, t2: nat)
    requires original == "a.txt" && existing == {"a.txt", "a-5.txt"} && t2 == 5
    ensures DestinationName(original, existing, t1, t2) == "a-5.txt"
    ensures DestinationName(original, existing, t1, t2) in existing
  {
    ATxtIsSafe(original);
    ATxtStamped(original, t2);
    TakenSafeNameIsStamped(original, existing, t1, t2);
  }

  /** A name the sanitiser keeps that is already taken is given its
      collision rename. */
  lemma TakenSafeNameIsStamped(original: string, existing: set<string>, t1: nat, t2: nat)
    requires IsSafeName(original) && original != [] && original in existing
    ensures DestinationName(original, existing, t1, t2) == StampedName(original, t2)
  {
    SafeNamesAreFixed(original);
    assert FinalName(original, t1) == original;
  }
}
