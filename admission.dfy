/** The admission filter, multer's `fileFilter` (server.js:148-167): three
    checks in a fixed order on the client's name and declared MIME type,
    the first failing check deciding the rejection. */
module Admission {
  import opened Strings
  import opened Sanitizer
  import opened Extension

  /** ALLOWED_MIME_TYPES (server.js:73-90), in source order. */
  const AllowedMimeTypes: seq<string> := [
    "image/jpeg",
    "image/png",
    "image/gif",
    "image/webp",
    "application/pdf",
    "text/plain",
    "application/msword",
    "application/vnd.openxmlformats-officedocument.wordprocessingml.document",
    "application/vnd.ms-excel",
    "application/vnd.openxmlformats-officedocument.spreadsheetml.sheet",
    "application/vnd.ms-powerpoint",
    "application/vnd.openxmlformats-officedocument.presentationml.presentation",
    "application/zip",
    "application/x-rar-compressed",
    "application/json",
    "text/csv"
  ]

  /** The longest accepted `originalname.length`. */
  const MaxNameLength: nat := 255

  /** UTF-16 code units of one code point: two for a supplementary one. */
  function Utf16Units(c: char): nat
  {
    if c as int >= 0x1_0000 then 2 else 1
  }

  /** JavaScript `.length`: the number of UTF-16 code units. */
  function Utf16Length(s: string): (n: nat)
    ensures |s| <= n <= 2 * |s|
  {
    if s == [] then 0 else Utf16Units(s[0]) + Utf16Length(s[1..])
  }

  /** On the Basic Multilingual Plane `.length` counts characters. */
  lemma {:induction false} BmpLength(s: string)
    requires forall i :: 0 <= i < |s| ==> s[i] as int < 0x1_0000
    ensures Utf16Length(s) == |s|
  {
    if s != [] {
      assert s[0] as int < 0x1_0000;
      BmpLength(s[1..]);
    }
  }

  /** The three checks, in the order the filter runs them. */
  datatype Rejection = DangerousFile | DisallowedType | NameTooLong

  datatype Verdict = Accept | Reject(reason: Rejection)

  /** The words both type rejections contain. */
  const NotAllowedPhrase := "não permitido"

  /** The message of the `Error` each check hands to multer. */
  function Message(r: Rejection): string
  {
    match r
    case DangerousFile => "Tipo de arquivo " + NotAllowedPhrase + " por motivos de segurança"
    case DisallowedType => "Tipo de arquivo " + NotAllowedPhrase
    case NameTooLong => "Nome do arquivo muito longo"
  }

  /** Position of a check in the filter. */
  function Rank(r: Rejection): nat
  {
    match r
    case DangerousFile => 0
    case DisallowedType => 1
    case NameTooLong => 2
  }

  /** The condition under which each check fails, independent of order. */
  predicate Fails(r: Rejection, name: string, mime: string)
  {
    match r
    case DangerousFile => IsDangerousExtension(name)
    case DisallowedType => !Includes(AllowedMimeTypes, mime)
    case NameTooLong => Utf16Length(name) > MaxNameLength
  }

  /** Check `r` fails and every check before it passes. */
  predicate FirstFailure(r: Rejection, name: string, mime: string)
  {
    Fails(r, name, mime) && forall r' :: Rank(r') < Rank(r) ==> !Fails(r', name, mime)
  }

  /** `fileFilter`: a rejection names a failing check (RejectsFirstFailure
      says it is the earliest, AcceptsExactly gives the acceptance side). */
  function FileFilter(name: string, mime: string): (v: Verdict)
    ensures v.Reject? ==> Fails(v.reason, name, mime)
  {
    if IsDangerousExtension(name) then Reject(DangerousFile)
    else if !Includes(AllowedMimeTypes, mime) then Reject(DisallowedType)
    else if Utf16Length(name) > MaxNameLength then Reject(NameTooLong)
    else Accept
  }

  /** The filter accepts exactly the names that pass all three checks,
      that is, when no check fails. */
  lemma AcceptsExactly(name: string, mime: string)
    ensures FileFilter(name, mime) == Accept <==>
      !IsDangerousExtension(name) && Includes(AllowedMimeTypes, mime) && Utf16Length(name) <= MaxNameLength
    ensures FileFilter(name, mime) == Accept <==> forall r :: !Fails(r, name, mime)
  {
    var v := FileFilter(name, mime);
    if v.Reject? {
      assert Fails(v.reason, name, mime);
    } else {
      forall r ensures !Fails(r, name, mime) {
        match r
        case DangerousFile =>
        case DisallowedType =>
        case NameTooLong =>
      }
    }
  }

  /** The checks run in order: a rejection names the earliest failing
      check, so every check before it passed. */
  lemma RejectsFirstFailure(name: string, mime: string)
    requires FileFilter(name, mime).Reject?
    ensures FirstFailure(FileFilter(name, mime).reason, name, mime)
  {
    var r := FileFilter(name, mime).reason;
    forall r' | Rank(r') < Rank(r) ensures !Fails(r', name, mime) {
      match r'
      case DangerousFile =>
      case DisallowedType =>
      case NameTooLong =>
    }
  }

  /** A denylisted name is refused with the security message whatever
      MIME type the client declares and however long the name is. */
  lemma DangerousNameRefusedFirst(name: string, mime: string)
    requires IsDangerousExtension(name)
    ensures FileFilter(name, mime) == Reject(DangerousFile)
  {
    assert Fails(DangerousFile, name, mime);
  }

  /** An accepted name, and hence the sanitised name stored for it, is at
      most 255 characters long. */
  lemma AcceptedNameFits(name: string, mime: string)
    requires FileFilter(name, mime) == Accept
    ensures |name| <= MaxNameLength
    ensures |Sanitize(name)| <= MaxNameLength
  {
    assert !Fails(NameTooLong, name, mime);
    SanitizeIsSafe(name);
  }

  /** The three rejection messages differ, so a caller can tell them apart. */
  lemma MessagesDistinct(a: Rejection, b: Rejection)
    requires a != b
    ensures Message(a) != Message(b)
  {
    assert |Message(a)| != |Message(b)|;
  }

  /** "shell.php" is a safe name that does not end in a dot. */
  lemma ShellPhpIsSafe(t: string)
    requires t == "shell.php"
    ensures IsSafeName(t) && t[|t| - 1] != '.'
  {
    forall k | 0 <= k < |t| ensures t[k] !in ForbiddenChars {
      assert t[k] in {'s', 'h', 'e', 'l', '.', 'p'};
    }
    forall k | 0 <= k < |t| - 1 ensures !DotPairAt(t, k) {
      assert t[k] != '.' || t[k + 1] != '.';
    }
  }

  /** "shell.php" is dangerous. */
  lemma ShellPhpIsDangerous(t: string)
    requires t == "shell.php"
    ensures IsDangerousExtension(t)
  {
    var x := ".php";
    assert AsciiLower(x) == x == DangerousExtensions[9];
    assert t == "shell" + x;
    DenylistedSuffixIsDangerous("shell", x);
  }

  /** "shell.php.." has extension "." and a length of 11. */
  lemma ShellPhpDotsIsHarmless(name: string)
    requires name == "shell.php.."
    ensures Extname(name) == "."
    ensures !IsDangerousExtension(name)
    ensures Utf16Length(name) == 11
  {
    ShellPhpDotsExtension(name);
    ShortExtensionNeverDangerous(name);
    ElevenBmpChars(name);
  }

  lemma ShellPhpDotsExtension(name: string)
    requires name == "shell.php.."
    ensures Extname(name) == "."
  {
    assert NoSlash(name) by {
      forall k | 0 <= k < |name| ensures name[k] != '/' {
        assert name[k] in {'s', 'h', 'e', 'l', '.', 'p'};
      }
    }
    ExtnameOfComponent(name);
    assert name[10] == '.' && |name| == 11 && name != "..";
    ExtensionFromLastDot(name, 10);
  }

  lemma ElevenBmpChars(name: string)
    requires name == "shell.php.."
    ensures Utf16Length(name) == 11
  {
    forall k | 0 <= k < |name| ensures name[k] as int < 0x1_0000 {
      assert name[k] in {'s', 'h', 'e', 'l', '.', 'p'};
    }
    BmpLength(name);
  }

  lemma TextPlainAllowed(mime: string)
    requires mime == "text/plain"
    ensures Includes(AllowedMimeTypes, mime)
  {
    IncludesIsMembership(AllowedMimeTypes, mime);
    assert AllowedMimeTypes[5] == mime;
  }

  lemma ShellPhpDotsAccepted(name: string, mime: string)
    requires name == "shell.php.." && mime == "text/plain"
    ensures FileFilter(name, mime) == Accept
  {
    ShellPhpDotsIsHarmless(name);
    TextPlainAllowed(mime);
    AcceptsExactly(name, mime);
  }

  /** The extension is checked on the client's name but the stored name is
      the sanitised one: "shell.php.." has extension "." and passes as
      text/plain, and is then sanitised to "shell.php". */
  lemma DangerousNameCanBeStored(name: string, mime: string)
    requires name == "shell.php.." && mime == "text/plain"
    ensures FileFilter(name, mime) == Accept
    ensures Sanitize(name) == "shell.php"
    ensures IsDangerousExtension(Sanitize(name))
  {
    ShellPhpDotsAccepted(name, mime);
    ShellPhpDotsSanitized(name);
    ShellPhpIsDangerous(Sanitize(name));
  }

  /** "shell.php.." is sanitised to "shell.php". */
  lemma ShellPhpDotsSanitized(name: string)
    requires name == "shell.php.."
    ensures Sanitize(name) == "shell.php"
  {
    var t := "shell.php";
    ShellPhpIsSafe(t);
    assert name == t + "..";
    TrailingDotPairDropped(t);
  }
}
