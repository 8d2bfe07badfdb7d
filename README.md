# Upload admission and access gate of a small file-storage server

The server (`server.js`) stores uploaded files in one directory. Clients log
in with a shared admin password and get a bearer token. The token is needed
to list and delete files; uploading needs no token. This project models the
part of the server that decides what is admitted and under which name, and
who may pass the gate:

- `sanitizeFilename`: four rewrites of the client's file name (`Sanitizer`).
- `isDangerousExtension`: Node's POSIX `path.extname`, ASCII lower-casing and
  the 18-entry denylist (`Extension`).
- multer's `fileFilter`: denylist, MIME allowlist, 255-unit name limit
  (`Admission`).
- multer's `filename` callback: the sanitised name, the `file-<now>`
  fallback, and the `-<now>` collision rename (`Naming`).
- `authenticateToken` and `POST /login` (`Auth`), with the security log
  events (`Http`).
- The error middleware (`Errors`).
- `POST /upload` and `DELETE /files/:filename` over a directory held as a
  map from names to sizes (`Store`).
- String helpers: subsequences, substrings, `split`/`join`, `includes`
  (`Strings`).

JWT signing and verification are function parameters (`sign`, `verify`).
Every read of `Date.now()` is a parameter; the `filename` callback reads the
clock twice (lines 124 and 131), so it takes two. `fs.existsSync` on
`path.join(UPLOAD_DIR, name)` becomes membership in the directory map, except
for the name `.`: it joins to the upload directory itself and always exists.

Some behaviours of the code are easy to miss when reading the handlers.
The model follows the code and proves each of them:

- A collision rename is not unique. If `a.txt` and `a-5.txt` already exist, an upload of
  `a.txt` at clock reading 5 is stored as `a-5.txt`. It replaces that file
  (`Naming.CollisionRenameCanCollide`, `Store.UploadCanOverwrite`).
- Filter rejections (dangerous extension, disallowed type, long name) are
  answered with 500, not 400. They reach the error middleware as plain
  `Error`s, and only multer's own limit codes get 400
  (`Errors.FilterRejectionOutcome`).
- The denylist is checked on the client's name, but the sanitised name is
  what gets stored. `shell.php..` has extension `.` and passes as
  `text/plain`. It is sanitised to `shell.php`, and when no file of that
  name exists yet it is stored as `shell.php`
  (`Admission.DangerousNameCanBeStored`, `Store.DangerousNameStored`).
- The name `" ."` is sanitised to `.`. That name always counts as taken, so
  the file is stored as `.-<now>` (`Naming.DotNameIsRenamed`).
- Stripping leading dots happens before trimming, so a name can still start
  with a dot, although the comment at server.js:104 says leading dots are
  removed. `" .env"` becomes `.env` (`Sanitizer.LeadingDotExample`,
  `Sanitizer.SanitizeLeadingDotNeedsWhitespace`).

## Model

| member | source | states |
|---|---|---|
| Sanitizer.StripForbidden | server.js:102 | the result holds none of `<>:"/\|?*` |
| Sanitizer.StripForbiddenContents | server.js:102 | step 1 keeps every other character, in order and with its count |
| Sanitizer.StripForbiddenKeepsClean | server.js:102 | step 1 leaves a name without forbidden characters unchanged |
| Sanitizer.RemoveDotPairs | server.js:103 | the left-to-right global replace of `..` leaves no `..` and keeps a first character that is not a dot |
| Sanitizer.RemoveDotPairsContents | server.js:103 | step 2 deletes only dots: a subsequence with every other character's count kept |
| Sanitizer.RemoveDotPairsKeepsClean | server.js:103 | step 2 leaves a name without `..` unchanged |
| Sanitizer.RemoveDotPairsKeepsNoForbidden | server.js:102-103 | step 2 adds no forbidden character |
| Sanitizer.DotRunParity | server.js:103 | a run of k dots becomes k mod 2 dots |
| Sanitizer.DotRunThenChar | server.js:103 | a run of k dots before another character becomes k mod 2 dots, and the rest is rewritten on its own |
| Sanitizer.RemoveTrailingDotPair | server.js:103 | a trailing `..` after a name not ending in a dot is removed |
| Sanitizer.StripLeadingDots | server.js:104 | the result is a suffix of the input that does not start with a dot |
| Sanitizer.LeadingDotsRemoved | server.js:104 | only dots are removed from the front |
| Sanitizer.StripLeadingDotsSubsequence | server.js:104 | step 3 keeps a subsequence |
| Sanitizer.TrimStart | server.js:105 | the leading half of `trim` returns a suffix that does not start with whitespace |
| Sanitizer.TrimEnd | server.js:105 | the trailing half of `trim` returns a prefix that does not end with whitespace |
| Sanitizer.TrimStartRemovesOnlyWhitespace | server.js:105 | only whitespace is removed from the front |
| Sanitizer.TrimEndRemovesOnlyWhitespace | server.js:105 | only whitespace is removed from the end |
| Sanitizer.Trim | server.js:105 | the result has no whitespace at either end and is no longer than the input |
| Sanitizer.TrimIsSlice | server.js:105 | `trim` gives a subsequence and keeps a clean name clean |
| Sanitizer.PreTrimClean | server.js:101-104 | after the first three steps there is no forbidden character and no `..` |
| Sanitizer.PreTrimNoLeadingDot | server.js:104 | before trimming the value does not start with a dot |
| Sanitizer.Sanitize | server.js:99-106 | for every input the result has no forbidden character, no `..` and no surrounding whitespace |
| Sanitizer.SanitizeIsSafe | server.js:99-106 | for every input the result has no forbidden character and no `..`; it is trimmed, a subsequence of the input and no longer |
| Sanitizer.SanitizeLeadingDotNeedsWhitespace | server.js:104-105 | the result starts with a dot only when whitespace came before that dot |
| Sanitizer.WhitespaceShieldsLeadingDot | server.js:104-105 | a space before a clean, trimmed dot-name lets the dot-name through unchanged |
| Sanitizer.LeadingDotExample | server.js:99-106 | `" .env"` is sanitised to the hidden name `.env` |
| Sanitizer.SafeNamesAreFixed | server.js:99-106 | a safe name is returned unchanged |
| Sanitizer.FixedNamesAreSafe | server.js:99-106 | a name returned unchanged is safe |
| Sanitizer.SanitizeFixedPoints | server.js:99-106 | the sanitiser is the identity exactly on safe names |
| Sanitizer.TrailingDotPairDropped | server.js:99-106 | a safe name plus `..` is sanitised back to the name |
| Extension.LastIndexOf | server.js:110 | the index of the last occurrence of the character, or -1 |
| Extension.LastIndexOfIs | server.js:110 | any index that meets that description is the result |
| Extension.TrimTrailingSlashes | server.js:110 | removes exactly the trailing run of separators: a prefix of the input, not ending in `/`, with only `/` after it |
| Extension.ExtnameIgnoresTrailingSlash | server.js:110 | a trailing separator changes neither the last component nor the extension |
| Extension.Basename | server.js:110 | the last component has no separator, and a name without a separator is its own last component |
| Extension.Extname | server.js:110 | the extension is empty, or a dot-led proper suffix of the last component with no further dot or separator |
| Extension.BaseExtension | server.js:110 | the same for one path component |
| Extension.ExtnameOfSuffix | server.js:110 | `stem + x` has extension `x` when `x` starts with a dot and has no further dot or separator, `stem` is non-empty and does not end in `/`, and `stem` does not end in a dot when `x` is the bare `.` |
| Extension.NoDotNoExtension | server.js:110 | a name without a dot has no extension |
| Extension.LeadingDotOnlyNoExtension | server.js:110 | a component whose only dot leads it (`.js`) has no extension |
| Extension.AsciiLower | server.js:110 | lower-casing keeps the length and maps each character |
| Extension.ExtnameIgnoresCase | server.js:110 | `extname` commutes with lower-casing |
| Extension.IsDangerousExtension | server.js:108-112 | a name is dangerous exactly when its lower-cased extension is on the denylist |
| Extension.DangerousIgnoresCase | server.js:109-112 | names equal up to ASCII case are both dangerous or both not |
| Extension.DenylistShape | server.js:93-96 | every denylisted extension is a dot followed by at least two characters, with no other dot or separator |
| Extension.DenylistedSuffixIsDangerous | server.js:93-112 | a non-empty stem not ending in `/`, followed by a denylisted extension in any case, is dangerous (`.php` on its own is not) |
| Extension.ReportExeIsDangerous | server.js:109-112 | `report.EXE` is dangerous |
| Extension.ShortExtensionNeverDangerous | server.js:93-112 | a name whose extension is shorter than 3 characters is never dangerous |
| Extension.NoExtensionNeverDangerous | server.js:109-112 | a name without an extension is never dangerous |
| Admission.Utf16Length | server.js:162 | `.length` counts UTF-16 units: between one and two per character |
| Admission.BmpLength | server.js:162 | for characters below U+10000 it is the character count |
| Admission.FileFilter | server.js:148-167 | a rejection names a check that fails |
| Admission.RejectsFirstFailure | server.js:148-167 | the checks run in order: a rejection names the first failing check |
| Admission.AcceptsExactly | server.js:148-167 | a name is accepted exactly when it is not dangerous, its MIME type is allowed and it has at most 255 units, i.e. no check fails |
| Admission.DangerousNameRefusedFirst | server.js:150-153 | a dangerous name is refused for security whatever its type and length |
| Admission.AcceptedNameFits | server.js:161-164 | an accepted name, and its sanitised form, have at most 255 characters |
| Admission.MessagesDistinct | server.js:150-164 | the three rejection messages differ |
| Admission.ShellPhpDotsIsHarmless | server.js:109-112 | `shell.php..` has extension `.`, is not dangerous and has length 11 |
| Admission.ShellPhpIsDangerous | server.js:109-112 | `shell.php` is dangerous |
| Admission.TextPlainAllowed | server.js:73-90 | `text/plain` is on the allowlist |
| Admission.ShellPhpDotsSanitized | server.js:99-106 | `shell.php..` is sanitised to `shell.php` |
| Admission.DangerousNameCanBeStored | server.js:99-167 | `shell.php..` as `text/plain` is accepted and its sanitised name is dangerous |
| Naming.DecimalDigits | server.js:124-132 | a clock reading is rendered as digits without a leading zero |
| Naming.DecimalRoundTrip | server.js:124-132 | reading the digits back gives the clock reading |
| Naming.DigitsInjective | server.js:124-132 | different readings give different renderings |
| Naming.FallbackIsClean | server.js:124 | `file-<now>` is a clean name |
| Naming.FinalName | server.js:121-124 | the sanitised name or its fallback is non-empty and clean |
| Naming.StampedName | server.js:129-132 | the rename is the last component plus `-` and the digits, and ends with the name's extension |
| Naming.StampedIsClean | server.js:129-132 | the collision rename of a clean name is clean and strictly longer |
| Naming.StampedKeepsExtension | server.js:129-132 | the collision rename keeps the extension: the stamp goes before it |
| Naming.Exists | server.js:127 | a stored name exists; besides `.`, nothing else does |
| Naming.DestinationName | server.js:119-138 | the name handed to multer is clean and never `.` |
| Naming.DestinationIsClean | server.js:119-138 | the chosen name is clean and never `.`, and it is the sanitised or fallback name exactly when `existsSync` finds no such name |
| Naming.DestinationTakenIff | server.js:127-133 | the chosen name is taken exactly when the name exists and its rename is taken |
| Naming.SpaceDotSanitized | server.js:99-106 | `" ."` is sanitised to `.` |
| Naming.DotStamped | server.js:129-132 | `.` has no extension, so its rename is `.-<now>` |
| Naming.StampedWithoutExtension | server.js:129-132 | a component without an extension is renamed to itself followed by `-<now>` |
| Naming.SanitizedToDotIsRenamed | server.js:119-138 | a name sanitised to `.`, which always exists, is stored as `.-<now>` |
| Naming.DotNameIsRenamed | server.js:119-138 | `" ."` becomes `.`, which always exists, so the file is stored as `.-<now>` |
| Naming.SafeFreshNamePreserved | server.js:119-138 | a safe name not yet taken is stored under the client's own name |
| Naming.ATxtStamped | server.js:129-132 | the rename of `a.txt` at clock reading 5 is `a-5.txt` |
| Naming.TakenSafeNameIsStamped | server.js:127-133 | a safe name already taken is given its collision rename |
| Naming.CollisionRenameCanCollide | server.js:127-133 | with `a.txt` and `a-5.txt` present and the clock at 5, `a.txt` is given the taken name `a-5.txt` |
| Auth.AdminPassword | server.js:18 | the password is the variable when it is set and non-empty, and `admin123` when it is unset or empty; never empty |
| Auth.BearerToken | server.js:181-182 | a token is non-empty and holds no space |
| Strings.Split | server.js:182 | `split(' ')` gives at least one field, none holding a space |
| Strings.JoinSplit | server.js:182 | joining the fields of a split gives the string back |
| Strings.SplitJoin | server.js:182 | splitting fields joined with spaces gives the fields back |
| Auth.BearerTokenIsSecondField | server.js:182 | the token is the second field whatever the others are |
| Auth.BearerRoundTrip | server.js:182 | `<scheme> <token>` yields the token |
| Auth.BareTokenRefused | server.js:182-184 | a header without a space carries no token |
| Auth.Gate | server.js:180-203 | a refusal is a failure logged against the requested endpoint; passage carries the user the verifier decoded from the bearer token |
| Auth.GateOutcomes | server.js:180-203 | 401 exactly without a token, 403 exactly when the verifier rejects it, passage with the decoded user exactly when it accepts it |
| Auth.MissingTokenNeverVerified | server.js:184-190 | without a token the verifier is not consulted |
| Auth.SchemeIgnored | server.js:182 | the scheme word is not checked |
| Auth.Exchange.AuthenticateToken | server.js:180-203 | the middleware answers and logs as the gate decides, or sets `req.user` and calls `next` |
| Auth.Login | server.js:206-239 | a token is issued exactly on success, only for the admin password, and is the signature of the admin claims; a logged failure never holds the password |
| Auth.LoginOutcomes | server.js:206-239 | 400 for a missing or empty password, 200 with a token exactly for the admin password, 401 with a logged failure otherwise |
| Auth.IssuedTokenClaims | server.js:221-225 | the token signs `{ admin: true, timestamp: now }` with a 24-hour lifetime |
| Auth.LoginNeverLogsPassword | server.js:233 | a failed login logs `***`, whatever the password tried |
| Auth.LoginThenGate | server.js:180-239 | presenting a login's token passes the gate as that admin, when the verifier accepts what the signer made |
| Strings.OccursAfterPrefix | server.js:420 | `includes` finds a phrase placed after any prefix |
| Strings.MissingCharRulesOutSubstring | server.js:420 | `includes` fails when a character of the phrase is missing |
| Errors.HandleError | server.js:391-433 | every error gets a failure reply with 400 or 500 and at most two log events |
| Errors.ErrorStatus | server.js:391-433 | 400 exactly for a multer error with one of the three limit codes, 500 for every other error, never success |
| Errors.ErrorEvents | server.js:392-426 | a multer error is always logged first; a blocked upload is logged exactly when the error was not answered 400 and its message says "não permitido" or "perigoso" |
| Errors.TypeMessagesAreBlocked | server.js:420 | both type rejections contain "não permitido" |
| Errors.NameTooLongNotBlocked | server.js:420 | the name-length rejection contains neither phrase |
| Errors.FilterRejectionOutcome | server.js:419-432 | every filter rejection is answered 500; it is logged as a blocked upload unless it is the name-length rejection |
| Store.UploadOutcomeOf | server.js:245-272 | a refusal is a failure; a stored file came from a part of at most 5 MB, keeps its size, has a clean name and is served under `/files/<name>` |
| Store.FilesAfter | server.js:119-138 | a stored upload adds exactly its name to the key set and writes only that entry; a refusal changes nothing |
| Store.UploadStoredIff | server.js:141-264 | a file is stored exactly when there is a part, the filter accepts it and it fits 5 MB; it is stored under the callback's name |
| Store.UploadRefusalStatus | server.js:391-433 | a refusal is 500 exactly for a filter rejection and 400 exactly for no part or an oversized file |
| Store.DangerousUploadRefused | server.js:419-432 | a dangerous name gets 500 and a blocked-upload log entry, whatever its type and size |
| Store.UploadKeepsClean | server.js:119-138 | an upload keeps every stored name clean; a stored one adds exactly its name to the key set and changes only that entry, and a refused one changes nothing |
| Store.TakenNameIsReplaced | server.js:133 | storing under a taken name replaces that file and adds no entry |
| Store.UploadCanOverwrite | server.js:127-133 | uploading `a.txt` with `a.txt` and `a-5.txt` present and the clock at 5 overwrites `a-5.txt` |
| Store.DangerousNameStored | server.js:99-272 | `shell.php..` as `text/plain`, with no `shell.php` stored yet, is stored as `shell.php`, a dangerous name |
| Store.FreshSanitizedNameKept | server.js:119-138 | a non-empty sanitised name other than `.` that is not taken is the storage name |
| Store.ShortNameAccepted | server.js:148-167 | `a.txt` as `text/plain` is accepted |
| Store.UploadDir.constructor | server.js:64-69 | the directory starts empty and clean |
| Store.UploadDir.ChooseName | server.js:119-138 | the callback, run step by step, chooses the resolver's name, and that name is clean |
| Store.UploadDir.Upload | server.js:245-272 | the reply is the modelled outcome, the directory becomes the modelled one, and it stays clean |
| Store.UploadDir.Delete | server.js:351-366 | a missing name gives 404 and changes nothing; otherwise exactly that entry is removed |
| Store.UploadDir.DeleteRoute | server.js:349-374 | behind the gate: a refused request changes no file, keeps `req.user`, gets the gate's reply and is logged; a passed one sets `req.user` to the decoded user and gets 200 with the entry removed, or 404 with nothing changed |

## Left out

- JWT signing and verification internals: `sign` and `verify` are parameters, and `LoginThenGate` assumes that `verify` accepts what `sign` made.
- The decoded user in `Auth.Verification` holds only `admin` and `timestamp`. The `iat` and `exp` claims the library adds to `req.user` are not modelled.
- The clock: each reading of `Date.now()` is a parameter.
- Disk I/O: writing the bytes, `fs.existsSync`, `fs.unlinkSync` and the failures that would give 500 in the route handlers. The directory is a map from names to sizes.
- `path.join`: its normalisation of the name given to `DELETE /files/:filename` is not modelled; that name is looked up as given. In the upload callback the name has no separator, and `.` is the only one that `path.join` resolves elsewhere; `Naming.Exists` treats it as always present.
- Multer's parsing of the multipart body, and its limits other than the file size (`files: 1` and `fieldSize`). Their error codes are still handled by the error middleware model.
- Store.UploadKeepsClean: an oversized upload is refused with the directory unchanged. multer's disk storage chooses the name and opens that file before the size limit fires, then deletes it. When the chosen name was already taken, the old file is truncated and removed, so the server can lose a name where the model keeps it. multer is not part of this model.
- Rate limiting, helmet and CORS setup, static file serving, `GET /files`, `GET /files/:filename`, `GET /health` and `GET /`. They are not part of the admission pipeline or the gate.
- The log line's timestamp, IP address and user agent, the `console.log` and `console.error` lines, and `req.file?.originalname` in the blocked-upload details.
- `path.extname` is modelled as Node's POSIX variant: only `/` separates components. On Windows, `\` and a drive prefix also do, so for a client name holding `\` or `:` a Windows server can find a different extension than the model. The server runs with the POSIX variant on Linux and macOS.
- Unicode: `toLowerCase` is modelled on ASCII letters only; other characters are left as they are. The verdict can differ only where a non-ASCII character lower-cases to a single ASCII letter. The one such character is the Kelvin sign (U+212A, lower-cased to `k`), and no denylisted extension contains `k`.
- `Admission.Utf16Length`: a character above U+FFFF counts 2; lone surrogates are not modelled.
- `Auth.Login`: the password field is modelled as a string or absent. A non-string JSON value is not modelled.
- The `errors: errors.array()` list in the 400 body of `/login` (express-validator's validation errors) is not modelled; `Http.Reply` carries only the status, the success flag and the message.
- The upload directory is created at start-up only when it is missing. The model starts from an empty directory (`Store.UploadDir.constructor`); files already present on disk, whose names need not be clean, are not modelled.
- Concurrency: two uploads racing for one name are not modelled. Each upload runs atomically against the directory.
