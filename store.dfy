/** The upload directory and the two routes that change it: `POST /upload`
    (server.js:245-272, through multer's filter and storage) and
    `DELETE /files/:filename` (server.js:349-374) behind the access gate.
    The directory is a map from stored names to sizes in bytes; reading and
    writing the disk is not modelled. */
module Store {
  import opened Strings
  import opened Sanitizer
  import opened Extension
  import opened Admission
  import opened Naming
  import opened Http
  import opened Errors
  import opened Auth

  /** `limits.fileSize` (server.js:144): 5 MB. */
  const MaxFileSize: nat := 5 * 1024 * 1024

  /** multer's own message for LIMIT_FILE_SIZE. */
  const FileTooLargeError := "File too large"

  const UploadedMessage := "Arquivo enviado com sucesso"
  const NoFileMessage := "Nenhum arquivo foi enviado"
  const DeletedMessage := "Arquivo eliminado com sucesso"
  const NotFoundMessage := "Arquivo não encontrado"

  /** The `file` field of a multipart request: `originalname`, `mimetype`
      and the number of bytes sent. */
  datatype FilePart = FilePart(originalName: string, mimeType: string, size: nat)

  /** The `file` object of the upload reply. */
  datatype StoredFile = StoredFile(originalName: string, savedAs: string, size: nat, url: string, preserved: bool)

  datatype UploadOutcome =
    | Stored(reply: Reply, file: StoredFile)
    | Refused(reply: Reply, events: seq<SecurityEvent>)

  /** An error answered by the error middleware. */
  function RefusedBy(e: UploadError, endpoint: string): UploadOutcome
  {
    var o := HandleError(e, endpoint);
    Refused(o.reply, o.events)
  }

  /** `POST /upload` for a request whose `file` part is `part` (None when
      the request has none), against a directory holding `existing`: the
      filter, then the size limit, then the storage name. */
  function UploadOutcomeOf(part: Option<FilePart>, existing: map<string, nat>, endpoint: string,
                           nowAtFallback: nat, nowAtRename: nat): (o: UploadOutcome)
    ensures o.Refused? ==> !o.reply.success
    ensures o.Stored? ==>
      && part.Some? && o.reply.success && IsCleanName(o.file.savedAs)
      && o.file.size == part.value.size <= MaxFileSize && o.file.url == "/files/" + o.file.savedAs
  {
    match part
    case None => Refused(Failure(BadRequest, NoFileMessage), [])
    case Some(p) =>
      var verdict := FileFilter(p.originalName, p.mimeType);
      if verdict.Reject? then RefusedBy(PlainError(Message(verdict.reason)), endpoint)
      else if p.size > MaxFileSize then RefusedBy(MulterError(FileTooLarge, FileTooLargeError), endpoint)
      else
        var name := DestinationName(p.originalName, existing.Keys, nowAtFallback, nowAtRename);
        Stored(Success(UploadedMessage), StoredFile(p.originalName, name, p.size, "/files/" + name, p.originalName == name))
  }

  /** The directory after an upload with that outcome: nothing is removed,
      and only the stored name can change. */
  function FilesAfter(outcome: UploadOutcome, existing: map<string, nat>): (r: map<string, nat>)
    ensures existing.Keys <= r.Keys
    ensures forall n :: n in existing && !(outcome.Stored? && n == outcome.file.savedAs) ==> r[n] == existing[n]
    ensures outcome.Stored? ==> outcome.file.savedAs in r && r[outcome.file.savedAs] == outcome.file.size
    ensures outcome.Stored? ==> r.Keys == existing.Keys + {outcome.file.savedAs}
    ensures outcome.Refused? ==> r == existing
  {
    if outcome.Stored? then existing[outcome.file.savedAs := outcome.file.size] else existing
  }

  /** Every name in the directory is clean: non-empty, none of <>:"/\|?*
      (so none leaves the upload directory), no "..". */
  predicate AllClean(files: map<string, nat>)
  {
    forall name :: name in files ==> IsCleanName(name)
  }

  /** A file is stored exactly when there is a part, the filter accepts it
      and it fits the size limit; it is stored under the resolver's name. */
  lemma UploadStoredIff(part: Option<FilePart>, existing: map<string, nat>, endpoint: string, t1: nat, t2: nat)
    ensures UploadOutcomeOf(part, existing, endpoint, t1, t2).Stored? <==>
      part.Some? && FileFilter(part.value.originalName, part.value.mimeType) == Accept
      && part.value.size <= MaxFileSize
    ensures UploadOutcomeOf(part, existing, endpoint, t1, t2).Stored? ==>
      UploadOutcomeOf(part, existing, endpoint, t1, t2).file.savedAs
        == DestinationName(part.value.originalName, existing.Keys, t1, t2)
      && UploadOutcomeOf(part, existing, endpoint, t1, t2).file.size == part.value.size
  {
    if part.Some? {
      var p := part.value;
      var verdict := FileFilter(p.originalName, p.mimeType);
      if verdict.Reject? {
        assert UploadOutcomeOf(part, existing, endpoint, t1, t2) == RefusedBy(PlainError(Message(verdict.reason)), endpoint);
      } else if p.size > MaxFileSize {
        assert UploadOutcomeOf(part, existing, endpoint, t1, t2) == RefusedBy(MulterError(FileTooLarge, FileTooLargeError), endpoint);
      }
    }
  }

  /** What a refusal answers: 400 for a missing part or an oversized file,
      500 for a file the filter refuses. */
  lemma UploadRefusalStatus(part: Option<FilePart>, existing: map<string, nat>, endpoint: string, t1: nat, t2: nat)
    requires UploadOutcomeOf(part, existing, endpoint, t1, t2).Refused?
    ensures !UploadOutcomeOf(part, existing, endpoint, t1, t2).reply.success
    ensures UploadOutcomeOf(part, existing, endpoint, t1, t2).reply.status == 500 <==>
      part.Some? && FileFilter(part.value.originalName, part.value.mimeType).Reject?
    ensures UploadOutcomeOf(part, existing, endpoint, t1, t2).reply.status == 400 <==>
      part.None? || (FileFilter(part.value.originalName, part.value.mimeType) == Accept
                     && part.value.size > MaxFileSize)
  {
    if part.Some? {
      var p := part.value;
      var verdict := FileFilter(p.originalName, p.mimeType);
      if verdict.Reject? {
        ErrorStatus(PlainError(Message(verdict.reason)), endpoint);
      } else if p.size > MaxFileSize {
        ErrorStatus(MulterError(FileTooLarge, FileTooLargeError), endpoint);
      }
    }
  }

  /** A name with a denylisted extension is refused with 500 and logged as
      a blocked upload, whatever its MIME type and size. */
  lemma DangerousUploadRefused(p: FilePart, existing: map<string, nat>, endpoint: string, t1: nat, t2: nat)
    requires IsDangerousExtension(p.originalName)
    ensures UploadOutcomeOf(Some(p), existing, endpoint, t1, t2)
      == Refused(Failure(ServerError, InternalErrorMessage), [BlockedFileUpload(Message(DangerousFile), endpoint)])
  {
    DangerousNameRefusedFirst(p.originalName, p.mimeType);
    FilterRejectionOutcome(DangerousFile, endpoint);
  }

  /** Uploads keep the directory clean, add no name but the one they store,
      write only that entry, and leave every other entry as it was. */
  lemma UploadKeepsClean(part: Option<FilePart>, existing: map<string, nat>, endpoint: string, t1: nat, t2: nat)
    requires AllClean(existing)
    ensures AllClean(FilesAfter(UploadOutcomeOf(part, existing, endpoint, t1, t2), existing))
    ensures existing.Keys <= FilesAfter(UploadOutcomeOf(part, existing, endpoint, t1, t2), existing).Keys
    ensures UploadOutcomeOf(part, existing, endpoint, t1, t2).Stored? ==>
      FilesAfter(UploadOutcomeOf(part, existing, endpoint, t1, t2), existing).Keys
        == existing.Keys + {UploadOutcomeOf(part, existing, endpoint, t1, t2).file.savedAs}
    ensures UploadOutcomeOf(part, existing, endpoint, t1, t2).Refused? ==>
      FilesAfter(UploadOutcomeOf(part, existing, endpoint, t1, t2), existing) == existing
    ensures forall name :: name in existing && !Replaces(UploadOutcomeOf(part, existing, endpoint, t1, t2), name) ==>
      FilesAfter(UploadOutcomeOf(part, existing, endpoint, t1, t2), existing)[name] == existing[name]
  {
    var o := UploadOutcomeOf(part, existing, endpoint, t1, t2);
    UploadStoredIff(part, existing, endpoint, t1, t2);
    if o.Stored? {
      DestinationIsClean(part.value.originalName, existing.Keys, t1, t2);
    }
  }

  /** The upload stored its file under `name`. */
  predicate Replaces(outcome: UploadOutcome, name: string)
  {
    outcome.Stored? && outcome.file.savedAs == name
  }

  /** An upload whose name is already taken replaces that file: the
      directory gains no entry and the old contents are gone. */
  lemma TakenNameIsReplaced(o: UploadOutcome, existing: map<string, nat>)
    requires o.Stored? && o.file.savedAs in existing
    ensures FilesAfter(o, existing).Keys == existing.Keys
    ensures FilesAfter(o, existing)[o.file.savedAs] == o.file.size
  {
    var after := existing[o.file.savedAs := o.file.size];
    assert after.Keys == existing.Keys;
  }

  /** Because a collision rename can itself be taken, an upload can replace
      a file already stored: with "a.txt" and "a-5.txt" present and the
      clock reading 5, uploading "a.txt" replaces "a-5.txt". */
  lemma UploadCanOverwrite(p: FilePart, existing: map<string, nat>, endpoint: string, t1: nat, t2: nat)
    requires p.originalName == "a.txt" && p.mimeType == "text/plain"
    requires p.size <= MaxFileSize
    requires existing.Keys == {"a.txt", "a-5.txt"} && t2 == 5
    ensures UploadOutcomeOf(Some(p), existing, endpoint, t1, t2).Stored?
    ensures UploadOutcomeOf(Some(p), existing, endpoint, t1, t2).file.savedAs == "a-5.txt"
    ensures FilesAfter(UploadOutcomeOf(Some(p), existing, endpoint, t1, t2), existing).Keys == existing.Keys
  {
    ShortNameAccepted(p.originalName, p.mimeType);
    UploadStoredIff(Some(p), existing, endpoint, t1, t2);
    CollisionRenameCanCollide(p.originalName, existing.Keys, t1, t2);
    TakenNameIsReplaced(UploadOutcomeOf(Some(p), existing, endpoint, t1, t2), existing);
  }

  /** The filter checks the client's name but the directory gets the
      sanitised one: "shell.php.." sent as text/plain, while no "shell.php"
      is stored, is stored as "shell.php", a name the denylist refuses. */
  lemma DangerousNameStored(p: FilePart, existing: map<string, nat>, endpoint: string, t1: nat, t2: nat)
    requires p.originalName == "shell.php.." && p.mimeType == "text/plain"
    requires p.size <= MaxFileSize && "shell.php" !in existing
    ensures UploadOutcomeOf(Some(p), existing, endpoint, t1, t2).Stored?
    ensures UploadOutcomeOf(Some(p), existing, endpoint, t1, t2).file.savedAs == "shell.php"
    ensures IsDangerousExtension(UploadOutcomeOf(Some(p), existing, endpoint, t1, t2).file.savedAs)
  {
    DangerousNameCanBeStored(p.originalName, p.mimeType);
    UploadStoredIff(Some(p), existing, endpoint, t1, t2);
    FreshSanitizedNameKept(p.originalName, existing.Keys, t1, t2);
  }

  /** A non-empty sanitised name that is not taken is the storage name. */
  lemma FreshSanitizedNameKept(original: string, existing: set<string>, t1: nat, t2: nat)
    requires Sanitize(original) != [] && Sanitize(original) != "." && Sanitize(original) !in existing
    ensures DestinationName(original, existing, t1, t2) == Sanitize(original)
  {
  }

  /** "a.txt" sent as text/plain passes the filter. */
  lemma ShortNameAccepted(name: string, mime: string)
    requires name == "a.txt" && mime == "text/plain"
    ensures FileFilter(name, mime) == Accept
  {
    ATxtHarmless(name);
    ATxtLength(name);
    TextPlainAllowed(mime);
    AcceptsExactly(name, mime);
  }

  lemma ATxtHarmless(name: string)
    requires name == "a.txt"
    ensures !IsDangerousExtension(name)
  {
    assert name == "a" + ".txt";
    ATxtExtension("a", ".txt");
    ShortExtensionMissesDenylist(".txt");
  }

  lemma ATxtLength(name: string)
    requires name == "a.txt"
    ensures Utf16Length(name) == 5
  {
    forall k | 0 <= k < |name| ensures name[k] as int < 0x1_0000 {
      assert name[k] in {'a', '.', 't', 'x'};
    }
    BmpLength(name);
  }

  /** ".txt" is not on the denylist. */
  lemma ShortExtensionMissesDenylist(x: string)
    requires x == ".txt"
    ensures !Includes(DangerousExtensions, AsciiLower(x))
  {
    assert AsciiLower(x) == x;
    IncludesIsMembership(DangerousExtensions, x);
    forall e | e in DangerousExtensions ensures e != x {
      DenylistNoT(e);
    }
  }

  /** The upload directory, shared by all requests. */
  class UploadDir {
    var files: map<string, nat>

    predicate Valid()
      reads this
    {
      AllClean(files)
    }

    constructor ()
      ensures files == map[] && Valid()
    {
      files := map[];
    }

    /** multer's `filename` callback, step by step as server.js:119-138
        runs it, with `existsSync` a lookup in the directory (see Exists).
        Naming.DestinationName is the same computation as a function: it is
        this method's specification, and the properties of the chosen name
        are proved about it. */
    method ChooseName(original: string, nowAtFallback: nat, nowAtRename: nat) returns (name: string)
      ensures name == DestinationName(original, files.Keys, nowAtFallback, nowAtRename)
      ensures IsCleanName(name)
    {
      var sanitized := Sanitize(original);
      var finalName := if sanitized == [] then FallbackName(nowAtFallback) else sanitized;
      if Exists(files.Keys, finalName) {
        name := StampedName(finalName, nowAtRename);
      } else {
        name := finalName;
      }
      DestinationIsClean(original, files.Keys, nowAtFallback, nowAtRename);
    }

    /** `POST /upload`: runs the filter, the size limit and the storage,
        and writes the file under the chosen name. */
    method Upload(part: Option<FilePart>, endpoint: string, nowAtFallback: nat, nowAtRename: nat)
      returns (outcome: UploadOutcome)
      requires Valid()
      modifies this
      ensures Valid()
      ensures outcome == UploadOutcomeOf(part, old(files), endpoint, nowAtFallback, nowAtRename)
      ensures files == FilesAfter(outcome, old(files))
    {
      UploadKeepsClean(part, files, endpoint, nowAtFallback, nowAtRename);
      if part.None? {
        return Refused(Failure(BadRequest, NoFileMessage), []);
      }
      var p := part.value;
      var verdict := FileFilter(p.originalName, p.mimeType);
      if verdict.Reject? {
        return RefusedBy(PlainError(Message(verdict.reason)), endpoint);
      }
      if p.size > MaxFileSize {
        return RefusedBy(MulterError(FileTooLarge, FileTooLargeError), endpoint);
      }
      var name := ChooseName(p.originalName, nowAtFallback, nowAtRename);
      files := files[name := p.size];
      outcome := Stored(Success(UploadedMessage), StoredFile(p.originalName, name, p.size, "/files/" + name, p.originalName == name));
    }

    /** The body of `DELETE /files/:filename`: 404 with the directory
        unchanged for a missing name, otherwise exactly that entry removed. */
    method Delete(name: string) returns (reply: Reply)
      requires Valid()
      modifies this
      ensures Valid()
      ensures name !in old(files) ==> reply == Failure(NotFound, NotFoundMessage) && files == old(files)
      ensures name in old(files) ==> reply == Success(DeletedMessage) && files == old(files) - {name}
    {
      if name !in files {
        return Failure(NotFound, NotFoundMessage);
      }
      files := files - {name};
      reply := Success(DeletedMessage);
    }

    /** The whole route, `authenticateToken` first: without a token the
        verifier accepts, nothing is removed. */
    method DeleteRoute(ex: Exchange, verify: string -> Verification, name: string) returns (reply: Reply)
      requires Valid()
      modifies this, ex
      ensures Valid()
      ensures ex.authorization == old(ex.authorization) && ex.path == old(ex.path)
      ensures Gate(ex.authorization, ex.path, verify).Denied? ==>
        files == old(files) && reply == Gate(ex.authorization, ex.path, verify).reply
        && ex.user == old(ex.user) && ex.response == Some(reply)
        && ex.log == old(ex.log) + [Gate(ex.authorization, ex.path, verify).event]
      ensures Gate(ex.authorization, ex.path, verify).Granted? ==>
        files == old(files) - {name} && ex.log == old(ex.log)
        && ex.user == Some(Gate(ex.authorization, ex.path, verify).user) && ex.response == Some(reply)
        && reply == (if name in old(files) then Success(DeletedMessage) else Failure(NotFound, NotFoundMessage))
    {
      var next := ex.AuthenticateToken(verify);
      if !next {
        reply := ex.response.value;
        return;
      }
      reply := Delete(name);
      ex.response := Some(reply);
    }
  }
}
