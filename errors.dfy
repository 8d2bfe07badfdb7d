/** The error middleware (server.js:391-433): maps an error raised while
    handling an upload to a reply, and to the security events it logs. */
module Errors {
  import opened Strings
  import opened Http
  import opened Admission

  /** A `multer.MulterError` with its code, or any other `Error`. */
  datatype UploadError = MulterError(code: string, message: string) | PlainError(message: string)

  /** The codes multer uses for its limits, each with its own 400 reply. */
  const FileTooLarge := "LIMIT_FILE_SIZE"
  const TooManyFiles := "LIMIT_FILE_COUNT"
  const UnexpectedField := "LIMIT_UNEXPECTED_FILE"

  const FileTooLargeMessage := "Arquivo muito grande. Limite máximo: 5MB"
  const TooManyFilesMessage := "Muitos arquivos. Apenas 1 arquivo por vez é permitido"
  const UnexpectedFieldMessage := "Campo de arquivo inválido. Use o campo \"file\""
  const InternalErrorMessage := "Erro interno do servidor"

  /** With `NotAllowedPhrase`, the phrase that marks a message as a blocked
      upload. */
  const Dangerous := "perigoso"

  predicate IsLimitCode(code: string)
  {
    code == FileTooLarge || code == TooManyFiles || code == UnexpectedField
  }

  predicate IsBlockedMessage(message: string)
  {
    HasSubstring(message, NotAllowedPhrase) || HasSubstring(message, Dangerous)
  }

  datatype ErrorOutcome = ErrorOutcome(reply: Reply, events: seq<SecurityEvent>)

  /** The middleware for an error raised on `endpoint`: always a failure,
      400 or 500, with at most a multer event and a blocked-upload event. */
  function HandleError(e: UploadError, endpoint: string): (o: ErrorOutcome)
    ensures !o.reply.success && (o.reply.status == BadRequest || o.reply.status == ServerError)
    ensures |o.events| <= 2
  {
    var multerEvents := if e.MulterError? then [MulterErrorLogged(e.code, e.message, endpoint)] else [];
    if e.MulterError? && e.code == FileTooLarge then
      ErrorOutcome(Failure(BadRequest, FileTooLargeMessage), multerEvents)
    else if e.MulterError? && e.code == TooManyFiles then
      ErrorOutcome(Failure(BadRequest, TooManyFilesMessage), multerEvents)
    else if e.MulterError? && e.code == UnexpectedField then
      ErrorOutcome(Failure(BadRequest, UnexpectedFieldMessage), multerEvents)
    else
      var blocked := if IsBlockedMessage(e.message) then [BlockedFileUpload(e.message, endpoint)] else [];
      ErrorOutcome(Failure(ServerError, InternalErrorMessage), multerEvents + blocked)
  }

  /** The status table: 400 exactly for a multer error with one of the
      three limit codes, 500 for every other error; never a success. */
  lemma ErrorStatus(e: UploadError, endpoint: string)
    ensures !HandleError(e, endpoint).reply.success
    ensures HandleError(e, endpoint).reply.status == 400 <==> e.MulterError? && IsLimitCode(e.code)
    ensures HandleError(e, endpoint).reply.status == 500 <==> !(e.MulterError? && IsLimitCode(e.code))
  {
  }

  /** What is logged: every multer error first, then a blocked upload
      exactly when the error was not answered with 400 and its message
      names something not allowed or dangerous. */
  lemma ErrorEvents(e: UploadError, endpoint: string)
    ensures e.MulterError? ==>
      |HandleError(e, endpoint).events| >= 1
      && HandleError(e, endpoint).events[0] == MulterErrorLogged(e.code, e.message, endpoint)
    ensures e.PlainError? ==> forall ev :: ev in HandleError(e, endpoint).events ==> !ev.MulterErrorLogged?
    ensures BlockedFileUpload(e.message, endpoint) in HandleError(e, endpoint).events <==>
      !(e.MulterError? && IsLimitCode(e.code)) && IsBlockedMessage(e.message)
    ensures |HandleError(e, endpoint).events| <= 2
  {
  }

  /** "Tipo de arquivo não permitido" begins every type rejection. */
  lemma TypeMessagesAreBlocked(r: Rejection)
    requires r != NameTooLong
    ensures HasSubstring(Message(r), NotAllowedPhrase)
  {
    var tail := if r == DangerousFile then " por motivos de segurança" else "";
    assert Message(r) == "Tipo de arquivo " + NotAllowedPhrase + tail;
    OccursAfterPrefix("Tipo de arquivo ", NotAllowedPhrase, tail);
  }

  /** The name-length rejection mentions neither phrase: it has no 'ã' and
      no 'p'. */
  lemma NameTooLongNotBlocked()
    ensures !IsBlockedMessage(Message(NameTooLong))
  {
    var m := Message(NameTooLong);
    assert NotAllowedPhrase[1] == 'ã' && Dangerous[0] == 'p';
    forall i | 0 <= i < |m| ensures m[i] != 'ã' && m[i] != 'p' {
      assert m[i] in {'N', 'o', 'm', 'e', ' ', 'd', 'a', 'r', 'q', 'u', 'i', 'v', 't', 'l', 'n', 'g'};
    }
    MissingCharRulesOutSubstring(m, NotAllowedPhrase, 'ã');
    MissingCharRulesOutSubstring(m, Dangerous, 'p');
  }

  /** A refusal by the admission filter reaches the middleware as a plain
      `Error`: it is answered with 500, not 400, and it is logged as a
      blocked upload unless it was the name-length check. */
  lemma FilterRejectionOutcome(r: Rejection, endpoint: string)
    ensures HandleError(PlainError(Message(r)), endpoint).reply.status == 500
    ensures HandleError(PlainError(Message(r)), endpoint).events ==
      if r == NameTooLong then [] else [BlockedFileUpload(Message(r), endpoint)]
  {
    if r == NameTooLong {
      NameTooLongNotBlocked();
    } else {
      TypeMessagesAreBlocked(r);
    }
  }
}
