/** The Mongoose schema of server/models/Message.js: which documents `save()` accepts,
    and the record it stores, with `createdAt` defaulted to the current time. */
module MessageSchema {
  import opened Wrappers

  /** Identity the database assigns to a document (a MongoDB ObjectId). */
  type MessageId = nat

  /** The closed set of values the `type` path admits. */
  datatype Kind = Text | File

  /** A document as passed to `new Message({...})`: every path may be absent. */
  datatype Draft = Draft(
    roomCode: Option<string>,
    kind: Option<string>,
    content: Option<string>,
    fileUrl: Option<string>,
    publicId: Option<string>,
    createdAt: Option<int>)

  /** A document after validation, as stored and as returned to clients. */
  datatype Message = Message(
    id: MessageId,
    roomCode: string,
    kind: Kind,
    content: Option<string>,
    fileUrl: Option<string>,
    publicId: Option<string>,
    createdAt: int)

  /** The validation failure Mongoose reports for a path (the first failing validator). */
  datatype FieldError = RoomCodeRequired | TypeRequired | TypeNotInEnum(value: string)

  /** The string that names a kind in the enum. */
  function KindName(k: Kind): string
  {
    match k
    case Text => "text"
    case File => "file"
  }

  /** Reads an enum value back; anything outside the enum has no kind. */
  function ParseKind(s: string): (r: Option<Kind>)
    ensures r.Some? ==> KindName(r.value) == s
    ensures (exists k :: KindName(k) == s) ==> r.Some?
  {
    if s == "text" then Some(Text) else if s == "file" then Some(File) else None
  }

  /** A `required` String path rejects a missing value and the empty string. */
  predicate Present(v: Option<string>)
  {
    v.Some? && v.value != ""
  }

  /** Every failure validation reports for `d`: at most one per path. */
  function Errors(d: Draft): (errs: set<FieldError>)
    ensures RoomCodeRequired in errs <==> !Present(d.roomCode)
    ensures TypeRequired in errs <==> !Present(d.kind)
    ensures forall v :: TypeNotInEnum(v) in errs <==> d.kind == Some(v) && v != "" && ParseKind(v).None?
    ensures errs == {} <==> Present(d.roomCode) && d.kind.Some? && (d.kind.value == "text" || d.kind.value == "file")
  {
    var roomErrs := if Present(d.roomCode) then {} else {RoomCodeRequired};
    var typeErrs :=
      if !Present(d.kind) then {TypeRequired}
      else if ParseKind(d.kind.value).None? then {TypeNotInEnum(d.kind.value)}
      else {};
    roomErrs + typeErrs
  }

  /** Validates `d` and builds the stored record with identity `id`. The `createdAt`
      path defaults to `now` when the document does not carry one. */
  function Build(d: Draft, id: MessageId, now: int): (r: Result<Message, set<FieldError>>)
    ensures r.Failure? <==> Errors(d) != {}
    ensures r.Failure? ==> r.error == Errors(d)
    ensures r.Success? ==>
      && r.value.id == id
      && r.value.roomCode != ""
      && d.roomCode == Some(r.value.roomCode)
      && d.kind == Some(KindName(r.value.kind))
      && r.value.content == d.content
      && r.value.fileUrl == d.fileUrl
      && r.value.publicId == d.publicId
      && (d.createdAt.Some? ==> r.value.createdAt == d.createdAt.value)
      && (d.createdAt.None? ==> r.value.createdAt == now)
  {
    if Errors(d) != {} then Failure(Errors(d))
    else
      var kind := ParseKind(d.kind.value).value;
      var createdAt := match d.createdAt case Some(t) => t case None => now;
      Success(Message(id, d.roomCode.value, kind, d.content, d.fileUrl, d.publicId, createdAt))
  }

  /** The optional paths impose no rule of their own and none tied to `type`:
      whatever `content`, `fileUrl` and `publicId` hold, the verdict is the same. */
  lemma OptionalPathsUnconstrained(d: Draft, content: Option<string>, fileUrl: Option<string>, publicId: Option<string>)
    ensures Errors(d.(content := content, fileUrl := fileUrl, publicId := publicId)) == Errors(d)
  {
  }

  /** In particular a `text` record carrying a file reference is accepted, and so is a
      `file` record without one. */
  lemma KindAndFileFieldsIndependent(code: string, url: string, pid: string)
    requires code != ""
    ensures Errors(Draft(Some(code), Some("text"), None, Some(url), Some(pid), None)) == {}
    ensures Errors(Draft(Some(code), Some("file"), None, None, None, None)) == {}
  {
  }
}
