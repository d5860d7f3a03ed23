/** client/src/pages/Room.jsx: how a room page's message list follows the server's
    events and history, and what its send, upload and delete handlers post. */
module RoomPage {
  import opened Wrappers
  import opened Seqs
  import opened MessageSchema
  import opened Socket
  import opened Routes

  // ---------------------------------------------------------------------------
  // The message list

  /** The `_id` of a list entry. The relayed data is modelled as a message document,
      which has no `_id` path, so a relayed entry has none here. */
  function EntryId(p: Payload): Option<MessageId>
  {
    match p
    case Saved(m) => Some(m.id)
    case Relayed(_) => None
  }

  /** The `receive_message` updater `[...prev, message]`. */
  function Received(list: seq<Payload>, p: Payload): (r: seq<Payload>)
    ensures |r| == |list| + 1 && r[..|list|] == list && r[|list|] == p
    ensures multiset(r) == multiset(list) + multiset{p}
  {
    list + [p]
  }

  /** The `delete_message` updater `prev.filter(msg => msg._id !== messageId)`. */
  function Removed(list: seq<Payload>, id: MessageId): (r: seq<Payload>)
    ensures forall p :: p in r ==> EntryId(p) != Some(id)
  {
    Filter(list, (p: Payload) => EntryId(p) != Some(id))
  }

  /** Every entry with another id (or none) keeps all its occurrences. */
  lemma RemovedKeepsOthers(list: seq<Payload>, id: MessageId, p: Payload)
    ensures multiset(Removed(list, id))[p] == if EntryId(p) == Some(id) then 0 else multiset(list)[p]
  {
    FilterMultiset(list, (p: Payload) => EntryId(p) != Some(id), p);
  }

  /** Removal works piecewise, so the entries it keeps stay in their order. */
  lemma RemovedConcat(a: seq<Payload>, b: seq<Payload>, id: MessageId)
    ensures Removed(a + b, id) == Removed(a, id) + Removed(b, id)
  {
    FilterConcat(a, b, (p: Payload) => EntryId(p) != Some(id));
  }

  /** A list holding no entry with `id` is left as it is. */
  lemma RemovedAbsent(list: seq<Payload>, id: MessageId)
    requires forall i :: 0 <= i < |list| ==> EntryId(list[i]) != Some(id)
    ensures Removed(list, id) == list
  {
    FilterAll(list, (p: Payload) => EntryId(p) != Some(id));
  }

  /** The list after one event from the server, as the two listeners handle it. */
  function Apply(list: seq<Payload>, e: Event): (r: seq<Payload>)
    ensures e.ReceiveMessage? ==> |r| == |list| + 1 && r[..|list|] == list && r[|list|] == e.payload
    ensures e.DeleteMessage? ==> forall p :: p in r <==> p in list && EntryId(p) != Some(e.messageId)
  {
    match e
    case ReceiveMessage(p) => Received(list, p)
    case DeleteMessage(id) => Removed(list, id)
  }

  /** A `delete_message` that follows the `receive_message` of the same record undoes
      it, and touches nothing else. */
  lemma {:induction false} DeleteUndoesReceive(list: seq<Payload>, m: Message)
    ensures Apply(Apply(list, ReceiveMessage(Saved(m))), Event.DeleteMessage(m.id)) == Removed(list, m.id)
  {
    RemovedConcat(list, [Saved(m)], m.id);
    FilterNone([Saved(m)], (p: Payload) => EntryId(p) != Some(m.id));
  }

  /** The history load: `setMessages(res.data.messages)` on a successful answer (an
      empty array included); a failed request leaves the list as it was. */
  function Loaded(list: seq<Payload>, reply: Reply<seq<Message>>): (r: seq<Payload>)
    ensures reply.Fail? ==> r == list
    ensures reply.Ok? ==> |r| == |reply.body| && forall i :: 0 <= i < |r| ==> r[i] == Saved(reply.body[i])
  {
    match reply
    case Fail(_, _) => list
    case Ok(ms) => seq(|ms|, i requires 0 <= i < |ms| => Saved(ms[i]))
  }

  // ---------------------------------------------------------------------------
  // String.prototype.trim

  /** The characters `trim` removes: ECMAScript white space and line terminators. */
  predicate IsWhitespace(c: char)
  {
    || c == '\t' || c == '\n' || c == '\U{B}' || c == '\U{C}' || c == '\r' || c == ' '
    || c == '\U{A0}' || c == '\U{1680}' || ('\U{2000}' <= c <= '\U{200A}')
    || c == '\U{2028}' || c == '\U{2029}' || c == '\U{202F}' || c == '\U{205F}'
    || c == '\U{3000}' || c == '\U{FEFF}'
  }

  /** Nothing but white space. */
  predicate Blank(s: string)
  {
    forall i :: 0 <= i < |s| ==> IsWhitespace(s[i])
  }

  /** `Blank` of a non-empty string, one character at a time. */
  lemma BlankTail(s: string)
    requires s != []
    ensures Blank(s) <==> IsWhitespace(s[0]) && Blank(s[1..])
  {
    if IsWhitespace(s[0]) && Blank(s[1..]) {
      forall i | 0 <= i < |s| ensures IsWhitespace(s[i]) {
        if i > 0 { assert s[i] == s[1..][i - 1]; }
      }
    }
  }

  /** Drops leading white space: what is left is a suffix of `s` that starts with
      another character, and nothing is left exactly when `s` is blank. */
  function TrimStart(s: string): (r: string)
    ensures |r| <= |s| && r == s[|s| - |r|..]
    ensures r == [] <==> Blank(s)
    ensures r != [] ==> !IsWhitespace(r[0])
  {
    if s != [] && IsWhitespace(s[0]) then
      BlankTail(s);
      TrimStart(s[1..])
    else s
  }

  /** Drops trailing white space: what is left is a prefix of `s` that ends with
      another character, and a leading non-blank character is never dropped. */
  function TrimEnd(s: string): (r: string)
    ensures |r| <= |s| && r == s[..|r|]
    ensures r != [] ==> !IsWhitespace(r[|r| - 1])
    ensures s != [] && !IsWhitespace(s[0]) ==> r != []
  {
    if s != [] && IsWhitespace(s[|s| - 1]) then TrimEnd(s[..|s| - 1]) else s
  }

  /** `s.trim()`: the empty string exactly when the draft is all white space, and
      otherwise a string with white space at neither end. */
  function Trim(s: string): (r: string)
    ensures |r| <= |s|
    ensures r == [] <==> Blank(s)
    ensures r != [] ==> !IsWhitespace(r[0]) && !IsWhitespace(r[|r| - 1])
  {
    TrimEnd(TrimStart(s))
  }

  // ---------------------------------------------------------------------------
  // What the handlers post

  /** A file picked in the file input. */
  datatype LocalFile = LocalFile(name: string)

  /** The answer of `POST /upload`. */
  datatype UploadBody = UploadBody(fileUrl: string, publicId: string)

  /** What `handleSendMessage` sets off. */
  datatype SendAction = Ignored | Uploading(file: LocalFile) | PostingText(data: Draft)

  /** `{ roomCode, type: 'text', content: newMessage }`: the draft as typed, untrimmed. */
  function TextPayload(roomCode: string, draft: string): (d: Draft)
    ensures d.roomCode == Some(roomCode) && d.kind == Some("text") && d.content == Some(draft)
    ensures d.fileUrl.None? && d.publicId.None? && d.createdAt.None?
  {
    Draft(Some(roomCode), Some("text"), Some(draft), None, None, None)
  }

  /** `{ roomCode, type: 'file', fileUrl, publicId, content: file.name }`. */
  function FilePayload(roomCode: string, upload: UploadBody, file: LocalFile): (d: Draft)
    ensures d.roomCode == Some(roomCode) && d.kind == Some("file") && d.content == Some(file.name)
    ensures d.fileUrl == Some(upload.fileUrl) && d.publicId == Some(upload.publicId) && d.createdAt.None?
  {
    Draft(Some(roomCode), Some("file"), Some(file.name), Some(upload.fileUrl), Some(upload.publicId), None)
  }

  /** The decision `handleSendMessage` takes: nothing when the draft is blank and no
      file is chosen or a send or upload is in flight; a chosen file goes to
      `handleUpload`; otherwise the text is posted. */
  function SendStep(roomCode: string, draft: string, file: Option<LocalFile>, isSending: bool, isUploading: bool): (a: SendAction)
    ensures a.Ignored? <==> (Blank(draft) && file.None?) || isSending || isUploading
    ensures a.Uploading? <==> !a.Ignored? && file.Some?
    ensures a.Uploading? ==> a.file == file.value
    ensures a.PostingText? ==> a.data == TextPayload(roomCode, draft) && !Blank(draft)
  {
    if (Trim(draft) == [] && file.None?) || isSending || isUploading then Ignored
    else if file.Some? then Uploading(file.value)
    else PostingText(TextPayload(roomCode, draft))
  }

  /** The text a client posts is stored as typed, with the server's time. */
  lemma TextPostStored(roomCode: string, draft: string, id: MessageId, now: int)
    requires roomCode != ""
    ensures Build(TextPayload(roomCode, draft).(createdAt := None), id, now)
      == Success(Message(id, roomCode, Text, Some(draft), None, None, now))
  {
  }

  /** A posted upload is stored as a `file` record, and its stored file is destroyed on
      deletion exactly when the upload returned a non-empty public id. */
  lemma FilePostStored(roomCode: string, upload: UploadBody, file: LocalFile, id: MessageId, now: int)
    requires roomCode != ""
    ensures var m := Message(id, roomCode, File, Some(file.name), Some(upload.fileUrl), Some(upload.publicId), now);
      && Build(FilePayload(roomCode, upload, file).(createdAt := None), id, now) == Success(m)
      && (Queries.HasStoredFile(m) <==> upload.publicId != "")
  {
  }

  /** Loading a successful history answer shows exactly the room's records, oldest first. */
  lemma LoadedHistory(list: seq<Payload>, records: seq<Message>, roomCode: string)
    ensures var shown := Loaded(list, Ok(Queries.History(records, roomCode)));
      && |shown| == |Queries.History(records, roomCode)|
      && (forall i :: 0 <= i < |shown| ==> shown[i].Saved? && shown[i].message.roomCode == roomCode)
      && (forall i, j :: 0 <= i < j < |shown| ==> shown[i].message.createdAt <= shown[j].message.createdAt)
  {
    var h := Queries.History(records, roomCode);
    forall i | 0 <= i < |h| ensures h[i].roomCode == roomCode {
      assert h[i] in multiset(h);
    }
  }

  // ---------------------------------------------------------------------------
  // The page

  /** The state of a room page that the handlers read and write. */
  class Room {
    const roomCode: string
    var messages: seq<Payload>
    var newMessage: string
    var file: Option<LocalFile>
    var isUploading: bool
    var isSending: bool

    /** The initial `useState` values. */
    constructor (roomCode: string)
      ensures this.roomCode == roomCode && messages == [] && newMessage == "" && file.None?
      ensures !isUploading && !isSending
    {
      this.roomCode := roomCode;
      messages, newMessage, file := [], "", None;
      isUploading, isSending := false, false;
    }

    /** A socket event arrives: `receive_message` or `delete_message`. */
    method OnEvent(e: Event)
      modifies this`messages
      ensures messages == Apply(old(messages), e)
    {
      messages := Apply(messages, e);
    }

    /** `fetchMessages` resolves with the answer of `POST /room/join`. */
    method OnHistory(reply: Reply<seq<Message>>)
      modifies this`messages
      ensures messages == Loaded(old(messages), reply)
    {
      messages := Loaded(messages, reply);
    }

    /** `handleSendMessage` up to its first request; it marks that request in flight. */
    method HandleSendMessage() returns (action: SendAction)
      modifies this`isSending, this`isUploading
      ensures action == SendStep(roomCode, newMessage, file, old(isSending), old(isUploading))
      ensures isSending == (old(isSending) || action.PostingText?)
      ensures isUploading == (old(isUploading) || action.Uploading?)
    {
      action := SendStep(roomCode, newMessage, file, isSending, isUploading);
      if action.Uploading? {
        isUploading := true;
      } else if action.PostingText? {
        isSending := true;
      }
    }

    /** The text post settles: the draft is cleared on success, and the flag drops either way. */
    method FinishSend(ok: bool)
      modifies this`newMessage, this`isSending
      ensures !isSending
      ensures newMessage == if ok then "" else old(newMessage)
    {
      if ok {
        newMessage := "";
      }
      isSending := false;
    }

    /** The upload and its message post settle: on success the file and the draft are
        cleared, and the flag drops either way. */
    method FinishUpload(ok: bool)
      modifies this`file, this`newMessage, this`isUploading
      ensures !isUploading
      ensures file == (if ok then None else old(file))
      ensures newMessage == (if ok then "" else old(newMessage))
    {
      if ok {
        file, newMessage := None, "";
      }
      isUploading := false;
    }

    /** `handleDelete`: asks the server to delete `id` when the user confirms. It never
        edits the list; the entry goes only when `delete_message` arrives. */
    method HandleDelete(id: MessageId, confirmed: bool) returns (request: Option<MessageId>)
      ensures request.Some? <==> confirmed
      ensures request.Some? ==> request.value == id
    {
      request := if confirmed then Some(id) else None;
    }
  }
}
