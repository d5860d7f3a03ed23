# DeadDrop message lifecycle, modelled in Dafny

DeadDrop is a room-based drop zone: anyone who knows a room code can post text
snippets and files into the room, everyone in the room sees new and deleted entries
in real time, and a periodic cleanup purges every room in which nothing has been
posted for two hours, together with the files stored for it.

This project models the server side of that lifecycle and the client page's list
handling, over abstract state:

- the MongoDB collection of messages is a sequence of records with an id counter
  (`Routes.Api.records`, `Routes.Api.nextId`);
- Cloudinary is the log of deletion calls made on it (`Routes.Api.fileCalls`), and
  whether a call succeeds is a parameter;
- the socket.io server is a class holding room membership and, per connection, the
  events it has been sent (`Socket.Server`); the module variable `io` of socket.js is
  `Socket.SocketModule.io`;
- the clock is the integer parameter `now`, in milliseconds;
- the room page of the client is a class with its React state (`RoomPage.Room`).

Modules, in dependency order:

| file | module | models |
|---|---|---|
| wrappers.dfy | Wrappers | `undefined` and thrown errors as `Option` / `Result` |
| seqs.dfy | Seqs | `Array.prototype.filter` and its laws |
| message_schema.dfy | MessageSchema | server/models/Message.js |
| queries.dfy | Queries | the database queries and selections of server/routes/api.js |
| socket.dfy | Socket | server/utils/socket.js |
| routes.dfy | Routes | the route handlers of server/routes/api.js |
| room_page.dfy | RoomPage | client/src/pages/Room.jsx |

Every handler is one atomic sequential step. Where an `await` separates the client's
state changes (a send or an upload in flight), the handler is split into the step
that starts the request and the step that handles its outcome.

### Where the code departs from the intended behaviour

The model follows the code in each of these places.

- A failing Cloudinary `destroy` aborts the deletion with 500 and keeps the record
  (server/routes/api.js:85-87, 96-99). A best-effort destroy, which removes the record even
  when the file store refuses, would not abort.
- A record that fails schema validation is answered with 500, not 400
  (server/routes/api.js:66, 73-75).
- The server accepts a `text` record with empty or missing content. Only the client
  refuses a blank draft (client/src/pages/Room.jsx:79).
- The schema ties neither `fileUrl` nor `publicId` to `type`. A `text` record may
  carry both and a `file` record may carry neither (`MessageSchema.KindAndFileFieldsIndependent`).
- A failing batch deletion during cleanup aborts the whole sweep with 500, and every
  record is kept (server/routes/api.js:127, 139-142). A sweep that collected its failures
  and carried on would still purge the records.
- The cleanup answer's `inactiveRoomsCleaned` is the number of purged records, not of
  rooms. The file count is named `cloudinaryDeleted`. When nothing is eligible, the
  answer is `deletedCount: 0, cloudinaryDeleted: 0` with a message
  (server/routes/api.js:116-118, 133-138; `Queries.RoomsCleanedCountsRecords`).
- The history fetch is `POST /room/join`. A missing or empty room code gets 400.

## Model

| member | source | states |
|---|---|---|
| `MessageSchema.Errors` | server/models/Message.js:4-13 | a missing or empty `roomCode` is rejected as required; a missing or empty `type` is rejected as required; any other value outside `text`/`file` is rejected by the enum; a document is accepted exactly when `roomCode` is non-empty and `type` is `text` or `file` |
| `MessageSchema.ParseKind` | server/models/Message.js:9-13 | the enum admits exactly the two names `text` and `file` |
| `MessageSchema.Build` | server/models/Message.js:3-26 | validation fails exactly when `Errors` is non-empty; on success the record carries the given id, the document's room code, type, content, file URL and public id unchanged, and `createdAt` taken from the document or, when absent, `now` |
| `MessageSchema.OptionalPathsUnconstrained` | server/models/Message.js:14-22 | `content`, `fileUrl` and `publicId` never change the validation verdict |
| `MessageSchema.KindAndFileFieldsIndependent` | server/models/Message.js:9-22 | a `text` document with a file URL and public id, and a `file` document with neither, are both accepted |
| `Seqs.Filter` | server/routes/api.js:121 | `filter` keeps exactly the elements satisfying the predicate and never lengthens the sequence |
| `Queries.FindById` | server/routes/api.js:81-82 | returns a stored record with the requested id, and returns nothing exactly when no stored record has that id |
| `Queries.FilterKeepsIdsIncreasing` | server/routes/api.js:89 | removing records keeps stored ids strictly increasing, hence unique |
| `Queries.Without` | server/routes/api.js:89 | `findByIdAndDelete` drops every record with that id and keeps every other record as often as it was stored |
| `Queries.WithoutRemovesOnly` | server/routes/api.js:89 | deleting by id removes exactly the record at its position and keeps every other record in place |
| `Queries.WithoutAbsent` | server/routes/api.js:89 | deleting an id that is not stored changes nothing |
| `Queries.InsertByCreatedAt` | server/routes/api.js:35 | one insertion step of the sort adds exactly one occurrence of the inserted record and nothing else |
| `Queries.InsertByCreatedAtSorted` | server/routes/api.js:35 | one insertion step keeps the sequence ascending by `createdAt` |
| `Queries.SortByCreatedAt` | server/routes/api.js:35 | `sort({ createdAt: 1 })` returns a permutation of its input in ascending `createdAt` |
| `Queries.InRoom` | server/routes/api.js:35 | `find({ roomCode })` holds every record of that room as often as it is stored, and no record of another room |
| `Queries.History` | server/routes/api.js:35-36 | the join answer is ascending by `createdAt` and holds every record of the requested room, as often as stored, and nothing else |
| `Queries.SavedRecordInHistory` | server/routes/api.js:66-72 | a record saved by `POST /message` appears, once more than before, in its room's next history |
| `Queries.DeletedAbsentFromHistory` | server/routes/api.js:89 | after deleting an id, no later history of any room holds a record with that id |
| `Queries.ActiveRooms` | server/routes/api.js:110 | `distinct('roomCode', ...)` holds a room code exactly when some record of that room has `createdAt` at or after the threshold |
| `Queries.Inactive` | server/routes/api.js:114 | `find({ roomCode: { $nin: active } })` holds every record of a room outside `active`, as often as stored, and no record of an active room |
| `Queries.Survivors` | server/routes/api.js:131 | after `deleteMany`, every record of an active room is still stored as often as before, and no record of another room is |
| `Queries.DeleteByIdsIsSurvivors` | server/routes/api.js:131 | with unique ids, deleting the selected records by id leaves exactly the records of the active rooms |
| `Queries.PublicIds` | server/routes/api.js:121-136 | the ids passed to batch deletion are the public ids of the selected `file` records with a non-empty public id, one per such record and in their order, so `cloudinaryDeleted` is the number of those records; no other id is passed |
| `Queries.PurgeLaw` | server/routes/api.js:106-114 | a record is selected for purging exactly when no record of its room has `createdAt` at or after `now - 2h` |
| `Queries.ActiveRoomSurvives` | server/routes/api.js:110-114 | every record of a room with a recent record survives the cleanup, however old it is |
| `Queries.CleanupPartition` | server/routes/api.js:131-137 | purged records and survivors split the store, so `deletedCount` equals the number of selected records |
| `Queries.CleanupIdempotent` | server/routes/api.js:104-131 | after one cleanup, the active rooms are unchanged and a second cleanup at the same `now` selects nothing |
| `Queries.InactivityExamples` | server/routes/api.js:106-114 | a room whose only record is 3h old is purged; a room with a 3h-old and a 30min-old record keeps both |
| `Queries.RoomsCleanedCountsRecords` | server/routes/api.js:137 | two stale records of one room make `inactiveRoomsCleaned` 2 |
| `Socket.Broadcast` | server/utils/socket.js:26 | each target connection gets exactly one more event, appended after its earlier ones; every other connection's events are unchanged |
| `Socket.Joined` | server/utils/socket.js:17-18 | joining adds the connection to that room's member set and changes no other room |
| `Socket.JoinIdempotent` | server/utils/socket.js:18 | joining a room twice equals joining it once |
| `Socket.Server.constructor` | server/utils/socket.js:7-12 | a new instance has no connections and no rooms |
| `Socket.Server.Connect` | server/utils/socket.js:14 | a new connection gets an id never used before, an empty event list and no room |
| `Socket.Server.JoinRoom` | server/utils/socket.js:17-20 | `join_room` updates membership as `Joined` says and sends nothing |
| `Socket.Server.Emit` | server/utils/socket.js:26 | `io.to(room).emit` delivers the event once to each member of the room and to nobody else, and leaves membership unchanged |
| `Socket.Server.SendMessage` | server/utils/socket.js:22-27 | `send_message` relays the data unchanged to every member of `data.roomCode`, the sender included, and changes nothing else |
| `Socket.SocketModule.constructor` | server/utils/socket.js:3 | `io` starts undefined |
| `Socket.SocketModule.Init` | server/utils/socket.js:6-12 | `init` stores a fresh instance with no connections and returns it |
| `Socket.SocketModule.GetIO` | server/utils/socket.js:36-41 | `getIO` throws exactly when `init` has not run, and otherwise returns the stored instance |
| `Routes.Api.constructor` | server/models/Message.js:29 | the `Message` collection starts empty and no file-store call has been made |
| `Routes.Api.JoinRoom` | server/routes/api.js:30-40 | a missing or empty room code answers 400; otherwise the answer is the room's records, all of them, ascending by `createdAt` |
| `Routes.Api.PostMessage` | server/routes/api.js:56-76 | an invalid document answers 500 with no record added and nothing sent; a valid one is appended with a fresh id and `createdAt = now`, other records unchanged, then broadcast as `receive_message` to its room and returned; if `getIO` throws, the record stays and the answer is 500 |
| `Routes.Api.DeleteMessage` | server/routes/api.js:79-100 | an unknown id answers 404 with store, file log and deliveries unchanged; otherwise a `file` record with a public id is destroyed first, and a failed destroy answers 500 and keeps the record; then only that record is removed and `delete_message` with the id goes to its room |
| `Routes.Api.DestroyStoredFile` | server/routes/api.js:85-87 | `destroy` is called with the public id exactly for a `file` record with a non-empty public id |
| `Routes.Api.FindByIdAndDelete` | server/routes/api.js:89 | only the record with the id is removed, the others stay in order, and the store invariant holds |
| `Routes.Api.RemoveAndNotify` | server/routes/api.js:89-95 | after the removal, `delete_message` is sent to the record's room, or the answer is 500 when `getIO` throws |
| `Routes.Api.Cleanup` | server/routes/api.js:104-143 | with threshold `now - 2h`: when nothing is selected it answers `deletedCount` 0 and changes nothing; otherwise it hands exactly the selected files' public ids to batch deletion, then deletes exactly the selected records and reports their count as `deletedCount`, the number of public ids and the record count again; a failed batch deletion answers 500 and keeps every record |
| `Routes.Api.PurgeInactive` | server/routes/api.js:120-138 | for a non-empty selection, hands exactly the selected files' public ids to batch deletion, if there are any; a failed batch deletion answers 500 and keeps every record; otherwise only the survivors remain and the answer reports `deletedCount` and `inactiveRoomsCleaned` as the number of selected records and `cloudinaryDeleted` as the number of public ids |
| `Routes.Api.DeleteInactive` | server/routes/api.js:131-135 | `deleteMany` removes the selected records by id, which leaves exactly the survivors, and reports as many deletions as records were selected |
| `RoomPage.Apply` | client/src/pages/Room.jsx:61-67 | a `receive_message` appends its payload after the unchanged list; a `delete_message` keeps exactly the entries whose id differs |
| `RoomPage.Received` | client/src/pages/Room.jsx:61-63 | the message is appended at the end; earlier entries and their order are unchanged; a duplicate is kept |
| `RoomPage.Removed` | client/src/pages/Room.jsx:65-67 | no entry with the deleted id remains |
| `RoomPage.RemovedKeepsOthers` | client/src/pages/Room.jsx:65-67 | every entry with another id, or with none, keeps all its occurrences |
| `RoomPage.RemovedConcat` | client/src/pages/Room.jsx:65-67 | removal works piecewise, so kept entries stay in their original order |
| `RoomPage.RemovedAbsent` | client/src/pages/Room.jsx:65-67 | removing an id no entry has leaves the list as it is |
| `RoomPage.DeleteUndoesReceive` | client/src/pages/Room.jsx:61-67 | a `delete_message` right after the `receive_message` of the same record leaves the list as deleting that id from the earlier list would |
| `RoomPage.Loaded` | client/src/pages/Room.jsx:50-53 | a successful history answer replaces the list, an empty one included; a failed request leaves it as it was |
| `RoomPage.LoadedHistory` | client/src/pages/Room.jsx:50-53 | after the history load the page shows only the room's stored records, oldest first |
| `RoomPage.Trim` | client/src/pages/Room.jsx:79 | `trim()` gives the empty string exactly when the draft is all ECMAScript white space, and otherwise a string with white space at neither end, never longer than the draft |
| `RoomPage.SendStep` | client/src/pages/Room.jsx:79-88 | nothing happens when the draft is blank and no file is chosen, or a send or upload is in flight; a chosen file goes to the upload; otherwise the untrimmed draft is posted as text |
| `RoomPage.TextPayload` | client/src/pages/Room.jsx:88 | a text post carries the room code, type `text` and the draft as typed |
| `RoomPage.FilePayload` | client/src/pages/Room.jsx:111-117 | a file post carries type `file`, the uploaded file URL and public id, and the file name as content |
| `RoomPage.TextPostStored` | client/src/pages/Room.jsx:88-89 | the server stores a text post as typed, with the server's time |
| `RoomPage.FilePostStored` | client/src/pages/Room.jsx:111-119 | the server stores a file post as a `file` record, whose file is destroyed on deletion exactly when its public id is non-empty |
| `RoomPage.Room.constructor` | client/src/pages/Room.jsx:14-18 | the page starts with no messages, an empty draft, no file and nothing in flight |
| `RoomPage.Room.OnEvent` | client/src/pages/Room.jsx:61-67 | a `receive_message` appends and a `delete_message` filters, as `Received` and `Removed` say |
| `RoomPage.Room.OnHistory` | client/src/pages/Room.jsx:48-58 | the history answer updates the list as `Loaded` says |
| `RoomPage.Room.HandleSendMessage` | client/src/pages/Room.jsx:77-101 | takes the decision of `SendStep` and marks the started send or upload as in flight, and touches nothing else |
| `RoomPage.Room.FinishSend` | client/src/pages/Room.jsx:89-96 | a text post that succeeded clears the draft; either way the send is no longer in flight |
| `RoomPage.Room.FinishUpload` | client/src/pages/Room.jsx:119-127 | an upload and post that succeeded clear the file and the draft; either way the upload is no longer in flight |
| `RoomPage.Room.HandleDelete` | client/src/pages/Room.jsx:130-138 | a confirmed delete requests the deletion of that id, and the list is never edited locally |

## Left out

- The `/upload` route and the Cloudinary and multer configuration (server/routes/api.js:8-27, 43-53). These are calls into foreign libraries. The upload's answer is the `RoomPage.UploadBody` parameter.
- Routes.Api.JoinRoom: does not model the 500 answer of a failing database query (server/routes/api.js:37-38). The model's database does not fail.
- Routes.Api.JoinRoom: does not model a `roomCode` that is a JSON object, such as `{"$gt": ""}`. Such a value is truthy, so it passes the check at server/routes/api.js:32, and `find` then reads it as a query operator and answers with the records of every room. The model's room code is always a string.
- Routes.Api.JoinRoom: the contract fixes the order of records with equal `createdAt` to storage order, because `Queries.History` sorts stably. MongoDB's `sort({ createdAt: 1 })` promises no order among such records. The clauses that hold for every order the database may return are the sortedness and the per-record counts; `RoomPage.LoadedHistory` states only those.
- Routes.Api.PostMessage: does not model a save that fails for a reason other than validation, such as a lost database connection. That case would answer 500 like a validation failure.
- Routes.Api.DeleteMessage: does not model the spelling of the requested id. The broadcast and the reply carry `req.params.id` as the client wrote it (server/routes/api.js:93, 95). Mongoose casts any 24-digit hexadecimal string, upper case included, to the same ObjectId. So `DELETE /message/507F…` deletes the record, yet every page keeps its entry, because `"507f…" !== "507F…"` (client/src/pages/Room.jsx:66). Each model id has one spelling, so the broadcast id always equals the stored id and the entry always goes.
- Routes.Api.DeleteMessage: does not model failures of `findById` or `findByIdAndDelete` themselves. This includes the cast error Mongoose raises for a malformed id, which answers 500 rather than 404. Ids are natural numbers here.
- MongoDB query mechanics and ObjectId generation. Ids come from a counter. The model sorts stably, so records with equal `createdAt` keep their storage order (see the `Routes.Api.JoinRoom` line above).
- Mongoose's casting of non-string values to strings. The body's fields are modelled as present or absent strings.
- `Date.now` and `Date` values. Time is an integer number of milliseconds.
- Routes.Api.Cleanup: does not model failures of `distinct`, `find` or `deleteMany` (server/routes/api.js:110, 114, 131). Each answers 500. A `deleteMany` that fails after a successful `delete_resources` keeps records whose files are already gone. The model's database does not fail, so only a failed `delete_resources` answers 500.
- Cloudinary's limit on the number of public ids per `delete_resources` call (server/routes/api.js:125-126). The code ignores it too.
- Socket.Server.SendMessage: data without a `roomCode` reaches nobody in the model. socket.io would address a room keyed by `undefined`, and a string room code can never reach that room.
- RoomPage.Removed: does not model relayed data that carries an `_id`. `send_message` relays any JSON object unchanged (server/utils/socket.js:22-26). A relayed `{ roomCode: "R", _id: "X" }` is removed by a later `delete_message` with `"X"`. The model's relayed data is a message document without an `_id` path, so `RoomPage.EntryId` gives it none and `Removed` always keeps it.
- Socket.Server.SendMessage: does not model a `send_message` with no payload or a `null` one. Reading `data.roomCode` then throws a TypeError (server/utils/socket.js:26), and nothing in the server catches it. The model's data is always a document.
- Socket.io transport: disconnection, reconnection, the automatic leaving of rooms on disconnect, each socket's private room, and the connection logging (server/utils/socket.js:15, 19, 29-31). Membership only grows in the model.
- The relative order of file-store calls and broadcasts. These are kept in two separate logs. The order of a deletion's steps shows in its failures: a failed destroy leaves no record removed and nothing sent, and a failed `getIO` comes after the removal.
- Concurrency between the scheduled cleanup and live requests, and any interleaving of handlers. Each handler is one atomic step.
- server/server.js is not part of this model. It only starts the process: DNS settings, environment, database connection, `init` and `listen`.
- client/src/pages/Home.jsx is not part of this model. It is navigation, and its room code comes from `Math.random`.
- Room.jsx rendering, animation, scrolling, clipboard copying (`handleCopy`, `copyRoomCode`), `setTimeout`, `alert`, the online/offline flags and socket closing. `window.confirm` becomes the `confirmed` parameter of `HandleDelete`.
- The input setters `setNewMessage` and `setFile` from the form's change handlers. They are plain assignments of the fields of `RoomPage.Room`.
- The `if (!file) return;` guard of `handleUpload` (client/src/pages/Room.jsx:100). It is unreachable, because `handleUpload` is only called with a file chosen.
