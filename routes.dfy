/** The route handlers of server/routes/api.js over an abstract backend: the message
    collection as a sequence of records with an id counter, and Cloudinary as the log
    of the deletion calls made on it. Each handler runs as one sequential step. */
module Routes {
  import opened Wrappers
  import opened Seqs
  import opened MessageSchema
  import opened Queries
  import opened Socket

  /** An HTTP answer: status 200 with a body, or an error status with `{ error }`. */
  datatype Reply<T> = Ok(body: T) | Fail(status: nat, error: string)

  const RoomCodeMissing: string := "Room code is required"
  const SendFailed: string := "Failed to send message"
  const MessageNotFound: string := "Message not found"
  const DeleteFailed: string := "Failed to delete message"
  const CleanupFailed: string := "Cleanup failed"

  /** A call made on the file store. */
  datatype FileCall = Destroy(publicId: string) | DeleteResources(publicIds: seq<string>)

  /** The body `GET /cleanup` answers with on success. */
  datatype CleanupReport =
    | NothingInactive
    | Cleaned(deletedCount: nat, cloudinaryDeleted: nat, inactiveRoomsCleaned: nat)

  /** `deletedCount` of either body; the empty case reports 0. */
  function DeletedCount(r: CleanupReport): nat
  {
    match r
    case NothingInactive => 0
    case Cleaned(n, _, _) => n
  }

  class Api {
    var records: seq<Message>
    var nextId: MessageId
    var fileCalls: seq<FileCall>

    /** Stored records passed validation and carry distinct ids below the counter. */
    ghost predicate Valid()
      reads this
    {
      && IdsIncreasing(records)
      && forall m | m in records :: m.id < nextId && m.roomCode != ""
    }

    constructor ()
      ensures Valid() && records == [] && fileCalls == []
    {
      records, nextId, fileCalls := [], 0, [];
    }

    /** `POST /room/join`: a missing or empty room code is refused with 400; otherwise
        the room's records come back ascending by `createdAt`. */
    method JoinRoom(roomCode: Option<string>) returns (reply: Reply<seq<Message>>)
      ensures reply.Fail? <==> !Present(roomCode)
      ensures reply.Fail? ==> reply == Fail(400, RoomCodeMissing)
      ensures reply.Ok? ==> reply.body == History(records, roomCode.value)
      ensures reply.Ok? ==> SortedByCreatedAt(reply.body)
      ensures reply.Ok? ==> forall m ::
        multiset(reply.body)[m] == if m.roomCode == roomCode.value then multiset(records)[m] else 0
    {
      if !Present(roomCode) {
        return Fail(400, RoomCodeMissing);
      }
      reply := Ok(History(records, roomCode.value));
    }

    /** `POST /message`: validate and save, broadcast `receive_message` to the room,
        answer with the record. A validation failure answers 500 and changes nothing;
        when `getIO` throws after the save, the record stays and the answer is 500. */
    method PostMessage(body: Draft, now: int, sockets: SocketModule) returns (reply: Reply<Message>)
      requires Valid() && sockets.Valid()
      modifies this, sockets.io
      ensures Valid() && sockets.Valid() && fileCalls == old(fileCalls)
      ensures sockets.io != null ==> sockets.io.rooms == old(sockets.io.rooms)
      ensures var built := Build(body.(createdAt := None), old(nextId), now);
        && (built.Failure? ==>
              && reply == Fail(500, SendFailed)
              && records == old(records) && nextId == old(nextId)
              && (sockets.io != null ==> sockets.io.inbox == old(sockets.io.inbox)))
        && (built.Success? ==>
              && records == old(records) + [built.value]
              && built.value.createdAt == now
              && (forall m | m in old(records) :: m.id != built.value.id)
              && (sockets.io == null ==> reply == Fail(500, SendFailed))
              && (sockets.io != null ==>
                    && reply == Ok(built.value)
                    && sockets.io.inbox == Broadcast(old(sockets.io.inbox),
                         old(sockets.io.Members(built.value.roomCode)), ReceiveMessage(Saved(built.value)))))
    {
      var built := Build(body.(createdAt := None), nextId, now);
      if built.Failure? {
        return Fail(500, SendFailed);
      }
      var m := built.value;
      records := records + [m];
      nextId := nextId + 1;
      var io := sockets.GetIO();
      if io.Failure? {
        return Fail(500, SendFailed);
      }
      io.value.Emit(m.roomCode, ReceiveMessage(Saved(m)));
      reply := Ok(m);
    }

    /** `DELETE /message/:id`: an unknown id answers 404 and changes nothing. Otherwise
        the stored file (a `file` record with a public id) is destroyed first, then the
        record is removed, then `delete_message` goes to its room. A failed destroy
        answers 500 and keeps the record. */
    method DeleteMessage(id: MessageId, destroyOk: bool, sockets: SocketModule) returns (reply: Reply<MessageId>)
      requires Valid() && sockets.Valid()
      modifies this, sockets.io
      ensures Valid() && sockets.Valid() && nextId == old(nextId)
      ensures sockets.io != null ==> sockets.io.rooms == old(sockets.io.rooms)
      ensures var found := FindById(old(records), id);
        && (found.None? ==>
              && reply == Fail(404, MessageNotFound)
              && records == old(records) && fileCalls == old(fileCalls)
              && (sockets.io != null ==> sockets.io.inbox == old(sockets.io.inbox)))
        && (found.Some? ==>
              var m := found.value;
              && fileCalls == old(fileCalls) + (if HasStoredFile(m) then [Destroy(m.publicId.value)] else [])
              && (HasStoredFile(m) && !destroyOk ==>
                    && reply == Fail(500, DeleteFailed)
                    && records == old(records)
                    && (sockets.io != null ==> sockets.io.inbox == old(sockets.io.inbox)))
              && (!HasStoredFile(m) || destroyOk ==>
                    && (exists k :: 0 <= k < |old(records)| && old(records)[k] == m
                          && records == old(records)[..k] + old(records)[k + 1..])
                    && (sockets.io == null ==> reply == Fail(500, DeleteFailed))
                    && (sockets.io != null ==>
                          && reply == Ok(id)
                          && sockets.io.inbox == Broadcast(old(sockets.io.inbox),
                               old(sockets.io.Members(m.roomCode)), Event.DeleteMessage(id)))))
    {
      var found := FindById(records, id);
      if found.None? {
        return Fail(404, MessageNotFound);
      }
      var m := found.value;
      var destroyed := DestroyStoredFile(m, destroyOk);
      if !destroyed {
        return Fail(500, DeleteFailed);
      }
      ghost var k := FindByIdPosition(records, id);
      reply := RemoveAndNotify(m, k, sockets);
    }

    /** The Cloudinary step of a deletion: `destroy(publicId)` for a `file` record
        with a public id; `ok` says whether the deletion may go on. */
    method DestroyStoredFile(m: Message, destroyOk: bool) returns (ok: bool)
      modifies this`fileCalls
      ensures fileCalls == old(fileCalls) + (if HasStoredFile(m) then [Destroy(m.publicId.value)] else [])
      ensures ok == (!HasStoredFile(m) || destroyOk)
    {
      ok := true;
      if HasStoredFile(m) {
        fileCalls := fileCalls + [Destroy(m.publicId.value)];
        ok := destroyOk;
      }
    }

    /** The rest of a deletion once the file is gone: remove the record, then send
        `delete_message` to its room through `getIO()`. */
    method RemoveAndNotify(m: Message, ghost k: nat, sockets: SocketModule) returns (reply: Reply<MessageId>)
      requires Valid() && sockets.Valid() && k < |records| && records[k] == m
      modifies this`records, sockets.io
      ensures Valid() && sockets.Valid()
      ensures sockets.io != null ==> sockets.io.rooms == old(sockets.io.rooms)
      ensures records == old(records)[..k] + old(records)[k + 1..]
      ensures sockets.io == null ==> reply == Fail(500, DeleteFailed)
      ensures sockets.io != null ==>
        && reply == Ok(m.id)
        && sockets.io.inbox == Broadcast(old(sockets.io.inbox),
             old(sockets.io.Members(m.roomCode)), Event.DeleteMessage(m.id))
    {
      FindByIdAndDelete(m.id, k);
      var io := sockets.GetIO();
      if io.Failure? {
        return Fail(500, DeleteFailed);
      }
      io.value.Emit(m.roomCode, Event.DeleteMessage(m.id));
      reply := Ok(m.id);
    }

    /** `findByIdAndDelete(id)` where the record with `id` sits at position `k`:
        that record goes and every other one stays in place. */
    method FindByIdAndDelete(id: MessageId, ghost k: nat)
      requires Valid() && k < |records| && records[k].id == id
      modifies this`records
      ensures Valid()
      ensures records == Without(old(records), id)
      ensures records == old(records)[..k] + old(records)[k + 1..]
    {
      WithoutRemovesOnly(records, k);
      FilterKeepsIdsIncreasing(records, (n: Message) => n.id != id);
      records := Without(records, id);
    }

    /** `GET /cleanup` at time `now`: purge every record of each room with no record
        at or after `now - 2h`, after handing the purged files' public ids to batch
        deletion. A failed batch deletion answers 500 and keeps every record. */
    method Cleanup(now: int, deleteResourcesOk: bool) returns (reply: Reply<CleanupReport>)
      requires Valid()
      modifies this
      ensures Valid() && nextId == old(nextId)
      ensures var active := ActiveRooms(old(records), now - InactivityWindow);
        var doomed := Inactive(old(records), active);
        var ids := PublicIds(doomed);
        && (doomed == [] ==>
              reply == Ok(NothingInactive) && records == old(records) && fileCalls == old(fileCalls))
        && (doomed != [] ==>
              && fileCalls == old(fileCalls) + (if ids == [] then [] else [DeleteResources(ids)])
              && (ids != [] && !deleteResourcesOk ==>
                    reply == Fail(500, CleanupFailed) && records == old(records))
              && (ids == [] || deleteResourcesOk ==>
                    && records == Survivors(old(records), active)
                    && reply == Ok(Cleaned(|doomed|, |ids|, |doomed|))))
        && (reply.Ok? ==> DeletedCount(reply.body) == |doomed|)
    {
      var threshold := now - InactivityWindow;
      var active := ActiveRooms(records, threshold);
      var doomed := Inactive(records, active);
      if doomed == [] {
        return Ok(NothingInactive);
      }
      reply := PurgeInactive(active, deleteResourcesOk);
    }

    /** Steps 3 and 4 of `GET /cleanup` for a non-empty selection: batch-delete the
        selected files, then the selected records, and report the three counts. */
    method PurgeInactive(active: set<string>, deleteResourcesOk: bool) returns (reply: Reply<CleanupReport>)
      requires Valid()
      modifies this
      ensures Valid() && nextId == old(nextId)
      ensures var doomed := Inactive(old(records), active);
        var ids := PublicIds(doomed);
        && fileCalls == old(fileCalls) + (if ids == [] then [] else [DeleteResources(ids)])
        && (ids != [] && !deleteResourcesOk ==>
              reply == Fail(500, CleanupFailed) && records == old(records))
        && (ids == [] || deleteResourcesOk ==>
              && records == Survivors(old(records), active)
              && reply == Ok(Cleaned(|doomed|, |ids|, |doomed|)))
        && (reply.Ok? ==> DeletedCount(reply.body) == |doomed|)
    {
      var doomed := Inactive(records, active);
      var ids := PublicIds(doomed);
      if ids != [] {
        fileCalls := fileCalls + [DeleteResources(ids)];
        if !deleteResourcesOk {
          return Fail(500, CleanupFailed);
        }
      }
      var deleted := DeleteInactive(active);
      reply := Ok(Cleaned(deleted, |ids|, |doomed|));
    }

    /** `Message.deleteMany({ _id: { $in: messagesToDelete.map(m => m._id) } })`: removes
        the selected records by id, which keeps the survivors, and answers how many
        records went. */
    method DeleteInactive(active: set<string>) returns (deleted: nat)
      requires Valid()
      modifies this
      ensures Valid() && nextId == old(nextId) && fileCalls == old(fileCalls)
      ensures records == Survivors(old(records), active)
      ensures deleted == |Inactive(old(records), active)|
    {
      var before := |records|;
      var doomed := set n | n in Inactive(records, active) :: n.id;
      CleanupPartition(records, active);
      DeleteByIdsIsSurvivors(records, active);
      FilterKeepsIdsIncreasing(records, (m: Message) => m.roomCode in active);
      records := Filter(records, (m: Message) => m.id !in doomed);
      deleted := before - |records|;
    }
  }
}
