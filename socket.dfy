/** server/utils/socket.js: the module-level socket.io instance, room membership
    and fan-out of events to the members of a room. */
module Socket {
  import opened Wrappers
  import opened MessageSchema

  /** Identity of one live connection (a socket.io socket id). */
  type ConnId = nat

  /** What a `receive_message` event carries: a record saved by `POST /message`, or
      the data a client sent with `send_message`, relayed untouched. */
  datatype Payload = Saved(message: Message) | Relayed(data: Draft)

  /** The two events the server emits into a room. */
  datatype Event = ReceiveMessage(payload: Payload) | DeleteMessage(messageId: MessageId)

  /** The error `getIO` throws before `init` has run. */
  const NotInitialized: string := "Socket.io not initialized!"

  /** Every connection's received events once `e` has been delivered to `targets`. */
  function Broadcast(inbox: map<ConnId, seq<Event>>, targets: set<ConnId>, e: Event): (r: map<ConnId, seq<Event>>)
    requires targets <= inbox.Keys
    ensures r.Keys == inbox.Keys
    ensures forall c :: c in targets ==> r[c] == inbox[c] + [e]
    ensures forall c :: c in inbox && c !in targets ==> r[c] == inbox[c]
  {
    map c | c in inbox :: if c in targets then inbox[c] + [e] else inbox[c]
  }

  /** The connections of `room`; a room nobody joined has none. */
  function MembersOf(rooms: map<string, set<ConnId>>, room: string): set<ConnId>
  {
    if room in rooms then rooms[room] else {}
  }

  /** Room membership after connection `c` joins `room`. */
  function Joined(rooms: map<string, set<ConnId>>, c: ConnId, room: string): (r: map<string, set<ConnId>>)
    ensures MembersOf(r, room) == MembersOf(rooms, room) + {c}
    ensures forall other :: other != room ==> MembersOf(r, other) == MembersOf(rooms, other)
  {
    rooms[room := MembersOf(rooms, room) + {c}]
  }

  /** Membership is a set: joining a room twice is the same as joining it once. */
  lemma JoinIdempotent(rooms: map<string, set<ConnId>>, c: ConnId, room: string)
    ensures Joined(Joined(rooms, c, room), c, room) == Joined(rooms, c, room)
  {
    assert MembersOf(rooms, room) + {c} + {c} == MembersOf(rooms, room) + {c};
  }

  /** A socket.io server instance: who is connected, who is in which room, and the
      events each connection has been sent. */
  class Server {
    var rooms: map<string, set<ConnId>>
    var inbox: map<ConnId, seq<Event>>
    var nextConn: nat

    /** Only connected sockets are room members; connection ids are never reused. */
    ghost predicate Valid()
      reads this
    {
      && (forall r | r in rooms :: rooms[r] <= inbox.Keys)
      && (forall c | c in inbox :: c < nextConn)
    }

    /** The member set `io.to(room)` addresses. */
    function Members(room: string): (r: set<ConnId>)
      reads this
      requires Valid()
      ensures r <= inbox.Keys
    {
      MembersOf(rooms, room)
    }

    /** `socketIO(server, ...)`: a fresh instance with no connections. */
    constructor ()
      ensures Valid() && rooms == map[] && inbox == map[]
    {
      rooms, inbox, nextConn := map[], map[], 0;
    }

    /** A client connects (the `connection` handler); it starts in no room. */
    method Connect() returns (c: ConnId)
      requires Valid()
      modifies this
      ensures Valid() && c !in old(inbox)
      ensures inbox == old(inbox)[c := []] && rooms == old(rooms)
    {
      c := nextConn;
      nextConn := nextConn + 1;
      inbox := inbox[c := []];
    }

    /** The `join_room` handler: `socket.join(roomCode)`. */
    method JoinRoom(c: ConnId, room: string)
      requires Valid() && c in inbox
      modifies this
      ensures Valid() && rooms == Joined(old(rooms), c, room)
      ensures inbox == old(inbox) && nextConn == old(nextConn)
    {
      rooms := Joined(rooms, c, room);
    }

    /** `io.to(room).emit(...)`: one copy of `e` to each member of `room`, none to
        anyone else. */
    method Emit(room: string, e: Event)
      requires Valid()
      modifies this
      ensures Valid() && rooms == old(rooms) && nextConn == old(nextConn)
      ensures inbox == Broadcast(old(inbox), old(Members(room)), e)
    {
      var targets := Members(room);
      var pending := targets;
      while pending != {}
        invariant Valid() && rooms == old(rooms) && nextConn == old(nextConn)
        invariant pending <= targets && targets <= old(inbox).Keys
        invariant inbox == Broadcast(old(inbox), targets - pending, e)
        decreases pending
      {
        var c :| c in pending;
        inbox := inbox[c := inbox[c] + [e]];
        pending := pending - {c};
      }
    }

    /** The `send_message` handler: relays `data` to every member of `data.roomCode`,
        the sender included. It adds nothing to the message store. */
    method SendMessage(sender: ConnId, data: Draft)
      requires Valid() && sender in inbox
      modifies this
      ensures Valid() && rooms == old(rooms) && nextConn == old(nextConn)
      ensures data.roomCode.Some? ==>
        inbox == Broadcast(old(inbox), old(Members(data.roomCode.value)), ReceiveMessage(Relayed(data)))
      ensures data.roomCode.None? ==> inbox == old(inbox)
    {
      if data.roomCode.Some? {
        Emit(data.roomCode.value, ReceiveMessage(Relayed(data)));
      }
    }
  }

  /** The module state of socket.js: the `io` variable that `init` assigns. */
  class SocketModule {
    var io: Server?

    /** On load, `io` is undefined. */
    constructor ()
      ensures io == null
    {
      io := null;
    }

    ghost predicate Valid()
      reads this, io
    {
      io != null ==> io.Valid()
    }

    /** `init`: creates a new instance, stores it and returns it. */
    method Init() returns (s: Server)
      modifies this
      ensures fresh(s) && io == s
      ensures Valid() && s.rooms == map[] && s.inbox == map[]
    {
      s := new Server();
      io := s;
    }

    /** `getIO`: throws before `init`, and afterwards returns the instance `init` stored. */
    method GetIO() returns (r: Result<Server, string>)
      ensures io == null <==> r.Failure?
      ensures r.Failure? ==> r.error == NotInitialized
      ensures r.Success? ==> r.value == io
    {
      if io == null {
        r := Failure(NotInitialized);
      } else {
        r := Success(io);
      }
    }
  }
}
