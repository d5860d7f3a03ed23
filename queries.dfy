/** The query logic of server/routes/api.js, as pure functions over the stored
    records: `find`/`sort` for the history, `findById`/`findByIdAndDelete` for a
    deletion, and `distinct`, `$nin` and `filter`/`map` for the inactivity cleanup. */
module Queries {
  import opened Wrappers
  import opened Seqs
  import opened MessageSchema

  /** Two hours in milliseconds: how far back `GET /cleanup` looks for activity. */
  const InactivityWindow: int := 2 * 60 * 60 * 1000

  /** Ids grow with insertion order, so no two stored records share one. */
  predicate IdsIncreasing(s: seq<Message>)
  {
    forall i, j :: 0 <= i < j < |s| ==> s[i].id < s[j].id
  }

  /** Any selection of the records keeps the ids increasing. */
  lemma {:induction false} FilterKeepsIdsIncreasing(s: seq<Message>, p: Message -> bool)
    requires IdsIncreasing(s)
    ensures IdsIncreasing(Filter(s, p))
  {
    if s != [] {
      var rest := Filter(s[1..], p);
      FilterKeepsIdsIncreasing(s[1..], p);
      if p(s[0]) {
        forall j | 0 <= j < |rest| ensures s[0].id < rest[j].id {
          assert rest[j] in s[1..];
          var k :| 0 <= k < |s[1..]| && s[1..][k] == rest[j];
          assert s[k + 1] == rest[j];
        }
      }
    }
  }

  // ---------------------------------------------------------------------------
  // Message.findById

  /** The stored record with identity `id`, if any. */
  function FindById(s: seq<Message>, id: MessageId): (r: Option<Message>)
    ensures r.Some? ==> r.value in s && r.value.id == id
    ensures r.None? <==> forall i :: 0 <= i < |s| ==> s[i].id != id
  {
    if s == [] then None
    else if s[0].id == id then Some(s[0])
    else FindById(s[1..], id)
  }

  /** The position at which `FindById` found its record. */
  lemma {:induction false} FindByIdPosition(s: seq<Message>, id: MessageId) returns (k: nat)
    requires FindById(s, id).Some?
    ensures k < |s| && s[k] == FindById(s, id).value
  {
    if s[0].id != id {
      k := FindByIdPosition(s[1..], id);
      k := k + 1;
    } else {
      k := 0;
    }
  }

  // ---------------------------------------------------------------------------
  // Message.findByIdAndDelete

  /** The records left once the one with identity `id` is deleted. */
  function Without(s: seq<Message>, id: MessageId): (r: seq<Message>)
    ensures forall m :: multiset(r)[m] == if m.id == id then 0 else multiset(s)[m]
  {
    FilterCounts(s, (m: Message) => m.id != id);
    Filter(s, (m: Message) => m.id != id)
  }

  /** With increasing ids, deleting by id removes exactly the record at its position. */
  lemma WithoutRemovesOnly(s: seq<Message>, k: nat)
    requires IdsIncreasing(s) && k < |s|
    ensures Without(s, s[k].id) == s[..k] + s[k + 1..]
  {
    FilterByIdRemovesOnly(s, k, s[k].id);
  }

  /** `WithoutRemovesOnly`, by induction over the filter itself. */
  lemma {:induction false} FilterByIdRemovesOnly(s: seq<Message>, k: nat, id: MessageId)
    requires IdsIncreasing(s) && k < |s| && s[k].id == id
    ensures Filter(s, (m: Message) => m.id != id) == s[..k] + s[k + 1..]
  {
    if k == 0 {
      FilterByIdRemovesHead(s, id);
    } else {
      assert s[0].id < id;
      IdsIncreasingTail(s);
      assert s[1..][k - 1] == s[k];
      FilterByIdRemovesOnly(s[1..], k - 1, id);
      SpliceTail(s, k);
    }
  }

  /** Dropping the first record keeps the ids increasing. */
  lemma IdsIncreasingTail(s: seq<Message>)
    requires IdsIncreasing(s) && s != []
    ensures IdsIncreasing(s[1..])
  {
    forall i, j | 0 <= i < j < |s[1..]| ensures s[1..][i].id < s[1..][j].id {
      assert s[1..][i] == s[i + 1] && s[1..][j] == s[j + 1];
    }
  }

  /** Removing position `k > 0` is keeping the head and removing `k - 1` of the tail. */
  lemma SpliceTail(s: seq<Message>, k: nat)
    requires 0 < k < |s|
    ensures s[..k] + s[k + 1..] == [s[0]] + (s[1..][..k - 1] + s[1..][k..])
  {
    assert s[1..][..k - 1] == s[1..k];
    assert s[1..][k..] == s[k + 1..];
    assert s[..k] == [s[0]] + s[1..k];
  }

  /** The first record's id occurs nowhere else, so only the head goes. */
  lemma FilterByIdRemovesHead(s: seq<Message>, id: MessageId)
    requires IdsIncreasing(s) && 0 < |s| && s[0].id == id
    ensures Filter(s, (m: Message) => m.id != id) == s[1..]
  {
    assert forall i :: 0 <= i < |s[1..]| ==> s[1..][i].id != id by {
      forall i | 0 <= i < |s[1..]| ensures s[1..][i].id != id {
        assert s[1..][i] == s[i + 1];
      }
    }
    FilterAll(s[1..], (m: Message) => m.id != id);
  }

  /** Deleting an id that is not stored changes nothing. */
  lemma WithoutAbsent(s: seq<Message>, id: MessageId)
    requires FindById(s, id).None?
    ensures Without(s, id) == s
  {
    FilterAll(s, (m: Message) => m.id != id);
  }

  // ---------------------------------------------------------------------------
  // Message.find({ roomCode }).sort({ createdAt: 1 })

  /** The records of room `code`, in storage order. */
  function InRoom(s: seq<Message>, code: string): (r: seq<Message>)
    ensures forall m :: multiset(r)[m] == if m.roomCode == code then multiset(s)[m] else 0
  {
    FilterCounts(s, (m: Message) => m.roomCode == code);
    Filter(s, (m: Message) => m.roomCode == code)
  }

  /** Ascending `createdAt`; equal timestamps may come in any order. */
  predicate SortedByCreatedAt(s: seq<Message>)
  {
    forall i, j :: 0 <= i < j < |s| ==> s[i].createdAt <= s[j].createdAt
  }

  /** Places `m` before the first record that is not older than it.
      Inserting adds exactly one occurrence of `m`. */
  function InsertByCreatedAt(m: Message, s: seq<Message>): (r: seq<Message>)
    ensures multiset(r) == multiset(s) + multiset{m}
  {
    if s == [] then [m]
    else if m.createdAt <= s[0].createdAt then [m] + s
    else
      assert s == [s[0]] + s[1..];
      [s[0]] + InsertByCreatedAt(m, s[1..])
  }

  /** Inserting into a sorted sequence keeps it sorted. */
  lemma {:induction false} InsertByCreatedAtSorted(m: Message, s: seq<Message>)
    requires SortedByCreatedAt(s)
    ensures SortedByCreatedAt(InsertByCreatedAt(m, s))
  {
    if s != [] && m.createdAt > s[0].createdAt {
      var t := InsertByCreatedAt(m, s[1..]);
      InsertByCreatedAtSorted(m, s[1..]);
      forall j | 0 <= j < |t| ensures s[0].createdAt <= t[j].createdAt {
        assert t[j] in multiset(t);
        if t[j] != m {
          assert t[j] in s[1..];
          var k :| 0 <= k < |s[1..]| && s[1..][k] == t[j];
          assert s[k + 1] == t[j];
        }
      }
      assert InsertByCreatedAt(m, s) == [s[0]] + t;
    }
  }

  /** Insertion sort by `createdAt`: one order the database's `sort` may return, a
      permutation of its input in ascending `createdAt`. */
  function SortByCreatedAt(s: seq<Message>): (r: seq<Message>)
    ensures SortedByCreatedAt(r)
    ensures multiset(r) == multiset(s)
  {
    if s == [] then []
    else
      var t := SortByCreatedAt(s[1..]);
      InsertByCreatedAtSorted(s[0], t);
      assert s == [s[0]] + s[1..];
      InsertByCreatedAt(s[0], t)
  }

  /** What `POST /room/join` answers with for room `code`: exactly the records of
      that room, each as often as it is stored, ascending by `createdAt`. */
  function History(s: seq<Message>, code: string): (r: seq<Message>)
    ensures SortedByCreatedAt(r)
    ensures forall m :: multiset(r)[m] == if m.roomCode == code then multiset(s)[m] else 0
  {
    SortByCreatedAt(InRoom(s, code))
  }

  /** A record just saved shows up, once more, in its room's next history. */
  lemma SavedRecordInHistory(s: seq<Message>, m: Message)
    ensures multiset(History(s + [m], m.roomCode))[m] == multiset(s)[m] + 1
  {
    assert multiset(s + [m]) == multiset(s) + multiset{m};
  }

  /** After a deletion by id, no later history of any room holds a record with that id. */
  lemma DeletedAbsentFromHistory(s: seq<Message>, id: MessageId, code: string, m: Message)
    requires m.id == id
    ensures multiset(History(Without(s, id), code))[m] == 0
  {
  }

  // ---------------------------------------------------------------------------
  // GET /cleanup

  /** `Message.distinct('roomCode', { createdAt: { $gte: threshold } })`. */
  function ActiveRooms(s: seq<Message>, threshold: int): (rooms: set<string>)
    ensures forall c :: c in rooms <==> exists m :: m in s && m.roomCode == c && m.createdAt >= threshold
  {
    set m | m in s && m.createdAt >= threshold :: m.roomCode
  }

  /** `Message.find({ roomCode: { $nin: active } })`: the records to purge. */
  function Inactive(s: seq<Message>, active: set<string>): (r: seq<Message>)
    ensures forall m :: multiset(r)[m] == if m.roomCode in active then 0 else multiset(s)[m]
  {
    FilterCounts(s, (m: Message) => m.roomCode !in active);
    Filter(s, (m: Message) => m.roomCode !in active)
  }

  /** What `deleteMany` over the purged ids leaves behind. */
  function Survivors(s: seq<Message>, active: set<string>): (r: seq<Message>)
    ensures forall m :: multiset(r)[m] == if m.roomCode in active then multiset(s)[m] else 0
  {
    FilterCounts(s, (m: Message) => m.roomCode in active);
    Filter(s, (m: Message) => m.roomCode in active)
  }

  /** Deleting the selected records by their ids, as `deleteMany({ _id: { $in: ... } })`
      does, leaves the records of the active rooms: ids are unique, so no record of an
      active room shares an id with a selected one. */
  lemma DeleteByIdsIsSurvivors(s: seq<Message>, active: set<string>)
    requires IdsIncreasing(s)
    ensures var doomed := set n | n in Inactive(s, active) :: n.id;
      Filter(s, (m: Message) => m.id !in doomed) == Survivors(s, active)
  {
    var doomed := set n | n in Inactive(s, active) :: n.id;
    forall i | 0 <= i < |s|
      ensures (s[i].id !in doomed) == (s[i].roomCode in active)
    {
      if s[i].roomCode !in active {
        assert s[i] in Inactive(s, active);
      }
      if s[i].id in doomed {
        var n :| n in Inactive(s, active) && n.id == s[i].id;
        var j :| 0 <= j < |s| && s[j] == n;
        assert j == i;
      }
    }
    FilterCongruent(s, (m: Message) => m.id !in doomed, (m: Message) => m.roomCode in active);
  }

  /** `m.type === 'file' && m.publicId`: a file record with a non-empty public id. */
  predicate HasStoredFile(m: Message)
  {
    m.kind == File && Present(m.publicId)
  }

  /** `filter(...).map(m => m.publicId)`: the public ids handed to batch deletion. */
  function PublicIds(s: seq<Message>): (ids: seq<string>)
    ensures |ids| <= |s|
    ensures |ids| == |Filter(s, HasStoredFile)|
    ensures forall i :: 0 <= i < |ids| ==> Some(ids[i]) == Filter(s, HasStoredFile)[i].publicId
    ensures forall x :: x in ids <==> exists m :: m in s && HasStoredFile(m) && m.publicId == Some(x)
  {
    var files := Filter(s, HasStoredFile);
    var ids := seq(|files|, i requires 0 <= i < |files| => assert files[i] in files; files[i].publicId.value);
    assert forall i :: 0 <= i < |ids| ==> Some(ids[i]) == files[i].publicId by {
      forall i | 0 <= i < |ids| ensures Some(ids[i]) == files[i].publicId {
        assert files[i] in files;
      }
    }
    PublicIdsMembership(s, files, ids);
    ids
  }

  /** The membership half of `PublicIds`: an id is passed exactly when some selected
      record with a stored file has it. */
  lemma PublicIdsMembership(s: seq<Message>, files: seq<Message>, ids: seq<string>)
    requires files == Filter(s, HasStoredFile)
    requires |ids| == |files| && forall i :: 0 <= i < |ids| ==> Some(ids[i]) == files[i].publicId
    ensures forall x :: x in ids <==> exists m :: m in s && HasStoredFile(m) && m.publicId == Some(x)
  {
    forall x ensures x in ids <==> exists m :: m in s && HasStoredFile(m) && m.publicId == Some(x) {
      if x in ids {
        var i :| 0 <= i < |ids| && ids[i] == x;
        assert files[i] in files;
      }
      if exists m :: m in s && HasStoredFile(m) && m.publicId == Some(x) {
        var m :| m in s && HasStoredFile(m) && m.publicId == Some(x);
        assert m in files;
        var i :| 0 <= i < |files| && files[i] == m;
        assert ids[i] == x;
      }
    }
  }

  /** A record is purged exactly when no record of its room is at or after the
      threshold, however recent the record itself is. */
  lemma PurgeLaw(s: seq<Message>, threshold: int, m: Message)
    ensures m in Inactive(s, ActiveRooms(s, threshold)) <==>
      m in s && forall n :: n in s && n.roomCode == m.roomCode ==> n.createdAt < threshold
  {
    if m in s && !(forall n :: n in s && n.roomCode == m.roomCode ==> n.createdAt < threshold) {
      var n :| n in s && n.roomCode == m.roomCode && n.createdAt >= threshold;
      assert n.roomCode in ActiveRooms(s, threshold);
    }
  }

  /** Every record of an active room survives, however old it is. */
  lemma ActiveRoomSurvives(s: seq<Message>, threshold: int, m: Message, n: Message)
    requires m in s && n in s && n.roomCode == m.roomCode && n.createdAt >= threshold
    ensures m in Survivors(s, ActiveRooms(s, threshold))
    ensures m !in Inactive(s, ActiveRooms(s, threshold))
  {
    assert m.roomCode in ActiveRooms(s, threshold);
  }

  /** The purged records and the survivors split the store: `deletedCount` equals the
      number of records selected for purging. */
  lemma CleanupPartition(s: seq<Message>, active: set<string>)
    ensures |Inactive(s, active)| + |Survivors(s, active)| == |s|
    ensures multiset(Inactive(s, active)) + multiset(Survivors(s, active)) == multiset(s)
  {
    FilterPartition(s, (m: Message) => m.roomCode !in active, (m: Message) => m.roomCode in active);
  }

  /** After one cleanup at time `now`, a second one at the same `now` selects nothing. */
  lemma CleanupIdempotent(s: seq<Message>, threshold: int)
    ensures var left := Survivors(s, ActiveRooms(s, threshold));
      ActiveRooms(left, threshold) == ActiveRooms(s, threshold) && Inactive(left, ActiveRooms(left, threshold)) == []
  {
    var active := ActiveRooms(s, threshold);
    var left := Survivors(s, active);
    forall r | r in active ensures r in ActiveRooms(left, threshold) {
      var m :| m in s && m.createdAt >= threshold && m.roomCode == r;
      assert m in left;
    }
    FilterNone(left, (m: Message) => m.roomCode !in ActiveRooms(left, threshold));
  }

  /** A room whose only record is three hours old is purged; a room with a record three
      hours old and one thirty minutes old keeps both. */
  lemma InactivityExamples(now: int)
    ensures var old3h := Message(0, "A", Text, None, None, None, now - 3 * 60 * 60 * 1000);
      Inactive([old3h], ActiveRooms([old3h], now - InactivityWindow)) == [old3h]
    ensures var old3h := Message(0, "B", Text, None, None, None, now - 3 * 60 * 60 * 1000);
      var new30m := Message(1, "B", Text, None, None, None, now - 30 * 60 * 1000);
      Inactive([old3h, new30m], ActiveRooms([old3h, new30m], now - InactivityWindow)) == []
  {
    var a := Message(0, "A", Text, None, None, None, now - 3 * 60 * 60 * 1000);
    assert ActiveRooms([a], now - InactivityWindow) == {};
    var b0 := Message(0, "B", Text, None, None, None, now - 3 * 60 * 60 * 1000);
    var b1 := Message(1, "B", Text, None, None, None, now - 30 * 60 * 1000);
    assert "B" in ActiveRooms([b0, b1], now - InactivityWindow) by {
      assert b1 in [b0, b1];
    }
    FilterNone([b0, b1], (m: Message) => m.roomCode !in ActiveRooms([b0, b1], now - InactivityWindow));
  }

  /** `inactiveRoomsCleaned` reports the number of purged records, not of rooms: two
      stale records of one room yield 2. */
  lemma RoomsCleanedCountsRecords(now: int)
    ensures var s := [Message(0, "R1", Text, Some("a"), None, None, now - 3 * InactivityWindow),
                      Message(1, "R1", Text, Some("b"), None, None, now - 2 * InactivityWindow)];
      |Inactive(s, ActiveRooms(s, now - InactivityWindow))| == 2
  {
    var s := [Message(0, "R1", Text, Some("a"), None, None, now - 3 * InactivityWindow),
              Message(1, "R1", Text, Some("b"), None, None, now - 2 * InactivityWindow)];
    assert ActiveRooms(s, now - InactivityWindow) == {};
    FilterAll(s, (m: Message) => m.roomCode !in ActiveRooms(s, now - InactivityWindow));
  }
}
