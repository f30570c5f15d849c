/**
 * The presence table of backend/config/socket.js: the in-memory `roomUsers`
 * map from a room id to the ordered list of the connections that joined it,
 * and the three socket handlers that read or update it. Each handler returns
 * the events it broadcasts as data; who receives them is socket.io's concern.
 */
module RoomPresence {
  import opened Wrappers

  type ConnId = string
  type RoomId = string

  /** One entry of a room's list: the connection's socket id and the name it joined with. */
  datatype Member = Member(id: ConnId, username: string)

  datatype Event =
      /** `user_joined`, sent to the whole room. */
    | UserJoined(room: RoomId, message: string, users: seq<Member>)
      /** `note_updated`, sent to the room except the sending connection. */
    | NoteUpdated(room: RoomId, sender: ConnId, content: string, lastEditedBy: string, timestamp: nat)
      /** `user_left`, sent to the whole room. */
    | UserLeft(room: RoomId, message: string, users: seq<Member>)

  type Table = map<RoomId, seq<Member>>

  /** The table's invariant: a room is listed only while somebody is in it. */
  predicate NoEmptyRooms(t: Table) {
    forall room :: room in t ==> t[room] != []
  }

  /** How many entries of `users` belong to connection `id`. */
  function Count(users: seq<Member>, id: ConnId): nat {
    if users == [] then 0
    else (if users[0].id == id then 1 else 0) + Count(users[1..], id)
  }

  /** `findIndex(user => user.id === id)`: the first entry of the connection, if any. */
  function FirstIndex(users: seq<Member>, id: ConnId): (r: Option<nat>)
    ensures r.Some? ==> r.value < |users| && users[r.value].id == id
    ensures r.Some? ==> forall j :: 0 <= j < r.value ==> users[j].id != id
    ensures r.None? <==> forall j :: 0 <= j < |users| ==> users[j].id != id
  {
    if users == [] then None
    else if users[0].id == id then Some(0)
    else
      match FirstIndex(users[1..], id)
      case None => None
      case Some(i) => Some(i + 1)
  }

  /** `splice(i, 1)`: the list without its `i`-th entry. */
  function RemoveAt(users: seq<Member>, i: nat): (r: seq<Member>)
    requires i < |users|
    ensures |r| == |users| - 1
    ensures forall j :: 0 <= j < i ==> r[j] == users[j]
    ensures forall j :: i <= j < |r| ==> r[j] == users[j + 1]
  {
    users[..i] + users[i + 1..]
  }

  /** The table after connection `m.id` joins `room` under the name `m.username`. */
  function Joined(t: Table, room: RoomId, m: Member): (r: Table)
    ensures r.Keys == t.Keys + {room}
    ensures room !in t ==> r[room] == [m]
    ensures room in t ==> |r[room]| == |t[room]| + 1 && r[room][..|t[room]|] == t[room] && r[room][|t[room]|] == m
    ensures forall other :: other in t && other != room ==> r[other] == t[other]
  {
    t[room := (if room in t then t[room] else []) + [m]]
  }

  /**
   * A room's list after the disconnect handler: unchanged when the connection
   * has no entry, otherwise without the connection's first entry.
   */
  function Remaining(users: seq<Member>, id: ConnId): (r: seq<Member>)
    ensures Count(users, id) == 0 ==> r == users
    ensures Count(users, id) > 0 ==> |r| == |users| - 1
  {
    CountZero(users, id);
    match FirstIndex(users, id)
    case None => users
    case Some(i) => RemoveAt(users, i)
  }

  /** The table after connection `id` disconnects: rooms left empty are deleted. */
  function Disconnected(t: Table, id: ConnId): (r: Table)
    ensures NoEmptyRooms(r)
    ensures r.Keys <= t.Keys
  {
    map room | room in t && Remaining(t[room], id) != [] :: Remaining(t[room], id)
  }

  /**
   * Disconnect changes only the rooms that held the connection, and deletes
   * a room exactly when its one entry was the connection's.
   */
  lemma DisconnectedRoom(t: Table, id: ConnId, room: RoomId)
    requires NoEmptyRooms(t) && room in t
    ensures Count(t[room], id) == 0 ==> room in Disconnected(t, id) && Disconnected(t, id)[room] == t[room]
    ensures room !in Disconnected(t, id) <==> t[room] == [t[room][0]] && t[room][0].id == id
  {
    CountZero(t[room], id);
    match FirstIndex(t[room], id)
    case None =>
    case Some(i) =>
      if |t[room]| == 1 {
        assert t[room] == [t[room][0]];
      }
  }

  /** The `user_left` event the disconnect handler sends to `room`, if the connection was in it. */
  function LeftEvent(t: Table, id: ConnId, room: RoomId): (r: Option<Event>)
    requires room in t
    ensures r.None? <==> Count(t[room], id) == 0
    ensures r.Some? ==> r.value.UserLeft? && r.value.room == room && r.value.users == Remaining(t[room], id)
  {
    CountZero(t[room], id);
    match FirstIndex(t[room], id)
    case None => None
    case Some(i) => Some(UserLeft(room, t[room][i].username + " left the room", RemoveAt(t[room], i)))
  }

  /**
   * The name in a `user_left` message is the one the connection's first
   * entry in the room was listed under.
   */
  lemma LeftEventName(t: Table, id: ConnId, room: RoomId)
    requires room in t && LeftEvent(t, id, room).Some?
    ensures exists i :: && 0 <= i < |t[room]| && t[room][i].id == id
                        && (forall j :: 0 <= j < i ==> t[room][j].id != id)
                        && LeftEvent(t, id, room).value.message == t[room][i].username + " left the room"
  {
    var i := FirstIndex(t[room], id).value;
    assert t[room][i].id == id;
  }

  /**
   * The table part-way through the disconnect handler's walk: the rooms in
   * `done` are visited, the others are as they were.
   */
  function DisconnectedOn(t: Table, id: ConnId, done: set<RoomId>): Table {
    map room | room in t && (room !in done || Remaining(t[room], id) != []) ::
      if room in done then Remaining(t[room], id) else t[room]
  }

  /** Visiting one more room applies that room's removal and nothing else. */
  lemma DisconnectedOnStep(t: Table, id: ConnId, done: set<RoomId>, room: RoomId)
    requires room in t && room !in done
    ensures room in DisconnectedOn(t, id, done) && DisconnectedOn(t, id, done)[room] == t[room]
    ensures DisconnectedOn(t, id, done + {room}) ==
      if Remaining(t[room], id) != [] then DisconnectedOn(t, id, done)[room := Remaining(t[room], id)]
      else DisconnectedOn(t, id, done) - {room}
  {
  }

  /** Appending an entry adds one to its connection's count and nothing to the others'. */
  lemma {:induction false} CountAppend(users: seq<Member>, m: Member, id: ConnId)
    ensures Count(users + [m], id) == Count(users, id) + (if m.id == id then 1 else 0)
  {
    if users != [] {
      assert (users + [m])[1..] == users[1..] + [m];
      CountAppend(users[1..], m, id);
    }
  }

  /** The count of a connection in a list is zero exactly when no entry belongs to it. */
  lemma {:induction false} CountZero(users: seq<Member>, id: ConnId)
    ensures Count(users, id) == 0 <==> forall j :: 0 <= j < |users| ==> users[j].id != id
  {
    if users != [] {
      CountZero(users[1..], id);
      assert forall j :: 1 <= j < |users| ==> users[j] == users[1..][j - 1];
    }
  }

  /** Removing the `i`-th entry lowers only its own connection's count, by one. */
  lemma {:induction false} CountRemoveAt(users: seq<Member>, i: nat, id: ConnId)
    requires i < |users|
    ensures Count(users, id) == Count(RemoveAt(users, i), id) + (if users[i].id == id then 1 else 0)
  {
    if i > 0 {
      assert RemoveAt(users, i)[1..] == RemoveAt(users[1..], i - 1);
      CountRemoveAt(users[1..], i - 1, id);
    } else {
      assert RemoveAt(users, 0) == users[1..];
    }
  }

  /**
   * The disconnect handler removes at most one entry per room: the
   * connection's count drops by one where it was present, no other
   * connection's count changes, and the order of what stays is kept.
   */
  lemma RemainingCount(users: seq<Member>, id: ConnId, other: ConnId)
    ensures Count(Remaining(users, id), id) == if Count(users, id) > 0 then Count(users, id) - 1 else 0
    ensures other != id ==> Count(Remaining(users, id), other) == Count(users, other)
    ensures FirstIndex(users, id).Some? ==>
      Remaining(users, id) == users[..FirstIndex(users, id).value] + users[FirstIndex(users, id).value + 1..]
  {
    CountZero(users, id);
    match FirstIndex(users, id)
    case None =>
      assert Remaining(users, id) == users;
    case Some(i) =>
      assert Remaining(users, id) == RemoveAt(users, i) == users[..i] + users[i + 1..];
      CountRemoveAt(users, i, id);
      CountRemoveAt(users, i, other);
  }

  /**
   * Joining never de-duplicates: whatever the room held, the joining
   * connection has one more entry in it than before.
   */
  lemma JoinNeverDeduplicates(t: Table, room: RoomId, m: Member)
    ensures Count(Joined(t, room, m)[room], m.id) == (if room in t then Count(t[room], m.id) else 0) + 1
  {
    CountAppend(if room in t then t[room] else [], m, m.id);
  }

  /**
   * A connection that is in no room, joins one and disconnects leaves the
   * table as it found it: its entry is the one removed, and a room it created
   * is deleted again.
   */
  lemma JoinThenDisconnect(t: Table, room: RoomId, m: Member)
    requires NoEmptyRooms(t)
    requires forall r :: r in t ==> Count(t[r], m.id) == 0
    ensures Disconnected(Joined(t, room, m), m.id) == t
  {
    var joined := Joined(t, room, m);
    forall r | r in t
      ensures Remaining(t[r], m.id) == t[r]
    {
      CountZero(t[r], m.id);
    }
    var before := if room in t then t[room] else [];
    CountZero(before, m.id);
    assert joined[room] == before + [m];
    var i := FirstIndex(joined[room], m.id);
    assert i == Some(|before|);
    assert Remaining(joined[room], m.id) == before;
  }

  /**
   * Joining twice and disconnecting once leaves a stale entry: the room is
   * still listed and still holds the connection.
   */
  lemma DoubleJoinLeavesStaleEntry(t: Table, room: RoomId, m: Member)
    ensures room in Disconnected(Joined(Joined(t, room, m), room, m), m.id)
    ensures Count(Disconnected(Joined(Joined(t, room, m), room, m), m.id)[room], m.id) >= 1
  {
    var once := Joined(t, room, m);
    var twice := Joined(once, room, m);
    JoinNeverDeduplicates(t, room, m);
    JoinNeverDeduplicates(once, room, m);
    RemainingCount(twice[room], m.id, m.id);
  }

  /** The property names a plain JavaScript object inherits from Object.prototype. */
  const InheritedNames: set<string> := {
    "constructor", "__proto__", "hasOwnProperty", "isPrototypeOf", "propertyIsEnumerable",
    "toLocaleString", "toString", "valueOf",
    "__defineGetter__", "__defineSetter__", "__lookupGetter__", "__lookupSetter__"
  }

  /** What reading `roomUsers[roomId]` on a plain object gives. */
  datatype Slot =
      /** the room's own list */
    | Own(users: seq<Member>)
      /** a property inherited from Object.prototype: a function or an object */
    | Inherited
      /** `undefined` */
    | Undefined

  /** Property lookup: the object's own property first, then Object.prototype. */
  function Lookup(t: Table, room: RoomId): Slot {
    if room in t then Own(t[room])
    else if room in InheritedNames then Inherited
    else Undefined
  }

  /** JavaScript truthiness of a looked-up value: arrays (even empty), functions and objects are truthy. */
  predicate Truthy(v: Slot) {
    !v.Undefined?
  }

  /**
   * The join handler's table update as the source writes it, over a plain
   * object, step by step: `if (!roomUsers[roomId]) roomUsers[roomId] = []`,
   * then `roomUsers[roomId].push(...)`. `push` exists only on an own list;
   * on an inherited value it is not a function and the handler throws a
   * TypeError (None) before the member is recorded or `user_joined` is sent.
   */
  function JoinAsWritten(t: Table, room: RoomId, m: Member): (r: Option<Table>)
    ensures r.None? <==> room !in t && room in InheritedNames
    ensures r.Some? ==> r.value == Joined(t, room, m)
  {
    var t1 := if !Truthy(Lookup(t, room)) then t[room := []] else t;
    match Lookup(t1, room)
    case Own(users) => Some(t1[room := users + [m]])
    case Inherited => None
    case Undefined => None
  }

  /** The first join of a room named "constructor" throws, where `Joined` creates the room. */
  lemma JoinAsWrittenFailsOnConstructor(m: Member)
    ensures JoinAsWritten(map[], "constructor", m) == None
    ensures Joined(map[], "constructor", m) == map["constructor" := [m]]
  {
  }

  class RoomTable {
    /** `roomUsers`. */
    var rooms: Table

    ghost predicate Valid()
      reads this
    {
      NoEmptyRooms(rooms)
    }

    constructor ()
      ensures Valid() && rooms == map[]
    {
      rooms := map[];
    }

    /**
     * `join_room`: creates the room on first use, appends the connection at
     * the end of its list and announces the new list to the room.
     */
    method Join(id: ConnId, room: RoomId, username: string) returns (e: Event)
      requires Valid()
      modifies this
      ensures Valid()
      ensures rooms == Joined(old(rooms), room, Member(id, username))
      ensures e == UserJoined(room, username + " joined the room", rooms[room])
    {
      if room !in rooms {
        rooms := rooms[room := []];
      }
      rooms := rooms[room := rooms[room] + [Member(id, username)]];
      e := UserJoined(room, username + " joined the room", rooms[room]);
    }

    /**
     * `update_note`: relays the new content to the rest of the room, naming
     * the sender as its last editor; the table is not touched.
     */
    method UpdateNote(id: ConnId, room: RoomId, content: string, username: string, now: nat)
      returns (e: Event)
      ensures e.NoteUpdated? && e.room == room && e.sender == id
      ensures e.content == content && e.lastEditedBy == username && e.timestamp == now
    {
      e := NoteUpdated(room, id, content, username, now);
    }

    /**
     * `disconnect`: visits every room listed when the connection closes,
     * removes the connection's first entry from each room that has one,
     * announces each such room's new list, and deletes rooms left empty.
     */
    method Disconnect(id: ConnId) returns (events: seq<Event>)
      requires Valid()
      modifies this
      ensures Valid()
      ensures rooms == Disconnected(old(rooms), id)
      ensures forall e :: e in events ==> e.UserLeft? && e.room in old(rooms) && LeftEvent(old(rooms), id, e.room) == Some(e)
      ensures forall room :: room in old(rooms) && LeftEvent(old(rooms), id, room).Some? ==>
        LeftEvent(old(rooms), id, room).value in events
      ensures forall i, j :: 0 <= i < j < |events| ==> events[i].room != events[j].room
    {
      ghost var start := rooms;
      var keys := rooms.Keys;
      var rest := keys;
      events := [];
      while rest != {}
        invariant rest <= keys == start.Keys
        invariant rooms == DisconnectedOn(start, id, keys - rest)
        invariant forall e :: e in events ==> e.UserLeft? && e.room in keys - rest && LeftEvent(start, id, e.room) == Some(e)
        invariant forall room :: room in keys - rest && LeftEvent(start, id, room).Some? ==>
          LeftEvent(start, id, room).value in events
        invariant forall i, j :: 0 <= i < j < |events| ==> events[i].room != events[j].room
        decreases rest
      {
        var room :| room in rest;
        DisconnectedOnStep(start, id, keys - rest, room);
        assert keys - rest + {room} == keys - (rest - {room});
        var users := rooms[room];
        var index := FirstIndex(users, id);
        assert index.None? ==> LeftEvent(start, id, room).None?;
        if index.Some? {
          var username := users[index.value].username;
          users := RemoveAt(users, index.value);
          rooms := rooms[room := users];
          var left := UserLeft(room, username + " left the room", users);
          assert LeftEvent(start, id, room) == Some(left);
          events := events + [left];
          if users == [] {
            rooms := rooms - {room};
          }
        }
        rest := rest - {room};
      }
      assert keys - rest == keys;
      assert rooms == Disconnected(start, id);
    }
  }
}
