/**
 * The note routes of backend/routes/noteRoutes.js over an abstract document
 * store: the collection is a map from room id to the one note of that room,
 * and each handler runs atomically against it. A response is a status code
 * and a JSON body.
 */
module NoteRoutes {
  import opened Wrappers
  import opened NoteSchema

  datatype Body =
    | One(note: Note)
    | Many(notes: seq<Note>)
    | Message(text: string)
      /** A failed save: the required paths whose validators rejected the document. */
    | Invalid(missing: set<Path>)

  datatype Response = Response(status: nat, body: Body)

  const NotFoundMessage: string := "Note not found"
  const DuplicateMessage: string := "Note with this room ID already exists"

  /** Ordered as `sort({ updatedAt: -1 })` orders: most recently updated first. */
  predicate NewestFirst(s: seq<Note>) {
    forall i, j :: 0 <= i < j < |s| ==> s[i].updatedAt >= s[j].updatedAt
  }

  /** Places `n` into a newest-first sequence, keeping it newest first. */
  function InsertByRecency(n: Note, s: seq<Note>): (r: seq<Note>)
    requires NewestFirst(s)
    ensures NewestFirst(r)
    ensures multiset(r) == multiset(s) + multiset{n}
    ensures r[0] == n || r[0] == s[0]
  {
    if s == [] || n.updatedAt >= s[0].updatedAt then
      PrependNewest(n, s);
      [n] + s
    else
      var rest := InsertByRecency(n, s[1..]);
      assert s == [s[0]] + s[1..];
      PrependNewest(s[0], rest);
      [s[0]] + rest
  }

  /** A note no older than the head of a newest-first sequence may go in front of it. */
  lemma PrependNewest(x: Note, s: seq<Note>)
    requires NewestFirst(s)
    requires s != [] ==> x.updatedAt >= s[0].updatedAt
    ensures NewestFirst([x] + s)
  {
    assert forall j :: 0 <= j < |s| ==> s[0].updatedAt >= s[j].updatedAt;
  }

  /**
   * The collection's invariant: each note is filed under its own room id, so
   * no two notes share a room id (the `unique` index); each has the shape the
   * create route gives it; and every update stamp is earlier than the clock.
   */
  ghost predicate StoreInvariant(notes: map<RoomId, Note>, clock: Stamp) {
    forall k :: k in notes ==> notes[k].roomId == k && StoredShape(notes[k]) && notes[k].updatedAt < clock
  }

  /** Under the invariant, two stored notes with the same room id are the same entry. */
  lemma UniqueRoomIds(notes: map<RoomId, Note>, clock: Stamp, a: RoomId, b: RoomId)
    requires StoreInvariant(notes, clock)
    requires a in notes && b in notes && notes[a].roomId == notes[b].roomId
    ensures a == b && notes[a] == notes[b]
  {
  }

  /** Saving a note with the stored shape under its own room id, stamped before the next tick, keeps the invariant. */
  lemma SaveKeepsInvariant(notes: map<RoomId, Note>, clock: Stamp, n: Note)
    requires StoreInvariant(notes, clock)
    requires StoredShape(n) && n.updatedAt == clock
    ensures StoreInvariant(notes[n.roomId := n], clock + 1)
  {
  }

  class NoteStore {
    /** The note collection, keyed by room id. */
    var notes: map<RoomId, Note>
    /** The clock the timestamps plugin reads; it advances on every write. */
    var clock: Stamp

    ghost predicate Valid()
      reads this
    {
      StoreInvariant(notes, clock)
    }

    constructor ()
      ensures Valid() && notes == map[]
    {
      notes := map[];
      clock := 0;
    }

    /** GET /: every note, most recently updated first. */
    method List() returns (r: Response)
      requires Valid()
      ensures r.status == 200 && r.body.Many?
      ensures NewestFirst(r.body.notes)
      ensures multiset(r.body.notes) == multiset(notes.Values)
    {
      var sorted: seq<Note> := [];
      var rest := notes.Keys;
      while rest != {}
        invariant rest <= notes.Keys
        invariant NewestFirst(sorted)
        invariant multiset(sorted) == multiset(set k | k in notes.Keys - rest :: notes[k])
        decreases rest
      {
        var k :| k in rest;
        ghost var before := set j | j in notes.Keys - rest :: notes[j];
        assert notes[k] !in before;
        assert (set j | j in notes.Keys - (rest - {k}) :: notes[j]) == before + {notes[k]};
        sorted := InsertByRecency(notes[k], sorted);
        rest := rest - {k};
      }
      assert (set k | k in notes.Keys - rest :: notes[k]) == notes.Values;
      r := Response(200, Many(sorted));
    }

    /** GET /:roomId: the stored note, or 404 when the room has none. */
    method Get(roomId: RoomId) returns (r: Response)
      ensures roomId in notes ==> r == Response(200, One(notes[roomId]))
      ensures roomId !in notes ==> r == Response(404, Message(NotFoundMessage))
    {
      if roomId !in notes {
        return Response(404, Message(NotFoundMessage));
      }
      r := Response(200, One(notes[roomId]));
    }

    /**
     * POST /: a duplicate room id is refused with 400; otherwise the note is
     * built and validated, and saved with 201 or refused with 400.
     */
    method Create(title: Option<string>, content: Option<string>, roomId: RoomId, username: Option<string>)
      returns (r: Response)
      requires Valid()
      modifies this
      ensures Valid()
      ensures roomId in old(notes) ==>
        r == Response(400, Message(DuplicateMessage)) && notes == old(notes) && clock == old(clock)
      ensures roomId !in old(notes) ==>
        match Build(title, content, roomId, username, old(clock))
        case Ok(n) => r == Response(201, One(n)) && notes == old(notes)[roomId := n] && clock == old(clock) + 1
        case Err(missing) => r == Response(400, Invalid(missing)) && notes == old(notes) && clock == old(clock)
    {
      if roomId in notes {
        return Response(400, Message(DuplicateMessage));
      }
      var built := Build(title, content, roomId, username, clock);
      if built.Err? {
        return Response(400, Invalid(built.error));
      }
      var n := built.value;
      Save(n);
      r := Response(201, One(n));
    }

    /** `note.save()` of a new note stamped with the current clock: files it under its room id and ticks. */
    method Save(n: Note)
      requires Valid() && StoredShape(n) && n.updatedAt == clock
      modifies this
      ensures Valid()
      ensures notes == old(notes)[n.roomId := n] && clock == old(clock) + 1
    {
      SaveKeepsInvariant(notes, clock, n);
      notes := notes[n.roomId := n];
      clock := clock + 1;
    }

    /**
     * PATCH /:roomId: replaces the content and the last editor of the room's
     * note and answers with the updated note, or 404 when the room has none.
     */
    method Patch(roomId: RoomId, content: string, username: string) returns (r: Response)
      requires Valid()
      modifies this
      ensures Valid()
      ensures roomId !in old(notes) ==>
        r == Response(404, Message(NotFoundMessage)) && notes == old(notes) && clock == old(clock)
      ensures roomId in old(notes) ==>
        && notes == old(notes)[roomId := Edited(old(notes[roomId]), content, username, old(clock))]
        && r == Response(200, One(notes[roomId]))
        && clock == old(clock) + 1
    {
      if roomId !in notes {
        return Response(404, Message(NotFoundMessage));
      }
      var updated := Edited(notes[roomId], content, username, clock);
      notes := notes[roomId := updated];
      clock := clock + 1;
      r := Response(200, One(updated));
    }
  }

  /**
   * Create, then fetch the same room: a saved note is exactly what the get
   * route returns, and a refused fresh room stays absent.
   */
  method CreateThenGet(store: NoteStore, title: Option<string>, content: Option<string>,
                       roomId: RoomId, username: Option<string>)
    returns (created: Response, fetched: Response)
    requires store.Valid()
    modifies store
    ensures store.Valid()
    ensures created.status == 201 ==> created.body.One? && fetched == Response(200, created.body)
    ensures created.status != 201 && roomId !in old(store.notes) ==>
      fetched == Response(404, Message(NotFoundMessage))
  {
    created := store.Create(title, content, roomId, username);
    fetched := store.Get(roomId);
  }

  /**
   * Patch, then fetch the same room: the get route returns the patched note,
   * which keeps the title, room id and creator it had before.
   */
  method PatchThenGet(store: NoteStore, roomId: RoomId, content: string, username: string)
    returns (patched: Response, fetched: Response)
    requires store.Valid()
    modifies store
    ensures store.Valid()
    ensures patched == fetched
    ensures roomId in old(store.notes) ==>
      && fetched.status == 200 && fetched.body.One?
      && fetched.body.note.content == content && fetched.body.note.lastEditedBy == username
      && fetched.body.note.title == old(store.notes[roomId]).title
      && fetched.body.note.roomId == roomId
      && fetched.body.note.createdBy == old(store.notes[roomId]).createdBy
  {
    patched := store.Patch(roomId, content, username);
    fetched := store.Get(roomId);
  }
}
