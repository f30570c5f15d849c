# Shared notes: presence table and note store

A Dafny model of the two pieces of logic in a small real-time note-sharing
server (Express, socket.io and Mongoose):

- **The presence table** (`backend/config/socket.js`, module `RoomPresence`,
  file `room_presence.dfy`). `roomUsers` maps a room id to the ordered list of
  `{id, username}` entries of the connections that joined it. It is the class
  `RoomTable` with a `map<RoomId, seq<Member>>` field. The handlers
  `join_room`, `update_note` and `disconnect` are the methods `Join`,
  `UpdateNote` and `Disconnect`. Each returns the events it broadcasts
  (`user_joined`, `note_updated`, `user_left`) as data. The table's invariant
  is that every listed room has a non-empty list (`NoEmptyRooms`). The
  specification functions `Joined` and `Disconnected` give the table after
  each handler. `Count`, `FirstIndex`, `RemoveAt` and `Remaining` describe the
  `findIndex` and `splice` steps, and `LeftEvent` gives the `user_left` event of
  one room.
- **The note record** (`backend/models/Note.js`, module `NoteSchema`, file
  `note_schema.dfy`). It has the `Note` datatype and the `trim` setter as
  JavaScript's `String.prototype.trim` (`Trim`). `MissingPaths` gives the
  `required` validators that fail. `Build` is the create route's document with
  its defaults. `Edited` is the patch route's update. Timestamps are values of
  an abstract clock (`Stamp`).
- **The note routes** (`backend/routes/noteRoutes.js`, module `NoteRoutes`,
  file `note_routes.dfy`). The collection is the class `NoteStore`. It holds a
  `map<RoomId, Note>` and the clock, which advances on every write. The four
  handlers are the methods `List`, `Get`, `Create` and `Patch`. A response is a
  status code and a body. The body is one note, a list of notes, a message, or
  the set of paths that failed validation. The store's invariant
  (`StoreInvariant`) files each note under its own room id. So no two notes
  share a room id. Each stored note has a trimmed non-empty title, a room id
  and a creator, and `createdAt <= updatedAt < clock`.

`wrappers.dfy` holds the `Option` and `Result` types.

## Model

| member | source | states |
|---|---|---|
| `RoomPresence.FirstIndex` | backend/config/socket.js:45 | `findIndex`: the result is the first entry whose id is the connection's; it is None exactly when no entry matches |
| `RoomPresence.RemoveAt` | backend/config/socket.js:49 | `splice(i, 1)`: one entry fewer; the entries before `i` are kept in place and those after move down by one |
| `RoomPresence.Joined` | backend/config/socket.js:13-18 | the table after a join: a room that was absent becomes exactly `[{id, username}]`; otherwise the list grows by one at the end with earlier entries unchanged; the key set gains the room; other rooms are unchanged |
| `RoomPresence.Remaining` | backend/config/socket.js:45-49 | `findIndex` then `splice`: a list without an entry for the connection is unchanged; otherwise it loses exactly one entry |
| `RoomPresence.LeftEvent` | backend/config/socket.js:48-55 | a room gets a `user_left` event exactly when it holds an entry for the connection; the event names the room and carries the list after the removal |
| `RoomPresence.LeftEventName` | backend/config/socket.js:48-55 | the name in the `user_left` message is the username of the connection's first entry in the room, followed by `" left the room"` |
| `RoomPresence.Disconnected` | backend/config/socket.js:44-60 | the table after a disconnect has no empty room and no room that was not there before |
| `RoomPresence.DisconnectedRoom` | backend/config/socket.js:44-60 | a room without an entry for the connection keeps its list unchanged; a room is deleted exactly when its only entry was the connection's |
| `RoomPresence.CountAppend` | backend/config/socket.js:18 | appending an entry adds one to that connection's count and leaves other connections' counts unchanged |
| `RoomPresence.CountZero` | backend/config/socket.js:45-47 | a connection's count is zero exactly when `findIndex` finds no entry for it |
| `RoomPresence.CountRemoveAt` | backend/config/socket.js:49 | `splice` of entry `i` lowers the count of that entry's connection by one and no other count |
| `RoomPresence.RemainingCount` | backend/config/socket.js:45-49 | disconnect removes at most one entry per room: the connection's count drops by one if it was present, other connections keep their counts, and the rest of the list keeps its order |
| `RoomPresence.JoinNeverDeduplicates` | backend/config/socket.js:18 | joining never de-duplicates: the joining connection always has one more entry in the room than before, even if it was already listed |
| `RoomPresence.JoinThenDisconnect` | backend/config/socket.js:13-60 | if a connection is in no room, joins one and then disconnects, the table is as it was before, and a room it created is deleted again |
| `RoomPresence.DoubleJoinLeavesStaleEntry` | backend/config/socket.js:18-59 | after two joins and one disconnect the room is still listed and still holds the connection |
| `RoomPresence.JoinAsWritten` | backend/config/socket.js:13-18 | the join as written, step by step over a plain object (own-then-inherited lookup, the `!` truthiness test, then `push`): it throws exactly when the room is not yet listed and its id names an inherited `Object.prototype` property; otherwise it gives `Joined` |
| `RoomPresence.JoinAsWrittenFailsOnConstructor` | backend/config/socket.js:13-18 | the first join of room `"constructor"` throws as written, while `Joined` creates the room with the member |
| `RoomPresence.RoomTable.constructor` | backend/config/socket.js:3 | the table starts empty and satisfies the invariant |
| `RoomPresence.RoomTable.Join` | backend/config/socket.js:9-27 | keeps the no-empty-room invariant; the new table is `Joined(old table, room, {id, username})`; emits `user_joined` with `username + " joined the room"` and the room's list after the append |
| `RoomPresence.RoomTable.UpdateNote` | backend/config/socket.js:30-37 | emits `note_updated` for the room, excluding the sender, with the content, `lastEditedBy` set to the sender's username, and the timestamp; the table is not modified |
| `RoomPresence.RoomTable.Disconnect` | backend/config/socket.js:40-63 | keeps the invariant; the new table is `Disconnected(old table, id)`; emits exactly one `user_left` for each room that held the connection and none for other rooms; each event carries the list after removal and `username + " left the room"`, where the username is taken from the removed entry |
| `NoteSchema.TrimStart` | backend/models/Note.js:4-8 | what is dropped is leading white space, and the result is a suffix that does not start with white space |
| `NoteSchema.TrimEnd` | backend/models/Note.js:4-8 | what is dropped is trailing white space, and the result is a prefix that does not end with white space |
| `NoteSchema.Trim` | backend/models/Note.js:7 | the `trim: true` setter: the stored title is no longer than the given one and has no white space at either end |
| `NoteSchema.TrimSplit` | backend/models/Note.js:4-8 | the original title is the trimmed title with white space before and after it; nothing else is removed |
| `NoteSchema.TrimEmptyIff` | backend/models/Note.js:4-8 | a title trims to the empty string (and so fails `required`) exactly when it is all white space |
| `NoteSchema.TrimmedUnchanged` | backend/models/Note.js:7 | a string with no white space at either end is left as it is by the setter |
| `NoteSchema.TrimIdempotent` | backend/models/Note.js:4-8 | trimming a trimmed title changes nothing, so trimming twice is the same as trimming once |
| `NoteSchema.MissingPaths` | backend/models/Note.js:4-25 | a required path (title, roomId, createdBy, lastEditedBy) is reported exactly when its value is empty |
| `NoteSchema.ContentOrEmpty` | backend/routes/noteRoutes.js:41 | `content \|\| ''`: a given content is stored as it is (an empty one stays empty), and a missing one becomes `''` |
| `NoteSchema.Build` | backend/routes/noteRoutes.js:39-47 | the document the create route saves: accepted exactly when the title is present and does not trim to empty, the room id is non-empty, and the username is present and non-empty; the saved note meets every schema constraint; it has the trimmed title, content `''` when none is given, and `createdBy == lastEditedBy == username`; both timestamps are `now`; a rejection names exactly the failing required paths |
| `NoteSchema.Edited` | backend/routes/noteRoutes.js:59-66 | only `content`, `lastEditedBy` and `updatedAt` change; title, room id, creator and `createdAt` are kept; if `now` is not earlier than `updatedAt`, the stored shape is kept, and since no validator runs, the result meets the schema exactly when the new editor name is non-empty, whatever the previous editor name was |
| `NoteRoutes.InsertByRecency` | backend/routes/noteRoutes.js:8 | inserting into a newest-first list keeps it newest first and adds exactly that note |
| `NoteRoutes.UniqueRoomIds` | backend/models/Note.js:13-17 | under the store invariant, two stored notes with the same room id are the same entry |
| `NoteRoutes.NoteStore.constructor` | backend/models/Note.js:30 | a fresh, empty collection satisfies the store invariant; the collection is persistent, so every handler assumes only the invariant and its contract holds for any existing collection that satisfies it |
| `NoteRoutes.NoteStore.List` | backend/routes/noteRoutes.js:6-13 | status 200 with every stored note exactly once (multiset equal to the stored values), ordered by `updatedAt`, newest first |
| `NoteRoutes.SaveKeepsInvariant` | backend/routes/noteRoutes.js:47 | saving a note with the stored shape under its own room id, stamped with the current clock, keeps the store invariant once the clock ticks |
| `NoteRoutes.NoteStore.Save` | backend/routes/noteRoutes.js:47 | `save()` of a new note: it is filed under its room id and no other key, the clock ticks, and the invariant is kept |
| `NoteRoutes.NoteStore.Get` | backend/routes/noteRoutes.js:16-26 | status 200 with the stored note unchanged, or 404 `Note not found` when the room has no note |
| `NoteRoutes.NoteStore.Create` | backend/routes/noteRoutes.js:29-52 | a duplicate room id gives 400 `Note with this room ID already exists` and changes nothing; otherwise `Build` decides: 201 with the note, inserted under its room id and no other key, or 400 with the failing paths and no change; the invariant is kept |
| `NoteRoutes.NoteStore.Patch` | backend/routes/noteRoutes.js:55-76 | an absent room gives 404 `Note not found` and changes nothing; otherwise only that room's note becomes `Edited(...)` and is returned with 200; every other note is unchanged; the invariant is kept |
| `NoteRoutes.CreateThenGet` | backend/routes/noteRoutes.js:16-52 | a note saved by create is exactly what get then returns for its room; a new room whose create was refused stays absent |
| `NoteRoutes.PatchThenGet` | backend/routes/noteRoutes.js:16-76 | get returns exactly the patch response; after a patch of an existing room it has the new content and editor and the old title, room id and creator |

## Left out

- Transport: the HTTP router, socket.io connections, `socket.join`, delivery of events to the room or to everyone but the sender, and logging. Events are returned as data. The recipients are given only by the event's room and, for `note_updated`, by the excluded sender.
- `server.js`, the React client (`App.jsx`, `Home.jsx`, `NoteEditor.jsx` with its 500 ms debounce, `socketContext.jsx`). These are wiring and UI.
- Database errors in all four handlers: list and get answer them with 500, create and patch with 400 (their catch blocks report every error, database ones included, as 400). Real `Date` values are left out too: timestamps are an abstract clock that advances on every write, and `update_note`'s `new Date()` is a parameter.
- Concurrency. Each handler is atomic, so the race between create's `findOne` and `save`, and the duplicate-key error it could cause, is not modelled.
- The exact text of Mongoose's validation error message. The model reports the set of required paths that failed.
- A create request without a `roomId`. Its duplicate check depends on how the driver treats `undefined` in a filter. The model takes the room id as a string, and an empty one fails `required`.
- Patch requests with missing `content` or `username`. Whether `findOneAndUpdate` stores or drops undefined fields depends on the Mongoose version. The model takes both as strings.
- Request values that are not strings, and the casts Mongoose would apply to them. A `username` missing from a socket payload shows as `"undefined"` in the messages; the model takes socket payload fields as strings.
- The order of `user_left` events. `Object.keys` gives integer-like ids in ascending order and then other ids in insertion order. The model promises each affected room exactly one event, with no order.
- The order of `List` among notes with equal `updatedAt`. MongoDB leaves it unspecified, and so does the model.
- RoomPresence.RoomTable.Join: does not model a room id that names an inherited `Object.prototype` property, where the source throws (see Findings). `JoinAsWritten` models that case.

## Findings

| source | as written | input that shows it | evidently intended | confidence | as-written member | corrected member |
|---|---|---|---|---|---|---|
| backend/config/socket.js:13-18 | `roomUsers` is a plain object. `!roomUsers[roomId]` reads an inherited `Object.prototype` property, which is truthy. So no list is created, and `.push` throws a TypeError before the member is recorded or `user_joined` is sent. | `join_room` with room id `"constructor"` (also `"toString"`, `"__proto__"`, …) on a table without that room | the room is created with the joining member, as for any other id | high; not executed | `RoomPresence.JoinAsWritten`, `RoomPresence.JoinAsWrittenFailsOnConstructor` | `RoomPresence.RoomTable.Join` (via `RoomPresence.Joined`) |
