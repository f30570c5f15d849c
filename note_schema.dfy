/**
 * The note record of backend/models/Note.js: one document per room, with a
 * required trimmed title, a content defaulting to the empty string, a required
 * unique room id, the required creator and last editor, and the two timestamps
 * the schema's `timestamps` option maintains.
 */
module NoteSchema {
  import opened Wrappers

  type RoomId = string

  /** An abstract clock value standing for the `createdAt`/`updatedAt` dates. */
  type Stamp = nat

  datatype Note = Note(
    title: string,
    content: string,
    roomId: RoomId,
    createdBy: string,
    lastEditedBy: string,
    createdAt: Stamp,
    updatedAt: Stamp)

  /** The schema paths that carry a `required` validator. */
  datatype Path = TitlePath | RoomIdPath | CreatedByPath | LastEditedByPath

  /** The characters JavaScript's String.prototype.trim removes: white space and line terminators. */
  predicate IsWhitespace(c: char) {
    || '\t' <= c <= '\r'
    || c == ' ' || c == '\U{00A0}' || c == '\U{1680}'
    || '\U{2000}' <= c <= '\U{200A}'
    || c == '\U{2028}' || c == '\U{2029}' || c == '\U{202F}' || c == '\U{205F}'
    || c == '\U{3000}' || c == '\U{FEFF}'
  }

  predicate AllWhitespace(s: string) {
    forall i :: 0 <= i < |s| ==> IsWhitespace(s[i])
  }

  /** No white space at either end. */
  predicate IsTrimmed(s: string) {
    s == [] || (!IsWhitespace(s[0]) && !IsWhitespace(s[|s| - 1]))
  }

  /** `s` without its leading white space. */
  function TrimStart(s: string): (r: string)
    ensures |r| <= |s| && r == s[|s| - |r|..]
    ensures AllWhitespace(s[..|s| - |r|])
    ensures r == [] || !IsWhitespace(r[0])
  {
    if s != [] && IsWhitespace(s[0]) then
      var r := TrimStart(s[1..]);
      assert forall i :: 1 <= i < |s| - |r| ==> s[i] == s[1..][..|s| - 1 - |r|][i - 1];
      r
    else s
  }

  /** `s` without its trailing white space. */
  function TrimEnd(s: string): (r: string)
    ensures |r| <= |s| && r == s[..|r|]
    ensures AllWhitespace(s[|r|..])
    ensures r == [] || !IsWhitespace(r[|r| - 1])
  {
    if s != [] && IsWhitespace(s[|s| - 1]) then
      var r := TrimEnd(s[..|s| - 1]);
      assert s[|r|..] == s[..|s| - 1][|r|..] + [s[|s| - 1]];
      r
    else s
  }

  /** The `trim: true` setter on the title path: the stored title has no white space at either end. */
  function Trim(s: string): (r: string)
    ensures |r| <= |s|
    ensures IsTrimmed(r)
  {
    var t := TrimStart(s);
    var r := TrimEnd(t);
    assert r != [] ==> r[0] == t[0];
    r
  }

  /** How many leading white-space characters `Trim` drops. */
  function Lead(s: string): nat {
    |s| - |TrimStart(s)|
  }

  /**
   * Trimming drops white space from the two ends and nothing else: `s` is the
   * trimmed string with white space before and after it.
   */
  lemma TrimSplit(s: string)
    ensures Lead(s) + |Trim(s)| <= |s|
    ensures s == s[..Lead(s)] + Trim(s) + s[Lead(s) + |Trim(s)|..]
    ensures AllWhitespace(s[..Lead(s)]) && AllWhitespace(s[Lead(s) + |Trim(s)|..])
  {
    var t, lead := TrimStart(s), Lead(s);
    var r := TrimEnd(t);
    assert s[lead + |r|..] == t[|r|..];
    SliceAround(s, t, r, lead);
  }

  /** `s` is its prefix, then `r`, then the rest, when `r` starts the suffix `t` of `s` at `lead`. */
  lemma SliceAround(s: string, t: string, r: string, lead: nat)
    requires lead <= |s| && t == s[lead..] && |r| <= |t| && r == t[..|r|]
    ensures s == s[..lead] + r + s[lead + |r|..]
  {
    assert s[lead + |r|..] == t[|r|..];
    assert t == r + t[|r|..];
    assert s == s[..lead] + t;
  }

  /** A title made only of white space trims to the empty string, and only such a title does. */
  lemma {:induction false} TrimEmptyIff(s: string)
    ensures Trim(s) == [] <==> AllWhitespace(s)
  {
    var t := TrimStart(s);
    var lead := |s| - |t|;
    if !AllWhitespace(s) {
      var i :| 0 <= i < |s| && !IsWhitespace(s[i]);
      assert i >= lead;
      assert t[i - lead] == s[i];
      assert TrimEnd(t) != [];
    }
  }

  /** Trimming an already trimmed string leaves it as it is, so trimming is idempotent. */
  lemma TrimIdempotent(s: string)
    ensures IsTrimmed(s) ==> Trim(s) == s
    ensures Trim(Trim(s)) == Trim(s)
  {
    if IsTrimmed(s) {
      TrimmedUnchanged(s);
    }
    TrimmedUnchanged(Trim(s));
  }

  /** Neither end of a trimmed string has anything to drop. */
  lemma TrimmedUnchanged(s: string)
    requires IsTrimmed(s)
    ensures Trim(s) == s
  {
    assert TrimStart(s) == s;
    assert TrimEnd(s) == s;
  }

  /** The stored shape the create route establishes and the patch route keeps. */
  predicate StoredShape(n: Note) {
    && n.title != [] && IsTrimmed(n.title)
    && n.roomId != []
    && n.createdBy != []
    && n.createdAt <= n.updatedAt
  }

  /** Every schema constraint on one document: the stored shape and a non-empty last editor. */
  predicate SchemaValid(n: Note) {
    StoredShape(n) && n.lastEditedBy != []
  }

  /**
   * The required validators that fail on `n`: a required string path fails
   * when it is absent or the empty string.
   */
  function MissingPaths(n: Note): (r: set<Path>)
    ensures TitlePath in r <==> n.title == []
    ensures RoomIdPath in r <==> n.roomId == []
    ensures CreatedByPath in r <==> n.createdBy == []
    ensures LastEditedByPath in r <==> n.lastEditedBy == []
  {
    (if n.title == [] then {TitlePath} else {})
    + (if n.roomId == [] then {RoomIdPath} else {})
    + (if n.createdBy == [] then {CreatedByPath} else {})
    + (if n.lastEditedBy == [] then {LastEditedByPath} else {})
  }

  /** The content `content || ''` stores: an absent or empty content becomes ''. */
  function ContentOrEmpty(content: Option<string>): (r: string)
    ensures content.Some? ==> r == content.value
    ensures content.None? ==> r == []
  {
    if content.None? || content.value == [] then [] else content.value
  }

  /**
   * A new document for the create route, stamped `now`, or the set of required
   * paths whose validation fails on save. An absent title or username is cast
   * like the empty string: both fail `required`, and by TrimEmptyIff a title
   * fails exactly when it is absent or all white space.
   */
  function Build(title: Option<string>, content: Option<string>, roomId: RoomId,
                 username: Option<string>, now: Stamp): (r: Result<Note, set<Path>>)
    ensures r.Ok? <==> title.Some? && Trim(title.value) != [] && roomId != []
                       && username.Some? && username.value != []
    ensures r.Ok? ==> && SchemaValid(r.value)
                      && r.value.title == Trim(title.value)
                      && r.value.content == (if content.Some? then content.value else [])
                      && r.value.roomId == roomId
                      && r.value.createdBy == username.value == r.value.lastEditedBy
                      && r.value.createdAt == now == r.value.updatedAt
    ensures r.Err? ==> && r.error != {}
                       && (TitlePath in r.error <==> title.None? || Trim(title.value) == [])
                       && (RoomIdPath in r.error <==> roomId == [])
                       && (CreatedByPath in r.error <==> username.None? || username.value == [])
                       && (LastEditedByPath in r.error <==> CreatedByPath in r.error)
  {
    var trimmed := if title.Some? then Trim(title.value) else [];
    var user := if username.Some? then username.value else [];
    var note := Note(trimmed, ContentOrEmpty(content), roomId, user, user, now, now);
    if trimmed != [] && roomId != [] && user != [] then
      Ok(note)
    else
      Err(MissingPaths(note))
  }

  /**
   * The document after the patch route's update: only the content and the
   * last editor are replaced, and the timestamps plugin moves `updatedAt` to
   * `now`. With a clock that does not go back, the stored shape is kept; no
   * validator runs on this update, so the result satisfies the schema exactly
   * when the editor's name is non-empty, whatever the previous editor was.
   */
  function Edited(n: Note, content: string, editor: string, now: Stamp): (r: Note)
    ensures r.content == content && r.lastEditedBy == editor && r.updatedAt == now
    ensures r.title == n.title && r.roomId == n.roomId && r.createdBy == n.createdBy
      && r.createdAt == n.createdAt
    ensures StoredShape(n) && n.updatedAt <= now ==> StoredShape(r)
    ensures StoredShape(n) && n.updatedAt <= now ==> (SchemaValid(r) <==> editor != [])
  {
    n.(content := content, lastEditedBy := editor, updatedAt := now)
  }
}
