/**
  The persisted entities, the request payloads, the store of two tables, and
  the HTTP outcome every controller action produces.

  An entity's `Id` is its key in the store's map, so the records carry no id
  field of their own. The note's creation timestamp (server clock) is omitted.
*/
module Models {
  import opened Nullable

  /** A row of the Users table. */
  datatype User = User(nickname: Option<string>, email: Option<string>, passwordHashed: Option<string>)

  /** A row of the Notes table; `userId` is the owner's key. */
  datatype Note = Note(title: Option<string>, content: Option<string>, userId: int)

  /** The body of a user request (register, update and delete all bind it). */
  datatype UserDto = UserDto(nickname: Option<string>, email: Option<string>, password: Option<string>)

  /** The body of a note request. */
  datatype NoteDto = NoteDto(title: Option<string>, content: Option<string>)

  /** The two tables, keyed by their store-generated ids. */
  datatype Store = Store(users: map<int, User>, notes: map<int, Note>)

  /** The statuses the controllers answer with; `Internal` is HTTP 500. */
  datatype Status = Ok | Created | NoContent | BadRequest | Unauthorized | NotFound | Conflict | Internal

  /** The projection the user list exposes: never the password digest. */
  datatype UserSummary = UserSummary(nickname: Option<string>, email: Option<string>)

  /** The response payloads that carry data; confirmation and error texts are `Empty`. */
  datatype Body =
    | Empty
    | NoteView(id: int, title: Option<string>, content: Option<string>)
    | UserNotes(username: Option<string>, notes: map<int, Note>)
    | UserList(summaries: map<int, UserSummary>)
    | AllNotes(all: map<int, Note>)

  /** What one action answers, and the store it leaves behind. */
  datatype Outcome = Outcome(status: Status, body: Body, store: Store)

  /** A refusal: the given status, no payload, the store as it was. */
  function Refuse(status: Status, s: Store): Outcome
  {
    Outcome(status, Empty, s)
  }

  /** The notes owned by `userId`, with their ids. */
  function NotesOf(notes: map<int, Note>, userId: int): map<int, Note>
  {
    map k | k in notes && notes[k].userId == userId :: notes[k]
  }

  /** The notes owned by anyone but `userId`. */
  function NotesNotOf(notes: map<int, Note>, userId: int): map<int, Note>
  {
    map k | k in notes && notes[k].userId != userId :: notes[k]
  }

  /** Some user already holds exactly this email (null matches null). */
  predicate EmailTaken(users: map<int, User>, email: Option<string>)
  {
    exists k :: k in users && users[k].email == email
  }

  /**
    Writing `u` under key `id` would violate a unique index of the Users
    table: another row holds the same non-null nickname or email.
  */
  predicate IndexClash(users: map<int, User>, id: int, u: User)
  {
    exists k :: k in users && k != id &&
      ((u.nickname.Some? && users[k].nickname == u.nickname) ||
       (u.email.Some? && users[k].email == u.email))
  }

  /** No two users share an email. */
  ghost predicate EmailsUnique(users: map<int, User>)
  {
    forall a, b :: a in users && b in users && a != b ==> users[a].email != users[b].email
  }

  /** No two users share a non-null nickname. */
  ghost predicate NicknamesUnique(users: map<int, User>)
  {
    forall a, b :: a in users && b in users && a != b && users[a].nickname.Some? ==>
      users[a].nickname != users[b].nickname
  }

  /** No two users share a non-null email. */
  ghost predicate NonNullEmailsUnique(users: map<int, User>)
  {
    forall a, b :: a in users && b in users && a != b && users[a].email.Some? ==>
      users[a].email != users[b].email
  }

  /** What the unique indexes on Nickname and Email enforce: uniqueness among non-null values. */
  ghost predicate IndexesHold(users: map<int, User>)
  {
    NicknamesUnique(users) && NonNullEmailsUnique(users)
  }

  /**
    `IndexClash` is exactly the index violation: in a table that satisfies the
    indexes, writing `u` under `id` clashes if and only if the table afterwards
    would not satisfy them.
  */
  lemma IndexClashIsViolation(users: map<int, User>, id: int, u: User)
    requires IndexesHold(users)
    ensures IndexClash(users, id, u) <==> !IndexesHold(users[id := u])
  {
    var after := users[id := u];
    if IndexClash(users, id, u) {
      var k :| k in users && k != id &&
        ((u.nickname.Some? && users[k].nickname == u.nickname) ||
         (u.email.Some? && users[k].email == u.email));
      assert after[id] == u && after[k] == users[k];
    } else {
      forall a, b | a in after && b in after && a != b && after[a].nickname.Some?
        ensures after[a].nickname != after[b].nickname
      {
        if a == id {
          assert b in users;
        } else if b == id {
          assert a in users && users[a].nickname == after[a].nickname;
        }
      }
      forall a, b | a in after && b in after && a != b && after[a].email.Some?
        ensures after[a].email != after[b].email
      {
        if a == id {
          assert b in users;
        } else if b == id {
          assert a in users && users[a].email == after[a].email;
        }
      }
    }
  }

  /** Every note belongs to an existing user. */
  ghost predicate NotesOwned(s: Store)
  {
    forall k :: k in s.notes ==> s.notes[k].userId in s.users
  }

  /** The invariant every action keeps. */
  ghost predicate Consistent(s: Store)
  {
    EmailsUnique(s.users) && NicknamesUnique(s.users) && NotesOwned(s)
  }

  /** When `userId` owns no note, removing that owner's notes removes nothing. */
  lemma NotesNotOfUnowned(notes: map<int, Note>, userId: int)
    requires forall k :: k in notes ==> notes[k].userId != userId
    ensures NotesNotOf(notes, userId) == notes
  {
    var m := NotesNotOf(notes, userId);
    assert m.Keys == notes.Keys by {
      forall k | k in notes ensures k in m {
        assert notes[k].userId != userId;
      }
    }
  }
}
