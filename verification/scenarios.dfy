/**
  Properties that relate several actions: a registration undone by a deletion
  with the same credentials, and the register/read/create/delete walk through
  the API, both under BCrypt's round-trip contract.
*/
module Scenarios {
  import opened Nullable
  import opened Hasher
  import opened Models
  import opened UserController
  import opened NotesController

  /**
    Deleting an account with the very body it was registered with succeeds and
    restores the store exactly: the new user owns no notes, so the cascade
    removes nothing else.
  */
  lemma RegisterThenDeleteUser(s: Store, dto: UserDto, bc: BCrypt, salt: Salt, id: int)
    requires Consistent(s)
    requires RoundTrips(bc)
    requires id !in s.users
    requires Register(s, true, Some(dto), bc, salt, id).status == Ok
    ensures DeleteUser(Register(s, true, Some(dto), bc, salt, id).store, id, true, Some(dto), bc)
            == Outcome(NoContent, Empty, s)
  {
    var after := Register(s, true, Some(dto), bc, salt, id).store;
    var digest := HashString(bc, dto.password, salt).value;
    assert !IsNullOrEmpty(dto.password);
    assert after.users[id].passwordHashed == Some(digest);
    assert CheckAccount(after, id, true, Some(dto), bc) == Pass(true);
    assert after.users - {id} == s.users;
    assert forall k :: k in s.notes ==> s.notes[k].userId != id by {
      forall k | k in s.notes ensures s.notes[k].userId != id {
        assert s.notes[k].userId in s.users;
      }
    }
    assert after.notes == s.notes;
    NotesNotOfUnowned(s.notes, id);
  }

  /**
    Register alice, read her back with no notes, give her a note with an empty
    title (stored as the placeholder), delete her with her own credentials,
    and find her gone.
  */
  lemma AliceWalkthrough(bc: BCrypt, salt: Salt, userId: int, noteId: int)
    requires RoundTrips(bc)
    ensures var dto := UserDto(Some("alice"), Some("a@x.com"), Some("pw1"));
      var s0 := Store(map[], map[]);
      var r1 := Register(s0, true, Some(dto), bc, salt, userId);
      var r2 := GetUserById(r1.store, userId);
      var r3 := CreateNote(r1.store, userId, Some(NoteDto(Some(""), Some("hello"))), noteId);
      var r4 := DeleteUser(r3.store, userId, true, Some(dto), bc);
      var r5 := GetUserById(r4.store, userId);
      && r1.status == Ok
      && r2 == Outcome(Ok, UserNotes(Some("alice"), map[]), r1.store)
      && r3.status == Created
      && r3.store.notes[noteId].title == Some(EmptyTitle)
      && r4.status == NoContent
      && r4.store == s0
      && r5.status == NotFound
  {
  }
}
