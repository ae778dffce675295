/**
  The notes controller's actions as transitions of the store.

  `note == None` is a null body and `valid` the framework's verdict on it; the
  creation action never consults `valid`, the update action does. A new note's
  key `id` is the store's choice of any key not yet in use.
*/
module NotesController {
  import opened Nullable
  import opened Models

  /** The text stored in place of a null or empty title at creation. */
  const EmptyTitle: string := "Empty Title"

  /** The text stored in place of a null or empty content at creation. */
  const EmptyContent: string := "Empty Content"

  /** A null or empty field is replaced by `placeholder`; anything else is kept as it is. */
  function OrPlaceholder(field: Option<string>, placeholder: string): (r: Option<string>)
    ensures IsNullOrEmpty(field) ==> r == Some(placeholder)
    ensures !IsNullOrEmpty(field) ==> r == field
  {
    if IsNullOrEmpty(field) then Some(placeholder) else field
  }

  /**
    POST /notes/{userId}. Refuses a null body, then an unknown owner; otherwise
    stores one new note for that owner, with placeholders for an empty title or
    content, and answers its id, title and content.
  */
  function CreateNote(s: Store, userId: int, note: Option<NoteDto>, id: int): (r: Outcome)
    requires id !in s.notes
    ensures r.status in {Created, BadRequest, NotFound}
    ensures r.status != Created ==> r.store == s
    ensures r.status == BadRequest <==> note.None?
    ensures r.status == NotFound <==> note.Some? && userId !in s.users
    ensures r.status == Created ==>
      && r.store.users == s.users
      && r.store.notes.Keys == s.notes.Keys + {id}
      && (forall k :: k in s.notes ==> r.store.notes[k] == s.notes[k])
      && r.store.notes[id].userId == userId
      && r.body == NoteView(id, r.store.notes[id].title, r.store.notes[id].content)
      && (IsNullOrEmpty(note.value.title) ==> r.store.notes[id].title == Some(EmptyTitle))
      && (!IsNullOrEmpty(note.value.title) ==> r.store.notes[id].title == note.value.title)
      && (IsNullOrEmpty(note.value.content) ==> r.store.notes[id].content == Some(EmptyContent))
      && (!IsNullOrEmpty(note.value.content) ==> r.store.notes[id].content == note.value.content)
  {
    if note.None? then Refuse(BadRequest, s)
    else if userId !in s.users then Refuse(NotFound, s)
    else
      var title := OrPlaceholder(note.value.title, EmptyTitle);
      var content := OrPlaceholder(note.value.content, EmptyContent);
      Outcome(Created, NoteView(id, title, content), s.(notes := s.notes[id := Note(title, content, userId)]))
  }

  /**
    PUT /notes/{noteId}. Refuses a null body, then an invalid one, then an
    unknown note; otherwise overwrites title and content exactly as sent.
  */
  function UpdateNote(s: Store, noteId: int, valid: bool, note: Option<NoteDto>): (r: Outcome)
    ensures r.status in {Ok, BadRequest, NotFound}
    ensures r.status != Ok ==> r.store == s
    ensures r.status == BadRequest <==> note.None? || !valid
    ensures r.status == NotFound <==> note.Some? && valid && noteId !in s.notes
    ensures r.status == Ok ==>
      && r.store.users == s.users
      && r.store.notes.Keys == s.notes.Keys
      && (forall k :: k in s.notes && k != noteId ==> r.store.notes[k] == s.notes[k])
      && r.store.notes[noteId].userId == s.notes[noteId].userId
      && r.store.notes[noteId].title == note.value.title
      && r.store.notes[noteId].content == note.value.content
      && r.body == NoteView(noteId, note.value.title, note.value.content)
  {
    if note.None? then Refuse(BadRequest, s)
    else if !valid then Refuse(BadRequest, s)
    else if noteId !in s.notes then Refuse(NotFound, s)
    else
      var updated := s.notes[noteId].(title := note.value.title, content := note.value.content);
      Outcome(Ok, NoteView(noteId, updated.title, updated.content), s.(notes := s.notes[noteId := updated]))
  }

  /** GET /notes/{userId}: the owner's nickname and exactly the notes that owner holds. */
  function GetAllUsersNotes(s: Store, userId: int): (r: Outcome)
    ensures r.store == s
    ensures r.status in {Ok, NotFound}
    ensures r.status == NotFound <==> userId !in s.users
    ensures r.status == Ok ==>
      && r.body.UserNotes?
      && r.body.username == s.users[userId].nickname
      && (forall k :: k in r.body.notes <==> k in s.notes && s.notes[k].userId == userId)
      && (forall k :: k in r.body.notes ==> r.body.notes[k] == s.notes[k])
  {
    if userId !in s.users then Refuse(NotFound, s)
    else Outcome(Ok, UserNotes(s.users[userId].nickname, NotesOf(s.notes, userId)), s)
  }

  /** GET /notes: every note of every user, unfiltered. */
  function GetAllNotes(s: Store): (r: Outcome)
    ensures r.store == s
    ensures r.status == Ok && r.body.AllNotes?
    ensures r.body.all.Keys == s.notes.Keys
    ensures forall k :: k in s.notes ==> r.body.all[k] == s.notes[k]
  {
    Outcome(Ok, AllNotes(s.notes), s)
  }

  /** DELETE /notes/{noteId}: removes exactly that note. */
  function DeleteNote(s: Store, noteId: int): (r: Outcome)
    ensures r.status in {NoContent, NotFound}
    ensures r.status == NotFound <==> noteId !in s.notes
    ensures r.status == NotFound ==> r.store == s
    ensures r.status == NoContent ==>
      && r.store.users == s.users
      && r.store.notes.Keys == s.notes.Keys - {noteId}
      && (forall k :: k in r.store.notes ==> r.store.notes[k] == s.notes[k])
  {
    if noteId !in s.notes then Refuse(NotFound, s)
    else Outcome(NoContent, Empty, s.(notes := s.notes - {noteId}))
  }

  /** A created note never holds a null or empty title or content. */
  lemma CreatedNoteHasText(s: Store, userId: int, note: Option<NoteDto>, id: int)
    requires id !in s.notes
    requires CreateNote(s, userId, note, id).status == Created
    ensures !IsNullOrEmpty(CreateNote(s, userId, note, id).store.notes[id].title)
    ensures !IsNullOrEmpty(CreateNote(s, userId, note, id).store.notes[id].content)
  {
  }

  /** Deleting the note just created gives back the store as it was. */
  lemma CreateThenDeleteNote(s: Store, userId: int, note: Option<NoteDto>, id: int)
    requires id !in s.notes
    requires CreateNote(s, userId, note, id).status == Created
    ensures DeleteNote(CreateNote(s, userId, note, id).store, id) == Outcome(NoContent, Empty, s)
  {
  }

  /** Note creation keeps every note owned by an existing user and leaves users alone. */
  lemma CreateNotePreservesConsistency(s: Store, userId: int, note: Option<NoteDto>, id: int)
    requires id !in s.notes
    requires Consistent(s)
    ensures Consistent(CreateNote(s, userId, note, id).store)
  {
  }

  /** Updating a note never changes its owner, so the invariant holds. */
  lemma UpdateNotePreservesConsistency(s: Store, noteId: int, valid: bool, note: Option<NoteDto>)
    requires Consistent(s)
    ensures Consistent(UpdateNote(s, noteId, valid, note).store)
  {
  }

  /** Deleting a note keeps the invariant. */
  lemma DeleteNotePreservesConsistency(s: Store, noteId: int)
    requires Consistent(s)
    ensures Consistent(DeleteNote(s, noteId).store)
  {
  }
}
