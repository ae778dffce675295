# NoteWebApp request handling, modelled in Dafny

NoteWebApp is a small ASP.NET backend. It keeps users and their notes in two
tables and hashes passwords with BCrypt. This project models what its two
controllers and its hasher service do with one request. Each action is a pure
function from the store and the request to an `Outcome`. An `Outcome` holds:

- an HTTP status (`Ok`, `Created`, `NoContent`, `BadRequest`, `Unauthorized`,
  `NotFound`, `Conflict` or `Internal` for 500);
- the payload that carries data (a note, a user's notes, the user list, all notes);
- the store left behind.

The store is `Store(users: map<int, User>, notes: map<int, Note>)`. An entity's
`Id` is its key in the map. A note's `userId` is its owner's key.

Modules, one per component:

- `Nullable` (`nullable.dfy`): C#'s nullable strings and `string.IsNullOrEmpty`.
- `Hasher` (`hasher.dfy`): the service's two input guards. BCrypt's `HashPassword`
  and `Verify` are parameters (`BCrypt`), and hashing takes an explicit `Salt`,
  because the library draws a random salt on each call. BCrypt's promise that a
  digest verifies against its own password is the hypothesis `RoundTrips`. It is
  assumed where it is needed and proved nowhere.
- `Models` (`models.dfy`): the entities, the request bodies, the store, the
  statuses and payloads, and the invariant `Consistent`. `Consistent` says:
  - no two users share an email;
  - no two users share a non-null nickname;
  - every note's owner exists.
- `UserController` and `NotesController`: the ten actions, each with a contract
  for every guard, for the frame ("nothing else changes") and for the committed
  change. They also carry lemmas showing each mutating action keeps `Consistent`.
- `Scenarios`: a registration undone by a deletion with the same body, and the
  register / read / create note / delete / read walk-through.
- `Corrected` and `Findings`: the three discrepancies in the user update and
  delete actions. Each is modelled as written, shown on concrete inputs, and
  paired with a corrected definition.

Inputs the framework or the store supplies are parameters of each action:

- `valid` is `ModelState.IsValid`.
- `None` for a body is a null body.
- `id` on creation is the key the store generates, so it must be a key not yet in use.
- `salt` is BCrypt's random salt.

An exception the action does not catch ends as a 500 with nothing saved. This
covers the two `HashString` calls in the user update, and a unique-index
violation when saving. The unique indexes on `Nickname` and `Email`
(Context/MyDbContext.cs:13-18) are checked when a user row is written. The
model compares the indexed values exactly and lets null values share an index,
which is how common database providers treat them.

Where the code departs from its evident intent, the model follows the code:

- The user update never refuses a wrong password. It also stores the password
  hashed twice.

Two facts about the code the model reproduces:

- The note update checks the body before it looks the note up.
- The entity classes declare no navigation property, so nothing makes the store
  enforce a foreign key from notes to users or cascade a delete. The user delete
  action removes the notes itself, and the model keeps note ownership as the
  invariant `Consistent` instead.

## Model

| member | source | states |
|---|---|---|
| Hasher.HashString | Services/Hasher.cs:17-28 | null or empty input throws ArgumentNullException before BCrypt is called; any other input yields BCrypt's result for that salt, untransformed |
| Hasher.IsValid | Services/Hasher.cs:29-38 | a null or empty candidate throws ArgumentNullException whatever the digest; so does a null or empty digest whatever the candidate; with both present the verdict is exactly BCrypt.Verify's |
| Hasher.HashThenVerify | Services/Hasher.cs:17-38 | assuming BCrypt's round trip, a non-empty secret hashes without failure and verifies against its own digest |
| UserController.CheckAccount | Controllers/User.cs:89-121 | the guards fire in order. An invalid or null body gives BadRequest. An unknown id gives NotFound, and is the only NotFound. An email other than the stored one gives BadRequest. Then the password check runs: a missing password or a missing stored digest gives 500, because the hasher's ArgumentNullException is not caught as a bad request. Otherwise BCrypt's verdict passes through, its NullReferenceException gives BadRequest, and any other exception gives 500 |
| UserController.Register | Controllers/User.cs:26-73 | BadRequest exactly for an invalid or null body. A taken email (null matching null) gives Conflict. After that, a hasher ArgumentNullException (an empty password, or BCrypt's own) gives Conflict and any other hasher exception gives 500. With a digest, the answer is Ok unless the new row violates a unique index (500). Every refusal leaves the store unchanged. Success adds exactly one user under a fresh key, with the given nickname and email and the hasher's digest, and changes no other user or note |
| Models.IndexClashIsViolation | Context/MyDbContext.cs:13-18 | in a table that satisfies the unique indexes on Nickname and Email (non-null values), writing a row clashes exactly when the table afterwards would violate an index |
| UserController.RegisterPreservesConsistency | Controllers/User.cs:38-72 | registration keeps emails unique, non-null nicknames unique and every note owned |
| UserController.GetUserById | Controllers/User.cs:74-85 | NotFound exactly for an unknown id; otherwise the user's nickname and exactly the notes whose owner is that id, with the store unchanged |
| UserController.GetUserList | Controllers/User.cs:191-203 | one summary per user, under the user's id, with nickname and email and no digest; the store is unchanged |
| UserController.DeleteUser | Controllers/User.cs:86-135 | an invalid or null body gives BadRequest. Every refusal of the account check is passed on, so NotFound means exactly an unknown id and an email mismatch gives BadRequest. Unauthorized happens exactly when the password check says false, and NoContent exactly when it says true. Every refusal leaves the store unchanged. Success removes that user and exactly the notes it owned, and keeps every other user and note as it was |
| UserController.CascadeRemovesExactlyOwnedNotes | Controllers/User.cs:125-132 | after a deletion, the remaining notes and the user's former notes are disjoint and together are the notes before |
| UserController.DeleteUserPreservesConsistency | Controllers/User.cs:125-134 | deletion keeps the invariant, and no remaining note names the deleted id |
| UserController.UpdateUser | Controllers/User.cs:136-188 | never answers Unauthorized. Every refusal of the account check is passed on: an invalid or null body or an email mismatch gives BadRequest, and an unknown id gives NotFound. Once the check passes, whatever the verdict, a failure of either hash gives 500, a nickname clash gives 500, and otherwise the answer is Ok. Every refusal leaves the store unchanged. Success changes only the user's nickname and digest: the id set, the email, the other users and all notes stay as they were. The stored digest is the hash of the hash of the supplied password |
| UserController.UpdateIgnoresVerdict | Controllers/User.cs:160-175 | once the account check passes, the outcome is the same whether the password verified or not |
| UserController.UpdateUserPreservesConsistency | Controllers/User.cs:177-186 | the update keeps the invariant; a nickname held by another user is refused at save time |
| NotesController.OrPlaceholder | Controllers/Notes.cs:41-50 | a null or empty field becomes the placeholder; any other value is kept verbatim |
| NotesController.CreateNote | Controllers/Notes.cs:22-65 | BadRequest exactly for a null body, then NotFound exactly for an unknown owner; both leave the store unchanged. Success adds exactly one note under a fresh key, owned by the user. Its title is "Empty Title" when the input title is null or empty and verbatim otherwise, and the same rule gives "Empty Content" for the content. The answer is that note's id, title and content; no user or other note changes |
| NotesController.CreatedNoteHasText | Controllers/Notes.cs:41-58 | a created note never stores a null or empty title or content |
| NotesController.CreateThenDeleteNote | Controllers/Notes.cs:53-64 | deleting the note just created restores the store exactly |
| NotesController.CreateNotePreservesConsistency | Controllers/Notes.cs:33-61 | note creation keeps the invariant: the new note's owner exists |
| NotesController.UpdateNote | Controllers/Notes.cs:67-100 | BadRequest exactly for a null or invalid body, then NotFound exactly for an unknown note; both leave the store unchanged. Success overwrites title and content verbatim, with no placeholders, and keeps the note's key, its owner, every other note and every user |
| NotesController.UpdateNotePreservesConsistency | Controllers/Notes.cs:93-96 | the note update keeps the invariant: the owner never changes |
| NotesController.GetAllUsersNotes | Controllers/Notes.cs:102-123 | NotFound exactly for an unknown user; otherwise the nickname and exactly the notes that user owns, with the store unchanged |
| NotesController.GetAllNotes | Controllers/Notes.cs:125-131 | every note with its key, unfiltered, and the store unchanged |
| NotesController.DeleteNote | Controllers/Notes.cs:133-149 | NotFound exactly for an unknown note, which leaves the store unchanged; otherwise exactly that note is removed and every user and other note is kept |
| NotesController.DeleteNotePreservesConsistency | Controllers/Notes.cs:144-145 | note deletion keeps the invariant |
| Scenarios.RegisterThenDeleteUser | Controllers/User.cs:26-135 | assuming BCrypt's round trip, deleting a freshly registered account with its registration body succeeds and restores the store exactly |
| Scenarios.AliceWalkthrough | Controllers/User.cs:26-135 | assuming BCrypt's round trip: register alice (User.cs Register), read her with no notes, create a note with an empty title through Controllers/Notes.cs:22-65 (stored as "Empty Title"), delete her with her credentials (empty store), and find her gone |
| Corrected.CheckAccount | Controllers/User.cs:108-121 | the corrected check differs from the as-written one only by turning the hasher's ArgumentNullException 500s into BadRequest: a missing password or a missing stored digest gives BadRequest, and a 500 comes exactly when BCrypt's own verification fails unexpectedly |
| Corrected.DeleteUser | Controllers/User.cs:86-135 | refusals of the corrected check are passed on (so a missing password is BadRequest); Unauthorized exactly when the check says false, NoContent exactly when it says true, and then the deletion and cascade are the as-written ones |
| Corrected.UpdateUser | Controllers/User.cs:136-188 | refusals of the corrected check are passed on; Unauthorized exactly when the check says false; on a true verdict, a failed hash gives 500, a nickname clash gives 500, and otherwise Ok; success stores one digest of the new password and changes only nickname and digest |
| Corrected.UpdateThenDelete | Controllers/User.cs:175-184 | assuming BCrypt's round trip, after a corrected update the same email and password delete the account |
| Findings.WrongPasswordStillUpdates | Controllers/User.cs:160-175 | the verdict for password "guess" against alice's digest is false, yet the update answers Ok and rewrites her nickname and digest; the corrected update refuses it as Unauthorized |
| Findings.UpdatedPasswordNoLongerVerifies | Controllers/User.cs:175-184 | after an update with password "pw1" the stored digest is that of "$pw1", and deleting with "pw1" is Unauthorized; after the corrected update the deletion succeeds |
| Findings.MissingPasswordIsServerError | Controllers/User.cs:113-120 | for any account and any hasher, an empty password on delete or update gives a 500 with the store unchanged; the corrected delete gives BadRequest |

## Findings

| source | as written | input that shows it | evidently intended | confidence | as-written member | corrected member |
|---|---|---|---|---|---|---|
| Controllers/User.cs:160-175 | the password verdict `result` is assigned and never tested | update alice (password pw1) with password "guess" and her email | a wrong password answers 401 and changes nothing | high; not executed | Findings.WrongPasswordStillUpdates | Corrected.UpdateUser |
| Controllers/User.cs:175-184 | the password is replaced by its digest, which is hashed again and stored | update alice keeping pw1, then delete with pw1: 401 | store one digest of the new password, so the new password logs in | high; not executed | Findings.UpdatedPasswordNoLongerVerifies | Corrected.UpdateThenDelete |
| Controllers/User.cs:113-120 | only NullReferenceException is answered "Input is missing"; the hasher throws ArgumentNullException for a missing password or digest, which becomes a 500 | delete or update with an empty password, or against an account with no stored digest | answer 400 "Input is missing" | medium, not executed: attribute validation normally rejects an empty password before the action runs, but not an empty stored digest | Findings.MissingPasswordIsServerError | Corrected.CheckAccount |

The actions in `UserController` stay as written. `Corrected` holds the intended
definitions, and the lemmas about them are proved against the same store and hasher.

## Left out

- BCrypt internals: a foreign library. Hashing and verification are parameters, and their round trip is the assumed hypothesis `RoundTrips`. Nothing assumes that a different secret fails to verify: BCrypt only reads the first 72 bytes of a secret, so that claim would be false in general.
- Hasher.HashThenVerify: holds only under the assumed `RoundTrips`, not of the code alone.
- EF Core, async/await, cancellation tokens and `SaveChangesAsync`: each action is one atomic update of the two maps. Concurrent requests and the races between them are not modelled.
- ASP.NET model binding and attribute validation (`[Required]`, `[EmailAddress]`, and the automatic 400 for an invalid body): modelled as the input flag `valid`. The note creation action never reads it, so the model shows the placeholder rule running even for titles the attributes might refuse first.
- Models.IndexClashIsViolation: the database, not the code, compares the indexed values, and so does the email lookup in registration (Controllers/User.cs:38). The model compares them exactly and case-sensitively and lets nulls share an index. A provider with a case-insensitive collation (SQL Server's default) or different null handling would refuse more rows; that provider is not part of this model.
- Store failures other than a unique-index violation (a lost connection, a timeout): not modelled.
- The note's `dateCreated` timestamp: it comes from the server clock, so it is omitted.
- Logging, routing, response texts and JSON shaping: a confirmation or error text is the payload `Empty`. Lists are maps keyed by id, so the database's row order is not modelled.
- 32-bit `int` ids: ids are unbounded integers, and how the store generates them is a parameter.
