/**
  The user controller's actions as transitions of the store.

  `valid` is the framework's verdict on the body's attributes (required fields,
  email syntax) and `dto == None` is a null body; both are inputs here. Each
  action either answers a refusal with the store untouched or commits all of
  its changes at once. An exception the action does not catch, and a unique
  index violated at save time, both end as HTTP 500 with nothing committed.
*/
module UserController {
  import opened Nullable
  import opened Hasher
  import opened Models

  /** The shared guard chain of delete and update, up to the password check. */
  datatype Check = Pass(verified: bool) | Reject(status: Status)

  /** The body is valid and non-null, names an existing account, and carries that account's email. */
  predicate Claims(s: Store, id: int, valid: bool, dto: Option<UserDto>)
  {
    valid && dto.Some? && id in s.users && s.users[id].email == dto.value.email
  }

  /**
    Refuses an invalid or null body, an unknown id and an email other than the
    stored one, in that order; then asks the hasher whether the password
    matches. Only a NullReferenceException is caught as a bad request: every
    other exception, including the hasher's own ArgumentNullException for a
    missing password or digest, becomes a 500.
  */
  function CheckAccount(s: Store, id: int, valid: bool, dto: Option<UserDto>, bc: BCrypt): (r: Check)
    ensures r.Reject? ==> r.status in {BadRequest, NotFound, Internal}
    ensures r.Reject? && r.status == NotFound <==> valid && dto.Some? && id !in s.users
    ensures r.Pass? ==>
      && valid && dto.Some? && id in s.users
      && s.users[id].email == dto.value.email
      && !IsNullOrEmpty(dto.value.password)
      && !IsNullOrEmpty(s.users[id].passwordHashed)
      && bc.verify(dto.value.password.value, s.users[id].passwordHashed.value) == Returns(r.verified)
    ensures !valid || dto.None? ==> r == Reject(BadRequest)
    ensures valid && dto.Some? && id in s.users && s.users[id].email != dto.value.email ==>
      r == Reject(BadRequest)
    ensures Claims(s, id, valid, dto) && IsNullOrEmpty(dto.value.password) ==> r == Reject(Internal)
    ensures Claims(s, id, valid, dto) && IsNullOrEmpty(s.users[id].passwordHashed) ==> r == Reject(Internal)
    ensures (Claims(s, id, valid, dto) && !IsNullOrEmpty(dto.value.password) &&
             !IsNullOrEmpty(s.users[id].passwordHashed)) ==>
        var verdict := bc.verify(dto.value.password.value, s.users[id].passwordHashed.value);
        && (verdict.Returns? ==> r == Pass(verdict.value))
        && (verdict == Threw(NullReference) ==> r == Reject(BadRequest))
        && (verdict.Threw? && verdict.ex != NullReference ==> r == Reject(Internal))
  {
    if !valid then Reject(BadRequest)
    else if dto.None? then Reject(BadRequest)
    else if id !in s.users then Reject(NotFound)
    else if s.users[id].email != dto.value.email then Reject(BadRequest)
    else
      match IsValid(bc, dto.value.password, s.users[id].passwordHashed)
      case Threw(NullReference) => Reject(BadRequest)
      case Threw(_) => Reject(Internal)
      case Returns(ok) => Pass(ok)
  }

  /**
    POST /user. Refuses an invalid or null body, then an email some user
    already holds, then a password the hasher rejects; on success adds one
    user, under the store-chosen fresh key `id`, holding the digest of the
    password drawn with `salt`.
  */
  function Register(s: Store, valid: bool, dto: Option<UserDto>, bc: BCrypt, salt: Salt, id: int): (r: Outcome)
    requires id !in s.users
    ensures r.status in {Ok, BadRequest, Conflict, Internal}
    ensures r.status != Ok ==> r.store == s
    ensures r.status == BadRequest <==> !valid || dto.None?
    ensures valid && dto.Some? && EmailTaken(s.users, dto.value.email) ==> r.status == Conflict
    ensures valid && dto.Some? && IsNullOrEmpty(dto.value.password) ==> r.status == Conflict
    ensures (valid && dto.Some? && !EmailTaken(s.users, dto.value.email) &&
             HashString(bc, dto.value.password, salt).Threw?) ==>
        r.status == (if HashString(bc, dto.value.password, salt).ex == ArgumentNull then Conflict else Internal)
    ensures (valid && dto.Some? && !EmailTaken(s.users, dto.value.email) &&
             HashString(bc, dto.value.password, salt).Returns?) ==>
        var u := User(dto.value.nickname, dto.value.email, Some(HashString(bc, dto.value.password, salt).value));
        r.status == (if IndexClash(s.users, id, u) then Internal else Ok)
    ensures r.status == Ok ==>
      && dto.Some? && !EmailTaken(s.users, dto.value.email)
      && HashString(bc, dto.value.password, salt).Returns?
      && r.store.notes == s.notes
      && r.store.users.Keys == s.users.Keys + {id}
      && (forall k :: k in s.users ==> r.store.users[k] == s.users[k])
      && r.store.users[id].nickname == dto.value.nickname
      && r.store.users[id].email == dto.value.email
      && r.store.users[id].passwordHashed == Some(HashString(bc, dto.value.password, salt).value)
  {
    if !valid then Refuse(BadRequest, s)
    else if dto.None? then Refuse(BadRequest, s)
    else if EmailTaken(s.users, dto.value.email) then Refuse(Conflict, s)
    else
      match HashString(bc, dto.value.password, salt)
      case Threw(ArgumentNull) => Refuse(Conflict, s)
      case Threw(_) => Refuse(Internal, s)
      case Returns(digest) =>
        var u := User(dto.value.nickname, dto.value.email, Some(digest));
        if IndexClash(s.users, id, u) then Refuse(Internal, s)
        else Outcome(Ok, Empty, s.(users := s.users[id := u]))
  }

  /** GET /user/{id}: the user's nickname and every note that user owns. */
  function GetUserById(s: Store, id: int): (r: Outcome)
    ensures r.store == s
    ensures r.status in {Ok, NotFound}
    ensures r.status == NotFound <==> id !in s.users
    ensures r.status == Ok ==>
      && r.body.UserNotes?
      && r.body.username == s.users[id].nickname
      && (forall k :: k in r.body.notes <==> k in s.notes && s.notes[k].userId == id)
      && (forall k :: k in r.body.notes ==> r.body.notes[k] == s.notes[k])
  {
    if id !in s.users then Refuse(NotFound, s)
    else Outcome(Ok, UserNotes(s.users[id].nickname, NotesOf(s.notes, id)), s)
  }

  /** GET /user/list: every user's id, nickname and email. */
  function GetUserList(s: Store): (r: Outcome)
    ensures r.store == s
    ensures r.status == Ok && r.body.UserList?
    ensures r.body.summaries.Keys == s.users.Keys
    ensures forall k :: k in r.body.summaries ==>
      r.body.summaries[k] == UserSummary(s.users[k].nickname, s.users[k].email)
  {
    Outcome(Ok, UserList(map k | k in s.users :: UserSummary(s.users[k].nickname, s.users[k].email)), s)
  }

  /**
    DELETE /user/{id}. After the account check, a password that does not
    verify is refused as unauthorized; otherwise the user and every note the
    user owns are removed together.
  */
  function DeleteUser(s: Store, id: int, valid: bool, dto: Option<UserDto>, bc: BCrypt): (r: Outcome)
    ensures r.status in {NoContent, BadRequest, Unauthorized, NotFound, Internal}
    ensures r.status != NoContent ==> r.store == s
    ensures r.status == NotFound <==> valid && dto.Some? && id !in s.users
    ensures valid && dto.Some? && id in s.users && s.users[id].email != dto.value.email ==>
      r.status == BadRequest
    ensures !valid || dto.None? ==> r.status == BadRequest
    ensures CheckAccount(s, id, valid, dto, bc).Reject? ==> r.status == CheckAccount(s, id, valid, dto, bc).status
    ensures r.status == Unauthorized <==> CheckAccount(s, id, valid, dto, bc) == Pass(false)
    ensures r.status == NoContent <==> CheckAccount(s, id, valid, dto, bc) == Pass(true)
    ensures r.status == NoContent ==>
      && r.store.users == s.users - {id}
      && (forall k :: k in r.store.notes <==> k in s.notes && s.notes[k].userId != id)
      && (forall k :: k in r.store.notes ==> r.store.notes[k] == s.notes[k])
  {
    match CheckAccount(s, id, valid, dto, bc)
    case Reject(status) => Refuse(status, s)
    case Pass(false) => Refuse(Unauthorized, s)
    case Pass(true) => Outcome(NoContent, Empty, Store(s.users - {id}, NotesNotOf(s.notes, id)))
  }

  /**
    PUT /user/{id}, as written. After the account check it never looks at the
    password verdict. It hashes the supplied password (`salt1`), then hashes that
    digest again (`salt2`) and stores the second digest with the new nickname.
    An exception from either hash is uncaught and ends as a 500, as does a
    nickname another user holds.
  */
  function UpdateUser(s: Store, id: int, valid: bool, dto: Option<UserDto>, bc: BCrypt, salt1: Salt, salt2: Salt): (r: Outcome)
    ensures r.status in {Ok, BadRequest, NotFound, Internal}
    ensures r.status != Ok ==> r.store == s
    ensures r.status == NotFound <==> valid && dto.Some? && id !in s.users
    ensures !valid || dto.None? ==> r.status == BadRequest
    ensures valid && dto.Some? && id in s.users && s.users[id].email != dto.value.email ==>
      r.status == BadRequest
    ensures CheckAccount(s, id, valid, dto, bc).Reject? ==> r.status == CheckAccount(s, id, valid, dto, bc).status
    ensures CheckAccount(s, id, valid, dto, bc).Pass? ==>
      var once := HashString(bc, dto.value.password, salt1);
      && (once.Threw? ==> r.status == Internal)
      && (once.Returns? ==>
            var twice := HashString(bc, Some(once.value), salt2);
            && (twice.Threw? ==> r.status == Internal)
            && (twice.Returns? ==>
                  var u := s.users[id].(nickname := dto.value.nickname, passwordHashed := Some(twice.value));
                  r.status == (if IndexClash(s.users, id, u) then Internal else Ok)))
    ensures r.status == Ok ==>
      && CheckAccount(s, id, valid, dto, bc).Pass?
      && r.store.notes == s.notes
      && r.store.users.Keys == s.users.Keys
      && (forall k :: k in s.users && k != id ==> r.store.users[k] == s.users[k])
      && r.store.users[id].email == s.users[id].email
      && r.store.users[id].nickname == dto.value.nickname
      && HashString(bc, dto.value.password, salt1).Returns?
      && var once := HashString(bc, dto.value.password, salt1).value;
         && HashString(bc, Some(once), salt2).Returns?
         && r.store.users[id].passwordHashed == Some(HashString(bc, Some(once), salt2).value)
  {
    match CheckAccount(s, id, valid, dto, bc)
    case Reject(status) => Refuse(status, s)
    case Pass(_) =>
      match HashString(bc, dto.value.password, salt1)
      case Threw(_) => Refuse(Internal, s)
      case Returns(once) =>
        match HashString(bc, Some(once), salt2)
        case Threw(_) => Refuse(Internal, s)
        case Returns(twice) =>
          var u := s.users[id].(nickname := dto.value.nickname, passwordHashed := Some(twice));
          if IndexClash(s.users, id, u) then Refuse(Internal, s)
          else Outcome(Ok, Empty, s.(users := s.users[id := u]))
  }

  /**
    The update's answer does not depend on the password verdict: two hashers
    that hash alike and both answer the verification without throwing give
    the same outcome, whatever each answers.
  */
  lemma UpdateIgnoresVerdict(s: Store, id: int, valid: bool, dto: Option<UserDto>,
                             hash: (string, Salt) -> Throws<string>,
                             verify1: (string, string) -> Throws<bool>,
                             verify2: (string, string) -> Throws<bool>,
                             salt1: Salt, salt2: Salt)
    requires CheckAccount(s, id, valid, dto, BCrypt(hash, verify1)).Pass?
    requires CheckAccount(s, id, valid, dto, BCrypt(hash, verify2)).Pass?
    ensures UpdateUser(s, id, valid, dto, BCrypt(hash, verify1), salt1, salt2) ==
            UpdateUser(s, id, valid, dto, BCrypt(hash, verify2), salt1, salt2)
  {
  }

  /** Registration keeps emails and nicknames unique and every note owned. */
  lemma RegisterPreservesConsistency(s: Store, valid: bool, dto: Option<UserDto>, bc: BCrypt, salt: Salt, id: int)
    requires id !in s.users
    requires Consistent(s)
    ensures Consistent(Register(s, valid, dto, bc, salt, id).store)
  {
  }

  /** Deleting a user keeps the invariant: no note is left pointing at the removed id. */
  lemma DeleteUserPreservesConsistency(s: Store, id: int, valid: bool, dto: Option<UserDto>, bc: BCrypt)
    requires Consistent(s)
    ensures Consistent(DeleteUser(s, id, valid, dto, bc).store)
    ensures DeleteUser(s, id, valid, dto, bc).status == NoContent ==>
      forall k :: k in DeleteUser(s, id, valid, dto, bc).store.notes ==>
        DeleteUser(s, id, valid, dto, bc).store.notes[k].userId != id
  {
  }

  /**
    The cascade removes exactly the notes the deleted user owned: what is left
    and what went are disjoint and together make up the notes before.
  */
  lemma CascadeRemovesExactlyOwnedNotes(s: Store, id: int, valid: bool, dto: Option<UserDto>, bc: BCrypt)
    requires DeleteUser(s, id, valid, dto, bc).status == NoContent
    ensures DeleteUser(s, id, valid, dto, bc).store.notes.Keys !! NotesOf(s.notes, id).Keys
    ensures DeleteUser(s, id, valid, dto, bc).store.notes + NotesOf(s.notes, id) == s.notes
  {
  }

  /** Updating a user keeps the invariant; the nickname index is what guards uniqueness. */
  lemma UpdateUserPreservesConsistency(s: Store, id: int, valid: bool, dto: Option<UserDto>, bc: BCrypt, salt1: Salt, salt2: Salt)
    requires Consistent(s)
    ensures Consistent(UpdateUser(s, id, valid, dto, bc, salt1, salt2).store)
  {
  }
}
