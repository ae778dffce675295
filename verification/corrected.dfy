/**
  The user controller's account-changing actions as they evidently were meant
  to behave, next to the as-written ones in `UserController`:

  - a missing password or digest (the hasher's ArgumentNullException) is
    answered as a bad request, like the NullReferenceException the code catches;
  - the update refuses a password that does not verify;
  - the update stores one digest of the new password, not a digest of a digest.
*/
module Corrected {
  import opened Nullable
  import opened Hasher
  import opened Models
  import UserController

  /** The account check, catching the hasher's own input exception as a bad request. */
  function CheckAccount(s: Store, id: int, valid: bool, dto: Option<UserDto>, bc: BCrypt): (r: UserController.Check)
    ensures r.Reject? ==> r.status in {BadRequest, NotFound, Internal}
    ensures r.Reject? && r.status == Internal ==>
      valid && dto.Some? && id in s.users && s.users[id].email == dto.value.email &&
      !IsNullOrEmpty(dto.value.password) && !IsNullOrEmpty(s.users[id].passwordHashed) &&
      bc.verify(dto.value.password.value, s.users[id].passwordHashed.value) == Threw(Other)
    ensures (valid && dto.Some? && id in s.users && s.users[id].email == dto.value.email &&
             IsNullOrEmpty(dto.value.password)) ==> r == UserController.Reject(BadRequest)
    ensures r.Pass? ==> r == UserController.CheckAccount(s, id, valid, dto, bc)
    ensures r != UserController.CheckAccount(s, id, valid, dto, bc) ==>
      UserController.CheckAccount(s, id, valid, dto, bc) == UserController.Reject(Internal) &&
      r == UserController.Reject(BadRequest)
    ensures UserController.Claims(s, id, valid, dto) && IsNullOrEmpty(s.users[id].passwordHashed) ==>
      r == UserController.Reject(BadRequest)
    ensures (UserController.Claims(s, id, valid, dto) && !IsNullOrEmpty(dto.value.password) &&
             !IsNullOrEmpty(s.users[id].passwordHashed) &&
             bc.verify(dto.value.password.value, s.users[id].passwordHashed.value) == Threw(Other)) ==>
      r == UserController.Reject(Internal)
  {
    if !valid then UserController.Reject(BadRequest)
    else if dto.None? then UserController.Reject(BadRequest)
    else if id !in s.users then UserController.Reject(NotFound)
    else if s.users[id].email != dto.value.email then UserController.Reject(BadRequest)
    else
      match IsValid(bc, dto.value.password, s.users[id].passwordHashed)
      case Threw(Other) => UserController.Reject(Internal)
      case Threw(_) => UserController.Reject(BadRequest)
      case Returns(ok) => UserController.Pass(ok)
  }

  /** Account deletion with the corrected account check; the cascade is unchanged. */
  function DeleteUser(s: Store, id: int, valid: bool, dto: Option<UserDto>, bc: BCrypt): (r: Outcome)
    ensures r.status != NoContent ==> r.store == s
    ensures (valid && dto.Some? && id in s.users && s.users[id].email == dto.value.email &&
             IsNullOrEmpty(dto.value.password)) ==> r.status == BadRequest
    ensures r.status == NoContent ==> r == UserController.DeleteUser(s, id, valid, dto, bc)
    ensures CheckAccount(s, id, valid, dto, bc).Reject? ==> r.status == CheckAccount(s, id, valid, dto, bc).status
    ensures r.status == Unauthorized <==> CheckAccount(s, id, valid, dto, bc) == UserController.Pass(false)
    ensures r.status == NoContent <==> CheckAccount(s, id, valid, dto, bc) == UserController.Pass(true)
  {
    match CheckAccount(s, id, valid, dto, bc)
    case Reject(status) => Refuse(status, s)
    case Pass(false) => Refuse(Unauthorized, s)
    case Pass(true) => Outcome(NoContent, Empty, Store(s.users - {id}, NotesNotOf(s.notes, id)))
  }

  /**
    The update that refuses a wrong password and stores the digest of the new
    password, drawn with `salt`, once.
  */
  function UpdateUser(s: Store, id: int, valid: bool, dto: Option<UserDto>, bc: BCrypt, salt: Salt): (r: Outcome)
    ensures r.status in {Ok, BadRequest, Unauthorized, NotFound, Internal}
    ensures r.status != Ok ==> r.store == s
    ensures r.status == Unauthorized <==> CheckAccount(s, id, valid, dto, bc) == UserController.Pass(false)
    ensures CheckAccount(s, id, valid, dto, bc).Reject? ==> r.status == CheckAccount(s, id, valid, dto, bc).status
    ensures CheckAccount(s, id, valid, dto, bc) == UserController.Pass(true) ==>
      var digest := HashString(bc, dto.value.password, salt);
      && (digest.Threw? ==> r.status == Internal)
      && (digest.Returns? ==>
            var u := s.users[id].(nickname := dto.value.nickname, passwordHashed := Some(digest.value));
            r.status == (if IndexClash(s.users, id, u) then Internal else Ok))
    ensures r.status == Ok ==>
      && CheckAccount(s, id, valid, dto, bc) == UserController.Pass(true)
      && r.store.notes == s.notes
      && r.store.users.Keys == s.users.Keys
      && (forall k :: k in s.users && k != id ==> r.store.users[k] == s.users[k])
      && r.store.users[id].email == s.users[id].email
      && r.store.users[id].nickname == dto.value.nickname
      && HashString(bc, dto.value.password, salt).Returns?
      && r.store.users[id].passwordHashed == Some(HashString(bc, dto.value.password, salt).value)
  {
    match CheckAccount(s, id, valid, dto, bc)
    case Reject(status) => Refuse(status, s)
    case Pass(false) => Refuse(Unauthorized, s)
    case Pass(true) =>
      match HashString(bc, dto.value.password, salt)
      case Threw(_) => Refuse(Internal, s)
      case Returns(digest) =>
        var u := s.users[id].(nickname := dto.value.nickname, passwordHashed := Some(digest));
        if IndexClash(s.users, id, u) then Refuse(Internal, s)
        else Outcome(Ok, Empty, s.(users := s.users[id := u]))
  }

  /**
    Under BCrypt's contract, after a corrected update the same email and
    password delete the account: the stored digest is one of the password.
  */
  lemma UpdateThenDelete(s: Store, id: int, dto: UserDto, bc: BCrypt, salt: Salt)
    requires RoundTrips(bc)
    requires UpdateUser(s, id, true, Some(dto), bc, salt).status == Ok
    ensures DeleteUser(UpdateUser(s, id, true, Some(dto), bc, salt).store, id, true, Some(dto), bc).status == NoContent
  {
  }
}
