/**
  Concrete inputs on which the as-written user update and delete differ from
  their evident intent, worked out with a toy hasher that keeps BCrypt's
  round-trip contract: the digest of p is "$" + p.
*/
module Findings {
  import opened Nullable
  import opened Hasher
  import opened Models
  import UserController
  import Corrected

  /** A stand-in for BCrypt with no salt: the digest of p is "$" + p. */
  function Toy(): BCrypt
  {
    BCrypt((p: string, salt: Salt) => Returns("$" + p), (p: string, d: string) => Returns(d == "$" + p))
  }

  /** The toy hasher keeps the contract the real one is assumed to keep. */
  lemma ToyRoundTrips()
    ensures RoundTrips(Toy())
  {
  }

  /** One registered user, alice, whose password is pw1. */
  function AliceStore(): Store
  {
    Store(map[1 := User(Some("alice"), Some("a@x.com"), Some("$pw1"))], map[])
  }

  /**
    A wrong password still updates the account: the verdict is false, yet
    the update answers Ok and replaces nickname and digest.
  */
  lemma WrongPasswordStillUpdates()
    ensures var dto := UserDto(Some("mallory"), Some("a@x.com"), Some("guess"));
      var r := UserController.UpdateUser(AliceStore(), 1, true, Some(dto), Toy(), 0, 0);
      && UserController.CheckAccount(AliceStore(), 1, true, Some(dto), Toy()) == UserController.Pass(false)
      && r.status == Ok
      && r.store.users[1] == User(Some("mallory"), Some("a@x.com"), Some("$$guess"))
    ensures var dto := UserDto(Some("mallory"), Some("a@x.com"), Some("guess"));
      Corrected.UpdateUser(AliceStore(), 1, true, Some(dto), Toy(), 0) == Refuse(Unauthorized, AliceStore())
  {
    var dto := UserDto(Some("mallory"), Some("a@x.com"), Some("guess"));
    assert "$" + "guess" == "$guess";
    assert "$" + "$guess" == "$$guess";
    assert UserController.CheckAccount(AliceStore(), 1, true, Some(dto), Toy()) == UserController.Pass(false);
    assert !IndexClash(AliceStore().users, 1, User(Some("mallory"), Some("a@x.com"), Some("$$guess")));
  }

  /**
    After an update that keeps the password pw1, the stored digest is that of
    "$pw1", so deleting the account with pw1 is refused as unauthorized;
    after the corrected update the same deletion succeeds.
  */
  lemma UpdatedPasswordNoLongerVerifies()
    ensures var dto := UserDto(Some("alice"), Some("a@x.com"), Some("pw1"));
      var r := UserController.UpdateUser(AliceStore(), 1, true, Some(dto), Toy(), 0, 0);
      && r.status == Ok
      && r.store.users[1].passwordHashed == Some("$$pw1")
      && UserController.DeleteUser(r.store, 1, true, Some(dto), Toy()).status == Unauthorized
    ensures var dto := UserDto(Some("alice"), Some("a@x.com"), Some("pw1"));
      var r := Corrected.UpdateUser(AliceStore(), 1, true, Some(dto), Toy(), 0);
      && r.status == Ok
      && r.store.users[1].passwordHashed == Some("$pw1")
      && Corrected.DeleteUser(r.store, 1, true, Some(dto), Toy()).status == NoContent
  {
    var dto := UserDto(Some("alice"), Some("a@x.com"), Some("pw1"));
    assert "$" + "pw1" == "$pw1";
    assert "$" + "$pw1" == "$$pw1";
    assert !IndexClash(AliceStore().users, 1, User(Some("alice"), Some("a@x.com"), Some("$$pw1")));
    assert !IndexClash(AliceStore().users, 1, User(Some("alice"), Some("a@x.com"), Some("$pw1")));
    var r := UserController.UpdateUser(AliceStore(), 1, true, Some(dto), Toy(), 0, 0);
    assert r.store.users[1].passwordHashed == Some("$$pw1");
    assert "$$pw1" != "$" + "pw1" by {
      assert ("$$pw1")[1] == '$';
    }
  }

  /**
    An empty password on delete is answered with a 500, for any hasher and any
    account whose email matches: the hasher's ArgumentNullException is not the
    NullReferenceException the action catches. The corrected check answers 400.
  */
  lemma MissingPasswordIsServerError(s: Store, id: int, nickname: Option<string>, bc: BCrypt)
    requires id in s.users
    ensures var dto := UserDto(nickname, s.users[id].email, Some(""));
      && UserController.DeleteUser(s, id, true, Some(dto), bc) == Refuse(Internal, s)
      && UserController.UpdateUser(s, id, true, Some(dto), bc, 0, 0) == Refuse(Internal, s)
      && Corrected.DeleteUser(s, id, true, Some(dto), bc) == Refuse(BadRequest, s)
  {
  }
}
