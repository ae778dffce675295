/**
  The password hasher service: two input guards around the BCrypt library.

  BCrypt itself is a foreign library, so its two entry points are parameters
  (`BCrypt`) rather than definitions. Hashing draws a fresh random salt on every
  call; the salt is therefore an explicit argument, which makes two hashes of the
  same password different values in general. The library's promise that a digest
  verifies against the password it was made from is not proved anywhere: it is
  the hypothesis `RoundTrips`, taken by whoever needs it.
*/
module Hasher {
  import opened Nullable

  /** The exceptions that matter to the callers of the hasher. */
  datatype Exception = ArgumentNull | NullReference | Other

  /** The outcome of a call that may throw. */
  datatype Throws<+T> = Returns(value: T) | Threw(ex: Exception)

  /** The random salt BCrypt draws for one call of HashPassword. */
  type Salt = nat

  /** The library's HashPassword and Verify, either of which may throw. */
  datatype BCrypt = BCrypt(
    hashPassword: (string, Salt) -> Throws<string>,
    verify: (string, string) -> Throws<bool>)

  /**
    BCrypt's own contract, assumed and never proved: every non-empty secret
    hashes without failure to a non-empty digest that verifies against it.
  */
  ghost predicate RoundTrips(bc: BCrypt)
  {
    forall secret: string, salt: Salt {:trigger bc.hashPassword(secret, salt)} ::
      secret != "" ==>
        && bc.hashPassword(secret, salt).Returns?
        && bc.hashPassword(secret, salt).value != ""
        && bc.verify(secret, bc.hashPassword(secret, salt).value) == Returns(true)
  }

  /** Hashes `input`, refusing null or empty input before BCrypt is reached. */
  function HashString(bc: BCrypt, input: Option<string>, salt: Salt): (r: Throws<string>)
    ensures IsNullOrEmpty(input) ==> r == Threw(ArgumentNull)
    ensures !IsNullOrEmpty(input) ==> r == bc.hashPassword(input.value, salt)
  {
    if IsNullOrEmpty(input) then Threw(ArgumentNull)
    else bc.hashPassword(input.value, salt)
  }

  /**
    Checks `input` against the stored digest `hash`, refusing a null or empty
    argument on either side before BCrypt is reached.
  */
  function IsValid(bc: BCrypt, input: Option<string>, hash: Option<string>): (r: Throws<bool>)
    ensures IsNullOrEmpty(input) ==> r == Threw(ArgumentNull)
    ensures IsNullOrEmpty(hash) ==> r == Threw(ArgumentNull)
    ensures !IsNullOrEmpty(input) && !IsNullOrEmpty(hash) ==> r == bc.verify(input.value, hash.value)
  {
    if IsNullOrEmpty(input) || IsNullOrEmpty(hash) then Threw(ArgumentNull)
    else bc.verify(input.value, hash.value)
  }

  /** Under BCrypt's contract, a secret verifies against any digest HashString made of it. */
  lemma HashThenVerify(bc: BCrypt, secret: string, salt: Salt)
    requires RoundTrips(bc)
    requires secret != ""
    ensures HashString(bc, Some(secret), salt).Returns?
    ensures IsValid(bc, Some(secret), Some(HashString(bc, Some(secret), salt).value)) == Returns(true)
  {
  }
}
