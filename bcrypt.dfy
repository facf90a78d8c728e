/**
 * golang.org/x/crypto/bcrypt, seen from outside.  A hash is a symbolic term:
 * the salt travels in clear inside the stored hash (as in bcrypt's
 * `$2a$10$<salt><checksum>` string), and the checksum is the free term
 * `Eks(salt, password)`, which no operation of the model takes apart.  Two
 * checksums are equal exactly when salt and password are.  Real bcrypt's key
 * schedule is not that exact (it reads the password and a trailing NUL
 * cyclically for 72 bytes); the model leaves those collisions out.
 */
module Bcrypt {
  import opened Prelude

  /** GenerateFromPassword refuses passwords longer than this many bytes. */
  const MaxPasswordBytes := 72

  const ErrPasswordTooLong := "bcrypt: password length exceeds 72 bytes"
  const ErrMismatchedHashAndPassword := "crypto/bcrypt: hashedPassword is not the hash of the given password"

  /** The expensive key schedule's output, kept abstract. */
  datatype Checksum = Eks(Bytes, Bytes)

  datatype PasswordHash = PasswordHash(salt: Bytes, checksum: Checksum)

  function Hash(salt: Bytes, password: Bytes): PasswordHash {
    PasswordHash(salt, Eks(salt, password))
  }

  /** `bcrypt.GenerateFromPassword`, with the random salt supplied by the caller. */
  function GenerateFromPassword(password: Bytes, salt: Bytes): (r: Result<PasswordHash, string>)
    ensures r.Success? <==> |password| <= MaxPasswordBytes
    ensures r.Success? ==> r.value == Hash(salt, password) && r.value.salt == salt
    ensures r.Failure? ==> r.error == ErrPasswordTooLong
  {
    if |password| > MaxPasswordBytes then Failure(ErrPasswordTooLong)
    else Success(Hash(salt, password))
  }

  /**
   * `bcrypt.CompareHashAndPassword` succeeds exactly when hashing the
   * candidate with the stored salt gives back the stored hash.
   */
  function CompareHashAndPassword(hashed: PasswordHash, password: Bytes): (ok: bool)
    ensures ok <==> exists salt :: hashed == Hash(salt, password)
  {
    assert hashed.checksum == Eks(hashed.salt, password) ==> hashed == Hash(hashed.salt, password);
    hashed.checksum == Eks(hashed.salt, password)
  }

  /** A hash verifies exactly the password it was made from. */
  lemma CompareHash(salt: Bytes, password: Bytes, candidate: Bytes)
    ensures CompareHashAndPassword(Hash(salt, password), candidate) <==> candidate == password
  {
  }
}
