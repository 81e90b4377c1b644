/** werkzeug's `generate_password_hash` / `check_password_hash`, as an ideal salted hash:
    the stored value remembers only what a check needs, and a check succeeds for
    exactly the password that was hashed, whatever the salt. */
module Passwords {

  datatype PasswordHash = PasswordHash(salt: nat, digest: string)

  /** `generate_password_hash(password)`; the random salt is a parameter. */
  function Hash(password: string, salt: nat): PasswordHash {
    PasswordHash(salt, password)
  }

  /** `check_password_hash(stored, password)`. */
  predicate Check(stored: PasswordHash, password: string) {
    stored.digest == password
  }

  /** A stored hash admits the password it was made from and no other. */
  lemma CheckHash(password: string, attempt: string, salt: nat)
    ensures Check(Hash(password, salt), attempt) <==> attempt == password
  {
  }
}
