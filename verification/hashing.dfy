/** The password hasher the application calls into (werkzeug's generate_password_hash and
    check_password_hash). Its algorithm is not modelled: a hasher is any pair of functions, and
    the one fact the authentication flow relies on is stated as the predicate Sound. */
module Hashing {

  /** The random salt generate_password_hash draws; randomness is a parameter of the model. */
  type Salt = string

  datatype Hasher = Hasher(
    /** generate_password_hash(password), for the salt it happened to draw */
    hash: (Salt, string) -> string,
    /** check_password_hash(stored, password) */
    check: (string, string) -> bool)

  /** A hash produced from a password always verifies against that password. */
  ghost predicate Sound(h: Hasher)
  {
    forall salt, password :: h.check(h.hash(salt, password), password)
  }
}
