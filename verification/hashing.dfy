/** The password hashing library (bcrypt) as seen by the routes: an opaque pair of functions.
    Only the properties the routes rely on are stated, as predicates a caller may assume of a hasher. */
module Hashing {

  /** The cost parameter every route passes to `bcrypt.hash`. */
  const SaltRounds: nat := 10

  /** `hash(rounds, salt, password)` is the stored digest; the salt is drawn at random by the library,
      so it is an input here. `compare(password, digest)` is `bcrypt.compare`. */
  datatype Hasher = Hasher(hash: (nat, string, string) -> string, compare: (string, string) -> bool)

  /** The round trip the library promises: a password always verifies against its own digest. */
  ghost predicate Sound(h: Hasher) {
    forall rounds, salt, password :: h.compare(password, h.hash(rounds, salt, password))
  }

  /** A digest is never the plaintext it was computed from. */
  ghost predicate Conceals(h: Hasher) {
    forall rounds, salt, password :: h.hash(rounds, salt, password) != password
  }
}
