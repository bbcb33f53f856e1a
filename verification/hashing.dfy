/**
 Password hashing (werkzeug's `generate_password_hash` / `check_password_hash`)
 kept abstract. The handlers receive a `Hasher` as a parameter; salting,
 iteration counts and constant-time comparison are not modelled.
 */
module Hashing {

  /** A digest producer and the matching checker. */
  datatype Hasher = Hasher(generate: string -> string, check: (string, string) -> bool)

  /** The only property the model relies on: a digest made from a password
      checks against that same password. Nothing is assumed about injectivity. */
  ghost predicate Sound(h: Hasher) {
    forall p :: h.check(h.generate(p), p)
  }
}
