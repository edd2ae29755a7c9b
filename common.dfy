/** Values shared by the word encoder, the feedback scorer, the commitment
    scheme and the dictionary check: field elements, UTF-16 code units, the
    error taxonomy and the abstract Poseidon hash. */
module Common {

  /** A field element. The values handled here (character codes, feedback
      digits, bit indices, salts and hashes) are treated as naturals; the
      field modulus is never reached by the arithmetic that is modelled. */
  type Field = nat

  /** A UTF-16 code unit, the unit a JavaScript string is made of and the
      value `charCodeAt` returns. */
  type CodeUnit = c: nat | c < 0x1_0000

  /** Errors raised by the modelled code. */
  datatype Error =
    | InvalidLength   // "Word must be 5 letters"

  datatype Result<+T> = Success(value: T) | Failure(error: Error)

  /** The Poseidon hash over a list of field elements is an uninterpreted
      function: every operation that hashes takes it as a parameter `hash`.
      Collision resistance, where a property needs it, is stated as this
      predicate and appears as an explicit hypothesis. */
  ghost predicate Injective(hash: seq<Field> -> Field)
  {
    forall a, b :: hash(a) == hash(b) ==> a == b
  }
}
