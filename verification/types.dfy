/** Basic types shared by the hash ring: 32-bit ring positions, the error
    value lookups return, and the hashing configuration. */
module Types {

  /** A position on the circular key space: an unsigned 32-bit integer. */
  newtype uint32 = x: int | 0 <= x < 0x1_0000_0000

  /** The one error a lookup can report: the ring has no positions. */
  datatype RingError = ErrEmptyCircle

  /** The outcome of a lookup: a value, or the ring's error. */
  datatype Result<+T> = Success(value: T) | Failure(error: RingError)

  /** The hashing configuration of a ring. `hash` maps a string to its
      position; `replicaKey` derives the string hashed for virtual node
      `i` of a member. Both are left uninterpreted: any pair of total
      functions is a valid configuration. */
  datatype Hasher = Hasher(hash: string -> uint32, replicaKey: (nat, string) -> string)
}
