/**
 Shared vocabulary of the model: an optional value (Kotlin's nullable types),
 octets as they travel on the socket, and the range of a JVM `Int`.
 */
module Base {

  /** Kotlin's `T?`: `None` stands for `null`. */
  datatype Option<+T> = None | Some(value: T)

  /** One octet of a byte stream. */
  type Byte = b: int | 0 <= b < 256

  /** Bounds of a 32-bit signed JVM `Int`. */
  const INT_MIN: int := -0x8000_0000
  const INT_MAX: int := 0x7FFF_FFFF

  predicate IsInt32(n: int) {
    INT_MIN <= n <= INT_MAX
  }

  type Int32 = n: int | IsInt32(n)

  /** Concatenation regroups freely; stated once so that long proofs need not rediscover it. */
  lemma ConcatAssoc<T>(a: seq<T>, b: seq<T>, c: seq<T>)
    ensures (a + b) + c == a + (b + c)
  {
  }
}
