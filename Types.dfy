/** Machine-level types shared by the whole model: Go's `byte` and `uint64`,
    and the Option/Result wrappers used for lookups and error returns. */
module Types {

  /** A Go `byte`. */
  type byte = x: int | 0 <= x < 256

  /** 2^64: one more than the largest Go `uint64`. */
  const Uint64Limit: int := 0x1_0000_0000_0000_0000

  /** A Go `uint64`: 0 <= x < Uint64Limit. The bound is written as a literal,
      which keeps the proofs about counters cheap. */
  type uint64 = x: int | 0 <= x < 0x1_0000_0000_0000_0000

  datatype Option<T> = None | Some(value: T)

  datatype Result<T, E> = Success(value: T) | Failure(error: E)

  /** The ASCII code of `_`, the separator of the canonical signed data. */
  const Underscore: byte := 95

  predicate IsAscii(s: string) {
    forall i :: 0 <= i < |s| ==> s[i] as int < 128
  }

  /** Go's `[]byte(s)` for a string made of ASCII characters only
      (UTF-8 encodes each such character as its own code). */
  function AsciiBytes(s: string): seq<byte>
    requires IsAscii(s)
  {
    seq(|s|, i requires 0 <= i < |s| => s[i] as int)
  }

  /** The bytes of a concatenation are the concatenated bytes. */
  lemma {:induction false} AsciiBytesAppend(a: string, b: string)
    requires IsAscii(a) && IsAscii(b)
    ensures IsAscii(a + b) && AsciiBytes(a + b) == AsciiBytes(a) + AsciiBytes(b)
  {
    assert forall i :: 0 <= i < |a + b| ==> (a + b)[i] == if i < |a| then a[i] else b[i - |a|];
  }
}
