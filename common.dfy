/** Values shared by the filesystem builder and the buffer handler. */
module Common {

  /** Go's `byte` (uint8). */
  newtype byte = x: int | 0 <= x < 256

  datatype Option<+T> = None | Some(value: T)

  /** A Go `(value, error)` pair in which exactly one side is meaningful. */
  datatype Result<+T, +E> = Success(value: T) | Failure(error: E)

  /** Go's `time.Time`. The code only ever copies it (from a source file to
      its handle, from the caller to the handler), so a single integer stands
      for it. */
  datatype Time = Time(wall: int)

  /** Error values. `NotFound` is the package's own `ErrNotFound`; every other
      error comes from a collaborator (the source tree, the gzip reader, an
      `io.Reader`) and is only passed along. */
  datatype Error = NotFound | IoError(message: string)

  function Min(a: int, b: int): int
  {
    if a <= b then a else b
  }

  /** The bytes of an ASCII string, as `[]byte("...")` gives them. */
  function Ascii(s: string): (b: seq<byte>)
    requires forall i | 0 <= i < |s| :: s[i] as int < 256
    ensures |b| == |s|
    ensures forall i | 0 <= i < |s| :: b[i] as int == s[i] as int
  {
    seq(|s|, i requires 0 <= i < |s| => s[i] as int as byte)
  }

  /** A slice of the bytes is the bytes of the slice. */
  lemma AsciiSlice(s: string, i: int, j: int)
    requires forall k | 0 <= k < |s| :: s[k] as int < 256
    requires 0 <= i <= j <= |s|
    ensures Ascii(s)[i..j] == Ascii(s[i..j])
  {
  }
}
