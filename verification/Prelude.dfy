/** Types shared by the codec and by the session model. */
module Prelude {

  datatype Option<+T> = None | Some(value: T)

  datatype Result<+T, +E> = Ok(value: T) | Err(error: E)

  /** One element of a Python `bytes` value, or one 8-bit colour channel. */
  type byte = b: nat | b < 256

  type bit = b: byte | b < 2

  type Bytes = seq<byte>

  type Bits = seq<bit>

  /** `n` zeros: what padding adds to a byte string or to a bit string. */
  function Zeros(n: nat): (z: seq<bit>)
    ensures |z| == n
  {
    seq(n, _ => 0 as bit)
  }

  /** No value occurs twice. */
  ghost predicate Distinct<T>(s: seq<T>) {
    forall i, j :: 0 <= i < j < |s| ==> s[i] != s[j]
  }
}
