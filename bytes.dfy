/** Bytes as they travel over the debugger's transport, and the ASCII
    characters the Remote Serial Protocol gives a meaning to. */
module Bytes {

  /** A C `char` seen as an unsigned 8-bit value. */
  type byte = b: int | 0 <= b < 256

  datatype Option<+T> = None | Some(value: T)

  const DOLLAR: byte := 0x24  // '$', start of a packet
  const HASH: byte := 0x23    // '#', end of the packet data
  const PLUS: byte := 0x2b    // '+', acknowledgement
  const MINUS: byte := 0x2d   // '-', retransmission request
  const NUL: byte := 0        // C string terminator

  /** `n` copies of `x`. */
  function Repeat<T>(x: T, n: nat): (r: seq<T>)
    ensures |r| == n
    ensures forall i :: 0 <= i < n ==> r[i] == x
  {
    if n == 0 then [] else Repeat(x, n - 1) + [x]
  }

  /** A slice of a slice is a slice of the original sequence. */
  lemma SliceOfSlice<T>(s: seq<T>, a: nat, b: nat, lo: nat, hi: nat)
    requires a <= b <= |s| && lo <= hi <= b - a
    ensures s[a..b][lo..hi] == s[a + lo..a + hi]
  {
    forall k | 0 <= k < hi - lo
      ensures s[a..b][lo..hi][k] == s[a + lo + k]
    {
      assert s[a..b][lo..hi][k] == s[a..b][lo + k];
    }
  }
}
