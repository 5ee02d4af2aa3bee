/** The Remote Serial Protocol checksum: the sum of the packet-data bytes
    modulo 256 (`minigdbstubComputeChecksum`). */
module PacketChecksum {
  import opened Bytes

  /** Plain sum of the byte values, accumulated from the left. */
  function Sum(s: seq<byte>): nat
  {
    if s == [] then 0 else Sum(s[..|s| - 1]) + s[|s| - 1]
  }

  /** The checksum of `s`, a value in [0, 255]. */
  function Checksum(s: seq<byte>): byte
  {
    Sum(s) % 256
  }

  /** `minigdbstubComputeChecksum(buffer, len)`: the loop adds each of the
      first `len` bytes into an `unsigned char`, which wraps at 256. */
  method ComputeChecksum(buffer: array<byte>, len: nat) returns (checksum: byte)
    requires len <= buffer.Length
    ensures checksum == Sum(buffer[..len]) % 256
  {
    checksum := 0;
    var i := 0;
    while i < len
      invariant 0 <= i <= len
      invariant checksum == Sum(buffer[..i]) % 256
    {
      assert buffer[..i + 1][..i] == buffer[..i];
      checksum := (checksum + buffer[i]) % 256;
      i := i + 1;
    }
  }

  /** The sum splits over concatenation. */
  lemma {:induction false} SumAppend(a: seq<byte>, b: seq<byte>)
    ensures Sum(a + b) == Sum(a) + Sum(b)
  {
    if b != [] {
      var c := b[..|b| - 1];
      assert (a + b)[..|a + b| - 1] == a + c;
      SumAppend(a, c);
    } else {
      assert a + b == a;
    }
  }

  /** The checksum of a concatenation is the wrapped sum of the parts'
      checksums, so it can be computed incrementally. */
  lemma ChecksumAppend(a: seq<byte>, b: seq<byte>)
    ensures Checksum(a + b) == (Checksum(a) + Checksum(b)) % 256
  {
    SumAppend(a, b);
  }

  /** One more byte adds its value to the sum. */
  lemma SumStep(s: seq<byte>, k: nat)
    requires k < |s|
    ensures Sum(s[..k + 1]) == Sum(s[..k]) + s[k]
  {
    assert s[..k + 1][..k] == s[..k];
  }
}
