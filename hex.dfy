/** Hexadecimal digits as the receiver reads the two checksum characters
    after `#` (`strtol(..., 16)` in minigdbstub.h), and as a well-formed
    packet writes them. */
module Hex {
  import opened Bytes

  predicate IsDecimalDigit(c: byte) { 0x30 <= c <= 0x39 }   // '0'..'9'
  predicate IsLowerHexLetter(c: byte) { 0x61 <= c <= 0x66 } // 'a'..'f'
  predicate IsUpperHexLetter(c: byte) { 0x41 <= c <= 0x46 } // 'A'..'F'

  predicate IsHexDigit(c: byte)
  {
    IsDecimalDigit(c) || IsLowerHexLetter(c) || IsUpperHexLetter(c)
  }

  /** The value of one hex digit; letters in either case. */
  function DigitValue(c: byte): (v: nat)
    requires IsHexDigit(c)
    ensures v < 16
    ensures IsDecimalDigit(c) <==> v < 10
  {
    if IsDecimalDigit(c) then c - 0x30
    else if IsLowerHexLetter(c) then c - 0x61 + 10
    else c - 0x41 + 10
  }

  /** The lower-case digit for a value below 16. */
  function LowerDigit(v: nat): (c: byte)
    requires v < 16
    ensures IsHexDigit(c) && !IsUpperHexLetter(c) && DigitValue(c) == v
  {
    if v < 10 then 0x30 + v else 0x61 + v - 10
  }

  /** The upper-case digit for a value below 16. */
  function UpperDigit(v: nat): (c: byte)
    requires v < 16
    ensures IsHexDigit(c) && !IsLowerHexLetter(c) && DigitValue(c) == v
  {
    if v < 10 then 0x30 + v else 0x41 + v - 10
  }

  /** Upper-case letters folded to lower case, other bytes unchanged. */
  function ToLower(c: byte): byte
  {
    if 0x41 <= c <= 0x5a then c + 0x20 else c
  }

  function LowerAll(s: seq<byte>): (r: seq<byte>)
    ensures |r| == |s|
    ensures forall i :: 0 <= i < |s| ==> r[i] == ToLower(s[i])
  {
    if s == [] then [] else [ToLower(s[0])] + LowerAll(s[1..])
  }

  /** Number of hex digits at the start of `s`. */
  function HexRunLength(s: seq<byte>): (n: nat)
    ensures n <= |s|
    ensures forall i :: 0 <= i < n ==> IsHexDigit(s[i])
    ensures n < |s| ==> !IsHexDigit(s[n])
  {
    if s == [] || !IsHexDigit(s[0]) then 0 else 1 + HexRunLength(s[1..])
  }

  /** 16 to the power `n`. */
  function Pow16(n: nat): (p: nat)
    ensures p > 0
  {
    if n == 0 then 1 else 16 * Pow16(n - 1)
  }

  /** The base-16 value of a run of digits, most significant first; `n`
      digits hold a value below 16 to the `n`. */
  function HexValue(d: seq<byte>): (v: nat)
    requires forall i :: 0 <= i < |d| ==> IsHexDigit(d[i])
    ensures v < Pow16(|d|)
  {
    if d == [] then 0 else HexValue(d[..|d| - 1]) * 16 + DigitValue(d[|d| - 1])
  }

  /** What `strtol(s, NULL, 16)` yields for a string of hex digits
      followed by anything else: the value of the longest leading run of
      hex digits, 0 when there is none. */
  function HexPrefixValue(s: seq<byte>): (v: nat)
    ensures HexRunLength(s) == 0 ==> v == 0
    ensures v < Pow16(HexRunLength(s))
  {
    HexValue(s[..HexRunLength(s)])
  }

  /** Two lower-case hex digits for a byte, zero-padded on the left. */
  function HexByte(b: byte): seq<byte>
  {
    [LowerDigit(b / 16), LowerDigit(b % 16)]
  }

  /** Two upper-case hex digits for a byte. */
  function UpperHexByte(b: byte): seq<byte>
  {
    [UpperDigit(b / 16), UpperDigit(b % 16)]
  }

  /** Two characters after `#` are read as at most two digits, so the
      value read is a byte and can equal a checksum. */
  lemma PairValue(c1: byte, c2: byte)
    ensures HexPrefixValue([c1, c2]) < 256
    ensures IsHexDigit(c1) && IsHexDigit(c2) ==>
              HexPrefixValue([c1, c2]) == 16 * DigitValue(c1) + DigitValue(c2)
    ensures IsHexDigit(c1) && !IsHexDigit(c2) ==> HexPrefixValue([c1, c2]) == DigitValue(c1)
    ensures !IsHexDigit(c1) ==> HexPrefixValue([c1, c2]) == 0
  {
    var s := [c1, c2];
    if IsHexDigit(c1) && IsHexDigit(c2) {
      assert HexRunLength(s) == 2 && s[..2] == s;
      assert s[..1] == [c1] && [c1][..0] == [];
      assert HexValue([c1]) == DigitValue(c1);
      assert HexValue(s) == HexValue([c1]) * 16 + DigitValue(c2);
    } else if IsHexDigit(c1) {
      assert HexRunLength(s) == 1 && s[..1] == [c1];
      assert [c1][..0] == [];
      assert HexValue([c1]) == DigitValue(c1);
    } else {
      assert HexRunLength(s) == 0;
    }
  }

  /** Both spellings of a byte read back as that byte. */
  lemma HexByteRoundTrip(b: byte)
    ensures |HexByte(b)| == 2 && HexPrefixValue(HexByte(b)) == b
    ensures |UpperHexByte(b)| == 2 && HexPrefixValue(UpperHexByte(b)) == b
  {
    PairValue(LowerDigit(b / 16), LowerDigit(b % 16));
    PairValue(UpperDigit(b / 16), UpperDigit(b % 16));
  }

  /** A terminator (or any non-digit) after the digits does not change the
      value read: `strtol` stops at the first non-digit. */
  lemma {:induction false} HexPrefixStops(s: seq<byte>, t: seq<byte>)
    requires t != [] && !IsHexDigit(t[0])
    ensures HexPrefixValue(s + t) == HexPrefixValue(s)
  {
    HexRunAppend(s, t);
    var n := HexRunLength(s);
    assert (s + t)[..n] == s[..n];
  }

  lemma {:induction false} HexRunAppend(s: seq<byte>, t: seq<byte>)
    requires t != [] && !IsHexDigit(t[0])
    ensures HexRunLength(s + t) == HexRunLength(s)
  {
    if s != [] && IsHexDigit(s[0]) {
      assert (s + t)[1..] == s[1..] + t;
      HexRunAppend(s[1..], t);
    }
  }

  /** Reading is case-insensitive: folding the letters to lower case does
      not change the value read. */
  lemma {:induction false} HexPrefixCaseInsensitive(s: seq<byte>)
    ensures HexPrefixValue(LowerAll(s)) == HexPrefixValue(s)
  {
    var n := HexRunLength(s);
    HexRunLower(s);
    assert LowerAll(s)[..n] == LowerAll(s[..n]);
    HexValueLower(s[..n]);
  }

  lemma HexRunLower(s: seq<byte>)
    ensures HexRunLength(LowerAll(s)) == HexRunLength(s)
  {
  }

  lemma {:induction false} HexValueLower(d: seq<byte>)
    requires forall i :: 0 <= i < |d| ==> IsHexDigit(d[i])
    ensures forall i :: 0 <= i < |d| ==> IsHexDigit(LowerAll(d)[i])
    ensures HexValue(LowerAll(d)) == HexValue(d)
  {
    if d != [] {
      var p := d[..|d| - 1];
      assert LowerAll(d)[..|d| - 1] == LowerAll(p);
      HexValueLower(p);
    }
  }
}
