/** What the receive framer promises, stated on its specification
    `Receive.Scan`: noise before `$` is skipped, a well-formed packet is
    accepted, a packet with a wrong checksum is answered with one
    retransmission request, and anything accepted is a well-formed packet. */
module ReceiveFacts {
  import opened Bytes
  import opened PacketChecksum
  import opened Hex
  import opened Receive

  /** A packet on the wire as the Remote Serial Protocol frames it:
      `$`, the data, `#`, and the checksum as two lower-case hex digits. */
  function Packet(data: seq<byte>): seq<byte>
  {
    [DOLLAR] + data + [HASH] + HexByte(Checksum(data))
  }

  /** A valid frame at `d` whose checksum field ends just before `n`. */
  ghost predicate FrameEndingAt(s: seq<byte>, d: nat, n: nat)
  {
    n >= 3 && ValidFrame(s, d, n - 3)
  }

  /** A `$` at `d` and a `#` at `h` enclosing packet data without `#`,
      followed by a checksum field whose value is the data's checksum. */
  ghost predicate ValidFrame(s: seq<byte>, d: nat, h: nat)
  {
    d < h && h + 2 < |s| && s[d] == DOLLAR && s[h] == HASH &&
    HASH !in s[d + 1..h] &&
    HexPrefixValue(s[h + 1..h + 3]) == Checksum(s[d + 1..h])
  }

  /** Resynchronisation: bytes other than `$` are discarded. */
  lemma {:induction false} ScanSkipsNoise(s: seq<byte>, i: nat, j: nat)
    requires i <= j <= |s|
    requires DOLLAR !in s[i..j]
    ensures Scan(s, i) == Scan(s, j)
    decreases j - i
  {
    if i < j {
      assert s[i] == s[i..j][0];
      assert s[i + 1..j] == s[i..j][1..];
      ScanSkipsNoise(s, i + 1, j);
    }
  }

  /** A frame whose checksum field matches is accepted: the command is the
      byte after `$` and reading stops right after the checksum field. */
  lemma AcceptsFrame(s: seq<byte>, d: nat, h: nat)
    requires ValidFrame(s, d, h)
    ensures Scan(s, d) == Outcome(Some(s[d + 1]), 0, h + 3)
  {
    BodyUpTo(s, d + 1, d + 1, h);
  }

  /** A frame whose checksum field does not match costs one retransmission
      request, and reading resumes right after its checksum field. */
  lemma RejectsFrame(s: seq<byte>, d: nat, h: nat)
    requires d < h && h + 2 < |s| && s[d] == DOLLAR && s[h] == HASH
    requires HASH !in s[d + 1..h]
    requires HexPrefixValue(s[h + 1..h + 3]) != Checksum(s[d + 1..h])
    ensures Scan(s, d) == Bump(Scan(s, h + 3), 1)
  {
    BodyUpTo(s, d + 1, d + 1, h);
  }

  /** A packet at position `d` whose checksum digits have the value of its
      data's checksum (whatever their case) is accepted with no
      retransmission; its command byte is the first data byte, or `#` when
      the data is empty. */
  lemma AcceptsDigitsAt(s: seq<byte>, d: nat, data: seq<byte>, digits: seq<byte>)
    requires HASH !in data
    requires |digits| == 2 && HexPrefixValue(digits) == Checksum(data)
    requires d + |data| + 4 <= |s|
    requires s[d..d + |data| + 4] == [DOLLAR] + data + [HASH] + digits
    ensures Scan(s, d) == Outcome(Some((data + [HASH])[0]), 0, d + |data| + 4)
  {
    var h := d + 1 + |data|;
    var f := [DOLLAR] + data + [HASH] + digits;
    assert f[1..1 + |data|] == data;
    assert f[2 + |data|..4 + |data|] == digits;
    SliceOfSlice(s, d, d + |data| + 4, 1, 1 + |data|);
    SliceOfSlice(s, d, d + |data| + 4, 2 + |data|, 4 + |data|);
    assert s[d] == f[0] && s[h] == f[1 + |data|] && s[d + 1] == f[1];
    AcceptsFrame(s, d, h);
  }

  /** A packet at position `d` whose checksum digits do not have the value
      of its data's checksum costs one retransmission request, and reading
      resumes right after the digits. */
  lemma RejectsDigitsAt(s: seq<byte>, d: nat, data: seq<byte>, digits: seq<byte>)
    requires HASH !in data
    requires |digits| == 2 && HexPrefixValue(digits) != Checksum(data)
    requires d + |data| + 4 <= |s|
    requires s[d..d + |data| + 4] == [DOLLAR] + data + [HASH] + digits
    ensures Scan(s, d) == Bump(Scan(s, d + |data| + 4), 1)
  {
    var h := d + 1 + |data|;
    var f := [DOLLAR] + data + [HASH] + digits;
    assert f[1..1 + |data|] == data;
    assert f[2 + |data|..4 + |data|] == digits;
    SliceOfSlice(s, d, d + |data| + 4, 1, 1 + |data|);
    SliceOfSlice(s, d, d + |data| + 4, 2 + |data|, 4 + |data|);
    assert s[d] == f[0] && s[h] == f[1 + |data|];
    RejectsFrame(s, d, h);
  }

  lemma AcceptsPacketAt(s: seq<byte>, d: nat, data: seq<byte>)
    requires HASH !in data
    requires d + |data| + 4 <= |s| && s[d..d + |data| + 4] == Packet(data)
    ensures Scan(s, d) == Outcome(Some((data + [HASH])[0]), 0, d + |data| + 4)
  {
    HexByteRoundTrip(Checksum(data));
    AcceptsDigitsAt(s, d, data, HexByte(Checksum(data)));
  }

  /** Any packet framed as the protocol prescribes, after any noise free of
      `$`, is accepted with no retransmission. */
  lemma AcceptsPacket(noise: seq<byte>, data: seq<byte>, rest: seq<byte>)
    requires DOLLAR !in noise && HASH !in data
    ensures Scan(noise + Packet(data) + rest, 0) ==
            Outcome(Some((data + [HASH])[0]), 0, |noise| + |data| + 4)
  {
    var s := noise + Packet(data) + rest;
    assert s[..|noise|] == noise;
    assert s[|noise|..|noise| + |data| + 4] == Packet(data);
    ScanSkipsNoise(s, 0, |noise|);
    AcceptsPacketAt(s, |noise|, data);
  }

  /** The checksum digits may also be written in upper case. */
  lemma AcceptsUpperCaseChecksum(data: seq<byte>, rest: seq<byte>)
    requires HASH !in data
    ensures Scan([DOLLAR] + data + [HASH] + UpperHexByte(Checksum(data)) + rest, 0) ==
            Outcome(Some((data + [HASH])[0]), 0, |data| + 4)
  {
    var f := [DOLLAR] + data + [HASH] + UpperHexByte(Checksum(data));
    var s := f + rest;
    assert s[0..|data| + 4] == f;
    HexByteRoundTrip(Checksum(data));
    AcceptsDigitsAt(s, 0, data, UpperHexByte(Checksum(data)));
  }

  /** A corrupted packet followed by its correct retransmission: exactly one
      retransmission request, then the packet is accepted. */
  lemma RetransmissionRecovers(data: seq<byte>, bad: seq<byte>)
    requires HASH !in data
    requires |bad| == 2 && HexPrefixValue(bad) != Checksum(data)
    ensures Scan([DOLLAR] + data + [HASH] + bad + Packet(data), 0) ==
            Outcome(Some((data + [HASH])[0]), 1, 2 * |data| + 8)
  {
    var first := [DOLLAR] + data + [HASH] + bad;
    var s := first + Packet(data);
    assert s[0..|data| + 4] == first;
    RejectsDigitsAt(s, 0, data, bad);
    assert s[|first|..|first| + |data| + 4] == Packet(data);
    AcceptsPacketAt(s, |first|, data);
  }

  /** Soundness: whatever is accepted is a well-formed frame whose checksum
      matched, and the command is the byte after its `$`. */
  lemma {:induction false} ScanSound(s: seq<byte>, i: nat)
    requires i <= |s|
    ensures var o := Scan(s, i);
      o.command.Some? ==> exists d :: i <= d && FrameEndingAt(s, d, o.next) && o.command.value == s[d + 1]
    decreases |s| - i, 1
  {
    if i < |s| {
      if s[i] == DOLLAR {
        BodySound(s, i + 1, i + 1);
      } else {
        ScanSound(s, i + 1);
      }
    }
  }

  lemma {:induction false} BodySound(s: seq<byte>, start: nat, i: nat)
    requires 0 < start <= i <= |s| && s[start - 1] == DOLLAR
    requires HASH !in s[start..i]
    ensures var o := Body(s, start, i);
      o.command.Some? ==> exists d :: start - 1 <= d && FrameEndingAt(s, d, o.next) && o.command.value == s[d + 1]
    decreases |s| - i, 1
  {
    if i < |s| {
      if s[i] == HASH {
        CheckSound(s, start, i);
      } else {
        assert s[start..i + 1] == s[start..i] + [s[i]];
        BodySound(s, start, i + 1);
      }
    }
  }

  lemma {:induction false} CheckSound(s: seq<byte>, start: nat, h: nat)
    requires 0 < start <= h < |s| && s[start - 1] == DOLLAR && s[h] == HASH
    requires HASH !in s[start..h]
    ensures var o := Check(s, start, h);
      o.command.Some? ==> exists d :: start - 1 <= d && FrameEndingAt(s, d, o.next) && o.command.value == s[d + 1]
    decreases |s| - h, 0
  {
    if h + 2 < |s| {
      if HexPrefixValue(s[h + 1..h + 3]) == Checksum(s[start..h]) {
        assert FrameEndingAt(s, start - 1, h + 3);
      } else {
        ScanSound(s, h + 3);
      }
    }
  }
}
