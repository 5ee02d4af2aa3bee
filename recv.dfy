/** The receive side of the packet framer (`minigdbstubRecv`): skip to
    `$`, collect the packet data up to `#`, read two checksum digits,
    and either acknowledge and return the command byte or ask for a
    retransmission and start over. */
module Receive {
  import opened Bytes
  import opened PacketChecksum
  import opened Hex
  import opened DynBuffer
  import opened Transport

  /** `ACK_PACKET`, "+$#00". */
  const ACK_PACKET: seq<byte> := [PLUS, DOLLAR, HASH, 0x30, 0x30]
  /** `RESEND_PACKET`, "-$#00". */
  const RESEND_PACKET: seq<byte> := [MINUS, DOLLAR, HASH, 0x30, 0x30]
  /** Initial capacity of the receive buffer. */
  const RECV_BUFFER_SIZE: nat := 256

  /** What one receive does to an input read from some position: the
      command byte it returns (`None` when the input runs out first), how
      many retransmissions it requested, and where it stops reading. */
  datatype Outcome = Outcome(command: Option<byte>, resends: nat, next: nat)

  /** Looking for `$` at position `i`; everything else is discarded. */
  function Scan(s: seq<byte>, i: nat): (o: Outcome)
    requires i <= |s|
    ensures i <= o.next <= |s|
    ensures o.command.Some? ==> i + 4 <= o.next
    ensures o.command.None? ==> o.next == |s|
    decreases |s| - i, 1
  {
    if i == |s| then Outcome(None, 0, |s|)
    else if s[i] == DOLLAR then Body(s, i + 1, i + 1)
    else Scan(s, i + 1)
  }

  /** Packet data `s[start..i]` collected so far, looking for `#`. */
  function Body(s: seq<byte>, start: nat, i: nat): (o: Outcome)
    requires start <= i <= |s|
    ensures i <= o.next <= |s|
    ensures o.command.Some? ==> i + 3 <= o.next
    ensures o.command.None? ==> o.next == |s|
    decreases |s| - i, 1
  {
    if i == |s| then Outcome(None, 0, |s|)
    else if s[i] == HASH then Check(s, start, i)
    else Body(s, start, i + 1)
  }

  /** `#` found at `h`: the two bytes after it are the checksum field,
      compared by value with the checksum of the packet data
      `s[start..h]`. On a match the command is the first byte after `$`
      (the `#` itself when the data is empty); on a mismatch one
      retransmission is requested and scanning resumes after the field. */
  function Check(s: seq<byte>, start: nat, h: nat): (o: Outcome)
    requires start <= h < |s|
    ensures h < o.next <= |s|
    ensures o.command.Some? ==> h + 3 <= o.next
    ensures o.command.None? ==> o.next == |s|
    decreases |s| - h, 0
  {
    if h + 2 >= |s| then Outcome(None, 0, |s|)
    else if HexPrefixValue(s[h + 1..h + 3]) == Checksum(s[start..h]) then
      Outcome(Some(s[start]), 0, h + 3)
    else
      var r := Scan(s, h + 3);
      Outcome(r.command, r.resends + 1, r.next)
  }

  /** The replies one receive sends: a retransmission request per rejected
      packet, then one acknowledgement if a packet was accepted. */
  function RecvLog(o: Outcome): (l: seq<seq<byte>>)
    ensures |l| == o.resends + (if o.command.Some? then 1 else 0)
    ensures forall k :: 0 <= k < o.resends ==> l[k] == RESEND_PACKET
    ensures o.command.Some? ==> l[|l| - 1] == ACK_PACKET
  {
    Repeat(RESEND_PACKET, o.resends) + (if o.command.Some? then [ACK_PACKET] else [])
  }

  /** `o` after `k` more retransmission requests made before it. */
  function Bump(o: Outcome, k: nat): Outcome
  {
    Outcome(o.command, o.resends + k, o.next)
  }

  /** The first inner loop of `minigdbstubRecv`: read and discard bytes up
      to and including the next `$`. */
  method AwaitPacketStart(t: Link) returns (found: bool)
    requires t.Valid()
    modifies t`cursor
    ensures t.Valid() && old(t.cursor) <= t.cursor
    ensures found ==> old(t.cursor) < t.cursor &&
                      Scan(t.input, old(t.cursor)) == Body(t.input, t.cursor, t.cursor)
    ensures !found ==> t.cursor == |t.input| && Scan(t.input, old(t.cursor)) == Outcome(None, 0, |t.input|)
  {
    while true
      invariant t.Valid() && old(t.cursor) <= t.cursor
      invariant Scan(t.input, old(t.cursor)) == Scan(t.input, t.cursor)
      decreases |t.input| - t.cursor
    {
      var c := t.GetChar();
      if c.None? {
        return false;
      }
      if c.value == DOLLAR {
        return true;
      }
    }
  }

  /** The second inner loop of `minigdbstubRecv`: collect the packet data
      up to `#` into `charBuf`, then the `#`, the two checksum digits and
      a terminator. `checksumOffset` is where the digits start; `h` is the
      position of the `#` in the input. */
  method ReadPacketData(t: Link, charBuf: DynCharBuffer) returns (complete: bool, checksumOffset: nat, ghost h: nat)
    requires t.Valid() && charBuf.Valid() && charBuf.size > 0 && charBuf.used == 0
    modifies t`cursor, charBuf, charBuf.buffer
    ensures t.Valid() && charBuf.Valid() && charBuf.size > 0
    ensures fresh(charBuf.buffer) || charBuf.buffer == old(charBuf.buffer)
    ensures old(t.cursor) <= h <= |t.input|
    ensures h < |t.input| ==> t.input[h] == HASH
    ensures HASH !in t.input[old(t.cursor)..h]
    ensures complete ==> t.cursor == h + 3 <= |t.input|
    ensures complete ==> checksumOffset == h - old(t.cursor) + 1
    ensures complete ==> charBuf.Contents() == t.input[old(t.cursor)..h] + [HASH, t.input[h + 1], t.input[h + 2], NUL]
    ensures !complete ==> t.cursor == |t.input| < h + 3
  {
    ghost var s, start := t.input, t.cursor;
    var currentOffset := 0;
    checksumOffset := 0;
    while true
      invariant t.Valid() && start <= t.cursor
      invariant charBuf.Valid() && charBuf.size > 0
      invariant fresh(charBuf.buffer) || charBuf.buffer == old(charBuf.buffer)
      invariant currentOffset == charBuf.used == t.cursor - start
      invariant charBuf.Contents() == s[start..t.cursor]
      invariant HASH !in s[start..t.cursor]
      decreases |s| - t.cursor
    {
      var c := t.GetChar();
      if c.None? {
        return false, checksumOffset, t.cursor;
      }
      ghost var data := charBuf.Contents();
      charBuf.Insert(c.value);
      assert currentOffset + 1 == charBuf.used;
      assert s[start..t.cursor] == data + [c.value];
      if charBuf.buffer[currentOffset] == HASH {
        h := t.cursor - 1;
        currentOffset := currentOffset + 1;
        checksumOffset := currentOffset;
        complete := ReadChecksumField(t, charBuf);
        return complete, checksumOffset, h;
      }
      currentOffset := currentOffset + 1;
    }
  }

  /** The end of that loop: the two checksum digits after `#`, then a
      terminator so that the digits form a C string. */
  method ReadChecksumField(t: Link, charBuf: DynCharBuffer) returns (complete: bool)
    requires t.Valid() && charBuf.Valid() && charBuf.size > 0
    modifies t`cursor, charBuf, charBuf.buffer
    ensures t.Valid() && charBuf.Valid() && charBuf.size > 0
    ensures fresh(charBuf.buffer) || charBuf.buffer == old(charBuf.buffer)
    ensures complete ==> old(t.cursor) + 2 == t.cursor
    ensures complete ==> charBuf.Contents() == old(charBuf.Contents()) + [t.input[t.cursor - 2], t.input[t.cursor - 1], NUL]
    ensures !complete ==> t.cursor == |t.input| < old(t.cursor) + 2
  {
    ghost var data := charBuf.Contents();
    var d1 := t.GetChar();
    if d1.None? {
      return false;
    }
    charBuf.Insert(d1.value);
    var d2 := t.GetChar();
    if d2.None? {
      return false;
    }
    charBuf.Insert(d2.value);
    assert charBuf.Contents() == data + [d1.value, d2.value];
    charBuf.Insert(NUL);
    return true;
  }

  /** The comparison in `minigdbstubRecv`: the value of the checksum
      field at `checksumOffset` (read like `strtol`, up to the terminator)
      against the checksum of the `checksumOffset - 1` bytes of packet data
      before the `#`. */
  method ChecksumMatches(charBuf: DynCharBuffer, checksumOffset: nat) returns (matches: bool)
    requires charBuf.Valid()
    requires 0 < checksumOffset <= charBuf.used
    ensures var data := charBuf.Contents();
      matches == (HexPrefixValue(data[checksumOffset..]) == Checksum(data[..checksumOffset - 1]))
  {
    var goldChecksum := HexPrefixValue(charBuf.buffer[checksumOffset..charBuf.used]);
    var actualChecksum := ComputeChecksum(charBuf.buffer, checksumOffset - 1);
    assert charBuf.buffer[..checksumOffset - 1] == charBuf.Contents()[..checksumOffset - 1];
    matches := goldChecksum == actualChecksum;
  }

  /** What that comparison sees in a buffer holding packet data `s[start..h]`,
      `#`, the two checksum characters and a terminator. */
  lemma PacketChecksumAgrees(data: seq<byte>, s: seq<byte>, start: nat, h: nat)
    requires start <= h && h + 2 < |s| && s[h] == HASH
    requires data == s[start..h] + [HASH, s[h + 1], s[h + 2], NUL]
    ensures data[0] == s[start]
    ensures data[h - start + 1..] == s[h + 1..h + 3] + [NUL]
    ensures HexPrefixValue(data[h - start + 1..]) == HexPrefixValue(s[h + 1..h + 3])
    ensures data[..h - start] == s[start..h]
  {
    assert data[h - start + 1..] == s[h + 1..h + 3] + [NUL];
    HexPrefixStops(s[h + 1..h + 3], [NUL]);
  }

  /** How one pass through the body of the outer loop of
      `minigdbstubRecv` ends. */
  datatype Attempt = Incomplete | BadChecksum | GoodChecksum

  /** One pass: wait for `$`, then read and check a packet. */
  method ReceiveAttempt(t: Link, charBuf: DynCharBuffer) returns (attempt: Attempt)
    requires t.Valid() && charBuf.Valid() && charBuf.size > 0 && charBuf.used == 0
    modifies t`cursor, charBuf, charBuf.buffer
    ensures t.Valid() && charBuf.Valid() && charBuf.size > 0
    ensures fresh(charBuf.buffer) || charBuf.buffer == old(charBuf.buffer)
    ensures attempt == Incomplete ==>
      t.cursor == |t.input| && Scan(t.input, old(t.cursor)) == Outcome(None, 0, |t.input|)
    ensures attempt == BadChecksum ==>
      old(t.cursor) < t.cursor && Scan(t.input, old(t.cursor)) == Bump(Scan(t.input, t.cursor), 1)
    ensures attempt == GoodChecksum ==>
      charBuf.used > 0 && Scan(t.input, old(t.cursor)) == Outcome(Some(charBuf.buffer[0]), 0, t.cursor)
  {
    var found := AwaitPacketStart(t);
    if found {
      attempt := ReadPacket(t, charBuf);
    } else {
      attempt := Incomplete;
    }
  }

  /** The rest of the pass, once `$` has been read: read the packet data,
      `#` and checksum field into `charBuf`, and compare the checksums. */
  method ReadPacket(t: Link, charBuf: DynCharBuffer) returns (attempt: Attempt)
    requires t.Valid() && charBuf.Valid() && charBuf.size > 0 && charBuf.used == 0
    modifies t`cursor, charBuf, charBuf.buffer
    ensures t.Valid() && charBuf.Valid() && charBuf.size > 0
    ensures fresh(charBuf.buffer) || charBuf.buffer == old(charBuf.buffer)
    ensures var o := Body(t.input, old(t.cursor), old(t.cursor));
      && (attempt == Incomplete ==> t.cursor == |t.input| && o == Outcome(None, 0, |t.input|))
      && (attempt == BadChecksum ==> old(t.cursor) < t.cursor && o == Bump(Scan(t.input, t.cursor), 1))
      && (attempt == GoodChecksum ==> charBuf.used > 0 && o == Outcome(Some(charBuf.buffer[0]), 0, t.cursor))
  {
    ghost var s, start := t.input, t.cursor;
    var complete, checksumOffset, h := ReadPacketData(t, charBuf);
    BodyUpTo(s, start, start, h);
    if !complete {
      attempt := Incomplete;
    } else {
      PacketChecksumAgrees(charBuf.Contents(), s, start, h);
      CheckOutcome(s, start, h);
      var matches := ChecksumMatches(charBuf, checksumOffset);
      attempt := if matches then GoodChecksum else BadChecksum;
    }
  }

  /** `minigdbstubRecv`: retry until a packet with a correct checksum
      arrives, requesting a retransmission after each bad one. */
  method Recv(t: Link) returns (command: Option<byte>)
    requires t.Valid()
    modifies t
    ensures t.Valid()
    ensures var o := Scan(t.input, old(t.cursor));
      command == o.command && t.cursor == o.next && t.log == old(t.log) + RecvLog(o)
  {
    ghost var s := t.input;
    ghost var o := Scan(s, t.cursor);
    ghost var resends: nat := 0;
    var charBuf := new DynCharBuffer(RECV_BUFFER_SIZE);
    while true
      invariant t.Valid()
      invariant charBuf.Valid() && fresh(charBuf) && fresh(charBuf.buffer)
      invariant charBuf.size > 0 && charBuf.used == 0
      invariant o == Bump(Scan(s, t.cursor), resends)
      invariant t.log == old(t.log) + Repeat(RESEND_PACKET, resends)
      decreases |s| - t.cursor
    {
      var attempt := ReceiveAttempt(t, charBuf);
      if attempt == Incomplete {
        return None;
      }
      if attempt == BadChecksum {
        charBuf.used := 0;
        t.Send(RESEND_PACKET);
        resends := resends + 1;
        continue;
      }
      command := Some(charBuf.buffer[0]);
      t.Send(ACK_PACKET);
      charBuf.Free();
      return;
    }
  }

  /** One unfolding of `Check` once both checksum bytes are present. */
  lemma CheckOutcome(s: seq<byte>, start: nat, h: nat)
    requires start <= h && h + 2 < |s|
    ensures HexPrefixValue(s[h + 1..h + 3]) == Checksum(s[start..h]) ==>
              Check(s, start, h) == Outcome(Some(s[start]), 0, h + 3)
    ensures HexPrefixValue(s[h + 1..h + 3]) != Checksum(s[start..h]) ==>
              Check(s, start, h) == Bump(Scan(s, h + 3), 1)
  {
  }

  /** Without a `#` in `s[i..h]`, the data is collected up to `h`, where
      the checksum field is checked (or the input ends). */
  lemma {:induction false} BodyUpTo(s: seq<byte>, start: nat, i: nat, h: nat)
    requires start <= i <= h <= |s|
    requires HASH !in s[i..h]
    requires h < |s| ==> s[h] == HASH
    ensures h < |s| ==> Body(s, start, i) == Check(s, start, h)
    ensures h == |s| ==> Body(s, start, i) == Outcome(None, 0, |s|)
    decreases h - i
  {
    if i < h {
      assert s[i] == s[i..h][0];
      assert s[i + 1..h] == s[i..h][1..];
      BodyUpTo(s, start, i + 1, h);
    }
  }
}
