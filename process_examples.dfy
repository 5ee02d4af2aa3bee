/** Dispatch sessions worked out on the specification `Dispatch.Serve`.
    Wire bytes are written as literals with the ASCII text beside them. */
module DispatchExamples {
  import opened Bytes
  import opened PacketChecksum
  import opened Hex
  import opened Receive
  import opened ReceiveFacts
  import opened ReceiveExamples
  import opened Dispatch

  const C_LOWER: byte := 0x63  // 'c'

  /** The packet for the one-byte command 'c' is "$c#63". */
  lemma PacketC()
    ensures Packet([C_LOWER]) == [DOLLAR, C_LOWER, HASH, 0x36, 0x33]
  {
    SumStep([C_LOWER], 0);
    assert [C_LOWER][..1] == [C_LOWER];
    assert HexByte(0x63) == [0x36, 0x33];
  }

  /** "$g#67$c#63": the register read is acknowledged and the loop goes
      on; the continue request is acknowledged and the loop returns to the
      host. */
  lemma ReadThenContinue()
    ensures Serve([0x24, 0x67, 0x23, 0x36, 0x37, 0x24, 0x63, 0x23, 0x36, 0x33], 0)
            == Session([G_LOWER, C_LOWER], [ACK_PACKET, ACK_PACKET], 10, true)
  {
    var s: seq<byte> := [0x24, 0x67, 0x23, 0x36, 0x37, 0x24, 0x63, 0x23, 0x36, 0x33];
    PacketG();
    PacketC();
    assert s == [] + Packet([G_LOWER]) + Packet([C_LOWER]);
    AcceptsPacket([], [G_LOWER], Packet([C_LOWER]));
    assert s[5..10] == Packet([C_LOWER]);
    AcceptsPacketAt(s, 5, [C_LOWER]);
    assert RecvLog(Outcome(Some(C_LOWER), 0, 10)) == [ACK_PACKET];
    assert RecvLog(Outcome(Some(G_LOWER), 0, 5)) == [ACK_PACKET];
  }

  /** "$g#67" alone: the register read is acknowledged, then the input
      runs out before a continue or step request. */
  lemma ReadThenInputEnds()
    ensures Serve([0x24, 0x67, 0x23, 0x36, 0x37], 0) == Session([G_LOWER], [ACK_PACKET], 5, false)
  {
    BasicRecv();
    assert RecvLog(Outcome(Some(G_LOWER), 0, 5)) == [ACK_PACKET];
    assert Scan([0x24, 0x67, 0x23, 0x36, 0x37], 5) == Outcome(None, 0, 5);
  }
}
