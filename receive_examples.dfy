/** The repository's test packets and a few further receive scenarios,
    worked out on the specification of the receive framer. Wire bytes are written as
    literals with the ASCII text beside them. */
module ReceiveExamples {
  import opened Bytes
  import opened PacketChecksum
  import opened Hex
  import opened Receive
  import opened ReceiveFacts

  const G_LOWER: byte := 0x67  // 'g'

  /** The packet for the one-byte command 'g' is "$g#67". */
  lemma PacketG()
    ensures Packet([G_LOWER]) == [DOLLAR, G_LOWER, HASH, 0x36, 0x37]
  {
    SumStep([G_LOWER], 0);
    assert [G_LOWER][..1] == [G_LOWER];
    assert HexByte(0x67) == [0x36, 0x37];
  }

  /** "$g#67" yields the command 'g'. */
  lemma BasicRecv()
    ensures Scan([0x24, 0x67, 0x23, 0x36, 0x37], 0) == Outcome(Some(G_LOWER), 0, 5)
  {
    PacketG();
    assert [0x24, 0x67, 0x23, 0x36, 0x37] == [] + Packet([G_LOWER]) + [];
    AcceptsPacket([], [G_LOWER], []);
  }

  /** A leading acknowledgement is skipped: "+$g#67" yields 'g'. */
  lemma LeadingAckIgnored()
    ensures Scan([0x2b, 0x24, 0x67, 0x23, 0x36, 0x37], 0) == Outcome(Some(G_LOWER), 0, 6)
  {
    PacketG();
    assert [0x2b, 0x24, 0x67, 0x23, 0x36, 0x37] == [PLUS] + Packet([G_LOWER]) + [];
    AcceptsPacket([PLUS], [G_LOWER], []);
  }

  /** "+$G#47" yields 'G'. */
  lemma LeadingAckThenG()
    ensures Scan([0x2b, 0x24, 0x47, 0x23, 0x34, 0x37], 0) == Outcome(Some(0x47), 0, 6)
  {
    SumStep([0x47], 0);
    assert [0x47][..1] == [0x47];
    assert HexByte(0x47) == [0x34, 0x37];
    assert [0x2b, 0x24, 0x47, 0x23, 0x34, 0x37] == [PLUS] + Packet([0x47]) + [];
    AcceptsPacket([PLUS], [0x47], []);
  }

  /** "+$c#63" yields 'c'. */
  lemma LeadingAckThenC()
    ensures Scan([0x2b, 0x24, 0x63, 0x23, 0x36, 0x33], 0) == Outcome(Some(0x63), 0, 6)
  {
    SumStep([0x63], 0);
    assert [0x63][..1] == [0x63];
    assert HexByte(0x63) == [0x36, 0x33];
    assert [0x2b, 0x24, 0x63, 0x23, 0x36, 0x33] == [PLUS] + Packet([0x63]) + [];
    AcceptsPacket([PLUS], [0x63], []);
  }

  /** The longest of the test packets: "+$Ga700467f#46" yields 'G'. */
  lemma LongPacket()
    ensures Scan([0x2b, 0x24, 0x47, 0x61, 0x37, 0x30, 0x30, 0x34, 0x36, 0x37, 0x66, 0x23, 0x34, 0x36], 0)
            == Outcome(Some(0x47), 0, 14)
  {
    var data: seq<byte> := [0x47, 0x61, 0x37, 0x30, 0x30, 0x34, 0x36, 0x37, 0x66];
    SumStep(data, 0); SumStep(data, 1); SumStep(data, 2);
    SumStep(data, 3); SumStep(data, 4); SumStep(data, 5);
    SumStep(data, 6); SumStep(data, 7); SumStep(data, 8);
    assert data[..9] == data;
    assert Checksum(data) == 0x46;
    assert HexByte(0x46) == [0x34, 0x36];
    assert Packet(data) == [DOLLAR] + data + [HASH, 0x34, 0x36];
    assert HASH !in data;
    AcceptsPacket([PLUS], data, []);
    assert [PLUS] + Packet(data) + [] ==
           [0x2b, 0x24, 0x47, 0x61, 0x37, 0x30, 0x30, 0x34, 0x36, 0x37, 0x66, 0x23, 0x34, 0x36];
  }

  /** An empty packet "$#00" is accepted and its command is '#'. */
  lemma EmptyPacket()
    ensures Scan([0x24, 0x23, 0x30, 0x30], 0) == Outcome(Some(HASH), 0, 4)
  {
    assert HexByte(0) == [0x30, 0x30];
    assert [0x24, 0x23, 0x30, 0x30] == [] + Packet([]) + [];
    AcceptsPacket([], [], []);
  }

  /** "$g#00" has a wrong checksum: one retransmission request, after which
      the resent "$g#67" is accepted. */
  lemma ResendThenAccept()
    ensures Scan([0x24, 0x67, 0x23, 0x30, 0x30, 0x24, 0x67, 0x23, 0x36, 0x37], 0) == Outcome(Some(G_LOWER), 1, 10)
  {
    var zeros: seq<byte> := [0x30, 0x30];
    PairValue(0x30, 0x30);
    PacketG();
    SumStep([G_LOWER], 0);
    assert [G_LOWER][..1] == [G_LOWER];
    RetransmissionRecovers([G_LOWER], zeros);
    assert [DOLLAR] + [G_LOWER] + [HASH] + zeros + Packet([G_LOWER]) ==
           [0x24, 0x67, 0x23, 0x30, 0x30, 0x24, 0x67, 0x23, 0x36, 0x37];
  }
}
