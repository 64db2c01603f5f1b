/** The stand-alone NOOP sender of `test_noop.py`. Its header builder,
    checksum loop and packet builder repeat those of `cfs_commands.py`; each
    is transcribed here and shown to be the same function as the shared one
    in `CfsCommands`. The file adds its message id constant and the one
    packet it builds. */
module TestNoop {
  import opened Bytes
  import CfsCommands

  const EsCmdTopicId := 6

  /** `ES_CMD_MID`: the command base OR-ed with topic 6, the topic not
      masked here; `EsCmdMidValue` derives the value. */
  const EsCmdMid := 0x1806

  const EsNoopCc := 0

  lemma EsCmdMidValue()
    ensures EsCmdMid == BitOr(CfsCommands.CmdBaseMid, EsCmdTopicId)
    ensures EsCmdMid == CfsCommands.TopicIdToMid(EsCmdTopicId)
  {
    CfsCommands.OrBelow11(3, EsCmdTopicId);
  }

  /** This file's `_ccsds_primary_header`: the same 6-byte layout, and the
      same function as the shared one. */
  function PrimaryHeader(streamId: int, seqCount: int, pktLenMinus1: int): (h: seq<byte>)
    ensures |h| == 6
    ensures UnpackU16(h[0..2]) == 0x1800 + streamId % 0x800
    ensures UnpackU16(h[2..4]) == 0xC000 + seqCount % 0x4000
    ensures UnpackU16(h[4..6]) == pktLenMinus1 % 0x10000
    ensures h == CfsCommands.PrimaryHeader(streamId, seqCount, pktLenMinus1)
  {
    var pktId := CfsCommands.PacketIdFlags + streamId % 0x800;
    var seqCtrl := CfsCommands.SeqFlagsUnsegmented + seqCount % 0x4000;
    PackU16x3(pktId, seqCtrl, pktLenMinus1 % 0x10000)
  }

  /** This file's `_cfs_checksum_xor`: the accumulator loop returns the XOR
      fold of the packet. */
  method ChecksumXor(packet: seq<byte>) returns (c: int)
    ensures 0 <= c < 256
    ensures c == XorFold(packet)
  {
    var acc: nat := 0;
    for i := 0 to |packet|
      invariant acc == XorFold(packet[..i])
    {
      assert packet[..i + 1][..i] == packet[..i];
      acc := BitXor(acc, packet[i]);
    }
    assert packet[..|packet|] == packet;
    c := acc % 256;
  }

  /** This file's `build_cfs_command`: the same layout, and the same packet
      as the shared builder. */
  function BuildCommand(mid: int, cmdCode: int, payload: seq<byte>, seqCount: int): (pkt: seq<byte>)
    ensures |pkt| == 8 + |payload|
    ensures pkt[..6] == PrimaryHeader(mid, seqCount, |payload| + 1)
    ensures pkt[6] == cmdCode % 256
    ensures pkt[8..] == payload
    ensures pkt == CfsCommands.BuildCommand(mid, cmdCode, payload, seqCount)
  {
    var sec := [cmdCode % 256, 0];
    var totalLen := 6 + |sec| + |payload|;
    var pktLenMinus1 := (totalLen - 1) - 6;
    var hdr := PrimaryHeader(mid, seqCount, pktLenMinus1);
    var pktWoCksum := hdr + sec + payload;
    var c := XorFold(pktWoCksum);
    var secWithCksum := [cmdCode % 256, c];
    hdr + secWithCksum + payload
  }

  /** The length field of this copy's packets is the byte count after the
      header minus one, modulo 2^16. */
  lemma LengthField(mid: int, cmdCode: int, payload: seq<byte>, seqCount: int)
    ensures UnpackU16(BuildCommand(mid, cmdCode, payload, seqCount)[4..6]) == (|payload| + 1) % 0x10000
  {
    CfsCommands.LengthField(mid, cmdCode, payload, seqCount);
  }

  /** The XOR fold of every packet this copy builds is 0, byte 7 being the
      fold of the provisional packet. */
  lemma ChecksumFixpoint(mid: int, cmdCode: int, payload: seq<byte>, seqCount: int)
    ensures var pkt := BuildCommand(mid, cmdCode, payload, seqCount);
            XorFold(pkt) == 0 && pkt[7] == XorFold(pkt[7 := 0])
  {
    CfsCommands.ChecksumFixpoint(mid, cmdCode, payload, seqCount);
    CfsCommands.ChecksumByte(mid, cmdCode, payload, seqCount);
  }

  /** `message_cFS`: the ES NOOP packet, sequence count 1, empty payload, is
      the 8 bytes 18 06 C0 01 00 01 00 DE, whose XOR fold is 0. */
  lemma NoopPacket()
    ensures BuildCommand(EsCmdMid, EsNoopCc, [], 1)
         == [0x18, 0x06, 0xC0, 0x01, 0x00, 0x01, 0x00, 0xDE]
    ensures XorFold(BuildCommand(EsCmdMid, EsNoopCc, [], 1)) == 0
  {
    CfsCommands.EsNoopPacket();
    CfsCommands.ChecksumFixpoint(EsCmdMid, EsNoopCc, [], 1);
  }
}
