/** The cFS telecommand encoder of `cfs_commands.py`: a CCSDS Space Packet
    primary header (CCSDS 133.0-B-2, section 4.1.3), the cFS command
    secondary header (function code, checksum), the payload, and a checksum
    byte chosen so that the XOR of every byte of the packet is zero; plus
    the topic-id to message-id mapping and the DISPLAY_PARAM payload of the
    sample application. */
module CfsCommands {
  import opened Bytes

  /** CFE_PLATFORM_CMD_BASE_MID: the base message id of commands. */
  const CmdBaseMid := 0x1800

  const SampleAppCmdTopicId := 0x82
  /** The sample application's command message id: the command base OR-ed
      with its topic id, the value `SampleAppCmdMidValue` derives. */
  const SampleAppCmdMid := 0x1882

  const SampleAppNoopCc := 0
  const SampleAppResetCountersCc := 1
  const SampleAppProcessCc := 2
  const SampleAppDisplayParamCc := 3

  /** Width of the text field of DISPLAY_PARAM. */
  const StringValLen := 32

  /* ---------------------------------------------------------------- */
  /* Message ids                                                       */
  /* ---------------------------------------------------------------- */

  /** `cfe_platform_cmd_topicid_to_mid`: the command base OR-ed with the
      low 11 bits of the topic id. The base and the
      masked topic occupy disjoint bits, so the OR is written as the sum it
      equals (`TopicIdToMidIsOr`); the result lies in 0x1800..0x1FFF and
      its low 11 bits are the topic's. */
  function TopicIdToMid(topicId: int): (mid: int)
    ensures 0x1800 <= mid < 0x2000
    ensures mid / 0x800 == 3 && mid % 0x800 == topicId % 0x800
  {
    CmdBaseMid + topicId % 0x800
  }

  /** The message id is the bitwise OR of the base and the masked topic. */
  lemma TopicIdToMidIsOr(topicId: int)
    ensures TopicIdToMid(topicId) == BitOr(CmdBaseMid, topicId % 0x800)
  {
    OrBelow11(3, topicId % 0x800);
  }

  lemma OrBelow11(h: nat, lo: nat)
    requires lo < 0x800
    ensures BitOr(h * 0x800, lo) == h * 0x800 + lo
  {
    assert Pow2(11) == 0x800;
    BitOrDisjoint(h, lo, 11);
  }

  lemma SampleAppCmdMidValue()
    ensures SampleAppCmdMid == BitOr(CmdBaseMid, SampleAppCmdTopicId)
    ensures SampleAppCmdMid == TopicIdToMid(SampleAppCmdTopicId)
  {
    OrBelow11(3, 0x82);
  }

  /** The executive services topic (6) maps to message id 0x1806. */
  lemma EsTopicMid()
    ensures TopicIdToMid(6) == 0x1806
  {}

  /* ---------------------------------------------------------------- */
  /* CCSDS primary header                                              */
  /* ---------------------------------------------------------------- */

  /** The fixed bits of the packet id, built in the source by OR-ing shifted
      fields: version 0 at bit 13, type 1 (command) at bit 12 and the
      secondary-header flag 1 at bit 11; `FlagValues` derives the value. */
  const PacketIdFlags := 0x1800

  /** The sequence flags 11 (an unsegmented packet) shifted to bit 14. */
  const SeqFlagsUnsegmented := 0xC000

  lemma FlagValues()
    ensures PacketIdFlags == BitOr(BitOr(Shl(0, 13), Shl(1, 12)), Shl(1, 11))
    ensures SeqFlagsUnsegmented == Shl(3, 14)
  {
    assert Pow2(11) == 0x800;
    assert Pow2(12) == 0x1000;
    assert Pow2(14) == 0x4000;
    assert BitOr(0, 0x1000) == 0x1000;
    BitOrDisjoint(1, 0x800, 12);
  }

  lemma OrBelow14(h: nat, lo: nat)
    requires lo < 0x4000
    ensures BitOr(h * 0x4000, lo) == h * 0x4000 + lo
  {
    assert Pow2(14) == 0x4000;
    BitOrDisjoint(h, lo, 14);
  }

  /** The primary header: packet id (version 0, type 1 = command,
      secondary-header flag 1, 11-bit APID), sequence control (flags 11 =
      unsegmented, 14-bit count) and the 16-bit length field, each packed
      big-endian. Every input is masked into range, never rejected. The two
      ORs of disjoint bit ranges are written as sums (`HeaderWordsAreOr`). */
  function PrimaryHeader(streamId: int, seqCount: int, pktLenMinus1: int): (h: seq<byte>)
    ensures |h| == 6
    ensures UnpackU16(h[0..2]) == 0x1800 + streamId % 0x800
    ensures UnpackU16(h[2..4]) == 0xC000 + seqCount % 0x4000
    ensures UnpackU16(h[4..6]) == pktLenMinus1 % 0x10000
  {
    var pktId := PacketIdFlags + streamId % 0x800;
    var seqCtrl := SeqFlagsUnsegmented + seqCount % 0x4000;
    PackU16x3(pktId, seqCtrl, pktLenMinus1 % 0x10000)
  }

  /** The packet id and the sequence control word of the header are the
      bitwise ORs of the flags with the masked stream id and count. */
  lemma HeaderWordsAreOr(streamId: int, seqCount: int, pktLenMinus1: int)
    ensures var h := PrimaryHeader(streamId, seqCount, pktLenMinus1);
            UnpackU16(h[0..2]) == BitOr(PacketIdFlags, streamId % 0x800)
            && UnpackU16(h[2..4]) == BitOr(SeqFlagsUnsegmented, seqCount % 0x4000)
  {
    OrBelow11(3, streamId % 0x800);
    OrBelow14(3, seqCount % 0x4000);
  }

  /** The fields of a primary header, as a receiver reads them. */
  datatype HeaderFields = HeaderFields(
    version: int, packetType: int, secHdrFlag: int, apid: int,
    seqFlags: int, seqCount: int, dataLength: int)

  function DecodePrimaryHeader(h: seq<byte>): HeaderFields
    requires |h| == 6
  {
    var id := UnpackU16(h[0..2]);
    var sc := UnpackU16(h[2..4]);
    HeaderFields(id / 0x2000, id / 0x1000 % 2, id / 0x800 % 2, id % 0x800,
                 sc / 0x4000, sc % 0x4000, UnpackU16(h[4..6]))
  }

  /** The fixed bits every header built here carries. */
  predicate IsCfsCommandHeader(f: HeaderFields)
  {
    f.version == 0 && f.packetType == 1 && f.secHdrFlag == 1 && f.seqFlags == 3
  }

  /** Decoding a built header yields the fixed bits and the masked inputs. */
  lemma DecodeEncodedHeader(streamId: int, seqCount: int, pktLenMinus1: int)
    ensures DecodePrimaryHeader(PrimaryHeader(streamId, seqCount, pktLenMinus1))
         == HeaderFields(0, 1, 1, streamId % 0x800, 3, seqCount % 0x4000, pktLenMinus1 % 0x10000)
  {
    var h := PrimaryHeader(streamId, seqCount, pktLenMinus1);
    FieldsOfPacketId(streamId % 0x800);
    FieldsOfSeqCtrl(seqCount % 0x4000);
  }

  lemma FieldsOfPacketId(apid: int)
    requires 0 <= apid < 0x800
    ensures (0x1800 + apid) / 0x2000 == 0 && (0x1800 + apid) / 0x1000 % 2 == 1
    ensures (0x1800 + apid) / 0x800 % 2 == 1 && (0x1800 + apid) % 0x800 == apid
  {}

  lemma PacketIdOfFields(id: int)
    requires 0 <= id < 0x10000
    requires id / 0x2000 == 0 && id / 0x1000 % 2 == 1 && id / 0x800 % 2 == 1
    ensures id == 0x1800 + id % 0x800
  {}

  lemma SeqCtrlOfFields(sc: int)
    requires 0 <= sc < 0x10000 && sc / 0x4000 == 3
    ensures sc == 0xC000 + sc % 0x4000
  {}

  lemma FieldsOfSeqCtrl(count: int)
    requires 0 <= count < 0x4000
    ensures (0xC000 + count) / 0x4000 == 3 && (0xC000 + count) % 0x4000 == count
  {}

  /** Conversely, every 6-byte header with the fixed command bits is the
      header built from its own APID, count and length field. */
  lemma EncodeDecodedHeader(h: seq<byte>)
    requires |h| == 6 && IsCfsCommandHeader(DecodePrimaryHeader(h))
    ensures var f := DecodePrimaryHeader(h);
            PrimaryHeader(f.apid, f.seqCount, f.dataLength) == h
  {
    var f := DecodePrimaryHeader(h);
    var h' := PrimaryHeader(f.apid, f.seqCount, f.dataLength);
    PacketIdOfFields(UnpackU16(h[0..2]));
    SeqCtrlOfFields(UnpackU16(h[2..4]));
    UnpackU16Injective(h'[0..2], h[0..2]);
    UnpackU16Injective(h'[2..4], h[2..4]);
    UnpackU16Injective(h'[4..6], h[4..6]);
    assert h' == h'[0..2] + h'[2..4] + h'[4..6];
    assert h == h[0..2] + h[2..4] + h[4..6];
  }

  /** Changing only the sequence count leaves the packet id and the length
      field alone; changing only the stream id leaves the sequence control and
      the length field alone. */
  lemma HeaderFieldIsolation(streamId: int, streamId': int, seqCount: int, seqCount': int, pktLenMinus1: int)
    ensures PrimaryHeader(streamId, seqCount, pktLenMinus1)[0..2] == PrimaryHeader(streamId, seqCount', pktLenMinus1)[0..2]
    ensures PrimaryHeader(streamId, seqCount, pktLenMinus1)[4..6] == PrimaryHeader(streamId, seqCount', pktLenMinus1)[4..6]
    ensures PrimaryHeader(streamId, seqCount, pktLenMinus1)[2..6] == PrimaryHeader(streamId', seqCount, pktLenMinus1)[2..6]
  {
    var a, b, c := PrimaryHeader(streamId, seqCount, pktLenMinus1), PrimaryHeader(streamId, seqCount', pktLenMinus1),
                   PrimaryHeader(streamId', seqCount, pktLenMinus1);
    UnpackU16Injective(a[0..2], b[0..2]);
    UnpackU16Injective(a[4..6], b[4..6]);
    UnpackU16Injective(a[2..4], c[2..4]);
    UnpackU16Injective(a[4..6], c[4..6]);
    assert a[2..6] == a[2..4] + a[4..6];
    assert c[2..6] == c[2..4] + c[4..6];
  }

  /* ---------------------------------------------------------------- */
  /* Checksum                                                          */
  /* ---------------------------------------------------------------- */

  /** `_cfs_checksum_xor`: the loop XORs every byte into an accumulator
      and returns it masked with 0xFF; the result is the XOR fold of the
      packet, a value in 0..255. */
  method ChecksumXor(packet: seq<byte>) returns (c: int)
    ensures 0 <= c < 256
    ensures c == XorFold(packet)
  {
    var acc: nat := 0;
    for i := 0 to |packet|
      invariant acc == XorFold(packet[..i])
    {
      assert packet[..i + 1][..i] == packet[..i];
      acc := BitXor(acc, packet[i]);
    }
    assert packet[..|packet|] == packet;
    c := acc % 256;
  }

  /* ---------------------------------------------------------------- */
  /* Command packet                                                    */
  /* ---------------------------------------------------------------- */

  /** `build_cfs_command`: header, secondary header with the checksum
      provisionally 0, payload; then the checksum byte is set to the XOR of
      that provisional packet. */
  function BuildCommand(mid: int, cmdCode: int, payload: seq<byte>, seqCount: int): (pkt: seq<byte>)
    ensures |pkt| == 8 + |payload|
    ensures pkt[..6] == PrimaryHeader(mid, seqCount, |payload| + 1)
    ensures pkt[6] == cmdCode % 256
    ensures pkt[8..] == payload
  {
    var sec := [cmdCode % 256, 0];
    var totalLen := 6 + |sec| + |payload|;
    var pktLenMinus1 := (totalLen - 1) - 6;
    var hdr := PrimaryHeader(mid, seqCount, pktLenMinus1);
    var pktWoCksum := hdr + sec + payload;
    var c := XorFold(pktWoCksum);
    var secWithCksum := [cmdCode % 256, c];
    var pkt := hdr + secWithCksum + payload;
    assert pkt[..6] == hdr;
    assert pkt[8..] == payload;
    assert pkt[6] == sec[0] && pkt[7] == c;
    pkt
  }

  /** The checksum byte is the XOR of the packet with that byte set to 0,
      that is, of the provisional packet. */
  lemma ChecksumByte(mid: int, cmdCode: int, payload: seq<byte>, seqCount: int)
    ensures var pkt := BuildCommand(mid, cmdCode, payload, seqCount);
            pkt[7] == XorFold(pkt[7 := 0])
  {
    var pkt := BuildCommand(mid, cmdCode, payload, seqCount);
    var hdr := PrimaryHeader(mid, seqCount, |payload| + 1);
    var provisional := hdr + [cmdCode % 256, 0] + payload;
    var c := XorFold(provisional);
    assert pkt == hdr + [cmdCode % 256, c] + payload;
    assert pkt[7] == c;
    assert pkt[7 := 0] == provisional by {
      assert |pkt[7 := 0]| == |provisional|;
      forall i | 0 <= i < |provisional| ensures pkt[7 := 0][i] == provisional[i] {
        if i != 7 {
          assert pkt[7 := 0][i] == pkt[i];
        }
      }
    }
  }

  /** The checksum fixpoint: the XOR of every byte of a built packet is 0. */
  lemma ChecksumFixpoint(mid: int, cmdCode: int, payload: seq<byte>, seqCount: int)
    ensures XorFold(BuildCommand(mid, cmdCode, payload, seqCount)) == 0
  {
    var pkt := BuildCommand(mid, cmdCode, payload, seqCount);
    var provisional := pkt[7 := 0];
    ChecksumByte(mid, cmdCode, payload, seqCount);
    assert pkt == provisional[7 := XorFold(provisional)];
    XorFoldFixpoint(provisional, 7);
  }

  /** The length field holds the number of bytes after the primary header,
      minus one, modulo 2^16. */
  lemma LengthField(mid: int, cmdCode: int, payload: seq<byte>, seqCount: int)
    ensures var pkt := BuildCommand(mid, cmdCode, payload, seqCount);
            UnpackU16(pkt[4..6]) == (|payload| + 1) % 0x10000 == (|pkt| - 6 - 1) % 0x10000
  {
    var pkt := BuildCommand(mid, cmdCode, payload, seqCount);
    assert pkt[4..6] == pkt[..6][4..6];
  }

  /** What a receiver decodes from a built packet's primary header. */
  lemma DecodeCommandHeader(mid: int, cmdCode: int, payload: seq<byte>, seqCount: int)
    ensures var pkt := BuildCommand(mid, cmdCode, payload, seqCount);
            (DecodePrimaryHeader(pkt[..6])
             == HeaderFields(0, 1, 1, mid % 0x800, 3, seqCount % 0x4000, (|pkt| - 7) % 0x10000))
  {
    DecodeEncodedHeader(mid, seqCount, |payload| + 1);
  }

  /** Only the low 11 bits of the message id, the low 8 bits of the command
      code and the low 14 bits of the sequence count reach the packet. */
  lemma MaskingInsensitive(mid: int, cmdCode: int, payload: seq<byte>, seqCount: int)
    ensures BuildCommand(mid, cmdCode, payload, seqCount)
         == BuildCommand(mid % 0x800, cmdCode % 256, payload, seqCount % 0x4000)
  {
    var hdr := PrimaryHeader(mid, seqCount, |payload| + 1);
    assert mid % 0x800 % 0x800 == mid % 0x800;
    assert seqCount % 0x4000 % 0x4000 == seqCount % 0x4000;
    assert hdr == PrimaryHeader(mid % 0x800, seqCount % 0x4000, |payload| + 1);
    assert cmdCode % 256 % 256 == cmdCode % 256;
  }

  /** Two packets are equal exactly when their payloads and the masked
      message id, command code and sequence count agree. */
  lemma SamePacketIff(mid: int, cmdCode: int, payload: seq<byte>, seqCount: int,
                      mid': int, cmdCode': int, payload': seq<byte>, seqCount': int)
    ensures BuildCommand(mid, cmdCode, payload, seqCount) == BuildCommand(mid', cmdCode', payload', seqCount')
        <==> (mid % 0x800 == mid' % 0x800 && cmdCode % 256 == cmdCode' % 256
              && seqCount % 0x4000 == seqCount' % 0x4000 && payload == payload')
  {
    var p, p' := BuildCommand(mid, cmdCode, payload, seqCount), BuildCommand(mid', cmdCode', payload', seqCount');
    if p == p' {
      DecodeCommandHeader(mid, cmdCode, payload, seqCount);
      DecodeCommandHeader(mid', cmdCode', payload', seqCount');
    } else if mid % 0x800 == mid' % 0x800 && cmdCode % 256 == cmdCode' % 256
              && seqCount % 0x4000 == seqCount' % 0x4000 && payload == payload' {
      MaskingInsensitive(mid, cmdCode, payload, seqCount);
      MaskingInsensitive(mid', cmdCode', payload', seqCount');
    }
  }

  /** Bits of the message id above bit 10, the command base included, never
      reach the output: a packet addressed by topic equals one addressed by
      its mapped message id. */
  lemma MidBaseIgnored(topicId: int, cmdCode: int, payload: seq<byte>, seqCount: int)
    ensures BuildCommand(TopicIdToMid(topicId), cmdCode, payload, seqCount)
         == BuildCommand(topicId, cmdCode, payload, seqCount)
  {
    MaskingInsensitive(TopicIdToMid(topicId), cmdCode, payload, seqCount);
    MaskingInsensitive(topicId, cmdCode, payload, seqCount);
  }

  /** `message_cFS`: the executive services NOOP (topic 6, code 0, empty
      payload, sequence count 1) is the 8 bytes 18 06 C0 01 00 01 00 DE. */
  lemma EsNoopPacket()
    ensures BuildCommand(TopicIdToMid(6), 0, [], 1) == [0x18, 0x06, 0xC0, 0x01, 0x00, 0x01, 0x00, 0xDE]
  {
    var pkt := BuildCommand(TopicIdToMid(6), 0, [], 1);
    var hdr := PrimaryHeader(0x1806, 1, 1);
    PackUnpackU16(hdr[0..2]);
    PackUnpackU16(hdr[2..4]);
    PackUnpackU16(hdr[4..6]);
    assert hdr == hdr[0..2] + hdr[2..4] + hdr[4..6];
    assert hdr == [0x18, 0x06, 0xC0, 0x01, 0x00, 0x01];
    ChecksumByte(TopicIdToMid(6), 0, [], 1);
    assert pkt[7 := 0] == [0x18, 0x06, 0xC0, 0x01, 0x00, 0x01, 0x00, 0x00];
    NoopChecksum();
  }

  /** The XOR of the provisional NOOP packet, one byte at a time. */
  lemma NoopChecksum()
    ensures XorFold([0x18, 0x06, 0xC0, 0x01, 0x00, 0x01, 0x00, 0x00]) == 0xDE
  {
    var s1: seq<byte> := [0x18];
    var s2, s3, s4 := s1 + [0x06], s1 + [0x06] + [0xC0], s1 + [0x06] + [0xC0] + [0x01];
    var s6 := s4 + [0x00] + [0x01];
    var s8 := s6 + [0x00] + [0x00];
    XorFoldSnoc([], 0x18);
    assert [] + [0x18] == s1;
    XorFoldSnoc(s1, 0x06);
    XorFoldSnoc(s2, 0xC0);
    XorFoldSnoc(s3, 0x01);
    NoopXors();
    XorFoldSnoc(s4, 0x00);
    XorFoldSnoc(s4 + [0x00], 0x01);
    XorFoldSnoc(s6, 0x00);
    XorFoldSnoc(s6 + [0x00], 0x00);
    assert s8 == [0x18, 0x06, 0xC0, 0x01, 0x00, 0x01, 0x00, 0x00];
  }

  lemma NoopXors()
    ensures BitXor(0x18, 0x06) == 0x1E && BitXor(0x1E, 0xC0) == 0xDE
    ensures BitXor(0xDE, 0x01) == 0xDF && BitXor(0xDF, 0x01) == 0xDE
    ensures BitXor(0xDF, 0x00) == 0xDF && BitXor(0xDE, 0x00) == 0xDE
  {
    assert BitXor(0x3, 0x0) == 0x3;
    assert BitXor(1, 0xC) == 0xD;
    assert BitXor(3, 0x18) == 0x1B;
    assert BitXor(7, 0x30) == 0x37;
    assert BitXor(0xF, 0x60) == 0x6F;
  }

  lemma XorFoldSnoc(s: seq<byte>, x: byte)
    ensures XorFold(s + [x]) == BitXor(XorFold(s), x)
  {
    assert (s + [x])[..|s|] == s;
  }

  /** `sample_app_noop`, `sample_app_reset_counters` and
      `sample_app_process` send an empty-payload command with sequence count
      1 to message id 0x1882: the header 18 82 C0 01 00 01, the command code,
      and a checksum that zeroes the XOR fold. */
  lemma SampleAppPacket(cc: int)
    requires cc in {SampleAppNoopCc, SampleAppResetCountersCc, SampleAppProcessCc}
    ensures var pkt := BuildCommand(SampleAppCmdMid, cc, [], 1);
            |pkt| == 8 && pkt[..6] == [0x18, 0x82, 0xC0, 0x01, 0x00, 0x01]
            && pkt[6] == cc && XorFold(pkt) == 0
  {
    var hdr := PrimaryHeader(SampleAppCmdMid, 1, 1);
    PackUnpackU16(hdr[0..2]);
    PackUnpackU16(hdr[2..4]);
    PackUnpackU16(hdr[4..6]);
    assert hdr == hdr[0..2] + hdr[2..4] + hdr[4..6];
    ChecksumFixpoint(SampleAppCmdMid, cc, [], 1);
  }

  /* ---------------------------------------------------------------- */
  /* DISPLAY_PARAM payload                                             */
  /* ---------------------------------------------------------------- */

  /** ASCII encoding that ignores errors: characters outside ASCII are
      dropped, the rest become their code. */
  function AsciiBytes(s: string): (b: seq<byte>)
    ensures |b| <= |s|
    ensures forall i :: 0 <= i < |b| ==> b[i] < 128
  {
    if s == [] then []
    else (if s[0] as int < 128 then [s[0] as int] else []) + AsciiBytes(s[1..])
  }

  /** Encoding distributes over concatenation, so it is fixed by what it
      does to each character. */
  lemma {:induction false} AsciiBytesConcat(s: string, t: string)
    ensures AsciiBytes(s + t) == AsciiBytes(s) + AsciiBytes(t)
  {
    if s != [] {
      assert (s + t)[0] == s[0];
      assert (s + t)[1..] == s[1..] + t;
      AsciiBytesConcat(s[1..], t);
    } else {
      assert s + t == t;
    }
  }

  /** An all-ASCII string is encoded character for character. */
  lemma {:induction false} AsciiBytesOfAscii(s: string)
    requires forall i :: 0 <= i < |s| ==> s[i] as int < 128
    ensures |AsciiBytes(s)| == |s|
    ensures forall i :: 0 <= i < |s| ==> AsciiBytes(s)[i] == s[i] as int
  {
    if s != [] {
      AsciiBytesOfAscii(s[1..]);
      var b := AsciiBytes(s);
      assert b == [s[0] as int] + AsciiBytes(s[1..]);
      forall i | 1 <= i < |s| ensures b[i] == s[i] as int {
        assert b[i] == AsciiBytes(s[1..])[i - 1];
      }
    }
  }

  /** A text with no ASCII character encodes to nothing: such characters
      are dropped, not replaced. */
  lemma {:induction false} AsciiBytesNonAscii(s: string)
    requires forall i :: 0 <= i < |s| ==> s[i] as int >= 128
    ensures AsciiBytes(s) == []
  {
    if s != [] {
      AsciiBytesNonAscii(s[1..]);
    }
  }

  /** Truncation to `width` bytes followed by zero padding: never rejected,
      the result is the text cut or right-padded to exactly `width`. */
  function FixedWidth(s: seq<byte>, width: nat): (r: seq<byte>)
    ensures |r| == width
    ensures forall i :: 0 <= i < width ==> r[i] == if i < |s| then s[i] else 0
  {
    var t := if |s| <= width then s else s[..width];
    t + seq(width - |t|, _ => 0)
  }

  /** The payload of `sample_app_display_param`, AS WRITTEN: the value
      reduced to 32 bits packed as `>I`, the 16-bit value reduced to 0..65535
      packed as the SIGNED `>h`, then the ASCII text fixed to 32 bytes. The
      signed format rejects every reduced value above 32767, so the call
      raises for those. */
  function DisplayParamPayload(valU32: int, valI16: int, valStr: string): (r: Packed<seq<byte>>)
    ensures r.StructError? <==> valI16 % 0x10000 > 0x7FFF
    ensures r.Ok? ==> |r.value| == 38
    ensures r.Ok? ==> UnpackU32(r.value[0..4]) == valU32 % 0x1_0000_0000
    ensures r.Ok? ==> UnpackU16(r.value[4..6]) == valI16 % 0x10000
    ensures r.Ok? ==> forall i :: 0 <= i < StringValLen ==>
              r.value[6 + i] == if i < |AsciiBytes(valStr)| then AsciiBytes(valStr)[i] else 0
  {
    var s := FixedWidth(AsciiBytes(valStr), StringValLen);
    match PackI16(valI16 % 0x10000)
    case StructError => StructError
    case Ok(i16) =>
      var p := PackU32(valU32 % 0x1_0000_0000) + i16 + s;
      assert p[0..4] == PackU32(valU32 % 0x1_0000_0000);
      assert p[4..6] == i16;
      Ok(p)
  }

  /** The defect: every negative `val_i16` makes the payload raise. */
  lemma NegativeI16Rejected(valU32: int, valI16: int, valStr: string)
    requires -0x8000 <= valI16 < 0
    ensures DisplayParamPayload(valU32, valI16, valStr).StructError?
  {}

  /** The payload as evidently intended, with the unsigned `>H` format: the
      16-bit field holds `val_i16` in two's complement and never fails. */
  function DisplayParamPayloadSigned(valU32: int, valI16: int, valStr: string): (p: seq<byte>)
    ensures |p| == 38
    ensures UnpackU32(p[0..4]) == valU32 % 0x1_0000_0000
    ensures UnpackI16(p[4..6]) % 0x10000 == valI16 % 0x10000
    ensures -0x8000 <= valI16 < 0x8000 ==> UnpackI16(p[4..6]) == valI16
    ensures forall i :: 0 <= i < StringValLen ==>
              p[6 + i] == if i < |AsciiBytes(valStr)| then AsciiBytes(valStr)[i] else 0
  {
    var s := FixedWidth(AsciiBytes(valStr), StringValLen);
    var p := PackU32(valU32 % 0x1_0000_0000) + PackU16(valI16 % 0x10000) + s;
    assert p[0..4] == PackU32(valU32 % 0x1_0000_0000);
    assert p[4..6] == PackU16(valI16 % 0x10000);
    p
  }

  /** Wherever the as-written payload succeeds it equals the corrected one. */
  lemma DisplayParamAgrees(valU32: int, valI16: int, valStr: string)
    ensures DisplayParamPayload(valU32, valI16, valStr).Ok? ==>
            DisplayParamPayload(valU32, valI16, valStr).value == DisplayParamPayloadSigned(valU32, valI16, valStr)
  {}

  /** A 38-byte payload sent as DISPLAY_PARAM gets the header 18 82 C0 01
      00 27: message id 0x1882, sequence count 1, length field 38 + 1. */
  lemma DisplayParamHeader(payload: seq<byte>)
    requires |payload| == 38
    ensures var pkt := BuildCommand(SampleAppCmdMid, SampleAppDisplayParamCc, payload, 1);
            pkt[..6] == [0x18, 0x82, 0xC0, 0x01, 0x00, 0x27] && pkt[6] == 3
  {
    var hdr := PrimaryHeader(SampleAppCmdMid, 1, 39);
    PackUnpackU16(hdr[0..2]);
    PackUnpackU16(hdr[2..4]);
    PackUnpackU16(hdr[4..6]);
    assert hdr == hdr[0..2] + hdr[2..4] + hdr[4..6];
  }

  /** `sample_app_display_param` AS WRITTEN: the payload step raises for a
      16-bit value above 32767 once reduced, and nothing is sent; otherwise
      the packet handed to the transport is the 46-byte command to message
      id 0x1882, code 3, sequence count 1, folding to 0. */
  function DisplayParamCommandAsWritten(valU32: int, valI16: int, valStr: string): (r: Packed<seq<byte>>)
    ensures r.StructError? <==> valI16 % 0x10000 > 0x7FFF
    ensures r.StructError? <==> DisplayParamPayload(valU32, valI16, valStr).StructError?
    ensures r.Ok? ==> |r.value| == 46 && XorFold(r.value) == 0
    ensures r.Ok? ==> r.value[..6] == [0x18, 0x82, 0xC0, 0x01, 0x00, 0x27] && r.value[6] == 3
    ensures r.Ok? ==> r.value[8..] == DisplayParamPayload(valU32, valI16, valStr).value
  {
    match DisplayParamPayload(valU32, valI16, valStr)
    case StructError => StructError
    case Ok(payload) =>
      ChecksumFixpoint(SampleAppCmdMid, SampleAppDisplayParamCc, payload, 1);
      DisplayParamHeader(payload);
      Ok(BuildCommand(SampleAppCmdMid, SampleAppDisplayParamCc, payload, 1))
  }

  /** The corrected command agrees with the as-written one wherever that
      one succeeds. */
  lemma DisplayParamCommandAgrees(valU32: int, valI16: int, valStr: string)
    ensures DisplayParamCommandAsWritten(valU32, valI16, valStr).Ok? ==>
            DisplayParamCommandAsWritten(valU32, valI16, valStr).value == DisplayParamCommand(valU32, valI16, valStr)
  {
    DisplayParamAgrees(valU32, valI16, valStr);
  }

  /** The DISPLAY_PARAM command as evidently intended (message id 0x1882,
      code 3, sequence count 1), built over the corrected payload, so it
      exists for every input. */
  function DisplayParamCommand(valU32: int, valI16: int, valStr: string): (pkt: seq<byte>)
    ensures |pkt| == 46
    ensures pkt[..6] == [0x18, 0x82, 0xC0, 0x01, 0x00, 0x27] && pkt[6] == 3
    ensures pkt[8..] == DisplayParamPayloadSigned(valU32, valI16, valStr)
    ensures XorFold(pkt) == 0
  {
    ChecksumFixpoint(SampleAppCmdMid, SampleAppDisplayParamCc, DisplayParamPayloadSigned(valU32, valI16, valStr), 1);
    DisplayParamHeader(DisplayParamPayloadSigned(valU32, valI16, valStr));
    BuildCommand(SampleAppCmdMid, SampleAppDisplayParamCc, DisplayParamPayloadSigned(valU32, valI16, valStr), 1)
  }
}
