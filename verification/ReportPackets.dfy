/** Reading received sender and receiver reports. Both packet types have the same accessors; in a
    sender report the blocks start after the sender information. */
module ReportPackets {
  import opened Bytes
  import opened Packing
  import opened ReportFormat

  datatype ReportPacket = ReportPacket(isSR: bool, knownformat: bool, data: seq<byte>) {

    function GetReceptionReportCount(): int
      requires knownformat ==> |data| >= COMMON_HEADER_BYTES
    {
      if !knownformat then 0 else data[0] % 32
    }

    /** Offset of a report block. The index is not checked. */
    function GotoReport(index: nat): nat {
      COMMON_HEADER_BYTES + SSRC_BYTES + (if isSR then SENDER_INFO_BYTES else 0) + 24 * index
    }

    predicate HasBlock(index: nat) {
      knownformat ==> GotoReport(index) + 24 <= |data|
    }

    function GetSenderSSRC(): uint32
      requires knownformat ==> |data| >= COMMON_HEADER_BYTES + SSRC_BYTES
    {
      if !knownformat then 0 else ReadWord32(data, COMMON_HEADER_BYTES)
    }

    /** A word of the sender information, at `at` octets from its start. */
    function SenderWord(at: nat): uint32
      requires at + 4 <= SENDER_INFO_BYTES
      requires knownformat ==> |data| >= COMMON_HEADER_BYTES + SSRC_BYTES + SENDER_INFO_BYTES
    {
      if !knownformat then 0 else ReadWord32(data, COMMON_HEADER_BYTES + SSRC_BYTES + at)
    }

    function GetSenderInfo(): SenderInfo
      requires knownformat ==> |data| >= COMMON_HEADER_BYTES + SSRC_BYTES + SENDER_INFO_BYTES
    {
      SenderInfo(SenderWord(0), SenderWord(4), SenderWord(8), SenderWord(12), SenderWord(16))
    }

    function GetSSRC(index: nat): uint32
      requires HasBlock(index)
    {
      if !knownformat then 0 else ReadWord32(data, GotoReport(index))
    }

    function GetFractionLost(index: nat): byte
      requires HasBlock(index)
    {
      if !knownformat then 0 else data[GotoReport(index) + 4]
    }

    function GetLostPacketCount(index: nat): int
      requires HasBlock(index)
    {
      if !knownformat then 0
      else
        var r := GotoReport(index);
        LostPacketCount(data[r + 5], data[r + 6], data[r + 7])
    }

    function GetExtendedHighestSequenceNumber(index: nat): uint32
      requires HasBlock(index)
    {
      if !knownformat then 0 else ReadWord32(data, GotoReport(index) + 8)
    }

    function GetJitter(index: nat): uint32
      requires HasBlock(index)
    {
      if !knownformat then 0 else ReadWord32(data, GotoReport(index) + 12)
    }

    function GetLSR(index: nat): uint32
      requires HasBlock(index)
    {
      if !knownformat then 0 else ReadWord32(data, GotoReport(index) + 16)
    }

    function GetDLSR(index: nat): uint32
      requires HasBlock(index)
    {
      if !knownformat then 0 else ReadWord32(data, GotoReport(index) + 20)
    }

    /** All accessors of one block. */
    function GetBlock(index: nat): ReportBlock
      requires HasBlock(index)
    {
      ReportBlock(GetSSRC(index), GetFractionLost(index), GetLostPacketCount(index),
                  GetExtendedHighestSequenceNumber(index), GetJitter(index), GetLSR(index), GetDLSR(index))
    }
  }

  /** A known packet laid out as section 6.4 of RFC 3550 says, possibly with more data behind it. */
  predicate Encodes(p: ReportPacket, first: byte, ssrc: uint32, info: SenderInfo, blocks: seq<ReportBlock>, tail: seq<byte>) {
    && p.knownformat && ValidBlocks(blocks) && first % 32 == |blocks|
    && |p.data| >= COMMON_HEADER_BYTES && p.data[0] == first
    && p.data[COMMON_HEADER_BYTES..] ==
       Word32(ssrc) + ((if p.isSR then SenderInfoData(info) else []) + (BlocksBytes(blocks) + tail))
  }

  /** The regions of an encoded packet. */
  lemma Regions(p: ReportPacket, first: byte, ssrc: uint32, info: SenderInfo, blocks: seq<ReportBlock>, tail: seq<byte>)
    requires Encodes(p, first, ssrc, info, blocks, tail)
    ensures |p.data| >= ReportPacketBytes(|blocks|, p.isSR)
    ensures p.data[4..8] == Word32(ssrc)
    ensures p.isSR ==> p.data[8..28] == SenderInfoData(info)
    ensures p.data[p.GotoReport(0)..p.GotoReport(0) + |BlocksBytes(blocks)|] == BlocksBytes(blocks)
  {
    var sender := if p.isSR then SenderInfoData(info) else [];
    ThreeRegions(p.data, 4, Word32(ssrc), sender, BlocksBytes(blocks), tail);
    assert 4 + |Word32(ssrc)| + |sender| == p.GotoReport(0);
  }

  lemma GetBlockReads(p: ReportPacket, i: nat)
    requires p.knownformat && p.HasBlock(i)
    ensures p.GetBlock(i) == ReadBlock(p.data, p.GotoReport(i))
  {
  }

  /** Everything a caller reads from an encoded report is what was encoded. The slots of the blocks do
      not overlap and lie within the size that `Report.NeededBytes` announces for that many blocks. */
  lemma ReportReadsBack(p: ReportPacket, first: byte, ssrc: uint32, info: SenderInfo, blocks: seq<ReportBlock>, tail: seq<byte>)
    requires Encodes(p, first, ssrc, info, blocks, tail)
    ensures p.GetReceptionReportCount() == |blocks|
    ensures |p.data| >= ReportBytes(|blocks|, p.isSR)
    ensures p.GetSenderSSRC() == ssrc
    ensures p.isSR ==> p.GetSenderInfo() == info
    ensures forall i :: 0 <= i < |blocks| ==> p.HasBlock(i) && p.GetBlock(i) == blocks[i]
    ensures forall i :: 0 <= i < |blocks| ==> p.GotoReport(i) + 24 <= ReportBytes(|blocks|, p.isSR)
    ensures forall i, j :: 0 <= i < j < |blocks| ==> p.GotoReport(i) + 24 <= p.GotoReport(j)
  {
    Regions(p, first, ssrc, info, blocks, tail);
    OneReportPacket(|blocks|, p.isSR);
    ReadsWord32(p.data, 4, ssrc);
    if p.isSR {
      SenderInfoReadsBack(p, info);
    }
    forall i | 0 <= i < |blocks| ensures p.HasBlock(i) && p.GetBlock(i) == blocks[i] {
      BlockInData(p.data, p.GotoReport(0), blocks, i);
      GetBlockReads(p, i);
    }
  }

  lemma SenderInfoReadsBack(p: ReportPacket, info: SenderInfo)
    requires p.knownformat && |p.data| >= 28 && p.data[8..28] == SenderInfoData(info)
    ensures p.GetSenderInfo() == info
  {
    var d := SenderInfoData(info);
    WordOfSlice(p.data, 8, 20, d, 0, info.ntpmsw);
    WordOfSlice(p.data, 8, 20, d, 4, info.ntplsw);
    WordOfSlice(p.data, 8, 20, d, 8, info.rtptimestamp);
    WordOfSlice(p.data, 8, 20, d, 12, info.packetcount);
    WordOfSlice(p.data, 8, 20, d, 16, info.octetcount);
  }

  /** Of a packet whose format is not known every accessor returns 0, whatever its bytes are. */
  lemma UnknownFormatReadsZero(p: ReportPacket, i: nat)
    requires !p.knownformat
    ensures p.GetReceptionReportCount() == 0 && p.GetSenderSSRC() == 0
    ensures p.GetSenderInfo() == SenderInfo(0, 0, 0, 0, 0)
    ensures p.GetBlock(i) == ReportBlock(0, 0, 0, 0, 0, 0, 0)
  {
  }
}
