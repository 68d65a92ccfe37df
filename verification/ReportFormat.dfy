/** The byte format of report blocks and sender information, from section 6.4.1 of RFC 3550. */
module ReportFormat {
  import opened Bytes
  import opened Packing

  /** Section 6.4.1 of RFC 3550. */
  datatype ReportBlock = ReportBlock(ssrc: uint32, fractionlost: byte, packetslost: int,
                                     exthighseqnr: uint32, jitter: uint32, lsr: uint32, dlsr: uint32)

  datatype SenderInfo = SenderInfo(ntpmsw: uint32, ntplsw: uint32, rtptimestamp: uint32,
                                   packetcount: uint32, octetcount: uint32)

  /** The cumulative number of packets lost is a signed 24 bit number. */
  predicate ValidLost(n: int) {
    -0x80_0000 <= n < 0x80_0000
  }

  predicate ValidBlocks(blocks: seq<ReportBlock>) {
    forall i :: 0 <= i < |blocks| ==> ValidLost(blocks[i].packetslost)
  }

  /** Two's complement in three octets, most significant first. */
  function Word24(n: int): (w: seq<byte>)
    requires ValidLost(n)
    ensures |w| == 3
  {
    var u := if n < 0 then n + 0x100_0000 else n;
    [u / 0x1_0000, u / 0x100 % 0x100, u % 0x100]
  }

  function BlockBytes(b: ReportBlock): (d: seq<byte>)
    requires ValidLost(b.packetslost)
    ensures |d| == 24
  {
    Word32(b.ssrc) + [b.fractionlost] + Word24(b.packetslost) +
    Word32(b.exthighseqnr) + Word32(b.jitter) + Word32(b.lsr) + Word32(b.dlsr)
  }

  function BlocksBytes(blocks: seq<ReportBlock>): (d: seq<byte>)
    requires ValidBlocks(blocks)
    ensures |d| == 24 * |blocks|
  {
    if blocks == [] then [] else BlocksBytes(blocks[..|blocks| - 1]) + BlockBytes(blocks[|blocks| - 1])
  }

  function SenderInfoData(s: SenderInfo): (d: seq<byte>)
    ensures |d| == SENDER_INFO_BYTES
  {
    Word32(s.ntpmsw) + Word32(s.ntplsw) + Word32(s.rtptimestamp) + Word32(s.packetcount) + Word32(s.octetcount)
  }

  /** The three octets as the accessor combines them, then sign-extended from bit 23 and read as an
      `int32_t`. The shifted octets do not overlap, so the ORs are sums. */
  function LostPacketCount(b0: byte, b1: byte, b2: byte): int {
    var count: uint32 := b2 as int + b1 as int * 0x100 + b0 as int * 0x1_0000;
    var extended: uint32 := if count / 0x80_0000 % 2 != 0 then count as int + 0xFF00_0000 else count;
    if extended >= 0x8000_0000 then extended as int - TWO_TO_32 else extended
  }

  lemma SignExtension(b0: byte, b1: byte, b2: byte)
    ensures var count := b2 as int + b1 as int * 0x100 + b0 as int * 0x1_0000;
            LostPacketCount(b0, b1, b2) == if count >= 0x80_0000 then count - 0x100_0000 else count
  {
    var count := b2 as int + b1 as int * 0x100 + b0 as int * 0x1_0000;
    assert count / 0x80_0000 == if count >= 0x80_0000 then 1 else 0;
  }

  /** Encoding undoes decoding: every three octets are the encoding of the number read from them. */
  lemma LostPacketCountEncodes(b0: byte, b1: byte, b2: byte)
    ensures ValidLost(LostPacketCount(b0, b1, b2)) && Word24(LostPacketCount(b0, b1, b2)) == [b0, b1, b2]
  {
    SignExtension(b0, b1, b2);
    var u := b2 as int + b1 as int * 0x100 + b0 as int * 0x1_0000;
    assert u / 0x100 == b1 as int + b0 as int * 0x100;
  }

  /** Decoding undoes encoding. */
  lemma LostPacketCountInverts(n: int)
    requires ValidLost(n)
    ensures LostPacketCount(Word24(n)[0], Word24(n)[1], Word24(n)[2]) == n
  {
    SignExtension(Word24(n)[0], Word24(n)[1], Word24(n)[2]);
  }

  lemma Slices(s: seq<byte>, a: seq<byte>, b: seq<byte>, c: seq<byte>, o: nat)
    requires o <= |s| && s[o..] == a + (b + c)
    ensures o + |a| + |b| <= |s| && s[o + |a|..] == b + c && s[o + |a|..o + |a| + |b|] == b
  {
    assert s[o..][|a|..] == s[o + |a|..];
    assert s[o + |a|..][..|b|] == s[o + |a|..o + |a| + |b|];
  }

  lemma SliceOfFront(front: seq<byte>, back: seq<byte>, a: nat, b: nat)
    requires a <= b <= |front|
    ensures (front + back)[a..b] == front[a..b]
  {
  }

  lemma SliceOfBack(front: seq<byte>, back: seq<byte>)
    ensures (front + back)[|front|..|front| + |back|] == back
  {
  }

  lemma PieceOfPiece(s: seq<byte>, o: nat, all: seq<byte>, a: nat, piece: seq<byte>)
    requires o + |all| <= |s| && s[o..o + |all|] == all
    requires a + |piece| <= |all| && all[a..a + |piece|] == piece
    ensures s[o + a..o + a + |piece|] == piece
  {
    var t := s[o + a..o + a + |piece|];
    assert forall i :: 0 <= i < |piece| ==> piece[i] == all[a + i] == s[o + a + i] == t[i];
  }

  lemma {:induction false} BlockAt(blocks: seq<ReportBlock>, i: nat)
    requires ValidBlocks(blocks) && i < |blocks|
    ensures 24 * i + |BlockBytes(blocks[i])| <= |BlocksBytes(blocks)|
    ensures BlocksBytes(blocks)[24 * i..24 * i + |BlockBytes(blocks[i])|] == BlockBytes(blocks[i])
  {
    var k := |blocks| - 1;
    if i == k {
      SliceOfBack(BlocksBytes(blocks[..k]), BlockBytes(blocks[k]));
    } else {
      BlockAt(blocks[..k], i);
      SliceOfFront(BlocksBytes(blocks[..k]), BlockBytes(blocks[k]), 24 * i, 24 * i + |BlockBytes(blocks[i])|);
    }
  }

  function ReadBlock(data: seq<byte>, r: nat): ReportBlock
    requires r + 24 <= |data|
  {
    ReportBlock(ReadWord32(data, r), data[r + 4], LostPacketCount(data[r + 5], data[r + 6], data[r + 7]),
                ReadWord32(data, r + 8), ReadWord32(data, r + 12), ReadWord32(data, r + 16), ReadWord32(data, r + 20))
  }

  /** Reading the fields out of the 24 octets of a block. */
  lemma BlockReadsBack(data: seq<byte>, r: nat, b: ReportBlock)
    requires ValidLost(b.packetslost) && r + |BlockBytes(b)| <= |data|
    requires data[r..r + |BlockBytes(b)|] == BlockBytes(b)
    ensures ReadBlock(data, r) == b
  {
    var d := BlockBytes(b);
    WordOfSlice(data, r, 24, d, 0, b.ssrc);
    WordOfSlice(data, r, 24, d, 8, b.exthighseqnr);
    WordOfSlice(data, r, 24, d, 12, b.jitter);
    WordOfSlice(data, r, 24, d, 16, b.lsr);
    WordOfSlice(data, r, 24, d, 20, b.dlsr);
    assert d[4] == b.fractionlost && d[5..8] == Word24(b.packetslost);
    assert data[r + 4] == d[4] && data[r + 5] == d[5] && data[r + 6] == d[6] && data[r + 7] == d[7];
    LostPacketCountInverts(b.packetslost);
  }

  lemma WordOfSlice(data: seq<byte>, r: nat, n: nat, d: seq<byte>, at: nat, x: uint32)
    requires r + n <= |data| && data[r..r + n] == d && at + 4 <= n && d[at..at + 4] == Word32(x)
    ensures ReadWord32(data, r + at) == x
  {
    assert data[r + at] == d[at] && data[r + at + 1] == d[at + 1] && data[r + at + 2] == d[at + 2] && data[r + at + 3] == d[at + 3];
    var w := d[at..at + 4];
    assert w[0] == d[at] && w[1] == d[at + 1] && w[2] == d[at + 2] && w[3] == d[at + 3];
    ReadsWord32(w, 0, x);
  }

  /** Three regions, one after the other, and what follows them. */
  lemma ThreeRegions(s: seq<byte>, o: nat, a: seq<byte>, b: seq<byte>, c: seq<byte>, tail: seq<byte>)
    requires o <= |s| && s[o..] == a + (b + (c + tail))
    ensures o + |a| + |b| + |c| <= |s|
    ensures s[o..o + |a|] == a && s[o + |a|..o + |a| + |b|] == b
    ensures s[o + |a| + |b|..o + |a| + |b| + |c|] == c
  {
    Slices(s, [], a, b + (c + tail), o);
    Slices(s, a, b, c + tail, o);
    Slices(s, b, c, tail, o + |a|);
  }

  lemma BlockSlice(data: seq<byte>, base: nat, blocks: seq<ReportBlock>, i: nat, r: nat)
    requires ValidBlocks(blocks) && i < |blocks| && r == base + 24 * i
    requires base + |BlocksBytes(blocks)| <= |data|
    requires data[base..base + |BlocksBytes(blocks)|] == BlocksBytes(blocks)
    ensures r + |BlockBytes(blocks[i])| <= |data|
    ensures data[r..r + |BlockBytes(blocks[i])|] == BlockBytes(blocks[i])
  {
    BlockAt(blocks, i);
    PieceOfPiece(data, base, BlocksBytes(blocks), 24 * i, BlockBytes(blocks[i]));
  }

  lemma BlockInData(data: seq<byte>, base: nat, blocks: seq<ReportBlock>, i: nat)
    requires ValidBlocks(blocks) && i < |blocks|
    requires base + |BlocksBytes(blocks)| <= |data|
    requires data[base..base + |BlocksBytes(blocks)|] == BlocksBytes(blocks)
    ensures base + 24 * i + 24 <= |data| && ReadBlock(data, base + 24 * i) == blocks[i]
  {
    var r := base + 24 * i;
    BlockSlice(data, base, blocks, i, r);
    BlockReadsBack(data, r, blocks[i]);
  }
}
