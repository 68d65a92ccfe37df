/** Reports and SDES sources are spread over packets of at most 31; this is the size they take. */
module Packing {
  import opened Bytes
  import opened SdesFormat

  const COMMON_HEADER_BYTES: nat := 4
  const SSRC_BYTES: nat := 4
  const SENDER_INFO_BYTES: nat := 20
  const REPORT_BLOCK_BYTES: nat := 24

  // ---------------------------------------------------------------- splitting into packets

  function Sum(sizes: seq<nat>): nat {
    if sizes == [] then 0 else Sum(sizes[..|sizes| - 1]) + sizes[|sizes| - 1]
  }

  lemma {:induction false} SumConcat(a: seq<nat>, b: seq<nat>)
    ensures Sum(a + b) == Sum(a) + Sum(b)
  {
    if b == [] {
      assert a + b == a;
    } else {
      SumConcat(a, b[..|b| - 1]);
      assert (a + b)[..|a + b| - 1] == a + b[..|b| - 1];
    }
  }

  lemma SumFromFront(sizes: seq<nat>)
    requires sizes != []
    ensures Sum(sizes) == sizes[0] + Sum(sizes[1..])
  {
    SumConcat([sizes[0]], sizes[1..]);
    assert sizes == [sizes[0]] + sizes[1..];
    assert [sizes[0]][..0] == [];
  }

  /** Fill a packet, then go on with the rest. */
  function Greedy(n: nat): seq<nat> {
    if n == 0 then [] else if n <= MAX_COUNT then [n] else [MAX_COUNT] + Greedy(n - MAX_COUNT)
  }

  predicate FitPackets(sizes: seq<nat>) {
    forall i :: 0 <= i < |sizes| ==> 1 <= sizes[i] <= MAX_COUNT
  }

  /** The closed form of the number of packets. */
  function PacketCount(n: nat): nat {
    n / MAX_COUNT + if n % MAX_COUNT != 0 then 1 else 0
  }

  lemma {:induction false} GreedyPacks(n: nat)
    ensures FitPackets(Greedy(n)) && Sum(Greedy(n)) == n && |Greedy(n)| == PacketCount(n)
  {
    if n > MAX_COUNT {
      GreedyPacks(n - MAX_COUNT);
      SumFromFront(Greedy(n));
    } else if n > 0 {
      SumFromFront(Greedy(n));
    }
  }

  /** No split into packets of at most 31 uses fewer packets than the greedy one. */
  lemma {:induction false} GreedyIsLeast(sizes: seq<nat>)
    requires FitPackets(sizes)
    ensures |Greedy(Sum(sizes))| <= |sizes|
  {
    GreedyPacks(Sum(sizes));
    if sizes != [] {
      GreedyIsLeast(sizes[..|sizes| - 1]);
      GreedyPacks(Sum(sizes[..|sizes| - 1]));
    }
  }

  // ---------------------------------------------------------------- reports

  /** Section 6.4.1 and 6.4.2 of RFC 3550: header, SSRC, sender information in an SR, report blocks. */
  function ReportPacketBytes(blocks: nat, isSR: bool): nat {
    COMMON_HEADER_BYTES + SSRC_BYTES + (if isSR then SENDER_INFO_BYTES else 0) + blocks * REPORT_BLOCK_BYTES
  }

  /** The first packet is an SR if `isSR`; all the others are RRs. */
  function ReportPacketsBytes(sizes: seq<nat>, isSR: bool): nat {
    if sizes == [] then 0
    else ReportPacketBytes(sizes[0], isSR) + ReportPacketsBytes(sizes[1..], false)
  }

  /** A started report always has its first packet, even without blocks. */
  function ReportBytes(n: nat, isSR: bool): nat {
    if n == 0 then ReportPacketBytes(0, isSR) else ReportPacketsBytes(Greedy(n), isSR)
  }

  lemma {:induction false} ReportPacketsSize(sizes: seq<nat>, isSR: bool)
    ensures ReportPacketsBytes(sizes, isSR) ==
            Sum(sizes) * REPORT_BLOCK_BYTES + |sizes| * (COMMON_HEADER_BYTES + SSRC_BYTES) +
            if isSR && sizes != [] then SENDER_INFO_BYTES else 0
  {
    if sizes != [] {
      ReportPacketsSize(sizes[1..], false);
      SumFromFront(sizes);
    }
  }

  /** The closed form, and what follows from it. */
  lemma ReportSize(n: nat, isSR: bool)
    requires n > 0
    ensures ReportBytes(n, isSR) ==
            n * REPORT_BLOCK_BYTES + PacketCount(n) * (COMMON_HEADER_BYTES + SSRC_BYTES) + if isSR then SENDER_INFO_BYTES else 0
  {
    GreedyPacks(n);
    ReportPacketsSize(Greedy(n), isSR);
  }

  lemma ReportIsAligned(n: nat, isSR: bool)
    ensures ReportBytes(n, isSR) % 4 == 0
  {
    if n > 0 {
      ReportSize(n, isSR);
    }
  }

  lemma ReportGrows(n: nat, isSR: bool)
    ensures ReportBytes(n, isSR) + REPORT_BLOCK_BYTES <= ReportBytes(n + 1, isSR)
    ensures ReportBytes(n + 1, isSR) <= ReportBytes(n, isSR) + REPORT_BLOCK_BYTES + COMMON_HEADER_BYTES + SSRC_BYTES
  {
    ReportSize(n + 1, isSR);
    if n > 0 {
      ReportSize(n, isSR);
    }
  }

  /** Up to 31 blocks make a single packet. */
  lemma OneReportPacket(n: nat, isSR: bool)
    requires n <= MAX_COUNT
    ensures ReportBytes(n, isSR) == ReportPacketBytes(n, isSR)
  {
    if n > 0 {
      assert Greedy(n) == [n];
      assert ReportPacketsBytes(Greedy(n)[1..], false) == 0;
    }
  }

  /** No split of `n` blocks over report packets takes fewer bytes. */
  lemma ReportIsLeast(sizes: seq<nat>, isSR: bool)
    requires FitPackets(sizes) && sizes != []
    ensures ReportBytes(Sum(sizes), isSR) <= ReportPacketsBytes(sizes, isSR)
  {
    SumFromFront(sizes);
    ReportSize(Sum(sizes), isSR);
    GreedyIsLeast(sizes);
    GreedyPacks(Sum(sizes));
    ReportPacketsSize(sizes, isSR);
  }

  // ---------------------------------------------------------------- SDES sources

  /** A source under construction; each buffer holds one complete item. */
  datatype Source = Source(ssrc: uint32, items: seq<seq<byte>>)

  function Flatten(items: seq<seq<byte>>): seq<byte> {
    if items == [] then [] else Flatten(items[..|items| - 1]) + items[|items| - 1]
  }

  function SourceBytes(s: Source): (b: seq<byte>)
    ensures |b| % 4 == 0 && |b| >= 8
  {
    Word32(s.ssrc) + Flatten(s.items) + Terminator(|Flatten(s.items)|)
  }

  lemma SourceSize(s: Source)
    ensures |SourceBytes(s)| == RoundUp4(|Flatten(s.items)| + 1) + 4
  {
  }

  function Sizes(sources: seq<Source>): (r: seq<nat>)
    ensures |r| == |sources|
  {
    seq(|sources|, i requires 0 <= i < |sources| => |SourceBytes(sources[i])|)
  }

  /** Chunks of the given sizes, greedily 31 to a packet, each packet with its own header. */
  function PacketsBytes(sizes: seq<nat>): nat
    decreases |sizes|
  {
    if sizes == [] then 0
    else if |sizes| <= MAX_COUNT then COMMON_HEADER_BYTES + Sum(sizes)
    else COMMON_HEADER_BYTES + Sum(sizes[..MAX_COUNT]) + PacketsBytes(sizes[MAX_COUNT..])
  }

  function SdesBytes(sources: seq<Source>): nat {
    PacketsBytes(Sizes(sources))
  }

  /** The closed form. */
  lemma {:induction false} PacketsSize(sizes: seq<nat>)
    ensures PacketsBytes(sizes) == Sum(sizes) + PacketCount(|sizes|) * COMMON_HEADER_BYTES
    decreases |sizes|
  {
    if |sizes| > MAX_COUNT {
      var first, rest := sizes[..MAX_COUNT], sizes[MAX_COUNT..];
      PacketsSize(rest);
      SumConcat(first, rest);
      assert sizes == first + rest;
    }
  }

  function Grown(s: Source, buf: seq<byte>): Source {
    s.(items := s.items + [buf])
  }

  function WithItem(sources: seq<Source>, buf: seq<byte>): (r: seq<Source>)
    requires sources != []
    ensures |r| == |sources|
  {
    sources[..|sources| - 1] + [Grown(sources[|sources| - 1], buf)]
  }

  lemma WithItemIs(before: seq<Source>, buf: seq<byte>, after: seq<Source>)
    requires before != [] && |after| == |before|
    requires after[|after| - 1] == Grown(before[|before| - 1], buf)
    requires forall i :: 0 <= i < |before| - 1 ==> after[i] == before[i]
    ensures after == WithItem(before, buf)
  {
  }

  function WithSource(sources: seq<Source>, ssrc: uint32): seq<Source> {
    sources + [Source(ssrc, [])]
  }

  lemma GrownSourceSize(s: Source, buf: seq<byte>)
    ensures |SourceBytes(Grown(s, buf))| == RoundUp4(|Flatten(s.items)| + |buf| + 1) + 4
    ensures |SourceBytes(s)| <= |SourceBytes(Grown(s, buf))|
  {
    var grown := Grown(s, buf);
    assert grown.items[..|grown.items| - 1] == s.items;
    SourceSize(s);
    SourceSize(grown);
  }

  /** An item changes the size of the last source only, and no packet boundary. */
  lemma WithItemSize(sources: seq<Source>, buf: seq<byte>)
    requires sources != []
    ensures SdesBytes(WithItem(sources, buf)) ==
            Sum(Sizes(sources)[..|sources| - 1]) + |SourceBytes(Grown(sources[|sources| - 1], buf))| +
            PacketCount(|sources|) * COMMON_HEADER_BYTES
    ensures SdesBytes(sources) <= SdesBytes(WithItem(sources, buf))
  {
    var k := |sources| - 1;
    var before, after := Sizes(sources), Sizes(WithItem(sources, buf));
    assert after[..k] == before[..k];
    GrownSourceSize(sources[k], buf);
    PacketsSize(before);
    PacketsSize(after);
  }

  lemma WithSourceSize(sources: seq<Source>, ssrc: uint32)
    ensures SdesBytes(WithSource(sources, ssrc)) ==
            Sum(Sizes(sources)) + 8 + PacketCount(|sources| + 1) * COMMON_HEADER_BYTES
    ensures SdesBytes(sources) + 8 <= SdesBytes(WithSource(sources, ssrc))
  {
    var before, after := Sizes(sources), Sizes(WithSource(sources, ssrc));
    assert after[..|sources|] == before;
    SourceSize(Source(ssrc, []));
    PacketsSize(before);
    PacketsSize(after);
  }

  /** Neither kind of addition makes the packets smaller. */
  lemma SourcesGrow(sources: seq<Source>, buf: seq<byte>, ssrc: uint32)
    ensures sources != [] ==> SdesBytes(sources) <= SdesBytes(WithItem(sources, buf))
    ensures SdesBytes(sources) <= SdesBytes(WithSource(sources, ssrc))
  {
    if sources != [] {
      WithItemSize(sources, buf);
    }
    WithSourceSize(sources, ssrc);
  }

  // ---------------------------------------------------------------- against the encoder

  function ItemBuffers(items: seq<Item>): seq<seq<byte>>
    requires ValidItems(items)
  {
    seq(|items|, i requires 0 <= i < |items| => ItemBytes(items[i]))
  }

  function SourcesOf(chunks: seq<Chunk>): (r: seq<Source>)
    requires ValidChunks(chunks)
    ensures |r| == |chunks|
  {
    seq(|chunks|, c requires 0 <= c < |chunks| => Source(chunks[c].ssrc, ItemBuffers(chunks[c].items)))
  }

  lemma {:induction false} FlattenIsItemsBytes(items: seq<Item>)
    requires ValidItems(items)
    ensures Flatten(ItemBuffers(items)) == ItemsBytes(items)
  {
    if items != [] {
      var k := |items| - 1;
      FlattenIsItemsBytes(items[..k]);
      assert ItemBuffers(items)[..k] == ItemBuffers(items[..k]);
      ItemsBytesAt(items, k);
      assert items[..k + 1] == items;
    }
  }

  /** What the builder sizes, chunk by chunk, is what section 6.5 of RFC 3550 encodes. */
  lemma SourceBytesIsChunkBytes(chunk: Chunk)
    requires ValidItems(chunk.items)
    ensures SourceBytes(Source(chunk.ssrc, ItemBuffers(chunk.items))) == ChunkBytes(chunk)
  {
    FlattenIsItemsBytes(chunk.items);
  }

  /** The builder's size of a source is the distance the reader moves over its chunk. */
  lemma BuilderSizeIsReaderStep(chunk: Chunk)
    requires ValidItems(chunk.items)
    ensures |SourceBytes(Source(chunk.ssrc, ItemBuffers(chunk.items)))| == RoundUp4(4 + |ItemsBytes(chunk.items)| + 1)
  {
    SourceBytesIsChunkBytes(chunk);
    ChunkSize(chunk);
  }

  lemma {:induction false} SumIsEncodedSize(chunks: seq<Chunk>)
    requires ValidChunks(chunks)
    ensures Sum(Sizes(SourcesOf(chunks))) == |ChunksBytes(chunks)|
  {
    if chunks != [] {
      var k := |chunks| - 1;
      SumIsEncodedSize(chunks[..k]);
      assert Sizes(SourcesOf(chunks))[..k] == Sizes(SourcesOf(chunks[..k]));
      SourceBytesIsChunkBytes(chunks[k]);
      ChunksBytesUpTo(chunks, k);
      assert chunks[..k + 1] == chunks;
    }
  }

  /** The bytes of all packets when the chunks are encoded greedily 31 to a packet. */
  function EncodedPacketsSize(chunks: seq<Chunk>): nat
    requires ValidChunks(chunks)
    decreases |chunks|
  {
    if chunks == [] then 0
    else if |chunks| <= MAX_COUNT then 4 + |ChunksBytes(chunks)|
    else 4 + |ChunksBytes(chunks[..MAX_COUNT])| + EncodedPacketsSize(chunks[MAX_COUNT..])
  }

  lemma {:induction false} SdesBytesIsEncodedSize(chunks: seq<Chunk>)
    requires ValidChunks(chunks)
    ensures SdesBytes(SourcesOf(chunks)) == EncodedPacketsSize(chunks)
    decreases |chunks|
  {
    if |chunks| > MAX_COUNT {
      var sizes := Sizes(SourcesOf(chunks));
      assert sizes[..MAX_COUNT] == Sizes(SourcesOf(chunks[..MAX_COUNT]));
      assert sizes[MAX_COUNT..] == Sizes(SourcesOf(chunks[MAX_COUNT..]));
      SumIsEncodedSize(chunks[..MAX_COUNT]);
      SdesBytesIsEncodedSize(chunks[MAX_COUNT..]);
    } else {
      SumIsEncodedSize(chunks);
    }
  }
}
