/** Driving the iteration: what a caller reads back from an encoded SDES packet. */
module SdesReader {
  import opened Bytes
  import opened SdesFormat
  import opened SdesItems
  import opened SdesPackets

  datatype ReadItem = ReadItem(kind: ItemType, value: seq<byte>)
  datatype ReadChunk = ReadChunk(ssrc: uint32, items: seq<ReadItem>)

  /** The caller sees item types instead of ids; nothing else differs from what was encoded. */
  function SeenItems(items: seq<Item>): (r: seq<ReadItem>)
    ensures |r| == |items|
  {
    seq(|items|, i requires 0 <= i < |items| => ReadItem(TypeOf(items[i].id), items[i].value))
  }

  function Seen(chunks: seq<Chunk>): (r: seq<ReadChunk>)
    ensures |r| == |chunks|
  {
    seq(|chunks|, c requires 0 <= c < |chunks| => ReadChunk(chunks[c].ssrc, SeenItems(chunks[c].items)))
  }

  /** The item under the pointer, through the accessors alone. */
  method ReadCurrentItem(p: RTCPSDESPacket) returns (r: ReadItem)
    requires p.OnItem()
    ensures r == ReadItem(TypeOf(p.CurrentItem().id), p.CurrentItem().value)
  {
    var pointer := p.GetItemData();
    r := ReadItem(p.GetItemType(), p.data[pointer.offset..pointer.offset + p.GetItemLength()]);
  }

  /** GotoFirstItem, then GotoNextItem while it succeeds: each item of the chunk once, in order. */
  method ReadItems(p: RTCPSDESPacket) returns (items: seq<ReadItem>)
    requires p.Valid() && p.currentchunk.At?
    modifies p`itemoffset, p`itemIndex
    ensures p.Valid() && items == SeenItems(p.chunks[p.chunkIndex].items)
  {
    ghost var all := p.chunks[p.chunkIndex].items;
    items := [];
    var more := p.GotoFirstItem();
    while more
      invariant p.Valid() && (more ==> p.OnItem() && p.itemIndex == |items|)
      invariant |items| <= |all| && items == SeenItems(all)[..|items|]
      invariant !more ==> |items| == |all|
      decreases |all| - |items|, more
    {
      var item := ReadCurrentItem(p);
      items := items + [item];
      more := p.GotoNextItem();
    }
  }

  /** GotoFirstChunk, then GotoNextChunk while it succeeds: the packet gives back exactly the chunks
      it was encoded from, in order, and nothing when its format is not known. */
  method ReadPacket(p: RTCPSDESPacket) returns (read: seq<ReadChunk>)
    requires p.Valid()
    modifies p
    ensures p.Valid() && read == if p.knownformat then Seen(p.chunks) else []
  {
    read := [];
    var more := p.GotoFirstChunk();
    while more
      invariant p.Valid() && (more ==> p.currentchunk.At? && p.chunkIndex == |read|)
      invariant p.knownformat ==> |read| <= |p.chunks| && read == Seen(p.chunks)[..|read|]
      invariant !more ==> |read| == if p.knownformat then |p.chunks| else 0
      decreases |p.chunks| - |read|, more
    {
      var ssrc := p.GetChunkSSRC();
      var items := ReadItems(p);
      read := read + [ReadChunk(ssrc, items)];
      more := p.GotoNextChunk();
    }
  }

  /** What was read of an item is its value, and its id as far as section 6.5 of RFC 3550 defines it. */
  predicate SameItem(read: ReadItem, item: Item) {
    && read.value == item.value
    && (read.kind == CNAME <==> item.id == RTCP_SDES_ID_CNAME)
    && (read.kind == NAME <==> item.id == RTCP_SDES_ID_NAME)
    && (read.kind == EMAIL <==> item.id == RTCP_SDES_ID_EMAIL)
    && (read.kind == PHONE <==> item.id == RTCP_SDES_ID_PHONE)
    && (read.kind == LOC <==> item.id == RTCP_SDES_ID_LOCATION)
    && (read.kind == TOOL <==> item.id == RTCP_SDES_ID_TOOL)
    && (read.kind == NOTE <==> item.id == RTCP_SDES_ID_NOTE)
    && (read.kind == PRIV <==> item.id == RTCP_SDES_ID_PRIVATE)
    && (read.kind == Unknown <==> item.id > 8)
    && read.kind != None
  }

  /** Encoding by section 6.5 of RFC 3550 and reading back is the identity up to item types. */
  method RoundTrip(chunks: seq<Chunk>) returns (read: seq<ReadChunk>)
    requires ValidChunks(chunks) && |chunks| <= MAX_COUNT
    requires |ChunksBytes(chunks)| / 4 < 0x1_0000
    ensures read == Seen(chunks)
    ensures |read| == |chunks|
    ensures forall c :: 0 <= c < |chunks| ==> read[c].ssrc == chunks[c].ssrc && |read[c].items| == |chunks[c].items|
    ensures forall c, i :: 0 <= c < |chunks| && 0 <= i < |chunks[c].items| ==>
              SameItem(read[c].items[i], chunks[c].items[i])
  {
    assert PacketBytes(chunks)[4..] == ChunksBytes(chunks) + [];
    var p := new RTCPSDESPacket(PacketBytes(chunks), true, chunks, []);
    read := ReadPacket(p);
    forall c, i | 0 <= c < |chunks| && 0 <= i < |chunks[c].items| ensures SameItem(read[c].items[i], chunks[c].items[i]) {
      assert chunks[c].items[i].id != 0;
      TypesOfIds(chunks[c].items[i].id);
    }
  }

  /** Item types tell apart all ids the standard defines, so for those nothing is lost. */
  lemma {:induction false} SeenDeterminesChunks(a: seq<Chunk>, b: seq<Chunk>)
    requires forall c :: 0 <= c < |a| ==> forall i :: 0 <= i < |a[c].items| ==> 1 <= a[c].items[i].id <= 8
    requires forall c :: 0 <= c < |b| ==> forall i :: 0 <= i < |b[c].items| ==> 1 <= b[c].items[i].id <= 8
    requires Seen(a) == Seen(b)
    ensures a == b
  {
    assert |a| == |Seen(a)| == |b|;
    forall c | 0 <= c < |a| ensures a[c] == b[c] {
      assert Seen(a)[c] == Seen(b)[c];
      var x, y := a[c].items, b[c].items;
      assert |x| == |SeenItems(x)| == |y|;
      forall i | 0 <= i < |x| ensures x[i] == y[i] {
        assert SeenItems(x)[i] == SeenItems(y)[i];
      }
    }
  }
}
