/** Building SDES chunks with the builder's objects: what comes out is what section 6.5 of RFC 3550
    encodes, and so what the reader reads. */
module SdesBuild {
  import opened Bytes
  import opened SdesFormat
  import opened Packing
  import opened CompoundBuilder

  /** The bytes of all sources, one chunk after the other. */
  function SourcesBytes(sources: seq<Source>): seq<byte> {
    if sources == [] then [] else SourceBytes(sources[0]) + SourcesBytes(sources[1..])
  }

  /** Sources built from the chunks' SSRCs and items have the bytes of the chunks. */
  lemma {:induction false} SourcesBytesIsChunksBytes(chunks: seq<Chunk>)
    requires ValidChunks(chunks)
    ensures SourcesBytes(SourcesOf(chunks)) == ChunksBytes(chunks)
  {
    if chunks != [] {
      SourceBytesIsChunkBytes(chunks[0]);
      SourcesBytesIsChunksBytes(chunks[1..]);
      assert SourcesOf(chunks)[1..] == SourcesOf(chunks[1..]);
    }
  }

  /** The source of one chunk. */
  function SourceOf(ssrc: uint32, items: seq<Item>): Source
    requires ValidItems(items)
  {
    Source(ssrc, ItemBuffers(items))
  }

  lemma NextItem(before: seq<Source>, ssrc: uint32, items: seq<Item>, i: nat)
    requires ValidItems(items) && i < |items|
    ensures WithItem(before + [SourceOf(ssrc, items[..i])], ItemBytes(items[i])) == before + [SourceOf(ssrc, items[..i + 1])]
  {
    assert ItemBuffers(items[..i + 1]) == ItemBuffers(items[..i]) + [ItemBytes(items[i])];
  }

  /** Adds items to the current source, each as a complete buffer. */
  method AddItems(sdes: SDES, ghost before: seq<Source>, ghost ssrc: uint32, items: seq<Item>)
    requires sdes.Valid() && ValidItems(items) && sdes.View() == before + [SourceOf(ssrc, [])]
    modifies sdes.sdessources
    ensures sdes.Valid() && sdes.View() == before + [SourceOf(ssrc, items)]
  {
    assert items[..0] == [] && items[..|items|] == items;
    for i := 0 to |items|
      invariant sdes.Valid()
      invariant sdes.View() == before + [SourceOf(ssrc, items[..i])]
    {
      NextItem(before, ssrc, items, i);
      var _ := sdes.AddItem(ItemBytes(items[i]));
    }
  }

  /** Adds one source and then its items. */
  method AddChunk(sdes: SDES, chunk: Chunk)
    requires sdes.Valid() && ValidItems(chunk.items)
    modifies sdes, sdes.sdessources
    ensures sdes.Valid() && sdes.View() == old(sdes.View()) + [SourceOf(chunk.ssrc, chunk.items)]
    ensures old(sdes.sdessources) <= sdes.sdessources
    ensures forall i :: old(|sdes.sdessources|) <= i < |sdes.sdessources| ==> fresh(sdes.sdessources[i])
  {
    ghost var before := sdes.View();
    var _ := sdes.AddSSRC(chunk.ssrc, true);
    assert ItemBuffers([]) == [];
    AddItems(sdes, before, chunk.ssrc, chunk.items);
  }

  /** Any chunks, added source by source and item by item, are the sources built; their bytes are those of
      section 6.5 of RFC 3550, and the size announced is that of the packets that hold them. */
  method BuildChunks(chunks: seq<Chunk>) returns (sdes: SDES, size: nat)
    requires ValidChunks(chunks)
    ensures fresh(sdes) && sdes.Valid() && sdes.View() == SourcesOf(chunks)
    ensures SourcesBytes(sdes.View()) == ChunksBytes(chunks)
    ensures size == EncodedPacketsSize(chunks)
  {
    sdes := new SDES();
    for c := 0 to |chunks|
      invariant fresh(sdes) && sdes.Valid() && sdes.View() == SourcesOf(chunks[..c])
      invariant forall i :: 0 <= i < |sdes.sdessources| ==> fresh(sdes.sdessources[i])
    {
      AddChunk(sdes, chunks[c]);
      assert SourcesOf(chunks[..c + 1]) == SourcesOf(chunks[..c]) + [SourceOf(chunks[c].ssrc, chunks[c].items)];
    }
    assert chunks[..|chunks|] == chunks;
    SourcesBytesIsChunksBytes(chunks);
    SdesBytesIsEncodedSize(chunks);
    size := sdes.NeededBytes();
  }
}
