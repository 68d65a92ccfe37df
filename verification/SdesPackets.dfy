/** Iteration over the chunks and items of a received SDES packet. */
module SdesPackets {
  import opened Bytes
  import opened SdesFormat
  import opened SdesItems
  import opened SdesLayout

  class RTCPSDESPacket {
    const data: seq<byte>
    const knownformat: bool
    var currentchunk: Pointer
    var curchunknum: int
    var itemoffset: nat

    ghost const chunks: seq<Chunk>  // what a packet of known format holds
    ghost const tail: seq<byte>     // what follows the chunks
    ghost var chunkIndex: nat
    ghost var itemIndex: nat

    /** The packet is well formed; while on a chunk, the position is that of an item, or of the
        terminator of a chunk without items. */
    ghost predicate Valid()
      reads this
    {
      && (knownformat ==> Holds(data, chunks, tail) && data[0] % 32 == |chunks|)
      && (currentchunk.At? ==>
            knownformat && IsPosition(chunks, chunkIndex, itemIndex, currentchunk.offset, curchunknum, itemoffset))
    }

    /** On an item of a chunk. */
    ghost predicate OnItem()
      reads this
    {
      Valid() && currentchunk.At? && itemIndex < |chunks[chunkIndex].items|
    }

    /** The current item; past the last item, or in a chunk without items, a stand-in. */
    ghost function CurrentItem(): Item
      reads this
      requires Valid() && currentchunk.At?
    {
      ItemOrNone(chunks[chunkIndex].items, itemIndex)
    }

    ghost predicate OnPriv()
      reads this
    {
      OnItem() && IsPriv(CurrentItem())
    }

    constructor (data: seq<byte>, knownformat: bool, ghost chunks: seq<Chunk>, ghost tail: seq<byte>)
      requires knownformat ==> Holds(data, chunks, tail) && data[0] % 32 == |chunks|
      ensures Valid() && currentchunk == Null && this.data == data && this.knownformat == knownformat
      ensures this.chunks == chunks && this.tail == tail
    {
      this.data, this.knownformat := data, knownformat;
      this.chunks, this.tail := chunks, tail;
      currentchunk, curchunknum, itemoffset := Null, 0, 0;
      chunkIndex, itemIndex := 0, 0;
    }

    function GetChunkCount(): (n: int)
      reads this
      requires Valid()
      ensures n == if knownformat then |chunks| else 0
    {
      if !knownformat then 0 else data[0] % 32
    }

    method GotoFirstChunk() returns (ok: bool)
      requires Valid()
      modifies this
      ensures Valid() && (ok <==> knownformat && chunks != [])
      ensures if ok then currentchunk.At? && chunkIndex == 0 && itemIndex == 0 else currentchunk == Null
    {
      if GetChunkCount() == 0 {
        currentchunk := Null;
        return false;
      }
      currentchunk := At(4);
      curchunknum := 1;
      itemoffset := 4;
      chunkIndex, itemIndex := 0, 0;
      return true;
    }

    /** The offset of the null octet that ends the current chunk's items. */
    method WalkItems() returns (offset: nat)
      requires Valid() && currentchunk.At?
      ensures offset == 4 + |ItemsBytes(chunks[chunkIndex].items)|
    {
      ghost var items := chunks[chunkIndex].items;
      ghost var i: nat := 0;
      offset := 4;
      StepOverItem(data, chunks, tail, chunkIndex, 0, currentchunk.offset, offset);
      while data[currentchunk.offset + offset] != 0
        invariant i <= |items| && offset == ItemOffset(items, i)
        invariant currentchunk.offset + offset < |data|
        invariant data[currentchunk.offset + offset] != 0 <==> i < |items|
        decreases |items| - i
      {
        StepOverItem(data, chunks, tail, chunkIndex, i, currentchunk.offset, offset);
        var length: nat := data[currentchunk.offset + offset + 1];
        offset := offset + 2;
        offset := offset + length;
        i := i + 1;
      }
      assert items[..i] == items;
    }

    /** Moves by the size of the current chunk; on the last chunk, or on none, nothing moves. */
    method GotoNextChunk() returns (ok: bool)
      requires Valid()
      modifies this
      ensures Valid() && (ok <==> old(currentchunk).At? && old(chunkIndex) + 1 < |chunks|)
      ensures ok ==> currentchunk.At? && chunkIndex == old(chunkIndex) + 1 && itemIndex == 0
      ensures ok ==> currentchunk.offset == old(currentchunk).offset + |ChunkBytes(chunks[old(chunkIndex)])|
      ensures !ok ==> unchanged(this)
    {
      if !knownformat {
        return false;
      }
      if currentchunk == Null {
        return false;
      }
      if curchunknum == GetChunkCount() {
        return false;
      }
      var offset: nat := WalkItems();
      offset := offset + 1;
      if offset % 4 != 0 {
        offset := offset + (4 - offset % 4);
      }
      ChunkSize(chunks[chunkIndex]);
      assert offset == |ChunkBytes(chunks[chunkIndex])|;
      NextChunkPosition(data, chunks, tail, chunkIndex);
      currentchunk := At(currentchunk.offset + offset);
      curchunknum := curchunknum + 1;
      itemoffset := 4;
      chunkIndex, itemIndex := chunkIndex + 1, 0;
      return true;
    }

    function GetChunkSSRC(): (ssrc: uint32)
      reads this
      requires Valid()
      ensures ssrc == if currentchunk.At? then chunks[chunkIndex].ssrc else 0
    {
      if !knownformat then 0
      else if currentchunk == Null then 0
      else
        SsrcAt(data, chunks, tail, chunkIndex);
        ReadWord32(data, currentchunk.offset)
    }

    method GotoFirstItem() returns (ok: bool)
      requires Valid()
      modifies this`itemoffset, this`itemIndex
      ensures Valid() && (ok <==> currentchunk.At? && chunks[chunkIndex].items != [])
      ensures currentchunk.At? ==> itemIndex == 0
      ensures ok ==> OnItem()
    {
      if !knownformat {
        return false;
      }
      if currentchunk == Null {
        return false;
      }
      itemoffset := 4;
      itemIndex := 0;
      ReadsStayInTheChunk(data, chunks, tail, chunkIndex, 0);
      if data[currentchunk.offset + itemoffset] == 0 {
        return false;
      }
      return true;
    }

    /** Past the last item nothing moves: the last item stays the current one. */
    method GotoNextItem() returns (ok: bool)
      requires Valid()
      modifies this`itemoffset, this`itemIndex
      ensures Valid() && (ok <==> currentchunk.At? && old(itemIndex) + 1 < |chunks[chunkIndex].items|)
      ensures itemIndex == old(itemIndex) + if ok then 1 else 0
      ensures ok ==> OnItem()
    {
      if !knownformat {
        return false;
      }
      if currentchunk == Null {
        return false;
      }
      StepOverItem(data, chunks, tail, chunkIndex, itemIndex, currentchunk.offset, itemoffset);
      if data[currentchunk.offset + itemoffset] == 0 {
        return false;
      }
      var offset: nat := itemoffset;
      offset := offset + 2;
      offset := offset + data[currentchunk.offset + itemoffset + 1];
      if data[currentchunk.offset + offset] == 0 {
        return false;
      }
      itemoffset := offset;
      itemIndex := itemIndex + 1;
      return true;
    }

    /** What lies under the item pointer. */
    lemma HeaderAt()
      requires Valid() && currentchunk.At?
      ensures LiesAt(data, currentchunk.offset + itemoffset, ChunkStart(chunks, chunkIndex + 1), OnItem(), CurrentItem())
    {
      ReadsStayInTheChunk(data, chunks, tail, chunkIndex, itemIndex);
    }

    function GetItemType(): (t: ItemType)
      reads this
      requires Valid()
      ensures t == if OnItem() then TypeOf(CurrentItem().id) else None
      ensures t == None <==> !OnItem()
      ensures OnItem() ==>
                var id := CurrentItem().id;
                && (t == CNAME <==> id == RTCP_SDES_ID_CNAME)
                && (t == NAME <==> id == RTCP_SDES_ID_NAME)
                && (t == EMAIL <==> id == RTCP_SDES_ID_EMAIL)
                && (t == PHONE <==> id == RTCP_SDES_ID_PHONE)
                && (t == LOC <==> id == RTCP_SDES_ID_LOCATION)
                && (t == TOOL <==> id == RTCP_SDES_ID_TOOL)
                && (t == NOTE <==> id == RTCP_SDES_ID_NOTE)
                && (t == PRIV <==> id == RTCP_SDES_ID_PRIVATE)
                && (t == Unknown <==> id > 8)
      ensures OnPriv() ==> t == PRIV
    {
      if !knownformat then None
      else if currentchunk == Null then None
      else
        HeaderAt();
        TypesOfIds(data[currentchunk.offset + itemoffset]);
        TypeOf(data[currentchunk.offset + itemoffset])
    }

    function GetItemLength(): (n: nat)
      reads this
      requires Valid()
      ensures n == if OnItem() then |CurrentItem().value| else 0
    {
      if !knownformat then 0
      else if currentchunk == Null then 0
      else
        HeaderAt();
        if data[currentchunk.offset + itemoffset] == 0 then 0
        else data[currentchunk.offset + itemoffset + 1]
    }

    /** The item's bytes, all inside the current chunk and before its terminator. */
    function GetItemData(): (p: Pointer)
      reads this
      requires Valid()
      ensures p.At? <==> OnItem()
      ensures p.At? ==> PointsTo(data, p, ChunkStart(chunks, chunkIndex + 1), CurrentItem().value)
    {
      if !knownformat then Null
      else if currentchunk == Null then Null
      else
        HeaderAt();
        if data[currentchunk.offset + itemoffset] == 0 then Null
        else At(currentchunk.offset + itemoffset + 2)
    }

    function GetPRIVPrefixLength(): (n: nat)
      reads this
      requires Valid()
      ensures n == if OnPriv() then |PrivPrefix(CurrentItem())| else 0
    {
      if !knownformat then 0
      else if currentchunk == Null then 0
      else
        HeaderAt();
        PrefixLengthAt(data, currentchunk.offset + itemoffset, ChunkStart(chunks, chunkIndex + 1), OnItem(), CurrentItem())
    }

    function GetPRIVPrefixData(): (p: Pointer)
      reads this
      requires Valid()
      ensures p.At? <==> OnPriv() && PrivPrefix(CurrentItem()) != []
      ensures p.At? ==> PointsTo(data, p, ChunkStart(chunks, chunkIndex + 1), PrivPrefix(CurrentItem()))
    {
      if !knownformat then Null
      else if currentchunk == Null then Null
      else
        HeaderAt();
        PrefixDataAt(data, currentchunk.offset + itemoffset, ChunkStart(chunks, chunkIndex + 1), OnItem(), CurrentItem())
    }

    function GetPRIVValueLength(): (n: nat)
      reads this
      requires Valid()
      ensures n == if OnPriv() then |PrivValue(CurrentItem())| else 0
    {
      if !knownformat then 0
      else if currentchunk == Null then 0
      else
        HeaderAt();
        ValueLengthAt(data, currentchunk.offset + itemoffset, ChunkStart(chunks, chunkIndex + 1), OnItem(), CurrentItem())
    }

    function GetPRIVValueData(): (p: Pointer)
      reads this
      requires Valid()
      ensures p.At? <==> OnPriv() && PrivValue(CurrentItem()) != []
      ensures p.At? ==> PointsTo(data, p, ChunkStart(chunks, chunkIndex + 1), PrivValue(CurrentItem()))
    {
      if !knownformat then Null
      else if currentchunk == Null then Null
      else
        HeaderAt();
        ValueDataAt(data, currentchunk.offset + itemoffset, ChunkStart(chunks, chunkIndex + 1), OnItem(), CurrentItem())
    }
  }
}
