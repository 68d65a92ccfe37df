/** The parts of a compound packet under construction, and the sizes they announce. */
module CompoundBuilder {
  import opened Bytes
  import opened Packing

  datatype Status = Ok | OutOfMemory | NoCurrentSource

  /** The size of a report with the given number of blocks; one that is not started has none. */
  function ReportNeeded(blocks: nat, headerlength: nat, isSR: bool): nat {
    if blocks == 0 then (if headerlength == 0 then 0 else COMMON_HEADER_BYTES + headerlength)
    else ReportBytes(blocks, isSR)
  }

  lemma ReportNeededGrows(blocks: nat, headerlength: nat, isSR: bool)
    requires blocks == 0 ==> headerlength <= SSRC_BYTES + if isSR then SENDER_INFO_BYTES else 0
    ensures ReportNeeded(blocks, headerlength, isSR) < ReportNeeded(blocks + 1, headerlength, isSR)
  {
    ReportGrows(blocks, isSR);
  }

  class Report {
    var isSR: bool
    var headerlength: nat
    var reportblocks: seq<seq<byte>>

    /** The header is the SSRC, and the sender information in an SR. */
    ghost predicate Started()
      reads this
    {
      headerlength == SSRC_BYTES + if isSR then SENDER_INFO_BYTES else 0
    }

    constructor ()
      ensures !isSR && headerlength == 0 && reportblocks == []
    {
      isSR, headerlength, reportblocks := false, 0, [];
    }

    method Clear()
      modifies this
      ensures !isSR && headerlength == 0 && reportblocks == []
    {
      reportblocks := [];
      isSR := false;
      headerlength := 0;
    }

    /** For a started report, the size of greedily filled packets, also when there are no blocks. */
    method NeededBytes() returns (x: nat)
      ensures x == ReportNeeded(|reportblocks|, headerlength, isSR)
      ensures Started() ==> x == ReportBytes(|reportblocks|, isSR) && x % 4 == 0
      ensures headerlength == 0 && reportblocks == [] ==> x == 0
    {
      var n := |reportblocks|;
      if n == 0 {
        if headerlength == 0 {
          return 0;
        }
        x := COMMON_HEADER_BYTES + headerlength;
      } else {
        x := n * REPORT_BLOCK_BYTES;
        var d, r := n / 31, n % 31;
        if r != 0 {
          d := d + 1;
        }
        x := x + d * (COMMON_HEADER_BYTES + SSRC_BYTES);
        if isSR {
          x := x + SENDER_INFO_BYTES;
        }
        ReportSize(n, isSR);
      }
      ReportIsAligned(n, isSR);
    }

    /** The size after one more block, which is larger than the size of a started report now. */
    method NeededBytesWithExtraReportBlock() returns (x: nat)
      ensures x == ReportNeeded(|reportblocks| + 1, headerlength, isSR)
      ensures Started() ==> x > ReportNeeded(|reportblocks|, headerlength, isSR)
    {
      var n := |reportblocks| + 1;
      x := n * REPORT_BLOCK_BYTES;
      var d, r := n / 31, n % 31;
      if r != 0 {
        d := d + 1;
      }
      x := x + d * (COMMON_HEADER_BYTES + SSRC_BYTES);
      if isSR {
        x := x + SENDER_INFO_BYTES;
      }
      ReportSize(n, isSR);
      ReportGrows(|reportblocks|, isSR);
    }
  }

  class SDESSource {
    const ssrc: uint32
    var items: seq<seq<byte>>
    var totalitemsize: nat

    ghost predicate Valid()
      reads this
    {
      totalitemsize == |Flatten(items)|
    }

    ghost function View(): Source
      reads this
    {
      Source(ssrc, items)
    }

    constructor (s: uint32)
      ensures Valid() && View() == Source(s, [])
    {
      ssrc, items, totalitemsize := s, [], 0;
    }

    method NeededBytes() returns (x: nat)
      requires Valid()
      ensures x == |SourceBytes(View())|
    {
      x := totalitemsize + 1;
      var r := x % 4;
      if r != 0 {
        x := x + (4 - r);
      }
      x := x + 4;
      SourceSize(View());
    }

    /** The size with one more item, whose header takes two bytes. */
    method NeededBytesWithExtraItem(itemdatalength: byte) returns (x: nat)
      requires Valid()
      ensures forall buf: seq<byte> {:trigger Grown(View(), buf)} :: |buf| == 2 + itemdatalength as int ==>
                x == |SourceBytes(Grown(View(), buf))|
    {
      x := totalitemsize + 2 + itemdatalength as int + 1;
      var r := x % 4;
      if r != 0 {
        x := x + (4 - r);
      }
      x := x + 4;
      forall buf: seq<byte> | |buf| == 2 + itemdatalength as int
        ensures x == |SourceBytes(Grown(View(), buf))|
      {
        GrownSourceSize(View(), buf);
      }
    }

    method AddItem(buf: seq<byte>)
      requires Valid()
      modifies this
      ensures Valid() && View() == Grown(old(View()), buf) && items == old(items) + [buf]
    {
      totalitemsize := totalitemsize + |buf|;
      items := items + [buf];
    }
  }

  class SDES {
    var sdessources: seq<SDESSource>
    var sdesit: nat  // position of the current source; stale while there are no sources

    /** The sources are distinct objects, and the current one is always the last. */
    ghost predicate Valid()
      reads this, sdessources
    {
      && (forall i :: 0 <= i < |sdessources| ==> sdessources[i].Valid())
      && (forall i, j :: 0 <= i < j < |sdessources| ==> sdessources[i] != sdessources[j])
      && (sdessources != [] ==> sdesit == |sdessources| - 1)
    }

    ghost function View(): (r: seq<Source>)
      reads this, sdessources
      ensures |r| == |sdessources|
    {
      seq(|sdessources|, i requires 0 <= i < |sdessources| reads this, sdessources => sdessources[i].View())
    }

    constructor ()
      ensures Valid() && sdessources == [] && View() == []
    {
      sdessources, sdesit := [], 0;
    }

    method Clear()
      requires Valid()
      modifies this
      ensures Valid() && sdessources == [] && View() == []
    {
      sdessources := [];
    }

    method AddSSRC(ssrc: uint32, allocates: bool) returns (status: Status)
      requires Valid()
      modifies this
      ensures Valid() && status == (if allocates then Ok else OutOfMemory)
      ensures View() == if allocates then WithSource(old(View()), ssrc) else old(View())
      ensures allocates ==> View() == old(View()) + [Source(ssrc, [])]
      ensures old(sdessources) <= sdessources
      ensures forall i :: old(|sdessources|) <= i < |sdessources| ==> fresh(sdessources[i])
    {
      if !allocates {
        return OutOfMemory;
      }
      var s := new SDESSource(ssrc);
      sdessources := sdessources + [s];
      sdesit := |sdessources|;
      sdesit := sdesit - 1;
      return Ok;
    }

    method AddItem(buf: seq<byte>) returns (status: Status)
      requires Valid()
      modifies sdessources
      ensures Valid() && status == (if sdessources == [] then NoCurrentSource else Ok)
      ensures View() == if sdessources == [] then [] else WithItem(old(View()), buf)
    {
      if sdessources == [] {
        status := NoCurrentSource;
      } else {
        ghost var before := View();
        sdessources[sdesit].AddItem(buf);
        WithItemIs(before, buf, View());
        status := Ok;
      }
    }

    /** The size of the greedily filled SDES packets. */
    method NeededBytes() returns (x: nat)
      requires Valid()
      ensures x == SdesBytes(View())
    {
      if sdessources == [] {
        return 0;
      }
      x := SumNeeded(|sdessources|);
      var n := |sdessources|;
      var d, r := n / 31, n % 31;
      if r != 0 {
        d := d + 1;
      }
      x := x + d * COMMON_HEADER_BYTES;
      assert Sizes(View())[..|sdessources|] == Sizes(View());
      PacketsSize(Sizes(View()));
    }

    /** The loop all three size functions start with. */
    method SumNeeded(end: nat) returns (x: nat)
      requires Valid() && end <= |sdessources|
      ensures x == Sum(Sizes(View())[..end])
    {
      x := 0;
      ghost var sizes := Sizes(View());
      for it := 0 to end
        invariant x == Sum(sizes[..it])
      {
        var size := sdessources[it].NeededBytes();
        assert sizes[..it + 1][..it] == sizes[..it] && sizes[it] == size;
        x := x + size;
      }
    }

    /** With a source, exactly the size after the item is added; without one, 0. */
    method NeededBytesWithExtraItem(itemdatalength: byte) returns (x: nat)
      requires Valid()
      ensures sdessources == [] ==> x == 0
      ensures sdessources != [] ==> forall buf: seq<byte> {:trigger WithItem(View(), buf)} :: |buf| == 2 + itemdatalength as int ==>
                x == SdesBytes(WithItem(View(), buf))
    {
      if sdessources == [] {
        return 0;
      }
      x := SumNeeded(sdesit);
      var last := sdessources[sdesit].NeededBytesWithExtraItem(itemdatalength);
      x := x + last;
      var n := |sdessources|;
      var d, r := n / 31, n % 31;
      if r != 0 {
        d := d + 1;
      }
      x := x + d * COMMON_HEADER_BYTES;
      ghost var view := View();
      assert view[|view| - 1] == sdessources[sdesit].View();
      forall buf: seq<byte> | |buf| == 2 + itemdatalength as int ensures x == SdesBytes(WithItem(view, buf)) {
        WithItemSize(view, buf);
      }
    }

    /** Exactly the size after a source is added, if and only if there is a source already. */
    method NeededBytesWithExtraSource() returns (x: nat)
      requires Valid()
      ensures sdessources == [] ==> x == 0
      ensures forall ssrc: uint32 :: x == SdesBytes(WithSource(View(), ssrc)) <==> sdessources != []
    {
      if sdessources == [] {
        forall ssrc: uint32 ensures SdesBytes(WithSource(View(), ssrc)) != 0 {
          WithSourceSize(View(), ssrc);
        }
        return 0;
      }
      x := SumNeeded(|sdessources|);
      x := x + 4 * 2;
      var n := |sdessources| + 1;
      var d, r := n / 31, n % 31;
      if r != 0 {
        d := d + 1;
      }
      x := x + d * COMMON_HEADER_BYTES;
      forall ssrc: uint32 ensures x == SdesBytes(WithSource(View(), ssrc)) {
        assert Sizes(View())[..|sdessources|] == Sizes(View());
        WithSourceSize(View(), ssrc);
      }
    }
  }
}
