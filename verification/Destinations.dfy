/** The library's own instances of the hash table: the destination set of the IPv4 transmitter and
    the SSRC-keyed source list. */
module Destinations {
  import opened Bytes
  import opened OrderedTable

  const RTPUDPV4TRANS_HASHSIZE: nat := 8317
  const RTPSOURCES_HASHSIZE: nat := 8317

  /** The arguments the destination was built from; the socket addresses hold them in network order. */
  datatype IPv4Destination = IPv4Destination(ip: uint32, rtpport: uint16, rtcpport: uint16) {
    function GetIP(): uint32 { ip }
    function GetIP_NBO(): seq<byte> { Word32(ip) }
    function GetRTPPort_NBO(): seq<byte> { Word16(rtpport) }
  }

  /** `operator==`: address and RTP port, in network order. The RTCP port is not looked at. */
  predicate SameDestination(a: IPv4Destination, b: IPv4Destination) {
    a.GetIP_NBO() == b.GetIP_NBO() && a.GetRTPPort_NBO() == b.GetRTPPort_NBO()
  }

  function DestinationIndex(d: IPv4Destination): nat {
    d.GetIP() % RTPUDPV4TRANS_HASHSIZE
  }

  const DESTINATION_HASHING: Hashing<IPv4Destination> :=
    Hashing(RTPUDPV4TRANS_HASHSIZE, DestinationIndex, SameDestination)

  const SOURCE_HASHING: Hashing<uint32> :=
    Hashing(RTPSOURCES_HASHSIZE, (ssrc: uint32) => ssrc % RTPSOURCES_HASHSIZE, (a: uint32, b: uint32) => a == b)

  /** Equal destinations hash alike although the comparison is in network order and the hash is not. */
  lemma DestinationsAreLawful()
    ensures Lawful(DESTINATION_HASHING)
    ensures forall d :: DESTINATION_HASHING.index(d) < DESTINATION_HASHING.size
    ensures forall a, b :: DESTINATION_HASHING.same(a, b) <==> a.ip == b.ip && a.rtpport == b.rtpport
  {
    forall a: IPv4Destination, b: IPv4Destination | SameDestination(a, b) ensures a.ip == b.ip && a.rtpport == b.rtpport {
      Word32Injective(a.ip, b.ip);
      Word16Injective(a.rtpport, b.rtpport);
    }
  }

  lemma SourcesAreLawful()
    ensures Lawful(SOURCE_HASHING)
    ensures forall ssrc: uint32 :: SOURCE_HASHING.index(ssrc) < SOURCE_HASHING.size
    ensures forall a: uint32, b: uint32 :: SOURCE_HASHING.same(a, b) <==> a == b
  {
  }

  /** Both tables have 8317 buckets, one for each remainder of the address or the SSRC. */
  lemma BucketsAreRemainders(a: IPv4Destination, b: IPv4Destination, ssrc: uint32, ssrc': uint32)
    ensures DESTINATION_HASHING.index(a) == DESTINATION_HASHING.index(b) <==> (a.ip - b.ip) % 8317 == 0
    ensures SOURCE_HASHING.index(ssrc) == SOURCE_HASHING.index(ssrc') <==> (ssrc - ssrc') % 8317 == 0
  {
    EqualRemaindersIff(a.ip, b.ip);
    EqualRemaindersIff(ssrc, ssrc');
  }

  lemma EqualRemaindersIff(x: int, y: int)
    ensures x % 8317 == y % 8317 <==> (x - y) % 8317 == 0
  {
    var p, q := x / 8317, y / 8317;
    assert x - y == 8317 * (p - q) + (x % 8317 - y % 8317);
  }

  /** Two destinations that differ only in the RTCP port are one: the second is refused and
      the table stays as it is, and deleting it removes the first. */
  lemma RtcpPortIsIgnored<Element>(st: State<IPv4Destination, Element>, p: nat, d: IPv4Destination, e: Element)
    requires Consistent(DESTINATION_HASHING, st) && p < |st.entries|
    requires d.ip == st.entries[p].key.ip && d.rtpport == st.entries[p].key.rtpport
    ensures Step(DESTINATION_HASHING, st, Add(d, e, true)) == (st, AlreadyExists)
    ensures Step(DESTINATION_HASHING, st, Delete(d)).0.entries == Remove(st.entries, p)
  {
    var h, stored := DESTINATION_HASHING, st.entries[p].key;
    DestinationsAreLawful();
    assert Matches(h, stored, d);
    FindIsLinearSearch(h, st.entries, d);
    assert h.same(d, stored);
    KeysAreUnique(h, st.entries, Find(h, st.entries, d), p);
  }

  /** Some stored destination has this address and RTP port. */
  ghost predicate Stored<Element>(s: seq<Entry<IPv4Destination, Element>>, ip: uint32, rtpport: uint16) {
    exists i :: 0 <= i < |s| && s[i].key.ip == ip && s[i].key.rtpport == rtpport
  }

  /** The destination set is a set of pairs of address and RTP port: a search finds a destination, and
      an addition is refused, if and only if the pair is stored; a new pair is appended. */
  lemma DestinationsArePairs<Element>(st: State<IPv4Destination, Element>, d: IPv4Destination, e: Element)
    requires Consistent(DESTINATION_HASHING, st)
    ensures Has(DESTINATION_HASHING, st.entries, d) <==> Stored(st.entries, d.ip, d.rtpport)
    ensures Step(DESTINATION_HASHING, st, Add(d, e, true)) ==
            if Stored(st.entries, d.ip, d.rtpport) then (st, AlreadyExists)
            else (State(st.entries + [Entry(d, e)], st.cursor), Ok)
  {
    DestinationsAreLawful();
    FindIsLinearSearch(DESTINATION_HASHING, st.entries, d);
    assert Present(DESTINATION_HASHING, st.entries, d) <==> Stored(st.entries, d.ip, d.rtpport);
  }
}
