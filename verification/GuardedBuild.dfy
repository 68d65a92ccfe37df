/** Runs of a builder that admits an addition only if the forecast fits the maximum packet size.
    `Attempt` and `Run` are the runs on values; `Announced`, `Admit` and `AdmitAll` are the same on a
    `Report` and an `SDES`, with the sizes those announce. */
module GuardedBuild {
  import opened Bytes
  import opened Packing
  import opened CompoundBuilder

  /** `other` is the size of the packets of the other kinds. */
  datatype Build = Build(headerlength: nat, isSR: bool, blocks: nat, sources: seq<Source>, other: nat)

  datatype Addition = ReportBlock(block: seq<byte>) | SdesItem(buf: seq<byte>) | SdesSource(ssrc: uint32)

  datatype Answer = Added | NotEnoughBytesLeft | NoReport | NoSource

  function Total(b: Build): nat {
    ReportNeeded(b.blocks, b.headerlength, b.isSR) + SdesBytes(b.sources) + b.other
  }

  /** What `NeededBytesWithExtraItem` and `NeededBytesWithExtraSource` say: 0 without a source. */
  function ItemForecast(sources: seq<Source>, buf: seq<byte>): nat {
    if sources == [] then 0 else SdesBytes(WithItem(sources, buf))
  }

  function SourceForecast(sources: seq<Source>, ssrc: uint32): nat {
    if sources == [] then 0 else SdesBytes(WithSource(sources, ssrc))
  }

  /** The size the whole packet would have according to the forecast. */
  function Forecast(b: Build, a: Addition): nat {
    match a
    case ReportBlock(_) => ReportNeeded(b.blocks + 1, b.headerlength, b.isSR) + SdesBytes(b.sources) + b.other
    case SdesItem(buf) => ReportNeeded(b.blocks, b.headerlength, b.isSR) + ItemForecast(b.sources, buf) + b.other
    case SdesSource(ssrc) => ReportNeeded(b.blocks, b.headerlength, b.isSR) + SourceForecast(b.sources, ssrc) + b.other
  }

  function Apply(b: Build, a: Addition): Build
    requires a.SdesItem? ==> b.sources != []
  {
    match a
    case ReportBlock(_) => b.(blocks := b.blocks + 1)
    case SdesItem(buf) => b.(sources := WithItem(b.sources, buf))
    case SdesSource(ssrc) => b.(sources := WithSource(b.sources, ssrc))
  }

  function Attempt(b: Build, max: nat, a: Addition): (Build, Answer) {
    if a.ReportBlock? && b.headerlength == 0 then (b, NoReport)
    else if Forecast(b, a) > max then (b, NotEnoughBytesLeft)
    else if a.SdesItem? && b.sources == [] then (b, NoSource)
    else (Apply(b, a), Added)
  }

  function Run(b: Build, max: nat, additions: seq<Addition>): Build
    decreases |additions|
  {
    if additions == [] then b else Run(Attempt(b, max, additions[0]).0, max, additions[1..])
  }

  /** A report that was started as an SR or an RR, or not at all. */
  predicate ProperReport(b: Build) {
    b.headerlength == SSRC_BYTES + (if b.isSR then SENDER_INFO_BYTES else 0) || (b.headerlength == 0 && b.blocks == 0)
  }

  const FIRST_SOURCE_BYTES: nat := 12

  /** The forecast is the size after the addition, except for the first source, which it takes for free. */
  lemma ForecastIsExactIff(b: Build, a: Addition)
    requires a.SdesItem? ==> b.sources != []
    ensures Forecast(b, a) == Total(Apply(b, a)) <==> !(a.SdesSource? && b.sources == [])
    ensures a.SdesSource? && b.sources == [] ==> Total(Apply(b, a)) == Forecast(b, a) + FIRST_SOURCE_BYTES
  {
    if a.SdesSource? && b.sources == [] {
      WithSourceSize(b.sources, a.ssrc);
    }
  }

  /** Nothing that is added makes the packet smaller. */
  lemma AdditionsGrow(b: Build, a: Addition)
    requires ProperReport(b) && (a.SdesItem? ==> b.sources != []) && (a.ReportBlock? ==> b.headerlength != 0)
    ensures Total(b) <= Total(Apply(b, a)) && ProperReport(Apply(b, a))
  {
    var c := Apply(b, a);
    assert ReportNeeded(b.blocks, b.headerlength, b.isSR) <= ReportNeeded(c.blocks, c.headerlength, c.isSR) by {
      ReportNeededGrows(b.blocks, b.headerlength, b.isSR);
    }
    assert SdesBytes(b.sources) <= SdesBytes(c.sources) by {
      SourcesGrow(b.sources, if a.SdesItem? then a.buf else [], if a.SdesSource? then a.ssrc else 0);
    }
  }

  /** One step from within the bound stays within it, if and only if it is not a first source that
      leaves fewer than twelve bytes of room. */
  lemma StepStaysWithinIff(b: Build, max: nat, a: Addition)
    requires Total(b) <= max
    ensures Total(Attempt(b, max, a).0) <= max <==>
              !(a.SdesSource? && b.sources == [] && Total(b) + FIRST_SOURCE_BYTES > max)
  {
    if !(a.SdesItem? && b.sources == []) {
      ForecastIsExactIff(b, a);
    }
  }

  /** What is added, and how everything else is answered: an addition is made if and only if it is
      possible and the size with it fits, where a first source only needs the size without it to fit. */
  lemma AnswersAre(b: Build, max: nat, a: Addition)
    ensures var (next, answer) := Attempt(b, max, a);
            var fits := if b.sources == [] && !a.ReportBlock? then Total(b) <= max else Total(Apply(b, a)) <= max;
            && (answer == NoReport <==> a.ReportBlock? && b.headerlength == 0)
            && (answer == NoSource <==> a.SdesItem? && b.sources == [] && fits)
            && (answer == NotEnoughBytesLeft <==> answer != NoReport && !fits)
            && next == if answer == Added then Apply(b, a) else b
  {
    if !(a.SdesItem? && b.sources == []) {
      ForecastIsExactIff(b, a);
    }
  }

  /** The size is within the bound, or a first source without items has just overshot it. */
  predicate Bounded(b: Build, max: nat) {
    Total(b) <= max || (|b.sources| == 1 && Total(b) <= max + FIRST_SOURCE_BYTES)
  }

  lemma StepStaysBounded(b: Build, max: nat, a: Addition)
    requires ProperReport(b) && Bounded(b, max)
    ensures ProperReport(Attempt(b, max, a).0) && Bounded(Attempt(b, max, a).0, max)
    ensures b.sources != [] && Total(b) <= max ==> Total(Attempt(b, max, a).0) <= max
    ensures b.sources != [] ==> Attempt(b, max, a).0.sources != []
    ensures Total(b) > max ==> Attempt(b, max, a).0 == b
  {
    if Attempt(b, max, a).1 == Added {
      ForecastIsExactIff(b, a);
      AdditionsGrow(b, a);
    }
  }

  /** No run ever exceeds the maximum by more than the twelve bytes of a first source. */
  lemma {:induction false} RunStaysBounded(b: Build, max: nat, additions: seq<Addition>)
    requires ProperReport(b) && Bounded(b, max)
    ensures Bounded(Run(b, max, additions), max)
    ensures Total(Run(b, max, additions)) <= max + FIRST_SOURCE_BYTES
    decreases |additions|
  {
    if additions != [] {
      StepStaysBounded(b, max, additions[0]);
      RunStaysBounded(Attempt(b, max, additions[0]).0, max, additions[1..]);
    }
  }

  /** Once there is a source, no run exceeds the maximum at all. */
  lemma {:induction false} RunStaysWithin(b: Build, max: nat, additions: seq<Addition>)
    requires ProperReport(b) && Total(b) <= max && b.sources != []
    ensures Total(Run(b, max, additions)) <= max
    decreases |additions|
  {
    if additions != [] {
      StepStaysBounded(b, max, additions[0]);
      RunStaysWithin(Attempt(b, max, additions[0]).0, max, additions[1..]);
    }
  }

  /** A builder that has overshot admits nothing more. */
  lemma {:induction false} OvershootIsFinal(b: Build, max: nat, additions: seq<Addition>)
    requires ProperReport(b) && Bounded(b, max) && Total(b) > max
    ensures Run(b, max, additions) == b
    decreases |additions|
  {
    if additions != [] {
      StepStaysBounded(b, max, additions[0]);
      OvershootIsFinal(b, max, additions[1..]);
    }
  }

  /** The one dangerous step: a first source with fewer than twelve bytes of room. */
  predicate Overshoots(b: Build, max: nat, a: Addition) {
    a.SdesSource? && b.sources == [] && Total(b) + FIRST_SOURCE_BYTES > max
  }

  predicate RunOvershoots(b: Build, max: nat, additions: seq<Addition>)
    decreases |additions|
  {
    additions != [] &&
    (Overshoots(b, max, additions[0]) || RunOvershoots(Attempt(b, max, additions[0]).0, max, additions[1..]))
  }

  /** A run ends over the maximum if and only if it takes that step somewhere. */
  lemma {:induction false} RunExceedsIff(b: Build, max: nat, additions: seq<Addition>)
    requires ProperReport(b) && Total(b) <= max
    ensures Total(Run(b, max, additions)) > max <==> RunOvershoots(b, max, additions)
    decreases |additions|
  {
    if additions != [] {
      var next := Attempt(b, max, additions[0]).0;
      StepStaysWithinIff(b, max, additions[0]);
      StepStaysBounded(b, max, additions[0]);
      if Overshoots(b, max, additions[0]) {
        OvershootIsFinal(next, max, additions[1..]);
      } else {
        RunExceedsIff(next, max, additions[1..]);
      }
    }
  }

  /** A guard that compares the forecast with the maximum does not keep every run within it: from 592
      bytes, with a maximum of 600, a first source leads to 604. */
  lemma FirstSourceOvershoots(ssrc: uint32)
    ensures var b := Build(4, false, 24, [], 8);
            && ProperReport(b) && Total(b) == 592
            && Total(Run(b, 600, [SdesSource(ssrc)])) == 604
  {
    var b := Build(4, false, 24, [], 8);
    ReportSize(24, false);
    WithSourceSize([], ssrc);
    assert Run(b, 600, [SdesSource(ssrc)]) == Apply(b, SdesSource(ssrc));
  }

  // ---------------------------------------------------------------- on the objects of the builder

  /** The part of a packet under construction that is in `report` and `sdes`. */
  ghost function BuildOf(report: Report, sdes: SDES, other: nat): Build
    reads report, sdes, sdes.sdessources
  {
    Build(report.headerlength, report.isSR, |report.reportblocks|, sdes.View(), other)
  }

  /** The length of an item is one octet, and its buffer has two more. */
  predicate ProperAddition(a: Addition) {
    a.SdesItem? ==> 2 <= |a.buf| < 2 + 256
  }

  /** The size that the builder's objects announce for the whole packet after an addition. */
  method Announced(report: Report, sdes: SDES, other: nat, a: Addition) returns (x: nat)
    requires sdes.Valid() && ProperAddition(a)
    ensures x == Forecast(BuildOf(report, sdes, other), a)
  {
    var r, s;
    match a {
      case ReportBlock(_) =>
        r := report.NeededBytesWithExtraReportBlock();
        s := sdes.NeededBytes();
      case SdesItem(buf) =>
        r := report.NeededBytes();
        s := sdes.NeededBytesWithExtraItem(|buf| - 2);
        assert sdes.View() != [] ==> s == SdesBytes(WithItem(sdes.View(), buf));
      case SdesSource(ssrc) =>
        r := report.NeededBytes();
        s := sdes.NeededBytesWithExtraSource();
        assert s == SdesBytes(WithSource(sdes.View(), ssrc)) <==> sdes.sdessources != [];
    }
    x := r + s + other;
  }

  /** Adds to the part of the packet that `a` is for. */
  method Append(report: Report, sdes: SDES, ghost other: nat, a: Addition) returns (answer: Answer)
    requires sdes.Valid()
    modifies report, sdes, sdes.sdessources
    ensures sdes.Valid()
    ensures var b := old(BuildOf(report, sdes, other));
            (BuildOf(report, sdes, other), answer) ==
            if a.SdesItem? && b.sources == [] then (b, NoSource) else (Apply(b, a), Added)
    ensures report.reportblocks == if a.ReportBlock? then old(report.reportblocks) + [a.block] else old(report.reportblocks)
    ensures var was, now := old(sdes.View()), sdes.View();
            match a
            case ReportBlock(_) => now == was
            case SdesItem(buf) =>
              |now| == |was| && (was != [] ==>
                var k := |was| - 1;
                now[..k] == was[..k] && now[k].ssrc == was[k].ssrc && now[k].items == was[k].items + [buf])
            case SdesSource(ssrc) => now == was + [Source(ssrc, [])]
    ensures old(sdes.sdessources) <= sdes.sdessources
    ensures forall i :: old(|sdes.sdessources|) <= i < |sdes.sdessources| ==> fresh(sdes.sdessources[i])
  {
    match a {
      case ReportBlock(block) =>
        report.reportblocks := report.reportblocks + [block];
      case SdesItem(buf) =>
        var status := sdes.AddItem(buf);
        if status == NoCurrentSource {
          return NoSource;
        }
      case SdesSource(ssrc) =>
        var _ := sdes.AddSSRC(ssrc, true);
    }
    return Added;
  }

  /** Adds a report block, an item or a source if the announced size fits. */
  method Admit(report: Report, sdes: SDES, other: nat, max: nat, a: Addition) returns (answer: Answer)
    requires sdes.Valid() && ProperAddition(a)
    modifies report, sdes, sdes.sdessources
    ensures sdes.Valid()
    ensures (BuildOf(report, sdes, other), answer) == Attempt(old(BuildOf(report, sdes, other)), max, a)
    ensures old(sdes.sdessources) <= sdes.sdessources
    ensures forall i :: old(|sdes.sdessources|) <= i < |sdes.sdessources| ==> fresh(sdes.sdessources[i])
  {
    if a.ReportBlock? && report.headerlength == 0 {
      return NoReport;
    }
    var x := Announced(report, sdes, other, a);
    if x > max {
      return NotEnoughBytesLeft;
    }
    answer := Append(report, sdes, other, a);
  }

  /** Any sequence of guarded additions does to the objects what it does to the value. From a proper
      report within the maximum, the size they announce in the end exceeds it by at most twelve
      bytes, and exceeds it at all if and only if the run overshoots. */
  method AdmitAll(report: Report, sdes: SDES, other: nat, max: nat, additions: seq<Addition>) returns (size: nat)
    requires sdes.Valid() && forall i :: 0 <= i < |additions| ==> ProperAddition(additions[i])
    modifies report, sdes, sdes.sdessources
    ensures sdes.Valid()
    ensures BuildOf(report, sdes, other) == Run(old(BuildOf(report, sdes, other)), max, additions)
    ensures size == Total(BuildOf(report, sdes, other))
    ensures var b := old(BuildOf(report, sdes, other));
            ProperReport(b) && Total(b) <= max ==>
              size <= max + FIRST_SOURCE_BYTES && (size > max <==> RunOvershoots(b, max, additions))
  {
    ghost var b := BuildOf(report, sdes, other);
    assert additions[0..] == additions;
    for i := 0 to |additions|
      invariant sdes.Valid()
      invariant Run(BuildOf(report, sdes, other), max, additions[i..]) == Run(b, max, additions)
      invariant old(sdes.sdessources) <= sdes.sdessources
      invariant forall j :: old(|sdes.sdessources|) <= j < |sdes.sdessources| ==> fresh(sdes.sdessources[j])
    {
      assert additions[i..][1..] == additions[i + 1..];
      var _ := Admit(report, sdes, other, max, additions[i]);
    }
    var r := report.NeededBytes();
    var s := sdes.NeededBytes();
    size := r + s + other;
    if ProperReport(b) && Total(b) <= max {
      RunStaysBounded(b, max, additions);
      RunExceedsIff(b, max, additions);
    }
  }
}
