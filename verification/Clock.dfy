/** The clock built on the performance counter. All words are 64 bits and wrap around. */
module Clock {
  import opened Bytes

  type uint64 = x: int | 0 <= x < 0x1_0000_0000_0000_0000

  const CEPOCH: int := 11644473600000000

  /** 64 bit arithmetic. */
  function Wrap(x: int): uint64 {
    x % 0x1_0000_0000_0000_0000
  }

  /** Microseconds for a counter value: whole seconds and the rest are scaled separately. */
  function CalculateMicroseconds(performancecount: uint64, performancefrequency: uint64): uint64
    requires performancefrequency > 0
  {
    var f, a := performancefrequency, performancecount;
    var b := a / f;
    var c := a % f;
    ScaledSum(b * 1000000, c * 1000000, f)
  }

  function ScaledSum(whole: nat, x: nat, f: uint64): uint64
    requires f > 0
  {
    Wrap(Wrap(whole) + Wrap(x) / f)
  }

  // ---------------------------------------------------------------- division

  lemma MulDistributes(d: int, p: int, q: int)
    ensures d * (q - p) == d * q - d * p
  {
  }

  lemma MulAtLeast(d: int, k: int)
    requires d > 0 && k >= 1
    ensures d * k >= d
  {
  }

  lemma MulMonotone(k: nat, x: int, y: int)
    requires x <= y
    ensures k * x <= k * y
  {
  }

  lemma DivUnique(x: int, d: int, q: int, r: int)
    requires d > 0 && 0 <= r < d && x == d * q + r
    ensures x / d == q
  {
    var p := x / d;
    MulDistributes(d, p, q);
    MulDistributes(d, q, p);
    if q > p {
      MulAtLeast(d, q - p);
    } else if q < p {
      MulAtLeast(d, p - q);
    }
  }

  lemma DivShift(x: int, d: int, k: int)
    requires d > 0
    ensures (d * k + x) / d == k + x / d
  {
    assert d * k + x == d * (k + x / d) + x % d;
    DivUnique(d * k + x, d, k + x / d, x % d);
  }

  lemma DivMonotone(x: int, y: int, d: int)
    requires d > 0 && x <= y
    ensures x / d <= y / d
  {
    var p, q := x / d, y / d;
    if p > q {
      MulDistributes(d, q, p);
      MulAtLeast(d, p - q);
    }
  }

  lemma WrapSum(u: int, v: int)
    ensures Wrap(Wrap(u) + v) == Wrap(u + v)
  {
  }

  lemma WrapIsIdentityIff(x: int)
    ensures Wrap(x) == x <==> 0 <= x < TWO_TO_64
  {
  }

  /** A sum that lost something, but less than 2^64, is wrong also modulo 2^64. */
  lemma WrappedSumIff(whole: nat, lost: nat, frac: nat)
    requires lost <= frac < 1000000
    ensures Wrap(whole + lost) == whole + frac <==> whole + frac < TWO_TO_64 && lost == frac
  {
    var q := (whole + lost) / TWO_TO_64;
    assert whole + lost == TWO_TO_64 * q + Wrap(whole + lost);
  }

  /** The product that is never formed, split into whole seconds and the rest. */
  lemma ScaledQuotient(a: nat, f: nat)
    requires f > 0
    ensures a * 1000000 / f == a / f * 1000000 + a % f * 1000000 / f
    ensures 0 <= a % f * 1000000 / f < 1000000
  {
    var b, c := a / f, a % f;
    assert a * 1000000 == f * (b * 1000000) + c * 1000000;
    DivShift(c * 1000000, f, b * 1000000);
    MulMonotone(1000000, c, f - 1);
    DivMonotone(c * 1000000, f * 1000000 - 1, f);
    DivUnique(f * 1000000 - 1, f, 1000000 - 1, f - 1);
    DivMonotone(0, c * 1000000, f);
    assert 0 / f == 0 by { DivUnique(0, f, 0, 0); }
  }

  lemma SplitSumIff(whole: nat, x: nat, f: uint64)
    requires f > 0 && x / f < 1000000
    ensures ScaledSum(whole, x, f) == whole + x / f <==> whole + x / f < TWO_TO_64 && x < TWO_TO_64
  {
    WrapSum(whole, Wrap(x) / f);
    WrapIsIdentityIff(x);
    if x >= TWO_TO_64 {
      LostQuotient(x, f);
    } else {
      DivMonotone(0, x, f);
      assert 0 / f == 0 by { DivUnique(0, f, 0, 0); }
    }
    WrappedSumIff(whole, Wrap(x) / f, x / f);
  }

  /** The result is the exact floor of a * 10^6 / f if and only if that fits 64 bits and the scaled
      remainder does not wrap. */
  lemma CalculatesFloorIff(a: uint64, f: uint64)
    requires f > 0
    ensures CalculateMicroseconds(a, f) == a * 1000000 / f <==>
              a * 1000000 / f < TWO_TO_64 && a % f * 1000000 < TWO_TO_64
  {
    ScaledQuotient(a, f);
    SplitSumIff(a / f * 1000000, a % f * 1000000, f);
  }

  /** A scaled remainder that wraps loses between one and 10^6 from the quotient. */
  lemma LostQuotient(x: int, f: uint64)
    requires f > 0 && x >= TWO_TO_64
    ensures 0 <= Wrap(x) / f < x / f
  {
    var r := Wrap(x);
    assert x >= r + TWO_TO_64;
    DivMonotone(0, r, f);
    assert 0 / f == 0 by { DivUnique(0, f, 0, 0); }
    DivShift(r, f, 1);
    DivMonotone(f * 1 + r, x, f);
  }

  /** With a frequency of 2^62 the scaled remainder wraps: half a second is read as none. */
  lemma WhereTheFloorIsLost()
    ensures CalculateMicroseconds(0x2000_0000_0000_0000, 0x4000_0000_0000_0000) == 0
    ensures 0x2000_0000_0000_0000 * 1000000 / 0x4000_0000_0000_0000 == 500000
  {
  }

  /** The frequencies the split is made for: no intermediate wraps, whatever the count. */
  lemma CalculatesFloor(a: uint64, f: uint64)
    requires 0 < f <= (TWO_TO_64 - 1) / 1000000
    requires a * 1000000 / f < TWO_TO_64
    ensures CalculateMicroseconds(a, f) == a * 1000000 / f
    ensures a / f * 1000000 < TWO_TO_64 && a % f * 1000000 < TWO_TO_64
    ensures a / f * 1000000 + a % f * 1000000 / f < TWO_TO_64
  {
    assert a % f < f;
    ScaledQuotient(a, f);
    CalculatesFloorIff(a, f);
  }

  /** Counts that do not decrease give microseconds that do not decrease. */
  lemma MicrosecondsAreMonotone(a: uint64, a': uint64, f: uint64)
    requires 0 < f <= (TWO_TO_64 - 1) / 1000000 && a <= a'
    requires a' * 1000000 / f < TWO_TO_64
    ensures a * 1000000 / f < TWO_TO_64
    ensures CalculateMicroseconds(a, f) <= CalculateMicroseconds(a', f)
  {
    DivMonotone(a * 1000000, a' * 1000000, f);
    CalculatesFloor(a, f);
    CalculatesFloor(a', f);
  }

  // ---------------------------------------------------------------- the clock

  /** The time in microseconds for a count, after a first call that found the wall clock at
      `microseconds` and the counter at `initmicroseconds`. */
  function Reading(microseconds: uint64, initmicroseconds: uint64, count: uint64, frequency: uint64): uint64
    requires frequency > 0
  {
    Later(microseconds, CalculateMicroseconds(count, frequency) - initmicroseconds)
  }

  /** The wall clock plus a difference of two unsigned words, each operation wrapping. */
  function Later(microseconds: uint64, difference: int): uint64 {
    Wrap(microseconds + Wrap(difference))
  }

  lemma LaterIff(microseconds: uint64, difference: int)
    ensures Later(microseconds, difference) == microseconds + difference <==> 0 <= microseconds + difference < TWO_TO_64
  {
    WrapSum(difference, microseconds);
    WrapIsIdentityIff(microseconds + difference);
  }

  /** File times count tenths of microseconds from 1601. */
  function FileTimeMicroseconds(high: uint32, low: uint32): uint64 {
    (high * 0x1_0000_0000 + low) / 10
  }

  function WallClock(high: uint32, low: uint32): uint64 {
    Wrap(FileTimeMicroseconds(high, low) - CEPOCH)
  }

  /** There are 369 years with 89 leap days from 1601 to 1970; the wall clock is the number of
      microseconds since 1970, if and only if it is not set to an earlier time. */
  lemma WallClockIff(high: uint32, low: uint32)
    ensures var unix := (high * 0x1_0000_0000 + low) / 10 - (369 * 365 + 89) * 86400 * 1000000;
            WallClock(high, low) == unix <==> unix >= 0
  {
  }

  /** The same for a given Unix time, whatever tenths of a microsecond the file time has besides. */
  lemma UnixTimeIff(high: uint32, low: uint32, u: int, r: nat)
    requires high * 0x1_0000_0000 + low == 10 * (u + (369 * 365 + 89) * 86400 * 1000000) + r && r < 10
    ensures WallClock(high, low) == u <==> u >= 0
  {
    WallClockIff(high, low);
  }

  /** The static variables of `CurrentTime`. */
  class SystemClock {
    var inited: bool
    var microseconds: uint64
    var initmicroseconds: uint64
    var performancefrequency: uint64

    ghost predicate Valid()
      reads this
    {
      inited ==> performancefrequency > 0
    }

    constructor ()
      ensures Valid() && !inited
    {
      inited, microseconds, initmicroseconds, performancefrequency := false, 0, 0, 0;
    }

    /** The part of the first call only. */
    method Initialize(count: uint64, frequency: uint64, filetimehigh: uint32, filetimelow: uint32)
      requires !inited && frequency > 0
      modifies this
      ensures inited && performancefrequency == frequency
      ensures microseconds == WallClock(filetimehigh, filetimelow)
      ensures initmicroseconds == CalculateMicroseconds(count, frequency)
    {
      inited := true;
      performancefrequency := frequency;
      microseconds := FileTimeMicroseconds(filetimehigh, filetimelow);
      microseconds := Wrap(microseconds - CEPOCH);
      initmicroseconds := CalculateMicroseconds(count, performancefrequency);
    }

    /** `count`, `frequency` and the file time are what the operating system answers. The wall clock
        and the frequency are looked at in the first call only. */
    method CurrentTime(count: uint64, frequency: uint64, filetimehigh: uint32, filetimelow: uint32) returns (t: real)
      requires Valid() && frequency > 0
      modifies this
      ensures Valid() && inited
      ensures old(inited) ==> unchanged(this)
      ensures !old(inited) ==>
                performancefrequency == frequency && microseconds == WallClock(filetimehigh, filetimelow) &&
                initmicroseconds == CalculateMicroseconds(count, frequency)
      ensures !old(inited) ==>
                var unix := (filetimehigh * 0x1_0000_0000 + filetimelow) / 10 - (369 * 365 + 89) * 86400 * 1000000;
                unix >= 0 ==> t == unix as real / 1000000.0
      ensures t == Reading(microseconds, initmicroseconds, count, performancefrequency) as real / 1000000.0
    {
      if !inited {
        Initialize(count, frequency, filetimehigh, filetimelow);
      }
      WallClockIff(filetimehigh, filetimelow);
      FirstReading(microseconds, count, performancefrequency);
      var emulatemicroseconds := CalculateMicroseconds(count, performancefrequency);
      t := Later(microseconds, emulatemicroseconds - initmicroseconds) as real / 1000000.0;
    }
  }

  /** The first call returns the wall clock. */
  lemma FirstReading(microseconds: uint64, count: uint64, f: uint64)
    requires f > 0
    ensures Reading(microseconds, CalculateMicroseconds(count, f), count, f) == microseconds
  {
  }

  /** The reading is wall clock plus elapsed time if and only if that sum is a 64 bit number, also
      when the counter is behind its first value and the difference wraps. */
  lemma ReadingIsElapsedIff(microseconds: uint64, init: uint64, count: uint64, f: uint64)
    requires f > 0
    ensures var sum := microseconds + CalculateMicroseconds(count, f) - init;
            Reading(microseconds, init, count, f) == sum <==> 0 <= sum < TWO_TO_64
  {
    LaterIff(microseconds, CalculateMicroseconds(count, f) - init);
  }

  /** A counter that does not decrease, with a frequency the split is made for, and sums in range. */
  predicate Steady(microseconds: uint64, counts: seq<uint64>, f: uint64) {
    && 0 < f <= (TWO_TO_64 - 1) / 1000000
    && (forall m, n :: 0 <= m <= n < |counts| ==> counts[m] <= counts[n])
    && (counts != [] ==>
          var last := counts[|counts| - 1] * 1000000 / f;
          last < TWO_TO_64 && microseconds + last - counts[0] * 1000000 / f < TWO_TO_64)
  }

  /** The wall clock of the first call, plus the difference of the whole microseconds that the counter
      stands for now and then. */
  function ExactReading(microseconds: uint64, first: uint64, count: uint64, f: uint64): int
    requires f > 0
  {
    microseconds + count * 1000000 / f - first * 1000000 / f
  }

  /** The readings never decrease, the difference never wraps, and each reading is exact. */
  lemma ReadingsAreMonotone(microseconds: uint64, counts: seq<uint64>, f: uint64, i: nat, j: nat)
    requires Steady(microseconds, counts, f) && i <= j < |counts|
    ensures var init := CalculateMicroseconds(counts[0], f);
            && CalculateMicroseconds(counts[j], f) >= init
            && Reading(microseconds, init, counts[j], f) == ExactReading(microseconds, counts[0], counts[j], f)
            && Reading(microseconds, init, counts[i], f) <= Reading(microseconds, init, counts[j], f)
  {
    var last := |counts| - 1;
    Elapsed(microseconds, counts[0], counts[i], counts[last], f);
    Elapsed(microseconds, counts[0], counts[j], counts[last], f);
    MicrosecondsAreMonotone(counts[j], counts[last], f);
    MicrosecondsAreMonotone(counts[i], counts[j], f);
    CalculatesFloor(counts[i], f);
    CalculatesFloor(counts[j], f);
  }

  lemma Elapsed(microseconds: uint64, first: uint64, count: uint64, last: uint64, f: uint64)
    requires 0 < f <= (TWO_TO_64 - 1) / 1000000 && first <= count <= last
    requires last * 1000000 / f < TWO_TO_64
    requires microseconds + last * 1000000 / f - first * 1000000 / f < TWO_TO_64
    ensures var init := CalculateMicroseconds(first, f);
            && CalculateMicroseconds(count, f) >= init
            && Reading(microseconds, init, count, f) == ExactReading(microseconds, first, count, f)
  {
    MicrosecondsAreMonotone(count, last, f);
    MicrosecondsAreMonotone(first, count, f);
    CalculatesFloor(first, f);
    CalculatesFloor(count, f);
    CalculatesFloor(last, f);
    ReadingIsElapsedIff(microseconds, CalculateMicroseconds(first, f), count, f);
  }

  /** What the operating system answers at one call. */
  datatype Moment = Moment(count: uint64, frequency: uint64, filetimehigh: uint32, filetimelow: uint32)

  function Counts(moments: seq<Moment>): (counts: seq<uint64>)
    ensures |counts| == |moments|
  {
    seq(|moments|, i requires 0 <= i < |moments| => moments[i].count)
  }

  /** The wall clock and the frequency of the first call serve all calls. */
  predicate SteadyMoments(moments: seq<Moment>) {
    && (forall i :: 0 <= i < |moments| ==> moments[i].frequency > 0)
    && (moments != [] ==>
          Steady(WallClock(moments[0].filetimehigh, moments[0].filetimelow), Counts(moments), moments[0].frequency))
  }

  /** The times of a sequence of calls, the first of which sets the clock, are exact and never decrease. */
  method CurrentTimes(clock: SystemClock, moments: seq<Moment>) returns (times: seq<real>)
    requires clock.Valid() && !clock.inited && SteadyMoments(moments)
    modifies clock
    ensures |times| == |moments|
    ensures forall i :: 0 <= i < |times| ==>
              var first := moments[0];
              times[i] == ExactReading(WallClock(first.filetimehigh, first.filetimelow), first.count, moments[i].count,
                                       first.frequency) as real / 1000000.0
    ensures forall i :: 0 <= i < |times| ==>
              var first := moments[0];
              var unix := (first.filetimehigh * 0x1_0000_0000 + first.filetimelow) / 10 - (369 * 365 + 89) * 86400 * 1000000;
              var elapsed := moments[i].count * 1000000 / first.frequency - first.count * 1000000 / first.frequency;
              unix >= 0 ==> times[i] == (unix + elapsed) as real / 1000000.0
    ensures forall i, j :: 0 <= i <= j < |times| ==> times[i] <= times[j]
  {
    times := [];
    for k := 0 to |moments|
      invariant clock.Valid() && clock.inited == (k > 0) && |times| == k
      invariant k > 0 ==>
                  var first := moments[0];
                  && clock.performancefrequency == first.frequency
                  && clock.microseconds == WallClock(first.filetimehigh, first.filetimelow)
                  && clock.initmicroseconds == CalculateMicroseconds(first.count, first.frequency)
      invariant forall i :: 0 <= i < k ==>
                  times[i] == Reading(clock.microseconds, clock.initmicroseconds, moments[i].count,
                                      clock.performancefrequency) as real / 1000000.0
    {
      var m := moments[k];
      var t := clock.CurrentTime(m.count, m.frequency, m.filetimehigh, m.filetimelow);
      times := times + [t];
    }
    if moments != [] {
      WallClockIff(moments[0].filetimehigh, moments[0].filetimelow);
    }
    forall i, j | 0 <= i <= j < |times|
      ensures times[j] == ExactReading(clock.microseconds, moments[0].count, moments[j].count,
                                       clock.performancefrequency) as real / 1000000.0
      ensures times[i] <= times[j]
    {
      ReadingsAreMonotone(clock.microseconds, Counts(moments), clock.performancefrequency, i, j);
    }
  }
}
