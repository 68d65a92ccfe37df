/** Wallclock times and their conversions. A `double` is taken as the exact real it stands for. */
module RtpTimes {
  import opened Bytes

  type int64 = x: int | -0x8000_0000_0000_0000 <= x < 0x8000_0000_0000_0000

  const RTP_NTPTIMEOFFSET: int := 2208988800

  datatype RTPNTPTime = RTPNTPTime(msw: uint32, lsw: uint32)

  /** `RTPTime(seconds, microseconds)`; negating the smallest `int64_t` is not defined. */
  function FromParts(seconds: int64, microseconds: uint32): real
    requires seconds > -0x8000_0000_0000_0000
  {
    if seconds >= 0 then seconds as real + microseconds as real / 1000000.0
    else -((-seconds) as real + microseconds as real / 1000000.0)
  }

  /** A conversion to an integer type truncates toward zero. */
  function Truncate(x: real): int {
    if x >= 0.0 then x.Floor else -(-x).Floor
  }

  function GetSeconds(t: real): int {
    Truncate(t)
  }

  function GetMicroSeconds(t: real): int {
    var m := if t >= 0.0 then t else -t;
    var microsec := (1000000.0 * (m - m.Floor as real) + 0.5).Floor;
    if microsec >= 1000000 then 999999 else microsec
  }

  function FromNTP(n: RTPNTPTime): real {
    if n.msw < RTP_NTPTIMEOFFSET then 0.0
    else
      var sec := n.msw - RTP_NTPTIMEOFFSET;
      var microsec := (n.lsw as real / 4294967296.0 * 1000000.0).Floor;
      sec as real + microsec as real / 1000000.0
  }

  /** The conversion to `uint32_t` is defined for times from 0 up to 2^32 seconds. */
  function GetNTPTime(t: real): RTPNTPTime
    requires 0.0 <= t < 4294967296.0
  {
    var sec := t.Floor;
    var microsec := ((t - sec as real) * 1000000.0).Floor;
    var lsw := (microsec as real / 1000000.0 * 4294967296.0).Floor;
    RTPNTPTime((sec + RTP_NTPTIMEOFFSET) % TWO_TO_32, lsw)
  }

  /** The milliseconds passed to `Sleep`; 32 bit arithmetic, and none at all for times up to 0. */
  function WaitMilliseconds(delay: real): nat
    requires delay < 18446744073709551616.0
  {
    if delay <= 0.0 then 0
    else
      var sec := delay.Floor;
      var microsec := (1000000.0 * (delay - sec as real)).Floor;
      (sec % TWO_TO_32 * 1000 % TWO_TO_32 + microsec / 1000) % TWO_TO_32
  }

  // ---------------------------------------------------------------- seconds and microseconds

  lemma FloorOfSum(n: int, x: real)
    requires 0.0 <= x < 1.0
    ensures (n as real + x).Floor == n
  {
  }

  /** Splitting a time gives back the parts it was made of, if and only if the second part is less
      than a second. */
  lemma PartsRoundTripIff(seconds: int64, microseconds: uint32)
    requires seconds > -0x8000_0000_0000_0000
    ensures var t := FromParts(seconds, microseconds);
            (GetSeconds(t), GetMicroSeconds(t)) == (seconds as int, microseconds as int) <==> microseconds < 1000000
  {
    var t := FromParts(seconds, microseconds);
    var x := microseconds as real / 1000000.0;
    if microseconds < 1000000 {
      var s := if seconds >= 0 then seconds as int else -seconds;
      FloorOfSum(s, x);
      FloorOfSum(microseconds, 0.5);
      assert 1000000.0 * x == microseconds as real;
    }
  }

  /** The rounded microseconds are off by at most half, or by less than one where they are clamped. */
  lemma MicroSecondsError(t: real)
    ensures var m := if t >= 0.0 then t else -t;
            var exact := 1000000.0 * (m - m.Floor as real);
            && 0 <= GetMicroSeconds(t) <= 999999
            && (if exact < 999999.5 then -0.5 <= exact - GetMicroSeconds(t) as real < 0.5
                else 0.5 <= exact - GetMicroSeconds(t) as real < 1.0)
  {
  }

  function Distance(x: real, y: real): real {
    if x >= y then x - y else y - x
  }

  /** A time comes back from its parts to within a microsecond, if and only if its sign is not lost:
      between -1 and 0 seconds the seconds are 0, and the parts are those of the opposite time. */
  lemma TimeFromPartsIff(t: real)
    requires -9223372036854775808.0 < t < 9223372036854775808.0
    ensures -0x8000_0000_0000_0000 < GetSeconds(t) < 0x8000_0000_0000_0000
    ensures Distance(t, FromParts(GetSeconds(t), GetMicroSeconds(t))) < 0.000001 <==> t <= -1.0 || t > -0.0000005
  {
    MicroSecondsError(t);
  }

  /** For example, half a second before the epoch becomes half a second after it. */
  lemma SignIsLost()
    ensures FromParts(GetSeconds(-0.5), GetMicroSeconds(-0.5)) == 0.5
  {
    FloorIs(500000.5, 500000);
  }

  // ---------------------------------------------------------------- floors of quotients

  lemma FloorIs(x: real, q: int)
    requires q as real <= x < q as real + 1.0
    ensures x.Floor == q
  {
  }

  lemma MicrosToFraction(us: nat)
    requires us < 1000000
    ensures (us as real / 1000000.0 * 4294967296.0).Floor == us * 4294967296 / 1000000
    ensures 0 <= us * 4294967296 / 1000000 < 4294967296
  {
    var q := us * 4294967296 / 1000000;
    var r := us * 4294967296 - 1000000 * q;
    var x := us as real / 1000000.0 * 4294967296.0;
    assert 1000000.0 * x == (us * 4294967296) as real == 1000000.0 * q as real + r as real;
    FloorIs(x, q);
  }

  lemma FractionToMicros(lsw: uint32)
    ensures (lsw as real / 4294967296.0 * 1000000.0).Floor == lsw * 1000000 / 4294967296
    ensures 0 <= lsw * 1000000 / 4294967296 < 1000000
  {
    var q := lsw * 1000000 / 4294967296;
    var r := lsw * 1000000 - 4294967296 * q;
    var x := lsw as real / 4294967296.0 * 1000000.0;
    assert 4294967296.0 * x == (lsw * 1000000) as real == 4294967296.0 * q as real + r as real;
    FloorIs(x, q);
  }

  // ---------------------------------------------------------------- NTP times

  /** The NTP time of a whole number of microseconds. */
  lemma NTPOfParts(sec: nat, us: nat)
    requires sec < 4294967296 && us < 1000000
    ensures 0.0 <= sec as real + us as real / 1000000.0 < 4294967296.0
    ensures GetNTPTime(sec as real + us as real / 1000000.0) ==
            RTPNTPTime((sec + RTP_NTPTIMEOFFSET) % TWO_TO_32, us * 4294967296 / 1000000)
  {
    var x := us as real / 1000000.0;
    FloorOfSum(sec, x);
    assert x * 1000000.0 == us as real;
    FloorIs(us as real, us);
    MicrosToFraction(us);
  }

  lemma FractionLoss(lsw: uint32)
    ensures 0 <= lsw - lsw * 1000000 / 4294967296 * 4294967296 / 1000000 <= 4295
  {
    var us, r := lsw * 1000000 / 4294967296, lsw * 1000000 % 4294967296;
    assert us * 4294967296 == lsw * 1000000 - r;
  }

  /** NTP times count from 1900: 70 years with 17 leap days before 1970. */
  lemma NTPOf1970()
    ensures GetNTPTime(0.0) == RTPNTPTime((70 * 365 + 17) * 86400, 0)
    ensures FromNTP(RTPNTPTime((70 * 365 + 17) * 86400, 0)) == 0.0
    ensures FromNTP(RTPNTPTime((70 * 365 + 17) * 86400 + 1, 0)) == 1.0
  {
    NTPOfParts(0, 0);
  }

  /** The whole microseconds of an NTP time from 1970 on. */
  lemma PartsOfNTP(n: RTPNTPTime)
    requires n.msw >= RTP_NTPTIMEOFFSET
    ensures 0 <= n.lsw * 1000000 / 4294967296 < 1000000
    ensures FromNTP(n) == (n.msw - RTP_NTPTIMEOFFSET) as real + (n.lsw * 1000000 / 4294967296) as real / 1000000.0
  {
    FractionToMicros(n.lsw);
  }

  /** From NTP time to wallclock time and back keeps the seconds and lowers the fraction by less than
      2^32 / 10^6 + 1; times before 1970 all become the start of 1970. */
  lemma NTPRoundTrip(n: RTPNTPTime)
    ensures 0.0 <= FromNTP(n) < 4294967296.0
    ensures n.msw < RTP_NTPTIMEOFFSET ==> GetNTPTime(FromNTP(n)) == RTPNTPTime(RTP_NTPTIMEOFFSET, 0)
    ensures n.msw >= RTP_NTPTIMEOFFSET ==>
              GetNTPTime(FromNTP(n)).msw == n.msw && 0 <= n.lsw - GetNTPTime(FromNTP(n)).lsw <= 4295
  {
    if n.msw < RTP_NTPTIMEOFFSET {
      NTPOfParts(0, 0);
    } else {
      PartsOfNTP(n);
      FractionLoss(n.lsw);
      NTPOfParts(n.msw - RTP_NTPTIMEOFFSET, n.lsw * 1000000 / 4294967296);
    }
  }

  /** What is left of a number of microseconds after the way through an NTP fraction. */
  function Truncated(us: nat): nat {
    if us % 15625 == 0 then us else us - 1
  }

  /** 12659 is the inverse of 2^26 modulo 15625. */
  lemma CoprimeTo15625(us: nat, l: nat)
    requires us * 67108864 == 15625 * l
    ensures us % 15625 == 0
  {
    assert us == 15625 * (12659 * l - 54369991 * us);
  }

  /** 10^6 is 64 * 15625, so the fraction is exact just for multiples of 15625 microseconds. */
  lemma FractionIsExactIff(us: nat)
    ensures us * 4294967296 % 1000000 == 0 <==> us % 15625 == 0
  {
    var l := us * 4294967296 / 1000000;
    if us * 4294967296 % 1000000 == 0 {
      assert us * 67108864 == 15625 * l;
      CoprimeTo15625(us, l);
    }
    if us % 15625 == 0 {
      var k := us / 15625;
      assert us * 4294967296 == 1000000 * (k * 67108864);
    }
  }

  lemma ThroughTheFraction(us: nat)
    requires us < 1000000
    ensures us * 4294967296 / 1000000 * 1000000 / 4294967296 == Truncated(us)
  {
    FractionIsExactIff(us);
    var l, r := us * 4294967296 / 1000000, us * 4294967296 % 1000000;
    assert l * 1000000 == us * 4294967296 - r;
  }

  /** A whole number of microseconds comes back from NTP one lower at most, and unchanged just when
      15625 divides it, as long as the seconds do not wrap; after that comes back the start of 1970. */
  lemma TimeRoundTrip(sec: nat, us: nat)
    requires sec < 4294967296 && us < 1000000
    ensures 0.0 <= sec as real + us as real / 1000000.0 < 4294967296.0
    ensures FromNTP(GetNTPTime(sec as real + us as real / 1000000.0)) ==
            if sec < TWO_TO_32 - RTP_NTPTIMEOFFSET then sec as real + Truncated(us) as real / 1000000.0 else 0.0
  {
    NTPOfParts(sec, us);
    if sec < TWO_TO_32 - RTP_NTPTIMEOFFSET {
      MicrosToFraction(us);
      FractionToMicros(us * 4294967296 / 1000000);
      ThroughTheFraction(us);
    }
  }

  /** Any time comes back from NTP less than two microseconds earlier, as long as the seconds do not wrap. */
  lemma RealTimeRoundTrip(t: real)
    requires 0.0 <= t < 4294967296.0
    ensures if t < (TWO_TO_32 - RTP_NTPTIMEOFFSET) as real then 0.0 <= t - FromNTP(GetNTPTime(t)) < 0.000002
            else FromNTP(GetNTPTime(t)) == 0.0
  {
    var sec := t.Floor;
    var us := ((t - sec as real) * 1000000.0).Floor;
    var whole := sec as real + us as real / 1000000.0;
    NTPOfParts(sec, us);
    MicrosToFraction(us);
    assert GetNTPTime(t) == GetNTPTime(whole);
    TimeRoundTrip(sec, us);
  }

  /** `k` conversions to NTP time and back. */
  function Trips(t: real, k: nat): real
    requires 0.0 <= t < 4294967296.0
    decreases k
  {
    if k == 0 then t
    else
      NTPRoundTrip(GetNTPTime(t));
      Trips(FromNTP(GetNTPTime(t)), k - 1)
  }

  /** The microseconds left after `k` trips. */
  function Drifted(us: nat, k: nat): nat {
    if k <= us % 15625 then us - k else us - us % 15625
  }

  lemma DriftStep(us: nat, k: nat)
    requires k > 0
    ensures Drifted(Truncated(us), k - 1) == Drifted(us, k)
  {
  }

  /** The loss adds up: each trip takes one more microsecond, down to a multiple of 15625. */
  lemma {:induction false} TripsDrift(sec: nat, us: nat, k: nat)
    requires sec < TWO_TO_32 - RTP_NTPTIMEOFFSET && us < 1000000
    ensures 0.0 <= sec as real + us as real / 1000000.0 < 4294967296.0
    ensures Trips(sec as real + us as real / 1000000.0, k) == sec as real + Drifted(us, k) as real / 1000000.0
    decreases k
  {
    TimeRoundTrip(sec, us);
    if k > 0 {
      TripsDrift(sec, Truncated(us), k - 1);
      DriftStep(us, k);
    }
  }

  // ---------------------------------------------------------------- waiting

  /** The milliseconds are the floor modulo 2^32, hence exact if and only if that is a 32 bit number. */
  lemma WaitIsExactIff(delay: real)
    requires delay < 18446744073709551616.0
    ensures delay <= 0.0 ==> WaitMilliseconds(delay) == 0
    ensures delay > 0.0 ==> WaitMilliseconds(delay) == (1000.0 * delay).Floor % TWO_TO_32
    ensures delay > 0.0 ==> (WaitMilliseconds(delay) == (1000.0 * delay).Floor <==> (1000.0 * delay).Floor < TWO_TO_32)
  {
    if delay > 0.0 {
      MillisecondsOfParts(delay);
      WrappedMilliseconds(delay.Floor, (1000000.0 * (delay - delay.Floor as real)).Floor / 1000);
    }
  }

  lemma WrappedMilliseconds(sec: nat, ms: nat)
    ensures (sec % TWO_TO_32 * 1000 % TWO_TO_32 + ms) % TWO_TO_32 == (sec * 1000 + ms) % TWO_TO_32
  {
    var scaled := sec % TWO_TO_32 * 1000;
    var sum := scaled % TWO_TO_32 + ms;
    var wraps := 1000 * (sec / TWO_TO_32) + scaled / TWO_TO_32 + sum / TWO_TO_32;
    assert sec * 1000 + ms == TWO_TO_32 * wraps + sum % TWO_TO_32;
  }

  lemma MillisecondsOfParts(delay: real)
    requires delay > 0.0
    ensures (1000.0 * delay).Floor == delay.Floor * 1000 + (1000000.0 * (delay - delay.Floor as real)).Floor / 1000
    ensures 0 <= (1000000.0 * (delay - delay.Floor as real)).Floor < 1000000
  {
    var rest := delay - delay.Floor as real;
    var microsec := (1000000.0 * rest).Floor;
    var q := microsec / 1000;
    assert q as real * 1000.0 <= 1000000.0 * rest < (q as real + 1.0) * 1000.0;
    FloorIs(1000.0 * delay, delay.Floor * 1000 + q);
  }
}
