/**
  48-bit timestamps: 12 MHz ticks, or UTC second of day and nanoseconds derived from the PPS-disciplined
  reference; and how a reader takes the latter apart.
 */
module Timestamp {
  import opened Words
  import opened Pps
  import Division

  const DAY: int := 86400
  const GIGA: int := 1_000_000_000
  const TWO_30: int := 0x4000_0000
  const TWO_47: int := 0x8000_0000_0000
  const DAY_NANOS: int := 86_400_000_000_000

  // (q*3 + (r*3)/25) & 0xFFFFFFFFFFFF, with toa == 25*q + r.
  function TwelveMHz(toa: uint64): (ts: uint64)
    ensures ts < TWO_48
  {
    Wrap64(Wrap64(toa / 25 * 3) + toa % 25 * 3 / 25) % TWO_48
  }

  // Hour, minute and second of the reference's wall clock, in UTC.
  function SecondOfDay(ref: ClockRef): (s: nat)
    ensures s < DAY
  {
    ref.wallUTC / GIGA % DAY
  }

  function TickRate(ref: ClockRef): (r: uint64)
    ensures r > 0
  {
    if ref.measuredTicks == 0 then 100_000_000 else ref.measuredTicks
  }

  // Second of day and nanoseconds, every product and sum in 64 bits.
  function GpsFields(toa: uint64, ref: ClockRef): (f: (nat, uint64))
    ensures f.0 < DAY
  {
    var sec, edge, rate := SecondOfDay(ref), ref.counterAtPps, TickRate(ref);
    if toa >= edge then
      var delta := toa - edge;
      (Wrap64(sec + delta / rate) % DAY, Shrink(Wrap64(delta % rate * GIGA), rate))
    else
      ((sec + DAY - 1) % DAY, Wrap64(GIGA - Shrink(Wrap64((edge - toa) * GIGA), rate)))
  }

  // Unsigned division.
  function Shrink(n: uint64, d: uint64): (q: uint64)
    requires d > 0
    ensures q == n / d
  {
    Division.Shrinks(n, d);
    n / d
  }

  function GpsTimestamp(toa: uint64, ref: ClockRef): (ts: uint64)
    ensures ts < TWO_47
  {
    var (sec, nanos) := GpsFields(toa, ref);
    sec * TWO_30 + nanos % TWO_30
  }

  // parse_ts: seconds and nanoseconds of a timestamp, and both as nanoseconds of the day.
  function ParsedSeconds(ts: nat): (r: nat) { ts / TWO_30 % 0x2_0000 }

  function ParsedNanos(ts: nat): (r: nat) { ts % TWO_30 }

  function ParsedTime(ts: nat): (r: nat) { ParsedSeconds(ts) * GIGA + ParsedNanos(ts) }

  // ---------- 12 MHz ----------

  /** 12 MHz time is twelve hundredths of the 100 MHz counter, rounded down, modulo 2^48, for every counter value. */
  lemma TwelveMHzExact(toa: uint64)
    ensures TwelveMHz(toa) == 12 * toa / 100 % TWO_48
  {
    var q, r := toa / 25, toa % 25;
    var k, rest := 3 * r / 25, 3 * r % 25;
    assert 12 * toa == 100 * (3 * q + k) + 4 * rest;
    Division.Unique(12 * toa, 100, 3 * q + k, 4 * rest);
    Fits64(3 * q);
    Fits64(3 * q + k);
  }

  // ---------- GPS ----------

  // The quotient rounded toward zero.
  function Truncated(n: int, d: int): (r: int)
    requires d > 0
  {
    if n >= 0 then n / d else -(-n / d)
  }

  // Nanoseconds since midnight before the reference's second, by rule of three from the latest edge.
  function TrueNanos(toa: uint64, ref: ClockRef): (r: int)
    requires ref.measuredTicks > 0
  {
    ref.wallUTC / GIGA % DAY * GIGA + Truncated((toa - ref.counterAtPps) * GIGA, ref.measuredTicks)
  }

  // What the PPS watcher guarantees of a synchronised reference.
  predicate NearNominal(ref: ClockRef) { 99_990_000 <= ref.measuredTicks <= 100_010_000 }

  // Seconds and nanoseconds of a tick count add up to the whole count's nanoseconds.
  lemma SplitDelta(delta: nat, rate: nat)
    requires rate > 0
    ensures delta * GIGA / rate == delta / rate * GIGA + delta % rate * GIGA / rate
    ensures 0 <= delta % rate * GIGA / rate < GIGA
  {
    var q, r := delta / rate, delta % rate;
    Division.Euclid(delta, rate);
    Division.Shifted(r * GIGA, rate, q * GIGA);
    assert rate * (q * GIGA) == rate * q * GIGA;
    assert delta * GIGA == r * GIGA + rate * (q * GIGA);
    QuotientAgainst(r, rate);
  }

  // How the nanoseconds of n ticks compare with a second.
  lemma QuotientAgainst(n: nat, rate: nat)
    requires rate > 0
    ensures 0 <= n * GIGA / rate
    ensures n < rate ==> n * GIGA / rate < GIGA
    ensures n == rate ==> n * GIGA / rate == GIGA
    ensures n > rate && rate < GIGA ==> n * GIGA / rate > GIGA
    ensures n > 0 && rate < GIGA ==> n * GIGA / rate > 0
  {
    var q := n * GIGA / rate;
    Division.Euclid(n * GIGA, rate);
    assert rate * (q - GIGA) == rate * q - rate * GIGA;
    Division.ProductStep(rate, q - GIGA);
    Division.ProductStep(rate, q);
    assert q == GIGA ==> rate * q == rate * GIGA;
    assert q == 0 ==> rate * q == 0;
  }

  // Taking a timestamp apart gives back what went in, if the nanoseconds fit thirty bits.
  lemma FieldsRoundTrip(sec: nat, nanos: nat)
    requires sec < DAY && nanos < TWO_30
    ensures sec * TWO_30 + nanos < TWO_47
    ensures ParsedTime(sec * TWO_30 + nanos) == sec * GIGA + nanos
  {
  }

  lemma WholeDays(sec: nat, nanos: int)
    ensures (sec % DAY * GIGA + nanos) % DAY_NANOS == (sec * GIGA + nanos) % DAY_NANOS
  {
    Division.Euclid(sec, DAY);
    Division.Shifted(sec % DAY * GIGA + nanos, DAY_NANOS, sec / DAY);
    assert sec * GIGA == sec % DAY * GIGA + DAY_NANOS * (sec / DAY);
  }

  lemma DivisionBound(n: nat, rate: nat, bound: nat)
    requires rate >= 99_990_000 && n <= 99_990_000 * bound
    ensures 0 <= n / rate <= bound
  {
    Division.Euclid(n, rate);
    var q := n / rate;
    Division.ProductStep(rate, q - bound);
    assert rate * (q - bound) == rate * q - rate * bound;
    Division.ProductSign(bound, rate - 99_990_000);
    assert bound * (rate - 99_990_000) == bound * rate - bound * 99_990_000;
    Division.Shrinks(n, rate);
  }

  lemma Fits64(n: int)
    requires 0 <= n < TWO_64
    ensures Wrap64(n) == n
  {
  }

  lemma RateIsMeasured(ref: ClockRef)
    requires NearNominal(ref)
    ensures TickRate(ref) == ref.measuredTicks
  {
  }

  lemma TrueNanosAfter(toa: uint64, ref: ClockRef)
    requires NearNominal(ref) && toa >= ref.counterAtPps
    ensures TrueNanos(toa, ref) == SecondOfDay(ref) * GIGA + (toa - ref.counterAtPps) * GIGA / ref.measuredTicks
  {
  }

  // After the edge: the fields are those of exact arithmetic.
  lemma ForwardFields(toa: uint64, ref: ClockRef)
    requires NearNominal(ref) && toa >= ref.counterAtPps
    ensures var delta, rate := toa - ref.counterAtPps, ref.measuredTicks;
            && delta / rate >= 0
            && GpsFields(toa, ref) == ((SecondOfDay(ref) + delta / rate) % DAY, delta % rate * GIGA / rate)
  {
    hide Wrap64, SecondOfDay, Shrink, TickRate;
    RateIsMeasured(ref);
    NoOverflow(SecondOfDay(ref), toa - ref.counterAtPps, ref.measuredTicks);
  }

  lemma NoOverflow(sec: nat, delta: uint64, rate: nat)
    requires sec < DAY && 99_990_000 <= rate <= 100_010_000
    ensures delta / rate >= 0 && Wrap64(sec + delta / rate) == sec + delta / rate
    ensures Wrap64(delta % rate * GIGA) == delta % rate * GIGA
  {
    hide Wrap64;
    Division.Euclid(delta, rate);
    DivisionBound(delta, rate, TWO_32 * 64);
    Fits64(sec + delta / rate);
    Fits64(delta % rate * GIGA);
  }

  // What a reader gets out of a timestamp is what the encoder put in.
  lemma ReadBack(toa: uint64, ref: ClockRef)
    requires GpsFields(toa, ref).1 < TWO_30
    ensures var (ts, f) := (GpsTimestamp(toa, ref), GpsFields(toa, ref));
            ParsedTime(ts) == f.0 * GIGA + f.1 && ts == f.0 * TWO_30 + f.1
  {
    hide GpsFields, ParsedTime;
    var f := GpsFields(toa, ref);
    FieldsRoundTrip(f.0, f.1);
  }

  lemma ForwardMeaning(toa: uint64, ref: ClockRef)
    requires NearNominal(ref) && toa >= ref.counterAtPps
    ensures GpsFields(toa, ref).1 < GIGA
    ensures ParsedTime(GpsTimestamp(toa, ref)) == TrueNanos(toa, ref) % DAY_NANOS
  {
    hide GpsFields, GpsTimestamp, ParsedTime, SecondOfDay, TrueNanos;
    TrueNanosAfter(toa, ref);
    var sec, rate := SecondOfDay(ref), ref.measuredTicks;
    var delta := toa - ref.counterAtPps;
    ForwardFields(toa, ref);
    SplitDelta(delta, rate);
    ReadBack(toa, ref);
    var nanos := delta % rate * GIGA / rate;
    WholeDays(sec + delta / rate, nanos);
    assert TrueNanos(toa, ref) == (sec + delta / rate) * GIGA + nanos;
    TimeOfDay((sec + delta / rate) % DAY, nanos);
  }

  lemma TimeOfDay(sec: nat, nanos: nat)
    requires sec < DAY && nanos < GIGA
    ensures (sec * GIGA + nanos) % DAY_NANOS == sec * GIGA + nanos
  {
  }

  // Before the edge, within the range of the 64-bit product: one second is borrowed, no more.
  lemma BackwardFields(toa: uint64, ref: ClockRef)
    requires NearNominal(ref) && 0 < ref.counterAtPps - toa <= 18_446_744_073
    ensures var q := (ref.counterAtPps - toa) * GIGA / ref.measuredTicks;
            && 0 < q <= 186_000_000_000
            && GpsFields(toa, ref) == ((SecondOfDay(ref) + DAY - 1) % DAY, Wrap64(GIGA - q))
            && TrueNanos(toa, ref) == SecondOfDay(ref) * GIGA - q
  {
    var t, rate := ref.counterAtPps - toa, ref.measuredTicks;
    QuotientAgainst(t, rate);
    DivisionBound(t * GIGA, rate, 186_000_000_000);
    assert Wrap64(t * GIGA) == t * GIGA;
  }

  lemma BorrowedSecond(sec: nat, q: int)
    requires sec < DAY
    ensures ((sec + DAY - 1) % DAY * GIGA + GIGA - q) % DAY_NANOS == (sec * GIGA - q) % DAY_NANOS
  {
    WholeDays(sec + DAY - 1, GIGA - q);
    Division.Shifted(sec * GIGA - q, DAY_NANOS, 1);
  }

  lemma BackwardMeaning(toa: uint64, ref: ClockRef)
    requires NearNominal(ref) && 0 < ref.counterAtPps - toa <= ref.measuredTicks
    ensures GpsFields(toa, ref).1 < GIGA
    ensures ParsedTime(GpsTimestamp(toa, ref)) == TrueNanos(toa, ref) % DAY_NANOS
  {
    hide GpsFields, GpsTimestamp, ParsedTime, SecondOfDay, TrueNanos, Wrap64;
    var t, rate, sec := ref.counterAtPps - toa, ref.measuredTicks, SecondOfDay(ref);
    var q := t * GIGA / rate;
    BackwardFields(toa, ref);
    QuotientAgainst(t, rate);
    Fits64(GIGA - q);
    ReadBack(toa, ref);
    BorrowedSecond(sec, q);
    TimeOfDay((sec + DAY - 1) % DAY, GIGA - q);
  }

  lemma TooFarBack(toa: uint64, ref: ClockRef)
    requires NearNominal(ref) && ref.measuredTicks < ref.counterAtPps - toa <= 18_446_744_073
    ensures ParsedTime(GpsTimestamp(toa, ref)) != TrueNanos(toa, ref) % DAY_NANOS
  {
    hide GpsFields, ParsedTime, SecondOfDay, TrueNanos, Wrap64;
    var t, rate, sec := ref.counterAtPps - toa, ref.measuredTicks, SecondOfDay(ref);
    var q := t * GIGA / rate;
    BackwardFields(toa, ref);
    QuotientAgainst(t, rate);
    BorrowedSecond(sec, q);
    NanosUnderflow((sec + DAY - 1) % DAY, q);
    Division.Euclid(sec * GIGA - q, DAY_NANOS);
    SmallRemainder((sec * GIGA - q) % DAY_NANOS);
  }

  lemma SmallRemainder(r: nat)
    requires r < DAY_NANOS
    ensures r % DAY_NANOS == r
  {
  }

  /** The GPS timestamp reads back as the true time of day, rounded toward the edge, exactly if the message
      is later than the edge or at most one measured second before it: only one second is ever borrowed. */
  lemma GpsTimestampExact(toa: uint64, ref: ClockRef)
    requires NearNominal(ref)
    requires ref.counterAtPps - toa <= 18_446_744_073
    ensures ParsedTime(GpsTimestamp(toa, ref)) == TrueNanos(toa, ref) % DAY_NANOS <==>
            ref.counterAtPps - toa <= ref.measuredTicks
  {
    hide GpsTimestamp, ParsedTime, TrueNanos, SecondOfDay, GpsFields;
    if toa >= ref.counterAtPps {
      ForwardMeaning(toa, ref);
    } else if ref.counterAtPps - toa <= ref.measuredTicks {
      BackwardMeaning(toa, ref);
    } else {
      TooFarBack(toa, ref);
    }
  }

  /** Further back still the 64-bit product wraps, and there the answer is sometimes right by coincidence, so the
      equivalence above does not extend.  Here the edge is almost three thousand years ahead. */
  lemma FarBackMayCoincide() returns (toa: uint64, ref: ClockRef)
    ensures NearNominal(ref) && ref.counterAtPps - toa > 18_446_744_073
    ensures ParsedTime(GpsTimestamp(toa, ref)) == TrueNanos(toa, ref) % DAY_NANOS
  {
    toa, ref := 0, NO_REF.(counterAtPps := FAR_EDGE, measuredTicks := FAR_RATE, wallUTC := 0);
    FarFields();
    FarTruth();
    assert SecondOfDay(ref) == 0 && GpsFields(toa, ref) == (86399, Wrap64(GIGA - Wrap64(FAR_EDGE * GIGA) / FAR_RATE));
    FieldsRoundTrip(86399, 999_999_990);
    assert GpsTimestamp(toa, ref) == 86399 * TWO_30 + 999_999_990;
  }

  const FAR_EDGE: uint64 := 9_395_818_372_083_628_801
  const FAR_RATE: uint64 := 99_999_998

  lemma FarFields()
    ensures Wrap64(GIGA - Wrap64(FAR_EDGE * GIGA) / FAR_RATE) == 18_446_743_970_556_594_678
    ensures 18_446_743_970_556_594_678 % TWO_30 == 999_999_990
  {
    Division.Unique(FAR_EDGE * GIGA, TWO_64, 509_348_334, 10_415_295_485_503_392_256);
    Division.Unique(10_415_295_485_503_392_256, FAR_RATE, 104_152_956_938, 9_306_132);
  }

  lemma FarTruth()
    ensures -(FAR_EDGE * GIGA / FAR_RATE) % DAY_NANOS == 86_399_999_999_990
  {
    Division.Unique(FAR_EDGE * GIGA, FAR_RATE, 93_958_185_600_000_000_010, 20);
  }

  // Nanoseconds below zero come out too large by a multiple of 2^30 that is no multiple of a day.
  lemma NanosUnderflow(sec: nat, q: int)
    requires sec < DAY && GIGA < q <= 186_000_000_000
    ensures var ts := sec * TWO_30 + Wrap64(GIGA - q) % TWO_30;
            ts < TWO_47 && ParsedTime(ts) % DAY_NANOS != (sec * GIGA + GIGA - q) % DAY_NANOS
  {
    var e := GIGA - q;
    var n := Wrap64(e) % TWO_30;
    assert Wrap64(e) == e + TWO_64;
    Division.Shifted(e, TWO_30, TWO_64 / TWO_30);
    Division.Euclid(e, TWO_30);
    FieldsRoundTrip(sec, n);
    NotCongruent(sec * GIGA + e, n - e);
  }

  lemma NotCongruent(a: int, excess: int)
    requires 0 < excess < DAY_NANOS
    ensures (a + excess) % DAY_NANOS != a % DAY_NANOS
  {
    Division.Euclid(a, DAY_NANOS);
    Division.Euclid(a + excess, DAY_NANOS);
  }

  lemma TruncatedMonotone(m: int, n: int, d: nat)
    requires d > 0 && m <= n
    ensures Truncated(m, d) <= Truncated(n, d)
  {
    if m >= 0 {
      Division.Monotone(m, n, d);
    } else if n < 0 {
      Division.Monotone(-n, -m, d);
    } else {
      Division.Shrinks(-m, d);
      Division.Shrinks(n, d);
    }
  }

  lemma NanosBelowSecond(toa: uint64, ref: ClockRef)
    requires NearNominal(ref) && ref.counterAtPps - toa <= ref.measuredTicks
    ensures GpsFields(toa, ref).1 < GIGA
    ensures var (ts, f) := (GpsTimestamp(toa, ref), GpsFields(toa, ref));
            ts == f.0 * TWO_30 + f.1 && f.0 * GIGA + f.1 == TrueNanos(toa, ref) % DAY_NANOS
  {
    hide GpsTimestamp, ParsedTime, TrueNanos, SecondOfDay, GpsFields;
    if toa >= ref.counterAtPps {
      ForwardMeaning(toa, ref);
    } else {
      BackwardMeaning(toa, ref);
    }
    ReadBack(toa, ref);
  }

  lemma FieldsMonotone(s1: nat, n1: nat, s2: nat, n2: nat)
    requires n1 < GIGA && n2 < GIGA && s1 * GIGA + n1 <= s2 * GIGA + n2
    ensures s1 * TWO_30 + n1 <= s2 * TWO_30 + n2
  {
    if s1 < s2 {
      assert s2 * TWO_30 >= s1 * TWO_30 + TWO_30;
    } else {
      assert s1 == s2;
    }
  }

  /** Within one UTC day, later messages never carry an earlier timestamp. */
  lemma GpsTimestampMonotone(first: uint64, second: uint64, ref: ClockRef)
    requires NearNominal(ref) && first <= second
    requires ref.counterAtPps - first <= ref.measuredTicks
    requires TrueNanos(first, ref) / DAY_NANOS == TrueNanos(second, ref) / DAY_NANOS
    ensures GpsTimestamp(first, ref) <= GpsTimestamp(second, ref)
  {
    hide GpsTimestamp, SecondOfDay, GpsFields, Truncated;
    var a, b := TrueNanos(first, ref), TrueNanos(second, ref);
    var rate := ref.measuredTicks;
    TruncatedMonotone((first - ref.counterAtPps) * GIGA, (second - ref.counterAtPps) * GIGA, rate);
    assert a <= b;
    Division.Euclid(a, DAY_NANOS);
    Division.Euclid(b, DAY_NANOS);
    NanosBelowSecond(first, ref);
    NanosBelowSecond(second, ref);
    var f, g := GpsFields(first, ref), GpsFields(second, ref);
    FieldsMonotone(f.0, f.1, g.0, g.1);
  }

  /** Before a rate has been measured, timestamps are those of the nominal rate. */
  lemma NominalWithoutMeasurement(toa: uint64, ref: ClockRef)
    ensures GpsTimestamp(toa, ref.(measuredTicks := 0)) == GpsTimestamp(toa, ref.(measuredTicks := 100_000_000))
  {
  }

  // The format is the reader's business: twelve-megahertz ticks, or seconds and nanoseconds.
  datatype OutputMode = Beast12MHz | RadarcapeGPS | RadarcapeLegacy12MHz

  function EncodeTimestamp(mode: OutputMode, toa: uint64, ref: ClockRef): (ts: uint64)
    ensures ts < TWO_48
  {
    if mode.RadarcapeGPS? then GpsTimestamp(toa, ref) else TwelveMHz(toa)
  }

  // Status frames clear bit 47.
  function StatusTimestamp(mode: OutputMode, toa: uint64, ref: ClockRef): (ts: uint64)
    ensures ts < TWO_47
  {
    EncodeTimestamp(mode, toa, ref) % TWO_47
  }

  /** Clearing bit 47 never touches a GPS timestamp.  It leaves a 12 MHz timestamp alone exactly while the tick
      count has not reached 2^47 within its 2^48 cycle. */
  lemma StatusTimestampFaithful(mode: OutputMode, toa: uint64, ref: ClockRef)
    ensures StatusTimestamp(mode, toa, ref) == EncodeTimestamp(mode, toa, ref) <==>
            mode.RadarcapeGPS? || 12 * toa / 100 % TWO_48 < TWO_47
  {
    hide TwelveMHz, GpsTimestamp;
    TwelveMHzExact(toa);
  }
}
