/**
  Two messages in order of arrival, the first stamped with the reference of one edge, the second with that of
  the next: the feeder looks the reference up anew for each burst.
 */
module EdgeChange {
  import opened Words
  import opened Pps
  import opened Timestamp
  import Division

  // The next edge, one second later within the same day; its rate is the count of ticks in between.
  predicate NextEdge(r1: ClockRef, r2: ClockRef) {
    && NearNominal(r1) && NearNominal(r2)
    && r2.counterAtPps == r1.counterAtPps + r2.measuredTicks
    && r2.wallUTC / GIGA % DAY == r1.wallUTC / GIGA % DAY + 1
  }

  // In order, each in reach of its own reference, and on the same day.
  ghost predicate InOrder(r1: ClockRef, r2: ClockRef, a: uint64, b: uint64)
    requires NearNominal(r1) && NearNominal(r2)
  {
    && a <= b
    && r1.counterAtPps - a <= r1.measuredTicks
    && r1.counterAtPps <= b
    && TrueNanos(a, r1) / DAY_NANOS == TrueNanos(b, r2) / DAY_NANOS
  }

  lemma LargerDivisor(n: nat, d: nat, e: nat)
    requires 0 < d <= e
    ensures n / e <= n / d
  {
    var q := n / e;
    Division.Shrinks(n, e);
    Division.Euclid(n, e);
    Division.ProductSign(e - d, q);
    assert (e - d) * q == e * q - d * q;
    Division.ProductSign(d, q);
    Division.Unique(d * q, d, q, 0);
    Division.Monotone(d * q, n, d);
  }

  lemma QuotientsAdd(m: nat, n: nat, d: nat)
    requires d > 0
    ensures m / d + n / d <= (m + n) / d
  {
    Division.Euclid(m, d);
    Division.Euclid(n, d);
    var q, r := m / d + n / d, m % d + n % d;
    assert m + n == d * q + r;
    if r < d {
      Division.Unique(m + n, d, q, r);
    } else {
      Division.Unique(m + n, d, q + 1, r - d);
    }
  }

  // One message, x ticks after the first edge, as seen from either edge.
  lemma SeenFromNextEdge(x: nat, m1: nat, m2: nat)
    requires 0 < m2 <= m1
    ensures Truncated(x * GIGA, m1) <= GIGA + Truncated((x - m2) * GIGA, m2)
  {
    LargerDivisor(x * GIGA, m2, m1);
    if x >= m2 {
      Division.Shifted((x - m2) * GIGA, m2, GIGA);
      assert (x - m2) * GIGA + m2 * GIGA == x * GIGA;
    } else {
      QuotientsAdd(x * GIGA, (m2 - x) * GIGA, m2);
      assert x * GIGA + (m2 - x) * GIGA == m2 * GIGA;
      Division.Unique(m2 * GIGA, m2, GIGA, 0);
    }
  }

  lemma TrueTimeInOrder(r1: ClockRef, r2: ClockRef, a: uint64, b: uint64)
    requires NextEdge(r1, r2) && r2.measuredTicks <= r1.measuredTicks
    requires a <= b && r1.counterAtPps <= b
    ensures TrueNanos(a, r1) <= TrueNanos(b, r2)
  {
    var x := b - r1.counterAtPps;
    TruncatedMonotone((a - r1.counterAtPps) * GIGA, x * GIGA, r1.measuredTicks);
    SeenFromNextEdge(x, r1.measuredTicks, r2.measuredTicks);
    assert b - r2.counterAtPps == x - r2.measuredTicks;
  }

  lemma FieldsStrictlyMonotone(s1: nat, n1: nat, s2: nat, n2: nat)
    requires n1 < GIGA && n2 < GIGA && s1 * GIGA + n1 < s2 * GIGA + n2
    ensures s1 * TWO_30 + n1 < s2 * TWO_30 + n2
  {
    FieldsMonotone(s1, n1, s2, n2);
    if s1 < s2 {
      assert s2 * TWO_30 >= s1 * TWO_30 + TWO_30;
    }
  }

  // Timestamps of one day are ordered like the times they stand for.
  lemma TimestampsFollowTime(a: uint64, r1: ClockRef, b: uint64, r2: ClockRef)
    requires NearNominal(r1) && r1.counterAtPps - a <= r1.measuredTicks
    requires NearNominal(r2) && r2.counterAtPps - b <= r2.measuredTicks
    ensures TrueNanos(a, r1) / DAY_NANOS == TrueNanos(b, r2) / DAY_NANOS ==>
              (TrueNanos(a, r1) <= TrueNanos(b, r2) <==> GpsTimestamp(a, r1) <= GpsTimestamp(b, r2))
  {
    hide GpsTimestamp, SecondOfDay, GpsFields, TrueNanos;
    NanosBelowSecond(a, r1);
    NanosBelowSecond(b, r2);
    Division.Euclid(TrueNanos(a, r1), DAY_NANOS);
    Division.Euclid(TrueNanos(b, r2), DAY_NANOS);
    var f, g := GpsFields(a, r1), GpsFields(b, r2);
    if f.0 * GIGA + f.1 <= g.0 * GIGA + g.1 {
      FieldsMonotone(f.0, f.1, g.0, g.1);
    } else {
      FieldsStrictlyMonotone(g.0, g.1, f.0, f.1);
    }
  }

  // A second that measured longer than the one before makes its own edge look late to the earlier reference.
  lemma EdgeSeenTwice(r1: ClockRef, r2: ClockRef)
    requires NextEdge(r1, r2) && r2.measuredTicks > r1.measuredTicks
    ensures var c := r2.counterAtPps;
            InOrder(r1, r2, c, c) && TrueNanos(c, r1) > TrueNanos(c, r2)
  {
    var c, m1, m2, s := r2.counterAtPps, r1.measuredTicks, r2.measuredTicks, r2.wallUTC / GIGA % DAY;
    QuotientAgainst(m2, m1);
    var q := m2 * GIGA / m1;
    Division.Euclid(m2 * GIGA, m1);
    assert q < 2 * GIGA;
    assert TrueNanos(c, r1) == (s - 1) * GIGA + q && TrueNanos(c, r2) == s * GIGA;
    Division.Unique(TrueNanos(c, r1), DAY_NANOS, 0, TrueNanos(c, r1));
    Division.Unique(TrueNanos(c, r2), DAY_NANOS, 0, TrueNanos(c, r2));
  }

  /** Across a change to the next edge, timestamps keep the order of arrival, for all messages, exactly if the new
      second measured no more ticks than the old. */
  lemma OrderKeptAcrossEdgeExactly(r1: ClockRef, r2: ClockRef)
    requires NextEdge(r1, r2)
    ensures (forall a: uint64, b: uint64 :: InOrder(r1, r2, a, b) ==> GpsTimestamp(a, r1) <= GpsTimestamp(b, r2))
            <==> r2.measuredTicks <= r1.measuredTicks
  {
    hide GpsTimestamp, TrueNanos, SecondOfDay;
    if r2.measuredTicks <= r1.measuredTicks {
      forall a: uint64, b: uint64 | InOrder(r1, r2, a, b)
        ensures GpsTimestamp(a, r1) <= GpsTimestamp(b, r2)
      {
        TrueTimeInOrder(r1, r2, a, b);
        TimestampsFollowTime(a, r1, b, r2);
      }
    } else {
      var c := r2.counterAtPps;
      EdgeSeenTwice(r1, r2);
      TimestampsFollowTime(c, r1, c, r2);
      assert InOrder(r1, r2, c, c) && GpsTimestamp(c, r1) > GpsTimestamp(c, r2);
    }
  }
}
