/**
  PPS discipline: how each register snapshot changes the watcher's clock reference, its rolling window
  of oscillator carryovers, and when the reference may be trusted.  Times are in nanoseconds.
 */
module Pps {
  import opened Words
  import Division

  const NOMINAL_TICKS: int := 100_000_000
  const MAX_CARRYOVER: int := 10_000
  const WINDOW: nat := 60
  const STALE_AFTER: int := 2_000_000_000
  const CHRONY_INTERVAL: nat := 4
  const CHRONY_EXPIRY: int := 4_000_000_000

  // The edge count, and the 64-bit counter latched at that edge.
  datatype PpsState = PpsState(count: uint32, counter: uint64)

  datatype ClockRef = ClockRef(count: uint32, counterAtPps: uint64, measuredTicks: uint64, carryover: int64,
                               wallUTC: int, gpsSync: bool, degraded: bool)

  const NO_REF := ClockRef(0, 0, 0, 0, 0, false, false)

  // ---------- one snapshot ----------

  // The watcher seen from outside: carryovers holds one entry for every advance so far.
  datatype Watch = Watch(prev: PpsState, hasPrev: bool, lastAdvance: int, ref: ClockRef,
                         skippedEdges: uint64, carryovers: seq<int64>)

  const NEW_WATCH := Watch(PpsState(0, 0), false, 0, NO_REF, 0, [])

  // uint32(pps.Count - prev.Count)
  function Delta(prev: PpsState, pps: PpsState): (r: uint32) { (pps.count - prev.count) % TWO_32 }

  // Ticks per interval, averaged if edges were skipped.
  function MeasuredTicks(prev: PpsState, pps: PpsState): (r: uint64)
    requires pps.count != prev.count
  {
    var total := Wrap64(pps.counter - prev.counter);
    var delta := Delta(prev, pps);
    if delta == 1 then total else (
      assert total / delta <= total by { Division.Shrinks(total, delta); }
      total / delta)
  }

  // int64(measuredTicks) - nominalTicksPerSec, both steps in 64 bits.
  function Carryover(measured: uint64): (r: int64) { Signed64(Signed64(measured) - NOMINAL_TICKS) }

  predicate Sane(carryover: int64) { -MAX_CARRYOVER <= carryover <= MAX_CARRYOVER }

  function Updated(w: Watch, pps: PpsState, wall: int, chronySynced: bool): (r: Watch) {
    if !w.hasPrev then
      Watch(pps, true, wall, NO_REF.(count := pps.count, counterAtPps := pps.counter, wallUTC := wall),
            w.skippedEdges, w.carryovers)
    else if pps.count == w.prev.count then
      w.(ref := w.ref.(gpsSync := w.ref.gpsSync && !(wall - w.lastAdvance > STALE_AFTER) && chronySynced))
    else
      var measured := MeasuredTicks(w.prev, pps);
      var carryover := Carryover(measured);
      var degraded := Delta(w.prev, pps) != 1;
      Watch(pps, true, wall,
            ClockRef(pps.count, pps.counter, measured, carryover, wall,
                     !degraded && Sane(carryover) && chronySynced, degraded),
            if degraded then Wrap64(w.skippedEdges + Delta(w.prev, pps) - 1) else w.skippedEdges,
            w.carryovers + [carryover])
  }

  // A carryover within bounds means a tick rate within 100 ppm, in spite of the 64-bit arithmetic.
  lemma SaneMeansNearNominal(measured: uint64)
    ensures Sane(Carryover(measured)) <==> 99_990_000 <= measured <= 100_010_000
  {
  }

  /** The carryover is the excess of the measured over the nominal rate, positive for a fast counter, exactly if the
      difference fits 63 bits. */
  lemma CarryoverIsExcess(measured: uint64)
    ensures Carryover(measured) == measured - 100_000_000 <==> measured - 100_000_000 < TWO_63
  {
  }

  // ---------- the rolling window ----------

  function SumRange(s: seq<int64>, lo: nat, hi: nat): (r: int)
    requires lo <= hi <= |s|
    decreases hi
  {
    if lo == hi then 0 else SumRange(s, lo, hi - 1) + s[hi - 1]
  }

  lemma {:induction false} SumRangeFirst(s: seq<int64>, lo: nat, hi: nat)
    requires lo < hi <= |s|
    ensures SumRange(s, lo, hi) == s[lo] + SumRange(s, lo + 1, hi)
  {
    if lo + 1 < hi {
      SumRangeFirst(s, lo, hi - 1);
    }
  }

  lemma {:induction false} SumRangePrefix(s: seq<int64>, t: seq<int64>, lo: nat, hi: nat)
    requires lo <= hi <= |s| && s <= t
    ensures SumRange(s, lo, hi) == SumRange(t, lo, hi)
  {
    if lo < hi {
      SumRangePrefix(s, t, lo, hi - 1);
    }
  }

  lemma SumRangeLast(s: seq<int64>, c: int64, lo: nat)
    requires lo <= |s|
    ensures SumRange(s + [c], lo, |s| + 1) == SumRange(s, lo, |s|) + c
  {
    SumRangePrefix(s, s + [c], lo, |s|);
  }

  lemma Signed64Absorbs(x: int, y: int)
    ensures Signed64(Signed64(x) + y) == Signed64(x + y)
  {
    var q := (x + TWO_63) / TWO_64;
    assert Signed64(x) == x - q * TWO_64;
    Division.Shifted(x + y + TWO_63, TWO_64, -q);
  }

  // The ring buffer holds the last sixty carryovers at most, its sum is theirs (in 64 bits), and the
  // extremes are those of all of them.
  ghost predicate RingHolds(ring: seq<int64>, len: nat, idx: nat, sum: int64, s: seq<int64>) {
    var n := |s|;
    && |ring| == WINDOW
    && len == (if n < WINDOW then n else WINDOW)
    && idx == (if n < WINDOW then 0 else n % WINDOW)
    && (forall k :: n - len <= k < n ==> ring[k % WINDOW] == s[k])
    && sum == Signed64(SumRange(s, n - len, n))
  }

  ghost predicate Extremes(lo: int64, hi: int64, s: seq<int64>) {
    s != [] ==> lo in s && hi in s && forall c <- s :: lo <= c <= hi
  }

  lemma RingGrows(ring: seq<int64>, len: nat, sum: int64, s: seq<int64>, c: int64)
    requires RingHolds(ring, len, 0, sum, s) && len < WINDOW
    ensures RingHolds(ring[len := c], len + 1, 0, Signed64(sum + c), s + [c])
  {
    hide Signed64, SumRange;
    var n := |s|;
    SumRangeLast(s, c, 0);
    Signed64Absorbs(SumRange(s, 0, n), c);
    forall k | 0 <= k < n + 1
      ensures ring[len := c][k % WINDOW] == (s + [c])[k]
    {
      assert k % WINDOW == k;
    }
  }

  lemma RingSum(sum: int64, s: seq<int64>, c: int64)
    requires |s| >= WINDOW && sum == Signed64(SumRange(s, |s| - WINDOW, |s|))
    ensures Signed64(Signed64(sum - s[|s| - WINDOW]) + c) == Signed64(SumRange(s + [c], |s| + 1 - WINDOW, |s| + 1))
  {
    var n := |s|;
    var first := n - WINDOW;
    SumRangeFirst(s, first, n);
    SumRangePrefix(s, s + [c], first + 1, n);
    Signed64Absorbs(SumRange(s, first, n), -(s[first] as int));
    Signed64Absorbs(SumRange(s, first, n) - s[first], c);
  }

  lemma SlotsDiffer(i: nat, k: nat)
    requires i < k < i + WINDOW
    ensures k % WINDOW != i % WINDOW
  {
  }

  lemma SameSlot(i: nat)
    ensures (i + WINDOW) % WINDOW == i % WINDOW
    ensures (i + 1) % WINDOW == (i % WINDOW + 1) % WINDOW
  {
  }

  lemma RingTurns(ring: seq<int64>, idx: nat, sum: int64, s: seq<int64>, c: int64)
    requires RingHolds(ring, WINDOW, idx, sum, s)
    ensures RingHolds(ring[idx := c], WINDOW, (idx + 1) % WINDOW, Signed64(Signed64(sum - ring[idx]) + c), s + [c])
  {
    hide Signed64, SumRange;
    var n := |s|;
    var first := n - WINDOW;
    SameSlot(first);
    SameSlot(n);
    assert ring[first % WINDOW] == s[first];
    RingSum(sum, s, c);
    forall k | first + 1 <= k < n + 1
      ensures ring[idx := c][k % WINDOW] == (s + [c])[k]
    {
      if k < n {
        SlotsDiffer(first, k);
        assert ring[k % WINDOW] == s[k];
      }
    }
  }

  lemma ExtremesGrow(lo: int64, hi: int64, s: seq<int64>, c: int64)
    requires Extremes(lo, hi, s)
    ensures var (l, h) := if s == [] then (c, c) else (lo, hi);
            Extremes(if c < l then c else l, if c > h then c else h, s + [c])
  {
  }

  class WatcherState {
    var prev: PpsState
    var lastPpsAdvance: int
    var hasPrev: bool
    var ref: ClockRef
    var carryoverMin: int64
    var carryoverMax: int64
    var skippedEdges: uint64
    var carryoverWindow: array<int64>
    var carryoverSum: int64
    var windowIdx: nat
    var windowLen: nat
    ghost var carryovers: seq<int64>

    ghost predicate Valid()
      reads this, carryoverWindow
    {
      && carryoverWindow.Length == WINDOW
      && RingHolds(carryoverWindow[..], windowLen, windowIdx, carryoverSum, carryovers)
      && Extremes(carryoverMin, carryoverMax, carryovers)
    }

    ghost function View(): (r: Watch)
      reads this
    {
      Watch(prev, hasPrev, lastPpsAdvance, ref, skippedEdges, carryovers)
    }

    constructor ()
      ensures Valid() && View() == NEW_WATCH && fresh(carryoverWindow)
      ensures carryoverMin == carryoverMax == carryoverSum == 0 && windowLen == 0
    {
      prev, lastPpsAdvance, hasPrev, ref := PpsState(0, 0), 0, false, NO_REF;
      carryoverMin, carryoverMax, skippedEdges, carryoverSum := 0, 0, 0, 0;
      carryoverWindow, windowIdx, windowLen := new int64[WINDOW](_ => 0), 0, 0;
      carryovers := [];
    }

    method Record(carryover: int64)
      requires Valid()
      modifies this`carryoverMin, this`carryoverMax, this`carryoverSum, this`windowIdx, this`windowLen,
               this`carryovers, carryoverWindow
      ensures Valid() && carryovers == old(carryovers) + [carryover]
    {
      ExtremesGrow(carryoverMin, carryoverMax, carryovers, carryover);
      assert windowLen == 0 <==> carryovers == [];
      if windowLen == 0 {
        carryoverMin := carryover;
        carryoverMax := carryover;
      }
      if carryover < carryoverMin {
        carryoverMin := carryover;
      }
      if carryover > carryoverMax {
        carryoverMax := carryover;
      }
      Slot(carryover);
      carryovers := carryovers + [carryover];
    }

    // The rolling window and its sum.
    method Slot(carryover: int64)
      requires carryoverWindow.Length == WINDOW
      requires RingHolds(carryoverWindow[..], windowLen, windowIdx, carryoverSum, carryovers)
      modifies this`carryoverSum, this`windowIdx, this`windowLen, carryoverWindow
      ensures RingHolds(carryoverWindow[..], windowLen, windowIdx, carryoverSum, carryovers + [carryover])
    {
      ghost var ring := carryoverWindow[..];
      if windowLen < WINDOW {
        RingGrows(ring, windowLen, carryoverSum, carryovers, carryover);
        carryoverWindow[windowLen] := carryover;
        assert carryoverWindow[..] == ring[windowLen := carryover];
        windowLen := windowLen + 1;
      } else {
        RingTurns(ring, windowIdx, carryoverSum, carryovers, carryover);
        carryoverSum := Signed64(carryoverSum - carryoverWindow[windowIdx]);
        carryoverWindow[windowIdx] := carryover;
        assert carryoverWindow[..] == ring[windowIdx := carryover];
        windowIdx := (windowIdx + 1) % WINDOW;
      }
      carryoverSum := Signed64(carryoverSum + carryover);
    }

    method Update(pps: PpsState, wall: int, chronySynced: bool) returns (r: ClockRef)
      requires Valid()
      modifies this, carryoverWindow
      ensures Valid() && carryoverWindow == old(carryoverWindow)
      ensures View() == Updated(old(View()), pps, wall, chronySynced) && r == ref
    {
      hide RingHolds, Extremes, Carryover;
      if !hasPrev {
        prev := pps;
        lastPpsAdvance := wall;
        hasPrev := true;
        ref := NO_REF.(count := pps.count, counterAtPps := pps.counter, wallUTC := wall);
        return ref;
      }
      if pps.count == prev.count {
        var ppsStale := wall - lastPpsAdvance > STALE_AFTER;
        ref := ref.(gpsSync := ref.gpsSync && !ppsStale && chronySynced);
        return ref;
      }
      lastPpsAdvance := wall;
      var delta := Delta(prev, pps);
      var measured := MeasuredTicks(prev, pps);
      var degraded := false;
      if delta != 1 {
        degraded := true;
        skippedEdges := Wrap64(skippedEdges + delta - 1);
      }
      var carryover := Carryover(measured);
      Record(carryover);
      var gpsSync := !degraded && Sane(carryover) && chronySynced;
      prev := pps;
      ref := ClockRef(pps.count, pps.counter, measured, carryover, wall, gpsSync, degraded);
      r := ref;
    }
  }
}
