/** The PPS watcher over time: chrony confirmations, snapshots, and the references it publishes. */
module PpsRun {
  import opened Words
  import opened Pps
  import Division

  // One turn of the loop: the time, the snapshot read, and what chrony would answer if it were asked.
  datatype Tick = Tick(now: int, pps: PpsState, chronyAgrees: bool)

  // chrony is asked on the first tick and on every fourth; n counts from one.
  predicate Asks(n: nat) { n == 1 || n % CHRONY_INTERVAL == 0 }

  datatype Loop = Loop(watch: Watch, chronySynced: bool, lastChronyOK: int)

  function After(ticks: seq<Tick>): (r: Loop) {
    if ticks == [] then Loop(NEW_WATCH, false, 0)
    else
      var n := |ticks|;
      var before, t := After(ticks[..n - 1]), ticks[n - 1];
      var confirmed := Asks(n) && t.chronyAgrees;
      var lastOK := if confirmed then t.now else before.lastChronyOK;
      var synced := (confirmed || before.chronySynced) && !(t.now - lastOK > CHRONY_EXPIRY);
      Loop(Updated(before.watch, t.pps, t.now, synced), synced, lastOK)
  }

  class Watcher {
    const state: WatcherState
    var tickCount: nat
    var chronySynced: bool
    var lastChronyOK: int
    ghost var ticks: seq<Tick>

    ghost predicate Valid()
      reads this, state, state.carryoverWindow
    {
      && state.Valid()
      && tickCount == |ticks|
      && Loop(state.View(), chronySynced, lastChronyOK) == After(ticks)
    }

    constructor ()
      ensures Valid() && ticks == [] && fresh(state) && fresh(state.carryoverWindow)
    {
      state := new WatcherState();
      tickCount, chronySynced, lastChronyOK, ticks := 0, false, 0, [];
    }

    // The body of the run loop; the result is published.
    method OnTick(t: Tick) returns (published: ClockRef)
      requires Valid()
      modifies this, state, state.carryoverWindow
      ensures Valid() && ticks == old(ticks) + [t] && state.carryoverWindow == old(state.carryoverWindow)
      ensures published == After(ticks).watch.ref
    {
      hide RingHolds, Updated;
      assert (ticks + [t])[..|ticks|] == ticks;
      tickCount := tickCount + 1;
      if tickCount == 1 || tickCount % CHRONY_INTERVAL == 0 {
        if t.chronyAgrees {
          chronySynced := true;
          lastChronyOK := t.now;
        }
      }
      if chronySynced && t.now - lastChronyOK > CHRONY_EXPIRY {
        chronySynced := false;
      }
      ticks := ticks + [t];
      published := state.Update(t.pps, t.now, chronySynced);
    }
  }

  // ---------- when a published reference claims to be synchronised ----------

  // The tick that saw the latest new edge (the first tick counts as one).
  function LastAdvance(ticks: seq<Tick>): (a: nat)
    requires ticks != []
    ensures a < |ticks|
  {
    var n := |ticks| - 1;
    if n == 0 || ticks[n].pps.count != ticks[n - 1].pps.count then n else LastAdvance(ticks[..n])
  }

  // The chrony verdict in force at tick k.
  function ChronyAt(ticks: seq<Tick>, k: nat): (r: bool)
    requires k < |ticks|
  {
    After(ticks[..k + 1]).chronySynced
  }

  lemma {:induction false} WatchFollowsAdvances(ticks: seq<Tick>)
    requires ticks != []
    ensures var w, a := After(ticks).watch, LastAdvance(ticks);
            && w.hasPrev
            && w.prev == ticks[a].pps
            && w.lastAdvance == ticks[a].now
            && w.prev.count == ticks[|ticks| - 1].pps.count
  {
    var n := |ticks| - 1;
    if n > 0 {
      WatchFollowsAdvances(ticks[..n]);
    }
  }

  // What one tick does to the reference.
  lemma StepOfTick(ticks: seq<Tick>)
    requires |ticks| > 1
    ensures var n := |ticks| - 1;
            var before, after, t := After(ticks[..n]).watch, After(ticks).watch, ticks[n];
            var synced := After(ticks).chronySynced;
            before.hasPrev ==>
              if t.pps.count == before.prev.count then
                && after.ref == before.ref.(
                     gpsSync := before.ref.gpsSync && t.now - before.lastAdvance <= STALE_AFTER && synced)
                && after.carryovers == before.carryovers && after.skippedEdges == before.skippedEdges
              else
                var delta, total := Delta(before.prev, t.pps), Wrap64(t.pps.counter - before.prev.counter);
                && after.ref.counterAtPps == t.pps.counter && after.ref.wallUTC == t.now
                && (after.ref.gpsSync <==> delta == 1 && 99_990_000 <= total <= 100_010_000 && synced)
                && (delta == 1 ==> after.ref.measuredTicks == total)
                && |after.carryovers| == |before.carryovers| + 1
                && after.skippedEdges == Wrap64(before.skippedEdges + delta - 1)
  {
    var n := |ticks| - 1;
    var before, t, synced := After(ticks[..n]).watch, ticks[n], After(ticks).chronySynced;
    assert After(ticks).watch == Updated(before, t.pps, t.now, synced);
    hide After;
    if before.hasPrev && t.pps.count != before.prev.count {
      AdvanceStep(before, t.pps, t.now, synced);
    }
  }

  lemma AdvanceStep(w: Watch, s: PpsState, now: int, synced: bool)
    requires w.hasPrev && s.count != w.prev.count
    ensures var after := Updated(w, s, now, synced);
            var delta, total := Delta(w.prev, s), Wrap64(s.counter - w.prev.counter);
            && after.ref.counterAtPps == s.counter && after.ref.wallUTC == now
            && (after.ref.gpsSync <==> delta == 1 && 99_990_000 <= total <= 100_010_000 && synced)
            && (delta == 1 ==> after.ref.measuredTicks == total)
            && |after.carryovers| == |w.carryovers| + 1
            && after.skippedEdges == Wrap64(w.skippedEdges + delta - 1)
  {
    SaneMeansNearNominal(MeasuredTicks(w.prev, s));
  }

  // The latest advance was by one edge, and the counter moved by one second's worth of ticks, within 100 ppm.
  ghost predicate CleanAdvance(ticks: seq<Tick>, a: nat)
    requires a < |ticks|
  {
    a > 0 &&
    var p, q := ticks[LastAdvance(ticks[..a])].pps, ticks[a].pps;
    && (q.count - p.count) % TWO_32 == 1
    && 99_990_000 <= (q.counter - p.counter) % TWO_64 <= 100_010_000
  }

  // By how much the counter moved from the advance before to the one at tick a, in 64 bits.
  function TicksSincePrevious(ticks: seq<Tick>, a: nat): (n: nat)
    requires 0 < a < |ticks|
  {
    (ticks[a].pps.counter - ticks[LastAdvance(ticks[..a])].pps.counter) % TWO_64
  }

  ghost predicate HeldSince(ticks: seq<Tick>, a: nat, n: nat)
    requires a <= n <= |ticks|
  {
    forall k :: a <= k < n ==> InForce(ticks, a, k)
  }

  predicate InForce(ticks: seq<Tick>, a: nat, k: nat)
    requires a < |ticks| && k < |ticks|
  {
    ChronyAt(ticks, k) && ticks[k].now - ticks[a].now <= STALE_AFTER
  }

  /** On every run, a published reference claims GPS sync exactly if the latest advance was clean and, at
      every tick since, chrony was in force and the advance no more than two seconds old.  So sync that is
      lost while the PPS stalls cannot come back before the next advance. */
  lemma {:induction false} SyncExactly(ticks: seq<Tick>)
    requires ticks != []
    ensures var a := LastAdvance(ticks);
            After(ticks).watch.ref.gpsSync <==> CleanAdvance(ticks, a) && HeldSince(ticks, a, |ticks|)
  {
    hide Updated;
    hide InForce;
    var n := |ticks| - 1;
    var a := LastAdvance(ticks);
    if n == 0 {
      FirstTick(ticks);
    } else {
      var front := ticks[..n];
      StepOfTick(ticks);
      WatchFollowsAdvances(front);
      if a < n {
        SyncExactly(front);
        assert front[..a] == ticks[..a];
        HeldLonger(ticks, a);
      } else {
        InForceNow(ticks, a);
      }
    }
  }

  lemma HeldLonger(ticks: seq<Tick>, a: nat)
    requires ticks != [] && a < |ticks| - 1
    ensures var n := |ticks| - 1;
            HeldSince(ticks, a, n + 1) <==>
              HeldSince(ticks[..n], a, n) && After(ticks).chronySynced && ticks[n].now - ticks[a].now <= STALE_AFTER
  {
    hide After, InForce;
    var n := |ticks| - 1;
    var front := ticks[..n];
    forall k | a <= k < n
      ensures InForce(front, a, k) == InForce(ticks, a, k)
    {
      InForceInPrefix(ticks, n, a, k);
    }
    InForceNow(ticks, a);
  }

  lemma InForceInPrefix(ticks: seq<Tick>, n: nat, a: nat, k: nat)
    requires a < n <= |ticks| && k < n
    ensures InForce(ticks[..n], a, k) == InForce(ticks, a, k)
  {
    hide After;
    assert ticks[..n][..k + 1] == ticks[..k + 1];
  }

  lemma InForceNow(ticks: seq<Tick>, a: nat)
    requires a < |ticks|
    ensures var n := |ticks| - 1;
            InForce(ticks, a, n) <==> After(ticks).chronySynced && ticks[n].now - ticks[a].now <= STALE_AFTER
  {
    hide After;
    assert ticks[..|ticks|] == ticks;
  }

  lemma FirstTick(ticks: seq<Tick>)
    requires |ticks| == 1
    ensures var w, t := After(ticks).watch, ticks[0];
            && LastAdvance(ticks) == 0 && w.carryovers == [] && w.skippedEdges == 0
            && w.ref.counterAtPps == t.pps.counter && w.ref.wallUTC == t.now && !w.ref.gpsSync
  {
  }

  // A confirmation by chrony that is at most four seconds old at tick k.
  ghost predicate FreshlyConfirmed(ticks: seq<Tick>, k: nat)
    requires k < |ticks|
  {
    exists c :: 0 <= c <= k && Asks(c + 1) && ticks[c].chronyAgrees && ticks[k].now - ticks[c].now <= CHRONY_EXPIRY
  }

  ghost predicate Monotone(ticks: seq<Tick>) {
    forall i, j :: 0 <= i <= j < |ticks| ==> ticks[i].now <= ticks[j].now
  }

  lemma {:induction false} ChronyRemembers(ticks: seq<Tick>)
    requires ticks != []
    ensures var l := After(ticks);
            l.chronySynced ==> exists c :: 0 <= c < |ticks| && Asks(c + 1) && ticks[c].chronyAgrees &&
                                 l.lastChronyOK == ticks[c].now &&
                                 ticks[|ticks| - 1].now - ticks[c].now <= CHRONY_EXPIRY
  {
    var n := |ticks| - 1;
    if n > 0 && After(ticks).chronySynced && !(Asks(n + 1) && ticks[n].chronyAgrees) {
      ChronyRemembers(ticks[..n]);
    }
  }

  lemma {:induction false} ChronyKeeps(ticks: seq<Tick>, c: nat)
    requires c < |ticks| && Monotone(ticks) && Asks(c + 1) && ticks[c].chronyAgrees
    requires ticks[|ticks| - 1].now - ticks[c].now <= CHRONY_EXPIRY
    ensures After(ticks).chronySynced && After(ticks).lastChronyOK >= ticks[c].now
  {
    var n := |ticks| - 1;
    if c < n {
      ChronyKeeps(ticks[..n], c);
    }
  }

  /** chrony is in force exactly while its latest agreeing answer is at most four seconds old. */
  lemma ChronyExactly(ticks: seq<Tick>, k: nat)
    requires k < |ticks| && Monotone(ticks)
    ensures ChronyAt(ticks, k) <==> FreshlyConfirmed(ticks, k)
  {
    var upTo := ticks[..k + 1];
    if ChronyAt(ticks, k) {
      ChronyRemembers(upTo);
    }
    if FreshlyConfirmed(ticks, k) {
      var c :| 0 <= c <= k && Asks(c + 1) && ticks[c].chronyAgrees && ticks[k].now - ticks[c].now <= CHRONY_EXPIRY;
      ChronyKeeps(upTo, c);
    }
  }

  /** What a consumer of a synchronised reference may rely on. */
  lemma SyncIsTrustworthy(ticks: seq<Tick>)
    requires ticks != [] && After(ticks).watch.ref.gpsSync
    ensures var ref, a, n := After(ticks).watch.ref, LastAdvance(ticks), |ticks|;
            && a > 0 && ref.measuredTicks == TicksSincePrevious(ticks, a)
            && 99_990_000 <= ref.measuredTicks <= 100_010_000
            && ref.counterAtPps == ticks[a].pps.counter && ref.wallUTC == ticks[a].now
            && ticks[n - 1].now - ticks[a].now <= STALE_AFTER
            && FreshlyConfirmed(ticks, n - 1)
  {
    hide After, InForce;
    SyncExactly(ticks);
    InForceNow(ticks, LastAdvance(ticks));
    ChronyRemembers(ticks);
    RefFollowsAdvance(ticks);
  }

  lemma {:induction false} RefFollowsAdvance(ticks: seq<Tick>)
    requires ticks != []
    ensures var ref, a := After(ticks).watch.ref, LastAdvance(ticks);
            && ref.counterAtPps == ticks[a].pps.counter && ref.wallUTC == ticks[a].now
            && (CleanAdvance(ticks, a) ==>
                  ref.measuredTicks == TicksSincePrevious(ticks, a) && 99_990_000 <= ref.measuredTicks <= 100_010_000)
  {
    hide Updated, After, LastAdvance;
    var n := |ticks| - 1;
    if n == 0 {
      FirstTick(ticks);
    } else {
      LastAdvanceStep(ticks);
      StepOfTick(ticks);
      WatchFollowsAdvances(ticks[..n]);
      RefFollowsAdvance(ticks[..n]);
      var a := LastAdvance(ticks);
      if a < n {
        assert ticks[..n][..a] == ticks[..a];
      }
    }
  }

  /** What the reference says about its second, on every run.  Between the two latest advances the counter moved by
      measuredTicks for each edge, rounded down; the carryover is the excess over the nominal rate; and degraded says
      whether edges were skipped. */
  lemma {:induction false} RefMeasures(ticks: seq<Tick>)
    requires ticks != []
    ensures var ref, a := After(ticks).watch.ref, LastAdvance(ticks);
            && ref.count == ticks[a].pps.count
            && (a == 0 ==> ref.measuredTicks == 0 && ref.carryover == 0 && !ref.degraded)
            && (a > 0 ==>
                  var edges := (ref.count - ticks[LastAdvance(ticks[..a])].pps.count) % TWO_32;
                  && edges * ref.measuredTicks <= TicksSincePrevious(ticks, a) < edges * (ref.measuredTicks + 1)
                  && (ref.measuredTicks - 100_000_000 < TWO_63 ==> ref.carryover == ref.measuredTicks - 100_000_000)
                  && (ref.degraded <==> edges != 1))
  {
    hide Updated, LastAdvance;
    var n := |ticks| - 1;
    var t := ticks[n];
    if n == 0 {
      FirstTick(ticks);
      FirstMeasures(t);
    } else {
      var before, synced := After(ticks[..n]).watch, After(ticks).chronySynced;
      assert After(ticks).watch == Updated(before, t.pps, t.now, synced);
      hide After;
      WatchFollowsAdvances(ticks[..n]);
      LastAdvanceStep(ticks);
      if t.pps.count == before.prev.count {
        StepOfTick(ticks);
        RefMeasures(ticks[..n]);
        var a := LastAdvance(ticks);
        assert ticks[..n][..a] == ticks[..a];
      } else {
        AdvanceMeasures(before, t.pps, t.now, synced);
      }
    }
  }

  lemma LastAdvanceStep(ticks: seq<Tick>)
    requires |ticks| > 1
    ensures var n := |ticks| - 1;
            LastAdvance(ticks) ==
              if ticks[n].pps.count != ticks[n - 1].pps.count then n else LastAdvance(ticks[..n])
  {
  }

  lemma FirstMeasures(t: Tick)
    ensures var ref := After([t]).watch.ref;
            ref.count == t.pps.count && ref.measuredTicks == 0 && ref.carryover == 0 && !ref.degraded
  {
  }

  lemma AdvanceMeasures(w: Watch, s: PpsState, now: int, synced: bool)
    requires w.hasPrev && s.count != w.prev.count
    ensures var ref := Updated(w, s, now, synced).ref;
            var edges, total := (s.count - w.prev.count) % TWO_32, (s.counter - w.prev.counter) % TWO_64;
            && ref.count == s.count
            && edges * ref.measuredTicks <= total < edges * (ref.measuredTicks + 1)
            && (ref.measuredTicks - 100_000_000 < TWO_63 ==> ref.carryover == ref.measuredTicks - 100_000_000)
            && (ref.degraded <==> edges != 1)
  {
    CarryoverIsExcess(MeasuredTicks(w.prev, s));
    Division.Euclid((s.counter - w.prev.counter) % TWO_64, (s.count - w.prev.count) % TWO_32);
  }

  // chrony says yes whenever it is asked, and the ticks come at most a second apart.
  ghost predicate ChronyHealthy(ticks: seq<Tick>) {
    && Monotone(ticks)
    && (forall i :: 0 <= i < |ticks| && (i == 0 || (i + 1) % 4 == 0) ==> ticks[i].chronyAgrees)
    && (forall i, j :: 0 <= i <= j < |ticks| ==> ticks[j].now - ticks[i].now <= (j - i) * 1_000_000_000)
  }

  /** While chrony agrees its verdict never lapses between two questions, so a reference keeps its sync from a clean
      advance on for as long as no tick comes more than two seconds after the advance. */
  lemma SyncWhileChronyAgrees(ticks: seq<Tick>)
    requires ticks != [] && ChronyHealthy(ticks)
    ensures forall k :: 0 <= k < |ticks| ==> ChronyAt(ticks, k)
    ensures var a := LastAdvance(ticks);
            After(ticks).watch.ref.gpsSync <==>
            CleanAdvance(ticks, a) && forall k :: a <= k < |ticks| ==> ticks[k].now - ticks[a].now <= 2_000_000_000
  {
    hide After, CleanAdvance, ChronyHealthy, ChronyAt;
    forall k | 0 <= k < |ticks|
      ensures ChronyAt(ticks, k)
    {
      ChronyNeverLapses(ticks, k);
    }
    SyncExactly(ticks);
    var a := LastAdvance(ticks);
    assert forall k :: a <= k < |ticks| ==> (InForce(ticks, a, k) <==> ticks[k].now - ticks[a].now <= 2_000_000_000);
    if forall k :: a <= k < |ticks| ==> ticks[k].now - ticks[a].now <= 2_000_000_000 {
      assert HeldSince(ticks, a, |ticks|);
    } else {
      var k :| a <= k < |ticks| && ticks[k].now - ticks[a].now > 2_000_000_000;
      assert !InForce(ticks, a, k);
    }
  }

  lemma ChronyNeverLapses(ticks: seq<Tick>, k: nat)
    requires k < |ticks| && ChronyHealthy(ticks)
    ensures ChronyAt(ticks, k)
  {
    hide After, ChronyAt;
    var c := if k < 3 then 0 else (k + 1) / 4 * 4 - 1;
    assert Asks(c + 1) && ticks[c].chronyAgrees && k - c <= 3;
    assert ticks[k].now - ticks[c].now <= (k - c) * 1_000_000_000;
    ChronyExactly(ticks, k);
  }

  /** Every edge is accounted for: the first count, the advances seen and the edges skipped add up to the
      present count, in 32 bits. */
  lemma {:induction false} EdgesAddUp(ticks: seq<Tick>)
    requires ticks != []
    ensures var w := After(ticks).watch;
            (ticks[0].pps.count + |w.carryovers| + w.skippedEdges) % TWO_32 == ticks[|ticks| - 1].pps.count
  {
    hide Updated;
    var n := |ticks| - 1;
    if n == 0 {
      FirstTick(ticks);
    } else {
      var w := After(ticks[..n]).watch;
      StepOfTick(ticks);
      EdgesAddUp(ticks[..n]);
      WatchFollowsAdvances(ticks[..n]);
      if ticks[n].pps.count != w.prev.count {
        CountStep(ticks[0].pps.count + |w.carryovers|, w.skippedEdges, w.prev.count, ticks[n].pps.count);
      }
    }
  }

  lemma CountStep(x: nat, skipped: uint64, from: uint32, to: uint32)
    requires (x + skipped) % TWO_32 == from && from != to
    ensures var delta := (to - from) % TWO_32;
            (x + 1 + Wrap64(skipped + delta - 1)) % TWO_32 == to
  {
    var delta := (to - from) % TWO_32;
    var s := skipped + delta - 1;
    assert delta >= 1;
    assert Wrap64(s) == s || Wrap64(s) == s - TWO_64;
    assert TWO_64 == TWO_32 * TWO_32;
  }

  // ---------- reading the registers ----------

  // The hardware after e edges: both registers change together, at the edge.
  function Hardware(latch: nat -> uint64, e: nat): (r: PpsState) { PpsState(e % TWO_32, latch(e)) }

  // edges[i] is the number of edges so far at the i-th register read; reads beyond the script see no new edge.
  function EdgeAt(edges: seq<nat>, i: nat): (r: nat)
    requires edges != []
  {
    if i < |edges| then edges[i] else edges[|edges| - 1]
  }

  /** The retry loop returns the two registers of one single edge, whatever edges fall between its reads,
      as long as fewer than 2^32 fall within one attempt. */
  method ReadPpsStable(latch: nat -> uint64, edges: seq<nat>) returns (r: PpsState)
    requires edges != []
    requires forall i, j :: 0 <= i <= j < |edges| ==> edges[i] <= edges[j]
    requires forall i :: 0 <= i ==> EdgeAt(edges, i + 3) - EdgeAt(edges, i) < TWO_32
    ensures exists e :: edges[0] <= e <= edges[|edges| - 1] && r == Hardware(latch, e)
  {
    var i := 0;
    while true
      decreases |edges| - i
    {
      var c1 := EdgeAt(edges, i) % TWO_32;
      var lo := latch(EdgeAt(edges, i + 1)) % TWO_32;
      var hi := latch(EdgeAt(edges, i + 2)) / TWO_32;
      var c2 := EdgeAt(edges, i + 3) % TWO_32;
      if c1 == c2 {
        SameCount(EdgeAt(edges, i), EdgeAt(edges, i + 3));
        r := PpsState(c1, hi * TWO_32 + lo);
        assert r == Hardware(latch, EdgeAt(edges, i));
        return;
      }
      i := i + 4;
    }
  }

  lemma SameCount(a: nat, b: nat)
    requires a <= b < a + TWO_32 && a % TWO_32 == b % TWO_32
    ensures a == b
  {
  }
}
