/** Whole runs of the reorder buffer: arrivals and flushes in any order. */
module ReorderRun {
  import opened Words
  import opened Regs
  import opened Reorder

  datatype Event = Arrive(msg: Message) | Flush

  // views[i] is the buffer before event i, which puts out batches[i].
  datatype Trace = Trace(views: seq<View>, events: seq<Event>, batches: seq<seq<Message>>)

  ghost predicate Flushes(v: View, batch: seq<Message>, v': View) {
    Sorted(batch) && multiset(batch) == v.held && v' == v.(held := multiset{})
  }

  ghost predicate Happens(window: uint64, limit: nat, v: View, e: Event, batch: seq<Message>, v': View) {
    match e
    case Arrive(m) => Pushes(window, limit, v, m, batch, v')
    case Flush => Flushes(v, batch, v')
  }

  ghost predicate Running(window: uint64, limit: nat, t: Trace) {
    && |t.views| == |t.events| + 1 && |t.batches| == |t.events|
    && t.views[0] == View(multiset{}, 0, false)
    && forall i :: 0 <= i < |t.events| ==>
         Happens(window, limit, t.views[i], t.events[i], t.batches[i], t.views[i + 1])
  }

  function Joined(batches: seq<seq<Message>>): (r: seq<Message>) {
    if batches == [] then [] else Joined(batches[..|batches| - 1]) + batches[|batches| - 1]
  }

  function Arrived(events: seq<Event>): (r: seq<Message>) {
    if events == [] then []
    else
      var n := |events| - 1;
      Arrived(events[..n]) + if events[n].Arrive? then [events[n].msg] else []
  }

  // What is out is sorted, and not newer than anything that is held.
  ghost predicate InOrder(out: seq<Message>, held: multiset<Message>) { Sorted(out) && AllBefore(out, held) }

  // No arrival is older than a message that had already left before it came.
  ghost predicate NothingTooLate(t: Trace)
    requires |t.batches| == |t.events|
  {
    forall i :: 0 <= i < |t.events| && t.events[i].Arrive? ==>
      forall a <- Joined(t.batches[..i]) :: a.toa <= t.events[i].msg.toa
  }

  const EMPTY := Trace([View(multiset{}, 0, false)], [], [])

  function Extended(t: Trace, e: Event, batch: seq<Message>, v: View): (r: Trace) {
    Trace(t.views + [v], t.events + [e], t.batches + [batch])
  }

  lemma NothingHappened(window: uint64, limit: nat)
    ensures Running(window, limit, EMPTY) && Joined(EMPTY.batches) == [] && Arrived(EMPTY.events) == []
  {
  }

  lemma OneMoreEvent(window: uint64, limit: nat, t: Trace, e: Event, batch: seq<Message>, v: View)
    requires Running(window, limit, t) && Happens(window, limit, t.views[|t.events|], e, batch, v)
    ensures var r := Extended(t, e, batch, v);
            && Running(window, limit, r) && r.views[|r.events|] == v
            && Joined(r.batches) == Joined(t.batches) + batch
            && Arrived(r.events) == Arrived(t.events) + if e.Arrive? then [e.msg] else []
  {
    hide Happens;
    assert (t.batches + [batch])[..|t.batches|] == t.batches;
    assert (t.events + [e])[..|t.events|] == t.events;
  }

  // ---------- conservation ----------

  lemma PushConserves(window: uint64, limit: nat, v: View, m: Message, batch: seq<Message>, v': View)
    requires Pushes(window, limit, v, m, batch, v')
    ensures multiset(batch) + v'.held == v.held + multiset{m}
    ensures |batch| + |v'.held| == |v.held| + 1
    ensures forall b <- batch :: b in v.held + multiset{m}
    ensures forall h :: h in v'.held ==> h in v.held + multiset{m}
  {
    var all := multiset(batch) + v'.held;
    assert |all| == |batch| + |v'.held|;
    assert forall b <- batch :: b in multiset(batch) && b in all;
    assert forall h :: h in v'.held ==> h in all;
  }

  lemma EventConserves(window: uint64, limit: nat, v: View, e: Event, batch: seq<Message>, v': View)
    requires Happens(window, limit, v, e, batch, v')
    ensures multiset(batch) + v'.held == v.held + if e.Arrive? then multiset{e.msg} else multiset{}
  {
    if e.Arrive? {
      PushConserves(window, limit, v, e.msg, batch, v');
    }
  }

  lemma JoinConserves(done: seq<Message>, held: multiset<Message>, arrived: seq<Message>,
                      batch: seq<Message>, held': multiset<Message>, more: seq<Message>)
    requires multiset(done) + held == multiset(arrived)
    requires multiset(batch) + held' == held + multiset(more)
    ensures multiset(done + batch) + held' == multiset(arrived + more)
  {
    calc {
      multiset(done + batch) + held';
      multiset(done) + (multiset(batch) + held');
      multiset(done) + held + multiset(more);
      multiset(arrived + more);
    }
  }

  lemma JoinedStep(batches: seq<seq<Message>>, n: nat)
    requires n < |batches|
    ensures Joined(batches[..n + 1]) == Joined(batches[..n]) + batches[n]
  {
    assert batches[..n + 1][..n] == batches[..n];
  }

  lemma ArrivedStep(events: seq<Event>, n: nat)
    requires n < |events|
    ensures Arrived(events[..n + 1]) == Arrived(events[..n]) + if events[n].Arrive? then [events[n].msg] else []
  {
    assert events[..n + 1][..n] == events[..n];
  }

  lemma {:induction false} ConservedSoFar(window: uint64, limit: nat, t: Trace, n: nat)
    requires Running(window, limit, t) && n <= |t.events|
    ensures multiset(Joined(t.batches[..n])) + t.views[n].held == multiset(Arrived(t.events[..n]))
  {
    hide Happens, Joined, Arrived;
    if n == 0 {
      NothingHappened(window, limit);
      assert t.batches[..0] == [] && t.events[..0] == [];
    } else {
      var k := n - 1;
      ConservedSoFar(window, limit, t, k);
      EventConserves(window, limit, t.views[k], t.events[k], t.batches[k], t.views[n]);
      JoinedStep(t.batches, k);
      ArrivedStep(t.events, k);
      JoinConserves(Joined(t.batches[..k]), t.views[k].held, Arrived(t.events[..k]), t.batches[k], t.views[n].held,
                    if t.events[k].Arrive? then [t.events[k].msg] else []);
    }
  }

  /** Nothing is lost and nothing is duplicated: what arrived is out or held. */
  lemma NothingIsLost(window: uint64, limit: nat, t: Trace)
    requires Running(window, limit, t)
    ensures multiset(Joined(t.batches)) + t.views[|t.events|].held == multiset(Arrived(t.events))
  {
    var n := |t.events|;
    ConservedSoFar(window, limit, t, n);
    assert t.batches[..n] == t.batches && t.events[..n] == t.events;
  }

  // ---------- order ----------

  lemma SortedJoin(a: seq<Message>, b: seq<Message>)
    requires Sorted(a) && Sorted(b) && AllBefore(a, multiset(b))
    ensures Sorted(a + b)
  {
  }

  // One event keeps the output in order, if what arrives is not too late.
  lemma EventKeepsOrder(window: uint64, limit: nat, v: View, e: Event, batch: seq<Message>, v': View,
                        done: seq<Message>)
    requires Happens(window, limit, v, e, batch, v') && InOrder(done, v.held)
    requires e.Arrive? ==> forall a <- done :: a.toa <= e.msg.toa
    ensures InOrder(done + batch, v'.held)
  {
    var all := v.held + if e.Arrive? then multiset{e.msg} else multiset{};
    EventConserves(window, limit, v, e, batch, v');
    assert multiset(batch) + v'.held == all;
    assert forall b :: b in batch ==> b in multiset(batch) && b in all;
    assert forall h :: h in v'.held ==> h in all;
    SortedJoin(done, batch);
  }

  lemma {:induction false} OrderedSoFar(window: uint64, limit: nat, t: Trace, n: nat)
    requires Running(window, limit, t) && n <= |t.events| && NothingTooLate(t)
    ensures InOrder(Joined(t.batches[..n]), t.views[n].held)
  {
    hide Happens, InOrder;
    if n == 0 {
      assert InOrder([], t.views[0].held) by { NothingOut(t.views[0].held); }
      assert t.batches[..0] == [];
    } else {
      var k := n - 1;
      OrderedSoFar(window, limit, t, k);
      JoinedStep(t.batches, k);
      EventKeepsOrder(window, limit, t.views[k], t.events[k], t.batches[k], t.views[n], Joined(t.batches[..k]));
    }
  }

  lemma NothingOut(held: multiset<Message>)
    ensures InOrder([], held)
  {
  }

  lemma {:induction false} JoinedIsPrefix(batches: seq<seq<Message>>, i: nat, n: nat)
    requires i <= n <= |batches|
    ensures Joined(batches[..i]) <= Joined(batches[..n])
    decreases n - i
  {
    if i < n {
      JoinedIsPrefix(batches, i, n - 1);
      JoinedStep(batches, n - 1);
    }
  }

  lemma {:induction false} ArrivedIsPrefix(events: seq<Event>, i: nat, n: nat)
    requires i < n <= |events| && events[i].Arrive?
    ensures |Arrived(events[..i])| < |Arrived(events[..n])|
    ensures Arrived(events[..i]) <= Arrived(events[..n])
    ensures Arrived(events[..n])[|Arrived(events[..i])|] == events[i].msg
    decreases n - i
  {
    ArrivedStep(events, n - 1);
    if i < n - 1 {
      ArrivedIsPrefix(events, i, n - 1);
    }
  }

  lemma Remainder(done: seq<Message>, out: seq<Message>, before: seq<Message>, after: seq<Message>,
                  held: multiset<Message>, left: multiset<Message>, m: Message)
    requires done <= out && multiset(out) + left == multiset(before + after)
    requires multiset(done) + held == multiset(before)
    requires m in after
    ensures m in out[|done|..] || m in left
  {
    var rest := out[|done|..];
    assert out == done + rest;
    assert multiset(done + rest)[m] == multiset(done)[m] + multiset(rest)[m];
    assert multiset(before + after)[m] == multiset(before)[m] + multiset(after)[m];
    assert multiset(before)[m] == multiset(done)[m] + held[m];
    assert m in multiset(after);
    assert m in multiset(rest) || m in left;
  }

  // What is put out from an arrival on, or still held at the end, contains it.
  lemma ArrivalComesLater(window: uint64, limit: nat, t: Trace, i: nat)
    requires Running(window, limit, t) && i < |t.events| && t.events[i].Arrive?
    ensures var (done, out) := (Joined(t.batches[..i]), Joined(t.batches));
            && done <= out
            && (t.events[i].msg in out[|done|..] || t.events[i].msg in t.views[|t.events|].held)
  {
    hide Happens, Joined, Arrived;
    var n := |t.events|;
    assert t.batches[..n] == t.batches && t.events[..n] == t.events;
    JoinedIsPrefix(t.batches, i, n);
    ArrivedIsPrefix(t.events, i, n);
    ConservedSoFar(window, limit, t, i);
    NothingIsLost(window, limit, t);
    var before, all := Arrived(t.events[..i]), Arrived(t.events);
    assert all == before + all[|before|..];
    Remainder(Joined(t.batches[..i]), Joined(t.batches), before, all[|before|..], t.views[i].held, t.views[n].held,
              t.events[i].msg);
  }

  lemma InOrderSplit(out: seq<Message>, held: multiset<Message>, k: nat, a: Message, b: Message)
    requires InOrder(out, held) && k <= |out| && a in out[..k] && (b in out[k..] || b in held)
    ensures a.toa <= b.toa
  {
  }

  /** At any point of any run, flushes in between or not: what is out is in order, and ahead of what is held, exactly
      if no arrival was older than something that had left before it came. */
  lemma InOrderIffNothingTooLate(window: uint64, limit: nat, t: Trace)
    requires Running(window, limit, t)
    ensures InOrder(Joined(t.batches), t.views[|t.events|].held) <==> NothingTooLate(t)
  {
    hide Happens, InOrder, Joined;
    var n, out := |t.events|, Joined(t.batches);
    if NothingTooLate(t) {
      OrderedSoFar(window, limit, t, n);
      assert t.batches[..n] == t.batches;
    }
    if InOrder(out, t.views[n].held) {
      forall i, a | 0 <= i < n && t.events[i].Arrive? && a in Joined(t.batches[..i])
        ensures a.toa <= t.events[i].msg.toa
      {
        ArrivalComesLater(window, limit, t, i);
        InOrderSplit(out, t.views[n].held, |Joined(t.batches[..i])|, a, t.events[i].msg);
      }
    }
  }

  /** A run that ends with a flush puts out all that arrived, sorted by time of arrival exactly if nothing came
      too late. */
  lemma SortedIffNothingTooLate(window: uint64, limit: nat, t: Trace)
    requires Running(window, limit, t) && t.events != [] && t.events[|t.events| - 1] == Flush
    ensures multiset(Joined(t.batches)) == multiset(Arrived(t.events))
    ensures Sorted(Joined(t.batches)) <==> NothingTooLate(t)
  {
    hide NothingTooLate, Pushes, Joined, Arrived;
    var n := |t.events|;
    assert Happens(window, limit, t.views[n - 1], Flush, t.batches[n - 1], t.views[n]);
    NothingIsLost(window, limit, t);
    InOrderIffNothingTooLate(window, limit, t);
  }

  /** A flush in the middle can make an arrival late that is well within the window: the flushed message was newer. */
  lemma LateAfterFlush(window: uint64, limit: nat, newer: Message, older: Message) returns (t: Trace)
    requires limit > 0 && older.toa < newer.toa < older.toa + window && newer.toa + window < TWO_64
    ensures Running(window, limit, t) && t.events == [Arrive(newer), Flush, Arrive(older), Flush]
    ensures Joined(t.batches) == [newer, older] && !Sorted(Joined(t.batches))
  {
    var v0, v1, v2 := EMPTY.views[0], View(multiset{newer}, newer.toa, true), View(multiset{}, newer.toa, true);
    var v3 := View(multiset{older}, newer.toa, true);
    NothingHappened(window, limit);
    OneMoreEvent(window, limit, EMPTY, Arrive(newer), [], v1);
    var t1 := Extended(EMPTY, Arrive(newer), [], v1);
    OneMoreEvent(window, limit, t1, Flush, [newer], v2);
    var t2 := Extended(t1, Flush, [newer], v2);
    OneMoreEvent(window, limit, t2, Arrive(older), [], v3);
    var t3 := Extended(t2, Arrive(older), [], v3);
    OneMoreEvent(window, limit, t3, Flush, [older], v2);
    t := Extended(t3, Flush, [older], v2);
    assert [newer, older][0].toa > [newer, older][1].toa;
  }

  // ---------- the window ----------

  // The newest time of arrival at the latest flush among the first n events; -1 if there was none.
  function FlushLevel(t: Trace, n: nat): (level: int)
    requires n <= |t.events| <= |t.views|
  {
    if n == 0 then -1
    else if t.events[n - 1].Flush? && t.views[n - 1].haveNewest then t.views[n - 1].newest
    else FlushLevel(t, n - 1)
  }

  // Every arrival lies within the window of the newest one before it, and is not older than the newest that a
  // flush has let go; the buffer is never full; all within the range of 64 bits.
  ghost predicate WithinWindow(window: uint64, limit: nat, t: Trace)
    requires |t.views| == |t.events| + 1
  {
    forall i :: 0 <= i < |t.events| && t.events[i].Arrive? ==>
      var v, m := t.views[i], t.events[i].msg;
      && |v.held| < limit
      && m.toa + window < TWO_64
      && (v.haveNewest ==> v.newest <= m.toa + window)
      && FlushLevel(t, i) <= m.toa
  }

  // What is out is older than the newest arrival by the window, or was flushed; what is held is no newer than
  // the newest, and far from the end of time.
  ghost predicate OldEnough(window: uint64, done: seq<Message>, v: View, level: int) {
    && (forall a <- done :: (v.haveNewest && a.toa + window <= v.newest) || a.toa <= level)
    && (forall h :: h in v.held ==> h.toa + window < TWO_64 && v.haveNewest && h.toa <= v.newest)
  }

  // A batch released by a buffer that is not full is old by the window.
  lemma BatchIsReady(window: uint64, limit: nat, v: View, m: Message, batch: seq<Message>, v': View)
    requires Pushes(window, limit, v, m, batch, v') && |v.held| < limit
    ensures forall b <- batch :: Ready(b, v'.newest, window)
    ensures v'.haveNewest && v'.newest == Newest(v, m)
  {
    PushConserves(window, limit, v, m, batch, v');
  }

  lemma PushKeepsOld(window: uint64, limit: nat, v: View, m: Message, batch: seq<Message>, v': View,
                     done: seq<Message>, level: int)
    requires Pushes(window, limit, v, m, batch, v') && OldEnough(window, done, v, level)
    requires |v.held| < limit && m.toa + window < TWO_64
    ensures OldEnough(window, done + batch, v', level)
  {
    hide Pushes;
    BatchIsReady(window, limit, v, m, batch, v');
    PushConserves(window, limit, v, m, batch, v');
    forall b | b in batch
      ensures b.toa + window <= v'.newest
    {
      assert b in v.held + multiset{m};
      assert Wrap64(b.toa + window) == b.toa + window;
    }
  }

  lemma FlushKeepsOld(window: uint64, v: View, batch: seq<Message>, v': View, done: seq<Message>, level: int)
    requires Flushes(v, batch, v') && OldEnough(window, done, v, level) && (v.haveNewest ==> level <= v.newest)
    ensures OldEnough(window, done + batch, v', if v.haveNewest then v.newest else level)
  {
    assert forall b <- batch :: b in multiset(batch);
  }

  lemma {:induction false} OldSoFar(window: uint64, limit: nat, t: Trace, n: nat)
    requires Running(window, limit, t) && n <= |t.events| && WithinWindow(window, limit, t)
    ensures OldEnough(window, Joined(t.batches[..n]), t.views[n], FlushLevel(t, n))
    ensures t.views[n].haveNewest ==> FlushLevel(t, n) <= t.views[n].newest
    ensures !t.views[n].haveNewest ==> FlushLevel(t, n) == -1
  {
    hide Pushes, OldEnough, Flushes;
    if n == 0 {
      NothingOld(window, t.views[0]);
      assert t.batches[..0] == [];
    } else {
      var k := n - 1;
      OldSoFar(window, limit, t, k);
      JoinedStep(t.batches, k);
      var v, batch, v', done, level := t.views[k], t.batches[k], t.views[n], Joined(t.batches[..k]), FlushLevel(t, k);
      assert Happens(window, limit, v, t.events[k], batch, v');
      match t.events[k]
      case Arrive(m) =>
        PushKeepsOld(window, limit, v, m, batch, v', done, level);
        NewestGrows(window, limit, v, m, batch, v');
      case Flush =>
        FlushKeepsOld(window, v, batch, v', done, level);
        FlushKeepsNewest(v, batch, v');
    }
  }

  lemma NothingOld(window: uint64, v: View)
    requires v.held == multiset{}
    ensures OldEnough(window, [], v, -1)
  {
  }

  lemma NewestGrows(window: uint64, limit: nat, v: View, m: Message, batch: seq<Message>, v': View)
    requires Pushes(window, limit, v, m, batch, v')
    ensures v'.haveNewest && (v.haveNewest ==> v.newest <= v'.newest)
  {
  }

  lemma FlushKeepsNewest(v: View, batch: seq<Message>, v': View)
    requires Flushes(v, batch, v')
    ensures v'.haveNewest == v.haveNewest && v'.newest == v.newest
  {
  }

  /** If every arrival keeps within the window and behind no flush, and the buffer never fills, the output is in
      order at every point. */
  lemma WithinWindowIsSorted(window: uint64, limit: nat, t: Trace)
    requires Running(window, limit, t) && WithinWindow(window, limit, t)
    ensures InOrder(Joined(t.batches), t.views[|t.events|].held)
  {
    hide Happens, InOrder, Joined;
    forall i, a | 0 <= i < |t.events| && t.events[i].Arrive? && a in Joined(t.batches[..i])
      ensures a.toa <= t.events[i].msg.toa
    {
      OldSoFar(window, limit, t, i);
    }
    InOrderIffNothingTooLate(window, limit, t);
  }

  lemma HeldAtMostLimit(window: uint64, limit: nat, t: Trace, i: nat)
    requires Running(window, limit, t) && i <= |t.events|
    ensures |t.views[i].held| <= limit
  {
    if i > 0 {
      assert Happens(window, limit, t.views[i - 1], t.events[i - 1], t.batches[i - 1], t.views[i]);
    }
  }

  /** At every point at most limit messages are held, each of them still inside the window ... */
  lemma HeldAreInsideWindow(window: uint64, limit: nat, t: Trace, i: nat)
    requires Running(window, limit, t) && i <= |t.events|
    requires forall j :: 0 <= j < i && t.events[j].Arrive? ==> t.events[j].msg.toa + window < TWO_64
    ensures |t.views[i].held| <= limit
    ensures forall h :: h in t.views[i].held ==> h.toa + window > t.views[i].newest
  {
    var v := t.views[i];
    HeldAtMostLimit(window, limit, t, i);
    if v.held != multiset{} {
      var least := OldestExists(v.held);
      var j := HeldArrived(window, limit, t, i, least);
      assert Happens(window, limit, t.views[i - 1], t.events[i - 1], t.batches[i - 1], v);
      assert !Ready(least, v.newest, window);
    }
  }

  /** ... and of a batch that an arrival releases only the first can have left before its time, as the oldest of
      limit + 1. */
  lemma OnlyFirstLeavesEarly(window: uint64, limit: nat, t: Trace, i: nat, k: nat)
    requires Running(window, limit, t) && i < |t.events| && t.events[i].Arrive? && k < |t.batches[i]|
    requires !Ready(t.batches[i][k], t.views[i + 1].newest, window)
    ensures k == 0 && |t.views[i].held| == limit
    ensures Oldest(t.batches[i][0], t.views[i].held + multiset{t.events[i].msg})
  {
    HeldAtMostLimit(window, limit, t, i);
    var v, m, batch, v' := t.views[i], t.events[i].msg, t.batches[i], t.views[i + 1];
    assert Happens(window, limit, v, t.events[i], batch, v');
    PushConserves(window, limit, v, m, batch, v');
    forall h | h in v.held + multiset{m}
      ensures batch[0].toa <= h.toa
    {
      assert batch[0] in batch;
      assert h in v'.held || h in multiset(batch);
    }
  }

  lemma {:induction false} OldestExists(held: multiset<Message>) returns (m: Message)
    requires held != multiset{}
    ensures Oldest(m, held)
    decreases |held|
  {
    m :| m in held;
    var rest := held - multiset{m};
    if rest != multiset{} {
      var o := OldestExists(rest);
      assert forall h :: h in held ==> h == m || h in rest;
      if o.toa < m.toa {
        m := o;
      }
    } else {
      assert forall h :: h in held ==> h == m || h in rest;
    }
  }

  // What is held came with some event.
  lemma {:induction false} HeldArrived(window: uint64, limit: nat, t: Trace, n: nat, h: Message) returns (j: nat)
    requires Running(window, limit, t) && n <= |t.events| && h in t.views[n].held
    ensures j < n && t.events[j] == Arrive(h)
  {
    hide Happens;
    var k := n - 1;
    EventConserves(window, limit, t.views[k], t.events[k], t.batches[k], t.views[n]);
    assert h in multiset(t.batches[k]) + t.views[n].held;
    if t.events[k] == Arrive(h) {
      j := k;
    } else {
      assert h in t.views[k].held;
      j := HeldArrived(window, limit, t, k, h);
    }
  }

  // The class, driven through a whole run.
  method Run(b: Buffer, events: seq<Event>) returns (out: seq<Message>, ghost t: Trace)
    requires b.Valid() && b.Contents() == View(multiset{}, 0, false)
    modifies b
    ensures Running(b.maxLateness, b.maxBuffered, t) && t.events == events && t.views[|events|] == b.Contents()
    ensures out == Joined(t.batches)
    ensures InOrder(out, multiset(b.items)) <==> NothingTooLate(t)
  {
    hide Pushes, Flushes, IsHeap, Sorted, InOrder, NothingTooLate, Joined, Running, Arrived;
    NothingHappened(b.maxLateness, b.maxBuffered);
    out, t := [], EMPTY;
    for i := 0 to |events|
      invariant b.Valid() && t.events == events[..i] && |t.views| == i + 1 && t.views[i] == b.Contents()
      invariant Running(b.maxLateness, b.maxBuffered, t)
      invariant out == Joined(t.batches)
    {
      ghost var v := b.Contents();
      var batch;
      match events[i] {
        case Arrive(m) =>
          batch := b.Push(m);
        case Flush =>
          batch := b.FlushAll();
          FlushHappens(v, batch, b.Contents());
      }
      OneMoreEvent(b.maxLateness, b.maxBuffered, t, events[i], batch, b.Contents());
      t := Extended(t, events[i], batch, b.Contents());
      out := out + batch;
    }
    RunningLengths(b.maxLateness, b.maxBuffered, t);
    InOrderIffNothingTooLate(b.maxLateness, b.maxBuffered, t);
  }

  lemma FlushHappens(v: View, batch: seq<Message>, v': View)
    requires Sorted(batch) && multiset(batch) == v.held
    requires v' == v.(held := multiset{})
    ensures Flushes(v, batch, v')
  {
  }

  lemma RunningLengths(window: uint64, limit: nat, t: Trace)
    requires Running(window, limit, t)
    ensures |t.views| == |t.events| + 1 && |t.batches| == |t.events|
  {
  }
}
