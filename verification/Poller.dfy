/**
  The poll loop: messages leave the FIFO, are checked against the addresses heard lately, wait in the
  reorder buffer, and are sent.
 */
module Poller {
  import opened Words
  import opened Wrappers
  import opened Regs
  import opened Fifo
  import opened CrcPrograms
  import opened Icao
  import opened Timestamp
  import opened Pps
  import opened Reorder
  import opened ReorderRun
  import opened Radarcape
  import opened Output

  const TTL: int := 60_000_000_000

  // ---------- phantom detections ----------

  function Bit8(b: bool): (r: nat) { if b then 1 else 0 }

  function Ones(b: bv8): (r: nat) {
    Bit8(b & 0x80 != 0) + Bit8(b & 0x40 != 0) + Bit8(b & 0x20 != 0) + Bit8(b & 0x10 != 0)
    + Bit8(b & 0x08 != 0) + Bit8(b & 0x04 != 0) + Bit8(b & 0x02 != 0) + Bit8(b & 0x01 != 0)
  }

  function AllOnes(raw: seq<byte>): (r: nat) {
    if raw == [] then 0 else AllOnes(raw[..|raw| - 1]) + Ones(raw[|raw| - 1] as bv8)
  }

  // v & (v - 1) removes exactly one bit.
  lemma ClearLowest(b: bv8)
    requires b != 0
    ensures Ones(b & (b - 1)) + 1 == Ones(b)
  {
    if b & 1 != 0 {
    } else if b & 2 != 0 {
    } else if b & 4 != 0 {
    } else if b & 8 != 0 {
    } else if b & 0x10 != 0 {
    } else if b & 0x20 != 0 {
    } else if b & 0x40 != 0 {
    }
  }

  predicate DegenerateShort(raw: seq<byte>) { |raw| == 7 && AllOnes(raw[1..]) < 4 }

  method IsDegenerateShort(raw: seq<byte>) returns (r: bool)
    ensures r == DegenerateShort(raw)
  {
    if |raw| != 7 {
      return false;
    }
    var rest := raw[1..];
    var bits := 0;
    for i := 0 to |rest|
      invariant bits == AllOnes(rest[..i])
    {
      var v := rest[i] as bv8;
      ghost var before := bits;
      while v != 0
        invariant bits + Ones(v) == before + Ones(rest[i] as bv8)
        decreases Ones(v)
      {
        ClearLowest(v);
        v := v & (v - 1);
        bits := bits + 1;
      }
      assert Ones(0) == 0;
      assert rest[..i + 1][..i] == rest[..i];
    }
    assert rest[..|rest|] == rest;
    r := bits < 4;
  }

  // ---------- which messages are let through ----------

  // A message, and when it was read from the FIFO.
  datatype Arrival = Arrival(msg: Message, at: int)

  predicate Announces(m: Message)
    requires m.Valid()
  {
    m.DF() in {11, 17, 18}
  }

  predicate NeedsVouching(m: Message)
    requires m.Valid()
  {
    m.DF() in {0, 4, 5, 16, 20, 21}
  }

  ghost predicate WellFormed(log: seq<Arrival>) { forall a <- log :: a.msg.Valid() }

  // The address was announced by a message read at most one TTL earlier.
  ghost predicate Vouched(log: seq<Arrival>, addr: nat, at: int)
    requires WellFormed(log)
  {
    exists j :: 0 <= j < |log| && Announces(log[j].msg) && log[j].msg.ICAO() == addr && at - log[j].at <= TTL
  }

  ghost predicate LetThrough(before: seq<Arrival>, a: Arrival)
    requires WellFormed(before) && a.msg.Valid()
  {
    NeedsVouching(a.msg) ==>
      Vouched(before, Syndrome(a.msg.bytes), a.at) && !(a.msg.DF() in {0, 4, 5} && DegenerateShort(a.msg.bytes))
  }

  ghost function Passed(log: seq<Arrival>): (r: seq<Message>)
    requires WellFormed(log)
  {
    if log == [] then []
    else
      var n := |log| - 1;
      Passed(log[..n]) + if LetThrough(log[..n], log[n]) then [log[n].msg] else []
  }

  ghost function Rejected(log: seq<Arrival>): (r: seq<Message>)
    requires WellFormed(log)
  {
    if log == [] then []
    else
      var n := |log| - 1;
      Rejected(log[..n]) + if LetThrough(log[..n], log[n]) then [] else [log[n].msg]
  }

  // The announcements among the reads, as the filter records them.
  function Announcements(log: seq<Arrival>): (r: seq<Heard>)
    requires forall a <- log :: a.msg.Valid()
  {
    if log == [] then []
    else
      var n := |log| - 1;
      Announcements(log[..n]) + if Announces(log[n].msg) then [Heard(log[n].msg.ICAO(), log[n].at)] else []
  }

  lemma RecentAppend(front: seq<Heard>, h: Heard, addr: nat, at: int)
    ensures Recent(front + [h], addr, at, TTL) <==>
            Recent(front, addr, at, TTL) || (h.addr == addr && at - h.time <= TTL)
  {
    var all := front + [h];
    assert forall i :: 0 <= i < |front| ==> all[i] == front[i];
    assert all[|front|] == h;
  }

  lemma VouchedAppend(front: seq<Arrival>, a: Arrival, addr: nat, at: int)
    requires WellFormed(front) && a.msg.Valid()
    ensures WellFormed(front + [a])
    ensures Vouched(front + [a], addr, at) <==>
            Vouched(front, addr, at) || (Announces(a.msg) && a.msg.ICAO() == addr && at - a.at <= TTL)
  {
    var all := front + [a];
    assert forall i :: 0 <= i < |front| ==> all[i] == front[i];
    assert all[|front|] == a;
  }

  lemma {:induction false} RecentMeansVouched(log: seq<Arrival>, addr: nat, at: int)
    requires WellFormed(log)
    ensures Recent(Announcements(log), addr, at, TTL) <==> Vouched(log, addr, at)
  {
    if log != [] {
      var n := |log| - 1;
      var a := log[n];
      RecentMeansVouched(log[..n], addr, at);
      assert log == log[..n] + [a];
      VouchedAppend(log[..n], a, addr, at);
      if Announces(a.msg) {
        RecentAppend(Announcements(log[..n]), Heard(a.msg.ICAO(), a.at), addr, at);
      } else {
        assert Announcements(log) == Announcements(log[..n]);
      }
    }
  }

  /** Every message that was let through and needs vouching had, when it was read, an address recovered from
      its parity that a DF11, DF17 or DF18 message had announced within the TTL. */
  lemma {:induction false} PassedWereVouched(log: seq<Arrival>, m: Message)
    requires WellFormed(log) && m in Passed(log) && m.Valid() && NeedsVouching(m)
    ensures exists i :: 0 <= i < |log| && log[i].msg == m && Vouched(log[..i], Syndrome(m.bytes), log[i].at)
  {
    var n := |log| - 1;
    if m in Passed(log[..n]) {
      PassedWereVouched(log[..n], m);
      var i :| 0 <= i < n && log[..n][i].msg == m && Vouched(log[..n][..i], Syndrome(m.bytes), log[..n][i].at);
      assert log[..n][..i] == log[..i] && log[i] == log[..n][i];
    } else {
      assert log[n].msg == m && Vouched(log[..n], Syndrome(m.bytes), log[n].at);
    }
  }

  function Messages(log: seq<Arrival>): (r: seq<Message>) { seq(|log|, i requires 0 <= i < |log| => log[i].msg) }

  lemma LogGrows(log: seq<Arrival>, a: Arrival)
    requires WellFormed(log) && a.msg.Valid()
    ensures WellFormed(log + [a])
    ensures Messages(log + [a]) == Messages(log) + [a.msg]
    ensures Passed(log + [a]) == Passed(log) + (if LetThrough(log, a) then [a.msg] else [])
    ensures Rejected(log + [a]) == Rejected(log) + (if LetThrough(log, a) then [] else [a.msg])
    ensures Announcements(log + [a]) ==
            Announcements(log) + if Announces(a.msg) then [Heard(a.msg.ICAO(), a.at)] else []
  {
  }

  /** No message is lost or counted twice on the way to the verdict. */
  lemma {:induction false} ReadsArePassedOrRejected(log: seq<Arrival>)
    requires WellFormed(log)
    ensures multiset(Messages(log)) == multiset(Passed(log)) + multiset(Rejected(log))
  {
    if log != [] {
      hide LetThrough;
      var n := |log| - 1;
      ReadsArePassedOrRejected(log[..n]);
      assert log == log[..n] + [log[n]];
      LogGrows(log[..n], log[n]);
    }
  }

  lemma {:induction false} PassedAreValid(log: seq<Arrival>)
    requires WellFormed(log)
    ensures forall m <- Passed(log) :: m.Valid()
  {
    if log != [] {
      PassedAreValid(log[..|log| - 1]);
    }
  }

  // ---------- the verdict, in terms of the bytes ----------

  function Format(m: seq<byte>): (df: nat)
    requires m != []
  {
    m[0] / 8
  }

  function AddressIn(m: seq<byte>): (a: nat)
    requires |m| >= 4
  {
    m[1] as int * 65536 + m[2] as int * 256 + m[3] as int
  }

  // Within the last minute, a message of format 11, 17 or 18 named the address in its second to fourth byte.
  ghost predicate HeardOf(log: seq<Arrival>, i: nat, address: int)
    requires i < |log| && WellFormed(log)
  {
    exists j :: 0 <= j < i && Format(log[j].msg.bytes) in {11, 17, 18} && AddressIn(log[j].msg.bytes) == address &&
                log[i].at - log[j].at <= 60_000_000_000
  }

  // A message to keep: it is not of the six formats whose parity hides an address, or the address its parity
  // hides was heard of, and if it is short and of format 0, 4 or 5 at least four bits are set after the first byte.
  ghost predicate Trusted(log: seq<Arrival>, i: nat)
    requires i < |log| && WellFormed(log)
  {
    var b := log[i].msg.bytes;
    var df := Format(b);
    (df != 0 && df != 4 && df != 5 && df != 16 && df != 20 && df != 21) ||
    (HeardOf(log, i, Syndrome(b)) && (df <= 5 ==> AllOnes(b[1..]) >= 4))
  }

  ghost function Kept(log: seq<Arrival>, n: nat): (r: seq<Message>)
    requires n <= |log| && WellFormed(log)
  {
    if n == 0 then [] else Kept(log, n - 1) + if Trusted(log, n - 1) then [log[n - 1].msg] else []
  }

  lemma TrustedPasses(log: seq<Arrival>, i: nat)
    requires i < |log| && WellFormed(log)
    ensures Trusted(log, i) <==> LetThrough(log[..i], log[i])
  {
    hide Syndrome, AllOnes;
    var addr, at := Syndrome(log[i].msg.bytes), log[i].at;
    if HeardOf(log, i, addr) {
      var j :| 0 <= j < i && Format(log[j].msg.bytes) in {11, 17, 18} && AddressIn(log[j].msg.bytes) == addr &&
               at - log[j].at <= 60_000_000_000;
      assert log[..i][j] == log[j];
    }
    if Vouched(log[..i], addr, at) {
      var j :| 0 <= j < i && Announces(log[..i][j].msg) && log[..i][j].msg.ICAO() == addr && at - log[..i][j].at <= TTL;
      assert log[..i][j] == log[j];
    }
  }

  lemma {:induction false} PassedAreKept(log: seq<Arrival>, n: nat)
    requires n <= |log| && WellFormed(log)
    ensures Passed(log[..n]) == Kept(log, n)
  {
    hide LetThrough, Trusted;
    if n > 0 {
      PassedAreKept(log, n - 1);
      TrustedPasses(log, n - 1);
      assert log[..n] == log[..n - 1] + [log[n - 1]];
      LogGrows(log[..n - 1], log[n - 1]);
    }
  }

  lemma {:induction false} TrustedIsKept(log: seq<Arrival>, n: nat, i: nat)
    requires i < n <= |log| && WellFormed(log) && Trusted(log, i)
    ensures log[i].msg in Kept(log, n)
  {
    if i < n - 1 {
      TrustedIsKept(log, n - 1, i);
    }
  }

  /** A reply whose parity is overlaid with the address of an aircraft that announced itself at most a minute before is
      trusted, unless it is a degenerate short one. */
  lemma OverlaidReplyIsTrusted(log: seq<Arrival>, j: nat, i: nat)
    requires j < i < |log| && WellFormed(log)
    requires Format(log[j].msg.bytes) in {11, 17, 18} && log[i].at - log[j].at <= 60_000_000_000
    requires Overlaid(log[i].msg.bytes, log[j].msg.bytes[1..4])
    requires Format(log[i].msg.bytes) > 5 || AllOnes(log[i].msg.bytes[1..]) >= 4
    ensures Trusted(log, i)
  {
    hide Syndrome, AllOnes;
    SyndromeIsAddress(log[i].msg.bytes, log[j].msg.bytes[1..4]);
    assert HeardOf(log, i, Syndrome(log[i].msg.bytes));
  }

  // ---------- what the reorder buffer has done so far ----------

  // From empty to v, the messages passed have gone in, and those sent have come out.
  ghost predicate Told(t: Trace, window: uint64, limit: nat, v: View, sent: seq<Message>, passed: seq<Message>) {
    && Running(window, limit, t) && t.views[|t.events|] == v
    && Joined(t.batches) == sent && Arrived(t.events) == passed
  }

  function Coming(e: Event): (r: seq<Message>) { if e.Arrive? then [e.msg] else [] }

  lemma ToldMore(t: Trace, window: uint64, limit: nat, v: View, sent: seq<Message>, passed: seq<Message>,
                 e: Event, batch: seq<Message>, v': View)
    requires Told(t, window, limit, v, sent, passed) && Happens(window, limit, v, e, batch, v')
    ensures Told(Extended(t, e, batch, v'), window, limit, v', sent + batch, passed + Coming(e))
  {
    hide Running, Happens;
    OneMoreEvent(window, limit, t, e, batch, v');
  }

  lemma ToldNothing(window: uint64, limit: nat)
    ensures Told(EMPTY, window, limit, View(multiset{}, 0, false), [], [])
  {
    NothingHappened(window, limit);
  }

  lemma BatchIsValid(t: Trace, window: uint64, limit: nat, v: View, sent: seq<Message>, passed: seq<Message>,
                     e: Event, batch: seq<Message>, v': View)
    requires Told(t, window, limit, v, sent, passed) && Happens(window, limit, v, e, batch, v')
    requires forall m <- passed + Coming(e) :: m.Valid()
    ensures forall m <- batch :: m.Valid()
  {
    hide Running, Happens, Joined, Arrived;
    NothingIsLost(window, limit, t);
    EventConserves(window, limit, v, e, batch, v');
    forall m <- batch
      ensures m.Valid()
    {
      assert m in multiset(batch) + v'.held;
      if m in v.held {
        assert m in multiset(sent) + v.held;
        assert m in passed + Coming(e);
      } else {
        assert e == Arrive(m) && m in passed + Coming(e);
      }
    }
  }

  // ---------- the loop ----------

  function SentMessages(run: seq<Emission>): (ms: seq<Message>)
    ensures |ms| == |run|
  {
    seq(|run|, i requires 0 <= i < |run| => run[i].msg)
  }

  lemma SentGrows(run: seq<Emission>, e: Emission)
    ensures SentMessages(run + [e]) == SentMessages(run) + [e.msg]
  {
  }

  // The first n of the messages in a FIFO, decoded, each with the time it is read.
  function Arrivals(queue: seq<RawMessage>, signalOf: nat -> byte, times: nat -> int, n: nat): (r: seq<Arrival>)
    requires n <= |queue|
  {
    seq(n, i requires 0 <= i < n => Arrival(Decode(queue[i], signalOf), times(i)))
  }

  lemma NoArrivals(queue: seq<RawMessage>, signalOf: nat -> byte, times: nat -> int)
    ensures Arrivals(queue, signalOf, times, 0) == []
  {
  }

  lemma ArrivalsGrow(all: seq<RawMessage>, more: seq<RawMessage>, signalOf: nat -> byte, times: nat -> int, n: nat)
    requires n < |all|
    ensures Arrivals(all, signalOf, times, n) + [Arrival(Decode(all[n], signalOf), times(n))]
            == Arrivals(all + more, signalOf, times, n + 1)
  {
  }

  // Everything the FIFO was offered up to the n-th turn of a burst.
  function Offered(queue: seq<RawMessage>, arriving: seq<seq<RawMessage>>, n: nat): (all: seq<RawMessage>) {
    if n == 0 then queue
    else Offered(queue, arriving, n - 1) + if n <= |arriving| then arriving[n - 1] else []
  }

  lemma OfferedGrows(queue: seq<RawMessage>, arriving: seq<seq<RawMessage>>, n: nat)
    ensures Offered(queue, arriving, 0) == queue
    ensures Offered(queue, arriving, n + 1) == Offered(queue, arriving, n) + if n < |arriving| then arriving[n] else []
    ensures |Offered(queue, arriving, n)| <= |Offered(queue, arriving, |arriving|)|
  {
    OfferedAtMost(queue, arriving, n);
  }

  lemma {:induction false} OfferedAtMost(queue: seq<RawMessage>, arriving: seq<seq<RawMessage>>, n: nat)
    ensures |Offered(queue, arriving, n)| <= |Offered(queue, arriving, |arriving|)|
    decreases if n < |arriving| then |arriving| - n else n - |arriving|
  {
    if n < |arriving| {
      OfferedAtMost(queue, arriving, n + 1);
    } else if n > |arriving| {
      OfferedAtMost(queue, arriving, n - 1);
    }
  }

  // The messages sent since, each with the reference given and at the times given.
  ghost predicate SentWith(before: seq<Emission>, after: seq<Emission>, ref: Option<ClockRef>, nows: nat -> int) {
    && before <= after
    && forall k :: |before| <= k < |after| ==> after[k].ref == ref && after[k].now == nows(k - |before|)
  }

  // The same for several turns, each with its own times.
  ghost predicate SentInTurns(before: seq<Emission>, after: seq<Emission>, ref: Option<ClockRef>,
                              nows: (nat, nat) -> int, n: nat) {
    && before <= after
    && forall k :: |before| <= k < |after| ==> after[k].ref == ref && InSomeTurn(after[k].now, nows, n)
  }

  ghost predicate InSomeTurn(now: int, nows: (nat, nat) -> int, n: nat) {
    exists i: nat, j: nat :: i < n && nows(i, j) == now
  }

  lemma NoTurns(run: seq<Emission>, ref: Option<ClockRef>, nows: (nat, nat) -> int)
    ensures SentInTurns(run, run, ref, nows, 0)
  {
  }

  lemma MoreTurns(before: seq<Emission>, run: seq<Emission>, after: seq<Emission>, ref: Option<ClockRef>,
                  nows: (nat, nat) -> int, n: nat, now: nat -> int)
    requires SentInTurns(before, run, ref, nows, n) && SentWith(run, after, ref, now)
    requires forall k: nat :: now(k) == nows(n, k)
    ensures SentInTurns(before, after, ref, nows, n + 1)
  {
    forall k | |before| <= k < |after|
      ensures after[k].ref == ref && InSomeTurn(after[k].now, nows, n + 1)
    {
      if k < |run| {
        assert after[k] == run[k] && InSomeTurn(run[k].now, nows, n);
      } else {
        assert after[k].now == nows(n, k - |run|);
      }
    }
  }

  class Loop {
    const reader: MockReader
    const filter: Filter
    const buffer: Buffer
    const feed: Feed
    const table: seq<Word>
    const signalOf: nat -> byte
    const reorderWindow: int
    var msgCount: nat
    var dropCount: nat
    var lastReadAt: Option<int>
    // Everything read from the FIFO so far, and everything the reorder buffer did.
    ghost var log: seq<Arrival>
    ghost var trace: Trace

    ghost predicate Parts()
      reads this, reader, filter, buffer, feed, feed.rc, feed.server, feed.server.clients
    {
      && reader.Valid() && filter.Valid() && buffer.Valid() && feed.Valid()
      && feed.story.pending == []
      && IsTable(table) && filter.ttl == TTL
      && WellFormed(log)
    }

    // Whatever was let through went into the buffer, and whatever came out was sent; all else was dropped.
    ghost predicate Accounted()
      requires WellFormed(log)
      reads this, buffer, feed
    {
      && Told(trace, buffer.maxLateness, buffer.maxBuffered, buffer.Contents(), SentMessages(feed.story.run),
              Passed(log))
      && msgCount == |feed.story.run|
      && dropCount == |Rejected(log)|
    }

    ghost predicate Valid()
      reads this, reader, filter, buffer, feed, feed.rc, feed.server, feed.server.clients
    {
      Parts() && filter.history == Announcements(log) && Accounted()
    }

    constructor (reader: MockReader, feed: Feed, table: seq<Word>, signalOf: nat -> byte,
                 reorderWindow: int64, maxBuffered: int, ghost now: int)
      requires reader.Valid() && feed.Valid() && feed.story.run == [] && feed.story.pending == [] && IsTable(table)
      ensures Valid() && log == [] && this.reader == reader && this.feed == feed && filter.clock == now
      ensures this.signalOf == signalOf && this.reorderWindow == reorderWindow && lastReadAt == None
      // The window in ticks of the FPGA's clock.
      ensures buffer.maxLateness == WindowTicks(reorderWindow, 100_000_000)
      ensures buffer.maxBuffered == (if maxBuffered <= 0 then 256 else maxBuffered) && buffer.items == []
      ensures fresh(filter) && fresh(buffer)
    {
      hide Feed.Valid, MockReader.Valid, IsTable, Told, WindowTicks, Agrees;
      this.reader, this.feed, this.table, this.signalOf := reader, feed, table, signalOf;
      this.reorderWindow := reorderWindow;
      filter := new Filter(TTL, now);
      buffer := new Buffer(reorderWindow, 100_000_000, maxBuffered);
      msgCount, dropCount, lastReadAt, log, trace := 0, 0, None, [], EMPTY;
      new;
      ToldNothing(buffer.maxLateness, buffer.maxBuffered);
      assert SentMessages(feed.story.run) == [];
      assert Passed(log) == [];
      assert Rejected(log) == [];
      assert Announcements(log) == [];
    }

    // The two arms of the format switch.  An unknown address is dropped.
    method Check(m: Message, now: int) returns (ok: bool)
      requires Parts() && m.Valid() && filter.clock <= now
      requires NeedsVouching(m) ==> filter.history == Announcements(log)
      modifies filter
      ensures filter.Valid() && filter.history == old(filter.history) && filter.clock <= now
      ensures ok <==> LetThrough(log, Arrival(m, now))
    {
      hide IsTable, Syndrome, Agrees, Ordered;
      var df := m.DF();
      if df in {0, 4, 5} {
        var phantom := IsDegenerateShort(m.bytes);
        if phantom {
          return false;
        }
        ok := TestParity(m, now);
      } else if df in {16, 20, 21} {
        ok := TestParity(m, now);
        assert !DegenerateShort(m.bytes);
      } else {
        ok := true;
      }
    }

    method TestParity(m: Message, now: int) returns (ok: bool)
      requires Parts() && m.Valid() && filter.clock <= now
      requires filter.history == Announcements(log)
      modifies filter
      ensures filter.Valid() && filter.history == old(filter.history) && filter.clock == now
      ensures ok <==> Vouched(log, Syndrome(m.bytes), now)
    {
      hide Syndrome, Vouched, Recent, Agrees, Ordered;
      var rem := Checksum(table, m.bytes, |m.bytes| * 8);
      assert m.bytes[..|m.bytes|] == m.bytes;
      ok := filter.Test(Value(rem), now);
      RecentMeansVouched(log, Syndrome(m.bytes), now);
    }

    method SendBatch(batch: seq<Message>, ref: Option<ClockRef>, nows: nat -> int)
      requires feed.Valid() && feed.story.pending == [] && forall m <- batch :: m.Valid()
      modifies this`msgCount, feed`story, feed.rc, feed.server`welcomeFrames,
               feed.server.clients`channel, feed.server.clients`offers
      ensures feed.Valid() && feed.story.pending == []
      ensures SentMessages(feed.story.run) == SentMessages(old(feed.story.run)) + batch
      ensures SentWith(old(feed.story.run), feed.story.run, ref, nows)
      ensures msgCount == old(msgCount) + |batch|
    {
      hide Feed.Valid, IsTable, WellFormed;
      for i := 0 to |batch|
        invariant feed.Valid() && feed.story.pending == []
        invariant SentMessages(feed.story.run) == SentMessages(old(feed.story.run)) + batch[..i]
        invariant SentWith(old(feed.story.run), feed.story.run, ref, nows)
        invariant msgCount == old(msgCount) + i
      {
        var e := Emission(nows(i), batch[i], ref);
        ghost var sent := feed.story.run;
        feed.Emit(e);
        SentGrows(sent, e);
        assert batch[..i + 1] == batch[..i] + [batch[i]];
        msgCount := msgCount + 1;
      }
    }

    // Sends what the reorder buffer has just put out.
    method SendOut(batch: seq<Message>, ref: Option<ClockRef>, nows: nat -> int, ghost e: Event, ghost v: View,
                   ghost passed: seq<Message>)
      requires feed.Valid() && feed.story.pending == []
      requires Told(trace, buffer.maxLateness, buffer.maxBuffered, v, SentMessages(feed.story.run), passed)
      requires Happens(buffer.maxLateness, buffer.maxBuffered, v, e, batch, buffer.Contents())
      requires forall m <- passed + Coming(e) :: m.Valid()
      modifies this`trace, this`msgCount, feed`story, feed.rc, feed.server`welcomeFrames,
               feed.server.clients`channel, feed.server.clients`offers
      ensures feed.Valid() && feed.story.pending == []
      ensures Told(trace, buffer.maxLateness, buffer.maxBuffered, buffer.Contents(), SentMessages(feed.story.run),
                   passed + Coming(e))
      ensures SentWith(old(feed.story.run), feed.story.run, ref, nows)
      ensures msgCount - old(msgCount) == |feed.story.run| - |old(feed.story.run)|
    {
      hide Feed.Valid, Told, Happens, SentMessages;
      ghost var window, limit, v' := buffer.maxLateness, buffer.maxBuffered, buffer.Contents();
      ghost var sent := SentMessages(feed.story.run);
      BatchIsValid(trace, window, limit, v, sent, passed, e, batch, v');
      ToldMore(trace, window, limit, v, sent, passed, e, batch, v');
      SendBatch(batch, ref, nows);
      trace := Extended(trace, e, batch, v');
    }

    // The body of the drain loop: one message out of the FIFO.
    method ReadOne(now: int, ref: Option<ClockRef>, nows: nat -> int)
      requires Valid() && reader.queue != [] && filter.clock <= now
      modifies this`log, this`trace, this`msgCount, this`dropCount, this`lastReadAt, reader, filter, buffer,
               feed`story, feed.rc, feed.server`welcomeFrames, feed.server.clients`channel, feed.server.clients`offers
      ensures Valid() && filter.clock <= now && reader.queue == old(reader.queue)[1..]
      ensures log == old(log) + [Arrival(Decode(old(reader.queue)[0], signalOf), now)]
      ensures lastReadAt == Some(now)
      ensures SentWith(old(feed.story.run), feed.story.run, ref, nows)
    {
      hide Feed.Valid, Filter.Valid, Buffer.Valid, MockReader.Valid, LetThrough, Passed, Rejected,
           Announcements, IsTable, SentMessages, Decode;
      var raw := ReadMessage(reader);
      var m := DecodeMessage(raw, signalOf);
      LogGrows(log, Arrival(m, now));
      lastReadAt := Some(now);
      if m.DF() in {11, 17, 18} {
        filter.Add(m.ICAO(), now);
      }
      var ok := Check(m, now);
      Settle(m, now, ok, ref, nows);
    }

    // Drops the message, or hands it to the reorder buffer and sends what that releases.
    method Settle(m: Message, now: int, ok: bool, ref: Option<ClockRef>, nows: nat -> int)
      requires Parts() && Accounted() && m.Valid() && (ok <==> LetThrough(log, Arrival(m, now)))
      modifies this`log, this`trace, this`msgCount, this`dropCount, buffer, feed`story, feed.rc,
               feed.server`welcomeFrames, feed.server.clients`channel, feed.server.clients`offers
      ensures Parts() && Accounted() && log == old(log) + [Arrival(m, now)]
      ensures SentWith(old(feed.story.run), feed.story.run, ref, nows)
    {
      hide Feed.Valid, Filter.Valid, MockReader.Valid, LetThrough, Passed, Rejected, IsTable, SentMessages, Told,
           Pushes, IsHeap;
      LogGrows(log, Arrival(m, now));
      if ok {
        PassedAreValid(log);
        ghost var v := buffer.Contents();
        var batch := buffer.Push(m);
        SendOut(batch, ref, nows, Event.Arrive(m), v, Passed(log));
      } else {
        dropCount := dropCount + 1;
        assert Passed(log) + [] == Passed(log);
      }
      log := log + [Arrival(m, now)];
    }

    // The hardware adds messages to the FIFO.
    method Arrive(batch: seq<RawMessage>)
      requires Valid()
      modifies reader
      ensures Valid() && reader.queue == old(reader.queue) + batch
    {
      hide Feed.Valid, Filter.Valid, Buffer.Valid, Accounted, Announcements, IsTable;
      for i := 0 to |batch|
        invariant Valid() && reader.queue == old(reader.queue) + batch[..i]
      {
        reader.Push(batch[i]);
      }
    }

    // The burst: messages are read until the status register says there are none, the i-th at times(i); those
    // of arriving[i] come in between that read and the next look at the status register.
    method DrainFifo(arriving: seq<seq<RawMessage>>, times: nat -> int, ref: Option<ClockRef>, nows: (nat, nat) -> int)
      returns (n: nat)
      requires Valid() && reader.queue != [] && filter.clock <= times(0)
      requires forall i: nat, j: nat :: i <= j ==> times(i) <= times(j)
      modifies this`log, this`trace, this`msgCount, this`dropCount, this`lastReadAt, reader, filter, buffer,
               feed`story, feed.rc, feed.server`welcomeFrames, feed.server.clients`channel, feed.server.clients`offers
      ensures Valid() && reader.queue == []
      ensures n == |Offered(old(reader.queue), arriving, n)|
      ensures forall k :: 0 <= k < n ==> k < |Offered(old(reader.queue), arriving, k)|
      ensures log == old(log) + Arrivals(Offered(old(reader.queue), arriving, n), signalOf, times, n)
      ensures SentInTurns(old(feed.story.run), feed.story.run, ref, nows, n)
    {
      hide Parts, Accounted, Decode, Announcements, Offered, Arrivals, Valid, SentInTurns, SentWith;
      NoTurns(feed.story.run, ref, nows);
      NoArrivals(reader.queue, signalOf, times);
      ghost var q := reader.queue;
      OfferedGrows(q, arriving, 0);
      n := 0;
      while true
        invariant n < |Offered(q, arriving, n)| && Valid()
        invariant reader.queue == Offered(q, arriving, n)[n..] && filter.clock <= times(n)
        invariant forall k :: 0 <= k < n ==> k < |Offered(q, arriving, k)|
        invariant log == old(log) + Arrivals(Offered(q, arriving, n), signalOf, times, n)
        invariant SentInTurns(old(feed.story.run), feed.story.run, ref, nows, n)
        decreases |Offered(q, arriving, |arriving|)| - n
      {
        OfferedGrows(q, arriving, n);
        ArrivalsGrow(Offered(q, arriving, n), if n < |arriving| then arriving[n] else [], signalOf, times, n);
        ghost var run := feed.story.run;
        var turn := n;
        var now := (k: nat) => nows(turn, k);
        ReadOne(times(n), ref, now);
        MoreTurns(old(feed.story.run), run, feed.story.run, ref, nows, n, now);
        Arrive(if n < |arriving| then arriving[n] else []);
        n := n + 1;
        var status := ReadStatus();
        if !status {
          break;
        }
      }
    }

    method ReadStatus() returns (notEmpty: bool)
      requires Valid()
      modifies reader
      ensures Valid() && reader.queue == old(reader.queue) && notEmpty == (reader.queue != [])
    {
      hide Feed.Valid, Filter.Valid, Buffer.Valid, Accounted, Announcements, IsTable;
      var status := reader.Read32(REG_STATUS);
      notEmpty := status % 2 == 1;
    }

    // The idle arm: the FIFO is empty, and has been for a window.
    method Idle(now: int, ref: Option<ClockRef>, nows: nat -> int)
      requires Valid()
      modifies this`trace, this`msgCount, buffer, feed`story, feed.rc, feed.server`welcomeFrames,
               feed.server.clients`channel, feed.server.clients`offers
      ensures Valid()
      ensures if lastReadAt.Some? && now - lastReadAt.value >= reorderWindow then buffer.items == []
              else buffer.items == old(buffer.items) && feed.story == old(feed.story)
      ensures SentWith(old(feed.story.run), feed.story.run, ref, nows)
    {
      hide Feed.Valid, Filter.Valid, MockReader.Valid, Passed, Rejected, Announcements, IsTable, Sorted, SentMessages,
           Told, IsHeap;
      if |buffer.items| > 0 && lastReadAt.Some? && now - lastReadAt.value >= reorderWindow {
        PassedAreValid(log);
        assert Passed(log) + Coming(Flush) == Passed(log);
        ghost var v := buffer.Contents();
        var batch := buffer.FlushAll();
        FlushHappens(v, batch, buffer.Contents());
        SendOut(batch, ref, nows, Flush, v, Passed(log));
      }
    }

    // The ten-second tick.
    method Tick(now: int)
      requires Valid() && filter.clock <= now
      modifies filter
      ensures Valid() && filter.clock == now
      ensures forall a <- filter.addrs :: now - filter.addrs[a] <= 60_000_000_000
    {
      filter.Expire(now);
    }
  }

  lemma SentOrHeld(l: Loop)
    requires l.Valid()
    ensures multiset(SentMessages(l.feed.story.run)) + multiset(l.buffer.items) == multiset(Passed(l.log))
  {
    hide Running, Passed, Rejected, Announcements, IsTable;
    NothingIsLost(l.buffer.maxLateness, l.buffer.maxBuffered, l.trace);
  }

  /** In every state the loop reaches, what was sent and what is held are exactly the messages to keep, none missing and
      none besides. */
  lemma TrustedAreSentOrHeld(l: Loop)
    requires l.Valid()
    ensures multiset(SentMessages(l.feed.story.run)) + multiset(l.buffer.items) == multiset(Kept(l.log, |l.log|))
    ensures forall i :: 0 <= i < |l.log| && Trusted(l.log, i) ==>
              l.log[i].msg in SentMessages(l.feed.story.run) || l.log[i].msg in l.buffer.items
  {
    hide Passed, Rejected, Announcements, IsTable, Told, Trusted, Kept;
    SentOrHeld(l);
    PassedAreKept(l.log, |l.log|);
    assert l.log[..|l.log|] == l.log;
    forall i | 0 <= i < |l.log| && Trusted(l.log, i)
      ensures l.log[i].msg in SentMessages(l.feed.story.run) || l.log[i].msg in l.buffer.items
    {
      TrustedIsKept(l.log, |l.log|, i);
      assert l.log[i].msg in multiset(Kept(l.log, |l.log|));
    }
  }

  /** Each message sent is on the wire once, with the reference of its turn: in GPS time if that was synchronised, in
      12 MHz time otherwise. */
  lemma SentInItsFormat(l: Loop, k: nat)
    requires l.Valid() && k < |l.feed.story.run|
    ensures var (frames, e) := (DataFrames(l.feed.story.stream), l.feed.story.run[k]);
            && |frames| == |l.feed.story.run|
            && (e.ref.Some? && e.ref.value.gpsSync ==> frames[k] == Data(RadarcapeGPS, e.msg, e.ref))
            && (!(e.ref.Some? && e.ref.value.gpsSync) ==> frames[k] == Data(RadarcapeLegacy12MHz, e.msg, e.ref))
  {
    hide GoodStory, Told, DataFrames, IsTable;
    DataGoesOut(l.feed.story);
  }

  /** Read = sent + held + dropped, message by message, in every state the loop reaches. */
  lemma NothingLost(l: Loop)
    requires l.Valid()
    ensures multiset(SentMessages(l.feed.story.run)) + multiset(l.buffer.items) + multiset(Rejected(l.log))
            == multiset(Messages(l.log))
    ensures l.msgCount + |l.buffer.items| + l.dropCount == |l.log|
  {
    hide Passed, Rejected, Announcements, IsTable, Told;
    ReadsArePassedOrRejected(l.log);
    SentOrHeld(l);
    var sent, held, dropped := SentMessages(l.feed.story.run), l.buffer.items, Rejected(l.log);
    assert |multiset(sent) + multiset(held) + multiset(dropped)| == |sent| + |held| + |dropped|;
  }

  /** In every state the loop reaches, idle flushes included: the messages sent are in order of arrival, and ahead
      of those held, exactly if none was let through that is older than one already sent. */
  lemma SentInOrderExactly(l: Loop)
    requires l.Valid()
    ensures InOrder(SentMessages(l.feed.story.run), multiset(l.buffer.items)) <==> NothingTooLate(l.trace)
  {
    hide Running, Passed, Rejected, Announcements, IsTable, InOrder, NothingTooLate;
    InOrderIffNothingTooLate(l.buffer.maxLateness, l.buffer.maxBuffered, l.trace);
  }

  /** Every message on the wire that carries its address in the parity belongs to an aircraft that had
      announced itself at most a minute before the message was read. */
  lemma SentWereVouched(l: Loop, k: nat)
    requires l.Valid() && k < |l.feed.story.run| && NeedsVouching(l.feed.story.run[k].msg)
    ensures exists i :: 0 <= i < |l.log| && l.log[i].msg == l.feed.story.run[k].msg
                        && Vouched(l.log[..i], Syndrome(l.log[i].msg.bytes), l.log[i].at)
  {
    hide Announcements, IsTable, Rejected, Passed, Told;
    var m := l.feed.story.run[k].msg;
    SentOrHeld(l);
    assert SentMessages(l.feed.story.run)[k] == m;
    assert m in multiset(SentMessages(l.feed.story.run));
    assert m in multiset(Passed(l.log));
    PassedWereVouched(l.log, m);
  }
}
