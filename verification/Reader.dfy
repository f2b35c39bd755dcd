/**
  The far end: a reader that knows nothing but the bytes, follows the format announced by the status
  frames, and takes every timestamp apart accordingly.
 */
module Reader {
  import opened Words
  import opened Wrappers
  import opened Regs
  import opened Pps
  import opened PpsRun
  import opened Timestamp
  import opened Beast
  import opened BeastStream
  import opened Radarcape
  import opened Server
  import opened Output
  import Division

  // What is read from one frame; timestamps as GPS time, or as 12 MHz ticks.
  datatype Reading =
    | Report(gps: bool, ts: nat)
    | Heard(gps: bool, ts: nat, signal: byte, bytes: seq<byte>)
    | Place(coordinates: seq<byte>)

  function TimestampField(p: seq<byte>): (r: nat) { if |p| < 7 then 0 else FromBigEndian(p[1..7]) }

  // The settings byte of a status payload, bit 4.
  predicate AnnouncesGps(p: seq<byte>)
    requires |p| >= 9
  {
    p[8] / 16 % 2 == 1
  }

  // known is the announced format, if a status frame has been seen; the first one is read in its own.
  function ReadAll(payloads: seq<seq<byte>>, known: Option<bool>): (r: seq<Reading>)
    requires AllPayloads(payloads)
    decreases |payloads|
  {
    if payloads == [] then []
    else
      var p, rest := payloads[0], payloads[1..];
      assert IsPayload(p);
      if p[0] == TYPE_POSITION then [Place(p[1..])] + ReadAll(rest, known)
      else if p[0] == TYPE_STATUS then
        var gps := AnnouncesGps(p);
        [Report(if known.Some? then known.value else gps, TimestampField(p))] + ReadAll(rest, Some(gps))
      else if known.None? then ReadAll(rest, known)
      else [Heard(known.value, TimestampField(p), p[7], p[8..])] + ReadAll(rest, known)
  }

  // What was meant: each frame's own format, timestamp and content.
  function Meant(f: OutFrame): (r: Reading) {
    match f
    case Status(tsMode, _, toa, ref) => Report(tsMode.RadarcapeGPS?, StatusTimestamp(tsMode, toa, RefOr(ref)))
    case Data(mode, msg, ref) =>
      Heard(mode.RadarcapeGPS?, EncodeTimestamp(mode, msg.toa, RefOr(ref)), msg.signal, msg.bytes)
    case Position(c) => Place(c)
  }

  function AllMeant(fs: seq<OutFrame>): (r: seq<Reading>) {
    if fs == [] then [] else [Meant(fs[0])] + AllMeant(fs[1..])
  }

  function Payloads(fs: seq<OutFrame>): (ps: seq<seq<byte>>)
    requires forall f <- fs :: Encodable(f)
    ensures |ps| == |fs| && AllPayloads(ps)
  {
    seq(|fs|, i requires 0 <= i < |fs| => Payload(fs[i]))
  }

  lemma PayloadFields(f: OutFrame)
    requires Encodable(f) && !f.Position?
    ensures var p := Payload(f);
            && Meant(f).ts == TimestampField(p)
            && (f.Status? ==> p[0] == TYPE_STATUS && (AnnouncesGps(p) <==> f.reported.RadarcapeGPS?))
            && (f.Data? ==> p[0] in {TYPE_SHORT, TYPE_LONG} && p[7] == f.msg.signal && p[8..] == f.msg.bytes)
  {
    var ts := Meant(f).ts;
    TimestampReadsBack(ts);
    assert Payload(f)[1..7] == BigEndian(ts, 6);
  }

  // Readable, from a point where the announced format is already given.
  ghost predicate ReadableFrom(known: Option<OutputMode>, fs: seq<OutFrame>)
    decreases |fs|
  {
    fs == [] ||
    match fs[0]
    case Status(tsMode, reported, _, _) =>
      (if known.None? then tsMode == reported else known == Some(tsMode)) && ReadableFrom(Some(reported), fs[1..])
    case Data(mode, _, _) => known == Some(mode) && ReadableFrom(known, fs[1..])
    case Position(_) => ReadableFrom(known, fs[1..])
  }

  lemma {:induction false} ReadableMeansFromStart(before: seq<OutFrame>, fs: seq<OutFrame>)
    requires Readable(before + fs)
    ensures ReadableFrom(Announced(before), fs)
    decreases |fs|
  {
    if fs != [] {
      var f := fs[0];
      assert before + fs == before + [f] + fs[1..];
      ReadableMeansFromStart(before + [f], fs[1..]);
      PrefixReadable(before + [f], fs[1..]);
      ReadableAppendOne(before, f);
      AnnouncedAppend(before, [f]);
    }
  }

  lemma {:induction false} PrefixReadable(a: seq<OutFrame>, b: seq<OutFrame>)
    requires Readable(a + b)
    ensures Readable(a)
    decreases |b|
  {
    if b == [] {
      assert a + b == a;
    } else {
      var n := |b| - 1;
      assert (a + b)[..|a| + n] == a + b[..n];
      PrefixReadable(a, b[..n]);
    }
  }

  lemma {:induction false} ReaderFollows(known: Option<OutputMode>, fs: seq<OutFrame>)
    requires (forall f <- fs :: Encodable(f)) && ReadableFrom(known, fs)
    ensures ReadAll(Payloads(fs), if known.Some? then Some(known.value.RadarcapeGPS?) else None) == AllMeant(fs)
    decreases |fs|
  {
    if fs != [] {
      var f := fs[0];
      assert Payloads(fs)[0] == Payload(f) && Payloads(fs)[1..] == Payloads(fs[1..]);
      ReaderFollows(if f.Status? then Some(f.reported) else known, fs[1..]);
      if !f.Position? {
        PayloadFields(f);
      }
    }
  }

  /** A reader of a readable stream reads every frame in it as it was meant: time, signal and message. */
  lemma ReaderUnderstands(stream: seq<OutFrame>)
    requires (forall f <- stream :: Encodable(f)) && Readable(stream)
    ensures ReadAll(Payloads(stream), None) == AllMeant(stream)
  {
    assert [] + stream == stream;
    ReadableMeansFromStart([], stream);
    ReaderFollows(None, stream);
  }

  // ---------- end to end ----------

  function Concat(w: seq<Frame>): (r: seq<byte>) {
    if w == [] then [] else w[0] + Concat(w[1..])
  }

  lemma {:induction false} BytesOfStream(fs: seq<OutFrame>)
    requires forall f <- fs :: Encodable(f)
    ensures Concat(Wires(fs)) == StreamOf(Payloads(fs))
    decreases |fs|
  {
    if fs != [] {
      BytesOfStream(fs[1..]);
      assert Wires(fs)[1..] == Wires(fs[1..]) && Payloads(fs)[1..] == Payloads(fs[1..]);
    }
  }

  /** At any moment of any run, also in the middle of a message: if a connected client's queue was never full,
      then its connection and queue hold exactly the bytes of the frames sent since it was admitted, which a
      client program splits back into their payloads; and if it was admitted where it knows the format, a reader
      of those reads every frame as it was meant. */
  lemma ConnectedClientUnderstands(feed: Feed, c: Client) returns (stream: seq<OutFrame>)
    requires feed.Valid() && c in feed.server.clients
    requires forall o <- c.offers :: o.held < CLIENT_BUF_SIZE
    ensures c in feed.seats && feed.seats[c].at <= |feed.story.stream| && stream == SentTo(feed.story, feed.seats[c])
    ensures forall f <- stream :: Encodable(f)
    ensures c.written + c.lost + c.channel == Wires(stream)
    ensures Drained(Concat(c.written + c.lost + c.channel)) == (Payloads(stream), [])
    ensures feed.seats[c].reader ==> Readable(stream) && ReadAll(Payloads(stream), None) == AllMeant(stream)
  {
    hide GoodStory, StateAfter, Drained, Readable, ReadAll;
    assert feed.Served(c);
    var seat := feed.seats[c];
    var since := feed.story.stream[seat.at..];
    stream := SentTo(feed.story, seat);
    WiresAppend(seat.greeted, since);
    ClientGetsBroadcasts(c.offers);
    BytesOfStream(stream);
    assert StreamOf(Payloads(stream)) + [] == StreamOf(Payloads(stream));
    DrainStream(Payloads(stream), []);
    if seat.reader {
      PrefixReadable(stream, feed.story.pending);
      ReaderUnderstands(stream);
    }
  }

  // The time of day, in nanoseconds, when the counter stood at toa, if it stood at counter at the UTC time edge and
  // runs at ticks to the second.
  function TrueTimeOfDay(edge: int, counter: uint64, ticks: nat, toa: uint64): (t: int)
    requires ticks > 0
  {
    (edge + Truncated((toa - counter) * GIGA, ticks)) % DAY_NANOS
  }

  /** From the pulse to the reader.  edge is the UTC time of the latest pulse, on the second.  While the watcher
      publishes a synchronised reference, a data frame in GPS format carries bytes that read back as the message's
      true time of day, by the counters latched at the two latest pulses, for every message no earlier than the pulse
      before the latest, exactly if the tick that noticed the latest came within the second that it began. */
  lemma GpsDataReadsTrueTime(ticks: seq<Tick>, msg: Message, edge: int)
    requires ticks != [] && After(ticks).watch.ref.gpsSync && msg.Valid()
    requires var a := LastAdvance(ticks);
             && edge % GIGA == 0 && edge - DAY_NANOS + GIGA <= ticks[a].now < edge + DAY_NANOS
             && (a > 0 ==> ticks[a].pps.counter - msg.toa <= TicksSincePrevious(ticks, a))
    ensures var a := LastAdvance(ticks);
            var p := Payload(Data(RadarcapeGPS, msg, Some(After(ticks).watch.ref)));
            && a > 0 && TicksSincePrevious(ticks, a) > 0
            && (ParsedTime(TimestampField(p)) ==
                TrueTimeOfDay(edge, ticks[a].pps.counter, TicksSincePrevious(ticks, a), msg.toa)
                <==> edge <= ticks[a].now < edge + GIGA)
  {
    hide After, GpsTimestamp, ParsedTime, TrueNanos, TrueTimeOfDay, TicksSincePrevious;
    var ref := After(ticks).watch.ref;
    SyncIsTrustworthy(ticks);
    GpsTimestampExact(msg.toa, ref);
    PayloadFields(Data(RadarcapeGPS, msg, Some(ref)));
    WallClockDecides(edge, msg.toa, ref);
  }

  lemma WallClockDecides(edge: int, toa: uint64, ref: ClockRef)
    requires NearNominal(ref)
    requires edge % GIGA == 0 && edge - DAY_NANOS + GIGA <= ref.wallUTC < edge + DAY_NANOS
    ensures TrueNanos(toa, ref) % DAY_NANOS == TrueTimeOfDay(edge, ref.counterAtPps, ref.measuredTicks, toa) <==>
            edge <= ref.wallUTC < edge + GIGA
  {
    hide Truncated;
    var t := Truncated((toa - ref.counterAtPps) * GIGA, ref.measuredTicks);
    SecondsApart(ref.wallUTC / GIGA, edge / GIGA, t);
    assert edge == edge / GIGA * GIGA;
  }

  // Two whole seconds, less than a day apart, at the same time of day.
  lemma SecondsApart(x: int, y: int, t: int)
    requires -DAY < x - y < DAY
    ensures (x % DAY * GIGA + t) % DAY_NANOS == (y * GIGA + t) % DAY_NANOS <==> x == y
  {
    Division.Euclid(x, DAY);
    Division.Shifted(x % DAY * GIGA + t, DAY_NANOS, x / DAY);
    assert x * GIGA == x % DAY * GIGA + DAY_NANOS * (x / DAY);
    if x > y {
      NotCongruent(y * GIGA + t, (x - y) * GIGA);
    } else if x < y {
      NotCongruent(x * GIGA + t, (y - x) * GIGA);
    }
  }
}
