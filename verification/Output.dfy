/** The feeder's output side: each message goes through the Radarcape state machine to the server's clients. */
module Output {
  import opened Words
  import opened Wrappers
  import opened Pps
  import opened Timestamp
  import opened Beast
  import opened Radarcape
  import opened Server

  function Wire(f: OutFrame): (r: Frame)
    requires Encodable(f)
  {
    Framed(Payload(f))
  }

  function Wires(fs: seq<OutFrame>): (w: seq<Frame>)
    requires forall f <- fs :: Encodable(f)
    ensures |w| == |fs|
  {
    seq(|fs|, i requires 0 <= i < |fs| => Wire(fs[i]))
  }

  lemma WiresAppend(a: seq<OutFrame>, b: seq<OutFrame>)
    requires (forall f <- a :: Encodable(f)) && forall f <- b :: Encodable(f)
    ensures forall f <- a + b :: Encodable(f)
    ensures Wires(a + b) == Wires(a) + Wires(b)
  {
  }

  lemma {:induction false} BroadcastsAppend(s: State, run: seq<Emission>, e: Emission)
    ensures Broadcasts(s, run + [e]) == Broadcasts(s, run) + Emitted(StateAfter(s, run), e).0
    decreases |run|
  {
    if run == [] {
      assert run + [e] == [e];
      assert Broadcasts(s, [e]) == Emitted(s, e).0 + [];
    } else {
      assert (run + [e])[1..] == run[1..] + [e];
      BroadcastsAppend(Emitted(s, run[0]).1, run[1..], e);
    }
  }

  lemma {:induction false} GreetingAfterAppend(s: State, greeting: seq<OutFrame>, run: seq<Emission>, e: Emission)
    ensures GreetingAfter(s, greeting, run + [e]) == Greeting(StateAfter(s, run), e, GreetingAfter(s, greeting, run))
    decreases |run|
  {
    if run == [] {
      assert run + [e] == [e];
    } else {
      assert (run + [e])[1..] == run[1..] + [e];
      GreetingAfterAppend(Emitted(s, run[0]).1, Greeting(s, run[0], greeting), run[1..], e);
    }
  }

  // A short greeting: a status frame, and the position if it is known.
  lemma {:induction false} GreetingIsShort(s: State, greeting: seq<OutFrame>, run: seq<Emission>)
    requires Consistent(s) && s.initialised && |greeting| <= 2 && forall f <- greeting :: Encodable(f)
    requires forall e <- run :: e.msg.Valid()
    ensures |GreetingAfter(s, greeting, run)| <= 2 && forall f <- GreetingAfter(s, greeting, run) :: Encodable(f)
    decreases |run|
  {
    if run != [] {
      GreetingIsShort(Emitted(s, run[0]).1, Greeting(s, run[0], greeting), run[1..]);
    }
  }

  ghost predicate AllValid(run: seq<Emission>) { forall e <- run :: e.msg.Valid() }

  lemma {:induction false} StaysConsistent(s: State, run: seq<Emission>)
    requires Consistent(s) && s.initialised
    ensures Consistent(StateAfter(s, run)) && StateAfter(s, run).initialised
    decreases |run|
  {
    if run != [] {
      StaysConsistent(Emitted(s, run[0]).1, run[1..]);
    }
  }

  ghost predicate AllEncodable(fs: seq<OutFrame>) { forall f <- fs :: Encodable(f) }

  lemma EmittedEncodable(s: State, e: Emission)
    requires Consistent(s) && s.initialised && e.msg.Valid()
    ensures AllEncodable(Emitted(s, e).0)
  {
    EverythingEncodable(s, [e]);
    assert Broadcasts(s, [e]) == Emitted(s, e).0 + [];
  }

  // ---------- the story so far, as values ----------

  // The state and the greeting after startup; the messages begun since; the frames broadcast since, those of the
  // latest message still to be, and whether the greeting is still to be renewed for it; and the greeting.
  datatype Story = Story(start: State, greeting: seq<OutFrame>, run: seq<Emission>, stream: seq<OutFrame>,
                         pending: seq<OutFrame>, renewalDue: bool, welcome: seq<OutFrame>)
  {
    function Now(): (s: State) { StateAfter(start, run) }

    // The messages for which the greeting is up to date.
    function Settled(): (r: seq<Emission>) { if renewalDue && run != [] then run[..|run| - 1] else run }
  }

  ghost predicate GoodStory(st: Story) {
    && Greets(st.start, st.greeting) && AllValid(st.run)
    && st.stream + st.pending == Broadcasts(st.start, st.run)
    && AllEncodable(st.pending)
    && st.welcome == GreetingAfter(st.start, st.greeting, st.Settled())
    && if st.pending == [] then !st.renewalDue else st.run != [] && MidMessage(st)
  }

  // The pending frames are the last of the latest message's, and the greeting is renewed just before the very last.
  ghost predicate MidMessage(st: Story)
    requires st.run != []
  {
    var n := |st.run| - 1;
    var frames := Emitted(StateAfter(st.start, st.run[..n]), st.run[n]).0;
    && |st.pending| <= |frames| && st.pending == frames[|frames| - |st.pending|..]
    && if st.renewalDue then |frames| > 1 else |st.pending| == 1
  }

  function Begun(st: Story, e: Emission): (r: Story) {
    var frames := Emitted(st.Now(), e).0;
    st.(run := st.run + [e], pending := frames, renewalDue := |frames| > 1)
  }

  function Sent(st: Story): (r: Story)
    requires st.pending != []
  {
    st.(stream := st.stream + [st.pending[0]], pending := st.pending[1..])
  }

  function Renewed(st: Story): (r: Story)
    requires st.run != []
  {
    var e := st.run[|st.run| - 1];
    st.(renewalDue := false, welcome := Welcome(st.Now(), e.msg.toa, e.ref))
  }

  // What a message does to the state, the stream and the greeting.
  lemma MessageStep(start: State, greeting: seq<OutFrame>, run: seq<Emission>, e: Emission)
    requires Consistent(start) && start.initialised && e.msg.Valid()
    ensures var s := StateAfter(start, run);
            var (control, s') := Control(Refreshed(s, e.ref), e.now, e.msg.toa, e.ref);
            && Consistent(s) && s.initialised
            && Consistent(s') && s'.initialised && s'.currentMode == ModeFor(e.ref)
            && StateAfter(start, run + [e]) == s'
            && Emitted(s, e) == (control + [Data(s'.currentMode, e.msg, e.ref)], s')
            && AllEncodable(Emitted(s, e).0)
            && Broadcasts(start, run + [e]) == Broadcasts(start, run) + Emitted(s, e).0
            && GreetingAfter(start, greeting, run + [e]) ==
               if control == [] then GreetingAfter(start, greeting, run) else Welcome(s', e.msg.toa, e.ref)
  {
    hide StateAfter, Broadcasts, GreetingAfter, Encodable;
    StaysConsistent(start, run);
    StateAfterAppend(start, run, e);
    BroadcastsAppend(start, run, e);
    GreetingAfterAppend(start, greeting, run, e);
    EmittedEncodable(StateAfter(start, run), e);
  }

  lemma BegunIsGood(st: Story, e: Emission)
    requires GoodStory(st) && st.pending == [] && e.msg.Valid()
    ensures GoodStory(Begun(st, e))
    ensures var (control, s') := Control(Refreshed(st.Now(), e.ref), e.now, e.msg.toa, e.ref);
            && Consistent(st.Now()) && s'.initialised && s'.currentMode == ModeFor(e.ref)
            && Begun(st, e).Now() == s'
            && Begun(st, e).pending == control + [Data(s'.currentMode, e.msg, e.ref)]
  {
    hide StateAfter, Broadcasts, GreetingAfter, Encodable, InStep, Control, Emitted;
    MessageStep(st.start, st.greeting, st.run, e);
    assert (st.run + [e])[..|st.run|] == st.run;
    assert st.stream + [] == st.stream;
  }

  lemma SentIsGood(st: Story)
    requires GoodStory(st) && st.pending != [] && (st.renewalDue ==> |st.pending| > 1)
    ensures GoodStory(Sent(st))
  {
    hide StateAfter, Broadcasts, GreetingAfter, Encodable, InStep, Emitted;
    assert Sent(st).stream + Sent(st).pending == st.stream + st.pending;
  }

  lemma RenewedIsGood(st: Story)
    requires GoodStory(st) && st.renewalDue && |st.pending| == 1
    ensures st.run != [] && GoodStory(Renewed(st))
    ensures Consistent(st.Now()) && st.Now().initialised && st.Now().currentMode == ModeFor(st.run[|st.run| - 1].ref)
  {
    hide StateAfter, Broadcasts, GreetingAfter, Encodable, InStep, Control;
    var n := |st.run| - 1;
    assert st.run == st.run[..n] + [st.run[n]];
    MessageStep(st.start, st.greeting, st.run[..n], st.run[n]);
  }

  // ---------- what the messages go out as ----------

  function DataFrames(fs: seq<OutFrame>): (r: seq<OutFrame>) {
    if fs == [] then [] else (if fs[0].Data? then [fs[0]] else []) + DataFrames(fs[1..])
  }

  // GPS time with a reference that is synchronised, 12 MHz time otherwise.
  function GoesOutAs(e: Emission): (f: OutFrame) {
    Data(if e.ref.Some? && e.ref.value.gpsSync then RadarcapeGPS else RadarcapeLegacy12MHz, e.msg, e.ref)
  }

  function AllGoOutAs(run: seq<Emission>): (fs: seq<OutFrame>)
    ensures |fs| == |run|
  {
    seq(|run|, k requires 0 <= k < |run| => GoesOutAs(run[k]))
  }

  lemma DataFramesFirst(f: OutFrame, rest: seq<OutFrame>)
    ensures DataFrames([f] + rest) == (if f.Data? then [f] else []) + DataFrames(rest)
  {
  }

  lemma {:induction false} DataFramesAppend(a: seq<OutFrame>, b: seq<OutFrame>)
    ensures DataFrames(a + b) == DataFrames(a) + DataFrames(b)
  {
    if a == [] {
      assert a + b == b;
    } else {
      DataFramesAppend(a[1..], b);
      DataFramesFirst(a[0], a[1..]);
      DataFramesFirst(a[0], a[1..] + b);
      hide DataFrames;
      assert [a[0]] + a[1..] == a && [a[0]] + (a[1..] + b) == a + b;
    }
  }

  lemma EmittedData(s: State, e: Emission)
    requires Consistent(s) && s.initialised
    ensures DataFrames(Emitted(s, e).0) == [GoesOutAs(e)]
  {
    var (control, s') := Control(Refreshed(s, e.ref), e.now, e.msg.toa, e.ref);
    DataFramesAppend(control, [Data(s'.currentMode, e.msg, e.ref)]);
    assert |control| <= 2;
  }

  lemma {:induction false} BroadcastsData(s: State, run: seq<Emission>)
    requires Consistent(s) && s.initialised
    ensures DataFrames(Broadcasts(s, run)) == AllGoOutAs(run)
    decreases |run|
  {
    if run != [] {
      EmittedData(s, run[0]);
      BroadcastsData(Emitted(s, run[0]).1, run[1..]);
      DataFramesAppend(Emitted(s, run[0]).0, Broadcasts(Emitted(s, run[0]).1, run[1..]));
      assert run == [run[0]] + run[1..];
    }
  }

  /** Between messages, the data frames broadcast so far are the messages themselves, in order, each with the reference
      it was given and in the format that goes with that reference. */
  lemma DataGoesOut(st: Story)
    requires GoodStory(st) && st.pending == []
    ensures DataFrames(st.stream) == AllGoOutAs(st.run)
  {
    BroadcastsData(st.start, st.run);
    assert st.stream + [] == st.stream;
  }

  // ---------- a client's place in the story ----------

  // Its greeting, where in the stream it came, and whether it knows the format of what it gets.
  datatype Seat = Seat(greeted: seq<OutFrame>, at: nat, reader: bool)

  // What it was sent, its greeting first.
  function SentTo(st: Story, seat: Seat): (fs: seq<OutFrame>)
    requires seat.at <= |st.stream|
  {
    seat.greeted + st.stream[seat.at..]
  }

  // A client that knows the format does so to the end of the latest message.
  ghost predicate GoodSeat(st: Story, seat: Seat) {
    seat.at <= |st.stream| && (seat.reader ==> InStep(SentTo(st, seat) + st.pending, st.Now().currentMode))
  }

  lemma SeatAtBegin(st: Story, e: Emission, seat: Seat)
    requires GoodStory(st) && GoodSeat(st, seat) && st.pending == [] && e.msg.Valid()
    ensures GoodSeat(Begun(st, e), seat)
  {
    hide StateAfter, Broadcasts, GreetingAfter, Encodable, InStep, Control, Emitted;
    MessageStep(st.start, st.greeting, st.run, e);
    assert SentTo(st, seat) + [] == SentTo(st, seat);
    if seat.reader {
      ReadableStep(SentTo(st, seat), st.Now(), e);
    }
  }

  lemma SeatAtSent(st: Story, seat: Seat)
    requires GoodSeat(st, seat) && st.pending != []
    ensures GoodSeat(Sent(st), seat)
  {
    hide InStep;
    assert SentTo(Sent(st), seat) + Sent(st).pending == SentTo(st, seat) + st.pending;
  }

  // Whether a client that comes now can read on: between messages, before a message's first frame, with the
  // greeting renewed for it, or if it changes no format.
  ghost predicate KnowsFormat(st: Story) {
    st.pending == [] || (st.run != [] &&
      var n := |st.run| - 1;
      var s := StateAfter(st.start, st.run[..n]);
      var frames := Emitted(s, st.run[n]).0;
      || |st.pending| == |frames|
      || (|frames| > 1 && !st.renewalDue)
      || ModeFor(st.run[n].ref) == s.currentMode)
  }

  lemma NewSeat(st: Story)
    requires GoodStory(st)
    ensures GoodSeat(st, Seat(st.welcome, |st.stream|, KnowsFormat(st)))
    ensures KnowsFormat(st) <==> Readable(st.welcome + st.pending)
  {
    hide Emitted, StateAfter, Broadcasts, GreetingAfter, Encodable, Readable, Announced;
    assert st.stream[|st.stream|..] == [] && st.welcome + [] == st.welcome;
    if st.pending == [] {
      GreetsThroughout(st.start, st.greeting, st.run);
    } else {
      var n := |st.run| - 1;
      var before, e := st.run[..n], st.run[n];
      assert st.run == before + [e];
      GreetsThroughout(st.start, st.greeting, before);
      MessageStep(st.start, st.greeting, before, e);
      var frames := Emitted(StateAfter(st.start, before), e).0;
      MidMessageAdmission(StateAfter(st.start, before), GreetingAfter(st.start, st.greeting, before), e,
                          |frames| - |st.pending|, |frames| > 1 && !st.renewalDue);
    }
  }

  // ---------- the story and the server ----------

  // The frames as they go over the wire.
  ghost predicate Carries(wires: seq<Frame>, fs: seq<OutFrame>) { AllEncodable(fs) && wires == Wires(fs) }

  lemma CarriesOneMore(offers: seq<Offer>, o: Offer, stream: seq<OutFrame>, f: OutFrame, k: nat)
    requires k <= |stream| && Carries(FramesOf(offers), stream[k..])
    requires Encodable(f) && o.frame == Wire(f)
    ensures Carries(FramesOf(offers + [o]), (stream + [f])[k..])
  {
    assert (stream + [f])[k..] == stream[k..] + [f];
    WiresAppend(stream[k..], [f]);
  }

  lemma CarriesNothing(stream: seq<OutFrame>)
    ensures Carries(FramesOf([]), stream[|stream|..])
  {
  }

  /** The state machine and the server together.  Each method below is one step of a message on its way out, or one
      of the server's own steps; they can follow each other in any order their conditions allow. */
  class Feed {
    const rc: RadarcapeState
    const server: Server
    ghost var story: Story
    ghost var seats: map<Client, Seat>

    // This client has been greeted, and offered every frame since.
    ghost predicate Served(c: Client)
      reads this, c
    {
      && c in seats && seats[c].at <= |story.stream| && GoodSeat(story, seats[c])
      && Carries(c.greeting, seats[c].greeted)
      && Carries(FramesOf(c.offers), story.stream[seats[c].at..])
    }

    ghost predicate Valid()
      reads this, rc, server, server.clients
    {
      && GoodStory(story)
      && server.Valid()
      && rc.View() == story.Now()
      && server.welcomeFrames.Some? && Carries(server.welcomeFrames.value, story.welcome)
      && forall c <- server.clients :: Served(c)
    }

    // Startup: the first frames are kept for the first client, and broadcast to nobody.
    constructor (position: Option<seq<byte>>, now: int, toa: uint64, ref: Option<ClockRef>)
      requires position.Some? ==> |position.value| == 21
      ensures Valid() && story.run == [] && story.pending == [] && server.clients == {} && fresh(rc) && fresh(server)
    {
      var r := new RadarcapeState(position);
      r.Update(ref);
      ghost var before := r.View();
      var frames := r.EmitControlFrames(now, toa, ref);
      var s := new Server();
      assert frames == Welcome(r.View(), toa, ref);
      WelcomeIsReadable(r.View(), toa, ref);
      var wires := EncodeAll(frames);
      s.SetWelcomeFrames(wires);
      rc, server := r, s;
      story, seats := Story(r.View(), frames, [], [], [], false, frames), map[];
    }

    static method EncodeAll(frames: seq<OutFrame>) returns (w: seq<Frame>)
      requires AllEncodable(frames)
      ensures w == Wires(frames)
    {
      w := [];
      for i := 0 to |frames|
        invariant w == Wires(frames[..i])
      {
        assert frames[..i + 1] == frames[..i] + [frames[i]];
        WiresAppend(frames[..i], [frames[i]]);
        var frame := EscapeFrame(Payload(frames[i]));
        w := w + [frame];
      }
      assert frames[..|frames|] == frames;
    }

    // ---------- a message on its way out ----------

    // The state machine takes the message in, and says which control frames go before it.
    method Begin(e: Emission) returns (control: seq<OutFrame>)
      requires Valid() && story.pending == [] && e.msg.Valid()
      modifies this`story, rc
      ensures Valid() && story == Begun(old(story), e)
      ensures rc.currentMode == ModeFor(e.ref) && story.renewalDue == (control != [])
      ensures story.pending == control + [Data(rc.currentMode, e.msg, e.ref)]
    {
      hide GoodStory, GoodSeat, Control, Emitted, StateAfter, Encodable, Carries, Server.Valid;
      BegunIsGood(story, e);
      rc.Update(e.ref);
      control := rc.EmitControlFrames(e.now, e.msg.toa, e.ref);
      forall c <- server.clients
        ensures GoodSeat(Begun(story, e), seats[c])
      {
        assert Served(c);
        SeatAtBegin(story, e, seats[c]);
      }
      story := Begun(story, e);
    }

    // The next of its frames goes to every client.
    method BroadcastNext(f: OutFrame)
      requires Valid() && story.pending != [] && f == story.pending[0] && (story.renewalDue ==> |story.pending| > 1)
      modifies this`story, server.clients`channel, server.clients`offers
      ensures Valid() && story == Sent(old(story))
    {
      hide GoodSeat, Emitted, StateAfter, Broadcasts, GreetingAfter, Encodable, Carries, Server.Valid, Framed, Payload,
           MidMessage, Greets, FramesOf;
      SentIsGood(story);
      var frame := EscapeFrame(Payload(f));
      forall c <- server.clients
        ensures GoodSeat(Sent(story), seats[c]) && seats[c].at <= |story.stream|
        ensures Carries(FramesOf(c.offers + [Offer(frame, |c.channel|)]), (story.stream + [f])[seats[c].at..])
      {
        assert Served(c);
        SeatAtSent(story, seats[c]);
        CarriesOneMore(c.offers, Offer(frame, |c.channel|), story.stream, f, seats[c].at);
      }
      server.Broadcast(frame);
      story := Sent(story);
    }

    // The greeting is renewed, after the control frames and before the message itself.
    method Renew(e: Emission)
      requires Valid() && story.renewalDue && |story.pending| == 1 && e == story.run[|story.run| - 1]
      modifies this`story, server`welcomeFrames
      ensures Valid() && story == Renewed(old(story))
    {
      hide GoodStory, Emitted, StateAfter, Encodable, Client.Valid, InStep;
      RenewedIsGood(story);
      var frames := rc.WelcomeFrames(e.msg.toa, e.ref);
      var wires := EncodeAll(frames);
      server.SetWelcomeFrames(wires);
      story := Renewed(story);
    }

    // The whole of it, one step after another.
    method Emit(e: Emission)
      requires Valid() && story.pending == [] && e.msg.Valid()
      modifies this`story, rc, server`welcomeFrames, server.clients`channel, server.clients`offers
      ensures Valid() && story.pending == [] && story.run == old(story.run) + [e]
    {
      hide Valid;
      var control := Begin(e);
      var data := Data(rc.currentMode, e.msg, e.ref);
      for i := 0 to |control|
        invariant Valid() && story.pending == control[i..] + [data] && story.renewalDue == (control != [])
        invariant story.run == old(story.run) + [e]
      {
        BroadcastNext(control[i]);
      }
      if control != [] {
        Renew(e);
      }
      BroadcastNext(data);
    }

    // ---------- what may happen in between ----------

    /** A client may come at any time, also in the middle of a message; it can read on exactly if it knows the
        format. */
    method Admit() returns (c: Client)
      requires Valid()
      modifies this`seats, server`clients
      ensures Valid() && fresh(c) && server.clients == old(server.clients) + {c}
      ensures seats == old(seats)[c := Seat(story.welcome, |story.stream|, KnowsFormat(story))]
      ensures KnowsFormat(story) <==> Readable(SentTo(story, seats[c]) + story.pending)
    {
      hide GoodStory, GoodSeat, KnowsFormat, StateAfter, Carries, Readable, Server.Valid;
      NewSeat(story);
      CarriesNothing(story.stream);
      c := server.Admit();
      seats := seats[c := Seat(story.welcome, |story.stream|, KnowsFormat(story))];
      assert SentTo(story, seats[c]) == story.welcome;
    }

    // One turn of a client's writer, whether or not the write fails.
    method WriteNext(c: Client, fails: bool)
      requires Valid() && c.Valid() && !c.writerDone
      modifies server`clients, c`written, c`channel, c`connClosed, c`writerDone, c`lost
      ensures Valid() && c.Valid()
      ensures server.clients == if fails && old(c.channel) != [] then old(server.clients) - {c} else old(server.clients)
    {
      hide Client.Valid, GoodStory, GoodSeat, Carries, StateAfter;
      server.WriteNext(c, fails);
    }

    method RemoveClient(c: Client)
      requires Valid()
      modifies server`clients, c`connClosed
      ensures Valid() && server.clients == old(server.clients) - {c}
    {
      hide Client.Valid, GoodStory, GoodSeat, Carries, StateAfter;
      server.RemoveClient(c);
    }

    method Stop()
      requires Valid()
      modifies server`done, server`clients, server.clients`channelClosed
      ensures Valid()
      ensures server.clients == if old(server.done) then old(server.clients) else {}
    {
      hide Client.Valid, GoodStory, GoodSeat, Carries, StateAfter;
      server.Stop();
    }
  }
}
