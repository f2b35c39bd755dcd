/**
  The Radarcape state machine: which timestamp format is in force, when it is announced, and what
  newly connected clients are told.
 */
module Radarcape {
  import opened Words
  import opened Wrappers
  import opened Regs
  import opened Pps
  import opened Timestamp
  import opened Beast

  const STATUS_INTERVAL: int := 1_000_000_000
  const POSITION_INTERVAL: int := 30_000_000_000

  // A frame to be sent, before encoding.  GPS timestamps need a reference.
  datatype OutFrame =
    | Status(tsMode: OutputMode, reported: OutputMode, toa: uint64, ref: Option<ClockRef>)
    | Position(coordinates: seq<byte>)
    | Data(mode: OutputMode, msg: Message, ref: Option<ClockRef>)

  // No frame asks for a GPS timestamp without a reference to compute it from.
  predicate Encodable(f: OutFrame) {
    match f
    case Status(tsMode, _, _, ref) => tsMode.RadarcapeGPS? ==> ref.Some?
    case Position(c) => |c| == 21
    case Data(mode, msg, ref) => (mode.RadarcapeGPS? ==> ref.Some?) && msg.Valid()
  }

  function RefOr(ref: Option<ClockRef>): (r: ClockRef) { if ref.Some? then ref.value else NO_REF }

  function Payload(f: OutFrame): (p: seq<byte>)
    requires Encodable(f)
    ensures IsPayload(p)
  {
    match f
    case Status(tsMode, reported, toa, ref) =>
      PayloadsAreWellFormed(tsMode, reported, Message([0, 0, 0, 0, 0, 0, 0], 0, 0), toa, RefOr(ref));
      StatusPayload(tsMode, reported, toa, RefOr(ref))
    case Position(c) => [TYPE_POSITION] + c
    case Data(mode, msg, ref) =>
      PayloadsAreWellFormed(mode, mode, msg, 0, RefOr(ref));
      DataPayload(mode, msg, RefOr(ref))
  }

  // ---------- the state machine ----------

  // position is already encoded; it is None when the receiver's place is unknown.
  datatype State = State(currentMode: OutputMode, desiredMode: OutputMode, lastGoodRef: Option<ClockRef>,
                         lastStatus: int, lastPosition: int, position: Option<seq<byte>>, initialised: bool)

  predicate Synced(ref: Option<ClockRef>) { ref.Some? && ref.value.gpsSync }

  function ModeFor(ref: Option<ClockRef>): (r: OutputMode) {
    if Synced(ref) then RadarcapeGPS else RadarcapeLegacy12MHz
  }

  // What holds between calls: whenever GPS format is in force, a good reference has been seen.
  predicate Consistent(s: State) {
    && (s.position.Some? ==> |s.position.value| == 21)
    && (s.initialised ==> s.currentMode != Beast12MHz)
    && (s.initialised && s.currentMode.RadarcapeGPS? ==> s.lastGoodRef.Some?)
  }

  function Refreshed(s: State, ref: Option<ClockRef>): (r: State) {
    s.(desiredMode := ModeFor(ref), lastGoodRef := if Synced(ref) then ref else s.lastGoodRef)
  }

  function PositionFrames(s: State): (r: seq<OutFrame>) {
    if s.position.Some? then [Position(s.position.value)] else []
  }

  // emitControlFrames, after update with the same reference.
  function Control(s: State, now: int, toa: uint64, ref: Option<ClockRef>): (r: (seq<OutFrame>, State)) {
    if !s.initialised then
      ([Status(s.desiredMode, s.desiredMode, toa, ref)] + PositionFrames(s),
       s.(currentMode := s.desiredMode, lastStatus := now, lastPosition := now, initialised := true))
    else if s.desiredMode != s.currentMode then
      var tsRef := if s.currentMode.RadarcapeGPS? && !Synced(ref) then s.lastGoodRef else ref;
      ([Status(s.currentMode, s.desiredMode, toa, tsRef)], s.(currentMode := s.desiredMode, lastStatus := now))
    else
      var statusDue := now - s.lastStatus >= STATUS_INTERVAL;
      var positionDue := s.position.Some? && now - s.lastPosition >= POSITION_INTERVAL;
      ((if statusDue then [Status(s.currentMode, s.currentMode, toa, ref)] else [])
       + (if positionDue then [Position(s.position.value)] else []),
       s.(lastStatus := if statusDue then now else s.lastStatus,
          lastPosition := if positionDue then now else s.lastPosition))
  }

  function Welcome(s: State, toa: uint64, ref: Option<ClockRef>): (r: seq<OutFrame>) {
    [Status(s.currentMode, s.currentMode, toa, ref)] + PositionFrames(s)
  }

  class RadarcapeState {
    var currentMode: OutputMode
    var desiredMode: OutputMode
    var lastGoodRef: Option<ClockRef>
    var lastStatus: int
    var lastPosition: int
    var position: Option<seq<byte>>
    var initialised: bool

    function View(): (r: State)
      reads this
    {
      State(currentMode, desiredMode, lastGoodRef, lastStatus, lastPosition, position, initialised)
    }

    constructor (position: Option<seq<byte>>)
      requires position.Some? ==> |position.value| == 21
      ensures Consistent(View()) && View() == State(Beast12MHz, Beast12MHz, None, 0, 0, position, false)
    {
      currentMode, desiredMode, lastGoodRef := Beast12MHz, Beast12MHz, None;
      lastStatus, lastPosition, initialised := 0, 0, false;
      this.position := position;
    }

    method Update(ref: Option<ClockRef>)
      modifies this
      ensures View() == Refreshed(old(View()), ref)
    {
      if ref.Some? && ref.value.gpsSync {
        desiredMode := RadarcapeGPS;
        lastGoodRef := ref;
      } else {
        desiredMode := RadarcapeLegacy12MHz;
      }
    }

    method EmitControlFrames(now: int, toa: uint64, ref: Option<ClockRef>) returns (frames: seq<OutFrame>)
      requires Consistent(View()) && desiredMode == ModeFor(ref)
      requires Synced(ref) ==> lastGoodRef == ref
      modifies this
      ensures (frames, View()) == Control(old(View()), now, toa, ref)
      ensures Consistent(View()) && forall f <- frames :: Encodable(f)
    {
      frames := [];
      if !initialised {
        frames := [Status(desiredMode, desiredMode, toa, ref)];
        if position.Some? {
          frames := frames + [Position(position.value)];
        }
        currentMode := desiredMode;
        lastStatus := now;
        lastPosition := now;
        initialised := true;
        assert frames == [Status(desiredMode, desiredMode, toa, ref)] + PositionFrames(View());
        return;
      }
      if desiredMode != currentMode {
        var tsMode := currentMode;
        var tsRef := ref;
        if tsMode == RadarcapeGPS && (ref.None? || !ref.value.gpsSync) {
          tsRef := lastGoodRef;
        }
        frames := [Status(tsMode, desiredMode, toa, tsRef)];
        currentMode := desiredMode;
        lastStatus := now;
        return;
      }
      if now - lastStatus >= STATUS_INTERVAL {
        frames := [Status(currentMode, currentMode, toa, ref)];
        lastStatus := now;
      }
      if position.Some? && now - lastPosition >= POSITION_INTERVAL {
        frames := frames + [Position(position.value)];
        lastPosition := now;
      }
      assert frames == Control(old(View()), now, toa, ref).0;
    }

    method WelcomeFrames(toa: uint64, ref: Option<ClockRef>) returns (frames: seq<OutFrame>)
      requires Consistent(View()) && initialised && currentMode == ModeFor(ref)
      ensures frames == Welcome(View(), toa, ref) && forall f <- frames :: Encodable(f)
    {
      frames := [Status(currentMode, currentMode, toa, ref)];
      if position.Some? {
        frames := frames + [Position(position.value)];
      }
    }
  }

  // ---------- what a reader of the stream knows ----------

  // The format announced by the latest status frame.
  function Announced(stream: seq<OutFrame>): (r: Option<OutputMode>) {
    if stream == [] then None
    else
      var f := stream[|stream| - 1];
      if f.Status? then Some(f.reported) else Announced(stream[..|stream| - 1])
  }

  // Every timestamp is in the announced format; the very first status speaks for itself.
  ghost predicate Readable(stream: seq<OutFrame>) {
    stream == [] ||
    var n := |stream| - 1;
    && Readable(stream[..n])
    && match stream[n]
       case Status(tsMode, reported, _, _) =>
         var a := Announced(stream[..n]); if a.None? then tsMode == reported else a == Some(tsMode)
       case Data(mode, _, _) => Announced(stream[..n]) == Some(mode)
       case Position(_) => true
  }

  lemma {:induction false} AnnouncedAppend(a: seq<OutFrame>, b: seq<OutFrame>)
    ensures Announced(a + b) == if Announced(b).Some? then Announced(b) else Announced(a)
  {
    if b == [] {
      assert a + b == a;
    } else {
      var n := |b| - 1;
      assert (a + b)[..|a| + n] == a + b[..n];
      AnnouncedAppend(a, b[..n]);
    }
  }

  lemma ReadableAppendOne(a: seq<OutFrame>, f: OutFrame)
    ensures Readable(a + [f]) <==>
            Readable(a) &&
            match f
            case Status(tsMode, reported, _, _) =>
              if Announced(a).None? then tsMode == reported else Announced(a) == Some(tsMode)
            case Data(mode, _, _) => Announced(a) == Some(mode)
            case Position(_) => true
  {
  }

  // One message: the control frames before it, and the message itself in the format then in force.
  datatype Emission = Emission(now: int, msg: Message, ref: Option<ClockRef>)

  function Emitted(s: State, e: Emission): (r: (seq<OutFrame>, State)) {
    var (control, s') := Control(Refreshed(s, e.ref), e.now, e.msg.toa, e.ref);
    (control + [Data(s'.currentMode, e.msg, e.ref)], s')
  }

  /** What goes out for one message, and when.  A change of format brings one status frame, timed in the old format and
      announcing the new; without one, a status frame is due every second and a position frame, if the position is
      known, every thirty; then comes the message itself.  Every status frame is timed by the message, with the
      reference at hand, or with the last good one where the old format is GPS and that is not synchronised. */
  lemma WhatGoesOut(s: State, e: Emission)
    requires s.initialised
    ensures var (frames, s') := Emitted(s, e);
            var mode := if e.ref.Some? && e.ref.value.gpsSync then RadarcapeGPS else RadarcapeLegacy12MHz;
            var ref := if s.currentMode == RadarcapeGPS && mode != RadarcapeGPS then s.lastGoodRef else e.ref;
            var data := Data(mode, e.msg, e.ref);
            var status := [Status(s.currentMode, mode, e.msg.toa, ref)];
            var position := if s.position.Some? && e.now - s.lastPosition >= 30_000_000_000
                            then [Position(s.position.value)] else [];
            && s'.currentMode == mode
            && if mode != s.currentMode then
                 frames == status + [data] && s'.lastStatus == e.now && s'.lastPosition == s.lastPosition
               else if e.now - s.lastStatus >= 1_000_000_000 then
                 frames == status + position + [data] && s'.lastStatus == e.now
               else frames == position + [data] && s'.lastStatus == s.lastStatus
    ensures var s' := Emitted(s, e).1;
            && (e.ref.Some? && e.ref.value.gpsSync ==> s'.lastGoodRef == e.ref)
            && (!(e.ref.Some? && e.ref.value.gpsSync) ==> s'.lastGoodRef == s.lastGoodRef)
            && (Position(if s.position.Some? then s.position.value else []) in Emitted(s, e).0 && s.position.Some? ==>
                  s'.lastPosition == e.now)
  {
    assert [] + [Data(Emitted(s, e).1.currentMode, e.msg, e.ref)] == [Data(Emitted(s, e).1.currentMode, e.msg, e.ref)];
  }

  // What the server is told to greet clients with after one message.
  function Greeting(s: State, e: Emission, greeting: seq<OutFrame>): (r: seq<OutFrame>) {
    var (control, s') := Control(Refreshed(s, e.ref), e.now, e.msg.toa, e.ref);
    if control == [] then greeting else Welcome(s', e.msg.toa, e.ref)
  }

  // A stream that can be read so far, and has the format in force announced.
  ghost predicate InStep(stream: seq<OutFrame>, mode: OutputMode) {
    Readable(stream) && Announced(stream) == Some(mode)
  }

  lemma InStepStatus(stream: seq<OutFrame>, f: OutFrame)
    requires f.Status? && InStep(stream, f.tsMode)
    ensures InStep(stream + [f], f.reported)
  {
  }

  lemma InStepOther(stream: seq<OutFrame>, f: OutFrame, mode: OutputMode)
    requires InStep(stream, mode) && (f.Position? || (f.Data? && f.mode == mode))
    ensures InStep(stream + [f], mode)
  {
  }

  lemma ControlStep(stream: seq<OutFrame>, s: State, now: int, toa: uint64, ref: Option<ClockRef>)
    requires s.initialised && InStep(stream, s.currentMode)
    ensures var (control, s') := Control(s, now, toa, ref); InStep(stream + control, s'.currentMode)
  {
    hide InStep;
    var (control, s') := Control(s, now, toa, ref);
    if control == [] {
      assert stream + [] == stream;
    } else {
      if control[0].Status? {
        InStepStatus(stream, control[0]);
      } else {
        InStepOther(stream, control[0], s.currentMode);
      }
      if |control| == 1 {
        assert stream + control == stream + [control[0]];
      } else {
        InStepOther(stream + [control[0]], control[1], s'.currentMode);
        assert stream + control == stream + [control[0]] + [control[1]];
      }
    }
  }

  lemma ReadableStep(stream: seq<OutFrame>, s: State, e: Emission)
    requires Consistent(s) && s.initialised && InStep(stream, s.currentMode)
    ensures var (frames, s') := Emitted(s, e);
            Consistent(s') && s'.initialised && InStep(stream + frames, s'.currentMode)
  {
    hide InStep;
    var r := Refreshed(s, e.ref);
    var (control, s') := Control(r, e.now, e.msg.toa, e.ref);
    var data := Data(s'.currentMode, e.msg, e.ref);
    ControlStep(stream, r, e.now, e.msg.toa, e.ref);
    InStepOther(stream + control, data, s'.currentMode);
    assert stream + (control + [data]) == stream + control + [data];
  }

  // The state and the greeting agree on the format in force.
  ghost predicate Greets(s: State, greeting: seq<OutFrame>) {
    Consistent(s) && s.initialised && InStep(greeting, s.currentMode)
  }

  lemma WelcomeIsReadable(s: State, toa: uint64, ref: Option<ClockRef>)
    ensures Readable(Welcome(s, toa, ref)) && Announced(Welcome(s, toa, ref)) == Some(s.currentMode)
  {
    hide InStep;
    var status := Status(s.currentMode, s.currentMode, toa, ref);
    OneStatus(status);
    if s.position.Some? {
      InStepOther([status], Position(s.position.value), s.currentMode);
      assert Welcome(s, toa, ref) == [status] + [Position(s.position.value)];
    } else {
      assert Welcome(s, toa, ref) == [status];
    }
    InStepMeans(Welcome(s, toa, ref), s.currentMode);
  }

  lemma OneStatus(f: OutFrame)
    requires f.Status? && f.tsMode == f.reported
    ensures InStep([f], f.reported)
  {
    assert [f][..0] == [];
  }

  lemma InStepMeans(stream: seq<OutFrame>, mode: OutputMode)
    ensures InStep(stream, mode) <==> Readable(stream) && Announced(stream) == Some(mode)
  {
  }

  lemma GreetingStep(s: State, e: Emission, greeting: seq<OutFrame>)
    requires Greets(s, greeting)
    ensures Greets(Emitted(s, e).1, Greeting(s, e, greeting))
  {
    hide Readable, Announced;
    WelcomeIsReadable(Emitted(s, e).1, e.msg.toa, e.ref);
  }

  // ---------- whole runs ----------

  function Broadcasts(s: State, run: seq<Emission>): (r: seq<OutFrame>)
    decreases |run|
  {
    if run == [] then [] else Emitted(s, run[0]).0 + Broadcasts(Emitted(s, run[0]).1, run[1..])
  }

  function StateAfter(s: State, run: seq<Emission>): (r: State)
    decreases |run|
  {
    if run == [] then s else StateAfter(Emitted(s, run[0]).1, run[1..])
  }

  function GreetingAfter(s: State, greeting: seq<OutFrame>, run: seq<Emission>): (r: seq<OutFrame>)
    decreases |run|
  {
    if run == [] then greeting else GreetingAfter(Emitted(s, run[0]).1, Greeting(s, run[0], greeting), run[1..])
  }

  lemma {:induction false} GreetsThroughout(s: State, greeting: seq<OutFrame>, run: seq<Emission>)
    requires Greets(s, greeting)
    ensures Greets(StateAfter(s, run), GreetingAfter(s, greeting, run))
    decreases |run|
  {
    if run != [] {
      GreetingStep(s, run[0], greeting);
      GreetsThroughout(Emitted(s, run[0]).1, Greeting(s, run[0], greeting), run[1..]);
    }
  }

  lemma {:induction false} ReadableThroughout(stream: seq<OutFrame>, s: State, run: seq<Emission>)
    requires Consistent(s) && s.initialised && InStep(stream, s.currentMode)
    ensures Readable(stream + Broadcasts(s, run))
    decreases |run|
  {
    hide Readable, Announced, Emitted;
    if run == [] {
      assert stream + [] == stream;
    } else {
      var (frames, s') := Emitted(s, run[0]);
      ReadableStep(stream, s, run[0]);
      ReadableThroughout(stream + frames, s', run[1..]);
      assert stream + frames + Broadcasts(s', run[1..]) == stream + Broadcasts(s, run);
    }
  }

  // The startup of the feeder: update and control frames with the watcher's first reference.
  function StartUp(s: State, now: int, toa: uint64, ref: Option<ClockRef>): (r: (seq<OutFrame>, State)) {
    Control(Refreshed(s, ref), now, toa, ref)
  }

  /** A client that is admitted between two messages, at any point of any run, and misses nothing, always
      knows the timestamp format of the next frame it reads. */
  lemma AdmittedClientCanRead(start: State, now: int, toa: uint64, ref: Option<ClockRef>,
                              before: seq<Emission>, after: seq<Emission>)
    requires Consistent(start) && !start.initialised
    ensures var (greeting, s) := StartUp(start, now, toa, ref);
            Readable(GreetingAfter(s, greeting, before) + Broadcasts(StateAfter(s, before), after))
  {
    var (greeting, s) := StartUp(start, now, toa, ref);
    assert greeting == Welcome(s, toa, ref);
    WelcomeIsReadable(s, toa, ref);
    GreetsThroughout(s, greeting, before);
    ReadableThroughout(GreetingAfter(s, greeting, before), StateAfter(s, before), after);
  }

  // Where in a message a client can be admitted: after k of its frames, before the greeting was renewed or after,
  // which happens between the control frames and the message itself, if there are control frames.
  predicate AdmissionPoint(frames: seq<OutFrame>, k: nat, renewed: bool) {
    k < |frames| && (renewed ==> |frames| > 1 && k == |frames| - 1)
  }

  /** A client admitted in the middle of a message can read on exactly if nothing of the message had gone out,
      or it was greeted with the renewed greeting, or the message did not change the format. */
  lemma MidMessageAdmission(s: State, greeting: seq<OutFrame>, e: Emission, k: nat, renewed: bool)
    requires Greets(s, greeting) && AdmissionPoint(Emitted(s, e).0, k, renewed)
    ensures var (frames, s') := Emitted(s, e);
            var greeted := if renewed then Greeting(s, e, greeting) else greeting;
            && (Readable(greeted + frames[k..]) <==> k == 0 || renewed || ModeFor(e.ref) == s.currentMode)
            && (Readable(greeted + frames[k..]) <==> InStep(greeted + frames[k..], s'.currentMode))
  {
    var (frames, s') := Emitted(s, e);
    var greeted := if renewed then Greeting(s, e, greeting) else greeting;
    EndsWithData(s, e, greeted, k);
    if renewed {
      GreetingStep(s, e, greeting);
      ReadableAppendOne(greeted, frames[k]);
      assert frames[k..] == [frames[k]];
    } else if k == 0 {
      ReadableStep(greeting, s, e);
      assert frames[0..] == frames;
    } else if ModeFor(e.ref) == s.currentMode {
      SameModeSuffix(greeting, s.currentMode, frames, k);
    } else {
      assert frames[k..] == [Data(s'.currentMode, e.msg, e.ref)];
      ReadableAppendOne(greeting, frames[k]);
    }
  }

  // A stream that ends with a message in some format, and can be read, has that format announced.
  lemma EndsWithData(s: State, e: Emission, greeted: seq<OutFrame>, k: nat)
    requires k < |Emitted(s, e).0|
    ensures var (frames, s') := Emitted(s, e);
            Readable(greeted + frames[k..]) ==> InStep(greeted + frames[k..], s'.currentMode)
  {
    var (frames, s') := Emitted(s, e);
    var all := greeted + frames[k..];
    var n := |all| - 1;
    assert all[n] == Data(s'.currentMode, e.msg, e.ref);
    assert all == all[..n] + [all[n]];
  }

  // Frames that all use and announce one format can be read from anywhere.
  lemma {:induction false} SameModeSuffix(stream: seq<OutFrame>, mode: OutputMode, frames: seq<OutFrame>, k: nat)
    requires k <= |frames| && Readable(stream) && Announced(stream) == Some(mode)
    requires forall f <- frames :: match f
                                   case Status(t, r, _, _) => t == r == mode
                                   case Data(m, _, _) => m == mode
                                   case Position(_) => true
    ensures Readable(stream + frames[k..])
    decreases |frames| - k
  {
    if k == |frames| {
      assert stream + frames[k..] == stream;
    } else {
      assert frames[k] in frames;
      ReadableAppendOne(stream, frames[k]);
      AnnouncedAppend(stream, [frames[k]]);
      SameModeSuffix(stream + [frames[k]], mode, frames, k + 1);
      assert stream + [frames[k]] + frames[k + 1..] == stream + frames[k..];
    }
  }

  // ---------- no nil reference, no stale status ----------

  /** On every run, every frame that is sent can be encoded: a GPS timestamp always has its reference. */
  lemma {:induction false} EverythingEncodable(s: State, run: seq<Emission>)
    requires Consistent(s) && s.initialised && forall e <- run :: e.msg.Valid()
    ensures forall f <- Broadcasts(s, run) :: Encodable(f)
    decreases |run|
  {
    if run != [] {
      var (frames, s') := Emitted(s, run[0]);
      assert forall f <- frames :: Encodable(f);
      EverythingEncodable(s', run[1..]);
    }
  }

  // The time of the latest status frame, given when each message's frames were sent; start is the startup's.
  ghost function LastStatusTime(s: State, run: seq<Emission>, start: int): (r: int) {
    if run == [] then start
    else
      var n := |run| - 1;
      var sent := Emitted(StateAfter(s, run[..n]), run[n]).0;
      if exists f <- sent :: f.Status? then run[n].now else LastStatusTime(s, run[..n], start)
  }

  lemma {:induction false} StateAfterAppend(s: State, run: seq<Emission>, e: Emission)
    ensures StateAfter(s, run + [e]) == Emitted(StateAfter(s, run), e).1
    decreases |run|
  {
    if run == [] {
      assert run + [e] == [e];
    } else {
      assert (run + [e])[1..] == run[1..] + [e];
      StateAfterAppend(Emitted(s, run[0]).1, run[1..], e);
    }
  }

  /** When a message is sent, the latest status frame, its own control frames included, is less than one
      status interval old. */
  lemma {:induction false} StatusIsRecent(s: State, run: seq<Emission>)
    requires Consistent(s) && s.initialised
    ensures LastStatusTime(s, run, s.lastStatus) == StateAfter(s, run).lastStatus
    ensures run != [] ==> run[|run| - 1].now - LastStatusTime(s, run, s.lastStatus) < STATUS_INTERVAL
  {
    if run != [] {
      var n := |run| - 1;
      StatusIsRecent(s, run[..n]);
      assert run == run[..n] + [run[n]];
      StateAfterAppend(s, run[..n], run[n]);
      StaysInitialised(s, run[..n]);
      ControlKeepsTime(StateAfter(s, run[..n]), run[n]);
    }
  }

  lemma {:induction false} StaysInitialised(s: State, run: seq<Emission>)
    requires s.initialised
    ensures StateAfter(s, run).initialised
    decreases |run|
  {
    if run != [] {
      StaysInitialised(Emitted(s, run[0]).1, run[1..]);
    }
  }

  lemma ControlKeepsTime(s: State, e: Emission)
    requires s.initialised
    ensures var (frames, s') := Emitted(s, e);
            && s'.lastStatus == (if exists f <- frames :: f.Status? then e.now else s.lastStatus)
            && e.now - s'.lastStatus < STATUS_INTERVAL
  {
    var (frames, s') := Emitted(s, e);
    if ModeFor(e.ref) != s.currentMode || e.now - s.lastStatus >= STATUS_INTERVAL {
      assert frames[0].Status? && frames[0] in frames;
    }
  }
}
