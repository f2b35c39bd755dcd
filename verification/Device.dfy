/**
  One receiver behind gpsd, as a DeviceClient sees it: commands go out in order, replies come back
  over a channel without request numbers, so an answer to an earlier request can satisfy a later wait.

  What the outside world does is a script, one exchange per request; every theorem is about all scripts.
 */
module Device {
  import opened Words
  import opened Wrappers
  import opened Ubx
  import opened Tmode

  // Which clock ran out, or what else ended a wait without an answer.
  datatype WaitError = CallDeadline | SurveyDeadline | Cancelled | Transport

  // A frame that arrives while waiting: an answer to the poll, generated since the last write, or any
  // other frame (an answer from before that write, an acknowledgement, a broadcast).
  datatype Arrival = Current(status: seq<byte>) | Old(frame: Frame)

  // What the survey loop's select sees between two polls.
  datatype Pause = Tick | DeadlinePassed | Interrupt

  // One request.  takesEffect and after matter for a write: whether the receiver applies it, and what
  // the setting is then.  pause matters to the survey loop only.
  datatype Exchange = Exchange(
    sent: bool, takesEffect: bool, after: seq<byte>,
    arrivals: seq<Arrival>, ending: WaitError, pause: Pause)

  // When the script has run out, nobody answers until the survey deadline.
  const SILENCE := Exchange(true, false, [], [], SurveyDeadline, DeadlinePassed)

  // The receiver's settings, each by the id of the CFG message that writes and reports it.
  type Config = map<byte, seq<byte>>

  function SettingIn(config: Config, id: byte): (s: seq<byte>) { if id in config then config[id] else [] }

  // The receiver's settings, and what is still to happen.
  datatype Link = Link(config: Config, script: seq<Exchange>) {
    function Setting(id: byte): (s: seq<byte>) { SettingIn(config, id) }

    function Next(): (ex: Exchange) { if script == [] then SILENCE else script[0] }

    function Rest(): (l: Link) { this.(script := if script == [] then [] else script[1..]) }
  }

  // Why a request failed.
  datatype Failure = NotSent | Nak | Wait(error: WaitError) | Mismatch | CannotRestore

  // A reply that was taken for the answer, and whether the receiver produced it since the last write.
  datatype Reply = Reply(frame: Frame, current: bool)

  // NAV5: a field is taken from the write if its bit is set in the mask, the first two bytes, and otherwise kept.
  // Dynamic model, minimum elevation and fix mode are bits 0, 1 and 2.
  function Masked(bit: nat, at: nat, before: seq<byte>, written: seq<byte>): (b: byte)
    requires bit > 0 && at < |before| && at < |written|
  {
    if written[0] / bit % 2 == 1 then written[at] else before[at]
  }

  predicate Nav5Applied(before: seq<byte>, setting: seq<byte>, written: seq<byte>) {
    && |before| == |setting| == |written| == 36
    && setting[2] == Masked(1, 2, before, written)
    && setting[12] == Masked(2, 12, before, written)
    && setting[3] == Masked(4, 3, before, written)
  }

  // TP5: the antenna and RF delays and the upper flags may stay, or be set by the firmware; the rest is as written.
  predicate Tp5Applied(setting: seq<byte>, written: seq<byte>) {
    && |setting| == |written| == 32
    && setting[..4] == written[..4] && setting[8..29] == written[8..29]
  }

  // TMODE: the mode, and the fields that mode uses, are as written.
  predicate TmodeApplied(gen: Generation, setting: seq<byte>, written: seq<byte>) {
    WellFormed(gen, setting) && WellFormed(gen, written) && Relevant(gen, setting) == Relevant(gen, written)
  }

  // Whether a receiver that had one value of a setting may have another after it applied a write.
  predicate Implements(id: byte, before: seq<byte>, setting: seq<byte>, written: seq<byte>) {
    if id == ID_CFG_TMODE2 then TmodeApplied(M8, setting, written)
    else if id == ID_CFG_TMODE3 then TmodeApplied(F9, setting, written)
    else if id == ID_CFG_NAV5 then Nav5Applied(before, setting, written)
    else if id == ID_CFG_TP5 then Tp5Applied(setting, written)
    else setting == written
  }

  // One such value: as written, but for what the mask of a NAV5 write leaves alone.
  function Merged(id: byte, before: seq<byte>, written: seq<byte>): (setting: seq<byte>) {
    if id == ID_CFG_NAV5 && |before| == |written| == 36 then
      written[2 := Masked(1, 2, before, written)]
             [12 := Masked(2, 12, before, written)]
             [3 := Masked(4, 3, before, written)]
    else written
  }

  function Applied(link: Link, write: Frame): (config: Config) {
    var ex, before := link.Next(), link.Setting(write.id);
    if !ex.takesEffect || write.cls != CLASS_CFG then link.config
    else link.config[write.id :=
           if Implements(write.id, before, ex.after, write.payload) then ex.after
           else Merged(write.id, before, write.payload)]
  }

  // The answer to a poll: polls of a setting report its current value.
  function Received(a: Arrival, poll: Frame, config: Config): (r: Reply) {
    match a
    case Old(f) => Reply(f, false)
    case Current(status) =>
      Reply(Frame(poll.cls, poll.id, if poll.cls == CLASS_CFG then SettingIn(config, poll.id) else status), true)
  }

  // WaitFor: the first arrival the caller wants; everything before it is discarded.
  function FirstWanted(arrivals: seq<Arrival>, request: Frame, config: Config, want: Frame -> bool): (r: Option<Reply>)
    ensures r.Some? ==> want(r.value.frame)
  {
    if arrivals == [] then None
    else
      var r := Received(arrivals[0], request, config);
      if want(r.frame) then Some(r) else FirstWanted(arrivals[1..], request, config, want)
  }

  function AnswerTo(cls: byte, id: byte): (want: Frame -> bool) {
    (f: Frame) => f.cls == cls && f.id == id
  }

  function AckOf(request: Frame): (want: Frame -> bool) {
    (f: Frame) => var a := f.IsAck(); a.Some? && a.value.0 == request.cls && a.value.1 == request.id
  }

  // Frames already in the channel are leftovers of earlier requests.
  function Leftovers(frames: seq<Frame>): (a: seq<Arrival>)
    ensures |a| == |frames|
  {
    seq(|frames|, k requires 0 <= k < |frames| => Old(frames[k]))
  }

  // SendAndAwaitResponse: a request, and the class and id of the awaited answer.
  function Ask(link: Link, request: Frame, cls: byte, id: byte): (r: (Result<Reply, Failure>, Link)) {
    var ex := link.Next();
    var r := FirstWanted(ex.arrivals, request, link.config, AnswerTo(cls, id));
    (if !ex.sent then Err(NotSent) else if r.Some? then Ok(r.value) else Err(Wait(ex.ending)), link.Rest())
  }

  // A poll, answered under its own class and id.
  function Poll(link: Link, cls: byte, id: byte): (r: (Result<Reply, Failure>, Link)) {
    Ask(link, Frame(cls, id, []), cls, id)
  }

  // SendAndAwaitACK.  A refused or unanswered write may still have been applied.
  function Write(link: Link, write: Frame): (r: (Result<(), Failure>, Link)) {
    var ex := link.Next();
    var r := FirstWanted(ex.arrivals, write, link.config, AckOf(write));
    (if !ex.sent then Err(NotSent)
     else if r.None? then Err(Wait(ex.ending))
     else if r.value.frame.id == ID_ACK_NAK then Err(Nak)
     else Ok(()),
     link.Rest().(config := Applied(link, write)))
  }

  // The frames that arrive in one exchange, in order.
  function Frames(arrivals: seq<Arrival>, request: Frame, config: Config): (f: seq<Reply>)
    ensures |f| == |arrivals|
  {
    seq(|arrivals|, k requires 0 <= k < |arrivals| => Received(arrivals[k], request, config))
  }

  // A current reply is the receiver's own, and reports a setting as it is now; any other was on its way before.
  predicate FromReceiver(reply: Reply, a: Arrival, request: Frame, config: Config) {
    && (reply.current <==> a.Current?)
    && (a.Old? ==> reply.frame == a.frame)
    && (a.Current? ==> reply.frame.cls == request.cls && reply.frame.id == request.id)
    && (a.Current? ==> reply.frame.payload == if request.cls == 0x06 then SettingIn(config, request.id) else a.status)
  }

  // UBX-ACK-ACK or UBX-ACK-NAK, for this class and id.
  predicate Acknowledges(f: Frame, write: Frame) { f.cls == 0x05 && f.payload == [write.cls, write.id] }

  lemma {:induction false} FirstWantedIsFirst(arrivals: seq<Arrival>, request: Frame, config: Config,
                                              want: Frame -> bool)
    ensures var (r, got) := (FirstWanted(arrivals, request, config, want), Frames(arrivals, request, config));
            if r.None? then forall g <- got :: !want(g.frame)
            else exists k :: 0 <= k < |got| && got[k] == r.value && want(got[k].frame) &&
                   forall j :: 0 <= j < k ==> !want(got[j].frame)
  {
    if arrivals != [] {
      var got := Frames(arrivals, request, config);
      assert got[1..] == Frames(arrivals[1..], request, config);
      if want(got[0].frame) {
        assert got[0] == FirstWanted(arrivals, request, config, want).value;
      } else {
        FirstWantedIsFirst(arrivals[1..], request, config, want);
        var r := FirstWanted(arrivals[1..], request, config, want);
        if r.Some? {
          var k :| 0 <= k < |got[1..]| && got[1..][k] == r.value && want(got[1..][k].frame) &&
                   forall j :: 0 <= j < k ==> !want(got[1..][j].frame);
          assert got[k + 1] == r.value;
          forall j | 0 <= j < k + 1
            ensures !want(got[j].frame)
          {
            assert j > 0 ==> got[j] == got[1..][j - 1];
          }
        } else {
          assert forall g <- got :: g == got[0] || g in got[1..];
        }
      }
    }
  }

  // What a write asks for, byte by byte.  TMODE: the mode and the fields it uses.  NAV5: of model, elevation and fix
  // mode those whose bits are set in the mask.  TP5: all but the delays and the upper flags.
  predicate AsWritten(id: byte, before: seq<byte>, setting: seq<byte>, written: seq<byte>) {
    match id
    case 0x3D => Matches(M8, setting, written)
    case 0x71 => Matches(F9, setting, written)
    case 0x24 =>
      && |before| == |setting| == |written| == 36
      && setting[2] == (if written[0] % 2 == 1 then written else before)[2]
      && setting[12] == (if written[0] % 4 >= 2 then written else before)[12]
      && setting[3] == (if written[0] % 8 >= 4 then written else before)[3]
    case 0x31 =>
      && |setting| == |written| == 32
      && (forall i :: 0 <= i < 29 && !(4 <= i < 8) ==> setting[i] == written[i])
    case _ => setting == written
  }

  lemma ImplementsMeansAsWritten(id: byte, before: seq<byte>, setting: seq<byte>, written: seq<byte>)
    ensures Implements(id, before, setting, written) <==> AsWritten(id, before, setting, written)
  {
    hide Matches, Relevant, TimeMode, Tp5Applied;
    if id == ID_CFG_TP5 {
      Tp5InBytes(setting, written);
    } else {
      MatchesMeansSameState(M8, setting, written);
      MatchesMeansSameState(F9, setting, written);
    }
  }

  lemma Tp5InBytes(setting: seq<byte>, written: seq<byte>)
    ensures Tp5Applied(setting, written) <==>
            && |setting| == |written| == 32
            && (forall i :: 0 <= i < 29 && !(4 <= i < 8) ==> setting[i] == written[i])
  {
    if Tp5Applied(setting, written) {
      forall i | 0 <= i < 29 && !(4 <= i < 8)
        ensures setting[i] == written[i]
      {
        if i < 4 {
          assert setting[..4][i] == written[..4][i];
        } else {
          assert setting[8..29][i - 8] == written[8..29][i - 8];
        }
      }
    }
  }

  /** A write that takes effect changes one setting.  The receiver may keep any value that is as written, and keeps
      such a value if there is one; a payload that asks for nothing possible is kept as it is. */
  lemma WriteLeaves(link: Link, write: Frame)
    requires write.cls == CLASS_CFG
    ensures !link.Next().takesEffect ==> Applied(link, write) == link.config
    ensures link.Next().takesEffect ==>
              var (before, kept) := (link.Setting(write.id), SettingIn(Applied(link, write), write.id));
              && (forall id :: id != write.id ==> SettingIn(Applied(link, write), id) == link.Setting(id))
              && (AsWritten(write.id, before, link.Next().after, write.payload) ==> kept == link.Next().after)
              && (AsWritten(write.id, before, kept, write.payload)
                  || (kept == write.payload && forall s :: !AsWritten(write.id, before, s, write.payload)))
  {
    var id, before, p := write.id, link.Setting(write.id), write.payload;
    ImplementsMeansAsWritten(id, before, link.Next().after, p);
    ImplementsMeansAsWritten(id, before, Merged(id, before, p), p);
    if !AsWritten(id, before, Merged(id, before, p), p) {
      NothingAsWritten(id, before, p);
    }
  }

  lemma NothingAsWritten(id: byte, before: seq<byte>, written: seq<byte>)
    requires !AsWritten(id, before, Merged(id, before, written), written)
    ensures Merged(id, before, written) == written
    ensures forall s :: !AsWritten(id, before, s, written)
  {
    hide Matches, WellFormed;
    forall s
      ensures !AsWritten(id, before, s, written)
    {
      MatchesIsEquivalence(M8, s, written, s);
      MatchesIsEquivalence(F9, s, written, s);
      MatchesIsEquivalence(M8, written, s, written);
      MatchesIsEquivalence(F9, written, s, written);
    }
  }

  lemma FramesAreReceived(arrivals: seq<Arrival>, request: Frame, config: Config)
    ensures var got := Frames(arrivals, request, config);
            forall k :: 0 <= k < |got| ==> FromReceiver(got[k], arrivals[k], request, config)
  {
  }

  // The channel holds the first sixteen of these frames.
  ghost predicate Buffered(incoming: seq<Frame>, rest: seq<Reply>) {
    && |incoming| == (if |rest| < 16 then |rest| else 16)
    && forall k :: 0 <= k < |incoming| ==> incoming[k] == rest[k].frame
  }

  lemma AckMeansAcknowledges(write: Frame)
    ensures forall f: Frame :: AckOf(write)(f) <==> Acknowledges(f, write)
  {
  }

  class DeviceClient {
    var config: Config
    var script: seq<Exchange>
    // Frames buffered from earlier requests.
    var incoming: seq<Frame>

    function View(): (l: Link)
      reads this
    {
      Link(config, script)
    }

    method Drain() returns (n: nat)
      modifies this`incoming
      ensures incoming == [] && n == |old(incoming)|
    {
      n := 0;
      while incoming != []
        invariant n + |incoming| == |old(incoming)|
      {
        incoming := incoming[1..];
        n := n + 1;
      }
    }

    // Waits among the buffered frames, then among the arrivals; what follows the match stays buffered, as far
    // as the channel has room.
    method WaitFor(arrivals: seq<Arrival>, request: Frame, want: Frame -> bool) returns (r: Option<Reply>)
      modifies this`incoming
      ensures r == FirstWanted(Leftovers(old(incoming)) + arrivals, request, config, want)
      ensures var got := Frames(Leftovers(old(incoming)) + arrivals, request, config);
              if r.None? then incoming == [] && forall g <- got :: !want(g.frame)
              else exists k :: 0 <= k < |got| && got[k] == r.value && want(r.value.frame) &&
                     (forall j :: 0 <= j < k ==> !want(got[j].frame)) && Buffered(incoming, got[k + 1..])
    {
      var all := Leftovers(incoming) + arrivals;
      ghost var got := Frames(all, request, config);
      var i := 0;
      while i < |all|
        invariant i <= |all|
        invariant forall j :: 0 <= j < i ==> !want(got[j].frame)
        invariant FirstWanted(all[i..], request, config, want) == FirstWanted(all, request, config, want)
      {
        var reply := Received(all[i], request, config);
        if want(reply.frame) {
          r := Some(reply);
          var left, now := |all| - (i + 1), config;
          incoming := seq(if left < 16 then left else 16, k requires 0 <= k < left =>
                          Received(all[i + 1 + k], request, now).frame);
          assert got[i] == r.value && Buffered(incoming, got[i + 1..]);
          return;
        }
        i := i + 1;
      }
      incoming := [];
      r := None;
    }

    method TakeExchange() returns (ex: Exchange)
      modifies this`script
      ensures ex == old(View()).Next() && View() == old(View()).Rest()
    {
      ex := View().Next();
      script := View().Rest().script;
    }

    method SendAndAwaitResponse(request: Frame, cls: byte, id: byte) returns (r: Result<Reply, Failure>, pause: Pause)
      modifies this
      ensures (r, View()) == Ask(old(View()), request, cls, id)
      ensures pause == old(View()).Next().pause
      // The first frame of the awaited class and id, if one arrives, and no other.
      ensures var ex := old(View()).Next();
              var got := Frames(ex.arrivals, request, old(config));
              match r
              case Ok(reply) =>
                && ex.sent && reply.frame.cls == cls && reply.frame.id == id
                && exists k :: 0 <= k < |got| && got[k] == reply &&
                     FromReceiver(reply, ex.arrivals[k], request, old(config)) &&
                     forall j :: 0 <= j < k ==> got[j].frame.cls != cls || got[j].frame.id != id
              case Err(f) =>
                if !ex.sent then f == NotSent
                else f == Wait(ex.ending) && forall g <- got :: g.frame.cls != cls || g.frame.id != id
    {
      hide FirstWanted, Received, FromReceiver, Buffered;
      var _ := Drain();
      var ex := TakeExchange();
      pause := ex.pause;
      if !ex.sent {
        return Err(NotSent), ex.pause;
      }
      assert Leftovers([]) + ex.arrivals == ex.arrivals;
      var reply := WaitFor(ex.arrivals, request, AnswerTo(cls, id));
      FirstWantedIsFirst(ex.arrivals, request, config, AnswerTo(cls, id));
      FramesAreReceived(ex.arrivals, request, config);
      r := if reply.Some? then Ok(reply.value) else Err(Wait(ex.ending));
    }

    method SendAndAwaitACK(write: Frame) returns (r: Result<(), Failure>)
      modifies this
      ensures (r, View()) == Write(old(View()), write)
      // The first acknowledgement or refusal that names the class and id of the write decides.
      ensures var ex := old(View()).Next();
              var got := Frames(ex.arrivals, write, old(config));
              if !ex.sent then r == Err(NotSent)
              else if forall g <- got :: !Acknowledges(g.frame, write) then r == Err(Wait(ex.ending))
              else exists k :: 0 <= k < |got| && Acknowledges(got[k].frame, write) &&
                     (forall j :: 0 <= j < k ==> !Acknowledges(got[j].frame, write)) &&
                     r == if got[k].frame.id == 0x00 then Err(Nak) else Ok(())
    {
      hide FirstWanted, Received, Applied, FromReceiver, Buffered;
      var _ := Drain();
      var before := View();
      var ex := TakeExchange();
      if !ex.sent {
        config := Applied(before, write);
        return Err(NotSent);
      }
      assert Leftovers([]) + ex.arrivals == ex.arrivals;
      var reply := WaitFor(ex.arrivals, write, AckOf(write));
      FirstWantedIsFirst(ex.arrivals, write, before.config, AckOf(write));
      AckMeansAcknowledges(write);
      config := Applied(before, write);
      if reply.None? {
        return Err(Wait(ex.ending));
      }
      var ack := reply.value.frame.IsAck();
      r := if ack.value.2 then Err(Nak) else Ok(());
    }
  }
}
