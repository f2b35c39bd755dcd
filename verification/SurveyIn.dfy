/**
  The survey-in transaction: cache the receiver's TMODE, write the survey configuration, poll until
  the survey converges, and otherwise (or in an ephemeral run) write the cached payload back.
 */
module SurveyIn {
  import opened Words
  import opened Wrappers
  import opened Ubx
  import opened Tmode
  import opened Device
  import opened WriteVerify

  // ---------- the survey loop ----------

  datatype SurveyError =
    | UnknownGeneration
    | ReadBeforeWrite(why: Failure)
    | Config(why: Failure)
    | TimedOut
    | Interrupted
    | PollFailed(why: Failure)
    | RollbackError(cause: Option<SurveyError>, why: Failure)

  const CLASS_NAV: byte := 0x01
  const CLASS_TIM: byte := 0x0D
  const ID_NAV_SVIN: byte := 0x3B
  const ID_TIM_SVIN: byte := 0x04

  function SvinClass(gen: Generation): (cls: byte) { if gen == M8 then CLASS_TIM else CLASS_NAV }

  function SvinId(gen: Generation): (id: byte) { if gen == M8 then ID_TIM_SVIN else ID_NAV_SVIN }

  function SvinPoll(gen: Generation, link: Link): (r: (Result<Reply, Failure>, Link)) {
    Poll(link, SvinClass(gen), SvinId(gen))
  }

  // The progress of a survey.  The accuracy is what the receiver reports: a variance in square millimetres on
  // M8, tenths of millimetres on F9.
  datatype SvinStatus = SvinStatus(duration: uint32, observations: uint32, accuracy: uint32, active: bool, valid: bool,
                                   mean: (int, int, int), meanHP: (int, int, int))

  const NO_STATUS := SvinStatus(0, 0, 0, false, false, (0, 0, 0), (0, 0, 0))

  // ParseSVIN: None for a payload that is too short.
  function ParseSvin(gen: Generation, p: seq<byte>): (st: Option<SvinStatus>) {
    match gen
    case M8 =>
      if |p| < 28 then None
      else Some(SvinStatus(Unsigned32At(p, 0), Unsigned32At(p, 20), Unsigned32At(p, 16), p[25] != 0, p[24] != 0,
                           (Signed32At(p, 4), Signed32At(p, 8), Signed32At(p, 12)), (0, 0, 0)))
    case F9 =>
      if |p| < 40 then None
      else Some(SvinStatus(Unsigned32At(p, 8), Unsigned32At(p, 32), Unsigned32At(p, 28), p[37] != 0, p[36] != 0,
                           (Signed32At(p, 12), Signed32At(p, 16), Signed32At(p, 20)),
                           (Signed8(p[24]), Signed8(p[25]), Signed8(p[26]))))
    case Unknown => None
  }

  predicate Converged(st: SvinStatus) { st.valid && !st.active }

  lemma WritesBack32(b: seq<byte>, i: nat)
    requires i + 4 <= |b|
    ensures LittleEndian32(Unsigned32At(b, i)) == b[i..i + 4]
    ensures -0x8000_0000 <= Signed32At(b, i) < 0x8000_0000 && Signed32At(b, i) % TWO_32 == Unsigned32At(b, i)
  {
    var n := Unsigned32At(b, i) as int;
    assert n % 256 == b[i];
    assert n / 256 == b[i + 1] as int + 256 * b[i + 2] as int + 65536 * b[i + 3] as int;
    assert n / 65536 == b[i + 2] as int + 256 * b[i + 3] as int;
    assert n / 16777216 == b[i + 3];
  }

  // Four bytes of a payload hold a number, little end first, negative numbers in two's complement.
  predicate Holds(p: seq<byte>, i: nat, n: int) {
    i + 4 <= |p| && p[i..i + 4] == LittleEndian32(n % TWO_32)
  }

  /** What a report says, byte by byte: it is readable exactly if it is long enough, and then its numbers are those
      at their places. */
  lemma TimSvinInBytes(p: seq<byte>)
    ensures ParseSvin(M8, p).Some? <==> |p| >= 28
    ensures ParseSvin(M8, p).Some? ==>
      var st := ParseSvin(M8, p).value;
      var (x, y, z) := st.mean;
      && (forall n :: n in [x, y, z] ==> -0x8000_0000 <= n < 0x8000_0000)
      && Holds(p, 0, st.duration) && Holds(p, 4, x) && Holds(p, 8, y) && Holds(p, 12, z)
      && Holds(p, 16, st.accuracy) && Holds(p, 20, st.observations)
      && (st.valid <==> p[24] != 0) && (st.active <==> p[25] != 0) && st.meanHP == (0, 0, 0)
  {
    hide LittleEndian32, Unsigned32At, Signed32At;
    if |p| >= 28 {
      WritesBack32(p, 0);
      WritesBack32(p, 4);
      WritesBack32(p, 8);
      WritesBack32(p, 12);
      WritesBack32(p, 16);
      WritesBack32(p, 20);
    }
  }

  lemma NavSvinInBytes(p: seq<byte>)
    ensures ParseSvin(F9, p).Some? <==> |p| >= 40
    ensures ParseSvin(F9, p).Some? ==>
      var st := ParseSvin(F9, p).value;
      var (x, y, z) := st.mean;
      var (hx, hy, hz) := st.meanHP;
      && (forall n :: n in [x, y, z] ==> -0x8000_0000 <= n < 0x8000_0000)
      && Holds(p, 8, st.duration) && Holds(p, 12, x) && Holds(p, 16, y) && Holds(p, 20, z)
      && (forall n :: n in [hx, hy, hz] ==> -128 <= n < 128)
      && p[24] == hx % 256 && p[25] == hy % 256 && p[26] == hz % 256
      && Holds(p, 28, st.accuracy) && Holds(p, 32, st.observations)
      && (st.valid <==> p[36] != 0) && (st.active <==> p[37] != 0)
  {
    hide LittleEndian32, Unsigned32At, Signed32At;
    if |p| >= 40 {
      WritesBack32(p, 8);
      WritesBack32(p, 12);
      WritesBack32(p, 16);
      WritesBack32(p, 20);
      WritesBack32(p, 28);
      WritesBack32(p, 32);
    }
  }

  // One turn of the loop: the poll said converged or not, or nothing usable, or the survey is over.
  datatype Turn = Report(converged: bool) | Nothing | Over(error: SurveyError)

  function TurnOf(gen: Generation, r: Result<Reply, Failure>): (res: Turn) {
    match r
    case Ok(reply) =>
      (match ParseSvin(gen, reply.frame.payload)
       case None => Nothing
       case Some(st) => Report(Converged(st)))
    case Err(Wait(CallDeadline)) => Nothing
    case Err(Wait(SurveyDeadline)) => Over(TimedOut)
    case Err(Wait(Cancelled)) => Over(Interrupted)
    case Err(f) => Over(PollFailed(f))
  }

  function SurveyLoop(gen: Generation, link: Link, prevConverged: bool): (r: (Option<SurveyError>, Link))
    ensures r.1.config == link.config
    decreases |link.script|
  {
    var (r, l) := SvinPoll(gen, link);
    var turn := TurnOf(gen, r);
    var converged := turn == Report(true);
    if turn.Over? then (Some(turn.error), l)
    else if converged && prevConverged then (None, l)
    else match link.Next().pause
      case DeadlinePassed => (Some(TimedOut), l)
      case Interrupt => (Some(Interrupted), l)
      case Tick => SurveyLoop(gen, l, converged)
  }

  // ---------- one turn of it, in terms of what arrives ----------

  // A frame that is taken for the answer: one the receiver sends for this poll, or any other TIM-SVIN or NAV-SVIN.
  predicate IsSvin(gen: Generation, a: Arrival) {
    a.Current? ||
    (if gen == M8 then a.frame.cls == 0x0D && a.frame.id == 0x04 else a.frame.cls == 0x01 && a.frame.id == 0x3B)
  }

  function PayloadOf(a: Arrival): (p: seq<byte>) { if a.Current? then a.status else a.frame.payload }

  // Valid is set and active is not.
  predicate BytesSayConverged(gen: Generation, p: seq<byte>) {
    if gen == M8 then |p| >= 28 && p[24] != 0 && p[25] == 0 else |p| >= 40 && p[36] != 0 && p[37] == 0
  }

  lemma {:induction false} FirstSvin(gen: Generation, link: Link, arrivals: seq<Arrival>)
    requires gen != Unknown
    ensures var r := FirstWanted(arrivals, Frame(SvinClass(gen), SvinId(gen), []), link.config,
                                 AnswerTo(SvinClass(gen), SvinId(gen)));
            if r.None? then forall a <- arrivals :: !IsSvin(gen, a)
            else exists k :: 0 <= k < |arrivals| && IsSvin(gen, arrivals[k]) &&
                   r.value.frame.payload == PayloadOf(arrivals[k]) &&
                   forall j :: 0 <= j < k ==> !IsSvin(gen, arrivals[j])
  {
    if arrivals != [] && !IsSvin(gen, arrivals[0]) {
      FirstSvin(gen, link, arrivals[1..]);
      var r := FirstWanted(arrivals[1..], Frame(SvinClass(gen), SvinId(gen), []), link.config,
                           AnswerTo(SvinClass(gen), SvinId(gen)));
      if r.Some? {
        var k :| 0 <= k < |arrivals| - 1 && IsSvin(gen, arrivals[1..][k]) &&
                 r.value.frame.payload == PayloadOf(arrivals[1..][k]) &&
                 forall j :: 0 <= j < k ==> !IsSvin(gen, arrivals[1..][j]);
        assert IsSvin(gen, arrivals[k + 1]);
        forall j | 0 <= j < k + 1
          ensures !IsSvin(gen, arrivals[j])
        {
          assert j > 0 ==> arrivals[j] == arrivals[1..][j - 1];
        }
      } else {
        assert forall a <- arrivals :: a == arrivals[0] || a in arrivals[1..];
      }
    }
  }

  /** A poll that nothing answers.  If only its own deadline passed, the streak is broken and the loop goes on at the
      next tick; the survey's deadline, a cancellation and a failure of the link end it, each with its own error. */
  lemma UnansweredTurn(gen: Generation, link: Link, prev: bool)
    requires gen != Unknown && link.script != []
    requires !link.script[0].sent || forall a <- link.script[0].arrivals :: !IsSvin(gen, a)
    ensures var (ex, rest) := (link.script[0], Link(link.config, link.script[1..]));
            SurveyLoop(gen, link, prev) ==
            if !ex.sent then (Some(PollFailed(NotSent)), rest)
            else match ex.ending
              case SurveyDeadline => (Some(TimedOut), rest)
              case Cancelled => (Some(Interrupted), rest)
              case Transport => (Some(PollFailed(Wait(Transport))), rest)
              case CallDeadline =>
                match ex.pause
                case Tick => SurveyLoop(gen, rest, false)
                case DeadlinePassed => (Some(TimedOut), rest)
                case Interrupt => (Some(Interrupted), rest)
  {
    hide FirstWanted;
    FirstSvin(gen, link, link.script[0].arrivals);
  }

  /** A poll that is answered: the first answer counts.  If its bytes say that the survey is valid and over, and so did
      the turn before, the loop succeeds; otherwise it goes on, and an unreadable answer breaks the streak. */
  lemma AnsweredTurn(gen: Generation, link: Link, prev: bool, k: nat)
    requires gen != Unknown && link.script != [] && link.script[0].sent
    requires k < |link.script[0].arrivals| && IsSvin(gen, link.script[0].arrivals[k])
    requires forall j :: 0 <= j < k ==> !IsSvin(gen, link.script[0].arrivals[j])
    ensures var (ex, rest) := (link.script[0], Link(link.config, link.script[1..]));
            var now := BytesSayConverged(gen, PayloadOf(ex.arrivals[k]));
            SurveyLoop(gen, link, prev) ==
            if now && prev then (None, rest)
            else match ex.pause
              case Tick => SurveyLoop(gen, rest, now)
              case DeadlinePassed => (Some(TimedOut), rest)
              case Interrupt => (Some(Interrupted), rest)
  {
    hide FirstWanted;
    FirstSvin(gen, link, link.script[0].arrivals);
    assert link.script[0].arrivals[k] in link.script[0].arrivals;
  }

  // The replies a survey from link takes: all that are gone when it is done.
  function RepliesTaken(gen: Generation, link: Link, done: Link): (a: seq<Result<Reply, Failure>>)
    requires |done.script| <= |link.script|
  {
    Answers(gen, link)[..|link.script| - |done.script|]
  }

  // The status of the last reply that could be read.
  function LastStatus(gen: Generation, answers: seq<Result<Reply, Failure>>): (st: SvinStatus) {
    if answers == [] then NO_STATUS
    else
      var n := |answers| - 1;
      var a := answers[n];
      var parsed := if a.Ok? then ParseSvin(gen, a.value.frame.payload) else None;
      if parsed.Some? then parsed.value else LastStatus(gen, answers[..n])
  }

  method PollUntilConverged(gen: Generation, dc: DeviceClient) returns (e: Option<SurveyError>, status: SvinStatus)
    modifies dc
    ensures (e, dc.View()) == SurveyLoop(gen, old(dc.View()), false)
    ensures |dc.script| <= |old(dc.script)|
    ensures status == LastStatus(gen, RepliesTaken(gen, old(dc.View()), dc.View()))
  {
    hide ParseSvin, LastStatus, Answers, RepliesTaken;
    ghost var start := dc.View();
    NothingTaken(gen, start);
    status := NO_STATUS;
    var prevConverged := false;
    while true
      invariant SurveyLoop(gen, dc.View(), prevConverged) == SurveyLoop(gen, start, false)
      invariant |dc.script| <= |start.script|
      invariant Answers(gen, dc.View()) == Answers(gen, start)[|start.script| - |dc.script|..]
      invariant status == LastStatus(gen, RepliesTaken(gen, start, dc.View()))
      decreases |dc.script|
    {
      ghost var before := dc.View();
      var resp, pause := dc.SendAndAwaitResponse(Frame(SvinClass(gen), SvinId(gen), []), SvinClass(gen), SvinId(gen));
      OneMoreReply(gen, start, before);
      if resp.Err? {
        var turn := TurnOf(gen, resp);
        if turn.Over? {
          return Some(turn.error), status;
        }
        prevConverged := false;
      } else {
        var st := ParseSvin(gen, resp.value.frame.payload);
        if st.None? {
          prevConverged := false;
        } else {
          status := st.value;
          if Converged(status) && prevConverged {
            return None, status;
          }
          prevConverged := Converged(status);
        }
      }
      match pause
      case DeadlinePassed => return Some(TimedOut), status;
      case Interrupt => return Some(Interrupted), status;
      case Tick =>
    }
  }

  lemma NothingTaken(gen: Generation, start: Link)
    ensures LastStatus(gen, RepliesTaken(gen, start, start)) == NO_STATUS
    ensures Answers(gen, start) == Answers(gen, start)[0..]
  {
  }

  lemma NextAnswer(gen: Generation, link: Link)
    requires link.script != []
    ensures var (reply, after) := SvinPoll(gen, link);
            after == link.Rest() && Answers(gen, link) == [reply] + Answers(gen, after)
  {
  }

  lemma LastStatusStep(gen: Generation, answers: seq<Result<Reply, Failure>>, a: Result<Reply, Failure>)
    ensures var st := if a.Ok? then ParseSvin(gen, a.value.frame.payload) else None;
            LastStatus(gen, answers + [a]) == if st.Some? then st.value else LastStatus(gen, answers)
  {
    assert (answers + [a])[..|answers|] == answers;
  }

  lemma NothingMore(gen: Generation, link: Link)
    requires link.script == []
    ensures SvinPoll(gen, link).0.Err? && SvinPoll(gen, link).1.script == []
  {
  }

  lemma OneMoreReply(gen: Generation, start: Link, before: Link)
    requires |before.script| <= |start.script|
    requires Answers(gen, before) == Answers(gen, start)[|start.script| - |before.script|..]
    ensures var (reply, after) := SvinPoll(gen, before);
            var st := if reply.Ok? then ParseSvin(gen, reply.value.frame.payload) else None;
            LastStatus(gen, RepliesTaken(gen, start, after)) ==
            if st.Some? then st.value else LastStatus(gen, RepliesTaken(gen, start, before))
    ensures var after := SvinPoll(gen, before).1;
            Answers(gen, after) == Answers(gen, start)[|start.script| - |after.script|..]
  {
    hide ParseSvin, LastStatus, Answers, FirstWanted;
    if before.script == [] {
      NothingMore(gen, before);
    } else {
      var all, k := Answers(gen, start), |start.script| - |before.script|;
      NextAnswer(gen, before);
      assert all[k] == all[k..][0];
      assert all[..k + 1] == all[..k] + [all[k]];
      assert all[k..][1..] == all[k + 1..];
      LastStatusStep(gen, all[..k], all[k]);
    }
  }

  // What each turn of the survey would bring, were it reached, and what follows it.
  function Turns(gen: Generation, link: Link): (t: seq<(Turn, Pause)>)
    ensures |t| == |link.script|
    decreases |link.script|
  {
    if link.script == [] then []
    else [(TurnOf(gen, SvinPoll(gen, link).0), link.Next().pause)] + Turns(gen, link.Rest())
  }

  // The n-th turn reports convergence, and so did the one before it (prev: the one before the first).
  predicate TwoInARow(t: seq<(Turn, Pause)>, prev: bool, n: nat)
    requires 1 <= n <= |t|
  {
    t[n - 1].0 == Report(true) && if n == 1 then prev else t[n - 2].0 == Report(true)
  }

  // Two reports in a row are complete, for the first time, after n turns; nothing ended the survey before.
  ghost predicate FirstPairAfter(t: seq<(Turn, Pause)>, prev: bool, n: nat) {
    && 1 <= n <= |t|
    && TwoInARow(t, prev, n)
    && (forall m :: 1 <= m < n ==> !TwoInARow(t, prev, m))
    && (forall j :: 0 <= j < n - 1 ==> !t[j].0.Over? && t[j].1 == Tick)
  }

  lemma FirstPairShift(t: seq<(Turn, Pause)>, prev: bool, n: nat)
    requires t != [] && !TwoInARow(t, prev, 1) && !t[0].0.Over? && t[0].1 == Tick
    ensures FirstPairAfter(t[1..], t[0].0 == Report(true), n) ==> FirstPairAfter(t, prev, n + 1)
    ensures FirstPairAfter(t, prev, n + 1) ==> n >= 1 && FirstPairAfter(t[1..], t[0].0 == Report(true), n)
  {
    var c, u := t[0].0 == Report(true), t[1..];
    assert forall m :: 1 <= m <= |u| ==> TwoInARow(u, c, m) == TwoInARow(t, prev, m + 1);
    if FirstPairAfter(u, c, n) {
      forall m | 1 <= m < n + 1
        ensures !TwoInARow(t, prev, m)
      {
        if m > 1 {
          assert !TwoInARow(u, c, m - 1);
        }
      }
      assert forall j :: 1 <= j < n ==> t[j] == u[j - 1];
    }
  }

  lemma FirstPairWithin(t: seq<(Turn, Pause)>, prev: bool, n: nat)
    ensures FirstPairAfter(t, prev, n) ==> 1 <= n <= |t|
  {
  }

  lemma FirstTurnDecides(t: seq<(Turn, Pause)>, prev: bool, n: nat)
    requires t != [] && (t[0].0.Over? || t[0].1 != Tick || TwoInARow(t, prev, 1))
    ensures FirstPairAfter(t, prev, n) <==> n == 1 && TwoInARow(t, prev, 1)
  {
  }

  lemma SilenceEndsSurvey(gen: Generation, link: Link, prev: bool)
    requires link.script == []
    ensures SurveyLoop(gen, link, prev).0.Some?
  {
  }

  // One turn decides, or the loop goes on with the rest.
  lemma SurveyStep(gen: Generation, link: Link, prev: bool)
    requires link.script != []
    ensures var (t, c) := (Turns(gen, link), Turns(gen, link)[0].0 == Report(true));
            && t[1..] == Turns(gen, link.Rest())
            && if t[0].0.Over? || (!(c && prev) && t[0].1 != Tick) then
                 SurveyLoop(gen, link, prev).0.Some?
               else
                 SurveyLoop(gen, link, prev) ==
                 if c && prev then (None, link.Rest()) else SurveyLoop(gen, link.Rest(), c)
  {
  }

  /** The loop succeeds exactly at the first two turns in a row that both report convergence: a lost poll
      or an unreadable reply breaks the streak, and no exchange beyond the second report is used. */
  lemma {:induction false} SurveySucceedsAtFirstPair(gen: Generation, link: Link, prev: bool, n: nat)
    ensures var (e, l) := SurveyLoop(gen, link, prev);
            FirstPairAfter(Turns(gen, link), prev, n) <==> e.None? && |l.script| + n == |link.script|
    decreases |link.script|
  {
    hide FirstPairAfter, SurveyLoop, Turns;
    var t := Turns(gen, link);
    FirstPairWithin(t, prev, n);
    if link.script == [] {
      SilenceEndsSurvey(gen, link, prev);
    } else {
      var c := t[0].0 == Report(true);
      SurveyStep(gen, link, prev);
      if !t[0].0.Over? && t[0].1 == Tick && !(c && prev) {
        SurveyLoopShrinks(gen, link.Rest(), c);
        if n >= 1 {
          FirstPairShift(t, prev, n - 1);
          SurveySucceedsAtFirstPair(gen, link.Rest(), c, n - 1);
        }
      } else {
        FirstTurnDecides(t, prev, n);
      }
    }
  }

  lemma {:induction false} SurveyLoopShrinks(gen: Generation, link: Link, prev: bool)
    ensures var (e, l) := SurveyLoop(gen, link, prev);
            |l.script| <= |link.script| && (e.None? ==> |l.script| < |link.script|)
    decreases |link.script|
  {
    if link.script != [] {
      SurveyLoopShrinks(gen, link.Rest(), TurnOf(gen, SvinPoll(gen, link).0) == Report(true));
    }
  }

  // The reply each turn would get.
  function Answers(gen: Generation, link: Link): (a: seq<Result<Reply, Failure>>)
    ensures |a| == |link.script|
    decreases |link.script|
  {
    if link.script == [] then []
    else [SvinPoll(gen, link).0] + Answers(gen, link.Rest())
  }

  lemma {:induction false} TurnsReadAnswers(gen: Generation, link: Link, k: nat)
    requires k < |link.script|
    ensures Turns(gen, link)[k].0 == TurnOf(gen, Answers(gen, link)[k])
    decreases |link.script|
  {
    if k > 0 {
      TurnsReadAnswers(gen, link.Rest(), k - 1);
    }
  }

  predicate SaysConverged(gen: Generation, a: Result<Reply, Failure>) {
    a.Ok? && var st := ParseSvin(gen, a.value.frame.payload); st.Some? && Converged(st.value)
  }

  lemma ReportMeansConverged(gen: Generation, link: Link, k: nat)
    requires k < |link.script|
    ensures Turns(gen, link)[k].0 == Report(true) <==> SaysConverged(gen, Answers(gen, link)[k])
  {
    TurnsReadAnswers(gen, link, k);
  }

  /** A successful survey took at least two replies, the last two of which say that the survey is valid and
      over, and so does the status it returns. */
  lemma SurveyEndsWithTwoReports(gen: Generation, link: Link)
    requires SurveyLoop(gen, link, false).0.None?
    ensures var l := SurveyLoop(gen, link, false).1;
            |l.script| + 2 <= |link.script|
            && var a := RepliesTaken(gen, link, l);
            var n := |a|;
            && n >= 2
            && FirstPairAfter(Turns(gen, link), false, n)
            && SaysConverged(gen, a[n - 2]) && SaysConverged(gen, a[n - 1])
            && Converged(LastStatus(gen, a))
  {
    hide SurveyLoop, ParseSvin, Turns;
    SurveyLoopShrinks(gen, link, false);
    var n := |link.script| - |SurveyLoop(gen, link, false).1.script|;
    SurveySucceedsAtFirstPair(gen, link, false, n);
    ReportMeansConverged(gen, link, n - 1);
    ReportMeansConverged(gen, link, n - 2);
  }

  predicate StaleReport(gen: Generation, a: Result<Reply, Failure>) { SaysConverged(gen, a) && !a.value.current }

  // The receiver itself answered the poll of turn k, and its answer says that the survey is valid and over.
  ghost predicate ReceiverSaysConverged(gen: Generation, link: Link, k: nat)
    requires k < |link.script|
  {
    exists a <- link.script[k].arrivals ::
      a.Current? && var st := ParseSvin(gen, a.status); st.Some? && Converged(st.value)
  }

  lemma {:induction false} CurrentReplyIsReceivers(arrivals: seq<Arrival>, cls: byte, id: byte, config: Config)
    requires cls != CLASS_CFG
    ensures var r := FirstWanted(arrivals, Frame(cls, id, []), config, AnswerTo(cls, id));
            r.Some? && r.value.current ==> Current(r.value.frame.payload) in arrivals
  {
    if arrivals != [] {
      CurrentReplyIsReceivers(arrivals[1..], cls, id, config);
    }
  }

  lemma {:induction false} CurrentReportIsReceivers(gen: Generation, link: Link, k: nat)
    requires k < |link.script|
    requires var a := Answers(gen, link)[k]; SaysConverged(gen, a) && a.value.current
    ensures ReceiverSaysConverged(gen, link, k)
    decreases k
  {
    if k > 0 {
      CurrentReportIsReceivers(gen, link.Rest(), k - 1);
    } else {
      CurrentReplyIsReceivers(link.script[0].arrivals, SvinClass(gen), SvinId(gen), link.config);
      assert Current(Answers(gen, link)[0].value.frame.payload) in link.script[0].arrivals;
    }
  }

  /** One stale report cannot end a survey: unless both reports of the pair that ends it are stale, the receiver
      itself said in one of those two turns that the survey is valid and over. */
  lemma OneStaleReportCannotEndSurvey(gen: Generation, link: Link, n: nat)
    requires n >= 2 && FirstPairAfter(Turns(gen, link), false, n)
    requires !(StaleReport(gen, Answers(gen, link)[n - 2]) && StaleReport(gen, Answers(gen, link)[n - 1]))
    ensures ReceiverSaysConverged(gen, link, n - 2) || ReceiverSaysConverged(gen, link, n - 1)
  {
    ReportMeansConverged(gen, link, n - 1);
    ReportMeansConverged(gen, link, n - 2);
    if Answers(gen, link)[n - 1].value.current {
      CurrentReportIsReceivers(gen, link, n - 1);
    } else {
      CurrentReportIsReceivers(gen, link, n - 2);
    }
  }

  // ---------- the transaction ----------

  // ephemeral asks for the old configuration back even after a successful survey.
  datatype Options = Options(minDuration: uint32, accuracyLimit: uint32, ephemeral: bool)

  // cached is None until the read-before-write succeeded.
  datatype Outcome = Outcome(cached: Option<seq<byte>>, status: SvinStatus, rolledBack: bool, rollbackFailed: bool,
                             error: Option<SurveyError>)

  // Everything between the read-before-write and the deferred rollback: the result of the survey, the
  // verification of its configuration, the last status, and the link where it ended.
  datatype Tried = Tried(survey: Option<SurveyError>, configured: Verification, status: SvinStatus, link: Link)

  // The whole run, with the verification of the restored configuration.
  datatype Run = Run(outcome: Outcome, link: Link, tried: Tried, restored: Verification)

  const NOT_ATTEMPTED: Verification := Err(NotSent)

  function ConfigPayload(gen: Generation, opts: Options): (p: seq<byte>)
    requires gen != Unknown
  {
    SurveyInPayload(gen, opts.minDuration, opts.accuracyLimit)
  }

  function TmodePoll(gen: Generation, link: Link): (r: (Result<Reply, Failure>, Link)) {
    Poll(link, CLASS_CFG, PollId(gen))
  }

  function TmodeFrame(gen: Generation, payload: seq<byte>): (f: Frame) { Frame(CLASS_CFG, PollId(gen), payload) }

  // WriteTMODE, with the written payload as the expected one.
  function WriteTmode(gen: Generation, link: Link, payload: seq<byte>): (r: (Verification, Link)) {
    VerifiedWrite(link, TmodeFrame(gen, payload), CLASS_CFG, PollId(gen), Matching(gen, payload))
  }

  function Rollback(gen: Generation, link: Link, cached: seq<byte>): (r: (Verification, Link)) {
    if RestoreFrame(gen, cached).None? then (Err(CannotRestore), link) else WriteTmode(gen, link, cached)
  }

  function Attempt(gen: Generation, opts: Options, link: Link): (t: Tried)
    requires gen != Unknown
  {
    var (configured, l) := WriteTmode(gen, link, ConfigPayload(gen, opts));
    if configured.Err? then Tried(Some(Config(configured.error)), configured, NO_STATUS, l)
    else
      var (survey, l2) := SurveyLoop(gen, l, false);
      SurveyLoopShrinks(gen, l, false);
      Tried(survey, configured, LastStatus(gen, RepliesTaken(gen, l, l2)), l2)
  }

  function Refused(link: Link, e: SurveyError): (r: Run) {
    Run(Outcome(None, NO_STATUS, false, false, Some(e)), link,
        Tried(Some(e), NOT_ATTEMPTED, NO_STATUS, link), NOT_ATTEMPTED)
  }

  function SurveyInRun(gen: Generation, opts: Options, link: Link): (r: Run) {
    if gen == Unknown then Refused(link, UnknownGeneration)
    else
      var (poll, l0) := TmodePoll(gen, link);
      if poll.Err? then Refused(l0, ReadBeforeWrite(poll.error))
      else
        var cached := poll.value.frame.payload;
        var t := Attempt(gen, opts, l0);
        if t.survey.None? && !opts.ephemeral then
          Run(Outcome(Some(cached), t.status, false, false, None), t.link, t, NOT_ATTEMPTED)
        else
          var (restored, l2) := Rollback(gen, t.link, cached);
          var outcome := if restored.Ok? then Outcome(Some(cached), t.status, true, false, t.survey)
                         else Outcome(Some(cached), t.status, false, true,
                                      Some(RollbackError(t.survey, restored.error)));
          Run(outcome, l2, t, restored)
  }

  method RunRollback(gen: Generation, dc: DeviceClient, cached: seq<byte>) returns (r: Verification)
    modifies dc
    ensures (r, dc.View()) == Rollback(gen, old(dc.View()), cached)
    ensures !(gen == M8 && |cached| == 28) && !(gen == F9 && |cached| == 40) ==>
              r == Err(CannotRestore) && dc.View() == old(dc.View())
    ensures (gen == M8 && |cached| == 28) || (gen == F9 && |cached| == 40) ==>
              var id := if gen == M8 then 0x3D else 0x71;
              (r, dc.View()) == VerifiedWrite(old(dc.View()), Frame(0x06, id, cached), 0x06, id, Matching(gen, cached))
  {
    var frame := RestoreFrame(gen, cached);
    if frame.None? {
      return Err(CannotRestore);
    }
    r := WriteAndVerify(dc, frame.value, CLASS_CFG, PollId(gen), Matching(gen, cached));
  }

  // Survey-in proper.  The deferred handler of the original runs after the labelled block.
  method Survey(gen: Generation, opts: Options, dc: DeviceClient) returns (result: Outcome)
    modifies dc
    ensures var run := SurveyInRun(gen, opts, old(dc.View()));
            result == run.outcome && dc.View() == run.link
  {
    if gen == Unknown {
      return Outcome(None, NO_STATUS, false, false, Some(UnknownGeneration));
    }
    var poll, _ := dc.SendAndAwaitResponse(Frame(CLASS_CFG, PollId(gen), []), CLASS_CFG, PollId(gen));
    if poll.Err? {
      return Outcome(None, NO_STATUS, false, false, Some(ReadBeforeWrite(poll.error)));
    }
    var cached := poll.value.frame.payload;
    result := Outcome(Some(cached), NO_STATUS, false, false, None);
    var armed := true;
    label body: {
      var config := ConfigPayload(gen, opts);
      var configured := WriteAndVerify(dc, TmodeFrame(gen, config), CLASS_CFG, PollId(gen), Matching(gen, config));
      if configured.Err? {
        result := result.(error := Some(Config(configured.error)));
        break body;
      }
      var survey, status := PollUntilConverged(gen, dc);
      result := result.(status := status, error := survey);
      if survey.None? && !opts.ephemeral {
        armed := false;
      }
    }
    if !armed {
      return;
    }
    var restored := RunRollback(gen, dc, cached);
    if restored.Err? {
      result := result.(rolledBack := false, rollbackFailed := true,
                        error := Some(RollbackError(result.error, restored.error)));
      return;
    }
    result := result.(rolledBack := true);
  }

  // ---------- how a run ends ----------

  // The link after the configuration was written and verified, where the survey loop starts.
  function AfterConfig(gen: Generation, opts: Options, link: Link): (l: Link)
    requires gen != Unknown
  {
    WriteTmode(gen, TmodePoll(gen, link).1, ConfigPayload(gen, opts)).1
  }

  predicate Committed(o: Outcome) { o.cached.Some? && !o.rolledBack && !o.rollbackFailed }

  /** Once the old configuration is cached, a run ends in exactly one of three ways; before that it leaves
      the receiver alone and reports an error.  A nil error means that the survey converged and the receiver
      was left, or put back, as asked. */
  lemma RunEndsInOneWay(gen: Generation, opts: Options, link: Link)
    ensures var run := SurveyInRun(gen, opts, link);
            var o := run.outcome;
            && (o.cached.None? ==>
                  o.error.Some? && !o.rolledBack && !o.rollbackFailed && run.link.config == link.config)
            && !(o.rolledBack && o.rollbackFailed)
            && (Committed(o) <==> o.cached.Some? && run.tried.survey.None? && !opts.ephemeral)
            && (o.error.None? <==> Committed(o) || (o.rolledBack && opts.ephemeral && run.tried.survey.None?))
            && (o.error.None? ==> Converged(o.status))
    ensures var run := SurveyInRun(gen, opts, link);
            run.tried.survey.None? <==>
              run.tried.configured.Ok? && exists n :: FirstPairAfter(Turns(gen, AfterConfig(gen, opts, link)), false, n)
  {
    hide ParseSvin, LastStatus, RepliesTaken, FirstPairAfter, Turns, VerifiedWrite, Converged, Matching, Rollback;
    if gen != Unknown && TmodePoll(gen, link).0.Ok? {
      var l := AfterConfig(gen, opts, link);
      var (survey, l') := SurveyLoop(gen, l, false);
      SurveyLoopShrinks(gen, l, false);
      SurveySucceedsAtFirstPair(gen, l, false, |l.script| - |l'.script|);
      if survey.None? {
        SurveyEndsWithTwoReports(gen, l);
      }
      forall n | FirstPairAfter(Turns(gen, l), false, n)
        ensures survey.None?
      {
        SurveySucceedsAtFirstPair(gen, l, false, n);
      }
    }
  }

  // "err is nil exactly if the run committed, or was ephemeral and rolled back."
  ghost predicate NilErrorLaw(gen: Generation, opts: Options, link: Link) {
    var o := SurveyInRun(gen, opts, link).outcome;
    o.error.None? <==> Committed(o) || (opts.ephemeral && o.rolledBack)
  }

  /** That law holds of every run exactly without the ephemeral option (or when the generation is unknown and
      nothing is done): with it, for any generation and thresholds, some run is refused its configuration,
      rolls back cleanly, and still reports the refusal. */
  lemma NilErrorLawHoldsExactly(gen: Generation, opts: Options)
    ensures (forall link :: NilErrorLaw(gen, opts, link)) <==> gen == Unknown || !opts.ephemeral
  {
    if gen == Unknown || !opts.ephemeral {
      forall link
        ensures NilErrorLaw(gen, opts, link)
      {
        RunEndsInOneWay(gen, opts, link);
      }
    } else {
      var link := EphemeralFailureIsReported(gen, opts);
      assert !NilErrorLaw(gen, opts, link);
    }
  }

  // ---------- what the receiver is left with ----------

  // The setting a survey is about: CFG-TMODE2 on M8, CFG-TMODE3 on F9.
  function TimeModeIn(gen: Generation, link: Link): (p: seq<byte>) { link.Setting(if gen == M8 then 0x3D else 0x71) }

  // A receiver set to survey, with these limits in its own unit.
  predicate SetToSurvey(gen: Generation, p: seq<byte>, opts: Options) {
    var limits := LittleEndian32(opts.minDuration) + LittleEndian32(opts.accuracyLimit);
    if gen == M8 then |p| == 28 && p[0] == 1 && p[20..28] == limits
    else |p| == 40 && p[2] % 8 == 1 && p[24..32] == limits
  }

  lemma SetToSurveyMeansMatches(gen: Generation, p: seq<byte>, opts: Options)
    requires gen != Unknown
    ensures Matches(gen, p, ConfigPayload(gen, opts)) <==> SetToSurvey(gen, p, opts)
  {
    hide Matches;
    SurveyInMeaning(gen, opts.minDuration, opts.accuracyLimit, p);
  }

  // The link where the rollback starts, if there is one.
  function BeforeRestore(gen: Generation, opts: Options, link: Link): (l: Link)
    requires gen != Unknown
  {
    Attempt(gen, opts, TmodePoll(gen, link).1).link
  }

  /** What the receiver is left with, for every run, unless both replies of a verification are older than its
      write: a committed run leaves the survey configuration and a rolled-back one the cached payload. */
  lemma RunLeavesReceiver(gen: Generation, opts: Options, link: Link)
    requires gen != Unknown
    ensures var run := SurveyInRun(gen, opts, link);
            var left := TimeModeIn(gen, run.link);
            && (Committed(run.outcome) ==>
                  run.tried.configured.Ok? &&
                  (run.tried.configured.value.0.current || run.tried.configured.value.1.current ==>
                     SetToSurvey(gen, left, opts)))
            && (run.outcome.rolledBack ==>
                  run.restored.Ok? &&
                  (run.restored.value.0.current || run.restored.value.1.current ==>
                     Matches(gen, left, run.outcome.cached.value)))
  {
    var (poll, l0) := TmodePoll(gen, link);
    SetToSurveyMeansMatches(gen, TimeModeIn(gen, SurveyInRun(gen, opts, link).link), opts);
    if poll.Ok? {
      var config, cached := ConfigPayload(gen, opts), poll.value.frame.payload;
      VerifiedWriteIsApplied(l0, TmodeFrame(gen, config), PollId(gen), Matching(gen, config));
      VerifiedWriteIsApplied(Attempt(gen, opts, l0).link, TmodeFrame(gen, cached), PollId(gen), Matching(gen, cached));
    }
  }

  /** And exactly: a committed run leaves the survey configuration if and only if the receiver applied the
      configuration write or was configured that way before; a rolled-back run leaves the cached payload if
      and only if the receiver applied the restoring write or had not been moved away from it. */
  lemma RunLeavesReceiverExactly(gen: Generation, opts: Options, link: Link)
    requires gen != Unknown
    ensures var run := SurveyInRun(gen, opts, link);
            var left := TimeModeIn(gen, run.link);
            && (Committed(run.outcome) ==>
                  (SetToSurvey(gen, left, opts) <==>
                     link.Rest().Next().takesEffect || SetToSurvey(gen, TimeModeIn(gen, link), opts)))
            && (run.outcome.rolledBack ==>
                  var (cached, before) := (run.outcome.cached.value, BeforeRestore(gen, opts, link));
                  (Matches(gen, left, cached) <==>
                     before.Next().takesEffect || Matches(gen, TimeModeIn(gen, before), cached)))
  {
    hide SurveyLoop, VerifiedWrite, ParseSvin, LastStatus, RepliesTaken, Matches, SetToSurvey, SurveyInPayload;
    var (poll, l0) := TmodePoll(gen, link);
    SetToSurveyMeansMatches(gen, TimeModeIn(gen, SurveyInRun(gen, opts, link).link), opts);
    SetToSurveyMeansMatches(gen, TimeModeIn(gen, link), opts);
    if poll.Ok? {
      var config, cached := ConfigPayload(gen, opts), poll.value.frame.payload;
      SurveyInMeaning(gen, opts.minDuration, opts.accuracyLimit, config);
      TmodeExpected(gen, config);
      VerifiedWriteLeaves(l0, TmodeFrame(gen, config), Matching(gen, config));
      MalformedCacheCannotBeRestored(gen, opts, link);
      if WellFormed(gen, cached) {
        TmodeExpected(gen, cached);
        VerifiedWriteLeaves(BeforeRestore(gen, opts, link), TmodeFrame(gen, cached), Matching(gen, cached));
      }
    }
  }

  /** Rollback can only succeed on a cached payload that is well formed: the read-before-write does not check. */
  lemma MalformedCacheCannotBeRestored(gen: Generation, opts: Options, link: Link)
    ensures var o := SurveyInRun(gen, opts, link).outcome;
            o.rolledBack ==> o.cached.Some? && WellFormed(gen, o.cached.value)
  {
    if gen != Unknown && TmodePoll(gen, link).0.Ok? {
      var cached := TmodePoll(gen, link).0.value.frame.payload;
      var before := BeforeRestore(gen, opts, link);
      VerifiedWriteIsApplied(before, TmodeFrame(gen, cached), PollId(gen), Matching(gen, cached));
      var r := WriteTmode(gen, before, cached).0;
      if r.Ok? {
        MatchesMeansSameState(gen, r.value.0.frame.payload, cached);
      }
    }
  }

  /** A rolled-back receiver is as it was before the run exactly if the reply that was cached said so. */
  lemma RollbackRestores(gen: Generation, opts: Options, link: Link)
    requires gen != Unknown
    ensures var run := SurveyInRun(gen, opts, link);
            var (was, now) := (TimeModeIn(gen, link), TimeModeIn(gen, run.link));
            run.outcome.rolledBack ==>
              && run.restored.Ok? && run.outcome.cached.Some?
              && (run.restored.value.0.current || run.restored.value.1.current ==>
                    (Matches(gen, now, was) <==> Matches(gen, run.outcome.cached.value, was)))
  {
    hide SurveyInRun;
    var run := SurveyInRun(gen, opts, link);
    MalformedCacheCannotBeRestored(gen, opts, link);
    RunLeavesReceiver(gen, opts, link);
    if run.outcome.rolledBack {
      var cached, was, now := run.outcome.cached.value, TimeModeIn(gen, link), TimeModeIn(gen, run.link);
      MatchesIsEquivalence(gen, now, cached, was);
      MatchesIsEquivalence(gen, cached, now, was);
    }
  }

  // ---------- the limits of these promises ----------

  // A receiver in disabled mode.
  function Disabled(gen: Generation): (p: seq<byte>) { ZeroBytes(Size(gen)) }

  function DisabledLink(gen: Generation, script: seq<Exchange>): (l: Link) {
    Link(map[PollId(gen) := Disabled(gen)], script)
  }

  /** For any generation and any thresholds: an ephemeral run that is refused its configuration, rolls back
      cleanly, and reports the refusal. */
  lemma EphemeralFailureIsReported(gen: Generation, opts: Options) returns (link: Link)
    requires gen != Unknown && opts.ephemeral
    ensures var o := SurveyInRun(gen, opts, link).outcome;
            o.rolledBack && o.error == Some(Config(Nak))
  {
    hide SurveyLoop, ParseSvin, LastStatus, RepliesTaken, VerifiedWrite;
    var id, p := PollId(gen), Disabled(gen);
    var now := Answer(Current([]));
    var refused, accepted := Acknowledge(id, true, false), Acknowledge(id, false, false);
    link := DisabledLink(gen, [now, refused, accepted, now, now]);
    var l1 := DisabledLink(gen, [refused, accepted, now, now]);
    var l2 := DisabledLink(gen, [accepted, now, now]);
    assert link.Rest() == l1 && l1.Rest() == l2;
    RefusedWrite(gen, l1, ConfigPayload(gen, opts));
    CleanRestore(gen, l2);
  }

  lemma RefusedWrite(gen: Generation, link: Link, payload: seq<byte>)
    requires link.script != [] && link.script[0] == Acknowledge(PollId(gen), true, false)
    ensures WriteTmode(gen, link, payload) == (Err(Nak), link.Rest())
  {
    AcknowledgedWrite(link, PollId(gen), payload, true);
  }

  lemma CleanRestore(gen: Generation, link: Link)
    requires gen != Unknown
    requires var now := Answer(Current([]));
             link == DisabledLink(gen, [Acknowledge(PollId(gen), false, false), now, now])
    ensures WriteTmode(gen, link, Disabled(gen)).0.Ok?
  {
    var id, p, now := PollId(gen), Disabled(gen), Answer(Current([]));
    var l := DisabledLink(gen, [now, now]);
    assert link.Rest() == l && l.Rest() == DisabledLink(gen, [now]);
    AcknowledgedWrite(link, id, p, false);
    MatchesIsEquivalence(gen, p, p, p);
    AnsweredSlot(l, id, Current([]), Matching(gen, p));
    AnsweredSlot(l.Rest(), id, Current([]), Matching(gen, p));
  }

  // An answer that says the survey is valid and over.
  function DoneAnswer(gen: Generation): (ex: Exchange) {
    Answer(Current(ZeroBytes(if gen == M8 then 24 else 36) + [1, 0, 0, 0]))
  }

  lemma TwoReportsSucceed(gen: Generation, link: Link)
    requires gen != Unknown && link.script == [DoneAnswer(gen), DoneAnswer(gen)]
    ensures SurveyLoop(gen, link, false) == (None, link.(script := []))
  {
  }

  /** For any generation and any thresholds, two stale replies make a run commit although the receiver never
      took the write ... */
  lemma TwoStaleRepliesDeceive(gen: Generation, opts: Options) returns (link: Link)
    requires gen != Unknown && !opts.ephemeral
    ensures var run := SurveyInRun(gen, opts, link);
            && Committed(run.outcome) && run.outcome.error.None?
            && !SetToSurvey(gen, TimeModeIn(gen, run.link), opts)
  {
    hide ParseSvin, LastStatus, RepliesTaken, SurveyLoop, VerifiedWrite, Deception, Rollback, Matches, SetToSurvey,
         SurveyInPayload;
    var config := ConfigPayload(gen, opts);
    NotDisabled(gen, opts);
    var now, done := Answer(Current([])), [DoneAnswer(gen), DoneAnswer(gen)];
    link := DisabledLink(gen, [now] + (Deception(TmodeFrame(gen, config)) + done));
    var l1 := DisabledLink(gen, Deception(TmodeFrame(gen, config)) + done);
    assert link.Rest() == l1;
    StaleRepliesDeceive(l1, TmodeFrame(gen, config), Matching(gen, config), done);
    TwoReportsSucceed(gen, DisabledLink(gen, done));
    SetToSurveyMeansMatches(gen, TimeModeIn(gen, SurveyInRun(gen, opts, link).link), opts);
  }

  lemma NotDisabled(gen: Generation, opts: Options)
    requires gen != Unknown
    ensures Matches(gen, ConfigPayload(gen, opts), ConfigPayload(gen, opts))
    ensures Matches(gen, Disabled(gen), Disabled(gen)) && !Matches(gen, ConfigPayload(gen, opts), Disabled(gen))
    ensures !Matches(gen, Disabled(gen), ConfigPayload(gen, opts))
  {
    SurveyInMeaning(gen, opts.minDuration, opts.accuracyLimit, ConfigPayload(gen, opts));
  }

  lemma KeptAsWritten(gen: Generation, link: Link, payload: seq<byte>)
    requires gen != Unknown && link.script != [] && link.script[0] == Acknowledge(PollId(gen), true, true)
    ensures Applied(link, TmodeFrame(gen, payload)) == link.config[PollId(gen) := payload]
  {
  }

  /** ... or report a rollback although the receiver still has the survey configuration. */
  lemma TwoStaleRepliesHideFailedRollback(gen: Generation, opts: Options) returns (link: Link)
    requires gen != Unknown
    ensures var run := SurveyInRun(gen, opts, link);
            && run.outcome.rolledBack
            && SetToSurvey(gen, TimeModeIn(gen, run.link), opts)
            && !Matches(gen, TimeModeIn(gen, run.link), run.outcome.cached.value)
  {
    hide SurveyLoop, ParseSvin, LastStatus, RepliesTaken, SetToSurvey, Matches, SurveyInPayload, TmodeApplied;
    var id, config, p := PollId(gen), ConfigPayload(gen, opts), Disabled(gen);
    NotDisabled(gen, opts);
    var now, refused := Answer(Current([])), Acknowledge(id, true, true);
    var trick := Deception(TmodeFrame(gen, p));
    link := DisabledLink(gen, [now] + ([refused] + trick));
    var l1 := DisabledLink(gen, [refused] + trick);
    assert link.Rest() == l1;
    AcknowledgedWrite(l1, id, config, true);
    KeptAsWritten(gen, l1, config);
    var l2 := Write(l1, TmodeFrame(gen, config)).1;
    assert l2.script == trick + [];
    StaleRepliesDeceive(l2, TmodeFrame(gen, p), Matching(gen, p), []);
    SetToSurveyMeansMatches(gen, TimeModeIn(gen, SurveyInRun(gen, opts, link).link), opts);
  }
}
