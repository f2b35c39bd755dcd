/**
  Writing a setting and reading it back.  Acknowledgements and answers carry no request numbers, so a write
  counts as applied only when two separate polls in a row, each with one retry, show the new value.
 */
module WriteVerify {
  import opened Words
  import opened Wrappers
  import opened Ubx
  import opened Tmode
  import opened Device

  // What a caller passes to compare a poll's answer with what it wants.
  type Check = seq<byte> -> bool

  // writeVerifySlot: one poll, and one more if the first reply did not match.
  function Slot(link: Link, cls: byte, id: byte, check: Check): (r: (Result<Reply, Failure>, Link)) {
    var (r, l) := Poll(link, cls, id);
    if r.Err? || check(r.value.frame.payload) then (r, l)
    else
      var (r2, l2) := Poll(l, cls, id);
      (if r2.Err? || check(r2.value.frame.payload) then r2 else Err(Mismatch), l2)
  }

  // The two accepted replies, or why the write is not known to be applied.
  type Verification = Result<(Reply, Reply), Failure>

  function VerifiedWrite(link: Link, frame: Frame, cls: byte, id: byte, check: Check): (r: (Verification, Link)) {
    var (ack, l0) := Write(link, frame);
    if ack.Err? then (Err(ack.error), l0)
    else
      var (first, l1) := Slot(l0, cls, id, check);
      if first.Err? then (Err(first.error), l1)
      else
        var (second, l2) := Slot(l1, cls, id, check);
        (if second.Err? then Err(second.error) else Ok((first.value, second.value)), l2)
  }

  method WriteVerifySlot(dc: DeviceClient, cls: byte, id: byte, check: Check) returns (r: Result<Reply, Failure>)
    modifies dc
    ensures (r, dc.View()) == Slot(old(dc.View()), cls, id, check)
  {
    var pollFrame := Frame(cls, id, []);
    var resp, _ := dc.SendAndAwaitResponse(pollFrame, cls, id);
    if resp.Err? {
      return resp;
    }
    if check(resp.value.frame.payload) {
      return resp;
    }
    var _ := dc.Drain();
    var resp2, _ := dc.SendAndAwaitResponse(pollFrame, cls, id);
    if resp2.Err? {
      return resp2;
    }
    if !check(resp2.value.frame.payload) {
      return Err(Mismatch);
    }
    r := resp2;
  }

  method WriteAndVerify(dc: DeviceClient, frame: Frame, cls: byte, id: byte, check: Check) returns (r: Verification)
    modifies dc
    ensures (r, dc.View()) == VerifiedWrite(old(dc.View()), frame, cls, id, check)
  {
    var ack := dc.SendAndAwaitACK(frame);
    if ack.Err? {
      return Err(ack.error);
    }
    var accepted: seq<Reply> := [];
    for slot := 0 to 2
      invariant |accepted| == slot
      invariant slot == 0 ==> dc.View() == Write(old(dc.View()), frame).1
      invariant slot == 1 ==>
        (Ok(accepted[0]), dc.View()) == Slot(Write(old(dc.View()), frame).1, cls, id, check)
      invariant slot == 2 ==>
        (Ok((accepted[0], accepted[1])), dc.View()) == VerifiedWrite(old(dc.View()), frame, cls, id, check)
    {
      var reply := WriteVerifySlot(dc, cls, id, check);
      if reply.Err? {
        return Err(reply.error);
      }
      accepted := accepted + [reply.value];
    }
    r := Ok((accepted[0], accepted[1]));
  }

  // ---------- what the answers show ----------

  // No request changes a setting except a write that the receiver applies.
  lemma SlotKeepsConfig(link: Link, cls: byte, id: byte, check: Check)
    ensures Slot(link, cls, id, check).1.config == link.config
  {
  }

  lemma {:induction false} CurrentReplyShowsSetting(arrivals: seq<Arrival>, id: byte, config: Config)
    ensures var r := FirstWanted(arrivals, Frame(CLASS_CFG, id, []), config, AnswerTo(CLASS_CFG, id));
            r.Some? && r.value.current ==> r.value.frame.payload == SettingIn(config, id)
  {
    if arrivals != [] {
      CurrentReplyShowsSetting(arrivals[1..], id, config);
    }
  }

  // An accepted reply passes the check, and a current one shows the setting the receiver has.
  lemma SlotAccepts(link: Link, id: byte, check: Check)
    ensures var r := Slot(link, CLASS_CFG, id, check).0;
            r.Ok? ==>
              && check(r.value.frame.payload)
              && (r.value.current ==> r.value.frame.payload == link.Setting(id))
  {
    var l := Poll(link, CLASS_CFG, id).1;
    CurrentReplyShowsSetting(link.Next().arrivals, id, link.config);
    CurrentReplyShowsSetting(l.Next().arrivals, id, l.config);
  }

  /** nil means that two separate polls each brought a reply that passes the check, and unless both were
      generated before the write, that the receiver's setting passes it too: whatever was written, whatever
      the check. */
  lemma VerifiedWriteIsApplied(link: Link, frame: Frame, id: byte, check: Check)
    ensures var (r, l) := VerifiedWrite(link, frame, CLASS_CFG, id, check);
            r.Ok? ==>
              && check(r.value.0.frame.payload)
              && check(r.value.1.frame.payload)
              && (r.value.0.current || r.value.1.current ==> check(l.Setting(id)))
  {
    var l0 := Write(link, frame).1;
    var l1 := Slot(l0, CLASS_CFG, id, check).1;
    SlotKeepsConfig(l0, CLASS_CFG, id, check);
    SlotKeepsConfig(l1, CLASS_CFG, id, check);
    SlotAccepts(l0, id, check);
    SlotAccepts(l1, id, check);
  }

  // The check passes on every value the receiver may hold once it has applied the write.
  ghost predicate Expects(check: Check, frame: Frame) {
    && frame.cls == CLASS_CFG
    && (forall before, setting :: Implements(frame.id, before, setting, frame.payload) ==> check(setting))
    && (forall before :: check(Merged(frame.id, before, frame.payload)))
  }

  lemma WriteAppliesExactly(link: Link, frame: Frame, check: Check)
    requires Expects(check, frame)
    ensures var l := Write(link, frame).1;
            check(l.Setting(frame.id)) <==> link.Next().takesEffect || check(link.Setting(frame.id))
  {
  }

  // The slots write nothing, so that is also what the whole verified write leaves, whatever its result.
  lemma VerifiedWriteLeaves(link: Link, frame: Frame, check: Check)
    requires Expects(check, frame)
    ensures var (r, l) := VerifiedWrite(link, frame, CLASS_CFG, frame.id, check);
            check(l.Setting(frame.id)) <==> link.Next().takesEffect || check(link.Setting(frame.id))
  {
    WriteAppliesExactly(link, frame, check);
    var l0 := Write(link, frame).1;
    SlotKeepsConfig(l0, CLASS_CFG, frame.id, check);
    SlotKeepsConfig(Slot(l0, CLASS_CFG, frame.id, check).1, CLASS_CFG, frame.id, check);
  }

  // ---------- the other way round ----------

  // The slot meets at most one reply that fails the check; the retry brings one that passes, or a current one.
  ghost predicate SlotAnswered(link: Link, id: byte, check: Check) {
    var (r, l) := Poll(link, CLASS_CFG, id);
    && r.Ok?
    && (check(r.value.frame.payload) ||
        var r2 := Poll(l, CLASS_CFG, id).0; r2.Ok? && (r2.value.current || check(r2.value.frame.payload)))
  }

  lemma AnsweredSlotAccepts(link: Link, id: byte, check: Check)
    requires check(link.Setting(id))
    ensures Slot(link, CLASS_CFG, id, check).0.Ok? <==> SlotAnswered(link, id, check)
  {
    var l := Poll(link, CLASS_CFG, id).1;
    CurrentReplyShowsSetting(l.Next().arrivals, id, l.config);
  }

  /** An applied write is confirmed exactly if it is acknowledged and each slot is answered with at most one
      failing reply. */
  lemma AppliedWriteIsVerified(link: Link, frame: Frame, check: Check)
    requires Expects(check, frame) && link.Next().takesEffect
    ensures var (ack, l0) := Write(link, frame);
            VerifiedWrite(link, frame, CLASS_CFG, frame.id, check).0.Ok? <==>
              && ack.Ok?
              && SlotAnswered(l0, frame.id, check)
              && SlotAnswered(Slot(l0, CLASS_CFG, frame.id, check).1, frame.id, check)
  {
    WriteAppliesExactly(link, frame, check);
    var l0 := Write(link, frame).1;
    AnsweredSlotAccepts(l0, frame.id, check);
    SlotKeepsConfig(l0, CLASS_CFG, frame.id, check);
    AnsweredSlotAccepts(Slot(l0, CLASS_CFG, frame.id, check).1, frame.id, check);
  }

  // ---------- the three settings that are written ----------

  function Matching(gen: Generation, expected: seq<byte>): (check: Check) {
    (got: seq<byte>) => Matches(gen, got, expected)
  }

  function Nav5Check(dynModel: byte): (check: Check) {
    (got: seq<byte>) => |got| >= 3 && got[2] == dynModel
  }

  // Index zero; frequency, pulse length and the low flags as written.
  function Tp5Check(payload: seq<byte>): (check: Check)
    requires |payload| == 32
  {
    (got: seq<byte>) =>
      && |got| >= 32 && got[0] == 0
      && got[8..12] == payload[8..12] && got[16..20] == payload[16..20] && got[28] == payload[28]
  }

  // BuildNAV5DynModelOnly: the mask selects the dynamic model alone.
  function Nav5Payload(dynModel: byte): (p: seq<byte>)
    ensures |p| == 36 && p[0] == 1 && p[2] == dynModel && forall i :: 0 <= i < 36 && i != 0 && i != 2 ==> p[i] == 0
  {
    [1, 0, dynModel] + ZeroBytes(33)
  }

  // BuildTP5_1HzUTC: one pulse a second of half a second, rising at the top of the UTC second.
  const TP5_PAYLOAD: seq<byte> :=
    [0, 1, 0, 0, 0, 0, 0, 0] + LittleEndian32(1) + LittleEndian32(1) + LittleEndian32(500_000) + LittleEndian32(500_000)
    + [0, 0, 0, 0, 0x7F, 0, 0, 0]

  lemma TmodeExpected(gen: Generation, payload: seq<byte>)
    requires WellFormed(gen, payload)
    ensures Expects(Matching(gen, payload), Frame(CLASS_CFG, PollId(gen), payload))
  {
    forall before, setting | Implements(PollId(gen), before, setting, payload)
      ensures Matching(gen, payload)(setting)
    {
      MatchesMeansSameState(gen, setting, payload);
    }
    MatchesIsEquivalence(gen, payload, payload, payload);
  }

  lemma Tp5Expected()
    ensures |TP5_PAYLOAD| == 32 && Expects(Tp5Check(TP5_PAYLOAD), Frame(CLASS_CFG, ID_CFG_TP5, TP5_PAYLOAD))
  {
    var p := TP5_PAYLOAD;
    forall setting | Tp5Applied(setting, p)
      ensures Tp5Check(p)(setting)
    {
      assert setting[0] == setting[..4][0] == p[..4][0] == 0;
      assert setting[8..29][0..4] == setting[8..12] && p[8..29][0..4] == p[8..12];
      assert setting[8..29][8..12] == setting[16..20] && p[8..29][8..12] == p[16..20];
      assert setting[28] == setting[8..29][20] == p[8..29][20];
    }
  }

  /** The checks of the three writers pass on every value a receiver may have after applying what they write:
      so all of this holds of all three. */
  lemma EveryWriterExpects(gen: Generation, tmode: seq<byte>, dynModel: byte)
    requires WellFormed(gen, tmode)
    ensures Expects(Matching(gen, tmode), Frame(CLASS_CFG, PollId(gen), tmode))
    ensures Expects(Nav5Check(dynModel), Frame(CLASS_CFG, ID_CFG_NAV5, Nav5Payload(dynModel)))
    ensures |TP5_PAYLOAD| == 32 && Expects(Tp5Check(TP5_PAYLOAD), Frame(CLASS_CFG, ID_CFG_TP5, TP5_PAYLOAD))
  {
    TmodeExpected(gen, tmode);
    Tp5Expected();
  }

  /** The mask decides: a NAV5 write that leaves out the dynamic model does not pass the check, unless the receiver
      had that model before, and one that selects it alone keeps minimum elevation and fix mode. */
  lemma MaskDecides(before: seq<byte>, setting: seq<byte>, written: seq<byte>)
    requires Nav5Applied(before, setting, written)
    ensures Nav5Check(written[2])(setting) <==> written[0] % 2 == 1 || before[2] == written[2]
    ensures written[0] == 1 ==> setting[12] == before[12] && setting[3] == before[3]
  {
  }

  /** The pulse check passes exactly the settings with one pulse a second (1 Hz), half a second long, of
      timepulse zero, rising, on the UTC grid: 500,000 microseconds is 0x7A120. */
  lemma Tp5Decides(got: seq<byte>)
    ensures |TP5_PAYLOAD| == 32
    ensures Tp5Check(TP5_PAYLOAD)(got) <==>
            && |got| >= 32 && got[0] == 0 && got[8..12] == [1, 0, 0, 0]
            && got[16..20] == [0x20, 0xA1, 0x07, 0] && got[28] == 0x7F
  {
    var p := TP5_PAYLOAD;
    assert p[8..12] == [1, 0, 0, 0] && p[16..20] == [0x20, 0xA1, 0x07, 0] && p[28] == 0x7F;
  }

  // ---------- the limits ----------

  function Acknowledge(id: byte, nak: bool, takesEffect: bool): (ex: Exchange) {
    Exchange(true, takesEffect, [],
             [Old(Frame(CLASS_ACK, if nak then ID_ACK_NAK else 1, [CLASS_CFG, id]))], CallDeadline, Tick)
  }

  function Answer(a: Arrival): (ex: Exchange) { Exchange(true, false, [], [a], CallDeadline, Tick) }

  lemma AcknowledgedWrite(link: Link, id: byte, payload: seq<byte>, nak: bool)
    requires link.script != [] && link.script[0] == Acknowledge(id, nak, link.script[0].takesEffect)
    ensures Write(link, Frame(CLASS_CFG, id, payload)) ==
            (if nak then Err(Nak) else Ok(()),
             link.Rest().(config := Applied(link, Frame(CLASS_CFG, id, payload))))
  {
  }

  lemma AnsweredSlot(link: Link, id: byte, a: Arrival, check: Check)
    requires link.script != [] && link.script[0] == Answer(a)
    requires var r := Received(a, Frame(CLASS_CFG, id, []), link.config);
             r.frame.cls == CLASS_CFG && r.frame.id == id && check(r.frame.payload)
    ensures Slot(link, CLASS_CFG, id, check) ==
            (Ok(Received(a, Frame(CLASS_CFG, id, []), link.config)), link.Rest())
  {
  }

  // The script that makes a write look applied: an acknowledgement, and the same stale reply twice.
  function Deception(frame: Frame): (s: seq<Exchange>) {
    [Acknowledge(frame.id, false, false), Answer(Old(frame)), Answer(Old(frame))]
  }

  /** Two stale replies deceive any check that the written value passes, from any state of the receiver. */
  lemma StaleRepliesDeceive(link: Link, frame: Frame, check: Check, rest: seq<Exchange>)
    requires frame.cls == CLASS_CFG && check(frame.payload)
    requires link.script == Deception(frame) + rest
    ensures VerifiedWrite(link, frame, CLASS_CFG, frame.id, check)
            == (Ok((Reply(frame, false), Reply(frame, false))), link.(script := rest))
  {
    var stale := Answer(Old(frame));
    assert link.Rest().script == [stale, stale] + rest;
    var l0 := link.Rest();
    assert l0.Rest().script == [stale] + rest;
    assert l0.Rest().Rest().script == rest;
    AcknowledgedWrite(link, frame.id, frame.payload, false);
    AnsweredSlot(l0, frame.id, Old(frame), check);
    AnsweredSlot(l0.Rest(), frame.id, Old(frame), check);
  }
}
