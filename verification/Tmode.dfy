/**
  CFG-TMODE2 (M8) and CFG-TMODE3 (F9) payloads: the mode field, the comparison that decides whether a
  write was applied, and the two writes a survey makes.
 */
module Tmode {
  import opened Words
  import opened Wrappers
  import opened Ubx

  datatype Generation = Unknown | M8 | F9

  const CLASS_CFG: byte := 0x06
  const ID_CFG_TMODE2: byte := 0x3D
  const ID_CFG_TMODE3: byte := 0x71
  const ID_CFG_NAV5: byte := 0x24
  const ID_CFG_TP5: byte := 0x31

  // The id PollTMODE and the read-back of WriteTMODE ask for.
  function PollId(gen: Generation): (r: byte) { if gen == M8 then ID_CFG_TMODE2 else ID_CFG_TMODE3 }

  function Size(gen: Generation): (r: nat) { if gen == M8 then 28 else 40 }

  // 0 disabled, 1 survey-in, 2 fixed; other values exist on the wire.  -1 when the payload is too short.
  function TimeMode(gen: Generation, p: seq<byte>): (r: int) {
    match gen
    case M8 => if |p| < 1 then -1 else p[0]
    case F9 => if |p| < 3 then -1 else p[2] % 8
    case Unknown => -1
  }

  // compareTMODEByMode, with "no error" as true.
  predicate Matches(gen: Generation, got: seq<byte>, expected: seq<byte>) {
    var mode := TimeMode(gen, expected);
    && mode >= 0
    && TimeMode(gen, got) == mode
    && |got| == |expected| == Size(gen)
    && match gen
       case M8 =>
         (match mode
          case 0 => true
          case 1 => got[20..28] == expected[20..28]
          case 2 => got[1..20] == expected[1..20]
          case _ => false)
       case F9 =>
         (match mode
          case 0 => true
          case 1 => got[24..32] == expected[24..32]
          case 2 => && got[3] == expected[3]
                    && got[4..16] == expected[4..16]
                    && got[16..19] == expected[16..19]
                    && got[20..24] == expected[20..24]
          case _ => false)
       case Unknown => false
  }

  // A payload of the right size, in one of the three modes the firmware documents.
  predicate WellFormed(gen: Generation, p: seq<byte>) {
    gen != Unknown && |p| == Size(gen) && 0 <= TimeMode(gen, p) <= 2
  }

  // What the receiver acts on: the mode, and the fields that mode uses.
  function Relevant(gen: Generation, p: seq<byte>): (r: (int, seq<byte>))
    requires WellFormed(gen, p)
  {
    var mode := TimeMode(gen, p);
    (mode, match mode
           case 0 => []
           case 1 => if gen == M8 then p[20..28] else p[24..32]
           case _ => if gen == M8 then p[1..20] else p[3..19] + p[20..24])
  }

  lemma SamePieces(a: seq<byte>, b: seq<byte>, c: seq<byte>, d: seq<byte>)
    requires |a| == |c|
    ensures a + b == c + d <==> a == c && b == d
  {
    assert (a + b)[..|a|] == a && (a + b)[|a|..] == b;
    assert (c + d)[..|c|] == c && (c + d)[|c|..] == d;
  }

  // The fixed-mode fields of F9, compared whole or piece by piece.
  lemma SameFixedFields(a: seq<byte>, b: seq<byte>)
    requires |a| == |b| == 40
    ensures a[3..19] + a[20..24] == b[3..19] + b[20..24] <==>
            a[3] == b[3] && a[4..16] == b[4..16] && a[16..19] == b[16..19] && a[20..24] == b[20..24]
  {
    SamePieces(a[3..19], a[20..24], b[3..19], b[20..24]);
    assert a[3..19] == [a[3]] + (a[4..16] + a[16..19]) && b[3..19] == [b[3]] + (b[4..16] + b[16..19]);
    SamePieces([a[3]], a[4..16] + a[16..19], [b[3]], b[4..16] + b[16..19]);
    SamePieces(a[4..16], a[16..19], b[4..16], b[16..19]);
  }

  /** The comparison accepts exactly the pairs that put the receiver in the same state. */
  lemma MatchesMeansSameState(gen: Generation, a: seq<byte>, b: seq<byte>)
    ensures Matches(gen, a, b) <==>
            WellFormed(gen, a) && WellFormed(gen, b) && Relevant(gen, a) == Relevant(gen, b)
  {
    if |a| == |b| == 40 {
      SameFixedFields(a, b);
    }
  }

  /** The same, byte by byte.  M8 payloads have the mode in the first byte, F9 payloads in the low three bits of the
      third; each mode has its own fields, and modes above two are refused. */
  lemma MatchesInBytes(gen: Generation, a: seq<byte>, b: seq<byte>)
    ensures !Matches(Unknown, a, b)
    ensures Matches(M8, a, b) <==>
            && |a| == |b| == 28 && a[0] == b[0]
            && (a[0] == 0 || (a[0] == 1 && a[20..28] == b[20..28]) || (a[0] == 2 && a[1..20] == b[1..20]))
    ensures Matches(F9, a, b) <==>
            && |a| == |b| == 40 && a[2] % 8 == b[2] % 8
            && (a[2] % 8 == 0 || (a[2] % 8 == 1 && a[24..32] == b[24..32])
                || (a[2] % 8 == 2 && a[3..19] == b[3..19] && a[20..24] == b[20..24]))
  {
    if |a| == |b| == 40 {
      SameFixedFields(a, b);
      SamePieces(a[3..19], a[20..24], b[3..19], b[20..24]);
    }
  }

  /** It is an equivalence relation on well-formed payloads, and relates nothing else, not even to itself. */
  lemma MatchesIsEquivalence(gen: Generation, a: seq<byte>, b: seq<byte>, c: seq<byte>)
    ensures Matches(gen, a, a) <==> WellFormed(gen, a)
    ensures Matches(gen, a, b) ==> Matches(gen, b, a)
    ensures Matches(gen, a, b) && Matches(gen, b, c) ==> Matches(gen, a, c)
  {
  }

  function ZeroBytes(n: nat): (b: seq<byte>)
    ensures |b| == n
  {
    seq(n, _ => 0)
  }

  // The limit is in the receiver's own unit: millimetres on M8, tenths of them on F9.
  function SurveyInPayload(gen: Generation, minDuration: uint32, accuracyLimit: uint32): (p: seq<byte>)
    requires gen != Unknown
  {
    var fields := LittleEndian32(minDuration) + LittleEndian32(accuracyLimit);
    if gen == M8 then [1] + ZeroBytes(19) + fields
    else [0, 0, 1] + ZeroBytes(21) + fields + ZeroBytes(8)
  }

  /** A receiver that matches the survey configuration is surveying, with exactly the requested limits. */
  lemma SurveyInMeaning(gen: Generation, minDuration: uint32, accuracyLimit: uint32, got: seq<byte>)
    requires gen != Unknown
    ensures WellFormed(gen, SurveyInPayload(gen, minDuration, accuracyLimit))
    ensures var (p, at) := (SurveyInPayload(gen, minDuration, accuracyLimit), if gen == M8 then 0 else 2);
            p[at] == 1 && forall i :: 0 <= i < |p| && i != at && !(20 + 2 * at <= i < 28 + 2 * at) ==> p[i] == 0
    ensures Matches(gen, got, SurveyInPayload(gen, minDuration, accuracyLimit)) <==>
            && WellFormed(gen, got)
            && Relevant(gen, got) == (1, LittleEndian32(minDuration) + LittleEndian32(accuracyLimit))
  {
    var p := SurveyInPayload(gen, minDuration, accuracyLimit);
    var fields := LittleEndian32(minDuration) + LittleEndian32(accuracyLimit);
    if gen == M8 {
      assert p[20..28] == fields;
    } else {
      assert p[24..32] == fields;
    }
    MatchesMeansSameState(gen, got, p);
  }

  // RestoreFrame: only a payload of the right size can be written back.
  function RestoreFrame(gen: Generation, raw: seq<byte>): (r: Option<Frame>)
    ensures r.Some? <==> (gen == M8 && |raw| == 28) || (gen == F9 && |raw| == 40)
    ensures r.Some? ==> r.value == Frame(0x06, if gen == M8 then 0x3D else 0x71, raw)
  {
    if gen != Unknown && |raw| == Size(gen) then Some(Frame(CLASS_CFG, PollId(gen), raw)) else None
  }
}
