/**
  UBX framing: the Fletcher checksum, Encode, Decode, and the walker that finds frames in a buffer
  of raw device bytes.
 */
module Ubx {
  import opened Words
  import opened Wrappers

  const SYNC_1: byte := 0xB5
  const SYNC_2: byte := 0x62

  const CLASS_ACK: byte := 0x05
  const ID_ACK_NAK: byte := 0x00

  datatype Frame = Frame(cls: byte, id: byte, payload: seq<byte>) {
    // Some((acknowledged class, acknowledged id, is it a NAK)) for the two acknowledge messages.
    function IsAck(): (r: Option<(byte, byte, bool)>) {
      if cls != CLASS_ACK || |payload| != 2 then None
      else Some((payload[0], payload[1], id == ID_ACK_NAK))
    }
  }

  datatype DecodeError = TooShort | BadSync | Truncated | ChecksumMismatch

  // ---------- the checksum ----------

  // The closed form: A is the sum of the bytes, B weighs each byte by its distance from the end.
  function Sum(b: seq<byte>): (r: nat) {
    if b == [] then 0 else Sum(b[..|b| - 1]) + b[|b| - 1]
  }

  function WeightedSum(b: seq<byte>): (r: nat) {
    if b == [] then 0 else WeightedSum(b[1..]) + |b| * b[0]
  }

  function Checksum(b: seq<byte>): (r: (byte, byte)) { (Sum(b) % 256, WeightedSum(b) % 256) }

  lemma {:induction false} WeightedSumAppend(b: seq<byte>, c: byte)
    ensures WeightedSum(b + [c]) == WeightedSum(b) + Sum(b) + c
  {
    if b == [] {
      assert b + [c] == [c];
    } else {
      var rest := b[1..];
      assert (b + [c])[1..] == rest + [c];
      WeightedSumAppend(rest, c);
      SumFirst(b);
      assert WeightedSum(b + [c]) == WeightedSum(rest + [c]) + (|b| + 1) * b[0];
      assert (|b| + 1) * b[0] == |b| * b[0] + b[0];
    }
  }

  lemma {:induction false} SumFirst(b: seq<byte>)
    requires b != []
    ensures Sum(b) == b[0] + Sum(b[1..])
  {
    if |b| > 1 {
      var n := |b| - 1;
      SumFirst(b[..n]);
      assert b[..n][1..] == b[1..][..n - 1];
    }
  }

  lemma ModSum(x: nat, y: nat)
    ensures (x % 256 + y) % 256 == (x + y) % 256
    ensures (x + y % 256) % 256 == (x + y) % 256
  {
    assert x == 256 * (x / 256) + x % 256;
    assert y == 256 * (y / 256) + y % 256;
  }

  lemma ChecksumAppend(b: seq<byte>, c: byte)
    ensures var (ckA, ckB) := Checksum(b);
            var a' := (ckA + c) % 256;
            Checksum(b + [c]) == (a', (ckB + a') % 256)
  {
    assert (b + [c])[..|b|] == b;
    WeightedSumAppend(b, c);
    ChecksumStep(Sum(b), WeightedSum(b), c);
  }

  lemma ChecksumStep(sum: nat, weighted: nat, c: byte)
    ensures var a' := (sum % 256 + c) % 256;
            a' == (sum + c) % 256 && (weighted % 256 + a') % 256 == (weighted + sum + c) % 256
  {
    ModSum(sum, c);
    ModSum(weighted, (sum + c) % 256);
    ModSum(weighted, sum + c);
  }

  lemma ChecksumOfNothing()
    ensures Checksum([]) == (0, 0)
  {
  }

  method ChecksumFletcher8(b: seq<byte>) returns (ckA: byte, ckB: byte)
    ensures (ckA, ckB) == Checksum(b)
  {
    hide Checksum;
    ChecksumOfNothing();
    ckA, ckB := 0, 0;
    for i := 0 to |b|
      invariant (ckA, ckB) == Checksum(b[..i])
    {
      assert b[..i + 1] == b[..i] + [b[i]];
      ChecksumAppend(b[..i], b[i]);
      ckA := (ckA + b[i]) % 256;
      ckB := (ckB + ckA) % 256;
    }
    assert b[..|b|] == b;
  }

  lemma {:induction false} SumUpdate(b: seq<byte>, k: nat, v: byte)
    requires k < |b|
    ensures Sum(b[k := v]) == Sum(b) - b[k] + v
  {
    var n := |b| - 1;
    if k == n {
      assert b[k := v][..n] == b[..n];
    } else {
      assert b[k := v][..n] == b[..n][k := v];
      SumUpdate(b[..n], k, v);
    }
  }

  lemma {:induction false} WeightedSumSwap(b: seq<byte>, k: nat)
    requires k + 1 < |b|
    ensures WeightedSum(b[k := b[k + 1]][k + 1 := b[k]]) == WeightedSum(b) - b[k] + b[k + 1]
  {
    var s := b[k := b[k + 1]][k + 1 := b[k]];
    if k == 0 {
      assert s[1..][1..] == b[1..][1..];
    } else {
      assert s[1..] == b[1..][k - 1 := b[1..][k]][k := b[1..][k - 1]];
      WeightedSumSwap(b[1..], k - 1);
    }
  }

  // ---------- the codec ----------

  // Class, id, little-endian length and payload: what the checksum covers.
  function Body(f: Frame): (b: seq<byte>)
    requires |f.payload| <= 0xFFFF
  {
    [f.cls, f.id, |f.payload| % 256, |f.payload| / 256] + f.payload
  }

  function Wire(f: Frame): (b: seq<byte>)
    requires |f.payload| <= 0xFFFF
    ensures |b| == 8 + |f.payload|
  {
    var ck := Checksum(Body(f));
    [SYNC_1, SYNC_2] + Body(f) + [ck.0, ck.1]
  }

  // None stands for the nil that Encode returns for a payload too long for the length field.
  method Encode(f: Frame) returns (out: Option<seq<byte>>)
    ensures out == if |f.payload| <= 0xFFFF then Some(Wire(f)) else None
  {
    if |f.payload| > 0xFFFF {
      return None;
    }
    var buf := [SYNC_1, SYNC_2, f.cls, f.id];
    buf := buf + [|f.payload| % 256, |f.payload| / 256];
    buf := buf + f.payload;
    assert buf[2..] == Body(f);
    var ckA, ckB := ChecksumFletcher8(buf[2..]);
    buf := buf + [ckA, ckB];
    out := Some(buf);
    assert buf == Wire(f);
  }

  function Decode(b: seq<byte>): (r: Result<(Frame, nat), DecodeError>)
    ensures r.Ok? ==> 8 <= r.value.1 <= |b|
  {
    if |b| < 8 then Err(TooShort)
    else if b[0] != SYNC_1 || b[1] != SYNC_2 then Err(BadSync)
    else
      var payloadLen := b[4] as nat + 256 * b[5] as nat;
      if |b| < 8 + payloadLen then Err(Truncated)
      else if (b[6 + payloadLen], b[7 + payloadLen]) != Checksum(b[2..6 + payloadLen]) then Err(ChecksumMismatch)
      else Ok((Frame(b[2], b[3], b[6..6 + payloadLen]), 8 + payloadLen))
  }

  // Where the parts of an encoded frame lie.
  lemma WireLayout(f: Frame)
    requires |f.payload| <= 0xFFFF
    ensures var w, len := Wire(f), |f.payload|;
            && w[0] == SYNC_1 && w[1] == SYNC_2 && w[2] == f.cls && w[3] == f.id
            && w[4] as nat + 256 * w[5] as nat == len
            && w[2..6 + len] == Body(f)
            && w[6..6 + len] == f.payload
            && (w[6 + len], w[7 + len]) == Checksum(Body(f))
  {
    hide Checksum;
    var w, len := Wire(f), |f.payload|;
    assert w[2..6 + len] == Body(f);
    assert forall k :: 2 <= k < 6 + len ==> w[k] == Body(f)[k - 2];
  }

  lemma PrefixSlice(w: seq<byte>, b: seq<byte>, lo: nat, hi: nat)
    requires w <= b && lo <= hi <= |w|
    ensures b[lo..hi] == w[lo..hi]
  {
  }

  lemma DecodeWire(f: Frame, b: seq<byte>)
    requires |f.payload| <= 0xFFFF && Wire(f) <= b
    ensures Decode(b) == Ok((f, |Wire(f)|))
  {
    hide Checksum, Wire;
    WireLayout(f);
    var w, len := Wire(f), |f.payload|;
    PrefixSlice(w, b, 2, 6 + len);
    PrefixSlice(w, b, 6, 6 + len);
  }

  lemma SplitLength(low: byte, high: byte)
    ensures var n := low as nat + 256 * high as nat; n % 256 == low && n / 256 == high
  {
  }

  lemma HeadOfSlice(b: seq<byte>, len: nat)
    requires 6 + len <= |b|
    ensures [b[2], b[3], b[4], b[5]] + b[6..6 + len] == b[2..6 + len]
  {
  }

  lemma DecodedIsWire(b: seq<byte>)
    requires Decode(b).Ok?
    ensures var (f, n) := Decode(b).value; |f.payload| <= 0xFFFF && n == |Wire(f)| && Wire(f) <= b
  {
    hide Checksum;
    var (f, n) := Decode(b).value;
    var len := b[4] as nat + 256 * b[5] as nat;
    assert n == 8 + len && f == Frame(b[2], b[3], b[6..6 + len]);
    SplitLength(b[4], b[5]);
    assert Body(f) == [b[2], b[3], b[4], b[5]] + b[6..6 + len];
    HeadOfSlice(b, len);
    assert Wire(f) == b[..n];
  }

  /** Decode succeeds exactly on inputs that start with the encoding of a frame, and returns that frame. */
  lemma DecodeInvertsEncode(b: seq<byte>, f: Frame, n: nat)
    ensures Decode(b) == Ok((f, n)) <==> |f.payload| <= 0xFFFF && Wire(f) <= b && n == |Wire(f)|
  {
    hide Decode, Wire;
    if |f.payload| <= 0xFFFF && Wire(f) <= b {
      DecodeWire(f, b);
    }
    if Decode(b).Ok? {
      DecodedIsWire(b);
    }
  }

  /** ... and fails on every other input. */
  lemma DecodeAcceptsExactlyFrames(b: seq<byte>)
    ensures Decode(b).Ok? <==> exists f: Frame :: |f.payload| <= 0xFFFF && Wire(f) <= b
  {
    hide Decode, Wire;
    if f: Frame :| |f.payload| <= 0xFFFF && Wire(f) <= b {
      DecodeInvertsEncode(b, f, |Wire(f)|);
    }
    if Decode(b).Ok? {
      DecodeInvertsEncode(b, Decode(b).value.0, Decode(b).value.1);
    }
  }

  lemma ModDiffers(w: nat, x: byte, y: byte)
    requires x != y && w >= x
    ensures (w - x + y) % 256 != w % 256
  {
    var w' := w - x + y;
    assert w == 256 * (w / 256) + w % 256;
    assert w' == 256 * (w' / 256) + w' % 256;
  }

  // A byte of the covered part cannot exceed the weighted sum it contributes to.
  lemma {:induction false} WeightedSumAtLeast(b: seq<byte>, k: nat)
    requires k < |b|
    ensures WeightedSum(b) >= b[k]
  {
    if k > 0 {
      WeightedSumAtLeast(b[1..], k - 1);
    } else {
      assert |b| * b[0] >= b[0];
    }
  }

  // A body of the same length, followed by a checksum that is not its own, is rejected.
  lemma WrongBodyRejected(b: seq<byte>, body: seq<byte>, len: nat)
    requires |b| >= 8 + len && |body| == 4 + len && b[2..6 + len] == body
    requires body[2] as nat + 256 * body[3] as nat == len
    requires (b[6 + len], b[7 + len]) != Checksum(body)
    ensures Decode(b).Err?
  {
  }

  lemma AlteredBodyChecksum(body: seq<byte>, k: nat, v: byte)
    requires k < |body| && v != body[k]
    ensures Checksum(body[k := v]).0 != Checksum(body).0
  {
    SumUpdate(body, k, v);
    SumAtLeast(body, k);
    ModDiffers(Sum(body), body[k], v);
  }

  lemma {:induction false} SumAtLeast(b: seq<byte>, k: nat)
    requires k < |b|
    ensures Sum(b) >= b[k]
  {
    if k < |b| - 1 {
      SumAtLeast(b[..|b| - 1], k);
    }
  }

  /** Any change of one byte other than the two length bytes is rejected, whatever follows the frame. */
  lemma AlteredByteRejected(f: Frame, rest: seq<byte>, k: nat, v: byte)
    requires |f.payload| <= 0xFFFF && k < |Wire(f)| && k != 4 && k != 5
    requires v != Wire(f)[k]
    ensures Decode(Wire(f)[k := v] + rest).Err?
  {
    hide Checksum, Wire;
    WireLayout(f);
    var w, len, body := Wire(f), |f.payload|, Body(f);
    var b := w[k := v] + rest;
    if k < 2 {
      assert b[k] == v;
    } else {
      var body' := if k < 6 + len then body[k - 2 := v] else body;
      assert w[k := v][2..6 + len] == body' by {
        assert forall i :: 2 <= i < 6 + len ==> w[i] == body[i - 2];
      }
      assert b[2..6 + len] == w[k := v][2..6 + len];
      assert b[6 + len] == w[k := v][6 + len] && b[7 + len] == w[k := v][7 + len];
      if k < 6 + len {
        AlteredBodyChecksum(body, k - 2, v);
      }
      WrongBodyRejected(b, body', len);
    }
  }

  lemma SwappedBodyChecksum(body: seq<byte>, k: nat)
    requires k + 1 < |body| && body[k] != body[k + 1]
    ensures Checksum(body[k := body[k + 1]][k + 1 := body[k]]).1 != Checksum(body).1
  {
    WeightedSumSwap(body, k);
    WeightedSumAtLeast(body, k);
    ModDiffers(WeightedSum(body), body[k], body[k + 1]);
  }

  /** So is swapping two neighbouring, unequal bytes: class and id, or two of the payload. */
  lemma SwappedBytesRejected(f: Frame, rest: seq<byte>, k: nat)
    requires |f.payload| <= 0xFFFF
    requires k == 2 || 6 <= k < 5 + |f.payload|
    requires Wire(f)[k] != Wire(f)[k + 1]
    ensures var w := Wire(f);
            Decode(w[k := w[k + 1]][k + 1 := w[k]] + rest).Err?
  {
    hide Checksum, Wire;
    WireLayout(f);
    var w, len, body := Wire(f), |f.payload|, Body(f);
    assert forall i :: 2 <= i < 6 + len ==> w[i] == body[i - 2];
    var s := w[k := w[k + 1]][k + 1 := w[k]];
    var b := s + rest;
    var body' := body[k - 2 := body[k - 1]][k - 1 := body[k - 2]];
    assert s[2..6 + len] == body';
    assert b[2..6 + len] == s[2..6 + len];
    assert b[7 + len] == s[7 + len] == w[7 + len];
    SwappedBodyChecksum(body, k - 2);
    WrongBodyRejected(b, body', len);
  }

  // ---------- the walker ----------

  // The position of the first sync pair at or after i, or the length when there is none.
  function NextSync(raw: seq<byte>, i: nat): (j: nat)
    requires i <= |raw|
    ensures i <= j <= |raw|
    ensures j < |raw| ==> j + 1 < |raw| && raw[j] == SYNC_1 && raw[j + 1] == SYNC_2
    decreases |raw| - i
  {
    if i + 1 >= |raw| then |raw|
    else if raw[i] == SYNC_1 && raw[i + 1] == SYNC_2 then i
    else NextSync(raw, i + 1)
  }

  // The frames a walk from i dispatches, each with the position where it starts.
  function Walk(raw: seq<byte>, i: nat): (found: seq<(nat, Frame)>)
    requires i <= |raw|
    decreases |raw| - i
  {
    var j := NextSync(raw, i);
    if j == |raw| then []
    else match Decode(raw[j..])
      case Err(_) => Walk(raw, j + 2)
      case Ok((f, n)) => [(j, f)] + Walk(raw, j + n)
  }

  lemma WalkEnds(raw: seq<byte>, i: nat)
    requires i <= |raw| && NextSync(raw, i) == |raw|
    ensures Walk(raw, i) == []
  {
  }

  lemma WalkFrom(raw: seq<byte>, i: nat, j: nat)
    requires i <= j < |raw| && NextSync(raw, i) == j
    ensures var d := Decode(raw[j..]);
            Walk(raw, i) == match d
              case Err(_) => Walk(raw, j + 2)
              case Ok((f, n)) => [(j, f)] + Walk(raw, j + n)
  {
  }

  method WalkRaw(raw: seq<byte>) returns (found: seq<(nat, Frame)>)
    ensures found == Walk(raw, 0)
  {
    hide Decode, Walk, NextSync;
    found := [];
    var i := 0;
    while i < |raw|
      invariant i <= |raw|
      invariant found + Walk(raw, i) == Walk(raw, 0)
      decreases |raw| - i
    {
      var j := FindSync(raw, i);
      if j + 1 >= |raw| {
        WalkEnds(raw, i);
        return;
      }
      WalkFrom(raw, i, j);
      match Decode(raw[j..])
      case Err(_) =>
        i := j + 2;
      case Ok((f, n)) =>
        Regroup(found, (j, f), Walk(raw, j + n));
        found := found + [(j, f)];
        i := j + n;
    }
    NoSyncAtEnd(raw);
    WalkEnds(raw, |raw|);
  }

  lemma NoSyncAtEnd(raw: seq<byte>)
    ensures NextSync(raw, |raw|) == |raw|
  {
  }

  // The inner loop of the walker.
  method FindSync(raw: seq<byte>, i: nat) returns (j: nat)
    requires i < |raw|
    ensures i <= j < |raw|
    ensures j + 1 < |raw| ==> j == NextSync(raw, i)
    ensures j + 1 == |raw| ==> NextSync(raw, i) == |raw|
  {
    j := i;
    while j + 1 < |raw| && !(raw[j] == SYNC_1 && raw[j + 1] == SYNC_2)
      invariant i <= j < |raw| && NextSync(raw, j) == NextSync(raw, i)
    {
      j := j + 1;
    }
  }

  lemma Regroup<T>(a: seq<T>, x: T, b: seq<T>)
    ensures a + ([x] + b) == (a + [x]) + b
  {
  }

  // Frame by frame: a genuine encoding at the stated place, and none begins before the last one ended.
  ghost predicate InOrderSlices(raw: seq<byte>, i: nat, found: seq<(nat, Frame)>)
    decreases |found|
  {
    found == [] ||
    var (j, f) := found[0];
    && i <= j
    && |f.payload| <= 0xFFFF
    && j + |Wire(f)| <= |raw|
    && raw[j..j + |Wire(f)|] == Wire(f)
    && InOrderSlices(raw, j + |Wire(f)|, found[1..])
  }

  lemma OneMoreSlice(raw: seq<byte>, from: nat, j: nat, f: Frame, rest: seq<(nat, Frame)>)
    requires from <= j <= |raw| && |f.payload| <= 0xFFFF && Wire(f) <= raw[j..]
    requires InOrderSlices(raw, j + |Wire(f)|, rest)
    ensures InOrderSlices(raw, from, [(j, f)] + rest)
  {
  }

  /** On any input at all, the walker dispatches disjoint slices, in order, each a well-formed frame. */
  lemma {:induction false} WalkDispatchesSlices(raw: seq<byte>, i: nat, from: nat)
    requires from <= i <= |raw|
    ensures InOrderSlices(raw, from, Walk(raw, i))
    decreases |raw| - i
  {
    hide Decode, Wire, Walk, NextSync;
    var j := NextSync(raw, i);
    if j == |raw| {
      WalkEnds(raw, i);
    } else {
      WalkFrom(raw, i, j);
      match Decode(raw[j..])
      case Err(_) =>
        WalkDispatchesSlices(raw, j + 2, from);
      case Ok((f, n)) =>
        DecodeInvertsEncode(raw[j..], f, n);
        WalkDispatchesSlices(raw, j + n, j + n);
        OneMoreSlice(raw, from, j, f, Walk(raw, j + n));
    }
  }

  // Position p lies in one of the frames found, at its beginning or further inside.
  ghost predicate Covered(found: seq<(nat, Frame)>, p: nat) {
    exists x <- found :: x.0 <= p < x.0 + 8 + |x.1.payload|
  }

  lemma {:induction false} NextSyncSkipsNone(raw: seq<byte>, i: nat, p: nat)
    requires i <= p && p + 1 < |raw| && raw[p] == SYNC_1 && raw[p + 1] == SYNC_2
    ensures NextSync(raw, i) <= p
    decreases p - i
  {
    if i < p {
      NextSyncSkipsNone(raw, i + 1, p);
    }
  }

  lemma DecodedHasSync(raw: seq<byte>, p: nat)
    requires p <= |raw| && Decode(raw[p..]).Ok?
    ensures p + 1 < |raw| && raw[p] == SYNC_1 && raw[p + 1] == SYNC_2
    ensures var (f, n) := Decode(raw[p..]).value; n == 8 + |f.payload|
  {
    DecodedIsWire(raw[p..]);
  }

  /** On any input at all, wherever a frame begins, the walker dispatches it, or another one that covers its
      beginning. */
  lemma {:induction false} EveryFrameIsCovered(raw: seq<byte>, i: nat, p: nat)
    requires i <= p <= |raw| && Decode(raw[p..]).Ok?
    ensures Covered(Walk(raw, i), p)
    decreases |raw| - i
  {
    hide Decode, Walk, NextSync, Wire;
    var j := NextSync(raw, i);
    DecodedHasSync(raw, p);
    NextSyncSkipsNone(raw, i, p);
    WalkFrom(raw, i, j);
    match Decode(raw[j..])
    case Err(_) =>
      assert j != p && j + 1 != p;
      EveryFrameIsCovered(raw, j + 2, p);
    case Ok((f, n)) =>
      DecodedHasSync(raw, j);
      assert Walk(raw, i)[0] == (j, f);
      if p < j + n {
        assert (j, f) in Walk(raw, i);
      } else {
        EveryFrameIsCovered(raw, j + n, p);
        CoveredByMore((j, f), Walk(raw, j + n), p);
      }
  }

  lemma CoveredByMore(x: (nat, Frame), found: seq<(nat, Frame)>, p: nat)
    requires Covered(found, p)
    ensures Covered([x] + found, p)
  {
    var y :| y in found && y.0 <= p < y.0 + 8 + |y.1.payload|;
    assert y in [x] + found;
  }

  // A gap between frames: no sync pair inside it.
  ghost predicate PairFree(gap: seq<byte>) {
    forall k :: 0 <= k < |gap| - 1 ==> !(gap[k] == SYNC_1 && gap[k + 1] == SYNC_2)
  }

  // Frames, each preceded by a gap, and a last gap.
  function Gapped(gaps: seq<seq<byte>>, frames: seq<Frame>): (raw: seq<byte>)
    requires |gaps| == |frames| + 1
    requires forall f <- frames :: |f.payload| <= 0xFFFF
    decreases |frames|
  {
    if frames == [] then gaps[0]
    else gaps[0] + Wire(frames[0]) + Gapped(gaps[1..], frames[1..])
  }

  lemma {:induction false} NextSyncSkipsGap(raw: seq<byte>, i: nat, j: nat)
    requires i <= j <= |raw|
    requires forall k :: i <= k < j && k + 1 < |raw| ==> !(raw[k] == SYNC_1 && raw[k + 1] == SYNC_2)
    ensures NextSync(raw, i) == NextSync(raw, j)
    decreases j - i
  {
    if i < j && i + 1 < |raw| {
      NextSyncSkipsGap(raw, i + 1, j);
    }
  }

  function FramesOf(found: seq<(nat, Frame)>): (r: seq<Frame>) {
    seq(|found|, k requires 0 <= k < |found| => found[k].1)
  }

  lemma FramesOfCons(x: (nat, Frame), found: seq<(nat, Frame)>)
    ensures FramesOf([x] + found) == [x.1] + FramesOf(found)
  {
  }

  lemma NextSyncPastGap(before: seq<byte>, gap: seq<byte>, w: seq<byte>, rest: seq<byte>)
    requires PairFree(gap) && |w| >= 2 && w[0] == SYNC_1 && w[1] == SYNC_2
    ensures NextSync(before + gap + w + rest, |before|) == |before + gap|
  {
    var raw := before + gap + w + rest;
    var i, j := |before|, |before + gap|;
    assert forall k :: i <= k < j ==> raw[k] == gap[k - i];
    assert raw[j] == w[0] && raw[j + 1] == w[1];
    NextSyncSkipsGap(raw, i, j);
  }

  // A gap, a frame, and the rest: the walk finds that frame and goes on right after it.
  lemma WalkFirstFrame(before: seq<byte>, gap: seq<byte>, f: Frame, rest: seq<byte>)
    requires |f.payload| <= 0xFFFF && PairFree(gap)
    ensures var raw := before + gap + Wire(f) + rest;
            var j := |before + gap|;
            Walk(raw, |before|) == [(j, f)] + Walk(raw, j + |Wire(f)|)
  {
    hide Decode, Wire, Checksum;
    WireLayout(f);
    var w := Wire(f);
    var raw := before + gap + w + rest;
    var j := |before + gap|;
    assert raw[j..] == w + rest;
    DecodeInvertsEncode(raw[j..], f, |w|);
    NextSyncPastGap(before, gap, w, rest);
    WalkFrom(raw, |before|, j);
  }

  /** Whatever lies between them, short of a sync pair, every frame is recovered, in order, and nothing else. */
  lemma {:induction false} WalkRecoversFrames(before: seq<byte>, gaps: seq<seq<byte>>, frames: seq<Frame>)
    requires |gaps| == |frames| + 1
    requires forall f <- frames :: |f.payload| <= 0xFFFF
    requires forall g <- gaps :: PairFree(g)
    ensures FramesOf(Walk(before + Gapped(gaps, frames), |before|)) == frames
    decreases |frames|
  {
    hide Walk, NextSync, Wire;
    var i, gap := |before|, gaps[0];
    var raw := before + Gapped(gaps, frames);
    if frames == [] {
      assert PairFree(gap);
      assert forall k :: i <= k < |raw| ==> raw[k] == gap[k - i];
      NextSyncSkipsGap(raw, i, |raw|);
      NoSyncAtEnd(raw);
      WalkEnds(raw, i);
    } else {
      var f := frames[0];
      var rest := Gapped(gaps[1..], frames[1..]);
      var done := before + gap + Wire(f);
      assert raw == done + rest;
      WalkFirstFrame(before, gap, f, rest);
      WalkRecoversFrames(done, gaps[1..], frames[1..]);
      FramesOfCons((|before + gap|, f), Walk(raw, |done|));
    }
  }
}
