/**
  Reading a Beast stream back: the client's frame extractor with its growing buffer, and the independent
  Python extractor; both against any way of cutting a stream of frames into pieces.
 */
module BeastStream {
  import opened Words
  import opened Wrappers
  import opened Beast

  // ---------- the client's extractor ----------

  // From the first escape that is not doubled on; empty when there is none.
  function SkipToStart(buf: seq<byte>): (s: seq<byte>)
    ensures s != [] ==> s[0] == ESCAPE && (|s| > 1 ==> s[1] != ESCAPE)
  {
    if buf == [] then []
    else if buf[0] != ESCAPE then SkipToStart(buf[1..])
    else if |buf| > 1 && buf[1] == ESCAPE then SkipToStart(buf[2..])
    else buf
  }

  // Unescaping n bytes: done, or the buffer ends too early, or the next frame begins too early.
  datatype Taken = Done(bytes: seq<byte>, rest: seq<byte>) | Short | Broken

  function Take(buf: seq<byte>, n: nat): (t: Taken)
    decreases n
  {
    if n == 0 then Done([], buf)
    else if buf == [] then Short
    else if buf[0] != ESCAPE then Prepend(buf[0], Take(buf[1..], n - 1))
    else if |buf| == 1 then Short
    else if buf[1] == ESCAPE then Prepend(ESCAPE, Take(buf[2..], n - 1))
    else Broken
  }

  function Prepend(b: byte, t: Taken): (r: Taken) {
    if t.Done? then Done([b] + t.bytes, t.rest) else t
  }

  // extractFrame; None is its ok == false, when it returns Remaining instead.
  function Extract(buf: seq<byte>): (r: Option<(seq<byte>, seq<byte>)>) {
    var s := SkipToStart(buf);
    if |s| < 3 || !KnownType(s[1]) then None
    else
      var t := Take(s[1..], PayloadLength(s[1]));
      if t.Done? then Some((t.bytes, t.rest)) else None
  }

  // The buffer it returns: what follows the frame; without one, the whole buffer, or from an unknown type on.
  function Remaining(buf: seq<byte>): (rest: seq<byte>) {
    var r, s := Extract(buf), SkipToStart(buf);
    if r.Some? then r.value.1
    else if |s| >= 3 && !KnownType(s[1]) then s[1..]
    else buf
  }

  lemma {:induction false} TakeConsumes(buf: seq<byte>, n: nat)
    ensures var t := Take(buf, n);
            t.Done? ==> |t.bytes| == n && |t.rest| + n <= |buf| && t.rest == buf[|buf| - |t.rest|..]
    decreases n
  {
    if n > 0 && buf != [] {
      TakeConsumes(buf[1..], n - 1);
      if |buf| > 1 {
        TakeConsumes(buf[2..], n - 1);
      }
    }
  }

  lemma {:induction false} StartIsSuffix(buf: seq<byte>)
    ensures var s := SkipToStart(buf); |s| <= |buf| && s == buf[|buf| - |s|..]
  {
    if buf != [] {
      if buf[0] != ESCAPE {
        StartIsSuffix(buf[1..]);
      } else if |buf| > 1 && buf[1] == ESCAPE {
        StartIsSuffix(buf[2..]);
      }
    }
  }

  lemma ExtractShrinks(buf: seq<byte>)
    ensures Extract(buf).Some? ==> |Extract(buf).value.1| < |buf|
  {
    StartIsSuffix(buf);
    var s := SkipToStart(buf);
    if |s| >= 3 && KnownType(s[1]) {
      TakeConsumes(s[1..], PayloadLength(s[1]));
    }
  }

  method ExtractFrame(buf: seq<byte>) returns (frame: Option<seq<byte>>, rest: seq<byte>)
    ensures frame == var r := Extract(buf); if r.Some? then Some(r.value.0) else None
    ensures rest == Remaining(buf)
  {
    hide Take, SkipToStart;
    var start := FindStart(buf);
    if start < 0 || start + 2 >= |buf| {
      return None, buf;
    }
    var typeIdx := start + 1;
    assert SkipToStart(buf)[1..] == buf[typeIdx..];
    if buf[typeIdx] == ESCAPE {
      return None, buf;
    }
    if !KnownType(buf[typeIdx]) {
      return None, buf[typeIdx..];
    }
    var payload, i := Unescape(buf, typeIdx, PayloadLength(buf[typeIdx]));
    if payload.None? {
      return None, buf;
    }
    return payload, buf[i..];
  }

  // The first loop of the extractor.
  method FindStart(buf: seq<byte>) returns (start: int)
    ensures start < |buf| && SkipToStart(buf) == if start < 0 then [] else buf[start..]
  {
    var i := 0;
    while i < |buf|
      invariant 0 <= i <= |buf|
      invariant SkipToStart(buf[i..]) == SkipToStart(buf)
    {
      if buf[i] == ESCAPE {
        if i + 1 < |buf| && buf[i + 1] == ESCAPE {
          i := i + 2;
          continue;
        }
        return i;
      }
      i := i + 1;
    }
    start := -1;
  }

  // The second loop; the first byte to unescape, the type, is not an escape.
  method Unescape(buf: seq<byte>, from: nat, n: nat) returns (r: Option<seq<byte>>, i: nat)
    requires from < |buf| && buf[from] != ESCAPE
    ensures i <= |buf|
    ensures match Take(buf[from..], n)
            case Done(bytes, rest) => r == Some(bytes) && rest == buf[i..]
            case _ => r == None
  {
    var payload: seq<byte> := [];
    i := from;
    ghost var whole := Take(buf[from..], n);
    while |payload| < n
      invariant from <= i <= |buf| && |payload| <= n
      invariant |payload| == 0 ==> i == from
      invariant whole == PrependAll(payload, Take(buf[i..], n - |payload|))
      decreases n - |payload|
    {
      if i >= |buf| {
        return None, i;
      }
      ghost var p := payload;
      if buf[i] == ESCAPE && i + 1 < |buf| && buf[i + 1] == ESCAPE {
        PrependLast(p, ESCAPE, Take(buf[i + 2..], n - |p| - 1));
        payload := payload + [ESCAPE];
        i := i + 2;
      } else if buf[i] == ESCAPE && |payload| > 0 {
        return None, i;
      } else {
        PrependLast(p, buf[i], Take(buf[i + 1..], n - |p| - 1));
        payload := payload + [buf[i]];
        i := i + 1;
      }
    }
    assert payload + [] == payload;
    r := Some(payload);
  }

  function PrependAll(p: seq<byte>, t: Taken): (r: Taken) {
    if t.Done? then Done(p + t.bytes, t.rest) else t
  }

  lemma PrependLast(p: seq<byte>, b: byte, t: Taken)
    ensures PrependAll(p, Prepend(b, t)) == PrependAll(p + [b], t)
  {
  }

  // Everything that can be extracted, and what stays in the buffer.
  function Drained(buf: seq<byte>): (r: (seq<seq<byte>>, seq<byte>))
    decreases |buf|
  {
    match Extract(buf)
    case None => ([], buf)
    case Some((payload, rest)) =>
      ExtractShrinks(buf);
      var (more, left) := Drained(rest);
      ([payload] + more, left)
  }

  class StreamClient {
    var pending: seq<byte>
    var frames: seq<seq<byte>>

    constructor ()
      ensures pending == [] && frames == []
    {
      pending, frames := [], [];
    }

    // One read from the connection, and the extraction loop that follows it.
    method Receive(chunk: seq<byte>)
      modifies this
      ensures var (more, left) := Drained(old(pending) + chunk);
              frames == old(frames) + more && pending == left
    {
      pending := pending + chunk;
      ghost var all := pending;
      while true
        invariant var (more, left) := Drained(all); var (rest, left') := Drained(pending);
                  frames + rest == old(frames) + more && left' == left
        decreases |pending|
      {
        var frame, rest := ExtractFrame(pending);
        if frame.None? {
          break;
        }
        ExtractShrinks(pending);
        ghost var later := Drained(rest).0;
        assert frames + ([frame.value] + later) == frames + [frame.value] + later;
        pending := rest;
        frames := frames + [frame.value];
      }
    }
  }

  // ---------- a stream of frames, cut anywhere ----------

  function StreamOf(ps: seq<seq<byte>>): (r: seq<byte>) {
    if ps == [] then [] else Framed(ps[0]) + StreamOf(ps[1..])
  }

  ghost predicate AllPayloads(ps: seq<seq<byte>>) { forall p <- ps :: IsPayload(p) }

  // A frame that has begun and not ended, or nothing.
  ghost predicate Unfinished(q: seq<byte>, p: seq<byte>) { q <= Framed(p) && |q| < |Framed(p)| }

  lemma TakeOne(b: byte, tail: seq<byte>, n: nat)
    requires n > 0
    ensures Take((if b == ESCAPE then [ESCAPE, ESCAPE] else [b]) + tail, n) == Prepend(b, Take(tail, n - 1))
  {
  }

  lemma {:induction false} TakeEscaped(p: seq<byte>, rest: seq<byte>)
    ensures Take(Escaped(p) + rest, |p|) == Done(p, rest)
  {
    if p == [] {
      assert Escaped(p) + rest == rest;
    } else {
      hide Take;
      TakeEscaped(p[1..], rest);
      var tail := Escaped(p[1..]) + rest;
      var head := if p[0] == ESCAPE then [ESCAPE, ESCAPE] else [p[0]];
      assert Escaped(p) + rest == head + tail;
      TakeOne(p[0], tail, |p|);
      assert [p[0]] + p[1..] == p;
    }
  }

  lemma {:induction false} TakeUnfinished(p: seq<byte>, q: seq<byte>)
    requires q <= Escaped(p) && |q| < |Escaped(p)|
    ensures Take(q, |p|) == Short
  {
    var e := Escaped(p[1..]);
    if p[0] == ESCAPE {
      assert Escaped(p) == [ESCAPE, ESCAPE] + e;
      if |q| >= 2 {
        assert q[2..] <= e;
        TakeUnfinished(p[1..], q[2..]);
      }
    } else {
      assert Escaped(p) == [p[0]] + e;
      if |q| >= 1 {
        assert q[1..] <= e;
        TakeUnfinished(p[1..], q[1..]);
      }
    }
  }

  lemma FirstOfFrame(p: seq<byte>)
    requires IsPayload(p)
    ensures |Framed(p)| >= 3 && Framed(p)[0] == ESCAPE && Framed(p)[1] == p[0]
  {
    assert Escaped(p) == [p[0]] + Escaped(p[1..]);
    assert p[1..] != [];
  }

  // The first frame comes out whole, whatever follows it.
  lemma ExtractWholeFrame(p: seq<byte>, rest: seq<byte>)
    requires IsPayload(p)
    ensures Extract(Framed(p) + rest) == Some((p, rest))
  {
    FirstOfFrame(p);
    TakeEscaped(p, rest);
    assert (Framed(p) + rest)[1..] == Escaped(p) + rest;
  }

  lemma ExtractUnfinished(p: seq<byte>, q: seq<byte>)
    requires IsPayload(p) && Unfinished(q, p)
    ensures Extract(q) == None
  {
    hide Take, Escaped;
    FirstOfFrame(p);
    if |q| >= 3 {
      assert q[0] == Framed(p)[0] && q[1] == Framed(p)[1];
      assert q[1..] <= Framed(p)[1..] == Escaped(p);
      TakeUnfinished(p, q[1..]);
    } else {
      StartIsSuffix(q);
    }
  }

  lemma {:induction false} DrainStream(ps: seq<seq<byte>>, q: seq<byte>)
    requires AllPayloads(ps) && (q == [] || exists p :: IsPayload(p) && Unfinished(q, p))
    ensures Drained(StreamOf(ps) + q) == (ps, q)
  {
    if ps == [] {
      assert StreamOf(ps) + q == q;
      if p :| IsPayload(p) && Unfinished(q, p) {
        ExtractUnfinished(p, q);
      }
    } else {
      assert StreamOf(ps) + q == Framed(ps[0]) + (StreamOf(ps[1..]) + q);
      ExtractWholeFrame(ps[0], StreamOf(ps[1..]) + q);
      DrainStream(ps[1..], q);
      assert [ps[0]] + ps[1..] == ps;
    }
  }

  // How far a part of a stream gets: complete frames, and the beginning of the next.
  lemma {:induction false} CutStream(ps: seq<seq<byte>>, part: seq<byte>) returns (k: nat, q: seq<byte>)
    requires AllPayloads(ps) && part <= StreamOf(ps)
    ensures k <= |ps| && part == StreamOf(ps[..k]) + q
    ensures if k == |ps| then q == [] else Unfinished(q, ps[k])
  {
    if ps == [] {
      k, q := 0, [];
    } else {
      var f := Framed(ps[0]);
      if |part| < |f| {
        k, q := 0, part;
        assert StreamOf(ps) == f + StreamOf(ps[1..]);
        assert part <= f;
        assert ps[..0] == [] && StreamOf(ps[..0]) + q == q;
      } else {
        assert part == f + part[|f|..];
        var k', q' := CutStream(ps[1..], part[|f|..]);
        k, q := k' + 1, q';
        assert ps[..k][1..] == ps[1..][..k'];
        assert StreamOf(ps[..k]) == f + StreamOf(ps[1..][..k']);
        assert part == StreamOf(ps[..k]) + q;
        assert k < |ps| ==> ps[k] == ps[1..][k'];
      }
    }
  }

  // What a client has made of the part of a stream that it received so far.
  ghost predicate ReadSoFar(ps: seq<seq<byte>>, part: seq<byte>, frames: seq<seq<byte>>, pending: seq<byte>) {
    && frames <= ps
    && part == StreamOf(frames) + pending
    && if frames == ps then pending == [] else Unfinished(pending, ps[|frames|])
  }

  lemma {:induction false} StreamOfAppend(a: seq<seq<byte>>, b: seq<seq<byte>>)
    ensures StreamOf(a + b) == StreamOf(a) + StreamOf(b)
  {
    if a == [] {
      assert a + b == b;
    } else {
      assert (a + b)[1..] == a[1..] + b;
      StreamOfAppend(a[1..], b);
    }
  }

  /** One more chunk, of any size: the frames it completes come out, in order and unchanged, and only the
      beginning of the next frame stays in the buffer. */
  lemma NextChunk(ps: seq<seq<byte>>, part: seq<byte>, frames: seq<seq<byte>>, pending: seq<byte>, chunk: seq<byte>)
    requires AllPayloads(ps) && ReadSoFar(ps, part, frames, pending)
    requires part + chunk <= StreamOf(ps)
    ensures var (more, left) := Drained(pending + chunk);
            ReadSoFar(ps, part + chunk, frames + more, left)
  {
    hide Drained, StreamOf, Unfinished, IsPayload;
    var more, q := CutChunk(ps, part, frames, pending, chunk);
    if frames + more != ps {
      assert ps[|frames + more|] in ps;
    }
    DrainStream(more, q);
  }

  // The frames a chunk completes, and the beginning of the next one.
  lemma CutChunk(ps: seq<seq<byte>>, part: seq<byte>, frames: seq<seq<byte>>, pending: seq<byte>, chunk: seq<byte>)
    returns (more: seq<seq<byte>>, q: seq<byte>)
    requires AllPayloads(ps) && ReadSoFar(ps, part, frames, pending)
    requires part + chunk <= StreamOf(ps)
    ensures AllPayloads(more) && pending + chunk == StreamOf(more) + q
    ensures ReadSoFar(ps, part + chunk, frames + more, q)
  {
    hide Drained, StreamOf, Unfinished, IsPayload;
    var rest := ps[|frames|..];
    assert ps == frames + rest;
    StreamOfAppend(frames, rest);
    assert part + chunk == StreamOf(frames) + (pending + chunk);
    PrefixCancel(StreamOf(frames), pending + chunk, StreamOf(rest));
    var k;
    k, q := CutStream(rest, pending + chunk);
    more := rest[..k];
    StreamOfAppend(frames, more);
    assert StreamOf(frames) + (StreamOf(more) + q) == StreamOf(frames + more) + q;
    assert k < |rest| ==> rest[k] == ps[|frames + more|];
    assert k == |rest| ==> frames + more == ps;
  }

  lemma PrefixCancel(a: seq<byte>, b: seq<byte>, c: seq<byte>)
    requires a + b <= a + c
    ensures b <= c
  {
    assert forall k :: 0 <= k < |b| ==> b[k] == (a + b)[|a| + k] == (a + c)[|a| + k] == c[k];
  }

  function Joined(chunks: seq<seq<byte>>): (r: seq<byte>) {
    if chunks == [] then [] else Joined(chunks[..|chunks| - 1]) + chunks[|chunks| - 1]
  }

  /** Any stream of frames, cut into chunks in any way, is read back exactly. */
  method ReadInChunks(ps: seq<seq<byte>>, chunks: seq<seq<byte>>) returns (client: StreamClient)
    requires AllPayloads(ps) && Joined(chunks) == StreamOf(ps)
    ensures client.frames == ps && client.pending == []
  {
    client := new StreamClient();
    for i := 0 to |chunks|
      invariant fresh(client)
      invariant ReadSoFar(ps, Joined(chunks[..i]), client.frames, client.pending)
    {
      JoinedPrefix(chunks, i + 1);
      assert chunks[..i + 1][..i] == chunks[..i];
      NextChunk(ps, Joined(chunks[..i]), client.frames, client.pending, chunks[i]);
      client.Receive(chunks[i]);
    }
    assert chunks[..|chunks|] == chunks;
    WholeStreamRead(ps, client.frames, client.pending);
  }

  lemma {:induction false} JoinedPrefix(chunks: seq<seq<byte>>, i: nat)
    requires i <= |chunks|
    ensures Joined(chunks[..i]) <= Joined(chunks)
    decreases |chunks| - i
  {
    if i < |chunks| {
      JoinedPrefix(chunks, i + 1);
      assert chunks[..i + 1][..i] == chunks[..i];
    } else {
      assert chunks[..i] == chunks;
    }
  }

  lemma StreamHasFirstFrame(ps: seq<seq<byte>>)
    requires ps != []
    ensures |StreamOf(ps)| >= |Framed(ps[0])|
  {
  }

  lemma WholeStreamRead(ps: seq<seq<byte>>, frames: seq<seq<byte>>, pending: seq<byte>)
    requires AllPayloads(ps) && ReadSoFar(ps, StreamOf(ps), frames, pending)
    ensures frames == ps && pending == []
  {
    hide StreamOf, Framed;
    var rest := ps[|frames|..];
    assert ps == frames + rest;
    StreamOfAppend(frames, rest);
    assert |pending| == |StreamOf(rest)|;
    if rest != [] {
      StreamHasFirstFrame(rest);
    }
  }

  // ---------- the Python extractor ----------

  // extract_frames: unlike the client, it looks further when a type byte is unknown.
  function PyFrames(buf: seq<byte>): (r: (seq<seq<byte>>, seq<byte>))
    decreases |buf|
  {
    if buf == [] then ([], [])
    else if buf[0] != ESCAPE then PyFrames(buf[1..])
    else if |buf| < 2 then ([], buf)
    else if buf[1] == ESCAPE then PyFrames(buf[2..])
    else if !KnownType(buf[1]) then PyFrames(buf[1..])
    else match Take(buf[1..], PayloadLength(buf[1]))
      case Done(payload, rest) =>
        TakeConsumes(buf[1..], PayloadLength(buf[1]));
        var (more, left) := PyFrames(rest);
        ([payload] + more, left)
      case _ => ([], buf)
  }

  method ExtractFrames(buf: seq<byte>) returns (frames: seq<seq<byte>>, left: seq<byte>)
    ensures (frames, left) == PyFrames(buf)
  {
    frames := [];
    var i := 0;
    while true
      invariant 0 <= i <= |buf|
      invariant var (all, end) := PyFrames(buf); var (more, end') := PyFrames(buf[i..]);
                frames + more == all && end' == end
      decreases |buf| - i
    {
      var start := IndexOfEscape(buf, i);
      assert frames + [] == frames;
      if start == |buf| {
        return frames, [];
      }
      if start + 2 > |buf| {
        return frames, buf[start..];
      }
      var frameType := buf[start + 1];
      if frameType == ESCAPE {
        i := start + 2;
        assert buf[start..][2..] == buf[i..];
        continue;
      }
      if !KnownType(frameType) {
        i := start + 1;
        assert buf[start..][1..] == buf[i..];
        continue;
      }
      var payload, j := ReadPayload(buf, start + 1, PayloadLength(frameType));
      assert buf[start..][1..] == buf[start + 1..];
      if payload.None? {
        return frames, buf[start..];
      }
      var more := PyFrames(buf[j..]).0;
      assert frames + ([payload.value] + more) == frames + [payload.value] + more;
      frames := frames + [payload.value];
      i := j;
    }
  }

  // buf.index(ESC, i), with the length for "not found".
  method IndexOfEscape(buf: seq<byte>, i: nat) returns (start: nat)
    requires i <= |buf|
    ensures i <= start <= |buf| && (start < |buf| ==> buf[start] == ESCAPE)
    ensures PyFrames(buf[i..]) == PyFrames(buf[start..])
  {
    start := i;
    while start < |buf| && buf[start] != ESCAPE
      invariant i <= start <= |buf| && PyFrames(buf[i..]) == PyFrames(buf[start..])
    {
      assert buf[start..][1..] == buf[start + 1..];
      start := start + 1;
    }
  }

  method ReadPayload(buf: seq<byte>, from: nat, n: nat) returns (r: Option<seq<byte>>, j: nat)
    requires from <= |buf|
    ensures j <= |buf|
    ensures r == (var t := Take(buf[from..], n); if t.Done? then Some(t.bytes) else None)
    ensures r.Some? ==> Take(buf[from..], n).rest == buf[j..] && j >= from
  {
    var payload: seq<byte> := [];
    j := from;
    ghost var whole := Take(buf[from..], n);
    while |payload| < n
      invariant from <= j <= |buf| && |payload| <= n
      invariant whole == PrependAll(payload, Take(buf[j..], n - |payload|))
      decreases n - |payload|
    {
      if j >= |buf| {
        return None, j;
      }
      var b := buf[j];
      ghost var p := payload;
      if b == ESCAPE {
        if j + 1 >= |buf| {
          return None, j;
        }
        if buf[j + 1] != ESCAPE {
          return None, j;
        }
        PrependLast(p, ESCAPE, Take(buf[j + 2..], n - |p| - 1));
        payload := payload + [ESCAPE];
        j := j + 2;
      } else {
        PrependLast(p, b, Take(buf[j + 1..], n - |p| - 1));
        payload := payload + [b];
        j := j + 1;
      }
    }
    assert payload + [] == payload;
    r := Some(payload);
  }

  lemma PyUnfinished(p: seq<byte>, q: seq<byte>)
    requires IsPayload(p) && Unfinished(q, p)
    ensures PyFrames(q) == ([], q)
  {
    FirstOfFrame(p);
    if |q| >= 2 {
      assert q[1..] <= Escaped(p);
      TakeUnfinished(p, q[1..]);
    }
  }

  lemma PyWholeFrame(p: seq<byte>, rest: seq<byte>)
    requires IsPayload(p)
    ensures var (more, left) := PyFrames(rest); PyFrames(Framed(p) + rest) == ([p] + more, left)
  {
    FirstOfFrame(p);
    TakeEscaped(p, rest);
    assert (Framed(p) + rest)[1..] == Escaped(p) + rest;
  }

  /** On a stream of frames, however far it got, the two extractors agree. */
  lemma {:induction false} ExtractorsAgree(ps: seq<seq<byte>>, q: seq<byte>)
    requires AllPayloads(ps) && (q == [] || exists p :: IsPayload(p) && Unfinished(q, p))
    ensures PyFrames(StreamOf(ps) + q) == Drained(StreamOf(ps) + q) == (ps, q)
  {
    hide Drained, Framed, Unfinished, IsPayload;
    DrainStream(ps, q);
    if ps == [] {
      assert StreamOf(ps) + q == q;
      if p :| IsPayload(p) && Unfinished(q, p) {
        PyUnfinished(p, q);
      }
    } else {
      var rest := StreamOf(ps[1..]) + q;
      assert StreamOf(ps) + q == Framed(ps[0]) + rest;
      PyWholeFrame(ps[0], rest);
      ExtractorsAgree(ps[1..], q);
      assert ps == [ps[0]] + ps[1..];
    }
  }
}
