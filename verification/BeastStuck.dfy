/**
  What the client does with bytes that are no frames.  The extractor announces that it skips an unknown
  type byte, but its caller drops what it returned, so the buffer never moves past it.
 */
module BeastStuck {
  import opened Words
  import opened Wrappers
  import opened Beast
  import opened BeastStream

  // The first frame start in the buffer has an unknown type, or its frame is cut short by another escape.
  predicate Stuck(buf: seq<byte>) {
    var s := SkipToStart(buf);
    |s| >= 2 && (!KnownType(s[1]) || Take(s[1..], PayloadLength(s[1])).Broken?)
  }

  lemma {:induction false} StartStays(buf: seq<byte>, more: seq<byte>)
    requires |SkipToStart(buf)| >= 2
    ensures SkipToStart(buf + more) == SkipToStart(buf) + more
  {
    if buf[0] != ESCAPE {
      assert (buf + more)[1..] == buf[1..] + more;
      StartStays(buf[1..], more);
    } else if |buf| > 1 && buf[1] == ESCAPE {
      assert (buf + more)[2..] == buf[2..] + more;
      StartStays(buf[2..], more);
    }
  }

  lemma {:induction false} BrokenStays(buf: seq<byte>, n: nat, more: seq<byte>)
    requires Take(buf, n).Broken?
    ensures Take(buf + more, n).Broken?
    decreases n
  {
    assert (buf + more)[1..] == buf[1..] + more;
    if buf[0] != ESCAPE {
      BrokenStays(buf[1..], n - 1, more);
    } else if buf[1] == ESCAPE {
      assert (buf + more)[2..] == buf[2..] + more;
      BrokenStays(buf[2..], n - 1, more);
    }
  }

  lemma StuckStays(buf: seq<byte>, more: seq<byte>)
    requires Stuck(buf)
    ensures Stuck(buf + more)
  {
    var s := SkipToStart(buf);
    StartStays(buf, more);
    assert (s + more)[1..] == s[1..] + more;
    if KnownType(s[1]) {
      BrokenStays(s[1..], PayloadLength(s[1]), more);
    }
  }

  // ---------- from every other buffer there is a way on ----------

  const SAMPLE: seq<byte> := [TYPE_SHORT] + seq(14, _ => 0)

  lemma {:induction false} NoStart(buf: seq<byte>, more: seq<byte>)
    requires SkipToStart(buf) == []
    ensures SkipToStart(buf + more) == SkipToStart(more)
  {
    if buf == [] {
      assert buf + more == more;
    } else if buf[0] != ESCAPE {
      assert (buf + more)[1..] == buf[1..] + more;
      NoStart(buf[1..], more);
    } else {
      assert (buf + more)[2..] == buf[2..] + more;
      NoStart(buf[2..], more);
    }
  }

  lemma {:induction false} LoneEscape(buf: seq<byte>, more: seq<byte>)
    requires SkipToStart(buf) == [ESCAPE] && more != [] && more[0] != ESCAPE
    ensures SkipToStart(buf + more) == [ESCAPE] + more
  {
    if buf[0] != ESCAPE {
      assert (buf + more)[1..] == buf[1..] + more;
      LoneEscape(buf[1..], more);
    } else if |buf| > 1 && buf[1] == ESCAPE {
      assert (buf + more)[2..] == buf[2..] + more;
      LoneEscape(buf[2..], more);
    }
  }

  lemma {:induction false} ShortCanBeCompleted(buf: seq<byte>, n: nat) returns (more: seq<byte>)
    requires Take(buf, n).Short?
    ensures Take(buf + more, n).Done?
    decreases n
  {
    if buf == [] {
      more := Escaped(seq(n, _ => 0));
      TakeEscaped(seq(n, _ => 0), []);
      assert buf + more == more + [];
    } else if buf[0] != ESCAPE {
      more := ShortCanBeCompleted(buf[1..], n - 1);
      assert (buf + more)[1..] == buf[1..] + more;
    } else if |buf| == 1 {
      more := [ESCAPE] + Escaped(seq(n - 1, _ => 0));
      TakeEscaped(seq(n - 1, _ => 0), []);
      assert (buf + more)[2..] == Escaped(seq(n - 1, _ => 0)) + [];
    } else {
      more := ShortCanBeCompleted(buf[2..], n - 1);
      assert (buf + more)[2..] == buf[2..] + more;
    }
  }

  lemma SampleIsPayload()
    ensures IsPayload(SAMPLE) && Framed(SAMPLE)[1] == TYPE_SHORT
    ensures Extract(Framed(SAMPLE)).Some? && |SkipToStart(Framed(SAMPLE))| >= 3
  {
    assert |SAMPLE| == 15 && SAMPLE[0] == TYPE_SHORT;
    FirstOfFrame(SAMPLE);
    ExtractWholeFrame(SAMPLE, []);
    assert Framed(SAMPLE) + [] == Framed(SAMPLE);
  }

  lemma SameStart(buf: seq<byte>, other: seq<byte>)
    requires SkipToStart(buf) == SkipToStart(other)
    ensures Extract(buf) == Extract(other)
  {
  }

  lemma StartOfStart(s: seq<byte>)
    requires |s| >= 2 && s[0] == ESCAPE && s[1] != ESCAPE
    ensures SkipToStart(s) == s
  {
  }

  lemma CanGoOn(buf: seq<byte>) returns (more: seq<byte>)
    requires !Stuck(buf)
    ensures Extract(buf + more).Some?
  {
    hide Take, Escaped, Extract;
    var s := SkipToStart(buf);
    SampleIsPayload();
    var f := Framed(SAMPLE);
    if s == [] {
      more := f;
      NoStart(buf, more);
      SameStart(buf + more, f);
    } else if |s| == 1 {
      more := f[1..];
      assert f == [ESCAPE] + more;
      LoneEscape(buf, more);
      StartOfStart(f);
      SameStart(buf + more, f);
    } else {
      more := StartedCanGoOn(buf, s);
    }
  }

  lemma StartedCanGoOn(buf: seq<byte>, s: seq<byte>) returns (more: seq<byte>)
    requires s == SkipToStart(buf) && |s| >= 2 && KnownType(s[1]) && !Take(s[1..], PayloadLength(s[1])).Broken?
    ensures Extract(buf + more).Some?
  {
    hide Take, SkipToStart;
    var n := PayloadLength(s[1]);
    if Take(s[1..], n).Done? {
      more := [];
      TakeConsumes(s[1..], n);
      assert buf + more == buf;
    } else {
      more := ShortCanBeCompleted(s[1..], n);
      StartStays(buf, more);
      assert (s + more)[1..] == s[1..] + more;
      TakeConsumes(s[1..] + more, n);
    }
  }

  /** A client can be brought to another frame by further bytes exactly if it is not stuck: no data, however
      well formed, helps against an unknown type byte or a frame cut short. */
  lemma NoWayOnIffStuck(buf: seq<byte>)
    ensures Stuck(buf) <==> forall more :: Extract(buf + more) == None
  {
    if Stuck(buf) {
      forall more
        ensures Extract(buf + more) == None
      {
        StuckStays(buf, more);
      }
    } else {
      var more := CanGoOn(buf);
      assert Extract(buf + more) != None;
    }
  }

  /** Once stuck, the client reports nothing any more and keeps everything it receives. */
  lemma StuckClientOnlyGrows(pending: seq<byte>, chunk: seq<byte>)
    requires Stuck(pending)
    ensures Drained(pending + chunk) == ([], pending + chunk) && Stuck(pending + chunk)
  {
    StuckStays(pending, chunk);
  }

  // ---------- what the ignored remainder would have been good for ----------

  lemma {:induction false} SkipJunk(junk: seq<byte>, tail: seq<byte>)
    requires ESCAPE !in junk
    ensures SkipToStart(junk + tail) == SkipToStart(tail)
  {
    if junk == [] {
      assert junk + tail == tail;
    } else {
      assert (junk + tail)[1..] == junk[1..] + tail;
      SkipJunk(junk[1..], tail);
    }
  }

  /** A frame of unknown type in front of a good one: the client, which drops the remainder, is stuck, although
      extracting from the remainder gives the good frame. */
  lemma RemainderWouldResync(t: byte, junk: seq<byte>, p: seq<byte>, rest: seq<byte>)
    requires !KnownType(t) && t != ESCAPE && ESCAPE !in junk && IsPayload(p)
    ensures var buf := [ESCAPE, t] + junk + (Framed(p) + rest);
            Stuck(buf) && Extract(Remaining(buf)) == Some((p, rest))
  {
    var tail := Framed(p) + rest;
    var buf := [ESCAPE, t] + junk + tail;
    FirstOfFrame(p);
    assert SkipToStart(buf) == buf;
    assert buf[1..] == ([t] + junk) + tail;
    SkipJunk([t] + junk, tail);
    SameStart(buf[1..], tail);
    ExtractWholeFrame(p, rest);
  }
}
