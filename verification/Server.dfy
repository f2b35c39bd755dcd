/**
  The TCP fan-out: clients with bounded queues, admission with a greeting, broadcasts that never block.
  Each method is one critical section under the server's mutex, or one step of a client's writer.
 */
module Server {
  import opened Words
  import opened Wrappers

  type Frame = seq<byte>

  const CLIENT_BUF_SIZE: nat := 256

  // A broadcast as one client met it: how many frames its queue held at that moment.
  datatype Offer = Offer(frame: Frame, held: nat)

  // The broadcasts that found room.
  function Taken(offers: seq<Offer>): (r: seq<Frame>) {
    if offers == [] then []
    else
      var o := offers[|offers| - 1];
      Taken(offers[..|offers| - 1]) + if o.held < CLIENT_BUF_SIZE then [o.frame] else []
  }

  lemma TakenGrows(offers: seq<Offer>, o: Offer)
    ensures Taken(offers + [o]) == if o.held < CLIENT_BUF_SIZE then Taken(offers) + [o.frame] else Taken(offers)
  {
  }

  function FramesOf(offers: seq<Offer>): (f: seq<Frame>)
    ensures |f| == |offers|
  {
    seq(|offers|, i requires 0 <= i < |offers| => offers[i].frame)
  }

  // Its connection, seen from the server: what has been written, and the channel.
  class Client {
    var written: seq<Frame>
    var channel: seq<Frame>
    var channelClosed: bool
    var connClosed: bool
    // The write loop has returned.
    var writerDone: bool
    // The greeting at admission, every broadcast since, and the frame whose write failed.
    ghost var greeting: seq<Frame>
    ghost var offers: seq<Offer>
    ghost var lost: seq<Frame>

    // Exactly the greeting and the broadcasts that found room, in order: sent, or still queued.  A frame
    // can be lost in between only by a failed write, after which nothing is written any more.
    ghost predicate Valid()
      reads this
    {
      && |channel| <= CLIENT_BUF_SIZE
      && written + lost + channel == greeting + Taken(offers)
      && (lost != [] ==> writerDone)
      && forall o <- offers :: o.held <= CLIENT_BUF_SIZE
    }

    constructor (greeting: seq<Frame>)
      requires |greeting| <= CLIENT_BUF_SIZE
      ensures Valid() && !channelClosed && !connClosed && !writerDone
      ensures written == [] && channel == greeting && this.greeting == greeting && offers == []
    {
      written, channel, channelClosed, connClosed, writerDone := [], greeting, false, false, false;
      this.greeting, offers, lost := greeting, [], [];
    }

    // A send that is skipped when the buffer is full.  Sending on a closed channel would panic.
    method Send(frame: Frame)
      requires Valid() && !channelClosed
      modifies this`channel, this`offers
      ensures Valid() && offers == old(offers) + [Offer(frame, |old(channel)|)]
      ensures channel == if |old(channel)| < CLIENT_BUF_SIZE then old(channel) + [frame] else old(channel)
    {
      hide Taken;
      TakenGrows(offers, Offer(frame, |channel|));
      assert written + lost + (channel + [frame]) == written + lost + channel + [frame];
      assert greeting + (Taken(offers) + [frame]) == greeting + Taken(offers) + [frame];
      if |channel| < CLIENT_BUF_SIZE {
        channel := channel + [frame];
      }
      offers := offers + [Offer(frame, |old(channel)|)];
    }

    // Closing a closed channel would panic.
    method CloseChannel()
      requires Valid() && !channelClosed
      modifies this`channelClosed
      ensures Valid() && channelClosed
    {
      channelClosed := true;
    }
  }

  lemma Regroup(a: seq<Frame>, lost: seq<Frame>, f: Frame, rest: seq<Frame>)
    ensures lost == [] ==> a + lost + ([f] + rest) == a + [f] + rest == a + [f] + lost + rest
  {
  }

  class Server {
    var clients: set<Client>
    var done: bool
    var welcomeFrames: Option<seq<Frame>>

    // Registered clients have open channels.
    ghost predicate Valid()
      reads this, clients
    {
      && (welcomeFrames.Some? ==> |welcomeFrames.value| <= CLIENT_BUF_SIZE)
      && forall c <- clients :: c.Valid() && !c.channelClosed
    }

    constructor ()
      ensures Valid() && clients == {} && !done && welcomeFrames == None
    {
      clients, done, welcomeFrames := {}, false, None;
    }

    method SetWelcomeFrames(frames: seq<Frame>)
      requires Valid() && |frames| <= CLIENT_BUF_SIZE
      modifies this`welcomeFrames
      ensures Valid() && welcomeFrames == Some(frames)
    {
      welcomeFrames := Some(frames);
    }

    // Admission, by AddConn or by the accept loop: the greeting is queued before any broadcast can be.
    method Admit() returns (c: Client)
      requires Valid()
      modifies this`clients
      ensures Valid() && fresh(c) && clients == old(clients) + {c}
      ensures c.greeting == if welcomeFrames.Some? then welcomeFrames.value else []
      ensures c.written == [] && c.offers == []
    {
      c := new Client(if welcomeFrames.Some? then welcomeFrames.value else []);
      clients := clients + {c};
    }

    method Broadcast(frame: Frame)
      requires Valid()
      modifies clients`channel, clients`offers
      ensures Valid()
      ensures forall c <- clients :: c.offers == old(c.offers) + [Offer(frame, |old(c.channel)|)]
    {
      hide Client.Valid, Taken;
      var todo := clients;
      while todo != {}
        invariant todo <= clients
        invariant forall c <- clients :: c.Valid() && !c.channelClosed
        invariant forall c <- todo :: c.channel == old(c.channel) && c.offers == old(c.offers)
        invariant forall c <- clients - todo :: c.offers == old(c.offers) + [Offer(frame, |old(c.channel)|)]
        decreases todo
      {
        var c :| c in todo;
        c.Send(frame);
        todo := todo - {c};
      }
    }

    method RemoveClient(c: Client)
      requires Valid()
      modifies this`clients, c`connClosed
      ensures Valid() && clients == old(clients) - {c}
      ensures c.connClosed == (old(c.connClosed) || c in old(clients))
      ensures old(c.Valid()) ==> c.Valid()
    {
      if c in clients {
        clients := clients - {c};
        c.connClosed := true;
      }
    }

    // One turn of the write loop: the next frame, and whether writing it fails; or the end of a closed channel.
    method WriteNext(c: Client, fails: bool)
      requires Valid() && c.Valid() && !c.writerDone
      modifies this`clients, c`written, c`channel, c`connClosed, c`writerDone, c`lost
      ensures Valid() && c.Valid() && c.offers == old(c.offers) && c.greeting == old(c.greeting)
      ensures clients == if fails && old(c.channel) != [] then old(clients) - {c} else old(clients)
      ensures c.written ==
              if fails || old(c.channel) == [] then old(c.written) else old(c.written) + [old(c.channel)[0]]
      ensures c.channel == if old(c.channel) == [] then [] else old(c.channel)[1..]
      ensures c.writerDone == if old(c.channel) == [] then c.channelClosed else fails
      ensures old(c.channel) == [] && c.channelClosed ==> c.connClosed
    {
      hide Taken;
      if c.channel != [] {
        var frame, rest := c.channel[0], c.channel[1..];
        Regroup(c.written, c.lost, frame, rest);
        assert c.channel == [frame] + rest;
        c.channel := rest;
        if fails {
          c.lost := [frame];
          c.writerDone := true;
          RemoveClient(c);
        } else {
          c.written := c.written + [frame];
        }
      } else if c.channelClosed {
        c.connClosed := true;
        c.writerDone := true;
      }
    }

    // Stop runs once, whoever calls it and however often.
    method Stop()
      requires Valid()
      modifies this`done, this`clients, clients`channelClosed
      ensures Valid() && done
      ensures clients == if old(done) then old(clients) else {}
      ensures forall c <- old(clients) :: c.Valid() && (c.channelClosed <==> !old(done))
    {
      hide Client.Valid, Taken;
      if done {
        return;
      }
      done := true;
      var todo := clients;
      while todo != {}
        invariant todo <= clients && clients == old(clients) && done
        invariant forall c <- clients :: c.Valid()
        invariant forall c <- todo :: !c.channelClosed
        invariant forall c <- clients - todo :: c.channelClosed
        decreases todo
      {
        var c :| c in todo;
        c.CloseChannel();
        todo := todo - {c};
      }
      clients := {};
    }
  }

  /** A connection registered after Stop, on any server: it is registered with an open channel, and it still
      is after any number of further Stops. */
  method StopNeverReaches(s: Server, stops: nat) returns (c: Client)
    requires s.Valid() && s.done
    modifies s, s.clients
    ensures s.Valid() && s.done && fresh(c) && c in s.clients && !c.channelClosed
    ensures s.clients == old(s.clients) + {c}
  {
    c := s.Admit();
    ghost var clients := s.clients;
    for i := 0 to stops
      invariant s.Valid() && s.done && s.clients == clients
    {
      s.Stop();
    }
  }

  /** The writer of a closed client: as long as no write fails, it sends all that was queued, and then closes the
      connection.  Nothing that was ever queued for the client is missing. */
  method FinishClosed(s: Server, c: Client)
    requires s.Valid() && c.Valid() && c.channelClosed && !c.writerDone
    modifies s`clients, c`written, c`channel, c`connClosed, c`writerDone, c`lost
    ensures s.Valid() && c.Valid() && c.writerDone && c.connClosed
    ensures c.written == old(c.written) + old(c.channel) == c.greeting + Taken(c.offers)
  {
    hide Taken;
    while !c.writerDone
      invariant s.Valid() && c.Valid() && c.channelClosed
      invariant c.written + c.channel == old(c.written) + old(c.channel)
      invariant c.greeting == old(c.greeting) && c.offers == old(c.offers)
      invariant c.writerDone ==> c.channel == [] && c.connClosed && c.lost == []
      decreases !c.writerDone, |c.channel|
    {
      ghost var queue := c.channel;
      s.WriteNext(c, false);
      assert queue != [] ==> queue == [queue[0]] + c.channel;
    }
    assert c.written + [] + [] == c.written;
  }

  // ---------- what a client gets ----------

  // s is t with some elements left out; matched from the end.
  ghost predicate Subsequence(s: seq<Frame>, t: seq<Frame>) {
    s == [] || (t != [] &&
      var (m, n) := (|s| - 1, |t| - 1);
      if s[m] == t[n] then Subsequence(s[..m], t[..n]) || Subsequence(s, t[..n]) else Subsequence(s, t[..n]))
  }

  /** What a client is sent after its greeting is an in-order subsequence of the broadcasts since it was
      admitted, and if its queue was never full, all of them. */
  lemma {:induction false} ClientGetsBroadcasts(offers: seq<Offer>)
    ensures Subsequence(Taken(offers), FramesOf(offers))
    ensures (forall o <- offers :: o.held < CLIENT_BUF_SIZE) ==> Taken(offers) == FramesOf(offers)
  {
    if offers != [] {
      var n := |offers| - 1;
      ClientGetsBroadcasts(offers[..n]);
      var s, t := Taken(offers[..n]), FramesOf(offers);
      assert t[..n] == FramesOf(offers[..n]);
      if offers[n].held < CLIENT_BUF_SIZE {
        assert (s + [offers[n].frame])[..|s|] == s;
        assert t == t[..n] + [offers[n].frame];
      } else {
        assert Taken(offers) == s;
      }
    }
  }

  /** Nothing is missed but what met a full queue: the frames missing number exactly those. */
  lemma {:induction false} OnlyFullQueueMisses(offers: seq<Offer>)
    requires forall o <- offers :: o.held <= CLIENT_BUF_SIZE
    ensures |Taken(offers)| + Full(offers) == |offers|
  {
    if offers != [] {
      OnlyFullQueueMisses(offers[..|offers| - 1]);
    }
  }

  function Full(offers: seq<Offer>): (r: nat) {
    if offers == [] then 0
    else Full(offers[..|offers| - 1]) + if offers[|offers| - 1].held == CLIENT_BUF_SIZE then 1 else 0
  }
}
