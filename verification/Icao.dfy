/**
  The ICAO filter: addresses heard lately, with entries deleted whenever it is convenient.  Times are readings
  of the runtime's monotonic clock.
 */
module Icao {
  // An address heard at a time, in nanoseconds.
  datatype Heard = Heard(addr: nat, time: int)

  // The reference: the whole history is kept, and an address is recent if some entry is young enough.
  ghost predicate Recent(history: seq<Heard>, addr: nat, now: int, ttl: int) {
    exists i :: 0 <= i < |history| && history[i].addr == addr && now - history[i].time <= ttl
  }

  ghost predicate Ordered(history: seq<Heard>, clock: int) {
    && (forall i, j :: 0 <= i <= j < |history| ==> history[i].time <= history[j].time)
    && forall h <- history :: h.time <= clock
  }

  // The table tells at least as much as the young entries of the history, and nothing that is not in it.
  ghost predicate Agrees(addrs: map<nat, int>, history: seq<Heard>, clock: int, ttl: int) {
    && (forall a <- addrs :: Heard(a, addrs[a]) in history)
    && (forall h <- history :: clock - h.time <= ttl ==> h.addr in addrs && h.time <= addrs[h.addr])
  }

  /** A table that has lost any entries it was free to lose answers like the full history, now and later. */
  lemma TableAnswersForHistory(addrs: map<nat, int>, history: seq<Heard>, clock: int, ttl: int, addr: nat, now: int)
    requires Agrees(addrs, history, clock, ttl) && clock <= now
    ensures (addr in addrs && now - addrs[addr] <= ttl) <==> Recent(history, addr, now, ttl)
  {
  }

  /** Deleting an old entry, at any moment, keeps that agreement: eagerly, lazily or never, the answers are the same. */
  lemma DeletingOldIsHarmless(addrs: map<nat, int>, history: seq<Heard>, now: int, ttl: int, addr: nat)
    requires Agrees(addrs, history, now, ttl)
    requires addr in addrs && now - addrs[addr] > ttl
    ensures Agrees(addrs - {addr}, history, now, ttl)
  {
  }

  lemma StillAgrees(addrs: map<nat, int>, history: seq<Heard>, clock: int, now: int, ttl: int)
    requires Ordered(history, clock) && Agrees(addrs, history, clock, ttl) && clock <= now
    ensures Ordered(history, now) && Agrees(addrs, history, now, ttl)
  {
  }

  class Filter {
    var addrs: map<nat, int>
    const ttl: int
    ghost var history: seq<Heard>
    ghost var clock: int

    ghost predicate Valid()
      reads this
    {
      Ordered(history, clock) && Agrees(addrs, history, clock, ttl)
    }

    constructor (ttl: int, ghost now: int)
      ensures Valid() && history == [] && this.ttl == ttl && clock == now
    {
      this.ttl := ttl;
      addrs, history, clock := map[], [], now;
    }

    method Add(addr: nat, now: int)
      requires Valid() && clock <= now
      modifies this
      ensures Valid() && history == old(history) + [Heard(addr, now)] && clock == now
      ensures addrs == old(addrs)[addr := now]
    {
      addrs := addrs[addr := now];
      history := history + [Heard(addr, now)];
      clock := now;
      assert Heard(addr, now) in history;
      assert forall h :: h in old(history) ==> h in history;
    }

    method Test(addr: nat, now: int) returns (known: bool)
      requires Valid() && clock <= now
      modifies this
      ensures Valid() && history == old(history) && clock == now
      ensures known <==> Recent(history, addr, now, ttl)
      // An entry found to be too old is deleted.
      ensures addrs == old(addrs) - (if addr in old(addrs) && now - old(addrs)[addr] > ttl then {addr} else {})
    {
      TableAnswersForHistory(addrs, history, clock, ttl, addr, now);
      clock := now;
      if addr !in addrs {
        return false;
      }
      if now - addrs[addr] > ttl {
        DeletingOldIsHarmless(addrs, history, now, ttl, addr);
        addrs := addrs - {addr};
        return false;
      }
      known := true;
    }

    method Expire(now: int)
      requires Valid() && clock <= now
      modifies this
      ensures Valid() && history == old(history) && clock == now
      ensures addrs == map a | a in old(addrs) && now - old(addrs)[a] <= ttl :: old(addrs)[a]
    {
      hide Ordered, Agrees;
      StillAgrees(addrs, history, clock, now, ttl);
      clock := now;
      var todo := addrs.Keys;
      while todo != {}
        invariant Valid() && history == old(history) && clock == now
        invariant forall a :: a in addrs <==> a in old(addrs) && (a in todo || now - old(addrs)[a] <= ttl)
        invariant forall a <- addrs :: addrs[a] == old(addrs)[a]
        decreases todo
      {
        var a :| a in todo;
        if a in addrs && now - addrs[a] > ttl {
          DeletingOldIsHarmless(addrs, history, now, ttl, a);
          addrs := addrs - {a};
        }
        todo := todo - {a};
      }
    }
  }
}
