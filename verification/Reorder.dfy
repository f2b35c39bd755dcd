/**
  The reorder buffer: a binary heap on the time of arrival, from which messages are released once they
  are older than the newest arrival by the lateness window, or when too many are held.
 */
module Reorder {
  import opened Words
  import opened Regs

  // ---------- the heap ----------

  function Parent(j: nat): (i: nat)
    ensures j > 0 ==> i < j
  {
    if j == 0 then 0 else (j - 1) / 2
  }

  ghost predicate HeapOrdered(h: seq<Message>, j: nat)
    requires j < |h|
  {
    h[Parent(j)].toa <= h[j].toa
  }

  ghost predicate IsHeap(h: seq<Message>) { forall j :: 0 <= j < |h| ==> HeapOrdered(h, j) }

  lemma {:induction false} RootIsMinimal(h: seq<Message>, j: nat)
    requires IsHeap(h) && j < |h|
    ensures h[0].toa <= h[j].toa
  {
    if j > 0 {
      RootIsMinimal(h, Parent(j));
      assert HeapOrdered(h, j);
    }
  }

  function Swap(h: seq<Message>, i: nat, j: nat): (r: seq<Message>)
    requires i < |h| && j < |h|
    ensures |r| == |h| && multiset(r) == multiset(h)
    ensures r[i] == h[j] && r[j] == h[i] && forall k :: 0 <= k < |h| && k != i && k != j ==> r[k] == h[k]
  {
    h[i := h[j]][j := h[i]]
  }

  // Everything is in order on the first n places except, possibly, i against its children.
  ghost predicate SiftingDown(h: seq<Message>, n: nat, i: nat)
    requires n <= |h| && i < |h|
  {
    && (forall k :: 0 < k < n && Parent(k) != i ==> HeapOrdered(h, k))
    && (i > 0 ==> forall k :: 0 < k < n && Parent(k) == i ==> h[Parent(i)].toa <= h[k].toa)
  }

  // The smaller of the children of i that lie within the first n places.
  function SmallerChild(h: seq<Message>, n: nat, i: nat): (j: nat)
    requires 2 * i + 1 < n <= |h|
    ensures j < n && j > i && Parent(j) == i
    ensures forall k :: 0 < k < n && Parent(k) == i ==> h[j].toa <= h[k].toa
  {
    var j1 := 2 * i + 1;
    var j2 := j1 + 1;
    if j2 < n && h[j2].toa < h[j1].toa then j2 else (
      assert forall k :: 0 < k < n && Parent(k) == i ==> k == j1 || k == j2;
      j1)
  }

  lemma SiftDownStep(h: seq<Message>, n: nat, i: nat, j: nat)
    requires n <= |h| && i < |h| && SiftingDown(h, n, i)
    requires 0 < j < n && Parent(j) == i && h[j].toa < h[i].toa
    requires forall k :: 0 < k < n && Parent(k) == i ==> h[j].toa <= h[k].toa
    ensures SiftingDown(Swap(h, i, j), n, j)
  {
  }

  lemma SiftDownDone(h: seq<Message>, n: nat, i: nat)
    requires n <= |h| && i < |h| && SiftingDown(h, n, i)
    requires forall k :: 0 < k < n && Parent(k) == i ==> h[i].toa <= h[k].toa
    ensures IsHeap(h[..n])
  {
  }

  // ---------- what one Push does ----------

  // The buffer seen from outside: what it holds, and the newest time of arrival so far.
  datatype View = View(held: multiset<Message>, newest: uint64, haveNewest: bool)

  // Older than the newest arrival by at least the window; the sum is taken in 64 bits.
  predicate Ready(m: Message, newest: uint64, window: uint64) { Wrap64(m.toa + window) <= newest }

  ghost predicate Sorted(s: seq<Message>) { forall i, j :: 0 <= i < j < |s| ==> s[i].toa <= s[j].toa }

  ghost predicate AllBefore(s: seq<Message>, held: multiset<Message>) {
    forall a, b :: a in s && b in held ==> a.toa <= b.toa
  }

  function Newest(v: View, m: Message): (r: uint64) {
    if !v.haveNewest || m.toa > v.newest then m.toa else v.newest
  }

  ghost predicate Oldest(m: Message, held: multiset<Message>) {
    m in held && forall h :: h in held ==> m.toa <= h.toa
  }

  // out was taken, in order, from what was held, each message for a reason.
  ghost predicate Releasing(window: uint64, limit: nat, all: multiset<Message>, newest: uint64,
                            out: seq<Message>, left: multiset<Message>)
  {
    && multiset(out) + left == all
    && Sorted(out)
    && AllBefore(out, left)
    && (forall k :: 0 <= k < |out| ==> Ready(out[k], newest, window) || |left| + |out| - k > limit)
  }

  // ... and what is left has no reason to leave.
  ghost predicate Releases(window: uint64, limit: nat, all: multiset<Message>, newest: uint64,
                           out: seq<Message>, left: multiset<Message>)
  {
    && Releasing(window, limit, all, newest, out, left)
    && |left| <= limit
    && (forall m :: Oldest(m, left) ==> !Ready(m, newest, window))
  }

  ghost predicate Pushes(window: uint64, limit: nat, v: View, m: Message, out: seq<Message>, v': View) {
    && v'.haveNewest
    && v'.newest == Newest(v, m)
    && Releases(window, limit, v.held + multiset{m}, v'.newest, out, v'.held)
  }

  // uint64(ns) * fpgaHz / 1e9, the product in 64 bits.
  function WindowTicks(ns: int64, hz: uint64): (r: uint64) { Wrap64(Wrap64(ns) * hz) / 1_000_000_000 }

  /** The window has the requested length exactly if its product with the clock rate fits 64 unsigned bits: at
      100 MHz, up to 184 seconds.  A longer window silently becomes a shorter one, a negative one some other. */
  lemma WindowTicksExact(ns: int64, hz: uint64)
    ensures WindowTicks(ns, hz) == ns * hz / 1_000_000_000 <==> 0 <= ns * hz < TWO_64
  {
    var x := ns * hz;
    SignOfProduct(ns, hz);
    if ns >= 0 {
      assert Wrap64(ns) == ns;
      if x >= TWO_64 {
        WrappedIsShorter(x);
      }
    } else if hz == 0 {
      assert x == 0 && Wrap64(ns) * hz == 0;
    } else {
      assert x / 1_000_000_000 < 0 <= WindowTicks(ns, hz);
    }
  }

  lemma SignOfProduct(a: int, b: nat)
    ensures a >= 0 ==> a * b >= 0
    ensures a < 0 && b > 0 ==> a * b < 0
  {
  }

  lemma WrappedIsShorter(x: int)
    requires x >= TWO_64
    ensures (x % TWO_64) / 1_000_000_000 < x / 1_000_000_000
  {
    assert x % TWO_64 <= x - TWO_64;
  }

  lemma ReleaseOne(out: seq<Message>, m: Message, left: multiset<Message>)
    requires Sorted(out) && AllBefore(out, left + multiset{m})
    requires forall h :: h in left ==> m.toa <= h.toa
    ensures Sorted(out + [m]) && AllBefore(out + [m], left)
    ensures multiset(out + [m]) == multiset(out) + multiset{m}
  {
  }

  lemma NothingYet(window: uint64, limit: nat, all: multiset<Message>, newest: uint64)
    ensures Releasing(window, limit, all, newest, [], all)
  {
  }

  lemma ReleaseNext(window: uint64, limit: nat, all: multiset<Message>, newest: uint64,
                    out: seq<Message>, m: Message, left: multiset<Message>)
    requires Releasing(window, limit, all, newest, out, left + multiset{m})
    requires Ready(m, newest, window) || |left| + 1 > limit
    requires forall h :: h in left ==> m.toa <= h.toa
    ensures Releasing(window, limit, all, newest, out + [m], left)
  {
  }

  class Buffer {
    const maxLateness: uint64
    const maxBuffered: nat
    var newestTOA: uint64
    var haveNewest: bool
    var items: seq<Message>

    ghost predicate Valid()
      reads this
    {
      IsHeap(items) && maxBuffered > 0
    }

    ghost function Contents(): (r: View)
      reads this
    {
      View(multiset(items), newestTOA, haveNewest)
    }

    constructor (maxLateness: int64, fpgaHz: uint64, maxBuffered: int)
      ensures Valid() && items == [] && Contents() == View(multiset{}, 0, false)
      ensures this.maxLateness == WindowTicks(maxLateness, if fpgaHz == 0 then 100_000_000 else fpgaHz)
      ensures this.maxBuffered == if maxBuffered <= 0 then 256 else maxBuffered
    {
      this.maxLateness := WindowTicks(maxLateness, if fpgaHz == 0 then 100_000_000 else fpgaHz);
      this.maxBuffered := if maxBuffered <= 0 then 256 else maxBuffered;
      newestTOA, haveNewest, items := 0, false, [];
    }

    // container/heap's up.
    method Up(j0: nat)
      requires j0 < |items|
      requires forall k :: 0 <= k < |items| && k != j0 ==> HeapOrdered(items, k)
      requires forall k :: 0 < k < |items| ==> Parent(k) != j0
      modifies this`items
      ensures IsHeap(items) && multiset(items) == multiset(old(items))
    {
      var j: nat := j0;
      while true
        invariant j < |items| && multiset(items) == multiset(old(items))
        invariant forall k :: 0 <= k < |items| && k != j ==> HeapOrdered(items, k)
        invariant forall k :: 0 < k < |items| && Parent(k) == j ==> items[Parent(j)].toa <= items[k].toa
        decreases j
      {
        var i: nat := Parent(j);
        if i == j || !(items[j].toa < items[i].toa) {
          break;
        }
        ghost var before := items;
        items := Swap(items, i, j);
        forall k | 0 <= k < |items| && k != i
          ensures HeapOrdered(items, k)
        {
          assert k != j ==> HeapOrdered(before, k);
        }
        forall k | 0 < k < |items| && Parent(k) == i
          ensures items[Parent(i)].toa <= items[k].toa
        {
          assert HeapOrdered(before, i);
          assert k != j ==> HeapOrdered(before, k);
        }
        j := i;
      }
    }

    // container/heap's down, on the first n elements.
    method Down(n: nat)
      requires n < |items| && SiftingDown(items, n, 0)
      modifies this`items
      ensures |items| == |old(items)| && multiset(items) == multiset(old(items)) && items[n] == old(items)[n]
      ensures IsHeap(items[..n])
    {
      var i: nat := 0;
      while true
        invariant i < n || i == 0
        invariant |items| == |old(items)| && multiset(items) == multiset(old(items)) && items[n] == old(items)[n]
        invariant SiftingDown(items, n, i)
        decreases n - i
      {
        if 2 * i + 1 >= n {
          break;
        }
        var j := SmallerChild(items, n, i);
        if !(items[j].toa < items[i].toa) {
          break;
        }
        SiftDownStep(items, n, i, j);
        items := Swap(items, i, j);
        i := j;
      }
      SiftDownDone(items, n, i);
    }

    method HeapPush(m: Message)
      requires IsHeap(items)
      modifies this`items
      ensures IsHeap(items) && multiset(items) == multiset(old(items)) + multiset{m}
    {
      ghost var before := items;
      items := items + [m];
      forall k | 0 <= k < |items| && k != |before|
        ensures HeapOrdered(items, k)
      {
        assert HeapOrdered(before, k);
      }
      Up(|items| - 1);
    }

    method HeapPop() returns (m: Message)
      requires IsHeap(items) && items != []
      modifies this`items
      ensures m == old(items)[0]
      ensures IsHeap(items) && multiset(items) + multiset{m} == multiset(old(items))
      ensures forall h :: h in items ==> m.toa <= h.toa
    {
      ghost var before := items;
      var n := |items| - 1;
      items := Swap(items, 0, n);
      forall k | 0 < k < n && Parent(k) != 0
        ensures HeapOrdered(items, k)
      {
        assert HeapOrdered(before, k);
      }
      Down(n);
      m := items[n];
      assert items == items[..n] + [m];
      items := items[..n];
      forall h | h in items
        ensures m.toa <= h.toa
      {
        assert h in multiset(before);
        var k :| 0 <= k < |before| && before[k] == h;
        RootIsMinimal(before, k);
      }
    }

    method Push(m: Message) returns (out: seq<Message>)
      requires Valid()
      modifies this
      ensures Valid()
      ensures Pushes(maxLateness, maxBuffered, old(Contents()), m, out, Contents())
    {
      if !haveNewest || m.toa > newestTOA {
        newestTOA := m.toa;
        haveNewest := true;
      }
      HeapPush(m);
      out := FlushReady();
    }

    method FlushReady() returns (out: seq<Message>)
      requires Valid() && haveNewest
      modifies this`items
      ensures Valid()
      ensures Releases(maxLateness, maxBuffered, multiset(old(items)), newestTOA, out, multiset(items))
    {
      hide Releasing, IsHeap, AllBefore, Sorted;
      NothingYet(maxLateness, maxBuffered, multiset(items), newestTOA);
      out := [];
      while items != []
        invariant IsHeap(items)
        invariant Releasing(maxLateness, maxBuffered, multiset(old(items)), newestTOA, out, multiset(items))
        decreases |items|
      {
        var ready := haveNewest && Wrap64(items[0].toa + maxLateness) <= newestTOA;
        var overflow := |items| > maxBuffered;
        if !ready && !overflow {
          OldestIsRoot(items);
          break;
        }
        var m := HeapPop();
        ReleaseNext(maxLateness, maxBuffered, multiset(old(items)), newestTOA, out, m, multiset(items));
        out := out + [m];
      }
    }

    method FlushAll() returns (out: seq<Message>)
      requires Valid()
      modifies this`items
      ensures Valid() && items == []
      ensures Sorted(out) && multiset(out) == multiset(old(items))
    {
      out := [];
      while items != []
        invariant IsHeap(items)
        invariant multiset(out) + multiset(items) == multiset(old(items))
        invariant Sorted(out) && AllBefore(out, multiset(items))
        decreases |items|
      {
        var m := HeapPop();
        ReleaseOne(out, m, multiset(items));
        out := out + [m];
      }
    }
  }

  lemma OldestIsRoot(h: seq<Message>)
    requires IsHeap(h) && h != []
    ensures forall m :: Oldest(m, multiset(h)) ==> m.toa == h[0].toa
  {
    forall m | Oldest(m, multiset(h))
      ensures m.toa == h[0].toa
    {
      var k :| 0 <= k < |h| && h[k] == m;
      RootIsMinimal(h, k);
      assert h[0] in multiset(h);
    }
  }
}
