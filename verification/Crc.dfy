/**
  Mode-S CRC-24 (section 3.1.2.3.3 of ICAO Annex 10, Volume IV).

  The reference is polynomial arithmetic over GF(2): a polynomial is the sequence of its
  coefficients, highest power first.  Against it stand four programs: the table builder and the
  table-driven checksum of the feeder, and the two bit-serial Python forms.
 */
module Crc {
  type Poly = seq<bool>

  // x^24 + ... + 1, that is 0x1FFF409: twenty-five coefficients.
  const GENERATOR: Poly :=
    [true,
     true, true, true, true, true, true, true, true, true, true, true, true,
     false, true, false, false, false, false, false, false, true, false, false, true]

  function Zeros(n: nat): (z: Poly)
    ensures |z| == n && forall i :: 0 <= i < n ==> !z[i]
  {
    seq(n, _ => false)
  }

  // Addition of polynomials, coefficient by coefficient.
  function Xor(a: Poly, b: Poly): (c: Poly)
    requires |a| == |b|
    ensures |c| == |a| && forall i :: 0 <= i < |c| ==> c[i] == (a[i] != b[i])
  {
    seq(|a|, i requires 0 <= i < |a| => a[i] != b[i])
  }

  // One step of long division: bring down the next coefficient, subtract the generator if it fits.
  function BringDown(r: Poly, c: bool): (r': Poly)
    requires |r| == 24
    ensures |r'| == 24
  {
    Reduce(r + [c])
  }

  function Reduce(w: Poly): (r: Poly)
    requires |w| == 25
    ensures |r| == 24
  {
    (if w[0] then Xor(w, GENERATOR) else w)[1..]
  }

  function Remainder(m: Poly): (r: Poly)
    ensures |r| == 24
  {
    if m == [] then Zeros(24) else BringDown(Remainder(m[..|m| - 1]), m[|m| - 1])
  }

  // q times the generator, by Horner's rule on q.
  function TimesGenerator(q: Poly): (p: Poly)
    ensures |p| == |q| + 24
  {
    if q == [] then Zeros(24)
    else
      var n := |q| - 1;
      Xor(TimesGenerator(q[..n]) + [false], Zeros(n) + (if q[n] then GENERATOR else Zeros(25)))
  }

  // m == quotient * GENERATOR + remainder, with the remainder of degree below 24.
  ghost predicate Divides(m: Poly, q: Poly, r: Poly) {
    && |q| + 24 == |m|
    && |r| == 24
    && m == Xor(TimesGenerator(q), Zeros(|q|) + r)
  }

  // ---------- linearity ----------

  lemma {:induction false} RemainderLinear(m: Poly, e: Poly)
    requires |m| == |e|
    ensures Remainder(Xor(m, e)) == Xor(Remainder(m), Remainder(e))
  {
    if m == [] {
    } else {
      var n := |m| - 1;
      RemainderLinear(m[..n], e[..n]);
      RemainderStep(m);
      RemainderStep(e);
      RemainderStep(Xor(m, e));
      hide Remainder;
      assert Xor(m, e)[..n] == Xor(m[..n], e[..n]);
      BringDownLinear(Remainder(m[..n]), m[n], Remainder(e[..n]), e[n]);
    }
  }

  lemma RemainderStep(m: Poly)
    requires m != []
    ensures Remainder(m) == BringDown(Remainder(m[..|m| - 1]), m[|m| - 1])
  {
  }

  lemma BringDownLinear(r: Poly, c: bool, s: Poly, d: bool)
    requires |r| == |s| == 24
    ensures BringDown(Xor(r, s), c != d) == Xor(BringDown(r, c), BringDown(s, d))
  {
    var v, w := r + [c], s + [d];
    assert Xor(r, s) + [c != d] == Xor(v, w);
    ReduceLinear(v, w);
  }

  // Subtracting the generator, where it fits, commutes with addition.
  lemma ReduceLinear(v: Poly, w: Poly)
    requires |v| == |w| == 25
    ensures Reduce(Xor(v, w)) == Xor(Reduce(v), Reduce(w))
  {
    forall i | 0 <= i < 24
      ensures Reduce(Xor(v, w))[i] == Xor(Reduce(v), Reduce(w))[i]
    {
    }
  }

  lemma {:induction false} RemainderZeros(n: nat)
    ensures Remainder(Zeros(n)) == Zeros(24)
  {
    if n > 0 {
      RemainderZeros(n - 1);
      RemainderStep(Zeros(n));
      hide Remainder;
      assert Zeros(n)[..n - 1] == Zeros(n - 1);
      assert BringDown(Zeros(24), false) == Zeros(24);
    }
  }

  lemma {:induction false} RemainderPrependZeros(k: nat, m: Poly)
    ensures Remainder(Zeros(k) + m) == Remainder(m)
  {
    if m == [] {
      assert Zeros(k) + m == Zeros(k);
      RemainderZeros(k);
    } else {
      var n := |m| - 1;
      RemainderStep(m);
      RemainderStep(Zeros(k) + m);
      hide Remainder;
      assert (Zeros(k) + m)[..k + n] == Zeros(k) + m[..n];
      RemainderPrependZeros(k, m[..n]);
    }
  }

  // A polynomial of degree below 24 is its own remainder.
  lemma {:induction false} RemainderShort(m: Poly)
    requires |m| <= 24
    ensures Remainder(m) == Zeros(24 - |m|) + m
  {
    if m == [] {
    } else {
      RemainderShort(m[..|m| - 1]);
    }
  }

  // Feeding k zero coefficients multiplies the remainder by x^k.
  function Shifted(r: Poly, k: nat): (r': Poly)
    requires |r| == 24
    ensures |r'| == 24
  {
    if k == 0 then r else BringDown(Shifted(r, k - 1), false)
  }

  lemma {:induction false} RemainderAppendZeros(m: Poly, k: nat)
    ensures Remainder(m + Zeros(k)) == Shifted(Remainder(m), k)
  {
    if k == 0 {
      assert m + Zeros(0) == m;
    } else {
      assert (m + Zeros(k))[..|m| + k - 1] == m + Zeros(k - 1);
      RemainderAppendZeros(m, k - 1);
    }
  }

  lemma {:induction false} ShiftedAgain(r: Poly, j: nat, k: nat)
    requires |r| == 24
    ensures Shifted(Shifted(r, j), k) == Shifted(r, j + k)
  {
    if k > 0 {
      ShiftedAgain(r, j, k - 1);
    }
  }

  lemma {:induction false} ShiftedLinear(r: Poly, s: Poly, k: nat)
    requires |r| == |s| == 24
    ensures Shifted(Xor(r, s), k) == Xor(Shifted(r, k), Shifted(s, k))
  {
    if k > 0 {
      ShiftedLinear(r, s, k - 1);
    }
  }

  // Multiplying by x^k is plain shifting as long as nothing leaves the top.
  lemma {:induction false} ShiftedPlain(lo: Poly, k: nat)
    requires |lo| + k <= 24
    ensures Shifted(Zeros(24 - |lo|) + lo, k) == Zeros(24 - |lo| - k) + lo + Zeros(k)
  {
    if k > 0 {
      ShiftedPlain(lo, k - 1);
    }
  }

  // Multiplying by x is invertible modulo the generator, because its constant term is 1.
  lemma {:induction false} ShiftedNonzero(r: Poly, k: nat)
    requires |r| == 24 && r != Zeros(24)
    ensures Shifted(r, k) != Zeros(24)
  {
    if k > 0 {
      ShiftedNonzero(r, k - 1);
      var s := Shifted(r, k - 1);
      if s[0] {
        assert BringDown(s, false)[23];
      } else {
        var i :| 0 <= i < 24 && s[i];
        assert BringDown(s, false)[i - 1];
      }
    }
  }

  // ---------- the remainder really is polynomial division ----------

  lemma GeneratorDividesItself()
    ensures Remainder(GENERATOR) == Zeros(24)
  {
    var top := GENERATOR[..24];
    RemainderShort(top);
    assert Remainder(top) + [GENERATOR[24]] == GENERATOR;
    assert Xor(GENERATOR, GENERATOR) == Zeros(25);
  }

  lemma {:induction false} MultiplesHaveRemainderZero(q: Poly)
    ensures Remainder(TimesGenerator(q)) == Zeros(24)
  {
    if q == [] {
      RemainderZeros(24);
    } else {
      var n := |q| - 1;
      var g := if q[n] then GENERATOR else Zeros(25);
      MultiplesHaveRemainderZero(q[..n]);
      assert (TimesGenerator(q[..n]) + [false])[..n + 24] == TimesGenerator(q[..n]);
      RemainderLinear(TimesGenerator(q[..n]) + [false], Zeros(n) + g);
      RemainderPrependZeros(n, g);
      GeneratorDividesItself();
      RemainderZeros(25);
    }
  }

  lemma {:induction false} QuotientExists(m: Poly) returns (q: Poly)
    requires |m| >= 24
    ensures Divides(m, q, Remainder(m))
  {
    if |m| == 24 {
      q := [];
      RemainderShort(m);
      assert Zeros(0) + m == m;
    } else {
      var n := |m| - 1;
      var p := QuotientExists(m[..n]);
      var r := Remainder(m[..n]);
      q := p + [r[0]];
      assert q[..|p|] == p;
      var product := TimesGenerator(p);
      forall i | 0 <= i < |m|
        ensures m[i] == Xor(TimesGenerator(q), Zeros(|q|) + Remainder(m))[i]
      {
        if i < n {
          assert m[i] == m[..n][i] == (product[i] != (Zeros(|p|) + r)[i]);
        }
      }
    }
  }

  /** The bit-serial remainder is the one and only remainder of division by the generator. */
  lemma RemainderIsDivision(m: Poly, r: Poly)
    requires |m| >= 24
    ensures (exists q :: Divides(m, q, r)) <==> r == Remainder(m)
  {
    hide Remainder, TimesGenerator;
    var q := QuotientExists(m);
    forall p | Divides(m, p, r)
      ensures r == Remainder(m)
    {
      var tail := Zeros(|p|) + r;
      RemainderLinear(TimesGenerator(p), tail);
      MultiplesHaveRemainderZero(p);
      RemainderPrependZeros(|p|, r);
      RemainderShort(r);
      assert Zeros(0) + r == r;
      assert Remainder(m) == Xor(Zeros(24), r) == r;
    }
  }

  // ---------- what the code detects, and what it carries ----------

  lemma BurstHasRemainder(before: nat, burst: Poly, after: nat)
    requires |burst| <= 24 && burst != Zeros(|burst|)
    ensures Remainder(Zeros(before) + burst + Zeros(after)) != Zeros(24)
  {
    hide Remainder, Shifted;
    RemainderAppendZeros(Zeros(before) + burst, after);
    RemainderPrependZeros(before, burst);
    RemainderShort(burst);
    var i :| 0 <= i < |burst| && burst[i];
    assert (Zeros(24 - |burst|) + burst)[24 - |burst| + i];
    ShiftedNonzero(Remainder(burst), after);
  }

  /** A change to a message, confined to 24 consecutive bits, always changes the remainder. */
  lemma BurstDetected(m: Poly, before: nat, burst: Poly, after: nat)
    requires |m| == before + |burst| + after
    requires |burst| <= 24 && burst != Zeros(|burst|)
    ensures Remainder(Xor(m, Zeros(before) + burst + Zeros(after))) != Remainder(m)
  {
    var e := Zeros(before) + burst + Zeros(after);
    RemainderLinear(m, e);
    BurstHasRemainder(before, burst, after);
    var j :| 0 <= j < 24 && Remainder(e)[j];
    assert Xor(Remainder(m), Remainder(e))[j] != Remainder(m)[j];
  }

  function Parity(m: Poly): (r: bool) {
    if m == [] then false else Parity(m[..|m| - 1]) != m[|m| - 1]
  }

  lemma {:induction false} ParityXor(a: Poly, b: Poly)
    requires |a| == |b|
    ensures Parity(Xor(a, b)) == (Parity(a) != Parity(b))
  {
    if a != [] {
      var n := |a| - 1;
      assert Xor(a, b)[..n] == Xor(a[..n], b[..n]);
      ParityXor(a[..n], b[..n]);
    }
  }

  lemma {:induction false} ParityDropFirst(m: Poly)
    requires m != [] && !m[0]
    ensures Parity(m[1..]) == Parity(m)
  {
    var n := |m| - 1;
    if n > 0 {
      assert m[1..][..n - 1] == m[..n][1..];
      ParityDropFirst(m[..n]);
    }
  }

  // The parity of each prefix of the generator.
  const PREFIX_PARITY: seq<bool> :=
    [false, true, false, true, false, true, false, true, false, true, false, true, false,
     true, true, false, false, false, false, false, false, false, true, true, true, false]

  lemma PrefixParityStep(k: nat)
    requires 0 < k <= 25
    ensures PREFIX_PARITY[k] == (PREFIX_PARITY[k - 1] != GENERATOR[k - 1])
  {
  }

  lemma {:induction false} GeneratorPrefixParity(k: nat)
    requires k <= 25
    ensures Parity(GENERATOR[..k]) == PREFIX_PARITY[k]
  {
    if k > 0 {
      assert GENERATOR[..k][..k - 1] == GENERATOR[..k - 1];
      GeneratorPrefixParity(k - 1);
      PrefixParityStep(k);
    }
  }

  /** The generator is a multiple of x + 1, so the remainder keeps the parity of the message ... */
  lemma {:induction false} RemainderKeepsParity(m: Poly)
    ensures Parity(Remainder(m)) == Parity(m)
  {
    if m == [] {
      ParityZeros(24);
    } else {
      var n := |m| - 1;
      var r := Remainder(m[..n]);
      RemainderKeepsParity(m[..n]);
      var w := r + [m[n]];
      assert w[..24] == r;
      GeneratorPrefixParity(25);
      assert GENERATOR[..25] == GENERATOR;
      ParityXor(w, GENERATOR);
      ParityDropFirst(if w[0] then Xor(w, GENERATOR) else w);
    }
  }

  lemma {:induction false} ParityZeros(n: nat)
    ensures !Parity(Zeros(n))
  {
    if n > 0 {
      assert Zeros(n)[..n - 1] == Zeros(n - 1);
      ParityZeros(n - 1);
    }
  }

  /** ... and every odd number of flipped bits is noticed. */
  lemma OddFlipsDetected(m: Poly, e: Poly)
    requires |m| == |e| && Parity(e)
    ensures Remainder(Xor(m, e)) != Remainder(m)
  {
    RemainderKeepsParity(m);
    RemainderKeepsParity(Xor(m, e));
    ParityXor(m, e);
  }

  /** Address/parity overlay: a sender that adds its address to the parity is recognised by it. */
  lemma OverlaidAddressRecovered(data: Poly, address: Poly)
    requires |address| == 24
    ensures Remainder(data + Xor(Remainder(data + Zeros(24)), address)) == address
  {
    hide Remainder;
    var parity := Remainder(data + Zeros(24));
    var field := Xor(parity, address);
    assert data + field == Xor(data + Zeros(24), Zeros(|data|) + field);
    RemainderLinear(data + Zeros(24), Zeros(|data|) + field);
    RemainderPrependZeros(|data|, field);
    RemainderShort(field);
    assert Xor(parity, Zeros(0) + field) == address;
  }
}
