/**
  The four CRC programs, each proved against polynomial remainder: the feeder's table builder and
  table-driven checksum, and the two bit-serial Python forms.

  A uint32 is modelled by its 32 binary digits, highest first, so that shifts, masks and exclusive-or
  are exactly what the machine does; a Python integer used as a register is its digits likewise.
 */
module CrcPrograms {
  import opened Crc
  import opened Words

  type Word = w: seq<bool> | |w| == 32 witness Zeros(32)

  // ---------- the word operations the Go code uses ----------

  function ShiftLeft(w: Word, k: nat): (r: Word)
    requires k <= 32
  {
    w[k..] + Zeros(k)
  }

  // w & 0x00FFFFFF
  function Low24(w: Word): (r: Word) { Zeros(8) + w[8..] }

  // generatorPoly, 0xFFF409: the generator without its leading coefficient.
  const GENERATOR_WORD: Word := Zeros(8) + GENERATOR[1..]

  // The last k binary digits of n.
  function Digits(n: nat, k: nat): (p: Poly)
    ensures |p| == k
  {
    if k == 0 then [] else Digits(n / 2, k - 1) + [n % 2 == 1]
  }

  function ByteBits(b: byte): (p: Poly)
    ensures |p| == 8
  {
    Digits(b, 8)
  }

  function Value(p: Poly): (n: nat) {
    if p == [] then 0 else 2 * Value(p[..|p| - 1]) + if p[|p| - 1] then 1 else 0
  }

  function MessageBits(msg: seq<byte>): (p: Poly)
    ensures |p| == 8 * |msg|
  {
    if msg == [] then [] else MessageBits(msg[..|msg| - 1]) + ByteBits(msg[|msg| - 1])
  }

  // What Checksum is for: the remainder of the whole message, as a number.
  function Syndrome(msg: seq<byte>): (n: nat) { Value(Remainder(MessageBits(msg))) }

  lemma {:induction false} DigitsOfValue(p: Poly)
    ensures Digits(Value(p), |p|) == p
  {
    if p != [] {
      DigitsOfValue(p[..|p| - 1]);
    }
  }

  function Power2(k: nat): (r: nat) { if k == 0 then 1 else 2 * Power2(k - 1) }

  lemma {:induction false} ValueBound(p: Poly)
    ensures Value(p) < Power2(|p|)
  {
    if p != [] {
      ValueBound(p[..|p| - 1]);
    }
  }

  // A byte-wide digit sequence is the digits of some byte.
  lemma ByteBitsValue(p: Poly)
    requires |p| == 8
    ensures Value(p) < 256 && ByteBits(Value(p)) == p
  {
    ValueBound(p);
    assert Power2(8) == 2 * (2 * (2 * (2 * Power2(4))));
    DigitsOfValue(p);
  }

  lemma {:induction false} DigitsOfZero(k: nat)
    ensures Digits(0, k) == Zeros(k)
  {
    if k > 0 {
      DigitsOfZero(k - 1);
    }
  }

  lemma {:induction false} ValueInjective(a: Poly, b: Poly)
    requires |a| == |b| && Value(a) == Value(b)
    ensures a == b
  {
    if a != [] {
      var n := |a| - 1;
      ValueInjective(a[..n], b[..n]);
      assert a == a[..n] + [a[n]] && b == b[..n] + [b[n]];
    }
  }

  lemma {:induction false} ValueOfZeros(n: nat)
    ensures Value(Zeros(n)) == 0
  {
    if n > 0 {
      assert Zeros(n)[..n - 1] == Zeros(n - 1);
      ValueOfZeros(n - 1);
    }
  }

  // ---------- internal/crc: the table and the checksum ----------

  // Entry i of the table: i times x^24, reduced.
  ghost function TableEntry(i: byte): (w: Word) { Zeros(8) + Shifted(ByteBits(i) + Zeros(16), 8) }

  ghost predicate IsTable(table: seq<Word>) {
    |table| == 256 && forall i :: 0 <= i < 256 ==> table[i] == TableEntry(i)
  }

  // The conditional subtraction on words is one division step on the low 24 digits.
  lemma ShiftWord(c: Word)
    ensures (if c[8] then Xor(ShiftLeft(c, 1), GENERATOR_WORD) else ShiftLeft(c, 1))[8..] == BringDown(c[8..], false)
  {
    var w := c[8..] + [false];
    assert ShiftLeft(c, 1)[8..] == w[1..];
    if c[8] {
      assert Xor(ShiftLeft(c, 1), GENERATOR_WORD)[8..] == Xor(w, GENERATOR)[1..];
    }
  }

  method BuildTable(table: array<Word>)
    requires table.Length == 256
    modifies table
    ensures IsTable(table[..])
  {
    for i := 0 to 256
      invariant forall k :: 0 <= k < i ==> table[k] == TableEntry(k)
    {
      var c: Word := Zeros(8) + ByteBits(i) + Zeros(16);
      ghost var start := ByteBits(i) + Zeros(16);
      for j := 0 to 8
        invariant c[8..] == Shifted(start, j)
        modifies {}
      {
        ShiftWord(c);
        if c[8] {
          c := Xor(ShiftLeft(c, 1), GENERATOR_WORD);
        } else {
          c := ShiftLeft(c, 1);
        }
      }
      assert Low24(c) == TableEntry(i);
      table[i] := Low24(c);
    }
  }

  // uint32(a)<<16 | uint32(b)<<8 | uint32(c)
  function ParityWord(a: byte, b: byte, c: byte): (w: Word) {
    Zeros(8) + ByteBits(a) + ByteBits(b) + ByteBits(c)
  }

  // Bytes processed so far, followed by three zero bytes.
  ghost function Padded(msg: seq<byte>): (p: Poly) { MessageBits(msg) + Zeros(24) }

  method Checksum(table: seq<Word>, msg: seq<byte>, bits: nat) returns (rem: Word)
    requires IsTable(table)
    requires bits / 8 <= |msg| && bits / 8 >= 3
    ensures rem == Zeros(8) + Remainder(MessageBits(msg[..bits / 8]))
    ensures Value(rem) == Syndrome(msg[..bits / 8])
  {
    hide Remainder, Shifted, MessageBits;
    var n := bits / 8;
    rem := Zeros(32);
    PaddedEmpty();
    assert msg[..0] == [];
    for i := 0 to n - 3
      invariant rem == Zeros(8) + Remainder(Padded(msg[..i]))
    {
      var index := Xor(ByteBits(msg[i]), rem[8..16]);
      ByteBitsValue(index);
      LookUp(rem, msg[i], table[Value(index)]);
      TableStep(msg[..i], msg[i]);
      assert msg[..i + 1] == msg[..i] + [msg[i]];
      rem := Xor(ShiftLeft(rem, 8), table[Value(index)]);
      rem := Low24(rem);
    }
    FoldInParity(msg[..n - 3], msg[n - 3], msg[n - 2], msg[n - 1]);
    assert msg[..n] == msg[..n - 3] + [msg[n - 3], msg[n - 2], msg[n - 1]];
    rem := Xor(rem, ParityWord(msg[n - 3], msg[n - 2], msg[n - 1]));
    ValuePrependZeros(8, Remainder(MessageBits(msg[..n])));
  }

  lemma PaddedEmpty()
    ensures Zeros(32) == Zeros(8) + Remainder(Padded([]))
  {
    hide Remainder;
    RemainderZeros(24);
    assert MessageBits([]) + Zeros(24) == Zeros(24);
    assert Zeros(8) + Zeros(24) == Zeros(32);
  }

  // What the register holds after a look-up, given what it held before.
  lemma LookUp(rem: Word, b: byte, entry: Word)
    requires rem[..8] == Zeros(8)
    requires var index := Xor(ByteBits(b), rem[8..16]);
             entry == Zeros(8) + Shifted(index + Zeros(16), 8)
    ensures var r := rem[8..];
            Low24(Xor(ShiftLeft(rem, 8), entry))
            == Zeros(8) + Xor(r[8..] + Zeros(8), Shifted(Xor(ByteBits(b), r[..8]) + Zeros(16), 8))
  {
    assert rem[8..][..8] == rem[8..16];
  }

  // A register advances by eight places: its top byte is reduced, the rest just moves up.
  lemma RegisterSplit(r: Poly, e: Poly)
    requires |r| == 24 && |e| == 8
    ensures Xor(Shifted(r, 8), Shifted(e + Zeros(16), 8))
            == Xor(r[8..] + Zeros(8), Shifted(Xor(e, r[..8]) + Zeros(16), 8))
  {
    var high := r[..8] + Zeros(16);
    var low := Zeros(8) + r[8..];
    assert r == Xor(high, low);
    ShiftedLinear(high, low, 8);
    ShiftedPlain(r[8..], 8);
    assert Zeros(0) + r[8..] + Zeros(8) == r[8..] + Zeros(8);
    ShiftedLinear(e + Zeros(16), high, 8);
    assert Xor(e + Zeros(16), high) == Xor(e, r[..8]) + Zeros(16);
  }

  lemma AppendedByte(bits: Poly, e: Poly)
    requires |e| == 8
    ensures Remainder(bits + e + Zeros(24))
            == Xor(Shifted(Remainder(bits + Zeros(24)), 8), Shifted(e + Zeros(16), 8))
  {
    var longer := bits + Zeros(24) + Zeros(8);
    var added := Zeros(|bits|) + (e + Zeros(16) + Zeros(8));
    assert bits + e + Zeros(24) == Xor(longer, added);
    RemainderLinear(longer, added);
    RemainderAppendZeros(bits + Zeros(24), 8);
    RemainderPrependZeros(|bits|, e + Zeros(16) + Zeros(8));
    RemainderAppendZeros(e + Zeros(16), 8);
    RemainderShort(e + Zeros(16));
    assert Zeros(0) + (e + Zeros(16)) == e + Zeros(16);
  }

  // One table look-up advances the remainder of the padded message by one byte.
  lemma TableStep(done: seq<byte>, b: byte)
    ensures var r := Remainder(Padded(done));
            Remainder(Padded(done + [b]))
            == Xor(r[8..] + Zeros(8), Shifted(Xor(ByteBits(b), r[..8]) + Zeros(16), 8))
  {
    assert (done + [b])[..|done|] == done;
    AppendedByte(MessageBits(done), ByteBits(b));
    RegisterSplit(Remainder(Padded(done)), ByteBits(b));
  }

  // Adding a field of 24 digits to the remainder of the padded data is the same as appending it.
  lemma AppendedField(data: Poly, field: Poly)
    requires |field| == 24
    ensures Remainder(data + field) == Xor(Remainder(data + Zeros(24)), field)
  {
    var tail := Zeros(|data|) + field;
    assert data + field == Xor(data + Zeros(24), tail);
    RemainderLinear(data + Zeros(24), tail);
    RemainderPrependZeros(|data|, field);
    RemainderShort(field);
    assert Zeros(0) + field == field;
  }

  lemma OneMore(msg: seq<byte>, b: byte)
    ensures MessageBits(msg + [b]) == MessageBits(msg) + ByteBits(b)
  {
  }

  lemma LastThree(data: seq<byte>, a: byte, b: byte, c: byte)
    ensures MessageBits(data + [a, b, c]) == MessageBits(data) + (ByteBits(a) + ByteBits(b) + ByteBits(c))
  {
    OneMore(data, a);
    OneMore(data + [a], b);
    OneMore(data + [a] + [b], c);
    assert data + [a, b, c] == data + [a] + [b] + [c];
  }

  lemma AddBelow(r: Poly, field: Poly)
    requires |r| == |field| == 24
    ensures Xor(Zeros(8) + r, Zeros(8) + field) == Zeros(8) + Xor(r, field)
  {
  }

  lemma FoldInParity(data: seq<byte>, a: byte, b: byte, c: byte)
    ensures Xor(Zeros(8) + Remainder(Padded(data)), ParityWord(a, b, c))
            == Zeros(8) + Remainder(MessageBits(data + [a, b, c]))
  {
    hide Remainder, ByteBits, MessageBits;
    var field := ByteBits(a) + ByteBits(b) + ByteBits(c);
    LastThree(data, a, b, c);
    AppendedField(MessageBits(data), field);
    AddBelow(Remainder(Padded(data)), field);
    assert ParityWord(a, b, c) == Zeros(8) + field;
  }

  lemma {:induction false} ValuePrependZeros(k: nat, p: Poly)
    ensures Value(Zeros(k) + p) == Value(p)
  {
    if p == [] {
      assert Zeros(k) + p == Zeros(k);
      ValueOfZeros(k);
    } else {
      var n := |p| - 1;
      assert (Zeros(k) + p)[..k + n] == Zeros(k) + p[..n];
      ValuePrependZeros(k, p[..n]);
    }
  }

  // ---------- tools/gen_test_vectors.py: crc24 ----------

  method Crc24(bits: Poly) returns (crc: Poly)
    ensures crc == Remainder(bits + Zeros(24))
  {
    var all := bits + Zeros(24);
    crc := Zeros(24);
    for i := 0 to |all|
      invariant crc == Remainder(all[..i])
    {
      assert all[..i + 1][..i] == all[..i];
      crc := crc + [all[i]];
      if crc[0] {
        crc := Xor(crc, GENERATOR);
      }
      crc := crc[1..];
    }
    assert all[..|all|] == all;
  }

  // ---------- tools/scan_iq.py: modes_crc_ok ----------

  // MODE_S_POLY << k in a register of n digits; the polynomial is written without its leading term.
  function PolyAt(n: nat, shift: nat): (p: Poly)
    requires shift + 25 <= n
    ensures |p| == n
  {
    Zeros(shift + 1) + GENERATOR[1..] + Zeros(n - 25 - shift)
  }

  method ModesCrcOk(bits: Poly) returns (ok: bool)
    ensures ok <==> |bits| in {56, 112} && Remainder(bits) == Zeros(24)
  {
    var n := |bits|;
    if n !in {56, 112} {
      return false;
    }
    var reg := bits;
    for shift := 0 to n - 24
      invariant |reg| == n
      invariant Remainder(reg[shift..]) == Remainder(bits)
    {
      // The tested digit is left standing; nothing looks at it again.
      DropLeading(reg, shift);
      if reg[shift] {
        reg := Xor(reg, PolyAt(n, shift));
      }
    }
    RemainderShort(reg[n - 24..]);
    ok := reg[n - 24..] == Zeros(24);
    assert Zeros(0) + reg[n - 24..] == reg[n - 24..];
  }

  lemma ShiftedGenerator(k: nat)
    ensures Remainder(GENERATOR + Zeros(k)) == Zeros(24)
  {
    GeneratorDividesItself();
    RemainderAppendZeros(GENERATOR, k);
    ShiftedZero(k);
  }

  lemma {:induction false} ShiftedZero(k: nat)
    ensures Shifted(Zeros(24), k) == Zeros(24)
  {
    if k > 0 {
      ShiftedZero(k - 1);
    }
  }

  lemma LeadingCancels(p: Poly, multiple: Poly)
    requires |p| == |multiple| > 0 && p[0] && multiple[0]
    ensures Xor(p, multiple) == Zeros(1) + Xor(p, multiple)[1..]
  {
  }

  // Clearing the leading coefficient by subtracting a multiple of the generator keeps the remainder.
  lemma ClearLeading(p: Poly)
    requires |p| >= 25 && p[0]
    ensures Remainder(Xor(p, GENERATOR + Zeros(|p| - 25))[1..]) == Remainder(p)
  {
    hide Remainder;
    var multiple := GENERATOR + Zeros(|p| - 25);
    LeadingCancels(p, multiple);
    RemainderPrependZeros(1, Xor(p, multiple)[1..]);
    RemainderLinear(p, multiple);
    ShiftedGenerator(|p| - 25);
    XorZeros(Remainder(p));
  }

  lemma XorZeros(r: Poly)
    ensures Xor(r, Zeros(|r|)) == r
  {
  }

  lemma DropLeading(reg: Poly, shift: nat)
    requires shift + 25 <= |reg|
    ensures var next := if reg[shift] then Xor(reg, PolyAt(|reg|, shift)) else reg;
            Remainder(next[shift + 1..]) == Remainder(reg[shift..])
  {
    hide Remainder;
    var n := |reg|;
    var p := reg[shift..];
    if reg[shift] {
      ClearLeading(p);
      assert Xor(reg, PolyAt(n, shift))[shift + 1..] == Xor(p, GENERATOR + Zeros(n - 25 - shift))[1..];
    } else {
      RemainderPrependZeros(1, p[1..]);
      assert p == Zeros(1) + p[1..];
      assert p[1..] == reg[shift + 1..];
    }
  }

  // ---------- the programs agree ----------

  /** The feeder's syndrome is zero exactly when the Python checker accepts. */
  lemma SyndromeZero(msg: seq<byte>)
    ensures Syndrome(msg) == 0 <==> Remainder(MessageBits(msg)) == Zeros(24)
  {
    ValueOfZeros(24);
    if Syndrome(msg) == 0 {
      ValueInjective(Remainder(MessageBits(msg)), Zeros(24));
    }
  }

  /** The generator's parity for some data is the feeder's syndrome of that data and three zero bytes. */
  lemma GeneratorParityIsSyndrome(data: seq<byte>)
    ensures Value(Remainder(MessageBits(data) + Zeros(24))) == Syndrome(data + [0, 0, 0])
  {
    var m := data + [0, 0, 0];
    LastThree(data, 0, 0, 0);
    DigitsOfZero(8);
    assert MessageBits(m) == MessageBits(data) + Zeros(24);
  }

  // ---------- addresses ----------

  lemma {:induction false} ValueAppendDigits(p: Poly, n: nat, k: nat)
    requires n < Power2(k)
    ensures Value(p + Digits(n, k)) == Value(p) * Power2(k) + n
  {
    if k == 0 {
      assert p + [] == p;
    } else {
      hide Digits, Value;
      var front := p + Digits(n / 2, k - 1);
      ValueAppendDigits(p, n / 2, k - 1);
      LastDigit(n, k);
      assert p + Digits(n, k) == front + [n % 2 == 1];
      ValueAppend(front, n % 2 == 1);
      assert Power2(k) == 2 * Power2(k - 1);
      DoubleProduct(Value(p), Power2(k - 1));
    }
  }

  lemma LastDigit(n: nat, k: nat)
    requires k > 0
    ensures Digits(n, k) == Digits(n / 2, k - 1) + [n % 2 == 1]
  {
  }

  lemma ValueAppend(p: Poly, b: bool)
    ensures Value(p + [b]) == 2 * Value(p) + if b then 1 else 0
  {
    assert (p + [b])[..|p|] == p;
  }

  lemma DoubleProduct(a: nat, b: nat)
    ensures 2 * (a * b) == a * (2 * b)
  {
  }

  lemma ThreeBytesValue(a: byte, b: byte, c: byte)
    ensures Value(ByteBits(a) + ByteBits(b) + ByteBits(c)) == a as int * 65536 + b as int * 256 + c as int
  {
    hide Digits, Value;
    assert Power2(8) == 256;
    ValueAppendDigits([], a, 8);
    ValueAppendDigits(ByteBits(a), b, 8);
    ValueAppendDigits(ByteBits(a) + ByteBits(b), c, 8);
    assert [] + ByteBits(a) == ByteBits(a) && Value([]) == 0 by { EmptyValue(); }
  }

  lemma EmptyValue()
    ensures Value([]) == 0
  {
  }

  // The last three bytes carry the parity of the data with an address of three bytes added to it.
  ghost predicate Overlaid(msg: seq<byte>, address: seq<byte>) {
    && |msg| >= 3 && |address| == 3
    && var n := |msg| - 3;
       ByteBits(msg[n]) + ByteBits(msg[n + 1]) + ByteBits(msg[n + 2]) ==
       Xor(Remainder(MessageBits(msg[..n]) + Zeros(24)),
           ByteBits(address[0]) + ByteBits(address[1]) + ByteBits(address[2]))
  }

  /** The syndrome of such a message is the address, read as a number. */
  lemma SyndromeIsAddress(msg: seq<byte>, address: seq<byte>)
    requires Overlaid(msg, address)
    ensures Syndrome(msg) == address[0] as int * 65536 + address[1] as int * 256 + address[2] as int
  {
    hide Remainder, MessageBits, Value;
    var n := |msg| - 3;
    assert msg == msg[..n] + [msg[n], msg[n + 1], msg[n + 2]];
    LastThree(msg[..n], msg[n], msg[n + 1], msg[n + 2]);
    OverlaidAddressRecovered(MessageBits(msg[..n]), ByteBits(address[0]) + ByteBits(address[1]) + ByteBits(address[2]));
    ThreeBytesValue(address[0], address[1], address[2]);
  }
}
