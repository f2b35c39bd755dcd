/** Beast frames: payloads for data, status and position, and the escaping that delimits them. */
module Beast {
  import opened Words
  import opened Regs
  import opened Pps
  import opened Timestamp
  import Division

  const ESCAPE: byte := 0x1A
  const TYPE_SHORT: byte := 0x32
  const TYPE_LONG: byte := 0x33
  const TYPE_STATUS: byte := 0x34
  const TYPE_POSITION: byte := 0x35

  predicate KnownType(t: byte) { t in {TYPE_SHORT, TYPE_LONG, TYPE_STATUS, TYPE_POSITION} }

  // The length of a whole payload, type byte included.
  function PayloadLength(t: byte): (r: nat) { if t == TYPE_SHORT then 15 else 22 }

  predicate IsPayload(p: seq<byte>) { p != [] && KnownType(p[0]) && |p| == PayloadLength(p[0]) }

  // ---------- escaping ----------

  function Escaped(p: seq<byte>): (r: seq<byte>) {
    if p == [] then [] else (if p[0] == ESCAPE then [ESCAPE, ESCAPE] else [p[0]]) + Escaped(p[1..])
  }

  function Framed(p: seq<byte>): (r: seq<byte>) { [ESCAPE] + Escaped(p) }

  lemma {:induction false} EscapedAppend(a: seq<byte>, b: seq<byte>)
    ensures Escaped(a + b) == Escaped(a) + Escaped(b)
  {
    if a == [] {
      assert a + b == b;
    } else {
      assert (a + b)[1..] == a[1..] + b;
      EscapedAppend(a[1..], b);
    }
  }

  method EscapeFrame(payload: seq<byte>) returns (frame: seq<byte>)
    ensures frame == Framed(payload)
  {
    frame := [ESCAPE];
    for i := 0 to |payload|
      invariant frame == Framed(payload[..i])
    {
      var b := payload[i];
      assert payload[..i + 1] == payload[..i] + [b];
      EscapedAppend(payload[..i], [b]);
      assert Escaped([b]) == if b == ESCAPE then [ESCAPE, ESCAPE] else [b];
      frame := frame + [b];
      if b == ESCAPE {
        frame := frame + [ESCAPE];
      }
    }
    assert payload[..|payload|] == payload;
  }

  // ---------- the 48-bit field ----------

  function FromBigEndian(b: seq<byte>): (r: nat) {
    if b == [] then 0 else 256 * FromBigEndian(b[..|b| - 1]) + b[|b| - 1]
  }

  function BigEndian(n: nat, k: nat): (b: seq<byte>)
    ensures |b| == k
  {
    if k == 0 then [] else BigEndian(n / 256, k - 1) + [n % 256]
  }

  function Power256(k: nat): (r: nat) { if k == 0 then 1 else 256 * Power256(k - 1) }

  lemma {:induction false} BigEndianReadsBack(n: nat, k: nat)
    requires n < Power256(k)
    ensures FromBigEndian(BigEndian(n, k)) == n
  {
    if k > 0 {
      BigEndianReadsBack(n / 256, k - 1);
    }
  }

  /** The six bytes of a timestamp lose nothing. */
  lemma TimestampReadsBack(ts: nat)
    requires ts < TWO_48
    ensures FromBigEndian(BigEndian(ts, 6)) == ts
  {
    assert Power256(6) == 256 * (256 * (256 * (256 * Power256(2))));
    BigEndianReadsBack(ts, 6);
  }

  method AppendTimestamp(buf: seq<byte>, ts48: nat) returns (r: seq<byte>)
    ensures r == buf + BigEndian(ts48, 6)
  {
    r := buf;
    var shifts := [1, 0x100, 0x1_0000, 0x100_0000, 0x1_0000_0000, 0x100_0000_0000];
    var i := 5;
    while i >= 0
      invariant -1 <= i <= 5
      invariant i >= 0 ==> r == buf + BigEndian(ts48 / (shifts[i] * 256), 5 - i)
      invariant i < 0 ==> r == buf + BigEndian(ts48, 6)
    {
      r := r + [ts48 / shifts[i] % 256];
      NextDigit(ts48, shifts[i]);
      i := i - 1;
    }
  }

  lemma NextDigit(n: nat, shift: nat)
    requires shift > 0
    ensures n / shift / 256 == n / (shift * 256)
  {
    var a, q := n / shift, n / shift / 256;
    Division.Euclid(n, shift);
    Division.Euclid(a, 256);
    var r := shift * (a % 256) + n % shift;
    assert n == shift * 256 * q + r by {
      assert shift * a == shift * (256 * q) + shift * (a % 256);
    }
    Division.ProductSign(shift, 255 - a % 256);
    assert shift * (255 - a % 256) == shift * 255 - shift * (a % 256);
    Division.ProductSign(shift, a % 256);
    Division.Unique(n, shift * 256, q, r);
  }

  // ---------- payloads ----------

  function DataPayload(mode: OutputMode, msg: Message, ref: ClockRef): (r: seq<byte>) {
    [if |msg.bytes| == 7 then TYPE_SHORT else TYPE_LONG]
    + BigEndian(EncodeTimestamp(mode, msg.toa, ref), 6) + [msg.signal] + msg.bytes
  }

  const SETTINGS_BINARY: byte := 0x01
  const SETTINGS_GPS: byte := 0x10

  function StatusPayload(tsMode: OutputMode, reported: OutputMode, toa: uint64, ref: ClockRef): (r: seq<byte>) {
    var gps := reported.RadarcapeGPS?;
    [TYPE_STATUS] + BigEndian(StatusTimestamp(tsMode, toa, ref), 6) + [0]
    + [if gps then SETTINGS_BINARY + SETTINGS_GPS else SETTINGS_BINARY, 0, if gps then 0xFF else 0]
    + [0, 0, 0, 0, 0, 0, 0, 0, 0, 0, 0]
  }

  /** What the bytes of a data payload say: type 0x32 or 0x33 by length, timestamp, signal, message. */
  lemma DataInBytes(mode: OutputMode, msg: Message, ref: ClockRef)
    requires msg.Valid()
    ensures var p := DataPayload(mode, msg, ref);
            && p[0] == (if |msg.bytes| == 7 then 0x32 else 0x33)
            && FromBigEndian(p[1..7]) == EncodeTimestamp(mode, msg.toa, ref)
            && p[7] == msg.signal && p[8..] == msg.bytes
  {
    TimestampReadsBack(EncodeTimestamp(mode, msg.toa, ref));
    assert DataPayload(mode, msg, ref)[1..7] == BigEndian(EncodeTimestamp(mode, msg.toa, ref), 6);
  }

  /** And of a status payload: type 0x34, timestamp, no signal, binary protocol with GPS time or without, no pulse
      offset, the GPS status, and eleven reserved bytes. */
  lemma StatusInBytes(tsMode: OutputMode, reported: OutputMode, toa: uint64, ref: ClockRef)
    ensures var p := StatusPayload(tsMode, reported, toa, ref);
            && |p| == 22 && p[0] == 0x34
            && FromBigEndian(p[1..7]) == EncodeTimestamp(tsMode, toa, ref) % 0x8000_0000_0000
            && p[7] == 0 && p[8] == (if reported == RadarcapeGPS then 0x11 else 0x01) && p[9] == 0
            && p[10] == (if reported == RadarcapeGPS then 0xFF else 0x00)
            && forall k :: 11 <= k < 22 ==> p[k] == 0
  {
    TimestampReadsBack(StatusTimestamp(tsMode, toa, ref));
    assert StatusPayload(tsMode, reported, toa, ref)[1..7] == BigEndian(StatusTimestamp(tsMode, toa, ref), 6);
  }

  lemma PayloadsAreWellFormed(mode: OutputMode, reported: OutputMode, msg: Message, toa: uint64, ref: ClockRef)
    requires msg.Valid()
    ensures IsPayload(DataPayload(mode, msg, ref)) && IsPayload(StatusPayload(mode, reported, toa, ref))
  {
  }
}
