/** The message FIFO behind the registers: reading the RPL register pops it. */
module Fifo {
  import opened Words
  import opened Regs

  const REG_MSG_DATA_0: uint32 := 0x00
  const REG_MSG_DATA_1: uint32 := 0x04
  const REG_MSG_DATA_2: uint32 := 0x08
  const REG_MSG_DATA_3: uint32 := 0x0C
  const REG_TOA_LO: uint32 := 0x10
  const REG_TOA_HI: uint32 := 0x14
  const REG_RPL: uint32 := 0x18
  const REG_STATUS: uint32 := 0x1C
  const REG_PPS_COUNT: uint32 := 0x20
  const REG_PPS_CTR_LO: uint32 := 0x24
  const REG_PPS_CTR_HI: uint32 := 0x28
  const REG_VERSION: uint32 := 0x30

  const KNOWN_REGISTERS: set<int> :=
    {REG_MSG_DATA_0, REG_MSG_DATA_1, REG_MSG_DATA_2, REG_MSG_DATA_3, REG_TOA_LO, REG_TOA_HI, REG_RPL, REG_STATUS,
     REG_PPS_COUNT, REG_PPS_CTR_LO, REG_PPS_CTR_HI, REG_VERSION}

  datatype RawMessage = RawMessage(data0: uint32, data1: uint32, data2: uint32, data3: uint32,
                                   toaLo: uint32, toaHi: uint32, rpl: uint32)

  datatype PpsRegisters = PpsRegisters(count: uint32, counterLo: uint32, counterHi: uint32)

  const NO_MESSAGE := RawMessage(0, 0, 0, 0, 0, 0, 0)

  class MockReader {
    var queue: seq<RawMessage>
    var current: RawMessage
    var pps: PpsRegisters
    var version: uint32

    ghost predicate Valid()
      reads this
    {
      current == if queue == [] then NO_MESSAGE else queue[0]
    }

    constructor ()
      ensures Valid() && queue == [] && pps == PpsRegisters(0, 0, 0) && version == 0x00010000
    {
      queue, current, pps, version := [], NO_MESSAGE, PpsRegisters(0, 0, 0), 0x00010000;
    }

    method SetPps(pps: PpsRegisters)
      requires Valid()
      modifies this`pps
      ensures Valid() && this.pps == pps
    {
      this.pps := pps;
    }

    method Push(raw: RawMessage)
      requires Valid()
      modifies this`queue, this`current
      ensures Valid() && queue == old(queue) + [raw]
    {
      queue := queue + [raw];
      if |queue| == 1 {
        current := queue[0];
      }
    }

    // The status word carries not-empty and the fill level.
    method Read32(offset: uint32) returns (v: uint32)
      requires Valid()
      modifies this`queue, this`current
      ensures Valid()
      ensures queue == if offset == REG_RPL && old(queue) != [] then old(queue)[1..] else old(queue)
      ensures var m := if old(queue) != [] then old(queue)[0] else NO_MESSAGE;
        && (offset == REG_MSG_DATA_0 ==> v == m.data0) && (offset == REG_MSG_DATA_1 ==> v == m.data1)
        && (offset == REG_MSG_DATA_2 ==> v == m.data2) && (offset == REG_MSG_DATA_3 ==> v == m.data3)
        && (offset == REG_TOA_LO ==> v == m.toaLo) && (offset == REG_TOA_HI ==> v == m.toaHi)
        && (offset == REG_RPL ==> v == m.rpl)
      ensures offset == REG_STATUS ==> (v % 2 == 1 <==> queue != []) && v / 256 == |queue| % 128
      ensures offset == REG_PPS_COUNT ==> v == pps.count
      ensures offset == REG_PPS_CTR_LO ==> v == pps.counterLo
      ensures offset == REG_PPS_CTR_HI ==> v == pps.counterHi
      ensures offset == REG_VERSION ==> v == version
      ensures offset !in KNOWN_REGISTERS ==> v == 0
    {
      if offset == REG_MSG_DATA_0 { return current.data0; }
      if offset == REG_MSG_DATA_1 { return current.data1; }
      if offset == REG_MSG_DATA_2 { return current.data2; }
      if offset == REG_MSG_DATA_3 { return current.data3; }
      if offset == REG_TOA_LO { return current.toaLo; }
      if offset == REG_TOA_HI { return current.toaHi; }
      if offset == REG_RPL {
        v := current.rpl;
        if |queue| > 0 {
          queue := queue[1..];
          current := if |queue| > 0 then queue[0] else NO_MESSAGE;
        }
        return;
      }
      if offset == REG_STATUS {
        v := (if |queue| > 0 then 1 else 0) + |queue| % 128 * 256;
        return;
      }
      if offset == REG_PPS_COUNT { return pps.count; }
      if offset == REG_PPS_CTR_LO { return pps.counterLo; }
      if offset == REG_PPS_CTR_HI { return pps.counterHi; }
      if offset == REG_VERSION { return version; }
      v := 0;
    }
  }

  /** Seven register reads, RPL last, take exactly the oldest message out of the FIFO. */
  method ReadMessage(r: MockReader) returns (raw: RawMessage)
    requires r.Valid() && r.queue != []
    modifies r
    ensures r.Valid() && raw == old(r.queue)[0] && r.queue == old(r.queue)[1..]
  {
    var d0 := r.Read32(REG_MSG_DATA_0);
    var d1 := r.Read32(REG_MSG_DATA_1);
    var d2 := r.Read32(REG_MSG_DATA_2);
    var d3 := r.Read32(REG_MSG_DATA_3);
    var lo := r.Read32(REG_TOA_LO);
    var hi := r.Read32(REG_TOA_HI);
    var rpl := r.Read32(REG_RPL);
    raw := RawMessage(d0, d1, d2, d3, lo, hi, rpl);
  }

  // First transmitted byte first; the length follows from the downlink format.  signalOf stands for the
  // conversion of the reference power level.
  function Decode(raw: RawMessage, signalOf: nat -> byte): (m: Message)
    ensures m.Valid()
  {
    var bytes := LittleEndian32(raw.data0) + LittleEndian32(raw.data1)
                 + LittleEndian32(raw.data2) + LittleEndian32(raw.data3)[..2];
    Message(if bytes[0] / 8 >= 16 then bytes else bytes[..7],
            raw.toaHi * TWO_32 + raw.toaLo, signalOf(raw.rpl % 0x100_0000))
  }

  // The message register, most significant byte first.
  function Register(raw: RawMessage): (b: seq<byte>)
    ensures |b| == 14
  {
    [raw.data3 / 0x100 % 0x100, raw.data3 % 0x100]
    + BigEndian32(raw.data2) + BigEndian32(raw.data1) + BigEndian32(raw.data0)
  }

  function BigEndian32(w: uint32): (b: seq<byte>)
    ensures |b| == 4 && forall k :: 0 <= k < 4 ==> b[k] == LittleEndian32(w)[3 - k]
  {
    [w / 0x100_0000 % 0x100, w / 0x1_0000 % 0x100, w / 0x100 % 0x100, w % 0x100]
  }

  lemma BytesInOrder(raw: RawMessage, bytes: seq<byte>, register: seq<byte>)
    requires |bytes| == 14 && register == Register(raw)
    requires forall k :: 0 <= k < 14 ==> bytes[k] == register[13 - k]
    ensures bytes == LittleEndian32(raw.data0) + LittleEndian32(raw.data1)
                     + LittleEndian32(raw.data2) + LittleEndian32(raw.data3)[..2]
  {
    hide BigEndian32;
  }

  method LayOut(raw: RawMessage) returns (fpga: array<byte>)
    ensures fresh(fpga) && fpga[..] == Register(raw)
  {
    fpga := new byte[14];
    fpga[0], fpga[1] := raw.data3 / 0x100 % 0x100, raw.data3 % 0x100;
    fpga[2], fpga[3] := raw.data2 / 0x100_0000 % 0x100, raw.data2 / 0x1_0000 % 0x100;
    fpga[4], fpga[5] := raw.data2 / 0x100 % 0x100, raw.data2 % 0x100;
    fpga[6], fpga[7] := raw.data1 / 0x100_0000 % 0x100, raw.data1 / 0x1_0000 % 0x100;
    fpga[8], fpga[9] := raw.data1 / 0x100 % 0x100, raw.data1 % 0x100;
    fpga[10], fpga[11] := raw.data0 / 0x100_0000 % 0x100, raw.data0 / 0x1_0000 % 0x100;
    fpga[12], fpga[13] := raw.data0 / 0x100 % 0x100, raw.data0 % 0x100;
  }

  /** Decode as it is programmed: the fourteen bytes are laid out in the order of the FPGA's message register, most
      significant first, and then turned round. */
  method DecodeMessage(raw: RawMessage, signalOf: nat -> byte) returns (m: Message)
    ensures m == Decode(raw, signalOf)
  {
    hide Register, LittleEndian32;
    var fpga := LayOut(raw);
    var bytes := new byte[14];
    for i := 0 to 7
      invariant fpga[..] == Register(raw)
      invariant forall k :: 0 <= k < i ==> bytes[k] == fpga[13 - k] && bytes[13 - k] == fpga[k]
    {
      bytes[i], bytes[13 - i] := fpga[13 - i], fpga[i];
    }
    var len := if bytes[0] / 8 >= 16 then 14 else 7;
    BytesInOrder(raw, bytes[..], fpga[..]);
    assert bytes[..len] == bytes[..][..len];
    m := Message(bytes[..len], raw.toaHi * 0x1_0000_0000 + raw.toaLo, signalOf(raw.rpl % 0x100_0000));
  }
}
