/** The message the FPGA hands over, as the feeder passes it around. */
module Regs {
  import opened Words

  // bytes: the first seven or all fourteen bytes, in transmission order.  signal: the signal byte that
  // is derived from the reference power level.
  datatype Message = Message(bytes: seq<byte>, toa: uint64, signal: byte) {
    // Decode sets the length from the downlink format.
    predicate Valid() { |bytes| == if bytes != [] && DF() >= 16 then 14 else 7 }

    function DF(): (r: nat)
      requires bytes != []
    {
      bytes[0] / 8
    }

    // Bytes 1 to 3, the address announced in DF11, DF17 and DF18.
    function ICAO(): (r: nat)
      requires |bytes| >= 4
    {
      bytes[1] as nat * 65536 + bytes[2] as nat * 256 + bytes[3] as nat
    }
  }
}
