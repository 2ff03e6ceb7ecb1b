/** The packet headers of the reliable channel, byte by byte. A packet is a signed 16-bit length, a
    32-bit position, and either that many bytes of data or, under a negative length, the end of the
    receive window. All numbers are little-endian. */
module Wire {
  import opened Prelude
  import opened StreamPosition

  const MAX_PAYLOAD := 32767

  datatype Message =
    | Data(start: StreamPos, bytes: seq<u8>)
    | Ack(start: StreamPos, end: StreamPos, windowEnd: StreamPos)
    | ProtocolError

  function PutU16(x: u16): (b: seq<u8>)
    ensures |b| == 2
  {
    var low: int, high: int := x % 0x100, x / 0x100;
    [low, high]
  }

  function GetU16(b: seq<u8>): u16
    requires |b| == 2
  {
    var low: int, high: int := b[0], b[1];
    low + 0x100 * high
  }

  function PutU32(x: StreamPos): (b: seq<u8>)
    ensures |b| == 4
  {
    var low: int, high: int := x % 0x1_0000, x / 0x1_0000;
    PutU16(low) + PutU16(high)
  }

  function GetU32(b: seq<u8>): StreamPos
    requires |b| == 4
  {
    var low: int, high: int := GetU16(b[..2]), GetU16(b[2..]);
    low + 0x1_0000 * high
  }

  /** A 16-bit pattern read as a two's complement number, and back. */
  function ToI16(x: u16): int {
    if x < 0x8000 then x else x - 0x1_0000
  }

  function FromI16(n: int): u16
    requires -0x8000 <= n < 0x8000
  {
    if 0 <= n then n else n + 0x1_0000
  }

  function EncodeData(start: StreamPos, bytes: seq<u8>): (packet: seq<u8>)
    requires |bytes| <= MAX_PAYLOAD
    ensures |packet| == 6 + |bytes|
  {
    PutU16(FromI16(|bytes|)) + PutU32(start) + bytes
  }

  function EncodeAck(start: StreamPos, end: StreamPos, windowEnd: StreamPos): seq<u8>
    requires WrappingSub(end, start) <= MAX_PAYLOAD
  {
    var len: int := WrappingSub(end, start);
    PutU16(FromI16(-len)) + PutU32(start) + PutU32(windowEnd)
  }

  /** How a received packet is read. Negating the least 16-bit length wraps to itself, and widening
      it to 32 bits keeps the sign, as a release build of the original does. */
  function Decode(packet: seq<u8>): Message {
    if |packet| < 2 then ProtocolError
    else
      var dataLen := ToI16(GetU16(packet[..2]));
      if dataLen < 0 then
        if |packet| != 10 then ProtocolError
        else
          var start := GetU32(packet[2..6]);
          var len: int := if dataLen == -0x8000 then 0xFFFF_8000 else -dataLen;
          Ack(start, WrappingAdd(start, len), GetU32(packet[6..10]))
      else if |packet| < 6 then ProtocolError
      else if dataLen != |packet| - 6 then ProtocolError
      else Data(GetU32(packet[2..6]), packet[6..])
  }

  /** Handling the packet negates the least 16-bit length, which a debug build of the original refuses with a panic. */
  predicate NegationOverflows(packet: seq<u8>) {
    |packet| == 10 && ToI16(GetU16(packet[..2])) == -0x8000
  }

  /** Exactly the packets of ten bytes that begin 0x00, 0x80; no endpoint sends one. In a release build such a packet
      acknowledges a range of 2^32 - 2^15 positions. */
  lemma {:induction false} NegationOverflowsExactly(packet: seq<u8>)
    ensures NegationOverflows(packet) <==> |packet| == 10 && packet[0] == 0x00 && packet[1] == 0x80
    ensures forall start, bytes :: |bytes| <= MAX_PAYLOAD && packet == EncodeData(start, bytes) ==>
                                     !NegationOverflows(packet)
    ensures forall start, end, windowEnd ::
              WrappingSub(end, start) <= MAX_PAYLOAD && packet == EncodeAck(start, end, windowEnd) ==>
                !NegationOverflows(packet)
    ensures NegationOverflows(packet) ==>
              Decode(packet).Ack? && WrappingSub(Decode(packet).end, Decode(packet).start) == 0x1_0000_0000 - 0x8000
  {
    if |packet| == 10 {
      assert packet[..2][0] == packet[0] && packet[..2][1] == packet[1];
    }
    forall start, bytes | |bytes| <= MAX_PAYLOAD && packet == EncodeData(start, bytes)
      ensures !NegationOverflows(packet)
    {
      assert packet[..2] == PutU16(FromI16(|bytes|));
      U16RoundTrip(FromI16(|bytes|), [0, 0]);
    }
    forall start, end, windowEnd | WrappingSub(end, start) <= MAX_PAYLOAD && packet == EncodeAck(start, end, windowEnd)
      ensures !NegationOverflows(packet)
    {
      var len: int := WrappingSub(end, start);
      assert packet[..2] == PutU16(FromI16(-len));
      U16RoundTrip(FromI16(-len), [0, 0]);
    }
  }

  /** Little-endian: byte k is the k-th digit to the base 256. */
  lemma {:induction false} PutU32Bytes(x: StreamPos)
    ensures var b, n: int := PutU32(x), x;
            && b[0] == n % 0x100 && b[1] == n / 0x100 % 0x100
            && b[2] == n / 0x1_0000 % 0x100 && b[3] == n / 0x100_0000
  {
  }

  /** Data on the wire: the length, the position, the bytes. */
  lemma {:induction false} DataLayout(start: StreamPos, bytes: seq<u8>)
    requires |bytes| <= MAX_PAYLOAD
    ensures var p, s: int := EncodeData(start, bytes), start;
            && |p| == 6 + |bytes| && p[6..] == bytes
            && p[0] == |bytes| % 0x100 && p[1] == |bytes| / 0x100
            && p[2] == s % 0x100 && p[3] == s / 0x100 % 0x100
            && p[4] == s / 0x1_0000 % 0x100 && p[5] == s / 0x100_0000
  {
    PutU32Bytes(start);
  }

  /** An acknowledgement on the wire: the length negated, in two's complement, the position, the window end. */
  lemma {:induction false} AckLayout(start: StreamPos, end: StreamPos, windowEnd: StreamPos)
    requires 0 < WrappingSub(end, start) <= MAX_PAYLOAD
    ensures var p, s: int, w: int := EncodeAck(start, end, windowEnd), start, windowEnd;
            && |p| == 10
            && p[0] as int + 0x100 * p[1] as int == 0x1_0000 - WrappingSub(end, start)
            && p[2] == s % 0x100 && p[3] == s / 0x100 % 0x100
            && p[4] == s / 0x1_0000 % 0x100 && p[5] == s / 0x100_0000
            && p[6] == w % 0x100 && p[7] == w / 0x100 % 0x100
            && p[8] == w / 0x1_0000 % 0x100 && p[9] == w / 0x100_0000
  {
    PutU32Bytes(start);
    PutU32Bytes(windowEnd);
  }

  lemma {:induction false} U16RoundTrip(x: u16, b: seq<u8>)
    requires |b| == 2
    ensures GetU16(PutU16(x)) == x
    ensures PutU16(GetU16(b)) == b
  {
  }

  lemma {:induction false} U32RoundTrip(x: StreamPos, b: seq<u8>)
    requires |b| == 4
    ensures GetU32(PutU32(x)) == x
    ensures PutU32(GetU32(b)) == b
  {
    U32Forth(x);
    U32Back(b, GetU16(b[..2]), GetU16(b[2..]));
  }

  lemma {:induction false} U32Forth(x: StreamPos)
    ensures GetU32(PutU32(x)) == x
  {
    var low: int, high: int := x % 0x1_0000, x / 0x1_0000;
    assert PutU32(x)[..2] == PutU16(low) && PutU32(x)[2..] == PutU16(high);
    U16RoundTrip(low, [0, 0]);
    U16RoundTrip(high, [0, 0]);
  }

  lemma {:induction false} U32Back(b: seq<u8>, low: u16, high: u16)
    requires |b| == 4 && low == GetU16(b[..2]) && high == GetU16(b[2..])
    ensures PutU32(GetU32(b)) == b
  {
    Halves(low, high);
    U16RoundTrip(low, b[..2]);
    U16RoundTrip(high, b[2..]);
    assert PutU32(GetU32(b)) == b[..2] + b[2..];
  }

  lemma {:induction false} Halves(low: int, high: int)
    requires 0 <= low < 0x1_0000 && 0 <= high
    ensures (low + 0x1_0000 * high) % 0x1_0000 == low && (low + 0x1_0000 * high) / 0x1_0000 == high
  {
  }

  /** Every data packet the channel builds is read back as what was put in it. */
  lemma {:induction false} DataRoundTrip(start: StreamPos, bytes: seq<u8>)
    requires |bytes| <= MAX_PAYLOAD
    ensures Decode(EncodeData(start, bytes)) == Data(start, bytes)
  {
    var p := EncodeData(start, bytes);
    assert p[..2] == PutU16(FromI16(|bytes|)) && p[2..6] == PutU32(start) && p[6..] == bytes;
    U16RoundTrip(FromI16(|bytes|), p[..2]);
    U32RoundTrip(start, p[2..6]);
  }

  /** Every acknowledgement of a non-empty range is read back as that range and window end. */
  lemma {:induction false} AckRoundTrip(start: StreamPos, end: StreamPos, windowEnd: StreamPos)
    requires 0 < WrappingSub(end, start) <= MAX_PAYLOAD
    ensures Decode(EncodeAck(start, end, windowEnd)) == Ack(start, end, windowEnd)
  {
    var len: int := WrappingSub(end, start);
    var p := EncodeAck(start, end, windowEnd);
    assert p[..2] == PutU16(FromI16(-len)) && p[2..6] == PutU32(start) && p[6..10] == PutU32(windowEnd);
    U16RoundTrip(FromI16(-len), p[..2]);
    U32RoundTrip(start, p[2..6]);
    U32RoundTrip(windowEnd, p[6..10]);
  }

  /** Conversely a packet read as data is the encoding of that data: nothing else is read that way. */
  lemma {:induction false} OnlyEncodedData(packet: seq<u8>)
    requires Decode(packet).Data?
    ensures |Decode(packet).bytes| <= MAX_PAYLOAD
    ensures EncodeData(Decode(packet).start, Decode(packet).bytes) == packet
  {
    U16RoundTrip(0, packet[..2]);
    U32RoundTrip(0, packet[2..6]);
    assert packet == packet[..2] + packet[2..6] + packet[6..];
  }

  /** And a packet read as an acknowledgement of at most MAX_PAYLOAD bytes is its encoding. */
  lemma {:induction false} OnlyEncodedAck(packet: seq<u8>)
    requires Decode(packet).Ack? && WrappingSub(Decode(packet).end, Decode(packet).start) <= MAX_PAYLOAD
    ensures EncodeAck(Decode(packet).start, Decode(packet).end, Decode(packet).windowEnd) == packet
  {
    U16RoundTrip(0, packet[..2]);
    U32RoundTrip(0, packet[2..6]);
    U32RoundTrip(0, packet[6..10]);
    assert packet == packet[..2] + packet[2..6] + packet[6..10];
  }
}
