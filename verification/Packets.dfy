/** The packet format and its parser (BaseStation/pkt.cpp). */
module Packets {
  import opened Bytes

  const HEADER_SIZE := 8

  // The packet types that the frame path knows; any byte may appear on the wire.
  const NONE: byte := 0
  const MJPEG: byte := 2
  const UNCOMP: byte := 4

  /** The fields of a parsed packet. `kind` is the source's `type`. */
  datatype Pkt = Pkt(length: u16, id: byte, kind: byte, offset: u32, data: seq<byte>) {
    predicate Valid() {
      0 < length == |data|
    }

    /** getRawLength: the sum is cut to 16 bits. */
    function RawLength(): u16 {
      (length + HEADER_SIZE) % 0x1_0000
    }
  }

  datatype ParseError = TooShort | ZeroLength | NotEnough

  datatype Result<+T> = Ok(value: T) | Err(error: ParseError)

  /** The bytes that carry a packet: the header of pkt.hpp followed by the data. */
  function Encode(p: Pkt): seq<byte> {
    BytesOf16(p.length) + [p.id, p.kind] + BytesOf32(p.offset) + p.data
  }

  function EncodeAll(ps: seq<Pkt>): seq<byte> {
    if ps == [] then [] else Encode(ps[0]) + EncodeAll(ps[1..])
  }

  function ParsePacket(buf: seq<byte>): Result<Pkt> {
    if |buf| < HEADER_SIZE then Err(TooShort)
    else
      var length := Le16(buf[0], buf[1]);
      if length == 0 then Err(ZeroLength)
      else if length > |buf| - HEADER_SIZE then Err(NotEnough)
      else Ok(Pkt(length, buf[2], buf[3], Le32(buf[4], buf[5], buf[6], buf[7]),
                  buf[HEADER_SIZE..HEADER_SIZE + length]))
  }

  /** A packet object: `parse` fills the fields in place, byte by byte. */
  class Packet {
    var id: byte
    var length: u16
    var offset: u32
    var kind: byte
    var data: seq<byte>

    constructor ()
      ensures Value() == Pkt(0, 0, NONE, 0, [])
    {
      id, length, offset, kind, data := 0, 0, 0, NONE, [];
    }

    function Value(): Pkt
      reads this
    {
      Pkt(length, id, kind, offset, data)
    }

    /** The header fields are assigned before the two length checks can fail. */
    method Parse(buf: seq<byte>) returns (r: Result<()>)
      modifies this
      ensures match ParsePacket(buf)
              case Ok(p) => r == Ok(()) && Value() == p
              case Err(e) => r == Err(e) && data == old(data)
    {
      if |buf| < HEADER_SIZE {
        return Err(TooShort);
      }
      length := Le16(buf[0], buf[1]);
      id := buf[2];
      kind := buf[3];
      offset := Le32(buf[4], buf[5], buf[6], buf[7]);
      if length == 0 {
        return Err(ZeroLength);
      }
      if length > |buf| - HEADER_SIZE {
        return Err(NotEnough);
      }
      data := seq(length, _ => 0);
      var i: u16 := 0;
      while i < length
        invariant i <= length == |data| <= |buf| - HEADER_SIZE
        invariant data[..i] == buf[HEADER_SIZE..HEADER_SIZE + i]
        invariant length == Le16(buf[0], buf[1]) && id == buf[2] && kind == buf[3]
        invariant offset == Le32(buf[4], buf[5], buf[6], buf[7])
      {
        assert buf[HEADER_SIZE..HEADER_SIZE + i + 1] == buf[HEADER_SIZE..HEADER_SIZE + i] + [buf[i + HEADER_SIZE]];
        ghost var before := data;
        data := data[i := buf[i + HEADER_SIZE]];
        assert data[..i + 1] == before[..i] + [buf[i + HEADER_SIZE]];
        i := i + 1;
      }
      return Ok(());
    }
  }

  lemma Le16RoundTrip(x: u16)
    ensures Le16(BytesOf16(x)[0], BytesOf16(x)[1]) == x
  {}

  lemma Le32RoundTrip(x: u32)
    ensures var b := BytesOf32(x); Le32(b[0], b[1], b[2], b[3]) == x
  {}

  lemma Bytes32RoundTrip(b0: byte, b1: byte, b2: byte, b3: byte)
    ensures BytesOf32(Le32(b0, b1, b2, b3)) == [b0, b1, b2, b3]
  {
    var x2 := b2 + 0x100 * b3;
    var x1 := b1 + 0x100 * x2;
    var x := b0 + 0x100 * x1;
    assert x / 0x100 == x1 && x1 / 0x100 == x2 && x2 / 0x100 == b3;
  }

  /** Where the fields of a packet stand on the wire: two bytes of length, the frame ID, the
      type, four bytes of offset, low bytes first, and the data from byte 8 on. */
  lemma {:induction false} WireLayout(p: Pkt)
    ensures var b: seq<int> := Encode(p);
            && |b| == 8 + |p.data| && b[8..] == p.data
            && b[0] + 256 * b[1] == p.length && b[2] == p.id && b[3] == p.kind
            && b[4] + 256 * b[5] + 65536 * b[6] + 16777216 * b[7] == p.offset
  {
    var x := p.offset;
    var x1 := x / 0x100;
    var x2 := x1 / 0x100;
    assert x == x % 0x100 + 0x100 * x1 && x1 == x1 % 0x100 + 0x100 * x2 && x2 == x2 % 0x100 + 0x100 * (x2 / 0x100);
  }

  lemma ParsedEncodes(buf: seq<byte>, p: Pkt)
    requires ParsePacket(buf) == Ok(p)
    ensures p.Valid() && Encode(p) == buf[..HEADER_SIZE + p.length]
  {
    Bytes32RoundTrip(buf[4], buf[5], buf[6], buf[7]);
    assert buf[..2] == BytesOf16(p.length);
    assert buf[4..8] == BytesOf32(p.offset);
  }

  lemma EncodedHeader(buf: seq<byte>, p: Pkt)
    requires Encode(p) <= buf
    ensures |buf| >= HEADER_SIZE + |p.data| && buf[HEADER_SIZE..HEADER_SIZE + |p.data|] == p.data
    ensures Le16(buf[0], buf[1]) == p.length && buf[2] == p.id && buf[3] == p.kind
    ensures Le32(buf[4], buf[5], buf[6], buf[7]) == p.offset
  {
    var e := Encode(p);
    Le16RoundTrip(p.length);
    Le32RoundTrip(p.offset);
    assert forall k | 0 <= k < |e| :: e[k] == buf[k];
    assert buf[0] == BytesOf16(p.length)[0] && buf[1] == BytesOf16(p.length)[1];
    assert forall k | 0 <= k < 4 :: buf[4 + k] == e[4 + k] == BytesOf32(p.offset)[k];
    assert forall k | 0 <= k < |p.data| :: e[HEADER_SIZE + k] == p.data[k];
  }

  /** The parser accepts exactly the buffers that begin with the encoding of a
      non-empty packet, and returns that packet: round trip and soundness at once. */
  lemma {:induction false} ParseExact(buf: seq<byte>, p: Pkt)
    ensures ParsePacket(buf) == Ok(p) <==> p.Valid() && Encode(p) <= buf
  {
    if ParsePacket(buf) == Ok(p) {
      ParsedEncodes(buf, p);
    }
    if p.Valid() && Encode(p) <= buf {
      EncodedHeader(buf, p);
    }
  }

  /** Later bytes never change a packet that has already been recognised,
      nor revive a stream that stopped on a zero length. */
  lemma ParseStable(buf: seq<byte>, more: seq<byte>)
    ensures ParsePacket(buf).Ok? ==> ParsePacket(buf + more) == ParsePacket(buf)
    ensures ParsePacket(buf) == Err(ZeroLength) ==> ParsePacket(buf + more) == Err(ZeroLength)
  {
    if ParsePacket(buf).Ok? {
      var n := HEADER_SIZE + ParsePacket(buf).value.length;
      assert (buf + more)[HEADER_SIZE..n] == buf[HEADER_SIZE..n];
    }
  }

  /** Whatever arrives later, the bytes held are not parsed: exactly when they begin with a
      length of 0. */
  lemma {:induction false} StuckExactly(data: seq<byte>)
    ensures (forall more :: ParsePacket(data + more).Err?) <==> |data| >= 2 && data[0] == 0 && data[1] == 0
  {
    hide ParsePacket;
    if |data| >= 2 && data[0] == 0 && data[1] == 0 {
      forall more ensures ParsePacket(data + more).Err? {
        Stuck(data, more);
      }
    } else {
      var more := Completion(data);
      assert ParsePacket(data + more).Ok?;
    }
  }

  lemma Stuck(data: seq<byte>, more: seq<byte>)
    requires |data| >= 2 && data[0] == 0 && data[1] == 0
    ensures ParsePacket(data + more).Err?
  {
    var buf := data + more;
    assert buf[0] == 0 && buf[1] == 0;
  }

  /** Bytes that make a packet of any others. */
  lemma Completion(data: seq<byte>) returns (more: seq<byte>)
    requires !(|data| >= 2 && data[0] == 0 && data[1] == 0)
    ensures ParsePacket(data + more).Ok?
  {
    var ones := if |data| < 2 then [1, 1] else [];
    more := ones + seq(HEADER_SIZE + 0x1_0000, _ => 0);
    var buf := data + more;
    assert buf[0] == if |data| > 0 then data[0] else 1;
    assert buf[1] == if |data| > 1 then data[1] else 1;
    assert Le16(buf[0], buf[1]) != 0;
  }

  /** No packet's bytes are a proper prefix of another's: a stream of packets
      can be cut in one way only. */
  lemma {:induction false} EncodeAllInjective(ps: seq<Pkt>, qs: seq<Pkt>)
    requires forall p | p in ps + qs :: p.Valid()
    requires EncodeAll(ps) == EncodeAll(qs)
    ensures ps == qs
  {
    if ps != [] && qs != [] {
      var buf := EncodeAll(ps);
      ParseExact(buf, ps[0]);
      ParseExact(buf, qs[0]);
      var n := |Encode(ps[0])|;
      assert buf[n..] == EncodeAll(ps[1..]) && buf[n..] == EncodeAll(qs[1..]);
      EncodeAllInjective(ps[1..], qs[1..]);
    }
  }

  /** getRawLength is the true size of the packet exactly up to 65527 data bytes. */
  lemma RawLengthExact(p: Pkt)
    requires p.Valid()
    ensures p.RawLength() == |Encode(p)| <==> p.length <= 65527
  {}
}
