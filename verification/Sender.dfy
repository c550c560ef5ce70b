/** Putting frames on the network: the camera's packetiser
    (cc3000_basic_wifi_application.c, WIFI_sendUSBData) and the replay of a recorded
    stream in fixed slices (BaseStation/send.cpp). */
module Sender {
  import opened Bytes
  import opened Packets
  import opened Overlay
  import opened Examine
  import opened Client

  const WIFI_HEADER_SIZE := 8
  const WIFI_PACKET_SIZE := 248

  /** The i-th packet of a frame: 248 bytes at their own offset. */
  function Chunk(buf: seq<byte>, i: nat, id: byte, kind: byte): Pkt
    requires WIFI_PACKET_SIZE * (i + 1) <= |buf| < 0x1_0000_0000
  {
    var offset := WIFI_PACKET_SIZE * i;
    Pkt(WIFI_PACKET_SIZE, id, kind, offset, buf[offset..offset + WIFI_PACKET_SIZE])
  }

  function Chunks(buf: seq<byte>, n: nat, id: byte, kind: byte): seq<Pkt>
    requires WIFI_PACKET_SIZE * n <= |buf| < 0x1_0000_0000
  {
    seq(n, i requires 0 <= i < n => Chunk(buf, i, id, kind))
  }

  /** One datagram per packet. */
  function Datagrams(ps: seq<Pkt>): seq<seq<byte>> {
    if ps == [] then [] else Datagrams(ps[..|ps| - 1]) + [Encode(ps[|ps| - 1])]
  }

  /** The datagrams of the first n chunks, one by one. */
  lemma {:induction false} DatagramsAre(buf: seq<byte>, size: nat, n: nat, id: byte, kind: byte, sent: seq<seq<byte>>)
    requires WIFI_PACKET_SIZE * n <= size <= |buf| < 0x1_0000_0000 && |sent| == n
    requires forall i | 0 <= i < n ::
               WIFI_PACKET_SIZE * (i + 1) <= |buf| && sent[i] == Encode(Chunk(buf, i, id, kind))
    ensures sent == Datagrams(Chunks(buf[..size], n, id, kind))
    decreases n
  {
    hide Chunk, Chunks;
    if n == 0 {
      NoChunks(buf[..size], id, kind);
    } else {
      var m := n - 1;
      DatagramsAre(buf, size, m, id, kind, sent[..m]);
      ChunksSnoc(buf[..size], m, id, kind);
      ChunkCut(buf, size, m, id, kind);
      DatagramsSnoc(Chunks(buf[..size], m, id, kind), Chunk(buf, m, id, kind));
      assert sent == sent[..m] + [sent[m]];
    }
  }

  lemma NoChunks(buf: seq<byte>, id: byte, kind: byte)
    requires |buf| < 0x1_0000_0000
    ensures Chunks(buf, 0, id, kind) == []
  {}

  lemma DatagramsSnoc(ps: seq<Pkt>, p: Pkt)
    ensures Datagrams(ps + [p]) == Datagrams(ps) + [Encode(p)]
  {
    assert (ps + [p])[..|ps|] == ps;
  }

  lemma ChunksSnoc(buf: seq<byte>, n: nat, id: byte, kind: byte)
    requires WIFI_PACKET_SIZE * (n + 1) <= |buf| < 0x1_0000_0000
    ensures Chunks(buf, n + 1, id, kind) == Chunks(buf, n, id, kind) + [Chunk(buf, n, id, kind)]
  {
    hide Chunk;
  }

  lemma ChunkCut(buf: seq<byte>, size: nat, i: nat, id: byte, kind: byte)
    requires WIFI_PACKET_SIZE * (i + 1) <= size <= |buf| < 0x1_0000_0000
    ensures Chunk(buf[..size], i, id, kind) == Chunk(buf, i, id, kind)
  {
    var from := WIFI_PACKET_SIZE * i;
    assert buf[..size][from..from + WIFI_PACKET_SIZE] == buf[from..from + WIFI_PACKET_SIZE];
  }

  /** The packet type field for the camera's stream format (4 and 6 are the
      uncompressed and MJPEG descriptor subtypes). */
  function KindOf(streamFormat: int): byte {
    if streamFormat == 4 then UNCOMP else if streamFormat == 6 then MJPEG else NONE
  }

  method WriteLe32(pkt: array<byte>, at: nat, x: u32)
    requires at + 4 <= pkt.Length
    modifies pkt
    ensures pkt[..] == old(pkt[..at]) + BytesOf32(x) + old(pkt[at + 4..])
  {
    var x1 := x / 0x100;
    var x2 := x1 / 0x100;
    pkt[at] := x % 0x100;
    pkt[at + 1] := x1 % 0x100;
    pkt[at + 2] := x2 % 0x100;
    pkt[at + 3] := x2 / 0x100;
  }

  method CopyBytes(dst: array<byte>, at: nat, src: array<byte>, from: nat, n: nat)
    requires dst != src && at + n <= dst.Length && from + n <= src.Length
    modifies dst
    ensures dst[..] == old(dst[..at]) + src[from..from + n] + old(dst[at + n..])
  {
    var i := 0;
    while i < n
      invariant 0 <= i <= n
      invariant dst[..] == old(dst[..at]) + src[from..from + i] + old(dst[at + i..])
    {
      dst[at + i] := src[from + i];
      i := i + 1;
    }
  }

  /** The loop bound: what the unsigned difference comes to. */
  function Bound(size: nat): nat {
    (size / WIFI_PACKET_SIZE - 1) % 0x1_0000_0000
  }

  lemma BoundIs(size: nat, length: nat)
    requires size <= length && length + WIFI_PACKET_SIZE <= 0x1_0000_0000
    ensures if size < WIFI_PACKET_SIZE then WIFI_PACKET_SIZE * Bound(size) > length
            else Bound(size) == size / WIFI_PACKET_SIZE - 1 && WIFI_PACKET_SIZE * Bound(size) < size
  {}

  lemma QuotientIs(length: nat, i: nat)
    requires WIFI_PACKET_SIZE * i <= length < WIFI_PACKET_SIZE * (i + 1)
    ensures length / WIFI_PACKET_SIZE == i
  {}

  /** Rewrite the offset field and the data of the packet buffer for the i-th chunk. */
  method FillPacket(pkt: array<byte>, buf: array<byte>, i: nat, ghost id: byte, ghost kind: byte)
    requires pkt != buf && pkt.Length == WIFI_HEADER_SIZE + WIFI_PACKET_SIZE
    requires pkt[..4] == BytesOf16(WIFI_PACKET_SIZE) + [id, kind]
    requires WIFI_PACKET_SIZE * (i + 1) <= buf.Length < 0x1_0000_0000
    modifies pkt
    ensures pkt[..] == Encode(Chunk(buf[..], i, id, kind))
    ensures pkt[..4] == old(pkt[..4])
  {
    var offset := i * WIFI_PACKET_SIZE;
    WriteLe32(pkt, 4, offset);
    CopyBytes(pkt, WIFI_HEADER_SIZE, buf, offset, WIFI_PACKET_SIZE);
    assert Chunk(buf[..], i, id, kind).data == buf[offset..offset + WIFI_PACKET_SIZE];
  }

  /** The loop bound wraps below 248 bytes. */
  predicate RunsOff(size: nat) {
    size < WIFI_PACKET_SIZE
  }

  /** The send loop. Its bound size/248 - 1 is an unsigned 32-bit difference, so below
      248 bytes the loop runs on past the end of the buffer: `fault` is the first read
      outside it. One packet buffer is rewritten in place for every packet. */
  method SendUSBData(buf: array<byte>, size: nat, id: byte, streamFormat: int)
    returns (sent: seq<seq<byte>>, fault: bool)
    requires size <= buf.Length
    requires buf.Length + WIFI_PACKET_SIZE <= 0x1_0000_0000
    ensures fault <==> RunsOff(size)
    ensures |sent| == if fault then buf.Length / WIFI_PACKET_SIZE else size / WIFI_PACKET_SIZE - 1
    ensures forall i | 0 <= i < |sent| ::
              && WIFI_PACKET_SIZE * (i + 1) <= buf.Length
              && sent[i] == Encode(Chunk(buf[..], i, id, KindOf(streamFormat)))
    ensures !fault ==> sent == Datagrams(Chunks(buf[..size], size / WIFI_PACKET_SIZE - 1, id, KindOf(streamFormat)))
  {
    hide Bound, Chunk;
    sent, fault := [], false;
    var kind := KindOf(streamFormat);
    var pkt := new byte[WIFI_HEADER_SIZE + WIFI_PACKET_SIZE](_ => 0);
    pkt[0], pkt[1] := WIFI_PACKET_SIZE % 0x100, WIFI_PACKET_SIZE / 0x100;
    pkt[2] := id;
    pkt[3] := kind;
    assert pkt[..4] == BytesOf16(WIFI_PACKET_SIZE) + [id, kind];
    var n := Bound(size);
    BoundIs(size, buf.Length);
    var i := 0;
    while i < n
      invariant 0 <= i <= n && |sent| == i && WIFI_PACKET_SIZE * i <= buf.Length
      invariant pkt[..4] == BytesOf16(WIFI_PACKET_SIZE) + [id, kind]
      invariant forall k | 0 <= k < i ::
                  && WIFI_PACKET_SIZE * (k + 1) <= buf.Length
                  && sent[k] == Encode(Chunk(buf[..], k, id, kind))
    {
      if i * WIFI_PACKET_SIZE + WIFI_PACKET_SIZE > buf.Length {
        QuotientIs(buf.Length, i);
        fault := true;
        return;
      }
      FillPacket(pkt, buf, i, id, kind);
      sent := sent + [pkt[..]];
      i := i + 1;
    }
    DatagramsAre(buf[..], size, n, id, kind, sent);
  }

  /** How much of a frame the send loop covers. */
  function SentLength(size: nat): nat
    requires size >= WIFI_PACKET_SIZE
  {
    WIFI_PACKET_SIZE * (size / WIFI_PACKET_SIZE - 1)
  }

  /** The loop stops one packet early and never sends a partial one: every frame loses
      its last 248 to 495 bytes. */
  lemma TailLost(size: nat)
    requires size >= WIFI_PACKET_SIZE
    ensures WIFI_PACKET_SIZE <= size - SentLength(size) < 2 * WIFI_PACKET_SIZE
  {}

  lemma ChunkInside(buf: seq<byte>, i: nat, n: nat, id: byte, kind: byte)
    requires i < n && WIFI_PACKET_SIZE * n <= |buf| < 0x1_0000_0000
    ensures ChunkOf(Chunk(buf, i, id, kind), buf[..WIFI_PACKET_SIZE * n])
  {
    var from := WIFI_PACKET_SIZE * i;
    assert buf[..WIFI_PACKET_SIZE * n][from..from + WIFI_PACKET_SIZE] == buf[from..from + WIFI_PACKET_SIZE];
  }

  /** Any arrival of a frame's packets, in any order and with any repetition,
      reassembles to the part of the frame that was sent. */
  lemma SentFrameReassembles(buf: seq<byte>, id: byte, kind: byte, arrived: seq<Pkt>)
    requires WIFI_PACKET_SIZE <= |buf| < 0x1_0000_0000
    requires SamePackets(arrived, Chunks(buf, |buf| / WIFI_PACKET_SIZE - 1, id, kind))
    ensures Overlaid(arrived) == buf[..SentLength(|buf|)]
  {
    var n := |buf| / WIFI_PACKET_SIZE - 1;
    var chunks, frame := Chunks(buf, n, id, kind), buf[..SentLength(|buf|)];
    forall p | p in arrived ensures ChunkOf(p, frame) {
      assert p in chunks;
      var i :| 0 <= i < n && chunks[i] == p;
      ChunkInside(buf, i, n, id, kind);
    }
    forall k | 0 <= k < |frame| ensures Covered(arrived, k) {
      var p := chunks[k / WIFI_PACKET_SIZE];
      assert p in chunks && p in arrived && Covers(p, k);
    }
    WholeFrame(arrived, frame);
  }

  // ----- send.cpp

  const BUF_SIZE := 128

  /** Full slices followed by one shorter slice, which may be empty. */
  function Slices(file: seq<byte>): seq<seq<byte>> {
    if |file| < BUF_SIZE then [file] else [file[..BUF_SIZE]] + Slices(file[BUF_SIZE..])
  }

  /** The read/send loop: the end of file shows only on a read that comes up short. */
  method Replay(file: seq<byte>) returns (sent: seq<seq<byte>>)
    ensures sent == Slices(file)
  {
    hide Slices;
    sent := [];
    var at := 0;
    var eof := false;
    assert file[0..] == file;
    while !eof
      invariant 0 <= at <= |file|
      invariant Slices(file) == sent + if eof then [] else Slices(file[at..])
      decreases !eof, |file| - at
    {
      SlicesNext(file, at);
      ghost var before := sent;
      var gcount := if |file| - at < BUF_SIZE then |file| - at else BUF_SIZE;
      var buf := file[at..at + gcount];
      eof := gcount < BUF_SIZE;
      sent := sent + [buf];
      at := at + gcount;
      Assoc(before, [buf], if eof then [] else Slices(file[at..]));
    }
  }

  lemma SlicesNext(file: seq<byte>, at: nat)
    requires at <= |file|
    ensures if |file| - at < BUF_SIZE then Slices(file[at..]) == [file[at..|file|]] + []
            else Slices(file[at..]) == [file[at..at + BUF_SIZE]] + Slices(file[at + BUF_SIZE..])
  {
    if |file| - at < BUF_SIZE {
      assert file[at..|file|] == file[at..];
    } else {
      assert file[at..][..BUF_SIZE] == file[at..at + BUF_SIZE] && file[at..][BUF_SIZE..] == file[at + BUF_SIZE..];
    }
  }

  lemma FlattenOne(s: seq<byte>)
    ensures Flatten([s]) == s
  {
    FlattenSnoc([], s);
    assert [] + [s] == [s];
  }

  lemma {:induction false} SlicesWhole(file: seq<byte>)
    ensures Flatten(Slices(file)) == file
    ensures forall s | s in Slices(file) :: |s| <= BUF_SIZE && Received(s) == s
  {
    FlattenOne(file);
    if |file| >= BUF_SIZE {
      var head, tail := file[..BUF_SIZE], file[BUF_SIZE..];
      SlicesWhole(tail);
      FlattenOne(head);
      FlattenAppend([head], Slices(tail));
      assert head + tail == file;
    }
  }

  /** Every slice but the last has 128 bytes, and the last has fewer. */
  lemma {:induction false} SlicesFull(file: seq<byte>, i: nat)
    requires i < |Slices(file)|
    ensures |Slices(file)| == |file| / 128 + 1
    ensures if i < |Slices(file)| - 1 then |Slices(file)[i]| == 128 else |Slices(file)[i]| == |file| % 128
  {
    if |file| >= BUF_SIZE {
      SlicesFull(file[BUF_SIZE..], if i > 0 then i - 1 else 0);
    }
  }

  /** Replaying a file whose packets all have at least 128 bytes makes the listener
      accept exactly the packets that the offline examination finds in the file. */
  lemma {:induction false} ReplayMatchesExamine(file: seq<byte>)
    requires forall p | p in BatchParse(file).pkts :: BUF_SIZE <= |Encode(p)| <= 65535
    ensures Run(INITIAL, Slices(file)).Accepted() == BatchParse(file).pkts
  {
    SlicesWhole(file);
    NeverFallsBehind(Slices(file));
  }
}
