/** End to end: frames leave the camera as packets, the network reorders and repeats
    packets within a frame, and the base station reassembles what was sent. */
module Pipeline {
  import opened Bytes
  import opened Packets
  import opened Overlay
  import opened Examine
  import opened Client
  import opened Sender
  import opened UvcPayload
  import opened FrameSlot
  import opened HandOff
  import opened FrameIDs
  import Jpeg

  /** A buffer handed to the packetiser. */
  datatype SentFrame = SentFrame(id: byte, kind: byte, buf: seq<byte>) {
    ghost predicate Sendable() {
      2 * WIFI_PACKET_SIZE <= |buf| < 0x1_0000_0000
    }

    function Packets(): seq<Pkt>
      requires Sendable()
    {
      Chunks(buf, |buf| / WIFI_PACKET_SIZE - 1, id, kind)
    }

    function Prefix(): seq<byte>
      requires Sendable()
    {
      buf[..SentLength(|buf|)]
    }
  }

  function AllDatagrams(arrivals: seq<seq<Pkt>>): seq<seq<byte>> {
    if arrivals == [] then [] else AllDatagrams(arrivals[..|arrivals| - 1]) + Datagrams(arrivals[|arrivals| - 1])
  }

  lemma {:induction false} RunAppend(st: State, ws: seq<seq<byte>>, vs: seq<seq<byte>>)
    ensures Run(st, ws + vs) == Run(Run(st, ws), vs)
  {
    if vs == [] {
      assert ws + vs == ws;
    } else {
      var n := |vs| - 1;
      RunAppend(st, ws, vs[..n]);
      assert (ws + vs)[..|ws + vs| - 1] == ws + vs[..n];
    }
  }

  /** A packet that arrives alone in a datagram is accepted whole. */
  lemma {:induction false} PacketArrives(st: State, p: Pkt)
    requires st.data == [] && p.Valid() && p.length <= 65527
    ensures Receive(st, Encode(p)) == Keep(st, p)
  {
    assert st.data + Encode(p) == Encode(p);
    ParseExact(Encode(p), p);
    RawLengthExact(p);
    assert Rest(Encode(p)) == [];
  }

  ghost function Flushing(st: State): seq<seq<Pkt>> {
    if st.pkts == [] then st.flushed else st.flushed + [st.pkts]
  }

  lemma {:induction false} NextPacket(st: State, ps: seq<Pkt>, p: Pkt)
    requires Run(st, Datagrams(ps)).data == [] && p.Valid() && p.length <= 65527
    ensures Run(st, Datagrams(ps + [p])) == Keep(Run(st, Datagrams(ps)), p)
  {
    var ds := Datagrams(ps);
    assert (ps + [p])[..|ps|] == ps;
    assert Datagrams(ps + [p]) == ds + [Encode(p)];
    assert (ds + [Encode(p)])[..|ds|] == ds;
    PacketArrives(Run(st, ds), p);
  }

  /** The packets of one frame collect into one group, flushing the group before. */
  lemma {:induction false} FrameArrives(st: State, ps: seq<Pkt>, id: byte)
    requires st.data == [] && ps != []
    requires forall i | 0 <= i < |ps| :: ps[i].Valid() && ps[i].length <= 65527 && ps[i].id == id
    requires st.pkts != [] ==> st.pkts[0].id != id
    ensures Run(st, Datagrams(ps)) == State([], ps, Flushing(st))
  {
    var n := |ps| - 1;
    assert ps == ps[..n] + [ps[n]];
    if n == 0 {
      assert ps[..n] == [] && Datagrams([]) == [];
    } else {
      FrameArrives(st, ps[..n], id);
    }
    NextPacket(st, ps[..n], ps[n]);
  }

  /** What arrives for each frame is its packets, in any order, each at least once. */
  ghost predicate Delivered(frames: seq<SentFrame>, arrivals: seq<seq<Pkt>>) {
    && |frames| == |arrivals|
    && (forall i | 0 <= i < |frames| :: frames[i].Sendable())
    && (forall i | 0 <= i < |frames| :: SamePackets(arrivals[i], frames[i].Packets()))
    && (forall i | 0 <= i < |frames| - 1 :: frames[i].id != frames[i + 1].id)
  }

  lemma ArrivalShape(frame: SentFrame, ps: seq<Pkt>)
    requires frame.Sendable() && SamePackets(ps, frame.Packets())
    ensures ps != []
    ensures forall i | 0 <= i < |ps| ::
              && ps[i].Valid() && ps[i].length == WIFI_PACKET_SIZE && Fits(ps[i])
              && ps[i].id == frame.id && ps[i].kind == frame.kind
  {
    var chunks := frame.Packets();
    assert chunks[0] in chunks && chunks[0] in ps;
    forall i | 0 <= i < |ps|
      ensures ps[i].Valid() && ps[i].length == WIFI_PACKET_SIZE && Fits(ps[i])
      ensures ps[i].id == frame.id && ps[i].kind == frame.kind
    {
      assert ps[i] in ps && ps[i] in chunks;
      var k :| 0 <= k < |chunks| && chunks[k] == ps[i];
      assert WIFI_PACKET_SIZE * (k + 1) <= |frame.buf|;
    }
  }

  lemma {:induction false} NextFrameCollects(frames: seq<SentFrame>, arrivals: seq<seq<Pkt>>, n: nat, st: State)
    requires Delivered(frames, arrivals) && n < |frames| && st.data == []
    requires if n == 0 then st.pkts == [] else st.pkts == arrivals[n - 1]
    ensures Run(st, Datagrams(arrivals[n])) == State([], arrivals[n], Flushing(st))
  {
    ArrivalShape(frames[n], arrivals[n]);
    if n > 0 {
      ArrivalShape(frames[n - 1], arrivals[n - 1]);
      assert frames[n - 1].id != frames[n - 1 + 1].id;
    }
    FrameArrives(st, arrivals[n], frames[n].id);
  }

  /** The state once the first frames have arrived: one group each, the last still held. */
  ghost predicate Collected(st: State, arrivals: seq<seq<Pkt>>) {
    st.data == [] && Flushing(st) == arrivals && (st.pkts == [] <==> arrivals == [])
  }

  lemma {:induction false} ArrivalsCollect(frames: seq<SentFrame>, arrivals: seq<seq<Pkt>>)
    requires Delivered(frames, arrivals)
    ensures Collected(Run(INITIAL, AllDatagrams(arrivals)), arrivals)
  {
    if arrivals != [] {
      var n := |arrivals| - 1;
      var init := arrivals[..n];
      assert Collected(Run(INITIAL, AllDatagrams(init)), init) by {
        ArrivalsCollect(frames[..n], init);
      }
      assert arrivals == init + [arrivals[n]];
      NextArrival(frames, arrivals, Run(INITIAL, AllDatagrams(init)));
      RunAppend(INITIAL, AllDatagrams(init), Datagrams(arrivals[n]));
    }
  }

  lemma {:induction false} NextArrival(frames: seq<SentFrame>, arrivals: seq<seq<Pkt>>, st: State)
    requires Delivered(frames, arrivals) && arrivals != [] && Collected(st, arrivals[..|arrivals| - 1])
    ensures Collected(Run(st, Datagrams(arrivals[|arrivals| - 1])), arrivals)
  {
    hide Run;
    var n := |arrivals| - 1;
    var init := arrivals[..n];
    if n > 0 {
      assert st.pkts == Flushing(st)[n - 1] == init[n - 1];
    }
    NextFrameCollects(frames, arrivals, n, st);
    ArrivalShape(frames[n], arrivals[n]);
    assert arrivals == init + [arrivals[n]];
  }

  /** What the receive buffer leaves of each datagram. */
  function AsReceived(ds: seq<seq<byte>>): seq<seq<byte>> {
    seq(|ds|, i requires 0 <= i < |ds| => Received(ds[i]))
  }

  /** No datagram is cut short. */
  lemma {:induction false} DatagramsFit(frames: seq<SentFrame>, arrivals: seq<seq<Pkt>>)
    requires Delivered(frames, arrivals)
    ensures AsReceived(AllDatagrams(arrivals)) == AllDatagrams(arrivals)
  {
    if arrivals != [] {
      var n := |arrivals| - 1;
      DatagramsFit(frames[..n], arrivals[..n]);
      ArrivalShape(frames[n], arrivals[n]);
      PacketsFit(arrivals[n]);
      AsReceivedAppend(AllDatagrams(arrivals[..n]), Datagrams(arrivals[n]));
    }
  }

  lemma {:induction false} PacketsFit(ps: seq<Pkt>)
    requires forall i | 0 <= i < |ps| :: ps[i].Valid() && ps[i].length == WIFI_PACKET_SIZE
    ensures AsReceived(Datagrams(ps)) == Datagrams(ps)
  {
    if ps != [] {
      var n := |ps| - 1;
      PacketsFit(ps[..n]);
      AsReceivedAppend(Datagrams(ps[..n]), [Encode(ps[n])]);
      assert |Encode(ps[n])| <= RECV_BUF_SIZE;
    }
  }

  lemma AsReceivedAppend(ds: seq<seq<byte>>, es: seq<seq<byte>>)
    ensures AsReceived(ds + es) == AsReceived(ds) + AsReceived(es)
  {}

  /** The station's picture of a frame: made of the part that was sent. */
  function Shown(frame: SentFrame): Frame
    requires frame.Sendable()
  {
    assert |frame.Prefix()| > 0;
    FrameFrom(frame.kind, frame.Prefix())
  }

  /** The conversion of an uncompressed frame stays inside what was sent exactly for frames
      of at least 38688 bytes: a picture of the size it expects, 38400 bytes, is too short. */
  lemma {:induction false} ShownExactly(frame: SentFrame)
    requires frame.Sendable() && frame.kind == UNCOMP
    ensures Shown(frame) == Uncompressed(frame.Prefix()) <==> |frame.buf| >= 38688
    ensures Shown(frame) == Overread(frame.Prefix()) <==> |frame.buf| < 38688
  {
    SentLengthAt(|frame.buf|);
  }

  lemma SentLengthAt(size: nat)
    requires size >= WIFI_PACKET_SIZE
    ensures SentLength(size) >= PICTURE_BYTES <==> size >= 38688
  {
    var q := size / WIFI_PACKET_SIZE;
    assert 38688 == WIFI_PACKET_SIZE * 156;
  }

  lemma FrameShown(frame: SentFrame, ps: seq<Pkt>)
    requires frame.Sendable() && SamePackets(ps, frame.Packets())
    ensures ps != [] && AllValid(ps)
    ensures Overlaid(ps) == frame.Prefix() && FrameOf(ps) == Shown(frame)
  {
    ArrivalShape(frame, ps);
    forall p | p in ps ensures p.Valid() && Fits(p) {
      var i :| 0 <= i < |ps| && ps[i] == p;
    }
    SentFrameReassembles(frame.buf, frame.id, frame.kind, ps);
  }

  /** What the station makes of the packets that the packetiser sends for a buffer, whatever
      their order and repetition. A stream of format 4 is uncompressed: the sent part, which can
      be converted from 38688 bytes on. Of format 6 it is MJPEG: what the extraction takes from the
      sent part, by the markers in it. Of any other there is no frame. */
  lemma {:induction false} SentAsType(buf: seq<byte>, id: byte, streamFormat: int, ps: seq<Pkt>, s: int, e: int)
    requires 2 * WIFI_PACKET_SIZE <= |buf| < 0x1_0000_0000
    requires SamePackets(ps, Chunks(buf, |buf| / WIFI_PACKET_SIZE - 1, id, KindOf(streamFormat)))
    requires var raw := buf[..SentLength(|buf|)]; Jpeg.FirstAt(raw, 0xD8, s) && Jpeg.FirstAt(raw, 0xD9, e)
    ensures ps != [] && AllValid(ps)
    ensures var raw := buf[..SentLength(|buf|)];
            && (streamFormat == 4 && |buf| >= 38688 ==> FrameOf(ps) == Uncompressed(raw))
            && (streamFormat == 4 && |buf| < 38688 ==> FrameOf(ps) == Overread(raw))
            && (streamFormat == 6 && s < e < |raw| ==> FrameOf(ps) == Mjpeg(raw[s..e + 2]))
            && (streamFormat == 6 && s < e == |raw| ==> FrameOf(ps) == Mjpeg(raw[s..|raw| - 1]))
            && (streamFormat == 6 && e < s ==> FrameOf(ps) == Mjpeg([0xFF, 0xD9]))
            && (streamFormat == 6 && s == e ==> FrameOf(ps) == Mjpeg([]))
            && (streamFormat != 4 && streamFormat != 6 ==> FrameOf(ps) == NoFrame)
  {
    var frame := SentFrame(id, KindOf(streamFormat), buf);
    FrameShown(frame, ps);
    ArrivalShape(frame, ps);
    forall p | p in ps ensures p.offset + p.length < 0x1_0000_0000 {
      var i :| 0 <= i < |ps| && ps[i] == p;
    }
    SentLengthAt(|buf|);
    hide FrameOf, Overlaid, Jpeg.FirstAt, SentLength;
    FrameByType(ps, s, e);
  }

  /** So of a JPEG frame the station never gets the end: the packetiser leaves the EOI out, and
      the extraction then drops one byte more. */
  lemma {:induction false} SentJpegCut(buf: seq<byte>, id: byte, ps: seq<Pkt>)
    requires 2 * WIFI_PACKET_SIZE <= |buf| < 0x1_0000_0000 && Jpeg.IsFrame(buf)
    requires SamePackets(ps, Chunks(buf, |buf| / WIFI_PACKET_SIZE - 1, id, KindOf(6)))
    ensures ps != [] && AllValid(ps) && FrameOf(ps) == Mjpeg(buf[..SentLength(|buf|) - 1])
  {
    var n := SentLength(|buf|);
    var raw := buf[..n];
    TailLost(|buf|);
    Jpeg.CutFrameExtracted(buf, n);
    FrameShown(SentFrame(id, KindOf(6), buf), ps);
  }

  /** What the station has made of each frame's packets. */
  ghost predicate Restored(frame: SentFrame, ps: seq<Pkt>)
    requires frame.Sendable()
  {
    ps != [] && AllValid(ps) && Overlaid(ps) == frame.Prefix() && FrameOf(ps) == Shown(frame)
  }

  /** Frames of at least 496 bytes with differing consecutive IDs, one packet to a
      datagram, reordered and repeated only within their frame: the listener has flushed
      every frame but the last, in order, each as exactly the bytes that were sent, and
      still holds the last one's packets. */
  lemma {:induction false} EndToEnd(frames: seq<SentFrame>, arrivals: seq<seq<Pkt>>)
    requires Delivered(frames, arrivals) && frames != []
    ensures var st := Run(INITIAL, AsReceived(AllDatagrams(arrivals)));
            st.data == [] && st.pkts == arrivals[|frames| - 1] && st.flushed == arrivals[..|frames| - 1]
    ensures forall i | 0 <= i < |frames| :: Restored(frames[i], arrivals[i])
  {
    hide Run, Delivered, Restored;
    DatagramsFit(frames, arrivals);
    ArrivalsCollect(frames, arrivals);
    var st := Run(INITIAL, AllDatagrams(arrivals));
    DeliveredEach(frames, arrivals);
    assert arrivals == st.flushed + [st.pkts];
  }

  lemma DeliveredEach(frames: seq<SentFrame>, arrivals: seq<seq<Pkt>>)
    requires Delivered(frames, arrivals)
    ensures |frames| == |arrivals|
    ensures forall i | 0 <= i < |frames| :: frames[i].Sendable() && Restored(frames[i], arrivals[i])
  {
    forall i | 0 <= i < |frames| ensures Restored(frames[i], arrivals[i]) {
      FrameShown(frames[i], arrivals[i]);
    }
  }

  // ----- from the camera's packets on

  /** The consumer keeps pace: no frame starts while another is pending. */
  ghost predicate Prompt(acts: seq<Act>) {
    acts == [] ||
    var w, a := DoAll(START, acts[..|acts| - 1]), acts[|acts| - 1];
    && Prompt(acts[..|acts| - 1])
    && (a == Callback(Start) ==> !w.slot.pending)
  }

  ghost predicate Small(r: Reader) {
    !r.Bad? && forall f | f in FramesOf(r) :: |f| < USB_BUF_SIZE
  }

  lemma SmallBefore(r: Reader, e: Event)
    requires Small(r.Read(e))
    ensures Small(r)
  {
    forall f | f in FramesOf(r) ensures |f| < USB_BUF_SIZE {
      var k :| 0 <= k < |FramesOf(r)| && FramesOf(r)[k] == f;
      assert f <= FramesOf(r.Read(e))[k] && FramesOf(r.Read(e))[k] in FramesOf(r.Read(e));
    }
  }

  /** Every closed frame has been sent or is pending, whole and under its own number;
      the open frame is collected from its first byte. */
  ghost predicate Keeping(w: World) {
    && !w.seen.Bad?
    && |w.sent| == |w.seen.frames| - (if w.slot.pending then 1 else 0)
    && (forall i | 0 <= i < |w.sent| :: w.sent[i] == (IDAfter(i + 1), w.seen.frames[i]))
    && (w.seen.Open? ==> w.slot == Slot(w.seen.cur, false, IDAfter(|w.seen.frames| + 1)))
    && (w.seen.Idle? && !w.slot.pending ==> w.slot == Slot([], false, IDAfter(|w.seen.frames|)))
    && (w.slot.pending ==> w.slot == Slot(w.seen.frames[|w.sent|], true, IDAfter(|w.seen.frames|)))
    && (w.seen.Open? ==> (w.seen.pieces == 0 <==> w.seen.cur == []))
  }

  lemma DoKeepsPace(w: World, a: Act)
    requires Keeping(w) && Small(w.seen) && Small(Do(w, a).seen)
    requires a == Callback(Start) ==> !w.slot.pending
    ensures Keeping(Do(w, a))
  {
    var w' := Do(w, a);
    match a
    case ConsumeStep =>
    case Callback(Start) => IDAfterNext(|w.seen.frames|);
    case Callback(Header(_)) =>
    case Callback(Data(b)) =>
      assert FramesOf(w'.seen)[|w'.seen.frames|] == w.seen.cur + b;
      assert b[..|b|] == b;
    case Callback(End) =>
  }

  lemma {:induction false} PromptKeeps(acts: seq<Act>)
    requires Prompt(acts) && Small(DoAll(START, acts).seen)
    ensures Keeping(DoAll(START, acts))
  {
    if acts != [] {
      var w, a := DoAll(START, acts[..|acts| - 1]), acts[|acts| - 1];
      if a.Callback? {
        SmallBefore(w.seen, a.e);
      }
      PromptKeeps(acts[..|acts| - 1]);
      DoKeepsPace(w, a);
    }
  }

  /** At every moment of a run. */
  ghost predicate KeepingThroughout(acts: seq<Act>) {
    forall n | 0 <= n <= |acts| :: Keeping(DoAll(START, acts[..n]))
  }

  lemma ThroughoutNext(acts: seq<Act>)
    requires acts != []
    ensures KeepingThroughout(acts) <==> KeepingThroughout(acts[..|acts| - 1]) && Keeping(DoAll(START, acts))
  {
    hide Keeping, DoAll;
    var m := |acts| - 1;
    assert acts[..|acts|] == acts;
    forall n | 0 <= n <= m ensures acts[..m][..n] == acts[..n] {}
  }

  /** And only a consumer that keeps pace does so at every moment of the run. */
  lemma {:induction false} PromptExactly(acts: seq<Act>)
    requires Small(DoAll(START, acts).seen)
    ensures Prompt(acts) <==> KeepingThroughout(acts)
  {
    if acts != [] {
      var init, a := acts[..|acts| - 1], acts[|acts| - 1];
      if a.Callback? {
        SmallBefore(DoAll(START, init).seen, a.e);
      }
      PromptExactly(init);
      ThroughoutNext(acts);
      StartBreaks(DoAll(START, init));
      if Prompt(acts) {
        PromptKeeps(acts);
      }
      hide Keeping, Do, KeepingThroughout;
    }
  }

  lemma StartBreaks(w: World)
    ensures w.slot.pending ==> !Keeping(Do(w, Callback(Start)))
  {}

  /** A prompt consumer sends every closed frame of an uncompressed stream, whole, in
      order, and under IDs that count 1 to 255 and around. */
  lemma {:induction false} PromptConsumerSendsAll(frameSize: u32, packets: seq<seq<byte>>, acts: seq<Act>)
    requires 1 <= frameSize < USB_BUF_SIZE
    requires forall p | p in packets :: |p| < 0x1_0000_0000 && (p != [] ==> p[0] != 0)
    requires Callbacks(acts) == RunPackets(frameSize, packets).events && Prompt(acts)
    ensures var w := DoAll(START, acts);
            && Keeping(w) && (forall f | f in w.seen.frames :: |f| == frameSize)
            && w.seen == ReadAll(Idle([]), RunPackets(frameSize, packets).events)
  {
    PayloadFramed(frameSize, packets);
    SeenCallbacks(acts);
    PromptKeeps(acts);
  }

  /** The frames sent, as the packetiser of a stream of this format labels them. */
  function Labelled(sent: seq<(byte, seq<byte>)>, streamFormat: int): seq<SentFrame> {
    seq(|sent|, i requires 0 <= i < |sent| => SentFrame(sent[i].0, KindOf(streamFormat), sent[i].1))
  }

  ghost predicate Carried(frames: seq<SentFrame>, arrivals: seq<seq<Pkt>>) {
    && |frames| == |arrivals|
    && forall i | 0 <= i < |frames| && frames[i].Sendable() :: SamePackets(arrivals[i], frames[i].Packets())
  }

  lemma LabelledDelivered(w: World, frameSize: u32, streamFormat: int, arrivals: seq<seq<Pkt>>)
    requires Keeping(w) && forall f | f in w.seen.frames :: |f| == frameSize
    requires 2 * WIFI_PACKET_SIZE <= frameSize && Carried(Labelled(w.sent, streamFormat), arrivals)
    ensures Delivered(Labelled(w.sent, streamFormat), arrivals) && |w.sent| <= |w.seen.frames|
    ensures forall i | 0 <= i < |w.sent| ::
              && Labelled(w.sent, streamFormat)[i] == SentFrame(IDAfter(i + 1), KindOf(streamFormat), w.seen.frames[i])
              && |w.seen.frames[i]| == frameSize
  {
    hide KindOf;
    var frames := Labelled(w.sent, streamFormat);
    forall i | 0 <= i < |frames|
      ensures frames[i] == SentFrame(IDAfter(i + 1), KindOf(streamFormat), w.seen.frames[i])
      ensures |w.seen.frames[i]| == frameSize && IDAfter(i + 2) != IDAfter(i + 1)
    {
      assert w.seen.frames[i] in w.seen.frames;
      IDAfterNext(i + 1);
    }
  }

  /** The whole chain, from the camera's USB packets to the base station: with a prompt
      consumer and frames between 496 bytes and 128 KiB, whatever order and repetition the
      network makes of each frame's packets, the station has flushed every frame sent but the
      last, in order, each up to the bytes the packetiser leaves out; the conversion to a
      picture reads past their end for frames below 38688 bytes. */
  lemma {:induction false} CameraToStation(frameSize: u32, packets: seq<seq<byte>>, acts: seq<Act>, w: World,
                                           arrivals: seq<seq<Pkt>>)
    requires 2 * WIFI_PACKET_SIZE <= frameSize < USB_BUF_SIZE
    requires forall p | p in packets :: |p| < 0x1_0000_0000 && (p != [] ==> p[0] != 0)
    requires Callbacks(acts) == RunPackets(frameSize, packets).events && Prompt(acts)
    requires w == DoAll(START, acts) && w.sent != [] && Carried(Labelled(w.sent, 4), arrivals)
    ensures !w.seen.Bad? && |arrivals| <= |w.seen.frames|
    ensures Run(INITIAL, AsReceived(AllDatagrams(arrivals))).flushed == arrivals[..|arrivals| - 1]
    ensures forall i | 0 <= i < |arrivals| ::
              && arrivals[i] != [] && AllValid(arrivals[i]) && |w.seen.frames[i]| == frameSize
              && FrameOf(arrivals[i]) == Picture(w.seen.frames[i], frameSize)
  {
    hide DoAll, Run, RunPackets, Prompt, KindOf, Keeping, Delivered, AsReceived, AllDatagrams;
    PromptConsumerSendsAll(frameSize, packets, acts);
    LabelledDelivered(w, frameSize, 4, arrivals);
    EndToEnd(Labelled(w.sent, 4), arrivals);
    forall i | 0 <= i < |arrivals|
      ensures arrivals[i] != [] && AllValid(arrivals[i]) && |w.seen.frames[i]| == frameSize
      ensures FrameOf(arrivals[i]) == Picture(w.seen.frames[i], frameSize)
    {
      Pictured(w.seen.frames[i], Labelled(w.sent, 4)[i], arrivals[i]);
    }
  }

  /** The picture of an uncompressed frame: below 38688 bytes it cannot be converted. */
  function Picture(frame: seq<byte>, size: nat): Frame
    requires WIFI_PACKET_SIZE <= size == |frame|
  {
    var raw := frame[..SentLength(size)];
    if size >= 38688 then Uncompressed(raw) else Overread(raw)
  }

  lemma Pictured(buf: seq<byte>, frame: SentFrame, ps: seq<Pkt>)
    requires frame.Sendable() && frame.buf == buf && frame.kind == KindOf(4) && Restored(frame, ps)
    ensures ps != [] && AllValid(ps) && FrameOf(ps) == Picture(buf, |buf|)
  {
    ShownExactly(frame);
  }

  // ----- a consumer that does not keep pace

  /** The packets give the sent part of a buffer back. */
  ghost predicate LaidOut(b: seq<byte>, ps: seq<Pkt>) {
    2 * WIFI_PACKET_SIZE <= |b| && Overlaid(ps) == b[..SentLength(|b|)]
  }

  /** For any placement of consume steps, as long as the buffers sent have at least 496 bytes
      and no two in a row carry one ID: each group the station flushes is laid out as the sent
      part of one contiguous stretch of one frame, and the stretches follow each other in the
      camera's order. */
  lemma {:induction false} StretchesToStation(frameSize: u32, packets: seq<seq<byte>>, acts: seq<Act>, w: World,
                                              streamFormat: int, arrivals: seq<seq<Pkt>>)
    requires 1 <= frameSize <= 0x1_0000_0000 - 0x100
    requires forall p | p in packets :: |p| < 0x1_0000_0000 && (p != [] ==> p[0] != 0)
    requires Callbacks(acts) == RunPackets(frameSize, packets).events
    requires w == DoAll(START, acts) && w.sent != [] && Carried(Labelled(w.sent, streamFormat), arrivals)
    requires forall i | 0 <= i < |w.sent| :: 2 * WIFI_PACKET_SIZE <= |w.sent[i].1|
    requires forall i | 0 <= i < |w.sent| - 1 :: w.sent[i].0 != w.sent[i + 1].0
    ensures |arrivals| == |w.sent| == |w.places|
    ensures Run(INITIAL, AsReceived(AllDatagrams(arrivals))).flushed == arrivals[..|arrivals| - 1]
    ensures forall i | 0 <= i < |arrivals| ::
              && LaidOut(w.sent[i].1, arrivals[i])
              && PieceAt(w.sent[i].1, FramesOf(w.seen), w.places[i])
    ensures forall i, j | 0 <= i < j < |arrivals| :: Before(w.places[i], |w.sent[i].1|, w.places[j])
  {
    CameraNeverMixesFrames(frameSize, packets, acts);
    CameraOrderly(frameSize, packets, acts);
    hide DoAll, Run, RunPackets, Orderly, LaidOut;
    StretchesDelivered(w, streamFormat, arrivals);
    StretchesArrive(w, streamFormat, arrivals);
  }

  lemma CameraOrderly(frameSize: u32, packets: seq<seq<byte>>, acts: seq<Act>)
    requires 1 <= frameSize <= 0x1_0000_0000 - 0x100
    requires forall p | p in packets :: |p| < 0x1_0000_0000 && (p != [] ==> p[0] != 0)
    requires Callbacks(acts) == RunPackets(frameSize, packets).events
    ensures Orderly(DoAll(START, acts))
  {
    PayloadFramed(frameSize, packets);
    HandOffAlways(acts);
  }

  lemma StretchesArrive(w: World, streamFormat: int, arrivals: seq<seq<Pkt>>)
    requires Delivered(Labelled(w.sent, streamFormat), arrivals) && w.sent != []
    ensures |arrivals| == |w.sent| && forall i | 0 <= i < |w.sent| :: LaidOut(w.sent[i].1, arrivals[i])
    ensures Run(INITIAL, AsReceived(AllDatagrams(arrivals))).flushed == arrivals[..|arrivals| - 1]
  {
    hide Run, Delivered, Restored, LaidOut, KindOf, AsReceived, AllDatagrams;
    var frames := Labelled(w.sent, streamFormat);
    EndToEnd(frames, arrivals);
    DeliveredEach(frames, arrivals);
    forall i | 0 <= i < |w.sent| ensures LaidOut(w.sent[i].1, arrivals[i]) {
      Laid(w.sent[i].1, frames[i], arrivals[i]);
    }
  }

  lemma Laid(b: seq<byte>, frame: SentFrame, ps: seq<Pkt>)
    requires frame.Sendable() && frame.buf == b && Restored(frame, ps)
    ensures LaidOut(b, ps)
  {}

  lemma StretchesDelivered(w: World, streamFormat: int, arrivals: seq<seq<Pkt>>)
    requires Orderly(w) && Carried(Labelled(w.sent, streamFormat), arrivals)
    requires forall i | 0 <= i < |w.sent| :: 2 * WIFI_PACKET_SIZE <= |w.sent[i].1|
    requires forall i | 0 <= i < |w.sent| - 1 :: w.sent[i].0 != w.sent[i + 1].0
    ensures Delivered(Labelled(w.sent, streamFormat), arrivals)
  {
    forall i | 0 <= i < |w.sent| ensures Labelled(w.sent, streamFormat)[i].Sendable() {
      assert Stretch(w.sent[i].1, w.seen, w.places[i], w.cuts);
    }
  }

  /** For any placement of consume steps: a buffer sent makes the send loop run off its end
      exactly when it begins less than 248 bytes before the end of its frame; it begins with
      its frame, or where a consume step took another buffer inside it. */
  lemma {:induction false} SenderFaultsExactly(frameSize: u32, packets: seq<seq<byte>>, acts: seq<Act>, i: nat)
    requires 1 <= frameSize <= 0x1_0000_0000 - 0x100
    requires forall p | p in packets :: |p| < 0x1_0000_0000 && (p != [] ==> p[0] != 0)
    requires Callbacks(acts) == RunPackets(frameSize, packets).events && i < |DoAll(START, acts).sent|
    ensures var w := DoAll(START, acts);
            && i < |w.places| && Begins(w.places[i], w.cuts)
            && (RunsOff(|w.sent[i].1|) <==> frameSize - w.places[i].at < WIFI_PACKET_SIZE)
  {
    hide DoAll, RunPackets;
    PayloadFramed(frameSize, packets);
    SeenCallbacks(acts);
    HandOffAlways(acts);
    var w := DoAll(START, acts);
    assert Stretch(w.sent[i].1, w.seen, w.places[i], w.cuts);
    StretchSize(frameSize, RunPackets(frameSize, packets).d, w.sent[i].1, w.seen, w.places[i], w.cuts);
  }

  lemma StretchSize(frameSize: u32, d: Statics, b: seq<byte>, r: Reader, p: Place, cuts: seq<Place>)
    requires Matches(frameSize, d, r) && Stretch(b, r, p, cuts)
    ensures p.at + |b| <= frameSize && (|b| == USB_BUF_SIZE || p.at + |b| == frameSize)
  {
    if p.frame < |r.frames| {
      assert r.frames[p.frame] in r.frames && FramesOf(r)[p.frame] == r.frames[p.frame];
    }
  }

  /** So a frame of at least 248 bytes never does it while no consume step takes a buffer
      inside its bytes; */
  lemma {:induction false} UncutNeverRunsOff(frameSize: u32, packets: seq<seq<byte>>, acts: seq<Act>, i: nat)
    requires WIFI_PACKET_SIZE <= frameSize <= 0x1_0000_0000 - 0x100
    requires forall p | p in packets :: |p| < 0x1_0000_0000 && (p != [] ==> p[0] != 0)
    requires Callbacks(acts) == RunPackets(frameSize, packets).events && i < |DoAll(START, acts).sent|
    requires var w := DoAll(START, acts); i < |w.places| && !CutInside(w, w.places[i].frame)
    ensures !RunsOff(|DoAll(START, acts).sent[i].1|)
  {
    UncutSizes(frameSize, packets, acts, i);
  }

  /** and a frame of any size does it once a consume step takes the buffer before it less than
      248 bytes before its end. */
  lemma {:induction false} TornFrameRunsOff(f: seq<byte>, a: seq<byte>, b: seq<byte>)
    returns (packets: seq<seq<byte>>, acts: seq<Act>)
    requires 0 < |a| && 0 < |b| < WIFI_PACKET_SIZE && |f| == |a| + |b| < USB_BUF_SIZE && b[0] != 0
    ensures forall p | p in packets :: 0 < |p| < 0x1_0000_0000 && p[0] != 0
    ensures Callbacks(acts) == RunPackets(|f|, packets).events
    ensures var w := DoAll(START, acts); |w.sent| == 2 && RunsOff(|w.sent[1].1|)
  {
    packets, acts := TornFrame(f, a, b);
  }
}
