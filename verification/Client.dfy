/** The base station's listener (BaseStation/client.cpp and client-tcp.cpp): received
    bytes accumulate, each wake-up parses at most one packet, and the packets held are
    reassembled when the frame ID changes. */
module Client {
  import opened Bytes
  import opened Packets
  import opened Overlay
  import opened Examine
  import Jpeg

  const RECV_BUF_SIZE := 1024

  // A picture of 160 by 120 pixels in two bytes each: what the conversion of an uncompressed
  // frame reads, however long the buffer is.
  const PICTURE_BYTES := 160 * 120 * 2

  /** What assembleFrame produces, before any image decoding. */
  datatype Frame =
    | OutOfBounds                        // a write past the end of the buffer
    | Overread(raw: seq<byte>)           // a read past the end of the buffer, by the conversion
    | Uncompressed(raw: seq<byte>)
    | Mjpeg(image: seq<byte>)
    | NoFrame                            // any other packet type

  /** The frame made of a reassembled buffer. */
  function FrameFrom(kind: byte, raw: seq<byte>): Frame
    requires raw != []
  {
    if kind == UNCOMP then (if |raw| < PICTURE_BYTES then Overread(raw) else Uncompressed(raw))
    else if kind == MJPEG then Mjpeg(Jpeg.Extracted(raw))
    else NoFrame
  }

  function FrameOf(pkts: seq<Pkt>): Frame
    requires pkts != [] && AllValid(pkts)
  {
    if exists p | p in pkts :: !Fits(p) then OutOfBounds
    else
      assert Overlaid(pkts) != [] by { OverlayNonempty(pkts); }
      FrameFrom(pkts[0].kind, Overlaid(pkts))
  }

  /** A packet carries at least one byte, so the reassembled buffer is never empty. */
  lemma OverlayNonempty(pkts: seq<Pkt>)
    requires pkts != [] && AllValid(pkts)
    ensures Overlaid(pkts) != []
  {
    OverlayLength(pkts);
    assert pkts[0] in pkts;
  }

  /** What is made of a frame's packets, by the type of the first: 4 is an uncompressed frame, 2 a
      JPEG image, of which the extraction is given by the positions of the markers. */
  lemma {:induction false} FrameByType(pkts: seq<Pkt>, s: int, e: int)
    requires pkts != [] && AllValid(pkts) && forall p | p in pkts :: p.offset + p.length < 0x1_0000_0000
    requires Jpeg.FirstAt(Overlaid(pkts), 0xD8, s) && Jpeg.FirstAt(Overlaid(pkts), 0xD9, e)
    ensures var raw, kind := Overlaid(pkts), pkts[0].kind;
            && (kind == 4 && |raw| >= 38400 ==> FrameOf(pkts) == Uncompressed(raw))
            && (kind == 4 && |raw| < 38400 ==> FrameOf(pkts) == Overread(raw))
            && (kind == 2 && s < e < |raw| ==> FrameOf(pkts) == Mjpeg(raw[s..e + 2]))
            && (kind == 2 && s < e == |raw| ==> FrameOf(pkts) == Mjpeg(raw[s..|raw| - 1]))
            && (kind == 2 && e < s ==> FrameOf(pkts) == Mjpeg([0xFF, 0xD9]))
            && (kind == 2 && s == e ==> FrameOf(pkts) == Mjpeg([]))
            && (kind != 4 && kind != 2 ==> FrameOf(pkts) == NoFrame)
  {
    OverlayNonempty(pkts);
    assert forall p | p in pkts :: Fits(p);
    Jpeg.ExtractedByPositions(Overlaid(pkts), s, e);
    hide Overlaid, Jpeg.FirstAt, Jpeg.Extracted;
  }

  method AssembleFrame(pkts: seq<Pkt>) returns (frame: Frame)
    requires pkts != [] && AllValid(pkts)
    ensures frame == FrameOf(pkts)
  {
    var raw := Reassemble(pkts);
    if raw.None? {
      return OutOfBounds;
    }
    OverlayNonempty(pkts);
    var mjpeg: seq<byte> := [];
    if pkts[0].kind == MJPEG {
      mjpeg := Jpeg.Extract(raw.value);
    }
    if pkts[0].kind == UNCOMP {
      frame := if |raw.value| < PICTURE_BYTES then Overread(raw.value) else Uncompressed(raw.value);
    } else if pkts[0].kind == MJPEG {
      frame := Mjpeg(mjpeg);
    } else {
      frame := NoFrame;
    }
  }

  /** The listener's vectors, and the groups it has handed to assembleFrame. */
  datatype State = State(data: seq<byte>, pkts: seq<Pkt>, flushed: seq<seq<Pkt>>) {
    /** Every packet accepted so far, in order. */
    function Accepted(): seq<Pkt> {
      Flatten(flushed) + pkts
    }

    /** The flushed groups and the one being collected. */
    function Groups(): seq<seq<Pkt>> {
      flushed + (if pkts == [] then [] else [pkts])
    }
  }

  const INITIAL := State([], [], [])

  function Keep(st: State, p: Pkt): State {
    if st.pkts != [] && p.id != st.pkts[0].id then State(st.data, [p], st.flushed + [st.pkts])
    else st.(pkts := st.pkts + [p])
  }

  /** One wake-up: append the bytes received, then parse at most one packet. */
  function Receive(st: State, bytes: seq<byte>): State {
    var data := st.data + bytes;
    match ParsePacket(data)
    case Err(_) => st.(data := data)
    case Ok(p) => Keep(st, p).(data := Rest(data))
  }

  function Run(st: State, wakes: seq<seq<byte>>): State {
    if wakes == [] then st else Receive(Run(st, wakes[..|wakes| - 1]), wakes[|wakes| - 1])
  }

  /** A datagram longer than the receive buffer loses its end. */
  function Received(datagram: seq<byte>): seq<byte> {
    if |datagram| > RECV_BUF_SIZE then datagram[..RECV_BUF_SIZE] else datagram
  }

  lemma {:induction false} ReceiveSplit(st: State, bytes: seq<byte>)
    ensures Receive(st.(data := st.data + bytes), []) == Receive(st, bytes)
  {
    assert st.data + bytes + [] == st.data + bytes;
  }

  lemma FlattenNone()
    ensures Flatten<byte>([]) == []
  {}

  class Listener {
    var data: seq<byte>
    var pkts: seq<Pkt>
    var frames: seq<Frame>
    ghost var flushed: seq<seq<Pkt>>

    ghost predicate Valid()
      reads this
    {
      && AllValid(pkts)
      && (forall i | 0 <= i < |flushed| :: flushed[i] != [] && AllValid(flushed[i]))
      && |frames| == |flushed|
      && forall i | 0 <= i < |frames| :: frames[i] == FrameOf(flushed[i])
    }

    ghost function View(): State
      reads this
    {
      State(data, pkts, flushed)
    }

    constructor ()
      ensures Valid() && View() == INITIAL
    {
      data, pkts, frames, flushed := [], [], [], [];
    }

    /** The body of the UDP loop after recvfrom. */
    method OnDatagram(datagram: seq<byte>)
      requires Valid()
      modifies this
      ensures Valid() && View() == Receive(old(View()), Received(datagram))
    {
      hide Receive, FrameOf;
      var buf := Received(datagram);
      ReceiveSplit(View(), buf);
      Append(buf);
      ParseOne();
    }

    /** The body of the TCP loop: read until the socket would block, then parse once. */
    method OnWakeup(chunks: seq<seq<byte>>)
      requires Valid()
      modifies this
      ensures Valid() && View() == Receive(old(View()), Flatten(chunks))
    {
      hide Receive, FrameOf, Flatten;
      ReceiveSplit(View(), Flatten(chunks));
      FlattenNone();
      var n := 0;
      while n < |chunks|
        invariant 0 <= n <= |chunks| && Valid() && unchanged(`pkts, `frames, `flushed)
        invariant data == old(data) + Flatten(chunks[..n])
      {
        Append(chunks[n]);
        assert chunks[..n + 1] == chunks[..n] + [chunks[n]];
        FlattenSnoc(chunks[..n], chunks[n]);
        n := n + 1;
      }
      assert chunks[..|chunks|] == chunks;
      ParseOne();
    }

    method Append(buf: seq<byte>)
      requires Valid()
      modifies this`data
      ensures Valid() && data == old(data) + buf
    {
      var i := 0;
      while i < |buf|
        invariant 0 <= i <= |buf| && data == old(data) + buf[..i]
      {
        data := data + [buf[i]];
        i := i + 1;
      }
    }

    /** The try block: parse, flush on a new ID, keep, drop the packet's bytes. */
    method ParseOne()
      requires Valid()
      modifies this
      ensures Valid()
      ensures View() == Receive(old(View()), [])
    {
      assert data + [] == data;
      var pkt := new Packet();
      var r := pkt.Parse(data);
      if r.Err? {
        return;
      }
      var p := pkt.Value();
      ParseExact(data, p);
      KeepPacket(p);
      if p.RawLength() < |data| {
        data := data[p.RawLength()..];
      } else {
        data := [];
      }
    }

    /** The middle of the try block: flush the held packets on a new ID, then keep this one. */
    method KeepPacket(p: Pkt)
      requires Valid() && p.Valid()
      modifies this`pkts, this`frames, this`flushed
      ensures Valid() && View() == Keep(old(View()), p)
    {
      if |pkts| > 0 && p.id != pkts[0].id {
        var tmp := AssembleFrame(pkts);
        frames := frames + [tmp];
        flushed := flushed + [pkts];
        pkts := [];
      }
      pkts := pkts + [p];
    }
  }

  // ----- streaming refines the offline parse

  lemma KeepAccepts(st: State, p: Pkt)
    ensures Keep(st, p).Accepted() == st.Accepted() + [p]
  {
    if st.pkts != [] && p.id != st.pkts[0].id {
      FlattenSnoc(st.flushed, st.pkts);
    }
  }

  /** However a stream is cut into wake-ups, the packets accepted so far are exactly
      what as many rounds of the offline loop read from all the bytes received, and
      the bytes held are what those rounds leave. */
  lemma {:induction false} StreamingRefinesBatch(wakes: seq<seq<byte>>)
    ensures var st := Run(INITIAL, wakes); Iterates(Flatten(wakes), st.Accepted(), st.data)
  {
    if wakes != [] {
      var n := |wakes| - 1;
      var st := Run(INITIAL, wakes[..n]);
      StreamingRefinesBatch(wakes[..n]);
      IteratesGrow(Flatten(wakes[..n]), st.Accepted(), st.data, wakes[n]);
      var data := st.data + wakes[n];
      if ParsePacket(data).Ok? {
        IteratesSnoc(Flatten(wakes), st.Accepted(), data);
        KeepAccepts(st, ParsePacket(data).value);
      }
    }
  }

  /** No byte is lost or invented: what was received is what the accepted packets took,
      followed by what is held; and the packets' own encodings when none exceeds 65527. */
  lemma {:induction false} BytesConserved(wakes: seq<seq<byte>>)
    ensures var st := Run(INITIAL, wakes);
            && AllValid(st.Accepted())
            && Flatten(wakes) == Consumed(st.Accepted()) + st.data
            && ((forall p | p in st.Accepted() :: p.length <= 65527) ==>
                  Flatten(wakes) == EncodeAll(st.Accepted()) + st.data)
  {
    var st := Run(INITIAL, wakes);
    StreamingRefinesBatch(wakes);
    IteratesConserve(Flatten(wakes), st.Accepted(), st.data);
    if forall p | p in st.Accepted() :: p.length <= 65527 {
      ConsumedWhole(st.Accepted());
    }
  }

  /** The listener's packets are a prefix of the offline parse, and the bytes it holds
      still contain the rest of it. */
  lemma {:induction false} AcceptedPrefix(wakes: seq<seq<byte>>)
    requires !BatchParse(Flatten(wakes)).spins
    ensures var st := Run(INITIAL, wakes);
            && !BatchParse(st.data).spins
            && BatchParse(Flatten(wakes)).pkts == st.Accepted() + BatchParse(st.data).pkts
  {
    var st := Run(INITIAL, wakes);
    StreamingRefinesBatch(wakes);
    IteratesBatch(Flatten(wakes), st.Accepted(), st.data);
  }

  // ----- the receive buffer

  /** A packet that comes alone in a datagram is accepted whole exactly when the datagram has at
      most 1024 bytes; of a longer one the first 1024 bytes are held, waiting for the rest. */
  lemma {:induction false} ReceivedExactly(p: Pkt)
    requires p.Valid() && p.length <= 65527
    ensures var st := Receive(INITIAL, Received(Encode(p)));
            if |Encode(p)| <= 1024 then st == State([], [p], []) else st == State(Encode(p)[..1024], [], [])
  {
    var e := Encode(p);
    var buf := Received(e);
    assert INITIAL.data + buf == buf;
    ParseExact(buf, p);
    RawLengthExact(p);
    assert [] + [p] == [p];
    if |e| <= 1024 {
      assert Rest(e) == [];
    } else {
      WireLayout(p);
      assert buf[0] == e[0] && buf[1] == e[1];
    }
  }

  // ----- stopping for ever

  /** The listener accepts nothing any more, whatever is received, exactly when the bytes it
      holds begin with a length of 0. */
  lemma {:induction false} StopsExactly(st: State)
    ensures (forall wakes :: Run(st, wakes).Accepted() == st.Accepted()) <==>
            |st.data| >= 2 && st.data[0] == 0 && st.data[1] == 0
  {
    StuckExactly(st.data);
    if |st.data| >= 2 && st.data[0] == 0 && st.data[1] == 0 {
      forall wakes ensures Run(st, wakes).Accepted() == st.Accepted() {
        StaysStopped(st, wakes);
      }
    } else {
      var more :| ParsePacket(st.data + more).Ok?;
      OneWake(st, more);
      KeepAccepts(st, ParsePacket(st.data + more).value);
      assert |Run(st, [more]).Accepted()| == |st.Accepted()| + 1;
    }
  }

  lemma OneWake(st: State, w: seq<byte>)
    ensures Run(st, [w]) == Receive(st, w)
  {
    assert Run(st, [w][..0]) == st;
  }

  lemma {:induction false} StaysStopped(st: State, wakes: seq<seq<byte>>)
    requires |st.data| >= 2 && st.data[0] == 0 && st.data[1] == 0
    ensures Run(st, wakes) == st.(data := st.data + Flatten(wakes))
  {
    if wakes == [] {
      assert st.data + [] == st.data;
    } else {
      var n := |wakes| - 1;
      StaysStopped(st, wakes[..n]);
      Assoc(st.data, Flatten(wakes[..n]), wakes[n]);
      StuckExactly(st.data);
    }
  }

  // ----- keeping up

  /** Packets received in full but not yet accepted. */
  function Backlog(st: State): nat {
    |BatchParse(st.data).pkts|
  }

  /** One wake-up accepts one packet if a complete one is held: the backlog follows the
      packets completed by the new bytes, less one. So the listener is up to date after
      a wake-up exactly when at most one packet was waiting. */
  lemma BacklogLaw(st: State, bytes: seq<byte>)
    requires !BatchParse(st.data + bytes).spins
    ensures var waiting := |BatchParse(st.data + bytes).pkts|;
            && Backlog(Receive(st, bytes)) == Max(0, waiting - 1)
            && |Receive(st, bytes).Accepted()| == |st.Accepted()| + (if waiting == 0 then 0 else 1)
  {
    var data := st.data + bytes;
    if ParsePacket(data).Ok? {
      var p := ParsePacket(data).value;
      KeepAccepts(st, p);
      assert Keep(st, p).(data := Rest(data)).Accepted() == Keep(st, p).Accepted();
      assert BatchParse(data).pkts == [p] + BatchParse(Rest(data)).pkts;
    }
  }

  /** Each packet that the stream holds is at least as long as the bytes. */
  ghost predicate NoLongerThanPackets(bytes: seq<byte>, stream: seq<byte>) {
    forall p | p in BatchParse(stream).pkts :: |bytes| <= |Encode(p)| <= 65535
  }

  lemma {:induction false} BatchGrows(buf: seq<byte>, more: seq<byte>)
    requires !BatchParse(buf + more).spins
    ensures !BatchParse(buf).spins
    ensures BatchParse(buf).pkts <= BatchParse(buf + more).pkts
    decreases |buf|
  {
    if ParsePacket(buf).Ok? {
      var p := ParsePacket(buf).value;
      RestStable(buf, more);
      if p.RawLength() > 0 {
        BatchGrows(Rest(buf), more);
      }
    }
  }

  lemma ShortPacketsDoNotSpin(stream: seq<byte>)
    requires forall p | p in BatchParse(stream).pkts :: |Encode(p)| <= 65535
    ensures !BatchParse(stream).spins
  {
    SpinsOnLong(stream);
    forall p | p in BatchParse(stream).pkts ensures p.length != 65528 {
      assert p.Valid();
    }
  }

  /** A packet completed by new bytes is longer than the bytes held before. */
  lemma CompletedByNew(data: seq<byte>, w: seq<byte>, p: Pkt)
    requires ParsePacket(data).Err? && ParsePacket(data + w) == Ok(p)
    ensures |data| < |Encode(p)| <= |data| + |w|
  {
    ParseExact(data + w, p);
    ParseExact(data, p);
    assert !(Encode(p) <= data);
  }

  /** Bytes no longer than a packet cannot complete two at once. */
  lemma {:induction false} AtMostOne(data: seq<byte>, w: seq<byte>, p: Pkt, q: Pkt)
    requires ParsePacket(data).Err? && ParsePacket(data + w) == Ok(p)
    requires |Encode(p)| <= 65535 && |w| <= |Encode(q)|
    ensures ParsePacket(Rest(data + w)) != Ok(q)
  {
    CompletedByNew(data, w, p);
    ParseExact(data + w, p);
    RawLengthExact(p);
    ParseExact(Rest(data + w), q);
    assert |Rest(data + w)| < |w|;
  }

  /** If no wake-up brings more bytes than the smallest packet of the stream, then the
      listener never falls behind: it has always accepted exactly the packets that an
      offline parse finds in the bytes received so far. */
  lemma {:induction false} NeverFallsBehind(wakes: seq<seq<byte>>)
    requires forall w | w in wakes :: NoLongerThanPackets(w, Flatten(wakes))
    ensures var st := Run(INITIAL, wakes);
            st.Accepted() == BatchParse(Flatten(wakes)).pkts && ParsePacket(st.data).Err?
  {
    if wakes != [] {
      var n := |wakes| - 1;
      var before, all := Flatten(wakes[..n]), Flatten(wakes);
      assert wakes[n] in wakes;
      ShortPacketsDoNotSpin(all);
      BatchGrows(before, wakes[n]);
      forall w | w in wakes[..n] ensures NoLongerThanPackets(w, before) {
        assert w in wakes;
      }
      NeverFallsBehind(wakes[..n]);
      var st, after := Run(INITIAL, wakes[..n]), Run(INITIAL, wakes);
      AcceptedPrefix(wakes);
      if ParsePacket(st.data + wakes[n]).Ok? && ParsePacket(after.data).Ok? {
        var p, q := ParsePacket(st.data + wakes[n]).value, ParsePacket(after.data).value;
        KeepAccepts(st, p);
        assert p in after.Accepted() && q in BatchParse(after.data).pkts;
        AtMostOne(st.data, wakes[n], p, q);
      }
    }
  }

  /** How many packets the offline parse finds in what the wake-ups bring. */
  function Found(wakes: seq<seq<byte>>): nat {
    |BatchParse(Flatten(wakes)).pkts|
  }

  /** After no wake-up is a complete packet left waiting. */
  ghost predicate UpToDate(wakes: seq<seq<byte>>) {
    forall n | 0 <= n <= |wakes| :: Backlog(Run(INITIAL, wakes[..n])) == 0
  }

  /** No wake-up completes more than one packet of the stream. */
  ghost predicate OneByOne(wakes: seq<seq<byte>>) {
    forall n | 0 <= n < |wakes| :: Found(wakes[..n + 1]) <= Found(wakes[..n]) + 1
  }

  lemma UpToDateNext(wakes: seq<seq<byte>>)
    requires wakes != []
    ensures UpToDate(wakes) <==> UpToDate(wakes[..|wakes| - 1]) && Backlog(Run(INITIAL, wakes)) == 0
  {
    hide Backlog, Run;
    var m := |wakes| - 1;
    assert wakes[..|wakes|] == wakes;
    forall n | 0 <= n <= m ensures wakes[..m][..n] == wakes[..n] {}
  }

  lemma OneByOneNext(wakes: seq<seq<byte>>)
    requires wakes != []
    ensures var init := wakes[..|wakes| - 1]; OneByOne(wakes) <==> OneByOne(init) && Found(wakes) <= Found(init) + 1
  {
    hide Found;
    var m := |wakes| - 1;
    assert wakes[..m + 1] == wakes;
    forall n | 0 <= n <= m ensures wakes[..m][..n] == wakes[..n] {}
    assert OneByOne(wakes) ==> forall n | 0 <= n < m :: Found(wakes[..m][..n + 1]) <= Found(wakes[..m][..n]) + 1;
    if OneByOne(wakes[..m]) && Found(wakes) <= Found(wakes[..m]) + 1 {
      forall n | 0 <= n < |wakes| ensures Found(wakes[..n + 1]) <= Found(wakes[..n]) + 1 {
        if n < m {
          assert wakes[..m][..n + 1] == wakes[..n + 1];
        }
      }
    }
  }

  /** One wake-up more: what is waiting then is what the stream completes beyond the packets
      accepted before. */
  lemma WaitingIs(wakes: seq<seq<byte>>)
    requires wakes != [] && !BatchParse(Flatten(wakes)).spins
    ensures var n := |wakes| - 1;
            var st := Run(INITIAL, wakes[..n]);
            && !BatchParse(Flatten(wakes[..n])).spins && !BatchParse(st.data + wakes[n]).spins
            && Found(wakes[..n]) == |st.Accepted()| + Backlog(st)
            && Found(wakes) == |st.Accepted()| + |BatchParse(st.data + wakes[n]).pkts|
  {
    var n := |wakes| - 1;
    var st := Run(INITIAL, wakes[..n]);
    BatchGrows(Flatten(wakes[..n]), wakes[n]);
    AcceptedPrefix(wakes[..n]);
    StreamingRefinesBatch(wakes[..n]);
    IteratesGrow(Flatten(wakes[..n]), st.Accepted(), st.data, wakes[n]);
    IteratesBatch(Flatten(wakes), st.Accepted(), st.data + wakes[n]);
  }

  /** The listener is up to date after every wake-up exactly when no wake-up completes more
      than one packet of the stream. */
  lemma {:induction false} UpToDateExactly(wakes: seq<seq<byte>>)
    requires !BatchParse(Flatten(wakes)).spins
    ensures UpToDate(wakes) <==> OneByOne(wakes)
  {
    if wakes == [] {
      NothingParses();
      assert forall n | 0 <= n <= 0 :: wakes[..n] == [];
    } else {
      var init := wakes[..|wakes| - 1];
      var st := Run(INITIAL, init);
      WaitingIs(wakes);
      UpToDateExactly(init);
      UpToDateNext(wakes);
      OneByOneNext(wakes);
      BacklogLaw(st, wakes[|wakes| - 1]);
      assert Run(INITIAL, wakes) == Receive(st, wakes[|wakes| - 1]);
      if UpToDate(init) {
        UpToDateLast(init);
      }
      hide UpToDate, OneByOne, Run, Receive, BatchParse;
    }
  }

  lemma UpToDateLast(wakes: seq<seq<byte>>)
    requires UpToDate(wakes)
    ensures Backlog(Run(INITIAL, wakes)) == 0
  {
    assert wakes[..|wakes|] == wakes;
  }

  /** Two packets in one datagram are too much: the second is left waiting. */
  lemma {:induction false} TwoAtOnce(p: Pkt, q: Pkt)
    requires p.Valid() && q.Valid() && p.length <= 65527 && q.length <= 65527
    ensures Run(INITIAL, [Encode(p) + Encode(q)]).Accepted() == [p]
    ensures BatchParse(Encode(p) + Encode(q)).pkts == [p, q]
  {
    hide Encode, ParsePacket;
    var buf := Encode(p) + Encode(q);
    ParseExact(buf, p);
    RawLengthExact(p);
    OnePacket(q);
    assert Rest(buf) == Encode(q);
    assert BatchParse(buf).pkts == [p] + [q];
    assert INITIAL.data + buf == buf;
    KeepAccepts(INITIAL, p);
    assert Run(INITIAL, [buf]) == Receive(INITIAL, buf);
  }

  lemma OnePacket(q: Pkt)
    requires q.Valid() && q.length <= 65527
    ensures BatchParse(Encode(q)).pkts == [q]
  {
    hide Encode, ParsePacket;
    ParseExact(Encode(q), q);
    RawLengthExact(q);
    assert Rest(Encode(q)) == [];
    NothingParses();
    assert [q] + [] == [q];
  }

  lemma NothingParses()
    ensures BatchParse([]).pkts == []
  {}
}
