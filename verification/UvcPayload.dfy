/** The uncompressed payload state machine of the camera driver (uvc.c,
    uvc_parse_received_packet_uncomp). One payload header is skipped per frame, and its
    length is always taken from the first byte of the packet at hand. */
module UvcPayload {
  import opened Bytes

  /** What the driver does with the bytes of a packet, in order. `Header` marks bytes
      passed over; the other three are the registered callbacks. */
  datatype Event = Start | Header(bytes: seq<byte>) | Data(bytes: seq<byte>) | End

  /** The static variables. */
  datatype Statics = Statics(processed: u32, headerLen: byte)

  const RESET := Statics(0, 0)

  /** Payload bytes of the open frame still to come: a 32-bit unsigned expression. */
  function Left(frameSize: u32, d: Statics): u32 {
    (frameSize + d.headerLen - d.processed) % 0x1_0000_0000
  }

  /** `hangs`: the loop finds no frame open and a header length of 0, and then never
      advances. */
  datatype Outcome = Outcome(d: Statics, events: seq<Event>, hangs: bool)

  /** The loop from index i on. */
  function Process(frameSize: u32, d: Statics, buf: seq<byte>, i: nat): Outcome
    requires |buf| < 0x1_0000_0000
    decreases |buf| - Min(i, |buf|), d.processed != 0
  {
    if i >= |buf| then Outcome(d, [], false)
    else if d.processed == 0 then
      var h := buf[0];
      if h == 0 then Outcome(Statics(0, 0), [Start], true)
      else
        var o := Process(frameSize, Statics(h, h), buf, i + h);
        o.(events := [Start, Header(buf[i..Min(i + h, |buf|)])] + o.events)
    else if |buf| - i < Left(frameSize, d) then
      Outcome(d.(processed := (d.processed + |buf| - i) % 0x1_0000_0000), [Data(buf[i..])], false)
    else
      var j := i + Left(frameSize, d);
      var o := Process(frameSize, d.(processed := 0), buf, j);
      o.(events := [Data(buf[i..j]), End] + o.events)
  }

  /** The packets of a stream in turn; a hang ends the run. */
  function RunPackets(frameSize: u32, packets: seq<seq<byte>>): Outcome
    requires forall p | p in packets :: |p| < 0x1_0000_0000
  {
    if packets == [] then Outcome(RESET, [], false)
    else
      var n := |packets| - 1;
      var o := RunPackets(frameSize, packets[..n]);
      if o.hangs then o
      else
        assert packets[n] in packets;
        var o' := Process(frameSize, o.d, packets[n], 0);
        o'.(events := o.events + o'.events)
  }

  class Driver {
    const frameSize: u32
    var processed: u32
    var headerLen: byte
    ghost var events: seq<Event>

    ghost function D(): Statics
      reads this
    {
      Statics(processed, headerLen)
    }

    constructor (frameSize: u32)
      ensures this.frameSize == frameSize && D() == RESET && events == []
    {
      this.frameSize := frameSize;
      processed, headerLen, events := 0, 0, [];
    }

    /** The packet loop. Callbacks are recorded in `events`. */
    method ParseReceivedPacket(buf: seq<byte>) returns (hangs: bool)
      requires |buf| < 0x1_0000_0000
      modifies this
      ensures Outcome(D(), events, hangs) ==
              (var o := Process(frameSize, old(D()), buf, 0); o.(events := old(events) + o.events))
    {
      hide Process, Going;
      ghost var o := Process(frameSize, D(), buf, 0);
      ghost var whole := o.(events := events + o.events);
      GoingStart(frameSize, D(), buf, events);
      var i := 0;
      while i < |buf|
        invariant 0 <= i && Going(frameSize, whole, D(), buf, i, events)
        decreases |buf| - Min(i, |buf|), processed != 0
      {
        ghost var d0 := D();
        if processed == 0 {
          headerLen := buf[0];
          processed := headerLen;
          GoingHeader(frameSize, whole, d0, buf, i, events);
          if headerLen == 0 {
            events := events + [Start];
            return true;
          }
          events := events + [Start, Header(buf[i..Min(i + headerLen, |buf|)])];
          i := i + headerLen;
        } else if |buf| - i < Left(frameSize, Statics(processed, headerLen)) {
          GoingPart(frameSize, whole, d0, buf, i, events);
          processed := (processed + |buf| - i) % 0x1_0000_0000;
          events := events + [Data(buf[i..])];
          i := |buf|;
        } else {
          GoingWhole(frameSize, whole, d0, buf, i, events);
          var toSend := Left(frameSize, Statics(processed, headerLen));
          processed := 0;
          events := events + [Data(buf[i..i + toSend]), End];
          i := i + toSend;
        }
      }
      GoingEnd(frameSize, whole, D(), buf, i, events);
      return false;
    }
  }

  /** The loop stands at i: the events so far, followed by those still to come. */
  ghost predicate Going(frameSize: u32, whole: Outcome, d: Statics, buf: seq<byte>, i: nat, events: seq<Event>)
    requires |buf| < 0x1_0000_0000
  {
    var o := Process(frameSize, d, buf, i);
    whole == Outcome(o.d, events + o.events, o.hangs)
  }

  lemma GoingStart(frameSize: u32, d: Statics, buf: seq<byte>, events: seq<Event>)
    requires |buf| < 0x1_0000_0000
    ensures var o := Process(frameSize, d, buf, 0); Going(frameSize, o.(events := events + o.events), d, buf, 0, events)
  {}

  lemma GoingEnd(frameSize: u32, whole: Outcome, d: Statics, buf: seq<byte>, i: nat, events: seq<Event>)
    requires |buf| <= i && |buf| < 0x1_0000_0000 && Going(frameSize, whole, d, buf, i, events)
    ensures whole == Outcome(d, events, false)
  {
    assert events + [] == events;
  }

  lemma GoingHeader(frameSize: u32, whole: Outcome, d: Statics, buf: seq<byte>, i: nat, events: seq<Event>)
    requires i < |buf| < 0x1_0000_0000 && d.processed == 0 && Going(frameSize, whole, d, buf, i, events)
    ensures var h := buf[0];
            if h == 0 then whole == Outcome(Statics(0, 0), events + [Start], true)
            else Going(frameSize, whole, Statics(h, h), buf, i + h,
                       events + [Start, Header(buf[i..Min(i + h, |buf|)])])
  {
    var h := buf[0];
    if h != 0 {
      var o := Process(frameSize, Statics(h, h), buf, i + h);
      var es := [Start, Header(buf[i..Min(i + h, |buf|)])];
      assert events + (es + o.events) == events + es + o.events;
    }
  }

  lemma GoingPart(frameSize: u32, whole: Outcome, d: Statics, buf: seq<byte>, i: nat, events: seq<Event>)
    requires i < |buf| < 0x1_0000_0000 && d.processed != 0 && |buf| - i < Left(frameSize, d)
    requires Going(frameSize, whole, d, buf, i, events)
    ensures Going(frameSize, whole, d.(processed := (d.processed + |buf| - i) % 0x1_0000_0000), buf, |buf|,
                  events + [Data(buf[i..])])
  {
    assert events + [Data(buf[i..])] + [] == events + [Data(buf[i..])];
  }

  lemma GoingWhole(frameSize: u32, whole: Outcome, d: Statics, buf: seq<byte>, i: nat, events: seq<Event>)
    requires i < |buf| < 0x1_0000_0000 && d.processed != 0 && |buf| - i >= Left(frameSize, d)
    requires Going(frameSize, whole, d, buf, i, events)
    ensures var j := i + Left(frameSize, d);
            Going(frameSize, whole, d.(processed := 0), buf, j, events + [Data(buf[i..j]), End])
  {
    var j := i + Left(frameSize, d);
    var o := Process(frameSize, d.(processed := 0), buf, j);
    var es := [Data(buf[i..j]), End];
    assert events + (es + o.events) == events + es + o.events;
  }

  lemma RunNone(size: u32)
    ensures RunPackets(size, []) == Outcome(RESET, [], false)
  {}

  lemma RunNext(size: u32, packets: seq<seq<byte>>, p: seq<byte>)
    requires |p| < 0x1_0000_0000 && forall q | q in packets :: |q| < 0x1_0000_0000
    ensures var o := RunPackets(size, packets);
            var o' := Process(size, o.d, p, 0);
            !o.hangs ==> RunPackets(size, packets + [p]) == o'.(events := o.events + o'.events)
  {
    assert (packets + [p])[..|packets|] == packets;
  }

  /** When a packet hangs the driver: its first byte is 0 and the loop comes to it with
      no frame open, either at once or because the open frame ends before the packet does. */
  lemma {:induction false} HangsExactly(frameSize: u32, d: Statics, buf: seq<byte>)
    requires |buf| < 0x1_0000_0000
    ensures Process(frameSize, d, buf, 0).hangs <==>
            |buf| > 0 && buf[0] == 0 && (d.processed == 0 || Left(frameSize, d) < |buf|)
  {
    if |buf| > 0 && buf[0] != 0 {
      NonzeroHeaderEnds(frameSize, d, buf, 0);
    }
  }

  lemma {:induction false} NonzeroHeaderEnds(frameSize: u32, d: Statics, buf: seq<byte>, i: nat)
    requires 0 < |buf| < 0x1_0000_0000 && buf[0] != 0
    ensures !Process(frameSize, d, buf, i).hangs
    decreases |buf| - Min(i, |buf|), d.processed != 0
  {
    if i >= |buf| {
    } else if d.processed == 0 {
      NonzeroHeaderEnds(frameSize, Statics(buf[0], buf[0]), buf, i + buf[0]);
    } else if |buf| - i >= Left(frameSize, d) {
      NonzeroHeaderEnds(frameSize, d.(processed := 0), buf, i + Left(frameSize, d));
    }
  }

  /** A packet that is a single 0 does it on a driver at rest. */
  lemma {:induction false} ZeroHangs(frameSize: u32)
    ensures Process(frameSize, RESET, [0], 0).hangs
  {
    HangsExactly(frameSize, RESET, [0]);
  }

  // ----- conservation

  /** The packet bytes an event accounts for. */
  function BytesIn(e: Event): seq<byte> {
    match e
    case Header(b) => b
    case Data(b) => b
    case _ => []
  }

  function AllBytes(events: seq<Event>): seq<byte> {
    if events == [] then [] else BytesIn(events[0]) + AllBytes(events[1..])
  }

  lemma {:induction false} AllBytesAppend(es: seq<Event>, fs: seq<Event>)
    ensures AllBytes(es + fs) == AllBytes(es) + AllBytes(fs)
  {
    if es == [] {
      assert es + fs == fs;
    } else {
      AllBytesAppend(es[1..], fs);
      assert (es + fs)[0] == es[0] && (es + fs)[1..] == es[1..] + fs;
      Assoc(BytesIn(es[0]), AllBytes(es[1..]), AllBytes(fs));
    }
  }

  lemma AllBytesTwo(e: Event, f: Event, es: seq<Event>)
    ensures AllBytes([e, f] + es) == BytesIn(e) + (BytesIn(f) + AllBytes(es))
  {
    assert ([e, f] + es)[1..] == [f] + es;
    assert ([f] + es)[1..] == es;
  }

  /** What a round of the loop that starts at i accounts for. */
  ghost predicate Conserves(o: Outcome, rest: seq<byte>) {
    o.hangs || AllBytes(o.events) == rest
  }

  lemma RoundConserves(buf: seq<byte>, i: nat, j: nat, e: Event, f: Event, o: Outcome)
    requires i <= j <= |buf| && BytesIn(e) + BytesIn(f) == buf[i..j] && Conserves(o, buf[j..])
    ensures Conserves(o.(events := [e, f] + o.events), buf[i..])
  {
    AllBytesTwo(e, f, o.events);
    Assoc(BytesIn(e), BytesIn(f), AllBytes(o.events));
    assert buf[i..j] + buf[j..] == buf[i..];
  }

  lemma {:induction false} ProcessConserves(frameSize: u32, d: Statics, buf: seq<byte>, i: nat)
    requires |buf| < 0x1_0000_0000 && i <= |buf|
    ensures Conserves(Process(frameSize, d, buf, i), buf[i..])
    decreases |buf| - i, d.processed != 0, 1
  {
    if i >= |buf| || (d.processed == 0 && buf[0] == 0) {
    } else if d.processed == 0 {
      HeaderConserves(frameSize, d, buf, i);
    } else if |buf| - i < Left(frameSize, d) {
      assert [Data(buf[i..])][1..] == [];
    } else {
      DataConserves(frameSize, d, buf, i);
    }
  }

  lemma {:induction false} HeaderConserves(frameSize: u32, d: Statics, buf: seq<byte>, i: nat)
    requires i < |buf| < 0x1_0000_0000 && d.processed == 0 && buf[0] != 0
    ensures Conserves(Process(frameSize, d, buf, i), buf[i..])
    decreases |buf| - i, false, 0
  {
    var h := buf[0];
    var j := Min(i + h, |buf|);
    var o := Process(frameSize, Statics(h, h), buf, i + h);
    assert Process(frameSize, d, buf, i) == o.(events := [Start, Header(buf[i..j])] + o.events);
    if j == i + h {
      ProcessConserves(frameSize, Statics(h, h), buf, j);
    } else {
      assert o.events == [];
    }
    hide Process;
    RoundConserves(buf, i, j, Start, Header(buf[i..j]), o);
  }

  lemma {:induction false} DataConserves(frameSize: u32, d: Statics, buf: seq<byte>, i: nat)
    requires i < |buf| < 0x1_0000_0000 && d.processed != 0 && |buf| - i >= Left(frameSize, d)
    ensures Conserves(Process(frameSize, d, buf, i), buf[i..])
    decreases |buf| - i, true, 0
  {
    var j := i + Left(frameSize, d);
    var o := Process(frameSize, d.(processed := 0), buf, j);
    assert Process(frameSize, d, buf, i) == o.(events := [Data(buf[i..j]), End] + o.events);
    ProcessConserves(frameSize, d.(processed := 0), buf, j);
    hide Process;
    RoundConserves(buf, i, j, Data(buf[i..j]), End, o);
  }

  /** Every byte of every packet is passed over as header or handed to the data
      callback, once and in order, whatever the frame size. */
  lemma {:induction false} PayloadConserved(frameSize: u32, packets: seq<seq<byte>>)
    requires forall p | p in packets :: |p| < 0x1_0000_0000
    ensures var o := RunPackets(frameSize, packets); !o.hangs ==> AllBytes(o.events) == Flatten(packets)
  {
    if packets != [] {
      var n := |packets| - 1;
      assert packets[n] in packets;
      PayloadConserved(frameSize, packets[..n]);
      var o := RunPackets(frameSize, packets[..n]);
      ProcessConserves(frameSize, o.d, packets[n], 0);
      assert packets[n][0..] == packets[n];
      AllBytesAppend(o.events, Process(frameSize, o.d, packets[n], 0).events);
    }
  }

  // ----- the shape of the callback trace

  /** A reader of the trace: frames closed so far, and the payload of the open one. */
  datatype Reader =
    | Idle(frames: seq<seq<byte>>)
    | Open(frames: seq<seq<byte>>, cur: seq<byte>, pieces: nat)
    | Bad
  {
    /** (start data+ end)*, with headers only before the first data of a frame. */
    function Read(e: Event): Reader {
      match (this, e)
      case (Idle(fs), Start) => Open(fs, [], 0)
      case (Open(fs, cur, 0), Header(_)) => this
      case (Open(fs, cur, n), Data(b)) => if b == [] then Bad else Open(fs, cur + b, n + 1)
      case (Open(fs, cur, n), End) => if n == 0 then Bad else Idle(fs + [cur])
      case _ => Bad
    }
  }

  function ReadAll(r: Reader, events: seq<Event>): Reader
    decreases |events|
  {
    if events == [] then r else ReadAll(r.Read(events[0]), events[1..])
  }

  lemma {:induction false} ReadAppend(r: Reader, es: seq<Event>, fs: seq<Event>)
    ensures ReadAll(r, es + fs) == ReadAll(ReadAll(r, es), fs)
    decreases |es|
  {
    if es == [] {
      assert es + fs == fs;
    } else {
      ReadAppend(r.Read(es[0]), es[1..], fs);
      assert (es + fs)[1..] == es[1..] + fs;
    }
  }

  /** The static variables match a reader of the trace: no frame is open exactly when
      `processed` is 0, otherwise `processed` counts the header and the payload so far;
      every closed frame has the fixed size. */
  ghost predicate Matches(frameSize: u32, d: Statics, r: Reader) {
    && !r.Bad?
    && (forall f | f in r.frames :: |f| == frameSize)
    && (r.Idle? <==> d.processed == 0)
    && (r.Open? ==>
          && d.headerLen > 0 && d.processed == d.headerLen + |r.cur|
          && |r.cur| < frameSize
          && (r.pieces == 0 <==> r.cur == []))
  }

  lemma ReadTwo(r: Reader, e: Event, f: Event, es: seq<Event>)
    ensures ReadAll(r, [e, f] + es) == ReadAll(r.Read(e).Read(f), es)
  {
    assert ([e, f] + es)[1..] == [f] + es;
    assert ([f] + es)[1..] == es;
  }

  lemma MatchesHeader(frameSize: u32, d: Statics, r: Reader, h: byte, header: seq<byte>)
    requires frameSize >= 1 && Matches(frameSize, d, r) && d.processed == 0 && h > 0
    ensures Matches(frameSize, Statics(h, h), r.Read(Start).Read(Header(header)))
  {}

  lemma MatchesData(frameSize: u32, d: Statics, r: Reader, data: seq<byte>)
    requires frameSize <= 0x1_0000_0000 - 0x100
    requires Matches(frameSize, d, r) && d.processed != 0 && 0 < |data| <= Left(frameSize, d)
    ensures Left(frameSize, d) == frameSize - |r.cur|
    ensures |data| < Left(frameSize, d) ==>
              d.processed + |data| < 0x1_0000_0000 &&
              Matches(frameSize, d.(processed := d.processed + |data|), r.Read(Data(data)))
    ensures |data| == Left(frameSize, d) ==>
              Matches(frameSize, d.(processed := 0), r.Read(Data(data)).Read(End))
  {}

  /** ProcessMatches for one index; each branch of the loop is a lemma of its own. */
  ghost predicate ProcessKeeps(frameSize: u32, d: Statics, buf: seq<byte>, i: nat, r: Reader)
    requires |buf| < 0x1_0000_0000
  {
    var o := Process(frameSize, d, buf, i);
    Matches(frameSize, o.d, ReadAll(r, o.events))
  }

  lemma KeepsHeader(frameSize: u32, d: Statics, buf: seq<byte>, i: nat, r: Reader)
    requires i < |buf| < 0x1_0000_0000 && buf[0] != 0 && d.processed == 0
    requires var h := buf[0];
             ProcessKeeps(frameSize, Statics(h, h), buf, i + h,
                          r.Read(Start).Read(Header(buf[i..Min(i + h, |buf|)])))
    ensures ProcessKeeps(frameSize, d, buf, i, r)
  {
    var h := buf[0];
    ReadTwo(r, Start, Header(buf[i..Min(i + h, |buf|)]), Process(frameSize, Statics(h, h), buf, i + h).events);
  }

  lemma KeepsPart(frameSize: u32, d: Statics, buf: seq<byte>, i: nat, r: Reader)
    requires i < |buf| < 0x1_0000_0000 && d.processed != 0 && |buf| - i < Left(frameSize, d)
    requires d.processed + |buf| - i < 0x1_0000_0000
    requires Matches(frameSize, d.(processed := d.processed + |buf| - i), r.Read(Data(buf[i..])))
    ensures ProcessKeeps(frameSize, d, buf, i, r)
  {
    var e := Data(buf[i..]);
    assert [e][1..] == [];
    assert ReadAll(r, [e]) == ReadAll(r.Read(e), []) == r.Read(e);
  }

  lemma KeepsWhole(frameSize: u32, d: Statics, buf: seq<byte>, i: nat, r: Reader)
    requires i < |buf| < 0x1_0000_0000 && d.processed != 0 && |buf| - i >= Left(frameSize, d)
    requires var j := i + Left(frameSize, d);
             ProcessKeeps(frameSize, d.(processed := 0), buf, j, r.Read(Data(buf[i..j])).Read(End))
    ensures ProcessKeeps(frameSize, d, buf, i, r)
  {
    var j := i + Left(frameSize, d);
    var o := Process(frameSize, d.(processed := 0), buf, j);
    assert Process(frameSize, d, buf, i) == o.(events := [Data(buf[i..j]), End] + o.events);
    hide Process, ReadAll;
    ReadTwo(r, Data(buf[i..j]), End, o.events);
  }

  lemma {:induction false} ProcessMatches(frameSize: u32, d: Statics, buf: seq<byte>, i: nat, r: Reader)
    requires 1 <= frameSize <= 0x1_0000_0000 - 0x100
    requires 0 < |buf| < 0x1_0000_0000 && buf[0] != 0
    requires Matches(frameSize, d, r)
    ensures ProcessKeeps(frameSize, d, buf, i, r)
    decreases |buf| - Min(i, |buf|), d.processed != 0, 1
  {
    if i >= |buf| {
    } else if d.processed == 0 {
      HeaderRound(frameSize, d, buf, i, r);
    } else {
      DataRound(frameSize, d, buf, i, r);
    }
  }

  lemma {:induction false} HeaderRound(frameSize: u32, d: Statics, buf: seq<byte>, i: nat, r: Reader)
    requires 1 <= frameSize <= 0x1_0000_0000 - 0x100
    requires i < |buf| < 0x1_0000_0000 && buf[0] != 0 && d.processed == 0
    requires Matches(frameSize, d, r)
    ensures ProcessKeeps(frameSize, d, buf, i, r)
    decreases |buf| - i, false, 0
  {
    var h := buf[0];
    var header := buf[i..Min(i + h, |buf|)];
    MatchesHeader(frameSize, d, r, h, header);
    ProcessMatches(frameSize, Statics(h, h), buf, i + h, r.Read(Start).Read(Header(header)));
    KeepsHeader(frameSize, d, buf, i, r);
  }

  lemma {:induction false} DataRound(frameSize: u32, d: Statics, buf: seq<byte>, i: nat, r: Reader)
    requires 1 <= frameSize <= 0x1_0000_0000 - 0x100
    requires i < |buf| < 0x1_0000_0000 && buf[0] != 0 && d.processed != 0
    requires Matches(frameSize, d, r)
    ensures ProcessKeeps(frameSize, d, buf, i, r)
    decreases |buf| - i, true, 0
  {
    if |buf| - i < Left(frameSize, d) {
      MatchesData(frameSize, d, r, buf[i..]);
      KeepsPart(frameSize, d, buf, i, r);
    } else {
      var j := i + Left(frameSize, d);
      MatchesData(frameSize, d, r, buf[i..j]);
      ProcessMatches(frameSize, d.(processed := 0), buf, j, r.Read(Data(buf[i..j])).Read(End));
      KeepsWhole(frameSize, d, buf, i, r);
    }
  }

  /** Over any packets with a nonzero first byte: the driver never hangs, its trace is
      (start data+ end)* with at most one open frame, every closed frame received exactly
      the frame size, and `processed` is 0 between frames and otherwise lies between the
      header length and the header length plus the frame size. */
  lemma {:induction false} PayloadFramed(frameSize: u32, packets: seq<seq<byte>>)
    requires 1 <= frameSize <= 0x1_0000_0000 - 0x100
    requires forall p | p in packets :: |p| < 0x1_0000_0000 && (p != [] ==> p[0] != 0)
    ensures var o := RunPackets(frameSize, packets);
            !o.hangs && Matches(frameSize, o.d, ReadAll(Idle([]), o.events))
  {
    if packets != [] {
      var n := |packets| - 1;
      var p := packets[n];
      assert p in packets;
      PayloadFramed(frameSize, packets[..n]);
      var o := RunPackets(frameSize, packets[..n]);
      HangsExactly(frameSize, o.d, p);
      var o' := Process(frameSize, o.d, p, 0);
      ReadAppend(Idle([]), o.events, o'.events);
      if p != [] {
        ProcessMatches(frameSize, o.d, p, 0, ReadAll(Idle([]), o.events));
      }
    }
  }

  // ----- what the driver's frame is made of

  /** What has come in since the first frame began: its first frameSize bytes, once there are
      so many, are the frame. */
  ghost predicate FirstFrameIs(frameSize: u32, r: Reader, all: seq<byte>) {
    if |all| < frameSize then r.Open? && r.frames == [] && r.cur == all
    else !r.Bad? && r.frames != [] && r.frames[0] == all[..frameSize]
  }

  lemma {:induction false} FramesStay(r: Reader, es: seq<Event>)
    requires !r.Bad? && !ReadAll(r, es).Bad?
    ensures r.frames <= ReadAll(r, es).frames
    decreases |es|
  {
    if es != [] {
      BadForGood(r.Read(es[0]), es[1..]);
      FramesStay(r.Read(es[0]), es[1..]);
    }
  }

  lemma {:induction false} BadForGood(r: Reader, es: seq<Event>)
    ensures r.Bad? ==> ReadAll(r, es).Bad?
    decreases |es|
  {
    if es != [] {
      BadForGood(r.Read(es[0]), es[1..]);
    }
  }

  /** A packet's bytes from i on go to the open first frame, as far as it takes them. */
  lemma {:induction false} FirstFrameGoesOn(frameSize: u32, d: Statics, buf: seq<byte>, i: nat, r: Reader)
    requires 1 <= frameSize <= 0x1_0000_0000 - 0x100
    requires i < |buf| < 0x1_0000_0000 && buf[0] != 0
    requires Matches(frameSize, d, r) && r.Open? && r.frames == []
    ensures FirstFrameIs(frameSize, ReadAll(r, Process(frameSize, d, buf, i).events), r.cur + buf[i..])
  {
    hide Matches;
    MatchesLeft(frameSize, d, r);
    var left := Left(frameSize, d);
    if |buf| - i < left {
      var e := Data(buf[i..]);
      assert [e][1..] == [];
      assert ReadAll(r, [e]) == ReadAll(r.Read(e), []) == r.Read(e);
    } else {
      var j := i + left;
      var o := Process(frameSize, d.(processed := 0), buf, j);
      assert Process(frameSize, d, buf, i).events == [Data(buf[i..j]), End] + o.events;
      ProcessMatches(frameSize, d, buf, i, r);
      MatchesGood(frameSize, Process(frameSize, d, buf, i).d, ReadAll(r, Process(frameSize, d, buf, i).events));
      hide Process;
      ReadTwo(r, Data(buf[i..j]), End, o.events);
      var closed := r.Read(Data(buf[i..j])).Read(End);
      BadForGood(closed, o.events);
      FramesStay(closed, o.events);
      assert r.cur + buf[i..j] == (r.cur + buf[i..])[..frameSize];
      assert closed.frames == [r.cur + buf[i..j]];
    }
  }

  lemma MatchesGood(frameSize: u32, d: Statics, r: Reader)
    requires Matches(frameSize, d, r)
    ensures !r.Bad?
  {}

  lemma MatchesLeft(frameSize: u32, d: Statics, r: Reader)
    requires frameSize <= 0x1_0000_0000 - 0x100 && Matches(frameSize, d, r) && r.Open?
    ensures d.processed != 0 && Left(frameSize, d) == frameSize - |r.cur| > 0
  {}

  /** The first packet without its header, and all later ones with theirs. */
  function AfterHeader(packets: seq<seq<byte>>): seq<byte>
    requires packets != [] && packets[0] != []
  {
    packets[0][Min(packets[0][0], |packets[0]|)..] + Flatten(packets[1..])
  }

  lemma {:induction false} FirstPacket(frameSize: u32, p: seq<byte>)
    requires 1 <= frameSize <= 0x1_0000_0000 - 0x100
    requires 0 < |p| < 0x1_0000_0000 && p[0] != 0
    ensures FirstFrameIs(frameSize, ReadAll(Idle([]), Process(frameSize, RESET, p, 0).events), p[Min(p[0], |p|)..])
  {
    var h := p[0];
    var header := p[0..Min(h, |p|)];
    var o := Process(frameSize, Statics(h, h), p, h);
    var r := Idle([]).Read(Start).Read(Header(header));
    assert Process(frameSize, RESET, p, 0).events == [Start, Header(header)] + o.events;
    ReadTwo(Idle([]), Start, Header(header), o.events);
    MatchesHeader(frameSize, RESET, Idle([]), h, header);
    if h < |p| {
      FirstFrameGoesOn(frameSize, Statics(h, h), p, h, r);
      assert [] + p[h..] == p[h..];
    } else {
      assert o.events == [];
    }
  }

  lemma AfterHeaderNext(packets: seq<seq<byte>>, p: seq<byte>)
    requires packets != [] && packets[0] != []
    ensures AfterHeader(packets + [p]) == AfterHeader(packets) + p
  {
    var first := packets[0][Min(packets[0][0], |packets[0]|)..];
    assert (packets + [p])[1..] == packets[1..] + [p];
    FlattenSnoc(packets[1..], p);
    Assoc(first, Flatten(packets[1..]), p);
  }

  lemma AfterHeaderOne(p: seq<byte>)
    requires p != []
    ensures AfterHeader([p]) == p[Min(p[0], |p|)..]
  {
    assert [p][1..] == [];
    assert p[Min(p[0], |p|)..] + [] == p[Min(p[0], |p|)..];
  }

  lemma {:induction false} NextPacketGoesOn(frameSize: u32, d: Statics, p: seq<byte>, r: Reader, all: seq<byte>)
    requires 1 <= frameSize <= 0x1_0000_0000 - 0x100 && 0 < |p| < 0x1_0000_0000 && p[0] != 0
    requires Matches(frameSize, d, r) && FirstFrameIs(frameSize, r, all)
    ensures FirstFrameIs(frameSize, ReadAll(r, Process(frameSize, d, p, 0).events), all + p)
  {
    if |all| < frameSize {
      FirstFrameGoesOn(frameSize, d, p, 0, r);
      assert p[0..] == p;
    } else {
      ProcessMatches(frameSize, d, p, 0, r);
      FramesStay(r, Process(frameSize, d, p, 0).events);
      assert (all + p)[..frameSize] == all[..frameSize];
    }
  }

  /** The driver skips one header per frame. Of a stream that begins with a frame, its first
      frame is made of the first packet without its header and of the later packets whole,
      headers included, up to the frame size. */
  lemma {:induction false} FirstFrameExactly(frameSize: u32, packets: seq<seq<byte>>)
    requires 1 <= frameSize <= 0x1_0000_0000 - 0x100 && packets != []
    requires forall p | p in packets :: 0 < |p| < 0x1_0000_0000 && p[0] != 0
    ensures packets[0] in packets
    ensures FirstFrameIs(frameSize, ReadAll(Idle([]), RunPackets(frameSize, packets).events), AfterHeader(packets))
  {
    assert packets[0] in packets;
    var n := |packets| - 1;
    var p, init := packets[n], packets[..n];
    assert p in packets && packets == init + [p];
    hide FirstFrameIs, Process, RunPackets, ReadAll, AfterHeader, Matches;
    if n == 0 {
      assert packets == [p];
      RunNone(frameSize);
      RunNext(frameSize, init, p);
      assert init == [] && [] + Process(frameSize, RESET, p, 0).events == Process(frameSize, RESET, p, 0).events;
      FirstPacket(frameSize, p);
      AfterHeaderOne(p);
    } else {
      FirstFrameExactly(frameSize, init);
      PayloadFramed(frameSize, init);
      RunNext(frameSize, init, p);
      var o := RunPackets(frameSize, init);
      NextPacketGoesOn(frameSize, o.d, p, ReadAll(Idle([]), o.events), AfterHeader(init));
      ReadAppend(Idle([]), o.events, Process(frameSize, o.d, p, 0).events);
      AfterHeaderNext(init, p);
    }
  }

  lemma AfterTwo(a: seq<byte>, b: seq<byte>)
    requires a != []
    ensures AfterHeader([[1] + a, [1] + b]) == a + ([1] + b)
  {
    var p, q := [1] + a, [1] + b;
    AfterHeaderOne(p);
    AfterHeaderNext([p], q);
    assert [p] + [q] == [p, q] && p[1..] == a;
  }

  lemma LastByteCut(a: seq<byte>, b: seq<byte>)
    requires b != []
    ensures (a + ([1] + b))[..|a| + |b|] == a + [1] + b[..|b| - 1]
  {}

  /** So a frame that the camera sends in two packets is not the driver's: the second packet's
      header stands in its middle, and its last byte is missing. */
  lemma {:induction false} SplitFrame(a: seq<byte>, b: seq<byte>)
    requires 0 < |a| && 0 < |b| && |a| + |b| < 0x1_0000
    ensures var r := ReadAll(Idle([]), RunPackets(|a| + |b|, [[1] + a, [1] + b]).events);
            !r.Bad? && r.frames != [] && r.frames[0] == a + [1] + b[..|b| - 1]
  {
    hide RunPackets, ReadAll, AfterHeader;
    AfterTwo(a, b);
    FirstFrameExactly(|a| + |b|, [[1] + a, [1] + b]);
    LastByteCut(a, b);
  }
}
