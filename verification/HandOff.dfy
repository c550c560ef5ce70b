/** What the base station can get to see of the camera's frames: over every interleaving of
    the driver's callbacks with consume steps, which stretches of which frames are sent, in
    which order, and when they are whole frames. */
module HandOff {
  import opened Bytes
  import opened UvcPayload
  import opened FrameSlot

  /** The payloads of all frames begun so far. */
  function FramesOf(r: Reader): seq<seq<byte>> {
    match r
    case Idle(fs) => fs
    case Open(fs, cur, _) => fs + [cur]
    case Bad => []
  }

  /** `b` is the stretch of a frame that begins at p. */
  ghost predicate PieceAt(b: seq<byte>, frames: seq<seq<byte>>, p: Place) {
    0 <= p.frame < |frames| && 0 <= p.at <= |frames[p.frame]| - |b| && frames[p.frame][p.at..p.at + |b|] == b
  }

  /** A stretch begins with its frame or at a cut, */
  ghost predicate Begins(p: Place, cuts: seq<Place>) {
    p.at == 0 || p in cuts
  }

  /** it fills the slot or reaches the end of a closed frame, */
  ghost predicate Ends(b: seq<byte>, r: Reader, p: Place) {
    |b| == USB_BUF_SIZE || (!r.Bad? && 0 <= p.frame < |r.frames| && p.at + |b| == |r.frames[p.frame]|)
  }

  /** and no cut lies inside it. */
  ghost predicate Uncut(b: seq<byte>, p: Place, cuts: seq<Place>) {
    forall c | c in cuts && c.frame == p.frame :: c.at <= p.at || p.at + |b| <= c.at
  }

  ghost predicate Stretch(b: seq<byte>, r: Reader, p: Place, cuts: seq<Place>) {
    && 0 < |b| <= USB_BUF_SIZE && PieceAt(b, FramesOf(r), p)
    && Begins(p, cuts) && Ends(b, r, p) && Uncut(b, p, cuts)
  }

  /** n bytes from p on come before q. */
  ghost predicate Before(p: Place, n: int, q: Place) {
    p.frame < q.frame || (p.frame == q.frame && p.at + n <= q.at)
  }

  /** A cut lies within the payload seen so far. */
  ghost predicate Reached(c: Place, r: Reader) {
    0 <= c.frame < |FramesOf(r)| && 0 <= c.at <= |FramesOf(r)[c.frame]|
  }

  /** The slot is in use: it is pending, or collects for an open frame. */
  ghost predicate InUse(w: World) {
    w.slot.pending || w.seen.Open?
  }

  /** What is pending is a stretch of a frame; what is being collected is the latest payload
      of the open frame. */
  ghost predicate SlotPlaced(w: World) {
    if w.slot.pending then Stretch(w.slot.bytes, w.seen, w.place, w.cuts)
    else if w.seen.Open? then
      && w.place.frame == |w.seen.frames| && 0 <= w.place.at == |w.seen.cur| - |w.slot.bytes|
      && w.seen.cur[w.place.at..] == w.slot.bytes && |w.slot.bytes| < USB_BUF_SIZE && Begins(w.place, w.cuts)
    else w.slot.bytes == []
  }

  ghost predicate SentPlaced(w: World) {
    |w.places| == |w.sent| && forall i | 0 <= i < |w.sent| :: Stretch(w.sent[i].1, w.seen, w.places[i], w.cuts)
  }

  /** The buffers sent follow each other without overlap, and the slot follows them. */
  ghost predicate InOrder(w: World)
    requires |w.places| == |w.sent|
  {
    && (forall i, j | 0 <= i < j < |w.sent| :: Before(w.places[i], |w.sent[i].1|, w.places[j]))
    && (InUse(w) ==> forall i | 0 <= i < |w.sent| :: Before(w.places[i], |w.sent[i].1|, w.place))
  }

  ghost predicate CutsPlaced(w: World) {
    forall c | c in w.cuts :: Reached(c, w.seen) && (InUse(w) ==> Before(c, 0, w.place))
  }

  ghost predicate Orderly(w: World) {
    !w.seen.Bad? && SlotPlaced(w) && SentPlaced(w) && InOrder(w) && CutsPlaced(w)
  }

  // ----- each step keeps this

  lemma FramesGrow(r: Reader, e: Event, k: int)
    requires !r.Bad? && !r.Read(e).Bad? && 0 <= k < |FramesOf(r)|
    ensures k < |FramesOf(r.Read(e))| && FramesOf(r)[k] <= FramesOf(r.Read(e))[k]
    ensures |r.frames| <= |r.Read(e).frames|
    ensures k < |r.frames| ==> r.Read(e).frames[k] == r.frames[k]
  {}

  lemma StretchKept(b: seq<byte>, r: Reader, p: Place, cuts: seq<Place>, e: Event)
    requires Stretch(b, r, p, cuts) && !r.Bad? && !r.Read(e).Bad?
    ensures Stretch(b, r.Read(e), p, cuts)
  {
    FramesGrow(r, e, p.frame);
    var f, g := FramesOf(r)[p.frame], FramesOf(r.Read(e))[p.frame];
    assert g[p.at..p.at + |b|] == f[p.at..p.at + |b|];
  }

  /** Cutting the open frame where it ends now leaves every stretch uncut. */
  lemma StretchCut(b: seq<byte>, r: Reader, p: Place, cuts: seq<Place>)
    requires Stretch(b, r, p, cuts) && r.Open?
    ensures Stretch(b, r, p, cuts + [Place(|r.frames|, |r.cur|)])
  {}

  lemma SentKept(w: World, e: Event)
    requires Orderly(w) && !w.seen.Read(e).Bad?
    ensures SentPlaced(Do(w, Callback(e)))
  {
    forall i | 0 <= i < |w.sent| ensures Stretch(w.sent[i].1, w.seen.Read(e), w.places[i], w.cuts) {
      StretchKept(w.sent[i].1, w.seen, w.places[i], w.cuts, e);
    }
  }

  lemma OrderKept(w: World, e: Event)
    requires Orderly(w) && !w.seen.Read(e).Bad?
    ensures InOrder(Do(w, Callback(e))) && CutsPlaced(Do(w, Callback(e)))
  {
    var w' := Do(w, Callback(e));
    forall c | c in w.cuts ensures Reached(c, w'.seen) && (InUse(w') ==> Before(c, 0, w'.place)) {
      FramesGrow(w.seen, e, c.frame);
    }
    forall i | 0 <= i < |w.sent| && InUse(w') ensures Before(w.places[i], |w.sent[i].1|, w'.place) {
      assert Stretch(w.sent[i].1, w.seen, w.places[i], w.cuts);
    }
  }

  lemma SlotKept(w: World, e: Event)
    requires Orderly(w) && !w.seen.Read(e).Bad?
    ensures SlotPlaced(Do(w, Callback(e)))
  {
    if w.slot.pending {
      StretchKept(w.slot.bytes, w.seen, w.place, w.cuts, e);
    } else {
      match e
      case Start =>
      case Header(_) =>
      case Data(b) => CollectKeeps(w, b);
      case End => CloseKeeps(w);
    }
  }

  lemma CollectKeeps(w: World, b: seq<byte>)
    requires Orderly(w) && !w.slot.pending && !w.seen.Read(Data(b)).Bad?
    ensures SlotPlaced(Do(w, Callback(Data(b))))
  {
    var w' := Do(w, Callback(Data(b)));
    var at, s, cur := w.place.at, w'.slot.bytes, w'.seen.cur;
    assert cur == w.seen.cur + b;
    assert cur[at..at + |s|] == s;
    if w'.slot.pending {
      assert FramesOf(w'.seen)[|w.seen.frames|] == cur;
    }
  }

  lemma CloseKeeps(w: World)
    requires Orderly(w) && !w.slot.pending && !w.seen.Read(End).Bad?
    ensures SlotPlaced(Do(w, Callback(End)))
  {
    var w', at := Do(w, Callback(End)), w.place.at;
    var cur := w.seen.cur;
    assert w'.seen.frames[|w.seen.frames|] == cur;
    assert cur[at..at + |w.slot.bytes|] == cur[at..];
  }

  lemma ConsumeKeeps(w: World)
    requires Orderly(w)
    ensures Orderly(Do(w, ConsumeStep))
  {
    var w' := Do(w, ConsumeStep);
    if w.slot.pending {
      var n := |w.sent|;
      forall i | 0 <= i <= n ensures Stretch(w'.sent[i].1, w'.seen, w'.places[i], w'.cuts) {
        if i < n {
          assert Stretch(w.sent[i].1, w.seen, w.places[i], w.cuts);
        }
        if w.seen.Open? {
          StretchCut(w'.sent[i].1, w.seen, w'.places[i], w.cuts);
        }
      }
      forall c | c in w'.cuts ensures Reached(c, w'.seen) && (InUse(w') ==> Before(c, 0, w'.place)) {}
    }
  }

  lemma DoKeeps(w: World, a: Act)
    requires Orderly(w) && !Do(w, a).seen.Bad?
    ensures Orderly(Do(w, a))
  {
    match a
    case ConsumeStep => ConsumeKeeps(w);
    case Callback(e) =>
      SentKept(w, e);
      OrderKept(w, e);
      SlotKept(w, e);
  }

  // ----- what holds over all interleavings

  /** A trace that is well-formed to its end was so before its last act. */
  lemma GoodBefore(acts: seq<Act>)
    requires acts != [] && !DoAll(START, acts).seen.Bad?
    ensures !DoAll(START, acts[..|acts| - 1]).seen.Bad?
  {}

  /** Over every interleaving of well-formed callbacks with consume steps: each buffer sent
      is a contiguous stretch of one frame, and the buffers sent follow each other in the
      camera's order without overlap. */
  lemma {:induction false} HandOffAlways(acts: seq<Act>)
    requires !ReadAll(Idle([]), Callbacks(acts)).Bad?
    ensures var w := DoAll(START, acts);
            && Orderly(w)
            && (forall i | 0 <= i < |w.sent| ::
                  PieceAt(w.sent[i].1, FramesOf(w.seen), w.places[i]) && w.sent[i].1 != [])
            && (forall i, j | 0 <= i < j < |w.sent| :: Before(w.places[i], |w.sent[i].1|, w.places[j]))
  {
    SeenCallbacks(acts);
    OrderlyAlways(acts);
  }

  lemma {:induction false} OrderlyAlways(acts: seq<Act>)
    requires !DoAll(START, acts).seen.Bad?
    ensures Orderly(DoAll(START, acts))
  {
    if acts != [] {
      GoodBefore(acts);
      OrderlyAlways(acts[..|acts| - 1]);
      DoKeeps(DoAll(START, acts[..|acts| - 1]), acts[|acts| - 1]);
    }
  }

  /** The i-th buffer sent is from a frame that has been closed. */
  ghost predicate OfClosed(w: World, i: int) {
    0 <= i < |w.sent| && i < |w.places| && !w.seen.Bad? && 0 <= w.places[i].frame < |w.seen.frames|
  }

  /** A consume step took a buffer strictly inside the bytes of a frame. */
  ghost predicate CutInside(w: World, k: int) {
    0 <= k < |FramesOf(w.seen)| && exists c :: c in w.cuts && c.frame == k && 0 < c.at < |FramesOf(w.seen)[k]|
  }

  /** A buffer sent from a closed frame is that whole frame exactly when the frame fits the
      slot and no consume step took a buffer strictly inside its bytes. */
  lemma {:induction false} WholeExactly(acts: seq<Act>, i: nat)
    requires !ReadAll(Idle([]), Callbacks(acts)).Bad? && OfClosed(DoAll(START, acts), i)
    ensures var w := DoAll(START, acts);
            var k := w.places[i].frame;
            w.sent[i].1 == w.seen.frames[k] <==> |w.seen.frames[k]| <= 0x2_0000 && !CutInside(w, k)
  {
    HandOffAlways(acts);
    var w := DoAll(START, acts);
    var b, p := w.sent[i].1, w.places[i];
    assert Stretch(b, w.seen, p, w.cuts);
    assert FramesOf(w.seen)[p.frame] == w.seen.frames[p.frame];
    StretchWhole(b, w.seen.frames[p.frame], w, p);
  }

  lemma StretchWhole(b: seq<byte>, f: seq<byte>, w: World, p: Place)
    requires Stretch(b, w.seen, p, w.cuts) && !w.seen.Bad? && p.frame < |w.seen.frames|
    requires f == w.seen.frames[p.frame] == FramesOf(w.seen)[p.frame]
    ensures b == f <==> |f| <= USB_BUF_SIZE && !CutInside(w, p.frame)
  {
    if |f| <= USB_BUF_SIZE && !CutInside(w, p.frame) {
      assert p.at == 0;
      assert f[0..|b|] == b;
    }
  }

  /** Of a frame that is not cut inside, what is sent is its beginning: all of it, or
      as much as the slot holds. */
  lemma {:induction false} UncutSendsBeginnings(acts: seq<Act>, i: nat)
    requires !ReadAll(Idle([]), Callbacks(acts)).Bad?
    requires var w := DoAll(START, acts); i < |w.sent| && i < |w.places| && !CutInside(w, w.places[i].frame)
    ensures var w := DoAll(START, acts);
            var b := w.sent[i].1;
            && |b| <= USB_BUF_SIZE
            && i < |w.places| && w.places[i].at == 0 && PieceAt(b, FramesOf(w.seen), w.places[i])
            && (|b| == USB_BUF_SIZE || (OfClosed(w, i) && b == w.seen.frames[w.places[i].frame]))
  {
    HandOffAlways(acts);
    var w := DoAll(START, acts);
    var b, p := w.sent[i].1, w.places[i];
    assert Stretch(b, w.seen, p, w.cuts);
    assert !CutInside(w, p.frame);
    if |b| < USB_BUF_SIZE {
      assert FramesOf(w.seen)[p.frame] == w.seen.frames[p.frame];
      assert w.seen.frames[p.frame][0..|b|] == b;
    }
  }

  // ----- with the driver in front

  /** For any camera packets with nonzero header lengths and any placement of consume steps
      between callbacks, no buffer sent mixes two frames, and none goes out twice or late. */
  lemma {:induction false} CameraNeverMixesFrames(frameSize: u32, packets: seq<seq<byte>>, acts: seq<Act>)
    requires 1 <= frameSize <= 0x1_0000_0000 - 0x100
    requires forall p | p in packets :: |p| < 0x1_0000_0000 && (p != [] ==> p[0] != 0)
    requires Callbacks(acts) == RunPackets(frameSize, packets).events
    ensures var w := DoAll(START, acts);
            && |w.places| == |w.sent|
            && (forall i | 0 <= i < |w.sent| ::
                  PieceAt(w.sent[i].1, FramesOf(w.seen), w.places[i]) && w.sent[i].1 != [])
            && (forall i, j | 0 <= i < j < |w.sent| :: Before(w.places[i], |w.sent[i].1|, w.places[j]))
  {
    PayloadFramed(frameSize, packets);
    HandOffAlways(acts);
  }

  /** With frames of one size, a buffer sent of a frame that is not cut inside has that size,
      or the slot's size if that is less. */
  lemma {:induction false} UncutSizes(frameSize: u32, packets: seq<seq<byte>>, acts: seq<Act>, i: nat)
    requires 1 <= frameSize <= 0x1_0000_0000 - 0x100
    requires forall p | p in packets :: |p| < 0x1_0000_0000 && (p != [] ==> p[0] != 0)
    requires Callbacks(acts) == RunPackets(frameSize, packets).events
    requires var w := DoAll(START, acts); i < |w.sent| && i < |w.places| && !CutInside(w, w.places[i].frame)
    ensures |DoAll(START, acts).sent[i].1| == Min(frameSize, 0x2_0000)
  {
    PayloadFramed(frameSize, packets);
    SeenCallbacks(acts);
    UncutSendsBeginnings(acts, i);
    var w := DoAll(START, acts);
    var k := w.places[i].frame;
    assert Matches(frameSize, RunPackets(frameSize, packets).d, w.seen);
    if k < |w.seen.frames| {
      assert w.seen.frames[k] in w.seen.frames && FramesOf(w.seen)[k] == w.seen.frames[k];
    }
  }

  // ----- a run that tears a frame

  /** A packet that begins a frame, with a payload header of one byte. */
  lemma HeaderFirst(size: u32, d: Statics, a: seq<byte>)
    requires d.processed == 0 && |a| < USB_BUF_SIZE
    ensures var o := Process(size, Statics(1, 1), [1] + a, 1);
            Process(size, d, [1] + a, 0) == o.(events := [Start, Header([1])] + o.events)
  {
    assert ([1] + a)[0..1] == [1];
  }

  /** The rest of a packet is all that is missing of the frame, */
  lemma AllPayload(size: u32, c: nat, buf: seq<byte>, i: nat, b: seq<byte>)
    requires 0 < |b| == size - c && size < USB_BUF_SIZE && i < |buf| < 0x1_0000_0000 && buf[i..] == b
    ensures Process(size, Statics(1 + c, 1), buf, i) == Outcome(Statics(0, 1), [Data(b), End], false)
  {
    assert Left(size, Statics(1 + c, 1)) == |b| && buf[i..i + |b|] == b;
    assert Process(size, Statics(0, 1), buf, |buf|) == Outcome(Statics(0, 1), [], false);
  }

  /** or less. */
  lemma SomePayload(size: u32, buf: seq<byte>, i: nat, a: seq<byte>)
    requires 0 < |a| < size < USB_BUF_SIZE && i < |buf| < 0x1_0000_0000 && buf[i..] == a
    ensures Process(size, Statics(1, 1), buf, i) == Outcome(Statics(1 + |a|, 1), [Data(a)], false)
  {}

  /** The packets of two frames f and a + b, where the second frame comes in two packets. */
  lemma TwoFrames(f: seq<byte>, a: seq<byte>, b: seq<byte>) returns (packets: seq<seq<byte>>)
    requires 0 < |a| && 0 < |b| && |f| == |a| + |b| < USB_BUF_SIZE && b[0] != 0
    ensures forall p | p in packets :: 0 < |p| < 0x1_0000_0000 && p[0] != 0
    ensures RunPackets(|f|, packets).events ==
            [Start, Header([1]), Data(f), End] + [Start, Header([1]), Data(a)] + [Data(b), End]
  {
    hide Process, RunPackets;
    var p0: seq<seq<byte>> := [];
    var p1 := p0 + [[1] + f];
    var p2 := p1 + [[1] + a];
    packets := p2 + [b];
    assert p1[0] == [1] + f && p2[1] == [1] + a;
    RunNone(|f|);
    HeaderFirst(|f|, RESET, f);
    AllPayload(|f|, 0, [1] + f, 1, f);
    RunNext(|f|, p0, [1] + f);
    HeaderFirst(|f|, Statics(0, 1), a);
    SomePayload(|f|, [1] + a, 1, a);
    RunNext(|f|, p1, [1] + a);
    AllPayload(|f|, |a|, b, 0, b);
    RunNext(|f|, p2, b);
  }

  lemma CallbacksSnoc(acts: seq<Act>, a: Act)
    ensures Callbacks(acts + [a]) == Callbacks(acts) + (if a.Callback? then [a.e] else [])
  {
    assert (acts + [a])[..|acts|] == acts;
  }

  /** A world as far as the torn run is concerned. */
  ghost predicate Stands(acts: seq<Act>, es: seq<Event>, slot: Slot, sent: seq<(byte, seq<byte>)>, seen: Reader) {
    var w := DoAll(START, acts);
    Callbacks(acts) == es && w.slot == slot && w.sent == sent && w.seen == seen
  }

  lemma StandsNext(acts: seq<Act>, es: seq<Event>, slot: Slot, sent: seq<(byte, seq<byte>)>, seen: Reader, e: Event)
    requires Stands(acts, es, slot, sent, seen)
    ensures Stands(acts + [Callback(e)], es + [e], OnEvent(slot, e), sent, seen.Read(e))
  {
    DoSnoc(START, acts, Callback(e));
    CallbacksSnoc(acts, Callback(e));
  }

  lemma StandsTaken(acts: seq<Act>, es: seq<Event>, slot: Slot, sent: seq<(byte, seq<byte>)>, seen: Reader)
    requires Stands(acts, es, slot, sent, seen) && slot.pending
    ensures Stands(acts + [ConsumeStep], es, Slot([], false, slot.id), sent + [(slot.id, slot.bytes)], seen)
  {
    DoSnoc(START, acts, ConsumeStep);
    CallbacksSnoc(acts, ConsumeStep);
    assert es + [] == es;
  }

  lemma CollectsAll(f: seq<byte>, id: byte)
    requires |f| < USB_BUF_SIZE
    ensures OnData(Slot([], false, id), f) == Slot(f, false, id)
  {}

  /** Any frame can be torn, though: a buffer that was still pending when the frame began is
      taken some bytes into it, and the rest b goes out as if it were a frame. */
  lemma {:induction false} TornFrame(f: seq<byte>, a: seq<byte>, b: seq<byte>)
    returns (packets: seq<seq<byte>>, acts: seq<Act>)
    requires 0 < |a| && 0 < |b| && |f| == |a| + |b| < USB_BUF_SIZE && b[0] != 0
    ensures forall p | p in packets :: 0 < |p| < 0x1_0000_0000 && p[0] != 0
    ensures Callbacks(acts) == RunPackets(|f|, packets).events
    ensures DoAll(START, acts).sent == [(1, f), (1, b)] && DoAll(START, acts).seen == Idle([f, a + b])
  {
    packets := TwoFrames(f, a, b);
    var a4 := FirstFrame(f);
    var es := [Start, Header([1]), Data(f), End];
    StandsNext(a4, es, Slot(f, true, 1), [], Idle([f]), Start);
    var a5 := a4 + [Callback(Start)];
    StandsNext(a5, es + [Start], Slot(f, true, 1), [], Open([f], [], 0), Header([1]));
    var a6 := a5 + [Callback(Header([1]))];
    StandsNext(a6, es + [Start] + [Header([1])], Slot(f, true, 1), [], Open([f], [], 0), Data(a));
    assert [] + a == a;
    var es' := es + [Start, Header([1]), Data(a)];
    assert es + [Start] + [Header([1])] + [Data(a)] == es';
    var a7 := a6 + [Callback(Data(a))];
    StandsTaken(a7, es', Slot(f, true, 1), [], Open([f], a, 1));
    acts := SecondFrame(f, a, b, a7 + [ConsumeStep], es');
    assert es' + [Data(b)] + [End] == es' + [Data(b), End];
  }

  lemma FirstFrame(f: seq<byte>) returns (acts: seq<Act>)
    requires 0 < |f| < USB_BUF_SIZE
    ensures Stands(acts, [Start, Header([1]), Data(f), End], Slot(f, true, 1), [], Idle([f]))
  {
    var a0: seq<Act> := [];
    assert Stands(a0, [], EMPTY, [], Idle([]));
    StandsNext(a0, [], EMPTY, [], Idle([]), Start);
    var a1 := a0 + [Callback(Start)];
    StandsNext(a1, [Start], Slot([], false, 1), [], Open([], [], 0), Header([1]));
    var a2 := a1 + [Callback(Header([1]))];
    StandsNext(a2, [Start, Header([1])], Slot([], false, 1), [], Open([], [], 0), Data(f));
    CollectsAll(f, 1);
    assert [] + f == f;
    var a3 := a2 + [Callback(Data(f))];
    StandsNext(a3, [Start, Header([1]), Data(f)], Slot(f, false, 1), [], Open([], f, 1), End);
    acts := a3 + [Callback(End)];
  }

  lemma SecondFrame(f: seq<byte>, a: seq<byte>, b: seq<byte>, a0: seq<Act>, es: seq<Event>) returns (acts: seq<Act>)
    requires 0 < |b| < USB_BUF_SIZE
    requires Stands(a0, es, Slot([], false, 1), [(1, f)], Open([f], a, if a == [] then 0 else 1))
    ensures Stands(acts, es + [Data(b)] + [End], Slot([], false, 1), [(1, f), (1, b)], Idle([f, a + b]))
  {
    var n := if a == [] then 0 else 1;
    StandsNext(a0, es, Slot([], false, 1), [(1, f)], Open([f], a, n), Data(b));
    CollectsAll(b, 1);
    var a1 := a0 + [Callback(Data(b))];
    StandsNext(a1, es + [Data(b)], Slot(b, false, 1), [(1, f)], Open([f], a + b, n + 1), End);
    assert [f] + [a + b] == [f, a + b];
    var a2 := a1 + [Callback(End)];
    StandsTaken(a2, es + [Data(b)] + [End], Slot(b, true, 1), [(1, f)], Idle([f, a + b]));
    acts := a2 + [ConsumeStep];
  }
}
