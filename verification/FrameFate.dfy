/** When a frame gets through: which closed frames are sent whole, over every interleaving of
    the driver's callbacks with consume steps (cc3000_basic_wifi_application.c). */
module FrameFate {
  import opened Bytes
  import opened UvcPayload
  import opened FrameSlot
  import opened HandOff

  /** The act brings the first bytes of the k-th frame. */
  ghost predicate FirstBytes(w: World, a: Act, k: nat) {
    w.seen.Open? && |w.seen.frames| == k && w.seen.cur == [] && a.Callback? && a.e.Data?
  }

  /** They found the slot free. */
  ghost predicate FoundFree(acts: seq<Act>, k: nat) {
    acts != [] &&
    var w, a := DoAll(START, acts[..|acts| - 1]), acts[|acts| - 1];
    FoundFree(acts[..|acts| - 1], k) || (FirstBytes(w, a, k) && !w.slot.pending)
  }

  /** The time in which the k-th frame, of the given size, can be fetched: from its end to the
      next one's end; or, when it fills the slot exactly, from its last byte to its own end. */
  ghost predicate Due(r: Reader, k: nat, size: nat) {
    if size < USB_BUF_SIZE then !r.Bad? && |r.frames| == k + 1
    else r.Open? && |r.frames| == k && |r.cur| == size
  }

  /** A consume step came in that time. */
  ghost predicate Fetched(acts: seq<Act>, k: nat, size: nat) {
    acts != [] &&
    var w, a := DoAll(START, acts[..|acts| - 1]), acts[|acts| - 1];
    Fetched(acts[..|acts| - 1], k, size) || (a == ConsumeStep && Due(w.seen, k, size))
  }

  /** The k-th frame has been sent, whole. */
  ghost predicate SentWhole(w: World, k: nat) {
    k < |FramesOf(w.seen)| && exists i :: SentAs(w, i, k) && w.sent[i].1 == FramesOf(w.seen)[k]
  }

  /** The i-th buffer sent begins with the k-th frame. */
  ghost predicate SentAs(w: World, i: int, k: nat) {
    0 <= i < |w.sent| && i < |w.places| && w.places[i] == Place(k, 0)
  }

  /** Nothing that begins with the k-th frame has been sent, */
  ghost predicate NotSent(w: World, k: nat) {
    forall i :: !SentAs(w, i, k)
  }

  /** nor is it in the slot. */
  ghost predicate Gone(w: World, k: nat) {
    NotSent(w, k) && (InUse(w) ==> w.place != Place(k, 0))
  }

  /** The k-th frame has the given size, or may still come to it. */
  ghost predicate Sized(r: Reader, k: nat, size: nat) {
    && !r.Bad?
    && (k < |FramesOf(r)| ==> |FramesOf(r)[k]| <= size)
    && (k < |r.frames| ==> |r.frames[k]| == size)
  }

  ghost predicate Begun(r: Reader, k: nat) {
    k < |FramesOf(r)| && FramesOf(r)[k] != []
  }

  /** The frame is in the slot from its first byte on. */
  ghost predicate Held(w: World, k: nat)
    requires k < |FramesOf(w.seen)|
  {
    && w.place == Place(k, 0) && w.slot.bytes == FramesOf(w.seen)[k]
    && (w.slot.pending <==> |w.seen.frames| > k || |w.slot.bytes| == USB_BUF_SIZE)
  }

  /** Where the k-th frame stands. */
  ghost predicate Fate(w: World, k: nat, size: nat, found: bool, fetched: bool) {
    if !Begun(w.seen, k) then !found && !fetched
    else if !found then Gone(w, k)
    else if fetched then SentWhole(w, k) && |FramesOf(w.seen)[k]| == size
    else NotSent(w, k) &&
         if |w.seen.frames| == k || (|w.seen.frames| == k + 1 && size < USB_BUF_SIZE) then Held(w, k) else Gone(w, k)
  }

  // ----- each act keeps it so

  /** What has no bytes yet has not been sent and is not pending. */
  lemma UnbegunNotSent(w: World, k: nat)
    requires Orderly(w) && !Begun(w.seen, k)
    ensures NotSent(w, k) && (w.slot.pending ==> w.place != Place(k, 0))
  {
    forall i | 0 <= i < |w.sent| ensures w.places[i] != Place(k, 0) {
      assert Stretch(w.sent[i].1, w.seen, w.places[i], w.cuts);
    }
  }

  lemma SentByTake(w: World, k: nat, i: int)
    requires Orderly(w) && w.slot.pending
    ensures var w' := Do(w, ConsumeStep);
            && |w'.sent| == |w'.places| == |w.sent| + 1 && w'.sent[|w.sent|].1 == w.slot.bytes
            && (SentAs(w', i, k) <==> SentAs(w, i, k) || (i == |w.sent| && w.place == Place(k, 0)))
            && (SentAs(w, i, k) ==> w'.sent[i] == w.sent[i])
  {}

  /** A consume step that takes the frame's own buffer, */
  lemma TakenSelf(w: World, k: nat)
    requires Orderly(w) && w.slot.pending && w.place == Place(k, 0) && k < |FramesOf(w.seen)|
    requires w.slot.bytes == FramesOf(w.seen)[k]
    ensures SentWhole(Do(w, ConsumeStep), k)
  {
    SentByTake(w, k, |w.sent|);
    assert SentAs(Do(w, ConsumeStep), |w.sent|, k);
  }

  /** or another. */
  lemma TakenOther(w: World, k: nat)
    requires Orderly(w) && w.slot.pending
    ensures SentWhole(w, k) ==> SentWhole(Do(w, ConsumeStep), k)
    ensures Gone(w, k) && Begun(w.seen, k) ==> Gone(Do(w, ConsumeStep), k)
  {
    var w' := Do(w, ConsumeStep);
    if SentWhole(w, k) {
      var i :| SentAs(w, i, k) && w.sent[i].1 == FramesOf(w.seen)[k];
      SentByTake(w, k, i);
    }
    if Gone(w, k) {
      forall i ensures !SentAs(w', i, k) {
        SentByTake(w, k, i);
      }
    }
  }

  lemma FateConsumed(w: World, k: nat, size: nat, found: bool, fetched: bool)
    requires Orderly(w) && Sized(w.seen, k, size) && 0 < size <= USB_BUF_SIZE && Fate(w, k, size, found, fetched)
    ensures Fate(Do(w, ConsumeStep), k, size, found, fetched || Due(w.seen, k, size))
  {
    hide Orderly, SentWhole, NotSent;
    if w.slot.pending {
      TakenOther(w, k);
      if Begun(w.seen, k) && found && !fetched && Held(w, k) {
        TakenSelf(w, k);
        assert Due(w.seen, k, size);
      }
    } else {
      assert Do(w, ConsumeStep) == w;
    }
  }

  /** A callback changes nothing that has been sent. */
  lemma CallbackSends(w: World, k: nat, e: Event)
    requires Orderly(w) && !w.seen.Read(e).Bad?
    ensures NotSent(w, k) ==> NotSent(Do(w, Callback(e)), k)
    ensures SentWhole(w, k) && FramesOf(w.seen.Read(e))[k] == FramesOf(w.seen)[k] ==> SentWhole(Do(w, Callback(e)), k)
  {
    var w' := Do(w, Callback(e));
    assert forall i :: SentAs(w, i, k) <==> SentAs(w', i, k);
    if SentWhole(w, k) && FramesOf(w'.seen)[k] == FramesOf(w.seen)[k] {
      var i :| SentAs(w, i, k) && w.sent[i].1 == FramesOf(w.seen)[k];
      assert SentAs(w', i, k);
    }
  }

  lemma FateStarted(w: World, k: nat, size: nat, found: bool, fetched: bool)
    requires Orderly(w) && Fate(w, k, size, found, fetched) && !w.seen.Read(Start).Bad?
    ensures Fate(Do(w, Callback(Start)), k, size, found, fetched)
  {
    CallbackSends(w, k, Start);
    hide NotSent, SentWhole, Orderly;
  }

  lemma FateEnded(w: World, k: nat, size: nat, found: bool, fetched: bool)
    requires Orderly(w) && Fate(w, k, size, found, fetched) && !w.seen.Read(End).Bad?
    requires Sized(w.seen.Read(End), k, size) && 0 < size <= USB_BUF_SIZE
    ensures Fate(Do(w, Callback(End)), k, size, found, fetched)
  {
    CallbackSends(w, k, End);
    hide NotSent, SentWhole, Orderly;
  }

  lemma FateFed(w: World, k: nat, size: nat, found: bool, fetched: bool, b: seq<byte>)
    requires Orderly(w) && Fate(w, k, size, found, fetched) && !w.seen.Read(Data(b)).Bad?
    requires Sized(w.seen.Read(Data(b)), k, size) && 0 < size <= USB_BUF_SIZE
    ensures var first := FirstBytes(w, Callback(Data(b)), k) && !w.slot.pending;
            Fate(Do(w, Callback(Data(b))), k, size, found || first, fetched)
  {
    CallbackSends(w, k, Data(b));
    if !Begun(w.seen, k) {
      UnbegunNotSent(w, k);
    }
    hide NotSent, SentWhole;
  }

  lemma {:induction false} FateAlways(acts: seq<Act>, k: nat, size: nat)
    requires Sized(DoAll(START, acts).seen, k, size) && 0 < size <= USB_BUF_SIZE
    ensures Orderly(DoAll(START, acts))
    ensures Fate(DoAll(START, acts), k, size, FoundFree(acts, k), Fetched(acts, k, size))
  {
    OrderlyAlways(acts);
    if acts != [] {
      var init, a := acts[..|acts| - 1], acts[|acts| - 1];
      var w := DoAll(START, init);
      GoodBefore(acts);
      SizedBefore(w.seen, a, k, size);
      FateAlways(init, k, size);
      hide DoAll, Fate, Orderly, Sized;
      var found, fetched := FoundFree(init, k), Fetched(init, k, size);
      match a
      case ConsumeStep => FateConsumed(w, k, size, found, fetched);
      case Callback(Start) => FateStarted(w, k, size, found, fetched);
      case Callback(Header(_)) => FateHeader(w, k, size, found, fetched, a.e);
      case Callback(Data(b)) => FateFed(w, k, size, found, fetched, b);
      case Callback(End) => FateEnded(w, k, size, found, fetched);
    }
  }

  lemma SizedBefore(r: Reader, a: Act, k: nat, size: nat)
    requires !r.Bad? && (a.Callback? ==> Sized(r.Read(a.e), k, size)) && (a.ConsumeStep? ==> Sized(r, k, size))
    ensures Sized(r, k, size)
  {
    if a.Callback? && k < |FramesOf(r)| {
      FramesGrow(r, a.e, k);
    }
  }

  lemma FateHeader(w: World, k: nat, size: nat, found: bool, fetched: bool, e: Event)
    requires Orderly(w) && Fate(w, k, size, found, fetched) && e.Header? && !w.seen.Read(e).Bad?
    ensures Fate(Do(w, Callback(e)), k, size, found, fetched)
  {
    CallbackSends(w, k, e);
    hide NotSent, SentWhole, Orderly;
  }

  /** Over every interleaving of well-formed callbacks with consume steps, a closed frame has
      been sent whole if and only if it fits the slot, its first bytes found the slot free, and
      a consume step came before the next frame ended (for a frame that fills the slot: before
      it ended itself). */
  lemma {:induction false} SentWholeExactly(acts: seq<Act>, k: nat)
    requires var r := DoAll(START, acts).seen; !r.Bad? && k < |r.frames|
    ensures var w := DoAll(START, acts);
            var size := |w.seen.frames[k]|;
            SentWhole(w, k) <==> size <= 0x2_0000 && FoundFree(acts, k) && Fetched(acts, k, size)
  {
    OrderlyAlways(acts);
    var w := DoAll(START, acts);
    var size := |w.seen.frames[k]|;
    assert FramesOf(w.seen)[k] == w.seen.frames[k];
    if size > USB_BUF_SIZE {
      TooLong(w, k);
    } else {
      ClosedNonempty(acts, k);
      FateAlways(acts, k, size);
      hide DoAll, Orderly, FoundFree, Fetched;
      assert Begun(w.seen, k);
      if SentWhole(w, k) {
        var i :| SentAs(w, i, k);
        assert !NotSent(w, k);
      }
    }
  }

  lemma TooLong(w: World, k: nat)
    requires Orderly(w) && k < |w.seen.frames| && |FramesOf(w.seen)[k]| > USB_BUF_SIZE
    ensures !SentWhole(w, k)
  {
    forall i | 0 <= i < |w.sent| ensures |w.sent[i].1| <= USB_BUF_SIZE {
      assert Stretch(w.sent[i].1, w.seen, w.places[i], w.cuts);
    }
  }

  /** A closed frame has bytes. */
  lemma {:induction false} ClosedNonempty(acts: seq<Act>, k: nat)
    requires !DoAll(START, acts).seen.Bad? && k < |DoAll(START, acts).seen.frames|
    ensures DoAll(START, acts).seen.frames[k] != []
  {
    PiecesHaveBytes(acts);
  }

  lemma {:induction false} PiecesHaveBytes(acts: seq<Act>)
    requires !DoAll(START, acts).seen.Bad?
    ensures HaveBytes(DoAll(START, acts).seen)
  {
    if acts != [] {
      GoodBefore(acts);
      PiecesHaveBytes(acts[..|acts| - 1]);
    }
  }

  ghost predicate HaveBytes(r: Reader)
    requires !r.Bad?
  {
    (forall k | 0 <= k < |r.frames| :: r.frames[k] != []) && (r.Open? && r.pieces > 0 ==> r.cur != [])
  }

  /** With the driver in front: for any camera packets with nonzero header lengths and any
      placement of consume steps. */
  lemma {:induction false} CameraFrameExactly(frameSize: u32, packets: seq<seq<byte>>, acts: seq<Act>, k: nat)
    requires 1 <= frameSize <= 0x1_0000_0000 - 0x100
    requires forall p | p in packets :: |p| < 0x1_0000_0000 && (p != [] ==> p[0] != 0)
    requires Callbacks(acts) == RunPackets(frameSize, packets).events
    ensures var w := DoAll(START, acts);
            && !w.seen.Bad?
            && (k < |w.seen.frames| ==>
                  (SentWhole(w, k) <==> frameSize <= 0x2_0000 && FoundFree(acts, k) && Fetched(acts, k, frameSize)))
  {
    PayloadFramed(frameSize, packets);
    SeenCallbacks(acts);
    var w := DoAll(START, acts);
    assert Matches(frameSize, RunPackets(frameSize, packets).d, w.seen);
    if k < |w.seen.frames| {
      assert w.seen.frames[k] in w.seen.frames;
      SentWholeExactly(acts, k);
    }
  }
}
