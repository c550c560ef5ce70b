/** The IDs under which frames are sent (uvc_start_cb counts them, the sender reads the
    counter), and when two buffers go out under the same one. */
module FrameIDs {
  import opened Bytes
  import opened UvcPayload
  import opened FrameSlot
  import opened HandOff

  /** How many start callbacks found the slot free. */
  function FreeStarts(acts: seq<Act>): nat {
    if acts == [] then 0
    else
      var n := |acts| - 1;
      FreeStarts(acts[..n]) + if acts[n] == Callback(Start) && !DoAll(START, acts[..n]).slot.pending then 1 else 0
  }

  /** The ID in force after n such starts. */
  function IDAfter(n: nat): byte {
    if n == 0 then 0 else (n - 1) % 255 + 1
  }

  lemma IDAfterNext(n: nat)
    ensures IDAfter(n + 1) == NextID(IDAfter(n))
  {}

  ghost predicate WholeTurns(n: int) {
    n % 255 == 0
  }

  lemma IDAfterRepeats(m: nat, n: nat)
    requires 1 <= m <= n
    ensures IDAfter(m) == IDAfter(n) <==> WholeTurns(n - m)
  {
    var q, r := (n - 1) / 255 - (m - 1) / 255, (n - 1) % 255 - (m - 1) % 255;
    assert n - m == 255 * q + r;
    if r == 0 {
      assert (n - m) / 255 == q;
    }
  }

  ghost function IDNow(acts: seq<Act>): byte {
    DoAll(START, acts).slot.id
  }

  lemma {:induction false} IDCountsFreeStarts(acts: seq<Act>)
    ensures IDNow(acts) == IDAfter(FreeStarts(acts))
  {
    if acts != [] {
      IDCountsFreeStarts(acts[..|acts| - 1]);
      IDAfterNext(FreeStarts(acts[..|acts| - 1]));
    }
  }

  lemma {:induction false} FreeStartsGrow(before: seq<Act>, after: seq<Act>)
    requires before <= after
    ensures FreeStarts(before) <= FreeStarts(after)
    decreases |after|
  {
    if |before| < |after| {
      FreeStartsGrow(before, after[..|after| - 1]);
    } else {
      assert before == after;
    }
  }

  /** Nothing is collected before a frame has started on the free slot. */
  lemma {:induction false} NothingBeforeStart(acts: seq<Act>)
    requires !DoAll(START, acts).seen.Bad? && FreeStarts(acts) == 0
    ensures DoAll(START, acts).seen == Idle([]) && DoAll(START, acts).slot == EMPTY
  {
    if acts != [] {
      GoodBefore(acts);
      NothingBeforeStart(acts[..|acts| - 1]);
    }
  }

  /** Two consume steps that each take a buffer, after `before` and after `mid` more acts. */
  ghost predicate TwoSends(before: seq<Act>, mid: seq<Act>) {
    var after := before + [ConsumeStep] + mid;
    && !DoAll(START, after).seen.Bad?
    && DoAll(START, before).slot.pending && DoAll(START, after).slot.pending
  }

  /** A consume step sends a pending buffer under the ID that the free starts have reached. */
  lemma SendsID(acts: seq<Act>)
    requires DoAll(START, acts).slot.pending
    ensures var w := DoAll(START, acts);
            DoAll(START, acts + [ConsumeStep]).sent == w.sent + [(IDAfter(FreeStarts(acts)), w.slot.bytes)]
  {
    DoSnoc(START, acts, ConsumeStep);
    IDCountsFreeStarts(acts);
  }

  lemma {:induction false} SentGrows(acts: seq<Act>, more: seq<Act>)
    ensures DoAll(START, acts).sent <= DoAll(START, acts + more).sent
  {
    if more == [] {
      assert acts + more == acts;
    } else {
      var n := |more| - 1;
      SentGrows(acts, more[..n]);
      assert acts + more == (acts + more[..n]) + [more[n]];
      DoSnoc(START, acts + more[..n], more[n]);
    }
  }

  lemma {:induction false} GoodPrefix(acts: seq<Act>, more: seq<Act>)
    requires !DoAll(START, acts + more).seen.Bad?
    ensures !DoAll(START, acts).seen.Bad?
    decreases |more|
  {
    if more == [] {
      assert acts + more == acts;
    } else {
      var n := |more| - 1;
      assert (acts + more)[..|acts| + n] == acts + more[..n];
      GoodBefore(acts + more);
      GoodPrefix(acts, more[..n]);
    }
  }

  /** Both buffers, with their IDs, among those sent. */
  lemma SentTwice(before: seq<Act>, mid: seq<Act>)
    requires TwoSends(before, mid)
    ensures var after := before + [ConsumeStep] + mid;
            var b, a, w := DoAll(START, before), DoAll(START, after), DoAll(START, after + [ConsumeStep]);
            && |b.sent| < |a.sent| && |w.sent| == |a.sent| + 1
            && w.sent[|b.sent|] == (IDAfter(FreeStarts(before)), b.slot.bytes)
            && w.sent[|a.sent|] == (IDAfter(FreeStarts(after)), a.slot.bytes)
  {
    hide DoAll, FreeStarts;
    SendsID(before);
    SendsID(before + [ConsumeStep] + mid);
    SentGrows(before + [ConsumeStep], mid);
  }

  lemma FreeStartsBetween(before: seq<Act>, mid: seq<Act>)
    requires TwoSends(before, mid)
    ensures 1 <= FreeStarts(before) <= FreeStarts(before + [ConsumeStep] + mid)
  {
    var after := before + [ConsumeStep] + mid;
    assert before + ([ConsumeStep] + mid) == after;
    GoodPrefix(before, [ConsumeStep] + mid);
    if FreeStarts(before) == 0 {
      NothingBeforeStart(before);
    }
    FreeStartsGrow(before, after);
  }

  /** The two buffers go out under one ID exactly when the frames that started on a free slot
      between the two consume steps number a multiple of 255, none included. */
  lemma {:induction false} SameIDExactly(before: seq<Act>, mid: seq<Act>)
    requires TwoSends(before, mid)
    ensures var after := before + [ConsumeStep] + mid;
            var b, a, w := DoAll(START, before), DoAll(START, after), DoAll(START, after + [ConsumeStep]);
            && |b.sent| < |a.sent| && |w.sent| == |a.sent| + 1
            && w.sent[|b.sent|].1 == b.slot.bytes && w.sent[|a.sent|].1 == a.slot.bytes
            && (w.sent[|b.sent|].0 == w.sent[|a.sent|].0 <==> WholeTurns(FreeStarts(after) - FreeStarts(before)))
  {
    hide DoAll, FreeStarts, TwoSends, IDAfter, WholeTurns;
    SentTwice(before, mid);
    FreeStartsBetween(before, mid);
    IDAfterRepeats(FreeStarts(before), FreeStarts(before + [ConsumeStep] + mid));
  }

  // ----- consecutive sends

  /** No act of `mid` sends anything. */
  ghost predicate Quiet(before: seq<Act>, mid: seq<Act>) {
    DoAll(START, before + [ConsumeStep] + mid).sent == DoAll(START, before + [ConsumeStep]).sent
  }

  /** After a consume step that came when m frames were closed and the next was or was not
      open: until a frame starts on a free slot, the slot holds bytes of that open frame only;
      from then on, bytes of later frames only. */
  ghost predicate Since(open: bool, m: nat, w: World, free: bool) {
    && !w.seen.Bad? && |w.seen.frames| >= m && (open && w.seen.Idle? ==> |w.seen.frames| > m)
    && (w.seen.Open? && !w.slot.pending ==> w.place.frame == |w.seen.frames|)
    && if free then open ==> |w.seen.frames| > m && (InUse(w) ==> w.place.frame > m)
       else if w.slot.pending then open && w.place.frame == m
       else w.seen.Open? ==> open && |w.seen.frames| == m
  }

  lemma SinceNext(open: bool, m: nat, w: World, free: bool, e: Event)
    requires Since(open, m, w, free) && !w.seen.Read(e).Bad?
    ensures Since(open, m, Do(w, Callback(e)), free || (e == Start && !w.slot.pending))
  {}

  lemma SinceStart(before: seq<Act>)
    requires DoAll(START, before).slot.pending && !DoAll(START, before + [ConsumeStep]).seen.Bad?
    ensures var b := DoAll(START, before);
            !b.seen.Bad? && Since(b.seen.Open?, |b.seen.frames|, DoAll(START, before + [ConsumeStep]), false)
    ensures FreeStarts(before + [ConsumeStep]) == FreeStarts(before)
  {
    assert (before + [ConsumeStep])[..|before|] == before;
  }

  lemma FreeStartsNext(acts: seq<Act>, a: Act)
    ensures FreeStarts(acts + [a]) ==
            FreeStarts(acts) + if a == Callback(Start) && !DoAll(START, acts).slot.pending then 1 else 0
  {
    hide DoAll;
    assert (acts + [a])[..|acts|] == acts;
  }

  /** A consume step that sends nothing changes nothing. */
  lemma IdleConsume(w: World)
    requires Do(w, ConsumeStep).sent == w.sent
    ensures Do(w, ConsumeStep) == w
  {}

  lemma {:induction false} SinceAlways(before: seq<Act>, mid: seq<Act>)
    requires DoAll(START, before).slot.pending
    requires !DoAll(START, before + [ConsumeStep] + mid).seen.Bad? && Quiet(before, mid)
    ensures var b := DoAll(START, before);
            var after := before + [ConsumeStep] + mid;
            && !b.seen.Bad?
            && Since(b.seen.Open?, |b.seen.frames|, DoAll(START, after), FreeStarts(after) > FreeStarts(before))
  {
    hide DoAll, FreeStarts, Since;
    var step := before + [ConsumeStep];
    if mid == [] {
      assert step + mid == step;
      SinceStart(before);
    } else {
      var n := |mid| - 1;
      var init := step + mid[..n];
      assert step + mid == init + [mid[n]];
      GoodPrefix(init, [mid[n]]);
      SentGrows(step, mid[..n]);
      SentGrows(init, [mid[n]]);
      SinceAlways(before, mid[..n]);
      assert init == before + ([ConsumeStep] + mid[..n]);
      FreeStartsGrow(before, init);
      DoSnoc(START, init, mid[n]);
      FreeStartsNext(init, mid[n]);
      if mid[n] == ConsumeStep {
        IdleConsume(DoAll(START, init));
      } else {
        var b := DoAll(START, before).seen;
        SinceNext(b.Open?, |b.frames|, DoAll(START, init), FreeStarts(init) > FreeStarts(before), mid[n].e);
      }
    }
  }

  /** Of two buffers sent one after the other, no frame started on a free slot in between
      exactly when the second buffer is of the frame that was open when the first was taken. */
  lemma {:induction false} NoFreeStartExactly(before: seq<Act>, mid: seq<Act>)
    requires TwoSends(before, mid) && Quiet(before, mid)
    ensures var after := before + [ConsumeStep] + mid;
            var b, w := DoAll(START, before), DoAll(START, after + [ConsumeStep]);
            && !b.seen.Bad? && |w.places| == |b.sent| + 2
            && (FreeStarts(after) == FreeStarts(before) <==>
                  b.seen.Open? && w.places[|b.sent| + 1].frame == |b.seen.frames|)
  {
    var after := before + [ConsumeStep] + mid;
    SinceAlways(before, mid);
    FreeStartsGrow(before, after);
    SendsID(before);
    OrderlyAlways(after);
    DoSnoc(START, after, ConsumeStep);
  }

  /** So two buffers sent one after the other share an ID exactly when the second is of the
      frame inside which the first was taken (the rest of the first's own frame, or a later
      frame that had started on the pending slot), or when the frames that started on a free
      slot in between are 255, 510, ... */
  lemma {:induction false} ConsecutiveIDsExactly(before: seq<Act>, mid: seq<Act>)
    requires TwoSends(before, mid) && Quiet(before, mid)
    ensures var after := before + [ConsumeStep] + mid;
            var b, w := DoAll(START, before), DoAll(START, after + [ConsumeStep]);
            var i, free := |b.sent|, FreeStarts(after) - FreeStarts(before);
            && !b.seen.Bad? && |w.places| == |w.sent| == i + 2
            && (w.sent[i].0 == w.sent[i + 1].0 <==>
                  (b.seen.Open? && w.places[i + 1].frame == |b.seen.frames|) || (free > 0 && WholeTurns(free)))
  {
    hide DoAll, FreeStarts;
    SameIDExactly(before, mid);
    NoFreeStartExactly(before, mid);
    FreeStartsBetween(before, mid);
    SendsID(before);
  }

  /** Two different frames can go out whole under one ID: the second starts while the first is
      still pending, and the consume step comes before its first byte. */
  lemma {:induction false} StaleID(f: seq<byte>, g: seq<byte>) returns (acts: seq<Act>)
    requires 0 < |f| < USB_BUF_SIZE && 0 < |g| < USB_BUF_SIZE
    ensures DoAll(START, acts).sent == [(1, f), (1, g)] && DoAll(START, acts).seen == Idle([f, g])
  {
    var a0 := FirstFrame(f);
    var es := [Start, Header([1]), Data(f), End];
    StandsNext(a0, es, Slot(f, true, 1), [], Idle([f]), Start);
    var a1 := a0 + [Callback(Start)];
    StandsTaken(a1, es + [Start], Slot(f, true, 1), [], Open([f], [], 0));
    acts := SecondFrame(f, [], g, a1 + [ConsumeStep], es + [Start]);
    assert [] + g == g;
  }
}
