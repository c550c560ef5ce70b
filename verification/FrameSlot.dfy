/** The one-slot frame hand-off between the camera driver's callbacks and the sender
    (cc3000_basic_wifi_application.c: uvc_start_cb, uvc_data_cb, uvc_end_cb and the
    consume step of main). */
module FrameSlot {
  import opened Bytes
  import opened UvcPayload

  const USB_BUF_SIZE := 128 * 1024

  /** The slot: bytes being collected, or (when pending) bytes waiting to be sent. */
  datatype Slot = Slot(bytes: seq<byte>, pending: bool, id: byte)

  const EMPTY := Slot([], false, 0)

  /** IDs run 1, 2, ..., 255, 1, ... */
  function NextID(id: byte): byte {
    if id == 255 then 1 else id + 1
  }

  function OnStart(s: Slot): Slot {
    if s.pending then s else s.(id := NextID(s.id))
  }

  function OnData(s: Slot, b: seq<byte>): Slot {
    if s.pending then s
    else
      var bytes := s.bytes + b[..Min(|b|, if |s.bytes| < USB_BUF_SIZE then USB_BUF_SIZE - |s.bytes| else 0)];
      Slot(bytes, |bytes| == USB_BUF_SIZE, s.id)
  }

  /** Unconditional: a slot that is already pending is emptied. */
  function OnEnd(s: Slot): Slot {
    if s.pending || s.bytes == [] then Slot([], false, s.id) else s.(pending := true)
  }

  function OnEvent(s: Slot, e: Event): Slot {
    match e
    case Start => OnStart(s)
    case Data(b) => OnData(s, b)
    case End => OnEnd(s)
    case Header(_) => s
  }

  class UsbBuffer {
    const buf: array<byte>
    var len: nat
    var i: nat
    var pktId: byte

    /** A pending buffer and a partly filled one never coexist. */
    ghost predicate Valid()
      reads this, buf
    {
      buf.Length == USB_BUF_SIZE && len <= USB_BUF_SIZE && i < USB_BUF_SIZE && (len > 0 ==> i == 0)
    }

    ghost function View(): Slot
      reads this, buf
      requires Valid()
    {
      if len > 0 then Slot(buf[..len], true, pktId) else Slot(buf[..i], false, pktId)
    }

    constructor ()
      ensures Valid() && View() == EMPTY && fresh(buf)
    {
      buf := new byte[USB_BUF_SIZE](_ => 0);
      len, i, pktId := 0, 0, 0;
    }

    method StartCb()
      requires Valid()
      modifies this`pktId
      ensures Valid() && View() == OnStart(old(View()))
    {
      if len != 0 {
        return;
      }
      if pktId == 255 {
        pktId := 1;
      } else {
        pktId := pktId + 1;
      }
    }

    method DataCb(b: seq<byte>)
      requires Valid()
      modifies this`len, this`i, buf
      ensures Valid() && View() == OnData(old(View()), b)
    {
      if len != 0 {
        return;
      }
      var k := 0;
      while k < |b| && i < USB_BUF_SIZE
        invariant 0 <= k <= |b| && i == old(i) + k <= USB_BUF_SIZE && len == 0
        invariant buf[..i] == old(buf[..i]) + b[..k]
      {
        buf[i] := b[k];
        i := i + 1;
        k := k + 1;
      }
      if i == USB_BUF_SIZE {
        Close();
      }
    }

    method Close()
      modifies this`len, this`i
      ensures len == old(i) && i == 0
    {
      len := i;
      i := 0;
    }

    method EndCb()
      requires Valid()
      modifies this`len, this`i
      ensures Valid() && View() == OnEnd(old(View()))
    {
      Close();
    }

    /** The consume step: hand a pending buffer to the sender and free the slot. */
    method Consume() returns (sent: Option<(byte, seq<byte>)>)
      requires Valid()
      modifies this`len
      ensures Valid() && (View(), sent) == Take(old(View()))
    {
      sent := None;
      if len > 0 {
        sent := Some((pktId, buf[..len]));
        len := 0;
      }
    }
  }

  function Take(s: Slot): (Slot, Option<(byte, seq<byte>)>) {
    if s.pending then (Slot([], false, s.id), Some((s.id, s.bytes))) else (s, None)
  }

  // ----- every interleaving of callbacks and consume steps

  datatype Act = Callback(e: Event) | ConsumeStep

  /** A place in the payload: a frame, counted from 0, and how many of its bytes come before. */
  datatype Place = Place(frame: int, at: int)

  /** The slot, what has been sent, and a reader of the callbacks. For the record: where the
      bytes in the slot begin, where the buffers sent began, and how far the open frame had
      come whenever a consume step took a buffer inside it. */
  datatype World = World(slot: Slot, sent: seq<(byte, seq<byte>)>, seen: Reader,
                         place: Place, places: seq<Place>, cuts: seq<Place>)

  const START := World(EMPTY, [], Idle([]), Place(0, 0), [], [])

  function Do(w: World, a: Act): World {
    match a
    case Callback(e) =>
      w.(slot := OnEvent(w.slot, e), seen := w.seen.Read(e),
         place := if e == Start && w.seen.Idle? && !w.slot.pending then Place(|w.seen.frames|, 0) else w.place)
    case ConsumeStep =>
      var (slot, out) := Take(w.slot);
      if out.None? then w.(slot := slot)
      else
        var w' := w.(slot := slot, sent := w.sent + [out.value], places := w.places + [w.place]);
        if w.seen.Open? then
          var cut := Place(|w.seen.frames|, |w.seen.cur|);
          w'.(place := cut, cuts := w.cuts + [cut])
        else w'
  }

  function DoAll(w: World, acts: seq<Act>): World {
    if acts == [] then w else Do(DoAll(w, acts[..|acts| - 1]), acts[|acts| - 1])
  }

  /** The callbacks of an interleaving, in order. */
  function Callbacks(acts: seq<Act>): seq<Event> {
    if acts == [] then []
    else
      var n := |acts| - 1;
      Callbacks(acts[..n]) + match acts[n] case Callback(e) => [e] case ConsumeStep => []
  }

  lemma DoSnoc(w: World, acts: seq<Act>, a: Act)
    ensures DoAll(w, acts + [a]) == Do(DoAll(w, acts), a)
  {
    assert (acts + [a])[..|acts|] == acts;
  }

  lemma {:induction false} SeenCallbacks(acts: seq<Act>)
    ensures DoAll(START, acts).seen == ReadAll(Idle([]), Callbacks(acts))
  {
    if acts != [] {
      var n := |acts| - 1;
      SeenCallbacks(acts[..n]);
      if acts[n].Callback? {
        ReadSnoc(Idle([]), Callbacks(acts[..n]), acts[n].e);
      } else {
        assert Callbacks(acts[..n]) + [] == Callbacks(acts[..n]);
      }
    }
  }

  lemma ReadSnoc(r: Reader, es: seq<Event>, e: Event)
    ensures ReadAll(r, es + [e]) == ReadAll(r, es).Read(e)
  {
    ReadAppend(r, es, [e]);
    assert [e][1..] == [];
    assert ReadAll(ReadAll(r, es), [e]) == ReadAll(ReadAll(r, es).Read(e), []);
  }

  // ----- when a frame gets through whole

  /** The slot after consecutive data callbacks. */
  function Feed(s: Slot, pieces: seq<seq<byte>>): Slot {
    if pieces == [] then s else OnData(Feed(s, pieces[..|pieces| - 1]), pieces[|pieces| - 1])
  }

  lemma {:induction false} FeedCollects(s: Slot, pieces: seq<seq<byte>>)
    requires !s.pending && s.bytes == []
    ensures var p := Flatten(pieces);
            Feed(s, pieces) == if |p| < USB_BUF_SIZE then Slot(p, false, s.id) else Slot(p[..USB_BUF_SIZE], true, s.id)
  {
    if pieces != [] {
      FeedCollects(s, pieces[..|pieces| - 1]);
    }
  }

  /** A frame that starts on an empty slot and is not interrupted by a consume step is
      handed over whole, under a new ID, exactly when it is smaller than the slot;
      from 128 KiB on its own end callback discards it. */
  lemma WholeFrameExactly(s: Slot, pieces: seq<seq<byte>>)
    requires !s.pending && s.bytes == [] && Flatten(pieces) != []
    ensures var s' := OnEnd(Feed(OnStart(s), pieces));
            if |Flatten(pieces)| < 0x2_0000 then s' == Slot(Flatten(pieces), true, NextID(s.id))
            else s' == Slot([], false, NextID(s.id))
  {
    FeedCollects(OnStart(s), pieces);
  }

  /** A frame that starts on a pending slot changes nothing until its end, and then
      destroys the frame that was waiting. */
  lemma {:induction false} PendingFrameLost(s: Slot, pieces: seq<seq<byte>>)
    requires s.pending
    ensures Feed(OnStart(s), pieces) == s && OnEnd(s) == Slot([], false, s.id)
  {
    if pieces != [] {
      PendingFrameLost(s, pieces[..|pieces| - 1]);
    }
  }
}
