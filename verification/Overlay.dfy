/** Reassembling a frame by overlaying its packets (BaseStation/client.cpp,
    assembleFrame, and the per-ID loop of BaseStation/examine.cpp). */
module Overlay {
  import opened Bytes
  import opened Packets

  ghost predicate Covers(p: Pkt, k: int) {
    p.offset <= k < p.offset + |p.data|
  }

  /** The buffer after one packet has been laid over it, growing with zeros. */
  function Lay(raw: seq<byte>, p: Pkt): seq<byte> {
    seq(Max(|raw|, p.offset + |p.data|), k requires 0 <= k =>
      if p.offset <= k < p.offset + |p.data| then p.data[k - p.offset]
      else if k < |raw| then raw[k]
      else 0)
  }

  /** The reassembled buffer: the packets laid over each other in arrival order. */
  function Overlaid(pkts: seq<Pkt>): seq<byte> {
    if pkts == [] then [] else Lay(Overlaid(pkts[..|pkts| - 1]), pkts[|pkts| - 1])
  }

  ghost predicate AllValid(pkts: seq<Pkt>) {
    forall p | p in pkts :: p.Valid()
  }

  /** The packet's end does not wrap in the 32-bit sum of client.cpp. */
  predicate Fits(p: Pkt) {
    p.offset + p.length < 0x1_0000_0000
  }

  /** The inner loop of both reassemblers: grow to the declared end, then copy byte
      by byte. `None` is a write past the end of the buffer. */
  method CopyInto(raw: seq<byte>, p: Pkt, end: nat) returns (r: Option<seq<byte>>)
    requires p.Valid()
    requires end <= p.offset + p.length
    ensures r.Some? <==> p.offset + p.length <= Max(|raw|, end)
    ensures r.Some? ==> r.value == Lay(raw, p)
  {
    var buf := raw;
    if end > |buf| {
      buf := buf + seq(end - |buf|, _ => 0);
    }
    ghost var grown := buf;
    var i := 0;
    while i < p.length
      invariant 0 <= i <= p.length && |buf| == |grown|
      invariant i > 0 ==> p.offset + i <= |buf|
      invariant forall k | 0 <= k < |buf| ::
                  buf[k] == if p.offset <= k < p.offset + i then p.data[k - p.offset] else grown[k]
    {
      if p.offset + i >= |buf| {
        return None;
      }
      buf := buf[p.offset + i := p.data[i]];
      i := i + 1;
    }
    assert buf == Lay(raw, p);
    return Some(buf);
  }

  /** The overlay loop of assembleFrame, where the end is a 32-bit sum. It stays in
      bounds exactly when no packet's end wraps. */
  method Reassemble(pkts: seq<Pkt>) returns (r: Option<seq<byte>>)
    requires AllValid(pkts)
    ensures r.Some? <==> forall p | p in pkts :: Fits(p)
    ensures r.Some? ==> r.value == Overlaid(pkts)
  {
    var raw: seq<byte> := [];
    for n := 0 to |pkts|
      invariant raw == Overlaid(pkts[..n]) && |raw| < 0x1_0000_0000
      invariant forall p | p in pkts[..n] :: Fits(p)
    {
      var p := pkts[n];
      assert p in pkts && pkts[..n + 1] == pkts[..n] + [p];
      var next := CopyInto(raw, p, (p.offset + p.length) % 0x1_0000_0000);
      if next.None? {
        assert !Fits(p);
        return None;
      }
      raw := next.value;
    }
    assert pkts[..|pkts|] == pkts;
    return Some(raw);
  }

  // ----- what the overlay means

  /** Packet i is the last one to cover byte k. */
  ghost predicate LastCover(pkts: seq<Pkt>, i: int, k: int) {
    && 0 <= i < |pkts| && Covers(pkts[i], k)
    && forall j | i < j < |pkts| :: !Covers(pkts[j], k)
  }

  ghost predicate Covered(pkts: seq<Pkt>, k: int) {
    exists p :: p in pkts && Covers(p, k)
  }

  /** The buffer ends where the furthest packet ends. */
  lemma {:induction false} OverlayLength(pkts: seq<Pkt>)
    ensures forall p | p in pkts :: p.offset + |p.data| <= |Overlaid(pkts)|
    ensures pkts != [] ==> exists p :: p in pkts && p.offset + |p.data| == |Overlaid(pkts)|
  {
    if pkts != [] {
      var n := |pkts| - 1;
      OverlayLength(pkts[..n]);
      assert pkts == pkts[..n] + [pkts[n]];
      if |Overlaid(pkts)| == pkts[n].offset + |pkts[n].data| {
        assert pkts[n] in pkts;
      } else {
        var p :| p in pkts[..n] && p.offset + |p.data| == |Overlaid(pkts[..n])|;
        assert p in pkts;
      }
    }
  }

  /** Each byte is the one of the last packet covering it, and 0 where none does. */
  lemma {:induction false} OverlayBytes(pkts: seq<Pkt>, k: nat) returns (i: int)
    requires k < |Overlaid(pkts)|
    ensures if i < 0 then !Covered(pkts, k) && Overlaid(pkts)[k] == 0
            else LastCover(pkts, i, k) && pkts[i] in pkts && Overlaid(pkts)[k] == pkts[i].data[k - pkts[i].offset]
  {
    var n := |pkts| - 1;
    var init := pkts[..n];
    assert pkts == init + [pkts[n]];
    if Covers(pkts[n], k) {
      i := n;
    } else if k < |Overlaid(init)| {
      i := OverlayBytes(init, k);
      if i >= 0 {
        assert pkts[i] == init[i];
      } else {
        assert !Covered(pkts, k);
      }
    } else {
      OverlayLength(init);
      i := -1;
    }
  }

  /** Packets that cover a common byte carry the same value there. */
  ghost predicate Agree(pkts: seq<Pkt>) {
    forall p, q, k | p in pkts && q in pkts && Covers(p, k) && Covers(q, k) ::
      p.data[k - p.offset] == q.data[k - q.offset]
  }

  ghost predicate SamePackets(ps: seq<Pkt>, qs: seq<Pkt>) {
    forall p :: p in ps <==> p in qs
  }

  /** When packets agree, arrival order and duplication do not matter. */
  lemma OverlayOrderFree(ps: seq<Pkt>, qs: seq<Pkt>)
    requires Agree(ps) && SamePackets(ps, qs)
    ensures Overlaid(ps) == Overlaid(qs)
  {
    OverlayLength(ps);
    OverlayLength(qs);
    assert |Overlaid(ps)| == |Overlaid(qs)| by {
      if ps != [] {
        assert ps[0] in qs;
        var p :| p in ps && p.offset + |p.data| == |Overlaid(ps)|;
        var q :| q in qs && q.offset + |q.data| == |Overlaid(qs)|;
        assert p in qs && q in ps;
      } else {
        assert forall q :: q in qs ==> q in ps;
        assert qs == [];
      }
    }
    forall k | 0 <= k < |Overlaid(ps)| ensures Overlaid(ps)[k] == Overlaid(qs)[k] {
      var i := OverlayBytes(ps, k);
      var j := OverlayBytes(qs, k);
      if i >= 0 {
        assert ps[i] in qs && Covers(ps[i], k);
      }
      if j >= 0 {
        assert qs[j] in ps && Covers(qs[j], k);
      }
    }
  }

  /** The packet carries a stretch of the frame, at its own place. */
  ghost predicate ChunkOf(p: Pkt, frame: seq<byte>) {
    p.offset + |p.data| <= |frame| && p.data == frame[p.offset..p.offset + |p.data|]
  }

  /** Whatever subset of a frame's packets arrives, in whatever order, the buffer
      agrees with the frame on every byte received and is 0 elsewhere. */
  lemma PartialFrame(pkts: seq<Pkt>, frame: seq<byte>)
    requires forall p | p in pkts :: ChunkOf(p, frame)
    ensures |Overlaid(pkts)| <= |frame|
    ensures forall k | 0 <= k < |Overlaid(pkts)| ::
              Overlaid(pkts)[k] == if Covered(pkts, k) then frame[k] else 0
  {
    OverlayLength(pkts);
    forall k | 0 <= k < |Overlaid(pkts)|
      ensures Overlaid(pkts)[k] == if Covered(pkts, k) then frame[k] else 0
    {
      var i := OverlayBytes(pkts, k);
      if i >= 0 {
        assert ChunkOf(pkts[i], frame) && Covered(pkts, k);
      }
    }
  }

  /** Chunks that cover a frame completely give the frame back. */
  lemma WholeFrame(pkts: seq<Pkt>, frame: seq<byte>)
    requires forall p | p in pkts :: ChunkOf(p, frame)
    requires forall k | 0 <= k < |frame| :: Covered(pkts, k)
    ensures Overlaid(pkts) == frame
  {
    PartialFrame(pkts, frame);
    OverlayLength(pkts);
    if |frame| > 0 {
      assert Covered(pkts, |frame| - 1);
    }
  }
}
