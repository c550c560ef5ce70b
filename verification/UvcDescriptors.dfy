/** The descriptors of a USB camera (USB Video Class 1.5): what the walk over a configuration
    passes, reads and stops at (uvc.c, uvc_parse_all_config and the parsers it calls). */
module UvcDescriptors {
  import opened Bytes
  import opened StreamChoice

  // Descriptor types (bDescriptorType) and classes.
  const INTERFACE := 4
  const ENDPOINT := 5
  const INTERFACE_ASC := 11
  const CS_INTERFACE := 0x24
  const CS_ENDPOINT := 0x25
  const CLASS_VIDEO := 0x0E
  const SC_VIDEOCONTROL := 1
  const SC_VIDEOSTREAMING := 2
  const SC_COLLECTION := 3
  // Class-specific descriptor subtypes.
  const HEADER := 1
  const INPUT_TERMINAL := 2
  // Sizes of whole descriptors.
  const IAD_SIZE := 8
  const INTERFACE_SIZE := 9
  const MIN_VC_HEADER := 12
  const MIN_INPUT_TERMINAL := 8
  const MIN_INPUT_HEADER := 13
  const UNCOMP_FORMAT_SIZE := 27
  const MIN_FRAME := 26

  /** The bytes the walk may read: a configuration of `len` bytes, and what lies behind it. */
  datatype Config = Config(mem: seq<byte>, len: nat) {
    /** Stepping by bLength leads from i to k without leaving the configuration. */
    ghost predicate Leads(i: nat, k: nat)
      requires len <= |mem|
      decreases len - i
    {
      i == k || (i < len && mem[i] > 0 && i + mem[i] <= len && Leads(i + mem[i], k))
    }

    ghost predicate OnChain(k: nat) {
      len <= |mem| && Leads(0, k)
    }

    /** A video streaming input header stands at k, right behind its interface at i. */
    ghost predicate HeaderAt(i: nat, k: nat) {
      && i < len <= |mem| && OnChain(i) && k == i + mem[i] && k + 7 <= len
      && mem[i + 1] == INTERFACE && mem[i + 5] == CLASS_VIDEO && mem[i + 6] == SC_VIDEOSTREAMING
      && mem[k + 1] == CS_INTERFACE && mem[k + 2] == HEADER
    }

    /** Descriptors of at least 3 bytes that fill the configuration, 16-bit total length,
        input headers whose totals stay inside, and a few readable bytes behind the end. */
    ghost predicate WellFormed() {
      && 0 < len < 0x1_0000 && len + 7 <= |mem|
      && (forall k: nat :: OnChain(k) && k < len ==> mem[k] >= 3 && k + mem[k] <= len)
      && (forall i: nat, k: nat :: HeaderAt(i, k) ==> k + Le16(mem[k + 4], mem[k + 5]) <= len)
    }

    // The first three bytes of the descriptor at k: length, type, subtype.
    function Len(k: nat): nat {
      if k < |mem| then mem[k] else 0
    }

    function Kind(k: nat): nat {
      if k + 1 < |mem| then mem[k + 1] else 0
    }

    function Sub(k: nat): nat {
      if k + 2 < |mem| then mem[k + 2] else 0
    }

    lemma {:induction false} LeadsOn(i: nat, k: nat)
      requires len <= |mem| && Leads(i, k) && k < len && mem[k] > 0 && k + mem[k] <= len
      ensures Leads(i, k + mem[k])
      decreases len - i
    {
      if i != k {
        LeadsOn(i + mem[i], k);
      } else {
        assert Leads(k + mem[k], k + mem[k]);
      }
    }

    /** The step of the walk: one descriptor on. */
    lemma Step(k: nat)
      requires WellFormed() && OnChain(k) && k < len
      ensures OnChain(k + mem[k]) && mem[k] >= 3 && k + mem[k] <= len
    {
      LeadsOn(0, k);
    }
  }

  /** A frame descriptor and the format descriptor it was read under. */
  datatype FrameRef = FrameRef(at: nat, formatAt: nat)

  ghost predicate GoodFrame(c: Config, f: FrameRef) {
    && c.OnChain(f.at) && c.OnChain(f.formatAt) && f.formatAt < f.at < c.len && f.at + 30 <= |c.mem|
    && c.mem[f.at] >= MIN_FRAME && c.mem[f.at + 1] == CS_INTERFACE
    && c.mem[f.formatAt + 1] == CS_INTERFACE
    && (c.mem[f.formatAt + 2] == FORMAT_MJPEG || c.mem[f.formatAt + 2] == FORMAT_UNCOMPRESSED)
    && c.mem[f.at + 2] == c.mem[f.formatAt + 2] + 1
  }

  /** What a frame descriptor offers (bit rate at offset 13, interval at offset 26). */
  function OfferAt(c: Config, f: FrameRef): Offer
    requires f.formatAt + 4 <= |c.mem| && f.at + 30 <= |c.mem|
  {
    var m, a := c.mem, f.at;
    Offer(m[f.formatAt + 2], m[f.formatAt + 3], m[a + 3], Le16(m[a + 5], m[a + 6]), Le16(m[a + 7], m[a + 8]),
          Le32(m[a + 13], m[a + 14], m[a + 15], m[a + 16]), Le32(m[a + 26], m[a + 27], m[a + 28], m[a + 29]))
  }

  /** `offers` lists what the frame descriptors offer. */
  ghost predicate AreOffers(c: Config, frames: seq<FrameRef>, offers: seq<Offer>) {
    |frames| == |offers| &&
    (frames == [] ||
     var n := |frames| - 1;
     AreOffers(c, frames[..n], offers[..n]) && GoodFrame(c, frames[n]) && offers[n] == OfferAt(c, frames[n]))
  }

  lemma OffersSnoc(c: Config, frames: seq<FrameRef>, offers: seq<Offer>, f: FrameRef)
    requires AreOffers(c, frames, offers) && GoodFrame(c, f)
    ensures AreOffers(c, frames + [f], offers + [OfferAt(c, f)])
  {
    var n := |frames|;
    assert (frames + [f])[..n] == frames && (offers + [OfferAt(c, f)])[..n] == offers;
  }

  /** Positions on the chain, never going back. */
  ghost predicate Inspections(c: Config, ks: seq<nat>) {
    ks == [] ||
    var n := |ks| - 1;
    Inspections(c, ks[..n]) && c.OnChain(ks[n]) && ks[n] <= c.len && (n > 0 ==> ks[n - 1] <= ks[n])
  }

  lemma {:induction false} OffersMeaning(c: Config, frames: seq<FrameRef>, offers: seq<Offer>, i: nat)
    requires AreOffers(c, frames, offers) && i < |frames|
    ensures GoodFrame(c, frames[i]) && offers[i] == OfferAt(c, frames[i])
  {
    var n := |frames| - 1;
    if i < n {
      OffersMeaning(c, frames[..n], offers[..n], i);
    }
  }

  /** What the walk collects meets the assumptions of the choice's optimality. */
  lemma {:induction false} OffersKnown(c: Config, frames: seq<FrameRef>, offers: seq<Offer>)
    requires AreOffers(c, frames, offers)
    ensures KnownFormats(offers)
  {
    forall o | o in offers ensures o.format == FORMAT_UNCOMPRESSED || o.format == FORMAT_MJPEG {
      var i :| 0 <= i < |offers| && offers[i] == o;
      OffersMeaning(c, frames, offers, i);
    }
  }

  lemma {:induction false} InspectionsMeaning(c: Config, ks: seq<nat>, i: nat, j: nat)
    requires Inspections(c, ks) && i <= j < |ks|
    ensures c.OnChain(ks[i]) && c.OnChain(ks[j]) && ks[i] <= ks[j] <= c.len
  {
    var n := |ks| - 1;
    if j < n {
      InspectionsMeaning(c, ks[..n], i, j);
    } else if i < n {
      InspectionsMeaning(c, ks[..n], i, n - 1);
    }
  }

  // ----- what a configuration presents, descriptor by descriptor

  /** The frame and endpoint descriptors that a stretch of the chain presents, where the
      stretch ends, and whether the driver stops there. */
  datatype Reading = Reading(frames: seq<FrameRef>, endpoints: seq<nat>, end: nat, fault: bool) {
    function Then(r: Reading): Reading {
      Reading(frames + r.frames, endpoints + r.endpoints, r.end, r.fault)
    }
  }

  function Nothing(end: nat): Reading {
    Reading([], [], end, false)
  }

  predicate IsFrame(c: Config, k: nat, formatAt: nat) {
    k < c.len && c.Len(k) >= MIN_FRAME && c.Kind(k) == CS_INTERFACE && c.Sub(k) == c.Sub(formatAt) + 1
  }

  /** The unbroken run of frame descriptors of a format. */
  function FrameRun(c: Config, formatAt: nat, k: nat): Reading
    decreases c.len - k
  {
    if IsFrame(c, k, formatAt) then
      Reading([FrameRef(k, formatAt)], [], k, false).Then(FrameRun(c, formatAt, k + c.Len(k)))
    else Nothing(k)
  }

  /** A class-specific streaming descriptor, with its frames if it is a format. */
  function DescriptorAt(c: Config, k: nat): Reading
    requires k + 9 <= |c.mem|
  {
    if c.Sub(k) == FORMAT_UNCOMPRESSED then
      if c.Len(k) != UNCOMP_FORMAT_SIZE then Reading([], [], k, true)
      else FrameRun(c, k, k + c.Len(k)).(fault := Le32(c.mem[k + 5], c.mem[k + 6], c.mem[k + 7], c.mem[k + 8]) == 0)
    else if c.Sub(k) == FORMAT_MJPEG then FrameRun(c, k, k + c.Len(k))
    else Nothing(k + c.Len(k))
  }

  /** The descriptors an input header announces, up to its total. */
  function HeaderBody(c: Config, k: nat, stop: nat): Reading
    decreases c.len - k
  {
    if k >= stop || k >= c.len || k + 9 > |c.mem| || c.Kind(k) != CS_INTERFACE then Nothing(k)
    else
      var d := DescriptorAt(c, k);
      if d.fault || d.end <= k then d.(fault := true) else d.Then(HeaderBody(c, d.end, stop))
  }

  /** A streaming interface and the input header behind it, if any. */
  function InterfaceAt(c: Config, k: nat): Reading
    requires k + 7 <= |c.mem|
  {
    var j := k + c.Len(k);
    if c.mem[k + 5] != CLASS_VIDEO || c.mem[k + 6] != SC_VIDEOSTREAMING then Reading([], [], k, true)
    else if c.Kind(j) != CS_INTERFACE then Nothing(j)
    else if j + 6 > |c.mem| || j + c.Len(j) > c.len || c.Len(j) < MIN_INPUT_HEADER || c.Sub(j) != HEADER then
      Reading([], [], j, true)
    else HeaderBody(c, j + c.Len(j), j + Le16(c.mem[j + 4], c.mem[j + 5]))
  }

  /** The endpoint descriptors from k on, stepping over class-specific ones. */
  function EndpointRun(c: Config, k: nat): Reading
    decreases c.len - k
  {
    if k >= c.len || c.Len(k) == 0 then Nothing(k)
    else if c.Kind(k) == ENDPOINT then Reading([], [k], k, false).Then(EndpointRun(c, k + c.Len(k)))
    else if c.Kind(k) == CS_ENDPOINT then EndpointRun(c, k + c.Len(k))
    else Nothing(k)
  }

  function StreamingAt(c: Config, k: nat): Reading
    requires k + 7 <= |c.mem|
  {
    var h := InterfaceAt(c, k);
    if h.fault then h else h.Then(EndpointRun(c, h.end))
  }

  /** All streaming interfaces from k on. */
  function Interfaces(c: Config, k: nat): Reading
    decreases c.len - k
  {
    if k >= c.len || k + 7 > |c.mem| || c.Kind(k) != INTERFACE then Nothing(k)
    else
      var s := StreamingAt(c, k);
      if s.fault || s.end <= k then s.(fault := true) else s.Then(Interfaces(c, s.end))
  }

  ghost predicate IsInterface(c: Config, k: nat) {
    k < c.len && k + 7 <= |c.mem| && c.Kind(k) == INTERFACE
  }

  /** The streaming interfaces from k on, the one that stops the driver included. */
  function InterfacesAt(c: Config, k: nat): seq<nat>
    decreases c.len - k
  {
    if k >= c.len || k + 7 > |c.mem| || c.Kind(k) != INTERFACE then []
    else
      var s := StreamingAt(c, k);
      [k] + if s.fault || s.end <= k then [] else InterfacesAt(c, s.end)
  }

  /** Where the units and terminals of a control header end. */
  function UnitsEnd(c: Config, k: nat, stop: nat): nat
    decreases c.len - k
  {
    if k >= stop || k >= c.len || c.Len(k) == 0 || c.Kind(k) != CS_INTERFACE then k
    else if c.Sub(k) == INPUT_TERMINAL then
      if k + MIN_INPUT_TERMINAL > c.len || c.Len(k) < MIN_INPUT_TERMINAL then k else UnitsEnd(c, k + c.Len(k), stop)
    else if 3 <= c.Sub(k) <= 7 then UnitsEnd(c, k + c.Len(k), stop)
    else k
  }

  /** Where the endpoints of the control interface end. */
  function ControlEndpointsEnd(c: Config, k: nat): nat
    decreases c.len - k
  {
    if k < c.len && c.Len(k) > 0 && (c.Kind(k) == ENDPOINT || c.Kind(k) == CS_ENDPOINT)
    then ControlEndpointsEnd(c, k + c.Len(k)) else k
  }

  function AfterIad(c: Config, k: nat): nat
    requires c.len <= |c.mem|
  {
    if k + IAD_SIZE <= c.len && c.Len(k) == IAD_SIZE && c.Kind(k) == INTERFACE_ASC &&
       c.mem[k + 4] == CLASS_VIDEO && c.mem[k + 5] == SC_COLLECTION
    then k + IAD_SIZE else k
  }

  function AfterControlInterface(c: Config, k: nat): nat
    requires c.len <= |c.mem|
  {
    if k + INTERFACE_SIZE <= c.len && c.Len(k) == INTERFACE_SIZE && c.Kind(k) == INTERFACE &&
       c.mem[k + 5] == CLASS_VIDEO && c.mem[k + 6] == SC_VIDEOCONTROL
    then k + INTERFACE_SIZE else k
  }

  function AfterControlHeader(c: Config, k: nat): nat
    requires c.len <= |c.mem|
  {
    if k + MIN_VC_HEADER > c.len || c.Len(k) < MIN_VC_HEADER || c.Kind(k) != CS_INTERFACE || c.Sub(k) != HEADER then k
    else UnitsEnd(c, k + c.Len(k), k + Le16(c.mem[k + 5], c.mem[k + 6]))
  }

  function ControlEnd(c: Config, k: nat): nat
    requires c.len <= |c.mem|
  {
    ControlEndpointsEnd(c, AfterControlHeader(c, AfterControlInterface(c, AfterIad(c, k))))
  }

  /** The whole configuration: one descriptor, the control part, the streaming part. */
  function Presented(c: Config): Reading
    requires c.len <= |c.mem|
  {
    Interfaces(c, ControlEnd(c, c.Len(0)))
  }

  function EndpointAt(c: Config, k: nat): Endpoint
    requires k + 7 <= |c.mem|
  {
    Endpoint(c.mem[k + 2], c.mem[k + 3], Le16(c.mem[k + 4], c.mem[k + 5]))
  }

  /** `es` lists the endpoint descriptors at `ks`. */
  ghost predicate AreEndpoints(c: Config, ks: seq<nat>, es: seq<(Endpoint, nat)>) {
    |ks| == |es| && forall i | 0 <= i < |ks| :: ks[i] + 7 <= |c.mem| && es[i].0 == EndpointAt(c, ks[i])
  }

  /** Frame runs, header bodies and interfaces present no endpoints. */
  lemma {:induction false} RunNoEndpoints(c: Config, formatAt: nat, k: nat)
    ensures FrameRun(c, formatAt, k).endpoints == [] && !FrameRun(c, formatAt, k).fault
    decreases c.len - k
  {
    if IsFrame(c, k, formatAt) {
      RunNoEndpoints(c, formatAt, k + c.Len(k));
    }
  }

  lemma {:induction false} EndpointsOnly(c: Config, k: nat)
    ensures EndpointRun(c, k).frames == [] && !EndpointRun(c, k).fault
    decreases c.len - k
  {
    if k < c.len && c.Len(k) > 0 {
      EndpointsOnly(c, k + c.Len(k));
    }
  }

  lemma {:induction false} BodyNoEndpoints(c: Config, k: nat, stop: nat)
    ensures HeaderBody(c, k, stop).endpoints == []
    decreases c.len - k
  {
    if !(k >= stop || k >= c.len || k + 9 > |c.mem| || c.Kind(k) != CS_INTERFACE) {
      RunNoEndpoints(c, k, k + c.Len(k));
      var d := DescriptorAt(c, k);
      if !d.fault && d.end > k {
        BodyNoEndpoints(c, d.end, stop);
      }
    }
  }

  lemma InterfaceNoEndpoints(c: Config, k: nat)
    requires k + 7 <= |c.mem|
    ensures InterfaceAt(c, k).endpoints == []
  {
    var j := k + c.Len(k);
    if j + 6 <= |c.mem| {
      BodyNoEndpoints(c, j + c.Len(j), j + Le16(c.mem[j + 4], c.mem[j + 5]));
    }
  }

  /** A streaming part has the frames of its interface and the endpoints behind it. */
  lemma StreamingIs(c: Config, k: nat)
    requires k + 7 <= |c.mem|
    ensures var h := InterfaceAt(c, k);
            var e := EndpointRun(c, h.end);
            if h.fault then StreamingAt(c, k).fault
            else StreamingAt(c, k) == Reading(h.frames, e.endpoints, e.end, false)
  {
    InterfaceNoEndpoints(c, k);
    EndpointsOnly(c, InterfaceAt(c, k).end);
  }
}
