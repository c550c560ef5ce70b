/** The walk over a USB configuration (uvc.c, uvc_parse_all_config and the parsers it
    calls): nested loops that step from descriptor to descriptor by bLength. */
module UvcConfig {
  import opened Bytes
  import opened StreamChoice
  import opened UvcDescriptors

  // ----- where a loop of the walk stands: what it has gathered since `before`, together
  // ----- with what the rest of the stretch presents, is what the whole stretch presents

  ghost predicate Partway(before: seq<FrameRef>, now: seq<FrameRef>, all: Reading, todo: Reading) {
    now + todo.frames == before + all.frames && todo.end == all.end && todo.fault == all.fault
  }

  ghost predicate PartwayEnds(before: seq<nat>, now: seq<nat>, all: Reading, todo: Reading) {
    now + todo.endpoints == before + all.endpoints
  }

  lemma PartwayStart(f: seq<FrameRef>, e: seq<nat>, all: Reading)
    ensures Partway(f, f, all, all) && PartwayEnds(e, e, all, all)
  {}

  lemma FrameNext(c: Config, formatAt: nat, k: nat, before: seq<FrameRef>, now: seq<FrameRef>, all: Reading)
    requires Partway(before, now, all, FrameRun(c, formatAt, k)) && IsFrame(c, k, formatAt)
    ensures Partway(before, now + [FrameRef(k, formatAt)], all, FrameRun(c, formatAt, k + c.Len(k)))
  {
    Assoc(now, [FrameRef(k, formatAt)], FrameRun(c, formatAt, k + c.Len(k)).frames);
  }

  lemma FrameStop(c: Config, formatAt: nat, k: nat, before: seq<FrameRef>, now: seq<FrameRef>, all: Reading)
    requires Partway(before, now, all, FrameRun(c, formatAt, k)) && !IsFrame(c, k, formatAt)
    ensures now == before + all.frames && k == all.end
  {
    assert now + [] == now;
  }

  ghost predicate InBody(c: Config, k: nat, stop: nat) {
    k < stop && k < c.len && k + 9 <= |c.mem| && c.Kind(k) == CS_INTERFACE
  }

  lemma BodyNext(c: Config, k: nat, stop: nat, before: seq<FrameRef>, now: seq<FrameRef>, all: Reading)
    requires Partway(before, now, all, HeaderBody(c, k, stop)) && InBody(c, k, stop)
    ensures var d := DescriptorAt(c, k);
            if d.fault || d.end <= k then all.fault
            else Partway(before, now + d.frames, all, HeaderBody(c, d.end, stop))
  {
    var d := DescriptorAt(c, k);
    if !(d.fault || d.end <= k) {
      Assoc(now, d.frames, HeaderBody(c, d.end, stop).frames);
    }
  }

  lemma BodyStop(c: Config, k: nat, stop: nat, before: seq<FrameRef>, now: seq<FrameRef>, all: Reading)
    requires Partway(before, now, all, HeaderBody(c, k, stop)) && !InBody(c, k, stop)
    ensures now == before + all.frames && k == all.end && !all.fault
  {
    assert now + [] == now;
  }

  ghost predicate EndpointsLeft(c: Config, at: nat, k: nat, before: seq<nat>, now: seq<nat>) {
    var all, todo := EndpointRun(c, at), EndpointRun(c, k);
    now + todo.endpoints == before + all.endpoints && todo.end == all.end
  }

  lemma EndpointsStart(c: Config, at: nat, before: seq<nat>)
    ensures EndpointsLeft(c, at, at, before, before)
  {}

  lemma EndpointsNext(c: Config, at: nat, k: nat, before: seq<nat>, now: seq<nat>)
    requires EndpointsLeft(c, at, k, before, now) && k < c.len && c.Len(k) > 0
    ensures c.Kind(k) == ENDPOINT ==> EndpointsLeft(c, at, k + c.Len(k), before, now + [k])
    ensures c.Kind(k) == CS_ENDPOINT ==> EndpointsLeft(c, at, k + c.Len(k), before, now)
  {
    Assoc(now, [k], EndpointRun(c, k + c.Len(k)).endpoints);
  }

  lemma EndpointsStop(c: Config, at: nat, k: nat, before: seq<nat>, now: seq<nat>)
    requires EndpointsLeft(c, at, k, before, now)
    requires k >= c.len || (c.Kind(k) != ENDPOINT && c.Kind(k) != CS_ENDPOINT)
    ensures now == before + EndpointRun(c, at).endpoints && k == EndpointRun(c, at).end
  {
    assert now + [] == now;
  }

  lemma InterfacesNext(c: Config, k: nat, f0: seq<FrameRef>, f: seq<FrameRef>, e0: seq<nat>, e: seq<nat>, all: Reading)
    requires Partway(f0, f, all, Interfaces(c, k)) && PartwayEnds(e0, e, all, Interfaces(c, k)) && IsInterface(c, k)
    ensures var s := StreamingAt(c, k);
            if s.fault || s.end <= k then all.fault
            else Partway(f0, f + s.frames, all, Interfaces(c, s.end))
                 && PartwayEnds(e0, e + s.endpoints, all, Interfaces(c, s.end))
  {
    var s := StreamingAt(c, k);
    if !(s.fault || s.end <= k) {
      Assoc(f, s.frames, Interfaces(c, s.end).frames);
      Assoc(e, s.endpoints, Interfaces(c, s.end).endpoints);
    }
  }

  /** The interfaces come to since `before`, and those still to come to. */
  ghost predicate InterfacesLeft(c: Config, at: nat, k: nat, before: seq<nat>, now: seq<nat>) {
    now + InterfacesAt(c, k) == before + InterfacesAt(c, at)
  }

  lemma InterfacesLeftStart(c: Config, at: nat, before: seq<nat>)
    ensures InterfacesLeft(c, at, at, before, before)
  {}

  lemma InterfacesLeftNext(c: Config, at: nat, k: nat, before: seq<nat>, now: seq<nat>)
    requires InterfacesLeft(c, at, k, before, now) && IsInterface(c, k)
    ensures var s := StreamingAt(c, k);
            !s.fault && s.end > k ==> InterfacesLeft(c, at, s.end, before, now + [k])
  {
    hide StreamingAt;
    Assoc(now, [k], InterfacesAt(c, StreamingAt(c, k).end));
  }

  lemma InterfacesLeftStop(c: Config, at: nat, k: nat, before: seq<nat>, now: seq<nat>)
    requires InterfacesLeft(c, at, k, before, now) && !IsInterface(c, k)
    ensures now == before + InterfacesAt(c, at)
  {
    assert now + [] == now;
  }

  /** A streaming part that stops the driver leaves a part of its endpoints read. */
  lemma InterfacesCut(c: Config, k: nat, e0: seq<nat>, e: seq<nat>, now: seq<nat>, all: Reading)
    requires PartwayEnds(e0, e, all, Interfaces(c, k)) && IsInterface(c, k) && now <= e + StreamingAt(c, k).endpoints
    ensures now <= e0 + all.endpoints
  {
    hide StreamingAt;
    var s := StreamingAt(c, k);
    if !(s.fault || s.end <= k) {
      Assoc(e, s.endpoints, Interfaces(c, s.end).endpoints);
    }
  }

  lemma InterfacesStop(c: Config, k: nat, f0: seq<FrameRef>, f: seq<FrameRef>, e0: seq<nat>, e: seq<nat>, all: Reading)
    requires Partway(f0, f, all, Interfaces(c, k)) && PartwayEnds(e0, e, all, Interfaces(c, k)) && !IsInterface(c, k)
    ensures f == f0 + all.frames && e == e0 + all.endpoints && !all.fault
  {
    assert f + [] == f && e + [] == e;
  }

  /** `Parsed(n)`: n bytes were read. `Fault`: the driver stopped in uvc_parsing_fault. */
  datatype Outcome = Parsed(n: nat) | Fault

  class Camera {
    const target: u32
    const c: Config
    ghost const given: seq<nat>       // what the host library will answer to allocations,
    var choice: Offer
    var pipes: Pipes
    var handles: seq<nat>             // and what is left of it
    var iface: byte                   // the interface and the alternate setting to select
    var alt: byte
    ghost var frames: seq<FrameRef>   // the frame descriptors read, and their contents
    ghost var offers: seq<Offer>
    ghost var endpointsAt: seq<nat>   // the endpoint descriptors read, with the answers
    ghost var endpoints: seq<(Endpoint, nat)>
    ghost var interfacesAt: seq<nat>  // the streaming interface descriptors read
    ghost var inspected: seq<nat>     // the positions whose type byte was read

    /** The stream fields are the best of the frame descriptors read. */
    ghost predicate BestFrame()
      reads this`frames, this`offers, this`choice
    {
      AreOffers(c, frames, offers) && choice == ConsiderAll(target, offers)
    }

    /** The stream pipe is the best of the endpoints read, answered in order. */
    ghost predicate BestEndpoint()
      reads this`pipes, this`handles, this`endpointsAt, this`endpoints
    {
      && AreEndpoints(c, endpointsAt, endpoints) && pipes == VisitAll(endpoints)
      && HandedOut(given, Answers(endpoints), handles)
    }

    /** The walk has kept to the chain and has never gone back. */
    ghost predicate Walked()
      reads this`inspected
    {
      c.WellFormed() && Inspections(c, inspected)
    }

    /** The interface and setting kept are those of the last descriptor read. */
    ghost predicate LastSetting()
      reads this`iface, this`alt, this`interfacesAt
    {
      if interfacesAt == [] then iface == 0 && alt == 0
      else
        var k := interfacesAt[|interfacesAt| - 1];
        k + 3 < |c.mem| && iface == c.mem[k + 2] && alt == c.mem[k + 3]
    }

    ghost predicate Valid()
      reads this
    {
      Walked() && BestFrame() && BestEndpoint() && LastSetting()
    }

    /** The walk stands at k: on the chain, behind everything inspected. */
    ghost predicate Here(k: nat)
      reads this`inspected
    {
      Walked() && c.OnChain(k) && k <= c.len && (inspected != [] ==> inspected[|inspected| - 1] <= k)
    }

    constructor (target: u32, c: Config, handles: seq<nat>)
      requires c.WellFormed()
      ensures Valid() && this.c == c && this.target == target && given == handles
      ensures frames == [] && endpointsAt == [] && interfacesAt == [] && inspected == []
    {
      this.target, this.c, this.given, this.handles := target, c, handles, handles;
      choice, pipes, iface, alt := UNSET, NO_PIPES, 0, 0;
      frames, offers, endpointsAt, endpoints, interfacesAt, inspected := [], [], [], [], [], [];
    }

    method Inspect(k: nat) returns (kind: byte)
      requires Here(k)
      modifies this`inspected
      ensures Here(k) && kind == c.Kind(k)
    {
      ghost var before := inspected;
      inspected := inspected + [k];
      assert inspected[..|before|] == before;
      kind := c.mem[k + 1];
    }

    method Weigh(o: Offer)
      modifies this`choice
      ensures choice == Consider(target, old(choice), o)
    {
      if o.rate > choice.rate && o.rate <= target &&
         (choice.format == 0 || choice.format == FORMAT_UNCOMPRESSED ||
          (o.format == FORMAT_MJPEG && choice.format == FORMAT_MJPEG)) {
        choice := o;
      }
    }

    method Record(f: FrameRef)
      requires BestFrame() && GoodFrame(c, f)
      modifies this`frames, this`offers, this`choice
      ensures BestFrame() && frames == old(frames) + [f]
    {
      var o := OfferAt(c, f);
      ConsiderSnoc(target, offers, o);
      OffersSnoc(c, frames, offers, f);
      Weigh(o);
      frames, offers := frames + [f], offers + [o];
    }

    /** uvc_parse_mjpeg_frame_desc and uvc_parse_uncomp_frame_desc, which differ in the
        subtype and in the guard that Consider states. */
    method ParseFrame(at: nat, formatAt: nat) returns (n: nat)
      requires BestFrame() && Here(at) && at < c.len && IsFormat(formatAt) && formatAt < at
      modifies this`inspected, this`frames, this`offers, this`choice
      ensures BestFrame() && Here(at)
      ensures if IsFrame(c, at, formatAt) then n == c.Len(at) && frames == old(frames) + [FrameRef(at, formatAt)]
              else n == 0 && frames == old(frames)
    {
      c.Step(at);
      var length := c.mem[at];
      var kind := Inspect(at);
      var subtype := c.mem[at + 2];
      if length < MIN_FRAME || kind != CS_INTERFACE || subtype != c.mem[formatAt + 2] + 1 {
        return 0;
      }
      Record(FrameRef(at, formatAt));
      return length;
    }

    ghost predicate IsFormat(k: nat) {
      && c.WellFormed() && c.OnChain(k) && k < c.len && c.mem[k + 1] == CS_INTERFACE
      && (c.mem[k + 2] == FORMAT_MJPEG || c.mem[k + 2] == FORMAT_UNCOMPRESSED)
    }

    /** The frame loop of a format descriptor. */
    method ParseFrames(formatAt: nat) returns (n: nat)
      requires BestFrame() && Here(formatAt) && IsFormat(formatAt)
      modifies this`inspected, this`frames, this`offers, this`choice
      ensures n > 0 && BestFrame() && Here(formatAt + n)
      ensures var run := FrameRun(c, formatAt, formatAt + c.Len(formatAt));
              frames == old(frames) + run.frames && formatAt + n == run.end
    {
      hide FrameRun, Partway, BestFrame;
      c.Step(formatAt);
      var k: nat := formatAt + c.mem[formatAt];
      ghost var all, before := FrameRun(c, formatAt, k), frames;
      PartwayStart(before, [], all);
      while k < c.len
        invariant formatAt < k && BestFrame() && Here(k)
        invariant Partway(before, frames, all, FrameRun(c, formatAt, k))
        decreases c.len - k
      {
        c.Step(k);
        ghost var now := frames;
        var procd := ParseFrame(k, formatAt);
        if procd == 0 {
          break;
        }
        FrameNext(c, formatAt, k, before, now, all);
        k := k + procd;
      }
      FrameStop(c, formatAt, k, before, frames, all);
      return k - formatAt;
    }

    /** uvc_parse_mjpeg_format_desc, uvc_parse_uncomp_format_desc and the descriptors that
        are stepped over, by subtype. */
    method ParseStreamingDescriptor(at: nat) returns (r: Outcome)
      requires BestFrame() && Here(at) && at < c.len && c.mem[at + 1] == CS_INTERFACE
      modifies this`inspected, this`frames, this`offers, this`choice
      ensures Walked() && (r.Parsed? ==> r.n > 0 && BestFrame() && Here(at + r.n))
      ensures Read(old(frames), frames, at, r, DescriptorAt(c, at))
    {
      hide FrameRun, BestFrame;
      c.Step(at);
      RunNoEndpoints(c, at, at + c.Len(at));
      var subtype := c.mem[at + 2];
      if subtype == FORMAT_UNCOMPRESSED {
        if c.mem[at] != UNCOMP_FORMAT_SIZE {
          return Fault;
        }
        var n := ParseFrames(at);
        if Le32(c.mem[at + 5], c.mem[at + 6], c.mem[at + 7], c.mem[at + 8]) == 0 {
          return Fault;
        }
        return Parsed(n);
      } else if subtype == FORMAT_MJPEG {
        var n := ParseFrames(at);
        return Parsed(n);
      } else {
        return Parsed(c.mem[at]);
      }
    }

    /** uvc_parse_cs_vs_input_header: its loop trusts the header's own total length, and
        its index is 16 bits wide. */
    method ParseInputHeader(iface: nat, at: nat) returns (r: Outcome)
      requires BestFrame() && Here(at) && c.OnChain(iface) && iface < c.len && at == iface + c.mem[iface]
      requires c.mem[at + 1] == CS_INTERFACE
      requires c.mem[iface + 1] == INTERFACE && c.mem[iface + 5] == CLASS_VIDEO && c.mem[iface + 6] == SC_VIDEOSTREAMING
      modifies this`inspected, this`frames, this`offers, this`choice
      ensures Walked() && (r.Parsed? ==> r.n > 0 && BestFrame() && Here(at + r.n))
      ensures Read(old(frames), frames, at, r, InterfaceAt(c, iface))
    {
      hide HeaderBody, BestFrame;
      var length := c.mem[at];
      if length > c.len - at || length < MIN_INPUT_HEADER || c.mem[at + 2] != HEADER {
        return Fault;
      }
      assert c.HeaderAt(iface, at);
      c.Step(at);
      r := ParseHeaderBody(at, Le16(c.mem[at + 4], c.mem[at + 5]));
    }

    /** The loop of uvc_parse_cs_vs_input_header. */
    method ParseHeaderBody(at: nat, total: u16) returns (r: Outcome)
      requires BestFrame() && Here(at) && at < c.len && Here(at + c.mem[at]) && at + total <= c.len && c.mem[at] > 0
      modifies this`inspected, this`frames, this`offers, this`choice
      ensures Walked() && (r.Parsed? ==> r.n > 0 && BestFrame() && Here(at + r.n))
      ensures Read(old(frames), frames, at, r, HeaderBody(c, at + c.Len(at), at + total))
    {
      hide HeaderBody, DescriptorAt, Partway, BestFrame;
      var i: u16 := c.mem[at];
      ghost var stop, before := at + total, frames;
      ghost var all := HeaderBody(c, at + i, stop);
      PartwayStart(before, [], all);
      while i < total
        invariant 0 < i && BestFrame() && Here(at + i)
        invariant Partway(before, frames, all, HeaderBody(c, at + i, stop))
        decreases c.len - (at + i)
      {
        c.Step(at + i);
        var kind := Inspect(at + i);
        if kind != CS_INTERFACE {
          break;
        }
        BodyNext(c, at + i, stop, before, frames, all);
        var d := ParseStreamingDescriptor(at + i);
        if d.Fault? || d.n == 0 {
          return Fault;
        }
        i := (i + d.n) % 0x1_0000;
      }
      BodyStop(c, at + i, stop, before, frames, all);
      return Parsed(i);
    }

    /** The frames and the outcome are those of a reading from `at` on. */
    ghost predicate Read(before: seq<FrameRef>, now: seq<FrameRef>, at: nat, r: Outcome, reading: Reading) {
      && (r.Fault? <==> reading.fault)
      && (r.Parsed? ==> at + r.n == reading.end && now == before + reading.frames)
    }

    /** uvc_parse_streaming_endpoint. */
    method ParseStreamingEndpoint(at: nat) returns (r: Outcome)
      requires BestEndpoint() && Here(at) && at < c.len && c.mem[at + 1] == ENDPOINT && !pipes.faulted
      modifies this`pipes, this`handles, this`endpointsAt, this`endpoints
      ensures BestEndpoint() && endpointsAt == old(endpointsAt) + [at]
      ensures r == if pipes.faulted then Fault else Parsed(c.mem[at])
    {
      var e := Endpoint(c.mem[at + 2], c.mem[at + 3], Le16(c.mem[at + 4], c.mem[at + 5]));
      var ok := Offered(e, at);
      return if ok then Parsed(c.mem[at]) else Fault;
    }

    /** Replace the stream pipe if the endpoint is eligible and larger. */
    method ReplacePipe(e: Endpoint) returns (handle: nat)
      requires !pipes.faulted
      modifies this`pipes, this`handles
      ensures pipes == Visit(old(pipes), e, handle)
      ensures if Asks(old(pipes), e) && old(handles) != []
              then handle == old(handles)[0] && handles == old(handles)[1..]
              else handle == 0 && handles == old(handles)
    {
      handle := 0;
      if e.Eligible() && (pipes.pipe == 0 || e.size > pipes.xferSize) {
        if handles != [] {
          handle := handles[0];
          handles := handles[1..];
        }
        if pipes.pipe != 0 {
          pipes := Free(pipes);
        }
        pipes := Open(pipes, e, handle);
      }
    }

    /** Take the endpoint at `at` into account. */
    method Offered(e: Endpoint, ghost at: nat) returns (ok: bool)
      requires BestEndpoint() && !pipes.faulted && at + 7 <= |c.mem| && e == EndpointAt(c, at)
      modifies this`pipes, this`handles, this`endpointsAt, this`endpoints
      ensures BestEndpoint() && ok == !pipes.faulted && endpointsAt == old(endpointsAt) + [at]
    {
      hide Visit, VisitAll, EndpointAt, Asks, Answers, HandedOut;
      HandOutOne(given, Answers(endpoints), handles);
      var handle := ReplacePipe(e);
      VisitSnoc(endpoints, e, handle);
      AnswersSnoc(endpoints, e, handle);
      assert old(Answers(endpoints)) + [] == old(Answers(endpoints));
      endpointsAt, endpoints := endpointsAt + [at], endpoints + [(e, handle)];
      return !pipes.faulted;
    }

    /** The endpoint loop of uvc_parse_streaming. */
    method ParseEndpoints(at: nat) returns (r: Outcome)
      requires BestEndpoint() && Here(at) && !pipes.faulted
      modifies this`inspected, this`pipes, this`handles, this`endpointsAt, this`endpoints
      ensures Walked() && BestEndpoint() && (r.Fault? <==> pipes.faulted)
      ensures r.Parsed? ==> Here(at + r.n) && at + r.n == EndpointRun(c, at).end
      ensures r.Parsed? ==> endpointsAt == old(endpointsAt) + EndpointRun(c, at).endpoints
      ensures endpointsAt <= old(endpointsAt) + EndpointRun(c, at).endpoints
    {
      hide EndpointRun, EndpointsLeft, BestEndpoint;
      var k := at;
      ghost var before := endpointsAt;
      EndpointsStart(c, at, before);
      while k < c.len
        invariant at <= k && BestEndpoint() && Here(k) && !pipes.faulted
        invariant EndpointsLeft(c, at, k, before, endpointsAt)
        decreases c.len - k
      {
        c.Step(k);
        EndpointsNext(c, at, k, before, endpointsAt);
        var kind := Inspect(k);
        if kind == ENDPOINT {
          var e := ParseStreamingEndpoint(k);
          if e.Fault? {
            return Fault;
          }
          k := k + e.n;
        } else if kind == CS_ENDPOINT {
          k := k + c.mem[k];
        } else {
          break;
        }
      }
      EndpointsStop(c, at, k, before, endpointsAt);
      return Parsed(k - at);
    }

    /** Keep the interface and its alternate setting for the request that selects them. */
    method SelectSetting(at: nat)
      requires at + 3 < |c.mem|
      modifies this`iface, this`alt, this`interfacesAt
      ensures LastSetting() && interfacesAt == old(interfacesAt) + [at]
    {
      alt, iface, interfacesAt := c.mem[at + 3], c.mem[at + 2], interfacesAt + [at];
    }

    /** The first half of uvc_parse_streaming: the interface, and its input header if one
        follows. */
    method ParseStreamingInterface(at: nat) returns (r: Outcome)
      requires BestFrame() && Here(at) && at < c.len && c.mem[at + 1] == INTERFACE
      modifies this`inspected, this`frames, this`offers, this`choice, this`iface, this`alt, this`interfacesAt
      ensures Walked() && (r.Parsed? ==> r.n > 0 && BestFrame() && Here(at + r.n))
      ensures r.Parsed? ==> LastSetting() && interfacesAt == old(interfacesAt) + [at]
      ensures Read(old(frames), frames, at, r, InterfaceAt(c, at))
    {
      hide HeaderBody, BestFrame, LastSetting;
      if c.mem[at + 5] != CLASS_VIDEO || c.mem[at + 6] != SC_VIDEOSTREAMING {
        return Fault;
      }
      SelectSetting(at);
      c.Step(at);
      var parsed: nat := c.mem[at];
      var kind := Inspect(at + parsed);
      if kind == CS_INTERFACE {
        var h := ParseInputHeader(at, at + parsed);
        if h.Fault? {
          return Fault;
        }
        parsed := parsed + h.n;
      }
      return Parsed(parsed);
    }

    /** uvc_parse_streaming. It stops where the reading stops, or where no pipe is to be had. */
    method ParseStreaming(at: nat) returns (r: Outcome)
      requires BestFrame() && BestEndpoint() && Here(at) && at < c.len && c.mem[at + 1] == INTERFACE && !pipes.faulted
      modifies this
      ensures Walked() && BestEndpoint() && (r.Parsed? ==> r.n > 0 && BestFrame() && Here(at + r.n))
      ensures r.Parsed? ==> LastSetting() && interfacesAt == old(interfacesAt) + [at]
      ensures r.Fault? <==> StreamingAt(c, at).fault || pipes.faulted
      ensures endpointsAt <= old(endpointsAt) + StreamingAt(c, at).endpoints
      ensures r.Parsed? ==>
                var s := StreamingAt(c, at);
                && at + r.n == s.end && frames == old(frames) + s.frames
                && endpointsAt == old(endpointsAt) + s.endpoints
    {
      hide InterfaceAt, EndpointRun, StreamingAt, BestFrame, BestEndpoint;
      StreamingIs(c, at);
      var h := ParseStreamingInterface(at);
      if h.Fault? {
        return Fault;
      }
      var e := ParseEndpoints(at + h.n);
      if e.Fault? {
        return Fault;
      }
      return Parsed(h.n + e.n);
    }

    /** uvc_parse_iad: 0 unless the association descriptor is the expected one. */
    method ParseIad(at: nat) returns (n: nat)
      requires Here(at)
      modifies this`inspected
      ensures Here(at + n) && at + n == AfterIad(c, at)
    {
      n := 0;
      if IAD_SIZE <= c.len - at && c.mem[at] == IAD_SIZE {
        var kind := Inspect(at);
        if kind == INTERFACE_ASC && c.mem[at + 4] == CLASS_VIDEO && c.mem[at + 5] == SC_COLLECTION {
          c.Step(at);
          n := IAD_SIZE;
        }
      }
    }

    /** uvc_parse_vcid: the video control interface. */
    method ParseControlInterface(at: nat) returns (n: nat)
      requires Here(at)
      modifies this`inspected
      ensures Here(at + n) && at + n == AfterControlInterface(c, at)
    {
      n := 0;
      if INTERFACE_SIZE <= c.len - at && c.mem[at] == INTERFACE_SIZE {
        var kind := Inspect(at);
        if kind == INTERFACE && c.mem[at + 5] == CLASS_VIDEO && c.mem[at + 6] == SC_VIDEOCONTROL {
          c.Step(at);
          n := INTERFACE_SIZE;
        }
      }
    }

    /** The switch of uvc_parse_csvcid: units and terminals are stepped over, an unknown
        subtype or a short input terminal ends the loop. */
    method ParseUnit(at: nat, ghost stop: nat) returns (n: nat)
      requires Here(at) && at < c.len && at < stop && c.mem[at + 1] == CS_INTERFACE
      ensures n == 0 || n == c.mem[at]
      ensures UnitsEnd(c, at, stop) == if n == 0 then at else UnitsEnd(c, at + n, stop)
    {
      c.Step(at);
      var subtype := c.mem[at + 2];
      if subtype == INPUT_TERMINAL {
        n := if c.len - at < MIN_INPUT_TERMINAL || c.mem[at] < MIN_INPUT_TERMINAL then 0 else c.mem[at];
      } else if 3 <= subtype <= 7 {
        n := c.mem[at];
      } else {
        n := 0;
      }
    }

    /** uvc_parse_csvcid: the class-specific control header and what its total covers. */
    method ParseControlHeader(at: nat) returns (n: nat)
      requires Here(at)
      modifies this`inspected
      ensures Here(at + n) && at + n == AfterControlHeader(c, at)
    {
      if c.len - at < MIN_VC_HEADER {
        return 0;
      }
      var kind := Inspect(at);
      if c.mem[at] < MIN_VC_HEADER || kind != CS_INTERFACE || c.mem[at + 2] != HEADER {
        return 0;
      }
      c.Step(at);
      n := ParseUnits(at, Le16(c.mem[at + 5], c.mem[at + 6]));
    }

    /** The loop of uvc_parse_csvcid. */
    method ParseUnits(at: nat, total: u16) returns (n: nat)
      requires Here(at) && at < c.len && Here(at + c.mem[at])
      modifies this`inspected
      ensures Here(at + n) && at + n == UnitsEnd(c, at + c.mem[at], at + total)
    {
      hide UnitsEnd;
      n := c.mem[at];
      ghost var stop := at + total;
      while n < total && n < c.len - at
        invariant Here(at + n) && UnitsEnd(c, at + n, stop) == UnitsEnd(c, at + c.mem[at], stop)
        decreases c.len - (at + n)
      {
        c.Step(at + n);
        UnitsStop(c, at + n, stop);
        var kind := Inspect(at + n);
        if kind != CS_INTERFACE {
          return;
        }
        var u := ParseUnit(at + n, stop);
        if u == 0 {
          return;
        }
        n := n + u;
      }
      UnitsStop(c, at + n, stop);
    }

    /** The endpoint loop of uvc_parse_control. */
    method ParseControlEndpoints(at: nat) returns (parsed: nat)
      requires Here(at)
      modifies this`inspected
      ensures Here(at + parsed) && at + parsed == ControlEndpointsEnd(c, at)
    {
      parsed := 0;
      while at + parsed < c.len
        invariant Here(at + parsed) && ControlEndpointsEnd(c, at + parsed) == ControlEndpointsEnd(c, at)
        decreases c.len - (at + parsed)
      {
        c.Step(at + parsed);
        var kind := Inspect(at + parsed);
        if kind == ENDPOINT || kind == CS_ENDPOINT {
          parsed := parsed + c.mem[at + parsed];
        } else {
          break;
        }
      }
    }

    /** uvc_parse_control. */
    method ParseControl(at: nat) returns (parsed: nat)
      requires Here(at)
      modifies this`inspected
      ensures Here(at + parsed) && at + parsed == ControlEnd(c, at)
    {
      hide AfterIad, AfterControlInterface, AfterControlHeader, ControlEndpointsEnd;
      parsed := ParseIad(at);
      var n := ParseControlInterface(at + parsed);
      parsed := parsed + n;
      n := ParseControlHeader(at + parsed);
      parsed := parsed + n;
      n := ParseControlEndpoints(at + parsed);
      parsed := parsed + n;
    }

    /** The loop of uvc_parse_all_config over streaming interfaces. */
    method ParseInterfaces(at: nat) returns (fault: bool)
      requires BestFrame() && BestEndpoint() && LastSetting() && Here(at) && !pipes.faulted
      modifies this
      ensures Walked() && BestEndpoint() && (fault <==> Interfaces(c, at).fault || pipes.faulted)
      ensures !fault ==> BestFrame() && LastSetting()
      ensures endpointsAt <= old(endpointsAt) + Interfaces(c, at).endpoints
      ensures !fault ==> interfacesAt == old(interfacesAt) + InterfacesAt(c, at)
      ensures !fault ==> frames == old(frames) + Interfaces(c, at).frames
      ensures !fault ==> endpointsAt == old(endpointsAt) + Interfaces(c, at).endpoints
    {
      hide Interfaces, StreamingAt, Partway, PartwayEnds, InterfacesLeft, BestFrame, BestEndpoint, LastSetting;
      var i := at;
      ghost var k0 := interfacesAt;
      InterfacesLeftStart(c, at, k0);
      ghost var all, f0, e0 := Interfaces(c, at), frames, endpointsAt;
      PartwayStart(f0, e0, all);
      while i < c.len
        invariant BestFrame() && BestEndpoint() && LastSetting() && Here(i) && !pipes.faulted
        invariant Partway(f0, frames, all, Interfaces(c, i)) && PartwayEnds(e0, endpointsAt, all, Interfaces(c, i))
        invariant InterfacesLeft(c, at, i, k0, interfacesAt)
        decreases c.len - i
      {
        c.Step(i);
        var kind := Inspect(i);
        if kind != INTERFACE {
          break;
        }
        InterfacesNext(c, i, f0, frames, e0, endpointsAt, all);
        InterfacesLeftNext(c, at, i, k0, interfacesAt);
        ghost var e := endpointsAt;
        var r := ParseStreaming(i);
        InterfacesCut(c, i, e0, e, endpointsAt, all);
        if r.Fault? || r.n == 0 {
          return true;
        }
        i := i + r.n;
      }
      InterfacesStop(c, i, f0, frames, e0, endpointsAt, all);
      InterfacesLeftStop(c, at, i, k0, interfacesAt);
      return false;
    }

    /** uvc_parse_all_config on a fresh record. It stays in bounds, inspects only descriptor
        boundaries and never goes back; it stops in the fault state exactly when the
        configuration presents a fault (PresentedExactly says when) or a pipe allocation fails.
        Otherwise it has read exactly the frame, endpoint and interface descriptors presented,
        in order, and the record holds the best frame and endpoint and the last setting. */
    method ParseAllConfig() returns (fault: bool)
      requires Valid() && frames == [] && endpointsAt == [] && interfacesAt == [] && inspected == []
      modifies this
      ensures Walked() && BestEndpoint() && (fault <==> Presented(c).fault || pipes.faulted)
      ensures endpointsAt <= Presented(c).endpoints && (!fault ==> Valid())
      ensures !fault ==> frames == Presented(c).frames && endpointsAt == Presented(c).endpoints
      ensures !fault ==> interfacesAt == InterfacesAt(c, ControlEnd(c, c.Len(0)))
    {
      assert c.OnChain(0);
      c.Step(0);
      NoEndpointNoPipe(endpoints);
      var i: nat := c.mem[0];
      var n := ParseControl(i);
      fault := ParseInterfaces(i + n);
    }
  }

  lemma UnitsStop(c: Config, k: nat, stop: nat)
    ensures k >= stop || k >= c.len || c.Kind(k) != CS_INTERFACE ==> UnitsEnd(c, k, stop) == k
  {}

  lemma NoEndpointNoPipe(es: seq<(Endpoint, nat)>)
    ensures es == [] ==> !VisitAll(es).faulted
  {}
}
