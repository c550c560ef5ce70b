/** What the camera driver keeps while it reads a configuration (uvc.c): the best frame
    descriptor within the target bit rate, and the best isochronous endpoint. */
module StreamChoice {
  import opened Bytes

  // Descriptor subtypes, also used as values of stream_format.
  const FORMAT_UNCOMPRESSED := 4
  const FORMAT_MJPEG := 6

  /** A frame descriptor together with its format. */
  datatype Offer = Offer(format: int, formatIdx: byte, frameIdx: byte, width: u16, height: u16,
                         rate: u32, interval: u32)

  const UNSET := Offer(0, 0, 0, 0, 0, 0, 0)

  /** The stream fields after one frame descriptor. MJPEG may replace anything,
      uncompressed never replaces MJPEG. */
  function Consider(target: u32, kept: Offer, o: Offer): Offer {
    if o.rate > kept.rate && o.rate <= target &&
       (kept.format == 0 || kept.format == FORMAT_UNCOMPRESSED ||
        (o.format == FORMAT_MJPEG && kept.format == FORMAT_MJPEG))
    then o else kept
  }

  function ConsiderAll(target: u32, offers: seq<Offer>): Offer {
    if offers == [] then UNSET
    else Consider(target, ConsiderAll(target, offers[..|offers| - 1]), offers[|offers| - 1])
  }

  lemma ConsiderSnoc(target: u32, offers: seq<Offer>, o: Offer)
    ensures ConsiderAll(target, offers + [o]) == Consider(target, ConsiderAll(target, offers), o)
  {
    assert (offers + [o])[..|offers|] == offers;
  }

  ghost predicate KnownFormats(offers: seq<Offer>) {
    forall o | o in offers :: o.format == FORMAT_UNCOMPRESSED || o.format == FORMAT_MJPEG
  }

  /** The offer at i is usable and beats every usable one of its format before it. */
  ghost predicate FirstBest(target: u32, offers: seq<Offer>, i: int, o: Offer) {
    && 0 <= i < |offers| && offers[i] == o && 0 < o.rate <= target
    && forall j | 0 <= j < i && offers[j].rate <= target && offers[j].format == o.format :: offers[j].rate < o.rate
  }

  /** After any list of frame descriptors the fields kept all come from one of them, the
      first of the highest usable rate of its format; unless it is MJPEG it has the highest
      usable rate of all; and nothing is kept only if no usable rate is above 0. */
  lemma {:induction false} ChoiceOptimal(target: u32, offers: seq<Offer>)
    requires KnownFormats(offers)
    ensures var c := ConsiderAll(target, offers);
            && (c == UNSET || exists i :: FirstBest(target, offers, i, c))
            && (forall o | o in offers && o.rate <= target && (o.format == c.format || c.format != FORMAT_MJPEG) ::
                  o.rate <= c.rate)
            && (c == UNSET <==> forall o | o in offers && o.rate <= target :: o.rate == 0)
  {
    if offers != [] {
      var n := |offers| - 1;
      var init, o := offers[..n], offers[n];
      ChoiceOptimal(target, init);
      var b, c := ConsiderAll(target, init), ConsiderAll(target, offers);
      assert offers == init + [o] && o in offers;
      if c == o && c != b {
        assert FirstBest(target, offers, n, o);
      } else if b != UNSET {
        var i :| FirstBest(target, init, i, b);
        assert FirstBest(target, offers, i, b);
        assert b in offers;
      }
    }
  }

  /** An uncompressed offer that comes after an MJPEG offer which led all usable offers
      before it. */
  ghost predicate ShutOut(target: u32, offers: seq<Offer>, j: int) {
    && 0 <= j < |offers| && offers[j].format == FORMAT_UNCOMPRESSED
    && exists i :: 0 <= i < j && Leads(target, offers, i)
  }

  ghost predicate Leads(target: u32, offers: seq<Offer>, i: int) {
    && 0 <= i < |offers| && offers[i].format == FORMAT_MJPEG && 0 < offers[i].rate <= target
    && forall h | 0 <= h < i && offers[h].rate <= target :: offers[h].rate < offers[i].rate
  }

  /** The stream turns MJPEG exactly when some MJPEG offer leads. */
  lemma {:induction false} MjpegWhenLed(target: u32, offers: seq<Offer>)
    requires KnownFormats(offers)
    ensures ConsiderAll(target, offers).format == FORMAT_MJPEG <==> exists i :: Leads(target, offers, i)
  {
    if offers != [] {
      var n := |offers| - 1;
      var init := offers[..n];
      MjpegWhenLed(target, init);
      ChoiceOptimal(target, init);
      var b := ConsiderAll(target, init);
      assert ConsiderAll(target, offers) == Consider(target, b, offers[n]);
      hide ConsiderAll;
      assert offers[n] in offers;
      assert forall i :: i < n ==> (Leads(target, offers, i) <==> Leads(target, init, i));
      if b.format == FORMAT_MJPEG {
        var i :| Leads(target, init, i);
        assert Leads(target, offers, i);
      } else {
        assert Leads(target, offers, n) <==> ConsiderAll(target, offers).format == FORMAT_MJPEG by {
          if Leads(target, offers, n) && b != UNSET {
            var i :| FirstBest(target, init, i, b);
            assert offers[i].rate == b.rate;
          }
          forall h | 0 <= h < n && offers[h].rate <= target ensures offers[h].rate <= b.rate {
            assert init[h] in init;
          }
        }
      }
    }
  }

  /** The highest usable rate of all is kept exactly when some offer of that rate was not
      shut out: the order of the descriptors decides, not the rates alone. */
  lemma BestOfAllExactly(target: u32, offers: seq<Offer>, best: u32)
    requires KnownFormats(offers) && best <= target
    requires exists o :: o in offers && o.rate == best
    requires forall o | o in offers && o.rate <= target :: o.rate <= best
    ensures ConsiderAll(target, offers).rate == best <==>
            best == 0 || exists j :: 0 <= j < |offers| && offers[j].rate == best && !ShutOut(target, offers, j)
  {
    ChoiceOptimal(target, offers);
    var c := ConsiderAll(target, offers);
    if c != UNSET {
      var i :| FirstBest(target, offers, i, c);
      assert offers[i] in offers;
      if c.rate == best {
        NotShutOut(target, offers, i);
      }
    }
    if best > 0 && (exists j :: 0 <= j < |offers| && offers[j].rate == best && !ShutOut(target, offers, j)) {
      var j :| 0 <= j < |offers| && offers[j].rate == best && !ShutOut(target, offers, j);
      assert offers[j] in offers;
      if offers[j].format != c.format && c.format == FORMAT_MJPEG {
        TakenInTime(target, offers, j);
      }
    }
  }

  lemma TwoOffers(target: u32, a: Offer, b: Offer)
    ensures ConsiderAll(target, [a, b]) == Consider(target, Consider(target, UNSET, a), b)
  {
    ConsiderSnoc(target, [], a);
    ConsiderSnoc(target, [a], b);
    assert [] + [a] == [a] && [a] + [b] == [a, b];
  }

  /** A slow MJPEG offer shuts out a faster uncompressed one behind it, though both are within
      the target. */
  lemma {:induction false} SlowerKept(a: Offer, b: Offer)
    requires a.format == FORMAT_MJPEG && b.format == FORMAT_UNCOMPRESSED && 0 < a.rate < b.rate
    ensures ConsiderAll(b.rate, [a, b]) == a && ConsiderAll(b.rate, [b, a]) == b
    ensures ShutOut(b.rate, [a, b], 1)
  {
    TwoOffers(b.rate, a, b);
    TwoOffers(b.rate, b, a);
    assert Leads(b.rate, [a, b], 0);
  }

  /** A kept uncompressed offer was never shut out, nor is any MJPEG offer. */
  lemma NotShutOut(target: u32, offers: seq<Offer>, i: int)
    requires KnownFormats(offers) && FirstBest(target, offers, i, ConsiderAll(target, offers))
    ensures !ShutOut(target, offers, i)
  {
    MjpegWhenLed(target, offers);
  }

  /** An offer of the highest rate that is not shut out was kept when it came, or an equal
      one before it, and nothing later exceeds it. */
  lemma {:induction false} TakenInTime(target: u32, offers: seq<Offer>, j: int)
    requires KnownFormats(offers) && 0 <= j < |offers| && 0 < offers[j].rate <= target
    requires forall o | o in offers && o.rate <= target :: o.rate <= offers[j].rate
    requires !ShutOut(target, offers, j) && offers[j].format == FORMAT_UNCOMPRESSED
    ensures ConsiderAll(target, offers).rate == offers[j].rate
  {
    var n := |offers| - 1;
    if j == n {
      TakenLast(target, offers);
    } else {
      var init := offers[..n];
      assert offers[n] in offers;
      assert !ShutOut(target, init, j) by {
        forall i | 0 <= i < j ensures Leads(target, init, i) ==> Leads(target, offers, i) {}
      }
      TakenInTime(target, init, j);
    }
  }

  lemma TakenLast(target: u32, offers: seq<Offer>)
    requires KnownFormats(offers) && offers != [] && 0 < offers[|offers| - 1].rate <= target
    requires forall o | o in offers && o.rate <= target :: o.rate <= offers[|offers| - 1].rate
    requires !ShutOut(target, offers, |offers| - 1) && offers[|offers| - 1].format == FORMAT_UNCOMPRESSED
    ensures ConsiderAll(target, offers).rate == offers[|offers| - 1].rate
  {
    var n := |offers| - 1;
    var init := offers[..n];
    MjpegWhenLed(target, init);
    forall i | 0 <= i < n ensures !Leads(target, init, i) {
      assert !Leads(target, offers, i);
    }
    RateBounded(target, init, offers[n].rate);
    ChoiceOptimal(target, init);
  }

  lemma RateBounded(target: u32, offers: seq<Offer>, best: u32)
    requires KnownFormats(offers)
    requires forall o | o in offers && o.rate <= target :: o.rate <= best
    ensures ConsiderAll(target, offers).rate <= best
  {
    ChoiceOptimal(target, offers);
    var c := ConsiderAll(target, offers);
    if c != UNSET {
      var i :| FirstBest(target, offers, i, c);
      assert c in offers;
    }
  }

  // ----- the streaming endpoint

  /** An endpoint descriptor: address, attributes and maximum packet size. */
  datatype Endpoint = Endpoint(addr: byte, attr: byte, size: u16) {
    /** An IN endpoint, isochronous and asynchronous. */
    predicate Eligible() {
      addr / 0x80 % 2 == 1 && attr % 0x10 == 5
    }
  }

  /** The stream pipe and the host library's view of it. `endpt` is the endpoint number that
      the pipe was configured with (the source keeps it in a field that later input headers
      overwrite). `faulted`: no pipe was to be had,
      and the driver stops. */
  datatype Pipes = Pipes(pipe: nat, endpt: byte, xferSize: u16, live: multiset<nat>,
                         granted: seq<nat>, freed: seq<nat>, faulted: bool)

  const NO_PIPES := Pipes(0, 0, 0, multiset{}, [], [], false)

  function Free(s: Pipes): Pipes {
    s.(pipe := 0, live := s.live - multiset{s.pipe}, freed := s.freed + [s.pipe])
  }

  /** Allocation answers with a handle, 0 on failure. */
  function Open(s: Pipes, e: Endpoint, handle: nat): Pipes {
    if handle == 0 then s.(endpt := e.addr % 0x10, faulted := true)
    else s.(pipe := handle, endpt := e.addr % 0x10, xferSize := e.size,
            live := s.live + multiset{handle}, granted := s.granted + [handle])
  }

  function Visit(s: Pipes, e: Endpoint, handle: nat): Pipes {
    if s.faulted || !e.Eligible() then s
    else if s.pipe != 0 && e.size <= s.xferSize then s
    else Open(if s.pipe != 0 then Free(s) else s, e, handle)
  }

  function VisitAll(es: seq<(Endpoint, nat)>): Pipes {
    if es == [] then NO_PIPES
    else Visit(VisitAll(es[..|es| - 1]), es[|es| - 1].0, es[|es| - 1].1)
  }

  lemma VisitSnoc(es: seq<(Endpoint, nat)>, e: Endpoint, handle: nat)
    ensures VisitAll(es + [(e, handle)]) == Visit(VisitAll(es), e, handle)
  {
    assert (es + [(e, handle)])[..|es|] == es;
  }

  /** Whatever handles the host library gives out, reused ones included: at most one pipe
      is live, and the pipes freed are exactly those allocated before it, once each and in
      order. */
  lemma {:induction false} OnePipeLive(es: seq<(Endpoint, nat)>)
    ensures var s := VisitAll(es);
            if s.faulted || s.pipe == 0 then s.pipe == 0 && s.live == multiset{} && s.freed == s.granted
            else s.live == multiset{s.pipe} && s.granted == s.freed + [s.pipe]
  {
    if es != [] {
      OnePipeLive(es[..|es| - 1]);
    }
  }

  ghost predicate FirstLargest(es: seq<(Endpoint, nat)>, i: int) {
    && 0 <= i < |es| && es[i].0.Eligible()
    && (forall j | 0 <= j < |es| && es[j].0.Eligible() :: es[j].0.size <= es[i].0.size)
    && (forall j | 0 <= j < i && es[j].0.Eligible() :: es[j].0.size < es[i].0.size)
  }

  /** The pipe belongs to the first of the largest eligible endpoints (number i); there
      is none only if no endpoint is eligible. */
  ghost predicate BestPipe(es: seq<(Endpoint, nat)>, s: Pipes, i: int) {
    if s.pipe == 0 then forall j | 0 <= j < |es| :: !es[j].0.Eligible()
    else FirstLargest(es, i) && s.pipe == es[i].1 && s.endpt == es[i].0.addr % 0x10 && s.xferSize == es[i].0.size
  }

  lemma VisitKeepsBest(es: seq<(Endpoint, nat)>, s: Pipes, s': Pipes, i: int)
    requires es != [] && BestPipe(es[..|es| - 1], s, i)
    requires s' == Visit(s, es[|es| - 1].0, es[|es| - 1].1) && !s'.faulted
    ensures BestPipe(es, s', if s' == s then i else |es| - 1)
  {
    hide Endpoint.Eligible;
    var n := |es| - 1;
    if s' == s {
      VisitStays(es, s, i);
    } else {
      VisitMoves(es, s, s', i);
    }
  }

  lemma VisitMoves(es: seq<(Endpoint, nat)>, s: Pipes, s': Pipes, i: int)
    requires es != [] && BestPipe(es[..|es| - 1], s, i) && es[|es| - 1].0.Eligible()
    requires s.pipe == 0 || es[|es| - 1].0.size > s.xferSize
    requires s'.pipe == es[|es| - 1].1 != 0 && s'.endpt == es[|es| - 1].0.addr % 0x10
    requires s'.xferSize == es[|es| - 1].0.size
    ensures BestPipe(es, s', |es| - 1)
  {
    hide Endpoint.Eligible;
    var n := |es| - 1;
    assert forall j | 0 <= j < n :: es[j] == es[..n][j];
    assert FirstLargest(es, n);
  }

  lemma VisitStays(es: seq<(Endpoint, nat)>, s: Pipes, i: int)
    requires es != [] && BestPipe(es[..|es| - 1], s, i) && !s.faulted
    requires es[|es| - 1].0.Eligible() ==> s.pipe != 0 && es[|es| - 1].0.size <= s.xferSize
    ensures BestPipe(es, s, i)
  {
    hide Endpoint.Eligible;
    var n := |es| - 1;
    assert forall j | 0 <= j < n :: es[j] == es[..n][j];
    if s.pipe != 0 {
      assert FirstLargest(es, i);
    }
  }

  /** Unless an allocation fails, the walk ends with the best pipe. */
  lemma {:induction false} EndpointOptimal(es: seq<(Endpoint, nat)>) returns (i: int)
    requires !VisitAll(es).faulted
    ensures BestPipe(es, VisitAll(es), i)
  {
    if es == [] {
      i := -1;
    } else {
      i := EndpointOptimal(es[..|es| - 1]);
      VisitKeepsBest(es, VisitAll(es[..|es| - 1]), VisitAll(es), i);
      i := if VisitAll(es) == VisitAll(es[..|es| - 1]) then i else |es| - 1;
    }
  }

  // ----- when no pipe is to be had

  /** The host library is asked for a pipe. */
  predicate Asks(s: Pipes, e: Endpoint) {
    !s.faulted && e.Eligible() && (s.pipe == 0 || e.size > s.xferSize)
  }

  /** The library's answers, in order. */
  function Answers(es: seq<(Endpoint, nat)>): seq<nat> {
    var n := |es| - 1;
    if es == [] then []
    else Answers(es[..n]) + if Asks(VisitAll(es[..n]), es[n].0) then [es[n].1] else []
  }

  /** The answers are the handles given, in order, and 0 once none are left. */
  ghost predicate HandedOut(given: seq<nat>, answers: seq<nat>, left: seq<nat>) {
    && (forall i | 0 <= i < |answers| :: answers[i] == if i < |given| then given[i] else 0)
    && left == if |answers| <= |given| then given[|answers|..] else []
  }

  lemma HandOutOne(given: seq<nat>, answers: seq<nat>, left: seq<nat>)
    requires HandedOut(given, answers, left)
    ensures if left == [] then HandedOut(given, answers + [0], []) else HandedOut(given, answers + [left[0]], left[1..])
  {}

  lemma AnswersSnoc(es: seq<(Endpoint, nat)>, e: Endpoint, handle: nat)
    ensures Answers(es + [(e, handle)]) == Answers(es) + if Asks(VisitAll(es), e) then [handle] else []
  {
    assert (es + [(e, handle)])[..|es|] == es;
  }

  /** An eligible endpoint, larger than every eligible one before it. */
  ghost predicate LargestYet(es: seq<(Endpoint, nat)>, n: int) {
    0 <= n < |es| && es[n].0.Eligible() && forall j | 0 <= j < n && es[j].0.Eligible() :: es[j].0.size < es[n].0.size
  }

  lemma {:induction false} AsksExactly(es: seq<(Endpoint, nat)>, n: int)
    requires 0 <= n < |es| && !VisitAll(es[..n]).faulted
    ensures Asks(VisitAll(es[..n]), es[n].0) <==> LargestYet(es, n)
  {
    var s := VisitAll(es[..n]);
    var i := EndpointOptimal(es[..n]);
    hide VisitAll, Endpoint.Eligible;
    assert forall j | 0 <= j < n :: es[..n][j] == es[j];
  }

  lemma LargestYetInit(es: seq<(Endpoint, nat)>, n: nat, k: int)
    requires n <= |es|
    ensures LargestYet(es[..n], k) <==> LargestYet(es, k) && k < n
    ensures 0 <= k < n ==> es[..n][k] == es[k]
  {
    hide Endpoint.Eligible;
    assert forall j | 0 <= j < n :: es[..n][j] == es[j];
  }

  lemma VisitLast(es: seq<(Endpoint, nat)>)
    requires es != []
    ensures var n := |es| - 1; VisitAll(es) == Visit(VisitAll(es[..n]), es[n].0, es[n].1)
  {}

  /** The driver stops for want of a pipe if and only if the library answers 0 for an eligible
      endpoint that is larger than every eligible one before it. */
  lemma {:induction false} RefusedExactly(es: seq<(Endpoint, nat)>)
    ensures VisitAll(es).faulted <==> exists n :: LargestYet(es, n) && es[n].1 == 0
  {
    if es != [] {
      var n := |es| - 1;
      var s := VisitAll(es[..n]);
      RefusedExactly(es[..n]);
      VisitLast(es);
      if s.faulted {
        var k :| LargestYet(es[..n], k) && es[..n][k].1 == 0;
        LargestYetInit(es, n, k);
      } else {
        AsksExactly(es, n);
        Refused(s, es[n].0, es[n].1);
        hide VisitAll, Visit, Asks;
        forall k | LargestYet(es, k) && es[k].1 == 0 ensures k == n {
          if k < n {
            LargestYetInit(es, n, k);
          }
        }
      }
    }
  }

  lemma Refused(s: Pipes, e: Endpoint, handle: nat)
    requires !s.faulted
    ensures Visit(s, e, handle).faulted <==> Asks(s, e) && handle == 0
  {}

  // ----- endpoints by what they are

  datatype Transfer = Control | Isochronous | Bulk | Interrupt

  datatype Sync = NoSync | Asynchronous | Adaptive | Synchronous

  /** An endpoint as USB describes it, and the address and attribute bytes that say so; `spare`
      are the three unused bits of the address, `usage` the upper four of the attributes. */
  datatype EndpointKind = EndpointKind(isIn: bool, spare: nat, number: nat, transfer: Transfer, sync: Sync, usage: nat,
                                       size: u16) {
    predicate Valid() {
      spare < 8 && number < 16 && usage < 16
    }

    function Encoded(): Endpoint
      requires Valid()
    {
      var t := match transfer case Control => 0 case Isochronous => 1 case Bulk => 2 case Interrupt => 3;
      var y := match sync case NoSync => 0 case Asynchronous => 1 case Adaptive => 2 case Synchronous => 3;
      Endpoint(number + 16 * spare + (if isIn then 0x80 else 0), t + 4 * y + 16 * usage, size)
    }

    /** What a stream needs; the usage does not matter. */
    predicate Streams() {
      isIn && transfer == Isochronous && sync == Asynchronous
    }
  }

  lemma {:induction false} EligibleExactly(k: EndpointKind)
    requires k.Valid()
    ensures k.Encoded().Eligible() <==> k.Streams()
    ensures k.Encoded().addr % 0x10 == k.number
  {
    var e := k.Encoded();
    assert e.attr % 0x10 == e.attr - 16 * k.usage;
    assert e.addr % 0x10 == k.number;
  }

  /** Every endpoint is one of these. */
  lemma {:induction false} EveryEndpoint(e: Endpoint) returns (k: EndpointKind)
    ensures k.Valid() && k.Encoded() == e
  {
    var t := match e.attr % 4 case 0 => Control case 1 => Isochronous case 2 => Bulk case _ => Interrupt;
    var y := match e.attr / 4 % 4 case 0 => NoSync case 1 => Asynchronous case 2 => Adaptive case _ => Synchronous;
    k := EndpointKind(e.addr / 0x80 == 1, e.addr / 0x10 % 8, e.addr % 0x10, t, y, e.attr / 0x10, e.size);
    Digits(e.addr, e.attr);
  }

  lemma Digits(addr: byte, attr: byte)
    ensures addr == addr % 0x10 + 16 * (addr / 0x10 % 8) + (if addr / 0x80 == 1 then 0x80 else 0)
    ensures attr == attr % 4 + 4 * (attr / 4 % 4) + 16 * (attr / 0x10)
  {
    assert addr / 0x80 <= 1 && addr / 0x10 == 8 * (addr / 0x80) + addr / 0x10 % 8;
    assert attr / 4 == 4 * (attr / 0x10) + attr / 4 % 4;
  }

  /** The first of the largest endpoints that can carry the stream. */
  ghost predicate FirstLargestStream(ks: seq<EndpointKind>, i: int) {
    && 0 <= i < |ks| && ks[i].Streams()
    && (forall j | 0 <= j < |ks| && ks[j].Streams() :: ks[j].size <= ks[i].size)
    && (forall j | 0 <= j < i && ks[j].Streams() :: ks[j].size < ks[i].size)
  }

  /** The endpoints with the handles that the host library answers with. */
  function Answered(ks: seq<EndpointKind>, handles: seq<nat>): seq<(Endpoint, nat)>
    requires |ks| == |handles| && forall k | k in ks :: k.Valid()
  {
    seq(|ks|, i requires 0 <= i < |ks| => (ks[i].Encoded(), handles[i]))
  }

  /** Unless an allocation fails, the walk ends with a pipe exactly when some endpoint is an
      isochronous, asynchronous IN endpoint; the pipe is that of the first largest one, with its
      number and size. */
  lemma {:induction false} PipeExactly(ks: seq<EndpointKind>, handles: seq<nat>)
    requires |ks| == |handles| && (forall k | k in ks :: k.Valid()) && !VisitAll(Answered(ks, handles)).faulted
    ensures var s := VisitAll(Answered(ks, handles));
            if s.pipe == 0 then forall k | k in ks :: !k.Streams()
            else exists i :: FirstLargestStream(ks, i) && s.pipe == handles[i]
                             && s.endpt == ks[i].number && s.xferSize == ks[i].size
  {
    var es := Answered(ks, handles);
    var i := EndpointOptimal(es);
    hide VisitAll, Endpoint.Eligible, EndpointKind.Encoded;
    forall j | 0 <= j < |ks| ensures es[j].0.Eligible() <==> ks[j].Streams() {
      EligibleExactly(ks[j]);
    }
    forall j | 0 <= j < |ks| ensures es[j].0.size == ks[j].size {
      SizeKept(ks[j]);
    }
    if VisitAll(es).pipe != 0 {
      EligibleExactly(ks[i]);
      assert FirstLargestStream(ks, i);
    }
  }

  lemma SizeKept(k: EndpointKind)
    requires k.Valid()
    ensures k.Encoded().size == k.size
  {}
}
