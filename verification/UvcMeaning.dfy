/** What a configuration presents, said of its descriptors alone: which of them the walk
    takes as frames and endpoints, and which defects stop it. */
module UvcMeaning {
  import opened Bytes
  import opened StreamChoice
  import opened UvcDescriptors

  /** The walk may stand at k. */
  ghost predicate Stand(c: Config, k: nat) {
    c.WellFormed() && c.OnChain(k) && k <= c.len
  }

  lemma StepTo(c: Config, k: nat)
    requires Stand(c, k) && k < c.len
    ensures c.Len(k) == c.mem[k] >= 3 && Stand(c, k + c.Len(k)) && k + 10 <= |c.mem|
  {
    c.Step(k);
  }

  // ----- the chain is a line

  lemma {:induction false} LeadsRange(c: Config, i: nat, j: nat)
    requires c.len <= |c.mem| && c.Leads(i, j)
    ensures i <= j && (i <= c.len ==> j <= c.len)
    decreases c.len - i
  {
    if i != j {
      LeadsRange(c, i + c.mem[i], j);
    }
  }

  lemma {:induction false} LeadsVia(c: Config, i: nat, j: nat, k: nat)
    requires c.len <= |c.mem| && c.Leads(i, j) && c.Leads(j, k)
    ensures c.Leads(i, k)
    decreases c.len - i
  {
    if i != j {
      LeadsVia(c, i + c.mem[i], j, k);
    }
  }

  /** Of two descriptors that i leads to, the one leads to the other. */
  lemma {:induction false} LeadsBetween(c: Config, i: nat, j: nat, k: nat)
    requires c.len <= |c.mem| && c.Leads(i, j) && c.Leads(i, k) && j <= k
    ensures c.Leads(j, k)
    decreases c.len - i
  {
    if i != j {
      LeadsRange(c, i + c.mem[i], j);
      assert i != k;
      LeadsBetween(c, i + c.mem[i], j, k);
    }
  }

  // ----- runs: where a loop over descriptors of one sort stops

  /** The descriptors from k on are p up to e, and e is not. */
  ghost predicate RunsTo(c: Config, k: nat, e: nat, p: nat -> bool) {
    c.len <= |c.mem| && c.Leads(k, e) && !p(e) && forall j: nat | c.Leads(k, j) && j < e :: p(j)
  }

  /** Every descriptor from k to j is p. */
  ghost predicate Through(c: Config, k: nat, j: nat, p: nat -> bool) {
    c.len <= |c.mem| && c.Leads(k, j) && forall b: nat | c.Leads(k, b) && b <= j :: p(b)
  }

  lemma RunEmpty(c: Config, k: nat, p: nat -> bool)
    requires c.len <= |c.mem| && !p(k)
    ensures RunsTo(c, k, k, p)
  {
    forall j: nat | c.Leads(k, j) ensures k <= j {
      LeadsRange(c, k, j);
    }
  }

  lemma RunLonger(c: Config, k: nat, e: nat, p: nat -> bool)
    requires Stand(c, k) && k < c.len && p(k) && RunsTo(c, k + c.Len(k), e, p)
    ensures RunsTo(c, k, e, p) && k < e
  {
    StepTo(c, k);
    LeadsRange(c, k + c.Len(k), e);
    forall j: nat | c.Leads(k, j) && j < e ensures p(j) {
      if j != k {
        assert c.Leads(k + c.Len(k), j);
      }
    }
  }

  /** A descriptor of this type begins at k. */
  ghost predicate Kinded(c: Config, k: nat, kind: int) {
    k < c.len && c.len + 7 <= |c.mem| && c.mem[k + 1] == kind
  }

  /** A frame descriptor (of at least 26 bytes, of the subtype behind the format's) at k. */
  ghost function FrameUnder(c: Config, formatAt: nat): nat -> bool {
    (k: nat) => Kinded(c, k, 0x24) && c.mem[k] >= 26 && c.mem[k + 2] == c.Sub(formatAt) + 1
  }

  ghost function AnyEndpoint(c: Config): nat -> bool {
    (k: nat) => Kinded(c, k, 5) || Kinded(c, k, 0x25)
  }

  ghost function ClassSpecific(c: Config): nat -> bool {
    (k: nat) => Kinded(c, k, 0x24)
  }

  /** A unit or terminal that the control header's total still covers: subtypes 2 to 7, an input
      terminal (2) of at least 8 bytes. */
  ghost function ControlUnit(c: Config, stop: nat): nat -> bool {
    (k: nat) =>
      && k < stop && Kinded(c, k, 0x24) && 2 <= c.mem[k + 2] <= 7 && (c.mem[k + 2] == 2 ==> c.mem[k] >= 8)
  }

  /** The frame descriptors of a format are the unbroken run of them behind it. */
  lemma {:induction false} FrameRunExact(c: Config, formatAt: nat, k: nat, f: FrameRef)
    requires Stand(c, k)
    ensures var r := FrameRun(c, formatAt, k);
            && RunsTo(c, k, r.end, FrameUnder(c, formatAt)) && Stand(c, r.end)
            && (f in r.frames <==> f.formatAt == formatAt && Through(c, k, f.at, FrameUnder(c, formatAt)))
    decreases c.len - k
  {
    var p := FrameUnder(c, formatAt);
    if IsFrame(c, k, formatAt) {
      StepTo(c, k);
      FrameRunExact(c, formatAt, k + c.Len(k), f);
      RunLonger(c, k, FrameRun(c, formatAt, k).end, p);
      ThroughStep(c, k, f.at, p);
    } else {
      RunEmpty(c, k, p);
      ThroughFirst(c, k, f.at, p);
    }
  }

  lemma ThroughFirst(c: Config, k: nat, j: nat, p: nat -> bool)
    requires !p(k)
    ensures !Through(c, k, j, p)
  {
    if Through(c, k, j, p) {
      LeadsRange(c, k, j);
      assert c.Leads(k, k);
    }
  }

  lemma ThroughStep(c: Config, k: nat, j: nat, p: nat -> bool)
    requires Stand(c, k) && k < c.len && p(k)
    ensures Through(c, k, j, p) <==> j == k || Through(c, k + c.Len(k), j, p)
  {
    StepTo(c, k);
    var next := k + c.Len(k);
    assert forall b: nat :: c.Leads(k, b) <==> b == k || c.Leads(next, b);
    if c.Leads(next, j) {
      LeadsRange(c, next, j);
    }
    if j == k {
      forall b: nat | c.Leads(k, b) && b <= k ensures p(b) {
        LeadsRange(c, k, b);
      }
    }
  }

  /** The endpoints of a streaming part are those in the run of endpoint descriptors. */
  lemma {:induction false} EndpointRunExact(c: Config, k: nat, e: nat)
    requires Stand(c, k)
    ensures var r := EndpointRun(c, k);
            && RunsTo(c, k, r.end, AnyEndpoint(c)) && Stand(c, r.end)
            && (e in r.endpoints <==> c.Kind(e) == ENDPOINT && Through(c, k, e, AnyEndpoint(c)))
    decreases c.len - k
  {
    var p := AnyEndpoint(c);
    if p(k) {
      StepTo(c, k);
      EndpointRunExact(c, k + c.Len(k), e);
      RunLonger(c, k, EndpointRun(c, k).end, p);
      ThroughStep(c, k, e, p);
    } else {
      if k < c.len {
        StepTo(c, k);
      }
      RunEmpty(c, k, p);
      ThroughFirst(c, k, e, p);
    }
  }

  lemma {:induction false} UnitsExact(c: Config, k: nat, stop: nat)
    requires Stand(c, k)
    ensures RunsTo(c, k, UnitsEnd(c, k, stop), ControlUnit(c, stop)) && Stand(c, UnitsEnd(c, k, stop))
    decreases c.len - k
  {
    if k < c.len {
      StepTo(c, k);
    }
    if ControlUnit(c, stop)(k) {
      UnitsExact(c, k + c.Len(k), stop);
      RunLonger(c, k, UnitsEnd(c, k, stop), ControlUnit(c, stop));
    } else {
      RunEmpty(c, k, ControlUnit(c, stop));
    }
  }

  lemma {:induction false} ControlEndpointsExact(c: Config, k: nat)
    requires Stand(c, k)
    ensures RunsTo(c, k, ControlEndpointsEnd(c, k), AnyEndpoint(c)) && Stand(c, ControlEndpointsEnd(c, k))
    decreases c.len - k
  {
    if AnyEndpoint(c)(k) {
      StepTo(c, k);
      ControlEndpointsExact(c, k + c.Len(k));
      RunLonger(c, k, ControlEndpointsEnd(c, k), AnyEndpoint(c));
    } else {
      RunEmpty(c, k, AnyEndpoint(c));
    }
  }

  // ----- the formats of an input header

  /** A format descriptor whose frames are read: every descriptor from the header's end h to
      it is class-specific, and the header's total covers it. */
  ghost predicate FormatIn(c: Config, h: nat, stop: nat, j: nat) {
    && j < stop && Through(c, h, j, ClassSpecific(c))
    && (c.Sub(j) == 4 || c.Sub(j) == 6)
  }

  /** The defects of a format: an uncompressed one of another size than 27, or whose GUID
      begins with a zero word. */
  ghost predicate BadFormat(c: Config, j: nat) {
    && c.Sub(j) == 4
    && (c.Len(j) != 27
        || (j + 9 <= |c.mem| && Le32(c.mem[j + 5], c.mem[j + 6], c.mem[j + 7], c.mem[j + 8]) == 0))
  }

  /** A frame descriptor in the unbroken run behind its format. */
  ghost predicate FrameOf(c: Config, f: FrameRef) {
    Through(c, f.formatAt + c.Len(f.formatAt), f.at, FrameUnder(c, f.formatAt))
  }

  /** The descriptor at h, and for a format the frames behind it, end at e. */
  lemma DescriptorExact(c: Config, h: nat)
    requires Stand(c, h) && ClassSpecific(c)(h)
    ensures h + 9 <= |c.mem|
    ensures var d := DescriptorAt(c, h);
            && (d.fault <==> BadFormat(c, h))
            && (!d.fault ==> h < d.end && Stand(c, d.end) && c.Leads(h, d.end))
            && forall b: nat | !d.fault && c.Leads(h, b) && h < b < d.end ::
                 ClassSpecific(c)(b) && c.Sub(b) != FORMAT_UNCOMPRESSED && c.Sub(b) != FORMAT_MJPEG
  {
    StepTo(c, h);
    var d, next := DescriptorAt(c, h), h + c.Len(h);
    RunNoEndpoints(c, h, next);
    assert c.Leads(h, next) by {
      assert c.Leads(next, next);
    }
    if !d.fault {
      if c.Sub(h) == FORMAT_UNCOMPRESSED || c.Sub(h) == FORMAT_MJPEG {
        FrameRunExact(c, h, next, FrameRef(0, 0));
        LeadsVia(c, h, next, d.end);
        LeadsRange(c, next, d.end);
      }
      forall b: nat | c.Leads(h, b) && h < b < d.end
        ensures ClassSpecific(c)(b) && c.Sub(b) != FORMAT_UNCOMPRESSED && c.Sub(b) != FORMAT_MJPEG
      {
        assert c.Leads(next, b);
        LeadsRange(c, next, b);
        assert FrameUnder(c, h)(b);
      }
    }
  }

  /** Behind a descriptor without defect the formats are those from where it ends. */
  lemma FormatsBehind(c: Config, h: nat, stop: nat, j: nat)
    requires Stand(c, h) && ClassSpecific(c)(h) && !DescriptorAt(c, h).fault && j != h
    ensures FormatIn(c, h, stop, j) <==> FormatIn(c, DescriptorAt(c, h).end, stop, j)
  {
    DescriptorExact(c, h);
    var e := DescriptorAt(c, h).end;
    if FormatIn(c, h, stop, j) {
      LeadsRange(c, h, j);
      LeadsBetween(c, h, e, j);
      forall b: nat | c.Leads(e, b) && b <= j ensures ClassSpecific(c)(b) {
        LeadsVia(c, h, e, b);
      }
    }
    if FormatIn(c, e, stop, j) {
      LeadsVia(c, h, e, j);
      forall b: nat | c.Leads(h, b) && b <= j ensures ClassSpecific(c)(b) {
        LeadsRange(c, h, b);
        if e <= b {
          LeadsBetween(c, h, e, b);
        }
      }
    }
  }

  /** Is the descriptor at h the next one of the header? */
  ghost predicate MoreBody(c: Config, h: nat, stop: nat) {
    h < stop && ClassSpecific(c)(h)
  }

  lemma BodyNow(c: Config, h: nat, stop: nat)
    requires Stand(c, h)
    ensures MoreBody(c, h, stop) ==> h + 9 <= |c.mem|
    ensures MoreBody(c, h, stop) ==>
              var d := DescriptorAt(c, h);
              HeaderBody(c, h, stop) == if d.fault then d else d.Then(HeaderBody(c, d.end, stop))
    ensures !MoreBody(c, h, stop) ==> HeaderBody(c, h, stop) == Nothing(h)
    ensures !MoreBody(c, h, stop) ==> forall j: nat :: !FormatIn(c, h, stop, j)
  {
    if MoreBody(c, h, stop) {
      DescriptorExact(c, h);
    } else {
      forall j: nat ensures !FormatIn(c, h, stop, j) {
        if FormatIn(c, h, stop, j) {
          LeadsRange(c, h, j);
          assert c.Leads(h, h);
        }
      }
    }
  }

  /** Reading a header's descriptors stops the driver exactly when one of its formats has a
      defect. */
  lemma {:induction false} BodyFaultExactly(c: Config, h: nat, stop: nat)
    requires Stand(c, h)
    ensures HeaderBody(c, h, stop).fault <==> exists j: nat :: FormatIn(c, h, stop, j) && BadFormat(c, j)
    ensures !HeaderBody(c, h, stop).fault ==> Stand(c, HeaderBody(c, h, stop).end) && h <= HeaderBody(c, h, stop).end
    decreases c.len - h
  {
    BodyNow(c, h, stop);
    if MoreBody(c, h, stop) {
      DescriptorExact(c, h);
      var d := DescriptorAt(c, h);
      if d.fault {
        FormatHere(c, h, stop);
      } else {
        BodyFaultExactly(c, d.end, stop);
        forall j: nat | BadFormat(c, j) ensures FormatIn(c, h, stop, j) <==> FormatIn(c, d.end, stop, j) {
          if j != h {
            FormatsBehind(c, h, stop, j);
          } else {
            assert false;
          }
        }
      }
    }
  }

  lemma FormatHere(c: Config, h: nat, stop: nat)
    requires MoreBody(c, h, stop) && c.WellFormed()
    ensures FormatIn(c, h, stop, h) <==> c.Sub(h) == FORMAT_UNCOMPRESSED || c.Sub(h) == FORMAT_MJPEG
  {
    forall b: nat | c.Leads(h, b) ensures h <= b {
      LeadsRange(c, h, b);
    }
  }

  /** Otherwise it takes exactly the frames of its formats. */
  lemma {:induction false} BodyFramesExactly(c: Config, h: nat, stop: nat, f: FrameRef)
    requires Stand(c, h) && !HeaderBody(c, h, stop).fault
    ensures f in HeaderBody(c, h, stop).frames <==> FormatIn(c, h, stop, f.formatAt) && FrameOf(c, f)
    decreases c.len - h
  {
    BodyNow(c, h, stop);
    if MoreBody(c, h, stop) {
      DescriptorExact(c, h);
      var d := DescriptorAt(c, h);
      BodyFramesExactly(c, d.end, stop, f);
      DescriptorFrames(c, h, f);
      FormatHere(c, h, stop);
      if f.formatAt != h {
        FormatsBehind(c, h, stop, f.formatAt);
      } else {
        NotBehind(c, d.end, stop, h);
      }
    }
  }

  lemma NotBehind(c: Config, e: nat, stop: nat, h: nat)
    requires h < e && Stand(c, e)
    ensures !FormatIn(c, e, stop, h)
  {
    if FormatIn(c, e, stop, h) {
      LeadsRange(c, e, h);
    }
  }

  lemma DescriptorFrames(c: Config, h: nat, f: FrameRef)
    requires Stand(c, h) && ClassSpecific(c)(h) && h + 9 <= |c.mem| && !DescriptorAt(c, h).fault
    ensures f in DescriptorAt(c, h).frames <==>
            f.formatAt == h && FrameOf(c, f) && (c.Sub(h) == FORMAT_UNCOMPRESSED || c.Sub(h) == FORMAT_MJPEG)
  {
    StepTo(c, h);
    FrameRunExact(c, h, h + c.Len(h), f);
  }

  // ----- streaming interfaces

  ghost predicate BadClass(c: Config, i: nat) {
    i + 7 <= |c.mem| && (c.mem[i + 5] != 0x0E || c.mem[i + 6] != 2)
  }

  /** A class-specific descriptor stands behind the interface: it should be its input header. */
  ghost predicate HasHeader(c: Config, i: nat) {
    c.Kind(i + c.Len(i)) == 0x24
  }

  ghost predicate BadHeader(c: Config, i: nat) {
    var j := i + c.Len(i);
    HasHeader(c, i) && (j >= c.len || c.Len(j) < 13 || c.Sub(j) != 1)
  }

  /** A format that the interface's input header announces. */
  ghost predicate FormatOf(c: Config, i: nat, j: nat) {
    var k := i + c.Len(i);
    && !BadClass(c, i) && HasHeader(c, i) && !BadHeader(c, i) && k + 6 <= |c.mem|
    && FormatIn(c, k + c.Len(k), k + Le16(c.mem[k + 4], c.mem[k + 5]), j)
  }

  /** The defects of a streaming interface: its class or subclass, its input header, or one
      of its formats. */
  ghost predicate BadInterface(c: Config, i: nat) {
    BadClass(c, i) || BadHeader(c, i) || exists j: nat :: FormatOf(c, i, j) && BadFormat(c, j)
  }

  /** Behind a proper interface with a proper header lies a header body. */
  lemma HeaderStand(c: Config, i: nat)
    requires Stand(c, i) && IsInterface(c, i) && !BadClass(c, i) && HasHeader(c, i) && !BadHeader(c, i)
    ensures var k := i + c.Len(i);
            && i < k && k + 6 <= |c.mem| && Stand(c, k + c.Len(k)) && k < k + c.Len(k)
            && InterfaceAt(c, i) == HeaderBody(c, k + c.Len(k), k + Le16(c.mem[k + 4], c.mem[k + 5]))
  {
    StepTo(c, i);
    StepTo(c, i + c.Len(i));
  }

  lemma NoHeaderStand(c: Config, i: nat)
    requires Stand(c, i) && IsInterface(c, i) && (BadClass(c, i) || !HasHeader(c, i) || BadHeader(c, i))
    ensures var r := InterfaceAt(c, i);
            && r.frames == [] && (r.fault <==> BadClass(c, i) || BadHeader(c, i))
            && (!r.fault ==> i < r.end && Stand(c, r.end))
  {
    StepTo(c, i);
    if i + c.Len(i) < c.len {
      StepTo(c, i + c.Len(i));
    }
  }

  lemma InterfaceExact(c: Config, i: nat, f: FrameRef)
    requires Stand(c, i) && IsInterface(c, i)
    ensures var r := InterfaceAt(c, i);
            && (r.fault <==> BadInterface(c, i))
            && (!r.fault ==>
                  && i < r.end && Stand(c, r.end)
                  && (f in r.frames <==> FormatOf(c, i, f.formatAt) && FrameOf(c, f)))
  {
    var k := i + c.Len(i);
    if !BadClass(c, i) && HasHeader(c, i) && !BadHeader(c, i) {
      HeaderStand(c, i);
      hide InterfaceAt, HeaderBody, FormatIn, FrameOf, BadFormat, Stand, BadClass, HasHeader, BadHeader;
      var h, stop := k + c.Len(k), k + Le16(c.mem[k + 4], c.mem[k + 5]);
      BodyFaultExactly(c, h, stop);
      assert forall j: nat :: FormatOf(c, i, j) <==> FormatIn(c, h, stop, j);
      if !InterfaceAt(c, i).fault {
        BodyFramesExactly(c, h, stop, f);
      }
    } else {
      NoHeaderStand(c, i);
    }
  }

  /** An endpoint behind the interface's class-specific descriptors. */
  ghost predicate EndpointOf(c: Config, i: nat, e: nat) {
    && i + 7 <= |c.mem| && c.Kind(e) == ENDPOINT
    && Through(c, InterfaceAt(c, i).end, e, AnyEndpoint(c))
  }

  lemma StreamingExact(c: Config, i: nat, f: FrameRef, e: nat)
    requires Stand(c, i) && IsInterface(c, i)
    ensures var s := StreamingAt(c, i);
            && (s.fault <==> BadInterface(c, i))
            && (!s.fault ==>
                  && i < s.end && Stand(c, s.end)
                  && (f in s.frames <==> FormatOf(c, i, f.formatAt) && FrameOf(c, f))
                  && (e in s.endpoints <==> EndpointOf(c, i, e)))
  {
    hide InterfaceAt, StreamingAt, EndpointRun, FormatOf, FrameOf, BadInterface, Config.WellFormed, Config.OnChain;
    InterfaceExact(c, i, f);
    StreamingIs(c, i);
    var r := InterfaceAt(c, i);
    if !r.fault {
      EndpointRunExact(c, r.end, e);
      LeadsRange(c, r.end, EndpointRun(c, r.end).end);
    }
  }

  ghost predicate SomeFormatOf(c: Config, ks: seq<nat>, f: FrameRef) {
    FrameOf(c, f) && exists i :: i in ks && FormatOf(c, i, f.formatAt)
  }

  ghost predicate SomeEndpointOf(c: Config, ks: seq<nat>, e: nat) {
    exists i :: i in ks && EndpointOf(c, i, e)
  }

  ghost predicate SomeBad(c: Config, ks: seq<nat>) {
    exists i :: i in ks && BadInterface(c, i)
  }

  lemma {:induction false} InterfacesExact(c: Config, k: nat, f: FrameRef, e: nat)
    requires Stand(c, k)
    ensures var r, ks := Interfaces(c, k), InterfacesAt(c, k);
            && (r.fault <==> SomeBad(c, ks))
            && (!r.fault ==>
                  && (f in r.frames <==> SomeFormatOf(c, ks, f))
                  && (e in r.endpoints <==> SomeEndpointOf(c, ks, e)))
    decreases c.len - k
  {
    if k < c.len {
      StepTo(c, k);
    }
    if IsInterface(c, k) {
      StreamingExact(c, k, f, e);
      var s := StreamingAt(c, k);
      if !s.fault {
        InterfacesExact(c, s.end, f, e);
        var ks := InterfacesAt(c, s.end);
        assert InterfacesAt(c, k) == [k] + ks;
        assert forall i :: i in [k] + ks <==> i == k || i in ks;
      } else {
        assert k in InterfacesAt(c, k);
      }
    }
  }

  /** From one interface to the next: the first descriptors behind the control part, then each
      time the end of a streaming part without defect, until there is a defect or another
      descriptor. */
  lemma {:induction false} InterfacesLinked(c: Config, k: nat, n: nat)
    requires Stand(c, k) && n < |InterfacesAt(c, k)|
    ensures var ks := InterfacesAt(c, k);
            && Stand(c, ks[n]) && IsInterface(c, ks[n])
            && ks[n] == (if n == 0 then k else if ks[n - 1] + 7 <= |c.mem| then StreamingAt(c, ks[n - 1]).end else 0)
            && (BadInterface(c, ks[n]) ==> n == |ks| - 1)
            && (n == |ks| - 1 ==> BadInterface(c, ks[n]) || !IsInterface(c, StreamingAt(c, ks[n]).end))
    decreases c.len - k
  {
    StepTo(c, k);
    StreamingExact(c, k, FrameRef(0, 0), 0);
    var s := StreamingAt(c, k);
    if !s.fault {
      var ks := InterfacesAt(c, s.end);
      assert InterfacesAt(c, k) == [k] + ks;
      if n > 0 {
        InterfacesLinked(c, s.end, n - 1);
      } else {
        assert ks == [] <==> !IsInterface(c, s.end);
      }
    }
  }

  /** A streaming part: the interface, its class-specific descriptors while the header's total
      covers them (and the frames of the last format), and the run of endpoints behind them. */
  lemma {:induction false} BodyEndExactly(c: Config, h: nat, stop: nat)
    requires Stand(c, h) && !HeaderBody(c, h, stop).fault
    ensures var e := HeaderBody(c, h, stop).end;
            && Stand(c, e) && c.Leads(h, e) && !MoreBody(c, e, stop)
            && forall b: nat | c.Leads(h, b) && b < e :: ClassSpecific(c)(b)
    decreases c.len - h
  {
    BodyNow(c, h, stop);
    if MoreBody(c, h, stop) {
      DescriptorExact(c, h);
      var next, e := DescriptorAt(c, h).end, HeaderBody(c, h, stop).end;
      BodyEndExactly(c, next, stop);
      LeadsVia(c, h, next, e);
      forall b: nat | c.Leads(h, b) && b < e ensures ClassSpecific(c)(b) {
        LeadsRange(c, h, b);
        if next <= b {
          LeadsBetween(c, h, next, b);
        }
      }
    } else {
      forall b: nat | c.Leads(h, b) ensures h <= b {
        LeadsRange(c, h, b);
      }
    }
  }

  /** What the walk makes of a configuration, said of its descriptors: it stops in the fault
      state exactly when one of the streaming interfaces it comes to has a defect; otherwise the
      frames it takes are those in the unbroken runs behind the formats of these interfaces,
      and the endpoints are those behind them. */
  lemma {:induction false} PresentedExactly(c: Config, f: FrameRef, e: nat)
    requires c.WellFormed()
    ensures var r, ks := Presented(c), InterfacesAt(c, ControlEnd(c, c.Len(0)));
            && (r.fault <==> SomeBad(c, ks))
            && (!r.fault ==>
                  && (f in r.frames <==> SomeFormatOf(c, ks, f))
                  && (e in r.endpoints <==> SomeEndpointOf(c, ks, e)))
  {
    ControlExact(c);
    InterfacesExact(c, ControlEnd(c, c.Len(0)), f, e);
  }

  lemma IadStand(c: Config, k: nat)
    requires Stand(c, k)
    ensures Stand(c, AfterIad(c, k))
  {
    if AfterIad(c, k) != k {
      StepTo(c, k);
    }
  }

  lemma ControlInterfaceStand(c: Config, k: nat)
    requires Stand(c, k)
    ensures Stand(c, AfterControlInterface(c, k))
  {
    if AfterControlInterface(c, k) != k {
      StepTo(c, k);
    }
  }

  lemma ControlHeaderStand(c: Config, k: nat)
    requires Stand(c, k)
    ensures Stand(c, AfterControlHeader(c, k))
  {
    if AfterControlHeader(c, k) != k {
      StepTo(c, k);
      UnitsExact(c, k + c.Len(k), k + Le16(c.mem[k + 5], c.mem[k + 6]));
    }
  }

  lemma ControlExact(c: Config)
    requires c.WellFormed()
    ensures Stand(c, ControlEnd(c, c.Len(0)))
  {
    assert Stand(c, 0);
    StepTo(c, 0);
    hide Config.WellFormed, Config.OnChain, AfterIad, AfterControlInterface, AfterControlHeader;
    var k := c.Len(0);
    IadStand(c, k);
    ControlInterfaceStand(c, AfterIad(c, k));
    ControlHeaderStand(c, AfterControlInterface(c, AfterIad(c, k)));
    ControlEndpointsExact(c, AfterControlHeader(c, AfterControlInterface(c, AfterIad(c, k))));
  }

  // ----- the control part

  /** An interface association descriptor of a video interface collection, */
  ghost predicate AssociationAt(c: Config, k: nat) {
    && k + 8 <= c.len <= |c.mem| && c.mem[k] == 8 && c.mem[k + 1] == 0x0B
    && c.mem[k + 4] == 0x0E && c.mem[k + 5] == 3
  }

  /** an interface descriptor of a video control interface, */
  ghost predicate ControlInterfaceAt(c: Config, k: nat) {
    && k + 9 <= c.len <= |c.mem| && c.mem[k] == 9 && c.mem[k + 1] == 4
    && c.mem[k + 5] == 0x0E && c.mem[k + 6] == 1
  }

  /** and a class-specific header of such an interface. */
  ghost predicate ControlHeaderAt(c: Config, k: nat) {
    k + 12 <= c.len <= |c.mem| && c.mem[k] >= 12 && c.mem[k + 1] == 0x24 && c.mem[k + 2] == 1
  }

  /** The units from k on that a header's total covers, then endpoints, up to e. */
  ghost predicate UnitsAndEndpoints(c: Config, k: nat, stop: nat, e: nat) {
    exists k3: nat :: RunsTo(c, k, k3, ControlUnit(c, stop)) && RunsTo(c, k3, e, AnyEndpoint(c))
  }

  /** The control part from k on ends at e: behind an association, if one stands first; then behind
      a control interface, if one follows; then behind a control header and the units that its
      own total covers, if one follows; then behind the run of endpoints. */
  ghost predicate ControlPart(c: Config, k: nat, e: nat) {
    var k1 := if AssociationAt(c, k) then k + 8 else k;
    var k2 := if ControlInterfaceAt(c, k1) then k1 + 9 else k1;
    HeaderPart(c, k2, e)
  }

  ghost predicate HeaderPart(c: Config, k: nat, e: nat) {
    if ControlHeaderAt(c, k) then UnitsAndEndpoints(c, k + c.mem[k], k + Le16(c.mem[k + 5], c.mem[k + 6]), e)
    else RunsTo(c, k, e, AnyEndpoint(c))
  }

  lemma RunsOnce(c: Config, k: nat, e: nat, e': nat, p: nat -> bool)
    requires RunsTo(c, k, e, p) && RunsTo(c, k, e', p)
    ensures e == e'
  {}

  lemma AssociationExactly(c: Config, k: nat)
    requires c.len <= |c.mem|
    ensures AfterIad(c, k) == if AssociationAt(c, k) then k + 8 else k
  {}

  lemma ControlInterfaceExactly(c: Config, k: nat)
    requires c.len <= |c.mem|
    ensures AfterControlInterface(c, k) == if ControlInterfaceAt(c, k) then k + 9 else k
  {}

  lemma {:induction false} ControlEndExactly(c: Config, e: nat)
    requires c.WellFormed()
    ensures ControlPart(c, c.Len(0), e) <==> e == ControlEnd(c, c.Len(0))
  {
    assert Stand(c, 0);
    StepTo(c, 0);
    hide AfterIad, AfterControlInterface, AfterControlHeader, Stand, AssociationAt, ControlInterfaceAt;
    hide HeaderPart, ControlEndpointsEnd;
    var k := c.Len(0);
    AssociationExactly(c, k);
    IadStand(c, k);
    var k1 := AfterIad(c, k);
    ControlInterfaceExactly(c, k1);
    ControlInterfaceStand(c, k1);
    ControlHeaderExactly(c, AfterControlInterface(c, k1), e);
  }

  lemma ControlHeaderExactly(c: Config, k: nat, e: nat)
    requires Stand(c, k)
    ensures HeaderPart(c, k, e) <==> e == ControlEndpointsEnd(c, AfterControlHeader(c, k))
  {
    ControlHeaderStand(c, k);
    var h := AfterControlHeader(c, k);
    if ControlHeaderAt(c, k) {
      StepTo(c, k);
      var start, stop := k + c.mem[k], k + Le16(c.mem[k + 5], c.mem[k + 6]);
      UnitsExact(c, start, stop);
      assert h == UnitsEnd(c, start, stop);
      hide RunsTo, UnitsEnd, ControlEndpointsEnd, Stand;
      EndpointsOnce(c, h, e);
      var p := ControlUnit(c, stop);
      forall k3: nat | RunsTo(c, start, k3, p) ensures k3 == h {
        RunsOnce(c, start, k3, h, p);
      }
    } else {
      assert h == k;
      EndpointsOnce(c, h, e);
    }
  }

  lemma EndpointsOnce(c: Config, k: nat, e: nat)
    requires Stand(c, k)
    ensures RunsTo(c, k, e, AnyEndpoint(c)) <==> e == ControlEndpointsEnd(c, k)
  {
    ControlEndpointsExact(c, k);
    if RunsTo(c, k, e, AnyEndpoint(c)) {
      RunsOnce(c, k, e, ControlEndpointsEnd(c, k), AnyEndpoint(c));
    }
  }

  // ----- positions in order

  /** Increasing positions between lo and hi. */
  ghost predicate Rising(ks: seq<nat>, lo: nat, hi: nat) {
    lo <= hi && (forall i | 0 <= i < |ks| :: lo <= ks[i] < hi) && forall i, j | 0 <= i < j < |ks| :: ks[i] < ks[j]
  }

  lemma RisingJoined(ks: seq<nat>, ls: seq<nat>, lo: nat, mid: nat, hi: nat)
    requires Rising(ks, lo, mid) && Rising(ls, mid, hi)
    ensures Rising(ks + ls, lo, hi)
  {}

  lemma {:induction false} EndpointsRise(c: Config, k: nat)
    requires Stand(c, k)
    ensures Rising(EndpointRun(c, k).endpoints, k, EndpointRun(c, k).end) && Stand(c, EndpointRun(c, k).end)
    decreases c.len - k
  {
    if AnyEndpoint(c)(k) {
      StepTo(c, k);
      var next := k + c.Len(k);
      EndpointsRise(c, next);
      EndpointRunNext(c, k);
      hide EndpointRun, Config.WellFormed, Config.OnChain;
      var here, rest := if c.Kind(k) == ENDPOINT then [k] else [], EndpointRun(c, next);
      RisingJoined(here, rest.endpoints, k, next, rest.end);
    }
  }

  lemma EndpointRunNext(c: Config, k: nat)
    requires AnyEndpoint(c)(k) && c.Len(k) > 0
    ensures var r := EndpointRun(c, k + c.Len(k));
            EndpointRun(c, k).end == r.end &&
            EndpointRun(c, k).endpoints == (if c.Kind(k) == ENDPOINT then [k] else []) + r.endpoints
  {}

  lemma {:induction false} PresentedRises(c: Config, k: nat)
    requires Stand(c, k) && !Interfaces(c, k).fault
    ensures Rising(Interfaces(c, k).endpoints, k, Interfaces(c, k).end)
    decreases c.len - k
  {
    if IsInterface(c, k) {
      var s := StreamingAt(c, k);
      StreamingExact(c, k, FrameRef(0, 0), 0);
      StreamingRises(c, k);
      PresentedRises(c, s.end);
      RisingJoined(s.endpoints, Interfaces(c, s.end).endpoints, k, s.end, Interfaces(c, s.end).end);
    }
  }

  lemma StreamingRises(c: Config, k: nat)
    requires Stand(c, k) && IsInterface(c, k) && !StreamingAt(c, k).fault
    ensures Rising(StreamingAt(c, k).endpoints, k, StreamingAt(c, k).end)
  {
    StreamingIs(c, k);
    InterfaceExact(c, k, FrameRef(0, 0));
    var h := InterfaceAt(c, k);
    EndpointsRise(c, h.end);
    RisingJoined([], EndpointRun(c, h.end).endpoints, k, h.end, StreamingAt(c, k).end);
    assert [] + EndpointRun(c, h.end).endpoints == EndpointRun(c, h.end).endpoints;
  }

  // ----- the frames in order, and the best of them

  function Positions(fs: seq<FrameRef>): seq<nat> {
    seq(|fs|, i requires 0 <= i < |fs| => fs[i].at)
  }

  lemma FramesJoined(fs: seq<FrameRef>, gs: seq<FrameRef>, lo: nat, mid: nat, hi: nat)
    requires Rising(Positions(fs), lo, mid) && Rising(Positions(gs), mid, hi)
    ensures Rising(Positions(fs + gs), lo, hi)
  {
    RisingJoined(Positions(fs), Positions(gs), lo, mid, hi);
    assert Positions(fs + gs) == Positions(fs) + Positions(gs);
  }

  lemma {:induction false} FrameRunRises(c: Config, formatAt: nat, k: nat)
    requires Stand(c, k)
    ensures var r := FrameRun(c, formatAt, k); Rising(Positions(r.frames), k, r.end)
    decreases c.len - k
  {
    if IsFrame(c, k, formatAt) {
      StepTo(c, k);
      var next := k + c.Len(k);
      FrameRunRises(c, formatAt, next);
      var rest := FrameRun(c, formatAt, next);
      FramesJoined([FrameRef(k, formatAt)], rest.frames, k, next, rest.end);
    }
  }

  lemma DescriptorRises(c: Config, h: nat)
    requires Stand(c, h) && ClassSpecific(c)(h) && h + 9 <= |c.mem| && !DescriptorAt(c, h).fault
    ensures var d := DescriptorAt(c, h); h < d.end && Rising(Positions(d.frames), h, d.end)
  {
    DescriptorExact(c, h);
    StepTo(c, h);
    FrameRunRises(c, h, h + c.Len(h));
  }

  lemma {:induction false} BodyRises(c: Config, h: nat, stop: nat)
    requires Stand(c, h) && !HeaderBody(c, h, stop).fault
    ensures var r := HeaderBody(c, h, stop); Rising(Positions(r.frames), h, r.end)
    decreases c.len - h
  {
    BodyNow(c, h, stop);
    if MoreBody(c, h, stop) {
      DescriptorExact(c, h);
      DescriptorRises(c, h);
      var d := DescriptorAt(c, h);
      BodyRises(c, d.end, stop);
      FramesJoined(d.frames, HeaderBody(c, d.end, stop).frames, h, d.end, HeaderBody(c, d.end, stop).end);
    }
  }

  lemma InterfaceFramesRise(c: Config, i: nat)
    requires Stand(c, i) && IsInterface(c, i) && !InterfaceAt(c, i).fault
    ensures var r := InterfaceAt(c, i); Rising(Positions(r.frames), i, r.end) && Stand(c, r.end)
  {
    hide InterfaceAt, HeaderBody, Positions, Stand, BadClass, HasHeader, BadHeader;
    if !BadClass(c, i) && HasHeader(c, i) && !BadHeader(c, i) {
      HeaderStand(c, i);
      var k := i + c.Len(i);
      var h, stop := k + c.Len(k), k + Le16(c.mem[k + 4], c.mem[k + 5]);
      BodyFaultExactly(c, h, stop);
      BodyRises(c, h, stop);
      RisingFrom(Positions(InterfaceAt(c, i).frames), i, h, InterfaceAt(c, i).end);
    } else {
      NoHeaderStand(c, i);
      RisingNone(i, InterfaceAt(c, i).end);
    }
  }

  lemma RisingNone(lo: nat, hi: nat)
    requires lo <= hi
    ensures Rising(Positions([]), lo, hi)
  {}

  lemma RisingFrom(ks: seq<nat>, lo: nat, mid: nat, hi: nat)
    requires lo <= mid && Rising(ks, mid, hi)
    ensures Rising(ks, lo, hi)
  {}

  lemma StreamingFramesRise(c: Config, i: nat)
    requires Stand(c, i) && IsInterface(c, i) && !StreamingAt(c, i).fault
    ensures var s := StreamingAt(c, i); Rising(Positions(s.frames), i, s.end)
  {
    StreamingIs(c, i);
    InterfaceExact(c, i, FrameRef(0, 0));
    hide InterfaceAt, StreamingAt, Config.WellFormed, Config.OnChain;
    InterfaceFramesRise(c, i);
    EndpointsRise(c, InterfaceAt(c, i).end);
  }

  lemma {:induction false} PresentedFramesRise(c: Config, k: nat)
    requires Stand(c, k) && !Interfaces(c, k).fault
    ensures var r := Interfaces(c, k); Rising(Positions(r.frames), k, r.end)
    decreases c.len - k
  {
    if IsInterface(c, k) {
      var s := StreamingAt(c, k);
      StreamingExact(c, k, FrameRef(0, 0), 0);
      StreamingFramesRise(c, k);
      PresentedFramesRise(c, s.end);
      FramesJoined(s.frames, Interfaces(c, s.end).frames, k, s.end, Interfaces(c, s.end).end);
    }
  }

  /** A frame descriptor that a configuration presents: one in the run behind a format of one of
      its streaming interfaces. */
  ghost predicate Presents(c: Config, f: FrameRef) {
    && c.len <= |c.mem| && f.formatAt + 4 <= |c.mem| && f.at + 30 <= |c.mem|
    && SomeFormatOf(c, InterfacesAt(c, ControlEnd(c, c.Len(0))), f)
  }

  /** The first of the highest usable rate of its format; of both formats, unless it is MJPEG. */
  ghost predicate BestFrame(c: Config, target: u32, f: FrameRef) {
    && Presents(c, f) && 0 < OfferAt(c, f).rate <= target
    && forall g: FrameRef | Presents(c, g) && OfferAt(c, g).rate <= target ::
         Outdone(OfferAt(c, g), OfferAt(c, f), g.at < f.at)
  }

  ghost predicate Outdone(o: Offer, best: Offer, earlier: bool) {
    && (o.format == best.format || best.format != FORMAT_MJPEG ==> o.rate <= best.rate)
    && (o.format == best.format && earlier ==> o.rate < best.rate)
  }

  ghost predicate NoneUsable(c: Config, target: u32) {
    forall g: FrameRef | Presents(c, g) && OfferAt(c, g).rate <= target :: OfferAt(c, g).rate == 0
  }

  /** The choice that the walk makes of a configuration without defect: the fields of the best
      frame descriptor it presents, or none if none is usable. */
  lemma {:induction false} ChoiceExactly(c: Config, target: u32, offers: seq<Offer>)
    requires c.WellFormed() && !Presented(c).fault && AreOffers(c, Presented(c).frames, offers)
    ensures var choice := ConsiderAll(target, offers);
            if choice == UNSET then NoneUsable(c, target)
            else exists f :: BestFrame(c, target, f) && choice == OfferAt(c, f)
  {
    var fs := Presented(c).frames;
    var choice := ConsiderAll(target, offers);
    OffersKnown(c, fs, offers);
    ChoiceOptimal(target, offers);
    if choice == UNSET {
      forall g: FrameRef | Presents(c, g) && OfferAt(c, g).rate <= target ensures OfferAt(c, g).rate == 0 {
        var j := OfferedAs(c, offers, g);
      }
    } else {
      var i :| FirstBest(target, offers, i, choice);
      ChosenFrame(c, target, offers, i);
    }
  }

  /** Every frame presented is among the offers. */
  lemma OfferedAs(c: Config, offers: seq<Offer>, g: FrameRef) returns (j: nat)
    requires c.WellFormed() && !Presented(c).fault && AreOffers(c, Presented(c).frames, offers) && Presents(c, g)
    ensures j < |offers| == |Presented(c).frames| && Presented(c).frames[j] == g
    ensures offers[j] == OfferAt(c, g) && offers[j] in offers
  {
    PresentedExactly(c, g, 0);
    j :| 0 <= j < |Presented(c).frames| && Presented(c).frames[j] == g;
    OffersMeaning(c, Presented(c).frames, offers, j);
  }

  lemma ChosenFrame(c: Config, target: u32, offers: seq<Offer>, i: int)
    requires c.WellFormed() && !Presented(c).fault && AreOffers(c, Presented(c).frames, offers)
    requires FirstBest(target, offers, i, ConsiderAll(target, offers)) && KnownFormats(offers)
    ensures |offers| == |Presented(c).frames|
    ensures var f := Presented(c).frames[i]; BestFrame(c, target, f) && ConsiderAll(target, offers) == OfferAt(c, f)
  {
    var f, best := Presented(c).frames[i], ConsiderAll(target, offers);
    OffersMeaning(c, Presented(c).frames, offers, i);
    PresentedExactly(c, f, 0);
    assert f in Presented(c).frames;
    forall g: FrameRef | Presents(c, g) && OfferAt(c, g).rate <= target
      ensures Outdone(OfferAt(c, g), best, g.at < f.at)
    {
      var j := OfferedAs(c, offers, g);
      ChoiceOptimal(target, offers);
      PositionsInOrder(c, i, j);
    }
  }

  lemma PositionsInOrder(c: Config, i: nat, j: nat)
    requires c.WellFormed() && !Presented(c).fault && i < |Presented(c).frames| && j < |Presented(c).frames|
    ensures Presented(c).frames[j].at < Presented(c).frames[i].at <==> j < i
  {
    ControlExact(c);
    PresentedFramesRise(c, ControlEnd(c, c.Len(0)));
    hide Interfaces, ControlEnd, Config.WellFormed;
    var ks := Positions(Presented(c).frames);
    assert ks[i] == Presented(c).frames[i].at && ks[j] == Presented(c).frames[j].at;
  }

  // ----- the setting selected, and the endpoint of the pipe

  /** An eligible endpoint behind `last` that is larger than every eligible one before. */
  ghost predicate LargestBehind(ks: seq<nat>, es: seq<(Endpoint, nat)>, last: nat, j: int)
    requires |ks| == |es|
  {
    && 0 <= j < |ks| && ks[j] > last && es[j].0.Eligible()
    && forall h | 0 <= h < |ks| && ks[h] <= last && es[h].0.Eligible() :: es[h].0.size < es[j].0.size
  }

  /** The walk keeps the alternate setting of the last streaming interface, and the best
      endpoint of all (number i, by EndpointOptimal). The setting kept holds that endpoint, which
      stands behind the last interface, exactly when some eligible endpoint there is larger
      than every eligible one of the settings before. */
  lemma {:induction false} SettingHoldsPipeExactly(c: Config, es: seq<(Endpoint, nat)>, i: int)
    requires c.WellFormed() && !Presented(c).fault && AreEndpoints(c, Presented(c).endpoints, es)
    requires FirstLargest(es, i)
    ensures var ks, ifaces := Presented(c).endpoints, InterfacesAt(c, ControlEnd(c, c.Len(0)));
            && ifaces != []
            && var last := ifaces[|ifaces| - 1];
               ks[i] > last <==> exists j :: LargestBehind(ks, es, last, j)
  {
    var ks := Presented(c).endpoints;
    ControlExact(c);
    var k := ControlEnd(c, c.Len(0));
    PresentedRises(c, k);
    assert InterfacesAt(c, k) == [] ==> Interfaces(c, k) == Nothing(k);
    LargestExactly(ks, es, InterfacesAt(c, k)[|InterfacesAt(c, k)| - 1], i);
  }

  lemma LargestExactly(ks: seq<nat>, es: seq<(Endpoint, nat)>, last: nat, i: int)
    requires |ks| == |es| && FirstLargest(es, i) && forall h, j | 0 <= h < j < |ks| :: ks[h] < ks[j]
    ensures ks[i] > last <==> exists j :: LargestBehind(ks, es, last, j)
  {
    hide Endpoint.Eligible;
    if ks[i] > last {
      assert LargestBehind(ks, es, last, i);
    }
  }
}
