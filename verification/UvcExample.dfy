/** A configuration whose last alternate setting is not the one with the largest endpoint. */
module UvcExample {
  import opened Bytes
  import opened StreamChoice
  import opened UvcDescriptors
  import opened UvcMeaning

  const CONFIGURATION: seq<byte> := [9, 2, 41, 0, 2, 1, 0, 0x80, 50]
  const SETTING_1: seq<byte> := [9, 4, 1, 1, 1, 0x0E, 2, 0, 0]
  const ENDPOINT_512: seq<byte> := [7, 5, 0x81, 5, 0, 2, 1]
  const SETTING_2: seq<byte> := [9, 4, 1, 2, 1, 0x0E, 2, 0, 0]
  const ENDPOINT_256: seq<byte> := [7, 5, 0x81, 5, 0, 1, 1]
  const BEHIND: seq<byte> := [0, 0, 0, 0, 0, 0, 0]

  const FIRST_PART := CONFIGURATION + SETTING_1 + ENDPOINT_512
  const SECOND_PART := SETTING_2 + ENDPOINT_256 + BEHIND

  const SMALLER_LAST := Config(FIRST_PART + SECOND_PART, 41)

  /** A setting at i and its endpoint behind it: the bytes that the walk looks at. */
  ghost predicate PartAt(m: seq<byte>, i: nat, high: byte) {
    && i + 16 <= |m|
    && m[i] == 9 && m[i + 1] == INTERFACE && m[i + 2] == 1 && m[i + 5] == CLASS_VIDEO && m[i + 6] == SC_VIDEOSTREAMING
    && m[i + 9] == 7 && m[i + 10] == ENDPOINT && m[i + 11] == 0x81 && m[i + 12] == 5 && m[i + 13] == 0
    && m[i + 14] == high
  }

  ghost predicate Looks(c: Config) {
    && |c.mem| == 48 && c.len == 41 && c.mem[0] == 9 && PartAt(c.mem, 9, 2) && PartAt(c.mem, 25, 1)
    && c.mem[41] == 0 && c.mem[42] == 0
  }

  lemma FirstPartLooks()
    ensures |FIRST_PART| == 25 && FIRST_PART[0] == 9 && PartAt(FIRST_PART, 9, 2)
  {}

  lemma SecondPartLooks()
    ensures |SECOND_PART| == 23 && PartAt(SECOND_PART, 0, 1) && SECOND_PART[16] == 0 && SECOND_PART[17] == 0
  {}

  lemma ExampleLooks()
    ensures Looks(SMALLER_LAST)
  {
    FirstPartLooks();
    SecondPartLooks();
    hide FIRST_PART, SECOND_PART;
    Joined(FIRST_PART, SECOND_PART);
  }

  lemma Joined(a: seq<byte>, b: seq<byte>)
    requires |a| == 25 && a[0] == 9 && PartAt(a, 9, 2)
    requires |b| == 23 && PartAt(b, 0, 1) && b[16] == 0 && b[17] == 0
    ensures Looks(Config(a + b, 41))
  {}

  lemma LeadsNext(c: Config, i: nat, k: nat)
    requires i < c.len <= |c.mem| && c.mem[i] > 0 && i + c.mem[i] <= c.len
    ensures c.Leads(i, k) <==> i == k || c.Leads(i + c.mem[i], k)
  {}

  lemma Boundaries(c: Config, k: nat)
    requires Looks(c)
    ensures c.OnChain(k) <==> k in [0, 9, 18, 25, 34, 41]
  {
    assert c.Leads(41, k) <==> k == 41;
    LeadsNext(c, 34, k);
    LeadsNext(c, 25, k);
    LeadsNext(c, 18, k);
    LeadsNext(c, 9, k);
    LeadsNext(c, 0, k);
  }

  lemma ExampleWellFormed(c: Config)
    requires Looks(c)
    ensures c.WellFormed()
  {
    forall k: nat | c.OnChain(k) && k < c.len ensures c.mem[k] >= 3 && k + c.mem[k] <= c.len {
      Boundaries(c, k);
    }
    forall i: nat, k: nat ensures !c.HeaderAt(i, k) {
      if c.HeaderAt(i, k) {
        Boundaries(c, i);
      }
    }
  }

  /** One setting with its endpoint, at i and i + 9. */
  lemma Part(c: Config, i: nat)
    requires Looks(c) && (i == 9 || i == 25)
    ensures StreamingAt(c, i) == Reading([], [i + 9], i + 16, false)
  {
    assert EndpointRun(c, i + 16) == Nothing(i + 16);
    assert EndpointRun(c, i + 9) == Reading([], [i + 9], i + 16, false);
    assert InterfaceAt(c, i) == Nothing(i + 9);
  }

  lemma ExamplePresents(c: Config)
    requires Looks(c)
    ensures ControlEnd(c, c.Len(0)) == 9 && InterfacesAt(c, 9) == [9, 25]
    ensures Presented(c) == Reading([], [18, 34], 41, false)
  {
    Part(c, 9);
    Part(c, 25);
    hide StreamingAt;
    assert Interfaces(c, 41) == Nothing(41) && InterfacesAt(c, 41) == [];
    assert Interfaces(c, 25) == Reading([], [34], 41, false) && InterfacesAt(c, 25) == [25];
  }

  /** A well-formed configuration whose second and last setting has the smaller endpoint. The
      pipe is that of the first setting, and the setting kept is the second. */
  lemma {:induction false} SmallerLast(h1: nat, h2: nat)
    requires h1 != 0
    ensures var c := SMALLER_LAST;
            && c.WellFormed() && !Presented(c).fault && Presented(c).endpoints == [18, 34]
            && InterfacesAt(c, ControlEnd(c, c.Len(0))) == [9, 25] && |c.mem| == 48
            && var es := [(EndpointAt(c, 18), h1), (EndpointAt(c, 34), h2)];
               && AreEndpoints(c, Presented(c).endpoints, es) && FirstLargest(es, 0) && VisitAll(es).pipe == h1
               && forall j :: !LargestBehind([18, 34], es, 25, j)
  {
    var c := SMALLER_LAST;
    ExampleLooks();
    ExampleWellFormed(c);
    ExamplePresents(c);
    KeepsFirst(c, h1, h2);
  }

  lemma KeepsFirst(c: Config, h1: nat, h2: nat)
    requires Looks(c) && h1 != 0
    ensures var es := [(EndpointAt(c, 18), h1), (EndpointAt(c, 34), h2)];
            && AreEndpoints(c, [18, 34], es) && FirstLargest(es, 0) && VisitAll(es).pipe == h1
            && forall j :: !LargestBehind([18, 34], es, 25, j)
  {
    var a, b := EndpointAt(c, 18), EndpointAt(c, 34);
    ExampleEndpoints(c);
    hide Looks, EndpointAt, Endpoint.Eligible;
    KeepsLarger(a, b, h1, h2);
  }

  lemma ExampleEndpoints(c: Config)
    requires Looks(c)
    ensures var a, b := EndpointAt(c, 18), EndpointAt(c, 34);
            a.size == 512 && b.size == 256 && a.Eligible() && b.Eligible()
  {}

  /** Of two endpoints, the larger first, the first is kept. */
  lemma KeepsLarger(a: Endpoint, b: Endpoint, h1: nat, h2: nat)
    requires a.Eligible() && b.Eligible() && a.size > b.size && h1 != 0
    ensures var es := [(a, h1), (b, h2)];
            && FirstLargest(es, 0) && VisitAll(es).pipe == h1
            && forall j :: !LargestBehind([18, 34], es, 25, j)
  {
    hide Endpoint.Eligible;
    VisitSnoc([], a, h1);
    VisitSnoc([(a, h1)], b, h2);
    assert [] + [(a, h1)] == [(a, h1)] && [(a, h1)] + [(b, h2)] == [(a, h1), (b, h2)];
  }
}
