/** Cameras as the USB Video Class describes them, the bytes of their configurations, and what
    the walk reads back: every frame and endpoint, field by field, and the last setting. */
module UvcEncode {
  import opened Bytes
  import opened StreamChoice
  import opened UvcDescriptors

  // ----- frames and formats

  /** A frame descriptor (section 3.1.2 of either payload specification); `more` are the intervals
      behind the first. */
  datatype FrameDesc = FrameDesc(index: byte, capabilities: byte, width: u16, height: u16,
                                 minRate: u32, maxRate: u32, bufferSize: u32, defaultInterval: u32,
                                 intervals: byte, interval: u32, more: seq<byte>) {
    predicate Valid() {
      |more| <= 225
    }

    function Bytes(subtype: byte): seq<byte>
      requires Valid()
    {
      [30 + |more|, 0x24, subtype, index, capabilities] + BytesOf16(width) + BytesOf16(height)
      + BytesOf32(minRate) + BytesOf32(maxRate) + Tail()
    }

    function Tail(): seq<byte> {
      BytesOf32(bufferSize) + BytesOf32(defaultInterval) + [intervals] + BytesOf32(interval) + more
    }

    function Offered(mjpeg: bool, formatIndex: byte): Offer {
      Offer(if mjpeg then 6 else 4, formatIndex, index, width, height, maxRate, interval)
    }
  }

  /** A class-specific descriptor that an input header covers: a format with its frames, or one
      that is stepped over. */
  datatype Part =
    | Format(mjpeg: bool, index: byte, rest: seq<byte>, frames: seq<FrameDesc>)
    | Other(subtype: byte, rest: seq<byte>)
  {
    predicate Valid() {
      match this
      case Format(mjpeg, _, rest, frames) =>
        && (if mjpeg then |rest| <= 251 else |rest| == 23 && Le32(rest[1], rest[2], rest[3], rest[4]) != 0)
        && forall f | f in frames :: f.Valid()
      case Other(subtype, rest) => !(4 <= subtype <= 7) && |rest| <= 252
    }

    function Head(): seq<byte>
      requires Valid()
    {
      match this
      case Format(mjpeg, index, rest, _) => [4 + |rest|, 0x24, if mjpeg then 6 else 4, index] + rest
      case Other(subtype, rest) => [3 + |rest|, 0x24, subtype] + rest
    }

    function Bytes(): seq<byte>
      requires Valid()
    {
      Head() + if Format? then FramesBytes(frames, FrameSubtype(mjpeg)) else []
    }

    function Offered(): seq<Offer> {
      if Format? then FramesOffered(frames, mjpeg, index) else []
    }
  }

  /** The subtype of a format's frame descriptors. */
  function FrameSubtype(mjpeg: bool): byte {
    if mjpeg then 7 else 5
  }

  function FramesOffered(frames: seq<FrameDesc>, mjpeg: bool, formatIndex: byte): seq<Offer> {
    if frames == [] then []
    else [frames[0].Offered(mjpeg, formatIndex)] + FramesOffered(frames[1..], mjpeg, formatIndex)
  }

  function FramesBytes(frames: seq<FrameDesc>, subtype: byte): seq<byte>
    requires forall f | f in frames :: f.Valid()
  {
    if frames == [] then [] else frames[0].Bytes(subtype) + FramesBytes(frames[1..], subtype)
  }

  function PartsBytes(parts: seq<Part>): seq<byte>
    requires forall p | p in parts :: p.Valid()
  {
    if parts == [] then [] else parts[0].Bytes() + PartsBytes(parts[1..])
  }

  function PartsOffered(parts: seq<Part>): seq<Offer> {
    if parts == [] then [] else parts[0].Offered() + PartsOffered(parts[1..])
  }

  // ----- reading a stretch of bytes back

  /** These bytes stand at k. */
  ghost predicate Holds(c: Config, k: nat, b: seq<byte>) {
    k + |b| <= c.len && c.len + 7 <= |c.mem| && c.mem[k..k + |b|] == b
  }

  lemma HoldsParts(c: Config, k: nat, a: seq<byte>, b: seq<byte>)
    requires Holds(c, k, a + b)
    ensures Holds(c, k, a) && Holds(c, k + |a|, b)
  {
    assert c.mem[k..k + |a|] == (a + b)[..|a|] == a;
    assert c.mem[k + |a|..k + |a| + |b|] == (a + b)[|a|..] == b;
  }

  lemma HoldsByte(c: Config, k: nat, b: seq<byte>, i: nat)
    requires Holds(c, k, b) && i < |b|
    ensures c.mem[k + i] == b[i]
  {
    assert c.mem[k..k + |b|][i] == b[i];
  }

  lemma HoldsHead(c: Config, k: nat, b: seq<byte>)
    requires Holds(c, k, b) && |b| >= 3
    ensures c.Len(k) == b[0] && c.Kind(k) == b[1] && c.Sub(k) == b[2]
  {
    HoldsByte(c, k, b, 0);
    HoldsByte(c, k, b, 1);
    HoldsByte(c, k, b, 2);
  }

  /** These frame descriptors make these offers. */
  ghost predicate Offering(c: Config, fs: seq<FrameRef>, offers: seq<Offer>) {
    |fs| == |offers| &&
    forall i | 0 <= i < |fs| ::
      fs[i].formatAt + 4 <= |c.mem| && fs[i].at + 30 <= |c.mem| && OfferAt(c, fs[i]) == offers[i]
  }

  lemma OfferingBoth(c: Config, fs: seq<FrameRef>, gs: seq<FrameRef>, os: seq<Offer>, ps: seq<Offer>)
    requires Offering(c, fs, os) && Offering(c, gs, ps)
    ensures Offering(c, fs + gs, os + ps)
  {}

  /** The middle of three stretches, and any later stretch of the last. */
  lemma Middle(a: seq<byte>, x: seq<byte>, z: seq<byte>)
    ensures (a + x + z)[|a|..|a| + |x|] == x
    ensures forall i, j | 0 <= i <= j <= |z| :: (a + x + z)[|a| + |x| + i..|a| + |x| + j] == z[i..j]
  {}

  lemma TailFields(f: FrameDesc)
    ensures |f.Tail()| == 13 + |f.more| && f.Tail()[9..13] == BytesOf32(f.interval)
  {
    Middle(BytesOf32(f.bufferSize) + BytesOf32(f.defaultInterval) + [f.intervals], BytesOf32(f.interval), f.more);
  }

  lemma FrameFields(f: FrameDesc, subtype: byte)
    requires f.Valid()
    ensures var b := f.Bytes(subtype);
            && |b| == 30 + |f.more| && b[0] == |b| && b[1] == 0x24 && b[2] == subtype && b[3] == f.index
            && Le16(b[5], b[6]) == f.width && Le16(b[7], b[8]) == f.height
            && Le32(b[13], b[14], b[15], b[16]) == f.maxRate && Le32(b[26], b[27], b[28], b[29]) == f.interval
  {
    var head: seq<byte> := [30 + |f.more|, 0x24, subtype, f.index, f.capabilities];
    var w, h, t := BytesOf16(f.width), BytesOf16(f.height), f.Tail();
    var lo, hi := BytesOf32(f.minRate), BytesOf32(f.maxRate);
    TailFields(f);
    assert |w| == 2 && |h| == 2 && |lo| == 4 && |hi| == 4 && |head| == 5;
    Fields(head, w, h, lo, hi, t);
    var b := f.Bytes(subtype);
    assert b == head + w + h + lo + hi + t;
    hide FrameDesc.Bytes, FrameDesc.Tail, BytesOf16, BytesOf32, Le16, Le32;
    assert b[..5] == head;
    assert b[0] == head[0] && b[1] == head[1] && b[2] == head[2] && b[3] == head[3];
    Read16(b, 5, f.width);
    Read16(b, 7, f.height);
    Read32(b, 13, f.maxRate);
    Read32(b, 26, f.interval);
  }

  lemma Fields(head: seq<byte>, w: seq<byte>, h: seq<byte>, lo: seq<byte>, hi: seq<byte>, t: seq<byte>)
    requires |head| == 5 && |w| == |h| == 2 && |lo| == |hi| == 4 && |t| >= 13
    ensures var b := head + w + h + lo + hi + t;
            && |b| == 17 + |t| && b[..5] == head && b[5..7] == w && b[7..9] == h && b[13..17] == hi
            && b[26..30] == t[9..13]
  {}

  lemma Read16(b: seq<byte>, i: nat, x: u16)
    requires i + 2 <= |b| && b[i..i + 2] == BytesOf16(x)
    ensures Le16(b[i], b[i + 1]) == x
  {
    assert b[i..i + 2][0] == b[i] && b[i..i + 2][1] == b[i + 1];
  }

  lemma Read32(b: seq<byte>, i: nat, x: u32)
    requires i + 4 <= |b| && b[i..i + 4] == BytesOf32(x)
    ensures Le32(b[i], b[i + 1], b[i + 2], b[i + 3]) == x
  {
    var d := b[i..i + 4];
    assert d[0] == b[i] && d[1] == b[i + 1] && d[2] == b[i + 2] && d[3] == b[i + 3];
  }

  lemma HoldsBytes(c: Config, k: nat, b: seq<byte>)
    requires Holds(c, k, b)
    ensures k + |b| <= c.len && c.len + 7 <= |c.mem|
    ensures forall i | 0 <= i < |b| :: c.mem[k + i] == b[i]
  {
    forall i | 0 <= i < |b| ensures c.mem[k + i] == b[i] {
      HoldsByte(c, k, b, i);
    }
  }

  /** A format descriptor of this kind and index stands at k. */
  ghost predicate FormatAt(c: Config, k: nat, mjpeg: bool, formatIndex: byte) {
    && k + 4 <= c.len && c.len + 7 <= |c.mem|
    && c.mem[k + 2] == (if mjpeg then 6 else 4) && c.mem[k + 3] == formatIndex
  }

  /** A frame descriptor is read back, field by field. */
  lemma {:induction false} FrameReadBack(c: Config, k: nat, f: FrameDesc, formatAt: nat, mjpeg: bool, formatIndex: byte)
    requires f.Valid() && Holds(c, k, f.Bytes(FrameSubtype(mjpeg))) && FormatAt(c, formatAt, mjpeg, formatIndex)
    ensures IsFrame(c, k, formatAt) && c.Len(k) == |f.Bytes(FrameSubtype(mjpeg))|
    ensures k + 30 <= |c.mem| && formatAt + 4 <= |c.mem|
    ensures OfferAt(c, FrameRef(k, formatAt)) == f.Offered(mjpeg, formatIndex)
  {
    var sub := FrameSubtype(mjpeg);
    var b := f.Bytes(sub);
    FrameFields(f, sub);
    hide FrameDesc.Bytes, Holds, Le16, Le32;
    HoldsBytes(c, k, b);
    assert c.mem[k] == b[0] && c.mem[k + 1] == b[1] && c.mem[k + 2] == b[2];
    var o := OfferAt(c, FrameRef(k, formatAt));
    assert o.frameIdx == b[3] && o.width == Le16(b[5], b[6]) && o.height == Le16(b[7], b[8]);
    assert o.rate == Le32(b[13], b[14], b[15], b[16]) && o.interval == Le32(b[26], b[27], b[28], b[29]);
  }

  lemma FrameRunMore(c: Config, formatAt: nat, k: nat)
    requires IsFrame(c, k, formatAt)
    ensures FrameRun(c, formatAt, k) ==
            Reading([FrameRef(k, formatAt)], [], k, false).Then(FrameRun(c, formatAt, k + c.Len(k)))
  {}

  /** The frames of a format are read back. */
  ghost predicate FramesRead(c: Config, r: Reading, end: nat, offers: seq<Offer>) {
    r.end == end && !r.fault && r.endpoints == [] && Offering(c, r.frames, offers)
  }

  lemma {:induction false} FramesReadBack(c: Config, k: nat, frames: seq<FrameDesc>, formatAt: nat, mjpeg: bool,
                                          formatIndex: byte)
    requires (forall f | f in frames :: f.Valid()) && Holds(c, k, FramesBytes(frames, FrameSubtype(mjpeg)))
    requires FormatAt(c, formatAt, mjpeg, formatIndex)
    requires !IsFrame(c, k + |FramesBytes(frames, FrameSubtype(mjpeg))|, formatAt)
    ensures FramesRead(c, FrameRun(c, formatAt, k), k + |FramesBytes(frames, FrameSubtype(mjpeg))|,
                       FramesOffered(frames, mjpeg, formatIndex))
    decreases |frames|
  {
    hide FrameRun, IsFrame, Holds, OfferAt, FrameDesc.Bytes, FrameDesc.Offered, Offering, FormatAt;
    if frames == [] {
      NoFrame(c, k, formatAt);
    } else {
      var f, rest := frames[0], frames[1..];
      var b := f.Bytes(FrameSubtype(mjpeg));
      HoldsParts(c, k, b, FramesBytes(rest, FrameSubtype(mjpeg)));
      FramesReadBack(c, k + |b|, rest, formatAt, mjpeg, formatIndex);
      FrameBefore(c, k, f, formatAt, mjpeg, formatIndex, k + |FramesBytes(frames, FrameSubtype(mjpeg))|,
                  FramesOffered(rest, mjpeg, formatIndex));
    }
  }

  lemma NoFrame(c: Config, k: nat, formatAt: nat)
    requires !IsFrame(c, k, formatAt)
    ensures FramesRead(c, FrameRun(c, formatAt, k), k, [])
  {}

  lemma FrameBefore(c: Config, k: nat, f: FrameDesc, formatAt: nat, mjpeg: bool, formatIndex: byte, end: nat,
                    os: seq<Offer>)
    requires f.Valid() && Holds(c, k, f.Bytes(FrameSubtype(mjpeg))) && FormatAt(c, formatAt, mjpeg, formatIndex)
    requires FramesRead(c, FrameRun(c, formatAt, k + |f.Bytes(FrameSubtype(mjpeg))|), end, os)
    ensures FramesRead(c, FrameRun(c, formatAt, k), end, [f.Offered(mjpeg, formatIndex)] + os)
  {
    hide *;
    FrameReadBack(c, k, f, formatAt, mjpeg, formatIndex);
    FrameRunMore(c, formatAt, k);
    var r := FrameRun(c, formatAt, k + c.Len(k));
    FramesReadMore(c, FrameRef(k, formatAt), r, end, f.Offered(mjpeg, formatIndex), os);
  }

  lemma FramesReadMore(c: Config, f: FrameRef, r: Reading, end: nat, o: Offer, os: seq<Offer>)
    requires f.formatAt + 4 <= |c.mem| && f.at + 30 <= |c.mem| && OfferAt(c, f) == o && FramesRead(c, r, end, os)
    ensures FramesRead(c, Reading([f], [], f.at, false).Then(r), end, [o] + os)
  {
    OfferingOne(c, f, o);
    OfferingBoth(c, [f], r.frames, [o], os);
  }

  lemma OfferingOne(c: Config, f: FrameRef, o: Offer)
    requires f.formatAt + 4 <= |c.mem| && f.at + 30 <= |c.mem| && OfferAt(c, f) == o
    ensures Offering(c, [f], [o])
  {}

  // ----- the parts of an input header

  /** No frame descriptor stands at k, */
  ghost predicate NoFrameAt(c: Config, k: nat) {
    k >= c.len || c.Kind(k) != 0x24 || (c.Sub(k) != 5 && c.Sub(k) != 7)
  }

  /** and no class-specific one. */
  ghost predicate NotSpecific(c: Config, k: nat) {
    k >= c.len || c.Kind(k) != 0x24
  }

  lemma PartHead(c: Config, k: nat, p: Part)
    requires p.Valid() && Holds(c, k, p.Bytes())
    ensures |p.Bytes()| >= |p.Head()| >= 3 && k + 9 <= |c.mem| && k < c.len
    ensures c.Len(k) == |p.Head()| && c.Kind(k) == 0x24 && NoFrameAt(c, k)
    ensures c.Sub(k) == if p.Format? then (if p.mjpeg then 6 else 4) else p.subtype
    ensures p.Format? ==> FormatAt(c, k, p.mjpeg, p.index)
    ensures p.Format? && !p.mjpeg ==> Le32(c.mem[k + 5], c.mem[k + 6], c.mem[k + 7], c.mem[k + 8]) != 0
  {
    hide FramesBytes, Le32;
    var tail := if p.Format? then FramesBytes(p.frames, FrameSubtype(p.mjpeg)) else [];
    HoldsParts(c, k, p.Head(), tail);
    HoldsBytes(c, k, p.Head());
    HoldsHead(c, k, p.Head());
    if p.Format? {
      assert p.Head()[3] == p.index && c.mem[k + 3] == p.Head()[3];
      if !p.mjpeg {
        var h := p.Head();
        assert h[5] == p.rest[1] && h[6] == p.rest[2] && h[7] == p.rest[3] && h[8] == p.rest[4];
        assert c.mem[k + 5] == h[5] && c.mem[k + 6] == h[6] && c.mem[k + 7] == h[7] && c.mem[k + 8] == h[8];
      }
    }
  }

  /** A part of a header is read back, with the frames behind it. */
  lemma {:induction false} PartReadBack(c: Config, k: nat, p: Part)
    requires p.Valid() && Holds(c, k, p.Bytes()) && NoFrameAt(c, k + |p.Bytes()|)
    ensures k + 9 <= |c.mem| && k < k + |p.Bytes()|
    ensures FramesRead(c, DescriptorAt(c, k), k + |p.Bytes()|, p.Offered())
  {
    hide *;
    PartHead(c, k, p);
    PartShape(p);
    if p.Format? {
      HoldsParts(c, k, p.Head(), FramesBytes(p.frames, FrameSubtype(p.mjpeg)));
      FormatReadBack(c, k, |p.Head()|, p.mjpeg, p.index, p.frames);
    } else {
      OtherReadBack(c, k);
    }
  }

  lemma PartShape(p: Part)
    requires p.Valid()
    ensures p.Format? ==> (forall f | f in p.frames :: f.Valid()) && (!p.mjpeg ==> |p.Head()| == 27)
    ensures p.Format? ==> p.Bytes() == p.Head() + FramesBytes(p.frames, FrameSubtype(p.mjpeg))
    ensures p.Offered() == if p.Format? then FramesOffered(p.frames, p.mjpeg, p.index) else []
    ensures p.Other? ==> p.Bytes() == p.Head() && p.subtype != 4 && p.subtype != 6
  {}

  lemma OtherReadBack(c: Config, k: nat)
    requires k + 9 <= |c.mem| && c.Sub(k) != 4 && c.Sub(k) != 6
    ensures FramesRead(c, DescriptorAt(c, k), k + c.Len(k), [])
  {}

  lemma FormatDescriptor(c: Config, k: nat, mjpeg: bool)
    requires k + 9 <= |c.mem| && c.Sub(k) == (if mjpeg then 6 else 4) && !FrameRun(c, k, k + c.Len(k)).fault
    requires !mjpeg ==> c.Len(k) == 27 && Le32(c.mem[k + 5], c.mem[k + 6], c.mem[k + 7], c.mem[k + 8]) != 0
    ensures DescriptorAt(c, k) == FrameRun(c, k, k + c.Len(k))
  {}

  lemma {:induction false} FormatReadBack(c: Config, k: nat, n: nat, mjpeg: bool, index: byte, frames: seq<FrameDesc>)
    requires FormatAt(c, k, mjpeg, index) && k + 9 <= |c.mem| && c.Len(k) == n && c.Sub(k) == (if mjpeg then 6 else 4)
    requires !mjpeg ==> n == 27 && Le32(c.mem[k + 5], c.mem[k + 6], c.mem[k + 7], c.mem[k + 8]) != 0
    requires (forall f | f in frames :: f.Valid()) && Holds(c, k + n, FramesBytes(frames, FrameSubtype(mjpeg)))
    requires NoFrameAt(c, k + n + |FramesBytes(frames, FrameSubtype(mjpeg))|)
    ensures FramesRead(c, DescriptorAt(c, k), k + n + |FramesBytes(frames, FrameSubtype(mjpeg))|,
                       FramesOffered(frames, mjpeg, index))
  {
    var end := k + n + |FramesBytes(frames, FrameSubtype(mjpeg))|;
    assert !IsFrame(c, end, k);
    hide *;
    FramesReadBack(c, k + n, frames, k, mjpeg, index);
    NoFault(c, FrameRun(c, k, k + n), end, FramesOffered(frames, mjpeg, index));
    FormatDescriptor(c, k, mjpeg);
  }

  lemma NoFault(c: Config, r: Reading, end: nat, offers: seq<Offer>)
    requires FramesRead(c, r, end, offers)
    ensures !r.fault
  {}

  lemma BodyMore(c: Config, k: nat, stop: nat)
    requires k < stop && k < c.len && k + 9 <= |c.mem| && c.Kind(k) == 0x24
    requires !DescriptorAt(c, k).fault && k < DescriptorAt(c, k).end
    ensures HeaderBody(c, k, stop) == DescriptorAt(c, k).Then(HeaderBody(c, DescriptorAt(c, k).end, stop))
  {}

  lemma FramesReadThen(c: Config, r: Reading, q: Reading, mid: nat, end: nat, os: seq<Offer>, ps: seq<Offer>)
    requires FramesRead(c, r, mid, os) && FramesRead(c, q, end, ps)
    ensures FramesRead(c, r.Then(q), end, os + ps)
  {
    OfferingBoth(c, r.frames, q.frames, os, ps);
  }

  /** All parts of a header are read back. */
  lemma {:induction false} PartsReadBack(c: Config, k: nat, parts: seq<Part>, stop: nat)
    requires (forall p | p in parts :: p.Valid()) && Holds(c, k, PartsBytes(parts))
    requires stop == k + |PartsBytes(parts)| && NotSpecific(c, stop)
    ensures FramesRead(c, HeaderBody(c, k, stop), stop, PartsOffered(parts))
    decreases |parts|
  {
    hide HeaderBody, DescriptorAt, Holds, Offering, Part.Bytes, Part.Offered, Part.Valid;
    if parts == [] {
      BodyDone(c, k, stop);
    } else {
      var p, rest := parts[0], parts[1..];
      var b := p.Bytes();
      HoldsParts(c, k, b, PartsBytes(rest));
      PartHead(c, k, p);
      NextPart(c, k + |b|, rest, stop);
      PartReadBack(c, k, p);
      PartsReadBack(c, k + |b|, rest, stop);
      BodyMore(c, k, stop);
      var mid := k + |b|;
      FramesReadThen(c, DescriptorAt(c, k), HeaderBody(c, mid, stop), mid, stop, p.Offered(), PartsOffered(rest));
    }
  }

  lemma BodyDone(c: Config, k: nat, stop: nat)
    requires k >= stop
    ensures FramesRead(c, HeaderBody(c, k, stop), k, [])
  {}

  lemma NextPart(c: Config, k: nat, parts: seq<Part>, stop: nat)
    requires (forall p | p in parts :: p.Valid()) && Holds(c, k, PartsBytes(parts))
    requires stop == k + |PartsBytes(parts)| && NotSpecific(c, stop)
    ensures NoFrameAt(c, k) && k <= stop
  {
    if parts != [] {
      HoldsParts(c, k, parts[0].Bytes(), PartsBytes(parts[1..]));
      PartHead(c, k, parts[0]);
    }
  }

  // ----- endpoints

  /** An endpoint descriptor, or a class-specific one. */
  datatype EndpointItem =
    | Data(kind: EndpointKind, interval: byte, more: seq<byte>)
    | Specific(rest: seq<byte>)
  {
    predicate Valid() {
      match this
      case Data(kind, _, more) => kind.Valid() && |more| <= 248
      case Specific(rest) => 1 <= |rest| <= 253
    }

    function Bytes(): seq<byte>
      requires Valid()
    {
      match this
      case Data(kind, interval, more) =>
        var e := kind.Encoded();
        [7 + |more|, 5, e.addr, e.attr, e.size % 0x100, e.size / 0x100, interval] + more
      case Specific(rest) => [2 + |rest|, 0x25] + rest
    }

    function Kinds(): seq<EndpointKind> {
      if Data? then [kind] else []
    }
  }

  function ItemsBytes(items: seq<EndpointItem>): seq<byte>
    requires forall e | e in items :: e.Valid()
  {
    if items == [] then [] else items[0].Bytes() + ItemsBytes(items[1..])
  }

  function ItemsKinds(items: seq<EndpointItem>): seq<EndpointKind> {
    if items == [] then [] else items[0].Kinds() + ItemsKinds(items[1..])
  }

  /** These endpoint descriptors are of these kinds. */
  ghost predicate Endpoints(c: Config, ks: seq<nat>, kinds: seq<EndpointKind>) {
    |ks| == |kinds| &&
    forall i | 0 <= i < |ks| :: ks[i] + 7 <= |c.mem| && kinds[i].Valid() && EndpointAt(c, ks[i]) == kinds[i].Encoded()
  }

  lemma EndpointsBoth(c: Config, ks: seq<nat>, ls: seq<nat>, a: seq<EndpointKind>, b: seq<EndpointKind>)
    requires Endpoints(c, ks, a) && Endpoints(c, ls, b)
    ensures Endpoints(c, ks + ls, a + b)
  {}

  /** No endpoint stands at k. */
  ghost predicate NoEndpointAt(c: Config, k: nat) {
    k >= c.len || (c.Kind(k) != 5 && c.Kind(k) != 0x25)
  }

  lemma ItemHead(c: Config, k: nat, e: EndpointItem)
    requires e.Valid() && Holds(c, k, e.Bytes())
    ensures |e.Bytes()| >= 3 && k < c.len && k + 7 <= |c.mem|
    ensures c.Len(k) == |e.Bytes()| && c.Kind(k) == if e.Data? then 5 else 0x25
    ensures e.Data? ==> EndpointAt(c, k) == e.kind.Encoded()
  {
    hide EndpointKind.Encoded;
    HoldsBytes(c, k, e.Bytes());
    HoldsHead(c, k, e.Bytes());
    if e.Data? {
      var b := e.Bytes();
      assert c.mem[k + 2] == b[2] && c.mem[k + 3] == b[3] && c.mem[k + 4] == b[4] && c.mem[k + 5] == b[5];
      assert e.kind.Encoded().size == Le16(b[4], b[5]);
    }
  }

  /** The reading of endpoints. */
  ghost predicate EndpointsRead(c: Config, r: Reading, end: nat, kinds: seq<EndpointKind>) {
    r.end == end && !r.fault && r.frames == [] && Endpoints(c, r.endpoints, kinds)
  }

  lemma {:induction false} ItemsReadBack(c: Config, k: nat, items: seq<EndpointItem>)
    requires (forall e | e in items :: e.Valid()) && Holds(c, k, ItemsBytes(items))
    requires NoEndpointAt(c, k + |ItemsBytes(items)|)
    ensures EndpointsRead(c, EndpointRun(c, k), k + |ItemsBytes(items)|, ItemsKinds(items))
    decreases |items|
  {
    hide EndpointRun, Holds, Endpoints, EndpointItem.Bytes, EndpointItem.Kinds, EndpointItem.Valid;
    if items == [] {
      NoEndpoint(c, k);
    } else {
      var e, rest := items[0], items[1..];
      HoldsParts(c, k, e.Bytes(), ItemsBytes(rest));
      ItemsReadBack(c, k + |e.Bytes()|, rest);
      ItemBefore(c, k, e, k + |ItemsBytes(items)|, ItemsKinds(rest));
    }
  }

  lemma NoEndpoint(c: Config, k: nat)
    requires NoEndpointAt(c, k)
    ensures EndpointsRead(c, EndpointRun(c, k), k, [])
  {}

  lemma ItemBefore(c: Config, k: nat, e: EndpointItem, end: nat, kinds: seq<EndpointKind>)
    requires e.Valid() && Holds(c, k, e.Bytes()) && EndpointsRead(c, EndpointRun(c, k + |e.Bytes()|), end, kinds)
    ensures EndpointsRead(c, EndpointRun(c, k), end, e.Kinds() + kinds)
  {
    hide *;
    ItemHead(c, k, e);
    EndpointRunFirst(c, k);
    ItemKinds(e);
    if e.Data? {
      EndpointFirst(c, k, e.kind, EndpointRun(c, k + |e.Bytes()|), end, kinds);
    } else {
      assert [] + kinds == kinds;
    }
  }

  lemma ItemKinds(e: EndpointItem)
    requires e.Valid()
    ensures e.Kinds() == if e.Data? then [e.kind] else []
    ensures e.Data? ==> e.kind.Valid()
  {}

  lemma EndpointFirst(c: Config, k: nat, kind: EndpointKind, r: Reading, end: nat, kinds: seq<EndpointKind>)
    requires k + 7 <= |c.mem| && kind.Valid() && EndpointAt(c, k) == kind.Encoded() && EndpointsRead(c, r, end, kinds)
    ensures EndpointsRead(c, Reading([], [k], k, false).Then(r), end, [kind] + kinds)
  {
    hide EndpointKind.Encoded, EndpointKind.Valid, EndpointAt;
    EndpointsBoth(c, [k], r.endpoints, [kind], kinds);
  }

  lemma EndpointRunFirst(c: Config, k: nat)
    requires k < c.len && c.Len(k) > 0
    ensures c.Kind(k) == 5 ==> EndpointRun(c, k) == Reading([], [k], k, false).Then(EndpointRun(c, k + c.Len(k)))
    ensures c.Kind(k) == 0x25 ==> EndpointRun(c, k) == EndpointRun(c, k + c.Len(k))
  {}

  // ----- settings of the streaming interface

  /** A streaming input header with the parts that its total covers. */
  datatype InputHeader = InputHeader(formats: byte, endpoint: byte, rest: seq<byte>, parts: seq<Part>) {
    predicate Valid() {
      6 <= |rest| <= 248 && (forall p | p in parts :: p.Valid()) && 7 + |rest| + |PartsBytes(parts)| < 0x1_0000
    }

    function Head(): seq<byte>
      requires Valid()
    {
      [7 + |rest|, 0x24, 1, formats] + BytesOf16(7 + |rest| + |PartsBytes(parts)|) + [endpoint] + rest
    }

    function Bytes(): seq<byte>
      requires Valid()
    {
      Head() + PartsBytes(parts)
    }
  }

  /** One alternate setting: its interface descriptor, an input header perhaps, its endpoints. */
  datatype Setting = Setting(number: byte, alternate: byte, count: byte, protocol: byte, name: byte,
                             header: Option<InputHeader>, endpoints: seq<EndpointItem>) {
    predicate Valid() {
      (header.Some? ==> header.value.Valid()) && forall e | e in endpoints :: e.Valid()
    }

    function Head(): seq<byte> {
      [9, 4, number, alternate, count, 0x0E, 2, protocol, name]
    }

    function HeaderBytes(): seq<byte>
      requires Valid()
    {
      if header.Some? then header.value.Bytes() else []
    }

    function Bytes(): seq<byte>
      requires Valid()
    {
      Head() + HeaderBytes() + ItemsBytes(endpoints)
    }

    function Offered(): seq<Offer> {
      if header.Some? then PartsOffered(header.value.parts) else []
    }
  }

  predicate SettingsValid(settings: seq<Setting>) {
    forall s | s in settings :: s.Valid()
  }

  function SettingsBytes(settings: seq<Setting>): seq<byte>
    requires SettingsValid(settings)
  {
    if settings == [] then [] else settings[0].Bytes() + SettingsBytes(settings[1..])
  }

  function SettingsOffered(settings: seq<Setting>): seq<Offer> {
    if settings == [] then [] else settings[0].Offered() + SettingsOffered(settings[1..])
  }

  function SettingsKinds(settings: seq<Setting>): seq<EndpointKind> {
    if settings == [] then [] else ItemsKinds(settings[0].endpoints) + SettingsKinds(settings[1..])
  }

  /** A setting begins at k, or the configuration is over. */
  ghost predicate AtSetting(c: Config, k: nat) {
    && c.len + 7 <= |c.mem|
    && if k < c.len then c.Kind(k) == 4 && c.mem[k + 5] == 0x0E && c.mem[k + 6] == 2 else c.Kind(k) != 0x24
  }

  lemma HeaderFields(h: InputHeader)
    requires h.Valid()
    ensures var b := h.Head();
            && |b| == 7 + |h.rest| && b[0] == |b| && b[1] == 0x24 && b[2] == 1
            && Le16(b[4], b[5]) == |h.Bytes()|
  {
    hide PartsBytes;
    var b, total := h.Head(), 7 + |h.rest| + |PartsBytes(h.parts)|;
    assert b[4..6] == BytesOf16(total);
    Read16(b, 4, total);
  }

  lemma InterfaceBody(c: Config, k: nat, n: nat, total: nat)
    requires k + 9 + n <= c.len && c.len + 7 <= |c.mem| && c.Len(k) == 9 && c.mem[k + 5] == 0x0E && c.mem[k + 6] == 2
    requires c.Kind(k + 9) == 0x24 && c.Sub(k + 9) == 1 && c.Len(k + 9) == n >= 13
    requires Le16(c.mem[k + 13], c.mem[k + 14]) == total
    ensures InterfaceAt(c, k) == HeaderBody(c, k + 9 + n, k + 9 + total)
  {}

  lemma HeaderHeadAt(c: Config, j: nat, h: InputHeader)
    requires h.Valid() && Holds(c, j, h.Bytes())
    ensures var n := |h.Head()|;
            && 13 <= n && j + n <= c.len && c.len + 7 <= |c.mem| && n + |PartsBytes(h.parts)| == |h.Bytes()|
            && c.Len(j) == n && c.Kind(j) == 0x24 && c.Sub(j) == 1 && Le16(c.mem[j + 4], c.mem[j + 5]) == |h.Bytes()|
            && Holds(c, j + n, PartsBytes(h.parts))
    ensures forall p | p in h.parts :: p.Valid()
  {
    hide *;
    var b := h.Head();
    HeaderFields(h);
    HeaderShape(h);
    HoldsParts(c, j, b, PartsBytes(h.parts));
    HoldsHead(c, j, b);
    HoldsBytes(c, j, b);
    assert c.mem[j + 4] == b[4] && c.mem[j + 5] == b[5];
  }

  lemma HeaderShape(h: InputHeader)
    requires h.Valid()
    ensures h.Bytes() == h.Head() + PartsBytes(h.parts) && |h.rest| >= 6 && forall p | p in h.parts :: p.Valid()
  {}

  /** An interface with its input header is read back. */
  lemma {:induction false} HeaderReadBack(c: Config, k: nat, h: InputHeader)
    requires h.Valid() && Holds(c, k + 9, h.Bytes()) && NotSpecific(c, k + 9 + |h.Bytes()|)
    requires k + 9 < c.len && c.Len(k) == 9 && k + 9 <= |c.mem| && c.mem[k + 5] == 0x0E && c.mem[k + 6] == 2
    ensures FramesRead(c, InterfaceAt(c, k), k + 9 + |h.Bytes()|, PartsOffered(h.parts))
  {
    hide *;
    HeaderHeadAt(c, k + 9, h);
    InterfaceBody(c, k, |h.Head()|, |h.Bytes()|);
    PartsReadBack(c, k + 9 + |h.Head()|, h.parts, k + 9 + |h.Bytes()|);
  }

  /** The reading of settings. */
  ghost predicate SettingsRead(c: Config, r: Reading, end: nat, offers: seq<Offer>, kinds: seq<EndpointKind>) {
    r.end == end && !r.fault && Offering(c, r.frames, offers) && Endpoints(c, r.endpoints, kinds)
  }

  lemma PlainInterface(c: Config, k: nat)
    requires k + 9 <= |c.mem| && c.Len(k) == 9 && c.mem[k + 5] == 0x0E && c.mem[k + 6] == 2 && c.Kind(k + 9) != 0x24
    ensures FramesRead(c, InterfaceAt(c, k), k + 9, [])
  {}

  lemma StreamingJoins(c: Config, k: nat, mid: nat, end: nat, offers: seq<Offer>, kinds: seq<EndpointKind>)
    requires k + 7 <= |c.mem| && FramesRead(c, InterfaceAt(c, k), mid, offers)
    requires EndpointsRead(c, EndpointRun(c, mid), end, kinds)
    ensures SettingsRead(c, StreamingAt(c, k), end, offers, kinds)
  {
    hide InterfaceAt, EndpointRun, Offering, Endpoints;
    var h, e := InterfaceAt(c, k), EndpointRun(c, mid);
    assert h.frames + [] == h.frames && [] + e.endpoints == e.endpoints;
  }

  lemma SettingHead(c: Config, k: nat, s: Setting)
    requires s.Valid() && Holds(c, k, s.Bytes())
    ensures |s.Bytes()| >= 9 && k + 9 <= c.len && c.len + 7 <= |c.mem|
    ensures c.Len(k) == 9 && c.Kind(k) == 4 && c.mem[k + 2] == s.number && c.mem[k + 3] == s.alternate
    ensures c.mem[k + 5] == 0x0E && c.mem[k + 6] == 2
    ensures Holds(c, k + 9, s.HeaderBytes() + ItemsBytes(s.endpoints))
  {
    var rest := s.HeaderBytes() + ItemsBytes(s.endpoints);
    Assoc(s.Head(), s.HeaderBytes(), ItemsBytes(s.endpoints));
    hide Setting.HeaderBytes, ItemsBytes;
    HoldsParts(c, k, s.Head(), rest);
    HoldsBytes(c, k, s.Head());
    var h := s.Head();
    assert c.mem[k] == h[0] && c.mem[k + 1] == h[1] && c.mem[k + 2] == h[2] && c.mem[k + 3] == h[3];
    assert c.mem[k + 5] == h[5] && c.mem[k + 6] == h[6];
  }

  /** What follows a setting's class-specific descriptors is an endpoint or the next setting. */
  lemma BehindHeader(c: Config, k: nat, items: seq<EndpointItem>)
    requires (forall e | e in items :: e.Valid()) && Holds(c, k, ItemsBytes(items))
    requires AtSetting(c, k + |ItemsBytes(items)|)
    ensures c.Kind(k) != 0x24 && NotSpecific(c, k) && NoEndpointAt(c, k + |ItemsBytes(items)|)
  {
    if items != [] {
      HoldsParts(c, k, items[0].Bytes(), ItemsBytes(items[1..]));
      ItemHead(c, k, items[0]);
    }
  }

  lemma SettingShape(s: Setting)
    requires s.Valid()
    ensures |s.Bytes()| == 9 + |s.HeaderBytes()| + |ItemsBytes(s.endpoints)|
    ensures s.header.Some? ==> s.header.value.Valid() && s.HeaderBytes() == s.header.value.Bytes() != []
    ensures s.header.None? ==> s.HeaderBytes() == []
    ensures s.Offered() == if s.header.Some? then PartsOffered(s.header.value.parts) else []
    ensures forall e | e in s.endpoints :: e.Valid()
  {
    hide PartsBytes, ItemsBytes, PartsOffered;
  }

  lemma OtherKind(c: Config, k: nat)
    requires c.Kind(k) != 0x24
    ensures NotSpecific(c, k)
  {}

  lemma ClassPart(c: Config, k: nat, s: Setting)
    requires s.Valid() && Holds(c, k + 9, s.HeaderBytes()) && c.Kind(k + 9 + |s.HeaderBytes()|) != 0x24
    requires c.Len(k) == 9 && k + 9 <= |c.mem| && c.mem[k + 5] == 0x0E && c.mem[k + 6] == 2
    ensures FramesRead(c, InterfaceAt(c, k), k + 9 + |s.HeaderBytes()|, s.Offered())
  {
    hide *;
    SettingShape(s);
    OtherKind(c, k + 9 + |s.HeaderBytes()|);
    if s.header.Some? {
      HoldsBytes(c, k + 9, s.HeaderBytes());
      HeaderReadBack(c, k, s.header.value);
    } else {
      PlainInterface(c, k);
    }
  }

  /** A setting is read back, with its frames and its endpoints. */
  lemma {:induction false} SettingReadBack(c: Config, k: nat, s: Setting)
    requires s.Valid() && Holds(c, k, s.Bytes()) && AtSetting(c, k + |s.Bytes()|)
    ensures k + 9 <= |c.mem|
    ensures SettingsRead(c, StreamingAt(c, k), k + |s.Bytes()|, s.Offered(), ItemsKinds(s.endpoints))
  {
    hide *;
    SettingHead(c, k, s);
    SettingShape(s);
    var b, bs := s.HeaderBytes(), ItemsBytes(s.endpoints);
    var mid := k + 9 + |b|;
    HoldsParts(c, k + 9, b, bs);
    BehindHeader(c, mid, s.endpoints);
    ClassPart(c, k, s);
    ItemsReadBack(c, mid, s.endpoints);
    StreamingJoins(c, k, mid, mid + |bs|, s.Offered(), ItemsKinds(s.endpoints));
  }

  /** Interface descriptors of these settings stand at these positions. */
  ghost predicate SettingsAt(c: Config, ks: seq<nat>, settings: seq<Setting>) {
    |ks| == |settings| &&
    forall i | 0 <= i < |ks| ::
      ks[i] + 4 <= |c.mem| && c.mem[ks[i] + 2] == settings[i].number && c.mem[ks[i] + 3] == settings[i].alternate
  }

  lemma SettingBefore(c: Config, k: nat, mid: nat, end: nat, offers: seq<Offer>, kinds: seq<EndpointKind>,
                      os: seq<Offer>, es: seq<EndpointKind>)
    requires IsInterface(c, k) && k < mid && SettingsRead(c, StreamingAt(c, k), mid, offers, kinds)
    requires SettingsRead(c, Interfaces(c, mid), end, os, es)
    ensures SettingsRead(c, Interfaces(c, k), end, offers + os, kinds + es)
    ensures InterfacesAt(c, k) == [k] + InterfacesAt(c, mid)
  {
    hide StreamingAt, Offering, Endpoints;
    OfferingBoth(c, StreamingAt(c, k).frames, Interfaces(c, mid).frames, offers, os);
    EndpointsBoth(c, StreamingAt(c, k).endpoints, Interfaces(c, mid).endpoints, kinds, es);
  }

  lemma NoSetting(c: Config, k: nat)
    requires k >= c.len
    ensures SettingsRead(c, Interfaces(c, k), k, [], []) && InterfacesAt(c, k) == [] && SettingsAt(c, [], [])
  {}

  lemma SettingsAtMore(c: Config, k: nat, s: Setting, ks: seq<nat>, settings: seq<Setting>)
    requires SettingsAt(c, ks, settings) && k + 4 <= |c.mem| && c.mem[k + 2] == s.number && c.mem[k + 3] == s.alternate
    ensures SettingsAt(c, [k] + ks, [s] + settings)
  {}

  lemma FirstSetting(c: Config, k: nat, settings: seq<Setting>)
    requires SettingsValid(settings) && Holds(c, k, SettingsBytes(settings))
    requires k + |SettingsBytes(settings)| == c.len && c.Kind(c.len) != 0x24
    ensures AtSetting(c, k)
  {
    if settings != [] {
      HoldsParts(c, k, settings[0].Bytes(), SettingsBytes(settings[1..]));
      SettingHead(c, k, settings[0]);
    }
  }

  lemma SettingsShape(settings: seq<Setting>)
    requires settings != [] && SettingsValid(settings)
    ensures settings[0].Valid() && SettingsValid(settings[1..])
    ensures SettingsBytes(settings) == settings[0].Bytes() + SettingsBytes(settings[1..])
    ensures SettingsOffered(settings) == settings[0].Offered() + SettingsOffered(settings[1..])
    ensures SettingsKinds(settings) == ItemsKinds(settings[0].endpoints) + SettingsKinds(settings[1..])
    ensures [settings[0]] + settings[1..] == settings
  {
    hide Setting.Bytes, Setting.Offered, Setting.Valid, ItemsKinds;
  }

  /** All settings are read back. */
  lemma {:induction false} SettingsReadBack(c: Config, k: nat, settings: seq<Setting>)
    requires SettingsValid(settings) && Holds(c, k, SettingsBytes(settings))
    requires k + |SettingsBytes(settings)| == c.len && c.Kind(c.len) != 0x24
    ensures SettingsRead(c, Interfaces(c, k), c.len, SettingsOffered(settings), SettingsKinds(settings))
    ensures SettingsAt(c, InterfacesAt(c, k), settings)
    decreases |settings|
  {
    hide *;
    if settings == [] {
      SettingsNone(c, k);
    } else {
      SettingsShape(settings);
      var mid := k + |settings[0].Bytes()|;
      HoldsParts(c, k, settings[0].Bytes(), SettingsBytes(settings[1..]));
      FirstSetting(c, mid, settings[1..]);
      SettingsReadBack(c, mid, settings[1..]);
      SettingsFirst(c, k, settings);
    }
  }

  lemma SettingsNone(c: Config, k: nat)
    requires k + |SettingsBytes([])| == c.len
    ensures SettingsRead(c, Interfaces(c, k), c.len, SettingsOffered([]), SettingsKinds([]))
    ensures SettingsAt(c, InterfacesAt(c, k), [])
  {
    NoSetting(c, k);
  }

  lemma SettingsFirst(c: Config, k: nat, settings: seq<Setting>)
    requires settings != [] && SettingsValid(settings) && settings[0].Valid() && Holds(c, k, settings[0].Bytes())
    requires AtSetting(c, k + |settings[0].Bytes()|)
    requires var mid, rest := k + |settings[0].Bytes()|, settings[1..];
             && SettingsRead(c, Interfaces(c, mid), c.len, SettingsOffered(rest), SettingsKinds(rest))
             && SettingsAt(c, InterfacesAt(c, mid), rest)
    ensures SettingsRead(c, Interfaces(c, k), c.len, SettingsOffered(settings), SettingsKinds(settings))
    ensures SettingsAt(c, InterfacesAt(c, k), settings)
  {
    hide *;
    SettingsShape(settings);
    SettingFirst(c, k, settings[0], settings[1..], SettingsOffered(settings[1..]), SettingsKinds(settings[1..]));
  }

  /** A setting in front of others that are read back. */
  lemma SettingFirst(c: Config, k: nat, s: Setting, rest: seq<Setting>, os: seq<Offer>, es: seq<EndpointKind>)
    requires s.Valid() && Holds(c, k, s.Bytes()) && AtSetting(c, k + |s.Bytes()|)
    requires SettingsRead(c, Interfaces(c, k + |s.Bytes()|), c.len, os, es)
    requires SettingsAt(c, InterfacesAt(c, k + |s.Bytes()|), rest)
    ensures SettingsRead(c, Interfaces(c, k), c.len, s.Offered() + os, ItemsKinds(s.endpoints) + es)
    ensures SettingsAt(c, InterfacesAt(c, k), [s] + rest)
  {
    hide *;
    var mid := k + |s.Bytes()|;
    SettingHead(c, k, s);
    SettingReadBack(c, k, s);
    InterfaceHere(c, k);
    SettingBefore(c, k, mid, c.len, s.Offered(), ItemsKinds(s.endpoints), os, es);
    SettingsAtMore(c, k, s, InterfacesAt(c, mid), rest);
  }

  lemma InterfaceHere(c: Config, k: nat)
    requires k + 9 <= c.len && c.len + 7 <= |c.mem| && c.Kind(k) == 4
    ensures IsInterface(c, k)
  {}

  // ----- the control interface

  /** An interface association descriptor of a video interface collection. */
  datatype Association = Association(first: byte, count: byte, protocol: byte, name: byte) {
    function Bytes(): seq<byte> {
      [8, 0x0B, first, count, 0x0E, 3, protocol, name]
    }
  }

  /** An interface descriptor of a video control interface. */
  datatype ControlInterface = ControlInterface(number: byte, alternate: byte, count: byte, protocol: byte, name: byte) {
    function Bytes(): seq<byte> {
      [9, 4, number, alternate, count, 0x0E, 1, protocol, name]
    }
  }

  /** A unit or terminal. */
  datatype Unit = Unit(subtype: byte, rest: seq<byte>) {
    predicate Valid() {
      2 <= subtype <= 7 && |rest| <= 252 && (subtype == 2 ==> |rest| >= 5)
    }

    function Bytes(): seq<byte>
      requires Valid()
    {
      [3 + |rest|, 0x24, subtype] + rest
    }
  }

  predicate UnitsValid(units: seq<Unit>) {
    forall u | u in units :: u.Valid()
  }

  function UnitsBytes(units: seq<Unit>): seq<byte>
    requires UnitsValid(units)
  {
    if units == [] then [] else units[0].Bytes() + UnitsBytes(units[1..])
  }

  /** A control header with the units that its total covers. */
  datatype ControlHeader = ControlHeader(version: u16, rest: seq<byte>, units: seq<Unit>) {
    predicate Valid() {
      5 <= |rest| <= 248 && UnitsValid(units) && 7 + |rest| + |UnitsBytes(units)| < 0x1_0000
    }

    function Head(): seq<byte>
      requires Valid()
    {
      [7 + |rest|, 0x24, 1] + BytesOf16(version) + BytesOf16(7 + |rest| + |UnitsBytes(units)|) + rest
    }

    function Bytes(): seq<byte>
      requires Valid()
    {
      Head() + UnitsBytes(units)
    }
  }

  lemma UnitHead(c: Config, k: nat, u: Unit)
    requires u.Valid() && Holds(c, k, u.Bytes())
    ensures |u.Bytes()| >= 3 && k < c.len && k + |u.Bytes()| <= c.len
    ensures c.Len(k) == |u.Bytes()| && c.Kind(k) == 0x24 && c.Sub(k) == u.subtype
    ensures u.subtype == 2 ==> c.Len(k) >= 8
  {
    HoldsHead(c, k, u.Bytes());
    HoldsBytes(c, k, u.Bytes());
  }

  lemma UnitsEndStep(c: Config, k: nat, stop: nat)
    requires k < stop && k < c.len && c.Len(k) >= 3 && k + c.Len(k) <= c.len && c.Kind(k) == 0x24 && 2 <= c.Sub(k) <= 7
    requires c.Sub(k) == 2 ==> c.Len(k) >= 8
    ensures UnitsEnd(c, k, stop) == UnitsEnd(c, k + c.Len(k), stop)
  {}

  lemma UnitsEndDone(c: Config, k: nat, stop: nat)
    requires k >= stop
    ensures UnitsEnd(c, k, stop) == k
  {}

  /** The units that the total covers are stepped over. */
  lemma {:induction false} UnitsReadBack(c: Config, k: nat, units: seq<Unit>, stop: nat)
    requires UnitsValid(units) && Holds(c, k, UnitsBytes(units)) && stop == k + |UnitsBytes(units)|
    ensures UnitsEnd(c, k, stop) == stop
    decreases |units|
  {
    hide UnitsEnd, Holds, Unit.Bytes, Unit.Valid;
    if units == [] {
      UnitsEndDone(c, k, stop);
    } else {
      var u, rest := units[0], units[1..];
      HoldsParts(c, k, u.Bytes(), UnitsBytes(rest));
      UnitHead(c, k, u);
      UnitSubtype(u);
      UnitsEndStep(c, k, stop);
      UnitsReadBack(c, k + |u.Bytes()|, rest, stop);
    }
  }

  lemma UnitSubtype(u: Unit)
    requires u.Valid()
    ensures 2 <= u.subtype <= 7
  {}

  lemma ControlHeaderFields(h: ControlHeader)
    requires h.Valid()
    ensures var b := h.Head();
            && 12 <= |b| == 7 + |h.rest| && b[0] == |b| && b[1] == 0x24 && b[2] == 1
            && Le16(b[5], b[6]) == |h.Bytes()|
  {
    hide UnitsBytes;
    var b, total := h.Head(), 7 + |h.rest| + |UnitsBytes(h.units)|;
    assert b[5..7] == BytesOf16(total);
    Read16(b, 5, total);
  }

  lemma ControlHeaderAtBytes(c: Config, j: nat, h: ControlHeader)
    requires h.Valid() && Holds(c, j, h.Bytes())
    ensures var n := |h.Head()|;
            && 12 <= n && j + n <= c.len && c.len + 7 <= |c.mem| && n + |UnitsBytes(h.units)| == |h.Bytes()|
            && c.Len(j) == n && c.Kind(j) == 0x24 && c.Sub(j) == 1 && Le16(c.mem[j + 5], c.mem[j + 6]) == |h.Bytes()|
            && Holds(c, j + n, UnitsBytes(h.units)) && UnitsValid(h.units)
  {
    var b := h.Head();
    ControlHeaderFields(h);
    hide UnitsBytes, Holds, Le16;
    HoldsParts(c, j, b, UnitsBytes(h.units));
    HoldsHead(c, j, b);
    HoldsBytes(c, j, b);
    assert c.mem[j + 5] == b[5] && c.mem[j + 6] == b[6];
  }

  lemma ControlHeaderReadBack(c: Config, k: nat, h: ControlHeader)
    requires h.Valid() && Holds(c, k, h.Bytes()) && c.len <= |c.mem|
    ensures AfterControlHeader(c, k) == k + |h.Bytes()|
  {
    hide UnitsEnd, Holds, ControlHeader.Valid, ControlHeader.Bytes, ControlHeader.Head, UnitsValid, UnitsBytes, Le16;
    ControlHeaderAtBytes(c, k, h);
    UnitsReadBack(c, k + |h.Head()|, h.units, k + |h.Bytes()|);
  }

  lemma {:induction false} ControlItemsReadBack(c: Config, k: nat, items: seq<EndpointItem>)
    requires (forall e | e in items :: e.Valid()) && Holds(c, k, ItemsBytes(items))
    requires NoEndpointAt(c, k + |ItemsBytes(items)|)
    ensures ControlEndpointsEnd(c, k) == k + |ItemsBytes(items)|
    decreases |items|
  {
    hide Holds, EndpointItem.Bytes, EndpointItem.Valid;
    if items != [] {
      HoldsParts(c, k, items[0].Bytes(), ItemsBytes(items[1..]));
      ItemHead(c, k, items[0]);
      ControlItemsReadBack(c, k + |items[0].Bytes()|, items[1..]);
    }
  }

  // ----- a whole camera

  /** A camera's configuration: its first descriptor, the control part as far as there is one,
      and the settings of the streaming interfaces. */
  datatype CameraDesc = CameraDesc(first: seq<byte>, association: Option<Association>,
                                   control: Option<ControlInterface>, header: Option<ControlHeader>,
                                   endpoints: seq<EndpointItem>, settings: seq<Setting>) {
    predicate Valid() {
      && 3 <= |first| && first[0] == |first| && (header.Some? ==> header.value.Valid())
      && (forall e | e in endpoints :: e.Valid()) && SettingsValid(settings)
    }

    function AssociationBytes(): seq<byte> {
      if association.Some? then association.value.Bytes() else []
    }

    function ControlBytes(): seq<byte> {
      if control.Some? then control.value.Bytes() else []
    }

    function HeaderBytes(): seq<byte>
      requires Valid()
    {
      if header.Some? then header.value.Bytes() else []
    }

    function EndpointsOn(): seq<byte>
      requires Valid()
    {
      ItemsBytes(endpoints) + SettingsBytes(settings)
    }

    function HeaderOn(): seq<byte>
      requires Valid()
    {
      HeaderBytes() + EndpointsOn()
    }

    function ControlOn(): seq<byte>
      requires Valid()
    {
      ControlBytes() + HeaderOn()
    }

    function Bytes(): seq<byte>
      requires Valid()
    {
      first + (AssociationBytes() + ControlOn())
    }
  }

  /** The configuration is this camera's, and no class-specific descriptor seems to lie behind. */
  ghost predicate Describes(c: Config, d: CameraDesc)
    requires d.Valid()
  {
    Holds(c, 0, d.Bytes()) && c.len == |d.Bytes()| && c.Kind(c.len) != 0x24
  }

  /** These bytes are the rest of the configuration from k on. */
  ghost predicate Remains(c: Config, k: nat, b: seq<byte>) {
    Holds(c, k, b) && k + |b| == c.len && c.Kind(c.len) != 0x24
  }

  lemma RemainsParts(c: Config, k: nat, a: seq<byte>, b: seq<byte>)
    requires Remains(c, k, a + b)
    ensures Holds(c, k, a) && Remains(c, k + |a|, b)
  {
    HoldsParts(c, k, a, b);
  }

  /** What may stand at k when no association does, no control interface either, no header either. */
  ghost predicate NoAssociation(c: Config, k: nat) {
    k < c.len ==> c.Kind(k) != 0x0B
  }

  ghost predicate NoControl(c: Config, k: nat) {
    NoAssociation(c, k) && (k < c.len && c.Kind(k) == 4 ==> k + 6 < |c.mem| && c.mem[k + 6] == 2)
  }

  ghost predicate NoHeader(c: Config, k: nat) {
    NoControl(c, k) && (k < c.len ==> c.Kind(k) != 0x24)
  }

  lemma EndpointsStage(c: Config, k: nat, d: CameraDesc)
    requires d.Valid() && Remains(c, k, d.EndpointsOn())
    ensures NoHeader(c, k) && ControlEndpointsEnd(c, k) == k + |ItemsBytes(d.endpoints)|
    ensures Remains(c, k + |ItemsBytes(d.endpoints)|, SettingsBytes(d.settings))
  {
    hide *;
    EndpointsShape(d);
    var mid := k + |ItemsBytes(d.endpoints)|;
    RemainsParts(c, k, ItemsBytes(d.endpoints), SettingsBytes(d.settings));
    RemainsAll(c, mid, SettingsBytes(d.settings));
    FirstSetting(c, mid, d.settings);
    SettingIsNoHeader(c, mid);
    BehindHeader(c, k, d.endpoints);
    ControlItemsReadBack(c, k, d.endpoints);
    FirstItem(c, k, d.endpoints);
  }

  lemma EndpointsShape(d: CameraDesc)
    requires d.Valid()
    ensures d.EndpointsOn() == ItemsBytes(d.endpoints) + SettingsBytes(d.settings)
    ensures SettingsValid(d.settings) && forall e | e in d.endpoints :: e.Valid()
  {}

  lemma RemainsAll(c: Config, k: nat, b: seq<byte>)
    requires Remains(c, k, b)
    ensures Holds(c, k, b) && k + |b| == c.len && c.Kind(c.len) != 0x24
  {}

  lemma SettingIsNoHeader(c: Config, k: nat)
    requires AtSetting(c, k)
    ensures NoHeader(c, k)
  {}

  lemma FirstItem(c: Config, k: nat, items: seq<EndpointItem>)
    requires (forall e | e in items :: e.Valid()) && Holds(c, k, ItemsBytes(items))
    requires NoHeader(c, k + |ItemsBytes(items)|)
    ensures NoHeader(c, k)
  {
    if items != [] {
      HoldsParts(c, k, items[0].Bytes(), ItemsBytes(items[1..]));
      ItemHead(c, k, items[0]);
    }
  }

  lemma HeaderStage(c: Config, k: nat, d: CameraDesc)
    requires d.Valid() && Remains(c, k, d.HeaderOn())
    ensures NoControl(c, k) && c.len <= |c.mem| && AfterControlHeader(c, k) == k + |d.HeaderBytes()|
    ensures Remains(c, k + |d.HeaderBytes()|, d.EndpointsOn())
  {
    hide *;
    HeaderOnShape(d);
    RemainsParts(c, k, d.HeaderBytes(), d.EndpointsOn());
    EndpointsStage(c, k + |d.HeaderBytes()|, d);
    HoldsBytes(c, k, d.HeaderBytes());
    if d.header.Some? {
      ControlHeaderReadBack(c, k, d.header.value);
      ControlHeaderAtBytes(c, k, d.header.value);
      SpecificIsNoControl(c, k);
    } else {
      NoHeaderAtAll(c, k);
    }
  }

  lemma HeaderOnShape(d: CameraDesc)
    requires d.Valid()
    ensures d.HeaderOn() == d.HeaderBytes() + d.EndpointsOn()
    ensures d.header.Some? ==> d.header.value.Valid() && d.HeaderBytes() == d.header.value.Bytes()
    ensures d.header.None? ==> d.HeaderBytes() == []
  {
    hide CameraDesc.EndpointsOn, ControlHeader.Bytes, ControlHeader.Valid;
  }

  lemma SpecificIsNoControl(c: Config, k: nat)
    requires c.Kind(k) == 0x24
    ensures NoControl(c, k)
  {}

  lemma NoHeaderAtAll(c: Config, k: nat)
    requires NoHeader(c, k) && c.len <= |c.mem|
    ensures NoControl(c, k) && AfterControlHeader(c, k) == k
  {}

  lemma ControlStage(c: Config, k: nat, d: CameraDesc)
    requires d.Valid() && Remains(c, k, d.ControlOn())
    ensures NoAssociation(c, k) && c.len <= |c.mem| && AfterControlInterface(c, k) == k + |d.ControlBytes()|
    ensures Remains(c, k + |d.ControlBytes()|, d.HeaderOn())
  {
    hide Holds, CameraDesc.HeaderOn, CameraDesc.Valid;
    var b := d.ControlBytes();
    RemainsParts(c, k, b, d.HeaderOn());
    HeaderStage(c, k + |b|, d);
    HoldsBytes(c, k, b);
    if d.control.Some? {
      assert c.mem[k] == b[0] && c.mem[k + 1] == b[1] && c.mem[k + 5] == b[5] && c.mem[k + 6] == b[6];
    }
  }

  lemma AssociationStage(c: Config, k: nat, d: CameraDesc)
    requires d.Valid() && Remains(c, k, d.AssociationBytes() + d.ControlOn())
    ensures c.len <= |c.mem| && AfterIad(c, k) == k + |d.AssociationBytes()|
    ensures Remains(c, k + |d.AssociationBytes()|, d.ControlOn())
  {
    hide Holds, CameraDesc.ControlOn, CameraDesc.Valid;
    var b := d.AssociationBytes();
    RemainsParts(c, k, b, d.ControlOn());
    ControlStage(c, k + |b|, d);
    HoldsBytes(c, k, b);
    if d.association.Some? {
      assert c.mem[k] == b[0] && c.mem[k + 1] == b[1] && c.mem[k + 4] == b[4] && c.mem[k + 5] == b[5];
    }
  }

  lemma FromHeader(c: Config, k: nat, d: CameraDesc)
    requires d.Valid() && Remains(c, k, d.HeaderOn())
    ensures c.len <= |c.mem|
    ensures Remains(c, ControlEndpointsEnd(c, AfterControlHeader(c, k)), SettingsBytes(d.settings))
  {
    hide *;
    HeaderStage(c, k, d);
    EndpointsStage(c, AfterControlHeader(c, k), d);
  }

  lemma FromControl(c: Config, k: nat, d: CameraDesc)
    requires d.Valid() && Remains(c, k, d.ControlOn())
    ensures c.len <= |c.mem|
    ensures Remains(c, ControlEndpointsEnd(c, AfterControlHeader(c, AfterControlInterface(c, k))),
                    SettingsBytes(d.settings))
  {
    hide *;
    ControlStage(c, k, d);
    FromHeader(c, AfterControlInterface(c, k), d);
  }

  /** The control part is stepped over, whichever of its pieces there are. */
  lemma {:induction false} ControlReadBack(c: Config, d: CameraDesc)
    requires d.Valid() && Describes(c, d)
    ensures c.len <= |c.mem| && c.Len(0) == |d.first|
    ensures Remains(c, ControlEnd(c, c.Len(0)), SettingsBytes(d.settings))
  {
    hide *;
    FirstDescriptor(c, d);
    AssociationStage(c, c.Len(0), d);
    FromControl(c, AfterIad(c, c.Len(0)), d);
    ControlEndParts(c, c.Len(0));
  }

  lemma ControlEndParts(c: Config, k: nat)
    requires c.len <= |c.mem|
    ensures ControlEnd(c, k)
            == ControlEndpointsEnd(c, AfterControlHeader(c, AfterControlInterface(c, AfterIad(c, k))))
  {}

  lemma FirstDescriptor(c: Config, d: CameraDesc)
    requires d.Valid() && Describes(c, d)
    ensures c.Len(0) == |d.first| && Remains(c, |d.first|, d.AssociationBytes() + d.ControlOn())
  {
    hide Holds, CameraDesc.ControlOn, CameraDesc.AssociationBytes;
    RemainsParts(c, 0, d.first, d.AssociationBytes() + d.ControlOn());
    HoldsHead(c, 0, d.first);
  }

  /** The walk reads a camera's configuration back: the frames of all its settings in order, each
      with the index, size, maximum bit rate and interval that the camera gives and under its own
      format; the endpoints of all settings in order, each with its direction, number, transfer,
      synchronisation and size; and the settings themselves. */
  lemma {:induction false} CameraReadBack(c: Config, d: CameraDesc)
    requires d.Valid() && Describes(c, d)
    ensures c.len <= |c.mem| && !Presented(c).fault && Presented(c).end == c.len
    ensures Offering(c, Presented(c).frames, SettingsOffered(d.settings))
    ensures Endpoints(c, Presented(c).endpoints, SettingsKinds(d.settings))
    ensures SettingsAt(c, InterfacesAt(c, ControlEnd(c, c.Len(0))), d.settings)
  {
    ControlReadBack(c, d);
    var k := ControlEnd(c, c.Len(0));
    assert SettingsValid(d.settings);
    assert Holds(c, k, SettingsBytes(d.settings)) && k + |SettingsBytes(d.settings)| == c.len;
    assert c.Kind(c.len) != 0x24;
    hide SettingsValid, SettingsBytes, SettingsOffered, SettingsKinds, SettingsAt, Holds, Offering, Endpoints;
    hide ControlEnd, Interfaces, InterfacesAt, CameraDesc.Valid, Describes;
    SettingsReadBack(c, k, d.settings);
  }

  // ----- what the record holds after the walk over a camera's configuration

  /** The offers that the walk collects are those of the camera. */
  lemma {:induction false} CameraOffers(c: Config, d: CameraDesc, offers: seq<Offer>)
    requires d.Valid() && Describes(c, d) && AreOffers(c, Presented(c).frames, offers)
    ensures offers == SettingsOffered(d.settings)
  {
    CameraReadBack(c, d);
    var fs := Presented(c).frames;
    hide Presented, CameraDesc.Valid, Describes, SettingsOffered;
    forall i | 0 <= i < |offers| ensures offers[i] == SettingsOffered(d.settings)[i] {
      OffersMeaning(c, fs, offers, i);
    }
  }

  /** So the fields kept are those of the first frame with the highest maximum bit rate within
      the target, of its format, and of both formats unless it is MJPEG; and none are kept if
      and only if every frame within the target has a maximum bit rate of 0. */
  lemma {:induction false} CameraChoice(c: Config, d: CameraDesc, target: u32, offers: seq<Offer>)
    requires d.Valid() && Describes(c, d) && AreOffers(c, Presented(c).frames, offers)
    ensures var all, kept := SettingsOffered(d.settings), ConsiderAll(target, offers);
            && (kept == UNSET || exists i :: FirstBest(target, all, i, kept))
            && (forall o | o in all && o.rate <= target && (o.format == kept.format || kept.format != 6) ::
                  o.rate <= kept.rate)
            && (kept == UNSET <==> forall o | o in all && o.rate <= target :: o.rate == 0)
  {
    CameraOffers(c, d, offers);
    OffersKnown(c, Presented(c).frames, offers);
    hide Presented, CameraDesc.Valid, Describes, SettingsOffered, AreOffers;
    ChoiceOptimal(target, offers);
  }

  /** And the pipe, unless an allocation fails, is that of the first largest isochronous,
      asynchronous IN endpoint of all settings. */
  lemma {:induction false} CameraPipe(c: Config, d: CameraDesc, es: seq<(Endpoint, nat)>)
    requires d.Valid() && Describes(c, d) && AreEndpoints(c, Presented(c).endpoints, es) && !VisitAll(es).faulted
    ensures var ks, s := SettingsKinds(d.settings), VisitAll(es);
            if s.pipe == 0 then forall k | k in ks :: !k.Streams()
            else exists i :: FirstLargestStream(ks, i) && i < |es| && s.pipe == es[i].1
                             && s.endpt == ks[i].number && s.xferSize == ks[i].size
  {
    hide Presented, Describes, CameraDesc.Valid, SettingsKinds, AreEndpoints, VisitAll, Answered, Handles, Endpoints;
    hide Offering, SettingsAt, InterfacesAt, ControlEnd, EndpointKind.Valid, EndpointKind.Streams;
    CameraReadBack(c, d);
    var ks, handles := SettingsKinds(d.settings), Handles(es);
    AreAnswered(c, Presented(c).endpoints, ks, es);
    PipeExactly(ks, handles);
  }

  function Handles(es: seq<(Endpoint, nat)>): seq<nat> {
    seq(|es|, i requires 0 <= i < |es| => es[i].1)
  }

  lemma AreAnswered(c: Config, at: seq<nat>, ks: seq<EndpointKind>, es: seq<(Endpoint, nat)>)
    requires Endpoints(c, at, ks) && AreEndpoints(c, at, es)
    ensures |ks| == |es| == |Handles(es)| && (forall k | k in ks :: k.Valid()) && es == Answered(ks, Handles(es))
    ensures forall i | 0 <= i < |es| :: Handles(es)[i] == es[i].1
  {
    hide EndpointKind.Encoded, EndpointKind.Valid, EndpointAt;
  }
}
