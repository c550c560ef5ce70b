/** Offline examination of a recorded stream (BaseStation/examine.cpp): parse every
    packet in one pass, then reassemble the packets of one ID. */
module Examine {
  import opened Bytes
  import opened Packets
  import opened Overlay

  /** What follows the first packet of a buffer that parses. */
  function Rest(buf: seq<byte>): seq<byte>
    requires ParsePacket(buf).Ok?
  {
    buf[ParsePacket(buf).value.RawLength()..]
  }

  /** The packets of the parse loop, the bytes it stops at, and whether it never
      stops: a packet of 65528 bytes has raw length 0 and is read for ever. */
  datatype Batch = Batch(pkts: seq<Pkt>, rest: seq<byte>, spins: bool)

  function BatchParse(buf: seq<byte>): (b: Batch)
    ensures AllValid(b.pkts)
    decreases |buf|
  {
    match ParsePacket(buf)
    case Err(_) => Batch([], buf, false)
    case Ok(p) =>
      if p.RawLength() == 0 then Batch([p], buf, true)
      else
        var b := BatchParse(Rest(buf));
        b.(pkts := [p] + b.pkts)
  }

  /** Where the loop stands: what it has parsed, followed by the parse of the rest. */
  ghost predicate ParsedUpTo(buf: seq<byte>, pkts: seq<Pkt>, i: nat) {
    i <= |buf| &&
    var b := BatchParse(buf[i..]);
    BatchParse(buf) == Batch(pkts + b.pkts, b.rest, b.spins)
  }

  lemma BatchStep(buf: seq<byte>, i: nat, p: Pkt)
    requires i <= |buf| && ParsePacket(buf[i..]) == Ok(p)
    ensures i + p.RawLength() <= |buf|
    ensures p.RawLength() == 0 ==> BatchParse(buf[i..]) == Batch([p], buf[i..], true)
    ensures var b := BatchParse(buf[i + p.RawLength()..]);
            p.RawLength() != 0 ==> BatchParse(buf[i..]) == Batch([p] + b.pkts, b.rest, b.spins)
  {
    assert buf[i..][p.RawLength()..] == buf[i + p.RawLength()..];
  }

  lemma {:induction false} ParsedNext(buf: seq<byte>, pkts: seq<Pkt>, i: nat, p: Pkt)
    requires ParsedUpTo(buf, pkts, i) && ParsePacket(buf[i..]) == Ok(p)
    ensures i + p.RawLength() <= |buf|
    ensures p.RawLength() == 0 ==> BatchParse(buf) == Batch(pkts + [p], buf[i..], true)
    ensures p.RawLength() != 0 ==> ParsedUpTo(buf, pkts + [p], i + p.RawLength())
  {
    BatchStep(buf, i, p);
    var b := BatchParse(buf[i + p.RawLength()..]);
    Assoc(pkts, [p], b.pkts);
  }

  lemma ParsedStart(buf: seq<byte>)
    ensures ParsedUpTo(buf, [], 0)
  {
    assert buf[0..] == buf;
    assert [] + BatchParse(buf).pkts == BatchParse(buf).pkts;
  }

  lemma ParsedEnd(buf: seq<byte>, pkts: seq<Pkt>, i: nat)
    requires ParsedUpTo(buf, pkts, i) && ParsePacket(buf[i..]).Err?
    ensures BatchParse(buf) == Batch(pkts, buf[i..], false)
  {
    assert pkts + [] == pkts;
  }

  /** The parse loop over a whole file. `spins` stands for a run that does not end. */
  method ParseAll(buf: seq<byte>) returns (pkts: seq<Pkt>, i: nat, spins: bool)
    ensures i <= |buf| && Batch(pkts, buf[i..], spins) == BatchParse(buf)
  {
    hide ParsedUpTo, BatchParse;
    pkts, i, spins := [], 0, false;
    ParsedStart(buf);
    while i < |buf|
      invariant i <= |buf| && ParsedUpTo(buf, pkts, i)
    {
      var tmp := new Packet();
      var r := tmp.Parse(buf[i..]);
      if r.Err? {
        break;
      }
      var p := tmp.Value();
      ParsedNext(buf, pkts, i, p);
      pkts := pkts + [p];
      if p.RawLength() == 0 {
        return pkts, i, true;
      }
      i := i + p.RawLength();
    }
    ParsedEnd(buf, pkts, i);
  }

  function OfID(pkts: seq<Pkt>, id: byte): seq<Pkt> {
    if pkts == [] then []
    else
      var p := pkts[|pkts| - 1];
      OfID(pkts[..|pkts| - 1], id) + (if p.id == id then [p] else [])
  }

  /** The overlay loop over the packets of one ID; the end is a 64-bit sum here. */
  method ReassembleID(pkts: seq<Pkt>, id: byte) returns (raw: seq<byte>)
    requires AllValid(pkts)
    ensures raw == Overlaid(OfID(pkts, id))
  {
    hide OfID, Overlaid, Lay;
    raw := [];
    OfIDNone(id);
    for n := 0 to |pkts|
      invariant raw == Overlaid(OfID(pkts[..n], id))
    {
      var p := pkts[n];
      assert p in pkts;
      OfIDNext(pkts, n, id);
      if p.id == id {
        var next := CopyInto(raw, p, p.offset + p.length);
        OverlaidSnoc(OfID(pkts[..n], id), p);
        raw := next.value;
      }
    }
    assert pkts[..|pkts|] == pkts;
  }

  lemma OfIDNone(id: byte)
    ensures OfID([], id) == [] && Overlaid([]) == []
  {}

  lemma OfIDNext(pkts: seq<Pkt>, n: nat, id: byte)
    requires n < |pkts|
    ensures OfID(pkts[..n + 1], id) == if pkts[n].id == id then OfID(pkts[..n], id) + [pkts[n]] else OfID(pkts[..n], id)
  {
    assert pkts[..n + 1][..n] == pkts[..n];
    assert OfID(pkts[..n], id) + [] == OfID(pkts[..n], id);
  }

  lemma OverlaidSnoc(ps: seq<Pkt>, p: Pkt)
    ensures Overlaid(ps + [p]) == Lay(Overlaid(ps), p)
  {
    assert (ps + [p])[..|ps|] == ps;
  }

  // ----- the loop as a relation, and what it does when the stream grows

  /** |ps| rounds of the loop take `buf` to `rest` and yield `ps`. */
  ghost predicate Iterates(buf: seq<byte>, ps: seq<Pkt>, rest: seq<byte>) {
    if ps == [] then buf == rest
    else ParsePacket(buf) == Ok(ps[0]) && Iterates(Rest(buf), ps[1..], rest)
  }

  lemma RestStable(buf: seq<byte>, more: seq<byte>)
    requires ParsePacket(buf).Ok?
    ensures ParsePacket(buf + more) == ParsePacket(buf) && Rest(buf + more) == Rest(buf) + more
  {
    ParseStable(buf, more);
  }

  lemma {:induction false} IteratesGrow(buf: seq<byte>, ps: seq<Pkt>, rest: seq<byte>, more: seq<byte>)
    requires Iterates(buf, ps, rest)
    ensures Iterates(buf + more, ps, rest + more)
  {
    if ps != [] {
      RestStable(buf, more);
      IteratesGrow(Rest(buf), ps[1..], rest, more);
    }
  }

  lemma {:induction false} IteratesSnoc(buf: seq<byte>, ps: seq<Pkt>, rest: seq<byte>)
    requires Iterates(buf, ps, rest) && ParsePacket(rest).Ok?
    ensures Iterates(buf, ps + [ParsePacket(rest).value], Rest(rest))
  {
    var p := ParsePacket(rest).value;
    if ps == [] {
      assert Iterates(Rest(rest), [], Rest(rest));
      assert ([] + [p])[1..] == [];
    } else {
      IteratesSnoc(Rest(buf), ps[1..], rest);
      assert (ps + [p])[1..] == ps[1..] + [p];
    }
  }

  /** The bytes one packet takes off a stream, and those a list takes. */
  function Taken(p: Pkt): seq<byte>
    requires p.Valid()
  {
    Encode(p)[..p.RawLength()]
  }

  function Consumed(ps: seq<Pkt>): seq<byte>
    requires AllValid(ps)
  {
    if ps == [] then [] else Taken(ps[0]) + Consumed(ps[1..])
  }

  lemma TakenRest(buf: seq<byte>)
    requires ParsePacket(buf).Ok?
    ensures var p := ParsePacket(buf).value; p.Valid() && buf == Taken(p) + Rest(buf)
  {
    var p := ParsePacket(buf).value;
    ParseExact(buf, p);
    assert Taken(p) == buf[..p.RawLength()];
  }

  /** The loop conserves bytes: what it has read is what its packets took, followed by
      what is left. */
  lemma {:induction false} IteratesConserve(buf: seq<byte>, ps: seq<Pkt>, rest: seq<byte>)
    requires Iterates(buf, ps, rest)
    ensures AllValid(ps) && buf == Consumed(ps) + rest
  {
    if ps != [] {
      TakenRest(buf);
      IteratesConserve(Rest(buf), ps[1..], rest);
      assert forall p :: p in ps ==> p == ps[0] || p in ps[1..];
      Assoc(Taken(ps[0]), Consumed(ps[1..]), rest);
    }
  }

  /** A packet takes its whole encoding unless its length exceeds 65527. */
  lemma {:induction false} ConsumedWhole(ps: seq<Pkt>)
    requires AllValid(ps) && forall p | p in ps :: p.length <= 65527
    ensures Consumed(ps) == EncodeAll(ps)
  {
    if ps != [] {
      assert ps[0] in ps && forall p :: p in ps[1..] ==> p in ps;
      RawLengthExact(ps[0]);
      assert Taken(ps[0]) == Encode(ps[0]);
      ConsumedWhole(ps[1..]);
    }
  }

  /** A run of the loop is a prefix of the whole parse, which goes on from where it stopped. */
  lemma {:induction false} IteratesBatch(buf: seq<byte>, ps: seq<Pkt>, rest: seq<byte>)
    requires Iterates(buf, ps, rest) && !BatchParse(buf).spins
    ensures !BatchParse(rest).spins
    ensures BatchParse(buf).pkts == ps + BatchParse(rest).pkts
    ensures BatchParse(buf).rest == BatchParse(rest).rest
  {
    if ps != [] {
      IteratesBatch(Rest(buf), ps[1..], rest);
      assert ps == [ps[0]] + ps[1..];
    }
  }

  /** The parse itself is such a run, and it ends where no packet can be read. */
  lemma {:induction false} BatchIterates(buf: seq<byte>)
    ensures !BatchParse(buf).spins ==>
              Iterates(buf, BatchParse(buf).pkts, BatchParse(buf).rest) && ParsePacket(BatchParse(buf).rest).Err?
    decreases |buf|
  {
    if ParsePacket(buf).Ok? && ParsePacket(buf).value.RawLength() > 0 {
      BatchIterates(Rest(buf));
    }
  }

  /** Some rounds of the loop lead to a packet of 65528 bytes. */
  ghost predicate Sticks(buf: seq<byte>, ps: seq<Pkt>, rest: seq<byte>) {
    Iterates(buf, ps, rest) && ParsePacket(rest).Ok? && ParsePacket(rest).value.length == 65528
  }

  /** A packet of 65528 bytes, and no other, has raw length 0. */
  lemma NoLength(p: Pkt)
    requires p.Valid()
    ensures p.RawLength() == 0 <==> p.length == 65528
  {}

  /** The parse of a file reads for ever exactly when its rounds lead to a packet of 65528
      bytes. */
  lemma {:induction false} SpinsExactly(buf: seq<byte>)
    ensures BatchParse(buf).spins <==> exists ps, rest :: Sticks(buf, ps, rest)
  {
    if BatchParse(buf).spins {
      var ps, rest := SpinsAt(buf);
    }
    if ps, rest :| Sticks(buf, ps, rest) {
      StuckSpins(buf, ps, rest);
    }
  }

  lemma {:induction false} SpinsAt(buf: seq<byte>) returns (ps: seq<Pkt>, rest: seq<byte>)
    requires BatchParse(buf).spins
    ensures Sticks(buf, ps, rest) && BatchParse(buf).pkts == ps + [ParsePacket(rest).value]
    decreases |buf|
  {
    var p := ParsePacket(buf).value;
    if p.RawLength() == 0 {
      ps, rest := [], buf;
    } else {
      var qs;
      qs, rest := SpinsAt(Rest(buf));
      ps := [p] + qs;
      assert ps[1..] == qs;
    }
  }

  lemma {:induction false} StuckSpins(buf: seq<byte>, ps: seq<Pkt>, rest: seq<byte>)
    requires Sticks(buf, ps, rest)
    ensures BatchParse(buf).spins
    decreases |ps|
  {
    if ps != [] && ps[0].RawLength() != 0 {
      StuckSpins(Rest(buf), ps[1..], rest);
    }
  }

  lemma SpinsOnLong(buf: seq<byte>)
    ensures BatchParse(buf).spins ==> exists p :: p in BatchParse(buf).pkts && p.length == 65528
  {
    if BatchParse(buf).spins {
      var ps, rest := SpinsAt(buf);
      var p := ParsePacket(rest).value;
      assert BatchParse(buf).pkts[|ps|] == p;
      assert p in BatchParse(buf).pkts;
    }
  }

  /** One such packet is enough. */
  lemma {:induction false} SpinningFile(data: seq<byte>)
    requires |data| == 65528
    ensures BatchParse(Encode(Pkt(65528, 1, UNCOMP, 0, data))).spins
  {
    hide Encode, ParsePacket;
    var p := Pkt(65528, 1, UNCOMP, 0, data);
    NoLength(p);
    ParseExact(Encode(p), p);
  }
}
