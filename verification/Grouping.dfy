/** The listener groups packets into frames by ID (BaseStation/client.cpp), and what it
    reassembles agrees with the offline examination (BaseStation/examine.cpp). */
module Grouping {
  import opened Bytes
  import opened Packets
  import opened Overlay
  import opened Examine
  import opened Client

  ghost predicate OneID(g: seq<Pkt>) {
    g != [] && forall i | 0 <= i < |g| :: g[i].id == g[0].id
  }

  /** `gs` cuts `ps` into maximal runs of equal ID. */
  ghost predicate RunSplit(gs: seq<seq<Pkt>>, ps: seq<Pkt>) {
    && Flatten(gs) == ps
    && (forall i | 0 <= i < |gs| :: OneID(gs[i]))
    && forall i | 0 <= i < |gs| - 1 :: gs[i][0].id != gs[i + 1][0].id
  }

  /** In every reachable state the packets held share one ID, and the flushed groups
      followed by them are the split of all accepted packets into maximal runs. */
  lemma {:induction false} GroupsAreRuns(wakes: seq<seq<byte>>)
    ensures var st := Run(INITIAL, wakes);
            RunSplit(st.Groups(), st.Accepted()) && (st.pkts == [] ==> st.flushed == [])
  {
    if wakes != [] {
      var n := |wakes| - 1;
      GroupsAreRuns(wakes[..n]);
      var st := Run(INITIAL, wakes[..n]);
      var data := st.data + wakes[n];
      match ParsePacket(data)
      case Err(_) =>
      case Ok(p) => KeepRuns(st, p);
    }
  }

  /** A packet of the last group's ID joins that group. */
  lemma SplitGrows(gs: seq<seq<Pkt>>, g: seq<Pkt>, p: Pkt)
    requires RunSplit(gs + [g], Flatten(gs) + g) && p.id == g[0].id
    ensures RunSplit(gs + [g + [p]], Flatten(gs) + (g + [p]))
  {
    var hs, hs' := gs + [g], gs + [g + [p]];
    FlattenSnoc(gs, g + [p]);
    hide Flatten;
    assert OneID(hs[|gs|]);
    forall i | 0 <= i < |hs'| ensures OneID(hs'[i]) && hs'[i][0].id == hs[i][0].id {
      assert OneID(hs[i]);
    }
    forall i | 0 <= i < |hs'| - 1 ensures hs'[i][0].id != hs'[i + 1][0].id {
      assert hs[i][0].id != hs[i + 1][0].id;
    }
  }

  /** A packet of another ID begins a group. */
  lemma SplitBegins(gs: seq<seq<Pkt>>, ps: seq<Pkt>, p: Pkt)
    requires RunSplit(gs, ps) && (gs != [] ==> OneID(gs[|gs| - 1]) && p.id != gs[|gs| - 1][0].id)
    ensures RunSplit(gs + [[p]], ps + [p])
  {
    var hs := gs + [[p]];
    FlattenSnoc(gs, [p]);
    hide Flatten;
    forall i | 0 <= i < |hs| ensures OneID(hs[i]) {
      assert i < |gs| ==> OneID(gs[i]);
    }
    forall i | 0 <= i < |hs| - 1 ensures hs[i][0].id != hs[i + 1][0].id {
      if i < |gs| - 1 {
        assert gs[i][0].id != gs[i + 1][0].id;
      }
    }
  }

  lemma {:induction false} KeepRuns(st: State, p: Pkt)
    requires RunSplit(st.Groups(), st.Accepted()) && (st.pkts == [] ==> st.flushed == [])
    ensures RunSplit(Keep(st, p).Groups(), Keep(st, p).Accepted()) && Keep(st, p).pkts != []
  {
    KeepAccepts(st, p);
    hide RunSplit, Flatten;
    var gs := st.Groups();
    if st.pkts == [] || p.id != st.pkts[0].id {
      assert [] + [p] == [p] && gs + [] == gs;
      assert Keep(st, p).Groups() == gs + [[p]];
      LastGroup(st);
      SplitBegins(gs, st.Accepted(), p);
    } else {
      SplitGrows(st.flushed, st.pkts, p);
      Assoc(Flatten(st.flushed), st.pkts, [p]);
    }
  }

  lemma LastGroup(st: State)
    requires RunSplit(st.Groups(), st.Accepted()) && (st.pkts == [] ==> st.flushed == [])
    ensures st.Groups() != [] ==> st.pkts != [] && st.Groups()[|st.Groups()| - 1] == st.pkts && OneID(st.pkts)
  {
    if st.pkts != [] {
      assert OneID(st.Groups()[|st.flushed|]);
    }
  }

  lemma NoGroupNoPacket(gs: seq<seq<Pkt>>)
    requires forall i | 0 <= i < |gs| :: OneID(gs[i])
    ensures gs == [] <==> Flatten(gs) == []
  {
    if gs != [] {
      assert OneID(gs[|gs| - 1]);
    }
  }

  /** The last run is everything after the last change of ID. */
  lemma LastRun(gs: seq<seq<Pkt>>, ps: seq<Pkt>)
    requires RunSplit(gs, ps) && gs != []
    ensures var k := |ps| - |gs[|gs| - 1]|;
            && 0 <= k < |ps| && ps[k..] == gs[|gs| - 1] && ps[..k] == Flatten(gs[..|gs| - 1])
            && (forall i | k <= i < |ps| :: ps[i].id == ps[|ps| - 1].id)
            && (k > 0 ==> ps[k - 1].id != ps[|ps| - 1].id)
  {
    var m := |gs| - 1;
    var g, init := gs[m], gs[..m];
    var k := |ps| - |g|;
    assert OneID(g) && ps == Flatten(init) + g;
    assert forall i | k <= i < |ps| :: ps[i] == g[i - k];
    NoGroupNoPacket(init);
    if m > 0 {
      var prev := gs[m - 1];
      assert OneID(prev) && init[m - 1] == prev;
      assert Flatten(init) == Flatten(init[..m - 1]) + prev;
      assert ps[k - 1] == prev[|prev| - 1];
      assert gs[m - 1][0].id != gs[m - 1 + 1][0].id;
    }
  }

  lemma LastRunsEqual(gs: seq<seq<Pkt>>, hs: seq<seq<Pkt>>, ps: seq<Pkt>)
    requires RunSplit(gs, ps) && RunSplit(hs, ps) && gs != [] && hs != []
    ensures gs[|gs| - 1] == hs[|hs| - 1] && Flatten(gs[..|gs| - 1]) == Flatten(hs[..|hs| - 1])
  {
    LastRun(gs, ps);
    LastRun(hs, ps);
    assert |gs[|gs| - 1]| == |hs[|hs| - 1]|;
  }

  /** There is only one such split. */
  lemma {:induction false} RunSplitUnique(gs: seq<seq<Pkt>>, hs: seq<seq<Pkt>>, ps: seq<Pkt>)
    requires RunSplit(gs, ps) && RunSplit(hs, ps)
    ensures gs == hs
    decreases |gs|
  {
    NoGroupNoPacket(gs);
    NoGroupNoPacket(hs);
    if gs != [] {
      var m, n := |gs| - 1, |hs| - 1;
      LastRunsEqual(gs, hs, ps);
      assert RunSplit(gs[..m], Flatten(gs[..m])) && RunSplit(hs[..n], Flatten(hs[..n]));
      RunSplitUnique(gs[..m], hs[..n], Flatten(gs[..m]));
      assert gs == gs[..m] + [gs[m]] && hs == hs[..n] + [hs[n]];
    }
  }

  // ----- live and offline reassembly agree

  lemma OfIDSnoc(ps: seq<Pkt>, p: Pkt, id: byte)
    ensures OfID(ps + [p], id) == OfID(ps, id) + (if p.id == id then [p] else [])
  {
    assert (ps + [p])[..|ps|] == ps;
  }

  lemma {:induction false} OfIDAppend(ps: seq<Pkt>, qs: seq<Pkt>, id: byte)
    ensures OfID(ps + qs, id) == OfID(ps, id) + OfID(qs, id)
  {
    if qs == [] {
      assert ps + qs == ps;
    } else {
      var n := |qs| - 1;
      OfIDAppend(ps, qs[..n], id);
      assert ps + qs == (ps + qs[..n]) + [qs[n]];
      OfIDSnoc(ps + qs[..n], qs[n], id);
      Assoc(OfID(ps, id), OfID(qs[..n], id), if qs[n].id == id then [qs[n]] else []);
    }
  }

  lemma {:induction false} OfIDRun(g: seq<Pkt>, id: byte, same: bool)
    requires forall i | 0 <= i < |g| :: (g[i].id == id) == same
    ensures OfID(g, id) == if same then g else []
  {
    if g != [] {
      OfIDRun(g[..|g| - 1], id, same);
    }
  }

  /** Group k, and no other, carries the ID. */
  ghost predicate Lone(gs: seq<seq<Pkt>>, id: byte, k: int) {
    forall i | 0 <= i < |gs| :: OneID(gs[i]) && (gs[i][0].id == id <==> i == k)
  }

  lemma {:induction false} OfIDGroups(gs: seq<seq<Pkt>>, id: byte, k: int)
    requires Lone(gs, id, k)
    ensures OfID(Flatten(gs), id) == if 0 <= k < |gs| then gs[k] else []
  {
    if gs != [] {
      var n := |gs| - 1;
      var before, g := Flatten(gs[..n]), gs[n];
      assert OneID(g) && (g[0].id == id <==> n == k);
      assert OfID(before, id) == if 0 <= k < n then gs[k] else [] by {
        assert Lone(gs[..n], id, k);
        OfIDGroups(gs[..n], id, k);
      }
      assert OfID(g, id) == if n == k then g else [] by {
        OfIDRun(g, id, n == k);
      }
      OfIDAppend(before, g, id);
    }
  }

  ghost predicate SoleGroup(gs: seq<seq<Pkt>>, k: nat) {
    k < |gs| && forall i | 0 <= i < |gs| && i != k && gs[i] != [] && gs[k] != [] :: gs[i][0].id != gs[k][0].id
  }

  /** The packets of the offline parse with some ID: those the listener has accepted, and
      those still waiting in its data. */
  lemma OfflineOfID(wakes: seq<seq<byte>>, id: byte)
    requires !BatchParse(Flatten(wakes)).spins
    ensures var st := Run(INITIAL, wakes);
            OfID(BatchParse(Flatten(wakes)).pkts, id) == OfID(st.Accepted(), id) + OfID(BatchParse(st.data).pkts, id)
  {
    var st := Run(INITIAL, wakes);
    AcceptedPrefix(wakes);
    OfIDAppend(st.Accepted(), BatchParse(st.data).pkts, id);
  }

  lemma {:induction false} SoleGroupIs(wakes: seq<seq<byte>>, k: nat)
    requires SoleGroup(Run(INITIAL, wakes).Groups(), k)
    ensures var st := Run(INITIAL, wakes);
            var g := st.Groups()[k];
            OneID(g) && OfID(st.Accepted(), g[0].id) == g
  {
    var st := Run(INITIAL, wakes);
    GroupsAreRuns(wakes);
    assert OneID(st.Groups()[k]);
    OfIDGroups(st.Groups(), st.Groups()[k][0].id, k);
  }

  lemma {:induction false} OfIDFrom(ps: seq<Pkt>, id: byte)
    ensures forall p | p in OfID(ps, id) :: p in ps
  {
    if ps != [] {
      OfIDFrom(ps[..|ps| - 1], id);
    }
  }

  /** An ID that occurs in one group only, in a stream on which the offline parse ends: that
      parse finds the packets of the group followed by those still waiting in the listener's
      data. So, when none is waiting, the live and the offline program lay the same packets
      over each other, and the listener makes of them the frame that the offline buffer gives
      exactly when no packet of the group ends beyond 32 bits. */
  lemma {:induction false} LiveAndOfflineAgree(wakes: seq<seq<byte>>, k: nat)
    requires SoleGroup(Run(INITIAL, wakes).Groups(), k) && !BatchParse(Flatten(wakes)).spins
    ensures var st := Run(INITIAL, wakes);
            var g := st.Groups()[k];
            && g != [] && AllValid(g)
            && var found := OfID(BatchParse(Flatten(wakes)).pkts, g[0].id);
               var waiting := OfID(BatchParse(st.data).pkts, g[0].id);
               && found == g + waiting
               && (waiting == [] ==>
                     Overlaid(found) != [] &&
                     (FrameOf(g) == FrameFrom(g[0].kind, Overlaid(found)) <==> forall p | p in g :: Fits(p)))
  {
    var st := Run(INITIAL, wakes);
    var g := st.Groups()[k];
    SoleGroupIs(wakes, k);
    OfflineOfID(wakes, g[0].id);
    assert AllValid(g) by {
      BytesConserved(wakes);
      OfIDFrom(st.Accepted(), g[0].id);
    }
    OverlayNonempty(g);
    assert g + [] == g;
  }
}
