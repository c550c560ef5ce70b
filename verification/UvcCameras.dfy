/** Any camera's configuration is well formed, so the walk over it ends, and its record holds
    what the camera gives. */
module UvcCameras {
  import opened Bytes
  import opened StreamChoice
  import opened UvcDescriptors
  import opened UvcMeaning
  import opened UvcConfig
  import opened UvcEncode

  // ----- descriptors one behind the other

  /** Descriptors one behind the other, none of them an interface descriptor. */
  ghost predicate Calm(b: seq<byte>) {
    b == [] || (|b| >= 3 && 3 <= b[0] <= |b| && b[1] != 4 && Calm(b[b[0]..]))
  }

  /** An input header stands behind the streaming interface that b begins with. */
  predicate Headed(b: seq<byte>) {
    |b| > 6 && b[0] + 7 <= |b| && b[1] == 4 && b[5] == 0x0E && b[6] == 2 && b[b[0] + 1] == 0x24 && b[b[0] + 2] == 1
  }

  /** Descriptors one behind the other, in which the totals of input headers stay inside. */
  ghost predicate Tidy(b: seq<byte>) {
    b == [] || (|b| >= 3 && 3 <= b[0] <= |b| && FirstFits(b) && Tidy(b[b[0]..]))
  }

  ghost predicate FirstFits(b: seq<byte>) {
    Headed(b) ==> b[0] + Le16(b[b[0] + 4], b[b[0] + 5]) <= |b|
  }

  lemma CalmOne(r: seq<byte>)
    requires 3 <= |r| == r[0] && r[1] != 4
    ensures Calm(r)
  {}

  lemma {:induction false} CalmBoth(a: seq<byte>, b: seq<byte>)
    requires Calm(a) && Calm(b)
    ensures Calm(a + b)
    decreases |a|
  {
    if a == [] {
      assert a + b == b;
    } else {
      assert (a + b)[a[0]..] == a[a[0]..] + b;
      CalmBoth(a[a[0]..], b);
    }
  }

  lemma {:induction false} CalmTidy(a: seq<byte>, b: seq<byte>)
    requires Calm(a) && Tidy(b)
    ensures Tidy(a + b)
    decreases |a|
  {
    if a == [] {
      assert a + b == b;
    } else {
      assert (a + b)[a[0]..] == a[a[0]..] + b;
      CalmTidy(a[a[0]..], b);
    }
  }

  lemma TidyFirst(r: seq<byte>, b: seq<byte>)
    requires 3 <= |r| == r[0] && Tidy(b) && FirstFits(r + b)
    ensures Tidy(r + b)
  {
    assert (r + b)[|r|..] == b;
  }

  // ----- a camera's descriptors are so

  lemma {:induction false} FramesCalm(frames: seq<FrameDesc>, subtype: byte)
    requires forall f | f in frames :: f.Valid()
    ensures Calm(FramesBytes(frames, subtype))
    decreases |frames|
  {
    if frames != [] {
      FrameFields(frames[0], subtype);
      CalmOne(frames[0].Bytes(subtype));
      FramesCalm(frames[1..], subtype);
      CalmBoth(frames[0].Bytes(subtype), FramesBytes(frames[1..], subtype));
    }
  }

  lemma {:induction false} PartCalm(p: Part)
    requires p.Valid()
    ensures Calm(p.Bytes())
  {
    CalmOne(p.Head());
    PartShape(p);
    if p.Format? {
      FramesCalm(p.frames, FrameSubtype(p.mjpeg));
      CalmBoth(p.Head(), FramesBytes(p.frames, FrameSubtype(p.mjpeg)));
    }
  }

  lemma {:induction false} PartsCalm(parts: seq<Part>)
    requires forall p | p in parts :: p.Valid()
    ensures Calm(PartsBytes(parts))
    decreases |parts|
  {
    hide Calm;
    if parts == [] {
      NoneCalm();
    } else {
      PartCalm(parts[0]);
      PartsCalm(parts[1..]);
      CalmBoth(parts[0].Bytes(), PartsBytes(parts[1..]));
    }
  }

  lemma NoneCalm()
    ensures Calm([])
  {}

  lemma {:induction false} ItemsCalm(items: seq<EndpointItem>)
    requires forall e | e in items :: e.Valid()
    ensures Calm(ItemsBytes(items))
    ensures ItemsBytes(items) != [] ==> |ItemsBytes(items)| >= 3 && ItemsBytes(items)[1] != 0x24
    decreases |items|
  {
    if items != [] {
      CalmOne(items[0].Bytes());
      ItemsCalm(items[1..]);
      CalmBoth(items[0].Bytes(), ItemsBytes(items[1..]));
    }
  }

  lemma {:induction false} UnitsCalm(units: seq<Unit>)
    requires UnitsValid(units)
    ensures Calm(UnitsBytes(units))
    decreases |units|
  {
    if units != [] {
      CalmOne(units[0].Bytes());
      UnitsCalm(units[1..]);
      CalmBoth(units[0].Bytes(), UnitsBytes(units[1..]));
    }
  }

  lemma {:induction false} InputHeaderCalm(h: InputHeader)
    requires h.Valid()
    ensures Calm(h.Bytes())
  {
    HeaderFields(h);
    CalmOne(h.Head());
    PartsCalm(h.parts);
    CalmBoth(h.Head(), PartsBytes(h.parts));
  }

  lemma {:induction false} ControlHeaderCalm(h: ControlHeader)
    requires h.Valid()
    ensures Calm(h.Bytes())
  {
    ControlHeaderFields(h);
    CalmOne(h.Head());
    UnitsCalm(h.units);
    CalmBoth(h.Head(), UnitsBytes(h.units));
  }

  /** What can follow a setting's class-specific descriptors is none. */
  ghost predicate NotSpecificFirst(b: seq<byte>) {
    |b| >= 2 ==> b[1] != 0x24
  }

  lemma {:induction false} SettingTidy(s: Setting, rest: seq<byte>)
    requires s.Valid() && Tidy(rest) && NotSpecificFirst(rest)
    ensures Tidy(s.Bytes() + rest) && NotSpecificFirst(s.Bytes() + rest)
  {
    hide *;
    SettingShape(s);
    var b, ends := s.HeaderBytes(), ItemsBytes(s.endpoints);
    HeaderBytesCalm(s);
    ItemsBehind(s.endpoints, rest);
    CalmTidy(b, ends + rest);
    HeadFits(s, ends + rest);
    HeadIs(s);
    TidyFirst(s.Head(), b + (ends + rest));
    SettingSplit(s, rest);
  }

  lemma ItemsBehind(items: seq<EndpointItem>, rest: seq<byte>)
    requires (forall e | e in items :: e.Valid()) && Tidy(rest) && NotSpecificFirst(rest)
    ensures Tidy(ItemsBytes(items) + rest) && NotSpecificFirst(ItemsBytes(items) + rest)
  {
    hide ItemsBytes, Tidy, Calm, EndpointItem.Valid;
    ItemsCalm(items);
    CalmTidy(ItemsBytes(items), rest);
    assert ItemsBytes(items) == [] ==> ItemsBytes(items) + rest == rest;
  }

  lemma HeadIs(s: Setting)
    ensures 3 <= |s.Head()| == s.Head()[0] && s.Head()[1] == 4
  {}

  lemma SettingSplit(s: Setting, rest: seq<byte>)
    requires s.Valid()
    ensures s.Bytes() + rest == s.Head() + (s.HeaderBytes() + (ItemsBytes(s.endpoints) + rest))
    ensures NotSpecificFirst(s.Bytes() + rest)
  {
    hide ItemsBytes, Setting.HeaderBytes, Setting.Valid;
  }

  lemma HeaderBytesCalm(s: Setting)
    requires s.Valid()
    ensures Calm(s.HeaderBytes())
  {
    if s.header.Some? {
      InputHeaderCalm(s.header.value);
    }
  }

  lemma HeadFits(s: Setting, behind: seq<byte>)
    requires s.Valid() && NotSpecificFirst(behind)
    ensures FirstFits(s.Head() + (s.HeaderBytes() + behind))
  {
    var b := s.HeaderBytes();
    var all := s.Head() + (b + behind);
    if s.header.Some? {
      var h := s.header.value;
      HeaderFields(h);
      assert all[13] == h.Head()[4] && all[14] == h.Head()[5];
    } else {
      assert b + behind == behind;
      if |behind| >= 2 {
        assert all[10] == behind[1];
      }
    }
  }

  lemma {:induction false} SettingsTidy(settings: seq<Setting>)
    requires SettingsValid(settings)
    ensures Tidy(SettingsBytes(settings)) && NotSpecificFirst(SettingsBytes(settings))
    decreases |settings|
  {
    if settings != [] {
      SettingsTidy(settings[1..]);
      SettingTidy(settings[0], SettingsBytes(settings[1..]));
    }
  }

  lemma {:induction false} CameraTidy(d: CameraDesc)
    requires d.Valid() && d.first[1] != 4
    ensures Tidy(d.Bytes())
  {
    SettingsTidy(d.settings);
    ItemsCalm(d.endpoints);
    CalmTidy(ItemsBytes(d.endpoints), SettingsBytes(d.settings));
    if d.header.Some? {
      ControlHeaderCalm(d.header.value);
    }
    CalmTidy(d.HeaderBytes(), d.EndpointsOn());
    ControlTidy(d.ControlBytes(), d);
    if d.association.Some? {
      CalmOne(d.AssociationBytes());
    }
    CalmTidy(d.AssociationBytes(), d.ControlOn());
    CalmOne(d.first);
    CalmTidy(d.first, d.AssociationBytes() + d.ControlOn());
  }

  lemma ControlTidy(b: seq<byte>, d: CameraDesc)
    requires d.Valid() && b == d.ControlBytes() && Tidy(d.HeaderOn())
    ensures Tidy(b + d.HeaderOn())
  {
    hide CameraDesc.HeaderOn;
    if d.control.Some? {
      TidyFirst(b, d.HeaderOn());
    } else {
      assert b + d.HeaderOn() == d.HeaderOn();
    }
  }

  // ----- so the configuration is well formed

  lemma {:induction false} TidyChain(c: Config, i: nat, k: nat)
    requires c.len <= |c.mem| && i <= c.len && Tidy(c.mem[i..c.len]) && c.Leads(i, k)
    ensures k <= c.len && Tidy(c.mem[k..c.len])
    decreases c.len - i
  {
    if i != k {
      assert c.mem[i..c.len][c.mem[i]..] == c.mem[i + c.mem[i]..c.len];
      TidyChain(c, i + c.mem[i], k);
    }
  }

  /** The configuration of a camera is well formed: the walk over it is the one that
      ParseAllConfig describes. */
  lemma {:induction false} CameraWellFormed(c: Config, d: CameraDesc)
    requires d.Valid() && Describes(c, d) && d.first[1] != 4 && c.len < 0x1_0000
    ensures c.WellFormed()
  {
    CameraTidy(d);
    assert c.mem[0..c.len] == d.Bytes();
    forall k: nat | c.OnChain(k) && k < c.len ensures c.mem[k] >= 3 && k + c.mem[k] <= c.len {
      TidyChain(c, 0, k);
    }
    forall i: nat, k: nat | c.HeaderAt(i, k) ensures k + Le16(c.mem[k + 4], c.mem[k + 5]) <= c.len {
      TidyChain(c, 0, i);
      HeaderInside(c, i, k);
    }
  }

  lemma HeaderInside(c: Config, i: nat, k: nat)
    requires c.HeaderAt(i, k) && Tidy(c.mem[i..c.len])
    ensures k + Le16(c.mem[k + 4], c.mem[k + 5]) <= c.len
  {
    var b := c.mem[i..c.len];
    assert Headed(b) && b[b[0] + 4] == c.mem[k + 4] && b[b[0] + 5] == c.mem[k + 5];
  }

  /** After the walk the record holds, in the camera's own terms: the fields of the first frame
      with the highest maximum bit rate within the target, of its format, and of both formats
      unless it is MJPEG; the pipe of the first largest endpoint that can carry the stream; and
      the number and alternate of the camera's last setting. */
  lemma {:induction false} CameraRecord(cam: Camera, d: CameraDesc)
    requires d.Valid() && Describes(cam.c, d) && cam.Valid() && !cam.pipes.faulted
    requires cam.frames == Presented(cam.c).frames && cam.endpointsAt == Presented(cam.c).endpoints
    requires cam.interfacesAt == InterfacesAt(cam.c, ControlEnd(cam.c, cam.c.Len(0)))
    ensures var all := SettingsOffered(d.settings);
            && (cam.choice == UNSET || exists i :: FirstBest(cam.target, all, i, cam.choice))
            && (cam.choice == UNSET <==> forall o | o in all && o.rate <= cam.target :: o.rate == 0)
            && forall o | o in all && o.rate <= cam.target :: o.rate <= cam.choice.rate
                                                              || (cam.choice.format == 6 && o.format != 6)
    ensures var ks := SettingsKinds(d.settings);
            if cam.pipes.pipe == 0 then forall k | k in ks :: !k.Streams()
            else exists i :: FirstLargestStream(ks, i) && cam.pipes.endpt == ks[i].number
                             && cam.pipes.xferSize == ks[i].size
    ensures d.settings != [] ==>
              var last := d.settings[|d.settings| - 1]; cam.iface == last.number && cam.alt == last.alternate
  {
    var c := cam.c;
    hide *;
    CameraReadBack(c, d);
    RecordIs(cam);
    CameraChoice(c, d, cam.target, cam.offers);
    CameraPipe(c, d, cam.endpoints);
    if d.settings != [] {
      LastIs(cam, d);
    }
  }

  lemma RecordIs(cam: Camera)
    requires cam.Valid()
    ensures AreOffers(cam.c, cam.frames, cam.offers) && cam.choice == ConsiderAll(cam.target, cam.offers)
    ensures AreEndpoints(cam.c, cam.endpointsAt, cam.endpoints) && cam.pipes == VisitAll(cam.endpoints)
    ensures cam.LastSetting()
  {}

  lemma LastIs(cam: Camera, d: CameraDesc)
    requires cam.LastSetting() && SettingsAt(cam.c, cam.interfacesAt, d.settings) && d.settings != []
    ensures var last := d.settings[|d.settings| - 1]; cam.iface == last.number && cam.alt == last.alternate
  {}
}
