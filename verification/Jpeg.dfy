/** JPEG markers in a byte stream: the multi-frame scanner of BaseStation/view.cpp and
    the single-frame extraction of assembleFrame (BaseStation/client.cpp). The markers
    are SOI and EOI of ITU-T T.81, Annex B, Table B.1. */
module Jpeg {
  import opened Bytes

  const SOI: byte := 0xD8
  const EOI: byte := 0xD9

  /** The two bytes of a marker stand at index j. */
  predicate At(raw: seq<byte>, code: byte, j: int) {
    0 <= j < |raw| - 1 && raw[j] == 0xFF && raw[j + 1] == code
  }

  /** The first such marker at or after an index, or |raw| if there is none. */
  function First(raw: seq<byte>, code: byte, from: nat): (r: nat)
    requires from <= |raw|
    ensures from <= r <= |raw| && (r < |raw| ==> At(raw, code, r))
    ensures forall j | from <= j < r :: !At(raw, code, j)
    decreases |raw| - from
  {
    if from == |raw| || At(raw, code, from) then from else First(raw, code, from + 1)
  }

  lemma FirstIs(raw: seq<byte>, code: byte, from: nat, r: nat)
    requires from <= r <= |raw| && (r < |raw| ==> At(raw, code, r))
    requires forall j | from <= j < r :: !At(raw, code, j)
    ensures First(raw, code, from) == r
  {}

  /** The images from an index on: each runs from the next SOI through the first EOI after it. */
  function Images(raw: seq<byte>, from: nat): seq<seq<byte>>
    requires from <= |raw|
    decreases |raw| - from
  {
    var s := First(raw, SOI, from);
    if s == |raw| then [] else ImagesFrom(raw, s, s)
  }

  /** As Images, inside an image that began at s and has been read up to j. */
  function ImagesFrom(raw: seq<byte>, s: nat, j: nat): seq<seq<byte>>
    requires s <= j <= |raw|
    decreases |raw| - j, 0
  {
    var e := First(raw, EOI, j);
    if e == |raw| then [] else [raw[s..e + 2]] + Images(raw, e + 2)
  }

  /** The scan up to j: images already shown, then those still to come. */
  ghost predicate Scanned(raw: seq<byte>, shown: seq<seq<byte>>, mjpeg: seq<byte>, inMjpeg: bool, s: nat, j: nat) {
    && s <= j <= |raw|
    && mjpeg == (if inMjpeg then raw[s..j] else [])
    && Images(raw, 0) == shown + (if inMjpeg then ImagesFrom(raw, s, j) else Images(raw, j))
  }

  lemma ScannedStart(raw: seq<byte>)
    ensures Scanned(raw, [], [], false, 0, 0)
  {}

  /** A byte at which no SOI stands begins no image, one at which no EOI stands ends none. */
  lemma Skip(raw: seq<byte>, s: nat, j: nat)
    requires s <= j < |raw|
    ensures !At(raw, SOI, j) ==> Images(raw, j) == Images(raw, j + 1)
    ensures !At(raw, EOI, j) ==> ImagesFrom(raw, s, j) == ImagesFrom(raw, s, j + 1)
  {
    assert !At(raw, SOI, j) ==> First(raw, SOI, j) == First(raw, SOI, j + 1);
    assert !At(raw, EOI, j) ==> First(raw, EOI, j) == First(raw, EOI, j + 1);
    hide First, At;
  }

  lemma ScannedNext(raw: seq<byte>, shown: seq<seq<byte>>, mjpeg: seq<byte>, inMjpeg: bool, s: nat, j: nat)
    requires Scanned(raw, shown, mjpeg, inMjpeg, s, j) && j < |raw|
    requires !At(raw, if inMjpeg then EOI else SOI, j)
    ensures Scanned(raw, shown, if inMjpeg then mjpeg + [raw[j]] else mjpeg, inMjpeg, s, j + 1)
  {
    hide First, At, Images, ImagesFrom;
    Skip(raw, s, j);
    assert raw[s..j] + [raw[j]] == raw[s..j + 1];
  }

  lemma ScannedOpen(raw: seq<byte>, shown: seq<seq<byte>>, s: nat, j: nat)
    requires Scanned(raw, shown, [], false, s, j) && At(raw, SOI, j)
    ensures Scanned(raw, shown, [raw[j]], true, j, j + 1)
  {
    assert First(raw, EOI, j) == First(raw, EOI, j + 1);
    assert Images(raw, j) == ImagesFrom(raw, j, j) == ImagesFrom(raw, j, j + 1);
  }

  lemma ScannedClose(raw: seq<byte>, shown: seq<seq<byte>>, mjpeg: seq<byte>, s: nat, j: nat)
    requires Scanned(raw, shown, mjpeg, true, s, j) && At(raw, EOI, j)
    ensures Scanned(raw, shown + [mjpeg + [raw[j]] + [raw[j + 1]]], [], false, s, j + 2)
  {
    var image := mjpeg + [raw[j]] + [raw[j + 1]];
    assert image == raw[s..j + 2];
    assert shown + ([image] + Images(raw, j + 2)) == (shown + [image]) + Images(raw, j + 2);
  }

  lemma ScannedEnd(raw: seq<byte>, shown: seq<seq<byte>>, mjpeg: seq<byte>, inMjpeg: bool, s: nat, j: nat)
    requires Scanned(raw, shown, mjpeg, inMjpeg, s, j) && j >= |raw| - 1
    ensures Images(raw, 0) == shown
  {
    assert Images(raw, j) == ImagesFrom(raw, s, j) == [];
  }

  /** The loop of view.cpp. The two bytes of an EOI are consumed together. */
  method Scan(raw: seq<byte>) returns (shown: seq<seq<byte>>)
    requires raw != []
    ensures shown == Images(raw, 0)
  {
    hide Scanned, Images;
    shown := [];
    var mjpeg: seq<byte> := [];
    var inMjpeg := false;
    ghost var s := 0;
    var j := 0;
    ScannedStart(raw);
    while j < |raw| - 1
      invariant s <= j <= |raw| && (!inMjpeg ==> mjpeg == [])
      invariant Scanned(raw, shown, mjpeg, inMjpeg, s, j)
    {
      if !inMjpeg && raw[j] == 0xFF && raw[j + 1] == 0xD8 {
        ScannedOpen(raw, shown, s, j);
        mjpeg := mjpeg + [raw[j]];
        assert mjpeg == [raw[j]];
        inMjpeg := true;
        s := j;
      } else if inMjpeg && raw[j] == 0xFF && raw[j + 1] == 0xD9 {
        ScannedClose(raw, shown, mjpeg, s, j);
        mjpeg := mjpeg + [raw[j]];
        mjpeg := mjpeg + [raw[j + 1]];
        j := j + 1;
        shown := shown + [mjpeg];
        mjpeg := [];
        inMjpeg := false;
      } else if inMjpeg {
        ScannedNext(raw, shown, mjpeg, true, s, j);
        mjpeg := mjpeg + [raw[j]];
      } else {
        ScannedNext(raw, shown, mjpeg, false, s, j);
      }
      j := j + 1;
    }
    ScannedEnd(raw, shown, mjpeg, inMjpeg, s, j);
  }

  /** Reading a file until the stream is no longer good stores one byte more: the
      end-of-file value, cut to a byte. */
  method View(file: seq<byte>) returns (shown: seq<seq<byte>>)
    ensures shown == Images(file, 0)
  {
    var raw: seq<byte> := [];
    var i := 0;
    var good := true;
    while good
      invariant 0 <= i <= |file|
      invariant raw == if good then file[..i] else file + [0xFF]
      decreases |file| - i, good
    {
      if i < |file| {
        raw := raw + [file[i]];
        i := i + 1;
      } else {
        raw := raw + [0xFF];
        good := false;
      }
    }
    EndByteHarmless(file, 0);
    shown := Scan(raw);
  }

  lemma {:induction false} FirstExtended(file: seq<byte>, code: byte, from: nat)
    requires from <= |file| && code != 0xFF
    ensures var a, b := First(file, code, from), First(file + [0xFF], code, from);
            if a < |file| then b == a else b == |file| + 1
    decreases |file| - from
  {
    if from < |file| && !At(file, code, from) {
      FirstExtended(file, code, from + 1);
    }
  }

  /** The end-of-file byte neither adds nor changes an image. */
  lemma {:induction false} EndByteHarmless(file: seq<byte>, from: nat)
    requires from <= |file|
    ensures Images(file + [0xFF], from) == Images(file, from)
    decreases |file| - from
  {
    FirstExtended(file, SOI, from);
    var s := First(file, SOI, from);
    if s < |file| {
      FirstExtended(file, EOI, s);
      var e := First(file, EOI, s);
      if e < |file| {
        EndByteHarmless(file, e + 2);
        assert (file + [0xFF])[s..e + 2] == file[s..e + 2];
      }
    }
  }

  // ----- the scanner inverts interleaving frames with other bytes

  /** A JPEG frame as the scanner knows it: SOI, anything without EOI, EOI. */
  ghost predicate IsFrame(f: seq<byte>) {
    |f| >= 4 && At(f, SOI, 0) && At(f, EOI, |f| - 2) && forall j | 0 <= j < |f| - 2 :: !At(f, EOI, j)
  }

  ghost predicate IsGap(g: seq<byte>) {
    forall j :: !At(g, SOI, j)
  }

  /** A last stretch in which no image is completed. */
  ghost predicate IsTail(t: seq<byte>) {
    var s := First(t, SOI, 0);
    s == |t| || First(t, EOI, s) == |t|
  }

  function Join(gaps: seq<seq<byte>>, frames: seq<seq<byte>>, tail: seq<byte>): seq<byte>
    requires |gaps| == |frames|
  {
    if frames == [] then tail else gaps[0] + (frames[0] + Join(gaps[1..], frames[1..], tail))
  }

  ghost predicate Interleaves(gaps: seq<seq<byte>>, frames: seq<seq<byte>>, tail: seq<byte>, raw: seq<byte>) {
    && |gaps| == |frames|
    && (forall g | g in gaps :: IsGap(g))
    && (forall f | f in frames :: IsFrame(f))
    && IsTail(tail)
    && raw == Join(gaps, frames, tail)
  }

  lemma {:induction false} FirstShift(pre: seq<byte>, raw: seq<byte>, code: byte, from: nat)
    requires from <= |raw|
    ensures First(pre + raw, code, |pre| + from) == |pre| + First(raw, code, from)
    decreases |raw| - from
  {
    assert At(pre + raw, code, |pre| + from) <==> At(raw, code, from);
    if from < |raw| && !At(raw, code, from) {
      FirstShift(pre, raw, code, from + 1);
      assert |pre| + (from + 1) == |pre| + from + 1;
    }
  }

  /** The image that begins with the next SOI, and those after it. */
  lemma NextImage(raw: seq<byte>, from: nat, s: nat, e: nat)
    requires from <= |raw| && First(raw, SOI, from) == s < |raw| && First(raw, EOI, s) == e < |raw|
    ensures Images(raw, from) == [raw[s..e + 2]] + Images(raw, e + 2)
  {
    hide First;
  }

  lemma NoImage(raw: seq<byte>, from: nat)
    requires from <= |raw|
    requires First(raw, SOI, from) == |raw| || First(raw, EOI, First(raw, SOI, from)) == |raw|
    ensures Images(raw, from) == []
  {
    hide First;
  }

  lemma SliceShift(pre: seq<byte>, raw: seq<byte>, s: nat, e: nat)
    requires s <= e <= |raw|
    ensures (pre + raw)[|pre| + s..|pre| + e] == raw[s..e]
  {}

  lemma {:induction false} ImagesShift(pre: seq<byte>, raw: seq<byte>, from: nat)
    requires from <= |raw|
    ensures Images(pre + raw, |pre| + from) == Images(raw, from)
    decreases |raw| - from
  {
    hide First, Images;
    var all, n := pre + raw, |pre|;
    FirstShift(pre, raw, SOI, from);
    var s := First(raw, SOI, from);
    if s < |raw| {
      FirstShift(pre, raw, EOI, s);
    }
    if s == |raw| || First(raw, EOI, s) == |raw| {
      NoImage(raw, from);
      NoImage(all, n + from);
    } else {
      var e := First(raw, EOI, s);
      ImagesShift(pre, raw, e + 2);
      NextImage(raw, from, s, e);
      NextImage(all, n + from, n + s, n + e);
      SliceShift(pre, raw, s, e + 2);
    }
  }

  lemma GapSkipped(gap: seq<byte>, tail: seq<byte>)
    requires IsGap(gap) && At(tail, SOI, 0)
    ensures First(gap + tail, SOI, 0) == |gap|
  {
    var raw := gap + tail;
    assert raw[|gap|] == tail[0] && raw[|gap| + 1] == tail[1];
    forall j | 0 <= j < |gap| ensures !At(raw, SOI, j) {
      assert !At(gap, SOI, j);
    }
    FirstIs(raw, SOI, 0, |gap|);
  }

  lemma FrameEnds(frame: seq<byte>, rest: seq<byte>)
    requires IsFrame(frame)
    ensures First(frame + rest, EOI, 0) == |frame| - 2 && At(frame + rest, SOI, 0)
  {
    var raw, e := frame + rest, |frame| - 2;
    assert raw[e] == frame[e] && raw[e + 1] == frame[e + 1] && raw[0] == frame[0] && raw[1] == frame[1];
    forall j | 0 <= j < e ensures !At(raw, EOI, j) {
      assert !At(frame, EOI, j);
    }
    FirstIs(raw, EOI, 0, e);
  }

  lemma ImagesStep(gap: seq<byte>, frame: seq<byte>, rest: seq<byte>)
    requires IsGap(gap) && IsFrame(frame)
    ensures Images(gap + (frame + rest), 0) == [frame] + Images(rest, 0)
  {
    hide IsGap, IsFrame, First, Images;
    var raw, g, n := gap + (frame + rest), |gap|, |gap| + |frame|;
    FrameEnds(frame, rest);
    GapSkipped(gap, frame + rest);
    FirstShift(gap, frame + rest, EOI, 0);
    assert First(raw, SOI, 0) == g && First(raw, EOI, g) == n - 2;
    NextImage(raw, 0, g, n - 2);
    ImagesShift(gap + frame, rest, 0);
    assert raw == (gap + frame) + rest && raw[g..n] == frame;
  }

  lemma {:induction false} JoinedImages(gaps: seq<seq<byte>>, frames: seq<seq<byte>>, tail: seq<byte>, raw: seq<byte>)
    requires Interleaves(gaps, frames, tail, raw)
    ensures Images(raw, 0) == frames
    decreases |frames|
  {
    if frames != [] {
      assert gaps[0] in gaps && frames[0] in frames;
      var rest := Join(gaps[1..], frames[1..], tail);
      ImagesStep(gaps[0], frames[0], rest);
      JoinedImages(gaps[1..], frames[1..], tail, rest);
    }
  }

  lemma {:induction false} CutUp(raw: seq<byte>) returns (gaps: seq<seq<byte>>, tail: seq<byte>)
    ensures Interleaves(gaps, Images(raw, 0), tail, raw)
    decreases |raw|
  {
    var s := First(raw, SOI, 0);
    var e := First(raw, EOI, s);
    if s == |raw| || e == |raw| {
      NoImage(raw, 0);
      gaps, tail := [], raw;
    } else {
      var gap, frame, rest := raw[..s], raw[s..e + 2], raw[e + 2..];
      FirstIsCut(raw, s, e);
      assert raw == gap + (frame + rest);
      ImagesStep(gap, frame, rest);
      gaps, tail := CutUp(rest);
      hide First, Images, IsGap, IsFrame, IsTail;
      Interleaved(gap, frame, gaps, Images(rest, 0), tail, rest);
      gaps := [gap] + gaps;
    }
  }

  lemma FirstIsCut(raw: seq<byte>, s: nat, e: nat)
    requires s == First(raw, SOI, 0) < |raw| && e == First(raw, EOI, s) < |raw|
    ensures e + 2 <= |raw| && IsGap(raw[..s]) && IsFrame(raw[s..e + 2])
  {
    var gap, frame := raw[..s], raw[s..e + 2];
    assert forall j :: At(gap, SOI, j) ==> At(raw, SOI, j);
    assert forall j | 0 <= j < |frame| - 2 :: At(frame, EOI, j) ==> At(raw, EOI, s + j);
  }

  lemma Interleaved(gap: seq<byte>, frame: seq<byte>, gaps: seq<seq<byte>>, frames: seq<seq<byte>>,
                    tail: seq<byte>, rest: seq<byte>)
    requires IsGap(gap) && IsFrame(frame) && Interleaves(gaps, frames, tail, rest)
    ensures Interleaves([gap] + gaps, [frame] + frames, tail, gap + (frame + rest))
  {
    hide IsGap, IsFrame, IsTail;
    assert ([gap] + gaps)[1..] == gaps && ([frame] + frames)[1..] == frames;
  }

  /** The scanner's images of a stream are `frames` exactly when the stream is those
      frames in order, separated by stretches without SOI, before an unfinished tail. */
  lemma ScanExact(raw: seq<byte>, frames: seq<seq<byte>>)
    ensures Images(raw, 0) == frames <==> exists gaps, tail :: Interleaves(gaps, frames, tail, raw)
  {
    if Images(raw, 0) == frames {
      var gaps, tail := CutUp(raw);
    }
    if gaps, tail :| Interleaves(gaps, frames, tail, raw) {
      JoinedImages(gaps, frames, tail, raw);
    }
  }

  // ----- the single image that assembleFrame takes out of a reassembled buffer

  function Extracted(raw: seq<byte>): seq<byte>
    requires raw != []
  {
    var s, e := First(raw, SOI, 0), First(raw, EOI, 0);
    if s < e then (if e < |raw| then raw[s..e + 2] else raw[s..|raw| - 1])
    else if e < |raw| then [0xFF, 0xD9]
    else []
  }

  /** j is where the first such marker stands, or the end if there is none. */
  ghost predicate FirstAt(raw: seq<byte>, code: byte, j: int) {
    && 0 <= j <= |raw|
    && (j < |raw| ==> j + 1 < |raw| && raw[j] == 0xFF && raw[j + 1] == code)
    && forall k | 0 <= k < j && k + 1 < |raw| :: !(raw[k] == 0xFF && raw[k + 1] == code)
  }

  /** What is extracted, by where the first SOI (FF D8) and the first EOI (FF D9) stand: the image
      between them, both markers included; without an EOI all from the SOI on but the last byte;
      the two bytes of the EOI if it comes first; nothing if there is neither. */
  lemma {:induction false} ExtractedByPositions(raw: seq<byte>, s: int, e: int)
    requires raw != [] && FirstAt(raw, 0xD8, s) && FirstAt(raw, 0xD9, e)
    ensures s < e < |raw| ==> Extracted(raw) == raw[s..e + 2]
    ensures s < e == |raw| ==> Extracted(raw) == raw[s..|raw| - 1]
    ensures e < s ==> Extracted(raw) == [0xFF, 0xD9]
    ensures s == e ==> s == |raw| && Extracted(raw) == []
  {
    FirstIs(raw, 0xD8, 0, s);
    FirstIs(raw, 0xD9, 0, e);
  }

  lemma CutFrameMarkers(f: seq<byte>, n: nat)
    requires IsFrame(f) && 2 <= n <= |f| - 2
    ensures FirstAt(f[..n], 0xD8, 0) && FirstAt(f[..n], 0xD9, n)
  {
    var raw := f[..n];
    assert At(f, SOI, 0) && raw[0] == f[0] && raw[1] == f[1];
    forall k | 0 <= k < n && k + 1 < n ensures !(raw[k] == 0xFF && raw[k + 1] == 0xD9) {
      assert raw[k] == f[k] && raw[k + 1] == f[k + 1] && !At(f, EOI, k);
    }
  }

  /** The beginning of a frame, without its EOI: what is extracted loses its last byte, too. */
  lemma {:induction false} CutFrameExtracted(f: seq<byte>, n: nat)
    requires IsFrame(f) && 2 <= n <= |f| - 2
    ensures Extracted(f[..n]) == f[..n - 1]
  {
    hide FirstAt, Extracted, IsFrame;
    CutFrameMarkers(f, n);
    ExtractedByPositions(f[..n], 0, n);
    assert f[..n][0..n - 1] == f[..n - 1];
  }

  /** The extraction loop: an EOI ends it whether or not an SOI came first. */
  method Extract(raw: seq<byte>) returns (mjpeg: seq<byte>)
    requires raw != []
    ensures mjpeg == Extracted(raw)
  {
    mjpeg := [];
    var inMjpeg := false;
    ghost var s := First(raw, SOI, 0);
    var j := 0;
    while j < |raw| - 1
      invariant 0 <= j < |raw|
      invariant forall k | 0 <= k < j :: !At(raw, EOI, k)
      invariant inMjpeg <==> s < j
      invariant mjpeg == if inMjpeg then raw[s..j] else []
    {
      assert At(raw, SOI, j) ==> s <= j;
      assert s == j ==> At(raw, SOI, j) && raw[s..j + 1] == [raw[j]];
      assert s < j ==> raw[s..j + 1] == raw[s..j] + [raw[j]];
      if raw[j] == 0xFF && raw[j + 1] == 0xD8 {
        mjpeg := mjpeg + [raw[j]];
        inMjpeg := true;
      } else if raw[j] == 0xFF && raw[j + 1] == 0xD9 {
        FirstIs(raw, EOI, 0, j);
        mjpeg := mjpeg + [raw[j]];
        mjpeg := mjpeg + [raw[j + 1]];
        return;
      } else if inMjpeg {
        mjpeg := mjpeg + [raw[j]];
      }
      j := j + 1;
    }
    assert First(raw, EOI, 0) == |raw|;
  }

  /** Both programs take the same first image out of a buffer that holds one exactly
      when no stray EOI precedes the first SOI. */
  lemma ExtractedIsFirstImage(raw: seq<byte>)
    requires Images(raw, 0) != []
    ensures Extracted(raw) == Images(raw, 0)[0] <==> First(raw, SOI, 0) < First(raw, EOI, 0)
  {
    var s, e := First(raw, SOI, 0), First(raw, EOI, 0);
    var e' := First(raw, EOI, s);
    assert At(raw, SOI, s) && At(raw, EOI, e') && e' >= s + 2;
    assert |raw[s..e' + 2]| >= 4;
    if s < e {
      assert e == e';
    }
  }

  /** They differ on an EOI before an image: the extraction takes the EOI, the scanner the
      image. */
  lemma {:induction false} StrayEnd(image: seq<byte>)
    requires IsFrame(image)
    ensures Extracted([0xFF, 0xD9] + image) == [0xFF, 0xD9] && Images([0xFF, 0xD9] + image, 0) == [image]
  {
    var gap: seq<byte> := [0xFF, 0xD9];
    var raw := gap + (image + []);
    assert raw == gap + image;
    FirstIs(raw, EOI, 0, 0);
    GapSkipped(gap, image + []);
    ImagesStep(gap, image, []);
    assert image + [] == image;
  }
}
