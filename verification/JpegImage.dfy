/** JPEG files as they are written, segment by segment, and what the detector and the stripper make of them. */
module JpegImage {
  import opened Bytes
  import opened Metadata

  // A marker segment; APP1 has the marker 0xE1.
  datatype Segment = Segment(marker: byte, payload: seq<byte>)

  predicate ValidSegment(g: Segment) {
    g.marker != 0xDA && g.marker != 0xD9 && |g.payload| + 2 < 0x1_0000
  }

  function SegmentBytes(g: Segment): (b: seq<byte>)
    requires ValidSegment(g)
    ensures |b| == 4 + |g.payload|
  {
    [0xFF, g.marker, (|g.payload| + 2) / 256, (|g.payload| + 2) % 256] + g.payload
  }

  predicate AllValid(gs: seq<Segment>) {
    forall k | 0 <= k < |gs| :: ValidSegment(gs[k])
  }

  function SegmentsBytes(gs: seq<Segment>): seq<byte>
    requires AllValid(gs)
  {
    if gs == [] then [] else SegmentBytes(gs[0]) + SegmentsBytes(gs[1..])
  }

  // Start of image, the segments, and the scan or end marker with whatever follows it.
  function JpegBytes(gs: seq<Segment>, rest: seq<byte>): seq<byte>
    requires AllValid(gs)
  {
    [0xFF, 0xD8] + (SegmentsBytes(gs) + rest)
  }

  predicate ValidRest(rest: seq<byte>) {
    |rest| >= 4 && rest[0] == 0xFF && (rest[1] == 0xDA || rest[1] == 0xD9)
  }

  // An EXIF block: an APP1 segment that starts with `Exif` and two zeros.
  predicate IsExif(g: Segment) {
    g.marker == 0xE1 && |g.payload| >= 6 && g.payload[..6] == [0x45, 0x78, 0x69, 0x66, 0x00, 0x00]
  }

  function WithoutApp1(gs: seq<Segment>): (r: seq<Segment>)
    requires AllValid(gs)
    ensures AllValid(r)
  {
    if gs == [] then [] else (if gs[0].marker == 0xE1 then [] else [gs[0]]) + WithoutApp1(gs[1..])
  }

  lemma SegmentFront(g: Segment, more: seq<byte>)
    requires ValidSegment(g)
    ensures var s := SegmentBytes(g) + more;
            && |s| >= 4 && s[0] == 0xFF && s[1] == g.marker && 2 + SegmentLength(s) == |SegmentBytes(g)|
            && Skip(s, 2 + SegmentLength(s)) == more && s[..|SegmentBytes(g)|] == SegmentBytes(g)
  {
  }

  // A shorter payload is no EXIF block, because the next marker starts with 0xFF.
  lemma ExifFront(g: Segment, more: seq<byte>)
    requires ValidSegment(g) && g.marker == 0xE1 && |more| >= 4 && more[0] == 0xFF
    ensures |SegmentBytes(g) + more| >= 4 && (HasExif(SegmentBytes(g) + more) <==> IsExif(g))
  {
    var s, n := SegmentBytes(g) + more, |g.payload|;
    if n >= 6 {
      assert s[4..10] == g.payload[..6];
    } else if |s| >= 10 {
      assert s[4..10][n] == s[4 + n] == 0xFF;
      assert forall k | 0 <= k < 6 :: EXIF[k] != 0xFF;
    }
  }

  /** The stripper gives the file without its APP1 segments, and changes nothing else. */
  lemma {:induction false} StripSegments(gs: seq<Segment>, rest: seq<byte>)
    requires AllValid(gs) && ValidRest(rest)
    ensures StripFrom(SegmentsBytes(gs) + rest) == SegmentsBytes(WithoutApp1(gs)) + rest
  {
    hide SegmentLength, Skip, StripFrom, SegmentBytes, ValidSegment;
    if gs == [] {
      StripUnfold(rest);
      assert SegmentsBytes(gs) + rest == rest && SegmentsBytes(WithoutApp1(gs)) + rest == rest;
    } else {
      var g, more := gs[0], SegmentsBytes(gs[1..]) + rest;
      assert ValidSegment(g);
      var s := SegmentBytes(g) + more;
      assert SegmentsBytes(gs) + rest == s;
      SegmentFront(g, more);
      StripUnfold(s);
      NotScan(g);
      StripSegments(gs[1..], rest);
      if g.marker == 0xE1 {
        assert WithoutApp1(gs) == WithoutApp1(gs[1..]);
      } else {
        assert WithoutApp1(gs) == [g] + WithoutApp1(gs[1..]);
        assert WithoutApp1(gs)[1..] == WithoutApp1(gs[1..]);
        assert SegmentsBytes(WithoutApp1(gs)) + rest == SegmentBytes(g) + (SegmentsBytes(WithoutApp1(gs[1..])) + rest);
      }
    }
  }

  lemma NotScan(g: Segment)
    requires ValidSegment(g)
    ensures g.marker != 0xDA && g.marker != 0xD9
  {
  }

  lemma StripFileRoundTrip(gs: seq<Segment>, rest: seq<byte>)
    requires AllValid(gs) && ValidRest(rest)
    ensures StripJpeg(JpegBytes(gs, rest)) == JpegBytes(WithoutApp1(gs), rest)
  {
    hide SegmentsBytes, WithoutApp1;
    var data := JpegBytes(gs, rest);
    assert data[2..] == SegmentsBytes(gs) + rest && data[..2] == [0xFF, 0xD8];
    StripSegments(gs, rest);
  }

  // Behind its first byte an APP1 segment that is no EXIF block holds nothing the byte-wise search could take for a
  // marker.
  predicate Quiet(g: Segment)
    requires ValidSegment(g)
  {
    g.marker == 0xE1 && !IsExif(g) ==> forall k | 1 <= k < |SegmentBytes(g)| :: SegmentBytes(g)[k] != 0xFF
  }

  lemma {:induction false} SearchOn(quiet: seq<byte>, more: seq<byte>)
    requires (forall k | 0 <= k < |quiet| :: quiet[k] != 0xFF) && |more| >= 4
    ensures DetectFrom(quiet + more) == DetectFrom(more)
    decreases |quiet|
  {
    if quiet == [] {
      assert quiet + more == more;
    } else {
      assert (quiet + more)[1..] == quiet[1..] + more;
      SearchOn(quiet[1..], more);
    }
  }

  /** The detector reports a written file exactly when one of its segments is an EXIF block. */
  lemma {:induction false} DetectSegments(gs: seq<Segment>, rest: seq<byte>)
    requires AllValid(gs) && ValidRest(rest) && forall k | 0 <= k < |gs| :: Quiet(gs[k])
    ensures DetectFrom(SegmentsBytes(gs) + rest) <==> exists k :: 0 <= k < |gs| && IsExif(gs[k])
  {
    hide SegmentLength, Skip, DetectFrom, ValidSegment, HasExif, IsExif, SegmentBytes, Quiet;
    if gs == [] {
      DetectUnfold(rest);
      assert SegmentsBytes(gs) + rest == rest;
    } else {
      var g, more := gs[0], SegmentsBytes(gs[1..]) + rest;
      assert ValidSegment(g) && Quiet(g);
      assert SegmentsBytes(gs) + rest == SegmentBytes(g) + more;
      StartsWithMarker(gs[1..], rest);
      DetectOne(g, more);
      DetectSegments(gs[1..], rest);
      assert forall k | 0 < k < |gs| :: gs[k] == gs[1..][k - 1];
      assert forall k | 0 <= k < |gs| - 1 :: gs[1..][k] == gs[k + 1];
    }
  }

  lemma StartsWithMarker(gs: seq<Segment>, rest: seq<byte>)
    requires AllValid(gs) && ValidRest(rest)
    ensures |SegmentsBytes(gs) + rest| >= 4 && (SegmentsBytes(gs) + rest)[0] == 0xFF
  {
    hide ValidSegment;
    if gs != [] {
      assert ValidSegment(gs[0]);
      assert SegmentsBytes(gs)[0] == SegmentBytes(gs[0])[0] == 0xFF;
    }
  }

  lemma DetectOne(g: Segment, more: seq<byte>)
    requires ValidSegment(g) && Quiet(g) && |more| >= 4 && more[0] == 0xFF
    ensures DetectFrom(SegmentBytes(g) + more) <==> IsExif(g) || DetectFrom(more)
  {
    hide DetectFrom, SegmentLength, Skip;
    var b := SegmentBytes(g);
    var s := b + more;
    SegmentFront(g, more);
    DetectUnfold(s);
    if g.marker == 0xE1 {
      ExifFront(g, more);
    }
    if g.marker == 0xE1 && !IsExif(g) {
      SkipOne(b, more);
      SearchOn(b[1..], more);
    }
  }

  lemma SkipOne(b: seq<byte>, more: seq<byte>)
    requires b != []
    ensures Skip(b + more, 1) == b[1..] + more
  {
  }

  lemma DetectFileRoundTrip(gs: seq<Segment>, rest: seq<byte>)
    requires AllValid(gs) && ValidRest(rest) && forall k | 0 <= k < |gs| :: Quiet(gs[k])
    ensures ReportsExif(JpegBytes(gs, rest)) <==> exists k :: 0 <= k < |gs| && IsExif(gs[k])
  {
    hide SegmentsBytes, DetectFrom, IsExif, Quiet;
    var data := JpegBytes(gs, rest);
    assert data[2..] == SegmentsBytes(gs) + rest;
    DetectSegments(gs, rest);
  }

  /** Other APP1 segments can hide a later EXIF block: one that holds a scan marker ends the search. */
  lemma ScanMarkHides(exif: Segment, rest: seq<byte>)
    requires ValidSegment(exif) && IsExif(exif) && ValidRest(rest)
    ensures !DetectFrom(SegmentsBytes([Segment(0xE1, [0xFF, 0xDA, 0x00, 0x00]), exif]) + rest)
  {
    hide SegmentLength, DetectFrom, HasExif, ValidSegment;
    var g, more := Segment(0xE1, [0xFF, 0xDA, 0x00, 0x00]), SegmentsBytes([exif]) + rest;
    ScanMarkValid();
    assert [g, exif][1..] == [exif];
    var s := SegmentBytes(g) + more;
    assert SegmentsBytes([g, exif]) + rest == s;
    StartsWithMarker([exif], rest);
    SegmentFront(g, more);
    ExifFront(g, more);
    assert s == [0xFF, 0xE1, 0, 6, 0xFF, 0xDA, 0, 0] + more;
    DetectUnfold(s);
    SkipFour(s);
    DetectUnfold(s[1..]);
    DetectUnfold(s[2..]);
    DetectUnfold(s[3..]);
    DetectUnfold(s[4..]);
  }

  lemma ScanMarkValid()
    ensures ValidSegment(Segment(0xE1, [0xFF, 0xDA, 0x00, 0x00]))
  {
  }

  lemma SkipFour(s: seq<byte>)
    requires |s| >= 8
    ensures Skip(s, 1) == s[1..] && Skip(s[1..], 1) == s[2..] && Skip(s[2..], 1) == s[3..] && Skip(s[3..], 1) == s[4..]
  {
  }
}
