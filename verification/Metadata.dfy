/** Stripping and detecting file metadata: src/egress/metadata.rs. */
module Metadata {
  import opened Bytes

  /* JPEG segments, on the bytes after the start-of-image marker */

  const EXIF: seq<byte> := [0x45, 0x78, 0x69, 0x66, 0, 0]

  // The two bytes at `i`, big-endian.
  function BigEndian(data: seq<byte>, i: nat): nat
    requires i + 2 <= |data|
  {
    256 * (data[i] as int) + data[i + 1] as int
  }

  // The length field of the segment at the front.
  function SegmentLength(s: seq<byte>): nat
    requires |s| >= 4
  {
    BigEndian(s, 2)
  }

  function Skip(s: seq<byte>, n: nat): (r: seq<byte>)
    ensures n <= |s| ==> |r| == |s| - n
    ensures |r| <= |s|
  {
    s[Min(n, |s|)..]
  }

  // An EXIF block in the APP1 segment at the front.
  predicate HasExif(s: seq<byte>)
    requires |s| >= 4
  {
    2 + SegmentLength(s) <= |s| && 10 <= |s| && s[4..10] == EXIF
  }

  // Whether the detector reports EXIF.
  predicate DetectFrom(s: seq<byte>)
    decreases |s|
  {
    if |s| < 4 then false
    else if s[0] != 0xFF then DetectFrom(s[1..])
    else if s[1] == 0xE1 then HasExif(s) || DetectFrom(s[1..])
    else if s[1] == 0xDA || s[1] == 0xD9 then false
    else DetectFrom(Skip(s, 2 + SegmentLength(s)))
  }

  // What the stripper keeps.
  function StripFrom(s: seq<byte>): seq<byte>
    decreases |s|
  {
    if |s| < 4 then []
    else if s[0] != 0xFF then [s[0]] + StripFrom(s[1..])
    else if s[1] == 0xE1 then StripFrom(Skip(s, 2 + SegmentLength(s)))
    else if s[1] == 0xDA || s[1] == 0xD9 then s
    else
      var end := Min(2 + SegmentLength(s), |s|);
      s[..end] + StripFrom(s[end..])
  }

  predicate IsJpeg(data: seq<byte>) {
    |data| >= 4 && data[0] == 0xFF && data[1] == 0xD8
  }

  function StripJpeg(data: seq<byte>): seq<byte> {
    if IsJpeg(data) then data[..2] + StripFrom(data[2..]) else data
  }

  predicate ReportsExif(data: seq<byte>) {
    |data| >= 2 && DetectFrom(data[2..])
  }

  lemma SkipSkip(data: seq<byte>, idx: nat, n: nat)
    requires idx <= |data|
    ensures Skip(Skip(data, idx), n) == Skip(data, idx + n)
    ensures idx + n <= |data| ==> Skip(data, idx)[..n] == data[idx..idx + n]
  {
  }

  // One turn of the loop, at `idx`.
  lemma StripStep(data: seq<byte>, idx: nat)
    requires idx + 4 <= |data|
    ensures var segLen := BigEndian(data, idx + 2);
            var end := Min(idx + 2 + segLen, |data|);
            StripFrom(Skip(data, idx)) ==
              if data[idx] != 0xFF then [data[idx]] + StripFrom(Skip(data, idx + 1))
              else if data[idx + 1] == 0xE1 then StripFrom(Skip(data, idx + 2 + segLen))
              else if data[idx + 1] == 0xDA || data[idx + 1] == 0xD9 then data[idx..]
              else data[idx..end] + StripFrom(Skip(data, end))
  {
    hide SegmentLength, Skip, BigEndian, StripFrom;
    var s := Skip(data, idx);
    SkipBytes(data, idx);
    var n := 2 + BigEndian(data, idx + 2);
    var end := Min(n, |s|);
    StripUnfold(s);
    SkipSkip(data, idx, 1);
    SkipSkip(data, idx, n);
    SkipSkip(data, idx, end);
  }

  lemma SkipBytes(data: seq<byte>, idx: nat)
    requires idx + 4 <= |data|
    ensures var s := Skip(data, idx);
            && s == data[idx..] && s[0] == data[idx] && s[1] == data[idx + 1]
            && SegmentLength(s) == BigEndian(data, idx + 2)
  {
  }

  lemma StripUnfold(s: seq<byte>)
    requires |s| >= 4
    ensures var n := 2 + SegmentLength(s);
            var end := Min(n, |s|);
            StripFrom(s) ==
              if s[0] != 0xFF then [s[0]] + StripFrom(Skip(s, 1))
              else if s[1] == 0xE1 then StripFrom(Skip(s, n))
              else if s[1] == 0xDA || s[1] == 0xD9 then s
              else s[..end] + StripFrom(Skip(s, end))
  {
    hide SegmentLength;
  }

  lemma DetectUnfold(s: seq<byte>)
    requires |s| >= 4
    ensures DetectFrom(s) ==
      if s[0] == 0xFF && (s[1] == 0xDA || s[1] == 0xD9) then false
      else if s[0] == 0xFF && s[1] != 0xE1 then DetectFrom(Skip(s, 2 + SegmentLength(s)))
      else (s[0] == 0xFF && HasExif(s)) || DetectFrom(Skip(s, 1))
  {
    hide HasExif, SegmentLength;
  }

  lemma ExifAt(data: seq<byte>, idx: nat)
    requires idx + 4 <= |data|
    ensures HasExif(Skip(data, idx)) <==>
      idx + 2 + BigEndian(data, idx + 2) <= |data| && idx + 10 <= |data| && data[idx + 4..idx + 10] == EXIF
  {
    hide SegmentLength, BigEndian;
    SkipBytes(data, idx);
    if idx + 10 <= |data| {
      assert data[idx..][4..10] == data[idx + 4..idx + 10];
    }
  }

  // One turn of the detector's loop, at `idx`.
  lemma DetectStep(data: seq<byte>, idx: nat)
    requires idx + 4 <= |data|
    ensures var segLen := BigEndian(data, idx + 2);
            DetectFrom(Skip(data, idx)) ==
              if data[idx] == 0xFF && (data[idx + 1] == 0xDA || data[idx + 1] == 0xD9) then false
              else if data[idx] == 0xFF && data[idx + 1] != 0xE1 then DetectFrom(Skip(data, idx + 2 + segLen))
              else (data[idx] == 0xFF && idx + 2 + segLen <= |data| && idx + 10 <= |data|
                    && data[idx + 4..idx + 10] == EXIF)
                   || DetectFrom(Skip(data, idx + 1))
  {
    hide SegmentLength, Skip, BigEndian, DetectFrom, HasExif;
    var s := Skip(data, idx);
    SkipBytes(data, idx);
    DetectUnfold(s);
    ExifAt(data, idx);
    SkipSkip(data, idx, 1);
    SkipSkip(data, idx, 2 + BigEndian(data, idx + 2));
  }

  lemma DetectStart(data: seq<byte>)
    ensures if |data| < 4 then !ReportsExif(data) else ReportsExif(data) == DetectFrom(Skip(data, 2))
  {
  }

  lemma DetectEnd(data: seq<byte>, idx: nat)
    requires idx + 4 > |data|
    ensures !DetectFrom(Skip(data, idx))
  {
  }

  method CheckJpegExif(data: seq<byte>) returns (found: bool)
    ensures found == ReportsExif(data)
  {
    hide DetectFrom, HasExif, Skip, BigEndian, ReportsExif;
    DetectStart(data);
    var idx: nat := 2;
    while idx + 4 <= |data|
      invariant |data| >= 4 ==> ReportsExif(data) == DetectFrom(Skip(data, idx))
      decreases |data| - idx
    {
      DetectStep(data, idx);
      if data[idx] == 0xFF {
        var marker := data[idx + 1];
        if marker == 0xE1 {
          var segLen := BigEndian(data, idx + 2);
          var segEnd := idx + 2 + segLen;
          if segEnd <= |data| && idx + 10 <= |data| {
            if data[idx + 4..idx + 10] == EXIF {
              return true;
            }
          }
        } else if marker == 0xDA || marker == 0xD9 {
          return false;
        } else {
          var segLen := BigEndian(data, idx + 2);
          idx := idx + 2 + segLen;
          continue;
        }
      }
      idx := idx + 1;
    }
    DetectEnd(data, idx);
    found := false;
  }

  method StripJpegExif(data: seq<byte>) returns (out: seq<byte>)
    ensures out == StripJpeg(data)
  {
    hide StripFrom, Skip, StripJpeg, BigEndian, IsJpeg;
    StripStart(data);
    if |data| < 4 || data[0] != 0xFF || data[1] != 0xD8 {
      return data;
    }
    out := data[0..2];
    var idx: nat := 2;
    while idx + 4 <= |data|
      invariant out + StripFrom(Skip(data, idx)) == StripJpeg(data)
      decreases |data| - idx
    {
      StripStep(data, idx);
      if data[idx] == 0xFF {
        var marker := data[idx + 1];
        var segLen := BigEndian(data, idx + 2);
        if marker == 0xE1 {
          idx := idx + 2 + segLen;
          continue;
        } else if marker == 0xDA || marker == 0xD9 {
          return out + data[idx..];
        } else {
          var end := Min(idx + 2 + segLen, |data|);
          ConcatAssociative(out, data[idx..end], StripFrom(Skip(data, end)));
          out := out + data[idx..end];
          idx := end;
          continue;
        }
      }
      ConcatAssociative(out, [data[idx]], StripFrom(Skip(data, idx + 1)));
      out := out + [data[idx]];
      idx := idx + 1;
    }
    ShortTail(data, idx);
  }

  lemma StripStart(data: seq<byte>)
    ensures StripJpeg(data) ==
      if |data| < 4 || data[0] != 0xFF || data[1] != 0xD8 then data else data[0..2] + StripFrom(Skip(data, 2))
  {
    hide StripFrom;
  }

  lemma ShortTail(data: seq<byte>, idx: nat)
    requires idx + 4 > |data|
    ensures StripFrom(Skip(data, idx)) == []
  {
  }

  // The two low length bytes of a segment shorter than its own length field survive as single bytes.
  lemma ShortSegment(s: seq<byte>)
    requires |s| >= 4 && s[0] == 0xFF && s[1] != 0xE1 && s[1] != 0xDA && s[1] != 0xD9 && SegmentLength(s) < 2
    ensures var n := 2 + SegmentLength(s);
            var out := s[..n] + StripFrom(s[n..]);
            |out| < 4 || (out[2] == s[2] && out[3] == s[3])
  {
    var n := 2 + SegmentLength(s);
    assert s[2] == 0 && s[3] < 2;
    var t := s[n..];
    if |t| >= 4 {
      assert t[0] == s[n];
      var u := t[1..];
      assert u == s[n + 1..];
      if n == 2 && |u| >= 4 {
        assert u[0] == s[3];
      }
    }
  }

  /** Strip, then detect: nothing is reported, however segments are truncated, nested or mis-sized. */
  lemma {:induction false} StripSilencesFrom(s: seq<byte>)
    ensures !DetectFrom(StripFrom(s))
    decreases |s|
  {
    if |s| >= 4 {
      if s[0] != 0xFF {
        StripSilencesFrom(s[1..]);
        assert StripFrom(s)[1..] == StripFrom(s[1..]);
      } else if s[1] == 0xE1 {
        StripSilencesFrom(Skip(s, 2 + SegmentLength(s)));
      } else if s[1] != 0xDA && s[1] != 0xD9 {
        var n := 2 + SegmentLength(s);
        var end := Min(n, |s|);
        var out := StripFrom(s);
        StripSilencesFrom(s[end..]);
        assert out == s[..end] + StripFrom(s[end..]);
        assert out[end..] == StripFrom(s[end..]);
        if n < 4 {
          ShortSegment(s);
        }
        if |out| >= 4 {
          assert out[0] == 0xFF && out[1] == s[1] && SegmentLength(out) == SegmentLength(s);
          if n > |s| {
            assert out == s;
            assert Skip(out, n) == [];
          } else {
            assert Skip(out, n) == out[end..];
          }
        }
      }
    }
  }

  /** After stripping, the detector reports EXIF just when the data was left alone and already held some. */
  lemma StripSilences(data: seq<byte>)
    ensures ReportsExif(StripJpeg(data)) <==> !IsJpeg(data) && ReportsExif(data)
  {
    if IsJpeg(data) {
      StripSilencesFrom(data[2..]);
      assert StripJpeg(data)[2..] == StripFrom(data[2..]);
    }
  }

  /* What stripping loses */

  // The data without its APP1 segments, as far as the walk over the segments finds them.
  function WithoutApp1(s: seq<byte>): seq<byte>
    decreases |s|
  {
    if |s| < 4 then s
    else if s[0] != 0xFF then [s[0]] + WithoutApp1(s[1..])
    else if s[1] == 0xE1 then WithoutApp1(Skip(s, 2 + SegmentLength(s)))
    else if s[1] == 0xDA || s[1] == 0xD9 then s
    else
      var end := Min(2 + SegmentLength(s), |s|);
      s[..end] + WithoutApp1(s[end..])
  }

  // The bytes left when fewer than four remain and neither scan data nor an end marker was reached before.
  function Remainder(s: seq<byte>): (t: seq<byte>)
    ensures |t| <= 3
    decreases |s|
  {
    if |s| < 4 then s
    else if s[0] != 0xFF then Remainder(s[1..])
    else if s[1] == 0xDA || s[1] == 0xD9 then []
    else Remainder(Skip(s, 2 + SegmentLength(s)))
  }

  /** Stripping removes the APP1 segments and the remainder, and nothing else. */
  lemma {:induction false} StripLosesRemainder(s: seq<byte>)
    ensures StripFrom(s) + Remainder(s) == WithoutApp1(s)
    decreases |s|
  {
    hide SegmentLength;
    if |s| >= 4 {
      if s[0] != 0xFF {
        StripLosesRemainder(s[1..]);
        ConcatAssociative([s[0]], StripFrom(s[1..]), Remainder(s[1..]));
      } else if s[1] == 0xE1 {
        StripLosesRemainder(Skip(s, 2 + SegmentLength(s)));
      } else if s[1] == 0xDA || s[1] == 0xD9 {
        assert s + [] == s;
      } else {
        var end := Min(2 + SegmentLength(s), |s|);
        assert s[end..] == Skip(s, 2 + SegmentLength(s));
        StripLosesRemainder(s[end..]);
        ConcatAssociative(s[..end], StripFrom(s[end..]), Remainder(s[end..]));
      }
    } else {
      assert [] + s == s;
    }
  }

  // No APP1 segment stands at a segment boundary before the scan data.
  predicate NoApp1(s: seq<byte>)
    decreases |s|
  {
    if |s| < 4 then true
    else if s[0] != 0xFF then NoApp1(s[1..])
    else if s[1] == 0xDA || s[1] == 0xD9 then true
    else s[1] != 0xE1 && NoApp1(Skip(s, 2 + SegmentLength(s)))
  }

  /** Without APP1 segments only the remainder is lost. */
  lemma {:induction false} StripKeepsRest(s: seq<byte>)
    requires NoApp1(s)
    ensures StripFrom(s) + Remainder(s) == s
    decreases |s|
  {
    hide SegmentLength;
    if |s| >= 4 {
      if s[0] != 0xFF {
        StripKeepsRest(s[1..]);
        ConcatAssociative([s[0]], StripFrom(s[1..]), Remainder(s[1..]));
      } else if s[1] == 0xDA || s[1] == 0xD9 {
        assert s + [] == s;
      } else {
        var end := Min(2 + SegmentLength(s), |s|);
        StripKeepsRest(s[end..]);
        assert s == s[..end] + s[end..];
        ConcatAssociative(s[..end], StripFrom(s[end..]), Remainder(s[end..]));
      }
    }
  }

  // No APP1 segment, and nothing left over.
  predicate Whole(s: seq<byte>)
    decreases |s|
  {
    if |s| < 4 then s == []
    else if s[0] != 0xFF then Whole(s[1..])
    else if s[1] == 0xDA || s[1] == 0xD9 then true
    else s[1] != 0xE1 && Whole(Skip(s, 2 + SegmentLength(s)))
  }

  lemma {:induction false} StripShorter(s: seq<byte>)
    ensures |StripFrom(s)| <= |s|
    decreases |s|
  {
    if |s| >= 4 {
      if s[0] != 0xFF {
        StripShorter(s[1..]);
      } else if s[1] == 0xE1 {
        StripShorter(Skip(s, 2 + SegmentLength(s)));
      } else if s[1] != 0xDA && s[1] != 0xD9 {
        StripShorter(s[Min(2 + SegmentLength(s), |s|)..]);
      }
    }
  }

  /** Segments come through unchanged exactly when they are whole. */
  lemma {:induction false} StripUnchangedIff(s: seq<byte>)
    ensures StripFrom(s) == s <==> Whole(s)
    decreases |s|
  {
    hide SegmentLength;
    if |s| >= 4 {
      if s[0] != 0xFF {
        StripUnchangedIff(s[1..]);
        assert s == [s[0]] + s[1..];
        assert ([s[0]] + StripFrom(s[1..]))[1..] == StripFrom(s[1..]);
      } else if s[1] == 0xE1 {
        StripShorter(Skip(s, 2 + SegmentLength(s)));
      } else if s[1] != 0xDA && s[1] != 0xD9 {
        var end := Min(2 + SegmentLength(s), |s|);
        StripUnchangedIff(s[end..]);
        assert s == s[..end] + s[end..];
        assert (s[..end] + StripFrom(s[end..]))[end..] == StripFrom(s[end..]);
      }
    }
  }

  /** A file comes through unchanged exactly when it is not a JPEG or its segments are whole. */
  lemma FileUnchangedIff(data: seq<byte>)
    ensures StripJpeg(data) == data <==> !IsJpeg(data) || Whole(data[2..])
  {
    if IsJpeg(data) {
      StripUnchangedIff(data[2..]);
      assert data == data[..2] + data[2..];
      assert StripJpeg(data)[2..] == StripFrom(data[2..]);
    }
  }

  // An end-of-image marker is itself lost when nothing follows it.
  lemma EndMarkerLost()
    ensures StripJpeg([0xFF, 0xD8, 0xFF, 0xD9]) == [0xFF, 0xD8]
    ensures StripJpeg([0xFF, 0xD8, 0xFF, 0xDB, 0, 2, 0xFF, 0xD9]) == [0xFF, 0xD8, 0xFF, 0xDB, 0, 2]
  {
    var s: seq<byte> := [0xFF, 0xDB, 0, 2, 0xFF, 0xD9];
    assert [0xFF, 0xD8, 0xFF, 0xD9][2..] == [0xFF, 0xD9];
    assert [0xFF, 0xD8, 0xFF, 0xDB, 0, 2, 0xFF, 0xD9][2..] == s;
    assert s[4..] == [0xFF, 0xD9] && StripFrom(s) == s[..4];
  }
}
