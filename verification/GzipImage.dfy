/** Gzip and 7z files as they are written, and what inspection makes of them. */
module GzipImage {
  import opened Bytes
  import opened Archives

  // A gzip file as RFC 1952 lays it out: the header, the deflated body, its checksum and the size it unpacks to.
  function GzipBytes(f: GzipFields, body: seq<byte>, check: seq<byte>, size: u32): seq<byte> {
    GzipHeaderBytes(f) + (body + check + LeBytes(size, 4))
  }

  // More than the allowed multiple of what follows the header, and more than ten megabytes.
  function GzipExpansion(body: nat, size: nat, path: MediaPath, policy: Policy): seq<Finding> {
    if size > (body + 8) * policy.maxExpansionRatio && size > 10_485_760 then [Finding(path, ExpansionRatio, "")]
    else []
  }

  lemma SizeAtEnd(front: seq<byte>, size: u32)
    ensures U32(front + LeBytes(size, 4), |front + LeBytes(size, 4)| - 4) == size
  {
    hide Le, LeBytes, Pow256;
    var data := front + LeBytes(size, 4);
    assert data[|front|..|front| + 4] == LeBytes(size, 4);
    Pow256Values();
    LeRoundTrip(size, 4);
  }

  /**
   A written gzip file is reported for its ratio by the size it says it unpacks to; what it does unpack to is
   added to the total and inspected one level down.
   */
  lemma GzipFileRoundTrip(f: GzipFields, body: seq<byte>, check: seq<byte>, size: u32, path: MediaPath, depth: nat,
                          t: Tally, policy: Policy, lib: Library)
    requires ValidFields(f) && |check| == 4 && depth <= policy.maxDepth
    requires var data := GzipBytes(f, body, check, size);
             !IsZip(data) && !IsTar(data)
    ensures var out := lib.inflate(body + check + LeBytes(size, 4), 0x100_0000);
            var fs := t.findings + GzipExpansion(|body|, size, path, policy);
            Inspect(GzipBytes(f, body, check, size), path, depth, t, policy, lib)
            == if out.None? then Tally(fs, t.total)
               else Inspect(out.value, path + [".decompressed"], depth + 1,
                            Tally(fs, Min(t.total + |out.value|, U64_MAX)),
                            policy, lib)
  {
    hide IsZip, IsTar, GzipHeaderBytes, GzipHeaderSize, IsGzip, U32, LeBytes, ValidFields;
    var tail := body + check + LeBytes(size, 4);
    var data := GzipHeaderBytes(f) + tail;
    GzipHeaderRoundTrip(f, tail);
    GzipLength(data);
    var front := GzipHeaderBytes(f) + (body + check);
    assert data == front + LeBytes(size, 4);
    SizeAtEnd(front, size);
    assert |data| - GzipHeaderSize(data) == |body| + 8;
    RatioIs(data, |body|, size, path, policy);
    GzipTurn(data, path, depth, t, policy, lib);
  }

  lemma RatioIs(data: seq<byte>, body: nat, size: u32, path: MediaPath, policy: Policy)
    requires |data| >= 10 && |data| - GzipHeaderSize(data) == body + 8 && U32(data, |data| - 4) == size
    ensures GzipRatioFindings(data, path, policy) == GzipExpansion(body, size, path, policy)
  {
    hide GzipHeaderSize, U32;
  }

  lemma GzipTurn(data: seq<byte>, path: MediaPath, depth: nat, t: Tally, policy: Policy, lib: Library)
    requires !IsZip(data) && !IsTar(data) && IsGzip(data) && depth <= policy.maxDepth && GzipHeaderSize(data) < |data|
    ensures var ratio := Tally(t.findings + GzipRatioFindings(data, path, policy), t.total);
            var out := lib.inflate(data[GzipHeaderSize(data)..], 0x100_0000);
            Inspect(data, path, depth, t, policy, lib)
            == if out.None? then ratio
               else Inspect(out.value, path + [".decompressed"], depth + 1,
                            Tally(ratio.findings, SatAdd(t.total, |out.value|)), policy, lib)
  {
    hide IsZip, IsTar, GzipHeaderSize, GzipRatioFindings;
    assert Inspect(data, path, depth, t, policy, lib) == InspectGzip(data, path, depth, t, policy, lib);
  }

  /** A 7z file is reported if it is too short for its header, and otherwise if its major version is above 1. */
  lemma SevenZipFindings(rest: seq<byte>, path: MediaPath, depth: nat, t: Tally, policy: Policy, lib: Library)
    requires depth <= policy.maxDepth
    requires var data := [0x37, 0x7A, 0xBC, 0xAF, 0x27, 0x1C] + rest;
             FindEocd(data).None? && !IsTar(data)
    ensures Inspect([0x37, 0x7A, 0xBC, 0xAF, 0x27, 0x1C] + rest, path, depth, t, policy, lib)
            == Tally(t.findings + (if |rest| < 26 then [Finding(path, Truncated7z, "")]
                                   else if rest[0] > 1 then [Finding(path, Version7z, "")] else []), t.total)
  {
    hide FindEocd, IsTar;
    var data := [0x37, 0x7A, 0xBC, 0xAF, 0x27, 0x1C] + rest;
    assert data[0] == 0x37 && data[0..6] == [0x37, 0x7A, 0xBC, 0xAF, 0x27, 0x1C];
    assert data[0..4][0] == 0x37;
  }
}
