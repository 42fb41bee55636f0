/**
 Recursive archive inspection: src/scan/archives.rs. Decompression, text decoding, octal sizes and the
 relationship scan are parameters (`Library`); nothing is assumed of them.
 */
module Archives {
  import opened Bytes

  datatype Policy = Policy(maxDepth: nat, maxUncompressedMb: nat, maxExpansionRatio: nat, allowSymlinks: bool,
                           allowMacros: bool)

  // The names from the outermost archive inwards.
  type MediaPath = seq<string>

  datatype Kind =
    | TooDeep(depth: nat)
    | BadDirectory
    | Traversal
    | Macros
    | SymbolicLink
    | HardLinkTraversal
    | NameMismatch
    | ExpansionRatio
    | SizeExceeded
    | Relationship(text: string)
    | Truncated7z
    | Version7z

  datatype Finding = Finding(path: MediaPath, kind: Kind, name: string)

  datatype Library = Library(
    // Decompressed bytes, within a limit.
    inflate: (seq<byte>, nat) -> Option<seq<byte>>,
    decode: seq<byte> -> string,
    lower: string -> string,
    octal: seq<byte> -> u64,
    relationships: seq<byte> -> seq<string>)

  // The findings so far and the running total.
  datatype Tally = Tally(findings: seq<Finding>, total: u64)

  function Report(t: Tally, fs: seq<Finding>): Tally {
    t.(findings := t.findings + fs)
  }

  function Count(t: Tally, size: nat): Tally {
    t.(total := SatAdd(t.total, size))
  }

  function ReportIf(cond: bool, f: Finding): seq<Finding> {
    if cond then [f] else []
  }

  function Limit(p: Policy): u64 {
    SatMul(p.maxUncompressedMb, 1048576)
  }

  function U16(data: seq<byte>, i: nat): nat
    requires i + 2 <= |data|
  {
    Le(data[i..i + 2])
  }

  function U32(data: seq<byte>, i: nat): nat
    requires i + 4 <= |data|
  {
    Le(data[i..i + 4])
  }

  /* Names */

  predicate EndsWith(s: string, suffix: string) {
    |suffix| <= |s| && s[|s| - |suffix|..] == suffix
  }

  predicate PartAt(s: string, part: string, i: nat) {
    i + |part| <= |s| && s[i..i + |part|] == part
  }

  predicate Contains(s: string, part: string) {
    exists i | 0 <= i <= |s| - |part| :: PartAt(s, part, i)
  }

  predicate IsSlash(c: char) {
    c == '/' || c == '\\'
  }

  // Some segment between separators is `..`.
  predicate HasDotDot(name: string) {
    exists i | 0 <= i <= |name| - 2 ::
      && name[i] == '.' && name[i + 1] == '.'
      && (i == 0 || IsSlash(name[i - 1]))
      && (i + 2 == |name| || IsSlash(name[i + 2]))
  }

  predicate IsPathTraversalEntry(name: string) {
    || HasDotDot(name)
    || (name != [] && IsSlash(name[0]))
    || '\0' in name
    || (|name| >= 2 && name[1] == ':' && ('a' <= name[0] <= 'z' || 'A' <= name[0] <= 'Z'))
  }

  predicate IsNestedArchiveName(name: string, lib: Library) {
    var l := lib.lower(name);
    || EndsWith(l, ".zip") || EndsWith(l, ".tar") || EndsWith(l, ".gz") || EndsWith(l, ".tgz") || EndsWith(l, ".7z")
    || EndsWith(l, ".docx") || EndsWith(l, ".xlsx") || EndsWith(l, ".pptx") || EndsWith(l, ".jar")
    || EndsWith(l, ".apk")
  }

  predicate IsMacroName(name: string, lib: Library) {
    var l := lib.lower(name);
    || Contains(l, "vbaproject.bin") || Contains(l, "vba/") || Contains(l, "xl/macrosheets") || Contains(l, "word/vba")
    || Contains(l, "xl/vba") || Contains(l, "ppt/vba") || EndsWith(l, ".vba") || EndsWith(l, ".vbe")
    || EndsWith(l, "vbadat.bin")
  }

  /* Archive kinds */

  predicate IsEocd(data: seq<byte>, i: nat)
    requires i + 22 <= |data|
  {
    && data[i] == 0x50 && data[i + 1] == 0x4B && data[i + 2] == 0x05 && data[i + 3] == 0x06
    && i + 22 + U16(data, i + 20) <= |data|
  }

  // The last end-of-central-directory record at or before `i` and at or after `start`.
  function EocdFrom(data: seq<byte>, i: nat, start: nat): (r: Option<nat>)
    requires i + 22 <= |data|
    ensures r.Some? ==>
              start <= r.value <= i && IsEocd(data, r.value) && forall j | r.value < j <= i :: !IsEocd(data, j)
    ensures r.None? ==> forall j | start <= j <= i :: !IsEocd(data, j)
  {
    if i < start then None
    else if IsEocd(data, i) then Some(i)
    else if i == 0 then None
    else EocdFrom(data, i - 1, start)
  }

  function FindEocd(data: seq<byte>): (r: Option<nat>)
    ensures r.Some? ==> r.value + 22 <= |data|
  {
    if |data| < 22 then None else EocdFrom(data, |data| - 22, |data| - Min(|data|, 65535 + 22))
  }

  method SearchEocd(data: seq<byte>) returns (r: Option<nat>)
    ensures r == FindEocd(data)
    ensures var start := |data| - Min(|data|, 65535 + 22);
            match r
            case Some(i) => start <= i <= |data| - 22 && IsEocd(data, i)
              && forall j | i < j <= |data| - 22 :: !IsEocd(data, j)
            case None => forall j | start <= j <= |data| - 22 :: !IsEocd(data, j)
  {
    if |data| < 22 {
      return None;
    }
    hide IsEocd;
    var start := |data| - Min(|data|, 65535 + 22);
    var i: int := |data| - 22;
    while i >= start
      invariant start - 1 <= i <= |data| - 22
      invariant FindEocd(data) == if i < start then None else EocdFrom(data, i, start)
    {
      if IsEocd(data, i) {
        return Some(i);
      }
      i := i - 1;
    }
    r := None;
  }

  predicate IsZip(data: seq<byte>) {
    (|data| >= 4 && data[0..4] == [0x50, 0x4B, 0x03, 0x04]) || FindEocd(data).Some?
  }

  predicate IsTar(data: seq<byte>) {
    |data| >= 512 && data[257..262] == [0x75, 0x73, 0x74, 0x61, 0x72]
  }

  predicate IsGzip(data: seq<byte>) {
    |data| >= 10 && data[0] == 0x1F && data[1] == 0x8B && data[2] == 0x08
  }

  predicate Is7z(data: seq<byte>) {
    |data| >= 6 && data[0..6] == [0x37, 0x7A, 0xBC, 0xAF, 0x27, 0x1C]
  }

  /* One entry */

  // Stored or deflated bytes of an entry, decompressed within `limit`.
  function Expand(payload: seq<byte>, compMethod: nat, limit: nat, lib: Library): Option<seq<byte>> {
    if compMethod == 0 then Some(payload) else if compMethod == 8 then lib.inflate(payload, limit) else None
  }

  function RelationshipFindings(data: seq<byte>, path: MediaPath, lib: Library): seq<Finding> {
    var texts := lib.relationships(data);
    seq(|texts|, i requires 0 <= i < |texts| => Finding(path, Relationship(texts[i]), ""))
  }

  // What is to be inspected inside an entry: a nested archive, or a relationship part.
  datatype Content = Nested(data: seq<byte>) | Relations(findings: seq<Finding>) | Nothing

  function ContentOf(data: seq<byte>, start: nat, compSize: nat, compMethod: nat, name: string, path: MediaPath,
                     lib: Library): Content {
    if start + compSize > |data| then Nothing else
      var payload := data[start..start + compSize];
      if IsNestedArchiveName(name, lib) then
        var e := Expand(payload, compMethod, 16 * 1024 * 1024, lib);
        if e.Some? then Nested(e.value) else Nothing
      else if EndsWith(name, ".rels") then
        var e := Expand(payload, compMethod, 1024 * 1024, lib);
        if e.Some? then Relations(RelationshipFindings(e.value, path, lib)) else Nothing
      else Nothing
  }

  function RatioFindings(compSize: nat, uncompSize: nat, path: MediaPath, policy: Policy): seq<Finding> {
    ReportIf(compSize > 0 && uncompSize > SatMul(compSize, policy.maxExpansionRatio) && uncompSize > 10 * 1024 * 1024,
             Finding(path, ExpansionRatio, ""))
  }

  // A central-directory record.
  datatype Record = Record(name: Option<string>, findings: seq<Finding>, content: Content, compSize: nat,
                           uncompSize: nat, next: nat)

  function CentralRecord(data: seq<byte>, curr: nat, path: MediaPath, policy: Policy, lib: Library): (r: Record)
    requires curr + 46 <= |data|
    ensures r.next >= curr + 46
  {
    var nameLen := U16(data, curr + 28);
    var nameEnd := curr + 46 + nameLen;
    var comp := U32(data, curr + 20);
    var name := if nameEnd <= |data| then Some(lib.decode(data[curr + 46..nameEnd])) else None;
    Record(
      name,
      if name.None? then [] else
        ReportIf(IsPathTraversalEntry(name.value), Finding(path, Traversal, name.value))
        + ReportIf(!policy.allowMacros && IsMacroName(name.value, lib), Finding(path, Macros, name.value))
        + ReportIf(!policy.allowSymlinks && U16(data, curr + 4) / 256 == 3 && U32(data, curr + 38) / 0x1000_0000 == 0xA,
                   Finding(path, SymbolicLink, name.value))
        + MismatchFindings(data, U32(data, curr + 42), name.value, path, lib),
      if name.None? then Nothing
      else LocalContent(data, U32(data, curr + 42), comp, U16(data, curr + 10), name.value, path, lib),
      comp, U32(data, curr + 24),
      nameEnd + U16(data, curr + 30) + U16(data, curr + 32))
  }

  predicate IsLocalHeader(data: seq<byte>, at: nat) {
    at + 30 <= |data| && U32(data, at) == 0x04034B50
  }

  function MismatchFindings(data: seq<byte>, at: nat, name: string, path: MediaPath, lib: Library): seq<Finding> {
    if !IsLocalHeader(data, at) then [] else
      var end := at + 30 + U16(data, at + 26);
      ReportIf(end <= |data| && lib.decode(data[at + 30..Min(end, |data|)]) != name, Finding(path, NameMismatch, name))
  }

  function LocalContent(data: seq<byte>, at: nat, compSize: nat, compMethod: nat, name: string, path: MediaPath,
                        lib: Library): Content {
    if !IsLocalHeader(data, at) then Nothing
    else ContentOf(data, at + 30 + U16(data, at + 26) + U16(data, at + 28), compSize, compMethod, name, path, lib)
  }

  // A local file header met by the fallback scan.
  function LocalRecord(data: seq<byte>, curr: nat, path: MediaPath, policy: Policy, lib: Library): (r: Record)
    requires curr + 30 <= |data|
    ensures r.next >= curr + 30
  {
    var nameLen, extraLen := U16(data, curr + 26), U16(data, curr + 28);
    var comp, uncomp := U32(data, curr + 18), U32(data, curr + 22);
    var nameEnd := curr + 30 + nameLen;
    var name := if nameEnd <= |data| then Some(lib.decode(data[curr + 30..nameEnd])) else None;
    Record(
      name,
      if name.None? then [] else
        ReportIf(IsPathTraversalEntry(name.value), Finding(path, Traversal, name.value))
        + ReportIf(!policy.allowMacros && IsMacroName(name.value, lib), Finding(path, Macros, name.value))
        + RatioFindings(comp, uncomp, path, policy),
      if name.None? then Nothing
      else ContentOf(data, nameEnd + extraLen, comp, U16(data, curr + 8), name.value, path, lib),
      comp, uncomp, nameEnd + extraLen + comp)
  }

  function BytesToNul(b: seq<byte>): seq<byte> {
    if b == [] || b[0] == 0 then [] else [b[0]] + BytesToNul(b[1..])
  }

  predicate AllZero(b: seq<byte>) {
    forall k | 0 <= k < |b| :: b[k] == 0
  }

  // A tar header block.
  datatype TarHeader = TarHeader(name: string, findings: seq<Finding>, size: u64)

  function TarRecord(block: seq<byte>, path: MediaPath, policy: Policy, lib: Library): TarHeader
    requires |block| == 512
  {
    var name, link := lib.decode(BytesToNul(block[0..100])), lib.decode(BytesToNul(block[157..257]));
    TarHeader(
      name,
      ReportIf(IsPathTraversalEntry(name), Finding(path, Traversal, name))
      + (if block[156] == 0x32 && !policy.allowSymlinks then [Finding(path, SymbolicLink, name)]
         else ReportIf(block[156] == 0x31 && IsPathTraversalEntry(link), Finding(path, HardLinkTraversal, name))),
      lib.octal(block[124..136]))
  }

  // No further tar header: the data ends, or a block of zeros follows.
  predicate TarEnds(data: seq<byte>, offset: nat): (b: bool)
    ensures !b ==> offset + 512 <= |data|
  {
    offset + 512 > |data| || AllZero(data[offset..offset + 512])
  }

  function TarHeaderAt(data: seq<byte>, offset: nat, path: MediaPath, policy: Policy, lib: Library): TarHeader
    requires !TarEnds(data, offset)
  {
    TarRecord(data[offset..offset + 512], path, policy, lib)
  }

  // Past a zero-terminated string that starts at `i`.
  function PastString(data: seq<byte>, i: nat): (r: nat)
    ensures r > i
    decreases |data| - i
  {
    if i < |data| && data[i] != 0 then PastString(data, i + 1) else i + 1
  }

  function GzipHeaderSize(data: seq<byte>): nat
    requires |data| >= 10
  {
    var flags := data[3];
    var a: nat := if flags / 4 % 2 == 1 && 12 <= |data| then 12 + U16(data, 10) else 10;
    var b := if flags / 8 % 2 == 1 then PastString(data, a) else a;
    var c := if flags / 16 % 2 == 1 then PastString(data, b) else b;
    if flags / 2 % 2 == 1 then c + 2 else c
  }

  // A gzip header as section 2.3 of RFC 1952 lays it out, with any of its optional fields.
  datatype GzipFields = GzipFields(
    flags: byte,
    middle: seq<byte>,
    extra: Option<seq<byte>>,
    name: Option<seq<byte>>,
    comment: Option<seq<byte>>,
    check: Option<seq<byte>>)

  predicate NoNul(b: seq<byte>) {
    forall k | 0 <= k < |b| :: b[k] != 0
  }

  predicate ValidFields(f: GzipFields) {
    && |f.middle| == 6
    && (f.flags / 4 % 2 == 1 <==> f.extra.Some?) && (f.extra.Some? ==> |f.extra.value| < 0x1_0000)
    && (f.flags / 8 % 2 == 1 <==> f.name.Some?) && (f.name.Some? ==> NoNul(f.name.value))
    && (f.flags / 16 % 2 == 1 <==> f.comment.Some?) && (f.comment.Some? ==> NoNul(f.comment.value))
    && (f.flags / 2 % 2 == 1 <==> f.check.Some?) && (f.check.Some? ==> |f.check.value| == 2)
  }

  function ExtraBytes(extra: Option<seq<byte>>): seq<byte> {
    if extra.None? then [] else LeBytes(|extra.value|, 2) + extra.value
  }

  function TextBytes(text: Option<seq<byte>>): seq<byte> {
    if text.None? then [] else text.value + [0]
  }

  function GzipHeaderBytes(f: GzipFields): seq<byte> {
    [0x1F, 0x8B, 8, f.flags] + f.middle + ExtraBytes(f.extra) + TextBytes(f.name) + TextBytes(f.comment)
    + if f.check.None? then [] else f.check.value
  }

  lemma {:induction false} PastTextFrom(pre: seq<byte>, text: seq<byte>, post: seq<byte>, k: nat)
    requires NoNul(text) && k <= |text|
    ensures PastString(pre + (text + [0]) + post, |pre| + k) == |pre| + |text| + 1
    decreases |text| - k
  {
    var data := pre + (text + [0]) + post;
    if k < |text| {
      assert data[|pre| + k] == text[k];
      PastTextFrom(pre, text, post, k + 1);
    } else {
      assert data[|pre| + k] == 0;
    }
  }

  // An optional text at the end of `pre` is skipped exactly when it is there.
  lemma TextSkipped(data: seq<byte>, pre: seq<byte>, text: Option<seq<byte>>, post: seq<byte>)
    requires data == pre + TextBytes(text) + post && (text.Some? ==> NoNul(text.value))
    ensures text.Some? ==> PastString(data, |pre|) == |pre + TextBytes(text)|
  {
    hide PastString, NoNul;
    if text.Some? {
      PastTextFrom(pre, text.value, post, 0);
    }
  }

  lemma ExtraSkipped(front: seq<byte>, extra: seq<byte>, post: seq<byte>)
    requires |front| == 10 && |extra| < 0x1_0000
    ensures var data := front + ExtraBytes(Some(extra)) + post;
            12 <= |data| && 12 + U16(data, 10) == |front + ExtraBytes(Some(extra))|
  {
    hide Le, LeBytes, Pow256;
    var data := front + ExtraBytes(Some(extra)) + post;
    assert data[10..12] == LeBytes(|extra|, 2);
    Pow256Values();
    LeRoundTrip(|extra|, 2);
  }

  lemma Sections<T>(a: seq<T>, b: seq<T>, c: seq<T>, d: seq<T>, e: seq<T>, rest: seq<T>)
    ensures var data := a + b + c + d + e + rest;
            && data == a + b + (c + d + (e + rest)) && data == a + b + c + (d + (e + rest))
            && data == a + b + c + d + (e + rest)
            && data[|a + b + c + d + e|..] == rest
  {
  }

  lemma HeaderSections(f: GzipFields, payload: seq<byte>)
    requires ValidFields(f)
    ensures var front := [0x1F, 0x8B, 8, f.flags] + f.middle;
            var extra, name, comment := ExtraBytes(f.extra), TextBytes(f.name), TextBytes(f.comment);
            var tail := (if f.check.None? then [] else f.check.value) + payload;
            var data := GzipHeaderBytes(f) + payload;
            && IsGzip(data) && data[3] == f.flags
            && data == front + extra + (name + comment + tail) && data == front + extra + name + (comment + tail)
            && data == front + extra + name + comment + tail
            && data[|GzipHeaderBytes(f)|..] == payload
  {
    hide ExtraBytes, TextBytes, NoNul;
    var front := [0x1F, 0x8B, 8, f.flags] + f.middle;
    var check := if f.check.None? then [] else f.check.value;
    var extra, name, comment := ExtraBytes(f.extra), TextBytes(f.name), TextBytes(f.comment);
    Sections(front, extra, name, comment, check, payload);
    FrontBytes(f, extra + (name + comment + (check + payload)));
    ConcatAssociative(front, extra, name + comment + (check + payload));
  }

  lemma FrontBytes(f: GzipFields, rest: seq<byte>)
    requires |f.middle| == 6
    ensures var data := [0x1F, 0x8B, 8, f.flags] + f.middle + rest;
            IsGzip(data) && data[3] == f.flags
  {
  }

  /** Whatever fields a gzip header holds, the payload is found right behind it. */
  lemma GzipHeaderRoundTrip(f: GzipFields, payload: seq<byte>)
    requires ValidFields(f)
    ensures var data := GzipHeaderBytes(f) + payload;
            IsGzip(data) && GzipHeaderSize(data) == |GzipHeaderBytes(f)| && data[GzipHeaderSize(data)..] == payload
  {
    hide U16, PastString, NoNul, ExtraBytes, TextBytes, GzipHeaderBytes, IsGzip;
    var front := [0x1F, 0x8B, 8, f.flags] + f.middle;
    var tail := (if f.check.None? then [] else f.check.value) + payload;
    var extra, name, comment := ExtraBytes(f.extra), TextBytes(f.name), TextBytes(f.comment);
    var data := GzipHeaderBytes(f) + payload;
    HeaderSections(f, payload);
    if f.extra.Some? {
      ExtraSkipped(front, f.extra.value, name + comment + tail);
    } else {
      NoBytes(f.extra);
    }
    NoBytes(f.name);
    NoBytes(f.comment);
    TextSkipped(data, front + extra, f.name, comment + tail);
    TextSkipped(data, front + extra + name, f.comment, tail);
  }

  lemma NoBytes(field: Option<seq<byte>>)
    ensures field.None? ==> ExtraBytes(field) == [] && TextBytes(field) == []
  {
  }

  /* The recursion */

  // The tally after an entry, and whether its size passed the limit, which ends the archive.
  datatype Turn = Turn(tally: Tally, stop: bool)

  function Inspect(data: seq<byte>, path: MediaPath, depth: nat, t: Tally, policy: Policy, lib: Library): Tally
    decreases Max(policy.maxDepth + 1 - depth, 0), 4, 0
  {
    if depth > policy.maxDepth then Report(t, [Finding(path, TooDeep(depth), "")])
    else if IsZip(data) then InspectZip(data, path, depth, t, policy, lib)
    else if IsTar(data) then TarFrom(data, 0, path, depth, t, policy, lib)
    else if IsGzip(data) then InspectGzip(data, path, depth, t, policy, lib)
    else if Is7z(data) then Inspect7z(data, path, t)
    else t
  }

  function InspectZip(data: seq<byte>, path: MediaPath, depth: nat, t: Tally, policy: Policy, lib: Library): Tally
    requires depth <= policy.maxDepth
    decreases policy.maxDepth + 1 - depth, 3, 0
  {
    var eocd := FindEocd(data);
    if eocd.None? then LocalFrom(data, 0, path, depth, t, policy, lib) else
      var size, offset := U32(data, eocd.value + 12), U32(data, eocd.value + 16);
      if offset + size > |data| || offset > eocd.value then Report(t, [Finding(path, BadDirectory, "")])
      else CentralFrom(data, offset, offset + size, path, depth, t, policy, lib)
  }

  function InspectContent(c: Content, name: string, path: MediaPath, depth: nat, t: Tally, policy: Policy,
                          lib: Library): Tally
    requires depth <= policy.maxDepth
    decreases policy.maxDepth + 1 - depth, 0, 0
  {
    match c
    case Nested(inner) => Inspect(inner, path + [name], depth + 1, t, policy, lib)
    case Relations(fs) => Report(t, fs)
    case Nothing => t
  }

  function NameOr(name: Option<string>): string {
    if name.Some? then name.value else ""
  }

  function CountEntry(t: Tally, size: nat, path: MediaPath, policy: Policy): Turn {
    var counted := Count(t, size);
    if counted.total > Limit(policy) then Turn(Report(counted, [Finding(path, SizeExceeded, "")]), true)
    else Turn(counted, false)
  }

  // A central-directory record: inspected first, counted after.
  function CentralTurn(r: Record, path: MediaPath, depth: nat, t: Tally, policy: Policy, lib: Library): Turn
    requires depth <= policy.maxDepth
    decreases policy.maxDepth + 1 - depth, 1, 0
  {
    var inside := InspectContent(r.content, NameOr(r.name), path, depth, Report(t, r.findings), policy, lib);
    CountEntry(Report(inside, RatioFindings(r.compSize, r.uncompSize, path, policy)), r.uncompSize, path, policy)
  }

  // A local header: counted first, inspected after.
  function LocalTurn(r: Record, path: MediaPath, depth: nat, t: Tally, policy: Policy, lib: Library): Turn
    requires depth <= policy.maxDepth
    decreases policy.maxDepth + 1 - depth, 1, 0
  {
    if r.name.None? then Turn(t, false) else
      var counted := CountEntry(Report(t, r.findings), r.uncompSize, path, policy);
      if counted.stop then counted
      else Turn(InspectContent(r.content, r.name.value, path, depth, counted.tally, policy, lib), false)
  }

  function TarTurn(h: TarHeader, content: Content, path: MediaPath, depth: nat, t: Tally, policy: Policy,
                   lib: Library): Turn
    requires depth <= policy.maxDepth
    decreases policy.maxDepth + 1 - depth, 1, 0
  {
    var counted := CountEntry(Report(t, h.findings), h.size, path, policy);
    if counted.stop then counted
    else Turn(InspectContent(content, h.name, path, depth, counted.tally, policy, lib), false)
  }

  function CentralFrom(data: seq<byte>, curr: nat, end: nat, path: MediaPath, depth: nat, t: Tally, policy: Policy,
                       lib: Library): Tally
    requires depth <= policy.maxDepth
    decreases policy.maxDepth + 1 - depth, 2, Max(|data| - curr, 0)
  {
    if curr + 46 > end || curr + 46 > |data| || U32(data, curr) != 0x02014B50 then t else
      var turn := CentralTurn(CentralRecord(data, curr, path, policy, lib), path, depth, t, policy, lib);
      if turn.stop then turn.tally
      else CentralFrom(data, CentralRecord(data, curr, path, policy, lib).next, end, path, depth, turn.tally, policy,
                       lib)
  }

  function LocalFrom(data: seq<byte>, curr: nat, path: MediaPath, depth: nat, t: Tally, policy: Policy,
                     lib: Library): Tally
    requires depth <= policy.maxDepth
    decreases policy.maxDepth + 1 - depth, 2, Max(|data| - curr, 0)
  {
    if curr + 30 > |data| then t
    else if !IsLocalMagic(data, curr) then LocalFrom(data, curr + 1, path, depth, t, policy, lib) else
      var turn := LocalTurn(LocalRecord(data, curr, path, policy, lib), path, depth, t, policy, lib);
      if turn.stop then turn.tally
      else LocalFrom(data, LocalRecord(data, curr, path, policy, lib).next, path, depth, turn.tally, policy, lib)
  }

  predicate IsLocalMagic(data: seq<byte>, i: nat)
    requires i + 4 <= |data|
  {
    data[i] == 0x50 && data[i + 1] == 0x4B && data[i + 2] == 0x03 && data[i + 3] == 0x04
  }

  // The content of the tar entry whose header ends at `start`.
  function TarContent(data: seq<byte>, start: nat, h: TarHeader, lib: Library): Content {
    if start + h.size <= |data| && IsNestedArchiveName(h.name, lib) then Nested(data[start..start + h.size])
    else Nothing
  }

  function TarNext(offset: nat, h: TarHeader): (n: nat)
    ensures n >= offset + 512
  {
    offset + 512 + SatAdd(h.size, 511) / 512 * 512
  }

  function TarFrom(data: seq<byte>, offset: nat, path: MediaPath, depth: nat, t: Tally, policy: Policy,
                   lib: Library): Tally
    requires depth <= policy.maxDepth
    decreases policy.maxDepth + 1 - depth, 2, Max(|data| - offset, 0)
  {
    if TarEnds(data, offset) then t else
      var h := TarHeaderAt(data, offset, path, policy, lib);
      var turn := TarTurn(h, TarContent(data, offset + 512, h, lib), path, depth, t, policy, lib);
      if turn.stop then turn.tally
      else TarFrom(data, TarNext(offset, h), path, depth, turn.tally, policy, lib)
  }

  function GzipRatioFindings(data: seq<byte>, path: MediaPath, policy: Policy): seq<Finding>
    requires |data| >= 10 && GzipHeaderSize(data) <= |data|
  {
    var isize := U32(data, |data| - 4);
    ReportIf(isize > SatMul(|data| - GzipHeaderSize(data), policy.maxExpansionRatio) && isize > 10 * 1024 * 1024,
             Finding(path, ExpansionRatio, ""))
  }

  function InspectGzip(data: seq<byte>, path: MediaPath, depth: nat, t: Tally, policy: Policy, lib: Library): Tally
    requires depth <= policy.maxDepth && |data| >= 10
    decreases policy.maxDepth + 1 - depth, 3, 0
  {
    var header := GzipHeaderSize(data);
    if header >= |data| then t else
      var ratio := Report(t, GzipRatioFindings(data, path, policy));
      var out := lib.inflate(data[header..], 16 * 1024 * 1024);
      if out.None? then ratio
      else Inspect(out.value, path + [".decompressed"], depth + 1, Count(ratio, |out.value|), policy, lib)
  }

  function Inspect7z(data: seq<byte>, path: MediaPath, t: Tally): Tally {
    if |data| < 32 then Report(t, [Finding(path, Truncated7z, "")])
    else Report(t, ReportIf(data[6] > 1, Finding(path, Version7z, "")))
  }

  /* What an archive holds, read to the end whatever the sizes */

  // An entry met, its declared size, or the bytes a gzip payload expands to.
  datatype Event = Entry(path: MediaPath, name: string) | Declared(bytes: nat) | Expanded(bytes: nat)

  function Events(data: seq<byte>, path: MediaPath, depth: nat, policy: Policy, lib: Library): seq<Event>
    decreases Max(policy.maxDepth + 1 - depth, 0), 4, 0
  {
    if depth > policy.maxDepth then []
    else if IsZip(data) then ZipEvents(data, path, depth, policy, lib)
    else if IsTar(data) then TarEvents(data, 0, path, depth, policy, lib)
    else if IsGzip(data) then GzipEvents(data, path, depth, policy, lib)
    else []
  }

  function ZipEvents(data: seq<byte>, path: MediaPath, depth: nat, policy: Policy, lib: Library): seq<Event>
    requires depth <= policy.maxDepth
    decreases policy.maxDepth + 1 - depth, 3, 0
  {
    var eocd := FindEocd(data);
    if eocd.None? then LocalEvents(data, 0, path, depth, policy, lib) else
      var size, offset := U32(data, eocd.value + 12), U32(data, eocd.value + 16);
      if offset + size > |data| || offset > eocd.value then []
      else CentralEvents(data, offset, offset + size, path, depth, policy, lib)
  }

  function ContentEvents(c: Content, name: string, path: MediaPath, depth: nat, policy: Policy,
                         lib: Library): seq<Event>
    requires depth <= policy.maxDepth
    decreases policy.maxDepth + 1 - depth, 0, 0
  {
    if c.Nested? then Events(c.data, path + [name], depth + 1, policy, lib) else []
  }

  // The central directory declares an entry's size after its content is inspected, a local header before.
  function CentralEntryEvents(r: Record, path: MediaPath, depth: nat, policy: Policy, lib: Library): seq<Event>
    requires depth <= policy.maxDepth
    decreases policy.maxDepth + 1 - depth, 1, 0
  {
    [Entry(path, NameOr(r.name))]
      + (ContentEvents(r.content, NameOr(r.name), path, depth, policy, lib) + [Declared(r.uncompSize)])
  }

  function EntryEvents(name: string, size: nat, content: Content, path: MediaPath, depth: nat, policy: Policy,
                       lib: Library): seq<Event>
    requires depth <= policy.maxDepth
    decreases policy.maxDepth + 1 - depth, 1, 0
  {
    ([Entry(path, name)] + [Declared(size)]) + ContentEvents(content, name, path, depth, policy, lib)
  }

  function LocalEntryEvents(r: Record, path: MediaPath, depth: nat, policy: Policy, lib: Library): seq<Event>
    requires depth <= policy.maxDepth
    decreases policy.maxDepth + 1 - depth, 1, 1
  {
    if r.name.None? then [] else EntryEvents(r.name.value, r.uncompSize, r.content, path, depth, policy, lib)
  }

  function CentralEvents(data: seq<byte>, curr: nat, end: nat, path: MediaPath, depth: nat, policy: Policy,
                         lib: Library): seq<Event>
    requires depth <= policy.maxDepth
    decreases policy.maxDepth + 1 - depth, 2, Max(|data| - curr, 0)
  {
    if curr + 46 > end || curr + 46 > |data| || U32(data, curr) != 0x02014B50 then [] else
      var r := CentralRecord(data, curr, path, policy, lib);
      CentralEntryEvents(r, path, depth, policy, lib) + CentralEvents(data, r.next, end, path, depth, policy, lib)
  }

  function LocalEvents(data: seq<byte>, curr: nat, path: MediaPath, depth: nat, policy: Policy,
                       lib: Library): seq<Event>
    requires depth <= policy.maxDepth
    decreases policy.maxDepth + 1 - depth, 2, Max(|data| - curr, 0)
  {
    if curr + 30 > |data| then []
    else if !IsLocalMagic(data, curr) then LocalEvents(data, curr + 1, path, depth, policy, lib) else
      var r := LocalRecord(data, curr, path, policy, lib);
      LocalEntryEvents(r, path, depth, policy, lib) + LocalEvents(data, r.next, path, depth, policy, lib)
  }

  function TarEvents(data: seq<byte>, offset: nat, path: MediaPath, depth: nat, policy: Policy,
                     lib: Library): seq<Event>
    requires depth <= policy.maxDepth
    decreases policy.maxDepth + 1 - depth, 2, Max(|data| - offset, 0)
  {
    if TarEnds(data, offset) then [] else
      var h := TarHeaderAt(data, offset, path, policy, lib);
      EntryEvents(h.name, h.size, TarContent(data, offset + 512, h, lib), path, depth, policy, lib)
      + TarEvents(data, TarNext(offset, h), path, depth, policy, lib)
  }

  function GzipEvents(data: seq<byte>, path: MediaPath, depth: nat, policy: Policy, lib: Library): seq<Event>
    requires depth <= policy.maxDepth && |data| >= 10
    decreases policy.maxDepth + 1 - depth, 3, 0
  {
    var header := GzipHeaderSize(data);
    if header >= |data| then [] else
      var out := lib.inflate(data[header..], 16 * 1024 * 1024);
      if out.None? then []
      else [Expanded(|out.value|)] + Events(out.value, path + [".decompressed"], depth + 1, policy, lib)
  }

  function BytesOf(e: Event): nat {
    if e.Entry? then 0 else e.bytes
  }

  // The saturating total after the events.
  function SumFrom(start: u64, s: seq<Event>): u64
    decreases |s|
  {
    if s == [] then start else SumFrom(SatAdd(start, BytesOf(s[0])), s[1..])
  }

  // Every declared size leaves the total within the limit. Expanded bytes are not checked.
  predicate Within(start: u64, s: seq<Event>, limit: nat)
    decreases |s|
  {
    if s == [] then true else
      var total := SatAdd(start, BytesOf(s[0]));
      (s[0].Declared? ==> total <= limit) && Within(total, s[1..], limit)
  }

  lemma {:induction false} TotalsConcat(start: u64, a: seq<Event>, b: seq<Event>, limit: nat)
    ensures SumFrom(start, a + b) == SumFrom(SumFrom(start, a), b)
    ensures Within(start, a + b, limit) <==> Within(start, a, limit) && Within(SumFrom(start, a), b, limit)
    decreases |a|
  {
    if a == [] {
      assert a + b == b;
    } else {
      assert (a + b)[1..] == a[1..] + b;
      TotalsConcat(SatAdd(start, BytesOf(a[0])), a[1..], b, limit);
    }
  }

  /* What inspection guarantees */

  predicate HasSizeFinding(fs: seq<Finding>) {
    exists k | 0 <= k < |fs| :: fs[k].kind.SizeExceeded?
  }

  function NewFindings(t: Tally, r: Tally): seq<Finding> {
    if t.findings <= r.findings then r.findings[|t.findings|..] else []
  }

  // Every entry with a traversal name is reported, as far as the limit lets the walk come.
  ghost predicate TraversalsReported(start: u64, s: seq<Event>, limit: nat, fs: seq<Finding>) {
    forall k | 0 <= k < |s| && s[k].Entry? && IsPathTraversalEntry(s[k].name) && Within(start, s[..k], limit) ::
      Finding(s[k].path, Traversal, s[k].name) in fs
  }

  /**
   From `t` to `r` over the events `s`: findings were only appended and the total never went down. If the
   declared sizes stay within the limit there is no size finding and the total is exact, otherwise there is
   one and the total is over. Traversal names are reported, and depth findings come only from the first
   level that is too deep.
   */
  ghost predicate Sound(t: Tally, r: Tally, s: seq<Event>, policy: Policy) {
    var added := NewFindings(t, r);
    && t.findings <= r.findings && t.total <= r.total
    && (if Within(t.total, s, Limit(policy)) then r.total == SumFrom(t.total, s) && !HasSizeFinding(added)
        else r.total > Limit(policy) && HasSizeFinding(added))
    && TraversalsReported(t.total, s, Limit(policy), added)
    && forall k | 0 <= k < |added| && added[k].kind.TooDeep? :: added[k].kind.depth == policy.maxDepth + 1
  }

  lemma NewFindingsConcat(a: Tally, b: Tally, c: Tally)
    requires a.findings <= b.findings <= c.findings
    ensures NewFindings(a, c) == NewFindings(a, b) + NewFindings(b, c)
  {
  }

  lemma SizeFindingConcat(a: seq<Finding>, b: seq<Finding>)
    ensures HasSizeFinding(a + b) <==> HasSizeFinding(a) || HasSizeFinding(b)
  {
    if HasSizeFinding(b) {
      var k :| 0 <= k < |b| && b[k].kind.SizeExceeded?;
      assert (a + b)[|a| + k] == b[k];
    }
    if HasSizeFinding(a) {
      var k :| 0 <= k < |a| && a[k].kind.SizeExceeded?;
      assert (a + b)[k] == a[k];
    }
  }

  lemma ReportedConcat(start: u64, s: seq<Event>, more: seq<Event>, limit: nat, fs: seq<Finding>, gs: seq<Finding>)
    requires TraversalsReported(start, s, limit, fs)
    requires Within(start, s, limit) ==> TraversalsReported(SumFrom(start, s), more, limit, gs)
    ensures TraversalsReported(start, s + more, limit, fs + gs)
  {
    hide Within, SumFrom, IsPathTraversalEntry;
    var all := s + more;
    forall k | 0 <= k < |all| && all[k].Entry? && IsPathTraversalEntry(all[k].name) && Within(start, all[..k], limit)
      ensures Finding(all[k].path, Traversal, all[k].name) in fs + gs
    {
      if k < |s| {
        assert all[..k] == s[..k] && all[k] == s[k];
      } else {
        assert all[..k] == s + more[..k - |s|] && all[k] == more[k - |s|];
        TotalsConcat(start, s, more[..k - |s|], limit);
      }
    }
  }

  lemma SoundConcat(a: Tally, b: Tally, c: Tally, s: seq<Event>, more: seq<Event>, policy: Policy)
    requires Sound(a, b, s, policy) && Sound(b, c, more, policy)
    ensures Sound(a, c, s + more, policy)
  {
    hide Limit, Within, SumFrom, TraversalsReported, HasSizeFinding;
    var ab, bc, ac := NewFindings(a, b), NewFindings(b, c), NewFindings(a, c);
    NewFindingsConcat(a, b, c);
    SizeFindingConcat(ab, bc);
    TotalsConcat(a.total, s, more, Limit(policy));
    ReportedConcat(a.total, s, more, Limit(policy), ab, bc);
  }

  // Once the limit is passed, what the walk leaves unread changes nothing.
  lemma SoundStop(a: Tally, b: Tally, s: seq<Event>, more: seq<Event>, policy: Policy)
    requires Sound(a, b, s, policy) && HasSizeFinding(NewFindings(a, b))
    ensures Sound(a, b, s + more, policy)
  {
    hide Limit, Within, SumFrom, TraversalsReported, HasSizeFinding;
    TotalsConcat(a.total, s, more, Limit(policy));
    ReportedConcat(a.total, s, more, Limit(policy), NewFindings(a, b), []);
    assert NewFindings(a, b) + [] == NewFindings(a, b);
  }

  // Findings of the ordinary kinds.
  predicate Ordinary(fs: seq<Finding>) {
    forall k | 0 <= k < |fs| :: !fs[k].kind.SizeExceeded? && !fs[k].kind.TooDeep?
  }

  lemma ReportSound(t: Tally, fs: seq<Finding>, policy: Policy)
    requires Ordinary(fs)
    ensures Sound(t, Report(t, fs), [], policy)
  {
    hide Limit;
    assert NewFindings(t, Report(t, fs)) == fs;
  }

  // The findings report the entry's own traversal name.
  predicate CallsTraversal(fs: seq<Finding>, path: MediaPath, name: string) {
    IsPathTraversalEntry(name) ==> Finding(path, Traversal, name) in fs
  }

  lemma EntrySound(t: Tally, fs: seq<Finding>, path: MediaPath, name: string, policy: Policy)
    requires Ordinary(fs) && CallsTraversal(fs, path, name)
    ensures Sound(t, Report(t, fs), [Entry(path, name)], policy)
  {
    hide Limit, IsPathTraversalEntry;
    assert NewFindings(t, Report(t, fs)) == fs;
    assert SatAdd(t.total, 0) == t.total && [Entry(path, name)][1..] == [];
    assert Within(t.total, [], Limit(policy)) && SumFrom(t.total, []) == t.total;
  }

  lemma SameSound(t: Tally, policy: Policy)
    ensures Sound(t, t, [], policy)
  {
    assert NewFindings(t, t) == [];
  }

  // Counting an entry's size, and the check that follows it.
  lemma CountSound(t: Tally, size: nat, path: MediaPath, policy: Policy)
    ensures var turn := CountEntry(t, size, path, policy);
            && Sound(t, turn.tally, [Declared(size)], policy)
            && (turn.stop ==> HasSizeFinding(NewFindings(t, turn.tally)))
  {
    hide Limit;
    var c := Count(t, size);
    var over := Report(c, [Finding(path, SizeExceeded, "")]);
    assert NewFindings(t, over) == [Finding(path, SizeExceeded, "")];
    assert NewFindings(t, c) == [];
    assert NewFindings(t, over)[0].kind.SizeExceeded?;
    assert [Declared(size)][1..] == [];
    assert Within(c.total, [], Limit(policy)) && SumFrom(c.total, []) == c.total;
  }

  lemma ExpandSound(t: Tally, size: nat, policy: Policy)
    ensures Sound(t, Count(t, size), [Expanded(size)], policy)
  {
    hide Limit;
    assert NewFindings(t, Count(t, size)) == [];
    assert [Expanded(size)][1..] == [];
    assert Within(Count(t, size).total, [], Limit(policy)) && SumFrom(Count(t, size).total, []) == Count(t, size).total;
  }

  lemma TooDeepSound(t: Tally, path: MediaPath, policy: Policy)
    ensures Sound(t, Report(t, [Finding(path, TooDeep(policy.maxDepth + 1), "")]), [], policy)
  {
    hide Limit;
    var f := Finding(path, TooDeep(policy.maxDepth + 1), "");
    assert NewFindings(t, Report(t, [f])) == [f];
  }

  lemma RecordsOrdinary(data: seq<byte>, curr: nat, path: MediaPath, policy: Policy, lib: Library)
    ensures curr + 46 <= |data| ==> Ordinary(CentralRecord(data, curr, path, policy, lib).findings)
    ensures curr + 30 <= |data| ==> Ordinary(LocalRecord(data, curr, path, policy, lib).findings)
  {
    hide CentralRecord, LocalRecord, Ordinary;
    if curr + 46 <= |data| {
      CentralOrdinary(data, curr, path, policy, lib);
    }
    if curr + 30 <= |data| {
      LocalOrdinary(data, curr, path, policy, lib);
    }
  }

  lemma CentralOrdinary(data: seq<byte>, curr: nat, path: MediaPath, policy: Policy, lib: Library)
    requires curr + 46 <= |data|
    ensures Ordinary(CentralRecord(data, curr, path, policy, lib).findings)
  {
    hide U16, U32, IsPathTraversalEntry, IsMacroName, ContentOf, LocalContent;
  }

  lemma LocalOrdinary(data: seq<byte>, curr: nat, path: MediaPath, policy: Policy, lib: Library)
    requires curr + 30 <= |data|
    ensures Ordinary(LocalRecord(data, curr, path, policy, lib).findings)
  {
    hide U16, U32, IsPathTraversalEntry, IsMacroName, ContentOf, LocalContent;
  }

  lemma CentralCallsTraversal(data: seq<byte>, curr: nat, path: MediaPath, policy: Policy, lib: Library)
    requires curr + 46 <= |data|
    ensures var r := CentralRecord(data, curr, path, policy, lib);
            CallsTraversal(r.findings, path, NameOr(r.name))
  {
    hide U16, U32, IsMacroName, LocalContent, MismatchFindings, HasDotDot;
    var r := CentralRecord(data, curr, path, policy, lib);
    if r.name.Some? && IsPathTraversalEntry(r.name.value) {
      assert r.findings[0] == Finding(path, Traversal, r.name.value);
    } else if r.name.None? {
      EmptyNameHarmless();
    }
  }

  lemma EmptyNameHarmless()
    ensures !IsPathTraversalEntry("")
  {
  }

  lemma LocalCallsTraversal(data: seq<byte>, curr: nat, path: MediaPath, policy: Policy, lib: Library)
    requires curr + 30 <= |data|
    ensures var r := LocalRecord(data, curr, path, policy, lib);
            r.name.Some? ==> CallsTraversal(r.findings, path, r.name.value)
  {
    hide U16, U32, IsMacroName, ContentOf, RatioFindings, IsPathTraversalEntry;
    var r := LocalRecord(data, curr, path, policy, lib);
    if r.name.Some? && IsPathTraversalEntry(r.name.value) {
      assert r.findings[0] == Finding(path, Traversal, r.name.value);
    }
  }

  lemma TarOrdinary(block: seq<byte>, path: MediaPath, policy: Policy, lib: Library)
    requires |block| == 512
    ensures var h := TarRecord(block, path, policy, lib);
            Ordinary(h.findings) && CallsTraversal(h.findings, path, h.name)
  {
    hide IsPathTraversalEntry, BytesToNul;
    var h := TarRecord(block, path, policy, lib);
    if IsPathTraversalEntry(h.name) {
      assert h.findings[0] == Finding(path, Traversal, h.name);
    }
  }

  lemma TarHeaderOrdinary(data: seq<byte>, offset: nat, path: MediaPath, policy: Policy, lib: Library)
    requires !TarEnds(data, offset)
    ensures var h := TarHeaderAt(data, offset, path, policy, lib);
            Ordinary(h.findings) && CallsTraversal(h.findings, path, h.name)
  {
    hide AllZero, TarRecord, Ordinary, CallsTraversal;
    TarOrdinary(data[offset..offset + 512], path, policy, lib);
  }

  predicate OrdinaryContent(c: Content) {
    c.Relations? ==> Ordinary(c.findings)
  }

  lemma ContentOrdinary(data: seq<byte>, curr: nat, path: MediaPath, policy: Policy, lib: Library)
    ensures curr + 46 <= |data| ==> OrdinaryContent(CentralRecord(data, curr, path, policy, lib).content)
    ensures curr + 30 <= |data| ==> OrdinaryContent(LocalRecord(data, curr, path, policy, lib).content)
  {
    hide U16, U32, IsPathTraversalEntry, IsMacroName, MismatchFindings, RatioFindings, IsNestedArchiveName;
  }

  /** Inspection is sound at every depth, for every input and every decompressor. */
  lemma {:induction false} InspectSound(data: seq<byte>, path: MediaPath, depth: nat, t: Tally, policy: Policy,
                                        lib: Library)
    requires depth <= policy.maxDepth + 1
    ensures Sound(t, Inspect(data, path, depth, t, policy, lib), Events(data, path, depth, policy, lib), policy)
    decreases Max(policy.maxDepth + 1 - depth, 0), 4, 0
  {
    hide Sound, IsZip, IsTar, IsGzip, Is7z, InspectZip, TarFrom, InspectGzip, ZipEvents, TarEvents, GzipEvents;
    if depth > policy.maxDepth {
      TooDeepSound(t, path, policy);
    } else if IsZip(data) {
      InspectZipSound(data, path, depth, t, policy, lib);
    } else if IsTar(data) {
      TarSound(data, 0, path, depth, t, policy, lib);
    } else if IsGzip(data) {
      GzipLength(data);
      InspectGzipSound(data, path, depth, t, policy, lib);
    } else if Is7z(data) {
      Inspect7zSound(data, path, t, policy);
    } else {
      SameSound(t, policy);
    }
  }

  lemma GzipLength(data: seq<byte>)
    requires IsGzip(data)
    ensures |data| >= 10
  {
  }

  lemma Inspect7zSound(data: seq<byte>, path: MediaPath, t: Tally, policy: Policy)
    ensures Sound(t, Inspect7z(data, path, t), [], policy)
  {
    hide Sound;
    ReportSound(t, [Finding(path, Truncated7z, "")], policy);
    ReportSound(t, [Finding(path, Version7z, "")], policy);
    ReportSound(t, [], policy);
  }

  lemma {:induction false} InspectZipSound(data: seq<byte>, path: MediaPath, depth: nat, t: Tally, policy: Policy,
                                           lib: Library)
    requires depth <= policy.maxDepth
    ensures Sound(t, InspectZip(data, path, depth, t, policy, lib), ZipEvents(data, path, depth, policy, lib), policy)
    decreases policy.maxDepth + 1 - depth, 3, 0
  {
    hide Sound, FindEocd, U32, LocalFrom, CentralFrom, LocalEvents, CentralEvents;
    var eocd := FindEocd(data);
    ReportSound(t, [Finding(path, BadDirectory, "")], policy);
    if eocd.None? {
      LocalSound(data, 0, path, depth, t, policy, lib);
    } else {
      var size, offset := U32(data, eocd.value + 12), U32(data, eocd.value + 16);
      CentralSound(data, offset, offset + size, path, depth, t, policy, lib);
    }
  }

  lemma {:induction false} InspectContentSound(c: Content, name: string, path: MediaPath, depth: nat, t: Tally,
                                               policy: Policy, lib: Library)
    requires depth <= policy.maxDepth && OrdinaryContent(c)
    ensures Sound(t, InspectContent(c, name, path, depth, t, policy, lib),
                  ContentEvents(c, name, path, depth, policy, lib), policy)
    decreases policy.maxDepth + 1 - depth, 0, 0
  {
    hide Sound, Inspect, Events;
    match c {
      case Nested(inner) => InspectSound(inner, path + [name], depth + 1, t, policy, lib);
      case Relations(fs) => ReportSound(t, fs, policy);
      case Nothing => SameSound(t, policy);
    }
  }

  lemma {:induction false} CentralSound(data: seq<byte>, curr: nat, end: nat, path: MediaPath, depth: nat, t: Tally,
                                        policy: Policy, lib: Library)
    requires depth <= policy.maxDepth
    ensures Sound(t, CentralFrom(data, curr, end, path, depth, t, policy, lib),
                  CentralEvents(data, curr, end, path, depth, policy, lib), policy)
    decreases policy.maxDepth + 1 - depth, 2, Max(|data| - curr, 0)
  {
    hide Sound, U32, CentralRecord, CentralTurn, OrdinaryContent, Ordinary, CallsTraversal, CentralEntryEvents,
         HasSizeFinding;
    if curr + 46 > end || curr + 46 > |data| || U32(data, curr) != 0x02014B50 {
      SameSound(t, policy);
    } else {
      var r := CentralRecord(data, curr, path, policy, lib);
      RecordsOrdinary(data, curr, path, policy, lib);
      CentralCallsTraversal(data, curr, path, policy, lib);
      ContentOrdinary(data, curr, path, policy, lib);
      CentralTurnSound(r, path, depth, t, policy, lib);
      var turn := CentralTurn(r, path, depth, t, policy, lib);
      var here, later := CentralEntryEvents(r, path, depth, policy, lib),
        CentralEvents(data, r.next, end, path, depth, policy, lib);
      if turn.stop {
        SoundStop(t, turn.tally, here, later, policy);
      } else {
        CentralSound(data, r.next, end, path, depth, turn.tally, policy, lib);
        SoundConcat(t, turn.tally, CentralFrom(data, r.next, end, path, depth, turn.tally, policy, lib), here, later,
                    policy);
      }
    }
  }

  lemma {:induction false} CentralTurnSound(r: Record, path: MediaPath, depth: nat, t: Tally, policy: Policy,
                                            lib: Library)
    requires depth <= policy.maxDepth && Ordinary(r.findings) && OrdinaryContent(r.content)
    requires CallsTraversal(r.findings, path, NameOr(r.name))
    ensures var turn := CentralTurn(r, path, depth, t, policy, lib);
            && Sound(t, turn.tally, CentralEntryEvents(r, path, depth, policy, lib), policy)
            && (turn.stop ==> HasSizeFinding(NewFindings(t, turn.tally)))
    decreases policy.maxDepth + 1 - depth, 1, 0
  {
    hide Sound, InspectContent, CountEntry, Ordinary, OrdinaryContent, RatioFindings, CallsTraversal, NameOr,
         ContentEvents, HasSizeFinding, NewFindings;
    var name := NameOr(r.name);
    var a := Report(t, r.findings);
    var b := InspectContent(r.content, name, path, depth, a, policy, lib);
    var c := Report(b, RatioFindings(r.compSize, r.uncompSize, path, policy));
    var d := CountEntry(c, r.uncompSize, path, policy).tally;
    var inside := ContentEvents(r.content, name, path, depth, policy, lib);
    EntrySound(t, r.findings, path, name, policy);
    InspectContentSound(r.content, name, path, depth, a, policy, lib);
    RatioOrdinary(r.compSize, r.uncompSize, path, policy);
    ReportSound(b, RatioFindings(r.compSize, r.uncompSize, path, policy), policy);
    CountSound(c, r.uncompSize, path, policy);
    SoundConcat(b, c, d, [], [Declared(r.uncompSize)], policy);
    assert [] + [Declared(r.uncompSize)] == [Declared(r.uncompSize)];
    StopSeen(b, c, d, [], [Declared(r.uncompSize)], policy);
    SoundConcat(a, b, d, inside, [Declared(r.uncompSize)], policy);
    StopSeen(a, b, d, inside, [Declared(r.uncompSize)], policy);
    SoundConcat(t, a, d, [Entry(path, name)], inside + [Declared(r.uncompSize)], policy);
    StopSeen(t, a, d, [Entry(path, name)], inside + [Declared(r.uncompSize)], policy);
  }

  // A size finding seen late is seen from the start.
  lemma StopSeen(a: Tally, b: Tally, c: Tally, s: seq<Event>, more: seq<Event>, policy: Policy)
    requires Sound(a, b, s, policy) && Sound(b, c, more, policy)
    ensures HasSizeFinding(NewFindings(b, c)) ==> HasSizeFinding(NewFindings(a, c))
  {
    hide HasSizeFinding, Within, SumFrom, TraversalsReported, Limit;
    NewFindingsConcat(a, b, c);
    SizeFindingConcat(NewFindings(a, b), NewFindings(b, c));
  }

  lemma RatioOrdinary(comp: nat, uncomp: nat, path: MediaPath, policy: Policy)
    ensures Ordinary(RatioFindings(comp, uncomp, path, policy))
  {
  }

  lemma {:induction false} LocalSound(data: seq<byte>, curr: nat, path: MediaPath, depth: nat, t: Tally,
                                      policy: Policy, lib: Library)
    requires depth <= policy.maxDepth
    ensures Sound(t, LocalFrom(data, curr, path, depth, t, policy, lib),
                  LocalEvents(data, curr, path, depth, policy, lib), policy)
    decreases policy.maxDepth + 1 - depth, 2, Max(|data| - curr, 0)
  {
    hide Sound, IsLocalMagic, LocalRecord, LocalTurn, OrdinaryContent, Ordinary, CallsTraversal, LocalEntryEvents,
         HasSizeFinding;
    if curr + 30 > |data| {
      SameSound(t, policy);
    } else if !IsLocalMagic(data, curr) {
      LocalSound(data, curr + 1, path, depth, t, policy, lib);
    } else {
      var r := LocalRecord(data, curr, path, policy, lib);
      RecordsOrdinary(data, curr, path, policy, lib);
      LocalCallsTraversal(data, curr, path, policy, lib);
      ContentOrdinary(data, curr, path, policy, lib);
      LocalTurnSound(r, path, depth, t, policy, lib);
      var turn := LocalTurn(r, path, depth, t, policy, lib);
      var here, later := LocalEntryEvents(r, path, depth, policy, lib),
        LocalEvents(data, r.next, path, depth, policy, lib);
      if turn.stop {
        SoundStop(t, turn.tally, here, later, policy);
      } else {
        LocalSound(data, r.next, path, depth, turn.tally, policy, lib);
        SoundConcat(t, turn.tally, LocalFrom(data, r.next, path, depth, turn.tally, policy, lib), here, later, policy);
      }
    }
  }

  lemma {:induction false} LocalTurnSound(r: Record, path: MediaPath, depth: nat, t: Tally, policy: Policy,
                                          lib: Library)
    requires depth <= policy.maxDepth && Ordinary(r.findings) && OrdinaryContent(r.content)
    requires r.name.Some? ==> CallsTraversal(r.findings, path, r.name.value)
    ensures var turn := LocalTurn(r, path, depth, t, policy, lib);
            && Sound(t, turn.tally, LocalEntryEvents(r, path, depth, policy, lib), policy)
            && (turn.stop ==> HasSizeFinding(NewFindings(t, turn.tally)))
    decreases policy.maxDepth + 1 - depth, 1, 0
  {
    hide Sound, InspectContent, CountEntry, Ordinary, OrdinaryContent, CallsTraversal, EntryEvents, HasSizeFinding,
         NewFindings;
    if r.name.None? {
      SameSound(t, policy);
    } else {
      CountThenInspect(r.findings, r.uncompSize, r.content, r.name.value, path, depth, t, policy, lib);
    }
  }

  lemma {:induction false} CountThenInspect(fs: seq<Finding>, size: nat, c: Content, name: string, path: MediaPath,
                                            depth: nat, t: Tally, policy: Policy, lib: Library)
    requires depth <= policy.maxDepth && Ordinary(fs) && OrdinaryContent(c) && CallsTraversal(fs, path, name)
    ensures var counted := CountEntry(Report(t, fs), size, path, policy);
            var all := EntryEvents(name, size, c, path, depth, policy, lib);
            if counted.stop then Sound(t, counted.tally, all, policy) && HasSizeFinding(NewFindings(t, counted.tally))
            else Sound(t, InspectContent(c, name, path, depth, counted.tally, policy, lib), all, policy)
    decreases policy.maxDepth + 1 - depth, 0, 1
  {
    hide Sound, InspectContent, CountEntry, Ordinary, OrdinaryContent, CallsTraversal, ContentEvents, HasSizeFinding,
         NewFindings;
    var a := Report(t, fs);
    var counted := CountEntry(a, size, path, policy);
    var b, inside := counted.tally, ContentEvents(c, name, path, depth, policy, lib);
    EntrySound(t, fs, path, name, policy);
    CountSound(a, size, path, policy);
    SoundConcat(t, a, b, [Entry(path, name)], [Declared(size)], policy);
    if counted.stop {
      StopSeen(t, a, b, [Entry(path, name)], [Declared(size)], policy);
      SoundStop(t, b, [Entry(path, name)] + [Declared(size)], inside, policy);
    } else {
      InspectContentSound(c, name, path, depth, b, policy, lib);
      SoundConcat(t, b, InspectContent(c, name, path, depth, b, policy, lib), [Entry(path, name)] + [Declared(size)],
                  inside, policy);
    }
  }

  lemma {:induction false} TarSound(data: seq<byte>, offset: nat, path: MediaPath, depth: nat, t: Tally,
                                    policy: Policy, lib: Library)
    requires depth <= policy.maxDepth
    ensures Sound(t, TarFrom(data, offset, path, depth, t, policy, lib),
                  TarEvents(data, offset, path, depth, policy, lib), policy)
    decreases policy.maxDepth + 1 - depth, 2, Max(|data| - offset, 0)
  {
    hide Sound, TarEnds, TarHeaderAt, TarNext, Ordinary, CallsTraversal, InspectContent, CountEntry, EntryEvents,
         HasSizeFinding, NewFindings;
    if TarEnds(data, offset) {
      SameSound(t, policy);
    } else {
      var h := TarHeaderAt(data, offset, path, policy, lib);
      var content := TarContent(data, offset + 512, h, lib);
      TarHeaderOrdinary(data, offset, path, policy, lib);
      CountThenInspect(h.findings, h.size, content, h.name, path, depth, t, policy, lib);
      var turn := TarTurn(h, content, path, depth, t, policy, lib);
      var here, later := EntryEvents(h.name, h.size, content, path, depth, policy, lib),
        TarEvents(data, TarNext(offset, h), path, depth, policy, lib);
      if turn.stop {
        SoundStop(t, turn.tally, here, later, policy);
      } else {
        TarSound(data, TarNext(offset, h), path, depth, turn.tally, policy, lib);
        SoundConcat(t, turn.tally, TarFrom(data, TarNext(offset, h), path, depth, turn.tally, policy, lib), here,
                    later, policy);
      }
    }
  }

  lemma {:induction false} InspectGzipSound(data: seq<byte>, path: MediaPath, depth: nat, t: Tally, policy: Policy,
                                            lib: Library)
    requires depth <= policy.maxDepth && |data| >= 10
    ensures Sound(t, InspectGzip(data, path, depth, t, policy, lib), GzipEvents(data, path, depth, policy, lib), policy)
    decreases policy.maxDepth + 1 - depth, 3, 0
  {
    hide Sound, GzipHeaderSize, GzipRatioFindings, Inspect, Count, Events;
    var header := GzipHeaderSize(data);
    SameSound(t, policy);
    if header < |data| {
      var ratio := Report(t, GzipRatioFindings(data, path, policy));
      GzipRatioOrdinary(data, path, policy);
      ReportSound(t, GzipRatioFindings(data, path, policy), policy);
      var out := lib.inflate(data[header..], 16 * 1024 * 1024);
      if out.Some? {
        var counted, inner := Count(ratio, |out.value|), path + [".decompressed"];
        var last := Inspect(out.value, inner, depth + 1, counted, policy, lib);
        var here, later := [Expanded(|out.value|)], Events(out.value, inner, depth + 1, policy, lib);
        ExpandSound(ratio, |out.value|, policy);
        InspectSound(out.value, inner, depth + 1, counted, policy, lib);
        SoundConcat(ratio, counted, last, here, later, policy);
        SoundConcat(t, ratio, last, [], here + later, policy);
        assert [] + (here + later) == here + later;
      }
    }
  }

  lemma GzipRatioOrdinary(data: seq<byte>, path: MediaPath, policy: Policy)
    requires |data| >= 10 && GzipHeaderSize(data) <= |data|
    ensures Ordinary(GzipRatioFindings(data, path, policy))
  {
    hide GzipHeaderSize, U32, SatMul;
  }

  /* The limit on the whole archive */

  /**
   From the top, a size finding is reported if and only if some declared size in the archive, read to its
   end, takes the total over the limit; without one the total is exactly the sum of all sizes.
   */
  lemma SizeFindingIff(data: seq<byte>, path: MediaPath, policy: Policy, lib: Library)
    ensures var r, s := Inspect(data, path, 0, Tally([], 0), policy, lib), Events(data, path, 0, policy, lib);
            && (HasSizeFinding(r.findings) <==> !Within(0, s, Limit(policy)))
            && (HasSizeFinding(r.findings) ==> r.total > Limit(policy))
            && (!HasSizeFinding(r.findings) ==> r.total == SumFrom(0, s))
  {
    hide Inspect, Limit, Events, Within, SumFrom, HasSizeFinding, TraversalsReported;
    var start := Tally([], 0);
    InspectSound(data, path, 0, start, policy, lib);
    var r := Inspect(data, path, 0, start, policy, lib);
    assert NewFindings(start, r) == r.findings;
  }

  // The declared sizes stay within the limit, and gzip payloads after the last of them pass it.
  predicate PassedUnchecked(s: seq<Event>, limit: nat) {
    Within(0, s, limit) && SumFrom(0, s) > limit
  }

  /** The finding and the total disagree exactly on the archives that pass the limit unchecked. */
  lemma LimitMissedIff(data: seq<byte>, path: MediaPath, policy: Policy, lib: Library)
    ensures var r := Inspect(data, path, 0, Tally([], 0), policy, lib);
            (HasSizeFinding(r.findings) <==> r.total > Limit(policy))
            <==> !PassedUnchecked(Events(data, path, 0, policy, lib), Limit(policy))
  {
    hide Inspect, Limit, Events, Within, SumFrom, HasSizeFinding;
    SizeFindingIff(data, path, policy, lib);
  }

  // The events up to the last declared size.
  function CheckedPart(s: seq<Event>): (c: seq<Event>)
    ensures c <= s && (c != [] ==> c[|c| - 1].Declared?)
    ensures forall j | |c| <= j < |s| :: !s[j].Declared?
  {
    if s == [] || s[|s| - 1].Declared? then s else CheckedPart(s[..|s| - 1])
  }

  lemma {:induction false} UndeclaredWithin(start: u64, s: seq<Event>, limit: nat)
    requires forall j | 0 <= j < |s| :: !s[j].Declared?
    ensures Within(start, s, limit)
    decreases |s|
  {
    if s != [] {
      assert forall j | 0 <= j < |s| - 1 :: s[1..][j] == s[j + 1];
      UndeclaredWithin(SatAdd(start, BytesOf(s[0])), s[1..], limit);
    }
  }

  // Up to a declared size all totals are within the limit just when the last one is.
  lemma {:induction false} WithinIffLast(start: u64, s: seq<Event>, limit: nat)
    requires s != [] && s[|s| - 1].Declared?
    ensures start <= SumFrom(start, s) && (Within(start, s, limit) <==> SumFrom(start, s) <= limit)
    decreases |s|
  {
    var next := SatAdd(start, BytesOf(s[0]));
    if |s| == 1 {
      assert s[1..] == [];
    } else {
      WithinIffLast(next, s[1..], limit);
    }
  }

  /**
   An archive passes the limit unchecked if and only if the total is within the limit at the last declared
   size and over it at the end.
   */
  lemma PassedUncheckedIff(s: seq<Event>, limit: nat)
    ensures PassedUnchecked(s, limit) <==> SumFrom(0, CheckedPart(s)) <= limit < SumFrom(0, s)
  {
    hide Within, SumFrom, CheckedPart;
    var a := CheckedPart(s);
    var b := s[|a|..];
    assert s == a + b;
    TotalsConcat(0, a, b, limit);
    UndeclaredWithin(SumFrom(0, a), b, limit);
    if a == [] {
      NothingSummed(limit);
    } else {
      WithinIffLast(0, a, limit);
    }
  }

  lemma NothingSummed(limit: nat)
    ensures SumFrom(0, []) == 0 && Within(0, [], limit)
  {
  }

  /** Only a gzip payload that no declared size follows can pass the limit unchecked. */
  lemma {:induction false} PassedByGzip(start: u64, s: seq<Event>, limit: nat)
    requires start <= limit && Within(start, s, limit) && SumFrom(start, s) > limit
    ensures exists k :: 0 <= k < |s| && s[k].Expanded? && forall j | k <= j < |s| :: !s[j].Declared?
    decreases |s|
  {
    var next := SatAdd(start, BytesOf(s[0]));
    if next <= limit {
      PassedByGzip(next, s[1..], limit);
      var k :| 0 <= k < |s[1..]| && s[1..][k].Expanded? && forall j | k <= j < |s[1..]| :: !s[1..][j].Declared?;
      assert s[k + 1].Expanded?;
      forall j | k + 1 <= j < |s|
        ensures !s[j].Declared?
      {
        assert s[j] == s[1..][j - 1];
      }
    } else {
      assert s[0].Expanded?;
      NoneDeclaredAfter(next, s[1..], limit);
      forall j | 0 <= j < |s|
        ensures !s[j].Declared?
      {
        assert j > 0 ==> s[j] == s[1..][j - 1];
      }
    }
  }

  lemma {:induction false} NoneDeclaredAfter(start: u64, s: seq<Event>, limit: nat)
    requires start > limit && Within(start, s, limit)
    ensures forall j | 0 <= j < |s| :: !s[j].Declared?
    decreases |s|
  {
    if s != [] {
      NoneDeclaredAfter(SatAdd(start, BytesOf(s[0])), s[1..], limit);
      forall j | 0 <= j < |s|
        ensures !s[j].Declared?
      {
        assert j > 0 ==> s[j] == s[1..][j - 1];
      }
    }
  }

  /** So an archive in which no gzip payload expands is reported if and only if its total passes the limit. */
  lemma GzipFreeExact(data: seq<byte>, path: MediaPath, policy: Policy, lib: Library)
    requires forall k | 0 <= k < |Events(data, path, 0, policy, lib)| ::
               !Events(data, path, 0, policy, lib)[k].Expanded?
    ensures var r := Inspect(data, path, 0, Tally([], 0), policy, lib);
            HasSizeFinding(r.findings) <==> r.total > Limit(policy)
  {
    hide Inspect, Limit, Events, Within, SumFrom, HasSizeFinding;
    LimitMissedIff(data, path, policy, lib);
    var s := Events(data, path, 0, policy, lib);
    if PassedUnchecked(s, Limit(policy)) {
      PassedByGzip(0, s, Limit(policy));
    }
  }

  /** Every entry with a traversal name, at any depth, is reported, unless the limit was passed before it. */
  lemma EveryTraversalReported(data: seq<byte>, path: MediaPath, policy: Policy, lib: Library, k: nat)
    requires var s := Events(data, path, 0, policy, lib);
             k < |s| && s[k].Entry? && IsPathTraversalEntry(s[k].name) && Within(0, s[..k], Limit(policy))
    ensures var e := Events(data, path, 0, policy, lib)[k];
            Finding(e.path, Traversal, e.name) in Inspect(data, path, 0, Tally([], 0), policy, lib).findings
  {
    hide Inspect, Limit, Events, Within, SumFrom, HasSizeFinding, IsPathTraversalEntry;
    var start := Tally([], 0);
    InspectSound(data, path, 0, start, policy, lib);
    var r := Inspect(data, path, 0, start, policy, lib);
    assert NewFindings(start, r) == r.findings;
  }

  /** A gzip file whose payload alone is larger than the limit is never reported for its size, with any decompressor. */
  lemma GzipTotalUnchecked(data: seq<byte>, out: seq<byte>, path: MediaPath, policy: Policy, lib: Library)
    requires !IsZip(data) && !IsTar(data) && IsGzip(data) && GzipHeaderSize(data) < |data|
    requires lib.inflate(data[GzipHeaderSize(data)..], 16 * 1024 * 1024) == Some(out)
    requires Events(out, path + [".decompressed"], 1, policy, lib) == [] && Limit(policy) < |out| <= U64_MAX
    ensures var r := Inspect(data, path, 0, Tally([], 0), policy, lib);
            !HasSizeFinding(r.findings) && r.total == |out| > Limit(policy)
  {
    hide Inspect, IsZip, IsTar, IsGzip, GzipHeaderSize, HasSizeFinding, Limit;
    SizeFindingIff(data, path, policy, lib);
    var s := [Expanded(|out|)];
    GzipOnly(data, out, path, policy, lib);
    assert s[1..] == [] && Within(0, s, Limit(policy)) && SumFrom(0, s) == |out|;
  }

  lemma GzipOnly(data: seq<byte>, out: seq<byte>, path: MediaPath, policy: Policy, lib: Library)
    requires !IsZip(data) && !IsTar(data) && IsGzip(data) && GzipHeaderSize(data) < |data|
    requires lib.inflate(data[GzipHeaderSize(data)..], 16 * 1024 * 1024) == Some(out)
    requires Events(out, path + [".decompressed"], 1, policy, lib) == []
    ensures Events(data, path, 0, policy, lib) == [Expanded(|out|)]
  {
    hide IsZip, IsTar, GzipHeaderSize;
    assert [Expanded(|out|)] + [] == [Expanded(|out|)];
  }

  // There are such files: a bare header and one byte of payload.
  lemma SmallestGzip(b: byte)
    ensures var data := [0x1F, 0x8B, 8, 0, 0, 0, 0, 0, 0, 0, b];
            !IsZip(data) && !IsTar(data) && IsGzip(data) && GzipHeaderSize(data) == 10
  {
  }

  /* The loops */

  method InspectArchiveRecursive(data: seq<byte>, path: MediaPath, depth: nat, t: Tally, policy: Policy, lib: Library)
    returns (r: Tally)
    ensures r == Inspect(data, path, depth, t, policy, lib)
    decreases Max(policy.maxDepth + 1 - depth, 0), 4, 0
  {
    hide IsZip, IsTar, Is7z, FindEocd, InspectZip, TarFrom, InspectGzip;
    if depth > policy.maxDepth {
      return Report(t, [Finding(path, TooDeep(depth), "")]);
    }
    if IsZip(data) {
      r := InspectZipEntries(data, path, depth, t, policy, lib);
    } else if IsTar(data) {
      r := InspectTarEntries(data, path, depth, t, policy, lib);
    } else if IsGzip(data) {
      r := InspectGzipPayload(data, path, depth, t, policy, lib);
    } else if Is7z(data) {
      r := Inspect7z(data, path, t);
    } else {
      r := t;
    }
  }

  method InspectInside(c: Content, name: string, path: MediaPath, depth: nat, t: Tally, policy: Policy, lib: Library)
    returns (r: Tally)
    requires depth <= policy.maxDepth
    ensures r == InspectContent(c, name, path, depth, t, policy, lib)
    decreases policy.maxDepth + 1 - depth, 0, 0
  {
    match c {
      case Nested(inner) => r := InspectArchiveRecursive(inner, path + [name], depth + 1, t, policy, lib);
      case Relations(fs) => r := Report(t, fs);
      case Nothing => r := t;
    }
  }

  method InspectZipEntries(data: seq<byte>, path: MediaPath, depth: nat, t: Tally, policy: Policy, lib: Library)
    returns (r: Tally)
    requires depth <= policy.maxDepth
    ensures r == InspectZip(data, path, depth, t, policy, lib)
    decreases policy.maxDepth + 1 - depth, 3, 0
  {
    hide FindEocd, LocalFrom, CentralTurn, CentralRecord, U32;
    var eocd := SearchEocd(data);
    if eocd.None? {
      r := InspectZipLocalHeaders(data, path, depth, t, policy, lib);
      return;
    }
    var size, offset := U32(data, eocd.value + 12), U32(data, eocd.value + 16);
    if offset + size > |data| || offset > eocd.value {
      return Report(t, [Finding(path, BadDirectory, "")]);
    }
    r := t;
    var curr: nat := offset;
    while curr + 46 <= offset + size && curr + 46 <= |data|
      invariant CentralFrom(data, curr, offset + size, path, depth, r, policy, lib)
                == CentralFrom(data, offset, offset + size, path, depth, t, policy, lib)
      decreases |data| - curr
    {
      if U32(data, curr) != 0x02014B50 {
        break;
      }
      var record := CentralRecord(data, curr, path, policy, lib);
      var turn := CentralEntry(record, path, depth, r, policy, lib);
      r := turn.tally;
      if turn.stop {
        return;
      }
      curr := record.next;
    }
  }

  method CentralEntry(record: Record, path: MediaPath, depth: nat, t: Tally, policy: Policy, lib: Library)
    returns (turn: Turn)
    requires depth <= policy.maxDepth
    ensures turn == CentralTurn(record, path, depth, t, policy, lib)
    decreases policy.maxDepth + 1 - depth, 1, 0
  {
    hide InspectContent, RatioFindings;
    var r := InspectInside(record.content, NameOr(record.name), path, depth, Report(t, record.findings), policy, lib);
    r := Report(r, RatioFindings(record.compSize, record.uncompSize, path, policy));
    r := Count(r, record.uncompSize);
    if r.total > Limit(policy) {
      return Turn(Report(r, [Finding(path, SizeExceeded, "")]), true);
    }
    turn := Turn(r, false);
  }

  // `inspect_zip_local_headers` and `inspect_tar_entries` count an entry's size before looking inside it.
  method CountedEntry(fs: seq<Finding>, size: nat, content: Content, name: string, path: MediaPath, depth: nat,
                      t: Tally, policy: Policy, lib: Library)
    returns (turn: Turn)
    requires depth <= policy.maxDepth
    ensures var counted := CountEntry(Report(t, fs), size, path, policy);
            turn == if counted.stop then counted
                    else Turn(InspectContent(content, name, path, depth, counted.tally, policy, lib), false)
    decreases policy.maxDepth + 1 - depth, 1, 0
  {
    hide InspectContent;
    var r := Count(Report(t, fs), size);
    if r.total > Limit(policy) {
      return Turn(Report(r, [Finding(path, SizeExceeded, "")]), true);
    }
    r := InspectInside(content, name, path, depth, r, policy, lib);
    turn := Turn(r, false);
  }

  method InspectZipLocalHeaders(data: seq<byte>, path: MediaPath, depth: nat, t: Tally, policy: Policy, lib: Library)
    returns (r: Tally)
    requires depth <= policy.maxDepth
    ensures r == LocalFrom(data, 0, path, depth, t, policy, lib)
    decreases policy.maxDepth + 1 - depth, 2, 0
  {
    hide InspectContent, LocalRecord, CountEntry;
    r := t;
    var curr: nat := 0;
    while curr + 30 <= |data|
      invariant LocalFrom(data, curr, path, depth, r, policy, lib) == LocalFrom(data, 0, path, depth, t, policy, lib)
      decreases |data| - curr
    {
      if data[curr] != 0x50 || data[curr + 1] != 0x4B || data[curr + 2] != 0x03 || data[curr + 3] != 0x04 {
        curr := curr + 1;
        continue;
      }
      var record := LocalRecord(data, curr, path, policy, lib);
      if record.name.Some? {
        var turn := CountedEntry(record.findings, record.uncompSize, record.content, record.name.value, path, depth, r,
                                 policy, lib);
        r := turn.tally;
        if turn.stop {
          return;
        }
      }
      curr := record.next;
    }
  }

  method InspectTarEntries(data: seq<byte>, path: MediaPath, depth: nat, t: Tally, policy: Policy, lib: Library)
    returns (r: Tally)
    requires depth <= policy.maxDepth
    ensures r == TarFrom(data, 0, path, depth, t, policy, lib)
    decreases policy.maxDepth + 1 - depth, 2, 0
  {
    hide InspectContent, TarRecord, CountEntry, AllZero, TarContent, TarNext;
    r := t;
    var offset: nat := 0;
    while offset + 512 <= |data|
      invariant TarFrom(data, offset, path, depth, r, policy, lib) == TarFrom(data, 0, path, depth, t, policy, lib)
      decreases |data| - offset
    {
      var block := data[offset..offset + 512];
      if AllZero(block) {
        break;
      }
      var h := TarRecord(block, path, policy, lib);
      var turn := CountedEntry(h.findings, h.size, TarContent(data, offset + 512, h, lib), h.name, path, depth, r,
                               policy, lib);
      r := turn.tally;
      if turn.stop {
        return;
      }
      offset := TarNext(offset, h);
    }
  }

  method InspectGzipPayload(data: seq<byte>, path: MediaPath, depth: nat, t: Tally, policy: Policy, lib: Library)
    returns (r: Tally)
    requires depth <= policy.maxDepth && |data| >= 10
    ensures r == InspectGzip(data, path, depth, t, policy, lib)
    decreases policy.maxDepth + 1 - depth, 3, 0
  {
    hide Inspect;
    var headerSize := GzipHeader(data);
    hide GzipHeaderSize;
    if headerSize >= |data| {
      return t;
    }
    r := Report(t, GzipRatioFindings(data, path, policy));
    var out := lib.inflate(data[headerSize..], 16 * 1024 * 1024);
    if out.Some? {
      r := Count(r, |out.value|);
      r := InspectArchiveRecursive(out.value, path + [".decompressed"], depth + 1, r, policy, lib);
    }
  }

  // However the header at the front is laid out, it is `n` bytes long.
  ghost predicate MeasuresHeader(data: seq<byte>, n: nat) {
    forall f: GzipFields, payload: seq<byte> ::
      ValidFields(f) && data == GzipHeaderBytes(f) + payload ==> n == |GzipHeaderBytes(f)|
  }

  lemma HeaderMeasured(data: seq<byte>)
    requires |data| >= 10
    ensures MeasuresHeader(data, GzipHeaderSize(data))
  {
    hide GzipHeaderSize, ValidFields, GzipHeaderBytes;
    forall f: GzipFields, payload: seq<byte> | ValidFields(f) && data == GzipHeaderBytes(f) + payload
      ensures GzipHeaderSize(data) == |GzipHeaderBytes(f)|
    {
      GzipHeaderRoundTrip(f, payload);
    }
  }

  // The header loops of `inspect_gzip_payload`: however a header is laid out, its length.
  method GzipHeader(data: seq<byte>) returns (headerSize: nat)
    requires |data| >= 10
    ensures headerSize == GzipHeaderSize(data)
    ensures MeasuresHeader(data, headerSize)
  {
    hide U16, MeasuresHeader;
    HeaderMeasured(data);
    var flags := data[3];
    headerSize := 10;
    if flags / 4 % 2 == 1 && headerSize + 2 <= |data| {
      headerSize := headerSize + 2 + U16(data, headerSize);
    }
    if flags / 8 % 2 == 1 {
      headerSize := SkipString(data, headerSize);
    }
    if flags / 16 % 2 == 1 {
      headerSize := SkipString(data, headerSize);
    }
    if flags / 2 % 2 == 1 {
      headerSize := headerSize + 2;
    }
  }

  method SkipString(data: seq<byte>, from: nat) returns (past: nat)
    ensures past == PastString(data, from)
  {
    past := from;
    while past < |data| && data[past] != 0
      invariant PastString(data, past) == PastString(data, from)
      decreases |data| - past
    {
      past := past + 1;
    }
    past := past + 1;
  }
}
