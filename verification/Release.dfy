/**
 Release paths: src/release/mod.rs. Text is a sequence of characters; lengths and cuts are in UTF-8
 bytes, as in the source.
 */
module Release {
  import opened Bytes

  // Code points above U+FFFF are single characters here.
  function Utf8Len(c: char): nat {
    if c as int < 0x80 then 1 else if c as int < 0x800 then 2 else if c as int < 0x1_0000 then 3 else 4
  }

  function ByteLen(s: string): nat {
    if s == [] then 0 else Utf8Len(s[0]) + ByteLen(s[1..])
  }

  predicate IsBidiControl(c: char) {
    var n := c as int;
    || 0x202A <= n <= 0x202E || 0x2066 <= n <= 0x2069
    || n == 0x200E || n == 0x200F || n == 0x061C || n == 0x200B || n == 0x200C || n == 0x200D || n == 0xFEFF
  }

  // char::is_control: the general category Cc.
  predicate IsControl(c: char) {
    var n := c as int;
    n < 0x20 || 0x7F <= n < 0xA0
  }

  // char::is_whitespace
  predicate IsWhitespace(c: char) {
    var n := c as int;
    || 0x09 <= n <= 0x0D || n == 0x20 || n == 0x85 || n == 0xA0 || n == 0x1680 || 0x2000 <= n <= 0x200A
    || n == 0x2028 || n == 0x2029 || n == 0x202F || n == 0x205F || n == 0x3000
  }

  predicate IsSeparator(c: char) {
    c == '/' || c == '\\'
  }

  predicate IsDotOrSpace(c: char) {
    c == '.' || c == ' '
  }

  function TrimStart(s: string, p: char -> bool): (t: string)
    ensures t != [] ==> !p(t[0])
    ensures forall c | c in t :: c in s
  {
    if s != [] && p(s[0]) then TrimStart(s[1..], p) else s
  }

  function TrimEnd(s: string, p: char -> bool): (t: string)
    ensures t <= s && (t != [] ==> !p(t[|t| - 1]))
    ensures |t| < |s| ==> p(s[|s| - 1])
    ensures |t| == |s| ==> s == [] || !p(s[|s| - 1])
  {
    if s != [] && p(s[|s| - 1]) then TrimEnd(s[..|s| - 1], p) else s
  }

  function Trim(s: string): string {
    TrimEnd(TrimStart(s, IsWhitespace), IsWhitespace)
  }

  function Upper(c: char): char {
    if 'a' <= c <= 'z' then c - 32 as char else c
  }

  function UpperAll(s: string): (u: string)
    ensures |u| == |s|
  {
    seq(|s|, i requires 0 <= i < |s| => Upper(s[i]))
  }

  // The text before the first dot.
  function Stem(name: string): (s: string)
    ensures |s| <= |name|
  {
    if name == [] || name[0] == '.' then [] else [name[0]] + Stem(name[1..])
  }

  const RESERVED: set<string> := {
    "CON", "PRN", "AUX", "NUL",
    "COM1", "COM2", "COM3", "COM4", "COM5", "COM6", "COM7", "COM8", "COM9",
    "LPT1", "LPT2", "LPT3", "LPT4", "LPT5", "LPT6", "LPT7", "LPT8", "LPT9"
  }

  predicate IsWindowsReserved(name: string) {
    UpperAll(Stem(name)) in RESERVED
  }

  /* Sanitising one name */

  datatype Reason = RemovedControls | PrefixedDash | TrailingDotOrSpace | ReservedName | TooLong

  // `Panics` when a cut falls inside a character or the extension alone is longer than 255 bytes.
  datatype Sanitized = Name(text: string, reasons: seq<Reason>) | Panics

  function Filter(raw: string): string {
    if raw == [] then []
    else (if IsBidiControl(raw[0]) then [] else if IsControl(raw[0]) then "_" else [raw[0]]) + Filter(raw[1..])
  }

  function FixDash(s: string): string {
    if s != [] && s[0] == '-' then "_" + s else s
  }

  function FixTail(s: string): string {
    var t := TrimEnd(s, IsDotOrSpace);
    if ByteLen(t) != ByteLen(s) then t + "_" else s
  }

  function FixReserved(s: string): string {
    if IsWindowsReserved(s) then "safe_" + s else s
  }

  function Reasons(raw: string): seq<Reason> {
    var a := Filter(raw);
    var b := FixDash(a);
    var c := FixTail(b);
    (if a != raw then [RemovedControls] else []) + (if b != a then [PrefixedDash] else [])
    + (if c != b then [TrailingDotOrSpace] else []) + (if IsWindowsReserved(c) then [ReservedName] else [])
  }

  // The name before its length is looked at.
  function CleanName(raw: string): string {
    FixReserved(FixTail(FixDash(Filter(raw))))
  }

  // The first `n` bytes, if they end between two characters.
  function CutAt(s: string, n: nat): (r: Option<string>)
    ensures r.Some? ==> r.value <= s && ByteLen(r.value) == n
    decreases |s|
  {
    if n == 0 then Some([])
    else if s == [] || Utf8Len(s[0]) > n then None
    else
      var rest := CutAt(s[1..], n - Utf8Len(s[0]));
      if rest.None? then None else Some([s[0]] + rest.value)
  }

  function LastDot(s: string): (r: Option<nat>)
    ensures r.Some? ==> r.value < |s| && s[r.value] == '.' && forall i | r.value < i < |s| :: s[i] != '.'
    ensures r.None? ==> '.' !in s
  {
    if s == [] then None
    else if s[|s| - 1] == '.' then Some(|s| - 1)
    else LastDot(s[..|s| - 1])
  }

  // The extension a cut name keeps, if its dot stands among the first 240 bytes.
  function KeptExtension(clean: string): (ext: string)
    ensures |ext| <= |clean| && (ext != [] ==> ext[0] == '.' && ext == clean[|clean| - |ext|..])
  {
    var dot := LastDot(clean);
    if dot.Some? && ByteLen(clean[..dot.value]) < 240 then clean[dot.value..] else []
  }

  // The part before the extension, cut to make 255 bytes in all.
  function KeptFront(clean: string): Option<string> {
    var ext := KeptExtension(clean);
    if ByteLen(ext) > 255 then None else CutAt(clean, 255 - ByteLen(ext))
  }

  function SanitizeDestinationFilename(raw: string): Sanitized {
    var clean := CleanName(raw);
    if ByteLen(clean) <= 255 then Name(clean, Reasons(raw)) else
      var front := KeptFront(clean);
      if front.None? then Panics else Name(front.value + KeptExtension(clean), Reasons(raw) + [TooLong])
  }

  predicate IsCut(raw: string) {
    ByteLen(CleanName(raw)) > 255
  }

  // The properties of released names.
  // Neither a separator, nor a control character, nor one that is invisible or turns the text around.
  predicate HarmlessChar(c: char) {
    var n := c as int;
    && n != 0x2F && n != 0x5C && 0x20 <= n && !(0x7F <= n <= 0x9F)
    && n !in {0x061C, 0x200B, 0x200C, 0x200D, 0x200E, 0x200F, 0x202A, 0x202B, 0x202C, 0x202D, 0x202E, 0x2066, 0x2067,
              0x2068, 0x2069, 0xFEFF}
  }

  lemma HarmlessCharIff(c: char)
    ensures HarmlessChar(c) <==> !IsBidiControl(c) && !IsControl(c) && !IsSeparator(c)
  {
  }

  // It names one thing below its directory, and is no option.
  predicate Contained(name: string) {
    && name != "." && name != ".."
    && (forall i | 0 <= i < |name| :: HarmlessChar(name[i]))
    && (name != [] ==> name[0] != '-')
  }

  predicate Harmless(name: string) {
    && Contained(name)
    && (name != [] ==> !IsDotOrSpace(name[|name| - 1]))
    && !IsWindowsReserved(name)
  }

  predicate NoSeparator(s: string) {
    forall i | 0 <= i < |s| :: !IsSeparator(s[i])
  }

  predicate AllHarmless(s: string) {
    forall i | 0 <= i < |s| :: HarmlessChar(s[i])
  }

  lemma {:induction false} FilterHarmless(raw: string)
    requires NoSeparator(raw)
    ensures AllHarmless(Filter(raw))
  {
    hide IsBidiControl, IsControl, HarmlessChar;
    if raw != [] {
      HarmlessCharIff(raw[0]);
      HarmlessCharIff('_');
      UnderscoreHarmless();
      FilterHarmless(raw[1..]);
    }
  }

  lemma {:induction false} ByteLenPrefix(t: string, s: string)
    requires t <= s
    ensures ByteLen(t) <= ByteLen(s) && (ByteLen(t) == ByteLen(s) <==> |t| == |s|)
  {
    if t != [] {
      ByteLenPrefix(t[1..], s[1..]);
    } else if s != [] {
      assert ByteLen(s) >= 1;
    }
  }

  lemma FixTailShape(s: string)
    requires AllHarmless(s)
    ensures var r := FixTail(s);
            && AllHarmless(r) && (r != [] ==> !IsDotOrSpace(r[|r| - 1]))
            && (s != [] && s[0] != '-' ==> r != [] && r[0] != '-')
            && (s == [] ==> r == [])
  {
    var t := TrimEnd(s, IsDotOrSpace);
    ByteLenPrefix(t, s);
  }

  lemma SafePrefixNotReserved(s: string)
    ensures !IsWindowsReserved("safe_" + s)
  {
    var name := "safe_" + s;
    assert name[1..][0] == 'a' && name[1..][1..][0] == 'f' && name[1..][1..][1..][0] == 'e'
           && name[1..][1..][1..][1..][0] == '_';
    var stem := Stem(name);
    assert stem[0] == 's' && stem[1..] == Stem(name[1..]);
    assert |Stem(name[1..][1..][1..])| >= 2;
    assert |stem| >= 5;
    forall r | r in RESERVED
      ensures |r| <= 4
    {
    }
  }

  lemma UnderscoreHarmless()
    ensures HarmlessChar('_') && AllHarmless("safe_")
  {
  }

  lemma CleanIsHarmless(raw: string)
    requires NoSeparator(raw)
    ensures Harmless(CleanName(raw))
  {
    hide ByteLen, Filter, IsWindowsReserved, FixTail, HarmlessChar;
    var a := Filter(raw);
    var b := FixDash(a);
    var c := FixTail(b);
    FilterHarmless(raw);
    UnderscoreHarmless();
    FixTailShape(b);
    if IsWindowsReserved(c) {
      SafePrefixNotReserved(c);
    }
  }

  /**
   Sanitising a segment gives a name that is contained: no separator, control or bidi character, neither
   `.` nor `..`, no leading dash, at most 255 bytes. Unless it had to be cut it is harmless altogether: no
   trailing dot or space and no reserved stem.
   */
  lemma SanitizedIsHarmless(raw: string)
    requires NoSeparator(raw) && SanitizeDestinationFilename(raw).Name?
    ensures var text := SanitizeDestinationFilename(raw).text;
            && Contained(text) && ByteLen(text) <= 255
            && (!IsCut(raw) ==> Harmless(text))
  {
    hide ByteLen, CleanName, Reasons, IsWindowsReserved, KeptExtension, KeptFront, HarmlessChar;
    CleanIsHarmless(raw);
    if IsCut(raw) {
      CutIsContained(CleanName(raw));
    }
  }

  lemma ByteLenDots()
    ensures ByteLen(".") == 1 && ByteLen("..") == 2
  {
    assert ".."[1..] == ".";
  }

  lemma CutIsContained(clean: string)
    requires Harmless(clean) && KeptFront(clean).Some?
    ensures var text := KeptFront(clean).value + KeptExtension(clean);
            Contained(text) && ByteLen(text) == 255
  {
    hide HarmlessChar, IsWindowsReserved, ByteLen, KeptExtension;
    var front, ext := KeptFront(clean).value, KeptExtension(clean);
    ByteLenDots();
    ByteLenConcat(front, ext);
    forall i | 0 <= i < |front + ext|
      ensures HarmlessChar((front + ext)[i])
    {
      if i >= |front| {
        assert (front + ext)[i] == clean[|clean| - |ext| + i - |front|];
      } else {
        assert (front + ext)[i] == clean[i];
      }
    }
  }

  /* When a cut name is harmless */

  lemma {:induction false} StemOfPrefix(a: string, b: string)
    ensures '.' in a ==> Stem(a + b) == Stem(a)
    ensures '.' !in a && b != [] && b[0] == '.' ==> Stem(a + b) == a
    ensures '.' !in a ==> a <= Stem(a + b)
    decreases |a|
  {
    if a == [] {
      assert a + b == b;
    } else {
      assert (a + b)[1..] == a[1..] + b;
      StemOfPrefix(a[1..], b);
      assert a == [a[0]] + a[1..];
    }
  }

  lemma ReservedIsShort(name: string)
    requires IsWindowsReserved(name)
    ensures 3 <= |Stem(name)| <= 4
  {
    forall r | r in RESERVED
      ensures 3 <= |r| <= 4
    {
    }
  }

  lemma {:induction false} ManyCharacters(s: string)
    ensures |s| <= ByteLen(s) <= 4 * |s|
  {
    if s != [] {
      ManyCharacters(s[1..]);
    }
  }

  // Cutting before the extension can bring out a reserved name; nothing else can.
  lemma CutReservedIff(clean: string)
    requires !IsWindowsReserved(clean) && KeptFront(clean).Some?
    ensures var front, ext := KeptFront(clean).value, KeptExtension(clean);
            IsWindowsReserved(front + ext) <==> ext != [] && '.' !in front && UpperAll(front) in RESERVED
  {
    hide ByteLen, KeptExtension, UpperAll, Stem;
    var front, ext := KeptFront(clean).value, KeptExtension(clean);
    StemOfPrefix(front, ext);
    StemOfPrefix(front, clean[|front|..]);
    assert clean == front + clean[|front|..];
    if ext == [] && '.' !in front {
      NoBytes();
      ManyCharacters(front);
      assert front + ext == front;
      if IsWindowsReserved(front + ext) {
        ReservedIsShort(front + ext);
      }
    }
  }

  lemma NoBytes()
    ensures ByteLen([]) == 0
  {
  }

  /**
   A cut name is harmless if and only if the cut does not bring out what sanitising had removed: with an
   extension kept, the front must not be a reserved name; with none, the cut must not end on a dot or space.
   */
  lemma CutHarmlessIff(raw: string)
    requires NoSeparator(raw) && IsCut(raw) && SanitizeDestinationFilename(raw).Name?
    ensures var clean := CleanName(raw);
            var front, ext := KeptFront(clean).value, KeptExtension(clean);
            Harmless(SanitizeDestinationFilename(raw).text) <==>
              if ext != [] then '.' in front || UpperAll(front) !in RESERVED else !IsDotOrSpace(front[|front| - 1])
  {
    hide CleanName, KeptExtension, KeptFront, HarmlessChar, IsWindowsReserved, Reasons, UpperAll;
    var clean := CleanName(raw);
    CleanIsHarmless(raw);
    CutIsContained(clean);
    CutReservedIff(clean);
    CutEnds(clean);
  }

  // The cut is the only prefix of that many bytes.
  lemma {:induction false} CutAtPrefix(front: string, rest: string)
    ensures CutAt(front + rest, ByteLen(front)) == Some(front)
    decreases |front|
  {
    if front == [] {
    } else {
      assert (front + rest)[1..] == front[1..] + rest;
      CutAtPrefix(front[1..], rest);
      assert front == [front[0]] + front[1..];
    }
  }

  /* When sanitising panics */

  // Some whole number of characters at the start of `s` makes `n` bytes.
  ghost predicate EndsCharacter(s: string, n: int) {
    exists p :: p <= s && ByteLen(p) == n
  }

  lemma CutIff(s: string, n: nat)
    ensures CutAt(s, n).Some? <==> EndsCharacter(s, n)
  {
    if CutAt(s, n).Some? {
      assert CutAt(s, n).value <= s;
    }
    forall p | p <= s && ByteLen(p) == n
      ensures CutAt(s, n).Some?
    {
      assert p + s[|p|..] == s;
      CutAtPrefix(p, s[|p|..]);
    }
  }

  /**
   Sanitising panics if and only if the name is too long and either the extension kept is longer than 255
   bytes or no whole number of characters makes up the rest.
   */
  lemma PanicsIff(raw: string)
    ensures SanitizeDestinationFilename(raw).Panics? <==>
              var clean := CleanName(raw);
              var ext := KeptExtension(clean);
              IsCut(raw) && (ByteLen(ext) > 255 || !EndsCharacter(clean, 255 - ByteLen(ext)))
  {
    hide ByteLen, CleanName, KeptExtension, Reasons, EndsCharacter, CutAt;
    var clean := CleanName(raw);
    var n := 255 - ByteLen(KeptExtension(clean));
    if n >= 0 {
      CutIff(clean, n);
    }
  }

  // Letters beyond ASCII, up to U+07FF.
  predicate TwoByteText(s: string) {
    forall i | 0 <= i < |s| :: Utf8Len(s[i]) == 2 && HarmlessChar(s[i])
  }

  lemma {:induction false} TwoByteLen(s: string)
    requires TwoByteText(s)
    ensures ByteLen(s) == 2 * |s|
  {
    if s != [] {
      assert forall i | 0 <= i < |s[1..]| :: s[1..][i] == s[i + 1];
      TwoByteLen(s[1..]);
    }
  }

  lemma TwoByteHarmless(s: string)
    requires TwoByteText(s)
    ensures Harmless(s) && LastDot(s).None?
  {
    hide LastDot, HarmlessChar;
    assert forall i | 0 <= i < |s| :: s[i] > 'z';
    ReservedAscii();
    if s == [] {
      assert UpperAll(Stem(s)) == [];
    } else {
      assert UpperAll(Stem(s))[0] == s[0];
    }
  }

  lemma ReservedAscii()
    ensures forall r | r in RESERVED :: r != [] && r[0] <= 'z'
  {
  }

  /** Every name of 128 or more such letters panics: 255 bytes end inside a letter. */
  lemma LettersPanic(s: string)
    requires TwoByteText(s) && |s| >= 128
    ensures SanitizeDestinationFilename(s).Panics?
  {
    hide ByteLen, CleanName, LastDot, Harmless, TwoByteText;
    TwoByteLen(s);
    TwoByteHarmless(s);
    HarmlessIsClean(s);
    assert KeptExtension(s) == [];
    NoBytes();
    forall p | p <= s
      ensures ByteLen(p) != 255
    {
      TwoByteLen(p) by {
        TwoBytePrefix(p, s);
      }
    }
    PanicsIff(s);
  }

  lemma TwoBytePrefix(p: string, s: string)
    requires TwoByteText(s) && p <= s
    ensures TwoByteText(p)
  {
  }

  /** So does every harmless name whose last dot stands early, with more than 254 bytes behind it. */
  lemma LongExtensionPanics(a: string, b: string)
    requires Harmless(a + "." + b) && '.' !in b && ByteLen(a) < 240 && ByteLen(b) >= 255
    ensures SanitizeDestinationFilename(a + "." + b).Panics?
  {
    hide ByteLen, CleanName, Harmless, KeptExtension, SanitizeDestinationFilename;
    var raw, ext := a + "." + b, "." + b;
    assert raw == a + ext;
    OneByte();
    ByteLenConcat(a, ext);
    ByteLenConcat(".", b);
    ExtensionAt(a, b);
    HarmlessIsClean(raw);
    assert IsCut(raw) && ByteLen(KeptExtension(CleanName(raw))) > 255;
    PanicsIff(raw);
  }

  lemma LastDotUnique(s: string, k: nat)
    requires k < |s| && s[k] == '.' && forall i | k < i < |s| :: s[i] != '.'
    ensures LastDot(s) == Some(k)
  {
    hide LastDot;
    assert s[k] in s;
  }

  lemma ExtensionAt(a: string, b: string)
    requires '.' !in b
    ensures KeptExtension(a + "." + b) == if ByteLen(a) < 240 then "." + b else []
  {
    hide LastDot, ByteLen;
    var s := a + "." + b;
    assert s == (a + ".") + b && |a + "."| == |a| + 1;
    forall i | |a| < i < |s|
      ensures s[i] != '.'
    {
      assert s[i] == b[i - |a| - 1] && b[i - |a| - 1] in b;
    }
    LastDotUnique(s, |a|);
    assert s[..|a|] == a && s[|a|..] == "." + b;
  }

  lemma CutOf(front: string, rest: string, ext: string)
    requires KeptExtension(front + rest) == ext && ByteLen(front) + ByteLen(ext) == 255
    ensures KeptFront(front + rest) == Some(front)
  {
    hide KeptExtension, ByteLen, CutAt;
    CutAtPrefix(front, rest);
  }

  lemma CutName(raw: string, front: string, ext: string)
    requires Harmless(raw) && ByteLen(raw) > 255 && KeptExtension(raw) == ext && KeptFront(raw) == Some(front)
    ensures CleanName(raw) == raw && SanitizeDestinationFilename(raw) == Name(front + ext, Reasons(raw) + [TooLong])
  {
    hide KeptExtension, KeptFront, ByteLen, Reasons, CleanName;
    HarmlessIsClean(raw);
  }

  /** A cut can end on a dot again: the dot of a late, short extension is the last byte kept. */
  lemma CutBringsBackDot(a: string)
    requires Harmless(a + ".b") && '.' !in a && ByteLen(a) == 254
    ensures SanitizeDestinationFilename(a + ".b") == Name(a + ".", Reasons(a + ".b") + [TooLong]) && !Harmless(a + ".")
  {
    hide ByteLen, KeptExtension, KeptFront, Reasons, Contained, SanitizeDestinationFilename, IsWindowsReserved;
    var raw := a + ".b";
    assert raw == a + "." + "b" == (a + ".") + "b";
    OneByte();
    NoBytes();
    ByteLenConcat(a, ".");
    ByteLenConcat(a + ".", "b");
    ExtensionAt(a, "b");
    CutOf(a + ".", "b", []);
    CutName(raw, a + ".", []);
    assert (a + ".") + [] == a + ".";
  }

  lemma OneByte()
    ensures ByteLen(".") == 1 && ByteLen("b") == 1 && ByteLen("CON") == 3 && ByteLen("CONx") == 4
  {
    assert "CONx"[1..] == "ONx" && "ONx"[1..] == "Nx" && "Nx"[1..] == "x" && ByteLen("x") == 1;
    assert "CON"[1..] == "ON" && "ON"[1..] == "N" && ByteLen("N") == 1;
  }

  lemma HarmlessIsClean(name: string)
    requires Harmless(name)
    ensures CleanName(name) == name
  {
    hide Filter, FixDash, FixTail, IsWindowsReserved, HarmlessChar;
    FilterKeeps(name);
    TailUnchanged(name);
    assert FixDash(name) == name by {
      DashUnchanged(name);
    }
  }

  lemma DashUnchanged(name: string)
    requires name != [] ==> name[0] != '-'
    ensures FixDash(name) == name
  {
  }

  /** A cut before a long extension can bring out a reserved name. */
  lemma CutBringsOutReserved(rest: string)
    requires Harmless("CONx." + rest) && '.' !in rest && ByteLen(rest) == 251
    ensures SanitizeDestinationFilename("CONx." + rest)
            == Name("CON" + ("." + rest), Reasons("CONx." + rest) + [TooLong])
    ensures IsWindowsReserved("CON" + ("." + rest))
  {
    hide ByteLen, KeptExtension, KeptFront, Reasons, Harmless, SanitizeDestinationFilename, Stem, UpperAll;
    var raw, ext := "CONx." + rest, "." + rest;
    assert raw == "CONx" + "." + rest && raw == "CONx" + ext && raw == "CON" + ("x" + ext);
    OneByte();
    ByteLenConcat("CONx", ext);
    ByteLenConcat(".", rest);
    ExtensionAt("CONx", rest);
    CutOf("CON", "x" + ext, ext);
    CutName(raw, "CON", ext);
    StemOfPrefix("CON", ext);
    UpperCon();
  }

  lemma UpperCon()
    ensures UpperAll("CON") == "CON"
  {
  }

  lemma CutEnds(clean: string)
    requires KeptFront(clean).Some?
    ensures var front, ext := KeptFront(clean).value, KeptExtension(clean);
            && (ext == [] ==> front != [] && front + ext == front)
            && (ext != [] ==> (front + ext)[|front + ext| - 1] == clean[|clean| - 1])
  {
    hide KeptExtension;
    NoBytes();
  }

  lemma {:induction false} FilterKeeps(s: string)
    requires AllHarmless(s)
    ensures Filter(s) == s
  {
    if s != [] {
      FilterKeeps(s[1..]);
      HarmlessCharIff(s[0]);
      assert s == [s[0]] + s[1..];
    }
  }

  lemma TailUnchanged(s: string)
    requires s != [] ==> !IsDotOrSpace(s[|s| - 1])
    ensures FixTail(s) == s
  {
    var t := TrimEnd(s, IsDotOrSpace);
    assert t == s;
  }

  // Names that need no attention come through as they are, with no reason.
  lemma HarmlessUnchanged(name: string)
    requires Harmless(name) && ByteLen(name) <= 255
    ensures SanitizeDestinationFilename(name) == Name(name, [])
  {
    FilterKeeps(name);
    TailUnchanged(name);
    assert FixDash(name) == name && FixReserved(name) == name;
    hide Filter, FixDash, FixTail, FixReserved, ByteLen, IsWindowsReserved;
  }

  /**
   The names the sanitiser leaves alone, without a reason, are exactly the harmless ones of at most 255
   bytes. Sanitising again changes nothing, unless the name had to be cut and the cut is not harmless.
   */
  lemma FixedPoints(name: string)
    requires NoSeparator(name)
    ensures SanitizeDestinationFilename(name) == Name(name, []) <==> Harmless(name) && ByteLen(name) <= 255
    ensures var r := SanitizeDestinationFilename(name);
            r.Name? ==> (SanitizeDestinationFilename(r.text) == Name(r.text, []) <==> Harmless(r.text))
                        && (!IsCut(name) ==> Harmless(r.text))
  {
    hide SanitizeDestinationFilename, Harmless, Contained, ByteLen, IsCut;
    var r := SanitizeDestinationFilename(name);
    FixedPointIff(name);
    if r.Name? {
      SanitizedIsHarmless(name);
      ContainedNoSeparator(r.text);
      FixedPointIff(r.text);
    }
  }

  lemma ContainedNoSeparator(name: string)
    requires Contained(name)
    ensures NoSeparator(name)
  {
  }

  lemma FixedPointIff(name: string)
    requires NoSeparator(name)
    ensures SanitizeDestinationFilename(name) == Name(name, []) <==> Harmless(name) && ByteLen(name) <= 255
  {
    hide Harmless, Contained, ByteLen, CleanName, KeptFront, KeptExtension, Reasons;
    if SanitizeDestinationFilename(name) == Name(name, []) {
      SanitizedIsHarmless(name);
      assert !IsCut(name);
    }
    if Harmless(name) && ByteLen(name) <= 255 {
      HarmlessUnchanged(name);
    }
  }

  /* How long a clean name can get */

  lemma {:induction false} ByteLenConcat(a: string, b: string)
    ensures ByteLen(a + b) == ByteLen(a) + ByteLen(b)
    decreases |a|
  {
    if a == [] {
      assert a + b == b;
    } else {
      assert (a + b)[1..] == a[1..] + b;
      ByteLenConcat(a[1..], b);
    }
  }

  lemma {:induction false} FilterShorter(raw: string)
    ensures ByteLen(Filter(raw)) <= ByteLen(raw)
  {
    if raw != [] {
      var front := if IsBidiControl(raw[0]) then [] else if IsControl(raw[0]) then "_" else [raw[0]];
      FilterShorter(raw[1..]);
      ByteLenConcat(front, Filter(raw[1..]));
      assert ByteLen(front) <= Utf8Len(raw[0]) by {
        if front != [] {
          assert front[1..] == [];
        }
      }
    }
  }

  lemma ShortText()
    ensures ByteLen("_") == 1 && ByteLen("safe_") == 5
  {
    assert ByteLen("e_"[1..]) == 1;
    assert "safe_"[1..] == "afe_" && "afe_"[1..] == "fe_" && "fe_"[1..] == "e_" && "e_"[1..] == "_";
    assert ByteLen("e_") == 2;
    assert ByteLen("fe_") == 3;
    assert ByteLen("afe_") == 4;
  }

  /** A segment of at most 249 bytes is never cut. */
  lemma ShortNeverCut(raw: string)
    requires ByteLen(raw) <= 249
    ensures !IsCut(raw) && SanitizeDestinationFilename(raw).Name?
  {
    hide ByteLen, Filter, Reasons, IsWindowsReserved, TrimEnd, KeptExtension, KeptFront;
    var a := Filter(raw);
    var b := FixDash(a);
    var t := TrimEnd(b, IsDotOrSpace);
    FilterShorter(raw);
    ShortText();
    ByteLenConcat("_", a);
    ByteLenPrefix(t, b);
    ByteLenConcat(t, "_");
    ByteLenConcat("safe_", FixTail(b));
  }

  // Only a leading dash or a reserved name makes a name longer.
  lemma CleanLonger(raw: string)
    requires NoSeparator(raw) && ByteLen(CleanName(raw)) > ByteLen(raw)
    ensures var b := FixDash(Filter(raw));
            (Filter(raw) != [] && Filter(raw)[0] == '-') || IsWindowsReserved(FixTail(b))
  {
    hide ByteLen, Filter, IsWindowsReserved, TrimEnd;
    var a := Filter(raw);
    var b := FixDash(a);
    var t := TrimEnd(b, IsDotOrSpace);
    FilterShorter(raw);
    ShortText();
    ByteLenPrefix(t, b);
    ByteLenConcat(t, "_");
    if t != b {
      assert b == t + b[|t|..];
      ByteLenConcat(t, b[|t|..]);
      ManyCharacters(b[|t|..]);
    }
  }

  lemma FilterFixed(raw: string)
    requires NoSeparator(raw) && AllHarmless(raw)
    ensures Filter(raw) == raw
  {
    FilterKeeps(raw);
  }

  lemma ReservedHead(name: string)
    requires IsWindowsReserved(name)
    ensures name != [] && name[0] != '.' && name[0] != 's' && name[0] != '_'
  {
    ReservedIsShort(name);
    assert name != [] && Stem(name)[0] == name[0] && UpperAll(Stem(name))[0] == Upper(name[0]);
    forall r | r in RESERVED
      ensures r[0] in {'C', 'P', 'A', 'N', 'L'}
    {
    }
  }

  // A cut name is never the raw name.
  lemma CutChanges(raw: string)
    requires NoSeparator(raw) && IsCut(raw) && KeptFront(CleanName(raw)).Some?
    ensures KeptFront(CleanName(raw)).value + KeptExtension(CleanName(raw)) != raw
  {
    hide ByteLen, Filter, IsWindowsReserved, KeptFront, KeptExtension, TrimEnd, HarmlessChar;
    var clean := CleanName(raw);
    var front, ext := KeptFront(clean).value, KeptExtension(clean);
    CleanIsHarmless(raw);
    CutIsContained(clean);
    if front + ext == raw {
      FilterFixed(raw);
      CleanLonger(raw);
      ReservedHead(FixTail(raw));
      FixTailHead(raw);
      CutHead(clean);
      assert false;
    }
  }

  lemma FixTailHead(s: string)
    ensures s != [] && FixTail(s) != [] ==> FixTail(s)[0] == s[0] || FixTail(s)[0] == '_'
  {
    hide ByteLen;
  }

  // A cut name starts like the clean one, or with the dot of its extension.
  lemma CutHead(clean: string)
    requires KeptFront(clean).Some? && ByteLen(clean) > 255
    ensures var text := KeptFront(clean).value + KeptExtension(clean);
            text != [] && (text[0] == clean[0] || text[0] == '.')
  {
    hide KeptExtension;
    NoBytes();
  }

  /* Sanitising a path */

  // `split(['/', '\'])`: the pieces between separators, empty ones included.
  function Split(s: string): (parts: seq<string>)
    ensures parts != [] && forall i | 0 <= i < |parts| :: NoSeparator(parts[i])
  {
    if s == [] then [[]]
    else if IsSeparator(s[0]) then [[]] + Split(s[1..])
    else
      var rest := Split(s[1..]);
      [[s[0]] + rest[0]] + rest[1..]
  }

  // What a segment contributes to the path.
  datatype SegmentResult = Skipped | Traversal | Panicking | Component(name: string)

  function Segment(seg: string): SegmentResult {
    var t := Trim(seg);
    if t == [] || t == "." then Skipped
    else if t == ".." then Traversal
    else
      var s := SanitizeDestinationFilename(t);
      if s.Panics? then Panicking
      // Pushing an empty name adds no component.
      else if s.text == [] then Skipped
      else Component(s.text)
  }

  datatype PathResult = Path(components: seq<string>) | Refused | Panicked

  datatype Renamed = Renamed(original: string, sanitized: string, reasons: seq<Reason>)

  // The components of the segments, up to the first that ends the walk.
  function Components(segs: seq<string>): PathResult {
    if segs == [] then Path([]) else
      match Segment(segs[0])
      case Skipped => Components(segs[1..])
      case Traversal => Refused
      case Panicking => Panicked
      case Component(name) =>
        var rest := Components(segs[1..]);
        if rest.Path? then Path([name] + rest.components) else rest
  }

  // The pieces of the path without its leading separators.
  function Segments(path: string): seq<string> {
    Split(TrimStart(TrimStart(path, c => c == '/'), c => c == '\\'))
  }

  function RelativePath(path: string): PathResult {
    var r := Components(Segments(path));
    if r.Path? && r.components == [] then Refused else r
  }

  lemma TrimNoSeparator(s: string)
    requires NoSeparator(s)
    ensures NoSeparator(Trim(s))
  {
    var t := TrimStart(s, IsWhitespace);
    forall i | 0 <= i < |t|
      ensures !IsSeparator(t[i])
    {
      assert t[i] in t;
    }
  }

  /** A reason is given exactly for the names that did change, although later steps might undo earlier ones. */
  lemma ReasonIffRenamed(raw: string)
    requires NoSeparator(raw)
    ensures var r := SanitizeDestinationFilename(raw);
            r.Name? ==> (r.reasons != [] <==> r.text != raw)
  {
    hide Harmless, Contained, ByteLen, CleanName, Reasons, KeptFront, KeptExtension;
    if IsCut(raw) {
      if KeptFront(CleanName(raw)).Some? {
        CutChanges(raw);
      }
    } else {
      CleanIsHarmless(raw);
      NoReasonNoChange(raw);
      if CleanName(raw) == raw {
        HarmlessUnchanged(raw);
      }
    }
  }

  lemma NoReasonNoChange(raw: string)
    ensures Reasons(raw) == [] ==> CleanName(raw) == raw
  {
    hide Filter, FixDash, FixTail, IsWindowsReserved, ByteLen;
  }

  // The renames recorded on the way, up to where the walk ends.
  function Renames(segs: seq<string>): seq<Renamed> {
    if segs == [] then [] else
      var t := Trim(segs[0]);
      if t == [] || t == "." then Renames(segs[1..])
      else if t == ".." then []
      else
        var s := SanitizeDestinationFilename(t);
        if s.Panics? then []
        else (if s.reasons != [] then [Renamed(t, s.text, s.reasons)] else []) + Renames(segs[1..])
  }

  // The segments that name something, as they stand in the path.
  function Named(segs: seq<string>): seq<string> {
    if segs == [] then [] else
      (if Trim(segs[0]) == [] || Trim(segs[0]) == "." then [] else [Trim(segs[0])]) + Named(segs[1..])
  }

  /** The record is complete: a path for which no rename was recorded is released under its own names. */
  lemma {:induction false} NothingRenamedSilently(segs: seq<string>)
    requires (forall i | 0 <= i < |segs| :: NoSeparator(segs[i])) && Components(segs).Path?
    ensures forall k | 0 <= k < |Renames(segs)| :: Renames(segs)[k].original != Renames(segs)[k].sanitized
    ensures Renames(segs) == [] <==> Components(segs).components == Named(segs)
    ensures |Components(segs).components| <= |Named(segs)|
  {
    hide Trim, SanitizeDestinationFilename, NoSeparator;
    if segs != [] {
      NothingRenamedSilently(segs[1..]);
      TrimNoSeparator(segs[0]);
      ReasonIffRenamed(Trim(segs[0]));
      var names, rest := Components(segs).components, Named(segs[1..]);
      if Segment(segs[0]).Component? {
        assert names == [names[0]] + names[1..];
        assert Named(segs) == [Trim(segs[0])] + rest && Named(segs)[1..] == rest;
      }
    }
  }

  method SanitizeRelativePath(path: string, renames: seq<Renamed>) returns (r: PathResult, renames': seq<Renamed>)
    ensures r == RelativePath(path)
    ensures renames' == renames + Renames(Segments(path))
  {
    hide Split, Trim, TrimStart, SanitizeDestinationFilename;
    var clean := TrimStart(TrimStart(path, c => c == '/'), c => c == '\\');
    var segments := Split(clean);
    var out: seq<string> := [];
    renames' := renames;
    for k := 0 to |segments|
      invariant renames' + Renames(segments[k..]) == renames + Renames(segments)
      invariant Components(segments) ==
                  var rest := Components(segments[k..]);
                  if rest.Path? then Path(out + rest.components) else rest
    {
      assert segments[k..][1..] == segments[k + 1..];
      var trimmed := Trim(segments[k]);
      if trimmed == [] || trimmed == "." {
        continue;
      }
      if trimmed == ".." {
        return Refused, renames';
      }
      var s := SanitizeDestinationFilename(trimmed);
      if s.Panics? {
        return Panicked, renames';
      }
      if s.reasons != [] {
        ConcatAssociative(renames', [Renamed(trimmed, s.text, s.reasons)], Renames(segments[k + 1..]));
        renames' := renames' + [Renamed(trimmed, s.text, s.reasons)];
      }
      if s.text != [] {
        out := out + [s.text];
      }
    }
    r := if out == [] then Refused else Path(out);
  }

  /* The path stays under the root */

  lemma SegmentContained(seg: string)
    requires NoSeparator(seg)
    ensures Segment(seg).Component? ==> Segment(seg).name != [] && Contained(Segment(seg).name)
    ensures Segment(seg).Component? && !IsCut(Trim(seg)) ==> Harmless(Segment(seg).name)
  {
    hide SanitizeDestinationFilename, Harmless, Contained, Trim, IsCut;
    TrimNoSeparator(seg);
    var t := Trim(seg);
    if SanitizeDestinationFilename(t).Name? {
      SanitizedIsHarmless(t);
    }
  }

  ghost predicate AllContained(names: seq<string>) {
    forall i | 0 <= i < |names| :: names[i] != [] && Contained(names[i])
  }

  ghost predicate AllHarmlessNames(names: seq<string>) {
    forall i | 0 <= i < |names| :: Harmless(names[i])
  }

  lemma {:induction false} ComponentsContained(segs: seq<string>)
    requires forall i | 0 <= i < |segs| :: NoSeparator(segs[i])
    ensures Components(segs).Path? ==> AllContained(Components(segs).components)
    ensures Components(segs).Path? && (forall i | 0 <= i < |segs| :: !IsCut(Trim(segs[i])))
            ==> AllHarmlessNames(Components(segs).components)
  {
    hide Segment, Harmless, Contained, NoSeparator, IsCut, Trim;
    if segs != [] {
      SegmentContained(segs[0]);
      ComponentsContained(segs[1..]);
    }
  }

  // Lexical resolution of a path: `.` stays, `..` goes up.
  function Resolve(components: seq<string>): seq<string> {
    if components == [] then [] else
      var n := |components| - 1;
      var front := Resolve(components[..n]);
      if components[n] == "." then front
      else if components[n] == ".." then (if front == [] then [] else front[..|front| - 1])
      else front + [components[n]]
  }

  lemma {:induction false} ResolveContained(root: seq<string>, names: seq<string>)
    requires AllContained(names)
    ensures Resolve(root + names) == Resolve(root) + names
    decreases |names|
  {
    if names == [] {
      assert root + names == root;
    } else {
      var n := |names| - 1;
      var all := root + names;
      assert all[..|all| - 1] == root + names[..n] && all[|all| - 1] == names[n];
      ResolveContained(root, names[..n]);
      assert Contained(names[n]);
      assert names == names[..n] + [names[n]];
    }
  }

  /**
   Whatever the path read from the disk, a released path has at least one component, all of them
   contained, and joined to any root it resolves to a place strictly under that root. When no segment had to
   be cut all components are harmless.
   */
  lemma ReleasedPathStaysUnderRoot(path: string, root: seq<string>)
    requires RelativePath(path).Path?
    ensures var names := RelativePath(path).components;
            && names != [] && AllContained(names)
            && Resolve(root + names) == Resolve(root) + names
            && ((forall i | 0 <= i < |Segments(path)| :: !IsCut(Trim(Segments(path)[i]))) ==> AllHarmlessNames(names))
  {
    hide Contained, Harmless, IsCut, Trim, Segments;
    SegmentsPlain(path);
    ComponentsContained(Segments(path));
    ResolveContained(root, RelativePath(path).components);
  }

  lemma SegmentsPlain(path: string)
    ensures forall i | 0 <= i < |Segments(path)| :: NoSeparator(Segments(path)[i])
  {
  }

  // Some segment panics before any that trims to `..`.
  ghost predicate PanicsFirst(segs: seq<string>) {
    exists k :: 0 <= k < |segs| && SanitizeDestinationFilename(Trim(segs[k])).Panics?
                && forall j | 0 <= j < k :: Trim(segs[j]) != ".."
  }

  lemma PanicsFirstStep(segs: seq<string>)
    requires segs != []
    ensures PanicsFirst(segs) <==>
              SanitizeDestinationFilename(Trim(segs[0])).Panics? || (Trim(segs[0]) != ".." && PanicsFirst(segs[1..]))
  {
    hide Trim, SanitizeDestinationFilename;
    var rest := segs[1..];
    if k :| 0 <= k < |segs| && SanitizeDestinationFilename(Trim(segs[k])).Panics?
            && forall j | 0 <= j < k :: Trim(segs[j]) != ".." {
      if k > 0 {
        assert rest[k - 1] == segs[k] && forall j | 0 <= j < k - 1 :: rest[j] == segs[j + 1];
      }
    }
    if Trim(segs[0]) != ".." && PanicsFirst(rest) {
      var k :| 0 <= k < |rest| && SanitizeDestinationFilename(Trim(rest[k])).Panics?
               && forall j | 0 <= j < k :: Trim(rest[j]) != "..";
      assert segs[k + 1] == rest[k] && forall j | 0 < j < k + 1 :: segs[j] == rest[j - 1];
    }
  }

  lemma DotsNeverPanic()
    ensures !SanitizeDestinationFilename([]).Panics?
    ensures !SanitizeDestinationFilename(".").Panics?
    ensures !SanitizeDestinationFilename("..").Panics?
  {
    hide SanitizeDestinationFilename;
    ByteLenDots();
    NoBytes();
    ShortNeverCut([]);
    ShortNeverCut(".");
    ShortNeverCut("..");
  }

  lemma NothingPanics()
    ensures !PanicsFirst([])
  {
  }

  lemma {:induction false} ComponentsPanicIff(segs: seq<string>)
    ensures Components(segs).Panicked? <==> PanicsFirst(segs)
  {
    hide Trim, SanitizeDestinationFilename, PanicsFirst;
    if segs == [] {
      NothingPanics();
    } else {
      DotsNeverPanic();
      PanicsFirstStep(segs);
      ComponentsPanicIff(segs[1..]);
    }
  }

  /** Releasing a path panics if and only if some segment panics before any that trims to `..`. */
  lemma PathPanicsIff(path: string)
    ensures RelativePath(path).Panicked? <==> PanicsFirst(Segments(path))
  {
    ComponentsPanicIff(Segments(path));
  }

  /** A path with a segment that trims to `..` is never released: it is refused, unless an earlier segment panics. */
  lemma {:induction false} TraversalNeverReleased(segs: seq<string>, k: nat)
    requires k < |segs| && Trim(segs[k]) == ".."
    ensures !Components(segs).Path?
    ensures Components(segs).Refused? <==> !PanicsFirst(segs)
  {
    hide Trim, SanitizeDestinationFilename, PanicsFirst;
    ComponentsPanicIff(segs);
    if k > 0 {
      TraversalNeverReleased(segs[1..], k - 1);
    }
  }

  /* Device names */

  // CON, PRN, AUX, NUL, and COM and LPT with a digit from 1 to 9.
  predicate IsDevice(dev: string) {
    || dev == "CON" || dev == "PRN" || dev == "AUX" || dev == "NUL"
    || (|dev| == 4 && (dev[..3] == "COM" || dev[..3] == "LPT") && '1' <= dev[3] <= '9')
  }

  // The upper-case text `dev`, with any of its letters in lower case.
  predicate Spells(s: string, dev: string) {
    |s| == |dev| && forall i | 0 <= i < |s| ::
        s[i] == dev[i] || ('A' <= dev[i] <= 'Z' && s[i] as int == dev[i] as int + 32)
  }

  lemma ReservedIsDevice(s: string)
    ensures s in RESERVED <==> IsDevice(s)
  {
    if s in RESERVED {
      AllDevices(s);
    }
    if IsDevice(s) && |s| == 4 {
      assert s == s[..3] + [s[3]];
      Numbered(s[3]);
    }
  }

  lemma AllDevices(s: string)
    requires s in RESERVED
    ensures IsDevice(s)
  {
    if |s| == 4 {
      assert s[..3] == [s[0], s[1], s[2]];
    }
  }

  lemma Numbered(c: char)
    requires '1' <= c <= '9'
    ensures "COM" + [c] in RESERVED && "LPT" + [c] in RESERVED
  {
    if c == '1' {
      assert "COM" + [c] == "COM1" && "LPT" + [c] == "LPT1";
    } else if c == '2' {
      assert "COM" + [c] == "COM2" && "LPT" + [c] == "LPT2";
    } else if c == '3' {
      assert "COM" + [c] == "COM3" && "LPT" + [c] == "LPT3";
    } else if c == '4' {
      assert "COM" + [c] == "COM4" && "LPT" + [c] == "LPT4";
    } else if c == '5' {
      assert "COM" + [c] == "COM5" && "LPT" + [c] == "LPT5";
    } else if c == '6' {
      assert "COM" + [c] == "COM6" && "LPT" + [c] == "LPT6";
    } else if c == '7' {
      assert "COM" + [c] == "COM7" && "LPT" + [c] == "LPT7";
    } else if c == '8' {
      assert "COM" + [c] == "COM8" && "LPT" + [c] == "LPT8";
    } else if c == '9' {
      assert "COM" + [c] == "COM9" && "LPT" + [c] == "LPT9";
    }
  }

  lemma DeviceLetters(dev: string)
    requires IsDevice(dev)
    ensures forall i | 0 <= i < |dev| :: 'A' <= dev[i] <= 'Z' || '1' <= dev[i] <= '9'
  {
    if |dev| == 4 {
      assert dev == dev[..3] + [dev[3]];
      assert dev[0] == dev[..3][0] && dev[1] == dev[..3][1] && dev[2] == dev[..3][2];
    }
  }

  /** A name is taken for reserved exactly when its text before the first dot spells a device, in any case. */
  lemma ReservedIff(name: string)
    ensures IsWindowsReserved(name) <==> exists dev :: IsDevice(dev) && Spells(Stem(name), dev)
  {
    hide RESERVED, IsDevice, Stem;
    var stem, up := Stem(name), UpperAll(Stem(name));
    ReservedIsDevice(up);
    if IsDevice(up) {
      DeviceLetters(up);
      assert forall i | 0 <= i < |stem| :: up[i] == Upper(stem[i]);
      assert Spells(stem, up);
    }
    forall dev | IsDevice(dev) && Spells(stem, dev)
      ensures dev == up
    {
      DeviceLetters(dev);
      assert forall i | 0 <= i < |stem| :: up[i] == Upper(stem[i]);
    }
  }

  // The text before the first dot.
  lemma {:induction false} StemIsFront(name: string)
    ensures '.' !in Stem(name) && Stem(name) <= name
    ensures Stem(name) == name || name[|Stem(name)|] == '.'
  {
    if name != [] && name[0] != '.' {
      StemIsFront(name[1..]);
    }
  }

  // Where the length of a character in UTF-8 changes.
  lemma Utf8Lengths()
    ensures Utf8Len('\U{0}') == Utf8Len('\U{7F}') == 1
    ensures Utf8Len('\U{80}') == Utf8Len('\U{7FF}') == 2
    ensures Utf8Len('\U{800}') == Utf8Len('\U{FFFF}') == 3
    ensures Utf8Len('\U{10000}') == Utf8Len('\U{10FFFF}') == 4
  {
  }

  /* Leading separators */

  lemma SeparatorSkipped(c: char, s: string)
    requires c == '/' || c == '\\'
    ensures Components(Split([c] + s)) == Components(Split(s))
  {
    hide Split, SanitizeDestinationFilename;
    SplitFront(c, s);
    assert ([[]] + Split(s))[1..] == Split(s);
    assert Segment([]) == Skipped;
  }

  lemma SplitFront(c: char, s: string)
    requires c == '/' || c == '\\'
    ensures Split([c] + s) == [[]] + Split(s)
  {
    assert ([c] + s)[1..] == s;
  }

  lemma {:induction false} SeparatorsSkipped(s: string, c: char)
    requires c == '/' || c == '\\'
    ensures Components(Split(TrimStart(s, x => x == c))) == Components(Split(s))
  {
    hide Split, Components;
    if s != [] && s[0] == c {
      assert s == [c] + s[1..];
      SeparatorSkipped(c, s[1..]);
      SeparatorsSkipped(s[1..], c);
    }
  }

  /** Leading separators make no difference: the result is that of all pieces between separators. */
  lemma LeadingSeparators(path: string)
    ensures Components(Segments(path)) == Components(Split(path))
  {
    hide Split, Components, TrimStart;
    SeparatorsSkipped(path, '/');
    SeparatorsSkipped(TrimStart(path, x => x == '/'), '\\');
    SameTrims(path);
  }

  lemma SameTrims(path: string)
    ensures Segments(path) == Split(TrimStart(TrimStart(path, x => x == '/'), x => x == '\\'))
  {
    hide Split;
  }
}
