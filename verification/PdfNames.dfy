/** Matching PDF names: src/scan/pdf.rs, after section 7.3.5 of ISO 32000-1. */
module PdfNames {
  import opened Bytes

  const SLASH: byte := 0x2F
  const HASH: byte := 0x23

  // What ends a name token. Unlike the standard, the scanner does not count the percent sign.
  predicate IsDelimiter(b: byte) {
    b in {0x20, 0x09, 0x0A, 0x0C, 0x0D, 0x2F, 0x3C, 0x3E, 0x5B, 0x5D, 0x28, 0x29, 0x7B, 0x7D, 0x00}
  }

  // The first delimiter at or after `from`, or the end.
  function TokenEnd(data: seq<byte>, from: nat): (e: nat)
    requires from <= |data|
    ensures from <= e <= |data|
    ensures forall k | from <= k < e :: !IsDelimiter(data[k])
    ensures e < |data| ==> IsDelimiter(data[e])
    decreases |data| - from
  {
    if from == |data| || IsDelimiter(data[from]) then from else TokenEnd(data, from + 1)
  }

  function HexValue(b: byte): (r: Option<nat>)
    ensures r.Some? ==> r.value < 16
  {
    if 0x30 <= b <= 0x39 then Some(b - 0x30)
    else if 0x61 <= b <= 0x66 then Some(b - 0x61 + 10)
    else if 0x41 <= b <= 0x46 then Some(b - 0x41 + 10)
    else None
  }

  // A well-formed #xx escape stands at the front.
  predicate IsEscape(raw: seq<byte>) {
    |raw| > 2 && raw[0] == HASH && HexValue(raw[1]).Some? && HexValue(raw[2]).Some?
  }

  // The name with its #xx escapes decoded; a malformed escape stays as it is.
  function Decode(raw: seq<byte>): (name: seq<byte>)
    ensures |name| <= |raw|
  {
    if raw == [] then []
    else if IsEscape(raw) then [16 * HexValue(raw[1]).value + HexValue(raw[2]).value] + Decode(raw[3..])
    else [raw[0]] + Decode(raw[1..])
  }

  // One turn of the decoder, at `i`.
  lemma DecodeTurn(raw: seq<byte>, i: nat)
    requires i < |raw|
    ensures Decode(raw[i..]) ==
      if raw[i] == HASH && i + 2 < |raw| && HexValue(raw[i + 1]).Some? && HexValue(raw[i + 2]).Some?
      then [16 * HexValue(raw[i + 1]).value + HexValue(raw[i + 2]).value] + Decode(raw[i + 3..])
      else [raw[i]] + Decode(raw[i + 1..])
  {
    hide HexValue;
    var rest := raw[i..];
    assert rest[1..] == raw[i + 1..];
    if i + 2 < |raw| {
      assert rest[3..] == raw[i + 3..];
    }
  }

  method NormalizePdfName(raw: seq<byte>) returns (out: seq<byte>)
    ensures out == Decode(raw)
  {
    hide Decode, HexValue;
    out := [];
    var i: nat := 0;
    assert raw[0..] == raw;
    while i < |raw|
      invariant i <= |raw| && out + Decode(raw[i..]) == Decode(raw)
      decreases |raw| - i
    {
      DecodeTurn(raw, i);
      if raw[i] == HASH && i + 2 < |raw| {
        var n1, n2 := HexValue(raw[i + 1]), HexValue(raw[i + 2]);
        if n1.Some? && n2.Some? {
          var b: byte := 16 * n1.value + n2.value;
          ConcatAssociative(out, [b], Decode(raw[i + 3..]));
          out := out + [b];
          i := i + 3;
          continue;
        }
      }
      ConcatAssociative(out, [raw[i]], Decode(raw[i + 1..]));
      out := out + [raw[i]];
      i := i + 1;
    }
    assert raw[i..] == [];
  }

  /** The declarative reading: the maximal name token at `p`, decoded, is the pattern. */
  predicate NameToken(data: seq<byte>, p: nat, pattern: seq<byte>) {
    p < |data| && data[p] == SLASH && Decode(data[p..TokenEnd(data, p + 1)]) == pattern
  }

  ghost predicate HasToken(data: seq<byte>, pattern: seq<byte>) {
    exists p: nat :: NameToken(data, p, pattern)
  }

  // A slash, then bytes that are neither delimiters nor the escape sign, like every pattern the scanner uses.
  predicate PlainPattern(pattern: seq<byte>) {
    pattern != [] && pattern[0] == SLASH
      && forall k | 1 <= k < |pattern| :: !IsDelimiter(pattern[k]) && pattern[k] != HASH
  }

  predicate RawMatch(data: seq<byte>, pattern: seq<byte>, i: nat) {
    && i + |pattern| <= |data| && data[i..i + |pattern|] == pattern
    && (i + |pattern| < |data| ==> IsDelimiter(data[i + |pattern|]))
  }

  // What either of the two scans accepts.
  ghost predicate Matched(data: seq<byte>, pattern: seq<byte>) {
    HasToken(data, pattern) || exists i: nat :: RawMatch(data, pattern, i)
  }

  lemma {:induction false} DecodePlain(raw: seq<byte>)
    requires forall k | 0 <= k < |raw| :: raw[k] != HASH
    ensures Decode(raw) == raw
  {
    if raw != [] {
      DecodePlain(raw[1..]);
      assert raw == [raw[0]] + raw[1..];
    }
  }

  lemma {:induction false} TokenEndUnique(data: seq<byte>, from: nat, e: nat)
    requires from <= e <= |data| && (forall k | from <= k < e :: !IsDelimiter(data[k]))
             && (e < |data| ==> IsDelimiter(data[e]))
    ensures TokenEnd(data, from) == e
    decreases e - from
  {
    if from < e {
      TokenEndUnique(data, from + 1, e);
    }
  }

  /** The first, raw scan adds nothing: whatever it accepts is a token the second scan accepts. */
  lemma RawMatchIsToken(data: seq<byte>, pattern: seq<byte>, i: nat)
    requires PlainPattern(pattern) && RawMatch(data, pattern, i)
    ensures NameToken(data, i, pattern)
  {
    var e := i + |pattern|;
    forall k | 0 <= k < |pattern|
      ensures data[i + k] == pattern[k]
    {
      assert data[i..e][k] == pattern[k];
    }
    forall k | i + 1 <= k < e
      ensures !IsDelimiter(data[k])
    {
      assert data[k] == pattern[k - i];
    }
    TokenEndUnique(data, i + 1, e);
    DecodePlain(pattern);
  }

  // The first scan: the pattern itself, followed by a delimiter or the end.
  method RawScan(data: seq<byte>, pattern: seq<byte>) returns (r: bool)
    requires |pattern| <= |data|
    ensures r <==> exists i: nat :: RawMatch(data, pattern, i)
  {
    hide IsDelimiter;
    for i := 0 to |data| - |pattern| + 1
      invariant forall j: nat | j < i :: !RawMatch(data, pattern, j)
    {
      if data[i..i + |pattern|] == pattern {
        var next := i + |pattern|;
        if next >= |data| || IsDelimiter(data[next]) {
          assert RawMatch(data, pattern, i);
          return true;
        }
      }
    }
    r := false;
  }

  // Nothing inside a token is a slash, so no other token starts there.
  lemma NoTokenInside(data: seq<byte>, pattern: seq<byte>, start: nat, p: nat)
    requires start < |data| && start < p < TokenEnd(data, start + 1)
    ensures !NameToken(data, p, pattern)
  {
    assert IsDelimiter(SLASH);
  }

  // The second scan: every maximal name token, decoded.
  method TokenScan(data: seq<byte>, pattern: seq<byte>) returns (r: bool)
    ensures r <==> HasToken(data, pattern)
  {
    hide Decode, IsDelimiter, NameToken, TokenEnd;
    var idx: nat := 0;
    while idx < |data|
      invariant idx <= |data|
      invariant forall p: nat | p < idx :: !NameToken(data, p, pattern)
      decreases |data| - idx
    {
      TokenAt(data, pattern, idx);
      if data[idx] == SLASH {
        var start := idx;
        var end := FindTokenEnd(data, start + 1);
        var normalized := NormalizePdfName(data[start..end]);
        if normalized == pattern {
          return true;
        }
        forall p: nat | start < p < end
          ensures !NameToken(data, p, pattern)
        {
          NoTokenInside(data, pattern, start, p);
        }
        idx := end;
      } else {
        idx := idx + 1;
      }
    }
    NoTokenBeyond(data, pattern);
    r := false;
  }

  method FindTokenEnd(data: seq<byte>, from: nat) returns (end: nat)
    requires from <= |data|
    ensures end == TokenEnd(data, from)
  {
    end := from;
    while end < |data| && !IsDelimiter(data[end])
      invariant from <= end <= |data| && TokenEnd(data, from) == TokenEnd(data, end)
    {
      end := end + 1;
    }
  }

  lemma TokenAt(data: seq<byte>, pattern: seq<byte>, p: nat)
    requires p < |data|
    ensures NameToken(data, p, pattern) <==> data[p] == SLASH && Decode(data[p..TokenEnd(data, p + 1)]) == pattern
  {
  }

  lemma NoTokenBeyond(data: seq<byte>, pattern: seq<byte>)
    ensures forall p: nat | p >= |data| :: !NameToken(data, p, pattern)
    ensures |pattern| > |data| ==> !HasToken(data, pattern)
  {
  }

  /** For the scanner's patterns, the two scans together find exactly the tokens that decode to the pattern. */
  method MatchesPdfToken(data: seq<byte>, pattern: seq<byte>) returns (r: bool)
    requires pattern != []
    ensures PlainPattern(pattern) ==> (r <==> HasToken(data, pattern))
    ensures r <==> Matched(data, pattern)
  {
    hide PlainPattern, NameToken;
    if |pattern| > |data| {
      NoTokenBeyond(data, pattern);
      return false;
    }
    var raw := RawScan(data, pattern);
    if raw {
      if PlainPattern(pattern) {
        var i: nat :| RawMatch(data, pattern, i);
        RawMatchIsToken(data, pattern, i);
      }
      return true;
    }
    r := TokenScan(data, pattern);
  }

  /* Escaping a name cannot hide it */

  // How one byte of a name is spelt: itself, or an escape with upper- or lower-case digits.
  datatype Spelling = Plain | Escaped(upper1: bool, upper2: bool)

  function HexDigit(n: nat, upper: bool): (b: byte)
    requires n < 16
    ensures HexValue(b) == Some(n) && !IsDelimiter(b)
  {
    if n < 10 then 0x30 + n else if upper then 0x41 + n - 10 else 0x61 + n - 10
  }

  function SpellByte(b: byte, s: Spelling): (raw: seq<byte>)
    ensures raw != []
  {
    match s
    case Plain => [b]
    case Escaped(u1, u2) => [HASH, HexDigit(b / 16, u1), HexDigit(b % 16, u2)]
  }

  function Spell(name: seq<byte>, how: seq<Spelling>): seq<byte>
    requires |how| == |name|
  {
    if name == [] then [] else SpellByte(name[0], how[0]) + Spell(name[1..], how[1..])
  }

  // Delimiters and the escape sign itself have to be escaped.
  predicate Spellable(name: seq<byte>, how: seq<Spelling>) {
    |how| == |name| && forall k | 0 <= k < |name| :: how[k].Plain? ==> !IsDelimiter(name[k]) && name[k] != HASH
  }

  /** Decoding undoes every spelling. */
  lemma {:induction false} DecodeUndoesSpelling(name: seq<byte>, how: seq<Spelling>)
    requires Spellable(name, how)
    ensures Decode(Spell(name, how)) == name
    ensures forall k | 0 <= k < |Spell(name, how)| :: !IsDelimiter(Spell(name, how)[k])
  {
    hide Decode, SpellByte, IsDelimiter;
    if name != [] {
      DecodeUndoesSpelling(name[1..], how[1..]);
      SpeltByte(name[0], how[0], Spell(name[1..], how[1..]));
      assert name == [name[0]] + name[1..];
    } else {
      assert Spell(name, how) == [];
    }
  }

  // A spelt byte decodes to itself, whatever follows, and holds no delimiter.
  lemma SpeltByte(b: byte, s: Spelling, rest: seq<byte>)
    requires s.Plain? ==> !IsDelimiter(b) && b != HASH
    ensures Decode(SpellByte(b, s) + rest) == [b] + Decode(rest)
    ensures forall k | 0 <= k < |SpellByte(b, s)| :: !IsDelimiter(SpellByte(b, s)[k])
  {
    var raw := SpellByte(b, s) + rest;
    assert raw[|SpellByte(b, s)|..] == rest;
    if s.Escaped? {
      assert IsEscape(raw);
    }
  }

  /** A name is found wherever it stands and however it is spelt. */
  lemma SpeltNameFound(pre: seq<byte>, name: seq<byte>, how: seq<Spelling>, post: seq<byte>)
    requires Spellable(name, how) && (post != [] ==> IsDelimiter(post[0]))
    ensures HasToken(pre + [SLASH] + Spell(name, how) + post, [SLASH] + name)
  {
    hide Decode, Spell, IsDelimiter, TokenEnd;
    var spelt := Spell(name, how);
    var data := pre + [SLASH] + spelt + post;
    DecodeUndoesSpelling(name, how);
    var p := |pre|;
    var e := p + 1 + |spelt|;
    assert data[p..e] == [SLASH] + spelt;
    assert forall k | p + 1 <= k < e :: data[k] == spelt[k - p - 1];
    TokenEndUnique(data, p + 1, e);
    DecodeSlash(spelt);
    assert NameToken(data, p, [SLASH] + name);
  }

  lemma DecodeSlash(raw: seq<byte>)
    ensures Decode([SLASH] + raw) == [SLASH] + Decode(raw)
  {
    assert ([SLASH] + raw)[1..] == raw;
  }

  /* Where the scanner departs from the standard */

  const PERCENT: byte := 0x25

  // What ends a name by section 7.2.2 of ISO 32000-1: white space, and the delimiters ( ) < > [ ] { } / and %.
  predicate IsStandardDelimiter(b: byte) {
    || b == 0x00 || b == 0x09 || b == 0x0A || b == 0x0C || b == 0x0D || b == 0x20
    || b == 0x28 || b == 0x29 || b == 0x3C || b == 0x3E || b == 0x5B || b == 0x5D || b == 0x7B || b == 0x7D
    || b == 0x2F || b == 0x25
  }

  lemma OnlyPercentDiffers(b: byte)
    ensures IsStandardDelimiter(b) <==> IsDelimiter(b) || b == PERCENT
  {
  }

  function StandardEnd(data: seq<byte>, from: nat): (e: nat)
    requires from <= |data|
    ensures from <= e <= |data|
    ensures forall k | from <= k < e :: !IsStandardDelimiter(data[k])
    ensures e < |data| ==> IsStandardDelimiter(data[e])
    decreases |data| - from
  {
    if from == |data| || IsStandardDelimiter(data[from]) then from else StandardEnd(data, from + 1)
  }

  // The standard's name at `p`, decoded, is the pattern.
  predicate StandardToken(data: seq<byte>, p: nat, pattern: seq<byte>) {
    p < |data| && data[p] == SLASH && Decode(data[p..StandardEnd(data, p + 1)]) == pattern
  }

  // A percent sign ends the name at `p`, as the start of a comment does.
  predicate EndedByPercent(data: seq<byte>, p: nat)
    requires p < |data|
  {
    var e := StandardEnd(data, p + 1);
    e < |data| && data[e] == PERCENT
  }

  // Decoding leaves a percent sign in the name.
  lemma {:induction false} PercentSurvives(raw: seq<byte>, k: nat)
    requires k < |raw| && raw[k] == PERCENT
    ensures PERCENT in Decode(raw)
    decreases |raw|
  {
    if IsEscape(raw) {
      assert k >= 3;
      assert raw[3..][k - 3] == PERCENT;
      PercentSurvives(raw[3..], k - 3);
    } else if k > 0 {
      assert raw[1..][k - 1] == PERCENT;
      PercentSurvives(raw[1..], k - 1);
    }
  }

  // Up to the first percent sign the two ends agree.
  lemma {:induction false} EndsAgree(data: seq<byte>, from: nat)
    requires from <= |data|
    ensures StandardEnd(data, from) <= TokenEnd(data, from)
    ensures StandardEnd(data, from) == TokenEnd(data, from)
            <==> !(StandardEnd(data, from) < |data| && data[StandardEnd(data, from)] == PERCENT)
    decreases |data| - from
  {
    hide IsDelimiter, IsStandardDelimiter;
    PercentIsRegular();
    if from < |data| {
      OnlyPercentDiffers(data[from]);
      if !IsDelimiter(data[from]) && data[from] != PERCENT {
        EndsAgree(data, from + 1);
      }
    }
  }

  lemma PercentIsRegular()
    ensures !IsDelimiter(PERCENT)
  {
  }

  lemma TokenAgrees(data: seq<byte>, p: nat, pattern: seq<byte>)
    requires PERCENT !in pattern && p < |data|
    ensures NameToken(data, p, pattern) <==> StandardToken(data, p, pattern) && !EndedByPercent(data, p)
  {
    hide IsDelimiter, Decode;
    var e, e' := TokenEnd(data, p + 1), StandardEnd(data, p + 1);
    EndsAgree(data, p + 1);
    if EndedByPercent(data, p) {
      var raw := data[p..e];
      assert raw[e' - p] == PERCENT;
      PercentSurvives(raw, e' - p);
    }
  }

  /**
   For patterns without a percent sign the token scan finds exactly the standard's names that no percent
   sign ends; a name that a comment follows at once is missed. For plain patterns that is all the scanner finds.
   */
  lemma FoundIffNotEndedByPercent(data: seq<byte>, pattern: seq<byte>)
    requires PERCENT !in pattern
    ensures HasToken(data, pattern)
            <==> exists p: nat :: p < |data| && StandardToken(data, p, pattern) && !EndedByPercent(data, p)
    ensures PlainPattern(pattern) ==> (Matched(data, pattern) <==> HasToken(data, pattern))
  {
    hide NameToken, StandardToken, EndedByPercent, PlainPattern, RawMatch;
    if PlainPattern(pattern) {
      forall i: nat | RawMatch(data, pattern, i)
        ensures NameToken(data, i, pattern)
      {
        RawMatchIsToken(data, pattern, i);
      }
    }
    NoTokenBeyond(data, pattern);
    forall p: nat | p < |data|
      ensures NameToken(data, p, pattern) <==> StandardToken(data, p, pattern) && !EndedByPercent(data, p)
    {
      TokenAgrees(data, p, pattern);
    }
  }

  /** A missed name: any pattern with a percent sign right behind it. */
  lemma PercentHides(pattern: seq<byte>, rest: seq<byte>)
    requires PlainPattern(pattern) && PERCENT !in pattern && SLASH !in rest
    ensures var data := pattern + [PERCENT] + rest;
            StandardToken(data, 0, pattern) && !Matched(data, pattern)
  {
    hide IsDelimiter, IsStandardDelimiter, Decode;
    var data := pattern + [PERCENT] + rest;
    PercentIsRegular();
    forall k | 1 <= k < |pattern|
      ensures !IsStandardDelimiter(data[k])
    {
      assert data[k] == pattern[k];
      OnlyPercentDiffers(data[k]);
    }
    OnlyPercentDiffers(PERCENT);
    StandardEndUnique(data, 1, |pattern|);
    assert data[0..|pattern|] == pattern;
    DecodePlain(pattern);
    FoundIffNotEndedByPercent(data, pattern);
    forall p: nat | p < |data| && StandardToken(data, p, pattern)
      ensures EndedByPercent(data, p)
    {
      SlashOnlyFirst(pattern, rest, p);
    }
  }

  lemma {:induction false} StandardEndUnique(data: seq<byte>, from: nat, e: nat)
    requires from <= e < |data| && (forall k | from <= k < e :: !IsStandardDelimiter(data[k]))
             && IsStandardDelimiter(data[e])
    ensures StandardEnd(data, from) == e
    decreases e - from
  {
    if from < e {
      StandardEndUnique(data, from + 1, e);
    }
  }

  lemma SlashOnlyFirst(pattern: seq<byte>, rest: seq<byte>, p: nat)
    requires PlainPattern(pattern) && SLASH !in rest
    requires p < |pattern + [PERCENT] + rest| && (pattern + [PERCENT] + rest)[p] == SLASH
    ensures p == 0
  {
    assert IsDelimiter(SLASH);
  }
}
