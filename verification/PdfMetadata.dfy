/** Blanking and detecting document-information tags in PDF bytes: src/egress/metadata.rs. */
module PdfMetadata {
  import opened Bytes

  const SPACE: byte := 0x20
  const SLASH: byte := 0x2F

  const AUTHOR: seq<byte> := [0x2F, 0x41, 0x75, 0x74, 0x68, 0x6F, 0x72]
  const CREATOR: seq<byte> := [0x2F, 0x43, 0x72, 0x65, 0x61, 0x74, 0x6F, 0x72]
  const PRODUCER: seq<byte> := [0x2F, 0x50, 0x72, 0x6F, 0x64, 0x75, 0x63, 0x65, 0x72]
  const CREATION_DATE: seq<byte> := [0x2F, 0x43, 0x72, 0x65, 0x61, 0x74, 0x69, 0x6F, 0x6E, 0x44, 0x61, 0x74, 0x65]
  const MOD_DATE: seq<byte> := [0x2F, 0x4D, 0x6F, 0x64, 0x44, 0x61, 0x74, 0x65]

  const TAGS: seq<seq<byte>> := [AUTHOR, CREATOR, PRODUCER, CREATION_DATE, MOD_DATE]

  predicate TagAt(s: seq<byte>, tag: seq<byte>, p: nat) {
    p + |tag| <= |s| && s[p..p + |tag|] == tag
  }

  // What ends a field: a line feed, a carriage return or the next slash.
  predicate IsStop(b: byte) {
    b == 0x0A || b == 0x0D || b == SLASH
  }

  // The first stop at or after `from`, or the end.
  function FieldEnd(s: seq<byte>, from: nat): (e: nat)
    requires from <= |s|
    ensures from <= e <= |s|
    ensures forall k | from <= k < e :: !IsStop(s[k])
    ensures e < |s| ==> IsStop(s[e])
    decreases |s| - from
  {
    if from == |s| || IsStop(s[from]) then from else FieldEnd(s, from + 1)
  }

  // Position `k` belongs to the field that the tag at `p` starts.
  predicate FieldCovers(s: seq<byte>, tag: seq<byte>, p: nat, k: nat) {
    TagAt(s, tag, p) && p <= k < FieldEnd(s, p + |tag|)
  }

  ghost predicate InField(s: seq<byte>, tags: seq<seq<byte>>, k: nat) {
    exists t, p: nat :: 0 <= t < |tags| && FieldCovers(s, tags[t], p, k)
  }

  // `out` is `s` with exactly the fields of the tags blanked.
  ghost predicate IsBlanked(out: seq<byte>, s: seq<byte>, tags: seq<seq<byte>>) {
    && |out| == |s|
    && forall k | 0 <= k < |s| :: out[k] == if InField(s, tags, k) then SPACE else s[k]
  }

  // A slash, then neither stops nor spaces.
  predicate TagShape(tag: seq<byte>) {
    && tag != [] && tag[0] == SLASH
    && forall i | 1 <= i < |tag| :: !IsStop(tag[i]) && tag[i] != SPACE
  }

  predicate TagsShaped(tags: seq<seq<byte>>) {
    forall t | 0 <= t < |tags| :: TagShape(tags[t])
  }

  // No tag is the beginning of another.
  predicate PrefixFree(tags: seq<seq<byte>>) {
    forall t, u | 0 <= t < |tags| && 0 <= u < |tags| && t != u :: !(tags[t] <= tags[u])
  }

  lemma TagsGood()
    ensures TagsShaped(TAGS) && PrefixFree(TAGS)
  {
    assert AUTHOR[1] == 0x41 && PRODUCER[1] == 0x50 && MOD_DATE[1] == 0x4D && CREATOR[1] == 0x43
           && CREATION_DATE[1] == 0x43;
    assert CREATOR[6] == 0x6F && CREATION_DATE[6] == 0x69;
  }

  lemma TagBytes(s: seq<byte>, tag: seq<byte>, p: nat, i: nat)
    requires TagAt(s, tag, p) && i < |tag|
    ensures s[p + i] == tag[i]
  {
    assert s[p..p + |tag|][i] == tag[i];
  }

  // A field holds no stop but its own first slash.
  lemma FieldStops(s: seq<byte>, tag: seq<byte>, p: nat, k: nat)
    requires TagShape(tag) && FieldCovers(s, tag, p, k) && IsStop(s[k])
    ensures k == p
  {
    if p < k < p + |tag| {
      TagBytes(s, tag, p, k - p);
    }
  }

  // Two tags at one place are the same tag.
  lemma SamePlace(s: seq<byte>, tags: seq<seq<byte>>, t: nat, u: nat, p: nat)
    requires PrefixFree(tags) && t < |tags| && u < |tags| && TagAt(s, tags[t], p) && TagAt(s, tags[u], p)
    ensures t == u
  {
  }

  method FindSubsequence(haystack: seq<byte>, needle: seq<byte>) returns (r: Option<nat>)
    ensures r.Some? ==> TagAt(haystack, needle, r.value) && forall q: nat | q < r.value :: !TagAt(haystack, needle, q)
    ensures r.None? && needle != [] ==> forall q: nat :: !TagAt(haystack, needle, q)
  {
    if |needle| == 0 || |needle| > |haystack| {
      return None;
    }
    for p := 0 to |haystack| - |needle| + 1
      invariant forall q: nat | q < p :: !TagAt(haystack, needle, q)
    {
      if haystack[p..p + |needle|] == needle {
        return Some(p);
      }
    }
    r := None;
  }

  /* Blanking one field at a time */

  // Fields of earlier tags, and those of `tag` that start before `bound`, are blanked.
  ghost predicate Done(s: seq<byte>, tags: seq<seq<byte>>, tag: seq<byte>, bound: nat, k: nat) {
    InField(s, tags, k) || exists p: nat :: p < bound && FieldCovers(s, tag, p, k)
  }

  ghost predicate PartlyBlanked(out: seq<byte>, s: seq<byte>, tags: seq<seq<byte>>, tag: seq<byte>, bound: nat) {
    && |out| == |s|
    && forall k | 0 <= k < |s| :: out[k] == if Done(s, tags, tag, bound, k) then SPACE else s[k]
  }

  // Whatever is blanked belongs to some field, of an earlier tag or of this one.
  lemma DoneField(s: seq<byte>, tags: seq<seq<byte>>, tag: seq<byte>, bound: nat, k: nat) returns (t: nat, p: nat)
    requires Done(s, tags, tag, bound, k)
    ensures t <= |tags| && FieldCovers(s, (tags + [tag])[t], p, k) && (t == |tags| ==> p < bound)
  {
    if InField(s, tags, k) {
      t, p :| 0 <= t < |tags| && FieldCovers(s, tags[t], p, k);
    } else {
      t := |tags|;
      p :| p < bound && FieldCovers(s, tag, p, k);
    }
  }

  // No byte of a tag not yet reached has been blanked.
  lemma NotDone(s: seq<byte>, tags: seq<seq<byte>>, tag: seq<byte>, bound: nat, p: nat, i: nat)
    requires TagsShaped(tags + [tag]) && PrefixFree(tags + [tag]) && TagAt(s, tag, p) && bound <= p && i < |tag|
    ensures !Done(s, tags, tag, bound, p + i)
  {
    if Done(s, tags, tag, bound, p + i) {
      var all := tags + [tag];
      var t, q := DoneField(s, tags, tag, bound, p + i);
      assert all[|tags|] == tag && TagShape(all[t]) && TagShape(tag);
      hide TagAt, TagShape, PrefixFree, TagsShaped, FieldCovers;
      OwnSlash(s, all, t, q, tag, p, p + i);
      SamePlace(s, all, t, |tags|, p);
      assert false;
    }
  }

  // A field that reaches into a tag starts where the tag starts.
  lemma OwnSlash(s: seq<byte>, all: seq<seq<byte>>, t: nat, q: nat, tag: seq<byte>, p: nat, k: nat)
    requires t < |all| && TagShape(all[t]) && TagShape(tag)
    requires FieldCovers(s, all[t], q, k) && TagAt(s, tag, p) && p <= k < p + |tag|
    ensures q == p && TagAt(s, all[t], p)
  {
    TagBytes(s, tag, p, 0);
    TagBytes(s, all[t], q, 0);
    if q <= p {
      FieldStops(s, all[t], q, p);
    } else {
      TagBytes(s, tag, p, q - p);
    }
  }

  // A tag of the input not yet reached is still intact in the buffer, and the buffer holds no others.
  lemma TagIntact(out: seq<byte>, s: seq<byte>, tags: seq<seq<byte>>, tag: seq<byte>, bound: nat, p: nat)
    requires TagsShaped(tags + [tag]) && PrefixFree(tags + [tag]) && PartlyBlanked(out, s, tags, tag, bound)
             && bound <= p
    ensures TagAt(out, tag, p) <==> TagAt(s, tag, p)
  {
    assert TagShape((tags + [tag])[|tags|]);
    if TagAt(s, tag, p) {
      forall i | 0 <= i < |tag|
        ensures out[p + i] == tag[i]
      {
        TagBytes(s, tag, p, i);
        NotDone(s, tags, tag, bound, p, i);
      }
      assert out[p..p + |tag|] == tag;
    }
    if TagAt(out, tag, p) {
      TagReal(out, s, tags, tag, bound, p);
    }
  }

  lemma TagReal(out: seq<byte>, s: seq<byte>, tags: seq<seq<byte>>, tag: seq<byte>, bound: nat, p: nat)
    requires TagShape(tag) && PartlyBlanked(out, s, tags, tag, bound) && TagAt(out, tag, p)
    ensures TagAt(s, tag, p)
  {
    forall i | 0 <= i < |tag|
      ensures s[p + i] == tag[i]
    {
      TagBytes(out, tag, p, i);
    }
    assert s[p..p + |tag|] == tag;
  }

  // Beyond the field's end in the input, the buffer reads on only across what is already blanked.
  lemma RunsOverBlanks(out: seq<byte>, s: seq<byte>, tags: seq<seq<byte>>, tag: seq<byte>, bound: nat, p: nat,
                       end: nat, k: nat)
    requires TagsShaped(tags + [tag]) && PartlyBlanked(out, s, tags, tag, bound)
    requires TagAt(s, tag, p) && p + |tag| <= end <= |s| && forall j | p + |tag| <= j < end :: !IsStop(out[j])
    requires |out| == |s| && FieldEnd(s, p + |tag|) <= k < end
    ensures Done(s, tags, tag, bound, k)
  {
    hide Done, PartlyBlanked, InField;
    var all := tags + [tag];
    // The last stop of the input at or before `k`.
    var j := k;
    while !IsStop(s[j])
      invariant FieldEnd(s, p + |tag|) <= j <= k && forall i | j < i <= k :: !IsStop(s[i])
      decreases j
    {
      j := j - 1;
    }
    ChangedIsDone(out, s, tags, tag, bound, j);
    var t, q := DoneField(s, tags, tag, bound, j);
    assert TagShape(all[t]);
    FieldStops(s, all[t], q, j);
    assert FieldCovers(s, all[t], q, k);
    DoneBy(s, tags, tag, bound, t, q, k);
  }

  lemma ChangedIsDone(out: seq<byte>, s: seq<byte>, tags: seq<seq<byte>>, tag: seq<byte>, bound: nat, j: nat)
    requires PartlyBlanked(out, s, tags, tag, bound) && j < |s| && out[j] != s[j]
    ensures Done(s, tags, tag, bound, j)
  {
  }

  lemma DoneBy(s: seq<byte>, tags: seq<seq<byte>>, tag: seq<byte>, bound: nat, t: nat, p: nat, k: nat)
    requires t <= |tags| && FieldCovers(s, (tags + [tag])[t], p, k) && (t == |tags| ==> p < bound)
    ensures Done(s, tags, tag, bound, k)
  {
    if t < |tags| {
      assert FieldCovers(s, tags[t], p, k);
    }
  }

  // Blanking up to the buffer's next stop is blanking the field.
  lemma BlankStep(out: seq<byte>, out': seq<byte>, s: seq<byte>, tags: seq<seq<byte>>, tag: seq<byte>, bound: nat,
                  p: nat, end: nat)
    requires TagsShaped(tags + [tag]) && PrefixFree(tags + [tag]) && PartlyBlanked(out, s, tags, tag, bound)
    requires bound <= p && TagAt(out, tag, p) && forall q: nat | bound <= q < p :: !TagAt(out, tag, q)
    requires end == FieldEnd(out, p + |tag|)
    requires |out'| == |out| && forall k | 0 <= k < |out| :: out'[k] == if p <= k < end then SPACE else out[k]
    ensures PartlyBlanked(out', s, tags, tag, end)
  {
    TagIntact(out, s, tags, tag, bound, p);
    forall k | 0 <= k < |s|
      ensures Done(s, tags, tag, end, k) <==> Done(s, tags, tag, bound, k) || p <= k < end
    {
      if p <= k < end && !Done(s, tags, tag, bound, k) {
        if FieldEnd(s, p + |tag|) <= k {
          RunsOverBlanks(out, s, tags, tag, bound, p, end, k);
        }
        assert FieldCovers(s, tag, p, k);
      }
      if Done(s, tags, tag, end, k) && !Done(s, tags, tag, bound, k) {
        var q: nat :| q < end && FieldCovers(s, tag, q, k);
        NewField(out, s, tags, tag, bound, p, end, q);
        FieldWithin(out, s, tags, tag, bound, p, end, k);
      }
      if Done(s, tags, tag, bound, k) && !InField(s, tags, k) {
        var q: nat :| q < bound && FieldCovers(s, tag, q, k);
        assert q < end;
      }
    }
  }

  // The only field of `tag` starting between `bound` and `end` starts at `p`.
  lemma NewField(out: seq<byte>, s: seq<byte>, tags: seq<seq<byte>>, tag: seq<byte>, bound: nat, p: nat, end: nat,
                 q: nat)
    requires TagsShaped(tags + [tag]) && PrefixFree(tags + [tag]) && PartlyBlanked(out, s, tags, tag, bound)
    requires bound <= p && TagAt(out, tag, p) && forall q: nat | bound <= q < p :: !TagAt(out, tag, q)
    requires end == FieldEnd(out, p + |tag|) && bound <= q < end && TagAt(s, tag, q)
    ensures q == p
  {
    TagIntact(out, s, tags, tag, bound, q);
    assert TagShape((tags + [tag])[|tags|]);
    if q > p {
      TagBytes(out, tag, q, 0);
      if q < p + |tag| {
        TagBytes(out, tag, p, q - p);
      }
      assert false;
    }
  }

  // The field of the input ends no later than the buffer's next stop.
  lemma FieldWithin(out: seq<byte>, s: seq<byte>, tags: seq<seq<byte>>, tag: seq<byte>, bound: nat, p: nat, end: nat,
                    k: nat)
    requires TagsShaped(tags + [tag]) && PartlyBlanked(out, s, tags, tag, bound)
    requires TagAt(out, tag, p) && end == FieldEnd(out, p + |tag|) && FieldCovers(s, tag, p, k)
    ensures k < end
  {
  }

  /* The stripper */

  // `for b in &mut out[from..to] { *b = b' ' }`
  method BlankRange(out: array<byte>, from: nat, to: nat)
    requires from <= to <= out.Length
    modifies out
    ensures forall k | 0 <= k < out.Length :: out[k] == if from <= k < to then SPACE else old(out[k])
  {
    for k := from to to
      invariant forall j | 0 <= j < out.Length :: out[j] == if from <= j < k then SPACE else old(out[j])
    {
      out[k] := SPACE;
    }
  }

  // The inner loops of `strip_pdf_metadata`: one tag over the whole buffer.
  method BlankTag(out: array<byte>, tag: seq<byte>, ghost s: seq<byte>, ghost tags: seq<seq<byte>>)
    requires TagsShaped(tags + [tag]) && PrefixFree(tags + [tag]) && tag != []
    requires IsBlanked(out[..], s, tags)
    modifies out
    ensures IsBlanked(out[..], s, tags + [tag])
  {
    hide TagsShaped, PrefixFree, PartlyBlanked, IsBlanked, TagAt, IsStop;
    var start: nat := 0;
    StartTag(out[..], s, tags, tag);
    while true
      invariant start <= out.Length && PartlyBlanked(out[..], s, tags, tag, start)
      decreases out.Length - start
    {
      var found := FindSubsequence(out[start..], tag);
      ghost var before := out[..];
      assert out[start..] == before[start..];
      if found.None? {
        FinishTag(before, s, tags, tag, start);
        return;
      }
      var pos := start + found.value;
      FirstFrom(before, tag, start, found.value);
      var end := pos + |tag|;
      while end < out.Length && !IsStop(out[end])
        invariant pos + |tag| <= end <= out.Length
        invariant FieldEnd(before, end) == FieldEnd(before, pos + |tag|)
      {
        end := end + 1;
      }
      BlankRange(out, pos, end);
      BlankStep(before, out[..], s, tags, tag, start, pos, end);
      start := end;
    }
  }

  lemma StartTag(out: seq<byte>, s: seq<byte>, tags: seq<seq<byte>>, tag: seq<byte>)
    requires IsBlanked(out, s, tags)
    ensures PartlyBlanked(out, s, tags, tag, 0)
  {
  }

  // A search from `start` finds the first tag from there on.
  lemma FirstFrom(s: seq<byte>, tag: seq<byte>, start: nat, p: nat)
    requires start <= |s| && TagAt(s[start..], tag, p) && forall q: nat | q < p :: !TagAt(s[start..], tag, q)
    ensures TagAt(s, tag, start + p) && forall q: nat | start <= q < start + p :: !TagAt(s, tag, q)
  {
    assert s[start..][p..p + |tag|] == s[start + p..start + p + |tag|];
    forall q: nat | start <= q < start + p
      ensures !TagAt(s, tag, q)
    {
      if TagAt(s, tag, q) {
        assert s[start..][q - start..q - start + |tag|] == s[q..q + |tag|];
        assert TagAt(s[start..], tag, q - start);
        assert false;
      }
    }
  }

  lemma TagAfter(s: seq<byte>, tag: seq<byte>, start: nat, q: nat)
    requires start <= q && TagAt(s, tag, q)
    ensures TagAt(s[start..], tag, q - start)
  {
    assert s[start..][q - start..q - start + |tag|] == s[q..q + |tag|];
  }

  lemma FinishTag(out: seq<byte>, s: seq<byte>, tags: seq<seq<byte>>, tag: seq<byte>, start: nat)
    requires TagsShaped(tags + [tag]) && PrefixFree(tags + [tag]) && PartlyBlanked(out, s, tags, tag, start)
    requires start <= |out| && forall q: nat :: !TagAt(out[start..], tag, q)
    ensures IsBlanked(out, s, tags + [tag])
  {
    forall q: nat
      ensures TagAt(s, tag, q) ==> q < start
    {
      if TagAt(s, tag, q) && start <= q {
        TagIntact(out, s, tags, tag, start, q);
        TagAfter(out, tag, start, q);
        assert false;
      }
    }
    var all := tags + [tag];
    forall k | 0 <= k < |s|
      ensures InField(s, all, k) <==> Done(s, tags, tag, start, k)
    {
      if Done(s, tags, tag, start, k) {
        var t, p := DoneField(s, tags, tag, start, k);
        assert FieldCovers(s, all[t], p, k);
      }
      if InField(s, all, k) {
        var t, p: nat :| 0 <= t < |all| && FieldCovers(s, all[t], p, k);
        if t < |tags| {
          assert FieldCovers(s, tags[t], p, k);
        } else {
          assert FieldCovers(s, tag, p, k);
        }
      }
    }
  }

  /**
   Exactly the fields that the five tags start in the input are blanked, each up to its line end or the
   next slash, in whatever order and overlap they come.
   */
  method StripPdfMetadata(data: seq<byte>) returns (out: array<byte>)
    ensures fresh(out) && IsBlanked(out[..], data, TAGS)
  {
    hide IsBlanked, TagsShaped, PrefixFree;
    out := new byte[|data|](i requires 0 <= i < |data| => data[i]);
    assert out[..] == data;
    NothingBlanked(data);
    for k := 0 to |TAGS|
      invariant IsBlanked(out[..], data, TAGS[..k])
    {
      NextTag(k);
      BlankTag(out, TAGS[k], data, TAGS[..k]);
    }
    assert TAGS[..|TAGS|] == TAGS;
  }

  lemma NothingBlanked(data: seq<byte>)
    ensures IsBlanked(data, data, TAGS[..0])
  {
  }

  lemma NextTag(k: nat)
    requires k < |TAGS|
    ensures TAGS[..k] + [TAGS[k]] == TAGS[..k + 1] && TAGS[k] != []
    ensures TagsShaped(TAGS[..k + 1]) && PrefixFree(TAGS[..k + 1])
  {
    TagsGood();
  }

  method CheckPdfMetadata(data: seq<byte>) returns (found: seq<nat>)
    ensures forall t: nat :: t in found <==> t < |TAGS| && exists p: nat :: TagAt(data, TAGS[t], p)
  {
    found := [];
    for t := 0 to |TAGS|
      invariant forall u: nat :: u in found <==> u < t && exists p: nat :: TagAt(data, TAGS[u], p)
    {
      var r := FindSubsequence(data, TAGS[t]);
      if r.Some? {
        found := found + [t];
      }
    }
  }

  lemma FieldStartBlank(out: seq<byte>, data: seq<byte>, tags: seq<seq<byte>>, t: nat, p: nat)
    requires IsBlanked(out, data, tags) && t < |tags| && tags[t] != [] && TagAt(data, tags[t], p)
    ensures out[p] == SPACE
  {
    assert FieldCovers(data, tags[t], p, p);
  }

  /** No tag is left anywhere: blanking never joins bytes into a new one. */
  lemma NoTagLeft(out: seq<byte>, data: seq<byte>, tags: seq<seq<byte>>, t: nat, p: nat)
    requires TagsShaped(tags) && IsBlanked(out, data, tags) && t < |tags|
    ensures !TagAt(out, tags[t], p)
  {
    if TagAt(out, tags[t], p) {
      var tag := tags[t];
      forall i | 0 <= i < |tag|
        ensures data[p + i] == tag[i]
      {
        TagBytes(out, tag, p, i);
      }
      assert data[p..p + |tag|] == tag;
      TagBytes(out, tag, p, 0);
      FieldStartBlank(out, data, tags, t, p);
      assert false;
    }
  }

  /** So stripping is idempotent, and it keeps every line break. */
  lemma StripIdempotent(once: seq<byte>, twice: seq<byte>, data: seq<byte>)
    requires IsBlanked(once, data, TAGS) && IsBlanked(twice, once, TAGS)
    ensures twice == once
    ensures forall k | 0 <= k < |data| :: data[k] == 0x0A || data[k] == 0x0D ==> once[k] == data[k]
  {
    TagsGood();
    forall k | 0 <= k < |once|
      ensures !InField(once, TAGS, k)
    {
      if InField(once, TAGS, k) {
        var t, p: nat :| 0 <= t < |TAGS| && FieldCovers(once, TAGS[t], p, k);
        NoTagLeft(once, data, TAGS, t, p);
        assert false;
      }
    }
    forall k | 0 <= k < |data| && (data[k] == 0x0A || data[k] == 0x0D)
      ensures once[k] == data[k]
    {
      if InField(data, TAGS, k) {
        var t, p: nat :| 0 <= t < |TAGS| && FieldCovers(data, TAGS[t], p, k);
        FieldStops(data, TAGS[t], p, k);
        assert false;
      }
    }
  }

  /* A written field */

  function Ascii(text: string): (b: seq<byte>)
    requires forall k | 0 <= k < |text| :: text[k] < 128 as char
    ensures |b| == |text|
  {
    seq(|text|, k requires 0 <= k < |text| => text[k] as int)
  }

  // The tags of the document information dictionary, section 14.3.3 of ISO 32000-1, that are blanked.
  lemma TagNames()
    ensures AUTHOR == Ascii("/Author") && CREATOR == Ascii("/Creator") && PRODUCER == Ascii("/Producer")
    ensures CREATION_DATE == Ascii("/CreationDate") && MOD_DATE == Ascii("/ModDate")
    ensures TAGS == [AUTHOR, CREATOR, PRODUCER, CREATION_DATE, MOD_DATE]
  {
  }

  predicate NoSlash(s: seq<byte>) {
    forall k | 0 <= k < |s| :: s[k] != 0x2F
  }

  // A value on one line: neither a line feed, a carriage return nor a slash.
  predicate OneLine(s: seq<byte>) {
    forall k | 0 <= k < |s| :: s[k] != 0x0A && s[k] != 0x0D && s[k] != 0x2F
  }

  lemma {:induction false} FieldEndUnique(s: seq<byte>, from: nat, e: nat)
    requires from <= e < |s| && (forall k | from <= k < e :: !IsStop(s[k])) && IsStop(s[e])
    ensures FieldEnd(s, from) == e
    decreases e - from
  {
    if from < e {
      FieldEndUnique(s, from + 1, e);
    }
  }

  /** A tag and its value are blanked to the end of the line, and nothing else is, the line end included. */
  lemma FieldBlanked(pre: seq<byte>, t: nat, value: seq<byte>, stop: byte, post: seq<byte>, out: seq<byte>)
    requires NoSlash(pre) && t < |TAGS| && OneLine(value) && (stop == 0x0A || stop == 0x0D) && NoSlash(post)
    requires IsBlanked(out, pre + TAGS[t] + value + [stop] + post, TAGS)
    ensures out == pre + seq(|TAGS[t]| + |value|, _ => 0x20) + [stop] + post
  {
    hide FieldEnd, TAGS, InField;
    var tag := TAGS[t];
    var s := pre + tag + value + [stop] + post;
    forall k: nat | k < |s|
      ensures InField(s, TAGS, k) <==> |pre| <= k < |pre| + |tag| + |value|
    {
      OneField(pre, t, value, stop, post, k);
    }
    assert s == pre + (tag + value) + ([stop] + post);
  }

  lemma OneField(pre: seq<byte>, t: nat, value: seq<byte>, stop: byte, post: seq<byte>, k: nat)
    requires NoSlash(pre) && t < |TAGS| && OneLine(value) && (stop == 0x0A || stop == 0x0D) && NoSlash(post)
    ensures InField(pre + TAGS[t] + value + [stop] + post, TAGS, k) <==> |pre| <= k < |pre| + |TAGS[t]| + |value|
  {
    hide FieldEnd, TAGS, FieldCovers, TagAt, NoSlash, OneLine, TagShape;
    TagsGood();
    var tag := TAGS[t];
    var s := pre + tag + value + [stop] + post;
    TagHere(pre, tag, value, stop, post);
    ValueEnds(pre, tag, value, stop, post);
    if |pre| <= k < |pre| + |tag| + |value| {
      CoveredBy(s, tag, |pre|, k);
    }
    forall u, p: nat | 0 <= u < |TAGS| && FieldCovers(s, TAGS[u], p, k)
      ensures u == t && p == |pre|
    {
      CoversTag(s, TAGS[u], p, k);
      assert TagShape(TAGS[u]) && TagShape(TAGS[t]);
      SlashHere(s, TAGS[u], p);
      OnlySlash(pre, tag, value, stop, post, p);
      SamePlace(s, TAGS, t, u, p);
    }
    if InField(s, TAGS, k) {
      var u, p: nat :| 0 <= u < |TAGS| && FieldCovers(s, TAGS[u], p, k);
      CoversTag(s, TAGS[u], p, k);
    }
  }

  lemma TagHere(pre: seq<byte>, tag: seq<byte>, value: seq<byte>, stop: byte, post: seq<byte>)
    ensures TagAt(pre + tag + value + [stop] + post, tag, |pre|)
  {
  }

  lemma SlashHere(s: seq<byte>, tag: seq<byte>, p: nat)
    requires TagShape(tag) && TagAt(s, tag, p)
    ensures p < |s| && s[p] == 0x2F
  {
    TagBytes(s, tag, p, 0);
  }

  lemma CoveredBy(s: seq<byte>, tag: seq<byte>, p: nat, k: nat)
    requires TagAt(s, tag, p) && p <= k < FieldEnd(s, p + |tag|)
    ensures FieldCovers(s, tag, p, k)
  {
  }

  lemma CoversTag(s: seq<byte>, tag: seq<byte>, p: nat, k: nat)
    requires FieldCovers(s, tag, p, k)
    ensures TagAt(s, tag, p) && p <= k < FieldEnd(s, p + |tag|)
  {
  }

  lemma ValueEnds(pre: seq<byte>, tag: seq<byte>, value: seq<byte>, stop: byte, post: seq<byte>)
    requires OneLine(value) && (stop == 0x0A || stop == 0x0D)
    ensures FieldEnd(pre + tag + value + [stop] + post, |pre| + |tag|) == |pre| + |tag| + |value|
  {
    var s := pre + tag + value + [stop] + post;
    var e := |pre| + |tag| + |value|;
    forall k | |pre| + |tag| <= k < e
      ensures !IsStop(s[k])
    {
      assert s[k] == value[k - |pre| - |tag|];
    }
    FieldEndUnique(s, |pre| + |tag|, e);
  }

  lemma OnlySlash(pre: seq<byte>, tag: seq<byte>, value: seq<byte>, stop: byte, post: seq<byte>, p: nat)
    requires NoSlash(pre) && TagShape(tag) && OneLine(value) && stop != 0x2F && NoSlash(post)
    requires var s := pre + tag + value + [stop] + post;
             p < |s| && s[p] == 0x2F
    ensures p == |pre|
  {
    BytesOfParts(pre, tag, value, stop, post, p);
  }

  lemma BytesOfParts(pre: seq<byte>, tag: seq<byte>, value: seq<byte>, stop: byte, post: seq<byte>, p: nat)
    requires p < |pre + tag + value + [stop] + post|
    ensures var s, b, c := pre + tag + value + [stop] + post, |pre| + |tag|, |pre| + |tag| + |value|;
            && (p < |pre| ==> s[p] == pre[p]) && (|pre| <= p < b ==> s[p] == tag[p - |pre|])
            && (b <= p < c ==> s[p] == value[p - b]) && (p == c ==> s[p] == stop) && (p > c ==> s[p] == post[p - c - 1])
  {
  }
}
