/** What the name tests of archive inspection mean, in terms of path segments, suffixes and parts. */
module ArchiveNames {
  import opened Bytes
  import opened Archives

  /* Path traversal */

  // The pieces of a name between slashes and backslashes.
  function Segments(name: string): (parts: seq<string>)
    ensures parts != []
  {
    if name == [] then [[]]
    else if name[0] in {'/', '\\'} then [[]] + Segments(name[1..])
    else
      var rest := Segments(name[1..]);
      [[name[0]] + rest[0]] + rest[1..]
  }

  // The name starts with `..`, ended by a separator or by its own end.
  predicate StartsWithDotDot(name: string) {
    |name| >= 2 && name[0] == '.' && name[1] == '.' && (|name| == 2 || IsSlash(name[2]))
  }

  lemma {:induction false} FirstSegment(name: string)
    ensures Segments(name)[0] == [] <==> name == [] || name[0] in {'/', '\\'}
    ensures Segments(name)[0] == "." <==> |name| >= 1 && name[0] == '.' && (|name| == 1 || name[1] in {'/', '\\'})
    ensures Segments(name)[0] == ".." <==> StartsWithDotDot(name)
    decreases |name|
  {
    if name != [] && name[0] !in {'/', '\\'} {
      var rest := Segments(name[1..]);
      FirstSegment(name[1..]);
      Prepend(name[0], rest[0]);
    }
  }

  lemma Prepend(c: char, s: string)
    ensures [c] + s == "." <==> c == '.' && s == []
    ensures [c] + s == ".." <==> c == '.' && s == "."
  {
    var t := [c] + s;
    assert t[1..] == s && t[0] == c;
    assert "."[1..] == [] && ".."[1..] == ".";
    if c == '.' && s == "." {
      assert t == "..";
    }
  }

  // `..` stands at `i`, between separators.
  predicate DotDotAt(name: string, i: nat) {
    StartsWithDotDotAt(name, i) && (i == 0 || IsSlash(name[i - 1]))
  }

  predicate StartsWithDotDotAt(name: string, i: nat) {
    i <= |name| && StartsWithDotDot(name[i..])
  }

  // Some segment behind the first one is `..`.
  lemma {:induction false} LaterSegments(name: string)
    ensures ".." in Segments(name)[1..] <==> exists i :: 0 < i <= |name| && DotDotAt(name, i)
    decreases |name|
  {
    if name != [] {
      var tail := name[1..];
      LaterSegments(tail);
      FirstSegment(tail);
      assert tail[0..] == tail;
      forall i | 0 < i <= |name|
        ensures name[i..] == tail[i - 1..]
      {
      }
      var rest := Segments(tail);
      if name[0] in {'/', '\\'} {
        assert Segments(name)[1..] == rest;
        assert ".." in rest <==> rest[0] == ".." || ".." in rest[1..] by {
          assert rest == [rest[0]] + rest[1..];
        }
        if rest[0] == ".." {
          assert DotDotAt(name, 1);
        }
      } else {
        assert Segments(name)[1..] == rest[1..];
      }
      if i :| 0 < i <= |tail| && DotDotAt(tail, i) {
        assert DotDotAt(name, i + 1);
      }
      if i :| 0 < i <= |name| && DotDotAt(name, i) {
        if i > 1 {
          assert DotDotAt(tail, i - 1);
        }
      }
    }
  }

  lemma HasDotDotIff(name: string)
    ensures HasDotDot(name) <==> exists i :: 0 <= i <= |name| && DotDotAt(name, i)
  {
    hide DotDotAt, IsSlash;
    if HasDotDot(name) {
      DotDotThere(name);
    } else {
      forall i | 0 <= i <= |name|
        ensures !DotDotAt(name, i)
      {
        DotDotAtIs(name, i);
      }
    }
  }

  lemma DotDotThere(name: string)
    requires HasDotDot(name)
    ensures exists i :: 0 <= i <= |name| && DotDotAt(name, i)
  {
    hide DotDotAt, IsSlash;
    var i :| 0 <= i <= |name| - 2 && name[i] == '.' && name[i + 1] == '.'
             && (i == 0 || IsSlash(name[i - 1])) && (i + 2 == |name| || IsSlash(name[i + 2]));
    DotDotAtIs(name, i);
  }

  lemma DotDotAtIs(name: string, i: nat)
    requires i <= |name|
    ensures DotDotAt(name, i) <==>
              && i <= |name| - 2 && name[i] == '.' && name[i + 1] == '.'
              && (i == 0 || IsSlash(name[i - 1])) && (i + 2 == |name| || IsSlash(name[i + 2]))
  {
    hide IsSlash;
    var t := name[i..];
    assert |t| == |name| - i && forall k | 0 <= k < |t| :: t[k] == name[i + k];
  }

  /**
   A name is taken for a traversal if and only if one of its segments is `..`, or it is absolute, holds a
   NUL, or starts with a drive letter.
   */
  lemma TraversalIff(name: string)
    ensures IsPathTraversalEntry(name) <==>
              || ".." in Segments(name)
              || (name != [] && name[0] in {'/', '\\'})
              || (exists i :: 0 <= i < |name| && name[i] as int == 0)
              || (|name| >= 2 && name[1] as int == 58 && (65 <= name[0] as int <= 90 || 97 <= name[0] as int <= 122))
  {
    HasDotDotIff(name);
    LaterSegments(name);
    FirstSegment(name);
    var parts := Segments(name);
    assert ".." in parts <==> parts[0] == ".." || ".." in parts[1..] by {
      assert parts == [parts[0]] + parts[1..];
    }
    assert name[0..] == name;
    assert DotDotAt(name, 0) <==> StartsWithDotDot(name);
  }

  /* Suffixes and parts */

  lemma EndsWithIff(s: string, suffix: string)
    ensures EndsWith(s, suffix) <==> exists stem :: s == stem + suffix
  {
    if EndsWith(s, suffix) {
      assert s == s[..|s| - |suffix|] + suffix;
    }
  }

  lemma ContainsIff(s: string, part: string)
    ensures Contains(s, part) <==> exists a, b :: s == a + part + b
  {
    if i :| 0 <= i <= |s| - |part| && PartAt(s, part, i) {
      assert s == s[..i] + part + s[i + |part|..];
    }
    if a, b :| s == a + part + b {
      assert PartAt(s, part, |a|);
    }
  }

  // Names of archives, and of documents that are archives.
  const ARCHIVE_SUFFIXES: seq<string> :=
    [".zip", ".tar", ".gz", ".tgz", ".7z", ".docx", ".xlsx", ".pptx", ".jar", ".apk"]

  const MACRO_PARTS: seq<string> := ["vbaproject.bin", "vba/", "xl/macrosheets", "word/vba", "xl/vba", "ppt/vba"]
  const MACRO_SUFFIXES: seq<string> := [".vba", ".vbe", "vbadat.bin"]

  predicate HasSuffix(s: string, suffixes: seq<string>) {
    exists k | 0 <= k < |suffixes| :: EndsWith(s, suffixes[k])
  }

  predicate HasPart(s: string, parts: seq<string>) {
    exists k | 0 <= k < |parts| :: Contains(s, parts[k])
  }

  /** The suffixes that make a nested archive, and the parts and suffixes that make a macro, in lower case. */
  lemma NameKinds(name: string, lib: Library)
    ensures IsNestedArchiveName(name, lib) <==> HasSuffix(lib.lower(name), ARCHIVE_SUFFIXES)
    ensures IsMacroName(name, lib)
            <==> HasPart(lib.lower(name), MACRO_PARTS) || HasSuffix(lib.lower(name), MACRO_SUFFIXES)
  {
    hide EndsWith, Contains;
    var l := lib.lower(name);
    var a, p, m := ARCHIVE_SUFFIXES, MACRO_PARTS, MACRO_SUFFIXES;
    assert a[0] == ".zip" && a[1] == ".tar" && a[2] == ".gz" && a[3] == ".tgz" && a[4] == ".7z";
    assert a[5] == ".docx" && a[6] == ".xlsx" && a[7] == ".pptx" && a[8] == ".jar" && a[9] == ".apk";
    assert p[0] == "vbaproject.bin" && p[1] == "vba/" && p[2] == "xl/macrosheets";
    assert p[3] == "word/vba" && p[4] == "xl/vba" && p[5] == "ppt/vba";
    assert m[0] == ".vba" && m[1] == ".vbe" && m[2] == "vbadat.bin";
  }
}
