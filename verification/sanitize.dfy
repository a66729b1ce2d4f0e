/**
 `sanitize_filename`: turns a display name into the base name of an output
 file. It lower-cases the name, deletes every character that is not a word
 character, whitespace or `-`, replaces each run of whitespace and hyphens by
 one `-`, trims hyphens from both ends, and falls back to `unnamed`.
 */
module Sanitize {
  import opened Chars

  const Fallback: string := "unnamed"

  /** The characters of the class `[-\s]`. */
  predicate IsSep(c: char) {
    c == '-' || IsSpace(c)
  }

  /** The characters of `s` that are not separators, in order. */
  function DropSeps(s: string): string {
    if s == [] then [] else (if IsSep(s[0]) then [] else [s[0]]) + DropSeps(s[1..])
  }

  /** The word characters of `s`, in order. (A coherent table has no word
      character that is a separator, so the second test only matters for
      tables that are not.) */
  function WordChars(t: CharTable, s: string): string {
    if s == [] then []
    else (if t.isWord(s[0]) && !IsSep(s[0]) then [s[0]] else []) + WordChars(t, s[1..])
  }

  lemma {:induction false} DropSepsAppend(a: string, b: string)
    ensures DropSeps(a + b) == DropSeps(a) + DropSeps(b)
    decreases |a|
  {
    if a == [] {
      assert a + b == b;
    } else {
      assert (a + b)[1..] == a[1..] + b;
      DropSepsAppend(a[1..], b);
    }
  }

  lemma {:induction false} DropSepsOfSeps(s: string)
    requires forall i :: 0 <= i < |s| ==> IsSep(s[i])
    ensures DropSeps(s) == []
    decreases |s|
  {
    if s != [] {
      DropSepsOfSeps(s[1..]);
    }
  }

  /** `re.sub(r'[^\w\s-]', '', s)`: a word character or a separator is kept,
      anything else is deleted. With `KeepAllowedAppend` this fixes the result
      for every input. */
  function KeepAllowed(t: CharTable, s: string): (r: string)
    ensures forall i :: 0 <= i < |r| ==> t.isWord(r[i]) || IsSep(r[i])
    ensures |s| == 1 && (t.isWord(s[0]) || IsSep(s[0])) ==> r == s
    ensures |s| == 1 && !(t.isWord(s[0]) || IsSep(s[0])) ==> r == []
  {
    if s == [] then []
    else if t.isWord(s[0]) || IsSep(s[0]) then [s[0]] + KeepAllowed(t, s[1..])
    else KeepAllowed(t, s[1..])
  }

  lemma {:induction false} KeepAllowedAppend(t: CharTable, a: string, b: string)
    ensures KeepAllowed(t, a + b) == KeepAllowed(t, a) + KeepAllowed(t, b)
    decreases |a|
  {
    if a == [] {
      assert a + b == b;
    } else {
      assert (a + b)[1..] == a[1..] + b;
      KeepAllowedAppend(t, a[1..], b);
    }
  }

  /** The filter only deletes: what it returns comes from its input. */
  lemma {:induction false} KeepAllowedFromInput(t: CharTable, s: string)
    ensures forall i :: 0 <= i < |KeepAllowed(t, s)| ==> KeepAllowed(t, s)[i] in s
    decreases |s|
  {
    if s != [] {
      KeepAllowedFromInput(t, s[1..]);
      var r := KeepAllowed(t, s);
      var tail := KeepAllowed(t, s[1..]);
      forall i | 0 <= i < |r|
        ensures r[i] in s
      {
        if t.isWord(s[0]) || IsSep(s[0]) {
          assert r == [s[0]] + tail;
          if i > 0 {
            assert r[i] == tail[i - 1];
            assert r[i] in s[1..];
          }
        } else {
          assert r[i] == tail[i];
          assert r[i] in s[1..];
        }
      }
    }
  }

  /** Apart from separators, the filter keeps exactly the word characters. */
  lemma {:induction false} KeepAllowedWords(t: CharTable, s: string)
    ensures DropSeps(KeepAllowed(t, s)) == WordChars(t, s)
    decreases |s|
  {
    if s != [] {
      KeepAllowedWords(t, s[1..]);
      var tail := KeepAllowed(t, s[1..]);
      if t.isWord(s[0]) || IsSep(s[0]) {
        assert ([s[0]] + tail)[1..] == tail;
      }
    }
  }

  /** Drops the leading run of separators. */
  function SkipSeps(s: string): (r: string)
    ensures |r| <= |s| && r == s[|s| - |r|..]
    ensures r == [] || !IsSep(r[0])
    ensures s != [] && IsSep(s[0]) ==> |r| < |s|
    ensures DropSeps(r) == DropSeps(s)
  {
    if s != [] && IsSep(s[0]) then SkipSeps(s[1..]) else s
  }

  /** `re.sub(r'[-\s]+', '-', s)`: every maximal run of separators becomes one
      hyphen, and the other characters stay, in order. */
  function Collapse(s: string): (r: string)
    ensures forall i :: 0 <= i < |r| ==> r[i] == '-' || !IsSep(r[i])
    ensures forall i :: 0 <= i < |r| - 1 ==> !(r[i] == '-' && r[i + 1] == '-')
    ensures s == [] <==> r == []
    ensures r != [] ==> (r[0] == '-' <==> IsSep(s[0]))
    ensures DropSeps(r) == DropSeps(s)
    decreases |s|
  {
    if s == [] then []
    else if IsSep(s[0]) then
      var rest := SkipSeps(s);
      var r := "-" + Collapse(rest);
      assert r[1..] == Collapse(rest);
      r
    else
      var r := [s[0]] + Collapse(s[1..]);
      assert r[1..] == Collapse(s[1..]);
      r
  }

  function StripLeading(s: string): (r: string)
    ensures |r| <= |s| && r == s[|s| - |r|..]
    ensures r == [] || r[0] != '-'
    ensures forall i :: 0 <= i < |s| - |r| ==> s[i] == '-'
  {
    if s != [] && s[0] == '-' then StripLeading(s[1..]) else s
  }

  function StripTrailing(s: string): (r: string)
    ensures |r| <= |s| && r == s[..|r|]
    ensures r == [] || r[|r| - 1] != '-'
    ensures forall i :: |r| <= i < |s| ==> s[i] == '-'
  {
    if s != [] && s[|s| - 1] == '-' then StripTrailing(s[..|s| - 1]) else s
  }

  /** `r` is a contiguous piece of `s` starting at position `k`. */
  ghost predicate PieceAt(r: string, s: string, k: int) {
    0 <= k <= |s| - |r| && r == s[k..k + |r|]
  }

  /** `s.strip('-')`: `s` is a run of hyphens, then the result, then another
      run of hyphens, and the result neither starts nor ends with a hyphen. */
  function StripHyphens(s: string): (r: string)
    ensures PieceAt(r, s, |s| - |StripLeading(s)|)
    ensures forall i :: 0 <= i < |s| - |StripLeading(s)| ==> s[i] == '-'
    ensures forall i :: |s| - |StripLeading(s)| + |r| <= i < |s| ==> s[i] == '-'
    ensures r == [] || (r[0] != '-' && r[|r| - 1] != '-')
  {
    var a := StripLeading(s);
    var b := StripTrailing(a);
    TrimmedPiece(s, a, b);
    b
  }

  /** A prefix of a suffix of `s` is a piece of `s`; hyphens cut off either
      suffix or prefix are hyphens of `s`. */
  lemma TrimmedPiece(s: string, a: string, b: string)
    requires |a| <= |s| && a == s[|s| - |a|..]
    requires |b| <= |a| && b == a[..|b|]
    requires forall i :: |b| <= i < |a| ==> a[i] == '-'
    ensures PieceAt(b, s, |s| - |a|)
    ensures forall i :: |s| - |a| + |b| <= i < |s| ==> s[i] == '-'
  {
    var k := |s| - |a|;
    forall i | k + |b| <= i < |s|
      ensures s[i] == '-'
    {
      assert s[i] == a[i - k];
    }
  }

  /** A character a clean segment may hold. */
  ghost predicate SegmentChar(t: CharTable, c: char) {
    c == '-' || (t.isWord(c) && t.lower(c) == c)
  }

  /** A path segment as the sanitizer produces it: non-empty, made of
      lower-case word characters and single hyphens, not starting or ending with
      a hyphen. */
  ghost predicate Clean(t: CharTable, s: string) {
    && s != []
    && (forall i :: 0 <= i < |s| ==> SegmentChar(t, s[i]))
    && (forall i :: 0 <= i < |s| - 1 ==> !(s[i] == '-' && s[i + 1] == '-'))
    && s[0] != '-' && s[|s| - 1] != '-'
  }

  /** `sanitize_filename(name)`. */
  function Sanitize(t: CharTable, name: string): (r: string)
    ensures r != []
    ensures r[0] != '-' && r[|r| - 1] != '-'
    ensures WordChars(t, Lower(t, name)) == [] ==> r == Fallback
    ensures WordChars(t, Lower(t, name)) != [] ==> DropSeps(r) == WordChars(t, Lower(t, name))
  {
    if name == [] then Fallback
    else
      var lowered := Lower(t, name);
      var kept := KeepAllowed(t, lowered);
      var collapsed := Collapse(kept);
      var stripped := StripHyphens(collapsed);
      KeepAllowedWords(t, lowered);
      StripKeepsWords(collapsed);
      if stripped == [] then Fallback
      else
        StrippedNonEmpty(collapsed);
        stripped
  }

  /** What survives the trimming starts with a character that is no
      separator, so it keeps at least one character of the input. */
  lemma StrippedNonEmpty(s: string)
    requires forall i :: 0 <= i < |s| ==> s[i] == '-' || !IsSep(s[i])
    requires StripHyphens(s) != []
    ensures DropSeps(StripHyphens(s)) != []
  {
    var k := |s| - |StripLeading(s)|;
    assert StripHyphens(s)[0] == s[k];
  }

  lemma FallbackClean(t: CharTable)
    requires Coherent(t)
    ensures Clean(t, Fallback)
  {
    assert forall i :: 0 <= i < |Fallback| ==> IsAscii(Fallback[i]) && AsciiWord(Fallback[i]);
  }

  /** Before trimming, every character is a hyphen or a lower-cased word
      character. */
  lemma CollapsedChars(t: CharTable, lowered: string, kept: string, r: string)
    requires forall i :: 0 <= i < |lowered| ==> t.lower(lowered[i]) == lowered[i]
    requires kept == KeepAllowed(t, lowered) && r == Collapse(kept)
    ensures forall i :: 0 <= i < |r| ==> SegmentChar(t, r[i])
  {
    CollapseFromInput(kept);
    KeepAllowedFromInput(t, lowered);
    forall i | 0 <= i < |r|
      ensures SegmentChar(t, r[i])
    {
      var c := r[i];
      if c != '-' {
        assert c in kept && !IsSep(c);
        var j :| 0 <= j < |kept| && kept[j] == c;
        assert c in lowered;
        var k :| 0 <= k < |lowered| && lowered[k] == c;
      }
    }
  }

  /** `Collapse` adds hyphens and nothing else. */
  lemma CollapseFromInput(s: string)
    ensures forall i :: 0 <= i < |Collapse(s)| ==> Collapse(s)[i] == '-' || Collapse(s)[i] in s
  {
    var r := Collapse(s);
    DropSepsFrom(s);
    forall i | 0 <= i < |r| && r[i] != '-'
      ensures r[i] in s
    {
      DropSepsHas(r, i);
    }
  }

  lemma {:induction false} DropSepsHas(s: string, i: int)
    requires 0 <= i < |s| && !IsSep(s[i])
    ensures s[i] in DropSeps(s)
    decreases |s|
  {
    if i > 0 {
      DropSepsHas(s[1..], i - 1);
    }
  }

  lemma {:induction false} DropSepsFrom(s: string)
    ensures forall c :: c in DropSeps(s) ==> c in s
    decreases |s|
  {
    if s != [] {
      DropSepsFrom(s[1..]);
    }
  }

  /** Trimming a string of segment characters with no doubled hyphen gives a
      clean segment, or nothing. */
  lemma StrippedClean(t: CharTable, s: string)
    requires forall i :: 0 <= i < |s| ==> SegmentChar(t, s[i])
    requires forall i :: 0 <= i < |s| - 1 ==> !(s[i] == '-' && s[i + 1] == '-')
    ensures StripHyphens(s) != [] ==> Clean(t, StripHyphens(s))
  {
    var r := StripHyphens(s);
    PieceClean(t, r, s, |s| - |StripLeading(s)|);
  }

  /** A piece of a string of segment characters with no doubled hyphen keeps
      both properties; with hyphen-free ends it is clean. */
  lemma PieceClean(t: CharTable, r: string, s: string, k: int)
    requires PieceAt(r, s, k)
    requires forall i :: 0 <= i < |s| ==> SegmentChar(t, s[i])
    requires forall i :: 0 <= i < |s| - 1 ==> !(s[i] == '-' && s[i + 1] == '-')
    requires r == [] || (r[0] != '-' && r[|r| - 1] != '-')
    ensures r != [] ==> Clean(t, r)
  {
    forall i | 0 <= i < |r|
      ensures SegmentChar(t, r[i])
    {
      assert r[i] == s[k + i];
    }
    forall i | 0 <= i < |r| - 1
      ensures !(r[i] == '-' && r[i + 1] == '-')
    {
      assert r[i] == s[k + i] && r[i + 1] == s[k + i + 1];
    }
  }

  /** Whatever the input, the result is a clean segment. */
  lemma SanitizeIsClean(t: CharTable, name: string)
    requires Coherent(t)
    ensures Clean(t, Sanitize(t, name))
  {
    FallbackClean(t);
    if name != [] {
      var lowered := Lower(t, name);
      var kept := KeepAllowed(t, lowered);
      var collapsed := Collapse(kept);
      CollapsedChars(t, lowered, kept, collapsed);
      StrippedClean(t, collapsed);
    }
  }

  /** The sanitizer leaves a string unchanged when it is already made of
      lower-case word characters and single hyphens. */
  lemma {:induction false} CollapseKeepsClean(s: string)
    requires forall i :: 0 <= i < |s| ==> !IsSpace(s[i])
    requires forall i :: 0 <= i < |s| - 1 ==> !(s[i] == '-' && s[i + 1] == '-')
    ensures Collapse(s) == s
    decreases |s|
  {
    if s != [] {
      var tail := s[1..];
      CollapseStep(s);
      CollapseKeepsClean(tail);
      assert s == [s[0]] + tail;
    }
  }

  /** A single hyphen not followed by a separator, or a character that is no
      separator at all, passes through `Collapse` as it is. */
  lemma CollapseStep(s: string)
    requires s != [] && !IsSpace(s[0])
    requires |s| > 1 && s[0] == '-' ==> !IsSep(s[1])
    ensures Collapse(s) == [s[0]] + Collapse(s[1..])
  {
    if IsSep(s[0]) {
      var tail := s[1..];
      assert tail == [] || !IsSep(tail[0]);
      assert SkipSeps(tail) == tail;
    }
  }

  lemma {:induction false} KeepAllowedKeepsClean(t: CharTable, s: string)
    requires forall i :: 0 <= i < |s| ==> SegmentChar(t, s[i])
    ensures KeepAllowed(t, s) == s
    decreases |s|
  {
    if s != [] {
      KeepAllowedKeepsClean(t, s[1..]);
    }
  }

  /** A clean segment is a fixed point of the sanitizer. */
  lemma CleanIsFixed(t: CharTable, s: string)
    requires Coherent(t)
    requires Clean(t, s)
    ensures Sanitize(t, s) == s
  {
    assert IsAscii('-');
    LowerKeepsClean(t, s);
    KeepAllowedKeepsClean(t, s);
    forall i | 0 <= i < |s|
      ensures !IsSpace(s[i])
    {
      assert SegmentChar(t, s[i]);
    }
    CollapseKeepsClean(s);
    assert StripLeading(s) == s;
    assert StripTrailing(s) == s;
    assert StripHyphens(s) == s;
  }

  lemma LowerKeepsClean(t: CharTable, s: string)
    requires t.lower('-') == '-'
    requires Clean(t, s)
    ensures Lower(t, s) == s
  {
    forall i | 0 <= i < |s|
      ensures Lower(t, s)[i] == s[i]
    {
      assert SegmentChar(t, s[i]);
    }
  }

  /** Sanitizing twice is sanitizing once. */
  lemma SanitizeIdempotent(t: CharTable, name: string)
    requires Coherent(t)
    ensures Sanitize(t, Sanitize(t, name)) == Sanitize(t, name)
  {
    SanitizeIsClean(t, name);
    CleanIsFixed(t, Sanitize(t, name));
  }

  /** The fixed points of the sanitizer are exactly the clean segments. */
  lemma FixedIffClean(t: CharTable, s: string)
    requires Coherent(t)
    ensures Sanitize(t, s) == s <==> Clean(t, s)
  {
    if Clean(t, s) {
      CleanIsFixed(t, s);
    }
    if Sanitize(t, s) == s {
      SanitizeIsClean(t, s);
    }
  }

  /** Trimming removes hyphens only. */
  lemma StripKeepsWords(s: string)
    ensures DropSeps(StripHyphens(s)) == DropSeps(s)
  {
    DropSepsPiece(StripHyphens(s), s, |s| - |StripLeading(s)|);
  }

  lemma DropSepsPiece(r: string, s: string, k: int)
    requires PieceAt(r, s, k)
    requires forall i :: 0 <= i < k ==> s[i] == '-'
    requires forall i :: k + |r| <= i < |s| ==> s[i] == '-'
    ensures DropSeps(r) == DropSeps(s)
  {
    var pre, post := s[..k], s[k + |r|..];
    assert s == pre + r + post;
    DropSepsOfSeps(pre);
    DropSepsOfSeps(post);
    DropSepsAppend(pre + r, post);
    DropSepsAppend(pre, r);
  }

  /** A worked example: `"GPT Image / Gen!!"` becomes
      `"gpt-image-gen"`. */
  lemma SanitizeExample(name: string)
    requires name == "GPT Image / Gen!!"
    ensures Sanitize(AsciiTable, name) == "gpt-image-gen"
  {
    var t := AsciiTable;
    ExampleLowered(name);
    ExampleKept("gpt image ", "/", " gen", "!!");
    ExampleCollapsed(KeepAllowed(t, Lower(t, name)));
    StripUnchanged("gpt-image-gen");
  }

  lemma ExampleLowered(name: string)
    requires name == "GPT Image / Gen!!"
    ensures Lower(AsciiTable, name) == "gpt image " + "/" + " gen" + "!!"
  {
  }

  lemma ExampleKept(a: string, b: string, c: string, d: string)
    requires a == "gpt image " && b == "/" && c == " gen" && d == "!!"
    ensures KeepAllowed(AsciiTable, a + b + c + d) == a + c
  {
    KeepAllowedAll(AsciiTable, a);
    KeepAllowedAll(AsciiTable, c);
    KeepAllowedNone(AsciiTable, b);
    KeepAllowedNone(AsciiTable, d);
    KeepAllowedFour(AsciiTable, a, b, c, d);
  }

  /** Two kept stretches, each followed by a deleted one. */
  lemma KeepAllowedFour(t: CharTable, a: string, b: string, c: string, d: string)
    requires KeepAllowed(t, a) == a && KeepAllowed(t, c) == c
    requires KeepAllowed(t, b) == [] && KeepAllowed(t, d) == []
    ensures KeepAllowed(t, a + b + c + d) == a + c
  {
    var ab := a + b;
    var abc := ab + c;
    KeepAllowedAppend(t, a, b);
    assert KeepAllowed(t, ab) == a;
    KeepAllowedAppend(t, ab, c);
    assert KeepAllowed(t, abc) == a + c;
    KeepAllowedAppend(t, abc, d);
    assert KeepAllowed(t, abc + d) == a + c + [];
  }

  lemma ExampleCollapsed(kept: string)
    requires kept == "gpt image " + " gen"
    ensures Collapse(kept) == "gpt-image-gen"
  {
    ExampleWords(kept);
    CollapseThree("gpt", " ", "image", "  ", "gen");
  }

  lemma ExampleWords(kept: string)
    requires kept == "gpt image " + " gen"
    ensures kept == "gpt" + " " + "image" + "  " + "gen"
  {
  }

  /** A string that neither starts nor ends with a hyphen is left alone by
      the trimming. */
  lemma StripUnchanged(s: string)
    requires s == [] || (s[0] != '-' && s[|s| - 1] != '-')
    ensures StripHyphens(s) == s
  {
    assert StripLeading(s) == s;
    assert StripTrailing(s) == s;
  }

  /** Three words separated by two runs of separators. */
  lemma CollapseThree(a: string, s1: string, b: string, s2: string, c: string)
    requires forall i :: 0 <= i < |a| ==> !IsSep(a[i])
    requires forall i :: 0 <= i < |b| ==> !IsSep(b[i])
    requires forall i :: 0 <= i < |c| ==> !IsSep(c[i])
    requires s1 != [] && forall i :: 0 <= i < |s1| ==> IsSep(s1[i])
    requires s2 != [] && forall i :: 0 <= i < |s2| ==> IsSep(s2[i])
    requires b != [] && c != []
    ensures Collapse(a + s1 + b + s2 + c) == a + "-" + b + "-" + c
  {
    var tail := b + s2 + c;
    assert Collapse(tail) == b + "-" + c by {
      CollapseTwo(b, s2, c);
    }
    assert Collapse(a + s1 + tail) == a + "-" + Collapse(tail) by {
      assert tail[0] == b[0];
      CollapseWordRun(a, s1, tail);
    }
    assert a + s1 + b + s2 + c == a + s1 + tail;
    assert a + "-" + (b + "-" + c) == a + "-" + b + "-" + c;
  }

  lemma CollapseTwo(b: string, seps: string, c: string)
    requires forall i :: 0 <= i < |b| ==> !IsSep(b[i])
    requires forall i :: 0 <= i < |c| ==> !IsSep(c[i])
    requires seps != [] && forall i :: 0 <= i < |seps| ==> IsSep(seps[i])
    requires c != []
    ensures Collapse(b + seps + c) == b + "-" + c
  {
    CollapseWordRun(b, seps, c);
    CollapseWord(c, []);
    assert c + [] == c;
  }

  /** A word, then a run of separators, then more text starting with a word. */
  lemma CollapseWordRun(a: string, seps: string, rest: string)
    requires forall i :: 0 <= i < |a| ==> !IsSep(a[i])
    requires seps != [] && forall i :: 0 <= i < |seps| ==> IsSep(seps[i])
    requires rest != [] && !IsSep(rest[0])
    ensures Collapse(a + seps + rest) == a + "-" + Collapse(rest)
  {
    assert a + seps + rest == a + (seps + rest);
    CollapseWord(a, seps + rest);
    CollapseRun(seps, rest);
  }

  lemma {:induction false} KeepAllowedAll(t: CharTable, s: string)
    requires forall i :: 0 <= i < |s| ==> t.isWord(s[i]) || IsSep(s[i])
    ensures KeepAllowed(t, s) == s
    decreases |s|
  {
    if s != [] {
      KeepAllowedAll(t, s[1..]);
    }
  }

  lemma {:induction false} KeepAllowedNone(t: CharTable, s: string)
    requires forall i :: 0 <= i < |s| ==> !(t.isWord(s[i]) || IsSep(s[i]))
    ensures KeepAllowed(t, s) == []
    decreases |s|
  {
    if s != [] {
      KeepAllowedNone(t, s[1..]);
    }
  }

  /** A stretch without separators passes through `Collapse` as it is. */
  lemma {:induction false} CollapseWord(w: string, rest: string)
    requires forall i :: 0 <= i < |w| ==> !IsSep(w[i])
    ensures Collapse(w + rest) == w + Collapse(rest)
    decreases |w|
  {
    if w == [] {
      assert w + rest == rest;
    } else {
      var x := w + rest;
      var w' := w[1..];
      assert x[0] == w[0];
      CollapseStep(x);
      assert x[1..] == w' + rest;
      CollapseWord(w', rest);
      calc {
        Collapse(x);
        [w[0]] + Collapse(w' + rest);
        [w[0]] + (w' + Collapse(rest));
        ([w[0]] + w') + Collapse(rest);
        { assert [w[0]] + w' == w; }
        w + Collapse(rest);
      }
    }
  }

  /** A whole run of separators becomes a single hyphen. */
  lemma CollapseRun(seps: string, rest: string)
    requires seps != [] && forall i :: 0 <= i < |seps| ==> IsSep(seps[i])
    requires rest == [] || !IsSep(rest[0])
    ensures Collapse(seps + rest) == "-" + Collapse(rest)
  {
    SkipRun(seps, rest);
  }

  lemma {:induction false} SkipRun(seps: string, rest: string)
    requires forall i :: 0 <= i < |seps| ==> IsSep(seps[i])
    requires rest == [] || !IsSep(rest[0])
    ensures SkipSeps(seps + rest) == rest
    decreases |seps|
  {
    if seps == [] {
      assert seps + rest == rest;
    } else {
      assert (seps + rest)[1..] == seps[1..] + rest;
      SkipRun(seps[1..], rest);
    }
  }

  /** No sanitized segment contains a `/`, so it never opens a sub-directory. */
  lemma NoSlash(t: CharTable, name: string)
    requires Coherent(t)
    ensures '/' !in Sanitize(t, name)
  {
    SanitizeIsClean(t, name);
    assert IsAscii('/') && !AsciiWord('/');
  }
}
