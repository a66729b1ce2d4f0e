/**
 `escape_mdx_string`: prepares a name or description for a single-quoted
 front-matter value. Every `'` gets a backslash in front of it, then every
 control character (U+0000 to U+001F and U+007F) is deleted.
 */
module Escape {

  predicate IsControl(c: char) {
    c as int <= 0x1F || c as int == 0x7F
  }

  /** `text.replace("'", "\\'")`. */
  function EscapeQuotes(s: string): (r: string)
    ensures |r| >= |s|
  {
    if s == [] then []
    else (if s[0] == '\'' then "\\'" else [s[0]]) + EscapeQuotes(s[1..])
  }

  /** `re.sub(r'[\x00-\x1F\x7F]', '', text)`: a control character is deleted,
      any other is kept. With `RemoveControlsAppend` this fixes the result for
      every input. */
  function RemoveControls(s: string): (r: string)
    ensures forall i :: 0 <= i < |r| ==> !IsControl(r[i])
    ensures forall c :: c in r ==> c in s
    ensures |s| == 1 && IsControl(s[0]) ==> r == []
    ensures |s| == 1 && !IsControl(s[0]) ==> r == s
  {
    if s == [] then []
    else (if IsControl(s[0]) then [] else [s[0]]) + RemoveControls(s[1..])
  }

  /** `escape_mdx_string(text)`. */
  function EscapeMdx(text: string): (r: string)
    ensures text == "" ==> r == ""
  {
    if text == "" then "" else RemoveControls(EscapeQuotes(text))
  }

  /** Every quote in `s` has a backslash right before it. */
  predicate QuotesEscaped(s: string) {
    forall i :: 0 <= i < |s| && s[i] == '\'' ==> i > 0 && s[i - 1] == '\\'
  }

  /** Undoes `EscapeQuotes`: a backslash followed by a quote becomes the quote. */
  function UnescapeQuotes(s: string): string {
    if |s| >= 2 && s[0] == '\\' && s[1] == '\'' then "'" + UnescapeQuotes(s[2..])
    else if s == [] then []
    else [s[0]] + UnescapeQuotes(s[1..])
  }

  lemma {:induction false} EscapeQuotesEscapes(s: string)
    ensures QuotesEscaped(EscapeQuotes(s))
    ensures EscapeQuotes(s) != [] ==> EscapeQuotes(s)[0] != '\''
  {
    if s != [] {
      EscapeQuotesEscapes(s[1..]);
      var head := if s[0] == '\'' then "\\'" else [s[0]];
      var r := EscapeQuotes(s);
      var tail := EscapeQuotes(s[1..]);
      assert r == head + tail;
      forall i | 0 <= i < |r| && r[i] == '\''
        ensures i > 0 && r[i - 1] == '\\'
      {
        if i >= |head| {
          assert r[i] == tail[i - |head|];
          if i == |head| {
            assert false;
          }
        }
      }
    }
  }

  lemma {:induction false} RemoveControlsAppend(a: string, b: string)
    ensures RemoveControls(a + b) == RemoveControls(a) + RemoveControls(b)
    decreases |a|
  {
    if a != [] {
      assert (a + b)[1..] == a[1..] + b;
      RemoveControlsAppend(a[1..], b);
    } else {
      assert a + b == b;
    }
  }

  /** Text without control characters passes through unchanged. */
  lemma {:induction false} RemoveControlsKeepsPlain(s: string)
    requires forall i :: 0 <= i < |s| ==> !IsControl(s[i])
    ensures RemoveControls(s) == s
    decreases |s|
  {
    if s != [] {
      RemoveControlsKeepsPlain(s[1..]);
      assert [s[0]] + s[1..] == s;
    }
  }

  /** Deleting control characters and escaping quotes commute, since neither
      the quote nor the backslash is a control character. */
  lemma {:induction false} EscapeCommutes(s: string)
    ensures RemoveControls(EscapeQuotes(s)) == EscapeQuotes(RemoveControls(s))
    decreases |s|
  {
    if s != [] {
      EscapeCommutes(s[1..]);
      var head := if s[0] == '\'' then "\\'" else [s[0]];
      RemoveControlsAppend(head, EscapeQuotes(s[1..]));
      assert RemoveControls(s) == (if IsControl(s[0]) then [] else [s[0]]) + RemoveControls(s[1..]);
      if !IsControl(s[0]) {
        assert RemoveControls(head) == head by {
          if s[0] == '\'' {
            assert head[1..] == "'";
            assert RemoveControls(head[1..]) == "'";
          } else {
            assert RemoveControls(head[1..]) == [];
          }
        }
        var x := [s[0]] + RemoveControls(s[1..]);
        assert x[0] == s[0] && x[1..] == RemoveControls(s[1..]);
        assert EscapeQuotes(x) == head + EscapeQuotes(RemoveControls(s[1..]));
        assert EscapeQuotes(s) == head + EscapeQuotes(s[1..]);
        assert RemoveControls(s) == x;
        calc {
          RemoveControls(EscapeQuotes(s));
          RemoveControls(head + EscapeQuotes(s[1..]));
          RemoveControls(head) + RemoveControls(EscapeQuotes(s[1..]));
          head + EscapeQuotes(RemoveControls(s[1..]));
          EscapeQuotes(RemoveControls(s));
        }
      } else {
        assert head == [s[0]] && head[1..] == [];
        assert RemoveControls(head) == [];
        assert EscapeQuotes(s) == head + EscapeQuotes(s[1..]);
        assert RemoveControls(s) == RemoveControls(s[1..]);
        assert RemoveControls(EscapeQuotes(s)) == [] + RemoveControls(EscapeQuotes(s[1..]));
      }
    }
  }

  lemma {:induction false} UnescapeEscape(s: string)
    ensures UnescapeQuotes(EscapeQuotes(s)) == s
    decreases |s|
  {
    if s != [] {
      UnescapeEscape(s[1..]);
      var tail := EscapeQuotes(s[1..]);
      if s[0] == '\'' {
        assert EscapeQuotes(s) == "\\'" + tail;
        assert (("\\'" + tail)[2..]) == tail;
      } else {
        assert EscapeQuotes(s) == [s[0]] + tail;
        assert ([s[0]] + tail)[1..] == tail;
        if s[0] == '\\' && tail != [] {
          EscapeQuotesEscapes(s[1..]);
        }
      }
    }
  }

  /** The escaped text holds no control character, every quote in it is
      preceded by a backslash, and removing those backslashes gives back the
      input minus its control characters. */
  lemma EscapeMdxProperties(text: string)
    ensures forall i :: 0 <= i < |EscapeMdx(text)| ==> !IsControl(EscapeMdx(text)[i])
    ensures QuotesEscaped(EscapeMdx(text))
    ensures UnescapeQuotes(EscapeMdx(text)) == RemoveControls(text)
  {
    if text != "" {
      EscapeCommutes(text);
      EscapeQuotesEscapes(RemoveControls(text));
      UnescapeEscape(RemoveControls(text));
    }
  }
}
