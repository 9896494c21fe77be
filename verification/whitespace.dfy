/** The token viewer's whitespace encoder: a fixed sequence of
    `String.prototype.replaceAll` calls that makes blanks and control
    characters visible. Space and tab are replaced outright by a glyph; the
    five control characters keep the original character after an escape
    marker; a final pass merges the two markers of a CR LF pair. */
module Whitespace {
  import opened Seqs

  const MiddleDot: char := '\U{22C5}'
  const RightArrow: char := '\U{2192}'
  const FormFeed: char := '\U{000C}'
  const Backspace: char := '\U{0008}'
  const VerticalTab: char := '\U{000B}'

  /** `s.replaceAll(pat, rep)` for a non-empty pattern and a replacement
      without `$` patterns: matches are found left to right and do not
      overlap; replaced text is not rescanned; `rep` is copied as is. */
  function ReplaceAll(s: string, pat: string, rep: string): (r: string)
    requires |pat| > 0
    ensures forall c :: c in r ==> c in s || c in rep
    decreases |s|
  {
    if |s| < |pat| then s
    else if s[..|pat|] == pat then rep + ReplaceAll(s[|pat|..], pat, rep)
    else [s[0]] + ReplaceAll(s[1..], pat, rep)
  }

  /** Reference for a one-character pattern: each character is mapped on
      its own. */
  function ReplaceChar(s: string, c: char, rep: string): string
    decreases |s|
  {
    if |s| == 0 then "" else (if s[0] == c then rep else [s[0]]) + ReplaceChar(s[1..], c, rep)
  }

  /** With a one-character pattern, `replaceAll` is the per-character map. */
  lemma {:induction false} ReplaceAllOneChar(s: string, c: char, rep: string)
    ensures ReplaceAll(s, [c], rep) == ReplaceChar(s, c, rep)
    decreases |s|
  {
    if |s| > 0 {
      ReplaceAllOneChar(s[1..], c, rep);
      if s[0] == c {
        assert s[..1] == [c];
      } else {
        assert s[..1] != [c];
      }
    }
  }

  /** A replaced character that does not occur in its replacement is gone. */
  lemma {:induction false} ReplacedCharGone(s: string, c: char, rep: string)
    requires c !in rep
    ensures c !in ReplaceAll(s, [c], rep)
    decreases |s|
  {
    ReplaceAllOneChar(s, c, rep);
    ReplaceCharGone(s, c, rep);
  }

  lemma {:induction false} ReplaceCharGone(s: string, c: char, rep: string)
    requires c !in rep
    ensures c !in ReplaceChar(s, c, rep)
    decreases |s|
  {
    if |s| > 0 {
      ReplaceCharGone(s[1..], c, rep);
    }
  }

  /** A string in which the pattern cannot occur is returned unchanged. */
  lemma {:induction false} ReplaceAllNoMatch(s: string, pat: string, rep: string, c: char)
    requires |pat| > 0 && c in pat && c !in s
    ensures ReplaceAll(s, pat, rep) == s
    decreases |s|
  {
    if |s| >= |pat| {
      assert c !in s[..|pat|];
      ReplaceAllNoMatch(s[1..], pat, rep, c);
      assert [s[0]] + s[1..] == s;
    }
  }

  /** When the pattern and its replacement hold the same number of `c`s,
      `replaceAll` keeps the number of `c`s. */
  lemma {:induction false} ReplaceAllKeepsCount(s: string, pat: string, rep: string, c: char)
    requires |pat| > 0 && Count(pat, c) == Count(rep, c)
    ensures Count(ReplaceAll(s, pat, rep), c) == Count(s, c)
    decreases |s|
  {
    if |s| >= |pat| {
      if s[..|pat|] == pat {
        ReplaceAllKeepsCount(s[|pat|..], pat, rep, c);
        assert s == s[..|pat|] + s[|pat|..];
        CountAppend(s[..|pat|], s[|pat|..], c);
        CountAppend(rep, ReplaceAll(s[|pat|..], pat, rep), c);
      } else {
        ReplaceAllKeepsCount(s[1..], pat, rep, c);
        assert s == [s[0]] + s[1..];
        CountAppend([s[0]], ReplaceAll(s[1..], pat, rep), c);
      }
    }
  }

  /** The characters the markers are written with. */
  const MarkerLetters: string := "\\fbvrn"

  /** The characters a replacement may write: a glyph, a marker letter, or
      a control character the encoder keeps. */
  predicate Written(c: char)
  {
    c in MarkerLetters || c == MiddleDot || c == RightArrow || ControlChar(c)
  }

  /** `encodeWhitespace`: the replacements in source order. No space or tab
      is left, and every character of the result comes from the input or
      is written by a replacement. */
  function EncodeWhitespace(str: string): (r: string)
    ensures ' ' !in r && '\t' !in r
    ensures forall c :: c in r ==> c in str || Written(c)
  {
    var spaces := ReplaceAll(str, " ", [MiddleDot]);
    var tabs := ReplaceAll(spaces, "\t", [RightArrow]);
    var formFeeds := ReplaceAll(tabs, [FormFeed], "\\f" + [FormFeed]);
    var backspaces := ReplaceAll(formFeeds, [Backspace], "\\b" + [Backspace]);
    var verticalTabs := ReplaceAll(backspaces, [VerticalTab], "\\v" + [VerticalTab]);
    var carriageReturns := ReplaceAll(verticalTabs, "\r", "\\r\r");
    var newlines := ReplaceAll(carriageReturns, "\n", "\\n\n");
    ReplacedCharGone(str, ' ', [MiddleDot]);
    ReplacedCharGone(spaces, '\t', [RightArrow]);
    ReplaceAll(newlines, "\\r\r\\n\n", "\\r\\n\r\n")
  }

  /** The five control characters that keep their place after a marker. */
  predicate ControlChar(c: char)
  {
    c == FormFeed || c == Backspace || c == VerticalTab || c == '\r' || c == '\n'
  }

  /** The seven characters the encoder handles. */
  predicate Handled(c: char)
  {
    c == ' ' || c == '\t' || ControlChar(c)
  }

  /** Text without any handled character is left alone. */
  lemma PlainTextUnchanged(str: string)
    requires forall i :: 0 <= i < |str| ==> !Handled(str[i])
    ensures EncodeWhitespace(str) == str
  {
    ReplaceAllNoMatch(str, " ", [MiddleDot], ' ');
    ReplaceAllNoMatch(str, "\t", [RightArrow], '\t');
    ReplaceAllNoMatch(str, [FormFeed], "\\f" + [FormFeed], FormFeed);
    ReplaceAllNoMatch(str, [Backspace], "\\b" + [Backspace], Backspace);
    ReplaceAllNoMatch(str, [VerticalTab], "\\v" + [VerticalTab], VerticalTab);
    ReplaceAllNoMatch(str, "\r", "\\r\r", '\r');
    ReplaceAllNoMatch(str, "\n", "\\n\n", '\n');
    ReplaceAllNoMatch(str, "\\r\r\\n\n", "\\r\\n\r\n", '\r');
  }

  /** Line feeds, carriage returns, form feeds, backspaces and vertical
      tabs are all kept: only markers are added around them. */
  lemma EncodingKeepsControlCounts(str: string, c: char)
    requires ControlChar(c)
    ensures Count(EncodeWhitespace(str), c) == Count(str, c)
  {
    var spaces := ReplaceAll(str, " ", [MiddleDot]);
    var tabs := ReplaceAll(spaces, "\t", [RightArrow]);
    var formFeeds := ReplaceAll(tabs, [FormFeed], "\\f" + [FormFeed]);
    var backspaces := ReplaceAll(formFeeds, [Backspace], "\\b" + [Backspace]);
    var verticalTabs := ReplaceAll(backspaces, [VerticalTab], "\\v" + [VerticalTab]);
    var carriageReturns := ReplaceAll(verticalTabs, "\r", "\\r\r");
    var newlines := ReplaceAll(carriageReturns, "\n", "\\n\n");
    GlyphCount(c);
    MarkerCount(FormFeed, 'f', c);
    MarkerCount(Backspace, 'b', c);
    MarkerCount(VerticalTab, 'v', c);
    MarkerCount('\r', 'r', c);
    MarkerCount('\n', 'n', c);
    CrLfMarkerCount(c);
    ReplaceAllKeepsCount(str, " ", [MiddleDot], c);
    ReplaceAllKeepsCount(spaces, "\t", [RightArrow], c);
    ReplaceAllKeepsCount(tabs, [FormFeed], "\\f" + [FormFeed], c);
    ReplaceAllKeepsCount(formFeeds, [Backspace], "\\b" + [Backspace], c);
    ReplaceAllKeepsCount(backspaces, [VerticalTab], "\\v" + [VerticalTab], c);
    ReplaceAllKeepsCount(verticalTabs, "\r", "\\r\r", c);
    ReplaceAllKeepsCount(carriageReturns, "\n", "\\n\n", c);
    ReplaceAllKeepsCount(newlines, "\\r\r\\n\n", "\\r\\n\r\n", c);
  }

  /** The glyphs for space and tab are not control characters. */
  lemma GlyphCount(c: char)
    requires ControlChar(c)
    ensures Count(" ", c) == 0 == Count([MiddleDot], c)
    ensures Count("\t", c) == 0 == Count([RightArrow], c)
  {
  }

  /** A backslash-letter marker before `x` adds no control character. */
  lemma MarkerCount(x: char, letter: char, c: char)
    requires c != '\\' && c != letter
    ensures Count([x], c) == Count(['\\', letter] + [x], c)
  {
    CountAppend(['\\', letter], [x], c);
  }

  lemma CrLfMarkerCount(c: char)
    requires c != '\\' && c != 'r' && c != 'n'
    ensures Count("\\r\r\\n\n", c) == Count("\\r\\n\r\n", c)
  {
    assert "\\r\r\\n\n" == ['\\', 'r'] + (['\r'] + (['\\', 'n'] + ['\n']));
    assert "\\r\\n\r\n" == ['\\', 'r'] + (['\\', 'n'] + (['\r'] + ['\n']));
    CountAppend(['\\', 'n'], ['\n'], c);
    CountAppend(['\r'], ['\\', 'n'] + ['\n'], c);
    CountAppend(['\\', 'r'], ['\r'] + (['\\', 'n'] + ['\n']), c);
    CountAppend(['\r'], ['\n'], c);
    CountAppend(['\\', 'n'], ['\r'] + ['\n'], c);
    CountAppend(['\\', 'r'], ['\\', 'n'] + (['\r'] + ['\n']), c);
  }

  /** A space becomes the middle dot alone: the space itself is not kept. */
  lemma SpaceBecomesDot()
    ensures EncodeWhitespace(" ") == [MiddleDot]
  {
    assert " "[..1] == " ";
    ReplaceAllNoMatch([MiddleDot], "\t", [RightArrow], '\t');
    ReplaceAllNoMatch([MiddleDot], [FormFeed], "\\f" + [FormFeed], FormFeed);
    ReplaceAllNoMatch([MiddleDot], [Backspace], "\\b" + [Backspace], Backspace);
    ReplaceAllNoMatch([MiddleDot], [VerticalTab], "\\v" + [VerticalTab], VerticalTab);
    ReplaceAllNoMatch([MiddleDot], "\r", "\\r\r", '\r');
    ReplaceAllNoMatch([MiddleDot], "\n", "\\n\n", '\n');
    ReplaceAllNoMatch([MiddleDot], "\\r\r\\n\n", "\\r\\n\r\n", '\r');
  }

  /** The first five passes leave alone text made of CR, LF, backslash and
      letters. */
  lemma {:induction false} FirstPassesSkip(str: string)
    requires forall i :: 0 <= i < |str| ==>
               (str[i] != ' ' && str[i] != '\t' && str[i] != FormFeed
                && str[i] != Backspace && str[i] != VerticalTab)
    ensures var spaces := ReplaceAll(str, " ", [MiddleDot]);
            var tabs := ReplaceAll(spaces, "\t", [RightArrow]);
            var formFeeds := ReplaceAll(tabs, [FormFeed], "\\f" + [FormFeed]);
            var backspaces := ReplaceAll(formFeeds, [Backspace], "\\b" + [Backspace]);
            ReplaceAll(backspaces, [VerticalTab], "\\v" + [VerticalTab]) == str
  {
    ReplaceAllNoMatch(str, " ", [MiddleDot], ' ');
    ReplaceAllNoMatch(str, "\t", [RightArrow], '\t');
    ReplaceAllNoMatch(str, [FormFeed], "\\f" + [FormFeed], FormFeed);
    ReplaceAllNoMatch(str, [Backspace], "\\b" + [Backspace], Backspace);
    ReplaceAllNoMatch(str, [VerticalTab], "\\v" + [VerticalTab], VerticalTab);
  }

  /** CR LF gets the combined marker once, followed by CR LF. */
  lemma CrLfMarkedOnce()
    ensures EncodeWhitespace("\r\n") == "\\r\\n\r\n"
  {
    FirstPassesSkip("\r\n");
    CrLfReturnPass();
    CrLfNewlinePass();
    CrLfMergePass();
  }

  lemma CrLfReturnPass()
    ensures ReplaceAll("\r\n", "\r", "\\r\r") == "\\r\r\n"
  {
    assert "\r\n"[..1] == "\r" && "\r\n"[1..] == "\n";
    ReplaceAllNoMatch("\n", "\r", "\\r\r", '\r');
  }

  lemma CrLfNewlinePass()
    ensures ReplaceAll("\\r\r\n", "\n", "\\n\n") == "\\r\r\\n\n"
  {
    ReplaceAllOneChar("\\r\r\n", '\n', "\\n\n");
  }

  lemma CrLfMergePass()
    ensures ReplaceAll("\\r\r\\n\n", "\\r\r\\n\n", "\\r\\n\r\n") == "\\r\\n\r\n"
  {
    var done := "\\r\r\\n\n";
    assert done[..6] == done && done[6..] == "";
  }

  /** A lone CR gets its marker followed by CR. */
  lemma LoneCrMarked()
    ensures EncodeWhitespace("\r") == "\\r\r"
  {
    FirstPassesSkip("\r");
    assert "\r"[..1] == "\r";
    assert ReplaceAll("\r", "\r", "\\r\r") == "\\r\r";
    ReplaceAllNoMatch("\\r\r", "\n", "\\n\n", '\n');
    ReplaceAllNoMatch("\\r\r", "\\r\r\\n\n", "\\r\\n\r\n", '\n');
  }

  /** A lone LF gets its marker followed by LF. */
  lemma LoneLfMarked()
    ensures EncodeWhitespace("\n") == "\\n\n"
  {
    FirstPassesSkip("\n");
    ReplaceAllNoMatch("\n", "\r", "\\r\r", '\r');
    assert "\n"[..1] == "\n";
    assert ReplaceAll("\n", "\n", "\\n\n") == "\\n\n";
    ReplaceAllNoMatch("\\n\n", "\\r\r\\n\n", "\\r\\n\r\n", '\r');
  }

  /** Encoding twice is not encoding once: the LF of an encoded "\n" is
      marked again. */
  lemma NotIdempotent()
    ensures EncodeWhitespace(EncodeWhitespace("\n")) != EncodeWhitespace("\n")
  {
    LoneLfMarked();
    MarkedLfMarkedAgain();
  }

  lemma MarkedLfMarkedAgain()
    ensures EncodeWhitespace("\\n\n") == "\\n\\n\n"
  {
    FirstPassesSkip("\\n\n");
    ReplaceAllNoMatch("\\n\n", "\r", "\\r\r", '\r');
    MarkedLfNewlinePass();
    ReplaceAllNoMatch("\\n\\n\n", "\\r\r\\n\n", "\\r\\n\r\n", '\r');
  }

  lemma MarkedLfNewlinePass()
    ensures ReplaceAll("\\n\n", "\n", "\\n\n") == "\\n\\n\n"
  {
    ReplaceAllOneChar("\\n\n", '\n', "\\n\n");
  }
}
