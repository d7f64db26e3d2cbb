/** `polish` (ToolShedEmailParsing.py): the normaliser applied to catalog
    descriptions and, after every line, to the commit message. */
module Polishing {
  import opened PyText

  /** The one-character slices before which `polish` adds no period. The
      second entry is the raw two-character text backslash-n, which no
      one-character slice can equal, and the third is a space, which cannot
      end a stripped text: in effect only a final "." suppresses the period. */
  const NO_PERIOD_AFTER: seq<string> := [".", "\\n", " "]

  /** Text in the shape `polish` leaves it: empty, or free of newlines,
      starting with a non-whitespace character and ending in a period. */
  predicate IsPolished(s: string) {
    s == [] || ('\n' !in s && !IsSpace(s[0]) && s[|s| - 1] == '.')
  }

  /** Strip the text, add a period if it is non-empty and its last character
      is not in `NO_PERIOD_AFTER`, then replace every newline by two spaces. */
  function Polish(text: string): (r: string)
    ensures '\n' !in r
    ensures r != [] ==> r[|r| - 1] == '.'
    ensures r == [] <==> AllSpace(text)
    ensures IsPolished(r)
  {
    var t := Strip(text);
    var u := if |t| > 0 && t[|t| - 1..] !in NO_PERIOD_AFTER then t + "." else t;
    PeriodRule(t);
    PolishShape(t, u, ReplaceChar(u, '\n', "  "));
    ReplaceChar(u, '\n', "  ")
  }

  /** The shape `polish` leaves: from a stripped text `t`, with the period
      added when `t` lacks one, replacement gives polished text. */
  lemma PolishShape(t: string, u: string, r: string)
    requires t == [] || (!IsSpace(t[0]) && !IsSpace(t[|t| - 1]))
    requires u == if t != [] && t[|t| - 1] != '.' then t + "." else t
    requires r == ReplaceChar(u, '\n', "  ")
    ensures '\n' !in r
    ensures r == [] <==> t == []
    ensures IsPolished(r)
  {
    assert '\n' !in "  ";
    ReplaceRemoves(u, '\n', "  ");
    ReplaceKeepsEnds(u, '\n', "  ");
    if t != [] {
      assert u[0] == t[0] && u[|u| - 1] != '\n';
    }
  }

  /** The exception list of `polish` reduces to one rule: a non-empty
      stripped text gets a period unless it already ends in one. */
  lemma PeriodRule(t: string)
    requires t == [] || !IsSpace(t[|t| - 1])
    ensures |t| > 0 && t[|t| - 1..] !in NO_PERIOD_AFTER <==> |t| > 0 && t[|t| - 1] != '.'
  {
    if |t| > 0 {
      var last := t[|t| - 1..];
      assert last == [t[|t| - 1]];
      assert last != "\\n";
      assert last != " ";
      assert last == "." <==> t[|t| - 1] == '.';
    }
  }

  /** `polish` as the simpler rule it amounts to: strip, append "." unless
      the text is empty or already ends in ".", then replace newlines. */
  lemma PolishByRule(text: string)
    ensures var t := Strip(text);
      Polish(text) == ReplaceChar(if t != [] && t[|t| - 1] != '.' then t + "." else t, '\n', "  ")
  {
    PeriodRule(Strip(text));
  }

  /** Polished text is exactly the text `polish` leaves unchanged. */
  lemma PolishFixedPoints(s: string)
    ensures Polish(s) == s <==> IsPolished(s)
  {
    if IsPolished(s) {
      assert s == [] || !IsSpace(s[|s| - 1]);
      StripKeepsTrimmed(s);
      PolishByRule(s);
      ReplaceAbsent(s, '\n', "  ");
    }
  }

  /** Polishing twice is polishing once. */
  lemma PolishIdempotent(s: string)
    ensures Polish(Polish(s)) == Polish(s)
  {
    PolishFixedPoints(Polish(s));
  }

  /** Blank text polishes to "". */
  lemma PolishBlankExamples()
    ensures Polish("") == ""
    ensures Polish("  \t\r\n ") == ""
  {
    assert AllSpace("  \t\r\n ");
  }

  /** A period is added to text that lacks one ... */
  lemma PolishAddsPeriod()
    ensures Polish("abc") == "abc."
  {
    StripKeepsTrimmed("abc");
    PolishByRule("abc");
    NoNewlineExample();
  }

  /** ... and is never doubled. */
  lemma PolishKeepsPeriod()
    ensures Polish("abc.") == "abc."
  {
    NoNewlineExample();
    PolishFixedPoints("abc.");
  }

  /** "abc." is polished and has no newline to replace. */
  lemma NoNewlineExample()
    ensures "abc" + "." == "abc."
    ensures IsPolished("abc.")
    ensures ReplaceChar("abc.", '\n', "  ") == "abc."
  {
    ReplaceAbsent("abc.", '\n', "  ");
  }

  /** Surrounding blanks go and an embedded newline becomes two spaces. */
  lemma PolishNewlineExample()
    ensures Polish(" a\nb ") == "a  b."
  {
    StripExample();
    PolishByRule(" a\nb ");
    ReplaceExample();
  }

  /** Stripping " a\nb " keeps the embedded newline. */
  lemma StripExample()
    ensures Strip(" a\nb ") == "a\nb"
  {
    var w := "a\nb";
    assert " a\nb " == [' '] + w + [' '];
    assert !IsSpace(w[0]) && !IsSpace(w[2]);
    StripPadded(w);
  }

  /** The one newline of "a\nb." becomes two spaces. */
  lemma ReplaceExample()
    ensures ReplaceChar("a\nb" + ".", '\n', "  ") == "a  b."
  {
    var x, y := "a", "b.";
    assert "a\nb" + "." == x + ['\n'] + y;
    ReplaceOne(x, y, '\n', "  ");
    assert x + "  " + y == "a  b.";
  }
}
