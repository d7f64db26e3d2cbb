/** The handful of Python `str` operations the notification parser is built
    from, with the semantics CPython gives them: `strip()`, `split()`,
    `split(sep)`, `sep.join(parts)`, `replace(old, new)` and slicing `s[n:]`. */
module PyText {

  /** Python's `str.isspace` on one character: exactly the characters that
      `str.strip()` and `str.split()` treat as whitespace. */
  predicate IsSpace(c: char) {
    || c == ' '
    || '\t' <= c <= '\r'
    || '\U{1C}' <= c <= '\U{1F}'
    || c == '\U{85}'
    || c == '\U{A0}'
    || c == '\U{1680}'
    || '\U{2000}' <= c <= '\U{200A}'
    || c == '\U{2028}'
    || c == '\U{2029}'
    || c == '\U{202F}'
    || c == '\U{205F}'
    || c == '\U{3000}'
  }

  /** Every character of `s` is whitespace (vacuously so for ""). */
  predicate AllSpace(s: string) {
    forall k | 0 <= k < |s| :: IsSpace(s[k])
  }

  /** Python's slice `s[n:]`: the text from index `n` on, "" when `s` is shorter. */
  function Drop(s: string, n: nat): (r: string)
    ensures |s| <= n ==> r == []
    ensures n <= |s| ==> s == s[..n] + r
  {
    if |s| <= n then [] else s[n..]
  }

  // ---------------------------------------------------------------------------
  // str.strip()
  // ---------------------------------------------------------------------------

  /** `s.lstrip()`: the suffix of `s` left after its leading whitespace. */
  function TrimStart(s: string): (r: string)
    ensures |r| <= |s| && r == s[|s| - |r|..]
    ensures forall k | 0 <= k < |s| - |r| :: IsSpace(s[k])
    ensures r == [] || !IsSpace(r[0])
    decreases |s|
  {
    if s != [] && IsSpace(s[0]) then TrimStart(s[1..]) else s
  }

  /** `s.rstrip()`: the prefix of `s` left before its trailing whitespace. */
  function TrimEnd(s: string): (r: string)
    ensures |r| <= |s| && r == s[..|r|]
    ensures forall k | |r| <= k < |s| :: IsSpace(s[k])
    ensures r == [] || !IsSpace(r[|r| - 1])
    decreases |s|
  {
    if s != [] && IsSpace(s[|s| - 1]) then TrimEnd(s[..|s| - 1]) else s
  }

  /** `s.strip()`: the slice of `s` between its leading and its trailing
      whitespace. The result is empty exactly when `s` is all whitespace. */
  function Strip(s: string): (r: string)
    ensures r == [] || (!IsSpace(r[0]) && !IsSpace(r[|r| - 1]))
    ensures r == [] <==> AllSpace(s)
  {
    var t := TrimStart(s);
    var r := TrimEnd(t);
    assert r != [] ==> r[0] == t[0];
    r
  }

  /** How many whitespace characters `strip()` removes from the front. */
  function LeadingSpace(s: string): nat {
    |s| - |TrimStart(s)|
  }

  /** `strip()` returns a slice of its input, `s[i..i + |r|]`, where `i`
      counts the leading whitespace ... */
  lemma StripIsSlice(s: string, r: string, i: nat)
    requires r == Strip(s) && i == LeadingSpace(s)
    ensures i + |r| <= |s|
    ensures r == s[i..i + |r|]
  {
    var t := TrimStart(s);
    assert t == s[i..];
    assert r == TrimEnd(t);
    assert r == t[..|r|];
    SliceOfSuffix(s, i, t, r);
  }

  /** ... and what it removes before and after that slice is whitespace. */
  lemma StripRemovesSpace(s: string, r: string, i: nat)
    requires r == Strip(s) && i == LeadingSpace(s)
    ensures i + |r| <= |s|
    ensures forall k | 0 <= k < i :: IsSpace(s[k])
    ensures forall k | i + |r| <= k < |s| :: IsSpace(s[k])
  {
    var t := TrimStart(s);
    assert t == s[i..];
    assert r == TrimEnd(t);
    SpacesOfSuffix(s, i, |r|);
  }

  lemma SpacesOfSuffix(s: string, i: nat, n: nat)
    requires i + n <= |s|
    requires forall j | n <= j < |s[i..]| :: IsSpace(s[i..][j])
    ensures forall k | i + n <= k < |s| :: IsSpace(s[k])
  {
    forall k | i + n <= k < |s|
      ensures IsSpace(s[k])
    {
      assert s[k] == s[i..][k - i];
    }
  }

  /** A prefix of a suffix is a middle slice. */
  lemma SliceOfSuffix<T>(s: seq<T>, i: nat, t: seq<T>, r: seq<T>)
    requires i <= |s| && t == s[i..] && |r| <= |t| && r == t[..|r|]
    ensures i + |r| <= |s| && r == s[i..i + |r|]
  {
  }

  /** One space either side of a trimmed text is what `strip()` removes. */
  lemma StripPadded(w: string)
    requires w != [] && !IsSpace(w[0]) && !IsSpace(w[|w| - 1])
    ensures Strip([' '] + w + [' ']) == w
  {
    var p := [' '] + w + [' '];
    assert p[1..] == w + [' '];
    assert TrimStart(p) == TrimStart(w + [' ']);
    assert TrimStart(w + [' ']) == w + [' '];
    assert (w + [' '])[..|w|] == w;
    assert TrimEnd(w + [' ']) == TrimEnd(w);
  }

  /** Text that already has no surrounding whitespace is left alone by `strip()`. */
  lemma StripKeepsTrimmed(s: string)
    requires s == [] || (!IsSpace(s[0]) && !IsSpace(s[|s| - 1]))
    ensures Strip(s) == s
  {
  }

  // ---------------------------------------------------------------------------
  // str.replace(c, w) for a one-character pattern
  // ---------------------------------------------------------------------------

  /** `s.replace(c, w)` where the pattern is the single character `c`. */
  function ReplaceChar(s: string, c: char, w: string): string
    decreases |s|
  {
    if s == [] then [] else (if s[0] == c then w else [s[0]]) + ReplaceChar(s[1..], c, w)
  }

  /** A replacement without the pattern leaves no occurrence of it. */
  lemma {:induction false} ReplaceRemoves(s: string, c: char, w: string)
    requires c !in w
    ensures c !in ReplaceChar(s, c, w)
    decreases |s|
  {
    if s != [] {
      ReplaceRemoves(s[1..], c, w);
    }
  }

  /** Text without the pattern is left unchanged. */
  lemma {:induction false} ReplaceAbsent(s: string, c: char, w: string)
    requires c !in s
    ensures ReplaceChar(s, c, w) == s
    decreases |s|
  {
    if s != [] {
      assert c !in s[1..];
      ReplaceAbsent(s[1..], c, w);
      assert s == [s[0]] + s[1..];
    }
  }

  /** Replacement works piecewise: it distributes over concatenation. */
  lemma {:induction false} ReplaceConcat(a: string, b: string, c: char, w: string)
    ensures ReplaceChar(a + b, c, w) == ReplaceChar(a, c, w) + ReplaceChar(b, c, w)
    decreases |a|
  {
    if a == [] {
      assert a + b == b;
    } else {
      assert (a + b)[1..] == a[1..] + b;
      ReplaceConcat(a[1..], b, c, w);
    }
  }

  /** A text with one occurrence of the pattern gets that one replaced. */
  lemma ReplaceOne(a: string, b: string, c: char, w: string)
    requires c !in a && c !in b
    ensures ReplaceChar(a + [c] + b, c, w) == a + w + b
  {
    ReplaceSingle(c, w);
    ReplaceAbsent(a, c, w);
    ReplaceAbsent(b, c, w);
    ReplaceConcat(a, [c], c, w);
    assert ReplaceChar(a + [c], c, w) == a + w;
    ReplaceConcat(a + [c], b, c, w);
  }

  lemma ReplaceSingle(c: char, w: string)
    ensures ReplaceChar([c], c, w) == w
  {
    assert [c][1..] == [];
  }

  /** A first or last character other than the pattern survives replacement. */
  lemma ReplaceKeepsEnds(s: string, c: char, w: string)
    ensures s != [] && s[0] != c ==> ReplaceChar(s, c, w) != [] && ReplaceChar(s, c, w)[0] == s[0]
    ensures s != [] && s[|s| - 1] != c ==>
      var r := ReplaceChar(s, c, w);
      r != [] && r[|r| - 1] == s[|s| - 1]
  {
    if s == [] { return; }
    var last := s[|s| - 1];
    assert s == s[..|s| - 1] + [last];
    ReplaceConcat(s[..|s| - 1], [last], c, w);
    if last != c {
      assert ReplaceChar([last], c, w) == [last];
    }
  }

  // ---------------------------------------------------------------------------
  // str.split(c) and sep.join(parts)
  // ---------------------------------------------------------------------------

  /** Index of the first `c` in `s`, or `|s|` when `s` holds none. */
  function IndexOf(s: string, c: char): (k: nat)
    ensures k <= |s|
    ensures k < |s| ==> s[k] == c
    ensures c !in s[..k]
    decreases |s|
  {
    if s == [] || s[0] == c then 0
    else
      var k := IndexOf(s[1..], c);
      assert s[..1 + k] == [s[0]] + s[1..][..k];
      1 + k
  }

  lemma {:induction false} IndexOfConcat(a: string, b: string, c: char)
    requires c !in a
    ensures IndexOf(a + [c] + b, c) == |a|
    decreases |a|
  {
    if a != [] {
      assert (a + [c] + b)[1..] == a[1..] + [c] + b;
      IndexOfConcat(a[1..], b, c);
    }
  }

  /** `s.split(c)` for a one-character separator: the fields between
      consecutive separators, empty fields included, so never an empty list
      (`"".split(":") == [""]`). */
  function SplitOn(s: string, c: char): (r: seq<string>)
    ensures |r| >= 1
    ensures forall i | 0 <= i < |r| :: c !in r[i]
    ensures r[0] == s[..IndexOf(s, c)]
    decreases |s|
  {
    var k := IndexOf(s, c);
    if k == |s| then [s] else [s[..k]] + SplitOn(s[k + 1..], c)
  }

  /** `sep.join(parts)`. */
  function Join(sep: string, parts: seq<string>): string
    decreases |parts|
  {
    if |parts| == 0 then ""
    else if |parts| == 1 then parts[0]
    else parts[0] + sep + Join(sep, parts[1..])
  }

  /** One step of `split(c)`: a separator-free field, the separator, the rest. */
  lemma SplitOnStep(s: string, c: char, a: string, b: string)
    requires c !in a && s == a + [c] + b
    ensures SplitOn(s, c) == [a] + SplitOn(b, c)
  {
    IndexOfConcat(a, b, c);
    assert s[..|a|] == a;
    assert s[|a| + 1..] == b;
  }

  /** One step of `sep.join(parts)` over at least two parts. */
  lemma JoinStep(sep: string, x: string, rest: seq<string>)
    requires |rest| >= 1
    ensures Join(sep, [x] + rest) == x + sep + Join(sep, rest)
  {
    assert ([x] + rest)[1..] == rest;
  }

  /** Splitting loses nothing: joining the fields with the separator gives the text back. */
  lemma {:induction false} SplitThenJoin(s: string, c: char)
    ensures Join([c], SplitOn(s, c)) == s
    decreases |s|
  {
    var k := IndexOf(s, c);
    if k < |s| {
      var a, b := s[..k], s[k + 1..];
      assert s == a + [c] + b;
      SplitOnStep(s, c, a, b);
      SplitThenJoin(b, c);
      JoinStep([c], a, SplitOn(b, c));
    }
  }

  /** Joining separator-free fields and splitting again gives the fields back. */
  lemma {:induction false} JoinThenSplit(parts: seq<string>, c: char)
    requires |parts| >= 1
    requires forall i | 0 <= i < |parts| :: c !in parts[i]
    ensures SplitOn(Join([c], parts), c) == parts
    decreases |parts|
  {
    if |parts| > 1 {
      var rest := Join([c], parts[1..]);
      assert parts == [parts[0]] + parts[1..];
      JoinStep([c], parts[0], parts[1..]);
      SplitOnStep(Join([c], parts), c, parts[0], rest);
      JoinThenSplit(parts[1..], c);
    }
  }

  /** A text splits into a single field exactly when it has no separator. */
  lemma SplitOnSingle(s: string, c: char)
    ensures |SplitOn(s, c)| == 1 <==> c !in s
    ensures c !in s ==> SplitOn(s, c) == [s]
  {
    var k := IndexOf(s, c);
    if k < |s| {
      assert s[k] == c;
    }
  }

  /** The last field of `s.split(c)` is the part of `s` after its last `c`:
      a separator-free suffix of `s` that is either all of `s` or preceded
      by `c`. */
  lemma {:induction false} LastField(s: string, c: char, w: string)
    requires w == SplitOn(s, c)[|SplitOn(s, c)| - 1]
    ensures |w| <= |s|
    ensures s[|s| - |w|..] == w
    ensures |w| == |s| || s[|s| - |w| - 1] == c
    decreases |s|
  {
    var k := IndexOf(s, c);
    if k < |s| {
      var t := s[k + 1..];
      assert s == s[..k] + [c] + t;
      SplitOnStep(s, c, s[..k], t);
      assert w == SplitOn(t, c)[|SplitOn(t, c)| - 1];
      LastField(t, c, w);
      SuffixOfSuffix(s, k + 1, t, w, c);
    }
  }

  /** A suffix `w` of the suffix `t == s[i..]`, preceded in `t` by `c` or all
      of `t` (and then preceded by `c` in `s`), is such a suffix of `s`. */
  lemma SuffixOfSuffix(s: string, i: nat, t: string, w: string, c: char)
    requires 1 <= i <= |s| && t == s[i..] && s[i - 1] == c
    requires |w| <= |t| && t[|t| - |w|..] == w
    requires |w| == |t| || t[|t| - |w| - 1] == c
    ensures |w| <= |s| && s[|s| - |w|..] == w
    ensures |w| == |s| || s[|s| - |w| - 1] == c
  {
    assert s[|s| - |w|..] == t[|t| - |w|..];
    if |w| < |t| {
      assert s[|s| - |w| - 1] == t[|t| - |w| - 1];
    }
  }

  /** The first field of `s.split(" ")` is exactly `w` (a word without
      spaces) when `s` is `w` alone or `w` followed by a space. */
  predicate FirstWordIs(s: string, w: string) {
    s == w || (|s| > |w| && s[..|w| + 1] == w + " ")
  }

  lemma FirstField(s: string, w: string)
    requires ' ' !in w
    ensures SplitOn(s, ' ')[0] == w <==> FirstWordIs(s, w)
  {
    var k := IndexOf(s, ' ');
    if FirstWordIs(s, w) {
      if s == w {
        assert k == |s|;
      } else {
        assert s == w + [' '] + s[|w| + 1..];
        IndexOfConcat(w, s[|w| + 1..], ' ');
      }
    }
    if SplitOn(s, ' ')[0] == w {
      assert s[..k] == w;
      if k < |s| {
        assert s[..|w| + 1] == w + " ";
      }
    }
  }

  // ---------------------------------------------------------------------------
  // str.split() with no argument
  // ---------------------------------------------------------------------------

  /** Length of the leading run of non-whitespace characters of `s`. */
  function WordEnd(s: string): (n: nat)
    ensures n <= |s|
    ensures forall k | 0 <= k < n :: !IsSpace(s[k])
    ensures n < |s| ==> IsSpace(s[n])
    decreases |s|
  {
    if s == [] || IsSpace(s[0]) then 0 else 1 + WordEnd(s[1..])
  }

  /** A token as `str.split()` produces it: non-empty, without whitespace. */
  predicate IsWord(w: string) {
    w != [] && forall k | 0 <= k < |w| :: !IsSpace(w[k])
  }

  /** `s.split()`: the maximal runs of non-whitespace characters of `s`,
      in order; whitespace-only text gives the empty list. */
  function SplitWs(s: string): (r: seq<string>)
    ensures forall i | 0 <= i < |r| :: IsWord(r[i])
    decreases |s|
  {
    if s == [] then []
    else if IsSpace(s[0]) then SplitWs(s[1..])
    else
      var n := WordEnd(s);
      [s[..n]] + SplitWs(s[n..])
  }

  /** The non-whitespace characters of `s`, in order. */
  function NonSpace(s: string): string
    decreases |s|
  {
    if s == [] then [] else (if IsSpace(s[0]) then [] else [s[0]]) + NonSpace(s[1..])
  }

  /** The concatenation of a list of strings. */
  function Concat(parts: seq<string>): string
    decreases |parts|
  {
    if parts == [] then [] else parts[0] + Concat(parts[1..])
  }

  lemma {:induction false} NonSpaceConcat(a: string, b: string)
    ensures NonSpace(a + b) == NonSpace(a) + NonSpace(b)
    decreases |a|
  {
    if a == [] {
      assert a + b == b;
    } else {
      assert (a + b)[1..] == a[1..] + b;
      NonSpaceConcat(a[1..], b);
    }
  }

  lemma {:induction false} NonSpaceOfWord(w: string)
    requires forall k | 0 <= k < |w| :: !IsSpace(w[k])
    ensures NonSpace(w) == w
    decreases |w|
  {
    if w != [] {
      NonSpaceOfWord(w[1..]);
    }
  }

  /** `split()` drops the whitespace and nothing else: its tokens, glued
      together, are the non-whitespace characters of the text. */
  lemma {:induction false} SplitWsKeepsText(s: string)
    ensures Concat(SplitWs(s)) == NonSpace(s)
    decreases |s|
  {
    if s == [] {
    } else if IsSpace(s[0]) {
      SplitWsKeepsText(s[1..]);
    } else {
      var n := WordEnd(s);
      SplitWsKeepsText(s[n..]);
      assert s == s[..n] + s[n..];
      NonSpaceConcat(s[..n], s[n..]);
      NonSpaceOfWord(s[..n]);
      assert SplitWs(s) == [s[..n]] + SplitWs(s[n..]);
      assert SplitWs(s)[1..] == SplitWs(s[n..]);
    }
  }

  lemma {:induction false} WordEndConcat(w: string, rest: string)
    requires forall k | 0 <= k < |w| :: !IsSpace(w[k])
    requires rest == [] || IsSpace(rest[0])
    ensures WordEnd(w + rest) == |w|
    decreases |w|
  {
    if w != [] {
      assert (w + rest)[1..] == w[1..] + rest;
      WordEndConcat(w[1..], rest);
    } else {
      assert w + rest == rest;
    }
  }

  /** One step of `split()`: a word followed by nothing or by whitespace. */
  lemma SplitWsStep(s: string, w: string, t: string)
    requires IsWord(w) && s == w + t && (t == [] || IsSpace(t[0]))
    ensures SplitWs(s) == [w] + SplitWs(t)
  {
    WordEndConcat(w, t);
    assert s[..|w|] == w;
    assert s[|w|..] == t;
  }

  /** Leading whitespace makes no difference to `split()`. */
  lemma {:induction false} SplitWsSkip(sp: string, t: string)
    requires AllSpace(sp)
    ensures SplitWs(sp + t) == SplitWs(t)
    decreases |sp|
  {
    if sp != [] {
      assert (sp + t)[1..] == sp[1..] + t;
      SplitWsSkip(sp[1..], t);
    } else {
      assert sp + t == t;
    }
  }

  /** A word, a non-empty run of whitespace and the rest: `split()` gives the
      word followed by the tokens of the rest. */
  lemma WordThenGap(w: string, gap: string, t: string)
    requires IsWord(w) && gap != [] && AllSpace(gap)
    ensures SplitWs(w + gap + t) == [w] + SplitWs(t)
  {
    assert w + gap + t == w + (gap + t);
    SplitWsStep(w + (gap + t), w, gap + t);
    SplitWsSkip(gap, t);
  }

  /** Words joined by single spaces split back into the same words. */
  lemma {:induction false} JoinThenSplitWs(words: seq<string>)
    requires forall i | 0 <= i < |words| :: IsWord(words[i])
    ensures SplitWs(Join(" ", words)) == words
    decreases |words|
  {
    if |words| == 1 {
      SplitWsStep(words[0], words[0], []);
      assert words[0] + [] == words[0];
    } else if |words| > 1 {
      var w := words[0];
      var rest := Join(" ", words[1..]);
      assert words == [w] + words[1..];
      JoinStep(" ", w, words[1..]);
      assert w + " " + rest == w + (" " + rest);
      SplitWsStep(w + " " + rest, w, " " + rest);
      assert (" " + rest)[1..] == rest;
      JoinThenSplitWs(words[1..]);
    }
  }
}
