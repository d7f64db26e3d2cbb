/** The repository link of a notification and what the parser derives from
    it (ToolShedEmailParsing.py:134-138): the repository name, the author's
    URL and the author. `urllib.parse.urlparse` is modelled only for links of
    the shape `scheme://netloc/path`; `os.path.split` is modelled in full. */
module Links {
  import opened Results
  import opened PyText

  /** The three parts of a parsed URL the parser uses. */
  datatype UrlParts = UrlParts(scheme: string, netloc: string, path: string)

  /** Characters that would make `urlparse` split off parameters, a query or
      a fragment, check bracketed hosts, normalise a non-ASCII host and
      possibly raise `ValueError`, or delete a tab, carriage return or line
      feed before parsing: links holding one are outside the model. */
  predicate Unmodelled(c: char) {
    || c == ';' || c == '?' || c == '#' || c == '[' || c == ']'
    || c == '\t' || c == '\r' || c == '\n'
    || c > '\U{7F}'
  }

  /** Scheme characters the model accepts: lower-case ASCII letters, on which
      the lower-casing `urlparse` applies to a scheme is the identity. */
  predicate SchemeChar(c: char) {
    'a' <= c <= 'z'
  }

  predicate NoUnmodelled(s: string) {
    forall k | 0 <= k < |s| :: !Unmodelled(s[k])
  }

  /** The URLs of the modelled shape, given by their parts. */
  predicate PlainUrl(p: UrlParts) {
    && |p.scheme| > 0
    && (forall k | 0 <= k < |p.scheme| :: SchemeChar(p.scheme[k]))
    && '/' !in p.netloc
    && (p.path == [] || p.path[0] == '/')
    && NoUnmodelled(p.netloc)
    && NoUnmodelled(p.path)
  }

  /** `urlunparse` for the modelled shape. */
  function Unparse(p: UrlParts): string {
    p.scheme + "://" + p.netloc + p.path
  }

  /** `urllib.parse.urlparse` restricted to plain `scheme://netloc/path`
      URLs: the scheme ends at the first ":", it must be followed by "//",
      and the network location runs up to the next "/". Anything else is
      reported as `None`. */
  function ParseUrl(u: string): (r: Option<UrlParts>)
    ensures r.Some? ==> PlainUrl(r.value) && Unparse(r.value) == u
  {
    var k := IndexOf(u, ':');
    if k == 0 || |u| < k + 3 || u[k..k + 3] != "://" || !NoUnmodelled(u) then None
    else if exists j | 0 <= j < k :: !SchemeChar(u[j]) then None
    else
      var rest := u[k + 3..];
      var n := IndexOf(rest, '/');
      var p := UrlParts(u[..k], rest[..n], rest[n..]);
      ParsedShape(u, k, rest, n, p);
      Some(p)
  }

  /** The parts `ParseUrl` cuts out have the modelled shape and put back
      together give the URL. */
  lemma ParsedShape(u: string, k: nat, rest: string, n: nat, p: UrlParts)
    requires 0 < k && k + 3 <= |u| && u[k..k + 3] == "://" && NoUnmodelled(u)
    requires forall j | 0 <= j < k :: SchemeChar(u[j])
    requires rest == u[k + 3..] && n == IndexOf(rest, '/')
    requires p == UrlParts(u[..k], rest[..n], rest[n..])
    ensures PlainUrl(p) && Unparse(p) == u
  {
    ParsedJoin(u, k, rest, n, p);
    NoUnmodelledSuffix(u, k + 3);
    NoUnmodelledSuffix(rest, n);
    assert forall j | 0 <= j < k :: p.scheme[j] == u[j];
  }

  lemma ParsedJoin(u: string, k: nat, rest: string, n: nat, p: UrlParts)
    requires 0 < k && k + 3 <= |u| && u[k..k + 3] == "://"
    requires rest == u[k + 3..] && n <= |rest|
    requires p == UrlParts(u[..k], rest[..n], rest[n..])
    ensures Unparse(p) == u
  {
    assert u == u[..k] + u[k..k + 3] + rest;
    assert rest == p.netloc + p.path;
    assert Unparse(p) == p.scheme + "://" + (p.netloc + p.path);
  }

  lemma NoUnmodelledSuffix(s: string, i: nat)
    requires i <= |s| && NoUnmodelled(s)
    ensures NoUnmodelled(s[i..]) && NoUnmodelled(s[..i])
  {
    assert forall j | 0 <= j < |s| - i :: s[i..][j] == s[i + j];
  }

  /** Every URL of the modelled shape is parsed back into its parts. */
  lemma ParseUnparse(p: UrlParts)
    requires PlainUrl(p)
    ensures ParseUrl(Unparse(p)) == Some(p)
  {
    var u := Unparse(p);
    var k := |p.scheme|;
    var rest := p.netloc + p.path;
    UnparseLayout(p);
    UnparseModelled(p);
    RestLayout(p);
    assert forall j | 0 <= j < k :: u[j] == p.scheme[j];
  }

  lemma UnparseLayout(p: UrlParts)
    requires PlainUrl(p)
    ensures var u, k := Unparse(p), |p.scheme|;
      && IndexOf(u, ':') == k
      && |u| >= k + 3
      && u[..k] == p.scheme
      && u[k..k + 3] == "://"
      && u[k + 3..] == p.netloc + p.path
  {
    var u := Unparse(p);
    var rest := p.netloc + p.path;
    assert u == p.scheme + [':'] + ("//" + rest);
    assert ':' !in p.scheme by {
      forall j | 0 <= j < |p.scheme| ensures p.scheme[j] != ':' {
        assert SchemeChar(p.scheme[j]);
      }
    }
    IndexOfConcat(p.scheme, "//" + rest, ':');
  }

  lemma UnparseModelled(p: UrlParts)
    requires PlainUrl(p)
    ensures NoUnmodelled(Unparse(p))
  {
    var pre := p.scheme + "://";
    assert NoUnmodelled(pre) by {
      forall j | 0 <= j < |pre| ensures !Unmodelled(pre[j]) {
        if j < |p.scheme| {
          assert SchemeChar(pre[j]);
        }
      }
    }
    NoUnmodelledConcat(pre, p.netloc);
    NoUnmodelledConcat(pre + p.netloc, p.path);
  }

  lemma NoUnmodelledConcat(a: string, b: string)
    requires NoUnmodelled(a) && NoUnmodelled(b)
    ensures NoUnmodelled(a + b)
  {
    assert forall j | |a| <= j < |a + b| :: (a + b)[j] == b[j - |a|];
  }

  lemma RestLayout(p: UrlParts)
    requires PlainUrl(p)
    ensures var rest := p.netloc + p.path;
      var n := IndexOf(rest, '/');
      rest[..n] == p.netloc && rest[n..] == p.path
  {
    var rest := p.netloc + p.path;
    if p.path == [] {
      assert rest == p.netloc;
    } else {
      assert rest == p.netloc + ['/'] + p.path[1..];
      IndexOfConcat(p.netloc, p.path[1..], '/');
    }
  }

  // ---------------------------------------------------------------------------
  // os.path.split
  // ---------------------------------------------------------------------------

  /** One past the last `c` in `s`, or 0 when there is none (`s.rfind(c) + 1`). */
  function AfterLast(s: string, c: char): (i: nat)
    ensures i <= |s|
    ensures i > 0 ==> s[i - 1] == c
    ensures c !in s[i..]
    decreases |s|
  {
    if s == [] then 0
    else if s[|s| - 1] == c then |s|
    else
      var i := AfterLast(s[..|s| - 1], c);
      assert s[i..] == s[..|s| - 1][i..] + [s[|s| - 1]];
      i
  }

  /** `s.rstrip(c)` for one character `c`. */
  function TrimEndChar(s: string, c: char): (r: string)
    ensures |r| <= |s| && r == s[..|r|]
    ensures forall k | |r| <= k < |s| :: s[k] == c
    ensures r == [] || r[|r| - 1] != c
    decreases |s|
  {
    if s != [] && s[|s| - 1] == c then TrimEndChar(s[..|s| - 1], c) else s
  }

  predicate AllSlashes(s: string) {
    forall k | 0 <= k < |s| :: s[k] == '/'
  }

  /** `os.path.split(p)` (POSIX): `tail` is everything after the last "/";
      `head` is everything up to it, with its trailing slashes removed
      unless it consists of slashes only. */
  function PathSplit(p: string): (r: (string, string))
    ensures LastSegment(p, r.1)
    ensures |r.0| + |r.1| <= |p| && p[..|r.0|] == r.0
    ensures forall k | |r.0| <= k < |p| - |r.1| :: p[k] == '/'
    ensures r.0 == [] || AllSlashes(r.0) || r.0[|r.0| - 1] != '/'
    ensures AllSlashes(p[..|p| - |r.1|]) ==> r.0 == p[..|p| - |r.1|]
  {
    var i := AfterLast(p, '/');
    var head := p[..i];
    var tail := p[i..];
    if head != [] && !AllSlashes(head) then
      (TrimEndChar(head, '/'), tail)
    else
      (head, tail)
  }

  // ---------------------------------------------------------------------------
  // The repository link
  // ---------------------------------------------------------------------------

  /** What the parser derives from the shareable link. */
  datatype Link = Link(url: string, name: string, authorUrl: string, author: string)

  /** `url` ends with `w` and `w` is all of `url` or follows a "/": `w` is
      the last "/"-separated segment of `url`. */
  predicate LastSegment(url: string, w: string) {
    && '/' !in w
    && |w| <= |url|
    && url[|url| - |w|..] == w
    && (|w| == |url| || url[|url| - |w| - 1] == '/')
  }

  /** The link facts ToolShedEmailParsing.py:136-138 establish: `url`
      runs from the author URL, over nothing but slashes, to the repository
      name; a non-empty name is the last "/"-segment of `url`; and the
      author is the author URL's last "/"-segment. */
  predicate LinkLayout(l: Link) {
    && '/' !in l.name
    && (l.name == [] || LastSegment(l.url, l.name))
    && LastSegment(l.authorUrl, l.author)
    && |l.authorUrl| + |l.name| <= |l.url|
    && l.url[..|l.authorUrl|] == l.authorUrl
    && l.url[|l.url| - |l.name|..] == l.name
    && (forall k | |l.authorUrl| <= k < |l.url| - |l.name| :: l.url[k] == '/')
  }

  /** The link fields of ToolShedEmailParsing.py:135-138: the name is the
      path's final segment, the author URL is `scheme://netloc` followed by
      the path without that segment, and the author is the author URL's
      last "/"-segment. Links outside the modelled URL shape give `None`. */
  function ParseLink(url: string): (r: Option<Link>)
    ensures r.None? <==> ParseUrl(url).None?
    ensures r.Some? ==> r.value.url == url && LinkLayout(r.value)
    ensures r.Some? ==>
      var parts := ParseUrl(url).value;
      && LastSegment(parts.path, r.value.name)
      && r.value.authorUrl == parts.scheme + "://" + parts.netloc + PathSplit(parts.path).0
  {
    match ParseUrl(url)
    case None => None
    case Some(parts) => Some(LinkOf(parts))
  }

  /** The fields derived from a parsed URL. */
  function LinkOf(parts: UrlParts): (l: Link)
    requires PlainUrl(parts)
    ensures l.url == Unparse(parts) && LinkLayout(l)
    ensures LastSegment(parts.path, l.name)
    ensures l.authorUrl == parts.scheme + "://" + parts.netloc + PathSplit(parts.path).0
  {
    var prefix := parts.scheme + "://" + parts.netloc;
    var split := PathSplit(parts.path);
    var authorUrl := prefix + split.0;
    var author := LastOf(SplitOn(authorUrl, '/'));
    LastOfSplit(authorUrl);
    SplitGeometry(prefix, parts.path);
    NameIsLastSegment(prefix, parts.path, split.1);
    Link(prefix + parts.path, split.1, authorUrl, author)
  }

  /** The last segment of a path that is empty or starts with "/" is, when
      non-empty, also the last segment of any URL the path ends. */
  lemma NameIsLastSegment(prefix: string, path: string, name: string)
    requires path == [] || path[0] == '/'
    requires LastSegment(path, name)
    ensures name == [] || LastSegment(prefix + path, name)
  {
    if name != [] {
      var url := prefix + path;
      assert url[|url| - |name|..] == path[|path| - |name|..];
      assert url[|url| - |name| - 1] == path[|path| - |name| - 1];
    }
  }

  /** Python's `xs[-1]`. */
  function LastOf(xs: seq<string>): string
    requires |xs| > 0
  {
    xs[|xs| - 1]
  }

  /** The last field of `s.split("/")` is the last "/"-segment of `s`. */
  lemma LastOfSplit(s: string)
    ensures LastSegment(s, LastOf(SplitOn(s, '/')))
  {
    var r := SplitOn(s, '/');
    var w := LastOf(r);
    assert w == r[|r| - 1] && '/' !in w;
    LastField(s, '/', w);
  }

  /** Where the head and tail of `os.path.split` sit inside `prefix + path`. */
  lemma SplitGeometry(prefix: string, path: string)
    ensures var (head, name) := PathSplit(path);
      var url, au := prefix + path, prefix + head;
      && |au| + |name| <= |url|
      && url[..|au|] == au
      && url[|url| - |name|..] == name
      && (forall k | |au| <= k < |url| - |name| :: url[k] == '/')
  {
    var (head, name) := PathSplit(path);
    var url := prefix + path;
    assert url[..|prefix + head|] == prefix + path[..|head|];
    assert url[|url| - |name|..] == path[|path| - |name|..];
    assert forall k | |prefix| <= k < |url| :: url[k] == path[k - |prefix|];
  }

  /** A path has one last segment. */
  lemma LastSegmentUnique(s: string, w1: string, w2: string)
    requires LastSegment(s, w1) && LastSegment(s, w2)
    ensures w1 == w2
  {
  }

  lemma {:induction false} AfterLastConcat(a: string, b: string, c: char)
    requires c !in b
    ensures AfterLast(a + [c] + b, c) == |a| + 1
    decreases |b|
  {
    if b != [] {
      var s := a + [c] + b;
      assert s[..|s| - 1] == a + [c] + b[..|b| - 1];
      AfterLastConcat(a, b[..|b| - 1], c);
    } else {
      assert a + [c] + b == a + [c];
    }
  }

  /** `os.path.split(head + "/" + tail)` gives `(head, tail)` back when the
      tail has no "/" and the head does not end in one. */
  lemma PathSplitJoin(head: string, tail: string)
    requires head != [] && head[|head| - 1] != '/' && '/' !in tail
    ensures PathSplit(head + "/" + tail) == (head, tail)
  {
    var p := head + "/" + tail;
    AfterLastConcat(head, tail, '/');
    assert p[..|head| + 1] == head + "/";
    assert p[|head| + 1..] == tail;
    assert !AllSlashes(head + "/") by {
      assert (head + "/")[|head| - 1] != '/';
    }
    assert TrimEndChar(head + "/", '/') == head by {
      assert (head + "/")[..|head|] == head;
    }
  }

  /** A tool shed link `scheme://host<dir>/<owner>/<repo>` names repository
      `repo` of author `owner`, whose page is `scheme://host<dir>/<owner>`. */
  lemma ToolShedLink(p: UrlParts, dir: string, owner: string, repo: string)
    requires PlainUrl(p) && p.path == dir + "/" + owner + "/" + repo
    requires owner != [] && '/' !in owner && '/' !in repo
    ensures ParseLink(Unparse(p))
      == Some(Link(Unparse(p), repo, p.scheme + "://" + p.netloc + (dir + "/" + owner), owner))
  {
    ParseUnparse(p);
    PathSplitJoin(dir + "/" + owner, repo);
    LinkAuthor(p.scheme + "://" + p.netloc, dir, owner);
  }

  // The documented link is assembled from short pieces, and its literal
  // facts are proved in small separate lemmas, because one proof over the
  // whole literal is too costly for the solver.

  /** The link of the documented notification,
      "https://toolshed.g2.bx.psu.edu/view/kaymccoy/calculate_fitness", by its parts. */
  const DOCUMENTED_PARTS := UrlParts("https", "toolshed.g2.bx.psu.edu", "/view" + "/" + "kaymccoy" + "/" + "calculate_fitness")

  /** The documented link names repository "calculate_fitness" of author
      "kaymccoy", whose page is the link up to "/kaymccoy". */
  lemma DocumentedLink()
    ensures var p := DOCUMENTED_PARTS;
      ParseLink(Unparse(p)) == Some(Link(
        Unparse(p), "calculate_fitness", p.scheme + "://" + p.netloc + ("/view" + "/" + "kaymccoy"), "kaymccoy"))
  {
    DocumentedShape();
    ToolShedLink(DOCUMENTED_PARTS, "/view", "kaymccoy", "calculate_fitness");
  }

  lemma DocumentedShape()
    ensures PlainUrl(DOCUMENTED_PARTS)
  {
    DocumentedScheme();
    DocumentedHost();
    DocumentedPath();
  }

  lemma DocumentedScheme()
    ensures forall k | 0 <= k < |"https"| :: SchemeChar("https"[k])
  {
  }

  lemma DocumentedHost()
    ensures NoUnmodelled("toolshed.g2.bx.psu.edu") && '/' !in "toolshed.g2.bx.psu.edu"
  {
  }

  lemma DocumentedPath()
    ensures NoUnmodelled("/view" + "/" + "kaymccoy" + "/" + "calculate_fitness")
  {
    DocumentedSegments();
    NoUnmodelledConcat("/view", "/");
    NoUnmodelledConcat("/view" + "/", "kaymccoy");
    NoUnmodelledConcat("/view" + "/" + "kaymccoy", "/");
    NoUnmodelledConcat("/view" + "/" + "kaymccoy" + "/", "calculate_fitness");
  }

  lemma DocumentedSegments()
    ensures NoUnmodelled("/view") && NoUnmodelled("/") && NoUnmodelled("kaymccoy")
    ensures NoUnmodelled("calculate_fitness")
  {
  }

  lemma LinkAuthor(prefix: string, dir: string, owner: string)
    requires owner != [] && '/' !in owner
    ensures LastOf(SplitOn(prefix + (dir + "/" + owner), '/')) == owner
  {
    var authorUrl := prefix + (dir + "/" + owner);
    LastOfSplit(authorUrl);
    assert LastSegment(authorUrl, owner) by {
      assert authorUrl == (prefix + dir + "/") + owner;
    }
    LastSegmentUnique(authorUrl, owner, LastOf(SplitOn(authorUrl, '/')));
  }
}
