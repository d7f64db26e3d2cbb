/** `ToolShedRepo.parseEmail` (ToolShedEmailParsing.py:77-160): decoding one
    notification, given as its header lines and its body lines (the IMAP
    payloads already decoded and split on "\r\n"), into a `Notice`. */
module Notices {
  import opened Results
  import opened PyText
  import opened Polishing
  import opened Links

  /** The address tool shed notifications come from (ToolShedEmailParsing.py:27). */
  const TOOLSHED_SENDER := "galaxy-no-reply@toolshed.g2.bx.psu.edu"

  /** Header line indexes and the lengths of their "From: " and "Subject: " prefixes. */
  const FROM := 0
  const SUBJECT := 1
  const FROM_PREFIX := 6
  const SUBJECT_PREFIX := 9

  /** Body line indexes (ToolShedEmailParsing.py:36-39); the repository-name
      line (index 2) and line 4 are never read. */
  const LINK_LINE := 1
  const REVISION_LINE := 3
  const DESCR_START_LINE := 5

  /** The fields `parseEmail` sets on a tool shed notification. */
  datatype Notice = Notice(
    sender: string,
    subject: string,
    url: string,
    name: string,
    authorUrl: string,
    author: string,
    revision: string,
    commit: string)

  /** The ways decoding stops. `NotToolShed` is the early `return` for a
      foreign sender; the others are the `IndexError`s the source raises on a
      short header, body, token list or field list, plus links outside the
      modelled URL shape. */
  datatype ParseError =
    | MissingHeaderLine
    | NotToolShed(sender: string, subject: string)
    | MissingLine(index: nat)
    | MissingField(index: nat)
    | UnmodelledUrl(url: string)
    | BarePlanemoLine(index: nat)

  /** The line that ends the change description: its text before the first
      ":" is "Uploaded by" or "Changed by". */
  predicate IsStopLine(line: string) {
    var key := SplitOn(line, ':')[0];
    key == "Uploaded by" || key == "Changed by"
  }

  /** What description line `index` adds to the commit message, before the
      message is polished again (ToolShedEmailParsing.py:147-156). With the
      strip flag on, a line that is exactly "planemo" has no second
      " "-field to compare, and the source raises. */
  function LinePiece(line: string, index: nat, stripPlanemo: bool): (r: Result<string, ParseError>)
    ensures r.Failure? <==> stripPlanemo && line == "planemo"
    ensures r.Failure? ==> r.error == BarePlanemoLine(index)
  {
    var parts := SplitOn(line, ' ');
    SplitOnSingle(line, ' ');
    if parts[0] == "Uploaded" then
      Success(if |parts| > 1 then Join(" ", parts[1..]) else "")
    else if stripPlanemo && parts[0] == "planemo" then
      if |parts| < 2 then Failure(BarePlanemoLine(index))
      else if parts[1] == "upload" then Success("")
      else Success(line)
    else
      Success(line)
  }

  /** The description loop from line `i` on, with `acc` the message so far:
      stop at the first stop line, otherwise add the line's piece and polish.
      Running off the end of the body is the source's `IndexError`. */
  function CommitFrom(body: seq<string>, i: nat, acc: string, stripPlanemo: bool): (r: Result<string, ParseError>)
    requires IsPolished(acc)
    ensures r.Success? ==> IsPolished(r.value)
    ensures r.Failure? ==> r.error.MissingLine? || r.error.BarePlanemoLine?
    decreases |body| - i
  {
    if i >= |body| then Failure(MissingLine(i))
    else if IsStopLine(body[i]) then Success(acc)
    else
      match LinePiece(body[i], i, stripPlanemo)
      case Failure(e) => Failure(e)
      case Success(piece) => CommitFrom(body, i + 1, Polish(acc + piece), stripPlanemo)
  }

  /** Where the description loop started at line `i` stops: the first
      stop line from `i` on, or `|body|` when there is none. */
  function StopIndex(body: seq<string>, i: nat): (k: nat)
    ensures i <= k
    decreases |body| - i
  {
    if i >= |body| || IsStopLine(body[i]) then i else StopIndex(body, i + 1)
  }

  /** `StopIndex` is the first stop line at or after `i`. */
  lemma {:induction false} StopIndexIsFirst(body: seq<string>, i: nat, k: nat)
    requires i <= |body| && k == StopIndex(body, i)
    ensures k <= |body|
    ensures k < |body| ==> IsStopLine(body[k])
    ensures forall j | i <= j < k :: !IsStopLine(body[j])
    decreases |body| - i
  {
    if i < |body| && !IsStopLine(body[i]) {
      StopIndexIsFirst(body, i + 1, k);
    }
  }

  /** The loop ends well exactly at the first stop line, and runs off the
      end of the body when there is none. */
  lemma {:induction false} CommitFromStops(
    body: seq<string>, i: nat, acc: string, stripPlanemo: bool, r: Result<string, ParseError>)
    requires IsPolished(acc) && r == CommitFrom(body, i, acc, stripPlanemo)
    ensures r.Success? ==> StopIndex(body, i) < |body|
    ensures r.Failure? && r.error.MissingLine? ==> r.error.index >= |body| && StopIndex(body, i) >= |body|
    decreases |body| - i
  {
    if i < |body| && !IsStopLine(body[i]) {
      var p := LinePiece(body[i], i, stripPlanemo);
      if p.Success? {
        var next := Polish(acc + p.value);
        assert r == CommitFrom(body, i + 1, next, stripPlanemo);
        CommitFromStops(body, i + 1, next, stripPlanemo, r);
      }
    }
  }

  /** `parseEmail`: check the sender, then read the link from body line 1,
      the revision from body line 3 and the change description from line 5
      up to the stop line. */
  function ParseEmail(headers: seq<string>, body: seq<string>, stripPlanemo: bool): (r: Result<Notice, ParseError>)
    ensures r == Failure(MissingHeaderLine) <==> |headers| < 2
    ensures |headers| >= 2 && Drop(headers[FROM], FROM_PREFIX) != TOOLSHED_SENDER ==>
      r == Failure(NotToolShed(Drop(headers[FROM], FROM_PREFIX), Drop(headers[SUBJECT], SUBJECT_PREFIX)))
    ensures r.Success? ==>
      var n := r.value;
      && |headers| >= 2
      && n.sender == TOOLSHED_SENDER
      && n.subject == Drop(headers[SUBJECT], SUBJECT_PREFIX)
      && |body| > DESCR_START_LINE
      && LinkLayout(Link(n.url, n.name, n.authorUrl, n.author))
      && IsWord(n.url)
      && ':' !in n.revision
      && IsPolished(n.commit)
  {
    if |headers| < 2 then Failure(MissingHeaderLine)
    else
      var sender := Drop(headers[FROM], FROM_PREFIX);
      var subject := Drop(headers[SUBJECT], SUBJECT_PREFIX);
      if sender != TOOLSHED_SENDER then Failure(NotToolShed(sender, subject))
      else if |body| <= LINK_LINE then Failure(MissingLine(LINK_LINE))
      else
        var words := SplitWs(body[LINK_LINE]);
        if |words| < 3 then Failure(MissingField(LINK_LINE))
        else
          var url := words[2];
          match ParseLink(url)
          case None => Failure(UnmodelledUrl(url))
          case Some(link) =>
            if |body| <= REVISION_LINE then Failure(MissingLine(REVISION_LINE))
            else
              var fields := SplitOn(body[REVISION_LINE], ':');
              if |fields| < 3 then Failure(MissingField(REVISION_LINE))
              else
                CommitFromStops(body, DESCR_START_LINE, "", stripPlanemo,
                  CommitFrom(body, DESCR_START_LINE, "", stripPlanemo));
                match CommitFrom(body, DESCR_START_LINE, "", stripPlanemo)
                case Failure(e) => Failure(e)
                case Success(commit) =>
                  Success(Notice(sender, subject, url, link.name, link.authorUrl, link.author, fields[2], commit))
  }

  // ---------------------------------------------------------------------------
  // Properties of the description loop
  // ---------------------------------------------------------------------------

  /** A line whose first " "-field is "Uploaded" adds only the rest of the
      line, the remaining fields joined by " " (`line[9:]`), whatever the flag. */
  lemma UploadedLine(line: string, index: nat, stripPlanemo: bool)
    requires FirstWordIs(line, "Uploaded")
    ensures LinePiece(line, index, stripPlanemo) == Success(Drop(line, 9))
  {
    FirstField(line, "Uploaded");
    if line != "Uploaded" {
      var rest := line[9..];
      SplitAfterWord(line, "Uploaded");
      assert SplitOn(line, ' ')[1..] == SplitOn(rest, ' ');
      SplitThenJoin(rest, ' ');
    } else {
      SplitOnSingle(line, ' ');
    }
  }

  /** A line starting with the words "planemo upload" adds nothing when the
      strip flag is on and is appended verbatim when it is off. */
  lemma PlanemoLine(line: string, index: nat)
    requires FirstWordIs(line, "planemo upload")
    ensures LinePiece(line, index, true) == Success("")
    ensures LinePiece(line, index, false) == Success(line)
  {
    PlanemoParts(line);
  }

  lemma PlanemoParts(line: string)
    requires FirstWordIs(line, "planemo upload")
    ensures var parts := SplitOn(line, ' ');
      |parts| >= 2 && parts[0] == "planemo" && parts[1] == "upload"
  {
    assert "planemo upload" == "planemo" + " " + "upload";
    TwoWords(line, "planemo", "upload");
  }

  /** When `line` starts with the words `w1` and `w2`, they are the first
      two fields of `line.split(" ")`. */
  lemma TwoWords(line: string, w1: string, w2: string)
    requires ' ' !in w1 && ' ' !in w2
    requires FirstWordIs(line, w1 + " " + w2)
    ensures var parts := SplitOn(line, ' ');
      |parts| >= 2 && parts[0] == w1 && parts[1] == w2
  {
    var w := w1 + " " + w2;
    var n := |w1| + 1;
    assert line[..n] == w[..n] == w1 + " ";
    var rest := line[n..];
    SplitAfterWord(line, w1);
    assert FirstWordIs(rest, w2) by {
      if line != w {
        assert rest[..|w2| + 1] == line[n..|w| + 1];
        assert line[..|w| + 1] == w + " ";
        assert line[n..|w| + 1] == (w + " ")[n..] == w2 + " ";
      }
    }
    FirstField(rest, w2);
  }

  /** When `line` starts with the word `w` and a space, `line.split(" ")` is
      `w` followed by the fields of the rest. */
  lemma SplitAfterWord(line: string, w: string)
    requires ' ' !in w && |line| > |w| && line[..|w| + 1] == w + " "
    ensures SplitOn(line, ' ') == [w] + SplitOn(line[|w| + 1..], ' ')
  {
    var rest := line[|w| + 1..];
    assert line == w + [' '] + rest;
    IndexOfConcat(w, rest, ' ');
    assert line[..|w|] == w;
  }

  /** Every other line is appended verbatim: with the strip flag on that
      includes lines such as "planemo lint ..." whose second word is not
      "upload". */
  lemma OtherLine(line: string, index: nat, stripPlanemo: bool)
    requires !FirstWordIs(line, "Uploaded")
    requires stripPlanemo ==> !FirstWordIs(line, "planemo upload") && line != "planemo"
    ensures LinePiece(line, index, stripPlanemo) == Success(line)
  {
    var parts := SplitOn(line, ' ');
    FirstField(line, "Uploaded");
    if stripPlanemo && parts[0] == "planemo" {
      PlanemoOtherWord(line, parts);
    }
    VerbatimPiece(line, index, stripPlanemo, parts, LinePiece(line, index, stripPlanemo));
  }

  /** A line other than "planemo" and "planemo upload ..." whose first
      " "-field is "planemo" has a second field, and it is not "upload". */
  lemma PlanemoOtherWord(line: string, parts: seq<string>)
    requires parts == SplitOn(line, ' ') && parts[0] == "planemo"
    requires line != "planemo" && !FirstWordIs(line, "planemo upload")
    ensures |parts| >= 2 && parts[1] != "upload"
  {
    PlanemoUploadWords();
    SecondField(line, "planemo", "upload", parts);
  }

  lemma PlanemoUploadWords()
    ensures ' ' !in "planemo" && ' ' !in "upload"
    ensures "planemo" + " " + "upload" == "planemo upload"
  {
  }

  /** A line other than `w1` alone and not starting with `w1 + " " + w2`,
      whose first " "-field is `w1`, has a second field other than `w2`. */
  lemma SecondField(line: string, w1: string, w2: string, parts: seq<string>)
    requires ' ' !in w1 && ' ' !in w2
    requires parts == SplitOn(line, ' ') && parts[0] == w1
    requires line != w1 && !FirstWordIs(line, w1 + " " + w2)
    ensures |parts| >= 2 && parts[1] != w2
  {
    SplitOnSingle(line, ' ');
    if parts[1] == w2 {
      FirstTwoFields(line, w1, w2, parts);
    }
  }

  /** The branches of `LinePiece` that keep the line as it is. */
  lemma VerbatimPiece(line: string, index: nat, stripPlanemo: bool, parts: seq<string>, r: Result<string, ParseError>)
    requires parts == SplitOn(line, ' ') && r == LinePiece(line, index, stripPlanemo)
    requires parts[0] != "Uploaded"
    requires stripPlanemo && parts[0] == "planemo" ==> |parts| >= 2 && parts[1] != "upload"
    ensures r == Success(line)
  {
  }

  /** When the first two fields of `line.split(" ")` are the words `w1` and
      `w2`, `line` starts with `w1 + " " + w2` (the converse of `TwoWords`). */
  lemma FirstTwoFields(line: string, w1: string, w2: string, parts: seq<string>)
    requires ' ' !in w1 && ' ' !in w2
    requires parts == SplitOn(line, ' ')
    requires |parts| >= 2 && parts[0] == w1 && parts[1] == w2
    ensures FirstWordIs(line, w1 + " " + w2)
  {
    SplitOnSingle(line, ' ');
    FirstField(line, w1);
    var rest := line[|w1| + 1..];
    SplitAfterWord(line, w1);
    assert SplitOn(rest, ' ')[0] == w2;
    FirstField(rest, w2);
    WordsPrefix(line, w1, rest, w2);
  }

  /** `w1`, a space and a text starting with the word `w2` start with the
      words `w1` and `w2`. */
  lemma WordsPrefix(line: string, w1: string, rest: string, w2: string)
    requires |line| > |w1| && line[..|w1| + 1] == w1 + " " && rest == line[|w1| + 1..]
    requires FirstWordIs(rest, w2)
    ensures FirstWordIs(line, w1 + " " + w2)
  {
    var w := w1 + " " + w2;
    assert line == w1 + " " + rest;
    if rest != w2 {
      assert line[..|w| + 1] == w1 + " " + rest[..|w2| + 1];
    }
  }

  /** The loop reads nothing before line `i` and nothing after the first
      stop line `k`, not even the stop line's own text: two bodies that agree
      on lines `i` to `k - 1` and both stop at `k` give the same message. */
  lemma {:induction false} CommitReadsUpToStop(
    b1: seq<string>, b2: seq<string>, i: nat, acc: string, stripPlanemo: bool, k: nat)
    requires IsPolished(acc)
    requires i <= k < |b1| && k < |b2|
    requires IsStopLine(b1[k]) && IsStopLine(b2[k])
    requires forall j | i <= j < k :: b1[j] == b2[j]
    ensures CommitFrom(b1, i, acc, stripPlanemo) == CommitFrom(b2, i, acc, stripPlanemo)
    decreases k - i
  {
    if i < k && !IsStopLine(b1[i]) {
      match LinePiece(b1[i], i, stripPlanemo)
      case Success(piece) =>
        CommitReadsUpToStop(b1, b2, i + 1, Polish(acc + piece), stripPlanemo, k);
      case Failure(_) =>
    }
  }

  /** A blank line adds nothing: the message is already polished. */
  lemma BlankLine(acc: string, index: nat, stripPlanemo: bool)
    requires IsPolished(acc)
    ensures !IsStopLine("")
    ensures LinePiece("", index, stripPlanemo) == Success("")
    ensures Polish(acc + "") == acc
  {
    SplitOnSingle("", ' ');
    SplitOnSingle("", ':');
    assert acc + "" == acc;
    PolishFixedPoints(acc);
  }

  /** The two layouts the source documents: an "Uploaded ..." line, a blank
      line, then the "Uploaded by:" or "Changed by:" line. The message is the
      polished text after "Uploaded " ("" for a bare "Uploaded"). */
  lemma UploadedDescription(body: seq<string>, stripPlanemo: bool)
    requires |body| > DESCR_START_LINE + 2
    requires FirstWordIs(body[DESCR_START_LINE], "Uploaded") && !IsStopLine(body[DESCR_START_LINE])
    requires body[DESCR_START_LINE + 1] == ""
    requires IsStopLine(body[DESCR_START_LINE + 2])
    ensures CommitFrom(body, DESCR_START_LINE, "", stripPlanemo)
      == Success(Polish(Drop(body[DESCR_START_LINE], 9)))
  {
    var msg := Drop(body[DESCR_START_LINE], 9);
    UploadedLine(body[DESCR_START_LINE], DESCR_START_LINE, stripPlanemo);
    assert "" + msg == msg;
    CommitStep(body, DESCR_START_LINE, "", stripPlanemo, msg);
    BlankLine(Polish(msg), DESCR_START_LINE + 1, stripPlanemo);
    CommitStep(body, DESCR_START_LINE + 1, Polish(msg), stripPlanemo, "");
  }

  /** One turn of the loop: a line that is not the stop line contributes its
      piece and the message is polished again. */
  lemma CommitStep(body: seq<string>, i: nat, acc: string, stripPlanemo: bool, piece: string)
    requires IsPolished(acc)
    requires i < |body| && !IsStopLine(body[i])
    requires LinePiece(body[i], i, stripPlanemo) == Success(piece)
    ensures CommitFrom(body, i, acc, stripPlanemo) == CommitFrom(body, i + 1, Polish(acc + piece), stripPlanemo)
  {
  }

  // ---------------------------------------------------------------------------
  // Properties of parseEmail
  // ---------------------------------------------------------------------------

  /** A foreign sender stops decoding before the body is looked at: the
      outcome carries only the sender and subject, whatever the body and flag. */
  lemma ForeignSenderReadsNoBody(
    headers: seq<string>, b1: seq<string>, b2: seq<string>, f1: bool, f2: bool)
    requires |headers| >= 2 && Drop(headers[FROM], FROM_PREFIX) != TOOLSHED_SENDER
    ensures ParseEmail(headers, b1, f1) == ParseEmail(headers, b2, f2)
    ensures ParseEmail(headers, b1, f1).Failure? && ParseEmail(headers, b1, f1).error.NotToolShed?
  {
  }

  /** Decoding reads body lines 1 and 3 and the description lines from 5 up
      to the first stop line, and nothing else: lines 0, 2 and 4, the stop
      line's text and everything after it make no difference. */
  lemma ParseReadsOnlyKeyLines(
    headers: seq<string>, b1: seq<string>, b2: seq<string>, stripPlanemo: bool, k: nat)
    requires DESCR_START_LINE <= k < |b1| && k < |b2|
    requires b1[LINK_LINE] == b2[LINK_LINE] && b1[REVISION_LINE] == b2[REVISION_LINE]
    requires forall j | DESCR_START_LINE <= j < k :: b1[j] == b2[j]
    requires IsStopLine(b1[k]) && IsStopLine(b2[k])
    ensures ParseEmail(headers, b1, stripPlanemo) == ParseEmail(headers, b2, stripPlanemo)
  {
    CommitReadsUpToStop(b1, b2, DESCR_START_LINE, "", stripPlanemo, k);
  }

  /** The documented link line, "Sharable link:" padded with whitespace
      before the URL, has the URL as its third `split()` token. */
  lemma SharableLinkLine(pad: string, url: string)
    requires pad != [] && AllSpace(pad) && IsWord(url)
    ensures SplitWs("Sharable link:" + pad + url) == ["Sharable", "link:", url]
  {
    SharableWords();
    ThreeTokens("Sharable", "link:", pad, url);
  }

  /** Two words separated by one space, whitespace, and a third word split
      into those three words. */
  lemma ThreeTokens(w1: string, w2: string, pad: string, url: string)
    requires IsWord(w1) && IsWord(w2) && IsWord(url) && pad != [] && AllSpace(pad)
    ensures SplitWs(w1 + " " + w2 + pad + url) == [w1, w2, url]
  {
    assert AllSpace(" ");
    assert w1 + " " + w2 + pad + url == w1 + " " + (w2 + pad + url);
    WordThenGap(w1, " ", w2 + pad + url);
    WordThenGap(w2, pad, url);
    SplitWsStep(url, url, []);
    assert url + [] == url;
  }

  // Literal facts live in lemmas of their own (here and in
  // `PlanemoUploadWords`) to keep the proofs that use them cheap.
  lemma SharableWords()
    ensures IsWord("Sharable") && IsWord("link:")
    ensures "Sharable link:" == "Sharable" + " " + "link:"
  {
  }

  /** The documented revision line "Revision:<padding><number>:<hash>" has
      the hash as its third ":"-field. */
  lemma RevisionLine(number: string, hash: string)
    requires ':' !in number && ':' !in hash
    ensures var fields := ["Revision", number, hash];
      && "Revision:" + number + ":" + hash == Join(":", fields)
      && forall i | 0 <= i < |fields| :: ':' !in fields[i]
  {
    var fields := ["Revision", number, hash];
    assert ':' !in "Revision";
    JoinStep(":", number, [hash]);
    assert [number] + [hash] == fields[1..];
    JoinStep(":", "Revision", fields[1..]);
    assert [fields[0]] + fields[1..] == fields;
  }

  /** A notification laid out as the source documents it, with link line
      "Sharable link:         <url>" and revision line
      "Revision:              <number>:<hash>", decodes to that URL, the
      last two path segments as author and name, and the hash. */
  lemma DocumentedNotification(
    headers: seq<string>, body: seq<string>, stripPlanemo: bool,
    pad1: string, pad2: string, p: UrlParts, dir: string, owner: string, repo: string,
    number: string, hash: string)
    requires |headers| >= 2 && Drop(headers[FROM], FROM_PREFIX) == TOOLSHED_SENDER
    requires |body| > REVISION_LINE
    requires pad1 != [] && AllSpace(pad1) && IsWord(Unparse(p))
    requires body[LINK_LINE] == "Sharable link:" + pad1 + Unparse(p)
    requires PlainUrl(p) && p.path == dir + "/" + owner + "/" + repo
    requires owner != [] && '/' !in owner && '/' !in repo
    requires ':' !in pad2 + number && ':' !in hash
    requires body[REVISION_LINE] == "Revision:" + (pad2 + number) + ":" + hash
    requires CommitFrom(body, DESCR_START_LINE, "", stripPlanemo).Success?
    ensures ParseEmail(headers, body, stripPlanemo) == Success(Notice(
      TOOLSHED_SENDER, Drop(headers[SUBJECT], SUBJECT_PREFIX), Unparse(p), repo,
      p.scheme + "://" + p.netloc + (dir + "/" + owner), owner, hash,
      CommitFrom(body, DESCR_START_LINE, "", stripPlanemo).value))
  {
    SharableLinkLine(pad1, Unparse(p));
    RevisionLine(pad2 + number, hash);
    WellFormedNotification(headers, body, stripPlanemo, p, dir, owner, repo, ["Revision", pad2 + number, hash]);
  }

  /** A well-formed notification decodes to the fields a reader would pick
      out by hand: the link is the third word of line 1, of the form
      `scheme://host<dir>/<owner>/<repo>`; the revision is the third
      ":"-field of line 3; the commit message is what the description loop
      collects. */
  lemma WellFormedNotification(
    headers: seq<string>, body: seq<string>, stripPlanemo: bool,
    p: UrlParts, dir: string, owner: string, repo: string,
    revisionFields: seq<string>)
    requires |headers| >= 2 && Drop(headers[FROM], FROM_PREFIX) == TOOLSHED_SENDER
    requires |body| > REVISION_LINE
    requires |SplitWs(body[LINK_LINE])| >= 3 && SplitWs(body[LINK_LINE])[2] == Unparse(p)
    requires PlainUrl(p) && p.path == dir + "/" + owner + "/" + repo
    requires owner != [] && '/' !in owner && '/' !in repo
    requires body[REVISION_LINE] == Join(":", revisionFields)
    requires |revisionFields| >= 3 && forall i | 0 <= i < |revisionFields| :: ':' !in revisionFields[i]
    requires CommitFrom(body, DESCR_START_LINE, "", stripPlanemo).Success?
    ensures ParseEmail(headers, body, stripPlanemo) == Success(Notice(
      TOOLSHED_SENDER, Drop(headers[SUBJECT], SUBJECT_PREFIX), Unparse(p), repo,
      p.scheme + "://" + p.netloc + (dir + "/" + owner), owner, revisionFields[2],
      CommitFrom(body, DESCR_START_LINE, "", stripPlanemo).value))
  {
    JoinThenSplit(revisionFields, ':');
    ToolShedLink(p, dir, owner, repo);
  }
}
