/** The catalog merge of `getToolShedInfo` and the classifiers `isUpdate`,
    `isNew` and `isPasse` (ToolShedEmailParsing.py:162-207). The catalog
    lookup itself is not modelled: its reply arrives as an already decoded
    `CatalogReply`. */
module Catalog {
  import opened Results
  import opened PyText
  import opened Polishing
  import opened Notices

  /** The category given to a repository whose catalog entry has no type. */
  const DEFAULT_TYPE := "Unknown"

  /** The subject word (under `split()`) that tells new from updated. */
  const KIND_WORD := 3
  const NEW_WORD := "alert"
  const UPDATE_WORD := "update"

  /** What the catalog says about one revision: the three flags and the
      optional "description", "long_description" and "type" entries. */
  datatype CatalogReply = CatalogReply(
    deleted: bool,
    deprecated: bool,
    malicious: bool,
    description: Option<string>,
    longDescription: Option<string>,
    repoType: Option<string>)

  /** A decoded notification together with the catalog's view of it. */
  datatype Repo = Repo(
    notice: Notice,
    passe: bool,
    synopsis: string,
    description: string,
    repoType: string)

  /** The polished text of an optional catalog entry, "" when it is absent. */
  function PolishedOr(entry: Option<string>): (r: string)
    ensures IsPolished(r)
    ensures r == [] <==> entry.None? || AllSpace(entry.value)
  {
    match entry
    case None => ""
    case Some(text) => Polish(text)
  }

  /** The merge at lines 176-185: a repository is passe when the catalog
      flags it deleted, deprecated or malicious; the synopsis and the
      description are the polished catalog texts, or "" when missing; the
      type is the catalog's, or "Unknown". */
  function Enrich(n: Notice, reply: CatalogReply): (r: Repo)
    ensures r.notice == n
    ensures r.passe <==> reply.deleted || reply.deprecated || reply.malicious
    ensures IsPolished(r.synopsis) && IsPolished(r.description)
    ensures r.synopsis == [] <==> reply.description.None? || AllSpace(reply.description.value)
    ensures r.description == [] <==> reply.longDescription.None? || AllSpace(reply.longDescription.value)
    ensures reply.description.Some? ==> r.synopsis == Polish(reply.description.value)
    ensures reply.longDescription.Some? ==> r.description == Polish(reply.longDescription.value)
    ensures reply.repoType.Some? ==> r.repoType == reply.repoType.value
    ensures reply.repoType.None? ==> r.repoType == DEFAULT_TYPE
  {
    Repo(
      n,
      reply.deleted || reply.deprecated || reply.malicious,
      PolishedOr(reply.description),
      PolishedOr(reply.longDescription),
      reply.repoType.GetOr(DEFAULT_TYPE))
  }

  /** Catalog texts that are already polished are taken over unchanged. */
  lemma EnrichKeepsPolished(n: Notice, reply: CatalogReply)
    requires reply.description.Some? && IsPolished(reply.description.value)
    requires reply.longDescription.Some? && IsPolished(reply.longDescription.value)
    ensures Enrich(n, reply).synopsis == reply.description.value
    ensures Enrich(n, reply).description == reply.longDescription.value
  {
    PolishFixedPoints(reply.description.value);
    PolishFixedPoints(reply.longDescription.value);
  }

  /** Word 3 of the subject under `split()`; None when the subject has fewer
      than four words, where `isNew` and `isUpdate` raise `IndexError`. */
  function KindWord(subject: string): (r: Option<string>)
    ensures r.Some? <==> |SplitWs(subject)| > KIND_WORD
    ensures r.Some? ==> IsWord(r.value) && r.value in SplitWs(subject)
  {
    var words := SplitWs(subject);
    if |words| > KIND_WORD then Some(words[KIND_WORD]) else None
  }

  /** `isNew`: the subject announces a new repository. */
  predicate IsNew(r: Repo) {
    KindWord(r.notice.subject) == Some(NEW_WORD)
  }

  /** `isUpdate`: the subject announces an update. */
  predicate IsUpdate(r: Repo) {
    KindWord(r.notice.subject) == Some(UPDATE_WORD)
  }

  /** `isPasse`: the catalog flagged the repository. */
  predicate IsPasse(r: Repo) {
    r.passe
  }

  /** `isNew` and `isUpdate` compare the same word with different literals,
      so no record is both. */
  lemma NewExcludesUpdate(r: Repo)
    ensures !(IsNew(r) && IsUpdate(r))
  {
    assert NEW_WORD != UPDATE_WORD;
  }

  /** Where the main loop puts a record. */
  datatype Bucket = PasseBucket | NewBucket | UpdateBucket | Unrecognized

  /** The `if`/`elif` chain of the main loop (ToolShedEmailParsing.py:276-295):
      passe first, then new, then update, otherwise unrecognized. A record
      that is not passe and whose subject is too short makes `isNew` raise:
      that is the failure, carrying the subject. */
  function Route(r: Repo): (b: Result<Bucket, string>)
    ensures IsPasse(r) ==> b == Success(PasseBucket)
    ensures b.Failure? <==> !IsPasse(r) && KindWord(r.notice.subject).None?
    ensures b.Failure? ==> b.error == r.notice.subject
    ensures b == Success(NewBucket) <==> !IsPasse(r) && IsNew(r)
    ensures b == Success(UpdateBucket) <==> !IsPasse(r) && IsUpdate(r)
    ensures b == Success(Unrecognized) <==>
      !IsPasse(r) && KindWord(r.notice.subject).Some? && !IsNew(r) && !IsUpdate(r)
  {
    if IsPasse(r) then Success(PasseBucket)
    else if KindWord(r.notice.subject).None? then Failure(r.notice.subject)
    else if IsNew(r) then Success(NewBucket)
    else if IsUpdate(r) then Success(UpdateBucket)
    else Success(Unrecognized)
  }

  /** Word 3 of any subject whose `split()` tokens are `words` is
      `words[3]`, however the words are spaced. */
  lemma KindWordOf(subject: string, words: seq<string>)
    requires SplitWs(subject) == words && |words| > KIND_WORD
    ensures KindWord(subject) == Some(words[KIND_WORD])
  {
  }

  /** A subject assembled from words separated by single spaces. */
  lemma KindWordOfJoin(words: seq<string>)
    requires |words| > KIND_WORD
    requires forall i | 0 <= i < |words| :: IsWord(words[i])
    ensures KindWord(Join(" ", words)) == Some(words[KIND_WORD])
  {
    JoinThenSplitWs(words);
    KindWordOf(Join(" ", words), words);
  }

  /** The tool shed's subjects classify on word 3: "update" there is an
      update ... */
  lemma UpdateSubject(r: Repo)
    requires !r.passe
    requires r.notice.subject == Join(" ", ["Galaxy", "tool", "shed", "update", "alert"])
    ensures Route(r) == Success(UpdateBucket)
  {
    KindWordOfJoin(["Galaxy", "tool", "shed", "update", "alert"]);
  }

  /** ... "alert" there a new repository ... */
  lemma NewSubject(r: Repo)
    requires !r.passe
    requires r.notice.subject == Join(" ", ["Galaxy", "tool", "shed", "alert", "for", "new", "repository"])
    ensures Route(r) == Success(NewBucket)
  {
    KindWordOfJoin(["Galaxy", "tool", "shed", "alert", "for", "new", "repository"]);
  }

  /** ... and the older "... repository update alert" subject, whose word 3
      is "repository", neither. */
  lemma OlderSubject(r: Repo)
    requires !r.passe
    requires r.notice.subject == Join(" ", ["Galaxy", "tool", "shed", "repository", "update", "alert"])
    ensures Route(r) == Success(Unrecognized)
  {
    KindWordOfJoin(["Galaxy", "tool", "shed", "repository", "update", "alert"]);
  }
}
