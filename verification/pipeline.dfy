/** The main loop (ToolShedEmailParsing.py:270-297): every fetched message
    becomes a `ToolShedRepo` (decode, then ask the catalog) and is filed.
    The catalog lookup is a parameter: a function from the repository's
    name, author and revision to the decoded reply. */
module Pipeline {
  import opened Results
  import opened PyText
  import opened Notices
  import opened Catalog
  import opened Grouping

  /** One fetched message: its header lines and its body lines. */
  datatype Message = Message(headers: seq<string>, body: seq<string>)

  /** Why a run stops. A message from a foreign sender leaves the record
      without a name, and the catalog lookup that follows raises
      `AttributeError`: that is `FieldsUnset`. */
  datatype Abort =
    | Undecodable(error: ParseError)
    | FieldsUnset(sender: string)
    | SubjectTooShort(subject: string)

  type Lookup = (string, string, string) -> CatalogReply

  /** The `ToolShedRepo` constructor: `parseEmail` followed by
      `getToolShedInfo` (ToolShedEmailParsing.py:66-74). A message builds
      exactly when it decodes; the record is the decoded notification
      merged with the catalog's reply for its name, author and revision; a
      foreign sender becomes `FieldsUnset`, any other decoding error stops
      the run as it is. */
  function Build(m: Message, catalog: Lookup, stripPlanemo: bool): (r: Result<Repo, Abort>)
    ensures r.Success? <==> ParseEmail(m.headers, m.body, stripPlanemo).Success?
    ensures r.Success? ==>
      var n := ParseEmail(m.headers, m.body, stripPlanemo).value;
      r.value == Enrich(n, catalog(n.name, n.author, n.revision))
    ensures r.Failure? ==>
      var e := ParseEmail(m.headers, m.body, stripPlanemo).error;
      if e.NotToolShed? then r.error == FieldsUnset(e.sender) else r.error == Undecodable(e)
  {
    match ParseEmail(m.headers, m.body, stripPlanemo)
    case Failure(NotToolShed(sender, _)) => Failure(FieldsUnset(sender))
    case Failure(e) => Failure(Undecodable(e))
    case Success(n) => Success(Enrich(n, catalog(n.name, n.author, n.revision)))
  }

  /** The loop from collections `ix` over messages `ms`, stopping at the
      first message that raises. */
  function RunFrom(ix: Index, ms: seq<Message>, catalog: Lookup, stripPlanemo: bool): Result<Index, Abort>
    decreases |ms|
  {
    if ms == [] then Success(ix)
    else
      match Build(ms[0], catalog, stripPlanemo)
      case Failure(e) => Failure(e)
      case Success(r) =>
        match File(ix, r)
        case Failure(subject) => Failure(SubjectTooShort(subject))
        case Success(next) => RunFrom(next, ms[1..], catalog, stripPlanemo)
  }

  /** The whole run, from empty collections. */
  function Run(ms: seq<Message>, catalog: Lookup, stripPlanemo: bool): Result<Index, Abort> {
    RunFrom(EMPTY_INDEX, ms, catalog, stripPlanemo)
  }

  /** The values of a list of results, when every one is a success. */
  function Collect<T, E>(rs: seq<Result<T, E>>): Option<seq<T>>
    decreases |rs|
  {
    if rs == [] then Some([])
    else if rs[0].Failure? then None
    else
      match Collect(rs[1..])
      case None => None
      case Some(rest) => Some([rs[0].value] + rest)
  }

  /** `Collect` succeeds exactly when every result is a success, and then
      holds their values in order. */
  lemma {:induction false} CollectSpec<T, E>(rs: seq<Result<T, E>>, r: Option<seq<T>>)
    requires r == Collect(rs)
    ensures r.Some? <==> forall i | 0 <= i < |rs| :: rs[i].Success?
    ensures r.Some? ==> |r.value| == |rs|
    ensures r.Some? ==> forall i | 0 <= i < |rs| :: r.value[i] == rs[i].value
    decreases |rs|
  {
    if rs != [] {
      var tail := Collect(rs[1..]);
      CollectSpec(rs[1..], tail);
      assert forall i | 1 <= i < |rs| :: rs[i] == rs[1..][i - 1];
    }
  }

  /** The result of building each message. */
  function Builds(ms: seq<Message>, catalog: Lookup, stripPlanemo: bool): (r: seq<Result<Repo, Abort>>)
    ensures |r| == |ms|
    decreases |ms|
  {
    if ms == [] then [] else [Build(ms[0], catalog, stripPlanemo)] + Builds(ms[1..], catalog, stripPlanemo)
  }

  /** Entry `i` of `Builds` is the result of building message `i`. */
  lemma {:induction false} BuildsAt(ms: seq<Message>, catalog: Lookup, stripPlanemo: bool, i: nat)
    requires i < |ms|
    ensures Builds(ms, catalog, stripPlanemo)[i] == Build(ms[i], catalog, stripPlanemo)
    decreases i
  {
    if i > 0 {
      BuildsAt(ms[1..], catalog, stripPlanemo, i - 1);
      assert ms[1..][i - 1] == ms[i];
    }
  }

  /** The records built from the messages, when every message decodes. */
  function BuildAll(ms: seq<Message>, catalog: Lookup, stripPlanemo: bool): Option<seq<Repo>> {
    Collect(Builds(ms, catalog, stripPlanemo))
  }

  /** `BuildAll` succeeds exactly when every message builds, and then holds
      the records in message order. */
  lemma BuildAllSpec(ms: seq<Message>, catalog: Lookup, stripPlanemo: bool, r: Option<seq<Repo>>)
    requires r == BuildAll(ms, catalog, stripPlanemo)
    ensures r.Some? <==> forall i | 0 <= i < |ms| :: Build(ms[i], catalog, stripPlanemo).Success?
    ensures r.Some? ==> |r.value| == |ms|
    ensures r.Some? ==> forall i | 0 <= i < |ms| :: r.value[i] == Build(ms[i], catalog, stripPlanemo).value
  {
    CollectSpec(Builds(ms, catalog, stripPlanemo), r);
    forall i | 0 <= i < |ms|
      ensures Builds(ms, catalog, stripPlanemo)[i] == Build(ms[i], catalog, stripPlanemo)
    {
      BuildsAt(ms, catalog, stripPlanemo, i);
    }
  }

  /** Building all messages but the first is building the rest. */
  lemma BuildsTail(ms: seq<Message>, catalog: Lookup, stripPlanemo: bool)
    requires ms != []
    ensures Builds(ms, catalog, stripPlanemo)[0] == Build(ms[0], catalog, stripPlanemo)
    ensures Builds(ms, catalog, stripPlanemo)[1..] == Builds(ms[1..], catalog, stripPlanemo)
  {
    assert Builds(ms, catalog, stripPlanemo) == [Build(ms[0], catalog, stripPlanemo)] + Builds(ms[1..], catalog, stripPlanemo);
  }

  /** The run is the grouping loop over the built records: it completes
      exactly when every message builds and the loop over their records
      completes, and then both give the same collections. */
  lemma {:induction false} RunFromIsGroupFrom(ix: Index, ms: seq<Message>, catalog: Lookup, stripPlanemo: bool)
    ensures RunFrom(ix, ms, catalog, stripPlanemo).Success? <==>
      && BuildAll(ms, catalog, stripPlanemo).Some?
      && GroupFrom(ix, BuildAll(ms, catalog, stripPlanemo).value).Success?
    ensures RunFrom(ix, ms, catalog, stripPlanemo).Success? ==>
      GroupFrom(ix, BuildAll(ms, catalog, stripPlanemo).value) == Success(RunFrom(ix, ms, catalog, stripPlanemo).value)
    decreases |ms|
  {
    if ms != [] {
      var b := Build(ms[0], catalog, stripPlanemo);
      BuildAllStep(ms, catalog, stripPlanemo);
      if b.Success? {
        var r := b.value;
        var tail := BuildAll(ms[1..], catalog, stripPlanemo);
        match File(ix, r)
        case Failure(_) =>
          if tail.Some? {
            GroupFromHead(ix, [r] + tail.value);
          }
        case Success(next) =>
          RunFromIsGroupFrom(next, ms[1..], catalog, stripPlanemo);
          RunStep(ix, ms, catalog, stripPlanemo);
          if tail.Some? {
            GroupFromHead(ix, [r] + tail.value);
            assert ([r] + tail.value)[1..] == tail.value;
          }
      }
    }
  }

  /** The same from empty collections: the whole run completes exactly when
      every message builds and grouping their records completes, and then
      it yields the grouped records. */
  lemma RunIsGroup(ms: seq<Message>, catalog: Lookup, stripPlanemo: bool)
    ensures Run(ms, catalog, stripPlanemo).Success? <==>
      BuildAll(ms, catalog, stripPlanemo).Some? && Group(BuildAll(ms, catalog, stripPlanemo).value).Success?
    ensures Run(ms, catalog, stripPlanemo).Success? ==>
      Group(BuildAll(ms, catalog, stripPlanemo).value) == Success(Run(ms, catalog, stripPlanemo).value)
  {
    RunFromIsGroupFrom(EMPTY_INDEX, ms, catalog, stripPlanemo);
  }

  /** `BuildAll` one message at a time. */
  lemma BuildAllStep(ms: seq<Message>, catalog: Lookup, stripPlanemo: bool)
    requires ms != []
    ensures Build(ms[0], catalog, stripPlanemo).Failure? ==> BuildAll(ms, catalog, stripPlanemo).None?
    ensures Build(ms[0], catalog, stripPlanemo).Success? ==>
      BuildAll(ms, catalog, stripPlanemo).Some? == BuildAll(ms[1..], catalog, stripPlanemo).Some?
    ensures Build(ms[0], catalog, stripPlanemo).Success? && BuildAll(ms[1..], catalog, stripPlanemo).Some? ==>
      BuildAll(ms, catalog, stripPlanemo).value
        == [Build(ms[0], catalog, stripPlanemo).value] + BuildAll(ms[1..], catalog, stripPlanemo).value
  {
    BuildsTail(ms, catalog, stripPlanemo);
  }

  /** The grouping loop files its first record, then continues or stops. */
  lemma GroupFromHead(ix: Index, rs: seq<Repo>)
    requires rs != []
    ensures File(ix, rs[0]).Failure? ==> GroupFrom(ix, rs).Failure?
    ensures File(ix, rs[0]).Success? ==> GroupFrom(ix, rs) == GroupFrom(File(ix, rs[0]).value, rs[1..])
  {
  }

  /** A message from a foreign sender that the run reaches aborts it: the
      run over messages that complete, followed by that message and any
      others, stops with `FieldsUnset`. */
  lemma {:induction false} ForeignSenderAborts(
    ix: Index, ms: seq<Message>, rest: seq<Message>, catalog: Lookup, stripPlanemo: bool)
    requires RunFrom(ix, ms, catalog, stripPlanemo).Success?
    requires rest != [] && |rest[0].headers| >= 2
    requires Drop(rest[0].headers[FROM], FROM_PREFIX) != TOOLSHED_SENDER
    ensures RunFrom(ix, ms + rest, catalog, stripPlanemo) ==
      Failure(FieldsUnset(Drop(rest[0].headers[FROM], FROM_PREFIX)))
    decreases |ms|
  {
    if ms == [] {
      assert ms + rest == rest;
      ForeignBuild(rest[0], catalog, stripPlanemo);
      AbortsAtHead(ix, rest, catalog, stripPlanemo);
    } else {
      RunHead(ix, ms, catalog, stripPlanemo);
      var next := File(ix, Build(ms[0], catalog, stripPlanemo).value).value;
      ForeignSenderAborts(next, ms[1..], rest, catalog, stripPlanemo);
      ConcatHead(ms, rest);
      RunStep(ix, ms + rest, catalog, stripPlanemo);
    }
  }

  /** A run over a message that builds and files continues from the
      collections that filing it produced. */
  lemma RunStep(ix: Index, ms: seq<Message>, catalog: Lookup, stripPlanemo: bool)
    requires ms != [] && Build(ms[0], catalog, stripPlanemo).Success?
    requires File(ix, Build(ms[0], catalog, stripPlanemo).value).Success?
    ensures RunFrom(ix, ms, catalog, stripPlanemo) ==
      RunFrom(File(ix, Build(ms[0], catalog, stripPlanemo).value).value, ms[1..], catalog, stripPlanemo)
  {
  }

  /** A run that completes builds and files its first message. */
  lemma RunHead(ix: Index, ms: seq<Message>, catalog: Lookup, stripPlanemo: bool)
    requires ms != [] && RunFrom(ix, ms, catalog, stripPlanemo).Success?
    ensures Build(ms[0], catalog, stripPlanemo).Success?
    ensures File(ix, Build(ms[0], catalog, stripPlanemo).value).Success?
    ensures RunFrom(File(ix, Build(ms[0], catalog, stripPlanemo).value).value, ms[1..], catalog, stripPlanemo).Success?
  {
  }

  /** Building a message from a foreign sender fails with `FieldsUnset`. */
  lemma ForeignBuild(m: Message, catalog: Lookup, stripPlanemo: bool)
    requires |m.headers| >= 2
    requires Drop(m.headers[FROM], FROM_PREFIX) != TOOLSHED_SENDER
    ensures Build(m, catalog, stripPlanemo) == Failure(FieldsUnset(Drop(m.headers[FROM], FROM_PREFIX)))
  {
    var e := ParseEmail(m.headers, m.body, stripPlanemo).error;
    assert e.NotToolShed? && e.sender == Drop(m.headers[FROM], FROM_PREFIX);
  }

  /** A run whose first message fails to build stops with that failure. */
  lemma AbortsAtHead(ix: Index, ms: seq<Message>, catalog: Lookup, stripPlanemo: bool)
    requires ms != [] && Build(ms[0], catalog, stripPlanemo).Failure?
    ensures RunFrom(ix, ms, catalog, stripPlanemo) == Failure(Build(ms[0], catalog, stripPlanemo).error)
  {
  }

  lemma ConcatHead<T>(a: seq<T>, b: seq<T>)
    requires a != []
    ensures (a + b)[0] == a[0] && (a + b)[1..] == a[1..] + b
  {
  }
}
