/** The aggregation loop of ToolShedEmailParsing.py:276-295: every record
    goes to the passe list, to the nested map of new repositories (type,
    then author, then name; the first record seen wins) or to the nested
    map of updates (type, then author, then name, then the records in
    order), or nowhere. */
module Grouping {
  import opened Results
  import opened Catalog

  /** Where a record is filed inside the nested maps. */
  datatype Key = Key(repoType: string, author: string, name: string)

  function KeyOf(r: Repo): Key {
    Key(r.repoType, r.notice.author, r.notice.name)
  }

  type NewMap = map<string, map<string, map<string, Repo>>>
  type UpdateMap = map<string, map<string, map<string, seq<Repo>>>>

  /** The three collections the loop fills: `passe`, `newToolRepos` and
      `updates`. */
  datatype Index = Index(passe: seq<Repo>, newRepos: NewMap, updates: UpdateMap)

  const EMPTY_INDEX := Index([], map[], map[])

  /** The new repository stored under `k`, if any. */
  function NewAt(m: NewMap, k: Key): Option<Repo> {
    if k.repoType in m && k.author in m[k.repoType] && k.name in m[k.repoType][k.author]
    then Some(m[k.repoType][k.author][k.name])
    else None
  }

  /** The updates stored under `k`, [] if none. */
  function UpdatesAt(m: UpdateMap, k: Key): seq<Repo> {
    if k.repoType in m && k.author in m[k.repoType] && k.name in m[k.repoType][k.author]
    then m[k.repoType][k.author][k.name]
    else []
  }

  /** Lines 279-285: create the type and author levels when missing and
      store `r` under its name unless a record is already there. */
  function AddNew(m: NewMap, r: Repo): (res: NewMap)
    ensures forall k :: NewAt(res, k) == if k == KeyOf(r) && NewAt(m, k).None? then Some(r) else NewAt(m, k)
  {
    var k := KeyOf(r);
    var authors := if k.repoType in m then m[k.repoType] else map[];
    var names := if k.author in authors then authors[k.author] else map[];
    if k.name in names then m
    else m[k.repoType := authors[k.author := names[k.name := r]]]
  }

  /** Lines 286-293: create the missing levels and append `r` to the list
      under its name. */
  function AddUpdate(m: UpdateMap, r: Repo): (res: UpdateMap)
    ensures forall k :: UpdatesAt(res, k) == if k == KeyOf(r) then UpdatesAt(m, k) + [r] else UpdatesAt(m, k)
  {
    var k := KeyOf(r);
    var authors := if k.repoType in m then m[k.repoType] else map[];
    var names := if k.author in authors then authors[k.author] else map[];
    var list := if k.name in names then names[k.name] else [];
    m[k.repoType := authors[k.author := names[k.name := list + [r]]]]
  }

  /** One pass of the loop body. A record that is neither passe, new nor an
      update changes nothing; a record whose subject is too short to
      classify stops the run with that subject. */
  function File(ix: Index, r: Repo): (res: Result<Index, string>)
    ensures res.Failure? <==> Route(r).Failure?
    ensures res.Failure? ==> res.error == r.notice.subject
    ensures Route(r) == Success(PasseBucket) ==> res == Success(ix.(passe := ix.passe + [r]))
    ensures Route(r) == Success(Unrecognized) ==> res == Success(ix)
    ensures Route(r) == Success(NewBucket) ==>
      res.Success? && res.value.passe == ix.passe && res.value.updates == ix.updates
    ensures Route(r) == Success(UpdateBucket) ==>
      res.Success? && res.value.passe == ix.passe && res.value.newRepos == ix.newRepos
  {
    match Route(r)
    case Failure(subject) => Failure(subject)
    case Success(PasseBucket) => Success(ix.(passe := ix.passe + [r]))
    case Success(NewBucket) => Success(ix.(newRepos := AddNew(ix.newRepos, r)))
    case Success(UpdateBucket) => Success(ix.(updates := AddUpdate(ix.updates, r)))
    case Success(Unrecognized) => Success(ix)
  }

  /** The whole loop, from index `ix`, over the records in the order they
      are fetched; it stops at the first record that cannot be classified. */
  function GroupFrom(ix: Index, rs: seq<Repo>): Result<Index, string>
    decreases |rs|
  {
    if rs == [] then Success(ix)
    else
      match File(ix, rs[0])
      case Failure(subject) => Failure(subject)
      case Success(next) => GroupFrom(next, rs[1..])
  }

  /** The loop over all records, starting from empty collections. */
  function Group(rs: seq<Repo>): Result<Index, string> {
    GroupFrom(EMPTY_INDEX, rs)
  }

  // ---------------------------------------------------------------------------
  // Reference definitions, one record at a time
  // ---------------------------------------------------------------------------

  /** Every record can be classified: the loop runs to the end. */
  predicate AllRoutable(rs: seq<Repo>) {
    forall i | 0 <= i < |rs| :: Route(rs[i]).Success?
  }

  /** The passe records, in order. */
  function PasseOf(rs: seq<Repo>): seq<Repo>
    decreases |rs|
  {
    if rs == [] then []
    else (if Route(rs[0]) == Success(PasseBucket) then [rs[0]] else []) + PasseOf(rs[1..])
  }

  /** The first new record filed under `k`, if any. */
  function FirstNew(rs: seq<Repo>, k: Key): Option<Repo>
    decreases |rs|
  {
    if rs == [] then None
    else if Route(rs[0]) == Success(NewBucket) && KeyOf(rs[0]) == k then Some(rs[0])
    else FirstNew(rs[1..], k)
  }

  /** What one record contributes to the updates under `k`. */
  function UpdatePiece(r: Repo, k: Key): seq<Repo> {
    if Route(r) == Success(UpdateBucket) && KeyOf(r) == k then [r] else []
  }

  /** The update records filed under `k`, in order. */
  function UpdatesOf(rs: seq<Repo>, k: Key): seq<Repo>
    decreases |rs|
  {
    if rs == [] then []
    else UpdatePiece(rs[0], k) + UpdatesOf(rs[1..], k)
  }

  // ---------------------------------------------------------------------------
  // The loop agrees with the reference definitions
  // ---------------------------------------------------------------------------

  /** The loop finishes exactly when every record can be classified. */
  lemma {:induction false} GroupFromSucceeds(ix: Index, rs: seq<Repo>)
    ensures GroupFrom(ix, rs).Success? <==> AllRoutable(rs)
    decreases |rs|
  {
    if rs != [] {
      match File(ix, rs[0])
      case Failure(_) =>
      case Success(next) =>
        GroupFromSucceeds(next, rs[1..]);
        assert forall i | 1 <= i < |rs| :: rs[i] == rs[1..][i - 1];
    }
  }

  /** Passe records are appended to the flat list in the order met, and
      no other record reaches it. */
  lemma {:induction false} GroupFromPasse(ix: Index, rs: seq<Repo>)
    requires GroupFrom(ix, rs).Success?
    ensures GroupFrom(ix, rs).value.passe == ix.passe + PasseOf(rs)
    decreases |rs|
  {
    if rs != [] {
      var next := File(ix, rs[0]).value;
      GroupFromPasse(next, rs[1..]);
    }
  }

  /** The new repository under a key is the first new record with that
      key, unless the starting index already had one. */
  lemma {:induction false} GroupFromNew(ix: Index, rs: seq<Repo>, k: Key)
    requires GroupFrom(ix, rs).Success?
    ensures NewAt(GroupFrom(ix, rs).value.newRepos, k) ==
      if NewAt(ix.newRepos, k).Some? then NewAt(ix.newRepos, k) else FirstNew(rs, k)
    decreases |rs|
  {
    if rs != [] {
      var next := File(ix, rs[0]).value;
      GroupFromNew(next, rs[1..], k);
    }
  }

  /** The updates under a key are all update records with that key, in
      the order met, after those of the starting index. */
  lemma {:induction false} GroupFromUpdates(ix: Index, rs: seq<Repo>, k: Key)
    requires GroupFrom(ix, rs).Success?
    ensures UpdatesAt(GroupFrom(ix, rs).value.updates, k) == UpdatesAt(ix.updates, k) + UpdatesOf(rs, k)
    decreases |rs|
  {
    if rs != [] {
      var next := File(ix, rs[0]).value;
      var piece := UpdatePiece(rs[0], k);
      FileUpdates(ix, rs[0], k, next);
      UpdatesOfStep(rs, k);
      GroupFromUpdates(next, rs[1..], k);
      var before, rest := UpdatesAt(ix.updates, k), UpdatesOf(rs[1..], k);
      assert (before + piece) + rest == before + (piece + rest);
    }
  }

  lemma UpdatesOfStep(rs: seq<Repo>, k: Key)
    requires rs != []
    ensures UpdatesOf(rs, k) == UpdatePiece(rs[0], k) + UpdatesOf(rs[1..], k)
  {
  }

  /** Filing one record adds its piece to the updates under `k`. */
  lemma FileUpdates(ix: Index, r: Repo, k: Key, next: Index)
    requires File(ix, r) == Success(next)
    ensures UpdatesAt(next.updates, k) == UpdatesAt(ix.updates, k) + UpdatePiece(r, k)
  {
  }

  /** The loop over all records: it finishes exactly when every record can
      be classified, and then the passe list holds the passe records in
      order, each key's new repository is the first new record with that
      key, and each key's update list holds all update records with that
      key in order. */
  lemma GroupSpec(rs: seq<Repo>, k: Key)
    ensures Group(rs).Success? <==> AllRoutable(rs)
    ensures Group(rs).Success? ==>
      && Group(rs).value.passe == PasseOf(rs)
      && NewAt(Group(rs).value.newRepos, k) == FirstNew(rs, k)
      && UpdatesAt(Group(rs).value.updates, k) == UpdatesOf(rs, k)
  {
    GroupFromSucceeds(EMPTY_INDEX, rs);
    if Group(rs).Success? {
      GroupFromPasse(EMPTY_INDEX, rs);
      GroupFromNew(EMPTY_INDEX, rs, k);
      GroupFromUpdates(EMPTY_INDEX, rs, k);
    }
  }

  /** The shape the loop keeps: passe records only in the list, every
      stored record of the right kind and under its own key, and no type,
      author or name level without something below it. */
  ghost predicate WellFiled(ix: Index) {
    && (forall i | 0 <= i < |ix.passe| :: Route(ix.passe[i]) == Success(PasseBucket))
    && NewWellFiled(ix.newRepos)
    && UpdatesWellFiled(ix.updates)
  }

  ghost predicate NewWellFiled(m: NewMap) {
    && (forall k | NewAt(m, k).Some? ::
          KeyOf(NewAt(m, k).value) == k && Route(NewAt(m, k).value) == Success(NewBucket))
    && (forall t | t in m :: m[t] != map[])
    && (forall t, a | t in m && a in m[t] :: m[t][a] != map[])
  }

  ghost predicate UpdatesWellFiled(m: UpdateMap) {
    && (forall k, i | 0 <= i < |UpdatesAt(m, k)| ::
          KeyOf(UpdatesAt(m, k)[i]) == k && Route(UpdatesAt(m, k)[i]) == Success(UpdateBucket))
    && (forall t | t in m :: m[t] != map[])
    && (forall t, a | t in m && a in m[t] :: m[t][a] != map[])
    && (forall t, a, n | t in m && a in m[t] && n in m[t][a] :: m[t][a][n] != [])
  }

  lemma AddNewWellFiled(m: NewMap, r: Repo)
    requires NewWellFiled(m) && Route(r) == Success(NewBucket)
    ensures NewWellFiled(AddNew(m, r))
  {
    var res := AddNew(m, r);
    var k := KeyOf(r);
    if res != m {
      assert k.repoType in res && k.author in res[k.repoType] && k.name in res[k.repoType][k.author];
      forall t, a | t in res && a in res[t]
        ensures res[t][a] != map[]
      {
        if t != k.repoType {
          assert res[t] == m[t];
        } else if a != k.author {
          assert res[t][a] == m[t][a];
        }
      }
    }
  }

  lemma AddUpdateWellFiled(m: UpdateMap, r: Repo)
    requires UpdatesWellFiled(m) && Route(r) == Success(UpdateBucket)
    ensures UpdatesWellFiled(AddUpdate(m, r))
  {
    var res := AddUpdate(m, r);
    var k := KeyOf(r);
    assert k.repoType in res && k.author in res[k.repoType] && k.name in res[k.repoType][k.author];
    forall t, a | t in res && a in res[t]
      ensures res[t][a] != map[]
    {
      if t != k.repoType {
        assert res[t] == m[t];
      } else if a != k.author {
        assert res[t][a] == m[t][a];
      }
    }
    forall t, a, n | t in res && a in res[t] && n in res[t][a]
      ensures res[t][a][n] != []
    {
      if t != k.repoType {
        assert res[t] == m[t];
      } else if a != k.author {
        assert res[t][a] == m[t][a];
      } else if n != k.name {
        assert res[t][a][n] == m[t][a][n];
      }
    }
    forall k', i | 0 <= i < |UpdatesAt(res, k')|
      ensures KeyOf(UpdatesAt(res, k')[i]) == k' && Route(UpdatesAt(res, k')[i]) == Success(UpdateBucket)
    {
      if k' == k && i == |UpdatesAt(m, k')| {
        assert UpdatesAt(res, k')[i] == r;
      } else {
        assert UpdatesAt(res, k')[i] == UpdatesAt(m, k')[i];
      }
    }
  }

  /** Filing one record keeps the shape. */
  lemma FileWellFiled(ix: Index, r: Repo)
    requires WellFiled(ix) && File(ix, r).Success?
    ensures WellFiled(File(ix, r).value)
  {
    match Route(r)
    case Success(NewBucket) => AddNewWellFiled(ix.newRepos, r);
    case Success(UpdateBucket) => AddUpdateWellFiled(ix.updates, r);
    case Success(PasseBucket) =>
      var p := ix.passe + [r];
      assert forall i | 0 <= i < |ix.passe| :: p[i] == ix.passe[i];
    case Success(Unrecognized) =>
  }

  /** The loop keeps the shape, so the collections it builds from nothing
      have it. */
  lemma {:induction false} GroupFromWellFiled(ix: Index, rs: seq<Repo>)
    requires WellFiled(ix) && GroupFrom(ix, rs).Success?
    ensures WellFiled(GroupFrom(ix, rs).value)
    decreases |rs|
  {
    if rs != [] {
      FileWellFiled(ix, rs[0]);
      GroupFromWellFiled(File(ix, rs[0]).value, rs[1..]);
    }
  }

  lemma GroupWellFiled(rs: seq<Repo>)
    requires Group(rs).Success?
    ensures WellFiled(Group(rs).value)
  {
    GroupFromWellFiled(EMPTY_INDEX, rs);
  }

  /** A duplicate notification of a new repository changes nothing. */
  lemma DuplicateNewDropped(rs: seq<Repo>, first: Repo, dup: Repo)
    requires Route(first) == Success(NewBucket) && Route(dup) == Success(NewBucket)
    requires KeyOf(first) == KeyOf(dup)
    requires Group(rs + [first]).Success?
    ensures Group(rs + [first, dup]) == Group(rs + [first])
  {
    GroupFromAppend(EMPTY_INDEX, rs + [first], dup);
    assert rs + [first, dup] == (rs + [first]) + [dup];
    var ix := Group(rs + [first]).value;
    GroupFromNew(EMPTY_INDEX, rs + [first], KeyOf(dup));
    FirstNewLast(rs, first);
    assert NewAt(ix.newRepos, KeyOf(dup)).Some?;
  }

  /** Running the loop over one more record files that record last. */
  lemma {:induction false} GroupFromAppend(ix: Index, rs: seq<Repo>, r: Repo)
    requires GroupFrom(ix, rs).Success?
    ensures GroupFrom(ix, rs + [r]) == File(GroupFrom(ix, rs).value, r)
    decreases |rs|
  {
    if rs == [] {
      assert rs + [r] == [r];
    } else {
      assert (rs + [r])[0] == rs[0];
      assert (rs + [r])[1..] == rs[1..] + [r];
      GroupFromAppend(File(ix, rs[0]).value, rs[1..], r);
    }
  }

  /** A new record at the end is found when no earlier one has its key. */
  lemma {:induction false} FirstNewLast(rs: seq<Repo>, r: Repo)
    requires Route(r) == Success(NewBucket)
    ensures FirstNew(rs + [r], KeyOf(r)).Some?
    decreases |rs|
  {
    if rs == [] {
      assert rs + [r] == [r];
    } else {
      assert (rs + [r])[1..] == rs[1..] + [r];
      FirstNewLast(rs[1..], r);
    }
  }
}
