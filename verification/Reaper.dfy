/**
 The retention executor: plan against the loaded metadata, then for each planned backup
 re-read the store, re-judge, delete its release and leave a tombstone.
 */
module Reaper {
  import opened Wrappers
  import opened Retention
  import opened BackupMetadata
  import Text

  // ---------------------------------------------------------------- the store

  datatype TransportError = TransportError

  datatype Outcome = Deleted | AlreadyAbsent

  predicate InDirectory(path: string, env: string) {
    Text.StartsWith(path, "backups/" + env + "/") && Text.EndsWith(path, ".json")
  }

  /** The private backup repository; `faults` scripts how its next calls fare, and runs out into `Fine`. */
  class BackupStore {
    var files: map<string, Document>
    var releases: set<string>
    var faults: seq<Fault>

    constructor (files: map<string, Document>, releases: set<string>, faults: seq<Fault>)
      ensures this.files == files && this.releases == releases && this.faults == faults
    {
      this.files, this.releases, this.faults := files, releases, faults;
    }

    method NextFault() returns (f: Fault)
      modifies `faults
      ensures old(faults) == [] ==> f == Fine && faults == []
    {
      if faults == [] {
        f := Fine;
      } else {
        f, faults := faults[0], faults[1..];
      }
    }

    method ListMetadata(env: string) returns (r: Result<seq<string>, TransportError>)
      modifies `faults
      ensures old(faults) == [] ==> r.Success? && faults == []
      ensures r.Success? ==> forall p :: p in r.value ==> p in files && InDirectory(p, env)
      ensures r.Success? ==> forall p :: p in files && InDirectory(p, env) ==> p in r.value
      ensures r.Success? ==> forall i, j :: 0 <= i < j < |r.value| ==> r.value[i] != r.value[j]
    {
      var fault := NextFault();
      if fault != Fine {
        return Failure(TransportError);
      }
      var rest := set p | p in files.Keys && InDirectory(p, env);
      var paths: seq<string> := [];
      while rest != {}
        invariant forall p :: p in paths ==> p in files && InDirectory(p, env) && p !in rest
        invariant forall p :: p in files && InDirectory(p, env) ==> p in paths || p in rest
        invariant forall p :: p in rest ==> p in files && InDirectory(p, env)
        invariant forall i, j :: 0 <= i < j < |paths| ==> paths[i] != paths[j]
        decreases rest
      {
        var p :| p in rest;
        paths, rest := paths + [p], rest - {p};
      }
      r := Success(paths);
    }

    method GetMetadata(path: string) returns (r: Result<Document, TransportError>)
      modifies `faults
      ensures old(faults) == [] && path in files ==> r.Success? && faults == []
      ensures r.Success? ==> path in files && r.value == files[path]
    {
      var fault := NextFault();
      if fault != Fine || path !in files {
        return Failure(TransportError);
      }
      r := Success(files[path]);
    }

    /** Idempotent: a release that is already gone is not an error. */
    method DeleteRelease(tag: string) returns (r: Result<Outcome, TransportError>)
      modifies `releases, `faults
      ensures old(faults) == [] ==> r.Success? && faults == []
      ensures r.Success? ==> releases == old(releases) - {tag}
      ensures r.Success? ==> r.value == if tag in old(releases) then Deleted else AlreadyAbsent
      ensures releases == old(releases) || releases == old(releases) - {tag}
    {
      var fault := NextFault();
      if fault == FailsBefore {
        return Failure(TransportError);
      }
      var outcome := if tag in releases then Deleted else AlreadyAbsent;
      releases := releases - {tag};
      if fault == FailsAfter {
        return Failure(TransportError);
      }
      r := Success(outcome);
    }

    /** Conditional write: it fails when another run changed the document first. */
    method PutMetadataIfMatch(path: string, content: Document, expected: Document)
      returns (r: Result<(), TransportError>)
      modifies `files, `faults
      ensures old(faults) == [] && path in old(files) && old(files)[path] == expected ==> r.Success? && faults == []
      ensures r.Success? ==> path in old(files) && old(files)[path] == expected && files == old(files)[path := content]
      ensures files == old(files)
           || (path in old(files) && old(files)[path] == expected && files == old(files)[path := content])
    {
      var fault := NextFault();
      if fault == FailsBefore || path !in files || files[path] != expected {
        return Failure(TransportError);
      }
      files := files[path := content];
      if fault == FailsAfter {
        return Failure(TransportError);
      }
      r := Success(());
    }
  }

  // ---------------------------------------------------------------- what a load sees

  /** The evidence held by one environment's readable documents, by path. */
  function ViewOf(files: map<string, Document>, env: string): map<string, Evidence> {
    map p | p in files && InDirectory(p, env) && RecordFromMetadata(files[p], env, p).Success?
      :: RecordFromMetadata(files[p], env, p).value
  }

  /** Nothing in the environment is ambiguous: every document parses, and no two name the same backup. */
  predicate Readable(files: map<string, Document>, env: string) {
    var view := ViewOf(files, env);
    && (forall p :: p in files && InDirectory(p, env) ==> p in view)
    && (forall p, q :: p in view && q in view && p != q ==> view[p].backupId != view[q].backupId)
  }

  /** The law, on a view: the document's backup advances its chain and a later one expired it. */
  predicate ReleasedIn(view: map<string, Evidence>, p: string, env: string, kind: string, now: int) {
    && p in view && view[p].Advances(env, kind)
    && exists q :: q in view && Expires(view[p], view[q], env, kind, now)
  }

  /** What an authorised run deletes: released by the law, under a tag of the chain's namespace. */
  predicate Target(files: map<string, Document>, p: string, env: string, kind: string, now: int) {
    var view := ViewOf(files, env);
    Readable(files, env) && ReleasedIn(view, p, env, kind, now) && InNamespace(TagOf(view[p]), env, kind)
  }

  datatype Raw = Raw(doc: Document, path: string)

  datatype Quarantine =
    | Unreadable(path: string)
    | Rejected(path: string, error: MetadataError)
    | Duplicate(backupId: string)

  datatype Loaded = Loaded(records: seq<BackupRecord>, quarantine: seq<Quarantine>, raw: map<string, Raw>)

  /** The loaded records are the documents of `paths`, one each, under distinct ids. */
  ghost predicate Lists(l: Loaded, paths: seq<string>, files: map<string, Document>, env: string) {
    && |l.records| == |paths|
    && (forall i, j :: 0 <= i < j < |paths| ==> l.records[i].data.backupId != l.records[j].data.backupId)
    && (forall i :: 0 <= i < |paths| ==>
          && paths[i] in files
          && RecordFromMetadata(files[paths[i]], env, paths[i]) == Success(l.records[i].data)
          && l.records[i].data.backupId in l.raw
          && l.raw[l.records[i].data.backupId] == Raw(files[paths[i]], paths[i]))
    && (forall id :: id in l.raw ==> exists i :: 0 <= i < |paths| && l.records[i].data.backupId == id)
  }

  function InsertPath(p: string, ps: seq<string>): (out: seq<string>)
    ensures multiset(out) == multiset(ps) + multiset{p}
  {
    if ps == [] then [p]
    else if !Text.Less(ps[0], p) then [p] + ps
    else
      assert ps == [ps[0]] + ps[1..];
      [ps[0]] + InsertPath(p, ps[1..])
  }

  /** `sorted(paths)` */
  function SortPaths(ps: seq<string>): (out: seq<string>)
    ensures multiset(out) == multiset(ps)
  {
    if ps == [] then []
    else
      assert ps == [ps[0]] + ps[1..];
      InsertPath(ps[0], SortPaths(ps[1..]))
  }

  predicate Distinct(ps: seq<string>) {
    forall i, j :: 0 <= i < j < |ps| ==> ps[i] != ps[j]
  }

  lemma {:induction false} DistinctOnce(ps: seq<string>, p: string)
    requires Distinct(ps)
    ensures multiset(ps)[p] <= 1
  {
    if ps != [] {
      assert ps == [ps[0]] + ps[1..];
      DistinctOnce(ps[1..], p);
      if ps[0] == p {
        assert p !in ps[1..];
        assert p !in multiset(ps[1..]);
      }
    }
  }

  lemma SortedDistinct(ps: seq<string>)
    requires Distinct(ps)
    ensures Distinct(SortPaths(ps))
    ensures forall p :: p in SortPaths(ps) <==> p in ps
  {
    hide SortPaths;
    var out := SortPaths(ps);
    forall p
      ensures p in out <==> p in ps
    {
      assert p in ps <==> p in multiset(ps);
      assert p in out <==> p in multiset(out);
    }
    forall i, j | 0 <= i < j < |out|
      ensures out[i] != out[j]
    {
      if out[i] == out[j] {
        assert out == out[..j] + [out[j]] + out[j + 1..];
        assert out[..j][i] == out[i];
        DistinctOnce(ps, out[i]);
      }
    }
  }

  /** The load's variables after `ordered[..i]`, if nothing was quarantined. */
  ghost predicate Loading(l: Loaded, seen: set<string>, ordered: seq<string>, i: nat, files: map<string, Document>,
                          env: string) {
    && i <= |ordered|
    && (l.quarantine == [] ==>
          && Lists(l, ordered[..i], files, env)
          && (forall id :: id in seen ==> exists j :: 0 <= j < i && l.records[j].data.backupId == id)
          && (forall j :: 0 <= j < i ==> l.records[j].data.backupId in seen))
  }

  lemma LoadingStart(ordered: seq<string>, files: map<string, Document>, env: string)
    ensures Loading(Loaded([], [], map[]), {}, ordered, 0, files, env)
  {
  }

  lemma LoadingStep(l: Loaded, seen: set<string>, ordered: seq<string>, i: nat, files: map<string, Document>,
                    env: string, added: BackupRecord)
    requires i < |ordered| && Loading(l, seen, ordered, i, files, env)
    requires ordered[i] in files && RecordFromMetadata(files[ordered[i]], env, ordered[i]) == Success(added.data)
    requires added.data.backupId !in seen
    ensures Loading(Loaded(l.records + [added], l.quarantine,
                           l.raw[added.data.backupId := Raw(files[ordered[i]], ordered[i])]),
                    seen + {added.data.backupId}, ordered, i + 1, files, env)
  {
    hide RecordFromMetadata, Lists;
    if l.quarantine == [] {
      ListsLength(l, ordered[..i], files, env);
      ListsStep(l, ordered, i, files, env, added);
      var records := l.records + [added];
      forall id | id in seen + {added.data.backupId}
        ensures exists j :: 0 <= j < i + 1 && records[j].data.backupId == id
      {
        if id in seen {
          var j :| 0 <= j < i && l.records[j].data.backupId == id;
          assert records[j].data.backupId == id;
        } else {
          assert records[i].data.backupId == id;
        }
      }
    }
  }

  lemma ListsLength(l: Loaded, paths: seq<string>, files: map<string, Document>, env: string)
    requires Lists(l, paths, files, env)
    ensures |l.records| == |paths|
  {
  }

  lemma LoadingSkips(l: Loaded, seen: set<string>, ordered: seq<string>, i: nat, files: map<string, Document>,
                     env: string, q: Quarantine)
    requires i < |ordered| && Loading(l, seen, ordered, i, files, env)
    ensures Loading(l.(quarantine := l.quarantine + [q]), seen, ordered, i + 1, files, env)
  {
  }

  lemma LoadingEnd(l: Loaded, seen: set<string>, ordered: seq<string>, files: map<string, Document>, env: string)
    requires Loading(l, seen, ordered, |ordered|, files, env)
    ensures l.quarantine == [] ==> Lists(l, ordered, files, env)
  {
    assert ordered[..|ordered|] == ordered;
  }

  /** In a readable environment no id is met twice. */
  lemma NoDuplicate(l: Loaded, seen: set<string>, ordered: seq<string>, i: nat, files: map<string, Document>,
                    env: string, e: Evidence)
    requires i < |ordered| && Loading(l, seen, ordered, i, files, env) && l.quarantine == []
    requires Readable(files, env) && Distinct(ordered)
    requires forall j :: 0 <= j <= i ==> ordered[j] in files && InDirectory(ordered[j], env)
    requires RecordFromMetadata(files[ordered[i]], env, ordered[i]) == Success(e)
    ensures e.backupId !in seen
  {
    hide RecordFromMetadata, Readable, InDirectory;
    if e.backupId in seen {
      var j :| 0 <= j < i && l.records[j].data.backupId == e.backupId;
      assert ordered[..i][j] == ordered[j];
      ReadableDistinct(files, env, ordered[j], ordered[i]);
    }
  }

  /** Reads every document of one environment; any entry in `quarantine` forbids deletion. */
  method LoadChainState(store: BackupStore, env: string)
    returns (r: Result<Loaded, TransportError>, ghost paths: seq<string>)
    modifies store`faults
    ensures r.Success? ==> NoAliases(r.value.records) && forall x :: x in r.value.records ==> fresh(x)
    ensures r.Success? && r.value.quarantine == [] ==>
              && Lists(r.value, paths, store.files, env)
              && forall p :: p in paths <==> p in store.files && InDirectory(p, env)
    ensures old(store.faults) == [] ==>
              && store.faults == [] && r.Success?
              && (Readable(store.files, env) ==> r.value.quarantine == [])
  {
    hide RecordFromMetadata, SortPaths, Readable, InDirectory, Lists, Loading, NoAliases;
    paths := [];
    var listed := store.ListMetadata(env);
    if listed.Failure? {
      return Failure(listed.error), [];
    }
    var ordered := SortPaths(listed.value);
    assert Distinct(listed.value);
    SortedDistinct(listed.value);
    var records: seq<BackupRecord> := [];
    var quarantine: seq<Quarantine> := [];
    var raw: map<string, Raw> := map[];
    var seen: set<string> := {};
    ghost var clean := old(store.faults) == [] && Readable(store.files, env);
    LoadingStart(ordered, store.files, env);
    EmptyNoAliases();
    for i := 0 to |ordered|
      invariant NoAliases(records) && forall x :: x in records ==> fresh(x)
      invariant old(store.faults) == [] ==> store.faults == []
      invariant clean ==> quarantine == []
      invariant Loading(Loaded(records, quarantine, raw), seen, ordered, i, store.files, env)
    {
      var path := ordered[i];
      assert path in ordered;
      ghost var before := Loaded(records, quarantine, raw);
      var doc := store.GetMetadata(path);
      if doc.Failure? {
        LoadingSkips(before, seen, ordered, i, store.files, env, Unreadable(path));
        quarantine := quarantine + [Unreadable(path)];
        continue;
      }
      var record := RecordFromMetadata(doc.value, env, path);
      if record.Failure? {
        if clean {
          ReadableParses(store.files, env, path);
        }
        LoadingSkips(before, seen, ordered, i, store.files, env, Rejected(path, record.error));
        quarantine := quarantine + [Rejected(path, record.error)];
        continue;
      }
      if record.value.backupId in seen {
        if clean {
          NoDuplicate(before, seen, ordered, i, store.files, env, record.value);
        }
        LoadingSkips(before, seen, ordered, i, store.files, env, Duplicate(record.value.backupId));
        quarantine := quarantine + [Duplicate(record.value.backupId)];
        continue;
      }
      var added := new BackupRecord(record.value);
      LoadingStep(before, seen, ordered, i, store.files, env, added);
      AppendNoAliases(records, added);
      seen := seen + {record.value.backupId};
      records := records + [added];
      raw := raw[record.value.backupId := Raw(doc.value, path)];
    }
    LoadingEnd(Loaded(records, quarantine, raw), seen, ordered, store.files, env);
    paths := ordered;
    r := Success(Loaded(records, quarantine, raw));
  }

  lemma EmptyNoAliases()
    ensures NoAliases([])
  {
  }

  lemma AppendNoAliases(rs: seq<BackupRecord>, r: BackupRecord)
    requires NoAliases(rs) && r !in rs
    ensures NoAliases(rs + [r])
  {
  }

  lemma ReadableParses(files: map<string, Document>, env: string, p: string)
    requires Readable(files, env) && p in files && InDirectory(p, env)
    ensures RecordFromMetadata(files[p], env, p).Success?
  {
    hide RecordFromMetadata, InDirectory;
  }

  lemma ReadableDistinct(files: map<string, Document>, env: string, p: string, q: string)
    requires Readable(files, env) && p != q
    requires p in files && InDirectory(p, env) && q in files && InDirectory(q, env)
    ensures RecordFromMetadata(files[p], env, p).Success? && RecordFromMetadata(files[q], env, q).Success?
    ensures RecordFromMetadata(files[p], env, p).value.backupId != RecordFromMetadata(files[q], env, q).value.backupId
  {
    hide RecordFromMetadata, InDirectory;
    var view := ViewOf(files, env);
    assert p in view && q in view;
  }

  lemma ListsStep(l: Loaded, ordered: seq<string>, i: nat, files: map<string, Document>, env: string,
                  added: BackupRecord)
    requires i < |ordered| && Lists(l, ordered[..i], files, env)
    requires ordered[i] in files && RecordFromMetadata(files[ordered[i]], env, ordered[i]) == Success(added.data)
    requires forall j :: 0 <= j < i ==> l.records[j].data.backupId != added.data.backupId
    ensures Lists(Loaded(l.records + [added], l.quarantine,
                         l.raw[added.data.backupId := Raw(files[ordered[i]], ordered[i])]),
                  ordered[..i + 1], files, env)
  {
    hide RecordFromMetadata;
    var records := l.records + [added];
    var raw := l.raw[added.data.backupId := Raw(files[ordered[i]], ordered[i])];
    var paths := ordered[..i + 1];
    forall j | 0 <= j < i + 1
      ensures paths[j] in files && RecordFromMetadata(files[paths[j]], env, paths[j]) == Success(records[j].data)
      ensures records[j].data.backupId in raw && raw[records[j].data.backupId] == Raw(files[paths[j]], paths[j])
    {
      if j < i {
        assert paths[j] == ordered[..i][j] && records[j] == l.records[j];
      }
    }
    forall j, k | 0 <= j < k < i + 1
      ensures records[j].data.backupId != records[k].data.backupId
    {
    }
    forall id | id in raw
      ensures exists j :: 0 <= j < i + 1 && records[j].data.backupId == id
    {
      if id != added.data.backupId {
        var j :| 0 <= j < i && l.records[j].data.backupId == id;
        assert records[j].data.backupId == id;
      }
    }
  }

  // ---------------------------------------------------------------- loads and the law

  ghost predicate Complete(paths: seq<string>, files: map<string, Document>, env: string) {
    forall p :: p in paths <==> p in files && InDirectory(p, env)
  }

  lemma ListsAt(l: Loaded, paths: seq<string>, files: map<string, Document>, env: string, i: nat)
    requires Lists(l, paths, files, env) && Complete(paths, files, env) && i < |paths|
    ensures |l.records| == |paths|
    ensures paths[i] in ViewOf(files, env) && ViewOf(files, env)[paths[i]] == l.records[i].data
  {
    hide RecordFromMetadata, InDirectory;
    assert paths[i] in paths;
  }

  lemma ListsPlace(l: Loaded, paths: seq<string>, files: map<string, Document>, env: string, p: string)
    returns (i: nat)
    requires Lists(l, paths, files, env) && Complete(paths, files, env) && p in files && InDirectory(p, env)
    ensures i < |paths| && paths[i] == p
  {
    hide RecordFromMetadata, InDirectory, Lists;
    i :| 0 <= i < |paths| && paths[i] == p;
  }

  lemma ListsDistinct(l: Loaded, paths: seq<string>, files: map<string, Document>, env: string, i: nat, j: nat)
    requires Lists(l, paths, files, env) && i < j < |paths|
    ensures |l.records| == |paths| && l.records[i].data.backupId != l.records[j].data.backupId
  {
    hide RecordFromMetadata;
  }

  lemma ViewMember(files: map<string, Document>, env: string, p: string)
    requires p in ViewOf(files, env)
    ensures p in files && InDirectory(p, env)
  {
    hide RecordFromMetadata, InDirectory;
  }

  lemma ListsReadable(l: Loaded, paths: seq<string>, files: map<string, Document>, env: string)
    requires Lists(l, paths, files, env) && Complete(paths, files, env)
    ensures Readable(files, env)
  {
    hide RecordFromMetadata, InDirectory, Lists, Complete, ViewOf;
    var view := ViewOf(files, env);
    forall p | p in files && InDirectory(p, env)
      ensures p in view
    {
      var i := ListsPlace(l, paths, files, env, p);
      ListsAt(l, paths, files, env, i);
    }
    forall p, q | p in view && q in view && p != q
      ensures view[p].backupId != view[q].backupId
    {
      ViewMember(files, env, p);
      ViewMember(files, env, q);
      var i := ListsPlace(l, paths, files, env, p);
      var j := ListsPlace(l, paths, files, env, q);
      ListsAt(l, paths, files, env, i);
      ListsAt(l, paths, files, env, j);
      if i < j {
        ListsDistinct(l, paths, files, env, i, j);
      } else {
        ListsDistinct(l, paths, files, env, j, i);
      }
    }
  }

  lemma ListsView(l: Loaded, paths: seq<string>, files: map<string, Document>, env: string)
    requires Lists(l, paths, files, env) && Complete(paths, files, env)
    ensures Readable(files, env) && UniqueIds(Data(l.records))
    ensures |l.records| == |paths|
    ensures forall i :: 0 <= i < |paths| ==>
        paths[i] in ViewOf(files, env) && ViewOf(files, env)[paths[i]] == l.records[i].data
    ensures forall p :: p in ViewOf(files, env) ==> p in paths
  {
    hide RecordFromMetadata, InDirectory, Complete, ViewOf, Readable;
    ListsReadable(l, paths, files, env);
    forall i | 0 <= i < |paths|
      ensures paths[i] in ViewOf(files, env) && ViewOf(files, env)[paths[i]] == l.records[i].data
    {
      ListsAt(l, paths, files, env, i);
    }
    forall p | p in ViewOf(files, env)
      ensures p in paths
    {
      ViewMember(files, env, p);
      var i := ListsPlace(l, paths, files, env, p);
    }
  }

  /** The law on the loaded list is the law on the documents. */
  lemma ListsLaw(l: Loaded, paths: seq<string>, files: map<string, Document>, env: string, kind: string, now: int,
                 i: nat)
    requires Lists(l, paths, files, env) && Complete(paths, files, env) && i < |l.records|
    ensures |l.records| == |paths|
    ensures Deletable(l.records[i].data.backupId, Data(l.records), env, kind, now)
       <==> ReleasedIn(ViewOf(files, env), paths[i], env, kind, now)
  {
    hide RecordFromMetadata, InDirectory, Lists, Complete, Readable, ViewOf, Deletable, Before, Expires,
      Evidence.Advances, UniqueIds;
    var es, view := Data(l.records), ViewOf(files, env);
    assert UniqueIds(es) && |es| == |paths| by {
      ListsView(l, paths, files, env);
    }
    DeletableAt(es, i, env, kind, now);
    ListsAt(l, paths, files, env, i);
    if Expired(es[i], es, env, kind, now) {
      var j :| 0 <= j < |es| && Expires(es[i], es[j], env, kind, now);
      ListsAt(l, paths, files, env, j);
      assert Expires(view[paths[i]], view[paths[j]], env, kind, now);
    }
    if ReleasedIn(view, paths[i], env, kind, now) {
      var q :| q in view && Expires(view[paths[i]], view[q], env, kind, now);
      ViewMember(files, env, q);
      var j := ListsPlace(l, paths, files, env, q);
      ListsAt(l, paths, files, env, j);
      assert Expires(es[i], es[j], env, kind, now);
    }
  }

  /** Leaving a tombstone for a released backup changes that verdict and no other. */
  lemma TombstoneStep(files: map<string, Document>, p: string, t: Document, env: string, kind: string, now: int)
    requires Readable(files, env) && ReleasedIn(ViewOf(files, env), p, env, kind, now) && IsTombstoneOf(t, files[p])
    ensures var after := files[p := t];
            var view, next := ViewOf(files, env), ViewOf(after, env);
            && Readable(after, env)
            && next == view[p := Tombstoned(view[p])]
            && forall q :: ReleasedIn(next, q, env, kind, now) <==> q != p && ReleasedIn(view, q, env, kind, now)
  {
    var after := files[p := t];
    var view, next := ViewOf(files, env), ViewOf(after, env);
    TombstoneReadsBack(files[p], t, env, p);
    TombstonedView(files, p, t, env);
    hide RecordFromMetadata, InDirectory, ViewOf, IsTombstoneOf;
    assert forall q :: q in next ==> q in view && next[q].backupId == view[q].backupId;
    forall q
      ensures ReleasedIn(next, q, env, kind, now) <==> q != p && ReleasedIn(view, q, env, kind, now)
    {
      if q in view && q != p {
        ReleasedStable(view, next, p, q, env, kind, now);
      }
    }
  }

  lemma TombstonedView(files: map<string, Document>, p: string, t: Document, env: string)
    requires p in ViewOf(files, env)
    requires RecordFromMetadata(t, env, p) == Success(Tombstoned(ViewOf(files, env)[p]))
    ensures ViewOf(files[p := t], env) == ViewOf(files, env)[p := Tombstoned(ViewOf(files, env)[p])]
  {
    hide RecordFromMetadata, InDirectory;
  }

  lemma ReleasedStable(view: map<string, Evidence>, next: map<string, Evidence>, p: string, q: string, env: string,
                       kind: string, now: int)
    requires ReleasedIn(view, p, env, kind, now) && next == view[p := Tombstoned(view[p])]
    requires q in view && q != p
    ensures ReleasedIn(next, q, env, kind, now) <==> ReleasedIn(view, q, env, kind, now)
  {
    if ReleasedIn(view, q, env, kind, now) {
      var w :| w in view && Expires(view[q], view[w], env, kind, now);
      if w == p {
        var v :| v in view && Expires(view[p], view[v], env, kind, now);
        BeforeTransitive(view[q], view[p], view[v]);
        BeforeTotal(view[p], view[p]);
        assert Expires(next[q], next[v], env, kind, now);
      } else {
        assert Expires(next[q], next[w], env, kind, now);
      }
    }
    if ReleasedIn(next, q, env, kind, now) {
      var w :| w in next && Expires(next[q], next[w], env, kind, now);
      assert Expires(view[q], view[w], env, kind, now);
    }
  }

  // ---------------------------------------------------------------- one candidate

  datatype SkipReason =
    | BecameAmbiguous
    | NoLongerEligible(reasons: seq<Reason>)
    | RecordChanged
    | ForeignTag
    | MetadataGone

  datatype Failure = RereadFailed | ReleaseDeletionFailed | TombstoneFailed

  datatype Step =
    | Removed(tag: string, outcome: Outcome)
    | Skipped(reason: SkipReason)
    | Failed(failure: Failure)
  {
    /** The run never continues after a failure or an ambiguity. */
    predicate Stops() {
      Failed? || (Skipped? && reason == BecameAmbiguous)
    }
  }

  /** The store lost at most the release of one targeted backup and, only after it, the live document. */
  ghost predicate AtMost(p: string, files0: map<string, Document>, releases0: set<string>,
                         files: map<string, Document>, releases: set<string>, env: string, kind: string, now: int) {
    || (files == files0 && releases == releases0)
    || (&& Target(files0, p, env, kind, now)
        && releases == releases0 - {TagOf(ViewOf(files0, env)[p])}
        && (files == files0 || TombstonedAt(p, files0, files)))
  }

  ghost predicate TombstonedAt(p: string, files0: map<string, Document>, files: map<string, Document>) {
    p in files0 && p in files && IsTombstoneOf(files[p], files0[p]) && files == files0[p := files[p]]
  }

  /** A release and its document went together: the backup was targeted, and nothing else changed. */
  ghost predicate RemovedExactly(p: string, tag: string, files0: map<string, Document>, releases0: set<string>,
                                 files: map<string, Document>, releases: set<string>, env: string, kind: string,
                                 now: int) {
    && Target(files0, p, env, kind, now) && tag == TagOf(ViewOf(files0, env)[p])
    && releases == releases0 - {tag} && TombstonedAt(p, files0, files)
  }

  predicate SecretAt(files: map<string, Document>, p: string) {
    p in files && files[p].Document? && files[p].secretMarker
  }

  /** `q` holds the candidate's record as it was planned, and its tombstone may be committed. */
  predicate IsCandidate(files: map<string, Document>, q: string, env: string, id: string, planned: Evidence) {
    var view := ViewOf(files, env);
    && Readable(files, env) && q in view && view[q].backupId == id
    && Unchanged(view[q], planned) && !SecretAt(files, q)
  }

  /** What the re-read and the verdict establish about the candidate's document. */
  lemma CandidatePath(l: Loaded, paths: seq<string>, files: map<string, Document>, env: string, kind: string, now: int,
                      id: string)
    returns (p: string)
    requires Lists(l, paths, files, env) && Complete(paths, files, env)
    requires Deletable(id, Data(l.records), env, kind, now)
    ensures Readable(files, env) && ReleasedIn(ViewOf(files, env), p, env, kind, now)
    ensures p in files && files[p].Document? && ViewOf(files, env)[p].backupId == id
    ensures FindById(id, l.records).Some? && FindById(id, l.records).value.data == ViewOf(files, env)[p]
    ensures id in l.raw && l.raw[id] == Raw(files[p], p)
  {
    ListsView(l, paths, files, env);
    var es := Data(l.records);
    var i :| 0 <= i < |es| && MatchesAt(id, es, env, kind, i) && Expired(es[i], es, env, kind, now);
    ListsLaw(l, paths, files, env, kind, now, i);
    p := paths[i];
    FoundById(l.records[i], l.records);
  }

  /** A released document's record is judged deletable, and found. */
  lemma CandidateJudged(l: Loaded, paths: seq<string>, files: map<string, Document>, env: string, kind: string,
                        now: int, q: string)
    requires Lists(l, paths, files, env) && Complete(paths, files, env) && q in ViewOf(files, env)
    ensures UniqueIds(Data(l.records))
    ensures Deletable(ViewOf(files, env)[q].backupId, Data(l.records), env, kind, now)
       <==> ReleasedIn(ViewOf(files, env), q, env, kind, now)
  {
    ListsView(l, paths, files, env);
    hide Lists, Deletable, ReleasedIn, Complete, UniqueIds;
    var i :| 0 <= i < |paths| && paths[i] == q;
    ListsLaw(l, paths, files, env, kind, now, i);
  }

  lemma OnePathPerId(files: map<string, Document>, env: string, p: string, q: string)
    requires Readable(files, env) && p in ViewOf(files, env) && q in ViewOf(files, env)
    requires ViewOf(files, env)[p].backupId == ViewOf(files, env)[q].backupId
    ensures p == q
  {
    hide ViewOf, InDirectory;
  }

  /** Re-evaluates one planned backup against the live store and, if it still may go, removes it. */
  method ReapOne(store: BackupStore, env: string, kind: string, now: int, entry: Entry, planned: Evidence)
    returns (step: Step, ghost p: string)
    requires IsType(kind)
    modifies store
    ensures AtMost(p, old(store.files), old(store.releases), store.files, store.releases, env, kind, now)
    ensures step.Skipped? ==> store.files == old(store.files) && store.releases == old(store.releases)
    ensures step.Removed? ==>
              && RemovedExactly(p, step.tag, old(store.files), old(store.releases), store.files, store.releases, env,
                kind, now)
              && step.outcome == (if step.tag in old(store.releases) then Deleted else AlreadyAbsent)
              && p in old(store.files) && old(store.files)[p].Document?
              && Tombstones(store.files[p], old(store.files)[p], entry.successorBackupId, entry.retentionExpiresAt, now)
    ensures store.files != old(store.files) || store.releases != old(store.releases) ==>
              && p in ViewOf(old(store.files), env)
              && ViewOf(old(store.files), env)[p].backupId == entry.backupId
              && Unchanged(ViewOf(old(store.files), env)[p], planned)
    ensures step.Removed? ==>
              && ViewOf(old(store.files), env)[p].backupId == entry.backupId
              && Unchanged(ViewOf(old(store.files), env)[p], planned)
    ensures step == Failed(RereadFailed) ==> store.files == old(store.files) && store.releases == old(store.releases)
    ensures step == Failed(ReleaseDeletionFailed) ==> store.files == old(store.files)
    ensures old(store.faults) == [] ==> store.faults == []
    ensures store.files != old(store.files) ==>
              && p in old(store.files) && p in store.files
              && Tombstones(store.files[p], old(store.files)[p], entry.successorBackupId, entry.retentionExpiresAt, now)
    ensures forall q :: old(store.faults) == [] && IsCandidate(old(store.files), q, env, entry.backupId, planned) ==>
              if Target(old(store.files), q, env, kind, now) then step.Removed? && p == q
              else if ReleasedIn(ViewOf(old(store.files), env), q, env, kind, now) then step == Skipped(ForeignTag)
              else step.Skipped? && step.reason.NoLongerEligible?
  {
    hide Lists, Readable, ViewOf, Deletable, ReleasedIn, NoAliases, UniqueIds, ToldWhy, Outlasted;
    hide Fingerprint, Unchanged, Tombstones, InDirectory, IsTombstoneOf, InNamespace, FindById, Data, Matching,
      Bookkept;
    p := "";
    ghost var files0, releases0 := store.files, store.releases;
    ghost var paths;
    var loaded: Result<Loaded, TransportError>;
    loaded, paths := LoadChainState(store, env);
    if loaded.Failure? {
      return Failed(RereadFailed), p;
    }
    if loaded.value.quarantine != [] {
      return Skipped(BecameAmbiguous), p;
    }
    var l := loaded.value;
    assert Complete(paths, files0, env);
    forall q | q in ViewOf(files0, env)
      ensures UniqueIds(Data(l.records))
      ensures Deletable(ViewOf(files0, env)[q].backupId, Data(l.records), env, kind, now)
         <==> ReleasedIn(ViewOf(files0, env), q, env, kind, now)
    {
      CandidateJudged(l, paths, files0, env, kind, now, q);
    }
    var verdict := EvaluateDeletion(entry.backupId, l.records, env, kind, now);
    if !verdict.allowed {
      return Skipped(NoLongerEligible(verdict.reasons)), p;
    }
    p := CandidatePath(l, paths, files0, env, kind, now, entry.backupId);
    forall q | q in ViewOf(files0, env) && ViewOf(files0, env)[q].backupId == entry.backupId
      ensures q == p
    {
      ReleasedMember(ViewOf(files0, env), p, env, kind, now);
      OnePathPerId(files0, env, p, q);
    }
    var current := FindById(entry.backupId, l.records);
    FingerprintFields(current.value.data, planned);
    if current.None? || Fingerprint(current.value.data) != Fingerprint(planned) {
      return Skipped(RecordChanged), p;
    }
    var tag := TagOf(current.value.data);
    if !InNamespace(tag, env, kind) {
      return Skipped(ForeignTag), p;
    }
    if entry.backupId !in l.raw {
      return Skipped(MetadataGone), p;
    }
    var meta := l.raw[entry.backupId];
    var outcome := store.DeleteRelease(tag);
    if outcome.Failure? {
      return Failed(ReleaseDeletionFailed), p;
    }
    if meta.doc.secretMarker {
      return Failed(TombstoneFailed), p;
    }
    var tombstone := BuildTombstone(meta.doc, entry.successorBackupId, entry.retentionExpiresAt, now);
    TombstoneBuilt(meta.doc, entry.successorBackupId, entry.retentionExpiresAt, now);
    TombstoneFields(meta.doc, entry.successorBackupId, entry.retentionExpiresAt, now);
    var put := store.PutMetadataIfMatch(meta.path, tombstone, meta.doc);
    if put.Failure? {
      return Failed(TombstoneFailed), p;
    }
    step := Removed(tag, outcome.value);
  }

  lemma ReleasedMember(view: map<string, Evidence>, p: string, env: string, kind: string, now: int)
    requires ReleasedIn(view, p, env, kind, now)
    ensures p in view
  {
  }

  lemma TombstoneBuilt(doc: Document, successor: Option<string>, expiredAt: Option<int>, now: int)
    requires doc.Document?
    ensures IsTombstoneOf(BuildTombstone(doc, successor, expiredAt, now), doc)
  {
  }

  // ---------------------------------------------------------------- the run

  datatype Report = Report(
    eligible: seq<string>, protectedId: Option<string>, quarantined: bool,
    deleted: seq<string>, skipped: seq<(string, SkipReason)>, failures: seq<(string, Failure)>)

  datatype ReaperError = InvalidEnvironment | InvalidType | ListingFailed

  lemma ReleasedMembers(es: seq<Evidence>, all: seq<Evidence>, env: string, kind: string, now: int)
    ensures forall id :: id in Released(es, all, env, kind, now) <==>
              exists i :: 0 <= i < |es| && es[i].backupId == id && Deletable(id, all, env, kind, now)
    ensures UniqueIds(es) ==> Distinct(Released(es, all, env, kind, now))
  {
    hide Deletable, Released, UniqueIds, Distinct;
    forall id
      ensures id in Released(es, all, env, kind, now) <==>
                exists i :: 0 <= i < |es| && es[i].backupId == id && Deletable(id, all, env, kind, now)
    {
      ReleasedOnce(es, all, env, kind, now, id);
    }
    if UniqueIds(es) {
      ReleasedDistinct(es, all, env, kind, now);
    }
  }

  predicate Names(es: seq<Evidence>, id: string) {
    exists i :: 0 <= i < |es| && es[i].backupId == id
  }

  lemma {:induction false} ReleasedOnce(es: seq<Evidence>, all: seq<Evidence>, env: string, kind: string, now: int,
                                        id: string)
    ensures id in Released(es, all, env, kind, now) <==> Names(es, id) && Deletable(id, all, env, kind, now)
  {
    hide Deletable;
    if es != [] {
      hide Released, Names;
      ReleasedOnce(es[..|es| - 1], all, env, kind, now, id);
      ReleasedNext(es, all, env, kind, now, id);
      NamesNext(es, id);
    }
  }

  lemma NamesNext(es: seq<Evidence>, id: string)
    requires es != []
    ensures Names(es, id) <==> Names(es[..|es| - 1], id) || es[|es| - 1].backupId == id
  {
    var n := |es| - 1;
    if Names(es, id) {
      var i :| 0 <= i < |es| && es[i].backupId == id;
      assert i < n ==> es[..n][i].backupId == id;
    }
    if Names(es[..n], id) {
      var i :| 0 <= i < n && es[..n][i].backupId == id;
      assert es[i].backupId == id;
    }
  }

  lemma ReleasedNext(es: seq<Evidence>, all: seq<Evidence>, env: string, kind: string, now: int, id: string)
    requires es != []
    ensures var n := |es| - 1;
            id in Released(es, all, env, kind, now) <==>
              id in Released(es[..n], all, env, kind, now)
              || (id == es[n].backupId && Deletable(id, all, env, kind, now))
  {
    hide Deletable;
  }

  lemma {:induction false} ReleasedDistinct(es: seq<Evidence>, all: seq<Evidence>, env: string, kind: string, now: int)
    requires UniqueIds(es)
    ensures Distinct(Released(es, all, env, kind, now))
  {
    hide Deletable, Names;
    if es != [] {
      var n := |es| - 1;
      ReleasedDistinct(es[..n], all, env, kind, now);
      ReleasedOnce(es[..n], all, env, kind, now, es[n].backupId);
      NotNamedBefore(es);
    }
  }

  lemma NotNamedBefore(es: seq<Evidence>)
    requires UniqueIds(es) && es != []
    ensures !Names(es[..|es| - 1], es[|es| - 1].backupId)
  {
  }

  lemma FoundInView(l: Loaded, paths: seq<string>, files: map<string, Document>, env: string, p: string)
    requires Lists(l, paths, files, env) && Complete(paths, files, env) && p in ViewOf(files, env)
    ensures var found := FindById(ViewOf(files, env)[p].backupId, l.records);
            found.Some? && found.value.data == ViewOf(files, env)[p]
  {
    ListsView(l, paths, files, env);
    hide Lists, Complete, ViewOf, UniqueIds, Data, FindById;
    var i :| 0 <= i < |paths| && paths[i] == p;
    FoundById(l.records[i], l.records);
  }

  lemma ReleasedIsPlanned(l: Loaded, paths: seq<string>, files: map<string, Document>, env: string, kind: string,
                          now: int, p: string)
    requires Lists(l, paths, files, env) && Complete(paths, files, env)
    requires ReleasedIn(ViewOf(files, env), p, env, kind, now)
    ensures ViewOf(files, env)[p].backupId in ReleasedAll(Data(l.records), [env], [kind], now)
  {
    ListsView(l, paths, files, env);
    ReleasedAdvances(ViewOf(files, env), p, env, kind, now);
    hide Lists, Complete, ViewOf, UniqueIds, Deletable, ReleasedIn, Released, ReleasedAll, ChainOf;
    var all := Data(l.records);
    var chain := ChainOf(all, env, kind);
    OneChain(all, env, kind, now);
    ReleasedMembers(chain, all, env, kind, now);
    var i :| 0 <= i < |paths| && paths[i] == p;
    ListsLaw(l, paths, files, env, kind, now, i);
    assert all[i] in all;
    assert all[i] in chain;
    var j :| 0 <= j < |chain| && chain[j] == all[i];
    assert chain[j].backupId == ViewOf(files, env)[p].backupId;
  }

  lemma PlannedIsReleased(l: Loaded, paths: seq<string>, files: map<string, Document>, env: string, kind: string,
                          now: int, id: string)
    returns (p: string)
    requires Lists(l, paths, files, env) && Complete(paths, files, env)
    requires id in ReleasedAll(Data(l.records), [env], [kind], now)
    ensures ReleasedIn(ViewOf(files, env), p, env, kind, now) && ViewOf(files, env)[p].backupId == id
  {
    hide Lists, Complete, ViewOf, UniqueIds, Deletable, ReleasedIn, Released, ReleasedAll, ChainOf;
    var all := Data(l.records);
    assert UniqueIds(all) && |all| == |paths| by {
      ListsView(l, paths, files, env);
    }
    var chain := ChainOf(all, env, kind);
    OneChain(all, env, kind, now);
    ReleasedMembers(chain, all, env, kind, now);
    var j :| 0 <= j < |chain| && chain[j].backupId == id && Deletable(id, all, env, kind, now);
    assert chain[j] in chain;
    var i :| 0 <= i < |all| && all[i] == chain[j];
    ListsLaw(l, paths, files, env, kind, now, i);
    ListsAt(l, paths, files, env, i);
    p := paths[i];
  }

  lemma PlanIsDistinct(l: Loaded, paths: seq<string>, files: map<string, Document>, env: string, kind: string, now: int)
    requires Lists(l, paths, files, env) && Complete(paths, files, env)
    ensures UniqueIds(Data(l.records)) && Distinct(ReleasedAll(Data(l.records), [env], [kind], now))
  {
    ListsView(l, paths, files, env);
    hide Lists, Complete, UniqueIds, Released, ReleasedAll, ChainOf, Distinct;
    var all := Data(l.records);
    OneChain(all, env, kind, now);
    ChainOfUnique(all, env, kind);
    ReleasedMembers(ChainOf(all, env, kind), all, env, kind, now);
  }

  lemma ReleasedAdvances(view: map<string, Evidence>, p: string, env: string, kind: string, now: int)
    requires ReleasedIn(view, p, env, kind, now)
    ensures p in view && view[p].Advances(env, kind)
  {
  }

  lemma OneChain(all: seq<Evidence>, env: string, kind: string, now: int)
    ensures ReleasedAll(all, [env], [kind], now) == Released(ChainOf(all, env, kind), all, env, kind, now)
  {
    hide Released, ChainOf;
    assert [env][..0] == [] && [kind][..0] == [];
    var released := Released(ChainOf(all, env, kind), all, env, kind, now);
    assert ReleasedTypes(all, env, [kind], now) == [] + released;
    assert ReleasedAll(all, [env], [kind], now) == [] + ReleasedTypes(all, env, [kind], now);
  }

  function TagsOf(view: map<string, Evidence>, done: set<string>): set<string> {
    set p | p in done && p in view :: TagOf(view[p])
  }

  lemma TagsStep(view: map<string, Evidence>, done: set<string>, p: string)
    requires p in view
    ensures TagsOf(view, done + {p}) == TagsOf(view, done) + {TagOf(view[p])}
  {
    var all := done + {p};
    assert p in all;
    forall x | x in TagsOf(view, done)
      ensures x in TagsOf(view, all)
    {
      var q :| q in done && q in view && TagOf(view[q]) == x;
      assert q in all;
    }
  }

  /** The documents after those at `done` became tombstones. */
  ghost predicate ReapedFiles(done: set<string>, files0: map<string, Document>, files: map<string, Document>,
                              env: string, kind: string, now: int) {
    && files.Keys == files0.Keys
    && (forall p :: p in done ==>
      Target(files0, p, env, kind, now) && p in files0 && IsTombstoneOf(files[p], files0[p]))
    && (forall p :: p in files0 && p !in done ==> files[p] == files0[p])
  }

  /** The law after the backups at `done` were removed: those verdicts turned, and no other. */
  ghost predicate ReapedView(done: set<string>, view0: map<string, Evidence>, view: map<string, Evidence>,
                             env: string, kind: string, now: int) {
    && view.Keys == view0.Keys
    && (forall p :: p in view0 && p !in done ==> view[p] == view0[p])
    && (forall p :: p in view0 ==> TagOf(view[p]) == TagOf(view0[p]) && view[p].backupId == view0[p].backupId)
    && (forall p :: ReleasedIn(view, p, env, kind, now) <==> p !in done && ReleasedIn(view0, p, env, kind, now))
  }

  /** The store after the backups at `done` were removed, one by one. */
  ghost predicate Reaped(done: set<string>, files0: map<string, Document>, releases0: set<string>,
                         files: map<string, Document>, releases: set<string>, env: string, kind: string, now: int) {
    && Readable(files, env)
    && ReapedFiles(done, files0, files, env, kind, now)
    && ReapedView(done, ViewOf(files0, env), ViewOf(files, env), env, kind, now)
    && releases == releases0 - TagsOf(ViewOf(files0, env), done)
  }

  lemma ReapedNone(files: map<string, Document>, releases: set<string>, env: string, kind: string, now: int)
    requires Readable(files, env)
    ensures Reaped({}, files, releases, files, releases, env, kind, now)
  {
    hide Readable, ViewOf, ReleasedIn, Target, IsTombstoneOf;
    assert releases - TagsOf(ViewOf(files, env), {}) == releases;
  }

  lemma ReapedTarget(done: set<string>, files0: map<string, Document>, releases0: set<string>,
                     files: map<string, Document>, releases: set<string>, env: string, kind: string, now: int,
                     p: string)
    requires Readable(files0, env) && Reaped(done, files0, releases0, files, releases, env, kind, now)
    ensures Target(files, p, env, kind, now) <==> p !in done && Target(files0, p, env, kind, now)
    ensures p in ViewOf(files0, env) ==>
        p in ViewOf(files, env) && TagOf(ViewOf(files, env)[p]) == TagOf(ViewOf(files0, env)[p])
  {
    hide Readable, ViewOf, IsTombstoneOf, InNamespace, TagOf;
    if ReleasedIn(ViewOf(files0, env), p, env, kind, now) {
      ReleasedAdvances(ViewOf(files0, env), p, env, kind, now);
    }
  }

  lemma ReapedViewStep(done: set<string>, view0: map<string, Evidence>, view: map<string, Evidence>,
                       next: map<string, Evidence>, env: string, kind: string, now: int, p: string)
    requires ReapedView(done, view0, view, env, kind, now) && ReleasedIn(view, p, env, kind, now) && p in view
    requires next == view[p := Tombstoned(view[p])]
    requires forall q :: ReleasedIn(next, q, env, kind, now) <==> q != p && ReleasedIn(view, q, env, kind, now)
    ensures p !in done && ReapedView(done + {p}, view0, next, env, kind, now)
  {
    hide ReleasedIn, TagOf;
    TagKept(view[p]);
  }

  lemma ReapedFilesStep(done: set<string>, files0: map<string, Document>, files: map<string, Document>,
                        files1: map<string, Document>, env: string, kind: string, now: int, p: string)
    requires ReapedFiles(done, files0, files, env, kind, now) && p !in done
    requires Target(files0, p, env, kind, now) && TombstonedAt(p, files, files1)
    ensures ReapedFiles(done + {p}, files0, files1, env, kind, now)
  {
    hide Target, IsTombstoneOf;
    assert files[p] == files0[p];
  }

  lemma ReapedStep(done: set<string>, files0: map<string, Document>, releases0: set<string>,
                   files: map<string, Document>, releases: set<string>, env: string, kind: string, now: int,
                   p: string, tag: string, files1: map<string, Document>, releases1: set<string>)
    requires Readable(files0, env) && Reaped(done, files0, releases0, files, releases, env, kind, now)
    requires RemovedExactly(p, tag, files, releases, files1, releases1, env, kind, now)
    ensures p !in done
    ensures Reaped(done + {p}, files0, releases0, files1, releases1, env, kind, now)
  {
    hide *;
    var view0, view, next := ViewOf(files0, env), ViewOf(files, env), ViewOf(files1, env);
    TargetParts(done, files0, releases0, files, releases, env, kind, now, p, tag, files1, releases1);
    RemovedView(files, releases, env, kind, now, p, tag, files1, releases1);
    ReapedViewStep(done, view0, view, next, env, kind, now, p);
    ReapedFilesStep(done, files0, files, files1, env, kind, now, p);
    TagsStep(view0, done, p);
    assert releases1 == releases0 - TagsOf(view0, done + {p});
    ReapedJoin(done + {p}, files0, releases0, files1, releases1, env, kind, now);
  }

  lemma RemovedView(files: map<string, Document>, releases: set<string>, env: string, kind: string, now: int,
                    p: string, tag: string, files1: map<string, Document>, releases1: set<string>)
    requires RemovedExactly(p, tag, files, releases, files1, releases1, env, kind, now)
    ensures var view, next := ViewOf(files, env), ViewOf(files1, env);
            && ReleasedIn(view, p, env, kind, now) && p in view
            && Readable(files1, env)
            && next == view[p := Tombstoned(view[p])]
            && forall q :: ReleasedIn(next, q, env, kind, now) <==> q != p && ReleasedIn(view, q, env, kind, now)
  {
    ReleasedMember(ViewOf(files, env), p, env, kind, now);
    hide ViewOf, IsTombstoneOf, ReleasedIn, InNamespace, TagOf, Readable;
    TombstoneStep(files, p, files1[p], env, kind, now);
  }

  lemma TargetParts(done: set<string>, files0: map<string, Document>, releases0: set<string>,
                    files: map<string, Document>, releases: set<string>, env: string, kind: string, now: int,
                    p: string, tag: string, files1: map<string, Document>, releases1: set<string>)
    requires Readable(files0, env) && Reaped(done, files0, releases0, files, releases, env, kind, now)
    requires RemovedExactly(p, tag, files, releases, files1, releases1, env, kind, now)
    ensures ReapedView(done, ViewOf(files0, env), ViewOf(files, env), env, kind, now)
    ensures ReapedFiles(done, files0, files, env, kind, now)
    ensures Target(files0, p, env, kind, now) && TombstonedAt(p, files, files1) && files1 == files[p := files1[p]]
    ensures p in ViewOf(files0, env) && tag == TagOf(ViewOf(files0, env)[p])
    ensures releases == releases0 - TagsOf(ViewOf(files0, env), done) && releases1 == releases - {tag}
  {
    ReapedTarget(done, files0, releases0, files, releases, env, kind, now, p);
    ReleasedMember(ViewOf(files, env), p, env, kind, now);
    hide ViewOf, IsTombstoneOf, ReleasedIn, InNamespace, TagOf, Readable, TagsOf;
  }

  lemma ReapedJoin(done: set<string>, files0: map<string, Document>, releases0: set<string>,
                   files: map<string, Document>, releases: set<string>, env: string, kind: string, now: int)
    requires Readable(files, env)
    requires ReapedFiles(done, files0, files, env, kind, now)
    requires ReapedView(done, ViewOf(files0, env), ViewOf(files, env), env, kind, now)
    requires releases == releases0 - TagsOf(ViewOf(files0, env), done)
    ensures Reaped(done, files0, releases0, files, releases, env, kind, now)
  {
  }

  lemma TagKept(e: Evidence)
    ensures TagOf(Tombstoned(e)) == TagOf(e) && Tombstoned(e).backupId == e.backupId
  {
  }

  /** Whatever fails, a run only ever removes what the law had released when it started. */
  ghost predicate OnlyTargets(files0: map<string, Document>, releases0: set<string>,
                              files: map<string, Document>, releases: set<string>, env: string, kind: string,
                              now: int) {
    && files.Keys == files0.Keys
    && (forall p :: p in files0 && files[p] != files0[p] ==>
          Target(files0, p, env, kind, now) && IsTombstoneOf(files[p], files0[p])
          && TagOf(ViewOf(files0, env)[p]) !in releases)
    && releases <= releases0
    && (forall tag :: tag in releases0 && tag !in releases ==>
          exists p ::
            Target(files0, p, env, kind, now) && p in ViewOf(files0, env) && TagOf(ViewOf(files0, env)[p]) == tag)
  }

  lemma TargetInView(files: map<string, Document>, p: string, env: string, kind: string, now: int)
    requires Target(files, p, env, kind, now)
    ensures p in ViewOf(files, env)
  {
    hide ViewOf, Readable;
  }

  lemma ReapedOnlyTargets(done: set<string>, files0: map<string, Document>, releases0: set<string>,
                          files: map<string, Document>, releases: set<string>, env: string, kind: string, now: int)
    requires Reaped(done, files0, releases0, files, releases, env, kind, now)
    ensures OnlyTargets(files0, releases0, files, releases, env, kind, now)
  {
    hide Readable, ViewOf, IsTombstoneOf, ReleasedIn, InNamespace, TagOf, Target;
    var view0 := ViewOf(files0, env);
    forall p | p in files0 && files[p] != files0[p]
      ensures p in view0 && TagOf(view0[p]) !in releases
    {
      assert p in done && Target(files0, p, env, kind, now);
      TargetInView(files0, p, env, kind, now);
      assert TagOf(view0[p]) in TagsOf(view0, done);
    }
    forall tag | tag in releases0 && tag !in releases
      ensures exists p :: Target(files0, p, env, kind, now) && p in view0 && TagOf(view0[p]) == tag
    {
      assert tag in TagsOf(view0, done);
      var p :| p in done && p in view0 && TagOf(view0[p]) == tag;
      assert Target(files0, p, env, kind, now);
    }
  }

  lemma StoppedOnlyTargets(done: set<string>, files0: map<string, Document>, releases0: set<string>,
                           files: map<string, Document>, releases: set<string>, env: string, kind: string, now: int,
                           p: string, files1: map<string, Document>, releases1: set<string>)
    requires Readable(files0, env) && Reaped(done, files0, releases0, files, releases, env, kind, now)
    requires AtMost(p, files, releases, files1, releases1, env, kind, now)
    ensures OnlyTargets(files0, releases0, files1, releases1, env, kind, now)
  {
    ReapedOnlyTargets(done, files0, releases0, files, releases, env, kind, now);
    if files1 != files || releases1 != releases {
      ReapedTarget(done, files0, releases0, files, releases, env, kind, now, p);
      ReleasedMember(ViewOf(files, env), p, env, kind, now);
      assert p !in done && files[p] == files0[p] by {
        hide ViewOf, IsTombstoneOf, ReleasedIn, InNamespace, TagOf, Readable, TagsOf, ReapedView;
        assert Target(files, p, env, kind, now);
      }
      OneMore(files0, releases0, files, releases, env, kind, now, p, files1, releases1);
    }
  }

  lemma OneMore(files0: map<string, Document>, releases0: set<string>,
                files: map<string, Document>, releases: set<string>, env: string, kind: string, now: int,
                p: string, files1: map<string, Document>, releases1: set<string>)
    requires OnlyTargets(files0, releases0, files, releases, env, kind, now)
    requires AtMost(p, files, releases, files1, releases1, env, kind, now)
    requires Target(files0, p, env, kind, now) && p in ViewOf(files0, env) && p in ViewOf(files, env)
    requires p in files0 && p in files && files[p] == files0[p]
    requires TagOf(ViewOf(files, env)[p]) == TagOf(ViewOf(files0, env)[p])
    ensures OnlyTargets(files0, releases0, files1, releases1, env, kind, now)
  {
    hide ViewOf, IsTombstoneOf, Target, TagOf;
    forall q | q in files0 && files1[q] != files0[q]
      ensures Target(files0, q, env, kind, now) && IsTombstoneOf(files1[q], files0[q])
    {
      if q != p || files1 == files {
        assert files1[q] == files[q];
      }
    }
  }

  /** `deleted` lists, by id, the backups at `done`; every target among the first k entries is done. */
  ghost predicate Progress(done: set<string>, ids: seq<string>, k: nat, view0: map<string, Evidence>,
                           files0: map<string, Document>, env: string, kind: string, now: int, deleted: seq<string>) {
    && k <= |ids|
    && (forall p :: p in done ==> p in view0 && view0[p].backupId in ids[..k] && view0[p].backupId in deleted)
    && (forall id :: id in deleted ==> exists p :: p in done && p in view0 && view0[p].backupId == id)
  }

  ghost predicate CaughtUp(done: set<string>, ids: seq<string>, k: nat, view0: map<string, Evidence>,
                           files0: map<string, Document>, env: string, kind: string, now: int) {
    && k <= |ids|
    && forall p :: p in view0 && Target(files0, p, env, kind, now) && view0[p].backupId in ids[..k] ==> p in done
  }

  lemma ProgressStep(done: set<string>, ids: seq<string>, k: nat, view0: map<string, Evidence>,
                     files0: map<string, Document>, env: string, kind: string, now: int, deleted: seq<string>,
                     p: string)
    requires Progress(done, ids, k, view0, files0, env, kind, now, deleted) && k < |ids|
    requires p in view0 && view0[p].backupId == ids[k]
    ensures Progress(done, ids, k + 1, view0, files0, env, kind, now, deleted)
    ensures Progress(done + {p}, ids, k + 1, view0, files0, env, kind, now, deleted + [ids[k]])
  {
    hide Target;
    assert ids[..k + 1] == ids[..k] + [ids[k]];
    var more := deleted + [ids[k]];
    forall id | id in more
      ensures exists q :: q in done + {p} && q in view0 && view0[q].backupId == id
    {
      if id in deleted {
        var q :| q in done && q in view0 && view0[q].backupId == id;
        assert q in done + {p};
      } else {
        assert p in done + {p};
      }
    }
  }

  lemma CaughtUpStep(done: set<string>, ids: seq<string>, k: nat, view0: map<string, Evidence>,
                     files0: map<string, Document>, env: string, kind: string, now: int, p: string)
    requires CaughtUp(done, ids, k, view0, files0, env, kind, now) && k < |ids|
    requires p in view0 && view0[p].backupId == ids[k]
    requires forall q :: q in view0 && view0[q].backupId == ids[k] ==> q == p
    ensures CaughtUp(done + {p}, ids, k + 1, view0, files0, env, kind, now)
    ensures !Target(files0, p, env, kind, now) ==> CaughtUp(done, ids, k + 1, view0, files0, env, kind, now)
  {
    hide Target;
    assert ids[..k + 1] == ids[..k] + [ids[k]];
  }

  /** An undisturbed run: no transport fault, an unambiguous environment, and no tombstone the secret check
     would refuse. */
  ghost predicate Undisturbed(faults: seq<Fault>, files: map<string, Document>, env: string, kind: string, now: int) {
    && faults == [] && Readable(files, env)
    && forall p :: p in ViewOf(files, env) && ReleasedIn(ViewOf(files, env), p, env, kind, now) ==> !SecretAt(files, p)
  }

  /** Every target is a tombstone without its release; everything else is as it was. */
  ghost predicate AllTargets(files0: map<string, Document>, releases0: set<string>,
                             files: map<string, Document>, releases: set<string>, env: string, kind: string, now: int) {
    && files.Keys == files0.Keys
    && (forall p :: p in files0 ==>
          if Target(files0, p, env, kind, now) then IsTombstoneOf(files[p], files0[p]) else files[p] == files0[p])
    && (forall tag :: tag in releases <==>
          tag in releases0 && forall p :: p in ViewOf(files0, env) && Target(files0, p, env, kind, now) ==>
            TagOf(ViewOf(files0, env)[p]) != tag)
  }

  lemma ReapedAll(done: set<string>, files0: map<string, Document>, releases0: set<string>,
                  files: map<string, Document>, releases: set<string>, env: string, kind: string, now: int)
    requires Reaped(done, files0, releases0, files, releases, env, kind, now)
    requires forall p :: p in ViewOf(files0, env) && Target(files0, p, env, kind, now) ==> p in done
    ensures AllTargets(files0, releases0, files, releases, env, kind, now)
  {
    var view0 := ViewOf(files0, env);
    forall p | p in files0
      ensures if Target(files0, p, env, kind, now) then IsTombstoneOf(files[p], files0[p]) else files[p] == files0[p]
    {
      if Target(files0, p, env, kind, now) {
        ReleasedMember(view0, p, env, kind, now);
      }
      hide Target, ViewOf, IsTombstoneOf, Readable, ReapedView, TagsOf;
    }
    hide Target, ViewOf, IsTombstoneOf, Readable, ReapedView, TagOf;
    forall tag
      ensures tag in releases <==>
              tag in releases0
              && forall p :: p in view0 && Target(files0, p, env, kind, now) ==> TagOf(view0[p]) != tag
    {
      if tag in TagsOf(view0, done) {
        var p :| p in done && p in view0 && TagOf(view0[p]) == tag;
        assert Target(files0, p, env, kind, now);
      } else {
        forall p | p in view0 && Target(files0, p, env, kind, now)
          ensures TagOf(view0[p]) != tag
        {
          assert p in done;
        }
      }
    }
  }

  /** A second run at the same instant finds nothing to delete. */
  lemma SecondRunDeletesNothing(files0: map<string, Document>, releases0: set<string>,
                                files: map<string, Document>, releases: set<string>, env: string, kind: string,
                                now: int, p: string)
    requires Readable(files0, env) && AllTargets(files0, releases0, files, releases, env, kind, now)
    ensures !Target(files, p, env, kind, now)
  {
    SameOrTombstone(files0, releases0, files, releases, env, kind, now);
    hide Readable, ViewOf, AllTargets, InNamespace, InDirectory, Before;
  }

  lemma SameOrTombstone(files0: map<string, Document>, releases0: set<string>,
                        files: map<string, Document>, releases: set<string>, env: string, kind: string, now: int)
    requires Readable(files0, env) && AllTargets(files0, releases0, files, releases, env, kind, now)
    ensures ViewOf(files, env).Keys == ViewOf(files0, env).Keys
    ensures forall q :: q in ViewOf(files, env) && ViewOf(files, env)[q].CanAdvance() ==>
        ViewOf(files, env)[q] == ViewOf(files0, env)[q]
    ensures forall q :: Target(files0, q, env, kind, now) && q in ViewOf(files, env) ==>
        !ViewOf(files, env)[q].CanAdvance()
  {
    hide Target, Readable, InDirectory, Evidence.CanAdvance, RecordFromMetadata, IsTombstoneOf;
    forall q | q in files0 && InDirectory(q, env)
      ensures q in ViewOf(files, env) <==> q in ViewOf(files0, env)
      ensures q in ViewOf(files, env) && ViewOf(files, env)[q].CanAdvance() ==>
          ViewOf(files, env)[q] == ViewOf(files0, env)[q]
      ensures Target(files0, q, env, kind, now) && q in ViewOf(files, env) ==> !ViewOf(files, env)[q].CanAdvance()
    {
      if Target(files0, q, env, kind, now) {
        TombstoneReadsBack(files0[q], files[q], env, q);
      }
    }
  }

  lemma NothingIsOnlyTargets(files: map<string, Document>, releases: set<string>, env: string, kind: string, now: int)
    ensures OnlyTargets(files, releases, files, releases, env, kind, now)
  {
    hide Target, ViewOf, IsTombstoneOf;
  }

  lemma UndisturbedParts(faults: seq<Fault>, files: map<string, Document>, env: string, kind: string, now: int)
    ensures Undisturbed(faults, files, env, kind, now) ==> faults == [] && Readable(files, env)
  {
  }

  lemma CompleteListing(paths: seq<string>, files: map<string, Document>, env: string)
    requires forall p :: p in paths <==> p in files && InDirectory(p, env)
    ensures Complete(paths, files, env)
  {
    hide InDirectory;
  }

  lemma NothingPlanned(l: Loaded, paths: seq<string>, files: map<string, Document>, releases: set<string>,
                       env: string, kind: string, now: int, ids: seq<string>)
    requires Lists(l, paths, files, env) && Complete(paths, files, env)
    requires ids == ReleasedAll(Data(l.records), [env], [kind], now)
    ensures ids == [] ==> AllTargets(files, releases, files, releases, env, kind, now)
    ensures ids == [] ==> forall p :: !Target(files, p, env, kind, now)
  {
    if ids == [] {
      forall p
        ensures !Target(files, p, env, kind, now)
      {
        if Target(files, p, env, kind, now) {
          ReleasedIsPlanned(l, paths, files, env, kind, now, p);
        }
      }
      hide Target, ViewOf, IsTombstoneOf, Lists, Complete;
    }
  }

  lemma ProgressNone(ids: seq<string>, view0: map<string, Evidence>, files0: map<string, Document>, env: string,
                     kind: string, now: int)
    ensures Progress({}, ids, 0, view0, files0, env, kind, now, [])
    ensures CaughtUp({}, ids, 0, view0, files0, env, kind, now)
  {
    hide Target;
  }

  lemma OnlyPath(files: map<string, Document>, env: string, at: string)
    requires Readable(files, env) && at in ViewOf(files, env)
    ensures forall q :: q in ViewOf(files, env) && ViewOf(files, env)[q].backupId == ViewOf(files, env)[at].backupId ==>
        q == at
  {
    hide ViewOf, InDirectory;
  }

  /** In an undisturbed run the k-th planned backup is still there as planned when its turn comes. */
  lemma StillCandidate(done: set<string>, files0: map<string, Document>, releases0: set<string>,
                       files: map<string, Document>, releases: set<string>, env: string, kind: string, now: int,
                       at: string, ids: seq<string>, k: nat, deleted: seq<string>, planned: Evidence)
    requires Reaped(done, files0, releases0, files, releases, env, kind, now)
    requires Undisturbed([], files0, env, kind, now)
    requires Progress(done, ids, k, ViewOf(files0, env), files0, env, kind, now, deleted)
    requires k < |ids| && Distinct(ids)
    requires ReleasedIn(ViewOf(files0, env), at, env, kind, now) && at in ViewOf(files0, env)
    requires ViewOf(files0, env)[at].backupId == ids[k] && planned == ViewOf(files0, env)[at]
    ensures IsCandidate(files, at, env, ids[k], planned)
    ensures Target(files, at, env, kind, now) <==> Target(files0, at, env, kind, now)
    ensures ReleasedIn(ViewOf(files, env), at, env, kind, now)
  {
    var view0 := ViewOf(files0, env);
    assert at !in done by {
      hide ViewOf, Reaped, Undisturbed, ReleasedIn, Readable;
      assert ids[k] !in ids[..k];
    }
    assert Readable(files0, env) by {
      hide ViewOf, Reaped, Progress;
    }
    ReapedTarget(done, files0, releases0, files, releases, env, kind, now, at);
    hide ReleasedIn, Readable, TagOf, TagsOf, Progress, IsTombstoneOf, InDirectory, RecordFromMetadata, Fingerprint,
      Target;
    assert files[at] == files0[at] && ViewOf(files, env)[at] == view0[at];
  }

  lemma CaughtUpAll(done: set<string>, l: Loaded, paths: seq<string>, ids: seq<string>, view0: map<string, Evidence>,
                    files0: map<string, Document>, releases0: set<string>,
                    files: map<string, Document>, releases: set<string>, env: string, kind: string, now: int,
                    deleted: seq<string>)
    requires Lists(l, paths, files0, env) && Complete(paths, files0, env) && view0 == ViewOf(files0, env)
    requires ids == ReleasedAll(Data(l.records), [env], [kind], now)
    requires Reaped(done, files0, releases0, files, releases, env, kind, now)
    requires Progress(done, ids, |ids|, view0, files0, env, kind, now, deleted)
    requires CaughtUp(done, ids, |ids|, view0, files0, env, kind, now)
    ensures AllTargets(files0, releases0, files, releases, env, kind, now)
    ensures forall p :: p in view0 && Target(files0, p, env, kind, now) ==> view0[p].backupId in deleted
    ensures forall id :: id in deleted ==>
        exists p :: p in view0 && Target(files0, p, env, kind, now) && view0[p].backupId == id
  {
    hide Lists, Complete, AllTargets, Target, ViewOf, ReleasedAll, ReapedView, TagsOf, IsTombstoneOf, Readable;
    forall p | p in view0 && Target(files0, p, env, kind, now)
      ensures p in done
    {
      TargetReleased(files0, p, env, kind, now);
      ReleasedIsPlanned(l, paths, files0, env, kind, now, p);
      assert ids[..|ids|] == ids;
    }
    ReapedAll(done, files0, releases0, files, releases, env, kind, now);
  }

  lemma TargetReleased(files: map<string, Document>, p: string, env: string, kind: string, now: int)
    requires Target(files, p, env, kind, now)
    ensures ReleasedIn(ViewOf(files, env), p, env, kind, now)
  {
    hide ViewOf, ReleasedIn, Readable, InNamespace;
  }

  /**
   Evaluates the retention of one chain and, only when authorised, executes it. Whatever
   the transport does, only backups the law had released are touched. An undisturbed
   authorised run removes exactly those of the chain's namespace.
   */
  // ---------------------------------------------------------------- what a tombstone says

  /** `q` holds the first backup of the chain that was stored after the one of `p`. */
  predicate FollowsIn(view: map<string, Evidence>, p: string, q: string, env: string, kind: string) {
    && p in view && q in view && StandsInChain(view[p], env, kind) && StandsInChain(view[q], env, kind)
    && StoredLater(view[p], view[q])
    && forall x :: x in view && StandsInChain(view[x], env, kind) && StoredLater(view[p], view[x]) ==>
                     !StoredLater(view[x], view[q])
  }

  /** The tombstone names the immediate successor, and the end of the fourteen days behind it. */
  ghost predicate Explained(t: Document, doc: Document, view: map<string, Evidence>, p: string, env: string,
                            kind: string, now: int) {
    exists q :: FollowsIn(view, p, q, env, kind)
                && view[q].storedAt.value + 14 * 24 * 3600 * 1000000 <= now
                && Tombstones(t, doc, Some(view[q].backupId),
                              Some(view[q].storedAt.value + 14 * 24 * 3600 * 1000000), now)
  }

  ghost predicate AllExplained(files0: map<string, Document>, files: map<string, Document>, env: string, kind: string,
                               now: int) {
    forall p :: p in files0 && p in files && files[p] != files0[p] ==>
                  Explained(files[p], files0[p], ViewOf(files0, env), p, env, kind, now)
  }

  lemma NothingToExplain(files: map<string, Document>, env: string, kind: string, now: int)
    ensures AllExplained(files, files, env, kind, now)
  {
  }

  /** What a planned entry says of its candidate is what the documents say. */
  lemma EntryExplains(l: Loaded, paths: seq<string>, files: map<string, Document>, env: string, kind: string, now: int,
                      e: Entry, at: string, t: Document, doc: Document)
    requires Lists(l, paths, files, env) && Complete(paths, files, env)
    requires EntryAsLaw(e, Data(l.records), now) && e.environment == env && e.backupType == kind
    requires at in ViewOf(files, env) && ViewOf(files, env)[at].backupId == e.backupId
    requires Tombstones(t, doc, e.successorBackupId, e.retentionExpiresAt, now)
    ensures Explained(t, doc, ViewOf(files, env), at, env, kind, now)
  {
    var view, es := ViewOf(files, env), Data(l.records);
    hide Lists, Complete, ViewOf, Data, Tombstones, UniqueIds, Readable, FollowsIn, EntryNames;
    var i: nat, j: nat :| EntryNames(e, es, now, i, j);
    EntryParts(e, es, now, i, j);
    LoadedLength(l, paths, files, env);
    ListsReadable(l, paths, files, env);
    ListsAt(l, paths, files, env, i);
    ListsAt(l, paths, files, env, j);
    OnlyPath(files, env, at);
    hide IsSuccessor, StandsInChain;
    SuccessorFollows(l, paths, files, env, kind, i, j);
    FollowsParts(view, paths[i], paths[j], env, kind);
  }

  lemma EntryParts(e: Entry, es: seq<Evidence>, now: int, i: nat, j: nat)
    requires EntryNames(e, es, now, i, j)
    ensures i < |es| && j < |es| && es[i].backupId == e.backupId && StandsInChain(es[i], e.environment, e.backupType)
    ensures es[j].storedAt.Some? && IsSuccessor(es[i], es[j], es, e.environment, e.backupType)
    ensures e.successorBackupId == Some(es[j].backupId)
    ensures e.retentionExpiresAt == Some(es[j].storedAt.value + 14 * 24 * 3600 * 1000000)
    ensures es[j].storedAt.value + 14 * 24 * 3600 * 1000000 <= now
  {
    hide StoredLater;
  }

  lemma FollowsParts(view: map<string, Evidence>, p: string, q: string, env: string, kind: string)
    requires FollowsIn(view, p, q, env, kind)
    ensures q in view && view[q].storedAt.Some?
  {
    hide StoredLater;
  }

  lemma SuccessorFollows(l: Loaded, paths: seq<string>, files: map<string, Document>, env: string, kind: string,
                         i: nat, j: nat)
    requires Lists(l, paths, files, env) && Complete(paths, files, env) && i < |paths| && j < |paths|
    requires |l.records| == |paths| && StandsInChain(Data(l.records)[i], env, kind)
    requires IsSuccessor(Data(l.records)[i], Data(l.records)[j], Data(l.records), env, kind)
    ensures FollowsIn(ViewOf(files, env), paths[i], paths[j], env, kind)
  {
    var view, es := ViewOf(files, env), Data(l.records);
    hide Lists, Complete, ViewOf, Data, StandsInChain, StoredLater, UniqueIds, Readable, InDirectory;
    ListsAt(l, paths, files, env, i);
    ListsAt(l, paths, files, env, j);
    StandingIsStored(es[i], env, kind);
    StandingIsStored(es[j], env, kind);
    forall x | x in view && StandsInChain(view[x], env, kind)
      ensures view[x].storedAt.Some?
      ensures StoredLater(view[paths[i]], view[x]) ==> !StoredLater(view[x], view[paths[j]])
    {
      StandingIsStored(view[x], env, kind);
      ViewMember(files, env, x);
      var m := ListsPlace(l, paths, files, env, x);
      ListsAt(l, paths, files, env, m);
      assert es[m] == view[x];
    }
    WhoFollows(view, paths[i], paths[j], env, kind);
  }

  lemma StandingIsStored(e: Evidence, env: string, kind: string)
    requires StandsInChain(e, env, kind)
    ensures e.storedAt.Some?
  {
  }

  lemma WhoFollows(view: map<string, Evidence>, p: string, q: string, env: string, kind: string)
    requires p in view && q in view && StandsInChain(view[p], env, kind) && StandsInChain(view[q], env, kind)
    requires StoredLater(view[p], view[q])
    requires forall x :: x in view && StandsInChain(view[x], env, kind) ==>
               view[x].storedAt.Some? && (StoredLater(view[p], view[x]) ==> !StoredLater(view[x], view[q]))
    ensures FollowsIn(view, p, q, env, kind)
  {
    hide StoredLater;
  }

  /** One more re-evaluation, whatever became of it, leaves every tombstone explained. */
  lemma ExplainedStep(done: set<string>, l: Loaded, paths: seq<string>, files0: map<string, Document>,
                      releases0: set<string>, files: map<string, Document>, releases: set<string>, env: string,
                      kind: string, now: int, e: Entry, at: string, p: string, files1: map<string, Document>,
                      releases1: set<string>)
    requires Lists(l, paths, files0, env) && Complete(paths, files0, env)
    requires Reaped(done, files0, releases0, files, releases, env, kind, now)
    requires AllExplained(files0, files, env, kind, now)
    requires AtMost(p, files, releases, files1, releases1, env, kind, now)
    requires EntryAsLaw(e, Data(l.records), now) && e.environment == env && e.backupType == kind
    requires at in ViewOf(files0, env) && ViewOf(files0, env)[at].backupId == e.backupId
    requires files1 != files ==>
               && p in ViewOf(files, env) && ViewOf(files, env)[p].backupId == e.backupId
               && p in files && p in files1
               && Tombstones(files1[p], files[p], e.successorBackupId, e.retentionExpiresAt, now)
    ensures AllExplained(files0, files1, env, kind, now)
  {
    hide Lists, Complete, Reaped, ViewOf, Tombstones, Explained, Target, Data, EntryAsLaw, IsTombstoneOf;
    if files1 != files {
      ListsReadable(l, paths, files0, env);
      CandidateIsOld(done, files0, releases0, files, releases, env, kind, now, p, at);
      EntryExplains(l, paths, files0, env, kind, now, e, at, files1[at], files0[at]);
      assert files1 == files[p := files1[p]];
    }
  }

  lemma CandidateIsOld(done: set<string>, files0: map<string, Document>, releases0: set<string>,
                       files: map<string, Document>, releases: set<string>, env: string, kind: string, now: int,
                       p: string, at: string)
    requires Readable(files0, env) && Reaped(done, files0, releases0, files, releases, env, kind, now)
    requires p in ViewOf(files, env) && Target(files, p, env, kind, now)
    requires at in ViewOf(files0, env) && ViewOf(files0, env)[at].backupId == ViewOf(files, env)[p].backupId
    ensures p == at && p in files0 && p in files && files[p] == files0[p]
  {
    ReapedTarget(done, files0, releases0, files, releases, env, kind, now, p);
    OnlyPath(files0, env, at);
    ViewMember(files, env, p);
    hide ViewOf, Target, TagsOf, IsTombstoneOf, ReleasedIn, TagOf;
  }

  // ---------------------------------------------------------------- the report

  /** The newest backup of the chain: no other one standing in it was stored later. */
  predicate IsNewestIn(view: map<string, Evidence>, p: string, env: string, kind: string) {
    && p in view && StandsInChain(view[p], env, kind)
    && forall q :: q in view && StandsInChain(view[q], env, kind) ==> !StoredLater(view[p], view[q])
  }

  /** The report lists what the law lets go, each id once, and names the newest backup of the chain. */
  ghost predicate ReportsPlan(r: Report, files: map<string, Document>, env: string, kind: string, now: int) {
    var view := ViewOf(files, env);
    && Distinct(r.eligible)
    && (forall id :: id in r.eligible <==>
          exists p :: p in view && view[p].backupId == id && ReleasedIn(view, p, env, kind, now))
    && match r.protectedId
       case None => forall p :: p in view ==> !StandsInChain(view[p], env, kind)
       case Some(id) => exists p :: IsNewestIn(view, p, env, kind) && view[p].backupId == id
  }

  /** Of the first `k` eligible ids each has one outcome, filed under it. */
  ghost predicate Accounted(r: Report, k: nat) {
    && |r.deleted| + |r.skipped| + |r.failures| == k <= |r.eligible|
    && (forall id :: id in r.deleted ==> id in r.eligible)
    && (forall s :: s in r.skipped ==> s.0 in r.eligible)
    && (forall f :: f in r.failures ==> f.0 in r.eligible)
  }

  /** Of the first `k` eligible ids each was deleted, or skipped for a release outside its namespace. */
  ghost predicate Finished(r: Report, k: nat) {
    && k <= |r.eligible|
    && (forall s :: s in r.skipped ==> s.1 == ForeignTag)
    && (forall i :: 0 <= i < k ==> r.eligible[i] in r.deleted || (r.eligible[i], ForeignTag) in r.skipped)
  }

  /** What one re-evaluation adds to the report. */
  function Filed(r: Report, id: string, step: Step): Report {
    match step
    case Removed(_, _) => r.(deleted := r.deleted + [id])
    case Skipped(reason) => r.(skipped := r.skipped + [(id, reason)])
    case Failed(failure) => r.(failures := r.failures + [(id, failure)])
  }

  lemma FiledStep(r: Report, k: nat, step: Step)
    requires Accounted(r, k) && k < |r.eligible|
    ensures Accounted(Filed(r, r.eligible[k], step), k + 1)
    ensures Finished(r, k) && (step.Removed? || step == Skipped(ForeignTag)) ==>
              Finished(Filed(r, r.eligible[k], step), k + 1)
  {
    var id := r.eligible[k];
    if Finished(r, k) && (step.Removed? || step == Skipped(ForeignTag)) {
      var next := Filed(r, id, step);
      forall i | 0 <= i < k + 1
        ensures next.eligible[i] in next.deleted || (next.eligible[i], ForeignTag) in next.skipped
      {
        if i == k {
          assert step.Removed? ==> next.deleted[|r.deleted|] == id;
          assert !step.Removed? ==> next.skipped[|r.skipped|] == (id, ForeignTag);
        }
      }
    }
  }

  lemma NothingFiled(r: Report)
    requires r.deleted == [] && r.skipped == [] && r.failures == []
    ensures Accounted(r, 0) && Finished(r, 0)
  {
  }

  lemma EntryOf(entries: seq<Entry>, k: nat, es: seq<Evidence>, env: string, kind: string, now: int)
    requires AsLaw(entries, es, [env], [kind], now) && k < |entries|
    ensures EntryAsLaw(entries[k], es, now) && entries[k].environment == env && entries[k].backupType == kind
  {
    hide EntryAsLaw;
    assert entries[k] in entries;
  }

  lemma GoesOn(step: Step)
    ensures step == Skipped(ForeignTag) ==> !step.Stops()
    ensures step.Skipped? && step.reason.NoLongerEligible? ==> !step.Stops()
  {
  }

  /** A quarantined run skips whatever it would have considered. */
  ghost predicate SkipsAll(r: Report) {
    && r.deleted == [] && r.failures == [] && |r.skipped| == |r.eligible|
    && forall i :: 0 <= i < |r.skipped| ==> r.skipped[i] == (r.eligible[i], BecameAmbiguous)
  }

  lemma PlanIsReported(l: Loaded, paths: seq<string>, files: map<string, Document>, env: string, kind: string,
                       now: int, r: Report)
    requires Lists(l, paths, files, env) && Complete(paths, files, env) && NoAliases(l.records)
    requires r.eligible == ReleasedAll(Data(l.records), [env], [kind], now)
    requires var head := NewestProtected(l.records, env, kind);
             r.protectedId == if head.Some? then Some(head.value.data.backupId) else None
    ensures ReportsPlan(r, files, env, kind, now)
  {
    hide Lists, Complete, ViewOf, ReleasedAll, Data, ReleasedIn, NewestProtected, NoAliases, IsNewestIn, StandsInChain;
    PlanIsDistinct(l, paths, files, env, kind, now);
    EligibleReported(l, paths, files, env, kind, now, r.eligible);
    ProtectedReported(l, paths, files, env, kind);
  }

  lemma SameReport(a: Report, b: Report, files: map<string, Document>, env: string, kind: string, now: int)
    requires ReportsPlan(a, files, env, kind, now) && a.eligible == b.eligible && a.protectedId == b.protectedId
    ensures ReportsPlan(b, files, env, kind, now)
  {
    hide ViewOf, ReleasedIn, IsNewestIn, StandsInChain, Distinct;
  }

  lemma EligibleReported(l: Loaded, paths: seq<string>, files: map<string, Document>, env: string, kind: string,
                         now: int, ids: seq<string>)
    requires Lists(l, paths, files, env) && Complete(paths, files, env)
    requires ids == ReleasedAll(Data(l.records), [env], [kind], now)
    ensures forall id :: id in ids <==>
              exists p :: p in ViewOf(files, env) && ViewOf(files, env)[p].backupId == id
                          && ReleasedIn(ViewOf(files, env), p, env, kind, now)
  {
    hide Lists, Complete, ViewOf, ReleasedAll, Data, ReleasedIn;
    var view := ViewOf(files, env);
    forall id | id in ids
      ensures exists p :: p in view && view[p].backupId == id && ReleasedIn(view, p, env, kind, now)
    {
      var p := PlannedIsReleased(l, paths, files, env, kind, now, id);
      ReleasedMember(view, p, env, kind, now);
    }
    forall p | p in view && ReleasedIn(view, p, env, kind, now)
      ensures view[p].backupId in ids
    {
      ReleasedIsPlanned(l, paths, files, env, kind, now, p);
    }
  }

  lemma ProtectedReported(l: Loaded, paths: seq<string>, files: map<string, Document>, env: string, kind: string)
    requires Lists(l, paths, files, env) && Complete(paths, files, env) && NoAliases(l.records)
    ensures var view, head := ViewOf(files, env), NewestProtected(l.records, env, kind);
            match head
            case None => forall p :: p in view ==> !StandsInChain(view[p], env, kind)
            case Some(h) => exists p :: IsNewestIn(view, p, env, kind) && view[p].backupId == h.data.backupId
  {
    var view, head := ViewOf(files, env), NewestProtected(l.records, env, kind);
    hide Lists, Complete, ViewOf, NewestProtected, StandsInChain, StoredLater, NoAliases, InDirectory;
    HeadOnFields(l.records, env, kind);
    forall p | p in view
      ensures exists r :: r in l.records && r.data == view[p]
    {
      ViewMember(files, env, p);
      var m := ListsPlace(l, paths, files, env, p);
      ListsAt(l, paths, files, env, m);
      assert l.records[m] in l.records;
    }
    if head.Some? {
      var i :| 0 <= i < |l.records| && l.records[i] == head.value;
      LoadedLength(l, paths, files, env);
      ListsAt(l, paths, files, env, i);
      assert IsNewestIn(view, paths[i], env, kind);
    }
  }

  lemma LoadedLength(l: Loaded, paths: seq<string>, files: map<string, Document>, env: string)
    requires Lists(l, paths, files, env)
    ensures |l.records| == |paths|
  {
    hide RecordFromMetadata;
  }

  /** What every planned run may do to the store, and what it does when nothing disturbs it. */
  method Execute(store: BackupStore, env: string, kind: string, now: int, l: Loaded, ghost paths: seq<string>,
                 entries: seq<Entry>, before: Report)
    returns (report: Report)
    requires IsType(kind) && Lists(l, paths, store.files, env) && Complete(paths, store.files, env)
    requires Readable(store.files, env) && UniqueIds(Data(l.records))
    requires EntryIds(entries) == before.eligible == ReleasedAll(Data(l.records), [env], [kind], now)
    requires Distinct(before.eligible) && AsLaw(entries, Data(l.records), [env], [kind], now)
    requires Accounted(before, 0) && Finished(before, 0) && before.failures == [] && before.deleted == []
    modifies store
    ensures report.eligible == before.eligible && report.protectedId == before.protectedId
    ensures report.quarantined == before.quarantined && exists k :: Accounted(report, k)
    ensures OnlyTargets(old(store.files), old(store.releases), store.files, store.releases, env, kind, now)
    ensures AllExplained(old(store.files), store.files, env, kind, now)
    ensures Undisturbed(old(store.faults), old(store.files), env, kind, now) ==>
              && AllTargets(old(store.files), old(store.releases), store.files, store.releases, env, kind, now)
              && report.failures == [] && Finished(report, |report.eligible|)
              && var view := ViewOf(old(store.files), env);
              && (forall p :: p in view && Target(old(store.files), p, env, kind, now) ==>
                    view[p].backupId in report.deleted)
              && (forall id :: id in report.deleted ==>
                    exists p :: p in view && Target(old(store.files), p, env, kind, now) && view[p].backupId == id)
  {
    hide *;
    ghost var files0, releases0 := store.files, store.releases;
    ghost var view0 := ViewOf(files0, env);
    var eligible := before.eligible;
    report := before;
    NothingIsOnlyTargets(files0, releases0, env, kind, now);
    NothingToExplain(files0, env, kind, now);
    UndisturbedParts(store.faults, files0, env, kind, now);
    ghost var done: set<string> := {};
    ghost var calm := Undisturbed(old(store.faults), files0, env, kind, now);
    ReapedNone(files0, releases0, env, kind, now);
    ProgressNone(eligible, view0, files0, env, kind, now);
    var k := 0;
    var stopped := false;
    while k < |entries| && !stopped
      invariant k <= |entries| == |eligible|
      invariant !stopped ==> Reaped(done, files0, releases0, store.files, store.releases, env, kind, now)
      invariant OnlyTargets(files0, releases0, store.files, store.releases, env, kind, now)
      invariant AllExplained(files0, store.files, env, kind, now)
      invariant report.eligible == eligible && report.protectedId == before.protectedId && Accounted(report, k)
      invariant calm ==> Finished(report, k)
      invariant calm ==>
          !stopped && store.faults == [] && report.failures == []
          && CaughtUp(done, eligible, k, view0, files0, env, kind, now)
      invariant calm ==> Progress(done, eligible, k, view0, files0, env, kind, now, report.deleted)
      invariant report.quarantined == before.quarantined
      decreases |entries| - k, !stopped
    {
      var entry := entries[k];
      assert eligible[k] == entry.backupId && eligible[k] in eligible;
      ghost var at := PlannedIsReleased(l, paths, files0, env, kind, now, entry.backupId);
      ReleasedMember(view0, at, env, kind, now);
      FoundInView(l, paths, files0, env, at);
      var planned := FindById(entry.backupId, l.records);
      if planned.None? {
        report := report.(failures := report.failures + [(entry.backupId, RereadFailed)]);
        break;
      }
      OnlyPath(files0, env, at);
      if calm {
        StillCandidate(done, files0, releases0, store.files, store.releases, env, kind, now, at, eligible, k,
          report.deleted, planned.value.data);
      }
      ghost var files1, releases1 := store.files, store.releases;
      var step: Step;
      ghost var p;
      step, p := ReapOne(store, env, kind, now, entry, planned.value.data);
      StoppedOnlyTargets(done, files0, releases0, files1, releases1, env, kind, now, p, store.files, store.releases);
      EntryOf(entries, k, Data(l.records), env, kind, now);
      ExplainedStep(done, l, paths, files0, releases0, files1, releases1, env, kind, now, entry, at, p, store.files,
        store.releases);
      GoesOn(step);
      FiledStep(report, k, step);
      FiledIs(report, entry.backupId, step);
      match step {
        case Removed(tag, outcome) =>
          ReapedStep(done, files0, releases0, files1, releases1, env, kind, now, p, tag, store.files, store.releases);
          if calm {
            ProgressStep(done, eligible, k, view0, files0, env, kind, now, report.deleted, p);
            CaughtUpStep(done, eligible, k, view0, files0, env, kind, now, p);
          }
          done := done + {p};
          report := report.(deleted := report.deleted + [entry.backupId]);
        case Skipped(reason) =>
          if calm {
            ProgressStep(done, eligible, k, view0, files0, env, kind, now, report.deleted, at);
            CaughtUpStep(done, eligible, k, view0, files0, env, kind, now, at);
          }
          report := report.(skipped := report.skipped + [(entry.backupId, reason)]);
          stopped := step.Stops();
        case Failed(failure) =>
          report := report.(failures := report.failures + [(entry.backupId, failure)]);
          stopped := true;
      }
      k := k + 1;
    }
    if calm {
      CaughtUpAll(done, l, paths, eligible, view0, files0, releases0, store.files, store.releases, env, kind, now,
        report.deleted);
    }
  }

  method Reap(store: BackupStore, env: string, kind: string, applyDeletions: bool, now: int)
    returns (r: Result<Report, ReaperError>)
    modifies store
    ensures r == Failure(InvalidEnvironment) <==> !IsEnvironment(env)
    ensures r == Failure(InvalidType) <==> IsEnvironment(env) && !IsType(kind)
    ensures old(store.faults) == [] && IsEnvironment(env) && IsType(kind) ==>
              r.Success? && (r.value.quarantined <==> !Readable(old(store.files), env))
    ensures OnlyTargets(old(store.files), old(store.releases), store.files, store.releases, env, kind, now)
    ensures AllExplained(old(store.files), store.files, env, kind, now)
    ensures !applyDeletions || !Readable(old(store.files), env) ==>
              store.files == old(store.files) && store.releases == old(store.releases)
    ensures r.Success? && r.value.quarantined ==>
              SkipsAll(r.value) && store.files == old(store.files) && store.releases == old(store.releases)
    ensures r.Success? && !r.value.quarantined ==>
              && ReportsPlan(r.value, old(store.files), env, kind, now)
              && exists k :: Accounted(r.value, k) && (!applyDeletions ==> k == 0)
    ensures applyDeletions && IsEnvironment(env) && IsType(kind)
            && Undisturbed(old(store.faults), old(store.files), env, kind, now) ==>
              && AllTargets(old(store.files), old(store.releases), store.files, store.releases, env, kind, now)
              && r.Success? && r.value.failures == [] && !r.value.quarantined
              && Finished(r.value, |r.value.eligible|)
              && var view := ViewOf(old(store.files), env);
              && (forall p :: p in view && Target(old(store.files), p, env, kind, now) ==>
                view[p].backupId in r.value.deleted)
              && (forall id :: id in r.value.deleted ==>
                    exists p :: p in view && Target(old(store.files), p, env, kind, now) && view[p].backupId == id)
  {
    hide *;
    ghost var files0, releases0 := store.files, store.releases;
    ghost var view0 := ViewOf(files0, env);
    NothingIsOnlyTargets(files0, releases0, env, kind, now);
    NothingToExplain(files0, env, kind, now);
    if !IsEnvironment(env) {
      return Failure(InvalidEnvironment);
    }
    if !IsType(kind) {
      return Failure(InvalidType);
    }
    UndisturbedParts(store.faults, files0, env, kind, now);
    var loaded: Result<Loaded, TransportError>;
    ghost var paths;
    loaded, paths := LoadChainState(store, env);
    if loaded.Failure? {
      return Failure(ListingFailed);
    }
    var l := loaded.value;
    var plan := PlanDeletions(l.records, now, [env], [kind]);
    var head := NewestProtected(l.records, env, kind);
    var eligible := EntryIds(plan.delete);
    var report := Report(eligible, if head.Some? then Some(head.value.data.backupId) else None,
                         l.quarantine != [], [], [], []);
    if l.quarantine != [] {
      report := report.(skipped := seq(|eligible|, i requires 0 <= i < |eligible| => (eligible[i], BecameAmbiguous)));
      AllSkipped(report);
      return Success(report);
    }
    CompleteListing(paths, files0, env);
    PlanIsDistinct(l, paths, files0, env, kind, now);
    ListsView(l, paths, files0, env);
    PlanIsReported(l, paths, files0, env, kind, now, report);
    NothingFiled(report);
    ghost var planned0 := report;
    if !applyDeletions || plan.delete == [] {
      NothingPlanned(l, paths, files0, releases0, env, kind, now, eligible);
      return Success(report);
    }
    report := Execute(store, env, kind, now, l, paths, plan.delete, report);
    SameReport(planned0, report, files0, env, kind, now);
    r := Success(report);
  }

  lemma FiledIs(r: Report, id: string, step: Step)
    ensures Filed(r, id, step)
         == match step
            case Removed(_, _) => r.(deleted := r.deleted + [id])
            case Skipped(reason) => r.(skipped := r.skipped + [(id, reason)])
            case Failed(failure) => r.(failures := r.failures + [(id, failure)])
  {
  }

  lemma AllSkipped(r: Report)
    requires r.deleted == [] && r.failures == []
    requires r.skipped
          == seq(|r.eligible|, i requires 0 <= i < |r.eligible| => (r.eligible[i], BecameAmbiguous))
    ensures SkipsAll(r)
  {
  }
}
