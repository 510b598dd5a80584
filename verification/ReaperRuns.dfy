/**
 The reaper's own code against the protocol: whatever the re-evaluation of one planned backup does
 to the store, a path of the protocol does, so its invariant holds through real runs as well.
 */
module ReaperRuns {
  import opened Wrappers
  import opened Retention
  import opened BackupMetadata
  import opened BackupProtocol
  import R = Reaper

  lemma Extend(run: seq<State>, t: State, step: Step)
    requires IsPath(run) && NextStep(run[|run| - 1], t, step)
    ensures IsPath(run + [t])
  {
    hide NextStep;
    var longer := run + [t];
    forall i | 0 < i < |longer|
      ensures Next(longer[i - 1], longer[i])
    {
      if i < |run| {
        assert Next(run[i - 1], run[i]);
      }
    }
  }

  /** The documents of an environment, in some order. */
  lemma {:induction false} Listing(paths: set<string>) returns (listed: seq<string>)
    ensures forall p :: p in listed <==> p in paths
    ensures R.Distinct(listed)
    decreases |paths|
  {
    listed := [];
    if paths != {} {
      var p :| p in paths;
      var rest := Listing(paths - {p});
      listed := rest + [p];
    }
  }

  ghost predicate Listed(files: map<string, Document>, env: string, paths: seq<string>) {
    && R.Distinct(paths)
    && forall p :: p in paths <==> p in files && R.InDirectory(p, env)
  }

  function EntryAt(files: map<string, Document>, env: string, p: string): ViewEntry
    requires p in files && RecordFromMetadata(files[p], env, p).Success?
  {
    ViewEntry(p, files[p], RecordFromMetadata(files[p], env, p).value)
  }

  /** What was read of `paths[..i]`. */
  ghost predicate Reads(view: seq<ViewEntry>, files: map<string, Document>, env: string, paths: seq<string>, i: nat) {
    && i <= |paths| && |view| == i
    && forall j :: 0 <= j < i ==>
         && paths[j] in files && RecordFromMetadata(files[paths[j]], env, paths[j]).Success?
         && view[j] == EntryAt(files, env, paths[j])
  }

  function Holding(s: State, r: nat, p: Process): State {
    s.(reapers := s.reapers[r := p], latest := if p.now > s.latest then p.now else s.latest)
  }

  /** Reading one more document of a readable environment. */
  lemma ReadNext(s: State, r: nat, p: Process, env: string, paths: seq<string>, i: nat, view: seq<ViewEntry>,
                 candidate: string) returns (e: ViewEntry)
    requires R.Readable(s.docs, env) && Listed(s.docs, env, paths) && i < |paths| && Reads(view, s.docs, env, paths, i)
    requires p.env == env && p.pc == Reading(candidate, paths[i..], view)
    ensures Reads(view + [e], s.docs, env, paths, i + 1)
    ensures NextStep(Holding(s, r, p), Holding(s, r, p.(pc := Reading(candidate, paths[i + 1..], view + [e]))),
        ReadOne(r))
  {
    hide RecordFromMetadata, R.InDirectory;
    var path := paths[i];
    R.ReadableParses(s.docs, env, path);
    e := EntryAt(s.docs, env, path);
    forall j | 0 <= j < i
      ensures view[j].rec.backupId != e.rec.backupId
    {
      R.ReadableParses(s.docs, env, paths[j]);
      R.ReadableDistinct(s.docs, env, paths[j], path);
    }
    assert paths[i..][1..] == paths[i + 1..] && paths[i..][0] == path;
    hide R.Readable, Listed, Reads;
    StepsOn(s, r, p, e, paths[i..], view, candidate);
  }

  lemma StepsOn(s: State, r: nat, p: Process, e: ViewEntry, todo: seq<string>, view: seq<ViewEntry>, candidate: string)
    requires todo != [] && todo[0] in s.docs && p.pc == Reading(candidate, todo, view)
    requires RecordFromMetadata(s.docs[todo[0]], p.env, todo[0]) == Success(e.rec) && e.path == todo[0]
        && e.doc == s.docs[todo[0]]
    requires forall j :: 0 <= j < |view| ==> view[j].rec.backupId != e.rec.backupId
    ensures NextStep(Holding(s, r, p), Holding(s, r, p.(pc := Reading(candidate, todo[1..], view + [e]))), ReadOne(r))
  {
    hide RecordFromMetadata;
    var a, b := Holding(s, r, p), Holding(s, r, p.(pc := Reading(candidate, todo[1..], view + [e])));
    assert b == Moved(a, r, Reading(candidate, todo[1..], view + [e]));
    assert e == ViewEntry(todo[0], s.docs[todo[0]], e.rec);
  }

  /** Reading the first `i` documents. */
  lemma {:induction false} ReadUpTo(s: State, r: nat, env: string, kind: string, now: int, candidate: string,
                                    paths: seq<string>, i: nat)
    returns (run: seq<State>, view: seq<ViewEntry>)
    requires R.Readable(s.docs, env) && Listed(s.docs, env, paths) && i <= |paths| && r !in s.reapers
    ensures IsPath(run) && run[0] == s && Reads(view, s.docs, env, paths, i)
    ensures run[|run| - 1] == Holding(s, r, Process(env, kind, now, Reading(candidate, paths[i..], view)))
  {
    hide R.Readable, NextStep;
    if i == 0 {
      view := [];
      var p := Process(env, kind, now, Reading(candidate, paths[0..], view));
      assert paths[0..] == paths;
      StartsOn(s, r, p);
      Extend([s], Holding(s, r, p), StartReading(r, p));
      run := [s] + [Holding(s, r, p)];
    } else {
      run, view := ReadUpTo(s, r, env, kind, now, candidate, paths, i - 1);
      var p := Process(env, kind, now, Reading(candidate, paths[i - 1..], view));
      var e := ReadNext(s, r, p, env, paths, i - 1, view, candidate);
      view := view + [e];
      var t := Holding(s, r, p.(pc := Reading(candidate, paths[i..], view)));
      Extend(run, t, ReadOne(r));
      run := run + [t];
    }
  }

  lemma StartsOn(s: State, r: nat, p: Process)
    requires r !in s.reapers && p.pc.Reading? && p.pc.view == [] && forall path :: path in p.pc.todo ==> path in s.docs
    ensures NextStep(s, Holding(s, r, p), StartReading(r, p))
  {
  }

  /** The law on the stored documents is the verdict on a complete view. */
  lemma ViewJudges(files: map<string, Document>, env: string, kind: string, now: int, paths: seq<string>,
                   view: seq<ViewEntry>, p: string) returns (at: nat)
    requires R.Target(files, p, env, kind, now) && Listed(files, env, paths) && Reads(view, files, env, paths, |paths|)
    ensures at < |view| && p in files && RecordFromMetadata(files[p], env, p).Success?
        && view[at] == EntryAt(files, env, p)
    ensures p in R.ViewOf(files, env) && view[at].rec == R.ViewOf(files, env)[p]
    ensures Deletable(view[at].rec.backupId, Evidences(view), env, kind, now)
  {
    hide RecordFromMetadata, R.InDirectory, Deletable, Expires, Evidence.Advances, InNamespace;
    var store := R.ViewOf(files, env);
    var es := Evidences(view);
    assert p in paths;
    at :| 0 <= at < |paths| && paths[at] == p;
    var q :| q in store && Expires(store[p], store[q], env, kind, now);
    assert q in paths;
    var j :| 0 <= j < |paths| && paths[j] == q;
    assert Expires(es[at], es[j], env, kind, now);
    forall a, b | 0 <= a < b < |es|
      ensures es[a].backupId != es[b].backupId
    {
      R.ReadableDistinct(files, env, paths[a], paths[b]);
    }
    DeletableAt(es, at, env, kind, now);
  }

  lemma JudgeStep(s: State, r: nat, p: Process, view: seq<ViewEntry>, at: nat)
    requires at < |view| && Deletable(view[at].rec.backupId, Evidences(view), p.env, p.kind, p.now)
    requires InNamespace(TagOf(view[at].rec), p.env, p.kind) && p.pc == Reading(view[at].rec.backupId, [], view)
    ensures NextStep(Holding(s, r, p), Holding(s, r, p.(pc := Deleting(view[at]))), Judge(r, at))
  {
    hide Deletable, InNamespace, Evidences;
    assert Holding(s, r, p.(pc := Deleting(view[at]))) == Moved(Holding(s, r, p), r, Deleting(view[at]));
  }

  lemma DeleteStep(s: State, r: nat, p: Process, target: ViewEntry, acknowledged: bool)
    requires p.pc == Deleting(target)
    ensures var gone := s.(releases := s.releases - {TagOf(target.rec)});
            NextStep(Holding(s, r, p),
              Holding(gone, r, p.(pc := if acknowledged then Tombstoning(target) else Stopped)),
              DeleteRelease(r, acknowledged))
  {
    hide TagOf;
  }

  lemma TombstoneStep(s: State, r: nat, p: Process, target: ViewEntry, tombstone: Document)
    requires p.pc == Tombstoning(target) && target.path in s.docs && s.docs[target.path] == target.doc
    requires IsTombstoneOf(tombstone, target.doc)
    ensures NextStep(Holding(s, r, p), Holding(s.(docs := s.docs[target.path := tombstone]), r, p.(pc := Stopped)),
        PutTombstone(r, tombstone))
  {
    hide IsTombstoneOf;
  }

  /** A path on which the reaper reads every document and judges the one at `p`. */
  lemma JudgedPath(s: State, r: nat, p: string, env: string, kind: string, now: int)
    returns (run: seq<State>, view: seq<ViewEntry>, at: nat)
    requires r !in s.reapers && R.Target(s.docs, p, env, kind, now)
    ensures at < |view| && view[at].path == p && p in s.docs && view[at].doc == s.docs[p]
    ensures p in R.ViewOf(s.docs, env) && view[at].rec == R.ViewOf(s.docs, env)[p]
    ensures Deletable(view[at].rec.backupId, Evidences(view), env, kind, now)
        && InNamespace(TagOf(view[at].rec), env, kind)
    ensures IsPath(run) && run[0] == s
    ensures run[|run| - 1] == Holding(s, r, Process(env, kind, now, Reading(view[at].rec.backupId, [], view)))
  {
    hide NextStep, RecordFromMetadata, Deletable, InNamespace, Evidences, R.ReleasedIn, R.ViewOf, R.Readable, IsPath,
      Reads;
    var paths := Listing(set path | path in s.docs && R.InDirectory(path, env));
    run, view := ReadUpTo(s, r, env, kind, now, TargetId(s.docs, p, env, kind, now), paths, |paths|);
    at := ViewJudges(s.docs, env, kind, now, paths, view, p);
    assert paths[|paths|..] == [];
  }

  /** The same path, on to the release and perhaps the tombstone. */
  lemma RemovedPath(before: seq<State>, s: State, r: nat, env: string, kind: string, now: int, view: seq<ViewEntry>,
                    at: nat, tombstone: Option<Document>)
    returns (run: seq<State>)
    requires at < |view| && Deletable(view[at].rec.backupId, Evidences(view), env, kind, now)
    requires InNamespace(TagOf(view[at].rec), env, kind)
    requires view[at].path in s.docs && s.docs[view[at].path] == view[at].doc
    requires tombstone.Some? ==> IsTombstoneOf(tombstone.value, view[at].doc)
    requires IsPath(before) && before[0] == s
    requires before[|before| - 1] == Holding(s, r, Process(env, kind, now, Reading(view[at].rec.backupId, [], view)))
    ensures IsPath(run) && run[0] == s
    ensures var gone := s.(releases := s.releases - {TagOf(view[at].rec)});
            var left := if tombstone.None? then gone else gone.(docs := s.docs[view[at].path := tombstone.value]);
            run[|run| - 1] == Holding(left, r, Process(env, kind, now, Stopped))
  {
    hide NextStep, Deletable, InNamespace, IsTombstoneOf, Evidences, IsPath;
    PathNonEmpty(before);
    var p := Process(env, kind, now, Reading(view[at].rec.backupId, [], view));
    var gone := s.(releases := s.releases - {TagOf(view[at].rec)});
    JudgeStep(s, r, p, view, at);
    DeleteStep(s, r, p.(pc := Deleting(view[at])), view[at], tombstone.Some?);
    var judged := Holding(s, r, p.(pc := Deleting(view[at])));
    Extend(before, judged, Judge(r, at));
    if tombstone.None? {
      var stopped := Holding(gone, r, p.(pc := Stopped));
      Extend(before + [judged], stopped, DeleteRelease(r, false));
      run := before + [judged] + [stopped];
    } else {
      var deleted := Holding(gone, r, p.(pc := Tombstoning(view[at])));
      Extend(before + [judged], deleted, DeleteRelease(r, true));
      TombstoneStep(gone, r, p.(pc := Tombstoning(view[at])), view[at], tombstone.value);
      var done := Holding(gone.(docs := s.docs[view[at].path := tombstone.value]), r, p.(pc := Stopped));
      Extend(before + [judged] + [deleted], done, PutTombstone(r, tombstone.value));
      run := before + [judged] + [deleted] + [done];
    }
  }

  /**
   What re-evaluating one planned backup did to the store, a path of the protocol from the same store
   does: reading every document, judging, deleting the release, and then leaving the tombstone or not.
   */
  lemma ReapIsAPath(s: State, r: nat, p: string, files: map<string, Document>, releases: set<string>, env: string,
                    kind: string, now: int)
    returns (run: seq<State>)
    requires r !in s.reapers && R.AtMost(p, s.docs, s.releases, files, releases, env, kind, now)
    ensures IsPath(run) && run[0] == s
    ensures var t := run[|run| - 1];
            t.docs == files && t.releases == releases && t.stored == s.stored && t.uploads == s.uploads
              && t.ids == s.ids
  {
    run := [s];
    if files != s.docs || releases != s.releases {
      hide R.Target, R.ViewOf, IsTombstoneOf, Deletable, InNamespace, Evidences, IsPath;
      var view, at;
      run, view, at := JudgedPath(s, r, p, env, kind, now);
      var tombstone := if files == s.docs then None else Some(files[p]);
      run := RemovedPath(run, s, r, env, kind, now, view, at, tombstone);
    }
  }

  function TargetId(files: map<string, Document>, p: string, env: string, kind: string, now: int): string
    requires R.Target(files, p, env, kind, now)
  {
    R.ViewOf(files, env)[p].backupId
  }

  /** So the reaper's code keeps the invariant of the protocol, at any point of any run. */
  lemma ReapKeepsInvariant(s: State, r: nat, p: string, files: map<string, Document>, releases: set<string>,
                           env: string, kind: string, now: int)
    returns (t: State)
    requires Inv(s) && r !in s.reapers && R.AtMost(p, s.docs, s.releases, files, releases, env, kind, now)
    ensures Inv(t) && t.docs == files && t.releases == releases && t.stored == s.stored && t.uploads == s.uploads
  {
    hide Inv, R.AtMost, IsPath;
    var run := ReapIsAPath(s, r, p, files, releases, env, kind, now);
    PathNonEmpty(run);
    PathKeeps(run, |run| - 1);
    t := run[|run| - 1];
  }

  lemma PathNonEmpty(run: seq<State>)
    requires IsPath(run)
    ensures run != []
  {
  }
}
