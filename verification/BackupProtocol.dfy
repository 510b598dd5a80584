/**
 Uploads and reapers interleaved over one shared store: views are read one document at a
 time and may be stale, any call may fail before or after its effect, and any process may stop
 between two steps.

 The machine lets a reaper try any candidate at any time. The plan, the fingerprint comparison
 and the dry-run switch of a real run only refuse more.
 */
module BackupProtocol {
  import opened Wrappers
  import opened Retention
  import opened BackupMetadata
  import Text

  // ---------------------------------------------------------------- uploads

  const PRIVATE_BACKUP_REPO := "veloratrade/velora-backups"

  /** `(value or "database").strip()`, where anything but text or nothing is refused. */
  function UploadType(value: Json): Option<string> {
    match value
    case Null => Some(DATABASE)
    case Str(text) => Some(if text == "" then DATABASE else Text.Strip(text))
    case _ => None
  }

  /**
   The metadata an upload commits once the stored bytes were read back and matched, or `None`
   when it refuses: wrong chain, unverified evidence, an id outside its namespace.
   */
  function StoredDocument(evidence: Document, stamp: int): Option<(string, string, Document)> {
    if evidence.NotAnObject? || !evidence.backupId.Str? || !evidence.environment.Str? then None
    else
      var env := Text.Strip(evidence.environment.text);
      var kind := UploadType(evidence.backupType).GetOr("");
      var id := Text.Strip(evidence.backupId.text);
      if !IsEnvironment(env) || !IsType(kind) || evidence.verificationStatus != Str("INTEGRITY_VERIFIED")
         || !Text.StartsWith(id, TagPrefix(env, kind)) || evidence.secretMarker
      then None
      else
        Some((env, id, evidence.(storageStatus := Str("STORAGE_VERIFIED"), storedAt := At(stamp),
                                 releaseTag := Str(id), backupRepo := Str(PRIVATE_BACKUP_REPO))))
  }

  /** What an upload commits reads back as a chain-advancing record whose release carries its own id. */
  lemma StoredReadsBack(evidence: Document, stamp: int)
    requires StoredDocument(evidence, stamp).Some?
    ensures var (env, id, doc) := StoredDocument(evidence, stamp).value;
            var read := RecordFromMetadata(doc, env, MetadataPath(env, id));
            && read.Success?
            && read.value.CanAdvance() && read.value.storedAt == Some(stamp)
            && read.value.environment == env
            && read.value.backupId == id && TagOf(read.value) == id
  {
    var (env, id, doc) := StoredDocument(evidence, stamp).value;
    var kind := UploadType(evidence.backupType).GetOr("");
    assert kind == Clean(evidence.backupType).GetOr(DATABASE);
    NonEmptyPrefix(id, env, kind);
    Text.StripIdempotent(evidence.backupId.text);
    KnownTexts(env);
    OwnPath(env, id);
    hide Text.Strip, TagPrefix, Text.StartsWith, Text.EndsWith, MetadataPath;
  }

  lemma NonEmptyPrefix(id: string, env: string, kind: string)
    requires IsType(kind) && Text.StartsWith(id, TagPrefix(env, kind))
    ensures id != ""
  {
  }

  lemma OwnPath(env: string, id: string)
    ensures Text.EndsWith(MetadataPath(env, id), "/" + id + ".json")
  {
    var path := MetadataPath(env, id);
    assert path == "backups/" + env + ("/" + id + ".json");
    assert path[|path| - |"/" + id + ".json"|..] == "/" + id + ".json";
  }

  lemma KnownTexts(env: string)
    ensures Clean(Str("STORAGE_VERIFIED")) == Some("STORAGE_VERIFIED")
    ensures Clean(Str("INTEGRITY_VERIFIED")) == Some("INTEGRITY_VERIFIED")
    ensures IsEnvironment(env) ==> env != ""
  {
    hide Text.Strip;
    Text.StripKeeps("STORAGE_VERIFIED");
    Text.StripKeeps("INTEGRITY_VERIFIED");
  }

  // ---------------------------------------------------------------- states

  /** One document as some load read it. */
  datatype ViewEntry = ViewEntry(path: string, doc: Document, rec: Evidence)

  datatype Pc =
    | Reading(candidate: string, todo: seq<string>, view: seq<ViewEntry>)
    | Deleting(target: ViewEntry)
    | Tombstoning(target: ViewEntry)
    | Stopped

  datatype Process = Process(env: string, kind: string, now: int, pc: Pc)

  /** An upload whose release exists and whose metadata is not committed yet. */
  datatype Upload = Upload(path: string, doc: Document, rec: Evidence)

  /**
   `stored` remembers every chain-advancing record ever committed, by path; `ids` every backup
   id ever used; `latest` the largest clock any reaper judged by.
   */
  datatype State = State(
    docs: map<string, Document>, releases: set<string>, uploads: map<nat, Upload>, reapers: map<nat, Process>,
    stored: map<string, Evidence>, ids: set<string>, latest: int)

  datatype Step =
    | StartUpload(u: nat, evidence: Document, stamp: int)
    | CommitUpload(u: nat)
    | AbandonUpload(u: nat)
    | StartReading(r: nat, p: Process)
    | ReadOne(r: nat)
    | Judge(r: nat, at: nat)
    | DeleteRelease(r: nat, acknowledged: bool)
    | PutTombstone(r: nat, tombstone: Document)
    | Stop(r: nat)

  function Evidences(view: seq<ViewEntry>): (es: seq<Evidence>)
    ensures |es| == |view|
    ensures forall i :: 0 <= i < |view| ==> es[i] == view[i].rec
  {
    seq(|view|, i requires 0 <= i < |view| => view[i].rec)
  }

  function Moved(s: State, r: nat, pc: Pc): State
    requires r in s.reapers
  {
    s.(reapers := s.reapers[r := s.reapers[r].(pc := pc)])
  }

  predicate FreshUpload(s: State, path: string, id: string) {
    && id !in s.ids && id !in s.releases && path !in s.docs && path !in s.stored
    && forall u :: u in s.uploads ==> s.uploads[u].path != path
  }

  ghost predicate StartsUpload(s: State, t: State, u: nat, evidence: Document, stamp: int) {
    var payload := StoredDocument(evidence, stamp);
    && u !in s.uploads && payload.Some?
    && var (env, id, doc) := payload.value;
    var path := MetadataPath(env, id);
    && FreshUpload(s, path, id)
    && RecordFromMetadata(doc, env, path).Success?
    && t == s.(releases := s.releases + {id}, ids := s.ids + {id},
               uploads := s.uploads[u := Upload(path, doc, RecordFromMetadata(doc, env, path).value)])
  }

  ghost predicate CommitsUpload(s: State, t: State, u: nat) {
    && u in s.uploads
    && var up := s.uploads[u];
    t == s.(docs := s.docs[up.path := up.doc], stored := s.stored[up.path := up.rec], uploads := s.uploads - {u})
  }

  ghost predicate StartsReading(s: State, t: State, r: nat, p: Process) {
    && r !in s.reapers && p.pc.Reading? && p.pc.view == [] && (forall path :: path in p.pc.todo ==> path in s.docs)
    && t == s.(reapers := s.reapers[r := p], latest := if p.now > s.latest then p.now else s.latest)
  }

  /** One document read into the view; an unreadable one or a repeated id ends the attempt. */
  ghost predicate ReadsOne(s: State, t: State, r: nat) {
    && r in s.reapers && s.reapers[r].pc.Reading? && s.reapers[r].pc.todo != []
    && var pc := s.reapers[r].pc;
    var path := pc.todo[0];
    && path in s.docs
    && var read := RecordFromMetadata(s.docs[path], s.reapers[r].env, path);
    t == Moved(s, r,
               if read.Failure?
                 || (exists i :: 0 <= i < |pc.view| && pc.view[i].rec.backupId == read.value.backupId) then Stopped
               else Reading(pc.candidate, pc.todo[1..], pc.view + [ViewEntry(path, s.docs[path], read.value)]))
  }

  ghost predicate Judges(s: State, t: State, r: nat, at: nat) {
    && r in s.reapers && s.reapers[r].pc.Reading? && s.reapers[r].pc.todo == []
    && var p := s.reapers[r];
    && at < |p.pc.view| && p.pc.view[at].rec.backupId == p.pc.candidate
    && Deletable(p.pc.candidate, Evidences(p.pc.view), p.env, p.kind, p.now)
    && InNamespace(TagOf(p.pc.view[at].rec), p.env, p.kind)
    && t == Moved(s, r, Deleting(p.pc.view[at]))
  }

  /** The release goes; the answer may still be an error, which ends the run. */
  ghost predicate DeletesRelease(s: State, t: State, r: nat, acknowledged: bool) {
    && r in s.reapers && s.reapers[r].pc.Deleting?
    && var target := s.reapers[r].pc.target;
    t == Moved(s.(releases := s.releases - {TagOf(target.rec)}), r,
      if acknowledged then Tombstoning(target) else Stopped)
  }

  /** The write goes through only on the document that was read. */
  ghost predicate PutsTombstone(s: State, t: State, r: nat, tombstone: Document) {
    && r in s.reapers && s.reapers[r].pc.Tombstoning?
    && var target := s.reapers[r].pc.target;
    && target.path in s.docs && s.docs[target.path] == target.doc && IsTombstoneOf(tombstone, target.doc)
    && t == Moved(s.(docs := s.docs[target.path := tombstone]), r, Stopped)
  }

  ghost predicate NextStep(s: State, t: State, step: Step) {
    match step
    case StartUpload(u, evidence, stamp) => StartsUpload(s, t, u, evidence, stamp)
    case CommitUpload(u) => CommitsUpload(s, t, u)
    case AbandonUpload(u) => u in s.uploads && t == s.(uploads := s.uploads - {u})
    case StartReading(r, p) => StartsReading(s, t, r, p)
    case ReadOne(r) => ReadsOne(s, t, r)
    case Judge(r, at) => Judges(s, t, r, at)
    case DeleteRelease(r, acknowledged) => DeletesRelease(s, t, r, acknowledged)
    case PutTombstone(r, tombstone) => PutsTombstone(s, t, r, tombstone)
    case Stop(r) => r in s.reapers && t == Moved(s, r, Stopped)
  }

  ghost predicate Next(s: State, t: State) {
    exists step :: NextStep(s, t, step)
  }

  // ---------------------------------------------------------------- what is kept

  predicate SameChain(a: Evidence, b: Evidence) {
    a.environment == b.environment && a.backupType == b.backupType
  }

  /** A later backup of the chain was stored at least fourteen days before some reaper's clock. */
  predicate Superseded(s: State, p: string)
    requires p in s.stored
  {
    exists q :: q in s.stored && SameChain(s.stored[p], s.stored[q]) && Before(s.stored[p], s.stored[q])
                && s.stored[q].storedAt.value + RETENTION <= s.latest
  }

  /** The metadata is there, as it was stored. */
  predicate Live(s: State, p: string)
    requires p in s.stored
  {
    p in s.docs && RecordFromMetadata(s.docs[p], s.stored[p].environment, p) == Success(s.stored[p])
  }

  /** The release and the untombstoned metadata are both there. */
  predicate Intact(s: State, p: string)
    requires p in s.stored
  {
    s.stored[p].backupId in s.releases && Live(s, p)
  }

  predicate WellStored(s: State) {
    && (forall p :: p in s.stored ==>
          s.stored[p].CanAdvance() && TagOf(s.stored[p]) == s.stored[p].backupId && s.stored[p].backupId in s.ids)
    && (forall p, q :: p in s.stored && q in s.stored && p != q ==> s.stored[p].backupId != s.stored[q].backupId)
  }

  /** A document (or a copy of one) that can advance a chain is one that was stored. */
  predicate Genuine(s: State, path: string, doc: Document, env: string) {
    var read := RecordFromMetadata(doc, env, path);
    read.Success? && read.value.CanAdvance() ==> path in s.stored && s.stored[path] == read.value
  }

  ghost predicate GenuineDocs(s: State) {
    forall p, env :: p in s.docs ==> Genuine(s, p, s.docs[p], env)
  }

  /** What the upload is about to commit reads back as a record that advances its chain under its own release. */
  predicate Ready(up: Upload) {
    && up.rec.CanAdvance() && TagOf(up.rec) == up.rec.backupId
    && RecordFromMetadata(up.doc, up.rec.environment, up.path) == Success(up.rec)
  }

  predicate Pending(s: State, up: Upload) {
    && Ready(up)
    && up.rec.backupId in s.ids && up.rec.backupId in s.releases
    && up.path !in s.docs && up.path !in s.stored
    && forall p :: p in s.stored ==> s.stored[p].backupId != up.rec.backupId
  }

  predicate PendingUploads(s: State) {
    && (forall u :: u in s.uploads ==> Pending(s, s.uploads[u]))
    && (forall u, v :: u in s.uploads && v in s.uploads && u != v ==>
          s.uploads[u].path != s.uploads[v].path && s.uploads[u].rec.backupId != s.uploads[v].rec.backupId)
  }

  predicate GenuineEntry(s: State, e: ViewEntry, env: string) {
    RecordFromMetadata(e.doc, env, e.path) == Success(e.rec) && Genuine(s, e.path, e.doc, env)
  }

  predicate Condemned(s: State, e: ViewEntry) {
    e.path in s.stored && s.stored[e.path] == e.rec && Superseded(s, e.path)
  }

  predicate SoundReaper(s: State, p: Process) {
    && p.now <= s.latest
    && match p.pc
       case Reading(_, _, view) =>
         && (forall i :: 0 <= i < |view| ==> GenuineEntry(s, view[i], p.env))
         && (forall i, j :: 0 <= i < j < |view| ==> view[i].rec.backupId != view[j].rec.backupId)
       case Deleting(target) => Condemned(s, target)
       case Tombstoning(target) => Condemned(s, target) && target.rec.backupId !in s.releases
       case Stopped => true
  }

  ghost predicate SoundReapers(s: State) {
    forall r :: r in s.reapers ==> SoundReaper(s, s.reapers[r])
  }

  predicate NothingLost(s: State) {
    forall p :: p in s.stored ==> Intact(s, p) || Superseded(s, p)
  }

  /** Metadata that stopped saying what was stored speaks of a release that is gone. */
  predicate Honest(s: State) {
    forall p :: p in s.stored ==> Live(s, p) || s.stored[p].backupId !in s.releases
  }

  ghost predicate Inv(s: State) {
    WellStored(s) && GenuineDocs(s) && PendingUploads(s) && SoundReapers(s) && NothingLost(s) && Honest(s)
  }

  /** Any store with no process running, whose chain-advancing records all have their own release. */
  ghost predicate Init(s: State) {
    && s.uploads == map[] && s.reapers == map[]
    && WellStored(s) && GenuineDocs(s)
    && forall p :: p in s.stored ==> Intact(s, p)
  }

  // ---------------------------------------------------------------- every step keeps it

  /** What is stored and how late it is only grow, and no release comes back. */
  predicate Grows(s: State, t: State) {
    && (forall p :: p in s.stored ==> p in t.stored && t.stored[p] == s.stored[p])
    && (forall p :: p in s.stored && s.stored[p].backupId in t.releases ==> s.stored[p].backupId in s.releases)
    && s.latest <= t.latest
  }

  lemma SupersededGrows(s: State, t: State, p: string)
    requires Grows(s, t) && p in s.stored && Superseded(s, p)
    ensures Superseded(t, p)
  {
    var q :| q in s.stored && SameChain(s.stored[p], s.stored[q]) && Before(s.stored[p], s.stored[q])
             && s.stored[q].storedAt.value + RETENTION <= s.latest;
    assert q in t.stored;
    hide SameChain, Before;
  }

  lemma ReaperGrows(s: State, t: State, p: Process)
    requires Grows(s, t) && SoundReaper(s, p)
    ensures SoundReaper(t, p)
  {
    hide RecordFromMetadata, Superseded;
    match p.pc
    case Deleting(target) => SupersededGrows(s, t, target.path);
    case Tombstoning(target) => SupersededGrows(s, t, target.path);
    case _ =>
  }

  /** The other reapers are untouched by a step that leaves `r` sound. */
  lemma ReapersGrow(s: State, t: State, r: nat)
    requires Grows(s, t) && SoundReapers(s)
    requires forall x :: x in t.reapers && x != r ==> x in s.reapers && t.reapers[x] == s.reapers[x]
    requires r in t.reapers ==> SoundReaper(t, t.reapers[r])
    ensures SoundReapers(t)
  {
    forall x | x in t.reapers
      ensures SoundReaper(t, t.reapers[x])
    {
      if x != r {
        ReaperGrows(s, t, t.reapers[x]);
      }
    }
  }

  /** Records whose document and release a step leaves alone stay as they were. */
  lemma LossGrows(s: State, t: State, gone: set<string>)
    requires Grows(s, t) && NothingLost(s)
    requires forall p :: p in s.stored && p in s.docs && p !in gone ==> p in t.docs && t.docs[p] == s.docs[p]
    requires forall p :: p in s.stored && p !in gone && s.stored[p].backupId in s.releases ==>
        s.stored[p].backupId in t.releases
    requires forall p :: p in gone ==> p in t.stored && Superseded(t, p)
    requires forall p :: p in t.stored && p !in s.stored ==> Intact(t, p)
    ensures NothingLost(t)
  {
    hide RecordFromMetadata, Superseded;
    forall p | p in t.stored
      ensures Intact(t, p) || Superseded(t, p)
    {
      if p in s.stored && p !in gone && Superseded(s, p) {
        SupersededGrows(s, t, p);
      }
    }
  }

  lemma HonestGrows(s: State, t: State, marked: set<string>)
    requires Grows(s, t) && Honest(s)
    requires forall p :: p in s.stored && p in s.docs && p !in marked ==> p in t.docs && t.docs[p] == s.docs[p]
    requires forall p :: p in marked ==> p in t.stored && t.stored[p].backupId !in t.releases
    requires forall p :: p in t.stored && p !in s.stored ==> Live(t, p)
    ensures Honest(t)
  {
    hide RecordFromMetadata;
    forall p | p in t.stored
      ensures Live(t, p) || t.stored[p].backupId !in t.releases
    {
      if p in s.stored && p !in marked {
        assert Live(s, p) || s.stored[p].backupId !in s.releases;
      }
    }
  }

  /** A step that runs no reaper. */
  lemma ReapersStay(s: State, t: State)
    requires Grows(s, t) && SoundReapers(s) && t.reapers == s.reapers
    ensures SoundReapers(t)
  {
    hide SoundReaper;
    forall x | x in t.reapers
      ensures SoundReaper(t, t.reapers[x])
    {
      ReaperGrows(s, t, t.reapers[x]);
    }
  }

  lemma StartUploadReady(s: State, t: State, u: nat, evidence: Document, stamp: int) returns (up: Upload)
    requires StartsUpload(s, t, u, evidence, stamp)
    ensures u !in s.uploads && FreshUpload(s, up.path, up.rec.backupId) && Ready(up)
    ensures t == s.(releases := s.releases + {up.rec.backupId}, ids := s.ids + {up.rec.backupId},
                    uploads := s.uploads[u := up])
  {
    StoredReadsBack(evidence, stamp);
    hide RecordFromMetadata, StoredDocument, MetadataPath, Evidence.CanAdvance, FreshUpload;
    up := t.uploads[u];
  }

  lemma AddUpload(s: State, t: State, u: nat, up: Upload)
    requires WellStored(s) && PendingUploads(s)
    requires u !in s.uploads && FreshUpload(s, up.path, up.rec.backupId) && Ready(up)
    requires t == s.(releases := s.releases + {up.rec.backupId}, ids := s.ids + {up.rec.backupId},
                     uploads := s.uploads[u := up])
    ensures PendingUploads(t) && WellStored(t)
  {
    hide Ready, Evidence.CanAdvance;
    assert Pending(t, up);
    forall v | v in s.uploads
      ensures Pending(t, t.uploads[v]) || v == u
      ensures s.uploads[v].path != up.path && s.uploads[v].rec.backupId != up.rec.backupId
    {
      assert Pending(s, s.uploads[v]);
    }
  }

  /** A fresh release is none that was ever stored. */
  lemma UploadGrows(s: State, t: State, u: nat, up: Upload)
    requires WellStored(s) && FreshUpload(s, up.path, up.rec.backupId)
    requires t == s.(releases := s.releases + {up.rec.backupId}, ids := s.ids + {up.rec.backupId},
                     uploads := s.uploads[u := up])
    ensures Grows(s, t)
  {
    hide Evidence.CanAdvance;
  }

  lemma StartUploadKeeps(s: State, t: State, u: nat, evidence: Document, stamp: int)
    requires Inv(s) && StartsUpload(s, t, u, evidence, stamp)
    ensures Inv(t) && Grows(s, t)
  {
    hide RecordFromMetadata, StartsUpload, SoundReaper, Superseded, WellStored, PendingUploads, FreshUpload;
    var up := StartUploadReady(s, t, u, evidence, stamp);
    AddUpload(s, t, u, up);
    UploadGrows(s, t, u, up);
    ReapersStay(s, t);
    LossGrows(s, t, {});
    HonestGrows(s, t, {});
    GenuineSame(s, t);
  }

  lemma GenuineSame(s: State, t: State)
    requires GenuineDocs(s) && Grows(s, t) && t.docs == s.docs
    ensures GenuineDocs(t)
  {
    hide RecordFromMetadata, Evidence.CanAdvance;
    forall p, env | p in t.docs
      ensures Genuine(t, p, t.docs[p], env)
    {
      assert Genuine(s, p, s.docs[p], env);
    }
  }

  lemma OneEnvironment(doc: Document, a: string, b: string, path: string)
    requires RecordFromMetadata(doc, a, path).Success? && RecordFromMetadata(doc, b, path).Success?
    ensures a == b && RecordFromMetadata(doc, a, path).value.environment == a
  {
    hide Clean, TagPrefix, Text.EndsWith, Text.StartsWith;
  }

  lemma CommitGenuine(s: State, t: State, u: nat)
    requires GenuineDocs(s) && PendingUploads(s) && CommitsUpload(s, t, u)
    ensures GenuineDocs(t)
  {
    hide RecordFromMetadata, Evidence.CanAdvance;
    var up := s.uploads[u];
    assert Pending(s, up);
    forall p, env | p in t.docs
      ensures Genuine(t, p, t.docs[p], env)
    {
      if p == up.path {
        if RecordFromMetadata(up.doc, env, p).Success? {
          OneEnvironment(up.doc, env, up.rec.environment, p);
        }
      } else {
        assert Genuine(s, p, s.docs[p], env);
      }
    }
  }

  lemma CommitPending(s: State, t: State, u: nat)
    requires WellStored(s) && PendingUploads(s) && CommitsUpload(s, t, u)
    ensures WellStored(t) && PendingUploads(t)
  {
    hide Pending, WellStored;
    PendingAt(s, u);
    CommitStored(s, t, u);
    forall v | v in t.uploads
      ensures Pending(t, t.uploads[v])
    {
      PendingAt(s, v);
      PendingPair(s, u, v);
      PendingStays(s, t, u, s.uploads[v]);
    }
  }

  lemma PendingPair(s: State, u: nat, v: nat)
    requires PendingUploads(s) && u in s.uploads && v in s.uploads && u != v
    ensures s.uploads[u].path != s.uploads[v].path && s.uploads[u].rec.backupId != s.uploads[v].rec.backupId
  {
    hide Pending;
  }

  lemma PendingStays(s: State, t: State, u: nat, other: Upload)
    requires CommitsUpload(s, t, u) && Pending(s, other)
    requires s.uploads[u].path != other.path && s.uploads[u].rec.backupId != other.rec.backupId
    ensures Pending(t, other)
  {
    hide Ready;
  }

  lemma CommitStored(s: State, t: State, u: nat)
    requires WellStored(s) && CommitsUpload(s, t, u) && Pending(s, s.uploads[u])
    ensures WellStored(t)
  {
    hide RecordFromMetadata, Evidence.CanAdvance;
  }

  lemma CommitUploadKeeps(s: State, t: State, u: nat)
    requires Inv(s) && CommitsUpload(s, t, u)
    ensures Inv(t) && Grows(s, t)
  {
    hide RecordFromMetadata, Superseded, SoundReaper, Evidence.CanAdvance, GenuineDocs, WellStored, PendingUploads;
    CommitGenuine(s, t, u);
    CommitPending(s, t, u);
    PendingAt(s, u);
    ReapersStay(s, t);
    LossGrows(s, t, {});
    HonestGrows(s, t, {});
  }

  lemma PendingAt(s: State, u: nat)
    requires PendingUploads(s) && u in s.uploads
    ensures Pending(s, s.uploads[u])
  {
  }

  lemma AbandonUploadKeeps(s: State, t: State, u: nat)
    requires Inv(s) && u in s.uploads && t == s.(uploads := s.uploads - {u})
    ensures Inv(t) && Grows(s, t)
  {
    hide RecordFromMetadata, Superseded, SoundReaper, Evidence.CanAdvance;
    ReapersStay(s, t);
    LossGrows(s, t, {});
    HonestGrows(s, t, {});
    GenuineSame(s, t);
  }

  /** A step of one reaper that touches neither documents nor releases. */
  lemma ReaperKeeps(s: State, t: State, r: nat)
    requires Inv(s) && Grows(s, t) && r in t.reapers && SoundReaper(t, t.reapers[r])
    requires t == s.(reapers := s.reapers[r := t.reapers[r]], latest := t.latest)
    ensures Inv(t)
  {
    hide RecordFromMetadata, Superseded, SoundReaper, Evidence.CanAdvance;
    ReapersGrow(s, t, r);
    LossGrows(s, t, {});
    HonestGrows(s, t, {});
    GenuineSame(s, t);
  }

  lemma ReadOneKeeps(s: State, t: State, r: nat)
    requires Inv(s) && ReadsOne(s, t, r)
    ensures Inv(t) && Grows(s, t)
  {
    hide RecordFromMetadata, Superseded, Evidence.CanAdvance, WellStored, PendingUploads, NothingLost;
    var p := s.reapers[r];
    var path := p.pc.todo[0];
    assert Genuine(s, path, s.docs[path], p.env);
    ReaperGrows(s, t, p);
    ReaperKeeps(s, t, r);
  }

  lemma JudgeKeeps(s: State, t: State, r: nat, at: nat)
    requires Inv(s) && Judges(s, t, r, at)
    ensures Inv(t) && Grows(s, t)
  {
    hide RecordFromMetadata, Superseded, Deletable, Evidences, GenuineDocs, WellStored, PendingUploads, NothingLost;
    JudgedIsSuperseded(s, s.reapers[r], at);
    SupersededGrows(s, t, s.reapers[r].pc.view[at].path);
    ReaperKeeps(s, t, r);
  }

  lemma DeleteReleaseKeeps(s: State, t: State, r: nat, acknowledged: bool)
    requires Inv(s) && DeletesRelease(s, t, r, acknowledged)
    ensures Inv(t) && Grows(s, t)
  {
    hide RecordFromMetadata, Superseded, Evidence.CanAdvance, GenuineDocs, PendingUploads;
    var target := s.reapers[r].pc.target;
    ReaperGrows(s, t, s.reapers[r]);
    ReapersGrow(s, t, r);
    SupersededGrows(s, t, target.path);
    LossGrows(s, t, {target.path});
    HonestGrows(s, t, {});
    GenuineSame(s, t);
    DeletePending(s, t, r, acknowledged, target.path);
  }

  lemma DeletePending(s: State, t: State, r: nat, acknowledged: bool, p: string)
    requires PendingUploads(s) && DeletesRelease(s, t, r, acknowledged)
    requires p in s.stored && TagOf(s.reapers[r].pc.target.rec) == s.stored[p].backupId
    ensures PendingUploads(t)
  {
    hide Ready;
    forall u | u in t.uploads
      ensures Pending(t, t.uploads[u])
    {
      PendingAt(s, u);
    }
  }

  lemma TombstoneGenuine(s: State, t: State, r: nat, tombstone: Document)
    requires GenuineDocs(s) && PutsTombstone(s, t, r, tombstone)
    ensures GenuineDocs(t)
  {
    hide RecordFromMetadata, Evidence.CanAdvance, IsTombstoneOf;
    var target := s.reapers[r].pc.target;
    forall p, env | p in t.docs
      ensures Genuine(t, p, t.docs[p], env)
    {
      if p == target.path {
        TombstoneReadsBack(target.doc, tombstone, env, p);
      } else {
        assert Genuine(s, p, s.docs[p], env);
      }
    }
  }

  lemma TombstonePending(s: State, t: State, r: nat, tombstone: Document)
    requires PendingUploads(s) && PutsTombstone(s, t, r, tombstone)
    ensures PendingUploads(t)
  {
    hide Ready, IsTombstoneOf;
    forall u | u in t.uploads
      ensures Pending(t, t.uploads[u])
    {
      PendingAt(s, u);
    }
  }

  lemma PutTombstoneKeeps(s: State, t: State, r: nat, tombstone: Document)
    requires Inv(s) && PutsTombstone(s, t, r, tombstone)
    ensures Inv(t) && Grows(s, t)
  {
    hide RecordFromMetadata, Superseded, Evidence.CanAdvance, IsTombstoneOf, GenuineDocs, PendingUploads;
    var target := s.reapers[r].pc.target;
    TombstoneGenuine(s, t, r, tombstone);
    TombstonePending(s, t, r, tombstone);
    ReaperGrows(s, t, s.reapers[r]);
    ReapersGrow(s, t, r);
    SupersededGrows(s, t, target.path);
    LossGrows(s, t, {target.path});
    HonestGrows(s, t, {target.path});
  }

  lemma StopKeeps(s: State, t: State, r: nat)
    requires Inv(s) && r in s.reapers && t == Moved(s, r, Stopped)
    ensures Inv(t) && Grows(s, t)
  {
    hide RecordFromMetadata, Superseded, Evidence.CanAdvance;
    ReaperKeeps(s, t, r);
  }

  lemma StartReadingKeeps(s: State, t: State, r: nat, p: Process)
    requires Inv(s) && StartsReading(s, t, r, p)
    ensures Inv(t) && Grows(s, t)
  {
    hide RecordFromMetadata, Superseded, Evidence.CanAdvance;
    ReaperKeeps(s, t, r);
  }

  /** A favourable verdict on a view, however stale, names a backup that a stored one expired. */
  lemma JudgedIsSuperseded(s: State, p: Process, at: nat)
    requires SoundReaper(s, p) && p.pc.Reading? && at < |p.pc.view|
    requires p.pc.view[at].rec.backupId == p.pc.candidate
    requires forall i :: 0 <= i < |p.pc.view| && i != at ==> p.pc.view[i].rec.backupId != p.pc.candidate
    requires Deletable(p.pc.candidate, Evidences(p.pc.view), p.env, p.kind, p.now)
    ensures Condemned(s, p.pc.view[at])
  {
    hide RecordFromMetadata, Before;
    var view := p.pc.view;
    var es := Evidences(view);
    var i :| 0 <= i < |es| && MatchesAt(p.pc.candidate, es, p.env, p.kind, i)
      && Expired(es[i], es, p.env, p.kind, p.now);
    var j :| 0 <= j < |es| && Expires(es[i], es[j], p.env, p.kind, p.now);
    assert i == at;
    assert GenuineEntry(s, view[i], p.env) && GenuineEntry(s, view[j], p.env);
    assert s.stored[view[j].path] == es[j] && s.stored[view[i].path] == es[i];
  }

  lemma StepKeeps(s: State, t: State, step: Step)
    requires Inv(s) && NextStep(s, t, step)
    ensures Inv(t) && Grows(s, t)
  {
    hide Inv, Grows, StartsUpload, CommitsUpload, StartsReading, ReadsOne, Judges, DeletesRelease, PutsTombstone;
    match step
    case StartUpload(u, evidence, stamp) => StartUploadKeeps(s, t, u, evidence, stamp);
    case CommitUpload(u) => CommitUploadKeeps(s, t, u);
    case AbandonUpload(u) => AbandonUploadKeeps(s, t, u);
    case StartReading(r, p) => StartReadingKeeps(s, t, r, p);
    case ReadOne(r) => ReadOneKeeps(s, t, r);
    case Judge(r, at) => JudgeKeeps(s, t, r, at);
    case DeleteRelease(r, acknowledged) => DeleteReleaseKeeps(s, t, r, acknowledged);
    case PutTombstone(r, tombstone) => PutTombstoneKeeps(s, t, r, tombstone);
    case Stop(r) => StopKeeps(s, t, r);
  }

  // ---------------------------------------------------------------- whole runs

  ghost predicate IsPath(run: seq<State>) {
    run != [] && forall i :: 0 < i < |run| ==> Next(run[i - 1], run[i])
  }

  ghost predicate IsRun(run: seq<State>) {
    IsPath(run) && Init(run[0])
  }

  lemma InitKeeps(s: State)
    requires Init(s)
    ensures Inv(s)
  {
    hide RecordFromMetadata, Superseded, Evidence.CanAdvance;
  }

  lemma {:induction false} PathKeeps(run: seq<State>, i: nat)
    requires IsPath(run) && Inv(run[0]) && i < |run|
    ensures Inv(run[i])
    ensures forall j, p :: 0 <= j <= i && p in run[j].stored ==>
        p in run[i].stored && run[i].stored[p] == run[j].stored[p]
  {
    hide Inv, NextStep;
    if i > 0 {
      PathKeeps(run, i - 1);
      assert Next(run[i - 1], run[i]);
      var step :| NextStep(run[i - 1], run[i], step);
      StepKeeps(run[i - 1], run[i], step);
    }
  }

  lemma RunKeeps(run: seq<State>, i: nat)
    requires IsRun(run) && i < |run|
    ensures Inv(run[i])
    ensures forall j, p :: 0 <= j <= i && p in run[j].stored ==>
        p in run[i].stored && run[i].stored[p] == run[j].stored[p]
  {
    hide Inv, Init, Next;
    InitKeeps(run[0]);
    PathKeeps(run, i);
  }

  /**
   Whatever is missing was expired: a backup ever stored either still has its release and its
   untombstoned metadata, or a later backup of its chain was stored fourteen days before the
   clock of some reaper.
   */
  lemma NothingUnexpiredIsLost(run: seq<State>, j: nat, i: nat, p: string)
    requires IsRun(run) && j <= i < |run| && p in run[j].stored
    ensures p in run[i].stored && run[i].stored[p] == run[j].stored[p]
    ensures Intact(run[i], p) || Superseded(run[i], p)
  {
    hide IsRun, Intact, Superseded;
    RunKeeps(run, i);
    assert NothingLost(run[i]);
  }

  /** Metadata that was tombstoned never speaks of a release that is still there. */
  lemma TombstonesAreHonest(run: seq<State>, i: nat, p: string)
    requires IsRun(run) && i < |run| && p in run[i].stored
    ensures Live(run[i], p) || run[i].stored[p].backupId !in run[i].releases
  {
    hide IsRun, Live;
    RunKeeps(run, i);
    assert Honest(run[i]);
  }

  /** The newest backup ever stored in a chain keeps its release and its untombstoned metadata. */
  lemma NewestSurvives(run: seq<State>, j: nat, i: nat, p: string)
    requires IsRun(run) && j <= i < |run| && p in run[j].stored
    requires forall q :: q in run[i].stored && SameChain(run[j].stored[p], run[i].stored[q]) ==>
        !Before(run[j].stored[p], run[i].stored[q])
    ensures p in run[i].stored && Intact(run[i], p)
  {
    hide IsRun, Intact, SameChain, Before;
    NothingUnexpiredIsLost(run, j, i, p);
  }
}
