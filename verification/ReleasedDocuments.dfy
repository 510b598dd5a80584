/** What a run may delete, read off the stored documents: the law on their trimmed texts. */
module ReleasedDocuments {
  import opened Wrappers
  import opened BackupMetadata
  import opened Reaper
  import Retention
  import Text

  /** A text field without its surrounding blanks, or `None` when nothing is left of it. */
  function Trimmed(field: Json): Option<string> {
    if field.Str? && Text.Strip(field.text) != "" then Some(Text.Strip(field.text)) else None
  }

  /** A document of the chain that names an integrity-verified, stored and storage-verified backup. */
  predicate StandsAs(doc: Document, env: string, kind: string) {
    && doc.Document?
    && Trimmed(doc.environment) == Some(env)
    && (Trimmed(doc.backupType) == Some(kind) || (Trimmed(doc.backupType) == None && kind == "database"))
    && doc.storedAt.At?
    && Trimmed(doc.verificationStatus) in {Some("INTEGRITY_VERIFIED"), Some("RESTORE_VERIFIED")}
    && Trimmed(doc.storageStatus) == Some("STORAGE_VERIFIED")
  }

  /** `w` was stored later than `c` (at the same instant, under a later id), fourteen days before `now` or earlier. */
  predicate StoredAfter(c: Document, w: Document, now: int)
    requires c.Document? && c.storedAt.At? && Trimmed(c.backupId).Some?
    requires w.Document? && w.storedAt.At? && Trimmed(w.backupId).Some?
  {
    && (c.storedAt.time < w.storedAt.time
        || (c.storedAt.time == w.storedAt.time && Text.Less(Trimmed(c.backupId).value, Trimmed(w.backupId).value)))
    && w.storedAt.time + 14 * 24 * 3600 * 1000000 <= now
  }

  /** The release a document names, by default its own id, carries the id prefix of the chain. */
  predicate OwnRelease(doc: Document, env: string, kind: string)
    requires doc.Document? && Trimmed(doc.backupId).Some?
  {
    var tag := Trimmed(doc.releaseTag).GetOr(Trimmed(doc.backupId).value);
    var prefix := (if kind == "database" then "db-backup-" else "files-backup-") + env + "-";
    kind in {"database", "persistent_files"} && |prefix| <= |tag| && tag[..|prefix|] == prefix
  }

  /** What loading makes of a document, field by field. */
  lemma ReadFields(doc: Document, env: string, path: string)
    requires RecordFromMetadata(doc, env, path).Success?
    ensures doc.Document? && Trimmed(doc.backupId).Some?
    ensures var e := RecordFromMetadata(doc, env, path).value;
            && e.backupId == Trimmed(doc.backupId).value
            && Some(e.environment) == Trimmed(doc.environment) == Some(env)
            && e.backupType == Trimmed(doc.backupType).GetOr("database")
            && e.sha256 == Trimmed(doc.sha256)
            && e.verificationStatus == Trimmed(doc.verificationStatus).GetOr("UNVERIFIED")
            && e.storageStatus == Trimmed(doc.storageStatus).GetOr("NONE")
            && e.storedAt == (if doc.storedAt.At? then Some(doc.storedAt.time) else None)
            && e.releaseTag == Trimmed(doc.releaseTag) && e.backupRepo == Trimmed(doc.backupRepo)
  {
    hide Text.Strip, Text.EndsWith, Text.StartsWith, TagPrefix;
  }

  /** Which documents load: identity, chain and path agree, and the storage time is no garbage. */
  lemma AcceptedExactly(doc: Document, env: string, path: string)
    ensures RecordFromMetadata(doc, env, path).Success? <==>
              && doc.Document?
              && Trimmed(doc.backupId).Some? && Trimmed(doc.environment) == Some(env)
              && Text.EndsWith(path, "/" + Trimmed(doc.backupId).value + ".json")
              && Trimmed(doc.backupType) in {None, Some("database"), Some("persistent_files")}
              && !doc.storedAt.Malformed?
              && Text.StartsWith(Trimmed(doc.backupId).value,
                                 (if Trimmed(doc.backupType) == Some("persistent_files") then "files-backup-"
                                  else "db-backup-") + env + "-")
  {
    hide Text.Strip, Text.EndsWith, Text.StartsWith, TagPrefix;
    PrefixText(env, "database");
    PrefixText(env, "persistent_files");
  }

  lemma StandsExactly(doc: Document, env: string, path: string, kind: string)
    requires RecordFromMetadata(doc, env, path).Success?
    ensures RecordFromMetadata(doc, env, path).value.Advances(env, kind) <==> StandsAs(doc, env, kind)
  {
    hide RecordFromMetadata, Trimmed;
    ReadFields(doc, env, path);
  }

  lemma ExpiresExactly(c: Document, w: Document, env: string, p: string, q: string, kind: string, now: int)
    requires RecordFromMetadata(c, env, p).Success? && RecordFromMetadata(w, env, q).Success?
    requires StandsAs(c, env, kind)
    ensures Trimmed(c.backupId).Some? && (w.Document? ==> Trimmed(w.backupId).Some?)
    ensures Retention.Expires(RecordFromMetadata(c, env, p).value, RecordFromMetadata(w, env, q).value, env, kind, now)
       <==> StandsAs(w, env, kind) && StoredAfter(c, w, now)
  {
    hide RecordFromMetadata, Trimmed, Text.Less;
    ReadFields(c, env, p);
    ReadFields(w, env, q);
    StandsExactly(w, env, q, kind);
  }

  lemma OwnReleaseExactly(doc: Document, env: string, path: string, kind: string)
    requires RecordFromMetadata(doc, env, path).Success?
    ensures doc.Document? && Trimmed(doc.backupId).Some?
    ensures InNamespace(TagOf(RecordFromMetadata(doc, env, path).value), env, kind) <==> OwnRelease(doc, env, kind)
  {
    hide RecordFromMetadata, Trimmed;
    ReadFields(doc, env, path);
    if IsType(kind) {
      PrefixText(env, kind);
    }
    hide TagPrefix;
  }

  lemma PrefixText(env: string, kind: string)
    requires IsType(kind)
    ensures TagPrefix(env, kind) == (if kind == "database" then "db-backup-" else "files-backup-") + env + "-"
  {
    assert "db-backup" + "-" == "db-backup-" && "files-backup" + "-" == "files-backup-";
  }

  lemma InView(files: map<string, Document>, env: string, p: string)
    ensures p in ViewOf(files, env) <==>
              p in files && InDirectory(p, env) && RecordFromMetadata(files[p], env, p).Success?
    ensures p in ViewOf(files, env) ==> ViewOf(files, env)[p] == RecordFromMetadata(files[p], env, p).value
  {
    hide RecordFromMetadata, InDirectory;
  }

  /** In an environment without ambiguities, the targets of a run, on the documents. */
  lemma TargetOnDocuments(files: map<string, Document>, p: string, env: string, kind: string, now: int)
    requires Readable(files, env) && p in files && InDirectory(p, env)
    ensures files[p].Document? && Trimmed(files[p].backupId).Some?
    ensures forall q :: q in files && InDirectory(q, env) ==> files[q].Document? && Trimmed(files[q].backupId).Some?
    ensures Target(files, p, env, kind, now) <==>
              && StandsAs(files[p], env, kind) && OwnRelease(files[p], env, kind)
              && exists q :: q in files && InDirectory(q, env) && StandsAs(files[q], env, kind)
                             && StoredAfter(files[p], files[q], now)
  {
    hide RecordFromMetadata, Trimmed, StandsAs, StoredAfter, OwnRelease, InDirectory, ViewOf, InNamespace,
      Retention.Expires, Retention.Evidence.Advances;
    forall q | q in files && InDirectory(q, env)
      ensures q in ViewOf(files, env) && RecordFromMetadata(files[q], env, q).Success?
      ensures files[q].Document? && Trimmed(files[q].backupId).Some?
    {
      InView(files, env, q);
      ReadFields(files[q], env, q);
    }
    InView(files, env, p);
    StandsExactly(files[p], env, p, kind);
    OwnReleaseExactly(files[p], env, p, kind);
    if StandsAs(files[p], env, kind) {
      ReleasedOnDocuments(files, p, env, kind, now);
    }
  }

  lemma ReleasedOnDocuments(files: map<string, Document>, p: string, env: string, kind: string, now: int)
    requires p in ViewOf(files, env) && p in files && InDirectory(p, env) && StandsAs(files[p], env, kind)
    requires forall q :: q in files && InDirectory(q, env) ==> q in ViewOf(files, env)
    ensures forall q :: q in files && InDirectory(q, env) ==> files[q].Document? && Trimmed(files[q].backupId).Some?
    ensures ReleasedIn(ViewOf(files, env), p, env, kind, now) <==>
              exists q :: q in files && InDirectory(q, env) && StandsAs(files[q], env, kind)
                          && StoredAfter(files[p], files[q], now)
  {
    hide RecordFromMetadata, Trimmed, StoredAfter, InDirectory, ViewOf, Retention.Expires, Retention.Evidence.Advances;
    var view := ViewOf(files, env);
    InView(files, env, p);
    StandsExactly(files[p], env, p, kind);
    ReadFields(files[p], env, p);
    forall q | q in files && InDirectory(q, env)
      ensures files[q].Document? && Trimmed(files[q].backupId).Some?
      ensures q in view
      ensures Retention.Expires(view[p], view[q], env, kind, now)
         <==> StandsAs(files[q], env, kind) && StoredAfter(files[p], files[q], now)
    {
      InView(files, env, q);
      ReadFields(files[q], env, q);
      ExpiresExactly(files[p], files[q], env, p, q, kind, now);
    }
    forall q | q in view
      ensures q in files && InDirectory(q, env)
    {
      InView(files, env, q);
    }
  }
}
