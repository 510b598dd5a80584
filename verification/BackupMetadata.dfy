/**
 The metadata documents of the backup repository: how an upload writes one, how the reaper
 reads it back into evidence, and what a tombstone leaves behind.
 */
module BackupMetadata {
  import opened Wrappers
  import Text
  import Retention

  datatype Json = Null | Str(text: string) | Num(n: int) | Other

  /** A `stored_at` field: absent or blank, unreadable, or a timestamp in microseconds. */
  datatype Stamp = NoStamp | Malformed | At(time: int)

  /** The fields that loading and deleting touch; `secretMarker` says that a forbidden marker occurs in the text. */
  datatype Document =
    | NotAnObject
    | Document(
        backupId: Json, environment: Json, backupType: Json, createdAt: Json, createdAtUtc: Json,
        sourceCommitSha: Json, sha256: Json, sizeBytes: Json, verificationStatus: Json,
        storageStatus: Json, storedAt: Stamp, releaseTag: Json, backupRepo: Json,
        retentionDeletedAt: Option<int>, retentionSuccessorBackupId: Option<string>,
        retentionExpiredAt: Option<int>, artifactPresent: bool, secretMarker: bool)

  datatype MetadataError =
    | NotObject | MissingBackupId | MissingEnvironment | EnvironmentMismatch | PathMismatch
    | UnknownType | OutsideNamespace | MalformedStoredAt

  const DATABASE := "database"
  const PERSISTENT_FILES := "persistent_files"

  predicate IsEnvironment(env: string) {
    env == "staging" || env == "production"
  }

  predicate IsType(kind: string) {
    kind == DATABASE || kind == PERSISTENT_FILES
  }

  /** The id namespace of a chain. */
  function TagPrefix(env: string, kind: string): string
    requires IsType(kind)
  {
    (if kind == DATABASE then "db-backup" else "files-backup") + "-" + env + "-"
  }

  function MetadataPath(env: string, backupId: string): string {
    "backups/" + env + "/" + backupId + ".json"
  }

  function Clean(value: Json): Option<string> {
    if value.Str? && Text.Strip(value.text) != "" then Some(Text.Strip(value.text)) else None
  }

  function RecordFromMetadata(doc: Document, env: string, path: string): Result<Retention.Evidence, MetadataError> {
    if doc.NotAnObject? then Failure(NotObject)
    else
      var backupId := Clean(doc.backupId);
      var docEnv := Clean(doc.environment);
      var kind := Clean(doc.backupType).GetOr(DATABASE);
      if backupId.None? then Failure(MissingBackupId)
      else if docEnv.None? then Failure(MissingEnvironment)
      else if docEnv.value != env then Failure(EnvironmentMismatch)
      else if !Text.EndsWith(path, "/" + backupId.value + ".json") then Failure(PathMismatch)
      else if !IsType(kind) then Failure(UnknownType)
      else if !Text.StartsWith(backupId.value, TagPrefix(env, kind)) then Failure(OutsideNamespace)
      else if doc.storedAt.Malformed? then Failure(MalformedStoredAt)
      else
        Success(Retention.Evidence(
          backupId.value, docEnv.value, kind, Clean(doc.sourceCommitSha).GetOr(""),
          Clean(doc.createdAt).GetOr(Clean(doc.createdAtUtc).GetOr("")),
          Clean(doc.sha256), if doc.sizeBytes.Num? then Some(doc.sizeBytes.n) else None,
          Clean(doc.verificationStatus).GetOr("UNVERIFIED"), Clean(doc.storageStatus).GetOr("NONE"),
          if doc.storedAt.At? then Some(doc.storedAt.time) else None,
          Clean(doc.releaseTag), Clean(doc.backupRepo)))
  }

  /** Identity and state, to detect a candidate changing mid-run. */
  function Fingerprint(e: Retention.Evidence): (string, Option<string>, Option<int>, string, string, Option<string>) {
    (e.backupId, e.sha256, e.storedAt, e.storageStatus, e.verificationStatus, e.releaseTag)
  }

  /** The same backup in the same state: id, digest, storage time, both statuses and release. */
  predicate Unchanged(a: Retention.Evidence, b: Retention.Evidence) {
    && a.backupId == b.backupId && a.sha256 == b.sha256 && a.storedAt == b.storedAt
    && a.storageStatus == b.storageStatus && a.verificationStatus == b.verificationStatus
    && a.releaseTag == b.releaseTag
  }

  lemma FingerprintFields(a: Retention.Evidence, b: Retention.Evidence)
    ensures Fingerprint(a) == Fingerprint(b) <==> Unchanged(a, b)
  {
  }

  /** The release that carries a backup. */
  function TagOf(e: Retention.Evidence): string {
    e.releaseTag.GetOr(e.backupId)
  }

  predicate InNamespace(tag: string, env: string, kind: string) {
    IsType(kind) && Text.StartsWith(tag, TagPrefix(env, kind))
  }

  function BuildTombstone(doc: Document, successor: Option<string>, expiredAt: Option<int>, now: int): (t: Document)
    requires doc.Document?
    ensures t.Document?
  {
    doc.(storageStatus := Str(Retention.DELETED_BY_RETENTION), retentionDeletedAt := Some(now),
         retentionSuccessorBackupId := successor, retentionExpiredAt := expiredAt, artifactPresent := false)
  }

  /** What a tombstone says: when, by which successor, since when, and everything else as it was. */
  predicate Tombstones(t: Document, doc: Document, successor: Option<string>, expiredAt: Option<int>, now: int) {
    && doc.Document? && t.Document?
    && t.storageStatus == Str("DELETED_BY_RETENTION") && !t.artifactPresent
    && t.retentionDeletedAt == Some(now)
    && t.retentionSuccessorBackupId == successor && t.retentionExpiredAt == expiredAt
    && t.backupId == doc.backupId && t.environment == doc.environment && t.backupType == doc.backupType
    && t.createdAt == doc.createdAt && t.createdAtUtc == doc.createdAtUtc
    && t.sourceCommitSha == doc.sourceCommitSha && t.sha256 == doc.sha256 && t.sizeBytes == doc.sizeBytes
    && t.verificationStatus == doc.verificationStatus && t.storedAt == doc.storedAt
    && t.releaseTag == doc.releaseTag && t.backupRepo == doc.backupRepo && t.secretMarker == doc.secretMarker
  }

  lemma TombstoneFields(doc: Document, successor: Option<string>, expiredAt: Option<int>, now: int)
    requires doc.Document?
    ensures Tombstones(BuildTombstone(doc, successor, expiredAt, now), doc, successor, expiredAt, now)
  {
  }

  /** `b` is a tombstone of `a`. */
  ghost predicate IsTombstoneOf(b: Document, a: Document) {
    a.Document? && exists successor, expiredAt, now :: b == BuildTombstone(a, successor, expiredAt, now)
  }

  lemma StripDeleted()
    ensures Clean(Str(Retention.DELETED_BY_RETENTION)) == Some(Retention.DELETED_BY_RETENTION)
  {
    hide Text.Strip;
    Text.StripKeeps(Retention.DELETED_BY_RETENTION);
  }

  /** A tombstone is read back as the same record, no longer able to advance its chain. */
  lemma TombstoneReadsBack(a: Document, b: Document, env: string, path: string)
    requires IsTombstoneOf(b, a)
    ensures RecordFromMetadata(a, env, path).Success? <==> RecordFromMetadata(b, env, path).Success?
    ensures RecordFromMetadata(a, env, path).Success? ==>
              && RecordFromMetadata(b, env, path).value == Retention.Tombstoned(RecordFromMetadata(a, env, path).value)
              && !RecordFromMetadata(b, env, path).value.CanAdvance()
  {
    hide Clean, TagPrefix, Text.EndsWith;
    StripDeleted();
  }
}
