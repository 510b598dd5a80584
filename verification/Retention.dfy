/**
 The retention law: a backup expires fourteen days after its successor was stored, and the
 newest verified and stored backup of a chain never does.
 */
module Retention {
  import opened Wrappers
  import Text

  /** Fourteen days, in the microseconds that every time here is counted in. */
  const RETENTION: int := 14 * 24 * 3600 * 1000000

  /** The evidence about one backup; nothing after loading changes it. */
  datatype Evidence = Evidence(
    backupId: string, environment: string, backupType: string, sourceCommitSha: string,
    createdAt: string, sha256: Option<string>, sizeBytes: Option<int>, verificationStatus: string,
    storageStatus: string, storedAt: Option<int>, releaseTag: Option<string>, backupRepo: Option<string>)
  {
    predicate IntegrityVerified() {
      verificationStatus == "INTEGRITY_VERIFIED" || verificationStatus == "RESTORE_VERIFIED"
    }

    predicate StorageVerified() {
      storageStatus == "STORAGE_VERIFIED"
    }

    /** Created, integrity-verified, stored and storage-verified. */
    predicate CanAdvance() {
      storedAt.Some? && IntegrityVerified() && StorageVerified()
    }

    predicate InChain(env: string, kind: string) {
      environment == env && backupType == kind
    }

    predicate Advances(env: string, kind: string) {
      InChain(env, kind) && CanAdvance()
    }
  }

  /** A record: fixed evidence and the bookkeeping that `ComputeChain` rewrites in place. */
  class BackupRecord {
    const data: Evidence
    var successorBackupId: Option<string>
    var retentionExpiresAt: Option<int>

    constructor (data: Evidence)
      ensures this.data == data
      ensures successorBackupId == None && retentionExpiresAt == None
    {
      this.data := data;
      successorBackupId, retentionExpiresAt := None, None;
    }
  }

  // ---------------------------------------------------------------- order

  /** Strictly earlier in (stored_at, backup_id) order. */
  predicate Before(a: Evidence, b: Evidence) {
    && a.storedAt.Some? && b.storedAt.Some?
    && (a.storedAt.value < b.storedAt.value
        || (a.storedAt.value == b.storedAt.value && Text.Less(a.backupId, b.backupId)))
  }

  lemma BeforeTransitive(a: Evidence, b: Evidence, c: Evidence)
    requires Before(a, b) && Before(b, c)
    ensures Before(a, c)
  {
    if a.storedAt == b.storedAt == c.storedAt {
      Text.LessTransitive(a.backupId, b.backupId, c.backupId);
    }
  }

  lemma BeforeTotal(a: Evidence, b: Evidence)
    requires a.storedAt.Some? && b.storedAt.Some?
    ensures Before(a, b) || Before(b, a) || (a.backupId == b.backupId && a.storedAt == b.storedAt)
    ensures !Before(a, a)
  {
    Text.LessTotal(a.backupId, b.backupId);
    Text.LessIrreflexive(a.backupId);
  }

  // ---------------------------------------------------------------- the law

  function Data(records: seq<BackupRecord>): (es: seq<Evidence>)
    ensures |es| == |records|
    ensures forall i :: 0 <= i < |records| ==> es[i] == records[i].data
  {
    seq(|records|, i requires 0 <= i < |records| => records[i].data)
  }

  predicate UniqueIds(es: seq<Evidence>) {
    forall i, j :: 0 <= i < j < |es| ==> es[i].backupId != es[j].backupId
  }

  /** `w` belongs to the chain, came after `c`, and was stored at least fourteen days before `now`. */
  predicate Expires(c: Evidence, w: Evidence, env: string, kind: string, now: int) {
    w.Advances(env, kind) && Before(c, w) && w.storedAt.value + RETENTION <= now
  }

  /** Some later backup of the chain expired `c`. */
  predicate Expired(c: Evidence, es: seq<Evidence>, env: string, kind: string, now: int) {
    c.Advances(env, kind) && exists j :: 0 <= j < |es| && Expires(c, es[j], env, kind, now)
  }

  predicate MatchesAt(id: string, es: seq<Evidence>, env: string, kind: string, i: nat)
    requires i < |es|
  {
    es[i].backupId == id && es[i].InChain(env, kind)
  }

  /** The law for one candidate: named once in its chain, and expired by a later backup. */
  predicate Deletable(id: string, es: seq<Evidence>, env: string, kind: string, now: int) {
    exists i :: 0 <= i < |es| && MatchesAt(id, es, env, kind, i)
                && (forall j :: 0 <= j < |es| && MatchesAt(id, es, env, kind, j) ==> j == i)
                && Expired(es[i], es, env, kind, now)
  }

  lemma DeletableAt(es: seq<Evidence>, i: nat, env: string, kind: string, now: int)
    requires UniqueIds(es) && i < |es|
    ensures Deletable(es[i].backupId, es, env, kind, now) <==> Expired(es[i], es, env, kind, now)
  {
    if Expired(es[i], es, env, kind, now) {
      assert MatchesAt(es[i].backupId, es, env, kind, i);
    }
  }

  // ---------------------------------------------------------------- the law, on the fields of the evidence

  /** Of the chain, integrity-verified, officially stored, and storage-verified. */
  predicate StandsInChain(e: Evidence, env: string, kind: string) {
    && e.environment == env && e.backupType == kind
    && e.storedAt.Some?
    && (e.verificationStatus == "INTEGRITY_VERIFIED" || e.verificationStatus == "RESTORE_VERIFIED")
    && e.storageStatus == "STORAGE_VERIFIED"
  }

  /** `w` was stored after `c`, or at the same instant under a later id. */
  predicate StoredLater(c: Evidence, w: Evidence)
    requires c.storedAt.Some? && w.storedAt.Some?
  {
    || c.storedAt.value < w.storedAt.value
    || (c.storedAt.value == w.storedAt.value && Text.Less(c.backupId, w.backupId))
  }

  /** `w` was stored after `c`, and fourteen days have passed since. */
  predicate Outlasts(c: Evidence, w: Evidence, now: int)
    requires c.storedAt.Some? && w.storedAt.Some?
  {
    StoredLater(c, w) && now >= w.storedAt.value + 14 * 24 * 3600 * 1000000
  }

  /** Of the records standing in the chain, `w` is the first that was stored after `c`. */
  predicate IsSuccessor(c: Evidence, w: Evidence, es: seq<Evidence>, env: string, kind: string)
    requires StandsInChain(c, env, kind)
  {
    && StandsInChain(w, env, kind) && StoredLater(c, w)
    && forall j :: 0 <= j < |es| && StandsInChain(es[j], env, kind) && StoredLater(c, es[j]) ==>
                     !StoredLater(es[j], w)
  }

  /** `c` stands in the chain, and so does some record of `es` that outlasts it. */
  predicate Outlasted(c: Evidence, es: seq<Evidence>, env: string, kind: string, now: int) {
    && StandsInChain(c, env, kind)
    && exists j :: 0 <= j < |es| && StandsInChain(es[j], env, kind) && Outlasts(c, es[j], now)
  }

  predicate AnotherStands(c: Evidence, es: seq<Evidence>, env: string, kind: string) {
    exists j :: 0 <= j < |es| && StandsInChain(es[j], env, kind) && es[j].backupId != c.backupId
  }

  predicate LaterStands(c: Evidence, es: seq<Evidence>, env: string, kind: string)
    requires c.storedAt.Some?
  {
    exists j :: 0 <= j < |es| && StandsInChain(es[j], env, kind) && StoredLater(c, es[j])
  }

  /**
   What a candidate of the chain is told: one that does not stand in it has no successor, the newest is
   protected, and any other waits for its window alone.
   */
  predicate ReasonsOnFields(reasons: seq<Reason>, c: Evidence, es: seq<Evidence>, env: string, kind: string,
                            now: int) {
    var floor := if AnotherStands(c, es, env, kind) then [] else [WouldEmptyChain];
    if !StandsInChain(c, env, kind) then reasons == [NoSuccessor] + floor
    else if !LaterStands(c, es, env, kind) then reasons == [IsNewest, NoSuccessor] + floor
    else reasons == if Outlasted(c, es, env, kind, now) then [] else [WindowOpen]
  }

  /** The reasons given for an id: of the one record of the chain that has it, or that none does. */
  predicate ToldWhy(reasons: seq<Reason>, id: string, es: seq<Evidence>, env: string, kind: string, now: int) {
    && (UniqueIds(es) ==>
          forall i :: 0 <= i < |es| && es[i].backupId == id && es[i].environment == env && es[i].backupType == kind ==>
            ReasonsOnFields(reasons, es[i], es, env, kind, now))
    && ((forall i :: 0 <= i < |es| && es[i].backupId == id ==> es[i].environment != env || es[i].backupType != kind) ==>
          reasons == [NotFound])
  }

  lemma ExpiredOnFields(c: Evidence, es: seq<Evidence>, env: string, kind: string, now: int)
    ensures Expired(c, es, env, kind, now) <==> Outlasted(c, es, env, kind, now)
  {
    hide Text.Less;
    forall j | 0 <= j < |es|
      ensures c.Advances(env, kind) ==>
                (Expires(c, es[j], env, kind, now) <==> StandsInChain(es[j], env, kind) && Outlasts(c, es[j], now))
    {
    }
  }

  /** The law names its candidate once in the chain, on the fields. */
  lemma DeletableOnFields(id: string, es: seq<Evidence>, env: string, kind: string, now: int)
    requires Deletable(id, es, env, kind, now)
    ensures exists i :: 0 <= i < |es| && es[i].backupId == id && Outlasted(es[i], es, env, kind, now)
  {
    hide Outlasted, Expired;
    var i :| 0 <= i < |es| && MatchesAt(id, es, env, kind, i) && Expired(es[i], es, env, kind, now);
    ExpiredOnFields(es[i], es, env, kind, now);
  }

  lemma OutlastedIsDeletable(es: seq<Evidence>, i: nat, env: string, kind: string, now: int)
    requires UniqueIds(es) && i < |es| && Outlasted(es[i], es, env, kind, now)
    ensures Deletable(es[i].backupId, es, env, kind, now)
  {
    hide Outlasted, Expired, Deletable;
    ExpiredOnFields(es[i], es, env, kind, now);
    DeletableAt(es, i, env, kind, now);
  }

  // ---------------------------------------------------------------- what the law keeps

  /** The deletable records are a prefix of the ordered chain. */
  lemma DeletableIsPrefix(es: seq<Evidence>, a: nat, b: nat, env: string, kind: string, now: int)
    requires UniqueIds(es) && a < |es| && b < |es|
    requires es[a].Advances(env, kind) && Before(es[a], es[b])
    requires Deletable(es[b].backupId, es, env, kind, now)
    ensures Deletable(es[a].backupId, es, env, kind, now)
  {
    DeletableAt(es, b, env, kind, now);
    var j :| 0 <= j < |es| && Expires(es[b], es[j], env, kind, now);
    BeforeTransitive(es[a], es[b], es[j]);
    assert Expires(es[a], es[j], env, kind, now);
    DeletableAt(es, a, env, kind, now);
  }

  /** The head of the chain: no chain-advancing record comes after it. */
  predicate IsHead(es: seq<Evidence>, h: nat, env: string, kind: string)
    requires h < |es|
  {
    es[h].Advances(env, kind) && forall j :: 0 <= j < |es| && es[j].Advances(env, kind) ==> !Before(es[h], es[j])
  }

  /** The prefix never reaches the head. */
  lemma HeadNeverDeletable(es: seq<Evidence>, h: nat, env: string, kind: string, now: int)
    requires UniqueIds(es) && h < |es| && IsHead(es, h, env, kind)
    ensures !Deletable(es[h].backupId, es, env, kind, now)
  {
    DeletableAt(es, h, env, kind, now);
  }

  function ChainOf(es: seq<Evidence>, env: string, kind: string): (chain: seq<Evidence>)
    ensures forall e :: e in chain <==> e in es && e.InChain(env, kind)
  {
    if es == [] then []
    else (if es[0].InChain(env, kind) then [es[0]] else []) + ChainOf(es[1..], env, kind)
  }

  lemma {:induction false} ChainOfUnique(es: seq<Evidence>, env: string, kind: string)
    requires UniqueIds(es)
    ensures UniqueIds(ChainOf(es, env, kind))
  {
    if es != [] {
      assert UniqueIds(es[1..]) by {
        assert forall i :: 0 <= i < |es[1..]| ==> es[1..][i] == es[i + 1];
      }
      ChainOfUnique(es[1..], env, kind);
      var rest := ChainOf(es[1..], env, kind);
      forall i | 0 <= i < |rest|
        ensures rest[i].backupId != es[0].backupId
      {
        assert rest[i] in es[1..];
      }
    }
  }

  /** A verdict needs two records of the chain, so it carries over between record sets that share them. */
  lemma DeletableCarries(id: string, es: seq<Evidence>, others: seq<Evidence>, env: string, kind: string, now: int)
    requires UniqueIds(others) && forall e :: e in es && e.InChain(env, kind) ==> e in others
    requires Deletable(id, es, env, kind, now)
    ensures Deletable(id, others, env, kind, now)
  {
    hide Before, Evidence.CanAdvance, UniqueIds;
    var i :| 0 <= i < |es| && MatchesAt(id, es, env, kind, i) && Expired(es[i], es, env, kind, now);
    var j :| 0 <= j < |es| && Expires(es[i], es[j], env, kind, now);
    assert es[i] in others && es[j] in others;
    var p :| 0 <= p < |others| && others[p] == es[i];
    var q :| 0 <= q < |others| && others[q] == es[j];
    assert Expires(others[p], others[q], env, kind, now);
    hide Deletable;
    DeletableAt(others, p, env, kind, now);
  }

  /** Records of other chains change no verdict. */
  lemma OtherChainsIgnored(id: string, es: seq<Evidence>, env: string, kind: string, now: int)
    requires UniqueIds(es)
    ensures Deletable(id, es, env, kind, now) <==> Deletable(id, ChainOf(es, env, kind), env, kind, now)
  {
    hide Deletable, UniqueIds;
    var chain := ChainOf(es, env, kind);
    ChainOfUnique(es, env, kind);
    if Deletable(id, es, env, kind, now) {
      DeletableCarries(id, es, chain, env, kind, now);
    }
    if Deletable(id, chain, env, kind, now) {
      DeletableCarries(id, chain, es, env, kind, now);
    }
  }

  // ---------------------------------------------------------------- stability

  const DELETED_BY_RETENTION := "DELETED_BY_RETENTION"

  function Tombstoned(e: Evidence): Evidence {
    e.(storageStatus := DELETED_BY_RETENTION)
  }

  /** A tombstone stands where its record stood, and advances nothing. */
  lemma TombstonedOrder(e: Evidence)
    ensures !Tombstoned(e).CanAdvance()
    ensures forall w: Evidence :: Before(Tombstoned(e), w) <==> Before(e, w)
    ensures forall w: Evidence :: Before(w, Tombstoned(e)) <==> Before(w, e)
  {
  }

  /** Deleting one deletable backup leaves the verdict on every other one unchanged, and its own false. */
  lemma StableUnderDeletion(es: seq<Evidence>, x: nat, c: nat, env: string, kind: string, now: int)
    requires UniqueIds(es) && x < |es| && c < |es|
    requires Deletable(es[x].backupId, es, env, kind, now)
    ensures var after := es[x := Tombstoned(es[x])];
            && UniqueIds(after)
            && (Deletable(es[c].backupId, after, env, kind, now)
                <==> c != x && Deletable(es[c].backupId, es, env, kind, now))
  {
    var after := es[x := Tombstoned(es[x])];
    assert forall i :: 0 <= i < |es| ==> after[i].backupId == es[i].backupId;
    hide Deletable, Before, Evidence.IntegrityVerified, Expired;
    DeletableAt(es, x, env, kind, now);
    DeletableAt(es, c, env, kind, now);
    DeletableAt(after, c, env, kind, now);
    TombstonedOrder(es[x]);
    if c == x {
      TombstoneNotExpired(es[x], after, env, kind, now);
    } else {
      OthersStayExpired(es, x, c, env, kind, now);
    }
  }

  lemma TombstoneNotExpired(e: Evidence, es: seq<Evidence>, env: string, kind: string, now: int)
    ensures !Expired(Tombstoned(e), es, env, kind, now)
  {
    TombstonedOrder(e);
    hide Before, Evidence.IntegrityVerified, Evidence.CanAdvance;
  }

  lemma OthersStayExpired(es: seq<Evidence>, x: nat, c: nat, env: string, kind: string, now: int)
    requires x < |es| && c < |es| && c != x && Expired(es[x], es, env, kind, now)
    ensures var after := es[x := Tombstoned(es[x])];
            Expired(after[c], after, env, kind, now) <==> Expired(es[c], es, env, kind, now)
  {
    var after := es[x := Tombstoned(es[x])];
    TombstonedOrder(es[x]);
    hide Before, Evidence.IntegrityVerified;
    if Expired(es[c], es, env, kind, now) {
      var j :| 0 <= j < |es| && Expires(es[c], es[j], env, kind, now);
      if j == x {
        var w :| 0 <= w < |es| && Expires(es[x], es[w], env, kind, now);
        BeforeTransitive(es[c], es[x], es[w]);
        BeforeTotal(es[x], es[x]);
        assert Expires(after[c], after[w], env, kind, now);
      } else {
        assert Expires(after[c], after[j], env, kind, now);
      }
    }
    if Expired(after[c], after, env, kind, now) {
      var j :| 0 <= j < |after| && Expires(after[c], after[j], env, kind, now);
      assert Expires(es[c], es[j], env, kind, now);
    }
  }

  /** Storing a backup under a fresh id, in any chain, never makes an eligible one ineligible. */
  lemma StableUnderUpload(es: seq<Evidence>, added: Evidence, c: nat, env: string, kind: string, now: int)
    requires UniqueIds(es + [added]) && c < |es|
    requires Deletable(es[c].backupId, es, env, kind, now)
    ensures Deletable(es[c].backupId, es + [added], env, kind, now)
  {
    var more := es + [added];
    assert UniqueIds(es) by {
      assert forall i :: 0 <= i < |es| ==> es[i] == more[i];
    }
    DeletableAt(es, c, env, kind, now);
    var j :| 0 <= j < |es| && Expires(es[c], es[j], env, kind, now);
    assert Expires(more[c], more[j], env, kind, now);
    DeletableAt(more, c, env, kind, now);
  }

  // ---------------------------------------------------------------- the chain, on shared records

  predicate NoAliases(records: seq<BackupRecord>) {
    forall i, j :: 0 <= i < j < |records| ==> records[i] != records[j]
  }

  function Mine(records: seq<BackupRecord>, env: string, kind: string): seq<BackupRecord> {
    if records == [] then []
    else
      var rest := Mine(records[1..], env, kind);
      if records[0].data.InChain(env, kind) then [records[0]] + rest else rest
  }

  lemma {:induction false} MineMembers(records: seq<BackupRecord>, env: string, kind: string)
    ensures forall r :: r in Mine(records, env, kind) ==> r in records && r.data.InChain(env, kind)
    ensures forall r :: r in records && r.data.InChain(env, kind) ==> r in Mine(records, env, kind)
    ensures NoAliases(records) ==> NoAliases(Mine(records, env, kind))
  {
    if records != [] {
      MineMembers(records[1..], env, kind);
    }
  }

  function Eligible(records: seq<BackupRecord>): (es: seq<BackupRecord>)
    ensures forall r :: r in es ==> r.data.CanAdvance()
  {
    if records == [] then []
    else
      var rest := Eligible(records[1..]);
      if records[0].data.CanAdvance() then [records[0]] + rest else rest
  }

  predicate Ordered(rs: seq<BackupRecord>) {
    && (forall i :: 0 <= i < |rs| ==> rs[i].data.storedAt.Some?)
    && (forall i, j :: 0 <= i < j < |rs| ==> !Before(rs[j].data, rs[i].data))
  }

  lemma NotBeforeTransitive(a: Evidence, b: Evidence, c: Evidence)
    requires a.storedAt.Some? && b.storedAt.Some? && c.storedAt.Some?
    requires !Before(b, a) && !Before(c, b)
    ensures !Before(c, a)
  {
    BeforeTotal(a, b);
    BeforeTotal(b, c);
    if Before(a, b) && Before(b, c) {
      BeforeTransitive(a, b, c);
      if Before(c, a) {
        BeforeTransitive(a, c, a);
        BeforeTotal(a, a);
      }
    }
  }

  function Insert(r: BackupRecord, rs: seq<BackupRecord>): (out: seq<BackupRecord>)
    requires Ordered(rs) && r.data.storedAt.Some?
    ensures multiset(out) == multiset(rs) + multiset{r}
    ensures Ordered(out)
  {
    if rs == [] then [r]
    else if !Before(rs[0].data, r.data) then
      assert multiset([r] + rs) == multiset(rs) + multiset{r};
      InsertFront(r, rs);
      [r] + rs
    else
      var rest := Insert(r, rs[1..]);
      assert rs == [rs[0]] + rs[1..];
      InsertBehind(r, rs, rest);
      [rs[0]] + rest
  }

  lemma InsertFront(r: BackupRecord, rs: seq<BackupRecord>)
    requires Ordered(rs) && rs != [] && r.data.storedAt.Some? && !Before(rs[0].data, r.data)
    ensures Ordered([r] + rs)
  {
    forall j | 0 <= j < |rs|
      ensures !Before(rs[j].data, r.data)
    {
      if j > 0 {
        NotBeforeTransitive(r.data, rs[0].data, rs[j].data);
      }
    }
  }

  lemma InsertBehind(r: BackupRecord, rs: seq<BackupRecord>, rest: seq<BackupRecord>)
    requires Ordered(rs) && rs != [] && r.data.storedAt.Some? && Before(rs[0].data, r.data)
    requires Ordered(rest) && multiset(rest) == multiset(rs[1..]) + multiset{r}
    ensures Ordered([rs[0]] + rest)
  {
    forall j | 0 <= j < |rest|
      ensures !Before(rest[j].data, rs[0].data)
    {
      assert rest[j] in multiset(rest);
      if rest[j] == r {
        if Before(r.data, rs[0].data) {
          BeforeTransitive(r.data, rs[0].data, r.data);
          BeforeTotal(r.data, r.data);
        }
      } else {
        assert rest[j] in rs[1..];
      }
    }
  }

  function SortByStorage(rs: seq<BackupRecord>): (out: seq<BackupRecord>)
    requires forall r :: r in rs ==> r.data.storedAt.Some?
    ensures multiset(out) == multiset(rs) && Ordered(out)
  {
    if rs == [] then []
    else
      assert rs == [rs[0]] + rs[1..];
      Insert(rs[0], SortByStorage(rs[1..]))
  }

  /** Chain-advancing records, oldest first by storage time, then by id. */
  function EligibleSorted(records: seq<BackupRecord>): (out: seq<BackupRecord>)
    ensures Ordered(out)
  {
    SortByStorage(Eligible(records))
  }

  lemma {:induction false} EligibleMembers(records: seq<BackupRecord>)
    ensures forall r :: r in Eligible(records) ==> r in records
    ensures forall r :: r in records && r.data.CanAdvance() ==> r in Eligible(records)
    ensures NoAliases(records) ==> NoAliases(Eligible(records))
  {
    if records != [] {
      EligibleMembers(records[1..]);
    }
  }

  lemma SortedMembers(records: seq<BackupRecord>)
    ensures forall r :: r in EligibleSorted(records) ==> r in records && r.data.CanAdvance()
    ensures forall r :: r in records && r.data.CanAdvance() ==> r in EligibleSorted(records)
    ensures NoAliases(records) ==> NoAliases(EligibleSorted(records))
  {
    hide Eligible, SortByStorage, NoAliases, Ordered;
    EligibleMembers(records);
    SameMembers(Eligible(records), SortByStorage(Eligible(records)));
  }

  lemma SameMembers(a: seq<BackupRecord>, b: seq<BackupRecord>)
    requires multiset(a) == multiset(b)
    ensures forall r :: r in a ==> r in b
    ensures forall r :: r in b ==> r in a
    ensures NoAliases(a) ==> NoAliases(b)
  {
    forall r | r in a || r in b
      ensures r in a && r in b
    {
      assert r in a <==> r in multiset(a);
      assert r in b <==> r in multiset(b);
    }
    if NoAliases(a) && !NoAliases(b) {
      var i, j :| 0 <= i < j < |b| && b[i] == b[j];
      Twice(b, i, j);
      Once(a, b[i]);
    }
  }

  lemma Twice(b: seq<BackupRecord>, i: nat, j: nat)
    requires i < j < |b| && b[i] == b[j]
    ensures multiset(b)[b[i]] >= 2
  {
    assert b == b[..j] + [b[j]] + b[j + 1..];
    assert b[..j][i] == b[i];
  }

  lemma {:induction false} Once(a: seq<BackupRecord>, r: BackupRecord)
    requires NoAliases(a)
    ensures multiset(a)[r] <= 1
  {
    if a != [] {
      assert a == [a[0]] + a[1..];
      Once(a[1..], r);
      if a[0] == r {
        assert r !in a[1..];
        assert r !in multiset(a[1..]);
      }
    }
  }

  function SuccessorAt(ordered: seq<BackupRecord>, i: nat): Option<string> {
    if i + 1 < |ordered| then Some(ordered[i + 1].data.backupId) else None
  }

  function ExpiryAt(ordered: seq<BackupRecord>, i: nat): Option<int>
    requires Ordered(ordered)
  {
    if i + 1 < |ordered| then Some(ordered[i + 1].data.storedAt.value + RETENTION) else None
  }

  /** The bookkeeping of one chain: each record's timer starts when its immediate successor is stored. */
  ghost predicate Bookkept(records: seq<BackupRecord>, env: string, kind: string)
    reads set r | r in records
  {
    var mine := Mine(records, env, kind);
    var ordered := EligibleSorted(mine);
    MineMembers(records, env, kind);
    SortedMembers(mine);
    && (forall i :: 0 <= i < |ordered| ==>
          ordered[i].successorBackupId == SuccessorAt(ordered, i)
          && ordered[i].retentionExpiresAt == ExpiryAt(ordered, i))
    && (forall r :: r in mine && !r.data.CanAdvance() ==> r.successorBackupId == None && r.retentionExpiresAt == None)
  }

  lemma DistinctAt(rs: seq<BackupRecord>, i: nat)
    requires NoAliases(rs) && i < |rs|
    ensures forall j :: 0 <= j < |rs| && j != i ==> rs[j] != rs[i]
  {
  }

  /** The first pass: no record of the chain keeps an earlier run's bookkeeping. */
  method ClearTimers(mine: seq<BackupRecord>)
    modifies set r | r in mine
    ensures forall i :: 0 <= i < |mine| ==> mine[i].successorBackupId == None && mine[i].retentionExpiresAt == None
  {
    for i := 0 to |mine|
      invariant forall j :: 0 <= j < i ==> mine[j].successorBackupId == None && mine[j].retentionExpiresAt == None
    {
      mine[i].successorBackupId := None;
      mine[i].retentionExpiresAt := None;
    }
  }

  /** The second pass: each record's timer starts when its immediate successor is stored. */
  method StartTimers(ordered: seq<BackupRecord>)
    requires NoAliases(ordered) && Ordered(ordered)
    modifies set r | r in ordered
    ensures forall i :: 0 <= i < |ordered| ==>
              ordered[i].successorBackupId == SuccessorAt(ordered, i)
              && ordered[i].retentionExpiresAt == ExpiryAt(ordered, i)
  {
    hide NoAliases;
    for i := 0 to |ordered|
      invariant forall j :: 0 <= j < i ==>
                  ordered[j].successorBackupId == SuccessorAt(ordered, j)
                  && ordered[j].retentionExpiresAt == ExpiryAt(ordered, j)
    {
      DistinctAt(ordered, i);
      var record := ordered[i];
      if i == |ordered| - 1 {
        record.successorBackupId := None;
        record.retentionExpiresAt := None;
      } else {
        var successor := ordered[i + 1];
        record.successorBackupId := Some(successor.data.backupId);
        record.retentionExpiresAt := Some(successor.data.storedAt.value + RETENTION);
      }
    }
  }

  method ComputeChain(records: seq<BackupRecord>, env: string, kind: string) returns (mine: seq<BackupRecord>)
    requires NoAliases(records)
    modifies set r | r in records
    ensures mine == Mine(records, env, kind)
    ensures Bookkept(records, env, kind)
    ensures forall r :: r in records && r !in mine ==>
              r.successorBackupId == old(r.successorBackupId) && r.retentionExpiresAt == old(r.retentionExpiresAt)
  {
    hide Mine, EligibleSorted, NoAliases, Before, Evidence.CanAdvance, SuccessorAt, ExpiryAt, Ordered;
    mine := Mine(records, env, kind);
    var ordered := EligibleSorted(mine);
    MineMembers(records, env, kind);
    SortedMembers(mine);
    ClearTimers(mine);
    StartTimers(ordered);
  }

  /** The protected head of a chain, if it has any chain-advancing record. */
  function NewestProtected(records: seq<BackupRecord>, env: string, kind: string): Option<BackupRecord> {
    var ordered := EligibleSorted(Mine(records, env, kind));
    if ordered == [] then None else Some(ordered[|ordered| - 1])
  }

  /** The head stands in the chain, and nothing that does was stored later. */
  lemma HeadOnFields(records: seq<BackupRecord>, env: string, kind: string)
    requires NoAliases(records)
    ensures match NewestProtected(records, env, kind)
            case None => forall r :: r in records ==> !StandsInChain(r.data, env, kind)
            case Some(h) =>
              && h in records && StandsInChain(h.data, env, kind)
              && forall r :: r in records && StandsInChain(r.data, env, kind) ==> !StoredLater(h.data, r.data)
  {
    var ordered := ChainInOrder(records, env, kind);
    hide Mine, EligibleSorted, NoAliases, Ordered, StandsInChain, StoredLater;
    forall r | r in ordered || r in records
      ensures r in ordered <==> r in records && StandsInChain(r.data, env, kind)
    {
      EligibleInChain(r, records, env, kind);
      AdvancesOnFields(r.data, env, kind);
    }
    if ordered != [] {
      var h := ordered[|ordered| - 1];
      assert h in ordered;
      forall r | r in records && StandsInChain(r.data, env, kind)
        ensures h.data.storedAt.Some? && r.data.storedAt.Some? && !StoredLater(h.data, r.data)
      {
        LastIsLatest(ordered, r);
      }
    }
  }

  lemma AdvancesOnFields(e: Evidence, env: string, kind: string)
    ensures e.Advances(env, kind) <==> StandsInChain(e, env, kind)
  {
  }

  lemma LastIsLatest(ordered: seq<BackupRecord>, r: BackupRecord)
    requires Ordered(ordered) && r in ordered
    ensures var h := ordered[|ordered| - 1];
            h.data.storedAt.Some? && r.data.storedAt.Some? && !StoredLater(h.data, r.data)
  {
    hide Text.Less;
    var h := ordered[|ordered| - 1];
    var m :| 0 <= m < |ordered| && ordered[m] == r;
    Text.LessIrreflexive(h.data.backupId);
  }

  // ---------------------------------------------------------------- the seven checks

  datatype Reason =
    | NotFound | Ambiguous(matches: nat) | IsNewest | NoSuccessor | SuccessorGone
    | SuccessorEnvironment | SuccessorType | SuccessorNotVerified | SuccessorStorageNotVerified
    | SuccessorNotStored | RetentionNotStarted | WindowOpen | WouldEmptyChain

  datatype Verdict = Verdict(allowed: bool, reasons: seq<Reason>)

  function Matching(id: string, records: seq<BackupRecord>, env: string, kind: string): (ms: seq<BackupRecord>)
    ensures forall r :: r in ms ==> r in records && r.data.backupId == id && r.data.InChain(env, kind)
    ensures forall r :: r in records && r.data.backupId == id && r.data.InChain(env, kind) ==> r in ms
  {
    if records == [] then []
    else
      (if records[0].data.backupId == id && records[0].data.InChain(env, kind) then [records[0]] else [])
      + Matching(id, records[1..], env, kind)
  }

  function FindById(id: string, records: seq<BackupRecord>): (found: Option<BackupRecord>)
    ensures found.Some? ==> found.value in records && found.value.data.backupId == id
    ensures found.None? ==> forall r :: r in records ==> r.data.backupId != id
  {
    if records == [] then None
    else if records[0].data.backupId == id then Some(records[0])
    else FindById(id, records[1..])
  }

  lemma {:induction false} NoMatch(id: string, records: seq<BackupRecord>, env: string, kind: string)
    requires forall i :: 0 <= i < |records| ==> !MatchesAt(id, Data(records), env, kind, i)
    ensures Matching(id, records, env, kind) == []
  {
    if records != [] {
      assert !MatchesAt(id, Data(records), env, kind, 0);
      assert forall i :: 0 <= i < |records[1..]| ==>
          MatchesAt(id, Data(records[1..]), env, kind, i) == MatchesAt(id, Data(records), env, kind, i + 1);
      NoMatch(id, records[1..], env, kind);
    }
  }

  lemma {:induction false} OneMatch(id: string, records: seq<BackupRecord>, env: string, kind: string, i: nat)
    requires i < |records| && MatchesAt(id, Data(records), env, kind, i)
    requires forall j :: 0 <= j < |records| && MatchesAt(id, Data(records), env, kind, j) ==> j == i
    ensures Matching(id, records, env, kind) == [records[i]]
  {
    assert forall j :: 0 <= j < |records[1..]| ==>
        MatchesAt(id, Data(records[1..]), env, kind, j) == MatchesAt(id, Data(records), env, kind, j + 1);
    if i == 0 {
      NoMatch(id, records[1..], env, kind);
    } else {
      assert !MatchesAt(id, Data(records), env, kind, 0);
      OneMatch(id, records[1..], env, kind, i - 1);
    }
  }

  lemma EmptyMatching(id: string, records: seq<BackupRecord>, env: string, kind: string)
    requires Matching(id, records, env, kind) == []
    ensures forall i :: 0 <= i < |records| ==> !MatchesAt(id, Data(records), env, kind, i)
  {
    forall i | 0 <= i < |records|
      ensures !MatchesAt(id, Data(records), env, kind, i)
    {
      assert records[i] in records;
    }
  }

  lemma {:induction false} MatchIsOnce(id: string, records: seq<BackupRecord>, env: string, kind: string)
    returns (i: nat)
    requires |Matching(id, records, env, kind)| == 1
    ensures i < |records| && records[i] == Matching(id, records, env, kind)[0]
    ensures MatchesAt(id, Data(records), env, kind, i)
    ensures forall j :: 0 <= j < |records| && MatchesAt(id, Data(records), env, kind, j) ==> j == i
  {
    var es := Data(records);
    if MatchesAt(id, es, env, kind, 0) {
      i := 0;
      EmptyMatching(id, records[1..], env, kind);
      assert forall j :: 1 <= j < |records| ==>
          MatchesAt(id, Data(records[1..]), env, kind, j - 1) == MatchesAt(id, es, env, kind, j);
    } else {
      i := MatchIsOnce(id, records[1..], env, kind);
      i := i + 1;
      assert forall j :: 1 <= j < |records| ==>
          MatchesAt(id, Data(records[1..]), env, kind, j - 1) == MatchesAt(id, es, env, kind, j);
    }
  }

  lemma DeletableMatchesOnce(id: string, records: seq<BackupRecord>, env: string, kind: string, now: int)
    requires Deletable(id, Data(records), env, kind, now)
    ensures |Matching(id, records, env, kind)| == 1
  {
    var es := Data(records);
    var i :| 0 <= i < |es| && MatchesAt(id, es, env, kind, i)
             && (forall j :: 0 <= j < |es| && MatchesAt(id, es, env, kind, j) ==> j == i);
    OneMatch(id, records, env, kind, i);
  }

  /** Whatever the ids, the checks pass only for a candidate the law allows. */
  lemma ChecksPassOnlyWithinLaw(c: BackupRecord, records: seq<BackupRecord>, env: string, kind: string, now: int)
    requires NoAliases(records) && Matching(c.data.backupId, records, env, kind) == [c]
    requires Bookkept(records, env, kind) && ChecksPass(c, records, env, kind, now)
    ensures Deletable(c.data.backupId, Data(records), env, kind, now)
  {
    hide Mine, EligibleSorted, Matching, FindById, Survivors;
    var es := Data(records);
    var at := MatchIsOnce(c.data.backupId, records, env, kind);
    var mine := Mine(records, env, kind);
    var ordered := EligibleSorted(mine);
    MineMembers(records, env, kind);
    SortedMembers(mine);
    assert c in Matching(c.data.backupId, records, env, kind);
    assert c in mine && c.data.CanAdvance();
    var i :| 0 <= i < |ordered| && ordered[i] == c;
    var next := ordered[i + 1];
    assert next in mine && next in records && next != c;
    var k :| 0 <= k < |records| && records[k] == next;
    BeforeTotal(c.data, next.data);
    assert MatchesAt(c.data.backupId, es, env, kind, k) ==> k == at;
    assert Expires(c.data, es[k], env, kind, now);
  }

  lemma UniqueRecord(records: seq<BackupRecord>, a: BackupRecord, b: BackupRecord)
    requires UniqueIds(Data(records)) && a in records && b in records && a.data.backupId == b.data.backupId
    ensures a == b
  {
    var i :| 0 <= i < |records| && records[i] == a;
    var j :| 0 <= j < |records| && records[j] == b;
    assert Data(records)[i].backupId == Data(records)[j].backupId;
  }

  /** In the ordered chain some record stands right behind `c`, stored no later than any later one. */
  lemma NextInChain(c: BackupRecord, later: BackupRecord, ordered: seq<BackupRecord>) returns (i: nat)
    requires Ordered(ordered) && c in ordered && later in ordered && Before(c.data, later.data)
    ensures i + 1 < |ordered| && ordered[i] == c
    ensures ordered[i + 1].data.storedAt.value <= later.data.storedAt.value
  {
    i :| 0 <= i < |ordered| && ordered[i] == c;
    var j :| 0 <= j < |ordered| && ordered[j] == later;
    BeforeTotal(c.data, c.data);
    assert i < j;
    assert j == i + 1 || !Before(ordered[j].data, ordered[i + 1].data);
  }

  lemma DeletableWitness(c: BackupRecord, records: seq<BackupRecord>, env: string, kind: string, now: int)
    returns (later: BackupRecord)
    requires UniqueIds(Data(records)) && c in records
    requires Deletable(c.data.backupId, Data(records), env, kind, now)
    ensures c.data.Advances(env, kind)
    ensures later in records && later.data.Advances(env, kind) && Before(c.data, later.data)
    ensures later.data.storedAt.Some? && later.data.storedAt.value + RETENTION <= now
  {
    var es := Data(records);
    var at :| 0 <= at < |es| && MatchesAt(c.data.backupId, es, env, kind, at) && Expired(es[at], es, env, kind, now);
    UniqueRecord(records, c, records[at]);
    var k :| 0 <= k < |es| && Expires(c.data, es[k], env, kind, now);
    later := records[k];
  }

  lemma FoundById(r: BackupRecord, records: seq<BackupRecord>)
    requires UniqueIds(Data(records)) && r in records
    ensures FindById(r.data.backupId, records) == Some(r)
  {
    hide FindById;
    UniqueRecord(records, FindById(r.data.backupId, records).value, r);
  }

  lemma OtherSurvives(c: BackupRecord, other: BackupRecord, records: seq<BackupRecord>, env: string, kind: string)
    requires UniqueIds(Data(records)) && c in records && other in records && c != other
    requires other.data.Advances(env, kind)
    ensures other.data.backupId != c.data.backupId
    ensures Survivors(records, env, kind, c.data.backupId)
  {
    if other.data.backupId == c.data.backupId {
      UniqueRecord(records, other, c);
    }
    var n :| 0 <= n < |records| && records[n] == other;
    assert records[n].data.Advances(env, kind);
  }

  lemma EligibleInChain(r: BackupRecord, records: seq<BackupRecord>, env: string, kind: string)
    ensures r in EligibleSorted(Mine(records, env, kind)) <==> r in records && r.data.Advances(env, kind)
  {
    hide Mine, EligibleSorted;
    MineMembers(records, env, kind);
    SortedMembers(Mine(records, env, kind));
  }

  lemma ChainInOrder(records: seq<BackupRecord>, env: string, kind: string) returns (ordered: seq<BackupRecord>)
    requires NoAliases(records)
    ensures ordered == EligibleSorted(Mine(records, env, kind))
    ensures NoAliases(ordered) && Ordered(ordered)
  {
    hide Ordered, NoAliases, Mine, EligibleSorted;
    MineMembers(records, env, kind);
    SortedMembers(Mine(records, env, kind));
    ordered := EligibleSorted(Mine(records, env, kind));
  }

  lemma DistinctPair(rs: seq<BackupRecord>, i: nat, j: nat)
    requires NoAliases(rs) && i < j < |rs|
    ensures rs[i] != rs[j]
  {
  }

  /** Where a deletable candidate stands: behind it, its successor; at the end, another record. */
  lemma StandsBefore(c: BackupRecord, records: seq<BackupRecord>, env: string, kind: string, now: int)
    returns (i: nat, next: BackupRecord, last: BackupRecord)
    requires NoAliases(records) && UniqueIds(Data(records)) && c in records
    requires Deletable(c.data.backupId, Data(records), env, kind, now)
    ensures c.data.Advances(env, kind) && next in records && next.data.Advances(env, kind) && next != c
    ensures last in records && last != c && last.data.Advances(env, kind)
    ensures next.data.storedAt.value + RETENTION <= now
    ensures var ordered := EligibleSorted(Mine(records, env, kind));
            i + 1 < |ordered| && ordered[i] == c && ordered[i + 1] == next && ordered[|ordered| - 1] == last
  {
    hide *;
    var later := DeletableWitness(c, records, env, kind, now);
    var ordered := ChainInOrder(records, env, kind);
    EligibleInChain(c, records, env, kind);
    EligibleInChain(later, records, env, kind);
    i := NextInChain(c, later, ordered);
    next, last := ordered[i + 1], ordered[|ordered| - 1];
    DistinctPair(ordered, i, i + 1);
    DistinctPair(ordered, i, |ordered| - 1);
    EligibleInChain(next, records, env, kind);
    EligibleInChain(last, records, env, kind);
  }

  lemma BookkeptAt(records: seq<BackupRecord>, env: string, kind: string, i: nat)
    requires Bookkept(records, env, kind) && i + 1 < |EligibleSorted(Mine(records, env, kind))|
    ensures var ordered := EligibleSorted(Mine(records, env, kind));
            && ordered[i].successorBackupId == Some(ordered[i + 1].data.backupId)
            && ordered[i].retentionExpiresAt == Some(ordered[i + 1].data.storedAt.value + RETENTION)
  {
    hide Mine, EligibleSorted, Before;
    var ordered := EligibleSorted(Mine(records, env, kind));
    assert ordered[i].successorBackupId == SuccessorAt(ordered, i);
  }

  /** With unique ids the checks pass for every candidate the law allows. */
  lemma ChecksPassWithinLaw(c: BackupRecord, records: seq<BackupRecord>, env: string, kind: string, now: int)
    requires NoAliases(records) && UniqueIds(Data(records)) && c in records
    requires Bookkept(records, env, kind) && Deletable(c.data.backupId, Data(records), env, kind, now)
    ensures ChecksPass(c, records, env, kind, now)
  {
    hide Mine, EligibleSorted, FindById, Survivors, UniqueIds, Deletable, Before, Data, Ordered, Bookkept, NoAliases;
    var i, next, last := StandsBefore(c, records, env, kind, now);
    OtherSurvives(c, next, records, env, kind);
    OtherSurvives(c, last, records, env, kind);
    FoundById(next, records);
    BookkeptAt(records, env, kind, i);
  }

  /** Some other chain-advancing record would remain. */
  predicate Survivors(records: seq<BackupRecord>, env: string, kind: string, id: string) {
    exists i :: 0 <= i < |records| && records[i].data.Advances(env, kind) && records[i].data.backupId != id
  }

  /** All seven checks and the floor, as one condition on the candidate's place in the ordered chain. */
  ghost predicate ChecksPass(c: BackupRecord, records: seq<BackupRecord>, env: string, kind: string, now: int)
    reads c
  {
    var head := NewestProtected(records, env, kind);
    && (head.Some? ==> head.value.data.backupId != c.data.backupId)
    && c.successorBackupId.Some?
    && var s := FindById(c.successorBackupId.value, records);
    && s.Some? && s.value.data.environment == c.data.environment && s.value.data.backupType == c.data.backupType
    && s.value.data.CanAdvance()
    && c.retentionExpiresAt.Some? && c.retentionExpiresAt.value <= now
    && Survivors(records, env, kind, c.data.backupId)
  }

  function Noted(reasons: seq<Reason>, fails: bool, reason: Reason): seq<Reason> {
    if fails then reasons + [reason] else reasons
  }

  /** Every fault of a successor that was found, behind `reasons`. */
  function SuccessorFaults(reasons: seq<Reason>, s: Evidence, c: Evidence): seq<Reason> {
    var r1 := Noted(reasons, s.environment != c.environment, SuccessorEnvironment);
    var r2 := Noted(r1, s.backupType != c.backupType, SuccessorType);
    var r3 := Noted(r2, !s.IntegrityVerified(), SuccessorNotVerified);
    var r4 := Noted(r3, !s.StorageVerified(), SuccessorStorageNotVerified);
    Noted(r4, s.storedAt.None?, SuccessorNotStored)
  }

  /** Every check that fails, in the order of the checks. */
  ghost function Faults(c: BackupRecord, records: seq<BackupRecord>, env: string, kind: string, now: int): seq<Reason>
    reads c
  {
    var head := NewestProtected(records, env, kind);
    var r1 := Noted([], head.Some? && head.value.data.backupId == c.data.backupId, IsNewest);
    var found := if c.successorBackupId.None? then None else FindById(c.successorBackupId.value, records);
    var r2 := Noted(r1, found.None?, if c.successorBackupId.None? then NoSuccessor else SuccessorGone);
    var r3 := if found.Some? then SuccessorFaults(r2, found.value.data, c.data) else r2;
    var r4 := if c.retentionExpiresAt.None? then Noted(r3, c.successorBackupId.Some?, RetentionNotStarted)
              else Noted(r3, now < c.retentionExpiresAt.value, WindowOpen);
    Noted(r4, !Survivors(records, env, kind, c.data.backupId), WouldEmptyChain)
  }

  lemma SurvivorsOnFields(c: BackupRecord, records: seq<BackupRecord>, env: string, kind: string)
    ensures Survivors(records, env, kind, c.data.backupId) <==> AnotherStands(c.data, Data(records), env, kind)
  {
    var es := Data(records);
    forall i | 0 <= i < |records|
      ensures records[i].data.Advances(env, kind) <==> StandsInChain(es[i], env, kind)
    {
      AdvancesOnFields(es[i], env, kind);
    }
    hide StandsInChain;
    if AnotherStands(c.data, es, env, kind) {
      var j :| 0 <= j < |es| && StandsInChain(es[j], env, kind) && es[j].backupId != c.data.backupId;
      assert records[j].data.Advances(env, kind);
    }
  }

  /** A record that cannot advance the chain has neither successor nor timer, and is not its head. */
  lemma FaultsOfOutsider(c: BackupRecord, records: seq<BackupRecord>, env: string, kind: string, now: int)
    requires NoAliases(records) && UniqueIds(Data(records)) && c in records && c.data.InChain(env, kind)
    requires Bookkept(records, env, kind) && !StandsInChain(c.data, env, kind)
    ensures Faults(c, records, env, kind, now)
         == [NoSuccessor] + if Survivors(records, env, kind, c.data.backupId) then [] else [WouldEmptyChain]
  {
    AdvancesOnFields(c.data, env, kind);
    MineMembers(records, env, kind);
    HeadOnFields(records, env, kind);
    hide Mine, EligibleSorted, FindById, Survivors, UniqueIds, Data, Ordered, NoAliases, StandsInChain, NewestProtected;
    var head := NewestProtected(records, env, kind);
    if head.Some? && head.value.data.backupId == c.data.backupId {
      UniqueRecord(records, head.value, c);
    }
  }

  /** Where a record of the chain stands. */
  lemma PlaceInChain(c: BackupRecord, records: seq<BackupRecord>, env: string, kind: string) returns (i: nat)
    requires NoAliases(records) && c in records && StandsInChain(c.data, env, kind)
    ensures var ordered := EligibleSorted(Mine(records, env, kind));
            && NoAliases(ordered) && i < |ordered| && ordered[i] == c
            && ordered[|ordered| - 1] in records && NewestProtected(records, env, kind) == Some(ordered[|ordered| - 1])
            && (i + 1 < |ordered| ==> ordered[i + 1] in records && ordered[i + 1].data.Advances(env, kind))
  {
    var ordered := ChainInOrder(records, env, kind);
    AdvancesOnFields(c.data, env, kind);
    EligibleInChain(c, records, env, kind);
    hide Mine, EligibleSorted, Ordered, NoAliases, StandsInChain;
    i :| 0 <= i < |ordered| && ordered[i] == c;
    EligibleInChain(ordered[|ordered| - 1], records, env, kind);
    if i + 1 < |ordered| {
      EligibleInChain(ordered[i + 1], records, env, kind);
    }
  }

  lemma BookkeptEnd(records: seq<BackupRecord>, env: string, kind: string)
    requires Bookkept(records, env, kind) && EligibleSorted(Mine(records, env, kind)) != []
    ensures var ordered := EligibleSorted(Mine(records, env, kind));
            && ordered[|ordered| - 1].successorBackupId == None && ordered[|ordered| - 1].retentionExpiresAt == None
  {
    hide Mine, EligibleSorted, Before;
    var ordered := EligibleSorted(Mine(records, env, kind));
    assert ordered[|ordered| - 1].successorBackupId == SuccessorAt(ordered, |ordered| - 1);
  }

  /** The last of the chain is its head and has no successor. */
  lemma FaultsOfHead(c: BackupRecord, records: seq<BackupRecord>, env: string, kind: string, now: int, i: nat)
    requires NoAliases(records) && Bookkept(records, env, kind)
    requires var ordered := EligibleSorted(Mine(records, env, kind)); i + 1 == |ordered| && ordered[i] == c
    ensures Faults(c, records, env, kind, now)
         == [IsNewest, NoSuccessor] + if Survivors(records, env, kind, c.data.backupId) then [] else [WouldEmptyChain]
  {
    BookkeptEnd(records, env, kind);
    hide Mine, EligibleSorted, FindById, Survivors, Ordered, NoAliases, Bookkept;
  }

  /** The next record is found, others survive, and the head is another. */
  lemma NextIsSound(c: BackupRecord, records: seq<BackupRecord>, env: string, kind: string, i: nat)
    requires NoAliases(records) && UniqueIds(Data(records)) && Bookkept(records, env, kind) && c in records
    requires var ordered := EligibleSorted(Mine(records, env, kind));
             && i + 1 < |ordered| && ordered[i] == c && NoAliases(ordered)
             && ordered[|ordered| - 1] in records && ordered[i + 1] in records
             && ordered[i + 1].data.Advances(env, kind)
    ensures var ordered := EligibleSorted(Mine(records, env, kind));
            var next := ordered[i + 1];
            && c.successorBackupId == Some(next.data.backupId)
            && next.data.storedAt.Some? && c.retentionExpiresAt == Some(next.data.storedAt.value + RETENTION)
            && FindById(next.data.backupId, records) == Some(next)
            && Survivors(records, env, kind, c.data.backupId)
            && NewestProtected(records, env, kind).Some?
            && NewestProtected(records, env, kind).value.data.backupId != c.data.backupId
  {
    hide Mine, EligibleSorted, FindById, Survivors, Ordered, Bookkept, UniqueIds, Data, Before;
    BookkeptAt(records, env, kind, i);
    var ordered := EligibleSorted(Mine(records, env, kind));
    var next, last := ordered[i + 1], ordered[|ordered| - 1];
    DistinctPair(ordered, i, i + 1);
    DistinctPair(ordered, i, |ordered| - 1);
    hide NoAliases;
    OtherSurvives(c, next, records, env, kind);
    NotTheSame(records, last, c);
    FoundById(next, records);
  }

  /** Any other waits for fourteen days behind the next, and for nothing else. */
  lemma FaultsOfEarlier(c: BackupRecord, records: seq<BackupRecord>, env: string, kind: string, now: int, i: nat)
    requires NoAliases(records) && UniqueIds(Data(records)) && Bookkept(records, env, kind)
    requires c in records && StandsInChain(c.data, env, kind)
    requires var ordered := EligibleSorted(Mine(records, env, kind));
             && i + 1 < |ordered| && ordered[i] == c && NoAliases(ordered)
             && ordered[|ordered| - 1] in records && ordered[i + 1] in records
             && ordered[i + 1].data.Advances(env, kind)
    ensures var next := EligibleSorted(Mine(records, env, kind))[i + 1].data;
            Faults(c, records, env, kind, now) == if now < next.storedAt.value + RETENTION then [WindowOpen] else []
  {
    NextIsSound(c, records, env, kind, i);
    hide Mine, EligibleSorted, FindById, Survivors, Ordered, Bookkept, UniqueIds, Data, NewestProtected, NoAliases,
      StandsInChain;
  }

  /** The window of the next record is over exactly when some later record outlasts. */
  lemma WindowOnFields(c: BackupRecord, records: seq<BackupRecord>, env: string, kind: string, now: int, i: nat)
    requires NoAliases(records) && UniqueIds(Data(records)) && c in records && StandsInChain(c.data, env, kind)
    requires var ordered := EligibleSorted(Mine(records, env, kind)); i + 1 < |ordered| && ordered[i] == c
    requires EligibleSorted(Mine(records, env, kind))[i + 1] in records
    ensures LaterStands(c.data, Data(records), env, kind)
    ensures var next := EligibleSorted(Mine(records, env, kind))[i + 1].data;
            && next.storedAt.Some?
            && (now < next.storedAt.value + RETENTION <==> !Outlasted(c.data, Data(records), env, kind, now))
  {
    NextIsSuccessor(records, env, kind, i);
    hide Mine, EligibleSorted, NoAliases, UniqueIds, StandsInChain, Text.Less;
    var next := EligibleSorted(Mine(records, env, kind))[i + 1];
    var n :| 0 <= n < |records| && records[n] == next;
    var es := Data(records);
    assert StandsInChain(es[n], env, kind) && StoredLater(c.data, es[n]);
    if Outlasted(c.data, es, env, kind, now) {
      var j :| 0 <= j < |es| && StandsInChain(es[j], env, kind) && Outlasts(c.data, es[j], now);
      assert !StoredLater(es[j], next.data);
    } else {
      assert !Outlasts(c.data, es[n], now);
    }
  }

  /** The last of the chain has nothing later. */
  lemma HeadIsLatest(c: BackupRecord, records: seq<BackupRecord>, env: string, kind: string)
    requires NoAliases(records) && NewestProtected(records, env, kind) == Some(c) && c.data.storedAt.Some?
    ensures !LaterStands(c.data, Data(records), env, kind)
  {
    HeadOnFields(records, env, kind);
    hide NewestProtected, NoAliases, StandsInChain, StoredLater;
    var es := Data(records);
    forall j | 0 <= j < |es| && StandsInChain(es[j], env, kind)
      ensures !StoredLater(c.data, es[j])
    {
      assert records[j].data == es[j];
    }
  }

  /** With unique ids, the failing checks of a record of the chain, on the fields. */
  lemma FaultsOnFields(c: BackupRecord, records: seq<BackupRecord>, env: string, kind: string, now: int)
    requires NoAliases(records) && UniqueIds(Data(records)) && c in records && c.data.InChain(env, kind)
    requires Bookkept(records, env, kind)
    ensures ReasonsOnFields(Faults(c, records, env, kind, now), c.data, Data(records), env, kind, now)
  {
    hide Faults, Bookkept, Mine, EligibleSorted, Survivors, AnotherStands, LaterStands, Outlasted, NoAliases, Data,
      UniqueIds, NewestProtected;
    SurvivorsOnFields(c, records, env, kind);
    if !StandsInChain(c.data, env, kind) {
      FaultsOfOutsider(c, records, env, kind, now);
    } else {
      var i := PlaceInChain(c, records, env, kind);
      if i + 1 < |EligibleSorted(Mine(records, env, kind))| {
        FaultsOfEarlier(c, records, env, kind, now, i);
        WindowOnFields(c, records, env, kind, now, i);
      } else {
        FaultsOfHead(c, records, env, kind, now, i);
        HeadIsLatest(c, records, env, kind);
      }
    }
  }

  lemma NoFaultsPass(c: BackupRecord, records: seq<BackupRecord>, env: string, kind: string, now: int)
    ensures Faults(c, records, env, kind, now) == [] <==> ChecksPass(c, records, env, kind, now)
  {
    hide NewestProtected, FindById, Survivors;
  }

  /** The law on records, on the fields of their evidence. */
  lemma LawOnRecords(id: string, records: seq<BackupRecord>, env: string, kind: string, now: int)
    ensures Deletable(id, Data(records), env, kind, now) ==>
              exists i :: 0 <= i < |records| && records[i].data.backupId == id
                          && Outlasted(records[i].data, Data(records), env, kind, now)
    ensures UniqueIds(Data(records)) ==>
              forall i :: 0 <= i < |records| && records[i].data.backupId == id
                          && Outlasted(records[i].data, Data(records), env, kind, now) ==>
                Deletable(id, Data(records), env, kind, now)
  {
    hide Outlasted, Deletable, UniqueIds, Data;
    var es := Data(records);
    if Deletable(id, es, env, kind, now) {
      DeletableOnFields(id, es, env, kind, now);
      var i :| 0 <= i < |es| && es[i].backupId == id && Outlasted(es[i], es, env, kind, now);
      assert records[i].data == es[i];
    }
    forall i | UniqueIds(es) && 0 <= i < |records| && records[i].data.backupId == id
               && Outlasted(records[i].data, es, env, kind, now)
      ensures Deletable(id, es, env, kind, now)
    {
      assert es[i] == records[i].data;
      OutlastedIsDeletable(es, i, env, kind, now);
    }
  }

  /** The checks one by one, on a candidate whose chain was just computed. */
  method SevenChecks(candidate: BackupRecord, records: seq<BackupRecord>, env: string, kind: string, now: int)
    returns (reasons: seq<Reason>)
    ensures reasons == Faults(candidate, records, env, kind, now)
  {
    hide NewestProtected, FindById, Survivors;
    var head := NewestProtected(records, env, kind);
    reasons := [];
    if head.Some? && head.value.data.backupId == candidate.data.backupId {
      reasons := reasons + [IsNewest];
    }
    var successorId := candidate.successorBackupId;
    var successor: Option<BackupRecord> := None;
    if successorId.None? {
      reasons := reasons + [NoSuccessor];
    } else {
      successor := FindById(successorId.value, records);
      if successor.None? {
        reasons := reasons + [SuccessorGone];
      }
    }
    if successor.Some? {
      var s := successor.value.data;
      if s.environment != candidate.data.environment {
        reasons := reasons + [SuccessorEnvironment];
      }
      if s.backupType != candidate.data.backupType {
        reasons := reasons + [SuccessorType];
      }
      if !s.IntegrityVerified() {
        reasons := reasons + [SuccessorNotVerified];
      }
      if !s.StorageVerified() {
        reasons := reasons + [SuccessorStorageNotVerified];
      }
      if s.storedAt.None? {
        reasons := reasons + [SuccessorNotStored];
      }
    }
    if candidate.retentionExpiresAt.None? {
      if successorId.Some? {
        reasons := reasons + [RetentionNotStarted];
      }
    } else if now < candidate.retentionExpiresAt.value {
      reasons := reasons + [WindowOpen];
    }
    var survivors := Survivors(records, env, kind, candidate.data.backupId);
    if !survivors {
      reasons := reasons + [WouldEmptyChain];
    }
  }

  /** With unique ids, a record of the chain is the one match for its id. */
  lemma MatchesItself(id: string, records: seq<BackupRecord>, env: string, kind: string)
    requires UniqueIds(Data(records))
    ensures forall i :: 0 <= i < |records| && records[i].data.backupId == id
                        && records[i].data.environment == env && records[i].data.backupType == kind ==>
                          Matching(id, records, env, kind) == [records[i]]
  {
    hide Matching;
    forall i | 0 <= i < |records| && records[i].data.backupId == id
               && records[i].data.environment == env && records[i].data.backupType == kind
      ensures Matching(id, records, env, kind) == [records[i]]
    {
      OneMatch(id, records, env, kind, i);
    }
  }

  /** Whether one backup may go, and every check that says it may not. */
  method EvaluateDeletion(candidateId: string, records: seq<BackupRecord>, env: string, kind: string, now: int)
    returns (v: Verdict)
    requires NoAliases(records)
    modifies set r | r in records
    ensures v.allowed <==> v.reasons == []
    ensures |Matching(candidateId, records, env, kind)| == 1 ==> Bookkept(records, env, kind)
    ensures |Matching(candidateId, records, env, kind)| != 1 ==> forall r :: r in records ==> unchanged(r)
    ensures v.allowed ==> var matches := Matching(candidateId, records, env, kind);
                          && |matches| == 1 && matches[0].successorBackupId.Some?
                          && matches[0].retentionExpiresAt.Some? && matches[0].retentionExpiresAt.value <= now
    ensures v.allowed ==> Deletable(candidateId, Data(records), env, kind, now)
    ensures UniqueIds(Data(records)) && Deletable(candidateId, Data(records), env, kind, now) ==> v.allowed
    ensures v.allowed ==>
              exists i :: 0 <= i < |records| && records[i].data.backupId == candidateId
                          && Outlasted(records[i].data, Data(records), env, kind, now)
    ensures UniqueIds(Data(records)) ==>
              forall i :: 0 <= i < |records| && records[i].data.backupId == candidateId
                          && Outlasted(records[i].data, Data(records), env, kind, now) ==>
                v.allowed
    ensures ToldWhy(v.reasons, candidateId, Data(records), env, kind, now)
  {
    hide Mine, EligibleSorted, Matching, FindById, Survivors, UniqueIds, Deletable, Data, Bookkept, NoAliases,
      Outlasted, ReasonsOnFields;
    LawOnRecords(candidateId, records, env, kind, now);
    if UniqueIds(Data(records)) {
      MatchesItself(candidateId, records, env, kind);
    }
    var matches := Matching(candidateId, records, env, kind);
    if Deletable(candidateId, Data(records), env, kind, now) {
      DeletableMatchesOnce(candidateId, records, env, kind, now);
    }
    if matches == [] {
      return Verdict(false, [NotFound]);
    }
    assert matches[0] in matches;
    if |matches| > 1 {
      return Verdict(false, [Ambiguous(|matches|)]);
    }
    var candidate := matches[0];
    var _ := ComputeChain(records, env, kind);
    var reasons := SevenChecks(candidate, records, env, kind, now);
    NoFaultsPass(candidate, records, env, kind, now);
    if UniqueIds(Data(records)) {
      FaultsOnFields(candidate, records, env, kind, now);
    }
    if reasons == [] {
      ChecksPassOnlyWithinLaw(candidate, records, env, kind, now);
    }
    if UniqueIds(Data(records)) && Deletable(candidateId, Data(records), env, kind, now) {
      ChecksPassWithinLaw(candidate, records, env, kind, now);
    }
    v := Verdict(reasons == [], reasons);
  }

  // ---------------------------------------------------------------- the plan

  datatype Entry = Entry(
    backupId: string, environment: string, backupType: string,
    retentionExpiresAt: Option<int>, successorBackupId: Option<string>)

  datatype Plan = Plan(delete: seq<Entry>, retain: seq<(Entry, seq<Reason>)>)

  /** The ids of the records of `es` that the law lets go, judged against `all`, in order. */
  function Released(es: seq<Evidence>, all: seq<Evidence>, env: string, kind: string, now: int): seq<string> {
    if es == [] then []
    else
      var last := es[|es| - 1];
      Released(es[..|es| - 1], all, env, kind, now)
      + if Deletable(last.backupId, all, env, kind, now) then [last.backupId] else []
  }

  function ReleasedTypes(all: seq<Evidence>, env: string, kinds: seq<string>, now: int): seq<string> {
    if kinds == [] then []
    else
      var kind := kinds[|kinds| - 1];
      ReleasedTypes(all, env, kinds[..|kinds| - 1], now) + Released(ChainOf(all, env, kind), all, env, kind, now)
  }

  function ReleasedAll(all: seq<Evidence>, envs: seq<string>, kinds: seq<string>, now: int): seq<string> {
    if envs == [] then []
    else ReleasedAll(all, envs[..|envs| - 1], kinds, now) + ReleasedTypes(all, envs[|envs| - 1], kinds, now)
  }

  function EntryIds(es: seq<Entry>): (ids: seq<string>)
    ensures |ids| == |es|
    ensures forall i :: 0 <= i < |es| ==> ids[i] == es[i].backupId
  {
    seq(|es|, i requires 0 <= i < |es| => es[i].backupId)
  }

  /** The entry names a record of its chain, its immediate successor, and the end of fourteen days behind it. */
  ghost predicate EntryAsLaw(e: Entry, es: seq<Evidence>, now: int) {
    exists i: nat, j: nat :: EntryNames(e, es, now, i, j)
  }

  predicate EntryNames(e: Entry, es: seq<Evidence>, now: int, i: nat, j: nat) {
    && i < |es| && j < |es| && es[i].backupId == e.backupId
    && StandsInChain(es[i], e.environment, e.backupType)
    && IsSuccessor(es[i], es[j], es, e.environment, e.backupType)
    && e.successorBackupId == Some(es[j].backupId)
    && e.retentionExpiresAt == Some(es[j].storedAt.value + 14 * 24 * 3600 * 1000000)
    && es[j].storedAt.value + 14 * 24 * 3600 * 1000000 <= now
  }

  /** Behind its place in the ordered chain stands a record's immediate successor. */
  lemma NextIsSuccessor(records: seq<BackupRecord>, env: string, kind: string, k: nat)
    requires NoAliases(records) && UniqueIds(Data(records))
    requires k + 1 < |EligibleSorted(Mine(records, env, kind))|
    ensures var ordered := EligibleSorted(Mine(records, env, kind));
            && StandsInChain(ordered[k].data, env, kind)
            && IsSuccessor(ordered[k].data, ordered[k + 1].data, Data(records), env, kind)
  {
    hide Mine, EligibleSorted, Data, UniqueIds, NoAliases, Ordered, Text.Less;
    var ordered := ChainInOrder(records, env, kind);
    var c, next := ordered[k], ordered[k + 1];
    EligibleInChain(c, records, env, kind);
    EligibleInChain(next, records, env, kind);
    OrderedPair(ordered, k, k + 1);
    DistinctPair(ordered, k, k + 1);
    NotTheSame(records, c, next);
    BeforeTotal(c.data, next.data);
    forall j | 0 <= j < |records| && StandsInChain(records[j].data, env, kind) && StoredLater(c.data, records[j].data)
      ensures !StoredLater(records[j].data, next.data)
    {
      EligibleInChain(records[j], records, env, kind);
      LaterInChain(ordered, k, records[j]);
    }
  }

  lemma OrderedPair(rs: seq<BackupRecord>, i: nat, j: nat)
    requires Ordered(rs) && i < j < |rs|
    ensures !Before(rs[j].data, rs[i].data)
  {
  }

  lemma NotTheSame(records: seq<BackupRecord>, a: BackupRecord, b: BackupRecord)
    requires UniqueIds(Data(records)) && a in records && b in records && a != b
    ensures a.data.backupId != b.data.backupId
  {
    hide UniqueIds, Data;
    if a.data.backupId == b.data.backupId {
      UniqueRecord(records, a, b);
    }
  }

  lemma LaterInChain(ordered: seq<BackupRecord>, k: nat, r: BackupRecord)
    requires Ordered(ordered) && k + 1 < |ordered| && r in ordered && Before(ordered[k].data, r.data)
    ensures !Before(r.data, ordered[k + 1].data)
  {
    var m :| 0 <= m < |ordered| && ordered[m] == r;
    BeforeTotal(r.data, r.data);
    BeforeTotal(ordered[k].data, ordered[k].data);
  }

  /** A record that the checks let go has its entry written as the law says. */
  lemma AllowedEntry(r: BackupRecord, records: seq<BackupRecord>, env: string, kind: string, now: int)
    requires NoAliases(records) && UniqueIds(Data(records)) && r in records
    requires Bookkept(records, env, kind) && Deletable(r.data.backupId, Data(records), env, kind, now)
    requires r.retentionExpiresAt.Some? && r.retentionExpiresAt.value <= now
    ensures EntryAsLaw(Entry(r.data.backupId, env, kind, r.retentionExpiresAt, r.successorBackupId), Data(records), now)
  {
    hide Mine, EligibleSorted, Data, UniqueIds, NoAliases, Text.Less, Deletable, Bookkept, Ordered, IsSuccessor;
    var k, next, last := StandsBefore(r, records, env, kind, now);
    BookkeptAt(records, env, kind, k);
    NextIsSuccessor(records, env, kind, k);
    var i :| 0 <= i < |records| && records[i] == r;
    var j :| 0 <= j < |records| && records[j] == next;
    assert Data(records)[i] == r.data && Data(records)[j] == next.data;
    assert EntryNames(Entry(r.data.backupId, env, kind, r.retentionExpiresAt, r.successorBackupId), Data(records), now,
                      i, j);
  }

  predicate TimersRan(es: seq<Entry>, now: int) {
    forall e :: e in es ==> e.successorBackupId.Some? && e.retentionExpiresAt.Some? && e.retentionExpiresAt.value <= now
  }

  lemma {:induction false} MineIsChain(records: seq<BackupRecord>, env: string, kind: string)
    ensures Data(Mine(records, env, kind)) == ChainOf(Data(records), env, kind)
  {
    if records != [] {
      MineIsChain(records[1..], env, kind);
      assert Data(records[1..]) == Data(records)[1..];
      assert Data(records)[0] == records[0].data;
    } else {
      assert Data(records) == [];
    }
  }

  lemma ReleasedStep(rs: seq<BackupRecord>, i: nat, all: seq<Evidence>, env: string, kind: string, now: int)
    requires i < |rs|
    ensures Released(Data(rs[..i + 1]), all, env, kind, now)
         == Released(Data(rs[..i]), all, env, kind, now)
            + if Deletable(rs[i].data.backupId, all, env, kind, now) then [rs[i].data.backupId] else []
  {
    assert Data(rs[..i + 1])[..i] == Data(rs[..i]);
  }

  lemma OnlyMatch(r: BackupRecord, records: seq<BackupRecord>, env: string, kind: string)
    requires r in records && r.data.InChain(env, kind)
    requires |Matching(r.data.backupId, records, env, kind)| == 1
    ensures Matching(r.data.backupId, records, env, kind) == [r]
  {
    assert r in Matching(r.data.backupId, records, env, kind);
  }

  lemma AppendEntry(es: seq<Entry>, e: Entry)
    ensures EntryIds(es + [e]) == EntryIds(es) + [e.backupId]
  {
  }

  /** Every entry is written as the law says, for chains of these environments and types. */
  ghost predicate AsLaw(entries: seq<Entry>, es: seq<Evidence>, envs: seq<string>, kinds: seq<string>, now: int) {
    forall e :: e in entries ==> EntryAsLaw(e, es, now) && e.environment in envs && e.backupType in kinds
  }

  lemma AsLawNext(entries: seq<Entry>, e: Entry, es: seq<Evidence>, envs: seq<string>, kinds: seq<string>, now: int)
    requires AsLaw(entries, es, envs, kinds, now)
    requires EntryAsLaw(e, es, now) && e.environment in envs && e.backupType in kinds
    ensures AsLaw(entries + [e], es, envs, kinds, now)
  {
    hide EntryAsLaw;
  }

  /** Each backup that stays is told why. */
  predicate AllToldWhy(retain: seq<(Entry, seq<Reason>)>, es: seq<Evidence>, now: int) {
    forall i :: 0 <= i < |retain| ==>
      ToldWhy(retain[i].1, retain[i].0.backupId, es, retain[i].0.environment, retain[i].0.backupType, now)
  }

  lemma ToldWhyNext(retain: seq<(Entry, seq<Reason>)>, e: Entry, reasons: seq<Reason>, es: seq<Evidence>, now: int)
    requires AllToldWhy(retain, es, now) && ToldWhy(reasons, e.backupId, es, e.environment, e.backupType, now)
    ensures AllToldWhy(retain + [(e, reasons)], es, now)
  {
    hide ToldWhy;
  }

  /** One chain of the plan: every record is re-judged, and lands in exactly one list. */
  method PlanChain(records: seq<BackupRecord>, env: string, kind: string, now: int, plan: Plan,
                   ghost envs: seq<string>, ghost kinds: seq<string>)
    returns (out: Plan)
    requires NoAliases(records) && TimersRan(plan.delete, now) && env in envs && kind in kinds
    requires UniqueIds(Data(records)) ==> AsLaw(plan.delete, Data(records), envs, kinds, now)
    requires AllToldWhy(plan.retain, Data(records), now)
    modifies set r | r in records
    ensures TimersRan(out.delete, now)
    ensures AllToldWhy(out.retain, Data(records), now)
    ensures |out.delete| + |out.retain| == |plan.delete| + |plan.retain| + |Mine(records, env, kind)|
    ensures UniqueIds(Data(records)) ==>
              EntryIds(out.delete)
              == EntryIds(plan.delete) + Released(ChainOf(Data(records), env, kind), Data(records), env, kind, now)
    ensures UniqueIds(Data(records)) ==> AsLaw(out.delete, Data(records), envs, kinds, now)
  {
    hide Mine, Matching, UniqueIds, Deletable, Bookkept, NoAliases, ChainOf, Released, AsLaw, EntryAsLaw, Outlasted,
      ToldWhy, AllToldWhy;
    var chain := ComputeChain(records, env, kind);
    MineMembers(records, env, kind);
    MineIsChain(records, env, kind);
    ghost var all := Data(records);
    out := plan;
    ReleasedNone(chain, all, env, kind, now);
    assert EntryIds(plan.delete) + [] == EntryIds(plan.delete);
    for i := 0 to |chain|
      invariant TimersRan(out.delete, now)
      invariant |out.delete| + |out.retain| == |plan.delete| + |plan.retain| + i
      invariant UniqueIds(all) ==>
                  EntryIds(out.delete) == EntryIds(plan.delete) + Released(Data(chain[..i]), all, env, kind, now)
      invariant UniqueIds(all) ==> AsLaw(out.delete, all, envs, kinds, now)
      invariant AllToldWhy(out.retain, all, now)
    {
      var record := chain[i];
      var verdict := EvaluateDeletion(record.data.backupId, records, env, kind, now);
      var entry := Entry(record.data.backupId, env, kind, record.retentionExpiresAt, record.successorBackupId);
      ReleasedStep(chain, i, all, env, kind, now);
      if verdict.allowed {
        OnlyMatch(record, records, env, kind);
        AppendEntry(out.delete, entry);
        if UniqueIds(all) {
          AllowedEntry(record, records, env, kind, now);
          AsLawNext(out.delete, entry, all, envs, kinds, now);
        }
        out := out.(delete := out.delete + [entry]);
      } else {
        ToldWhyNext(out.retain, entry, verdict.reasons, all, now);
        out := out.(retain := out.retain + [(entry, verdict.reasons)]);
      }
    }
    assert chain[..|chain|] == chain;
  }

  lemma ReleasedNone(rs: seq<BackupRecord>, all: seq<Evidence>, env: string, kind: string, now: int)
    ensures Released(Data(rs[..0]), all, env, kind, now) == []
  {
  }

  method PlanDeletions(records: seq<BackupRecord>, now: int, envs: seq<string>, kinds: seq<string>) returns (plan: Plan)
    requires NoAliases(records)
    modifies set r | r in records
    ensures TimersRan(plan.delete, now)
    ensures UniqueIds(Data(records)) ==> EntryIds(plan.delete) == ReleasedAll(Data(records), envs, kinds, now)
    ensures UniqueIds(Data(records)) ==> AsLaw(plan.delete, Data(records), envs, kinds, now)
    ensures AllToldWhy(plan.retain, Data(records), now)
  {
    hide Mine, UniqueIds, Deletable, NoAliases, ChainOf, Released, EntryAsLaw, ToldWhy;
    plan := Plan([], []);
    for i := 0 to |envs|
      invariant TimersRan(plan.delete, now) && AllToldWhy(plan.retain, Data(records), now)
      invariant UniqueIds(Data(records)) ==> AsLaw(plan.delete, Data(records), envs, kinds, now)
      invariant UniqueIds(Data(records)) ==> EntryIds(plan.delete) == ReleasedAll(Data(records), envs[..i], kinds, now)
    {
      ghost var before := plan;
      assert envs[..i + 1][..i] == envs[..i];
      for j := 0 to |kinds|
        invariant TimersRan(plan.delete, now) && AllToldWhy(plan.retain, Data(records), now)
        invariant UniqueIds(Data(records)) ==> AsLaw(plan.delete, Data(records), envs, kinds, now)
        invariant UniqueIds(Data(records)) ==>
                    EntryIds(plan.delete)
                    == EntryIds(before.delete) + ReleasedTypes(Data(records), envs[i], kinds[..j], now)
      {
        plan := PlanChain(records, envs[i], kinds[j], now, plan, envs, kinds);
        assert kinds[..j + 1][..j] == kinds[..j];
      }
      assert kinds[..|kinds|] == kinds;
    }
    assert envs[..|envs|] == envs;
  }
}
