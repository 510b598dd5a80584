/**
 Account creation under a per-user promise chain: every call counts, suspends, and creates or is
 rejected; calls of one user wait for the one queued before them, calls of others and deletions
 interleave freely, and any call may fail.
 */
module AccountQuota {
  import opened Wrappers
  import opened AccountStore

  datatype Pc =
    | Waiting
    | Counted(count: nat)
    | Created(id: string)
    | Rejected(count: nat)
    | Failed

  /** A queued call: `max` is none for an unlimited plan, `prev` the call whose promise it waits for. */
  datatype Task = Task(userId: string, max: Option<nat>, prev: Option<nat>, pc: Pc)

  /** `locks` holds, per user, the call queued last. */
  datatype State = State(accounts: Accounts, locks: map<string, nat>, tasks: seq<Task>)

  predicate Settled(t: Task) {
    t.pc.Created? || t.pc.Rejected? || t.pc.Failed?
  }

  /** The promise a waiting call hangs on has settled, whether it was kept or broken. */
  predicate Ready(s: State, i: nat)
    requires i < |s.tasks|
  {
    s.tasks[i].pc == Waiting
    && (s.tasks[i].prev.None? || (s.tasks[i].prev.value < |s.tasks| && Settled(s.tasks[s.tasks[i].prev.value])))
  }

  function At(s: State, i: nat, pc: Pc): State
    requires i < |s.tasks|
  {
    s.(tasks := s.tasks[i := s.tasks[i].(pc := pc)])
  }

  /** The store's `create`, under an id it never used. */
  predicate Creates(s: State, t: State, i: nat, record: AccountRecord) {
    && i < |s.tasks| && record.userId == s.tasks[i].userId && record.id !in s.accounts
    && t == At(s, i, Created(record.id)).(accounts := s.accounts[record.id := record])
  }

  datatype Step =
    | Enqueue(userId: string, max: Option<nat>)
    | Begin(i: nat)
    | CreateUnlimited(i: nat, record: AccountRecord)
    | Reject(i: nat)
    | CreateCounted(i: nat, record: AccountRecord)
    | Fail(i: nat)
    | Delete(id: string)

  predicate NextStep(s: State, t: State, step: Step) {
    match step
    case Enqueue(userId, max) =>
      var prev := if userId in s.locks then Some(s.locks[userId]) else None;
      t == s.(locks := s.locks[userId := |s.tasks|], tasks := s.tasks + [Task(userId, max, prev, Waiting)])
    case Begin(i) =>
      && i < |s.tasks| && Ready(s, i) && s.tasks[i].max.Some?
      && t == At(s, i, Counted(Count(s.accounts, s.tasks[i].userId)))
    case CreateUnlimited(i, record) =>
      i < |s.tasks| && Ready(s, i) && s.tasks[i].max.None? && Creates(s, t, i, record)
    case Reject(i) =>
      && i < |s.tasks| && s.tasks[i].pc.Counted? && s.tasks[i].max.Some? && s.tasks[i].pc.count >= s.tasks[i].max.value
      && t == At(s, i, Rejected(s.tasks[i].pc.count))
    case CreateCounted(i, record) =>
      && i < |s.tasks| && s.tasks[i].pc.Counted? && s.tasks[i].max.Some? && s.tasks[i].pc.count < s.tasks[i].max.value
      && Creates(s, t, i, record)
    case Fail(i) =>
      i < |s.tasks| && (Ready(s, i) || s.tasks[i].pc.Counted?) && t == At(s, i, Failed)
    case Delete(id) =>
      t == s.(accounts := s.accounts - {id})
  }

  ghost predicate Next(s: State, t: State) {
    exists step :: NextStep(s, t, step)
  }

  // ---------------------------------------------------------------- what every step keeps

  /** `j` is the call of the same user queued last before `i`. */
  predicate Precedes(s: State, j: nat, i: nat)
    requires i <= |s.tasks|
  {
    && j < i
    && forall k :: j < k < i ==> s.tasks[k].userId != s.tasks[j].userId
  }

  /** The chain: each call hangs on the previous one of its user, and the lock on the last. */
  predicate Chained(s: State) {
    && (forall i :: 0 <= i < |s.tasks| ==>
          match s.tasks[i].prev
          case Some(j) => Precedes(s, j, i) && s.tasks[j].userId == s.tasks[i].userId
          case None => forall k :: 0 <= k < i ==> s.tasks[k].userId != s.tasks[i].userId)
    && (forall u :: u in s.locks ==> Precedes(s, s.locks[u], |s.tasks|) && s.tasks[s.locks[u]].userId == u)
    && (forall i :: 0 <= i < |s.tasks| ==> s.tasks[i].userId in s.locks)
  }

  /** A call that started has only settled calls of its user before it. */
  predicate InOrder(s: State) {
    forall i, j :: 0 <= j < i < |s.tasks| && s.tasks[j].userId == s.tasks[i].userId && s.tasks[i].pc != Waiting ==>
      Settled(s.tasks[j])
  }

  /** While a call is suspended, its user's accounts only went down. */
  predicate Fresh(s: State) {
    forall i :: 0 <= i < |s.tasks| && s.tasks[i].pc.Counted? ==>
                  s.tasks[i].max.Some? && Count(s.accounts, s.tasks[i].userId) <= s.tasks[i].pc.count
  }

  predicate Inv(s: State) {
    Chained(s) && InOrder(s) && Fresh(s)
  }

  predicate Init(s: State) {
    s.locks == map[] && s.tasks == []
  }

  /** All earlier calls of a ready call's user are settled. */
  lemma ReadyIsNext(s: State, i: nat, j: nat)
    requires Chained(s) && InOrder(s) && i < |s.tasks| && Ready(s, i) && j < i && s.tasks[j].userId == s.tasks[i].userId
    ensures Settled(s.tasks[j])
  {
    var p := s.tasks[i].prev;
    assert p.Some?;
    if j != p.value {
      assert Precedes(s, p.value, i);
      assert j < p.value;
    }
  }

  lemma SameChain(s: State, t: State)
    requires Chained(s) && t.locks == s.locks && |t.tasks| == |s.tasks|
    requires forall i :: 0 <= i < |s.tasks| ==>
        t.tasks[i].userId == s.tasks[i].userId && t.tasks[i].prev == s.tasks[i].prev
    ensures Chained(t)
  {
    forall i | 0 <= i < |t.tasks| && t.tasks[i].prev.Some?
      ensures Precedes(t, t.tasks[i].prev.value, i)
    {
      assert Precedes(s, s.tasks[i].prev.value, i);
    }
    forall u | u in t.locks
      ensures Precedes(t, t.locks[u], |t.tasks|)
    {
      assert Precedes(s, s.locks[u], |s.tasks|);
    }
  }

  lemma EnqueueKeeps(s: State, t: State, userId: string, max: Option<nat>)
    requires Inv(s) && NextStep(s, t, Enqueue(userId, max))
    ensures Inv(t)
  {
    hide Settled, Count;
    EnqueueChains(s, t, userId, max);
    hide Chained;
  }

  lemma EnqueueChains(s: State, t: State, userId: string, max: Option<nat>)
    requires Chained(s) && NextStep(s, t, Enqueue(userId, max))
    ensures Chained(t)
  {
    var n := |s.tasks|;
    forall i | 0 <= i < n && t.tasks[i].prev.Some?
      ensures Precedes(t, t.tasks[i].prev.value, i)
    {
      assert Precedes(s, s.tasks[i].prev.value, i);
    }
    forall u | u in t.locks
      ensures Precedes(t, t.locks[u], n + 1) && t.tasks[t.locks[u]].userId == u
    {
      if u != userId {
        assert Precedes(s, s.locks[u], n);
      }
    }
    if userId in s.locks {
      assert Precedes(s, s.locks[userId], n);
      assert Precedes(t, s.locks[userId], n);
    }
  }

  /** A ready or suspended call moves on and the accounts stay or lose some. */
  lemma MoveKeeps(s: State, t: State, i: nat, pc: Pc)
    requires Inv(s) && i < |s.tasks| && (Ready(s, i) || s.tasks[i].pc.Counted?) && pc != Waiting
    requires t == At(s, i, pc)
    requires pc.Counted? ==> s.tasks[i].max.Some? && pc.count == Count(s.accounts, s.tasks[i].userId) && Ready(s, i)
    ensures Inv(t)
  {
    hide Chained, Count;
    SameChain(s, t);
    OnlyThisRuns(s, t, i);
  }

  lemma OnlyThisRuns(s: State, t: State, i: nat)
    requires Chained(s) && InOrder(s) && i < |s.tasks| && (Ready(s, i) || s.tasks[i].pc.Counted?)
    requires |t.tasks| == |s.tasks| && t.tasks[i].userId == s.tasks[i].userId && t.tasks[i].pc != Waiting
    requires forall j :: 0 <= j < |s.tasks| && j != i ==> t.tasks[j] == s.tasks[j]
    ensures InOrder(t)
    ensures forall j :: 0 <= j < |s.tasks| && j != i && s.tasks[j].userId == s.tasks[i].userId ==>
        !s.tasks[j].pc.Counted?
  {
    hide Chained;
    forall j | 0 <= j < i && s.tasks[j].userId == s.tasks[i].userId
      ensures Settled(s.tasks[j])
    {
      if Ready(s, i) {
        ReadyIsNext(s, i, j);
      }
    }
    hide Ready;
    forall j | i < j < |s.tasks| && s.tasks[j].userId == s.tasks[i].userId
      ensures s.tasks[j].pc == Waiting
    {
      NotSettled(s, i);
    }
  }

  lemma NotSettled(s: State, i: nat)
    requires i < |s.tasks| && (s.tasks[i].pc == Waiting || s.tasks[i].pc.Counted?)
    ensures !Settled(s.tasks[i])
  {
  }

  lemma CreateKeeps(s: State, t: State, i: nat, record: AccountRecord)
    requires Inv(s) && i < |s.tasks| && (Ready(s, i) || s.tasks[i].pc.Counted?) && Creates(s, t, i, record)
    ensures Inv(t)
  {
    hide Chained, Count;
    SameChain(s, t);
    OnlyThisRuns(s, t, i);
    forall j | 0 <= j < |t.tasks| && t.tasks[j].pc.Counted?
      ensures Count(t.accounts, t.tasks[j].userId) <= t.tasks[j].pc.count
    {
      CountAdded(s.accounts, record.id, record, s.tasks[j].userId);
    }
  }

  lemma DeleteKeeps(s: State, t: State, id: string)
    requires Inv(s) && t == s.(accounts := s.accounts - {id})
    ensures Inv(t)
  {
    hide Chained, Count;
    SameChain(s, t);
    forall j | 0 <= j < |t.tasks| && t.tasks[j].pc.Counted?
      ensures Count(t.accounts, t.tasks[j].userId) <= t.tasks[j].pc.count
    {
      CountRemoved(s.accounts, id, s.tasks[j].userId);
    }
  }

  lemma StepKeeps(s: State, t: State, step: Step)
    requires Inv(s) && NextStep(s, t, step)
    ensures Inv(t)
  {
    hide Inv, Count;
    match step
    case Enqueue(userId, max) => EnqueueKeeps(s, t, userId, max);
    case Begin(i) => MoveKeeps(s, t, i, Counted(Count(s.accounts, s.tasks[i].userId)));
    case CreateUnlimited(i, record) => CreateKeeps(s, t, i, record);
    case Reject(i) => MoveKeeps(s, t, i, Rejected(s.tasks[i].pc.count));
    case CreateCounted(i, record) => CreateKeeps(s, t, i, record);
    case Fail(i) => MoveKeeps(s, t, i, Failed);
    case Delete(id) => DeleteKeeps(s, t, id);
  }

  // ---------------------------------------------------------------- whole runs

  ghost predicate IsRun(run: seq<State>) {
    && run != [] && Init(run[0])
    && forall i :: 0 < i < |run| ==> Next(run[i - 1], run[i])
  }

  lemma {:induction false} RunKeeps(run: seq<State>, i: nat)
    requires IsRun(run) && i < |run|
    ensures Inv(run[i])
  {
    hide Inv, NextStep;
    if i == 0 {
      InitKeeps(run[0]);
    } else {
      RunKeeps(run, i - 1);
      assert Next(run[i - 1], run[i]);
      var step :| NextStep(run[i - 1], run[i], step);
      StepKeeps(run[i - 1], run[i], step);
    }
  }

  lemma InitKeeps(s: State)
    requires Init(s)
    ensures Inv(s)
  {
  }

  /** Each creation under a limited plan leaves the user's count within the quota the call read. */
  lemma CreationWithinQuota(run: seq<State>, n: nat, i: nat, record: AccountRecord)
    requires IsRun(run) && n + 1 < |run| && NextStep(run[n], run[n + 1], CreateCounted(i, record))
    ensures var task := run[n].tasks[i];
            task.max.Some? && Count(run[n + 1].accounts, task.userId) <= task.max.value
  {
    hide Count, Chained, InOrder, IsRun;
    RunKeeps(run, n);
    CountAdded(run[n].accounts, record.id, record, run[n].tasks[i].userId);
  }

  /** Every call of the user runs under a plan of at most `quota` accounts. */
  predicate Limited(s: State, userId: string, quota: nat) {
    forall i :: 0 <= i < |s.tasks| && s.tasks[i].userId == userId ==>
      s.tasks[i].max.Some? && s.tasks[i].max.value <= quota
  }

  lemma LimitedBefore(s: State, t: State, step: Step, userId: string, quota: nat)
    requires NextStep(s, t, step) && Limited(t, userId, quota)
    ensures Limited(s, userId, quota)
  {
    hide Ready, Count;
    assert |s.tasks| <= |t.tasks|;
    assert forall i :: 0 <= i < |s.tasks| ==>
      t.tasks[i].userId == s.tasks[i].userId && t.tasks[i].max == s.tasks[i].max;
  }

  lemma CountStep(s: State, t: State, step: Step, userId: string, quota: nat)
    requires Inv(s) && NextStep(s, t, step) && Limited(s, userId, quota) && Count(s.accounts, userId) <= quota
    ensures Count(t.accounts, userId) <= quota
  {
    hide Count, Chained, InOrder, Ready;
    match step
    case CreateUnlimited(i, record) => CountAdded(s.accounts, record.id, record, userId);
    case CreateCounted(i, record) => CountAdded(s.accounts, record.id, record, userId);
    case Delete(id) => CountRemoved(s.accounts, id, userId);
    case _ =>
  }

  /** A user whose calls all ran under the quota never has more accounts, in any state of any run. */
  lemma {:induction false} QuotaHolds(run: seq<State>, n: nat, userId: string, quota: nat)
    requires IsRun(run) && n < |run| && Limited(run[n], userId, quota)
    requires Count(run[0].accounts, userId) <= quota
    ensures Count(run[n].accounts, userId) <= quota
  {
    hide Inv, NextStep, Limited, Count;
    if n > 0 {
      assert Next(run[n - 1], run[n]);
      var step :| NextStep(run[n - 1], run[n], step);
      LimitedBefore(run[n - 1], run[n], step, userId, quota);
      QuotaHolds(run, n - 1, userId, quota);
      RunKeeps(run, n - 1);
      CountStep(run[n - 1], run[n], step, userId, quota);
    }
  }

  // ---------------------------------------------------------------- no call blocks the next

  /** The step that moves call `i` on. */
  function Move(s: State, i: nat, record: AccountRecord): Step
    requires i < |s.tasks|
  {
    if s.tasks[i].pc == Waiting then if s.tasks[i].max.Some? then Begin(i) else CreateUnlimited(i, record)
    else if s.tasks[i].pc.Counted? && s.tasks[i].max.Some? && s.tasks[i].pc.count < s.tasks[i].max.value then
      CreateCounted(i, record)
    else Reject(i)
  }

  /** Whatever became of the calls before it, the first unsettled call of a user can always move on. */
  lemma FirstUnsettledMoves(s: State, i: nat, record: AccountRecord) returns (t: State)
    requires Inv(s) && i < |s.tasks| && !Settled(s.tasks[i])
    requires forall j :: 0 <= j < i && s.tasks[j].userId == s.tasks[i].userId ==> Settled(s.tasks[j])
    requires record.userId == s.tasks[i].userId && record.id !in s.accounts
    ensures NextStep(s, t, Move(s, i, record))
    ensures s.tasks[i].pc.Counted? ==> Settled(t.tasks[i])
    ensures s.tasks[i].pc == Waiting ==> t.tasks[i].pc.Counted? || Settled(t.tasks[i])
  {
    hide Count;
    if s.tasks[i].prev.Some? {
      assert Precedes(s, s.tasks[i].prev.value, i);
    }
    var step := Move(s, i, record);
    t := if step.Begin? then At(s, i, Counted(Count(s.accounts, s.tasks[i].userId)))
         else if step.Reject? then At(s, i, Rejected(s.tasks[i].pc.count))
         else At(s, i, Created(record.id)).(accounts := s.accounts[record.id := record]);
  }
}
