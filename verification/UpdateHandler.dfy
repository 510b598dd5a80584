/**
 The claim store as an object, and the handler that drives it: every run of the handler is a run
 of one delivery of the claim protocol, and the counts add up to its re-claims.
 */
module UpdateHandler {
  import opened Wrappers
  import opened ClaimProtocol
  import Excerpt

  datatype Statement = ClaimSql | MarkSql | CountsSql

  datatype StoreError = StoreError(code: string)

  datatype ClaimResult = ClaimResult(claimed: bool, attempt: int)

  datatype StoreCounts = StoreCounts(rows: int, handled: int, failed: int, claimed: int, retries: int)

  // ---------------------------------------------------------------- counting

  function Having(rows: Table, outcome: Outcome): set<int> {
    set id | id in rows && rows[id].outcome == outcome
  }

  lemma SomeKey(rows: Table)
    requires rows != map[]
    ensures exists id :: id in rows
  {
    assert (forall id :: id !in rows) ==> rows == map[];
  }

  /** The sum of all attempt numbers, in whatever order the rows are visited. */
  ghost function SumAttempts(rows: Table): int {
    if rows == map[] then 0
    else
      SomeKey(rows);
      var id :| id in rows;
      rows[id].attempt + SumAttempts(rows - {id})
  }

  lemma {:induction false} SumWithout(rows: Table, id: int)
    requires id in rows
    ensures SumAttempts(rows) == rows[id].attempt + SumAttempts(rows - {id})
    decreases |rows|
  {
    var first :| first in rows && SumAttempts(rows) == rows[first].attempt + SumAttempts(rows - {first});
    if first != id {
      assert |rows - {first}| < |rows| && |rows - {id}| < |rows| by {
        assert (rows - {first}).Keys == rows.Keys - {first};
        assert (rows - {id}).Keys == rows.Keys - {id};
      }
      SumWithout(rows - {first}, id);
      SumWithout(rows - {id}, first);
      assert rows - {first} - {id} == rows - {id} - {first};
    }
  }

  lemma SumUpdated(rows: Table, id: int, row: Row)
    ensures SumAttempts(rows[id := row])
        == SumAttempts(rows) + row.attempt - (if id in rows then rows[id].attempt else 0)
  {
    SumWithout(rows[id := row], id);
    if id in rows {
      SumWithout(rows, id);
      assert rows[id := row] - {id} == rows - {id};
    } else {
      assert rows[id := row] - {id} == rows;
    }
  }

  ghost function Retries(rows: Table): int {
    SumAttempts(rows) - |rows|
  }

  lemma {:induction false} RetriesNonNegative(rows: Table)
    requires forall id :: id in rows ==> rows[id].attempt >= 1
    ensures Retries(rows) >= 0
    decreases |rows|
  {
    if rows != map[] {
      SomeKey(rows);
      var id :| id in rows;
      var rest := rows - {id};
      assert rest.Keys == rows.Keys - {id};
      SumWithout(rows, id);
      RetriesNonNegative(rest);
    }
  }

  // ---------------------------------------------------------------- the retry total over a run

  /** The step re-claims a failed row of some update. */
  ghost predicate Reclaiming(s: State, t: State) {
    exists id :: Reclaimed(s, t, id)
  }

  ghost function TotalReclaims(run: seq<State>, i: nat): nat
    requires i < |run|
  {
    if i == 0 then 0
    else TotalReclaims(run, i - 1) + if Reclaiming(run[i - 1], run[i]) then 1 else 0
  }

  lemma SizeUpdated(rows: Table, id: int, row: Row)
    ensures |rows[id := row]| == if id in rows then |rows| else |rows| + 1
  {
    assert rows[id := row].Keys == rows.Keys + {id};
    assert |rows.Keys| == |rows|;
    if id in rows {
      assert rows.Keys + {id} == rows.Keys;
    }
  }

  lemma RetriesUpdated(rows: Table, id: int, row: Row)
    ensures Retries(rows[id := row]) == Retries(rows) + row.attempt - (if id in rows then rows[id].attempt else 1)
  {
    SumUpdated(rows, id, row);
    SizeUpdated(rows, id, row);
  }

  lemma StepRetries(s: State, t: State, step: Step)
    requires Inv(s) && NextStep(s, t, step)
    ensures Retries(t.rows) == Retries(s.rows) + if Reclaiming(s, t) then 1 else 0
  {
    hide Retries, Sound, Apart, Excerpt.ExcerptOf;
    if t.rows != s.rows {
      var id := s.deliveries[step.d].update.id;
      assert id in t.rows && t.rows == s.rows[id := t.rows[id]];
      RetriesUpdated(s.rows, id, t.rows[id]);
      assert Reclaiming(s, t) <==> Reclaimed(s, t, id);
    }
  }

  /** `retries`, as the store reports it, counts the re-claims of the whole run. */
  lemma {:induction false} RetriesCountReclaims(run: seq<State>, i: nat)
    requires IsRun(run) && i < |run|
    ensures Retries(run[i].rows) == Retries(run[0].rows) + TotalReclaims(run, i)
  {
    hide Retries, Reclaiming, NextStep;
    if i > 0 {
      RetriesCountReclaims(run, i - 1);
      RunKeeps(run, i - 1);
      assert Next(run[i - 1], run[i]);
      var step :| NextStep(run[i - 1], run[i], step);
      StepRetries(run[i - 1], run[i], step);
    }
  }

  // ---------------------------------------------------------------- the store

  /** `faults` scripts how the next calls fare, with the error code of each, and runs out into success. */
  class D1TestStore {
    var rows: Table
    var issued: seq<Statement>
    var clock: int
    var faults: seq<(Fault, string)>

    constructor (rows: Table, clock: int, faults: seq<(Fault, string)>)
      ensures this.rows == rows && issued == [] && this.clock == clock && this.faults == faults
    {
      this.rows, issued, this.clock, this.faults := rows, [], clock, faults;
    }

    method NextFault() returns (f: Fault, code: string)
      modifies `faults
      ensures old(faults) == [] ==> f == Fine && faults == []
    {
      if faults == [] {
        f, code := Fine, "";
      } else {
        f, code, faults := faults[0].0, faults[0].1, faults[1..];
      }
    }

    /** One statement; an error is passed on to the caller. */
    method Claim(u: Update) returns (r: Result<ClaimResult, StoreError>, ghost fault: Fault)
      modifies this
      ensures issued == old(issued) + [ClaimSql]
      ensures clock == old(clock)
      ensures rows == if fault == FailsBefore then old(rows) else ClaimRows(old(rows), u, clock)
      ensures r.Success? <==> fault == Fine
      ensures r.Success? ==>
                && r.value.claimed == Claimable(old(rows), u.id)
                && r.value.attempt == if r.value.claimed then rows[u.id].attempt else 0
      ensures old(faults) == [] ==> fault == Fine && faults == []
    {
      issued := issued + [ClaimSql];
      var f, code := NextFault();
      fault := f;
      if f == FailsBefore {
        return Failure(StoreError(code)), fault;
      }
      var returned := None;
      if u.id !in rows {
        rows := rows[u.id :=
          Row(u.senderId, u.chatId, u.kind, Excerpt.ExcerptOf(u.text), clock, None, Claimed, None, 1)];
        returned := Some(1);
      } else if rows[u.id].outcome == Failed {
        var row := rows[u.id];
        rows := rows[u.id := row.(outcome := Claimed, errorCode := None, processedAt := None,
                                  textExcerpt := Excerpt.ExcerptOf(u.text), attempt := row.attempt + 1)];
        returned := Some(row.attempt + 1);
      }
      if f == FailsAfter {
        return Failure(StoreError(code)), fault;
      }
      r := Success(if returned.None? then ClaimResult(false, 0) else ClaimResult(true, returned.value));
    }

    method Mark(id: int, outcome: Outcome, errorCode: Option<string>)
      returns (r: Result<bool, StoreError>, ghost fault: Fault)
      modifies this
      ensures issued == old(issued) + [MarkSql]
      ensures clock == old(clock)
      ensures rows == if fault == FailsBefore then old(rows) else MarkRows(old(rows), id, outcome, errorCode, clock)
      ensures r.Success? <==> fault == Fine
      ensures r.Success? ==> r.value == Markable(old(rows), id)
      ensures old(faults) == [] ==> fault == Fine && faults == []
    {
      issued := issued + [MarkSql];
      var f, code := NextFault();
      fault := f;
      if f == FailsBefore {
        return Failure(StoreError(code)), fault;
      }
      var changes := 0;
      if id in rows && rows[id].outcome == Claimed {
        rows := rows[id := rows[id].(outcome := outcome, errorCode := errorCode, processedAt := Some(clock))];
        changes := 1;
      }
      if f == FailsAfter {
        return Failure(StoreError(code)), fault;
      }
      r := Success(changes > 0);
    }

    method Counts() returns (r: Result<StoreCounts, StoreError>)
      modifies `issued, `faults
      ensures issued == old(issued) + [CountsSql]
      ensures r.Success? ==>
                && r.value.rows == |rows|
                && r.value.handled == |Having(rows, Handled)|
                && r.value.failed == |Having(rows, Failed)|
                && r.value.claimed == |Having(rows, Claimed)|
                && r.value.retries == if Retries(rows) < 0 then 0 else Retries(rows)
      ensures old(faults) == [] ==> r.Success? && faults == []
    {
      issued := issued + [CountsSql];
      var f, code := NextFault();
      if f != Fine {
        return Failure(StoreError(code));
      }
      var rest := rows;
      var handled, failed, claimed, attempts := 0, 0, 0, 0;
      hide *;
      CountingStart(rows);
      while rest.Keys != {}
        invariant Counting(rows, rest, handled, failed, claimed, attempts)
        invariant issued == old(issued) + [CountsSql]
        invariant old(faults) == [] ==> faults == []
        decreases |rest.Keys|
      {
        var id :| id in rest.Keys;
        var row := rest[id];
        CountingStep(rows, rest, id, handled, failed, claimed, attempts);
        match row.outcome {
          case Handled => handled := handled + 1;
          case Failed => failed := failed + 1;
          case Claimed => claimed := claimed + 1;
        }
        attempts := attempts + row.attempt;
        rest := rest - {id};
      }
      CountingEnd(rows, rest, handled, failed, claimed, attempts);
      var total := handled + failed + claimed;
      r := Success(StoreCounts(total, handled, failed, claimed, if attempts - total > 0 then attempts - total else 0));
    }
  }

  /** The loop's variables when `rest` is still to be counted. */
  ghost predicate Counting(rows: Table, rest: Table, handled: int, failed: int, claimed: int, attempts: int) {
    && handled + |Having(rest, Handled)| == |Having(rows, Handled)|
    && failed + |Having(rest, Failed)| == |Having(rows, Failed)|
    && claimed + |Having(rest, Claimed)| == |Having(rows, Claimed)|
    && handled + failed + claimed + |rest.Keys| == |rows.Keys|
    && attempts + SumAttempts(rest) == SumAttempts(rows)
  }

  lemma CountingStart(rows: Table)
    ensures Counting(rows, rows, 0, 0, 0, 0)
  {
  }

  lemma CountingStep(rows: Table, rest: Table, id: int, handled: int, failed: int, claimed: int, attempts: int)
    requires Counting(rows, rest, handled, failed, claimed, attempts) && id in rest.Keys
    ensures var o := rest[id].outcome;
            Counting(rows, rest - {id},
                     handled + (if o == Handled then 1 else 0), failed + (if o == Failed then 1 else 0),
                     claimed + (if o == Claimed then 1 else 0), attempts + rest[id].attempt)
    ensures |(rest - {id}).Keys| < |rest.Keys|
  {
    hide SumAttempts, Having;
    SumWithout(rest, id);
    assert (rest - {id}).Keys == rest.Keys - {id};
    HavingWithout(rest, id, Handled);
    HavingWithout(rest, id, Failed);
    HavingWithout(rest, id, Claimed);
  }

  lemma CountingEnd(rows: Table, rest: Table, handled: int, failed: int, claimed: int, attempts: int)
    requires Counting(rows, rest, handled, failed, claimed, attempts) && rest.Keys == {}
    ensures handled == |Having(rows, Handled)| && failed == |Having(rows, Failed)| && claimed == |Having(rows, Claimed)|
    ensures handled + failed + claimed == |rows|
    ensures attempts - (handled + failed + claimed) == Retries(rows)
  {
    assert Having(rest, Handled) == {} && Having(rest, Failed) == {} && Having(rest, Claimed) == {};
    assert |rows.Keys| == |rows|;
  }

  lemma HavingSplit(rest: Table, id: int, o: Outcome)
    requires id in rest
    ensures id !in Having(rest - {id}, o)
    ensures Having(rest, o) == Having(rest - {id}, o) + if rest[id].outcome == o then {id} else {}
  {
  }

  lemma HavingWithout(rest: Table, id: int, o: Outcome)
    requires id in rest
    ensures |Having(rest, o)| == |Having(rest - {id}, o)| + if rest[id].outcome == o then 1 else 0
  {
    var less := Having(rest - {id}, o);
    assert (rest - {id}).Keys == rest.Keys - {id};
    HavingSplit(rest, id, o);
    hide Having;
    assert id !in less;
  }

  // ---------------------------------------------------------------- the handler

  /** A decoded update; `sender` is null when nobody verified sent it. */
  datatype Incoming = Incoming(id: int, sender: Option<int>, chatId: Option<int>, kind: Kind, text: Option<string>)

  /** What is recorded of a delivery: never the payload of a callback. */
  function RecordOf(update: Incoming, sender: int): Update {
    Update(update.id, sender, update.chatId, update.kind, if update.kind == CallbackQuery then None else update.text)
  }

  function One(rows: Table, u: Update, pc: Pc): State {
    State(rows, map[0 := Delivery(u, pc)])
  }

  lemma Extend(trace: seq<State>, t: State, step: Step)
    requires IsPath(trace) && NextStep(trace[|trace| - 1], t, step)
    ensures IsPath(trace + [t])
  {
    hide NextStep;
    var longer := trace + [t];
    forall i | 0 < i < |longer|
      ensures Next(longer[i - 1], longer[i])
    {
      if i < |trace| {
        assert Next(trace[i - 1], trace[i]);
      }
    }
  }

  /** Excerpting twice, in the handler and in the store, claims the same row. */
  lemma ClaimExcerptedTwice(rows: Table, u: Update, now: int)
    ensures ClaimRows(rows, u.(text := Excerpt.ExcerptOf(u.text)), now) == ClaimRows(rows, u, now)
  {
    Excerpt.ExcerptIdempotent(u.text);
  }

  // ---------------------------------------------------------------- what is left in the store

  /** The row of a claim that went through: a new one, or the failed one with its next attempt. */
  predicate ClaimedFrom(before: Table, row: Row, u: Update, now: int) {
    && row.textExcerpt == Excerpt.ExcerptOf(u.text)
    && (if u.id in before then
          var was := before[u.id];
          && was.outcome == Failed && row.attempt == was.attempt + 1
          && row.senderId == was.senderId && row.chatId == was.chatId && row.kind == was.kind
          && row.receivedAt == was.receivedAt
        else
          && row.attempt == 1 && row.senderId == u.senderId && row.chatId == u.chatId && row.kind == u.kind
          && row.receivedAt == now)
  }

  /** Only the row of `id` may differ. */
  predicate OthersStay(before: Table, after: Table, id: int) {
    && (forall other :: other in before && other != id ==> other in after && after[other] == before[other])
    && (forall other :: other in after && other != id ==> other in before)
  }

  /** The table that an answer stands for. */
  predicate LeavesRow(before: Table, after: Table, u: Update, now: int, answer: Answer) {
    && OthersStay(before, after, u.id)
    && match answer
       case Duplicate => u.id in before && before[u.id].outcome != Failed && after == before
       case Unavailable =>
         || after == before
         || (u.id in after && ClaimedFrom(before, after[u.id], u, now) && after[u.id].outcome == Claimed)
       case Accepted(attempt) =>
         && u.id in after && ClaimedFrom(before, after[u.id], u, now) && after[u.id].attempt == attempt
         && after[u.id].outcome == Handled && after[u.id].errorCode == None && after[u.id].processedAt == Some(now)
       case HandlingFailed(attempt) =>
         && u.id in after && ClaimedFrom(before, after[u.id], u, now) && after[u.id].attempt == attempt
         && match after[u.id].outcome
            case Claimed => after[u.id].errorCode == None && after[u.id].processedAt == None
            case Handled => after[u.id].errorCode == None && after[u.id].processedAt == Some(now)
            case Failed => after[u.id].errorCode.Some? && after[u.id].processedAt == Some(now)
  }

  lemma ClaimLeaves(before: Table, u: Update, now: int)
    ensures var after := ClaimRows(before, u, now);
            && OthersStay(before, after, u.id)
            && (Claimable(before, u.id) ==>
                  && u.id in after && ClaimedFrom(before, after[u.id], u, now) && after[u.id].outcome == Claimed
                  && after[u.id].errorCode == None && after[u.id].processedAt == None)
            && (!Claimable(before, u.id) ==> u.id in before && before[u.id].outcome != Failed && after == before)
  {
    hide Excerpt.ExcerptOf;
  }

  lemma MarkLeaves(rows: Table, id: int, outcome: Outcome, errorCode: Option<string>, now: int)
    ensures var after := MarkRows(rows, id, outcome, errorCode, now);
            && OthersStay(rows, after, id)
            && (Markable(rows, id) ==>
                  id in after && after[id] == rows[id].(outcome := outcome, errorCode := errorCode,
                                                        processedAt := Some(now)))
            && (!Markable(rows, id) ==> after == rows)
  {
  }

  lemma StaysThrough(a: Table, b: Table, c: Table, id: int)
    requires OthersStay(a, b, id) && OthersStay(b, c, id)
    ensures OthersStay(a, c, id)
  {
  }

  /** After a claim that was answered, and at most a handled mark behind it. */
  predicate Underway(before: Table, rows: Table, u: Update, now: int, attempt: int, marked: bool) {
    && OthersStay(before, rows, u.id)
    && u.id in rows && ClaimedFrom(before, rows[u.id], u, now) && rows[u.id].attempt == attempt
    && rows[u.id].errorCode == None
    && (if marked then rows[u.id].outcome == Handled && rows[u.id].processedAt == Some(now)
        else rows[u.id].outcome == Claimed && rows[u.id].processedAt == None)
  }

  lemma UnderwayMarks(before: Table, rows: Table, u: Update, now: int, attempt: int)
    requires Underway(before, rows, u, now, attempt, false)
    ensures Underway(before, MarkRows(rows, u.id, Handled, None, now), u, now, attempt, true)
    ensures LeavesRow(before, MarkRows(rows, u.id, Handled, None, now), u, now, Accepted(attempt))
  {
    hide Excerpt.ExcerptOf;
    MarkLeaves(rows, u.id, Handled, None, now);
    StaysThrough(before, rows, MarkRows(rows, u.id, Handled, None, now), u.id);
    hide MarkRows, OthersStay;
  }

  lemma UnderwayFails(before: Table, rows: Table, u: Update, now: int, attempt: int, marked: bool, code: string)
    requires Underway(before, rows, u, now, attempt, marked)
    ensures LeavesRow(before, rows, u, now, HandlingFailed(attempt))
    ensures var after := MarkRows(rows, u.id, Failed, Some(code), now);
            && LeavesRow(before, after, u, now, HandlingFailed(attempt))
            && (!marked ==> u.id in after && after[u.id].outcome == Failed && after[u.id].errorCode == Some(code))
  {
    hide Excerpt.ExcerptOf;
    MarkLeaves(rows, u.id, Failed, Some(code), now);
    StaysThrough(before, rows, MarkRows(rows, u.id, Failed, Some(code), now), u.id);
    hide MarkRows, OthersStay;
  }

  lemma ClaimAnswered(before: Table, after: Table, u: Update, now: int, fault: Fault,
                      claim: Result<ClaimResult, StoreError>)
    requires after == if fault == FailsBefore then before else ClaimRows(before, u, now)
    requires claim.Success? ==>
               && fault == Fine && claim.value.claimed == Claimable(before, u.id)
               && claim.value.attempt == if claim.value.claimed then after[u.id].attempt else 0
    ensures claim.Failure? ==> LeavesRow(before, after, u, now, Unavailable)
    ensures claim.Success? && !claim.value.claimed ==> LeavesRow(before, after, u, now, Duplicate)
    ensures claim.Success? && claim.value.claimed ==> Underway(before, after, u, now, claim.value.attempt, false)
  {
    ClaimLeaves(before, u, now);
    hide ClaimRows, ClaimedFrom;
  }

  lemma MarkAnswered(before: Table, rows: Table, after: Table, u: Update, now: int, attempt: int, fault: Fault)
    requires Underway(before, rows, u, now, attempt, false)
    requires after == if fault == FailsBefore then rows else MarkRows(rows, u.id, Handled, None, now)
    ensures Underway(before, after, u, now, attempt, fault != FailsBefore)
    ensures fault == Fine ==>
              LeavesRow(before, after, u, now, Accepted(attempt)) && u.id in after && after[u.id].attempt == attempt
  {
    UnderwayMarks(before, rows, u, now, attempt);
    hide MarkRows, ClaimedFrom, LeavesRow, OthersStay;
  }

  lemma FailureAnswered(before: Table, rows: Table, after: Table, u: Update, now: int, attempt: int, marked: bool,
                        code: string, fault: Fault)
    requires Underway(before, rows, u, now, attempt, marked)
    requires after == if fault == FailsBefore then rows else MarkRows(rows, u.id, Failed, Some(code), now)
    ensures LeavesRow(before, after, u, now, HandlingFailed(attempt))
    ensures fault == Fine && !marked ==>
              && u.id in after && after[u.id].attempt == attempt
              && after[u.id].outcome == Failed && after[u.id].errorCode == Some(code)
  {
    UnderwayFails(before, rows, u, now, attempt, marked, code);
    hide MarkRows, ClaimedFrom, Underway, OthersStay;
  }

  /**
   The guarded block after a claim that went through: any error in it is answered by the failure
   mark, whose own error is swallowed. `rows0` and `trace` are the table before the claim and the
   path so far.
   */
  method ReplyAndMark(store: D1TestStore, update: Incoming, ghost u: Update, attempt: int, needsCounts: bool,
                      sendFailure: Option<string>, ghost rows0: Table, ghost trace: seq<State>)
    returns (answer: Answer, ghost longer: seq<State>)
    requires u.id == update.id && IsPath(trace) && trace[|trace| - 1] == One(store.rows, u, Replying(attempt))
    requires Underway(rows0, store.rows, u, store.clock, attempt, false)
    modifies store
    ensures IsPath(longer) && longer[0] == trace[0] && longer[|longer| - 1] == One(store.rows, u, Answered(answer))
    ensures store.clock == old(store.clock)
    ensures answer == Accepted(attempt) || answer == HandlingFailed(attempt)
    ensures LeavesRow(rows0, store.rows, u, store.clock, answer)
    ensures old(store.faults) == [] ==>
              && update.id in store.rows && store.rows[update.id].attempt == attempt
              && if update.chatId.Some? && sendFailure.Some? then
                   && answer == HandlingFailed(attempt)
                   && store.rows[update.id].outcome == Failed && store.rows[update.id].errorCode == sendFailure
                 else answer == Accepted(attempt)
  {
    hide NextStep, MarkRows, LeavesRow, Underway;
    var failure: Option<string> := None;
    if needsCounts {
      var counts := store.Counts();
      if counts.Failure? {
        failure := Some(counts.error.code);
      }
    }
    if failure.None? && update.chatId.Some? {
      failure := sendFailure;
    }
    longer := ReplyTraced(store.rows, u, attempt, failure, trace);
    ghost var marked := false;
    if failure.None? {
      ghost var before := store.rows;
      var result, markFault := store.Mark(update.id, Handled, None);
      MarkAnswered(rows0, before, store.rows, u, store.clock, attempt, markFault);
      longer := MarkTraced(before, store.rows, u, attempt, store.clock, markFault,
        if result.Failure? then result.error.code else "", longer);
      if result.Success? {
        return Accepted(attempt), longer;
      }
      failure, marked := Some(result.error.code), markFault != FailsBefore;
    }
    ghost var before := store.rows;
    var ignored, failFault := store.Mark(update.id, Failed, failure);
    FailureAnswered(rows0, before, store.rows, u, store.clock, attempt, marked, failure.value, failFault);
    longer := MarkFailedTraced(before, store.rows, u, attempt, store.clock, failFault, failure.value, longer);
    answer := HandlingFailed(attempt);
  }

  /**
   Claim, reply, mark. `needsCounts` is whether the command shows the counts and `sendFailure` the
   code of the error the reply meets, if any; `trace` is the path the delivery takes.
   */
  method HandleTestUpdate(store: D1TestStore, update: Incoming, needsCounts: bool, sendFailure: Option<string>)
    returns (answer: Option<Answer>, ghost trace: seq<State>)
    modifies store
    ensures update.sender.None? ==> answer == None && store.rows == old(store.rows) && store.issued == old(store.issued)
    ensures update.sender.Some? ==>
              && answer.Some? && IsPath(trace)
              && var u := RecordOf(update, update.sender.value);
              && trace[0] == One(old(store.rows), u, Arrived)
              && trace[|trace| - 1] == One(store.rows, u, Answered(answer.value))
    ensures update.sender.Some? ==>
              var u := Update(update.id, update.sender.value, update.chatId, update.kind,
                              if update.kind == CallbackQuery then None else update.text);
              && LeavesRow(old(store.rows), store.rows, u, store.clock, answer.value)
              && (answer.value.Unavailable? || answer.value.Duplicate? ==>
                    store.issued == old(store.issued) + [ClaimSql])
    ensures update.sender.Some? && old(store.faults) == [] ==>
              var claimable := update.id !in old(store.rows) || old(store.rows)[update.id].outcome == Failed;
              if !claimable then answer == Some(Duplicate)
              else
                && update.id in store.rows
                && var attempt := store.rows[update.id].attempt;
                if update.chatId.Some? && sendFailure.Some? then
                  && answer == Some(HandlingFailed(attempt))
                  && store.rows[update.id].outcome == Failed && store.rows[update.id].errorCode == sendFailure
                else answer == Some(Accepted(attempt))
  {
    hide NextStep, ClaimRows, Excerpt.ExcerptOf, LeavesRow, Underway;
    trace := [];
    if update.sender.None? {
      return None, [];
    }
    var raw := if update.kind == CallbackQuery then None else update.text;
    var record := Update(update.id, update.sender.value, update.chatId, update.kind, Excerpt.ExcerptOf(raw));
    ghost var u := RecordOf(update, update.sender.value);
    trace := [One(store.rows, u, Arrived)];

    ghost var rows0 := store.rows;
    ghost var before := rows0;
    var claim, claimFault := store.Claim(record);
    ClaimExcerptedTwice(before, u, store.clock);
    ClaimAnswered(rows0, store.rows, u, store.clock, claimFault, claim);
    answer, trace := None, ClaimTraced(before, store.rows, u, store.clock, claimFault, claim, trace);
    if claim.Failure? {
      return Some(Unavailable), trace;
    }
    if !claim.value.claimed {
      return Some(Duplicate), trace;
    }
    var attempt := claim.value.attempt;

    var handled;
    handled, trace := ReplyAndMark(store, update, u, attempt, needsCounts, sendFailure, rows0, trace);
    answer := Some(handled);
  }

  ghost function ClaimTraced(before: Table, after: Table, u: Update, now: int, fault: Fault,
                             claim: Result<ClaimResult, StoreError>, trace: seq<State>): (longer: seq<State>)
    requires IsPath(trace) && trace[|trace| - 1] == One(before, u, Arrived)
    requires after == if fault == FailsBefore then before else ClaimRows(before, u, now)
    requires claim.Success? <==> fault == Fine
    requires claim.Success? ==>
               && claim.value.claimed == Claimable(before, u.id)
               && claim.value.attempt == if claim.value.claimed then after[u.id].attempt else 0
    ensures IsPath(longer) && longer[0] == trace[0]
    ensures longer[|longer| - 1] ==
              One(after, u, if claim.Failure? then Answered(Unavailable)
                            else if claim.value.claimed then Replying(claim.value.attempt) else Answered(Duplicate))
  {
    var t := One(after, u, if claim.Failure? then Answered(Unavailable)
                           else if claim.value.claimed then Replying(claim.value.attempt) else Answered(Duplicate));
    Extend(trace, t, Step.Claim(0, now, fault));
    trace + [t]
  }

  ghost function ReplyTraced(rows: Table, u: Update, attempt: int, failure: Option<string>,
                             trace: seq<State>): (longer: seq<State>)
    requires IsPath(trace) && trace[|trace| - 1] == One(rows, u, Replying(attempt))
    ensures IsPath(longer) && longer[0] == trace[0]
    ensures longer[|longer| - 1]
        == One(rows, u, if failure.None? then Marking(attempt) else MarkingFailed(attempt, failure.value))
  {
    var t := One(rows, u, if failure.None? then Marking(attempt) else MarkingFailed(attempt, failure.value));
    Extend(trace, t, Reply(0, failure));
    trace + [t]
  }

  ghost function MarkTraced(before: Table, after: Table, u: Update, attempt: int, now: int, fault: Fault,
                            code: string, trace: seq<State>): (longer: seq<State>)
    requires IsPath(trace) && trace[|trace| - 1] == One(before, u, Marking(attempt))
    requires after == if fault == FailsBefore then before else MarkRows(before, u.id, Handled, None, now)
    ensures IsPath(longer) && longer[0] == trace[0]
    ensures longer[|longer| - 1]
        == One(after, u, if fault == Fine then Answered(Accepted(attempt)) else MarkingFailed(attempt, code))
  {
    var t := One(after, u, if fault == Fine then Answered(Accepted(attempt)) else MarkingFailed(attempt, code));
    Extend(trace, t, Step.Mark(0, now, fault, code));
    trace + [t]
  }

  ghost function MarkFailedTraced(before: Table, after: Table, u: Update, attempt: int, now: int, fault: Fault,
                                  code: string, trace: seq<State>): (longer: seq<State>)
    requires IsPath(trace) && trace[|trace| - 1] == One(before, u, MarkingFailed(attempt, code))
    requires after == if fault == FailsBefore then before else MarkRows(before, u.id, Failed, Some(code), now)
    ensures IsPath(longer) && longer[0] == trace[0]
    ensures longer[|longer| - 1] == One(after, u, Answered(HandlingFailed(attempt)))
  {
    var t := One(after, u, Answered(HandlingFailed(attempt)));
    Extend(trace, t, Step.MarkFailed(0, now, fault));
    trace + [t]
  }
}
