/**
 Exactly-once handling of a delivered update: the row automaton of the claim and mark
 statements, driven by any number of concurrent deliveries whose calls may fail before or after
 their effect and which may stop anywhere.
 */
module ClaimProtocol {
  import opened Wrappers
  import Excerpt

  // ---------------------------------------------------------------- the row automaton

  datatype Outcome = Claimed | Handled | Failed

  datatype Kind = Message | CallbackQuery | EditedMessage

  datatype Row = Row(
    senderId: int, chatId: Option<int>, kind: Kind, textExcerpt: Option<string>, receivedAt: int,
    processedAt: Option<int>, outcome: Outcome, errorCode: Option<string>, attempt: int)

  datatype Update = Update(id: int, senderId: int, chatId: Option<int>, kind: Kind, text: Option<string>)

  type Table = map<int, Row>

  /** The claim succeeds on a new id and on a failed row. */
  predicate Claimable(rows: Table, id: int) {
    id !in rows || rows[id].outcome == Failed
  }

  function ClaimRows(rows: Table, u: Update, now: int): Table {
    if u.id !in rows then
      rows[u.id := Row(u.senderId, u.chatId, u.kind, Excerpt.ExcerptOf(u.text), now, None, Claimed, None, 1)]
    else if rows[u.id].outcome == Failed then
      rows[u.id := rows[u.id].(outcome := Claimed, errorCode := None, processedAt := None,
                               textExcerpt := Excerpt.ExcerptOf(u.text), attempt := rows[u.id].attempt + 1)]
    else rows
  }

  predicate Markable(rows: Table, id: int) {
    id in rows && rows[id].outcome == Claimed
  }

  function MarkRows(rows: Table, id: int, outcome: Outcome, errorCode: Option<string>, now: int): Table {
    if Markable(rows, id) then
      rows[id := rows[id].(outcome := outcome, errorCode := errorCode, processedAt := Some(now))]
    else rows
  }

  // ---------------------------------------------------------------- deliveries

  datatype Answer = Unavailable | Duplicate | Accepted(attempt: int) | HandlingFailed(attempt: int)

  datatype Pc =
    | Arrived
    | Replying(attempt: int)
    | Marking(attempt: int)
    | MarkingFailed(attempt: int, code: string)
    | Answered(answer: Answer)
    | Stopped

  datatype Delivery = Delivery(update: Update, pc: Pc)

  datatype State = State(rows: Table, deliveries: map<nat, Delivery>)

  function At(s: State, d: nat, pc: Pc): State
    requires d in s.deliveries
  {
    s.(deliveries := s.deliveries[d := s.deliveries[d].(pc := pc)])
  }

  datatype Step =
    | Deliver(d: nat, update: Update)
    | Claim(d: nat, now: int, fault: Fault)
    | Reply(d: nat, failure: Option<string>)
    | Mark(d: nat, now: int, fault: Fault, code: string)
    | MarkFailed(d: nat, now: int, fault: Fault)
    | Stop(d: nat)

  predicate Claims(s: State, t: State, d: nat, now: int, fault: Fault) {
    && d in s.deliveries && s.deliveries[d].pc == Arrived
    && var u := s.deliveries[d].update;
    var after := if fault == FailsBefore then s else s.(rows := ClaimRows(s.rows, u, now));
    t == At(after, d,
            if fault != Fine then Answered(Unavailable)
            else if Claimable(s.rows, u.id) then Replying(after.rows[u.id].attempt)
            else Answered(Duplicate))
  }

  /** The counts query and the reply: either failing sends the delivery to the failure mark. */
  predicate Replies(s: State, t: State, d: nat, failure: Option<string>) {
    && d in s.deliveries && s.deliveries[d].pc.Replying?
    && var attempt := s.deliveries[d].pc.attempt;
    t == At(s, d, if failure.None? then Marking(attempt) else MarkingFailed(attempt, failure.value))
  }

  /** Whether the mark found its row is not looked at; only an error is. */
  predicate Marks(s: State, t: State, d: nat, now: int, fault: Fault, code: string) {
    && d in s.deliveries && s.deliveries[d].pc.Marking?
    && var attempt := s.deliveries[d].pc.attempt;
    var after := if fault == FailsBefore then s
                 else s.(rows := MarkRows(s.rows, s.deliveries[d].update.id, Handled, None, now));
    t == At(after, d, if fault == Fine then Answered(Accepted(attempt)) else MarkingFailed(attempt, code))
  }

  predicate MarksFailed(s: State, t: State, d: nat, now: int, fault: Fault) {
    && d in s.deliveries && s.deliveries[d].pc.MarkingFailed?
    && var pc := s.deliveries[d].pc;
    var after := if fault == FailsBefore then s
                 else s.(rows := MarkRows(s.rows, s.deliveries[d].update.id, Failed, Some(pc.code), now));
    t == At(after, d, Answered(HandlingFailed(pc.attempt)))
  }

  predicate NextStep(s: State, t: State, step: Step) {
    match step
    case Deliver(d, update) =>
      d !in s.deliveries && t == s.(deliveries := s.deliveries[d := Delivery(update, Arrived)])
    case Claim(d, now, fault) => Claims(s, t, d, now, fault)
    case Reply(d, failure) => Replies(s, t, d, failure)
    case Mark(d, now, fault, code) => Marks(s, t, d, now, fault, code)
    case MarkFailed(d, now, fault) => MarksFailed(s, t, d, now, fault)
    case Stop(d) => d in s.deliveries && !s.deliveries[d].pc.Answered? && t == At(s, d, Stopped)
  }

  ghost predicate Next(s: State, t: State) {
    exists step :: NextStep(s, t, step)
  }

  // ---------------------------------------------------------------- what every step keeps

  /** The attempt number a delivery was given, once it was told one. */
  function AttemptOf(pc: Pc): Option<int> {
    match pc
    case Replying(a) => Some(a)
    case Marking(a) => Some(a)
    case MarkingFailed(a, _) => Some(a)
    case Answered(Accepted(a)) => Some(a)
    case Answered(HandlingFailed(a)) => Some(a)
    case _ => None
  }

  /** Between its claim and its last mark. */
  predicate Active(pc: Pc) {
    pc.Replying? || pc.Marking? || pc.MarkingFailed?
  }

  predicate Sound(rows: Table, v: Delivery) {
    AttemptOf(v.pc).Some? ==>
      && v.update.id in rows
      && var row := rows[v.update.id];
      var a := AttemptOf(v.pc).value;
      && 1 <= a <= row.attempt
      && (Active(v.pc) ==> a == row.attempt && row.outcome != Failed)
      && (v.pc.Replying? || v.pc.Marking? ==> row.outcome == Claimed)
      && (v.pc.Answered? && v.pc.answer.Accepted? ==> a == row.attempt && row.outcome == Handled)
  }

  predicate Apart(v: Delivery, w: Delivery) {
    v.update.id == w.update.id && AttemptOf(v.pc).Some? ==> AttemptOf(v.pc) != AttemptOf(w.pc)
  }

  predicate Inv(s: State) {
    && (forall id :: id in s.rows ==> s.rows[id].attempt >= 1)
    && (forall d :: d in s.deliveries ==> Sound(s.rows, s.deliveries[d]))
    && (forall d, e :: d in s.deliveries && e in s.deliveries && d != e ==> Apart(s.deliveries[d], s.deliveries[e]))
  }

  /** Any table, before any delivery. */
  predicate Init(s: State) {
    s.deliveries == map[] && forall id :: id in s.rows ==> s.rows[id].attempt >= 1
  }

  /** What a claim means for one delivery, its own or another. */
  lemma ClaimKeepsOne(s: State, t: State, d: nat, now: int, fault: Fault, e: nat)
    requires Inv(s) && Claims(s, t, d, now, fault) && e in s.deliveries
    ensures Sound(t.rows, t.deliveries[e])
    ensures e != d ==> Apart(t.deliveries[d], t.deliveries[e]) && Apart(t.deliveries[e], t.deliveries[d])
  {
    hide Excerpt.ExcerptOf;
    assert Sound(s.rows, s.deliveries[e]);
    hide Inv;
  }

  lemma ClaimKeeps(s: State, t: State, d: nat, now: int, fault: Fault)
    requires Inv(s) && Claims(s, t, d, now, fault)
    ensures Inv(t)
  {
    hide Excerpt.ExcerptOf, Sound, Apart;
    forall e | e in t.deliveries
      ensures Sound(t.rows, t.deliveries[e])
      ensures e != d ==> Apart(t.deliveries[d], t.deliveries[e]) && Apart(t.deliveries[e], t.deliveries[d])
    {
      ClaimKeepsOne(s, t, d, now, fault, e);
    }
    assert forall e, f :: e in s.deliveries && f in s.deliveries && e != f ==> Apart(s.deliveries[e], s.deliveries[f]);
  }

  /** A step that gives out no attempt number and marks at most the row of its own active delivery. */
  lemma MarkKeeps(s: State, t: State, d: nat)
    requires Inv(s) && d in s.deliveries && t.deliveries.Keys == s.deliveries.Keys
    requires forall e :: e in s.deliveries && e != d ==> t.deliveries[e] == s.deliveries[e]
    requires t.deliveries[d].update == s.deliveries[d].update && Sound(t.rows, t.deliveries[d])
    requires AttemptOf(t.deliveries[d].pc).Some? ==> AttemptOf(t.deliveries[d].pc) == AttemptOf(s.deliveries[d].pc)
    requires t.rows == s.rows
          || (Active(s.deliveries[d].pc) && t.rows.Keys == s.rows.Keys
              && (forall id :: id in s.rows && id != s.deliveries[d].update.id ==> t.rows[id] == s.rows[id])
              && t.rows[s.deliveries[d].update.id].attempt == s.rows[s.deliveries[d].update.id].attempt
              && s.rows[s.deliveries[d].update.id].outcome == Claimed)
    ensures Inv(t)
  {
    forall e | e in t.deliveries
      ensures Sound(t.rows, t.deliveries[e])
    {
      if e != d {
        assert Sound(s.rows, s.deliveries[e]) && Sound(s.rows, s.deliveries[d]);
        assert Apart(s.deliveries[e], s.deliveries[d]);
      }
    }
    forall e, f | e in t.deliveries && f in t.deliveries && e != f
      ensures Apart(t.deliveries[e], t.deliveries[f])
    {
      assert Apart(s.deliveries[e], s.deliveries[f]);
    }
  }

  lemma StepKeeps(s: State, t: State, step: Step)
    requires Inv(s) && NextStep(s, t, step)
    ensures Inv(t)
  {
    hide Inv, Claims, Replies, Marks, MarksFailed;
    match step
    case Deliver(d, update) => DeliverKeeps(s, t, d, update);
    case Claim(d, now, fault) => ClaimKeeps(s, t, d, now, fault);
    case Reply(d, failure) => ReplyKeeps(s, t, d, failure);
    case Mark(d, now, fault, code) => MarksKeep(s, t, d, now, fault, code);
    case MarkFailed(d, now, fault) => MarksFailedKeep(s, t, d, now, fault);
    case Stop(d) => StopKeeps(s, t, d);
  }

  lemma ReplyKeeps(s: State, t: State, d: nat, failure: Option<string>)
    requires Inv(s) && Replies(s, t, d, failure)
    ensures Inv(t)
  {
    assert Sound(s.rows, s.deliveries[d]);
    MarkKeeps(s, t, d);
    hide Inv;
  }

  lemma MarksKeep(s: State, t: State, d: nat, now: int, fault: Fault, code: string)
    requires Inv(s) && Marks(s, t, d, now, fault, code)
    ensures Inv(t)
  {
    assert Sound(s.rows, s.deliveries[d]);
    MarkKeeps(s, t, d);
    hide Inv;
  }

  lemma MarksFailedKeep(s: State, t: State, d: nat, now: int, fault: Fault)
    requires Inv(s) && MarksFailed(s, t, d, now, fault)
    ensures Inv(t)
  {
    assert Sound(s.rows, s.deliveries[d]);
    MarkKeeps(s, t, d);
    hide Inv;
  }

  lemma StopKeeps(s: State, t: State, d: nat)
    requires Inv(s) && d in s.deliveries && t == At(s, d, Stopped)
    ensures Inv(t)
  {
    MarkKeeps(s, t, d);
    hide Inv;
  }

  lemma DeliverKeeps(s: State, t: State, d: nat, update: Update)
    requires Inv(s) && NextStep(s, t, Deliver(d, update))
    ensures Inv(t)
  {
    hide Sound;
    assert AttemptOf(Arrived) == None;
    assert Sound(t.rows, t.deliveries[d]) by {
      ArrivedIsSound(t.rows, update);
    }
  }

  lemma ArrivedIsSound(rows: Table, update: Update)
    ensures Sound(rows, Delivery(update, Arrived))
  {
  }

  // ---------------------------------------------------------------- single steps

  /** At most one delivery of an update is between its claim and its last mark. */
  lemma OneHolder(s: State, d: nat, e: nat)
    requires Inv(s) && d in s.deliveries && e in s.deliveries && s.deliveries[d].update.id == s.deliveries[e].update.id
    requires Active(s.deliveries[d].pc) && Active(s.deliveries[e].pc)
    ensures d == e
  {
    assert Sound(s.rows, s.deliveries[d]) && Sound(s.rows, s.deliveries[e]);
  }

  /** At most one delivery of an update is ever answered "accepted". */
  lemma OneAcceptance(s: State, d: nat, e: nat, a: int, b: int)
    requires Inv(s) && d in s.deliveries && e in s.deliveries && s.deliveries[d].update.id == s.deliveries[e].update.id
    requires s.deliveries[d].pc == Answered(Accepted(a)) && s.deliveries[e].pc == Answered(Accepted(b))
    ensures d == e
  {
    assert Sound(s.rows, s.deliveries[d]) && Sound(s.rows, s.deliveries[e]);
  }

  /** A holder's mark that reaches the store takes effect: its row becomes handled. */
  lemma MarkTakesEffect(s: State, t: State, d: nat, now: int, fault: Fault, code: string)
    requires Inv(s) && Marks(s, t, d, now, fault, code) && fault != FailsBefore
    ensures var id := s.deliveries[d].update.id;
            && Markable(s.rows, id) && id in t.rows && t.rows[id].outcome == Handled
            && t.rows[id].attempt == s.deliveries[d].pc.attempt
  {
    assert Sound(s.rows, s.deliveries[d]);
  }

  /** The failure mark takes effect unless the holder's own earlier mark did. */
  lemma FailureMarkTakesEffect(s: State, t: State, d: nat, now: int, fault: Fault)
    requires Inv(s) && MarksFailed(s, t, d, now, fault) && fault != FailsBefore
    ensures var id := s.deliveries[d].update.id;
            && id in s.rows && id in t.rows
            && t.rows[id].outcome == if s.rows[id].outcome == Handled then Handled else Failed
  {
    assert Sound(s.rows, s.deliveries[d]);
  }

  // ---------------------------------------------------------------- whole runs

  ghost predicate IsPath(run: seq<State>) {
    run != [] && forall i :: 0 < i < |run| ==> Next(run[i - 1], run[i])
  }

  ghost predicate IsRun(run: seq<State>) {
    IsPath(run) && Init(run[0])
  }

  lemma {:induction false} RunKeeps(run: seq<State>, i: nat)
    requires IsRun(run) && i < |run|
    ensures Inv(run[i])
  {
    if i > 0 {
      RunKeeps(run, i - 1);
      assert Next(run[i - 1], run[i]);
      var step :| NextStep(run[i - 1], run[i], step);
      StepKeeps(run[i - 1], run[i], step);
    }
  }

  /** The step re-claims a failed row. */
  predicate Reclaimed(s: State, t: State, id: int) {
    id in s.rows && s.rows[id].outcome == Failed && id in t.rows && t.rows[id].outcome == Claimed
  }

  /** How often a row went from failed back to claimed in the first `i` steps. */
  function Reclaims(run: seq<State>, id: int, i: nat): nat
    requires i < |run|
  {
    if i == 0 then 0
    else Reclaims(run, id, i - 1) + if Reclaimed(run[i - 1], run[i], id) then 1 else 0
  }

  /** What one step does to one row. */
  lemma StepOnRow(s: State, t: State, step: Step, id: int)
    requires Inv(s) && NextStep(s, t, step)
    ensures id in s.rows ==>
              && id in t.rows
              && t.rows[id].attempt == s.rows[id].attempt + (if Reclaimed(s, t, id) then 1 else 0)
              && (s.rows[id].outcome == Handled ==> t.rows[id] == s.rows[id])
    ensures id !in s.rows && id in t.rows ==> t.rows[id].attempt == 1 && t.rows[id].outcome == Claimed
  {
  }

  /** `handled` is terminal: nothing in the row changes any more. */
  lemma {:induction false} HandledIsTerminal(run: seq<State>, j: nat, i: nat, id: int)
    requires IsRun(run) && j <= i < |run| && id in run[j].rows && run[j].rows[id].outcome == Handled
    ensures id in run[i].rows && run[i].rows[id] == run[j].rows[id]
    decreases i
  {
    hide NextStep, Inv;
    if j < i {
      HandledIsTerminal(run, j, i - 1, id);
      RunKeeps(run, i - 1);
      assert Next(run[i - 1], run[i]);
      var step :| NextStep(run[i - 1], run[i], step);
      StepOnRow(run[i - 1], run[i], step, id);
    }
  }

  /** An "accepted" answer means that the row is handled, from then on. */
  lemma AcceptedIsHandled(run: seq<State>, j: nat, i: nat, d: nat)
    requires IsRun(run) && j <= i < |run| && d in run[j].deliveries
    requires run[j].deliveries[d].pc.Answered? && run[j].deliveries[d].pc.answer.Accepted?
    ensures var id := run[j].deliveries[d].update.id;
            id in run[i].rows && run[i].rows[id].outcome == Handled
            && run[i].rows[id].attempt == run[j].deliveries[d].pc.answer.attempt
  {
    RunKeeps(run, j);
    assert Sound(run[j].rows, run[j].deliveries[d]);
    HandledIsTerminal(run, j, i, run[j].deliveries[d].update.id);
  }

  /** A row first claimed in the run has one attempt more than it was re-claimed. */
  lemma {:induction false} AttemptCountsReclaims(run: seq<State>, id: int, i: nat)
    requires IsRun(run) && i < |run|
    ensures id in run[0].rows ==>
        id in run[i].rows && run[i].rows[id].attempt == run[0].rows[id].attempt + Reclaims(run, id, i)
    ensures id !in run[0].rows && id in run[i].rows ==> run[i].rows[id].attempt == 1 + Reclaims(run, id, i)
    ensures id !in run[i].rows ==> Reclaims(run, id, i) == 0
  {
    hide NextStep, Inv;
    if i > 0 {
      AttemptCountsReclaims(run, id, i - 1);
      RunKeeps(run, i - 1);
      assert Next(run[i - 1], run[i]);
      var step :| NextStep(run[i - 1], run[i], step);
      StepOnRow(run[i - 1], run[i], step, id);
    }
  }

  // ---------------------------------------------------------------- no progress without a holder

  /** Claimed, and nobody is left to mark it. */
  predicate Orphaned(s: State, id: int) {
    && id in s.rows && s.rows[id].outcome == Claimed
    && forall d :: d in s.deliveries && s.deliveries[d].update.id == id ==> !Active(s.deliveries[d].pc)
  }

  /** A claim whose effect was kept but whose answer was lost leaves an orphan behind a 503. */
  lemma LostClaimOrphans(s: State, t: State, d: nat, now: int)
    requires Inv(s) && Claims(s, t, d, now, FailsAfter) && Claimable(s.rows, s.deliveries[d].update.id)
    ensures Orphaned(t, s.deliveries[d].update.id) && t.deliveries[d].pc == Answered(Unavailable)
  {
    var id := s.deliveries[d].update.id;
    forall e | e in t.deliveries && t.deliveries[e].update.id == id
      ensures !Active(t.deliveries[e].pc)
    {
      if e != d {
        assert Sound(s.rows, s.deliveries[e]);
      }
    }
  }

  /** An orphan stays one, and every redelivery of it that is told anything is told "duplicate". */
  lemma {:induction false} OrphanedForever(run: seq<State>, j: nat, i: nat, id: int)
    requires IsRun(run) && j <= i < |run| && Orphaned(run[j], id)
    ensures Orphaned(run[i], id) && run[i].rows[id] == run[j].rows[id]
    decreases i
  {
    hide NextStep, Orphaned;
    if j < i {
      OrphanedForever(run, j, i - 1, id);
      assert Next(run[i - 1], run[i]);
      var step :| NextStep(run[i - 1], run[i], step);
      OrphanStep(run[i - 1], run[i], step, id);
    }
  }

  lemma OrphanStep(s: State, t: State, step: Step, id: int)
    requires Orphaned(s, id) && NextStep(s, t, step)
    ensures Orphaned(t, id) && t.rows[id] == s.rows[id]
    ensures step.Claim? && step.fault == Fine && s.deliveries[step.d].update.id == id ==>
              t.deliveries[step.d].pc == Answered(Duplicate)
  {
  }
}
