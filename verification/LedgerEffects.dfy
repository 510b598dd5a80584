/**
 What an applied event leaves behind, field by field: who may emit it, what it changes, and that
 it changes nothing else; and what that means for whole logs.
 */
module LedgerEffects {
  import opened Wrappers
  import opened Digits
  import opened Decimal
  import opened TradeLedger

  // ---------------------------------------------------------------- one field, one record

  /** The patch's value where it gives one, the old one otherwise. */
  predicate Patched<T(==)>(before: T, patch: Option<T>, after: T) {
    after == if patch.Some? then patch.value else before
  }

  predicate FinancialPatched(before: TradeFinancial, patch: FinancialPatch, after: TradeFinancial) {
    && Patched(before.entryPrice, patch.entryPrice, after.entryPrice)
    && Patched(before.exitPrice, patch.exitPrice, after.exitPrice)
    && Patched(before.volume, patch.volume, after.volume)
    && Patched(before.contractSize, patch.contractSize, after.contractSize)
    && Patched(before.commission, patch.commission, after.commission)
    && Patched(before.swap, patch.swap, after.swap)
  }

  predicate JournalingPatched(before: TradeJournaling, patch: JournalingPatch, after: TradeJournaling) {
    && Patched(before.strategy, patch.strategy, after.strategy)
    && Patched(before.setup, patch.setup, after.setup)
    && Patched(before.emotion, patch.emotion, after.emotion)
    && Patched(before.notes, patch.notes, after.notes)
  }

  /** What no event ever rewrites. */
  predicate SameIdentity(a: NewTrade, b: NewTrade) {
    && a.id == b.id && a.accountId == b.accountId && a.externalDealId == b.externalDealId
    && a.symbol == b.symbol && a.direction == b.direction && a.status == b.status
    && a.stopLoss == b.stopLoss && a.takeProfit == b.takeProfit
  }

  /** The ownership matrix by actor. */
  predicate MayEmit(e: LedgerEvent) {
    match e.actor
    case User =>
      e.TradeCreated? || e.JournalingEdited? || e.ExitRecorded? || e.ExitCancelled? || e.TombstoneSet?
    case Admin =>
      || e.FinancialCorrected? || e.JournalingEdited? || e.AdminCorrection?
      || e.ExitRecorded? || e.ExitCancelled? || e.TombstoneSet? || e.QuarantineRaised?
    case Sync =>
      e.TradeImported? || e.TradeCreated? || e.FinancialCorrected? || e.ExitRecorded? || e.QuarantineRaised?
    case Webhook =>
      e.TradeCreated? || e.FinancialCorrected? || e.ExitRecorded? || e.QuarantineRaised?
    case System =>
      e.TradeImported? || e.QuarantineRaised?
  }

  lemma MatrixByActor(e: LedgerEvent)
    ensures ActorAllowed(e) <==> MayEmit(e)
  {
  }

  // ---------------------------------------------------------------- allocation

  /** `text` prints `units` of 10^-k, rounded to eight decimals with ties to even. */
  ghost predicate PrintsAtEight(units: int, k: nat, text: string) {
    exists a: int :: text == ToString(Fixed(a, 8)) && RoundsTo(units * Pow10(8), Pow10(k), HalfEven, a)
  }

  /** `b` added to (or, with a negative sign, taken from) `a`, at eight decimals. */
  ghost predicate Moved(a: string, sign: int, b: string, text: string) {
    && FromString(a).Success? && FromString(b).Success?
    && var x, y := FromString(a).value, FromString(b).value;
    var k := MaxScale(x.s, y.s);
    PrintsAtEight(x.u * Pow10(k - x.s) + sign * (y.u * Pow10(k - y.s)), k, text)
  }

  /** The value of one text is at most that of another. */
  predicate AtMost(a: string, b: string) {
    && FromString(a).Success? && FromString(b).Success?
    && var x, y := FromString(a).value, FromString(b).value;
    x.u * Pow10(y.s) <= y.u * Pow10(x.s)
  }

  predicate NotNegative(a: string) {
    FromString(a).Success? && FromString(a).value.u >= 0
  }

  // ---------------------------------------------------------------- one event

  predicate IsCreation(e: LedgerEvent, t: TradeState) {
    && (e.TradeImported? || e.TradeCreated?) && MayEmit(e)
    && t.trade == e.trade && t.allocatedVolume == "0" && t.version == 0 && t.deletedAt == None && !t.quarantined
  }

  /** From `s` to `t` by `e`: the next version of a live trade, with exactly the fields of `e` changed. */
  ghost predicate IsEffect(s: TradeState, e: LedgerEvent, t: TradeState) {
    && s.deletedAt == None && e.expectedVersion == s.version && t.version == s.version + 1
    && !e.TradeImported? && !e.TradeCreated? && MayEmit(e)
    && SameIdentity(s.trade, t.trade)
    && (if e.FinancialCorrected? then FinancialPatched(s.trade.financial, e.financial, t.trade.financial)
        else if e.AdminCorrection? then FinancialPatched(s.trade.financial, e.financial, t.trade.financial)
        else t.trade.financial == s.trade.financial)
    && (if e.JournalingEdited? then JournalingPatched(s.trade.journaling, e.journaling, t.trade.journaling)
        else if e.AdminCorrection? then JournalingPatched(s.trade.journaling, e.journaling, t.trade.journaling)
        else t.trade.journaling == s.trade.journaling)
    && (if e.ExitRecorded? then
          && Moved(s.allocatedVolume, 1, e.exit.volume, t.allocatedVolume)
          && AtMost(t.allocatedVolume, s.trade.financial.volume)
        else if e.ExitCancelled? then
          Moved(s.allocatedVolume, -1, e.volume, t.allocatedVolume) && NotNegative(t.allocatedVolume)
        else t.allocatedVolume == s.allocatedVolume)
    && t.deletedAt == (if e.TombstoneSet? then Some(e.at) else None)
    && (t.quarantined <==> s.quarantined || e.QuarantineRaised?)
  }

  lemma ZeroPower()
    ensures Pow10(0) == 1
  {
  }

  lemma AddedMoved(a: string, b: string)
    requires AddAllocated(a, b).Success?
    ensures Moved(a, 1, b, AddAllocated(a, b).value)
  {
    hide ToString, FromString, Rescale, Pow10, RoundsTo;
    var x, y := FromString(a).value, FromString(b).value;
    RescaleRounds(Add(x, y), 8, HalfEven);
    ReadBackAt8(Rescale(Add(x, y), 8, HalfEven));
  }

  lemma SubtractedMoved(a: string, b: string)
    requires SubAllocated(a, b).Success?
    ensures Moved(a, -1, b, SubAllocated(a, b).value)
  {
    hide ToString, FromString, Rescale, Pow10, RoundsTo;
    var x, y := FromString(a).value, FromString(b).value;
    RescaleRounds(Sub(x, y), 8, HalfEven);
    ReadBackAt8(Rescale(Sub(x, y), 8, HalfEven));
  }

  lemma ReadBackAt8(f: Fixed)
    requires f.s == 8
    ensures f == Fixed(f.u, 8)
  {
  }

  lemma AtMostExactly(a: string, b: string)
    requires FromString(a).Success? && FromString(b).Success?
    ensures AtMost(a, b) <==> Cmp(FromString(a).value, FromString(b).value) <= 0
  {
    hide FromString;
    var x, y := FromString(a).value, FromString(b).value;
    CrossScale(x, y);
  }

  lemma CrossScale(x: Fixed, y: Fixed)
    ensures Cmp(x, y) <= 0 <==> x.u * Pow10(y.s) <= y.u * Pow10(x.s)
  {
    hide Pow10, Cmp;
    CmpExact(x, y, x.s + y.s);
  }

  /** An applied event has the effect its kind promises, and no other. */
  lemma EventEffect(s: TradeState, e: LedgerEvent, t: TradeState)
    requires ApplyEvent(Some(s), e) == Success(t)
    ensures IsEffect(s, e, t)
  {
    hide ToString, FromString, Cmp, AddAllocated, SubAllocated, Moved, AtMost;
    match e
    case ExitRecorded(_, _, _, _, exit) =>
      AddedMoved(s.allocatedVolume, exit.volume);
      AtMostExactly(t.allocatedVolume, s.trade.financial.volume);
    case ExitCancelled(_, _, _, _, _, volume) =>
      SubtractedMoved(s.allocatedVolume, volume);
    case _ =>
  }

  lemma CreationEffect(e: LedgerEvent, t: TradeState)
    ensures ApplyEvent(None, e) == Success(t) <==> IsCreation(e, t)
  {
  }

  // ---------------------------------------------------------------- refusals

  /** The event names the current version of a live trade, and its actor may emit it. */
  predicate Reaches(s: TradeState, e: LedgerEvent) {
    e.expectedVersion == s.version && s.deletedAt == None && MayEmit(e)
  }

  /** The decimals that an event's effect is computed from. */
  predicate ReadableVolumes(s: TradeState, e: LedgerEvent) {
    match e
    case ExitRecorded(_, _, _, _, exit) =>
      && FromString(s.allocatedVolume).Success? && FromString(exit.volume).Success?
      && FromString(s.trade.financial.volume).Success?
    case ExitCancelled(_, _, _, _, _, volume) => FromString(s.allocatedVolume).Success? && FromString(volume).Success?
    case _ => true
  }

  /** The exit would take the allocation past the volume, or the cancellation below zero. */
  ghost predicate Overdraws(s: TradeState, e: LedgerEvent) {
    match e
    case ExitRecorded(_, _, _, _, exit) =>
      exists text :: Moved(s.allocatedVolume, 1, exit.volume, text) && !AtMost(text, s.trade.financial.volume)
    case ExitCancelled(_, _, _, _, _, volume) =>
      exists text :: Moved(s.allocatedVolume, -1, volume, text) && !NotNegative(text)
    case _ => false
  }

  lemma PrintsOnce(units: int, k: nat, a: string, b: string)
    requires PrintsAtEight(units, k, a) && PrintsAtEight(units, k, b)
    ensures a == b
  {
    hide ToString, RoundsTo, Pow10;
    var x :| a == ToString(Fixed(x, 8)) && RoundsTo(units * Pow10(8), Pow10(k), HalfEven, x);
    var y :| b == ToString(Fixed(y, 8)) && RoundsTo(units * Pow10(8), Pow10(k), HalfEven, y);
    RoundsToUnique(units * Pow10(8), Pow10(k), HalfEven, x, y);
  }

  lemma MovedOnce(a: string, sign: int, b: string, text: string, other: string)
    requires Moved(a, sign, b, text) && Moved(a, sign, b, other)
    ensures text == other
  {
    hide FromString, PrintsAtEight, Pow10;
    var x, y := FromString(a).value, FromString(b).value;
    var k := MaxScale(x.s, y.s);
    PrintsOnce(x.u * Pow10(k - x.s) + sign * (y.u * Pow10(k - y.s)), k, text, other);
  }

  lemma PrintedReads(a: string, sign: int, b: string, text: string)
    requires Moved(a, sign, b, text)
    ensures FromString(text).Success?
  {
    hide ToString, FromString, RoundsTo, Pow10;
    var x :| text == ToString(Fixed(x, 8));
    RoundTrip(Fixed(x, 8));
  }

  lemma ExitOverdraws(s: TradeState, e: LedgerEvent)
    requires e.ExitRecorded? && ReadableVolumes(s, e)
    ensures var alloc := AddAllocated(s.allocatedVolume, e.exit.volume);
            && alloc.Success? && FromString(alloc.value).Success?
            && (Cmp(FromString(alloc.value).value, FromString(s.trade.financial.volume).value) > 0 <==> Overdraws(s, e))
  {
    var alloc := AddAllocated(s.allocatedVolume, e.exit.volume).value;
    hide FromString, ToString, Cmp, AddAllocated, Moved, AtMost;
    AddedMoved(s.allocatedVolume, e.exit.volume);
    PrintedReads(s.allocatedVolume, 1, e.exit.volume, alloc);
    AtMostExactly(alloc, s.trade.financial.volume);
    forall text | Moved(s.allocatedVolume, 1, e.exit.volume, text)
      ensures text == alloc
    {
      MovedOnce(s.allocatedVolume, 1, e.exit.volume, text, alloc);
    }
  }

  lemma CancellationOverdraws(s: TradeState, e: LedgerEvent)
    requires e.ExitCancelled? && ReadableVolumes(s, e)
    ensures var freed := SubAllocated(s.allocatedVolume, e.volume);
            && freed.Success? && FromString(freed.value).Success?
            && (FromString(freed.value).value.u < 0 <==> Overdraws(s, e))
  {
    var freed := SubAllocated(s.allocatedVolume, e.volume).value;
    hide FromString, ToString, SubAllocated, Moved;
    SubtractedMoved(s.allocatedVolume, e.volume);
    PrintedReads(s.allocatedVolume, -1, e.volume, freed);
    forall text | Moved(s.allocatedVolume, -1, e.volume, text)
      ensures text == freed
    {
      MovedOnce(s.allocatedVolume, -1, e.volume, text, freed);
    }
  }

  /** Each refusal has its condition, in the order the ledger checks them; what meets none of them applies. */
  lemma RefusalExactly(s: TradeState, e: LedgerEvent)
    ensures var r := ApplyEvent(Some(s), e);
            && (r == Failure(VersionConflict) <==> e.expectedVersion != s.version)
            && (r == Failure(Tombstoned) <==> e.expectedVersion == s.version && s.deletedAt.Some?)
            && (r == Failure(OwnershipPolicy) <==>
                  e.expectedVersion == s.version && s.deletedAt.None? && !MayEmit(e))
            && (r == Failure(TradeAlreadyExists) <==> Reaches(s, e) && (e.TradeImported? || e.TradeCreated?))
            && (r == Failure(MalformedVolume) <==> Reaches(s, e) && !ReadableVolumes(s, e))
            && (r == Failure(OverAllocation) <==>
                  Reaches(s, e) && e.ExitRecorded? && ReadableVolumes(s, e) && Overdraws(s, e))
            && (r == Failure(CancellationUnderflow) <==>
                  Reaches(s, e) && e.ExitCancelled? && ReadableVolumes(s, e) && Overdraws(s, e))
            && r != Failure(RequiresExistingTrade)
  {
    hide FromString, ToString, Cmp, Overdraws;
    MatrixByActor(e);
    if e.ExitRecorded? && ReadableVolumes(s, e) {
      ExitOverdraws(s, e);
    } else if e.ExitCancelled? && ReadableVolumes(s, e) {
      CancellationOverdraws(s, e);
    }
    hide Rescale, Add, Sub, ActorAllowed;
  }

  lemma FirstRefusalExactly(e: LedgerEvent)
    ensures var r := ApplyEvent(None, e);
            && (r == Failure(RequiresExistingTrade) <==> !e.TradeImported? && !e.TradeCreated?)
            && (r == Failure(OwnershipPolicy) <==> (e.TradeImported? || e.TradeCreated?) && !MayEmit(e))
            && (r.Failure? ==> r.error in {RequiresExistingTrade, OwnershipPolicy})
  {
  }

  // ---------------------------------------------------------------- whole logs

  /** In a log that folds, a first delivery takes one state to the next by its effect, and a second one does nothing. */
  lemma AppliedInLog(events: seq<LedgerEvent>, i: nat)
    requires i < |events| && Fold(events).Success?
    ensures i == 0 ==> IsCreation(events[0], After(events, 1))
    ensures i > 0 && FirstDelivery(events, i) ==> IsEffect(After(events, i), events[i], After(events, i + 1))
    ensures i > 0 && !FirstDelivery(events, i) ==> After(events, i + 1) == After(events, i)
  {
    hide Fold, ApplyEvent, IsCreation, IsEffect, Ids;
    if i == 0 {
      FirstApplied(events);
      CreationEffect(events[0], After(events, 1));
    } else {
      DeliveryStep(events, i);
      if FirstDelivery(events, i) {
        EventEffect(After(events, i), events[i], After(events, i + 1));
      }
    }
  }

  lemma FirstApplied(events: seq<LedgerEvent>)
    requires events != [] && Fold(events).Success?
    ensures ApplyEvent(None, events[0]) == Success(After(events, 1))
  {
    hide ApplyEvent;
    PrefixFolds(events, 1);
    FoldStep(events, 0);
    FoldNothing(events[..0]);
  }

  /** The fold's result is the state after the whole log. */
  lemma FoldIsAfter(events: seq<LedgerEvent>)
    requires events != [] && Fold(events).Success?
    ensures Fold(events).value.state == Some(After(events, |events|))
  {
    hide Fold;
    assert events[..|events|] == events;
    AppliedAreSeen(events);
  }

  /** Identity, symbol, direction, status and stops stay as they were created. */
  lemma {:induction false} IdentityStays(events: seq<LedgerEvent>, i: nat)
    requires 0 < i <= |events| && Fold(events).Success?
    ensures SameIdentity(After(events, 1).trade, After(events, i).trade)
  {
    AppliedInLog(events, 0);
    if i > 1 {
      IdentityStays(events, i - 1);
      AppliedInLog(events, i - 1);
      hide FinancialPatched, JournalingPatched, Moved, AtMost, NotNegative, MayEmit, After;
    }
  }

  /** Between two points of a log only events of these actors were applied. */
  predicate OnlyBy(events: seq<LedgerEvent>, i: nat, j: nat, actors: set<Actor>)
    requires i <= j <= |events|
  {
    forall k :: i <= k < j && FirstDelivery(events, k) ==> events[k].actor in actors
  }

  /** Financial figures are rewritten by sync, webhook and admin alone: the user and the system never do. */
  lemma {:induction false} FinancialsStay(events: seq<LedgerEvent>, i: nat, j: nat)
    requires 0 < i <= j <= |events| && Fold(events).Success? && OnlyBy(events, i, j, {User, System})
    ensures After(events, j).trade.financial == After(events, i).trade.financial
  {
    if i < j {
      FinancialsStay(events, i, j - 1);
      AppliedInLog(events, j - 1);
      hide FinancialPatched, JournalingPatched, Moved, AtMost, NotNegative, After, SameIdentity, FirstDelivery;
    }
  }

  /** The journal is written by the user and the admin alone: no provider ever rewrites it. */
  lemma {:induction false} JournalStays(events: seq<LedgerEvent>, i: nat, j: nat)
    requires 0 < i <= j <= |events| && Fold(events).Success? && OnlyBy(events, i, j, {Sync, Webhook, System})
    ensures After(events, j).trade.journaling == After(events, i).trade.journaling
  {
    if i < j {
      JournalStays(events, i, j - 1);
      AppliedInLog(events, j - 1);
      hide FinancialPatched, JournalingPatched, Moved, AtMost, NotNegative, After, SameIdentity, FirstDelivery;
    }
  }
}
