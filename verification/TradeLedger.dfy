/** The immutable trade ledger: state is a fold over append-only events. */
module TradeLedger {
  import opened Wrappers
  import opened Digits
  import opened Decimal

  const VOLUME_SCALE: nat := 8

  datatype Actor = User | Admin | Sync | Webhook | System

  datatype Direction = Buy | Sell

  datatype Status = Open | Closed

  datatype TradeFinancial = TradeFinancial(
    entryPrice: string, exitPrice: Option<string>, volume: string,
    contractSize: string, commission: string, swap: string)

  datatype TradeJournaling = TradeJournaling(
    strategy: Option<string>, setup: Option<string>, emotion: Option<string>, notes: Option<string>)

  /** What a creation event carries. */
  datatype NewTrade = NewTrade(
    id: string, accountId: Option<string>, externalDealId: Option<string>, symbol: string,
    direction: Direction, status: Status, financial: TradeFinancial, journaling: TradeJournaling,
    stopLoss: Option<string>, takeProfit: Option<string>)

  datatype TradeState = TradeState(
    trade: NewTrade, allocatedVolume: string, version: int, deletedAt: Option<string>, quarantined: bool)

  /** `None` leaves a field alone; nullable fields can also be set to null. */
  datatype FinancialPatch = FinancialPatch(
    entryPrice: Option<string>, exitPrice: Option<Option<string>>, volume: Option<string>,
    contractSize: Option<string>, commission: Option<string>, swap: Option<string>)

  datatype JournalingPatch = JournalingPatch(
    strategy: Option<Option<string>>, setup: Option<Option<string>>,
    emotion: Option<Option<string>>, notes: Option<Option<string>>)

  datatype TradeExit = TradeExit(exitId: string, volume: string, price: string, recordedAt: string)

  datatype LedgerEvent =
    | TradeImported(id: string, actor: Actor, at: string, expectedVersion: int, trade: NewTrade)
    | TradeCreated(id: string, actor: Actor, at: string, expectedVersion: int, trade: NewTrade)
    | FinancialCorrected(id: string, actor: Actor, at: string, expectedVersion: int, financial: FinancialPatch)
    | JournalingEdited(id: string, actor: Actor, at: string, expectedVersion: int, journaling: JournalingPatch)
    | ExitRecorded(id: string, actor: Actor, at: string, expectedVersion: int, exit: TradeExit)
    | ExitCancelled(id: string, actor: Actor, at: string, expectedVersion: int, exitId: string, volume: string)
    | TombstoneSet(id: string, actor: Actor, at: string, expectedVersion: int, reason: string)
    | AdminCorrection(id: string, actor: Actor, at: string, expectedVersion: int, note: string,
                      financial: FinancialPatch, journaling: JournalingPatch)
    | QuarantineRaised(id: string, actor: Actor, at: string, expectedVersion: int, reason: string)
  {
    predicate Creates() {
      TradeImported? || TradeCreated?
    }
  }

  datatype LedgerError =
    | RequiresExistingTrade | TradeAlreadyExists | VersionConflict | Tombstoned
    | OwnershipPolicy | OverAllocation | CancellationUnderflow | MalformedVolume

  datatype Folded = Folded(state: Option<TradeState>, appliedIds: set<string>)

  // ---------------------------------------------------------------- one event

  /** The ownership matrix. */
  predicate ActorAllowed(event: LedgerEvent) {
    match event
    case TradeImported(_, actor, _, _, _) => actor in {System, Sync}
    case TradeCreated(_, actor, _, _, _) => actor in {User, Sync, Webhook}
    case FinancialCorrected(_, actor, _, _, _) => actor in {Sync, Webhook, Admin}
    case JournalingEdited(_, actor, _, _, _) => actor in {User, Admin}
    case ExitRecorded(_, actor, _, _, _) => actor in {User, Sync, Webhook, Admin}
    case ExitCancelled(_, actor, _, _, _, _) => actor in {User, Admin}
    case TombstoneSet(_, actor, _, _, _) => actor in {User, Admin}
    case AdminCorrection(_, actor, _, _, _, _, _) => actor == Admin
    case QuarantineRaised(_, actor, _, _, _) => actor in {Sync, Webhook, System, Admin}
  }

  function PatchFinancial(f: TradeFinancial, p: FinancialPatch): TradeFinancial {
    TradeFinancial(
      p.entryPrice.GetOr(f.entryPrice), p.exitPrice.GetOr(f.exitPrice), p.volume.GetOr(f.volume),
      p.contractSize.GetOr(f.contractSize), p.commission.GetOr(f.commission), p.swap.GetOr(f.swap))
  }

  function PatchJournaling(j: TradeJournaling, p: JournalingPatch): TradeJournaling {
    TradeJournaling(
      p.strategy.GetOr(j.strategy), p.setup.GetOr(j.setup), p.emotion.GetOr(j.emotion), p.notes.GetOr(j.notes))
  }

  function Parse(volume: string): Result<Fixed, LedgerError> {
    var f := FromString(volume);
    if f.Success? then Success(f.value) else Failure(MalformedVolume)
  }

  function AddAllocated(current: string, added: string): Result<string, LedgerError> {
    var c :- Parse(current);
    var a :- Parse(added);
    Success(ToString(Rescale(Add(c, a), VOLUME_SCALE, HalfEven)))
  }

  function SubAllocated(current: string, removed: string): Result<string, LedgerError> {
    var c :- Parse(current);
    var r :- Parse(removed);
    Success(ToString(Rescale(Sub(c, r), VOLUME_SCALE, HalfEven)))
  }

  function ApplyEvent(state: Option<TradeState>, event: LedgerEvent): Result<TradeState, LedgerError> {
    if state.None? then
      if !event.Creates() then Failure(RequiresExistingTrade)
      else if !ActorAllowed(event) then Failure(OwnershipPolicy)
      else Success(TradeState(event.trade, "0", 0, None, false))
    else
      var s := state.value;
      if event.expectedVersion != s.version then Failure(VersionConflict)
      else if s.deletedAt.Some? then Failure(Tombstoned)
      else if !ActorAllowed(event) then Failure(OwnershipPolicy)
      else ApplyToLive(s.(version := s.version + 1), event)
  }

  /** The event's effect on a live trade whose version has been bumped. */
  function ApplyToLive(next: TradeState, event: LedgerEvent): Result<TradeState, LedgerError> {
    match event
    case TradeImported(_, _, _, _, _) => Failure(TradeAlreadyExists)
    case TradeCreated(_, _, _, _, _) => Failure(TradeAlreadyExists)
    case JournalingEdited(_, _, _, _, patch) =>
      Success(next.(trade := next.trade.(journaling := PatchJournaling(next.trade.journaling, patch))))
    case FinancialCorrected(_, _, _, _, patch) =>
      Success(next.(trade := next.trade.(financial := PatchFinancial(next.trade.financial, patch))))
    case AdminCorrection(_, _, _, _, _, financial, journaling) =>
      Success(next.(trade := next.trade.(financial := PatchFinancial(next.trade.financial, financial),
                                         journaling := PatchJournaling(next.trade.journaling, journaling))))
    case ExitRecorded(_, _, _, _, exit) =>
      var alloc :- AddAllocated(next.allocatedVolume, exit.volume);
      var a :- Parse(alloc);
      var v :- Parse(next.trade.financial.volume);
      if Cmp(a, v) > 0 then Failure(OverAllocation) else Success(next.(allocatedVolume := alloc))
    case ExitCancelled(_, _, _, _, _, volume) =>
      var freed :- SubAllocated(next.allocatedVolume, volume);
      var f :- Parse(freed);
      if f.u < 0 then Failure(CancellationUnderflow) else Success(next.(allocatedVolume := freed))
    case TombstoneSet(_, _, at, _, _) => Success(next.(deletedAt := Some(at)))
    case QuarantineRaised(_, _, _, _, _) => Success(next.(quarantined := true))
  }

  // ---------------------------------------------------------------- the fold

  /** The state a log converges to: a second delivery of an event id is skipped. */
  function Fold(events: seq<LedgerEvent>): Result<Folded, LedgerError> {
    if events == [] then Success(Folded(None, {}))
    else
      var before :- Fold(events[..|events| - 1]);
      var e := events[|events| - 1];
      if e.id in before.appliedIds then Success(before)
      else
        var next :- ApplyEvent(before.state, e);
        Success(Folded(Some(next), before.appliedIds + {e.id}))
  }

  lemma FoldStep(events: seq<LedgerEvent>, i: nat)
    requires i < |events|
    ensures Fold(events[..i]).Failure? ==> Fold(events[..i + 1]) == Fold(events[..i])
    ensures Fold(events[..i]).Success? ==>
              var before := Fold(events[..i]).value;
              Fold(events[..i + 1])
              == if events[i].id in before.appliedIds then Success(before)
                 else var next := ApplyEvent(before.state, events[i]);
                      if next.Failure? then Failure(next.error)
                      else Success(Folded(Some(next.value), before.appliedIds + {events[i].id}))
  {
    assert events[..i + 1][..i] == events[..i];
  }

  /** A log that fails somewhere fails, with the first error. */
  lemma {:induction false} FailureStops(events: seq<LedgerEvent>, i: nat)
    requires i <= |events| && Fold(events[..i]).Failure?
    ensures Fold(events) == Fold(events[..i])
    decreases |events| - i
  {
    if i < |events| {
      FoldStep(events, i);
      FailureStops(events, i + 1);
    } else {
      assert events[..i] == events;
    }
  }

  lemma PrefixFolds(events: seq<LedgerEvent>, i: nat)
    requires i <= |events| && Fold(events).Success?
    ensures Fold(events[..i]).Success?
  {
    if Fold(events[..i]).Failure? {
      FailureStops(events, i);
    }
  }

  method FoldEvents(events: seq<LedgerEvent>) returns (r: Result<Folded, LedgerError>)
    ensures r == Fold(events)
  {
    var state: Option<TradeState> := None;
    var seen: set<string> := {};
    for i := 0 to |events|
      invariant Fold(events[..i]) == Success(Folded(state, seen))
    {
      var e := events[i];
      FoldStep(events, i);
      if e.id !in seen {
        seen := seen + {e.id};
        var next := ApplyEvent(state, e);
        if next.Failure? {
          FailureStops(events, i + 1);
          return Failure(next.error);
        }
        state := Some(next.value);
      }
    }
    assert events[..|events|] == events;
    r := Success(Folded(state, seen));
  }

  // ---------------------------------------------------------------- idempotency

  function Ids(events: seq<LedgerEvent>): set<string> {
    set i | 0 <= i < |events| :: events[i].id
  }

  lemma {:induction false} AppliedAreSeen(events: seq<LedgerEvent>)
    requires Fold(events).Success?
    ensures Fold(events).value.appliedIds == Ids(events)
    ensures Fold(events).value.state.None? <==> events == []
  {
    hide Fold, Ids, ApplyEvent;
    if events == [] {
      FoldNothing(events);
    } else {
      var n := |events| - 1;
      PrefixFolds(events, n);
      AppliedAreSeen(events[..n]);
      IdsLast(events);
      FoldLast(events);
      if n == 0 {
        FoldNothing(events[..n]);
      }
    }
  }

  lemma FoldNothing(events: seq<LedgerEvent>)
    requires events == []
    ensures Fold(events) == Success(Folded(None, {})) && Ids(events) == {}
  {
  }

  lemma IdsLast(events: seq<LedgerEvent>)
    requires events != []
    ensures Ids(events) == Ids(events[..|events| - 1]) + {events[|events| - 1].id}
  {
    var n := |events| - 1;
    assert forall i :: 0 <= i < n ==> events[..n][i].id == events[i].id;
  }

  /** Redelivering seen ids at any later point changes nothing, whatever the redelivered content. */
  lemma {:induction false} Redelivery(before: seq<LedgerEvent>, again: seq<LedgerEvent>, after: seq<LedgerEvent>)
    requires Ids(again) <= Ids(before)
    ensures Fold(before + again + after) == Fold(before + after)
  {
    hide Fold, Ids, ApplyEvent;
    if after == [] {
      assert before + again + after == before + again && before + after == before;
      RedeliveredAtOnce(before, again);
    } else {
      var n := |after| - 1;
      var long, short := before + again + after, before + after;
      Redelivery(before, again, after[..n]);
      assert long[..|long| - 1] == before + again + after[..n];
      assert short[..|short| - 1] == before + after[..n];
      FoldLast(long);
      FoldLast(short);
    }
  }

  lemma {:induction false} RedeliveredAtOnce(before: seq<LedgerEvent>, again: seq<LedgerEvent>)
    requires Ids(again) <= Ids(before)
    ensures Fold(before + again) == Fold(before)
  {
    hide Fold, ApplyEvent;
    if again == [] {
      assert before + again == before;
    } else {
      var n := |again| - 1;
      var long := before + again;
      assert forall i :: 0 <= i < n ==> again[..n][i].id == again[i].id;
      RedeliveredAtOnce(before, again[..n]);
      assert long[..|long| - 1] == before + again[..n];
      FoldLast(long);
      if Fold(before).Success? {
        AppliedAreSeen(before);
        assert again[n].id in Ids(again);
      }
    }
  }

  lemma FoldLast(events: seq<LedgerEvent>)
    requires events != []
    ensures var n := |events| - 1;
            var before := Fold(events[..n]);
            Fold(events)
            == if before.Failure? || events[n].id in before.value.appliedIds then before
               else var next := ApplyEvent(before.value.state, events[n]);
                    if next.Failure? then Failure(next.error)
                    else Success(Folded(Some(next.value), before.value.appliedIds + {events[n].id}))
  {
  }

  // ---------------------------------------------------------------- versions and order

  predicate DistinctIds(events: seq<LedgerEvent>) {
    forall i, j :: 0 <= i < j < |events| ==> events[i].id != events[j].id
  }

  lemma LiveVersion(s: TradeState, e: LedgerEvent)
    requires ApplyEvent(Some(s), e).Success?
    ensures ApplyEvent(Some(s), e).value.version == s.version + 1
  {
    hide Cmp, AddAllocated, SubAllocated, Parse, PatchFinancial, PatchJournaling, ActorAllowed;
  }

  lemma NoIds(events: seq<LedgerEvent>)
    requires events == []
    ensures Ids(events) == {}
  {
  }

  /** The version counts the applied events, from zero. */
  lemma {:induction false} VersionCountsEvents(events: seq<LedgerEvent>)
    requires Fold(events).Success? && events != []
    ensures Fold(events).value.state.Some?
    ensures Fold(events).value.state.value.version == |Ids(events)| - 1
  {
    hide Fold, Ids, ApplyToLive, ActorAllowed;
    var n := |events| - 1;
    PrefixFolds(events, n);
    FoldLast(events);
    AppliedAreSeen(events);
    AppliedAreSeen(events[..n]);
    if n > 0 {
      VersionCountsEvents(events[..n]);
      if events[n].id !in Ids(events[..n]) {
        LiveVersion(Fold(events[..n]).value.state.value, events[n]);
      }
    } else {
      NoIds(events[..0]);
    }
  }

  lemma DistinctCount(events: seq<LedgerEvent>)
    requires DistinctIds(events)
    ensures |Ids(events)| == |events|
  {
    if events != [] {
      var n := |events| - 1;
      DistinctCount(events[..n]);
      assert Ids(events) == Ids(events[..n]) + {events[n].id} by {
        assert forall i :: 0 <= i < n ==> events[..n][i].id == events[i].id;
      }
      assert events[n].id !in Ids(events[..n]);
    }
  }

  /** In a log that folds, an event's place is what it says: creation first, then the version it extends. */
  lemma {:induction false} PlaceIsVersion(events: seq<LedgerEvent>, i: nat)
    requires Fold(events).Success? && DistinctIds(events) && i < |events|
    ensures events[i].Creates() <==> i == 0
    ensures i > 0 ==> events[i].expectedVersion == i - 1
  {
    hide Fold, ActorAllowed, AddAllocated, SubAllocated, PatchFinancial, PatchJournaling, Parse, Cmp;
    PrefixFolds(events, i);
    PrefixFolds(events, i + 1);
    FoldStep(events, i);
    AppliedAreSeen(events[..i]);
    assert events[i].id !in Ids(events[..i]);
    if i > 0 {
      VersionCountsEvents(events[..i]);
      DistinctCount(events[..i]);
    } else {
      FoldNothing(events[..0]);
    }
  }

  /** Two orderings of the same distinct events that both fold are the same ordering. */
  lemma OrderIsForced(a: seq<LedgerEvent>, b: seq<LedgerEvent>)
    requires Fold(a).Success? && Fold(b).Success?
    requires DistinctIds(a) && DistinctIds(b)
    requires multiset(a) == multiset(b)
    ensures a == b
  {
    assert |a| == |multiset(a)| == |multiset(b)| == |b|;
    forall i | 0 <= i < |a|
      ensures a[i] == b[i]
    {
      assert a[i] in multiset(b);
      var j :| 0 <= j < |b| && b[j] == a[i];
      PlaceIsVersion(a, i);
      PlaceIsVersion(b, j);
    }
  }

  /** After an applied tombstone a log folds only if everything behind it is a redelivery. */
  lemma {:induction false} TombstoneIsLast(before: seq<LedgerEvent>, tombstone: LedgerEvent, after: seq<LedgerEvent>)
    requires tombstone.TombstoneSet? && tombstone.id !in Ids(before)
    requires Fold(before + [tombstone] + after).Success?
    ensures Ids(after) <= Ids(before + [tombstone])
    ensures Fold(before + [tombstone] + after) == Fold(before + [tombstone])
  {
    hide Fold, ApplyToLive, ActorAllowed;
    var log := before + [tombstone];
    var all := log + after;
    if after == [] {
      assert all == log;
    } else {
      var n := |after| - 1;
      assert all[..|all| - 1] == log + after[..n];
      PrefixFolds(all, |all| - 1);
      FoldLast(all);
      TombstoneIsLast(before, tombstone, after[..n]);
      assert forall i :: 0 <= i < n ==> after[..n][i].id == after[i].id;
      TombstoneApplied(before, tombstone, all);
      AppliedAreSeen(log);
      assert Ids(after) == Ids(after[..n]) + {after[n].id};
    }
  }

  lemma TombstoneApplied(before: seq<LedgerEvent>, tombstone: LedgerEvent, all: seq<LedgerEvent>)
    requires tombstone.TombstoneSet? && tombstone.id !in Ids(before)
    requires before + [tombstone] <= all && Fold(all).Success?
    ensures Fold(before + [tombstone]).Success?
    ensures Fold(before + [tombstone]).value.state.Some?
    ensures Fold(before + [tombstone]).value.state.value.deletedAt.Some?
  {
    var log := before + [tombstone];
    assert all[..|log|] == log && all[..|before|] == before;
    PrefixFolds(all, |log|);
    PrefixFolds(all, |before|);
    AppliedAreSeen(before);
    FoldStep(all, |before|);
  }

  // ---------------------------------------------------------------- allocation

  /** A volume the allocation arithmetic keeps exactly: non-negative, eight decimals or fewer. */
  predicate ExactVolume(volume: string) {
    var f := FromString(volume);
    f.Success? && f.value.s <= VOLUME_SCALE && f.value.u >= 0
  }

  predicate NonNegativeVolume(volume: string) {
    var f := FromString(volume);
    f.Success? && f.value.u >= 0
  }

  predicate ExactEvent(e: LedgerEvent) {
    match e
    case ExitRecorded(_, _, _, _, exit) => ExactVolume(exit.volume)
    case ExitCancelled(_, _, _, _, _, volume) => ExactVolume(volume)
    case TradeImported(_, _, _, _, trade) => NonNegativeVolume(trade.financial.volume)
    case TradeCreated(_, _, _, _, trade) => NonNegativeVolume(trade.financial.volume)
    case _ => true
  }

  /** Not a redelivery of an id seen before. */
  predicate FirstDelivery(events: seq<LedgerEvent>, i: nat)
    requires i < |events|
  {
    events[i].id !in Ids(events[..i])
  }

  /**
   What the ledger does not check about a log: the signs of exit and opening volumes, and the decimals
   of exit volumes. Redelivered content is ignored, as the fold ignores it.
   */
  predicate ExactVolumes(events: seq<LedgerEvent>) {
    forall i :: 0 <= i < |events| && FirstDelivery(events, i) ==> ExactEvent(events[i])
  }

  function CorrectedVolume(e: LedgerEvent): Option<string> {
    if e.FinancialCorrected? || e.AdminCorrection? then e.financial.volume else None
  }

  /** The volume an event moves into (or out of) allocation, in units of 10^-8. */
  function Allocates(e: LedgerEvent): int {
    match e
    case ExitRecorded(_, _, _, _, exit) =>
      if ExactVolume(exit.volume) then Units(FromString(exit.volume).value, VOLUME_SCALE) else 0
    case ExitCancelled(_, _, _, _, _, volume) =>
      if ExactVolume(volume) then -Units(FromString(volume).value, VOLUME_SCALE) else 0
    case _ => 0
  }

  /** Recorded minus cancelled volume, each event counted once however often it was delivered. */
  function NetAllocated(events: seq<LedgerEvent>): int {
    if events == [] then 0
    else
      var n := |events| - 1;
      NetAllocated(events[..n]) + if events[n].id in Ids(events[..n]) then 0 else Allocates(events[n])
  }

  /** The printed allocation is exactly `units` * 10^-8. */
  predicate AllocatedIs(s: TradeState, units: int) {
    var f := FromString(s.allocatedVolume);
    f.Success? && f.value.s <= VOLUME_SCALE && Units(f.value, VOLUME_SCALE) == units
  }

  /** `volume` parses and is at least the allocated volume of `s`. */
  predicate Covers(volume: string, s: TradeState) {
    var v, a := FromString(volume), FromString(s.allocatedVolume);
    v.Success? && a.Success? && Cmp(a.value, v.value) <= 0
  }

  lemma ZeroAllocated(s: TradeState)
    requires s.allocatedVolume == "0"
    ensures AllocatedIs(s, 0) && FromString("0") == Success(Fixed(0, 0))
  {
    assert ToString(Fixed(0, 0)) == "0";
    RoundTrip(Fixed(0, 0));
  }

  lemma ExactRescale(f: Fixed, units: int)
    requires f.s <= VOLUME_SCALE && Units(f, VOLUME_SCALE) == units
    ensures Rescale(f, VOLUME_SCALE, HalfEven) == Fixed(units, VOLUME_SCALE)
    ensures FromString(ToString(Rescale(f, VOLUME_SCALE, HalfEven))) == Success(Fixed(units, VOLUME_SCALE))
    ensures Units(Fixed(units, VOLUME_SCALE), VOLUME_SCALE) == units
  {
    assert Pow10(0) == 1;
    RoundTrip(Rescale(f, VOLUME_SCALE, HalfEven));
  }

  lemma AddAllocatedExact(current: string, added: string, c: Fixed, a: Fixed)
    requires FromString(current) == Success(c) && FromString(added) == Success(a)
    requires c.s <= VOLUME_SCALE && a.s <= VOLUME_SCALE
    ensures AddAllocated(current, added).Success?
    ensures FromString(AddAllocated(current, added).value)
         == Success(Fixed(Units(c, VOLUME_SCALE) + Units(a, VOLUME_SCALE), VOLUME_SCALE))
  {
    hide Add, Rescale, ToString, FromString, Units;
    AddExact(c, a, VOLUME_SCALE);
    ExactRescale(Add(c, a), Units(c, VOLUME_SCALE) + Units(a, VOLUME_SCALE));
  }

  lemma SubAllocatedExact(current: string, removed: string, c: Fixed, r: Fixed)
    requires FromString(current) == Success(c) && FromString(removed) == Success(r)
    requires c.s <= VOLUME_SCALE && r.s <= VOLUME_SCALE
    ensures SubAllocated(current, removed).Success?
    ensures FromString(SubAllocated(current, removed).value)
         == Success(Fixed(Units(c, VOLUME_SCALE) - Units(r, VOLUME_SCALE), VOLUME_SCALE))
  {
    hide Sub, Rescale, ToString, FromString, Units;
    SubExact(c, r, VOLUME_SCALE);
    ExactRescale(Sub(c, r), Units(c, VOLUME_SCALE) - Units(r, VOLUME_SCALE));
  }

  /** A state whose allocation is exactly `net`, non-negative, and covered by the trade's volume. */
  predicate Sound(s: TradeState, net: int) {
    AllocatedIs(s, net) && net >= 0 && Covers(s.trade.financial.volume, s)
  }

  lemma SmallerIsCovered(volume: string, before: TradeState, after: TradeState, was: int, now: int)
    requires AllocatedIs(before, was) && AllocatedIs(after, now) && now <= was
    requires Covers(volume, before)
    ensures Covers(volume, after)
  {
    hide FromString, Units, Cmp;
    var a, b, v := FromString(before.allocatedVolume).value, FromString(after.allocatedVolume).value,
      FromString(volume).value;
    var k := MaxScale(VOLUME_SCALE, v.s);
    UnitsRefine(a, VOLUME_SCALE, k);
    UnitsRefine(b, VOLUME_SCALE, k);
    CmpExact(a, v, k);
    CmpExact(b, v, k);
    KeepOrder(now, was, Pow10(k - VOLUME_SCALE));
  }

  lemma KeepOrder(x: int, y: int, c: int)
    requires x <= y && c > 0
    ensures x * c <= y * c
  {
  }

  /** An accepted event moves the allocation by exactly what it says and never below zero. */
  lemma AllocationStep(s: TradeState, e: LedgerEvent, net: int)
    requires AllocatedIs(s, net) && net >= 0 && ExactEvent(e)
    requires ApplyEvent(Some(s), e).Success?
    ensures AllocatedIs(ApplyEvent(Some(s), e).value, net + Allocates(e))
    ensures net + Allocates(e) >= 0
  {
    hide FromString, ToString, Rescale, Add, Sub, Cmp, Units, PatchFinancial, PatchJournaling;
    var next := ApplyEvent(Some(s), e).value;
    var a := FromString(s.allocatedVolume).value;
    match e
    case ExitRecorded(_, _, _, _, exit) =>
      var x := FromString(exit.volume).value;
      AddAllocatedExact(s.allocatedVolume, exit.volume, a, x);
      PrintedUnits(net + Units(x, VOLUME_SCALE));
      NonNegativeUnits(x, VOLUME_SCALE);
    case ExitCancelled(_, _, _, _, _, volume) =>
      var x := FromString(volume).value;
      SubAllocatedExact(s.allocatedVolume, volume, a, x);
      PrintedUnits(net - Units(x, VOLUME_SCALE));
    case _ =>
  }

  lemma PrintedUnits(units: int)
    ensures Units(Fixed(units, VOLUME_SCALE), VOLUME_SCALE) == units
  {
    assert Pow10(0) == 1;
  }

  lemma NonNegativeUnits(f: Fixed, k: nat)
    requires f.s <= k && f.u >= 0
    ensures Units(f, k) >= 0
  {
  }

  /** From a sound state an accepted event leads to a sound state exactly when any new volume covers the allocation. */
  lemma SoundStep(s: TradeState, e: LedgerEvent, net: int)
    requires Sound(s, net) && ExactEvent(e) && ApplyEvent(Some(s), e).Success?
    ensures Sound(ApplyEvent(Some(s), e).value, net + Allocates(e))
       <==> (CorrectedVolume(e).Some? ==> Covers(CorrectedVolume(e).value, s))
  {
    AllocationStep(s, e, net);
    var next := ApplyEvent(Some(s), e).value;
    VolumeAfter(s, e);
    if e.ExitRecorded? {
      RecordedIsCovered(s, e);
    } else if e.ExitCancelled? {
      hide ApplyEvent, FromString, Units, AllocatedIs, Covers;
      NonNegativeUnits(FromString(e.volume).value, VOLUME_SCALE);
      SmallerIsCovered(s.trade.financial.volume, s, next, net, net + Allocates(e));
    }
    hide ApplyEvent, FromString, Units, AllocatedIs, Allocates;
  }

  lemma VolumeAfter(s: TradeState, e: LedgerEvent)
    requires ApplyEvent(Some(s), e).Success?
    ensures ApplyEvent(Some(s), e).value.trade.financial.volume == CorrectedVolume(e).GetOr(s.trade.financial.volume)
    ensures !e.ExitRecorded? && !e.ExitCancelled? ==> ApplyEvent(Some(s), e).value.allocatedVolume == s.allocatedVolume
  {
    hide FromString, ToString, Rescale, Add, Sub, Cmp, Units, AddAllocated, SubAllocated, Parse, ActorAllowed;
  }

  lemma RecordedIsCovered(s: TradeState, e: LedgerEvent)
    requires e.ExitRecorded? && ApplyEvent(Some(s), e).Success?
    ensures var next := ApplyEvent(Some(s), e).value; Covers(next.trade.financial.volume, next)
  {
    hide FromString, ToString, Rescale, Add, Sub, Cmp, Units, AddAllocated, ActorAllowed;
  }

  lemma NetAllocatedStep(events: seq<LedgerEvent>, i: nat)
    requires i < |events|
    ensures NetAllocated(events[..i + 1])
         == NetAllocated(events[..i]) + if events[i].id in Ids(events[..i]) then 0 else Allocates(events[i])
  {
    assert events[..i + 1][..i] == events[..i];
  }

  /** The state after the first i deliveries. */
  function After(events: seq<LedgerEvent>, i: nat): (s: TradeState)
    requires 0 < i <= |events| && Fold(events).Success?
  {
    PrefixFolds(events, i);
    AppliedAreSeen(events[..i]);
    Fold(events[..i]).value.state.value
  }

  lemma Opening(events: seq<LedgerEvent>)
    requires events != [] && Fold(events).Success? && ExactVolumes(events)
    ensures NetAllocated(events[..1]) == 0
    ensures Sound(After(events, 1), 0)
  {
    PrefixFolds(events, 0);
    PrefixFolds(events, 1);
    FoldStep(events, 0);
    NetAllocatedStep(events, 0);
    assert events[..0] == [];
    var s := After(events, 1);
    ZeroAllocated(s);
    hide FromString;
    CmpExact(Fixed(0, 0), FromString(s.trade.financial.volume).value, FromString(s.trade.financial.volume).value.s);
    assert Pow10(0) == 1;
  }

  lemma DeliveryStep(events: seq<LedgerEvent>, i: nat)
    requires 0 < i < |events| && Fold(events).Success?
    ensures if events[i].id in Ids(events[..i]) then After(events, i + 1) == After(events, i)
            else ApplyEvent(Some(After(events, i)), events[i]) == Success(After(events, i + 1))
  {
    hide Fold, ApplyEvent, Ids;
    PrefixFolds(events, i);
    PrefixFolds(events, i + 1);
    FoldStep(events, i);
    AppliedAreSeen(events[..i]);
  }

  /** Allocated volume is recorded minus cancelled volume after every prefix, and never negative. */
  lemma {:induction false} AllocationAccounted(events: seq<LedgerEvent>, i: nat)
    requires 0 < i <= |events| && Fold(events).Success? && ExactVolumes(events)
    ensures AllocatedIs(After(events, i), NetAllocated(events[..i]))
    ensures NetAllocated(events[..i]) >= 0
  {
    hide Fold, AllocatedIs, Sound, NetAllocated, Allocates, ApplyEvent, After, ExactVolume;
    if i == 1 {
      Opening(events);
      SoundParts(After(events, 1), 0);
    } else {
      AllocationAccounted(events, i - 1);
      DeliveryStep(events, i - 1);
      NetAllocatedStep(events, i - 1);
      if FirstDelivery(events, i - 1) {
        AllocationStep(After(events, i - 1), events[i - 1], NetAllocated(events[..i - 1]));
      }
    }
  }

  lemma SoundParts(s: TradeState, net: int)
    requires Sound(s, net)
    ensures AllocatedIs(s, net) && net >= 0
  {
  }

  /** Every applied correction of the volume still covers what is allocated when it arrives. */
  ghost predicate CorrectionsCover(events: seq<LedgerEvent>, upTo: nat)
    requires upTo <= |events| && Fold(events).Success?
  {
    forall i :: 0 < i < upTo && FirstDelivery(events, i) && CorrectedVolume(events[i]).Some? ==>
      Covers(CorrectedVolume(events[i]).value, After(events, i))
  }

  ghost predicate SoundUpTo(events: seq<LedgerEvent>, upTo: nat)
    requires upTo <= |events| && Fold(events).Success?
  {
    forall i :: 0 < i <= upTo ==> Sound(After(events, i), NetAllocated(events[..i]))
  }

  /**
   0 <= allocated = recorded - cancelled <= volume after every prefix, exactly when no
   correction lowered the volume below the allocation it found.
   */
  lemma {:induction false} AllocationSoundExactly(events: seq<LedgerEvent>, upTo: nat)
    requires 0 < upTo <= |events| && Fold(events).Success? && ExactVolumes(events)
    ensures SoundUpTo(events, upTo) <==> CorrectionsCover(events, upTo)
  {
    hide Fold, Sound, NetAllocated, Allocates, ApplyEvent, After, ExactVolume, Covers, CorrectedVolume, FirstDelivery;
    if upTo == 1 {
      Opening(events);
    } else {
      var i := upTo - 1;
      AllocationSoundExactly(events, i);
      if Sound(After(events, i), NetAllocated(events[..i])) {
        SoundNext(events, i);
      }
    }
  }

  /** The next event keeps the bounds exactly when it is no first delivery of a correction that does not cover. */
  lemma SoundNext(events: seq<LedgerEvent>, i: nat)
    requires 0 < i < |events| && Fold(events).Success? && ExactVolumes(events)
    requires Sound(After(events, i), NetAllocated(events[..i]))
    ensures Sound(After(events, i + 1), NetAllocated(events[..i + 1]))
       <==> (FirstDelivery(events, i) && CorrectedVolume(events[i]).Some? ==>
               Covers(CorrectedVolume(events[i]).value, After(events, i)))
  {
    hide Fold, Sound, NetAllocated, Allocates, ApplyEvent, After, ExactVolume, Covers, CorrectedVolume;
    DeliveryStep(events, i);
    NetAllocatedStep(events, i);
    if FirstDelivery(events, i) {
      SoundStep(After(events, i), events[i], NetAllocated(events[..i]));
    }
  }

  /** With no applied correction of the volume the bounds hold unconditionally. */
  lemma AllocationInvariant(events: seq<LedgerEvent>)
    requires events != [] && Fold(events).Success? && ExactVolumes(events)
    requires forall i :: 0 <= i < |events| && FirstDelivery(events, i) ==> CorrectedVolume(events[i]).None?
    ensures SoundUpTo(events, |events|)
  {
    AllocationSoundExactly(events, |events|);
  }

  // ---------------------------------------------------------------- a correction that does not cover

  function Opened(volume: string): NewTrade {
    NewTrade("t", None, None, "EURUSD", Buy, Open, TradeFinancial("1", None, volume, "1", "0", "0"),
             TradeJournaling(None, None, None, None), None, None)
  }

  const CREATED: LedgerEvent := TradeCreated("a", User, "", 0, Opened("1"))
  const EXITED: LedgerEvent := ExitRecorded("b", User, "", 0, TradeExit("x", "1", "1", ""))
  const LOWERED: LedgerEvent :=
    FinancialCorrected("c", Sync, "", 1, FinancialPatch(None, None, Some("0.5"), None, None, None))

  /** Volume 1, all of it exited, then corrected to 0.5. */
  const OVERDRAWN: seq<LedgerEvent> := [CREATED] + [EXITED] + [LOWERED]

  lemma OverdrawnTexts()
    ensures FromString("0") == Success(Fixed(0, 0)) && FromString("1") == Success(Fixed(1, 0))
    ensures FromString("0.5") == Success(Fixed(5, 1))
  {
    hide FromString, ToString, ParseNat;
    OneDigitText(0);
    OneDigitText(1);
    RoundTrip(Fixed(0, 0));
    RoundTrip(Fixed(1, 0));
    HalfText();
  }

  lemma HalfText()
    ensures FromString("0.5") == Success(Fixed(5, 1))
  {
    assert "0" + "5" == "05" && "05"[..1] == "0" && "0"[..0] == "";
    assert ParseNat("0") == 0;
    assert ParseNat("05") == 5;
    hide FromString, ParseNat;
    ParseWritten(false, "0", "5", "0.5");
  }

  lemma OverdrawnOrder()
    ensures Cmp(Fixed(100000000, 8), Fixed(1, 0)) == 0 && Cmp(Fixed(100000000, 8), Fixed(5, 1)) > 0
    ensures Units(Fixed(0, 0), VOLUME_SCALE) + Units(Fixed(1, 0), VOLUME_SCALE) == 100000000
  {
    assert Pow10(0) == 1 && Pow10(7) == 10000000 && Pow10(8) == 100000000;
    hide Pow10;
  }

  /** The exit of the whole volume is accepted. */
  lemma ExitAccepted(s: TradeState)
    requires s.trade == Opened("1") && s.allocatedVolume == "0" && s.version == 0 && s.deletedAt.None?
    ensures var r := ApplyEvent(Some(s), EXITED);
            && r.Success? && r.value.trade == s.trade && r.value.version == 1 && r.value.deletedAt.None?
            && FromString(r.value.allocatedVolume) == Success(Fixed(100000000, 8))
  {
    hide FromString, Cmp, Units, AddAllocated;
    OverdrawnTexts();
    OverdrawnOrder();
    AddAllocatedExact("0", "1", Fixed(0, 0), Fixed(1, 0));
  }

  lemma FoldOne(events: seq<LedgerEvent>, e: LedgerEvent)
    requires Fold(events).Success? && e.id !in Fold(events).value.appliedIds
    requires ApplyEvent(Fold(events).value.state, e).Success?
    ensures Fold(events + [e])
         == Success(Folded(Some(ApplyEvent(Fold(events).value.state, e).value), Fold(events).value.appliedIds + {e.id}))
  {
    hide ApplyEvent;
    assert (events + [e])[..|events|] == events;
  }

  lemma OverdrawnFolds()
    ensures Fold(OVERDRAWN).Success? && Fold(OVERDRAWN).value.state.Some?
    ensures var s := Fold(OVERDRAWN).value.state.value;
            s.trade.financial.volume == "0.5" && FromString(s.allocatedVolume) == Success(Fixed(100000000, 8))
  {
    hide Fold, FromString, ApplyEvent;
    CreatedFolds();
    var s := Fold([CREATED]).value.state.value;
    ExitAccepted(s);
    FoldOne([CREATED], EXITED);
    var t := Fold([CREATED] + [EXITED]).value.state.value;
    LoweringAccepted(t);
    FoldOne([CREATED] + [EXITED], LOWERED);
  }

  lemma CreatedFolds()
    ensures Fold([CREATED]).Success? && Fold([CREATED]).value.appliedIds == {"a"}
    ensures Fold([CREATED]).value.state.Some?
    ensures var s := Fold([CREATED]).value.state.value;
            s.trade == Opened("1") && s.allocatedVolume == "0" && s.version == 0 && s.deletedAt.None?
  {
    FoldNothing([]);
    assert [] + [CREATED] == [CREATED];
    hide Fold, FromString, AddAllocated;
    FoldOne([], CREATED);
  }

  lemma LoweringAccepted(s: TradeState)
    requires s.version == 1 && s.deletedAt.None?
    ensures var r := ApplyEvent(Some(s), LOWERED);
            && r.Success? && r.value.trade.financial.volume == "0.5" && r.value.allocatedVolume == s.allocatedVolume
  {
    hide FromString, AddAllocated;
  }

  /** The log folds, its volumes are exact, and it ends with more allocated than the trade has. */
  lemma LoweredVolumeOverdraws()
    ensures Fold(OVERDRAWN).Success? && ExactVolumes(OVERDRAWN)
    ensures !SoundUpTo(OVERDRAWN, 3) && !CorrectionsCover(OVERDRAWN, 3)
  {
    OverdrawnFolds();
    OverdrawnExact();
    OverdrawnOrder();
    OverdrawnTexts();
    hide FromString, Cmp, Fold, AllocatedIs, NetAllocated, ExactVolumes, CorrectionsCover, Units;
    assert OVERDRAWN[..3] == OVERDRAWN;
    assert !Sound(After(OVERDRAWN, 3), NetAllocated(OVERDRAWN[..3]));
    AllocationSoundExactly(OVERDRAWN, 3);
  }

  lemma OverdrawnExact()
    ensures ExactVolumes(OVERDRAWN)
  {
    OverdrawnTexts();
    hide FromString;
  }
}
