/** What the assembly keeps, over every ledger: every fill and key once, no effect of repetitions or order. */
module AssemblyProperties {
  import opened Wrappers
  import opened FillArithmetic
  import opened FillFigures
  import opened PositionAssembly
  import opened FillLedger
  import opened Decimal
  import Digits
  import opened Sequences
  import Text

  // ---------------------------------------------------------------- each key once

  function TradeKeys(trades: seq<AssembledPosition>): seq<string> {
    if trades == [] then [] else TradeKeys(trades[..|trades| - 1]) + [trades[|trades| - 1].positionKey]
  }

  function SkipKeys(skips: seq<AssemblySkip>): seq<string> {
    if skips == [] then [] else SkipKeys(skips[..|skips| - 1]) + [skips[|skips| - 1].key]
  }

  function KeyFor(p: Position): string {
    match p
    case Trade(t) => t.positionKey
    case Skip(s) => s.key
  }

  lemma OutcomeKey(key: string, ins: seq<Fill>, outs: seq<Fill>)
    requires Outcome(key, ins, outs).Success?
    ensures KeyFor(Outcome(key, ins, outs).value) == key
  {
    hide Sum, Average, Boundary, Direct, Symbol, Print8, Text.Less;
  }

  /** The keyless skips come first; after them each key is the key of exactly one trade or one skip. */
  ghost predicate Accounts(keys: seq<string>, keyless: seq<Fill>, r: AssemblyResult) {
    && |keyless| <= |r.skipped| && r.skipped[..|keyless|] == KeylessSkips(keyless)
    && multiset(TradeKeys(r.trades)) + multiset(SkipKeys(r.skipped[|keyless|..])) == multiset(keys)
    && |r.trades| + |r.skipped| == |keyless| + |keys|
  }

  lemma TradeKeysNext(trades: seq<AssembledPosition>, t: AssembledPosition)
    ensures TradeKeys(trades + [t]) == TradeKeys(trades) + [t.positionKey]
  {
    assert (trades + [t])[..|trades|] == trades;
  }

  lemma SkipKeysNext(skips: seq<AssemblySkip>, s: AssemblySkip)
    ensures SkipKeys(skips + [s]) == SkipKeys(skips) + [s.key]
  {
    assert (skips + [s])[..|skips|] == skips;
  }

  lemma AccountsNext(keys: seq<string>, key: string, keyless: seq<Fill>, r: AssemblyResult, p: Position)
    requires Accounts(keys, keyless, r) && KeyFor(p) == key
    ensures Accounts(keys + [key], keyless, With(r, p))
  {
    hide KeylessSkips, TradeKeys, SkipKeys;
    var k := |keyless|;
    match p
    case Trade(t) =>
      TradeKeysNext(r.trades, t);
    case Skip(s) =>
      assert (r.skipped + [s])[k..] == r.skipped[k..] + [s];
      SkipKeysNext(r.skipped[k..], s);
  }

  lemma {:induction false} CollectAccounts(keys: seq<string>, admitted: seq<Fill>)
    requires Collect(keys, admitted).Success?
    ensures Accounts(keys, Keyless(admitted), Collect(keys, admitted).value)
  {
    hide Outcome, Ins, Outs, Accounts, With;
    if keys == [] {
      NoKeys(admitted);
    } else {
      var n := |keys| - 1;
      CollectAccounts(keys[..n], admitted);
      OutcomeKey(keys[n], Ins(admitted, keys[n]), Outs(admitted, keys[n]));
      AccountsNext(keys[..n], keys[n], Keyless(admitted), Collect(keys[..n], admitted).value,
                   Outcome(keys[n], Ins(admitted, keys[n]), Outs(admitted, keys[n])).value);
      assert keys == keys[..n] + [keys[n]];
    }
  }

  lemma NoKeys(admitted: seq<Fill>)
    ensures Accounts([], Keyless(admitted), AssemblyResult([], KeylessSkips(Keyless(admitted))))
  {
    var skips := KeylessSkips(Keyless(admitted));
    assert skips[..|skips|] == skips && skips[|skips|..] == [];
  }

  /** The key's own outcome is in the result. */
  lemma {:induction false} CollectHolds(keys: seq<string>, admitted: seq<Fill>, key: string)
    requires Collect(keys, admitted).Success? && key in keys
    ensures Outcome(key, Ins(admitted, key), Outs(admitted, key)).Success?
    ensures var r := Collect(keys, admitted).value;
            match Outcome(key, Ins(admitted, key), Outs(admitted, key)).value
            case Trade(t) => t in r.trades
            case Skip(s) => s in r.skipped
  {
    hide Outcome, Ins, Outs;
    var n := |keys| - 1;
    if key != keys[n] {
      assert keys == keys[..n] + [keys[n]];
      CollectHolds(keys[..n], admitted, key);
    }
  }

  /** Every position key yields exactly one trade or one skip, and every keyless fill one skip. */
  lemma EachKeyOnce(fills: seq<Fill>)
    requires Assembled(fills).Success?
    ensures var admitted := Admitted(fills);
            && Accounts(Keys(admitted), Keyless(admitted), Assembled(fills).value)
            && (forall i, j :: 0 <= i < j < |Keys(admitted)| ==> Keys(admitted)[i] != Keys(admitted)[j])
            && (forall k :: k in Keys(admitted) <==> exists f :: f in admitted && KeyOf(f) == Some(k))
  {
    hide Accounts, KeyOf, Keyless;
    CollectAccounts(Keys(Admitted(fills)), Admitted(fills));
    KeysDistinct(Admitted(fills));
  }

  // ---------------------------------------------------------------- every result on the fields of its fills

  /** Each trade, and each skip behind the keyless ones, is what the fills of its own position say. */
  ghost predicate OnFields(r: AssemblyResult, keyless: nat, admitted: seq<Fill>) {
    && keyless <= |r.skipped|
    && (forall i :: 0 <= i < |r.trades| ==> TradeOnFields(r.trades[i], admitted))
    && (forall i :: keyless <= i < |r.skipped| ==> SkipOnFields(r.skipped[i], admitted))
  }

  ghost predicate TradeOnFields(t: AssembledPosition, admitted: seq<Fill>) {
    IsTrade(t, t.positionKey, Ins(admitted, t.positionKey), Outs(admitted, t.positionKey))
  }

  ghost predicate SkipOnFields(s: AssemblySkip, admitted: seq<Fill>) {
    IsReason(s.reason, Ins(admitted, s.key), Outs(admitted, s.key))
  }

  lemma OnFieldsNext(r: AssemblyResult, keyless: nat, admitted: seq<Fill>, key: string, p: Position)
    requires OnFields(r, keyless, admitted) && IsOutcome(p, key, Ins(admitted, key), Outs(admitted, key))
    ensures OnFields(With(r, p), keyless, admitted)
  {
    hide IsTrade, IsReason, Ins, Outs;
    match p
    case Trade(t) =>
      TradeHasKey(t, key, Ins(admitted, key), Outs(admitted, key));
      assert TradeOnFields(t, admitted);
      hide TradeOnFields, SkipOnFields;
    case Skip(s) =>
      assert SkipOnFields(s, admitted);
      hide TradeOnFields, SkipOnFields;
  }

  lemma TradeHasKey(t: AssembledPosition, key: string, ins: seq<Fill>, outs: seq<Fill>)
    requires IsTrade(t, key, ins, outs)
    ensures t.positionKey == key
  {
    hide Closes, SumText, FillFigures.Total, IsAveragePrice, Text.Less;
  }

  lemma {:induction false} CollectOnFields(keys: seq<string>, admitted: seq<Fill>)
    requires Collect(keys, admitted).Success?
    ensures OnFields(Collect(keys, admitted).value, |Keyless(admitted)|, admitted)
  {
    hide Outcome, Ins, Outs, Keyless, IsOutcome, IsTrade, IsReason, OnFields, With;
    if keys == [] {
      NothingOnFields(admitted);
    } else {
      var n := |keys| - 1;
      CollectOnFields(keys[..n], admitted);
      OutcomeOnFields(keys[n], Ins(admitted, keys[n]), Outs(admitted, keys[n]));
      OnFieldsNext(Collect(keys[..n], admitted).value, |Keyless(admitted)|, admitted, keys[n],
                   Outcome(keys[n], Ins(admitted, keys[n]), Outs(admitted, keys[n])).value);
    }
  }

  lemma NothingOnFields(admitted: seq<Fill>)
    ensures OnFields(AssemblyResult([], KeylessSkips(Keyless(admitted))), |Keyless(admitted)|, admitted)
  {
    hide Keyless, TradeOnFields, SkipOnFields;
  }

  /** A fill whose position cannot be named is skipped under its deal id, or as "deal". */
  lemma ResultsOnFields(fills: seq<Fill>)
    requires Assembled(fills).Success?
    ensures var admitted := Admitted(fills);
            var r := Assembled(fills).value;
            && OnFields(r, |Keyless(admitted)|, admitted)
            && forall i :: 0 <= i < |Keyless(admitted)| ==>
                  var f := Keyless(admitted)[i];
                  r.skipped[i] == AssemblySkip(if f.externalDealId.Some? then f.externalDealId.value else "deal",
                                               UnpairedDealNoPositionId)
  {
    hide Accounts, KeyOf, Keyless, IsTrade, IsReason, Ins, Outs;
    CollectOnFields(Keys(Admitted(fills)), Admitted(fills));
    CollectAccounts(Keys(Admitted(fills)), Admitted(fills));
    KeylessFirst(Keyless(Admitted(fills)), Assembled(fills).value, Keys(Admitted(fills)));
  }

  lemma KeylessFirst(keyless: seq<Fill>, r: AssemblyResult, keys: seq<string>)
    requires Accounts(keys, keyless, r)
    ensures |keyless| <= |r.skipped|
    ensures forall i :: 0 <= i < |keyless| ==> r.skipped[i] == KeylessSkip(keyless[i])
  {
    hide TradeKeys, SkipKeys;
    forall i | 0 <= i < |keyless|
      ensures r.skipped[i] == KeylessSkip(keyless[i])
    {
      assert r.skipped[..|keyless|][i] == r.skipped[i];
    }
  }

  // ---------------------------------------------------------------- each fill once

  function Members(keys: seq<string>, admitted: seq<Fill>): multiset<Fill> {
    if keys == [] then multiset{}
    else
      var n := |keys| - 1;
      Members(keys[..n], admitted) + (multiset(Ins(admitted, keys[n])) + multiset(Outs(admitted, keys[n])))
  }

  lemma GroupNext(admitted: seq<Fill>, f: Fill, key: string)
    requires f.entryType.Some?
    ensures multiset(Ins(admitted + [f], key)) + multiset(Outs(admitted + [f], key))
         == multiset(Ins(admitted, key)) + multiset(Outs(admitted, key))
           + if KeyOf(f) == Some(key) then multiset{f} else multiset{}
  {
    hide Ins, Outs, KeyOf;
    SidesNext(admitted, f, key);
  }

  lemma {:induction false} MembersNext(keys: seq<string>, admitted: seq<Fill>, f: Fill)
    requires forall i, j :: 0 <= i < j < |keys| ==> keys[i] != keys[j]
    requires f.entryType.Some?
    ensures Members(keys, admitted + [f])
         == Members(keys, admitted) + if KeyOf(f).Some? && KeyOf(f).value in keys then multiset{f} else multiset{}
  {
    hide PositionGroupKey, Filter, Ins, Outs, KeyOf;
    if keys != [] {
      var n := |keys| - 1;
      assert keys == keys[..n] + [keys[n]];
      MembersNext(keys[..n], admitted, f);
      GroupNext(admitted, f, keys[n]);
      assert KeyOf(f) == Some(keys[n]) ==> keys[n] !in keys[..n];
      assert KeyOf(f).Some? && KeyOf(f).value in keys
        <==> KeyOf(f) == Some(keys[n]) || (KeyOf(f).Some? && KeyOf(f).value in keys[..n]);
    }
  }

  lemma {:induction false} NoMembers(keys: seq<string>)
    ensures Members(keys, []) == multiset{}
  {
    if keys != [] {
      NoMembers(keys[..|keys| - 1]);
    }
  }

  /** A key no fill carries has no members. */
  lemma {:induction false} EmptyGroup(admitted: seq<Fill>, key: string)
    requires forall f :: f in admitted ==> KeyOf(f) != Some(key)
    ensures Ins(admitted, key) == [] && Outs(admitted, key) == []
  {
    hide PositionGroupKey, KeyOf;
    if admitted != [] {
      var n := |admitted| - 1;
      assert admitted == admitted[..n] + [admitted[n]];
      EmptyGroup(admitted[..n], key);
    }
  }

  predicate AllEntries(fills: seq<Fill>) {
    forall f :: f in fills ==> f.entryType.Some?
  }

  lemma {:induction false} Conserved(admitted: seq<Fill>)
    requires AllEntries(admitted)
    ensures multiset(admitted) == multiset(Keyless(admitted)) + Members(Keys(admitted), admitted)
  {
    hide PositionGroupKey, Ins, Outs, Keys, Filter, Members, KeyOf;
    if admitted == [] {
      NothingConserved();
    } else {
      var n := |admitted| - 1;
      var front, f := admitted[..n], admitted[n];
      assert admitted == front + [f];
      Conserved(front);
      KeysDistinct(front);
      KeysNext(front, f);
      FilterNext(front, f, Keyed(None));
      var before := Keys(front);
      MembersNext(before, front, f);
      if KeyOf(f).Some? && KeyOf(f).value !in before {
        NewKeyConserved(front, f, before);
      }
    }
  }

  lemma NothingConserved()
    ensures multiset([]) == multiset(Keyless([])) + Members(Keys([]), [])
  {
  }

  lemma NewKeyConserved(front: seq<Fill>, f: Fill, before: seq<string>)
    requires f.entryType.Some? && KeyOf(f).Some? && KeyOf(f).value !in before && before == Keys(front)
    ensures Members(before + [KeyOf(f).value], front + [f]) == Members(before, front + [f]) + multiset{f}
  {
    hide PositionGroupKey, Keys, Filter, Ins, Outs, KeyOf;
    var key := KeyOf(f).value;
    KeysDistinct(front);
    EmptyGroup(front, key);
    SidesNext(front, f, key);
    assert (before + [key])[..|before|] == before;
  }

  lemma {:induction false} AdmittedEntries(fills: seq<Fill>)
    ensures AllEntries(Admitted(fills))
    ensures forall f :: f in Admitted(fills) ==> f in fills
  {
    if fills != [] {
      var n := |fills| - 1;
      AdmittedEntries(fills[..n]);
      assert fills == fills[..n] + [fills[n]];
    }
  }

  /** Every admitted fill is a keyless fill or on one side of one position, and nothing else is. */
  lemma EachFillOnce(fills: seq<Fill>)
    ensures multiset(Admitted(fills))
        == multiset(Keyless(Admitted(fills))) + Members(Keys(Admitted(fills)), Admitted(fills))
  {
    AdmittedEntries(fills);
    Conserved(Admitted(fills));
  }

  // ---------------------------------------------------------------- repetitions

  lemma {:induction false} RepetitionsIgnored(fills: seq<Fill>, more: seq<Fill>)
    requires forall g :: g in more ==> g.entryType.None? || Repeats(g, fills)
    ensures Admitted(fills + more) == Admitted(fills)
    ensures Assembled(fills + more) == Assembled(fills)
  {
    hide Collect, Keys;
    if more == [] {
      assert fills + more == fills;
    } else {
      var n := |more| - 1;
      var all := fills + more;
      assert more == more[..n] + [more[n]];
      assert all[..|all| - 1] == fills + more[..n];
      RepetitionsIgnored(fills, more[..n]);
      assert Repeats(more[n], fills) ==> Repeats(more[n], fills + more[..n]);
    }
  }

  // ---------------------------------------------------------------- a position's own fills

  function Own(fills: seq<Fill>, key: string): seq<Fill> {
    Filter(fills, Keyed(Some(key)))
  }

  /** A fill of the position whose deal id appeared before, but only under other positions. */
  predicate TakenAt(fills: seq<Fill>, key: string, j: nat)
    requires j < |fills|
  {
    KeyOf(fills[j]) == Some(key) && fills[j].entryType.Some?
    && Repeats(fills[j], fills[..j]) && !Repeats(fills[j], Own(fills[..j], key))
  }

  predicate Taken(fills: seq<Fill>, key: string) {
    exists j :: 0 <= j < |fills| && TakenAt(fills, key, j)
  }

  lemma TakenNext(fills: seq<Fill>, n: nat, key: string)
    requires n < |fills|
    ensures Taken(fills[..n + 1], key) <==> Taken(fills[..n], key) || TakenAt(fills, key, n)
  {
    hide Own, Repeats, KeyOf;
    var more, less := fills[..n + 1], fills[..n];
    assert more[..n] == less;
    forall j | 0 <= j < n
      ensures TakenAt(more, key, j) <==> TakenAt(less, key, j)
    {
      assert more[..j] == less[..j];
    }
    assert TakenAt(more, key, n) <==> TakenAt(fills, key, n);
    if Taken(less, key) {
      var j :| 0 <= j < |less| && TakenAt(less, key, j);
      assert TakenAt(more, key, j);
    }
  }

  /** Deduplicating the whole ledger or the position's fills alone: the ledger never keeps more. */
  lemma {:induction false} OwnAdmitted(fills: seq<Fill>, n: nat, key: string)
    requires n <= |fills|
    ensures var a, b := Own(Admitted(fills[..n]), key), Admitted(Own(fills[..n], key));
            && |a| <= |b|
            && (if Taken(fills[..n], key) then |a| < |b| else a == b)
  {
    hide PositionGroupKey, Filter, Admitted, Repeats, KeyOf, TakenAt, Taken;
    if n == 0 {
      NothingOwned(fills, key);
    } else {
      OwnAdmitted(fills, n - 1, key);
      OwnStep(fills, n - 1, key);
      TakenNext(fills, n - 1, key);
    }
  }

  lemma NothingOwned(fills: seq<Fill>, key: string)
    ensures fills[..0] == [] && Own(Admitted([]), key) == [] && Admitted(Own([], key)) == [] && !Taken([], key)
  {
  }

  /** One more fill, on both sides. */
  lemma OwnStep(fills: seq<Fill>, n: nat, key: string)
    requires n < |fills|
    ensures var f, own := fills[n], Own(fills[..n], key);
            && Own(Admitted(fills[..n + 1]), key)
               == (if KeyOf(f) == Some(key) && f.entryType.Some? && !Repeats(f, fills[..n])
                   then Own(Admitted(fills[..n]), key) + [f] else Own(Admitted(fills[..n]), key))
            && Admitted(Own(fills[..n + 1], key))
               == (if KeyOf(f) == Some(key) && f.entryType.Some? && !Repeats(f, own) then Admitted(own) + [f]
                 else Admitted(own))
            && (TakenAt(fills, key, n)
                <==> KeyOf(f) == Some(key) && f.entryType.Some? && Repeats(f, fills[..n]) && !Repeats(f, own))
            && (KeyOf(f) == Some(key) && Repeats(f, own) ==> Repeats(f, fills[..n]))
  {
    hide PositionGroupKey, Filter, KeyOf, Admitted;
    var f, own := fills[n], Own(fills[..n], key);
    AdmittedNext(fills, n);
    FilterNext(fills[..n], f, Keyed(Some(key)));
    FilterNext(Admitted(fills[..n]), f, Keyed(Some(key)));
    FilterMembers(fills[..n], Keyed(Some(key)));
    if KeyOf(f) == Some(key) {
      AdmittedNext(own + [f], |own|);
      assert (own + [f])[..|own|] == own && (own + [f])[..|own| + 1] == own + [f];
    } else {
      assert own + [] == own;
    }
  }

  /** A position's admitted fills are its own ones deduplicated exactly when no other position took one of its
     deal ids first. */
  lemma OwnFillsExactly(fills: seq<Fill>, key: string)
    ensures Own(Admitted(fills), key) == Admitted(Own(fills, key)) <==> !Taken(fills, key)
  {
    hide Own, Admitted, Taken;
    OwnAdmitted(fills, |fills|, key);
    assert fills[..|fills|] == fills;
  }

  lemma {:induction false} SideOfOwn(admitted: seq<Fill>, key: string, side: Side)
    ensures Filter(admitted, On(key, side)) == Filter(Own(admitted, key), On(key, side))
  {
    hide PositionGroupKey, KeyOf;
    if admitted != [] {
      var n := |admitted| - 1;
      SideOfOwn(admitted[..n], key, side);
      var own, f := Own(admitted[..n], key), admitted[n];
      FilterNext(own, f, On(key, side));
      assert Own(admitted, key) == if KeyOf(f) == Some(key) then own + [f] else own;
    }
  }

  /** So two ledgers that agree on a position's fills agree on its result, whatever else they hold. */
  lemma OnlyOwnFillsMatter(fills: seq<Fill>, others: seq<Fill>, key: string)
    requires Own(fills, key) == Own(others, key) && !Taken(fills, key) && !Taken(others, key)
    ensures Outcome(key, Ins(Admitted(fills), key), Outs(Admitted(fills), key))
         == Outcome(key, Ins(Admitted(others), key), Outs(Admitted(others), key))
  {
    hide Own, Admitted, Outcome, Taken, Filter;
    OwnFillsExactly(fills, key);
    OwnFillsExactly(others, key);
    SideOfOwn(Admitted(fills), key, In);
    SideOfOwn(Admitted(fills), key, Out);
    SideOfOwn(Admitted(others), key, In);
    SideOfOwn(Admitted(others), key, Out);
  }

  // ---------------------------------------------------------------- the order of the fills

  /** No deal is named twice. */
  predicate DistinctDeals(m: multiset<Fill>) {
    && (forall f, g :: f in m && g in m && f != g ==> !SameDeal(f, g))
    && (forall f :: f in m && SameDeal(f, f) ==> m[f] == 1)
  }

  function Entry(): Fill -> bool {
    (f: Fill) => f.entryType.Some?
  }

  lemma NotRepeated(fills: seq<Fill>, n: nat)
    requires n < |fills| && DistinctDeals(multiset(fills))
    ensures fills[n].entryType.Some? ==> !Repeats(fills[n], fills[..n])
  {
    var f := fills[n];
    assert fills == fills[..n] + [f] + fills[n + 1..];
    forall g | g in fills[..n]
      ensures !SameDeal(f, g)
    {
      assert g in multiset(fills) && f in multiset(fills);
      if g == f {
        assert f in multiset(fills[..n]);
        assert multiset(fills)[f] >= 2;
      }
    }
  }

  /** Without repetitions every in or out fill is admitted. */
  lemma {:induction false} DistinctAdmitted(fills: seq<Fill>, n: nat)
    requires n <= |fills| && DistinctDeals(multiset(fills))
    ensures Admitted(fills[..n]) == Filter(fills[..n], Entry())
  {
    hide DistinctDeals, Repeats;
    if n > 0 {
      DistinctAdmitted(fills, n - 1);
      NotRepeated(fills, n - 1);
      AdmittedNext(fills, n - 1);
      FilterNext(fills[..n - 1], fills[n - 1], Entry());
    }
  }

  lemma FilterPermuted(a: seq<Fill>, b: seq<Fill>, p: Fill -> bool)
    requires multiset(a) == multiset(b)
    ensures multiset(Filter(a, p)) == multiset(Filter(b, p))
  {
    forall f
      ensures multiset(Filter(a, p))[f] == multiset(Filter(b, p))[f]
    {
      FilterCount(a, p, f);
      FilterCount(b, p, f);
    }
  }

  /** Equal but for what the first fill decides: symbol, direction and the raw boundary texts. */
  predicate Agrees(p: Position, q: Position) {
    match (p, q)
    case (Trade(t), Trade(u)) =>
      && t.positionKey == u.positionKey && t.entryPrice == u.entryPrice && t.exitPrice == u.exitPrice
      && t.volume == u.volume && t.profitLoss == u.profitLoss && t.commission == u.commission && t.swap == u.swap
      && t.openInstantUtc == u.openInstantUtc && t.closeInstantUtc == u.closeInstantUtc
    case (Skip(s), Skip(v)) => s == v
    case _ => false
  }

  predicate SameOutcome(a: Result<Position, DecimalError>, b: Result<Position, DecimalError>) {
    (a.Failure? && b.Failure? && a.error == b.error) || (a.Success? && b.Success? && Agrees(a.value, b.value))
  }

  lemma DirectPermuted(a: seq<Fill>, b: seq<Fill>)
    requires multiset(a) == multiset(b)
    ensures Direct(a).Some? <==> Direct(b).Some?
    ensures Symbol(a).Some? <==> Symbol(b).Some?
  {
    hide Named;
    SamePermuted(a, b);
    DirectSome(a);
    DirectSome(b);
    SymbolSome(a);
    SymbolSome(b);
  }

  lemma ValuedPermuted(key: string, ins: seq<Fill>, outs: seq<Fill>, ins2: seq<Fill>, outs2: seq<Fill>, volume: int,
                       opening: Fill, closing: Fill, opening2: Fill, closing2: Fill)
    requires multiset(ins) == multiset(ins2) && multiset(outs) == multiset(outs2)
    requires Direct(ins).Some? && opening.occurredAtUtc.Some? && closing.occurredAtUtc.Some?
    requires Direct(ins2).Some? && opening2.occurredAtUtc == opening.occurredAtUtc
        && closing2.occurredAtUtc == closing.occurredAtUtc
    ensures SameOutcome(Valued(key, ins, outs, volume, opening, closing),
        Valued(key, ins2, outs2, volume, opening2, closing2))
  {
    hide Sum, Average, Symbol, Direct, Print8;
    AveragePermuted(ins, ins2);
    AveragePermuted(outs, outs2);
    assert multiset(ins + outs) == multiset(ins2 + outs2);
    SumPermuted(ins + outs, ins2 + outs2, Profit);
    SumPermuted(ins + outs, ins2 + outs2, Commission);
    SumPermuted(ins + outs, ins2 + outs2, Swap);
    DirectPermuted(ins, ins2);
    DirectPermuted(outs, outs2);
  }

  lemma OutcomePermuted(key: string, ins: seq<Fill>, outs: seq<Fill>, ins2: seq<Fill>, outs2: seq<Fill>)
    requires multiset(ins) == multiset(ins2) && multiset(outs) == multiset(outs2)
    ensures SameOutcome(Outcome(key, ins, outs), Outcome(key, ins2, outs2))
  {
    hide Sum, Average, Symbol, Direct, Print8, Boundary, Valued, Text.Less;
    assert |ins| == |multiset(ins)| && |ins2| == |multiset(ins2)| && |outs| == |multiset(outs)|
      && |outs2| == |multiset(outs2)|;
    SumPermuted(ins, ins2, Volume);
    SumPermuted(outs, outs2, Volume);
    BoundaryPermuted(ins, ins2, false);
    BoundaryPermuted(outs, outs2, true);
    DirectPermuted(ins, ins2);
    var opening, closing := Boundary(ins, false), Boundary(outs, true);
    if opening.Some? && closing.Some? && Direct(ins).Some? && Sum(ins, Volume).Success?
      && Sum(ins, Volume).value.Some? {
      ValuedPermuted(key, ins, outs, ins2, outs2, Sum(ins, Volume).value.value, opening.value, closing.value,
                     Boundary(ins2, false).value, Boundary(outs2, true).value);
    }
  }

  /** Reordering fills whose deals are distinct changes no position's prices, volume, money sums or boundary
     instants. */
  lemma OrderIrrelevant(a: seq<Fill>, b: seq<Fill>, key: string)
    requires multiset(a) == multiset(b) && DistinctDeals(multiset(a))
    ensures key in Keys(Admitted(a)) <==> key in Keys(Admitted(b))
    ensures SameOutcome(Outcome(key, Ins(Admitted(a), key), Outs(Admitted(a), key)),
                        Outcome(key, Ins(Admitted(b), key), Outs(Admitted(b), key)))
    ensures multiset(Keyless(Admitted(a))) == multiset(Keyless(Admitted(b)))
  {
    hide Outcome, SameOutcome, Filter, DistinctDeals, Keys, KeyOf, Admitted;
    DistinctAdmitted(a, |a|);
    DistinctAdmitted(b, |b|);
    assert a[..|a|] == a && b[..|b|] == b;
    FilterPermuted(a, b, Entry());
    var x, y := Admitted(a), Admitted(b);
    FilterPermuted(x, y, On(key, In));
    FilterPermuted(x, y, On(key, Out));
    FilterPermuted(x, y, Keyed(None));
    OutcomePermuted(key, Ins(x, key), Outs(x, key), Ins(y, key), Outs(y, key));
    KeysDistinct(x);
    KeysDistinct(y);
    SamePermuted(x, y);
  }

  // ---------------------------------------------------------------- prices of a trade

  lemma TradePrices(key: string, ins: seq<Fill>, outs: seq<Fill>, t: AssembledPosition)
    requires Outcome(key, ins, outs) == Success(Trade(t))
    ensures Average(ins).Success? && Positive(Average(ins).value) && t.entryPrice == Print8(Average(ins).value.value)
    ensures Average(outs).Success? && Positive(Average(outs).value) && t.exitPrice == Print8(Average(outs).value.value)
  {
    hide Sum, Average, Symbol, Direct, Print8, Boundary, Text.Less;
  }

  /** The printed entry price of a trade never exceeds the highest price it averages; likewise the exit. */
  lemma TradePricesAtMost(key: string, ins: seq<Fill>, outs: seq<Fill>, t: AssembledPosition, bound: Fixed)
    requires Outcome(key, ins, outs) == Success(Trade(t))
    ensures FromString(t.entryPrice).Success? && FromString(t.exitPrice).Success?
    ensures PlainVolumes(ins) && PricesAtMost(ins, bound) ==> Cmp(FromString(t.entryPrice).value, bound) <= 0
    ensures PlainVolumes(outs) && PricesAtMost(outs, bound) ==> Cmp(FromString(t.exitPrice).value, bound) <= 0
  {
    hide Outcome, Average, PlainVolumes, PricesAtMost, Cmp, FromString, IsDecimal, ToString, IsPositive;
    TradePrices(key, ins, outs, t);
    var entry, exit := Average(ins).value.value, Average(outs).value.value;
    ReadBack(entry);
    ReadBack(exit);
    if PlainVolumes(ins) && PricesAtMost(ins, bound) {
      PositiveAverageAtMost(ins, bound, entry);
    }
    if PlainVolumes(outs) && PricesAtMost(outs, bound) {
      PositiveAverageAtMost(outs, bound, exit);
    }
  }

  // ---------------------------------------------------------------- a deal id two positions share

  /** A fill of volume 1 at price 9. */
  function Simple(dealId: string, positionId: string, side: Side): Fill {
    Fill(Some(dealId), Some(positionId), Some(side), Some(Buy), Some("EURUSD"), Some("1"), Some("9"), None, None, None,
      Some("t"), None)
  }

  lemma SimpleKey(dealId: string, side: Side)
    ensures KeyOf(Simple(dealId, "A", side)) == Some("pos-A") && KeyOf(Simple(dealId, "B", side)) == Some("pos-B")
  {
    hide Text.JsTrim;
    Text.JsTrimKeeps("A");
    Text.JsTrimKeeps("B");
    assert IsKeyChar("A"[0]) && IsKeyChar("B"[0]);
    assert "pos-" + "A" == "pos-A" && "pos-" + "B" == "pos-B";
  }

  lemma SimpleNumbers()
    ensures Rescale(Fixed(1, 0), SCALE, BcmathTruncate) == Fixed(100000000, SCALE)
    ensures Rescale(Mul(Fixed(9, 0), Fixed(1, 0)), SCALE, BcmathTruncate) == Fixed(900000000, SCALE)
    ensures RoundQuotient(900000000 * Digits.Pow10(SCALE), 100000000, BcmathTruncate) == 900000000
  {
    PowersOfTen();
    hide Digits.Pow10;
  }

  lemma SimpleSums(f: Fill)
    requires f.volume == Some("1") && f.price == Some("9")
    ensures Average([f]) == Success(Some(900000000)) && Sum([f], Volume) == Success(Some(100000000))
  {
    OneDigitText(1);
    OneDigitText(9);
    SimpleNumbers();
    hide ToString, Rescale, Mul, RoundQuotient, Digits.Pow10, FromString, Average;
    OneFill(f, Fixed(9, 0), Fixed(1, 0));
    OneWeight(f, FieldUnits(Volume));
    OneText("1");
    assert f in [f] && Carries(f, Volume);
  }

  lemma OneText(text: string)
    ensures FromString(text).Success? ==> IsDecimal(text)
  {
  }

  lemma NoSum(fills: seq<Fill>, field: Field)
    requires forall f :: f in fills ==> Read(f, field).None?
    ensures Sum(fills, field) == Success(None)
  {
    hide IsDecimal;
  }

  /** Bought and sold at once, a position is a trade. */
  lemma SimpleTrade(key: string, open: Fill, close: Fill)
    requires open == Simple("1", "B", In) && close == Simple("2", "B", Out)
    ensures Outcome(key, [open], [close]).Success? && Outcome(key, [open], [close]).value.Trade?
  {
    hide Sum, Average, Boundary, Direct, Symbol, Print8, PrintedOrZero, Text.Less;
    SimpleSums(open);
    SimpleSums(close);
    NoSum([open] + [close], Profit);
    NoSum([open] + [close], Commission);
    NoSum([open] + [close], Swap);
    Text.LessIrreflexive("t");
    OneBoundary(open, false);
    OneBoundary(close, true);
    OneSymbol(open);
    assert Valued(key, [open], [close], 100000000, open, close).Success?;
    assert Closed(key, [open], [close], 100000000).value.Trade?;
  }

  lemma OneBoundary(f: Fill, latest: bool)
    requires Resolved(f)
    ensures Boundary([f], latest) == Some(f)
  {
    assert [f][..0] == [];
  }

  lemma OneSymbol(f: Fill)
    requires f.symbol == Some("EURUSD") && f.direction == Some(Buy)
    ensures Symbol([f]) == Some("EURUSD") && Direct([f]) == Some(Buy)
  {
    Text.JsTrimKeeps("EURUSD");
    hide Text.JsTrim;
  }

  /** Position A used deal "1" first, so B's opening fill is dropped from the ledger. */
  lemma SharedDealAdmitted()
    ensures var a, b, c := Simple("1", "A", In), Simple("1", "B", In), Simple("2", "B", Out);
            Admitted([a] + [b] + [c]) == [a] + [c] && Admitted([b] + [c]) == [b] + [c]
              && Own([a] + [b] + [c], "pos-B") == [b] + [c]
  {
    var a, b, c := Simple("1", "A", In), Simple("1", "B", In), Simple("2", "B", Out);
    SimpleRepeats(a, b, c);
    SimpleOwn(a, b, c);
    hide KeyOf, Repeats, Own, Admitted;
    AdmitOne([], a);
    AdmitOne([a], b);
    AdmitOne([a] + [b], c);
    AdmitOne([], b);
    AdmitOne([b], c);
    assert [] + [a] == [a] && [] + [b] == [b];
    NothingAdmitted();
  }

  lemma NothingAdmitted()
    ensures Admitted([]) == []
  {
  }

  lemma SimpleRepeats(a: Fill, b: Fill, c: Fill)
    requires a == Simple("1", "A", In) && b == Simple("1", "B", In) && c == Simple("2", "B", Out)
    ensures !Repeats(a, []) && Repeats(b, [a]) && !Repeats(c, [a] + [b]) && !Repeats(b, []) && !Repeats(c, [b])
  {
    assert "1" != "2";
    assert a in [a] && SameDeal(b, a);
  }

  lemma SimpleOwn(a: Fill, b: Fill, c: Fill)
    requires a == Simple("1", "A", In) && b == Simple("1", "B", In) && c == Simple("2", "B", Out)
    ensures Own([a] + [b] + [c], "pos-B") == [b] + [c]
  {
    SimpleKey("1", In);
    SimpleKey("2", Out);
    assert "pos-A"[4] != "pos-B"[4];
    hide KeyOf;
    FilterNext([], a, Keyed(Some("pos-B")));
    FilterNext([a], b, Keyed(Some("pos-B")));
    FilterNext([a] + [b], c, Keyed(Some("pos-B")));
    assert [] + [a] == [a] && [] + [b] == [b];
  }

  lemma AdmitOne(fills: seq<Fill>, f: Fill)
    ensures Admitted(fills + [f])
        == if f.entryType.Some? && !Repeats(f, fills) then Admitted(fills) + [f] else Admitted(fills)
  {
    assert (fills + [f])[..|fills|] == fills && (fills + [f])[..|fills| + 1] == fills + [f];
    AdmittedNext(fills + [f], |fills|);
    hide Repeats;
  }

  lemma NoSides(key: string)
    ensures Ins([], key) == [] && Outs([], key) == []
  {
  }

  lemma SharedDealSides()
    ensures var a, b, c := Simple("1", "A", In), Simple("1", "B", In), Simple("2", "B", Out);
            && Ins([a] + [c], "pos-B") == [] && Outs([a] + [c], "pos-B") == [c]
            && Ins([b] + [c], "pos-B") == [b] && Outs([b] + [c], "pos-B") == [c]
  {
    var a, b, c := Simple("1", "A", In), Simple("1", "B", In), Simple("2", "B", Out);
    hide KeyOf, Filter;
    SimpleKey("1", In);
    SimpleKey("2", Out);
    NoSides("pos-B");
    SidesNext([a], c, "pos-B");
    SidesNext([b], c, "pos-B");
    SidesNext([], a, "pos-B");
    SidesNext([], b, "pos-B");
    assert [] + [a] == [a] && [] + [b] == [b];
  }

  /** On its own fills B is a trade; in the ledger that A's fill opens, it is skipped for want of an opening. */
  lemma SharedDealChangesOutcome()
    ensures var a, b, c := Simple("1", "A", In), Simple("1", "B", In), Simple("2", "B", Out);
            var ledger := [a] + [b] + [c];
            var own := Own(ledger, "pos-B");
            && Taken(ledger, "pos-B")
            && Outcome("pos-B", Ins(Admitted(own), "pos-B"), Outs(Admitted(own), "pos-B")).Success?
            && Outcome("pos-B", Ins(Admitted(own), "pos-B"), Outs(Admitted(own), "pos-B")).value.Trade?
            && Outcome("pos-B", Ins(Admitted(ledger), "pos-B"), Outs(Admitted(ledger), "pos-B"))
               == Success(Skip(AssemblySkip("pos-B", MissingOpenFill)))
  {
    var a, b, c := Simple("1", "A", In), Simple("1", "B", In), Simple("2", "B", Out);
    var ledger := [a] + [b] + [c];
    SharedDealAdmitted();
    SharedDealSides();
    SimpleTrade("pos-B", b, c);
    SimpleSkip("pos-B", [c]);
    OwnFillsExactly(ledger, "pos-B");
    OwnOfTwo();
    hide Admitted, Own, Taken, Ins, Outs, Outcome;
  }

  lemma SimpleSkip(key: string, outs: seq<Fill>)
    ensures Outcome(key, [], outs) == Success(Skip(AssemblySkip(key, MissingOpenFill)))
  {
  }

  lemma OwnOfTwo()
    ensures |Own([Simple("1", "A", In)] + [Simple("2", "B", Out)], "pos-B")| < 2
  {
    var a, c := Simple("1", "A", In), Simple("2", "B", Out);
    SimpleKey("1", In);
    hide KeyOf;
    FilterNext([], a, Keyed(Some("pos-B")));
    FilterNext([a], c, Keyed(Some("pos-B")));
    assert [] + [a] == [a];
  }
}
