/** The whole ledger: which fills are admitted, how they are grouped, and what each group becomes. */
module FillLedger {
  import opened Wrappers
  import opened FillArithmetic
  import opened PositionAssembly
  import opened Decimal
  import opened Sequences

  // ---------------------------------------------------------------- admission and grouping

  function DealId(f: Fill): string {
    f.externalDealId.GetOr("")
  }

  /** The same deal, named twice. */
  predicate SameDeal(f: Fill, g: Fill) {
    f.entryType.Some? && g.entryType.Some? && DealId(f) != "" && DealId(f) == DealId(g)
  }

  predicate Repeats(f: Fill, before: seq<Fill>) {
    exists g :: g in before && SameDeal(f, g)
  }

  /** The in and out fills, without repetitions of a deal id. */
  function Admitted(fills: seq<Fill>): seq<Fill> {
    if fills == [] then []
    else
      var n := |fills| - 1;
      Admitted(fills[..n]) + if fills[n].entryType.Some? && !Repeats(fills[n], fills[..n]) then [fills[n]] else []
  }

  function KeyOf(f: Fill): Option<string> {
    PositionGroupKey(f.positionId)
  }

  function Keyed(key: Option<string>): Fill -> bool {
    f => KeyOf(f) == key
  }

  function On(key: string, side: Side): Fill -> bool {
    f => KeyOf(f) == Some(key) && f.entryType == Some(side)
  }

  function Keyless(admitted: seq<Fill>): seq<Fill> {
    Filter(admitted, Keyed(None))
  }

  function Ins(admitted: seq<Fill>, key: string): seq<Fill> {
    Filter(admitted, On(key, In))
  }

  function Outs(admitted: seq<Fill>, key: string): seq<Fill> {
    Filter(admitted, On(key, Out))
  }

  /** The position keys, in order of first appearance. */
  function Keys(admitted: seq<Fill>): seq<string> {
    if admitted == [] then []
    else
      var n := |admitted| - 1;
      var before := Keys(admitted[..n]);
      var key := KeyOf(admitted[n]);
      if key.Some? && key.value !in before then before + [key.value] else before
  }

  lemma {:induction false} KeysDistinct(admitted: seq<Fill>)
    ensures forall i, j :: 0 <= i < j < |Keys(admitted)| ==> Keys(admitted)[i] != Keys(admitted)[j]
    ensures forall k :: k in Keys(admitted) <==> exists f :: f in admitted && KeyOf(f) == Some(k)
  {
    hide PositionGroupKey;
    if admitted != [] {
      var n := |admitted| - 1;
      KeysDistinct(admitted[..n]);
      assert admitted == admitted[..n] + [admitted[n]];
    }
  }

  // ---------------------------------------------------------------- the result

  function KeylessSkip(f: Fill): AssemblySkip {
    AssemblySkip(f.externalDealId.GetOr("deal"), UnpairedDealNoPositionId)
  }

  function KeylessSkips(keyless: seq<Fill>): (skips: seq<AssemblySkip>)
    ensures |skips| == |keyless|
  {
    seq(|keyless|, i requires 0 <= i < |keyless| => KeylessSkip(keyless[i]))
  }

  function With(r: AssemblyResult, p: Position): AssemblyResult {
    match p
    case Trade(t) => r.(trades := r.trades + [t])
    case Skip(s) => r.(skipped := r.skipped + [s])
  }

  function Collect(keys: seq<string>, admitted: seq<Fill>): Result<AssemblyResult, DecimalError> {
    if keys == [] then Success(AssemblyResult([], KeylessSkips(Keyless(admitted))))
    else
      var n := |keys| - 1;
      var before :- Collect(keys[..n], admitted);
      var last :- Outcome(keys[n], Ins(admitted, keys[n]), Outs(admitted, keys[n]));
      Success(With(before, last))
  }

  function Assembled(fills: seq<Fill>): Result<AssemblyResult, DecimalError> {
    var admitted := Admitted(fills);
    Collect(Keys(admitted), admitted)
  }

  // ---------------------------------------------------------------- the loops

  datatype Sides = Sides(ins: seq<Fill>, outs: seq<Fill>)

  /** The grouping variables after `fills[..i]`; `order` is the insertion order of the map. */
  ghost predicate Grouped(fills: seq<Fill>, i: nat, groups: map<string, Sides>, order: seq<string>, keyless: seq<Fill>,
                          seen: set<string>) {
    && i <= |fills|
    && var admitted := Admitted(fills[..i]);
    && order == Keys(admitted) && keyless == Keyless(admitted)
    && (forall k :: k in groups <==> k in order)
    && (forall k :: k in groups ==> groups[k] == Sides(Ins(admitted, k), Outs(admitted, k)))
    && (forall k :: k !in groups ==> Ins(admitted, k) == [] && Outs(admitted, k) == [])
    && Sees(fills, i, seen)
  }

  method GroupFills(fills: seq<Fill>)
    returns (groups: map<string, Sides>, order: seq<string>, keyless: seq<Fill>)
    ensures order == Keys(Admitted(fills)) && keyless == Keyless(Admitted(fills))
    ensures forall k :: k in groups <==> k in order
    ensures forall k :: k in groups ==> groups[k] == Sides(Ins(Admitted(fills), k), Outs(Admitted(fills), k))
  {
    hide *;
    groups, order, keyless := map[], [], [];
    var seenDeals: set<string> := {};
    var i := 0;
    GroupedStart(fills);
    while i < |fills|
      invariant 0 <= i <= |fills| && Grouped(fills, i, groups, order, keyless, seenDeals)
    {
      var deal := fills[i];
      i := i + 1;
      if deal.entryType.None? {
        GroupedIgnores(fills, i - 1, groups, order, keyless, seenDeals);
        continue;
      }
      var dealId := DealId(deal);
      if dealId != "" {
        if dealId in seenDeals {
          GroupedRepeats(fills, i - 1, groups, order, keyless, seenDeals);
          continue;
        }
      }
      ghost var before := seenDeals;
      seenDeals := if dealId != "" then seenDeals + {dealId} else seenDeals;
      var key := PositionGroupKey(deal.positionId);
      if key.None? {
        GroupedKeyless(fills, i - 1, groups, order, keyless, before, seenDeals);
        keyless := keyless + [deal];
        continue;
      }
      GroupedAdds(fills, i - 1, groups, order, keyless, before, seenDeals, key.value);
      var group := if key.value in groups then groups[key.value] else Sides([], []);
      order := if key.value in groups then order else order + [key.value];
      groups := groups[key.value := Push(group, deal)];
    }
    GroupedEnd(fills, groups, order, keyless, seenDeals);
  }

  /** `group[deal.entryType].push(deal)` */
  function Push(group: Sides, deal: Fill): Sides {
    if deal.entryType == Some(In) then group.(ins := group.ins + [deal]) else group.(outs := group.outs + [deal])
  }

  lemma GroupedStart(fills: seq<Fill>)
    ensures Grouped(fills, 0, map[], [], [], {})
  {
  }

  lemma AdmittedNext(fills: seq<Fill>, i: nat)
    requires i < |fills|
    ensures Admitted(fills[..i + 1])
         == if fills[i].entryType.Some? && !Repeats(fills[i], fills[..i]) then Admitted(fills[..i]) + [fills[i]]
           else Admitted(fills[..i])
    ensures fills[..i + 1] == fills[..i] + [fills[i]]
  {
    assert fills[..i + 1][..i] == fills[..i];
  }

  lemma KeysNext(admitted: seq<Fill>, f: Fill)
    ensures Keys(admitted + [f])
         == if KeyOf(f).Some? && KeyOf(f).value !in Keys(admitted) then Keys(admitted) + [KeyOf(f).value]
           else Keys(admitted)
  {
    hide PositionGroupKey;
    assert (admitted + [f])[..|admitted|] == admitted;
  }

  /** An in or out fill is a repetition exactly when its deal id was seen. */
  lemma SeenExactly(fills: seq<Fill>, i: nat, groups: map<string, Sides>, order: seq<string>, keyless: seq<Fill>,
                    seen: set<string>)
    requires i < |fills| && Grouped(fills, i, groups, order, keyless, seen) && fills[i].entryType.Some?
    ensures Repeats(fills[i], fills[..i]) <==> DealId(fills[i]) != "" && DealId(fills[i]) in seen
  {
    hide Admitted, Keys, Ins, Outs, Keyless, DealId;
  }

  lemma GroupedIgnores(fills: seq<Fill>, i: nat, groups: map<string, Sides>, order: seq<string>, keyless: seq<Fill>,
                       seen: set<string>)
    requires i < |fills| && Grouped(fills, i, groups, order, keyless, seen) && fills[i].entryType.None?
    ensures Grouped(fills, i + 1, groups, order, keyless, seen)
  {
    hide Admitted, Keys, Ins, Outs, Keyless, DealId, Repeats;
    AdmittedNext(fills, i);
    SeesNext(fills, i, seen);
  }

  lemma GroupedRepeats(fills: seq<Fill>, i: nat, groups: map<string, Sides>, order: seq<string>, keyless: seq<Fill>,
                       seen: set<string>)
    requires i < |fills| && Grouped(fills, i, groups, order, keyless, seen)
    requires fills[i].entryType.Some? && DealId(fills[i]) != "" && DealId(fills[i]) in seen
    ensures Grouped(fills, i + 1, groups, order, keyless, seen)
  {
    hide Admitted, Keys, Ins, Outs, Keyless, DealId, Repeats;
    SeenExactly(fills, i, groups, order, keyless, seen);
    AdmittedNext(fills, i);
    SeesNext(fills, i, seen);
    assert seen + {DealId(fills[i])} == seen;
  }

  ghost predicate Sees(fills: seq<Fill>, i: nat, seen: set<string>)
    requires i <= |fills|
  {
    forall id :: id in seen <==> id != "" && exists f :: f in fills[..i] && f.entryType.Some? && DealId(f) == id
  }

  lemma SeesNext(fills: seq<Fill>, i: nat, seen: set<string>)
    requires i < |fills| && Sees(fills, i, seen)
    ensures Sees(fills, i + 1,
        if fills[i].entryType.Some? && DealId(fills[i]) != "" then seen + {DealId(fills[i])} else seen)
  {
    hide DealId;
    assert fills[..i + 1] == fills[..i] + [fills[i]];
    assert fills[i] in fills[..i + 1];
  }

  lemma SidesNext(admitted: seq<Fill>, f: Fill, k: string)
    requires f.entryType.Some?
    ensures Sides(Ins(admitted + [f], k), Outs(admitted + [f], k))
         == if KeyOf(f) == Some(k) then Push(Sides(Ins(admitted, k), Outs(admitted, k)), f)
            else Sides(Ins(admitted, k), Outs(admitted, k))
  {
    hide PositionGroupKey, Filter;
    FilterNext(admitted, f, On(k, In));
    FilterNext(admitted, f, On(k, Out));
    assert f.entryType.value == In || f.entryType.value == Out;
  }

  lemma GroupedKeyless(fills: seq<Fill>, i: nat, groups: map<string, Sides>, order: seq<string>, keyless: seq<Fill>,
                       seen: set<string>, after: set<string>)
    requires i < |fills| && Grouped(fills, i, groups, order, keyless, seen)
    requires fills[i].entryType.Some? && !(DealId(fills[i]) != "" && DealId(fills[i]) in seen)
    requires after == if DealId(fills[i]) != "" then seen + {DealId(fills[i])} else seen
    requires PositionGroupKey(fills[i].positionId).None?
    ensures Grouped(fills, i + 1, groups, order, keyless + [fills[i]], after)
  {
    hide Admitted, Keys, Ins, Outs, DealId, Repeats, PositionGroupKey, Filter;
    SeenExactly(fills, i, groups, order, keyless, seen);
    AdmittedNext(fills, i);
    SeesNext(fills, i, seen);
    var admitted := Admitted(fills[..i]);
    KeysNext(admitted, fills[i]);
    FilterNext(admitted, fills[i], Keyed(None));
    forall k
      ensures Ins(admitted + [fills[i]], k) == Ins(admitted, k) && Outs(admitted + [fills[i]], k) == Outs(admitted, k)
    {
      SidesNext(admitted, fills[i], k);
    }
  }

  lemma GroupedAdds(fills: seq<Fill>, i: nat, groups: map<string, Sides>, order: seq<string>, keyless: seq<Fill>,
                    seen: set<string>, after: set<string>, key: string)
    requires i < |fills| && Grouped(fills, i, groups, order, keyless, seen)
    requires fills[i].entryType.Some? && !(DealId(fills[i]) != "" && DealId(fills[i]) in seen)
    requires after == if DealId(fills[i]) != "" then seen + {DealId(fills[i])} else seen
    requires PositionGroupKey(fills[i].positionId) == Some(key)
    ensures Grouped(fills, i + 1,
                    groups[key := Push(if key in groups then groups[key] else Sides([], []), fills[i])],
                    if key in groups then order else order + [key], keyless, after)
  {
    hide Admitted, Keys, Ins, Outs, DealId, Repeats, PositionGroupKey, Filter, Push;
    SeenExactly(fills, i, groups, order, keyless, seen);
    AdmittedNext(fills, i);
    SeesNext(fills, i, seen);
    var admitted := Admitted(fills[..i]);
    KeysNext(admitted, fills[i]);
    FilterNext(admitted, fills[i], Keyed(None));
    forall k
      ensures Sides(Ins(admitted + [fills[i]], k), Outs(admitted + [fills[i]], k))
           == if k == key then Push(Sides(Ins(admitted, k), Outs(admitted, k)), fills[i])
              else Sides(Ins(admitted, k), Outs(admitted, k))
    {
      SidesNext(admitted, fills[i], k);
    }
  }

  method AssemblePositions(fills: seq<Fill>) returns (r: Result<AssemblyResult, DecimalError>)
    ensures r == Assembled(fills)
  {
    hide *;
    var groups, order, keyless := GroupFills(fills);
    ghost var admitted := Admitted(fills);
    NoSkips(fills);
    var skipped: seq<AssemblySkip> := [];
    var d := 0;
    while d < |keyless|
      invariant 0 <= d <= |keyless| && skipped == KeylessSkips(keyless[..d])
    {
      KeylessNext(keyless, d);
      skipped := skipped + [KeylessSkip(keyless[d])];
      d := d + 1;
    }
    assert keyless[..d] == keyless;
    CollectStart(admitted, order);
    var result := AssemblyResult([], skipped);
    var j := 0;
    while j < |order|
      invariant 0 <= j <= |order| && Collect(order[..j], admitted) == Success(result)
    {
      var key := order[j];
      var position := AssemblePosition(key, groups[key].ins, groups[key].outs);
      CollectNext(order, j, admitted);
      if position.Failure? {
        CollectFails(order, j + 1, admitted);
        return Failure(position.error);
      }
      match position.value {
        case Trade(t) => result := result.(trades := result.trades + [t]);
        case Skip(s) => result := result.(skipped := result.skipped + [s]);
      }
      j := j + 1;
    }
    assert order[..j] == order;
    r := Success(result);
  }

  lemma GroupedEnd(fills: seq<Fill>, groups: map<string, Sides>, order: seq<string>, keyless: seq<Fill>,
                   seen: set<string>)
    requires Grouped(fills, |fills|, groups, order, keyless, seen)
    ensures order == Keys(Admitted(fills)) && keyless == Keyless(Admitted(fills))
    ensures forall k :: k in groups <==> k in order
    ensures forall k :: k in groups ==> groups[k] == Sides(Ins(Admitted(fills), k), Outs(Admitted(fills), k))
  {
    assert fills[..|fills|] == fills;
    hide Admitted, Keys, Ins, Outs, Keyless;
  }

  lemma NoSkips(fills: seq<Fill>)
    ensures KeylessSkips([]) == []
    ensures Assembled(fills) == Collect(Keys(Admitted(fills)), Admitted(fills))
  {
  }

  lemma KeylessNext(keyless: seq<Fill>, d: nat)
    requires d < |keyless|
    ensures KeylessSkips(keyless[..d + 1]) == KeylessSkips(keyless[..d]) + [KeylessSkip(keyless[d])]
  {
  }

  lemma CollectStart(admitted: seq<Fill>, order: seq<string>)
    ensures Collect(order[..0], admitted) == Success(AssemblyResult([], KeylessSkips(Keyless(admitted))))
  {
  }

  lemma CollectNext(order: seq<string>, j: nat, admitted: seq<Fill>)
    requires j < |order| && Collect(order[..j], admitted).Success?
    ensures var position := Outcome(order[j], Ins(admitted, order[j]), Outs(admitted, order[j]));
            Collect(order[..j + 1], admitted)
            == if position.Failure? then Failure(position.error)
               else Success(match position.value
                            case Trade(t) => var r := Collect(order[..j], admitted).value; r.(trades := r.trades + [t])
                            case Skip(s) =>
                              var r := Collect(order[..j], admitted).value; r.(skipped := r.skipped + [s]))
  {
    hide Outcome, Ins, Outs;
    assert order[..j + 1][..j] == order[..j];
  }

  lemma {:induction false} CollectFails(order: seq<string>, j: nat, admitted: seq<Fill>)
    requires j <= |order| && Collect(order[..j], admitted).Failure?
    ensures Collect(order, admitted) == Collect(order[..j], admitted)
    decreases |order|
  {
    hide Outcome, Ins, Outs;
    if j == |order| {
      assert order[..j] == order;
    } else {
      var n := |order| - 1;
      assert order[..n][..j] == order[..j];
      CollectFails(order[..n], j, admitted);
    }
  }
}
