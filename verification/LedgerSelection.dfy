/** Which fills a position is made of, read off the ledger itself, and what becomes of each of them. */
module LedgerSelection {
  import opened Wrappers
  import opened FillArithmetic
  import opened PositionAssembly
  import opened FillLedger
  import opened AssemblyProperties
  import opened Sequences
  import Text

  // ---------------------------------------------------------------- the key a fill names

  /** A letter, a digit, a hyphen, a full stop, a colon or a low line, by code. */
  predicate Allowed(c: char) {
    var n := c as int;
    65 <= n <= 90 || 97 <= n <= 122 || 48 <= n <= 57 || n in {45, 46, 58, 95}
  }

  /** The position id, between blanks, is 1 to 64 of the allowed characters, and the key is "pos-" before it. */
  ghost predicate Names(f: Fill, key: string) {
    && f.positionId.Some? && 5 <= |key| <= 68 && key[..4] == "pos-"
    && (forall i :: 4 <= i < |key| ==> Allowed(key[i]))
    && Text.Surrounds(f.positionId.value, key[4..], Text.BLANKS + {0xFEFF})
  }

  lemma KeyCharExactly(c: char)
    ensures IsKeyChar(c) <==> Allowed(c)
  {
  }

  lemma KeyExactly(f: Fill, key: string)
    ensures KeyOf(f) == Some(key) <==> Names(f, key)
  {
    hide Text.JsTrim, Text.Surrounds, IsKeyChar;
    if f.positionId.Some? {
      var pid := Text.JsTrim(f.positionId.value);
      Text.JsTrimExactly(f.positionId.value, pid);
      if |key| >= 4 {
        Text.JsTrimExactly(f.positionId.value, key[4..]);
        assert key[..4] == "pos-" ==> key == "pos-" + key[4..];
      }
      forall c: char
        ensures IsKeyChar(c) <==> Allowed(c)
      {
        KeyCharExactly(c);
      }
      hide Allowed;
      assert ("pos-" + pid)[4..] == pid;
    }
  }

  // ---------------------------------------------------------------- the fills of a group

  /** One side of one position, or the fills that name none. */
  datatype Group = Leg(side: Side, key: string) | Unpaired

  ghost predicate InGroup(f: Fill, g: Group) {
    match g
    case Leg(side, key) => f.entryType == Some(side) && Names(f, key)
    case Unpaired => forall key :: !Names(f, key)
  }

  /** An in or out fill whose deal id, if it has one, no earlier in or out fill has. */
  predicate FirstOfDeal(fills: seq<Fill>, i: nat)
    requires i < |fills|
  {
    && fills[i].entryType.Some?
    && (fills[i].externalDealId.None? || fills[i].externalDealId == Some("")
        || forall j :: 0 <= j < i && fills[j].entryType.Some? ==> fills[j].externalDealId != fills[i].externalDealId)
  }

  /** `places` are the positions of the group's fills among the first `n`, in order. */
  ghost predicate Places(fills: seq<Fill>, n: nat, g: Group, places: seq<nat>)
    requires n <= |fills|
  {
    && (forall k, l :: 0 <= k < l < |places| ==> places[k] < places[l])
    && (forall k :: 0 <= k < |places| ==> places[k] < n)
    && (forall i: nat :: i < n ==> (i in places <==> FirstOfDeal(fills, i) && InGroup(fills[i], g)))
  }

  /** `group` is the fills at those places. */
  ghost predicate Holds(fills: seq<Fill>, n: nat, g: Group, places: seq<nat>, group: seq<Fill>)
    requires n <= |fills|
  {
    && Places(fills, n, g, places) && |group| == |places|
    && forall k :: 0 <= k < |group| ==> group[k] == fills[places[k]]
  }

  ghost predicate Gathers(fills: seq<Fill>, g: Group, group: seq<Fill>) {
    exists places :: Holds(fills, |fills|, g, places, group)
  }

  /** The filter that the assembly applies. */
  ghost function Test(g: Group): Fill -> bool {
    match g
    case Leg(side, key) => On(key, side)
    case Unpaired => Keyed(None)
  }

  lemma TestExactly(f: Fill, g: Group)
    ensures Test(g)(f) <==> InGroup(f, g)
  {
    hide Names;
    forall key
      ensures KeyOf(f) == Some(key) <==> Names(f, key)
    {
      KeyExactly(f, key);
    }
    hide KeyOf;
    if KeyOf(f).Some? {
      assert Names(f, KeyOf(f).value);
    }
  }

  lemma FirstExactly(fills: seq<Fill>, i: nat)
    requires i < |fills|
    ensures FirstOfDeal(fills, i) <==> fills[i].entryType.Some? && !Repeats(fills[i], fills[..i])
  {
    forall j | 0 <= j < i && SameDeal(fills[i], fills[j])
      ensures Repeats(fills[i], fills[..i])
    {
      assert fills[..i][j] == fills[j];
    }
  }

  lemma PlacesNext(fills: seq<Fill>, n: nat, g: Group, places: seq<nat>)
    requires n < |fills| && Places(fills, n, g, places)
    ensures Places(fills, n + 1, g, if FirstOfDeal(fills, n) && InGroup(fills[n], g) then places + [n] else places)
  {
    hide FirstOfDeal, InGroup;
    var more := places + [n];
    assert more[|places|] == n;
    forall i: nat | i < n
      ensures i in more <==> i in places
    {
      assert more[..|places|] == places;
    }
    assert n !in places;
  }

  lemma HoldsNext(fills: seq<Fill>, n: nat, g: Group, places: seq<nat>, group: seq<Fill>)
    requires n < |fills| && Holds(fills, n, g, places, group)
    ensures var counts := FirstOfDeal(fills, n) && InGroup(fills[n], g);
            Holds(fills, n + 1, g, if counts then places + [n] else places,
                  if counts then group + [fills[n]] else group)
  {
    PlacesNext(fills, n, g, places);
    PlacesBounded(fills, n, g, places);
    hide FirstOfDeal, InGroup, Places;
  }

  lemma PlacesBounded(fills: seq<Fill>, n: nat, g: Group, places: seq<nat>)
    requires n <= |fills| && Places(fills, n, g, places)
    ensures forall k :: 0 <= k < |places| ==> places[k] < n
  {
  }

  lemma {:induction false} FilterHolds(fills: seq<Fill>, n: nat, g: Group) returns (places: seq<nat>)
    requires n <= |fills|
    ensures Holds(fills, n, g, places, Filter(Admitted(fills[..n]), Test(g)))
  {
    hide FirstOfDeal, InGroup, Admitted, Repeats, Test, Filter, Holds;
    if n == 0 {
      places := [];
      NothingAdmitted(fills, g);
    } else {
      var before := FilterHolds(fills, n - 1, g);
      var front := Admitted(fills[..n - 1]);
      HoldsNext(fills, n - 1, g, before, Filter(front, Test(g)));
      FirstExactly(fills, n - 1);
      TestExactly(fills[n - 1], g);
      AdmittedNext(fills, n - 1);
      FilterNext(front, fills[n - 1], Test(g));
      places := if FirstOfDeal(fills, n - 1) && InGroup(fills[n - 1], g) then before + [n - 1] else before;
    }
  }

  lemma NothingAdmitted(fills: seq<Fill>, g: Group)
    ensures Holds(fills, 0, g, [], Filter(Admitted(fills[..0]), Test(g)))
  {
    hide Test, InGroup, FirstOfDeal;
  }

  lemma TestGathers(fills: seq<Fill>, g: Group)
    ensures Gathers(fills, g, Filter(Admitted(fills), Test(g)))
  {
    hide Holds, Admitted, Filter, Test;
    var places := FilterHolds(fills, |fills|, g);
    assert fills[..|fills|] == fills;
  }

  /** The groups that the assembly forms are these fills, in ledger order. */
  lemma GroupsExactly(fills: seq<Fill>, g: Group)
    ensures match g
            case Leg(In, key) => Gathers(fills, g, Ins(Admitted(fills), key))
            case Leg(Out, key) => Gathers(fills, g, Outs(Admitted(fills), key))
            case Unpaired => Gathers(fills, g, Keyless(Admitted(fills)))
  {
    hide Gathers, Admitted, Filter, On, Keyed;
    TestGathers(fills, g);
  }

  // ---------------------------------------------------------------- the results

  ghost predicate TradeOnLedger(fills: seq<Fill>, t: AssembledPosition) {
    exists ins, outs ::
      && Gathers(fills, Leg(In, t.positionKey), ins) && Gathers(fills, Leg(Out, t.positionKey), outs)
      && IsTrade(t, t.positionKey, ins, outs)
  }

  ghost predicate SkipOnLedger(fills: seq<Fill>, s: AssemblySkip) {
    exists ins, outs ::
      && Gathers(fills, Leg(In, s.key), ins) && Gathers(fills, Leg(Out, s.key), outs)
      && IsReason(s.reason, ins, outs)
  }

  /** A skip of a fill that names no position carries its deal id, or "deal". */
  predicate SkipOf(f: Fill, s: AssemblySkip) {
    && s.reason == UnpairedDealNoPositionId
    && s.key == if f.externalDealId.Some? then f.externalDealId.value else "deal"
  }

  /** First one skip for each fill that names no position, in ledger order; then one result for each position. */
  ghost predicate OnLedger(fills: seq<Fill>, r: AssemblyResult, unpaired: seq<Fill>) {
    && Gathers(fills, Unpaired, unpaired) && |unpaired| <= |r.skipped|
    && (forall i :: 0 <= i < |unpaired| ==> SkipOf(unpaired[i], r.skipped[i]))
    && (forall i :: |unpaired| <= i < |r.skipped| ==> SkipOnLedger(fills, r.skipped[i]))
    && (forall i :: 0 <= i < |r.trades| ==> TradeOnLedger(fills, r.trades[i]))
  }

  lemma TradeStands(fills: seq<Fill>, t: AssembledPosition)
    requires TradeOnFields(t, Admitted(fills))
    ensures TradeOnLedger(fills, t)
  {
    hide Gathers, IsTrade, Ins, Outs, Admitted;
    GroupsExactly(fills, Leg(In, t.positionKey));
    GroupsExactly(fills, Leg(Out, t.positionKey));
  }

  lemma SkipStands(fills: seq<Fill>, s: AssemblySkip)
    requires SkipOnFields(s, Admitted(fills))
    ensures SkipOnLedger(fills, s)
  {
    hide Gathers, IsReason, Ins, Outs, Admitted;
    GroupsExactly(fills, Leg(In, s.key));
    GroupsExactly(fills, Leg(Out, s.key));
  }

  // ---------------------------------------------------------------- every position once

  /** The keys of the trades, and of the skips behind the first `unpaired`. */
  function ResultKeys(r: AssemblyResult, unpaired: nat): seq<string>
    requires unpaired <= |r.skipped|
  {
    seq(|r.trades|, i requires 0 <= i < |r.trades| => r.trades[i].positionKey)
    + seq(|r.skipped| - unpaired, i requires 0 <= i < |r.skipped| - unpaired => r.skipped[unpaired + i].key)
  }

  /** No key twice, and the keys are those that the fills name. */
  ghost predicate EachOnce(fills: seq<Fill>, keys: seq<string>) {
    && (forall i, j :: 0 <= i < j < |keys| ==> keys[i] != keys[j])
    && (forall key :: key in keys <==> Named(fills, key))
  }

  ghost predicate Named(fills: seq<Fill>, key: string) {
    exists i: nat :: i < |fills| && FirstOfDeal(fills, i) && Names(fills[i], key)
  }

  lemma {:induction false} AdmittedExactly(fills: seq<Fill>, n: nat, f: Fill)
    requires n <= |fills|
    ensures f in Admitted(fills[..n]) <==> exists i: nat :: i < n && FirstOfDeal(fills, i) && fills[i] == f
  {
    hide FirstOfDeal, Admitted, Repeats;
    if n == 0 {
      NoneAdmitted(fills);
    } else {
      AdmittedExactly(fills, n - 1, f);
      AdmittedNext(fills, n - 1);
      FirstExactly(fills, n - 1);
    }
  }

  lemma NoneAdmitted(fills: seq<Fill>)
    ensures Admitted(fills[..0]) == []
  {
  }

  lemma KeysNamed(fills: seq<Fill>, key: string)
    ensures key in Keys(Admitted(fills)) <==> Named(fills, key)
  {
    hide FirstOfDeal, Names, KeyOf, Keys, Admitted;
    KeysDistinct(Admitted(fills));
    assert fills[..|fills|] == fills;
    forall f
      ensures f in Admitted(fills) <==> exists i: nat :: i < |fills| && FirstOfDeal(fills, i) && fills[i] == f
    {
      AdmittedExactly(fills, |fills|, f);
    }
    forall f
      ensures KeyOf(f) == Some(key) <==> Names(f, key)
    {
      KeyExactly(f, key);
    }
  }

  lemma {:induction false} TradeKeysAre(trades: seq<AssembledPosition>)
    ensures TradeKeys(trades) == seq(|trades|, i requires 0 <= i < |trades| => trades[i].positionKey)
  {
    if trades != [] {
      TradeKeysAre(trades[..|trades| - 1]);
    }
  }

  lemma {:induction false} SkipKeysAre(skips: seq<AssemblySkip>)
    ensures SkipKeys(skips) == seq(|skips|, i requires 0 <= i < |skips| => skips[i].key)
  {
    if skips != [] {
      SkipKeysAre(skips[..|skips| - 1]);
    }
  }

  lemma {:induction false} DistinctOnce(keys: seq<string>, key: string)
    requires forall i, j :: 0 <= i < j < |keys| ==> keys[i] != keys[j]
    ensures multiset(keys)[key] <= 1
  {
    if keys != [] {
      var n := |keys| - 1;
      assert keys == keys[..n] + [keys[n]];
      DistinctOnce(keys[..n], key);
    }
  }

  lemma SameKeys(keys: seq<string>, order: seq<string>)
    requires multiset(keys) == multiset(order) && forall i, j :: 0 <= i < j < |order| ==> order[i] != order[j]
    ensures forall i, j :: 0 <= i < j < |keys| ==> keys[i] != keys[j]
    ensures forall key :: key in keys <==> key in order
  {
    forall i, j | 0 <= i < j < |keys|
      ensures keys[i] != keys[j]
    {
      DistinctOnce(order, keys[i]);
      assert keys == keys[..j] + [keys[j]] + keys[j + 1..];
      assert keys[i] in keys[..j];
    }
    forall key
      ensures key in keys <==> key in order
    {
      assert key in keys <==> key in multiset(keys);
    }
  }

  lemma ResultKeysAre(r: AssemblyResult, unpaired: nat)
    requires unpaired <= |r.skipped|
    ensures ResultKeys(r, unpaired) == TradeKeys(r.trades) + SkipKeys(r.skipped[unpaired..])
  {
    TradeKeysAre(r.trades);
    SkipKeysAre(r.skipped[unpaired..]);
  }

  lemma AllOnFields(fills: seq<Fill>)
    requires Assembled(fills).Success?
    ensures OnLedger(fills, Assembled(fills).value, Keyless(Admitted(fills)))
  {
    hide Gathers, TradeOnFields, SkipOnFields, TradeOnLedger, SkipOnLedger, Keyless, Admitted, Assembled, Keys, KeyOf;
    ResultsOnFields(fills);
    GroupsExactly(fills, Unpaired);
    forall t: AssembledPosition | TradeOnFields(t, Admitted(fills))
      ensures TradeOnLedger(fills, t)
    {
      TradeStands(fills, t);
    }
    forall s: AssemblySkip | SkipOnFields(s, Admitted(fills))
      ensures SkipOnLedger(fills, s)
    {
      SkipStands(fills, s);
    }
  }

  lemma KeysOnce(fills: seq<Fill>)
    requires Assembled(fills).Success?
    ensures |Keyless(Admitted(fills))| <= |Assembled(fills).value.skipped|
    ensures EachOnce(fills, ResultKeys(Assembled(fills).value, |Keyless(Admitted(fills))|))
  {
    hide Keyless, Admitted, Assembled, Keys, KeyOf, Named, ResultKeys, TradeKeys, SkipKeys;
    EachKeyOnce(fills);
    var r, unpaired := Assembled(fills).value, |Keyless(Admitted(fills))|;
    ResultKeysAre(r, unpaired);
    SameKeys(ResultKeys(r, unpaired), Keys(Admitted(fills)));
    forall key
      ensures key in Keys(Admitted(fills)) <==> Named(fills, key)
    {
      KeysNamed(fills, key);
    }
  }

  /** Every position that a fill names has one result, every other fill one skip, and each result is its fills'. */
  lemma ResultsOnLedger(fills: seq<Fill>)
    requires Assembled(fills).Success?
    ensures exists unpaired ::
              && |unpaired| <= |Assembled(fills).value.skipped|
              && OnLedger(fills, Assembled(fills).value, unpaired)
              && EachOnce(fills, ResultKeys(Assembled(fills).value, |unpaired|))
  {
    hide *;
    AllOnFields(fills);
    KeysOnce(fills);
  }

  // ---------------------------------------------------------------- when it fails

  predicate Rising(places: seq<nat>) {
    forall k, l :: 0 <= k < l < |places| ==> places[k] < places[l]
  }

  lemma {:induction false} SamePlaces(a: seq<nat>, b: seq<nat>)
    requires Rising(a) && Rising(b) && forall i :: i in a <==> i in b
    ensures a == b
  {
    assert a != [] ==> a[0] in b;
    assert b != [] ==> b[0] in a;
    if a != [] {
      var m, n := |a| - 1, |b| - 1;
      assert a[m] in b && b[n] in a;
      assert a[m] == b[n];
      forall i: nat
        ensures i in a[..m] <==> i in b[..n]
      {
        assert i in a[..m] <==> i in a && i != a[m];
        assert i in b[..n] <==> i in b && i != b[n];
      }
      SamePlaces(a[..m], b[..n]);
    }
  }

  /** A group's fills are determined. */
  lemma GatheredOnce(fills: seq<Fill>, g: Group, a: seq<Fill>, b: seq<Fill>)
    requires Gathers(fills, g, a) && Gathers(fills, g, b)
    ensures a == b
  {
    hide FirstOfDeal, InGroup;
    var p :| Holds(fills, |fills|, g, p, a);
    var q :| Holds(fills, |fills|, g, q, b);
    SamePlaces(p, q);
  }

  ghost predicate MalformedAt(fills: seq<Fill>, key: string) {
    exists ins, outs ::
      Gathers(fills, Leg(In, key), ins) && Gathers(fills, Leg(Out, key), outs) && Malformed(ins, outs)
  }

  lemma {:induction false} CollectFailsExactly(keys: seq<string>, admitted: seq<Fill>)
    ensures Collect(keys, admitted).Failure?
       <==> exists key :: key in keys && Outcome(key, Ins(admitted, key), Outs(admitted, key)).Failure?
  {
    hide Outcome, Ins, Outs;
    if keys != [] {
      var n := |keys| - 1;
      CollectFailsExactly(keys[..n], admitted);
      assert keys == keys[..n] + [keys[n]];
    }
  }

  lemma MalformedExactly(fills: seq<Fill>, key: string)
    ensures var admitted := Admitted(fills);
            Outcome(key, Ins(admitted, key), Outs(admitted, key)).Failure? <==> MalformedAt(fills, key)
  {
    hide Gathers, Malformed, Ins, Outs, Admitted, Outcome;
    var ins, outs := Ins(Admitted(fills), key), Outs(Admitted(fills), key);
    GroupsExactly(fills, Leg(In, key));
    GroupsExactly(fills, Leg(Out, key));
    FailureOnFields(key, ins, outs);
    if MalformedAt(fills, key) {
      var a, b :| Gathers(fills, Leg(In, key), a) && Gathers(fills, Leg(Out, key), b) && Malformed(a, b);
      GatheredOnce(fills, Leg(In, key), a, ins);
      GatheredOnce(fills, Leg(Out, key), b, outs);
    }
  }

  /** The whole assembly fails exactly when some position's fills hold a malformed decimal that is read. */
  lemma FailsExactly(fills: seq<Fill>)
    ensures Assembled(fills).Failure? <==> exists key :: Named(fills, key) && MalformedAt(fills, key)
  {
    hide Named, MalformedAt, Outcome, Ins, Outs, Admitted, Keys;
    var admitted := Admitted(fills);
    CollectFailsExactly(Keys(admitted), admitted);
    forall key
      ensures key in Keys(admitted) <==> Named(fills, key)
      ensures Outcome(key, Ins(admitted, key), Outs(admitted, key)).Failure? <==> MalformedAt(fills, key)
    {
      KeysNamed(fills, key);
      MalformedExactly(fills, key);
    }
  }
}
