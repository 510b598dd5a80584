/** The per-strategy breakdown: trades grouped by tag, each group summarised, and the groups add up. */
module StrategyMetrics {
  import opened Wrappers
  import opened Decimal
  import opened Metrics
  import opened Sequences
  import Text

  const UNTAGGED := "(untagged)"

  function Tag(t: MetricTrade): string {
    if t.strategy.None? || Text.JsTrim(t.strategy.value) == "" then UNTAGGED else t.strategy.value
  }

  function Tagged(tag: string): MetricTrade -> bool {
    t => Tag(t) == tag
  }

  function Group(trades: seq<MetricTrade>, tag: string): seq<MetricTrade> {
    Filter(trades, Tagged(tag))
  }

  /** The tags, in order of first appearance. */
  function Tags(trades: seq<MetricTrade>): (tags: seq<string>)
    ensures forall i, j :: 0 <= i < j < |tags| ==> tags[i] != tags[j]
  {
    if trades == [] then []
    else
      var n := |trades| - 1;
      var before := Tags(trades[..n]);
      if Tag(trades[n]) in before then before else before + [Tag(trades[n])]
  }

  lemma TagsNext(trades: seq<MetricTrade>, t: MetricTrade)
    ensures Tags(trades + [t]) == if Tag(t) in Tags(trades) then Tags(trades) else Tags(trades) + [Tag(t)]
  {
    hide Tag;
    assert (trades + [t])[..|trades|] == trades;
  }

  lemma GroupNext(trades: seq<MetricTrade>, t: MetricTrade, tag: string)
    ensures Group(trades + [t], tag) == if Tag(t) == tag then Group(trades, tag) + [t] else Group(trades, tag)
  {
    hide Tag;
    FilterNext(trades, t, Tagged(tag));
  }

  lemma {:induction false} TagsAppear(trades: seq<MetricTrade>)
    ensures forall t :: t in trades ==> Tag(t) in Tags(trades)
    ensures forall tag :: tag !in Tags(trades) ==> Group(trades, tag) == []
  {
    hide Tag;
    if trades != [] {
      var n := |trades| - 1;
      assert trades == trades[..n] + [trades[n]];
      TagsAppear(trades[..n]);
    }
  }

  // ---------------------------------------------------------------- the grouping loop

  ghost predicate Grouped(trades: seq<MetricTrade>, groups: map<string, seq<MetricTrade>>, order: seq<string>) {
    && order == Tags(trades)
    && (forall tag :: tag in groups <==> tag in order)
    && (forall tag :: tag in groups ==> groups[tag] == Group(trades, tag))
  }

  lemma GroupedNext(trades: seq<MetricTrade>, t: MetricTrade, groups: map<string, seq<MetricTrade>>, order: seq<string>)
    requires Grouped(trades, groups, order)
    ensures Grouped(trades + [t], groups[Tag(t) := (if Tag(t) in groups then groups[Tag(t)] else []) + [t]],
                    if Tag(t) in groups then order else order + [Tag(t)])
  {
    hide Tag, Group, Tags;
    TagsNext(trades, t);
    TagsAppear(trades);
    forall tag
      ensures Group(trades + [t], tag) == if Tag(t) == tag then Group(trades, tag) + [t] else Group(trades, tag)
    {
      GroupNext(trades, t, tag);
    }
  }

  /** One summary per tag, of that tag's trades. */
  ghost predicate Summarises(entry: (string, Summary), trades: seq<MetricTrade>, tag: string, mode: RoundingMode) {
    var group := Group(trades, tag);
    var k := CommonScale(Nets(group));
    && entry.0 == tag && entry.1.tradeCount == |group|
    && IsSummary(entry.1, InUnits(Nets(group), k), k, RMultiples(group), mode)
  }

  lemma PartsParse(trades: seq<MetricTrade>, tag: string)
    ensures !Parses(Group(trades, tag)) ==> !Parses(trades)
  {
    hide ParsesOne, Tag;
    FilterMembers(trades, Tagged(tag));
    var group := Group(trades, tag);
    if !Parses(group) {
      var i :| 0 <= i < |group| && !ParsesOne(group[i]);
      assert group[i] in trades;
    }
  }

  lemma AllPartsParse(trades: seq<MetricTrade>)
    requires forall tag :: tag in Tags(trades) ==> Parses(Group(trades, tag))
    ensures Parses(trades)
  {
    hide ParsesOne, Tag;
    TagsAppear(trades);
    forall i | 0 <= i < |trades|
      ensures ParsesOne(trades[i])
    {
      var t := trades[i];
      FilterMembers(trades, Tagged(Tag(t)));
      assert t in Group(trades, Tag(t));
      var j :| 0 <= j < |Group(trades, Tag(t))| && Group(trades, Tag(t))[j] == t;
    }
  }

  /** The entries before they are put in display order. */
  method ComputePerStrategy(trades: seq<MetricTrade>, mode: RoundingMode)
    returns (r: Result<seq<(string, Summary)>, DecimalError>)
    ensures r.Success? <==> Parses(trades)
    ensures r.Success? ==>
              && |r.value| == |Tags(trades)|
              && forall i :: 0 <= i < |r.value| ==> Summarises(r.value[i], trades, Tags(trades)[i], mode)
  {
    hide *;
    var groups: map<string, seq<MetricTrade>> := map[];
    var order: seq<string> := [];
    var i := 0;
    assert trades[..0] == [];
    GroupedStart();
    while i < |trades|
      invariant 0 <= i <= |trades| && Grouped(trades[..i], groups, order)
    {
      var t := trades[i];
      var key := Tag(t);
      GroupedNext(trades[..i], t, groups, order);
      assert trades[..i + 1] == trades[..i] + [t];
      order := if key in groups then order else order + [key];
      groups := groups[key := (if key in groups then groups[key] else []) + [t]];
      i := i + 1;
    }
    assert trades[..i] == trades;
    GroupedEnd(trades, groups, order);
    var entries: seq<(string, Summary)> := [];
    var j := 0;
    while j < |order|
      invariant 0 <= j <= |order| && |entries| == j
      invariant forall x :: 0 <= x < j ==>
          Parses(Group(trades, order[x])) && Summarises(entries[x], trades, order[x], mode)
    {
      GroupedAt(trades, groups, order, order[j]);
      var summary := ComputeSummary(groups[order[j]], mode);
      if summary.Failure? {
        PartsParse(trades, order[j]);
        return Failure(summary.error);
      }
      Summarised((order[j], summary.value), trades, order[j], mode);
      entries := entries + [(order[j], summary.value)];
      j := j + 1;
    }
    AllPartsParse(trades);
    r := Success(entries);
  }

  lemma GroupedStart()
    ensures Grouped([], map[], [])
  {
  }

  lemma GroupedEnd(trades: seq<MetricTrade>, groups: map<string, seq<MetricTrade>>, order: seq<string>)
    requires Grouped(trades, groups, order)
    ensures order == Tags(trades)
  {
  }

  lemma GroupedAt(trades: seq<MetricTrade>, groups: map<string, seq<MetricTrade>>, order: seq<string>, tag: string)
    requires Grouped(trades, groups, order) && tag in order
    ensures tag in groups && groups[tag] == Group(trades, tag)
  {
  }

  lemma Summarised(entry: (string, Summary), trades: seq<MetricTrade>, tag: string, mode: RoundingMode)
    requires entry.0 == tag && entry.1.tradeCount == |Group(trades, tag)|
    requires var group := Group(trades, tag);
             var k := CommonScale(Nets(group));
             IsSummary(entry.1, InUnits(Nets(group), k), k, RMultiples(group), mode)
    ensures Summarises(entry, trades, tag, mode)
  {
  }

  // ---------------------------------------------------------------- the groups add up

  function SumGroups(tags: seq<string>, trades: seq<MetricTrade>, weight: MetricTrade -> int): int {
    if tags == [] then 0
    else SumGroups(tags[..|tags| - 1], trades, weight) + SumBy(Group(trades, tags[|tags| - 1]), weight)
  }

  lemma {:induction false} SumGroupsNext(tags: seq<string>, trades: seq<MetricTrade>, t: MetricTrade,
                                         weight: MetricTrade -> int)
    requires forall i, j :: 0 <= i < j < |tags| ==> tags[i] != tags[j]
    ensures SumGroups(tags, trades + [t], weight)
        == SumGroups(tags, trades, weight) + if Tag(t) in tags then weight(t) else 0
  {
    hide Tag, Group;
    if tags != [] {
      var n := |tags| - 1;
      assert tags == tags[..n] + [tags[n]];
      SumGroupsNext(tags[..n], trades, t, weight);
      GroupNext(trades, t, tags[n]);
      var group := Group(trades, tags[n]);
      SumByConcat(group, [t], weight);
      assert SumBy([t], weight) == SumBy([t][..0], weight) + weight(t);
    }
  }

  lemma {:induction false} NoGroupSums(tags: seq<string>, weight: MetricTrade -> int)
    ensures SumGroups(tags, [], weight) == 0
  {
    if tags != [] {
      NoGroupSums(tags[..|tags| - 1], weight);
    }
  }

  /** Whatever is counted over the trades, the strategies' shares add up to the whole: nothing is lost or
     counted twice. */
  lemma {:induction false} StrategiesAddUp(trades: seq<MetricTrade>, weight: MetricTrade -> int)
    ensures SumGroups(Tags(trades), trades, weight) == SumBy(trades, weight)
  {
    hide Tag, Group, Tags;
    if trades == [] {
      NoGroupSums(Tags(trades), weight);
    } else {
      var n := |trades| - 1;
      var front, t := trades[..n], trades[n];
      assert trades == front + [t];
      StrategiesAddUp(front, weight);
      TagsNext(front, t);
      SumGroupsNext(Tags(front), front, t, weight);
      if Tag(t) !in Tags(front) {
        NewTagSums(front, t, weight);
      }
    }
  }

  lemma NewTagSums(front: seq<MetricTrade>, t: MetricTrade, weight: MetricTrade -> int)
    requires Tag(t) !in Tags(front)
    ensures SumGroups(Tags(front) + [Tag(t)], front + [t], weight)
        == SumGroups(Tags(front), front + [t], weight) + weight(t)
  {
    hide Tag, Group, Tags;
    var tags := Tags(front) + [Tag(t)];
    assert tags[..|tags| - 1] == Tags(front);
    TagsAppear(front);
    GroupNext(front, t, Tag(t));
    assert Group(front + [t], Tag(t)) == [t];
    assert SumBy([t], weight) == SumBy([t][..0], weight) + weight(t);
  }

  /** A closed trade's net result in units of 10^-k. */
  function NetUnits(k: nat): MetricTrade -> int {
    (t: MetricTrade) => if t.netPnl.Some? && Value(t.netPnl.value).s <= k then Units(Value(t.netPnl.value), k) else 0
  }

  lemma {:induction false} NetSum(trades: seq<MetricTrade>, k: nat)
    requires ScaleWithin(Nets(trades), k)
    ensures Sum(InUnits(Nets(trades), k)) == SumBy(trades, NetUnits(k))
  {
    hide Value, Units, Nets, ScaleWithin, InUnits, Sum, NetUnits;
    if trades == [] {
      NothingNets(trades, k);
    } else {
      var n := |trades| - 1;
      var front, t := trades[..n], trades[n];
      assert trades == front + [t];
      LastNet(front, t, k);
      NetSum(front, k);
    }
  }

  lemma NothingNets(trades: seq<MetricTrade>, k: nat)
    requires trades == []
    ensures Nets(trades) == [] && ScaleWithin(Nets(trades), k) && Sum(InUnits(Nets(trades), k)) == 0
  {
  }

  /** One more trade, closed or open. */
  lemma LastNet(front: seq<MetricTrade>, t: MetricTrade, k: nat)
    requires ScaleWithin(Nets(front + [t]), k)
    ensures ScaleWithin(Nets(front), k)
    ensures Sum(InUnits(Nets(front + [t]), k)) == Sum(InUnits(Nets(front), k)) + NetUnits(k)(t)
  {
    hide Value, Units, Nets;
    AppendTrade(front, t);
    if t.netPnl.Some? {
      var v := Value(t.netPnl.value);
      var nets := Nets(front) + [v];
      assert nets[|nets| - 1] == v;
      assert forall i :: 0 <= i < |Nets(front)| ==> Nets(front)[i] == nets[i];
      assert InUnits(nets, k) == InUnits(Nets(front), k) + [Units(v, k)];
      SumStep(InUnits(Nets(front), k), Units(v, k));
    }
  }

  /** Before rounding, the strategies' totals add up to the overall total. */
  lemma TotalsAddUp(trades: seq<MetricTrade>, k: nat)
    requires ScaleWithin(Nets(trades), k)
    ensures SumGroups(Tags(trades), trades, NetUnits(k)) == Sum(InUnits(Nets(trades), k))
  {
    StrategiesAddUp(trades, NetUnits(k));
    NetSum(trades, k);
    hide *;
  }
}
