/**
 From a ledger of fills to closed positions: fills are deduplicated by deal id, grouped by
 position, and each group becomes one trade or one skip with a reason.
 */
module PositionAssembly {
  import opened Wrappers
  import opened FillArithmetic
  import opened FillFigures
  import opened Decimal
  import Digits
  import Text

  datatype AssembledPosition = AssembledPosition(
    positionKey: string, symbol: string, direction: Direction, entryPrice: string, exitPrice: string,
    volume: string, profitLoss: string, commission: string, swap: string,
    openInstantUtc: string, closeInstantUtc: string, rawOpenText: Option<string>, rawCloseText: Option<string>)

  datatype SkipReason =
    | UnpairedDealNoPositionId | MissingOpenFill | PositionStillOpen | PositionPartiallyOpen
    | OpenInstantUnresolved | CloseInstantUnresolved | CloseBeforeOpen | UnknownDirection
    | InvalidPricesOrVolume | MissingSymbol

  datatype AssemblySkip = AssemblySkip(key: string, reason: SkipReason)

  datatype AssemblyResult = AssemblyResult(trades: seq<AssembledPosition>, skipped: seq<AssemblySkip>)

  datatype Position = Trade(trade: AssembledPosition) | Skip(skip: AssemblySkip)

  // ---------------------------------------------------------------- keys

  predicate IsKeyChar(c: char) {
    'A' <= c <= 'Z' || 'a' <= c <= 'z' || '0' <= c <= '9' || c == '.' || c == '_' || c == ':' || c == '-'
  }

  /** `pos-<positionId>`, for a trimmed id of 1 to 64 of the allowed characters. */
  function PositionGroupKey(positionId: Option<string>): Option<string> {
    if positionId.None? then None
    else
      var pid := Text.JsTrim(positionId.value);
      if 1 <= |pid| <= 64 && (forall i :: 0 <= i < |pid| ==> IsKeyChar(pid[i])) then Some("pos-" + pid) else None
  }

  // ---------------------------------------------------------------- boundaries

  predicate Resolved(f: Fill) {
    f.occurredAtUtc.Some? && f.occurredAtUtc.value != ""
  }

  /** `f` lies strictly beyond `g` in the wanted direction. */
  predicate Beyond(f: Fill, g: Fill, latest: bool)
    requires Resolved(f) && Resolved(g)
  {
    if latest then Text.Less(g.occurredAtUtc.value, f.occurredAtUtc.value)
    else Text.Less(f.occurredAtUtc.value, g.occurredAtUtc.value)
  }

  /** The first fill carrying the earliest (or latest) resolved instant. */
  function Boundary(fills: seq<Fill>, latest: bool): (best: Option<Fill>)
    ensures best.Some? ==> Resolved(best.value)
  {
    if fills == [] then None
    else
      var best := Boundary(fills[..|fills| - 1], latest);
      var f := fills[|fills| - 1];
      if Resolved(f) && (best.None? || Beyond(f, best.value, latest)) then Some(f) else best
  }

  /** The boundary is among the fills, and no resolved fill lies beyond it. */
  lemma {:induction false} BoundaryIsExtreme(fills: seq<Fill>, latest: bool)
    ensures var best := Boundary(fills, latest);
            && (best.None? <==> forall f :: f in fills ==> !Resolved(f))
            && (best.Some? ==>
                  best.value in fills && forall f :: f in fills && Resolved(f) ==> !Beyond(f, best.value, latest))
  {
    if fills != [] {
      var n := |fills| - 1;
      BoundaryIsExtreme(fills[..n], latest);
      var before, best := Boundary(fills[..n], latest), Boundary(fills, latest);
      assert fills == fills[..n] + [fills[n]];
      if best.Some? {
        forall f | f in fills && Resolved(f)
          ensures !Beyond(f, best.value, latest)
        {
          Text.LessIrreflexive(f.occurredAtUtc.value);
          if before.Some? && best == Some(fills[n]) && f in fills[..n] && Beyond(f, best.value, latest) {
            if latest {
              Text.LessTransitive(before.value.occurredAtUtc.value, best.value.occurredAtUtc.value,
                f.occurredAtUtc.value);
            } else {
              Text.LessTransitive(f.occurredAtUtc.value, best.value.occurredAtUtc.value,
                before.value.occurredAtUtc.value);
            }
          }
        }
      }
    }
  }

  lemma BoundaryPermuted(a: seq<Fill>, b: seq<Fill>, latest: bool)
    requires multiset(a) == multiset(b)
    ensures Boundary(a, latest).Some? <==> Boundary(b, latest).Some?
    ensures Boundary(a, latest).Some? ==>
        Boundary(a, latest).value.occurredAtUtc == Boundary(b, latest).value.occurredAtUtc
  {
    SamePermuted(a, b);
    BoundaryIsExtreme(a, latest);
    BoundaryIsExtreme(b, latest);
    var x, y := Boundary(a, latest), Boundary(b, latest);
    if x.Some? && y.Some? {
      Text.LessTotal(x.value.occurredAtUtc.value, y.value.occurredAtUtc.value);
    }
  }

  method BoundaryFill(fills: seq<Fill>, latest: bool) returns (best: Option<Fill>)
    ensures best == Boundary(fills, latest)
  {
    best := None;
    var i := 0;
    while i < |fills|
      invariant 0 <= i <= |fills| && best == Boundary(fills[..i], latest)
    {
      assert fills[..i + 1][..i] == fills[..i];
      var f := fills[i];
      i := i + 1;
      if f.occurredAtUtc.None? || f.occurredAtUtc.value == "" {
        continue;
      }
      if best.None?
         || (latest && Text.Less(best.value.occurredAtUtc.value, f.occurredAtUtc.value))
         || (!latest && Text.Less(f.occurredAtUtc.value, best.value.occurredAtUtc.value)) {
        best := Some(f);
      }
    }
    assert fills[..|fills|] == fills;
  }

  // ---------------------------------------------------------------- direction and symbol

  function Direct(fills: seq<Fill>): Option<Direction> {
    if fills == [] then None else if fills[0].direction.Some? then fills[0].direction else Direct(fills[1..])
  }

  lemma {:induction false} DirectSome(fills: seq<Fill>)
    ensures Direct(fills).Some? <==> exists f :: f in fills && f.direction.Some?
  {
    if fills != [] {
      DirectSome(fills[1..]);
      assert fills == [fills[0]] + fills[1..];
    }
  }

  method OpenDirection(ins: seq<Fill>) returns (d: Option<Direction>)
    ensures d == Direct(ins)
  {
    var i := 0;
    while i < |ins|
      invariant 0 <= i <= |ins| && Direct(ins) == Direct(ins[i..])
    {
      if ins[i].direction.Some? {
        return ins[i].direction;
      }
      i := i + 1;
    }
    d := None;
  }

  predicate Named(f: Fill) {
    f.symbol.Some? && Text.JsTrim(f.symbol.value) != ""
  }

  /** The symbol as it stands, of the first fill with more than blanks in it. */
  function Symbol(fills: seq<Fill>): Option<string> {
    if fills == [] then None else if Named(fills[0]) then fills[0].symbol else Symbol(fills[1..])
  }

  lemma {:induction false} SymbolSome(fills: seq<Fill>)
    ensures Symbol(fills).Some? <==> exists f :: f in fills && Named(f)
  {
    hide Named;
    if fills != [] {
      SymbolSome(fills[1..]);
      NamedSome(fills[0]);
      assert fills == [fills[0]] + fills[1..];
    }
  }

  lemma NamedSome(f: Fill)
    ensures Named(f) ==> f.symbol.Some?
  {
  }

  method FirstSymbol(fills: seq<Fill>) returns (s: Option<string>)
    ensures s == Symbol(fills)
  {
    var i := 0;
    while i < |fills|
      invariant 0 <= i <= |fills| && Symbol(fills) == Symbol(fills[i..])
    {
      var v := fills[i].symbol;
      if v.Some? && Text.JsTrim(v.value) != "" {
        return v;
      }
      i := i + 1;
    }
    s := None;
  }

  // ---------------------------------------------------------------- one position

  predicate Positive(units: Option<int>) {
    units.Some? && units.value > 0
  }

  function PrintedOrZero(units: Option<int>): string {
    if units.None? then "0" else Print8(units.value)
  }

  /** What a group of fills becomes, in units of 10^-8 until the trade is written. */
  function Outcome(key: string, ins: seq<Fill>, outs: seq<Fill>): Result<Position, DecimalError> {
    if ins == [] then Success(Skip(AssemblySkip(key, MissingOpenFill)))
    else if outs == [] then Success(Skip(AssemblySkip(key, PositionStillOpen)))
    else
      var inVolume :- Sum(ins, Volume);
      var outVolume :- Sum(outs, Volume);
      if inVolume.None? || outVolume.None? || outVolume.value < inVolume.value then
        Success(Skip(AssemblySkip(key, PositionPartiallyOpen)))
      else
        Closed(key, ins, outs, inVolume.value)
  }

  function Closed(key: string, ins: seq<Fill>, outs: seq<Fill>, volume: int): Result<Position, DecimalError> {
    var opening := Boundary(ins, false);
    var closing := Boundary(outs, true);
    if opening.None? then Success(Skip(AssemblySkip(key, OpenInstantUnresolved)))
    else if closing.None? then Success(Skip(AssemblySkip(key, CloseInstantUnresolved)))
    else if Text.Less(closing.value.occurredAtUtc.value, opening.value.occurredAtUtc.value) then
      Success(Skip(AssemblySkip(key, CloseBeforeOpen)))
    else if Direct(ins).None? then Success(Skip(AssemblySkip(key, UnknownDirection)))
    else Valued(key, ins, outs, volume, opening.value, closing.value)
  }

  function Valued(key: string, ins: seq<Fill>, outs: seq<Fill>, volume: int, opening: Fill,
                  closing: Fill): Result<Position, DecimalError>
    requires Direct(ins).Some? && opening.occurredAtUtc.Some? && closing.occurredAtUtc.Some?
  {
    var entry :- Average(ins);
    var exit :- Average(outs);
    var profit :- Sum(ins + outs, Profit);
    var commission :- Sum(ins + outs, Commission);
    var swap :- Sum(ins + outs, Swap);
    if !Positive(entry) || !Positive(exit) || volume <= 0 then
      Success(Skip(AssemblySkip(key, InvalidPricesOrVolume)))
    else
      var symbol := if Symbol(ins).Some? then Symbol(ins) else Symbol(outs);
      if symbol.None? then Success(Skip(AssemblySkip(key, MissingSymbol)))
      else
        Success(Trade(AssembledPosition(
          key, symbol.value, Direct(ins).value, Print8(entry.value), Print8(exit.value), Print8(volume),
          PrintedOrZero(profit), PrintedOrZero(commission), PrintedOrZero(swap),
          opening.occurredAtUtc.value, closing.occurredAtUtc.value, opening.rawTimeText, closing.rawTimeText)))
  }

  /** `bccomp(v, "0", 8) > 0` */
  function IsPositive(decimal: string): bool
    requires IsDecimal(decimal)
  {
    Cmp(Rescale(FromString(decimal).value, SCALE, BcmathTruncate), Fixed(0, SCALE)) > 0
  }

  /** What was printed at scale 8 is read back as the same units. */
  lemma ReadBack(a: int)
    ensures IsDecimal(Print8(a)) && FromString(Print8(a)) == Success(Fixed(a, SCALE))
    ensures IsPositive(Print8(a)) <==> a > 0
  {
    ReadBackFixed(a);
    At8Order(a, 0);
    hide IsDecimal, FromString, ToString, Cmp;
  }

  lemma ReadBackFixed(a: int)
    ensures IsDecimal(Print8(a)) && FromString(Print8(a)) == Success(Fixed(a, SCALE))
  {
    hide ToString, IsDecimal;
    RoundTrip(Fixed(a, SCALE));
  }

  lemma At8Order(a: int, b: int)
    ensures Cmp(Fixed(a, SCALE), Fixed(b, SCALE)) < 0 <==> a < b
    ensures Cmp(Fixed(a, SCALE), Fixed(b, SCALE)) > 0 <==> a > b
  {
    assert Digits.Pow10(0) == 1;
  }

  // ---------------------------------------------------------------- one position, on the fields of its fills

  /** The volumes are given, and everything bought in was closed. */
  predicate Closes(ins: seq<Fill>, outs: seq<Fill>) {
    && ins != [] && outs != []
    && !NonePresent(ins, (f: Fill) => f.volume) && !NonePresent(outs, (f: Fill) => f.volume)
    && Total(outs, (f: Fill) => f.volume) >= Total(ins, (f: Fill) => f.volume)
  }

  /** The earliest opening instant is not after the latest closing one. */
  ghost predicate Spans(ins: seq<Fill>, outs: seq<Fill>) {
    exists i: nat, j: nat :: IsEarliest(ins, i) && IsLatest(outs, j)
                   && !Text.Less(outs[j].occurredAtUtc.value, ins[i].occurredAtUtc.value)
  }

  predicate Any(fills: seq<Fill>, wanted: Fill -> bool) {
    exists i :: 0 <= i < |fills| && wanted(fills[i])
  }

  ghost predicate WorthSomething(ins: seq<Fill>, outs: seq<Fill>) {
    && Total(ins, (f: Fill) => f.volume) > 0
    && (exists entry :: entry > 0 && IsAveragePrice(ins, entry))
    && (exists exit :: exit > 0 && IsAveragePrice(outs, exit))
  }

  /** Each figure of the trade is that of its own field, over its own side of the position. */
  ghost predicate IsTrade(t: AssembledPosition, key: string, ins: seq<Fill>, outs: seq<Fill>) {
    && t.positionKey == key && Closes(ins, outs)
    && t.volume == SumText(ins, (f: Fill) => f.volume) && Total(ins, (f: Fill) => f.volume) > 0
    && (exists entry :: entry > 0 && IsAveragePrice(ins, entry) && t.entryPrice == ToString(Fixed(entry, 8)))
    && (exists exit :: exit > 0 && IsAveragePrice(outs, exit) && t.exitPrice == ToString(Fixed(exit, 8)))
    && t.profitLoss == SumText(ins + outs, (f: Fill) => f.profit)
    && t.commission == SumText(ins + outs, (f: Fill) => f.commission)
    && t.swap == SumText(ins + outs, (f: Fill) => f.swap)
    && (exists i: nat :: IsEarliest(ins, i)
                    && t.openInstantUtc == ins[i].occurredAtUtc.value && t.rawOpenText == ins[i].rawTimeText)
    && (exists j: nat :: IsLatest(outs, j)
                    && t.closeInstantUtc == outs[j].occurredAtUtc.value && t.rawCloseText == outs[j].rawTimeText)
    && !Text.Less(t.closeInstantUtc, t.openInstantUtc)
    && (exists i: nat :: IsFirst(ins, i, (f: Fill) => f.direction.Some?) && ins[i].direction == Some(t.direction))
    && if Any(ins, HasSymbol) then exists i: nat :: IsFirst(ins, i, HasSymbol) && ins[i].symbol == Some(t.symbol)
       else exists i: nat :: IsFirst(outs, i, HasSymbol) && outs[i].symbol == Some(t.symbol)
  }

  /** The condition of each reason: its own test fails, and the ones before it do not. */
  ghost predicate IsReason(reason: SkipReason, ins: seq<Fill>, outs: seq<Fill>) {
    match reason
    case UnpairedDealNoPositionId => false
    case MissingOpenFill => ins == []
    case PositionStillOpen => ins != [] && outs == []
    case PositionPartiallyOpen => ins != [] && outs != [] && !Closes(ins, outs)
    case OpenInstantUnresolved => Closes(ins, outs) && !Any(ins, Timed)
    case CloseInstantUnresolved => Closes(ins, outs) && Any(ins, Timed) && !Any(outs, Timed)
    case CloseBeforeOpen => Closes(ins, outs) && Any(ins, Timed) && Any(outs, Timed) && !Spans(ins, outs)
    case UnknownDirection =>
      Closes(ins, outs) && Spans(ins, outs) && !Any(ins, (f: Fill) => f.direction.Some?)
    case InvalidPricesOrVolume =>
      && Closes(ins, outs) && Spans(ins, outs) && Any(ins, (f: Fill) => f.direction.Some?)
      && !WorthSomething(ins, outs)
    case MissingSymbol =>
      && Closes(ins, outs) && Spans(ins, outs) && Any(ins, (f: Fill) => f.direction.Some?)
      && WorthSomething(ins, outs) && !Any(ins, HasSymbol) && !Any(outs, HasSymbol)
  }

  /** What the group becomes, on its fields. */
  ghost predicate IsOutcome(p: Position, key: string, ins: seq<Fill>, outs: seq<Fill>) {
    match p
    case Trade(t) => IsTrade(t, key, ins, outs)
    case Skip(s) => s.key == key && IsReason(s.reason, ins, outs)
  }

  /** A decimal that the assembly comes to read is malformed; fills it skips earlier are not read. */
  ghost predicate Malformed(ins: seq<Fill>, outs: seq<Fill>) {
    && ins != [] && outs != []
    && (|| !AllParse(ins, (f: Fill) => f.volume) || !AllParse(outs, (f: Fill) => f.volume)
        || (&& Closes(ins, outs) && Spans(ins, outs) && Any(ins, (f: Fill) => f.direction.Some?)
            && (|| !PricesParse(ins) || !PricesParse(outs)
                || !AllParse(ins + outs, (f: Fill) => f.profit)
                || !AllParse(ins + outs, (f: Fill) => f.commission)
                || !AllParse(ins + outs, (f: Fill) => f.swap))))
  }

  /** Index `i` is the first of the extreme ones. */
  predicate StandsOut(fills: seq<Fill>, i: nat, latest: bool) {
    && i < |fills| && Timed(fills[i])
    && (forall j :: 0 <= j < i && Timed(fills[j]) ==> Beyond(fills[i], fills[j], latest))
    && (forall j :: i < j < |fills| && Timed(fills[j]) ==> !Beyond(fills[j], fills[i], latest))
  }

  lemma BeyondOrder(f: Fill, g: Fill, h: Fill, latest: bool)
    requires Timed(f) && Timed(g) && Timed(h)
    ensures Beyond(f, g, latest) && !Beyond(h, g, latest) ==> Beyond(f, h, latest)
  {
    var x, y, z := f.occurredAtUtc.value, g.occurredAtUtc.value, h.occurredAtUtc.value;
    Text.LessTotal(y, z);
    if latest && Text.Less(y, x) && Text.Less(z, y) {
      Text.LessTransitive(z, y, x);
    }
    if !latest && Text.Less(x, y) && Text.Less(y, z) {
      Text.LessTransitive(x, y, z);
    }
    hide Text.Less;
  }

  lemma StandsOutNext(fills: seq<Fill>, latest: bool, i: nat)
    requires fills != [] && StandsOut(fills[..|fills| - 1], i, latest)
    ensures var n := |fills| - 1;
            if Timed(fills[n]) && Beyond(fills[n], fills[i], latest) then StandsOut(fills, n, latest)
            else StandsOut(fills, i, latest)
  {
    hide Text.Less;
    var n := |fills| - 1;
    var front := fills[..n];
    if Timed(fills[n]) && Beyond(fills[n], fills[i], latest) {
      forall j | 0 <= j < n && Timed(fills[j])
        ensures Beyond(fills[n], fills[j], latest)
      {
        assert front[j] == fills[j] && front[i] == fills[i];
        if j != i {
          BeyondOrder(fills[j], fills[i], fills[i], latest);
          BeyondOrder(fills[n], fills[i], fills[j], latest);
          NotBack(front, i, j, latest);
        }
      }
    } else {
      forall j | 0 <= j < |fills| && j != i && Timed(fills[j])
        ensures if j < i then Beyond(fills[i], fills[j], latest) else !Beyond(fills[j], fills[i], latest)
      {
        if j < n {
          assert front[j] == fills[j];
        }
      }
    }
  }

  lemma NotBack(fills: seq<Fill>, i: nat, j: nat, latest: bool)
    requires StandsOut(fills, i, latest) && j < |fills| && j != i && Timed(fills[j])
    ensures !Beyond(fills[j], fills[i], latest)
  {
    var x, y := fills[i].occurredAtUtc.value, fills[j].occurredAtUtc.value;
    if Text.Less(x, y) && Text.Less(y, x) {
      Text.LessTransitive(x, y, x);
    }
    Text.LessIrreflexive(x);
    hide Text.Less;
  }

  lemma {:induction false} BoundaryAt(fills: seq<Fill>, latest: bool)
    ensures Boundary(fills, latest).None? <==> !Any(fills, Timed)
    ensures Boundary(fills, latest).Some? ==>
              exists i: nat :: StandsOut(fills, i, latest) && Boundary(fills, latest) == Some(fills[i])
  {
    hide Beyond;
    if fills != [] {
      var n := |fills| - 1;
      var front := fills[..n];
      BoundaryAt(front, latest);
      assert fills == front + [fills[n]];
      AnyNext(front, fills[n], Timed);
      if Any(front, Timed) {
        var i: nat :| StandsOut(front, i, latest) && Boundary(front, latest) == Some(front[i]);
        StandsOutNext(fills, latest, i);
      } else if Timed(fills[n]) {
        NoneBefore(fills, latest);
      }
    }
  }

  lemma AnyNext(front: seq<Fill>, f: Fill, wanted: Fill -> bool)
    ensures Any(front + [f], wanted) <==> Any(front, wanted) || wanted(f)
  {
    var fills := front + [f];
    assert fills[|front|] == f;
    if Any(front, wanted) {
      var i :| 0 <= i < |front| && wanted(front[i]);
      assert fills[i] == front[i];
    }
  }

  lemma NoneBefore(fills: seq<Fill>, latest: bool)
    requires fills != [] && !Any(fills[..|fills| - 1], Timed) && Timed(fills[|fills| - 1])
    ensures StandsOut(fills, |fills| - 1, latest)
  {
    forall j | 0 <= j < |fills| - 1
      ensures !Timed(fills[j])
    {
      assert fills[..|fills| - 1][j] == fills[j];
    }
  }

  lemma StandsOutOnFields(fills: seq<Fill>, i: nat)
    ensures StandsOut(fills, i, false) <==> IsEarliest(fills, i)
    ensures StandsOut(fills, i, true) <==> IsLatest(fills, i)
  {
    hide Text.Less;
  }

  lemma {:induction false} DirectAt(fills: seq<Fill>)
    ensures Direct(fills).Some? <==> Any(fills, (f: Fill) => f.direction.Some?)
    ensures Direct(fills).Some? ==>
              exists i: nat :: IsFirst(fills, i, (f: Fill) => f.direction.Some?) && fills[i].direction == Direct(fills)
  {
    var wanted := (f: Fill) => f.direction.Some?;
    if fills != [] {
      if fills[0].direction.Some? {
        assert IsFirst(fills, 0, wanted);
      } else {
        DirectAt(fills[1..]);
        if Direct(fills[1..]).Some? {
          var i: nat :| IsFirst(fills[1..], i, wanted) && fills[1..][i].direction == Direct(fills[1..]);
          FirstShifts(fills, i, wanted);
        }
        AnyShifts(fills, wanted);
      }
    }
  }

  lemma {:induction false} SymbolAt(fills: seq<Fill>)
    ensures Symbol(fills).Some? <==> Any(fills, HasSymbol)
    ensures Symbol(fills).Some? ==>
              exists i: nat :: IsFirst(fills, i, HasSymbol) && fills[i].symbol == Symbol(fills)
  {
    hide Text.JsTrim;
    if fills != [] {
      if Named(fills[0]) {
        assert IsFirst(fills, 0, HasSymbol);
      } else {
        SymbolAt(fills[1..]);
        if Symbol(fills[1..]).Some? {
          var i: nat :| IsFirst(fills[1..], i, HasSymbol) && fills[1..][i].symbol == Symbol(fills[1..]);
          FirstShifts(fills, i, HasSymbol);
        }
        AnyShifts(fills, HasSymbol);
      }
    }
  }

  lemma FirstShifts(fills: seq<Fill>, i: nat, wanted: Fill -> bool)
    requires fills != [] && !wanted(fills[0]) && IsFirst(fills[1..], i, wanted)
    ensures IsFirst(fills, i + 1, wanted) && fills[i + 1] == fills[1..][i]
  {
    forall j | 0 <= j < i + 1
      ensures !wanted(fills[j])
    {
      assert j > 0 ==> fills[j] == fills[1..][j - 1];
    }
  }

  lemma AnyShifts(fills: seq<Fill>, wanted: Fill -> bool)
    requires fills != [] && !wanted(fills[0])
    ensures Any(fills, wanted) <==> Any(fills[1..], wanted)
  {
    if Any(fills, wanted) {
      var i :| 0 <= i < |fills| && wanted(fills[i]);
      assert fills[1..][i - 1] == fills[i];
    }
    if Any(fills[1..], wanted) {
      var i :| 0 <= i < |fills[1..]| && wanted(fills[1..][i]);
      assert fills[i + 1] == fills[1..][i];
    }
  }

  lemma SumTextOnFields(fills: seq<Fill>, field: Field, pick: Fill -> Option<string>)
    requires forall f: Fill :: pick(f) == Read(f, field)
    ensures Sum(fills, field).Success? ==> PrintedOrZero(Sum(fills, field).value) == SumText(fills, pick)
  {
    hide Read, ToString, Total, NonePresent, Sum;
    SumOnFields(fills, field, pick);
  }

  lemma ClosesOnFields(ins: seq<Fill>, outs: seq<Fill>)
    requires ins != [] && outs != [] && Sum(ins, Volume).Success? && Sum(outs, Volume).Success?
    ensures var a, b := Sum(ins, Volume).value, Sum(outs, Volume).value;
            && (Closes(ins, outs) <==> a.Some? && b.Some? && b.value >= a.value)
            && (a.Some? ==> a.value == Total(ins, (f: Fill) => f.volume))
            && (a.Some? ==> Print8(a.value) == SumText(ins, (f: Fill) => f.volume))
  {
    hide ToString, Total, NonePresent, Sum;
    SumOnFields(ins, Volume, (f: Fill) => f.volume);
    SumOnFields(outs, Volume, (f: Fill) => f.volume);
  }

  /** Opening and closing instants, and whether the position spans a time. */
  lemma SpansOnFields(ins: seq<Fill>, outs: seq<Fill>)
    requires Boundary(ins, false).Some? && Boundary(outs, true).Some?
    ensures var opening, closing := Boundary(ins, false).value, Boundary(outs, true).value;
            && (Spans(ins, outs) <==> !Text.Less(closing.occurredAtUtc.value, opening.occurredAtUtc.value))
            && (exists i: nat :: IsEarliest(ins, i) && opening == ins[i])
            && (exists j: nat :: IsLatest(outs, j) && closing == outs[j])
  {
    hide Text.Less, IsEarliest, IsLatest, Boundary, Beyond, Any;
    BoundaryAt(ins, false);
    BoundaryAt(outs, true);
    var i: nat :| StandsOut(ins, i, false) && Boundary(ins, false) == Some(ins[i]);
    var j: nat :| StandsOut(outs, j, true) && Boundary(outs, true) == Some(outs[j]);
    StandsOutOnFields(ins, i);
    StandsOutOnFields(outs, j);
    forall x: nat, y: nat | IsEarliest(ins, x) && IsLatest(outs, y)
      ensures x == i && y == j
    {
      EarliestOnce(ins, x, i);
      LatestOnce(outs, y, j);
    }
  }

  lemma EarliestOnce(fills: seq<Fill>, i: nat, j: nat)
    requires IsEarliest(fills, i) && IsEarliest(fills, j)
    ensures i == j
  {
    hide Text.Less;
  }

  lemma LatestOnce(fills: seq<Fill>, i: nat, j: nat)
    requires IsLatest(fills, i) && IsLatest(fills, j)
    ensures i == j
  {
    hide Text.Less;
  }

  lemma WorthOnFields(ins: seq<Fill>, outs: seq<Fill>, volume: int)
    requires Average(ins).Success? && Average(outs).Success? && volume == Total(ins, (f: Fill) => f.volume)
    ensures WorthSomething(ins, outs)
       <==> Positive(Average(ins).value) && Positive(Average(outs).value) && volume > 0
    ensures Average(ins).value.Some? ==> IsAveragePrice(ins, Average(ins).value.value)
    ensures Average(outs).value.Some? ==> IsAveragePrice(outs, Average(outs).value.value)
  {
    hide Average, IsAveragePrice, Total, PricedVolume;
    OnePriceAtMost(ins);
    OnePriceAtMost(outs);
  }

  lemma OnePriceAtMost(fills: seq<Fill>)
    requires Average(fills).Success?
    ensures Average(fills).value.Some? ==> IsAveragePrice(fills, Average(fills).value.value)
    ensures forall a :: IsAveragePrice(fills, a) ==> Average(fills).value == Some(a)
  {
    hide Average, Turnover, PricedVolume, PricesParse, RoundsTo, Digits.Pow10;
    AverageOnFields(fills);
    forall a | IsAveragePrice(fills, a)
      ensures Average(fills).value == Some(a)
    {
      PriceOnce(fills, a, Average(fills).value.value);
    }
  }

  lemma ValuedOnFields(key: string, ins: seq<Fill>, outs: seq<Fill>, volume: int, opening: Fill, closing: Fill)
    requires Direct(ins).Some? && opening.occurredAtUtc.Some? && closing.occurredAtUtc.Some?
    requires Closes(ins, outs) && Spans(ins, outs) && volume == Total(ins, (f: Fill) => f.volume)
    requires Print8(volume) == SumText(ins, (f: Fill) => f.volume)
    requires !Text.Less(closing.occurredAtUtc.value, opening.occurredAtUtc.value)
    requires exists i: nat :: IsEarliest(ins, i) && opening == ins[i]
    requires exists j: nat :: IsLatest(outs, j) && closing == outs[j]
    requires Valued(key, ins, outs, volume, opening, closing).Success?
    ensures IsOutcome(Valued(key, ins, outs, volume, opening, closing).value, key, ins, outs)
  {
    hide Text.Less, Sum, Average, Symbol, Direct, ToString, Total, IsAveragePrice, IsEarliest, IsLatest, SumText,
      Closes, Spans, Any, IsFirst, HasSymbol, WorthSomething, PrintedOrZero;
    SumTextOnFields(ins + outs, Profit, (f: Fill) => f.profit);
    SumTextOnFields(ins + outs, Commission, (f: Fill) => f.commission);
    SumTextOnFields(ins + outs, Swap, (f: Fill) => f.swap);
    WorthOnFields(ins, outs, volume);
    DirectAt(ins);
    SymbolAt(ins);
    SymbolAt(outs);
  }

  /** Whatever a group of fills becomes, it is what its fields say. */
  lemma OutcomeOnFields(key: string, ins: seq<Fill>, outs: seq<Fill>)
    requires Outcome(key, ins, outs).Success?
    ensures IsOutcome(Outcome(key, ins, outs).value, key, ins, outs)
  {
    if ins != [] && outs != [] {
      ClosesOnFields(ins, outs);
      hide Sum, Total, Closes;
      if Closes(ins, outs) {
        ClosedOnFields(key, ins, outs, Sum(ins, Volume).value.value);
      }
      hide Closed, IsTrade, Spans, Any, WorthSomething;
    }
  }

  /** Exactly a malformed decimal on the way makes the assembly of a group fail. */
  lemma FailureOnFields(key: string, ins: seq<Fill>, outs: seq<Fill>)
    ensures Outcome(key, ins, outs).Failure? <==> Malformed(ins, outs)
  {
    hide Sum, Total, Average, Boundary, Direct, Symbol, Text.Less, ToString, AllParse, PricesParse, Spans, Any;
    SumOnFields(ins, Volume, (f: Fill) => f.volume);
    SumOnFields(outs, Volume, (f: Fill) => f.volume);
    if ins != [] && outs != [] && Sum(ins, Volume).Success? && Sum(outs, Volume).Success? {
      ClosesOnFields(ins, outs);
      if Closes(ins, outs) {
        ClosedFailure(key, ins, outs, Sum(ins, Volume).value.value);
      }
    }
    hide Closed, Closes;
  }

  lemma ClosedFailure(key: string, ins: seq<Fill>, outs: seq<Fill>, volume: int)
    ensures Closed(key, ins, outs, volume).Failure? <==>
              && Spans(ins, outs) && Any(ins, (f: Fill) => f.direction.Some?)
              && (|| !PricesParse(ins) || !PricesParse(outs)
                  || !AllParse(ins + outs, (f: Fill) => f.profit)
                  || !AllParse(ins + outs, (f: Fill) => f.commission)
                  || !AllParse(ins + outs, (f: Fill) => f.swap))
  {
    hide Sum, Average, Boundary, Direct, Symbol, Text.Less, ToString, AllParse, PricesParse, Any, IsEarliest,
      IsLatest, PricedVolume, NonePresent, Total;
    BoundaryAt(ins, false);
    BoundaryAt(outs, true);
    DirectAt(ins);
    AverageOnFields(ins);
    AverageOnFields(outs);
    SumOnFields(ins + outs, Profit, (f: Fill) => f.profit);
    SumOnFields(ins + outs, Commission, (f: Fill) => f.commission);
    SumOnFields(ins + outs, Swap, (f: Fill) => f.swap);
    if Boundary(ins, false).Some? && Boundary(outs, true).Some? {
      SpansOnFields(ins, outs);
    } else {
      NoSpan(ins, outs);
    }
    hide Spans;
  }

  lemma NoSpan(ins: seq<Fill>, outs: seq<Fill>)
    requires !Any(ins, Timed) || !Any(outs, Timed)
    ensures !Spans(ins, outs)
  {
    hide Text.Less;
  }

  lemma ClosedOnFields(key: string, ins: seq<Fill>, outs: seq<Fill>, volume: int)
    requires Closes(ins, outs) && volume == Total(ins, (f: Fill) => f.volume)
    requires Print8(volume) == SumText(ins, (f: Fill) => f.volume)
    requires Closed(key, ins, outs, volume).Success?
    ensures IsOutcome(Closed(key, ins, outs, volume).value, key, ins, outs)
  {
    hide Text.Less, Sum, Average, Symbol, Direct, ToString, Total, Boundary, Closes, Spans, Any, WorthSomething,
      IsTrade, Valued, SumText, IsEarliest, IsLatest;
    BoundaryAt(ins, false);
    BoundaryAt(outs, true);
    DirectAt(ins);
    if Boundary(ins, false).Some? && Boundary(outs, true).Some? {
      SpansOnFields(ins, outs);
      if Spans(ins, outs) && Direct(ins).Some? {
        ValuedOnFields(key, ins, outs, volume, Boundary(ins, false).value, Boundary(outs, true).value);
      }
    }
  }

  method AssemblePosition(key: string, ins: seq<Fill>, outs: seq<Fill>) returns (r: Result<Position, DecimalError>)
    ensures r == Outcome(key, ins, outs)
    ensures r.Success? ==> IsOutcome(r.value, key, ins, outs)
    ensures r.Failure? <==> Malformed(ins, outs)
  {
    FailureOnFields(key, ins, outs);
    if Outcome(key, ins, outs).Success? {
      OutcomeOnFields(key, ins, outs);
    }
    hide IsOutcome, Malformed;
    hide Sum, Average, Boundary, Direct, Symbol, Print8, IsPositive, IsDecimal, FromString, ToString, Cmp, Text.Less;
    if ins == [] || outs == [] {
      return Success(Skip(AssemblySkip(key, if ins == [] then MissingOpenFill else PositionStillOpen)));
    }
    var inVol :- SumDecimal(ins, Volume);
    var outVol :- SumDecimal(outs, Volume);
    ghost var inUnits, outUnits := Sum(ins, Volume).value, Sum(outs, Volume).value;
    if inVol.None? || outVol.None? {
      return Success(Skip(AssemblySkip(key, PositionPartiallyOpen)));
    }
    ReadBack(inUnits.value);
    ReadBack(outUnits.value);
    At8Order(outUnits.value, inUnits.value);
    if Cmp(FromString(outVol.value).value, FromString(inVol.value).value) < 0 {
      return Success(Skip(AssemblySkip(key, PositionPartiallyOpen)));
    }
    var opening := BoundaryFill(ins, false);
    var closing := BoundaryFill(outs, true);
    if opening.None? {
      return Success(Skip(AssemblySkip(key, OpenInstantUnresolved)));
    }
    if closing.None? {
      return Success(Skip(AssemblySkip(key, CloseInstantUnresolved)));
    }
    if Text.Less(closing.value.occurredAtUtc.value, opening.value.occurredAtUtc.value) {
      return Success(Skip(AssemblySkip(key, CloseBeforeOpen)));
    }
    var direction := OpenDirection(ins);
    if direction.None? {
      return Success(Skip(AssemblySkip(key, UnknownDirection)));
    }
    r := AssembleValues(key, ins, outs, inVol.value, inUnits.value, opening.value, closing.value, direction.value);
  }

  method AssembleValues(key: string, ins: seq<Fill>, outs: seq<Fill>, volume: string, ghost units: int,
                        opening: Fill, closing: Fill, direction: Direction)
    returns (r: Result<Position, DecimalError>)
    requires volume == Print8(units) && Direct(ins) == Some(direction)
    requires opening.occurredAtUtc.Some? && closing.occurredAtUtc.Some?
    ensures r == Valued(key, ins, outs, units, opening, closing)
  {
    hide Sum, Average, Symbol, Print8, IsPositive, IsDecimal;
    var entry :- WeightedAverage(ins);
    var exit :- WeightedAverage(outs);
    var profit :- SumDecimal(ins + outs, Profit);
    var commission :- SumDecimal(ins + outs, Commission);
    var swap :- SumDecimal(ins + outs, Swap);
    ghost var entryUnits, exitUnits := Average(ins).value, Average(outs).value;
    if entry.None? || exit.None? {
      return Success(Skip(AssemblySkip(key, InvalidPricesOrVolume)));
    }
    ReadBack(entryUnits.value);
    ReadBack(exitUnits.value);
    ReadBack(units);
    if !IsPositive(entry.value) || !IsPositive(exit.value) || !IsPositive(volume) {
      return Success(Skip(AssemblySkip(key, InvalidPricesOrVolume)));
    }
    var symbol := FirstSymbol(ins);
    if symbol.None? {
      symbol := FirstSymbol(outs);
    }
    if symbol.None? {
      return Success(Skip(AssemblySkip(key, MissingSymbol)));
    }
    r := Success(Trade(AssembledPosition(
      key, symbol.value, direction, entry.value, exit.value, volume,
      profit.GetOr("0"), commission.GetOr("0"), swap.GetOr("0"),
      opening.occurredAtUtc.value, closing.occurredAtUtc.value, opening.rawTimeText, closing.rawTimeText)));
  }
}
