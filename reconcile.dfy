/**
 * Annual reconciliation engine: from the normalized fact rows of one
 * company, pick for a metric the candidate concept with the freshest
 * fiscal-year coverage and reduce it to one annual value per fiscal year.
 */
module Reconcile {
  import opened Wrappers
  import opened Ordering
  import opened Seqs
  import opened Facts

  /** A metric: its name, candidate concepts in preference order, unit, period type and allowed forms. */
  datatype ConceptSpec = ConceptSpec(
    name: string,
    candidates: seq<string>,
    unit: string,
    periodType: Option<string>,
    forms: Option<seq<string>>)

  datatype FinancialsConfig = FinancialsConfig(formsAnnual: seq<string>, lastNYears: int)

  function DefaultFinancialsConfig(): (cfg: FinancialsConfig)
    ensures cfg.formsAnnual == ["10-K"] && cfg.lastNYears == 5
  {
    FinancialsConfig(["10-K"], 5)
  }

  /** A default metric: annual-report facts in dollars. */
  function UsdAnnual(name: string, candidates: seq<string>, periodType: string): ConceptSpec {
    ConceptSpec(name, candidates, "USD", Some(periodType), Some(["10-K"]))
  }

  /** The eight default metrics. */
  function DefaultMvpSpecs(): (specs: seq<ConceptSpec>)
    ensures |specs| == 8
    ensures forall i, j :: 0 <= i < j < |specs| ==> specs[i].name != specs[j].name
    ensures forall i :: 0 <= i < |specs| ==>
      && specs[i].unit == "USD" && specs[i].forms == Some(["10-K"]) && specs[i].candidates != []
      && (specs[i].periodType == Some("duration") <==> i < 6)
      && (specs[i].periodType == Some("instant") <==> 6 <= i)
  {
    [ UsdAnnual("revenue", ["RevenueFromContractWithCustomerExcludingAssessedTax", "Revenues", "SalesRevenueNet"], "duration"),
      UsdAnnual("gross_profit", ["GrossProfit"], "duration"),
      UsdAnnual("operating_income", ["OperatingIncomeLoss"], "duration"),
      UsdAnnual("net_income", ["NetIncomeLoss"], "duration"),
      UsdAnnual("cfo", ["NetCashProvidedByUsedInOperatingActivities",
                        "NetCashProvidedByUsedInOperatingActivitiesContinuingOperations"], "duration"),
      UsdAnnual("capex", ["PaymentsToAcquirePropertyPlantAndEquipment", "PaymentsToAcquireProductiveAssets"], "duration"),
      UsdAnnual("cash", ["CashAndCashEquivalentsAtCarryingValue"], "instant"),
      UsdAnnual("equity", ["StockholdersEquity"], "instant") ]
  }

  // ---------------------------------------------------------------------
  // Prefilters
  // ---------------------------------------------------------------------

  /** The `period_type` cell of a row. */
  function PeriodTypeName(p: PeriodType): string {
    match p
    case Instant => "instant"
    case Duration => "duration"
  }

  /** `_filter_forms`: the rows whose form is allowed. */
  function FilterForms(rows: seq<Fact>, forms: seq<string>): (r: seq<Fact>)
    ensures forall x :: multiset(r)[x] == if x.form in forms then multiset(rows)[x] else 0
  {
    var p := (x: Fact) => x.form in forms;
    FilterSpec(rows, p);
    Filter(rows, p)
  }

  /** `_filter_unit`: the rows in one unit. */
  function FilterUnit(rows: seq<Fact>, unit: string): (r: seq<Fact>)
    ensures forall x :: multiset(r)[x] == if x.unit == unit then multiset(rows)[x] else 0
  {
    var p := (x: Fact) => x.unit == unit;
    FilterSpec(rows, p);
    Filter(rows, p)
  }

  /** `_filter_period_type`: the rows of one period type; no type keeps every row. */
  function FilterPeriodType(rows: seq<Fact>, periodType: Option<string>): (r: seq<Fact>)
    ensures periodType.None? ==> r == rows
    ensures periodType.Some? ==>
      forall x :: multiset(r)[x] == if PeriodTypeName(x.periodType) == periodType.value then multiset(rows)[x] else 0
  {
    if periodType.None? then rows
    else
      var p := (x: Fact) => PeriodTypeName(x.periodType) == periodType.value;
      FilterSpec(rows, p);
      Filter(rows, p)
  }

  /** What the metric's prefilters admit; an absent or empty form list admits every form. */
  predicate Admitted(spec: ConceptSpec, x: Fact) {
    && (spec.forms.None? || spec.forms.value == [] || x.form in spec.forms.value)
    && x.unit == spec.unit
    && (spec.periodType.None? || PeriodTypeName(x.periodType) == spec.periodType.value)
  }

  /** `_prepare_base`: forms (when a non-empty list is given), then unit, then period type. */
  function PrepareBase(rows: seq<Fact>, spec: ConceptSpec): (r: seq<Fact>)
    ensures forall x :: multiset(r)[x] == if Admitted(spec, x) then multiset(rows)[x] else 0
  {
    var byForm := if spec.forms.Some? && spec.forms.value != [] then FilterForms(rows, spec.forms.value) else rows;
    FilterPeriodType(FilterUnit(byForm, spec.unit), spec.periodType)
  }

  // ---------------------------------------------------------------------
  // _annualize_duration_series
  // ---------------------------------------------------------------------

  function AsciiUpper(s: string): (r: string)
    ensures |r| == |s|
  {
    if s == [] then []
    else [if 'a' <= s[0] <= 'z' then (s[0] as int - 32) as char else s[0]] + AsciiUpper(s[1..])
  }

  /** A four-quarter fact. A missing `qtrs` is not four. */
  predicate IsQ4(x: Fact) {
    x.qtrs == Some(4)
  }

  /** The fiscal period reads `FY` in any letter case; a missing period never does. */
  predicate IsFY(x: Fact) {
    x.fp.Some? && AsciiUpper(x.fp.value) == "FY"
  }

  /** The length of the period in days, when both dates are present. */
  function SpanDays(x: Fact): Option<int> {
    if x.start.Some? && x.end.Some? then Some(x.end.value - x.start.value) else None
  }

  /** The period is about a year long (330 to 400 days). */
  predicate AboutOneYear(x: Fact) {
    SpanDays(x).Some? && 330 <= SpanDays(x).value <= 400
  }

  predicate AnyStart(rows: seq<Fact>) {
    exists i :: 0 <= i < |rows| && rows[i].start.Some?
  }

  /** The rows the first two rules keep: the four-quarter rows if any, else the FY rows if any, else all. */
  function RuleStage(d: seq<Fact>): seq<Fact> {
    var q4 := Filter(d, IsQ4);
    if q4 != [] then q4
    else
      var fyRows := Filter(d, IsFY);
      if fyRows != [] then fyRows else d
  }

  /** `_annualize_duration_series`. */
  function AnnualizeDurationSeries(d: seq<Fact>): seq<Fact> {
    if d == [] then d
    else
      var out := RuleStage(d);
      if AnyStart(out) then Filter(out, AboutOneYear) else out
  }

  /**
   * At most one of the two rules applies: when some row covers four
   * quarters only such rows remain; otherwise, when some row is an FY
   * row, only FY rows remain; otherwise every row remains.
   */
  lemma RuleStageSpec(d: seq<Fact>)
    ensures (exists x :: x in d && IsQ4(x)) ==> forall x :: x in RuleStage(d) <==> x in d && IsQ4(x)
    ensures (forall x :: x in d ==> !IsQ4(x)) && (exists x :: x in d && IsFY(x)) ==>
      forall x :: x in RuleStage(d) <==> x in d && IsFY(x)
    ensures (forall x :: x in d ==> !IsQ4(x) && !IsFY(x)) ==> RuleStage(d) == d
    ensures multiset(RuleStage(d)) <= multiset(d)
  {
    var q4 := Filter(d, IsQ4);
    var fyRows := Filter(d, IsFY);
    FilterSpec(d, IsQ4);
    FilterSpec(d, IsFY);
    if exists x :: x in d && IsQ4(x) {
      var x :| x in d && IsQ4(x);
      assert x in q4;
    } else if exists x :: x in d && IsFY(x) {
      var x :| x in d && IsFY(x);
      assert x in fyRows;
      FilterNone(d, IsQ4);
    } else {
      FilterNone(d, IsQ4);
      FilterNone(d, IsFY);
    }
    assert forall x :: multiset(q4)[x] <= multiset(d)[x];
    assert forall x :: multiset(fyRows)[x] <= multiset(d)[x];
  }

  /**
   * The span filter runs only when a remaining row has a start date, and
   * then keeps exactly the remaining rows spanning 330 to 400 days, so
   * rows without a start go; without start dates it is skipped. The
   * output is drawn from the input.
   */
  lemma AnnualizeSpec(d: seq<Fact>)
    ensures multiset(AnnualizeDurationSeries(d)) <= multiset(d)
    ensures AnyStart(RuleStage(d)) ==>
      forall x :: x in AnnualizeDurationSeries(d) <==> x in RuleStage(d) && AboutOneYear(x)
    ensures AnyStart(RuleStage(d)) ==> forall x :: x in AnnualizeDurationSeries(d) ==>
      x.start.Some? && x.end.Some? && 330 <= x.end.value - x.start.value <= 400
    ensures !AnyStart(RuleStage(d)) ==> AnnualizeDurationSeries(d) == RuleStage(d)
  {
    var stage := RuleStage(d);
    var out := AnnualizeDurationSeries(d);
    assert multiset(stage) <= multiset(d) by {
      RuleStageSpec(d);
    }
    if d == [] {
      assert stage == [] && out == [];
    } else if AnyStart(stage) {
      assert out == Filter(stage, AboutOneYear);
      FilterSpec(stage, AboutOneYear);
      assert multiset(out) <= multiset(stage) by {
        assert forall x :: multiset(out)[x] <= multiset(stage)[x];
      }
    }
  }

  // ---------------------------------------------------------------------
  // _select_best_row_per_fy
  // ---------------------------------------------------------------------

  /** The row has a fiscal year, an end date and a value (`dropna` on those three). */
  predicate Complete(x: Fact) {
    x.fy.Some? && x.end.Some? && x.value.Some?
  }

  function EndOf(x: Fact): Date {
    x.end.GetOr(0)
  }

  /** How far the calendar year of the end date is from the fiscal year. */
  function YearGap(x: Fact): nat {
    var g := YearOf(EndOf(x)) - x.fy.GetOr(0);
    if g < 0 then -g else g
  }

  /** The period length in days, or -1 when there is no start date. */
  function DurDays(x: Fact): int {
    if x.start.Some? then EndOf(x) - x.start.value else -1
  }

  /** The ranking key: fy, gap ascending; four quarters first; duration, filing date, end descending. */
  function BestKey(x: Fact): seq<Atom> {
    [Num(x.fy.GetOr(0)), Num(YearGap(x)), Num(if IsQ4(x) then 0 else 1), Num(-DurDays(x)), OptNumDesc(x.filed), Num(-EndOf(x))]
  }

  function FyKey(x: Fact): Option<int> {
    x.fy
  }

  /** `_select_best_row_per_fy`: the first row of each fiscal year under the ranking. */
  function SelectBestRowPerFy(rows: seq<Fact>): seq<Fact> {
    if rows == [] then rows
    else
      var d := Filter(rows, Complete);
      if d == [] then d
      else KeepFirst(SortBy(d, BestKey), FyKey)
  }

  /** `a` was filed after `b`; a missing filing date is never preferred. */
  predicate FiledLater(a: Option<Date>, b: Option<Date>) {
    a.Some? && (b.None? || a.value > b.value)
  }

  /**
   * Row `x` is at least as good an annual observation as `y`: its end year
   * is closer to the fiscal year; then four quarters beat anything else;
   * then the longer period wins; then the later filing; then the later end.
   */
  predicate RanksNoWorse(x: Fact, y: Fact) {
    if YearGap(x) != YearGap(y) then YearGap(x) < YearGap(y)
    else if IsQ4(x) != IsQ4(y) then IsQ4(x)
    else if DurDays(x) != DurDays(y) then DurDays(x) > DurDays(y)
    else if x.filed != y.filed then FiledLater(x.filed, y.filed)
    else EndOf(x) >= EndOf(y)
  }

  lemma FiledAtom(a: Option<Date>, b: Option<Date>)
    ensures OptNumDesc(a) == OptNumDesc(b) <==> a == b
    ensures AtomLt(OptNumDesc(a), OptNumDesc(b)) <==> FiledLater(a, b)
  {
  }

  // The ranking key compared from its last atoms forwards, one atom per lemma.

  lemma BestKeyFromEnd(x: Fact, y: Fact)
    ensures KeyLe(BestKey(x)[5..], BestKey(y)[5..]) <==> EndOf(x) >= EndOf(y)
  {
    var kx, ky := BestKey(x), BestKey(y);
    KeyLeAt(kx, ky, 5);
    assert kx[6..] == [] && ky[6..] == [];
  }

  lemma BestKeyFromFiled(x: Fact, y: Fact)
    ensures KeyLe(BestKey(x)[4..], BestKey(y)[4..]) <==>
      if x.filed != y.filed then FiledLater(x.filed, y.filed) else EndOf(x) >= EndOf(y)
  {
    KeyLeAt(BestKey(x), BestKey(y), 4);
    BestKeyFromEnd(x, y);
    FiledAtom(x.filed, y.filed);
  }

  lemma BestKeyFromDuration(x: Fact, y: Fact)
    ensures KeyLe(BestKey(x)[3..], BestKey(y)[3..]) <==>
      if DurDays(x) != DurDays(y) then DurDays(x) > DurDays(y)
      else if x.filed != y.filed then FiledLater(x.filed, y.filed)
      else EndOf(x) >= EndOf(y)
  {
    KeyLeAt(BestKey(x), BestKey(y), 3);
    BestKeyFromFiled(x, y);
  }

  lemma BestKeyFromQ4(x: Fact, y: Fact)
    ensures KeyLe(BestKey(x)[2..], BestKey(y)[2..]) <==>
      if IsQ4(x) != IsQ4(y) then IsQ4(x)
      else if DurDays(x) != DurDays(y) then DurDays(x) > DurDays(y)
      else if x.filed != y.filed then FiledLater(x.filed, y.filed)
      else EndOf(x) >= EndOf(y)
  {
    KeyLeAt(BestKey(x), BestKey(y), 2);
    BestKeyFromDuration(x, y);
  }

  /** Within one fiscal year, the key order is the ranking. */
  lemma BestKeyRanks(x: Fact, y: Fact)
    requires x.fy == y.fy
    ensures KeyLe(BestKey(x), BestKey(y)) <==> RanksNoWorse(x, y)
  {
    var kx, ky := BestKey(x), BestKey(y);
    KeyLeAt(kx, ky, 0);
    KeyLeAt(kx, ky, 1);
    BestKeyFromQ4(x, y);
    assert kx[0..] == kx && ky[0..] == ky;
  }

  /**
   * The selected rows are complete rows of the input, ordered by the
   * ranking key, and no fiscal year occurs twice.
   */
  lemma SelectBestShape(rows: seq<Fact>)
    ensures var out := SelectBestRowPerFy(rows);
      && multiset(out) <= multiset(rows)
      && (forall x :: x in out ==> x in rows && Complete(x))
      && UniqueKeys(out, FyKey)
      && SortedBy(out, BestKey)
  {
    if rows != [] {
      var d := Filter(rows, Complete);
      FilterMembers(rows, Complete);
      FilterSub(rows, Complete);
      if d != [] {
        var sorted := SortBy(d, BestKey);
        var out := KeepFirst(sorted, FyKey);
        KeepFirstUnique(sorted, FyKey);
        KeepFirstSorted(sorted, FyKey, BestKey);
        assert multiset(out) <= multiset(d);
        forall x | x in out ensures x in rows && Complete(x) {
          assert x in multiset(out);
          assert x in multiset(d);
        }
      }
    }
  }

  /** Every fiscal year of a complete input row has its selected row. */
  lemma SelectBestCovers(rows: seq<Fact>, y: Fact)
    requires y in rows && Complete(y)
    ensures exists x :: x in SelectBestRowPerFy(rows) && x.fy == y.fy
  {
    var d := Filter(rows, Complete);
    FilterSpec(rows, Complete);
    assert y in d;
    var sorted := SortBy(d, BestKey);
    assert y in multiset(sorted);
    var i :| 0 <= i < |sorted| && sorted[i] == y;
    KeepFirstCovers(sorted, FyKey, i);
  }

  /** The selected row of a fiscal year ranks no worse than any complete input row of that year. */
  lemma SelectBestIsBest(rows: seq<Fact>, x: Fact, y: Fact)
    requires x in SelectBestRowPerFy(rows)
    requires y in rows && Complete(y) && y.fy == x.fy
    ensures RanksNoWorse(x, y)
  {
    var d := Filter(rows, Complete);
    FilterSpec(rows, Complete);
    assert y in d;
    var sorted := SortBy(d, BestKey);
    assert SelectBestRowPerFy(rows) == KeepFirst(sorted, FyKey);
    assert y in multiset(sorted);
    KeepFirstIsMinimal(sorted, FyKey, BestKey, x, y);
    BestKeyRanks(x, y);
  }

  // ---------------------------------------------------------------------
  // _extract_series_for_concept
  // ---------------------------------------------------------------------

  /** The rows of one concept with a value and an end date, then with a fiscal year too. */
  function ConceptRows(base: seq<Fact>, concept: string): seq<Fact> {
    var d := Filter(base, (x: Fact) => x.concept == concept && x.value.Some? && x.end.Some?);
    if d == [] then d else Filter(d, Complete)
  }

  /** The rows that compete for each fiscal year: annualized only for a duration metric. */
  function Candidates(base: seq<Fact>, spec: ConceptSpec, concept: string): seq<Fact> {
    var d := ConceptRows(base, concept);
    if d != [] && spec.periodType == Some("duration") then AnnualizeDurationSeries(d) else d
  }

  /**
   * `_extract_series_for_concept`: the best row of each fiscal year among
   * the competitors (an empty selection when a filtering step leaves
   * nothing).
   */
  function ExtractSeriesForConcept(base: seq<Fact>, spec: ConceptSpec, concept: string): seq<Fact> {
    SelectBestRowPerFy(Candidates(base, spec, concept))
  }

  /**
   * The competitors are complete base rows of the concept; for a metric
   * that is not a duration they are all of them, and a duration metric
   * keeps only annual-like ones. The series is the best row of each of
   * their fiscal years.
   */
  lemma ExtractSeriesSpec(base: seq<Fact>, spec: ConceptSpec, concept: string)
    ensures forall x :: x in Candidates(base, spec, concept) ==> x in base && x.concept == concept && Complete(x)
    ensures spec.periodType != Some("duration") ==>
      forall x :: x in Candidates(base, spec, concept) <==> x in base && x.concept == concept && Complete(x)
    ensures spec.periodType == Some("duration") ==>
      Candidates(base, spec, concept) == AnnualizeDurationSeries(ConceptRows(base, concept))
  {
    var d0 := Filter(base, (x: Fact) => x.concept == concept && x.value.Some? && x.end.Some?);
    FilterSpec(base, (x: Fact) => x.concept == concept && x.value.Some? && x.end.Some?);
    FilterSpec(d0, Complete);
    var d := ConceptRows(base, concept);
    var cands := Candidates(base, spec, concept);
    if d != [] && spec.periodType == Some("duration") {
      AnnualizeSpec(d);
      forall x | x in cands ensures x in d {
        assert x in multiset(cands);
      }
    }
  }

  /** Each series row is a complete base row of the concept, and its fiscal years are distinct. */
  lemma SeriesShape(base: seq<Fact>, spec: ConceptSpec, concept: string)
    ensures var d := ExtractSeriesForConcept(base, spec, concept);
      && UniqueKeys(d, FyKey)
      && forall x :: x in d ==> x in base && x.concept == concept && Complete(x)
  {
    ExtractSeriesSpec(base, spec, concept);
    SelectBestShape(Candidates(base, spec, concept));
  }

  // ---------------------------------------------------------------------
  // _choose_best_concept
  // ---------------------------------------------------------------------

  /** The freshness score of a series: its latest fiscal year, its number of fiscal years, its latest end. */
  datatype Score = Score(maxFy: int, fyCount: nat, maxEnd: Date)

  /** Tuple comparison `a > b`. */
  predicate ScoreGt(a: Score, b: Score) {
    a.maxFy > b.maxFy || (a.maxFy == b.maxFy && (a.fyCount > b.fyCount || (a.fyCount == b.fyCount && a.maxEnd > b.maxEnd)))
  }

  /** `>` on scores is a strict total order. */
  lemma ScoreGtOrder(a: Score, b: Score, c: Score)
    ensures !ScoreGt(a, a)
    ensures ScoreGt(a, b) && ScoreGt(b, c) ==> ScoreGt(a, c)
    ensures a == b || ScoreGt(a, b) || ScoreGt(b, a)
  {
  }

  /** The largest element; zero for no elements. */
  function MaxOf(xs: seq<int>): int
    decreases |xs|
  {
    if xs == [] then 0
    else if |xs| == 1 then xs[0]
    else
      var m := MaxOf(xs[1..]);
      if xs[0] > m then xs[0] else m
  }

  lemma {:induction false} MaxOfSpec(xs: seq<int>)
    requires xs != []
    ensures MaxOf(xs) in xs && forall x :: x in xs ==> x <= MaxOf(xs)
    decreases |xs|
  {
    if |xs| > 1 {
      MaxOfSpec(xs[1..]);
      assert xs == [xs[0]] + xs[1..];
    }
  }

  function FyOf(x: Fact): int {
    x.fy.GetOr(0)
  }

  /** The score of a series; the count is the number of distinct fiscal years. */
  function ScoreOf(d: seq<Fact>): Score {
    Score(MaxOf(MapSeq(d, FyOf)), |KeepFirst(d, FyKey)|, MaxOf(MapSeq(d, EndOf)))
  }

  /** The score's parts are the latest fiscal year and the latest end of the series. */
  lemma ScoreOfSpec(d: seq<Fact>)
    requires d != []
    ensures exists x :: x in d && ScoreOf(d).maxFy == FyOf(x)
    ensures forall x :: x in d ==> FyOf(x) <= ScoreOf(d).maxFy
    ensures exists x :: x in d && ScoreOf(d).maxEnd == EndOf(x)
    ensures forall x :: x in d ==> EndOf(x) <= ScoreOf(d).maxEnd
  {
    var fys := MapSeq(d, FyOf);
    var ends := MapSeq(d, EndOf);
    MaxOfSpec(fys);
    MaxOfSpec(ends);
    var i :| 0 <= i < |fys| && fys[i] == MaxOf(fys);
    assert d[i] in d;
    var j :| 0 <= j < |ends| && ends[j] == MaxOf(ends);
    assert d[j] in d;
    forall x | x in d ensures FyOf(x) <= MaxOf(fys) && EndOf(x) <= MaxOf(ends) {
      var k :| 0 <= k < |d| && d[k] == x;
      assert fys[k] in fys && ends[k] in ends;
    }
  }

  /**
   * The score's year count is `nunique` of the fiscal years: the number of
   * distinct `fy` cells (every row of a series has one, see SeriesShape).
   */
  lemma ScoreCountDistinct(d: seq<Fact>)
    ensures ScoreOf(d).fyCount == |set x | x in d :: x.fy|
  {
    KeepFirstCount(d, FyKey);
    assert Keys(d, FyKey) == set x | x in d :: x.fy;
  }

  /** The state of the candidate loop: the concept kept so far, its series and its score. */
  datatype Choice = Choice(concept: Option<string>, rows: seq<Fact>, score: Option<Score>)

  /** The series each candidate concept yields on a prefiltered base. */
  function SeriesFn(base: seq<Fact>, spec: ConceptSpec): string -> seq<Fact> {
    (c: string) => ExtractSeriesForConcept(base, spec, c)
  }

  /** The candidate loop over `cands`: a non-empty series replaces the kept one only with a strictly greater score. */
  function ChooseOver(series: string -> seq<Fact>, score: seq<Fact> -> Score, cands: seq<string>): (ch: Choice)
    ensures ch.concept.None? <==> ch.score.None?
    ensures ch.concept.None? ==> ch.rows == []
    ensures ch.concept.Some? ==>
      && ch.concept.value in cands
      && ch.rows == series(ch.concept.value) && ch.rows != []
      && ch.score == Some(score(ch.rows))
  {
    if cands == [] then Choice(None, [], None)
    else
      var prev := ChooseOver(series, score, cands[..|cands| - 1]);
      var c := cands[|cands| - 1];
      var d := series(c);
      if d == [] then prev
      else
        var sc := score(d);
        if prev.score.None? || ScoreGt(sc, prev.score.value) then Choice(Some(c), d, Some(sc))
        else prev
  }

  /** No concept is chosen exactly when no candidate yields a row. */
  lemma {:induction false} ChooseOverNone(series: string -> seq<Fact>, score: seq<Fact> -> Score, cands: seq<string>)
    ensures ChooseOver(series, score, cands).concept.None? <==> forall j :: 0 <= j < |cands| ==> series(cands[j]) == []
    decreases |cands|
  {
    if cands != [] {
      var init := cands[..|cands| - 1];
      ChooseOverNone(series, score, init);
      assert forall j :: 0 <= j < |init| ==> init[j] == cands[j];
    }
  }

  /** The chosen candidate's position: earlier non-empty candidates score strictly lower, later ones no higher. */
  ghost predicate ArgmaxAt(series: string -> seq<Fact>, score: seq<Fact> -> Score, cands: seq<string>, k: int, best: Score) {
    && 0 <= k < |cands|
    && (forall j :: 0 <= j < k && series(cands[j]) != [] ==> ScoreGt(best, score(series(cands[j]))))
    && (forall j :: k < j < |cands| && series(cands[j]) != [] ==> !ScoreGt(score(series(cands[j])), best))
  }

  /**
   * The chosen concept sits at a position `k` of the candidate list: every
   * earlier non-empty candidate scores strictly lower and no later one
   * scores higher, so the greatest score wins and the earliest candidate
   * wins a tie.
   */
  lemma {:induction false} ChooseOverArgmax(series: string -> seq<Fact>, score: seq<Fact> -> Score, cands: seq<string>)
    returns (k: int)
    requires ChooseOver(series, score, cands).concept.Some?
    ensures var ch := ChooseOver(series, score, cands);
      0 <= k < |cands| && cands[k] == ch.concept.value && ArgmaxAt(series, score, cands, k, ch.score.value)
    decreases |cands|
  {
    var ch := ChooseOver(series, score, cands);
    var init := cands[..|cands| - 1];
    var last := |cands| - 1;
    var prev := ChooseOver(series, score, init);
    var d := series(cands[last]);
    assert forall j :: 0 <= j < |init| ==> init[j] == cands[j];
    if prev.concept.None? {
      ChooseOverNone(series, score, init);
      assert ch == Choice(Some(cands[last]), d, Some(score(d)));
      k := last;
    } else if d == [] || !ScoreGt(score(d), prev.score.value) {
      assert ch == prev;
      k := ChooseOverArgmax(series, score, init);
    } else {
      var best := score(d);
      assert ch == Choice(Some(cands[last]), d, Some(best));
      var k' := ChooseOverArgmax(series, score, init);
      forall j | 0 <= j < last && series(cands[j]) != []
        ensures ScoreGt(best, score(series(cands[j])))
      {
        var sj := score(series(cands[j]));
        ScoreGtOrder(best, prev.score.value, sj);
        ScoreGtOrder(sj, prev.score.value, best);
      }
      k := last;
    }
  }

  /** One step of the candidate loop, as the method takes it. */
  lemma ChooseOverStep(series: string -> seq<Fact>, score: seq<Fact> -> Score, cands: seq<string>, i: int)
    requires 0 <= i < |cands|
    ensures var prev := ChooseOver(series, score, cands[..i]);
      var d := series(cands[i]);
      ChooseOver(series, score, cands[..i + 1]) ==
        if d != [] && (prev.score.None? || ScoreGt(score(d), prev.score.value))
        then Choice(Some(cands[i]), d, Some(score(d)))
        else prev
  {
    assert cands[..i + 1][..i] == cands[..i];
  }

  /**
   * The choice names no concept exactly when every candidate's series is
   * empty, and then has no rows; otherwise its rows are the chosen
   * concept's non-empty series.
   */
  lemma BestConceptShape(base: seq<Fact>, spec: ConceptSpec)
    ensures var ch := ChooseOver(SeriesFn(base, spec), ScoreOf, spec.candidates);
      && (ch.concept.None? <==>
            forall j :: 0 <= j < |spec.candidates| ==> ExtractSeriesForConcept(base, spec, spec.candidates[j]) == [])
      && (ch.concept.None? ==> ch.rows == [])
      && (ch.concept.Some? ==> ch.rows == ExtractSeriesForConcept(base, spec, ch.concept.value) && ch.rows != [])
  {
    ChooseOverNone(SeriesFn(base, spec), ScoreOf, spec.candidates);
  }

  /**
   * `_choose_best_concept`: the candidate loop. The result is the fold
   * over the candidates; no concept and an empty series when no candidate
   * yields a row.
   */
  method ChooseBestConcept(base: seq<Fact>, spec: ConceptSpec) returns (bestConcept: Option<string>, bestRows: seq<Fact>)
    ensures bestConcept == ChooseOver(SeriesFn(base, spec), ScoreOf, spec.candidates).concept
    ensures bestRows == ChooseOver(SeriesFn(base, spec), ScoreOf, spec.candidates).rows
  {
    var cands := spec.candidates;
    ghost var series := SeriesFn(base, spec);
    bestConcept := None;
    bestRows := [];
    var bestScore: Option<Score> := None;
    var i := 0;
    while i < |cands|
      invariant 0 <= i <= |cands|
      invariant Choice(bestConcept, bestRows, bestScore) == ChooseOver(series, ScoreOf, cands[..i])
    {
      ChooseOverStep(series, ScoreOf, cands, i);
      var concept := cands[i];
      var d := ExtractSeriesForConcept(base, spec, concept);
      assert d == series(concept);
      if d != [] {
        var score := ScoreOf(d);
        if bestScore.None? || ScoreGt(score, bestScore.value) {
          bestScore := Some(score);
          bestConcept := Some(concept);
          bestRows := d;
        }
      }
      i := i + 1;
    }
    assert cands[..i] == cands;

  }

  // ---------------------------------------------------------------------
  // extract_annual_series
  // ---------------------------------------------------------------------

  /** One row of a tidy annual series. */
  datatype AnnualRow = AnnualRow(fy: int, fiscalYearEnd: Date, value: real, conceptUsed: string, name: string)

  function FyOrder(x: Fact): seq<Atom> {
    [OptNum(x.fy)]
  }

  function ToAnnualRow(x: Fact, concept: string, name: string): AnnualRow {
    AnnualRow(FyOf(x), EndOf(x), x.value.GetOr(0.0), concept, name)
  }

  /** Sort by fiscal year, keep the last `lastN`, label each with the concept and metric name. */
  function AnnualRows(d: seq<Fact>, concept: string, name: string, lastN: int): seq<AnnualRow> {
    MapSeq(Tail(SortBy(d, FyOrder), lastN), (x: Fact) => ToAnnualRow(x, concept, name))
  }

  /** Under the fiscal-year order, distinct complete rows have strictly ascending fiscal years. */
  lemma FyAscending(s: seq<Fact>)
    requires SortedBy(s, FyOrder) && UniqueKeys(s, FyKey)
    requires forall x :: x in s ==> Complete(x)
    ensures forall i, j :: 0 <= i < j < |s| ==> FyOf(s[i]) < FyOf(s[j])
  {
    forall i, j | 0 <= i < j < |s| ensures FyOf(s[i]) < FyOf(s[j]) {
      assert s[i] in s && s[j] in s;
      assert KeyLe(FyOrder(s[i]), FyOrder(s[j]));
      KeyLeCons(Num(FyOf(s[i])), [], Num(FyOf(s[j])), []);
    }
  }

  /** The labelled rows of a suffix of a series in ascending fiscal year. */
  lemma LabelledSuffix(s: seq<Fact>, t: seq<Fact>, concept: string, name: string, out: seq<AnnualRow>)
    requires |t| <= |s| && t == s[|s| - |t|..]
    requires out == MapSeq(t, (x: Fact) => ToAnnualRow(x, concept, name))
    requires forall i, j :: 0 <= i < j < |s| ==> FyOf(s[i]) < FyOf(s[j])
    ensures forall i, j :: 0 <= i < j < |out| ==> out[i].fy < out[j].fy
    ensures forall r :: r in out ==> r.conceptUsed == concept && r.name == name
    ensures forall r :: r in out ==> exists x :: x in s && r == ToAnnualRow(x, concept, name)
  {
    var off, f := |s| - |t|, (x: Fact) => ToAnnualRow(x, concept, name);
    forall i, j | 0 <= i < j < |out| ensures out[i].fy < out[j].fy {
      MapSuffixAt(s, t, f, i);
      MapSuffixAt(s, t, f, j);
    }
    forall r | r in out ensures r.conceptUsed == concept && r.name == name && exists x :: x in s && r == ToAnnualRow(x, concept, name) {
      var i :| 0 <= i < |out| && out[i] == r;
      MapSuffixAt(s, t, f, i);
      assert s[off + i] in s;
    }
  }

  /** A row of the series whose labelled form is not kept is older than every kept row. */
  lemma SuffixOlder(s: seq<Fact>, t: seq<Fact>, concept: string, name: string, out: seq<AnnualRow>, x: Fact, r: AnnualRow)
    requires |t| <= |s| && t == s[|s| - |t|..]
    requires out == MapSeq(t, (x: Fact) => ToAnnualRow(x, concept, name))
    requires forall i, j :: 0 <= i < j < |s| ==> FyOf(s[i]) < FyOf(s[j])
    requires x in s && ToAnnualRow(x, concept, name) !in out && r in out
    ensures FyOf(x) < r.fy
  {
    var off := |s| - |t|;
    var p :| 0 <= p < |s| && s[p] == x;
    var i :| 0 <= i < |out| && out[i] == r;
    if p >= off {
      SuffixLabelled(s, t, concept, name, out, p);
    }
    MapSuffixAt(s, t, (x: Fact) => ToAnnualRow(x, concept, name), i);
  }

  /** Every row of the kept suffix appears, labelled, in the output. */
  lemma SuffixLabelled(s: seq<Fact>, t: seq<Fact>, concept: string, name: string, out: seq<AnnualRow>, k: int)
    requires |t| <= |s| && t == s[|s| - |t|..]
    requires out == MapSeq(t, (x: Fact) => ToAnnualRow(x, concept, name))
    requires |s| - |t| <= k < |s|
    ensures ToAnnualRow(s[k], concept, name) in out
  {
    MapSuffixAt(s, t, (x: Fact) => ToAnnualRow(x, concept, name), k - (|s| - |t|));
  }

  /**
   * The kept rows of a series with distinct fiscal years: at most `lastN`
   * of them, in strictly ascending fiscal year, each labelled with the
   * concept and the metric name, each taken from the series, and every
   * series row left out is older than every row kept.
   */
  lemma AnnualRowsSpec(d: seq<Fact>, concept: string, name: string, lastN: int, out: seq<AnnualRow>)
    requires out == AnnualRows(d, concept, name, lastN)
    requires UniqueKeys(d, FyKey) && forall x :: x in d ==> Complete(x)
    ensures lastN >= 0 ==> |out| == if lastN <= |d| then lastN else |d|
    ensures forall i, j :: 0 <= i < j < |out| ==> out[i].fy < out[j].fy
    ensures forall r :: r in out ==> r.conceptUsed == concept && r.name == name
    ensures forall r :: r in out ==> exists x :: x in d && r == ToAnnualRow(x, concept, name)
    ensures forall x, r :: x in d && ToAnnualRow(x, concept, name) !in out && r in out ==> FyOf(x) < r.fy
  {
    var s := SortBy(d, FyOrder);
    UniqueKeysOfPermutation(d, s, FyKey);
    assert forall x :: x in s <==> x in d by {
      assert forall x :: x in s <==> x in multiset(s);
      assert forall x :: x in d <==> x in multiset(d);
    }
    FyAscending(s);
    var t := Tail(s, lastN);
    LabelledSuffix(s, t, concept, name, out);
    forall x, r | x in d && ToAnnualRow(x, concept, name) !in out && r in out
      ensures FyOf(x) < r.fy
    {
      SuffixOlder(s, t, concept, name, out, x, r);
    }
  }

  /** The annual series of a metric: empty when no candidate yields a row. */
  function AnnualSeries(rows: seq<Fact>, spec: ConceptSpec, lastN: int): seq<AnnualRow> {
    var base := PrepareBase(rows, spec);
    var ch := ChooseOver(SeriesFn(base, spec), ScoreOf, spec.candidates);
    if ch.concept.None? || ch.rows == [] then [] else AnnualRows(ch.rows, ch.concept.value, spec.name, lastN)
  }

  /**
   * `tail(last_n)` of the ascending series: `min(lastN, |d|)` rows, and
   * every row of `d` left out is older than every row kept.
   */
  ghost predicate MostRecent(out: seq<AnnualRow>, d: seq<Fact>, concept: string, name: string, lastN: int) {
    && (lastN >= 0 ==> |out| == if lastN <= |d| then lastN else |d|)
    && forall x, r :: x in d && ToAnnualRow(x, concept, name) !in out && r in out ==> FyOf(x) < r.fy
  }

  /** Every row of a metric's annual series names the metric and one of its candidates. */
  lemma AnnualSeriesLabels(rows: seq<Fact>, spec: ConceptSpec, lastN: int)
    ensures forall r :: r in AnnualSeries(rows, spec, lastN) ==> r.conceptUsed in spec.candidates && r.name == spec.name
  {
    var base := PrepareBase(rows, spec);
    var ch := ChooseOver(SeriesFn(base, spec), ScoreOf, spec.candidates);
    if ch.concept.Some? && ch.rows != [] {
      var out := AnnualSeries(rows, spec, lastN);
      var t := Tail(SortBy(ch.rows, FyOrder), lastN);
      assert out == MapSeq(t, (x: Fact) => ToAnnualRow(x, ch.concept.value, spec.name));
      forall r | r in out ensures r.conceptUsed == ch.concept.value && r.name == spec.name {
        var i :| 0 <= i < |out| && out[i] == r;
      }
    }
  }

  /** Every row of `out` is a row of `d` labelled with `concept` and `name`. */
  ghost predicate LabelledFrom(out: seq<AnnualRow>, d: seq<Fact>, concept: string, name: string) {
    forall r :: r in out ==>
      r.conceptUsed == concept && r.name == name && exists x :: x in d && r == ToAnnualRow(x, concept, name)
  }

  /** The annual rows of the chosen candidate, for any series whose rows are complete with distinct fiscal years. */
  lemma ChosenAnnualRows(series: string -> seq<Fact>, cands: seq<string>, name: string, lastN: int, out: seq<AnnualRow>)
    requires forall c :: UniqueKeys(series(c), FyKey) && forall x :: x in series(c) ==> Complete(x)
    requires var ch := ChooseOver(series, ScoreOf, cands);
      out == if ch.concept.None? || ch.rows == [] then [] else AnnualRows(ch.rows, ch.concept.value, name, lastN)
    ensures (forall j :: 0 <= j < |cands| ==> series(cands[j]) == []) ==> out == []
    ensures lastN > 0 && out == [] ==> forall j :: 0 <= j < |cands| ==> series(cands[j]) == []
    ensures lastN >= 0 ==> |out| <= lastN
    ensures forall i, j :: 0 <= i < j < |out| ==> out[i].fy < out[j].fy
    ensures out != [] ==> exists k ::
      && 0 <= k < |cands|
      && ArgmaxAt(series, ScoreOf, cands, k, ScoreOf(series(cands[k])))
      && LabelledFrom(out, series(cands[k]), cands[k], name)
      && MostRecent(out, series(cands[k]), cands[k], name, lastN)
  {
    var ch := ChooseOver(series, ScoreOf, cands);
    ChooseOverNone(series, ScoreOf, cands);
    if ch.concept.Some? {
      var k := ChooseOverArgmax(series, ScoreOf, cands);
      assert ch.rows == series(cands[k]);
      assert ArgmaxAt(series, ScoreOf, cands, k, ScoreOf(series(cands[k])));
      AnnualRowsOf(series(cands[k]), cands[k], name, lastN, out);
    }
  }

  /** The annual rows of one series, in the terms of ChosenAnnualRows. */
  lemma AnnualRowsOf(d: seq<Fact>, concept: string, name: string, lastN: int, out: seq<AnnualRow>)
    requires out == AnnualRows(d, concept, name, lastN)
    requires UniqueKeys(d, FyKey) && forall x :: x in d ==> Complete(x)
    ensures lastN >= 0 ==> |out| <= lastN
    ensures forall i, j :: 0 <= i < j < |out| ==> out[i].fy < out[j].fy
    ensures LabelledFrom(out, d, concept, name) && MostRecent(out, d, concept, name, lastN)
  {
    AnnualRowsSpec(d, concept, name, lastN, out);
  }

  /**
   * The annual series of a metric: empty when no candidate yields a row;
   * otherwise at most `lastN` rows in strictly ascending fiscal year, all
   * from the series of one candidate `k` that has the greatest score, the
   * earliest one on a tie, labelled with that candidate and the metric's
   * name, and exactly the `min(lastN, count)` most recent years of that
   * series.
   */
  lemma AnnualSeriesSpec(rows: seq<Fact>, spec: ConceptSpec, lastN: int, out: seq<AnnualRow>)
    requires out == AnnualSeries(rows, spec, lastN)
    ensures var base := PrepareBase(rows, spec);
      (forall j :: 0 <= j < |spec.candidates| ==> ExtractSeriesForConcept(base, spec, spec.candidates[j]) == []) ==> out == []
    ensures var base := PrepareBase(rows, spec);
      lastN > 0 && out == [] ==> forall j :: 0 <= j < |spec.candidates| ==> ExtractSeriesForConcept(base, spec, spec.candidates[j]) == []
    ensures lastN >= 0 ==> |out| <= lastN
    ensures forall i, j :: 0 <= i < j < |out| ==> out[i].fy < out[j].fy
    ensures var base := PrepareBase(rows, spec);
      out != [] ==> exists k ::
        && 0 <= k < |spec.candidates|
        && ArgmaxAt(SeriesFn(base, spec), ScoreOf, spec.candidates, k,
                    ScoreOf(ExtractSeriesForConcept(base, spec, spec.candidates[k])))
        && LabelledFrom(out, ExtractSeriesForConcept(base, spec, spec.candidates[k]), spec.candidates[k], spec.name)
        && MostRecent(out, ExtractSeriesForConcept(base, spec, spec.candidates[k]), spec.candidates[k], spec.name, lastN)
  {
    var base := PrepareBase(rows, spec);
    var series := SeriesFn(base, spec);
    forall c ensures UniqueKeys(series(c), FyKey) && forall x :: x in series(c) ==> Complete(x) {
      SeriesShape(base, spec, c);
    }
    ChosenAnnualRows(series, spec.candidates, spec.name, lastN, out);
  }

  /** `extract_annual_series`. */
  method ExtractAnnualSeries(rows: seq<Fact>, spec: ConceptSpec, lastN: int) returns (out: seq<AnnualRow>)
    ensures out == AnnualSeries(rows, spec, lastN)
  {
    var base := PrepareBase(rows, spec);
    var conceptUsed, d := ChooseBestConcept(base, spec);
    if conceptUsed.None? || d == [] {
      return [];
    }
    out := AnnualRows(d, conceptUsed.value, spec.name, lastN);
  }
}
