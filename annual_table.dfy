/**
 * The annual financials table: the annual series of every metric pivoted
 * into one row per fiscal year, with free cash flow, revenue growth and
 * margins derived from the metric columns, and the display scaling.
 */
module AnnualTable {
  import opened Wrappers
  import opened Ordering
  import opened Seqs
  import opened Facts
  import opened Reconcile

  /** The builder's failure: the input lacks required columns (listed in sorted order). */
  datatype TableError = MissingColumns(columns: seq<string>)

  const RequiredColumns: seq<string> := ["concept", "end", "form", "period_type", "unit", "value"]

  /**
   * One row of the wide table: the fiscal year, its latest period end, the
   * metric columns present for that year, and the derived columns.
   */
  datatype TableRow = TableRow(
    fy: int,
    fiscalYearEnd: Date,
    metrics: map<string, real>,
    fcf: Option<real>,
    revenueYoy: Option<real>,
    grossMargin: Option<real>,
    operatingMargin: Option<real>,
    netMargin: Option<real>,
    fcfMargin: Option<real>)

  /**
   * `Bare` is the table with no rows, no columns and no concept map;
   * `Wide` names the metric columns, holds the rows in ascending fiscal
   * year and the metric-to-concept map.
   */
  datatype Table = Bare | Wide(columns: set<string>, rows: seq<TableRow>, conceptMap: map<string, string>)

  // ---------------------------------------------------------------------
  // The spec loop
  // ---------------------------------------------------------------------

  /** The annual series of each spec over the rows of a frame. */
  function SeriesOf(rows: seq<Fact>, lastN: int): ConceptSpec -> seq<AnnualRow> {
    (spec: ConceptSpec) => AnnualSeries(rows, spec, lastN)
  }

  /** The non-empty series of `specs`, in spec order. */
  function SeriesList(series: ConceptSpec -> seq<AnnualRow>, specs: seq<ConceptSpec>): (all: seq<seq<AnnualRow>>)
    ensures forall k :: 0 <= k < |all| ==> all[k] != []
  {
    if specs == [] then []
    else
      var front := SeriesList(series, specs[..|specs| - 1]);
      var s := series(specs[|specs| - 1]);
      if s == [] then front else front + [s]
  }

  /** The metric-to-concept map: `""` for an empty series, else the concept used; a later spec of the same name wins. */
  function ConceptMapOf(series: ConceptSpec -> seq<AnnualRow>, specs: seq<ConceptSpec>): map<string, string> {
    if specs == [] then map[]
    else
      var m := ConceptMapOf(series, specs[..|specs| - 1]);
      var spec := specs[|specs| - 1];
      var s := series(spec);
      m[spec.name := if s == [] then "" else s[|s| - 1].conceptUsed]
  }

  /** The table built from the series of `specs`. */
  function TableOf(series: ConceptSpec -> seq<AnnualRow>, specs: seq<ConceptSpec>): Table {
    var all := SeriesList(series, specs);
    if all == [] then Bare
    else
      var long := Concat(all);
      Wide(Names(long), TableRows(long), ConceptMapOf(series, specs))
  }

  /** One step of the spec loop, as the method takes it. */
  lemma SpecLoopStep(series: ConceptSpec -> seq<AnnualRow>, specs: seq<ConceptSpec>, i: int)
    requires 0 <= i < |specs|
    ensures var s := series(specs[i]);
      && SeriesList(series, specs[..i + 1]) == SeriesList(series, specs[..i]) + (if s == [] then [] else [s])
      && ConceptMapOf(series, specs[..i + 1]) ==
           ConceptMapOf(series, specs[..i])[specs[i].name := if s == [] then "" else s[|s| - 1].conceptUsed]
  {
    assert specs[..i + 1][..i] == specs[..i];
  }

  /** The loop over the specs: collects the non-empty series and writes the concept map. */
  method CollectSeries(rows: seq<Fact>, specs: seq<ConceptSpec>, lastN: int)
    returns (allSeries: seq<seq<AnnualRow>>, conceptMap: map<string, string>)
    ensures allSeries == SeriesList(SeriesOf(rows, lastN), specs)
    ensures conceptMap == ConceptMapOf(SeriesOf(rows, lastN), specs)
  {
    allSeries := [];
    conceptMap := map[];
    ghost var series := SeriesOf(rows, lastN);
    var i := 0;
    while i < |specs|
      invariant 0 <= i <= |specs|
      invariant allSeries == SeriesList(series, specs[..i])
      invariant conceptMap == ConceptMapOf(series, specs[..i])
    {
      SpecLoopStep(series, specs, i);
      var s := ExtractAnnualSeries(rows, specs[i], lastN);
      assert s == series(specs[i]);
      if s == [] {
        conceptMap := conceptMap[specs[i].name := ""];
      } else {
        conceptMap := conceptMap[specs[i].name := s[|s| - 1].conceptUsed];
        allSeries := allSeries + [s];
      }
      i := i + 1;
    }
    assert specs[..i] == specs;
  }

  /**
   * `build_annual_financials_table`. A frame without columns fails the
   * required-column check; otherwise the result is the table of its rows.
   */
  method BuildAnnualFinancialsTable(df: Frame, specs: Option<seq<ConceptSpec>>, cfg: Option<FinancialsConfig>)
    returns (result: Result<Table, TableError>)
    ensures df.Columnless? ==> result == Failure(MissingColumns(RequiredColumns))
    ensures df.Table? ==> result == Success(TableOf(SeriesOf(df.rows, cfg.GetOr(DefaultFinancialsConfig()).lastNYears),
                                                    specs.GetOr(DefaultMvpSpecs())))
  {
    var c := if cfg.None? then DefaultFinancialsConfig() else cfg.value;
    var ss := if specs.None? then DefaultMvpSpecs() else specs.value;
    if df.Columnless? {
      return Failure(MissingColumns(RequiredColumns));
    }
    var allSeries, conceptMap := CollectSeries(df.rows, ss, c.lastNYears);
    if allSeries == [] {
      return Success(Bare);
    }
    var long := Concat(allSeries);
    result := Success(Wide(Names(long), TableRows(long), conceptMap));
  }

  // ---------------------------------------------------------------------
  // The pivot: one row per fiscal year
  // ---------------------------------------------------------------------

  /** The metric columns: every metric name that has a row. */
  function Names(long: seq<AnnualRow>): (names: set<string>)
    ensures forall n :: n in names <==> exists r :: r in long && r.name == n
  {
    set r | r in long :: r.name
  }

  function RowFy(r: AnnualRow): int {
    r.fy
  }

  function IntKey(f: int): seq<Atom> {
    [Num(f)]
  }

  /** The row index: the distinct fiscal years of the rows, ascending. */
  function FyIndex(long: seq<AnnualRow>): seq<int> {
    KeepFirst(SortBy(MapSeq(long, RowFy), IntKey), Id)
  }

  /** The index is strictly ascending and holds exactly the fiscal years of the rows. */
  lemma FyIndexSpec(long: seq<AnnualRow>, fys: seq<int>)
    requires fys == FyIndex(long)
    ensures forall i, j :: 0 <= i < j < |fys| ==> fys[i] < fys[j]
    ensures forall f :: f in fys <==> exists r :: r in long && r.fy == f
  {
    var all := MapSeq(long, RowFy);
    var sorted := SortBy(all, IntKey);
    KeepFirstSorted(sorted, Id, IntKey);
    KeepFirstUnique(sorted, Id);
    forall i, j | 0 <= i < j < |fys| ensures fys[i] < fys[j] {
      assert KeyLe(IntKey(fys[i]), IntKey(fys[j]));
      KeyLeCons(Num(fys[i]), [], Num(fys[j]), []);
    }
    forall f ensures f in fys <==> exists r :: r in long && r.fy == f {
      if f in fys {
        assert f in multiset(sorted);
        assert f in all;
        var i :| 0 <= i < |all| && all[i] == f;
        assert long[i] in long;
      }
      if r :| r in long && r.fy == f {
        var i :| 0 <= i < |long| && long[i] == r;
        assert all[i] == f;
        assert f in multiset(sorted);
        var p :| 0 <= p < |sorted| && sorted[p] == f;
        KeepFirstCovers(sorted, Id, p);
      }
    }
  }

  /** The metric cells of fiscal year `f`: the value of the last row of each metric in that year. */
  function Metrics(long: seq<AnnualRow>, f: int): map<string, real> {
    if long == [] then map[]
    else
      var m := Metrics(long[..|long| - 1], f);
      var r := long[|long| - 1];
      if r.fy == f then m[r.name := r.value] else m
  }

  /** Row `i` is the last row of metric `n` in fiscal year `f`. */
  ghost predicate LastOf(long: seq<AnnualRow>, f: int, n: string, i: int) {
    && 0 <= i < |long| && long[i].fy == f && long[i].name == n
    && forall j :: i < j < |long| ==> long[j].fy != f || long[j].name != n
  }

  /**
   * A metric has a cell in year `f` exactly when some row of that metric
   * has fiscal year `f`, and the cell holds the value of the last such row.
   */
  lemma {:induction false} MetricsSpec(long: seq<AnnualRow>, f: int)
    ensures forall n :: n in Metrics(long, f) <==> exists i :: 0 <= i < |long| && long[i].fy == f && long[i].name == n
    ensures forall n, i :: LastOf(long, f, n, i) ==> n in Metrics(long, f) && Metrics(long, f)[n] == long[i].value
    decreases |long|
  {
    if long != [] {
      var init := long[..|long| - 1];
      var last := |long| - 1;
      MetricsSpec(init, f);
      assert forall i :: 0 <= i < |init| ==> init[i] == long[i];
      forall n, i | LastOf(long, f, n, i) ensures n in Metrics(long, f) && Metrics(long, f)[n] == long[i].value {
        if i < last {
          assert LastOf(init, f, n, i);
        }
      }
    }
  }

  /** The latest period end among the rows of fiscal year `f`. */
  function MaxEnd(long: seq<AnnualRow>, f: int): Option<Date> {
    if long == [] then None
    else
      var m := MaxEnd(long[..|long| - 1], f);
      var r := long[|long| - 1];
      if r.fy != f then m
      else if m.None? || m.value < r.fiscalYearEnd then Some(r.fiscalYearEnd)
      else m
  }

  /** The latest end exists exactly when the year has a row; it is attained and no row of the year ends later. */
  lemma {:induction false} MaxEndSpec(long: seq<AnnualRow>, f: int)
    ensures MaxEnd(long, f).Some? <==> exists r :: r in long && r.fy == f
    ensures MaxEnd(long, f).Some? ==> exists r :: r in long && r.fy == f && r.fiscalYearEnd == MaxEnd(long, f).value
    ensures forall r :: r in long && r.fy == f ==> r.fiscalYearEnd <= MaxEnd(long, f).GetOr(r.fiscalYearEnd)
    decreases |long|
  {
    if long != [] {
      var init := long[..|long| - 1];
      MaxEndSpec(init, f);
      assert long == init + [long[|long| - 1]];
    }
  }

  // ---------------------------------------------------------------------
  // Derived columns
  // ---------------------------------------------------------------------

  /** The cell of column `k`; missing when the metric has no value that year or no column at all. */
  function Cell(m: map<string, real>, k: string): Option<real> {
    if k in m then Some(m[k]) else None
  }

  /** `a / b`, missing when either side is missing; a zero divisor also gives a missing value. */
  function Ratio(a: Option<real>, b: Option<real>): (r: Option<real>)
    ensures r.Some? <==> a.Some? && b.Some? && b.value != 0.0
    ensures r.Some? ==> r.value * b.value == a.value
  {
    if a.Some? && b.Some? && b.value != 0.0 then Some(a.value / b.value) else None
  }

  /** Free cash flow: operating cash flow less capital expenditure, missing when either is. */
  function Fcf(m: map<string, real>): (r: Option<real>)
    ensures r.Some? <==> "cfo" in m && "capex" in m
    ensures r.Some? ==> r.value + m["capex"] == m["cfo"]
  {
    if "cfo" in m && "capex" in m then Some(m["cfo"] - m["capex"]) else None
  }

  /** The change from the previous row's value, as a fraction of it. */
  function Growth(cur: Option<real>, prev: Option<real>): (r: Option<real>)
    ensures r.Some? <==> cur.Some? && prev.Some? && prev.value != 0.0
    ensures r.Some? ==> prev.value * (1.0 + r.value) == cur.value
  {
    if cur.Some? && prev.Some? && prev.value != 0.0 then Some(cur.value / prev.value - 1.0) else None
  }

  /** The wide row at position `i` of the index. */
  function RowAt(long: seq<AnnualRow>, fys: seq<int>, i: int): TableRow
    requires 0 <= i < |fys|
  {
    var m := Metrics(long, fys[i]);
    var revenue := Cell(m, "revenue");
    var previous := if i == 0 then None else Cell(Metrics(long, fys[i - 1]), "revenue");
    var fcf := Fcf(m);
    TableRow(
      fys[i], MaxEnd(long, fys[i]).GetOr(0), m, fcf,
      Growth(revenue, previous),
      Ratio(Cell(m, "gross_profit"), revenue),
      Ratio(Cell(m, "operating_income"), revenue),
      Ratio(Cell(m, "net_income"), revenue),
      Ratio(fcf, revenue))
  }

  /** The rows of the wide table, one per index year. */
  function TableRows(long: seq<AnnualRow>): (rows: seq<TableRow>)
    ensures |rows| == |FyIndex(long)|
  {
    var fys := FyIndex(long);
    seq(|fys|, i requires 0 <= i < |fys| => RowAt(long, fys, i))
  }

  /** Some row of the table has fiscal year `f`. */
  ghost predicate InIndex(rows: seq<TableRow>, f: int) {
    exists k :: 0 <= k < |rows| && rows[k].fy == f
  }

  /**
   * The rows: fiscal years strictly ascending, one per year that has a row
   * in `long`; each year's end is the latest period end of its rows; each
   * metric cell is the value of that metric's last row in the year.
   */
  lemma TableRowsIndex(long: seq<AnnualRow>, rows: seq<TableRow>)
    requires rows == TableRows(long)
    ensures forall i, j :: 0 <= i < j < |rows| ==> rows[i].fy < rows[j].fy
    ensures forall f :: InIndex(rows, f) <==> exists r :: r in long && r.fy == f
    ensures forall i :: 0 <= i < |rows| ==>
      && (exists r :: r in long && r.fy == rows[i].fy && r.fiscalYearEnd == rows[i].fiscalYearEnd)
      && (forall r :: r in long && r.fy == rows[i].fy ==> r.fiscalYearEnd <= rows[i].fiscalYearEnd)
    ensures forall i, n :: 0 <= i < |rows| ==>
      (n in rows[i].metrics <==> exists k :: 0 <= k < |long| && long[k].fy == rows[i].fy && long[k].name == n)
    ensures forall i, n, k :: 0 <= i < |rows| && LastOf(long, rows[i].fy, n, k) ==>
      n in rows[i].metrics && rows[i].metrics[n] == long[k].value
  {
    var fys := FyIndex(long);
    FyIndexSpec(long, fys);
    assert forall i :: 0 <= i < |rows| ==> rows[i] == RowAt(long, fys, i);
    forall f ensures InIndex(rows, f) <==> exists r :: r in long && r.fy == f {
      if r :| r in long && r.fy == f {
        assert f in fys;
        var i :| 0 <= i < |fys| && fys[i] == f;
        assert rows[i].fy == f;
      }
      if InIndex(rows, f) {
        var k :| 0 <= k < |rows| && rows[k].fy == f;
        assert fys[k] in fys;
      }
    }
    forall i | 0 <= i < |rows|
      ensures && (exists r :: r in long && r.fy == rows[i].fy && r.fiscalYearEnd == rows[i].fiscalYearEnd)
              && (forall r :: r in long && r.fy == rows[i].fy ==> r.fiscalYearEnd <= rows[i].fiscalYearEnd)
    {
      assert fys[i] in fys;
      MaxEndSpec(long, fys[i]);
    }
    forall i | 0 <= i < |rows|
      ensures forall n :: n in rows[i].metrics <==> exists k :: 0 <= k < |long| && long[k].fy == rows[i].fy && long[k].name == n
      ensures forall n, k :: LastOf(long, rows[i].fy, n, k) ==> n in rows[i].metrics && rows[i].metrics[n] == long[k].value
    {
      MetricsSpec(long, fys[i]);
    }
  }

  /**
   * The derived columns of each row: free cash flow only when both cash
   * flows are present (missing, not zero, otherwise); revenue growth
   * missing on the first row and measured against the previous row of the
   * table (not fiscal year minus one); margins over the year's revenue.
   */
  lemma TableRowsDerived(long: seq<AnnualRow>, rows: seq<TableRow>)
    requires rows == TableRows(long)
    ensures forall i :: 0 <= i < |rows| ==> rows[i].fcf == Fcf(rows[i].metrics)
    ensures rows != [] ==> rows[0].revenueYoy.None?
    ensures forall i :: 0 < i < |rows| ==>
      rows[i].revenueYoy == Growth(Cell(rows[i].metrics, "revenue"), Cell(rows[i - 1].metrics, "revenue"))
    ensures forall i :: 0 <= i < |rows| ==>
      var revenue := Cell(rows[i].metrics, "revenue");
      && rows[i].grossMargin == Ratio(Cell(rows[i].metrics, "gross_profit"), revenue)
      && rows[i].operatingMargin == Ratio(Cell(rows[i].metrics, "operating_income"), revenue)
      && rows[i].netMargin == Ratio(Cell(rows[i].metrics, "net_income"), revenue)
      && rows[i].fcfMargin == Ratio(rows[i].fcf, revenue)
  {
    var fys := FyIndex(long);
    assert forall i :: 0 <= i < |rows| ==> rows[i] == RowAt(long, fys, i);
  }

  // ---------------------------------------------------------------------
  // The table as a whole
  // ---------------------------------------------------------------------

  /** Each collected series is the non-empty series of some spec, and every non-empty one is collected. */
  lemma {:induction false} SeriesListSpec(series: ConceptSpec -> seq<AnnualRow>, specs: seq<ConceptSpec>)
    ensures forall s :: s in SeriesList(series, specs) <==>
      s != [] && exists i :: 0 <= i < |specs| && s == series(specs[i])
    decreases |specs|
  {
    if specs != [] {
      var init := specs[..|specs| - 1];
      SeriesListSpec(series, init);
      assert forall i :: 0 <= i < |init| ==> init[i] == specs[i];
    }
  }

  /** Some spec's series has a row of fiscal year `f`. */
  ghost predicate InSomeSeries(series: ConceptSpec -> seq<AnnualRow>, specs: seq<ConceptSpec>, f: int) {
    exists i, r :: 0 <= i < |specs| && r in series(specs[i]) && r.fy == f
  }

  /** Some spec's series has a row of metric `n`. */
  ghost predicate NamedInSomeSeries(series: ConceptSpec -> seq<AnnualRow>, specs: seq<ConceptSpec>, n: string) {
    exists i, r :: 0 <= i < |specs| && r in series(specs[i]) && r.name == n
  }

  /** The rows of the long table are exactly the rows of the specs' series. */
  lemma LongRows(series: ConceptSpec -> seq<AnnualRow>, specs: seq<ConceptSpec>, r: AnnualRow)
    ensures r in Concat(SeriesList(series, specs)) <==> exists i :: 0 <= i < |specs| && r in series(specs[i])
  {
    var all := SeriesList(series, specs);
    SeriesListSpec(series, specs);
    if i :| 0 <= i < |specs| && r in series(specs[i]) {
      var s := series(specs[i]);
      assert s in all;
      var k :| 0 <= k < |all| && all[k] == s;
    }
  }

  /**
   * The table is bare exactly when every spec's series is empty; otherwise
   * its index holds exactly the fiscal years of those series and its
   * columns exactly the metric names having a row.
   */
  lemma TableOfSpec(series: ConceptSpec -> seq<AnnualRow>, specs: seq<ConceptSpec>)
    ensures TableOf(series, specs).Bare? <==> forall i :: 0 <= i < |specs| ==> series(specs[i]) == []
    ensures var t := TableOf(series, specs);
      t.Wide? ==> forall f :: InIndex(t.rows, f) <==> InSomeSeries(series, specs, f)
    ensures var t := TableOf(series, specs);
      t.Wide? ==> forall n :: n in t.columns <==> NamedInSomeSeries(series, specs, n)
  {
    var all := SeriesList(series, specs);
    SeriesListSpec(series, specs);
    if all == [] {
      forall i | 0 <= i < |specs| ensures series(specs[i]) == [] {
        assert series(specs[i]) !in all;
      }
    } else {
      assert all[0] in all;
      var long := Concat(all);
      var t := TableOf(series, specs);
      TableRowsIndex(long, t.rows);
      forall r ensures r in long <==> exists i :: 0 <= i < |specs| && r in series(specs[i]) {
        LongRows(series, specs, r);
      }
    }
  }

  /** The concept map has exactly one key per metric name of `specs`. */
  lemma {:induction false} ConceptMapKeys(series: ConceptSpec -> seq<AnnualRow>, specs: seq<ConceptSpec>)
    ensures ConceptMapOf(series, specs).Keys == set i | 0 <= i < |specs| :: specs[i].name
    decreases |specs|
  {
    if specs != [] {
      var init := specs[..|specs| - 1];
      ConceptMapKeys(series, init);
      assert forall i :: 0 <= i < |init| ==> init[i] == specs[i];
      assert (set i | 0 <= i < |specs| :: specs[i].name)
          == (set i | 0 <= i < |init| :: init[i].name) + {specs[|specs| - 1].name};
    }
  }

  /**
   * For the last spec of a name, the concept map holds `""` when that
   * spec's series is empty and the concept its last row was drawn from
   * otherwise.
   */
  lemma {:induction false} ConceptMapSpec(series: ConceptSpec -> seq<AnnualRow>, specs: seq<ConceptSpec>, i: int)
    requires 0 <= i < |specs| && forall j :: i < j < |specs| ==> specs[j].name != specs[i].name
    ensures var s := series(specs[i]);
      && specs[i].name in ConceptMapOf(series, specs)
      && ConceptMapOf(series, specs)[specs[i].name] == if s == [] then "" else s[|s| - 1].conceptUsed
    decreases |specs|
  {
    var init := specs[..|specs| - 1];
    if i < |specs| - 1 {
      assert forall j :: 0 <= j < |init| ==> init[j] == specs[j];
      ConceptMapSpec(series, init, i);
    }
  }

  /**
   * For the annual series of a frame: when the last spec of a name has
   * only non-empty candidate names, its concept map entry is `""` exactly
   * when its series is empty, and is otherwise one of its candidates.
   */
  lemma ConceptMapEmptyIff(rows: seq<Fact>, lastN: int, specs: seq<ConceptSpec>, i: int)
    requires 0 <= i < |specs| && forall j :: i < j < |specs| ==> specs[j].name != specs[i].name
    requires forall c :: c in specs[i].candidates ==> c != ""
    ensures var m := ConceptMapOf(SeriesOf(rows, lastN), specs);
      specs[i].name in m && (m[specs[i].name] == "" <==> AnnualSeries(rows, specs[i], lastN) == [])
    ensures var m := ConceptMapOf(SeriesOf(rows, lastN), specs);
      AnnualSeries(rows, specs[i], lastN) != [] ==> m[specs[i].name] in specs[i].candidates
  {
    ConceptMapSpec(SeriesOf(rows, lastN), specs, i);
    var spec := specs[i];
    var s := AnnualSeries(rows, spec, lastN);
    assert SeriesOf(rows, lastN)(spec) == s;
    if s != [] {
      AnnualSeriesLabels(rows, spec, lastN);
      assert s[|s| - 1] in s;
    }
  }

  // ---------------------------------------------------------------------
  // format_financials_for_display
  // ---------------------------------------------------------------------

  /** The dollar columns shown in billions. */
  const ScaleColumns: set<string> :=
    {"revenue", "gross_profit", "operating_income", "net_income", "cfo", "capex", "fcf", "cash", "equity"}

  function Billions(x: real): real {
    x / 1000000000.0
  }

  function ScaleMetrics(m: map<string, real>): map<string, real> {
    map k | k in m :: if k in ScaleColumns then Billions(m[k]) else m[k]
  }

  function FormatRow(r: TableRow): TableRow {
    r.(metrics := ScaleMetrics(r.metrics), fcf := if r.fcf.Some? then Some(Billions(r.fcf.value)) else None)
  }

  /**
   * `format_financials_for_display`: an empty table is returned as it is.
   * Otherwise the row count, the index, every column name, the concept
   * map, the growth and margin columns and every metric outside the nine
   * dollar columns are kept; each dollar cell and free cash flow,
   * multiplied by a billion, gives back the original value.
   */
  function FormatForDisplay(t: Table): (u: Table)
    ensures u.Bare? <==> t.Bare?
    ensures t.Wide? ==> u.columns == t.columns && u.conceptMap == t.conceptMap && |u.rows| == |t.rows|
    ensures t.Wide? ==> forall i :: 0 <= i < |t.rows| ==>
      var a, b := t.rows[i], u.rows[i];
      && b.fy == a.fy && b.fiscalYearEnd == a.fiscalYearEnd
      && b.revenueYoy == a.revenueYoy && b.grossMargin == a.grossMargin && b.operatingMargin == a.operatingMargin
      && b.netMargin == a.netMargin && b.fcfMargin == a.fcfMargin
      && b.metrics.Keys == a.metrics.Keys
      && (forall k :: k in a.metrics && k !in ScaleColumns ==> b.metrics[k] == a.metrics[k])
      && (forall k :: k in a.metrics && k in ScaleColumns ==> b.metrics[k] * 1000000000.0 == a.metrics[k])
      && b.fcf.Some? == a.fcf.Some?
      && (a.fcf.Some? ==> b.fcf.value * 1000000000.0 == a.fcf.value)
  {
    if t.Bare? || t.rows == [] then t else t.(rows := MapSeq(t.rows, FormatRow))
  }
}
