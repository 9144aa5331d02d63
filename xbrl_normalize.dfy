/**
 * Fact normalizer and unit/duplicate resolver: flattens the nested
 * companyfacts store (taxonomy -> concept -> unit -> records) into fact
 * rows, keeps one preferred unit per concept and collapses re-filed
 * observations to the latest filing.
 */
module XbrlNormalize {
  import opened Wrappers
  import opened Ordering
  import opened Seqs
  import opened Facts

  datatype NormalizeConfig = NormalizeConfig(
    taxonomy: string,
    preferredUnits: seq<string>,
    keepDimensions: bool,
    keepForms: Option<seq<string>>)

  const DefaultPreferredUnits: seq<string> := ["USD", "shares", "pure"]

  function DefaultNormalizeConfig(): (cfg: NormalizeConfig)
    ensures cfg.taxonomy == "us-gaap" && cfg.preferredUnits == DefaultPreferredUnits
    ensures !cfg.keepDimensions && cfg.keepForms.None?
  {
    NormalizeConfig("us-gaap", DefaultPreferredUnits, false, None)
  }

  // ---------------------------------------------------------------------
  // The raw store, as the fetch client hands it over. Dictionaries are
  // association lists in iteration order; an absent key is the empty
  // value of its type. Cells are already parsed (a cell that does not
  // parse is `None`).
  // ---------------------------------------------------------------------

  /** One raw observation; `dims` lists its dimension qualifiers (empty when absent). */
  datatype RawFact = RawFact(
    val: Option<real>,
    start: Option<Date>,
    end: Option<Date>,
    fy: Option<int>,
    fp: Option<string>,
    form: Option<string>,
    filed: Option<Date>,
    frame: Option<string>,
    accn: Option<string>,
    qtrs: Option<int>,
    dims: seq<string>)

  /** An element of a unit's record list: a record (a dict) or anything else. */
  datatype RawItem = Record(fact: RawFact) | NonRecord

  /** The body stored under a unit key: a list of items, or a non-list value. */
  datatype UnitBody = FactList(items: seq<RawItem>) | NonList

  datatype ConceptBody = ConceptBody(labelText: string, description: string, units: seq<(string, UnitBody)>)

  /** The `facts` object: taxonomy name -> concept name -> concept body. */
  datatype CompanyFacts = CompanyFacts(facts: seq<(string, seq<(string, ConceptBody)>)>)

  /**
   * Dictionary lookup with a default for an absent key. A dictionary is an
   * association list here; a decoded JSON object has no repeated keys, and
   * on a list with repeats the first entry of the key is the one found.
   */
  function Lookup<V>(m: seq<(string, V)>, key: string, default: V): (v: V)
    ensures (forall i :: 0 <= i < |m| ==> m[i].0 != key) ==> v == default
    ensures forall i :: 0 <= i < |m| && m[i].0 == key && (forall j :: 0 <= j < i ==> m[j].0 != key) ==> v == m[i].1
  {
    if m == [] then default
    else if m[0].0 == key then m[0].1
    else
      var v := Lookup(m[1..], key, default);
      assert forall i :: 1 <= i < |m| ==> m[i] == m[1..][i - 1];
      v
  }

  /** The form cell as a string; a missing form is the empty string. */
  function FormOf(raw: RawFact): string {
    raw.form.GetOr("")
  }

  /** A record survives the form allow-list and the dimension rule. */
  predicate Kept(cfg: NormalizeConfig, raw: RawFact) {
    && (cfg.keepForms.None? || FormOf(raw) in cfg.keepForms.value)
    && (raw.dims == [] || cfg.keepDimensions)
  }

  /** A raw record together with the keys that enclose it. */
  datatype Entry = Entry(concept: string, labelText: string, description: string, unit: string, raw: RawFact)

  /** The normalized row of one kept record. */
  function ToRow(cfg: NormalizeConfig, e: Entry): Fact {
    Fact(cfg.taxonomy, e.concept, e.labelText, e.description, e.unit,
         e.raw.val, e.raw.start, e.raw.end, e.raw.fy, e.raw.fp, FormOf(e.raw),
         e.raw.filed, e.raw.frame, e.raw.accn, e.raw.qtrs,
         e.raw.dims != [],
         if e.raw.start.None? then Instant else Duration)
  }

  /** The records of one unit list, skipping items that are not records. */
  function ItemEntries(concept: string, body: ConceptBody, unit: string, items: seq<RawItem>): seq<Entry> {
    if items == [] then []
    else
      ItemEntries(concept, body, unit, items[..|items| - 1]) +
      match items[|items| - 1]
      case Record(raw) => [Entry(concept, body.labelText, body.description, unit, raw)]
      case NonRecord => []
  }

  /** The records of one concept, skipping unit bodies that are not lists. */
  function UnitEntries(concept: string, body: ConceptBody, units: seq<(string, UnitBody)>): seq<Entry> {
    if units == [] then []
    else
      UnitEntries(concept, body, units[..|units| - 1]) +
      match units[|units| - 1].1
      case FactList(items) => ItemEntries(concept, body, units[|units| - 1].0, items)
      case NonList => []
  }

  /** All records of a taxonomy, in dictionary order. */
  function Entries(tax: seq<(string, ConceptBody)>): seq<Entry> {
    if tax == [] then []
    else Entries(tax[..|tax| - 1]) + UnitEntries(tax[|tax| - 1].0, tax[|tax| - 1].1, tax[|tax| - 1].1.units)
  }

  /** One row per kept record, in record order. */
  function KeptRows(cfg: NormalizeConfig, es: seq<Entry>): seq<Fact> {
    if es == [] then []
    else
      var e := es[|es| - 1];
      KeptRows(cfg, es[..|es| - 1]) + (if Kept(cfg, e.raw) then [ToRow(cfg, e)] else [])
  }

  /** Keeping rows record by record is filtering the records, then converting each. */
  lemma {:induction false} KeptRowsIsFilterMap(cfg: NormalizeConfig, es: seq<Entry>)
    ensures KeptRows(cfg, es) == MapSeq(Filter(es, (e: Entry) => Kept(cfg, e.raw)), (e: Entry) => ToRow(cfg, e))
    decreases |es|
  {
    if es != [] {
      var init, e := es[..|es| - 1], es[|es| - 1];
      var keep := (e: Entry) => Kept(cfg, e.raw);
      var conv := (e: Entry) => ToRow(cfg, e);
      assert es == init + [e];
      KeptRowsIsFilterMap(cfg, init);
      FilterAppend(init, [e], keep);
      var last := Filter([e], keep);
      assert last == if Kept(cfg, e.raw) then [e] else [];
      assert MapSeq(last, conv) == if Kept(cfg, e.raw) then [ToRow(cfg, e)] else [];
      MapSeqAppend(Filter(init, keep), last, conv);
    }
  }

  function TaxonomyOf(cf: CompanyFacts, cfg: NormalizeConfig): seq<(string, ConceptBody)> {
    Lookup(cf.facts, cfg.taxonomy, [])
  }

  function NormalizedRows(cf: CompanyFacts, cfg: NormalizeConfig): seq<Fact> {
    KeptRows(cfg, Entries(TaxonomyOf(cf, cfg)))
  }

  /** The normalized table: column-less when no record was kept. */
  function NormalizedFrame(cf: CompanyFacts, cfg: NormalizeConfig): Frame {
    var rows := NormalizedRows(cf, cfg);
    if rows == [] then Columnless else Table(rows)
  }

  /** Membership in `KeptRows` and the cells every kept row carries. */
  lemma {:induction false} KeptRowsSpec(cfg: NormalizeConfig, es: seq<Entry>)
    ensures forall r :: r in KeptRows(cfg, es) <==> exists e :: e in es && Kept(cfg, e.raw) && r == ToRow(cfg, e)
    ensures forall r :: r in KeptRows(cfg, es) ==>
      && r.taxonomy == cfg.taxonomy
      && (r.periodType == Instant <==> r.start.None?)
      && (r.hasDimensions ==> cfg.keepDimensions)
      && (cfg.keepForms.Some? ==> r.form in cfg.keepForms.value)
  {
    var keep := (e: Entry) => Kept(cfg, e.raw);
    var ks := Filter(es, keep);
    FilterMembers(es, keep);
    var rows := KeptRows(cfg, es);
    KeptRowsIsFilterMap(cfg, es);
    assert rows == MapSeq(ks, (e: Entry) => ToRow(cfg, e));
    forall r | r in rows
      ensures exists e :: e in es && Kept(cfg, e.raw) && r == ToRow(cfg, e)
    {
      var i :| 0 <= i < |rows| && rows[i] == r;
      assert ks[i] in ks;
    }
    forall e | e in es && Kept(cfg, e.raw) ensures ToRow(cfg, e) in rows {
      assert e in ks;
      var i :| 0 <= i < |ks| && ks[i] == e;
      assert rows[i] == ToRow(cfg, e);
    }
  }

  /**
   * The normalized rows are the kept records of the configured taxonomy,
   * one row each, in record order: each carries the configured taxonomy,
   * has period type instant exactly when it has no start date, is flagged
   * as dimensioned only when dimensions are kept, and has an allowed form.
   */
  lemma NormalizedRowsSpec(cf: CompanyFacts, cfg: NormalizeConfig)
    ensures var es := Entries(TaxonomyOf(cf, cfg));
      NormalizedRows(cf, cfg) == MapSeq(Filter(es, (e: Entry) => Kept(cfg, e.raw)), (e: Entry) => ToRow(cfg, e))
    ensures forall r :: r in NormalizedRows(cf, cfg) <==>
      exists e :: e in Entries(TaxonomyOf(cf, cfg)) && Kept(cfg, e.raw) && r == ToRow(cfg, e)
    ensures forall r :: r in NormalizedRows(cf, cfg) ==>
      && r.taxonomy == cfg.taxonomy
      && (r.periodType == Instant <==> r.start.None?)
      && (r.hasDimensions ==> cfg.keepDimensions)
      && (cfg.keepForms.Some? ==> r.form in cfg.keepForms.value)
  {
    KeptRowsIsFilterMap(cfg, Entries(TaxonomyOf(cf, cfg)));
    KeptRowsSpec(cfg, Entries(TaxonomyOf(cf, cfg)));
  }

  /** An entry lies inside a concept whose key is its concept and a unit whose key is its unit. */
  lemma {:induction false} EntriesCarryKeys(tax: seq<(string, ConceptBody)>, e: Entry)
    requires e in Entries(tax)
    ensures exists i, j ::
      (0 <= i < |tax| && 0 <= j < |tax[i].1.units| &&
       tax[i].0 == e.concept && tax[i].1.units[j].0 == e.unit && tax[i].1.units[j].1.FactList? &&
       Record(e.raw) in tax[i].1.units[j].1.items)
    decreases |tax|
  {
    var init := tax[..|tax| - 1];
    var (c, body) := tax[|tax| - 1];
    if e in Entries(init) {
      EntriesCarryKeys(init, e);
      var i, j :| 0 <= i < |init| && 0 <= j < |init[i].1.units| &&
        init[i].0 == e.concept && init[i].1.units[j].0 == e.unit && init[i].1.units[j].1.FactList? &&
        Record(e.raw) in init[i].1.units[j].1.items;
      assert tax[i] == init[i];
    } else {
      UnitEntriesCarryKeys(c, body, body.units, e);
      assert tax[|tax| - 1] == (c, body);
    }
  }

  lemma {:induction false} UnitEntriesCarryKeys(c: string, body: ConceptBody, units: seq<(string, UnitBody)>, e: Entry)
    requires e in UnitEntries(c, body, units)
    ensures e.concept == c
    ensures exists j :: 0 <= j < |units| && units[j].0 == e.unit && units[j].1.FactList? && Record(e.raw) in units[j].1.items
    decreases |units|
  {
    var init := units[..|units| - 1];
    var (u, ub) := units[|units| - 1];
    if e in UnitEntries(c, body, init) {
      UnitEntriesCarryKeys(c, body, init, e);
      var j :| 0 <= j < |init| && init[j].0 == e.unit && init[j].1.FactList? && Record(e.raw) in init[j].1.items;
      assert units[j] == init[j];
    } else {
      assert ub.FactList?;
      ItemEntriesCarryKeys(c, body, u, ub.items, e);
      assert units[|units| - 1] == (u, ub);
    }
  }

  lemma {:induction false} ItemEntriesCarryKeys(c: string, body: ConceptBody, u: string, items: seq<RawItem>, e: Entry)
    requires e in ItemEntries(c, body, u, items)
    ensures e.concept == c && e.unit == u && Record(e.raw) in items
    decreases |items|
  {
    var init := items[..|items| - 1];
    if e in ItemEntries(c, body, u, init) {
      ItemEntriesCarryKeys(c, body, u, init, e);
      assert Record(e.raw) in items by {
        var k :| 0 <= k < |init| && init[k] == Record(e.raw);
        assert items[k] == init[k];
      }
    } else {
      assert items[|items| - 1] == Record(e.raw);
    }
  }

  /** Conversely, every record of a list-valued unit body of a concept yields an entry. */
  lemma {:induction false} EntriesComplete(tax: seq<(string, ConceptBody)>, i: int, j: int, raw: RawFact)
    requires 0 <= i < |tax| && 0 <= j < |tax[i].1.units|
    requires tax[i].1.units[j].1.FactList? && Record(raw) in tax[i].1.units[j].1.items
    ensures Entry(tax[i].0, tax[i].1.labelText, tax[i].1.description, tax[i].1.units[j].0, raw) in Entries(tax)
    decreases |tax|
  {
    var init := tax[..|tax| - 1];
    if i < |init| {
      assert init[i] == tax[i];
      EntriesComplete(init, i, j, raw);
    } else {
      UnitEntriesComplete(tax[i].0, tax[i].1, tax[i].1.units, j, raw);
    }
  }

  lemma {:induction false} UnitEntriesComplete(c: string, body: ConceptBody, units: seq<(string, UnitBody)>, j: int, raw: RawFact)
    requires 0 <= j < |units| && units[j].1.FactList? && Record(raw) in units[j].1.items
    ensures Entry(c, body.labelText, body.description, units[j].0, raw) in UnitEntries(c, body, units)
    decreases |units|
  {
    var init := units[..|units| - 1];
    if j < |init| {
      assert init[j] == units[j];
      UnitEntriesComplete(c, body, init, j, raw);
    } else {
      ItemEntriesComplete(c, body, units[j].0, units[j].1.items, raw);
    }
  }

  lemma {:induction false} ItemEntriesComplete(c: string, body: ConceptBody, u: string, items: seq<RawItem>, raw: RawFact)
    requires Record(raw) in items
    ensures Entry(c, body.labelText, body.description, u, raw) in ItemEntries(c, body, u, items)
    decreases |items|
  {
    var init := items[..|items| - 1];
    if items[|items| - 1] != Record(raw) {
      var k :| 0 <= k < |items| && items[k] == Record(raw);
      assert init[k] == items[k];
      ItemEntriesComplete(c, body, u, init, raw);
    }
  }

  lemma {:induction false} KeptRowsAppend(cfg: NormalizeConfig, a: seq<Entry>, b: seq<Entry>)
    ensures KeptRows(cfg, a + b) == KeptRows(cfg, a) + KeptRows(cfg, b)
    decreases |b|
  {
    if b == [] {
      assert a + b == a;
    } else {
      var init := b[..|b| - 1];
      assert (a + b)[..|a + b| - 1] == a + init;
      assert (a + b)[|a + b| - 1] == b[|b| - 1];
      KeptRowsAppend(cfg, a, init);
    }
  }

  /** The rows of one more item follow the rows of the earlier ones. */
  lemma KeptItemStep(cfg: NormalizeConfig, c: string, body: ConceptBody, u: string, items: seq<RawItem>, k: int)
    requires 0 <= k < |items|
    ensures KeptRows(cfg, ItemEntries(c, body, u, items[..k + 1])) == KeptRows(cfg, ItemEntries(c, body, u, items[..k])) +
      (if items[k].Record? && Kept(cfg, items[k].fact)
       then [ToRow(cfg, Entry(c, body.labelText, body.description, u, items[k].fact))] else [])
  {
    assert items[..k + 1][..k] == items[..k];
    var done := ItemEntries(c, body, u, items[..k]);
    if items[k].Record? {
      var e := Entry(c, body.labelText, body.description, u, items[k].fact);
      assert ItemEntries(c, body, u, items[..k + 1]) == done + [e];
      assert (done + [e])[..|done|] == done;
    } else {
      assert ItemEntries(c, body, u, items[..k + 1]) == done;
    }
  }

  /** `normalize_companyfacts_to_df`, innermost loop: the records of one unit list. */
  method AppendUnitRows(rows0: seq<Fact>, cfg: NormalizeConfig, concept: string, body: ConceptBody, unit: string, items: seq<RawItem>)
    returns (rows: seq<Fact>)
    ensures rows == rows0 + KeptRows(cfg, ItemEntries(concept, body, unit, items))
  {
    rows := rows0;
    var k := 0;
    assert items[..0] == [];
    while k < |items|
      invariant 0 <= k <= |items|
      invariant rows == rows0 + KeptRows(cfg, ItemEntries(concept, body, unit, items[..k]))
    {
      KeptItemStep(cfg, concept, body, unit, items, k);
      if items[k].Record? {
        var raw := items[k].fact;
        var e := Entry(concept, body.labelText, body.description, unit, raw);
        var form := FormOf(raw);
        if cfg.keepForms.Some? && form !in cfg.keepForms.value {
          assert !Kept(cfg, raw);
        } else {
          var hasDims := false;
          if raw.dims != [] {
            hasDims := true;
          }
          if hasDims && !cfg.keepDimensions {
            assert !Kept(cfg, raw);
          } else {
            assert Kept(cfg, raw) && ToRow(cfg, e).hasDimensions == hasDims;
            rows := rows + [ToRow(cfg, e)];
          }
        }
      }
      k := k + 1;
    }
    assert items[..|items|] == items;
  }

  /** The rows of one concept, unit body by unit body. */
  function UnitRows(cfg: NormalizeConfig, c: string, body: ConceptBody, units: seq<(string, UnitBody)>): seq<Fact> {
    if units == [] then []
    else
      var last := units[|units| - 1];
      UnitRows(cfg, c, body, units[..|units| - 1]) +
      (if last.1.FactList? then KeptRows(cfg, ItemEntries(c, body, last.0, last.1.items)) else [])
  }

  /** Converting unit body by unit body is converting the concept's records. */
  lemma {:induction false} UnitRowsAreKeptRows(cfg: NormalizeConfig, c: string, body: ConceptBody, units: seq<(string, UnitBody)>)
    ensures UnitRows(cfg, c, body, units) == KeptRows(cfg, UnitEntries(c, body, units))
    decreases |units|
  {
    if units != [] {
      var init, last := units[..|units| - 1], units[|units| - 1];
      UnitRowsAreKeptRows(cfg, c, body, init);
      var done := UnitEntries(c, body, init);
      if last.1.FactList? {
        KeptRowsAppend(cfg, done, ItemEntries(c, body, last.0, last.1.items));
      } else {
        assert UnitEntries(c, body, units) == done + [];
        assert done + [] == done;
      }
    }
  }

  /** `normalize_companyfacts_to_df`, middle loop: the unit lists of one concept; a non-list body is skipped. */
  method AppendConceptRows(rows0: seq<Fact>, cfg: NormalizeConfig, concept: string, body: ConceptBody)
    returns (rows: seq<Fact>)
    ensures rows == rows0 + KeptRows(cfg, UnitEntries(concept, body, body.units))
  {
    rows := rows0;
    var units := body.units;
    var j := 0;
    while j < |units|
      invariant 0 <= j <= |units|
      invariant rows == rows0 + UnitRows(cfg, concept, body, units[..j])
    {
      var unit, factsList := units[j].0, units[j].1;
      assert units[..j + 1][..j] == units[..j];
      if factsList.FactList? {
        rows := AppendUnitRows(rows, cfg, concept, body, unit, factsList.items);
      }
      j := j + 1;
    }
    assert units[..|units|] == units;
    UnitRowsAreKeptRows(cfg, concept, body, units);
  }

  /** `normalize_companyfacts_to_df`: the outer loop over the concepts of the configured taxonomy. */
  method NormalizeCompanyFacts(cf: CompanyFacts, cfg: NormalizeConfig) returns (df: Frame)
    ensures df == NormalizedFrame(cf, cfg)
    ensures df.Table? ==> df.rows != []
    ensures forall r :: df.Table? && r in df.rows ==>
      && r.taxonomy == cfg.taxonomy
      && (r.periodType == Instant <==> r.start.None?)
      && (r.hasDimensions ==> cfg.keepDimensions)
      && (cfg.keepForms.Some? ==> r.form in cfg.keepForms.value)
  {
    var tax := Lookup(cf.facts, cfg.taxonomy, []);
    var rows: seq<Fact> := [];
    var i := 0;
    while i < |tax|
      invariant 0 <= i <= |tax|
      invariant rows == KeptRows(cfg, Entries(tax[..i]))
    {
      var (concept, body) := tax[i];
      assert tax[..i + 1][..i] == tax[..i];
      assert tax[..i + 1][i] == (concept, body);
      rows := AppendConceptRows(rows, cfg, concept, body);
      KeptRowsAppend(cfg, Entries(tax[..i]), UnitEntries(concept, body, body.units));
      i := i + 1;
    }
    assert tax[..|tax|] == tax;
    df := if rows == [] then Columnless else Table(rows);
    NormalizedRowsSpec(cf, cfg);
  }

  // ---------------------------------------------------------------------
  // choose_preferred_unit
  // ---------------------------------------------------------------------

  /** The rank of a unit that is not in the preference list. */
  const NotPreferred: nat := 10000

  /** `list.index`: the position of the first occurrence of `u`. */
  function IndexOf(xs: seq<string>, u: string): (i: nat)
    requires u in xs
    ensures i < |xs| && xs[i] == u
    ensures forall j :: 0 <= j < i ==> xs[j] != u
  {
    if xs[0] == u then 0
    else
      var i := 1 + IndexOf(xs[1..], u);
      assert forall j :: 1 <= j < |xs| ==> xs[j] == xs[1..][j - 1];
      i
  }

  /** The preference rank of a unit: its list position, or the sentinel when unlisted. */
  function UnitRank(pref: seq<string>, u: string): nat {
    if u in pref then IndexOf(pref, u) else NotPreferred
  }

  /** The lowest rank among the rows of concept `c`, if it has any. */
  function MinRank(pref: seq<string>, rows: seq<Fact>, c: string): (m: Option<nat>)
    ensures m.None? <==> forall i :: 0 <= i < |rows| ==> rows[i].concept != c
    ensures m.Some? ==> forall i :: 0 <= i < |rows| && rows[i].concept == c ==> m.value <= UnitRank(pref, rows[i].unit)
  {
    if rows == [] then None
    else
      var init, last := rows[..|rows| - 1], rows[|rows| - 1];
      var m := MinRank(pref, init, c);
      assert forall i :: 0 <= i < |init| ==> init[i] == rows[i];
      if last.concept != c then m
      else if m.None? || UnitRank(pref, last.unit) < m.value then Some(UnitRank(pref, last.unit))
      else m
  }

  /** The lowest rank is the rank of some row of the concept. */
  lemma {:induction false} MinRankAttained(pref: seq<string>, rows: seq<Fact>, c: string)
    requires MinRank(pref, rows, c).Some?
    ensures exists i :: 0 <= i < |rows| && rows[i].concept == c && MinRank(pref, rows, c).value == UnitRank(pref, rows[i].unit)
    decreases |rows|
  {
    var init, last := rows[..|rows| - 1], rows[|rows| - 1];
    var m := MinRank(pref, init, c);
    if last.concept == c && (m.None? || UnitRank(pref, last.unit) < m.value) {
      assert rows[|rows| - 1] == last;
    } else {
      MinRankAttained(pref, init, c);
      var i :| 0 <= i < |init| && init[i].concept == c && m.value == UnitRank(pref, init[i].unit);
      assert rows[i] == init[i];
    }
  }

  /** The rows whose unit is in the preference list (below the sentinel rank). */
  function RankedRows(pref: seq<string>, rows: seq<Fact>): seq<Fact> {
    Filter(rows, (r: Fact) => UnitRank(pref, r.unit) < NotPreferred)
  }

  /** The ranked rows whose unit has the lowest rank of their concept. */
  function BestUnitRows(pref: seq<string>, ranked: seq<Fact>): seq<Fact> {
    Filter(ranked, (r: Fact) => MinRank(pref, ranked, r.concept) == Some(UnitRank(pref, r.unit)))
  }

  /** The ranked rows are the rows whose unit is listed. */
  lemma RankedRowsMembers(pref: seq<string>, rows: seq<Fact>)
    ensures forall r :: r in RankedRows(pref, rows) <==> r in rows && UnitRank(pref, r.unit) < NotPreferred
  {
    FilterMembers(rows, (r: Fact) => UnitRank(pref, r.unit) < NotPreferred);
  }

  /** The ranked rows keep every copy of each row whose unit is listed. */
  lemma RankedRowsCopies(pref: seq<string>, rows: seq<Fact>)
    ensures forall x :: multiset(RankedRows(pref, rows))[x] ==
                (if UnitRank(pref, x.unit) < NotPreferred then multiset(rows)[x] else 0)
  {
    FilterSpec(rows, (r: Fact) => UnitRank(pref, r.unit) < NotPreferred);
  }

  /** The best-unit rows are the ranked rows whose unit has their concept's lowest rank. */
  lemma BestUnitRowsMembers(pref: seq<string>, ranked: seq<Fact>)
    ensures forall r :: r in BestUnitRows(pref, ranked) <==>
      r in ranked && MinRank(pref, ranked, r.concept) == Some(UnitRank(pref, r.unit))
  {
    FilterMembers(ranked, (r: Fact) => MinRank(pref, ranked, r.concept) == Some(UnitRank(pref, r.unit)));
  }

  /** The best-unit rows keep every copy of each such ranked row. */
  lemma BestUnitRowsCopies(pref: seq<string>, ranked: seq<Fact>)
    ensures forall x :: multiset(BestUnitRows(pref, ranked))[x] ==
                (if MinRank(pref, ranked, x.concept) == Some(UnitRank(pref, x.unit)) then multiset(ranked)[x] else 0)
  {
    FilterSpec(ranked, (r: Fact) => MinRank(pref, ranked, r.concept) == Some(UnitRank(pref, r.unit)));
  }

  /** `choose_preferred_unit`: keep, per concept, the rows of its best-ranked preferred unit. */
  function ChoosePreferredUnit(df: Frame, preferred: Option<seq<string>>): Frame {
    if IsEmpty(df) then df
    else
      var pref := preferred.GetOr(DefaultPreferredUnits);
      var ranked := RankedRows(pref, df.rows);
      if ranked == [] then Table([])
      else Table(BestUnitRows(pref, ranked))
  }

  /** A row survives the unit choice exactly when its unit is listed and no listed unit of its concept ranks lower. */
  predicate BestUnitOf(pref: seq<string>, rows: seq<Fact>, r: Fact) {
    && UnitRank(pref, r.unit) < NotPreferred
    && forall s :: s in rows && s.concept == r.concept && UnitRank(pref, s.unit) < NotPreferred ==>
         UnitRank(pref, r.unit) <= UnitRank(pref, s.unit)
  }

  lemma BestUnitRowSound(pref: seq<string>, rows: seq<Fact>, r: Fact)
    requires r in BestUnitRows(pref, RankedRows(pref, rows))
    ensures r in rows && BestUnitOf(pref, rows, r)
  {
    var ranked := RankedRows(pref, rows);
    RankedRowsMembers(pref, rows);
    BestUnitRowsMembers(pref, ranked);
    assert r in ranked;
    var m := MinRank(pref, ranked, r.concept);
    assert m == Some(UnitRank(pref, r.unit));
    forall s | s in rows && s.concept == r.concept && UnitRank(pref, s.unit) < NotPreferred
      ensures UnitRank(pref, r.unit) <= UnitRank(pref, s.unit)
    {
      assert s in ranked;
      var k :| 0 <= k < |ranked| && ranked[k] == s;
    }
  }

  lemma BestUnitRowComplete(pref: seq<string>, rows: seq<Fact>, r: Fact)
    requires r in rows && BestUnitOf(pref, rows, r)
    ensures r in BestUnitRows(pref, RankedRows(pref, rows))
  {
    var ranked := RankedRows(pref, rows);
    RankedRowsMembers(pref, rows);
    BestUnitRowsMembers(pref, ranked);
    assert r in ranked;
    var m := MinRank(pref, ranked, r.concept);
    assert m.Some? && m.value <= UnitRank(pref, r.unit) by {
      var i :| 0 <= i < |ranked| && ranked[i] == r;
    }
    assert UnitRank(pref, r.unit) <= m.value by {
      MinRankAttained(pref, ranked, r.concept);
      var k :| 0 <= k < |ranked| && ranked[k].concept == r.concept && m.value == UnitRank(pref, ranked[k].unit);
      var s := ranked[k];
      assert s in ranked;
      assert s in rows && UnitRank(pref, s.unit) < NotPreferred;
    }
    assert MinRank(pref, ranked, r.concept) == Some(UnitRank(pref, r.unit));
  }

  /** Two listed units of the same rank are the same unit. */
  lemma UnitRankInjective(pref: seq<string>, u: string, v: string)
    requires UnitRank(pref, u) < NotPreferred && UnitRank(pref, u) == UnitRank(pref, v)
    ensures u == v
  {
    assert u in pref && v in pref;
    assert pref[IndexOf(pref, u)] == u && pref[IndexOf(pref, v)] == v;
  }

  /** The chosen rows are exactly the input rows of their concept's best listed unit. */
  lemma ChosenRowsMembers(pref: seq<string>, rows: seq<Fact>)
    ensures forall r :: r in BestUnitRows(pref, RankedRows(pref, rows)) <==> r in rows && BestUnitOf(pref, rows, r)
  {
    forall r ensures r in BestUnitRows(pref, RankedRows(pref, rows)) <==> r in rows && BestUnitOf(pref, rows, r) {
      if r in BestUnitRows(pref, RankedRows(pref, rows)) {
        BestUnitRowSound(pref, rows, r);
      }
      if r in rows && BestUnitOf(pref, rows, r) {
        BestUnitRowComplete(pref, rows, r);
      }
    }
  }

  /** Two chosen rows of the same concept have the same unit. */
  lemma ChosenOneUnit(pref: seq<string>, rows: seq<Fact>, r: Fact, s: Fact)
    requires r in BestUnitRows(pref, RankedRows(pref, rows)) && s in BestUnitRows(pref, RankedRows(pref, rows))
    requires r.concept == s.concept
    ensures r.unit == s.unit
  {
    BestUnitRowSound(pref, rows, r);
    BestUnitRowSound(pref, rows, s);
    UnitRankInjective(pref, r.unit, s.unit);
  }

  /** A concept with a row in a listed unit keeps at least one row. */
  lemma ChosenCovers(pref: seq<string>, rows: seq<Fact>, r: Fact)
    requires r in rows && UnitRank(pref, r.unit) < NotPreferred
    ensures exists s :: s in BestUnitRows(pref, RankedRows(pref, rows)) && s.concept == r.concept
  {
    var ranked := RankedRows(pref, rows);
    RankedRowsMembers(pref, rows);
    BestUnitRowsMembers(pref, ranked);
    assert r in ranked;
    var i :| 0 <= i < |ranked| && ranked[i] == r;
    var m := MinRank(pref, ranked, r.concept);
    MinRankAttained(pref, ranked, r.concept);
    var k :| 0 <= k < |ranked| && ranked[k].concept == r.concept && m.value == UnitRank(pref, ranked[k].unit);
    assert ranked[k] in ranked;
    assert ranked[k] in BestUnitRows(pref, ranked);
  }

  /** Every copy of a chosen row is kept. */
  lemma ChosenCopies(pref: seq<string>, rows: seq<Fact>)
    ensures var out := BestUnitRows(pref, RankedRows(pref, rows));
      forall x :: multiset(out)[x] == if x in out then multiset(rows)[x] else 0
  {
    var ranked := RankedRows(pref, rows);
    RankedRowsCopies(pref, rows);
    BestUnitRowsCopies(pref, ranked);
    forall x ensures multiset(BestUnitRows(pref, ranked))[x] ==
      if x in BestUnitRows(pref, ranked) then multiset(rows)[x] else 0
    {
      assert x in BestUnitRows(pref, ranked) <==> multiset(BestUnitRows(pref, ranked))[x] > 0;
      assert x in ranked <==> multiset(ranked)[x] > 0;
    }
  }

  /**
   * The unit choice keeps exactly the rows whose unit is the earliest-listed
   * preferred unit present for their concept, every copy of them, so each
   * concept ends up with one unit; a concept with some preferred unit keeps
   * at least one row. An empty frame is returned as it is.
   */
  lemma ChoosePreferredUnitSpec(df: Frame, preferred: Option<seq<string>>)
    ensures IsEmpty(df) ==> ChoosePreferredUnit(df, preferred) == df
    ensures var out, pref := ChoosePreferredUnit(df, preferred), preferred.GetOr(DefaultPreferredUnits);
      !IsEmpty(df) ==>
        && out.Table?
        && (forall r :: r in out.rows <==> r in df.rows && BestUnitOf(pref, df.rows, r))
        && (forall r :: r in out.rows ==> r.unit in pref)
        && (forall r, s :: r in out.rows && s in out.rows && r.concept == s.concept ==> r.unit == s.unit)
        && (forall x :: multiset(out.rows)[x] == if x in out.rows then multiset(df.rows)[x] else 0)
        && (forall r :: r in df.rows && r.unit in pref && UnitRank(pref, r.unit) < NotPreferred ==>
              exists s :: s in out.rows && s.concept == r.concept)
  {
    if !IsEmpty(df) {
      var pref := preferred.GetOr(DefaultPreferredUnits);
      var rows := df.rows;
      var out := ChoosePreferredUnit(df, preferred);
      assert out.rows == BestUnitRows(pref, RankedRows(pref, rows));
      ChosenRowsMembers(pref, rows);
      ChosenCopies(pref, rows);
      forall r, s | r in out.rows && s in out.rows && r.concept == s.concept ensures r.unit == s.unit {
        ChosenOneUnit(pref, rows, r, s);
      }
      forall r | r in rows && r.unit in pref && UnitRank(pref, r.unit) < NotPreferred
        ensures exists s :: s in out.rows && s.concept == r.concept
      {
        ChosenCovers(pref, rows, r);
      }
    }
  }

  // ---------------------------------------------------------------------
  // dedupe_keep_latest_filed
  // ---------------------------------------------------------------------

  /** The observation identity: concept, unit, start, end, fy, fp, form. */
  function DedupeKey(r: Fact): seq<Atom> {
    [Text(r.concept), Text(r.unit), OptNum(r.start), OptNum(r.end), OptNum(r.fy), OptText(r.fp), Text(r.form)]
  }

  /** The sort key: the identity, then the filing date (missing last). */
  function DedupeSortKey(r: Fact): seq<Atom> {
    DedupeKey(r) + [OptNum(r.filed)]
  }

  /** `dedupe_keep_latest_filed`: sort ascending, then keep the last row of each identity. */
  function DedupeKeepLatestFiled(df: Frame): Frame {
    if IsEmpty(df) then df
    else Table(KeepLast(SortBy(df.rows, DedupeSortKey), DedupeKey))
  }

  /** Filing date `a` is no later than `b`; a missing date counts as the latest. */
  predicate FiledNoLater(a: Option<Date>, b: Option<Date>) {
    b.None? || (a.Some? && a.value <= b.value)
  }

  /**
   * The deduplicated rows are drawn from the input, carry each identity of
   * the input exactly once and are ordered by the sort key; an empty frame
   * is returned as it is.
   */
  lemma DedupeShape(df: Frame)
    ensures IsEmpty(df) ==> DedupeKeepLatestFiled(df) == df
    ensures var out := DedupeKeepLatestFiled(df);
      !IsEmpty(df) ==>
        && out.Table? && out.rows != []
        && multiset(out.rows) <= multiset(df.rows)
        && UniqueKeys(out.rows, DedupeKey)
        && SortedBy(out.rows, DedupeSortKey)
        && forall r :: r in df.rows ==> exists x :: x in out.rows && DedupeKey(x) == DedupeKey(r)
  {
    if !IsEmpty(df) {
      var sorted := SortBy(df.rows, DedupeSortKey);
      var out := KeepLast(sorted, DedupeKey);
      KeepLastUnique(sorted, DedupeKey);
      KeepLastSorted(sorted, DedupeKey, DedupeSortKey);
      forall r | r in df.rows ensures exists x :: x in out && DedupeKey(x) == DedupeKey(r) {
        assert r in multiset(sorted);
        var i :| 0 <= i < |sorted| && sorted[i] == r;
        KeepLastCovers(sorted, DedupeKey, i);
      }
      assert df.rows[0] in df.rows;
    }
  }

  /** The kept row of an identity was filed no earlier than any input row of that identity. */
  lemma DedupeKeepsLatestFiled(df: Frame, x: Fact, r: Fact)
    requires !IsEmpty(df) && x in DedupeKeepLatestFiled(df).rows
    requires r in df.rows && DedupeKey(r) == DedupeKey(x)
    ensures FiledNoLater(r.filed, x.filed)
  {
    var sorted := SortBy(df.rows, DedupeSortKey);
    assert r in multiset(sorted);
    KeepLastIsMaximal(sorted, DedupeKey, DedupeSortKey, x, r);
    SameIdentityFiledOrder(r, x);
  }

  /** Two rows of one identity are ordered by the sort key as their filing dates are. */
  lemma SameIdentityFiledOrder(r: Fact, x: Fact)
    requires DedupeKey(r) == DedupeKey(x)
    requires KeyLe(DedupeSortKey(r), DedupeSortKey(x))
    ensures FiledNoLater(r.filed, x.filed)
  {
    KeyLeSamePrefix(DedupeKey(x), OptNum(r.filed), OptNum(x.filed));
    FiledOrder(r.filed, x.filed);
  }

  /** The filing-date sort atom orders dates ascending with a missing date last. */
  lemma FiledOrder(a: Option<Date>, b: Option<Date>)
    requires OptNum(a) == OptNum(b) || AtomLt(OptNum(a), OptNum(b))
    ensures FiledNoLater(a, b)
  {
  }

  /** Deduplicating a deduplicated frame changes nothing. */
  lemma DedupeIdempotent(df: Frame)
    ensures DedupeKeepLatestFiled(DedupeKeepLatestFiled(df)) == DedupeKeepLatestFiled(df)
  {
    DedupeShape(df);
    if !IsEmpty(df) {
      var out := DedupeKeepLatestFiled(df).rows;
      SortBySortedIsIdentity(out, DedupeSortKey);
      KeepLastOfUniqueIsIdentity(out, DedupeKey);
    }
  }

  // ---------------------------------------------------------------------
  // filter_forms, extract_concept_series
  // ---------------------------------------------------------------------

  /** `filter_forms`: the rows whose form is allowed, in order; an empty frame is returned as it is. */
  function FilterForms(df: Frame, forms: seq<string>): (r: Frame)
    ensures IsEmpty(df) ==> r == df
    ensures !IsEmpty(df) ==> r.Table? && forall x :: multiset(r.rows)[x] == if x.form in forms then multiset(df.rows)[x] else 0
    ensures !IsEmpty(df) ==> forall x :: x in r.rows <==> x in df.rows && x.form in forms
  {
    if IsEmpty(df) then df
    else
      var p := (x: Fact) => x.form in forms;
      FilterSpec(df.rows, p);
      Table(Filter(df.rows, p))
  }

  /** The series order: end date, then filing date, missing last. */
  function SeriesKey(r: Fact): seq<Atom> {
    [OptNum(r.end), OptNum(r.filed)]
  }

  /**
   * `extract_concept_series`: exactly the rows of one concept in one unit,
   * sorted by end date and filing date. An empty input gives a frame
   * without columns. The unit defaults to US dollars.
   */
  function ExtractConceptSeries(df: Frame, concept: string, unit: string := "USD"): (r: Frame)
    ensures IsEmpty(df) ==> r == Columnless
    ensures !IsEmpty(df) ==>
      && r.Table?
      && (forall x :: multiset(r.rows)[x] == if x.concept == concept && x.unit == unit then multiset(df.rows)[x] else 0)
      && SortedBy(r.rows, SeriesKey)
  {
    if IsEmpty(df) then Columnless
    else
      var p := (x: Fact) => x.concept == concept && x.unit == unit;
      FilterSpec(df.rows, p);
      Table(SortBy(Filter(df.rows, p), SeriesKey))
  }

  // ---------------------------------------------------------------------
  // summarize_concepts
  // ---------------------------------------------------------------------

  /** The number of concepts summarized when the caller does not say. */
  const DefaultTopN: int := 30

  /** The single-string sort key. */
  function TextKey(u: string): seq<Atom> {
    [Text(u)]
  }

  /** `sorted(set(xs))`: the distinct strings of `xs` in ascending order. */
  function SortedDistinct(xs: seq<string>): (r: seq<string>)
    ensures forall u :: u in r <==> u in xs
    ensures forall i, j :: 0 <= i < j < |r| ==> StrLt(r[i], r[j])
  {
    var r := KeepFirst(SortBy(xs, TextKey), Id);
    SortedDistinctMembers(xs, r);
    SortedDistinctAscending(xs, r);
    r
  }

  lemma SortedDistinctMembers(xs: seq<string>, r: seq<string>)
    requires r == KeepFirst(SortBy(xs, TextKey), Id)
    ensures forall u :: u in r <==> u in xs
  {
    var sorted := SortBy(xs, TextKey);
    forall u | u in r ensures u in xs {
      assert u in multiset(r);
      assert u in multiset(sorted);
    }
    forall u | u in xs ensures u in r {
      assert u in multiset(xs);
      assert u in multiset(sorted);
      var i :| 0 <= i < |sorted| && sorted[i] == u;
      KeepFirstCovers(sorted, Id, i);
    }
  }

  lemma SortedDistinctAscending(xs: seq<string>, r: seq<string>)
    requires r == KeepFirst(SortBy(xs, TextKey), Id)
    ensures forall i, j :: 0 <= i < j < |r| ==> StrLt(r[i], r[j])
  {
    var sorted := SortBy(xs, TextKey);
    KeepFirstSorted(sorted, Id, TextKey);
    KeepFirstUnique(sorted, Id);
    forall i, j | 0 <= i < j < |r| ensures StrLt(r[i], r[j]) {
      assert KeyLe(TextKey(r[i]), TextKey(r[j]));
      assert Id(r[i]) != Id(r[j]);
      assert TextKey(r[i])[1..] == [];
    }
  }

  /** One line of the summary: a concept, its row count and its distinct units. */
  datatype ConceptSummary = ConceptSummary(concept: string, rows: nat, units: seq<string>)

  /** The number of rows of concept `c` (the group's `size`). */
  function CountOf(rows: seq<Fact>, c: string): nat {
    if rows == [] then 0
    else CountOf(rows[..|rows| - 1], c) + (if rows[|rows| - 1].concept == c then 1 else 0)
  }

  /** The rows of concept `c`, in order. */
  function ConceptRowsOf(rows: seq<Fact>, c: string): seq<Fact> {
    Filter(rows, (r: Fact) => r.concept == c)
  }

  /** The group's `size` is the number of rows of the concept. */
  lemma {:induction false} CountOfSize(rows: seq<Fact>, c: string)
    ensures CountOf(rows, c) == |ConceptRowsOf(rows, c)|
    decreases |rows|
  {
    if rows != [] {
      var init, last := rows[..|rows| - 1], rows[|rows| - 1];
      assert rows == init + [last];
      CountOfSize(init, c);
      FilterSnoc(init, last, (r: Fact) => r.concept == c);
    }
  }

  /** The units of the rows of concept `c`, in row order. */
  function UnitsListed(rows: seq<Fact>, c: string): seq<string> {
    if rows == [] then []
    else UnitsListed(rows[..|rows| - 1], c) + (if rows[|rows| - 1].concept == c then [rows[|rows| - 1].unit] else [])
  }

  /** The `groupby("concept")` aggregate of one group. */
  function SummaryOf(rows: seq<Fact>, c: string): ConceptSummary {
    ConceptSummary(c, CountOf(rows, c), SortedDistinct(UnitsListed(rows, c)))
  }

  lemma {:induction false} UnitsListedMembers(rows: seq<Fact>, c: string)
    ensures forall u :: u in UnitsListed(rows, c) <==> exists i :: 0 <= i < |rows| && rows[i].concept == c && rows[i].unit == u
    decreases |rows|
  {
    if rows != [] {
      var init := rows[..|rows| - 1];
      UnitsListedMembers(init, c);
      assert forall i :: 0 <= i < |init| ==> init[i] == rows[i];
    }
  }

  /**
   * The aggregate of a concept lists, ascending and without repetition,
   * exactly the units its rows use.
   */
  lemma SummaryOfSpec(rows: seq<Fact>, c: string)
    ensures var s := SummaryOf(rows, c);
      && s.concept == c
      && (forall u :: u in s.units <==> exists i :: 0 <= i < |rows| && rows[i].concept == c && rows[i].unit == u)
      && (forall i, j :: 0 <= i < j < |s.units| ==> StrLt(s.units[i], s.units[j]))
  {
    UnitsListedMembers(rows, c);
  }

  /** The groups of a frame: its distinct concepts, ascending. */
  function ConceptsOf(rows: seq<Fact>): seq<string> {
    SortedDistinct(MapSeq(rows, (r: Fact) => r.concept))
  }

  /** The groups are exactly the concepts present, ascending and without repetition. */
  lemma ConceptsOfSpec(rows: seq<Fact>)
    ensures forall r :: r in rows ==> r.concept in ConceptsOf(rows)
    ensures forall c :: c in ConceptsOf(rows) ==> exists r :: r in rows && r.concept == c
    ensures var cs := ConceptsOf(rows); forall i, j :: 0 <= i < j < |cs| ==> StrLt(cs[i], cs[j])
  {
    var names := MapSeq(rows, (r: Fact) => r.concept);
    forall c | c in names ensures exists r :: r in rows && r.concept == c {
      var i :| 0 <= i < |names| && names[i] == c;
      assert rows[i] in rows;
    }
    forall r | r in rows ensures r.concept in names {
      var i :| 0 <= i < |rows| && rows[i] == r;
      assert names[i] == r.concept;
    }
  }

  /** Descending row count. */
  function SummaryKey(s: ConceptSummary): seq<Atom> {
    [Num(-(s.rows as int))]
  }

  function Summaries(rows: seq<Fact>): seq<ConceptSummary> {
    MapSeq(ConceptsOf(rows), (c: string) => SummaryOf(rows, c))
  }

  /** `summarize_concepts`: the `topN` concepts with the most rows. */
  function SummarizeConcepts(df: Frame, topN: int := DefaultTopN): seq<ConceptSummary> {
    if IsEmpty(df) then []
    else Head(SortBy(Summaries(df.rows), SummaryKey), topN)
  }

  /** Without a count, at most thirty concepts are summarized. */
  lemma SummarizeDefaultBound(df: Frame)
    ensures |SummarizeConcepts(df)| <= 30
  {
  }

  lemma SummaryKeyOrder(a: ConceptSummary, b: ConceptSummary)
    requires KeyLe(SummaryKey(a), SummaryKey(b))
    ensures a.rows >= b.rows
  {
    assert SummaryKey(a)[1..] == [] && SummaryKey(b)[1..] == [];
  }

  /** Every group is the aggregate of a concept of the frame, and every concept has its group. */
  lemma SummariesMembers(rows: seq<Fact>)
    ensures forall s :: s in Summaries(rows) ==> s.concept in ConceptsOf(rows) && s == SummaryOf(rows, s.concept)
    ensures forall c :: c in ConceptsOf(rows) ==> SummaryOf(rows, c) in Summaries(rows)
  {
    var cs := ConceptsOf(rows);
    var f := (c: string) => SummaryOf(rows, c);
    MapSeqMembers(cs, f);
  }

  /** No two groups share a concept. */
  lemma SummariesDistinctConcepts(rows: seq<Fact>)
    ensures var g := Summaries(rows); forall i, j :: 0 <= i < j < |g| ==> g[i].concept != g[j].concept
  {
    var cs := ConceptsOf(rows);
    var g := Summaries(rows);
    ConceptsOfSpec(rows);
    forall i, j | 0 <= i < j < |g| ensures g[i].concept != g[j].concept {
      assert g[i].concept == cs[i] && g[j].concept == cs[j];
      StrLtIrreflexive(cs[i]);
    }
  }

  /** The listed groups are a prefix of the groups sorted by descending row count. */
  lemma SummarizeOrdered(df: Frame, topN: int)
    requires !IsEmpty(df)
    ensures var out := SummarizeConcepts(df, topN);
      && (topN >= 0 ==> |out| <= topN)
      && (forall i, j :: 0 <= i < j < |out| ==> out[i].rows >= out[j].rows)
  {
    var sorted := SortBy(Summaries(df.rows), SummaryKey);
    var out := SummarizeConcepts(df, topN);
    assert out == sorted[..|out|];
    forall i, j | 0 <= i < j < |out| ensures out[i].rows >= out[j].rows {
      SummaryKeyOrder(sorted[i], sorted[j]);
    }
  }

  /** Each listed group is the aggregate of a concept of the frame, and no concept is listed twice. */
  lemma SummarizeGroups(df: Frame, topN: int)
    requires !IsEmpty(df)
    ensures var out := SummarizeConcepts(df, topN);
      && (forall s :: s in out ==> s.concept in ConceptsOf(df.rows) && s == SummaryOf(df.rows, s.concept))
      && (forall i, j :: 0 <= i < j < |out| ==> out[i].concept != out[j].concept)
  {
    var rows := df.rows;
    var g := Summaries(rows);
    var sorted := SortBy(g, SummaryKey);
    var out := SummarizeConcepts(df, topN);
    assert out == sorted[..|out|];
    SummariesMembers(rows);
    SummariesDistinctConcepts(rows);
    assert Distinct(g);
    DistinctOfPermutation(g, sorted);
    forall s | s in sorted ensures s.concept in ConceptsOf(rows) && s == SummaryOf(rows, s.concept) {
      assert s in multiset(sorted);
      assert s in g;
    }
    forall i, j | 0 <= i < j < |out| ensures out[i].concept != out[j].concept {
      assert sorted[i] in sorted && sorted[j] in sorted;
      assert sorted[i] != sorted[j];
    }
  }

  /** A concept left out of the summary has no more rows than any listed one. */
  lemma SummarizeTopRanked(df: Frame, topN: int, s: ConceptSummary, r: Fact)
    requires !IsEmpty(df)
    requires s in SummarizeConcepts(df, topN) && r in df.rows
    requires forall t :: t in SummarizeConcepts(df, topN) ==> t.concept != r.concept
    ensures SummaryOf(df.rows, r.concept).rows <= s.rows
  {
    var rows := df.rows;
    var sorted := SortBy(Summaries(rows), SummaryKey);
    var out := SummarizeConcepts(df, topN);
    assert out == sorted[..|out|];
    var c := SummaryOf(rows, r.concept);
    assert c in sorted by {
      SummariesMembers(rows);
      ConceptsOfSpec(rows);
      assert c in multiset(sorted);
    }
    SortedPrefixBelow(sorted, |out|, SummaryKey, s, c);
    SummaryKeyOrder(s, c);
  }

  /** When `topN` reaches the number of concepts, every concept is listed. */
  lemma SummarizeComplete(df: Frame, topN: int, r: Fact)
    requires !IsEmpty(df) && topN >= |ConceptsOf(df.rows)| && r in df.rows
    ensures exists s :: s in SummarizeConcepts(df, topN) && s.concept == r.concept
  {
    var rows := df.rows;
    var sorted := SortBy(Summaries(rows), SummaryKey);
    assert SummarizeConcepts(df, topN) == sorted;
    SummariesMembers(rows);
    ConceptsOfSpec(rows);
    assert SummaryOf(rows, r.concept) in multiset(sorted);
  }

  // ---------------------------------------------------------------------
  // normalize_pipeline
  // ---------------------------------------------------------------------

  /** The pipeline's frame: normalize, keep the preferred unit, deduplicate. */
  function PipelineFrame(cf: CompanyFacts, cfg: NormalizeConfig): Frame {
    DedupeKeepLatestFiled(ChoosePreferredUnit(NormalizedFrame(cf, cfg), Some(cfg.preferredUnits)))
  }

  /**
   * Every normalized row in its concept's best preferred unit is stood for
   * in the pipeline's frame by a row of the same identity, filed no earlier.
   */
  lemma PipelineKeepsLatest(cf: CompanyFacts, c: NormalizeConfig, r: Fact)
    requires r in NormalizedRows(cf, c) && BestUnitOf(c.preferredUnits, NormalizedRows(cf, c), r)
    ensures var df := PipelineFrame(cf, c);
      && df.Table?
      && exists x :: x in df.rows && DedupeKey(x) == DedupeKey(r) && FiledNoLater(r.filed, x.filed)
  {
    var rows, pref := NormalizedRows(cf, c), c.preferredUnits;
    var chosen := BestUnitRows(pref, RankedRows(pref, rows));
    assert ChoosePreferredUnit(NormalizedFrame(cf, c), Some(pref)) == Table(chosen);
    ChosenRowsMembers(pref, rows);
    assert r in chosen;
    var out := DedupeKeepLatestFiled(Table(chosen));
    assert PipelineFrame(cf, c) == out;
    DedupeShape(Table(chosen));
    var x :| x in out.rows && DedupeKey(x) == DedupeKey(r);
    DedupeKeepsLatestFiled(Table(chosen), x, r);
  }

  /**
   * The pipeline's frame has no columns exactly when no record was kept;
   * otherwise its rows are normalized rows in a preferred unit, one per
   * observation identity, and every normalized row in its concept's best
   * unit has its identity there, filed no earlier.
   */
  lemma PipelineFrameSpec(cf: CompanyFacts, c: NormalizeConfig)
    ensures PipelineFrame(cf, c).Columnless? <==> NormalizedRows(cf, c) == []
    ensures var df := PipelineFrame(cf, c);
      df.Table? ==>
        && UniqueKeys(df.rows, DedupeKey)
        && forall r :: r in df.rows ==>
             && r in NormalizedRows(cf, c)
             && r.unit in c.preferredUnits
             && BestUnitOf(c.preferredUnits, NormalizedRows(cf, c), r)
    ensures forall r :: r in NormalizedRows(cf, c) && BestUnitOf(c.preferredUnits, NormalizedRows(cf, c), r) ==>
      var df := PipelineFrame(cf, c);
      && df.Table?
      && exists x :: x in df.rows && DedupeKey(x) == DedupeKey(r) && FiledNoLater(r.filed, x.filed)
  {
    forall r | r in NormalizedRows(cf, c) && BestUnitOf(c.preferredUnits, NormalizedRows(cf, c), r)
      ensures var df := PipelineFrame(cf, c);
        && df.Table?
        && exists x :: x in df.rows && DedupeKey(x) == DedupeKey(r) && FiledNoLater(r.filed, x.filed)
    {
      PipelineKeepsLatest(cf, c, r);
    }
    var rows, pref := NormalizedRows(cf, c), c.preferredUnits;
    if rows != [] {
      var chosen := BestUnitRows(pref, RankedRows(pref, rows));
      assert ChoosePreferredUnit(NormalizedFrame(cf, c), Some(pref)) == Table(chosen);
      ChosenRowsMembers(pref, rows);
      if chosen != [] {
        var sorted := SortBy(chosen, DedupeSortKey);
        var out := KeepLast(sorted, DedupeKey);
        assert PipelineFrame(cf, c) == Table(out);
        KeepLastUnique(sorted, DedupeKey);
        forall r | r in out ensures r in chosen {
          assert r in multiset(out);
          assert r in multiset(sorted);
        }
      }
    }
  }

  /**
   * `normalize_pipeline`. A missing configuration is the default one; the
   * frame returned is the pipeline's frame.
   */
  method NormalizePipeline(cf: CompanyFacts, cfg: Option<NormalizeConfig>) returns (df: Frame)
    ensures df == PipelineFrame(cf, cfg.GetOr(DefaultNormalizeConfig()))
  {
    var c := cfg.GetOr(DefaultNormalizeConfig());
    var normalized := NormalizeCompanyFacts(cf, c);
    var chosen := ChoosePreferredUnit(normalized, Some(c.preferredUnits));
    df := DedupeKeepLatestFiled(chosen);
  }
}
