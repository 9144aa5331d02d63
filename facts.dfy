/**
 * The normalized fact row and the fact table, shared by the normalizer and
 * the reconciliation engine.
 */
module Facts {
  import opened Wrappers
  import opened Ordering

  /** A calendar date as a day ordinal: days since 1970-01-01 (proleptic Gregorian). */
  type Date = int

  /** Days of the era before its year `yoe` (era years start on 1 March). */
  function DaysBefore(yoe: int): int {
    365 * yoe + yoe / 4 - yoe / 100
  }

  /** The year of the era holding its day `doe`. */
  function Yoe(doe: int): int {
    (doe - doe / 1460 + doe / 36524 - doe / 146096) / 365
  }

  /** The civil year of day `doy` (from 1 March) of era year `yoe`: January and February belong to the next one. */
  function YearFrom(yoe: int, doy: int): int {
    var mp := (5 * doy + 2) / 153;
    var month := if mp < 10 then mp + 3 else mp - 9;
    yoe + (if month <= 2 then 1 else 0)
  }

  /** The civil year, counted from the era's start, of the era's day `doe`. */
  function EraYear(doe: int): int {
    var yoe := Yoe(doe);
    YearFrom(yoe, doe - DaysBefore(yoe))
  }

  /** Calendar year of a day ordinal (inverse of the days-from-civil count). */
  function YearOf(d: Date): int {
    var z := d + 719468;
    var era := z / 146097;
    EraYear(z - era * 146097) + era * 400
  }

  /** Within an era the era year grows by at most one from day to day. */
  lemma YoeStep(doe: int)
    requires 0 <= doe < 146096
    ensures Yoe(doe) <= Yoe(doe + 1) <= Yoe(doe) + 1
  {
    var a, a1 := doe / 1460, (doe + 1) / 1460;
    var b, b1 := doe / 36524, (doe + 1) / 36524;
    var n := doe - a + b - doe / 146096;
    var n1 := doe + 1 - a1 + b1 - (doe + 1) / 146096;
    assert a1 == a || a1 == a + 1;
    assert b1 == b || b1 == b + 1;
    assert doe / 146096 == 0;
    if doe + 1 == 146096 {
      assert a == 100 && a1 == 100 && b == 3 && b1 == 4 && (doe + 1) / 146096 == 1;
    } else if (doe + 1) % 36524 == 0 {
      // a century day of the era is never a multiple of 1460 as well
      assert 1 <= b1 <= 3 && doe + 1 == 36524 * b1;
      assert (doe + 1) % 1460 == 24 * b1;
      assert a1 == a && (doe + 1) / 146096 == 0;
    } else {
      assert b1 == b && (doe + 1) / 146096 == 0;
    }
    assert n <= n1 <= n + 2;
    assert Yoe(doe) == n / 365 && Yoe(doe + 1) == n1 / 365;
  }

  /** The day within the era year, one century of the era at a time. */
  lemma DoyBoundsIn(doe: int, c: int)
    requires 0 <= c <= 3 && 36524 * c <= doe < 36524 * (c + 1)
    ensures 0 <= doe - DaysBefore(Yoe(doe)) <= 365
  {
    var a := doe / 1460;
    assert doe / 36524 == c && doe / 146096 == 0;
    var n := doe - a + c;
    assert Yoe(doe) == n / 365;
    var y := n / 365;
    assert 100 * c <= y < 100 * c + 100;
    assert y / 100 == c;
    var q := y / 4;
    assert DaysBefore(y) == 365 * y + q - c;
  }

  /** Every day of an era lies within its era year: 0 to 365 days after the year's 1 March. */
  lemma DoyBounds(doe: int)
    requires 0 <= doe <= 146096
    ensures 0 <= doe - DaysBefore(Yoe(doe)) <= 365
  {
    var c := doe / 36524;
    if c < 4 {
      DoyBoundsIn(doe, c);
    } else {
      assert doe == 146096 && Yoe(doe) == 399 && DaysBefore(399) == 145731;
    }
  }

  /** An era year has 365 or 366 days. */
  lemma DaysBeforeStep(yoe: int)
    ensures 365 <= DaysBefore(yoe + 1) - DaysBefore(yoe) <= 366
  {
    assert (yoe + 1) / 4 - yoe / 4 <= 1 && (yoe + 1) / 100 - yoe / 100 >= 0;
    assert (yoe + 1) / 100 - yoe / 100 <= 1 && (yoe + 1) / 4 - yoe / 4 >= 0;
  }

  /** The next day of the same era year, or the first day of the next one, keeps or grows the civil year by one. */
  lemma YearFromStep(yoe: int, doy: int, yoe1: int, doy1: int)
    requires 0 <= doy <= 365 && 0 <= doy1 <= 365
    requires (yoe1 == yoe && doy1 == doy + 1) || (yoe1 == yoe + 1 && doy1 <= doy - 364)
    ensures YearFrom(yoe, doy) <= YearFrom(yoe1, doy1) <= YearFrom(yoe, doy) + 1
  {
    assert ((5 * doy + 2) / 153 >= 10) <==> doy >= 306;
    assert ((5 * doy1 + 2) / 153 >= 10) <==> doy1 >= 306;
  }

  /** Within an era the civil year grows by at most one from day to day. */
  lemma EraYearStep(doe: int)
    requires 0 <= doe < 146096
    ensures EraYear(doe) <= EraYear(doe + 1) <= EraYear(doe) + 1
  {
    var y, y1 := Yoe(doe), Yoe(doe + 1);
    YoeStep(doe);
    DaysBeforeStep(y);
    DoyBounds(doe);
    DoyBounds(doe + 1);
    YearFromStep(y, doe - DaysBefore(y), y1, doe + 1 - DaysBefore(y1));
  }

  /** The last day of an era closes its 400 years. */
  lemma EraEndHigh()
    ensures EraYear(146096) == 400
  {
    assert Yoe(146096) == 399;
    assert DaysBefore(399) == 145731;
    assert YearFrom(399, 365) == 400;
  }

  lemma YoeZero()
    ensures Yoe(0) == 0 && DaysBefore(0) == 0
  {
  }

  lemma YearFromZero()
    ensures YearFrom(0, 0) == 0
  {
  }

  /** The first day of an era (1 March) is in its year 0. */
  lemma EraEndLow()
    ensures EraYear(0) == 0
  {
    YoeZero();
    YearFromZero();
  }

  /** A day ordinal split into its era and its day of the era. */
  lemma YearOfParts(d: Date, era: int, doe: int)
    requires 0 <= doe < 146097 && d + 719468 == era * 146097 + doe
    ensures YearOf(d) == EraYear(doe) + era * 400
  {
    assert (d + 719468) / 146097 == era;
  }

  /** From one day to the next the year stays or grows by one. */
  lemma YearOfStep(d: Date)
    ensures YearOf(d) <= YearOf(d + 1) <= YearOf(d) + 1
  {
    var era, doe := (d + 719468) / 146097, (d + 719468) % 146097;
    if doe < 146096 {
      StepWithinEra(d, era, doe);
    } else {
      StepAcrossEras(d, era);
    }
  }

  /** The step from a day to the next inside one era. */
  lemma StepWithinEra(d: Date, era: int, doe: int)
    requires 0 <= doe < 146096 && d + 719468 == era * 146097 + doe
    ensures YearOf(d) <= YearOf(d + 1) <= YearOf(d) + 1
  {
    YearOfParts(d, era, doe);
    YearOfParts(d + 1, era, doe + 1);
    EraYearStep(doe);
  }

  /** The step from an era's last day (29 February) to the next era's first (1 March). */
  lemma StepAcrossEras(d: Date, era: int)
    requires d + 719468 == era * 146097 + 146096
    ensures YearOf(d) <= YearOf(d + 1) <= YearOf(d) + 1
  {
    YearOfParts(d, era, 146096);
    YearOfParts(d + 1, era + 1, 0);
    EraEndHigh();
    EraEndLow();
  }

  /** Later dates never fall in earlier years. */
  lemma {:induction false} YearOfMonotone(d: Date, e: Date)
    requires d <= e
    ensures YearOf(d) <= YearOf(e)
    decreases e - d
  {
    if d < e {
      YearOfMonotone(d, e - 1);
      YearOfStep(e - 1);
    }
  }

  /** Day 0 is 1970-01-01. */
  lemma YearOfEpoch()
    ensures YearOf(0) == 1970
  {
    assert 719468 / 146097 == 4;
    assert Yoe(135080) == 369 && DaysBefore(369) == 134774;
    assert YearFrom(369, 306) == 370;
  }

  /** The Gregorian calendar repeats every 400 years, which are 146097 days. */
  lemma YearOfCycle(d: Date)
    ensures YearOf(d + 146097) == YearOf(d) + 400
  {
    CycleOfParts(d, (d + 719468) / 146097, (d + 719468) % 146097);
  }

  lemma CycleOfParts(d: Date, era: int, doe: int)
    requires 0 <= doe < 146097 && d + 719468 == era * 146097 + doe
    ensures YearOf(d + 146097) == YearOf(d) + 400
  {
    YearOfParts(d, era, doe);
    YearOfParts(d + 146097, era + 1, doe);
  }

  /** Derived from the start date: no start means a point-in-time balance. */
  datatype PeriodType = Instant | Duration

  /** One normalized observation; every parsed cell that can be missing is an `Option`. */
  datatype Fact = Fact(
    taxonomy: string,
    concept: string,
    labelText: string,
    description: string,
    unit: string,
    value: Option<real>,
    start: Option<Date>,
    end: Option<Date>,
    fy: Option<int>,
    fp: Option<string>,
    form: string,
    filed: Option<Date>,
    frame: Option<string>,
    accn: Option<string>,
    qtrs: Option<int>,
    hasDimensions: bool,
    periodType: PeriodType)

  /**
   * A fact table. A table built from no rows has no columns at all
   * (`Columnless`); otherwise every normalized column is present, possibly
   * with zero rows after filtering.
   */
  datatype Frame = Columnless | Table(rows: seq<Fact>)

  /** The frame has no rows (with or without columns). */
  predicate IsEmpty(df: Frame) {
    df.Columnless? || df.rows == []
  }

  /** Sort atom of an optional date or integer, missing last. */
  function OptNum(x: Option<int>): Atom {
    match x
    case Some(v) => Num(v)
    case None => Missing
  }

  /** Sort atom of an optional date or integer in descending order, missing still last. */
  function OptNumDesc(x: Option<int>): Atom {
    match x
    case Some(v) => Num(-v)
    case None => Missing
  }

  function OptText(x: Option<string>): Atom {
    match x
    case Some(v) => Text(v)
    case None => Missing
  }
}
