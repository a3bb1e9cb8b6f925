/**
 * `load_data`: the admission table as read from the CSV file, the column
 * conversions applied to it, the derived Length of Stay column, and the
 * monthly (month label, Medical Condition) admission counts.
 *
 * The CSV file itself is not read here: a load starts from its rows, one
 * `RawRecord` per line, with each cell as text.  The two date cells arrive
 * already classified by the date parser as either a calendar date or text
 * it cannot read.
 */
module HealthData {
  import opened Wrappers
  import opened Calendar
  import opened Ordering
  import opened Grouping
  import opened NumericText

  /** A date cell after the date parser has looked at it. */
  datatype DateCell = Parsed(date: CivilDate) | Unparsable(text: string)

  /**
   * One CSV row.  `name` is absent when the cell is blank; columns that the
   * pipeline never reads (Doctor, Hospital, Insurance Provider, Room Number,
   * Test Results) travel unchanged in `otherColumns`.
   */
  datatype RawRecord = RawRecord(
    name: Option<string>,
    age: string,
    gender: string,
    bloodType: string,
    condition: string,
    admission: DateCell,
    discharge: DateCell,
    billing: string,
    admissionType: string,
    medication: string,
    otherColumns: seq<string>)

  /** One row of the preprocessed table. */
  datatype Record = Record(
    name: Option<string>,
    age: Option<real>,
    gender: string,
    bloodType: string,
    condition: string,
    admission: CivilDate,
    discharge: CivilDate,
    billing: Option<real>,
    admissionType: string,
    medication: string,
    otherColumns: seq<string>,
    lengthOfStay: int)

  datatype DateColumn = DateOfAdmission | DischargeDate

  /** The exception raised by a date conversion, with the first offending row. */
  datatype LoadError = UnparsableDate(column: DateColumn, row: nat)

  /** One row of the monthly aggregate. */
  datatype MonthlyRow = MonthlyRow(month: CivilDate, condition: string, count: nat)

  /** What `load_data` returns: the table and its monthly aggregate. */
  datatype Loaded = Loaded(data: seq<Record>, monthly: seq<MonthlyRow>)

  // ---------------------------------------------------------------------
  // Column conversions

  /** The cell of a row in one of the two date columns. */
  function Cell(x: RawRecord, column: DateColumn): DateCell
  {
    match column
    case DateOfAdmission => x.admission
    case DischargeDate => x.discharge
  }

  /**
   * `pd.to_datetime(data[column])` with the default `errors='raise'`: every
   * cell becomes its date, or the conversion fails at the first cell it
   * cannot read.
   */
  function ToDatetime(raw: seq<RawRecord>, column: DateColumn): (r: Result<seq<CivilDate>, nat>)
    ensures r.Success? <==> forall i :: 0 <= i < |raw| ==> Cell(raw[i], column).Parsed?
    ensures r.Success? ==> |r.value| == |raw| && forall i :: 0 <= i < |raw| ==> Cell(raw[i], column) == Parsed(r.value[i])
    ensures r.Failure? ==> r.error < |raw| && Cell(raw[r.error], column).Unparsable?
                           && forall i :: 0 <= i < r.error ==> Cell(raw[i], column).Parsed?
  {
    if raw == [] then Success([])
    else match Cell(raw[0], column)
      case Unparsable(_) => Failure(0)
      case Parsed(d) =>
        match ToDatetime(raw[1..], column)
        case Success(ds) => Success([d] + ds)
        case Failure(i) => Failure(i + 1)
  }

  /**
   * What preprocessing makes of one row, once both of its dates are known:
   * Age and Billing Amount coerced with `to_numeric(errors='coerce')`, the
   * stay computed from the two dates, every other column unchanged.
   */
  function Preprocess(x: RawRecord, admission: CivilDate, discharge: CivilDate): Record
  {
    Record(x.name, ParseNumber(x.age), x.gender, x.bloodType, x.condition,
           admission, discharge, ParseNumber(x.billing), x.admissionType,
           x.medication, x.otherColumns, StayDays(admission, discharge))
  }

  function PreprocessAll(raw: seq<RawRecord>, admissions: seq<CivilDate>, discharges: seq<CivilDate>): (data: seq<Record>)
    requires |admissions| == |raw| && |discharges| == |raw|
    ensures |data| == |raw|
    ensures forall i :: 0 <= i < |raw| ==> data[i] == Preprocess(raw[i], admissions[i], discharges[i])
  {
    if raw == [] then []
    else [Preprocess(raw[0], admissions[0], discharges[0])] + PreprocessAll(raw[1..], admissions[1..], discharges[1..])
  }

  /**
   * Reference definition of one preprocessed row: its dates are the parsed
   * date cells, Age and Billing Amount are their text read as numbers (or
   * missing), Length of Stay is the whole-day difference of the dates, and
   * every other column is copied.
   */
  predicate IsPreprocessed(x: RawRecord, d: Record)
  {
    && x.admission == Parsed(d.admission)
    && x.discharge == Parsed(d.discharge)
    && d.age == ParseNumber(x.age)
    && d.billing == ParseNumber(x.billing)
    && d.lengthOfStay == DayNumber(d.discharge) - DayNumber(d.admission)
    && d.name == x.name && d.gender == x.gender && d.bloodType == x.bloodType
    && d.condition == x.condition && d.admissionType == x.admissionType
    && d.medication == x.medication && d.otherColumns == x.otherColumns
  }

  // ---------------------------------------------------------------------
  // Monthly aggregate

  /** The group key of a row: its `freq='M'` month label and its condition. */
  function MonthKey(d: Record): (CivilDate, string)
  {
    (MonthEnd(d.admission), d.condition)
  }

  function ToMonthlyRows(ps: seq<KeyCount<(CivilDate, string)>>): (rows: seq<MonthlyRow>)
    ensures |rows| == |ps|
    ensures forall i :: 0 <= i < |ps| ==> rows[i] == MonthlyRow(ps[i].key.0, ps[i].key.1, ps[i].count)
  {
    if ps == [] then [] else [MonthlyRow(ps[0].key.0, ps[0].key.1, ps[0].count)] + ToMonthlyRows(ps[1..])
  }

  /** `groupby([Grouper(freq='M'), 'Medical Condition']).size()`. */
  function MonthlyAggregate(data: seq<Record>): seq<MonthlyRow>
  {
    ToMonthlyRows(Sizes(GroupBy(data, MonthKey, MonthKeyLt)))
  }

  /** The rows admitted in the month labelled m with condition c. */
  function AdmittedIn(data: seq<Record>, m: CivilDate, c: string): seq<Record>
  {
    WithKey(data, MonthKey, (m, c))
  }

  function MonthlyTotal(rows: seq<MonthlyRow>): nat
  {
    if rows == [] then 0 else rows[0].count + MonthlyTotal(rows[1..])
  }

  predicate RowsIncreasing(rows: seq<MonthlyRow>)
  {
    forall i, j :: 0 <= i < j < |rows| ==> MonthKeyLt((rows[i].month, rows[i].condition), (rows[j].month, rows[j].condition))
  }

  // ---------------------------------------------------------------------
  // The load

  /** Every date cell of every row is a date the parser could read. */
  predicate DatesReadable(raw: seq<RawRecord>)
  {
    forall i :: 0 <= i < |raw| ==> raw[i].admission.Parsed? && raw[i].discharge.Parsed?
  }

  /**
   * `load_data` from the CSV rows onward.  Date of Admission is converted
   * first, so an unreadable admission date is the one reported even when a
   * discharge date is unreadable too.
   */
  function LoadData(raw: seq<RawRecord>): (r: Result<Loaded, LoadError>)
    ensures r.Success? <==> DatesReadable(raw)
    ensures r.Success? ==> |r.value.data| == |raw|
    ensures r.Success? ==> forall i :: 0 <= i < |raw| ==> IsPreprocessed(raw[i], r.value.data[i])
    ensures r.Success? ==> r.value.monthly == MonthlyAggregate(r.value.data)
    ensures r.Failure? && r.error.column == DateOfAdmission ==>
      && r.error.row < |raw| && raw[r.error.row].admission.Unparsable?
      && forall i :: 0 <= i < r.error.row ==> raw[i].admission.Parsed?
    ensures r.Failure? && r.error.column == DischargeDate ==>
      && (forall i :: 0 <= i < |raw| ==> raw[i].admission.Parsed?)
      && r.error.row < |raw| && raw[r.error.row].discharge.Unparsable?
      && forall i :: 0 <= i < r.error.row ==> raw[i].discharge.Parsed?
  {
    match ToDatetime(raw, DateOfAdmission)
    case Failure(i) => Failure(UnparsableDate(DateOfAdmission, i))
    case Success(admissions) =>
      match ToDatetime(raw, DischargeDate)
      case Failure(i) => Failure(UnparsableDate(DischargeDate, i))
      case Success(discharges) =>
        var data := PreprocessAll(raw, admissions, discharges);
        assert forall i :: 0 <= i < |raw| ==> IsPreprocessed(raw[i], data[i]) by {
          forall i | 0 <= i < |raw| ensures IsPreprocessed(raw[i], data[i]) {
            assert raw[i].admission == Parsed(admissions[i]) && raw[i].discharge == Parsed(discharges[i]);
          }
        }
        Success(Loaded(data, MonthlyAggregate(data)))
  }

  // ---------------------------------------------------------------------
  // Properties of the load

  /**
   * Unreadable Age or Billing Amount text never aborts the load: changing
   * those two cells of any row never turns a successful load into a failed
   * one, nor the reverse.
   */
  lemma CoercionNeverAborts(raw: seq<RawRecord>, j: nat, age: string, billing: string)
    requires j < |raw|
    ensures var raw' := raw[j := raw[j].(age := age, billing := billing)];
      LoadData(raw').Success? == LoadData(raw).Success?
  {
    var raw' := raw[j := raw[j].(age := age, billing := billing)];
    assert DatesReadable(raw') == DatesReadable(raw) by {
      assert forall i :: 0 <= i < |raw| ==> raw'[i].admission == raw[i].admission && raw'[i].discharge == raw[i].discharge;
    }
  }

  /** A row whose Age text holds a character that cannot occur in a number loads with Age missing. */
  lemma NonNumericAgeIsMissing(raw: seq<RawRecord>, j: nat, k: nat)
    requires LoadData(raw).Success? && j < |raw|
    requires k < |raw[j].age| && !IsDigit(raw[j].age[k]) && raw[j].age[k] !in {'.', '-', '+'}
    ensures LoadData(raw).value.data[j].age == None
  {
    NonNumeralIsMissing(raw[j].age, k);
  }

  /** Billing written with exact cents loads as that amount. */
  lemma CentsBillingLoads(raw: seq<RawRecord>, j: nat, cents: int)
    requires LoadData(raw).Success? && j < |raw| && raw[j].billing == ShowCents(cents)
    ensures LoadData(raw).value.data[j].billing == Some(cents as real / 100.0)
  {
    ParseShowCents(cents);
  }

  /**
   * Length of Stay counts whole days: a stay of one more day ends one
   * calendar day later, it is zero exactly for a same-day discharge, and it
   * is negative, not clamped, exactly when discharge precedes admission.
   */
  lemma LengthOfStaySpec(raw: seq<RawRecord>, j: nat)
    requires LoadData(raw).Success? && j < |raw|
    ensures var d := LoadData(raw).value.data[j];
      && (d.lengthOfStay < 0 <==> Before(d.discharge, d.admission))
      && (d.lengthOfStay == 0 <==> d.discharge == d.admission)
      && d.lengthOfStay + 1 == StayDays(d.admission, NextDay(d.discharge))
  {
    var d := LoadData(raw).value.data[j];
    DayNumberNextDay(d.discharge);
  }

  lemma {:induction false} ToMonthlyRowsTotal(ps: seq<KeyCount<(CivilDate, string)>>)
    ensures MonthlyTotal(ToMonthlyRows(ps)) == TotalCount(ps)
  {
    if ps != [] {
      ToMonthlyRowsTotal(ps[1..]);
      assert ToMonthlyRows(ps)[1..] == ToMonthlyRows(ps[1..]);
    }
  }

  /**
   * The monthly aggregate: rows in strictly ascending (month label,
   * condition) order, so at most one row per pair; each row counts exactly
   * the records of its month and condition, at least one, and its label is
   * the last day of a month; and every record is counted under its own
   * month label and condition.
   */
  lemma MonthlyAggregateSpec(data: seq<Record>)
    ensures var rows := MonthlyAggregate(data);
      && RowsIncreasing(rows)
      && (forall i :: 0 <= i < |rows| ==>
            && rows[i].count == |AdmittedIn(data, rows[i].month, rows[i].condition)| > 0
            && rows[i].month == MonthEnd(rows[i].month))
      && (forall j :: 0 <= j < |data| ==>
            MonthlyRow(MonthEnd(data[j].admission), data[j].condition,
                       |AdmittedIn(data, MonthEnd(data[j].admission), data[j].condition)|) in rows)
  {
    var gs := GroupBy(data, MonthKey, MonthKeyLt);
    var rows := MonthlyAggregate(data);
    MonthKeyLtIsStrictTotalOrder();
    GroupByPartition(data, MonthKey, MonthKeyLt);
    forall i | 0 <= i < |rows|
      ensures rows[i].month == MonthEnd(rows[i].month)
    {
      var m := gs[i].members[0];
      assert m in WithKey(data, MonthKey, gs[i].key);
      WithKeyMembers(data, MonthKey, gs[i].key);
    }
    forall j | 0 <= j < |data|
      ensures MonthlyRow(MonthEnd(data[j].admission), data[j].condition,
                         |AdmittedIn(data, MonthEnd(data[j].admission), data[j].condition)|) in rows
    {
      var i :| 0 <= i < |gs| && Keys(gs)[i] == MonthKey(data[j]);
      assert rows[i] == MonthlyRow(MonthEnd(data[j].admission), data[j].condition,
                                   |AdmittedIn(data, MonthEnd(data[j].admission), data[j].condition)|);
    }
  }

  /** Every record is counted in exactly one monthly row: the counts add up to the number of records. */
  lemma MonthlyCountsTotal(data: seq<Record>)
    ensures MonthlyTotal(MonthlyAggregate(data)) == |data|
  {
    var p := (k: (CivilDate, string)) => true;
    GroupBySizesTotal(data, MonthKey, MonthKeyLt, p);
    ToMonthlyRowsTotal(Sizes(GroupBy(data, MonthKey, MonthKeyLt)));
  }
}
