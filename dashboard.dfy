/**
 * `update_dashboard`: one recomputation of the dashboard after a control
 * changes.  The loaded table is filtered by the four controls, and the
 * summary cards, the chart inputs, the diagnosis × medication pivot and the
 * data table are computed from the kept rows; the monthly admission counts
 * are filtered separately for the line chart.
 */
module Dashboard {
  import opened Wrappers
  import opened Calendar
  import opened Ordering
  import opened Grouping
  import opened Stats
  import opened HealthData

  /**
   * The control values: the condition dropdown, the two ends of the age
   * slider, the gender checklist and the two ends of the date picker.
   */
  datatype Selection = Selection(
    conditions: seq<string>,
    ageLow: int,
    ageHigh: int,
    genders: seq<string>,
    start: CivilDate,
    end: CivilDate)

  /** The four summary cards, with exact rather than rounded values. */
  datatype SummaryCards = SummaryCards(
    totalPatients: nat,
    averageAge: real,
    totalBilling: real,
    averageStay: real)

  /**
   * `pivot_table(index='Medical Condition', columns='Medication',
   * values='Name', aggfunc='count', fill_value=0)`: `cells[i][j]` belongs to
   * `conditions[i]` and `medications[j]`.
   */
  datatype Pivot = Pivot(conditions: seq<string>, medications: seq<string>, cells: seq<seq<nat>>)

  /** Everything the callback hands to the page, figures replaced by the data they plot. */
  datatype DashboardView = DashboardView(
    cards: SummaryCards,
    monthlyAdmissions: seq<MonthlyRow>,
    billingByAdmissionType: seq<KeyTotal<string>>,
    medicationCounts: seq<KeyCount<string>>,
    bloodTypeCounts: seq<KeyCount<string>>,
    bloodTypeByAdmissionType: seq<KeyCount<(string, string)>>,
    diagnosisMedication: Pivot,
    table: seq<Record>)

  // ---------------------------------------------------------------------
  // Column accessors used as group keys

  function ConditionOf(d: Record): string { d.condition }
  function MedicationOf(d: Record): string { d.medication }
  function BloodTypeOf(d: Record): string { d.bloodType }
  function AdmissionTypeOf(d: Record): string { d.admissionType }
  function BloodAdmissionKey(d: Record): (string, string) { (d.bloodType, d.admissionType) }
  function ConditionMedicationKey(d: Record): (string, string) { (d.condition, d.medication) }
  function HasName(d: Record): bool { d.name.Some? }

  /** `sum()` skips missing values: a missing Billing Amount adds nothing. */
  function BillingOrZero(d: Record): real
  {
    if d.billing.Some? then d.billing.value else 0.0
  }

  // ---------------------------------------------------------------------
  // The row filter

  /** A missing Age compares false with both ends, so it never passes. */
  predicate AgeWithin(age: Option<real>, low: int, high: int)
  {
    age.Some? && low as real <= age.value && age.value <= high as real
  }

  /** The boolean mask: all four tests hold, every range inclusive. */
  predicate Keep(d: Record, sel: Selection)
  {
    && d.condition in sel.conditions
    && AgeWithin(d.age, sel.ageLow, sel.ageHigh)
    && d.gender in sel.genders
    && NotAfter(sel.start, d.admission) && NotAfter(d.admission, sel.end)
  }

  /** `data[mask]`. */
  function Filter(data: seq<Record>, sel: Selection): seq<Record>
  {
    if data == [] then []
    else Filter(data[..|data| - 1], sel) + (if Keep(data[|data| - 1], sel) then [data[|data| - 1]] else [])
  }

  /** The index labels of the rows the mask keeps. */
  function KeptPositions(data: seq<Record>, sel: Selection): seq<nat>
  {
    if data == [] then []
    else KeptPositions(data[..|data| - 1], sel) + (if Keep(data[|data| - 1], sel) then [|data| - 1] else [])
  }

  // ---------------------------------------------------------------------
  // Summary cards

  /** The Age values present among the rows, in order (`mean()` skips missing values). */
  function PresentAges(rows: seq<Record>): (ages: seq<real>)
    ensures |ages| <= |rows|
  {
    if rows == [] then []
    else PresentAges(rows[..|rows| - 1]) + (if rows[|rows| - 1].age.Some? then [rows[|rows| - 1].age.value] else [])
  }

  function Stays(rows: seq<Record>): (stays: seq<real>)
    ensures |stays| == |rows| && forall i :: 0 <= i < |rows| ==> stays[i] == rows[i].lengthOfStay as real
  {
    if rows == [] then [] else [rows[0].lengthOfStay as real] + Stays(rows[1..])
  }

  // ---------------------------------------------------------------------
  // Monthly line chart

  /** The monthly mask: condition selected and month label within the date range. */
  predicate KeepMonthly(row: MonthlyRow, sel: Selection)
  {
    row.condition in sel.conditions && NotAfter(sel.start, row.month) && NotAfter(row.month, sel.end)
  }

  /** `monthly_data[mask]`: exactly the rows the monthly mask keeps. */
  function FilterMonthly(rows: seq<MonthlyRow>, sel: Selection): (out: seq<MonthlyRow>)
    ensures forall k :: 0 <= k < |out| ==> out[k] in rows && KeepMonthly(out[k], sel)
    ensures forall i :: 0 <= i < |rows| && KeepMonthly(rows[i], sel) ==> rows[i] in out
  {
    if rows == [] then []
    else (if KeepMonthly(rows[0], sel) then [rows[0]] else []) + FilterMonthly(rows[1..], sel)
  }

  // ---------------------------------------------------------------------
  // Diagnosis × medication pivot

  /** The rows whose Name is present: `count` of Name counts only those. */
  function Named(rows: seq<Record>): seq<Record>
  {
    WithKey(rows, HasName, true)
  }

  function PivotCells(named: seq<Record>, conditions: seq<string>, medications: seq<string>): (cells: seq<seq<nat>>)
    ensures |cells| == |conditions|
    ensures forall i :: 0 <= i < |conditions| ==>
      cells[i] == CountsFor(WithKey(named, ConditionOf, conditions[i]), MedicationOf, medications)
  {
    if conditions == [] then []
    else [CountsFor(WithKey(named, ConditionOf, conditions[0]), MedicationOf, medications)]
         + PivotCells(named, conditions[1..], medications)
  }

  /**
   * Rows are the conditions of the kept rows, columns their medications,
   * both sorted; a pair with no named row gets 0.
   */
  function PivotOf(kept: seq<Record>): Pivot
  {
    var conditions := Keys(GroupBy(kept, ConditionOf, StrLt));
    var medications := Keys(GroupBy(kept, MedicationOf, StrLt));
    Pivot(conditions, medications, PivotCells(Named(kept), conditions, medications))
  }

  function PivotTotal(cells: seq<seq<nat>>): nat
  {
    if cells == [] then 0 else SumNat(cells[0]) + PivotTotal(cells[1..])
  }

  /**
   * The cards: number of kept rows, mean age and mean stay (0 when nothing
   * is kept), and total billing.
   */
  function SummaryOf(data: seq<Record>, sel: Selection): (c: SummaryCards)
    ensures c.totalPatients == |Filter(data, sel)|
    ensures c.totalPatients == 0 ==> c.averageAge == 0.0 && c.averageStay == 0.0
  {
    var kept := Filter(data, sel);
    var n := |kept|;
    FilterSpec(data, sel);
    KeptAgesPresent(kept, sel);
    SummaryCards(
      n,
      if n > 0 then Mean(PresentAges(kept)) else 0.0,
      SumBy(kept, BillingOrZero),
      if n > 0 then Mean(Stays(kept)) else 0.0)
  }

  // ---------------------------------------------------------------------
  // The callback

  /**
   * `update_dashboard(selected_conditions, selected_age, selected_genders,
   * start_date, end_date)` over the loaded `data` and `monthly_data`.
   */
  function UpdateDashboard(data: seq<Record>, monthly: seq<MonthlyRow>, sel: Selection): (v: DashboardView)
    ensures v.table == Filter(data, sel)
    ensures v.cards.totalPatients == |v.table|
    ensures forall k :: 0 <= k < |v.table| ==> v.table[k] in data && Keep(v.table[k], sel)
    ensures v.cards.totalPatients == 0 ==> v.cards.averageAge == 0.0 && v.cards.averageStay == 0.0
  {
    var kept := Filter(data, sel);
    FilterPositions(data, sel);
    FilterKeeps(data, sel);
    DashboardView(
      SummaryOf(data, sel),
      FilterMonthly(monthly, sel),
      Sums(GroupBy(kept, AdmissionTypeOf, StrLt), BillingOrZero),
      ValueCounts(kept, MedicationOf, StrLt),
      Sizes(GroupBy(kept, BloodTypeOf, StrLt)),
      Sizes(GroupBy(kept, BloodAdmissionKey, PairLt)),
      PivotOf(kept),
      kept)
  }

  // ---------------------------------------------------------------------
  // The filter

  /**
   * The kept rows are the rows satisfying all four tests, in their original
   * order: they sit at strictly increasing positions of the table, and a
   * position is among them exactly when its row passes.
   */
  lemma FilterSpec(data: seq<Record>, sel: Selection)
    ensures var kept, pos := Filter(data, sel), KeptPositions(data, sel);
      && |pos| == |kept|
      && (forall k :: 0 <= k < |pos| ==> pos[k] < |data| && kept[k] == data[pos[k]])
      && (forall k, l :: 0 <= k < l < |pos| ==> pos[k] < pos[l])
      && (forall k :: 0 <= k < |kept| ==> Keep(kept[k], sel))
      && (forall i :: 0 <= i < |data| ==> (Keep(data[i], sel) <==> i in pos))
  {
    FilterPositions(data, sel);
    FilterKeeps(data, sel);
    FilterComplete(data, sel);
  }

  lemma {:induction false} FilterPositions(data: seq<Record>, sel: Selection)
    ensures var kept, pos := Filter(data, sel), KeptPositions(data, sel);
      && |pos| == |kept|
      && (forall k :: 0 <= k < |pos| ==> pos[k] < |data| && kept[k] == data[pos[k]])
      && (forall k, l :: 0 <= k < l < |pos| ==> pos[k] < pos[l])
    decreases |data|
  {
    if data != [] {
      var n := |data| - 1;
      var init := data[..n];
      FilterPositions(init, sel);
      var pos0, kept0 := KeptPositions(init, sel), Filter(init, sel);
      var pos, kept := KeptPositions(data, sel), Filter(data, sel);
      if Keep(data[n], sel) {
        assert pos == pos0 + [n] && kept == kept0 + [data[n]];
      } else {
        assert pos == pos0 && kept == kept0;
      }
      forall k | 0 <= k < |pos| ensures pos[k] < |data| && kept[k] == data[pos[k]] {
        if k < |pos0| {
          assert pos[k] == pos0[k] && kept[k] == kept0[k] && init[pos0[k]] == data[pos0[k]];
        }
      }
    }
  }

  lemma {:induction false} FilterKeeps(data: seq<Record>, sel: Selection)
    ensures forall k :: 0 <= k < |Filter(data, sel)| ==> Keep(Filter(data, sel)[k], sel)
    decreases |data|
  {
    if data != [] {
      FilterKeeps(data[..|data| - 1], sel);
    }
  }

  lemma {:induction false} KeptPositionsBelow(data: seq<Record>, sel: Selection)
    ensures forall k :: 0 <= k < |KeptPositions(data, sel)| ==> KeptPositions(data, sel)[k] < |data|
    decreases |data|
  {
    if data != [] {
      KeptPositionsBelow(data[..|data| - 1], sel);
    }
  }

  lemma {:induction false} FilterComplete(data: seq<Record>, sel: Selection)
    ensures forall i :: 0 <= i < |data| ==> (Keep(data[i], sel) <==> i in KeptPositions(data, sel))
    decreases |data|
  {
    if data != [] {
      var n := |data| - 1;
      var init := data[..n];
      FilterComplete(init, sel);
      KeptPositionsBelow(init, sel);
      var pos0, pos := KeptPositions(init, sel), KeptPositions(data, sel);
      assert pos == pos0 + (if Keep(data[n], sel) then [n] else []);
      forall i | 0 <= i < |data| ensures Keep(data[i], sel) <==> i in pos {
        if i < n {
          assert init[i] == data[i];
          assert i in pos <==> i in pos0;
        } else {
          assert n !in pos0;
        }
      }
    }
  }

  /** Every row that passes the filter has its Age, so the ages of the kept rows are all of them. */
  lemma {:induction false} KeptAgesPresent(kept: seq<Record>, sel: Selection)
    requires forall k :: 0 <= k < |kept| ==> Keep(kept[k], sel)
    ensures |PresentAges(kept)| == |kept|
    ensures forall k :: 0 <= k < |kept| ==> Some(PresentAges(kept)[k]) == kept[k].age
    decreases |kept|
  {
    if kept != [] {
      KeptAgesPresent(kept[..|kept| - 1], sel);
    }
  }

  /** With no condition or no gender selected, nothing passes and every card shows zero. */
  lemma EmptySelectionShowsZeros(data: seq<Record>, monthly: seq<MonthlyRow>, sel: Selection)
    requires sel.conditions == [] || sel.genders == []
    ensures var v := UpdateDashboard(data, monthly, sel);
      && v.cards == SummaryCards(0, 0.0, 0.0, 0.0)
      && v.table == [] && v.billingByAdmissionType == [] && v.medicationCounts == []
      && v.bloodTypeCounts == [] && v.bloodTypeByAdmissionType == []
      && v.diagnosisMedication == Pivot([], [], [])
  {
    FilterSpec(data, sel);
  }

  /**
   * What the cards say about the kept rows: the patient count is their
   * number; when positive, every kept row has its Age, the average age is
   * an average of those ages and the average stay an average of their
   * Lengths of Stay; when zero, both averages show 0; the billing total is
   * the sum of the Billing Amounts present.
   */
  predicate CardsDescribe(c: SummaryCards, kept: seq<Record>)
  {
    && c.totalPatients == |kept|
    && c.totalBilling == SumBy(kept, BillingOrZero)
    && (c.totalPatients == 0 ==> c.averageAge == 0.0 && c.averageStay == 0.0)
    && (c.totalPatients > 0 ==>
          && |PresentAges(kept)| == |kept|
          && IsAverageOf(c.averageAge, PresentAges(kept))
          && IsAverageOf(c.averageStay, Stays(kept)))
  }

  /** The cards of every recomputation describe the rows it kept. */
  lemma SummarySpec(data: seq<Record>, monthly: seq<MonthlyRow>, sel: Selection)
    ensures CardsDescribe(UpdateDashboard(data, monthly, sel).cards, Filter(data, sel))
  {
    SummaryOfDescribes(data, sel);
  }

  lemma SummaryOfDescribes(data: seq<Record>, sel: Selection)
    ensures CardsDescribe(SummaryOf(data, sel), Filter(data, sel))
  {
    var kept := Filter(data, sel);
    var c := SummaryOf(data, sel);
    FilterSpec(data, sel);
    KeptAgesPresent(kept, sel);
    if |kept| > 0 {
      MeanIsAverage(PresentAges(kept));
      MeanIsAverage(Stays(kept));
    }
  }

  // ---------------------------------------------------------------------
  // Groupings

  /**
   * What the billing bars say about the kept rows: one bar per admission
   * type among them, in ascending order, each the billing of exactly the
   * rows of that type; together they add up to the rows' total billing.
   */
  predicate BillingDescribes(b: seq<KeyTotal<string>>, kept: seq<Record>)
  {
    && TotalValue(b) == SumBy(kept, BillingOrZero)
    && (forall i, j :: 0 <= i < j < |b| ==> StrLt(b[i].key, b[j].key))
    && (forall i :: 0 <= i < |b| ==>
          b[i].total == SumBy(WithKey(kept, AdmissionTypeOf, b[i].key), BillingOrZero)
          && WithKey(kept, AdmissionTypeOf, b[i].key) != [])
    && (forall k :: 0 <= k < |kept| ==> exists i :: 0 <= i < |b| && b[i].key == kept[k].admissionType)
  }

  /**
   * Billing by admission type describes the kept rows, so its bars add up
   * to the Total Billing card.
   */
  lemma BillingByAdmissionTypeSpec(data: seq<Record>, monthly: seq<MonthlyRow>, sel: Selection)
    ensures BillingDescribes(UpdateDashboard(data, monthly, sel).billingByAdmissionType, Filter(data, sel))
    ensures TotalValue(UpdateDashboard(data, monthly, sel).billingByAdmissionType)
         == UpdateDashboard(data, monthly, sel).cards.totalBilling
  {
    BillingGroups(Filter(data, sel));
  }

  lemma BillingGroups(kept: seq<Record>)
    ensures BillingDescribes(Sums(GroupBy(kept, AdmissionTypeOf, StrLt), BillingOrZero), kept)
  {
    var gs := GroupBy(kept, AdmissionTypeOf, StrLt);
    var b := Sums(gs, BillingOrZero);
    StrLtIsStrictTotalOrder();
    GroupByPartition(kept, AdmissionTypeOf, StrLt);
    GroupBySumsTotal(kept, AdmissionTypeOf, StrLt, BillingOrZero);
    forall k | 0 <= k < |kept| ensures exists i :: 0 <= i < |b| && b[i].key == kept[k].admissionType {
      var i :| 0 <= i < |gs| && Keys(gs)[i] == AdmissionTypeOf(kept[k]);
      assert b[i].key == kept[k].admissionType;
    }
  }

  /**
   * Medication counts (`value_counts`): non-increasing counts, each
   * medication listed once, each count the number of kept rows with that
   * medication, and every kept row's medication listed.
   */
  lemma MedicationCountsSpec(data: seq<Record>, monthly: seq<MonthlyRow>, sel: Selection)
    ensures var v, kept := UpdateDashboard(data, monthly, sel), Filter(data, sel);
      var m := v.medicationCounts;
      && CountsNonIncreasing(m)
      && KeysDistinct(m)
      && (forall i :: 0 <= i < |m| ==> m[i].count == |WithKey(kept, MedicationOf, m[i].key)| > 0)
      && (forall k :: 0 <= k < |kept| ==>
            KeyCount(kept[k].medication, |WithKey(kept, MedicationOf, kept[k].medication)|) in m)
  {
    StrLtIsStrictTotalOrder();
    ValueCountsSpec(Filter(data, sel), MedicationOf, StrLt);
  }

  /** The crosstab entries for blood type b, summed over admission types. */
  function TotalForBloodType(ps: seq<KeyCount<(string, string)>>, b: string): nat
  {
    if ps == [] then 0 else (if ps[0].key.0 == b then ps[0].count else 0) + TotalForBloodType(ps[1..], b)
  }

  lemma {:induction false} TotalForBloodTypeWhere(ps: seq<KeyCount<(string, string)>>, b: string, p: ((string, string)) -> bool)
    requires forall k :: p(k) == (k.0 == b)
    ensures TotalForBloodType(ps, b) == TotalCountWhere(ps, p)
  {
    if ps != [] {
      TotalForBloodTypeWhere(ps[1..], b, p);
    }
  }

  lemma {:induction false} CountWhereBloodType(xs: seq<Record>, b: string, p: ((string, string)) -> bool)
    requires forall k :: p(k) == (k.0 == b)
    ensures CountWhere(xs, BloodAdmissionKey, p) == |WithKey(xs, BloodTypeOf, b)|
    decreases |xs|
  {
    if xs != [] {
      CountWhereBloodType(xs[..|xs| - 1], b, p);
    }
  }

  /**
   * Blood types: one count per blood type among the kept rows, in ascending
   * order, each the number of kept rows of that type; the counts add up to
   * the patient count, as do the blood type × admission type counts; and
   * for every blood type, its crosstab entries summed over admission types
   * give its own count.
   */
  lemma BloodTypeSpec(data: seq<Record>, monthly: seq<MonthlyRow>, sel: Selection)
    ensures var v, kept := UpdateDashboard(data, monthly, sel), Filter(data, sel);
      var bt, cross := v.bloodTypeCounts, v.bloodTypeByAdmissionType;
      && TotalCount(bt) == v.cards.totalPatients
      && TotalCount(cross) == v.cards.totalPatients
      && (forall i, j :: 0 <= i < j < |bt| ==> StrLt(bt[i].key, bt[j].key))
      && (forall i, j :: 0 <= i < j < |cross| ==> PairLt(cross[i].key, cross[j].key))
      && (forall i :: 0 <= i < |bt| ==> bt[i].count == |WithKey(kept, BloodTypeOf, bt[i].key)| > 0)
      && (forall i :: 0 <= i < |bt| ==> TotalForBloodType(cross, bt[i].key) == bt[i].count)
  {
    var kept := Filter(data, sel);
    var gs := GroupBy(kept, BloodTypeOf, StrLt);
    var cross := Sizes(GroupBy(kept, BloodAdmissionKey, PairLt));
    StrLtIsStrictTotalOrder();
    PairLtIsStrictTotalOrder();
    GroupByPartition(kept, BloodTypeOf, StrLt);
    GroupByPartition(kept, BloodAdmissionKey, PairLt);
    var always := (k: string) => true;
    var alwaysPair := (k: (string, string)) => true;
    GroupBySizesTotal(kept, BloodTypeOf, StrLt, always);
    GroupBySizesTotal(kept, BloodAdmissionKey, PairLt, alwaysPair);
    forall i | 0 <= i < |gs| ensures TotalForBloodType(cross, gs[i].key) == |gs[i].members| {
      var b := gs[i].key;
      var p := (k: (string, string)) => k.0 == b;
      TotalForBloodTypeWhere(cross, b, p);
      GroupBySizesTotal(kept, BloodAdmissionKey, PairLt, p);
      CountWhereBloodType(kept, b, p);
    }
  }

  /**
   * What the stacked bars say about the kept rows: one count per (blood
   * type, admission type) pair among them, in ascending order, each the
   * number of kept rows with that pair, and every kept row's pair listed.
   */
  predicate CrossDescribes(cross: seq<KeyCount<(string, string)>>, kept: seq<Record>)
  {
    && (forall i, j :: 0 <= i < j < |cross| ==> PairLt(cross[i].key, cross[j].key))
    && (forall i :: 0 <= i < |cross| ==> cross[i].count == |WithKey(kept, BloodAdmissionKey, cross[i].key)| > 0)
    && (forall k :: 0 <= k < |kept| ==> exists i :: 0 <= i < |cross| && cross[i].key == BloodAdmissionKey(kept[k]))
  }

  /** The blood type × admission type counts of every recomputation describe the rows it kept. */
  lemma BloodAdmissionSpec(data: seq<Record>, monthly: seq<MonthlyRow>, sel: Selection)
    ensures CrossDescribes(UpdateDashboard(data, monthly, sel).bloodTypeByAdmissionType, Filter(data, sel))
  {
    CrossCounts(Filter(data, sel));
  }

  lemma CrossCounts(kept: seq<Record>)
    ensures CrossDescribes(Sizes(GroupBy(kept, BloodAdmissionKey, PairLt)), kept)
  {
    var gs := GroupBy(kept, BloodAdmissionKey, PairLt);
    var cross := Sizes(gs);
    PairLtIsStrictTotalOrder();
    GroupByPartition(kept, BloodAdmissionKey, PairLt);
    forall k | 0 <= k < |kept| ensures exists i :: 0 <= i < |cross| && cross[i].key == BloodAdmissionKey(kept[k]) {
      var i :| 0 <= i < |gs| && Keys(gs)[i] == BloodAdmissionKey(kept[k]);
      assert cross[i].key == BloodAdmissionKey(kept[k]);
    }
  }

  // ---------------------------------------------------------------------
  // The pivot

  lemma {:induction false} WithKeyNested(xs: seq<Record>, c: string, m: string)
    ensures |WithKey(WithKey(xs, ConditionOf, c), MedicationOf, m)| == |WithKey(xs, ConditionMedicationKey, (c, m))|
    decreases |xs|
  {
    if xs != [] {
      var init, x := xs[..|xs| - 1], xs[|xs| - 1];
      assert xs == init + [x];
      WithKeyNested(init, c, m);
      WithKeyAppend(init, ConditionOf, c, x);
      WithKeyAppend(init, ConditionMedicationKey, (c, m), x);
      if x.condition == c {
        WithKeyAppend(WithKey(init, ConditionOf, c), MedicationOf, m, x);
      } else {
        assert ConditionOf(x) != c && ConditionMedicationKey(x) != (c, m);
        assert WithKey(xs, ConditionOf, c) == WithKey(init, ConditionOf, c);
      }
    }
  }

  lemma {:induction false} PivotTotalByRows(cells: seq<seq<nat>>, rowSums: seq<nat>)
    requires |rowSums| == |cells| && forall i :: 0 <= i < |cells| ==> SumNat(cells[i]) == rowSums[i]
    ensures PivotTotal(cells) == SumNat(rowSums)
  {
    if cells != [] {
      PivotTotalByRows(cells[1..], rowSums[1..]);
    }
  }

  lemma KeysDistinctOf<K(!new), T>(gs: seq<Group<K, T>>, lt: (K, K) -> bool)
    requires StrictTotalOrder(lt) && KeysIncreasing(gs, lt)
    ensures Distinct(Keys(gs))
  {
    var ks := Keys(gs);
    forall i, j | 0 <= i < j < |ks| ensures ks[i] != ks[j] {
      assert lt(gs[i].key, gs[j].key);
    }
  }

  lemma {:induction false} NamedMembers(rows: seq<Record>, x: Record)
    requires x in Named(rows)
    ensures x in rows && x.name.Some?
  {
    WithKeyMembers(rows, HasName, true);
  }

  /**
   * The layout of a pivot over the kept rows: a row for every condition and
   * a column for every medication among them, each once and in ascending
   * order, and each cell the number of kept rows with a Name, that
   * condition and that medication (0 when there are none).
   */
  predicate PivotLayout(pv: Pivot, kept: seq<Record>)
  {
    PivotAxes(pv, kept) && PivotCounts(pv, kept)
  }

  /** The rows and columns: every kept condition and medication once, sorted. */
  predicate PivotAxes(pv: Pivot, kept: seq<Record>)
  {
    && (forall i, j :: 0 <= i < j < |pv.conditions| ==> StrLt(pv.conditions[i], pv.conditions[j]))
    && (forall i, j :: 0 <= i < j < |pv.medications| ==> StrLt(pv.medications[i], pv.medications[j]))
    && (forall k :: 0 <= k < |kept| ==> kept[k].condition in pv.conditions && kept[k].medication in pv.medications)
    && (forall i :: 0 <= i < |pv.conditions| ==> WithKey(kept, ConditionOf, pv.conditions[i]) != [])
    && (forall j :: 0 <= j < |pv.medications| ==> WithKey(kept, MedicationOf, pv.medications[j]) != [])
  }

  /** The cells: one per row and column, counting the named rows of that pair. */
  predicate PivotCounts(pv: Pivot, kept: seq<Record>)
  {
    && |pv.cells| == |pv.conditions|
    && (forall i :: 0 <= i < |pv.cells| ==> |pv.cells[i]| == |pv.medications|)
    && (forall i, j :: 0 <= i < |pv.conditions| && 0 <= j < |pv.medications| ==>
          pv.cells[i][j] == |WithKey(Named(kept), ConditionMedicationKey, (pv.conditions[i], pv.medications[j]))|)
  }

  /**
   * The pivot of every recomputation is laid out over the rows it kept; its
   * cells add up to the number of kept rows with a Name, which is the
   * patient count when no kept row lacks one.
   */
  lemma PivotSpec(data: seq<Record>, monthly: seq<MonthlyRow>, sel: Selection)
    ensures PivotLayout(UpdateDashboard(data, monthly, sel).diagnosisMedication, Filter(data, sel))
    ensures PivotTotal(UpdateDashboard(data, monthly, sel).diagnosisMedication.cells) == |Named(Filter(data, sel))|
    ensures (forall k :: 0 <= k < |Filter(data, sel)| ==> Filter(data, sel)[k].name.Some?) ==>
      PivotTotal(UpdateDashboard(data, monthly, sel).diagnosisMedication.cells) == |Filter(data, sel)|
  {
    var kept := Filter(data, sel);
    PivotOfCells(kept);
    PivotOfTotal(kept);
    if forall k :: 0 <= k < |kept| ==> kept[k].name.Some? {
      AllNamed(kept);
    }
  }

  lemma PivotOfCells(kept: seq<Record>)
    ensures PivotLayout(PivotOf(kept), kept)
  {
    PivotOfAxes(kept);
    PivotOfCounts(kept);
  }

  lemma PivotOfAxes(kept: seq<Record>)
    ensures PivotAxes(PivotOf(kept), kept)
  {
    StrLtIsStrictTotalOrder();
    GroupByPartition(kept, ConditionOf, StrLt);
    GroupByPartition(kept, MedicationOf, StrLt);
  }

  lemma PivotOfCounts(kept: seq<Record>)
    ensures PivotCounts(PivotOf(kept), kept)
  {
    var pv := PivotOf(kept);
    forall i, j | 0 <= i < |pv.conditions| && 0 <= j < |pv.medications|
      ensures pv.cells[i][j] == |WithKey(Named(kept), ConditionMedicationKey, (pv.conditions[i], pv.medications[j]))|
    {
      WithKeyNested(Named(kept), pv.conditions[i], pv.medications[j]);
    }
  }

  lemma PivotOfTotal(kept: seq<Record>)
    ensures PivotTotal(PivotOf(kept).cells) == |Named(kept)|
  {
    var named := Named(kept);
    var cgs := GroupBy(kept, ConditionOf, StrLt);
    var mgs := GroupBy(kept, MedicationOf, StrLt);
    var pv := PivotOf(kept);
    StrLtIsStrictTotalOrder();
    GroupByPartition(kept, ConditionOf, StrLt);
    GroupByPartition(kept, MedicationOf, StrLt);
    KeysDistinctOf(cgs, StrLt);
    KeysDistinctOf(mgs, StrLt);
    // Each row of the pivot adds up to the named rows of its condition.
    var rowSums := CountsFor(named, ConditionOf, pv.conditions);
    forall i | 0 <= i < |pv.conditions| ensures SumNat(pv.cells[i]) == rowSums[i] {
      var rows := WithKey(named, ConditionOf, pv.conditions[i]);
      forall x | x in rows ensures MedicationOf(x) in pv.medications {
        WithKeyMembers(named, ConditionOf, pv.conditions[i]);
        NamedMembers(kept, x);
        var k :| 0 <= k < |kept| && kept[k] == x;
      }
      CountsForTotal(rows, MedicationOf, pv.medications);
    }
    PivotTotalByRows(pv.cells, rowSums);
    forall x | x in named ensures ConditionOf(x) in pv.conditions {
      NamedMembers(kept, x);
      var k :| 0 <= k < |kept| && kept[k] == x;
    }
    CountsForTotal(named, ConditionOf, pv.conditions);
  }

  lemma {:induction false} AllNamed(rows: seq<Record>)
    requires forall k :: 0 <= k < |rows| ==> rows[k].name.Some?
    ensures Named(rows) == rows
    decreases |rows|
  {
    if rows != [] {
      AllNamed(rows[..|rows| - 1]);
    }
  }

  // ---------------------------------------------------------------------
  // The monthly line chart

  /** The monthly mask reads only the condition dropdown and the date picker. */
  lemma {:induction false} MonthlyIgnoresAgeAndGender(rows: seq<MonthlyRow>, sel: Selection, low: int, high: int, genders: seq<string>)
    ensures FilterMonthly(rows, sel) == FilterMonthly(rows, sel.(ageLow := low, ageHigh := high, genders := genders))
  {
    if rows != [] {
      MonthlyIgnoresAgeAndGender(rows[1..], sel, low, high, genders);
    }
  }

  /**
   * The monthly mask keeps the table's order: filtering rows listed in
   * strictly ascending (month label, condition) order leaves them so, hence
   * each kept row appears once.
   */
  lemma {:induction false} FilterMonthlyOrdered(rows: seq<MonthlyRow>, sel: Selection)
    requires RowsIncreasing(rows)
    ensures RowsIncreasing(FilterMonthly(rows, sel))
    ensures |FilterMonthly(rows, sel)| <= |rows|
  {
    if rows != [] {
      var tail := FilterMonthly(rows[1..], sel);
      RowsIncreasingTail(rows);
      FilterMonthlyOrdered(rows[1..], sel);
      if KeepMonthly(rows[0], sel) {
        FirstBelowFiltered(rows, sel);
        PrependIncreasing(rows[0], tail);
        assert FilterMonthly(rows, sel) == [rows[0]] + tail;
      }
    }
  }

  lemma RowsIncreasingTail(rows: seq<MonthlyRow>)
    requires rows != [] && RowsIncreasing(rows)
    ensures RowsIncreasing(rows[1..])
  {
    var tail := rows[1..];
    forall i, j | 0 <= i < j < |tail|
      ensures MonthKeyLt((tail[i].month, tail[i].condition), (tail[j].month, tail[j].condition))
    {
      assert tail[i] == rows[i + 1] && tail[j] == rows[j + 1];
    }
  }

  /** The first row precedes every row the mask keeps after it. */
  lemma FirstBelowFiltered(rows: seq<MonthlyRow>, sel: Selection)
    requires rows != [] && RowsIncreasing(rows)
    ensures forall j :: 0 <= j < |FilterMonthly(rows[1..], sel)| ==>
      MonthKeyLt((rows[0].month, rows[0].condition),
                 (FilterMonthly(rows[1..], sel)[j].month, FilterMonthly(rows[1..], sel)[j].condition))
  {
    var tail := FilterMonthly(rows[1..], sel);
    forall j | 0 <= j < |tail|
      ensures MonthKeyLt((rows[0].month, rows[0].condition), (tail[j].month, tail[j].condition))
    {
      assert tail[j] in rows[1..];
      var m :| 0 <= m < |rows[1..]| && rows[1..][m] == tail[j];
      assert rows[1 + m] == tail[j];
    }
  }

  lemma PrependIncreasing(r: MonthlyRow, tail: seq<MonthlyRow>)
    requires RowsIncreasing(tail)
    requires forall j :: 0 <= j < |tail| ==>
      MonthKeyLt((r.month, r.condition), (tail[j].month, tail[j].condition))
    ensures RowsIncreasing([r] + tail)
  {
    var out := [r] + tail;
    forall i, j | 0 <= i < j < |out|
      ensures MonthKeyLt((out[i].month, out[i].condition), (out[j].month, out[j].condition))
    {
      assert out[j] == tail[j - 1];
      if i > 0 {
        assert out[i] == tail[i - 1];
      }
    }
  }

  /** A record with a selected condition admitted within the date range; age and gender play no part. */
  predicate AdmittedInRange(d: Record, sel: Selection)
  {
    d.condition in sel.conditions && NotAfter(sel.start, d.admission) && NotAfter(d.admission, sel.end)
  }

  function CountAdmittedInRange(data: seq<Record>, sel: Selection): nat
  {
    if data == [] then 0
    else CountAdmittedInRange(data[..|data| - 1], sel) + (if AdmittedInRange(data[|data| - 1], sel) then 1 else 0)
  }

  lemma {:induction false} MonthlyFilterTotal(ps: seq<KeyCount<(CivilDate, string)>>, sel: Selection, p: ((CivilDate, string)) -> bool)
    requires forall k :: p(k) == (k.1 in sel.conditions && NotAfter(sel.start, k.0) && NotAfter(k.0, sel.end))
    ensures MonthlyTotal(FilterMonthly(ToMonthlyRows(ps), sel)) == TotalCountWhere(ps, p)
  {
    if ps != [] {
      var rows := ToMonthlyRows(ps);
      MonthlyFilterTotal(ps[1..], sel, p);
      assert rows[1..] == ToMonthlyRows(ps[1..]);
      assert KeepMonthly(rows[0], sel) == p(ps[0].key);
      var rest := FilterMonthly(rows[1..], sel);
      if KeepMonthly(rows[0], sel) {
        assert FilterMonthly(rows, sel) == [rows[0]] + rest;
        assert ([rows[0]] + rest)[1..] == rest;
      } else {
        assert FilterMonthly(rows, sel) == rest;
      }
    }
  }

  lemma {:induction false} AlignedCountWhere(data: seq<Record>, sel: Selection, p: ((CivilDate, string)) -> bool)
    requires sel.start.day == 1 && sel.end == MonthEnd(sel.end)
    requires forall k :: p(k) == (k.1 in sel.conditions && NotAfter(sel.start, k.0) && NotAfter(k.0, sel.end))
    ensures CountWhere(data, MonthKey, p) == CountAdmittedInRange(data, sel)
    decreases |data|
  {
    if data != [] {
      var d := data[|data| - 1];
      AlignedCountWhere(data[..|data| - 1], sel, p);
      MonthAlignedRange(d.admission, sel.start, sel.end);
    }
  }

  /**
   * When the date range starts on the first of a month and ends on the last
   * day of a month, the line chart's counts add up to the admissions with a
   * selected condition in that range, and so cover every patient counted on
   * the cards.
   */
  lemma MonthAlignedChartTotal(data: seq<Record>, sel: Selection)
    requires sel.start.day == 1 && sel.end == MonthEnd(sel.end)
    ensures var v := UpdateDashboard(data, MonthlyAggregate(data), sel);
      && MonthlyTotal(v.monthlyAdmissions) == CountAdmittedInRange(data, sel)
      && v.cards.totalPatients <= MonthlyTotal(v.monthlyAdmissions)
  {
    var p := (k: (CivilDate, string)) => k.1 in sel.conditions && NotAfter(sel.start, k.0) && NotAfter(k.0, sel.end);
    var ps := Sizes(GroupBy(data, MonthKey, MonthKeyLt));
    MonthlyFilterTotal(ps, sel, p);
    GroupBySizesTotal(data, MonthKey, MonthKeyLt, p);
    AlignedCountWhere(data, sel, p);
    KeptWithinRange(data, sel);
  }

  lemma {:induction false} KeptWithinRange(data: seq<Record>, sel: Selection)
    ensures |Filter(data, sel)| <= CountAdmittedInRange(data, sel)
    decreases |data|
  {
    if data != [] {
      KeptWithinRange(data[..|data| - 1], sel);
    }
  }

  // ---------------------------------------------------------------------
  // The line chart when the date range is not month aligned

  /**
   * The monthly mask compares each month's last day with the date range, so
   * a range ending in mid-month loses that whole month: one patient admitted
   * on 10 January 2024 is counted on the cards for the range 1–15 January
   * 2024, while the line chart for the same range shows no admission.
   */
  lemma PartialMonthDropped()
    ensures var d := Record(Some("A"), Some(40.0), "Female", "O+", "Flu",
                            Date(2024, 1, 10), Date(2024, 1, 12), Some(100.0),
                            "Urgent", "Aspirin", [], 2);
      var sel := Selection(["Flu"], 0, 100, ["Female"], Date(2024, 1, 1), Date(2024, 1, 15));
      var v := UpdateDashboard([d], MonthlyAggregate([d]), sel);
      v.cards.totalPatients == 1 && MonthlyTotal(v.monthlyAdmissions) == 0
  {
    var d := Record(Some("A"), Some(40.0), "Female", "O+", "Flu",
                    Date(2024, 1, 10), Date(2024, 1, 12), Some(100.0),
                    "Urgent", "Aspirin", [], 2);
    var sel := Selection(["Flu"], 0, 100, ["Female"], Date(2024, 1, 1), Date(2024, 1, 15));
    assert Filter([d], sel) == [d] by {
      assert [d][..0] == [];
      assert Keep(d, sel);
    }
    var rows := MonthlyAggregate([d]);
    assert rows == [MonthlyRow(Date(2024, 1, 31), "Flu", 1)] by {
      assert [d][..0] == [];
      assert MonthKey(d) == (Date(2024, 1, 31), "Flu");
      var gs := GroupBy([d], MonthKey, MonthKeyLt);
      assert GroupBy([d][..0], MonthKey, MonthKeyLt) == [];
      assert gs == AddToGroups([], MonthKey, MonthKeyLt, d);
      assert gs == [Group(MonthKey(d), [d])];
      assert Sizes(gs) == [KeyCount(MonthKey(d), 1)];
    }
    assert !KeepMonthly(rows[0], sel);
    assert FilterMonthly(rows, sel) == [];
  }

  /** The rows with a selected condition admitted within the date range, in order. */
  function AdmittedWithin(data: seq<Record>, sel: Selection): (rows: seq<Record>)
    ensures |rows| == CountAdmittedInRange(data, sel)
    ensures forall k :: 0 <= k < |rows| ==> AdmittedInRange(rows[k], sel)
  {
    if data == [] then []
    else AdmittedWithin(data[..|data| - 1], sel)
         + (if AdmittedInRange(data[|data| - 1], sel) then [data[|data| - 1]] else [])
  }

  /** The positions of the rows `AdmittedWithin` keeps. */
  function InRangePositions(data: seq<Record>, sel: Selection): seq<nat>
  {
    if data == [] then []
    else InRangePositions(data[..|data| - 1], sel) + (if AdmittedInRange(data[|data| - 1], sel) then [|data| - 1] else [])
  }

  /**
   * The admissions in range are the table's rows with a selected condition
   * admitted within the range, in table order: they sit at strictly
   * increasing positions, and a position is among them exactly when its row
   * is in range.
   */
  lemma AdmittedWithinSpec(data: seq<Record>, sel: Selection)
    ensures var rows, pos := AdmittedWithin(data, sel), InRangePositions(data, sel);
      && |pos| == |rows|
      && (forall k :: 0 <= k < |pos| ==> pos[k] < |data| && rows[k] == data[pos[k]])
      && (forall k, l :: 0 <= k < l < |pos| ==> pos[k] < pos[l])
      && (forall i :: 0 <= i < |data| ==> (AdmittedInRange(data[i], sel) <==> i in pos))
  {
    InRangeRowPositions(data, sel);
    InRangeComplete(data, sel);
  }

  lemma {:induction false} InRangeRowPositions(data: seq<Record>, sel: Selection)
    ensures var rows, pos := AdmittedWithin(data, sel), InRangePositions(data, sel);
      && |pos| == |rows|
      && (forall k :: 0 <= k < |pos| ==> pos[k] < |data| && rows[k] == data[pos[k]])
      && (forall k, l :: 0 <= k < l < |pos| ==> pos[k] < pos[l])
    decreases |data|
  {
    if data != [] {
      var n := |data| - 1;
      var init := data[..n];
      InRangeRowPositions(init, sel);
      var pos0, rows0 := InRangePositions(init, sel), AdmittedWithin(init, sel);
      var pos, rows := InRangePositions(data, sel), AdmittedWithin(data, sel);
      if AdmittedInRange(data[n], sel) {
        assert pos == pos0 + [n] && rows == rows0 + [data[n]];
      } else {
        assert pos == pos0 && rows == rows0;
      }
      forall k | 0 <= k < |pos| ensures pos[k] < |data| && rows[k] == data[pos[k]] {
        if k < |pos0| {
          assert pos[k] == pos0[k] && rows[k] == rows0[k] && init[pos0[k]] == data[pos0[k]];
        }
      }
    }
  }

  lemma {:induction false} InRangePositionsBelow(data: seq<Record>, sel: Selection)
    ensures forall k :: 0 <= k < |InRangePositions(data, sel)| ==> InRangePositions(data, sel)[k] < |data|
    decreases |data|
  {
    if data != [] {
      InRangePositionsBelow(data[..|data| - 1], sel);
    }
  }

  lemma {:induction false} InRangeComplete(data: seq<Record>, sel: Selection)
    ensures forall i :: 0 <= i < |data| ==> (AdmittedInRange(data[i], sel) <==> i in InRangePositions(data, sel))
    decreases |data|
  {
    if data != [] {
      var n := |data| - 1;
      var init := data[..n];
      InRangeComplete(init, sel);
      InRangePositionsBelow(init, sel);
      var pos0, pos := InRangePositions(init, sel), InRangePositions(data, sel);
      assert pos == pos0 + (if AdmittedInRange(data[n], sel) then [n] else []);
      forall i | 0 <= i < |data| ensures AdmittedInRange(data[i], sel) <==> i in pos {
        if i < n {
          assert init[i] == data[i];
          assert i in pos <==> i in pos0;
        } else {
          assert n !in pos0;
        }
      }
    }
  }

  /**
   * The line chart as evidently intended: the monthly counts of the
   * admissions that fall in the date range themselves, whatever days the
   * range starts and ends on.
   */
  function MonthlyChart(data: seq<Record>, sel: Selection): seq<MonthlyRow>
  {
    MonthlyAggregate(AdmittedWithin(data, sel))
  }

  /**
   * For every date range, the intended chart's counts add up to the
   * admissions with a selected condition in the range, cover every patient
   * on the cards, and each row is labelled with the last day of a month and
   * carries a selected condition; for a month-aligned range it agrees in
   * total with the chart as written.
   */
  lemma MonthlyChartSpec(data: seq<Record>, sel: Selection)
    ensures var chart := MonthlyChart(data, sel);
      && MonthlyTotal(chart) == CountAdmittedInRange(data, sel)
      && |Filter(data, sel)| <= MonthlyTotal(chart)
      && (forall i :: 0 <= i < |chart| ==>
            chart[i].month == MonthEnd(chart[i].month) && chart[i].condition in sel.conditions)
    ensures var within, chart := AdmittedWithin(data, sel), MonthlyChart(data, sel);
      && RowsIncreasing(chart)
      && (forall i :: 0 <= i < |chart| ==>
            chart[i].count == |AdmittedIn(within, chart[i].month, chart[i].condition)| > 0)
    ensures sel.start.day == 1 && sel.end == MonthEnd(sel.end) ==>
      MonthlyTotal(MonthlyChart(data, sel)) == MonthlyTotal(FilterMonthly(MonthlyAggregate(data), sel))
  {
    var within := AdmittedWithin(data, sel);
    var chart := MonthlyChart(data, sel);
    MonthlyCountsTotal(within);
    KeptWithinRange(data, sel);
    MonthlyAggregateSpec(within);
    forall i | 0 <= i < |chart| ensures chart[i].condition in sel.conditions {
      var members := AdmittedIn(within, chart[i].month, chart[i].condition);
      WithKeyMembers(within, MonthKey, (chart[i].month, chart[i].condition));
      assert members[0] in within;
      var k :| 0 <= k < |within| && within[k] == members[0];
    }
    if sel.start.day == 1 && sel.end == MonthEnd(sel.end) {
      MonthAlignedChartTotal(data, sel);
    }
  }
}
