/**
 * The control values the page starts with, computed from the loaded table
 * when the layout is built: every condition and every gender that occurs,
 * the age slider from the youngest to the oldest Age, and the date picker
 * from the earliest to the latest admission.
 */
module LayoutDefaults {
  import opened Wrappers
  import opened Calendar
  import opened Stats
  import opened HealthData
  import opened Dashboard

  /** `unique()`: each value once, in order of first appearance. */
  function Unique(xs: seq<string>): (u: seq<string>)
    ensures forall x :: x in u <==> x in xs
    ensures forall i, j :: 0 <= i < j < |u| ==> u[i] != u[j]
  {
    if xs == [] then []
    else
      var u := Unique(xs[..|xs| - 1]);
      if xs[|xs| - 1] in u then u else u + [xs[|xs| - 1]]
  }

  function ConditionColumn(data: seq<Record>): seq<string>
  {
    seq(|data|, i requires 0 <= i < |data| => data[i].condition)
  }

  function GenderColumn(data: seq<Record>): seq<string>
  {
    seq(|data|, i requires 0 <= i < |data| => data[i].gender)
  }

  /** The earliest admission date. */
  function Earliest(data: seq<Record>): (e: CivilDate)
    requires |data| > 0
    ensures exists i :: 0 <= i < |data| && data[i].admission == e
    ensures forall i :: 0 <= i < |data| ==> NotAfter(e, data[i].admission)
  {
    if |data| == 1 then data[0].admission
    else
      var e := Earliest(data[..|data| - 1]);
      var last := data[|data| - 1].admission;
      if Before(last, e) then last else e
  }

  /** The latest admission date. */
  function Latest(data: seq<Record>): (e: CivilDate)
    requires |data| > 0
    ensures exists i :: 0 <= i < |data| && data[i].admission == e
    ensures forall i :: 0 <= i < |data| ==> NotAfter(data[i].admission, e)
  {
    if |data| == 1 then data[0].admission
    else
      var e := Latest(data[..|data| - 1]);
      var last := data[|data| - 1].admission;
      if Before(e, last) then last else e
  }

  /** Python's `int()` on a number: drops the fraction, rounding toward zero. */
  function Truncate(x: real): (t: int)
    ensures 0.0 <= x ==> t as real <= x < t as real + 1.0
    ensures x < 0.0 ==> t as real - 1.0 < x <= t as real
  {
    if x >= 0.0 then x.Floor else -((-x).Floor)
  }

  /** The least whole number not below x. */
  function Ceiling(x: real): (t: int)
    ensures x <= t as real < x + 1.0
  {
    -((-x).Floor)
  }

  /**
   * The starting selection as the layout builds it.  With no Age present,
   * `int()` of the missing minimum raises, so there is no layout.
   */
  function DefaultSelection(data: seq<Record>): Option<Selection>
  {
    var ages := PresentAges(data);
    if |ages| == 0 then None
    else Some(Selection(
      Unique(ConditionColumn(data)),
      Truncate(Min(ages)), Truncate(Max(ages)),
      Unique(GenderColumn(data)),
      Earliest(data), Latest(data)))
  }

  /**
   * The starting selection with the age bounds rounded outward (the minimum
   * down, the maximum up) instead of truncated.
   */
  function CoveringSelection(data: seq<Record>): Option<Selection>
  {
    var ages := PresentAges(data);
    if |ages| == 0 then None
    else Some(Selection(
      Unique(ConditionColumn(data)),
      Min(ages).Floor, Ceiling(Max(ages)),
      Unique(GenderColumn(data)),
      Earliest(data), Latest(data)))
  }

  lemma {:induction false} PresentAgeListed(data: seq<Record>, i: nat)
    requires i < |data| && data[i].age.Some?
    ensures data[i].age.value in PresentAges(data)
    decreases |data|
  {
    if i < |data| - 1 {
      PresentAgeListed(data[..|data| - 1], i);
    }
  }

  lemma {:induction false} NoAgeListed(data: seq<Record>)
    requires |PresentAges(data)| == 0
    ensures forall i :: 0 <= i < |data| ==> data[i].age == None
  {
    forall i | 0 <= i < |data| ensures data[i].age == None {
      if data[i].age.Some? {
        PresentAgeListed(data, i);
      }
    }
  }

  /**
   * Everything the layout selects besides the age range: every record's
   * condition and gender are selected, and its admission date lies in the
   * date range.
   */
  lemma {:induction false} DefaultsSelectOtherColumns(data: seq<Record>, sel: Selection, i: nat)
    requires |data| > 0 && i < |data|
    requires sel.conditions == Unique(ConditionColumn(data)) && sel.genders == Unique(GenderColumn(data))
    requires sel.start == Earliest(data) && sel.end == Latest(data)
    ensures data[i].condition in sel.conditions && data[i].gender in sel.genders
    ensures NotAfter(sel.start, data[i].admission) && NotAfter(data[i].admission, sel.end)
  {
    assert ConditionColumn(data)[i] == data[i].condition;
    assert GenderColumn(data)[i] == data[i].gender;
  }

  /**
   * With the age bounds rounded outward, the starting selection keeps
   * exactly the records whose Age is present; it exists exactly when some
   * Age is present.
   */
  lemma CoveringSelectionKeepsAll(data: seq<Record>)
    ensures CoveringSelection(data).Some? <==> exists i :: 0 <= i < |data| && data[i].age.Some?
    ensures CoveringSelection(data).Some? ==>
      forall i :: 0 <= i < |data| ==> (Keep(data[i], CoveringSelection(data).value) <==> data[i].age.Some?)
  {
    var ages := PresentAges(data);
    if |ages| == 0 {
      NoAgeListed(data);
    } else {
      var sel := CoveringSelection(data).value;
      forall i | 0 <= i < |data| ensures Keep(data[i], sel) <==> data[i].age.Some? {
        DefaultsSelectOtherColumns(data, sel, i);
        if data[i].age.Some? {
          PresentAgeListed(data, i);
          var k :| 0 <= k < |ages| && ages[k] == data[i].age.value;
          assert Min(ages) <= ages[k] <= Max(ages);
        }
      }
      var j :| 0 <= j < |ages|;
      assert ages[j] in ages;
      AgeComesFromRow(data, ages[j]);
    }
  }

  lemma {:induction false} AgeComesFromRow(data: seq<Record>, a: real)
    requires a in PresentAges(data)
    ensures exists i :: 0 <= i < |data| && data[i].age == Some(a)
    decreases |data|
  {
    var init := data[..|data| - 1];
    if a in PresentAges(init) {
      AgeComesFromRow(init, a);
      var i :| 0 <= i < |init| && init[i].age == Some(a);
      assert data[i] == init[i];
    } else {
      assert data[|data| - 1].age == Some(a);
    }
  }

  /**
   * As the layout is written, the same holds when every Age is a whole
   * number: truncating whole numbers changes nothing.
   */
  lemma DefaultSelectionKeepsWholeAges(data: seq<Record>)
    requires forall i :: 0 <= i < |data| && data[i].age.Some? ==> data[i].age.value == data[i].age.value.Floor as real
    ensures DefaultSelection(data).Some? ==>
      forall i :: 0 <= i < |data| ==> (Keep(data[i], DefaultSelection(data).value) <==> data[i].age.Some?)
  {
    var ages := PresentAges(data);
    if |ages| > 0 {
      var sel := DefaultSelection(data).value;
      var lo, hi := Min(ages), Max(ages);
      assert lo == lo.Floor as real by {
        AgeComesFromRow(data, lo);
        var i :| 0 <= i < |data| && data[i].age == Some(lo);
      }
      assert hi == hi.Floor as real by {
        AgeComesFromRow(data, hi);
        var i :| 0 <= i < |data| && data[i].age == Some(hi);
      }
      TruncateWhole(lo);
      TruncateWhole(hi);
      forall i | 0 <= i < |data| ensures Keep(data[i], sel) <==> data[i].age.Some? {
        DefaultsSelectOtherColumns(data, sel, i);
        if data[i].age.Some? {
          PresentAgeListed(data, i);
          var k :| 0 <= k < |ages| && ages[k] == data[i].age.value;
          assert lo <= ages[k] <= hi;
        }
      }
    }
  }

  lemma TruncateWhole(x: real)
    requires x == x.Floor as real
    ensures Truncate(x) as real == x
  {
    if x < 0.0 {
      var k := -x.Floor;
      assert -x == k as real;
      assert (k as real).Floor == k;
    }
  }

  /**
   * As written, truncation can shut out the oldest patient: with a single
   * record of Age 40.5 the slider starts at [40, 40], and the starting
   * dashboard shows nobody.
   */
  lemma TruncatedMaximumExcludes()
    ensures var d := Record(Some("A"), Some(40.5), "Male", "A+", "Asthma",
                            Date(2023, 5, 2), Date(2023, 5, 4), Some(10.0),
                            "Elective", "Ibuprofen", [], 2);
      && DefaultSelection([d]).Some?
      && DefaultSelection([d]).value.ageHigh == 40
      && Filter([d], DefaultSelection([d]).value) == []
  {
    var d := Record(Some("A"), Some(40.5), "Male", "A+", "Asthma",
                    Date(2023, 5, 2), Date(2023, 5, 4), Some(10.0),
                    "Elective", "Ibuprofen", [], 2);
    assert [d][..0] == [];
    assert PresentAges([d]) == [40.5];
    assert Truncate(40.5) == 40;
    var sel := DefaultSelection([d]).value;
    assert !Keep(d, sel);
  }
}
