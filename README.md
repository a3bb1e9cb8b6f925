# HealthDashPy core, modelled in Dafny

HealthDashPy is a Dash dashboard over a hospital admissions table. This
project models its two computational parts and proves properties of them.

- **`load_data`** (`src/health/data.py`) reads the admissions CSV and converts
  the columns:
  - Date of Admission and Discharge Date become dates; an unreadable date
    aborts the load.
  - Billing Amount and Age become numbers; unreadable text becomes missing.
  - Length of Stay is derived as the whole-day difference of the two dates.
  - The rows are aggregated into monthly admission counts per Medical
    Condition. Each month is labelled with its last day.
- **`update_dashboard`** (`src/health/callbacks.py`) recomputes the page
  whenever a control changes. The table is filtered by selected conditions,
  the age range, selected genders and the admission date range. The callback
  then derives:
  - the four summary cards;
  - the monthly line chart data;
  - billing per admission type;
  - medication counts;
  - blood-type counts and the blood type × admission type counts;
  - the diagnosis × medication pivot;
  - the data table.

The control defaults built by the layout (`src/health/layout.py`) are modelled
too, because they decide what the first recomputation sees.

The model is functional, as the source is. Every figure is replaced by the
data it plots. Modules:

| module | file | contents |
|---|---|---|
| `Wrappers` | wrappers.dfy | `Option`, `Result` |
| `Calendar` | calendar.dfy | proleptic Gregorian dates, a day count, month-end labels |
| `Ordering` | ordering.dfy | the key orders used by `groupby` (strings, pairs, month keys), proved strict total orders |
| `Grouping` | grouping.dfy | `groupby` into key-sorted groups, `.size()`, `.sum()`, `value_counts()`, zero-filled count rows |
| `NumericText` | numeric_text.dfy | `to_numeric(errors='coerce')` on one cell, and numerals written back |
| `Stats` | stats.dfy | sums, means, minimum and maximum over exact reals |
| `HealthData` | health_data.dfy | the raw and preprocessed rows, `load_data`, the monthly aggregate |
| `Dashboard` | dashboard.dfy | the selection, the filter, `update_dashboard` and its outputs |
| `LayoutDefaults` | layout_defaults.dfy | the starting control values |

## Model

| member | source | states |
|---|---|---|
| HealthData.ToDatetime | src/health/data.py:22-23 | converting a date column of the rows succeeds exactly when every cell of that column is a readable date, giving those dates in row order; otherwise the error names the first unreadable row |
| HealthData.LoadData | src/health/data.py:7-34 | the load succeeds exactly when every date cell is readable; on success there is one record per CSV row, in order; each record satisfies `IsPreprocessed`: its two dates are the row's parsed date cells, Age and Billing Amount are `ParseNumber` of the row's text (pinned down by the `NumericText` lemmas), Length of Stay is the day-count difference (pinned down by `Calendar.StayDays` and `Calendar.DayNumberNextDay`), and every other column is copied; the monthly table is the aggregate of those records; an unreadable admission date is reported before any discharge date, and each error names the first bad row of its column |
| HealthData.Preprocess | src/health/data.py:22-26 | the per-row conversion; specified through `HealthData.LoadData`, whose records satisfy `IsPreprocessed` |
| HealthData.CoercionNeverAborts | src/health/data.py:24-25 | rewriting the Age or Billing Amount text of any row never changes whether the load succeeds |
| HealthData.NonNumericAgeIsMissing | src/health/data.py:25 | in the model's plain-decimal reading of numbers, an Age cell holding a character other than a digit, a point or a sign loads as missing |
| HealthData.CentsBillingLoads | src/health/data.py:24 | a Billing Amount written with exact cents loads as exactly that amount |
| HealthData.LengthOfStaySpec | src/health/data.py:26 | Length of Stay is negative exactly when discharge precedes admission and zero exactly on a same-day discharge; discharging one calendar day later adds one |
| HealthData.MonthlyAggregateSpec | src/health/data.py:29-32 | monthly rows are strictly ascending by (month label, condition), so each pair appears at most once; each count is the number of records of that month and condition and is positive; each label is a month's last day; every record's own month and condition appear with their count |
| HealthData.MonthlyCountsTotal | src/health/data.py:29-32 | the monthly counts add up to the number of records |
| HealthData.MonthlyAggregate | src/health/data.py:29-32 | the monthly `groupby(...).size()`; specified by `HealthData.MonthlyAggregateSpec` and `HealthData.MonthlyCountsTotal` |
| Calendar.StayDays | src/health/data.py:26 | the day difference is negative exactly when discharge precedes admission and zero exactly when the dates are equal |
| Calendar.MonthEnd | src/health/data.py:30 | the `freq='M'` label lies in the date's year and month, is not before the date, and is followed by the first of a month |
| Calendar.DayNumberNextDay | src/health/data.py:26 | the day count advances by exactly one from a date to the next calendar day |
| Calendar.DayNumberOrder | src/health/data.py:26 | chronological order of dates and order of their day counts agree, both strictly and for equality |
| Calendar.DayNumber | src/health/data.py:26 | the day count of a date; specified by `Calendar.DayNumberNextDay` and `Calendar.DayNumberOrder` |
| Calendar.YearStep | src/health/data.py:26 | the days before year y+1 are the days before year y plus the length of year y, with the Gregorian leap rule |
| Calendar.MonthAlignedRange | src/health/callbacks.py:59-63 | for a range from a month's first day to a month's last day, a date is in the range exactly when its month-end label is |
| NumericText.ParseShowInt | src/health/data.py:24-25 | writing an integer and coercing the text gives back the integer |
| NumericText.ParseShowCents | src/health/data.py:24 | writing an amount with two decimals and coercing the text gives back the amount |
| NumericText.NonNumeralIsMissing | src/health/data.py:24-25 | in the model's plain-decimal reading of numbers, text holding a character other than a digit, a point or a sign coerces to missing |
| NumericText.ParseNumber | src/health/data.py:24-25 | `to_numeric(errors='coerce')` of one cell, read as a plain decimal numeral; specified by `NumericText.ParseShowInt`, `NumericText.ParseShowCents` and `NumericText.NonNumeralIsMissing` |
| Ordering.StrLtIsStrictTotalOrder | src/health/callbacks.py:85 | the order `groupby` sorts string keys by is irreflexive, transitive and total |
| Ordering.PairLtIsStrictTotalOrder | src/health/callbacks.py:137 | the lexicographic order on (Blood Type, Admission Type) keys is a strict total order |
| Ordering.MonthKeyLtIsStrictTotalOrder | src/health/data.py:29-32 | the order on (month label, condition) keys is a strict total order |
| Grouping.GroupByPartition | src/health/callbacks.py:85 | groups are in strictly ascending key order; each group holds exactly the rows with its key, in their original order, and is not empty; every row's key has a group |
| Grouping.GroupBy | src/health/callbacks.py:85 | `groupby` of the rows by a key, in key order; specified by `Grouping.GroupByPartition` and `Grouping.GroupByLookup` |
| Grouping.GroupByLookup | src/health/callbacks.py:125 | for every key, the group found under it holds exactly the rows with that key (none when absent); groups are key-ordered and non-empty |
| Grouping.GroupBySizesTotal | src/health/callbacks.py:125 | group sizes add up to the number of rows, and over any set of keys to the number of rows with such a key |
| Grouping.GroupBySumsTotal | src/health/callbacks.py:85 | per-group sums add up to the sum over all rows |
| Grouping.ValueCountsSpec | src/health/callbacks.py:101 | `value_counts` lists counts in non-increasing order; each key appears once; each count is the positive number of rows with that key; every row's key is listed with its count |
| Grouping.ValueCounts | src/health/callbacks.py:101 | `value_counts()`; specified by `Grouping.ValueCountsSpec` |
| Grouping.CountsForTotal | src/health/callbacks.py:169-175 | over distinct keys covering every row, the zero-filled per-key counts add up to the number of rows |
| Stats.MeanIsAverage | src/health/callbacks.py:54 | the mean taken once per value gives the sum, and it lies between the smallest and largest value |
| Stats.MeanBetween | src/health/callbacks.py:56 | a mean lies between the minimum and the maximum of the values averaged |
| Stats.Min | src/health/layout.py:107 | the minimum is one of the values and no value is below it |
| Stats.Max | src/health/layout.py:108 | the maximum is one of the values and no value is above it |
| Dashboard.FilterSpec | src/health/callbacks.py:44-50 | the kept rows are the rows passing all four tests, in table order; they sit at strictly increasing positions, and a position is kept exactly when its row passes |
| Dashboard.Filter | src/health/callbacks.py:44-50 | `data[mask]`; specified by `Dashboard.FilterSpec` |
| Dashboard.KeptAgesPresent | src/health/callbacks.py:46 | every kept row has its Age, so the ages averaged are exactly the kept rows' ages |
| Dashboard.SummaryOf | src/health/callbacks.py:53-56 | the patient count is the number of kept rows, and with no patient both averages are 0 |
| Dashboard.SummarySpec | src/health/callbacks.py:53-56 | the cards describe the kept rows: the count is their number and the billing total is the sum of the amounts present; when rows are kept, the average age and average stay are averages of their ages and stays; otherwise both averages are 0 |
| Dashboard.UpdateDashboard | src/health/callbacks.py:42-198 | the data table is exactly the filtered rows (`Filter`, so every passing row once, in table order, by `Dashboard.FilterSpec`); the patient count is the number of table rows; every table row comes from the data and passes the filter; with no patient the averages are 0 |
| Dashboard.EmptySelectionShowsZeros | src/health/callbacks.py:44-56 | with no condition or no gender selected, all cards are 0, and the table, the groupings and the pivot are empty |
| Dashboard.BillingByAdmissionTypeSpec | src/health/callbacks.py:85 | billing bars are one per admission type among the kept rows, in ascending order; each is the billing of exactly the rows of that type; every kept row's type has a bar; together they equal the Total Billing card |
| Dashboard.BillingGroups | src/health/callbacks.py:85 | the sums per admission type of any rows describe those rows as above |
| Dashboard.MedicationCountsSpec | src/health/callbacks.py:101-102 | medication counts are non-increasing, each medication is listed once with the positive number of kept rows prescribed it, and every kept row's medication is listed |
| Dashboard.BloodTypeSpec | src/health/callbacks.py:125-137 | blood-type counts are ascending by type, each the positive number of kept rows of that type; both they and the blood type × admission type counts add up to the patient count; for each blood type, its crosstab entries add up to its own count |
| Dashboard.BloodAdmissionSpec | src/health/callbacks.py:137 | the blood type × admission type counts are in ascending pair order, each the positive number of kept rows with that pair, and every kept row's pair is listed |
| Dashboard.CrossCounts | src/health/callbacks.py:137 | the pair counts of any rows describe those rows as above |
| Dashboard.PivotSpec | src/health/callbacks.py:169-175 | the pivot has one sorted row per kept condition and one sorted column per kept medication; each cell counts the kept rows with a Name and that pair, 0 when none; the cells add up to the number of kept rows with a Name, which is the patient count when every kept row has a Name |
| Dashboard.PivotOf | src/health/callbacks.py:169-175 | the `pivot_table` of the kept rows; specified by `Dashboard.PivotSpec`, `Dashboard.PivotOfCells` and `Dashboard.PivotOfTotal` |
| Dashboard.PivotOfCells | src/health/callbacks.py:169-175 | the pivot of any rows is laid out over them as above |
| Dashboard.PivotOfTotal | src/health/callbacks.py:169-175 | the pivot cells of any rows add up to the number of those rows with a Name |
| Dashboard.AllNamed | src/health/callbacks.py:172-173 | when every row has a Name, `count` of Name counts every row |
| Dashboard.FilterMonthly | src/health/callbacks.py:59-63 | the filtered monthly rows come from the monthly table and pass its mask, and every monthly row that passes is among them |
| Dashboard.FilterMonthlyOrdered | src/health/callbacks.py:59-63 | filtering monthly rows that are in strictly ascending (month label, condition) order keeps them so, hence each passing row appears once; with `Dashboard.FilterMonthly` and `HealthData.MonthlyAggregateSpec` this fixes the filtered rows exactly |
| Dashboard.MonthlyIgnoresAgeAndGender | src/health/callbacks.py:59-63 | the line chart data does not depend on the age slider or the gender checklist |
| Dashboard.MonthAlignedChartTotal | src/health/callbacks.py:59-63 | for a range from a month's first day to a month's last day, the line chart counts add up to the admissions with a selected condition in the range, which is at least the patient count |
| Dashboard.KeptWithinRange | src/health/callbacks.py:44-50 | the patient count never exceeds the number of admissions with a selected condition in the date range |
| Dashboard.PartialMonthDropped | src/health/callbacks.py:59-63 | as written: with one patient admitted on 10 January 2024 and the range 1–15 January 2024, the cards count 1 patient while the line chart shows no admission |
| Dashboard.AdmittedWithin | src/health/callbacks.py:59-63 | the admissions with a selected condition inside the range, as many as there are such admissions, each in range |
| Dashboard.AdmittedWithinSpec | src/health/callbacks.py:59-63 | those admissions are the table's in-range rows in table order: they sit at strictly increasing positions, and a position is among them exactly when its row is in range |
| Dashboard.MonthlyChartSpec | src/health/callbacks.py:59-63 | corrected chart: for any range, the rows are strictly ascending by (month label, condition), each count is the positive number of in-range admissions of its month and condition, and the counts add up to all in-range admissions with a selected condition, at least the patient count; every label is a month's last day with a selected condition; for a month-aligned range the total equals the chart as written |
| Dashboard.MonthlyChart | src/health/callbacks.py:59-63 | the corrected line chart data; specified by `Dashboard.MonthlyChartSpec` |
| LayoutDefaults.Unique | src/health/layout.py:50 | `unique()` lists each value of the column once, and exactly the values that occur |
| LayoutDefaults.Earliest | src/health/layout.py:138 | the start date is one record's admission date and no admission precedes it |
| LayoutDefaults.Latest | src/health/layout.py:139 | the end date is one record's admission date and no admission follows it |
| LayoutDefaults.Truncate | src/health/layout.py:107-109 | `int()` rounds toward zero: the result is within one of the value and not further from zero |
| LayoutDefaults.DefaultsSelectOtherColumns | src/health/layout.py:50-139 | the starting selection contains every record's condition and gender, and every admission lies within its date range |
| LayoutDefaults.DefaultSelectionKeepsWholeAges | src/health/layout.py:107-109 | when every Age is a whole number, the starting selection keeps exactly the records whose Age is present |
| LayoutDefaults.TruncatedMaximumExcludes | src/health/layout.py:109 | as written: a single record of Age 40.5 gives an age range ending at 40, and the starting dashboard keeps nobody |
| LayoutDefaults.DefaultSelection | src/health/layout.py:50-139 | the starting control values as the layout computes them; specified by `LayoutDefaults.DefaultsSelectOtherColumns`, `LayoutDefaults.DefaultSelectionKeepsWholeAges` and `LayoutDefaults.TruncatedMaximumExcludes` |
| LayoutDefaults.CoveringSelectionKeepsAll | src/health/layout.py:107-109 | corrected slider: rounding the bounds outward gives a selection exactly when some Age is present, and it keeps exactly the records whose Age is present |
| LayoutDefaults.CoveringSelection | src/health/layout.py:107-109 | the starting values with the age bounds rounded outward; specified by `LayoutDefaults.CoveringSelectionKeepsAll` |

## Left out

- Plotly figures, their themes and the pie charts and box plot: the pies and the box plot draw `filtered_data` directly. Pandas computes no separate data for them beyond what is modelled.
- Rounding of the two averages to one decimal and the `$…,.2f` text of Total Billing: the cards hold exact values.
- Floating point: ages, amounts and means are exact reals, so there is no rounding error and no NaN arithmetic.
- Date parsing in general: the CSV date cells arrive already classified as a calendar date or unreadable text, since `to_datetime`'s format inference is outside this model.
- Blank date cells, which pandas turns into NaT without failing: the model has no missing date.
- Dates outside pandas' timestamp range: dates are unbounded proleptic Gregorian dates.
- Exponents, surrounding whitespace, `inf` and `nan` spellings in `to_numeric`: only plain decimal numerals with an optional sign parse.
- Missing values in the grouping columns (Medical Condition, Medication, Blood Type, Admission Type, Gender): `groupby` drops NaN keys, while the model has none.
- Grouping.ValueCountsSpec: ties between equal counts are ordered by key, an order pandas does not promise; the contract does not fix the tie order.
- The monthly aggregate lists only the (month, condition) pairs that occur, which is what `size()` on a `Grouper` with a second key gives.
- Reading the CSV file, and the import-time load of the module-level `data` and `monthly_data`: the model starts from the rows.
- Dash wiring (`register_callbacks`, `app.callback`), the rest of the layout, the app and its run script: they only connect the controls to the callback.
- A cleared control (a `None` condition list, gender list or date) and date strings from the picker: the selection always holds lists and dates.
- Columns the pipeline never reads (Doctor, Hospital, Insurance Provider, Room Number, Test Results) travel as `otherColumns`, unparsed.
- `to_dict('records')` of the table: the table is the list of kept records.
- The recomputation keeps the line chart as written, from the month-labelled rows; the corrected `Dashboard.MonthlyChart` stands beside it (see Findings).

## Findings

| source | as written | input that shows it | evidently intended | confidence | as-written member | corrected member |
|---|---|---|---|---|---|---|
| src/health/callbacks.py:59-63 | the monthly rows are filtered by comparing each month's last-day label with the date range, so a range ending mid-month drops that whole month, and one starting mid-month keeps all of its first month | one patient admitted 2024-01-10, range 2024-01-01 to 2024-01-15: the cards count 1 patient, the line chart 0 admissions; the default end date is the latest admission, so the last month is usually dropped | the chart counts the admissions inside the selected range | medium; not executed | Dashboard.PartialMonthDropped | Dashboard.MonthlyChartSpec |
| src/health/layout.py:107-109 | the age slider's default bounds are `int()` of the minimum and maximum Age, truncating toward zero, so a fractional maximum falls outside the range | a single record with Age 40.5: the slider starts at [40, 40] and the starting dashboard keeps nobody | the starting range covers every Age present | medium; not executed | LayoutDefaults.TruncatedMaximumExcludes | LayoutDefaults.CoveringSelectionKeepsAll |
