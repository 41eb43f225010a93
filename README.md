# French first-name dashboard: cleaning, filtering and aggregation

The dashboard shows how often each French first name was given, by year,
sex and department. It loads a table of (sex, first name, year, department,
count) records and cleans it once. Then, whenever a control changes, its
update handler filters the table by four controls (a first name, a sex
checklist, a year range slider and a department selection). It sums the
count of people per year for a line chart and per department for a
choropleth map.

This project models that data layer as pure Dafny functions over
`seq<Row>` and proves what it promises:

- `Records` holds the raw input line, the cleaned row, and the dynamically
  typed sex cell (`Int` or `Str`). The sex column really is mixed after
  relabelling: codes 1 and 2 become strings and other codes stay integers.
- `Cleaning` models the sex relabelling and the department normalisation.
  Normalisation means the decimal form of the code, left-padded with `0`
  to a width of two, as `f"{int(x):02}"` does. It also models the
  element-wise cleaning pass.
- `Filtering` models the four mask stages of the handler. The name, sex
  and department stages are skipped when their control is `None` or empty.
  The year stage always applies. This module also gives a reference
  condition `Passes` and the slider bounds.
- `Aggregation` models the group-by-sum as `map<K, nat>`, with a ghost sum
  over a map's values.
- `Dashboard` models the handler itself, `UpdateGraph`, which returns the
  data of both charts.

The source comment at line 56 of `appstyles_JENNYFER_WAN.py` only mentions
departments 1 to 9. `f"{x:02}"` pads to a width of *at least* two, so
codes of 100 or more keep all their digits. `Cleaning.PadDepartment` models
exactly that.

## Model

| member | source | states |
|---|---|---|
| Cleaning.RenameSexe | appstyles_JENNYFER_WAN.py:44-52 | the relabelling never leaves a raw code 1 or 2 behind, changes only the codes 1 and 2, and produces no string other than its input, "Man" or "Woman"; its exact cases are in RenameSexeCases |
| Cleaning.RenameSexeCases | appstyles_JENNYFER_WAN.py:44-52 | code 1 becomes "Man", code 2 becomes "Woman", and every other value is returned unchanged |
| Cleaning.RenameSexeIdempotent | appstyles_JENNYFER_WAN.py:44-52 | relabelling a value that was already relabelled leaves it as it is |
| Cleaning.RenameSexeInjective | appstyles_JENNYFER_WAN.py:44-52 | distinct raw integer codes get distinct labels |
| Cleaning.Decimal | appstyles_JENNYFER_WAN.py:57 | the decimal form of a code is all digits, has no leading zero for a code of 1 or more, has one digit exactly for codes below 10 and at most two exactly for codes below 100 |
| Cleaning.ParseDecimalOfDecimal | appstyles_JENNYFER_WAN.py:57 | the decimal form reads back as the number it was made from |
| Cleaning.PadDepartment | appstyles_JENNYFER_WAN.py:57 | the padded code is all digits, at least two long, exactly two long iff the code is below 100, and reads back as the raw code |
| Cleaning.PadDepartmentShape | appstyles_JENNYFER_WAN.py:57 | codes 0-9 become "0" followed by their digit; codes of 10 or more become their plain decimal form, which has no leading zero |
| Cleaning.PadDepartmentInjective | appstyles_JENNYFER_WAN.py:57 | two raw codes give the same padded string iff they are equal, so grouping by the padded string never merges departments |
| Cleaning.CleanRow | appstyles_JENNYFER_WAN.py:54-57 | a cleaned row keeps sex, name, year and count; its department is the padded form of the raw code, so it is at least two long and reads back as that code; its label is the relabelled sex |
| Cleaning.Clean | appstyles_JENNYFER_WAN.py:54-57 | cleaning keeps the table's length and order; each row keeps its raw line's fields, carries the padded department of that line's code and the relabelled sex |
| Cleaning.CleanLabels | appstyles_JENNYFER_WAN.py:44-54 | every label in a cleaned table is "Man", "Woman" or an integer code other than 1 and 2 |
| Filtering.Select | appstyles_JENNYFER_WAN.py:163 | a boolean-mask selection never grows the table and keeps exactly the rows that satisfy the mask |
| Filtering.SelectSubsequence | appstyles_JENNYFER_WAN.py:163 | a mask selection is a subsequence of the rows it selects from |
| Filtering.ApplyStage | appstyles_JENNYFER_WAN.py:162-172 | one stage (applied when `StageActive`, skipped when its control is empty or unset, the year stage always applied) never grows the table and keeps exactly the rows meeting its demand |
| Filtering.FilterRows | appstyles_JENNYFER_WAN.py:160-172 | the four stages chained in the handler's order never grow the table and keep exactly the table's rows that meet the reference condition `Passes`; FilterRowsCharacterised adds order and repetitions |
| Filtering.ApplyStageSelect | appstyles_JENNYFER_WAN.py:162-172 | each stage, whether applied or skipped because its control is empty, selects the rows meeting that stage's demand |
| Filtering.ApplyStagesSelect | appstyles_JENNYFER_WAN.py:160-172 | applying any list of stages keeps exactly the rows that every listed stage lets through, in order |
| Filtering.AllStagesPassIffPasses | appstyles_JENNYFER_WAN.py:162-172 | a list holding every stage demands exactly the reference condition: the name matches when set, the label is selected when the checklist is set, the year is in the slider's range, and the department is selected when the dropdown is set |
| Filtering.FilterRowsAsStages | appstyles_JENNYFER_WAN.py:160-172 | the handler's filtering is the four stages in the order name, sex, year, department |
| Filtering.FilterRowsCharacterised | appstyles_JENNYFER_WAN.py:160-172 | the filtered table equals the base table restricted, in order and with repetitions, to the rows meeting the reference condition |
| Filtering.FilterRowsMembership | appstyles_JENNYFER_WAN.py:160-172 | a row survives iff it is in the base table and meets the reference condition |
| Filtering.FilterRowsSubsequence | appstyles_JENNYFER_WAN.py:160-172 | filtering only removes rows and keeps survivors in their original relative order |
| Filtering.FilterOrderIndependent | appstyles_JENNYFER_WAN.py:162-172 | applying the four stages in any order, each at least once, gives the handler's result |
| Filtering.FilterRowsIdentity | appstyles_JENNYFER_WAN.py:162-172 | with no name, no sex and no department selected and a year range that covers every row, the filtered table is the base table |
| Filtering.MinYear | appstyles_JENNYFER_WAN.py:109 | the slider minimum is a year of the table and no row is earlier |
| Filtering.MaxYear | appstyles_JENNYFER_WAN.py:110 | the slider maximum is a year of the table and no row is later |
| Filtering.FullRangeKeepsAll | appstyles_JENNYFER_WAN.py:111 | with the slider at its initial full range and no other control set, nothing is filtered out |
| Aggregation.GroupSum | appstyles_JENNYFER_WAN.py:175 | the keys of a group-by-sum are exactly the distinct keys of the grouped rows, so a key without a group has no rows; its values are given by GroupSumValues and their sum by GroupSumConserves |
| Aggregation.GroupSumValues | appstyles_JENNYFER_WAN.py:175 | each group's sum is the total count of the rows with that key |
| Aggregation.MapTotalRemove | appstyles_JENNYFER_WAN.py:175 | the sum over a grouping's values is the same whichever key is taken out first |
| Aggregation.GroupSumConserves | appstyles_JENNYFER_WAN.py:175 | the group sums add up to the total count of the grouped rows |
| Aggregation.ByYear | appstyles_JENNYFER_WAN.py:175 | the line chart's years are exactly the distinct years of the rows |
| Aggregation.ByYearValues | appstyles_JENNYFER_WAN.py:175 | each year's value is the total count of the rows of that year |
| Aggregation.ByDepartment | appstyles_JENNYFER_WAN.py:181 | the map's departments are exactly the distinct departments of the rows |
| Aggregation.ByDepartmentValues | appstyles_JENNYFER_WAN.py:181 | each department's value is the total count of the rows of that department |
| Aggregation.GroupingsConserveTotal | appstyles_JENNYFER_WAN.py:175-181 | the sums per year and the sums per department both add up to the same total count |
| Aggregation.GroupingsEmptyIff | appstyles_JENNYFER_WAN.py:175-181 | each grouping is empty iff there are no rows |
| Dashboard.UpdateGraph | appstyles_JENNYFER_WAN.py:158-181 | the handler's two outputs are empty together or not at all, and every year on the line chart lies in the slider's range; the Dashboard lemmas below give its groups, sums and edge cases |
| Dashboard.UpdateGraphGroups | appstyles_JENNYFER_WAN.py:158-181 | the line chart has one point per distinct year of the filtered rows and the map one value per distinct department; each value is those rows' total count |
| Dashboard.UpdateGraphKeysWithinControls | appstyles_JENNYFER_WAN.py:168-181 | every year on the line chart is inside the slider's range, and when departments are selected the map shows no other department |
| Dashboard.UpdateGraphConserves | appstyles_JENNYFER_WAN.py:175-181 | the line chart and the map show the same number of people, which is the total count of the filtered rows |
| Dashboard.UpdateGraphEmptyIff | appstyles_JENNYFER_WAN.py:160-181 | both charts are empty iff no row of the table passes the filters; the empty case needs no special handling |
| Dashboard.UnknownNameGivesEmptyCharts | appstyles_JENNYFER_WAN.py:162-163 | a first name that no row carries gives two empty charts |
| Dashboard.UnfilteredCharts | appstyles_JENNYFER_WAN.py:158-181 | with no control set and the slider over the full year range, the charts group the whole table |
| Dashboard.DefaultChecklistShowsNothing | appstyles_JENNYFER_WAN.py:100 | the checklist's initial selection "Homme" is never a cleaned label, so with it every cleaned table gives two empty charts, whatever the other controls hold |
| Dashboard.WorkedExample | appstyles_JENNYFER_WAN.py:158-181 | Jean (man, 1950, department 1, 100 people) and Marie (woman, 1950, department 1, 80): selecting "Jean" among men over 1900-2000 gives the point (1950, 100) and department "01" at 100 |

## Left out

- Dash app construction, the page layout, its styling and the callback wiring (lines 17-20, 62-138, 147-154, 202-203) are user-interface framework glue. The checklist and dropdown option lists and the slider's tick marks are also layout, though the slider bounds and the checklist default are modelled.
- The Plotly figures (lines 74-86, 176-178, 182-195) are rendering only. The model stops at the data given to them. This includes the line chart title, which quotes the name control. It also includes the map join on `properties.code`: a department without a group simply has no key in `mapValues`, which Plotly draws as no data.
- The geojson network fetch and the CSV read (lines 24-28) are I/O. The model starts from the raw table as a given `seq<RawRow>`.
- The column rename (lines 36-42) only names the schema. `RawRow` uses the renamed fields directly.
- Non-numeric department codes such as "2A"/"2B" make `int(x)` raise, and negative codes would format with a sign. Department codes are `nat` in the model, so neither case is represented.
- The sort order of pandas group-by results is not modelled. A `map` has no order. `px.line` joins its points in row order, and the line runs in year order only because `groupby` sorts its keys ascending. Reading a grouping's keys in ascending order gives that same sequence.
- Counts are unbounded naturals. The 64-bit integer overflow of pandas sums is not modelled.
- Filtering.MinYear: requires a non-empty table. On an empty one, pandas gives NaN and the slider's `range` raises, so startup fails.
- Filtering.MaxYear: requires a non-empty table, for the same reason.
- The handler's `annee_choisi` is modelled as a pair. The slider always supplies two values, so a missing or short list is not represented.
