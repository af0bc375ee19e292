# Growth-chart z-score dispatch, modelled in Dafny

This project models the core of `height_age_weight_percentiles.py`. That script turns pediatric
weight and height measurements into z-scores, using CDC growth-chart reference tables. The tables hold
LMS parameters (L, M, S) for each age in months and each sex.

The model covers:

- the unit constants and conversions: pounds to kilograms, inches to centimetres;
- the conversion of age in days to average months (365.25/12 days a month);
- the in-place step that adds the `Sex_str` column to a reference frame (`CdcFrame.AddStringMaleFemale`);
- the reference-row lookup. At age exactly 0 it takes the first row. Otherwise it takes the last row,
  in table order, whose floored age is at most the floored target age and whose `Sex_str` equals the
  requested sex;
- the per-record rule for weight and height. A negative value is missing (NaN). Otherwise the value is
  converted, looked up and scored;
- the row-wise apply over a subject dataset.

Modules: `Wrappers` (Option), `Conversions`, `CdcTables` (rows, sex labels, the frame class),
`ReferenceLookup` (the lookup function, a backward-scanning method proved equal to it, and its
properties) and `ZScoreRows` (per-record rules and the batch).

The LMS formula is a parameter `zscore: (real, real, real, real) -> real`. The dispatch is therefore
proved without real powers. Python's dynamic sex value is the datatype `SexValue = Code(int) |
Label(string)`. Two different constructors are never equal, just as `'Male' == 1` is `False` in Python.
A lookup that would raise is `None`. When one record's lookup fails, the whole apply fails (`ApplyRows`
returns `None`), because the exception stops the apply.

The model follows the code as written:

- A negative measurement yields missing (`np.nan`).
- The record's sex value goes into the lookup unmapped (see Findings).
- The age-zero bypass ignores sex.
- A lookup that finds no row raises, and the model gives `None` for it.

The per-record rules take the sex argument as a parameter. `AsWrittenSexArgument` is the code as
written. `CorrectedSexArgument` is the intended mapping.

## Model

| member | source | states |
|---|---|---|
| `Conversions.PoundsToKilograms` | height_age_weight_percentiles.py:58 | the kilogram value times 2.20462262185 gives back the pounds |
| `Conversions.InchesToCentimeters` | height_age_weight_percentiles.py:73 | the centimetre value divided by 2.54 gives back the inches |
| `Conversions.AgeInDaysToMonths` | height_age_weight_percentiles.py:22-23 | the months times 365.25/12 give back the days; a non-negative age in days gives months between 0 and the day count |
| `Conversions.AgeOfOneYear` | height_age_weight_percentiles.py:22-23 | 365.25 days are exactly 12 months and 0 days are 0 months |
| `Conversions.AgeZeroOnlyAtDayZero` | height_age_weight_percentiles.py:23 | the month age is 0 exactly when the day age is 0, so the age-zero bypass is reached from day 0 only |
| `Conversions.AgeMonotone` | height_age_weight_percentiles.py:22-23 | the conversion preserves and reflects order |
| `Conversions.ConversionsKeepSign` | height_age_weight_percentiles.py:53-73 | both unit conversions keep the sign, so the negative test gives the same answer before and after conversion |
| `Conversions.UnitExamples` | height_age_weight_percentiles.py:8-9 | 2.20462262185 lb is 1 kg, 22.0462262185 lb is 10 kg, 1 in is 2.54 cm |
| `CdcTables.SexLabel` | height_age_weight_percentiles.py:27 | code 1 maps to "Male" and every other code to "Female", both as if-and-only-if |
| `CdcTables.SexLabels` | height_age_weight_percentiles.py:27 | the column has one label per row; a label is "Male" exactly when the row's code is 1 and "Female" exactly when it is not |
| `CdcTables.CdcFrame.constructor` | height_age_weight_percentiles.py:12-13 | a loaded frame holds the spreadsheet rows and has no Sex_str column |
| `CdcTables.CdcFrame.AddStringMaleFemale` | height_age_weight_percentiles.py:26-27 | after the call the frame has a Sex_str column, one label per row from that row's code; the rows are unchanged |
| `CdcTables.LabelledTable` | height_age_weight_percentiles.py:88-91 | a frame loaded from the rows and labelled in place gives a table holding those rows and, for each row, the label of its code |
| `ReferenceLookup.Matches` | height_age_weight_percentiles.py:34 | the mask on one row; an integer sex value never passes it, since it is never equal to a Sex_str string |
| `ReferenceLookup.Selected` | height_age_weight_percentiles.py:34 | exactly the positions passing the mask, each one once, in increasing table order |
| `ReferenceLookup.LastSelected` | height_age_weight_percentiles.py:35 | a chosen position is inside the table and passes the mask |
| `ReferenceLookup.VariablesFor` | height_age_weight_percentiles.py:30-35 | any returned row is a row of the table |
| `ReferenceLookup.LastSelectedIsLastMatch` | height_age_weight_percentiles.py:34-35 | the choice is k exactly when row k passes the mask and no later row does; nothing is chosen exactly when no row passes |
| `ReferenceLookup.LookupAtAgeZero` | height_age_weight_percentiles.py:31-32 | at age 0 the first row is returned for every requested sex, without a Sex_str column too; an empty table fails |
| `ReferenceLookup.LookupReturnsLastMatch` | height_age_weight_percentiles.py:33-35 | at a nonzero age the result is row k exactly when a row equal to it passes the mask with no passing row after it |
| `ReferenceLookup.LookupResultMatches` | height_age_weight_percentiles.py:34-35 | at a nonzero age a returned row has the requested sex label and a floored age at most the target's |
| `ReferenceLookup.LookupFailsIffNoMatch` | height_age_weight_percentiles.py:34-35 | at a nonzero age the lookup fails exactly when the Sex_str column is absent or no row passes the mask |
| `ReferenceLookup.LookupHasGreatestMatchingAge` | height_age_weight_percentiles.py:34-35 | in a table sorted by age within each sex, the returned row has the greatest age among the passing rows |
| `ReferenceLookup.LookupBySexCodeFails` | height_age_weight_percentiles.py:34 | at a nonzero age a lookup with an integer sex code always fails |
| `ReferenceLookup.LookupExample` | height_age_weight_percentiles.py:30-35 | with female rows at 0, 2, 4, 6 months and a male row at 5: female at 5 months gives the 4-month row, male at 5.5 gives the male row, and age 0 gives the first (female) row to a male |
| `ReferenceLookup.FindLastBackwards` | height_age_weight_percentiles.py:30-35 | a scan from the end of the table returns exactly what the lookup returns |
| `ZScoreRows.AsWrittenSexArgument` | height_age_weight_percentiles.py:60 | the lookup receives the record's raw integer code |
| `ZScoreRows.CorrectedSexArgument` | height_age_weight_percentiles.py:27 | the lookup receives a label, "Male" exactly for code 1 and "Female" exactly for every other code |
| `ZScoreRows.ZScoreForAgeInMonthsAndSex` | height_age_weight_percentiles.py:38-40 | fails exactly when the lookup fails; otherwise gives the formula at the selected row's L, M, S |
| `ZScoreRows.MeasurementPerRow` | height_age_weight_percentiles.py:52-61 | a negative raw value is missing; a non-negative one is never missing and fails exactly when the lookup at the converted age fails |
| `ZScoreRows.WeightZScorePerRow` | height_age_weight_percentiles.py:52-61 | missing exactly for a negative weight; fails exactly for a non-negative weight whose lookup fails (values stated by `NegativeMeasurementIsMissing` and `WeightGoesThroughLookup`) |
| `ZScoreRows.HeightZScorePerRow` | height_age_weight_percentiles.py:67-76 | missing exactly for a negative height; fails exactly for a non-negative height whose lookup fails (values stated by `NegativeMeasurementIsMissing` and `HeightGoesThroughLookup`) |
| `ZScoreRows.ApplyRows` | height_age_weight_percentiles.py:63 | succeeds exactly when every record succeeds, and then gives one outcome per record in order |
| `ZScoreRows.CalculateZScoreForWeight` | height_age_weight_percentiles.py:51-63 | the column fails exactly when some non-negative weight's lookup fails; otherwise it has one entry per record, missing exactly where the weight is negative, and elsewhere the formula at the kilogram weight and the looked-up row's L, M, S |
| `ZScoreRows.CalculateZScoreForHeight` | height_age_weight_percentiles.py:66-78 | the column fails exactly when some non-negative height's lookup fails; otherwise it has one entry per record, missing exactly where the height is negative, and elsewhere the formula at the centimetre height and the looked-up row's L, M, S |
| `ZScoreRows.NegativeMeasurementIsMissing` | height_age_weight_percentiles.py:53-69 | a negative weight or height is missing whatever the table, the formula and the rest of the record |
| `ZScoreRows.WeightGoesThroughLookup` | height_age_weight_percentiles.py:55-61 | a non-negative weight is divided by 2.20462262185, the age is divided by 365.25/12, and the formula is applied at the looked-up row; the record fails when the lookup does |
| `ZScoreRows.HeightGoesThroughLookup` | height_age_weight_percentiles.py:70-76 | a non-negative height is multiplied by 2.54, the age is divided by 365.25/12, and the formula is applied at the looked-up row; the record fails when the lookup does |
| `ZScoreRows.AsWrittenSexFails` | height_age_weight_percentiles.py:56-61 | with the raw code, every non-negative weight or height at a nonzero age fails, for every table |
| `ZScoreRows.CorrectedSexFindsRow` | height_age_weight_percentiles.py:56-75 | with the mapped label, a non-negative weight or height at a nonzero age is scored exactly when some row of the record's sex is not older (floored) than the record |
| `ZScoreRows.EndToEndAsWrittenFails` | height_age_weight_percentiles.py:56-61 | the 22.0462262185 lb, 365.25-day, code-1 record fails against a table with a male 12-month row |
| `ZScoreRows.EndToEndCorrected` | height_age_weight_percentiles.py:56-61 | with the mapped label, that record is scored as the formula at 10 kg with L = 1, M = 10, S = 0.1 |
| `ZScoreRows.AllMissingColumn` | height_age_weight_percentiles.py:51-63 | records whose weights are all negative give a column of missing values |

## Left out

- `get_cdc_dataframe`, `get_nsqip_dataframe` and the module-level script (lines 81-97): spreadsheet
  loading, hard-coded paths and console output are I/O. The reference tables and the records are
  parameters here. Only the load-then-label sequence of lines 88-91 is modelled, by `LabelledTable`.
- `Record.sex` is an `int`: the model assumes the subject dataset codes sex as 1 / other. The source
  never fixes the type of `row['SEX']`. If the dataset held the strings "Male" / "Female", the as-written
  lookup would match, and the Finding below would not apply.
- `zscore_for_measurement` (line 44): the formula raises a floating-point ratio to the real power L.
  Dafny's reals have no such power, so it is the parameter `zscore`. The model therefore says nothing
  about division by zero when L, M or S is 0.
- `percentile_for_zscore` (line 48): a wrapper over scipy's normal distribution function, in floating point.
- Floating-point rounding and NaN inputs: all arithmetic is exact `real`. A NaN weight, height or age is
  not representable. The test `age_in_mos == 0` is exact equality.
- `ApplyRows`: an exception becomes `None` for the whole column. The kind of exception (IndexError on
  an empty selection, AttributeError on a missing `Sex_str` column) is not distinguished.
- `VariablesFor`: returns the whole row; callers read only L, M and S from it.
- DataFrame mechanics are not modelled (column assignment `nsqip_df['wt_zscore'] = ...`, index labels,
  dtype conversions). A column is a sequence with one cell per row.

## Findings

| source | as written | input that shows it | evidently intended | confidence | as-written member | corrected member |
|---|---|---|---|---|---|---|
| height_age_weight_percentiles.py:60 | the lookup receives the record's `SEX` value unmapped, and line 34 compares it with the string column `Sex_str` built at line 27; when `SEX` is a numeric code it never equals a string, so at any nonzero age the selection is empty and `iloc[-1]` raises | `WEIGHT=22.0462262185, AGE_DAYS=365.25, SEX=1` against a table with a male row at 12 months (line 75 has the same defect for height) | map the code with the line-27 rule ("Male" for 1, "Female" otherwise) before the lookup | medium, depends on the dataset's SEX type, not executed | `ZScoreRows.AsWrittenSexFails` | `ZScoreRows.CorrectedSexFindsRow` |
