/**
 * The per-record rule for weight and for height: a negative measurement is
 * missing; otherwise the measurement is converted to metric units, the age to
 * months, the reference row is looked up and its L, M, S go into the LMS
 * z-score formula. The batch applies that rule to every record in order.
 */
module ZScoreRows {
  import opened Wrappers
  import opened Conversions
  import opened CdcTables
  import opened ReferenceLookup

  /** The LMS transform from a measurement and L, M, S to a z-score, kept abstract. */
  type ZScoreFormula = (real, real, real, real) -> real

  /** One subject record: weight in pounds, height in inches, age in days, integer sex code. */
  datatype Record = Record(weight: real, height: real, ageDays: real, sex: int)

  /** The value produced for one record: missing (NaN), or a z-score. */
  datatype Outcome = Missing | ZScore(z: real)

  /** The sex argument as the per-record rules pass it: the record's raw integer code. */
  function AsWrittenSexArgument(code: int): (v: SexValue)
    ensures v.Code? && v.code == code
  {
    Code(code)
  }

  /** The sex argument the lookup can match: the record's code mapped to its label as the table's column is. */
  function CorrectedSexArgument(code: int): (v: SexValue)
    ensures v.Label? && (v.text == "Male" <==> code == 1) && (v.text == "Female" <==> code != 1)
  {
    Label(SexLabel(code))
  }

  /**
   * The z-score for a measurement at an age in months: fails exactly when the
   * lookup fails, and otherwise is the formula at the selected row's L, M, S.
   */
  function ZScoreForAgeInMonthsAndSex(t: Table, zscore: ZScoreFormula, measurement: real, ageInMos: real, sex: SexValue): (r: Option<real>)
    ensures r.None? <==> VariablesFor(t, ageInMos, sex).None?
    ensures forall v :: VariablesFor(t, ageInMos, sex) == Some(v) ==> r == Some(zscore(measurement, v.l, v.m, v.s))
  {
    match VariablesFor(t, ageInMos, sex)
    case None => None
    case Some(v) => Some(zscore(measurement, v.l, v.m, v.s))
  }

  /**
   * The shared per-record rule: a negative raw value is missing and nothing is
   * looked up; otherwise the converted value is scored at the record's age.
   * None stands for the failure of the lookup, which aborts the batch.
   */
  function MeasurementPerRow(t: Table, zscore: ZScoreFormula, raw: real, converted: real, ageDays: real, sex: SexValue): (r: Option<Outcome>)
    ensures raw < 0.0 ==> r == Some(Missing)
    ensures raw >= 0.0 ==> r != Some(Missing)
    ensures raw >= 0.0 ==> (r.None? <==> VariablesFor(t, AgeInDaysToMonths(ageDays), sex).None?)
  {
    if raw < 0.0 then Some(Missing)
    else
      match ZScoreForAgeInMonthsAndSex(t, zscore, converted, AgeInDaysToMonths(ageDays), sex)
      case None => None
      case Some(z) => Some(ZScore(z))
  }

  /** The per-record weight rule: pounds to kilograms before scoring. */
  function WeightZScorePerRow(t: Table, zscore: ZScoreFormula, sexArg: int -> SexValue, rec: Record): (r: Option<Outcome>)
    ensures r == Some(Missing) <==> rec.weight < 0.0
    ensures r.None? <==> rec.weight >= 0.0 && VariablesFor(t, AgeInDaysToMonths(rec.ageDays), sexArg(rec.sex)).None?
  {
    MeasurementPerRow(t, zscore, rec.weight, PoundsToKilograms(rec.weight), rec.ageDays, sexArg(rec.sex))
  }

  /** The per-record height rule: inches to centimetres before scoring. */
  function HeightZScorePerRow(t: Table, zscore: ZScoreFormula, sexArg: int -> SexValue, rec: Record): (r: Option<Outcome>)
    ensures r == Some(Missing) <==> rec.height < 0.0
    ensures r.None? <==> rec.height >= 0.0 && VariablesFor(t, AgeInDaysToMonths(rec.ageDays), sexArg(rec.sex)).None?
  {
    MeasurementPerRow(t, zscore, rec.height, InchesToCentimeters(rec.height), rec.ageDays, sexArg(rec.sex))
  }

  /**
   * A row-wise apply: the outcome of every record in order, or None as soon
   * as the rule fails on any record.
   */
  function ApplyRows(records: seq<Record>, perRow: Record -> Option<Outcome>): (r: Option<seq<Outcome>>)
    ensures r.Some? <==> forall i :: 0 <= i < |records| ==> perRow(records[i]).Some?
    ensures r.Some? ==> |r.value| == |records|
    ensures r.Some? ==> forall i :: 0 <= i < |records| ==> perRow(records[i]) == Some(r.value[i])
    decreases |records|
  {
    if records == [] then Some([])
    else
      match perRow(records[0])
      case None => None
      case Some(first) =>
        match ApplyRows(records[1..], perRow)
        case None => None
        case Some(rest) => Some([first] + rest)
  }

  /** The weight z-score column of a subject dataset against the weight-for-age table. */
  function CalculateZScoreForWeight(records: seq<Record>, t: Table, zscore: ZScoreFormula, sexArg: int -> SexValue): (r: Option<seq<Outcome>>)
    ensures r.Some? ==> |r.value| == |records|
    ensures r.Some? ==> forall i :: 0 <= i < |records| ==> (r.value[i] == Missing <==> records[i].weight < 0.0)
    ensures r.None? <==> exists i :: (0 <= i < |records| && records[i].weight >= 0.0 &&
      VariablesFor(t, AgeInDaysToMonths(records[i].ageDays), sexArg(records[i].sex)).None?)
    ensures r.Some? ==> forall i, v :: (0 <= i < |records| && records[i].weight >= 0.0 &&
      VariablesFor(t, AgeInDaysToMonths(records[i].ageDays), sexArg(records[i].sex)) == Some(v)) ==>
      r.value[i] == ZScore(zscore(PoundsToKilograms(records[i].weight), v.l, v.m, v.s))
  {
    ApplyRows(records, rec => WeightZScorePerRow(t, zscore, sexArg, rec))
  }

  /** The height z-score column of a subject dataset against the length/stature-for-age table. */
  function CalculateZScoreForHeight(records: seq<Record>, t: Table, zscore: ZScoreFormula, sexArg: int -> SexValue): (r: Option<seq<Outcome>>)
    ensures r.Some? ==> |r.value| == |records|
    ensures r.Some? ==> forall i :: 0 <= i < |records| ==> (r.value[i] == Missing <==> records[i].height < 0.0)
    ensures r.None? <==> exists i :: (0 <= i < |records| && records[i].height >= 0.0 &&
      VariablesFor(t, AgeInDaysToMonths(records[i].ageDays), sexArg(records[i].sex)).None?)
    ensures r.Some? ==> forall i, v :: (0 <= i < |records| && records[i].height >= 0.0 &&
      VariablesFor(t, AgeInDaysToMonths(records[i].ageDays), sexArg(records[i].sex)) == Some(v)) ==>
      r.value[i] == ZScore(zscore(InchesToCentimeters(records[i].height), v.l, v.m, v.s))
  {
    ApplyRows(records, rec => HeightZScorePerRow(t, zscore, sexArg, rec))
  }

  /** A negative weight or height is missing whatever the table, the formula and the rest of the record. */
  lemma NegativeMeasurementIsMissing(t: Table, zscore: ZScoreFormula, sexArg: int -> SexValue, rec: Record)
    ensures rec.weight < 0.0 ==> WeightZScorePerRow(t, zscore, sexArg, rec) == Some(Missing)
    ensures rec.height < 0.0 ==> HeightZScorePerRow(t, zscore, sexArg, rec) == Some(Missing)
  {
  }

  /**
   * A non-negative weight is divided by 2.20462262185, the age is converted
   * with 365.25/12 days a month, and the z-score is the formula at the row
   * the lookup selects; the record fails when the lookup does.
   */
  lemma WeightGoesThroughLookup(t: Table, zscore: ZScoreFormula, sexArg: int -> SexValue, rec: Record)
    requires rec.weight >= 0.0
    ensures WeightZScorePerRow(t, zscore, sexArg, rec) ==
      match VariablesFor(t, rec.ageDays / (365.25 / 12.0), sexArg(rec.sex))
      case None => None
      case Some(v) => Some(ZScore(zscore(rec.weight / 2.20462262185, v.l, v.m, v.s)))
  {
  }

  /**
   * A non-negative height is multiplied by 2.54, the age is converted with
   * 365.25/12 days a month, and the z-score is the formula at the row the
   * lookup selects; the record fails when the lookup does.
   */
  lemma HeightGoesThroughLookup(t: Table, zscore: ZScoreFormula, sexArg: int -> SexValue, rec: Record)
    requires rec.height >= 0.0
    ensures HeightZScorePerRow(t, zscore, sexArg, rec) ==
      match VariablesFor(t, rec.ageDays / (365.25 / 12.0), sexArg(rec.sex))
      case None => None
      case Some(v) => Some(ZScore(zscore(rec.height * 2.54, v.l, v.m, v.s)))
  {
  }

  /**
   * With the record's raw code as the sex argument, a non-negative measurement
   * at any nonzero age fails in the lookup, for every table.
   */
  lemma AsWrittenSexFails(t: Table, zscore: ZScoreFormula, rec: Record)
    requires rec.ageDays != 0.0
    ensures rec.weight >= 0.0 ==> WeightZScorePerRow(t, zscore, AsWrittenSexArgument, rec) == None
    ensures rec.height >= 0.0 ==> HeightZScorePerRow(t, zscore, AsWrittenSexArgument, rec) == None
  {
    AgeZeroOnlyAtDayZero(rec.ageDays);
    LookupBySexCodeFails(t, AgeInDaysToMonths(rec.ageDays), rec.sex);
  }

  /**
   * With the record's code mapped to its label, a non-negative weight or
   * height at a nonzero age is scored exactly when some row of the record's
   * sex has a floored age not above the record's floored age in months.
   */
  lemma CorrectedSexFindsRow(t: Table, zscore: ZScoreFormula, rec: Record)
    requires rec.ageDays != 0.0 && t.sexStr.Some?
    ensures rec.weight >= 0.0 ==> (WeightZScorePerRow(t, zscore, CorrectedSexArgument, rec).Some? <==>
      exists j :: 0 <= j < |t.rows| && t.sexStr.value[j] == SexLabel(rec.sex) &&
        t.rows[j].agemos.Floor <= AgeInDaysToMonths(rec.ageDays).Floor)
    ensures rec.height >= 0.0 ==> (HeightZScorePerRow(t, zscore, CorrectedSexArgument, rec).Some? <==>
      exists j :: 0 <= j < |t.rows| && t.sexStr.value[j] == SexLabel(rec.sex) &&
        t.rows[j].agemos.Floor <= AgeInDaysToMonths(rec.ageDays).Floor)
  {
    AgeZeroOnlyAtDayZero(rec.ageDays);
    var age := AgeInDaysToMonths(rec.ageDays);
    var sex := CorrectedSexArgument(rec.sex);
    LookupFailsIffNoMatch(t, age, sex);
    forall j | 0 <= j < |t.rows|
      ensures Matches(t.rows, t.sexStr.value, j, age, sex) <==>
        (t.sexStr.value[j] == SexLabel(rec.sex) && t.rows[j].agemos.Floor <= age.Floor)
    {
    }
  }

  /** The one-year-old male whose 22.0462262185 lb is the table's median 10 kg. */
  function EndToEndRecord(): Record
  {
    Record(22.0462262185, 30.0, 365.25, 1)
  }

  /** A weight table holding a male row at 12 months with L = 1, M = 10, S = 0.1. */
  function EndToEndTable(): Table
  {
    var rows := [Row(0.0, 1, 1.0, 3.5, 0.1), Row(12.0, 1, 1.0, 10.0, 0.1), Row(12.0, 2, 1.0, 9.5, 0.1)];
    Frame(rows, Some(SexLabels(rows)))
  }

  /** As written, the end-to-end record fails in the lookup although the table has its row. */
  lemma EndToEndAsWrittenFails(zscore: ZScoreFormula)
    ensures WeightZScorePerRow(EndToEndTable(), zscore, AsWrittenSexArgument, EndToEndRecord()) == None
  {
    AsWrittenSexFails(EndToEndTable(), zscore, EndToEndRecord());
  }

  /** With the corrected sex argument, the end-to-end record is scored at 10 kg against the male 12-month row. */
  lemma EndToEndCorrected(zscore: ZScoreFormula)
    ensures WeightZScorePerRow(EndToEndTable(), zscore, CorrectedSexArgument, EndToEndRecord()) ==
      Some(ZScore(zscore(10.0, 1.0, 10.0, 0.1)))
  {
    var t := EndToEndTable();
    var labels := t.sexStr.value;
    assert labels == ["Male", "Male", "Female"];
    assert AgeInDaysToMonths(365.25) == 12.0;
    assert PoundsToKilograms(22.0462262185) == 10.0;
    assert !Matches(t.rows, labels, 2, 12.0, Label("Male"));
    LookupReturnsLastMatch(t, 12.0, Label("Male"), 1);
  }

  /** A record set whose every measurement is negative produces a column of missing values whatever the table. */
  lemma AllMissingColumn(records: seq<Record>, t: Table, zscore: ZScoreFormula, sexArg: int -> SexValue)
    requires forall i :: 0 <= i < |records| ==> records[i].weight < 0.0
    ensures CalculateZScoreForWeight(records, t, zscore, sexArg) == Some(seq(|records|, i => Missing))
  {
    var r := CalculateZScoreForWeight(records, t, zscore, sexArg);
    assert r.Some?;
    assert r.value == seq(|records|, i => Missing);
  }
}
