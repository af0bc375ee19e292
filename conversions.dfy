/**
 * Unit and age conversions of height_age_weight_percentiles.py, in exact
 * real arithmetic.
 */
module Conversions {

  /** Pounds in one kilogram; a weight in pounds is divided by it. */
  const PoundsToKg: real := 2.20462262185

  /** Centimetres in one inch; a height in inches is multiplied by it. */
  const InchesToCm: real := 2.54

  /** The Gregorian average month length, 365.25 days a year over 12 months. */
  const DaysPerMonth: real := 365.25 / 12.0

  /** A weight in pounds expressed in kilograms. */
  function PoundsToKilograms(pounds: real): (kg: real)
    ensures kg * PoundsToKg == pounds
  {
    pounds / PoundsToKg
  }

  /** A length in inches expressed in centimetres. */
  function InchesToCentimeters(inches: real): (cm: real)
    ensures cm / InchesToCm == inches
  {
    inches * InchesToCm
  }

  /** An age in days expressed in average months. */
  function AgeInDaysToMonths(ageInDays: real): (months: real)
    ensures months * DaysPerMonth == ageInDays
    ensures ageInDays >= 0.0 ==> 0.0 <= months <= ageInDays
  {
    ageInDays / DaysPerMonth
  }

  /** One average year of days is exactly twelve months, and day 0 is month 0. */
  lemma AgeOfOneYear()
    ensures AgeInDaysToMonths(365.25) == 12.0
    ensures AgeInDaysToMonths(0.0) == 0.0
  {
  }

  /** Age zero in months, which lookup treats specially, is reached from day zero only. */
  lemma AgeZeroOnlyAtDayZero(ageInDays: real)
    ensures AgeInDaysToMonths(ageInDays) == 0.0 <==> ageInDays == 0.0
  {
  }

  /** The conversion is strictly monotone in days. */
  lemma AgeMonotone(d1: real, d2: real)
    ensures d1 <= d2 <==> AgeInDaysToMonths(d1) <= AgeInDaysToMonths(d2)
  {
  }

  /** Both unit conversions keep the sign, so the negative-sentinel test reads the same before and after conversion. */
  lemma ConversionsKeepSign(x: real)
    ensures PoundsToKilograms(x) < 0.0 <==> x < 0.0
    ensures InchesToCentimeters(x) < 0.0 <==> x < 0.0
    ensures PoundsToKilograms(x) == 0.0 <==> x == 0.0
  {
  }

  /** One conversion factor of each unit maps to exactly one unit of the metric scale. */
  lemma UnitExamples()
    ensures PoundsToKilograms(2.20462262185) == 1.0
    ensures InchesToCentimeters(1.0) == 2.54
    ensures PoundsToKilograms(22.0462262185) == 10.0
  {
  }
}
