/**
 * Selection of the reference row for an age in months and a sex: the first
 * row at age zero, otherwise the last row, in table order, whose floored age
 * does not exceed the floored target age and whose Sex_str equals the sex.
 */
module ReferenceLookup {
  import opened Wrappers
  import opened CdcTables

  /** Row i passes the selection mask: floored age not above the target's, and its label equal to the sex. */
  predicate Matches(rows: seq<Row>, labels: seq<string>, i: int, ageInMos: real, sex: SexValue)
    requires |labels| == |rows| && 0 <= i < |rows|
    ensures sex.Code? ==> !Matches(rows, labels, i, ageInMos, sex)
  {
    rows[i].agemos.Floor <= ageInMos.Floor && Label(labels[i]) == sex
  }

  /** The positions among the first n rows that the mask keeps, in table order. */
  function Selected(rows: seq<Row>, labels: seq<string>, ageInMos: real, sex: SexValue, n: nat): (r: seq<nat>)
    requires |labels| == |rows| && n <= |rows|
    ensures forall k :: 0 <= k < |r| ==> r[k] < n && Matches(rows, labels, r[k], ageInMos, sex)
    ensures forall i :: 0 <= i < n && Matches(rows, labels, i, ageInMos, sex) ==> i in r
    ensures forall a, b :: 0 <= a < b < |r| ==> r[a] < r[b]
  {
    if n == 0 then []
    else
      var prefix := Selected(rows, labels, ageInMos, sex, n - 1);
      if Matches(rows, labels, n - 1, ageInMos, sex) then prefix + [n - 1] else prefix
  }

  /** The position of the last kept row, or None when the selection is empty. */
  function LastSelected(rows: seq<Row>, labels: seq<string>, ageInMos: real, sex: SexValue): (r: Option<nat>)
    requires |labels| == |rows|
    ensures r.Some? ==> r.value < |rows| && Matches(rows, labels, r.value, ageInMos, sex)
  {
    var kept := Selected(rows, labels, ageInMos, sex, |rows|);
    if |kept| == 0 then None else Some(kept[|kept| - 1])
  }

  /** The reference row for an age in months and a sex; None where indexing the selection would fail. */
  function VariablesFor(t: Table, ageInMos: real, sex: SexValue): (r: Option<Row>)
    ensures r.Some? ==> r.value in t.rows
  {
    if ageInMos == 0.0 then
      if |t.rows| == 0 then None else Some(t.rows[0])
    else if t.sexStr.None? then
      None
    else
      match LastSelected(t.rows, t.sexStr.value, ageInMos, sex)
      case None => None
      case Some(k) => Some(t.rows[k])
  }

  /**
   * LastSelected picks k exactly when row k matches and no later row does,
   * and finds nothing exactly when no row matches.
   */
  lemma LastSelectedIsLastMatch(rows: seq<Row>, labels: seq<string>, ageInMos: real, sex: SexValue, k: int)
    requires |labels| == |rows|
    ensures LastSelected(rows, labels, ageInMos, sex) == Some(k) <==>
      (0 <= k < |rows| && Matches(rows, labels, k, ageInMos, sex) &&
       forall j :: k < j < |rows| ==> !Matches(rows, labels, j, ageInMos, sex))
    ensures LastSelected(rows, labels, ageInMos, sex) == None <==>
      forall j :: 0 <= j < |rows| ==> !Matches(rows, labels, j, ageInMos, sex)
  {
    var kept := Selected(rows, labels, ageInMos, sex, |rows|);
    if |kept| != 0 {
      var last := kept[|kept| - 1];
      assert forall a :: 0 <= a < |kept| ==> kept[a] <= last;
      if 0 <= k < |rows| && Matches(rows, labels, k, ageInMos, sex) &&
         (forall j :: k < j < |rows| ==> !Matches(rows, labels, j, ageInMos, sex)) {
        assert k in kept;
      }
    }
  }

  /** At age exactly zero the first row is returned, whatever the sex asked for and whatever that row's sex. */
  lemma LookupAtAgeZero(t: Table, sex: SexValue)
    ensures |t.rows| > 0 ==> VariablesFor(t, 0.0, sex) == Some(t.rows[0])
    ensures |t.rows| == 0 ==> VariablesFor(t, 0.0, sex) == None
  {
  }

  /**
   * At a nonzero age the lookup returns row k exactly when the Sex_str column
   * exists, row k passes the mask, and no later row passes it.
   */
  lemma LookupReturnsLastMatch(t: Table, ageInMos: real, sex: SexValue, k: int)
    requires ageInMos != 0.0 && t.sexStr.Some?
    requires 0 <= k < |t.rows|
    ensures VariablesFor(t, ageInMos, sex) == Some(t.rows[k]) <==>
      exists i :: 0 <= i < |t.rows| && t.rows[i] == t.rows[k] &&
        Matches(t.rows, t.sexStr.value, i, ageInMos, sex) &&
        forall j :: i < j < |t.rows| ==> !Matches(t.rows, t.sexStr.value, j, ageInMos, sex)
  {
    var labels := t.sexStr.value;
    match LastSelected(t.rows, labels, ageInMos, sex)
    case None =>
      LastSelectedIsLastMatch(t.rows, labels, ageInMos, sex, k);
    case Some(m) =>
      LastSelectedIsLastMatch(t.rows, labels, ageInMos, sex, m);
      forall i | 0 <= i < |t.rows| && Matches(t.rows, labels, i, ageInMos, sex) &&
          (forall j :: i < j < |t.rows| ==> !Matches(t.rows, labels, j, ageInMos, sex))
        ensures i == m
      {
        LastSelectedIsLastMatch(t.rows, labels, ageInMos, sex, i);
      }
  }

  /** At a nonzero age any returned row carries the requested sex label and a floored age not above the target's. */
  lemma LookupResultMatches(t: Table, ageInMos: real, sex: SexValue)
    requires ageInMos != 0.0
    requires VariablesFor(t, ageInMos, sex).Some?
    ensures t.sexStr.Some?
    ensures VariablesFor(t, ageInMos, sex).value.agemos.Floor <= ageInMos.Floor
    ensures exists i :: (0 <= i < |t.rows| && t.rows[i] == VariablesFor(t, ageInMos, sex).value &&
      Label(t.sexStr.value[i]) == sex)
  {
    var k := LastSelected(t.rows, t.sexStr.value, ageInMos, sex).value;
    assert t.rows[k] == VariablesFor(t, ageInMos, sex).value;
  }

  /** At a nonzero age the lookup fails exactly when the column is missing or no row passes the mask. */
  lemma LookupFailsIffNoMatch(t: Table, ageInMos: real, sex: SexValue)
    requires ageInMos != 0.0
    ensures VariablesFor(t, ageInMos, sex).None? <==>
      t.sexStr.None? ||
      forall j :: 0 <= j < |t.rows| ==> !Matches(t.rows, t.sexStr.value, j, ageInMos, sex)
  {
    if t.sexStr.Some? {
      LastSelectedIsLastMatch(t.rows, t.sexStr.value, ageInMos, sex, 0);
    }
  }

  /** Rows of one sex appear in non-decreasing age order. */
  predicate SortedWithinSex(t: Table)
    requires t.sexStr.Some?
  {
    forall i, j :: 0 <= i < j < |t.rows| && t.sexStr.value[i] == t.sexStr.value[j] ==>
      t.rows[i].agemos <= t.rows[j].agemos
  }

  /** In a table sorted within each sex, the returned row has the greatest age among the rows that pass the mask. */
  lemma LookupHasGreatestMatchingAge(t: Table, ageInMos: real, sex: SexValue)
    requires ageInMos != 0.0 && t.sexStr.Some? && SortedWithinSex(t)
    requires VariablesFor(t, ageInMos, sex).Some?
    ensures forall j :: 0 <= j < |t.rows| && Matches(t.rows, t.sexStr.value, j, ageInMos, sex) ==>
      t.rows[j].agemos <= VariablesFor(t, ageInMos, sex).value.agemos
  {
    var labels := t.sexStr.value;
    var k := LastSelected(t.rows, labels, ageInMos, sex).value;
    LastSelectedIsLastMatch(t.rows, labels, ageInMos, sex, k);
    forall j | 0 <= j < |t.rows| && Matches(t.rows, labels, j, ageInMos, sex)
      ensures t.rows[j].agemos <= t.rows[k].agemos
    {
      assert j <= k;
      assert labels[j] == labels[k];
    }
  }

  /** An integer code never equals a string label, so at a nonzero age a lookup by sex code always fails. */
  lemma LookupBySexCodeFails(t: Table, ageInMos: real, code: int)
    requires ageInMos != 0.0
    ensures VariablesFor(t, ageInMos, Code(code)) == None
  {
    LookupFailsIffNoMatch(t, ageInMos, Code(code));
  }

  /** Female rows at 0, 2, 4 and 6 months with a male row at 5: a female lookup at 5 months gets the row at 4. */
  lemma LookupExample()
    ensures
      var rows := [Row(0.0, 2, 1.0, 3.0, 0.1), Row(2.0, 2, 1.0, 5.0, 0.1), Row(4.0, 2, 1.0, 6.0, 0.1),
                   Row(5.0, 1, 1.0, 7.0, 0.1), Row(6.0, 2, 1.0, 8.0, 0.1)];
      var t: Table := Frame(rows, Some(SexLabels(rows)));
      VariablesFor(t, 5.0, Label("Female")) == Some(rows[2]) &&
      VariablesFor(t, 5.5, Label("Male")) == Some(rows[3]) &&
      VariablesFor(t, 0.0, Label("Male")) == Some(rows[0])
  {
    var rows := [Row(0.0, 2, 1.0, 3.0, 0.1), Row(2.0, 2, 1.0, 5.0, 0.1), Row(4.0, 2, 1.0, 6.0, 0.1),
                 Row(5.0, 1, 1.0, 7.0, 0.1), Row(6.0, 2, 1.0, 8.0, 0.1)];
    var labels := SexLabels(rows);
    assert labels == ["Female", "Female", "Female", "Male", "Female"];
    var t: Table := Frame(rows, Some(labels));
    assert !Matches(rows, labels, 4, 5.0, Label("Female"));
    assert !Matches(rows, labels, 3, 5.0, Label("Female"));
    LookupReturnsLastMatch(t, 5.0, Label("Female"), 2);
    assert !Matches(rows, labels, 4, 5.5, Label("Male"));
    LookupReturnsLastMatch(t, 5.5, Label("Male"), 3);
  }

  /** The lookup as a backwards scan that stops at the first row from the end that passes the mask. */
  method FindLastBackwards(t: Table, ageInMos: real, sex: SexValue) returns (r: Option<Row>)
    ensures r == VariablesFor(t, ageInMos, sex)
  {
    if ageInMos == 0.0 {
      if |t.rows| == 0 {
        return None;
      }
      return Some(t.rows[0]);
    }
    if t.sexStr.None? {
      return None;
    }
    var labels := t.sexStr.value;
    var i := |t.rows|;
    while i > 0
      invariant 0 <= i <= |t.rows|
      invariant forall j :: i <= j < |t.rows| ==> !Matches(t.rows, labels, j, ageInMos, sex)
    {
      i := i - 1;
      if Matches(t.rows, labels, i, ageInMos, sex) {
        LastSelectedIsLastMatch(t.rows, labels, ageInMos, sex, i);
        return Some(t.rows[i]);
      }
    }
    LastSelectedIsLastMatch(t.rows, labels, ageInMos, sex, 0);
    return None;
  }
}
