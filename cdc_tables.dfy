/**
 * The growth-chart reference frame: its rows, and the Sex_str column that
 * is added to it in place before any lookup.
 */
module CdcTables {
  import opened Wrappers

  /** One spreadsheet row: age in months, the integer sex code, and the L, M, S parameters. */
  datatype Row = Row(agemos: real, sex: int, l: real, m: real, s: real)

  /**
   * A value standing where the lookup compares sexes. The program is
   * dynamically typed, so this is either an integer code or a string label;
   * an integer never equals a string, as two distinct constructors never do.
   */
  datatype SexValue = Code(code: int) | Label(text: string)

  /** The label for a sex code: 1 is "Male", every other code is "Female". */
  function SexLabel(code: int): (name: string)
    ensures name == "Male" <==> code == 1
    ensures name == "Female" <==> code != 1
  {
    if code == 1 then "Male" else "Female"
  }

  /** The Sex_str column for a list of rows, one label per row. */
  function SexLabels(rows: seq<Row>): (column: seq<string>)
    ensures |column| == |rows|
    ensures forall i :: 0 <= i < |rows| ==> (column[i] == "Male" <==> rows[i].sex == 1)
    ensures forall i :: 0 <= i < |rows| ==> (column[i] == "Female" <==> rows[i].sex != 1)
  {
    seq(|rows|, i requires 0 <= i < |rows| => SexLabel(rows[i].sex))
  }

  /** A snapshot of the frame: its rows and, once it has been added, its Sex_str column. */
  datatype Frame = Frame(rows: seq<Row>, sexStr: Option<seq<string>>)

  /** A frame column always has one cell per row. */
  type Table = t: Frame | t.sexStr.Some? ==> |t.sexStr.value| == |t.rows|
    witness Frame([], None)

  /** A reference frame whose Sex_str column is added in place. */
  class CdcFrame {
    var rows: seq<Row>
    var sexStr: Option<seq<string>>

    ghost predicate Valid()
      reads this
    {
      sexStr.Some? ==> |sexStr.value| == |rows|
    }

    /** The frame's current contents as a value that lookups read. */
    function Snapshot(): Table
      reads this
      requires Valid()
    {
      Frame(rows, sexStr)
    }

    /** A freshly loaded frame: the spreadsheet rows and no Sex_str column yet. */
    constructor (rows: seq<Row>)
      ensures Valid()
      ensures this.rows == rows && sexStr == None
    {
      this.rows := rows;
      sexStr := None;
    }

    /** Adds (or replaces) the Sex_str column, labelling each row from its sex code; the rows are unchanged. */
    method AddStringMaleFemale()
      modifies this
      ensures Valid()
      ensures rows == old(rows)
      ensures sexStr.Some? && |sexStr.value| == |rows|
      ensures forall i :: 0 <= i < |rows| ==> sexStr.value[i] == SexLabel(rows[i].sex)
    {
      sexStr := Some(SexLabels(rows));
    }
  }

  /** Loads a frame from spreadsheet rows and labels it in place; the snapshot is what lookups read. */
  method LabelledTable(rows: seq<Row>) returns (t: Table)
    ensures t.rows == rows && t.sexStr.Some?
    ensures forall i :: 0 <= i < |rows| ==> t.sexStr.value[i] == SexLabel(rows[i].sex)
  {
    var frame := new CdcFrame(rows);
    frame.AddStringMaleFemale();
    t := frame.Snapshot();
  }
}
