/**
 * The in-memory table that every part of the pipeline passes around: a pandas
 * DataFrame reduced to an ordered list of column names and a list of rows whose
 * cells line up with those names by position.
 */
module Frames {

  /** One cell: a missing value (NaN, None, pd.NA), an integer, or a string. */
  datatype Cell = Null | Num(n: int) | Text(s: string)

  type Row = seq<Cell>

  datatype Frame = Frame(columns: seq<string>, rows: seq<Row>)

  /** A DataFrame is rectangular: every row holds one cell per column. */
  predicate Rectangular(f: Frame)
  {
    forall i :: 0 <= i < |f.rows| ==> |f.rows[i]| == |f.columns|
  }

  /** Position of the first column carrying `name`. */
  function IndexOf(names: seq<string>, name: string): (k: nat)
    requires name in names
    ensures k < |names| && names[k] == name
    ensures name !in names[..k]
  {
    if names[0] == name then 0
    else
      assert names == [names[0]] + names[1..];
      1 + IndexOf(names[1..], name)
  }

  /** `row[col]`: the cell of `row` in the column named `col`, missing when there is none. */
  function Get(columns: seq<string>, row: Row, col: string): Cell
  {
    if col in columns then
      var k := IndexOf(columns, col);
      if k < |row| then row[k] else Null
    else Null
  }

  /** `df[col]` as a list of cells, one per row. */
  function Column(f: Frame, col: string): (c: seq<Cell>)
    ensures |c| == |f.rows|
    ensures forall i :: 0 <= i < |c| ==> c[i] == Get(f.columns, f.rows[i], col)
  {
    seq(|f.rows|, i requires 0 <= i < |f.rows| => Get(f.columns, f.rows[i], col))
  }

  /** The first position of a name is the only position before which it does not occur. */
  lemma IndexOfUnique(names: seq<string>, name: string, k: nat)
    requires k < |names| && names[k] == name && name !in names[..k]
    ensures IndexOf(names, name) == k
  {
  }

  /**
   * `df[col] = cells`: overwrite the column where it stands when the frame has it,
   * otherwise append it as the last column.
   */
  function SetColumn(f: Frame, col: string, cells: seq<Cell>): (r: Frame)
    requires Rectangular(f) && |cells| == |f.rows|
    ensures Rectangular(r) && |r.rows| == |f.rows|
    ensures r.columns == if col in f.columns then f.columns else f.columns + [col]
  {
    if col in f.columns then
      var k := IndexOf(f.columns, col);
      Frame(f.columns, seq(|f.rows|, i requires 0 <= i < |f.rows| && |f.rows[i]| == |f.columns| => f.rows[i][k := cells[i]]))
    else
      Frame(f.columns + [col], seq(|f.rows|, i requires 0 <= i < |f.rows| => f.rows[i] + [cells[i]]))
  }

  /** After `df[col] = cells`, the column holds `cells` and every other column is as before. */
  lemma SetColumnSpec(f: Frame, col: string, cells: seq<Cell>)
    requires Rectangular(f) && |cells| == |f.rows|
    ensures Column(SetColumn(f, col, cells), col) == cells
    ensures forall c :: c != col ==> Column(SetColumn(f, col, cells), c) == Column(f, c)
  {
    var r := SetColumn(f, col, cells);
    if col !in f.columns {
      IndexOfUnique(r.columns, col, |f.columns|);
    }
    forall i | 0 <= i < |f.rows|
      ensures Get(r.columns, r.rows[i], col) == cells[i]
    {
    }
    forall c | c != col
      ensures Column(r, c) == Column(f, c)
    {
      if c in f.columns {
        var k := IndexOf(f.columns, c);
        assert r.columns[..k] == f.columns[..k];
        IndexOfUnique(r.columns, c, k);
      }
      forall i | 0 <= i < |f.rows|
        ensures Get(r.columns, r.rows[i], c) == Get(f.columns, f.rows[i], c)
      {
      }
    }
  }

  function DigitChar(d: nat): char
    requires d < 10
  {
    "0123456789"[d]
  }

  /** Python's `str(n)` for a non-negative integer: its decimal digits, no leading zero. */
  function NatToString(n: nat): (s: string)
    ensures |s| > 0
    ensures forall k :: 0 <= k < |s| ==> '0' <= s[k] <= '9'
    decreases n
  {
    if n < 10 then [DigitChar(n)] else NatToString(n / 10) + [DigitChar(n % 10)]
  }

  /** Python's `str(n)` for an integer. */
  function IntToString(n: int): string
  {
    if n < 0 then "-" + NatToString(-n) else NatToString(n)
  }

  /**
   * `astype(str)` of one cell. A missing value read from CSV is NaN, which
   * prints as "nan".
   */
  function Str(c: Cell): string
  {
    match c
    case Null => "nan"
    case Num(n) => IntToString(n)
    case Text(s) => s
  }
}
