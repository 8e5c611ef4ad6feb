/** Option and Result types shared by the other modules. */
module Wrappers {

  datatype Option<+T> = None | Some(value: T)

  /** The outcome of a pandas step: a value, the KeyError raised when it
      names columns the frame does not have, or the ValueError raised when a
      missing timestamp (NaT) is formatted. */
  datatype Result<+T> = Ok(value: T) | KeyError(missing: seq<string>) | ValueError
}

/**
  A value model of the pandas DataFrames the dashboard works on: an ordered
  list of column names, the column contents by name, and the number of rows.
  Only the object-dtype behaviour the dashboard relies on is modelled.
*/
module Frames {

  /** One cell of a frame: Python None, a float NaN, a text value, or a
      timestamp (an abstract, totally ordered instant). */
  datatype Cell = Null | NaN | Text(s: string) | Time(t: nat)

  /** pandas' notion of a missing value (isna). */
  predicate IsNA(c: Cell)
  {
    c.Null? || c.NaN?
  }

  datatype Frame = Frame(columns: seq<string>, data: map<string, seq<Cell>>, height: nat)

  predicate Distinct<T(==)>(s: seq<T>)
  {
    forall i, j :: 0 <= i < j < |s| ==> s[i] != s[j]
  }

  /** Column names are unique, name exactly the stored columns, and every
      column holds one cell per row. */
  predicate WellFormed(f: Frame)
  {
    && Distinct(f.columns)
    && f.data.Keys == set c | c in f.columns
    && (forall c :: c in f.data ==> |f.data[c]| == f.height)
  }

  /** pandas' DataFrame.empty: true when either axis has length zero. */
  predicate Empty(f: Frame)
  {
    f.height == 0 || |f.columns| == 0
  }

  /** The columns of the submissions table the dashboard reads by name. */
  const STUDENT_ID: string := "student_id"
  const CREATED_AT: string := "created_at"

  /** pd.DataFrame(): no columns and no rows. */
  const EmptyFrame: Frame := Frame([], map[], 0)

  /** `f[name] = values`: an existing column is overwritten where it stands,
      a new one is appended after the others. */
  function WithColumn(f: Frame, name: string, values: seq<Cell>): (r: Frame)
    requires WellFormed(f) && |values| == f.height
    ensures WellFormed(r) && r.height == f.height
    ensures name in r.data && r.data[name] == values
    ensures forall c :: c in f.data && c != name ==> c in r.data && r.data[c] == f.data[c]
    ensures forall c :: c in r.data ==> c in f.data || c == name
    ensures |f.columns| <= |r.columns| && r.columns[..|f.columns|] == f.columns
    ensures name in f.data ==> r.columns == f.columns
  {
    if name in f.data then Frame(f.columns, f.data[name := values], f.height)
    else Frame(f.columns + [name], f.data[name := values], f.height)
  }

  /** `f.take(rows)`: the listed rows, in the listed order, of every column. */
  function Select(f: Frame, rows: seq<nat>): (r: Frame)
    requires WellFormed(f)
    requires forall i :: 0 <= i < |rows| ==> rows[i] < f.height
    ensures WellFormed(r) && r.columns == f.columns && r.height == |rows|
    ensures forall c :: c in r.data <==> c in f.data
    ensures forall c, i :: c in f.data && 0 <= i < |rows| ==> r.data[c][i] == f.data[c][rows[i]]
  {
    Frame(f.columns,
          map c | c in f.data :: seq(|rows|, i requires 0 <= i < |rows| => f.data[c][rows[i]]),
          |rows|)
  }

  /**
    A pandas DataFrame object as the dashboard code mutates it: `copy()`
    gives an independent object, and assigning a column changes the object
    in place.
  */
  class DataFrame {
    var columns: seq<string>
    var data: map<string, seq<Cell>>
    var height: nat

    function Value(): Frame
      reads this
    {
      Frame(columns, data, height)
    }

    ghost predicate Valid()
      reads this
    {
      WellFormed(Value())
    }

    constructor (f: Frame)
      requires WellFormed(f)
      ensures Valid() && Value() == f
    {
      columns, data, height := f.columns, f.data, f.height;
    }

    /** `df.copy()` */
    method Copy() returns (c: DataFrame)
      requires Valid()
      ensures fresh(c) && c.Valid() && c.Value() == Value()
    {
      c := new DataFrame(Value());
    }

    /** `df[name] = values` */
    method SetColumn(name: string, values: seq<Cell>)
      requires Valid() && |values| == height
      modifies this
      ensures Valid() && Value() == WithColumn(old(Value()), name, values)
    {
      if name !in data {
        columns := columns + [name];
      }
      data := data[name := values];
    }
  }
}
