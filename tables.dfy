/**
 The two-dimensional data the preprocessor works on: a rectangular table of
 cells (a numpy array, rows by columns) and a frame, which is such a table with
 a name for every column (a pandas DataFrame). Selecting columns of a frame by
 a list of names (`DataFrame.loc[:, names].values`) yields a table.
 */
module Tables {

  /** A rectangular table: `width` columns, one `seq` per row. The width is
      kept apart from the rows so that a table with no rows still has a shape. */
  datatype Table<T> = Table(width: nat, rows: seq<seq<T>>) {

    /** Every row has exactly `width` cells. */
    predicate Valid() {
      forall i :: 0 <= i < |rows| ==> |rows[i]| == width
    }

    /** Column `c`, top to bottom (numpy's `a[:, c]`). */
    function Column(c: nat): (col: seq<T>)
      requires Valid() && c < width
      ensures |col| == |rows|
      ensures forall i :: 0 <= i < |rows| ==> col[i] == rows[i][c]
    {
      seq(|rows|, i requires 0 <= i < |rows| => rows[i][c])
    }
  }

  /** A table whose columns carry names. */
  datatype Frame<T> = Frame(columns: seq<string>, data: Table<T>) {

    /** One name per column, and no name twice. */
    predicate Valid() {
      && data.Valid()
      && data.width == |columns|
      && forall k, l :: 0 <= k < l < |columns| ==> columns[k] != columns[l]
    }

    /** Every name in `names` is a column of this frame. */
    predicate HasColumns(names: seq<string>) {
      forall n :: n in names ==> n in columns
    }

    /** The columns named by `names`, in the order of `names` (a name may be
        listed more than once, and then its column is repeated); every row of
        the frame, in order. */
    function Select(names: seq<string>): (r: Table<T>)
      requires Valid() && HasColumns(names)
      ensures IsSelection(this, names, r)
    {
      var r := Table(|names|, seq(|data.rows|, i requires 0 <= i < |data.rows| =>
                 seq(|names|, j requires 0 <= j < |names| => data.rows[i][IndexOf(columns, names[j])])));
      forall j, k | 0 <= j < |names| && 0 <= k < |columns| && columns[k] == names[j]
        ensures r.Column(j) == data.Column(k)
      {
        assert k == IndexOf(columns, names[j]);
        assert forall i :: 0 <= i < |data.rows| ==> r.Column(j)[i] == data.Column(k)[i];
      }
      r
    }
  }

  /** `r` holds every row of `f`, in order, and as its column `j` the column of
      `f` whose name is `names[j]`. */
  ghost predicate IsSelection<T>(f: Frame<T>, names: seq<string>, r: Table<T>)
    requires f.Valid()
  {
    && r.Valid() && r.width == |names| && |r.rows| == |f.data.rows|
    && (forall j :: 0 <= j < |names| ==> names[j] in f.columns)
    && forall j, k :: 0 <= j < |names| && 0 <= k < |f.columns| && f.columns[k] == names[j] ==>
         r.Column(j) == f.data.Column(k)
  }

  /** The position of `x` in `s` (the first one, which is the only one when
      the names in `s` are distinct). */
  function IndexOf(s: seq<string>, x: string): (k: nat)
    requires x in s
    ensures k < |s| && s[k] == x
    ensures forall l :: 0 <= l < k ==> s[l] != x
  {
    if s[0] == x then 0 else 1 + IndexOf(s[1..], x)
  }

  /** Columns that carry the same name hold the same cells. */
  ghost predicate Consistent<T>(t: Table<T>, names: seq<string>)
    requires t.Valid() && t.width <= |names|
  {
    forall c, d :: 0 <= c < t.width && 0 <= d < t.width && names[c] == names[d] ==> t.Column(c) == t.Column(d)
  }

  /** A selection by names is always consistent with those names: a name that
      is listed twice selects the same column twice. */
  lemma SelectionConsistent<T>(f: Frame<T>, names: seq<string>, r: Table<T>)
    requires f.Valid() && IsSelection(f, names, r)
    ensures r.width == |names| && Consistent(r, names)
  {
    forall c, d | 0 <= c < r.width && 0 <= d < r.width && names[c] == names[d]
      ensures r.Column(c) == r.Column(d)
    {
      var k := IndexOf(f.columns, names[c]);
      assert r.Column(c) == f.data.Column(k);
    }
  }
}
