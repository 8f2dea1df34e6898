/**
 * The "pivot, then subtract two columns" step shared by the rating and
 * recording scripts:
 *
 *   pivoted = df.pivot_table(index=<key columns>, columns=<condition>,
 *                            values=<value>, aggfunc="mean")
 *   diff    = pivoted[hi] - pivoted[lo]
 *
 * A row of the long table is a key (the index columns), a condition level
 * (the phase or session) and a value. Each pivot cell is the arithmetic mean
 * of every value sharing its key and level, and is NaN when there is none.
 * Selecting a condition column that no row has raises KeyError.
 */
module Pivot {
  import opened Frame

  /** One row of the long table. */
  datatype Row<K, C> = Row(key: K, column: C, value: real)

  /** A row of the pivoted difference, after reset_index. */
  datatype DiffRow<K> = DiffRow(key: K, difference: Option<real>)

  /** KeyError raised by `pivoted[c]`. */
  datatype Error<C> = MissingColumn(column: C)

  /** The values sharing `key` and `column`, in row order. */
  function Values<K(==), C(==)>(rows: seq<Row<K, C>>, key: K, column: C): (r: seq<real>)
    ensures |r| <= |rows|
  {
    if |rows| == 0 then []
    else
      (if rows[0].key == key && rows[0].column == column then [rows[0].value] else [])
      + Values(rows[1..], key, column)
  }

  /** A row with this key and column exists. */
  predicate Rated<K(==), C(==)>(rows: seq<Row<K, C>>, key: K, column: C)
  {
    exists i :: 0 <= i < |rows| && rows[i].key == key && rows[i].column == column
  }

  /** Some row has this condition level: the pivoted frame has the column. */
  predicate HasColumn<K, C(==)>(rows: seq<Row<K, C>>, column: C)
  {
    exists i :: 0 <= i < |rows| && rows[i].column == column
  }

  /** A pivot cell: the mean of its values, NaN when it has none. */
  function Cell<K(==), C(==)>(rows: seq<Row<K, C>>, key: K, column: C): Option<real>
  {
    var v := Values(rows, key, column);
    if |v| == 0 then None else Some(Mean(v))
  }

  /**
   * The index of the pivoted frame: each key that has at least one row,
   * listed once, in order of first appearance.
   */
  function DistinctKeys<K(==), C>(rows: seq<Row<K, C>>): (r: seq<K>)
    ensures forall i, j :: 0 <= i < j < |r| ==> r[i] != r[j]
    ensures forall i :: 0 <= i < |rows| ==> rows[i].key in r
    ensures forall j :: 0 <= j < |r| ==> exists i :: 0 <= i < |rows| && rows[i].key == r[j]
  {
    if |rows| == 0 then []
    else
      var front := DistinctKeys(rows[..|rows| - 1]);
      assert forall i :: 0 <= i < |rows| - 1 ==> rows[..|rows| - 1][i] == rows[i];
      if rows[|rows| - 1].key in front then front else front + [rows[|rows| - 1].key]
  }

  /**
   * `(pivoted[hi] - pivoted[lo]).reset_index(name="difference")`: one row per
   * key of the pivoted frame holding cell[hi] - cell[lo]. Raises KeyError
   * (for `hi` first) when a requested column does not exist at all.
   */
  function Difference<K(==), C(==)>(rows: seq<Row<K, C>>, hi: C, lo: C): (r: Result<seq<DiffRow<K>>, Error<C>>)
    ensures r.Err? <==> !HasColumn(rows, hi) || !HasColumn(rows, lo)
    ensures r.Err? ==> r.error == MissingColumn(if HasColumn(rows, hi) then lo else hi)
    ensures r.Ok? ==> |r.value| == |DistinctKeys(rows)|
  {
    if !HasColumn(rows, hi) then Err(MissingColumn(hi))
    else if !HasColumn(rows, lo) then Err(MissingColumn(lo))
    else
      var keys := DistinctKeys(rows);
      Ok(seq(|keys|, i requires 0 <= i < |keys| => DiffRow(keys[i], Sub(Cell(rows, keys[i], hi), Cell(rows, keys[i], lo)))))
  }

  // ---------------------------------------------------------------------
  // Properties of the pivot cells

  /** The values of a concatenation are the concatenation of the values. */
  lemma {:induction false} ValuesAppend<K, C>(a: seq<Row<K, C>>, b: seq<Row<K, C>>, key: K, column: C)
    ensures Values(a + b, key, column) == Values(a, key, column) + Values(b, key, column)
  {
    if |a| == 0 {
      assert a + b == b;
    } else {
      assert (a + b)[1..] == a[1..] + b;
      ValuesAppend(a[1..], b, key, column);
    }
  }

  /** A cell has values exactly when a row carries its key and column. */
  lemma {:induction false} ValuesNonEmpty<K, C>(rows: seq<Row<K, C>>, key: K, column: C)
    ensures |Values(rows, key, column)| > 0 <==> Rated(rows, key, column)
  {
    if |rows| > 0 {
      ValuesNonEmpty(rows[1..], key, column);
      if Rated(rows[1..], key, column) {
        var i :| 0 <= i < |rows[1..]| && rows[1..][i].key == key && rows[1..][i].column == column;
        assert rows[i + 1] == rows[1..][i];
      }
      if Rated(rows, key, column) && !(rows[0].key == key && rows[0].column == column) {
        var i :| 0 <= i < |rows| && rows[i].key == key && rows[i].column == column;
        assert rows[1..][i - 1] == rows[i];
      }
    }
  }

  /** Every value of a cell is the value of a row with that key and column. */
  lemma {:induction false} ValuesFrom<K, C>(rows: seq<Row<K, C>>, key: K, column: C, j: nat)
    requires j < |Values(rows, key, column)|
    ensures exists i :: 0 <= i < |rows| && rows[i].key == key && rows[i].column == column
                        && rows[i].value == Values(rows, key, column)[j]
  {
    var head := if rows[0].key == key && rows[0].column == column then [rows[0].value] else [];
    assert Values(rows, key, column) == head + Values(rows[1..], key, column);
    if j >= |head| {
      ValuesFrom(rows[1..], key, column, j - |head|);
      var i :| 0 <= i < |rows[1..]| && rows[1..][i].key == key && rows[1..][i].column == column
               && rows[1..][i].value == Values(rows[1..], key, column)[j - |head|];
      assert rows[i + 1] == rows[1..][i];
    }
  }

  /** A cell is missing exactly when no row carries its key and column. */
  lemma CellMissing<K, C>(rows: seq<Row<K, C>>, key: K, column: C)
    ensures Cell(rows, key, column).None? <==> !Rated(rows, key, column)
  {
    ValuesNonEmpty(rows, key, column);
  }

  /** A key rated exactly once in a column has that rating as its cell. */
  lemma CellSingle<K, C>(rows: seq<Row<K, C>>, key: K, column: C, i: nat)
    requires i < |rows| && rows[i].key == key && rows[i].column == column
    requires forall j :: 0 <= j < |rows| && j != i ==> !(rows[j].key == key && rows[j].column == column)
    ensures Cell(rows, key, column) == Some(rows[i].value)
  {
    assert rows == rows[..i] + [rows[i]] + rows[i + 1..];
    ValuesAppend(rows[..i] + [rows[i]], rows[i + 1..], key, column);
    ValuesAppend(rows[..i], [rows[i]], key, column);
    ValuesNonEmpty(rows[..i], key, column);
    assert !Rated(rows[..i], key, column) by {
      forall j | 0 <= j < i
        ensures !(rows[..i][j].key == key && rows[..i][j].column == column)
      {
        assert rows[..i][j] == rows[j];
      }
    }
    var tail := rows[i + 1..];
    ValuesNonEmpty(tail, key, column);
    assert !Rated(tail, key, column) by {
      forall j | 0 <= j < |tail|
        ensures !(tail[j].key == key && tail[j].column == column)
      {
        assert tail[j] == rows[i + 1 + j];
      }
    }
    assert Values([rows[i]], key, column) == [rows[i].value] by {
      assert [rows[i]][1..] == [];
    }
    MeanSingleton(rows[i].value);
  }

  /** A cell lies between the smallest and the largest rating it averages. */
  lemma CellWithin<K, C>(rows: seq<Row<K, C>>, key: K, column: C, lo: real, hi: real)
    requires forall i :: 0 <= i < |rows| && rows[i].key == key && rows[i].column == column ==> lo <= rows[i].value <= hi
    ensures Cell(rows, key, column).Some? ==> lo <= Cell(rows, key, column).value <= hi
  {
    var v := Values(rows, key, column);
    forall j | 0 <= j < |v|
      ensures lo <= v[j] <= hi
    {
      ValuesFrom(rows, key, column, j);
    }
    if |v| > 0 {
      MeanBounds(v, lo, hi);
    }
  }

  /** Rows of other condition levels never change a cell. */
  lemma CellIgnoresOtherColumns<K, C>(rows: seq<Row<K, C>>, extra: seq<Row<K, C>>, key: K, column: C)
    requires forall i :: 0 <= i < |extra| ==> extra[i].column != column
    ensures Cell(rows + extra, key, column) == Cell(rows, key, column)
  {
    ValuesAppend(rows, extra, key, column);
    ValuesNonEmpty(extra, key, column);
    assert Values(rows + extra, key, column) == Values(rows, key, column);
  }

  // ---------------------------------------------------------------------
  // Properties of the difference table

  /**
   * Row i of the difference is the i-th key of the pivoted index and holds
   * cell[hi] - cell[lo], NaN exactly when the key lacks `hi` or `lo`.
   */
  lemma DifferenceRow<K, C>(rows: seq<Row<K, C>>, hi: C, lo: C, i: nat)
    requires Difference(rows, hi, lo).Ok?
    requires i < |Difference(rows, hi, lo).value|
    ensures Difference(rows, hi, lo).value[i].key == DistinctKeys(rows)[i]
    ensures Difference(rows, hi, lo).value[i].difference.None?
            <==> !Rated(rows, DistinctKeys(rows)[i], hi) || !Rated(rows, DistinctKeys(rows)[i], lo)
    ensures Difference(rows, hi, lo).value[i].difference.Some? ==>
              Difference(rows, hi, lo).value[i].difference.value
              == Cell(rows, DistinctKeys(rows)[i], hi).value - Cell(rows, DistinctKeys(rows)[i], lo).value
  {
    var k := DistinctKeys(rows)[i];
    CellMissing(rows, k, hi);
    CellMissing(rows, k, lo);
  }

  /**
   * When every rating of a key is `x` in `hi` and `y` in `lo`, and it has
   * ratings in both, its difference is exactly x - y.
   */
  lemma ConstantDifference<K, C>(rows: seq<Row<K, C>>, hi: C, lo: C, i: nat, x: real, y: real)
    requires Difference(rows, hi, lo).Ok?
    requires i < |Difference(rows, hi, lo).value|
    requires var key := DistinctKeys(rows)[i];
             && Rated(rows, key, hi) && Rated(rows, key, lo)
             && (forall j :: 0 <= j < |rows| && rows[j].key == key && rows[j].column == hi ==> x <= rows[j].value <= x)
             && (forall j :: 0 <= j < |rows| && rows[j].key == key && rows[j].column == lo ==> y <= rows[j].value <= y)
    ensures Difference(rows, hi, lo).value[i].difference.Some?
    ensures Difference(rows, hi, lo).value[i].difference.value == x - y
  {
    var key := DistinctKeys(rows)[i];
    DifferenceRow(rows, hi, lo, i);
    CellWithin(rows, key, hi, x, x);
    CellWithin(rows, key, lo, y, y);
    CellMissing(rows, key, hi);
    CellMissing(rows, key, lo);
  }

  /** There is one difference row per key that has any row, key columns preserved. */
  lemma DifferenceKeys<K, C>(rows: seq<Row<K, C>>, hi: C, lo: C, key: K)
    requires Difference(rows, hi, lo).Ok?
    ensures (exists i :: 0 <= i < |Difference(rows, hi, lo).value| && Difference(rows, hi, lo).value[i].key == key)
            <==> (exists j :: 0 <= j < |rows| && rows[j].key == key)
  {
    var keys := DistinctKeys(rows);
    var d := Difference(rows, hi, lo).value;
    if exists j :: 0 <= j < |rows| && rows[j].key == key {
      assert key in keys;
      var i :| 0 <= i < |keys| && keys[i] == key;
      assert d[i].key == key;
    }
    if exists i :: 0 <= i < |d| && d[i].key == key {
      var i :| 0 <= i < |d| && d[i].key == key;
      assert keys[i] == key;
    }
  }

  /** Swapping the two condition levels negates every difference. */
  lemma DifferenceAntisymmetric<K, C>(rows: seq<Row<K, C>>, hi: C, lo: C, i: nat)
    requires Difference(rows, hi, lo).Ok?
    requires i < |Difference(rows, hi, lo).value|
    ensures Difference(rows, lo, hi).Ok?
    ensures Difference(rows, lo, hi).value[i].key == Difference(rows, hi, lo).value[i].key
    ensures Difference(rows, lo, hi).value[i].difference.Some? <==> Difference(rows, hi, lo).value[i].difference.Some?
    ensures Difference(rows, hi, lo).value[i].difference.Some? ==>
              Difference(rows, lo, hi).value[i].difference.value == -Difference(rows, hi, lo).value[i].difference.value
  {
  }
}
