/** Query results of six columns, kept as one flat list of values. */
module FlatRows {
  const COLUMNS: nat := 6

  /** The rows of a flat result list. */
  function RowsOf<X>(cells: seq<X>): (rows: seq<seq<X>>)
    ensures |rows| == |cells| / COLUMNS
  {
    seq(|cells| / COLUMNS,
        k requires 0 <= k < |cells| / COLUMNS => cells[COLUMNS * k..COLUMNS * k + COLUMNS])
  }

  /** The values of the rows, one row after another. */
  function Flat<X>(rows: seq<seq<X>>): (cells: seq<X>)
  {
    if rows == [] then [] else rows[0] + Flat(rows[1..])
  }

  /** Flattening rows and cutting the list into rows again gives the rows. */
  lemma {:induction false} RowsOfFlat<X>(rows: seq<seq<X>>)
    requires forall k :: 0 <= k < |rows| ==> |rows[k]| == COLUMNS
    ensures |Flat(rows)| == COLUMNS * |rows| && RowsOf(Flat(rows)) == rows
  {
    if rows != [] {
      var cells, rest := Flat(rows), Flat(rows[1..]);
      RowsOfFlat(rows[1..]);
      forall k | 0 <= k < |rows| ensures RowsOf(cells)[k] == rows[k] {
        if k > 0 {
          assert RowsOf(rest)[k - 1] == rest[COLUMNS * (k - 1)..COLUMNS * (k - 1) + COLUMNS];
          assert cells[COLUMNS..] == rest;
        }
      }
    }
  }

  lemma {:induction false} FlatAppend<X>(rows: seq<seq<X>>, row: seq<X>)
    ensures Flat(rows + [row]) == Flat(rows) + row
  {
    if rows == [] {
      assert Flat([row]) == row + Flat<X>([]);
    } else {
      FlatAppend(rows[1..], row);
      assert (rows + [row])[1..] == rows[1..] + [row];
    }
  }
}
