/** The result shaper inside runQuery: the engine's row callback leaves all
    cell values in one flat, row-major list; nested loops cut it into rows
    of columnsCount cells and put the column names in front as a header row. */
module Shaper {
  import opened Base
  import opened Seqs

  /** A cell value as the engine hands it over. */
  datatype SqlValue =
    | Integer(i: int)
    | Float(f: real)
    | Text(t: string)
    | Blob(bytes: seq<byte>)
    | Null

  /** The column names as the first row of the table. */
  function HeaderRow(columnNames: seq<string>): seq<SqlValue>
  {
    seq(|columnNames|, j requires 0 <= j < |columnNames| => Text(columnNames[j]))
  }

  /** Reshapes the flat values into a header-first table. The data rows are
      the flat values cut into rows of |columnNames| cells, in order, so
      joining them again gives back the flat values. */
  method Pivot(columnNames: seq<string>, rows: seq<SqlValue>) returns (table: seq<seq<SqlValue>>)
    requires |columnNames| > 0 && |rows| % |columnNames| == 0
    ensures |table| == 1 + |rows| / |columnNames|
    ensures table[0] == HeaderRow(columnNames)
    ensures table[1..] == Chunks(rows, |columnNames|)
    ensures Concat(table[1..]) == rows
  {
    var columnsCount := |columnNames|;
    var rowsCount := |rows| / columnsCount;
    ghost var pieces := Chunks(rows, columnsCount);
    ConcatChunks(rows, columnsCount);
    table := [HeaderRow(columnNames)];
    for i := 0 to rowsCount
      invariant table == [HeaderRow(columnNames)] + pieces[..i]
    {
      ghost var start := i * columnsCount;
      assert start + columnsCount <= |rows| && pieces[i] == rows[start..start + columnsCount] by {
        ChunksAt(rows, columnsCount, i);
      }
      var row: seq<SqlValue> := [];
      for j := 0 to columnsCount
        invariant row == rows[start..start + j]
      {
        row := row + [rows[i * columnsCount + j]];
      }
      assert pieces[..i + 1] == pieces[..i] + [row];
      table := table + [row];
    }
    assert pieces[..rowsCount] == pieces;
  }

  /** Cell j of data row i is flat value i * C + j, and every data row has C cells. */
  lemma PivotCell(columnNames: seq<string>, rows: seq<SqlValue>, i: nat, j: nat)
    requires |columnNames| > 0 && |rows| % |columnNames| == 0
    requires i < |rows| / |columnNames| && j < |columnNames|
    ensures |Chunks(rows, |columnNames|)| == |rows| / |columnNames|
    ensures |Chunks(rows, |columnNames|)[i]| == |columnNames|
    ensures i * |columnNames| + j < |rows|
    ensures Chunks(rows, |columnNames|)[i][j] == rows[i * |columnNames| + j]
  {
    var width := |columnNames|;
    ChunksAt(rows, width, i);
    var lo := i * width;
    assert Chunks(rows, width)[i][j] == rows[lo..lo + width][j];
  }

  /** The row callback followed by the reshape: each row the engine passes
      is spread onto one flat list, which is then cut back into rows under
      the header. Rows of |columnNames| cells come back exactly as the engine
      passed them; with no columns the row count is 0 / 0, not a number, so
      no data row is produced. */
  method Collect(columnNames: seq<string>, received: seq<seq<SqlValue>>)
    returns (table: seq<seq<SqlValue>>)
    requires forall i | 0 <= i < |received| :: |received[i]| == |columnNames|
    ensures table == [HeaderRow(columnNames)] + (if columnNames == [] then [] else received)
  {
    var rows: seq<SqlValue> := [];
    for n := 0 to |received|
      invariant rows == Concat(received[..n])
    {
      rows := rows + received[n];
      assert rows == Concat(received[..n + 1]) by {
        assert received[..n + 1] == received[..n] + [received[n]];
        ConcatSnoc(received[..n], received[n]);
      }
    }
    assert rows == Concat(received) by {
      assert received[..|received|] == received;
    }
    if |columnNames| == 0 {
      table := [HeaderRow(columnNames)];
    } else {
      ChunksConcat(received, |columnNames|);
      table := Pivot(columnNames, rows);
      assert table == [table[0]] + table[1..];
    }
  }
}
