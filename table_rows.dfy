/**
 * Rows handed to callers: `Rows` is a forward-only cursor over decoded
 * `ValueRef` rows that dereferences one row at a time through a read-only
 * view of the string pool; `Row` is one materialised record that can be
 * indexed by position or by column name.
 */
module TableRows {
  import opened Wrappers
  import opened StringPools
  import opened Values
  import opened Tables

  /** One row: the table it belongs to (borrowed) and its owned values. */
  datatype Row = Row(table: Table, values: seq<Value>)

  /** `Row::len`: the number of columns of the row's table. */
  function Len(row: Row): nat {
    |row.table.columns|
  }

  /** `row[index]`: the value at a position; an out-of-range index panics in the Rust code. */
  function At(row: Row, index: nat): Value
    requires index < |row.values|
  {
    row.values[index]
  }

  /**
   * `row[name]`: the value of the first column carrying that name.  A name
   * no column carries panics in the Rust code, as does a row with too few values.
   */
  method ValueByName(row: Row, columnName: string) returns (v: Value)
    requires row.table.HasColumn(columnName)
    requires row.table.FirstColumnNamed(columnName) < |row.values|
    ensures v == At(row, row.table.FirstColumnNamed(columnName))
  {
    var index := row.table.IndexForColumnName(columnName);
    v := At(row, index);
  }

  /** Every cell of `refs` can be dereferenced in `m`. */
  predicate RowLive(refs: seq<ValueRef>, m: PoolState) {
    forall i :: 0 <= i < |refs| ==> LiveIn(refs[i], m)
  }

  predicate AllLive(rows: seq<seq<ValueRef>>, m: PoolState) {
    forall r :: 0 <= r < |rows| ==> RowLive(rows[r], m)
  }

  /** Dereference every cell of a row, in order. */
  function ToValues(refs: seq<ValueRef>, m: PoolState): (values: seq<Value>)
    requires RowLive(refs, m)
    ensures |values| == |refs|
  {
    seq(|refs|, i requires 0 <= i < |refs| => ToValue(refs[i], m))
  }

  /**
   * A row materialised from a decoded row of its table has one value per
   * column, and each value is its cell dereferenced through the pool.
   */
  lemma DecodedRowMaterialises(t: Table, data: seq<Columns.Byte>, r: nat, m: PoolState)
    requires r < |t.DecodeRows(data)|
    requires RowLive(t.DecodeRows(data)[r], m)
    ensures var row := Row(t, ToValues(t.DecodeRows(data)[r], m));
      && Len(row) == |row.values|
      && forall c :: 0 <= c < Len(row) ==> At(row, c) == ToValue(t.DecodeRows(data)[r][c], m)
  {
  }

  /** The iterator over a table's rows. */
  class Rows {
    const pool: StringPool
    const table: Table
    const rows: seq<seq<ValueRef>>
    var nextRowIndex: nat

    ghost predicate Valid()
      reads this, pool
    {
      nextRowIndex <= |rows| && AllLive(rows, pool.entries)
    }

    /** `Rows::new`: a cursor at the first row. */
    constructor (pool: StringPool, table: Table, rows: seq<seq<ValueRef>>)
      requires AllLive(rows, pool.entries)
      ensures Valid()
      ensures this.pool == pool && this.table == table && this.rows == rows
      ensures nextRowIndex == 0
    {
      this.pool := pool;
      this.table := table;
      this.rows := rows;
      nextRowIndex := 0;
    }

    /** `Iterator::next`: materialise the row under the cursor and advance it. */
    method Next() returns (row: Option<Row>)
      requires Valid()
      modifies this
      ensures Valid()
      ensures row.Some? <==> old(nextRowIndex) < |rows|
      ensures row.Some? ==> nextRowIndex == old(nextRowIndex) + 1
      ensures row.Some? ==> row.value == Row(table, ToValues(rows[old(nextRowIndex)], pool.entries))
      ensures row.None? ==> nextRowIndex == old(nextRowIndex)
    {
      if nextRowIndex < |rows| {
        var values := ToValues(rows[nextRowIndex], pool.entries);
        nextRowIndex := nextRowIndex + 1;
        row := Some(Row(table, values));
      } else {
        row := None;
      }
    }

    /** `Iterator::size_hint`: the exact number of rows not yet returned. */
    function SizeHint(): (hint: (nat, Option<nat>))
      reads this, pool
      requires Valid()
      ensures hint.1 == Some(hint.0)
      ensures hint.0 + nextRowIndex == |rows|
    {
      var remaining := |rows| - nextRowIndex;
      (remaining, Some(remaining))
    }
  }
}
