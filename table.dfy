/**
 * A database table: an immutable schema (name, columns, string-ref width
 * flag) and the codec between a table's byte stream and its rows of
 * `ValueRef`s.  The stream layout is column-major: every cell of column 0
 * (row by row), then every cell of column 1, and so on; the row count is
 * the stream length divided by the row stride, and a schema of stride zero
 * has no rows.
 */
module Tables {
  import opened Values
  import opened Columns

  /** Whether a sequence of indices is strictly increasing. */
  predicate StrictlyIncreasing(s: seq<nat>) {
    forall i, j :: 0 <= i < j < |s| ==> s[i] < s[j]
  }

  lemma {:induction false} MulLeft(k: nat, a: nat, b: nat)
    requires a <= b
    ensures k * a <= k * b
  {
    if k > 0 {
      MulLeft(k - 1, a, b);
      assert k * a == (k - 1) * a + a;
      assert k * b == (k - 1) * b + b;
    }
  }

  lemma MulSuccLeft(k: nat, a: nat)
    ensures (k + 1) * a == k * a + a
  {
  }

  lemma MulDivCancel(n: nat, d: nat)
    requires d > 0
    ensures (n * d) / d == n
  {
    var q := (n * d) / d;
    assert n * d == q * d + (n * d) % d;
    if q < n {
      MulSuccLeft(q, d);
      MulLeft(d, q + 1, n);
      assert false;
    } else if q > n {
      MulSuccLeft(n, d);
      MulLeft(d, n + 1, q);
      assert false;
    }
  }

  lemma NestedSlice<T>(outer: seq<T>, block: seq<T>, part: seq<T>, start: nat, len: nat, at: nat, w: nat)
    requires start + len <= |outer| && outer[start .. start + len] == block
    requires at + w <= len && block[at .. at + w] == part
    ensures outer[start + at .. start + at + w] == part
  {
    SliceOfSlice(outer, start, start + len, at, at + w);
  }

  /** `k * w`, one block at a time, so that offset proofs stay linear. */
  function Times(k: nat, w: nat): nat {
    if k == 0 then 0 else Times(k - 1, w) + w
  }

  lemma {:induction false} TimesIsProduct(k: nat, w: nat)
    ensures Times(k, w) == k * w
  {
    if k > 0 {
      TimesIsProduct(k - 1, w);
      MulSuccLeft(k - 1, w);
    }
  }

  lemma {:induction false} TimesMonoLeft(j: nat, k: nat, w: nat)
    requires j <= k
    ensures Times(j, w) <= Times(k, w)
    decreases k
  {
    if j < k {
      TimesMonoLeft(j, k - 1, w);
    }
  }

  lemma {:induction false} TimesMonoRight(k: nat, a: nat, b: nat)
    requires a <= b
    ensures Times(k, a) <= Times(k, b)
  {
    if k > 0 {
      TimesMonoRight(k - 1, a, b);
    }
  }

  lemma {:induction false} TimesAddRight(k: nat, a: nat, b: nat)
    ensures Times(k, a + b) == Times(k, a) + Times(k, b)
  {
    if k > 0 {
      TimesAddRight(k - 1, a, b);
    }
  }

  lemma SliceLeft<T>(a: seq<T>, b: seq<T>, i: nat, j: nat)
    requires i <= j <= |a|
    ensures (a + b)[i..j] == a[i..j]
  {
  }

  lemma SliceRight<T>(a: seq<T>, b: seq<T>)
    ensures (a + b)[|a|..|a| + |b|] == b
  {
  }

  lemma SliceOfSlice<T>(s: seq<T>, lo: nat, hi: nat, i: nat, j: nat)
    requires lo <= hi <= |s| && i <= j <= hi - lo
    ensures s[lo..hi][i..j] == s[lo + i..lo + j]
  {
    forall k | 0 <= k < j - i
      ensures s[lo..hi][i..j][k] == s[lo + i..lo + j][k]
    {
      assert s[lo..hi][i..j][k] == s[lo..hi][i + k];
    }
  }

  class Table {
    const name: string
    const columns: seq<Column>
    const longStringRefs: bool

    /** `Table::new`: the schema is fixed for the table's lifetime. */
    constructor (name: string, columns: seq<Column>, longStringRefs: bool)
      ensures this.name == name && this.columns == columns && this.longStringRefs == longStringRefs
    {
      this.name := name;
      this.columns := columns;
      this.longStringRefs := longStringRefs;
    }

    // ---------------------------------------------------------------- schema

    /** Indices `from..` of the primary-key columns, in schema order. */
    function KeyIndicesFrom(from: nat): (ks: seq<nat>)
      requires from <= |columns|
      ensures forall k :: 0 <= k < |ks| ==> from <= ks[k] < |columns|
      ensures StrictlyIncreasing(ks)
      ensures forall i :: i in ks <==> from <= i < |columns| && columns[i].isPrimaryKey
      decreases |columns| - from
    {
      if from == |columns| then []
      else if columns[from].isPrimaryKey then [from] + KeyIndicesFrom(from + 1)
      else KeyIndicesFrom(from + 1)
    }

    /** `primary_key_indices`: exactly the primary-key column indices, increasing. */
    function PrimaryKeyIndices(): (ks: seq<nat>)
      ensures StrictlyIncreasing(ks)
      ensures forall i :: i in ks <==> 0 <= i < |columns| && columns[i].isPrimaryKey
    {
      KeyIndicesFrom(0)
    }

    predicate HasColumn(columnName: string) {
      exists i :: 0 <= i < |columns| && columns[i].name == columnName
    }

    /** The first index at or after `from` whose column is named `columnName`. */
    ghost function FirstColumnNamedFrom(columnName: string, from: nat): (index: nat)
      requires exists i :: from <= i < |columns| && columns[i].name == columnName
      ensures from <= index < |columns| && columns[index].name == columnName
      ensures forall j :: from <= j < index ==> columns[j].name != columnName
      decreases |columns| - from
    {
      if columns[from].name == columnName then from
      else FirstColumnNamedFrom(columnName, from + 1)
    }

    /** The index `index_for_column_name` resolves a name to: the first column so named. */
    ghost function FirstColumnNamed(columnName: string): (index: nat)
      requires HasColumn(columnName)
      ensures index < |columns| && columns[index].name == columnName
      ensures forall j :: 0 <= j < index ==> columns[j].name != columnName
    {
      FirstColumnNamedFrom(columnName, 0)
    }

    /**
     * `index_for_column_name`: linear search with early return.  A name no
     * column carries makes the Rust code panic, so some column must match.
     */
    method IndexForColumnName(columnName: string) returns (index: nat)
      requires HasColumn(columnName)
      ensures index == FirstColumnNamed(columnName)
    {
      index := 0;
      while index < |columns|
        invariant index <= |columns|
        invariant forall j :: 0 <= j < index ==> columns[j].name != columnName
      {
        if columns[index].name == columnName {
          return;
        }
        index := index + 1;
      }
      assert false;
    }

    // ------------------------------------------------------------ row stride

    function ColumnWidth(c: nat): nat
      requires c < |columns|
    {
      columns[c].coltype.width(longStringRefs)
    }

    /** Sum of the widths of the first `k` columns. */
    function PrefixWidth(k: nat): nat
      requires k <= |columns|
    {
      if k == 0 then 0 else PrefixWidth(k - 1) + ColumnWidth(k - 1)
    }

    /** `row_size`: the sum of every column's width. */
    function RowSize(): nat {
      PrefixWidth(|columns|)
    }

    lemma {:induction false} PrefixWidthMonotone(j: nat, k: nat)
      requires j <= k <= |columns|
      ensures PrefixWidth(j) <= PrefixWidth(k)
      decreases k
    {
      if j < k {
        PrefixWidthMonotone(j, k - 1);
      }
    }

    /**
     * `num_rows`: the number of whole rows in a stream of `dataLength`
     * bytes; a stride of zero gives no rows instead of dividing by zero.
     */
    function NumRows(dataLength: nat): (n: nat)
      ensures RowSize() == 0 ==> n == 0
      ensures RowSize() > 0 ==> n * RowSize() <= dataLength < (n + 1) * RowSize()
      ensures Times(n, RowSize()) <= dataLength
    {
      if RowSize() > 0 then
        var n := dataLength / RowSize();
        TimesIsProduct(n, RowSize());
        n
      else 0
    }

    // ---------------------------------------------------------------- layout

    /** Byte offset of cell (r, c) in an image of `n` rows. */
    function CellOffset(n: nat, r: nat, c: nat): nat
      requires c < |columns|
    {
      Times(n, PrefixWidth(c)) + Times(r, ColumnWidth(c))
    }

    /** `CellOffset` is `n * (width_0 + .. + width_{c-1}) + r * width_c`. */
    lemma CellOffsetIsProduct(n: nat, r: nat, c: nat)
      requires c < |columns|
      ensures CellOffset(n, r, c) == n * PrefixWidth(c) + r * ColumnWidth(c)
    {
      TimesIsProduct(n, PrefixWidth(c));
      TimesIsProduct(r, ColumnWidth(c));
    }

    /** The cell after (r, c) in column c starts where (r, c) ends. */
    lemma CellOffsetNext(n: nat, r: nat, c: nat)
      requires c < |columns|
      ensures CellOffset(n, r + 1, c) == CellOffset(n, r, c) + ColumnWidth(c)
    {
    }

    /** Column c's cells of an `n`-row image end where column c + 1's begin. */
    lemma ColumnEnd(n: nat, c: nat)
      requires c < |columns|
      ensures CellOffset(n, n, c) == Times(n, PrefixWidth(c + 1))
    {
      TimesAddRight(n, PrefixWidth(c), ColumnWidth(c));
    }

    /** Every cell of an `n`-row image lies within its first `n * RowSize()` bytes. */
    lemma CellWithinImage(n: nat, r: nat, c: nat)
      requires r < n && c < |columns|
      ensures CellOffset(n, r, c) + ColumnWidth(c) <= Times(n, PrefixWidth(c + 1))
      ensures Times(n, PrefixWidth(c + 1)) <= Times(n, RowSize())
    {
      CellOffsetNext(n, r, c);
      TimesMonoLeft(r + 1, n, ColumnWidth(c));
      ColumnEnd(n, c);
      PrefixWidthMonotone(c + 1, |columns|);
      TimesMonoRight(n, PrefixWidth(c + 1), RowSize());
    }

    /** The bytes of cell (r, c) in an `n`-row image. */
    function CellBytes(data: seq<Byte>, n: nat, r: nat, c: nat): (bytes: seq<Byte>)
      requires r < n && c < |columns| && Times(n, RowSize()) <= |data|
      ensures |bytes| == ColumnWidth(c)
    {
      CellWithinImage(n, r, c);
      data[CellOffset(n, r, c) .. CellOffset(n, r, c) + ColumnWidth(c)]
    }

    /** The first `k` cells of row `r`, decoded from an `n`-row image. */
    function DecodeRowPrefix(data: seq<Byte>, n: nat, r: nat, k: nat): (row: seq<ValueRef>)
      requires r < n && k <= |columns| && Times(n, RowSize()) <= |data|
      ensures |row| == k
    {
      if k == 0 then []
      else DecodeRowPrefix(data, n, r, k - 1) + [columns[k - 1].coltype.decode(CellBytes(data, n, r, k - 1), longStringRefs)]
    }

    /** The rows a stream decodes to: `NumRows` rows of one cell per column. */
    function DecodeRows(data: seq<Byte>): (rows: seq<seq<ValueRef>>)
      ensures |rows| == NumRows(|data|)
      ensures forall r :: 0 <= r < |rows| ==> |rows[r]| == |columns|
    {
      var n := NumRows(|data|);
      seq(n, r requires 0 <= r < n => DecodeRowPrefix(data, n, r, |columns|))
    }

    lemma {:induction false} DecodeRowPrefixAt(data: seq<Byte>, n: nat, r: nat, k: nat, c: nat)
      requires r < n && k <= |columns| && Times(n, RowSize()) <= |data|
      requires c < k
      ensures DecodeRowPrefix(data, n, r, k)[c] == columns[c].coltype.decode(CellBytes(data, n, r, c), longStringRefs)
      decreases k
    {
      if c < k - 1 {
        DecodeRowPrefixAt(data, n, r, k - 1, c);
      }
    }

    /**
     * Column-major reading: cell (r, c) is decoded from the `width_c` bytes at
     * offset `num_rows * (width_0 + .. + width_{c-1}) + r * width_c`.
     */
    lemma DecodedCell(data: seq<Byte>, r: nat, c: nat)
      requires r < NumRows(|data|) && c < |columns|
      ensures CellOffset(NumRows(|data|), r, c) + ColumnWidth(c) <= NumRows(|data|) * RowSize() <= |data|
      ensures DecodeRows(data)[r][c]
        == columns[c].coltype.decode(data[CellOffset(NumRows(|data|), r, c) .. CellOffset(NumRows(|data|), r, c) + ColumnWidth(c)], longStringRefs)
    {
      var n := NumRows(|data|);
      CellWithinImage(n, r, c);
      DecodeRowPrefixAt(data, n, r, |columns|, c);
      TimesIsProduct(n, RowSize());
    }

    lemma {:induction false} DecodeRowPrefixOnPrefix(data: seq<Byte>, m: nat, n: nat, r: nat, k: nat)
      requires r < n && k <= |columns| && Times(n, RowSize()) <= m <= |data|
      ensures DecodeRowPrefix(data[..m], n, r, k) == DecodeRowPrefix(data, n, r, k)
      decreases k
    {
      if k > 0 {
        DecodeRowPrefixOnPrefix(data, m, n, r, k - 1);
        CellWithinImage(n, r, k - 1);
        assert CellBytes(data[..m], n, r, k - 1) == CellBytes(data, n, r, k - 1);
      }
    }

    /** Trailing bytes that do not make up a whole row are ignored. */
    lemma TrailingBytesIgnored(data: seq<Byte>)
      ensures DecodeRows(data) == DecodeRows(data[..NumRows(|data|) * RowSize()])
    {
      var n := NumRows(|data|);
      var m := n * RowSize();
      TimesIsProduct(n, RowSize());
      if RowSize() > 0 {
        MulDivCancel(n, RowSize());
      }
      var a, b := DecodeRows(data), DecodeRows(data[..m]);
      forall r | 0 <= r < n
        ensures a[r] == b[r]
      {
        DecodeRowPrefixOnPrefix(data, m, n, r, |columns|);
      }
    }

    /**
     * `read_rows`: allocate `num_rows` empty row buffers, then for each
     * column in schema order and each row in row order read one cell at the
     * stream cursor and append it to that row's buffer.
     */
    method ReadRows(data: seq<Byte>) returns (rows: seq<seq<ValueRef>>)
      ensures rows == DecodeRows(data)
    {
      var dataLength := |data|;
      var pos := 0;
      var numRows := NumRows(dataLength);
      var buffers := new seq<ValueRef>[numRows](_ => []);
      TimesIsProduct(numRows, 0);
      for c := 0 to |columns|
        invariant pos == Times(numRows, PrefixWidth(c))
        invariant forall r :: 0 <= r < numRows ==> buffers[r] == DecodeRowPrefix(data, numRows, r, c)
      {
        pos := ReadColumn(data, numRows, c, buffers, pos);
      }
      rows := buffers[..];
    }

    /**
     * One pass of the outer loop of `read_rows`: the cells of column `c`,
     * one per row, read from the cursor onwards and appended to the buffers.
     */
    method ReadColumn(data: seq<Byte>, numRows: nat, c: nat, buffers: array<seq<ValueRef>>, start: nat)
      returns (pos: nat)
      requires c < |columns| && Times(numRows, RowSize()) <= |data|
      requires buffers.Length == numRows && start == Times(numRows, PrefixWidth(c))
      requires forall r :: 0 <= r < numRows ==> buffers[r] == DecodeRowPrefix(data, numRows, r, c)
      modifies buffers
      ensures pos == Times(numRows, PrefixWidth(c + 1))
      ensures forall r :: 0 <= r < numRows ==> buffers[r] == DecodeRowPrefix(data, numRows, r, c + 1)
    {
      var coltype := columns[c].coltype;
      var width := coltype.width(longStringRefs);
      pos := start;
      for r := 0 to numRows
        invariant pos == CellOffset(numRows, r, c)
        invariant forall i :: 0 <= i < r ==>
          buffers[i] == old(buffers[i]) + [coltype.decode(CellBytes(data, numRows, i, c), longStringRefs)]
        invariant forall i :: r <= i < numRows ==> buffers[i] == old(buffers[i])
      {
        CellWithinImage(numRows, r, c);
        var cell := coltype.decode(data[pos .. pos + width], longStringRefs);
        buffers[r] := buffers[r] + [cell];
        CellOffsetNext(numRows, r, c);
        pos := pos + width;
      }
      ColumnEnd(numRows, c);
    }

    // ---------------------------------------------------------------- writing

    /** Every row has a cell for every column (`row[index]` panics otherwise). */
    predicate CoversColumns(rows: seq<seq<ValueRef>>) {
      forall r :: 0 <= r < |rows| ==> |rows[r]| >= |columns|
    }

    /** The cells of column `c` for rows `0..k`, in row order. */
    function EncodeColumn(rows: seq<seq<ValueRef>>, c: nat, k: nat): seq<Byte>
      requires CoversColumns(rows) && c < |columns| && k <= |rows|
    {
      if k == 0 then []
      else EncodeColumn(rows, c, k - 1) + columns[c].coltype.encode(rows[k - 1][c], longStringRefs)
    }

    /** Columns `0..k`, each one all of its cells before the next column. */
    function EncodeColumns(rows: seq<seq<ValueRef>>, k: nat): seq<Byte>
      requires CoversColumns(rows) && k <= |columns|
    {
      if k == 0 then [] else EncodeColumns(rows, k - 1) + EncodeColumn(rows, k - 1, |rows|)
    }

    /** The column-major stream image of `rows`. */
    function EncodeRows(rows: seq<seq<ValueRef>>): seq<Byte>
      requires CoversColumns(rows)
    {
      EncodeColumns(rows, |columns|)
    }

    /**
     * `write_rows`: for each column in schema order and each row in row
     * order, write that row's cell for the column.
     */
    method WriteRows(rows: seq<seq<ValueRef>>) returns (bytes: seq<Byte>)
      requires CoversColumns(rows)
      ensures bytes == EncodeRows(rows)
    {
      bytes := [];
      for c := 0 to |columns|
        invariant bytes == EncodeColumns(rows, c)
      {
        var coltype := columns[c].coltype;
        for r := 0 to |rows|
          invariant bytes == EncodeColumns(rows, c) + EncodeColumn(rows, c, r)
        {
          bytes := bytes + coltype.encode(rows[r][c], longStringRefs);
        }
      }
    }

    /** Every column type writes exactly its declared width. */
    ghost predicate WidthsExact() {
      forall c :: 0 <= c < |columns| ==> EmitsWidth(columns[c].coltype)
    }

    /** Every column type satisfies the codec laws. */
    ghost predicate LawfulColumns() {
      forall c :: 0 <= c < |columns| ==> LawfulCodec(columns[c].coltype)
    }

    /** Every cell can be stored by its column's type. */
    ghost predicate CellsFit(rows: seq<seq<ValueRef>>) {
      forall r, c :: 0 <= r < |rows| && 0 <= c < |columns| && c < |rows[r]| ==>
        columns[c].coltype.fits(rows[r][c], longStringRefs)
    }

    lemma {:induction false} EncodeColumnLength(rows: seq<seq<ValueRef>>, c: nat, k: nat)
      requires CoversColumns(rows) && c < |columns| && k <= |rows|
      requires EmitsWidth(columns[c].coltype)
      ensures |EncodeColumn(rows, c, k)| == Times(k, ColumnWidth(c))
      decreases k
    {
      if k > 0 {
        EncodeColumnLength(rows, c, k - 1);
      }
    }

    lemma {:induction false} EncodeColumnsLength(rows: seq<seq<ValueRef>>, k: nat)
      requires CoversColumns(rows) && k <= |columns| && WidthsExact()
      ensures |EncodeColumns(rows, k)| == Times(|rows|, PrefixWidth(k))
      decreases k
    {
      if k == 0 {
        TimesIsProduct(|rows|, 0);
      } else {
        var prev, col := EncodeColumns(rows, k - 1), EncodeColumn(rows, k - 1, |rows|);
        assert EncodeColumns(rows, k) == prev + col;
        assert EmitsWidth(columns[k - 1].coltype);
        EncodeColumnsLength(rows, k - 1);
        EncodeColumnLength(rows, k - 1, |rows|);
        TimesAddRight(|rows|, PrefixWidth(k - 1), ColumnWidth(k - 1));
      }
    }

    /** `write_rows` emits `rows.len() * row_size` bytes. */
    lemma EncodedLength(rows: seq<seq<ValueRef>>)
      requires CoversColumns(rows) && WidthsExact()
      ensures |EncodeRows(rows)| == |rows| * RowSize()
    {
      EncodeColumnsLength(rows, |columns|);
      TimesIsProduct(|rows|, RowSize());
    }

    lemma {:induction false} EncodeColumnCell(rows: seq<seq<ValueRef>>, c: nat, k: nat, r: nat)
      requires CoversColumns(rows) && c < |columns| && r < k <= |rows|
      requires EmitsWidth(columns[c].coltype)
      ensures |EncodeColumn(rows, c, k)| == Times(k, ColumnWidth(c))
      ensures Times(r + 1, ColumnWidth(c)) <= Times(k, ColumnWidth(c))
      ensures EncodeColumn(rows, c, k)[Times(r, ColumnWidth(c)) .. Times(r + 1, ColumnWidth(c))]
        == columns[c].coltype.encode(rows[r][c], longStringRefs)
      decreases k
    {
      var w := ColumnWidth(c);
      EncodeColumnLength(rows, c, k);
      EncodeColumnLength(rows, c, k - 1);
      TimesMonoLeft(r + 1, k, w);
      var prev, cell := EncodeColumn(rows, c, k - 1), columns[c].coltype.encode(rows[r][c], longStringRefs);
      if r == k - 1 {
        SliceRight(prev, cell);
      } else {
        EncodeColumnCell(rows, c, k - 1, r);
        SliceLeft(prev, columns[c].coltype.encode(rows[k - 1][c], longStringRefs), Times(r, w), Times(r + 1, w));
      }
    }

    lemma {:induction false} EncodeColumnsBlock(rows: seq<seq<ValueRef>>, k: nat, c: nat)
      requires CoversColumns(rows) && c < k <= |columns| && WidthsExact()
      ensures Times(|rows|, PrefixWidth(c)) + Times(|rows|, ColumnWidth(c)) <= |EncodeColumns(rows, k)|
      ensures EncodeColumns(rows, k)[Times(|rows|, PrefixWidth(c)) .. Times(|rows|, PrefixWidth(c)) + Times(|rows|, ColumnWidth(c))]
        == EncodeColumn(rows, c, |rows|)
      decreases k
    {
      var n := |rows|;
      var prev, col := EncodeColumns(rows, k - 1), EncodeColumn(rows, k - 1, n);
      var lo, hi := Times(n, PrefixWidth(c)), Times(n, PrefixWidth(c)) + Times(n, ColumnWidth(c));
      assert EncodeColumns(rows, k) == prev + col;
      if c == k - 1 {
        assert lo == |prev| && hi == |prev| + |col| by {
          EncodeColumnsLength(rows, k - 1);
          EncodeColumnLength(rows, k - 1, n);
        }
        SliceRight(prev, col);
      } else {
        assert hi <= |prev| && prev[lo .. hi] == EncodeColumn(rows, c, n) by {
          EncodeColumnsBlock(rows, k - 1, c);
        }
        SliceLeft(prev, col, lo, hi);
      }
    }

    /**
     * Column-major writing: the cell of row r for column c occupies the
     * `width_c` bytes at offset `rows.len() * (width_0 + .. + width_{c-1}) + r * width_c`.
     */
    lemma EncodedCell(rows: seq<seq<ValueRef>>, r: nat, c: nat)
      requires CoversColumns(rows) && WidthsExact()
      requires r < |rows| && c < |columns|
      ensures CellOffset(|rows|, r, c) + ColumnWidth(c) <= |EncodeRows(rows)|
      ensures EncodeRows(rows)[CellOffset(|rows|, r, c) .. CellOffset(|rows|, r, c) + ColumnWidth(c)]
        == columns[c].coltype.encode(rows[r][c], longStringRefs)
    {
      var n, w := |rows|, ColumnWidth(c);
      var start, len, at := Times(n, PrefixWidth(c)), Times(n, w), Times(r, w);
      var column, cell := EncodeColumn(rows, c, n), columns[c].coltype.encode(rows[r][c], longStringRefs);
      assert start + len <= |EncodeRows(rows)| && EncodeRows(rows)[start .. start + len] == column by {
        EncodeColumnsBlock(rows, |columns|, c);
      }
      assert at + w <= len && column[at .. at + w] == cell by {
        EncodeColumnCell(rows, c, n, r);
      }
      NestedSlice(EncodeRows(rows), column, cell, start, len, at, w);
    }

    /**
     * Reading back what `write_rows` wrote gives the rows back, when every
     * row has one cell per column, every cell fits its column type and the
     * row stride is not zero.
     */
    lemma WriteThenRead(rows: seq<seq<ValueRef>>)
      requires forall r :: 0 <= r < |rows| ==> |rows[r]| == |columns|
      requires LawfulColumns() && CellsFit(rows)
      requires RowSize() > 0 || |rows| == 0
      ensures CoversColumns(rows)
      ensures DecodeRows(EncodeRows(rows)) == rows
    {
      assert WidthsExact();
      var image := EncodeRows(rows);
      var n := |rows|;
      EncodedLength(rows);
      if RowSize() > 0 {
        MulDivCancel(n, RowSize());
      }
      assert NumRows(|image|) == n;
      var decoded := DecodeRows(image);
      forall r | 0 <= r < n
        ensures decoded[r] == rows[r]
      {
        forall c | 0 <= c < |columns|
          ensures decoded[r][c] == rows[r][c]
        {
          DecodedCell(image, r, c);
          EncodedCell(rows, r, c);
          assert LawfulCodec(columns[c].coltype);
        }
      }
    }

    /** With a row stride of zero nothing is written and nothing is read back. */
    lemma ZeroStrideDropsRows(rows: seq<seq<ValueRef>>)
      requires CoversColumns(rows) && WidthsExact()
      requires RowSize() == 0
      ensures EncodeRows(rows) == []
      ensures DecodeRows(EncodeRows(rows)) == []
    {
      EncodedLength(rows);
    }
  }
}
