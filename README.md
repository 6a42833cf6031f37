# MSI table layer: value model and row codec

A Dafny model of two pieces of the table layer of an MSI database engine
(the `rust-msi` crate):

- **The value model** (`src/internal/value.rs`). `Value` is the owned cell
  value: null, a 32-bit signed integer, or text. It has kind tests,
  extractors, boolean coercions and conversions from `i16`, `u16`, `i32` and
  strings. `ValueRef` is the twin used while a row lives inside the engine;
  its text case holds a string-pool handle. `ValueRef::create`,
  `ValueRef::remove` and `ValueRef::to_value` acquire, release and
  dereference pool entries.
- **The row codec and row iterator** (`src/internal/table.rs`). A `Table` is
  an immutable schema: a name, columns, and the `long_string_refs` flag.
  `read_rows` and `write_rows` convert between a table's byte stream and its
  rows of `ValueRef`s. The stream is column-major: every cell of column 0
  first, then every cell of column 1, and so on. `Rows` is a forward-only
  cursor that turns each `ValueRef` row into a `Row` of `Value`s. A `Row`
  can be indexed by position or by column name.

Two collaborators are modelled only through the contract the core relies on:

- The string pool (`string_pool.dfy`) is a map from handle to
  (text, reference count). `incref` returns the live handle that already
  holds equal text, or allocates a handle that is not live, with count 1.
  `decref` removes one reference and retires the handle when the count
  reaches zero. Reading a handle's text requires the handle to be live.
- A column type (`column.dfy`) is any four functions:
  - `width(long_string_refs)`: the bytes per cell;
  - `fits`: which cell values the type can store;
  - `decode`: read one cell;
  - `encode`: write one cell.

  The codec laws say that `encode` always emits exactly `width` bytes, and
  that `decode` gives back every value the type `fits`. These laws are
  requirements of the round-trip lemma, not axioms.

Files and modules:

- `wrappers.dfy`: module `Wrappers`, the `Option` type.
- `string_pool.dfy`: module `StringPools`, the pool contract.
  - The pure functions `IncrefStep` and `DecrefStep` define each operation's
    effect on the pool's map.
  - The class `StringPool` implements both operations against those
    functions.
- `value.rs` is modelled by `value.dfy`, module `Values`.
- `table.rs` is modelled by two files:
  - `table.dfy`, module `Tables`, holds `Table` with the schema lookups and
    the codec;
  - `table_rows.dfy`, module `TableRows`, holds `Row` and `Rows`.

`Table` is a class with `const` fields. `Row` and `Rows` therefore hold the
table by reference, as the Rust code's borrowed `&Table` does. `Table::new` is
the class constructor. `columns()` and `name()` are the `columns` and `name`
fields.

The byte stream is a `seq<bv8>`. `ReadRows` does the following:

1. It takes the length of the sequence; this is the Rust code's seek to the end.
2. It sets its cursor to 0; this is the seek back to the start.
3. It allocates `num_rows` empty row buffers as an array.
4. It fills the buffers with the same nested loops as the Rust code: the outer
   loop runs over the columns, the inner loop over the rows.

`WriteRows` returns the bytes the Rust code writes, in the order the Rust code
writes them.

Two notes on the codec:

- `write_rows` only indexes `row[index]` for each column index, so longer rows
  are accepted and their extra cells are never written. The model requires
  every row to have at least as many cells as there are columns.
- Writing rows and reading them back gives the same rows under three
  conditions: the row stride is not zero, every row has exactly one cell per
  column, and every cell fits its column type. When the stride is zero,
  nothing is written and no rows are read back. This is the Rust code's
  `row_size == 0` guard at work, shown by `ZeroStrideDropsRows`.

## Model

| member | source | states |
|---|---|---|
| `Values.ExactlyOneKind` | src/internal/value.rs:22-52 | exactly one of `is_null`, `is_int`, `is_str` holds of every value, and `is_null` holds only of `Null` |
| `Values.AsInt` | src/internal/value.rs:38-44 | `as_int` is `Some` exactly for integers, and `as_int(v) == Some(n)` iff `v == Int(n)` |
| `Values.AsStr` | src/internal/value.rs:55-61 | `as_str` is `Some` exactly for strings, and `as_str(v) == Some(s)` iff `v == Str(s)` |
| `Values.FromBool` | src/internal/value.rs:64-70 | `from_bool` yields `Int(1)` or `Int(0)` |
| `Values.FromBoolToBool` | src/internal/value.rs:64-80 | `to_bool(from_bool(b)) == b` |
| `Values.ToBoolFalseExactly` | src/internal/value.rs:72-80 | `to_bool` is false exactly for `Null`, `Int(0)` and `Str("")` |
| `Values.CastToI32` | src/internal/value.rs:93-99 | Rust's `as i32` keeps the value modulo 2^32, in the 32-bit signed range |
| `Values.FromI16` | src/internal/value.rs:93-95 | `From<i16>` gives `Int` of the same mathematical value: the cast loses no sign and does not wrap |
| `Values.FromU16` | src/internal/value.rs:97-99 | `From<u16>` gives `Int` of the same mathematical value: never negative, no wrap |
| `Values.FromI32` | src/internal/value.rs:101-103 | `From<i32>` gives the integer that `as_int` extracts again |
| `Values.FromString` | src/internal/value.rs:105-111 | `From<&str>` and `From<String>` give the string value that `as_str` extracts again |
| `Values.ToValue` | src/internal/value.rs:156-164 | `to_value` needs a live handle for `Str`, keeps the kind of the reference, keeps the integer, and copies the pool's text for `Str` |
| `Values.RemoveStep` | src/internal/value.rs:148-153 | `remove` leaves the pool unchanged for `Null` and `Int`, and is one `decref` for `Str` |
| `Values.CreateThenToValue` | src/internal/value.rs:139-164 | after `create(v)` the reference is live and `to_value` gives `v` back, for `Null`, `Int` and `Str`; the pool stays well formed |
| `Values.CreateThenRemoveRestores` | src/internal/value.rs:139-153 | `remove` right after `create` restores the pool exactly, with every reference count as before |
| `Values.Create` | src/internal/value.rs:139-145 | `create` changes the pool only for `Str`, by one `incref`, and its result dereferences to the value |
| `Values.Remove` | src/internal/value.rs:148-153 | `remove` does one `decref` for `Str` and nothing otherwise; it requires a live handle |
| `StringPools.HandleOf` | src/internal/value.rs:143 | the live handle holding a text, if any; `None` means that no live entry holds that text |
| `StringPools.DecrefStep` | src/internal/value.rs:151 | `decref` lowers the handle's count by one and retires the handle at zero; other entries are unchanged |
| `StringPools.IncrefKeepsWellformed` | src/internal/value.rs:143 | `incref` keeps counts positive and texts unique, and leaves the returned handle live with the text |
| `StringPools.DecrefKeepsWellformed` | src/internal/value.rs:151 | `decref` keeps the pool well formed |
| `StringPools.IncrefDeduplicates` | src/internal/value.rs:143 | interning equal text twice returns the same handle and adds no live entry |
| `StringPools.IncrefThenDecrefRestores` | src/internal/value.rs:143-151 | a `decref` that matches an `incref` restores the pool exactly |
| `StringPools.StringPool.constructor` | src/internal/value.rs:205 | a new pool has no live entries |
| `StringPools.StringPool.Incref` | src/internal/value.rs:143 | the pool object's `incref` has the effect `IncrefStep` describes and keeps the pool valid |
| `StringPools.StringPool.Decref` | src/internal/value.rs:151 | the pool object's `decref` has the effect `DecrefStep` describes; it requires a live handle |
| `Tables.Table.constructor` | src/internal/table.rs:21-28 | the table keeps the given name, columns and string-ref flag |
| `Tables.Table.PrimaryKeyIndices` | src/internal/table.rs:42-52 | the result is strictly increasing and holds exactly the indices of the primary-key columns |
| `Tables.Table.KeyIndicesFrom` | src/internal/table.rs:43-51 | the primary-key indices from a position on: in range, strictly increasing, exactly the key columns |
| `Tables.Table.FirstColumnNamed` | src/internal/table.rs:54-63 | the index the name resolves to names that column, and no earlier column has that name |
| `Tables.Table.IndexForColumnName` | src/internal/table.rs:54-63 | the linear search returns the first index whose column has the name; some column must have it, since the Rust code panics otherwise |
| `Tables.Table.PrefixWidthMonotone` | src/internal/table.rs:72-75 | partial sums of column widths never decrease, so no prefix is wider than `row_size` |
| `Tables.Table.NumRows` | src/internal/table.rs:77-81 | `num_rows` is 0 when `row_size` is 0, and otherwise the floor of `data_length / row_size`; whole rows never exceed the stream |
| `Tables.Table.CellOffsetIsProduct` | src/internal/table.rs:84-90 | cell (r, c) of an n-row image starts at `n * (width_0 + .. + width_{c-1}) + r * width_c` |
| `Tables.Table.CellWithinImage` | src/internal/table.rs:77-90 | every cell read lies inside the first `num_rows * row_size` bytes |
| `Tables.Table.CellBytes` | src/internal/table.rs:87-88 | each cell read takes exactly its column's width in bytes |
| `Tables.Table.DecodeRows` | src/internal/table.rs:82-91 | decoding yields `num_rows` rows, each with one value per column |
| `Tables.Table.DecodedCell` | src/internal/table.rs:84-90 | column-major reading: cell (r, c) is decoded from the bytes at `num_rows * (width_0 + .. + width_{c-1}) + r * width_c`, within the stream |
| `Tables.Table.TrailingBytesIgnored` | src/internal/table.rs:70-81 | bytes after the last whole row do not affect the result |
| `Tables.Table.ReadRows` | src/internal/table.rs:67-92 | the nested column-then-row loops that push into preallocated row buffers compute exactly `DecodeRows` |
| `Tables.Table.ReadColumn` | src/internal/table.rs:84-90 | one pass of the column loop appends to every row buffer the cell of column c decoded at the cursor, and leaves the cursor at the end of that column's block |
| `Tables.Table.WriteRows` | src/internal/table.rs:94-107 | the nested column-then-row loops write exactly the column-major image `EncodeRows`; every row needs a cell for every column |
| `Tables.Table.EncodedLength` | src/internal/table.rs:94-107 | `write_rows` emits `rows.len() * row_size` bytes |
| `Tables.Table.EncodedCell` | src/internal/table.rs:97-105 | column-major writing: row r's cell for column c is written at `rows.len() * (width_0 + .. + width_{c-1}) + r * width_c` |
| `Tables.Table.WriteThenRead` | src/internal/table.rs:67-107 | reading the bytes `write_rows` wrote gives the original rows back, under the conditions listed above |
| `Tables.Table.ZeroStrideDropsRows` | src/internal/table.rs:77-81 | with a zero row stride nothing is written and no rows are read back |
| `TableRows.ValueByName` | src/internal/table.rs:136-143 | `row[name]` is `row[i]` for the first column index `i` with that name |
| `TableRows.ToValues` | src/internal/table.rs:173-176 | dereferencing a row keeps one value per cell |
| `TableRows.DecodedRowMaterialises` | src/internal/table.rs:126-134 | a row made from a decoded row has `len()` values, and `row[c]` is cell c dereferenced through the pool |
| `TableRows.Rows.constructor` | src/internal/table.rs:156-165 | a new iterator starts at row 0 over the given rows, pool and table |
| `TableRows.Rows.Next` | src/internal/table.rs:171-182 | `next` returns a row iff `next_row_index < rows.len()`; that row is `to_value` applied to each cell of the row under the cursor, and the cursor advances by one; `None` leaves the cursor; `next_row_index <= rows.len()` is kept |
| `TableRows.Rows.SizeHint` | src/internal/table.rs:184-188 | the lower and upper bounds are equal, and they are the number of rows not yet returned |

## Left out

- `impl fmt::Display for Value` (src/internal/value.rs:83-91): it depends on Rust's integer formatting, `Debug` string escaping and formatter padding.
- `From<Uuid>` (src/internal/value.rs:113-121): it depends on the `uuid` crate's hyphenated formatting and ASCII upper-casing.
- `Table::stream_name` (src/internal/table.rs:33-36): it delegates to `streamname::encode`, which is not part of this model.
- The string pool's storage is not modelled: handle reuse, the 16-bit reference-count limit, the code page, and the choice of long string refs. A retired handle is simply absent from the map.
- The concrete column types and their byte encodings (`coltype().width`, `read_value`, `write_value`) are not part of this model. They appear only through the `ColumnType` functions and the codec laws.
- I/O failures are not modelled. The stream is a byte sequence, and `ReadRows` reads only the first `num_rows * row_size <= data_length` bytes. So the premature end of stream that the Rust code would report cannot occur. Other `io::Error`s from the underlying reader or writer are not represented.
- Integer widths of lengths and counts (`u64` stream lengths, `usize` indices) are unbounded `nat`s. `Value::Int` keeps its 32-bit range.
- Rust lifetimes and borrowing. `Rows` reads the pool's current entries through a reference. Its invariant requires every handle in its rows to be live, because the Rust code's `get` panics on a retired handle.
- `TableRows.Len` and `TableRows.At` (`Row::len` and `Index<usize>`, src/internal/table.rs:127, 133) are plain field reads with no contract of their own. What they promise is stated by `TableRows.DecodedRowMaterialises` and `TableRows.ValueByName`.
- Nine more definitions have no contract of their own. Each one's promise is stated by the lemmas or members listed after it:
  - `Values.IsNull`, `Values.IsInt` and `Values.IsStr` (`is_null`, `is_int`, `is_str`, src/internal/value.rs:22-52): stated by `Values.ExactlyOneKind`, `Values.AsInt` and `Values.AsStr`.
  - `Values.ToBool` (`to_bool`, src/internal/value.rs:72-80): stated by `Values.ToBoolFalseExactly` and `Values.FromBoolToBool`.
  - `StringPools.IncrefStep` (the effect of the `incref` call at src/internal/value.rs:143): stated by `StringPools.IncrefKeepsWellformed` and `StringPools.IncrefDeduplicates`.
  - `Tables.Table.RowSize` (`row_size`, src/internal/table.rs:72-75): stated by `Tables.Table.PrefixWidthMonotone`, `Tables.Table.NumRows` and `Tables.Table.EncodedLength`.
  - `Tables.Table.ColumnWidth` (`col.coltype().width(self.long_string_refs)`, src/internal/table.rs:74): stated by `Tables.Table.CellBytes` and `Tables.Table.PrefixWidthMonotone`.
  - `Values.CreateStep` (the pool effect and result of `ValueRef::create`, src/internal/value.rs:139-145): stated by `Values.CreateThenToValue` and `Values.CreateThenRemoveRestores`.
  - `Tables.Table.EncodeRows`, built from `Tables.Table.EncodeColumn` and `Tables.Table.EncodeColumns` (the column-major image `write_rows` emits, src/internal/table.rs:94-107): stated by `Tables.Table.EncodedLength`, `Tables.Table.EncodedCell` and `Tables.Table.WriteThenRead`.
