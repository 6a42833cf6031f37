/**
 * The column-type capability the row codec is written against.  A column
 * type reports the byte width of one cell for a given string-ref width
 * flag, says which cell values it can represent, and reads / writes one
 * cell.  The concrete column kinds and their byte encodings are not part of
 * this model: a column type is any four functions, and the codec laws below
 * are what the row codec may rely on.
 */
module Columns {
  import opened Values

  type Byte = bv8

  datatype ColumnType = ColumnType(
    /** Bytes per cell, given the table's `long_string_refs` flag. */
    width: bool -> nat,
    /** The cell values this column type can store without loss. */
    fits: (ValueRef, bool) -> bool,
    /** Reads one cell from exactly `width` bytes. */
    decode: (seq<Byte>, bool) -> ValueRef,
    /** Writes one cell. */
    encode: (ValueRef, bool) -> seq<Byte>)

  /** Writing a cell emits exactly `width` bytes, whatever the value. */
  ghost predicate EmitsWidth(ct: ColumnType) {
    forall v, longRefs :: |ct.encode(v, longRefs)| == ct.width(longRefs)
  }

  /** Reading back a written cell gives the value, for every value the type can store. */
  ghost predicate RoundTrips(ct: ColumnType) {
    forall v, longRefs :: ct.fits(v, longRefs) ==> ct.decode(ct.encode(v, longRefs), longRefs) == v
  }

  ghost predicate LawfulCodec(ct: ColumnType) {
    EmitsWidth(ct) && RoundTrips(ct)
  }

  /** One schema entry: name, column type, primary-key flag. */
  datatype Column = Column(name: string, coltype: ColumnType, isPrimaryKey: bool)
}
