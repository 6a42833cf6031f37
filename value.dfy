/**
 * The two cell representations of a table row: the owned `Value` (null,
 * 32-bit integer, text) and the pool-indirect `ValueRef`, whose text case is
 * a string-pool handle, together with the acquire / release / dereference
 * protocol that converts between them.
 */
module Values {
  import opened Wrappers
  import opened StringPools

  type Int16 = x: int | -0x8000 <= x < 0x8000
  type UInt16 = x: int | 0 <= x < 0x1_0000
  type Int32 = x: int | -0x8000_0000 <= x < 0x8000_0000

  /** A value from one cell of a table row. */
  datatype Value = Null | Int(number: Int32) | Str(text: string)

  predicate IsNull(v: Value) {
    match v
    case Null => true
    case _ => false
  }

  predicate IsInt(v: Value) {
    match v
    case Int(_) => true
    case _ => false
  }

  predicate IsStr(v: Value) {
    match v
    case Str(_) => true
    case _ => false
  }

  /** Exactly one of the three kind tests holds of every value. */
  lemma ExactlyOneKind(v: Value)
    ensures IsNull(v) || IsInt(v) || IsStr(v)
    ensures !(IsNull(v) && IsInt(v)) && !(IsNull(v) && IsStr(v)) && !(IsInt(v) && IsStr(v))
    ensures IsNull(v) <==> v == Value.Null
  {
  }

  function AsInt(v: Value): (r: Option<Int32>)
    ensures r.Some? <==> IsInt(v)
    ensures forall n: Int32 :: r == Some(n) <==> v == Value.Int(n)
  {
    match v
    case Null => None
    case Int(number) => Some(number)
    case Str(_) => None
  }

  function AsStr(v: Value): (r: Option<string>)
    ensures r.Some? <==> IsStr(v)
    ensures forall s :: r == Some(s) <==> v == Value.Str(s)
  {
    match v
    case Null => None
    case Int(_) => None
    case Str(s) => Some(s)
  }

  function FromBool(b: bool): (v: Value)
    ensures v == Value.Int(1) || v == Value.Int(0)
  {
    if b then Value.Int(1) else Value.Int(0)
  }

  /** False for null, zero and the empty string; true for every other value. */
  function ToBool(v: Value): bool {
    match v
    case Null => false
    case Int(number) => number != 0
    case Str(s) => |s| != 0
  }

  lemma ToBoolFalseExactly(v: Value)
    ensures !ToBool(v) <==> v == Value.Null || v == Value.Int(0) || v == Value.Str("")
  {
  }

  lemma FromBoolToBool(b: bool)
    ensures ToBool(FromBool(b)) == b
  {
  }

  /** Rust's `as i32` on an integer: keep the low 32 bits, read them as two's complement. */
  function CastToI32(x: int): (r: Int32)
    ensures (r - x) % 0x1_0000_0000 == 0
  {
    var low := x % 0x1_0000_0000;
    if low < 0x8000_0000 then low else low - 0x1_0000_0000
  }

  /** `Value::from(i16)`: the widening cast keeps the sign and the magnitude. */
  function FromI16(x: Int16): (v: Value)
    ensures v == Value.Int(x)
  {
    Value.Int(CastToI32(x))
  }

  /** `Value::from(u16)`: the widening cast never makes the value negative. */
  function FromU16(x: UInt16): (v: Value)
    ensures v == Value.Int(x)
  {
    Value.Int(CastToI32(x))
  }

  function FromI32(x: Int32): (v: Value)
    ensures AsInt(v) == Some(x)
  {
    Value.Int(x)
  }

  /** `Value::from(&str)` and `Value::from(String)`: both own a copy of the text. */
  function FromString(s: string): (v: Value)
    ensures AsStr(v) == Some(s)
  {
    Value.Str(s)
  }

  /** An indirect cell value: the text case holds a string-pool handle. */
  datatype ValueRef = Null | Int(number: Int32) | Str(handle: Handle)

  /** `r` may be dereferenced in `m`: a text handle must be live. */
  predicate LiveIn(r: ValueRef, m: PoolState) {
    r.Str? ==> r.handle in m
  }

  /** `ValueRef::to_value`: copy the handle's text out of the pool. */
  function ToValue(r: ValueRef, m: PoolState): (v: Value)
    requires LiveIn(r, m)
    ensures IsNull(v) <==> r.Null?
    ensures IsInt(v) <==> r.Int?
    ensures r.Int? ==> v == Value.Int(r.number)
    ensures r.Str? ==> v == Value.Str(m[r.handle].text)
  {
    match r
    case Null => Value.Null
    case Int(number) => Value.Int(number)
    case Str(h) => Value.Str(m[h].text)
  }

  /** The pool effect and result of `ValueRef::create(v, pool)`. */
  ghost predicate CreateStep(m: PoolState, v: Value, m': PoolState, r: ValueRef) {
    match v
    case Null => r == ValueRef.Null && m' == m
    case Int(n) => r == ValueRef.Int(n) && m' == m
    case Str(s) => r.Str? && IncrefStep(m, s, m', r.handle)
  }

  /** The pool after `ValueRef::remove(r, pool)`. */
  function RemoveStep(m: PoolState, r: ValueRef): (m': PoolState)
    requires LiveIn(r, m)
    ensures !r.Str? ==> m' == m
    ensures r.Str? ==> m' == DecrefStep(m, r.handle)
  {
    match r
    case Null => m
    case Int(_) => m
    case Str(h) => DecrefStep(m, h)
  }

  /** Creating a reference and dereferencing it gives the original value back. */
  lemma CreateThenToValue(m: PoolState, v: Value, m': PoolState, r: ValueRef)
    requires Wellformed(m)
    requires CreateStep(m, v, m', r)
    ensures Wellformed(m')
    ensures LiveIn(r, m')
    ensures ToValue(r, m') == v
  {
    if v.Str? {
      IncrefKeepsWellformed(m, v.text, m', r.handle);
    }
  }

  /** Removing a reference right after creating it restores every reference count. */
  lemma CreateThenRemoveRestores(m: PoolState, v: Value, m': PoolState, r: ValueRef)
    requires Wellformed(m)
    requires CreateStep(m, v, m', r)
    ensures LiveIn(r, m')
    ensures RemoveStep(m', r) == m
  {
    if v.Str? {
      IncrefThenDecrefRestores(m, v.text, m', r.handle);
    }
  }

  /** `ValueRef::create`: intern the text of a string value, copy the rest. */
  method Create(v: Value, pool: StringPool) returns (r: ValueRef)
    requires pool.Valid()
    modifies pool
    ensures pool.Valid()
    ensures CreateStep(old(pool.entries), v, pool.entries, r)
    ensures !v.Str? ==> pool.entries == old(pool.entries)
    ensures LiveIn(r, pool.entries) && ToValue(r, pool.entries) == v
  {
    match v
    case Null =>
      r := ValueRef.Null;
    case Int(number) =>
      r := ValueRef.Int(number);
    case Str(s) =>
      var h := pool.Incref(s);
      r := ValueRef.Str(h);
      IncrefKeepsWellformed(old(pool.entries), s, pool.entries, h);
  }

  /** `ValueRef::remove`: release the pool reference of a text handle. */
  method Remove(r: ValueRef, pool: StringPool)
    requires pool.Valid()
    requires LiveIn(r, pool.entries)
    modifies pool
    ensures pool.Valid()
    ensures pool.entries == RemoveStep(old(pool.entries), r)
  {
    match r
    case Null =>
    case Int(_) =>
    case Str(h) =>
      pool.Decref(h);
  }
}
