/**
 * The string pool as the value layer consumes it: a table from handles to
 * (text, reference count).  Only the contract the value layer relies on is
 * modelled: `incref` interns a text (returning the live handle that already
 * holds equal text, or a fresh one with count 1), `decref` releases one use
 * (retiring the handle when the count reaches zero) and `get` reads the text
 * of a live handle.  The pool's storage layout is not part of this model.
 */
module StringPools {
  import opened Wrappers

  /** A pool-assigned string handle. */
  type Handle = nat

  datatype Entry = Entry(text: string, refcount: nat)

  /** The live entries of a pool; a retired handle is absent. */
  type PoolState = map<Handle, Entry>

  /** Every live entry is in use, and no two live entries hold equal text. */
  ghost predicate Wellformed(m: PoolState) {
    && (forall h :: h in m ==> m[h].refcount >= 1)
    && (forall h1, h2 :: h1 in m && h2 in m && m[h1].text == m[h2].text ==> h1 == h2)
  }

  /** The live handle holding `text`, if there is one. */
  ghost function HandleOf(m: PoolState, text: string): (r: Option<Handle>)
    ensures r.Some? ==> r.value in m && m[r.value].text == text
    ensures r.None? ==> forall h :: h in m ==> m[h].text != text
  {
    if exists h :: h in m && m[h].text == text then
      var h :| h in m && m[h].text == text; Some(h)
    else
      None
  }

  /**
   * The effect of `incref(text)` returning `h`: an existing live entry with
   * equal text gains one reference, otherwise a handle that is not live is
   * allocated with count 1.  No other entry changes.
   */
  ghost predicate IncrefStep(m: PoolState, text: string, m': PoolState, h: Handle) {
    match HandleOf(m, text)
    case Some(h0) => h == h0 && m' == m[h := Entry(text, m[h].refcount + 1)]
    case None => h !in m && m' == m[h := Entry(text, 1)]
  }

  /** The effect of `decref(h)` on a live handle: one reference fewer, retired at zero. */
  function DecrefStep(m: PoolState, h: Handle): (m': PoolState)
    requires h in m
    ensures m[h].refcount > 1 ==> h in m' && m'[h] == Entry(m[h].text, m[h].refcount - 1)
    ensures m[h].refcount <= 1 ==> h !in m'
    ensures forall k :: k != h ==> (k in m' <==> k in m)
    ensures forall k :: k in m && k != h ==> m'[k] == m[k]
  {
    if m[h].refcount <= 1 then m - {h}
    else m[h := Entry(m[h].text, m[h].refcount - 1)]
  }

  lemma HandleOfUnique(m: PoolState, text: string, h: Handle)
    requires Wellformed(m)
    requires h in m && m[h].text == text
    ensures HandleOf(m, text) == Some(h)
  {
  }

  /** `incref` keeps the pool well formed and leaves `h` live with the interned text. */
  lemma IncrefKeepsWellformed(m: PoolState, text: string, m': PoolState, h: Handle)
    requires Wellformed(m)
    requires IncrefStep(m, text, m', h)
    ensures Wellformed(m')
    ensures h in m' && m'[h].text == text
    ensures m'[h].refcount == if h in m then m[h].refcount + 1 else 1
  {
  }

  /** `decref` keeps the pool well formed. */
  lemma DecrefKeepsWellformed(m: PoolState, h: Handle)
    requires Wellformed(m)
    requires h in m
    ensures Wellformed(DecrefStep(m, h))
  {
  }

  /**
   * Interning equal text twice yields the same handle, and the second call
   * adds no live entry.
   */
  lemma IncrefDeduplicates(m0: PoolState, text: string, m1: PoolState, h1: Handle, m2: PoolState, h2: Handle)
    requires Wellformed(m0)
    requires IncrefStep(m0, text, m1, h1)
    requires IncrefStep(m1, text, m2, h2)
    ensures h1 == h2
    ensures m2.Keys == m1.Keys
    ensures m2[h2].refcount == m1[h1].refcount + 1
  {
    IncrefKeepsWellformed(m0, text, m1, h1);
    HandleOfUnique(m1, text, h1);
  }

  /** A `decref` matching an `incref` restores the pool exactly. */
  lemma IncrefThenDecrefRestores(m: PoolState, text: string, m': PoolState, h: Handle)
    requires Wellformed(m)
    requires IncrefStep(m, text, m', h)
    ensures h in m'
    ensures DecrefStep(m', h) == m
  {
    match HandleOf(m, text)
    case Some(h0) =>
      assert m'[h].refcount > 1;
      assert DecrefStep(m', h) == m[h := m[h]];
    case None =>
      assert DecrefStep(m', h) == m;
  }

  /** The pool object the value layer mutates through `&mut StringPool`. */
  class StringPool {
    var entries: PoolState
    /** Every live handle is below this bound, so it is never live itself. */
    var nextHandle: Handle

    ghost predicate Valid()
      reads this
    {
      Wellformed(entries) && forall h :: h in entries ==> h < nextHandle
    }

    constructor ()
      ensures Valid() && entries == map[]
    {
      entries := map[];
      nextHandle := 1;
    }

    method Incref(text: string) returns (h: Handle)
      requires Valid()
      modifies this
      ensures Valid()
      ensures IncrefStep(old(entries), text, entries, h)
    {
      if exists k :: k in entries && entries[k].text == text {
        var k :| k in entries && entries[k].text == text;
        HandleOfUnique(entries, text, k);
        h := k;
        entries := entries[h := Entry(text, entries[h].refcount + 1)];
      } else {
        h := nextHandle;
        entries := entries[h := Entry(text, 1)];
        nextHandle := nextHandle + 1;
      }
    }

    method Decref(h: Handle)
      requires Valid()
      requires h in entries
      modifies this
      ensures Valid()
      ensures entries == DecrefStep(old(entries), h)
    {
      DecrefKeepsWellformed(entries, h);
      entries := DecrefStep(entries, h);
    }
  }
}
