/**
 The foreign object runtime (CoreFoundation and the Objective-C runtime, which
 share one heap and one retain-count discipline), as the bindings see it.

 Every object is an opaque handle with a retain count. Arrays and dictionaries
 additionally have contents: an array is a sequence of element handles, a
 dictionary a finite map from key handles to value handles. The two object
 hierarchies (CF and NS) are toll-free bridged, so both read the same store.

 Retain counts are integers: an over-release shows up as a count that is no
 longer positive, which is what `Live` rules out.
 */
module Runtime {

  /** An opaque address identifying an object of the foreign runtime. */
  type Handle = nat

  /** `usize` arithmetic wraps around modulo 2^64 on the 64-bit targets the bindings support. */
  const USIZE_MODULUS: nat := 0x1_0000_0000_0000_0000

  /** A value of Rust's `usize` on a 64-bit target. */
  type Usize = x: int | 0 <= x < USIZE_MODULUS

  /** Half the `usize` range: the bound of Rust's `isize` on a 64-bit target. */
  const ISIZE_BOUND: int := 0x8000_0000_0000_0000

  /** `CFIndex`, a signed `isize`: the counts, indices and capacities CoreFoundation takes. */
  type CFIndex = x: int | -ISIZE_BOUND <= x < ISIZE_BOUND

  /** The `as` cast from `usize` to `isize`: the same bits, so values at or
      above 2^63 wrap to negative. */
  function UsizeAsIndex(x: Usize): (r: CFIndex)
    ensures 0 <= x < ISIZE_BOUND ==> r == x
    ensures x >= ISIZE_BOUND ==> r < 0
    ensures (r - x) % USIZE_MODULUS == 0
  {
    if x < ISIZE_BOUND then x else x - USIZE_MODULUS
  }

  datatype Option<+T> = None | Some(value: T)

  datatype Result<+T, +E> = Ok(value: T) | Err(error: E)

  /** A typed, non-owning reference `&T`: the handle of an object that the
      caller asserts to be a `T`. The type parameter is never checked at run
      time; it only travels with the handle. */
  datatype Ref<T> = Ref(handle: Handle)

  /** The handles behind a slice of typed references. */
  function Handles<T>(refs: seq<Ref<T>>): (hs: seq<Handle>)
    ensures |hs| == |refs|
    ensures forall i :: 0 <= i < |refs| ==> hs[i] == refs[i].handle
  {
    seq(|refs|, i requires 0 <= i < |refs| => refs[i].handle)
  }

  /** Dropping the types loses nothing: a handle is behind the slice exactly
      when its reference is in it, and a reference occurs earlier in the slice
      exactly when its handle occurs earlier. */
  lemma HandlesFaithful<T>(refs: seq<Ref<T>>)
    ensures forall h: Handle :: Ref(h) in refs <==> h in Handles(refs)
    ensures forall i :: 0 <= i < |refs| ==> (refs[i] in refs[..i] <==> Handles(refs)[i] in Handles(refs)[..i])
  {
  }

  /** The handles `hs` seen as typed references (a `transmute` of each element). */
  function Refs<T>(hs: seq<Handle>): (refs: seq<Ref<T>>)
    ensures |refs| == |hs|
    ensures forall i :: 0 <= i < |hs| ==> refs[i] == Ref(hs[i])
  {
    seq(|hs|, i requires 0 <= i < |hs| => Ref(hs[i]))
  }

  /** The values after the first stay known to a store with the same objects. */
  lemma AllKnownTail(st: Store, st1: Store, values: seq<Handle>)
    requires AllKnown(st, values) && values != [] && st1.rc.Keys == st.rc.Keys
    ensures AllKnown(st1, values[1..])
  {
  }

  /** Storing a key's own value again leaves a map as it was. */
  lemma MapSetSame<K, V>(m: map<K, V>, k: K)
    requires k in m
    ensures m[k := m[k]] == m
  {
  }

  /** The foreign heap. */
  datatype Store = Store(
    rc: map<Handle, int>,                      // retain count of every object ever allocated
    arrays: map<Handle, seq<Handle>>,          // contents of every CFArray / NSArray
    mutableArrays: set<Handle>,                // which of them are CFMutableArrays
    dicts: map<Handle, map<Handle, Handle>>,   // contents of every CFDictionary / NSDictionary
    mutableDicts: set<Handle>,                 // which of them are CFMutableDictionaries
    emptyArray: Handle,                        // the shared empty immutable array
    next: Handle)                              // allocation frontier: every handle in use is below it

  /** The outcome of an operation that may change the store. */
  datatype Effect<+T> = Effect(store: Store, value: T)

  predicate AllKnown(st: Store, hs: seq<Handle>) {
    forall i :: 0 <= i < |hs| ==> hs[i] in st.rc
  }

  /** The heap's own consistency: every handle in use was allocated, the kinds
      of object are disjoint, the shared empty array is empty and immutable,
      and collections only hold allocated objects. */
  predicate Valid(st: Store) {
    && (forall h :: h in st.rc ==> h < st.next)
    && st.arrays.Keys <= st.rc.Keys
    && st.dicts.Keys <= st.rc.Keys
    && st.arrays.Keys !! st.dicts.Keys
    && st.mutableArrays <= st.arrays.Keys
    && st.mutableDicts <= st.dicts.Keys
    && st.emptyArray in st.arrays
    && st.arrays[st.emptyArray] == []
    && st.emptyArray !in st.mutableArrays
    && (forall a :: a in st.arrays ==> AllKnown(st, st.arrays[a]))
    && (forall d, k :: d in st.dicts && k in st.dicts[d] ==> k in st.rc && st.dicts[d][k] in st.rc)
  }

  /** Replacing the contents of the collection `h` with known handles, and
      allocating more objects, keeps every collection's contents known. */
  lemma ContentsStayKnown(st: Store, st': Store, h: Handle)
    requires Valid(st) && st.rc.Keys <= st'.rc.Keys
    requires forall a :: a in st'.arrays && a != h ==> a in st.arrays && st'.arrays[a] == st.arrays[a]
    requires forall d :: d in st'.dicts && d != h ==> d in st.dicts && st'.dicts[d] == st.dicts[d]
    requires h in st'.arrays ==> AllKnown(st', st'.arrays[h])
    requires h in st'.dicts ==> forall k :: k in st'.dicts[h] ==> k in st'.rc && st'.dicts[h][k] in st'.rc
    ensures forall a :: a in st'.arrays ==> AllKnown(st', st'.arrays[a])
    ensures forall d, k :: d in st'.dicts && k in st'.dicts[d] ==> k in st'.rc && st'.dicts[d][k] in st'.rc
  {
  }

  /** The store after allocating the next handle as an array of `xs`, with
      the retain counts `rc` for the objects already there. */
  function WithNewArray(st: Store, rc: map<Handle, int>, xs: seq<Handle>, mutable: bool): (st': Store)
    requires Valid(st) && rc.Keys == st.rc.Keys && AllKnown(st, xs)
    ensures Valid(st')
  {
    var h := st.next;
    var st' := st.(rc := rc[h := 1], arrays := st.arrays[h := xs],
                   mutableArrays := if mutable then st.mutableArrays + {h} else st.mutableArrays,
                   next := h + 1);
    ContentsStayKnown(st, st', h);
    st'
  }

  /** The store after allocating the next handle as a dictionary of `m`, with
      the retain counts `rc` for the objects already there. */
  function WithNewDictionary(st: Store, rc: map<Handle, int>, m: map<Handle, Handle>, mutable: bool): (st': Store)
    requires Valid(st) && rc.Keys == st.rc.Keys && forall k :: k in m ==> k in st.rc && m[k] in st.rc
    ensures Valid(st') && st.next !in st.rc
    ensures st' == st.(rc := rc[st.next := 1], dicts := st.dicts[st.next := m],
                       mutableDicts := if mutable then st.mutableDicts + {st.next} else st.mutableDicts,
                       next := st.next + 1)
    ensures OthersUnchanged(st, st', st.next)
  {
    var h := st.next;
    var st' := st.(rc := rc[h := 1], dicts := st.dicts[h := m],
                   mutableDicts := if mutable then st.mutableDicts + {h} else st.mutableDicts,
                   next := h + 1);
    assert h !in st.rc && h !in st.arrays;
    ContentsStayKnown(st, st', h);
    st'
  }

  /** The store after replacing the elements of the mutable array `h` by `xs`
      and the retain counts by `rc`. */
  function WithArrayContents(st: Store, rc: map<Handle, int>, h: Handle, xs: seq<Handle>): (st': Store)
    requires Valid(st) && h in st.mutableArrays && rc.Keys == st.rc.Keys && AllKnown(st, xs)
    ensures Valid(st')
  {
    var st' := st.(rc := rc, arrays := st.arrays[h := xs]);
    ContentsStayKnown(st, st', h);
    st'
  }

  /** The store after replacing the entries of the mutable dictionary `h` by
      `m` and the retain counts by `rc`. */
  function WithDictionaryContents(st: Store, rc: map<Handle, int>, h: Handle, m: map<Handle, Handle>): (st': Store)
    requires Valid(st) && h in st.mutableDicts && rc.Keys == st.rc.Keys
    requires forall k :: k in m ==> k in st.rc && m[k] in st.rc
    ensures Valid(st') && st' == st.(rc := rc, dicts := st.dicts[h := m])
    ensures OthersUnchanged(st, st', h)
  {
    var st' := st.(rc := rc, dicts := st.dicts[h := m]);
    ContentsStayKnown(st, st', h);
    st'
  }

  /** An object that has not been released to death. */
  predicate Live(st: Store, h: Handle) {
    h in st.rc && st.rc[h] > 0
  }

  /** Every array and dictionary other than `h` keeps its contents and its
      mutability in `st'`, no object other than `h` becomes or stops being a
      collection, and the shared empty array stays the same object. */
  predicate OthersUnchanged(st: Store, st': Store, h: Handle) {
    && (forall a :: a in st.arrays && a != h ==> a in st'.arrays && st'.arrays[a] == st.arrays[a])
    && (forall d :: d in st.dicts && d != h ==> d in st'.dicts && st'.dicts[d] == st.dicts[d])
    && st'.arrays.Keys - {h} == st.arrays.Keys - {h}
    && st'.dicts.Keys - {h} == st.dicts.Keys - {h}
    && st'.mutableArrays - {h} == st.mutableArrays - {h}
    && st'.mutableDicts - {h} == st.mutableDicts - {h}
    && st'.emptyArray == st.emptyArray
  }

  /** Two steps that each leave every collection but `h` alone leave them alone together. */
  lemma OthersUnchangedTrans(st: Store, st1: Store, st2: Store, h: Handle)
    requires OthersUnchanged(st, st1, h) && OthersUnchanged(st1, st2, h)
    ensures OthersUnchanged(st, st2, h)
  {
  }

  /** `CFRetain` / `objc_retain`: one more retain count on `h`, nothing else changes. */
  function Retain(st: Store, h: Handle): (st': Store)
    requires Valid(st) && h in st.rc
    ensures Valid(st')
    ensures st'.rc.Keys == st.rc.Keys
    ensures st'.rc[h] == st.rc[h] + 1
    ensures forall o :: o in st.rc && o != h ==> st'.rc[o] == st.rc[o]
    ensures st' == st.(rc := st'.rc)
  {
    st.(rc := st.rc[h := st.rc[h] + 1])
  }

  /** `CFRelease` / `objc_release`: gives back exactly one retain count of a live object. */
  function Release(st: Store, h: Handle): (st': Store)
    requires Valid(st) && Live(st, h)
    ensures Valid(st')
    ensures st'.rc.Keys == st.rc.Keys
    ensures st'.rc[h] == st.rc[h] - 1
    ensures forall o :: o in st.rc && o != h ==> st'.rc[o] == st.rc[o]
    ensures st' == st.(rc := st'.rc)
  {
    st.(rc := st.rc[h := st.rc[h] - 1])
  }

  /** Retaining every handle of `hs` once per occurrence, as a collection does
      with its elements under the default callbacks. */
  function RetainEach(rc: map<Handle, int>, hs: seq<Handle>): (rc': map<Handle, int>)
    requires forall i :: 0 <= i < |hs| ==> hs[i] in rc
    ensures rc'.Keys == rc.Keys
    ensures forall h :: h in rc ==> rc'[h] == rc[h] + multiset(hs)[h]
    decreases |hs|
  {
    if hs == [] then rc
    else
      assert hs == [hs[0]] + hs[1..];
      RetainEach(rc[hs[0] := rc[hs[0]] + 1], hs[1..])
  }

  /** Releasing every handle of `hs` once per occurrence, as a collection does
      with the elements it drops. */
  function ReleaseEach(rc: map<Handle, int>, hs: seq<Handle>): (rc': map<Handle, int>)
    requires forall i :: 0 <= i < |hs| ==> hs[i] in rc
    ensures rc'.Keys == rc.Keys
    ensures forall h :: h in rc ==> rc'[h] == rc[h] - multiset(hs)[h]
    decreases |hs|
  {
    if hs == [] then rc
    else
      assert hs == [hs[0]] + hs[1..];
      ReleaseEach(rc[hs[0] := rc[hs[0]] - 1], hs[1..])
  }

  /** Dropping the elements a collection retained gives every count back:
      a collection neither leaks nor over-releases its elements. */
  lemma ReleaseEachUndoesRetainEach(rc: map<Handle, int>, hs: seq<Handle>)
    requires forall i :: 0 <= i < |hs| ==> hs[i] in rc
    ensures ReleaseEach(RetainEach(rc, hs), hs) == rc
  {
    var rc' := ReleaseEach(RetainEach(rc, hs), hs);
    assert rc'.Keys == rc.Keys;
    forall h | h in rc
      ensures rc'[h] == rc[h]
    {
    }
  }
}
