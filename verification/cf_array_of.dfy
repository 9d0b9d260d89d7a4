/**
 `cf::ArrayOf<T>`, `cf::ArrayOfMut<T>` and `cf::ArrayOfIterator<T>`: a static
 element type laid over an untyped CoreFoundation array.

 The typed wrappers are `repr(transparent)` reinterpretations: a typed view
 is the untyped array of the same handle, and its elements are the untyped
 elements read back as `&T`. Nothing checks at run time that the elements
 really are `T`s.
 */
module CfArrayOf {
  import opened Runtime
  import opened CoreFoundation
  import CfArray

  /** `cf::ArrayOf<T>`: the untyped array `raw`, presumed to hold `T`s. */
  datatype ArrayOf<T> = ArrayOf(raw: Array)

  /** `cf::ArrayOfMut<T>`: the untyped mutable array `raw`, presumed to hold `T`s. */
  datatype ArrayOfMut<T> = ArrayOfMut(raw: ArrayMut) {
    /** `ArrayOfMut<T>` dereferences to the `ArrayOf<T>` of the same object. */
    function AsArrayOf(): ArrayOf<T> { ArrayOf(raw.AsArray()) }
  }

  /** `cf::ArrayOfIterator<T>`: the array it borrows, the next index to read,
      and the length captured when the iterator was made. */
  datatype ArrayOfIterator<T> = ArrayOfIterator(raw: Array, index: nat, len: nat)

  /** The elements of a typed array, as `&T` references. */
  function Items<T>(st: Store, a: ArrayOf<T>): seq<Ref<T>>
    requires IsArray(st, a.raw)
  {
    Refs(Elements(st, a.raw))
  }

  /** `ArrayOf::new`: the shared empty array, viewed as an array of `T`. */
  function New<T>(st: Store): (e: Effect<ArrayOf<T>>)
    requires Valid(st)
    ensures Valid(e.store) && IsArray(e.store, e.value.raw)
    ensures Items(e.store, e.value) == []
    ensures e.value.raw == CfArray.New(st).value && e.store == CfArray.New(st).store
  {
    var r := CfArray.New(st);
    Effect(r.store, ArrayOf(r.value))
  }

  /** `ArrayOf::from_slice`: the typed array of exactly the given references, in order. */
  function FromSlice<T>(st: Store, values: seq<Ref<T>>): (e: Effect<ArrayOf<T>>)
    requires Valid(st) && AllKnown(st, Handles(values))
    ensures Valid(e.store) && IsArray(e.store, e.value.raw)
    ensures e.value.raw.handle !in e.store.mutableArrays
    ensures Items(e.store, e.value) == values
    ensures values == [] ==> e.value.raw.handle == st.emptyArray && e.store == Retain(st, st.emptyArray)
    ensures values != [] ==> e.value.raw.handle !in st.rc && e.store.rc[e.value.raw.handle] == 1
    ensures e.store.rc.Keys == st.rc.Keys + {e.value.raw.handle}
    ensures forall h :: h in st.rc && h != e.value.raw.handle ==> e.store.rc[h] == st.rc[h] + multiset(Handles(values))[h]
    ensures OthersUnchanged(st, e.store, e.value.raw.handle)
  {
    var r := CfArray.FromSlice(st, values);
    Effect(r.store, ArrayOf(r.value))
  }

  /** `ArrayOf[index]`: the element at `index`, read back as a `&T`. */
  function Index<T>(st: Store, a: ArrayOf<T>, index: nat): (r: Ref<T>)
    requires IsArray(st, a.raw) && index < CfArray.Len(st, a.raw)
    ensures r == Items(st, a)[index]
    ensures r.handle == CfArray.Index(st, a.raw, index)
  {
    Ref(CfArray.Index(st, a.raw, index))
  }

  /** Reading back every index of an array made by `from_slice` gives the very
      references it was made from. */
  lemma FromSliceRoundTrip<T>(st: Store, values: seq<Ref<T>>)
    requires Valid(st) && AllKnown(st, Handles(values))
    ensures var e := FromSlice(st, values);
            && CfArray.Len(e.store, e.value.raw) == |values|
            && forall i :: 0 <= i < |values| ==> Index(e.store, e.value, i) == values[i]
  {
  }

  /** `ArrayOf::contains`: whether `value` is one of the elements. An empty
      array answers `false` without asking the runtime; otherwise the runtime
      searches the whole range `[0, count)`. */
  function Contains<T>(st: Store, a: ArrayOf<T>, value: Handle): (r: bool)
    requires IsArray(st, a.raw)
    ensures r <==> value in Elements(st, a.raw)
    ensures CfArray.IsEmpty(st, a.raw) ==> !r
  {
    if CfArray.IsEmpty(st, a.raw) then false
    else CFArrayContainsValue(st, a.raw, Range(0, CfArray.Count(st, a.raw)), value)
  }

  /** `ArrayOf::copy_mut`: a fresh mutable typed array with the same elements. */
  function CopyMut<T>(st: Store, a: ArrayOf<T>): (e: Effect<ArrayOfMut<T>>)
    requires Valid(st) && IsArray(st, a.raw)
    ensures Valid(e.store) && IsArrayMut(e.store, e.value.raw)
    ensures Items(e.store, e.value.AsArrayOf()) == Items(st, a)
    ensures e.value.raw.handle != a.raw.handle && e.value.raw.handle !in st.rc
    ensures IsArray(e.store, a.raw) && Items(e.store, a) == Items(st, a)
    ensures e.store.rc[e.value.raw.handle] == 1 && e.store.rc.Keys == st.rc.Keys + {e.value.raw.handle}
    ensures forall h :: h in st.rc ==> e.store.rc[h] == st.rc[h] + multiset(Elements(st, a.raw))[h]
    ensures OthersUnchanged(st, e.store, e.value.raw.handle)
  {
    var r := CfArray.CopyMut(st, a.raw);
    Effect(r.store, ArrayOfMut(r.value))
  }

  /** `Retain::retained` for `ArrayOf<T>`: the same array, one more retain count, no copy. */
  function Retained<T>(st: Store, a: ArrayOf<T>): (e: Effect<ArrayOf<T>>)
    requires Valid(st) && IsArray(st, a.raw)
    ensures e.value == a
    ensures e.store == Retain(st, a.raw.handle)
    ensures e.store.rc[a.raw.handle] == st.rc[a.raw.handle] + 1
    ensures e.store.arrays == st.arrays
  {
    Effect(Retain(st, a.raw.handle), a)
  }

  /** `Release::release` for `ArrayOf<T>`: releases the inner array exactly once. */
  function Release<T>(st: Store, a: ArrayOf<T>): (st': Store)
    requires Valid(st) && Live(st, a.raw.handle)
    ensures st' == Runtime.Release(st, a.raw.handle)
    ensures st'.rc[a.raw.handle] == st.rc[a.raw.handle] - 1
    ensures st'.arrays == st.arrays
  {
    Runtime.Release(st, a.raw.handle)
  }

  /** Releasing what `retained` added gives the store back unchanged. */
  lemma RetainedThenReleased<T>(st: Store, a: ArrayOf<T>)
    requires Valid(st) && IsArray(st, a.raw)
    ensures var e := Retained(st, a);
            Live(e.store, a.raw.handle) ==> Release(e.store, e.value) == st
  {
  }

  // -------------------------------------------------------------- iteration

  /** `ArrayOf::iter`: starts at index 0 with the array's current length. */
  function Iter<T>(st: Store, a: ArrayOf<T>): (it: ArrayOfIterator<T>)
    requires IsArray(st, a.raw)
    ensures it.raw == a.raw && it.index == 0
    ensures it.len == CfArray.Len(st, a.raw)
    ensures Tracks(st, it)
  {
    ArrayOfIterator(a.raw, 0, CfArray.Len(st, a.raw))
  }

  /** The iterator's array was not changed since it was made (the runtime
      makes changing it during iteration undefined), and the index stays in bounds. */
  predicate Tracks<T>(st: Store, it: ArrayOfIterator<T>) {
    IsArray(st, it.raw) && it.len == CfArray.Len(st, it.raw) && it.index <= it.len
  }

  /** `ArrayOfIterator::next`: the element at the current index, stepping
      forward, while the index is below the captured length; `None` after,
      with the iterator unchanged. */
  function Next<T>(st: Store, it: ArrayOfIterator<T>): (r: (Option<Ref<T>>, ArrayOfIterator<T>))
    requires Tracks(st, it)
    ensures Tracks(st, r.1) && r.1.raw == it.raw && r.1.len == it.len
    ensures it.index < it.len ==> r.0 == Some(Ref(Elements(st, it.raw)[it.index])) && r.1.index == it.index + 1
    ensures it.index == it.len ==> r.0 == None && r.1 == it
  {
    if it.index < it.len then
      var res := Ref(CfArray.Index(st, it.raw, it.index));
      (Some(res), it.(index := it.index + 1))
    else
      (None, it)
  }

  /** `ExactSizeIterator::len`: the array's live length minus the index, as a
      `usize` subtraction (it wraps around only if the array shrank during
      iteration, which the runtime leaves undefined). */
  function RemainingLen<T>(st: Store, it: ArrayOfIterator<T>): (n: nat)
    requires IsArray(st, it.raw)
    ensures n < USIZE_MODULUS
    ensures Tracks(st, it) && it.len < USIZE_MODULUS ==> n == it.len - it.index
  {
    (CfArray.Len(st, it.raw) - it.index) % USIZE_MODULUS
  }

  /** Everything the iterator still yields, by calling `next` until `None`. */
  function Drain<T>(st: Store, it: ArrayOfIterator<T>): seq<Ref<T>>
    requires Tracks(st, it)
    decreases it.len - it.index
  {
    var (item, it') := Next(st, it);
    match item
    case None => []
    case Some(x) => [x] + Drain(st, it')
  }

  /** From any position, the iterator yields the elements from its index to
      the end, in order, and then stops. */
  lemma {:induction false} DrainFrom<T>(st: Store, it: ArrayOfIterator<T>)
    requires Tracks(st, it)
    ensures Drain(st, it) == Refs(Elements(st, it.raw)[it.index..])
    ensures it.len < USIZE_MODULUS ==> |Drain(st, it)| == RemainingLen(st, it)
    decreases it.len - it.index
  {
    if it.index < it.len {
      var it' := Next(st, it).1;
      DrainFrom(st, it');
      assert Elements(st, it.raw)[it.index..] == [Elements(st, it.raw)[it.index]] + Elements(st, it.raw)[it'.index..];
    }
  }

  /** A full iteration yields exactly the array's elements, in order, as `&T`. */
  lemma IterYieldsItems<T>(st: Store, a: ArrayOf<T>)
    requires IsArray(st, a.raw)
    ensures Drain(st, Iter(st, a)) == Items(st, a)
    ensures |Items(st, a)| < USIZE_MODULUS ==> RemainingLen(st, Iter(st, a)) == |Items(st, a)|
  {
    DrainFrom(st, Iter(st, a));
    assert Elements(st, a.raw)[0..] == Elements(st, a.raw);
  }
}

/**
 `cf::ArrayOfMut<T>`: a mutable typed array.
 */
module CfArrayOfMut {
  import opened Runtime
  import opened CoreFoundation
  import CfArray
  import CfArrayMut
  import opened CfArrayOf

  /** `ArrayOfMut::with_capacity` (`with_capacity_in` with the default allocator): a fresh empty typed array. */
  function WithCapacity<T>(st: Store, capacity: Usize): (e: Effect<ArrayOfMut<T>>)
    requires Valid(st)
    ensures Valid(e.store) && IsArrayMut(e.store, e.value.raw)
    ensures Items(e.store, e.value.AsArrayOf()) == []
    ensures e.value.raw.handle !in st.rc && e.store.rc == st.rc[e.value.raw.handle := 1]
    ensures OthersUnchanged(st, e.store, e.value.raw.handle)
  {
    var r := CfArrayMut.WithCapacity(st, UsizeAsIndex(capacity));
    Effect(r.store, ArrayOfMut(r.value))
  }

  /** `ArrayOfMut::new`: `with_capacity(0)`. */
  function New<T>(st: Store): (e: Effect<ArrayOfMut<T>>)
    requires Valid(st)
    ensures Valid(e.store) && IsArrayMut(e.store, e.value.raw)
    ensures CfArray.IsEmpty(e.store, e.value.raw.AsArray())
    ensures e.value.raw.handle != st.emptyArray && e.value.raw.handle !in st.rc
    ensures e.store.rc == st.rc[e.value.raw.handle := 1]
    ensures OthersUnchanged(st, e.store, e.value.raw.handle)
  {
    WithCapacity(st, 0)
  }

  /** `ArrayOfMut::push`: the reference becomes the last item; the same object underneath. */
  function Push<T>(st: Store, m: ArrayOfMut<T>, value: Ref<T>): (st': Store)
    requires Valid(st) && IsArrayMut(st, m.raw) && value.handle in st.rc
    ensures Valid(st') && IsArrayMut(st', m.raw)
    ensures Items(st', m.AsArrayOf()) == Items(st, m.AsArrayOf()) + [value]
    ensures st'.rc == st.rc[value.handle := st.rc[value.handle] + 1]
    ensures OthersUnchanged(st, st', m.raw.handle)
  {
    CfArrayMut.Append(st, m.raw, value.handle)
  }

  /** `ArrayOfMut::iter`: the same iterator as for the `ArrayOf<T>` it dereferences to. */
  function Iter<T>(st: Store, m: ArrayOfMut<T>): (it: ArrayOfIterator<T>)
    requires IsArray(st, m.raw.AsArray())
    ensures it == CfArrayOf.Iter(st, m.AsArrayOf())
    ensures Drain(st, it) == Items(st, m.AsArrayOf())
  {
    CfArrayOf.IterYieldsItems(st, m.AsArrayOf());
    ArrayOfIterator(m.raw.AsArray(), 0, CfArray.Len(st, m.raw.AsArray()))
  }

  /** `ArrayOfMut[index]`. */
  function Index<T>(st: Store, m: ArrayOfMut<T>, index: nat): (r: Ref<T>)
    requires IsArray(st, m.raw.AsArray()) && index < CfArray.Len(st, m.raw.AsArray())
    ensures r == Items(st, m.AsArrayOf())[index]
  {
    Ref(CfArray.Index(st, m.raw.AsArray(), index))
  }

  /** `Retain::retained` for `ArrayOfMut<T>`: the same object, one more retain count. */
  function Retained<T>(st: Store, m: ArrayOfMut<T>): (e: Effect<ArrayOfMut<T>>)
    requires Valid(st) && IsArrayMut(st, m.raw)
    ensures e.value == m
    ensures e.store == Retain(st, m.raw.handle)
    ensures e.store.rc[m.raw.handle] == st.rc[m.raw.handle] + 1
    ensures e.store.arrays == st.arrays
  {
    Effect(Retain(st, m.raw.handle), m)
  }

  /** `Release::release` for `ArrayOfMut<T>`: releases the inner array exactly once. */
  function Release<T>(st: Store, m: ArrayOfMut<T>): (st': Store)
    requires Valid(st) && IsArrayMut(st, m.raw) && Live(st, m.raw.handle)
    ensures st' == Runtime.Release(st, m.raw.handle)
    ensures st'.rc[m.raw.handle] == st.rc[m.raw.handle] - 1
    ensures st'.arrays == st.arrays
  {
    Runtime.Release(st, m.raw.handle)
  }

  /** Pushing onto a mutable copy does not change the typed source array. */
  lemma PushOnCopyLeavesSource<T>(st: Store, a: ArrayOf<T>, value: Ref<T>)
    requires Valid(st) && IsArray(st, a.raw) && value.handle in st.rc
    ensures var copy := CfArrayOf.CopyMut(st, a);
            var st' := Push(copy.store, copy.value, value);
            && IsArray(st', a.raw) && Items(st', a) == Items(st, a)
            && Items(st', copy.value.AsArrayOf()) == Items(st, a) + [value]
  {
  }
}
