/**
 `cf::Array` and `cf::ArrayMut`: the untyped CoreFoundation array and its
 mutable subclass, as thin wrappers over the CoreFoundation calls.
 */
module CfArray {
  import opened Runtime
  import opened CoreFoundation

  /** `Array::count`: the number of elements the runtime holds for `a`. */
  function Count(st: Store, a: Array): (n: int)
    requires IsArray(st, a)
    ensures n == |Elements(st, a)|
  {
    CFArrayGetCount(st, a)
  }

  /** `Array::len`: the count as a `usize`. A count is never negative, so the cast keeps it. */
  function Len(st: Store, a: Array): (n: nat)
    requires IsArray(st, a)
    ensures n == Count(st, a) == |Elements(st, a)|
  {
    Count(st, a) as nat
  }

  /** `Array::is_empty`. */
  function IsEmpty(st: Store, a: Array): (r: bool)
    requires IsArray(st, a)
    ensures r <==> Len(st, a) == 0
    ensures r <==> Elements(st, a) == []
  {
    Len(st, a) == 0
  }

  /** `Array[index]`: the element at `index`. The primitive does not check
      the index, so it is the caller's obligation. */
  function Index(st: Store, a: Array, index: nat): (r: Handle)
    requires IsArray(st, a) && index < Len(st, a)
    ensures r == Elements(st, a)[index]
    ensures r in Elements(st, a)
  {
    CFArrayGetValueAtIndex(st, a, index)
  }

  /** `Array::new` (and `new_in` with the default allocator): the shared empty
      array, with one more retain count for the caller. */
  function New(st: Store): (e: Effect<Array>)
    requires Valid(st)
    ensures Valid(e.store) && IsArray(e.store, e.value)
    ensures Count(e.store, e.value) == 0 && IsEmpty(e.store, e.value)
    ensures e.value.handle == st.emptyArray
    ensures e.store == Retain(st, st.emptyArray)
  {
    CFArrayCreate(st, [])
  }

  /** `Array::from_type_refs`: an array of exactly the given references, in order. */
  function FromTypeRefs(st: Store, values: seq<Handle>): (e: Effect<Array>)
    requires Valid(st) && AllKnown(st, values)
    ensures Valid(e.store) && IsArray(e.store, e.value)
    ensures e.value.handle !in e.store.mutableArrays
    ensures Len(e.store, e.value) == |values|
    ensures forall i :: 0 <= i < |values| ==> Index(e.store, e.value, i) == values[i]
    ensures e.store.rc.Keys == st.rc.Keys + {e.value.handle}
    ensures values == [] ==> e.value.handle == st.emptyArray && e.store == Retain(st, st.emptyArray)
    ensures values != [] ==> e.value.handle !in st.rc && e.store.rc[e.value.handle] == 1
    ensures forall h :: h in st.rc && h != e.value.handle ==> e.store.rc[h] == st.rc[h] + multiset(values)[h]
    ensures OthersUnchanged(st, e.store, e.value.handle)
  {
    CFArrayCreate(st, values)
  }

  /** `Array::from_slice`: as `from_type_refs`, for references of any retainable type. */
  function FromSlice<T>(st: Store, values: seq<Ref<T>>): (e: Effect<Array>)
    requires Valid(st) && AllKnown(st, Handles(values))
    ensures Valid(e.store) && IsArray(e.store, e.value)
    ensures e.value.handle !in e.store.mutableArrays
    ensures Len(e.store, e.value) == |values|
    ensures forall i :: 0 <= i < |values| ==> Index(e.store, e.value, i) == values[i].handle
    ensures values == [] ==> e.value.handle == st.emptyArray && e.store == Retain(st, st.emptyArray)
    ensures values != [] ==> e.value.handle !in st.rc && e.store.rc[e.value.handle] == 1
    ensures e.store.rc.Keys == st.rc.Keys + {e.value.handle}
    ensures forall h :: h in st.rc && h != e.value.handle ==> e.store.rc[h] == st.rc[h] + multiset(Handles(values))[h]
    ensures OthersUnchanged(st, e.store, e.value.handle)
  {
    CFArrayCreate(st, Handles(values))
  }

  /** `Array::copy` (`copy_in` with the default allocator): an immutable array
      with the same elements; the copy of an empty array is the shared empty array. */
  function Copy(st: Store, a: Array): (e: Effect<Array>)
    requires Valid(st) && IsArray(st, a)
    ensures Valid(e.store) && IsArray(e.store, e.value)
    ensures e.value.handle !in e.store.mutableArrays
    ensures Elements(e.store, e.value) == Elements(st, a)
    ensures IsEmpty(st, a) ==> e.value.handle == st.emptyArray && e.store == Retain(st, st.emptyArray)
    ensures !IsEmpty(st, a) ==> e.value.handle !in st.rc && e.store.rc[e.value.handle] == 1
    ensures IsArray(e.store, a) && Elements(e.store, a) == Elements(st, a)
    ensures e.store.rc.Keys == st.rc.Keys + {e.value.handle}
    ensures forall h :: h in st.rc && h != e.value.handle ==> e.store.rc[h] == st.rc[h] + multiset(Elements(st, a))[h]
    ensures OthersUnchanged(st, e.store, e.value.handle)
  {
    CFArrayCreateCopy(st, a)
  }

  /** `Array::copy_mut_in`: a new mutable array with the same elements. It is a
      fresh object, so later changes to either array do not show in the other. */
  function CopyMutIn(st: Store, a: Array, capacity: CFIndex): (e: Effect<ArrayMut>)
    requires Valid(st) && IsArray(st, a)
    ensures Valid(e.store) && IsArrayMut(e.store, e.value)
    ensures Elements(e.store, e.value.AsArray()) == Elements(st, a)
    ensures e.value.handle !in st.rc && e.value.handle != a.handle
    ensures e.value.handle != st.emptyArray
    ensures IsArray(e.store, a) && Elements(e.store, a) == Elements(st, a)
    ensures e.store.rc[e.value.handle] == 1 && e.store.rc.Keys == st.rc.Keys + {e.value.handle}
    ensures forall h :: h in st.rc ==> e.store.rc[h] == st.rc[h] + multiset(Elements(st, a))[h]
    ensures OthersUnchanged(st, e.store, e.value.handle)
  {
    CFArrayCreateMutableCopy(st, capacity, a)
  }

  /** `Array::copy_mut`. */
  function CopyMut(st: Store, a: Array): (e: Effect<ArrayMut>)
    requires Valid(st) && IsArray(st, a)
    ensures Valid(e.store) && IsArrayMut(e.store, e.value)
    ensures Elements(e.store, e.value.AsArray()) == Elements(st, a)
    ensures e.value.handle !in st.rc && e.value.handle != a.handle
    ensures e.store.rc[e.value.handle] == 1 && e.store.rc.Keys == st.rc.Keys + {e.value.handle}
    ensures forall h :: h in st.rc ==> e.store.rc[h] == st.rc[h] + multiset(Elements(st, a))[h]
    ensures OthersUnchanged(st, e.store, e.value.handle)
  {
    CFArrayCreateMutableCopy(st, 0, a)
  }

  /** The copies of a new array are the shared empty array, but a mutable copy
      is a distinct object. */
  lemma EmptyArraysAreSame(st: Store)
    requires Valid(st)
    ensures var arr1 := New(st);
            var arr2 := Copy(arr1.store, arr1.value);
            var arr3 := New(arr2.store);
            var arr4 := CopyMut(arr3.store, arr2.value);
            && arr1.value.handle == arr2.value.handle
            && arr3.value.handle == arr2.value.handle
            && arr1.value.handle != arr4.value.handle
  {
  }
}

/**
 `cf::ArrayMut`: appending and clearing.
 */
module CfArrayMut {
  import opened Runtime
  import opened CoreFoundation
  import CfArray

  /** `ArrayMut::with_capacity` (`create_in` with the default callbacks): a fresh empty mutable array. */
  function WithCapacity(st: Store, capacity: CFIndex): (e: Effect<ArrayMut>)
    requires Valid(st)
    ensures Valid(e.store) && IsArrayMut(e.store, e.value)
    ensures CfArray.Len(e.store, e.value.AsArray()) == 0
    ensures e.value.handle !in st.rc && e.store.rc == st.rc[e.value.handle := 1]
    ensures OthersUnchanged(st, e.store, e.value.handle)
  {
    CFArrayCreateMutable(st, capacity)
  }

  /** `ArrayMut::new`: a fresh, empty, mutable array, never the shared empty one. */
  function New(st: Store): (e: Effect<ArrayMut>)
    requires Valid(st)
    ensures Valid(e.store) && IsArrayMut(e.store, e.value)
    ensures CfArray.Len(e.store, e.value.AsArray()) == 0 && CfArray.IsEmpty(e.store, e.value.AsArray())
    ensures e.value.handle != st.emptyArray && e.value.handle !in st.rc
    ensures e.store.rc == st.rc[e.value.handle := 1]
    ensures OthersUnchanged(st, e.store, e.value.handle)
  {
    WithCapacity(st, 0)
  }

  /** `ArrayMut::append`: `value` becomes the last element and gains one retain
      count; every other array keeps its contents. */
  function Append(st: Store, m: ArrayMut, value: Handle): (st': Store)
    requires Valid(st) && IsArrayMut(st, m) && value in st.rc
    ensures Valid(st') && IsArrayMut(st', m)
    ensures Elements(st', m.AsArray()) == Elements(st, m.AsArray()) + [value]
    ensures CfArray.Len(st', m.AsArray()) == CfArray.Len(st, m.AsArray()) + 1
    ensures CfArray.Index(st', m.AsArray(), CfArray.Len(st, m.AsArray())) == value
    ensures st'.rc == st.rc[value := st.rc[value] + 1]
    ensures OthersUnchanged(st, st', m.handle)
  {
    CFArrayAppendValue(st, m, value)
  }

  /** `ArrayMut::remove_all_values`: no elements left, each former element
      released once per occurrence. */
  function RemoveAllValues(st: Store, m: ArrayMut): (st': Store)
    requires Valid(st) && IsArrayMut(st, m)
    ensures Valid(st') && IsArrayMut(st', m)
    ensures CfArray.Len(st', m.AsArray()) == 0
    ensures st'.rc.Keys == st.rc.Keys
    ensures forall h :: h in st.rc ==> st'.rc[h] == st.rc[h] - multiset(Elements(st, m.AsArray()))[h]
    ensures OthersUnchanged(st, st', m.handle)
  {
    CFArrayRemoveAllValues(st, m)
  }

  /** `ArrayMut::clear`. */
  function Clear(st: Store, m: ArrayMut): (st': Store)
    requires Valid(st) && IsArrayMut(st, m)
    ensures Valid(st') && IsArrayMut(st', m)
    ensures CfArray.IsEmpty(st', m.AsArray())
    ensures st' == RemoveAllValues(st, m)
  {
    RemoveAllValues(st, m)
  }

  /** Appending to a mutable copy leaves the source untouched. */
  lemma CopyMutIsIndependent(st: Store, a: Array, value: Handle)
    requires Valid(st) && IsArray(st, a) && value in st.rc
    ensures var copy := CfArray.CopyMutIn(st, a, 0);
            var st' := Append(copy.store, copy.value, value);
            && CfArray.Len(st', copy.value.AsArray()) == CfArray.Len(st, a) + 1
            && IsArray(st', a) && CfArray.Len(st', a) == CfArray.Len(st, a)
            && Elements(st', a) == Elements(st, a)
  {
  }

  /** Appending the first value, then the rest, is appending them all. */
  lemma SeqAppendAssoc(prefix: seq<Handle>, values: seq<Handle>)
    requires values != []
    ensures prefix + [values[0]] + values[1..] == prefix + values
  {
  }

  /** Appending each of `values` in turn: they follow the old elements, in
      order, and no other array changes. */
  function AppendAll(st: Store, m: ArrayMut, values: seq<Handle>): (st': Store)
    requires Valid(st) && IsArrayMut(st, m) && AllKnown(st, values)
    ensures Valid(st') && IsArrayMut(st', m)
    ensures st'.rc.Keys == st.rc.Keys
    ensures Elements(st', m.AsArray()) == Elements(st, m.AsArray()) + values
    ensures OthersUnchanged(st, st', m.handle)
    decreases |values|
  {
    if values == [] then st
    else
      var st1 := CFArrayAppendValue(st, m, values[0]);
      var rest := values[1..];
      AllKnownTail(st, st1, values);
      var st' := AppendAll(st1, m, rest);
      SeqAppendAssoc(Elements(st, m.AsArray()), values);
      st'
  }

  /** Appending `values` one by one adds one retain count per occurrence. */
  lemma {:induction false} AppendAllCounts(st: Store, m: ArrayMut, values: seq<Handle>)
    requires Valid(st) && IsArrayMut(st, m) && AllKnown(st, values)
    ensures AppendAll(st, m, values).rc == RetainEach(st.rc, values)
    decreases |values|
  {
    if values != [] {
      var st1 := Append(st, m, values[0]);
      AppendAllCounts(st1, m, values[1..]);
      assert AppendAll(st, m, values) == AppendAll(st1, m, values[1..]);
      assert st1.rc == st.rc[values[0] := st.rc[values[0]] + 1];
    }
  }

  /** Filling a fresh array and then clearing it gives every element back the
      retain counts it had: the array neither leaks nor over-releases. */
  lemma FillThenClearBalances(st: Store, values: seq<Handle>)
    requires Valid(st) && AllKnown(st, values)
    ensures var m := New(st);
            var full := AppendAll(m.store, m.value, values);
            var cleared := Clear(full, m.value);
            && CfArray.Len(full, m.value.AsArray()) == |values|
            && CfArray.Len(cleared, m.value.AsArray()) == 0
            && forall h :: h in st.rc ==> cleared.rc[h] == st.rc[h]
  {
    var m := New(st);
    assert AllKnown(m.store, values);
    AppendAllCounts(m.store, m.value, values);
    var full := AppendAll(m.store, m.value, values);
    assert Elements(full, m.value.AsArray()) == values;
    ReleaseEachUndoesRetainEach(m.store.rc, values);
  }

  /** The documentation example of `ArrayMut::new`: two appends, then `remove_all_values`. */
  lemma NewAppendTwiceRemoveAll(st: Store, num: Handle)
    requires Valid(st) && num in st.rc
    ensures var arr := New(st);
            var st1 := Append(arr.store, arr.value, num);
            var st2 := Append(st1, arr.value, num);
            var st3 := RemoveAllValues(st2, arr.value);
            && CfArray.Len(arr.store, arr.value.AsArray()) == 0
            && CfArray.Len(st2, arr.value.AsArray()) == 2
            && CfArray.Len(st3, arr.value.AsArray()) == 0
            && st2.rc[num] == st.rc[num] + 2
            && st3.rc[num] == st.rc[num]
  {
  }
}
