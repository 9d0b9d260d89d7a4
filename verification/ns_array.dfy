/**
 `ns::Array<T>`: an Objective-C `NSArray` viewed as holding `T`s.

 `NSArray` and `CFArray` are toll-free bridged: the same object answers both
 the `CFArray*` functions and the `-count` / `-objectAtIndex:` messages, so
 this view reads the same store contents as `cf::Array`.
 */
module NsArray {
  import opened Runtime
  import opened CoreFoundation

  /** `ns::Array<T>`, a `repr(transparent)` wrapper of the object's id. */
  datatype NsArray<T> = NsArray(id: Handle) {
    /** The same object seen through the CoreFoundation API. */
    function AsCf(): Array { Array(id) }
  }

  predicate IsNsArray<T>(st: Store, a: NsArray<T>) {
    IsArray(st, a.AsCf())
  }

  /** The objects of `a`, as the `&T` references `Index` hands out. */
  function Objects<T>(st: Store, a: NsArray<T>): (objs: seq<Ref<T>>)
    requires IsNsArray(st, a)
    ensures |objs| == |Elements(st, a.AsCf())|
    ensures forall i :: 0 <= i < |objs| ==> objs[i].handle == Elements(st, a.AsCf())[i]
  {
    Refs(Elements(st, a.AsCf()))
  }

  /** `Array::from_slice`: a new array, owned by the caller, holding the given
      objects in order; each object gains one retain per occurrence. */
  function FromSlice<T>(st: Store, objs: seq<Ref<T>>): (e: Effect<NsArray<T>>)
    requires Valid(st) && AllKnown(st, Handles(objs))
    ensures Valid(e.store) && IsNsArray(e.store, e.value)
    ensures e.value.id !in e.store.mutableArrays
    ensures Objects(e.store, e.value) == objs
    ensures e.store.rc.Keys == st.rc.Keys + {e.value.id}
    ensures objs == [] ==> e.value.id == st.emptyArray && e.store == Retain(st, st.emptyArray)
    ensures objs != [] ==> e.value.id !in st.rc && e.store.rc[e.value.id] == 1
    ensures forall h :: h in st.rc && h != e.value.id ==> e.store.rc[h] == st.rc[h] + multiset(Handles(objs))[h]
    ensures OthersUnchanged(st, e.store, e.value.id)
  {
    var created := CFArrayCreate(st, Handles(objs));
    assert Refs<T>(Elements(created.store, created.value)) == objs;
    Effect(created.store, NsArray(created.value.handle))
  }

  /** `Array::count`: the `-count` message. */
  function Count<T>(st: Store, a: NsArray<T>): (n: nat)
    requires IsNsArray(st, a)
    ensures n == |Objects(st, a)|
  {
    CFArrayGetCount(st, a.AsCf())
  }

  /** `Array::len`: the same number as `count`. */
  function Len<T>(st: Store, a: NsArray<T>): (n: nat)
    requires IsNsArray(st, a)
    ensures n == Count(st, a)
  {
    Count(st, a)
  }

  /** `Array::is_empty`: true exactly when the array holds no object. */
  function IsEmpty<T>(st: Store, a: NsArray<T>): (r: bool)
    requires IsNsArray(st, a)
    ensures r <==> Len(st, a) == 0
    ensures r <==> Objects(st, a) == []
  {
    Len(st, a) == 0
  }

  /** `Index<usize>`: the `-objectAtIndex:` message. An index at or past the
      count raises `NSRangeException`, which the bindings do not catch; the
      model requires the index to be in range. */
  function Index<T>(st: Store, a: NsArray<T>, index: nat): (r: Ref<T>)
    requires IsNsArray(st, a) && index < Count(st, a)
    ensures r == Objects(st, a)[index]
  {
    Ref(CFArrayGetValueAtIndex(st, a.AsCf(), index))
  }

  /** `Retain::retained`: the same array, with one more retain count. */
  function Retained<T>(st: Store, a: NsArray<T>): (e: Effect<NsArray<T>>)
    requires Valid(st) && IsNsArray(st, a)
    ensures e.store == Retain(st, a.id)
    ensures e.value == a
    ensures e.store.rc[a.id] == st.rc[a.id] + 1
  {
    Effect(Retain(st, a.id), a)
  }

  /** `Release::release`: gives back exactly one retain count of the inner id. */
  function Release<T>(st: Store, a: NsArray<T>): (st': Store)
    requires Valid(st) && IsNsArray(st, a) && Live(st, a.id)
    ensures st' == Runtime.Release(st, a.id)
    ensures st'.rc[a.id] == st.rc[a.id] - 1
    ensures IsNsArray(st', a) && Objects(st', a) == Objects(st, a)
  {
    Runtime.Release(st, a.id)
  }

  /** A retain followed by a release leaves the store as it was. */
  lemma RetainedThenReleased<T>(st: Store, a: NsArray<T>)
    requires Valid(st) && IsNsArray(st, a) && Live(st, a.id)
    ensures Release(Retained(st, a).store, a) == st
  {
    var st1 := Retained(st, a).store;
    assert st1.rc[a.id := st1.rc[a.id] - 1] == st.rc;
  }

  /** An array built from a slice has as many objects as the slice, and
      indexing reads back each object passed in, at its position. */
  lemma FromSliceRoundTrip<T>(st: Store, objs: seq<Ref<T>>, i: nat)
    requires Valid(st) && AllKnown(st, Handles(objs)) && i < |objs|
    ensures Count(FromSlice(st, objs).store, FromSlice(st, objs).value) == |objs|
    ensures Index(FromSlice(st, objs).store, FromSlice(st, objs).value, i) == objs[i]
  {
  }

  /** The one-element array of a number object yields that very object at
      index 0, so reading its value back gives the number stored. */
  lemma SingleObjectBasics<T>(st: Store, one: Ref<T>)
    requires Valid(st) && one.handle in st.rc
    ensures var e := FromSlice(st, [one]);
      && Count(e.store, e.value) == 1
      && !IsEmpty(e.store, e.value)
      && Index(e.store, e.value, 0) == one
  {
    assert Handles([one]) == [one.handle];
  }
}
