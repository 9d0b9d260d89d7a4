/**
 The CoreFoundation calls the array and dictionary bindings are built on
 (`CFArrayCreate`, `CFArrayAppendValue`, `CFDictionaryGetValueIfPresent`, ...).

 These are foreign functions: the bindings only declare them. Each one is
 given here a reference definition over the `Store`, stating what the
 bindings' own documentation examples observe of it. They are the trust
 boundary of the model: the wrappers in the other modules are verified
 against these definitions. Collections are created with the default
 callbacks, so an array holds one retain count per occurrence of each of its
 elements. Keys are compared by identity.
 */
module CoreFoundation {
  import opened Runtime

  /** `cf::Array`. */
  datatype Array = Array(handle: Handle)

  /** `cf::ArrayMut`, which dereferences to the `cf::Array` of the same object. */
  datatype ArrayMut = ArrayMut(handle: Handle) {
    function AsArray(): Array { Array(handle) }
  }

  /** `cf::Dictionary`. */
  datatype Dictionary = Dictionary(handle: Handle)

  /** `cf::DictionaryMut`, which dereferences to the `cf::Dictionary` of the same object. */
  datatype DictionaryMut = DictionaryMut(handle: Handle) {
    function AsDictionary(): Dictionary { Dictionary(handle) }
  }

  /** `cf::Range`: `length` items starting at `location`. */
  datatype Range = Range(location: int, length: int)

  predicate IsArray(st: Store, a: Array) {
    a.handle in st.arrays
  }

  predicate IsArrayMut(st: Store, m: ArrayMut) {
    m.handle in st.arrays && m.handle in st.mutableArrays
  }

  function Elements(st: Store, a: Array): seq<Handle>
    requires IsArray(st, a)
  {
    st.arrays[a.handle]
  }

  predicate IsDictionary(st: Store, d: Dictionary) {
    d.handle in st.dicts
  }

  predicate IsDictionaryMut(st: Store, m: DictionaryMut) {
    m.handle in st.dicts && m.handle in st.mutableDicts
  }

  function Entries(st: Store, d: Dictionary): map<Handle, Handle>
    requires IsDictionary(st, d)
  {
    st.dicts[d.handle]
  }

  predicate Distinct(hs: seq<Handle>) {
    forall i, j :: 0 <= i < j < |hs| ==> hs[i] != hs[j]
  }

  /** `values` lists the values of `m` in the order of `keys`, which names
      every key of `m` exactly once. */
  ghost predicate ValuesInKeyOrder(m: map<Handle, Handle>, keys: seq<Handle>, values: seq<Handle>) {
    && |keys| == |values| && Distinct(keys)
    && (forall k :: k in keys <==> k in m)
    && forall i :: 0 <= i < |keys| ==> keys[i] in m && m[keys[i]] == values[i]
  }

  // ---------------------------------------------------------------- arrays

  function CFArrayGetCount(st: Store, a: Array): int
    requires IsArray(st, a)
  {
    |Elements(st, a)|
  }

  function CFArrayGetValueAtIndex(st: Store, a: Array, idx: int): Handle
    requires IsArray(st, a) && 0 <= idx < |Elements(st, a)|
  {
    Elements(st, a)[idx]
  }

  /** Whether `value` occurs among the `range.length` elements from `range.location`. */
  function CFArrayContainsValue(st: Store, a: Array, range: Range, value: Handle): bool
    requires IsArray(st, a)
    requires 0 <= range.location && 0 <= range.length
    requires range.location + range.length <= |Elements(st, a)|
  {
    value in Elements(st, a)[range.location..range.location + range.length]
  }

  /** An immutable array of `values`, each retained once per occurrence. With
      no values it is the shared empty array, retained once more. */
  function CFArrayCreate(st: Store, values: seq<Handle>): (e: Effect<Array>)
    requires Valid(st) && AllKnown(st, values)
    ensures Valid(e.store)
    ensures IsArray(e.store, e.value) && e.value.handle !in e.store.mutableArrays
    ensures Elements(e.store, e.value) == values
    ensures values == [] ==> e.value.handle == st.emptyArray && e.store == Retain(st, st.emptyArray)
    ensures values != [] ==> e.value.handle !in st.rc && e.store.rc[e.value.handle] == 1
    ensures e.store.rc.Keys == st.rc.Keys + {e.value.handle}
    ensures forall h :: h in st.rc && h != e.value.handle ==> e.store.rc[h] == st.rc[h] + multiset(values)[h]
    ensures OthersUnchanged(st, e.store, e.value.handle)
    ensures e.store.mutableArrays == st.mutableArrays && e.store.mutableDicts == st.mutableDicts
    ensures e.store.dicts == st.dicts && e.store.emptyArray == st.emptyArray
  {
    if values == [] then
      Effect(Retain(st, st.emptyArray), Array(st.emptyArray))
    else
      Effect(WithNewArray(st, RetainEach(st.rc, values), values, false), Array(st.next))
  }

  /** An immutable copy: an array with the same elements, made like `CFArrayCreate`. */
  function CFArrayCreateCopy(st: Store, a: Array): (e: Effect<Array>)
    requires Valid(st) && IsArray(st, a)
    ensures Valid(e.store) && IsArray(e.store, e.value)
    ensures Elements(e.store, e.value) == Elements(st, a)
    ensures e == CFArrayCreate(st, Elements(st, a))
  {
    assert AllKnown(st, st.arrays[a.handle]);
    CFArrayCreate(st, Elements(st, a))
  }

  /** A fresh mutable array holding `values`, each retained once per occurrence. */
  function NewMutableArray(st: Store, values: seq<Handle>): (e: Effect<ArrayMut>)
    requires Valid(st) && AllKnown(st, values)
    ensures Valid(e.store) && IsArrayMut(e.store, e.value)
    ensures Elements(e.store, e.value.AsArray()) == values
    ensures e.value.handle !in st.rc && e.store.rc[e.value.handle] == 1
    ensures e.store.rc.Keys == st.rc.Keys + {e.value.handle}
    ensures forall h :: h in st.rc ==> e.store.rc[h] == st.rc[h] + multiset(values)[h]
    ensures OthersUnchanged(st, e.store, e.value.handle)
    ensures e.store.mutableArrays == st.mutableArrays + {e.value.handle}
    ensures e.store.dicts == st.dicts && e.store.emptyArray == st.emptyArray
  {
    Effect(WithNewArray(st, RetainEach(st.rc, values), values, true), ArrayMut(st.next))
  }

  /** A fresh, empty mutable array. The capacity is a hint and does not show in the contents. */
  function CFArrayCreateMutable(st: Store, capacity: CFIndex): (e: Effect<ArrayMut>)
    requires Valid(st)
    ensures Valid(e.store) && IsArrayMut(e.store, e.value)
    ensures Elements(e.store, e.value.AsArray()) == []
    ensures e.value.handle !in st.rc
    ensures e == NewMutableArray(st, [])
  {
    NewMutableArray(st, [])
  }

  /** A fresh mutable array with the elements of `a`, never the shared empty array. */
  function CFArrayCreateMutableCopy(st: Store, capacity: CFIndex, a: Array): (e: Effect<ArrayMut>)
    requires Valid(st) && IsArray(st, a)
    ensures Valid(e.store) && IsArrayMut(e.store, e.value)
    ensures Elements(e.store, e.value.AsArray()) == Elements(st, a)
    ensures e.value.handle !in st.rc
    ensures e == NewMutableArray(st, Elements(st, a))
  {
    assert AllKnown(st, st.arrays[a.handle]);
    NewMutableArray(st, Elements(st, a))
  }

  /** Appends `value`, retaining it. */
  function CFArrayAppendValue(st: Store, m: ArrayMut, value: Handle): (st': Store)
    requires Valid(st) && IsArrayMut(st, m) && value in st.rc
    ensures Valid(st') && IsArrayMut(st', m)
    ensures Elements(st', m.AsArray()) == Elements(st, m.AsArray()) + [value]
    ensures st'.rc == st.rc[value := st.rc[value] + 1]
    ensures OthersUnchanged(st, st', m.handle)
    ensures st'.arrays.Keys == st.arrays.Keys && st'.next == st.next
    ensures st'.mutableArrays == st.mutableArrays && st'.dicts == st.dicts && st'.emptyArray == st.emptyArray
  {
    var old_ := st.arrays[m.handle];
    assert AllKnown(st, old_);
    WithArrayContents(st, st.rc[value := st.rc[value] + 1], m.handle, old_ + [value])
  }

  /** Empties the array, releasing each element once per occurrence. */
  function CFArrayRemoveAllValues(st: Store, m: ArrayMut): (st': Store)
    requires Valid(st) && IsArrayMut(st, m)
    ensures Valid(st') && IsArrayMut(st', m)
    ensures Elements(st', m.AsArray()) == []
    ensures st'.rc == ReleaseEach(st.rc, Elements(st, m.AsArray()))
    ensures OthersUnchanged(st, st', m.handle)
    ensures st'.arrays.Keys == st.arrays.Keys && st'.next == st.next
    ensures st'.mutableArrays == st.mutableArrays && st'.dicts == st.dicts && st'.emptyArray == st.emptyArray
  {
    var old_ := st.arrays[m.handle];
    assert AllKnown(st, old_);
    WithArrayContents(st, ReleaseEach(st.rc, old_), m.handle, [])
  }

  // ---------------------------------------------------------- dictionaries

  /** The map built from parallel key and value lists when the first pair for a
      key wins (a later duplicate key is ignored, as `CFDictionaryAddValue` does). */
  function FirstWins(keys: seq<Handle>, values: seq<Handle>): (m: map<Handle, Handle>)
    requires |keys| == |values|
    ensures forall k :: k in m <==> k in keys
    ensures forall k :: k in m ==> m[k] in values
    ensures forall i :: 0 <= i < |keys| && keys[i] !in keys[..i] ==> m[keys[i]] == values[i]
    decreases |keys|
  {
    if keys == [] then map[]
    else
      var rest := FirstWins(keys[1..], values[1..]);
      var m := rest[keys[0] := values[0]];
      assert forall i :: 0 <= i < |keys| && keys[i] !in keys[..i] ==> m[keys[i]] == values[i] by {
        forall i | 0 <= i < |keys| && keys[i] !in keys[..i]
          ensures m[keys[i]] == values[i]
        {
          if i > 0 {
            assert keys[0] in keys[..i];
            assert keys[1..][i - 1] == keys[i] && keys[1..][..i - 1] == keys[1..i];
          }
        }
      }
      m
  }

  /** With distinct keys, every pair is an entry: one entry per key. */
  lemma {:induction false} FirstWinsSize(keys: seq<Handle>, values: seq<Handle>)
    requires |keys| == |values| && Distinct(keys)
    ensures |FirstWins(keys, values)| == |keys|
    decreases |keys|
  {
    if keys != [] {
      FirstWinsSize(keys[1..], values[1..]);
      assert keys[0] !in keys[1..];
      assert keys[0] !in FirstWins(keys[1..], values[1..]);
    }
  }

  predicate DictionaryKnown(st: Store, m: map<Handle, Handle>) {
    forall k :: k in m ==> k in st.rc && m[k] in st.rc
  }

  // ------------------------------------------- dictionary retain counts
  // With the default key and value callbacks (`kCFTypeDictionaryKeyCallBacks`,
  // `kCFTypeDictionaryValueCallBacks`) a dictionary retains every key it
  // stores and every value, once per entry, and releases what it drops.

  /** The keys of `m` whose value is `h`. */
  function KeysTo(m: map<Handle, Handle>, h: Handle): set<Handle> {
    set k | k in m && m[k] == h
  }

  /** The references the entries `m` hold on `h`: one when `h` is a key, and
      one for every key whose value is `h`. */
  function Holds(m: map<Handle, Handle>, h: Handle): nat {
    (if h in m then 1 else 0) + |KeysTo(m, h)|
  }

  /** Adding a new key and removing it again gives back the entries. */
  lemma SetThenRemove(m: map<Handle, Handle>, key: Handle, value: Handle)
    requires key !in m
    ensures m[key := value] - {key} == m
  {
  }

  /** No entries hold no references. */
  lemma HoldsNothing()
    ensures forall h :: Holds(map[], h) == 0
  {
    forall h
      ensures Holds(map[], h) == 0
    {
      assert KeysTo(map[], h) == {};
    }
  }

  /** After setting `key` to `value`, `key` maps to `h` exactly when `value`
      is `h`, and every other key is unchanged. */
  lemma KeysToAfterSet(m: map<Handle, Handle>, key: Handle, value: Handle, h: Handle)
    ensures |KeysTo(m[key := value], h)| ==
      |KeysTo(m, h)| + (if value == h then 1 else 0) - (if key in m && m[key] == h then 1 else 0)
  {
    var rest := KeysTo(m, h) - {key};
    var added: set<Handle> := if value == h then {key} else {};
    assert KeysTo(m[key := value], h) == rest + added;
    assert key !in rest;
    if key in m && m[key] == h {
      assert KeysTo(m, h) == rest + {key};
    } else {
      assert KeysTo(m, h) == rest;
    }
  }

  /** Setting `key` to `value` takes a reference on `value`, one on `key` when
      it is new, and drops the one on the value it replaces. */
  lemma HoldsAfterSet(m: map<Handle, Handle>, key: Handle, value: Handle, h: Handle)
    ensures Holds(m[key := value], h) ==
      Holds(m, h) + (if h == value then 1 else 0) + (if h == key && key !in m then 1 else 0)
                  - (if key in m && m[key] == h then 1 else 0)
  {
    KeysToAfterSet(m, key, value, h);
    assert (h in m[key := value]) <==> (h in m || h == key);
  }

  /** Removing `key` drops the reference on it and the one on its value. */
  lemma HoldsAfterRemove(m: map<Handle, Handle>, key: Handle, h: Handle)
    ensures Holds(m - {key}, h) ==
      Holds(m, h) - (if key in m && h == key then 1 else 0) - (if key in m && m[key] == h then 1 else 0)
  {
    var rest := KeysTo(m, h) - {key};
    assert KeysTo(m - {key}, h) == rest;
    if key in m && m[key] == h {
      assert KeysTo(m, h) == rest + {key};
    } else {
      assert KeysTo(m, h) == rest;
    }
  }

  /** The retain counts after a dictionary whose entries were `before` comes
      to hold `after`: the references it drops are released, the ones it
      takes are retained. */
  function ExchangeEntries(rc: map<Handle, int>, before: map<Handle, Handle>, after: map<Handle, Handle>): (rc': map<Handle, int>)
    ensures rc'.Keys == rc.Keys
    ensures forall h :: h in rc ==> rc'[h] == rc[h] - Holds(before, h) + Holds(after, h)
  {
    map h | h in rc :: rc[h] - Holds(before, h) + Holds(after, h)
  }

  /** Exchanging `a` for `b` and then `b` for `c` is exchanging `a` for `c`:
      whatever the intermediate entries were, only the first and the last count. */
  lemma ExchangeCompose(rc: map<Handle, int>, a: map<Handle, Handle>, b: map<Handle, Handle>, c: map<Handle, Handle>)
    ensures ExchangeEntries(ExchangeEntries(rc, a, b), b, c) == ExchangeEntries(rc, a, c)
  {
  }

  /** Keeping the same entries changes no count. */
  lemma ExchangeSame(rc: map<Handle, int>, m: map<Handle, Handle>)
    ensures ExchangeEntries(rc, m, m) == rc
  {
  }

  /** A fresh dictionary with the given entries, each key and value retained
      once per entry. */
  function NewDictionary(st: Store, m: map<Handle, Handle>, mutable: bool): (e: Effect<Dictionary>)
    requires Valid(st) && DictionaryKnown(st, m)
    ensures Valid(e.store) && IsDictionary(e.store, e.value)
    ensures Entries(e.store, e.value) == m
    ensures e.value.handle !in st.rc && e.store.rc[e.value.handle] == 1
    ensures e.store.rc.Keys == st.rc.Keys + {e.value.handle}
    ensures forall h :: h in st.rc ==> e.store.rc[h] == st.rc[h] + Holds(m, h)
    ensures OthersUnchanged(st, e.store, e.value.handle)
    ensures e.store.arrays == st.arrays && e.store.mutableArrays == st.mutableArrays
    ensures e.store.mutableDicts == if mutable then st.mutableDicts + {e.value.handle} else st.mutableDicts
    ensures e.store.emptyArray == st.emptyArray
  {
    HoldsNothing();
    Effect(WithNewDictionary(st, ExchangeEntries(st.rc, map[], m), m, mutable), Dictionary(st.next))
  }

  /** An immutable dictionary of the pairs `keys[i] -> values[i]`. */
  function CFDictionaryCreate(st: Store, keys: seq<Handle>, values: seq<Handle>): (e: Effect<Dictionary>)
    requires Valid(st) && |keys| == |values| && AllKnown(st, keys) && AllKnown(st, values)
    ensures Valid(e.store) && IsDictionary(e.store, e.value) && e.value.handle !in e.store.mutableDicts
    ensures Entries(e.store, e.value) == FirstWins(keys, values)
    ensures e.value.handle !in st.rc
    ensures e == NewDictionary(st, FirstWins(keys, values), false)
  {
    var m := FirstWins(keys, values);
    assert DictionaryKnown(st, m);
    NewDictionary(st, m, false)
  }

  function CFDictionaryGetCount(st: Store, d: Dictionary): int
    requires IsDictionary(st, d)
  {
    |Entries(st, d)|
  }

  function CFDictionaryContainsKey(st: Store, d: Dictionary, key: Handle): bool
    requires IsDictionary(st, d)
  {
    key in Entries(st, d)
  }

  /** Reports whether `key` is present and, if so, writes its value to the out-parameter. */
  function CFDictionaryGetValueIfPresent(st: Store, d: Dictionary, key: Handle): (r: (bool, Option<Handle>))
    requires IsDictionary(st, d)
  {
    if key in Entries(st, d) then (true, Some(Entries(st, d)[key])) else (false, None)
  }

  /** Fills the two buffers with every key and its value, in an order of the runtime's choosing. */
  method CFDictionaryGetKeysAndValues(st: Store, d: Dictionary) returns (keys: seq<Handle>, values: seq<Handle>)
    requires IsDictionary(st, d)
    ensures |keys| == |values| == |Entries(st, d)|
    ensures Distinct(keys)
    ensures forall i :: 0 <= i < |keys| ==> keys[i] in Entries(st, d) && Entries(st, d)[keys[i]] == values[i]
    ensures forall k :: k in Entries(st, d) ==> k in keys
  {
    var m := Entries(st, d);
    var rest := m.Keys;
    keys, values := [], [];
    while rest != {}
      invariant rest <= m.Keys
      invariant |keys| == |values|
      invariant |keys| + |rest| == |m|
      invariant Distinct(keys)
      invariant forall i :: 0 <= i < |keys| ==> keys[i] in m && m[keys[i]] == values[i] && keys[i] !in rest
      invariant forall k :: k in m && k !in rest ==> k in keys
      decreases rest
    {
      var k :| k in rest;
      keys, values := keys + [k], values + [m[k]];
      rest := rest - {k};
    }
  }

  /** A fresh immutable dictionary with the same entries. */
  function CFDictionaryCreateCopy(st: Store, d: Dictionary): (e: Effect<Dictionary>)
    requires Valid(st) && IsDictionary(st, d)
    ensures Valid(e.store) && IsDictionary(e.store, e.value)
    ensures Entries(e.store, e.value) == Entries(st, d)
    ensures e.value.handle !in st.rc
    ensures e == NewDictionary(st, Entries(st, d), false)
  {
    NewDictionary(st, Entries(st, d), false)
  }

  /** A fresh, empty mutable dictionary. The capacity is a hint and does not show in the contents. */
  function CFDictionaryCreateMutable(st: Store, capacity: CFIndex): (e: Effect<DictionaryMut>)
    requires Valid(st)
    ensures Valid(e.store) && IsDictionaryMut(e.store, e.value)
    ensures Entries(e.store, e.value.AsDictionary()) == map[]
    ensures e.value.handle !in st.rc && e.store.rc == st.rc[e.value.handle := 1]
    ensures OthersUnchanged(st, e.store, e.value.handle)
  {
    var r := NewDictionary(st, map[], true);
    ExchangeSame(st.rc, map[]);
    Effect(r.store, DictionaryMut(r.value.handle))
  }

  /** Replaces the dictionary `m`'s entries by `entries`, releasing the
      references the old entries held and retaining those of the new ones;
      no other contents change. */
  function WithEntries(st: Store, m: DictionaryMut, entries: map<Handle, Handle>): (st': Store)
    requires Valid(st) && IsDictionaryMut(st, m) && DictionaryKnown(st, entries)
    ensures Valid(st') && IsDictionaryMut(st', m)
    ensures Entries(st', m.AsDictionary()) == entries
    ensures st'.rc == ExchangeEntries(st.rc, Entries(st, m.AsDictionary()), entries)
    ensures OthersUnchanged(st, st', m.handle)
    ensures st'.dicts.Keys == st.dicts.Keys
    ensures st' == st.(rc := st'.rc, dicts := st'.dicts)
  {
    WithDictionaryContents(st, ExchangeEntries(st.rc, Entries(st, m.AsDictionary()), entries), m.handle, entries)
  }

  /** Sets `key` to `value`, adding the key or replacing its earlier value:
      the value is retained, a new key is retained, a replaced value released. */
  function CFDictionarySetValue(st: Store, m: DictionaryMut, key: Handle, value: Handle): (st': Store)
    requires Valid(st) && IsDictionaryMut(st, m) && key in st.rc && value in st.rc
    ensures Valid(st') && IsDictionaryMut(st', m)
    ensures Entries(st', m.AsDictionary()) == Entries(st, m.AsDictionary())[key := value]
    ensures st'.rc.Keys == st.rc.Keys
    ensures var old_ := Entries(st, m.AsDictionary());
      forall h :: h in st.rc ==>
        st'.rc[h] == st.rc[h] + (if h == value then 1 else 0)
          + (if h == key && key !in old_ then 1 else 0) - (if key in old_ && old_[key] == h then 1 else 0)
    ensures st' == WithEntries(st, m, Entries(st, m.AsDictionary())[key := value])
  {
    var old_ := Entries(st, m.AsDictionary());
    forall h | h in st.rc
      ensures Holds(old_[key := value], h) == Holds(old_, h) + (if h == value then 1 else 0)
        + (if h == key && key !in old_ then 1 else 0) - (if key in old_ && old_[key] == h then 1 else 0)
    {
      HoldsAfterSet(old_, key, value, h);
    }
    WithEntries(st, m, old_[key := value])
  }

  /** Removes `key` and its value, if present, releasing both. */
  function CFDictionaryRemoveValue(st: Store, m: DictionaryMut, key: Handle): (st': Store)
    requires Valid(st) && IsDictionaryMut(st, m)
    ensures Valid(st') && IsDictionaryMut(st', m)
    ensures Entries(st', m.AsDictionary()) == Entries(st, m.AsDictionary()) - {key}
    ensures st'.rc.Keys == st.rc.Keys
    ensures var old_ := Entries(st, m.AsDictionary());
      forall h :: h in st.rc ==>
        st'.rc[h] == st.rc[h] - (if key in old_ && h == key then 1 else 0) - (if key in old_ && old_[key] == h then 1 else 0)
    ensures st' == WithEntries(st, m, Entries(st, m.AsDictionary()) - {key})
  {
    var old_ := Entries(st, m.AsDictionary());
    forall h | h in st.rc
      ensures Holds(old_ - {key}, h) == Holds(old_, h)
        - (if key in old_ && h == key then 1 else 0) - (if key in old_ && old_[key] == h then 1 else 0)
    {
      HoldsAfterRemove(old_, key, h);
    }
    WithEntries(st, m, old_ - {key})
  }

  /** Removes every entry, releasing every key and value once per entry. */
  function CFDictionaryRemoveAllValues(st: Store, m: DictionaryMut): (st': Store)
    requires Valid(st) && IsDictionaryMut(st, m)
    ensures Valid(st') && IsDictionaryMut(st', m)
    ensures Entries(st', m.AsDictionary()) == map[]
    ensures st'.rc.Keys == st.rc.Keys
    ensures forall h :: h in st.rc ==> st'.rc[h] == st.rc[h] - Holds(Entries(st, m.AsDictionary()), h)
    ensures st' == WithEntries(st, m, map[])
  {
    HoldsNothing();
    WithEntries(st, m, map[])
  }
}
