/**
 `cf::Dictionary`: an immutable CoreFoundation dictionary from key objects to
 value objects, compared by identity.
 */
module CfDictionary {
  import opened Runtime
  import opened CoreFoundation

  /** `Dictionary::new` / `new_in`: a fresh dictionary with no entries, owned by the caller. */
  function New(st: Store): (e: Effect<Dictionary>)
    requires Valid(st)
    ensures Valid(e.store) && IsDictionary(e.store, e.value)
    ensures e.value.handle !in e.store.mutableDicts
    ensures Len(e.store, e.value) == 0 && IsEmpty(e.store, e.value)
    ensures e.value.handle !in st.rc && e.store.rc == st.rc[e.value.handle := 1]
    ensures OthersUnchanged(st, e.store, e.value.handle)
  {
    ExchangeSame(st.rc, map[]);
    CFDictionaryCreate(st, [], [])
  }

  /** `Dictionary::contains_key`: whether `key` is one of the dictionary's keys. */
  function ContainsKey(st: Store, d: Dictionary, key: Handle): (r: bool)
    requires IsDictionary(st, d)
    ensures r <==> key in Entries(st, d)
  {
    CFDictionaryContainsKey(st, d, key)
  }

  /** `Dictionary::raw_value_if_present`: `None` for an absent key, `Some` of
      the stored value for a present one. */
  function RawValueIfPresent(st: Store, d: Dictionary, key: Handle): (r: Option<Option<Handle>>)
    requires IsDictionary(st, d)
    ensures r == None <==> !ContainsKey(st, d, key)
    ensures ContainsKey(st, d, key) ==> r == Some(Some(Entries(st, d)[key]))
  {
    var (present, value) := CFDictionaryGetValueIfPresent(st, d, key);
    if present then Some(value) else None
  }

  /** `Dictionary::value`: the very object stored under `key`, or `None` when
      the key is absent. */
  function Value(st: Store, d: Dictionary, key: Handle): (r: Option<Handle>)
    requires IsDictionary(st, d)
    ensures r.Some? <==> ContainsKey(st, d, key)
    ensures r.Some? ==> r.value == Entries(st, d)[key]
  {
    var (present, value) := CFDictionaryGetValueIfPresent(st, d, key);
    if present then value else None
  }

  /** `value` and `raw_value_if_present` answer alike: a present key's value is
      the one wrapped twice by the raw lookup, an absent key is `None` in both. */
  lemma ValueAgreesWithRaw(st: Store, d: Dictionary, key: Handle)
    requires IsDictionary(st, d)
    ensures Value(st, d, key) == None <==> RawValueIfPresent(st, d, key) == None
    ensures forall v :: Value(st, d, key) == Some(v) <==> RawValueIfPresent(st, d, key) == Some(Some(v))
  {
  }

  /** Looking up keys in a dictionary whose entries are another's with `key`
      set to `value`: `key` finds `value`, every other key what it found before. */
  lemma ValueAfterSet(st: Store, d: Dictionary, st': Store, d': Dictionary, key: Handle, value: Handle)
    requires IsDictionary(st, d) && IsDictionary(st', d') && Entries(st', d') == Entries(st, d)[key := value]
    ensures Value(st', d', key) == Some(value)
    ensures forall k :: k != key ==> Value(st', d', k) == Value(st, d, k)
  {
  }

  /** Looking up keys in a dictionary whose entries are another's without
      `key`: `key` finds nothing, every other key what it found before. */
  lemma ValueAfterRemove(st: Store, d: Dictionary, st': Store, d': Dictionary, key: Handle)
    requires IsDictionary(st, d) && IsDictionary(st', d') && Entries(st', d') == Entries(st, d) - {key}
    ensures Value(st', d', key) == None
    ensures forall k :: k != key ==> Value(st', d', k) == Value(st, d, k)
  {
  }

  /** `Dictionary::count`: the number of entries, as a `CFIndex`. */
  function Count(st: Store, d: Dictionary): (n: int)
    requires IsDictionary(st, d)
    ensures n == |Entries(st, d)|
  {
    CFDictionaryGetCount(st, d)
  }

  /** `Dictionary::len`: the count, as a `usize`. */
  function Len(st: Store, d: Dictionary): (n: nat)
    requires IsDictionary(st, d)
    ensures n == Count(st, d)
  {
    Count(st, d)
  }

  /** `Dictionary::is_empty`: true exactly when the dictionary has no entry. */
  function IsEmpty(st: Store, d: Dictionary): (r: bool)
    requires IsDictionary(st, d)
    ensures r <==> Len(st, d) == 0
    ensures r <==> forall k :: !ContainsKey(st, d, k)
  {
    assert Len(st, d) != 0 ==> var k :| k in Entries(st, d); ContainsKey(st, d, k);
    Len(st, d) == 0
  }

  /** Looking up keys in a dictionary built from pairs: the first occurrence
      of each key finds the value paired with it. */
  lemma ValueFirstWins(st: Store, d: Dictionary, keys: seq<Handle>, values: seq<Handle>)
    requires IsDictionary(st, d) && |keys| == |values| && Entries(st, d) == FirstWins(keys, values)
    ensures forall k :: ContainsKey(st, d, k) <==> k in keys
    ensures forall i :: 0 <= i < |keys| && keys[i] !in keys[..i] ==> Value(st, d, keys[i]) == Some(values[i])
  {
  }

  /** `Dictionary::with_keys_values`: a fresh dictionary of the pairs
      `keys[i] -> values[i]`. Exactly the given keys are contained; each key's
      value is the one paired with its first occurrence; with distinct keys
      there is one entry per key. The default callbacks retain every stored
      key and value once per entry. */
  function WithKeysValues(st: Store, keys: seq<Handle>, values: seq<Handle>): (e: Effect<Dictionary>)
    requires Valid(st) && |keys| == |values| && AllKnown(st, keys) && AllKnown(st, values)
    ensures Valid(e.store) && IsDictionary(e.store, e.value)
    ensures e.value.handle !in e.store.mutableDicts
    ensures e.value.handle !in st.rc && e.store.rc[e.value.handle] == 1
    ensures e.store.rc.Keys == st.rc.Keys + {e.value.handle}
    ensures forall h :: h in st.rc ==> e.store.rc[h] == st.rc[h] + Holds(Entries(e.store, e.value), h)
    ensures OthersUnchanged(st, e.store, e.value.handle)
    ensures forall k :: ContainsKey(e.store, e.value, k) <==> k in keys
    ensures forall i :: 0 <= i < |keys| && keys[i] !in keys[..i] ==> Value(e.store, e.value, keys[i]) == Some(values[i])
    ensures Distinct(keys) ==> Len(e.store, e.value) == |keys|
  {
    var e := CFDictionaryCreate(st, keys, values);
    ValueFirstWins(e.store, e.value, keys, values);
    assert Distinct(keys) ==> Len(e.store, e.value) == |keys| by {
      if Distinct(keys) {
        FirstWinsSize(keys, values);
      }
    }
    e
  }

  /** `Dictionary::keys`: every key exactly once, `len` of them. */
  method Keys(st: Store, d: Dictionary) returns (keys: seq<Handle>)
    requires IsDictionary(st, d)
    ensures |keys| == Len(st, d)
    ensures Distinct(keys)
    ensures forall k :: k in keys <==> ContainsKey(st, d, k)
  {
    var values;
    keys, values := CFDictionaryGetKeysAndValues(st, d);
  }

  /** `Dictionary::values`: one value per entry: there is an ordering of the
      keys, each once, whose values are exactly `values`, position by position. */
  method Values(st: Store, d: Dictionary) returns (values: seq<Handle>)
    requires IsDictionary(st, d)
    ensures |values| == Len(st, d)
    ensures exists keys :: ValuesInKeyOrder(Entries(st, d), keys, values)
    ensures forall i :: 0 <= i < |values| ==> exists k :: k in Entries(st, d) && Entries(st, d)[k] == values[i]
    ensures forall k :: k in Entries(st, d) ==> Entries(st, d)[k] in values
  {
    var keys;
    keys, values := CFDictionaryGetKeysAndValues(st, d);
    var m := Entries(st, d);
    assert ValuesInKeyOrder(m, keys, values);
    forall i | 0 <= i < |values|
      ensures exists k :: k in m && m[k] == values[i]
    {
      assert keys[i] in m && m[keys[i]] == values[i];
    }
    forall k | k in m
      ensures m[k] in values
    {
      var i :| 0 <= i < |keys| && keys[i] == k;
      assert values[i] == m[k];
    }
  }

  /** `Dictionary::keys_with_values`: two sequences of length `len`, every key
      once, each paired with its own value. */
  method KeysWithValues(st: Store, d: Dictionary) returns (keys: seq<Handle>, values: seq<Handle>)
    requires IsDictionary(st, d)
    ensures |keys| == |values| == Len(st, d)
    ensures Distinct(keys)
    ensures forall k :: k in keys <==> ContainsKey(st, d, k)
    ensures forall i :: 0 <= i < |keys| ==> Value(st, d, keys[i]) == Some(values[i])
  {
    keys, values := CFDictionaryGetKeysAndValues(st, d);
  }

  /** `Dictionary::copy` / `copy_in`: a fresh dictionary with the same entries;
      the source is not touched. */
  function Copy(st: Store, d: Dictionary): (e: Effect<Dictionary>)
    requires Valid(st) && IsDictionary(st, d)
    ensures Valid(e.store) && IsDictionary(e.store, e.value) && IsDictionary(e.store, d)
    ensures e.value.handle !in e.store.mutableDicts
    ensures e.value.handle != d.handle && e.value.handle !in st.rc
    ensures Entries(e.store, e.value) == Entries(st, d)
    ensures Entries(e.store, d) == Entries(st, d)
    ensures e.store.rc[e.value.handle] == 1 && e.store.rc.Keys == st.rc.Keys + {e.value.handle}
    ensures forall h :: h in st.rc ==> e.store.rc[h] == st.rc[h] + Holds(Entries(st, d), h)
    ensures OthersUnchanged(st, e.store, e.value.handle)
  {
    CFDictionaryCreateCopy(st, d)
  }

  /** The dictionary of one pair holds that key, not another one, maps the key
      to the identical value object, and has length one. */
  lemma SinglePair(st: Store, key: Handle, value: Handle, key2: Handle)
    requires Valid(st) && key in st.rc && value in st.rc && key2 != key
    ensures var e := WithKeysValues(st, [key], [value]);
      && ContainsKey(e.store, e.value, key)
      && !ContainsKey(e.store, e.value, key2)
      && Value(e.store, e.value, key) == Some(value)
      && Len(e.store, e.value) == 1 && !IsEmpty(e.store, e.value)
  {
    var e := WithKeysValues(st, [key], [value]);
    assert [key][..0] == [] && Distinct([key]);
    assert Value(e.store, e.value, key) == Some(value);
  }
}

/**
 `cf::DictionaryMut`: a mutable CoreFoundation dictionary.
 */
module CfDictionaryMut {
  import opened Runtime
  import opened CoreFoundation
  import CfDictionary

  /** `DictionaryMut::with_capacity` / `with_capacity_in`: a fresh empty
      mutable dictionary; the capacity is only a hint. */
  function WithCapacity(st: Store, capacity: Usize): (e: Effect<DictionaryMut>)
    requires Valid(st)
    ensures Valid(e.store) && IsDictionaryMut(e.store, e.value)
    ensures CfDictionary.IsEmpty(e.store, e.value.AsDictionary())
    ensures e.value.handle !in st.rc && e.store.rc == st.rc[e.value.handle := 1]
    ensures OthersUnchanged(st, e.store, e.value.handle)
  {
    CFDictionaryCreateMutable(st, UsizeAsIndex(capacity))
  }

  /** `DictionaryMut::insert`: afterwards `key` maps to `value`, replacing any
      earlier value; every other key keeps its value; the dictionary grows by
      one exactly when the key was new. The value is retained, the key too
      when it is new, and a replaced value is released. */
  function Insert(st: Store, m: DictionaryMut, key: Handle, value: Handle): (st': Store)
    requires Valid(st) && IsDictionaryMut(st, m) && key in st.rc && value in st.rc
    ensures Valid(st') && IsDictionaryMut(st', m)
    ensures CfDictionary.Value(st', m.AsDictionary(), key) == Some(value)
    ensures forall k :: k != key ==>
      CfDictionary.Value(st', m.AsDictionary(), k) == CfDictionary.Value(st, m.AsDictionary(), k)
    ensures CfDictionary.Len(st', m.AsDictionary()) ==
      CfDictionary.Len(st, m.AsDictionary()) + if CfDictionary.ContainsKey(st, m.AsDictionary(), key) then 0 else 1
    ensures st'.rc.Keys == st.rc.Keys
    ensures var prev := Entries(st, m.AsDictionary());
      forall h :: h in st.rc ==>
        st'.rc[h] == st.rc[h] + (if h == value then 1 else 0) + (if h == key && key !in prev then 1 else 0)
                             - (if key in prev && prev[key] == h then 1 else 0)
    ensures OthersUnchanged(st, st', m.handle)
  {
    var st' := CFDictionarySetValue(st, m, key, value);
    CfDictionary.ValueAfterSet(st, m.AsDictionary(), st', m.AsDictionary(), key, value);
    st'
  }

  /** `DictionaryMut::remove`: afterwards `key` is absent; every other key
      keeps its value; the dictionary shrinks by one exactly when the key was
      present, and then the key and its value are released. */
  function Remove(st: Store, m: DictionaryMut, key: Handle): (st': Store)
    requires Valid(st) && IsDictionaryMut(st, m)
    ensures Valid(st') && IsDictionaryMut(st', m)
    ensures !CfDictionary.ContainsKey(st', m.AsDictionary(), key)
    ensures forall k :: k != key ==>
      CfDictionary.Value(st', m.AsDictionary(), k) == CfDictionary.Value(st, m.AsDictionary(), k)
    ensures CfDictionary.Len(st', m.AsDictionary()) ==
      CfDictionary.Len(st, m.AsDictionary()) - if CfDictionary.ContainsKey(st, m.AsDictionary(), key) then 1 else 0
    ensures st'.rc.Keys == st.rc.Keys
    ensures var prev := Entries(st, m.AsDictionary());
      forall h :: h in st.rc ==>
        st'.rc[h] == st.rc[h] - (if key in prev && h == key then 1 else 0) - (if key in prev && prev[key] == h then 1 else 0)
    ensures OthersUnchanged(st, st', m.handle)
  {
    var st' := CFDictionaryRemoveValue(st, m, key);
    CfDictionary.ValueAfterRemove(st, m.AsDictionary(), st', m.AsDictionary(), key);
    st'
  }

  /** `DictionaryMut::remove_all_values`: afterwards no key is contained, and
      every reference the entries held is released. */
  function RemoveAllValues(st: Store, m: DictionaryMut): (st': Store)
    requires Valid(st) && IsDictionaryMut(st, m)
    ensures Valid(st') && IsDictionaryMut(st', m)
    ensures CfDictionary.IsEmpty(st', m.AsDictionary())
    ensures forall k :: !CfDictionary.ContainsKey(st', m.AsDictionary(), k)
    ensures st'.rc.Keys == st.rc.Keys
    ensures forall h :: h in st.rc ==> st'.rc[h] == st.rc[h] - Holds(Entries(st, m.AsDictionary()), h)
    ensures OthersUnchanged(st, st', m.handle)
  {
    CFDictionaryRemoveAllValues(st, m)
  }

  /** Removing a key that was just inserted, when it was not there before,
      gives back the original entries and every original retain count. */
  lemma InsertThenRemoveRestores(st: Store, m: DictionaryMut, key: Handle, value: Handle)
    requires Valid(st) && IsDictionaryMut(st, m) && key in st.rc && value in st.rc
    requires !CfDictionary.ContainsKey(st, m.AsDictionary(), key)
    ensures Entries(Remove(Insert(st, m, key, value), m, key), m.AsDictionary()) == Entries(st, m.AsDictionary())
    ensures Remove(Insert(st, m, key, value), m, key).rc == st.rc
  {
    var before := Entries(st, m.AsDictionary());
    var st1 := Insert(st, m, key, value);
    var st2 := Remove(st1, m, key);
    SetThenRemove(before, key, value);
    ExchangeCompose(st.rc, before, before[key := value], before);
    ExchangeSame(st.rc, before);
  }

  /** No later position of `keys` holds the key at position `i`. */
  predicate LastOccurrence(keys: seq<Handle>, i: nat)
    requires i < |keys|
  {
    forall j :: i < j < |keys| ==> keys[j] != keys[i]
  }

  /** The entries `m` after setting `keys[i] -> values[i]` in turn: a key's
      last occurrence decides its value, and a key not given keeps its value. */
  function SetAll(m: map<Handle, Handle>, keys: seq<Handle>, values: seq<Handle>): (m': map<Handle, Handle>)
    requires |keys| == |values|
    ensures forall k :: k in m' <==> k in m || k in keys
    ensures forall i :: 0 <= i < |keys| && LastOccurrence(keys, i) ==> m'[keys[i]] == values[i]
    ensures forall k :: k in m && k !in keys ==> m'[k] == m[k]
    decreases |keys|
  {
    if keys == [] then m
    else
      var m' := SetAll(m[keys[0] := values[0]], keys[1..], values[1..]);
      assert forall k :: k in keys <==> k == keys[0] || k in keys[1..];
      assert forall i :: 1 <= i < |keys| && LastOccurrence(keys, i) ==> LastOccurrence(keys[1..], i - 1);
      m'
  }

  /** Inserting the pairs `keys[i] -> values[i]` in turn: the entries become
      `SetAll` of the old ones, and no other collection changes. Whatever is
      replaced on the way, the counts change exactly as if the references the
      first entries hold had been exchanged for those the final entries hold. */
  function InsertAll(st: Store, m: DictionaryMut, keys: seq<Handle>, values: seq<Handle>): (st': Store)
    requires Valid(st) && IsDictionaryMut(st, m) && |keys| == |values| && AllKnown(st, keys) && AllKnown(st, values)
    ensures Valid(st') && IsDictionaryMut(st', m)
    ensures Entries(st', m.AsDictionary()) == SetAll(Entries(st, m.AsDictionary()), keys, values)
    ensures st'.rc == ExchangeEntries(st.rc, Entries(st, m.AsDictionary()), Entries(st', m.AsDictionary()))
    ensures OthersUnchanged(st, st', m.handle)
    decreases |keys|
  {
    if keys == [] then st
    else
      var st1 := CFDictionarySetValue(st, m, keys[0], values[0]);
      AllKnownTail(st, st1, keys);
      AllKnownTail(st, st1, values);
      var st' := InsertAll(st1, m, keys[1..], values[1..]);
      ExchangeCompose(st.rc, Entries(st, m.AsDictionary()), Entries(st1, m.AsDictionary()), Entries(st', m.AsDictionary()));
      OthersUnchangedTrans(st, st1, st', m.handle);
      st'
  }

  /** After `InsertAll`, lookups find each key's last-paired value, a key
      not given what it found before, and exactly the old and given keys. */
  lemma InsertAllValues(st: Store, m: DictionaryMut, keys: seq<Handle>, values: seq<Handle>)
    requires Valid(st) && IsDictionaryMut(st, m) && |keys| == |values| && AllKnown(st, keys) && AllKnown(st, values)
    ensures var st' := InsertAll(st, m, keys, values);
      && (forall k :: CfDictionary.ContainsKey(st', m.AsDictionary(), k) <==>
            CfDictionary.ContainsKey(st, m.AsDictionary(), k) || k in keys)
      && (forall i :: 0 <= i < |keys| && LastOccurrence(keys, i) ==>
            CfDictionary.Value(st', m.AsDictionary(), keys[i]) == Some(values[i]))
      && (forall k :: k !in keys ==>
            CfDictionary.Value(st', m.AsDictionary(), k) == CfDictionary.Value(st, m.AsDictionary(), k))
  {
  }

  /** Filling a fresh dictionary and clearing it gives every object back the
      retain count it had: the dictionary neither leaks nor over-releases. */
  lemma FillThenClearBalances(st: Store, keys: seq<Handle>, values: seq<Handle>)
    requires Valid(st) && |keys| == |values| && AllKnown(st, keys) && AllKnown(st, values)
    ensures var d := WithCapacity(st, 0);
            var full := InsertAll(d.store, d.value, keys, values);
            var cleared := RemoveAllValues(full, d.value);
            && (forall k :: CfDictionary.ContainsKey(full, d.value.AsDictionary(), k) <==> k in keys)
            && CfDictionary.IsEmpty(cleared, d.value.AsDictionary())
            && forall h :: h in st.rc ==> cleared.rc[h] == st.rc[h]
  {
    var d := WithCapacity(st, 0);
    var full := InsertAll(d.store, d.value, keys, values);
    var cleared := RemoveAllValues(full, d.value);
    var filled := Entries(full, d.value.AsDictionary());
    assert filled == SetAll(map[], keys, values);
    assert full.rc == ExchangeEntries(d.store.rc, map[], filled);
    assert cleared.rc == ExchangeEntries(full.rc, filled, map[]);
    ExchangeCompose(d.store.rc, map[], filled, map[]);
    ExchangeSame(d.store.rc, map[]);
  }

  /** Inserting a pair the dictionary already holds changes nothing: the
      retain of the value cancels the release of the value it replaces. */
  lemma InsertPresentUnchanged(st: Store, m: DictionaryMut, key: Handle, value: Handle)
    requires Valid(st) && IsDictionaryMut(st, m) && key in st.rc && value in st.rc
    requires CfDictionary.Value(st, m.AsDictionary(), key) == Some(value)
    ensures Insert(st, m, key, value) == st
  {
    var prev := Entries(st, m.AsDictionary());
    MapSetSame(prev, key);
    MapSetSame(st.dicts, m.handle);
    ExchangeSame(st.rc, prev);
  }

  /** Inserting the same pair twice is the same as inserting it once. */
  lemma InsertIdempotent(st: Store, m: DictionaryMut, key: Handle, value: Handle)
    requires Valid(st) && IsDictionaryMut(st, m) && key in st.rc && value in st.rc
    ensures Insert(Insert(st, m, key, value), m, key, value) == Insert(st, m, key, value)
  {
    InsertPresentUnchanged(Insert(st, m, key, value), m, key, value);
  }

}

/**
 `cf::DictionaryOf<K, V>`: a dictionary viewed as mapping `K`s to `V`s.
 */
module CfDictionaryOf {
  import opened Runtime
  import opened CoreFoundation
  import CfDictionary

  /** `DictionaryOf<K, V>`, a `repr(transparent)` wrapper of a `cf::Dictionary`. */
  datatype DictionaryOf<K, V> = DictionaryOf(raw: Dictionary)

  /** `ns::Dictionary<K, V>`, the Objective-C view of a toll-free bridged
      dictionary; the wrapper of the object's id. */
  datatype NsDictionary<K, V> = NsDictionary(id: Handle)

  /** `DictionaryOf::get`: the untyped `value` lookup on the same dictionary,
      with the result read as a `&V`. */
  function Get<K, V>(st: Store, d: DictionaryOf<K, V>, k: Ref<K>): (r: Option<Ref<V>>)
    requires IsDictionary(st, d.raw)
    ensures r.Some? <==> CfDictionary.Value(st, d.raw, k.handle).Some?
    ensures r.Some? ==> r.value.handle == CfDictionary.Value(st, d.raw, k.handle).value
  {
    match CfDictionary.Value(st, d.raw, k.handle)
    case None => None
    case Some(v) => Some(Ref(v))
  }

  /** `DictionaryOf::as_cf`: the same object seen as an `ns::Dictionary<K, V>`. */
  function AsCf<K, V>(d: DictionaryOf<K, V>): (r: NsDictionary<K, V>)
    ensures r.id == d.raw.handle
  {
    NsDictionary(d.raw.handle)
  }

  /** `Retain::retained`: the same dictionary (no copy), with one more retain count. */
  function Retained<K, V>(st: Store, d: DictionaryOf<K, V>): (e: Effect<DictionaryOf<K, V>>)
    requires Valid(st) && IsDictionary(st, d.raw)
    ensures e.store == Retain(st, d.raw.handle)
    ensures e.value == d
    ensures e.store.rc[d.raw.handle] == st.rc[d.raw.handle] + 1
    ensures IsDictionary(e.store, d.raw) && Entries(e.store, d.raw) == Entries(st, d.raw)
  {
    Effect(Retain(st, d.raw.handle), d)
  }

  /** `Release::release`: gives back exactly one retain count of the inner dictionary. */
  function Release<K, V>(st: Store, d: DictionaryOf<K, V>): (st': Store)
    requires Valid(st) && IsDictionary(st, d.raw) && Live(st, d.raw.handle)
    ensures st' == Runtime.Release(st, d.raw.handle)
    ensures st'.rc[d.raw.handle] == st.rc[d.raw.handle] - 1
  {
    Runtime.Release(st, d.raw.handle)
  }

  /** A retain followed by a release leaves the store as it was. */
  lemma RetainedThenReleased<K, V>(st: Store, d: DictionaryOf<K, V>)
    requires Valid(st) && IsDictionary(st, d.raw) && Live(st, d.raw.handle)
    ensures Release(Retained(st, d).store, d) == st
  {
    var st1 := Retained(st, d).store;
    assert st1.rc[d.raw.handle := st1.rc[d.raw.handle] - 1] == st.rc;
  }

  /** `DictionaryOf::with_keys_values`: the untyped dictionary of the same
      pairs, viewed as `DictionaryOf<K, V>`. */
  function WithKeysValues<K, V>(st: Store, keys: seq<Ref<K>>, values: seq<Ref<V>>): (e: Effect<DictionaryOf<K, V>>)
    requires Valid(st) && |keys| == |values| && AllKnown(st, Handles(keys)) && AllKnown(st, Handles(values))
    ensures Valid(e.store) && IsDictionary(e.store, e.value.raw)
    ensures e.value.raw.handle !in e.store.mutableDicts
    ensures e.value.raw.handle !in st.rc && e.store.rc[e.value.raw.handle] == 1
    ensures e.store.rc.Keys == st.rc.Keys + {e.value.raw.handle}
    ensures forall h :: h in st.rc ==> e.store.rc[h] == st.rc[h] + Holds(Entries(e.store, e.value.raw), h)
    ensures OthersUnchanged(st, e.store, e.value.raw.handle)
    ensures forall h: Handle :: Get(e.store, e.value, Ref(h)).Some? <==> Ref(h) in keys
    ensures forall i :: 0 <= i < |keys| && keys[i] !in keys[..i] ==> Get(e.store, e.value, keys[i]) == Some(values[i])
  {
    var e := CfDictionary.WithKeysValues(st, Handles(keys), Handles(values));
    HandlesFaithful(keys);
    Effect(e.store, DictionaryOf(e.value))
  }

  /** A typed lookup and the untyped one on the same handle find the same
      object: the phantom types change nothing at run time. */
  lemma GetAgreesWithValue<K, V>(st: Store, d: DictionaryOf<K, V>, k: Ref<K>)
    requires IsDictionary(st, d.raw)
    ensures Get(st, d, k) == None <==> CfDictionary.Value(st, d.raw, k.handle) == None
    ensures forall v: Handle :: CfDictionary.Value(st, d.raw, k.handle) == Some(v) <==> Get(st, d, k) == Some(Ref(v))
  {
  }
}
