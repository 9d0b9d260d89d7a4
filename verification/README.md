# cidre core, modelled in Dafny

cidre is a set of Rust bindings to Apple's frameworks. Almost all of it is a
one-line declaration of a foreign call. This project models the part that has
logic of its own, and proves properties of that model:

- **Typed collection bridge.** `cf::Array`, `cf::ArrayMut`, `cf::ArrayOf<T>`,
  `cf::ArrayOfMut<T>`, `cf::ArrayOfIterator<T>`, `cf::Dictionary`,
  `cf::DictionaryMut`, `cf::DictionaryOf<K, V>` and `ns::Array<T>`. These lay
  static element types over untyped CoreFoundation / Foundation collections,
  and add a little logic: iterator stepping, the empty-array short-circuit of
  `contains`, and the folding of dictionary lookups into `Option`s.
- **Index-buffer arithmetic.** `mtl::IndirectRenderCmd::draw_indexed_triangles_u16` / `_u32`.
- **Status mapping and argument forwarding.** `cg::DisplayStream::start` /
  `stop` and the two safe constructors.
- **Capture session.** Configuration bracketing (`Session::configure`), the
  exception-to-`Result` setters, and `MultiCamSession::is_multicam_supported`
  on macOS.

## How the foreign runtime is modelled

The CoreFoundation and Objective-C runtime is a pure value, `Runtime.Store`:

- a map from object handle to retain count;
- a map from array handle to its sequence of element handles;
- a map from dictionary handle to its finite map of key handle to value handle;
- the set of mutable objects among those;
- the shared empty array;
- an allocation frontier.

`CF` and `NS` objects are toll-free bridged, so both views read the same store.

Collections retain what they hold, as the default callbacks do: an array
retains each element once per occurrence, a dictionary each key and each value
once per entry they appear in (`CoreFoundation.Holds`). Creating, filling and
clearing a collection moves the counts accordingly.

"No other collection changes" in the table below is `Runtime.OthersUnchanged`.
Every array and dictionary other than the one created or changed keeps its
contents and its mutability. No object other than that one becomes or stops
being a collection, and the shared empty array stays the same object.

Bindings are pure functions of the store:
- one that returns a value and may change the store maps a store to an
  `Effect`, which pairs a new store with the value;
- one that returns `()` maps a store to a store: `Append`, `Push`,
  `RemoveAllValues`, `Clear`, `AppendAll`, `Insert`, `Remove`, `InsertAll`
  and every `Release`;
- a read maps a store to a value.

The exceptions are `CfDictionary.Keys`, `CfDictionary.Values`,
`CfDictionary.KeysWithValues` and the primitive
`CoreFoundation.CFDictionaryGetKeysAndValues`: these are methods that return
sequences, because the order in which a dictionary lists its entries is not
determined by its contents. The CoreFoundation primitives themselves (`CFArrayCreate`,
`CFArrayAppendValue`, `CFDictionaryGetValueIfPresent`, …, in module
`CoreFoundation`) are the trust boundary. They are given reference
definitions that follow Apple's documented behaviour and the repository's
doc-tests. The wrappers are then verified against those definitions.

Typed wrappers are `repr(transparent)` reinterpretations. A typed view is a
datatype around the same handle, and a type parameter that is never checked
at run time.

Foreign calls whose effect is not visible are treated as follows:

- A Metal draw message and a display-stream create call are modelled as the
  record of the arguments they receive.
- A display-stream status, an Objective-C exception, and the
  `isMultiCamSupported` class property become parameters.

Files:

- `runtime.dfy`: the store, handles, retain / release.
- `core_foundation.dfy`: the CF primitives.
- `cf_array.dfy`, `cf_array_of.dfy`, `cf_dictionary.dfy`, `ns_array.dfy`: the bridge.
- `indirect_command.dfy`, `display_stream.dfy`, `capture_session.dfy`: the other three pieces.

## Model

| member | source | states |
|---|---|---|
| Runtime.Retain | src/cf/array.rs:141-145 | one more retain count on the object, every other count and all contents unchanged |
| Runtime.Release | src/cf/array.rs:135-139 | exactly one retain count given back by a live object, nothing else changes |
| Runtime.RetainEach | src/cf/array.rs:20-24 | the default array callbacks retain each element once per occurrence: count rises by its multiplicity |
| Runtime.ReleaseEach | src/cf/array.rs:20-24 | the default array callbacks release each dropped element once per occurrence |
| Runtime.ReleaseEachUndoesRetainEach | src/cf/array.rs:20-24 | releasing what was retained restores every count: a collection neither leaks nor over-releases |
| CoreFoundation.CFArrayCreate | src/cf/array.rs:501-506 | trust boundary: an immutable array of exactly the values; empty gives the shared empty array with one more retain, otherwise a fresh object with count 1; each element retained per occurrence; no other array or dictionary changes |
| CoreFoundation.CFArrayCreateCopy | src/cf/array.rs:508 | trust boundary: a copy has the source's elements and is created like an array of those elements |
| CoreFoundation.CFArrayCreateMutable | src/cf/array.rs:512-516 | trust boundary: a fresh, empty, mutable array |
| CoreFoundation.CFArrayCreateMutableCopy | src/cf/array.rs:518-522 | trust boundary: a fresh mutable array with the source's elements |
| CoreFoundation.CFArrayAppendValue | src/cf/array.rs:524 | trust boundary: the value becomes the last element and gains one retain; no other array changes |
| CoreFoundation.CFArrayRemoveAllValues | src/cf/array.rs:526 | trust boundary: no element left, each former element released once per occurrence |
| CoreFoundation.FirstWins | cidre/src/cf/dictionary.rs:335-342 | the map built from parallel key and value lists: exactly the listed keys, each mapped to the value paired with its first occurrence |
| CoreFoundation.FirstWinsSize | cidre/src/cf/dictionary.rs:335-342 | with distinct keys there is one entry per key |
| CoreFoundation.NewDictionary | cidre/src/cf/dictionary.rs:185-199 | a fresh dictionary with count 1 holding the given entries; under the default callbacks every stored key and value gains one retain per entry it appears in; no other contents change |
| CoreFoundation.HoldsAfterSet | cidre/src/cf/dictionary.rs:387-389 | setting a key: the value gains a reference, a new key gains one, the replaced value loses one, nothing else changes |
| CoreFoundation.HoldsAfterRemove | cidre/src/cf/dictionary.rs:391-393 | removing a present key drops the reference on the key and the one on its value, nothing else changes |
| CoreFoundation.CFDictionaryCreate | cidre/src/cf/dictionary.rs:335-342 | trust boundary: a fresh immutable dictionary of the given pairs, created as `NewDictionary` creates it, so keys and values are retained |
| CoreFoundation.CFDictionaryGetKeysAndValues | cidre/src/cf/dictionary.rs:344-348 | trust boundary: fills two buffers of the dictionary's size with every key exactly once and, at the same position, its value |
| CoreFoundation.CFDictionaryCreateCopy | cidre/src/cf/dictionary.rs:350-353 | trust boundary: a fresh immutable dictionary with the same entries, created as `NewDictionary` creates it, so every key and value gains one retain per entry |
| CoreFoundation.CFDictionaryCreateMutable | cidre/src/cf/dictionary.rs:506-511 | trust boundary: a fresh, empty, mutable dictionary with count 1; no other count or contents change |
| CoreFoundation.CFDictionarySetValue | cidre/src/cf/dictionary.rs:514 | trust boundary: the key maps to the value afterwards, every other entry kept; the value is retained, a new key is retained, a replaced value is released |
| CoreFoundation.CFDictionaryRemoveValue | cidre/src/cf/dictionary.rs:520 | trust boundary: the key is gone afterwards, every other entry kept; a present key and its value are each released once |
| CoreFoundation.CFDictionaryRemoveAllValues | cidre/src/cf/dictionary.rs:521 | trust boundary: no entry left; every key and value is released once per entry it appeared in |
| CfArray.Count | src/cf/array.rs:273-282 | the count is the number of elements the runtime holds |
| CfArray.Len | src/cf/array.rs:284-293 | `len` equals `count` and the number of elements |
| CfArray.IsEmpty | src/cf/array.rs:295-304 | true exactly when `len == 0`, exactly when there are no elements |
| CfArray.Index | src/cf/array.rs:419-425 | indexing returns the element at that position |
| CfArray.New | src/cf/array.rs:339-347 | a new array has count 0 and is empty; it is the shared empty array, retained once more for the caller |
| CfArray.FromTypeRefs | src/cf/array.rs:349-359 | from N references: length N, element i is the i-th reference, each retained per occurrence, no other collection changed; no references give the shared empty array with one more retain, otherwise a fresh array with count 1; the result is immutable |
| CfArray.FromSlice | src/cf/array.rs:361-374 | from N references: length N and element i is the i-th reference; with the default callbacks every other object gains one retain count per occurrence, and no other collection changes; no references give the shared empty array with one more retain, otherwise a fresh array with count 1; the result is immutable |
| CfArray.Copy | src/cf/array.rs:306-327 | the copy has the same elements and leaves the source untouched; an empty source gives the shared empty array with one more retain count, any other a fresh array with count 1 that retains each element once per occurrence; no other collection changes; the result is immutable |
| CfArray.CopyMutIn | src/cf/array.rs:384-406 | a mutable copy has the same elements and a fresh handle with count 1, distinct from the source and from the shared empty array; each element gains one retain count per occurrence; the source is untouched |
| CfArray.CopyMut | src/cf/array.rs:408-411 | as `copy_mut_in`: same elements, fresh handle with count 1 distinct from the source, one retain count per occurrence on each element |
| CfArray.EmptyArraysAreSame | src/cf/array.rs:535-546 | new arrays and the copy of an empty array are the same object; a mutable copy of it is a different object |
| CfArrayMut.WithCapacity | src/cf/array.rs:458-470 | a fresh empty mutable array with count 1, taking a `CFIndex` capacity; no other count or collection changes |
| CfArrayMut.New | src/cf/array.rs:472-490 | a fresh mutable array has length 0, is empty, is never the shared empty array, has count 1, and changes no other count or collection |
| CfArrayMut.Append | src/cf/array.rs:441-444 | exactly one element added, at the end: length grows by one and the last index reads the value; only that value's count changes |
| CfArrayMut.RemoveAllValues | src/cf/array.rs:446-451 | length 0 afterwards; each former element gives back one count per occurrence |
| CfArrayMut.Clear | src/cf/array.rs:453-456 | `clear` leaves the array empty, exactly as `remove_all_values` |
| CfArrayMut.CopyMutIsIndependent | src/cf/array.rs:384-398 | appending to a mutable copy grows the copy and leaves the source's length and elements unchanged |
| CfArrayMut.AppendAll | src/cf/array.rs:441-444 | appending values one by one leaves them, in order, after the old elements, keeps the store's objects, and changes no other array |
| CfArrayMut.AppendAllCounts | src/cf/array.rs:441-444 | appending values one by one retains each once per occurrence |
| CfArrayMut.FillThenClearBalances | src/cf/array.rs:446-456 | filling a fresh array and clearing it gives every object back its original count |
| CfArrayMut.NewAppendTwiceRemoveAll | src/cf/array.rs:472-490 | the doc example: length 0, then 2 after two appends, then 0 again, with the appended object's count restored |
| CfArrayOf.New | src/cf/array.rs:33-42 | `ArrayOf::new` is the untyped `Array::new` under a typed view: same handle, no items |
| CfArrayOf.FromSlice | src/cf/array.rs:73-87 | the typed array's items are exactly the given references, in order; the default callbacks give every other object one retain count per occurrence, and no other collection changes; no references give the shared empty array with one more retain, otherwise a fresh array with count 1; the result is immutable |
| CfArrayOf.Index | src/cf/array.rs:115-124 | typed indexing is the untyped element at that position, read as `&T` |
| CfArrayOf.FromSliceRoundTrip | src/cf/array.rs:73-87 | reading back each index of a `from_slice` array gives the references it was made from |
| CfArrayOf.Contains | src/cf/array.rs:44-55 | true exactly when the value is an element; an empty array answers false without a runtime search |
| CfArrayOf.CopyMut | src/cf/array.rs:67-71 | a typed mutable copy: same items, fresh handle with count 1, one retain count per occurrence on each item, source untouched |
| CfArrayOf.Retained | src/cf/array.rs:141-145 | the same array, not a copy, with one more retain count |
| CfArrayOf.Release | src/cf/array.rs:135-139 | the inner array loses exactly one retain count |
| CfArrayOf.RetainedThenReleased | src/cf/array.rs:135-145 | `retained` followed by `release` leaves the store as it was |
| CfArrayOf.Iter | src/cf/array.rs:57-65 | an iterator starts at index 0 over the array's current length and tracks the array |
| CfArrayOf.Next | src/cf/array.rs:160-168 | below the length, yields the element at the index and steps by one; at the length, yields `None` and stays put; the index never passes the length |
| CfArrayOf.RemainingLen | src/cf/array.rs:171-178 | the remaining count is `len - index` while the array is unchanged |
| CfArrayOf.DrainFrom | src/cf/array.rs:160-178 | from any position the iterator yields the elements from its index to the end, in order, as many as its remaining count |
| CfArrayOf.IterYieldsItems | src/cf/array.rs:57-65 | a full iteration yields exactly the array's items, in order |
| CfArrayOfMut.WithCapacity | src/cf/array.rs:189-198 | a fresh empty typed mutable array with count 1; no other count and no other collection changes; the `usize` capacity is cast to `CFIndex` |
| Runtime.UsizeAsIndex | src/cf/array.rs:196 | the `usize` to `isize` cast keeps values below 2^63, sends the rest negative, and preserves the value modulo 2^64 |
| CfArrayOfMut.New | src/cf/array.rs:183-187 | a fresh typed mutable array is empty, never the shared empty array, has count 1, and changes no other count or collection |
| CfArrayOfMut.Push | src/cf/array.rs:210-213 | the reference becomes the last item, and only that object's count changes |
| CfArrayOfMut.Iter | src/cf/array.rs:200-208 | the mutable array's iterator is the one of its typed view and yields its items in order |
| CfArrayOfMut.Index | src/cf/array.rs:225-234 | typed indexing reads the item at that position |
| CfArrayOfMut.Retained | src/cf/array.rs:251-255 | the same object with one more retain count, every collection's contents unchanged |
| CfArrayOfMut.Release | src/cf/array.rs:245-249 | the inner mutable array loses exactly one retain count, every collection's contents unchanged |
| CfArrayOfMut.PushOnCopyLeavesSource | src/cf/array.rs:67-71 | pushing onto a typed mutable copy leaves the typed source's items unchanged |
| NsArray.Objects | src/ns/array.rs:58-65 | the objects an `ns::Array` hands out are its elements, position by position |
| NsArray.FromSlice | src/ns/array.rs:38-40 | the new array holds exactly the given objects in order, each retained per occurrence; no objects gives the shared empty array with one more retain, otherwise a fresh array with count 1; no other collection changes; the result is immutable |
| NsArray.Count | src/ns/array.rs:42-45 | the count is the number of objects |
| NsArray.Len | src/ns/array.rs:47-50 | `len` equals `count` |
| NsArray.IsEmpty | src/ns/array.rs:52-55 | true exactly when `len == 0`, exactly when there is no object |
| NsArray.Index | src/ns/array.rs:58-65 | indexing below the count returns the object at that position |
| NsArray.Retained | src/ns/array.rs:28-32 | the same array with one extra retain count |
| NsArray.Release | src/ns/array.rs:22-26 | the inner id loses exactly one retain count; contents unchanged |
| NsArray.RetainedThenReleased | src/ns/array.rs:22-32 | `retained` then `release` leaves the store as it was |
| NsArray.FromSliceRoundTrip | src/ns/array.rs:38-65 | `from_slice` of N objects has count N and index i reads the i-th object |
| NsArray.SingleObjectBasics | src/ns/array.rs:75-82 | the test: a one-object array is not empty and index 0 is that very object |
| CfDictionary.New | cidre/src/cf/dictionary.rs:59-67 | a fresh dictionary with length 0 that is empty, owned by the caller; no other count or contents change; the result is immutable |
| CfDictionary.ContainsKey | cidre/src/cf/dictionary.rs:91-107 | true exactly when the key is one of the dictionary's keys |
| CfDictionary.RawValueIfPresent | cidre/src/cf/dictionary.rs:119-131 | `None` exactly for an absent key, `Some(Some(stored))` for a present one |
| CfDictionary.Value | cidre/src/cf/dictionary.rs:133-156 | `Some` of the identical stored object exactly when the key is present, `None` otherwise |
| CfDictionary.ValueAgreesWithRaw | cidre/src/cf/dictionary.rs:119-156 | `value` and `raw_value_if_present` agree on presence and on the stored object |
| CfDictionary.Count | cidre/src/cf/dictionary.rs:158-161 | the count is the number of entries |
| CfDictionary.Len | cidre/src/cf/dictionary.rs:163-166 | `len` equals `count` |
| CfDictionary.IsEmpty | cidre/src/cf/dictionary.rs:168-171 | true exactly when `len == 0`, exactly when no key is contained |
| CfDictionary.WithKeysValues | cidre/src/cf/dictionary.rs:173-199 | exactly the given keys are contained; each key's value is the one paired with its first occurrence; N distinct keys give length N; the default callbacks retain each stored key and value once per entry; no other collection changes; the result is immutable |
| CfDictionary.Keys | cidre/src/cf/dictionary.rs:227-251 | `len` keys, each exactly once, and a handle is among them exactly when it is contained |
| CfDictionary.Values | cidre/src/cf/dictionary.rs:253-277 | one value per entry, with multiplicity: some ordering of the keys, each once, has exactly these values position by position |
| CfDictionary.KeysWithValues | cidre/src/cf/dictionary.rs:279-291 | two sequences of length `len`: every key once, each paired with its own value |
| CfDictionary.Copy | cidre/src/cf/dictionary.rs:298-306 | a fresh dictionary with the same entries, the source and every other collection untouched; each key and value gains one retain per entry; the result is immutable |
| CfDictionary.SinglePair | cidre/src/cf/dictionary.rs:91-199 | the doc-tests: the one-pair dictionary contains its key, not another, maps it to the identical value object, has length 1 and is not empty |
| CfDictionaryMut.WithCapacity | cidre/src/cf/dictionary.rs:360-376 | a fresh empty mutable dictionary with count 1; no other count or contents change |
| CfDictionaryMut.Insert | cidre/src/cf/dictionary.rs:387-389 | the key maps to the new value, replacing any earlier one; every other key keeps its value; the length grows exactly when the key was new; the value is retained, a new key is retained, a replaced value is released |
| CfDictionaryMut.Remove | cidre/src/cf/dictionary.rs:391-393 | the key is absent afterwards and only that key is deleted; the length shrinks exactly when it was present, and then the key and its value are released |
| CfDictionaryMut.RemoveAllValues | cidre/src/cf/dictionary.rs:411-413 | the map is empty afterwards and every key and value is released once per entry it appeared in |
| CfDictionaryMut.InsertThenRemoveRestores | cidre/src/cf/dictionary.rs:387-393 | removing a newly inserted key restores the original entries and every original retain count |
| CfDictionaryMut.SetAll | cidre/src/cf/dictionary.rs:387-389 | setting pairs in turn on a map: exactly the old and the given keys, each given key mapped to the value of its last occurrence, every other key keeping its value |
| CfDictionaryMut.InsertAll | cidre/src/cf/dictionary.rs:387-389 | inserting pairs one by one: the entries become `SetAll` of the old ones, no other collection changes, and the counts change as if the first entries' references were exchanged for the final entries' ones |
| CfDictionaryMut.InsertAllValues | cidre/src/cf/dictionary.rs:387-389 | after inserting pairs, `value` finds each given key's last-paired value, and an ungiven key what it found before; exactly the old and given keys are contained |
| CfDictionaryMut.FillThenClearBalances | cidre/src/cf/dictionary.rs:360-413 | filling a fresh dictionary and clearing it gives every object its original retain count back: no leak, no over-release |
| CfDictionaryMut.InsertPresentUnchanged | cidre/src/cf/dictionary.rs:387-389 | inserting a pair already held changes neither the entries nor any count |
| CfDictionaryMut.InsertIdempotent | cidre/src/cf/dictionary.rs:387-389 | inserting the same pair twice is inserting it once |
| CfDictionaryOf.Get | cidre/src/cf/dictionary.rs:428-430 | the typed lookup agrees with the untyped `value` on the same handle |
| CfDictionaryOf.GetAgreesWithValue | cidre/src/cf/dictionary.rs:428-430 | `get(k)` is `None` exactly when `value(k)` is, and otherwise carries the same object |
| CfDictionaryOf.AsCf | cidre/src/cf/dictionary.rs:438-441 | the toll-free view keeps the same handle |
| CfDictionaryOf.Retained | cidre/src/cf/dictionary.rs:467-475 | the same dictionary, not a copy, with one more retain count and the same entries |
| CfDictionaryOf.Release | cidre/src/cf/dictionary.rs:457-465 | the inner dictionary loses exactly one retain count |
| CfDictionaryOf.RetainedThenReleased | cidre/src/cf/dictionary.rs:457-475 | `retained` then `release` leaves the store as it was |
| CfDictionaryOf.WithKeysValues | cidre/src/cf/dictionary.rs:485-502 | the typed dictionary of the pairs: a typed key is found exactly when given, with its first-paired value; stored keys and values are retained once per entry; no other collection changes; the result is immutable |
| IndirectCommand.IndexSize | cidre/src/mtl/indirect_command_encoder.rs:121 | the size of one index is 2 or 4 bytes |
| IndirectCommand.RangeLen | cidre/src/mtl/indirect_command_encoder.rs:118 | a range's length is the number of values it contains; a reversed range holds none |
| IndirectCommand.WrappingMul | cidre/src/mtl/indirect_command_encoder.rs:121 | `usize` multiplication is exact whenever it does not overflow |
| IndirectCommand.DrawIndexedTriangles | cidre/src/mtl/indirect_command_encoder.rs:109-145 | triangles, the given index width, base vertex 0, index count = index range length, instance count = instance range length, base instance = instance range start, offset = start × index size when it fits |
| IndirectCommand.DrawIndexedTrianglesU16 | cidre/src/mtl/indirect_command_encoder.rs:109-126 | triangles over U16 indices, base vertex 0, index count = `index_range.len()`, byte offset = `start * 2`, instance count and base instance from the instance range |
| IndirectCommand.DrawIndexedTrianglesU32 | cidre/src/mtl/indirect_command_encoder.rs:128-145 | triangles over U32 indices, base vertex 0, index count = `index_range.len()`, byte offset = `start * 4`, instance count and base instance from the instance range |
| IndirectCommand.DrawRecoversRanges | cidre/src/mtl/indirect_command_encoder.rs:109-145 | for forward ranges without overflow, the encoded draw reads exactly the index range and covers exactly the instance range |
| IndirectCommand.OffsetAligned | cidre/src/mtl/indirect_command_encoder.rs:121-140 | even on wrap-around, the byte offset is a whole number of indices |
| IndirectCommand.HelpersDifferOnlyInWidth | cidre/src/mtl/indirect_command_encoder.rs:109-145 | the two helpers differ only in index type and doubled offset |
| DisplayStream.WithRunloop | src/cg/display_stream.rs:204-225 | the run-loop create call receives display, size, format and properties unchanged, and the handler's address |
| DisplayStream.WithDispatchQueue | src/cg/display_stream.rs:231-254 | the dispatch-queue create call receives the same arguments unchanged, plus the queue |
| DisplayStream.ConstructorsDifferOnlyInQueue | src/cg/display_stream.rs:204-254 | the two constructors make the same request but for the delivery queue |
| DisplayStream.WithRunloopInjective | src/cg/display_stream.rs:204-225 | no argument is dropped: equal create calls come from equal arguments |
| DisplayStream.StatusResult | src/cg/display_stream.rs:261-282 | `Ok` exactly on `SUCCESS`, otherwise `Err` of the unchanged status |
| DisplayStream.Start | src/cg/display_stream.rs:261-268 | `Ok(())` exactly when the status is `SUCCESS`, `Err(status)` unchanged otherwise |
| DisplayStream.Stop | src/cg/display_stream.rs:275-282 | `Ok(())` exactly when the status is `SUCCESS`, `Err(status)` unchanged otherwise |
| DisplayStream.StatusRoundTrip | src/cg/display_stream.rs:261-282 | the status is recoverable from the result, an error is never `SUCCESS`, and each well-formed result comes from exactly its status |
| ObjcException.TryCatch | cidre/src/av/capture/session.rs:76-78 | `Ok` exactly when the guarded call returned, `Err` of the raised exception otherwise |
| ObjcException.TryCatchRoundTrip | cidre/src/av/capture/session.rs:76-78 | catching loses nothing: outcome and result determine each other |
| CaptureSession.Send | cidre/src/av/capture/session.rs:177-181 | sending a message appends it to the session's messages |
| CaptureSession.BeginCfg | cidre/src/av/capture/session.rs:177-178 | `begin_cfg` sends `beginConfiguration` |
| CaptureSession.CommitCfg | cidre/src/av/capture/session.rs:180-181 | `commit_cfg` sends `commitConfiguration` |
| CaptureSession.DepthAppend | cidre/src/av/capture/session.rs:177-181 | the nesting depth after two runs of messages is the sum of their depths |
| CaptureSession.DepthInsideBody | cidre/src/av/capture/session.rs:184-188 | inside `configure` the body runs one level deeper than the caller |
| CaptureSession.BalancedWrap | cidre/src/av/capture/session.rs:184-188 | a balanced body wrapped in begin and commit after a balanced history stays balanced |
| CaptureSession.Configure | cidre/src/av/capture/session.rs:184-188 | earlier messages kept; `beginConfiguration` first; the body's messages exactly once; `commitConfiguration` last; exactly one begin and one commit more than the body sends |
| CaptureSession.ConfigureKeepsBalanced | cidre/src/av/capture/session.rs:184-188 | `configure` never leaves a configuration open and never commits one it did not begin |
| CaptureSession.SetSessionPresetGuarded | cidre/src/av/capture/session.rs:73-78 | sends `setSessionPreset:` once; `Ok` when nothing was raised, `Err` of the raised exception otherwise |
| CaptureSession.AddControlGuarded | cidre/src/av/capture/session.rs:164-171 | sends `addControl:` once, under the same guarded-call contract |
| CaptureSession.SetVideoRotationAngleGuarded | cidre/src/av/capture/session.rs:475-480 | sends `setVideoRotationAngle:` with the angle unchanged, under the same guarded-call contract |
| CaptureSession.GuardedSettersReportTheCall | cidre/src/av/capture/session.rs:76-78 | each guarded setter reports exactly the outcome of its call and sends its message exactly once |
| CaptureSession.SetterInsideConfigure | cidre/src/av/capture/session.rs:184-188 | the guarded `set_session_preset` run as a configure body is sent between begin and commit, whether or not it raised |
| CaptureSession.IsMulticamSupported | cidre/src/av/capture/session.rs:350-357 | always false on macOS; elsewhere the framework's class property |
| CaptureSession.MulticamMacOsIgnoresFramework | cidre/src/av/capture/session.rs:354-357 | on macOS the answer is false whatever the framework would say |

## Left out

- Allocation failure. Every create call succeeds in the model. `Array::new`, `ArrayMut::with_capacity`, `ArrayOfMut::with_capacity`, `Dictionary::new`, `Dictionary::copy` and `DictionaryMut::with_capacity` unwrap the `Option` with `unwrap_unchecked`, so nothing is lost there. `ArrayOf::from_slice` (src/cf/array.rs:73-87) and `DictionaryOf::with_keys_values` transmute the `Option` away; on allocation failure that would produce a null reference, which is not modelled. The constructors below hand the `Option` to the caller, and their model never returns `None`:
- CfArray.Copy: `Array::copy` returns `None` when the copy cannot be created; the model always returns a copy.
- CfArray.FromTypeRefs: `Array::from_type_refs` returns `None` when the array cannot be created; the model always returns one.
- CfArray.FromSlice: `Array::from_slice` returns `None` when the array cannot be created; the model always returns one.
- CfArray.CopyMutIn: `Array::copy_mut_in` returns `None` when the copy cannot be created; the model always returns one.
- CfArray.CopyMut: `Array::copy_mut` returns `None` when the copy cannot be created; the model always returns one.
- CfArrayOf.CopyMut: `ArrayOf::copy_mut` returns `None` when the copy cannot be created; the model always returns one.
- CfDictionary.WithKeysValues: `Dictionary::with_keys_values` returns `None` when the dictionary cannot be created; the model always returns one.
- CFArrayCreateCopy: a copy of a non-empty immutable array is always a fresh object, by choice. Returning the same object with one more retain, as `-copy` on an immutable `NSArray` may do, is excluded. CoreFoundation documents `CFArrayCreateCopy` as creating a new immutable array, and only the empty copy is pinned by the repository's test (src/cf/array.rs:535-546).
- Allocators and capacity hints. `new_in`, `copy_in`, `with_capacity_in` and `copy_mut_in` behave as with the default allocator. The capacity argument has no observable effect.
- Key equality and hashing. Dictionary keys and `contains` values are compared by identity. `CFEqual` and hash callbacks on distinct but equal objects are not modelled.
- Deallocation. When a retain count reaches zero, the object is not freed and its elements, keys and values are not released.
- Raw-pointer and untyped entry points:
  - `Array::create_in`, `from_copyable`, `append_value`;
  - `Dictionary::create`, `contains_raw_key`, `contains_raw_value`, `raw_value`, `keys_and_values`;
  - `DictionaryMut::add_value`, `set_value`, `replace_value`, `remove_value`.

  They take unchecked pointers or null callbacks.
- `ArrayOf::from_retained_slice` (src/cf/array.rs:89-104) is safe and creates the array with the default callbacks, exactly as `from_slice` does. On the handles it is `CfArrayOf.FromSlice`, so it has no member of its own; unlike `from_slice` it returns the `Option`, and `None` is not modelled.
- `Array::copy_mut_with_capacity` (src/cf/array.rs:413-416) is safe and only calls `copy_mut_in` with the default allocator. `CfArray.CopyMutIn` models it.
- `Array::type_id` (src/cf/array.rs:269-272) takes no arguments and returns the runtime's type identifier for arrays. The store has no type registry, so there is nothing to state about it.
- `Array`'s `IndexMut` (src/cf/array.rs:427-431) hands out a mutable reference to an element slot. The store has no notion of such references; reading an element is `CfArray.Index`.
- CfArray.Index: an index at or past the length is a caller obligation. `CFArrayGetValueAtIndex` does not check it.
- CfArrayOf.Index: an index at or past the length is a caller obligation, as for the untyped array.
- NsArray.Index: an index at or past the count is a caller obligation. `-objectAtIndex:` raises `NSRangeException` there, and the bindings do not catch it.
- NsArray.FromSlice: `NSArray_withObjs` is a foreign helper. It is modelled by the bridged `CFArrayCreate`, including the shared empty array for zero objects.
- CfArrayOf.RemainingLen: computed with wrap-around `usize` subtraction, as a release build does. The debug-build overflow panic is not modelled. The exact value is stated only for lengths below 2^64 and for an unchanged array.
- IndirectCommand.DrawIndexedTrianglesU16: the offset is stated exactly only when `start * 2` fits in `usize`. Otherwise it wraps, as a release build does, and the debug-build overflow panic is not modelled.
- IndirectCommand.DrawIndexedTrianglesU32: the offset is stated exactly only when `start * 4` fits in `usize`. Otherwise it wraps, as a release build does.
- The Metal `drawIndexedPrimitives:` message, the rest of `IndirectRenderCmd` / `IndirectComputeCmd`, and every other pure message send are foreign.
- DisplayStream.WithRunloop: the constructor is modelled as the create call it makes. The `Option` of the stream that CoreGraphics returns is not modelled.
- DisplayStream.WithDispatchQueue: modelled as the create call it makes, as above.
- `cidre/src/cg/error.rs` is not part of this model. Only `SUCCESS = 0` (`kCGErrorSuccess`) is used.
- Display-stream frame callbacks, `Update`, `run_loop_source` and the unsafe `create` / `stream_start` / `stream_stop` entry points. These are foreign calls, blocks and concurrency.
- `ns::try_catch` is not part of this model. Its documented behaviour is modelled: an exception raised by the call becomes `Err`, and a normal return becomes `Ok`.
- CaptureSession.Configure: the body is a function from the session after `begin_cfg` to the messages it sends. An exception raised inside the body, which would skip the commit, is not modelled.
- CaptureSession.SetVideoRotationAngleGuarded: the angle is an exact `real`. Floating-point behaviour is not modelled.
- The effect of the messages on the AVFoundation objects themselves, and all other session, connection and multi-cam properties, are not modelled.
