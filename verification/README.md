# ml::Map in Dafny

A verified model of `ml::Map<K, V>` (Map.h). The map is an associative array that keeps
insertion order. All entries live in one growable buffer `pArray`. It tracks:

- `pSize`, the capacity;
- `pTop`, the number of live entries;
- `pMaxIncrease`, the cap on each growth step (default 512).

Keys are found by a linear scan over `pArray[0..pTop)`.

The project has four modules:

- `Entries` (entries.dfy) is the value-level view. The live entries form a sequence of
  `Entry(key, value)`. Each operation is a function on that sequence:
  - `IndexOf` is the first-match scan;
  - `Ensure` is lookup-or-insert;
  - `Assign` is `at(k) = v`;
  - `Swapped` is `swap`;
  - `RemoveLive` is what `remove` really does;
  - `Without` is the removal the source comment promises.

  Lemmas state what each operation guarantees.
- `Growth` (growth.dfy) covers the capacity policy of `push`. This includes the closed forms
  for the capacity after n reallocations, with and without the cap.
- `RemoveCopy` (remove_copy.dfy) holds the loop invariant of the copy loop in `remove`,
  stated on sequences, with one lemma per branch of the loop body and two lemmas for the
  loop exit.
- `Maps` (map.dfy) is the imperative model:
  - class `Map` has the fields `entries` (an `array`), `size`, `top` and `maxIncrease`;
  - class `Cursor` is the nested `Iterator`;
  - module-level methods hold the buffer-copying loops.

  The methods that look up, insert or remove entries are proved against the functions in
  `Entries` and `Growth`. For example, `at` ensures `Live() == Ensure(old(Live()), key, none)`.
  `Wrap`, `Clear`, `Size`, `Top`, `IsEmpty`, `Begin` and `End` state their results directly.

Two constants stand for things C++ leaves implicit:

- `none` is the value a new entry gets (`NULL`, Map.h:66).
- `blank` stands for the content of a slot in a freshly allocated `new Pair<K, V>[n]`. In C++
  that content is indeterminate for scalar `K` and `V`. The model fixes one such value per map
  (see Left out).

Two places where the code does not do what a reader might expect:

- Growth does not double, although the comment at Map.h:41 says "double the size each time". `push` adds `min(pSize == 0 ? 1 : 2 * pSize, pMaxIncrease)` to the
  capacity, so an uncapped map triples: 1, 3, 9, ... With the default cap the capacity runs
  1, 3, 9, 27, 81, 243, 729, then grows by 512 per step.
- `remove` keeps `pSize`: the new buffer has the old capacity (Map.h:272). It also does not
  remove correctly (see Findings).

## Model

| member | source | states |
|---|---|---|
| Entries.IndexOf | Map.h:153-159 | the scan's result is the first index holding the key, or the end position; it is below the end exactly when some live entry holds the key |
| Entries.EnsureSpec | Map.h:149-182 | lookup-or-insert: the key is then present at the index the scan reports; an absent key is appended at the old end with the default value; old entries keep their slots; no key's value changes; distinct keys stay distinct |
| Entries.AssignSpec | Map.h:303-312 | after `at(k) = v` the key is present with value v at its old index (or appended); every other slot keeps its content; every other key keeps its value; distinct keys stay distinct |
| Entries.SwapSpec | Map.h:291-296 | after `swap(k1, k2)` both keys are present; k1 holds k2's old value and k2 holds k1's old value, an absent key counting as the default; every other key keeps its value |
| Entries.SwapSameKey | Map.h:291-296 | `swap(k, k)` changes no key's value |
| Entries.SwapKeepsEntry | Map.h:291-296 | an entry holding neither key keeps its slot and content |
| Entries.SwapUnique | Map.h:291-296 | swapping keeps distinct keys distinct |
| Entries.WithoutShape | Map.h:267 | the intended removal drops the first match; the count falls by one exactly when the key was present; earlier entries stay in place; later ones move down one slot |
| Entries.WithoutSpec | Map.h:267 | with distinct keys, the intended removal leaves the key absent; keys stay distinct; every other key keeps its presence and value |
| Entries.RemoveLiveSpec | Map.h:268-288 | what the `remove` loop leaves, with distinct keys: the count falls by at most one; it stays the same exactly when the key is absent or in the last live slot; entries before the match are kept; an absent key changes nothing |
| Entries.RemoveLiveIsIntendedIff | Map.h:267-288 | with distinct keys none of which is the blank slot's key, `remove` as written equals the intended removal if and only if the key is absent or sits in the next-to-last live slot |
| Entries.RemoveLosesLastEntry | Map.h:274-285 | on [(1,10),(2,20),(3,30)], `remove(1)` leaves [(2,20), blank], losing key 3; the intended result is [(2,20),(3,30)] |
| Entries.RemoveKeepsCountForLastKey | Map.h:280 | on [(1,10),(2,20)], `remove(2)` leaves two live entries, the last one blank; the intended result is [(1,10)] |
| Growth.Increase | Map.h:42-47 | the growth step is `pSize == 0 ? 1 : 2 * pSize` or the cap, whichever is smaller |
| Growth.Grown | Map.h:42-48 | a reallocation never shrinks the buffer, adds at most the cap, at most triples a non-empty buffer, and makes room whenever the cap is at least 1 |
| Growth.CapacityAfterPush | Map.h:38-48 | the capacity changes only when the buffer is full; with a cap of at least 1 the live count stays below the new capacity |
| Growth.UncappedGrowth | Map.h:42-48 | while twice the capacity stays within the cap, the capacity after n + 1 reallocations is 3^n |
| Growth.CappedGrowth | Map.h:42-48 | once twice the capacity reaches the cap, each further reallocation adds exactly the cap |
| Growth.DefaultGrowth | Map.h:31-48 | with the default cap 512 the capacity after 7 + j reallocations is 729 + 512 j, and 600 entries first fit after the seventh |
| RemoveCopy.CopyKeep | Map.h:276-279 | copying a non-matching entry to its own index keeps the loop invariant of `remove` |
| RemoveCopy.CopySkip | Map.h:280-284 | at a match before the last live slot, copying the next entry into the match's slot, skipping an index and decrementing the count keeps the invariant |
| RemoveCopy.CopyLast | Map.h:280 | a match in the last live slot copies nothing and keeps the invariant |
| RemoveCopy.CopyExit | Map.h:274-285 | when the loop ends, the slots before the first match hold the old entries; with an absent key the count and live entries are unchanged |
| RemoveCopy.CopyExitUnique | Map.h:274-285 | with distinct keys, when the loop ends the live range is `RemoveLive` and every slot past it is blank |
| Maps.Map.constructor | Map.h:20-31 | a new map is empty with capacity 0 and cap 512 |
| Maps.Map.EntryAt | Map.h:89-90 | the cursor snapshot at an index is a live entry exactly when the index is in the live range |
| Maps.Map.Scan | Map.h:153-159 | the scan loop returns the first index holding the key, or `pTop` |
| Maps.Map.Push | Map.h:35-68 | appends the key with the default value; the capacity becomes `CapacityAfterPush`; reallocation happens only when full and keeps the live entries in order; slots past the live range are the old ones or fresh blanks |
| Maps.CopyGrown | Map.h:50-62 | the reallocation copies entries `0..pTop-1` to the same indices of a fresh buffer, whose other slots are blank |
| Maps.Map.At | Map.h:149-182 | `operator[]`/`at`: the live entries become `Ensure(old, key, none)`; the result is the first index holding the key; a present key leaves the buffer, the count and the capacity unchanged |
| Maps.Map.Get | Map.h:293 | reading `at(key)` yields the key's old value, or the default for an absent key, which is then appended |
| Maps.Map.Emplace | Map.h:309-312 | the live entries become `Assign(old, key, value, none)`; capacity grows only when an absent key meets a full buffer |
| Maps.Map.Insert | Map.h:303-306 | the same as `emplace` for `pair.key` and `pair.value` |
| Maps.Map.GetBoth | Map.h:293-294 | the reads `at(key1)` and then `at(key2)` that begin `swap` return both old values and insert absent keys in that order |
| Maps.Map.Swap | Map.h:291-296 | the live entries become `Swapped(old, key1, key2, none)`; the capacity follows two lookups-or-inserts; the buffer is the old one or a fresh one |
| Maps.Map.Size | Map.h:189-192 | returns the capacity, which is at least the live count |
| Maps.Map.Top | Map.h:195-198 | returns the number of live entries |
| Maps.Map.IsEmpty | Map.h:201-204 | true exactly when there are no live entries |
| Maps.Map.Wrap | Map.h:207-224 | the capacity becomes the live count and the live entries are kept in order |
| Maps.Map.SetMaxIncrease | Map.h:228-231 | sets the cap and changes nothing else |
| Maps.Map.Begin | Map.h:238-241 | a cursor at index 0 |
| Maps.Map.End | Map.h:244-247 | a cursor at index `pTop`, with no entry under it |
| Maps.Map.Clear | Map.h:254-265 | on capacity 0 nothing changes; otherwise the count and capacity become 0, the map is empty and the buffer is a fresh one |
| Maps.Map.Remove | Map.h:268-288 | capacity unchanged; no-op at capacity 0; the count never grows; entries before the first match are kept; an absent key leaves the live entries alone; with distinct keys the live entries become `RemoveLive` and the rest of the buffer is blank |
| Maps.CopyRemoving | Map.h:272-287 | the copy loop of `remove` on a fresh buffer of the same capacity, with the effects listed for `Remove` |
| Maps.CopyLoop | Map.h:274-285 | the loop keeps `CopyState` and stops once the index passes the count |
| Maps.Map.RemoveIntended | Map.h:267 | corrected `remove`: the live entries become `Without(old, key)`, that is the first match dropped and the rest in order; the rest of the buffer is blank |
| Maps.Map.Find | Map.h:319-329 | a cursor at the first index holding the key, or at `pTop`; it shows an entry exactly when the key is present, and that entry holds the key |
| Maps.Map.Exists | Map.h:332-342 | true exactly when some live entry holds the key |
| Maps.Cursor.constructor | Map.h:86-91 | sets the index and takes the snapshot there |
| Maps.Cursor.Increment | Map.h:96-104 | the index grows by exactly one and the snapshot is refreshed |
| Maps.Cursor.Decrement | Map.h:106-114 | the index shrinks by exactly one and the snapshot is refreshed |

## Left out

- Memory management is not modelled: `new`/`delete`, the leaks and the destructor (Map.h:20, Map.h:134-141). A reallocation is a fresh `array` that the map then points to. The one-slot `new Pair` of a new or cleared map (capacity 0) is modelled as an empty array. `begin()`/`end()` on an empty map do read its slot `pArray[0]` (Map.h:82-83, 89-90, 240, 246); the model's cursor shows `None` there.
- `operator[]`/`at` return an index into `entries` instead of a `V&`, so a reference invalidated by a reallocation cannot be expressed.
- Maps.Map.Push: `unsigned int` arithmetic is modelled with unbounded naturals, so the wrap-around of `pSize * 2` and `pSize += newSize` is left out.
- Maps.Map.Push: requires `top < size || maxIncrease >= 1`. With a cap of 0 a full buffer does not grow and the write `pArray[pTop]` goes out of bounds. At, Get, Emplace, Insert, GetBoth and Swap require the cap to be at least 1, or no reallocation to be needed, which is exactly when they cannot reach that write.
- Fresh slots are indeterminate in C++: `= NULL` (Map.h:66) and `int temp` (Map.h:293) make `V` a scalar type, and `new Pair<K, V>[n]` leaves scalar members uninitialised. The model fixes them all to one value `blank` per map. So Maps.Map.Remove's `RemoveLive` result, Entries.RemoveLiveSpec's `blank.key != k` clause and the blank slot left in the live range by `remove` describe one possible outcome. A later scan in C++ reads whatever that slot holds.
- `NULL` for an arbitrary `V` becomes the constant `none`. The `int temp` in `swap` (Map.h:293) becomes a value of type `V`, so conversions to and from `int` are not modelled.
- Maps.Map.Swap follows C++17 evaluation order: in `at(key1) = at(key2)` the right side runs first. Under earlier standards the order is unspecified. If the left `at(key1)` ran first, a reallocation by `at(key2)` would leave its reference dangling.
- Maps.Map.Remove: the closed form `RemoveLive` is proved only when the live keys are pairwise distinct. With duplicate keys only the prefix, count and absent-key facts are stated. Distinct keys are not part of `Valid()`, because `remove` as written can leave a blank slot inside the live range, and its key may duplicate another.
- Maps.Cursor.Increment: where C++ reads `pArray[pIndex]` outside the live range (at `end()`, or after moving past either end), the snapshot is `None`, not whatever lies in memory there. Maps.Cursor.Decrement does the same.
- The one-argument `Iterator(Map&)` constructor is not modelled separately. It is the cursor at index 0, as `begin()` builds it.
- The iterator's `==`/`!=` (Map.h:116-126) are not modelled. They compare the pointed-at key and value rather than positions, which would need equality on `V`, and they read out of range at `end()`.
- Cursors are not tracked across changes to their map. After a change, a cursor keeps the snapshot it took, and its `Valid()` may no longer hold. Reallocation-based invalidation is therefore not modelled.

## Findings

| source | as written | input that shows it | evidently intended | confidence | as-written member | corrected member |
|---|---|---|---|---|---|---|
| Map.h:280-284 | a match before the next-to-last slot copies only the following entry down, then copies later entries to their old indices under a count one lower | `remove(1)` on [(1,10),(2,20),(3,30)] leaves [(2,20), blank]; key 3 is lost | [(2,20),(3,30)]: the entry removed, the rest moved down in order | not executed | Entries.RemoveLosesLastEntry | Maps.Map.RemoveIntended |
| Map.h:280 | a match in the last live slot is neither copied nor counted off, so `pTop` stays and the slot becomes blank | `remove(2)` on [(1,10),(2,20)] leaves [(1,10), blank] with count 2 | [(1,10)] with count 1 | not executed | Entries.RemoveKeepsCountForLastKey | Entries.WithoutSpec |
