/**
 * `ml::Map<K, V>`: an insertion-ordered associative array kept in one growable buffer and
 * searched by linear scan. The buffer `entries` has `size` slots (`pSize`), of which the first
 * `top` (`pTop`) are live; `maxIncrease` (`pMaxIncrease`) caps each growth step.
 *
 * Two constants stand for what C++ leaves implicit: `none` is the value a new entry receives
 * (`NULL` at Map.h:66), and `blank` stands for the content of a slot of a freshly allocated
 * buffer (`new Pair<K, V>[n]`), which C++ leaves indeterminate for scalar types; the model
 * fixes one such value per map.
 */
module Maps {
  import opened Entries
  import opened Growth
  import opened RemoveCopy

  class Map<K(==), V> {
    var entries: array<Entry<K, V>>
    var size: nat
    var top: nat
    var maxIncrease: nat
    const none: V
    const blank: Entry<K, V>

    /** The buffer has exactly `size` slots and the live range fits in it. */
    ghost predicate Valid()
      reads this
    {
      entries.Length == size && top <= size
    }

    /** The live entries `pArray[0..pTop)`, in storage (= iteration) order. */
    ghost function Live(): seq<Entry<K, V>>
      reads this, entries
      requires Valid()
    {
      entries[..top]
    }

    /** The cursor snapshot at index `i`: the live entry there, or None outside the live range. */
    function EntryAt(i: int): (e: Option<Entry<K, V>>)
      reads this, entries
      requires Valid()
      ensures e.Some? <==> 0 <= i < top
    {
      if 0 <= i < top then Some(entries[i]) else None
    }

    constructor (none: V, blank: Entry<K, V>)
      ensures Valid() && fresh(entries)
      ensures Live() == [] && size == 0 && maxIncrease == DefaultMaxIncrease
      ensures this.none == none && this.blank == blank
    {
      this.none := none;
      this.blank := blank;
      entries := new Entry<K, V>[0](_ => blank);
      size, top := 0, 0;
      maxIncrease := DefaultMaxIncrease;
    }

    /**
     * The scan shared by `operator[]`, `at`, `find` and `exists`: the index of the first live
     * entry holding `key`, or `top` when there is none.
     */
    method Scan(key: K) returns (idx: nat)
      requires Valid()
      ensures idx == IndexOf(Live(), key)
    {
      idx := 0;
      while idx < top
        invariant idx <= top
        invariant forall j :: 0 <= j < idx ==> entries[j].key != key
      {
        if entries[idx].key == key {
          IndexOfIsFirst(Live(), key, idx);
          return;
        }
        idx := idx + 1;
      }
      IndexOfIsFirst(Live(), key, idx);
    }

    /**
     * Appends `key` with the default value, first reallocating a full buffer to
     * `Grown(size, maxIncrease)` slots and copying the live entries over in order.
     */
    method Push(key: K)
      requires Valid()
      requires top < size || maxIncrease >= 1
      modifies this, entries
      ensures Valid() && maxIncrease == old(maxIncrease)
      ensures Live() == old(Live()) + [Entry(key, none)]
      ensures size == CapacityAfterPush(old(size), old(top), maxIncrease)
      ensures entries[top..] == Tail(old(entries[..]), top, size, blank)
      ensures old(top) == old(size) ==> fresh(entries)
      ensures old(top) < old(size) ==> entries == old(entries)
    {
      if top == size {
        var increase := if size == 0 then 1 else size * 2;
        if increase > maxIncrease {
          increase := maxIncrease;
        }
        size := size + increase;
        var temp := CopyGrown(entries, top, size, blank);
        entries := temp;
      }
      entries[top] := Entry(key, none);
      top := top + 1;
    }

    /**
     * `operator[]` and `at` (identical code): the index of `key`'s entry, appending the key
     * with the default value when it is absent. The result is an index into `entries` where
     * C++ returns a reference to the value.
     */
    method At(key: K) returns (idx: nat)
      requires Valid()
      requires maxIncrease >= 1 || |Ensure(Live(), key, none)| <= size
      modifies this, entries
      ensures Valid() && maxIncrease == old(maxIncrease)
      ensures Live() == Ensure(old(Live()), key, none)
      ensures idx == IndexOf(old(Live()), key) && idx < top && entries[idx].key == key
      ensures size == if Has(old(Live()), key) then old(size) else CapacityAfterPush(old(size), old(top), maxIncrease)
      ensures entries[top..] == Tail(old(entries[..]), top, size, blank)
      ensures Has(old(Live()), key) ==> entries == old(entries)
      ensures entries == old(entries) || fresh(entries)
    {
      ghost var s := Live();
      if size > 0 {
        idx := Scan(key);
        if idx < top {
          return;
        }
      }
      assert !Has(s, key);
      Push(key);
      idx := top - 1;
    }

    /** `at(key)` read as a value: the key's value, or `none` after appending an absent key. */
    method Get(key: K) returns (value: V)
      requires Valid()
      requires maxIncrease >= 1 || |Ensure(Live(), key, none)| <= size
      modifies this, entries
      ensures Valid() && maxIncrease == old(maxIncrease)
      ensures Live() == Ensure(old(Live()), key, none)
      ensures value == ValueOf(old(Live()), key, none)
      ensures size == if Has(old(Live()), key) then old(size) else CapacityAfterPush(old(size), old(top), maxIncrease)
      ensures entries[top..] == Tail(old(entries[..]), top, size, blank)
      ensures entries == old(entries) || fresh(entries)
    {
      EnsureSpec(Live(), key, none);
      var idx := At(key);
      value := entries[idx].value;
    }

    /** `emplace(key, value)`: `at(key) = value`. */
    method Emplace(key: K, value: V)
      requires Valid()
      requires maxIncrease >= 1 || |Ensure(Live(), key, none)| <= size
      modifies this, entries
      ensures Valid() && maxIncrease == old(maxIncrease)
      ensures Live() == Assign(old(Live()), key, value, none)
      ensures size == if Has(old(Live()), key) then old(size) else CapacityAfterPush(old(size), old(top), maxIncrease)
      ensures entries[top..] == Tail(old(entries[..]), top, size, blank)
      ensures entries == old(entries) || fresh(entries)
      ensures Has(old(Live()), key) ==> entries == old(entries) && top == old(top) && entries[top..] == old(entries[top..])
    {
      var idx := At(key);
      entries[idx] := entries[idx].(value := value);
    }

    /** `insert(pair)`: `at(pair.key) = pair.value`. */
    method Insert(pair: Entry<K, V>)
      requires Valid()
      requires maxIncrease >= 1 || |Ensure(Live(), pair.key, none)| <= size
      modifies this, entries
      ensures Valid() && maxIncrease == old(maxIncrease)
      ensures Live() == Assign(old(Live()), pair.key, pair.value, none)
      ensures size == if Has(old(Live()), pair.key) then old(size) else CapacityAfterPush(old(size), old(top), maxIncrease)
      ensures entries[top..] == Tail(old(entries[..]), top, size, blank)
      ensures entries == old(entries) || fresh(entries)
    {
      var idx := At(pair.key);
      entries[idx] := entries[idx].(value := pair.value);
    }

    /**
     * The two reads `swap` begins with: `at(key1)`, then `at(key2)`, each inserting its key
     * with the default value when absent; the results are the keys' old values.
     */
    method GetBoth(key1: K, key2: K) returns (value1: V, value2: V)
      requires Valid()
      requires maxIncrease >= 1 || |Ensure(Ensure(Live(), key1, none), key2, none)| <= size
      modifies this, entries
      ensures Valid() && maxIncrease == old(maxIncrease)
      ensures Live() == Ensure(Ensure(old(Live()), key1, none), key2, none)
      ensures value1 == ValueOf(old(Live()), key1, none) && value2 == ValueOf(old(Live()), key2, none)
      ensures var grown1 := if Has(old(Live()), key1) then old(size) else CapacityAfterPush(old(size), old(top), maxIncrease);
              var e1 := Ensure(old(Live()), key1, none);
              size == if Has(e1, key2) then grown1 else CapacityAfterPush(grown1, |e1|, maxIncrease)
      ensures entries[top..] == Tail(old(entries[..]), top, size, blank)
      ensures entries == old(entries) || fresh(entries)
    {
      ghost var s, b0 := Live(), entries[..];
      EnsureSpec(s, key1, none);
      value1 := Get(key1);
      ghost var b1, t1 := entries[..], top;
      assert |b0| <= |b1| && b1[t1..] == Tail(b0, t1, |b1|, blank);
      value2 := Get(key2);
      ghost var b2, t2 := entries[..], top;
      assert t1 <= t2 && |b1| <= |b2| && b2[t2..] == Tail(b1, t2, |b2|, blank);
      TailChain(b0, b1, b2, t1, t2, blank);
    }

    /**
     * `swap(key1, key2)`: looks up (or inserts) both keys and exchanges their values through
     * a temporary.
     */
    method Swap(key1: K, key2: K)
      requires Valid()
      requires maxIncrease >= 1 || |Ensure(Ensure(Live(), key1, none), key2, none)| <= size
      modifies this, entries
      ensures Valid() && maxIncrease == old(maxIncrease)
      ensures Live() == Swapped(old(Live()), key1, key2, none)
      ensures var grown1 := if Has(old(Live()), key1) then old(size) else CapacityAfterPush(old(size), old(top), maxIncrease);
              var e1 := Ensure(old(Live()), key1, none);
              size == if Has(e1, key2) then grown1 else CapacityAfterPush(grown1, |e1|, maxIncrease)
      ensures entries[top..] == Tail(old(entries[..]), top, size, blank)
      ensures entries == old(entries) || fresh(entries)
    {
      ghost var s := Live();
      EnsureSpec(s, key1, none);
      EnsureSpec(Ensure(s, key1, none), key2, none);
      EnsureKeeps(Ensure(s, key1, none), key2, none, key1);
      var temp, value2 := GetBoth(key1, key2);
      ghost var e := Live();
      Emplace(key1, value2);
      AssignKeeps(e, key1, value2, none, key2);
      Emplace(key2, temp);
    }

    /** `size()`: the capacity `pSize`. */
    method Size() returns (n: nat)
      requires Valid()
      ensures n == size && n == entries.Length && n >= |Live()|
    {
      n := size;
    }

    /** `top()`: the number of live entries. */
    method Top() returns (n: nat)
      requires Valid()
      ensures n == |Live()|
    {
      n := top;
    }

    /** `isEmpty()`: no live entries. */
    method IsEmpty() returns (empty: bool)
      requires Valid()
      ensures empty <==> Live() == []
    {
      empty := top == 0;
    }

    /** `wrap()`: shrinks the buffer to exactly the live entries, keeping them in order. */
    method Wrap()
      requires Valid()
      modifies this
      ensures Valid() && maxIncrease == old(maxIncrease) && fresh(entries)
      ensures size == top == old(top)
      ensures entries[..] == Live() == old(Live())
    {
      size := top;
      var temp := new Entry<K, V>[size](_ => blank);
      for idx := 0 to top
        modifies temp
        invariant forall j :: 0 <= j < idx ==> temp[j] == entries[j]
      {
        temp[idx] := entries[idx];
      }
      entries := temp;
    }

    /** `setMaxIncrease(n)`: changes the cap for later growths only. */
    method SetMaxIncrease(newIncrease: nat)
      modifies this`maxIncrease
      ensures maxIncrease == newIncrease
    {
      maxIncrease := newIncrease;
    }

    /** `begin()`: a cursor at index 0. */
    method Begin() returns (c: Cursor<K, V>)
      requires Valid()
      ensures fresh(c) && c.owner == this && c.index == 0 && c.Valid()
    {
      c := new Cursor(this, 0);
    }

    /** `end()`: a cursor at index `top`, one past the last live entry. */
    method End() returns (c: Cursor<K, V>)
      requires Valid()
      ensures fresh(c) && c.owner == this && c.index == |Live()| && c.Valid()
      ensures c.current == None
    {
      c := new Cursor(this, top);
    }

    /** `clear()`: a no-op on a map of capacity 0; otherwise drops every entry and the buffer. */
    method Clear()
      requires Valid()
      modifies this
      ensures Valid() && maxIncrease == old(maxIncrease)
      ensures Live() == [] && size == 0
      ensures old(size) == 0 ==> entries == old(entries)
      ensures old(size) > 0 ==> fresh(entries)
    {
      if size == 0 {
        return;
      }
      entries := new Entry<K, V>[0](_ => blank);
      top := 0;
      size := 0;
    }

    /**
     * `remove(key)` as written (Map.h:268-288). It copies into a fresh buffer of the same
     * capacity; at the first match that is not the last live entry it copies the NEXT entry
     * into the match's slot, skips one index and decrements the count, then goes on copying
     * later entries to their old indices. See `RemoveLive` for the resulting live range.
     */
    method Remove(key: K)
      requires Valid()
      modifies this
      ensures Valid() && size == old(size) && maxIncrease == old(maxIncrease)
      ensures old(size) == 0 ==> top == old(top) && entries == old(entries)
      ensures old(size) > 0 ==> fresh(entries)
      ensures top <= old(top)
      ensures entries[..IndexOf(old(Live()), key)] == old(Live())[..IndexOf(old(Live()), key)]
      ensures !Has(old(Live()), key) ==> Live() == old(Live())
      ensures UniqueKeys(old(Live())) ==>
                Live() == RemoveLive(old(Live()), key, blank) && entries[top..] == Blanks(size - top, blank)
    {
      if size == 0 {
        return;
      }
      var temp, t := CopyRemoving(entries, top, key, blank);
      top := t;
      entries := temp;
    }

    /**
     * The removal the comment at Map.h:267 describes: the matching entry is dropped, the
     * entries after it move down one slot in order, and the count drops by one.
     */
    method RemoveIntended(key: K)
      requires Valid()
      modifies this
      ensures Valid() && size == old(size) && maxIncrease == old(maxIncrease)
      ensures Live() == Without(old(Live()), key)
      ensures old(size) == 0 ==> entries == old(entries)
      ensures old(size) > 0 ==> fresh(entries) && entries[top..] == Blanks(size - top, blank)
    {
      if size == 0 {
        return;
      }
      var temp, newTop := Compacted(key);
      top := newTop;
      entries := temp;
    }

    /**
     * The copy `RemoveIntended` makes: a fresh buffer of the same capacity holding the live
     * entries without the first match, followed by blank slots; the map is left untouched.
     */
    method Compacted(key: K) returns (temp: array<Entry<K, V>>, newTop: nat)
      requires Valid()
      ensures fresh(temp) && temp.Length == size && newTop <= size
      ensures temp[..newTop] == Without(Live(), key)
      ensures temp[newTop..] == Blanks(size - newTop, blank)
    {
      var i := Scan(key);
      newTop := if i < top then top - 1 else top;
      temp := CopyWithout(entries, top, i, size, blank);
    }

    /**
     * `find(key)`: a cursor at the first live entry holding `key`, or the `end()` cursor
     * (index `top`) when there is none.
     */
    method Find(key: K) returns (c: Cursor<K, V>)
      requires Valid()
      ensures fresh(c) && c.owner == this && c.Valid()
      ensures c.index == IndexOf(Live(), key)
      ensures Has(Live(), key) <==> c.current.Some?
      ensures c.current.Some? ==> c.current.value.key == key
    {
      var idx := Scan(key);
      c := new Cursor(this, idx);
    }

    /** `exists(key)`: some live entry holds `key`. */
    method Exists(key: K) returns (found: bool)
      requires Valid()
      ensures found <==> exists j :: 0 <= j < |Live()| && Live()[j].key == key
    {
      var idx := Scan(key);
      found := idx < top;
    }
  }

  /**
   * The reallocation in `push` (Map.h:50-62): a fresh buffer of `capacity` slots holding the first
   * `n` entries of `source` at their old indices, followed by blank slots.
   */
  method CopyGrown<K, V>(source: array<Entry<K, V>>, n: nat, capacity: nat, blank: Entry<K, V>)
    returns (temp: array<Entry<K, V>>)
    requires n <= source.Length && n <= capacity
    ensures fresh(temp) && temp.Length == capacity
    ensures temp[..n] == source[..n] && temp[n..] == Blanks(capacity - n, blank)
  {
    temp := new Entry<K, V>[capacity](_ => blank);
    for idx := 0 to n
      invariant forall j :: 0 <= j < idx ==> temp[j] == source[j]
      invariant forall j :: idx <= j < capacity ==> temp[j] == blank
    {
      temp[idx] := source[idx];
    }
    assert temp[n..] == Blanks(capacity - n, blank);
  }

  /**
   * The copy loop of `remove` (Map.h:272-285): fills a fresh buffer with the capacity of
   * `source` from its first `n` entries and returns it with the new count. At the first match
   * that is not the last live entry it copies the NEXT entry into the match's slot, skips one
   * index and decrements the count, then goes on copying later entries to their old indices.
   */
  method CopyRemoving<K(==), V>(source: array<Entry<K, V>>, n: nat, key: K, blank: Entry<K, V>)
    returns (temp: array<Entry<K, V>>, t: nat)
    requires n <= source.Length
    ensures fresh(temp) && temp.Length == source.Length && t <= n
    ensures temp[..IndexOf(source[..n], key)] == source[..n][..IndexOf(source[..n], key)]
    ensures !Has(source[..n], key) ==> t == n && temp[..t] == source[..n]
    ensures UniqueKeys(source[..n]) ==>
              temp[..t] == RemoveLive(source[..n], key, blank) && temp[t..] == Blanks(source.Length - t, blank)
  {
    ghost var s := source[..n];
    ghost var unique := UniqueKeys(s);
    ghost var idx;
    temp, t, idx := CopyLoop(source, n, key, blank, unique);
    CopyExit(s, key, blank, unique, temp[..], t, idx);
    if unique {
      CopyExitUnique(s, key, blank, temp[..], t, idx);
    }
  }

  /** The loop itself, ending in the state `CopyState` describes once the index passes the count. */
  method CopyLoop<K(==), V>(source: array<Entry<K, V>>, n: nat, key: K, blank: Entry<K, V>, ghost unique: bool)
    returns (temp: array<Entry<K, V>>, t: nat, ghost end: nat)
    requires n <= source.Length
    requires unique ==> UniqueKeys(source[..n])
    ensures fresh(temp) && temp.Length == source.Length
    ensures CopyState(source[..n], key, blank, unique, temp[..], t, end) && t <= end
  {
    ghost var s := source[..n];
    temp := new Entry<K, V>[source.Length](_ => blank);
    t := n;
    var idx: nat := 0;
    while idx < t
      invariant CopyState(s, key, blank, unique, temp[..], t, idx)
      decreases t + 1 - idx
    {
      ghost var buf, t0, idx0 := temp[..], t, idx;
      if source[idx].key != key {
        temp[idx] := source[idx];
        CopyKeep(s, key, blank, unique, buf, t0, idx0);
      } else if idx != t - 1 {
        idx := idx + 1;
        t := t - 1;
        temp[idx - 1] := source[idx];
        CopySkip(s, key, blank, unique, buf, t0, idx0);
      } else {
        CopyLast(s, key, blank, unique, buf, t0, idx0);
      }
      idx := idx + 1;
    }
    end := idx;
  }

  /**
   * A fresh buffer of `capacity` slots holding the first `n` entries of `source` without the
   * one at `skip` (when `skip < n`), in order, followed by blank slots.
   */
  method CopyWithout<K, V>(source: array<Entry<K, V>>, n: nat, skip: nat, capacity: nat, blank: Entry<K, V>)
    returns (temp: array<Entry<K, V>>)
    requires n <= source.Length && n <= capacity && skip <= n
    ensures fresh(temp) && temp.Length == capacity
    ensures var kept := if skip < n then n - 1 else n;
            temp[..kept] == (if skip == n then source[..n] else source[..n][..skip] + source[..n][skip + 1..])
            && temp[kept..] == Blanks(capacity - kept, blank)
  {
    var kept := if skip < n then n - 1 else n;
    temp := new Entry<K, V>[capacity](_ => blank);
    for j := 0 to kept
      invariant forall m :: 0 <= m < j ==> temp[m] == source[if m < skip then m else m + 1]
      invariant forall m :: j <= m < capacity ==> temp[m] == blank
    {
      temp[j] := source[if j < skip then j else j + 1];
    }
    assert temp[..kept] == (if skip == n then source[..n] else source[..n][..skip] + source[..n][skip + 1..]);
    assert temp[kept..] == Blanks(capacity - kept, blank);
  }

  /**
   * The nested `Iterator`: an index into the owner's buffer plus the snapshot `first`/`second`
   * taken whenever the index is set. The snapshot is None where C++ would read outside the
   * live range.
   */
  class Cursor<K(==), V> {
    const owner: Map<K, V>
    var index: int
    var current: Option<Entry<K, V>>

    ghost predicate Valid()
      reads this, owner, owner.entries
    {
      owner.Valid() && current == owner.EntryAt(index)
    }

    constructor (owner: Map<K, V>, index: int)
      requires owner.Valid()
      ensures this.owner == owner && this.index == index && Valid()
    {
      this.owner := owner;
      this.index := index;
      current := owner.EntryAt(index);
    }

    /** `operator++`: moves to the next index and refreshes the snapshot. */
    method Increment()
      requires Valid()
      modifies this
      ensures Valid() && index == old(index) + 1
      ensures 0 <= index < owner.top ==> current == Some(owner.Live()[index])
    {
      index := index + 1;
      current := owner.EntryAt(index);
    }

    /** `operator--`: moves to the previous index and refreshes the snapshot. */
    method Decrement()
      requires Valid()
      modifies this
      ensures Valid() && index == old(index) - 1
      ensures 0 <= index < owner.top ==> current == Some(owner.Live()[index])
    {
      index := index - 1;
      current := owner.EntryAt(index);
    }
  }
}
