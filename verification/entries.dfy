/**
 * The value-level view of `ml::Map`: the live entries `pArray[0..pTop)` as a sequence, and
 * the effect of each map operation on that sequence. The class in map.dfy is proved against
 * these functions; the lemmas here state what the operations promise.
 */
module Entries {

  /** One slot of the buffer: the C++ `Pair<K, V>`. */
  datatype Entry<K, V> = Entry(key: K, value: V)

  datatype Option<T> = None | Some(value: T)

  /** Some live entry holds key `k`. */
  predicate Has<K(==), V>(s: seq<Entry<K, V>>, k: K)
  {
    exists j :: 0 <= j < |s| && s[j].key == k
  }

  /** No key is held by two live entries. */
  predicate UniqueKeys<K(==), V>(s: seq<Entry<K, V>>)
  {
    forall i, j :: 0 <= i < j < |s| ==> s[i].key != s[j].key
  }

  /** The index of the first entry holding `k`, or `|s|` (the end position) when there is none. */
  function IndexOf<K(==), V>(s: seq<Entry<K, V>>, k: K): (i: nat)
    ensures i <= |s|
    ensures i < |s| <==> Has(s, k)
    ensures i < |s| ==> s[i].key == k
    ensures forall j :: 0 <= j < i ==> s[j].key != k
  {
    if s == [] then 0
    else if s[0].key == k then 0
    else 1 + IndexOf(s[1..], k)
  }

  /** The value `k` holds, or `d` when `k` is absent. */
  function ValueOf<K(==), V>(s: seq<Entry<K, V>>, k: K, d: V): V
  {
    var i := IndexOf(s, k);
    if i < |s| then s[i].value else d
  }

  /** `n` copies of the content of a freshly allocated slot. */
  function Blanks<K, V>(n: nat, blank: Entry<K, V>): seq<Entry<K, V>>
  {
    seq(n, _ => blank)
  }

  /**
   * The slots past the new live range after an operation that may have grown the buffer:
   * the old slots when the capacity is the same, fresh blanks after a reallocation.
   */
  function Tail<K, V>(before: seq<Entry<K, V>>, top: nat, size: nat, blank: Entry<K, V>): seq<Entry<K, V>>
    requires top <= size
  {
    if size == |before| then before[top..] else Blanks(size - top, blank)
  }

  /**
   * Two operations in a row, each leaving `Tail` past its live range, leave `Tail` of the
   * first buffer past the final live range (capacities never shrink).
   */
  lemma TailChain<K, V>(b0: seq<Entry<K, V>>, b1: seq<Entry<K, V>>, b2: seq<Entry<K, V>>,
                        t1: nat, t2: nat, blank: Entry<K, V>)
    requires t1 <= t2 <= |b2| && t1 <= |b1|
    requires |b0| <= |b1| <= |b2|
    requires b1[t1..] == Tail(b0, t1, |b1|, blank)
    requires b2[t2..] == Tail(b1, t2, |b2|, blank)
    ensures b2[t2..] == Tail(b0, t2, |b2|, blank)
  {
    if |b2| == |b1| {
      assert b2[t2..] == b1[t1..][t2 - t1..];
      if |b1| == |b0| {
        assert b1[t1..][t2 - t1..] == b0[t2..];
      } else {
        assert Blanks(|b1| - t1, blank)[t2 - t1..] == Blanks(|b2| - t2, blank);
      }
    }
  }

  /** The live entries after lookup-or-insert of `k`: unchanged if present, else `k` appended with `d`. */
  function Ensure<K(==), V>(s: seq<Entry<K, V>>, k: K, d: V): seq<Entry<K, V>>
  {
    if Has(s, k) then s else s + [Entry(k, d)]
  }

  /** The live entries after `at(k) = v` (emplace, insert). */
  function Assign<K(==), V>(s: seq<Entry<K, V>>, k: K, v: V, d: V): seq<Entry<K, V>>
  {
    Ensure(s, k, d)[IndexOf(s, k) := Entry(k, v)]
  }

  /**
   * The live entries after `swap(k1, k2)`: both keys are looked up or inserted (k1 first),
   * then k1 receives k2's old value and k2 receives k1's old value.
   */
  function Swapped<K(==), V>(s: seq<Entry<K, V>>, k1: K, k2: K, d: V): seq<Entry<K, V>>
  {
    var e := Ensure(Ensure(s, k1, d), k2, d);
    Assign(Assign(e, k1, ValueOf(s, k2, d), d), k2, ValueOf(s, k1, d), d)
  }

  /** Intended removal: the first entry holding `k` is dropped and the rest keep their order. */
  function Without<K(==), V>(s: seq<Entry<K, V>>, k: K): seq<Entry<K, V>>
  {
    var i := IndexOf(s, k);
    if i == |s| then s else s[..i] + s[i + 1..]
  }

  /**
   * The live entries `remove(k)` leaves behind when the keys are pairwise distinct. With the
   * match at index i: the last entry is blanked without shrinking the count; the next-to-last
   * is removed correctly; an earlier one is replaced by its successor, the slot after it is
   * left blank, and the old last entry drops out of the (one shorter) live range.
   */
  function RemoveLive<K(==), V>(s: seq<Entry<K, V>>, k: K, blank: Entry<K, V>): seq<Entry<K, V>>
  {
    var i := IndexOf(s, k);
    if i == |s| then s
    else if i == |s| - 1 then s[..i] + [blank]
    else if i == |s| - 2 then s[..i] + [s[i + 1]]
    else s[..i] + [s[i + 1], blank] + s[i + 2..|s| - 1]
  }

  // ---------------------------------------------------------------------------------------
  // Lookup

  /** The first-match index is determined by its defining properties. */
  lemma IndexOfIsFirst<K, V>(s: seq<Entry<K, V>>, k: K, i: nat)
    requires i <= |s|
    requires i < |s| ==> s[i].key == k
    requires forall j :: 0 <= j < i ==> s[j].key != k
    ensures IndexOf(s, k) == i
  {
  }

  /** Sequences with the same keys, slot by slot, have the same first-match indices. */
  lemma IndexOfSameKeys<K, V>(a: seq<Entry<K, V>>, b: seq<Entry<K, V>>, k: K)
    requires |a| == |b|
    requires forall j :: 0 <= j < |a| ==> a[j].key == b[j].key
    ensures IndexOf(a, k) == IndexOf(b, k)
  {
    IndexOfIsFirst(b, k, IndexOf(a, k));
  }

  /** Appending entries does not move a key that is already present. */
  lemma IndexOfAppend<K, V>(s: seq<Entry<K, V>>, t: seq<Entry<K, V>>, k: K)
    ensures IndexOf(s + t, k) == if Has(s, k) then IndexOf(s, k) else |s| + IndexOf(t, k)
  {
    var u := s + t;
    if Has(s, k) {
      IndexOfIsFirst(u, k, IndexOf(s, k));
    } else {
      var i := |s| + IndexOf(t, k);
      assert forall j :: 0 <= j < |s| ==> u[j] == s[j];
      assert forall j :: |s| <= j < i ==> u[j] == t[j - |s|];
      IndexOfIsFirst(u, k, i);
    }
  }

  /** With distinct keys, the entry at index j is the one found for its key. */
  lemma {:induction false} UniqueIndex<K, V>(s: seq<Entry<K, V>>, j: nat)
    requires UniqueKeys(s)
    requires j < |s|
    ensures IndexOf(s, s[j].key) == j
  {
    IndexOfIsFirst(s, s[j].key, j);
  }

  /**
   * Lookup-or-insert: afterwards the key is present at the index the lookup reports (its old
   * index, or the old end when it was appended); the old entries keep their slots, no other
   * key's value changes, and distinct keys stay distinct.
   */
  lemma EnsureSpec<K, V>(s: seq<Entry<K, V>>, k: K, d: V)
    ensures Has(Ensure(s, k, d), k)
    ensures IndexOf(Ensure(s, k, d), k) == IndexOf(s, k)
    ensures |Ensure(s, k, d)| == if Has(s, k) then |s| else |s| + 1
    ensures Ensure(s, k, d)[..|s|] == s
    ensures !Has(s, k) ==> Ensure(s, k, d)[|s|] == Entry(k, d)
    ensures ValueOf(Ensure(s, k, d), k, d) == ValueOf(s, k, d)
    ensures forall k' :: ValueOf(Ensure(s, k, d), k', d) == ValueOf(s, k', d)
    ensures UniqueKeys(s) ==> UniqueKeys(Ensure(s, k, d))
  {
    var r := Ensure(s, k, d);
    if !Has(s, k) {
      assert r[|s|].key == k;
      forall k' ensures ValueOf(r, k', d) == ValueOf(s, k', d) {
        IndexOfAppend(s, [Entry(k, d)], k');
      }
    }
  }

  // ---------------------------------------------------------------------------------------
  // emplace / insert

  /** Lookup-or-insert of one key never loses another. */
  lemma EnsureKeeps<K, V>(s: seq<Entry<K, V>>, k: K, d: V, other: K)
    requires Has(s, other)
    ensures Has(Ensure(s, k, d), other)
  {
    var j := IndexOf(s, other);
    assert Ensure(s, k, d)[j] == s[j];
  }

  /**
   * `at(k) = v`: afterwards `k` is present with value `v`, at its old index or appended at the
   * end; every other entry keeps its slot and content, every other key its value, and
   * distinct keys stay distinct.
   */
  lemma AssignSpec<K, V>(s: seq<Entry<K, V>>, k: K, v: V, d: V)
    ensures Has(Assign(s, k, v, d), k)
    ensures IndexOf(Assign(s, k, v, d), k) == IndexOf(s, k)
    ensures ValueOf(Assign(s, k, v, d), k, d) == v
    ensures |Assign(s, k, v, d)| == |Ensure(s, k, d)|
    ensures forall j :: 0 <= j < |s| && j != IndexOf(s, k) ==> Assign(s, k, v, d)[j] == s[j]
    ensures forall k' :: k' != k ==> ValueOf(Assign(s, k, v, d), k', d) == ValueOf(s, k', d)
    ensures UniqueKeys(s) ==> UniqueKeys(Assign(s, k, v, d))
  {
    EnsureSpec(s, k, d);
    var e := Ensure(s, k, d);
    var r := Assign(s, k, v, d);
    var i := IndexOf(s, k);
    assert forall j :: 0 <= j < |r| ==> r[j].key == e[j].key;
    IndexOfSameKeys(r, e, k);
    forall k' | k' != k
      ensures ValueOf(r, k', d) == ValueOf(s, k', d)
    {
      IndexOfSameKeys(r, e, k');
    }
  }

  // ---------------------------------------------------------------------------------------
  // swap

  /** Assigning one key's value never loses another key. */
  lemma AssignKeeps<K, V>(s: seq<Entry<K, V>>, k: K, v: V, d: V, other: K)
    requires Has(s, other)
    ensures Has(Assign(s, k, v, d), other)
  {
    EnsureKeeps(s, k, d, other);
    var e := Ensure(s, k, d);
    var j := IndexOf(e, other);
    assert Assign(s, k, v, d)[j].key == other;
  }

  /**
   * `swap(k1, k2)`: both keys end up present, k1 holding k2's old value and k2 holding k1's
   * old value (an absent key counting as the default), and every other key keeps its value.
   */
  lemma SwapSpec<K, V>(s: seq<Entry<K, V>>, k1: K, k2: K, d: V)
    ensures Has(Swapped(s, k1, k2, d), k1) && Has(Swapped(s, k1, k2, d), k2)
    ensures ValueOf(Swapped(s, k1, k2, d), k1, d) == ValueOf(s, k2, d)
    ensures ValueOf(Swapped(s, k1, k2, d), k2, d) == ValueOf(s, k1, d)
    ensures forall k' :: k' != k1 && k' != k2 ==> ValueOf(Swapped(s, k1, k2, d), k', d) == ValueOf(s, k', d)
  {
    var v1, v2 := ValueOf(s, k1, d), ValueOf(s, k2, d);
    var e1 := Ensure(s, k1, d);
    var e := Ensure(e1, k2, d);
    EnsureSpec(s, k1, d);
    EnsureSpec(e1, k2, d);
    var a := Assign(e, k1, v2, d);
    AssignSpec(e, k1, v2, d);
    AssignSpec(a, k2, v1, d);
    AssignKeeps(e, k1, v2, d, k2);
  }

  /** `swap(k, k)` changes no value. */
  lemma SwapSameKey<K, V>(s: seq<Entry<K, V>>, k: K, d: V)
    ensures forall k' :: ValueOf(Swapped(s, k, k, d), k', d) == ValueOf(s, k', d)
  {
    SwapSpec(s, k, k, d);
    EnsureSpec(s, k, d);
  }

  /** An entry holding neither key keeps its slot and its content. */
  lemma SwapKeepsEntry<K, V>(s: seq<Entry<K, V>>, k1: K, k2: K, d: V, j: nat)
    requires j < |s| && s[j].key != k1 && s[j].key != k2
    ensures j < |Swapped(s, k1, k2, d)| && Swapped(s, k1, k2, d)[j] == s[j]
  {
    var v1, v2 := ValueOf(s, k1, d), ValueOf(s, k2, d);
    var e1 := Ensure(s, k1, d);
    var e := Ensure(e1, k2, d);
    EnsureSpec(s, k1, d);
    EnsureSpec(e1, k2, d);
    assert e1[j] == s[j];
    assert e[j] == s[j];
    var a := Assign(e, k1, v2, d);
    AssignSpec(e, k1, v2, d);
    assert a[j] == e[j];
    AssignSpec(a, k2, v1, d);
  }

  /** Swapping keeps distinct keys distinct. */
  lemma SwapUnique<K, V>(s: seq<Entry<K, V>>, k1: K, k2: K, d: V)
    requires UniqueKeys(s)
    ensures UniqueKeys(Swapped(s, k1, k2, d))
  {
    var e1 := Ensure(s, k1, d);
    var e := Ensure(e1, k2, d);
    EnsureSpec(s, k1, d);
    EnsureSpec(e1, k2, d);
    AssignSpec(e, k1, ValueOf(s, k2, d), d);
    AssignSpec(Assign(e, k1, ValueOf(s, k2, d), d), k2, ValueOf(s, k1, d), d);
  }

  // ---------------------------------------------------------------------------------------
  // remove

  /** The shape of `Without` on any sequence: one entry shorter when the key is present, and
   *  every entry before the first match kept in place, every one after it shifted down. */
  lemma WithoutShape<K, V>(s: seq<Entry<K, V>>, k: K)
    ensures |Without(s, k)| == if Has(s, k) then |s| - 1 else |s|
    ensures forall j :: 0 <= j < IndexOf(s, k) ==> Without(s, k)[j] == s[j]
    ensures forall j :: IndexOf(s, k) <= j < |Without(s, k)| ==> Without(s, k)[j] == s[j + 1]
  {
    var i := IndexOf(s, k);
    if i < |s| {
      var front, back := s[..i], s[i + 1..];
      assert Without(s, k) == front + back;
      forall j | 0 <= j < i
        ensures (front + back)[j] == s[j]
      {
      }
      forall j | i <= j < |s| - 1
        ensures (front + back)[j] == s[j + 1]
      {
        assert (front + back)[j] == back[j - i];
      }
    }
  }

  /**
   * Intended removal on distinct keys: afterwards `k` is absent, the keys stay distinct, and
   * every other key keeps its presence and value.
   */
  lemma WithoutSpec<K, V>(s: seq<Entry<K, V>>, k: K, d: V)
    requires UniqueKeys(s)
    ensures !Has(Without(s, k), k)
    ensures UniqueKeys(Without(s, k))
    ensures forall k' :: k' != k ==> (Has(Without(s, k), k') <==> Has(s, k'))
    ensures forall k' :: k' != k ==> ValueOf(Without(s, k), k', d) == ValueOf(s, k', d)
  {
    var i := IndexOf(s, k);
    var r := Without(s, k);
    WithoutShape(s, k);
    if i < |s| {
      forall k' | k' != k
        ensures (Has(r, k') <==> Has(s, k')) && ValueOf(r, k', d) == ValueOf(s, k', d)
      {
        if Has(s, k') {
          var p := IndexOf(s, k');
          assert p != i;
          var q := if p < i then p else p - 1;
          assert r[q] == s[p];
          UniqueIndex(r, q);
        }
      }
    }
  }

  /**
   * What `remove` as written does guarantee with distinct keys: the count drops by at most
   * one, entries before the match are kept, an absent key changes nothing, and the key is
   * gone afterwards unless a blank slot happens to carry it. The count stays the same
   * exactly when the key is absent or held by the last entry.
   */
  lemma RemoveLiveSpec<K, V>(s: seq<Entry<K, V>>, k: K, blank: Entry<K, V>)
    requires UniqueKeys(s)
    ensures |s| - 1 <= |RemoveLive(s, k, blank)| <= |s|
    ensures |RemoveLive(s, k, blank)| == |s| <==> !Has(s, k) || IndexOf(s, k) == |s| - 1
    ensures RemoveLive(s, k, blank)[..IndexOf(s, k)] == s[..IndexOf(s, k)]
    ensures !Has(s, k) ==> RemoveLive(s, k, blank) == s
    ensures blank.key != k ==> !Has(RemoveLive(s, k, blank), k)
  {
    var i := IndexOf(s, k);
    var r := RemoveLive(s, k, blank);
    if i < |s| && blank.key != k {
      forall j | 0 <= j < |r| ensures r[j].key != k {
        if j < i {
          assert r[j] == s[j];
        } else if j == i && i < |s| - 1 {
          assert r[j] == s[i + 1];
        } else if i + 1 < j {
          assert r[j] == s[j];
        }
      }
    }
  }

  /** `RemoveLive`, slot by slot, when the match is before the last entry. */
  lemma RemoveLiveAt<K, V>(s: seq<Entry<K, V>>, k: K, blank: Entry<K, V>, j: nat)
    requires IndexOf(s, k) < |s| - 1 && j < |s| - 1
    ensures |RemoveLive(s, k, blank)| == |s| - 1
    ensures RemoveLive(s, k, blank)[j] ==
              var i := IndexOf(s, k);
              if j < i then s[j] else if j == i then s[i + 1] else if j == i + 1 then blank else s[j]
  {
  }

  /**
   * With distinct keys and a blank key that no entry holds, `remove` as written agrees with
   * the intended removal exactly when the key is absent or held by the next-to-last entry.
   */
  lemma RemoveLiveIsIntendedIff<K, V>(s: seq<Entry<K, V>>, k: K, blank: Entry<K, V>)
    requires UniqueKeys(s)
    requires !Has(s, blank.key)
    ensures RemoveLive(s, k, blank) == Without(s, k) <==> !Has(s, k) || IndexOf(s, k) == |s| - 2
  {
    var i := IndexOf(s, k);
    var r, w := RemoveLive(s, k, blank), Without(s, k);
    if i == |s| - 2 {
      assert r == w;
    } else if i == |s| - 1 {
      assert |r| != |w|;
    } else if i < |s| - 2 {
      assert r[i + 1] == blank;
      assert w[i + 1] == s[i + 2];
    }
  }

  /**
   * `remove` on [(1,10), (2,20), (3,30)] with key 1: the live range becomes [(2,20), blank],
   * so key 3 is lost, where the intended result is [(2,20), (3,30)].
   */
  lemma RemoveLosesLastEntry()
    ensures var s := [Entry(1, 10), Entry(2, 20), Entry(3, 30)];
            && RemoveLive(s, 1, Entry(0, 0)) == [Entry(2, 20), Entry(0, 0)]
            && Without(s, 1) == [Entry(2, 20), Entry(3, 30)]
            && !Has(RemoveLive(s, 1, Entry(0, 0)), 3)
  {
    var s := [Entry(1, 10), Entry(2, 20), Entry(3, 30)];
    assert IndexOf(s, 1) == 0;
    var r := RemoveLive(s, 1, Entry(0, 0));
    assert r == [Entry(2, 20), Entry(0, 0)];
    assert r[0].key != 3 && r[1].key != 3;
  }

  /**
   * `remove` on [(1,10), (2,20)] with key 2 (the last entry): the count stays 2 and the last
   * slot becomes blank, where the intended result is [(1,10)].
   */
  lemma RemoveKeepsCountForLastKey()
    ensures var s := [Entry(1, 10), Entry(2, 20)];
            && RemoveLive(s, 2, Entry(0, 0)) == [Entry(1, 10), Entry(0, 0)]
            && Without(s, 2) == [Entry(1, 10)]
  {
    var s := [Entry(1, 10), Entry(2, 20)];
    assert IndexOf(s, 2) == 1 by {
      IndexOfIsFirst(s, 2, 1);
    }
  }
}
