/**
 * The copy loop of `remove` (Map.h:274-285), stated on sequences: `buf` is the new buffer,
 * `t` the live count the loop decrements, `idx` the loop index, `s` the old live entries.
 * `CopyState` is the loop invariant; `CopyKeep`, `CopySkip` and `CopyLast` show that each branch of one iteration keeps it and `CopyExit`
 * reads off the result. The facts that hold only when the keys are pairwise distinct are
 * guarded by `unique`, which the caller sets to `UniqueKeys(s)`.
 */
module RemoveCopy {
  import opened Entries

  ghost predicate CopyState<K, V>(s: seq<Entry<K, V>>, k: K, blank: Entry<K, V>, unique: bool,
                                  buf: seq<Entry<K, V>>, t: nat, idx: nat)
  {
    var n, i := |s|, IndexOf(s, k);
    && n <= |buf| && t <= n && idx <= t + 1
    && (idx == t + 1 ==> t < |buf| && buf[t] == blank)
    && (i < idx ==> i < n)
    && (idx <= i ==> t == n && idx <= n)
    && (forall j :: 0 <= j < idx && j < i ==> buf[j] == s[j])
    && (forall j :: idx <= j < |buf| ==> buf[j] == blank)
    && (unique && i < idx && i == n - 1 ==> t == n && buf[i] == blank)
    && (unique && i < idx && i < n - 1 ==>
          && t == n - 1 && i + 2 <= idx && buf[i] == s[i + 1] && buf[i + 1] == blank
          && forall j :: i + 2 <= j < idx ==> buf[j] == s[j])
  }

  /** An iteration at an entry not holding the key copies it to the same index. */
  lemma CopyKeep<K, V>(s: seq<Entry<K, V>>, k: K, blank: Entry<K, V>, unique: bool,
                       buf: seq<Entry<K, V>>, t: nat, idx: nat)
    requires unique ==> UniqueKeys(s)
    requires CopyState(s, k, blank, unique, buf, t, idx) && idx < t && s[idx].key != k
    ensures CopyState(s, k, blank, unique, buf[idx := s[idx]], t, idx + 1)
  {
    var n, i := |s|, IndexOf(s, k);
    var buf' := buf[idx := s[idx]];
    assert idx != i;
    if unique && i < idx && i < n - 1 {
      assert forall j :: i + 2 <= j < idx + 1 ==> buf'[j] == s[j];
    }
  }

  /**
   * An iteration at a match that is not the last live entry copies the next entry into the
   * match's slot, skips an index and drops the count by one.
   */
  lemma CopySkip<K, V>(s: seq<Entry<K, V>>, k: K, blank: Entry<K, V>, unique: bool,
                       buf: seq<Entry<K, V>>, t: nat, idx: nat)
    requires unique ==> UniqueKeys(s)
    requires CopyState(s, k, blank, unique, buf, t, idx) && idx + 1 < t && s[idx].key == k
    ensures CopyState(s, k, blank, unique, buf[idx := s[idx + 1]], t - 1, idx + 2)
  {
    assert IndexOf(s, k) <= idx;
    if unique {
      assert IndexOf(s, k) == idx;
    }
  }

  /** An iteration at a match in the last live slot copies nothing. */
  lemma CopyLast<K, V>(s: seq<Entry<K, V>>, k: K, blank: Entry<K, V>, unique: bool,
                       buf: seq<Entry<K, V>>, t: nat, idx: nat)
    requires unique ==> UniqueKeys(s)
    requires CopyState(s, k, blank, unique, buf, t, idx) && idx + 1 == t && s[idx].key == k
    ensures CopyState(s, k, blank, unique, buf, t, idx + 1)
  {
    assert IndexOf(s, k) <= idx;
    if unique {
      assert IndexOf(s, k) == idx;
    }
  }

  /**
   * Where the loop ends: the slots before the first match are copied, and an absent key
   * leaves the live entries as they were.
   */
  lemma CopyExit<K, V>(s: seq<Entry<K, V>>, k: K, blank: Entry<K, V>, unique: bool,
                       buf: seq<Entry<K, V>>, t: nat, idx: nat)
    requires CopyState(s, k, blank, unique, buf, t, idx) && t <= idx
    ensures IndexOf(s, k) <= |buf| && buf[..IndexOf(s, k)] == s[..IndexOf(s, k)]
    ensures !Has(s, k) ==> t == |s| && buf[..t] == s
  {
    var i := IndexOf(s, k);
    assert forall j :: 0 <= j < i ==> buf[j] == s[j];
  }

  /** Where the loop ends, with distinct keys: the live range is `RemoveLive`, the rest blank. */
  lemma CopyExitUnique<K, V>(s: seq<Entry<K, V>>, k: K, blank: Entry<K, V>,
                             buf: seq<Entry<K, V>>, t: nat, idx: nat)
    requires CopyState(s, k, blank, true, buf, t, idx) && t <= idx
    ensures buf[..t] == RemoveLive(s, k, blank)
    ensures buf[t..] == Blanks(|buf| - t, blank)
  {
    var n, i := |s|, IndexOf(s, k);
    assert forall j :: t <= j < |buf| ==> buf[j] == blank;
    var r := RemoveLive(s, k, blank);
    if i == n {
      assert buf[..t] == s;
    } else if i == n - 1 {
      assert buf[..t] == s[..i] + [blank];
    } else {
      forall j | 0 <= j < t
        ensures buf[j] == r[j]
      {
        RemoveLiveAt(s, k, blank, j);
      }
    }
  }
}
