/**
 * The slot array of a probed hash table, seen as a value, and the
 * specification of `find`: follow the probe sequence from the key's home
 * bucket and stop at the first slot that is empty or holds the key.
 */
module Slots {
  import opened Wrappers
  import opened Stride

  /** Each slot is empty (`None`, Java's `null`) or holds a key/value pair. */
  type Slots<K, V> = seq<Option<(K, V)>>

  /** Number of occupied slots. */
  function Count<K, V>(s: Slots<K, V>): (c: nat)
    ensures c <= |s|
  {
    if |s| == 0 then 0
    else Count(s[..|s| - 1]) + (if s[|s| - 1].Some? then 1 else 0)
  }

  /** Some slot is empty. */
  ghost predicate HasRoom<K, V>(s: Slots<K, V>) {
    exists i :: 0 <= i < |s| && s[i].None?
  }

  /** The key/value pairs stored anywhere in the slots. */
  ghost function Entries<K, V>(s: Slots<K, V>): set<(K, V)> {
    set i | 0 <= i < |s| && s[i].Some? :: s[i].value
  }

  /** The keys stored anywhere in the slots. */
  ghost function Keys<K, V>(s: Slots<K, V>): set<K> {
    set i | 0 <= i < |s| && s[i].Some? :: s[i].value.0
  }

  /** No key is stored in two slots. */
  ghost predicate DistinctKeys<K, V>(s: Slots<K, V>) {
    forall i, j :: 0 <= i < |s| && 0 <= j < |s| && s[i].Some? && s[j].Some? && s[i].value.0 == s[j].value.0 ==> i == j
  }

  /** The home bucket of a key: `|hashCode| mod n`. */
  function Home<K>(hash: K -> nat, key: K, n: nat): (h: nat)
    requires n > 0
    ensures h < n
  {
    hash(key) % n
  }

  /** `find` stops at slot `p` when it is empty or holds `key`. */
  predicate StopsAt<K(==), V>(s: Slots<K, V>, key: K, p: nat)
    requires p < |s|
  {
    s[p].None? || s[p].value.0 == key
  }

  /** The first probe step at or after `j` at which `find` stops, or `|s|` if
      none of the steps `j .. |s|-1` does. */
  function FirstStop<K(==), V>(s: Slots<K, V>, key: K, start: nat, j: nat): (r: nat)
    requires |s| > 0 && j <= |s|
    ensures j <= r <= |s|
    ensures r < |s| ==> StopsAt(s, key, Slot(|s|, start, r))
    ensures forall i :: j <= i < r ==> !StopsAt(s, key, Slot(|s|, start, i))
    decreases |s| - j
  {
    if j == |s| then |s|
    else if StopsAt(s, key, Slot(|s|, start, j)) then j
    else FirstStop(s, key, start, j + 1)
  }

  /** The index `find(key)` returns. */
  function Locate<K(==), V>(s: Slots<K, V>, hash: K -> nat, key: K): (p: nat)
    requires |s| > 0
    ensures p < |s|
  {
    Slot(|s|, Home(hash, key, |s|), FirstStop(s, key, Home(hash, key, |s|), 0))
  }

  /** The value stored in the slot `find(key)` returns, if that slot is occupied. */
  function StoredValue<K(==), V>(s: Slots<K, V>, hash: K -> nat, key: K): (v: Option<V>)
    requires |s| > 0
    ensures Probeable(s) && v.Some? ==> (key, v.value) in Entries(s)
    ensures Probeable(s) && Coherent(s, hash) ==> (v.Some? <==> key in Keys(s))
  {
    LocateMeaning(s, hash, key);
    var e := s[Locate(s, hash, key)];
    if e.Some? then Some(e.value.1) else None
  }

  /** What the slot `find` returns holds: the key itself when `find`
      terminates, and exactly when the key is stored in a coherent table. */
  lemma LocateMeaning<K, V>(s: Slots<K, V>, hash: K -> nat, key: K)
    requires |s| > 0
    ensures Probeable(s) && s[Locate(s, hash, key)].Some? ==>
      s[Locate(s, hash, key)].value.0 == key && s[Locate(s, hash, key)].value in Entries(s)
    ensures Probeable(s) && Coherent(s, hash) ==> (s[Locate(s, hash, key)].Some? <==> key in Keys(s))
  {
    if Probeable(s) {
      LocateStops(s, hash, key);
      if Coherent(s, hash) {
        LookupCorrect(s, hash, key);
      }
    }
  }

  /** Writing a pair into one slot adds at most that pair. */
  lemma EntriesUpdate<K, V>(s: Slots<K, V>, p: nat, x: (K, V))
    requires p < |s|
    ensures Entries(s[p := Some(x)]) <= Entries(s) + {x}
  {
    var t := s[p := Some(x)];
    forall e | e in Entries(t) ensures e in Entries(s) + {x} {
      var j :| 0 <= j < |t| && t[j].Some? && t[j].value == e;
      if j != p {
        assert s[j] == t[j];
      }
    }
  }

  /** Slot `i` is empty or `find` reaches it for the key it holds. */
  ghost predicate FoundAt<K, V>(s: Slots<K, V>, hash: K -> nat, i: nat)
    requires 0 < |s| && i < |s|
  {
    s[i].Some? ==> Locate(s, hash, s[i].value.0) == i
  }

  /** Every stored key is found by `find` at its own slot. */
  ghost predicate Coherent<K, V>(s: Slots<K, V>, hash: K -> nat) {
    |s| > 0 &&
    forall i :: 0 <= i < |s| ==> FoundAt(s, hash, i)
  }

  /** The conditions under which `find` terminates: the length is not a
      multiple of the stride and some slot is empty. */
  ghost predicate Probeable<K, V>(s: Slots<K, V>) {
    |s| > 0 && |s| % PROBE_OFFSET != 0 && HasRoom(s)
  }

  /** Fewer occupied slots than slots leaves an empty one. */
  lemma {:induction false} CountRoom<K, V>(s: Slots<K, V>)
    requires Count(s) < |s|
    ensures HasRoom(s)
  {
    var m := |s| - 1;
    if s[m].Some? {
      CountRoom(s[..m]);
      var i :| 0 <= i < m && s[..m][i].None?;
      assert s[i].None?;
    } else {
      assert s[m].None?;
    }
  }

  /** Overwriting one slot changes the count by at most one, as the slot's
      occupancy changes. */
  lemma {:induction false} CountUpdate<K, V>(s: Slots<K, V>, p: nat, x: Option<(K, V)>)
    requires p < |s|
    ensures Count(s[p := x]) == Count(s) - (if s[p].Some? then 1 else 0) + (if x.Some? then 1 else 0)
  {
    var m := |s| - 1;
    var t := s[p := x];
    assert t[..m] == if p == m then s[..m] else s[..m][p := x];
    if p < m {
      CountUpdate(s[..m], p, x);
    }
  }

  /** Counting a prefix one slot longer. */
  lemma CountPrefix<K, V>(s: Slots<K, V>, i: nat)
    requires i < |s|
    ensures Count(s[..i + 1]) == Count(s[..i]) + (if s[i].Some? then 1 else 0)
  {
    assert s[..i + 1][..i] == s[..i];
  }

  /** A prefix holds no more entries than the whole. */
  lemma {:induction false} CountPrefixBound<K, V>(s: Slots<K, V>, i: nat)
    requires i <= |s|
    ensures Count(s[..i]) <= Count(s)
    decreases |s| - i
  {
    if i < |s| {
      CountPrefix(s, i);
      CountPrefixBound(s, i + 1);
    } else {
      assert s[..i] == s;
    }
  }

  /** An all-empty slot array of length `n`. */
  function EmptySlots<K, V>(n: nat): (s: Slots<K, V>)
    ensures |s| == n && forall i :: 0 <= i < n ==> s[i].None?
  {
    seq(n, _ => None)
  }

  /** An all-empty slot array holds nothing. */
  lemma {:induction false} CountEmpty<K, V>(n: nat)
    ensures Count(EmptySlots<K, V>(n)) == 0
  {
    if n > 0 {
      assert EmptySlots<K, V>(n)[..n - 1] == EmptySlots<K, V>(n - 1);
      CountEmpty<K, V>(n - 1);
    }
  }

  /** `find` terminates within `|s|` steps: it stops at an empty slot or at
      the key's own slot. */
  lemma LocateStops<K, V>(s: Slots<K, V>, hash: K -> nat, key: K)
    requires Probeable(s)
    ensures FirstStop(s, key, Home(hash, key, |s|), 0) < |s|
    ensures StopsAt(s, key, Locate(s, hash, key))
  {
    var e :| 0 <= e < |s| && s[e].None?;
    var j := SlotCovers(|s|, Home(hash, key, |s|), e);
    assert StopsAt(s, key, Slot(|s|, Home(hash, key, |s|), j));
  }

  /** The step `find` stops at is the first one that is empty or matches. */
  lemma FirstStopIs<K, V>(s: Slots<K, V>, key: K, start: nat, r: nat)
    requires |s| > 0 && r < |s|
    requires StopsAt(s, key, Slot(|s|, start, r))
    requires forall i :: 0 <= i < r ==> !StopsAt(s, key, Slot(|s|, start, i))
    ensures FirstStop(s, key, start, 0) == r
  {
  }

  /** Two slot arrays on which `find` for `key` sees the same slots up to its
      stop give the same answer. */
  lemma {:induction false} FirstStopAgree<K, V>(s: Slots<K, V>, t: Slots<K, V>, key: K, start: nat, j: nat)
    requires |s| == |t| > 0 && j <= |s|
    requires forall i :: j <= i <= FirstStop(s, key, start, j) && i < |s| ==>
      (StopsAt(s, key, Slot(|s|, start, i)) <==> StopsAt(t, key, Slot(|s|, start, i)))
    ensures FirstStop(t, key, start, j) == FirstStop(s, key, start, j)
    decreases |s| - j
  {
    if j < |s| && !StopsAt(s, key, Slot(|s|, start, j)) {
      FirstStopAgree(s, t, key, start, j + 1);
    }
  }

  /** A coherent table never stores a key twice. */
  lemma CoherentDistinct<K, V>(s: Slots<K, V>, hash: K -> nat)
    requires Coherent(s, hash)
    ensures DistinctKeys(s)
  {
    forall i, j | 0 <= i < |s| && 0 <= j < |s| && s[i].Some? && s[j].Some? && s[i].value.0 == s[j].value.0
      ensures i == j
    {
      assert FoundAt(s, hash, i);
      assert FoundAt(s, hash, j);
    }
  }

  /** In a coherent table `find(key)` lands on an occupied slot exactly when
      `key` is stored, and then on the pair holding it. */
  lemma LookupCorrect<K, V>(s: Slots<K, V>, hash: K -> nat, key: K)
    requires Probeable(s) && Coherent(s, hash)
    ensures s[Locate(s, hash, key)].Some? <==> key in Keys(s)
    ensures s[Locate(s, hash, key)].Some? ==> s[Locate(s, hash, key)].value.0 == key
  {
    LocateStops(s, hash, key);
    var p := Locate(s, hash, key);
    if s[p].Some? {
      assert key == s[p].value.0;
    }
    if key in Keys(s) {
      var i :| 0 <= i < |s| && s[i].Some? && s[i].value.0 == key;
      assert FoundAt(s, hash, i);
    }
  }

  /** In a coherent table the slot `find(key)` lands on holds `(key, v)`
      exactly when that pair is stored. */
  lemma LookupFindsEntry<K, V>(s: Slots<K, V>, hash: K -> nat, key: K, v: V)
    requires Probeable(s) && Coherent(s, hash)
    ensures s[Locate(s, hash, key)] == Some((key, v)) <==> (key, v) in Entries(s)
  {
    if (key, v) in Entries(s) {
      var i :| 0 <= i < |s| && s[i].Some? && s[i].value == (key, v);
      assert FoundAt(s, hash, i);
    }
  }
}
