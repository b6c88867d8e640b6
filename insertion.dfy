/**
 * Insertion and growth as functions on slot arrays: `set` writes the pair
 * where `find` lands; `expand` re-inserts every old pair, in index order,
 * into a fresh array of about twice the length.
 */
module Insertion {
  import opened Wrappers
  import opened Stride
  import opened Slots

  /** The slot array after `(key, value)` is written where `find(key)` lands. */
  function Place<K(==), V>(s: Slots<K, V>, hash: K -> nat, key: K, value: V): (r: Slots<K, V>)
    requires |s| > 0
    ensures |r| == |s|
  {
    s[Locate(s, hash, key) := Some((key, value))]
  }

  /** Get after set: in any table `find(key)` still lands on the written
      slot, which now holds `(key, value)`. */
  lemma PlaceRoundTrip<K, V>(s: Slots<K, V>, hash: K -> nat, key: K, value: V)
    requires Probeable(s)
    ensures Locate(Place(s, hash, key, value), hash, key) == Locate(s, hash, key)
    ensures Place(s, hash, key, value)[Locate(s, hash, key)] == Some((key, value))
  {
    LocateStops(s, hash, key);
    var t := Place(s, hash, key, value);
    var h := Home(hash, key, |s|);
    assert forall i :: 0 <= i <= FirstStop(s, key, h, 0) && i < |s| ==>
      (StopsAt(s, key, Slot(|s|, h, i)) <==> StopsAt(t, key, Slot(|s|, h, i)));
    FirstStopAgree(s, t, key, h, 0);
  }

  /** Setting one key does not disturb another key that `find` currently
      reaches: it is found at the same slot, holding the same pair. */
  lemma PlaceKeepsFound<K, V>(s: Slots<K, V>, hash: K -> nat, key: K, value: V, other: K)
    requires Probeable(s) && other != key
    requires s[Locate(s, hash, other)].Some?
    ensures Locate(Place(s, hash, key, value), hash, other) == Locate(s, hash, other)
    ensures Place(s, hash, key, value)[Locate(s, hash, other)] == s[Locate(s, hash, other)]
  {
    LocateStops(s, hash, key);
    LocateStops(s, hash, other);
    var p := Locate(s, hash, key);
    var t := Place(s, hash, key, value);
    var h := Home(hash, other, |s|);
    var r := FirstStop(s, other, h, 0);
    assert forall i :: 0 <= i <= r && i < |s| ==>
      (StopsAt(s, other, Slot(|s|, h, i)) <==> StopsAt(t, other, Slot(|s|, h, i)));
    FirstStopAgree(s, t, other, h, 0);
  }

  /** Setting a key keeps a coherent table coherent. */
  lemma PlaceCoherent<K, V>(s: Slots<K, V>, hash: K -> nat, key: K, value: V)
    requires Probeable(s) && Coherent(s, hash)
    ensures Coherent(Place(s, hash, key, value), hash)
  {
    var p := Locate(s, hash, key);
    var t := Place(s, hash, key, value);
    forall i | 0 <= i < |t| ensures FoundAt(t, hash, i) {
      if i == p {
        PlaceRoundTrip(s, hash, key, value);
      } else if t[i].Some? {
        assert FoundAt(s, hash, i);
        PlaceKeepsFound(s, hash, key, value, s[i].value.0);
      }
    }
  }

  /** In a coherent table, setting a key replaces its pair or adds one: the
      stored pairs become those of other keys plus `(key, value)`. */
  lemma PlaceEntries<K, V>(s: Slots<K, V>, hash: K -> nat, key: K, value: V)
    requires Probeable(s) && Coherent(s, hash)
    ensures Entries(Place(s, hash, key, value)) == (set e | e in Entries(s) && e.0 != key) + {(key, value)}
  {
    LocateStops(s, hash, key);
    var p := Locate(s, hash, key);
    var t := Place(s, hash, key, value);
    forall e | e in Entries(t)
      ensures e in (set e | e in Entries(s) && e.0 != key) + {(key, value)}
    {
      var i :| 0 <= i < |t| && t[i].Some? && t[i].value == e;
      if i != p {
        assert FoundAt(s, hash, i);
      }
    }
    forall e | e in (set e | e in Entries(s) && e.0 != key) + {(key, value)}
      ensures e in Entries(t)
    {
      if e == (key, value) {
        assert t[p].Some? && t[p].value == e;
      } else {
        var i :| 0 <= i < |s| && s[i].Some? && s[i].value == e;
        assert t[i] == s[i];
      }
    }
  }

  /** `set` adds one to the number of occupied slots exactly when `find`
      landed on an empty slot. */
  lemma PlaceCount<K, V>(s: Slots<K, V>, hash: K -> nat, key: K, value: V)
    requires |s| > 0
    ensures Count(Place(s, hash, key, value)) == Count(s) + (if s[Locate(s, hash, key)].None? then 1 else 0)
  {
    CountUpdate(s, Locate(s, hash, key), Some((key, value)));
  }

  /** The length `expand` allocates: `2 * n + roll`, plus one when that is a
      multiple of 17, where `roll` is the random draw in `[0, 10)`. */
  function NewCapacity(n: nat, roll: nat): (m: nat)
    requires roll < 10
    ensures 2 * n <= m <= 2 * n + 10
    ensures m % PROBE_OFFSET != 0
  {
    var m := 2 * n + roll;
    if m % PROBE_OFFSET == 0 then m + 1 else m
  }

  /** The new array after `expand` has re-inserted the first `i` old slots,
      in index order, through `set`. */
  function Reinsert<K(==), V>(prev: Slots<K, V>, hash: K -> nat, m: nat, i: nat): (r: Slots<K, V>)
    requires m > 0 && i <= |prev|
    ensures |r| == m
    ensures Entries(r) <= Entries(prev[..i])
    decreases i
  {
    if i == 0 then EmptySlots(m)
    else
      var acc := Reinsert(prev, hash, m, i - 1);
      EntriesPrefix(prev, i - 1);
      if prev[i - 1].Some? then
        EntriesUpdate(acc, Locate(acc, hash, prev[i - 1].value.0), prev[i - 1].value);
        Place(acc, hash, prev[i - 1].value.0, prev[i - 1].value.1)
      else acc
  }

  /** The array `expand` builds from `prev` at length `m`. */
  function Rehash<K(==), V>(prev: Slots<K, V>, hash: K -> nat, m: nat): (r: Slots<K, V>)
    requires m > 0
    ensures |r| == m
    ensures Entries(r) <= Entries(prev)
  {
    assert prev[..|prev|] == prev;
    Reinsert(prev, hash, m, |prev|)
  }

  /** The pairs of a prefix one slot longer. */
  lemma EntriesPrefix<K, V>(s: Slots<K, V>, i: nat)
    requires i < |s|
    ensures Entries(s[..i + 1]) == Entries(s[..i]) + (if s[i].Some? then {s[i].value} else {})
  {
    var a, b := s[..i + 1], s[..i];
    forall e | e in Entries(a) ensures e in Entries(b) + (if s[i].Some? then {s[i].value} else {}) {
      var j :| 0 <= j < |a| && a[j].Some? && a[j].value == e;
      if j < i { assert b[j] == a[j]; }
    }
    forall e | e in Entries(b) ensures e in Entries(a) {
      var j :| 0 <= j < |b| && b[j].Some? && b[j].value == e;
      assert a[j] == b[j];
    }
    if s[i].Some? {
      assert a[i] == s[i];
    }
  }

  /** Re-inserting never creates more occupied slots than it was given. */
  lemma {:induction false} ReinsertCountBound<K, V>(prev: Slots<K, V>, hash: K -> nat, m: nat, i: nat)
    requires m > 0 && i <= |prev|
    ensures Count(Reinsert(prev, hash, m, i)) <= Count(prev[..i])
    decreases i
  {
    if i == 0 {
      CountEmpty<K, V>(m);
    } else {
      ReinsertCountBound(prev, hash, m, i - 1);
      CountPrefix(prev, i - 1);
      var acc := Reinsert(prev, hash, m, i - 1);
      if prev[i - 1].Some? {
        PlaceCount(acc, hash, prev[i - 1].value.0, prev[i - 1].value.1);
      }
    }
  }

  /** One round of `expand`'s loop: the array built so far is at most half
      full, so the `set` call that re-inserts old slot `i` does not grow it,
      and the next array is that pair placed into it. */
  lemma ReinsertStep<K, V>(prev: Slots<K, V>, hash: K -> nat, m: nat, i: nat)
    requires m > 0 && i < |prev| && 2 * Count(prev) <= m
    ensures 2 * Count(Reinsert(prev, hash, m, i)) <= m
    ensures Grown(Reinsert(prev, hash, m, i), hash, 0) == Reinsert(prev, hash, m, i)
    ensures prev[i].Some? ==>
      Reinsert(prev, hash, m, i + 1) == Place(Reinsert(prev, hash, m, i), hash, prev[i].value.0, prev[i].value.1)
    ensures prev[i].None? ==> Reinsert(prev, hash, m, i + 1) == Reinsert(prev, hash, m, i)
  {
    ReinsertCountBound(prev, hash, m, i);
    CountPrefixBound(prev, i);
  }

  /** Re-inserting pairs with distinct keys into a long enough array keeps
      them all, once each, each found by `find` at its new slot. */
  lemma {:induction false} ReinsertSpec<K, V>(prev: Slots<K, V>, hash: K -> nat, m: nat, i: nat)
    requires m > 0 && m % PROBE_OFFSET != 0 && Count(prev) < m && DistinctKeys(prev) && i <= |prev|
    ensures Coherent(Reinsert(prev, hash, m, i), hash)
    ensures Entries(Reinsert(prev, hash, m, i)) == Entries(prev[..i])
    ensures Count(Reinsert(prev, hash, m, i)) == Count(prev[..i])
    decreases i
  {
    if i == 0 {
      CountEmpty<K, V>(m);
      assert Entries(EmptySlots<K, V>(m)) == {};
      assert Entries(prev[..0]) == {};
    } else {
      var acc := Reinsert(prev, hash, m, i - 1);
      ReinsertSpec(prev, hash, m, i - 1);
      CountPrefix(prev, i - 1);
      EntriesPrefix(prev, i - 1);
      CountPrefixBound(prev, i - 1);
      CountRoom(acc);
      if prev[i - 1].Some? {
        var (k, v) := prev[i - 1].value;
        forall j | 0 <= j < |acc| && acc[j].Some? ensures acc[j].value.0 != k {
          assert acc[j].value in Entries(prev[..i - 1]);
        }
        PlaceFresh(acc, hash, k, v);
        assert Reinsert(prev, hash, m, i) == Place(acc, hash, k, v);
      } else {
        assert Reinsert(prev, hash, m, i) == acc;
      }
    }
  }

  /** Setting a key that a coherent table does not hold adds exactly its
      pair and one occupied slot, and keeps the table coherent. */
  lemma PlaceFresh<K, V>(s: Slots<K, V>, hash: K -> nat, key: K, value: V)
    requires Probeable(s) && Coherent(s, hash)
    requires forall j :: 0 <= j < |s| && s[j].Some? ==> s[j].value.0 != key
    ensures Coherent(Place(s, hash, key, value), hash)
    ensures Entries(Place(s, hash, key, value)) == Entries(s) + {(key, value)}
    ensures Count(Place(s, hash, key, value)) == Count(s) + 1
  {
    LookupCorrect(s, hash, key);
    PlaceCount(s, hash, key, value);
    PlaceCoherent(s, hash, key, value);
    PlaceEntries(s, hash, key, value);
    assert (set e | e in Entries(s) && e.0 != key) == Entries(s) by {
      forall e | e in Entries(s) ensures e.0 != key {
        var j :| 0 <= j < |s| && s[j].Some? && s[j].value == e;
      }
    }
  }

  /** `expand` with distinct keys: the new table holds exactly the old pairs,
      as many as before, each found by `find`. */
  lemma RehashSpec<K, V>(prev: Slots<K, V>, hash: K -> nat, m: nat)
    requires m > 0 && m % PROBE_OFFSET != 0 && Count(prev) < m && DistinctKeys(prev)
    ensures Coherent(Rehash(prev, hash, m), hash)
    ensures Entries(Rehash(prev, hash, m)) == Entries(prev)
    ensures Count(Rehash(prev, hash, m)) == Count(prev)
  {
    ReinsertSpec(prev, hash, m, |prev|);
    assert prev[..|prev|] == prev;
  }

  /** The slot array `set` places into: grown by `expand` first when more
      than half of the slots are occupied. */
  function Grown<K(==), V>(s: Slots<K, V>, hash: K -> nat, roll: nat): (r: Slots<K, V>)
    requires |s| > 0 && roll < 10
    ensures |r| > 0
    ensures 2 * Count(s) > |s| ==>
      2 * |s| <= |r| <= 2 * |s| + 10 && |r| % PROBE_OFFSET != 0 && Entries(r) <= Entries(s)
    ensures 2 * Count(s) <= |s| ==> r == s
  {
    if 2 * Count(s) > |s| then Rehash(s, hash, NewCapacity(|s|, roll)) else s
  }

  /** Growth keeps `find` terminating and never adds entries. For a
      coherent table it keeps exactly the same pairs, as many, each found. */
  lemma GrownSpec<K, V>(s: Slots<K, V>, hash: K -> nat, roll: nat)
    requires Probeable(s) && roll < 10
    ensures Probeable(Grown(s, hash, roll))
    ensures Count(Grown(s, hash, roll)) <= Count(s)
    ensures 2 * Count(s) > |s| ==> |Grown(s, hash, roll)| == NewCapacity(|s|, roll)
    ensures Coherent(s, hash) ==>
      Coherent(Grown(s, hash, roll), hash) &&
      Entries(Grown(s, hash, roll)) == Entries(s) && Count(Grown(s, hash, roll)) == Count(s)
  {
    if 2 * Count(s) > |s| {
      var m := NewCapacity(|s|, roll);
      ReinsertCountBound(s, hash, m, |s|);
      assert s[..|s|] == s;
      CountRoom(Rehash(s, hash, m));
      if Coherent(s, hash) {
        CoherentDistinct(s, hash);
        RehashSpec(s, hash, m);
      }
    }
  }

  /** Two coherent tables holding the same pairs answer every lookup alike. */
  lemma SameEntriesSameLookup<K, V>(s: Slots<K, V>, t: Slots<K, V>, hash: K -> nat, key: K)
    requires Probeable(s) && Coherent(s, hash) && Probeable(t) && Coherent(t, hash)
    requires Entries(s) == Entries(t)
    ensures StoredValue(s, hash, key) == StoredValue(t, hash, key)
  {
    LookupCorrect(s, hash, key);
    LookupCorrect(t, hash, key);
    var ps, pt := Locate(s, hash, key), Locate(t, hash, key);
    if s[ps].Some? {
      LookupFindsEntry(s, hash, key, s[ps].value.1);
      LookupFindsEntry(t, hash, key, s[ps].value.1);
    } else if t[pt].Some? {
      LookupFindsEntry(t, hash, key, t[pt].value.1);
      LookupFindsEntry(s, hash, key, t[pt].value.1);
    }
  }
}
