/**
 * The probed hash table as the Java class keeps it: one flat array of
 * optional key/value pairs, updated in place, and a count of the occupied
 * slots. `null` keys and values are `None`; the exception `get` throws is an
 * `Err`; the random draw `expand` makes is the caller's `roll`.
 */
module HashTables {
  import opened Wrappers
  import opened Stride
  import opened Slots
  import opened Insertion
  import opened Deletion

  /** The length `clear` (and so the constructor) allocates. */
  const INITIAL_CAPACITY: nat := 41

  /** Why `get` throws: the key is `null`, or `find` did not reach it. */
  datatype LookupError<K> = NullKey | MissingKey(key: K)

  /** The pairs stored at index `c` or later, in index order: what an
      iterator positioned at `c` still yields. */
  function Occupied<K, V>(s: Slots<K, V>, c: nat): (r: seq<(K, V)>)
    ensures |r| <= |s| - c || (c >= |s| && r == [])
    decreases |s| - c
  {
    if c >= |s| then []
    else (if s[c].Some? then [s[c].value] else []) + Occupied(s, c + 1)
  }

  /** An iterator at `c` yields exactly the pairs stored at `c` or later. */
  lemma OccupiedHolds<K, V>(s: Slots<K, V>, c: nat, e: (K, V))
    ensures e in Occupied(s, c) <==> exists i :: c <= i < |s| && s[i] == Some(e)
  {
    if e in Occupied(s, c) {
      var i := OccupiedFrom(s, c, e);
    }
    if i :| c <= i < |s| && s[i] == Some(e) {
      OccupiedHas(s, c, i);
    }
  }

  /** A pair stored at `i >= c` is yielded by an iterator at `c`. */
  lemma {:induction false} OccupiedHas<K, V>(s: Slots<K, V>, c: nat, i: nat)
    requires c <= i < |s| && s[i].Some?
    ensures s[i].value in Occupied(s, c)
    decreases i - c
  {
    var head := if s[c].Some? then [s[c].value] else [];
    assert Occupied(s, c) == head + Occupied(s, c + 1);
    if c < i {
      OccupiedHas(s, c + 1, i);
    } else {
      assert s[i].value in head;
    }
  }

  /** A pair yielded by an iterator at `c` is stored at some `i >= c`. */
  lemma {:induction false} OccupiedFrom<K, V>(s: Slots<K, V>, c: nat, e: (K, V)) returns (i: nat)
    requires e in Occupied(s, c)
    ensures c <= i < |s| && s[i] == Some(e)
    decreases |s| - c
  {
    assert c < |s|;
    var head := if s[c].Some? then [s[c].value] else [];
    assert Occupied(s, c) == head + Occupied(s, c + 1);
    if s[c] == Some(e) {
      i := c;
    } else {
      assert e !in head;
      i := OccupiedFrom(s, c + 1, e);
    }
  }

  /** A full iteration yields exactly the stored pairs. */
  lemma OccupiedEntries<K, V>(s: Slots<K, V>)
    ensures forall e :: e in Occupied(s, 0) <==> e in Entries(s)
  {
    forall e ensures e in Occupied(s, 0) <==> e in Entries(s) {
      OccupiedHolds(s, 0, e);
      if e in Entries(s) {
        var i :| 0 <= i < |s| && s[i].Some? && s[i].value == e;
        assert s[i] == Some(e);
      }
    }
  }

  class ProbedHashTable<K(==), V> {
    /** The key's hash: `Math.abs(key.hashCode())`. */
    const hash: K -> nat
    /** The number of occupied slots. */
    var size: nat
    /** The slots; `None` is Java's `null`. */
    var pairs: array<Option<(K, V)>>

    /** The invariant every operation keeps: the length stays off multiples
        of the stride, `size` counts the occupied slots, and at most one
        insertion past half full has happened, so a slot is always empty. */
    ghost predicate Valid()
      reads this, pairs
    {
      pairs.Length >= INITIAL_CAPACITY && pairs.Length % PROBE_OFFSET != 0 &&
      size == Count(pairs[..]) && 2 * size <= pairs.Length + 2
    }

    /** In a valid table `find` terminates: some slot is empty. */
    lemma ValidProbeable()
      requires Valid()
      ensures Probeable(pairs[..])
    {
      CountRoom(pairs[..]);
    }

    /** A new, empty table of 41 slots. */
    constructor (hash: K -> nat)
      ensures Valid() && fresh(pairs) && this.hash == hash
      ensures pairs[..] == EmptySlots(INITIAL_CAPACITY) && size == 0
    {
      this.hash := hash;
      pairs := new Option<(K, V)>[INITIAL_CAPACITY](_ => None);
      size := 0;
      new;
      assert pairs[..] == EmptySlots(INITIAL_CAPACITY);
      CountEmpty<K, V>(INITIAL_CAPACITY);
    }

    /** `find`: follow the probe sequence from the key's home bucket by
        steps of 17 and stop at the first slot that is empty or holds the
        key. */
    method Find(key: K) returns (index: nat)
      requires Valid()
      ensures index == Locate(pairs[..], hash, key)
      ensures index < pairs.Length && (pairs[index].None? || pairs[index].value.0 == key)
    {
      ghost var s := pairs[..];
      ghost var h := Home(hash, key, pairs.Length);
      ValidProbeable();
      LocateStops(s, hash, key);
      ghost var stop := FirstStop(s, key, h, 0);
      ghost var j := 0;
      var found := false;
      var guessedIndex := hash(key) % pairs.Length;
      var realIndex := guessedIndex;
      SlotZero(pairs.Length, h);
      while !found
        invariant j <= stop && guessedIndex == Slot(pairs.Length, h, j)
        invariant found ==> j == stop && realIndex == guessedIndex
        decreases pairs.Length - j + (if found then 0 else 1)
      {
        if pairs[guessedIndex].None? {
          realIndex := guessedIndex;
          found := true;
        } else if pairs[guessedIndex].value.0 == key {
          realIndex := guessedIndex;
          found := true;
        } else {
          SlotNext(pairs.Length, h, j);
          guessedIndex := (guessedIndex + PROBE_OFFSET) % pairs.Length;
          j := j + 1;
        }
      }
      index := realIndex;
    }

    /** `containsKey`: false for `null`; otherwise whether `find` lands on an
        occupied slot, which in a coherent table means the key is stored. */
    method ContainsKey(key: Option<K>) returns (hasKey: bool)
      requires Valid()
      ensures hasKey == (key.Some? && pairs[Locate(pairs[..], hash, key.value)].Some?)
      ensures Coherent(pairs[..], hash) ==> (hasKey <==> key.Some? && key.value in Keys(pairs[..]))
    {
      if key.None? {
        return false;
      }
      hasKey := false;
      var findIndex := Find(key.value);
      if pairs[findIndex].Some? {
        hasKey := true;
      }
      if Coherent(pairs[..], hash) {
        ValidProbeable();
        LookupCorrect(pairs[..], hash, key.value);
      }
    }

    /** `get`: the value in the slot `find` lands on, or the exception for a
        `null` key or a key that is not there. */
    method Get(key: Option<K>) returns (r: Result<V, LookupError<K>>)
      requires Valid()
      ensures key.None? ==> r == Err(NullKey)
      ensures key.Some? ==> match StoredValue(pairs[..], hash, key.value)
        case Some(v) => r == Ok(v)
        case None => r == Err(MissingKey(key.value))
      ensures r.Ok? ==> key.Some? && (key.value, r.value) in Entries(pairs[..])
      ensures Coherent(pairs[..], hash) && key.Some? ==> (r.Ok? <==> key.value in Keys(pairs[..]))
    {
      if key.None? {
        return Err(NullKey);
      }
      var index := Find(key.value);
      var pair := pairs[index];
      if pair.None? || pair.value.0 != key.value {
        r := Err(MissingKey(key.value));
      } else {
        r := Ok(pair.value.1);
        assert pairs[index].Some? && pairs[index].value == (key.value, r.value);
      }
      if Coherent(pairs[..], hash) {
        ValidProbeable();
        LookupCorrect(pairs[..], hash, key.value);
      }
    }

    /** `size()`: the number of stored pairs. */
    method Size() returns (n: nat)
      requires Valid()
      ensures n == Count(pairs[..])
    {
      n := size;
    }

    /** `set`: ignore a `null` key or value; grow first when more than half
        of the slots are occupied; then write the pair where `find` lands,
        returning the value it replaces. */
    method Set(key: Option<K>, value: Option<V>, roll: nat) returns (prior: Option<V>)
      requires Valid() && roll < 10
      modifies this, pairs
      ensures Valid()
      ensures key.None? || value.None? ==>
        prior.None? && pairs == old(pairs) && pairs[..] == old(pairs[..]) && size == old(size)
      ensures key.Some? && value.Some? ==>
        var g := Grown(old(pairs[..]), hash, roll);
        && pairs[..] == Place(g, hash, key.value, value.value)
        && prior == StoredValue(g, hash, key.value)
        && size == Count(g) + (if prior.None? then 1 else 0)
        && pairs[Locate(pairs[..], hash, key.value)] == Some((key.value, value.value))
      ensures key.Some? && value.Some? && 2 * old(size) > old(pairs.Length) ==>
        fresh(pairs) && pairs.Length == NewCapacity(old(pairs.Length), roll)
      ensures !(key.Some? && value.Some? && 2 * old(size) > old(pairs.Length)) ==> pairs == old(pairs)
      ensures key.Some? && value.Some? && Coherent(old(pairs[..]), hash) ==>
        && Coherent(pairs[..], hash)
        && prior == StoredValue(old(pairs[..]), hash, key.value)
        && size == old(size) + (if prior.None? then 1 else 0)
        && Entries(pairs[..]) == (set e | e in Entries(old(pairs[..])) && e.0 != key.value) + {(key.value, value.value)}
      decreases if key.Some? && value.Some? && 2 * size > pairs.Length then 3 else 0
    {
      if key.None? || value.None? {
        return None;
      }
      ghost var s := pairs[..];
      ValidProbeable();
      GrownSpec(s, hash, roll);
      ghost var g := Grown(s, hash, roll);
      prior := None;
      if 2 * size > pairs.Length {
        Expand(roll);
      }
      assert pairs[..] == g;
      var index := Find(key.value);
      if pairs[index].Some? {
        prior := Some(pairs[index].value.1);
      } else {
        size := size + 1;
      }
      pairs[index] := Some((key.value, value.value));
      assert pairs[..] == Place(g, hash, key.value, value.value);
      PlaceCount(g, hash, key.value, value.value);
      PlaceRoundTrip(g, hash, key.value, value.value);
      if Coherent(s, hash) {
        PlaceCoherent(g, hash, key.value, value.value);
        PlaceEntries(g, hash, key.value, value.value);
        SameEntriesSameLookup(g, s, hash, key.value);
      }
    }

    /** `expand`: allocate `NewCapacity` slots and re-insert every old pair,
        in index order, through `set`. */
    method Expand(roll: nat)
      requires Valid() && roll < 10
      modifies this
      ensures Valid() && fresh(pairs)
      ensures pairs.Length == NewCapacity(old(pairs.Length), roll)
      ensures pairs[..] == Rehash(old(pairs[..]), hash, pairs.Length)
      ensures DistinctKeys(old(pairs[..])) ==>
        Coherent(pairs[..], hash) && Entries(pairs[..]) == Entries(old(pairs[..])) && size == old(size)
      decreases 2
    {
      var newSize := 2 * pairs.Length + roll;
      if newSize % PROBE_OFFSET == 0 {
        newSize := newSize + 1;
      }
      var oldPairs := pairs;
      ghost var prev := oldPairs[..];
      assert newSize == NewCapacity(oldPairs.Length, roll);
      pairs := new Option<(K, V)>[newSize](_ => None);
      size := 0;
      assert pairs[..] == EmptySlots(newSize);
      CountEmpty<K, V>(newSize);
      Refill(oldPairs);
      if DistinctKeys(prev) {
        RehashSpec(prev, hash, newSize);
      }
    }

    /** The loop of `expand`: re-insert every pair of `oldPairs`, in index
        order, through `set`, into the empty array just allocated. */
    method Refill(oldPairs: array<Option<(K, V)>>)
      requires Valid() && oldPairs != pairs
      requires pairs[..] == EmptySlots(pairs.Length) && 2 * Count(oldPairs[..]) <= pairs.Length
      modifies this, pairs
      ensures Valid() && pairs == old(pairs)
      ensures pairs[..] == Rehash(oldPairs[..], hash, pairs.Length)
      decreases 1
    {
      ghost var prev := oldPairs[..];
      ghost var m := pairs.Length;
      for i := 0 to oldPairs.Length
        invariant pairs == old(pairs) && oldPairs[..] == prev
        invariant pairs[..] == Reinsert(prev, hash, m, i)
        invariant Valid()
      {
        ReinsertStep(prev, hash, m, i);
        assert oldPairs[i] == prev[i];
        if oldPairs[i].Some? {
          var movePair := oldPairs[i].value;
          var _ := Set(Some(movePair.0), Some(movePair.1), 0);
        }
      }
    }

    /** `remove`: empty the slot `find` lands on; walk the probe sequence
        from the next slot to the first empty one, queueing the pairs whose
        home bucket is the removed key's; move each queued pair into the
        previous gap and empty the last gap. */
    method Remove(key: Option<K>) returns (value: Option<V>)
      requires Valid()
      modifies pairs, this`size
      ensures Valid()
      ensures key.None? ==> value.None? && pairs[..] == old(pairs[..]) && size == old(size)
      ensures key.Some? ==>
        && pairs[..] == Removed(old(pairs[..]), hash, key.value)
        && value == StoredValue(old(pairs[..]), hash, key.value)
        && size == old(size) - (if value.Some? then 1 else 0)
      ensures key.Some? && DistinctKeys(old(pairs[..])) ==> StoredValue(pairs[..], hash, key.value).None?
    {
      if key.None? {
        return None;
      }
      ghost var s := pairs[..];
      ValidProbeable();
      var k := key.value;
      value := None;
      var removeIndex := Find(k);
      var pattern := hash(k) % pairs.Length;
      if pairs[removeIndex].None? {
        RemoveSpec(s, hash, k);
        return None;
      }
      value := Some(pairs[removeIndex].value.1);
      pairs[removeIndex] := None;
      CountUpdate(s, removeIndex, None);
      assert pairs[..] == Cleared(s, hash, k);
      var queue := ScanBucket(removeIndex, pattern);
      assert queue == RemovalQueue(s, hash, k);
      ShiftBucket(removeIndex, queue);
      size := size - 1;
      RemoveSpec(s, hash, k);
    }

    /** The first loop of `remove`: from the slot after the emptied one up
        to the first empty slot, the positions and pairs whose home bucket
        is `pattern`, in probe order. */
    method ScanBucket(start: nat, pattern: nat) returns (queue: seq<(nat, (K, V))>)
      requires start < pairs.Length && pairs[start].None?
      ensures queue == Scan(pairs[..], hash, pattern, start, 1)
    {
      ghost var s := pairs[..];
      var n := pairs.Length;
      queue := [];
      var similarKeyIndex: nat := (start + PROBE_OFFSET) % n;
      ghost var t := 1;
      SlotZero(n, start);
      SlotNext(n, start, 0);
      SlotWrap(n, start);
      while pairs[similarKeyIndex].Some?
        invariant 1 <= t <= n && similarKeyIndex == Slot(n, start, t)
        invariant queue + Scan(s, hash, pattern, start, t) == Scan(s, hash, pattern, start, 1)
        decreases n - t
      {
        assert t < n;
        ScanStep(s, hash, pattern, start, t);
        var searchedKey := pairs[similarKeyIndex].value.0;
        var calcPattern := hash(searchedKey) % n;
        if calcPattern == pattern {
          queue := queue + [(similarKeyIndex, pairs[similarKeyIndex].value)];
        }
        SlotNext(n, start, t);
        similarKeyIndex := (similarKeyIndex + PROBE_OFFSET) % n;
        t := t + 1;
      }
      assert Scan(s, hash, pattern, start, t) == [];
    }

    /** The second loop of `remove`: each queued pair moves into the current
        gap and its old slot becomes the gap; the last gap is emptied. */
    method ShiftBucket(start: nat, queue: seq<(nat, (K, V))>)
      requires start < pairs.Length && forall m :: 0 <= m < |queue| ==> queue[m].0 < pairs.Length
      modifies pairs
      ensures pairs[..] == Relocate(old(pairs[..]), start, queue)
    {
      ghost var target := Relocate(pairs[..], start, queue);
      var rest := queue;
      var relocateIndex: nat := start;
      while rest != []
        invariant relocateIndex < pairs.Length && forall m :: 0 <= m < |rest| ==> rest[m].0 < pairs.Length
        invariant Relocate(pairs[..], relocateIndex, rest) == target
        decreases |rest|
      {
        var patternedIndex := rest[0].0;
        var relocatePair := rest[0].1;
        rest := rest[1..];
        pairs[relocateIndex] := Some(relocatePair);
        relocateIndex := patternedIndex;
      }
      pairs[relocateIndex] := None;
    }

    /** `clear`: a fresh array of 41 empty slots. */
    method Clear()
      modifies this
      ensures Valid() && fresh(pairs)
      ensures pairs[..] == EmptySlots(INITIAL_CAPACITY) && size == 0
      ensures forall k :: StoredValue(pairs[..], hash, k).None?
    {
      pairs := new Option<(K, V)>[INITIAL_CAPACITY](_ => None);
      size := 0;
      assert pairs[..] == EmptySlots(INITIAL_CAPACITY);
      CountEmpty<K, V>(INITIAL_CAPACITY);
    }
  }

  /** The iterator `iterator()` returns: a cursor that reads the table's
      current slots in index order. */
  class PairIterator<K(==), V> {
    /** The table iterated over. */
    const table: ProbedHashTable<K, V>
    /** The next slot to look at. */
    var currentIndex: nat

    /** The pairs this iterator has still to yield. */
    ghost function Remaining(): seq<(K, V)>
      reads this, table, table.pairs
    {
      Occupied(table.pairs[..], currentIndex)
    }

    /** `iterator()`: start at slot 0. */
    constructor (table: ProbedHashTable<K, V>)
      ensures this.table == table && currentIndex == 0
    {
      this.table := table;
      currentIndex := 0;
    }

    /** `hasNext`: is some slot at or after the cursor occupied? */
    method HasNext() returns (more: bool)
      ensures more <==> exists i :: currentIndex <= i < table.pairs.Length && table.pairs[i].Some?
    {
      var i := currentIndex;
      while i < table.pairs.Length
        invariant currentIndex <= i
        invariant forall j :: currentIndex <= j < i && j < table.pairs.Length ==> table.pairs[j].None?
        decreases table.pairs.Length - i
      {
        if table.pairs[i].Some? {
          return true;
        }
        i := i + 1;
      }
      return false;
    }

    /** `next`: skip empty slots, yield the next stored pair and step past
        it; `None` (Java's `null`) once none is left. */
    method Next() returns (r: Option<(K, V)>)
      modifies this
      ensures old(Remaining()) == if r.Some? then [r.value] + Remaining() else []
      ensures r.None? ==> currentIndex == old(currentIndex)
    {
      var more := HasNext();
      if more {
        ghost var s := table.pairs[..];
        while table.pairs[currentIndex].None?
          invariant exists i :: currentIndex <= i < table.pairs.Length && table.pairs[i].Some?
          invariant Occupied(s, currentIndex) == old(Remaining())
          decreases table.pairs.Length - currentIndex
        {
          currentIndex := currentIndex + 1;
        }
        currentIndex := currentIndex + 1;
        return Some(table.pairs[currentIndex - 1].value);
      }
      OccupiedNone(table.pairs[..], currentIndex);
      return None;
    }
  }

  /** Nothing is left to yield when no slot at or after `c` is occupied. */
  lemma {:induction false} OccupiedNone<K, V>(s: Slots<K, V>, c: nat)
    requires forall i :: c <= i < |s| ==> s[i].None?
    ensures Occupied(s, c) == []
    decreases |s| - c
  {
    if c < |s| {
      OccupiedNone(s, c + 1);
    }
  }
}
