/**
 * Deletion as a function on slot arrays. `remove(key)` empties the slot
 * `find(key)` lands on, then walks the probe sequence from just past that
 * slot to the first empty slot, queueing every pair whose home bucket is the
 * removed key's. Each queued pair moves into the previous gap (the removed
 * slot first) and the last gap is emptied.
 */
module Deletion {
  import opened Wrappers
  import opened Stride
  import opened Slots
  import opened Insertion

  /** The first probe step at or after `t` (from `base`) whose slot is empty,
      or `|s|`. */
  ghost function FirstEmpty<K, V>(s: Slots<K, V>, base: nat, t: nat): (r: nat)
    requires |s| > 0 && t <= |s|
    ensures t <= r <= |s|
    ensures r < |s| ==> s[Slot(|s|, base, r)].None?
    ensures forall u :: t <= u < r ==> s[Slot(|s|, base, u)].Some?
    decreases |s| - t
  {
    if t == |s| || s[Slot(|s|, base, t)].None? then t else FirstEmpty(s, base, t + 1)
  }

  /** The queue the first loop of `remove` fills, from probe step `t` on:
      `(index, pair)` for each occupied slot before the first empty one whose
      pair's home bucket is `pattern`, in probe order. The walk cannot pass
      step `|s|`: that step is `base` again, which `remove` has emptied. */
  function Scan<K(==), V>(s: Slots<K, V>, hash: K -> nat, pattern: nat, base: nat, t: nat): (q: seq<(nat, (K, V))>)
    requires |s| > 0 && t <= |s|
    ensures forall m :: 0 <= m < |q| ==> q[m].0 < |s|
    decreases |s| - t
  {
    if t == |s| then []
    else
      var p := Slot(|s|, base, t);
      if s[p].None? then []
      else if Home(hash, s[p].value.0, |s|) == pattern then [(p, s[p].value)] + Scan(s, hash, pattern, base, t + 1)
      else Scan(s, hash, pattern, base, t + 1)
  }

  /** One step of the walk: an occupied slot is queued when its pair's home
      bucket is `pattern` and skipped otherwise. */
  lemma ScanStep<K, V>(s: Slots<K, V>, hash: K -> nat, pattern: nat, base: nat, t: nat)
    requires |s| > 0 && t < |s| && s[Slot(|s|, base, t)].Some?
    ensures Home(hash, s[Slot(|s|, base, t)].value.0, |s|) == pattern ==>
      Scan(s, hash, pattern, base, t)
        == [(Slot(|s|, base, t), s[Slot(|s|, base, t)].value)] + Scan(s, hash, pattern, base, t + 1)
    ensures Home(hash, s[Slot(|s|, base, t)].value.0, |s|) != pattern ==>
      Scan(s, hash, pattern, base, t) == Scan(s, hash, pattern, base, t + 1)
  {
  }

  /** Each queued position holds its queued pair, whose home bucket is `pattern`. */
  lemma {:induction false} ScanSound<K, V>(s: Slots<K, V>, hash: K -> nat, pattern: nat, base: nat, t: nat)
    requires |s| > 0 && t <= |s|
    ensures forall m :: 0 <= m < |Scan(s, hash, pattern, base, t)| ==>
      s[Scan(s, hash, pattern, base, t)[m].0] == Some(Scan(s, hash, pattern, base, t)[m].1) &&
      Home(hash, Scan(s, hash, pattern, base, t)[m].1.0, |s|) == pattern
    decreases |s| - t
  {
    if t < |s| && s[Slot(|s|, base, t)].Some? {
      ScanSound(s, hash, pattern, base, t + 1);
      var p := Slot(|s|, base, t);
      var q := Scan(s, hash, pattern, base, t + 1);
      if Home(hash, s[p].value.0, |s|) == pattern {
        assert Scan(s, hash, pattern, base, t) == [(p, s[p].value)] + q;
      } else {
        assert Scan(s, hash, pattern, base, t) == q;
      }
    }
  }

  /** The probe steps (from `base`) at which `Scan` queues its pairs. */
  ghost function ScanSteps<K, V>(s: Slots<K, V>, hash: K -> nat, pattern: nat, base: nat, t: nat): seq<nat>
    requires |s| > 0 && t <= |s|
    decreases |s| - t
  {
    if t == |s| then []
    else
      var p := Slot(|s|, base, t);
      if s[p].None? then []
      else if Home(hash, s[p].value.0, |s|) == pattern then [t] + ScanSteps(s, hash, pattern, base, t + 1)
      else ScanSteps(s, hash, pattern, base, t + 1)
  }

  /** The scan queues, in increasing probe order, exactly the occupied slots
      before the first empty one whose pair has home bucket `pattern`. */
  lemma ScanStepsSpec<K, V>(s: Slots<K, V>, hash: K -> nat, pattern: nat, base: nat, t: nat)
    requires |s| > 0 && t <= |s|
    ensures |ScanSteps(s, hash, pattern, base, t)| == |Scan(s, hash, pattern, base, t)|
    ensures forall m :: 0 <= m < |ScanSteps(s, hash, pattern, base, t)| ==>
      t <= ScanSteps(s, hash, pattern, base, t)[m] < FirstEmpty(s, base, t) &&
      Scan(s, hash, pattern, base, t)[m].0 == Slot(|s|, base, ScanSteps(s, hash, pattern, base, t)[m])
    ensures forall m, m' :: 0 <= m < m' < |ScanSteps(s, hash, pattern, base, t)| ==>
      ScanSteps(s, hash, pattern, base, t)[m] < ScanSteps(s, hash, pattern, base, t)[m']
    ensures forall u :: t <= u < FirstEmpty(s, base, t) && Home(hash, s[Slot(|s|, base, u)].value.0, |s|) == pattern ==>
      u in ScanSteps(s, hash, pattern, base, t)
  {
    ScanStepsMatch(s, hash, pattern, base, t);
    ScanStepsSorted(s, hash, pattern, base, t);
    ScanStepsComplete(s, hash, pattern, base, t);
  }

  /** The `m`-th queued position is the slot at the `m`-th scan step, and
      every scan step lies before the first empty slot. */
  lemma {:induction false} ScanStepsMatch<K, V>(s: Slots<K, V>, hash: K -> nat, pattern: nat, base: nat, t: nat)
    requires |s| > 0 && t <= |s|
    ensures |ScanSteps(s, hash, pattern, base, t)| == |Scan(s, hash, pattern, base, t)|
    ensures forall m :: 0 <= m < |ScanSteps(s, hash, pattern, base, t)| ==>
      t <= ScanSteps(s, hash, pattern, base, t)[m] < FirstEmpty(s, base, t) &&
      Scan(s, hash, pattern, base, t)[m].0 == Slot(|s|, base, ScanSteps(s, hash, pattern, base, t)[m])
    decreases |s| - t
  {
    if t < |s| && s[Slot(|s|, base, t)].Some? {
      ScanStepsMatch(s, hash, pattern, base, t + 1);
      var p := Slot(|s|, base, t);
      var st, q := ScanSteps(s, hash, pattern, base, t + 1), Scan(s, hash, pattern, base, t + 1);
      assert FirstEmpty(s, base, t) == FirstEmpty(s, base, t + 1);
      if Home(hash, s[p].value.0, |s|) == pattern {
        assert ScanSteps(s, hash, pattern, base, t) == [t] + st;
        assert Scan(s, hash, pattern, base, t) == [(p, s[p].value)] + q;
      } else {
        assert ScanSteps(s, hash, pattern, base, t) == st;
        assert Scan(s, hash, pattern, base, t) == q;
      }
    }
  }

  /** The scan steps increase. */
  lemma {:induction false} ScanStepsSorted<K, V>(s: Slots<K, V>, hash: K -> nat, pattern: nat, base: nat, t: nat)
    requires |s| > 0 && t <= |s|
    ensures forall m :: 0 <= m < |ScanSteps(s, hash, pattern, base, t)| ==> t <= ScanSteps(s, hash, pattern, base, t)[m]
    ensures forall m, m' :: 0 <= m < m' < |ScanSteps(s, hash, pattern, base, t)| ==>
      ScanSteps(s, hash, pattern, base, t)[m] < ScanSteps(s, hash, pattern, base, t)[m']
    decreases |s| - t
  {
    if t < |s| && s[Slot(|s|, base, t)].Some? {
      ScanStepsSorted(s, hash, pattern, base, t + 1);
      var p := Slot(|s|, base, t);
      var st := ScanSteps(s, hash, pattern, base, t + 1);
      if Home(hash, s[p].value.0, |s|) == pattern {
        assert ScanSteps(s, hash, pattern, base, t) == [t] + st;
      } else {
        assert ScanSteps(s, hash, pattern, base, t) == st;
      }
    }
  }

  /** Every occupied step before the first empty slot whose pair has home
      bucket `pattern` is a scan step. */
  lemma {:induction false} ScanStepsComplete<K, V>(s: Slots<K, V>, hash: K -> nat, pattern: nat, base: nat, t: nat)
    requires |s| > 0 && t <= |s|
    ensures forall u :: t <= u < FirstEmpty(s, base, t) && Home(hash, s[Slot(|s|, base, u)].value.0, |s|) == pattern ==>
      u in ScanSteps(s, hash, pattern, base, t)
    decreases |s| - t
  {
    if t < |s| && s[Slot(|s|, base, t)].Some? {
      ScanStepsComplete(s, hash, pattern, base, t + 1);
      var p := Slot(|s|, base, t);
      var st := ScanSteps(s, hash, pattern, base, t + 1);
      assert FirstEmpty(s, base, t) == FirstEmpty(s, base, t + 1);
      if Home(hash, s[p].value.0, |s|) == pattern {
        assert ScanSteps(s, hash, pattern, base, t) == [t] + st;
      } else {
        assert ScanSteps(s, hash, pattern, base, t) == st;
      }
    }
  }

  /** The second loop of `remove`: move each queued pair into the current gap
      and make its old slot the next gap; finally empty the last gap. */
  function Relocate<K, V>(s: Slots<K, V>, gap: nat, q: seq<(nat, (K, V))>): (r: Slots<K, V>)
    requires gap < |s| && forall m :: 0 <= m < |q| ==> q[m].0 < |s|
    ensures |r| == |s|
    decreases |q|
  {
    if q == [] then s[gap := None]
    else Relocate(s[gap := Some(q[0].1)], q[0].0, q[1..])
  }

  /** The `l`-th gap of a relocation: the starting gap, then the slots the
      queued pairs leave, in queue order. */
  function Gap<K, V>(gap: nat, q: seq<(nat, (K, V))>, l: nat): nat
    requires l <= |q|
  {
    if l == 0 then gap else q[l - 1].0
  }

  /** Queue positions are in range, distinct, and not the starting gap. */
  ghost predicate Relocatable<K, V>(n: nat, gap: nat, q: seq<(nat, (K, V))>) {
    gap < n &&
    (forall m :: 0 <= m < |q| ==> q[m].0 < n && q[m].0 != gap) &&
    (forall m, m' :: 0 <= m < m' < |q| ==> q[m].0 != q[m'].0)
  }

  /** Relocation's first step leaves a relocatable rest. */
  lemma RelocatableTail<K, V>(n: nat, gap: nat, q: seq<(nat, (K, V))>)
    requires Relocatable(n, gap, q) && q != []
    ensures Relocatable(n, q[0].0, q[1..])
  {
    var q' := q[1..];
    forall m | 0 <= m < |q'| ensures q'[m].0 < n && q'[m].0 != q[0].0 {
      assert q'[m] == q[m + 1];
    }
    forall m, m' | 0 <= m < m' < |q'| ensures q'[m].0 != q'[m'].0 {
      assert q'[m] == q[m + 1] && q'[m'] == q[m' + 1];
    }
  }

  /** A slot that is neither the starting gap nor a queued position keeps
      its contents. */
  lemma {:induction false} RelocateElsewhere<K, V>(s: Slots<K, V>, gap: nat, q: seq<(nat, (K, V))>, x: nat)
    requires Relocatable(|s|, gap, q)
    requires x < |s| && x != gap && forall m :: 0 <= m < |q| ==> x != q[m].0
    ensures Relocate(s, gap, q)[x] == s[x]
    decreases |q|
  {
    if q != [] {
      RelocatableTail(|s|, gap, q);
      var q' := q[1..];
      forall m | 0 <= m < |q'| ensures x != q'[m].0 { assert q'[m] == q[m + 1]; }
      RelocateElsewhere(s[gap := Some(q[0].1)], q[0].0, q', x);
    }
  }

  /** The `l`-th gap receives the `l`-th queued pair. */
  lemma {:induction false} RelocateGap<K, V>(s: Slots<K, V>, gap: nat, q: seq<(nat, (K, V))>, l: nat)
    requires Relocatable(|s|, gap, q) && l < |q|
    ensures Relocate(s, gap, q)[Gap(gap, q, l)] == Some(q[l].1)
    decreases |q|
  {
    RelocatableTail(|s|, gap, q);
    var s', q' := s[gap := Some(q[0].1)], q[1..];
    if l == 0 {
      forall m | 0 <= m < |q'| ensures gap != q'[m].0 { assert q'[m] == q[m + 1]; }
      RelocateElsewhere(s', q[0].0, q', gap);
    } else {
      assert Gap(gap, q, l) == Gap(q[0].0, q', l - 1);
      RelocateGap(s', q[0].0, q', l - 1);
    }
  }

  /** The last gap ends up empty. */
  lemma {:induction false} RelocateLast<K, V>(s: Slots<K, V>, gap: nat, q: seq<(nat, (K, V))>)
    requires Relocatable(|s|, gap, q)
    ensures Relocate(s, gap, q)[Gap(gap, q, |q|)] == None
    decreases |q|
  {
    if q != [] {
      RelocatableTail(|s|, gap, q);
      assert Gap(gap, q, |q|) == Gap(q[0].0, q[1..], |q| - 1);
      RelocateLast(s[gap := Some(q[0].1)], q[0].0, q[1..]);
    }
  }

  /** What relocation leaves in each slot: the `l`-th gap holds the `l`-th
      queued pair, the last gap is empty, and every other slot is untouched. */
  lemma RelocateAt<K, V>(s: Slots<K, V>, gap: nat, q: seq<(nat, (K, V))>)
    requires Relocatable(|s|, gap, q)
    ensures forall l :: 0 <= l < |q| ==> Relocate(s, gap, q)[Gap(gap, q, l)] == Some(q[l].1)
    ensures Relocate(s, gap, q)[Gap(gap, q, |q|)] == None
    ensures forall x :: 0 <= x < |s| && x != gap && (forall m :: 0 <= m < |q| ==> x != q[m].0) ==>
      Relocate(s, gap, q)[x] == s[x]
  {
    forall l | 0 <= l < |q| ensures Relocate(s, gap, q)[Gap(gap, q, l)] == Some(q[l].1) {
      RelocateGap(s, gap, q, l);
    }
    RelocateLast(s, gap, q);
    forall x | 0 <= x < |s| && x != gap && (forall m :: 0 <= m < |q| ==> x != q[m].0)
      ensures Relocate(s, gap, q)[x] == s[x]
    {
      RelocateElsewhere(s, gap, q, x);
    }
  }

  /** Relocating occupied slots empties exactly one slot more than `gap` was. */
  lemma {:induction false} RelocateCount<K, V>(s: Slots<K, V>, gap: nat, q: seq<(nat, (K, V))>)
    requires Relocatable(|s|, gap, q)
    requires forall m :: 0 <= m < |q| ==> s[q[m].0].Some?
    ensures Count(Relocate(s, gap, q)) == Count(s) - (if s[gap].Some? then 1 else 0)
    decreases |q|
  {
    if q == [] {
      CountUpdate(s, gap, None);
    } else {
      var s', gap', q' := s[gap := Some(q[0].1)], q[0].0, q[1..];
      RelocatableTail(|s|, gap, q);
      forall m | 0 <= m < |q'| ensures s'[q'[m].0].Some? {
        assert q'[m] == q[m + 1];
      }
      RelocateCount(s', gap', q');
      CountUpdate(s, gap, Some(q[0].1));
    }
  }

  /** The slot `remove(key)` empties. */
  ghost function ChainStart<K, V>(s: Slots<K, V>, hash: K -> nat, key: K): nat
    requires |s| > 0
  {
    FirstStop(s, key, Home(hash, key, |s|), 0)
  }

  /** The slot array right after `remove` has emptied `find(key)`'s slot. */
  function Cleared<K(==), V>(s: Slots<K, V>, hash: K -> nat, key: K): (c: Slots<K, V>)
    requires |s| > 0
    ensures |c| == |s|
  {
    s[Locate(s, hash, key) := None]
  }

  /** The queue of `(index, pair)` that `remove(key)` relocates. */
  function RemovalQueue<K(==), V>(s: Slots<K, V>, hash: K -> nat, key: K): (q: seq<(nat, (K, V))>)
    requires |s| > 0
    ensures forall m :: 0 <= m < |q| ==>
      q[m].0 < |s| && q[m].0 != Locate(s, hash, key) && s[q[m].0] == Some(q[m].1) &&
      Home(hash, q[m].1.0, |s|) == Home(hash, key, |s|)
  {
    ScanSound(Cleared(s, hash, key), hash, Home(hash, key, |s|), Locate(s, hash, key), 1);
    Scan(Cleared(s, hash, key), hash, Home(hash, key, |s|), Locate(s, hash, key), 1)
  }

  /** The probe steps, from the emptied slot, of the queued pairs. */
  ghost function RemovalSteps<K, V>(s: Slots<K, V>, hash: K -> nat, key: K): seq<nat>
    requires |s| > 0
  {
    ScanSteps(Cleared(s, hash, key), hash, Home(hash, key, |s|), Locate(s, hash, key), 1)
  }

  /** The probe step, from the emptied slot, at which the scan stops. */
  ghost function ChainEnd<K, V>(s: Slots<K, V>, hash: K -> nat, key: K): nat
    requires |s| > 0
  {
    FirstEmpty(Cleared(s, hash, key), Locate(s, hash, key), 1)
  }

  /** The slot array after `remove(key)`. */
  function Removed<K(==), V>(s: Slots<K, V>, hash: K -> nat, key: K): (r: Slots<K, V>)
    requires |s| > 0
    ensures |r| == |s|
  {
    var i := Locate(s, hash, key);
    if s[i].None? then s else Relocate(Cleared(s, hash, key), i, RemovalQueue(s, hash, key))
  }

  /** The probe step, from the home bucket, of the `l`-th gap of a removal. */
  ghost function GapStep<K, V>(s: Slots<K, V>, hash: K -> nat, key: K, l: nat): nat
    requires |s| > 0
  {
    var st := RemovalSteps(s, hash, key);
    if l == 0 || l > |st| then ChainStart(s, hash, key) else ChainStart(s, hash, key) + st[l - 1]
  }

  /** The walk of `remove(key)` ends at an empty slot before its probe
      sequence wraps back to the key's home bucket. */
  lemma ChainEndBound<K, V>(s: Slots<K, V>, hash: K -> nat, key: K)
    requires Probeable(s) && s[Locate(s, hash, key)].Some?
    ensures 1 <= ChainEnd(s, hash, key) && ChainStart(s, hash, key) + ChainEnd(s, hash, key) < |s|
  {
    var n := |s|;
    var h, j0, e := Home(hash, key, n), ChainStart(s, hash, key), ChainEnd(s, hash, key);
    var i0 := Locate(s, hash, key);
    var s1 := Cleared(s, hash, key);
    LocateStops(s, hash, key);
    // The empty slot of `s` lies after the removed key on its probe sequence.
    var hole :| 0 <= hole < n && s[hole].None?;
    var jE := SlotCovers(n, h, hole);
    assert StopsAt(s, key, Slot(n, h, jE));
    assert j0 < jE;
    SlotShift(n, h, j0, jE - j0);
    assert s1[Slot(n, i0, jE - j0)].None?;
  }

  /** The steps the walk of `remove(key)` passes, seen from the home bucket,
      are occupied slots other than the emptied one. */
  lemma ChainOccupied<K, V>(s: Slots<K, V>, hash: K -> nat, key: K)
    requires Probeable(s) && s[Locate(s, hash, key)].Some?
    requires ChainStart(s, hash, key) + ChainEnd(s, hash, key) < |s|
    ensures forall v :: ChainStart(s, hash, key) < v < ChainStart(s, hash, key) + ChainEnd(s, hash, key) ==>
      Slot(|s|, Home(hash, key, |s|), v) != Locate(s, hash, key) && s[Slot(|s|, Home(hash, key, |s|), v)].Some?
  {
    var n := |s|;
    var h, j0, e := Home(hash, key, n), ChainStart(s, hash, key), ChainEnd(s, hash, key);
    var i0 := Locate(s, hash, key);
    var s1 := Cleared(s, hash, key);
    forall v | j0 < v < j0 + e
      ensures Slot(n, h, v) != i0 && s[Slot(n, h, v)].Some?
    {
      SlotShift(n, h, j0, v - j0);
      assert s1[Slot(n, i0, v - j0)].Some?;
    }
  }

  /** The walk of `remove(key)` seen from the key's home bucket `h`: the
      emptied slot is probe step `j0`, the walk passes the occupied steps
      `j0 + 1 .. j0 + e - 1` and stops at the empty step `j0 + e`, before
      the probe sequence wraps around. */
  lemma ChainShape<K, V>(s: Slots<K, V>, hash: K -> nat, key: K) returns (h: nat, j0: nat, e: nat)
    requires Probeable(s) && s[Locate(s, hash, key)].Some?
    ensures h == Home(hash, key, |s|) && j0 == ChainStart(s, hash, key) && e == ChainEnd(s, hash, key)
    ensures Locate(s, hash, key) == Slot(|s|, h, j0)
    ensures 1 <= e && j0 + e < |s|
    ensures forall v :: j0 < v < j0 + e ==> Slot(|s|, h, v) != Locate(s, hash, key) && s[Slot(|s|, h, v)].Some?
    ensures s[Slot(|s|, h, j0 + e)].None?
  {
    var n := |s|;
    h, j0, e := Home(hash, key, n), ChainStart(s, hash, key), ChainEnd(s, hash, key);
    ChainEndBound(s, hash, key);
    ChainOccupied(s, hash, key);
    var i0 := Locate(s, hash, key);
    var s1 := Cleared(s, hash, key);
    SlotShift(n, h, j0, e);
    assert s1[Slot(n, i0, e)].None?;
    SlotDistinct(n, h, j0 + e, j0);
  }

  /** Queue positions at distinct probe steps strictly inside a walk that
      does not wrap around are distinct slots, other than the walk's first. */
  lemma StepsDistinct<K, V>(n: nat, h: nat, j0: nat, e: nat, q: seq<(nat, (K, V))>, st: seq<nat>)
    requires n > 0 && n % PROBE_OFFSET != 0 && j0 + e < n && |st| == |q|
    requires forall m :: 0 <= m < |st| ==> 1 <= st[m] < e && q[m].0 == Slot(n, h, j0 + st[m])
    requires forall m, m' :: 0 <= m < m' < |st| ==> st[m] < st[m']
    ensures forall m :: 0 <= m < |q| ==> q[m].0 < n && q[m].0 != Slot(n, h, j0)
    ensures forall m, m' :: 0 <= m < m' < |q| ==> q[m].0 != q[m'].0
  {
    forall m | 0 <= m < |q| ensures q[m].0 < n && q[m].0 != Slot(n, h, j0) {
      SlotDistinct(n, h, j0 + st[m], j0);
    }
    forall m, m' | 0 <= m < m' < |q| ensures q[m].0 != q[m'].0 {
      SlotDistinct(n, h, j0 + st[m], j0 + st[m']);
    }
  }

  /** The queue of `remove(key)`: its pairs sit at increasing probe steps
      `j0 + st[m]` inside the walk, have the removed key's home bucket, and
      are every such pair of the walk; their slots are distinct and differ
      from the emptied one. */
  lemma QueueShape<K, V>(s: Slots<K, V>, hash: K -> nat, key: K)
    returns (h: nat, j0: nat, e: nat, q: seq<(nat, (K, V))>, st: seq<nat>)
    requires Probeable(s) && s[Locate(s, hash, key)].Some?
    ensures h == Home(hash, key, |s|) && j0 == ChainStart(s, hash, key) && e == ChainEnd(s, hash, key)
    ensures q == RemovalQueue(s, hash, key) && st == RemovalSteps(s, hash, key) && |st| == |q|
    ensures Locate(s, hash, key) == Slot(|s|, h, j0) && 1 <= e && j0 + e < |s| && s[Slot(|s|, h, j0 + e)].None?
    ensures forall m :: 0 <= m < |st| ==> 1 <= st[m] < e && q[m].0 == Slot(|s|, h, j0 + st[m])
    ensures forall m, m' :: 0 <= m < m' < |st| ==> st[m] < st[m']
    ensures forall m :: 0 <= m < |q| ==> s[q[m].0] == Some(q[m].1) && Home(hash, q[m].1.0, |s|) == h
    ensures Relocatable(|s|, Locate(s, hash, key), q)
  {
    var n, i0 := |s|, Locate(s, hash, key);
    h, j0, e := ChainShape(s, hash, key);
    q, st := RemovalQueue(s, hash, key), RemovalSteps(s, hash, key);
    var s1 := Cleared(s, hash, key);
    ScanStepsMatch(s1, hash, h, i0, 1);
    ScanStepsSorted(s1, hash, h, i0, 1);
    ScanSound(s1, hash, h, i0, 1);
    forall m | 0 <= m < |st| ensures 1 <= st[m] < e && q[m].0 == Slot(n, h, j0 + st[m]) {
      SlotShift(n, h, j0, st[m]);
    }
    StepsDistinct(n, h, j0, e, q, st);
  }

  /** Every pair of the walk with the removed key's home bucket is queued. */
  lemma QueueComplete<K, V>(s: Slots<K, V>, hash: K -> nat, key: K)
    requires Probeable(s) && s[Locate(s, hash, key)].Some?
    ensures forall v ::
      ChainStart(s, hash, key) < v < ChainStart(s, hash, key) + ChainEnd(s, hash, key) &&
      s[Slot(|s|, Home(hash, key, |s|), v)].Some? &&
      Home(hash, s[Slot(|s|, Home(hash, key, |s|), v)].value.0, |s|) == Home(hash, key, |s|) ==>
      v - ChainStart(s, hash, key) in RemovalSteps(s, hash, key)
  {
    var n, i0 := |s|, Locate(s, hash, key);
    var h, j0, e := ChainShape(s, hash, key);
    var s1 := Cleared(s, hash, key);
    ScanStepsComplete(s1, hash, h, i0, 1);
    forall v | j0 < v < j0 + e && s[Slot(n, h, v)].Some? && Home(hash, s[Slot(n, h, v)].value.0, n) == h
      ensures v - j0 in RemovalSteps(s, hash, key)
    {
      SlotShift(n, h, j0, v - j0);
    }
  }

  /** Every stored key of home bucket `h` is found by `find` at its slot:
      coherence restricted to one bucket. */
  ghost predicate BucketFound<K, V>(s: Slots<K, V>, hash: K -> nat, h: nat)
    requires |s| > 0
  {
    forall i {:trigger FoundAt(s, hash, i)} ::
      0 <= i < |s| && s[i].Some? && Home(hash, s[i].value.0, |s|) == h ==> FoundAt(s, hash, i)
  }

  /** Before the removed slot, the new table agrees with the old one, where
      a moved key's search passed over occupied slots of other keys. */
  lemma MovedPassesBefore<K, V>(s: Slots<K, V>, hash: K -> nat, key: K, l: nat, i: nat)
    requires Probeable(s) && s[Locate(s, hash, key)].Some?
    requires l < |RemovalQueue(s, hash, key)| && FoundAt(s, hash, RemovalQueue(s, hash, key)[l].0)
    requires i < ChainStart(s, hash, key)
    ensures !StopsAt(Removed(s, hash, key), RemovalQueue(s, hash, key)[l].1.0, Slot(|s|, Home(hash, key, |s|), i))
  {
    var h, kl := Home(hash, key, |s|), RemovalQueue(s, hash, key)[l].1.0;
    RemovedBeforeChain(s, hash, key, i);
    QueuedStopsLater(s, hash, key, l);
    assert i < FirstStop(s, kl, h, 0);
  }

  /** If `find` reached a queued key at its queued slot, its search stops
      exactly at that slot's step, after the removed key's slot on the same
      probe sequence. */
  lemma QueuedStopsLater<K, V>(s: Slots<K, V>, hash: K -> nat, key: K, l: nat)
    requires Probeable(s) && s[Locate(s, hash, key)].Some?
    requires l < |RemovalQueue(s, hash, key)| && FoundAt(s, hash, RemovalQueue(s, hash, key)[l].0)
    ensures l < |RemovalSteps(s, hash, key)|
    ensures FirstStop(s, RemovalQueue(s, hash, key)[l].1.0, Home(hash, key, |s|), 0)
      == ChainStart(s, hash, key) + RemovalSteps(s, hash, key)[l]
    ensures ChainStart(s, hash, key) < FirstStop(s, RemovalQueue(s, hash, key)[l].1.0, Home(hash, key, |s|), 0)
  {
    var h, j0, e, q, st := QueueShape(s, hash, key);
    var n, kl := |s|, q[l].1.0;
    LocateStops(s, hash, kl);
    var jl := FirstStop(s, kl, h, 0);
    assert Slot(n, h, jl) == Slot(n, h, j0 + st[l]);
    SlotInjective(n, h, jl, j0 + st[l]);
  }

  /** The slots the removed key's search passed before reaching it keep
      their contents. */
  lemma RemovedBeforeChain<K, V>(s: Slots<K, V>, hash: K -> nat, key: K, i: nat)
    requires Probeable(s) && s[Locate(s, hash, key)].Some? && i < ChainStart(s, hash, key)
    ensures Removed(s, hash, key)[Slot(|s|, Home(hash, key, |s|), i)] == s[Slot(|s|, Home(hash, key, |s|), i)]
  {
    var h, j0, e, q, st := QueueShape(s, hash, key);
    var n, i0 := |s|, Locate(s, hash, key);
    var s1, r := Cleared(s, hash, key), Removed(s, hash, key);
    assert r == Relocate(s1, i0, q);
    var y := Slot(n, h, i);
    SlotDistinct(n, h, i, j0);
    forall m | 0 <= m < |q| ensures y != q[m].0 { SlotDistinct(n, h, i, j0 + st[m]); }
    RelocateElsewhere(s1, i0, q, y);
    assert s1[y] == s[y];
  }

  /** A queued slot before a moved key's gap received a later queued pair.
      That pair sat before the moved key's own slot on its search, so it
      holds another key. */
  lemma MovedPassesQueued<K, V>(s: Slots<K, V>, hash: K -> nat, key: K, l: nat, i: nat, m: nat)
    requires Probeable(s) && s[Locate(s, hash, key)].Some?
    requires l < |RemovalQueue(s, hash, key)| && FoundAt(s, hash, RemovalQueue(s, hash, key)[l].0)
    requires ChainStart(s, hash, key) < i < GapStep(s, hash, key, l)
    requires m < |RemovalQueue(s, hash, key)| && RemovalQueue(s, hash, key)[m].0 == Slot(|s|, Home(hash, key, |s|), i)
    ensures !StopsAt(Removed(s, hash, key), RemovalQueue(s, hash, key)[l].1.0, Slot(|s|, Home(hash, key, |s|), i))
  {
    var h, j0, e, q, st := QueueShape(s, hash, key);
    var n, i0, kl := |s|, Locate(s, hash, key), q[l].1.0;
    QueuedBeforeGap(s, hash, key, l, i, m);
    RemovedGap(s, hash, key, m + 1);
    assert Gap(i0, q, m + 1) == q[m].0;
    QueuedStopsLater(s, hash, key, l);
    assert st[m + 1] < st[l];
    assert !StopsAt(s, kl, Slot(n, h, j0 + st[m + 1]));
  }

  /** A queued slot strictly between the emptied slot and the `l`-th gap is
      queued before the pair that moves into that gap. */
  lemma QueuedBeforeGap<K, V>(s: Slots<K, V>, hash: K -> nat, key: K, l: nat, i: nat, m: nat)
    requires Probeable(s) && s[Locate(s, hash, key)].Some?
    requires l < |RemovalQueue(s, hash, key)| && ChainStart(s, hash, key) < i < GapStep(s, hash, key, l)
    requires m < |RemovalQueue(s, hash, key)| && RemovalQueue(s, hash, key)[m].0 == Slot(|s|, Home(hash, key, |s|), i)
    ensures m + 1 < l
  {
    var h, j0, e, q, st := QueueShape(s, hash, key);
    SlotInjective(|s|, h, i, j0 + st[m]);
    assert 0 < l && st[m] < st[l - 1];
  }

  /** Different queued pairs hold different keys when `find` reached both
      at their queued slots (as it does in a coherent table). */
  lemma QueuedKeysDistinct<K, V>(s: Slots<K, V>, hash: K -> nat, key: K, a: nat, b: nat)
    requires Probeable(s) && s[Locate(s, hash, key)].Some?
    requires a < |RemovalQueue(s, hash, key)| && b < |RemovalQueue(s, hash, key)| && a != b
    requires FoundAt(s, hash, RemovalQueue(s, hash, key)[a].0) && FoundAt(s, hash, RemovalQueue(s, hash, key)[b].0)
    ensures RemovalQueue(s, hash, key)[a].1.0 != RemovalQueue(s, hash, key)[b].1.0
  {
    var h, j0, e, q, st := QueueShape(s, hash, key);
    assert q[a].0 != q[b].0;
  }

  /** An unqueued slot of the walk keeps its pair, which lies before the
      moved key's own slot on its search and so holds another key. */
  lemma MovedPassesKept<K, V>(s: Slots<K, V>, hash: K -> nat, key: K, l: nat, i: nat)
    requires Probeable(s) && s[Locate(s, hash, key)].Some?
    requires l < |RemovalQueue(s, hash, key)| && FoundAt(s, hash, RemovalQueue(s, hash, key)[l].0)
    requires ChainStart(s, hash, key) < i < GapStep(s, hash, key, l)
    requires forall m :: 0 <= m < |RemovalQueue(s, hash, key)| ==>
      RemovalQueue(s, hash, key)[m].0 != Slot(|s|, Home(hash, key, |s|), i)
    ensures !StopsAt(Removed(s, hash, key), RemovalQueue(s, hash, key)[l].1.0, Slot(|s|, Home(hash, key, |s|), i))
  {
    var h, j0, e, q, st := QueueShape(s, hash, key);
    var n, i0 := |s|, Locate(s, hash, key);
    var s1 := Cleared(s, hash, key);
    assert Removed(s, hash, key) == Relocate(s1, i0, q);
    var y := Slot(n, h, i);
    SlotDistinct(n, h, i, j0);
    RelocateElsewhere(s1, i0, q, y);
    assert s1[y] == s[y];
    QueuedStopsLater(s, hash, key, l);
    assert 0 < l && i < j0 + st[l - 1] && st[l - 1] < st[l];
    assert !StopsAt(s, q[l].1.0, y);
  }

  /** The emptied slot receives the first queued pair, which lies before the
      moved key's own slot on its search and so holds another key. */
  lemma MovedPassesEmptied<K, V>(s: Slots<K, V>, hash: K -> nat, key: K, l: nat)
    requires Probeable(s) && s[Locate(s, hash, key)].Some?
    requires l < |RemovalQueue(s, hash, key)| && FoundAt(s, hash, RemovalQueue(s, hash, key)[l].0) && 0 < l
    ensures !StopsAt(Removed(s, hash, key), RemovalQueue(s, hash, key)[l].1.0, Locate(s, hash, key))
  {
    var h, j0, e, q, st := QueueShape(s, hash, key);
    RelocateGap(Cleared(s, hash, key), Locate(s, hash, key), q, 0);
    QueuedStopsLater(s, hash, key, l);
    assert st[0] < st[l];
    assert !StopsAt(s, q[l].1.0, Slot(|s|, h, j0 + st[0]));
  }

  /** On the way to its own slot, a moved key's search in the new table
      meets only occupied slots holding other keys, provided `find` reached
      the key before the removal. */
  lemma MovedPasses<K, V>(s: Slots<K, V>, hash: K -> nat, key: K, l: nat, i: nat)
    requires Probeable(s) && s[Locate(s, hash, key)].Some?
    requires l < |RemovalQueue(s, hash, key)| && FoundAt(s, hash, RemovalQueue(s, hash, key)[l].0)
    requires i < GapStep(s, hash, key, l)
    ensures !StopsAt(Removed(s, hash, key), RemovalQueue(s, hash, key)[l].1.0, Slot(|s|, Home(hash, key, |s|), i))
  {
    var j0 := ChainStart(s, hash, key);
    if i < j0 {
      MovedPassesBefore(s, hash, key, l, i);
    } else if i == j0 {
      var h, _, _, _, _ := QueueShape(s, hash, key);
      MovedPassesEmptied(s, hash, key, l);
    } else if m :| 0 <= m < |RemovalQueue(s, hash, key)| &&
                   RemovalQueue(s, hash, key)[m].0 == Slot(|s|, Home(hash, key, |s|), i) {
      MovedPassesQueued(s, hash, key, l, i, m);
    } else {
      MovedPassesKept(s, hash, key, l, i);
    }
  }

  /** A key that `remove` relocates, and that `find` reached before, is found
      afterwards at its new slot. */
  lemma MovedStaysFound<K, V>(s: Slots<K, V>, hash: K -> nat, key: K, l: nat)
    requires Probeable(s) && s[Locate(s, hash, key)].Some?
    requires l < |RemovalQueue(s, hash, key)| && FoundAt(s, hash, RemovalQueue(s, hash, key)[l].0)
    ensures Locate(Removed(s, hash, key), hash, RemovalQueue(s, hash, key)[l].1.0)
      == Gap(Locate(s, hash, key), RemovalQueue(s, hash, key), l)
  {
    var h, j0, e, q, st := QueueShape(s, hash, key);
    var n, i0 := |s|, Locate(s, hash, key);
    var r := Removed(s, hash, key);
    RelocateGap(Cleared(s, hash, key), i0, q, l);
    var kl := q[l].1.0;
    var J := GapStep(s, hash, key, l);
    assert Gap(i0, q, l) == Slot(n, h, J);
    forall i | 0 <= i < J ensures !StopsAt(r, kl, Slot(n, h, i)) {
      MovedPasses(s, hash, key, l, i);
    }
    FirstStopIs(r, kl, h, J);
  }

  /** A same-bucket key that `find` reached and the walk does not queue sits
      before the removed key on the shared probe sequence. */
  lemma UnmovedBefore<K, V>(s: Slots<K, V>, hash: K -> nat, key: K, x: nat)
    requires Probeable(s) && s[Locate(s, hash, key)].Some?
    requires x < |s| && x != Locate(s, hash, key) && FoundAt(s, hash, x)
    requires forall m :: 0 <= m < |RemovalQueue(s, hash, key)| ==> x != RemovalQueue(s, hash, key)[m].0
    requires s[x].Some? && Home(hash, s[x].value.0, |s|) == Home(hash, key, |s|)
    ensures FirstStop(s, s[x].value.0, Home(hash, key, |s|), 0) < ChainStart(s, hash, key)
    ensures x == Slot(|s|, Home(hash, key, |s|), FirstStop(s, s[x].value.0, Home(hash, key, |s|), 0))
  {
    var h, j0, e, q, st := QueueShape(s, hash, key);
    var n, kx := |s|, s[x].value.0;
    LocateStops(s, hash, kx);
    var jx := FirstStop(s, kx, h, 0);
    assert x == Slot(n, h, jx) && jx != j0;
    // Not at or past the end of the walk, which is empty ...
    assert StopsAt(s, kx, Slot(n, h, j0 + e)) && Slot(n, h, j0 + e) != x;
    assert jx < j0 + e;
    // ... and not inside it, where it would have been queued.
    forall m | 0 <= m < |st| ensures j0 + st[m] != jx {
      assert Slot(n, h, j0 + st[m]) != Slot(n, h, jx);
    }
    assert s[Slot(n, h, jx)].Some? && Home(hash, s[Slot(n, h, jx)].value.0, n) == h;
    QueueComplete(s, hash, key);
    UnqueuedStepBeforeWalk(st, j0, jx, e);
  }

  /** The arithmetic step of `UnmovedBefore`: a step of the walk that is not
      among the queued steps `j0 + st[m]`, although every same-bucket step
      inside the walk is queued, lies before the walk. */
  lemma UnqueuedStepBeforeWalk(st: seq<nat>, j0: int, jx: int, e: int)
    requires forall m :: 0 <= m < |st| ==> j0 + st[m] != jx
    requires j0 < jx < j0 + e ==> jx - j0 in st
    requires jx != j0 && jx < j0 + e
    ensures jx < j0
  {
  }

  /** A same-bucket key that `find` reached and `remove` leaves in place is
      still found there. */
  lemma UnmovedStaysFound<K, V>(s: Slots<K, V>, hash: K -> nat, key: K, x: nat)
    requires Probeable(s) && s[Locate(s, hash, key)].Some?
    requires x < |s| && x != Locate(s, hash, key) && FoundAt(s, hash, x)
    requires forall m :: 0 <= m < |RemovalQueue(s, hash, key)| ==> x != RemovalQueue(s, hash, key)[m].0
    requires s[x].Some? && Home(hash, s[x].value.0, |s|) == Home(hash, key, |s|)
    ensures Removed(s, hash, key)[x] == s[x]
    ensures Locate(Removed(s, hash, key), hash, s[x].value.0) == x
  {
    var h, j0, e, q, st := QueueShape(s, hash, key);
    var n, i0 := |s|, Locate(s, hash, key);
    var s1 := Cleared(s, hash, key);
    var r := Removed(s, hash, key);
    assert r == Relocate(s1, i0, q);
    RelocateElsewhere(s1, i0, q, x);
    var kx := s[x].value.0;
    UnmovedBefore(s, hash, key, x);
    var jx := FirstStop(s, kx, h, 0);
    forall i | 0 <= i < jx ensures !StopsAt(r, kx, Slot(n, h, i)) {
      var y := Slot(n, h, i);
      SlotDistinct(n, h, i, j0);
      forall m | 0 <= m < |q| ensures y != q[m].0 {
        SlotDistinct(n, h, i, j0 + st[m]);
      }
      RelocateElsewhere(s1, i0, q, y);
      assert s1[y] == s[y];
    }
    FirstStopIs(r, kx, h, jx);
  }

  /** `remove(key)` keeps every other key of its home bucket that `find`
      reached: afterwards `find` reaches the same pair. */
  lemma RemoveKeepsReached<K, V>(s: Slots<K, V>, hash: K -> nat, key: K, k: K)
    requires Probeable(s) && k != key && Home(hash, k, |s|) == Home(hash, key, |s|)
    requires s[Locate(s, hash, k)].Some? && s[Locate(s, hash, k)].value.0 == k
    ensures Removed(s, hash, key)[Locate(Removed(s, hash, key), hash, k)] == s[Locate(s, hash, k)]
  {
    var x, i0 := Locate(s, hash, k), Locate(s, hash, key);
    assert FoundAt(s, hash, x);
    if s[i0].Some? {
      LocateStops(s, hash, key);
      var h, j0, e, q, st := QueueShape(s, hash, key);
      if m :| 0 <= m < |q| && x == q[m].0 {
        MovedStaysFound(s, hash, key, m);
        RemovedGap(s, hash, key, m);
      } else {
        UnmovedStaysFound(s, hash, key, x);
      }
    }
  }

  /** The emptied slot, when a queued pair refills it, holds a key found
      there afterwards, provided its bucket was found before. */
  lemma KeepsBucketEmptied<K, V>(s: Slots<K, V>, hash: K -> nat, key: K)
    requires Probeable(s) && s[Locate(s, hash, key)].Some?
    requires 0 < |RemovalQueue(s, hash, key)| && FoundAt(s, hash, RemovalQueue(s, hash, key)[0].0)
    ensures Removed(s, hash, key)[Locate(s, hash, key)] == Some(RemovalQueue(s, hash, key)[0].1)
    ensures Locate(Removed(s, hash, key), hash, RemovalQueue(s, hash, key)[0].1.0) == Locate(s, hash, key)
  {
    RemovedGap(s, hash, key, 0);
    MovedStaysFound(s, hash, key, 0);
  }

  /** A queued slot that the next queued pair refills holds that pair, and
      `find` reaches it there, provided `find` reached the pair before. */
  lemma KeepsBucketQueued<K, V>(s: Slots<K, V>, hash: K -> nat, key: K, m: nat)
    requires Probeable(s) && s[Locate(s, hash, key)].Some?
    requires m + 1 < |RemovalQueue(s, hash, key)| && FoundAt(s, hash, RemovalQueue(s, hash, key)[m + 1].0)
    ensures Removed(s, hash, key)[RemovalQueue(s, hash, key)[m].0] == Some(RemovalQueue(s, hash, key)[m + 1].1)
    ensures Locate(Removed(s, hash, key), hash, RemovalQueue(s, hash, key)[m + 1].1.0)
      == RemovalQueue(s, hash, key)[m].0
  {
    var q := RemovalQueue(s, hash, key);
    assert Gap(Locate(s, hash, key), q, m + 1) == q[m].0;
    RemovedGap(s, hash, key, m + 1);
    MovedStaysFound(s, hash, key, m + 1);
  }

  /** After `remove(key)` from a table where every key of the removed key's
      home bucket is found, a slot holding a key of that bucket is where
      `find` looks for that key. */
  lemma RemoveKeepsBucketAt<K, V>(s: Slots<K, V>, hash: K -> nat, key: K, x: nat)
    requires Probeable(s) && BucketFound(s, hash, Home(hash, key, |s|)) && s[Locate(s, hash, key)].Some?
    requires x < |s| && Removed(s, hash, key)[x].Some?
    requires Home(hash, Removed(s, hash, key)[x].value.0, |s|) == Home(hash, key, |s|)
    ensures Locate(Removed(s, hash, key), hash, Removed(s, hash, key)[x].value.0) == x
  {
    var q, i0 := RemovalQueue(s, hash, key), Locate(s, hash, key);
    RemovedLast(s, hash, key);
    if x == i0 {
      assert 0 < |q|;
      assert FoundAt(s, hash, q[0].0);
      KeepsBucketEmptied(s, hash, key);
    } else if m :| 0 <= m < |q| && x == q[m].0 {
      assert Gap(i0, q, m + 1) == x;
      assert m + 1 < |q|;
      assert FoundAt(s, hash, q[m + 1].0);
      KeepsBucketQueued(s, hash, key, m);
    } else {
      RemovedElsewhere(s, hash, key, x);
      assert FoundAt(s, hash, x);
      UnmovedStaysFound(s, hash, key, x);
    }
  }

  /** Removing a key keeps its home bucket found: if every key of the bucket
      was found at its slot before (as in a coherent table), every key of it
      is found at its slot afterwards. */
  lemma RemoveKeepsBucket<K, V>(s: Slots<K, V>, hash: K -> nat, key: K)
    requires Probeable(s) && BucketFound(s, hash, Home(hash, key, |s|))
    ensures forall x ::
      (0 <= x < |s| && Removed(s, hash, key)[x].Some? &&
       Home(hash, Removed(s, hash, key)[x].value.0, |s|) == Home(hash, key, |s|)) ==>
        Locate(Removed(s, hash, key), hash, Removed(s, hash, key)[x].value.0) == x
  {
    var r := Removed(s, hash, key);
    forall x | 0 <= x < |s| && r[x].Some? && Home(hash, r[x].value.0, |s|) == Home(hash, key, |s|)
      ensures Locate(r, hash, r[x].value.0) == x
    {
      if s[Locate(s, hash, key)].Some? {
        RemoveKeepsBucketAt(s, hash, key, x);
      } else {
        assert FoundAt(s, hash, x);
      }
    }
  }

  /** `remove` of a stored key empties exactly one slot; otherwise nothing
      changes. */
  lemma RemovedCount<K, V>(s: Slots<K, V>, hash: K -> nat, key: K)
    requires Probeable(s)
    ensures Count(Removed(s, hash, key)) == Count(s) - (if s[Locate(s, hash, key)].Some? then 1 else 0)
  {
    var i0 := Locate(s, hash, key);
    if s[i0].Some? {
      var h, j0, e, q, st := QueueShape(s, hash, key);
      var s1 := Cleared(s, hash, key);
      forall m | 0 <= m < |q| ensures s1[q[m].0].Some? {
        assert q[m].0 != i0;
      }
      RelocateCount(s1, i0, q);
      CountUpdate(s, i0, None);
    }
  }

  /** A slot that `remove` refilled holds a queued pair, which was stored
      before and is not the removed one. */
  lemma RemovedEntryMoved<K, V>(s: Slots<K, V>, hash: K -> nat, key: K, m: nat)
    requires Probeable(s) && DistinctKeys(s) && s[Locate(s, hash, key)].Some?
    requires m < |RemovalQueue(s, hash, key)|
    ensures Removed(s, hash, key)[Gap(Locate(s, hash, key), RemovalQueue(s, hash, key), m)]
      == Some(RemovalQueue(s, hash, key)[m].1)
    ensures RemovalQueue(s, hash, key)[m].1 in Entries(s) - {s[Locate(s, hash, key)].value}
  {
    var h, j0, e, q, st := QueueShape(s, hash, key);
    RemovedGap(s, hash, key, m);
    assert s[q[m].0].value == q[m].1;
  }

  /** The `m`-th gap of a removal receives the `m`-th queued pair. */
  lemma RemovedGap<K, V>(s: Slots<K, V>, hash: K -> nat, key: K, m: nat)
    requires Probeable(s) && s[Locate(s, hash, key)].Some?
    requires m < |RemovalQueue(s, hash, key)|
    ensures Removed(s, hash, key)[Gap(Locate(s, hash, key), RemovalQueue(s, hash, key), m)]
      == Some(RemovalQueue(s, hash, key)[m].1)
  {
    var h, j0, e, q, st := QueueShape(s, hash, key);
    var i0 := Locate(s, hash, key);
    assert Removed(s, hash, key) == Relocate(Cleared(s, hash, key), i0, q);
    RelocateGap(Cleared(s, hash, key), i0, q, m);
  }

  /** After `remove`, the last gap of the walk is empty. */
  lemma RemovedLast<K, V>(s: Slots<K, V>, hash: K -> nat, key: K)
    requires Probeable(s) && s[Locate(s, hash, key)].Some?
    ensures Removed(s, hash, key)[Gap(Locate(s, hash, key), RemovalQueue(s, hash, key), |RemovalQueue(s, hash, key)|)]
      == None
  {
    var h, j0, e, q, st := QueueShape(s, hash, key);
    var i0 := Locate(s, hash, key);
    assert Removed(s, hash, key) == Relocate(Cleared(s, hash, key), i0, q);
    RelocateLast(Cleared(s, hash, key), i0, q);
  }

  /** After `remove`, a slot that is neither the emptied one nor queued keeps
      its contents. */
  lemma RemovedElsewhere<K, V>(s: Slots<K, V>, hash: K -> nat, key: K, x: nat)
    requires Probeable(s) && s[Locate(s, hash, key)].Some?
    requires x < |s| && x != Locate(s, hash, key)
    requires forall m :: 0 <= m < |RemovalQueue(s, hash, key)| ==> x != RemovalQueue(s, hash, key)[m].0
    ensures Removed(s, hash, key)[x] == s[x]
  {
    var h, j0, e, q, st := QueueShape(s, hash, key);
    var i0 := Locate(s, hash, key);
    assert Removed(s, hash, key) == Relocate(Cleared(s, hash, key), i0, q);
    RelocateElsewhere(Cleared(s, hash, key), i0, q, x);
  }

  /** Every pair left after `remove` was stored before, and is not the
      removed one. */
  lemma RemovedEntryFrom<K, V>(s: Slots<K, V>, hash: K -> nat, key: K, x: nat)
    requires Probeable(s) && DistinctKeys(s) && s[Locate(s, hash, key)].Some?
    requires x < |s| && Removed(s, hash, key)[x].Some?
    ensures Removed(s, hash, key)[x].value in Entries(s) - {s[Locate(s, hash, key)].value}
  {
    var h, j0, e, q, st := QueueShape(s, hash, key);
    var i0, s1 := Locate(s, hash, key), Cleared(s, hash, key);
    var r := Removed(s, hash, key);
    assert r == Relocate(s1, i0, q);
    RelocateLast(s1, i0, q);
    assert x != Gap(i0, q, |q|);
    if m :| 0 <= m < |q| && x == Gap(i0, q, m) {
      RemovedEntryMoved(s, hash, key, m);
    } else {
      assert x != Gap(i0, q, 0);
      forall m | 0 <= m < |q| ensures x != q[m].0 {
        assert q[m].0 == Gap(i0, q, m + 1);
      }
      RelocateElsewhere(s1, i0, q, x);
      assert r[x] == s[x];
      assert s[x].value.0 != s[i0].value.0;
    }
  }

  /** Every pair stored before `remove`, other than the removed one, is
      still stored somewhere afterwards. */
  lemma RemovedEntryTo<K, V>(s: Slots<K, V>, hash: K -> nat, key: K, x: nat)
    requires Probeable(s) && DistinctKeys(s) && s[Locate(s, hash, key)].Some?
    requires x < |s| && s[x].Some? && x != Locate(s, hash, key)
    ensures s[x].value in Entries(Removed(s, hash, key))
  {
    var h, j0, e, q, st := QueueShape(s, hash, key);
    var i0, s1 := Locate(s, hash, key), Cleared(s, hash, key);
    var r := Removed(s, hash, key);
    if m :| 0 <= m < |q| && x == q[m].0 {
      RelocateGap(s1, i0, q, m);
      assert r[Gap(i0, q, m)].value == s[x].value;
    } else {
      RelocateElsewhere(s1, i0, q, x);
      assert r[x] == s[x];
    }
  }

  /** With distinct keys, `remove` of a stored key loses exactly its pair:
      relocation moves pairs but drops none. */
  lemma RemovedEntries<K, V>(s: Slots<K, V>, hash: K -> nat, key: K)
    requires Probeable(s) && DistinctKeys(s) && s[Locate(s, hash, key)].Some?
    ensures Entries(Removed(s, hash, key)) == Entries(s) - {s[Locate(s, hash, key)].value}
  {
    var i0, r := Locate(s, hash, key), Removed(s, hash, key);
    forall pr | pr in Entries(r) ensures pr in Entries(s) - {s[i0].value} {
      var x :| 0 <= x < |r| && r[x].Some? && r[x].value == pr;
      RemovedEntryFrom(s, hash, key, x);
    }
    forall pr | pr in Entries(s) - {s[i0].value} ensures pr in Entries(r) {
      var x :| 0 <= x < |s| && s[x].Some? && s[x].value == pr;
      RemovedEntryTo(s, hash, key, x);
    }
  }

  /** With distinct keys, after `remove(key)` the table still has an empty
      slot and `find(key)` lands on an empty slot: the key is gone. */
  lemma RemovedKeyGone<K, V>(s: Slots<K, V>, hash: K -> nat, key: K)
    requires Probeable(s) && DistinctKeys(s)
    ensures Probeable(Removed(s, hash, key))
    ensures Removed(s, hash, key)[Locate(Removed(s, hash, key), hash, key)].None?
  {
    var i0, r := Locate(s, hash, key), Removed(s, hash, key);
    LocateStops(s, hash, key);
    if s[i0].Some? {
      var h, j0, e, q, st := QueueShape(s, hash, key);
      RelocateLast(Cleared(s, hash, key), i0, q);
      assert r[Gap(i0, q, |q|)].None?;
      RemovedEntries(s, hash, key);
      forall x | 0 <= x < |r| && r[x].Some? ensures r[x].value.0 != key {
        RemovedEntryFrom(s, hash, key, x);
        var y :| 0 <= y < |s| && s[y].Some? && s[y].value == r[x].value;
        assert y != i0;
      }
      LocateStops(r, hash, key);
    }
  }

  /** What `remove(key)` promises, on slot arrays: one pair fewer when the
      key was found; and, with distinct keys, the key is gone afterwards and
      every other pair is still stored. */
  lemma RemoveSpec<K, V>(s: Slots<K, V>, hash: K -> nat, key: K)
    requires Probeable(s)
    ensures Count(Removed(s, hash, key)) == Count(s) - (if StoredValue(s, hash, key).Some? then 1 else 0)
    ensures StoredValue(s, hash, key).None? ==> Removed(s, hash, key) == s
    ensures DistinctKeys(s) ==> Probeable(Removed(s, hash, key)) && StoredValue(Removed(s, hash, key), hash, key).None?
    ensures DistinctKeys(s) && StoredValue(s, hash, key).Some? ==>
      Entries(Removed(s, hash, key)) == Entries(s) - {(key, StoredValue(s, hash, key).value)}
  {
    RemovedCount(s, hash, key);
    LocateStops(s, hash, key);
    if DistinctKeys(s) {
      RemovedKeyGone(s, hash, key);
      if s[Locate(s, hash, key)].Some? {
        RemovedEntries(s, hash, key);
      }
    }
  }

  /** The identity, as the hash of natural-number keys. */
  function Identity(k: nat): nat { k }

  /** The home buckets and probe steps of the 41-slot examples below. */
  lemma Steps41()
    ensures Home(Identity, 0, 41) == 0 && Home(Identity, 41, 41) == 0 && Home(Identity, 17, 41) == 17
    ensures Slot(41, 0, 0) == 0 && Slot(41, 0, 1) == 17 && Slot(41, 0, 2) == 34 && Slot(41, 0, 3) == 10
    ensures Slot(41, 17, 0) == 17 && Slot(41, 17, 1) == 34 && Slot(41, 17, 2) == 10
  {
    DivModUnique(0, 41, 0, 0);
    DivModUnique(41, 41, 1, 0);
    SlotZero(41, 0);
    SlotZero(41, 17);
    DivModUnique(17, 41, 0, 17);
    DivModUnique(34, 41, 0, 34);
    DivModUnique(51, 41, 1, 10);
  }

  /** A table of 41 slots, with keys hashing to themselves: 0 (home 0) at
      slot 0, 41 (home 0) at slot 17 and 17 (home 17) at slot 34. */
  function Crowded(): (s: Slots<nat, nat>)
    ensures |s| == 41
  {
    EmptySlots<nat, nat>(41)[0 := Some((0, 1))][17 := Some((41, 2))][34 := Some((17, 3))]
  }

  /** Where `find` stops in the crowded table for each of its keys. */
  lemma CrowdedLocate()
    ensures Locate(Crowded(), Identity, 0) == 0 && Locate(Crowded(), Identity, 41) == 17
    ensures Locate(Crowded(), Identity, 17) == 34
  {
    var s := Crowded();
    Steps41();
    FirstStopIs(s, 0, 0, 0);
    FirstStopIs(s, 41, 0, 1);
    FirstStopIs(s, 17, 17, 1);
  }

  /** Every key of the crowded table is found; key 17 at slot 34. */
  lemma CrowdedFound()
    ensures Probeable(Crowded()) && Coherent(Crowded(), Identity)
    ensures Locate(Crowded(), Identity, 0) == 0 && Locate(Crowded(), Identity, 17) == 34
  {
    var s := Crowded();
    assert s[1].None?;
    CrowdedLocate();
    forall i | 0 <= i < 41 ensures FoundAt(s, Identity, i) {
      if i == 0 {
        assert s[i].value.0 == 0;
      } else if i == 17 {
        assert s[i].value.0 == 41;
      } else if i == 34 {
        assert s[i].value.0 == 17;
      } else {
        assert s[i].None?;
      }
    }
  }

  /** Removing 0 from the crowded table queues one pair, moved from slot 17
      to slot 0, and stops at the empty slot 10. */
  lemma CrowdedRemoved()
    ensures Removed(Crowded(), Identity, 0) == Stranded()
  {
    var s := Crowded();
    CrowdedFound();
    var s1 := Cleared(s, Identity, 0);
    Steps41();
    assert s1[10].None?;
    assert Scan(s1, Identity, 0, 0, 3) == [];
    assert Scan(s1, Identity, 0, 0, 1) == [(17, (41, 2))];
    assert Home(Identity, 0, 41) == 0;
    assert RemovalQueue(s, Identity, 0) == [(17, (41, 2))];
    assert Removed(s, Identity, 0) == Relocate(s1, 0, [(17, (41, 2))]);
    assert Relocate(s1, 0, [(17, (41, 2))]) == Relocate(s1[0 := Some((41, 2))], 17, []);
  }

  /** `remove` repairs only the removed key's home bucket. In the crowded
      table all keys are found. Removing 0 moves 41 to slot 0 and empties
      slot 17, so `find(17)` stops at the empty slot 17 and key 17, still
      stored at slot 34, is lost. */
  lemma RemoveStrandsOtherBucket() returns (s: Slots<nat, nat>, r: Slots<nat, nat>)
    ensures |s| == 41 && Probeable(s) && Coherent(s, Identity)
    ensures s[34] == Some((17, 3)) && Locate(s, Identity, 17) == 34
    ensures r == Removed(s, Identity, 0)
    ensures r[34] == Some((17, 3)) && Locate(r, Identity, 17) == 17 && r[17].None?
    ensures r == Stranded()
  {
    s := Crowded();
    CrowdedFound();
    CrowdedRemoved();
    r := Removed(s, Identity, 0);
    Steps41();
    FirstStopIs(r, 17, 17, 0);
  }

  /** The table `RemoveStrandsOtherBucket` leaves: key 41 at slot 0 and the
      stranded key 17 at slot 34. */
  function Stranded(): (r: Slots<nat, nat>)
    ensures |r| == 41
  {
    EmptySlots<nat, nat>(41)[0 := Some((41, 2))][34 := Some((17, 3))]
  }

  /** The stranded table after `set(17, 9)`: key 17 in slots 17 and 34. */
  function Duplicated(): (t: Slots<nat, nat>)
    ensures |t| == 41
  {
    Stranded()[17 := Some((17, 9))]
  }

  /** The stranded table holds two pairs, so `set` does not grow it; the
      duplicate `set` makes three and the removal after it two again. */
  lemma StrandedCount()
    ensures Count(Stranded()) == 2
    ensures Count(Duplicated()) == 3
    ensures Count(Stranded()[17 := Some((17, 3))][34 := None]) == 2
  {
    var e := EmptySlots<nat, nat>(41);
    CountEmpty<nat, nat>(41);
    CountUpdate(e, 0, Some((41, 2)));
    CountUpdate(e[0 := Some((41, 2))], 34, Some((17, 3)));
    CountUpdate(Stranded(), 17, Some((17, 9)));
    CountUpdate(Stranded(), 17, Some((17, 3)));
    CountUpdate(Stranded()[17 := Some((17, 3))], 34, None);
  }

  /** In the stranded table `set(17, 9)` finds slot 17 empty and writes there. */
  lemma StrandedSet()
    ensures StoredValue(Stranded(), Identity, 17).None?
    ensures Place(Stranded(), Identity, 17, 9) == Duplicated()
    ensures StoredValue(Duplicated(), Identity, 17) == Some(9)
  {
    var r := Stranded();
    Steps41();
    FirstStopIs(r, 17, 17, 0);
    FirstStopIs(Duplicated(), 17, 17, 0);
  }

  /** With key 17 at slots 17 and 34, `remove(17)` empties slot 17, queues
      `(34, (17, 3))`, stops at the empty slot 10 and moves the stale pair
      back to slot 17. */
  lemma DuplicateRemoved()
    ensures Removed(Duplicated(), Identity, 17) == Stranded()[17 := Some((17, 3))][34 := None]
  {
    var t := Duplicated();
    Steps41();
    FirstStopIs(t, 17, 17, 0);
    var t1 := Cleared(t, Identity, 17);
    assert t1 == Stranded();
    Steps41();
    assert t1[10].None?;
    assert Scan(t1, Identity, 17, 17, 2) == [];
    assert Scan(t1, Identity, 17, 17, 1) == [(34, (17, 3))];
    assert RemovalQueue(t, Identity, 17) == [(34, (17, 3))];
    assert Removed(t, Identity, 17) == Relocate(t1, 17, [(34, (17, 3))]);
    assert Relocate(t1, 17, [(34, (17, 3))]) == Relocate(t1[17 := Some((17, 3))], 34, []);
  }

  /** After that removal `find(17)` stops at slot 17 and finds the stale value,
      and the table holds one pair fewer. */
  lemma DuplicateFoundAgain()
    ensures StoredValue(Removed(Duplicated(), Identity, 17), Identity, 17) == Some(3)
    ensures Count(Removed(Duplicated(), Identity, 17)) == Count(Duplicated()) - 1
  {
    DuplicateRemoved();
    StrandedCount();
    var u := Stranded()[17 := Some((17, 3))][34 := None];
    Steps41();
    FirstStopIs(u, 17, 17, 0);
  }

  /** Keys need not stay distinct. After the removal in
      `RemoveStrandsOtherBucket`, `set(17, 9)` lands on the empty slot 17
      without growing (two pairs in 41 slots), so key 17 is stored twice.
      `remove(17)` then returns 9 and moves the stale pair `(17, 3)` from
      slot 34 back to slot 17, where `find(17)` reaches it: the removed key
      comes back with its old value. */
  lemma RemoveResurrectsStale() returns (s: Slots<nat, nat>, r: Slots<nat, nat>, t: Slots<nat, nat>, u: Slots<nat, nat>)
    ensures Probeable(s) && Coherent(s, Identity) && DistinctKeys(s) && StoredValue(s, Identity, 17) == Some(3)
    ensures StoredValue(Removed(Place(Removed(s, Identity, 0), Identity, 17, 9), Identity, 17), Identity, 17) == Some(3)
    ensures r == Removed(s, Identity, 0) && r == Stranded() && 2 * Count(r) <= |r| && Grown(r, Identity, 0) == r
    ensures t == Place(r, Identity, 17, 9) && StoredValue(r, Identity, 17).None?
    ensures t[17] == Some((17, 9)) && t[34] == Some((17, 3)) && !DistinctKeys(t)
    ensures StoredValue(t, Identity, 17) == Some(9)
    ensures u == Removed(t, Identity, 17)
    ensures StoredValue(u, Identity, 17) == Some(3) && Count(u) == Count(t) - 1
  {
    s, r := RemoveStrandsOtherBucket();
    CoherentDistinct(s, Identity);
    StrandedCount();
    StrandedSet();
    t := Duplicated();
    assert t[17].value.0 == t[34].value.0;
    DuplicateFoundAgain();
    u := Removed(t, Identity, 17);
  }
}
