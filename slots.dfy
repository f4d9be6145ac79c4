/**
 The slot array of the dictionary, taken as a value: what a well-formed table
 looks like, which key/value pairs it holds, and how one slot update changes
 both.
 */
module Slots {
  import opened Wrappers
  import opened Hashing

  /**
   One element of the slot array (`data_t`). `Empty` is a slot whose key is
   NULL; an `Entry` owns a copy of its key, a value that may be NULL, and the
   tombstone flag `is_deleted`.
   */
  datatype Slot<V> = Empty | Entry(key: Key, value: Option<V>, deleted: bool)

  predicate IsLive<V>(s: Slot<V>)
  {
    s.Entry? && !s.deleted
  }

  /** Which slots a count takes in: the live ones, or all occupied ones (live or tombstone). */
  datatype SlotKind = Live | Occupied

  predicate Counts<V>(kind: SlotKind, s: Slot<V>)
  {
    match kind
    case Live => IsLive(s)
    case Occupied => s.Entry?
  }

  // ---------------------------------------------------------------------------
  // Counting slots
  // ---------------------------------------------------------------------------

  /** The number of slots of s of the given kind. */
  function Count<V>(s: seq<Slot<V>>, kind: SlotKind): (n: nat)
    ensures n <= |s|
  {
    if s == [] then 0
    else Count(s[..|s| - 1], kind) + (if Counts(kind, s[|s| - 1]) then 1 else 0)
  }

  /** Replacing one slot changes the count by what leaves and what enters. */
  lemma {:induction false} CountUpdate<V>(s: seq<Slot<V>>, i: nat, x: Slot<V>, kind: SlotKind)
    requires i < |s|
    ensures Count(s[i := x], kind)
            == Count(s, kind) - (if Counts(kind, s[i]) then 1 else 0) + (if Counts(kind, x) then 1 else 0)
    decreases |s|
  {
    var last := |s| - 1;
    if i == last {
      assert s[i := x][..last] == s[..last];
    } else {
      CountUpdate(s[..last], i, x, kind);
      assert s[i := x][..last] == s[..last][i := x];
    }
  }

  lemma CountPrefix<V>(s: seq<Slot<V>>, i: nat, kind: SlotKind)
    requires i < |s|
    ensures Count(s[..i + 1], kind) == Count(s[..i], kind) + (if Counts(kind, s[i]) then 1 else 0)
  {
    assert s[..i + 1][..i] == s[..i];
  }

  /** A set of distinct indices whose slots are all of the given kind is no larger than their count. */
  lemma {:induction false} CountBound<V>(s: seq<Slot<V>>, indices: set<nat>, kind: SlotKind)
    requires forall x | x in indices :: x < |s| && Counts(kind, s[x])
    ensures |indices| <= Count(s, kind)
    decreases |s|
  {
    if s == [] {
      assert indices == {};
    } else {
      var last := |s| - 1;
      var rest := indices - {last};
      CountBound(s[..last], rest, kind);
      if last in indices {
        assert indices == rest + {last};
      } else {
        assert indices == rest;
      }
    }
  }

  // ---------------------------------------------------------------------------
  // Well-formed tables
  // ---------------------------------------------------------------------------

  /** The slot that probe step `step` of key k visits in a table of n slots. */
  function Pos(k: Key, step: nat, n: nat): (p: nat)
    requires n > 0
    ensures p < n
  {
    Probe(HashFunction(k, n), step, n)
  }

  /**
   Key k sits at probe step `step` of its own probe sequence, within the first
   |s| steps, and every earlier position of that sequence is occupied (live or
   tombstone), so a probe from the home slot cannot stop before reaching it.
   */
  ghost predicate OnPath<V>(s: seq<Slot<V>>, k: Key, step: nat)
    requires |s| > 0
  {
    step < |s| &&
    s[Pos(k, step, |s|)].Entry? && s[Pos(k, step, |s|)].key == k &&
    forall t | 0 <= t < step :: s[Pos(k, t, |s|)].Entry?
  }

  /**
   The table invariant on the slot array. `steps` gives, for every key that
   owns a slot, its probe step. Every owned key lies on its probe path, and
   every occupied slot is the slot its key's step designates; so no two
   occupied slots hold equal keys.
   */
  ghost predicate WellPlaced<V>(s: seq<Slot<V>>, steps: map<Key, nat>)
  {
    |s| > 0 &&
    (forall k | k in steps :: OnPath(s, k, steps[k])) &&
    (forall i | 0 <= i < |s| && s[i].Entry? ::
       s[i].key in steps && Pos(s[i].key, steps[s[i].key], |s|) == i)
  }

  /** The live (non-tombstone) key/value pairs stored in slots below index i. */
  ghost function LivePrefix<V>(s: seq<Slot<V>>, steps: map<Key, nat>, i: nat): map<Key, Option<V>>
    requires |s| > 0
  {
    map k | k in steps && Pos(k, steps[k], |s|) < i && IsLive(s[Pos(k, steps[k], |s|)])
      :: s[Pos(k, steps[k], |s|)].value
  }

  /** The abstract dictionary a table stands for: its live key/value pairs. */
  ghost function LiveMap<V>(s: seq<Slot<V>>, steps: map<Key, nat>): map<Key, Option<V>>
    requires |s| > 0
  {
    LivePrefix(s, steps, |s|)
  }

  /** A live slot's pair belongs to the abstract dictionary. */
  lemma LiveSlotInMap<V>(s: seq<Slot<V>>, steps: map<Key, nat>, i: nat)
    requires WellPlaced(s, steps) && i < |s| && IsLive(s[i])
    ensures s[i].key in LiveMap(s, steps) && LiveMap(s, steps)[s[i].key] == s[i].value
  {
  }

  /** No two distinct occupied slots hold equal keys. */
  lemma KeysUnique<V>(s: seq<Slot<V>>, steps: map<Key, nat>, i: nat, j: nat)
    requires WellPlaced(s, steps) && i < |s| && j < |s|
    requires s[i].Entry? && s[j].Entry? && s[i].key == s[j].key
    ensures i == j
  {
  }

  lemma LivePrefixStep<V>(s: seq<Slot<V>>, steps: map<Key, nat>, i: nat)
    requires WellPlaced(s, steps) && i < |s|
    ensures IsLive(s[i]) ==> s[i].key !in LivePrefix(s, steps, i)
    ensures LivePrefix(s, steps, i + 1)
            == if IsLive(s[i]) then LivePrefix(s, steps, i)[s[i].key := s[i].value]
               else LivePrefix(s, steps, i)
  {
    if IsLive(s[i]) {
      LivePrefixGrows(s, steps, i);
    } else {
      LivePrefixSame(s, steps, i);
    }
  }

  lemma LivePrefixGrows<V>(s: seq<Slot<V>>, steps: map<Key, nat>, i: nat)
    requires WellPlaced(s, steps) && i < |s| && IsLive(s[i])
    ensures s[i].key !in LivePrefix(s, steps, i)
    ensures LivePrefix(s, steps, i + 1) == LivePrefix(s, steps, i)[s[i].key := s[i].value]
  {
    var a, b := LivePrefix(s, steps, i), LivePrefix(s, steps, i + 1);
    var c := a[s[i].key := s[i].value];
    assert forall k | k in b :: k in c && b[k] == c[k];
    assert forall k | k in c :: k in b;
  }

  lemma LivePrefixSame<V>(s: seq<Slot<V>>, steps: map<Key, nat>, i: nat)
    requires WellPlaced(s, steps) && i < |s| && !IsLive(s[i])
    ensures LivePrefix(s, steps, i + 1) == LivePrefix(s, steps, i)
  {
    var a, b := LivePrefix(s, steps, i), LivePrefix(s, steps, i + 1);
    assert forall k | k in b :: k in a && b[k] == a[k];
  }

  lemma {:induction false} LivePrefixSize<V>(s: seq<Slot<V>>, steps: map<Key, nat>, i: nat)
    requires WellPlaced(s, steps) && i <= |s|
    ensures |LivePrefix(s, steps, i)| == Count(s[..i], Live)
  {
    if i == 0 {
      assert LivePrefix(s, steps, 0) == map[];
    } else {
      LivePrefixSize(s, steps, i - 1);
      LivePrefixStep(s, steps, i - 1);
      CountPrefix(s, i - 1, Live);
    }
  }

  /** The abstract dictionary has exactly as many pairs as the table has live slots. */
  lemma LiveMapSize<V>(s: seq<Slot<V>>, steps: map<Key, nat>)
    requires WellPlaced(s, steps)
    ensures |LiveMap(s, steps)| == Count(s, Live)
  {
    LivePrefixSize(s, steps, |s|);
    assert s[..|s|] == s;
  }

  /** An all-Empty array with no owned keys is a well-formed, empty table. */
  lemma EmptyTable<V>(s: seq<Slot<V>>)
    requires |s| > 0 && forall i | 0 <= i < |s| :: s[i].Empty?
    ensures WellPlaced(s, map[])
    ensures LiveMap(s, map[]) == map[]
    ensures Count(s, Live) == 0 && Count(s, Occupied) == 0
  {
    CountBoundEmpty(s);
  }

  lemma {:induction false} CountBoundEmpty<V>(s: seq<Slot<V>>)
    requires forall i | 0 <= i < |s| :: s[i].Empty?
    ensures Count(s, Live) == 0 && Count(s, Occupied) == 0
    decreases |s|
  {
    if s != [] {
      CountBoundEmpty(s[..|s| - 1]);
    }
  }

  // ---------------------------------------------------------------------------
  // One-slot updates
  // ---------------------------------------------------------------------------

  /**
   Rewriting the slot that owns key k with another entry for k (a new value,
   a cleared or a set tombstone flag) keeps the table well formed; the
   abstract dictionary maps k to the new value when the entry is live and
   loses k when it is a tombstone.
   */
  lemma UpdateSlot<V>(s: seq<Slot<V>>, steps: map<Key, nat>, k: Key, x: Slot<V>)
    requires WellPlaced(s, steps) && k in steps && x.Entry? && x.key == k
    ensures WellPlaced(s[Pos(k, steps[k], |s|) := x], steps)
    ensures LiveMap(s[Pos(k, steps[k], |s|) := x], steps)
            == if IsLive(x) then LiveMap(s, steps)[k := x.value] else LiveMap(s, steps) - {k}
  {
    UpdateSlotPlaced(s, steps, k, x);
    UpdateSlotMap(s, steps, k, x);
  }

  lemma UpdateSlotPlaced<V>(s: seq<Slot<V>>, steps: map<Key, nat>, k: Key, x: Slot<V>)
    requires WellPlaced(s, steps) && k in steps && x.Entry? && x.key == k
    ensures WellPlaced(s[Pos(k, steps[k], |s|) := x], steps)
  {
    var n := |s|;
    var s' := s[Pos(k, steps[k], n) := x];
    forall k' | k' in steps
      ensures OnPath(s', k', steps[k'])
    {
      assert OnPath(s, k', steps[k']);
    }
  }

  lemma UpdateSlotMap<V>(s: seq<Slot<V>>, steps: map<Key, nat>, k: Key, x: Slot<V>)
    requires WellPlaced(s, steps) && k in steps && x.Entry? && x.key == k
    ensures LiveMap(s[Pos(k, steps[k], |s|) := x], steps)
            == if IsLive(x) then LiveMap(s, steps)[k := x.value] else LiveMap(s, steps) - {k}
  {
    var n := |s|;
    var idx := Pos(k, steps[k], n);
    var s' := s[idx := x];
    var a, b := LiveMap(s, steps), LiveMap(s', steps);
    forall k' | k' in steps && k' != k
      ensures Pos(k', steps[k'], n) != idx
    {
      assert OnPath(s, k', steps[k']);
    }
    var c := if IsLive(x) then a[k := x.value] else a - {k};
    assert forall k' | k' in b :: k' in c && b[k'] == c[k'];
    assert forall k' | k' in c :: k' in b;
    assert b == c;
  }

  /**
   Storing a new live entry for a key that owns no slot, at probe step e,
   where that position is Empty and every earlier one is occupied, keeps the
   table well formed and adds exactly that pair to the abstract dictionary.
   */
  lemma InsertSlot<V>(s: seq<Slot<V>>, steps: map<Key, nat>, k: Key, e: nat, v: Option<V>)
    requires WellPlaced(s, steps) && k !in steps && e < |s|
    requires s[Pos(k, e, |s|)].Empty?
    requires forall t | 0 <= t < e :: s[Pos(k, t, |s|)].Entry?
    ensures WellPlaced(s[Pos(k, e, |s|) := Entry(k, v, false)], steps[k := e])
    ensures LiveMap(s[Pos(k, e, |s|) := Entry(k, v, false)], steps[k := e])
            == LiveMap(s, steps)[k := v]
  {
    InsertSlotPlaced(s, steps, k, e, v);
    InsertSlotMap(s, steps, k, e, v);
  }

  /** The slot a new key takes is owned by no other key. */
  lemma InsertSlotFree<V>(s: seq<Slot<V>>, steps: map<Key, nat>, k: Key, e: nat)
    requires WellPlaced(s, steps) && e < |s| && s[Pos(k, e, |s|)].Empty?
    ensures forall k' | k' in steps :: Pos(k', steps[k'], |s|) != Pos(k, e, |s|)
  {
    forall k' | k' in steps
      ensures Pos(k', steps[k'], |s|) != Pos(k, e, |s|)
    {
      assert OnPath(s, k', steps[k']);
    }
  }

  lemma InsertSlotPlaced<V>(s: seq<Slot<V>>, steps: map<Key, nat>, k: Key, e: nat, v: Option<V>)
    requires WellPlaced(s, steps) && k !in steps && e < |s|
    requires s[Pos(k, e, |s|)].Empty?
    requires forall t | 0 <= t < e :: s[Pos(k, t, |s|)].Entry?
    ensures WellPlaced(s[Pos(k, e, |s|) := Entry(k, v, false)], steps[k := e])
  {
    var n := |s|;
    var s' := s[Pos(k, e, n) := Entry(k, v, false)];
    var steps' := steps[k := e];
    InsertSlotFree(s, steps, k, e);
    forall k' | k' in steps
      ensures OnPath(s', k', steps'[k'])
    {
      assert OnPath(s, k', steps[k']);
    }
    assert OnPath(s', k, e);
  }

  lemma InsertSlotMap<V>(s: seq<Slot<V>>, steps: map<Key, nat>, k: Key, e: nat, v: Option<V>)
    requires WellPlaced(s, steps) && k !in steps && e < |s|
    requires s[Pos(k, e, |s|)].Empty?
    ensures LiveMap(s[Pos(k, e, |s|) := Entry(k, v, false)], steps[k := e])
            == LiveMap(s, steps)[k := v]
  {
    var n := |s|;
    var s' := s[Pos(k, e, n) := Entry(k, v, false)];
    var steps' := steps[k := e];
    var idx := Pos(k, e, n);
    InsertSlotFree(s, steps, k, e);
    var a, b := LiveMap(s, steps), LiveMap(s', steps');
    var c := a[k := v];
    forall k' | k' in steps && k' != k
      ensures (k' in b <==> k' in a) && (k' in b ==> b[k'] == a[k'])
    {
      assert Pos(k', steps[k'], n) != idx;
    }
    assert b.Keys == c.Keys;
  }

  // ---------------------------------------------------------------------------
  // Searches that stop
  // ---------------------------------------------------------------------------

  /**
   A probe for k that passed i occupied positions holding other keys and then
   met an Empty slot, or that ran through all |s| steps, proves that k owns no
   slot at all.
   */
  lemma NotStoredIfSearchMisses<V>(s: seq<Slot<V>>, steps: map<Key, nat>, k: Key, i: nat)
    requires WellPlaced(s, steps) && i <= |s|
    requires forall t | 0 <= t < i :: s[Pos(k, t, |s|)].Entry? && s[Pos(k, t, |s|)].key != k
    requires i == |s| || s[Pos(k, i, |s|)].Empty?
    ensures k !in steps
  {
  }

  /**
   A probe for k that found no live entry for k among its first i positions
   and then met an Empty slot, or that ran through all |s| steps, proves that
   k is not in the abstract dictionary.
   */
  lemma NotLiveIfSearchMisses<V>(s: seq<Slot<V>>, steps: map<Key, nat>, k: Key, i: nat)
    requires WellPlaced(s, steps) && i <= |s|
    requires forall t | 0 <= t < i :: !(IsLive(s[Pos(k, t, |s|)]) && s[Pos(k, t, |s|)].key == k)
    requires i == |s| || s[Pos(k, i, |s|)].Empty?
    ensures k !in LiveMap(s, steps)
  {
  }

  // ---------------------------------------------------------------------------
  // Tombstones and teardown
  // ---------------------------------------------------------------------------

  /** Every tombstone's value has been cleared to NULL. */
  ghost predicate TombstonesCleared<V>(s: seq<Slot<V>>)
  {
    forall i | 0 <= i < |s| && s[i].Entry? && s[i].deleted :: s[i].value.None?
  }

  /** The values teardown hands to `destroy`, in slot order: every non-NULL value of an occupied slot. */
  function Disposed<V>(s: seq<Slot<V>>): seq<V>
  {
    if s == [] then []
    else
      var last := s[|s| - 1];
      Disposed(s[..|s| - 1]) + (if last.Entry? && last.value.Some? then [last.value.value] else [])
  }

  /** Teardown's log grows by one slot at a time. */
  lemma DisposedPrefix<V>(s: seq<Slot<V>>, i: nat)
    requires i < |s|
    ensures Disposed(s[..i + 1])
            == Disposed(s[..i]) + (if s[i].Entry? && s[i].value.Some? then [s[i].value.value] else [])
  {
    assert s[..i + 1][..i] == s[..i];
  }

  /**
   The values the resize loop hands to `destroy` when it abandons the
   tombstones of s, in slot order: every non-NULL value of a tombstone.
   */
  function Abandoned<V>(s: seq<Slot<V>>): seq<V>
  {
    if s == [] then []
    else
      var last := s[|s| - 1];
      Abandoned(s[..|s| - 1]) + (if last.Entry? && last.deleted && last.value.Some? then [last.value.value] else [])
  }

  /** The resize loop's log grows by one slot at a time. */
  lemma AbandonedPrefix<V>(s: seq<Slot<V>>, i: nat)
    requires i < |s|
    ensures Abandoned(s[..i + 1])
            == Abandoned(s[..i]) + (if s[i].Entry? && s[i].deleted && s[i].value.Some? then [s[i].value.value] else [])
  {
    assert s[..i + 1][..i] == s[..i];
  }

  /** When every tombstone is NULL, abandoning the tombstones destroys nothing. */
  lemma {:induction false} AbandonedCleared<V>(s: seq<Slot<V>>)
    requires TombstonesCleared(s)
    ensures Abandoned(s) == []
    decreases |s|
  {
    if s != [] {
      var init := s[..|s| - 1];
      assert TombstonesCleared(init);
      AbandonedCleared(init);
    }
  }

  /** The non-NULL values of the live slots, in slot order. */
  function LiveValues<V>(s: seq<Slot<V>>): seq<V>
  {
    if s == [] then []
    else
      var last := s[|s| - 1];
      LiveValues(s[..|s| - 1]) + (if IsLive(last) && last.value.Some? then [last.value.value] else [])
  }

  lemma {:induction false} DisposedIsLiveValues<V>(s: seq<Slot<V>>)
    requires TombstonesCleared(s)
    ensures Disposed(s) == LiveValues(s)
    decreases |s|
  {
    if s != [] {
      var init := s[..|s| - 1];
      assert TombstonesCleared(init);
      DisposedIsLiveValues(init);
    }
  }

  /** LiveValues lists at most one value per live slot. */
  lemma {:induction false} LiveValuesBound<V>(s: seq<Slot<V>>)
    ensures |LiveValues(s)| <= Count(s, Live)
    decreases |s|
  {
    if s != [] {
      LiveValuesBound(s[..|s| - 1]);
    }
  }

  /** LiveValues lists exactly the non-NULL values held by live slots. */
  lemma {:induction false} LiveValuesAt<V>(s: seq<Slot<V>>)
    ensures forall i | 0 <= i < |s| && IsLive(s[i]) && s[i].value.Some? :: s[i].value.value in LiveValues(s)
    ensures forall v | v in LiveValues(s) :: exists i :: 0 <= i < |s| && IsLive(s[i]) && s[i].value == Some(v)
    decreases |s|
  {
    if s != [] {
      var init := s[..|s| - 1];
      LiveValuesAt(init);
      forall i | 0 <= i < |s| && IsLive(s[i]) && s[i].value.Some?
        ensures s[i].value.value in LiveValues(s)
      {
        if i < |init| {
          assert init[i] == s[i];
        }
      }
      forall v | v in LiveValues(s)
        ensures exists i :: 0 <= i < |s| && IsLive(s[i]) && s[i].value == Some(v)
      {
        if v in LiveValues(init) {
          var i :| 0 <= i < |init| && IsLive(init[i]) && init[i].value == Some(v);
          assert s[i] == init[i];
        } else {
          assert s[|s| - 1].value == Some(v);
        }
      }
    }
  }

  /**
   Under the table invariant, the values teardown would see on live slots are
   precisely the non-NULL values of the abstract dictionary.
   */
  lemma LiveValuesOfMap<V>(s: seq<Slot<V>>, steps: map<Key, nat>)
    requires WellPlaced(s, steps)
    ensures |LiveValues(s)| <= |LiveMap(s, steps)|
    ensures forall k | k in LiveMap(s, steps) && LiveMap(s, steps)[k].Some? ::
              LiveMap(s, steps)[k].value in LiveValues(s)
    ensures forall v | v in LiveValues(s) ::
              exists k :: k in LiveMap(s, steps) && LiveMap(s, steps)[k] == Some(v)
  {
    LiveValuesBound(s);
    LiveValuesAt(s);
    LiveMapSize(s, steps);
    var m := LiveMap(s, steps);
    forall k | k in m && m[k].Some?
      ensures m[k].value in LiveValues(s)
    {
      assert OnPath(s, k, steps[k]);
    }
    forall v | v in LiveValues(s)
      ensures exists k :: k in m && m[k] == Some(v)
    {
      var i :| 0 <= i < |s| && IsLive(s[i]) && s[i].value == Some(v);
      LiveSlotInMap(s, steps, i);
    }
  }

  /** No slot is a tombstone. */
  ghost predicate NoTombstones<V>(s: seq<Slot<V>>)
  {
    forall i | 0 <= i < |s| && s[i].Entry? :: !s[i].deleted
  }

  /** In a table with no tombstones every owned key is live. */
  lemma NoTombstonesAllLive<V>(s: seq<Slot<V>>, steps: map<Key, nat>)
    requires WellPlaced(s, steps) && NoTombstones(s)
    ensures LiveMap(s, steps).Keys == steps.Keys
  {
    forall k | k in steps
      ensures k in LiveMap(s, steps)
    {
      assert OnPath(s, k, steps[k]);
    }
  }
}
