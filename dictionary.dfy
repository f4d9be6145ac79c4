/**
 The dictionary of tp3.c: an open-addressed hash table keyed by C strings,
 with tombstones, quadratic probing and doubling on a 7/10 load factor.

 The `destroy` callback is modelled by the flag `hasDestroy` (whether one was
 supplied) and the ghost log `destroyed` of every value passed to it, in call
 order.
 */
module Dict {
  import opened Wrappers
  import opened Hashing
  import opened Slots

  const InitialCapacity: nat := 16
  const LoadNum: nat := 7
  const LoadDen: nat := 10

  /** `put` grows the table first when one more live entry would pass the 7/10 load factor. */
  predicate NeedsGrow(size: nat, capacity: nat)
  {
    (size + 1) * LoadDen > capacity * LoadNum
  }

  /** Every keyed operation rejects a NULL key and the empty string. */
  predicate IsValidKey(key: Option<Key>)
  {
    key.Some? && key.value != []
  }

  /** What the probe loop of `put` stops at. */
  datatype PutProbe = Match(slot: nat) | Vacant(slot: nat, step: nat) | Full

  /**
   The table invariant on values, the state a dictionary keeps between calls:
   a power-of-two number of slots, at least 16; keys unique and each on its
   probe path behind occupied slots only; `size` counts the live slots; and
   when a callback is set no tombstone still holds a value.
   */
  ghost predicate TableInv<V>(s: seq<Slot<V>>, steps: map<Key, nat>, size: nat, hasDestroy: bool)
  {
    InitialCapacity <= |s| && IsPowerOfTwo(|s|) &&
    WellPlaced(s, steps) && size == Count(s, Live) &&
    (hasDestroy ==> TombstonesCleared(s))
  }

  /**
   Turning the live entry of k into a tombstone holding v (NULL when a
   callback is set) keeps the invariant with one live entry less and removes
   k from the abstract dictionary.
   */
  lemma Bury<V>(s: seq<Slot<V>>, s': seq<Slot<V>>, steps: map<Key, nat>, size: nat, hasDestroy: bool,
                k: Key, v: Option<V>)
    requires TableInv(s, steps, size, hasDestroy) && k in LiveMap(s, steps)
    requires s' == s[Pos(k, steps[k], |s|) := Entry(k, v, true)]
    requires hasDestroy ==> v.None?
    ensures 0 < size && TableInv(s', steps, size - 1, hasDestroy)
    ensures LiveMap(s', steps) == LiveMap(s, steps) - {k}
  {
    var i := Pos(k, steps[k], |s|);
    var x := Entry(k, v, true);
    UpdateSlot(s, steps, k, x);
    CountUpdate(s, i, x, Live);
  }

  /**
   Writing a live entry for a key that already owns a slot, live or
   tombstone, keeps the invariant, counts one more live entry exactly when
   the slot was a tombstone, and maps k to v.
   */
  lemma Overwrite<V>(s: seq<Slot<V>>, s': seq<Slot<V>>, steps: map<Key, nat>, size: nat, hasDestroy: bool,
                     k: Key, v: Option<V>)
    requires TableInv(s, steps, size, hasDestroy) && k in steps
    requires s' == s[Pos(k, steps[k], |s|) := Entry(k, v, false)]
    ensures s[Pos(k, steps[k], |s|)].Entry? && s[Pos(k, steps[k], |s|)].key == k
    ensures IsLive(s[Pos(k, steps[k], |s|)]) <==> k in LiveMap(s, steps)
    ensures k in LiveMap(s, steps) ==> LiveMap(s, steps)[k] == s[Pos(k, steps[k], |s|)].value
    ensures TableInv(s', steps, if k in LiveMap(s, steps) then size else size + 1, hasDestroy)
    ensures LiveMap(s', steps) == LiveMap(s, steps)[k := v]
  {
    var i := Pos(k, steps[k], |s|);
    var x := Entry(k, v, false);
    assert OnPath(s, k, steps[k]);
    UpdateSlot(s, steps, k, x);
    CountUpdate(s, i, x, Live);
  }

  /**
   Storing a new live entry for a key that owns no slot, at the first Empty
   position of its probe, keeps the invariant with one more live entry and
   adds the pair to the abstract dictionary.
   */
  lemma Insert<V>(s: seq<Slot<V>>, s': seq<Slot<V>>, steps: map<Key, nat>, size: nat, hasDestroy: bool,
                  k: Key, e: nat, v: Option<V>)
    requires TableInv(s, steps, size, hasDestroy) && k !in steps && e < |s|
    requires s[Pos(k, e, |s|)].Empty?
    requires forall t | 0 <= t < e :: s[Pos(k, t, |s|)].Entry?
    requires s' == s[Pos(k, e, |s|) := Entry(k, v, false)]
    ensures k !in LiveMap(s, steps)
    ensures TableInv(s', steps[k := e], size + 1, hasDestroy)
    ensures LiveMap(s', steps[k := e]) == LiveMap(s, steps)[k := v]
  {
    InsertSlot(s, steps, k, e, v);
    CountUpdate(s, Pos(k, e, |s|), Entry(k, v, false), Live);
  }

  /**
   What the resize loop has built after visiting the first i old slots: a
   well-formed table of twice the size, without tombstones, holding exactly
   the live pairs of those slots.
   */
  ghost predicate Rebuilt<V>(s: seq<Slot<V>>, steps: map<Key, nat>, ns: seq<Slot<V>>, newSteps: map<Key, nat>, i: nat)
  {
    0 < |s| && i <= |s| && |ns| == 2 * |s| &&
    WellPlaced(ns, newSteps) && NoTombstones(ns) &&
    LiveMap(ns, newSteps) == LivePrefix(s, steps, i) &&
    Count(ns, Live) == Count(s[..i], Live) && Count(ns, Occupied) == Count(s[..i], Live)
  }

  /** A fresh all-Empty array of twice the size is the rebuilt table for no old slots. */
  lemma RebuildStart<V>(s: seq<Slot<V>>, steps: map<Key, nat>, ns: seq<Slot<V>>)
    requires 0 < |s| && |ns| == 2 * |s| && forall x | 0 <= x < |ns| :: ns[x].Empty?
    ensures Rebuilt(s, steps, ns, map[], 0)
  {
    EmptyTable(ns);
    assert LivePrefix(s, steps, 0) == map[];
  }

  /**
   While old slots remain, fewer than half the new slots are occupied, so the
   reinsertion probe finds an Empty one.
   */
  lemma RebuildRoom<V>(s: seq<Slot<V>>, steps: map<Key, nat>, ns: seq<Slot<V>>, newSteps: map<Key, nat>, i: nat)
    requires Rebuilt(s, steps, ns, newSteps, i) && i < |s|
    ensures 2 * Count(ns, Occupied) < |ns|
  {
    assert |s[..i]| == i;
  }

  /** An old tombstone or Empty slot adds nothing to the rebuilt table. */
  lemma RebuildSkip<V>(s: seq<Slot<V>>, steps: map<Key, nat>, ns: seq<Slot<V>>, newSteps: map<Key, nat>, i: nat)
    requires WellPlaced(s, steps) && Rebuilt(s, steps, ns, newSteps, i) && i < |s| && !IsLive(s[i])
    ensures Rebuilt(s, steps, ns, newSteps, i + 1)
  {
    LivePrefixStep(s, steps, i);
    CountPrefix(s, i, Live);
  }

  /**
   Reinserting the live entry of old slot i at the first Empty position of its
   probe in the new table extends the rebuilt table by that one pair.
   */
  lemma RebuildMove<V>(s: seq<Slot<V>>, steps: map<Key, nat>, ns: seq<Slot<V>>, ns': seq<Slot<V>>,
                       newSteps: map<Key, nat>, i: nat, j: nat)
    requires WellPlaced(s, steps) && Rebuilt(s, steps, ns, newSteps, i) && i < |s| && IsLive(s[i])
    requires j < |ns| && ns[Pos(s[i].key, j, |ns|)].Empty?
    requires forall t | 0 <= t < j :: ns[Pos(s[i].key, t, |ns|)].Entry?
    requires ns' == ns[Pos(s[i].key, j, |ns|) := Entry(s[i].key, s[i].value, false)]
    ensures Rebuilt(s, steps, ns', newSteps[s[i].key := j], i + 1)
  {
    var k, h := s[i].key, Pos(s[i].key, j, |ns|);
    var moved := Entry(k, s[i].value, false);
    LivePrefixStep(s, steps, i);
    CountPrefix(s, i, Live);
    NoTombstonesAllLive(ns, newSteps);
    InsertSlot(ns, newSteps, k, j, s[i].value);
    CountUpdate(ns, h, moved, Live);
    CountUpdate(ns, h, moved, Occupied);
  }

  /**
   Once every old slot is visited, the rebuilt table satisfies the invariant
   with the same size and the same pairs, and every key it owns is live.
   */
  lemma RebuildDone<V>(s: seq<Slot<V>>, steps: map<Key, nat>, size: nat, hasDestroy: bool,
                       ns: seq<Slot<V>>, newSteps: map<Key, nat>)
    requires TableInv(s, steps, size, hasDestroy) && Rebuilt(s, steps, ns, newSteps, |s|)
    ensures TableInv(ns, newSteps, size, hasDestroy) && Count(ns, Occupied) == size
    ensures LiveMap(ns, newSteps) == LiveMap(s, steps)
    ensures newSteps.Keys == LiveMap(ns, newSteps).Keys
  {
    assert s[..|s|] == s;
    DoublePowerOfTwo(|s|);
    NoTombstonesAllLive(ns, newSteps);
  }

  /**
   The reinsertion probe of the resize loop: from the home slot of key in a
   power-of-two array, step until an Empty slot. It always stops, within the
   first half of the probe sequence, because fewer than half the slots are
   occupied and those first positions are pairwise distinct.
   */
  method FindVacant<V>(a: array<Slot<V>>, key: Key) returns (step: nat, slot: nat)
    requires IsPowerOfTwo(a.Length) && 2 * Count(a[..], Occupied) < a.Length
    ensures 2 * step < a.Length && slot == Pos(key, step, a.Length) && a[slot].Empty?
    ensures forall t | 0 <= t < step :: a[Pos(key, t, a.Length)].Entry?
  {
    var n := a.Length;
    var h0 := HashFunction(key, n);
    DivModUnique(h0, 0, h0, n);
    step, slot := 0, h0;
    while a[slot].Entry?
      invariant 2 * step < n && slot == Pos(key, step, n)
      invariant forall t | 0 <= t < step :: a[Pos(key, t, n)].Entry?
      invariant forall x | x in ProbeSet(h0, step, n) :: x < n && a[x].Entry?
      decreases n - step
    {
      ProbeRoom(a[..], h0, step);
      step := step + 1;
      slot := Probe(h0, step, n);
    }
  }

  /**
   In a power-of-two table less than half occupied, a probe that has met
   occupied slots at its first j + 1 positions still has fewer than half the
   table behind it: those positions are distinct slots, all occupied.
   */
  lemma ProbeRoom<V>(s: seq<Slot<V>>, h0: nat, j: nat)
    requires IsPowerOfTwo(|s|) && 2 * Count(s, Occupied) < |s| && 2 * j < |s|
    requires forall x | x in ProbeSet(h0, j, |s|) :: x < |s| && s[x].Entry?
    requires s[Probe(h0, j, |s|)].Entry?
    ensures 2 * (j + 1) < |s|
    ensures forall x | x in ProbeSet(h0, j + 1, |s|) :: x < |s| && s[x].Entry?
  {
    var n := |s|;
    assert n % 2 == 0 by {
      CountBound(s, {Probe(h0, j, n)}, Occupied);
    }
    ProbeSetSize(h0, j + 1, n);
    CountBound(s, ProbeSet(h0, j + 1, n), Occupied);
  }

  /** If the first j probe positions are occupied, so is every slot of ProbeSet(h0, j). */
  lemma {:induction false} ProbeSetOccupied<V>(s: seq<Slot<V>>, h0: nat, j: nat)
    requires 0 < |s| && forall t | 0 <= t < j :: s[Probe(h0, t, |s|)].Entry?
    ensures forall x | x in ProbeSet(h0, j, |s|) :: x < |s| && s[x].Entry?
  {
    if j > 0 {
      ProbeSetOccupied(s, h0, j - 1);
    }
  }

  /**
   A probe that meets only occupied slots for `capacity` steps, as a failing
   `put` does, proves that at least half the table is occupied: its first
   capacity/2 positions are distinct.
   */
  lemma FullProbeHalfOccupied<V>(s: seq<Slot<V>>, k: Key)
    requires IsPowerOfTwo(|s|) && 2 <= |s|
    requires forall t | 0 <= t < |s| :: s[Pos(k, t, |s|)].Entry?
    ensures |s| <= 2 * Count(s, Occupied)
  {
    var n, h0 := |s|, HashFunction(k, |s|);
    assert forall t | 0 <= t < n / 2 :: s[Probe(h0, t, n)].Entry? by {
      forall t | 0 <= t < n / 2
        ensures s[Probe(h0, t, n)].Entry?
      {
        assert Pos(k, t, n) == Probe(h0, t, n);
      }
    }
    ProbeSetOccupied(s, h0, n / 2);
    ProbeSetSize(h0, n / 2, n);
    CountBound(s, ProbeSet(h0, n / 2, n), Occupied);
  }

  class Dictionary<V> {
    var entries: array<Slot<V>>
    var size: nat
    var capacity: nat
    const hasDestroy: bool
    /** Every value handed to the destroy callback so far, in order. */
    ghost var destroyed: seq<V>
    /** For every key that owns a slot (live or tombstone), its probe step. */
    ghost var steps: map<Key, nat>

    /**
     The table invariant: the array has `capacity` slots, a power of two of at
     least 16; keys are unique and each lies on its probe path behind occupied
     slots only; `size` counts the live slots; when a callback is set no
     tombstone still holds a value; and the live entries stay within the 7/10
     load factor, because `put` grows the table before passing it.
     */
    ghost predicate Valid()
      reads this`entries, this`capacity, this`size, this`steps, entries
    {
      entries.Length == capacity && TableInv(entries[..], steps, size, hasDestroy) &&
      size * LoadDen <= capacity * LoadNum
    }

    /** The abstract dictionary: every live key with its value. */
    ghost function Contents(): map<Key, Option<V>>
      reads this`entries, this`capacity, this`size, this`steps, entries
      requires Valid()
    {
      LiveMap(entries[..], steps)
    }

    /** `size` counts the live slots, which are as many as the keys in the dictionary. */
    lemma SizeIsLiveCount()
      requires Valid()
      ensures size == Count(entries[..], Live) && size == |Contents()|
    {
      LiveMapSize(entries[..], steps);
    }

    /** `dictionary_create`: 16 Empty slots, no entries. */
    constructor (hasDestroy: bool)
      ensures Valid() && fresh(entries)
      ensures capacity == InitialCapacity && size == 0
      ensures forall i | 0 <= i < entries.Length :: entries[i] == Empty
      ensures Count(entries[..], Occupied) == 0
      ensures Contents() == map[] && steps == map[]
      ensures this.hasDestroy == hasDestroy && destroyed == []
    {
      entries := new Slot<V>[InitialCapacity](_ => Empty);
      size := 0;
      capacity := InitialCapacity;
      this.hasDestroy := hasDestroy;
      destroyed := [];
      steps := map[];
      new;
      EmptyTable(entries[..]);
    }

    /**
     The lookup loop shared by `get`, `delete`, `pop` and `contains`: probe
     from the home slot, skip tombstones, stop at the first Empty slot or after
     `capacity` steps.
     */
    method FindLive(key: Key) returns (found: bool, slot: nat)
      requires Valid()
      ensures found <==> key in Contents()
      ensures found ==> key in steps && slot == Pos(key, steps[key], capacity)
      ensures found ==> slot < capacity && entries[slot] == Entry(key, Contents()[key], false)
    {
      ghost var s := entries[..];
      var h0 := HashFunction(key, capacity);
      DivModUnique(h0, 0, h0, capacity);
      var hash := h0;
      var i := 0;
      while entries[hash].Entry?
        invariant 0 <= i < capacity && hash == Pos(key, i, capacity)
        invariant forall t | 0 <= t < i ::
                    !(IsLive(s[Pos(key, t, capacity)]) && s[Pos(key, t, capacity)].key == key)
        decreases capacity - i
      {
        if !entries[hash].deleted && entries[hash].key == key {
          LiveSlotInMap(s, steps, hash);
          return true, hash;
        }
        i := i + 1;
        if i == capacity {
          NotLiveIfSearchMisses(s, steps, key, i);
          return false, 0;
        }
        hash := Probe(h0, i, capacity);
      }
      NotLiveIfSearchMisses(s, steps, key, i);
      return false, 0;
    }

    /** `dictionary_get`: the value stored under key, or err = true. */
    method Get(key: Option<Key>) returns (value: Option<V>, err: bool)
      requires Valid()
      ensures err <==> !(IsValidKey(key) && key.value in Contents())
      ensures !err ==> value == Contents()[key.value]
      ensures err ==> value == None
    {
      if key.None? || key.value == [] {
        return None, true;
      }
      var found, slot := FindLive(key.value);
      if !found {
        return None, true;
      }
      return entries[slot].value, false;
    }

    /** `dictionary_contains`: whether key is live in the dictionary. */
    method Contains(key: Option<Key>) returns (present: bool)
      requires Valid()
      ensures present <==> IsValidKey(key) && key.value in Contents()
    {
      if key.None? || key.value == [] {
        return false;
      }
      var slot;
      present, slot := FindLive(key.value);
    }

    /** Turns the live entry of k at `slot` into a tombstone holding v. */
    method MarkDeleted(slot: nat, k: Key, v: Option<V>)
      requires Valid() && k in Contents() && slot == Pos(k, steps[k], capacity)
      requires hasDestroy ==> v.None?
      modifies entries, this`size
      ensures Valid() && Contents() == old(Contents()) - {k} && size == old(size) - 1
      ensures entries[..] == old(entries[..])[slot := Entry(k, v, true)]
    {
      ghost var s := entries[..];
      entries[slot] := Entry(k, v, true);
      Bury(s, entries[..], steps, size, hasDestroy, k, v);
      size := size - 1;
    }

    /**
     Writes a live entry for k, which owns `slot`, holding v; a live non-NULL
     value it replaces goes to `destroy` when a callback is set.
     */
    method Rewrite(slot: nat, k: Key, v: Option<V>)
      requires Valid() && k in steps && slot == Pos(k, steps[k], capacity) && !NeedsGrow(size, capacity)
      modifies entries, this`size, this`destroyed
      ensures Valid() && Contents() == old(Contents())[k := v]
      ensures size == old(size) + (if k in old(Contents()) then 0 else 1)
      ensures entries[..] == old(entries[..])[slot := Entry(k, v, false)]
      ensures destroyed == old(destroyed) +
                (if hasDestroy && IsLive(old(entries[slot])) && old(entries[slot]).value.Some?
                 then [old(entries[slot]).value.value] else [])
      ensures old(entries[slot]).Entry? && old(entries[slot]).key == k
      ensures IsLive(old(entries[slot])) <==> k in old(Contents())
      ensures k in old(Contents()) ==> old(Contents())[k] == old(entries[slot]).value
    {
      ghost var s := entries[..];
      var e := entries[slot];
      if !e.deleted && hasDestroy && e.value.Some? {
        destroyed := destroyed + [e.value.value];
      }
      var wasLive := IsLive(entries[slot]);
      entries[slot] := Entry(k, v, false);
      Overwrite(s, entries[..], steps, size, hasDestroy, k, v);
      if !wasLive {
        size := size + 1;
      }
    }

    /**
     Stores a new live entry for k, which owns no slot, at probe step `step`:
     an Empty position behind occupied ones only.
     */
    method Place(slot: nat, step: nat, k: Key, v: Option<V>)
      requires Valid() && k !in steps && step < capacity && slot == Pos(k, step, capacity)
      requires !NeedsGrow(size, capacity) && entries[slot].Empty? && forall t | 0 <= t < step :: entries[Pos(k, t, capacity)].Entry?
      modifies entries, this`size, this`steps
      ensures Valid() && Contents() == old(Contents())[k := v] && k !in old(Contents())
      ensures size == old(size) + 1 && steps == old(steps)[k := step]
      ensures entries[..] == old(entries[..])[slot := Entry(k, v, false)]
    {
      ghost var s := entries[..];
      entries[slot] := Entry(k, v, false);
      Insert(s, entries[..], steps, size, hasDestroy, k, step, v);
      steps := steps[k := step];
      size := size + 1;
    }

    /**
     `dictionary_delete`: turns the live entry for key into a tombstone, after
     passing its non-NULL value to `destroy` (and clearing it) when a callback
     is set.
     */
    method Delete(key: Option<Key>) returns (ok: bool)
      requires Valid()
      modifies entries, this`size, this`destroyed
      ensures Valid()
      ensures ok <==> IsValidKey(key) && key.value in old(Contents())
      ensures Contents() == if ok then old(Contents()) - {key.value} else old(Contents())
      ensures size == if ok then old(size) - 1 else old(size)
      ensures destroyed == old(destroyed) +
                (if ok && hasDestroy && old(Contents())[key.value].Some?
                 then [old(Contents())[key.value].value] else [])
      ensures !ok ==> entries[..] == old(entries[..])
    {
      ok := false;
      if key.Some? && key.value != [] {
        var k := key.value;
        var found, slot := FindLive(k);
        if found {
          var value := entries[slot].value;
          if hasDestroy && value.Some? {
            destroyed := destroyed + [value.value];
            value := None;
          }
          MarkDeleted(slot, k, value);
          ok := true;
        }
      }
    }

    /**
     `dictionary_pop`: like delete, but hands the value back to the caller
     and never calls `destroy`.
     */
    method Pop(key: Option<Key>) returns (value: Option<V>, err: bool)
      requires Valid()
      modifies entries, this`size
      ensures Valid()
      ensures err <==> !(IsValidKey(key) && key.value in old(Contents()))
      ensures !err ==> value == old(Contents())[key.value]
      ensures Contents() == if err then old(Contents()) else old(Contents()) - {key.value}
      ensures size == if err then old(size) else old(size) - 1
      ensures err ==> value == None && entries[..] == old(entries[..])
      ensures destroyed == old(destroyed)
    {
      value, err := None, true;
      if key.Some? && key.value != [] {
        var k := key.value;
        var found, slot := FindLive(k);
        if found {
          value := entries[slot].value;
          MarkDeleted(slot, k, None);
          err := false;
        }
      }
    }

    /**
     The probe loop of `put`: unlike the lookups it stops at an entry for key
     whether live or tombstone; it stops at an Empty slot or gives up after
     `capacity` steps.
     */
    method ProbeForPut(key: Key) returns (r: PutProbe)
      requires Valid()
      ensures r.Match? <==> key in steps
      ensures r.Match? ==> r.slot == Pos(key, steps[key], capacity)
      ensures r.Vacant? ==>
                r.step < capacity && r.slot == Pos(key, r.step, capacity) && entries[r.slot].Empty? &&
                forall t | 0 <= t < r.step :: entries[Pos(key, t, capacity)].Entry?
      ensures r.Full? ==> forall t | 0 <= t < capacity :: entries[Pos(key, t, capacity)].Entry?
    {
      ghost var s := entries[..];
      var h0 := HashFunction(key, capacity);
      DivModUnique(h0, 0, h0, capacity);
      var hash := h0;
      var i := 0;
      while entries[hash].Entry?
        invariant 0 <= i < capacity && hash == Pos(key, i, capacity)
        invariant forall t | 0 <= t < i ::
                    s[Pos(key, t, capacity)].Entry? && s[Pos(key, t, capacity)].key != key
        decreases capacity - i
      {
        if entries[hash].key == key {
          return Match(hash);
        }
        i := i + 1;
        hash := Probe(h0, i, capacity);
        if i == capacity {
          NotStoredIfSearchMisses(s, steps, key, i);
          return Full;
        }
      }
      NotStoredIfSearchMisses(s, steps, key, i);
      return Vacant(hash, i);
    }

    /**
     The resize loop of `put`: a fresh array of twice the capacity into which
     every live entry is reinserted by an unbounded probe, while tombstones are
     abandoned, their non-NULL values going to `destroy` when a callback is
     set. The probe terminates: at old slot i at most i <
     capacity new slots are taken, and the first capacity (half the new size)
     probe positions of any key are distinct.
     */
    method Rehash() returns (a: array<Slot<V>>, ghost newSteps: map<Key, nat>)
      requires entries.Length == capacity && IsPowerOfTwo(capacity) && WellPlaced(entries[..], steps)
      modifies this`destroyed
      ensures fresh(a) && Rebuilt(entries[..], steps, a[..], newSteps, capacity)
      ensures destroyed == old(destroyed) + (if hasDestroy then Abandoned(entries[..]) else [])
    {
      ghost var s := entries[..];
      a := new Slot<V>[capacity * 2](_ => Empty);
      newSteps := map[];
      RebuildStart(s, steps, a[..]);
      DoublePowerOfTwo(capacity);
      for i := 0 to capacity
        modifies this`destroyed, a
        invariant entries[..] == s
        invariant Rebuilt(s, steps, a[..], newSteps, i)
        invariant destroyed == old(destroyed) + (if hasDestroy then Abandoned(entries[..i]) else [])
      {
        newSteps := Move(i, a, newSteps, old(destroyed));
      }
      assert entries[..capacity] == s;
    }

    /**
     One round of the resize loop: the live entry of old slot i is reinserted
     at the first Empty position of its probe in a; a tombstone is abandoned,
     its non-NULL value going to `destroy` when a callback is set.
     */
    method Move(i: nat, a: array<Slot<V>>, ghost newSteps: map<Key, nat>, ghost log: seq<V>)
      returns (ghost newSteps': map<Key, nat>)
      requires entries.Length == capacity && IsPowerOfTwo(2 * capacity) && WellPlaced(entries[..], steps)
      requires i < capacity && Rebuilt(entries[..], steps, a[..], newSteps, i)
      requires destroyed == log + (if hasDestroy then Abandoned(entries[..i]) else [])
      modifies this`destroyed, a
      ensures Rebuilt(entries[..], steps, a[..], newSteps', i + 1)
      ensures destroyed == log + (if hasDestroy then Abandoned(entries[..i + 1]) else [])
    {
      AbandonedPrefix(entries[..], i);
      assert entries[..][..i] == entries[..i] && entries[..][..i + 1] == entries[..i + 1];
      ghost var s := entries[..];
      ghost var ns := a[..];
      var slot := entries[i];
      if slot.Entry? && !slot.deleted {
        RebuildRoom(s, steps, ns, newSteps, i);
        var j, h := FindVacant(a, slot.key);
        a[h] := Entry(slot.key, slot.value, false);
        RebuildMove(s, steps, ns, a[..], newSteps, i, j);
        newSteps' := newSteps[slot.key := j];
      } else {
        RebuildSkip(s, steps, ns, newSteps, i);
        if slot.Entry? && hasDestroy && slot.value.Some? {
          destroyed := destroyed + [slot.value.value];
        }
        newSteps' := newSteps;
      }
    }

    /**
     The resize step of `put`: the table is replaced by its rehashed copy of
     twice the capacity, with the same pairs and no tombstones. Nothing is
     destroyed: when a callback is set, every abandoned tombstone is NULL.
     */
    method Grow()
      requires Valid()
      modifies this
      ensures Valid() && fresh(entries)
      ensures capacity == 2 * old(capacity) && size == old(size)
      ensures Contents() == old(Contents())
      ensures steps.Keys == Contents().Keys
      ensures NoTombstones(entries[..]) && Count(entries[..], Occupied) == size
      ensures !NeedsGrow(size, capacity)
      ensures destroyed == old(destroyed)
    {
      var a, newSteps := Rehash();
      if hasDestroy {
        AbandonedCleared(entries[..]);
      }
      RebuildDone(entries[..], steps, size, hasDestroy, a[..], newSteps);
      entries := a;
      capacity := capacity * 2;
      steps := newSteps;
    }

    /**
     The in-place part of `dictionary_put`, after any resize: overwrite the
     entry for key (passing a replaced live non-NULL value to `destroy`),
     revive its tombstone, or store a copy of key in the first Empty slot of
     its probe; fail when the probe meets no Empty slot.
     */
    method Store(k: Key, value: Option<V>) returns (ok: bool)
      requires Valid() && !NeedsGrow(size, capacity)
      modifies entries, this`size, this`steps, this`destroyed
      ensures Valid()
      ensures k in old(steps) ==> ok && steps == old(steps)
      ensures k !in old(steps) && (forall t | 0 <= t < capacity :: old(entries[Pos(k, t, capacity)]).Entry?) ==> !ok
      ensures ok ==> k in steps && steps == old(steps)[k := steps[k]]
      ensures ok ==> entries[..] == old(entries[..])[Pos(k, steps[k], capacity) := Entry(k, value, false)]
      ensures ok ==> Contents() == old(Contents())[k := value]
      ensures ok ==> size == old(size) + (if k in old(Contents()) then 0 else 1)
      ensures !ok ==>
                k !in steps && steps == old(steps) && size == old(size) && entries[..] == old(entries[..]) &&
                forall t | 0 <= t < capacity :: entries[Pos(k, t, capacity)].Entry?
      ensures !ok ==> capacity <= 2 * Count(entries[..], Occupied)
      ensures destroyed == old(destroyed) +
                (if ok && hasDestroy && k in old(Contents()) && old(Contents())[k].Some?
                 then [old(Contents())[k].value] else [])
    {
      var r := ProbeForPut(k);
      match r
      case Match(slot) =>
        Rewrite(slot, k, value);
        assert steps == old(steps)[k := steps[k]];
        ok := true;
      case Vacant(slot, step) =>
        Place(slot, step, k, value);
        assert k !in old(steps);
        ok := true;
      case Full =>
        FullProbeHalfOccupied(entries[..], k);
        ok := false;
    }

    /**
     `dictionary_put`: rejects an invalid key; grows the table first when one
     more entry would pass the load factor; then stores the pair.
     */
    method Put(key: Option<Key>, value: Option<V>) returns (ok: bool)
      requires Valid()
      modifies this, entries
      ensures Valid()
      ensures !IsValidKey(key) ==>
                !ok && entries == old(entries) && entries[..] == old(entries[..]) &&
                capacity == old(capacity) && size == old(size) && steps == old(steps) &&
                destroyed == old(destroyed)
      ensures IsValidKey(key) ==>
                capacity == if NeedsGrow(old(size), old(capacity)) then 2 * old(capacity) else old(capacity)
      ensures IsValidKey(key) && NeedsGrow(old(size), old(capacity)) ==> fresh(entries)
      ensures IsValidKey(key) && !NeedsGrow(old(size), old(capacity)) ==>
                entries == old(entries) && (!ok ==> entries[..] == old(entries[..]))
      ensures ok ==> Contents() == old(Contents())[key.value := value]
      ensures ok ==> size == old(size) + (if key.value in old(Contents()) then 0 else 1)
      ensures !ok ==> Contents() == old(Contents()) && size == old(size)
      ensures IsValidKey(key) && key.value in old(Contents()) ==> ok
      ensures IsValidKey(key) && key.value in old(steps) && !NeedsGrow(old(size), old(capacity)) ==> ok
      ensures IsValidKey(key) && NeedsGrow(old(size), old(capacity)) ==> ok
      ensures (IsValidKey(key) && !NeedsGrow(old(size), old(capacity)) && key.value !in old(steps) &&
               forall t | 0 <= t < old(capacity) :: old(entries[Pos(key.value, t, capacity)]).Entry?) ==> !ok
      ensures ok ==> key.value in steps
      ensures ok && !NeedsGrow(old(size), old(capacity)) ==>
                steps == old(steps)[key.value := steps[key.value]] &&
                entries[..] == old(entries[..])[Pos(key.value, steps[key.value], capacity) := Entry(key.value, value, false)]
      ensures IsValidKey(key) && !ok ==>
                key.value !in steps &&
                forall t | 0 <= t < capacity :: entries[Pos(key.value, t, capacity)].Entry?
      ensures IsValidKey(key) && !ok ==> capacity <= 2 * Count(entries[..], Occupied)
      ensures destroyed == old(destroyed) +
                (if ok && hasDestroy && key.value in old(Contents()) && old(Contents())[key.value].Some?
                 then [old(Contents())[key.value].value] else [])
    {
      if key.None? || key.value == [] {
        return false;
      }
      if (size + 1) * LoadDen > capacity * LoadNum {
        Grow();
      }
      ok := Store(key.value, value);
    }

    /**
     `dictionary_destroy`: passes the non-NULL value of every occupied slot to
     `destroy` when a callback is set. Because tombstones hold no value then,
     these are exactly the non-NULL values of the dictionary, one call per
     live slot at most.
     */
    method Destroy()
      requires Valid()
      modifies this`destroyed
      ensures destroyed == old(destroyed) + (if hasDestroy then Disposed(entries[..]) else [])
      ensures hasDestroy ==> |destroyed| - |old(destroyed)| <= |Contents()|
      ensures hasDestroy ==>
                forall k | k in Contents() && Contents()[k].Some? ::
                  Contents()[k].value in destroyed[|old(destroyed)|..]
      ensures hasDestroy ==>
                forall v | v in destroyed[|old(destroyed)|..] ::
                  exists k :: k in Contents() && Contents()[k] == Some(v)
    {
      ghost var s := entries[..];
      for i := 0 to capacity
        invariant destroyed == old(destroyed) + (if hasDestroy then Disposed(s[..i]) else [])
      {
        DisposedPrefix(s, i);
        if entries[i].Entry? {
          if hasDestroy && entries[i].value.Some? {
            destroyed := destroyed + [entries[i].value.value];
          }
        }
      }
      assert s[..capacity] == s;
      if hasDestroy {
        DisposedIsLiveValues(s);
        LiveValuesOfMap(s, steps);
        assert destroyed[|old(destroyed)|..] == Disposed(s);
      }
    }
  }

  /** `dictionary_size`: the number of keys, and 0 for a NULL table. */
  function Size<V>(d: Dictionary?<V>): (n: nat)
    reads d
    reads if d == null then {} else {d.entries}
    requires d != null ==> d.Valid()
    ensures d == null ==> n == 0
    ensures d != null ==> n == |d.Contents()|
  {
    if d == null then 0 else (d.SizeIsLiveCount(); d.size)
  }
}
