/**
 A client of the dictionary: the life of one key through overwrite, delete
 and revival, with the values the destroy callback receives along the way.
 */
module Scenario {
  import opened Wrappers
  import opened Hashing
  import opened Dict

  /** The key "a". */
  const A: Key := [0x61]

  /**
   A 16-slot table with a destroy callback that holds exactly the pairs c,
   after the callback has received exactly the values of log.
   */
  ghost predicate Stage(d: Dictionary<int>, c: map<Key, Option<int>>, log: seq<int>)
    reads d, d.entries
  {
    d.Valid() && d.hasDestroy && d.capacity == InitialCapacity &&
    d.Contents() == c && d.size == |c| && d.destroyed == log
  }

  /**
   Put "a" -> 1, put "a" -> 2, delete "a", put "a" -> 3, read "a" back and
   tear the table down. Every step succeeds, no step resizes; the callback
   receives 1 (the overwritten value), then 2 (the deleted one), then 3 (at
   teardown), each exactly once, and the dictionary never holds more than one
   key.
   */
  method OverwriteDeleteRevive() returns (value: Option<int>, n: nat)
    ensures value == Some(3) && n == 1
  {
    var d := StoreFirst();
    OverwriteFirst(d);
    DeleteFirst(d);
    ReviveFirst(d);
    value, n := ReadFirst(d);
    DestroyAll(d);
  }

  /** A fresh table accepts "a" -> 1: a put fails only on a half-occupied table. */
  method StoreFirst() returns (d: Dictionary<int>)
    ensures fresh(d) && fresh(d.entries)
    ensures Stage(d, map[A := Some(1)], [])
  {
    d := new Dictionary<int>(true);
    var ok := d.Put(Some(A), Some(1));
    assert ok;
  }

  /** Overwriting "a" hands its old value to the callback. */
  method OverwriteFirst(d: Dictionary<int>)
    requires Stage(d, map[A := Some(1)], [])
    modifies d, d.entries
    ensures d.entries == old(d.entries)
    ensures Stage(d, map[A := Some(2)], [1])
  {
    var ok := d.Put(Some(A), Some(2));
  }

  /** Deleting "a" hands its value to the callback and leaves its tombstone. */
  method DeleteFirst(d: Dictionary<int>)
    requires Stage(d, map[A := Some(2)], [1])
    modifies d, d.entries
    ensures d.entries == old(d.entries)
    ensures Stage(d, map[], [1, 2]) && A in d.steps
  {
    var ok := d.Delete(Some(A));
    assert ok;
  }

  /** Putting "a" again revives its tombstone, without a resize. */
  method ReviveFirst(d: Dictionary<int>)
    requires Stage(d, map[], [1, 2]) && A in d.steps
    modifies d, d.entries
    ensures d.entries == old(d.entries)
    ensures Stage(d, map[A := Some(3)], [1, 2])
  {
    var ok := d.Put(Some(A), Some(3));
    assert ok;
  }

  /** get returns the revived value, and the dictionary holds one key. */
  method ReadFirst(d: Dictionary<int>) returns (value: Option<int>, n: nat)
    requires Stage(d, map[A := Some(3)], [1, 2])
    ensures value == Some(3) && n == 1
  {
    var err;
    value, err := d.Get(Some(A));
    n := Size(d);
  }

  /** Teardown hands the revived value, alone, to the callback. */
  method DestroyAll(d: Dictionary<int>)
    requires Stage(d, map[A := Some(3)], [1, 2])
    modifies d
    ensures d.destroyed == [1, 2, 3]
  {
    d.Destroy();
    LogEndsWith(d.destroyed, [1, 2], 3);
  }

  /** A log that extends prefix by at most one entry, and by x, extends it by exactly x. */
  lemma LogEndsWith(log: seq<int>, prefix: seq<int>, x: int)
    requires |prefix| <= |log| <= |prefix| + 1
    requires log[..|prefix|] == prefix && x in log[|prefix|..]
    ensures log == prefix + [x]
  {
    assert log == log[..|prefix|] + log[|prefix|..];
  }
}
