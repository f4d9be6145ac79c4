/**
 The string hash and the quadratic probe sequence of the dictionary, with the
 arithmetic facts about them that the table relies on.

 `size_t` is taken to be 64 bits wide: every arithmetic step on it wraps
 modulo 2^64.
 */
module Hashing {

  /** The bytes of a key, read as unsigned, without its terminating NUL. */
  type Key = seq<bv8>

  /** 2^64: the modulus of `size_t` arithmetic. */
  const SizeTModulus: nat := 0x1_0000_0000_0000_0000

  predicate IsPowerOfTwo(n: nat)
    decreases n
  {
    n == 1 || (n >= 2 && n % 2 == 0 && IsPowerOfTwo(n / 2))
  }

  // ---------------------------------------------------------------------------
  // Modular arithmetic helpers
  // ---------------------------------------------------------------------------

  lemma MulAtLeast(a: int, n: int)
    requires a >= 1 && n > 0
    ensures a * n >= n
  {
  }

  /** Euclidean division is unique: y = k*n + r with 0 <= r < n fixes y / n and y % n. */
  lemma DivModUnique(y: int, k: int, r: int, n: int)
    requires n > 0 && 0 <= r < n && y == k * n + r
    ensures y % n == r && y / n == k
  {
    var d, m := y / n, y % n;
    assert y == d * n + m;
    assert (k - d) * n == m - r;
    if k > d {
      MulAtLeast(k - d, n);
    } else if k < d {
      MulAtLeast(d - k, n);
    }
  }

  lemma AddMultipleMod(x: nat, q: nat, n: nat)
    requires n > 0
    ensures (x + q * n) % n == x % n
  {
    assert x == (x / n) * n + x % n;
    assert x + q * n == (x / n + q) * n + x % n;
    DivModUnique(x + q * n, x / n + q, x % n, n);
  }

  lemma MultipleMod(q: nat, n: nat)
    requires n > 0
    ensures (q * n) % n == 0
  {
    AddMultipleMod(0, q, n);
  }

  /** Reducing modulo a multiple of c first does not change the remainder modulo c. */
  lemma ModOfMod(x: nat, m: nat, c: nat)
    requires m > 0 && c > 0 && m % c == 0
    ensures (x % m) % c == x % c
  {
    var r := m / c;
    assert m == r * c;
    var q := x / m;
    assert x == x % m + (q * r) * c;
    AddMultipleMod(x % m, q * r, c);
  }

  /** Two numbers with the same remainder differ by a multiple. */
  lemma SameModDiff(u: nat, v: nat, n: nat)
    requires n > 0 && u <= v && u % n == v % n
    ensures (v - u) % n == 0
  {
    var qu, qv := u / n, v / n;
    assert u == qu * n + u % n;
    assert v == qv * n + v % n;
    assert qu <= qv;
    assert v - u == (qv - qu) * n;
    MultipleMod(qv - qu, n);
  }

  /** A power of two divides every power of two not smaller than it. */
  lemma {:induction false} PowerOfTwoDivides(a: nat, b: nat)
    requires IsPowerOfTwo(a) && IsPowerOfTwo(b) && a <= b
    ensures b % a == 0
    decreases a
  {
    if a > 1 {
      PowerOfTwoDivides(a / 2, b / 2);
      var q := (b / 2) / (a / 2);
      assert b / 2 == q * (a / 2);
      assert b == q * a;
      MultipleMod(q, a);
    }
  }

  lemma DoublePowerOfTwo(c: nat)
    requires IsPowerOfTwo(c)
    ensures IsPowerOfTwo(2 * c)
  {
    assert (2 * c) / 2 == c;
  }

  lemma {:induction false} PowerOfTwoProduct(a: nat, b: nat)
    requires IsPowerOfTwo(a) && IsPowerOfTwo(b)
    ensures IsPowerOfTwo(a * b)
    decreases a
  {
    if a > 1 {
      var h := a / 2;
      PowerOfTwoProduct(h, b);
      var c := h * b;
      assert a == 2 * h;
      assert a * b == 2 * c;
      DoublePowerOfTwo(c);
    } else {
      assert a == 1;
    }
  }

  lemma SizeTModulusIsPowerOfTwo()
    ensures IsPowerOfTwo(SizeTModulus)
  {
    assert IsPowerOfTwo(0x100);
    PowerOfTwoProduct(0x100, 0x100);
    PowerOfTwoProduct(0x1_0000, 0x1_0000);
    PowerOfTwoProduct(0x1_0000_0000, 0x1_0000_0000);
  }

  lemma OddTimesOdd(x: nat, y: nat)
    requires x % 2 == 1 && y % 2 == 1
    ensures (x * y) % 2 == 1
  {
    var a, b := x / 2, y / 2;
    assert x == 2 * a + 1 && y == 2 * b + 1;
    assert x * y == 2 * (2 * a * b + a + b) + 1;
  }

  /**
   An odd number times a number strictly between 0 and the power of two n is
   never a multiple of n.
   */
  lemma {:induction false} OddTimesSmallNotMultiple(x: nat, y: nat, n: nat)
    requires IsPowerOfTwo(n) && x % 2 == 1 && 0 < y < n
    ensures (x * y) % n != 0
    decreases n
  {
    var m := n / 2;
    if (x * y) % n == 0 {
      var q := (x * y) / n;
      assert x * y == q * n;
      assert q * n == 2 * (q * m);
      if y % 2 == 1 {
        MultipleMod(q * m, 2);
        OddTimesOdd(x, y);
      } else {
        var z := y / 2;
        assert y == 2 * z;
        assert x * y == 2 * (x * z);
        assert x * z == q * m;
        MultipleMod(q, m);
        OddTimesSmallNotMultiple(x, z, m);
      }
    }
  }

  // ---------------------------------------------------------------------------
  // hash_function
  // ---------------------------------------------------------------------------

  /**
   The accumulator of `hash_function` after it has consumed every byte of key:
   `hash = ((hash << 5) + hash) + byte`, that is hash * 33 + byte, in `size_t`.
   */
  function Djb2(key: Key): (h: nat)
    ensures h < SizeTModulus
  {
    if key == [] then 0
    else (Djb2(key[..|key| - 1]) * 33 + key[|key| - 1] as nat) % SizeTModulus
  }

  /** The same polynomial without wrap-around: the sum of key[i] * 33^(|key|-1-i). */
  function Polynomial(key: Key): nat
  {
    if key == [] then 0
    else Polynomial(key[..|key| - 1]) * 33 + key[|key| - 1] as nat
  }

  /** `hash_function(key, capacity)`: the home slot of key in a table of that capacity. */
  function HashFunction(key: Key, capacity: nat): (h: nat)
    requires capacity > 0
    ensures h < capacity
  {
    Djb2(key) % capacity
  }

  /** The wrapping accumulator is the polynomial reduced modulo 2^64. */
  lemma {:induction false} Djb2IsPolynomialMod(key: Key)
    ensures Djb2(key) == Polynomial(key) % SizeTModulus
    decreases |key|
  {
    if key != [] {
      var init, b := key[..|key| - 1], key[|key| - 1] as nat;
      Djb2IsPolynomialMod(init);
      var p := Polynomial(init);
      var q := p / SizeTModulus;
      assert p == p % SizeTModulus + q * SizeTModulus;
      assert p * 33 + b == (p % SizeTModulus * 33 + b) + (33 * q) * SizeTModulus;
      AddMultipleMod(p % SizeTModulus * 33 + b, 33 * q, SizeTModulus);
    }
  }

  /**
   For a power-of-two capacity that fits in `size_t`, the wrap-around of the
   accumulator does not change the home slot: it is the exact polynomial
   modulo the capacity.
   */
  lemma HashIgnoresWrap(key: Key, capacity: nat)
    requires IsPowerOfTwo(capacity) && capacity <= SizeTModulus
    ensures HashFunction(key, capacity) == Polynomial(key) % capacity
  {
    SizeTModulusIsPowerOfTwo();
    PowerOfTwoDivides(capacity, SizeTModulus);
    Djb2IsPolynomialMod(key);
    ModOfMod(Polynomial(key), SizeTModulus, capacity);
  }

  // ---------------------------------------------------------------------------
  // The probe sequence
  // ---------------------------------------------------------------------------

  /**
   Slot visited at probe step j from home slot h0: (h0 + C1*j + C2*j*j) % capacity
   with C1 = C2 = 1.
   */
  function Probe(h0: nat, j: nat, capacity: nat): (p: nat)
    requires capacity > 0
    ensures p < capacity
  {
    (h0 + j + j * j) % capacity
  }

  lemma StepSumEven(j: nat)
    ensures (j + j * j) % 2 == 0
  {
    var a := j / 2;
    if j % 2 == 0 {
      assert j == 2 * a;
      assert j + j * j == 2 * (a + 2 * a * a);
    } else {
      assert j == 2 * a + 1;
      assert j + j * j == 2 * (2 * a * a + 3 * a + 1);
    }
  }

  /**
   j + j*j is always even, so in a table of even capacity every probe position
   has the parity of the home slot: a probe sequence reaches at most half of
   the slots.
   */
  lemma ProbeParity(h0: nat, j: nat, capacity: nat)
    requires capacity > 0 && capacity % 2 == 0
    ensures Probe(h0, j, capacity) % 2 == h0 % 2
  {
    StepSumEven(j);
    ModOfMod(h0 + j + j * j, capacity, 2);
    var w := (j + j * j) / 2;
    assert j + j * j == w * 2;
    AddMultipleMod(h0, w, 2);
  }

  /** The probe sequence repeats with period capacity, so capacity steps see all of it. */
  lemma ProbePeriodic(h0: nat, j: nat, capacity: nat)
    requires capacity > 0
    ensures Probe(h0, j + capacity, capacity) == Probe(h0, j, capacity)
  {
    var n := capacity;
    assert (j + n) * (j + n) == j * j + (2 * j + n) * n;
    assert h0 + (j + n) + (j + n) * (j + n) == (h0 + j + j * j) + (1 + 2 * j + n) * n;
    AddMultipleMod(h0 + j + j * j, 1 + 2 * j + n, n);
  }

  lemma StepDifference(a: nat, b: nat)
    requires a < b
    ensures (b + b * b) - (a + a * a) == (b - a) * (a + b + 1)
  {
  }

  /**
   Of two numbers strictly between 0 and the power of two n whose sum is odd,
   one is odd, so their product is not a multiple of n.
   */
  lemma OddSumProductNotMultiple(x: nat, y: nat, n: nat)
    requires IsPowerOfTwo(n) && 0 < x < n && 0 < y < n && (x + y) % 2 == 1
    ensures (x * y) % n != 0
  {
    if x % 2 == 1 {
      OddTimesSmallNotMultiple(x, y, n);
    } else {
      assert x * y == y * x;
      OddTimesSmallNotMultiple(y, x, n);
    }
  }

  /**
   Two numbers whose difference is such a product leave different remainders
   modulo n.
   */
  lemma DistinctResidues(u: nat, v: nat, x: nat, y: nat, n: nat)
    requires IsPowerOfTwo(n) && 0 < x < n && 0 < y < n && (x + y) % 2 == 1
    requires u <= v && v - u == x * y
    ensures u % n != v % n
  {
    if u % n == v % n {
      SameModDiff(u, v, n);
      OddSumProductNotMultiple(x, y, n);
    }
  }

  /**
   In a power-of-two table two probe steps a < b with a + b + 1 < capacity land
   on different slots; in particular the first capacity/2 steps are pairwise
   distinct.
   */
  lemma ProbeDistinct(h0: nat, a: nat, b: nat, capacity: nat)
    requires IsPowerOfTwo(capacity) && a < b && a + b + 1 < capacity
    ensures Probe(h0, a, capacity) != Probe(h0, b, capacity)
  {
    var x, y := b - a, a + b + 1;
    var u, v := h0 + a + a * a, h0 + b + b * b;
    StepDifference(a, b);
    MulAtLeast(x, y);
    assert v - u == x * y && (x + y) % 2 == 1;
    DistinctResidues(u, v, x, y, capacity);
  }

  /** The slots visited by the first j probe steps. */
  function ProbeSet(h0: nat, j: nat, capacity: nat): set<nat>
    requires capacity > 0
  {
    if j == 0 then {} else ProbeSet(h0, j - 1, capacity) + {Probe(h0, j - 1, capacity)}
  }

  lemma {:induction false} ProbeSetExcludes(h0: nat, j: nat, t: nat, capacity: nat)
    requires IsPowerOfTwo(capacity) && j <= t && 2 * t < capacity
    ensures Probe(h0, t, capacity) !in ProbeSet(h0, j, capacity)
  {
    if j > 0 {
      ProbeSetExcludes(h0, j - 1, t, capacity);
      ProbeDistinct(h0, j - 1, t, capacity);
    }
  }

  /** The first j <= capacity/2 probe steps visit exactly j distinct slots. */
  lemma {:induction false} ProbeSetSize(h0: nat, j: nat, capacity: nat)
    requires IsPowerOfTwo(capacity) && 2 * j <= capacity
    ensures |ProbeSet(h0, j, capacity)| == j
  {
    if j > 0 {
      ProbeSetSize(h0, j - 1, capacity);
      ProbeSetExcludes(h0, j - 1, j - 1, capacity);
    }
  }
}
