/**
 * The CountMin sketch declared in the pg_gp countmin header: its tuning and
 * domain constants, the DEPTH x NUMCOUNTERS counter matrix, and the walk over
 * the matrix rows that `hash_counters_iterate` performs with its two lambdas
 * `increment_counter` and `min_counter`.
 *
 * The matrix is an `array2<int>` updated in place, as the C code updates a
 * `countmin` passed by address. Its value twin, a `seq<seq<int>>`, carries the
 * specification functions and the lemmas (never-undercount in particular).
 */
module CountMin {

  // ---------------------------------------------------------------------------
  // Constants
  // ---------------------------------------------------------------------------

  /** Bits per byte and bytes per int64 on the platforms the code targets. */
  const CHAR_BIT: nat := 8
  const INT64_BYTES: nat := 8

  /** LONGBITS = sizeof(int64) * CHAR_BIT; one dyadic level per bit. */
  const LONGBITS: nat := INT64_BYTES * CHAR_BIT
  const RANGES: nat := LONGBITS

  /** Number of hash functions (rows) and modulus of each (columns). */
  const DEPTH: nat := 8
  const NUMCOUNTERS: nat := 1024

  /** 2^k. */
  function Pow2(k: nat): (r: nat)
    ensures r >= 1
  {
    if k == 0 then 1 else 2 * Pow2(k - 1)
  }

  lemma {:induction false} Pow2Add(a: nat, b: nat)
    ensures Pow2(a + b) == Pow2(a) * Pow2(b)
  {
    if a > 0 {
      Pow2Add(a - 1, b);
      assert Pow2(a + b) == 2 * Pow2(a - 1 + b);
    }
  }

  lemma {:induction false} Pow2Monotone(a: nat, b: nat)
    requires a <= b
    ensures Pow2(a) <= Pow2(b)
  {
    if a < b {
      Pow2Monotone(a, b - 1);
    }
  }

  /**
   * `x >> k` on a signed 64-bit value: an arithmetic shift, which rounds
   * towards minus infinity. Dafny's `/` by a positive divisor does the same.
   */
  function ArithShiftRight(x: int, k: nat): (r: int)
    ensures r * Pow2(k) <= x < r * Pow2(k) + Pow2(k)
  {
    x / Pow2(k)
  }

  /** LONG_MAX and LONG_MIN of a 64-bit `long`. */
  const LONG_MAX: int := 0x7FFF_FFFF_FFFF_FFFF
  const LONG_MIN: int := -0x8000_0000_0000_0000

  /** The signed domain of the sketch: MAXVAL, its midpoint and MINVAL. */
  const MAXVAL: int := ArithShiftRight(LONG_MAX, 1)
  const MIDVAL: int := ArithShiftRight(MAXVAL, 1)
  const MINVAL: int := ArithShiftRight(LONG_MIN, 1)

  lemma DomainConstants()
    ensures MAXVAL == Pow2(62) - 1
    ensures MIDVAL == Pow2(61) - 1
    ensures MINVAL == -(Pow2(62) as int)
    ensures MINVAL <= MIDVAL <= MAXVAL
    ensures MINVAL == -MAXVAL - 1
    ensures MAXVAL - MINVAL + 1 == Pow2(RANGES - 1)
  {
    Pow2Literals();
  }

  lemma Pow2Literals()
    ensures Pow2(1) == 2 && Pow2(16) == 0x1_0000 && Pow2(32) == 0x1_0000_0000
    ensures Pow2(61) == 0x2000_0000_0000_0000
    ensures Pow2(62) == 0x4000_0000_0000_0000
    ensures Pow2(63) == 0x8000_0000_0000_0000
  {
    assert Pow2(8) == 256;
    assert Pow2(16) == 0x1_0000 by { Pow2Add(8, 8); }
    assert Pow2(32) == 0x1_0000_0000 by { Pow2Add(16, 16); }
    assert Pow2(61) == 0x2000_0000_0000_0000 by { Pow2Add(32, 29); Pow2Add(16, 13); Pow2Add(8, 5); }
    assert Pow2(62) == 0x4000_0000_0000_0000;
    assert Pow2(63) == 0x8000_0000_0000_0000;
  }

  /** MIN(x, y) of the header. */
  function Min(x: int, y: int): (r: int)
    ensures r <= x && r <= y
    ensures r == x || r == y
  {
    if x < y then x else y
  }

  // ---------------------------------------------------------------------------
  // Hashing: one column per (row, key); the hash itself is not modelled
  // ---------------------------------------------------------------------------

  /** A per-row hash of a key into the columns of the matrix. */
  type RowHash = f: (int, int) -> int | forall row, key :: 0 <= f(row, key) < NUMCOUNTERS
    witness (row: int, key: int) => 0

  // ---------------------------------------------------------------------------
  // The counter matrix as a value
  // ---------------------------------------------------------------------------

  /** DEPTH rows of NUMCOUNTERS counters each. */
  ghost predicate Shaped(m: seq<seq<int>>)
  {
    |m| == DEPTH && forall row :: 0 <= row < DEPTH ==> |m[row]| == NUMCOUNTERS
  }

  /** A freshly allocated matrix: every counter is 0. */
  function Zero(): (m: seq<seq<int>>)
    ensures Shaped(m)
    ensures forall row, col :: 0 <= row < DEPTH && 0 <= col < NUMCOUNTERS ==> m[row][col] == 0
  {
    seq(DEPTH, row => seq(NUMCOUNTERS, col => 0))
  }

  /** The matrix after one key was counted: one more at its column in every row. */
  function Incr(m: seq<seq<int>>, hash: RowHash, key: int): (m': seq<seq<int>>)
    requires Shaped(m)
    ensures Shaped(m')
    ensures forall row, col :: 0 <= row < DEPTH && 0 <= col < NUMCOUNTERS ==>
      m'[row][col] == m[row][col] + (if col == hash(row, key) then 1 else 0)
  {
    seq(DEPTH, row requires 0 <= row < DEPTH =>
      m[row][hash(row, key) := m[row][hash(row, key)] + 1])
  }

  /**
   * What the row walk computes with `min_counter`: the running minimum of
   * `acc` and the key's counters in rows 0 .. n-1.
   */
  function RowsMin(m: seq<seq<int>>, hash: RowHash, key: int, acc: int, n: nat): (r: int)
    requires Shaped(m) && n <= DEPTH
    ensures r <= acc
    ensures forall row :: 0 <= row < n ==> r <= m[row][hash(row, key)]
    ensures r == acc || exists row :: 0 <= row < n && r == m[row][hash(row, key)]
  {
    if n == 0 then acc else Min(RowsMin(m, hash, key, acc, n - 1), m[n - 1][hash(n - 1, key)])
  }

  /** The CountMin estimate of a key: the smallest of its DEPTH counters. */
  function Estimate(m: seq<seq<int>>, hash: RowHash, key: int): (r: int)
    requires Shaped(m)
    ensures forall row :: 0 <= row < DEPTH ==> r <= m[row][hash(row, key)]
    ensures exists row :: 0 <= row < DEPTH && r == m[row][hash(row, key)]
  {
    RowsMin(m, hash, key, m[0][hash(0, key)], DEPTH)
  }

  /** A walk from any initial value yields the smaller of it and the estimate. */
  lemma RowsMinIsEstimate(m: seq<seq<int>>, hash: RowHash, key: int, acc: int)
    requires Shaped(m)
    ensures RowsMin(m, hash, key, acc, DEPTH) == Min(acc, Estimate(m, hash, key))
  {
  }

  /** Counting a key raises its own estimate by exactly one. */
  lemma EstimateAfterIncr(m: seq<seq<int>>, hash: RowHash, key: int)
    requires Shaped(m)
    ensures Estimate(Incr(m, hash, key), hash, key) == Estimate(m, hash, key) + 1
  {
    var m' := Incr(m, hash, key);
    var e := Estimate(m, hash, key);
    var row :| 0 <= row < DEPTH && e == m[row][hash(row, key)];
    assert m'[row][hash(row, key)] == e + 1;
  }

  /** Counting a key never lowers the estimate of any key. */
  lemma EstimateMonotone(m: seq<seq<int>>, hash: RowHash, key: int, other: int)
    requires Shaped(m)
    ensures Estimate(Incr(m, hash, key), hash, other) >= Estimate(m, hash, other)
  {
    var m' := Incr(m, hash, key);
    var e' := Estimate(m', hash, other);
    var row :| 0 <= row < DEPTH && e' == m'[row][hash(row, other)];
    assert m[row][hash(row, other)] <= e';
  }

  // ---------------------------------------------------------------------------
  // A stream of keys and the never-undercount property
  // ---------------------------------------------------------------------------

  /** The matrix after counting every key of `keys`, in order, from all zeros. */
  function InsertAll(keys: seq<int>, hash: RowHash): (m: seq<seq<int>>)
    ensures Shaped(m)
    ensures forall row, col :: 0 <= row < DEPTH && 0 <= col < NUMCOUNTERS ==> 0 <= m[row][col] <= |keys|
  {
    if keys == [] then Zero()
    else Incr(InsertAll(keys[..|keys| - 1], hash), hash, keys[|keys| - 1])
  }

  /** How often `key` occurs in `keys`. */
  function Occurrences(keys: seq<int>, key: int): nat
  {
    if keys == [] then 0
    else Occurrences(keys[..|keys| - 1], key) + (if keys[|keys| - 1] == key then 1 else 0)
  }

  /** How many keys of `keys` hash to column `col` of row `row`. */
  function HashedTo(keys: seq<int>, hash: RowHash, row: int, col: int): nat
  {
    if keys == [] then 0
    else HashedTo(keys[..|keys| - 1], hash, row, col) + (if hash(row, keys[|keys| - 1]) == col then 1 else 0)
  }

  /** Every counter holds exactly the number of keys that hashed to it. */
  lemma {:induction false} CounterIsHashCount(keys: seq<int>, hash: RowHash, row: int, col: int)
    requires 0 <= row < DEPTH && 0 <= col < NUMCOUNTERS
    ensures InsertAll(keys, hash)[row][col] == HashedTo(keys, hash, row, col)
  {
    if keys != [] {
      CounterIsHashCount(keys[..|keys| - 1], hash, row, col);
    }
  }

  /** Every occurrence of a key hashes to the key's own column. */
  lemma {:induction false} OccurrencesBelowHashCount(keys: seq<int>, hash: RowHash, row: int, key: int)
    ensures Occurrences(keys, key) <= HashedTo(keys, hash, row, hash(row, key))
  {
    if keys != [] {
      OccurrencesBelowHashCount(keys[..|keys| - 1], hash, row, key);
    }
  }

  /** The CountMin estimate never undercounts the true frequency of a key. */
  lemma NeverUndercount(keys: seq<int>, hash: RowHash, key: int)
    ensures Estimate(InsertAll(keys, hash), hash, key) >= Occurrences(keys, key)
  {
    var m := InsertAll(keys, hash);
    var e := Estimate(m, hash, key);
    var row :| 0 <= row < DEPTH && e == m[row][hash(row, key)];
    CounterIsHashCount(keys, hash, row, hash(row, key));
    OccurrencesBelowHashCount(keys, hash, row, key);
  }

  // ---------------------------------------------------------------------------
  // The matrix in place: increment_counter, min_counter, hash_counters_iterate
  // ---------------------------------------------------------------------------

  /** An `array2` with the shape of a `countmin`. */
  predicate IsCountMin(sketch: array2<int>)
  {
    sketch.Length0 == DEPTH && sketch.Length1 == NUMCOUNTERS
  }

  /** The value held by a matrix in the heap. */
  ghost function Cells(sketch: array2<int>): (m: seq<seq<int>>)
    reads sketch
    requires IsCountMin(sketch)
    ensures Shaped(m)
    ensures forall row, col :: 0 <= row < DEPTH && 0 <= col < NUMCOUNTERS ==> m[row][col] == sketch[row, col]
  {
    seq(DEPTH, row requires 0 <= row < DEPTH reads sketch =>
      seq(NUMCOUNTERS, col requires 0 <= col < NUMCOUNTERS reads sketch => sketch[row, col]))
  }

  /** Two matrices of the right shape are equal when all their counters are. */
  lemma CellsEqual(m: seq<seq<int>>, m': seq<seq<int>>)
    requires Shaped(m) && Shaped(m')
    requires forall row, col :: 0 <= row < DEPTH && 0 <= col < NUMCOUNTERS ==> m[row][col] == m'[row][col]
    ensures m == m'
  {
    forall row | 0 <= row < DEPTH
      ensures m[row] == m'[row]
    {
      assert |m[row]| == |m'[row]| == NUMCOUNTERS;
    }
  }

  /**
   * `increment_counter(row, col, sketch, transval)`: one more in counter
   * (row, col); the result is the running minimum with the new count.
   */
  method IncrementCounter(row: int, col: int, sketch: array2<int>, transval: int) returns (r: int)
    requires IsCountMin(sketch) && 0 <= row < DEPTH && 0 <= col < NUMCOUNTERS
    modifies sketch
    ensures sketch[row, col] == old(sketch[row, col]) + 1
    ensures forall i, j :: 0 <= i < DEPTH && 0 <= j < NUMCOUNTERS && (i != row || j != col) ==>
      sketch[i, j] == old(sketch[i, j])
    ensures r == Min(sketch[row, col], transval)
  {
    sketch[row, col] := sketch[row, col] + 1;
    r := Min(sketch[row, col], transval);
  }

  /** `min_counter(row, col, sketch, transval)`: the running minimum, read only. */
  method MinCounter(row: int, col: int, sketch: array2<int>, transval: int) returns (r: int)
    requires IsCountMin(sketch) && 0 <= row < DEPTH && 0 <= col < NUMCOUNTERS
    ensures r <= transval && r <= sketch[row, col]
    ensures r == transval || r == sketch[row, col]
  {
    r := Min(sketch[row, col], transval);
  }

  /** The two lambdas `hash_counters_iterate` is called with. */
  datatype CounterLambda = Increment | Minimum

  /**
   * `hash_counters_iterate(key, sketch, initial, lambda)`: calls the lambda
   * on (row, hash(row, key)) for every row in order, threading the running
   * value from `initial`.
   */
  method HashCountersIterate(hash: RowHash, key: int, sketch: array2<int>, initial: int, lambda: CounterLambda)
    returns (r: int)
    requires IsCountMin(sketch)
    modifies sketch
    ensures lambda == Increment ==> Cells(sketch) == Incr(old(Cells(sketch)), hash, key)
    ensures lambda == Minimum ==> Cells(sketch) == old(Cells(sketch))
    ensures r == Min(initial, Estimate(Cells(sketch), hash, key))
  {
    ghost var m0 := Cells(sketch);
    ghost var target := if lambda == Increment then Incr(m0, hash, key) else m0;
    r := initial;
    var row := 0;
    while row < DEPTH
      invariant 0 <= row <= DEPTH
      invariant forall i, j :: 0 <= i < DEPTH && 0 <= j < NUMCOUNTERS ==>
        sketch[i, j] == (if i < row then target[i][j] else m0[i][j])
      invariant r == RowsMin(target, hash, key, initial, row)
    {
      var col := hash(row, key);
      if lambda == Increment {
        r := IncrementCounter(row, col, sketch, r);
      } else {
        r := MinCounter(row, col, sketch, r);
      }
      row := row + 1;
    }
    CellsEqual(Cells(sketch), target);
    RowsMinIsEstimate(target, hash, key, initial);
  }
}
