/** Unsigned 32-bit counters as used for the log ring's cursors (`uint32_t`
    and `size_t` on the target), with the wrap-around of C's unsigned
    arithmetic written out, plus the facts about `counter % C` that make a
    ring of C cells consistent across counter wrap-around. */
module Word32 {

  const MODULUS: int := 0x1_0000_0000

  type U32 = x: int | 0 <= x < MODULUS

  /** A ring capacity that fits in a `size_t` and divides 2^32, so that the
      cell `counter % C` does not jump when the counter wraps. */
  predicate ValidCapacity(c: int) {
    0 < c < MODULUS && MODULUS % c == 0
  }

  /** Unsigned addition `a + n`, wrapping at 2^32. */
  function Add(a: U32, n: nat): (r: U32)
    ensures n < MODULUS && a + n < MODULUS ==> r == a + n
    ensures n < MODULUS && a + n >= MODULUS ==> r == a + n - MODULUS
  {
    (a + n) % MODULUS
  }

  /** Unsigned subtraction `a - b`, wrapping at 2^32: the forward distance
      from `b` to `a`. */
  function Sub(a: U32, b: U32): (r: U32)
    ensures a >= b ==> r == a - b
    ensures a < b ==> r == a - b + MODULUS
  {
    (a - b) % MODULUS
  }

  /** Adding `n` to `b` moves `b` exactly `n` steps forward. */
  lemma SubAdd(b: U32, n: nat)
    requires n < MODULUS
    ensures Sub(Add(b, n), b) == n
  {
  }

  /** Uniqueness of Euclidean division. */
  lemma ModUnique(a: int, q: int, r: int, c: int)
    requires c > 0 && 0 <= r < c && a == q * c + r
    ensures a % c == r
  {
    var q0, r0 := a / c, a % c;
    assert a == q0 * c + r0;
    assert (q - q0) * c == r0 - r;
    if q > q0 {
      MulAtLeast(q - q0, c);
    } else if q < q0 {
      MulAtLeast(q0 - q, c);
    }
  }

  lemma MulAtLeast(d: int, c: int)
    requires d >= 1 && c > 0
    ensures d * c >= c
  {
    assert d * c == (d - 1) * c + c;
    assert (d - 1) * c >= 0;
  }

  /** Adding a multiple of `c` does not change the remainder modulo `c`. */
  lemma ModAddMultiple(x: int, m: int, c: int)
    requires c > 0
    ensures (x + m * c) % c == x % c
  {
    var q, r := x / c, x % c;
    assert x + m * c == (q + m) * c + r;
    ModUnique(x + m * c, q + m, r, c);
  }

  /** 2^32 is a whole number of laps of a ring of valid capacity. */
  lemma ModulusIsLaps(c: int)
    requires ValidCapacity(c)
    ensures MODULUS == (MODULUS / c) * c
  {
  }

  /** The ring cell of a wrapped counter is the cell of the unwrapped one. */
  lemma CellOfAdd(a: U32, n: nat, c: int)
    requires ValidCapacity(c)
    ensures Add(a, n) % c == (a + n) % c
  {
    var k := MODULUS / c;
    var q := (a + n) / MODULUS;
    ModulusIsLaps(c);
    assert a + n == q * MODULUS + Add(a, n);
    assert q * MODULUS == (q * k) * c;
    ModAddMultiple(Add(a, n), q * k, c);
  }

  /** Ring distance from a cursor `from` forward to cell `j`, in `[0, c)`. */
  function Dist(from: int, j: int, c: int): (d: int)
    requires c > 0
    ensures 0 <= d < c
  {
    (j - from) % c
  }

  /** Distance is a function of the cursor's cell only. */
  lemma DistOfWrapped(from: U32, n: nat, j: int, c: int)
    requires ValidCapacity(c)
    ensures Dist(Add(from, n), j, c) == Dist(from + n, j, c)
  {
    var k := MODULUS / c;
    var q := (from + n) / MODULUS;
    ModulusIsLaps(c);
    assert from + n == q * MODULUS + Add(from, n);
    assert j - Add(from, n) == (j - (from + n)) + (q * k) * c;
    ModAddMultiple(j - (from + n), q * k, c);
  }

  /** Stepping the cursor forward by one shortens the distance to every cell
      by one, except the cursor's own cell, which becomes the farthest. */
  lemma DistStep(from: int, j: int, c: int)
    requires c > 0
    ensures Dist(from, j, c) == 0 ==> Dist(from + 1, j, c) == c - 1
    ensures Dist(from, j, c) > 0 ==> Dist(from + 1, j, c) == Dist(from, j, c) - 1
  {
    var d := Dist(from, j, c);
    var q := (j - from) / c;
    assert j - from == q * c + d;
    if d == 0 {
      assert j - (from + 1) == (q - 1) * c + (c - 1);
      ModUnique(j - (from + 1), q - 1, c - 1, c);
    } else {
      ModUnique(j - (from + 1), q, d - 1, c);
    }
  }

  /** The cell `i` steps past `from` lies at distance `i` from `from`. */
  lemma DistOfOffset(from: int, i: int, c: int)
    requires c > 0 && 0 <= i < c
    ensures Dist(from, (from + i) % c, c) == i
  {
    var q := (from + i) / c;
    assert (from + i) % c - from == i + (-q) * c;
    ModAddMultiple(i, -q, c);
    ModUnique(i, 0, i, c);
  }

  /** Two cursors fewer than `c` steps apart in the same direction land on
      different cells. */
  lemma DistinctCells(from: int, i: int, k: int, c: int)
    requires c > 0 && 0 <= i < k < c
    ensures (from + i) % c != (from + k) % c
  {
    DistOfOffset(from, i, c);
    DistOfOffset(from, k, c);
  }
}
