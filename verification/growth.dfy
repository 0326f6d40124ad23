/**
 * The capacity policy of `push` (Map.h:38-48): a full buffer grows by
 * `pSize == 0 ? 1 : 2 * pSize`, capped at `pMaxIncrease`, and the increase is ADDED to the
 * old capacity. Uncapped, the capacity therefore triples (0, 1, 3, 9, 27, ...); once the cap
 * applies it grows by exactly the cap per reallocation.
 */
module Growth {

  /** The value of `pMaxIncrease` in a new map. */
  const DefaultMaxIncrease: nat := 512

  /** The amount `push` adds to the capacity of a full buffer. */
  function Increase(size: nat, maxIncrease: nat): (inc: nat)
    ensures inc <= maxIncrease
    ensures inc <= if size == 0 then 1 else 2 * size
    ensures inc == maxIncrease || inc == if size == 0 then 1 else 2 * size
  {
    var wanted := if size == 0 then 1 else 2 * size;
    if wanted > maxIncrease then maxIncrease else wanted
  }

  /**
   * The capacity after one reallocation: it never shrinks, never grows by more than the cap,
   * at most triples a non-empty buffer, and always makes room when the cap is at least 1.
   */
  function Grown(size: nat, maxIncrease: nat): (cap: nat)
    ensures size <= cap <= size + maxIncrease
    ensures size > 0 ==> cap <= 3 * size
    ensures maxIncrease >= 1 ==> size < cap
  {
    size + Increase(size, maxIncrease)
  }

  /** The capacity after one `push` onto `top` live entries: grown only when the buffer is full. */
  function CapacityAfterPush(size: nat, top: nat, maxIncrease: nat): (cap: nat)
    requires top <= size
    ensures maxIncrease >= 1 ==> top < cap
    ensures cap == size || top == size
  {
    if top == size then Grown(size, maxIncrease) else size
  }

  /** The capacity of a map that started empty after `growths` reallocations. */
  function CapacityAfter(growths: nat, maxIncrease: nat): nat
  {
    if growths == 0 then 0 else Grown(CapacityAfter(growths - 1, maxIncrease), maxIncrease)
  }

  function Pow3(n: nat): nat
  {
    if n == 0 then 1 else 3 * Pow3(n - 1)
  }

  /** While the cap does not bite, the capacity after n + 1 reallocations is 3^n. */
  lemma {:induction false} UncappedGrowth(n: nat, maxIncrease: nat)
    requires 2 * Pow3(n) <= 3 * maxIncrease
    ensures CapacityAfter(n + 1, maxIncrease) == Pow3(n)
  {
    if n > 0 {
      assert Pow3(n) == 3 * Pow3(n - 1);
      UncappedGrowth(n - 1, maxIncrease);
      assert CapacityAfter(n, maxIncrease) == Pow3(n - 1);
      assert 2 * Pow3(n - 1) <= maxIncrease;
    }
  }

  /** Once twice the capacity reaches the cap, every reallocation adds exactly the cap. */
  lemma {:induction false} CappedGrowth(n: nat, j: nat, maxIncrease: nat)
    requires 0 < CapacityAfter(n, maxIncrease)
    requires maxIncrease <= 2 * CapacityAfter(n, maxIncrease)
    ensures CapacityAfter(n + j, maxIncrease) == CapacityAfter(n, maxIncrease) + j * maxIncrease
  {
    if j > 0 {
      CappedGrowth(n, j - 1, maxIncrease);
      var base := CapacityAfter(n, maxIncrease);
      var c := CapacityAfter(n + (j - 1), maxIncrease);
      MulStep(j - 1, maxIncrease);
      assert base <= c;
      assert Increase(c, maxIncrease) == maxIncrease;
      assert CapacityAfter(n + j, maxIncrease) == c + maxIncrease;
    }
  }

  lemma MulStep(a: nat, b: nat)
    ensures 0 <= a * b && a * b + b == (a + 1) * b
  {
  }

  /**
   * With the default cap of 512 the capacity runs 1, 3, 9, 27, 81, 243, 729 and then grows by
   * 512 per reallocation; in particular 600 entries fit after seven reallocations.
   */
  lemma DefaultGrowth(j: nat)
    ensures CapacityAfter(7 + j, DefaultMaxIncrease) == 729 + 512 * j
    ensures CapacityAfter(6, DefaultMaxIncrease) < 600 <= CapacityAfter(7, DefaultMaxIncrease)
  {
    assert Pow3(6) == 729 && Pow3(5) == 243;
    UncappedGrowth(6, DefaultMaxIncrease);
    UncappedGrowth(5, DefaultMaxIncrease);
    CappedGrowth(7, j, DefaultMaxIncrease);
  }
}
