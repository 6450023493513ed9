/** Machine integers: the 64-bit `usize` and `u64` range and its saturating operations. */
module Machine {

  const USIZE_MAX: nat := 0xFFFF_FFFF_FFFF_FFFF

  type Usize = x: nat | x <= USIZE_MAX

  function SatAdd(a: Usize, b: Usize): Usize {
    if a + b <= USIZE_MAX then a + b else USIZE_MAX
  }

  function SatSub(a: Usize, b: Usize): Usize {
    if a >= b then a - b else 0
  }

  function SatMul(a: Usize, b: Usize): Usize {
    if a * b <= USIZE_MAX then a * b else USIZE_MAX
  }

  function Max(a: nat, b: nat): nat { if a < b then b else a }

  ghost predicate PowerOfTwo(n: nat) {
    n == 1 || (n > 1 && n % 2 == 0 && PowerOfTwo(n / 2))
  }

  /** Least power of two that is at least `n`, searched upwards from the power `from`. */
  function PowerAtLeast(n: nat, from: nat): (p: nat)
    requires PowerOfTwo(from) && (from == 1 || from < 2 * n)
    ensures PowerOfTwo(p) && n <= p && (p == 1 || p < 2 * n)
    decreases n - from
  {
    if from >= n then from else
      assert (2 * from) / 2 == from;
      PowerAtLeast(n, 2 * from)
  }
}
