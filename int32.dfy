/** Java's 32-bit `int` as an `AtomicInteger` holds it: arithmetic wraps around. */
module Int32 {
  const MIN: int := -0x8000_0000
  const MAX: int := 0x7fff_ffff
  /** The number of distinct 32-bit values. */
  const MODULUS: int := 0x1_0000_0000

  type int32 = x: int | MIN <= x <= MAX

  /** The two's-complement 32-bit value of `n`: the one `int` congruent to `n` modulo 2^32. */
  function Wrap(n: int): (r: int32)
    ensures MIN <= n <= MAX ==> r == n
  {
    (n - MIN) % MODULUS + MIN
  }

  /** `n` and its wrapped value differ by a multiple of 2^32. */
  lemma WrapCongruent(n: int)
    ensures (n - Wrap(n)) % MODULUS == 0
  {
  }

  /** `incrementAndGet`: one more, wrapping from `MAX` round to `MIN`. */
  function IncrementAndGet(x: int32): (r: int32)
    ensures x < MAX ==> r == x + 1
    ensures x == MAX ==> r == MIN
  {
    Wrap(x + 1)
  }

  /** Only one 32-bit value is congruent to `n`. */
  lemma WrapUnique(n: int, r: int32)
    requires (n - r) % MODULUS == 0
    ensures Wrap(n) == r
  {
    var w := Wrap(n);
    WrapCongruent(n);
    assert ((n - r) - (n - w)) % MODULUS == 0;
    assert (w - r) % MODULUS == 0;
  }

  /** Incrementing the wrapped count of `n` events gives the wrapped count of `n + 1` events. */
  lemma IncrementWrapped(n: int)
    ensures IncrementAndGet(Wrap(n)) == Wrap(n + 1)
  {
    var w := Wrap(n);
    var r := IncrementAndGet(w);
    assert (n + 1 - r) % MODULUS == 0 by {
      WrapCongruent(n);
      WrapCongruent(w + 1);
      assert (n - w) % MODULUS == 0 && (w + 1 - r) % MODULUS == 0;
    }
    WrapUnique(n + 1, r);
  }
}
