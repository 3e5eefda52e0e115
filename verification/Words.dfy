/** 32-bit machine arithmetic shared by the other modules, and the page-alignment helpers. */
module Words {
  datatype Option<+T> = None | Some(value: T)

  const MODULUS: int := 0x1_0000_0000
  const UINTPTR_MAX: int := MODULUS - 1

  /** A 32-bit unsigned machine word (`uint32_t`, `uintptr_t`, `size_t` on the target). */
  type Word = x: int | 0 <= x < MODULUS

  /** Unsigned wrap-around. */
  function Wrap(x: int): Word {
    x % MODULUS
  }

  /** Two futex bitsets have a bit in common. */
  predicate Meets(a: bv32, b: bv32) {
    (a & b) != 0
  }

  const GUEST_MIN_ADDRESS: Word := 0x0001_0000
  const GUEST_MAX_ADDRESS: Word := 0x7000_0000

  /** One of 1, 2, 4, 8, ... */
  predicate PowerOfTwo(n: int)
    decreases n
  {
    n == 1 || (n > 1 && n % 2 == 0 && PowerOfTwo(n / 2))
  }

  /** Guest words by address; memory nobody has written reads 0. */
  function Load(memory: map<Word, Word>, address: Word): Word {
    if address in memory then memory[address] else 0
  }

  /** A page size `guest_memory_initialize` accepts: a positive power of two of a 32-bit `long`. */
  predicate PageSize(page: int) {
    PowerOfTwo(page) && page <= 0x4000_0000
  }

  /** What the host's `mmap` did with the requested placement. */
  datatype Placement = Failed | At(address: Word)

  /** `value & ~(alignment - 1)` for a power-of-two alignment. */
  function AlignDown(value: Word, alignment: int): (r: Word)
    requires alignment > 0
  {
    value - value % alignment
  }

  /** `(value + alignment - 1) & ~(alignment - 1)`; the addition wraps at 32 bits. */
  function AlignUp(value: Word, alignment: int): (r: Word)
    requires alignment > 0
  {
    AlignDown(Wrap(value + alignment - 1), alignment)
  }

  /** Without wrap-around `AlignUp` is the least multiple of the alignment that is not below the value. */
  lemma AlignUpIsLeastMultiple(value: Word, alignment: int)
    requires alignment > 0
    requires value + alignment - 1 < MODULUS
    ensures AlignUp(value, alignment) % alignment == 0
    ensures value <= AlignUp(value, alignment) < value + alignment
    ensures forall m: int :: m % alignment == 0 && value <= m ==> AlignUp(value, alignment) <= m
  {
    var r := AlignUp(value, alignment);
    var v := value + alignment - 1;
    assert Wrap(v) == v;
    MultipleBelow(v, alignment);
    forall m: int | m % alignment == 0 && value <= m
      ensures r <= m
    {
      if m < r {
        MultiplesApart(m, r, alignment);
      }
    }
  }

  lemma AlignUpBounds(value: Word, alignment: int)
    requires alignment > 0
    requires value + alignment - 1 < MODULUS
    ensures value <= AlignUp(value, alignment) < value + alignment
  {
    AlignUpIsLeastMultiple(value, alignment);
  }

  lemma AlignUpIsMultiple(value: Word, alignment: int)
    requires alignment > 0
    requires value + alignment - 1 < MODULUS
    ensures AlignUp(value, alignment) % alignment == 0
  {
    AlignUpIsLeastMultiple(value, alignment);
  }

  lemma MultipleBelow(v: int, a: int)
    requires a > 0
    ensures (v - v % a) % a == 0
  {
    var q := v / a;
    assert v - v % a == q * a;
    MulModZero(q, a);
  }

  lemma MulModZero(q: int, a: int)
    requires a > 0
    ensures (q * a) % a == 0
  {
    var k := (q * a) / a;
    var r := (q * a) % a;
    assert q * a == k * a + r;
    assert r == (q - k) * a;
    assert q - k >= 1 ==> (q - k) * a >= a;
    assert q - k <= -1 ==> (q - k) * a <= -a;
  }

  /** Two different multiples are at least one alignment apart. */
  lemma MultiplesApart(m: int, r: int, a: int)
    requires a > 0 && m % a == 0 && r % a == 0 && m < r
    ensures m + a <= r
  {
    var x, y := m / a, r / a;
    assert m == x * a && r == y * a;
    assert (y - x) * a == r - m;
    assert y - x <= 0 ==> (y - x) * a <= 0;
    assert y - x >= 1;
    assert (y - x) * a >= a;
  }

  /** Aligning up is monotone as long as neither sum wraps. */
  lemma AlignUpMonotone(u: Word, v: Word, alignment: int)
    requires alignment > 0 && u <= v
    requires v + alignment - 1 < MODULUS
    ensures AlignUp(u, alignment) <= AlignUp(v, alignment)
  {
    AlignUpIsLeastMultiple(u, alignment);
    AlignUpIsLeastMultiple(v, alignment);
  }

  /** A power of two not above a power-of-two-sized multiple divides it. */
  lemma {:induction false} PowerOfTwoDivides(n: int, m: int)
    requires PowerOfTwo(n) && PowerOfTwo(m) && n <= m
    ensures m % n == 0
    decreases n
  {
    if n > 1 {
      PowerOfTwoDivides(n / 2, m / 2);
      var q := (m / 2) / (n / 2);
      assert m / 2 == q * (n / 2);
      assert m == q * n;
      MulModZero(q, n);
    }
  }

  lemma MultipleIsFar(e: int, a: int)
    requires a > 0
    ensures (e >= 1 ==> e * a >= a) && (e <= -1 ==> e * a <= -a)
  {
  }

  /** Quotient and remainder are unique. */
  lemma DivisionIs(n: int, d: int, q: int, r: int)
    requires d > 0 && n == q * d + r && 0 <= r < d
    ensures n / d == q && n % d == r
  {
    var e := n / d - q;
    assert n == (n / d) * d + n % d;
    assert e * d == r - n % d;
    MultipleIsFar(e, d);
  }

  lemma ResidueOfSum(q: int, a: int, r: int)
    requires a > 0
    ensures (q * a + r) % a == r % a
  {
    var k := r / a;
    assert r == k * a + r % a;
    assert q * a + r == (q + k) * a + r % a;
    DivisionIs(q * a + r, a, q + k, r % a);
  }

  lemma TwicePower(n: int)
    requires PowerOfTwo(n)
    ensures PowerOfTwo(2 * n)
  {
    assert 2 * n / 2 == n;
  }

  lemma SixteenTimesPower(n: int)
    requires PowerOfTwo(n)
    ensures PowerOfTwo(16 * n)
  {
    hide PowerOfTwo;
    TwicePower(n);
    TwicePower(2 * n);
    TwicePower(4 * n);
    TwicePower(8 * n);
  }

  lemma ModulusIsPower()
    ensures PowerOfTwo(0x1000_0000) && PowerOfTwo(MODULUS)
  {
    assert PowerOfTwo(16);
    hide PowerOfTwo;
    SixteenTimesPower(16);
    SixteenTimesPower(0x100);
    SixteenTimesPower(0x1000);
    SixteenTimesPower(0x1_0000);
    SixteenTimesPower(0x10_0000);
    SixteenTimesPower(0x100_0000);
    SixteenTimesPower(0x1000_0000);
  }

  /** Wrapping around keeps the residue for every power of two. */
  lemma WrapKeepsResidue(x: int, align: Word)
    requires PowerOfTwo(align)
    ensures Wrap(x) % align == x % align
  {
    ModulusIsPower();
    PowerOfTwoDivides(align, MODULUS);
    hide PowerOfTwo;
    ResidueThrough(x, MODULUS, align);
  }

  lemma ResidueThrough(x: int, m: int, a: int)
    requires m > 0 && a > 0 && m % a == 0
    ensures x % m % a == x % a
  {
    var k, q := x / m, m / a;
    assert m == q * a;
    assert x == k * m + x % m;
    assert k * m == (k * q) * a;
    ResidueOfSum(k * q, a, x % m);
  }
}
