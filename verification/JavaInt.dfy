/** Java's int and long arithmetic, as far as the programs depend on it. */
module JavaInt {
  const MIN_INT: int := -0x8000_0000
  const MAX_INT: int := 0x7fff_ffff
  const TWO_32: int := 0x1_0000_0000
  const TWO_64: int := 0x1_0000_0000_0000_0000

  /** The 32-bit value of a sum: wrap-around. */
  function Wrap(n: int): int {
    (n + 0x8000_0000) % TWO_32 - 0x8000_0000
  }

  /** What that is: the one int congruent to the number modulo 2^32. */
  lemma WrapIs(n: int, w: int)
    ensures w == Wrap(n) <==> MIN_INT <= w <= MAX_INT && (n - w) % TWO_32 == 0
  {}

  /** The 64-bit value of a sum. */
  function WrapLong(n: int): int {
    (n + 0x8000_0000_0000_0000) % TWO_64 - 0x8000_0000_0000_0000
  }

  lemma WrapLongIs(n: int, w: int)
    ensures w == WrapLong(n) <==> -0x8000_0000_0000_0000 <= w < 0x8000_0000_0000_0000 && (n - w) % TWO_64 == 0
  {}

  lemma WrapNext(n: int)
    ensures Wrap(Wrap(n) + 1) == Wrap(n + 1)
  {}

  lemma WrapAdd(n: int, d: int)
    ensures Wrap(Wrap(n) + d) == Wrap(n + d)
  {}

  lemma WrapEqual(a: int, b: int)
    ensures Wrap(a) == Wrap(b) <==> (a - b) % TWO_32 == 0
  {}

  /** Values closer than 2^32 are told apart. */
  lemma WrapNear(a: int, b: int)
    requires -TWO_32 < a - b < TWO_32
    ensures Wrap(a) == Wrap(b) <==> a == b
  {
    WrapEqual(a, b);
  }

  /** `Math.abs`: the smallest int has no positive counterpart and stays as it is. */
  function Abs(h: int): int {
    if h == MIN_INT then MIN_INT else if h < 0 then -h else h
  }

  /** `%`, whose sign is that of the dividend. */
  function Remainder(a: int, b: int): int
    requires b > 0
  {
    if a >= 0 then a % b else -((-a) % b)
  }

  /** The remainder after truncating division: a = q * b + r, smaller than b and of the dividend's sign. */
  lemma RemainderIs(a: int, b: int) returns (q: int)
    requires b > 0
    ensures a == q * b + Remainder(a, b) && -b < Remainder(a, b) < b
    ensures (a >= 0 ==> Remainder(a, b) >= 0) && (a <= 0 ==> Remainder(a, b) <= 0)
  {
    if a >= 0 {
      q := a / b;
    } else {
      q := -((-a) / b);
      assert -a == ((-a) / b) * b + (-a) % b;
    }
  }

  /** Division by two, which truncates toward zero. */
  function Half(n: int): int {
    if n >= 0 then n / 2 else -(-n / 2)
  }

  /** The one number whose double is the dividend or one nearer to zero than it. */
  lemma HalfIs(n: int, h: int)
    ensures h == Half(n) <==> if n >= 0 then n - 1 <= 2 * h <= n else n <= 2 * h <= n + 1
  {}
}
