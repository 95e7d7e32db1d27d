/** Strict rotation: k threads take turns, thread 0 first. What both printing programs refine. */
module Rotations {
  import opened JavaInt

  /** The programs fix k = 3 and count = 10; count is an int. */
  datatype Config = Config(k: nat, count: int)

  ghost predicate ValidConfig(c: Config) {
    1 <= c.k <= MAX_INT && MIN_INT <= c.count <= MAX_INT
  }

  /** The first m letters of ABCABC..., a letter being the number of its thread. */
  function Rotation(k: nat, m: nat): seq<nat>
    requires k >= 1
  {
    seq(m, i requires 0 <= i => i % k)
  }

  /** The abstract printer of `length` letters: append the next letter of the rotation until all are printed. */
  ghost predicate Prints(k: nat, length: nat, out: seq<nat>, out': seq<nat>)
    requires k >= 1
  {
    |out| < length && out' == out + [|out| % k]
  }

  // ----- counting turns

  lemma DivModStep(k: nat, v: nat)
    requires k >= 1
    ensures v % k == k - 1 ==> (v + 1) % k == 0 && (v + 1) / k == v / k + 1
    ensures v % k < k - 1 ==> (v + 1) % k == v % k + 1 && (v + 1) / k == v / k
  {
    var q, r := v / k, v % k;
    assert v == k * q + r;
    if r == k - 1 {
      assert v + 1 == k * (q + 1) + 0;
      DivModUnique(k, v + 1, q + 1, 0);
    } else {
      DivModUnique(k, v + 1, q, r + 1);
    }
  }

  lemma MulAtLeast(k: nat, d: nat)
    requires d >= 1
    ensures k * d >= k
  {}

  lemma DivModUnique(k: nat, v: nat, q: nat, r: nat)
    requires k >= 1 && r < k && v == k * q + r
    ensures v / k == q && v % k == r
  {
    var q', r' := v / k, v % k;
    assert k * q' + r' == k * q + r;
    assert k * (q' - q) == k * q' - k * q && k * (q - q') == k * q - k * q';
    if q < q' { MulAtLeast(k, q' - q); }
    if q' < q { MulAtLeast(k, q - q'); }
  }

  /** How many of the first v letters are f. */
  function Turns(k: nat, v: nat, f: nat): nat
    requires k >= 1
  {
    if v == 0 then 0 else Turns(k, v - 1, f) + if (v - 1) % k == f then 1 else 0
  }

  lemma {:induction false} TurnsFormula(k: nat, v: nat, f: nat)
    requires f < k
    ensures Turns(k, v, f) == v / k + if f < v % k then 1 else 0
  {
    if v == 0 { DivModUnique(k, 0, 0, 0); } else { TurnsFormula(k, v - 1, f); DivModStep(k, v - 1); }
  }

  lemma QuotientBelow(k: nat, count: nat, v: nat)
    requires k >= 1 && v < k * count
    ensures v / k < count
  {
    if v / k >= count { MulMonotone(k, count, v / k); }
  }

  lemma MulMonotone(k: nat, a: nat, b: nat)
    requires a <= b
    ensures k * a <= k * b
  {}

  /** With `goal` prints for each thread: before the end, the thread whose turn it is still has prints
      left; nobody ever has too few. */
  lemma TurnsLeft(k: nat, goal: nat, v: nat, f: nat)
    requires v <= k * goal && f < k
    ensures Turns(k, v, f) <= goal
    ensures v < k * goal && f == v % k ==> Turns(k, v, f) < goal
    ensures v == k * goal ==> Turns(k, v, f) == goal
  {
    TurnsFormula(k, v, f);
    if v == k * goal {
      DivModUnique(k, v, goal, 0);
    } else {
      QuotientBelow(k, goal, v);
    }
  }

  /** Short of the end, the last thread in the rotation has prints left. */
  lemma LastHasTurnsLeft(k: nat, goal: nat, v: nat)
    requires k >= 1 && v < k * goal
    ensures Turns(k, v, k - 1) < goal
  {
    TurnsFormula(k, v, k - 1);
    ModBound(v, k);
    QuotientBelow(k, goal, v);
  }

  lemma ModBound(v: nat, k: nat)
    requires k >= 1
    ensures 0 <= v % k < k
  {}
}
