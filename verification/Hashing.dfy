/** The bucket index both hash maps compute from a 32-bit hash code. */
module Hashing {
  import opened JavaInt

  function BucketIndex(h: int, capacity: int): int
    requires capacity > 0
  {
    Remainder(Abs(h), capacity)
  }

  /** Which bucket a hash code gets: its distance from 0, modulo the capacity; only for the smallest int, whose
      absolute value is itself, the result is negative. */
  lemma BucketOf(h: int, capacity: int)
    requires capacity > 0 && MIN_INT <= h <= MAX_INT
    ensures 0 <= h ==> BucketIndex(h, capacity) == h % capacity
    ensures MIN_INT < h < 0 ==> BucketIndex(h, capacity) == (-h) % capacity
    ensures h == MIN_INT ==> BucketIndex(h, capacity) == -(0x8000_0000 % capacity)
  {}

  /** The index is in range for every hash code exactly when the capacity divides 2^31; the maps'
      capacity 4 does, so the smallest int does no harm. */
  lemma IndexInRangeIff(capacity: int)
    requires capacity > 0
    ensures (forall h :: MIN_INT <= h <= MAX_INT ==> 0 <= BucketIndex(h, capacity) < capacity)
       <==> 0x8000_0000 % capacity == 0
  {
    assert BucketIndex(MIN_INT, capacity) == -(0x8000_0000 % capacity);
  }
}
