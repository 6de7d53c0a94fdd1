/**
 The capacity policy of libshims/VectorImpl.cpp and what it guarantees about
 space, time and machine arithmetic.
 */
module Policy {
  import opened Machine

  const MIN_CAPACITY: nat := 4

  function Max(a: nat, b: nat): nat {
    if a > b then a else b
  }

  /** The capacity `_grow` asks for when it must hold n items. */
  function GrownCapacity(n: nat): nat {
    Max(MIN_CAPACITY, n + n / 2 + 1)
  }

  /** The capacity `_shrink` asks for when n items remain. */
  function ShrunkCapacity(n: nat): nat {
    Max(MIN_CAPACITY, n * 2)
  }

  /** The allocator header and the payload must both fit the address space. */
  predicate TooBig(bytes: nat) {
    SIZE_MAX - HEADER_SIZE <= bytes
  }

  /** The request `_grow` makes is impossible on this machine. */
  predicate GrowthTooBig(n: nat, itemSize: nat) {
    TooBig(GrownCapacity(n) * itemSize)
  }

  lemma GrowthMonotone(m: nat, n: nat, itemSize: nat)
    requires m <= n && GrowthTooBig(m, itemSize)
    ensures GrowthTooBig(n, itemSize)
  {
    MulMonotone(GrownCapacity(m), GrownCapacity(n), itemSize);
  }

  /** If one of the guarded sums overflows, the request itself is too big. */
  lemma GrowthOverflow(count: nat, amount: nat, itemSize: nat)
    requires 1 <= itemSize
    ensures var n := count + amount;
      n + n / 2 + 1 > SIZE_MAX || GrownCapacity(n) * itemSize > SIZE_MAX ==> GrowthTooBig(n, itemSize)
  {
    MulMonotone(1, itemSize, GrownCapacity(count + amount));
  }

  /** The number of bytes `_shrink` asks for: the product is not guarded. */
  function ShrunkBytes(n: nat, itemSize: nat): nat {
    Wrap(ShrunkCapacity(n) * itemSize)
  }

  function ShrunkRoom(n: nat, itemSize: nat): nat
    requires 1 <= itemSize
  {
    Fit(ShrunkBytes(n, itemSize), itemSize)
  }

  /** The unguarded product is exact if and only if the old capacity was at least
      the minimum capacity or the minimum capacity itself does not overflow. In the
      remaining case nothing is left to store, so the block is big enough even then. */
  lemma ShrinkArithmetic(capacity: nat, n: nat, itemSize: nat)
    requires 1 <= itemSize && n < capacity / 2 && capacity * itemSize <= SIZE_MAX
    ensures ShrunkBytes(n, itemSize) == ShrunkCapacity(n) * itemSize <==>
            MIN_CAPACITY <= capacity || MIN_CAPACITY * itemSize <= SIZE_MAX
    ensures n <= ShrunkRoom(n, itemSize)
    ensures MIN_CAPACITY <= capacity ==>
              ShrunkCapacity(n) <= capacity && ShrunkRoom(n, itemSize) == ShrunkCapacity(n)
  {
    if MIN_CAPACITY <= capacity {
      MulMonotone(ShrunkCapacity(n), capacity, itemSize);
      FitOfProduct(ShrunkCapacity(n), itemSize);
    }
  }

  /** `_shrink` does not always reduce the capacity. */
  lemma ShrinkReduces(capacity: nat, n: nat)
    requires n < capacity / 2
    ensures ShrunkCapacity(n) <= capacity <==> MIN_CAPACITY <= capacity
    ensures ShrunkCapacity(n) < capacity <==> MIN_CAPACITY < capacity
  {
  }

  /** A vector of two large items from which all are removed: more room is asked for,
      and the unguarded product wraps around to nothing. */
  lemma ShrinkCanWrap()
    ensures var capacity, itemSize := 2, 0x4000_0000;
      && !TooBig(capacity * itemSize)
      && capacity < ShrunkCapacity(0) && ShrunkBytes(0, itemSize) == 0 != ShrunkCapacity(0) * itemSize
  {
  }

  /** The guard of removeItemsAt, in which the sum can wrap around. */
  predicate RemovalRefused(index: Size, count: Size, size: nat) {
    Wrap(index + count) > size
  }

  /** The guard tells whether the items exist exactly if the sum does not wrap around
      or what is left of it is still too large. */
  lemma RemovalGuard(index: Size, count: Size, size: Size)
    ensures (RemovalRefused(index, count, size) <==> index + count > size) <==>
            index + count <= SIZE_MAX || size < index + count - (SIZE_MAX + 1)
  {
  }

  /** What a wrong answer of the guard leads to, from any vector: either the
      subtraction in `_shrink` ends the process, or it goes through and the range
      that is about to be destroyed does not end inside the block, whatever its size. */
  lemma RemovalGuardOpens(index: Size, count: Size, size: Size, room: nat, itemSize: nat)
    requires size <= room && 1 <= itemSize && !TooBig(room * itemSize)
    requires !RemovalRefused(index, count, size) && index + count > size
    ensures SafeSub(size, count).Aborted? || (SafeSub(size, count).Returned? && room < index + count)
  {
    MulMonotone(1, itemSize, room);
  }

  /** The guard accepts the removal of the item behind the last possible one, from a
      vector that has one item: the subtraction goes through, and the address of the
      first item to destroy is outside any block. */
  lemma RemovalGuardFails(room: nat, itemSize: nat)
    requires 1 <= itemSize && !TooBig(room * itemSize)
    ensures !RemovalRefused(SIZE_MAX, 1, 1) && SafeSub(1, 1) == Returned(0) && room <= SIZE_MAX
    ensures room * itemSize < SIZE_MAX * itemSize
  {
    MulMonotone(1, itemSize, room);
    MulMonotone(1, itemSize, SIZE_MAX);
  }

  /** A vector never has more room than this for n items, unless setCapacity asks for it. */
  function Bound(n: nat): nat {
    Max(MIN_CAPACITY, 2 * n + 1)
  }

  lemma GrownWithinBound(n: nat)
    ensures n <= GrownCapacity(n) <= Bound(n)
  {
  }

  /** The grown capacity is the least one of at least four that exceeds three halves of
      the items. */
  lemma GrownIsLeast(n: nat, c: nat)
    ensures GrownCapacity(n) <= c <==> 4 <= c && 3 * n < 2 * c
  {
  }

  /** The capacity asked for when shrinking is the least one of at least four that is twice
      the items. */
  lemma ShrunkIsLeast(n: nat, c: nat)
    ensures ShrunkCapacity(n) <= c <==> 4 <= c && 2 * n <= c
  {
  }

  /** The room is at least four and exceeds three halves of the items, and one slot less
      would not do. */
  predicate Snug(room: nat, n: nat) {
    && 4 <= room && 3 * n < 2 * room
    && (room == 4 || 2 * (room - 1) <= 3 * n)
  }

  lemma GrownIsSnug(room: nat, n: nat)
    ensures Snug(room, n) <==> room == GrownCapacity(n)
  {
    GrownIsLeast(n, room);
    if 1 <= room {
      GrownIsLeast(n, room - 1);
    }
  }

  /** What growing from `room` does to the bounds of space. */
  lemma GrowthKeepsBounds(room: nat, count: nat, amount: nat)
    ensures var now := if room < count + amount then GrownCapacity(count + amount) else room;
      && (room <= Bound(count) ==> now <= Bound(count + amount))
      && (room < count + amount ==> Snug(now, count + amount))
  {
    GrownWithinBound(count + amount);
    GrownIsSnug(GrownCapacity(count + amount), count + amount);
  }

  /** A block that has been shrunk is half full: taking away one more item shrinks it again. */
  lemma ShrunkIsHalfFull(n: nat, itemSize: nat)
    requires 1 <= itemSize && 2 <= n && 2 * n * itemSize <= SIZE_MAX
    ensures ShrunkRoom(n, itemSize) == 2 * n && n - 1 < ShrunkRoom(n, itemSize) / 2
    ensures ShrunkBytes(n, itemSize) == 2 * n * itemSize
  {
    FitOfProduct(2 * n, itemSize);
  }

  lemma ShrunkWithinBound(n: nat, itemSize: nat)
    requires 1 <= itemSize
    ensures ShrunkRoom(n, itemSize) <= Bound(n)
  {
    FitMonotone(ShrunkBytes(n, itemSize), ShrunkCapacity(n) * itemSize, itemSize);
    FitOfProduct(ShrunkCapacity(n), itemSize);
  }
}
