/**
 Appending one item at a time costs a constant number of copies per item; removing
 one at a time does not.
 */
module Appends {
  import opened Machine
  import opened Policy
  import opened SharedBuffers
  import opened Sequences
  import opened Vectors

  function RoomAfter(count: nat, room: nat): nat {
    if room < count + 1 then GrownCapacity(count + 1) else room
  }

  /** Old items that move to a new block when one item is appended. */
  function Copied(count: nat, room: nat): nat {
    if room < count + 1 then count else 0
  }

  /** The room of a vector with `count` items and room `room` after k appends. */
  function RoomOf(count: nat, room: nat, k: nat): nat {
    if k == 0 then room else RoomAfter(count + k - 1, RoomOf(count, room, k - 1))
  }

  function TotalCopied(count: nat, room: nat, k: nat): nat {
    if k == 0 then 0
    else TotalCopied(count, room, k - 1) + Copied(count + k - 1, RoomOf(count, room, k - 1))
  }

  /** Copies that have been paid for but not yet made. */
  function Potential(count: nat, room: nat): nat {
    Max(2 * room, 3 * count) - 2 * room
  }

  lemma OneAppend(count: nat, room: nat)
    requires count <= room
    ensures count + 1 <= RoomAfter(count, room)
    ensures Copied(count, room) + Potential(count + 1, RoomAfter(count, room)) <= 3 + Potential(count, room)
  {
  }

  /** k appends, from any state: at most three copies each, plus what is owed already. */
  lemma {:induction false} AppendsAreCheap(count: nat, room: nat, k: nat)
    requires count <= room
    ensures count + k <= RoomOf(count, room, k)
    ensures TotalCopied(count, room, k) + Potential(count + k, RoomOf(count, room, k)) <= 3 * k + Potential(count, room)
  {
    if k != 0 {
      AppendsAreCheap(count, room, k - 1);
      OneAppend(count + k - 1, RoomOf(count, room, k - 1));
    }
  }

  lemma FillingIsCheap(k: nat)
    ensures TotalCopied(0, 0, k) <= 3 * k
  {
    AppendsAreCheap(0, 0, k);
  }

  /** What appending one item copies, by the counter that every copy raises. */
  method AppendOne(h: Heap, v: VectorImpl, item: Item) returns (ok: bool)
    requires h.Valid() && v in h.vectors && !v.Shared()
    modifies v, v.mStorage, h`buffers, h.allocator
    ensures h.Valid() && h.Kept(v) && v.OwnBlock(h) && !v.Shared()
    ensures v.Contents() == if ok then old(v.Contents()) + [item] else old(v.Contents())
    ensures v.Room() == if ok then RoomAfter(|old(v.Contents())|, old(v.Room())) else old(v.Room())
    ensures v.copied == old(v.copied) +
                        if ok && !v.Trivial() then Copied(|old(v.Contents())|, old(v.Room())) else 0
  {
    h.Inspect(v);
    if v.mStorage != null {
      v.RoomBound();
    }
    assert [item][..1] == [item];
    hide GrownCapacity, GrowthTooBig, ToSsize;
    ghost var piece;
    var r;
    r, piece := v.Add(h, Some(Outside([item])));
    ok := r.Returned? && r.value != NO_MEMORY;
  }

  /** A client that fills an empty vector item by item, until memory runs out. The vector
      copies at most three items for each that is appended; trivial items are not copied
      one by one at all, because their block is resized. */
  method AppendAll(h: Heap, v: VectorImpl, items: seq<Item>) returns (n: nat)
    requires h.Valid() && v in h.vectors && v.mStorage == null
    modifies v, h`buffers, h.allocator
    ensures h.Valid() && h.Kept(v)
    ensures n <= |items| && v.Contents() == items[..n] && v.Room() == RoomOf(0, 0, n)
    ensures v.copied == old(v.copied) + if v.Trivial() then 0 else TotalCopied(0, 0, n)
    ensures v.copied <= old(v.copied) + 3 * n
  {
    hide Heap.Valid;
    n := 0;
    ghost var room, before := 0, v.copied;
    var ok := true;
    while n < |items| && ok
      invariant n <= |items| && h.Valid() && h.Kept(v) && v in h.vectors && !v.Shared()
      invariant v.mStorage == null || fresh(v.mStorage)
      invariant v.Contents() == items[..n] && v.Room() == room == RoomOf(0, 0, n)
      invariant v.copied == before + if v.Trivial() then 0 else TotalCopied(0, 0, n)
      decreases |items| - n, ok
    {
      ok := AppendOne(h, v, items[n]);
      if ok {
        assert items[..n + 1] == items[..n] + [items[n]];
        room := RoomAfter(n, room);
        n := n + 1;
      }
    }
    FillingIsCheap(n);
  }

  // ----- removing one item at a time

  /** What k removals from a half-full block of n items copy: all that remain, each time. */
  function RemovalCopies(n: nat, k: nat): nat
    requires k <= n
  {
    if k == 0 then 0 else RemovalCopies(n, k - 1) + (n - k)
  }

  lemma {:induction false} RemovalsAreQuadratic(n: nat, k: nat)
    requires k <= n
    ensures 2 * RemovalCopies(n, k) == k * (2 * n - k - 1)
  {
    if k != 0 {
      RemovalsAreQuadratic(n, k - 1);
      assert k * (2 * n - k - 1) == (k - 1) * (2 * n - k) + 2 * (n - k);
    }
  }

  /** The block of v is half full. */
  ghost predicate HalfFull(v: VectorImpl)
    reads v`mStorage, v.mStorage
  {
    v.mStorage != null && v.Room() == 2 * |v.Contents()| && 1 <= v.mItemSize
  }

  /** The first item is taken from a half-full block: the rest is copied into a new
      one, which is half full again. */
  method RemoveFirst(h: Heap, v: VectorImpl) returns (ok: bool)
    requires h.Valid() && v in h.vectors && !v.Shared() && HalfFull(v) && 3 <= |v.Contents()|
    modifies v, v.mStorage, h`buffers, h.allocator
    ensures h.Valid() && h.Kept(v) && v.OwnBlock(h)
    ensures HalfFull(v) && !v.Shared() && (ok ==> fresh(v.mStorage))
    ensures v.Contents() == if ok then old(v.Contents())[1..] else old(v.Contents())
    ensures v.copied == old(v.copied) + if ok then |old(v.Contents())| - 1 else 0
    ensures h.allocator.grants(old(h.allocator.requests)) ==> ok
  {
    hide Heap.Valid, Heap.ValidOpen, ShrunkRoom, ShrunkBytes, Removed;
    h.Inspect(v);
    var count := v.mCount;
    ghost var s := v.Contents();
    HalfIsExact(v);
    var r := v.RemoveItemsAt(h, 0, 1);
    h.allocator.RefusedIsDenied(old(h.allocator.requests));
    FirstRemoved(s);
    h.Inspect(v);
    ok := v.mCount < count;
  }

  /** A client that takes up to k items from the front of a half-full block: every removal
      makes a new block, and the number of copies is quadratic. */
  method RemoveAll(h: Heap, v: VectorImpl, k: nat) returns (j: nat)
    requires h.Valid() && v in h.vectors && !v.Shared() && HalfFull(v) && k + 2 <= |v.Contents()|
    modifies v, v.mStorage, h`buffers, h.allocator
    ensures h.Valid() && h.Kept(v) && h.Accounts()
    ensures j <= k && v.Contents() == old(v.Contents())[j..] && HalfFull(v)
    ensures 2 * (v.copied - old(v.copied)) == j * (2 * |old(v.Contents())| - j - 1)
    ensures (forall n :: h.allocator.grants(n)) ==> j == k
  {
    hide Heap.Valid, Heap.ValidOpen;
    j := 0;
    ghost var s, before := v.Contents(), v.copied;
    var ok := true;
    while j < k && ok
      invariant j <= k && h.Valid() && h.Kept(v) && h.Accounts() && v in h.vectors && !v.Shared()
      invariant v.mStorage == old(v.mStorage) || fresh(v.mStorage)
      invariant v.Contents() == s[j..] && HalfFull(v)
      invariant v.copied == before + RemovalCopies(|s|, j)
      invariant (forall n :: h.allocator.grants(n)) ==> ok
      decreases k - j, ok
    {
      ok := RemoveFirst(h, v);
      if ok {
        assert s[j..][1..] == s[j + 1..];
        j := j + 1;
      }
    }
    RemovalsAreQuadratic(|s|, j);
  }

  lemma FirstRemoved<T>(s: seq<T>)
    ensures s != [] ==> Removed(s, 0, 1) == s[1..]
  {
  }

  lemma HalfIsExact(v: VectorImpl)
    requires HalfFull(v) && v.Workable(v.mStorage) && 3 <= |v.Contents()|
    ensures var n := |v.Contents()| - 1;
      && ShrunkRoom(n, v.mItemSize) == 2 * n && n < v.Room() / 2
      && !TooBig(ShrunkBytes(n, v.mItemSize))
  {
    hide ShrunkRoom, ShrunkBytes;
    var n := |v.Contents()| - 1;
    v.RoomBound();
    MulMonotone(2 * n, v.Room(), v.mItemSize);
    assert 2 * n * v.mItemSize <= v.mStorage.mSize;
    ShrunkIsHalfFull(n, v.mItemSize);
  }
}
