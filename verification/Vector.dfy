/**
 The copy-on-write vector of libshims/VectorImpl.cpp and VectorImpl.h.

 `Heap` is a census of the vectors and their blocks. Its `Valid` is the ownership
 invariant, and `NoneLost` says that the allocator has handed out no other blocks;
 every public method below keeps both.
 */
module Vectors {
  import opened Machine
  import opened Policy
  import opened SharedBuffers
  import opened Sequences
  import opened StableSort

  /** HAS_TRIVIAL_CTOR, HAS_TRIVIAL_DTOR and HAS_TRIVIAL_COPY. */
  datatype Flags = Flags(trivialCtor: bool, trivialDtor: bool, trivialCopy: bool)

  /** A pointer to items: outside all vectors, or into a block. */
  datatype Source = Outside(items: seq<Item>) | Inside(buf: SharedBuffer, at: nat) {
    function Slots(num: nat): seq<Slot>
      requires Outside? ==> num <= |items|
      requires Inside? ==> !buf.freed && at + num <= |buf.slots|
      reads if Inside? then {buf} else {}
    {
      match this
      case Outside(items) => LiveSlots(items[..num])
      case Inside(buf, at) => buf.slots[at..at + num]
    }
  }

  /** The address of a vector's items, and null if it has no storage. */
  function ItemsOf(v: VectorImpl): Source
    reads v`mStorage
  {
    if v.mStorage == null then Outside([]) else Inside(v.mStorage, 0)
  }

  class Heap {
    const allocator: Allocator
    ghost var vectors: set<VectorImpl>
    ghost var buffers: set<SharedBuffer>

    constructor (grants: nat -> bool)
      ensures fresh(allocator) && allocator.grants == grants && allocator.requests == 0
      ensures vectors == {} && buffers == {} && Valid() && NoneLost() && allocator.temps == {}
    {
      allocator := new Allocator(grants);
      vectors := {};
      buffers := {};
    }

    /** A vector without storage is empty; one with storage is among the block's owners. */
    ghost predicate Linked(v: VectorImpl)
      reads this`buffers, v`mStorage, v`mCount, buffers
    {
      && 1 <= v.mItemSize
      && if v.mStorage == null then v.mCount == 0 else v.mStorage in buffers && v in v.mStorage.owners
    }

    /** The reference count is the number of vectors pointing at the block, they
        all have the same size, the block is freed exactly when nobody is left, and
        until then exactly its first mCount slots are live. As many items have been
        built in it and not destroyed, and none once it is freed, unless the items are
        trivial. */
    ghost predicate Balanced(b: SharedBuffer)
      reads this`vectors, b, vectors`mStorage, vectors`mCount
    {
      && b.mRefs == |b.owners|
      && (b.freed <==> b.owners == {})
      && (if b.freed then b.Spent() else b.Laid())
      && b.owners <= vectors
      && (forall v :: v in vectors && v in b.owners ==>
            v.mStorage == b && v.mCount == |b.items| && v.Suits(b))
    }

    ghost predicate Valid()
      reads this, vectors`mStorage, vectors`mCount, buffers
    {
      && (forall v :: v in vectors ==> Linked(v))
      && (forall b :: b in buffers ==> Balanced(b))
    }

    /** Valid, except that x has let go of its block and not yet got another. */
    ghost predicate ValidBut(x: VectorImpl)
      reads this, vectors`mStorage, vectors`mCount, buffers
    {
      && x in vectors && 1 <= x.mItemSize
      && (forall v :: v in vectors && v != x ==> Linked(v))
      && (forall b :: b in buffers ==> Balanced(b) && x !in b.owners)
    }

    /** Valid, except that x's block no longer counts x among its references. */
    ghost predicate Leaving(x: VectorImpl)
      reads this, vectors`mStorage, vectors`mCount, buffers
    {
      && x in vectors
      && (forall v :: v in vectors ==> Linked(v))
      && (forall b :: b in buffers && b != x.mStorage ==> Balanced(b))
      && x.mStorage != null
      && var b := x.mStorage;
      && b.mRefs + 1 == |b.owners|
      && (b.freed <==> b.mRefs == 0)
      && (if b.freed then b.Spent() else b.Laid())
      && b.owners <= vectors
      && (forall v :: v in vectors && v in b.owners ==>
            v.mStorage == b && v.mCount == |b.items| && v.Suits(b))
    }

    /** Valid, except that the slots of x's block, which x alone owns, are being worked on. */
    ghost predicate ValidOpen(x: VectorImpl)
      reads this, vectors`mStorage, vectors`mCount, buffers
    {
      && x in vectors
      && (forall v :: v in vectors ==> Linked(v))
      && (forall b :: b in buffers && b != x.mStorage ==> Balanced(b))
      && x.mStorage != null && x.mStorage.owners == {x} && x.mStorage.mRefs == 1
      && x.Workable(x.mStorage)
    }

    /** No vector but x sees any change, and no block comes back from the dead. */
    twostate predicate Kept(new x: VectorImpl)
      reads this, vectors`mStorage, vectors`mCount, buffers
    {
      && old(vectors) <= vectors <= old(vectors) + {x}
      && old(buffers) <= buffers
      && (forall v :: v in old(vectors) && v != x ==>
            && v.mStorage == old(v.mStorage) && v.mCount == old(v.mCount)
            && (v.mStorage != null && v.mStorage in buffers ==>
                  v.mStorage.items == old(v.mStorage.items) && v.mStorage.slots == old(v.mStorage.slots)))
      && (forall b :: b in old(buffers) && old(b.freed) ==> b.freed)
    }

    /** Every block that the allocator has handed out is in the census. */
    ghost predicate NoneLost()
      reads this`buffers, allocator`blocks
    {
      allocator.blocks == buffers
    }

    /** Blocks that are new in the census are new, no block has been lost, and all
        temporaries have been given back. */
    twostate predicate Accounts()
      reads this`buffers, allocator
    {
      && fresh(buffers - old(buffers))
      && (old(NoneLost()) ==> NoneLost())
      && allocator.temps == old(allocator.temps)
      && old(allocator.requests) <= allocator.requests
    }

    lemma Open(x: VectorImpl)
      requires Valid() && x in vectors && x.mStorage != null && x.mStorage.mRefs == 1
      ensures ValidOpen(x)
    {
      SingletonOwner(x.mStorage.owners, x);
    }

    /** There are `num` live items at this address. */
    ghost predicate Readable(src: Source, num: nat)
      reads this, buffers
    {
      match src
      case Outside(items) => num <= |items|
      case Inside(buf, at) => buf in buffers && !buf.freed && at + num <= |buf.items|
    }

    ghost function Read(src: Source, num: nat): seq<Item>
      requires Readable(src, num)
      reads this, buffers
    {
      match src
      case Outside(items) => items[..num]
      case Inside(buf, at) => buf.items[at..at + num]
    }

    lemma SlotsOfSource(src: Source, num: nat)
      requires Valid() && Readable(src, num)
      ensures src.Inside? ==> src.at + num <= |src.buf.slots|
      ensures src.Slots(num) == LiveSlots(Read(src, num))
    {
    }

    lemma Inspect(x: VectorImpl)
      requires Valid() && x in vectors
      ensures x.Fits() && x.mCount == |x.Contents()| <= x.Room()
      ensures x.mStorage != null ==>
                x.mStorage in buffers && 1 <= x.mStorage.mRefs && x.Workable(x.mStorage) && x.mStorage.Laid()
      ensures x.mStorage != null && x.mStorage.mRefs == 1 ==> ValidOpen(x)
    {
      if x.mStorage != null && x.mStorage.mRefs == 1 {
        Open(x);
      }
    }

    lemma OwnersAreVectors()
      requires Valid()
      ensures forall b :: b in buffers ==> b.owners <= vectors
    {
    }

    lemma TwoOwners(x: VectorImpl, y: VectorImpl)
      requires Valid() && x in vectors && y in vectors && x != y
      requires x.mStorage != null && x.mStorage == y.mStorage
      ensures x.Shared()
    {
      var b := x.mStorage;
      if b.mRefs == 1 {
        SingletonOwner(b.owners, x);
      }
    }

    /** Another vector that points at a block in use, or x alone does. */
    lemma KeeperOf(x: VectorImpl, b: SharedBuffer) returns (w: VectorImpl?)
      requires Valid() && x in vectors && b in buffers && !b.freed
      ensures w != null ==> w in vectors && w != x && w.mStorage == b
      ensures w == null ==> x.mStorage == b && !x.Shared()
    {
      w := null;
      assert Balanced(b);
      if x.mStorage == b {
        if x.Shared() {
          w := OtherOwner(x);
        }
      } else {
        var o :| o in b.owners;
        var v :| v in vectors && v == o;
        w := v;
      }
    }

    lemma InspectOpen(x: VectorImpl)
      requires ValidOpen(x)
      ensures x.mStorage != null && x.mStorage in buffers && x.Workable(x.mStorage) && !x.Shared()
    {
    }

    /** While x works on its own block, the blocks of others are in order. */
    lemma InspectOther(x: VectorImpl, w: VectorImpl)
      requires ValidOpen(x) && w in vectors && w != x && w.mStorage != null
      ensures w.mStorage != x.mStorage && w.mStorage in buffers && !w.mStorage.freed && w.mStorage.Laid()
    {
      assert Linked(w) && (w.mStorage != x.mStorage ==> Balanced(w.mStorage));
    }

    lemma OtherOwner(x: VectorImpl) returns (w: VectorImpl)
      requires Valid() && x in vectors && x.Shared()
      ensures w in vectors && w != x && w.mStorage == x.mStorage
    {
      var rest := x.mStorage.owners - {x};
      assert Linked(x) && |x.mStorage.owners| == |rest| + 1;
      var o :| o in rest;
      assert Balanced(x.mStorage) && o in vectors;
      w :| w in vectors && w == o;
    }

    /** When every vector has let go, no block that was ever handed out is left behind. */
    lemma NothingLeaks()
      requires Valid() && forall v :: v in vectors ==> v.mStorage == null
      ensures forall b :: b in buffers ==> b.freed && b.mRefs == 0
      ensures NoneLost() ==> forall b: SharedBuffer :: b in allocator.blocks ==> b.freed && b.mRefs == 0
    {
    }

    /** Over all blocks: as many items have been built and not yet destroyed as there are. */
    lemma LivesBalance()
      requires Valid()
      ensures Built(buffers) == Destroyed(buffers) + Living(buffers)
      ensures (forall v :: v in vectors ==> v.mStorage == null) ==> Built(buffers) == Destroyed(buffers)
    {
      BlocksBalance(buffers);
      if forall v :: v in vectors ==> v.mStorage == null {
        NothingLeaks();
        NobodyLives(buffers);
      }
    }

    lemma {:induction false} BlocksBalance(bs: set<SharedBuffer>)
      requires bs <= buffers && forall b :: b in bs ==> Balanced(b)
      ensures Built(bs) == Destroyed(bs) + Living(bs)
      decreases |bs|
    {
      if bs != {} {
        var b := Pick(bs);
        assert Balanced(b);
        BlocksBalance(bs - {b});
      }
    }

    lemma VectorAsSource(x: VectorImpl, v: VectorImpl)
      requires Valid() && x in vectors && v in vectors
      ensures v.mCount <= SIZE_MAX && |v.Contents()| == v.mCount
      ensures Readable(ItemsOf(v), v.mCount) && Read(ItemsOf(v), v.mCount) == v.Contents()
      ensures v != x && v.mStorage != null && v.mStorage == x.mStorage ==> x.Shared()
    {
      Inspect(v);
      if v.mStorage != null {
        v.RoomBound();
        if v != x && v.mStorage == x.mStorage {
          TwoOwners(x, v);
        }
      }
    }

    lemma Close(x: VectorImpl)
      requires ValidOpen(x) && x.mStorage.Laid() && |x.mStorage.items| == x.mCount
      ensures Valid()
    {
    }
  }

  // Lives of the items whose construction and destruction run code.

  ghost function Pick(bs: set<SharedBuffer>): (b: SharedBuffer)
    requires bs != {}
    ensures b in bs
  {
    var b :| b in bs;
    b
  }

  /** How many items have been built in these blocks. */
  ghost function Built(bs: set<SharedBuffer>): nat
    reads bs
    decreases |bs|
  {
    if bs == {} then 0
    else
      var b := Pick(bs);
      Built(bs - {b}) + if b.trivial then 0 else b.built
  }

  /** How many have been destroyed there. */
  ghost function Destroyed(bs: set<SharedBuffer>): nat
    reads bs
    decreases |bs|
  {
    if bs == {} then 0
    else
      var b := Pick(bs);
      Destroyed(bs - {b}) + if b.trivial then 0 else b.destroyed
  }

  /** How many items the blocks that are in use hold. */
  ghost function Living(bs: set<SharedBuffer>): nat
    reads bs
    decreases |bs|
  {
    if bs == {} then 0
    else
      var b := Pick(bs);
      Living(bs - {b}) + if b.trivial || b.freed then 0 else |b.items|
  }

  lemma {:induction false} NobodyLives(bs: set<SharedBuffer>)
    requires forall b :: b in bs ==> b.freed
    ensures Living(bs) == 0
    decreases |bs|
  {
    if bs != {} {
      NobodyLives(bs - {Pick(bs)});
    }
  }

  lemma SingletonOwner(owners: set<object>, x: object)
    requires x in owners && |owners| == 1
    ensures owners == {x}
  {
    var rest := owners - {x};
    assert |rest| == 0;
  }

  function GapSlot(was: seq<Item>, where: nat, amount: nat, i: nat): Slot
    requires where <= |was|
  {
    if i < where then Live(was[i])
    else if i < where + amount then Dead
    else if i < |was| + amount then Live(was[i - amount])
    else Dead
  }

  function FilledSlot(was: seq<Item>, where: nat, piece: seq<Item>, i: nat): Slot
    requires where <= |was|
  {
    if where <= i < where + |piece| then Live(piece[i - where]) else GapSlot(was, where, |piece|, i)
  }

  /** What is at i when `back` starts at position `at` and the rest is dead. */
  function SlotFrom(back: seq<Slot>, at: nat, i: nat): Slot {
    if at <= i < at + |back| then back[i - at] else Dead
  }

  function MovedSlot(slots: seq<Slot>, to: nat, from: nat, num: nat, i: nat): Slot
    requires from + num <= |slots| && i < |slots|
  {
    if to <= i < to + num then slots[i - to + from]
    else if from <= i < from + num then Dead
    else slots[i]
  }

  /** What is at k when the slots from `next` up to i have moved up by one. */
  function RaisedSlot(slots: seq<Slot>, next: nat, i: nat, k: nat): Slot
    requires k < |slots|
  {
    if next < k <= i then slots[k - 1] else slots[k]
  }

  /** The slots from `next` up to i have moved up by one. */
  ghost predicate Raised(was: seq<Slot>, now: seq<Slot>, next: nat, i: nat) {
    |now| == |was| && forall k :: 0 <= k < |was| ==> now[k] == RaisedSlot(was, next, i, k)
  }

  lemma RaiseOne(was: seq<Slot>, now: seq<Slot>, next: nat, i: nat)
    requires Raised(was, now, next, i) && 1 <= next <= i < |was|
    ensures now[next - 1] == was[next - 1] && now[next] == was[next]
    ensures Raised(was, now[next := now[next - 1]], next - 1, i)
  {
    assert now[next - 1] == RaisedSlot(was, next, i, next - 1);
    assert now[next] == RaisedSlot(was, next, i, next);
  }

  /** The temporary that sort gets from malloc: one slot. */
  class Scratch {
    var slot: Slot
    ghost var freed: bool

    constructor (ghost a: Allocator)
      modifies a`temps
      ensures slot == Dead && !freed && a.temps == old(a.temps) + {this}
    {
      slot := Dead;
      freed := false;
      new;
      a.temps := a.temps + {this};
    }

    method Copy(item: Slot)
      requires !freed && slot.Dead? && item.Live?
      modifies this`slot
      ensures slot == item
    {
      slot := item;
    }

    method Destroy()
      requires !freed && slot.Live?
      modifies this`slot
      ensures slot == Dead
    {
      slot := Dead;
    }

    method Free(ghost a: Allocator)
      requires !freed && slot.Dead? && this in a.temps
      modifies this`freed, a`temps
      ensures freed && a.temps == old(a.temps) - {this}
    {
      freed := true;
      a.temps := a.temps - {this};
    }
  }

  class VectorImpl {
    var mStorage: SharedBuffer?
    var mCount: nat
    const mFlags: Flags
    const mItemSize: nat
    /** What do_construct builds. */
    const blank: Item
    /** How many items this vector has copied with _do_copy. */
    ghost var copied: nat

    /** Items that may be copied as bytes and dropped without any code being run. */
    ghost predicate Trivial() {
      mFlags.trivialCopy && mFlags.trivialDtor
    }

    /** The block was made for the items of this vector. */
    ghost predicate Suits(sb: SharedBuffer) {
      sb.itemSize == mItemSize && sb.trivial == Trivial()
    }

    /** The hooks can be let loose on this block. */
    ghost predicate Workable(sb: SharedBuffer)
      reads sb`freed, sb`slots, sb`mSize
    {
      Suits(sb) && !sb.freed && sb.Sized()
    }

    /** The sequence of items a user of the vector sees. */
    ghost function Contents(): seq<Item>
      reads this`mStorage, mStorage
    {
      if mStorage == null then [] else mStorage.items
    }

    ghost function Room(): nat
      reads this`mStorage, mStorage
    {
      if mStorage == null then 0 else |mStorage.slots|
    }

    ghost predicate Compact()
      reads this`mStorage, mStorage
    {
      Room() <= Bound(|Contents()|)
    }

    ghost predicate Shared()
      reads this`mStorage, mStorage
    {
      mStorage != null && mStorage.mRefs != 1
    }

    /** `num` items at this address outlive an insertion of `amount` items at `index`:
        they are not in this vector's block, or others keep that block alive, or the
        block stays and they lie in front of the gap. */
    ghost predicate Survives(src: Source, num: nat, index: nat, amount: nat)
      reads this`mStorage, this`mCount, mStorage
    {
      src.Inside? && src.buf == mStorage ==> Shared() || (mCount + amount <= Room() && src.at + num <= index)
    }

    /** A block this vector shared at the start is as it was, for its other owners. */
    twostate predicate LeftIntact()
      reads *
    {
      old(Shared()) ==>
        && old(mStorage).slots == old(mStorage.slots) && old(mStorage).items == old(mStorage.items)
        && old(mStorage).itemSize == old(mStorage.itemSize) && !old(mStorage).freed
        && (mStorage == old(mStorage) ==> Shared())
    }

    /** This vector has its old block or a new one, never somebody else's. */
    twostate predicate OwnBlock(h: Heap)
      reads this`mStorage, h`buffers, h.allocator
    {
      && (mStorage == null || mStorage == old(mStorage) || fresh(mStorage))
      && h.Accounts()
    }

    /** Room for `amount` items has been opened at `where` among the items `was`. */
    ghost predicate Gapped(was: seq<Item>, where: nat, amount: nat)
      reads this`mStorage, mStorage
    {
      && mStorage != null && where <= |was| && |was| + amount <= |mStorage.slots|
      && mStorage.Counted(|was|)
      && forall i :: 0 <= i < |mStorage.slots| ==> mStorage.slots[i] == GapSlot(was, where, amount, i)
    }

    constructor (h: Heap, itemSize: nat, flags: Flags, blank: Item)
      requires h.Valid() && 1 <= itemSize
      modifies h`vectors
      ensures h.Valid() && h.vectors == old(h.vectors) + {this} && h.Kept(this)
      ensures mItemSize == itemSize && mFlags == flags && this.blank == blank
      ensures mStorage == null && mCount == 0 && Contents() == []
    {
      mStorage := null;
      mCount := 0;
      mFlags := flags;
      mItemSize := itemSize;
      this.blank := blank;
      copied := 0;
      new;
      h.vectors := h.vectors + {this};
    }

    /** The copy constructor: the new vector shares the block of rhs. */
    constructor Copy(h: Heap, rhs: VectorImpl)
      requires h.Valid() && rhs in h.vectors
      modifies h`vectors, rhs.mStorage
      ensures h.Valid() && h.vectors == old(h.vectors) + {this} && h.Kept(this)
      ensures mItemSize == rhs.mItemSize && mFlags == rhs.mFlags && blank == rhs.blank
      ensures mStorage == rhs.mStorage && mCount == rhs.mCount
      ensures Contents() == old(rhs.Contents())
    {
      hide Heap.Valid, Heap.ValidBut, Heap.ValidOpen;
      h.Inspect(rhs);
      h.OwnersAreVectors();
      mStorage := rhs.mStorage;
      mCount := rhs.mCount;
      mFlags := rhs.mFlags;
      mItemSize := rhs.mItemSize;
      blank := rhs.blank;
      copied := 0;
      new;
      Enroll(h);
      Hold(h);
    }

    /** acquire() by a vector whose fields have been set, if it has storage. */
    method Hold(h: Heap)
      requires h.ValidBut(this)
      requires mStorage == null ==> mCount == 0
      requires mStorage != null ==>
                 mStorage in h.buffers && !mStorage.freed && mCount == |mStorage.items| && Suits(mStorage)
      modifies mStorage
      ensures h.Valid()
      ensures mStorage != null ==> mStorage.items == old(mStorage.items) && mStorage.slots == old(mStorage.slots)
    {
      if mStorage != null {
        JoinOwners(h);
      }
    }

    ghost method Enroll(h: Heap)
      requires h.Valid() && 1 <= mItemSize && this !in h.vectors
      requires forall b :: b in h.buffers ==> this !in b.owners
      modifies h`vectors
      ensures h.ValidBut(this) && h.vectors == old(h.vectors) + {this}
    {
      h.vectors := h.vectors + {this};
    }

    /** acquire() on the block this vector has just been pointed at. */
    method JoinOwners(h: Heap)
      requires h.ValidBut(this)
      requires mStorage != null && mStorage in h.buffers && !mStorage.freed
      requires mCount == |mStorage.items| && Suits(mStorage)
      modifies mStorage`mRefs, mStorage`owners
      ensures h.Valid()
      ensures mStorage.owners == old(mStorage.owners) + {this}
    {
      hide Heap.ValidOpen, VectorImpl.Suits, SharedBuffer.Counted;
      mStorage.Acquire();
      mStorage.owners := mStorage.owners + {this};
    }

    ghost method LeaveOwners(h: Heap)
      requires h.Leaving(this)
      modifies mStorage`owners
      ensures h.ValidBut(this)
      ensures mStorage.owners == old(mStorage.owners) - {this}
    {
      ghost var rest := mStorage.owners - {this};
      assert this in mStorage.owners && |rest| == mStorage.mRefs;
      assert rest == {} <==> |rest| == 0;
      mStorage.owners := rest;
    }

    /** Point this vector at a new block that nobody else knows. */
    method Adopt(h: Heap, sb: SharedBuffer)
      requires h.ValidBut(this) && sb !in h.buffers
      requires sb.mRefs == 1 && Workable(sb)
      modifies this`mStorage, h`buffers, sb`owners
      ensures h.ValidOpen(this) && mStorage == sb
      ensures h.buffers == old(h.buffers) + {sb}
    {
      mStorage := sb;
      h.buffers := h.buffers + {sb};
      sb.owners := {this};
    }

    /** The block fits the item size of this vector, as it does in every valid heap. */
    ghost predicate Fits()
      reads this`mStorage, mStorage
    {
      1 <= mItemSize && (mStorage != null ==> mStorage.Sized() && mStorage.itemSize == mItemSize)
    }

    method Capacity() returns (n: nat)
      requires Fits()
      ensures n == Room()
    {
      if mStorage != null {
        FitIsQuotient(mStorage.mSize, mItemSize);
        return mStorage.mSize / mItemSize;
      }
      return 0;
    }

    /** itemLocation: whether there is an address for item `index`. That address lies
        inside the block, and computing it does not overflow. */
    method ItemLocation(index: nat) returns (found: bool)
      requires Fits()
      ensures found <==> index < Room()
      ensures found ==> (index + 1) * mItemSize <= mStorage.mSize <= SIZE_MAX
    {
      var cap := Capacity();
      if index < cap {
        RoomBound();
        MulMonotone(index + 1, Room(), mItemSize);
        assert (index + 1) * mItemSize <= Room() * mItemSize <= mStorage.mSize;
      }
      return index < cap && mStorage != null;
    }

    /** The byte offset of slot i, as the machine computes it: the product is exact and
        the address is not behind the end of the block. */
    method Offset(sb: SharedBuffer, i: nat) returns (bytes: nat)
      requires Workable(sb) && i <= |sb.slots|
      ensures bytes == i * mItemSize <= sb.mSize <= SIZE_MAX
    {
      FitBounds(sb.mSize, sb.itemSize);
      MulMonotone(i, |sb.slots|, mItemSize);
      return Wrap(i * mItemSize);
    }

    /** The items at slot `at` and behind it, where `_do_copy` finds them. */
    method Load(sb: SharedBuffer, at: nat, num: nat) returns (from: seq<Slot>)
      requires Workable(sb) && LiveRange(sb.slots, at, at + num)
      ensures from == sb.slots[at..at + num]
    {
      var start := Offset(sb, at);
      var end := Offset(sb, at + num);
      return sb.slots[at..at + num];
    }

    /** The item at slot `at`, where a comparison finds it. */
    method Peek(sb: SharedBuffer, at: nat) returns (item: Slot)
      requires Workable(sb) && at < |sb.slots| && sb.slots[at].Live?
      ensures item == sb.slots[at]
    {
      var from := Load(sb, at, 1);
      return from[0];
    }

    // The hooks of the element type, each on a range of slots of one block.

    method DoDestroy(sb: SharedBuffer, at: nat, num: nat)
      requires Workable(sb) && LiveRange(sb.slots, at, at + num)
      modifies sb`slots, sb`destroyed
      ensures sb.slots == Overwritten(old(sb.slots), at, DeadSlots(num))
      ensures sb.destroyed == old(sb.destroyed) + num
    {
      var start := Offset(sb, at);
      var end := Offset(sb, at + num);
      sb.slots := Overwritten(sb.slots, at, DeadSlots(num));
      sb.destroyed := sb.destroyed + num;
    }

    method DoCopy(sb: SharedBuffer, at: nat, from: seq<Slot>)
      requires Workable(sb) && DeadRange(sb.slots, at, at + |from|) && LiveRange(from, 0, |from|)
      modifies sb`slots, sb`built, this`copied
      ensures sb.slots == Overwritten(old(sb.slots), at, from)
      ensures sb.built == old(sb.built) + |from| && copied == old(copied) + |from|
    {
      var start := Offset(sb, at);
      var end := Offset(sb, at + |from|);
      sb.slots := Overwritten(sb.slots, at, from);
      sb.built := sb.built + |from|;
      copied := copied + |from|;
    }

    method DoSplat(sb: SharedBuffer, at: nat, item: Item, num: nat)
      requires Workable(sb) && DeadRange(sb.slots, at, at + num)
      modifies sb`slots, sb`built
      ensures sb.slots == Overwritten(old(sb.slots), at, LiveSlots(Repeat(item, num)))
      ensures sb.built == old(sb.built) + num
    {
      var start := Offset(sb, at);
      var end := Offset(sb, at + num);
      sb.slots := Overwritten(sb.slots, at, LiveSlots(Repeat(item, num)));
      sb.built := sb.built + num;
    }

    /** do_construct, or for a type with a trivial constructor nothing: then the items
        are whatever the memory held. */
    method DoConstruct(sb: SharedBuffer, at: nat, num: nat) returns (ghost made: seq<Item>)
      requires Workable(sb) && DeadRange(sb.slots, at, at + num)
      modifies sb`slots, sb`built
      ensures |made| == num && sb.slots == Overwritten(old(sb.slots), at, LiveSlots(made))
      ensures sb.built == old(sb.built) + num
      ensures !mFlags.trivialCtor ==> made == Repeat(blank, num)
    {
      var start := Offset(sb, at);
      var end := Offset(sb, at + num);
      var item := blank;
      if mFlags.trivialCtor {
        item := *;
      }
      made := Repeat(item, num);
      sb.slots := Overwritten(sb.slots, at, LiveSlots(Repeat(item, num)));
      sb.built := sb.built + num;
    }

    /** The reference goes, and with the last one the items and the block. */
    method DropStorage(h: Heap)
      requires h.Valid() && this in h.vectors && mStorage != null
      modifies mStorage
      ensures h.Leaving(this) && h.Kept(this)
      ensures mStorage.owners == old(mStorage.owners) && mStorage.mRefs == old(mStorage.mRefs) - 1
      ensures mStorage.items == old(mStorage.items)
      ensures mStorage.freed <==> !old(Shared())
      ensures if old(Shared()) then mStorage.slots == old(mStorage.slots) else mStorage.AllDead() && mStorage.Counted(0)
    {
      h.Inspect(this);
      var sb := mStorage;
      var prev := sb.Release(true);
      if prev == 1 {
        DoDestroy(sb, 0, mCount);
        var _ := sb.Dealloc();
      }
    }

    /** release_storage: this vector lets go of its block; the last one out destroys
        the items and gives the storage back. */
    method ReleaseStorage(h: Heap)
      requires h.Valid() && this in h.vectors
      modifies mStorage
      ensures h.ValidBut(this) && h.Kept(this)
      ensures mStorage != null ==>
                && mStorage.owners == old(mStorage.owners) - {this} && mStorage.mRefs == old(mStorage.mRefs) - 1
                && mStorage.items == old(mStorage.items)
                && (mStorage.freed <==> !old(Shared()))
                && (if old(Shared()) then mStorage.slots == old(mStorage.slots)
                    else mStorage.AllDead() && mStorage.Counted(0))
    {
      hide Heap.Leaving, Heap.ValidOpen;
      if mStorage != null {
        DropStorage(h);
        LeaveOwners(h);
      }
    }

    /** release_storage followed by the assignment of a new block to mStorage. */
    method SwitchTo(h: Heap, sb: SharedBuffer)
      requires h.Valid() && this in h.vectors && sb !in h.buffers
      requires sb.mRefs == 1 && Workable(sb)
      modifies this`mStorage, mStorage, h`buffers, sb`owners
      ensures h.ValidOpen(this) && h.Kept(this) && mStorage == sb
      ensures h.buffers == old(h.buffers) + {sb}
      ensures LeftIntact()
    {
      ReleaseStorage(h);
      Adopt(h, sb);
    }

    /** How many items `editArrayImpl` copies. */
    ghost function CopiesToEdit(): nat
      reads this`mStorage, this`mCount, mStorage
    {
      if Shared() then mCount else 0
    }

    /** How many items `_grow` copies on its way, if it gets there. */
    ghost function CopiesToGrow(where: nat, amount: nat): nat
      reads this`mStorage, this`mCount, mStorage
    {
      if Room() < mCount + amount then if mStorage != null && mCount == where && Trivial() then 0 else mCount
      else CopiesToEdit()
    }

    /** A block that was allocated for this vector and that nobody points at yet. */
    ghost predicate Spare(h: Heap, sb: SharedBuffer)
      reads h`buffers, this`mStorage, sb`mRefs, sb`freed, sb`slots, sb`mSize
    {
      sb !in h.buffers && sb != mStorage && sb.mRefs == 1 && Workable(sb)
    }

    /** All items are copied into a new block. */
    method CopyAll(h: Heap, sb: SharedBuffer)
      requires h.Valid() && this in h.vectors && mStorage != null
      requires Spare(h, sb) && sb.AllDead() && sb.Counted(0) && mCount <= |sb.slots|
      modifies sb`slots, sb`built, this`copied
      ensures h.Valid() && Spare(h, sb) && |sb.slots| == old(|sb.slots|) && sb.Counted(mCount)
      ensures forall i :: 0 <= i < |sb.slots| ==> sb.slots[i] == if i < mCount then Live(Contents()[i]) else Dead
      ensures copied == old(copied) + mCount
    {
      h.Inspect(this);
      var from := Load(mStorage, 0, mCount);
      DoCopy(sb, 0, from);
    }

    /** A block that holds copies of the items, which others share. */
    method CopyStorage(h: Heap) returns (sb: SharedBuffer?)
      requires h.Valid() && this in h.vectors && mStorage != null && Shared()
      modifies this`copied, h.allocator`requests, h.allocator`blocks
      ensures h.Valid() && h.Kept(this)
      ensures h.allocator.blocks == old(h.allocator.blocks) + One(sb)
      ensures sb == null <==> !h.allocator.grants(old(h.allocator.requests))
      ensures h.allocator.requests == old(h.allocator.requests) + 1
      ensures sb != null ==>
                && fresh(sb) && sb.mRefs == 1 && Workable(sb)
                && sb.items == Contents() && |sb.slots| == Room() && sb.Laid() && Suits(sb)
      ensures copied == old(copied) + if sb != null then mCount else 0
    {
      hide Heap.Valid, Heap.ValidOpen, Fit;
      h.Inspect(this);
      var answer := SharedBuffer.Alloc(h.allocator, mStorage.mSize, mItemSize, Trivial());
      sb := answer.value;
      if sb != null {
        CopyAll(h, sb);
        sb.items := mStorage.items;
      }
    }

    /** The branch of editArrayImpl that copies a shared block. */
    method Unshare(h: Heap) returns (r: Outcome<()>)
      requires h.Valid() && this in h.vectors && mStorage != null && Shared()
      modifies this`mStorage, this`copied, mStorage, h`buffers, h.allocator
      ensures h.Valid() && h.Kept(this) && OwnBlock(h)
      ensures r.Aborted? <==> !h.allocator.grants(old(h.allocator.requests))
      ensures h.allocator.requests == old(h.allocator.requests) + 1
      ensures Contents() == old(Contents()) && Room() == old(Room())
      ensures r.Returned? ==> fresh(mStorage) && !Shared()
      ensures LeftIntact()
      ensures r.Aborted? ==> mStorage == old(mStorage) && unchanged(mStorage)
      ensures copied == old(copied) + if r.Returned? then mCount else 0
    {
      hide Heap.Valid, Heap.ValidOpen, VectorImpl.Workable;
      h.Inspect(this);
      var editable := CopyStorage(h);
      if editable == null {
        return Aborted;
      }
      SwitchTo(h, editable);
      h.Close(this);
      return Returned(());
    }

    /** editArrayImpl: afterwards this vector has its block to itself. */
    method EditArrayImpl(h: Heap) returns (r: Outcome<bool>)
      requires h.Valid() && this in h.vectors
      modifies this`mStorage, this`copied, mStorage, h`buffers, h.allocator
      ensures h.Valid() && h.Kept(this) && OwnBlock(h)
      ensures r.Aborted? <==> old(Shared()) && !h.allocator.grants(old(h.allocator.requests))
      ensures h.allocator.requests == old(h.allocator.requests) + if old(Shared()) then 1 else 0
      ensures Contents() == old(Contents()) && Room() == old(Room())
      ensures r.Returned? ==> r.value == (mStorage != null) && !Shared()
      ensures r.Returned? && old(Shared()) ==> fresh(mStorage)
      ensures LeftIntact()
      ensures r.Aborted? || !old(Shared()) ==> mStorage == old(mStorage) && (mStorage != null ==> unchanged(mStorage))
      ensures copied == old(copied) + if r.Returned? && old(Shared()) then mCount else 0
    {
      if mStorage != null {
        var mine := mStorage.AttemptEdit();
        if !mine {
          var _ :- Unshare(h);
        }
      }
      return Returned(mStorage != null);
    }

    lemma RoomBound()
      requires mStorage != null && mStorage.Sized()
      ensures Room() <= SIZE_MAX && Room() * mStorage.itemSize <= mStorage.mSize
    {
      FitBounds(mStorage.mSize, mStorage.itemSize);
      MulMonotone(1, mStorage.itemSize, Room());
    }

    /** do_move_forward and do_move_backward: the items of a possibly overlapping
        range are moved; slots they have left are dead. A move neither begins nor ends
        the life of an item. */
    method DoMove(sb: SharedBuffer, to: nat, from: nat, num: nat)
      requires Workable(sb) && LiveRange(sb.slots, from, from + num) && to + num <= |sb.slots|
      requires forall i :: to <= i < to + num && !(from <= i < from + num) ==> sb.slots[i].Dead?
      modifies sb`slots
      ensures |sb.slots| == old(|sb.slots|)
      ensures forall i :: 0 <= i < |sb.slots| ==>
                sb.slots[i] == MovedSlot(old(sb.slots), to, from, num, i)
    {
      var moved := Load(sb, from, num);
      var start := Offset(sb, to);
      var end := Offset(sb, to + num);
      sb.slots := Overwritten(sb.slots, from, DeadSlots(num));
      sb.slots := Overwritten(sb.slots, to, moved);
    }

    /** Take the new block that editResize returned. */
    method MoveIn(h: Heap, sb: SharedBuffer)
      requires h.Leaving(this) && sb !in h.buffers && sb != mStorage
      requires sb.mRefs == 1 && Workable(sb)
      modifies this`mStorage, mStorage`owners, h`buffers, sb`owners, sb`items
      ensures h.ValidOpen(this) && h.Kept(this) && mStorage == sb && sb.items == old(mStorage.items)
      ensures h.buffers == old(h.buffers) + {sb}
    {
      LeaveOwners(h);
      sb.items := mStorage.items;
      Adopt(h, sb);
    }

    /** editResize on the block of this vector: a block that is not its own is left. */
    method EditStorage(h: Heap, newSize: nat) returns (r: Outcome<SharedBuffer?>)
      requires h.Valid() && this in h.vectors && mStorage != null && Trivial()
      modifies mStorage, h.allocator`requests, h.allocator`blocks
      ensures h.Kept(this)
      ensures h.allocator.blocks ==
              old(h.allocator.blocks) + if r.Aborted? || r.value == mStorage then {} else One(r.value)
      ensures h.allocator.requests == old(h.allocator.requests + mStorage.ResizeAsks(h.allocator, newSize))
      ensures r.Aborted? <==> TooBig(newSize)
      ensures r == Returned(null) <==> h.allocator.Refused(old(h.allocator.requests))
      ensures mStorage.items == old(mStorage.items)
      ensures r.Aborted? || r.value == null ==> h.Valid() && unchanged(mStorage)
      ensures r == Returned(mStorage) ==>
                && old(!Shared()) && h.ValidOpen(this)
                && mStorage.slots == Resized(old(mStorage.slots), Fit(newSize, mItemSize))
      ensures r.Returned? && r.value != null && r.value != mStorage ==>
                && h.Leaving(this) && fresh(r.value) && r.value.mRefs == 1 && Workable(r.value)
                && r.value.slots == Resized(old(mStorage.slots), Fit(newSize, mItemSize))
                && mStorage.slots == old(mStorage.slots) && mStorage.itemSize == old(mStorage.itemSize)
                && (old(Shared()) ==> !mStorage.freed)
    {
      hide SharedBuffer.Sized;
      h.Inspect(this);
      r := mStorage.EditResize(h.allocator, newSize);
    }

    /** editResize, which copies and drops items as bytes, and the block it answers. */
    method ResizeBlock(h: Heap, newSize: nat) returns (r: Outcome<bool>)
      requires h.Valid() && this in h.vectors && mStorage != null && Trivial()
      modifies this`mStorage, mStorage, h`buffers, h.allocator
      ensures h.Kept(this) && LeftIntact() && OwnBlock(h)
      ensures h.allocator.requests == old(h.allocator.requests + mStorage.ResizeAsks(h.allocator, newSize))
      ensures r.Aborted? <==> TooBig(newSize)
      ensures r == Returned(false) <==> h.allocator.Refused(old(h.allocator.requests))
      ensures r != Returned(true) ==> h.Valid() && mStorage == old(mStorage) && unchanged(mStorage)
      ensures r == Returned(true) ==>
                && h.ValidOpen(this) && mStorage.items == old(mStorage.items)
                && mStorage.slots == Resized(old(mStorage.slots), Fit(newSize, mItemSize))
    {
      hide Heap.Valid, Heap.ValidOpen, Heap.Leaving, VectorImpl.Workable, Resized, Fit;
      h.Inspect(this);
      var cur := mStorage;
      var sb :- EditStorage(h, newSize);
      if sb == null {
        return Returned(false);
      }
      if sb != cur {
        MoveIn(h, sb);
      }
      return Returned(true);
    }

    /** Copy `front` to the start of a new block and `back` to position `at`. */
    method CopyAround(sb: SharedBuffer, front: seq<Slot>, at: nat, back: seq<Slot>)
      requires Workable(sb) && DeadRange(sb.slots, 0, |sb.slots|) && |front| <= at && at + |back| <= |sb.slots|
      requires LiveRange(front, 0, |front|) && LiveRange(back, 0, |back|)
      modifies sb`slots, sb`built, this`copied
      ensures |sb.slots| == old(|sb.slots|)
      ensures sb.built == old(sb.built) + |front| + |back| && copied == old(copied) + |front| + |back|
      ensures forall i :: 0 <= i < |sb.slots| ==>
                sb.slots[i] == if i < |front| then front[i] else SlotFrom(back, at, i)
    {
      if |front| != 0 {
        DoCopy(sb, 0, front);
      }
      if |back| != 0 {
        DoCopy(sb, at, back);
      }
    }

    /** The branch of _grow that lets the allocator extend the block. */
    method GrowByResize(h: Heap, amount: nat, newCapacity: nat) returns (r: Outcome<bool>)
      requires h.Valid() && this in h.vectors && mStorage != null && Trivial()
      requires Room() <= newCapacity && mCount + amount <= newCapacity
      modifies this`mStorage, mStorage, h`buffers, h.allocator
      ensures h.Kept(this) && LeftIntact() && OwnBlock(h)
      ensures h.allocator.requests ==
              old(h.allocator.requests + mStorage.ResizeAsks(h.allocator, newCapacity * mItemSize))
      ensures r.Aborted? <==> TooBig(newCapacity * mItemSize)
      ensures r == Returned(false) <==> h.allocator.Refused(old(h.allocator.requests))
      ensures r != Returned(true) ==> h.Valid() && mStorage == old(mStorage) && unchanged(mStorage)
      ensures r == Returned(true) ==>
                h.ValidOpen(this) && Gapped(old(Contents()), mCount, amount) && Room() == newCapacity
    {
      FitOfProduct(newCapacity, mItemSize);
      r := ResizeBlock(h, newCapacity * mItemSize);
    }

    lemma GapFromCopies(was: seq<Item>, where: nat, amount: nat, slots: seq<Slot>)
      requires where <= |was| && |was| + amount <= |slots|
      requires var live := LiveSlots(was);
        forall i :: 0 <= i < |slots| ==>
          slots[i] == if i < where then live[i] else SlotFrom(live[where..], where + amount, i)
      ensures forall i :: 0 <= i < |slots| ==> slots[i] == GapSlot(was, where, amount, i)
    {
    }

    lemma RestFromCopies(was: seq<Item>, where: nat, amount: nat, slots: seq<Slot>)
      requires where + amount <= |was| && |was| - amount <= |slots|
      requires var live := LiveSlots(was);
        forall i :: 0 <= i < |slots| ==>
          slots[i] == if i < where then live[i] else SlotFrom(live[where + amount..], where, i)
      ensures var rest := Removed(was, where, amount);
        forall i :: 0 <= i < |slots| ==> slots[i] == if i < |rest| then Live(rest[i]) else Dead
    {
    }

    /** The items are copied into a new block, around a gap. */
    method CopyGap(h: Heap, sb: SharedBuffer, where: nat, amount: nat)
      requires h.Valid() && this in h.vectors && where <= mCount
      requires Spare(h, sb) && sb.AllDead() && sb.Counted(0) && mCount + amount <= |sb.slots|
      modifies sb`slots, sb`built, this`copied
      ensures h.Valid() && Spare(h, sb) && |sb.slots| == old(|sb.slots|) && sb.Counted(mCount)
      ensures where <= |Contents()| == mCount
      ensures forall i :: 0 <= i < |sb.slots| ==> sb.slots[i] == GapSlot(Contents(), where, amount, i)
      ensures copied == old(copied) + mCount
    {
      hide Heap.Valid, Heap.ValidOpen, LiveSlots;
      h.Inspect(this);
      ghost var was := Contents();
      if mStorage != null {
        assert mStorage.slots[..mCount] == LiveSlots(was);
        assert mStorage.slots[where..mCount] == LiveSlots(was)[where..];
        var front := Load(mStorage, 0, where);
        var back := Load(mStorage, where, mCount - where);
        CopyAround(sb, front, where + amount, back);
      }
      GapFromCopies(was, where, amount, sb.slots);
    }

    /** The items are copied into a new block, without a range. */
    method CopyRest(h: Heap, sb: SharedBuffer, where: nat, amount: nat)
      requires h.Valid() && this in h.vectors && mStorage != null && where + amount <= mCount
      requires Spare(h, sb) && sb.AllDead() && sb.Counted(0) && mCount - amount <= |sb.slots|
      modifies sb`slots, sb`built, this`copied
      ensures h.Valid() && Spare(h, sb) && |sb.slots| == old(|sb.slots|) && sb.Counted(mCount - amount)
      ensures where + amount <= |Contents()| == mCount && copied == old(copied) + mCount - amount
      ensures var rest := Removed(Contents(), where, amount);
        forall i :: 0 <= i < |sb.slots| ==> sb.slots[i] == if i < |rest| then Live(rest[i]) else Dead
    {
      hide Heap.Valid, Heap.ValidOpen;
      h.Inspect(this);
      ghost var was := Contents();
      assert mStorage.slots[..mCount] == LiveSlots(was);
      assert mStorage.slots[where + amount..mCount] == LiveSlots(was)[where + amount..];
      var front := Load(mStorage, 0, where);
      var back := Load(mStorage, where + amount, mCount - amount - where);
      CopyAround(sb, front, where, back);
      RestFromCopies(was, where, amount, sb.slots);
    }

    /** A new block with the items around a gap. */
    method CopyToGrown(h: Heap, where: nat, amount: nat, newCapacity: nat) returns (r: Outcome<SharedBuffer?>)
      requires h.Valid() && this in h.vectors && where <= mCount
      requires mCount + amount <= newCapacity
      modifies this`copied, h.allocator`requests, h.allocator`blocks
      ensures h.Valid() && h.Kept(this)
      ensures h.allocator.blocks == old(h.allocator.blocks) + if r.Aborted? then {} else One(r.value)
      ensures h.allocator.requests == old(h.allocator.requests) + if r.Aborted? then 0 else 1
      ensures r.Aborted? <==> TooBig(newCapacity * mItemSize)
      ensures r == Returned(null) <==> h.allocator.Refused(old(h.allocator.requests))
      ensures r.Returned? && r.value != null ==>
                && fresh(r.value) && r.value.mRefs == 1 && Workable(r.value)
                && |r.value.slots| == newCapacity && r.value.Counted(mCount)
                && where <= |Contents()| == mCount
                && forall i :: 0 <= i < newCapacity ==> r.value.slots[i] == GapSlot(Contents(), where, amount, i)
      ensures copied == old(copied) + if r.Returned? && r.value != null then mCount else 0
    {
      hide Heap.Valid, Heap.ValidOpen, Fit;
      h.Inspect(this);
      FitOfProduct(newCapacity, mItemSize);
      var sb :- SharedBuffer.Alloc(h.allocator, newCapacity * mItemSize, mItemSize, Trivial());
      if sb != null {
        CopyGap(h, sb, where, amount);
      }
      return Returned(sb);
    }

    /** The branch of _grow that copies the items into a new block, around the gap. */
    method GrowByCopy(h: Heap, where: nat, amount: nat, newCapacity: nat) returns (r: Outcome<bool>)
      requires h.Valid() && this in h.vectors && where <= mCount
      requires mCount + amount <= newCapacity
      modifies this`mStorage, this`copied, mStorage, h`buffers, h.allocator
      ensures h.Kept(this) && LeftIntact() && OwnBlock(h)
      ensures h.allocator.requests == old(h.allocator.requests) + if r.Aborted? then 0 else 1
      ensures r.Aborted? <==> TooBig(newCapacity * mItemSize)
      ensures r == Returned(false) <==> h.allocator.Refused(old(h.allocator.requests))
      ensures r != Returned(true) ==>
                h.Valid() && mStorage == old(mStorage) && (mStorage != null ==> unchanged(mStorage))
      ensures r == Returned(true) ==>
                h.ValidOpen(this) && Gapped(old(Contents()), where, amount) && Room() == newCapacity
      ensures copied == old(copied) + if r == Returned(true) then mCount else 0
    {
      hide Heap.Valid, Heap.ValidOpen, VectorImpl.Workable;
      h.Inspect(this);
      var sb :- CopyToGrown(h, where, amount, newCapacity);
      if sb == null {
        return Returned(false);
      }
      SwitchTo(h, sb);
      return Returned(true);
    }

    method MoveTailUp(h: Heap, where: nat, amount: nat)
      requires h.ValidOpen(this) && mStorage.Laid() && mCount == |mStorage.items|
      requires where <= mCount && mCount + amount <= Room()
      modifies mStorage`slots
      ensures h.Kept(this)
      ensures h.ValidOpen(this) && Gapped(old(Contents()), where, amount) && Room() == old(Room())
    {
      if where != mCount {
        DoMove(mStorage, where + amount, where, mCount - where);
      }
    }

    /** The branch of _grow that has room already and moves the tail up. */
    method GrowInPlace(h: Heap, where: nat, amount: nat) returns (r: Outcome<()>)
      requires h.Valid() && this in h.vectors && where <= mCount && mCount + amount <= Room()
      modifies this`mStorage, this`copied, mStorage, h`buffers, h.allocator
      ensures h.Kept(this) && LeftIntact() && OwnBlock(h) && Room() == old(Room())
      ensures r.Aborted? <==> old(Shared()) && !h.allocator.grants(old(h.allocator.requests))
      ensures h.allocator.requests == old(h.allocator.requests) + if old(Shared()) then 1 else 0
      ensures r.Aborted? || mStorage == null ==> h.Valid()
      ensures Contents() == old(Contents()) && (!old(Shared()) ==> mStorage == old(mStorage))
      ensures r.Returned? && mStorage != null ==> h.ValidOpen(this) && Gapped(old(Contents()), where, amount)
      ensures copied == old(copied) + if r.Returned? && old(Shared()) then mCount else 0
    {
      hide Heap.Valid, Heap.ValidOpen;
      var _ :- EditArrayImpl(h);
      h.Inspect(this);
      if mStorage != null {
        MoveTailUp(h, where, amount);
      }
      return Returned(());
    }

    /** mCount is assigned while the block is open. */
    method SetCount(h: Heap, n: nat)
      requires h.ValidOpen(this)
      modifies this`mCount
      ensures h.ValidOpen(this) && h.Kept(this) && mCount == n
    {
      mCount := n;
    }

    /** The end of _grow: the new count, and the address of the gap if there is one. */
    method Locate(h: Heap, ghost was: seq<Item>, where: nat, ghost amount: nat, n: nat)
        returns (found: bool)
      requires h.ValidOpen(this) && Gapped(was, where, amount)
      requires n == |was| + amount && (amount == 0 ==> mStorage.items == was)
      modifies this`mCount
      ensures h.Kept(this) && mCount == n
      ensures found <==> where < Room()
      ensures found ==> h.ValidOpen(this) && Gapped(was, where, amount)
      ensures !found ==> h.Valid() && Contents() == was && amount == 0
    {
      SetCount(h, n);
      found := ItemLocation(where);
      if !found {
        h.Close(this);
      }
    }

    /** How many requests `_grow` makes. */
    ghost function GrowAsks(h: Heap, where: nat, amount: nat): nat
      reads this, mStorage, h.allocator
    {
      if mCount + amount <= Room() then if Shared() then 1 else 0
      else if GrowthTooBig(mCount + amount, mItemSize) then 0
      else if mStorage != null && mCount == where && Trivial() then
        mStorage.ResizeAsks(h.allocator, GrownCapacity(mCount + amount) * mItemSize)
      else 1
    }

    /** _grow is going to end the process. */
    ghost predicate GrowAborts(h: Heap, amount: nat)
      reads this, mStorage, h.allocator
    {
      if Room() < mCount + amount then GrowthTooBig(mCount + amount, mItemSize)
      else Shared() && !h.allocator.grants(h.allocator.requests)
    }

    /** _grow needed a bigger block and the allocator had none. */
    twostate predicate GrowRefused(h: Heap, amount: nat)
      reads h.allocator
    {
      old(Room() < mCount + amount) && h.allocator.Refused(old(h.allocator.requests))
    }

    /** The part of _grow that needs a bigger block. */
    method GrowElsewhere(h: Heap, where: nat, amount: nat) returns (r: Outcome<bool>)
      requires h.Valid() && this in h.vectors && where <= mCount
      requires Room() < mCount + amount <= SIZE_MAX
      modifies this`mStorage, this`copied, mStorage, h`buffers, h.allocator
      ensures h.Kept(this) && LeftIntact() && OwnBlock(h)
      ensures h.allocator.requests == old(h.allocator.requests + GrowAsks(h, where, amount))
      ensures r.Aborted? <==> GrowthTooBig(mCount + amount, mItemSize)
      ensures r == Returned(false) <==> h.allocator.Refused(old(h.allocator.requests))
      ensures r != Returned(true) ==>
                h.Valid() && mStorage == old(mStorage) && (mStorage != null ==> unchanged(mStorage))
      ensures r == Returned(true) ==>
                && h.ValidOpen(this) && Gapped(old(Contents()), where, amount)
                && Room() == GrownCapacity(mCount + amount)
      ensures copied == old(copied) + if r == Returned(true) then old(CopiesToGrow(where, amount)) else 0
    {
      h.Inspect(this);
      var newSize := mCount + amount;
      GrowthOverflow(mCount, amount, mItemSize);
      var sum :- SafeAdd(newSize, newSize / 2);
      var wanted :- SafeAdd(sum, 1);
      var newCapacity := Max(MIN_CAPACITY, wanted);
      var _ :- SafeMul(newCapacity, mItemSize);
      if mStorage != null && mCount == where && mFlags.trivialCopy && mFlags.trivialDtor {
        r := GrowByResize(h, amount, newCapacity);
      } else {
        r := GrowByCopy(h, where, amount, newCapacity);
      }
    }

    /** _grow to `newSize` items, in a bigger block or in the one there is. */
    method GrowTo(h: Heap, where: nat, amount: nat, newSize: nat) returns (r: Outcome<bool>)
      requires h.Valid() && this in h.vectors && where <= mCount && newSize == mCount + amount <= SIZE_MAX
      modifies this`mStorage, this`copied, mStorage, h`buffers, h.allocator
      ensures h.Kept(this) && LeftIntact() && OwnBlock(h)
      ensures h.allocator.requests == old(h.allocator.requests + GrowAsks(h, where, amount))
      ensures r.Aborted? <==> old(GrowAborts(h, amount))
      ensures r == Returned(false) <==> r.Returned? && GrowRefused(h, amount)
      ensures r != Returned(true) || mStorage == null ==>
                h.Valid() && Contents() == old(Contents()) && Room() == old(Room())
      ensures old(!Shared() && newSize <= Room()) ==> mStorage == old(mStorage)
      ensures r == Returned(true) ==>
                Room() == old(if Room() < newSize then GrownCapacity(newSize) else Room())
      ensures r == Returned(true) && mStorage != null ==>
                h.ValidOpen(this) && Gapped(old(Contents()), where, amount)
      ensures r == Returned(true) && mStorage == null ==> newSize == 0
      ensures old(!Shared()) && r != Returned(true) ==> !Shared()
      ensures r == Returned(true) && amount == 0 ==> Contents() == old(Contents())
      ensures copied == old(copied) + if r == Returned(true) then old(CopiesToGrow(where, amount)) else 0
    {
      hide Heap.Valid, Heap.ValidOpen, GrownCapacity, GrowthTooBig, VectorImpl.Workable, VectorImpl.Trivial,
        VectorImpl.Gapped, SharedBuffer.Sized;
      h.Inspect(this);
      var cap := Capacity();
      if cap < newSize {
        r := GrowElsewhere(h, where, amount);
      } else {
        var _ :- GrowInPlace(h, where, amount);
        r := Returned(true);
      }
    }

    /** _grow up to the point where the address of the gap is taken. */
    method MakeRoom(h: Heap, where: nat, amount: nat) returns (r: Outcome<bool>)
      requires h.Valid() && this in h.vectors && where <= mCount
      modifies this`mStorage, this`copied, mStorage, h`buffers, h.allocator
      ensures h.Kept(this) && LeftIntact() && OwnBlock(h)
      ensures h.allocator.requests == old(h.allocator.requests + GrowAsks(h, where, amount))
      ensures r.Aborted? <==> old(GrowAborts(h, amount))
      ensures r == Returned(false) <==> r.Returned? && GrowRefused(h, amount)
      ensures r != Returned(true) || mStorage == null ==>
                h.Valid() && Contents() == old(Contents()) && Room() == old(Room())
      ensures old(!Shared() && mCount + amount <= Room()) ==> mStorage == old(mStorage)
      ensures r == Returned(true) ==>
                Room() == old(if Room() < mCount + amount then GrownCapacity(mCount + amount) else Room())
      ensures r == Returned(true) && mStorage != null ==>
                h.ValidOpen(this) && Gapped(old(Contents()), where, amount) && mCount + amount <= SIZE_MAX
      ensures r == Returned(true) && mStorage == null ==> mCount + amount == 0
      ensures r == Returned(true) && amount == 0 ==> Contents() == old(Contents())
      ensures copied == old(copied) + if r == Returned(true) then old(CopiesToGrow(where, amount)) else 0
      ensures old(!Shared()) || r == Returned(true) ==> !Shared()
    {
      hide Heap.Valid, Heap.ValidOpen, GrownCapacity, GrowthTooBig, VectorImpl.Workable, VectorImpl.Fits,
        VectorImpl.Trivial,
        VectorImpl.Gapped, SharedBuffer.Sized;
      h.Inspect(this);
      if mStorage != null {
        RoomBound();
      }
      GrowthOverflow(mCount, amount, mItemSize);
      var newSize :- SafeAdd(mCount, amount);
      r := GrowTo(h, where, amount, newSize);
      if r == Returned(true) && mStorage != null {
        h.InspectOpen(this);
      }
    }

    /** _grow: true if there is a place for `amount` items at position `where`. */
    method Grow(h: Heap, where: nat, amount: nat) returns (r: Outcome<bool>)
      requires h.Valid() && this in h.vectors && where <= mCount
      modifies this, mStorage, h`buffers, h.allocator
      ensures h.Kept(this) && LeftIntact() && OwnBlock(h)
      ensures h.allocator.requests == old(h.allocator.requests + GrowAsks(h, where, amount))
      ensures r.Aborted? <==> old(GrowAborts(h, amount))
      ensures r == Returned(false) <==>
                r.Returned? && (GrowRefused(h, amount) || (amount == 0 && where == old(Room())))
      ensures r != Returned(true) ==> h.Valid() && Contents() == old(Contents()) && Room() == old(Room())
      ensures old(!Shared() && mCount + amount <= Room()) ==> mStorage == old(mStorage)
      ensures r == Returned(true) ==>
                && h.ValidOpen(this) && Gapped(old(Contents()), where, amount) && mCount == old(mCount) + amount
                && Room() == old(if Room() < mCount + amount then GrownCapacity(mCount + amount) else Room())
      ensures copied == old(copied) + if r.Aborted? || GrowRefused(h, amount) then 0
                                      else old(CopiesToGrow(where, amount))
      ensures old(!Shared()) ==> !Shared()
    {
      hide GrownCapacity, GrowthTooBig;
      h.Inspect(this);
      var newSize := mCount + amount;
      var ok :- MakeRoom(h, where, amount);
      if ok && mStorage != null {
        ok := Locate(h, old(Contents()), where, amount, newSize);
      } else {
        ok := false;
      }
      return Returned(ok);
    }

    /** The gap has been filled with `newItems`. */
    ghost method SealGap(h: Heap, was: seq<Item>, where: nat, newItems: seq<Item>)
      requires h.ValidOpen(this) && where <= |was| && mCount == |was| + |newItems| <= Room()
      requires mStorage.Counted(mCount)
      requires forall i :: 0 <= i < Room() ==>
                 mStorage.slots[i] == FilledSlot(was, where, newItems, i)
      modifies mStorage`items
      ensures h.Valid() && h.Kept(this) && Contents() == Inserted(was, where, newItems)
    {
      mStorage.items := Inserted(was, where, newItems);
      h.Close(this);
    }

    method CopyIntoGap(h: Heap, ghost was: seq<Item>, where: nat, from: seq<Slot>, ghost piece: seq<Item>)
      requires h.ValidOpen(this) && Gapped(was, where, |piece|) && mCount == |was| + |piece|
      requires from == LiveSlots(piece)
      modifies mStorage`slots, mStorage`built, mStorage`items, this`copied
      ensures copied == old(copied) + |piece|
      ensures h.Valid() && h.Kept(this)
      ensures Contents() == Inserted(was, where, piece) && Room() == old(Room())
    {
      DoCopy(mStorage, where, from);
      SealGap(h, was, where, piece);
    }

    /** _do_splat or _do_construct, as insertAt chooses. */
    method FillGap(h: Heap, ghost was: seq<Item>, where: nat, item: Option<Item>, num: nat)
        returns (ghost piece: seq<Item>)
      requires h.ValidOpen(this) && Gapped(was, where, num) && mCount == |was| + num
      modifies mStorage`slots, mStorage`built, mStorage`items
      ensures |piece| == num && (item.Some? ==> piece == Repeat(item.value, num))
      ensures item.None? && !mFlags.trivialCtor ==> piece == Repeat(blank, num)
      ensures h.Valid() && h.Kept(this)
      ensures Contents() == Inserted(was, where, piece) && Room() == old(Room())
    {
      hide Heap.Valid, Inserted;
      if item.Some? {
        DoSplat(mStorage, where, item.value, num);
        piece := Repeat(item.value, num);
      } else {
        piece := DoConstruct(mStorage, where, num);
      }
      SealGap(h, was, where, piece);
    }

    /** What an insertion of `piece` at `index` returns and does. */
    twostate predicate Inserts(h: Heap, new r: Outcome<int>, index: Size, new piece: seq<Item>)
      reads this, mStorage, h.allocator
    {
      && h.allocator.requests ==
         old(h.allocator.requests + if index <= |Contents()| then GrowAsks(h, index, |piece|) else 0)
      && (r.Aborted? <==> index <= |old(Contents())| && old(GrowAborts(h, |piece|)))
      && (r.Returned? ==>
            (r.value == if index > |old(Contents())| then BAD_INDEX
                        else if GrowRefused(h, |piece|) || (index == old(Room()) && piece == []) then NO_MEMORY
                        else ToSsize(index)))
      && if r.Aborted? || index > |old(Contents())| || GrowRefused(h, |piece|) then
           Contents() == old(Contents()) && Room() == old(Room())
         else
           && Contents() == Inserted(old(Contents()), index, piece)
           && Room() == old(if Room() < mCount + |piece| then GrownCapacity(mCount + |piece|) else Room())
    }

    lemma SlotsBeforeGap(was: seq<Item>, where: nat, amount: nat, at: nat, num: nat)
      requires Gapped(was, where, amount) && at + num <= where
      ensures mStorage.slots[at..at + num] == LiveSlots(was[at..at + num])
    {
    }

    /** `_grow` while somebody wants to read the items at `src` afterwards. */
    method GrowPast(h: Heap, src: Source, num: nat, where: nat, amount: nat) returns (r: Outcome<bool>)
      requires h.Valid() && this in h.vectors && where <= mCount
      requires h.Readable(src, num) && Survives(src, num, where, amount)
      modifies this, mStorage, h`buffers, h.allocator
      ensures h.Kept(this) && OwnBlock(h)
      ensures h.allocator.requests == old(h.allocator.requests + GrowAsks(h, where, amount))
      ensures r.Aborted? <==> old(GrowAborts(h, amount))
      ensures r == Returned(false) <==>
                r.Returned? && (GrowRefused(h, amount) || (amount == 0 && where == old(Room())))
      ensures r != Returned(true) ==> h.Valid() && Contents() == old(Contents()) && Room() == old(Room())
      ensures r == Returned(true) ==>
                && h.ValidOpen(this) && Gapped(old(Contents()), where, amount) && mCount == old(mCount) + amount
                && Room() == old(if Room() < mCount + amount then GrownCapacity(mCount + amount) else Room())
      ensures r == Returned(true) ==>
                && (src.Inside? ==> !src.buf.freed && src.at + num <= |src.buf.slots|)
                && src.Slots(num) == LiveSlots(old(h.Read(src, num)))
      ensures copied == old(copied) + if r.Aborted? || GrowRefused(h, amount) then 0
                                      else old(CopiesToGrow(where, amount))
      ensures old(!Shared()) ==> !Shared()
    {
      hide Heap.Valid, Heap.ValidOpen, GrownCapacity, GrowthTooBig, GrowAborts, GrowRefused, CopiesToGrow,
        VectorImpl.Workable, VectorImpl.Gapped;
      h.Inspect(this);
      ghost var was := Contents();
      ghost var w: VectorImpl? := null;
      if src.Inside? {
        w := h.KeeperOf(this, src.buf);
      }
      h.SlotsOfSource(src, num);
      r := Grow(h, where, amount);
      if r == Returned(true) {
        if w != null {
          h.InspectOther(this, w);
        } else if src.Inside? {
          h.InspectOpen(this);
          SlotsBeforeGap(was, where, amount, src.at, num);
        }
      }
    }

    /** Make room and fill it from `src`: true if there was a place. */
    method CopyIn(h: Heap, src: Source, index: Size, length: Size) returns (r: Outcome<bool>)
      requires h.Valid() && this in h.vectors && index <= mCount
      requires h.Readable(src, length) && Survives(src, length, index, length)
      modifies this, mStorage, h`buffers, h.allocator
      ensures h.Valid() && h.Kept(this) && OwnBlock(h)
      ensures h.allocator.requests == old(h.allocator.requests + GrowAsks(h, index, length))
      ensures r.Aborted? <==> old(GrowAborts(h, length))
      ensures r == Returned(false) <==>
                r.Returned? && (GrowRefused(h, length) || (length == 0 && index == old(Room())))
      ensures r != Returned(true) ==> Contents() == old(Contents()) && Room() == old(Room())
      ensures r == Returned(true) ==>
                && Contents() == Inserted(old(Contents()), index, old(h.Read(src, length)))
                && Room() == old(if Room() < mCount + length then GrownCapacity(mCount + length) else Room())
      ensures copied == old(copied) + if r.Aborted? || GrowRefused(h, length) then 0
                                      else old(CopiesToGrow(index, length)) + if r.value then length else 0
    {
      hide Heap.Valid, Heap.ValidOpen, GrownCapacity, GrowthTooBig, GrowAborts, Inserted, VectorImpl.Gapped;
      h.Inspect(this);
      ghost var was, piece := Contents(), h.Read(src, length);
      var found :- GrowPast(h, src, length, index, length);
      if found {
        CopyIntoGap(h, was, index, src.Slots(length), piece);
      }
      return Returned(found);
    }

    /** insertArrayAt at a position that exists. */
    method InsertFrom(h: Heap, src: Source, index: Size, length: Size) returns (r: Outcome<int>)
      requires h.Valid() && this in h.vectors && index <= mCount
      requires h.Readable(src, length) && Survives(src, length, index, length)
      modifies this, mStorage, h`buffers, h.allocator
      ensures h.Valid() && h.Kept(this) && OwnBlock(h)
      ensures Inserts(h, r, index, old(h.Read(src, length)))
      ensures copied == old(copied) + if r.Aborted? || GrowRefused(h, length) then 0
                                      else old(CopiesToGrow(index, length)) + length
    {
      hide Heap.Valid, Inserted, GrownCapacity, GrowthTooBig, VectorImpl.Shared;
      h.Inspect(this);
      InsertNothing(Contents(), index, h.Read(src, length));
      var found :- CopyIn(h, src, index, length);
      return Returned(if found then ToSsize(index) else NO_MEMORY);
    }

    /** insertArrayAt. The items come from `src`, which may lead into another vector,
        even one that shares this vector's block. */
    method InsertArrayAt(h: Heap, src: Source, index: Size, length: Size) returns (r: Outcome<int>)
      requires h.Valid() && this in h.vectors
      requires h.Readable(src, length) && Survives(src, length, index, length)
      modifies this, mStorage, h`buffers, h.allocator
      ensures h.Valid() && h.Kept(this) && OwnBlock(h)
      ensures old(Compact()) ==> Compact()
      ensures Inserts(h, r, index, old(h.Read(src, length)))
      ensures copied == old(copied) + if index > |old(Contents())| || r.Aborted? || GrowRefused(h, length) then 0
                                      else old(CopiesToGrow(index, length)) + length
      ensures index <= |old(Contents())| && old(Room() < mCount + length) && r.Returned? && !GrowRefused(h, length) ==>
                Snug(Room(), |Contents()|)
      ensures index <= |old(Contents())| ==> ToSsize(index) != NO_MEMORY
    {
      hide Heap.Valid, Heap.ValidOpen, Inserted, GrownCapacity, GrowthTooBig, Bound, Snug;
      h.Inspect(this);
      if index > mCount {
        return Returned(BAD_INDEX);
      }
      if mStorage != null {
        RoomBound();
        MulMonotone(1, mItemSize, Room());
      }
      GrowthKeepsBounds(Room(), mCount, length);
      InsertedParts(Contents(), index, h.Read(src, length));
      r := InsertFrom(h, src, index, length);
    }

    /** Make room and fill it with copies of one item, or with what the hooks build. */
    method FillIn(h: Heap, item: Option<Source>, index: Size, numItems: Size)
        returns (r: Outcome<bool>, ghost piece: seq<Item>)
      requires h.Valid() && this in h.vectors && index <= mCount
      requires item.Some? ==> h.Readable(item.value, 1) && Survives(item.value, 1, index, numItems)
      modifies this, mStorage, h`buffers, h.allocator
      ensures h.Valid() && h.Kept(this) && OwnBlock(h)
      ensures h.allocator.requests == old(h.allocator.requests + GrowAsks(h, index, numItems))
      ensures r.Aborted? <==> old(GrowAborts(h, numItems))
      ensures r == Returned(false) <==>
                r.Returned? && (GrowRefused(h, numItems) || (numItems == 0 && index == old(Room())))
      ensures r != Returned(true) ==> Contents() == old(Contents()) && Room() == old(Room())
      ensures r == Returned(true) ==>
                && Contents() == Inserted(old(Contents()), index, piece)
                && Room() == old(if Room() < mCount + numItems then GrownCapacity(mCount + numItems) else Room())
      ensures |piece| == numItems
      ensures item.Some? ==> piece == Repeat(old(h.Read(item.value, 1))[0], numItems)
      ensures item.None? && !mFlags.trivialCtor ==> piece == Repeat(blank, numItems)
      ensures copied == old(copied) + if r.Aborted? || GrowRefused(h, numItems) then 0
                                      else old(CopiesToGrow(index, numItems))
      ensures old(!Shared()) ==> !Shared()
    {
      hide Heap.Valid, Heap.ValidOpen, GrownCapacity, GrowthTooBig, GrowAborts, Inserted, VectorImpl.Gapped;
      h.Inspect(this);
      ghost var was := Contents();
      if item.None? {
        piece := Repeat(blank, numItems);
        r := Grow(h, index, numItems);
        if r == Returned(true) {
          piece := FillGap(h, was, index, None, numItems);
        }
      } else {
        piece := Repeat(h.Read(item.value, 1)[0], numItems);
        r := GrowPast(h, item.value, 1, index, numItems);
        if r == Returned(true) {
          piece := FillGap(h, was, index, Some(item.value.Slots(1)[0].value), numItems);
        }
      }
    }

    /** insertAt at a position that exists. */
    method FillAt(h: Heap, item: Option<Source>, index: Size, numItems: Size)
        returns (r: Outcome<int>, ghost piece: seq<Item>)
      requires h.Valid() && this in h.vectors && index <= mCount
      requires item.Some? ==> h.Readable(item.value, 1) && Survives(item.value, 1, index, numItems)
      modifies this, mStorage, h`buffers, h.allocator
      ensures h.Valid() && h.Kept(this) && OwnBlock(h)
      ensures |piece| == numItems && Inserts(h, r, index, piece)
      ensures item.Some? ==> piece == Repeat(old(h.Read(item.value, 1))[0], numItems)
      ensures item.None? && !mFlags.trivialCtor ==> piece == Repeat(blank, numItems)
      ensures copied == old(copied) + if r.Aborted? || GrowRefused(h, numItems) then 0
                                      else old(CopiesToGrow(index, numItems))
      ensures old(!Shared()) ==> !Shared()
    {
      h.Inspect(this);
      ghost var was := Contents();
      var filled;
      filled, piece := FillIn(h, item, index, numItems);
      InsertNothing(was, index, piece);
      r := if filled.Aborted? then Aborted else Returned(if filled.value then ToSsize(index) else NO_MEMORY);
    }

    /** insertAt. Without an item the hooks of the type decide what is inserted. */
    method InsertAt(h: Heap, item: Option<Source>, index: Size, numItems: Size)
        returns (r: Outcome<int>, ghost piece: seq<Item>)
      requires h.Valid() && this in h.vectors
      requires item.Some? ==> h.Readable(item.value, 1) && Survives(item.value, 1, index, numItems)
      modifies this, mStorage, h`buffers, h.allocator
      ensures h.Valid() && h.Kept(this) && OwnBlock(h)
      ensures old(Compact()) ==> Compact()
      ensures |piece| == numItems && Inserts(h, r, index, piece)
      ensures item.Some? ==> piece == Repeat(old(h.Read(item.value, 1))[0], numItems)
      ensures item.None? && !mFlags.trivialCtor ==> piece == Repeat(blank, numItems)
      ensures index <= |old(Contents())| ==>
                copied == old(copied) + if r.Aborted? || GrowRefused(h, numItems) then 0
                                        else old(CopiesToGrow(index, numItems))
      ensures index <= |old(Contents())| && old(Room() < mCount + numItems)
              && r.Returned? && !GrowRefused(h, numItems) ==>
                Snug(Room(), |Contents()|)
      ensures old(!Shared()) ==> !Shared()
    {
      hide Heap.Valid, Heap.ValidOpen, GrownCapacity;
      h.Inspect(this);
      if index > mCount {
        r, piece := Returned(BAD_INDEX), Repeat(blank, numItems);
        if item.Some? {
          piece := Repeat(h.Read(item.value, 1)[0], numItems);
        }
        return;
      }
      GrownWithinBound(mCount + numItems);
      GrownIsSnug(GrownCapacity(mCount + numItems), mCount + numItems);
      r, piece := FillAt(h, item, index, numItems);
    }

    /** The block holds exactly these items. */
    ghost predicate Holds(items: seq<Item>)
      reads this`mStorage, mStorage
    {
      && mStorage != null && |items| <= |mStorage.slots| && mStorage.Counted(|items|)
      && forall i :: 0 <= i < |mStorage.slots| ==>
           mStorage.slots[i] == if i < |items| then Live(items[i]) else Dead
    }

    /** Work on the open block is over. */
    method Settle(h: Heap, ghost items: seq<Item>, n: nat)
      requires h.ValidOpen(this) && Holds(items) && n == |items|
      modifies this`mCount, mStorage`items
      ensures h.Valid() && h.Kept(this) && Contents() == items && Room() == old(Room())
    {
      SetCount(h, n);
      mStorage.items := items;
      h.Close(this);
    }

    /** How many items `_shrink` copies, if it takes them away. */
    ghost function CopiesToShrink(where: nat, amount: nat): nat
      requires amount <= mCount
      reads this`mStorage, this`mCount, mStorage
    {
      if mStorage == null then 0
      else if mCount - amount < Room() / 2 then
        if where == mCount - amount && Trivial() then 0 else mCount - amount
      else CopiesToEdit()
    }

    /** How many requests `_shrink` makes. */
    ghost function ShrinkAsks(h: Heap, where: nat, amount: nat): nat
      requires amount <= mCount
      reads this, mStorage, h.allocator
    {
      if mStorage == null then 0
      else if Room() / 2 <= mCount - amount then if Shared() then 1 else 0
      else if TooBig(ShrunkBytes(mCount - amount, mItemSize)) then 0
      else if where == mCount - amount && Trivial() then
        mStorage.ResizeAsks(h.allocator, ShrunkBytes(mCount - amount, mItemSize))
      else 1
    }

    /** _shrink is going to end the process. */
    ghost predicate ShrinkAborts(h: Heap, amount: nat)
      requires amount <= mCount
      reads this, mStorage, h.allocator
    {
      && mStorage != null
      && if mCount - amount < Room() / 2 then TooBig(ShrunkBytes(mCount - amount, mItemSize))
         else Shared() && !h.allocator.grants(h.allocator.requests)
    }

    lemma ShrinkNeverTooBig(h: Heap, amount: nat)
      requires h.Valid() && this in h.vectors
      ensures amount <= mCount && !TooBig(MIN_CAPACITY * mItemSize) && ShrinkAborts(h, amount) ==>
                Shared() && !h.allocator.grants(h.allocator.requests)
    {
      h.Inspect(this);
      if amount <= mCount && mStorage != null && mCount - amount < Room() / 2 {
        RoomBound();
        ShrinkArithmetic(Room(), mCount - amount, mItemSize);
        if MIN_CAPACITY <= Room() {
          MulMonotone(ShrunkCapacity(mCount - amount), Room(), mItemSize);
        }
      }
    }

    /** _shrink wanted a smaller block and the allocator had none. */
    twostate predicate ShrinkRefused(h: Heap, amount: nat)
      reads h.allocator
    {
      && old(mStorage) != null && old(mCount - amount < Room() / 2)
      && h.allocator.Refused(old(h.allocator.requests))
    }

    /** The branch of _shrink that lets the allocator cut the block. Trivially
        destructible items that fall away end without any code being run. */
    method ShrinkByResize(h: Heap, where: nat, bytes: nat) returns (r: Outcome<bool>)
      requires h.Valid() && this in h.vectors && mStorage != null && where <= mCount && Trivial()
      requires where <= Fit(bytes, mItemSize)
      modifies this`mStorage, mStorage, h`buffers, h.allocator
      ensures h.Kept(this) && OwnBlock(h)
      ensures h.allocator.requests == old(h.allocator.requests + mStorage.ResizeAsks(h.allocator, bytes))
      ensures r.Aborted? <==> TooBig(bytes)
      ensures r == Returned(false) <==> h.allocator.Refused(old(h.allocator.requests))
      ensures r != Returned(true) ==> h.Valid() && mStorage == old(mStorage) && unchanged(mStorage)
      ensures r == Returned(true) ==>
                h.ValidOpen(this) && Holds(old(Contents())[..where]) && Room() == Fit(bytes, mItemSize)
    {
      h.Inspect(this);
      r := ResizeBlock(h, bytes);
      if r == Returned(true) {
        EndTail(h, where);
      }
    }

    /** What was cut off needs no destructor. */
    method EndTail(h: Heap, where: nat)
      requires h.ValidOpen(this) && where <= Room() && Trivial()
      modifies mStorage`slots
      ensures h.ValidOpen(this) && h.Kept(this) && Room() == old(Room())
      ensures mStorage.slots == old(mStorage.slots)[..where] + DeadSlots(Room() - where)
    {
      mStorage.slots := mStorage.slots[..where] + DeadSlots(|mStorage.slots| - where);
    }

    /** A new block with the items that remain. */
    method CopyToShrunk(h: Heap, where: nat, amount: nat, bytes: nat) returns (r: Outcome<SharedBuffer?>)
      requires h.Valid() && this in h.vectors && mStorage != null && where + amount <= mCount
      requires mCount - amount <= Fit(bytes, mItemSize)
      modifies this`copied, h.allocator`requests, h.allocator`blocks
      ensures h.Valid() && h.Kept(this)
      ensures h.allocator.blocks == old(h.allocator.blocks) + if r.Aborted? then {} else One(r.value)
      ensures h.allocator.requests == old(h.allocator.requests) + if r.Aborted? then 0 else 1
      ensures r.Aborted? <==> TooBig(bytes)
      ensures r == Returned(null) <==> h.allocator.Refused(old(h.allocator.requests))
      ensures r.Returned? && r.value != null ==>
                && fresh(r.value) && r.value.mRefs == 1 && Workable(r.value)
                && |r.value.slots| == Fit(bytes, mItemSize) && r.value.Counted(mCount - amount)
                && where + amount <= |Contents()| == mCount
                && var rest := Removed(Contents(), where, amount);
                   forall i :: 0 <= i < |r.value.slots| ==>
                     r.value.slots[i] == if i < |rest| then Live(rest[i]) else Dead
      ensures copied == old(copied) + if r.Returned? && r.value != null then mCount - amount else 0
    {
      hide Heap.Valid, Heap.ValidOpen, Fit;
      h.Inspect(this);
      var sb :- SharedBuffer.Alloc(h.allocator, bytes, mItemSize, Trivial());
      if sb != null {
        CopyRest(h, sb, where, amount);
      }
      return Returned(sb);
    }

    /** The branch of _shrink that copies what remains into a new block. */
    method ShrinkByCopy(h: Heap, where: nat, amount: nat, bytes: nat) returns (r: Outcome<bool>)
      requires h.Valid() && this in h.vectors && mStorage != null && where + amount <= mCount
      requires mCount - amount <= Fit(bytes, mItemSize)
      modifies this`mStorage, this`copied, mStorage, h`buffers, h.allocator
      ensures h.Kept(this) && OwnBlock(h)
      ensures h.allocator.requests == old(h.allocator.requests) + if r.Aborted? then 0 else 1
      ensures r.Aborted? <==> TooBig(bytes)
      ensures r == Returned(false) <==> h.allocator.Refused(old(h.allocator.requests))
      ensures r != Returned(true) ==> h.Valid() && mStorage == old(mStorage) && unchanged(mStorage)
      ensures r == Returned(true) ==>
                && h.ValidOpen(this) && Holds(Removed(old(Contents()), where, amount))
                && Room() == Fit(bytes, mItemSize) && fresh(mStorage)
      ensures copied == old(copied) + if r == Returned(true) then mCount - amount else 0
    {
      hide Heap.Valid, Heap.ValidOpen, VectorImpl.Workable, Fit;
      h.Inspect(this);
      var sb :- CopyToShrunk(h, where, amount, bytes);
      if sb == null {
        return Returned(false);
      }
      SwitchTo(h, sb);
      return Returned(true);
    }

    /** The branch of _shrink that keeps the block and moves the tail down. */
    method ShrinkInPlace(h: Heap, where: nat, amount: nat) returns (r: Outcome<()>)
      requires h.Valid() && this in h.vectors && mStorage != null && where + amount <= mCount
      modifies this`mStorage, this`copied, mStorage, h`buffers, h.allocator
      ensures h.Kept(this) && OwnBlock(h) && Room() == old(Room())
      ensures h.allocator.requests == old(h.allocator.requests) + if old(Shared()) then 1 else 0
      ensures r.Aborted? <==> old(Shared()) && !h.allocator.grants(old(h.allocator.requests))
      ensures r.Aborted? ==> h.Valid() && Contents() == old(Contents())
      ensures r.Returned? ==> h.ValidOpen(this) && Holds(Removed(old(Contents()), where, amount))
      ensures copied == old(copied) + if r.Returned? then old(CopiesToEdit()) else 0
    {
      h.Inspect(this);
      var _ :- EditArrayImpl(h);
      h.Inspect(this);
      CloseUp(h, where, amount);
      return Returned(());
    }

    lemma RemovedSlots(was: seq<Item>, where: nat, amount: nat)
      requires where + amount <= |was|
      ensures var rest := Removed(was, where, amount);
        && |rest| == |was| - amount
        && (forall i :: 0 <= i < where ==> rest[i] == was[i])
        && (forall i :: where <= i < |rest| ==> rest[i] == was[i + amount])
    {
    }

    /** Destroy a range and move what follows it down. */
    method CloseSlots(sb: SharedBuffer, where: nat, amount: nat, newSize: nat, ghost was: seq<Item>)
      requires Workable(sb) && sb.Counted(|was|)
      requires where <= newSize && newSize + amount == |was| <= |sb.slots|
      requires forall i :: 0 <= i < |sb.slots| ==> sb.slots[i] == if i < |was| then Live(was[i]) else Dead
      modifies sb`slots, sb`destroyed
      ensures |sb.slots| == old(|sb.slots|) && sb.Counted(newSize)
      ensures var rest := Removed(was, where, amount);
        forall i :: 0 <= i < |sb.slots| ==> sb.slots[i] == if i < |rest| then Live(rest[i]) else Dead
    {
      RemovedSlots(was, where, amount);
      hide Removed;
      DoDestroy(sb, where, amount);
      if where != newSize {
        DoMove(sb, where, where + amount, newSize - where);
      }
    }

    method CloseUp(h: Heap, where: nat, amount: nat)
      requires h.ValidOpen(this) && mStorage.Laid() && mCount == |mStorage.items| && where + amount <= mCount
      modifies mStorage`slots, mStorage`destroyed
      ensures h.ValidOpen(this) && h.Kept(this) && Room() == old(Room())
      ensures Holds(Removed(old(Contents()), where, amount))
    {
      var newSize := mCount - amount;
      CloseSlots(mStorage, where, amount, newSize, mStorage.items);
    }

    /** The part of _shrink that wants a smaller block. */
    method ShrinkElsewhere(h: Heap, where: nat, amount: nat) returns (r: Outcome<bool>)
      requires h.Valid() && this in h.vectors && mStorage != null && where + amount <= mCount
      requires mCount - amount < Room() / 2
      modifies this`mStorage, this`copied, mStorage, h`buffers, h.allocator
      ensures h.Kept(this) && OwnBlock(h)
      ensures h.allocator.requests == old(h.allocator.requests + ShrinkAsks(h, where, amount))
      ensures r.Aborted? <==> TooBig(ShrunkBytes(mCount - amount, mItemSize))
      ensures r == Returned(false) <==> h.allocator.Refused(old(h.allocator.requests))
      ensures r != Returned(true) ==> h.Valid() && mStorage == old(mStorage) && unchanged(mStorage)
      ensures r == Returned(true) ==>
                && h.ValidOpen(this) && Holds(Removed(old(Contents()), where, amount))
                && Room() == ShrunkRoom(mCount - amount, mItemSize)
                && (where != mCount - amount || !Trivial() ==> fresh(mStorage))
      ensures copied == old(copied) + if r == Returned(true) then old(CopiesToShrink(where, amount)) else 0
    {
      h.Inspect(this);
      RoomBound();
      var newSize := mCount - amount;
      ShrinkArithmetic(Room(), newSize, mItemSize);
      var newCapacity := Max(MIN_CAPACITY, newSize * 2);
      var bytes := Wrap(newCapacity * mItemSize);
      if where == newSize && mFlags.trivialCopy && mFlags.trivialDtor {
        r := ShrinkByResize(h, where, bytes);
      } else {
        r := ShrinkByCopy(h, where, amount, bytes);
      }
    }

    /** What taking away `amount` items at `where` does. */
    twostate predicate Shrinks(h: Heap, where: nat, amount: nat, aborted: bool)
      requires where + amount <= old(mCount) && 1 <= mItemSize
      reads this, mStorage, h.allocator
    {
      && (aborted <==> old(ShrinkAborts(h, amount)))
      && h.allocator.requests == old(h.allocator.requests + ShrinkAsks(h, where, amount))
      && (old(!Shared()) ==> !Shared())
      && if aborted || ShrinkRefused(h, amount) then
           Contents() == old(Contents()) && Room() == old(Room()) && copied == old(copied)
         else
           && copied == old(copied + CopiesToShrink(where, amount))
           && (where + amount < old(mCount) && old(mCount - amount < Room() / 2) ==> fresh(mStorage))
           && where + amount <= |old(Contents())|
           && Contents() == Removed(old(Contents()), where, amount)
           && Room() == old(if mStorage != null && mCount - amount < Room() / 2
                            then ShrunkRoom(mCount - amount, mItemSize) else Room())
    }

    /** _shrink of a block to `newSize` items, up to the point where the count is set. */
    method CloseGap(h: Heap, where: nat, amount: nat, newSize: nat) returns (r: Outcome<bool>)
      requires h.Valid() && this in h.vectors && mStorage != null
      requires where + amount <= mCount && newSize == mCount - amount
      modifies this`mStorage, this`copied, mStorage, h`buffers, h.allocator
      ensures h.Kept(this) && OwnBlock(h)
      ensures h.allocator.requests == old(h.allocator.requests + ShrinkAsks(h, where, amount))
      ensures r.Aborted? <==> old(ShrinkAborts(h, amount))
      ensures r == Returned(false) <==> r.Returned? && ShrinkRefused(h, amount)
      ensures r != Returned(true) ==> h.Valid() && Contents() == old(Contents()) && Room() == old(Room())
      ensures r != Returned(true) ==> (old(!Shared()) ==> !Shared())
      ensures r == Returned(true) ==>
                && h.ValidOpen(this) && Holds(Removed(old(Contents()), where, amount))
                && Room() == (if newSize < old(Room()) / 2 then ShrunkRoom(newSize, mItemSize) else old(Room()))
                && (where < newSize && newSize < old(Room()) / 2 ==> fresh(mStorage))
      ensures copied == old(copied) + if r == Returned(true) then old(CopiesToShrink(where, amount)) else 0
    {
      hide Heap.Valid, Heap.ValidOpen, ShrunkRoom, ShrunkBytes, TooBig, VectorImpl.Suits, VectorImpl.Holds, Removed;
      h.Inspect(this);
      var cap := Capacity();
      if newSize < cap / 2 {
        r := ShrinkElsewhere(h, where, amount);
      } else {
        var _ :- ShrinkInPlace(h, where, amount);
        r := Returned(true);
      }
    }

    /** _shrink of a block, once it is known that there is so much to take away. */
    method TakeAway(h: Heap, where: nat, amount: nat, newSize: nat) returns (r: Outcome<()>)
      requires h.Valid() && this in h.vectors && mStorage != null
      requires where + amount <= mCount && newSize == mCount - amount
      modifies this, mStorage, h`buffers, h.allocator
      ensures h.Valid() && h.Kept(this) && OwnBlock(h)
      ensures Shrinks(h, where, amount, r.Aborted?)
    {
      hide Heap.Valid, Heap.ValidOpen, ShrunkRoom, ShrunkBytes, TooBig, VectorImpl.Suits, VectorImpl.Holds, Removed;
      h.Inspect(this);
      ghost var was := Contents();
      RemovedSlots(was, where, amount);
      var moved :- CloseGap(h, where, amount, newSize);
      if moved {
        h.InspectOpen(this);
        Settle(h, Removed(was, where, amount), newSize);
      }
      return Returned(());
    }

    /** _shrink. More than there is cannot be taken from a block: the process ends. */
    method Shrink(h: Heap, where: nat, amount: nat) returns (r: Outcome<()>)
      requires h.Valid() && this in h.vectors
      requires where + amount <= mCount || mStorage == null || mCount < amount
      modifies this, mStorage, h`buffers, h.allocator
      ensures h.Valid() && h.Kept(this) && OwnBlock(h)
      ensures where + amount <= old(mCount) ==>
                1 <= mItemSize && Shrinks(h, where, amount, r.Aborted?)
      ensures where + amount > old(mCount) ==>
                && Contents() == old(Contents()) && Room() == old(Room())
                && h.allocator.requests == old(h.allocator.requests)
                && (r.Aborted? <==> old(mStorage) != null)
    {
      hide Heap.Valid, Heap.ValidOpen, ShrunkRoom, ShrunkBytes, TooBig, VectorImpl.Suits, GrownCapacity;
      h.Inspect(this);
      if mStorage == null {
        return Returned(());
      }
      var newSize :- SafeSub(mCount, amount);
      r := TakeAway(h, where, amount, newSize);
    }

    /** removeItemsAt. When the allocator refuses a smaller block nothing is removed,
        and the caller is told that all went well. */
    method RemoveItemsAt(h: Heap, index: Size, count: Size) returns (r: Outcome<int>)
      requires h.Valid() && this in h.vectors
      // otherwise items outside the block are destroyed, see RemovalGuardOpens
      requires index + count <= SIZE_MAX || RemovalRefused(index, count, mCount) || mStorage == null || mCount < count
      modifies this, mStorage, h`buffers, h.allocator
      ensures h.Valid() && h.Kept(this) && OwnBlock(h)
      ensures old(Compact()) ==> Compact()
      ensures index + count > old(mCount) ==>
                && Contents() == old(Contents()) && Room() == old(Room())
                && h.allocator.requests == old(h.allocator.requests)
                && r == if RemovalRefused(index, count, old(mCount)) then Returned(BAD_VALUE)
                        else if old(mStorage) == null then Returned(ToSsize(index)) else Aborted
      ensures index + count <= old(mCount) ==>
                && 1 <= mItemSize && Shrinks(h, index, count, r.Aborted?)
                && (r.Returned? ==> r.value == ToSsize(index))
    {
      hide Heap.Valid, Heap.ValidOpen, ShrunkBytes, GrownCapacity;
      h.Inspect(this);
      if RemovalRefused(index, count, mCount) {
        return Returned(BAD_VALUE);
      }
      if count <= mCount {
        ShrunkWithinBound(mCount - count, mItemSize);
      }
      var _ :- Shrink(h, index, count);
      return Returned(ToSsize(index));
    }

    method Clear(h: Heap) returns (r: Outcome<()>)
      requires h.Valid() && this in h.vectors
      modifies this, mStorage, h`buffers, h.allocator
      ensures h.Valid() && h.Kept(this) && OwnBlock(h)
      ensures old(Compact()) ==> Compact()
      ensures 1 <= mItemSize && Shrinks(h, 0, old(mCount), r.Aborted?)
      ensures Contents() == if r.Aborted? || ShrinkRefused(h, old(mCount)) then old(Contents()) else []
      // a smaller block that cannot be had leaves everything as it was
      ensures ShrinkRefused(h, old(mCount)) && !r.Aborted? ==> Room() == old(Room()) && copied == old(copied)
    {
      h.Inspect(this);
      ShrunkWithinBound(0, mItemSize);
      r := Shrink(h, 0, mCount);
    }

    /** The items are copied into a new block with enough room. */
    method MoveTo(h: Heap, sb: SharedBuffer)
      requires h.Valid() && this in h.vectors && sb !in h.buffers && sb != mStorage
      requires sb.mRefs == 1 && Workable(sb) && sb.AllDead() && sb.Counted(0)
      requires mCount <= |sb.slots|
      modifies this, mStorage, sb, h`buffers
      ensures h.Valid() && h.Kept(this) && mStorage == sb && h.buffers == old(h.buffers) + {sb}
      ensures copied == old(copied + mCount)
      ensures Contents() == old(Contents()) && Room() == |old(sb.slots)|
    {
      hide Heap.Valid, VectorImpl.Workable, VectorImpl.Suits;
      h.Inspect(this);
      if mStorage != null {
        CopyAll(h, sb);
      }
      ghost var was := Contents();
      SwitchTo(h, sb);
      Settle(h, was, mCount);
    }

    method SetCapacity(h: Heap, newCapacity: Size) returns (r: Outcome<int>)
      requires h.Valid() && this in h.vectors
      modifies this, mStorage, h`buffers, h.allocator
      ensures h.Valid() && h.Kept(this) && OwnBlock(h) && Contents() == old(Contents())
      ensures r.Aborted? <==> old(mCount) < newCapacity && TooBig(newCapacity * mItemSize)
      ensures r.Returned? && old(mCount) < newCapacity ==>
                if h.allocator.Refused(old(h.allocator.requests))
                then r.value == NO_MEMORY && Room() == old(Room())
                else r.value == ToSsize(newCapacity) && Room() == newCapacity
      ensures h.allocator.requests ==
              old(h.allocator.requests) + if old(mCount) < newCapacity && r.Returned? then 1 else 0
      ensures copied == old(copied) + if r.Returned? && old(mCount) < newCapacity 
                                         && !h.allocator.Refused(old(h.allocator.requests)) then old(mCount) else 0
      ensures newCapacity <= old(mCount) ==>
                Room() == old(Room()) && Room() <= SIZE_MAX && r == Returned(ToSsize(Room()))
    {
      hide Heap.Valid;
      h.Inspect(this);
      if newCapacity <= mCount {
        var cap := Capacity();
        if mStorage != null {
          RoomBound();
        }
        return Returned(ToSsize(cap));
      }
      var bytes :- SafeMul(newCapacity, mItemSize);
      FitOfProduct(newCapacity, mItemSize);
      var sb :- SharedBuffer.Alloc(h.allocator, bytes, mItemSize, Trivial());
      if sb == null {
        return Returned(NO_MEMORY);
      }
      MoveTo(h, sb);
      return Returned(ToSsize(newCapacity));
    }

    /** How many items replaceAt copies, if it gets there: an item that is to take its own
        place stays. */
    ghost function CopiesToReplace(prototype: Option<Source>, index: nat): nat
      reads this`mStorage, this`mCount, mStorage
    {
      if mStorage == null || mCount <= index then 0
      else if prototype.None? || (!Shared() && prototype == Some(Inside(mStorage, index))) then CopiesToEdit()
      else CopiesToEdit() + 1
    }

    /** editArrayImpl while somebody wants to read the item at `src` afterwards. */
    method EditPast(h: Heap, src: Source) returns (r: Outcome<bool>)
      requires h.Valid() && this in h.vectors && h.Readable(src, 1)
      modifies this`mStorage, this`copied, mStorage, h`buffers, h.allocator
      ensures h.Valid() && h.Kept(this) && OwnBlock(h)
      ensures r.Aborted? <==> old(Shared()) && !h.allocator.grants(old(h.allocator.requests))
      ensures h.allocator.requests == old(h.allocator.requests) + if old(Shared()) then 1 else 0
      ensures Contents() == old(Contents()) && Room() == old(Room())
      ensures r.Returned? ==> !Shared()
      ensures r.Returned? && old(Shared()) ==> fresh(mStorage)
      ensures r.Aborted? || !old(Shared()) ==> mStorage == old(mStorage) && (mStorage != null ==> unchanged(mStorage))
      ensures copied == old(copied) + if r.Aborted? then 0 else old(CopiesToEdit())
      ensures r.Returned? ==>
                && (src.Inside? ==> !src.buf.freed && src.at < |src.buf.slots|)
                && (src.Outside? ==> 1 <= |src.items|)
                && src.Slots(1) == [Live(old(h.Read(src, 1))[0])]
    {
      hide Heap.Valid, Heap.ValidOpen;
      h.Inspect(this);
      h.SlotsOfSource(src, 1);
      ghost var w: VectorImpl? := null;
      if src.Inside? {
        w := h.KeeperOf(this, src.buf);
      }
      r := EditArrayImpl(h);
      if w != null {
        h.Inspect(w);
      }
    }

    /** replaceAt at a position that exists. */
    method ReplaceItem(h: Heap, prototype: Option<Source>, index: Size) returns (r: Outcome<int>, ghost item: Item)
      requires h.Valid() && this in h.vectors && index < mCount
      requires prototype.Some? ==> h.Readable(prototype.value, 1)
      modifies this, mStorage, h`buffers, h.allocator
      ensures h.Valid() && h.Kept(this) && OwnBlock(h) && Room() == old(Room())
      ensures prototype.Some? ==> item == old(h.Read(prototype.value, 1))[0]
      ensures prototype.None? && !mFlags.trivialCtor ==> item == blank
      ensures r.Aborted? <==> old(Shared()) && !h.allocator.grants(old(h.allocator.requests))
      ensures h.allocator.requests == old(h.allocator.requests) + if old(Shared()) then 1 else 0
      ensures copied == old(copied) + if r.Aborted? then 0 else old(CopiesToReplace(prototype, index))
      ensures r.Returned? ==> r.value == ToSsize(index)
      ensures index < |old(Contents())|
      ensures Contents() == if r.Aborted? then old(Contents()) else old(Contents())[index := item]
      ensures old(!Shared()) ==> mStorage == old(mStorage) && !Shared()
    {
      hide Heap.Valid, Heap.ValidOpen, ToSsize, SharedBuffer.Laid, SharedBuffer.Sized;
      h.Inspect(this);
      item := if prototype.Some? then h.Read(prototype.value, 1)[0] else blank;
      var edited;
      if prototype.Some? {
        edited := EditPast(h, prototype.value);
      } else {
        edited := EditArrayImpl(h);
      }
      if edited.Aborted? {
        r := Aborted;
        return;
      }
      h.Inspect(this);
      if prototype != Some(Inside(mStorage, index)) {
        item := Overwrite(h, index, prototype, item);
      }
      r := Returned(ToSsize(index));
    }

    /** replaceAt. The new item may come from anywhere, also from this vector. */
    method ReplaceAt(h: Heap, prototype: Option<Source>, index: Size) returns (r: Outcome<int>, ghost item: Item)
      requires h.Valid() && this in h.vectors
      requires prototype.Some? ==> h.Readable(prototype.value, 1)
      modifies this, mStorage, h`buffers, h.allocator
      ensures h.Valid() && h.Kept(this) && OwnBlock(h) && Room() == old(Room())
      ensures old(Compact()) ==> Compact()
      ensures prototype.Some? ==> item == old(h.Read(prototype.value, 1))[0]
      ensures prototype.None? && !mFlags.trivialCtor ==> item == blank
      ensures index >= |old(Contents())| ==> r == Returned(BAD_INDEX) && Contents() == old(Contents())
      ensures h.allocator.requests ==
              old(h.allocator.requests) + if index < |old(Contents())| && old(Shared()) then 1 else 0
      ensures copied == old(copied) + if r.Aborted? then 0 else old(CopiesToReplace(prototype, index))
      ensures index < |old(Contents())| ==>
                && (r.Aborted? <==> old(Shared()) && !h.allocator.grants(old(h.allocator.requests)))
                && (r.Returned? ==> r.value == ToSsize(index))
                && Contents() == if r.Aborted? then old(Contents()) else old(Contents())[index := item]
      ensures old(!Shared()) ==> mStorage == old(mStorage) && !Shared()
    {
      hide Heap.Valid;
      h.Inspect(this);
      if index >= mCount {
        r, item := Returned(BAD_INDEX), if prototype.Some? then h.Read(prototype.value, 1)[0] else blank;
        return;
      }
      r, item := ReplaceItem(h, prototype, index);
    }

    /** The item at `index` is destroyed and built anew. */
    method RebuildSlot(index: nat, prototype: Option<Source>, ghost wanted: Item) returns (ghost item: Item)
      requires mStorage != null && Workable(mStorage) && index < |mStorage.slots| && mStorage.slots[index].Live?
      requires prototype.Some? && prototype.value.Inside? ==>
                 !prototype.value.buf.freed && prototype.value.at < |prototype.value.buf.slots|
      requires prototype.Some? && prototype.value.Outside? ==> 1 <= |prototype.value.items|
      requires prototype.Some? ==> prototype.value.Slots(1) == [Live(wanted)]
      requires prototype != Some(Inside(mStorage, index))
      modifies mStorage`slots, mStorage`built, mStorage`destroyed, this`copied
      ensures prototype.Some? ==> item == wanted
      ensures prototype.None? && !mFlags.trivialCtor ==> item == blank
      ensures mStorage.built == old(mStorage.built) + 1 && mStorage.destroyed == old(mStorage.destroyed) + 1
      ensures copied == old(copied) + if prototype.Some? then 1 else 0
      ensures mStorage.slots == old(mStorage.slots)[index := Live(item)]
    {
      if prototype.Some? {
        assert prototype.value.Slots(1)[0] == Live(wanted);
      }
      DoDestroy(mStorage, index, 1);
      if prototype.None? {
        var made := DoConstruct(mStorage, index, 1);
        item := made[0];
      } else {
        var from := prototype.value.Slots(1);
        assert from[0] == Live(wanted);
        DoCopy(mStorage, index, from);
        item := wanted;
      }
    }

    method Overwrite(h: Heap, index: nat, prototype: Option<Source>, ghost wanted: Item) returns (ghost item: Item)
      requires h.ValidOpen(this) && mStorage.Laid() && mCount == |mStorage.items| && index < mCount
      requires prototype.Some? && prototype.value.Inside? ==>
                 !prototype.value.buf.freed && prototype.value.at < |prototype.value.buf.slots|
      requires prototype.Some? && prototype.value.Outside? ==> 1 <= |prototype.value.items|
      requires prototype.Some? ==> prototype.value.Slots(1) == [Live(wanted)]
      requires prototype != Some(Inside(mStorage, index))
      modifies mStorage`slots, mStorage`built, mStorage`destroyed, mStorage`items, this`mCount, this`copied
      ensures prototype.Some? ==> item == wanted
      ensures prototype.None? && !mFlags.trivialCtor ==> item == blank
      ensures copied == old(copied) + if prototype.Some? then 1 else 0
      ensures h.Valid() && h.Kept(this) && Contents() == old(Contents())[index := item] && Room() == old(Room())
    {
      item := RebuildSlot(index, prototype, wanted);
      assert Holds(mStorage.items[index := item]);
      Settle(h, mStorage.items[index := item], mCount);
    }

    /** The vector gives up its storage for good. */
    method FinishVector(h: Heap)
      requires h.Valid() && this in h.vectors
      modifies this`mStorage, this`mCount, mStorage
      ensures h.Valid() && h.Kept(this) && h.buffers == old(h.buffers)
      ensures mStorage == null && mCount == 0 && Contents() == []
      ensures old(mStorage) != null ==> (old(mStorage).freed <==> !old(Shared()))
      ensures old(mStorage) != null && !old(Shared()) ==> old(mStorage).AllDead() && old(mStorage).Counted(0)
    {
      ReleaseStorage(h);
      Detach(h);
    }

    method Detach(h: Heap)
      requires h.ValidBut(this)
      modifies this`mStorage, this`mCount
      ensures h.Valid() && h.Kept(this) && mStorage == null && mCount == 0
    {
      mStorage := null;
      mCount := 0;
    }

    method Attach(h: Heap, rhs: VectorImpl)
      requires h.ValidBut(this) && rhs in h.vectors && rhs != this && rhs.mStorage != null
      requires mItemSize == rhs.mItemSize && mFlags == rhs.mFlags
      modifies this`mStorage, this`mCount, rhs.mStorage
      ensures h.Valid() && h.Kept(this) && mStorage == rhs.mStorage && Contents() == old(rhs.Contents())
    {
      mStorage := rhs.mStorage;
      mCount := rhs.mCount;
      JoinOwners(h);
    }

    /** operator = */
    method Assign(h: Heap, rhs: VectorImpl) returns (r: Outcome<()>)
      requires h.Valid() && this in h.vectors && rhs in h.vectors
      requires mFlags == rhs.mFlags
      modifies this`mStorage, this`mCount, mStorage, rhs.mStorage
      ensures h.Valid() && h.Kept(this) && h.buffers == old(h.buffers)
      ensures r.Aborted? <==> mItemSize != rhs.mItemSize
      ensures Contents() == if r.Aborted? then old(Contents()) else old(rhs.Contents())
      ensures r.Returned? && this != rhs ==> mStorage == if rhs.mCount == 0 then null else rhs.mStorage
      ensures r.Aborted? || this == rhs ==> mStorage == old(mStorage) && (mStorage != null ==> unchanged(mStorage))
      ensures old(Compact() && rhs.Compact()) ==> Compact()
      ensures r.Returned? && this != rhs && old(mStorage) != null && !old(Shared()) ==>
                old(mStorage).freed && old(mStorage).AllDead() && old(mStorage).Counted(0)
    {
      if mItemSize != rhs.mItemSize {
        return Aborted;
      }
      if this != rhs {
        h.Inspect(rhs);
        ReleaseStorage(h);
        if rhs.mCount != 0 {
          Attach(h, rhs);
        } else {
          Detach(h);
        }
      }
      return Returned(());
    }

    // Operations put together from the ones above.

    /** insertVectorAt. The other vector may share this vector's block; it may even be
        this vector, if its block is shared or has room and the items go to the end. */
    method InsertVectorAt(h: Heap, v: VectorImpl, index: Size) returns (r: Outcome<int>)
      requires h.Valid() && this in h.vectors && v in h.vectors
      requires v == this ==> Shared() || (2 * mCount <= Room() && mCount <= index)
      modifies this, mStorage, h`buffers, h.allocator
      ensures h.Valid() && h.Kept(this) && OwnBlock(h)
      ensures old(Compact()) ==> Compact()
      ensures Inserts(h, r, index, old(v.Contents()))
      ensures index <= |old(Contents())| ==> ToSsize(index) != NO_MEMORY
    {
      h.VectorAsSource(this, v);
      r := InsertArrayAt(h, ItemsOf(v), index, v.mCount);
    }

    method AppendVector(h: Heap, v: VectorImpl) returns (r: Outcome<int>)
      requires h.Valid() && this in h.vectors && v in h.vectors
      requires v == this ==> Shared() || 2 * mCount <= Room()
      modifies this, mStorage, h`buffers, h.allocator
      ensures h.Valid() && h.Kept(this) && OwnBlock(h)
      ensures old(Compact()) ==> Compact()
      ensures old(|Contents()|) <= SIZE_MAX && Inserts(h, r, old(|Contents()|), old(v.Contents()))
    {
      h.Inspect(this);
      if mStorage != null {
        RoomBound();
      }
      r := InsertVectorAt(h, v, mCount);
    }

    /** add and push */
    method Add(h: Heap, item: Option<Source>) returns (r: Outcome<int>, ghost piece: seq<Item>)
      requires h.Valid() && this in h.vectors
      requires item.Some? ==> h.Readable(item.value, 1) && Survives(item.value, 1, mCount, 1)
      modifies this, mStorage, h`buffers, h.allocator
      ensures h.Valid() && h.Kept(this) && OwnBlock(h)
      ensures old(Compact()) ==> Compact()
      ensures |piece| == 1 && (item.Some? ==> piece == old(h.Read(item.value, 1)))
      ensures item.None? && !mFlags.trivialCtor ==> piece == [blank]
      ensures old(|Contents()|) <= SIZE_MAX && Inserts(h, r, old(|Contents()|), piece)
      ensures copied == old(copied) + if r.Aborted? || GrowRefused(h, 1) then 0 else old(CopiesToGrow(mCount, 1))
      ensures old(!Shared()) ==> !Shared()
      ensures ToSsize(old(|Contents()|)) != NO_MEMORY
    {
      hide Heap.Valid, Inserts;
      h.Inspect(this);
      if mStorage != null {
        RoomBound();
        MulMonotone(1, mItemSize, Room());
      }
      r, piece := InsertAt(h, item, mCount, 1);
      assert item.Some? ==> |old(h.Read(item.value, 1))| == 1;
    }

    method Pop(h: Heap) returns (r: Outcome<()>)
      requires h.Valid() && this in h.vectors
      modifies this, mStorage, h`buffers, h.allocator
      ensures h.Valid() && h.Kept(this) && OwnBlock(h)
      ensures old(Compact()) ==> Compact()
      ensures old(Contents()) == [] ==> r.Returned? && Contents() == [] && Room() == old(Room())
      ensures old(Contents()) != [] ==>
                1 <= old(mCount) && 1 <= mItemSize && Shrinks(h, old(mCount) - 1, 1, r.Aborted?)
    {
      h.Inspect(this);
      if mCount != 0 {
        RoomBound();
        var _ :- RemoveItemsAt(h, mCount - 1, 1);
      }
      return Returned(());
    }

    method Resize(h: Heap, size: Size) returns (r: Outcome<int>, ghost piece: seq<Item>)
      requires h.Valid() && this in h.vectors
      modifies this, mStorage, h`buffers, h.allocator
      ensures h.Valid() && h.Kept(this) && OwnBlock(h)
      ensures old(Compact()) ==> Compact()
      ensures size == old(|Contents()|) ==>
                && r == Returned(ToSsize(size)) && Contents() == old(Contents()) && Room() == old(Room())
                && h.allocator.requests == old(h.allocator.requests)
      ensures size > old(|Contents()|) ==>
                && |piece| == size - old(|Contents()|)
                && (!mFlags.trivialCtor ==> piece == Repeat(blank, |piece|))
                && (r.Aborted? <==> old(GrowAborts(h, size - mCount)))
                && h.allocator.requests == old(h.allocator.requests + GrowAsks(h, mCount, size - mCount))
                && copied == old(copied) + (if r.Aborted? || GrowRefused(h, |piece|) then 0
                                            else old(CopiesToGrow(mCount, size - mCount)))
                && Room() == (if r.Aborted? || GrowRefused(h, |piece|) then old(Room())
                              else old(if Room() < size then GrownCapacity(size) else Room()))
                && (r.Aborted? || GrowRefused(h, |piece|) ==> Contents() == old(Contents()))
                && (r.Returned? && GrowRefused(h, |piece|) ==> r == Returned(NO_MEMORY))
                && (r.Returned? && !GrowRefused(h, |piece|) ==> Contents() == old(Contents()) + piece)
                && (r.Returned? && !GrowRefused(h, |piece|) && old(|Contents()|) <= SSIZE_MAX ==>
                      r == Returned(ToSsize(size)))
      ensures size < old(|Contents()|) ==>
                && 1 <= mItemSize && size <= old(mCount) && Shrinks(h, size, old(mCount) - size, r.Aborted?)
                && (r.Returned? ==> r.value == ToSsize(size))
    {
      hide Heap.Valid, Heap.ValidOpen, GrowAborts, GrowAsks, ShrinkAsks, CopiesToGrow, GrownCapacity,
        VectorImpl.Workable, VectorImpl.Compact;
      h.Inspect(this);
      if mStorage != null {
        RoomBound();
      }
      r, piece := Returned(NO_ERROR), [];
      if size > mCount {
        r, piece := InsertAt(h, None, mCount, size - mCount);
      } else if size < mCount {
        r := RemoveItemsAt(h, size, mCount - size);
      }
      if r.Returned? && 0 <= r.value {
        r := Returned(ToSsize(size));
      }
    }

    // sort

    /** Destroy the item in a slot and copy another one there. */
    method Reassign(sb: SharedBuffer, at: nat, item: Slot)
      requires Workable(sb) && at < |sb.slots| && sb.slots[at].Live? && item.Live?
      modifies sb`slots, sb`built, sb`destroyed, this`copied
      ensures sb.built == old(sb.built) + 1 && sb.destroyed == old(sb.destroyed) + 1 && copied == old(copied) + 1
      ensures sb.slots == old(sb.slots)[at := item]
    {
      DoDestroy(sb, at, 1);
      DoCopy(sb, at, [item]);
    }

    /** One turn of the do-while loop of sort: the item in front moves up one slot. */
    method ShiftOne(sb: SharedBuffer, curr: nat, next: nat, i: nat, ghost was: seq<Slot>, ghost n: nat)
      requires Workable(sb) && sb.Counted(n) && Raised(was, sb.slots, next, i)
      requires next == curr + 1 && next <= i < |was| && was[curr].Live? && was[next].Live?
      modifies sb`slots, sb`built, sb`destroyed, this`copied
      ensures Workable(sb) && sb.Counted(n) && Raised(was, sb.slots, curr, i)
      ensures copied == old(copied) + 1
    {
      RaiseOne(was, sb.slots, next, i);
      var item := Peek(sb, curr);
      Reassign(sb, next, item);
    }

    /** Whether the item at `at` is greater than the one in `temp`. */
    method IsGreater(sb: SharedBuffer, at: nat, temp: Slot, cmp: Comparator<Item>) returns (b: bool)
      requires Workable(sb) && at < |sb.slots| && sb.slots[at].Live? && temp.Live?
      ensures b == (0 < cmp(sb.slots[at].value, temp.value))
    {
      var item := Peek(sb, at);
      return 0 < cmp(item.value, temp.value);
    }

    /** The do-while loop of sort: every item in front of i that is greater than temp
        moves up one slot, which is destroyed and rebuilt. */
    method ShiftUp(sb: SharedBuffer, i: nat, temp: Slot, cmp: Comparator<Item>, ghost s: seq<Item>)
        returns (next: nat, ghost moves: nat)
      requires 1 <= i < |s| <= |sb.slots|
      requires forall k :: 0 <= k < |s| ==> sb.slots[k] == Live(s[k])
      requires temp == Live(s[i]) && 0 < cmp(s[i - 1], s[i])
      requires Workable(sb) && sb.Counted(|s|)
      modifies sb`slots, sb`built, sb`destroyed, this`copied
      ensures sb.Counted(|s|)
      ensures next < i && (next == 0 || cmp(s[next - 1], s[i]) <= 0)
      ensures Raised(old(sb.slots), sb.slots, next, i)
      ensures Insert(s[..i], s[i], cmp) == Insert(s[..next], s[i], cmp) + s[next..i]
      ensures Steps(s[..i], s[i], cmp) == Steps(s[..next], s[i], cmp) + moves
      ensures 1 <= moves && copied == old(copied) + moves
    {
      var j := i - 1;
      var curr := j;
      next, moves := i, 0;
      var again := true;
      assert s[i..i] == [];
      while again
        invariant -1 <= j < i && curr == j && next == j + 1
        invariant again <==> 0 <= j && 0 < cmp(s[j], s[i])
        invariant Raised(old(sb.slots), sb.slots, next, i) && Workable(sb) && sb.Counted(|s|)
        invariant Insert(s[..i], s[i], cmp) == Insert(s[..next], s[i], cmp) + s[next..i]
        invariant Steps(s[..i], s[i], cmp) == Steps(s[..next], s[i], cmp) + moves
        invariant copied == old(copied) + moves && (1 <= moves || again)
        decreases j
      {
        StepOver(s, next, i, s[i], cmp);
        ShiftOne(sb, curr, next, i, old(sb.slots), |s|);
        moves := moves + 1;
        next := curr;
        j := j - 1;
        curr := j;
        again := 0 <= j;
        if again {
          again := IsGreater(sb, curr, temp, cmp);
        }
      }
    }

    /** With s[i] put at `next`, the slots up to i hold `result`. */
    lemma Placed(was: seq<Slot>, shifted: seq<Slot>, s: seq<Item>, i: nat, next: nat, result: seq<Item>)
      requires next <= i < |s| <= |was| == |shifted| && |result| == i + 1
      requires forall k :: 0 <= k < |s| ==> was[k] == Live(s[k])
      requires Raised(was, shifted, next, i)
      requires forall k :: 0 <= k <= i ==> result[k] == Opened(s, next, s[i], k)
      ensures forall k :: 0 <= k < |was| ==>
                shifted[next := Live(s[i])][k] == if k <= i then Live(result[k]) else was[k]
    {
    }

    /** The item at i, which is also in temp, goes back past all greater items. */
    method StepBack(sb: SharedBuffer, i: nat, temp: Slot, cmp: Comparator<Item>, ghost s: seq<Item>)
        returns (ghost moves: nat)
      requires 1 <= i < |s| <= |sb.slots|
      requires forall k :: 0 <= k < |s| ==> sb.slots[k] == Live(s[k])
      requires temp == Live(s[i]) && 0 < cmp(s[i - 1], s[i])
      requires Workable(sb) && sb.Counted(|s|)
      modifies sb`slots, sb`built, sb`destroyed, this`copied
      ensures sb.Counted(|s|)
      ensures moves == Steps(s[..i], s[i], cmp) && 1 <= moves && copied == old(copied) + moves + 1
      ensures |sb.slots| == old(|sb.slots|)
      ensures forall k :: 0 <= k < |sb.slots| ==>
                sb.slots[k] == if k <= i then Live(Insert(s[..i], s[i], cmp)[k]) else old(sb.slots)[k]
    {
      var next;
      next, moves := ShiftUp(sb, i, temp, cmp, s);
      StepStop(s, next, i, s[i], cmp);
      Placed(old(sb.slots), sb.slots, s, i, next, Insert(s[..i], s[i], cmp));
      Reassign(sb, next, temp);
    }

    /** _do_copy into the temporary. */
    method CopyOut(i: nat, temp: Scratch)
      requires mStorage != null && Workable(mStorage) && i < |mStorage.slots| && mStorage.slots[i].Live?
      requires !temp.freed && temp.slot.Dead?
      modifies temp`slot, this`copied
      ensures temp.slot == mStorage.slots[i] && copied == old(copied) + 1
    {
      var item := Peek(mStorage, i);
      temp.Copy(item);
      copied := copied + 1;
    }

    /** The item at i, which is out of order, goes back by way of the temporary. */
    method SortAt(h: Heap, i: nat, temp: Scratch, cmp: Comparator<Item>) returns (ghost moves: nat)
      requires h.Valid() && this in h.vectors && mStorage != null && !Shared()
      requires 1 <= i < |Contents()| && 0 < cmp(Contents()[i - 1], Contents()[i])
      requires !temp.freed && temp.slot.Dead?
      modifies this`mCount, this`copied, mStorage`slots, mStorage`built, mStorage`destroyed, mStorage`items, temp`slot
      ensures h.Valid() && h.Kept(this) && !Shared() && Room() == old(Room()) && temp.slot.Live?
      ensures Contents() == Turn(old(Contents()), i, cmp)
      ensures moves == Steps(old(Contents())[..i], old(Contents())[i], cmp)
      ensures copied == old(copied) + CopiesFor(moves)
    {
      hide Turn, Steps, Insert, Heap.Valid;
      h.Inspect(this);
      ghost var s := Contents();
      CopyOut(i, temp);
      moves := StepBack(mStorage, i, temp.slot, cmp, s);
      TurnAt(s, i, cmp);
      Settle(h, Turn(s, i, cmp), mCount);
    }

    /** The first time something has to move: get the block and a temporary. */
    method StartMoving(h: Heap) returns (r: Outcome<Scratch?>)
      requires h.Valid() && this in h.vectors && mStorage != null
      modifies this`mStorage, this`copied, mStorage, h`buffers, h.allocator
      ensures h.Valid() && h.Kept(this) && Contents() == old(Contents()) && Room() == old(Room())
      ensures mStorage == old(mStorage) || fresh(mStorage)
      ensures fresh(h.buffers - old(h.buffers)) && (old(h.NoneLost()) ==> h.NoneLost())
      ensures h.allocator.temps == old(h.allocator.temps) +
                                   if r.Aborted? || r.value == null then {} else {r.value}
      ensures h.allocator.requests ==
              old(h.allocator.requests) + (if old(Shared()) then 1 else 0) + if r.Aborted? then 0 else 1
      ensures r.Aborted? <==> old(Shared()) && !h.allocator.grants(old(h.allocator.requests))
      ensures r.Returned? ==>
                (r.value != null <==> h.allocator.grants(old(h.allocator.requests) + if old(Shared()) then 1 else 0))
      ensures r.Returned? ==> mStorage != null && !Shared()
      ensures r.Returned? && r.value != null ==> fresh(r.value) && !r.value.freed && r.value.slot.Dead?
      ensures r.Returned? ==> copied == old(copied) + old(CopiesToEdit())
    {
      hide Heap.Valid;
      var _ :- EditArrayImpl(h);
      var ok := h.allocator.Ask();
      if !ok {
        return Returned(null);
      }
      var temp := new Scratch(h.allocator);
      return Returned(temp);
    }

    /** The body of the outer loop, once there is a temporary: it holds the item that
        went back last. */
    method SortTurn(h: Heap, i: nat, temp: Scratch, cmp: Comparator<Item>) returns (ghost moves: nat)
      requires h.Valid() && this in h.vectors && mStorage != null && !Shared()
      requires 1 <= i < |Contents()| && !temp.freed && temp.slot.Live?
      modifies this`mCount, this`copied, mStorage`slots, mStorage`built, mStorage`destroyed, mStorage`items, temp`slot
      ensures h.Valid() && h.Kept(this) && !Shared() && Room() == old(Room()) && temp.slot.Live?
      ensures Contents() == Turn(old(Contents()), i, cmp)
      ensures moves == Steps(old(Contents())[..i], old(Contents())[i], cmp)
      ensures copied == old(copied) + CopiesFor(moves)
    {
      hide Heap.Valid, Turn;
      h.Inspect(this);
      moves := 0;
      var descent := Descends(i, cmp);
      if descent {
        temp.Destroy();
        moves := SortAt(h, i, temp, cmp);
      } else {
        TurnOfPair(Contents(), i, cmp);
      }
    }

    /** The turns of the outer loop from position `from` on. */
    method SortRest(h: Heap, from: nat, temp: Scratch, cmp: Comparator<Item>) returns (ghost moves: nat)
      requires h.Valid() && this in h.vectors && mStorage != null && !Shared()
      requires 1 <= from <= |Contents()| && !temp.freed && temp.slot.Live?
      modifies this`mCount, this`copied, mStorage`slots, mStorage`built, mStorage`destroyed, mStorage`items, temp`slot
      ensures h.Valid() && h.Kept(this) && !Shared() && Room() == old(Room()) && temp.slot.Live?
      ensures Contents() == Turns(old(Contents()), from, cmp)
      ensures moves == TurnMoves(old(Contents()), from, cmp)
      ensures copied == old(copied) + TurnCopies(old(Contents()), from, cmp)
    {
      hide Heap.Valid, Turn;
      ghost var target, total := Turns(Contents(), from, cmp), TurnMoves(Contents(), from, cmp);
      ghost var copies := copied + TurnCopies(Contents(), from, cmp);
      ghost var now := Contents();
      moves := 0;
      var i := from;
      h.Inspect(this);
      while i < mCount
        invariant 1 <= i <= mCount == |now| && Contents() == now
        invariant h.Valid() && h.Kept(this) && !Shared() && Room() == old(Room())
        invariant temp.slot.Live?
        invariant Turns(now, i, cmp) == target && moves + TurnMoves(now, i, cmp) == total
        invariant copied + TurnCopies(now, i, cmp) == copies
      {
        ghost var steps := SortTurn(h, i, temp, cmp);
        now := Turn(now, i, cmp);
        moves := moves + steps;
        i := i + 1;
        h.Inspect(this);
      }
    }

    /** The outer loop of sort from the first turn on that moves something. At the end
        the item left in the temporary is destroyed and the temporary freed. */
    method SortWith(h: Heap, i: nat, temp: Scratch, cmp: Comparator<Item>) returns (ghost moves: nat)
      requires h.Valid() && this in h.vectors && mStorage != null && !Shared()
      requires 1 <= i < |Contents()| && 0 < cmp(Contents()[i - 1], Contents()[i])
      requires !temp.freed && temp.slot.Dead? && temp in h.allocator.temps
      modifies this`mCount, this`copied, mStorage`slots, mStorage`built, mStorage`destroyed, mStorage`items, temp
      modifies h.allocator`temps
      ensures h.allocator.temps == old(h.allocator.temps) - {temp}
      ensures h.Valid() && h.Kept(this) && !Shared() && Room() == old(Room())
      ensures Contents() == Turns(old(Contents()), i, cmp)
      ensures moves == TurnMoves(old(Contents()), i, cmp)
      ensures copied == old(copied) + TurnCopies(old(Contents()), i, cmp)
      ensures temp.freed && temp.slot.Dead?
    {
      hide Turns, TurnMoves, TurnCopies, CopiesFor, Turn, Steps, Heap.Valid;
      TurnsFrom(Contents(), i, cmp);
      moves := SortAt(h, i, temp, cmp);
      ghost var more := SortRest(h, i + 1, temp, cmp);
      moves := moves + more;
      temp.Destroy();
      temp.Free(h.allocator);
    }

    /** Whether the item at i is smaller than the one in front of it. */
    method Descends(i: nat, cmp: Comparator<Item>) returns (b: bool)
      requires mStorage != null && Workable(mStorage) && 1 <= i < |mStorage.slots|
      requires mStorage.slots[i - 1].Live? && mStorage.slots[i].Live?
      ensures b == (0 < cmp(mStorage.slots[i - 1].value, mStorage.slots[i].value))
    {
      var item := Peek(mStorage, i);
      b := IsGreater(mStorage, i - 1, item, cmp);
    }

    /** The outer loop of sort up to the first turn that moves something. So far the
        items have only been compared, and a shared block is still shared. */
    method FirstDescent(h: Heap, cmp: Comparator<Item>) returns (i: nat)
      requires h.Valid() && this in h.vectors && mStorage != null
      ensures 1 <= i
      ensures mCount <= i <==> AscendingPairs(Contents(), cmp)
      ensures i < mCount ==> !AscendsAt(Contents(), i, cmp)
      ensures Turns(Contents(), i, cmp) == Turns(Contents(), 1, cmp)
      ensures TurnMoves(Contents(), i, cmp) == TurnMoves(Contents(), 1, cmp)
      ensures TurnCopies(Contents(), i, cmp) == TurnCopies(Contents(), 1, cmp)
      ensures mCount <= i ==> Turns(Contents(), 1, cmp) == Contents() && TurnMoves(Contents(), 1, cmp) == 0
      ensures mCount <= i ==> TurnCopies(Contents(), 1, cmp) == 0
    {
      h.Inspect(this);
      ghost var s := Contents();
      i := 1;
      var descent := false;
      while i < mCount && !descent
        invariant 1 <= i
        invariant forall k :: 0 < k < i && k < |s| ==> AscendsAt(s, k, cmp)
        invariant descent ==> i < mCount && !AscendsAt(s, i, cmp)
        decreases mCount - i, !descent
      {
        descent := Descends(i, cmp);
        if !descent {
          i := i + 1;
        }
      }
      SkipTurns(s, i, cmp);
    }

    /** The outer loop of sort from the first descent on. */
    method SortFrom(h: Heap, i: nat, cmp: Comparator<Item>) returns (r: Outcome<bool>, ghost moves: nat)
      requires h.Valid() && this in h.vectors && mStorage != null
      requires 1 <= i < |Contents()| && 0 < cmp(Contents()[i - 1], Contents()[i])
      modifies this, mStorage, h`buffers, h.allocator
      ensures h.Valid() && h.Kept(this) && OwnBlock(h) && Room() == old(Room())
      ensures h.allocator.requests ==
              old(h.allocator.requests) + (if old(Shared()) then 1 else 0) + if r.Aborted? then 0 else 1
      ensures r.Aborted? <==> old(Shared()) && !h.allocator.grants(old(h.allocator.requests))
      ensures r.Returned? ==>
                r.value == h.allocator.grants(old(h.allocator.requests) + if old(Shared()) then 1 else 0)
      ensures r == Returned(true) ==>
                && Contents() == Turns(old(Contents()), i, cmp) && moves == TurnMoves(old(Contents()), i, cmp)
                && copied == old(copied) + TurnCopies(old(Contents()), i, cmp) + old(CopiesToEdit())
      ensures r != Returned(true) ==> Contents() == old(Contents())
      ensures r == Returned(false) ==> h.allocator.Denied(old(h.allocator.requests))
    {
      hide Heap.Valid, Turns, TurnMoves, TurnCopies, VectorImpl.Workable;
      h.Inspect(this);
      moves := 0;
      var temp :- StartMoving(h);
      if temp == null {
        return Returned(false), moves;
      }
      h.Inspect(this);
      moves := SortWith(h, i, temp, cmp);
      return Returned(true), moves;
    }

    /** The outer loop of sort. */
    method SortLoop(h: Heap, cmp: Comparator<Item>) returns (r: Outcome<bool>, ghost moves: nat)
      requires h.Valid() && this in h.vectors && mStorage != null
      modifies this, mStorage, h`buffers, h.allocator
      ensures h.Valid() && h.Kept(this) && OwnBlock(h) && Room() == old(Room())
      ensures AscendingPairs(old(Contents()), cmp) ==>
                && r == Returned(true) && moves == 0 && mStorage == old(mStorage) && unchanged(mStorage)
                && h.allocator.requests == old(h.allocator.requests)
      ensures !AscendingPairs(old(Contents()), cmp) ==>
                && h.allocator.requests ==
                   old(h.allocator.requests) + (if old(Shared()) then 1 else 0) + (if r.Aborted? then 0 else 1)
                && (r.Aborted? <==> old(Shared()) && !h.allocator.grants(old(h.allocator.requests)))
                && (r.Returned? ==>
                      r.value == h.allocator.grants(old(h.allocator.requests) + if old(Shared()) then 1 else 0))
      ensures r == Returned(true) ==>
                Contents() == Turns(old(Contents()), 1, cmp) && moves == TurnMoves(old(Contents()), 1, cmp)
      ensures r == Returned(true) ==>
                copied == old(copied) + TurnCopies(old(Contents()), 1, cmp)
                                      + if AscendingPairs(old(Contents()), cmp) then 0 else old(CopiesToEdit())
      ensures r != Returned(true) ==> Contents() == old(Contents())
      ensures r == Returned(false) ==> h.allocator.Denied(old(h.allocator.requests))
    {
      hide Heap.Valid, Turns, TurnMoves, TurnCopies, AscendingPairs, VectorImpl.Workable;
      h.Inspect(this);
      var i := FirstDescent(h, cmp);
      r, moves := Returned(true), 0;
      if i < mCount {
        r, moves := SortFrom(h, i, cmp);
      }
    }

    /** sort, with a comparator that carries its own state. */
    method SortBy(h: Heap, cmp: Comparator<Item>) returns (r: Outcome<int>, ghost moves: nat)
      requires h.Valid() && this in h.vectors
      modifies this, mStorage, h`buffers, h.allocator
      ensures h.Valid() && h.Kept(this) && OwnBlock(h) && Room() == old(Room())
      ensures old(Compact()) ==> Compact()
      // nothing is written unless two neighbours are in the wrong order
      ensures old(|Contents()|) > SSIZE_MAX || AscendingPairs(old(Contents()), cmp) ==>
                && r == Returned(NO_ERROR) && moves == 0
                && mStorage == old(mStorage) && (mStorage != null ==> unchanged(mStorage))
                && h.allocator.requests == old(h.allocator.requests)
      ensures old(|Contents()|) <= SSIZE_MAX && !AscendingPairs(old(Contents()), cmp) ==>
                && h.allocator.requests ==
                   old(h.allocator.requests) + (if old(Shared()) then 1 else 0) + (if r.Aborted? then 0 else 1)
                && (r.Aborted? <==> old(Shared()) && !h.allocator.grants(old(h.allocator.requests)))
                && (r.Returned? ==>
                      r.value == if h.allocator.grants(old(h.allocator.requests) + if old(Shared()) then 1 else 0)
                                 then NO_ERROR else NO_MEMORY)
      ensures Contents() == if r == Returned(NO_ERROR) && old(|Contents()|) <= SSIZE_MAX
                            then Sort(old(Contents()), cmp) else old(Contents())
      ensures r == Returned(NO_ERROR) && old(|Contents()|) <= SSIZE_MAX ==>
                && moves == Moves(old(Contents()), cmp)
                && copied == old(copied) + Copies(old(Contents()), cmp)
                                         + if AscendingPairs(old(Contents()), cmp) then 0 else old(CopiesToEdit())
      ensures r == Returned(NO_MEMORY) ==> h.allocator.Denied(old(h.allocator.requests))
    {
      hide Heap.Valid, Heap.ValidOpen, AscendingPairs, Turns, TurnMoves, TurnCopies, Sort, Moves, Copies;
      h.Inspect(this);
      if mStorage != null {
        RoomBound();
      }
      TurnsAreSort(Contents(), cmp);
      if mCount <= 1 {
        ShortIsSorted(Contents(), cmp);
      }
      moves := 0;
      var count := ToSsize(mCount);
      if count > 1 {
        var done;
        done, moves := SortLoop(h, cmp);
        if done != Returned(true) {
          r := if done.Aborted? then Aborted else Returned(NO_MEMORY);
          return;
        }
      }
      r := Returned(NO_ERROR);
    }
  }
}
