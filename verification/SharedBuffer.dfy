/**
 The reference-counted memory block of libshims/SharedBuffer.cpp, seen as a row
 of item slots. A slot is dead (raw memory) or holds a live item.

 `owners`, `items` and `freed` are ghosts: who points here, what the owners
 believe the block holds, and whether the storage went back to the allocator.
 `built` and `destroyed` count the lives that began and ended in these slots.
 */
module SharedBuffers {
  import opened Machine

  /** What a vector holds. The code is type-erased: it moves items as bytes and
      through the hooks of the element type. */
  type Item(0, !new)

  datatype Slot = Dead | Live(value: Item)

  /** `n` dead slots. */
  function DeadSlots(n: nat): seq<Slot> {
    seq(n, _ => Dead)
  }

  function LiveSlots(s: seq<Item>): (r: seq<Slot>)
    ensures |r| == |s|
    ensures forall i :: 0 <= i < |s| ==> r[i] == Live(s[i])
  {
    seq(|s|, i requires 0 <= i < |s| => Live(s[i]))
  }

  ghost predicate DeadRange(slots: seq<Slot>, lo: nat, hi: nat) {
    && hi <= |slots|
    && forall i :: lo <= i < hi ==> slots[i].Dead?
  }

  ghost predicate LiveRange(slots: seq<Slot>, lo: nat, hi: nat) {
    && hi <= |slots|
    && forall i :: lo <= i < hi ==> slots[i].Live?
  }

  /** The slots that remain when a block is cut or extended to `n` slots. */
  function Resized(slots: seq<Slot>, n: nat): (r: seq<Slot>)
    ensures |r| == n
    ensures forall i :: 0 <= i < n ==> r[i] == if i < |slots| then slots[i] else Dead
  {
    if n <= |slots| then slots[..n] else slots + DeadSlots(n - |slots|)
  }

  /** What the allocator has handed out: a block, or nothing. */
  function One(sb: SharedBuffer?): set<object> {
    if sb == null then {} else {sb}
  }

  class SharedBuffer {
    var mRefs: nat
    var mSize: nat
    var slots: seq<Slot>
    const itemSize: nat
    /** The items may be copied as bytes, and dropped without any code being run. */
    ghost const trivial: bool
    ghost var built: nat
    ghost var destroyed: nat
    ghost var owners: set<object>
    ghost var items: seq<Item>
    ghost var freed: bool

    /** The block has as many slots as fit, and fits the address space. */
    ghost predicate Sized()
      reads this`slots, this`mSize
    {
      && 1 <= itemSize
      && |slots| == Fit(mSize, itemSize)
      && mSize < SIZE_MAX - HEADER_SIZE
    }

    /** As many lives have begun and not ended as there are items. */
    ghost predicate Counted(n: nat)
      reads this`built, this`destroyed
    {
      trivial || built == destroyed + n
    }

    /** Exactly the first |items| slots are live, and they hold the items. */
    ghost predicate Laid()
      reads this`slots, this`mSize, this`items, this`built, this`destroyed
    {
      && Sized() && Counted(|items|)
      && |items| <= |slots|
      && forall i :: 0 <= i < |slots| ==> slots[i] == if i < |items| then Live(items[i]) else Dead
    }

    ghost predicate AllDead()
      reads this`slots
    {
      forall i :: 0 <= i < |slots| ==> slots[i].Dead?
    }

    /** The storage can go: what is in it, if anything, needs no code to end. */
    ghost predicate Spent()
      reads this`slots, this`built, this`destroyed
    {
      trivial || (AllDead() && Counted(0))
    }

    /** The bytes that malloc has handed out. */
    constructor Raw(ghost a: Allocator, size: nat, itemSize: nat, ghost trivial: bool)
      requires 1 <= itemSize && size < SIZE_MAX - HEADER_SIZE
      modifies a`blocks
      ensures a.blocks == old(a.blocks) + {this}
      ensures mRefs == 1 && mSize == size && this.itemSize == itemSize && this.trivial == trivial
      ensures built == destroyed == 0
      ensures slots == DeadSlots(Fit(size, itemSize))
      ensures Sized() && Laid() && items == [] && owners == {} && !freed
    {
      mRefs := 1;
      mSize := size;
      this.itemSize := itemSize;
      this.trivial := trivial;
      built, destroyed := 0, 0;
      slots := DeadSlots(Fit(size, itemSize));
      owners := {};
      items := [];
      freed := false;
      new;
      a.blocks := a.blocks + {this};
    }

    static method Alloc(a: Allocator, size: nat, itemSize: nat, ghost trivial: bool)
        returns (r: Outcome<SharedBuffer?>)
      requires 1 <= itemSize
      modifies a`requests, a`blocks
      ensures a.blocks == old(a.blocks) + if r.Aborted? then {} else One(r.value)
      ensures r.Aborted? <==> SIZE_MAX - HEADER_SIZE <= size
      ensures r.Aborted? ==> a.requests == old(a.requests)
      ensures r.Returned? ==> a.requests == old(a.requests) + 1
      ensures r.Returned? ==> (r.value != null <==> a.grants(old(a.requests)))
      ensures r.Returned? && r.value != null ==>
                && fresh(r.value)
                && r.value.mRefs == 1 && r.value.mSize == size && r.value.itemSize == itemSize
                && r.value.trivial == trivial && r.value.built == r.value.destroyed == 0
                && r.value.slots == DeadSlots(Fit(size, itemSize))
                && r.value.Laid() && r.value.items == [] && r.value.owners == {} && !r.value.freed
    {
      if SIZE_MAX - HEADER_SIZE <= size {
        return Aborted;
      }
      var ok := a.Ask();
      if !ok {
        return Returned(null);
      }
      var sb := new SharedBuffer.Raw(a, size, itemSize, trivial);
      return Returned(sb);
    }

    /** Hand the storage back. It must still be out, without an item whose destructor
        has yet to run, and is out no longer. */
    method Free()
      requires !freed && mRefs == 0 && Spent()
      modifies this`freed
      ensures freed
    {
      freed := true;
    }

    method Dealloc() returns (status: int)
      requires !freed && Spent()
      modifies this`freed
      ensures status == if mRefs == 0 then 0 else -1
      ensures freed <==> mRefs == 0
    {
      if mRefs != 0 {
        return -1;
      }
      Free();
      return 0;
    }

    predicate OnlyOwner()
      reads this
    {
      mRefs == 1
    }

    method Acquire()
      requires !freed
      modifies this`mRefs
      ensures mRefs == old(mRefs) + 1
    {
      mRefs := mRefs + 1;
    }

    /** The value returned is the count before the call. */
    method Release(keepStorage: bool) returns (prev: nat)
      requires !freed && 1 <= mRefs
      requires mRefs == 1 && !keepStorage ==> Spent()
      modifies this`mRefs, this`freed
      ensures prev == old(mRefs) && mRefs == old(mRefs) - 1
      ensures freed <==> prev == 1 && !keepStorage
    {
      prev := 1;
      var last := OnlyOwner();
      if !last {
        prev := mRefs;
        mRefs := mRefs - 1;
        last := prev == 1;
      }
      if last {
        mRefs := 0;
        if !keepStorage {
          Free();
        }
      }
    }

    method AttemptEdit() returns (mine: bool)
      requires !freed
      ensures mine <==> mRefs == 1
    {
      mine := OnlyOwner();
    }

    /** How many requests editResize makes: a second one when realloc has been refused. */
    function ResizeAsks(a: Allocator, newSize: nat): nat
      reads this, a
    {
      if SIZE_MAX - HEADER_SIZE <= newSize || (mRefs == 1 && mSize == newSize) then 0
      else if mRefs == 1 && !a.grants(a.requests) then 2
      else 1
    }

    /** A block of the given size with the same leading bytes that only the
        caller refers to, or null. One reference to this block is consumed when
        the result is another block. Items are copied and dropped as bytes. */
    method EditResize(a: Allocator, newSize: nat) returns (r: Outcome<SharedBuffer?>)
      requires !freed && 1 <= mRefs && Sized() && Spent()
      modifies this, a`requests, a`blocks
      ensures a.blocks == old(a.blocks) + if r.Aborted? || r.value == this then {} else One(r.value)
      ensures owners == old(owners) && items == old(items) && built == old(built) && destroyed == old(destroyed)
      ensures a.requests == old(a.requests + ResizeAsks(a, newSize))
      ensures r.Aborted? <==> SIZE_MAX - HEADER_SIZE <= newSize
      ensures r.Aborted? ==> unchanged(this)
      ensures r.Returned? && r.value == null <==> a.Refused(old(a.requests))
      ensures r.Returned? && r.value == null ==> unchanged(this)
      ensures r == Returned(this) ==>
                && old(mRefs) == 1 && mRefs == 1 && !freed && mSize == newSize && Sized()
                && slots == Resized(old(slots), Fit(newSize, itemSize))
      ensures r.Returned? && r.value != null && r.value != this ==>
                && fresh(r.value)
                && r.value.mRefs == 1 && r.value.mSize == newSize && r.value.itemSize == itemSize
                && r.value.trivial == trivial && r.value.Spent() && r.value.Sized()
                && r.value.owners == {} && !r.value.freed
                && r.value.slots == Resized(old(slots), Fit(newSize, itemSize))
                && slots == old(slots) && mSize == old(mSize)
                && mRefs == old(mRefs) - 1 && (freed <==> old(mRefs) == 1)
    {
      hide Fit, Resized, SharedBuffer.Laid;
      if OnlyOwner() {
        if mSize == newSize {
          assert Resized(slots, |slots|) == slots;
          return Returned(this);
        }
        if SIZE_MAX - HEADER_SIZE <= newSize {
          return Aborted;
        }
        var grown := a.Ask();
        if grown {
          slots := Resized(slots, Fit(newSize, itemSize));
          mSize := newSize;
          return Returned(this);
        }
      }
      var sb :- SharedBuffer.Alloc(a, newSize, itemSize, trivial);
      if sb != null {
        var copied := if newSize < mSize then newSize else mSize;
        if newSize < mSize {
          FitMonotone(newSize, mSize, itemSize);
        } else {
          FitMonotone(mSize, newSize, itemSize);
        }
        var n := Fit(copied, itemSize);
        sb.slots := slots[..n] + sb.slots[n..];
        var _ := Release(false);
        assert sb.slots == Resized(slots, Fit(newSize, itemSize));
      }
      return Returned(sb);
    }

    /** A block with the same bytes that only the caller refers to, or null. */
    method Edit(a: Allocator) returns (sb: SharedBuffer?)
      requires !freed && 1 <= mRefs && Sized()
      modifies this, a`requests, a`blocks
      ensures a.blocks == old(a.blocks) + if sb == this then {} else One(sb)
      ensures owners == old(owners) && items == old(items) && slots == old(slots) && mSize == old(mSize)
      ensures sb == this <==> old(mRefs) == 1
      ensures sb == this ==> unchanged(this)
      ensures a.requests == old(a.requests) + if sb == this then 0 else 1
      ensures sb == null <==> a.Refused(old(a.requests))
      ensures sb == null ==> unchanged(this)
      ensures sb != null ==> sb.slots == old(slots) && sb.mSize == old(mSize) && sb.mRefs == 1
      ensures sb != null && sb != this ==> fresh(sb) && mRefs == old(mRefs) - 1 && !freed && !sb.freed
    {
      if OnlyOwner() {
        return this;
      }
      var r := SharedBuffer.Alloc(a, mSize, itemSize, trivial);
      sb := r.value;
      if sb != null {
        sb.slots := slots;
        var _ := Release(false);
      }
    }
  }
}
