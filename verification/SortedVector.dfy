/**
 SortedVectorImpl: a vector that is kept in ascending order (libshims/VectorImpl.cpp
 from line 565 on).
 */
module SortedVectors {
  import opened Machine
  import opened Policy
  import opened SharedBuffers
  import opened Sequences
  import opened StableSort
  import opened SortedSequences
  import opened Vectors

  /** What a binary search for x reports: an item equal to x if there is one, and
      otherwise how many items are smaller. */
  ghost predicate Finds(s: seq<Item>, x: Item, cmp: Comparator<Item>, index: int, order: nat) {
    && order == Order(s, x, cmp)
    && if 0 <= index then index == order && Equals(s, x, cmp, index)
       else index == NAME_NOT_FOUND && order == Place(s, x, cmp) && forall i :: !Equals(s, x, cmp, i)
  }

  /** A binary search for x stays within what a signed index can tell: it does not come
      to stand behind the last of 2^31 items. */
  ghost predicate Within(s: seq<Item>, x: Item, cmp: Comparator<Item>) {
    |s| <= SSIZE_MAX || (|s| == SSIZE_MAX + 1 && 0 <= cmp(s[SSIZE_MAX], x))
  }

  lemma OrderWithin(s: seq<Item>, x: Item, cmp: Comparator<Item>, order: nat)
    requires TotalPreorder(cmp) && Ordered(s, cmp) && Within(s, x, cmp)
    requires Finds(s, x, cmp, NAME_NOT_FOUND, order)
    ensures order <= SSIZE_MAX
  {
    PlaceDivides(s, x, cmp);
  }

  ghost predicate Missing(s: seq<Item>, x: Item, cmp: Comparator<Item>) {
    forall i :: !Equals(s, x, cmp, i)
  }

  lemma NewItem(s: seq<Item>, x: Item, cmp: Comparator<Item>, order: nat)
    requires Finds(s, x, cmp, NAME_NOT_FOUND, order)
    ensures order <= |s| && order == Order(s, x, cmp) && Added(s, x, cmp) == Inserted(s, order, [x])
    ensures Settles(s, x, cmp, order) && Missing(s, x, cmp)
  {
    assert !Equals(s, x, cmp, order);
    forall i | 0 <= i < |s|
      ensures cmp(s[i], x) != 0
    {
      assert !Equals(s, x, cmp, i);
    }
  }

  lemma OldItem(s: seq<Item>, x: Item, cmp: Comparator<Item>, index: int, order: nat)
    requires 0 <= index && Finds(s, x, cmp, index, order)
    ensures index < |s| && index == Order(s, x, cmp) && Added(s, x, cmp) == s[index := x]
    ensures Settles(s, x, cmp, index) && Equals(s, x, cmp, index) && !Missing(s, x, cmp)
  {
    assert Equals(s, x, cmp, index);
  }

  /** size() - 1, which wraps around for an empty vector, as a signed number. */
  function LastIndex(size: Size): (last: int)
    ensures last == if size <= SSIZE_MAX + 1 then size - 1 else size - 1 - (SIZE_MAX + 1)
  {
    ToSsize(Wrap(size + SIZE_MAX))
  }

  /** s when n items of t have been added: of a copy of them, or of those that s has then
      if they are its `own`. */
  function SoFar(s: seq<Item>, t: seq<Item>, own: bool, n: nat, cmp: Comparator<Item>): seq<Item>
    requires n <= |t| && (own ==> s == t)
  {
    if own then MergedInPlace(s, n, cmp) else Merged(s, t, n, cmp)
  }

  /** What merge of a sorted vector t returns and makes of s; n of its items have been
      added if there was no memory for more. */
  ghost predicate Merges(s: seq<Item>, t: seq<Item>, own: bool, cmp: Comparator<Item>, r: Outcome<int>, n: nat,
                         now: seq<Item>)
    requires s != [] && t != [] && n <= |t| && (own ==> s == t)
  {
    if r.Returned? && 0 <= r.value then
      && now == (if own then MergedInPlace(s, |s|, cmp) else FastMerged(s, t, cmp))
      && r.value == (if cmp(t[|t| - 1], s[0]) <= 0 then 0 else if cmp(t[0], s[|s| - 1]) >= 0 then |s| else NO_ERROR)
    else n < |t| && now == SoFar(s, t, own, n, cmp) && (r.Returned? ==> r.value == NO_MEMORY)
  }

  /** The shortcuts. */
  lemma MergesAtEnd(s: seq<Item>, t: seq<Item>, cmp: Comparator<Item>, r: Outcome<int>, at: nat, now: seq<Item>)
    requires s != [] && t != []
    requires if cmp(t[|t| - 1], s[0]) <= 0 then at == 0 else cmp(t[0], s[|s| - 1]) >= 0 && at == |s|
    requires if r.Returned? && 0 <= r.value then now == Inserted(s, at, t) && r.value == at else now == s
    requires r.Returned? && r.value < 0 ==> r.value == NO_MEMORY
    ensures Merges(s, t, false, cmp, r, 0, now)
  {
  }

  /** No shortcut. */
  lemma MergesOneByOne(s: seq<Item>, t: seq<Item>, own: bool, cmp: Comparator<Item>, r: Outcome<int>, n: nat,
                       now: seq<Item>)
    requires s != [] && t != [] && n <= |t| && (own ==> s == t)
    requires 0 < cmp(t[|t| - 1], s[0]) && cmp(t[0], s[|s| - 1]) < 0
    requires now == SoFar(s, t, own, n, cmp) && (r.Aborted? ==> n < |t|)
    requires r.Returned? ==> r.value == if n == |t| then NO_ERROR else NO_MEMORY
    ensures Merges(s, t, own, cmp, r, n, now)
  {
  }

  /** What merge answers: where the items of t are, all of them in a row, if a shortcut has
      put them there, and otherwise that there was no error. */
  ghost predicate Tells(s: seq<Item>, t: seq<Item>, cmp: Comparator<Item>, answer: int, now: seq<Item>)
    requires s != [] && t != []
  {
    if cmp(t[|t| - 1], s[0]) <= 0 || cmp(t[0], s[|s| - 1]) >= 0 then
      0 <= answer && answer + |t| <= |now| && now[answer..answer + |t|] == t
    else answer == NO_ERROR
  }

  lemma MergesTells(s: seq<Item>, t: seq<Item>, own: bool, cmp: Comparator<Item>, r: Outcome<int>, n: nat,
                    now: seq<Item>)
    requires TotalPreorder(cmp)
    requires s != [] && t != [] && n <= |t| && (own ==> s == t && 0 < cmp(t[|t| - 1], s[0]))
    requires Merges(s, t, own, cmp, r, n, now)
    ensures r.Returned? && 0 <= r.value ==> Tells(s, t, cmp, r.value, now)
  {
    Symmetric(t[0], s[|s| - 1], cmp);
    InsertedParts(s, 0, t);
    InsertedParts(s, |s|, t);
  }

  lemma MergesOrdered(s: seq<Item>, t: seq<Item>, own: bool, cmp: Comparator<Item>, r: Outcome<int>, n: nat,
                      now: seq<Item>)
    requires TotalPreorder(cmp) && Ordered(s, cmp)
    requires s != [] && t != [] && n <= |t| && (own ==> s == t && 0 < cmp(t[|t| - 1], s[0]))
    requires Merges(s, t, own, cmp, r, n, now)
    ensures Ordered(t, cmp) ==> Ordered(now, cmp)
    ensures Strict(s, cmp) && Strict(t, cmp) && r.Returned? && 0 <= r.value ==> (Strict(now, cmp) <==> NoTie(s, t, cmp))
  {
    if own {
      MergedInPlaceKeeps(s, |s|, cmp);
      MergedInPlaceKeeps(s, n, cmp);
      Symmetric(t[|t| - 1], s[0], cmp);
    } else {
      if Ordered(t, cmp) {
        FastMergeIsOrdered(s, t, cmp);
      }
      MergeIsOrdered(s, t, n, cmp);
      if Strict(s, cmp) && Strict(t, cmp) {
        FastMergeIsStrict(s, t, cmp);
      }
    }
  }

  lemma {:induction false} MergedSize(s: seq<Item>, t: seq<Item>, n: nat, cmp: Comparator<Item>)
    requires n <= |t|
    ensures |Merged(s, t, n, cmp)| <= |s| + n
  {
    if n != 0 {
      MergedSize(s, t, n - 1, cmp);
    }
  }

  lemma TooBigLater(m: nat, n: nat, itemSize: nat)
    requires m <= n
    ensures GrowthTooBig(m, itemSize) ==> GrowthTooBig(n, itemSize)
  {
    if GrowthTooBig(m, itemSize) {
      GrowthMonotone(m, n, itemSize);
    }
  }

  /** An item of the sequence is found there. */
  lemma OwnIsNotMissing(s: seq<Item>, i: nat, cmp: Comparator<Item>)
    requires TotalPreorder(cmp) && i < |s|
    ensures !Missing(s, s[i], cmp)
  {
    Symmetric(s[i], s[i], cmp);
    assert Equals(s, s[i], cmp, i);
  }

  /** What add returns and makes of s. A vector that is longer than a signed index can
      tell, by more than one item, gets the item in front. */
  ghost predicate Adds(s: seq<Item>, x: Item, cmp: Comparator<Item>, r: Outcome<int>, now: seq<Item>) {
    if Within(s, x, cmp) then
      if r.Returned? && 0 <= r.value then r.value == Order(s, x, cmp) && now == Added(s, x, cmp)
      else now == s && (r.Returned? ==> r.value == NO_MEMORY)
    else
      |s| > SSIZE_MAX + 1 ==>
        if r == Returned(0) then now == Inserted(s, 0, [x])
        else now == s && (r.Returned? ==> r.value == NO_MEMORY)
  }

  /** Where the search ends that goes on from l to high. */
  function Goal(s: seq<Item>, x: Item, cmp: Comparator<Item>, l: int, high: int): nat
    requires 0 <= l <= high + 1 <= |s|
  {
    Probe(s, x, cmp, l, high + 1)
  }

  /** What remove returns and makes of s. */
  ghost predicate Drops(s: seq<Item>, x: Item, cmp: Comparator<Item>, r: Outcome<int>, refused: bool, now: seq<Item>) {
    && (Within(s, x, cmp) ==>
          if r.Returned? && 0 <= r.value then
            && Equals(s, x, cmp, r.value) && r.value == Order(s, x, cmp)
            && now == if refused then s else Dropped(s, x, cmp)
          else
            now == s && (r.Returned? ==> r.value == NAME_NOT_FOUND && Missing(s, x, cmp)))
    && (|s| > SSIZE_MAX + 1 ==> r == Returned(NAME_NOT_FOUND) && now == s)
  }

  lemma DropsAt(s: seq<Item>, x: Item, cmp: Comparator<Item>, i: int, order: nat,
                r: Outcome<int>, refused: bool, now: seq<Item>)
    requires TotalPreorder(cmp) && Ordered(s, cmp)
    requires Within(s, x, cmp) ==> Finds(s, x, cmp, i, order)
    requires |s| > SSIZE_MAX + 1 ==> i == NAME_NOT_FOUND
    requires i == NAME_NOT_FOUND || 0 <= i < |s|
    requires r == Returned(i) || (r.Aborted? && 0 <= i)
    requires now == if i < 0 || r.Aborted? || refused then s else Removed(s, i, 1)
    ensures Drops(s, x, cmp, r, refused, now)
    ensures Within(s, x, cmp) ==> Ordered(now, cmp)
  {
    if Within(s, x, cmp) && 0 <= i {
      OldItem(s, x, cmp, i, order);
      DroppedIsOrdered(s, x, cmp);
    } else if Within(s, x, cmp) {
      NewItem(s, x, cmp, order);
    }
  }

  lemma AddsIsOrdered(s: seq<Item>, x: Item, cmp: Comparator<Item>, r: Outcome<int>, now: seq<Item>)
    requires TotalPreorder(cmp) && Ordered(s, cmp) && Adds(s, x, cmp, r, now)
    ensures Within(s, x, cmp) ==> Ordered(now, cmp)
  {
    AddedIsOrdered(s, x, cmp);
  }

  lemma AddsNew(s: seq<Item>, x: Item, cmp: Comparator<Item>, at: Size, r: Outcome<int>, now: seq<Item>)
    requires TotalPreorder(cmp) && Ordered(s, cmp)
    requires Within(s, x, cmp) ==> Finds(s, x, cmp, NAME_NOT_FOUND, at)
    requires at <= |s| && (|s| > SSIZE_MAX + 1 ==> at == 0)
    requires r.Returned? && r.value != NO_MEMORY ==> r.value == ToSsize(at) && now == Inserted(s, at, [x])
    requires r.Aborted? || (r.value == NO_MEMORY && at <= SSIZE_MAX) ==> now == s
    ensures Adds(s, x, cmp, r, now)
  {
    if Within(s, x, cmp) {
      NewItem(s, x, cmp, at);
      OrderWithin(s, x, cmp, at);
    }
  }

  lemma AddsOld(s: seq<Item>, x: Item, cmp: Comparator<Item>, index: Size, order: nat, r: Outcome<int>, now: seq<Item>)
    requires index < |s| <= SSIZE_MAX + 1 && (Within(s, x, cmp) ==> Finds(s, x, cmp, index, order))
    requires now == if r.Aborted? then s else s[index := x]
    requires r.Returned? ==> r.value == ToSsize(index)
    ensures Adds(s, x, cmp, r, now)
  {
    if Within(s, x, cmp) {
      OldItem(s, x, cmp, index, order);
    }
  }

  /** The search goes on from l to high, and has missed nothing. */
  ghost predicate Narrowed(s: seq<Item>, x: Item, cmp: Comparator<Item>, l: int, high: int) {
    && 0 <= l <= high + 1 <= |s| && l <= Place(s, x, cmp)
    && (forall i :: high < i < |s| ==> 0 < cmp(s[i], x))
    && Goal(s, x, cmp, l, high) == Order(s, x, cmp)
  }

  lemma Narrow(s: seq<Item>, x: Item, cmp: Comparator<Item>, l: int, high: int, mid: int)
    requires TotalPreorder(cmp) && Ordered(s, cmp) && Narrowed(s, x, cmp, l, high)
    requires l <= high && mid == l + (high - l) / 2
    ensures cmp(s[mid], x) == 0 ==> Finds(s, x, cmp, mid, mid)
    ensures cmp(s[mid], x) < 0 ==> Narrowed(s, x, cmp, mid + 1, high)
    ensures 0 < cmp(s[mid], x) ==> Narrowed(s, x, cmp, l, mid - 1)
  {
    PlaceDivides(s, x, cmp);
    if 0 < cmp(s[mid], x) {
      GreaterFrom(s, x, cmp, mid);
    }
  }

  lemma StartSearch(s: seq<Item>, x: Item, cmp: Comparator<Item>)
    ensures s != [] ==> Narrowed(s, x, cmp, 0, |s| - 1)
  {
  }

  lemma NothingLeft(s: seq<Item>, x: Item, cmp: Comparator<Item>, l: int, high: int)
    requires TotalPreorder(cmp) && Ordered(s, cmp) && Narrowed(s, x, cmp, l, high) && high < l
    ensures Finds(s, x, cmp, NAME_NOT_FOUND, l)
  {
    PlaceDivides(s, x, cmp);
    PlaceIs(s, x, cmp, l);
  }

  lemma NothingIn(s: seq<Item>, x: Item, cmp: Comparator<Item>)
    ensures s == [] ==> Finds(s, x, cmp, NAME_NOT_FOUND, 0)
  {
  }

  class SortedVectorImpl {
    const vec: VectorImpl
    const cmp: Comparator<Item>

    constructor (h: Heap, itemSize: nat, flags: Flags, blank: Item, cmp: Comparator<Item>)
      requires h.Valid() && 1 <= itemSize && TotalPreorder(cmp)
      modifies h`vectors
      ensures this.cmp == cmp && fresh(vec) && vec.Contents() == [] && Ready(h)
      ensures h.vectors == old(h.vectors) + {vec} && h.Kept(vec)
    {
      this.cmp := cmp;
      vec := new VectorImpl(h, itemSize, flags, blank);
    }

    /** The vector is in order. */
    ghost predicate Ready(h: Heap)
      reads h, h.vectors, h.buffers, vec, vec.mStorage
    {
      h.Valid() && vec in h.vectors && TotalPreorder(cmp) && Ordered(vec.Contents(), cmp)
    }

    /** Its length fits a signed index. */
    ghost predicate Signed()
      reads vec`mStorage, vec.mStorage
    {
      |vec.Contents()| <= SSIZE_MAX
    }

    /** No vector of up to n of these items is too long for a signed index. */
    predicate Indexable(n: nat) {
      2 <= vec.mItemSize || n <= SSIZE_MAX
    }

    lemma LengthIsSigned(h: Heap, n: nat)
      requires h.Valid() && vec in h.vectors && Indexable(n) && |vec.Contents()| <= n
      ensures Signed()
    {
      h.Inspect(vec);
      if 2 <= vec.mItemSize && vec.mStorage != null {
        vec.RoomBound();
        MulMonotone(2, vec.mItemSize, vec.Room());
      }
    }

    /** One comparison of the binary search. */
    method Compare(h: Heap, mid: nat, item: Source) returns (c: int)
      requires Ready(h) && h.Readable(item, 1) && mid < vec.mCount
      ensures mid < |vec.Contents()| && c == cmp(vec.Contents()[mid], h.Read(item, 1)[0])
      // the address of the item lies inside the block
      ensures vec.mStorage != null && (mid + 1) * vec.mItemSize <= vec.mStorage.mSize <= SIZE_MAX
    {
      h.Inspect(vec);
      h.SlotsOfSource(item, 1);
      var found := vec.ItemLocation(mid);
      var x := item.Slots(1)[0].value;
      return cmp(vec.mStorage.slots[mid].value, x);
    }

    /** One turn of the loop of the binary search. */
    method CompareMid(h: Heap, item: Source, l: int, high: int, ghost s: seq<Item>, ghost x: Item)
        returns (mid: int, c: int)
      requires Ready(h) && h.Readable(item, 1) && s == vec.Contents() && x == h.Read(item, 1)[0]
      requires Narrowed(s, x, cmp, l, high) && 0 <= l <= high < |s| && high <= SSIZE_MAX
      ensures l <= mid <= high
      ensures c == 0 ==> Finds(s, x, cmp, mid, mid)
      ensures c < 0 ==> Narrowed(s, x, cmp, mid + 1, high)
      ensures 0 < c ==> Narrowed(s, x, cmp, l, mid - 1)
    {
      hide Narrowed, Goal, Finds, Ordered, TotalPreorder;
      h.Inspect(vec);
      mid := l + (high - l) / 2;
      assert l <= mid <= high <= SSIZE_MAX;
      Narrow(s, x, cmp, l, high, mid);
      c := Compare(h, mid, item);
    }

    /** The loop of the binary search, once it is entered. */
    method SearchLoop(h: Heap, item: Source, last: int) returns (index: int, order: nat)
      requires Ready(h) && h.Readable(item, 1) && 0 <= last == |vec.Contents()| - 1 <= SSIZE_MAX
      ensures Finds(vec.Contents(), h.Read(item, 1)[0], cmp, index, order)
      ensures index <= last && order <= last + 1
    {
      hide Narrowed, Goal, Finds, Ordered, TotalPreorder;
      ghost var s, x := vec.Contents(), h.Read(item, 1)[0];
      StartSearch(s, x, cmp);
      var err := NAME_NOT_FOUND;
      var l, high := 0, last;
      while l <= high
        invariant Narrowed(s, x, cmp, l, high) && 0 <= l <= high + 1 && high <= last
        decreases high - l
      {
        var mid, c := CompareMid(h, item, l, high, s, x);
        if c == 0 {
          return mid, mid;
        } else if c < 0 {
          l := mid + 1;
        } else {
          high := mid - 1;
        }
      }
      NothingLeft(s, x, cmp, l, high);
      return err, l;
    }

    /** _indexOrderOf. With more than one item beyond what a signed index can tell, the
        loop is not entered and nothing is found. */
    method IndexOrderOf(h: Heap, item: Source) returns (index: int, order: nat)
      requires Ready(h) && h.Readable(item, 1)
      ensures Within(vec.Contents(), h.Read(item, 1)[0], cmp) ==>
                Finds(vec.Contents(), h.Read(item, 1)[0], cmp, index, order)
      ensures |vec.Contents()| > SSIZE_MAX + 1 ==> index == NAME_NOT_FOUND && order == 0
      ensures index == NAME_NOT_FOUND || 0 <= index < |vec.Contents()|
      ensures order <= |vec.Contents()| <= SIZE_MAX
    {
      h.Inspect(vec);
      if vec.mStorage != null {
        vec.RoomBound();
      }
      var last := LastIndex(vec.mCount);
      if 0 <= last {
        index, order := SearchLoop(h, item, last);
      } else {
        index, order := NAME_NOT_FOUND, 0;
        NothingIn(vec.Contents(), h.Read(item, 1)[0], cmp);
      }
    }

    method IndexOf(h: Heap, item: Source) returns (index: int)
      requires Ready(h) && h.Readable(item, 1)
      ensures index == NAME_NOT_FOUND || 0 <= index < |vec.Contents()| <= SIZE_MAX
      ensures Within(vec.Contents(), h.Read(item, 1)[0], cmp) && 0 <= index ==>
                && Equals(vec.Contents(), h.Read(item, 1)[0], cmp, index)
                && index == Order(vec.Contents(), h.Read(item, 1)[0], cmp)
      ensures Within(vec.Contents(), h.Read(item, 1)[0], cmp) && index < 0 ==>
                forall i :: !Equals(vec.Contents(), h.Read(item, 1)[0], cmp, i)
      ensures |vec.Contents()| > SSIZE_MAX + 1 ==> index == NAME_NOT_FOUND
    {
      var order;
      index, order := IndexOrderOf(h, item);
    }

    method OrderOf(h: Heap, item: Source) returns (o: nat)
      requires Ready(h) && h.Readable(item, 1)
      ensures o <= |vec.Contents()|
      ensures Within(vec.Contents(), h.Read(item, 1)[0], cmp) ==>
                Settles(vec.Contents(), h.Read(item, 1)[0], cmp, o)
      ensures |vec.Contents()| > SSIZE_MAX + 1 ==> o == 0
    {
      ghost var s, x := vec.Contents(), h.Read(item, 1)[0];
      var index;
      index, o := IndexOrderOf(h, item);
      if Within(s, x, cmp) && index < 0 {
        NewItem(s, x, cmp, o);
      }
    }

    /** An item that is already in this vector's own block is found there. */
    lemma OwnItemIsFound(h: Heap, item: Source, at: nat)
      requires Ready(h) && h.Readable(item, 1)
      requires Finds(vec.Contents(), h.Read(item, 1)[0], cmp, NAME_NOT_FOUND, at)
      ensures vec.Survives(item, 1, at, 1)
    {
      if item.Inside? && item.buf == vec.mStorage {
        var x := vec.Contents()[item.at];
        assert h.Read(item, 1)[0] == x;
        Symmetric(x, x, cmp);
        assert Equals(vec.Contents(), x, cmp, item.at);
      }
    }

    /** The item is not in this vector's own block, or others keep that block alive. */
    ghost predicate Elsewhere(item: Source)
      reads vec`mStorage, vec.mStorage
    {
      item.Inside? && item.buf == vec.mStorage ==> vec.Shared()
    }

    /** add, when no item is equal to the new one. */
    method AddNew(h: Heap, item: Source, at: Size) returns (r: Outcome<int>)
      requires Ready(h) && h.Readable(item, 1) && at <= |vec.Contents()| && vec.Survives(item, 1, at, 1)
      modifies vec, vec.mStorage, h`buffers, h.allocator
      ensures h.Valid() && h.Kept(vec) && vec.OwnBlock(h)
      ensures old(vec.Compact()) ==> vec.Compact()
      ensures r.Returned? && r.value != NO_MEMORY ==>
                && r.value == ToSsize(at)
                && vec.Contents() == Inserted(old(vec.Contents()), at, [old(h.Read(item, 1))[0]])
      ensures r.Aborted? || (r.value == NO_MEMORY && at <= SSIZE_MAX) ==> vec.Contents() == old(vec.Contents())
      ensures h.allocator.grants(old(h.allocator.requests)) &&
              !GrowthTooBig(|old(vec.Contents())| + 1, vec.mItemSize) ==>
                r == Returned(ToSsize(at))
      ensures r == Returned(NO_MEMORY) && at <= SSIZE_MAX ==> h.allocator.Denied(old(h.allocator.requests))
      ensures r.Aborted? <==> old(vec.GrowAborts(h, 1))
      ensures r.Returned? ==> r.value == if vec.GrowRefused(h, 1) then NO_MEMORY else ToSsize(at)
      ensures old(!vec.Shared()) ==> !vec.Shared()
    {
      hide Heap.Valid, Heap.ValidOpen, Inserted, GrowthTooBig, GrownCapacity, Ordered;
      h.Inspect(vec);
      ghost var x, piece := h.Read(item, 1)[0], [];
      r, piece := vec.InsertAt(h, Some(item), at, 1);
      assert piece == [x];
      h.allocator.RefusedIsDenied(old(h.allocator.requests));
    }

    /** add, when there is an item equal to the new one. */
    method AddOld(h: Heap, item: Source, index: Size) returns (r: Outcome<int>)
      requires Ready(h) && h.Readable(item, 1) && index < |vec.Contents()|
      modifies vec, vec.mStorage, h`buffers, h.allocator
      ensures h.Valid() && h.Kept(vec) && vec.OwnBlock(h)
      ensures old(vec.Compact()) ==> vec.Compact()
      ensures vec.Contents() == if r.Aborted? then old(vec.Contents())
                                else old(vec.Contents())[index := old(h.Read(item, 1))[0]]
      ensures r.Returned? ==> r.value == ToSsize(index)
      ensures r.Aborted? <==> old(vec.Shared()) && !h.allocator.grants(old(h.allocator.requests))
      ensures old(!vec.Shared()) ==> vec.mStorage == old(vec.mStorage) && !vec.Shared()
    {
      hide Ordered, TotalPreorder;
      ghost var put;
      r, put := vec.ReplaceAt(h, Some(item), index);
    }

    /** add, once the search has been made. */
    method AddAt(h: Heap, item: Source, index: int, order: Size) returns (r: Outcome<int>)
      requires Ready(h) && h.Readable(item, 1) && (Within(vec.Contents(), h.Read(item, 1)[0], cmp) || Elsewhere(item))
      requires Within(vec.Contents(), h.Read(item, 1)[0], cmp) ==>
                 Finds(vec.Contents(), h.Read(item, 1)[0], cmp, index, order)
      requires |vec.Contents()| > SSIZE_MAX + 1 ==> index == NAME_NOT_FOUND && order == 0
      requires (index == NAME_NOT_FOUND || 0 <= index < |vec.Contents()|) && order <= |vec.Contents()| <= SIZE_MAX
      modifies vec, vec.mStorage, h`buffers, h.allocator
      ensures h.Valid() && h.Kept(vec) && vec.OwnBlock(h)
      ensures old(vec.Compact()) ==> vec.Compact()
      ensures Adds(old(vec.Contents()), old(h.Read(item, 1))[0], cmp, r, vec.Contents())
      ensures Within(old(vec.Contents()), old(h.Read(item, 1))[0], cmp) || |old(vec.Contents())| > SSIZE_MAX + 1 ==>
                h.allocator.grants(old(h.allocator.requests)) &&
                !GrowthTooBig(|old(vec.Contents())| + 1, vec.mItemSize) ==>
                  r.Returned? && 0 <= r.value
      ensures Within(old(vec.Contents()), old(h.Read(item, 1))[0], cmp) && r.Returned? && r.value < 0 ==>
                h.allocator.Denied(old(h.allocator.requests))
      ensures Within(old(vec.Contents()), old(h.Read(item, 1))[0], cmp) ==>
                if Missing(old(vec.Contents()), old(h.Read(item, 1))[0], cmp) then
                  && (r.Aborted? <==> old(vec.GrowAborts(h, 1)))
                  && (r.Returned? ==> (r.value < 0 <==> vec.GrowRefused(h, 1)))
                else
                  && (r.Aborted? <==> old(vec.Shared()) && !h.allocator.grants(old(h.allocator.requests)))
                  && (r.Returned? ==> 0 <= r.value)
      ensures old(!vec.Shared()) ==> !vec.Shared()
      ensures old(!vec.Shared()) && 0 <= index ==> vec.mStorage == old(vec.mStorage) && !vec.Shared()
    {
      hide Added, Adds, Finds, Missing, GrowthTooBig, Inserted, Ordered, TotalPreorder, Heap.Valid;
      ghost var was, x := vec.Contents(), h.Read(item, 1)[0];
      if index < 0 {
        if Within(was, x, cmp) {
          OwnItemIsFound(h, item, order);
          NewItem(was, x, cmp, order);
          OrderWithin(was, x, cmp, order);
        }
        r := AddNew(h, item, order);
        AddsNew(was, x, cmp, order, r, vec.Contents());
      } else {
        if Within(was, x, cmp) {
          OldItem(was, x, cmp, index, order);
        }
        r := AddOld(h, item, index);
        AddsOld(was, x, cmp, index, order, r, vec.Contents());
      }
    }

    /** add. The item may come from anywhere, also from this vector. */
    method Add(h: Heap, item: Source) returns (r: Outcome<int>)
      requires Ready(h) && h.Readable(item, 1) && (Within(vec.Contents(), h.Read(item, 1)[0], cmp) || Elsewhere(item))
      modifies vec, vec.mStorage, h`buffers, h.allocator
      ensures h.Valid() && h.Kept(vec) && vec.OwnBlock(h)
      ensures old(vec.Compact()) ==> vec.Compact()
      ensures Adds(old(vec.Contents()), old(h.Read(item, 1))[0], cmp, r, vec.Contents())
      ensures Within(old(vec.Contents()), old(h.Read(item, 1))[0], cmp) ==> Ordered(vec.Contents(), cmp)
      ensures Within(old(vec.Contents()), old(h.Read(item, 1))[0], cmp) || |old(vec.Contents())| > SSIZE_MAX + 1 ==>
                h.allocator.grants(old(h.allocator.requests)) &&
                !GrowthTooBig(|old(vec.Contents())| + 1, vec.mItemSize) ==>
                  r.Returned? && 0 <= r.value
      ensures Within(old(vec.Contents()), old(h.Read(item, 1))[0], cmp) && r.Returned? && r.value < 0 ==>
                h.allocator.Denied(old(h.allocator.requests))
      ensures Within(old(vec.Contents()), old(h.Read(item, 1))[0], cmp) ==>
                if Missing(old(vec.Contents()), old(h.Read(item, 1))[0], cmp) then
                  && (r.Aborted? <==> old(vec.GrowAborts(h, 1)))
                  && (r.Returned? ==> (r.value < 0 <==> vec.GrowRefused(h, 1)))
                else
                  && (r.Aborted? <==> old(vec.Shared()) && !h.allocator.grants(old(h.allocator.requests)))
                  && (r.Returned? ==> 0 <= r.value)
      ensures old(!vec.Shared()) ==> !vec.Shared()
      // nothing moves if an item is replaced in a block that is this vector's own
      ensures Within(old(vec.Contents()), old(h.Read(item, 1))[0], cmp) && old(!vec.Shared()) ==>
                || (vec.mStorage == old(vec.mStorage) && !vec.Shared())
                || Missing(old(vec.Contents()), old(h.Read(item, 1))[0], cmp)
    {
      hide GrowthTooBig, Ordered, TotalPreorder, Finds, Missing, Adds, Heap.Valid;
      ghost var was, x := vec.Contents(), h.Read(item, 1)[0];
      var index, order := IndexOrderOf(h, item);
      if index < 0 && Within(was, x, cmp) {
        NewItem(was, x, cmp, order);
      }
      r := AddAt(h, item, index, order);
      AddsIsOrdered(was, x, cmp, r, vec.Contents());
    }

    /** remove, when there is an item to remove. What removeItemsAt returns is not looked at. */
    method RemoveFound(h: Heap, i: Size) returns (r: Outcome<()>)
      requires Ready(h) && i < |vec.Contents()|
      modifies vec, vec.mStorage, h`buffers, h.allocator
      ensures h.Valid() && h.Kept(vec) && vec.OwnBlock(h)
      ensures old(vec.Compact()) ==> vec.Compact()
      ensures vec.Contents() == if r.Aborted? || vec.ShrinkRefused(h, 1) then old(vec.Contents())
                                else Removed(old(vec.Contents()), i, 1)
      ensures h.allocator.grants(old(h.allocator.requests)) ==> !vec.ShrinkRefused(h, 1)
      ensures h.allocator.grants(old(h.allocator.requests)) && !TooBig(MIN_CAPACITY * vec.mItemSize) ==> r.Returned?
      ensures 1 <= old(vec.mCount) && (r.Aborted? <==> old(vec.ShrinkAborts(h, 1)))
    {
      hide Ordered, TotalPreorder, TooBig, ShrunkRoom, ShrunkBytes, Removed;
      h.Inspect(vec);
      if vec.mStorage != null {
        vec.RoomBound();
        MulMonotone(1, vec.mItemSize, vec.Room());
      }
      vec.ShrinkNeverTooBig(h, 1);
      var _ :- vec.RemoveItemsAt(h, i, 1);
      return Returned(());
    }

    /** remove */
    method Remove(h: Heap, item: Source) returns (r: Outcome<int>)
      requires Ready(h) && h.Readable(item, 1)
      modifies vec, vec.mStorage, h`buffers, h.allocator
      ensures h.Valid() && h.Kept(vec) && vec.OwnBlock(h)
      ensures old(vec.Compact()) ==> vec.Compact()
      ensures Drops(old(vec.Contents()), old(h.Read(item, 1))[0], cmp, r, vec.ShrinkRefused(h, 1), vec.Contents())
      ensures Within(old(vec.Contents()), old(h.Read(item, 1))[0], cmp) ==> Ordered(vec.Contents(), cmp)
      ensures h.allocator.grants(old(h.allocator.requests)) ==> !vec.ShrinkRefused(h, 1)
      ensures h.allocator.grants(old(h.allocator.requests)) && !TooBig(MIN_CAPACITY * vec.mItemSize) ==> r.Returned?
      ensures Within(old(vec.Contents()), old(h.Read(item, 1))[0], cmp) ==>
                (r.Aborted? <==> !Missing(old(vec.Contents()), old(h.Read(item, 1))[0], cmp)
                                 && 1 <= old(vec.mCount) && old(vec.ShrinkAborts(h, 1)))
    {
      hide TooBig, Ordered, TotalPreorder, Finds, Missing, Drops, Removed, Heap.Valid;
      ghost var was, x := vec.Contents(), h.Read(item, 1)[0];
      var i, order := IndexOrderOf(h, item);
      r := Returned(i);
      if Within(was, x, cmp) {
        if 0 <= i {
          OldItem(was, x, cmp, i, order);
        } else {
          NewItem(was, x, cmp, order);
        }
      }
      if 0 <= i {
        var done := RemoveFound(h, i);
        if done.Aborted? {
          r := Aborted;
        }
      }
      DropsAt(was, x, cmp, i, order, r, vec.ShrinkRefused(h, 1), vec.Contents());
    }

    /** A map as a vector: in order, and no two items compare equal. */
    ghost predicate StrictlyReady(h: Heap)
      reads h, h.vectors, h.buffers, vec, vec.mStorage
    {
      h.Valid() && vec in h.vectors && TotalPreorder(cmp) && Strict(vec.Contents(), cmp)
    }

    /** Nothing can go wrong while there are no more than n items. */
    ghost predicate Roomy(h: Heap, n: nat) {
      (forall k :: h.allocator.grants(k)) && !GrowthTooBig(n, vec.mItemSize)
    }

    /** Another vector that has this block. */
    ghost function Keeper(h: Heap, buffer: SharedBuffer?): (w: VectorImpl?)
      reads h`vectors, h.vectors`mStorage
      ensures w != null ==> w in h.vectors && w != vec && w.mStorage == buffer
      ensures w == null ==> forall v :: v in h.vectors && v != vec ==> v.mStorage != buffer
    {
      if exists v :: v in h.vectors && v != vec && v.mStorage == buffer then
        var v :| v in h.vectors && v != vec && v.mStorage == buffer;
        v
      else null
    }

    /** The items of a merge are in `buffer`. Either they are t and will stay so, because
        another vector has the block too; or the block is this vector's `own`, and then it
        will stay that and hold as many items as t. */
    ghost predicate Lasting(h: Heap, buffer: SharedBuffer?, t: seq<Item>, own: bool)
      reads h, h.vectors, h.buffers, buffer, vec, vec.mStorage
    {
      t != [] ==>
        && buffer != null && buffer in h.buffers && !buffer.freed && |buffer.items| == |t|
        && if own then vec.mStorage == buffer && !vec.Shared() else buffer.items == t && Keeper(h, buffer) != null
    }

    lemma LastsAtFirst(h: Heap, v: VectorImpl)
      requires Ready(h) && v in h.vectors
      ensures Lasting(h, v.mStorage, v.Contents(), v == vec && !vec.Shared())
    {
      h.Inspect(v);
      if v == vec && vec.Shared() {
        var w := h.OtherOwner(vec);
      }
    }

    /** One item of a merge is added. */
    method AddFrom(h: Heap, buffer: SharedBuffer?, i: nat, ghost t: seq<Item>, ghost own: bool, ghost most: nat)
        returns (r: Outcome<int>)
      requires Ready(h) && Signed() && Lasting(h, buffer, t, own) && i < |t| && |vec.Contents()| < most
      modifies vec, vec.mStorage, h`buffers, h.allocator
      ensures h.Kept(vec) && vec.OwnBlock(h) && Ready(h) && Lasting(h, buffer, t, own)
      ensures old(vec.Compact()) ==> vec.Compact()
      ensures own ==> i < |old(vec.Contents())|
      ensures vec.Contents() == if r.Returned? && 0 <= r.value
                                then Added(old(vec.Contents()), if own then old(vec.Contents())[i] else t[i], cmp)
                                else old(vec.Contents())
      ensures r.Returned? && r.value < 0 ==> r.value == NO_MEMORY && h.allocator.Denied(old(h.allocator.requests))
      ensures r.Aborted? ==> old(vec.Shared()) || GrowthTooBig(|old(vec.Contents())| + 1, vec.mItemSize)
      ensures old(!vec.Shared()) ==> !vec.Shared()
      ensures Roomy(h, most) ==> r.Returned? && 0 <= r.value
    {
      hide TotalPreorder, Ordered, Strict, Added, Missing, GrowthTooBig, Order, Heap.ValidOpen, Heap.NoneLost,
        VectorImpl.Shared, SharedBuffer.Laid;
      ghost var was, x := vec.Contents(), buffer.items[i];
      TooBigLater(|was| + 1, most, vec.mItemSize);
      ghost var w: VectorImpl? := Keeper(h, buffer);
      if own {
        OwnIsNotMissing(was, i, cmp);
        AddedFromItself(was, i, cmp);
      }
      r := Add(h, Inside(buffer, i));
      if !own {
        h.Inspect(w);
      }
    }

    /** One turn of the loop in merge. */
    method MergeItem(h: Heap, buffer: SharedBuffer?, i: nat, ghost s: seq<Item>, ghost t: seq<Item>, ghost own: bool,
                     ghost most: nat)
        returns (r: Outcome<int>)
      requires Ready(h) && Ordered(s, cmp) && Lasting(h, buffer, t, own) && i < |t| && (own ==> s == t)
      requires vec.Contents() == SoFar(s, t, own, i, cmp) && |s| + |t| <= most && Indexable(|s| + |t|)
      modifies vec, vec.mStorage, h`buffers, h.allocator
      ensures h.Kept(vec) && vec.OwnBlock(h) && Ready(h) && Lasting(h, buffer, t, own)
      ensures old(vec.Compact()) ==> vec.Compact()
      ensures vec.Contents() == SoFar(s, t, own, if r.Returned? && 0 <= r.value then i + 1 else i, cmp)
      ensures r.Returned? && r.value < 0 ==> r.value == NO_MEMORY && h.allocator.Denied(old(h.allocator.requests))
      ensures r.Aborted? ==> old(vec.Shared()) || GrowthTooBig(|s| + |t|, vec.mItemSize)
      ensures old(!vec.Shared()) ==> !vec.Shared()
      ensures Roomy(h, most) ==> r.Returned? && 0 <= r.value
    {
      hide Ordered, TotalPreorder, Strict, Added, GrowthTooBig, Heap.Valid, SortedVectorImpl.Lasting;
      if own {
        MergedInPlaceKeeps(s, i, cmp);
      } else {
        MergedSize(s, t, i, cmp);
      }
      LengthIsSigned(h, |s| + |t|);
      TooBigLater(|vec.Contents()| + 1, |s| + |t|, vec.mItemSize);
      r := AddFrom(h, buffer, i, t, own, most);
    }

    /** merge of a vector in any order, perhaps of this vector itself: its items are added
        one after the other, until one cannot be added. */
    method MergeVector(h: Heap, v: VectorImpl, ghost most: nat) returns (r: Outcome<int>, ghost n: nat)
      requires Ready(h) && v in h.vectors
      requires |vec.Contents()| + |v.Contents()| <= most && Indexable(|vec.Contents()| + |v.Contents()|)
      modifies vec, vec.mStorage, h`buffers, h.allocator
      ensures h.Kept(vec) && vec.OwnBlock(h) && Ready(h)
      ensures old(vec.Compact()) ==> vec.Compact()
      ensures n <= |old(v.Contents())|
      ensures vec.Contents() ==
              SoFar(old(vec.Contents()), old(v.Contents()), v == vec && !old(vec.Shared()), n, cmp)
      ensures r.Returned? ==> r.value == if n == |old(v.Contents())| then NO_ERROR else NO_MEMORY
      ensures r.Aborted? ==> n < |old(v.Contents())|
      ensures r == Returned(NO_MEMORY) ==> h.allocator.Denied(old(h.allocator.requests))
      ensures r.Aborted? ==>
                || old(vec.Shared())
                || GrowthTooBig(|old(vec.Contents())| + |old(v.Contents())|, vec.mItemSize)
      ensures Roomy(h, most) ==> r == Returned(NO_ERROR)
    {
      hide Ordered, TotalPreorder, Strict, Added, GrowthTooBig, Heap.Valid, VectorImpl.Shared, Indexable, Lasting;
      h.Inspect(v);
      LastsAtFirst(h, v);
      ghost var s, t, own := vec.Contents(), v.Contents(), v == vec && !vec.Shared();
      ghost var from := h.allocator.requests;
      var buffer := v.mStorage;
      var i, count := 0, v.mCount;
      r, n := Returned(NO_ERROR), 0;
      while i < count
        invariant 0 <= i == n <= count == |t| && r == Returned(NO_ERROR)
        invariant h.Kept(vec) && vec.OwnBlock(h) && Ready(h) && Lasting(h, buffer, t, own)
        invariant old(vec.Compact()) ==> vec.Compact()
        invariant old(vec.Shared()) || !vec.Shared()
        invariant from <= h.allocator.requests && vec.Contents() == SoFar(s, t, own, n, cmp)
      {
        var one := MergeItem(h, buffer, i, s, t, own, most);
        if one.Aborted? || one.value < 0 {
          r := one;
          break;
        }
        i, n := i + 1, n + 1;
      }
    }

    /** All items of another vector are put in at one place. */
    method InsertAll(h: Heap, v: VectorImpl, at: Size, ghost most: nat) returns (r: Outcome<int>)
      requires h.Valid() && vec in h.vectors && v in h.vectors && v.Contents() != []
      requires v == vec ==> vec.Shared()
      requires at <= |vec.Contents()| && at <= SSIZE_MAX && |vec.Contents()| + |v.Contents()| <= most
      modifies vec, vec.mStorage, h`buffers, h.allocator
      ensures h.Valid() && h.Kept(vec) && vec.OwnBlock(h)
      ensures old(vec.Compact()) ==> vec.Compact()
      ensures if r.Returned? && 0 <= r.value
              then r.value == at && vec.Contents() == Inserted(old(vec.Contents()), at, old(v.Contents()))
              else vec.Contents() == old(vec.Contents())
      ensures r.Returned? && r.value < 0 ==> r.value == NO_MEMORY && h.allocator.Denied(old(h.allocator.requests))
      ensures r.Aborted? <==> old(vec.GrowAborts(h, |v.Contents()|))
      ensures Roomy(h, most) ==> r == Returned(at)
    {
      hide Inserted, GrowthTooBig, Heap.Valid, VectorImpl.Workable;
      h.Inspect(vec);
      h.Inspect(v);
      TooBigLater(|vec.Contents()| + |v.Contents()|, most, vec.mItemSize);
      assert Roomy(h, most) ==> h.allocator.grants(h.allocator.requests);
      r := vec.InsertVectorAt(h, v, at);
      h.allocator.RefusedIsDenied(old(h.allocator.requests));
    }

    /** If nobody shares the block, its items must not all be equal: then they would be
        inserted in front of themselves, while they are moved. */
    ghost predicate MayMergeItself()
      reads vec, vec.mStorage
    {
      vec.Shared() || vec.Contents() == [] || 0 < cmp(vec.Contents()[|vec.Contents()| - 1], vec.Contents()[0])
    }

    /** What merge does where it compares the ends of the two vectors. */
    method MergeEnds(h: Heap, other: VectorImpl, ghost most: nat) returns (r: Outcome<int>, ghost n: nat)
      requires Ready(h) && other in h.vectors
      requires vec.Contents() != [] && other.Contents() != []
      requires other == vec ==> MayMergeItself()
      requires |vec.Contents()| + |other.Contents()| <= most && Indexable(|vec.Contents()| + |other.Contents()|)
      modifies vec, vec.mStorage, h`buffers, h.allocator
      ensures h.Valid() && h.Kept(vec) && vec.OwnBlock(h)
      ensures old(vec.Compact()) ==> vec.Compact()
      ensures n <= |old(other.Contents())|
      ensures Merges(old(vec.Contents()), old(other.Contents()), other == vec && !old(vec.Shared()), cmp, r, n,
                     vec.Contents())
      ensures r.Returned? && r.value < 0 ==> h.allocator.Denied(old(h.allocator.requests))
      ensures r.Aborted? ==>
                || old(vec.Shared())
                || GrowthTooBig(|old(vec.Contents())| + |old(other.Contents())|, vec.mItemSize)
      ensures Roomy(h, most) ==> r.Returned? && 0 <= r.value
    {
      hide Ordered, TotalPreorder, Strict, GrowthTooBig, Inserted, Merges, Merged, Heap.Valid, Heap.ValidOpen,
        Heap.NoneLost, VectorImpl.Shared, SharedBuffer.Laid;
      h.Inspect(vec);
      h.Inspect(other);
      LengthIsSigned(h, |vec.Contents()| + |other.Contents()|);
      ghost var s, t, own := vec.Contents(), other.Contents(), other == vec && !vec.Shared();
      if own {
        Symmetric(s[|s| - 1], s[0], cmp);
      }
      n := 0;
      var first, last := other.mStorage.slots[0].value, other.mStorage.slots[other.mCount - 1].value;
      var low, high := vec.mStorage.slots[0].value, vec.mStorage.slots[vec.mCount - 1].value;
      assert first == t[0] && last == t[|t| - 1] && low == s[0] && high == s[|s| - 1];
      if cmp(last, low) <= 0 {
        r := InsertAll(h, other, 0, most);
        MergesAtEnd(s, t, cmp, r, 0, vec.Contents());
      } else if cmp(first, high) >= 0 {
        r := InsertAll(h, other, vec.mCount, most);
        MergesAtEnd(s, t, cmp, r, |s|, vec.Contents());
      } else {
        r, n := MergeVector(h, other, most);
        MergesOneByOne(s, t, own, cmp, r, n, vec.Contents());
      }
    }

    /** merge of a sorted vector, with shortcuts if one comes before the other. */
    method Merge(h: Heap, other: SortedVectorImpl, ghost most: nat) returns (r: Outcome<int>, ghost n: nat)
      requires Ready(h) && other.vec in h.vectors && (other.vec == vec ==> MayMergeItself())
      requires |vec.Contents()| + |other.vec.Contents()| <= most
      requires Indexable(|vec.Contents()| + |other.vec.Contents()|)
      // the first item of this vector is looked at
      requires other.vec.Contents() != [] ==> vec.Contents() != []
      modifies vec, vec.mStorage, h`buffers, h.allocator
      ensures h.Valid() && h.Kept(vec) && vec.OwnBlock(h)
      ensures old(vec.Compact()) ==> vec.Compact()
      ensures old(other.vec.Contents()) == [] ==> r == Returned(NO_ERROR) && vec.Contents() == old(vec.Contents())
      ensures old(other.vec.Contents()) != [] ==>
                && n <= |old(other.vec.Contents())|
                && Merges(old(vec.Contents()), old(other.vec.Contents()), other.vec == vec && !old(vec.Shared()), cmp,
                          r, n, vec.Contents())
      ensures r.Returned? && r.value < 0 ==> h.allocator.Denied(old(h.allocator.requests))
      ensures old(other.vec.Contents()) != [] && r.Returned? && 0 <= r.value ==>
                Tells(old(vec.Contents()), old(other.vec.Contents()), cmp, r.value, vec.Contents())
      // a sorted source leaves this vector sorted; whether it is still a map is a matter of ties
      ensures old(Ordered(other.vec.Contents(), cmp)) ==> Ready(h)
      ensures old(other.vec.Contents() != [] && StrictlyReady(h) && Strict(other.vec.Contents(), cmp)) ==>
                r.Returned? && 0 <= r.value ==>
                  (StrictlyReady(h) <==> old(NoTie(vec.Contents(), other.vec.Contents(), cmp)))
      ensures r.Aborted? ==>
                || old(vec.Shared())
                || GrowthTooBig(|old(vec.Contents())| + |old(other.vec.Contents())|, vec.mItemSize)
      ensures Roomy(h, most) ==> r.Returned? && 0 <= r.value
    {
      hide Ordered, TotalPreorder, Strict, Merges, GrowthTooBig, NoTie, Heap.Valid, Heap.ValidOpen;
      h.Inspect(other.vec);
      n := 0;
      if other.vec.mCount == 0 {
        return Returned(NO_ERROR), n;
      }
      ghost var s, t, own := vec.Contents(), other.vec.Contents(), other.vec == vec && !vec.Shared();
      r, n := MergeEnds(h, other.vec, most);
      MergesOrdered(s, t, own, cmp, r, n, vec.Contents());
      MergesTells(s, t, own, cmp, r, n, vec.Contents());
    }
  }

  // ----- runs

  /** What one operation did: nothing, all of it, or the beginning of a merge. */
  ghost predicate Took(op: SortedOp<Item>, took: seq<SortedOp<Item>>) {
    || took == [] || took == [op]
    || (op.MergeItems? && exists n :: 0 <= n <= |op.items| && took == [MergeItems(op.items[..n])])
  }

  ghost function AfterTook(s: seq<Item>, took: seq<SortedOp<Item>>, cmp: Comparator<Item>): seq<Item>
    requires |took| <= 1
  {
    if took == [] then s else Applied(s, took[0], cmp)
  }

  lemma TookStrict(s: seq<Item>, took: seq<SortedOp<Item>>, cmp: Comparator<Item>)
    requires TotalPreorder(cmp) && Strict(s, cmp) && |took| <= 1
    ensures Strict(AfterTook(s, took, cmp), cmp)
  {
    if took != [] {
      match took[0]
      case AddItem(x) => AddedIsStrict(s, x, cmp);
      case RemoveItem(x) => DroppedIsStrict(s, x, cmp);
      case MergeItems(t) => MergeIsStrict(s, t, |t|, cmp);
    }
  }

  lemma TookAdd(s: seq<Item>, x: Item, cmp: Comparator<Item>, r: Outcome<int>, now: seq<Item>)
    requires |s| <= SSIZE_MAX && Adds(s, x, cmp, r, now)
    ensures now == AfterTook(s, if r.Returned? && 0 <= r.value then [AddItem(x)] else [], cmp)
  {
  }

  lemma TookRemove(s: seq<Item>, x: Item, cmp: Comparator<Item>, r: Outcome<int>, refused: bool, now: seq<Item>)
    requires TotalPreorder(cmp) && Strict(s, cmp)
    requires |s| <= SSIZE_MAX && Drops(s, x, cmp, r, refused, now)
    ensures now == AfterTook(s, if r.Returned? && (!refused || r.value < 0) then [RemoveItem(x)] else [], cmp)
  {
    if r.Returned? && r.value < 0 {
      assert !Equals(s, x, cmp, Order(s, x, cmp));
    }
  }

  lemma TookMerge(s: seq<Item>, t: seq<Item>, n: nat, cmp: Comparator<Item>)
    requires n <= |t|
    ensures Merged(s, t, n, cmp) == AfterTook(s, [MergeItems(t[..n])], cmp)
    ensures n == |t| ==> t[..n] == t
    ensures Took(MergeItems(t), [MergeItems(t[..n])])
  {
    MergedPrefix(s, t, n, n, cmp);
  }

  /** One operation of a run. The items of a merge come from the vector `other`. */
  method Perform(h: Heap, sv: SortedVectorImpl, op: SortedOp<Item>, other: VectorImpl, ghost most: nat)
      returns (died: bool, ghost took: seq<SortedOp<Item>>)
    requires sv.Ready(h) && Strict(sv.vec.Contents(), sv.cmp) && other in h.vectors && other != sv.vec
    requires op.MergeItems? ==> other.Contents() == op.items
    requires sv.Signed() && |sv.vec.Contents()| + Growth(op) <= most
    requires sv.Indexable(|sv.vec.Contents()| + Growth(op))
    modifies sv.vec, sv.vec.mStorage, h`buffers, h.allocator
    ensures h.Kept(sv.vec) && sv.vec.OwnBlock(h) && sv.Ready(h)
    ensures |took| <= 1 && Took(op, took) && sv.vec.Contents() == AfterTook(old(sv.vec.Contents()), took, sv.cmp)
    ensures sv.Roomy(h, most) && !TooBig(MIN_CAPACITY * sv.vec.mItemSize) ==> !died && took == [op]
    ensures !died && took != [op] ==> h.allocator.Denied(old(h.allocator.requests))
  {
    hide Ordered, TotalPreorder, Strict, Adds, Drops, Merged, AfterTook, GrowthTooBig, TooBig, Heap.Valid;
    ghost var s := sv.vec.Contents();
    assert sv.Roomy(h, most) ==> h.allocator.grants(h.allocator.requests);
    match op
    case AddItem(x) =>
      TooBigLater(|s| + 1, most, sv.vec.mItemSize);
      assert h.Read(Outside([x]), 1)[0] == x;
      var r := sv.Add(h, Outside([x]));
      TookAdd(s, x, sv.cmp, r, sv.vec.Contents());
      died, took := r.Aborted?, if r.Returned? && 0 <= r.value then [op] else [];
    case RemoveItem(x) =>
      assert h.Read(Outside([x]), 1)[0] == x;
      var r := sv.Remove(h, Outside([x]));
      ghost var refused := sv.vec.ShrinkRefused(h, 1);
      h.allocator.RefusedIsDenied(old(h.allocator.requests));
      TookRemove(s, x, sv.cmp, r, refused, sv.vec.Contents());
      died, took := r.Aborted?, if r.Returned? && (!refused || r.value < 0) then [op] else [];
    case MergeItems(t) =>
      var r, n := sv.MergeVector(h, other, most);
      TookMerge(s, t, n, sv.cmp);
      died, took := r.Aborted?, [MergeItems(t[..n])];
  }

  /** Every merge finds its items in a vector of its own. */
  ghost predicate Supplied(h: Heap, sv: SortedVectorImpl, ops: seq<SortedOp<Item>>, others: seq<VectorImpl>)
    reads h`vectors, others, set v | v in others :: v.mStorage
  {
    && |others| == |ops|
    && forall k :: 0 <= k < |ops| ==>
          others[k] in h.vectors && others[k] != sv.vec && (ops[k].MergeItems? ==> others[k].Contents() == ops[k].items)
  }

  /** `taken` is what the first k operations did. The requests from marks[i] up to
      marks[i + 1] are those of operation i, and if it did not do all it should, one of
      them was refused, or the process died in it. */
  ghost predicate TakenFrom(grants: nat -> bool, ops: seq<SortedOp<Item>>, k: nat, died: bool,
                            taken: seq<SortedOp<Item>>, marks: seq<nat>)
    requires k <= |ops| && k < |marks|
  {
    if k == 0 then taken == []
    else
      exists took :: TookLast(grants, ops[k - 1], died, taken, took, marks[k - 1], marks[k])
        && |took| <= |taken| && TakenFrom(grants, ops, k - 1, false, taken[..|taken| - |took|], marks)
  }

  ghost predicate TookLast(grants: nat -> bool, op: SortedOp<Item>, died: bool, taken: seq<SortedOp<Item>>,
                           took: seq<SortedOp<Item>>, lo: nat, hi: nat)
  {
    && lo <= hi && |took| <= |taken| && taken[|taken| - |took|..] == took && Took(op, took)
    && (took == [op] || died || DeniedIn(grants, lo, hi))
  }

  /** What comes later does not matter. */
  lemma {:induction false} TakenPrefix(grants: nat -> bool, ops: seq<SortedOp<Item>>, k: nat,
                                       died: bool, taken: seq<SortedOp<Item>>, marks: seq<nat>, more: seq<nat>)
    requires k <= |ops| && k < |marks| && TakenFrom(grants, ops, k, died, taken, marks)
    ensures TakenFrom(grants, ops, k, died, taken, marks + more)
  {
    hide TookLast;
    if k != 0 {
      var took :| TookLast(grants, ops[k - 1], died, taken, took, marks[k - 1], marks[k])
        && |took| <= |taken| && TakenFrom(grants, ops, k - 1, false, taken[..|taken| - |took|], marks);
      TakenPrefix(grants, ops, k - 1, false, taken[..|taken| - |took|], marks, more);
      assert (marks + more)[k - 1] == marks[k - 1] && (marks + more)[k] == marks[k];
    }
  }

  lemma TakenNext(grants: nat -> bool, ops: seq<SortedOp<Item>>, k: nat, taken: seq<SortedOp<Item>>,
                  took: seq<SortedOp<Item>>, marks: seq<nat>, mark: nat, died: bool)
    requires k < |ops| && |marks| == k + 1 && TakenFrom(grants, ops, k, false, taken, marks)
    requires |took| <= 1 && Took(ops[k], took) && marks[k] <= mark
    requires took == [ops[k]] || died || DeniedIn(grants, marks[k], mark)
    ensures TakenFrom(grants, ops, k + 1, died, taken + took, marks + [mark])
  {
    hide Took, DeniedIn;
    TakenPrefix(grants, ops, k, false, taken, marks, [mark]);
    assert (taken + took)[..|taken + took| - |took|] == taken;
    assert TookLast(grants, ops[k], died, taken + took, took, marks[k], mark);
  }

  lemma ReplayedTook(taken: seq<SortedOp<Item>>, took: seq<SortedOp<Item>>, cmp: Comparator<Item>)
    requires |took| <= 1
    ensures Replayed(taken + took, |taken + took|, cmp) == AfterTook(Replayed(taken, |taken|, cmp), took, cmp)
  {
    if took == [] {
      assert taken + took == taken;
    } else {
      assert took == [took[0]];
      ReplayedNext(taken, took[0], cmp);
    }
  }

  lemma AppliedSize(s: seq<Item>, op: SortedOp<Item>, took: seq<SortedOp<Item>>, cmp: Comparator<Item>)
    requires |took| <= 1 && Took(op, took)
    ensures |AfterTook(s, took, cmp)| <= |s| + Growth(op)
  {
    if took != [] && op.MergeItems? {
      MergedSize(s, took[0].items, |took[0].items|, cmp);
    }
  }

  /** No operation makes the vector longer than it may become. */
  lemma GrowthNext(ops: seq<SortedOp<Item>>, k: nat, s: seq<Item>, took: seq<SortedOp<Item>>, cmp: Comparator<Item>)
    requires k < |ops| && |s| <= TotalGrowth(ops, k)
    ensures |s| + Growth(ops[k]) <= TotalGrowth(ops, |ops|)
    ensures |took| <= 1 && Took(ops[k], took) ==> |AfterTook(s, took, cmp)| <= TotalGrowth(ops, k + 1)
  {
    GrowthSoFar(ops, k + 1, |ops|);
    if |took| <= 1 && Took(ops[k], took) {
      AppliedSize(s, ops[k], took, cmp);
    }
  }

  lemma NextPrefix<T>(ops: seq<T>, k: nat)
    requires k < |ops|
    ensures ops[..k] + [ops[k]] == ops[..k + 1]
  {
  }

  /** Where a run is after k operations. */
  ghost predicate Midway(h: Heap, sv: SortedVectorImpl, ops: seq<SortedOp<Item>>, others: seq<VectorImpl>, k: nat,
                         died: bool, taken: seq<SortedOp<Item>>, marks: seq<nat>)
    reads h, h.vectors, h.buffers, h.allocator`requests, sv.vec, sv.vec.mStorage
    reads others, set v | v in others :: v.mStorage
  {
    && k <= |ops| && sv.Ready(h) && Strict(sv.vec.Contents(), sv.cmp) && Supplied(h, sv, ops, others)
    && |marks| == k + 1 && marks[k] == h.allocator.requests
    && TakenFrom(h.allocator.grants, ops, k, died, taken, marks)
    && sv.vec.Contents() == Replayed(taken, |taken|, sv.cmp)
    && |sv.vec.Contents()| <= TotalGrowth(ops, k)
  }

  /** Nothing can go wrong, and nothing has. */
  ghost predicate Smooth(h: Heap, sv: SortedVectorImpl, ops: seq<SortedOp<Item>>, k: nat, taken: seq<SortedOp<Item>>) {
    && sv.Roomy(h, TotalGrowth(ops, |ops|)) && !TooBig(MIN_CAPACITY * sv.vec.mItemSize)
    && k <= |ops| && taken == ops[..k]
  }

  /** What is known of a run when one more operation has been performed. */
  lemma RunNext(a: Allocator, ops: seq<SortedOp<Item>>, k: nat, was: seq<Item>, taken: seq<SortedOp<Item>>,
                took: seq<SortedOp<Item>>, marks: seq<nat>, died: bool, cmp: Comparator<Item>)
    requires k < |ops| && |marks| == k + 1 && TakenFrom(a.grants, ops, k, false, taken, marks)
    requires TotalPreorder(cmp) && Strict(was, cmp) && was == Replayed(taken, |taken|, cmp)
    requires |was| <= TotalGrowth(ops, k)
    requires |took| <= 1 && Took(ops[k], took) && marks[k] <= a.requests
    requires took == [ops[k]] || died || a.Denied(marks[k])
    ensures TakenFrom(a.grants, ops, k + 1, died, taken + took, marks + [a.requests])
    ensures AfterTook(was, took, cmp) == Replayed(taken + took, |taken + took|, cmp)
    ensures Strict(AfterTook(was, took, cmp), cmp) && |AfterTook(was, took, cmp)| <= TotalGrowth(ops, k + 1)
    ensures taken == ops[..k] && took == [ops[k]] ==> taken + took == ops[..k + 1]
  {
    hide Ordered, TotalPreorder, Strict, Replayed, TakenFrom, TotalGrowth, AfterTook, Took, DeniedIn;
    TakenNext(a.grants, ops, k, taken, took, marks, a.requests, died);
    ReplayedTook(taken, took, cmp);
    GrowthNext(ops, k, was, took, cmp);
    TookStrict(was, took, cmp);
    NextPrefix(ops, k);
  }

  /** One turn of a run. */
  method RunOne(h: Heap, sv: SortedVectorImpl, ops: seq<SortedOp<Item>>, others: seq<VectorImpl>, k: nat,
                ghost taken: seq<SortedOp<Item>>, ghost marks: seq<nat>)
      returns (died: bool, ghost more: seq<SortedOp<Item>>)
    requires k < |ops| && Midway(h, sv, ops, others, k, false, taken, marks)
    requires sv.Indexable(TotalGrowth(ops, |ops|))
    modifies sv.vec, sv.vec.mStorage, h`buffers, h.allocator
    ensures h.Kept(sv.vec) && sv.vec.OwnBlock(h)
    ensures Midway(h, sv, ops, others, k + 1, died, more, marks + [h.allocator.requests])
    ensures Smooth(h, sv, ops, k, taken) ==> !died && Smooth(h, sv, ops, k + 1, more)
  {
    hide Ordered, TotalPreorder, Strict, Replayed, TakenFrom, TotalGrowth, GrowthTooBig, TooBig, AfterTook, Took,
      DeniedIn, Heap.ValidOpen;
    ghost var was := sv.vec.Contents();
    GrowthNext(ops, k, was, [], sv.cmp);
    sv.LengthIsSigned(h, TotalGrowth(ops, |ops|));
    ghost var took;
    died, took := Perform(h, sv, ops[k], others[k], TotalGrowth(ops, |ops|));
    more := taken + took;
    RunNext(h.allocator, ops, k, was, taken, took, marks, died, sv.cmp);
  }

  /** The rest of a run. */
  method RunFrom(h: Heap, sv: SortedVectorImpl, ops: seq<SortedOp<Item>>, others: seq<VectorImpl>, k: nat,
                 ghost taken: seq<SortedOp<Item>>, ghost marks: seq<nat>)
      returns (n: nat, died: bool, ghost all: seq<SortedOp<Item>>, ghost ends: seq<nat>)
    requires Midway(h, sv, ops, others, k, false, taken, marks) && sv.Indexable(TotalGrowth(ops, |ops|))
    modifies sv.vec, sv.vec.mStorage, h`buffers, h.allocator
    ensures h.Kept(sv.vec) && sv.vec.OwnBlock(h)
    ensures Midway(h, sv, ops, others, n, died, all, ends) && (n < |ops| ==> died)
    ensures Smooth(h, sv, ops, k, taken) ==> !died && Smooth(h, sv, ops, n, all)
    decreases |ops| - k
  {
    hide Ordered, TotalPreorder, Strict, Replayed, TakenFrom, TotalGrowth, Supplied, Smooth;
    n, died, all, ends := k, false, taken, marks;
    if k < |ops| {
      n := k + 1;
      died, all := RunOne(h, sv, ops, others, k, taken, marks);
      ends := marks + [h.allocator.requests];
      if !died {
        n, died, all, ends := RunFrom(h, sv, ops, others, k + 1, all, ends);
      }
    }
  }

  /** Every run of operations on a sorted vector that was empty leaves a strictly
      ascending vector that is the map made by what the operations did. One that did not
      do all it should had a request refused, or the process died in it; with enough
      memory all of them do. */
  method Run(h: Heap, sv: SortedVectorImpl, ops: seq<SortedOp<Item>>, others: seq<VectorImpl>)
      returns (n: nat, died: bool, ghost taken: seq<SortedOp<Item>>, ghost marks: seq<nat>)
    requires sv.Ready(h) && sv.vec.Contents() == [] && Supplied(h, sv, ops, others)
    requires sv.Indexable(TotalGrowth(ops, |ops|))
    modifies sv.vec, sv.vec.mStorage, h`buffers, h.allocator
    ensures h.Kept(sv.vec) && h.Accounts() && sv.StrictlyReady(h)
    ensures n <= |ops| && (n < |ops| ==> died)
    ensures |marks| == n + 1 && marks[n] == h.allocator.requests
    ensures TakenFrom(h.allocator.grants, ops, n, died, taken, marks)
    ensures sv.vec.Contents() == Replayed(taken, |taken|, sv.cmp)
    ensures forall key :: Lookup(sv.vec.Contents(), key, sv.cmp) == Mapped(taken, |taken|, key, sv.cmp)
    ensures sv.Roomy(h, TotalGrowth(ops, |ops|)) && !TooBig(MIN_CAPACITY * sv.vec.mItemSize) ==>
              !died && n == |ops| && taken == ops
  {
    n, died, taken, marks := RunFrom(h, sv, ops, others, 0, [], [h.allocator.requests]);
    LookupsAreMapped(taken, sv.cmp);
    assert ops[..|ops|] == ops;
  }

  lemma LookupsAreMapped(ops: seq<SortedOp<Item>>, cmp: Comparator<Item>)
    requires TotalPreorder(cmp)
    ensures forall key :: Lookup(Replayed(ops, |ops|, cmp), key, cmp) == Mapped(ops, |ops|, key, cmp)
  {
    forall key
      ensures Lookup(Replayed(ops, |ops|, cmp), key, cmp) == Mapped(ops, |ops|, key, cmp)
    {
      RunIsMap(ops, |ops|, key, cmp);
    }
  }
}
