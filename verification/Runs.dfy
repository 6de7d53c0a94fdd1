/**
 Whole runs of vector operations. Vectors may share blocks in any way, yet every
 run shows what independent sequences would show.
 */
module Runs {
  import opened Machine
  import opened Policy
  import opened SharedBuffers
  import opened Sequences
  import opened StableSort
  import opened Vectors

  /** Operations on one vector that take nothing from another. */
  datatype Edit =
    | InsertItems(index: Size, items: seq<Item>)
    | InsertCopies(index: Size, item: Item, count: Size)
    | InsertNew(index: Size, count: Size)
    | ReplaceItem(index: Size, item: Item)
    | ReplaceNew(index: Size)
    | RemoveItems(index: Size, count: Size)
    | Resize(size: Size)
    | Clear
    | Pop
    | Reserve(capacity: Size)
    | SortItems(cmp: Comparator<Item>)

  /** Operations on vectors numbered from 0 on; `to` is the one that changes. */
  datatype Op =
    | Create
    | CopyOf(from: nat)
    | AssignTo(to: nat, from: nat)
    | Change(to: nat, edit: Edit)
    | InsertVector(to: nat, from: nat, index: Size)
    | ReplaceFrom(to: nat, index: Size, from: nat, at: nat)
    | Finish(to: nat)

  /** The operation took effect, with the items its constructors made; or it was
      refused and changed nothing; or it ended the process. */
  datatype Verdict = Done(made: seq<Item>) | Refused | Died

  predicate Names(op: Op, i: nat) {
    match op
    case Create => false
    case CopyOf(_) => false
    case _ => op.to == i
  }

  /** What the arguments of a call have to be. */
  predicate Sane(e: Edit) {
    match e
    case InsertItems(_, items) => |items| <= SIZE_MAX
    case RemoveItems(index, count) => index + count <= SIZE_MAX
    case _ => true
  }

  /** The vectors named exist. */
  predicate Legal(op: Op, n: nat) {
    match op
    case Create => true
    case CopyOf(from) => from < n
    case AssignTo(to, from) => to < n && from < n
    case Change(to, e) => to < n && Sane(e)
    case InsertVector(to, from, _) => to < n && from < n
    case ReplaceFrom(to, _, from, _) => to < n && from < n
    case Finish(to) => to < n
  }

  /** What the operation does to a sequence. */
  function Edited(s: seq<Item>, e: Edit, made: seq<Item>): seq<Item> {
    match e
    case InsertItems(index, items) => if index <= |s| then Inserted(s, index, items) else s
    case InsertCopies(index, item, count) => if index <= |s| then Inserted(s, index, Repeat(item, count)) else s
    case InsertNew(index, _) => if index <= |s| then Inserted(s, index, made) else s
    case ReplaceItem(index, item) => if index < |s| then s[index := item] else s
    case ReplaceNew(index) => if index < |s| && made != [] then s[index := made[0]] else s
    case RemoveItems(index, count) => if index + count <= |s| then Removed(s, index, count) else s
    case Resize(size) => if size <= |s| then s[..size] else s + made
    case Clear => []
    case Pop => if s == [] then s else s[..|s| - 1]
    case Reserve(_) => s
    case SortItems(cmp) => if |s| <= SSIZE_MAX then Sort(s, cmp) else s
  }

  /** How many items the operation has its constructors make. */
  function NumberMade(s: seq<Item>, e: Edit): nat {
    match e
    case InsertNew(index, count) => if index <= |s| then count else 0
    case ReplaceNew(index) => if index < |s| then 1 else 0
    case Resize(size) => if size <= |s| then 0 else size - |s|
    case _ => 0
  }

  /** What the operation does to independent sequences. */
  function Apply(vals: seq<seq<Item>>, op: Op, made: seq<Item>): (r: seq<seq<Item>>)
    requires Legal(op, |vals|)
    ensures |r| == |vals| + if Creates(op) then 1 else 0
  {
    match op
    case Create => vals + [[]]
    case CopyOf(from) => vals + [vals[from]]
    case AssignTo(to, from) => vals[to := vals[from]]
    case Change(to, e) => vals[to := Edited(vals[to], e, made)]
    case InsertVector(to, from, index) =>
      if index <= |vals[to]| then vals[to := Inserted(vals[to], index, vals[from])] else vals
    case ReplaceFrom(to, index, from, at) =>
      if index < |vals[to]| && at < |vals[from]| then vals[to := vals[to][index := vals[from][at]]] else vals
    case Finish(to) => vals[to := []]
  }

  /** The requests the operation may make are within the address space. */
  predicate ModestEdit(s: seq<Item>, e: Edit, itemSize: nat) {
    match e
    case InsertItems(_, items) => !GrowthTooBig(|s| + |items|, itemSize)
    case InsertCopies(_, _, count) => !GrowthTooBig(|s| + count, itemSize)
    case InsertNew(_, count) => !GrowthTooBig(|s| + count, itemSize)
    case Resize(size) => !GrowthTooBig(size, itemSize) && !TooBig(MIN_CAPACITY * itemSize)
    case RemoveItems(_, _) => !TooBig(MIN_CAPACITY * itemSize)
    case Clear => !TooBig(MIN_CAPACITY * itemSize)
    case Pop => !TooBig(MIN_CAPACITY * itemSize)
    case Reserve(capacity) => !TooBig(capacity * itemSize)
    case _ => true
  }

  /** A vector is inserted into itself. */
  predicate SelfInsertion(op: Op) {
    op.InsertVector? && op.to == op.from
  }

  /** The same for all operations. A vector is inserted into itself only while it has
      its block in common with others or has room, which sequences do not tell. */
  predicate Modest(vals: seq<seq<Item>>, op: Op, itemSize: nat)
    requires Legal(op, |vals|)
  {
    match op
    case Change(to, e) => ModestEdit(vals[to], e, itemSize)
    case InsertVector(to, from, _) => to != from && !GrowthTooBig(|vals[to]| + |vals[from]|, itemSize)
    case _ => true
  }

  /** What the element type fixes for all its vectors. */
  datatype Traits = Traits(itemSize: nat, flags: Flags, blank: Item)

  /** The constructors of the type can have made these items. */
  ghost predicate CanMake(t: Traits, made: seq<Item>) {
    !t.flags.trivialCtor ==> made == Repeat(t.blank, |made|)
  }

  /** These are the items the operation has made. */
  ghost predicate Makes(vals: seq<seq<Item>>, op: Op, made: seq<Item>, t: Traits)
    requires Legal(op, |vals|)
  {
    |made| == (if op.Change? then NumberMade(vals[op.to], op.edit) else 0) && CanMake(t, made)
  }

  /** Vectors of one element type in a valid heap, which has all that was allocated. */
  ghost predicate Ready(h: Heap, vs: seq<VectorImpl>, t: Traits)
    reads h, h.vectors, h.buffers, h.allocator, vs
  {
    && h.Valid() && h.NoneLost() && h.allocator.temps == {}
    && 1 <= t.itemSize
    && (forall i :: 0 <= i < |vs| ==> vs[i] in h.vectors && TraitsOf(vs[i]) == t)
    && (forall i, j :: 0 <= i < j < |vs| ==> vs[i] != vs[j])
  }

  function TraitsOf(v: VectorImpl): Traits {
    Traits(v.mItemSize, v.mFlags, v.blank)
  }

  ghost predicate Shows(vs: seq<VectorImpl>, vals: seq<seq<Item>>)
    reads vs, set v | v in vs :: v.mStorage
  {
    |vs| == |vals| && forall i :: 0 <= i < |vs| ==> vs[i].Contents() == vals[i]
  }

  /** count <= capacity <= max(4, 2 * count + 1), for all vectors. */
  ghost predicate AllCompact(vs: seq<VectorImpl>)
    reads vs, set v | v in vs :: v.mStorage
  {
    forall i :: 0 <= i < |vs| ==> vs[i].Compact()
  }

  /** The allocator grants all requests. */
  ghost predicate Ample(a: Allocator) {
    forall n :: a.grants(n)
  }

  // Each edit of one vector, with its outcome told as a verdict.

  /** The sequence s has become r by the edit, as far as the verdict says. */
  ghost predicate Shown(s: seq<Item>, e: Edit, verdict: Verdict, t: Traits, r: seq<Item>) {
    && r == (if verdict.Done? then Edited(s, e, verdict.made) else s)
    && (verdict.Done? ==> |verdict.made| == NumberMade(s, e) && CanMake(t, verdict.made))
  }

  method InsertItemsIn(h: Heap, v: VectorImpl, index: Size, items: seq<Item>)
      returns (ghost verdict: Verdict, died: bool)
    requires h.Valid() && v in h.vectors && |items| <= SIZE_MAX
    modifies v, v.mStorage, h`buffers, h.allocator
    ensures h.Accounts() && h.Valid() && h.Kept(v)
    ensures old(v.Compact()) ==> v.Compact()
    ensures Shown(old(v.Contents()), InsertItems(index, items), verdict, TraitsOf(v), v.Contents())
    ensures Ample(h.allocator) && ModestEdit(old(v.Contents()), InsertItems(index, items), v.mItemSize) ==>
              verdict.Done?
    ensures verdict.Refused? ==> h.allocator.Denied(old(h.allocator.requests))
    ensures verdict.Died? ==> old(v.Shared()) || !ModestEdit(old(v.Contents()), InsertItems(index, items), v.mItemSize)
    ensures died <==> verdict.Died?
  {
    hide Heap.Valid, Inserted, GrowthTooBig;
    h.Inspect(v);
    var r := v.InsertArrayAt(h, Outside(items), index, |items|);
    assert items[..|items|] == items;
    assert Ample(h.allocator) ==> h.allocator.grants(old(h.allocator.requests));
    h.allocator.RefusedIsDenied(old(h.allocator.requests));
    died := r.Aborted?;
    verdict := if died then Died else if index <= old(v.mCount) && v.GrowRefused(h, |items|) then Refused else Done([]);
  }

  method InsertCopiesIn(h: Heap, v: VectorImpl, index: Size, item: Item, count: Size)
      returns (ghost verdict: Verdict, died: bool)
    requires h.Valid() && v in h.vectors
    modifies v, v.mStorage, h`buffers, h.allocator
    ensures h.Accounts() && h.Valid() && h.Kept(v)
    ensures old(v.Compact()) ==> v.Compact()
    ensures Shown(old(v.Contents()), InsertCopies(index, item, count), verdict, TraitsOf(v), v.Contents())
    ensures Ample(h.allocator) && ModestEdit(old(v.Contents()), InsertCopies(index, item, count), v.mItemSize) ==>
              verdict.Done?
    ensures verdict.Refused? ==> h.allocator.Denied(old(h.allocator.requests))
    ensures verdict.Died? ==>
              old(v.Shared()) || !ModestEdit(old(v.Contents()), InsertCopies(index, item, count), v.mItemSize)
    ensures died <==> verdict.Died?
  {
    hide Heap.Valid, Inserted, GrowthTooBig;
    h.Inspect(v);
    ghost var piece;
    var r;
    assert h.Read(Outside([item]), 1)[0] == item;
    r, piece := v.InsertAt(h, Some(Outside([item])), index, count);
    assert Ample(h.allocator) ==> h.allocator.grants(old(h.allocator.requests));
    h.allocator.RefusedIsDenied(old(h.allocator.requests));
    died := r.Aborted?;
    verdict := if died then Died else if index <= old(v.mCount) && v.GrowRefused(h, count) then Refused else Done([]);
  }

  method InsertNewIn(h: Heap, v: VectorImpl, index: Size, count: Size) returns (ghost verdict: Verdict, died: bool)
    requires h.Valid() && v in h.vectors
    modifies v, v.mStorage, h`buffers, h.allocator
    ensures h.Accounts() && h.Valid() && h.Kept(v)
    ensures old(v.Compact()) ==> v.Compact()
    ensures Shown(old(v.Contents()), InsertNew(index, count), verdict, TraitsOf(v), v.Contents())
    ensures Ample(h.allocator) && ModestEdit(old(v.Contents()), InsertNew(index, count), v.mItemSize) ==> verdict.Done?
    ensures verdict.Refused? ==> h.allocator.Denied(old(h.allocator.requests))
    ensures verdict.Died? ==> old(v.Shared()) || !ModestEdit(old(v.Contents()), InsertNew(index, count), v.mItemSize)
    ensures died <==> verdict.Died?
  {
    hide Heap.Valid, Inserted, GrowthTooBig;
    h.Inspect(v);
    ghost var piece;
    var r;
    r, piece := v.InsertAt(h, None, index, count);
    assert Ample(h.allocator) ==> h.allocator.grants(old(h.allocator.requests));
    h.allocator.RefusedIsDenied(old(h.allocator.requests));
    died := r.Aborted?;
    verdict := if died then Died
               else if index > old(v.mCount) then Done([])
               else if v.GrowRefused(h, count) then Refused
               else Done(piece);
  }

  method ReplaceItemIn(h: Heap, v: VectorImpl, index: Size, item: Item) returns (ghost verdict: Verdict, died: bool)
    requires h.Valid() && v in h.vectors
    modifies v, v.mStorage, h`buffers, h.allocator
    ensures h.Accounts() && h.Valid() && h.Kept(v)
    ensures old(v.Compact()) ==> v.Compact()
    ensures Shown(old(v.Contents()), ReplaceItem(index, item), verdict, TraitsOf(v), v.Contents())
    ensures Ample(h.allocator) && ModestEdit(old(v.Contents()), ReplaceItem(index, item), v.mItemSize) ==> verdict.Done?
    ensures verdict.Refused? ==> h.allocator.Denied(old(h.allocator.requests))
    ensures verdict.Died? ==> old(v.Shared()) || !ModestEdit(old(v.Contents()), ReplaceItem(index, item), v.mItemSize)
    ensures died <==> verdict.Died?
  {
    h.Inspect(v);
    assert h.Read(Outside([item]), 1)[0] == item;
    ghost var put;
    var r;
    r, put := v.ReplaceAt(h, Some(Outside([item])), index);
    assert Ample(h.allocator) ==> h.allocator.grants(old(h.allocator.requests));
    died := r.Aborted?;
    verdict := if died then Died else Done([]);
  }

  method ReplaceNewIn(h: Heap, v: VectorImpl, index: Size) returns (ghost verdict: Verdict, died: bool)
    requires h.Valid() && v in h.vectors
    modifies v, v.mStorage, h`buffers, h.allocator
    ensures h.Accounts() && h.Valid() && h.Kept(v)
    ensures old(v.Compact()) ==> v.Compact()
    ensures Shown(old(v.Contents()), ReplaceNew(index), verdict, TraitsOf(v), v.Contents())
    ensures Ample(h.allocator) && ModestEdit(old(v.Contents()), ReplaceNew(index), v.mItemSize) ==> verdict.Done?
    ensures verdict.Refused? ==> h.allocator.Denied(old(h.allocator.requests))
    ensures verdict.Died? ==> old(v.Shared()) || !ModestEdit(old(v.Contents()), ReplaceNew(index), v.mItemSize)
    ensures died <==> verdict.Died?
  {
    h.Inspect(v);
    ghost var put;
    var r;
    r, put := v.ReplaceAt(h, None, index);
    assert Ample(h.allocator) ==> h.allocator.grants(old(h.allocator.requests));
    died := r.Aborted?;
    verdict := if died then Died else Done(if index < old(v.mCount) then [put] else []);
  }

  method RemoveIn(h: Heap, v: VectorImpl, index: Size, count: Size) returns (ghost verdict: Verdict, died: bool)
    requires h.Valid() && v in h.vectors && index + count <= SIZE_MAX
    modifies v, v.mStorage, h`buffers, h.allocator
    ensures h.Accounts() && h.Valid() && h.Kept(v)
    ensures old(v.Compact()) ==> v.Compact()
    ensures Shown(old(v.Contents()), RemoveItems(index, count), verdict, TraitsOf(v), v.Contents())
    ensures Ample(h.allocator) && ModestEdit(old(v.Contents()), RemoveItems(index, count), v.mItemSize) ==>
              verdict.Done?
    ensures verdict.Refused? ==> h.allocator.Denied(old(h.allocator.requests))
    ensures verdict.Died? ==> old(v.Shared()) || !ModestEdit(old(v.Contents()), RemoveItems(index, count), v.mItemSize)
    ensures died <==> verdict.Died?
  {
    hide Heap.Valid;
    h.Inspect(v);
    v.ShrinkNeverTooBig(h, count);
    var r := v.RemoveItemsAt(h, index, count);
    assert Ample(h.allocator) ==> h.allocator.grants(old(h.allocator.requests));
    h.allocator.RefusedIsDenied(old(h.allocator.requests));
    died := r.Aborted?;
    verdict := if died then Died
               else if index + count <= old(v.mCount) && v.ShrinkRefused(h, count) then Refused else Done([]);
  }

  method ResizeIn(h: Heap, v: VectorImpl, size: Size) returns (ghost verdict: Verdict, died: bool)
    requires h.Valid() && v in h.vectors
    modifies v, v.mStorage, h`buffers, h.allocator
    ensures h.Accounts() && h.Valid() && h.Kept(v)
    ensures old(v.Compact()) ==> v.Compact()
    ensures Shown(old(v.Contents()), Resize(size), verdict, TraitsOf(v), v.Contents())
    ensures Ample(h.allocator) && ModestEdit(old(v.Contents()), Resize(size), v.mItemSize) ==> verdict.Done?
    ensures verdict.Refused? ==> h.allocator.Denied(old(h.allocator.requests))
    ensures verdict.Died? ==> old(v.Shared()) || !ModestEdit(old(v.Contents()), Resize(size), v.mItemSize)
    ensures died <==> verdict.Died?
  {
    hide Heap.Valid;
    h.Inspect(v);
    ghost var n := v.mCount;
    if size <= v.mCount {
      v.ShrinkNeverTooBig(h, v.mCount - size);
    }
    ghost var piece;
    var r;
    r, piece := v.Resize(h, size);
    assert Ample(h.allocator) ==> h.allocator.grants(old(h.allocator.requests));
    h.allocator.RefusedIsDenied(old(h.allocator.requests));
    died := r.Aborted?;
    verdict := if died then Died
               else if size > n && v.GrowRefused(h, size - n) then Refused
               else if size < n && v.ShrinkRefused(h, n - size) then Refused
               else Done(if size > n then piece else []);
  }

  method ClearIn(h: Heap, v: VectorImpl) returns (ghost verdict: Verdict, died: bool)
    requires h.Valid() && v in h.vectors
    modifies v, v.mStorage, h`buffers, h.allocator
    ensures h.Accounts() && h.Valid() && h.Kept(v)
    ensures old(v.Compact()) ==> v.Compact()
    ensures Shown(old(v.Contents()), Clear, verdict, TraitsOf(v), v.Contents())
    ensures Ample(h.allocator) && ModestEdit(old(v.Contents()), Clear, v.mItemSize) ==> verdict.Done?
    ensures verdict.Refused? ==> h.allocator.Denied(old(h.allocator.requests))
    ensures verdict.Died? ==> old(v.Shared()) || !ModestEdit(old(v.Contents()), Clear, v.mItemSize)
    ensures died <==> verdict.Died?
  {
    hide Heap.Valid;
    h.Inspect(v);
    v.ShrinkNeverTooBig(h, v.mCount);
    var r := v.Clear(h);
    assert Ample(h.allocator) ==> h.allocator.grants(old(h.allocator.requests));
    h.allocator.RefusedIsDenied(old(h.allocator.requests));
    died := r.Aborted?;
    verdict := if died then Died else if v.ShrinkRefused(h, old(v.mCount)) then Refused else Done([]);
  }

  method PopIn(h: Heap, v: VectorImpl) returns (ghost verdict: Verdict, died: bool)
    requires h.Valid() && v in h.vectors
    modifies v, v.mStorage, h`buffers, h.allocator
    ensures h.Accounts() && h.Valid() && h.Kept(v)
    ensures old(v.Compact()) ==> v.Compact()
    ensures Shown(old(v.Contents()), Pop, verdict, TraitsOf(v), v.Contents())
    ensures Ample(h.allocator) && ModestEdit(old(v.Contents()), Pop, v.mItemSize) ==> verdict.Done?
    ensures verdict.Refused? ==> h.allocator.Denied(old(h.allocator.requests))
    ensures verdict.Died? ==> old(v.Shared()) || !ModestEdit(old(v.Contents()), Pop, v.mItemSize)
    ensures died <==> verdict.Died?
  {
    hide Heap.Valid;
    h.Inspect(v);
    v.ShrinkNeverTooBig(h, 1);
    var r := v.Pop(h);
    assert Ample(h.allocator) ==> h.allocator.grants(old(h.allocator.requests));
    h.allocator.RefusedIsDenied(old(h.allocator.requests));
    died := r.Aborted?;
    verdict := if died then Died
               else if old(v.mCount) != 0 && v.ShrinkRefused(h, 1) then Refused else Done([]);
  }

  method ReserveIn(h: Heap, v: VectorImpl, capacity: Size) returns (ghost verdict: Verdict, died: bool)
    requires h.Valid() && v in h.vectors
    modifies v, v.mStorage, h`buffers, h.allocator
    ensures h.Accounts() && h.Valid() && h.Kept(v)
    ensures Shown(old(v.Contents()), Reserve(capacity), verdict, TraitsOf(v), v.Contents())
    ensures Ample(h.allocator) && ModestEdit(old(v.Contents()), Reserve(capacity), v.mItemSize) ==> verdict.Done?
    ensures verdict.Refused? ==> h.allocator.Denied(old(h.allocator.requests))
    ensures verdict.Died? ==> old(v.Shared()) || !ModestEdit(old(v.Contents()), Reserve(capacity), v.mItemSize)
    ensures died <==> verdict.Died?
  {
    h.Inspect(v);
    var r := v.SetCapacity(h, capacity);
    died := r.Aborted?;
    verdict := if died then Died else Done([]);
  }

  method SortIn(h: Heap, v: VectorImpl, cmp: Comparator<Item>) returns (ghost verdict: Verdict, died: bool)
    requires h.Valid() && v in h.vectors
    modifies v, v.mStorage, h`buffers, h.allocator
    ensures h.Accounts() && h.Valid() && h.Kept(v)
    ensures old(v.Compact()) ==> v.Compact()
    ensures Shown(old(v.Contents()), SortItems(cmp), verdict, TraitsOf(v), v.Contents())
    ensures Ample(h.allocator) && ModestEdit(old(v.Contents()), SortItems(cmp), v.mItemSize) ==> verdict.Done?
    ensures verdict.Refused? ==> h.allocator.Denied(old(h.allocator.requests))
    ensures verdict.Died? ==> old(v.Shared()) || !ModestEdit(old(v.Contents()), SortItems(cmp), v.mItemSize)
    ensures died <==> verdict.Died?
  {
    h.Inspect(v);
    ghost var moves;
    var r;
    r, moves := v.SortBy(h, cmp);
    died := r.Aborted?;
    verdict := if died then Died else if r.value == NO_ERROR then Done([]) else Refused;
  }

  method EditIn(h: Heap, v: VectorImpl, e: Edit) returns (ghost verdict: Verdict, died: bool)
    requires h.Valid() && v in h.vectors && Sane(e)
    modifies v, v.mStorage, h`buffers, h.allocator
    ensures h.Accounts() && h.Valid() && h.Kept(v)
    ensures old(v.Compact()) && !e.Reserve? ==> v.Compact()
    ensures Shown(old(v.Contents()), e, verdict, TraitsOf(v), v.Contents())
    ensures Ample(h.allocator) && ModestEdit(old(v.Contents()), e, v.mItemSize) ==> verdict.Done?
    ensures verdict.Refused? ==> h.allocator.Denied(old(h.allocator.requests))
    ensures verdict.Died? ==> old(v.Shared()) || !ModestEdit(old(v.Contents()), e, v.mItemSize)
    ensures died <==> verdict.Died?
  {
    hide Edited, NumberMade, ModestEdit;
    match e
    case InsertItems(index, items) => verdict, died := InsertItemsIn(h, v, index, items);
    case InsertCopies(index, item, count) => verdict, died := InsertCopiesIn(h, v, index, item, count);
    case InsertNew(index, count) => verdict, died := InsertNewIn(h, v, index, count);
    case ReplaceItem(index, item) => verdict, died := ReplaceItemIn(h, v, index, item);
    case ReplaceNew(index) => verdict, died := ReplaceNewIn(h, v, index);
    case RemoveItems(index, count) => verdict, died := RemoveIn(h, v, index, count);
    case Resize(size) => verdict, died := ResizeIn(h, v, size);
    case Clear => verdict, died := ClearIn(h, v);
    case Pop => verdict, died := PopIn(h, v);
    case Reserve(capacity) => verdict, died := ReserveIn(h, v, capacity);
    case SortItems(cmp) => verdict, died := SortIn(h, v, cmp);
  }

  /** Another vector, or the vector itself while that is possible, is inserted. */
  method InsertVectorIn(h: Heap, v: VectorImpl, index: Size, from: VectorImpl)
      returns (ghost verdict: Verdict, died: bool)
    requires h.Valid() && v in h.vectors && from in h.vectors
    modifies v, v.mStorage, h`buffers, h.allocator
    ensures h.Accounts() && h.Valid() && h.Kept(v)
    ensures old(v.Compact()) ==> v.Compact()
    ensures verdict == Done([]) || verdict == Refused || verdict == Died
    ensures v.Contents() == if verdict.Done? && index <= |old(v.Contents())|
                            then Inserted(old(v.Contents()), index, old(from.Contents())) else old(v.Contents())
    ensures Ample(h.allocator) && !GrowthTooBig(|old(v.Contents())| + |old(from.Contents())|, v.mItemSize) ==>
              verdict.Done? || (v == from && !old(v.Shared() || (2 * v.mCount <= v.Room() && v.mCount <= index)))
    ensures verdict.Refused? ==>
              || h.allocator.Denied(old(h.allocator.requests))
              || (v == from && !old(v.Shared() || (2 * v.mCount <= v.Room() && v.mCount <= index)))
    ensures died <==> verdict.Died?
  {
    hide Heap.Valid, Inserted, GrowthTooBig;
    h.Inspect(v);
    h.Inspect(from);
    ghost var count := from.mCount;
    if v == from {
      var cap := v.Capacity();
      var shared := v.mStorage != null && v.mStorage.mRefs != 1;
      if !shared && (cap < 2 * v.mCount || index < v.mCount) {
        return Refused, false;
      }
    }
    var r := v.InsertVectorAt(h, from, index);
    assert Ample(h.allocator) ==> h.allocator.grants(old(h.allocator.requests));
    h.allocator.RefusedIsDenied(old(h.allocator.requests));
    died := r.Aborted?;
    verdict := if died then Died else if index <= old(v.mCount) && v.GrowRefused(h, count) then Refused else Done([]);
  }

  /** An item is replaced by one that is in a vector, perhaps in the same one. */
  method ReplaceFromIn(h: Heap, v: VectorImpl, index: Size, from: VectorImpl, at: nat)
      returns (ghost verdict: Verdict, died: bool)
    requires h.Valid() && v in h.vectors && from in h.vectors
    modifies v, v.mStorage, h`buffers, h.allocator
    ensures h.Accounts() && h.Valid() && h.Kept(v)
    ensures old(v.Compact()) ==> v.Compact()
    ensures verdict == Done([]) || verdict == Died
    ensures v.Contents() == if verdict.Done? && index < |old(v.Contents())| && at < |old(from.Contents())|
                            then old(v.Contents())[index := old(from.Contents()[at])] else old(v.Contents())
    ensures Ample(h.allocator) ==> verdict.Done?
    ensures died <==> verdict.Died?
  {
    h.Inspect(v);
    h.Inspect(from);
    verdict, died := Done([]), false;
    if at < from.mCount {
      assert h.Read(Inside(from.mStorage, at), 1)[0] == from.Contents()[at];
      ghost var put;
      var r;
      r, put := v.ReplaceAt(h, Some(Inside(from.mStorage, at)), index);
      assert Ample(h.allocator) ==> h.allocator.grants(old(h.allocator.requests));
      died := r.Aborted?;
      verdict := if died then Died else Done([]);
    }
  }

  method StepCreate(h: Heap, vs: seq<VectorImpl>, t: Traits, ghost vals: seq<seq<Item>>)
      returns (r: seq<VectorImpl>)
    requires Ready(h, vs, t) && Shows(vs, vals)
    modifies h`vectors
    ensures old(AllCompact(vs)) ==> AllCompact(r)
    ensures Ready(h, r, t) && vs <= r && Shows(r, Apply(vals, Create, []))
    ensures fresh(h.vectors - old(h.vectors))
  {
    var v := new VectorImpl(h, t.itemSize, t.flags, t.blank);
    r := vs + [v];
  }

  method StepCopy(h: Heap, vs: seq<VectorImpl>, ghost t: Traits, ghost vals: seq<seq<Item>>, from: nat)
      returns (r: seq<VectorImpl>)
    requires Ready(h, vs, t) && Shows(vs, vals) && from < |vs|
    modifies h`vectors, h.buffers
    ensures old(AllCompact(vs)) ==> AllCompact(r)
    ensures Ready(h, r, t) && vs <= r && Shows(r, Apply(vals, CopyOf(from), []))
    ensures fresh(h.vectors - old(h.vectors))
  {
    hide Heap.Valid;
    h.Inspect(vs[from]);
    var v := new VectorImpl.Copy(h, vs[from]);
    r := vs + [v];
  }

  method StepAssign(h: Heap, vs: seq<VectorImpl>, ghost t: Traits, ghost vals: seq<seq<Item>>, to: nat, from: nat)
    requires Ready(h, vs, t) && Shows(vs, vals) && to < |vs| && from < |vs|
    modifies vs[to], h.buffers
    ensures Ready(h, vs, t) && Shows(vs, Apply(vals, AssignTo(to, from), []))
    ensures old(AllCompact(vs)) ==> AllCompact(vs)
  {
    hide Heap.Valid;
    h.Inspect(vs[to]);
    h.Inspect(vs[from]);
    var r := vs[to].Assign(h, vs[from]);
  }

  method StepEdit(h: Heap, vs: seq<VectorImpl>, ghost t: Traits, ghost vals: seq<seq<Item>>, to: nat, e: Edit)
      returns (ghost verdict: Verdict, died: bool)
    requires Ready(h, vs, t) && Shows(vs, vals) && to < |vs| && Sane(e)
    modifies vs[to], h`buffers, h.buffers, h.allocator
    ensures h.Accounts() && Ready(h, vs, t)
    ensures Shows(vs, if verdict.Done? then Apply(vals, Change(to, e), verdict.made) else vals)
    ensures verdict.Done? ==> Makes(vals, Change(to, e), verdict.made, t)
    ensures Ample(h.allocator) && Modest(vals, Change(to, e), t.itemSize) ==> verdict.Done?
    ensures old(AllCompact(vs)) && !e.Reserve? ==> AllCompact(vs)
    ensures verdict.Refused? ==> h.allocator.Denied(old(h.allocator.requests))
    ensures died <==> verdict.Died?
  {
    hide Heap.Valid,
      Edited, NumberMade, ModestEdit, CanMake;
    h.Inspect(vs[to]);
    verdict, died := EditIn(h, vs[to], e);
  }

  method StepInsertVector(h: Heap, vs: seq<VectorImpl>, ghost t: Traits, ghost vals: seq<seq<Item>>,
                          to: nat, from: nat, index: Size)
      returns (ghost verdict: Verdict, died: bool)
    requires Ready(h, vs, t) && Shows(vs, vals) && to < |vs| && from < |vs|
    modifies vs[to], h`buffers, h.buffers, h.allocator
    ensures h.Accounts() && Ready(h, vs, t)
    ensures verdict == Done([]) || verdict == Refused || verdict == Died
    ensures Shows(vs, if verdict.Done? then Apply(vals, InsertVector(to, from, index), []) else vals)
    ensures Ample(h.allocator) && Modest(vals, InsertVector(to, from, index), t.itemSize) ==> verdict.Done?
    ensures old(AllCompact(vs)) ==> AllCompact(vs)
    ensures verdict.Refused? ==>
              h.allocator.Denied(old(h.allocator.requests)) || SelfInsertion(InsertVector(to, from, index))
    ensures died <==> verdict.Died?
  {
    hide Heap.Valid, Heap.ValidOpen, Heap.NoneLost, GrowthTooBig, Inserted;
    h.Inspect(vs[to]);
    assert to != from ==> vs[from] != vs[to];
    assert vs[to].Contents() == vals[to] && vs[from].Contents() == vals[from];
    verdict, died := InsertVectorIn(h, vs[to], index, vs[from]);
    assert vs[to].Contents() == if verdict.Done? && index <= |vals[to]|
                                then Inserted(vals[to], index, vals[from]) else vals[to];
  }

  method StepReplaceFrom(h: Heap, vs: seq<VectorImpl>, ghost t: Traits, ghost vals: seq<seq<Item>>,
                         to: nat, index: Size, from: nat, at: nat)
      returns (ghost verdict: Verdict, died: bool)
    requires Ready(h, vs, t) && Shows(vs, vals) && to < |vs| && from < |vs|
    modifies vs[to], h`buffers, h.buffers, h.allocator
    ensures h.Accounts() && Ready(h, vs, t)
    ensures verdict == Done([]) || verdict == Died
    ensures Shows(vs, if verdict.Done? then Apply(vals, ReplaceFrom(to, index, from, at), []) else vals)
    ensures Ample(h.allocator) ==> verdict.Done?
    ensures old(AllCompact(vs)) ==> AllCompact(vs)
    ensures died <==> verdict.Died?
  {
    hide Heap.Valid, Heap.ValidOpen, GrowthTooBig, Inserted, DeniedIn;
    h.Inspect(vs[to]);
    assert to != from ==> vs[from] != vs[to];
    verdict, died := ReplaceFromIn(h, vs[to], index, vs[from], at);
  }

  method StepFinish(h: Heap, vs: seq<VectorImpl>, ghost t: Traits, ghost vals: seq<seq<Item>>, to: nat)
    requires Ready(h, vs, t) && Shows(vs, vals) && to < |vs|
    modifies vs[to], h.buffers
    ensures Ready(h, vs, t) && Shows(vs, Apply(vals, Finish(to), []))
    ensures old(AllCompact(vs)) ==> AllCompact(vs)
  {
    hide Heap.Valid;
    h.Inspect(vs[to]);
    vs[to].FinishVector(h);
  }

  predicate Creates(op: Op) {
    op.Create? || op.CopyOf?
  }

  /** The number of vectors after k operations. */
  function Born(ops: seq<Op>, k: nat): nat
    requires k <= |ops|
  {
    if k == 0 then 0 else Born(ops, k - 1) + if Creates(ops[k - 1]) then 1 else 0
  }

  /** Each operation names vectors that exist by then. */
  ghost predicate LegalRun(ops: seq<Op>) {
    forall k :: 0 <= k < |ops| ==> Legal(ops[k], Born(ops, k))
  }

  /** Verdicts on the operations so far. Making a vector always succeeds. */
  ghost predicate Verdicts(ops: seq<Op>, verdicts: seq<Verdict>) {
    && LegalRun(ops) && |verdicts| <= |ops|
    && forall k :: 0 <= k < |verdicts| ==> Creates(ops[k]) ==> verdicts[k].Done?
  }

  function After(vals: seq<seq<Item>>, op: Op, verdict: Verdict): seq<seq<Item>>
    requires Legal(op, |vals|)
  {
    if verdict.Done? then Apply(vals, op, verdict.made) else vals
  }

  /** What independent sequences hold after k operations. */
  ghost function Replay(ops: seq<Op>, verdicts: seq<Verdict>, k: nat): (vals: seq<seq<Item>>)
    requires Verdicts(ops, verdicts) && k <= |verdicts|
    ensures |vals| == Born(ops, k)
  {
    if k == 0 then [] else After(Replay(ops, verdicts, k - 1), ops[k - 1], verdicts[k - 1])
  }

  lemma {:induction false} ReplayPrefix(ops: seq<Op>, verdicts: seq<Verdict>, more: seq<Verdict>, k: nat)
    requires Verdicts(ops, verdicts) && Verdicts(ops, verdicts + more) && k <= |verdicts|
    ensures Replay(ops, verdicts + more, k) == Replay(ops, verdicts, k)
  {
    if k != 0 {
      ReplayPrefix(ops, verdicts, more, k - 1);
      assert (verdicts + more)[k - 1] == verdicts[k - 1];
    }
  }

  /** The items that verdict k says were made are ones the operation can have made. */
  ghost predicate MakesAt(ops: seq<Op>, verdicts: seq<Verdict>, k: nat, t: Traits)
    requires Verdicts(ops, verdicts) && k < |verdicts|
  {
    verdicts[k].Done? ==> Makes(Replay(ops, verdicts, k), ops[k], verdicts[k].made, t)
  }

  ghost predicate Honest(ops: seq<Op>, verdicts: seq<Verdict>, t: Traits) {
    Verdicts(ops, verdicts) && forall k :: 0 <= k < |verdicts| ==> MakesAt(ops, verdicts, k, t)
  }

  ghost predicate AllDone(verdicts: seq<Verdict>) {
    forall k :: 0 <= k < |verdicts| ==> verdicts[k].Done?
  }

  /** Whatever the constructors make: on the way through a run in which everything
      takes effect, no operation is too big. */
  ghost predicate ModestRun(ops: seq<Op>, t: Traits) {
    && LegalRun(ops)
    && forall done :: Honest(ops, done, t) && AllDone(done) && |done| < |ops| ==>
         Modest(Replay(ops, done, |done|), ops[|done|], t.itemSize)
  }

  method Step(h: Heap, vs: seq<VectorImpl>, t: Traits, ghost vals: seq<seq<Item>>, op: Op)
      returns (r: seq<VectorImpl>, ghost verdict: Verdict, died: bool)
    requires Ready(h, vs, t) && Shows(vs, vals) && Legal(op, |vs|)
    modifies h.vectors, h`vectors, h`buffers, h.buffers, h.allocator
    ensures h.Accounts()
    ensures fresh(h.vectors - old(h.vectors))
    ensures Ready(h, r, t) && vs <= r && (died <==> verdict.Died?)
    ensures Shows(r, After(vals, op, verdict)) && (verdict.Done? ==> Makes(vals, op, verdict.made, t))
    ensures verdict.Refused? ==> h.allocator.Denied(old(h.allocator.requests)) || SelfInsertion(op)
    ensures Creates(op) ==> verdict.Done?
    ensures Ample(h.allocator) && Modest(vals, op, t.itemSize) ==> verdict.Done?
    ensures old(AllCompact(vs)) && !(op.Change? && op.edit.Reserve?) ==> AllCompact(r)
  {
    assert CanMake(t, []);
    hide Apply, Modest, NumberMade, CanMake;
    r, verdict, died := vs, Done([]), false;
    match op
    case Create =>
      r := StepCreate(h, vs, t, vals);
    case CopyOf(from) =>
      r := StepCopy(h, vs, t, vals, from);
    case AssignTo(to, from) =>
      StepAssign(h, vs, t, vals, to, from);
    case Change(to, e) =>
      verdict, died := StepEdit(h, vs, t, vals, to, e);
    case InsertVector(to, from, index) =>
      verdict, died := StepInsertVector(h, vs, t, vals, to, from, index);
    case ReplaceFrom(to, index, from, at) =>
      verdict, died := StepReplaceFrom(h, vs, t, vals, to, index, from, at);
    case Finish(to) =>
      StepFinish(h, vs, t, vals, to);
  }

  /** One operation, seen from the vectors it does not name: they show what they showed,
      whatever blocks they share with the one that changes. */
  method StepAround(h: Heap, vs: seq<VectorImpl>, t: Traits, ghost vals: seq<seq<Item>>, op: Op)
      returns (r: seq<VectorImpl>, ghost verdict: Verdict, died: bool)
    requires Ready(h, vs, t) && Shows(vs, vals) && Legal(op, |vs|)
    modifies h.vectors, h`vectors, h`buffers, h.buffers, h.allocator
    ensures h.Accounts()
    ensures fresh(h.vectors - old(h.vectors))
    ensures Ready(h, r, t) && vs <= r && (died <==> verdict.Died?)
    ensures Shows(r, After(vals, op, verdict)) && (verdict.Done? ==> Makes(vals, op, verdict.made, t))
    ensures verdict.Refused? ==> h.allocator.Denied(old(h.allocator.requests)) || SelfInsertion(op)
    ensures Creates(op) ==> verdict.Done?
    ensures Ample(h.allocator) && Modest(vals, op, t.itemSize) ==> verdict.Done?
    ensures old(AllCompact(vs)) && !(op.Change? && op.edit.Reserve?) ==> AllCompact(r)
    ensures forall i :: 0 <= i < |vs| && !Names(op, i) ==> r[i] == vs[i] && r[i].Contents() == old(vs[i].Contents())
  {
    r, verdict, died := Step(h, vs, t, vals, op);
    hide Apply, Modest, Makes;
    forall i | 0 <= i < |vs| && !Names(op, i)
      ensures r[i] == vs[i] && r[i].Contents() == old(vs[i].Contents())
    {
      AfterTouchesOne(vals, op, verdict, i);
    }
  }

  /** One operation of a run. */
  method Advance(h: Heap, vs: seq<VectorImpl>, ops: seq<Op>, k: nat, t: Traits, ghost verdicts: seq<Verdict>,
                 ghost marks: seq<nat>)
      returns (r: seq<VectorImpl>, ghost longer: seq<Verdict>, died: bool)
    requires Honest(ops, verdicts, t) && k == |verdicts| < |ops|
    requires Blamed(h.allocator, ops, verdicts, marks)
    requires Ready(h, vs, t) && Shows(vs, Replay(ops, verdicts, k))
    modifies h.vectors, h`vectors, h`buffers, h.buffers, h.allocator
    ensures h.Accounts()
    ensures fresh(h.vectors - old(h.vectors))
    ensures |longer| == k + 1 && (died <==> longer[k].Died?)
    ensures Honest(ops, longer, t) && Ready(h, r, t) && Shows(r, Replay(ops, longer, k + 1))
    ensures Blamed(h.allocator, ops, longer, marks + [h.allocator.requests])
    ensures Smooth(h.allocator, ops, verdicts, t) ==> !died && Smooth(h.allocator, ops, longer, t)
    ensures NoReserve(ops) && old(AllCompact(vs)) ==> AllCompact(r)
  {
    ghost var vals := Replay(ops, verdicts, k);
    ghost var verdict;
    r, verdict, died := StepAround(h, vs, t, vals, ops[k]);
    ReplayNext(ops, verdicts, verdict, t);
    longer := verdicts + [verdict];
    BlameNext(h.allocator, old(h.allocator.requests), ops, verdicts, marks, verdict);
  }

  /** The requests from marks[k] up to marks[k + 1] are those of operation k. If it was
      refused, so was one of these requests; but a vector is not inserted into itself
      where that cannot be done. */
  ghost predicate Blamed(a: Allocator, ops: seq<Op>, verdicts: seq<Verdict>, marks: seq<nat>)
    reads a`requests
  {
    && |verdicts| <= |ops| && |marks| == |verdicts| + 1 && marks[|verdicts|] == a.requests
    && BlamedUpTo(a, ops, verdicts, marks)
  }

  ghost predicate BlamedUpTo(a: Allocator, ops: seq<Op>, verdicts: seq<Verdict>, marks: seq<nat>)
    requires |verdicts| <= |ops| && |marks| == |verdicts| + 1
  {
    forall k :: 0 <= k < |verdicts| ==> BlamedAt(a, ops[k], verdicts[k], marks[k], marks[k + 1])
  }

  ghost predicate BlamedAt(a: Allocator, op: Op, verdict: Verdict, lo: nat, hi: nat) {
    lo <= hi && (verdict.Refused? ==> DeniedIn(a.grants, lo, hi) || SelfInsertion(op))
  }

  lemma BlameNext(a: Allocator, was: nat, ops: seq<Op>, verdicts: seq<Verdict>, marks: seq<nat>, verdict: Verdict)
    requires |verdicts| < |ops| && |marks| == |verdicts| + 1 && marks[|verdicts|] == was <= a.requests
    requires BlamedUpTo(a, ops, verdicts, marks)
    requires verdict.Refused? ==> a.Denied(was) || SelfInsertion(ops[|verdicts|])
    ensures Blamed(a, ops, verdicts + [verdict], marks + [a.requests])
  {
    var longer, more := verdicts + [verdict], marks + [a.requests];
    forall k | 0 <= k < |longer|
      ensures BlamedAt(a, ops[k], longer[k], more[k], more[k + 1])
    {
      assert k < |verdicts| ==> BlamedAt(a, ops[k], verdicts[k], marks[k], marks[k + 1]);
    }
  }

  /** Nothing has gone wrong, and nothing can. */
  ghost predicate Smooth(a: Allocator, ops: seq<Op>, verdicts: seq<Verdict>, t: Traits) {
    Ample(a) && ModestRun(ops, t) && AllDone(verdicts)
  }

  /** No operation of the run asks for capacity. */
  predicate NoReserve(ops: seq<Op>) {
    forall k :: 0 <= k < |ops| ==> !(ops[k].Change? && ops[k].edit.Reserve?)
  }

  /** Every run, as far as it gets, leaves the heap valid and every vector showing
      what its own independent sequence holds. The blocks that have been allocated are
      those of the heap; as many items have been built in them and not destroyed as there
      are. A refusal has a refused request of its own. The run ends early only if it dies;
      with enough memory every operation takes effect. */
  method Run(grants: nat -> bool, ops: seq<Op>, t: Traits)
      returns (h: Heap, vs: seq<VectorImpl>, ghost verdicts: seq<Verdict>, ghost marks: seq<nat>)
    requires LegalRun(ops) && 1 <= t.itemSize
    ensures h.allocator.grants == grants && Blamed(h.allocator, ops, verdicts, marks)
    ensures Honest(ops, verdicts, t)
    ensures |verdicts| < |ops| ==> verdicts != [] && verdicts[|verdicts| - 1] == Died
    ensures Ready(h, vs, t) && Shows(vs, Replay(ops, verdicts, |verdicts|))
    ensures h.allocator.blocks == h.buffers && h.allocator.temps == {}
    ensures Built(h.buffers) == Destroyed(h.buffers) + Living(h.buffers)
    ensures NoReserve(ops) ==> AllCompact(vs)
    ensures Smooth(h.allocator, ops, [], t) ==> |verdicts| == |ops| && AllDone(verdicts)
  {
    hide Smooth, NoReserve, AllCompact, Ready, Shows, Replay, Blamed, Heap.Valid;
    h := new Heap(grants);
    vs, verdicts, marks := [], [], [0];
    BeforeTheRun(h, ops, t);
    var k, died := 0, false;
    ghost var smooth := Smooth(h.allocator, ops, [], t);
    while k < |ops| && !died
      invariant k == |verdicts| && (died ==> verdicts != [] && verdicts[|verdicts| - 1] == Died)
      invariant NoReserve(ops) ==> AllCompact(vs)
      invariant smooth ==> !died && Smooth(h.allocator, ops, verdicts, t)
      invariant fresh(h) && fresh(h.vectors) && fresh(h.buffers) && fresh(h.allocator)
      invariant Honest(ops, verdicts, t) && Ready(h, vs, t) && Shows(vs, Replay(ops, verdicts, k))
      invariant Blamed(h.allocator, ops, verdicts, marks)
      decreases |ops| - k
    {
      vs, verdicts, died := Advance(h, vs, ops, k, t, verdicts, marks);
      marks := marks + [h.allocator.requests];
      k := k + 1;
    }
    AfterTheRun(h, vs, ops, verdicts, t);
  }

  lemma BeforeTheRun(h: Heap, ops: seq<Op>, t: Traits)
    requires LegalRun(ops) && 1 <= t.itemSize && h.Valid() && h.NoneLost() && h.allocator.temps == {}
    ensures h.allocator.requests == 0 ==> Blamed(h.allocator, ops, [], [0])
    ensures Honest(ops, [], t) && Ready(h, [], t) && Shows([], Replay(ops, [], 0)) && AllCompact([])
  {
  }

  lemma AfterTheRun(h: Heap, vs: seq<VectorImpl>, ops: seq<Op>, verdicts: seq<Verdict>, t: Traits)
    requires Ready(h, vs, t)
    ensures Built(h.buffers) == Destroyed(h.buffers) + Living(h.buffers)
    ensures h.allocator.blocks == h.buffers && h.allocator.temps == {}
    ensures Smooth(h.allocator, ops, verdicts, t) ==> AllDone(verdicts)
  {
    h.LivesBalance();
  }

  lemma ReplayNext(ops: seq<Op>, verdicts: seq<Verdict>, verdict: Verdict, t: Traits)
    requires Honest(ops, verdicts, t) && |verdicts| < |ops|
    requires Creates(ops[|verdicts|]) ==> verdict.Done?
    requires var vals := Replay(ops, verdicts, |verdicts|);
      Legal(ops[|verdicts|], |vals|) && (verdict.Done? ==> Makes(vals, ops[|verdicts|], verdict.made, t))
    ensures Honest(ops, verdicts + [verdict], t)
    ensures Replay(ops, verdicts + [verdict], |verdicts| + 1) ==
            After(Replay(ops, verdicts, |verdicts|), ops[|verdicts|], verdict)
  {
    hide Apply, Makes, Legal;
    var longer := verdicts + [verdict];
    forall k | 0 <= k < |longer|
      ensures Creates(ops[k]) ==> longer[k].Done?
    {
    }
    forall k | 0 <= k < |longer|
      ensures MakesAt(ops, longer, k, t)
    {
      ReplayPrefix(ops, verdicts, [verdict], k);
      assert k < |verdicts| ==> MakesAt(ops, verdicts, k, t);
    }
    ReplayPrefix(ops, verdicts, [verdict], |verdicts|);
  }

  /** What one vector holds does not change while the operations name others,
      whatever blocks they share with it. */
  lemma {:induction false} Untouched(ops: seq<Op>, verdicts: seq<Verdict>, k: nat, n: nat, i: nat)
    requires Verdicts(ops, verdicts) && k <= n <= |verdicts| && i < Born(ops, k)
    requires forall m :: k <= m < n ==> !Names(ops[m], i)
    ensures i < Born(ops, n) && Replay(ops, verdicts, n)[i] == Replay(ops, verdicts, k)[i]
    decreases n
  {
    hide Apply, Legal, Names, Creates, CanMake;
    if k < n {
      Untouched(ops, verdicts, k, n - 1, i);
      assert Legal(ops[n - 1], Born(ops, n - 1)) && !Names(ops[n - 1], i);
      AfterTouchesOne(Replay(ops, verdicts, n - 1), ops[n - 1], verdicts[n - 1], i);
    }
  }

  lemma AfterTouchesOne(vals: seq<seq<Item>>, op: Op, verdict: Verdict, i: nat)
    requires Legal(op, |vals|) && i < |vals| && !Names(op, i)
    ensures After(vals, op, verdict)[i] == vals[i]
  {
  }
}
