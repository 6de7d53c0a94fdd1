/**
 What VectorImpl::sort promises, and the insertion sort it uses, on sequences.
 */
module StableSort {

  type Comparator<!T> = (T, T) -> int

  predicate Law<T>(cmp: Comparator<T>, x: T, y: T, z: T) {
    && (cmp(x, y) < 0 <==> 0 < cmp(y, x))
    && (cmp(x, y) <= 0 && cmp(y, z) <= 0 ==> cmp(x, z) <= 0)
  }

  /** cmp orders all items, though different items may compare equal. */
  ghost predicate TotalPreorder<T(!new)>(cmp: Comparator<T>) {
    forall x, y, z :: Law(cmp, x, y, z)
  }

  lemma Symmetric<T(!new)>(x: T, y: T, cmp: Comparator<T>)
    requires TotalPreorder(cmp)
    ensures cmp(x, y) < 0 <==> 0 < cmp(y, x)
    ensures 0 < cmp(x, y) <==> cmp(y, x) < 0
    ensures cmp(x, x) == 0
  {
    assert Law(cmp, x, y, x) && Law(cmp, y, x, x) && Law(cmp, x, x, x);
  }

  lemma Follows<T(!new)>(x: T, y: T, z: T, cmp: Comparator<T>)
    requires TotalPreorder(cmp) && cmp(x, y) <= 0 && cmp(y, z) <= 0
    ensures cmp(x, z) <= 0
  {
    assert Law(cmp, x, y, z);
  }

  ghost predicate Ordered<T>(s: seq<T>, cmp: Comparator<T>) {
    forall i, j :: 0 <= i < j < |s| ==> cmp(s[i], s[j]) <= 0
  }

  /** The item at i is not smaller than the one before it. */
  predicate AscendsAt<T>(s: seq<T>, i: int, cmp: Comparator<T>)
    requires 0 < i < |s|
  {
    cmp(s[i - 1], s[i]) <= 0
  }

  ghost predicate AscendingPairs<T>(s: seq<T>, cmp: Comparator<T>) {
    forall i :: 0 < i < |s| ==> AscendsAt(s, i, cmp)
  }

  lemma {:induction false} AscendingPairsOrdered<T(!new)>(s: seq<T>, cmp: Comparator<T>)
    requires TotalPreorder(cmp)
    ensures AscendingPairs(s, cmp) <==> Ordered(s, cmp)
  {
    if s != [] {
      var n := |s| - 1;
      AscendingPairsOrdered(s[..n], cmp);
      if AscendingPairs(s, cmp) {
        forall i | 0 < i < n
          ensures AscendsAt(s[..n], i, cmp)
        {
          assert AscendsAt(s, i, cmp);
        }
        assert n == 0 || AscendsAt(s, n, cmp);
        forall i, j | 0 <= i < j < |s|
          ensures cmp(s[i], s[j]) <= 0
        {
          if j < n {
            assert cmp(s[..n][i], s[..n][j]) <= 0;
          } else if i < n - 1 {
            assert cmp(s[..n][i], s[..n][n - 1]) <= 0;
            Follows(s[i], s[n - 1], s[n], cmp);
          }
        }
      }
    }
  }

  /** The items that compare equal to k, in the order in which they occur. */
  ghost function Class<T>(s: seq<T>, k: T, cmp: Comparator<T>): seq<T> {
    if s == [] then []
    else if cmp(s[|s| - 1], k) == 0 then Class(s[..|s| - 1], k, cmp) + [s[|s| - 1]]
    else Class(s[..|s| - 1], k, cmp)
  }

  /** b has the items of a, and equal items have kept their order. */
  ghost predicate StablePermutation<T(!new)>(a: seq<T>, b: seq<T>, cmp: Comparator<T>) {
    forall k :: Class(a, k, cmp) == Class(b, k, cmp)
  }

  /** x is put into s by stepping over greater items from the right. */
  function Insert<T>(s: seq<T>, x: T, cmp: Comparator<T>): (r: seq<T>)
    ensures |r| == |s| + 1
  {
    if s == [] || cmp(s[|s| - 1], x) <= 0 then s + [x]
    else Insert(s[..|s| - 1], x, cmp) + [s[|s| - 1]]
  }

  function Sort<T>(s: seq<T>, cmp: Comparator<T>): (r: seq<T>)
    ensures |r| == |s|
  {
    if s == [] then [] else Insert(Sort(s[..|s| - 1], cmp), s[|s| - 1], cmp)
  }

  /** How many items Insert steps over. */
  function Steps<T>(s: seq<T>, x: T, cmp: Comparator<T>): (n: nat)
    ensures n <= |s|
  {
    if s == [] || cmp(s[|s| - 1], x) <= 0 then 0
    else 1 + Steps(s[..|s| - 1], x, cmp)
  }

  /** How many items are moved one place up when s is sorted. */
  function Moves<T>(s: seq<T>, cmp: Comparator<T>): nat {
    if s == [] then 0
    else Moves(s[..|s| - 1], cmp) + Steps(Sort(s[..|s| - 1], cmp), s[|s| - 1], cmp)
  }

  /** How often an item is copied when one has to step over n others: each of them, and
      the one itself, into the temporary and out of it. */
  function CopiesFor(n: nat): nat {
    if n == 0 then 0 else n + 2
  }

  /** How many items are copied when s is sorted. */
  function Copies<T>(s: seq<T>, cmp: Comparator<T>): nat {
    if s == [] then 0
    else Copies(s[..|s| - 1], cmp) + CopiesFor(Steps(Sort(s[..|s| - 1], cmp), s[|s| - 1], cmp))
  }

  /** The pairs of positions that are in the wrong order. */
  ghost function Inversions<T>(s: seq<T>, cmp: Comparator<T>): set<(nat, nat)> {
    set i: nat, j: nat | i < j < |s| && 0 < cmp(s[i], s[j]) :: (i, j)
  }

  /** The positions with a greater item in front. */
  ghost function Late<T>(s: seq<T>, cmp: Comparator<T>): set<nat> {
    set j: nat | j < |s| && 0 < Greater(s[..j], s[j], cmp)
  }

  /** How many items of s are greater than x. */
  function Greater<T>(s: seq<T>, x: T, cmp: Comparator<T>): (n: nat)
    ensures n <= |s|
  {
    if s == [] then 0
    else Greater(s[..|s| - 1], x, cmp) + if 0 < cmp(s[|s| - 1], x) then 1 else 0
  }

  /** s after one turn of the outer loop: the item at i has gone back to its place. */
  function Turn<T>(s: seq<T>, i: nat, cmp: Comparator<T>): (r: seq<T>)
    requires i < |s|
    ensures |r| == |s|
  {
    Insert(s[..i], s[i], cmp) + s[i + 1..]
  }

  lemma TurnAt<T>(s: seq<T>, i: nat, cmp: Comparator<T>)
    requires i < |s|
    ensures forall k :: 0 <= k < |s| ==> Turn(s, i, cmp)[k] == if k <= i then Insert(s[..i], s[i], cmp)[k] else s[k]
  {
  }

  /** The outer loop from position i on, and the item moves it makes. */
  function Turns<T>(s: seq<T>, i: nat, cmp: Comparator<T>): seq<T>
    decreases |s| - i
  {
    if i >= |s| then s else Turns(Turn(s, i, cmp), i + 1, cmp)
  }

  function TurnMoves<T>(s: seq<T>, i: nat, cmp: Comparator<T>): nat
    decreases |s| - i
  {
    if i >= |s| then 0 else Steps(s[..i], s[i], cmp) + TurnMoves(Turn(s, i, cmp), i + 1, cmp)
  }

  /** The copies these moves take. */
  function TurnCopies<T>(s: seq<T>, i: nat, cmp: Comparator<T>): nat
    decreases |s| - i
  {
    if i >= |s| then 0 else CopiesFor(Steps(s[..i], s[i], cmp)) + TurnCopies(Turn(s, i, cmp), i + 1, cmp)
  }

  lemma TurnsFrom<T>(s: seq<T>, i: nat, cmp: Comparator<T>)
    requires i < |s|
    ensures Turns(s, i, cmp) == Turns(Turn(s, i, cmp), i + 1, cmp)
    ensures TurnMoves(s, i, cmp) == Steps(s[..i], s[i], cmp) + TurnMoves(Turn(s, i, cmp), i + 1, cmp)
    ensures TurnCopies(s, i, cmp) == CopiesFor(Steps(s[..i], s[i], cmp)) + TurnCopies(Turn(s, i, cmp), i + 1, cmp)
  {
  }

  lemma TurnOfPair<T>(s: seq<T>, i: nat, cmp: Comparator<T>)
    requires 1 <= i < |s| && cmp(s[i - 1], s[i]) <= 0
    ensures Turn(s, i, cmp) == s && Steps(s[..i], s[i], cmp) == 0
  {
    assert s == s[..i] + [s[i]] + s[i + 1..];
  }

  /** Turns that move nothing can be skipped. */
  lemma {:induction false} SkipTurns<T>(s: seq<T>, i: nat, cmp: Comparator<T>)
    requires 1 <= i
    requires forall k :: 0 < k < i && k < |s| ==> AscendsAt(s, k, cmp)
    ensures Turns(s, i, cmp) == Turns(s, 1, cmp) && TurnMoves(s, i, cmp) == TurnMoves(s, 1, cmp)
    ensures TurnCopies(s, i, cmp) == TurnCopies(s, 1, cmp)
  {
    if 1 < i {
      SkipTurns(s, i - 1, cmp);
      if i - 1 < |s| {
        assert AscendsAt(s, i - 1, cmp);
        TurnOfPair(s, i - 1, cmp);
      }
    }
  }

  /** s with its first i items sorted. */
  function PartlySorted<T>(s: seq<T>, i: nat, cmp: Comparator<T>): (r: seq<T>)
    requires i <= |s|
    ensures |r| == |s|
  {
    Sort(s[..i], cmp) + s[i..]
  }

  lemma PartlySortedTurn<T>(s: seq<T>, i: nat, cmp: Comparator<T>)
    requires 1 <= i < |s|
    ensures var now := PartlySorted(s, i, cmp);
      && PartlySorted(s, i + 1, cmp) == Turn(now, i, cmp)
      && Moves(s[..i + 1], cmp) == Moves(s[..i], cmp) + Steps(now[..i], now[i], cmp)
      && Copies(s[..i + 1], cmp) == Copies(s[..i], cmp) + CopiesFor(Steps(now[..i], now[i], cmp))
  {
    var now := PartlySorted(s, i, cmp);
    assert s[..i + 1][..i] == s[..i];
    assert now[..i] == Sort(s[..i], cmp) && now[i] == s[i] && now[i + 1..] == s[i + 1..];
  }

  lemma {:induction false} TurnsFinish<T>(s: seq<T>, i: nat, cmp: Comparator<T>)
    requires 1 <= i <= |s|
    ensures Turns(PartlySorted(s, i, cmp), i, cmp) == Sort(s, cmp)
    ensures Moves(s[..i], cmp) + TurnMoves(PartlySorted(s, i, cmp), i, cmp) == Moves(s, cmp)
    ensures Copies(s[..i], cmp) + TurnCopies(PartlySorted(s, i, cmp), i, cmp) == Copies(s, cmp)
    decreases |s| - i
  {
    if i == |s| {
      assert s[..i] == s;
    } else {
      PartlySortedTurn(s, i, cmp);
      TurnsFinish(s, i + 1, cmp);
    }
  }

  /** The loop of the program computes Sort. */
  lemma TurnsAreSort<T>(s: seq<T>, cmp: Comparator<T>)
    ensures Turns(s, 1, cmp) == Sort(s, cmp)
    ensures TurnMoves(s, 1, cmp) == Moves(s, cmp) && TurnCopies(s, 1, cmp) == Copies(s, cmp)
  {
    if s != [] {
      assert s[..1][..0] == [];
      assert s == s[..1] + s[1..];
      TurnsFinish(s, 1, cmp);
    }
  }

  /** Stepping over one greater item. */
  lemma StepOver<T>(s: seq<T>, n: nat, i: nat, x: T, cmp: Comparator<T>)
    requires 1 <= n <= i <= |s| && 0 < cmp(s[n - 1], x)
    ensures Insert(s[..n], x, cmp) + s[n..i] == Insert(s[..n - 1], x, cmp) + s[n - 1..i]
    ensures Steps(s[..n], x, cmp) == 1 + Steps(s[..n - 1], x, cmp)
  {
    assert s[..n][..n - 1] == s[..n - 1];
    assert s[n - 1..i] == [s[n - 1]] + s[n..i];
  }

  /** What is at k when x has been put in front of position n. */
  function Opened<T>(s: seq<T>, n: nat, x: T, k: nat): T
    requires k <= |s| && n <= |s|
  {
    if k < n then s[k] else if k == n then x else s[k - 1]
  }

  /** Where everything is once there is nothing greater to step over. */
  lemma StepStop<T>(s: seq<T>, n: nat, i: nat, x: T, cmp: Comparator<T>)
    requires n <= i <= |s| && (n == 0 || cmp(s[n - 1], x) <= 0)
    requires Insert(s[..i], x, cmp) == Insert(s[..n], x, cmp) + s[n..i]
    ensures Steps(s[..n], x, cmp) == 0
    ensures forall k :: 0 <= k <= i ==>
              Insert(s[..i], x, cmp)[k] == Opened(s, n, x, k)
  {
    assert n != 0 ==> s[..n][n - 1] == s[n - 1];
    assert Insert(s[..n], x, cmp) == s[..n] + [x];
  }

  lemma {:induction false} NothingToSort<T>(s: seq<T>, cmp: Comparator<T>)
    requires s == []
    ensures Sort(s, cmp) == [] && Moves(s, cmp) == 0 && Copies(s, cmp) == 0
  {
  }

  /** There is nothing to sort. */
  lemma {:induction false} ShortIsSorted<T>(s: seq<T>, cmp: Comparator<T>)
    requires |s| <= 1
    ensures AscendingPairs(s, cmp) && Sort(s, cmp) == s && Moves(s, cmp) == Copies(s, cmp) == 0
  {
    if s == [] {
      NothingToSort(s, cmp);
    } else {
      NothingToSort(s[..|s| - 1], cmp);
      assert s == [s[0]];
    }
  }

  // ----- the result is ordered

  lemma {:induction false} InsertMember<T>(s: seq<T>, x: T, cmp: Comparator<T>)
    ensures forall y :: y in Insert(s, x, cmp) ==> y == x || y in s
  {
    if s != [] && cmp(s[|s| - 1], x) > 0 {
      InsertMember(s[..|s| - 1], x, cmp);
    }
  }

  lemma {:induction false} InsertOrdered<T(!new)>(s: seq<T>, x: T, cmp: Comparator<T>)
    requires TotalPreorder(cmp) && Ordered(s, cmp)
    ensures Ordered(Insert(s, x, cmp), cmp)
  {
    if s != [] {
      var rest, last := s[..|s| - 1], s[|s| - 1];
      if cmp(last, x) > 0 {
        InsertOrdered(rest, x, cmp);
        InsertMember(rest, x, cmp);
        var front := Insert(rest, x, cmp);
        Symmetric(last, x, cmp);
        forall i | 0 <= i < |front|
          ensures cmp(front[i], last) <= 0
        {
          assert front[i] in front;
          if front[i] != x {
            var k :| 0 <= k < |rest| && rest[k] == front[i];
            assert cmp(s[k], s[|s| - 1]) <= 0;
          }
        }
      } else {
        forall i | 0 <= i < |s|
          ensures cmp(s[i], x) <= 0
        {
          if i < |s| - 1 {
            Follows(s[i], last, x, cmp);
          }
        }
      }
    }
  }

  lemma {:induction false} SortOrdered<T(!new)>(s: seq<T>, cmp: Comparator<T>)
    requires TotalPreorder(cmp)
    ensures Ordered(Sort(s, cmp), cmp)
  {
    if s != [] {
      SortOrdered(s[..|s| - 1], cmp);
      InsertOrdered(Sort(s[..|s| - 1], cmp), s[|s| - 1], cmp);
    }
  }

  // ----- the result is a stable permutation

  lemma ClassAppend<T>(s: seq<T>, x: T, k: T, cmp: Comparator<T>)
    ensures Class(s + [x], k, cmp) == Class(s, k, cmp) + if cmp(x, k) == 0 then [x] else []
  {
    assert (s + [x])[..|s|] == s;
  }

  lemma {:induction false} InsertStable<T(!new)>(s: seq<T>, x: T, k: T, cmp: Comparator<T>)
    requires TotalPreorder(cmp)
    ensures Class(Insert(s, x, cmp), k, cmp) == Class(s + [x], k, cmp)
  {
    if s != [] && cmp(s[|s| - 1], x) > 0 {
      var rest, last := s[..|s| - 1], s[|s| - 1];
      InsertStable(rest, x, k, cmp);
      ClassAppend(Insert(rest, x, cmp), last, k, cmp);
      ClassAppend(rest, x, k, cmp);
      ClassAppend(s, x, k, cmp);
      // last and x do not compare equal, so at most one of them is in the class of k
      Symmetric(x, k, cmp);
      assert Law(cmp, last, k, x);
    }
  }

  lemma {:induction false} SortStable<T(!new)>(s: seq<T>, cmp: Comparator<T>)
    requires TotalPreorder(cmp)
    ensures StablePermutation(s, Sort(s, cmp), cmp)
  {
    if s != [] {
      var rest, last := s[..|s| - 1], s[|s| - 1];
      SortStable(rest, cmp);
      assert s == rest + [last];
      forall k
        ensures Class(s, k, cmp) == Class(Sort(s, cmp), k, cmp)
      {
        InsertStable(Sort(rest, cmp), last, k, cmp);
        ClassAppend(Sort(rest, cmp), last, k, cmp);
      }
    }
  }

  // ----- and there is only one such result

  lemma {:induction false} ClassMember<T>(s: seq<T>, k: T, cmp: Comparator<T>)
    ensures forall y :: y in Class(s, k, cmp) ==> y in s && cmp(y, k) == 0
    ensures forall y :: y in s && cmp(y, k) == 0 ==> y in Class(s, k, cmp)
  {
    if s != [] {
      ClassMember(s[..|s| - 1], k, cmp);
      assert s == s[..|s| - 1] + [s[|s| - 1]];
    }
  }

  /** The last items agree: each is in the class of the other. */
  lemma SameLast<T(!new)>(a: seq<T>, b: seq<T>, cmp: Comparator<T>)
    requires TotalPreorder(cmp) && Ordered(a, cmp) && Ordered(b, cmp) && StablePermutation(a, b, cmp)
    requires a != [] && b != []
    ensures a[|a| - 1] == b[|b| - 1]
  {
    var x, y := a[|a| - 1], b[|b| - 1];
    Symmetric(x, y, cmp);
    Symmetric(y, x, cmp);
    ClassMember(a, x, cmp);
    ClassMember(b, x, cmp);
    ClassMember(a, y, cmp);
    ClassMember(b, y, cmp);
    assert x in Class(a, x, cmp) && x in Class(b, x, cmp) && x in b;
    assert y in Class(b, y, cmp) && y in Class(a, y, cmp) && y in a;
    assert cmp(x, y) <= 0;
    assert cmp(y, x) <= 0;
    assert Class(a, x, cmp)[|Class(a, x, cmp)| - 1] == x;
    assert Class(b, x, cmp)[|Class(b, x, cmp)| - 1] == y;
  }

  lemma OwnClass<T(!new)>(s: seq<T>, cmp: Comparator<T>)
    requires TotalPreorder(cmp) && s != []
    ensures Class(s, s[0], cmp) != []
  {
    ClassMember(s, s[0], cmp);
    Symmetric(s[0], s[0], cmp);
  }

  lemma {:induction false} OrderedStableIsUnique<T(!new)>(a: seq<T>, b: seq<T>, cmp: Comparator<T>)
    requires TotalPreorder(cmp) && Ordered(a, cmp) && Ordered(b, cmp) && StablePermutation(a, b, cmp)
    ensures a == b
    decreases |a|
  {
    if a == [] {
      if b != [] {
        OwnClass(b, cmp);
      }
    } else {
      OwnClass(a, cmp);
      SameLast(a, b, cmp);
      var a', b' := a[..|a| - 1], b[..|b| - 1];
      forall k
        ensures Class(a', k, cmp) == Class(b', k, cmp)
      {
        var last := a[|a| - 1];
        assert Class(a, k, cmp) == Class(b, k, cmp);
        if cmp(last, k) == 0 {
          assert Class(a', k, cmp) == Class(a, k, cmp)[..|Class(a, k, cmp)| - 1];
          assert Class(b', k, cmp) == Class(b, k, cmp)[..|Class(b, k, cmp)| - 1];
        }
      }
      OrderedStableIsUnique(a', b', cmp);
      assert a == a' + [a[|a| - 1]] && b == b' + [b[|b| - 1]];
    }
  }

  /** Sort is the one and only ordered stable permutation of its input. */
  lemma SortCharacterised<T(!new)>(s: seq<T>, r: seq<T>, cmp: Comparator<T>)
    requires TotalPreorder(cmp)
    ensures r == Sort(s, cmp) <==> Ordered(r, cmp) && StablePermutation(s, r, cmp)
  {
    SortOrdered(s, cmp);
    SortStable(s, cmp);
    if Ordered(r, cmp) && StablePermutation(s, r, cmp) {
      assert StablePermutation(r, Sort(s, cmp), cmp);
      OrderedStableIsUnique(r, Sort(s, cmp), cmp);
    }
  }

  // ----- the work is the disorder of the input

  lemma {:induction false} GreaterInsert<T>(s: seq<T>, x: T, k: T, cmp: Comparator<T>)
    ensures Greater(Insert(s, x, cmp), k, cmp) == Greater(s, k, cmp) + if 0 < cmp(x, k) then 1 else 0
  {
    if s == [] || cmp(s[|s| - 1], x) <= 0 {
      assert (s + [x])[..|s|] == s;
    } else {
      var rest, last := s[..|s| - 1], s[|s| - 1];
      GreaterInsert(rest, x, k, cmp);
      assert (Insert(rest, x, cmp) + [last])[..|s|] == Insert(rest, x, cmp);
    }
  }

  lemma {:induction false} GreaterSort<T>(s: seq<T>, k: T, cmp: Comparator<T>)
    ensures Greater(Sort(s, cmp), k, cmp) == Greater(s, k, cmp)
  {
    if s != [] {
      GreaterSort(s[..|s| - 1], k, cmp);
      GreaterInsert(Sort(s[..|s| - 1], cmp), s[|s| - 1], k, cmp);
    }
  }

  lemma {:induction false} NoneGreater<T>(s: seq<T>, x: T, cmp: Comparator<T>)
    requires forall i :: 0 <= i < |s| ==> cmp(s[i], x) <= 0
    ensures Greater(s, x, cmp) == 0
  {
    if s != [] {
      NoneGreater(s[..|s| - 1], x, cmp);
    }
  }

  lemma {:induction false} StepsAreGreater<T(!new)>(s: seq<T>, x: T, cmp: Comparator<T>)
    requires TotalPreorder(cmp) && Ordered(s, cmp)
    ensures Steps(s, x, cmp) == Greater(s, x, cmp)
  {
    if s != [] {
      var last := s[|s| - 1];
      if cmp(last, x) > 0 {
        StepsAreGreater(s[..|s| - 1], x, cmp);
      } else {
        forall i | 0 <= i < |s|
          ensures cmp(s[i], x) <= 0
        {
          if i < |s| - 1 {
            Follows(s[i], last, x, cmp);
          }
        }
        NoneGreater(s, x, cmp);
      }
    }
  }

  /** The inversions of s with its last position, by the number of greater items. */
  lemma {:induction false} ColumnSize<T>(s: seq<T>, x: T, j: nat, cmp: Comparator<T>)
    ensures |set i: nat | i < |s| && 0 < cmp(s[i], x) :: (i, j)| == Greater(s, x, cmp)
  {
    var column := set i: nat | i < |s| && 0 < cmp(s[i], x) :: (i, j);
    if s != [] {
      var rest, n := s[..|s| - 1], |s| - 1;
      ColumnSize(rest, x, j, cmp);
      var shorter := set i: nat | i < |rest| && 0 < cmp(rest[i], x) :: (i, j);
      if 0 < cmp(s[n], x) {
        assert column == shorter + {(n, j)};
      } else {
        assert column == shorter;
      }
    } else {
      assert column == {};
    }
  }

  lemma InversionsSplit<T>(s: seq<T>, cmp: Comparator<T>)
    requires s != []
    ensures var n := |s| - 1;
      var column := set i: nat | i < |s[..n]| && 0 < cmp(s[..n][i], s[n]) :: (i, n);
      && Inversions(s, cmp) == Inversions(s[..n], cmp) + column
      && Inversions(s[..n], cmp) !! column
  {
    var n := |s| - 1;
    var rest := s[..n];
    var column := set i: nat | i < |rest| && 0 < cmp(rest[i], s[n]) :: (i, n);
    forall p | p in Inversions(s, cmp)
      ensures p in Inversions(rest, cmp) + column
    {
      if p.1 < n {
        assert rest[p.0] == s[p.0] && rest[p.1] == s[p.1];
      } else {
        assert rest[p.0] == s[p.0];
      }
    }
    forall p | p in Inversions(rest, cmp) + column
      ensures p in Inversions(s, cmp)
    {
      assert rest[p.0] == s[p.0];
    }
  }

  lemma InversionsGrow<T>(s: seq<T>, cmp: Comparator<T>)
    requires s != []
    ensures |Inversions(s, cmp)| == |Inversions(s[..|s| - 1], cmp)| + Greater(s[..|s| - 1], s[|s| - 1], cmp)
  {
    var n := |s| - 1;
    InversionsSplit(s, cmp);
    ColumnSize(s[..n], s[n], n, cmp);
  }

  /** The number of item moves is the number of inversions. */
  lemma {:induction false} MovesAreInversions<T(!new)>(s: seq<T>, cmp: Comparator<T>)
    requires TotalPreorder(cmp)
    ensures Moves(s, cmp) == |Inversions(s, cmp)|
  {
    if s == [] {
      assert Inversions(s, cmp) == {};
    } else {
      var rest, last := s[..|s| - 1], s[|s| - 1];
      MovesAreInversions(rest, cmp);
      SortOrdered(rest, cmp);
      StepsAreGreater(Sort(rest, cmp), last, cmp);
      GreaterSort(rest, last, cmp);
      InversionsGrow(s, cmp);
    }
  }

  lemma LateSplit<T>(s: seq<T>, cmp: Comparator<T>)
    requires s != []
    ensures var n := |s| - 1;
      Late(s, cmp) == Late(s[..n], cmp) + if 0 < Greater(s[..n], s[n], cmp) then {n} else {}
  {
    var n := |s| - 1;
    forall j: nat | j < n
      ensures s[..n][..j] == s[..j]
    {
    }
  }

  /** The copies are the inversions and, for each item that has a greater one in front of
      it, the way through the temporary. */
  lemma {:induction false} CopiesOfDisorder<T(!new)>(s: seq<T>, cmp: Comparator<T>)
    requires TotalPreorder(cmp)
    ensures Copies(s, cmp) == |Inversions(s, cmp)| + 2 * |Late(s, cmp)|
  {
    if s == [] {
      assert Inversions(s, cmp) == {} && Late(s, cmp) == {};
    } else {
      var rest, last := s[..|s| - 1], s[|s| - 1];
      CopiesOfDisorder(rest, cmp);
      SortOrdered(rest, cmp);
      StepsAreGreater(Sort(rest, cmp), last, cmp);
      GreaterSort(rest, last, cmp);
      InversionsGrow(s, cmp);
      LateSplit(s, cmp);
    }
  }

  /** Sorting copies at most three items for each move. */
  lemma {:induction false} CopiesOfMoves<T>(s: seq<T>, cmp: Comparator<T>)
    ensures Copies(s, cmp) <= 3 * Moves(s, cmp)
  {
    if s != [] {
      CopiesOfMoves(s[..|s| - 1], cmp);
    }
  }

  // ----- ordered input stays as it is

  lemma {:induction false} SortOfOrdered<T>(s: seq<T>, cmp: Comparator<T>)
    requires Ordered(s, cmp)
    ensures Sort(s, cmp) == s && Moves(s, cmp) == 0
  {
    if s != [] {
      var rest, last := s[..|s| - 1], s[|s| - 1];
      SortOfOrdered(rest, cmp);
      assert s == rest + [last];
      assert rest == [] || cmp(rest[|rest| - 1], last) <= 0;
    }
  }
}
