/**
 What SortedVectorImpl promises: a strictly ascending sequence is a finite map whose
 keys are items up to comparing equal.
 */
module SortedSequences {
  import opened Sequences
  import opened StableSort

  ghost predicate Strict<T>(s: seq<T>, cmp: Comparator<T>) {
    forall i, j :: 0 <= i < j < |s| ==> cmp(s[i], s[j]) < 0
  }

  ghost predicate Equals<T>(s: seq<T>, x: T, cmp: Comparator<T>, i: int) {
    0 <= i < |s| && cmp(s[i], x) == 0
  }

  /** How many items are smaller than x. */
  function Place<T>(s: seq<T>, x: T, cmp: Comparator<T>): (p: nat)
    ensures p <= |s|
  {
    if s == [] then 0 else Place(s[..|s| - 1], x, cmp) + if cmp(s[|s| - 1], x) < 0 then 1 else 0
  }

  /** In an ordered sequence the smaller items come first. */
  lemma {:induction false} PlaceDivides<T(!new)>(s: seq<T>, x: T, cmp: Comparator<T>)
    requires TotalPreorder(cmp) && Ordered(s, cmp)
    ensures forall i :: 0 <= i < |s| ==> (cmp(s[i], x) < 0 <==> i < Place(s, x, cmp))
  {
    if s != [] {
      var n := |s| - 1;
      PlaceDivides(s[..n], x, cmp);
      if cmp(s[n], x) < 0 {
        forall i | 0 <= i < n
          ensures cmp(s[..n][i], x) < 0
        {
          BelowBelow(s[i], s[n], x, cmp);
        }
        assert n == 0 || cmp(s[..n][n - 1], x) < 0;
      }
    }
  }

  lemma BelowBelow<T(!new)>(a: T, b: T, c: T, cmp: Comparator<T>)
    requires TotalPreorder(cmp) && cmp(a, b) <= 0 && cmp(b, c) < 0
    ensures cmp(a, c) < 0
  {
    Symmetric(b, c, cmp);
    Symmetric(a, c, cmp);
    assert Law(cmp, c, a, b);
  }

  lemma BelowSame<T(!new)>(a: T, b: T, c: T, cmp: Comparator<T>)
    requires TotalPreorder(cmp) && cmp(a, b) < 0 && cmp(b, c) <= 0
    ensures cmp(a, c) < 0
  {
    Symmetric(a, b, cmp);
    Symmetric(a, c, cmp);
    assert Law(cmp, b, c, a);
  }

  lemma SameSame<T(!new)>(a: T, b: T, c: T, cmp: Comparator<T>)
    requires TotalPreorder(cmp) && cmp(a, b) == 0 && cmp(b, c) == 0
    ensures cmp(a, c) == 0
  {
    Symmetric(a, b, cmp);
    Symmetric(b, c, cmp);
    Follows(a, b, c, cmp);
    Follows(c, b, a, cmp);
    Symmetric(a, c, cmp);
  }

  /** The position is determined by what lies before and behind it. */
  lemma PlaceIs<T(!new)>(s: seq<T>, x: T, cmp: Comparator<T>, p: nat)
    requires TotalPreorder(cmp) && Ordered(s, cmp) && p <= |s|
    requires forall i :: 0 <= i < |s| ==> (cmp(s[i], x) < 0 <==> i < p)
    ensures p == Place(s, x, cmp)
  {
    var q := Place(s, x, cmp);
    PlaceDivides(s, x, cmp);
    if p < |s| {
      assert cmp(s[p], x) < 0 <==> p < q;
    }
    if q < |s| {
      assert cmp(s[q], x) < 0 <==> q < p;
    }
  }

  /** An item that compares equal to x is where the smaller ones end. */
  lemma FoundAtPlace<T(!new)>(s: seq<T>, x: T, cmp: Comparator<T>, i: int)
    requires TotalPreorder(cmp) && Strict(s, cmp) && Equals(s, x, cmp, i)
    ensures i == Place(s, x, cmp)
  {
    forall k | 0 <= k < |s|
      ensures cmp(s[k], x) < 0 <==> k < i
    {
      if k < i {
        BelowSame(s[k], s[i], x, cmp);
      } else if i < k {
        Symmetric(s[i], x, cmp);
        BelowBelow(x, s[i], s[k], cmp);
        Symmetric(x, s[k], cmp);
      }
    }
    PlaceIs(s, x, cmp, i);
  }

  // ----- binary search

  /** Where the search for x ends that is left with the positions from lo up to hi. */
  function Probe<T>(s: seq<T>, x: T, cmp: Comparator<T>, lo: nat, hi: nat): (p: nat)
    requires lo <= hi <= |s|
    ensures lo <= p <= hi
    decreases hi - lo
  {
    if lo == hi then lo
    else
      var mid := lo + (hi - 1 - lo) / 2;
      if cmp(s[mid], x) == 0 then mid
      else if cmp(s[mid], x) < 0 then Probe(s, x, cmp, mid + 1, hi)
      else Probe(s, x, cmp, lo, mid)
  }

  /** The position a binary search comes to. */
  function Order<T>(s: seq<T>, x: T, cmp: Comparator<T>): (p: nat)
    ensures p <= |s|
  {
    Probe(s, x, cmp, 0, |s|)
  }

  /** The search ends at an item equal to x, or, if there is none, at its place. */
  ghost predicate Settles<T>(s: seq<T>, x: T, cmp: Comparator<T>, p: nat) {
    || Equals(s, x, cmp, p)
    || (p == Place(s, x, cmp) && forall i :: 0 <= i < |s| ==> cmp(s[i], x) != 0)
  }

  lemma GreaterFrom<T(!new)>(s: seq<T>, x: T, cmp: Comparator<T>, mid: nat)
    requires TotalPreorder(cmp) && Ordered(s, cmp) && mid < |s| && 0 < cmp(s[mid], x)
    ensures forall i :: mid <= i < |s| ==> 0 < cmp(s[i], x)
  {
    forall i | mid < i < |s|
      ensures 0 < cmp(s[i], x)
    {
      Symmetric(s[mid], x, cmp);
      Symmetric(s[i], x, cmp);
      BelowSame(x, s[mid], s[i], cmp);
    }
  }

  lemma {:induction false} ProbeSettles<T(!new)>(s: seq<T>, x: T, cmp: Comparator<T>, lo: nat, hi: nat)
    requires TotalPreorder(cmp) && Ordered(s, cmp) && lo <= hi <= |s| && lo <= Place(s, x, cmp)
    requires forall i :: hi <= i < |s| ==> 0 < cmp(s[i], x)
    ensures Settles(s, x, cmp, Probe(s, x, cmp, lo, hi))
    decreases hi - lo
  {
    PlaceDivides(s, x, cmp);
    if lo == hi {
      PlaceIs(s, x, cmp, lo);
    } else {
      var mid := lo + (hi - 1 - lo) / 2;
      if cmp(s[mid], x) < 0 {
        ProbeSettles(s, x, cmp, mid + 1, hi);
      } else if 0 < cmp(s[mid], x) {
        GreaterFrom(s, x, cmp, mid);
        ProbeSettles(s, x, cmp, lo, mid);
      }
    }
  }

  lemma OrderSettles<T(!new)>(s: seq<T>, x: T, cmp: Comparator<T>)
    requires TotalPreorder(cmp) && Ordered(s, cmp)
    ensures Settles(s, x, cmp, Order(s, x, cmp))
  {
    ProbeSettles(s, x, cmp, 0, |s|);
  }

  lemma StrictIsOrdered<T>(s: seq<T>, cmp: Comparator<T>)
    requires Strict(s, cmp)
    ensures Ordered(s, cmp)
  {
  }

  lemma OrderIsPlace<T(!new)>(s: seq<T>, x: T, cmp: Comparator<T>)
    requires TotalPreorder(cmp) && Strict(s, cmp)
    ensures Order(s, x, cmp) == Place(s, x, cmp)
  {
    StrictIsOrdered(s, cmp);
    OrderSettles(s, x, cmp);
    if Equals(s, x, cmp, Order(s, x, cmp)) {
      FoundAtPlace(s, x, cmp, Order(s, x, cmp));
    }
  }

  // ----- the operations

  /** x takes the place of an item equal to it, or is put where it belongs. */
  function Added<T>(s: seq<T>, x: T, cmp: Comparator<T>): seq<T> {
    var p := Order(s, x, cmp);
    if p < |s| && cmp(s[p], x) == 0 then s[p := x] else Inserted(s, p, [x])
  }

  function Dropped<T>(s: seq<T>, x: T, cmp: Comparator<T>): seq<T> {
    var p := Order(s, x, cmp);
    if p < |s| && cmp(s[p], x) == 0 then Removed(s, p, 1) else s
  }

  /** The first n items of t are added one after the other. */
  function Merged<T>(s: seq<T>, t: seq<T>, n: nat, cmp: Comparator<T>): seq<T>
    requires n <= |t|
  {
    if n == 0 then s else Added(Merged(s, t, n - 1, cmp), t[n - 1], cmp)
  }

  /** The same with s itself, in place: what is added is read from what s has become. */
  function MergedInPlace<T>(s: seq<T>, n: nat, cmp: Comparator<T>): (r: seq<T>)
    requires n <= |s|
    ensures |s| <= |r|
  {
    if n == 0 then s
    else
      var r := MergedInPlace(s, n - 1, cmp);
      Added(r, r[n - 1], cmp)
  }

  /** The shortcuts of merge(const SortedVectorImpl&). */
  function FastMerged<T>(s: seq<T>, t: seq<T>, cmp: Comparator<T>): seq<T>
    requires s != [] && t != []
  {
    if cmp(t[|t| - 1], s[0]) <= 0 then Inserted(s, 0, t)
    else if cmp(t[0], s[|s| - 1]) >= 0 then Inserted(s, |s|, t)
    else Merged(s, t, |t|, cmp)
  }

  /** The last item that compares equal to the key. */
  function Lookup<T>(s: seq<T>, key: T, cmp: Comparator<T>): Option<T> {
    if s == [] then None
    else if cmp(s[|s| - 1], key) == 0 then Some(s[|s| - 1])
    else Lookup(s[..|s| - 1], key, cmp)
  }

  // ----- lookups

  lemma {:induction false} LookupFinds<T>(s: seq<T>, key: T, cmp: Comparator<T>)
    ensures Lookup(s, key, cmp).None? <==> forall i :: 0 <= i < |s| ==> cmp(s[i], key) != 0
    ensures Lookup(s, key, cmp).Some? ==> exists i :: Equals(s, key, cmp, i) && s[i] == Lookup(s, key, cmp).value
  {
    if s != [] {
      var n := |s| - 1;
      LookupFinds(s[..n], key, cmp);
      if cmp(s[n], key) == 0 {
        assert Equals(s, key, cmp, n);
      } else if Lookup(s[..n], key, cmp).Some? {
        var i :| Equals(s[..n], key, cmp, i) && s[..n][i] == Lookup(s[..n], key, cmp).value;
        assert Equals(s, key, cmp, i);
      } else {
        assert forall i :: 0 <= i < n ==> s[i] == s[..n][i];
      }
    }
  }

  /** In a strictly ascending sequence there is nothing else to find. */
  lemma LookupIs<T(!new)>(s: seq<T>, key: T, cmp: Comparator<T>, i: int)
    requires TotalPreorder(cmp) && Strict(s, cmp) && Equals(s, key, cmp, i)
    ensures Lookup(s, key, cmp) == Some(s[i])
  {
    LookupFinds(s, key, cmp);
    assert Lookup(s, key, cmp).Some?;
    var k :| Equals(s, key, cmp, k) && s[k] == Lookup(s, key, cmp).value;
    FoundAtPlace(s, key, cmp, i);
    FoundAtPlace(s, key, cmp, k);
  }

  /** Two strictly ascending sequences that answer every lookup alike are equal. */
  lemma {:induction false} SameLookupsSameItems<T(!new)>(s: seq<T>, t: seq<T>, cmp: Comparator<T>)
    requires TotalPreorder(cmp) && Strict(s, cmp) && Strict(t, cmp)
    requires forall key :: Lookup(s, key, cmp) == Lookup(t, key, cmp)
    ensures s == t
  {
    if s == [] || t == [] {
      LookupsTellEmpty(s, cmp);
      LookupsTellEmpty(t, cmp);
    } else {
      var m, n := |s| - 1, |t| - 1;
      SameLast(s, t, cmp);
      forall key
        ensures Lookup(s[..m], key, cmp) == Lookup(t[..n], key, cmp)
      {
        WithoutLast(s, key, cmp);
        WithoutLast(t, key, cmp);
      }
      SameLookupsSameItems(s[..m], t[..n], cmp);
      assert s == s[..m] + [s[m]] && t == t[..n] + [t[n]];
    }
  }

  lemma LookupsTellEmpty<T(!new)>(s: seq<T>, cmp: Comparator<T>)
    requires TotalPreorder(cmp)
    ensures s == [] <==> forall key :: Lookup(s, key, cmp) == None
  {
    if s != [] {
      Symmetric(s[|s| - 1], s[|s| - 1], cmp);
      assert Lookup(s, s[|s| - 1], cmp) == Some(s[|s| - 1]);
    }
  }

  lemma WithoutLast<T(!new)>(s: seq<T>, key: T, cmp: Comparator<T>)
    requires TotalPreorder(cmp) && Strict(s, cmp) && s != []
    ensures Lookup(s[..|s| - 1], key, cmp) == if cmp(s[|s| - 1], key) == 0 then None else Lookup(s, key, cmp)
  {
    var n := |s| - 1;
    if cmp(s[n], key) == 0 {
      LookupFinds(s[..n], key, cmp);
      forall i | 0 <= i < n
        ensures cmp(s[..n][i], key) != 0
      {
        if cmp(s[i], key) == 0 {
          FoundAtPlace(s, key, cmp, i);
          FoundAtPlace(s, key, cmp, n);
        }
      }
    }
  }

  /** The greatest item is the one no key above finds anything for. */
  lemma SameLast<T(!new)>(s: seq<T>, t: seq<T>, cmp: Comparator<T>)
    requires TotalPreorder(cmp) && Strict(s, cmp) && Strict(t, cmp) && s != [] && t != []
    requires forall key :: Lookup(s, key, cmp) == Lookup(t, key, cmp)
    ensures s[|s| - 1] == t[|t| - 1]
  {
    var a, b := s[|s| - 1], t[|t| - 1];
    Symmetric(a, b, cmp);
    Symmetric(b, a, cmp);
    LookupIs(s, a, cmp, |s| - 1);
    LookupIs(t, b, cmp, |t| - 1);
    if 0 < cmp(a, b) {
      AboveLast(t, a, cmp);
    } else if cmp(a, b) < 0 {
      AboveLast(s, b, cmp);
    }
  }

  lemma AboveLast<T(!new)>(s: seq<T>, key: T, cmp: Comparator<T>)
    requires TotalPreorder(cmp) && Strict(s, cmp) && s != [] && cmp(s[|s| - 1], key) < 0
    ensures Lookup(s, key, cmp) == None
  {
    LookupFinds(s, key, cmp);
    forall i | 0 <= i < |s|
      ensures cmp(s[i], key) != 0
    {
      Symmetric(s[i], s[i], cmp);
      assert cmp(s[i], s[|s| - 1]) <= 0;
      BelowBelow(s[i], s[|s| - 1], key, cmp);
    }
  }

  // ----- adding and dropping

  lemma AddedIsStrict<T(!new)>(s: seq<T>, x: T, cmp: Comparator<T>)
    requires TotalPreorder(cmp) && Strict(s, cmp)
    ensures Strict(Added(s, x, cmp), cmp)
    ensures x in Added(s, x, cmp)
  {
    hide TotalPreorder, Order, Place;
    OrderIsPlace(s, x, cmp);
    var p, r := Place(s, x, cmp), Added(s, x, cmp);
    var after := p + |r| - |s|;
    PlaceDivides(s, x, cmp);
    assert r == s[..p] + [x] + s[|s| - |r| + p + 1..];
    assert r[p] == x;
    forall i, j | 0 <= i < j < |r|
      ensures cmp(r[i], r[j]) < 0
    {
      if j == p {
        assert cmp(s[i], x) < 0;
      } else if i == p {
        Behind(s, x, cmp, j - |r| + |s|);
      }
    }
  }

  /** Adding keeps the order also among items that compare equal. */
  lemma AddedIsOrdered<T(!new)>(s: seq<T>, x: T, cmp: Comparator<T>)
    requires TotalPreorder(cmp) && Ordered(s, cmp)
    ensures Ordered(Added(s, x, cmp), cmp)
  {
    var p, r := Order(s, x, cmp), Added(s, x, cmp);
    OrderSettles(s, x, cmp);
    PlaceDivides(s, x, cmp);
    forall a, b | 0 <= a < b < |r|
      ensures cmp(r[a], r[b]) <= 0
    {
      if Equals(s, x, cmp, p) {
        Symmetric(s[p], x, cmp);
        if a == p {
          Follows(x, s[p], s[b], cmp);
        } else if b == p {
          Follows(s[a], s[p], x, cmp);
        }
      } else if a == p {
        Symmetric(s[b - 1], x, cmp);
      }
    }
  }

  lemma DroppedIsOrdered<T>(s: seq<T>, x: T, cmp: Comparator<T>)
    requires Ordered(s, cmp)
    ensures Ordered(Dropped(s, x, cmp), cmp)
  {
  }

  /** Items behind the place of x that are not equal to it are greater. */
  lemma Behind<T(!new)>(s: seq<T>, x: T, cmp: Comparator<T>, j: int)
    requires TotalPreorder(cmp) && Strict(s, cmp) && Place(s, x, cmp) <= j < |s|
    requires cmp(s[Place(s, x, cmp)], x) == 0 ==> Place(s, x, cmp) < j
    ensures cmp(x, s[j]) < 0
  {
    var p := Place(s, x, cmp);
    PlaceDivides(s, x, cmp);
    Symmetric(s[p], x, cmp);
    if p < j {
      BelowBelow(x, s[p], s[j], cmp);
    }
  }

  /** x is in, the item equal to it is out, and all others stay. */
  lemma AddedHas<T(!new)>(s: seq<T>, x: T, y: T, cmp: Comparator<T>)
    requires TotalPreorder(cmp) && Strict(s, cmp)
    ensures y in Added(s, x, cmp) <==> y == x || (y in s && cmp(y, x) != 0)
  {
    OrderIsPlace(s, x, cmp);
    var p := Place(s, x, cmp);
    OnlyAtPlace(s, x, cmp);
    if p < |s| && cmp(s[p], x) == 0 {
      ReplacedHas(s, p, x, y);
      assert y in s <==> y == s[p] || exists k :: 0 <= k < |s| && k != p && s[k] == y;
    } else {
      assert Added(s, x, cmp) == s[..p] + [x] + s[p..];
      assert s == s[..p] + s[p..];
    }
  }

  lemma ReplacedHas<T>(s: seq<T>, p: nat, x: T, y: T)
    requires p < |s|
    ensures y in s[p := x] <==> y == x || exists k :: 0 <= k < |s| && k != p && s[k] == y
  {
    if y == x {
      assert s[p := x][p] == y;
    }
    forall k | 0 <= k < |s| && k != p
      ensures s[p := x][k] == s[k]
    {
    }
  }

  lemma OnlyAtPlace<T(!new)>(s: seq<T>, x: T, cmp: Comparator<T>)
    requires TotalPreorder(cmp) && Strict(s, cmp)
    ensures forall i :: 0 <= i < |s| && cmp(s[i], x) == 0 ==> i == Place(s, x, cmp)
  {
    forall i | 0 <= i < |s| && cmp(s[i], x) == 0
      ensures i == Place(s, x, cmp)
    {
      FoundAtPlace(s, x, cmp, i);
    }
  }

  lemma DroppedIsStrict<T(!new)>(s: seq<T>, x: T, cmp: Comparator<T>)
    requires Strict(s, cmp)
    ensures Strict(Dropped(s, x, cmp), cmp)
  {
  }

  lemma DroppedHas<T(!new)>(s: seq<T>, x: T, y: T, cmp: Comparator<T>)
    requires TotalPreorder(cmp) && Strict(s, cmp)
    ensures y in Dropped(s, x, cmp) <==> y in s && cmp(y, x) != 0
  {
    hide TotalPreorder, Place, Strict;
    OrderIsPlace(s, x, cmp);
    var p := Place(s, x, cmp);
    OnlyAtPlace(s, x, cmp);
    if p < |s| && cmp(s[p], x) == 0 {
      assert s == s[..p] + [s[p]] + s[p + 1..];
    }
  }

  lemma LookupCarries<T(!new)>(s: seq<T>, t: seq<T>, key: T, cmp: Comparator<T>)
    requires TotalPreorder(cmp) && Strict(t, cmp)
    requires forall y :: cmp(y, key) == 0 && y in s ==> y in t
    ensures Lookup(s, key, cmp).Some? ==> Lookup(t, key, cmp) == Lookup(s, key, cmp)
  {
    LookupFinds(s, key, cmp);
    if Lookup(s, key, cmp).Some? {
      var y := Lookup(s, key, cmp).value;
      var i :| 0 <= i < |t| && t[i] == y;
      LookupIs(t, key, cmp, i);
    }
  }

  /** Lookups in strictly ascending sequences depend only on the items they hold. */
  lemma LookupByMembers<T(!new)>(s: seq<T>, t: seq<T>, key: T, cmp: Comparator<T>)
    requires TotalPreorder(cmp) && Strict(s, cmp) && Strict(t, cmp)
    requires forall y :: cmp(y, key) == 0 ==> (y in s <==> y in t)
    ensures Lookup(s, key, cmp) == Lookup(t, key, cmp)
  {
    LookupCarries(s, t, key, cmp);
    LookupCarries(t, s, key, cmp);
  }

  /** add is map update... */
  lemma AddIsUpdate<T(!new)>(s: seq<T>, x: T, key: T, cmp: Comparator<T>)
    requires TotalPreorder(cmp) && Strict(s, cmp)
    ensures Strict(Added(s, x, cmp), cmp)
    ensures Lookup(Added(s, x, cmp), key, cmp) == if cmp(x, key) == 0 then Some(x) else Lookup(s, key, cmp)
  {
    var r := Added(s, x, cmp);
    AddedIsStrict(s, x, cmp);
    if cmp(x, key) == 0 {
      var i :| 0 <= i < |r| && r[i] == x;
      LookupIs(r, key, cmp, i);
    } else {
      forall y | cmp(y, key) == 0
        ensures y in r <==> y in s
      {
        AddedHas(s, x, y, cmp);
        EqualsOfEqual(x, y, key, cmp);
      }
      LookupByMembers(r, s, key, cmp);
    }
  }

  lemma EqualsOfEqual<T(!new)>(x: T, y: T, key: T, cmp: Comparator<T>)
    requires TotalPreorder(cmp) && cmp(y, key) == 0
    ensures cmp(y, x) == 0 <==> cmp(x, key) == 0
  {
    Symmetric(x, y, cmp);
    Symmetric(x, key, cmp);
    Symmetric(y, key, cmp);
    assert Law(cmp, x, y, key) && Law(cmp, key, y, x);
    assert Law(cmp, x, key, y) && Law(cmp, y, key, x);
  }

  /** ...and remove is deletion. */
  lemma DropIsDeletion<T(!new)>(s: seq<T>, x: T, key: T, cmp: Comparator<T>)
    requires TotalPreorder(cmp) && Strict(s, cmp)
    ensures Strict(Dropped(s, x, cmp), cmp)
    ensures Lookup(Dropped(s, x, cmp), key, cmp) == if cmp(x, key) == 0 then None else Lookup(s, key, cmp)
  {
    var r := Dropped(s, x, cmp);
    DroppedIsStrict(s, x, cmp);
    if cmp(x, key) == 0 {
      LookupFinds(r, key, cmp);
      forall i | 0 <= i < |r|
        ensures cmp(r[i], key) != 0
      {
        if cmp(r[i], key) == 0 {
          EqualsOfEqual(x, r[i], key, cmp);
          DroppedHas(s, x, r[i], cmp);
        }
      }
    } else {
      forall y | cmp(y, key) == 0
        ensures y in r <==> y in s
      {
        DroppedHas(s, x, y, cmp);
        EqualsOfEqual(x, y, key, cmp);
      }
      LookupByMembers(r, s, key, cmp);
    }
  }

  // ----- merging

  lemma {:induction false} MergeIsStrict<T(!new)>(s: seq<T>, t: seq<T>, n: nat, cmp: Comparator<T>)
    requires TotalPreorder(cmp) && Strict(s, cmp) && n <= |t|
    ensures Strict(Merged(s, t, n, cmp), cmp)
  {
    if n != 0 {
      MergeIsStrict(s, t, n - 1, cmp);
      AddedIsStrict(Merged(s, t, n - 1, cmp), t[n - 1], cmp);
    }
  }

  lemma {:induction false} MergeIsOrdered<T(!new)>(s: seq<T>, t: seq<T>, n: nat, cmp: Comparator<T>)
    requires TotalPreorder(cmp) && Ordered(s, cmp) && n <= |t|
    ensures Ordered(Merged(s, t, n, cmp), cmp)
  {
    if n != 0 {
      MergeIsOrdered(s, t, n - 1, cmp);
      AddedIsOrdered(Merged(s, t, n - 1, cmp), t[n - 1], cmp);
    }
  }

  /** An item that is in the sequence takes the place of one equal to it. */
  lemma AddedFromItself<T(!new)>(s: seq<T>, i: nat, cmp: Comparator<T>)
    requires TotalPreorder(cmp) && Ordered(s, cmp) && i < |s|
    ensures |Added(s, s[i], cmp)| == |s|
    ensures forall k :: 0 <= k < |s| ==> cmp(Added(s, s[i], cmp)[k], s[k]) == 0
    ensures Strict(s, cmp) ==> Added(s, s[i], cmp) == s
  {
    OrderSettles(s, s[i], cmp);
    Symmetric(s[i], s[i], cmp);
    var p := Order(s, s[i], cmp);
    Symmetric(s[p], s[i], cmp);
    forall k | 0 <= k < |s|
      ensures cmp(s[k], s[k]) == 0
    {
      Symmetric(s[k], s[k], cmp);
    }
    if Strict(s, cmp) {
      FoundAtPlace(s, s[i], cmp, i);
      FoundAtPlace(s, s[i], cmp, p);
    }
  }

  /** Each position keeps an item equal to the one it had, and if no two are equal, that
      very item. */
  lemma {:induction false} MergedInPlaceKeeps<T(!new)>(s: seq<T>, n: nat, cmp: Comparator<T>)
    requires TotalPreorder(cmp) && Ordered(s, cmp) && n <= |s|
    ensures var r := MergedInPlace(s, n, cmp);
      && |r| == |s| && Ordered(r, cmp) && (forall k :: 0 <= k < |s| ==> cmp(r[k], s[k]) == 0)
      && (Strict(s, cmp) ==> r == s)
  {
    hide TotalPreorder, Added, Order, Strict, Ordered;
    if n == 0 {
      forall k | 0 <= k < |s|
        ensures cmp(s[k], s[k]) == 0
      {
        Symmetric(s[k], s[k], cmp);
      }
    } else {
      MergedInPlaceKeeps(s, n - 1, cmp);
      var r := MergedInPlace(s, n - 1, cmp);
      AddedFromItself(r, n - 1, cmp);
      AddedIsOrdered(r, r[n - 1], cmp);
      var now := Added(r, r[n - 1], cmp);
      forall k | 0 <= k < |s|
        ensures cmp(now[k], s[k]) == 0
      {
        SameSame(now[k], r[k], s[k], cmp);
      }
    }
  }

  /** But an item can be overwritten before its turn comes: this is not the merge of a
      copy of the items. */
  lemma MergedInPlaceLosesItems<T(!new)>(x: T, y: T, z: T, cmp: Comparator<T>)
    requires TotalPreorder(cmp) && cmp(x, y) == 0 && cmp(y, z) < 0
    ensures var s := [x, y, z];
      MergedInPlace(s, 3, cmp) == [x, x, z] && Merged(s, s, 3, cmp) == [x, y, z]
  {
    hide TotalPreorder, Added;
    var s, r := [x, y, z], [x, x, z];
    Symmetric(x, y, cmp);
    Symmetric(x, x, cmp);
    Symmetric(y, y, cmp);
    Symmetric(z, z, cmp);
    BelowBelow(x, y, z, cmp);
    AddedInMiddle(x, y, z, x, cmp);
    AddedInMiddle(x, x, z, x, cmp);
    AddedInMiddle(x, x, z, y, cmp);
    AddedAtEnd(x, x, z, cmp);
    AddedAtEnd(x, y, z, cmp);
    assert MergedInPlace(s, 0, cmp) == s;
    assert MergedInPlace(s, 1, cmp) == Added(s, s[0], cmp) == r;
    assert MergedInPlace(s, 2, cmp) == Added(r, r[1], cmp) == r;
    assert MergedInPlace(s, 3, cmp) == Added(r, r[2], cmp) == r;
    assert Merged(s, s, 0, cmp) == s;
    assert Merged(s, s, 1, cmp) == Added(s, s[0], cmp) == r;
    assert Merged(s, s, 2, cmp) == Added(r, s[1], cmp) == s;
    assert Merged(s, s, 3, cmp) == Added(s, s[2], cmp) == s;
  }

  lemma AddedInMiddle<T(!new)>(x: T, y: T, z: T, v: T, cmp: Comparator<T>)
    requires cmp(y, v) == 0
    ensures Added([x, y, z], v, cmp) == [x, v, z]
  {
    assert Probe([x, y, z], v, cmp, 0, 3) == 1;
  }

  lemma AddedAtEnd<T(!new)>(x: T, y: T, z: T, cmp: Comparator<T>)
    requires cmp(y, z) < 0 && cmp(z, z) == 0
    ensures Added([x, y, z], z, cmp) == [x, y, z]
  {
    assert Probe([x, y, z], z, cmp, 2, 3) == 2;
    assert Probe([x, y, z], z, cmp, 0, 3) == 2;
  }

  /** Adding items that are there already changes nothing. */
  lemma {:induction false} MergeWithItself<T(!new)>(s: seq<T>, n: nat, cmp: Comparator<T>)
    requires TotalPreorder(cmp) && Strict(s, cmp) && n <= |s|
    ensures Merged(s, s, n, cmp) == s
  {
    hide TotalPreorder, Order, Place, Strict;
    if n != 0 {
      MergeWithItself(s, n - 1, cmp);
      Symmetric(s[n - 1], s[n - 1], cmp);
      FoundAtPlace(s, s[n - 1], cmp, n - 1);
      OrderIsPlace(s, s[n - 1], cmp);
    }
  }

  lemma LookupInPrefix<T>(t: seq<T>, n: nat, key: T, cmp: Comparator<T>)
    requires 0 < n <= |t|
    ensures Lookup(t[..n], key, cmp) == if cmp(t[n - 1], key) == 0 then Some(t[n - 1]) else Lookup(t[..n - 1], key, cmp)
  {
    assert t[..n][..n - 1] == t[..n - 1];
  }

  /** The naive merge is a union in which the last of equal items wins. */
  lemma {:induction false} MergeIsUnion<T(!new)>(s: seq<T>, t: seq<T>, n: nat, key: T, cmp: Comparator<T>)
    requires TotalPreorder(cmp) && Strict(s, cmp) && n <= |t|
    ensures var last := Lookup(t[..n], key, cmp);
      Lookup(Merged(s, t, n, cmp), key, cmp) == if last.Some? then last else Lookup(s, key, cmp)
  {
    hide TotalPreorder, Order, Strict, Added;
    if n != 0 {
      MergeIsUnion(s, t, n - 1, key, cmp);
      MergeIsStrict(s, t, n - 1, cmp);
      AddIsUpdate(Merged(s, t, n - 1, cmp), t[n - 1], key, cmp);
      LookupInPrefix(t, n, key, cmp);
    }
  }

  lemma {:induction false} LookupInTwo<T>(a: seq<T>, b: seq<T>, key: T, cmp: Comparator<T>)
    ensures var last := Lookup(b, key, cmp);
      Lookup(a + b, key, cmp) == if last.Some? then last else Lookup(a, key, cmp)
  {
    if b == [] {
      assert a + b == a;
    } else {
      var n := |b| - 1;
      assert (a + b)[..|a| + n] == a + b[..n];
      LookupInTwo(a, b[..n], key, cmp);
    }
  }

  /** Put together, two sequences are still strictly ascending if the boundary is. */
  lemma StrictInTwo<T(!new)>(a: seq<T>, b: seq<T>, cmp: Comparator<T>)
    requires TotalPreorder(cmp) && Strict(a, cmp) && Strict(b, cmp) && a != [] && b != []
    ensures Strict(a + b, cmp) <==> cmp(a[|a| - 1], b[0]) < 0
    ensures Ordered(a + b, cmp) <==> cmp(a[|a| - 1], b[0]) <= 0
  {
    var m, r := |a| - 1, a + b;
    assert r[m] == a[m] && r[m + 1] == b[0];
    if cmp(a[m], b[0]) <= 0 {
      forall i, j | 0 <= i < j < |r|
        ensures cmp(r[i], r[j]) <= 0 && (cmp(a[m], b[0]) < 0 ==> cmp(r[i], r[j]) < 0)
      {
        if i <= m < j {
          Symmetric(a[m], a[m], cmp);
          Symmetric(b[0], b[0], cmp);
          Chain(a[i], a[m], b[0], b[j - m - 1], cmp);
        }
      }
    }
  }

  lemma Chain<T(!new)>(a: T, b: T, c: T, d: T, cmp: Comparator<T>)
    requires TotalPreorder(cmp) && cmp(a, b) <= 0 && cmp(b, c) <= 0 && cmp(c, d) <= 0
    ensures cmp(a, d) <= 0 && (cmp(b, c) < 0 ==> cmp(a, d) < 0)
  {
    Follows(a, b, c, cmp);
    Follows(a, c, d, cmp);
    if cmp(b, c) < 0 {
      BelowBelow(a, b, c, cmp);
      BelowSame(a, c, d, cmp);
    }
  }

  /** Put together, two sequences are ordered if the boundary is. */
  lemma OrderedInTwo<T(!new)>(a: seq<T>, b: seq<T>, cmp: Comparator<T>)
    requires TotalPreorder(cmp) && Ordered(a, cmp) && Ordered(b, cmp) && a != [] && b != []
    requires cmp(a[|a| - 1], b[0]) <= 0
    ensures Ordered(a + b, cmp)
  {
    var m, r := |a| - 1, a + b;
    forall i, j | 0 <= i < j < |r|
      ensures cmp(r[i], r[j]) <= 0
    {
      if i <= m < j {
        Symmetric(a[m], a[m], cmp);
        Symmetric(b[0], b[0], cmp);
        Chain(a[i], a[m], b[0], b[j - m - 1], cmp);
      }
    }
  }

  /** The fast merge of ordered sequences is ordered, whatever ties there are. */
  lemma FastMergeIsOrdered<T(!new)>(s: seq<T>, t: seq<T>, cmp: Comparator<T>)
    requires TotalPreorder(cmp) && Ordered(s, cmp) && Ordered(t, cmp) && s != [] && t != []
    ensures Ordered(FastMerged(s, t, cmp), cmp)
  {
    InsertedAtEnds(s, t);
    Symmetric(t[0], s[|s| - 1], cmp);
    if cmp(t[|t| - 1], s[0]) <= 0 {
      OrderedInTwo(t, s, cmp);
    } else if cmp(t[0], s[|s| - 1]) >= 0 {
      OrderedInTwo(s, t, cmp);
    } else {
      MergeIsOrdered(s, t, |t|, cmp);
    }
  }

  /** The fast merge of strictly ascending sequences is strictly ascending exactly if
      neither boundary is a tie. */
  lemma FastMergeIsStrict<T(!new)>(s: seq<T>, t: seq<T>, cmp: Comparator<T>)
    requires TotalPreorder(cmp) && Strict(s, cmp) && Strict(t, cmp) && s != [] && t != []
    ensures Strict(FastMerged(s, t, cmp), cmp) <==> NoTie(s, t, cmp)
  {
    FastMergeIsMerge(s, t, cmp);
    MergeIsStrict(s, t, |t|, cmp);
  }

  /** An input with a tie: of two equal items the fast merge keeps both. */
  lemma TieKeepsBoth<T(!new)>(x: T, y: T, cmp: Comparator<T>)
    requires TotalPreorder(cmp) && cmp(y, x) == 0
    ensures FastMerged([x], [y], cmp) == [y, x] && Merged([x], [y], 1, cmp) == [y]
  {
    Symmetric(x, y, cmp);
    InsertedAtEnds([x], [y]);
    assert Equals([x], y, cmp, 0);
    FoundAtPlace([x], y, cmp, 0);
    OrderIsPlace([x], y, cmp);
    assert Merged([x], [y], 0, cmp) == [x];
  }

  /** Neither boundary is a tie. */
  predicate NoTie<T>(s: seq<T>, t: seq<T>, cmp: Comparator<T>)
    requires s != [] && t != []
  {
    cmp(t[|t| - 1], s[0]) != 0 && cmp(t[0], s[|s| - 1]) != 0
  }

  lemma BelowAll<T(!new)>(t: seq<T>, s: seq<T>, cmp: Comparator<T>)
    requires TotalPreorder(cmp) && Strict(s, cmp) && Strict(t, cmp) && s != [] && t != []
    requires cmp(t[|t| - 1], s[0]) < 0
    ensures cmp(t[0], s[|s| - 1]) < 0
  {
    Symmetric(t[0], t[0], cmp);
    Symmetric(s[0], s[0], cmp);
    Chain(t[0], t[|t| - 1], s[0], s[|s| - 1], cmp);
  }

  lemma AppendIsMerge<T(!new)>(s: seq<T>, t: seq<T>, cmp: Comparator<T>)
    requires TotalPreorder(cmp) && Strict(s, cmp) && Strict(s + t, cmp)
    ensures s + t == Merged(s, t, |t|, cmp)
  {
    assert t[..|t|] == t;
    forall key
      ensures Lookup(s + t, key, cmp) == Lookup(Merged(s, t, |t|, cmp), key, cmp)
    {
      LookupInTwo(s, t, key, cmp);
      MergeIsUnion(s, t, |t|, key, cmp);
    }
    MergeIsStrict(s, t, |t|, cmp);
    SameLookupsSameItems(s + t, Merged(s, t, |t|, cmp), cmp);
  }

  lemma PrependIsMerge<T(!new)>(s: seq<T>, t: seq<T>, cmp: Comparator<T>)
    requires TotalPreorder(cmp) && Strict(s, cmp) && Strict(t + s, cmp)
    ensures t + s == Merged(s, t, |t|, cmp)
  {
    assert t[..|t|] == t;
    forall key
      ensures Lookup(t + s, key, cmp) == Lookup(Merged(s, t, |t|, cmp), key, cmp)
    {
      LookupInTwo(t, s, key, cmp);
      MergeIsUnion(s, t, |t|, key, cmp);
      OneOfTwo(t, s, key, cmp);
    }
    MergeIsStrict(s, t, |t|, cmp);
    SameLookupsSameItems(t + s, Merged(s, t, |t|, cmp), cmp);
  }

  /** A key is not found in both halves of a strictly ascending sequence. */
  lemma OneOfTwo<T(!new)>(a: seq<T>, b: seq<T>, key: T, cmp: Comparator<T>)
    requires TotalPreorder(cmp) && Strict(a + b, cmp)
    ensures Lookup(a, key, cmp).None? || Lookup(b, key, cmp).None?
  {
    LookupFinds(a, key, cmp);
    LookupFinds(b, key, cmp);
    if Lookup(a, key, cmp).Some? && Lookup(b, key, cmp).Some? {
      var i :| Equals(a, key, cmp, i);
      var j :| Equals(b, key, cmp, j);
      FoundAtPlace(a + b, key, cmp, i);
      FoundAtPlace(a + b, key, cmp, |a| + j);
    }
  }

  /** The fast merge of strictly ascending sequences is the naive one exactly when no
      boundary is a tie. With a tie both items stay, in order. */
  lemma FastMergeIsMerge<T(!new)>(s: seq<T>, t: seq<T>, cmp: Comparator<T>)
    requires TotalPreorder(cmp) && Strict(s, cmp) && Strict(t, cmp) && s != [] && t != []
    ensures Ordered(FastMerged(s, t, cmp), cmp)
    ensures FastMerged(s, t, cmp) == Merged(s, t, |t|, cmp) <==> NoTie(s, t, cmp)
    ensures !NoTie(s, t, cmp) ==> !Strict(FastMerged(s, t, cmp), cmp) && |FastMerged(s, t, cmp)| == |s| + |t|
  {
    MergeIsStrict(s, t, |t|, cmp);
    InsertedAtEnds(s, t);
    if cmp(t[|t| - 1], s[0]) <= 0 {
      PrependMerges(s, t, cmp);
    } else if cmp(t[0], s[|s| - 1]) >= 0 {
      AppendMerges(s, t, cmp);
    } else {
      StrictIsOrdered(Merged(s, t, |t|, cmp), cmp);
    }
  }

  lemma InsertedAtEnds<T>(s: seq<T>, t: seq<T>)
    ensures Inserted(s, 0, t) == t + s && Inserted(s, |s|, t) == s + t
  {
  }

  lemma PrependMerges<T(!new)>(s: seq<T>, t: seq<T>, cmp: Comparator<T>)
    requires TotalPreorder(cmp) && Strict(s, cmp) && Strict(t, cmp) && s != [] && t != []
    requires cmp(t[|t| - 1], s[0]) <= 0
    ensures Ordered(t + s, cmp)
    ensures Strict(t + s, cmp) <==> NoTie(s, t, cmp)
    ensures NoTie(s, t, cmp) ==> t + s == Merged(s, t, |t|, cmp)
  {
    StrictInTwo(t, s, cmp);
    if cmp(t[|t| - 1], s[0]) < 0 {
      PrependIsMerge(s, t, cmp);
      BelowAll(t, s, cmp);
    }
  }

  lemma AppendMerges<T(!new)>(s: seq<T>, t: seq<T>, cmp: Comparator<T>)
    requires TotalPreorder(cmp) && Strict(s, cmp) && Strict(t, cmp) && s != [] && t != []
    requires 0 < cmp(t[|t| - 1], s[0]) && cmp(t[0], s[|s| - 1]) >= 0
    ensures Ordered(s + t, cmp)
    ensures Strict(s + t, cmp) <==> NoTie(s, t, cmp)
    ensures NoTie(s, t, cmp) ==> s + t == Merged(s, t, |t|, cmp)
  {
    StrictInTwo(s, t, cmp);
    Symmetric(t[0], s[|s| - 1], cmp);
    if 0 < cmp(t[0], s[|s| - 1]) {
      AppendIsMerge(s, t, cmp);
    }
  }

  // ----- runs

  datatype SortedOp<T> = AddItem(item: T) | RemoveItem(item: T) | MergeItems(items: seq<T>)

  function Applied<T>(s: seq<T>, op: SortedOp<T>, cmp: Comparator<T>): seq<T> {
    match op
    case AddItem(x) => Added(s, x, cmp)
    case RemoveItem(x) => Dropped(s, x, cmp)
    case MergeItems(t) => Merged(s, t, |t|, cmp)
  }

  /** What a vector that was empty holds after k operations. */
  function Replayed<T>(ops: seq<SortedOp<T>>, k: nat, cmp: Comparator<T>): seq<T>
    requires k <= |ops|
  {
    if k == 0 then [] else Applied(Replayed(ops, k - 1, cmp), ops[k - 1], cmp)
  }

  /** What a map finds for a key after k operations. */
  function Mapped<T>(ops: seq<SortedOp<T>>, k: nat, key: T, cmp: Comparator<T>): Option<T>
    requires k <= |ops|
  {
    if k == 0 then None
    else
      var before := Mapped(ops, k - 1, key, cmp);
      match ops[k - 1]
      case AddItem(x) => if cmp(x, key) == 0 then Some(x) else before
      case RemoveItem(x) => if cmp(x, key) == 0 then None else before
      case MergeItems(t) => if Lookup(t, key, cmp).Some? then Lookup(t, key, cmp) else before
  }

  lemma {:induction false} ReplayedIsStrict<T(!new)>(ops: seq<SortedOp<T>>, k: nat, cmp: Comparator<T>)
    requires TotalPreorder(cmp) && k <= |ops|
    ensures Strict(Replayed(ops, k, cmp), cmp)
  {
    if k != 0 {
      ReplayedIsStrict(ops, k - 1, cmp);
      var s := Replayed(ops, k - 1, cmp);
      match ops[k - 1]
      case AddItem(x) => AddedIsStrict(s, x, cmp);
      case RemoveItem(x) => DroppedIsStrict(s, x, cmp);
      case MergeItems(t) => MergeIsStrict(s, t, |t|, cmp);
    }
  }

  /** Every run of operations makes the vector a map. */
  lemma {:induction false} RunIsMap<T(!new)>(ops: seq<SortedOp<T>>, k: nat, key: T, cmp: Comparator<T>)
    requires TotalPreorder(cmp) && k <= |ops|
    ensures Lookup(Replayed(ops, k, cmp), key, cmp) == Mapped(ops, k, key, cmp)
  {
    hide TotalPreorder, Strict, Order, Added, Dropped, Merged;
    if k != 0 {
      RunIsMap(ops, k - 1, key, cmp);
      ReplayedIsStrict(ops, k - 1, cmp);
      var s := Replayed(ops, k - 1, cmp);
      match ops[k - 1]
      case AddItem(x) => AddIsUpdate(s, x, key, cmp);
      case RemoveItem(x) => DropIsDeletion(s, x, key, cmp);
      case MergeItems(t) =>
        assert t[..|t|] == t;
        MergeIsUnion(s, t, |t|, key, cmp);
    }
  }

  /** Two runs that make the same map end with the same vector. */
  lemma SameMapSameVector<T(!new)>(ops: seq<SortedOp<T>>, others: seq<SortedOp<T>>, cmp: Comparator<T>)
    requires TotalPreorder(cmp)
    requires forall key :: Mapped(ops, |ops|, key, cmp) == Mapped(others, |others|, key, cmp)
    ensures Replayed(ops, |ops|, cmp) == Replayed(others, |others|, cmp)
  {
    ReplayedIsStrict(ops, |ops|, cmp);
    ReplayedIsStrict(others, |others|, cmp);
    forall key
      ensures Lookup(Replayed(ops, |ops|, cmp), key, cmp) == Lookup(Replayed(others, |others|, cmp), key, cmp)
    {
      RunIsMap(ops, |ops|, key, cmp);
      RunIsMap(others, |others|, key, cmp);
    }
    SameLookupsSameItems(Replayed(ops, |ops|, cmp), Replayed(others, |others|, cmp), cmp);
  }

  /** How many items an operation can add. */
  function Growth<T>(op: SortedOp<T>): nat {
    match op
    case AddItem(_) => 1
    case RemoveItem(_) => 0
    case MergeItems(t) => |t|
  }

  function TotalGrowth<T>(ops: seq<SortedOp<T>>, k: nat): nat
    requires k <= |ops|
  {
    if k == 0 then 0 else TotalGrowth(ops, k - 1) + Growth(ops[k - 1])
  }

  lemma {:induction false} GrowthSoFar<T>(ops: seq<SortedOp<T>>, k: nat, n: nat)
    requires k <= n <= |ops|
    ensures TotalGrowth(ops, k) <= TotalGrowth(ops, n)
  {
    if k < n {
      GrowthSoFar(ops, k, n - 1);
    }
  }

  lemma {:induction false} ReplayedPrefix<T>(ops: seq<SortedOp<T>>, more: seq<SortedOp<T>>, k: nat, cmp: Comparator<T>)
    requires k <= |ops|
    ensures Replayed(ops + more, k, cmp) == Replayed(ops, k, cmp)
  {
    if k != 0 {
      ReplayedPrefix(ops, more, k - 1, cmp);
      assert (ops + more)[k - 1] == ops[k - 1];
    }
  }

  lemma ReplayedNext<T>(ops: seq<SortedOp<T>>, op: SortedOp<T>, cmp: Comparator<T>)
    ensures Replayed(ops + [op], |ops| + 1, cmp) == Applied(Replayed(ops, |ops|, cmp), op, cmp)
  {
    ReplayedPrefix(ops, [op], |ops|, cmp);
  }

  lemma {:induction false} MergedPrefix<T>(s: seq<T>, t: seq<T>, n: nat, m: nat, cmp: Comparator<T>)
    requires m <= n <= |t|
    ensures Merged(s, t[..n], m, cmp) == Merged(s, t, m, cmp)
  {
    if m != 0 {
      MergedPrefix(s, t, n, m - 1, cmp);
    }
  }
}
