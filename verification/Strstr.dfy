/** The strstr of libshims/libC/strstr.c. */
module Strstr {
  import opened Machine

  datatype Found = Null | At(index: nat)

  /** The memory is a C string: a terminator at the end and no other. An index
      outside it would be a read past the terminator. */
  ghost predicate CString(a: array<Byte>)
    reads a
  {
    && 0 < a.Length && a[a.Length - 1] == 0
    && forall i :: 0 <= i < a.Length - 1 ==> a[i] != 0
  }

  ghost function Text(a: array<Byte>): seq<Byte>
    requires 0 < a.Length
    reads a
  {
    a[..a.Length - 1]
  }

  /** The needle occurs in the text at position p. */
  ghost predicate OccursAt(text: seq<Byte>, needle: seq<Byte>, p: nat) {
    p + |needle| <= |text| && text[p..p + |needle|] == needle
  }

  method Strlen(a: array<Byte>, from: nat) returns (n: nat)
    requires CString(a) && from < a.Length
    ensures n == a.Length - 1 - from
  {
    n := 0;
    while a[from + n] != 0
      invariant from + n < a.Length
      decreases a.Length - n
    {
      n := n + 1;
    }
  }

  /** strncmp, told apart only by zero and non-zero. */
  method Strncmp(a: array<Byte>, i: nat, b: array<Byte>, j: nat, n: nat) returns (r: int)
    requires CString(a) && CString(b) && i < a.Length && j + n < b.Length
    ensures r == 0 <==> OccursAt(Text(a), b[j..j + n], i)
  {
    var k := 0;
    while k < n
      invariant k <= n && i + k < a.Length
      invariant a[i..i + k] == b[j..j + k]
    {
      var x, y := a[i + k], b[j + k];
      if x != y {
        Mismatch(Text(a), b[j..j + n], i, k);
        return (x as int) - (y as int);
      }
      k := k + 1;
    }
    assert Text(a)[i..i + n] == a[i..i + n];
    return 0;
  }

  lemma Mismatch(text: seq<Byte>, needle: seq<Byte>, p: nat, k: nat)
    requires k < |needle| && (p + k < |text| ==> text[p + k] != needle[k])
    ensures !OccursAt(text, needle, p)
  {
    if p + |needle| <= |text| {
      assert text[p..p + |needle|][k] == text[p + k];
    }
  }

  /** The inner do-while loop: read up to and including the next c or the terminator. */
  method Scan(s: array<Byte>, c: Byte, from: nat) returns (sc: Byte, i: nat)
    requires CString(s) && from < s.Length
    ensures from < i <= s.Length && sc == s[i - 1] && (sc == 0 || sc == c)
    ensures forall k :: from <= k < i - 1 ==> s[k] != c
    ensures sc == 0 <==> i == s.Length
  {
    i := from;
    sc := s[i];
    i := i + 1;
    while sc != 0 && sc != c
      invariant from < i <= s.Length && sc == s[i - 1]
      invariant forall k :: from <= k < i - 1 ==> s[k] != c
      decreases s.Length - i
    {
      sc := s[i];
      i := i + 1;
    }
  }

  /** The first occurrence, or null if there is none or an argument is null. */
  method Find(s: array?<Byte>, find: array?<Byte>) returns (r: Found)
    requires s != null ==> CString(s)
    requires find != null ==> CString(find)
    ensures s == null || find == null ==> r == Null
    ensures s != null && find != null && r.At? ==>
              && OccursAt(Text(s), Text(find), r.index)
              && forall p :: 0 <= p < r.index ==> !OccursAt(Text(s), Text(find), p)
    ensures s != null && find != null && r.Null? ==> forall p :: !OccursAt(Text(s), Text(find), p)
  {
    if s == null || find == null {
      return Null;
    }
    ghost var text, needle := Text(s), Text(find);
    var i := 0;
    var c := find[0];
    if c != 0 {
      var len := Strlen(find, 1);
      assert needle[0] == c && needle[1..] == find[1..1 + len];
      var differs := true;
      while differs
        invariant i < s.Length && (!differs ==> 0 < i)
        invariant forall p :: 0 <= p < (if differs then i else i - 1) ==> !OccursAt(text, needle, p)
        invariant !differs ==> OccursAt(text, needle, i - 1)
        decreases s.Length - i, differs
      {
        ghost var from := i;
        var sc;
        sc, i := Scan(s, c, i);
        forall p | from <= p < i - 1
          ensures !OccursAt(text, needle, p)
        {
          NotHere(text, needle, p);
        }
        if sc == 0 {
          return Null;
        }
        var order := Strncmp(s, i, find, 1, len);
        HeadAndTail(text, needle, i - 1);
        differs := order != 0;
      }
      i := i - 1;
    }
    return At(i);
  }

  lemma NotHere(text: seq<Byte>, needle: seq<Byte>, p: nat)
    requires needle != [] && p < |text| && text[p] != needle[0]
    ensures !OccursAt(text, needle, p)
  {
    Mismatch(text, needle, p, 0);
  }

  /** A needle occurs where its first byte is followed by the rest of it. */
  lemma HeadAndTail(text: seq<Byte>, needle: seq<Byte>, p: nat)
    requires needle != [] && p < |text| && text[p] == needle[0]
    ensures OccursAt(text, needle, p) <==> OccursAt(text, needle[1..], p + 1)
  {
    if p + |needle| <= |text| {
      assert text[p..p + |needle|] == [text[p]] + text[p + 1..p + |needle|];
      assert needle == [needle[0]] + needle[1..];
      assert [text[p]] + text[p + 1..p + |needle|] == [needle[0]] + needle[1..] ==>
        ([text[p]] + text[p + 1..p + |needle|])[1..] == ([needle[0]] + needle[1..])[1..];
    }
  }
}
