/** Sequence operations the vector code is specified with. */
module Sequences {
  datatype Option<+A> = None | Some(value: A)

  /** `s` with `piece` put in front of position `at`. */
  function Inserted<T>(s: seq<T>, at: nat, piece: seq<T>): seq<T>
    requires at <= |s|
  {
    s[..at] + piece + s[at..]
  }

  lemma InsertNothing<T>(s: seq<T>, at: nat, piece: seq<T>)
    requires at <= |s|
    ensures piece == [] ==> Inserted(s, at, piece) == s
  {
  }

  /** The piece lies where it has been put, between what was in front and behind. */
  lemma InsertedParts<T>(s: seq<T>, at: nat, piece: seq<T>)
    requires at <= |s|
    ensures var r := Inserted(s, at, piece);
      && |r| == |s| + |piece| && r[..at] == s[..at] && r[at..at + |piece|] == piece && r[at + |piece|..] == s[at..]
  {
  }

  /** `s` without the `count` items that start at position `at`. */
  function Removed<T>(s: seq<T>, at: nat, count: nat): seq<T>
    requires at + count <= |s|
  {
    s[..at] + s[at + count..]
  }

  function OverwrittenAt<T>(s: seq<T>, at: nat, piece: seq<T>, i: nat): T
    requires i < |s|
  {
    if at <= i < at + |piece| then piece[i - at] else s[i]
  }

  /** `s` with the items from position `at` on replaced by `piece`. */
  function Overwritten<T>(s: seq<T>, at: nat, piece: seq<T>): (r: seq<T>)
    requires at + |piece| <= |s|
    ensures |r| == |s|
    ensures forall i :: 0 <= i < |s| ==> r[i] == OverwrittenAt(s, at, piece, i)
  {
    s[..at] + piece + s[at + |piece|..]
  }

  function Repeat<T>(x: T, n: nat): (r: seq<T>)
    ensures |r| == n
    ensures forall i :: 0 <= i < n ==> r[i] == x
  {
    seq(n, _ => x)
  }
}
