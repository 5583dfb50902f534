/** Searching and shifting, as the C code does it with a loop and memmove. */
module Sequences {

  function RemoveAt<T>(a: seq<T>, i: nat): (r: seq<T>)
    requires i < |a|
    ensures |r| == |a| - 1 && forall k :: 0 <= k < |r| ==> r[k] == a[if k < i then k else k + 1]
  {
    a[..i] + a[i + 1..]
  }

  function InsertAt<T>(a: seq<T>, i: nat, x: T): (r: seq<T>)
    requires i <= |a|
    ensures |r| == |a| + 1 && r[i] == x
    ensures forall k :: 0 <= k < |r| && k != i ==> r[k] == a[if k < i then k else k - 1]
  {
    a[..i] + [x] + a[i..]
  }

  /** The first position of `x`, or the length. */
  function Pos<T(==)>(a: seq<T>, x: T): (i: nat)
    ensures i <= |a| && (i < |a| ==> a[i] == x)
    ensures forall j :: 0 <= j < i ==> a[j] != x
    ensures i < |a| <==> x in a
  {
    if a == [] || a[0] == x then 0 else 1 + Pos(a[1..], x)
  }

  lemma PosIs<T>(a: seq<T>, x: T, i: nat)
    requires i <= |a| && (i < |a| ==> a[i] == x)
    requires forall j :: 0 <= j < i ==> a[j] != x
    ensures Pos(a, x) == i
  {
  }
}
