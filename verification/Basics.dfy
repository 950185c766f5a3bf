/** Types and list operations that several models use. */
module Basics {

  datatype Option<T> = None | Some(value: T)

  type byte = bv8

  /** Position of `x`, or the length of the list. */
  function Find(l: seq<nat>, x: nat): (i: nat)
    ensures i <= |l|
    ensures i < |l| ==> l[i] == x
    ensures x in l ==> i < |l|
    ensures forall j | 0 <= j < i :: l[j] != x
  {
    if l == [] then 0 else if l[0] == x then 0 else 1 + Find(l[1..], x)
  }

  /** The list without its element `i`. */
  function Drop<T>(l: seq<T>, i: nat): (r: seq<T>)
    requires i < |l|
    ensures |r| == |l| - 1
    ensures forall x :: x in r ==> x in l
  {
    l[..i] + l[i + 1..]
  }
}
