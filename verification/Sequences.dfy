/** Operations on sequences that the linked structures of queue.h are proved to perform. */
module Sequences {

  ghost predicate Distinct<T>(s: seq<T>) {
    forall i, j :: 0 <= i < j < |s| ==> s[i] != s[j]
  }

  /** `s` with `x` inserted at index k. */
  ghost function Inserted<T>(s: seq<T>, k: nat, x: T): (t: seq<T>)
    requires k <= |s|
    ensures |t| == |s| + 1 && t[k] == x
    ensures forall i :: 0 <= i < k ==> t[i] == s[i]
    ensures forall i :: k < i < |t| ==> t[i] == s[i - 1]
  {
    s[..k] + [x] + s[k..]
  }

  /** `s` without the element at index k. */
  ghost function Dropping<T>(s: seq<T>, k: nat): (t: seq<T>)
    requires k < |s|
    ensures |t| == |s| - 1
    ensures forall i :: 0 <= i < k ==> t[i] == s[i]
    ensures forall i :: k <= i < |t| ==> t[i] == s[i + 1]
  {
    s[..k] + s[k + 1..]
  }

  ghost function IndexOf<T>(s: seq<T>, x: T): (k: nat)
    requires x in s
    ensures k < |s| && s[k] == x
  {
    if s[0] == x then 0 else 1 + IndexOf(s[1..], x)
  }

  lemma {:induction false} IndexOfUnique<T>(s: seq<T>, k: nat)
    requires Distinct(s) && k < |s|
    ensures IndexOf(s, s[k]) == k
  {
    var j := IndexOf(s, s[k]);
    assert s[j] == s[k];
  }
}
