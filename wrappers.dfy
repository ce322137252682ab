// Failure-compatible wrappers shared by every module of the model, plus the
// Python list/sequence idioms (first index of, remove first occurrence of,
// negative indexing) that several of the modelled files rely on.
module Wrappers {

  datatype Option<+T> = None | Some(value: T)

  datatype Result<+T, +E> = Ok(value: T) | Err(error: E)

  /** Python's `list.index(x)`: the first position holding `x`, None where Python raises ValueError. */
  function IndexOf<T(==)>(s: seq<T>, x: T): (r: Option<nat>)
    ensures r.Some? ==> r.value < |s| && s[r.value] == x
    ensures r.Some? ==> forall k :: 0 <= k < r.value ==> s[k] != x
    ensures r.None? <==> x !in s
  {
    IndexFrom(s, x, 0)
  }

  /** The first position at or after `i` holding `x`. */
  function IndexFrom<T(==)>(s: seq<T>, x: T, i: nat): (r: Option<nat>)
    requires i <= |s|
    ensures r.Some? ==> i <= r.value < |s| && s[r.value] == x
    ensures r.Some? ==> forall k :: i <= k < r.value ==> s[k] != x
    ensures r.None? <==> forall k :: i <= k < |s| ==> s[k] != x
    decreases |s| - i
  {
    if i == |s| then None
    else if s[i] == x then Some(i)
    else IndexFrom(s, x, i + 1)
  }

  /** `del s[i]` */
  function RemoveAt<T>(s: seq<T>, i: nat): (r: seq<T>)
    requires i < |s|
    ensures |r| == |s| - 1
    ensures forall k :: 0 <= k < |r| ==> r[k] == s[if k < i then k else k + 1]
  {
    s[..i] + s[i+1..]
  }

  /** An element of a concatenation is an element of one of its parts. */
  lemma InConcat<T>(a: seq<T>, b: seq<T>, x: T)
    ensures x in a + b <==> x in a || x in b
  {
  }

  /** Deleting position i takes one occurrence of `s[i]` out of the multiset. */
  lemma RemoveAtCount<T>(s: seq<T>, i: nat)
    requires i < |s|
    ensures multiset(RemoveAt(s, i)) == multiset(s) - multiset{s[i]}
  {
    assert s == s[..i] + [s[i]] + s[i+1..];
  }

  /** Python's `try: s.remove(x) except: pass`: drop the first occurrence of `x`, if there is one. */
  function RemoveFirst<T(==)>(s: seq<T>, x: T): (r: seq<T>)
    ensures x in s ==> |r| == |s| - 1
    ensures x !in s ==> r == s
  {
    match IndexOf(s, x)
    case None => s
    case Some(i) => RemoveAt(s, i)
  }

  /** Removing takes one occurrence of `x` out of the multiset, and none when there is none. */
  lemma RemoveFirstCount<T>(s: seq<T>, x: T)
    ensures multiset(RemoveFirst(s, x)) == multiset(s) - multiset{x}
  {
    match IndexOf(s, x)
    case None =>
    case Some(i) => RemoveAtCount(s, i);
  }

  /** Python indexing `s[i]` for `-|s| <= i < |s|`: a negative index counts from the end. */
  function PyIndex(i: int, n: nat): (k: nat)
    requires -(n as int) <= i < n
    ensures k < n
    ensures i >= 0 ==> k == i
    ensures i < 0 ==> k == n + i
  {
    if i < 0 then n + i else i
  }

  function Reverse<T>(s: seq<T>): (r: seq<T>)
    ensures |r| == |s|
    ensures forall k :: 0 <= k < |s| ==> r[k] == s[|s| - 1 - k]
  {
    if s == [] then [] else Reverse(s[1..]) + [s[0]]
  }

  lemma ReverseSnoc<T>(s: seq<T>, x: T)
    ensures Reverse(s + [x]) == [x] + Reverse(s)
  {
    var r := Reverse(s + [x]);
    assert forall k :: 0 <= k < |r| ==> r[k] == ([x] + Reverse(s))[k];
  }

  function Sum(s: seq<int>): int
  {
    if s == [] then 0 else s[0] + Sum(s[1..])
  }

  /** `sum(s) == len(s)` holds for a sequence of values in {-1, 0, 1} exactly when every value is 1. */
  lemma {:induction false} SumIsLengthIffAllOnes(s: seq<int>)
    requires forall k :: 0 <= k < |s| ==> -1 <= s[k] <= 1
    ensures Sum(s) == |s| <==> forall k :: 0 <= k < |s| ==> s[k] == 1
  {
    if s != [] {
      SumIsLengthIffAllOnes(s[1..]);
      SumAtMostLength(s[1..]);
      assert forall k :: 0 <= k < |s| - 1 ==> s[1..][k] == s[k + 1];
    }
  }

  lemma {:induction false} SumAtMostLength(s: seq<int>)
    requires forall k :: 0 <= k < |s| ==> s[k] <= 1
    ensures Sum(s) <= |s|
  {
    if s != [] {
      SumAtMostLength(s[1..]);
    }
  }
}
