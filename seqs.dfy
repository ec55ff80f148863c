/** The array queries the account service relies on: `find`, `findIndex`
    and `filter`, as pure functions over sequences, with the facts the
    service's operations need about them. */
module Seqs {

  datatype Option<T> = None | Some(value: T)

  /** `findIndex`: the position of the first element satisfying `p`, or -1. */
  function FindIndex<T>(p: T -> bool, s: seq<T>): (i: int)
    ensures -1 <= i < |s|
    ensures i == -1 <==> forall k :: 0 <= k < |s| ==> !p(s[k])
    ensures 0 <= i ==> p(s[i]) && forall k :: 0 <= k < i ==> !p(s[k])
  {
    if s == [] then -1
    else if p(s[0]) then 0
    else
      var j := FindIndex(p, s[1..]);
      if j == -1 then -1 else j + 1
  }

  /** `find`: the first element satisfying `p`, if there is one. */
  function Find<T(!new)>(p: T -> bool, s: seq<T>): (r: Option<T>)
    ensures r.None? <==> forall x :: x in s ==> !p(x)
    ensures r.Some? ==> r.value in s && p(r.value)
    ensures r.Some? ==> r.value == s[FindIndex(p, s)]
  {
    var i := FindIndex(p, s);
    if i == -1 then None else Some(s[i])
  }

  /** `filter`: the elements satisfying `p`, in their original order. */
  function Filter<T(!new)>(p: T -> bool, s: seq<T>): (r: seq<T>)
    ensures |r| <= |s|
    ensures forall x :: x in r <==> x in s && p(x)
  {
    if s == [] then []
    else (if p(s[0]) then [s[0]] else []) + Filter(p, s[1..])
  }

  /** Filtering distributes over concatenation: the order of the kept
      elements is the order they had in the input. */
  lemma {:induction false} FilterConcat<T(!new)>(p: T -> bool, a: seq<T>, b: seq<T>)
    ensures Filter(p, a + b) == Filter(p, a) + Filter(p, b)
  {
    if a == [] {
      assert a + b == b;
    } else {
      assert (a + b)[1..] == a[1..] + b;
      FilterConcat(p, a[1..], b);
    }
  }

  /** Filtering keeps the length exactly when every element is kept, and
      then the result is the input itself. */
  lemma {:induction false} FilterKeepsAll<T(!new)>(p: T -> bool, s: seq<T>)
    ensures |Filter(p, s)| == |s| <==> forall k :: 0 <= k < |s| ==> p(s[k])
    ensures (forall k :: 0 <= k < |s| ==> p(s[k])) ==> Filter(p, s) == s
  {
    if s != [] {
      var tail := s[1..];
      FilterKeepsAll(p, tail);
      assert (forall k :: 0 <= k < |s| ==> p(s[k])) <==> p(s[0]) && forall k :: 0 <= k < |tail| ==> p(tail[k]) by {
        assert forall k :: 0 < k < |s| ==> s[k] == tail[k - 1];
      }
      if p(s[0]) {
        assert Filter(p, s) == [s[0]] + Filter(p, tail);
        assert s == [s[0]] + tail;
      } else {
        assert Filter(p, s) == Filter(p, tail);
      }
    }
  }

  /** A predicate and its complement split the input between them. */
  lemma {:induction false} FilterComplement<T(!new)>(p: T -> bool, q: T -> bool, s: seq<T>)
    requires forall x :: q(x) == !p(x)
    ensures |Filter(p, s)| + |Filter(q, s)| == |s|
  {
    if s != [] {
      FilterComplement(p, q, s[1..]);
    }
  }
}
