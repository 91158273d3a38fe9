/** Option/Result wrappers and the order-preserving filter and sums used by the scan and the planner. */
module Seqs {

  datatype Option<+T> = None | Some(value: T)

  datatype Result<+T, +E> = Ok(value: T) | Err(error: E)

  /** The elements of `s` that satisfy `p`, in their original order (a list comprehension with a guard). */
  function Filter<T(!new)>(s: seq<T>, p: T -> bool): (r: seq<T>)
    ensures |r| <= |s|
    ensures forall x :: x in r <==> x in s && p(x)
  {
    if s == [] then []
    else
      var init, last := s[..|s| - 1], s[|s| - 1];
      assert s == init + [last];
      Filter(init, p) + (if p(last) then [last] else [])
  }

  /** The positions of `s` whose element satisfies `p`, in increasing order. */
  function Indices<T>(s: seq<T>, p: T -> bool): (ix: seq<nat>)
    ensures |ix| <= |s|
    ensures forall j :: 0 <= j < |ix| ==> ix[j] < |s| && p(s[ix[j]])
    ensures forall j, k :: 0 <= j < k < |ix| ==> ix[j] < ix[k]
    ensures forall i :: 0 <= i < |s| && p(s[i]) ==> i in ix
  {
    if s == [] then []
    else
      var n := |s| - 1;
      var init := Indices(s[..n], p);
      init + (if p(s[n]) then [n] else [])
  }

  /** `Filter` keeps as many elements as `Indices` finds positions. */
  lemma {:induction false} FilterCountsIndices<T(!new)>(s: seq<T>, p: T -> bool)
    ensures |Filter(s, p)| == |Indices(s, p)|
  {
    if s != [] {
      var n := |s| - 1;
      FilterCountsIndices(s[..n], p);
      assert |Filter(s, p)| == |Filter(s[..n], p)| + (if p(s[n]) then 1 else 0);
      assert |Indices(s, p)| == |Indices(s[..n], p)| + (if p(s[n]) then 1 else 0);
    }
  }

  /** `Filter` keeps exactly the elements at `Indices`, one for one and in the same order. */
  lemma {:induction false} FilterAtIndices<T(!new)>(s: seq<T>, p: T -> bool)
    ensures |Filter(s, p)| == |Indices(s, p)|
    ensures forall j :: 0 <= j < |Indices(s, p)| ==> Filter(s, p)[j] == s[Indices(s, p)[j]]
  {
    FilterCountsIndices(s, p);
    if s != [] {
      var n := |s| - 1;
      var init := s[..n];
      FilterAtIndices(init, p);
      var fs, ix := Filter(init, p), Indices(init, p);
      assert Filter(s, p) == fs + (if p(s[n]) then [s[n]] else []);
      assert Indices(s, p) == ix + (if p(s[n]) then [n] else []);
      forall j | 0 <= j < |ix| ensures Filter(s, p)[j] == s[Indices(s, p)[j]] {
        assert init[ix[j]] == s[ix[j]];
      }
    }
  }

  /** Sum of `f` over the elements of `s` (Python's `sum(f(x) for x in s)`). */
  function SumOf<T>(s: seq<T>, f: T -> nat): nat
  {
    if s == [] then 0 else SumOf(s[..|s| - 1], f) + f(s[|s| - 1])
  }

  lemma {:induction false} SumOfAppend<T>(a: seq<T>, b: seq<T>, f: T -> nat)
    ensures SumOf(a + b, f) == SumOf(a, f) + SumOf(b, f)
  {
    if b == [] {
      assert a + b == a;
    } else {
      var n := |b| - 1;
      assert (a + b)[..|a + b| - 1] == a + b[..n];
      assert (a + b)[|a + b| - 1] == b[n];
      SumOfAppend(a, b[..n], f);
    }
  }

  /** Dropping elements never increases a sum of naturals. */
  lemma {:induction false} SumOfFilterLe<T(!new)>(s: seq<T>, p: T -> bool, f: T -> nat)
    ensures SumOf(Filter(s, p), f) <= SumOf(s, f)
  {
    if s != [] {
      var n := |s| - 1;
      SumOfFilterLe(s[..n], p, f);
      var tail := if p(s[n]) then [s[n]] else [];
      SumOfAppend(Filter(s[..n], p), tail, f);
    }
  }
}
