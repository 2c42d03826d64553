/** Order-preserving selection, the shape of every list comprehension with a
    condition in the reporter. */
module Sequences {

  /** `r` can be obtained from `s` by deleting elements, keeping the order of
      the rest. */
  ghost predicate IsSubsequence<T>(r: seq<T>, s: seq<T>)
    decreases |s|
  {
    if |r| == 0 then true
    else if |s| == 0 then false
    else (r[0] == s[0] && IsSubsequence(r[1..], s[1..])) || IsSubsequence(r, s[1..])
  }

  /** Keeping or dropping the head of `s` on top of a subsequence of its tail
      gives a subsequence of `s`. */
  lemma {:induction false} SubsequenceCons<T>(r: seq<T>, s: seq<T>, keep: bool)
    requires |s| > 0
    requires IsSubsequence(r, s[1..])
    ensures IsSubsequence(if keep then [s[0]] + r else r, s)
  {
    if keep {
      assert ([s[0]] + r)[1..] == r;
    } else if |r| > 0 {
      assert IsSubsequence(r, s[1..]);
    }
  }

  lemma {:induction false} SubsequenceMembers<T>(r: seq<T>, s: seq<T>)
    requires IsSubsequence(r, s)
    ensures forall x :: x in r ==> x in s
    decreases |s|
  {
    if |r| > 0 {
      if r[0] == s[0] && IsSubsequence(r[1..], s[1..]) {
        SubsequenceMembers(r[1..], s[1..]);
        assert r == [r[0]] + r[1..];
      } else {
        SubsequenceMembers(r, s[1..]);
      }
    }
  }

  /** The elements of `s` that satisfy `keep`, in order: `[x for x in s if keep(x)]`. */
  function Filter<T(!new)>(s: seq<T>, keep: T -> bool): (r: seq<T>)
    ensures forall x :: multiset(r)[x] == if keep(x) then multiset(s)[x] else 0
    ensures forall i :: 0 <= i < |r| ==> keep(r[i])
    ensures IsSubsequence(r, s)
  {
    if |s| == 0 then
      []
    else
      var tail := Filter(s[1..], keep);
      assert s == [s[0]] + s[1..];
      SubsequenceCons(tail, s, keep(s[0]));
      if keep(s[0]) then [s[0]] + tail else tail
  }

  /** `f` applied to every element, in order: `[f(x) for x in s]`. */
  function Map<A, B>(s: seq<A>, f: A -> B): (r: seq<B>)
    ensures |r| == |s|
    ensures forall i :: 0 <= i < |s| ==> r[i] == f(s[i])
  {
    if |s| == 0 then [] else [f(s[0])] + Map(s[1..], f)
  }

  /** A map with a left inverse keeps multiplicities: `f(x)` occurs in the
      image as often as `x` occurs in `s`. */
  lemma {:induction false} MapCounts<A, B>(s: seq<A>, f: A -> B, back: B -> A, x: A)
    requires forall a :: back(f(a)) == a
    ensures multiset(Map(s, f))[f(x)] == multiset(s)[x]
  {
    if |s| > 0 {
      var tail := Map(s[1..], f);
      MapCounts(s[1..], f, back, x);
      assert Map(s, f) == [f(s[0])] + tail;
      assert s == [s[0]] + s[1..];
      assert f(s[0]) == f(x) <==> s[0] == x by {
        assert back(f(s[0])) == s[0] && back(f(x)) == x;
      }
      assert multiset(Map(s, f)) == multiset([f(s[0])]) + multiset(tail);
      assert multiset(s) == multiset([s[0]]) + multiset(s[1..]);
    }
  }

  /** The first step of `Filter`. */
  lemma FilterCons<T(!new)>(s: seq<T>, keep: T -> bool)
    requires |s| > 0
    ensures Filter(s, keep) == if keep(s[0]) then [s[0]] + Filter(s[1..], keep) else Filter(s[1..], keep)
  {
  }
}
