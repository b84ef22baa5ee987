/** Order-preserving filtering, counting, subsequences and "first maximal" selection. */
module Seqs {

  /** `list(filter(p, s))`: the elements of `s` satisfying `p`, in their original order. */
  function Filter<T(!new)>(p: T -> bool, s: seq<T>): (r: seq<T>)
    ensures |r| <= |s|
    ensures forall x :: x in r <==> x in s && p(x)
    ensures forall x :: multiset(r)[x] == if p(x) then multiset(s)[x] else 0
    ensures Subseq(r, s)
  {
    if s == [] then []
    else
      var rest := Filter(p, s[1..]);
      assert s == [s[0]] + s[1..];
      if p(s[0]) then [s[0]] + rest else rest
  }

  /** `a` can be obtained from `b` by deleting elements. */
  predicate Subseq<T(==)>(a: seq<T>, b: seq<T>)
    decreases |b|
  {
    a == [] || (|b| > 0 && (Subseq(a, b[1..]) || (a[0] == b[0] && Subseq(a[1..], b[1..]))))
  }

  lemma {:induction false} SubseqMembers<T>(a: seq<T>, b: seq<T>)
    requires Subseq(a, b)
    ensures forall x :: x in a ==> x in b
    ensures |a| <= |b|
    decreases |b|
  {
    if a != [] {
      if Subseq(a, b[1..]) {
        SubseqMembers(a, b[1..]);
      } else {
        SubseqMembers(a[1..], b[1..]);
        assert a == [a[0]] + a[1..];
        assert b == [b[0]] + b[1..];
      }
    }
  }

  lemma {:induction false} SubseqRefl<T>(a: seq<T>)
    ensures Subseq(a, a)
    decreases |a|
  {
    if a != [] {
      SubseqRefl(a[1..]);
    }
  }

  lemma {:induction false} SubseqTrans<T>(a: seq<T>, b: seq<T>, c: seq<T>)
    requires Subseq(a, b) && Subseq(b, c)
    ensures Subseq(a, c)
    decreases |c|
  {
    if a != [] {
      assert |c| > 0 by { SubseqMembers(a, b); SubseqMembers(b, c); }
      if Subseq(b, c[1..]) {
        SubseqTrans(a, b, c[1..]);
      } else {
        assert b[0] == c[0] && Subseq(b[1..], c[1..]);
        if Subseq(a, b[1..]) {
          SubseqTrans(a, b[1..], c[1..]);
        } else {
          SubseqTrans(a[1..], b[1..], c[1..]);
        }
      }
    }
  }

  /** Filtering again with a predicate every element already satisfies changes nothing. */
  lemma {:induction false} FilterAllPass<T(!new)>(p: T -> bool, s: seq<T>)
    requires forall x :: x in s ==> p(x)
    ensures Filter(p, s) == s
    decreases |s|
  {
    if s != [] {
      FilterAllPass(p, s[1..]);
    }
  }

  /** Filtering with a weaker predicate keeps everything a stronger one keeps, in the same order. */
  lemma {:induction false} FilterStronger<T(!new)>(p: T -> bool, q: T -> bool, s: seq<T>)
    requires forall x :: x in s && p(x) ==> q(x)
    ensures Subseq(Filter(p, s), Filter(q, s))
    decreases |s|
  {
    if s != [] {
      FilterStronger(p, q, s[1..]);
      var a, b := Filter(p, s[1..]), Filter(q, s[1..]);
      if p(s[0]) {
        assert ([s[0]] + a)[1..] == a && ([s[0]] + b)[1..] == b;
      } else if q(s[0]) {
        assert ([s[0]] + b)[1..] == b;
      }
    }
  }

  /** The number of elements of `s` satisfying `p` (`sum(1 for x in s if p(x))`). */
  function Count<T>(p: T -> bool, s: seq<T>): (n: nat)
    ensures n <= |s|
  {
    if s == [] then 0 else (if p(s[0]) then 1 else 0) + Count(p, s[1..])
  }

  /** Two predicates that disagree on every element split `s` in two. */
  lemma {:induction false} CountComplement<T>(p: T -> bool, q: T -> bool, s: seq<T>)
    requires forall x :: x in s ==> p(x) != q(x)
    ensures Count(p, s) + Count(q, s) == |s|
    decreases |s|
  {
    if s != [] {
      CountComplement(p, q, s[1..]);
    }
  }

  /** Three predicates of which exactly one holds of each element split `s` in three. */
  lemma {:induction false} CountPartition<T>(p: T -> bool, q: T -> bool, r: T -> bool, s: seq<T>)
    requires forall x :: x in s ==>
      (if p(x) then 1 else 0) + (if q(x) then 1 else 0) + (if r(x) then 1 else 0) == 1
    ensures Count(p, s) + Count(q, s) + Count(r, s) == |s|
    decreases |s|
  {
    if s != [] {
      CountPartition(p, q, r, s[1..]);
    }
  }

  /** The index of the first maximal element: what a stable sort by descending score puts first. */
  function FirstMaxIndex(s: seq<real>): (k: nat)
    requires |s| > 0
    ensures k < |s|
    ensures forall j :: 0 <= j < |s| ==> s[j] <= s[k]
    ensures forall j :: 0 <= j < k ==> s[j] < s[k]
  {
    if |s| == 1 then 0
    else
      var k := FirstMaxIndex(s[..|s| - 1]);
      if s[|s| - 1] > s[k] then |s| - 1 else k
  }
}
