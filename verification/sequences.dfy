/** Order-preserving filtering of sequences, as Python list comprehensions
    with an `if` clause do it. */
module Sequences {

  /** `a` can be obtained from `b` by deleting elements (order is kept). */
  ghost predicate IsSubsequence<T>(a: seq<T>, b: seq<T>)
    decreases |b|
  {
    if a == [] then true
    else if b == [] then false
    else if a[0] == b[0] then IsSubsequence(a[1..], b[1..])
    else IsSubsequence(a, b[1..])
  }

  /** `[x for x in s if p(x)]`: the elements of `s` satisfying `p`, in order,
      each as often as it occurs in `s`. */
  function Filter<T(==,!new)>(s: seq<T>, p: T -> bool): (r: seq<T>)
    ensures IsSubsequence(r, s)
    ensures forall i | 0 <= i < |r| :: p(r[i])
    ensures forall x :: multiset(r)[x] == if p(x) then multiset(s)[x] else 0
  {
    if s == [] then []
    else
      var rest := Filter(s[1..], p);
      assert s == [s[0]] + s[1..];
      if p(s[0]) then [s[0]] + rest else rest
  }

  /** `s[:n]`: the first `n` elements, or all of `s` when it is shorter. */
  function Take<T>(s: seq<T>, n: nat): (r: seq<T>)
    ensures |r| == if n <= |s| then n else |s|
    ensures forall i | 0 <= i < |r| :: r[i] == s[i]
  {
    if n <= |s| then s[..n] else s
  }

  lemma {:induction false} PrefixIsSubsequence<T>(a: seq<T>, n: nat)
    requires n <= |a|
    ensures IsSubsequence(a[..n], a)
    decreases n
  {
    if n > 0 {
      PrefixIsSubsequence(a[1..], n - 1);
      assert a[..n][1..] == a[1..][..n - 1];
    }
  }

  lemma {:induction false} SubsequenceDropFirst<T>(a: seq<T>, b: seq<T>)
    requires a != [] && IsSubsequence(a, b)
    ensures IsSubsequence(a[1..], b)
    decreases |b|, 1
  {
    if a[0] != b[0] {
      SubsequenceDropFirst(a, b[1..]);
    }
    SubsequenceExtend(a[1..], b);
  }

  lemma {:induction false} SubsequenceExtend<T>(x: seq<T>, b: seq<T>)
    requires b != [] && IsSubsequence(x, b[1..])
    ensures IsSubsequence(x, b)
    decreases |b|, 0
  {
    if x != [] && x[0] == b[0] {
      SubsequenceDropFirst(x, b[1..]);
    }
  }

  lemma {:induction false} SubsequenceTransitive<T>(a: seq<T>, b: seq<T>, c: seq<T>)
    requires IsSubsequence(a, b) && IsSubsequence(b, c)
    ensures IsSubsequence(a, c)
    decreases |c|
  {
    if a != [] {
      assert c != [];
      if b[0] == c[0] {
        if a[0] == b[0] {
          SubsequenceTransitive(a[1..], b[1..], c[1..]);
        } else {
          SubsequenceTransitive(a, b[1..], c[1..]);
          assert a[0] != c[0];
        }
      } else {
        SubsequenceTransitive(a, b, c[1..]);
        if a[0] == c[0] { SubsequenceDropFirst(a, c[1..]); }
      }
    }
  }

  /** Every element of a subsequence occurs in the whole sequence. */
  lemma {:induction false} SubsequenceElements<T>(a: seq<T>, b: seq<T>)
    requires IsSubsequence(a, b)
    ensures forall i | 0 <= i < |a| :: a[i] in b
    decreases |b|
  {
    if a != [] {
      if a[0] == b[0] {
        SubsequenceElements(a[1..], b[1..]);
        forall i | 0 <= i < |a| ensures a[i] in b {
          if i > 0 { assert a[i] == a[1..][i - 1]; }
        }
      } else {
        SubsequenceElements(a, b[1..]);
      }
    }
  }

  /** `Take` yields the prefix of `s` of length `min(n, |s|)`, which is a
      subsequence of `s`. */
  lemma TakeIsSubsequence<T>(s: seq<T>, n: nat)
    ensures Take(s, n) == s[..if n <= |s| then n else |s|]
    ensures |Take(s, n)| <= n && |Take(s, n)| <= |s|
    ensures IsSubsequence(Take(s, n), s)
  {
    if n <= |s| { PrefixIsSubsequence(s, n); } else { PrefixIsSubsequence(s, |s|); assert s[..|s|] == s; }
  }
}
