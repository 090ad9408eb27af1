// Facts about sequences that several stages of the pipeline share.

module Seqs {

  /** No element occurs twice. */
  predicate NoDup<T(==)>(s: seq<T>)
  {
    forall i, j :: 0 <= i < j < |s| ==> s[i] != s[j]
  }

  /** a is obtained from b by deleting elements, keeping the order of the rest. */
  predicate IsSubsequence<T(==)>(a: seq<T>, b: seq<T>)
  {
    if a == [] then true
    else if b == [] then false
    else if a[|a| - 1] == b[|b| - 1] then IsSubsequence(a[..|a| - 1], b[..|b| - 1])
    else IsSubsequence(a, b[..|b| - 1])
  }

  /** Deleting one more element at the end of b keeps a subsequence a subsequence. */
  lemma {:induction false} SubsequenceExtend<T>(a: seq<T>, b: seq<T>, x: T)
    requires IsSubsequence(a, b)
    ensures IsSubsequence(a, b + [x])
    decreases |a| + |b|, 1
  {
    if a != [] {
      assert (b + [x])[..|b|] == b;
      if a[|a| - 1] == x {
        SubsequenceDrop(a, b);
      }
    }
  }

  /** A subsequence without its last element is still a subsequence. */
  lemma {:induction false} SubsequenceDrop<T>(a: seq<T>, b: seq<T>)
    requires a != [] && IsSubsequence(a, b)
    ensures IsSubsequence(a[..|a| - 1], b)
    decreases |a| + |b|, 0
  {
    var a' := a[..|a| - 1];
    if a[|a| - 1] == b[|b| - 1] {
      SubsequenceExtend(a', b[..|b| - 1], b[|b| - 1]);
      assert b[..|b| - 1] + [b[|b| - 1]] == b;
    } else {
      SubsequenceDrop(a, b[..|b| - 1]);
      SubsequenceExtend(a', b[..|b| - 1], b[|b| - 1]);
      assert b[..|b| - 1] + [b[|b| - 1]] == b;
    }
  }

  /** A non-empty sequence is its front followed by its last element. */
  lemma InitLast<T>(s: seq<T>)
    requires s != []
    ensures s[..|s| - 1] + [s[|s| - 1]] == s
  {
  }

  /** Cutting a sequence at j before or after dropping its last element. */
  lemma SplitInit<T>(s: seq<T>, j: nat)
    requires j < |s|
    ensures s[..|s| - 1][..j] == s[..j]
    ensures s[..|s| - 1][j..] + [s[|s| - 1]] == s[j..]
  {
  }

  lemma AppendAssoc<T>(a: seq<T>, b: seq<T>, c: seq<T>)
    ensures a + (b + c) == (a + b) + c
  {
  }

  /** A slice taken inside a prefix is the same slice of the whole. */
  lemma SliceInPrefix<T>(s: seq<T>, m: nat, a: nat, n: nat)
    requires a + n <= m <= |s|
    ensures s[..m][a..a + n] == s[a..a + n]
  {
  }

  /** A prefix of a slice is a shorter slice. */
  lemma PrefixOfSlice<T>(s: seq<T>, a: nat, n: nat, k: nat)
    requires a + n <= |s| && k <= n
    ensures s[a..a + n][..k] == s[a..a + k]
  {
  }

  /** Multiset membership is sequence membership. */
  lemma MultisetMembers<T>(a: seq<T>, b: seq<T>)
    requires multiset(a) == multiset(b)
    ensures forall x :: x in a <==> x in b
  {
    forall x ensures x in a <==> x in b {
      assert x in a <==> x in multiset(a);
      assert x in b <==> x in multiset(b);
    }
  }

  /** The elements of s that pass keep, in their order (Array.prototype.filter). */
  function Filter<T>(s: seq<T>, keep: T -> bool): (r: seq<T>)
    ensures |r| <= |s|
  {
    if s == [] then []
    else Filter(s[..|s| - 1], keep) + (if keep(s[|s| - 1]) then [s[|s| - 1]] else [])
  }

  /** A filter that every element passes removes nothing. */
  lemma {:induction false} FilterKeepsAll<T>(s: seq<T>, keep: T -> bool)
    requires forall i :: 0 <= i < |s| ==> keep(s[i])
    ensures Filter(s, keep) == s
  {
    if s != [] {
      var init := s[..|s| - 1];
      FilterKeepsAll(init, keep);
      assert init + [s[|s| - 1]] == s;
    }
  }

  /** Filtering a sequence with one more element at the end. */
  lemma FilterSnoc<T>(s: seq<T>, x: T, keep: T -> bool)
    ensures Filter(s + [x], keep) == Filter(s, keep) + (if keep(x) then [x] else [])
  {
    assert (s + [x])[..|s|] == s;
  }

  /** A filter that no element passes leaves nothing. */
  lemma {:induction false} FilterNone<T>(s: seq<T>, keep: T -> bool)
    requires forall i :: 0 <= i < |s| ==> !keep(s[i])
    ensures Filter(s, keep) == []
  {
    if s != [] {
      FilterNone(s[..|s| - 1], keep);
    }
  }

  /** The filter keeps exactly the elements that pass. */
  lemma {:induction false} FilterMembers<T>(s: seq<T>, keep: T -> bool, x: T)
    ensures x in Filter(s, keep) <==> x in s && keep(x)
  {
    if s != [] {
      var init := s[..|s| - 1];
      FilterMembers(init, keep, x);
      assert s == init + [s[|s| - 1]];
    }
  }
}
