/** Small facts about sequences of handles used across the model. */
module Sequences {

  /** No element occurs twice. */
  predicate Distinct<T(==)>(s: seq<T>) {
    forall i, j :: 0 <= i < j < |s| ==> s[i] != s[j]
  }

  /** A sequence is duplicate-free exactly when no element occurs twice in its multiset. */
  lemma {:induction false} DistinctIffSingletons<T>(s: seq<T>)
    ensures Distinct(s) <==> forall x :: multiset(s)[x] <= 1
  {
    if s == [] {
    } else {
      DistinctIffSingletons(s[1..]);
      assert s == [s[0]] + s[1..];
      assert multiset(s) == multiset{s[0]} + multiset(s[1..]);
      if Distinct(s) {
        assert Distinct(s[1..]) by {
          forall i, j | 0 <= i < j < |s[1..]| ensures s[1..][i] != s[1..][j] {
            assert s[1..][i] == s[i + 1] && s[1..][j] == s[j + 1];
          }
        }
        assert s[0] !in s[1..] by {
          forall k | 0 <= k < |s[1..]| ensures s[1..][k] != s[0] {
            assert s[1..][k] == s[k + 1];
          }
        }
      } else {
        var i, j :| 0 <= i < j < |s| && s[i] == s[j];
        if i == 0 {
          assert s[j] in s[1..] by { assert s[1..][j - 1] == s[j]; }
          assert multiset(s)[s[0]] >= 2;
        } else {
          assert s[1..][i - 1] == s[i] && s[1..][j - 1] == s[j];
          assert !Distinct(s[1..]);
          var x :| multiset(s[1..])[x] > 1;
          assert multiset(s)[x] > 1;
        }
      }
    }
  }

  /** Taking some of the elements of a duplicate-free sequence, in any
      order, gives a duplicate-free sequence. */
  lemma SubmultisetKeepsDistinct<T>(s: seq<T>, t: seq<T>)
    requires Distinct(s)
    requires multiset(t) <= multiset(s)
    ensures Distinct(t)
    ensures forall x :: x in t ==> x in s
  {
    DistinctIffSingletons(s);
    DistinctIffSingletons(t);
    forall x | x in t ensures x in s {
      assert x in multiset(t);
    }
  }

  /** Two parts that together hold a duplicate-free sequence's elements are
      duplicate-free, lie within it, and share no element. */
  lemma SplitApart<T>(whole: seq<T>, a: seq<T>, b: seq<T>)
    requires Distinct(whole)
    requires multiset(a) + multiset(b) == multiset(whole)
    ensures Distinct(a) && Distinct(b)
    ensures forall x :: x in a ==> x in whole && x !in b
    ensures forall x :: x in b ==> x in whole
  {
    DistinctIffSingletons(whole);
    forall x ensures multiset(a)[x] <= 1 && multiset(b)[x] <= 1 {
      assert multiset(a)[x] + multiset(b)[x] == multiset(whole)[x];
    }
    DistinctIffSingletons(a);
    DistinctIffSingletons(b);
    forall x | x in a ensures x in whole && x !in b {
      assert multiset(a)[x] >= 1 && multiset(a)[x] + multiset(b)[x] == multiset(whole)[x];
      assert multiset(b)[x] == 0;
    }
    forall x | x in b ensures x in whole {
      assert multiset(b)[x] >= 1 && multiset(a)[x] + multiset(b)[x] == multiset(whole)[x];
    }
  }

  /** Three parts that together hold a duplicate-free sequence's elements
      are duplicate-free and pairwise share no element. */
  lemma ThreeApart<T>(whole: seq<T>, a: seq<T>, b: seq<T>, c: seq<T>)
    requires Distinct(whole)
    requires multiset(a) + multiset(b) + multiset(c) == multiset(whole)
    ensures Distinct(a) && Distinct(b) && Distinct(c)
    ensures forall x :: x in a ==> x !in b && x !in c
    ensures forall x :: x in b ==> x !in c
  {
    SplitApart(whole, a, b + c);
    SplitApart(b + c, b, c);
  }

  /** Cutting a sequence in two splits its multiset. */
  lemma MultisetSplit<T>(s: seq<T>, n: nat)
    requires n <= |s|
    ensures multiset(s[..n]) + multiset(s[n..]) == multiset(s)
  {
    assert s == s[..n] + s[n..];
  }

  /** Appending an element not yet present keeps a list duplicate-free. */
  lemma DistinctSnoc<T>(s: seq<T>, x: T)
    requires Distinct(s) && x !in s
    ensures Distinct(s + [x])
  {
  }

  /** Appending two runs one after another appends their concatenation. */
  lemma AppendTwo<T>(a: seq<T>, b: seq<T>, c: seq<T>)
    ensures a + b + c == a + (b + c)
  {
  }

  /** Appending three runs one after another appends their concatenation. */
  lemma AppendThree<T>(a: seq<T>, b: seq<T>, c: seq<T>, d: seq<T>)
    ensures a + b + c + d == a + (b + c + d)
  {
  }

  /** A duplicate-free sequence has as many distinct elements as entries. */
  lemma {:induction false} DistinctElements<T>(s: seq<T>)
    requires Distinct(s)
    ensures |set x | x in s| == |s|
  {
    if s != [] {
      DistinctElements(s[1..]);
      assert (set x | x in s) == {s[0]} + set x | x in s[1..];
      assert s[0] !in s[1..];
    }
  }

  /** A subset has no more elements than its superset. */
  lemma SubsetNoLarger<T>(a: set<T>, b: set<T>)
    requires a <= b
    ensures |a| <= |b|
  {
    assert b == a + (b - a);
    assert a * (b - a) == {};
  }

  /** A duplicate-free sequence whose elements all occur in another
      duplicate-free sequence of the same length holds all of that one's. */
  lemma SameSizeCovers<T>(a: seq<T>, b: seq<T>)
    requires Distinct(a) && Distinct(b) && |a| == |b|
    requires forall x :: x in a ==> x in b
    ensures forall x :: x in b ==> x in a
  {
    DistinctElements(a);
    DistinctElements(b);
    forall y | y in b
      ensures y in a
    {
      if y !in a {
        SubsetNoLarger(set x | x in a, (set x | x in b) - {y});
      }
    }
  }

  /** A duplicate-free sequence whose elements all occur in a longer
      duplicate-free one misses one of that one's elements. */
  lemma ShorterMisses<T>(a: seq<T>, b: seq<T>)
    requires Distinct(a) && Distinct(b) && |a| < |b|
    requires forall x :: x in a ==> x in b
    ensures exists y :: y in b && y !in a
  {
    DistinctElements(a);
    DistinctElements(b);
    if forall y :: y in b ==> y in a {
      SubsetNoLarger(set x | x in b, set x | x in a);
    }
  }
}
