/** Facts about sequences and multisets used by the proofs of several
    modules. */
module Seqs {
  /** an element added to both sides cancels */
  lemma MultisetCancel<T>(p: multiset<T>, q: multiset<T>, x: T)
    requires p + multiset{x} == q + multiset{x}
    ensures p == q
  {
    assert p == (p + multiset{x}) - multiset{x};
    assert q == (q + multiset{x}) - multiset{x};
  }

  /** Taking the last of a and an equal element at j of b from both leaves
      equal multisets. */
  lemma RemoveBoth<T>(a: seq<T>, b: seq<T>, j: nat)
    requires multiset(a) == multiset(b) && a != [] && j < |b| && b[j] == a[|a| - 1]
    ensures multiset(a[..|a| - 1]) == multiset(b[..j] + b[j + 1..])
  {
    var x, init, left, right := a[|a| - 1], a[..|a| - 1], b[..j], b[j + 1..];
    assert a == init + [x];
    assert b == left + [x] + right;
    assert multiset(a) == multiset(init) + multiset{x};
    assert multiset(b) == multiset(left + right) + multiset{x} by {
      assert multiset(b) == multiset(left) + multiset{x} + multiset(right);
    }
    MultisetCancel(multiset(init), multiset(left + right), x);
  }

  /** a sequence is all but its last element and its last element */
  lemma SplitLast<T>(s: seq<T>)
    requires s != []
    ensures s == s[..|s| - 1] + [s[|s| - 1]]
  {
  }

  /** a sequence is its part before i, its element at i and its part after */
  lemma SplitAt<T>(s: seq<T>, i: nat)
    requires i < |s|
    ensures s == s[..i] + [s[i]] + s[i + 1..]
  {
  }

  /** a slice of a + b inside b */
  lemma ConcatSliceRightAt<T>(a: seq<T>, b: seq<T>, lo: nat, hi: nat)
    requires lo <= hi <= |b|
    ensures (a + b)[|a| + lo..|a| + hi] == b[lo..hi]
  {
  }

  /** a slice of a + b inside a */
  lemma ConcatSliceLeft<T>(a: seq<T>, b: seq<T>, lo: nat, hi: nat)
    requires lo <= hi <= |a|
    ensures (a + b)[lo..hi] == a[lo..hi]
  {
  }

  /** the slice of a + b that is b */
  lemma ConcatSliceRight<T>(a: seq<T>, b: seq<T>)
    ensures (a + b)[|a|..|a| + |b|] == b
  {
  }

  /** concatenation is associative */
  lemma AppendAssoc<T>(a: seq<T>, b: seq<T>, c: seq<T>)
    ensures a + b + c == a + (b + c)
  {
  }

  /** a prefix of b after a, one element longer */
  lemma AppendTakeSnoc<T>(a: seq<T>, b: seq<T>, i: nat)
    requires i < |b|
    ensures a + b[..i + 1] == (a + b[..i]) + [b[i]]
  {
    assert b[..i + 1] == b[..i] + [b[i]];
  }

  /** sequences of the same elements, counted, have the same members */
  lemma SameMembers<T>(a: seq<T>, b: seq<T>)
    requires multiset(a) == multiset(b)
    ensures forall x :: x in a <==> x in b
  {
    forall x ensures x in a <==> x in b {
      assert x in a <==> x in multiset(a);
      assert x in b <==> x in multiset(b);
    }
  }

  /** a sequence without repeats counts each of its members once */
  lemma {:induction false} DistinctBag<T>(s: seq<T>, members: set<T>)
    requires forall i, j :: 0 <= i < j < |s| ==> s[i] != s[j]
    requires forall x :: x in s <==> x in members
    ensures multiset(s) == multiset(members)
  {
    if s == [] {
      assert members == {};
    } else {
      var init, x := s[..|s| - 1], s[|s| - 1];
      assert s == init + [x];
      assert x !in init;
      DistinctBag(init, members - {x});
      assert members == (members - {x}) + {x};
      assert multiset(members) == multiset(members - {x}) + multiset{x};
    }
  }
}
