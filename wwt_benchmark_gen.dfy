/** cmd/wwtbenchmarkgen/main.go: the labelled column pairs of the web-table
    benchmark. A pair of column ids is kept with the smaller id first and is
    known by the key "c1_c2"; the negative samples are the pairs of a
    permutation of the ids, in order, whose key is not a positive pair's,
    up to the number asked for. Reading the columns, drawing the
    permutation, the float ratio behind the count and the database writes
    are not part of this model. */
module WwtBenchmarkGen {
  import opened Wrappers
  import opened GoStrings

  /** `columnPair` */
  datatype ColumnPair = ColumnPair(c1: int, c2: int)

  /** `newColumnPair`: the two ids, the smaller first */
  function NewColumnPair(i: int, j: int): (p: ColumnPair)
    ensures p.c1 <= p.c2
    ensures (p.c1 == i && p.c2 == j) || (p.c1 == j && p.c2 == i)
  {
    if i < j then ColumnPair(i, j) else ColumnPair(j, i)
  }

  /** `columnPair.String`: the two ids in decimal joined by '_' */
  function PairKey(p: ColumnPair): string
  {
    Join([Itoa(p.c1), Itoa(p.c2)], '_')
  }

  /** 64-bit ids */
  predicate Ids64(p: ColumnPair)
  {
    MinInt64 <= p.c1 <= MaxInt64 && MinInt64 <= p.c2 <= MaxInt64
  }

  /** The key splits back into the two ids. */
  lemma PairKeySplit(p: ColumnPair)
    requires Ids64(p)
    ensures var parts := Split(PairKey(p), '_');
      |parts| == 2 && Atoi(parts[0]) == Ok(p.c1) && Atoi(parts[1]) == Ok(p.c2)
  {
    SplitJoin([Itoa(p.c1), Itoa(p.c2)], '_');
    AtoiItoa(p.c1);
    AtoiItoa(p.c2);
  }

  /** Two pairs of 64-bit ids share a key exactly when they are the same
      pair. */
  lemma PairKeyInjective(p: ColumnPair, q: ColumnPair)
    requires Ids64(p) && Ids64(q)
    ensures PairKey(p) == PairKey(q) <==> p == q
  {
    PairKeySplit(p);
    PairKeySplit(q);
  }

  /** Two ids give the same key in either order, and different ids different
      keys: a key names an unordered pair. */
  lemma NewColumnPairKey(i: int, j: int, k: int, l: int)
    requires MinInt64 <= i <= MaxInt64 && MinInt64 <= j <= MaxInt64
    requires MinInt64 <= k <= MaxInt64 && MinInt64 <= l <= MaxInt64
    ensures PairKey(NewColumnPair(i, j)) == PairKey(NewColumnPair(k, l)) <==>
      (i == k && j == l) || (i == l && j == k)
  {
    PairKeyInjective(NewColumnPair(i, j), NewColumnPair(k, l));
  }

  // ---------------------------------------------------------------
  // uniquePairs
  // ---------------------------------------------------------------

  /** the pairs of position i with each later position */
  function Row(ids: seq<int>, i: nat): (r: seq<ColumnPair>)
    requires i < |ids|
    ensures |r| == |ids| - i - 1
    ensures forall k :: 0 <= k < |r| ==> r[k] == NewColumnPair(ids[i], ids[i + 1 + k])
  {
    seq(|ids| - i - 1, k requires 0 <= k < |ids| - i - 1 => NewColumnPair(ids[i], ids[i + 1 + k]))
  }

  /** the pairs of the first i positions with their later positions, row by
      row */
  function PairsBefore(ids: seq<int>, i: nat): seq<ColumnPair>
    requires i <= |ids|
  {
    if i == 0 then [] else PairsBefore(ids, i - 1) + Row(ids, i - 1)
  }

  /** the pairs of every position with every later one */
  function AllPairs(ids: seq<int>): seq<ColumnPair>
  {
    PairsBefore(ids, |ids|)
  }

  /** the number of pairs before row i of n positions: row t holds
      n - t - 1 pairs */
  function Offset(n: nat, i: nat): int
  {
    if i == 0 then 0 else Offset(n, i - 1) + n - i
  }

  /** Twice the pairs before row i number i(2n - i - 1). */
  lemma {:induction false} OffsetClosed(n: nat, i: nat)
    ensures 2 * Offset(n, i) == i * (2 * n - i - 1)
  {
    if i > 0 {
      OffsetClosed(n, i - 1);
      assert i * (2 * n - i - 1) == (i - 1) * (2 * n - (i - 1) - 1) + 2 * (n - i);
    }
  }

  lemma {:induction false} PairsBeforeLength(ids: seq<int>, i: nat)
    requires i <= |ids|
    ensures |PairsBefore(ids, i)| == Offset(|ids|, i)
  {
    if i > 0 {
      PairsBeforeLength(ids, i - 1);
    }
  }

  /** Later rows only extend the pairs of earlier ones. */
  lemma {:induction false} PairsBeforePrefix(ids: seq<int>, i: nat, m: nat)
    requires i <= m <= |ids|
    ensures |PairsBefore(ids, i)| <= |PairsBefore(ids, m)|
    ensures PairsBefore(ids, i) == PairsBefore(ids, m)[..|PairsBefore(ids, i)|]
    decreases m
  {
    if m > i {
      PairsBeforePrefix(ids, i, m - 1);
      assert PairsBefore(ids, m)[..|PairsBefore(ids, m - 1)|] == PairsBefore(ids, m - 1);
    }
  }

  /** n positions make n(n-1)/2 pairs. */
  lemma AllPairsLength(ids: seq<int>)
    ensures |AllPairs(ids)| == |ids| * (|ids| - 1) / 2
  {
    var n := |ids|;
    PairsBeforeLength(ids, n);
    OffsetClosed(n, n);
    assert n * (n - 1) == 2 * Offset(n, n);
  }

  /** the position of the pair of positions i < j */
  function PairIndex(n: nat, i: nat, j: nat): int
  {
    Offset(n, i) + j - i - 1
  }

  /** The pair of positions i < j is at `PairIndex(n, i, j)`. */
  lemma AllPairsAt(ids: seq<int>, i: nat, j: nat)
    requires i < j < |ids|
    ensures 0 <= PairIndex(|ids|, i, j) < |AllPairs(ids)|
    ensures AllPairs(ids)[PairIndex(|ids|, i, j)] == NewColumnPair(ids[i], ids[j])
  {
    var n := |ids|;
    var before, upto := PairsBefore(ids, i), PairsBefore(ids, i + 1);
    PairsBeforeLength(ids, i);
    PairsBeforePrefix(ids, i + 1, n);
    var k := PairIndex(n, i, j);
    assert upto == before + Row(ids, i);
    assert k == |before| + (j - i - 1);
    assert upto[k] == Row(ids, i)[j - i - 1];
  }

  /** Rows of smaller positions come first. */
  lemma {:induction false} OffsetMonotone(n: nat, i: nat, m: nat)
    requires i <= m <= n
    ensures Offset(n, i) <= Offset(n, m)
    decreases m - i
  {
    if i < m {
      OffsetMonotone(n, i + 1, m);
    }
  }

  /** Different pairs of positions sit at different places: each pair of
      positions i < j is emitted exactly once. */
  lemma PairIndexInjective(n: nat, i: nat, j: nat, k: nat, l: nat)
    requires i < j < n && k < l < n
    ensures PairIndex(n, i, j) == PairIndex(n, k, l) <==> i == k && j == l
  {
    if i < k {
      OffsetMonotone(n, i + 1, k);
    } else if k < i {
      OffsetMonotone(n, k + 1, i);
    }
  }

  /** Every pair emitted is the pair of two positions i < j. */
  lemma {:induction false} PairsBeforeFrom(ids: seq<int>, m: nat)
    requires m <= |ids|
    ensures forall p :: p in PairsBefore(ids, m) ==>
      exists i, j :: 0 <= i < j < |ids| && i < m && p == NewColumnPair(ids[i], ids[j])
  {
    if m > 0 {
      PairsBeforeFrom(ids, m - 1);
      var row := Row(ids, m - 1);
      forall k | 0 <= k < |row|
        ensures exists i, j :: 0 <= i < j < |ids| && i < m && row[k] == NewColumnPair(ids[i], ids[j])
      {
        assert row[k] == NewColumnPair(ids[m - 1], ids[m + k]);
      }
    }
  }

  /** the inner loop of `uniquePairs`: position i with each later one */
  method PairRow(ids: seq<int>, i: nat) returns (row: seq<ColumnPair>)
    requires i < |ids|
    ensures row == Row(ids, i)
  {
    row := [];
    for j := i + 1 to |ids|
      invariant |row| == j - i - 1
      invariant forall k :: 0 <= k < |row| ==> row[k] == NewColumnPair(ids[i], ids[i + 1 + k])
    {
      row := row + [NewColumnPair(ids[i], ids[j])];
    }
  }

  /** `uniquePairs`: a panic for fewer than two ids, else the pair of every
      position with every later one, row by row */
  method UniquePairs(ids: seq<int>) returns (r: Outcome<seq<ColumnPair>>)
    ensures r.Panic? <==> |ids| < 2
    ensures r.Value? ==> r.value == AllPairs(ids)
  {
    if |ids| < 2 {
      return Panic("Cannot find pairs when number of column indexes is less than 2");
    }
    var pairs: seq<ColumnPair> := [];
    for i := 0 to |ids| - 1
      invariant pairs == PairsBefore(ids, i)
    {
      var row := PairRow(ids, i);
      pairs := pairs + row;
    }
    assert PairsBefore(ids, |ids|) == pairs + Row(ids, |ids| - 1);
    return Value(pairs);
  }

  // ---------------------------------------------------------------
  // negative sampling
  // ---------------------------------------------------------------

  /** the pairs whose key is not a positive pair's, in order */
  function Unseen(pairs: seq<ColumnPair>, positive: set<string>): (r: seq<ColumnPair>)
    ensures |r| <= |pairs|
  {
    if pairs == [] then []
    else
      var p := pairs[|pairs| - 1];
      Unseen(pairs[..|pairs| - 1], positive) + (if PairKey(p) in positive then [] else [p])
  }

  lemma {:induction false} UnseenConcat(a: seq<ColumnPair>, b: seq<ColumnPair>, positive: set<string>)
    ensures Unseen(a + b, positive) == Unseen(a, positive) + Unseen(b, positive)
    decreases |b|
  {
    if b != [] {
      var init := b[..|b| - 1];
      assert (a + b)[..|a + b| - 1] == a + init;
      UnseenConcat(a, init, positive);
    } else {
      assert a + b == a;
    }
  }

  /** The pairs kept are exactly the pairs not known as positive. */
  lemma {:induction false} UnseenMembers(pairs: seq<ColumnPair>, positive: set<string>)
    ensures forall p :: p in Unseen(pairs, positive) <==> p in pairs && PairKey(p) !in positive
  {
    if pairs != [] {
      var init := pairs[..|pairs| - 1];
      UnseenMembers(init, positive);
      assert pairs == init + [pairs[|pairs| - 1]];
    }
  }

  /** the first count elements, none for a count that is not positive */
  function FirstN(s: seq<ColumnPair>, count: int): (r: seq<ColumnPair>)
    ensures |r| <= |s| && r == s[..|r|]
    ensures |r| == if count <= 0 then 0 else if |s| < count then |s| else count
  {
    if count <= 0 then [] else if count < |s| then s[..count] else s
  }

  lemma UnseenStep(all: seq<ColumnPair>, k: nat, positive: set<string>)
    requires k < |all|
    ensures Unseen(all[..k + 1], positive) ==
      Unseen(all[..k], positive) + if PairKey(all[k]) in positive then [] else [all[k]]
  {
    assert all[..k + 1][..k] == all[..k];
  }

  /** Once count pairs are taken, or all pairs are seen, the pairs taken are
      the first count unseen pairs. */
  lemma SampleDone(all: seq<ColumnPair>, k: nat, positive: set<string>, count: int)
    requires k <= |all|
    requires count > 0 ==> |Unseen(all[..k], positive)| <= count
    requires count <= 0 ==> Unseen(all[..k], positive) == []
    requires k == |all| || |Unseen(all[..k], positive)| >= count
    ensures Unseen(all[..k], positive) == FirstN(Unseen(all, positive), count)
  {
    UnseenConcat(all[..k], all[k..], positive);
    assert all[..k] + all[k..] == all;
    FirstNOfFull(Unseen(all[..k], positive), Unseen(all[k..], positive), count);
  }

  /** Taking count from pairs whose start already holds count, or all of
      it, gives that start. */
  lemma FirstNOfFull(a: seq<ColumnPair>, b: seq<ColumnPair>, count: int)
    requires count > 0 ==> |a| <= count
    requires count <= 0 ==> a == []
    requires b == [] || |a| >= count
    ensures FirstN(a + b, count) == a
  {
    if b == [] {
      assert a + b == a;
    } else if count > 0 {
      assert (a + b)[..count] == a;
    }
  }

  /** the loop of lines 84-93: the pairs in order whose key is not
      positive, until count are taken */
  method SampleNegatives(all: seq<ColumnPair>, positive: set<string>, count: int) returns (negative: seq<ColumnPair>)
    ensures negative == FirstN(Unseen(all, positive), count)
  {
    negative := [];
    var k := 0;
    while k < |all|
      invariant 0 <= k <= |all|
      invariant negative == Unseen(all[..k], positive)
      invariant count > 0 ==> |negative| <= count
      invariant count <= 0 ==> negative == []
    {
      if |negative| >= count {
        break;
      }
      UnseenStep(all, k, positive);
      var p := all[k];
      if PairKey(p) !in positive {
        negative := negative + [p];
      }
      k := k + 1;
    }
    SampleDone(all, k, positive, count);
  }

  /** lines 73-93 of the generator: the count may not exceed the number of
      pairs, `uniquePairs` needs two ids, and the pairs of the permuted ids
      whose key is not positive are taken until count are taken */
  method NegativePairs(columnIds: seq<int>, positive: set<string>, count: int) returns (r: Outcome<seq<ColumnPair>>)
    ensures r.Panic? <==> count > |columnIds| * (|columnIds| - 1) / 2 || |columnIds| < 2
    ensures r.Value? ==> r.value == FirstN(Unseen(AllPairs(columnIds), positive), count)
  {
    var n := |columnIds|;
    var totalPairsCount := n * (n - 1) / 2;
    if count > totalPairsCount {
      return Panic("Asking for too many negative samples");
    }
    var pairs := UniquePairs(columnIds);
    if pairs.Panic? {
      return Panic(pairs.reason);
    }
    var negative := SampleNegatives(pairs.value, positive, count);
    return Value(negative);
  }
}
