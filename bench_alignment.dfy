/** benchmarkserver/alignment.go: `getAttUnionabilityPair` and the greedy
    column alignment of `alignTables`, which scores every (query text
    column, candidate text column) pair, sorts the pairs with a nonzero
    percentile in descending percentile order and accepts a pair when
    neither of its columns is used yet. */
module BenchAlignment {
  import opened Wrappers
  import opened Stats
  import opened EmbSearch

  /** the four measures in the order `GetAttUnionabilityPercentile` visits
      them, from (set, nl, sem, semset) unionability scores and the
      perturbed percentile each measure's CDF gives a score */
  function MeasureList(u: (real, real, real, real), perturbed: (string, real) -> Percentile): (xs: seq<Scored>)
    ensures |xs| == 4
    ensures xs[0].measure == "set" && xs[1].measure == "nl" && xs[2].measure == "semset" && xs[3].measure == "sem"
  {
    [Scored("set", u.0, perturbed("set", u.0)), Scored("nl", u.1, perturbed("nl", u.1)),
     Scored("semset", u.3, perturbed("semset", u.3)), Scored("sem", u.2, perturbed("sem", u.2))]
  }

  /** the score field that `getAttUnionabilityPair` fills for measure m */
  function MeasureField(p: Pair, m: string): real
  {
    if m == "set" then p.hypergeometric
    else if m == "sem" then p.ontologyHypergeometric
    else if m == "semset" then p.semSet
    else if m == "nl" then p.cosine
    else 0.0
  }

  /** what `getAttUnionabilityPair` builds from the measures of one column
      pair: the table and the two columns, a greatest percentile of the
      four with its score as `Sim` and its measure as `Measure`, and the
      score in the field of every measure that ties with it (0 in the
      others) */
  predicate PairFrom(p: Pair, candidateTable: string, qindex: Int64, cindex: Int64, xs: seq<Scored>)
    requires |xs| == 4
  {
    var ms := MeasuresTying(xs, p.percentile);
    p.candTableID == candidateTable && p.candColIndex == cindex && p.queryColIndex == qindex &&
    Dominates(p.percentile, xs) && ms != [] && p.measure == ms[0] &&
    (exists i :: 0 <= i < 4 && xs[i].percentile == p.percentile && xs[i].score == p.sim && xs[i].measure == p.measure) &&
    (forall m :: m in ["set", "sem", "semset", "nl"] ==> MeasureField(p, m) == if m in ms then p.sim else 0.0) &&
    p.queryCardinality == 0 && p.candCardinality == 0 && p.jaccard == 0.0 && p.containment == 0.0 &&
    p.ontologyJaccard == 0.0 && p.f == Num(0.0) && p.t2 == Num(0.0)
  }

  /** `getAttUnionabilityPair` */
  method AttUnionabilityPair(candidateTable: string, qindex: Int64, cindex: Int64, xs: seq<Scored>) returns (p: Pair)
    requires |xs| == 4
    requires xs[0].measure == "set" && xs[1].measure == "nl" && xs[2].measure == "semset" && xs[3].measure == "sem"
    ensures PairFrom(p, candidateTable, qindex, cindex, xs)
  {
    var uScore, uPercentile, uMeasures := GetAttUnionabilityPercentile(xs);
    p := Pair(candidateTable, cindex, qindex, 0, 0, 0.0, 0.0, 0.0, 0.0, 0.0, 0.0, 0.0,
              Num(0.0), Num(0.0), uScore, uPercentile, uMeasures[0]);
    var i := 0;
    while i < |uMeasures|
      invariant 0 <= i <= |uMeasures|
      invariant p.candTableID == candidateTable && p.candColIndex == cindex && p.queryColIndex == qindex
      invariant p.sim == uScore && p.percentile == uPercentile && p.measure == uMeasures[0]
      invariant p.queryCardinality == 0 && p.candCardinality == 0 && p.jaccard == 0.0 && p.containment == 0.0
      invariant p.ontologyJaccard == 0.0 && p.f == Num(0.0) && p.t2 == Num(0.0)
      invariant forall m :: m in ["set", "sem", "semset", "nl"] ==> MeasureField(p, m) == if m in uMeasures[..i] then uScore else 0.0
    {
      var m := uMeasures[i];
      if m == "set" {
        p := p.(hypergeometric := uScore);
      }
      if m == "sem" {
        p := p.(ontologyHypergeometric := uScore);
      }
      if m == "semset" {
        p := p.(semSet := uScore);
      }
      if m == "nl" {
        p := p.(cosine := uScore);
      }
      assert uMeasures[..i + 1] == uMeasures[..i] + [m];
      i := i + 1;
    }
    assert uMeasures[..i] == uMeasures;
  }

  /** p is at least q in the batch order (`ComparePercentiles`) */
  predicate Outranks(p: Pair, q: Pair)
  {
    ComparePercentiles(p.percentile, q.percentile) >= 0
  }

  predicate InBatchOrder(s: seq<Pair>)
  {
    forall i, j :: 0 <= i < j < |s| ==> Outranks(s[i], s[j])
  }

  /** inserts p after every element that is at least p */
  function InsertDescending(sorted: seq<Pair>, p: Pair): (r: seq<Pair>)
    ensures multiset(r) == multiset(sorted) + multiset{p}
  {
    if sorted == [] then [p]
    else if Outranks(sorted[0], p) then
      assert sorted == [sorted[0]] + sorted[1..];
      [sorted[0]] + InsertDescending(sorted[1..], p)
    else [p] + sorted
  }

  lemma {:induction false} InsertDescendingSorted(sorted: seq<Pair>, p: Pair)
    requires InBatchOrder(sorted)
    ensures InBatchOrder(InsertDescending(sorted, p))
  {
    if sorted != [] {
      if Outranks(sorted[0], p) {
        var rest := InsertDescending(sorted[1..], p);
        InsertDescendingSorted(sorted[1..], p);
        HeadOutranksRest(sorted, p, rest);
        ConsInBatchOrder(sorted[0], rest);
      } else {
        forall j | 0 <= j < |sorted| ensures Outranks(p, sorted[j]) {
          ComparePercentilesTransitive(p.percentile, sorted[0].percentile, sorted[j].percentile);
        }
        ConsInBatchOrder(p, sorted);
      }
    }
  }

  /** the head of a batch-ordered sequence outranks what is left of it
      with p inserted, when it outranks p */
  lemma HeadOutranksRest(sorted: seq<Pair>, p: Pair, rest: seq<Pair>)
    requires sorted != [] && InBatchOrder(sorted) && Outranks(sorted[0], p)
    requires multiset(rest) == multiset(sorted[1..]) + multiset{p}
    ensures forall j :: 0 <= j < |rest| ==> Outranks(sorted[0], rest[j])
  {
    forall j | 0 <= j < |rest| ensures Outranks(sorted[0], rest[j]) {
      assert rest[j] in multiset(rest);
      if rest[j] != p {
        assert rest[j] in multiset(sorted[1..]);
        var m :| 0 <= m < |sorted[1..]| && sorted[1..][m] == rest[j];
        assert sorted[m + 1] == rest[j];
      }
    }
  }

  /** a pair that outranks every element of a batch-ordered sequence heads
      it in batch order */
  lemma ConsInBatchOrder(h: Pair, s: seq<Pair>)
    requires InBatchOrder(s)
    requires forall j :: 0 <= j < |s| ==> Outranks(h, s[j])
    ensures InBatchOrder([h] + s)
  {
    var r := [h] + s;
    forall i, j | 0 <= i < j < |r| ensures Outranks(r[i], r[j]) {
      assert r[j] == s[j - 1];
      if i > 0 {
        assert r[i] == s[i - 1];
      }
    }
  }

  /** the batch queue's `Descending`: the pushed pairs from best to worst
      by percentile (its capacity is the number of column pairs, so none
      is dropped) */
  function DescendingBatch(pushed: seq<Pair>): (r: seq<Pair>)
    ensures multiset(r) == multiset(pushed)
  {
    if pushed == [] then []
    else
      assert pushed == pushed[..|pushed| - 1] + [pushed[|pushed| - 1]];
      InsertDescending(DescendingBatch(pushed[..|pushed| - 1]), pushed[|pushed| - 1])
  }

  lemma {:induction false} DescendingBatchSorted(pushed: seq<Pair>)
    ensures InBatchOrder(DescendingBatch(pushed))
  {
    if pushed != [] {
      DescendingBatchSorted(pushed[..|pushed| - 1]);
      InsertDescendingSorted(DescendingBatch(pushed[..|pushed| - 1]), pushed[|pushed| - 1]);
    }
  }

  /** the candidate columns, and the query columns, of accepted pairs */
  function CandCols(s: seq<Pair>): set<Int64>
  {
    set j | 0 <= j < |s| :: s[j].candColIndex
  }

  function QueryCols(s: seq<Pair>): set<Int64>
  {
    set j | 0 <= j < |s| :: s[j].queryColIndex
  }

  lemma ColsAppend(s: seq<Pair>, p: Pair)
    ensures CandCols(s + [p]) == CandCols(s) + {p.candColIndex}
    ensures QueryCols(s + [p]) == QueryCols(s) + {p.queryColIndex}
  {
    var t := s + [p];
    assert forall j :: 0 <= j < |s| ==> t[j] == s[j];
    assert t[|s|] == p;
  }

  /** one-to-one pairs use as many candidate columns as there are pairs */
  lemma {:induction false} CandColsSize(s: seq<Pair>)
    requires ColumnsOneToOne(s)
    ensures |CandCols(s)| == |s|
  {
    if s != [] {
      var front := s[..|s| - 1];
      assert s == front + [s[|s| - 1]];
      assert ColumnsOneToOne(front) by {
        forall i, j | 0 <= i < j < |front| ensures front[i].candColIndex != front[j].candColIndex {
          assert front[i] == s[i] && front[j] == s[j];
        }
      }
      CandColsSize(front);
      ColsAppend(front, s[|s| - 1]);
      assert s[|s| - 1].candColIndex !in CandCols(front);
    }
  }

  /** p shares its candidate or its query column with an accepted pair */
  predicate Blocked(s: seq<Pair>, p: Pair)
  {
    p.candColIndex in CandCols(s) || p.queryColIndex in QueryCols(s)
  }

  /** the running products of the accepted values: `scores[0]` is the
      first value and each later score is the previous one times the
      current value */
  predicate RunningProduct(scores: seq<real>, s: seq<Pair>)
  {
    |scores| == |s| &&
    (|s| > 0 ==> scores[0] == s[0].percentile.value) &&
    forall i :: 0 < i < |s| ==> scores[i] == scores[i - 1] * s[i].percentile.value
  }

  /** the product of the accepted values up to and including position i */
  function Product(s: seq<Pair>): real
  {
    if s == [] then 1.0 else Product(s[..|s| - 1]) * s[|s| - 1].percentile.value
  }

  /** So each score is the product of the values of the pairs accepted so
      far. */
  lemma {:induction false} RunningProductIsProduct(scores: seq<real>, s: seq<Pair>, i: nat)
    requires RunningProduct(scores, s) && i < |s|
    ensures scores[i] == Product(s[..i + 1])
  {
    assert s[..i + 1][..i] == s[..i];
    if i == 0 {
      assert Product(s[..0]) == 1.0;
    } else {
      RunningProductIsProduct(scores, s, i - 1);
    }
  }

  /** the table percentiles `GetPerturbedPercentile(tableCDF[i + 1],
      scores[i], delta)`, with the table CDF lookup as a parameter */
  function TablePercentiles(scores: seq<real>, tablePercentile: (int, real) -> Percentile): (r: seq<Percentile>)
    ensures |r| == |scores|
  {
    seq(|scores|, i requires 0 <= i < |scores| => tablePercentile(i + 1, scores[i]))
  }

  /** the fields of `CUnionableVector` */
  datatype CUnionableVector = CUnionableVector(
    queryTable: string, candidateTable: string, scores: seq<real>, percentiles: seq<Percentile>,
    alignment: seq<Pair>, maxC: int, bestC: int)

  /** the pairs `alignTables` computes for every query text column (outer
      loop) and candidate text column (inner loop) */
  predicate ScoredPairs(scored: seq<seq<Pair>>, candidateTable: string, queryText: seq<Int64>, candText: seq<Int64>,
                        unionability: (Int64, Int64) -> (real, real, real, real), perturbed: (string, real) -> Percentile)
  {
    |scored| == |queryText| &&
    forall i :: 0 <= i < |queryText| ==> ScoredRow(scored[i], candidateTable, queryText[i], candText, unionability, perturbed)
  }

  predicate ScoredRow(row: seq<Pair>, candidateTable: string, q: Int64, candText: seq<Int64>,
                      unionability: (Int64, Int64) -> (real, real, real, real), perturbed: (string, real) -> Percentile)
  {
    |row| == |candText| &&
    forall j :: 0 <= j < |candText| ==> PairFrom(row[j], candidateTable, q, candText[j], MeasureList(unionability(q, candText[j]), perturbed))
  }

  /** p is the pair computed for some column pair */
  predicate ScoredIn(p: Pair, scored: seq<seq<Pair>>)
  {
    exists i, j :: 0 <= i < |scored| && 0 <= j < |scored[i]| && scored[i][j] == p
  }

  /** a pair enters the batch exactly when its percentile value is not 0 */
  predicate Batched(pushed: seq<Pair>, scored: seq<seq<Pair>>)
  {
    (forall p :: p in pushed ==> p.percentile.value != 0.0 && ScoredIn(p, scored)) &&
    (forall i, j :: 0 <= i < |scored| && 0 <= j < |scored[i]| && scored[i][j].percentile.value != 0.0 ==> scored[i][j] in pushed)
  }

  /** the nested loop of `alignTables` that fills the batch */
  method FillBatch(candidateTable: string, queryText: seq<Int64>, candText: seq<Int64>,
                   unionability: (Int64, Int64) -> (real, real, real, real), perturbed: (string, real) -> Percentile)
    returns (pushed: seq<Pair>, ghost scored: seq<seq<Pair>>)
    ensures ScoredPairs(scored, candidateTable, queryText, candText, unionability, perturbed)
    ensures Batched(pushed, scored)
  {
    pushed := [];
    scored := [];
    var qi := 0;
    while qi < |queryText|
      invariant 0 <= qi <= |queryText|
      invariant ScoredPairs(scored, candidateTable, queryText[..qi], candText, unionability, perturbed)
      invariant Batched(pushed, scored)
    {
      var q := queryText[qi];
      ghost var before := pushed;
      ghost var row;
      pushed, row := ScoreRow(candidateTable, q, candText, unionability, perturbed, pushed);
      RowAppended(scored, row, before, pushed, candidateTable, queryText, qi, candText, unionability, perturbed);
      scored := scored + [row];
      qi := qi + 1;
    }
    assert queryText[..qi] == queryText;
  }

  /** the inner loop of `alignTables`: the pairs of query column q with
      every candidate column, those of a percentile value other than 0
      pushed to the batch */
  method ScoreRow(candidateTable: string, q: Int64, candText: seq<Int64>,
                  unionability: (Int64, Int64) -> (real, real, real, real), perturbed: (string, real) -> Percentile,
                  before: seq<Pair>)
    returns (pushed: seq<Pair>, ghost row: seq<Pair>)
    ensures ScoredRow(row, candidateTable, q, candText, unionability, perturbed)
    ensures forall p :: p in pushed ==> p in before || (p.percentile.value != 0.0 && p in row)
    ensures forall p :: p in before ==> p in pushed
    ensures forall j :: 0 <= j < |row| && row[j].percentile.value != 0.0 ==> row[j] in pushed
  {
    pushed := before;
    row := [];
    var ci := 0;
    while ci < |candText|
      invariant 0 <= ci <= |candText| && |row| == ci
      invariant ScoredRow(row, candidateTable, q, candText[..ci], unionability, perturbed)
      invariant forall p :: p in pushed ==> p in before || (p.percentile.value != 0.0 && p in row)
      invariant forall p :: p in before ==> p in pushed
      invariant forall j :: 0 <= j < ci && row[j].percentile.value != 0.0 ==> row[j] in pushed
    {
      var c := candText[ci];
      var p := AttUnionabilityPair(candidateTable, q, c, MeasureList(unionability(q, c), perturbed));
      if p.percentile.value != 0.0 {
        pushed := pushed + [p];
      }
      RowStep(row, p, candidateTable, q, candText, ci, unionability, perturbed);
      row := row + [p];
      ci := ci + 1;
    }
    assert candText[..ci] == candText;
  }

  lemma RowStep(row: seq<Pair>, p: Pair, candidateTable: string, q: Int64, candText: seq<Int64>, ci: nat,
                unionability: (Int64, Int64) -> (real, real, real, real), perturbed: (string, real) -> Percentile)
    requires ci < |candText|
    requires ScoredRow(row, candidateTable, q, candText[..ci], unionability, perturbed)
    requires PairFrom(p, candidateTable, q, candText[ci], MeasureList(unionability(q, candText[ci]), perturbed))
    ensures ScoredRow(row + [p], candidateTable, q, candText[..ci + 1], unionability, perturbed)
  {
    var r := row + [p];
    forall j | 0 <= j < ci + 1
      ensures PairFrom(r[j], candidateTable, q, candText[..ci + 1][j], MeasureList(unionability(q, candText[..ci + 1][j]), perturbed))
    {
      assert candText[..ci + 1][j] == candText[j];
      if j < ci {
        assert r[j] == row[j] && candText[..ci][j] == candText[j];
      }
    }
  }

  lemma RowAppended(scored: seq<seq<Pair>>, row: seq<Pair>, before: seq<Pair>, pushed: seq<Pair>,
                    candidateTable: string, queryText: seq<Int64>, qi: nat, candText: seq<Int64>,
                    unionability: (Int64, Int64) -> (real, real, real, real), perturbed: (string, real) -> Percentile)
    requires qi < |queryText|
    requires ScoredPairs(scored, candidateTable, queryText[..qi], candText, unionability, perturbed)
    requires ScoredRow(row, candidateTable, queryText[qi], candText, unionability, perturbed)
    requires Batched(before, scored)
    requires forall p :: p in pushed ==> p in before || (p.percentile.value != 0.0 && p in row)
    requires forall p :: p in before ==> p in pushed
    requires forall j :: 0 <= j < |row| && row[j].percentile.value != 0.0 ==> row[j] in pushed
    ensures ScoredPairs(scored + [row], candidateTable, queryText[..qi + 1], candText, unionability, perturbed)
    ensures Batched(pushed, scored + [row])
  {
    var s := scored + [row];
    assert forall i :: 0 <= i < qi ==> s[i] == scored[i] && queryText[..qi + 1][i] == queryText[..qi][i];
    assert s[qi] == row && queryText[..qi + 1][qi] == queryText[qi];
    forall p | p in pushed
      ensures p.percentile.value != 0.0 && ScoredIn(p, s)
    {
      if p in before {
        var i, j :| 0 <= i < |scored| && 0 <= j < |scored[i]| && scored[i][j] == p;
        assert s[i][j] == p;
      } else {
        var j :| 0 <= j < |row| && row[j] == p;
        assert s[qi][j] == p;
      }
    }
  }

  /** the scan has stopped: it has accepted a pair and the aligned
      candidate columns number maxC */
  predicate Stopped(a: seq<Pair>, maxC: int)
  {
    a != [] && |CandCols(a)| == maxC
  }

  /** the greedy scan of `alignTables` over the descending batch, pair by
      pair: a pair is accepted when the scan has not stopped and neither of
      its columns is used by the pairs accepted before it */
  function Greedy(sorted: seq<Pair>, maxC: int): seq<Pair>
  {
    if sorted == [] then []
    else
      var a := Greedy(sorted[..|sorted| - 1], maxC);
      var p := sorted[|sorted| - 1];
      if Stopped(a, maxC) || Blocked(a, p) then a else a + [p]
  }

  /** the greedy scan after one more pair */
  lemma GreedyStep(sorted: seq<Pair>, i: nat, maxC: int)
    requires i < |sorted|
    ensures var a := Greedy(sorted[..i], maxC);
      Greedy(sorted[..i + 1], maxC) == if Stopped(a, maxC) || Blocked(a, sorted[i]) then a else a + [sorted[i]]
  {
    assert sorted[..i + 1][..i] == sorted[..i];
  }

  /** Once the scan has stopped, the later pairs change nothing. */
  lemma {:induction false} GreedyAfterStop(sorted: seq<Pair>, i: nat, j: nat, maxC: int)
    requires i <= j <= |sorted| && Stopped(Greedy(sorted[..i], maxC), maxC)
    ensures Greedy(sorted[..j], maxC) == Greedy(sorted[..i], maxC)
    decreases j - i
  {
    if i < j {
      GreedyStep(sorted, i, maxC);
      GreedyAfterStop(sorted, i + 1, j, maxC);
    }
  }

  /** The greedy scan is one-to-one on both sides, and each pair it accepts
      comes from the batch. */
  lemma {:induction false} GreedyOneToOne(sorted: seq<Pair>, maxC: int)
    ensures ColumnsOneToOne(Greedy(sorted, maxC))
    ensures forall p :: p in Greedy(sorted, maxC) ==> p in sorted
  {
    if sorted != [] {
      var init := sorted[..|sorted| - 1];
      var a := Greedy(init, maxC);
      var p := sorted[|sorted| - 1];
      GreedyOneToOne(init, maxC);
      if !(Stopped(a, maxC) || Blocked(a, p)) {
        AcceptOneToOne(a, p);
      }
      forall x | x in Greedy(sorted, maxC) ensures x in sorted {
        if x in a {
          var j :| 0 <= j < |init| && init[j] == x;
          assert sorted[j] == x;
        }
      }
    }
  }

  /** A pair the scan did not accept shares a column with an earlier
      accepted pair, unless the scan had already stopped. */
  lemma {:induction false} GreedyRejected(sorted: seq<Pair>, maxC: int, m: nat)
    requires m < |sorted|
    requires Greedy(sorted[..m + 1], maxC) == Greedy(sorted[..m], maxC)
    ensures Stopped(Greedy(sorted[..m], maxC), maxC) || Blocked(Greedy(sorted[..m], maxC), sorted[m])
  {
    GreedyStep(sorted, m, maxC);
    var a := Greedy(sorted[..m], maxC);
    assert |Greedy(sorted[..m + 1], maxC)| == |a| + if Stopped(a, maxC) || Blocked(a, sorted[m]) then 0 else 1;
  }

  /** the state of the greedy scan after the first i batch pairs: the
      accepted pairs are one-to-one, batch pairs in batch order, no lower
      than any pair still to come, with their running scores and table
      percentiles, and every scanned pair shares a column with one of them */
  predicate ScanState(alignment: seq<Pair>, scores: seq<real>, percentiles: seq<Percentile>, sorted: seq<Pair>, i: nat,
                      tablePercentile: (int, real) -> Percentile)
  {
    i <= |sorted| &&
    ColumnsOneToOne(alignment) && InBatchOrder(alignment) &&
    (forall j :: 0 <= j < |alignment| ==> alignment[j] in sorted[..i]) &&
    (forall j, m :: 0 <= j < |alignment| && i <= m < |sorted| ==> Outranks(alignment[j], sorted[m])) &&
    RunningProduct(scores, alignment) && percentiles == TablePercentiles(scores, tablePercentile) &&
    (forall m :: 0 <= m < i ==> Blocked(alignment, sorted[m]))
  }

  /** the greedy scan of `alignTables` over the descending batch: the
      accepted pairs, their running scores and the table percentiles */
  method GreedyScan(sorted: seq<Pair>, maxC: int, tablePercentile: (int, real) -> Percentile)
    returns (alignment: seq<Pair>, scores: seq<real>, percentiles: seq<Percentile>)
    requires InBatchOrder(sorted)
    ensures ColumnsOneToOne(alignment) && InBatchOrder(alignment)
    ensures forall p :: p in alignment ==> p in sorted
    ensures RunningProduct(scores, alignment) && percentiles == TablePercentiles(scores, tablePercentile)
    ensures sorted != [] ==> alignment != [] && alignment[0] == sorted[0]
    ensures |CandCols(alignment)| == maxC || forall p :: p in sorted ==> Blocked(alignment, p)
    ensures alignment == Greedy(sorted, maxC)
  {
    alignment, scores, percentiles := [], [], [];
    var partial: set<Int64> := {};
    var reverse: set<Int64> := {};
    var i := 0;
    while i < |sorted|
      invariant Scanning(alignment, scores, percentiles, partial, reverse, sorted, i, maxC, tablePercentile)
      invariant !Stopped(alignment, maxC)
    {
      var stop;
      alignment, scores, percentiles, partial, reverse, stop :=
        ScanPair(sorted, i, maxC, tablePercentile, alignment, scores, percentiles, partial, reverse);
      if stop {
        // the source breaks out of its loop, which ends this scan
        ScanDone(alignment, scores, percentiles, sorted, i + 1, tablePercentile);
        GreedyAfterStop(sorted, i + 1, |sorted|, maxC);
        assert sorted[..|sorted|] == sorted;
        return;
      }
      i := i + 1;
    }
    ScanDone(alignment, scores, percentiles, sorted, i, tablePercentile);
    assert sorted[..i] == sorted;
  }

  /** the running score after accepting a pair of value v: the value
      itself first, then the previous score times it */
  function NextScore(scores: seq<real>, v: real): real
  {
    if |scores| == 0 then v else scores[|scores| - 1] * v
  }

  /** the scan after the first i batch pairs, with the two counters */
  ghost predicate Scanning(alignment: seq<Pair>, scores: seq<real>, percentiles: seq<Percentile>,
                           partial: set<Int64>, reverse: set<Int64>, sorted: seq<Pair>, i: nat, maxC: int,
                           tablePercentile: (int, real) -> Percentile)
  {
    InBatchOrder(sorted) && i <= |sorted| &&
    partial == CandCols(alignment) && reverse == QueryCols(alignment) &&
    ScanState(alignment, scores, percentiles, sorted, i, tablePercentile) &&
    (i > 0 ==> alignment != [] && alignment[0] == sorted[0]) &&
    alignment == Greedy(sorted[..i], maxC)
  }

  /** one pass of the scan's loop: pair i is skipped when one of its
      columns is used, and accepted otherwise with its running score and
      table percentile; stop says the source breaks out after it */
  method ScanPair(sorted: seq<Pair>, i: nat, maxC: int, tablePercentile: (int, real) -> Percentile,
                  alignment: seq<Pair>, scores: seq<real>, percentiles: seq<Percentile>,
                  partial: set<Int64>, reverse: set<Int64>)
    returns (alignment': seq<Pair>, scores': seq<real>, percentiles': seq<Percentile>,
             partial': set<Int64>, reverse': set<Int64>, stop: bool)
    requires i < |sorted|
    requires Scanning(alignment, scores, percentiles, partial, reverse, sorted, i, maxC, tablePercentile)
    requires !Stopped(alignment, maxC)
    ensures Scanning(alignment', scores', percentiles', partial', reverse', sorted, i + 1, maxC, tablePercentile)
    ensures stop <==> Stopped(alignment', maxC)
  {
    var pair := sorted[i];
    if pair.candColIndex in partial || pair.queryColIndex in reverse {
      ScanningSkip(alignment, scores, percentiles, partial, reverse, sorted, i, maxC, tablePercentile);
      return alignment, scores, percentiles, partial, reverse, false;
    }
    var score := NextScore(scores, pair.percentile.value);
    partial' := partial + {pair.candColIndex};
    reverse' := reverse + {pair.queryColIndex};
    alignment' := alignment + [pair];
    scores' := scores + [score];
    percentiles' := percentiles + [tablePercentile(|percentiles| + 1, score)];
    ScanningAccept(alignment, scores, percentiles, partial, reverse, sorted, i, maxC, tablePercentile, score);
    stop := |partial'| == maxC;
  }

  lemma ScanningSkip(alignment: seq<Pair>, scores: seq<real>, percentiles: seq<Percentile>,
                     partial: set<Int64>, reverse: set<Int64>, sorted: seq<Pair>, i: nat, maxC: int,
                     tablePercentile: (int, real) -> Percentile)
    requires i < |sorted| && !Stopped(alignment, maxC)
    requires Scanning(alignment, scores, percentiles, partial, reverse, sorted, i, maxC, tablePercentile)
    requires sorted[i].candColIndex in partial || sorted[i].queryColIndex in reverse
    ensures Scanning(alignment, scores, percentiles, partial, reverse, sorted, i + 1, maxC, tablePercentile)
  {
    GreedyStep(sorted, i, maxC);
    ScanSkip(alignment, scores, percentiles, sorted, i, tablePercentile);
  }

  lemma ScanningAccept(alignment: seq<Pair>, scores: seq<real>, percentiles: seq<Percentile>,
                       partial: set<Int64>, reverse: set<Int64>, sorted: seq<Pair>, i: nat, maxC: int,
                       tablePercentile: (int, real) -> Percentile, score: real)
    requires i < |sorted| && !Stopped(alignment, maxC)
    requires Scanning(alignment, scores, percentiles, partial, reverse, sorted, i, maxC, tablePercentile)
    requires sorted[i].candColIndex !in partial && sorted[i].queryColIndex !in reverse
    requires score == NextScore(scores, sorted[i].percentile.value)
    ensures Scanning(alignment + [sorted[i]], scores + [score], percentiles + [tablePercentile(|percentiles| + 1, score)],
                     partial + {sorted[i].candColIndex}, reverse + {sorted[i].queryColIndex}, sorted, i + 1, maxC, tablePercentile)
  {
    GreedyStep(sorted, i, maxC);
    ScanAccept(alignment, scores, percentiles, sorted, i, tablePercentile, score);
    ColsAppend(alignment, sorted[i]);
    if alignment == [] {
      assert i == 0;
    }
  }

  lemma ScanDone(alignment: seq<Pair>, scores: seq<real>, percentiles: seq<Percentile>, sorted: seq<Pair>, i: nat,
                 tablePercentile: (int, real) -> Percentile)
    requires ScanState(alignment, scores, percentiles, sorted, i, tablePercentile)
    ensures forall p :: p in alignment ==> p in sorted
    ensures i == |sorted| ==> forall p :: p in sorted ==> Blocked(alignment, p)
  {
    forall p | p in alignment ensures p in sorted {
      var j :| 0 <= j < |alignment| && alignment[j] == p;
      assert p in sorted[..i];
    }
  }

  /** skipping a blocked pair keeps the scan's state */
  lemma ScanSkip(alignment: seq<Pair>, scores: seq<real>, percentiles: seq<Percentile>, sorted: seq<Pair>, i: nat,
                 tablePercentile: (int, real) -> Percentile)
    requires ScanState(alignment, scores, percentiles, sorted, i, tablePercentile)
    requires i < |sorted| && Blocked(alignment, sorted[i])
    ensures ScanState(alignment, scores, percentiles, sorted, i + 1, tablePercentile)
  {
    forall j | 0 <= j < |alignment| ensures alignment[j] in sorted[..i + 1] {
      assert sorted[..i] <= sorted[..i + 1];
    }
  }

  /** accepting an unblocked pair keeps the scan's state */
  lemma ScanAccept(alignment: seq<Pair>, scores: seq<real>, percentiles: seq<Percentile>, sorted: seq<Pair>, i: nat,
                   tablePercentile: (int, real) -> Percentile, score: real)
    requires ScanState(alignment, scores, percentiles, sorted, i, tablePercentile) && InBatchOrder(sorted)
    requires i < |sorted| && !Blocked(alignment, sorted[i])
    requires score == NextScore(scores, sorted[i].percentile.value)
    ensures ScanState(alignment + [sorted[i]], scores + [score], percentiles + [tablePercentile(|percentiles| + 1, score)],
                      sorted, i + 1, tablePercentile)
  {
    var p := sorted[i];
    AcceptOneToOne(alignment, p);
    AcceptMembers(alignment, sorted, i);
    AcceptOrder(alignment, sorted, i);
    AcceptScores(alignment, scores, percentiles, p, score, tablePercentile);
    AcceptBlocked(alignment, sorted, i);
  }

  lemma AcceptMembers(alignment: seq<Pair>, sorted: seq<Pair>, i: nat)
    requires i < |sorted| && forall j :: 0 <= j < |alignment| ==> alignment[j] in sorted[..i]
    ensures forall j :: 0 <= j < |alignment| + 1 ==> (alignment + [sorted[i]])[j] in sorted[..i + 1]
  {
    var a := alignment + [sorted[i]];
    assert sorted[..i + 1] == sorted[..i] + [sorted[i]];
    forall j | 0 <= j < |a| ensures a[j] in sorted[..i + 1] {
      if j < |alignment| {
        assert a[j] == alignment[j];
      }
    }
  }

  lemma AcceptOrder(alignment: seq<Pair>, sorted: seq<Pair>, i: nat)
    requires i < |sorted| && InBatchOrder(sorted) && InBatchOrder(alignment)
    requires forall j, m :: 0 <= j < |alignment| && i <= m < |sorted| ==> Outranks(alignment[j], sorted[m])
    ensures InBatchOrder(alignment + [sorted[i]])
    ensures forall j, m :: 0 <= j < |alignment| + 1 && i + 1 <= m < |sorted| ==> Outranks((alignment + [sorted[i]])[j], sorted[m])
  {
    var a := alignment + [sorted[i]];
    forall j, m | 0 <= j < |a| && i + 1 <= m < |sorted| ensures Outranks(a[j], sorted[m]) {
      if j < |alignment| {
        assert a[j] == alignment[j];
      }
    }
    forall j, m | 0 <= j < m < |a| ensures Outranks(a[j], a[m]) {
      assert a[j] == alignment[j];
    }
  }

  lemma AcceptScores(alignment: seq<Pair>, scores: seq<real>, percentiles: seq<Percentile>, p: Pair, score: real,
                     tablePercentile: (int, real) -> Percentile)
    requires RunningProduct(scores, alignment) && percentiles == TablePercentiles(scores, tablePercentile)
    requires score == NextScore(scores, p.percentile.value)
    ensures RunningProduct(scores + [score], alignment + [p])
    ensures percentiles + [tablePercentile(|percentiles| + 1, score)] == TablePercentiles(scores + [score], tablePercentile)
  {
    var a := alignment + [p];
    var sc := scores + [score];
    forall j | 0 < j < |a| ensures sc[j] == sc[j - 1] * a[j].percentile.value {
      if j < |scores| {
        assert sc[j] == scores[j] && a[j] == alignment[j] && sc[j - 1] == scores[j - 1];
      } else {
        assert sc[j - 1] == scores[j - 1];
      }
    }
    TablePercentilesSnoc(scores, score, tablePercentile);
  }

  lemma TablePercentilesSnoc(scores: seq<real>, score: real, tablePercentile: (int, real) -> Percentile)
    ensures TablePercentiles(scores, tablePercentile) + [tablePercentile(|scores| + 1, score)] == TablePercentiles(scores + [score], tablePercentile)
  {
    var l, r := TablePercentiles(scores, tablePercentile) + [tablePercentile(|scores| + 1, score)], TablePercentiles(scores + [score], tablePercentile);
    forall j | 0 <= j < |r| ensures l[j] == r[j] {
      if j < |scores| {
        assert (scores + [score])[j] == scores[j];
      }
    }
  }

  lemma AcceptBlocked(alignment: seq<Pair>, sorted: seq<Pair>, i: nat)
    requires i < |sorted| && forall m :: 0 <= m < i ==> Blocked(alignment, sorted[m])
    ensures forall m :: 0 <= m < i + 1 ==> Blocked(alignment + [sorted[i]], sorted[m])
  {
    ColsAppend(alignment, sorted[i]);
  }

  lemma AcceptOneToOne(alignment: seq<Pair>, p: Pair)
    requires ColumnsOneToOne(alignment) && !Blocked(alignment, p)
    ensures ColumnsOneToOne(alignment + [p])
  {
    var a := alignment + [p];
    forall j, m | 0 <= j < m < |a| ensures a[j].candColIndex != a[m].candColIndex && a[j].queryColIndex != a[m].queryColIndex {
      assert a[j] == alignment[j];
      if m == |alignment| {
        assert alignment[j].candColIndex in CandCols(alignment) && alignment[j].queryColIndex in QueryCols(alignment);
      } else {
        assert a[m] == alignment[m];
      }
    }
  }

  /** `alignTables`, given the query and candidate text columns, their
      unionability scores, the perturbed percentile of a measure score and
      the table percentile of the c-th running score. The alignment is
      one-to-one on both sides, in descending percentile order, made of
      batched pairs and as long as `scores` and `percentiles`; the scan
      stops once the aligned candidate columns number the candidate text
      columns, otherwise every batched pair shares a column with an
      aligned one; `percentiles` are the table percentiles of the scores
      in ascending order of value, and `bestC` is 1 plus the position of a
      largest table percentile. With no pair of nonzero percentile the
      alignment is empty and `SortPercentiles` panics. */
  method AlignTables(queryTable: string, candidateTable: string, queryText: seq<Int64>, candText: seq<Int64>,
                     unionability: (Int64, Int64) -> (real, real, real, real), perturbed: (string, real) -> Percentile,
                     tablePercentile: (int, real) -> Percentile)
    returns (r: Outcome<CUnionableVector>, ghost scored: seq<seq<Pair>>, ghost batch: seq<Pair>)
    ensures ScoredPairs(scored, candidateTable, queryText, candText, unionability, perturbed) && Batched(batch, scored)
    ensures r.Panic? <==> batch == []
    ensures r.Value? ==> r.value.queryTable == queryTable && r.value.candidateTable == candidateTable
    ensures r.Value? ==> Aligned(r.value, batch, |candText|, tablePercentile)
  {
    var pushed;
    pushed, scored := FillBatch(candidateTable, queryText, candText, unionability, perturbed);
    batch := pushed;
    r := RankBatch(queryTable, candidateTable, pushed, |candText|, tablePercentile);
  }

  /** the second half of `alignTables`: the batch sorted, scanned greedily
      and its table percentiles sorted */
  method RankBatch(queryTable: string, candidateTable: string, pushed: seq<Pair>, candTextCount: nat,
                   tablePercentile: (int, real) -> Percentile)
    returns (r: Outcome<CUnionableVector>)
    ensures r.Panic? <==> pushed == []
    ensures r.Value? ==> r.value.queryTable == queryTable && r.value.candidateTable == candidateTable
    ensures r.Value? ==> Aligned(r.value, pushed, candTextCount, tablePercentile)
  {
    var sorted := DescendingBatch(pushed);
    DescendingBatchSorted(pushed);
    var maxC := candTextCount;
    var alignment, scores, percentiles := GreedyScan(sorted, maxC, tablePercentile);
    maxC := |percentiles|;
    var sp := SortPercentiles(percentiles);
    if sp.Panic? {
      assert sorted == [] by {
        assert multiset(sorted) == multiset(pushed);
      }
      return Panic(sp.reason);
    }
    var s, bestC := sp.value.0, sp.value.1;
    r := Value(CUnionableVector(queryTable, candidateTable, scores, s, alignment, maxC, bestC + 1));
    assert pushed != [] by {
      assert alignment[0] in alignment;
      assert sorted != [];
      assert |multiset(sorted)| > 0;
    }
    SameMembers(sorted, pushed);
    ScanAligned(r.value, sorted, pushed, candTextCount, tablePercentile);
  }

  lemma SameMembers(a: seq<Pair>, b: seq<Pair>)
    requires multiset(a) == multiset(b)
    ensures forall p :: p in a <==> p in b
  {
    forall p ensures p in a <==> p in b {
      assert p in a <==> p in multiset(a);
      assert p in b <==> p in multiset(b);
    }
  }

  /** the vector built from a finished scan of the descending batch, with
      its percentiles sorted, is aligned with the batch */
  lemma ScanAligned(v: CUnionableVector, sorted: seq<Pair>, batch: seq<Pair>, candTextCount: nat,
                    tablePercentile: (int, real) -> Percentile)
    requires forall p :: p in sorted <==> p in batch
    requires v.alignment == Greedy(DescendingBatch(batch), candTextCount)
    requires ColumnsOneToOne(v.alignment) && InBatchOrder(v.alignment)
    requires forall p :: p in v.alignment ==> p in sorted
    requires RunningProduct(v.scores, v.alignment)
    requires |CandCols(v.alignment)| == candTextCount || forall p :: p in sorted ==> Blocked(v.alignment, p)
    requires v.maxC == |TablePercentiles(v.scores, tablePercentile)| != 0
    requires |v.percentiles| == v.maxC
    requires multiset(v.percentiles) == multiset(TablePercentiles(v.scores, tablePercentile))
    requires AscendingByValue(v.percentiles)
    requires 1 <= v.bestC <= v.maxC
    requires forall i :: 0 <= i < v.maxC ==>
      TablePercentiles(v.scores, tablePercentile)[i].value <= TablePercentiles(v.scores, tablePercentile)[v.bestC - 1].value
    ensures Aligned(v, batch, candTextCount, tablePercentile)
  {
    CandColsSize(v.alignment);
  }

  /** what a computed `CUnionableVector` promises about its batch */
  predicate Aligned(v: CUnionableVector, batch: seq<Pair>, candTextCount: nat, tablePercentile: (int, real) -> Percentile)
  {
    var a := v.alignment;
    var raw := TablePercentiles(v.scores, tablePercentile);
    |a| == |v.scores| == |v.percentiles| == v.maxC &&
    a == Greedy(DescendingBatch(batch), candTextCount) &&
    ColumnsOneToOne(a) && InBatchOrder(a) && (forall p :: p in a ==> p in batch) &&
    (v.maxC == candTextCount || forall p :: p in batch ==> Blocked(a, p)) &&
    RunningProduct(v.scores, a) &&
    multiset(v.percentiles) == multiset(raw) && AscendingByValue(v.percentiles) &&
    1 <= v.bestC <= v.maxC &&
    forall i :: 0 <= i < v.maxC ==> raw[i].value <= raw[v.bestC - 1].value
  }
}
