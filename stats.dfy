/** opendata/stats.go: comparing perturbed percentiles, picking the best
    attribute-unionability measure, looking scores up in an equi-depth CDF
    and ordering a table's c-unionability percentiles. Scores are compared,
    never computed, so they are reals here. */
module Stats {
  import opened Wrappers

  /** a percentile with its values at score - delta and score + delta */
  datatype Percentile = Percentile(value: real, valuePlus: real, valueMinus: real, perturbation: real)

  /** `ComparePercentiles`: 1, 0 or -1 by `valueMinus`, ties broken by
      `valuePlus`; `value` plays no part. */
  function ComparePercentiles(p1: Percentile, p2: Percentile): (c: int)
    ensures c == 1 <==> p1.valueMinus > p2.valueMinus || (p1.valueMinus == p2.valueMinus && p1.valuePlus > p2.valuePlus)
    ensures c == 0 <==> p1.valueMinus == p2.valueMinus && p1.valuePlus == p2.valuePlus
    ensures c == -1 <==> p1.valueMinus < p2.valueMinus || (p1.valueMinus == p2.valueMinus && p1.valuePlus < p2.valuePlus)
  {
    if p1.valueMinus == p2.valueMinus then
      if p1.valuePlus > p2.valuePlus then 1
      else if p1.valuePlus == p2.valuePlus then 0
      else -1
    else if p1.valueMinus < p2.valueMinus then -1
    else 1
  }

  /** The comparison is reflexive, antisymmetric and blind to `value`. */
  lemma ComparePercentilesOrder(p: Percentile, q: Percentile, v: real)
    ensures ComparePercentiles(p, p) == 0
    ensures ComparePercentiles(p, q) == -ComparePercentiles(q, p)
    ensures ComparePercentiles(p.(value := v), q) == ComparePercentiles(p, q)
  {
  }

  /** ... and transitive, so it is a total preorder. */
  lemma ComparePercentilesTransitive(p: Percentile, q: Percentile, r: Percentile)
    requires ComparePercentiles(p, q) >= 0 && ComparePercentiles(q, r) >= 0
    ensures ComparePercentiles(p, r) >= 0
    ensures ComparePercentiles(p, q) == 1 || ComparePercentiles(q, r) == 1 ==> ComparePercentiles(p, r) == 1
  {
  }

  /** one candidate measure with its score and percentile */
  datatype Scored = Scored(measure: string, score: real, percentile: Percentile)

  /** the largest score of a nonempty list */
  function MaxScore(xs: seq<Scored>): (m: real)
    requires |xs| > 0
    ensures forall i :: 0 <= i < |xs| ==> xs[i].score <= m
    ensures exists i :: 0 <= i < |xs| && xs[i].score == m
  {
    if |xs| == 1 then xs[0].score
    else
      var m := MaxScore(xs[..|xs| - 1]);
      assert forall i :: 0 <= i < |xs| - 1 ==> xs[..|xs| - 1][i] == xs[i];
      if xs[|xs| - 1].score > m then xs[|xs| - 1].score else m
  }

  /** the measures whose score equals m, in list order */
  function MeasuresScoring(xs: seq<Scored>, m: real): (r: seq<string>)
    ensures |r| <= |xs|
  {
    if xs == [] then []
    else MeasuresScoring(xs[..|xs| - 1], m) + (if xs[|xs| - 1].score == m then [xs[|xs| - 1].measure] else [])
  }

  /** the measures whose percentile compares equal to p, in list order */
  function MeasuresTying(xs: seq<Scored>, p: Percentile): (r: seq<string>)
    ensures |r| <= |xs|
  {
    if xs == [] then []
    else MeasuresTying(xs[..|xs| - 1], p) + (if ComparePercentiles(xs[|xs| - 1].percentile, p) == 0 then [xs[|xs| - 1].measure] else [])
  }

  /** the order in which `GetAttUnionability` visits the four measures */
  function Measures(uSet: real, uNL: real, uSemSet: real, uSem: real): seq<Scored>
  {
    [Scored("set", uSet, Percentile(0.0, 0.0, 0.0, 0.0)), Scored("nl", uNL, Percentile(0.0, 0.0, 0.0, 0.0)),
     Scored("semset", uSemSet, Percentile(0.0, 0.0, 0.0, 0.0)), Scored("sem", uSem, Percentile(0.0, 0.0, 0.0, 0.0))]
  }

  /** `GetAttUnionability`, given the set, nl, semantic-set and semantic
      unionability scores it computes from the stores: the largest score
      and every measure attaining it, in the order set, nl, semset, sem. */
  method GetAttUnionability(uSet: real, uNL: real, uSemSet: real, uSem: real) returns (uScore: real, uMeasure: seq<string>)
    ensures uScore == MaxScore(Measures(uSet, uNL, uSemSet, uSem))
    ensures uMeasure == MeasuresScoring(Measures(uSet, uNL, uSemSet, uSem), uScore)
    ensures |uMeasure| >= 1
  {
    var xs := Measures(uSet, uNL, uSemSet, uSem);
    uScore := uSet;
    uMeasure := ["set"];
    assert uMeasure == MeasuresScoring(xs[..1], uScore);
    uScore, uMeasure := Consider(xs, 2, uScore, uMeasure);
    uScore, uMeasure := Consider(xs, 3, uScore, uMeasure);
    uScore, uMeasure := Consider(xs, 4, uScore, uMeasure);
    assert xs[..4] == xs;
  }

  /** one comparison of `GetAttUnionability`: measure n - 1 either beats the
      best score so far, and is then the only measure attaining it, or ties
      with it and joins the measures attaining it, or is passed over */
  method Consider(xs: seq<Scored>, n: nat, score: real, measures: seq<string>) returns (uScore: real, uMeasure: seq<string>)
    requires 2 <= n <= |xs| && measures != []
    requires score == MaxScore(xs[..n - 1]) && measures == MeasuresScoring(xs[..n - 1], score)
    ensures uScore == MaxScore(xs[..n]) && uMeasure == MeasuresScoring(xs[..n], uScore)
    ensures uMeasure != []
  {
    assert xs[..n][..n - 1] == xs[..n - 1];
    var x := xs[n - 1];
    uScore, uMeasure := score, measures;
    if x.score > uScore {
      assert forall i :: 0 <= i < n - 1 ==> xs[i].score < x.score by {
        forall i | 0 <= i < n - 1 ensures xs[i].score < x.score {
          assert xs[..n - 1][i] == xs[i];
        }
      }
      uScore := x.score;
      uMeasure := [x.measure];
    } else if x.score == uScore {
      uMeasure := uMeasure + [x.measure];
    }
    ScoringAfterNewMax(xs, n, uScore);
  }

  /** When the n-th score is a strict new maximum, it is the only measure
      scoring it among the first n. */
  lemma ScoringAfterNewMax(xs: seq<Scored>, n: nat, m: real)
    requires 1 <= n <= |xs|
    ensures (forall i :: 0 <= i < n - 1 ==> xs[i].score < m) && xs[n - 1].score == m ==>
      MeasuresScoring(xs[..n], m) == [xs[n - 1].measure]
    ensures MeasuresScoring(xs[..n], m) == MeasuresScoring(xs[..n - 1], m) + (if xs[n - 1].score == m then [xs[n - 1].measure] else [])
  {
    assert xs[..n][..n - 1] == xs[..n - 1];
    if (forall i :: 0 <= i < n - 1 ==> xs[i].score < m) && xs[n - 1].score == m {
      NoneScoring(xs[..n - 1], m);
    }
  }

  lemma {:induction false} NoneScoring(xs: seq<Scored>, m: real)
    requires forall i :: 0 <= i < |xs| ==> xs[i].score < m
    ensures MeasuresScoring(xs, m) == []
  {
    if xs != [] {
      assert forall i :: 0 <= i < |xs| - 1 ==> xs[..|xs| - 1][i] == xs[i];
      NoneScoring(xs[..|xs| - 1], m);
    }
  }

  /** the percentile order is a total preorder on the list: p is at least
      every percentile of xs */
  predicate Dominates(p: Percentile, xs: seq<Scored>)
  {
    forall i :: 0 <= i < |xs| ==> ComparePercentiles(xs[i].percentile, p) <= 0
  }

  /** `GetAttUnionabilityPercentile`, given the four scores and their
      perturbed percentiles: the chosen percentile is a greatest one, the
      measures are exactly those whose percentile ties with it (in visiting
      order), and score and percentile are those of the first of them. */
  method GetAttUnionabilityPercentile(xs: seq<Scored>) returns (uScore: real, uPercentile: Percentile, uMeasure: seq<string>)
    requires |xs| == 4
    requires xs[0].measure == "set" && xs[1].measure == "nl" && xs[2].measure == "semset" && xs[3].measure == "sem"
    ensures Dominates(uPercentile, xs)
    ensures uMeasure == MeasuresTying(xs, uPercentile)
    ensures |uMeasure| >= 1
    ensures exists i :: 0 <= i < 4 && xs[i].percentile == uPercentile && xs[i].score == uScore && xs[i].measure == uMeasure[0]
  {
    ghost var first := 0;
    uScore := xs[0].score;
    uPercentile := xs[0].percentile;
    uMeasure := ["set"];
    assert xs[..1] == [xs[0]];
    assert uMeasure == MeasuresTying(xs[..1], uPercentile);
    var i := 1;
    while i < 4
      invariant 1 <= i <= 4 && first < i
      invariant xs[first].percentile == uPercentile && xs[first].score == uScore
      invariant Dominates(uPercentile, xs[..i])
      invariant uMeasure == MeasuresTying(xs[..i], uPercentile) && uMeasure != [] && uMeasure[0] == xs[first].measure
    {
      var cmp := ComparePercentiles(xs[i].percentile, uPercentile);
      assert xs[..i + 1][..i] == xs[..i];
      if cmp == 1 {
        StrictlyAbove(xs[..i], uPercentile, xs[i].percentile);
        first := i;
        uScore := xs[i].score;
        uPercentile := xs[i].percentile;
        uMeasure := [xs[i].measure];
      } else if cmp == 0 {
        TyingUnchanged(xs[..i], uPercentile, xs[i].percentile);
        uMeasure := uMeasure + [xs[i].measure];
      }
      i := i + 1;
    }
    assert xs[..4] == xs;
  }

  /** A percentile strictly above the current best is strictly above every
      earlier one, so it ties with none of them. */
  lemma {:induction false} StrictlyAbove(xs: seq<Scored>, best: Percentile, p: Percentile)
    requires Dominates(best, xs) && ComparePercentiles(p, best) == 1
    ensures Dominates(p, xs)
    ensures MeasuresTying(xs, p) == []
  {
    forall i | 0 <= i < |xs| ensures ComparePercentiles(xs[i].percentile, p) == -1 {
      ComparePercentilesTransitive(p, best, xs[i].percentile);
    }
    if xs != [] {
      assert forall i :: 0 <= i < |xs| - 1 ==> xs[..|xs| - 1][i] == xs[i];
      StrictlyAbove(xs[..|xs| - 1], best, p);
    }
  }

  /** Ties with the best are ties with one another, so a tying newcomer
      leaves the list of tying measures as it was. */
  lemma {:induction false} TyingUnchanged(xs: seq<Scored>, best: Percentile, p: Percentile)
    requires ComparePercentiles(p, best) == 0
    ensures MeasuresTying(xs, p) == MeasuresTying(xs, best)
    ensures Dominates(best, xs) ==> Dominates(p, xs)
  {
    if xs != [] {
      TyingUnchanged(xs[..|xs| - 1], best, p);
    }
  }

  /** one bin of an equi-depth histogram */
  datatype Bin = Bin(lowerBound: real, upperBound: real, count: int, accumulativeCount: int, percentile: real, total: int)

  predicate UpperBoundsSorted(h: seq<Bin>)
  {
    forall i, j :: 0 <= i < j < |h| ==> h[i].upperBound <= h[j].upperBound
  }

  /** `sort.Search(n, f)` as Go implements it: a binary search that, for a
      predicate that is false then true, finds the first true index (n when
      there is none). */
  method SearchUpperBound(h: seq<Bin>, score: real) returns (i: nat)
    ensures i <= |h|
    ensures UpperBoundsSorted(h) ==> (i < |h| ==> h[i].upperBound >= score) && forall j :: 0 <= j < i ==> h[j].upperBound < score
  {
    var lo, hi := 0, |h|;
    while lo < hi
      invariant 0 <= lo <= hi <= |h|
      invariant UpperBoundsSorted(h) ==> forall j :: 0 <= j < lo ==> h[j].upperBound < score
      invariant UpperBoundsSorted(h) ==> hi < |h| ==> h[hi].upperBound >= score
      decreases hi - lo
    {
      var mid := (lo + hi) / 2;
      if !(h[mid].upperBound >= score) {
        lo := mid + 1;
      } else {
        hi := mid;
      }
    }
    i := lo;
  }

  /** `getPercentileEquiDepth`: 0 for a score that is at most 0, NaN or
      infinite; otherwise the percentile of the first bin whose upper
      bound reaches the score capped at 1, and 0 when no bin does. */
  method GetPercentileEquiDepth(h: seq<Bin>, score: Float) returns (r: real)
    ensures !(score.Num? && score.r > 0.0) ==> r == 0.0
    ensures score.Num? && score.r > 0.0 && UpperBoundsSorted(h) ==>
      var s := if score.r < 1.0 then score.r else 1.0;
      r == (if forall j :: 0 <= j < |h| ==> h[j].upperBound < s then 0.0
            else h[FirstReaching(h, s)].percentile)
    ensures r == 0.0 || exists j :: 0 <= j < |h| && h[j].percentile == r
  {
    if !(score.Num? && score.r > 0.0) {
      return 0.0;
    }
    var s := if score.r < 1.0 then score.r else 1.0;
    var i := SearchUpperBound(h, s);
    if i == |h| {
      return 0.0;
    }
    if UpperBoundsSorted(h) {
      FirstReachingIs(h, s, i);
    }
    r := h[i].percentile;
  }

  /** the index of the first bin whose upper bound is at least s */
  function FirstReaching(h: seq<Bin>, s: real): (i: nat)
    requires exists j :: 0 <= j < |h| && h[j].upperBound >= s
    ensures i < |h| && h[i].upperBound >= s
    ensures forall j :: 0 <= j < i ==> h[j].upperBound < s
  {
    if h[0].upperBound >= s then 0
    else
      assert exists j :: 0 <= j < |h[1..]| && h[1..][j].upperBound >= s by {
        var j :| 0 <= j < |h| && h[j].upperBound >= s;
        assert h[1..][j - 1] == h[j];
      }
      FirstReaching(h[1..], s) + 1
  }

  lemma FirstReachingIs(h: seq<Bin>, s: real, i: nat)
    requires i < |h| && h[i].upperBound >= s
    requires forall j :: 0 <= j < i ==> h[j].upperBound < s
    ensures FirstReaching(h, s) == i
  {
  }

  predicate AscendingByValue(ps: seq<Percentile>)
  {
    forall i, j :: 0 <= i < j < |ps| ==> ps[i].value <= ps[j].value
  }

  /** inserts p into an ascending sequence after every element whose value
      is not above p's */
  function InsertByValue(sorted: seq<Percentile>, p: Percentile): (r: seq<Percentile>)
    ensures multiset(r) == multiset(sorted) + multiset{p}
    ensures |r| == |sorted| + 1
  {
    if sorted == [] then [p]
    else if sorted[|sorted| - 1].value <= p.value then sorted + [p]
    else
      assert sorted == sorted[..|sorted| - 1] + [sorted[|sorted| - 1]];
      InsertByValue(sorted[..|sorted| - 1], p) + [sorted[|sorted| - 1]]
  }

  lemma {:induction false} InsertByValueSorted(sorted: seq<Percentile>, p: Percentile)
    requires AscendingByValue(sorted)
    ensures AscendingByValue(InsertByValue(sorted, p))
  {
    if sorted != [] && sorted[|sorted| - 1].value > p.value {
      var front := sorted[..|sorted| - 1];
      var last := sorted[|sorted| - 1];
      InsertByValueSorted(front, p);
      var mid := InsertByValue(front, p);
      forall i | 0 <= i < |mid| ensures mid[i].value <= last.value {
        assert mid[i] in multiset(mid);
        if mid[i] != p {
          assert mid[i] in multiset(front);
          var j :| 0 <= j < |front| && front[j] == mid[i];
          assert sorted[j] == mid[i];
        }
      }
      AppendAscending(mid, last);
    } else if sorted != [] {
      AppendAscending(sorted, p);
    }
  }

  lemma AppendAscending(s: seq<Percentile>, last: Percentile)
    requires AscendingByValue(s)
    requires forall i :: 0 <= i < |s| ==> s[i].value <= last.value
    ensures AscendingByValue(s + [last])
  {
    var r := s + [last];
    forall i, j | 0 <= i < j < |r| ensures r[i].value <= r[j].value {
      assert r[i] == s[i];
    }
  }

  /** `SortPercentiles`: the percentiles permuted in ascending order of
      value, and the input position of the one that ends up last, which
      holds a largest value; on an empty slice the final index expression
      panics. The underlying argsort is not stable, so among equal values
      the model's order is one of those it may produce. */
  method SortPercentiles(ps: seq<Percentile>) returns (r: Outcome<(seq<Percentile>, nat)>)
    ensures ps == [] <==> r.Panic?
    ensures r.Value? ==> |r.value.0| == |ps| && multiset(r.value.0) == multiset(ps)
    ensures r.Value? ==> AscendingByValue(r.value.0)
    ensures r.Value? ==> r.value.1 < |ps| && r.value.0[|ps| - 1] == ps[r.value.1]
    ensures r.Value? ==> forall i :: 0 <= i < |ps| ==> ps[i].value <= ps[r.value.1].value
  {
    var sps: seq<Percentile> := [];
    var i := 0;
    while i < |ps|
      invariant 0 <= i <= |ps|
      invariant AscendingByValue(sps) && multiset(sps) == multiset(ps[..i])
    {
      InsertByValueSorted(sps, ps[i]);
      sps := InsertByValue(sps, ps[i]);
      assert ps[..i + 1] == ps[..i] + [ps[i]];
      i := i + 1;
    }
    assert ps[..|ps|] == ps;
    assert |sps| == |ps| by {
      assert |multiset(sps)| == |multiset(ps)|;
    }
    if |sps| == 0 {
      return Panic("index out of range [-1]");
    }
    var top := sps[|sps| - 1];
    assert top in multiset(ps) by {
      assert top in multiset(sps);
    }
    var best := 0;
    while ps[best] != top
      invariant 0 <= best < |ps| && top in ps[best..]
      decreases |ps| - best
    {
      best := best + 1;
    }
    forall m | 0 <= m < |ps| ensures ps[m].value <= top.value {
      assert ps[m] in multiset(sps);
      var q :| 0 <= q < |sps| && sps[q] == ps[m];
    }
    r := Value((sps, best));
  }
}
