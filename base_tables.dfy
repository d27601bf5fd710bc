/** cmd/find_benchmark_base_tables/main.go: the column statistics by which
    open-data tables are chosen as base tables of the benchmark. A table
    keeps the columns of enough distinct values, and qualifies when enough
    of its columns are text, or mapped to fastText words or to YAGO
    entities. The fields of the statistics record other than the column
    count come from a library outside this model. */
module BaseTables {
  import opened Wrappers

  /** `fastTextMinNumCol`, `yagoMinNumCol` */
  const FastTextMinNumCol: nat := 5
  const YagoMinNumCol: nat := FastTextMinNumCol
  /** `fasttextMinPct`, `yagoMinPct` */
  const FastTextMinPct: real := 0.8
  const YagoMinPct: real := FastTextMinPct

  /** `columnStat` */
  datatype ColumnStat = ColumnStat(isText: bool, distinctCount: int, fastTextMapped: int, yagoMapped: int)

  /** `tableStat`: the column count of the table's statistics, and a
      statistic and a name per column */
  datatype TableStat = TableStat(numCol: int, colStats: seq<ColumnStat>, columns: seq<string>)

  /** mapped / distinct >= 0.8 in floating point: a positive count over no
      distinct value is +Inf, and none over none is NaN, which compares
      false */
  function MappedEnough(mapped: int, distinct: int): (r: bool)
    ensures distinct != 0 ==> (r <==> (mapped as real) / (distinct as real) >= FastTextMinPct)
    ensures distinct == 0 ==> (r <==> mapped > 0)
  {
    if distinct == 0 then mapped > 0
    else
      RatioAtLeast(mapped as real, distinct as real);
      if distinct > 0 then 5 * mapped >= 4 * distinct else 5 * mapped <= 4 * distinct
  }

  /** m / d >= 0.8 compares 5m with 4d, the way round set by d's sign */
  lemma RatioAtLeast(m: real, d: real)
    requires d != 0.0
    ensures m / d >= 0.8 <==> if d > 0.0 then 5.0 * m >= 4.0 * d else 5.0 * m <= 4.0 * d
  {
    var q := m / d;
    assert m == q * d;
    if d > 0.0 {
      assert 5.0 * m - 4.0 * d == (5.0 * q - 4.0) * d;
    } else {
      assert 4.0 * d - 5.0 * m == (5.0 * q - 4.0) * -d;
    }
  }

  /** `isFastTextCol` */
  predicate IsFastTextCol(s: ColumnStat)
  {
    MappedEnough(s.fastTextMapped, s.distinctCount)
  }

  /** `isYagoCol` */
  predicate IsYagoCol(s: ColumnStat)
  {
    MappedEnough(s.yagoMapped, s.distinctCount)
  }

  // ---------------------------------------------------------------
  // discardSmallCardinalityCols
  // ---------------------------------------------------------------

  /** the positions of the columns of at least minDistinct distinct values,
      in order */
  function KeptIndices(stats: seq<ColumnStat>, minDistinct: int): (r: seq<nat>)
    ensures |r| <= |stats|
    ensures forall k :: 0 <= k < |r| ==> r[k] < |stats|
  {
    if stats == [] then []
    else
      var last := |stats| - 1;
      KeptIndices(stats[..last], minDistinct) + if stats[last].distinctCount >= minDistinct then [last] else []
  }

  /** The positions kept are exactly those of the columns of enough distinct
      values, each once and in increasing order. */
  lemma {:induction false} KeptIndicesMembers(stats: seq<ColumnStat>, minDistinct: int)
    ensures forall i :: i in KeptIndices(stats, minDistinct) <==> 0 <= i < |stats| && stats[i].distinctCount >= minDistinct
    ensures forall k, l :: 0 <= k < l < |KeptIndices(stats, minDistinct)| ==> KeptIndices(stats, minDistinct)[k] < KeptIndices(stats, minDistinct)[l]
  {
    if stats != [] {
      var init := stats[..|stats| - 1];
      KeptIndicesMembers(init, minDistinct);
      assert forall i :: 0 <= i < |init| ==> init[i] == stats[i];
    }
  }

  /** the statistics of the columns at the positions */
  predicate Picked(r: TableStat, stat: TableStat, inds: seq<nat>)
  {
    |r.colStats| == |inds| && |r.columns| == |inds| &&
    forall k :: 0 <= k < |inds| ==>
      inds[k] < |stat.colStats| && inds[k] < |stat.columns| &&
      r.colStats[k] == stat.colStats[inds[k]] && r.columns[k] == stat.columns[inds[k]]
  }

  /** first loop of `discardSmallCardinalityCols` */
  method LargeColumns(stats: seq<ColumnStat>, minDistinct: int) returns (colInds: seq<nat>)
    ensures colInds == KeptIndices(stats, minDistinct)
  {
    colInds := [];
    for i := 0 to |stats|
      invariant colInds == KeptIndices(stats[..i], minDistinct)
    {
      assert stats[..i + 1][..i] == stats[..i];
      if stats[i].distinctCount >= minDistinct {
        colInds := colInds + [i];
      }
    }
    assert stats[..|stats|] == stats;
  }

  /** `discardSmallCardinalityCols`: the columns of at least minDistinct
      distinct values, in order, each statistic beside its own column name,
      and the column count set to their number; a column name missing for
      a kept statistic panics */
  method DiscardSmallCardinalityCols(stat: TableStat, minDistinct: int) returns (r: Outcome<TableStat>)
    ensures r.Panic? <==> exists k :: 0 <= k < |KeptIndices(stat.colStats, minDistinct)| && KeptIndices(stat.colStats, minDistinct)[k] >= |stat.columns|
    ensures r.Value? ==>
      r.value.numCol == |KeptIndices(stat.colStats, minDistinct)| &&
      Picked(r.value, stat, KeptIndices(stat.colStats, minDistinct))
  {
    var colInds := LargeColumns(stat.colStats, minDistinct);
    var colStats: seq<ColumnStat> := [];
    var columns: seq<string> := [];
    for i := 0 to |colInds|
      invariant |colStats| == i && |columns| == i
      invariant forall k :: 0 <= k < i ==> colInds[k] < |stat.columns|
      invariant forall k :: 0 <= k < i ==> colStats[k] == stat.colStats[colInds[k]] && columns[k] == stat.columns[colInds[k]]
    {
      if colInds[i] >= |stat.columns| {
        return Panic("index out of range");
      }
      colStats := colStats + [stat.colStats[colInds[i]]];
      columns := columns + [stat.columns[colInds[i]]];
    }
    return Value(TableStat(|colInds|, colStats, columns));
  }

  /** the positions of the columns of at least minDistinct distinct values */
  function Large(stats: seq<ColumnStat>, minDistinct: int): set<nat>
  {
    set i: nat | i < |stats| && stats[i].distinctCount >= minDistinct
  }

  /** the large positions of a sequence, and those of all but its last
      element */
  lemma LargeSnoc(stats: seq<ColumnStat>, minDistinct: int)
    requires stats != []
    ensures var init, last := stats[..|stats| - 1], |stats| - 1;
      Large(stats, minDistinct) == Large(init, minDistinct) + if stats[last].distinctCount >= minDistinct then {last} else {}
  {
    var init := stats[..|stats| - 1];
    assert forall i :: 0 <= i < |init| ==> init[i] == stats[i];
  }

  /** As many positions are kept as there are columns of enough distinct
      values. */
  lemma {:induction false} KeptCount(stats: seq<ColumnStat>, minDistinct: int)
    ensures |KeptIndices(stats, minDistinct)| == |Large(stats, minDistinct)|
  {
    if stats != [] {
      var init := stats[..|stats| - 1];
      KeptCount(init, minDistinct);
      LargeSnoc(stats, minDistinct);
      assert |stats| - 1 !in Large(init, minDistinct);
    }
  }

  /** After discarding, every column left has enough distinct values, and
      no column of enough distinct values is lost. */
  lemma DiscardedKeepsLarge(stat: TableStat, minDistinct: int, r: TableStat)
    requires Picked(r, stat, KeptIndices(stat.colStats, minDistinct))
    ensures forall k :: 0 <= k < |r.colStats| ==> r.colStats[k].distinctCount >= minDistinct
    ensures |r.colStats| == |Large(stat.colStats, minDistinct)|
  {
    var inds := KeptIndices(stat.colStats, minDistinct);
    KeptIndicesMembers(stat.colStats, minDistinct);
    forall k | 0 <= k < |r.colStats| ensures r.colStats[k].distinctCount >= minDistinct {
      assert inds[k] in inds;
    }
    KeptCount(stat.colStats, minDistinct);
  }

  // ---------------------------------------------------------------
  // numTextCol and the criteria
  // ---------------------------------------------------------------

  /** what a column is counted for */
  datatype Kind = Text | FastText | Yago

  predicate Qualifies(s: ColumnStat, kind: Kind)
  {
    match kind
    case Text => s.isText
    case FastText => IsFastTextCol(s)
    case Yago => IsYagoCol(s)
  }

  /** the number of columns of the kind */
  function Count(stats: seq<ColumnStat>, kind: Kind): (n: nat)
    ensures n <= |stats|
  {
    if stats == [] then 0
    else Count(stats[..|stats| - 1], kind) + if Qualifies(stats[|stats| - 1], kind) then 1 else 0
  }

  /** the positions of the columns of the kind */
  function Positions(stats: seq<ColumnStat>, kind: Kind): set<nat>
  {
    set i | 0 <= i < |stats| && Qualifies(stats[i], kind)
  }

  /** The count is the number of positions of columns of the kind. */
  lemma {:induction false} CountPositions(stats: seq<ColumnStat>, kind: Kind)
    ensures Count(stats, kind) == |Positions(stats, kind)|
  {
    if stats != [] {
      var init := stats[..|stats| - 1];
      CountPositions(init, kind);
      PositionsSnoc(stats, kind);
    }
  }

  /** the positions of a sequence, and those of all but its last element */
  lemma PositionsSnoc(stats: seq<ColumnStat>, kind: Kind)
    requires stats != []
    ensures var init, last := stats[..|stats| - 1], |stats| - 1;
      Positions(stats, kind) == Positions(init, kind) + if Qualifies(stats[last], kind) then {last} else {}
  {
    var init := stats[..|stats| - 1];
    assert forall i :: 0 <= i < |init| ==> init[i] == stats[i];
  }

  /** a counting loop of the source over the column statistics */
  method CountColumns(stats: seq<ColumnStat>, kind: Kind) returns (n: nat)
    ensures n == Count(stats, kind)
  {
    n := 0;
    for i := 0 to |stats|
      invariant n == Count(stats[..i], kind)
    {
      assert stats[..i + 1][..i] == stats[..i];
      var qualifies := match kind
        case Text => stats[i].isText
        case FastText => IsFastTextCol(stats[i])
        case Yago => IsYagoCol(stats[i]);
      if qualifies {
        n := n + 1;
      }
    }
    assert stats[..|stats|] == stats;
  }

  /** `numTextCol` */
  method NumTextCol(stat: TableStat) returns (n: nat)
    ensures n == |Positions(stat.colStats, Text)|
  {
    n := CountColumns(stat.colStats, Text);
    CountPositions(stat.colStats, Text);
  }

  /** `metFastTextCriteria`: at least five columns mostly mapped to fastText
      words */
  method MetFastTextCriteria(stat: TableStat) returns (met: bool)
    ensures met <==> |Positions(stat.colStats, FastText)| >= FastTextMinNumCol
  {
    var n := CountColumns(stat.colStats, FastText);
    CountPositions(stat.colStats, FastText);
    met := n >= FastTextMinNumCol;
  }

  /** `metYagoCriteria`: at least five columns mostly mapped to YAGO
      entities */
  method MetYagoCriteria(stat: TableStat) returns (met: bool)
    ensures met <==> |Positions(stat.colStats, Yago)| >= YagoMinNumCol
  {
    var n := CountColumns(stat.colStats, Yago);
    CountPositions(stat.colStats, Yago);
    met := n >= YagoMinNumCol;
  }
}
