/** benchmarkserver/emb_search.go (and its syntactic twin in
    benchmarkserver/jaccard_search.go): the `alignment` state machine that
    turns a stream of scored column pairs, taken batch by batch in
    descending order, into one-to-one column alignments of candidate
    tables, completing a table when it has k accepted pairs. */
module EmbSearch {
  import opened Wrappers
  import opened GoStrings
  import opened TopK
  import Stats

  /** a scored (query column, candidate column) pair; F and T2 can be NaN or
      infinite, the other scores are only compared */
  datatype Pair = Pair(
    candTableID: string, candColIndex: Int64, queryColIndex: Int64,
    queryCardinality: int, candCardinality: int,
    jaccard: real, containment: real, hypergeometric: real,
    ontologyJaccard: real, ontologyHypergeometric: real, semSet: real,
    cosine: real, f: Float, t2: Float, sim: real,
    percentile: Stats.Percentile, measure: string)

  /** the fields of `SearchResult` these operations fill (the duration since
      the start time is left out) */
  datatype SearchResult = SearchResult(candidateTableID: string, alignment: seq<Pair>, k: int, n: int)

  /** the embedding search (emb_search.go) or the syntactic one
      (jaccard_search.go) */
  datatype Kind = Embedding | Syntactic

  /** `batchSize` */
  const BatchSize: nat := 3000

  /** the priority of a pair in its table's queue: `Cosine` in
      `processPairsEmbedding`, `Hypergeometric` in `processPairsSyntactic` */
  function TablePriority(p: Pair, kind: Kind): real
  {
    if kind == Embedding then p.cosine else p.hypergeometric
  }

  /** the priority of a pair in the batch queue: `Cosine` or `Sim` */
  function BatchPriority(p: Pair, kind: Kind): real
  {
    if kind == Embedding then p.cosine else p.sim
  }

  /** the filter in front of the batch: finite T2 and F and a nonzero
      cosine (embedding), or a nonzero Sim (syntactic) */
  predicate Admits(p: Pair, kind: Kind)
  {
    if kind == Embedding then p.t2.Num? && p.f.Num? && p.cosine != 0.0 else p.sim != 0.0
  }

  /** the pairs held by a sequence of queue items */
  function Values(s: seq<Item<Pair>>): (r: seq<Pair>)
    ensures |r| == |s|
    ensures forall i :: 0 <= i < |s| ==> r[i] == s[i].value
  {
    seq(|s|, i requires 0 <= i < |s| => s[i].value)
  }

  /** the candidate columns of the accepted pairs: the counter in the
      source is keyed by `strconv.Itoa(CandColIndex)`, which is injective
      (`ItoaInjective`), so the model keys it by the index itself */
  function CandKeys(s: seq<Item<Pair>>): set<int>
  {
    set i | 0 <= i < |s| :: s[i].value.candColIndex
  }

  /** the query columns of the accepted pairs */
  function QueryKeys(s: seq<Item<Pair>>): set<int>
  {
    set i | 0 <= i < |s| :: s[i].value.queryColIndex
  }

  lemma KeysAppend(s: seq<Item<Pair>>, it: Item<Pair>)
    ensures CandKeys(s + [it]) == CandKeys(s) + {it.value.candColIndex}
    ensures QueryKeys(s + [it]) == QueryKeys(s) + {it.value.queryColIndex}
  {
    var t := s + [it];
    assert forall i :: 0 <= i < |s| ==> t[i] == s[i];
    assert t[|s|] == it;
  }

  /** strconv.Itoa is injective on int64, so keying a counter by
      `Itoa(index)` is keying it by the index. */
  lemma ItoaInjective(a: Int64, b: Int64)
    ensures Itoa(a) == Itoa(b) <==> a == b
  {
    if Itoa(a) == Itoa(b) {
      AtoiItoa(a);
      AtoiItoa(b);
    }
  }

  /** no candidate column and no query column occurs in two items */
  predicate OneToOne(s: seq<Item<Pair>>)
  {
    forall i, j :: 0 <= i < j < |s| ==>
      s[i].value.candColIndex != s[j].value.candColIndex && s[i].value.queryColIndex != s[j].value.queryColIndex
  }

  /** the pairs were accepted greedily: each one's candidate column and
      query column are unused by the pairs accepted before it */
  predicate Greedy(s: seq<Item<Pair>>)
  {
    s == [] ||
    (Greedy(s[..|s| - 1]) &&
     s[|s| - 1].value.candColIndex !in CandKeys(s[..|s| - 1]) && s[|s| - 1].value.queryColIndex !in QueryKeys(s[..|s| - 1]))
  }

  /** Greedy acceptance is one-to-one: no candidate column and no query
      column occurs in two accepted pairs. */
  lemma {:induction false} GreedyIsOneToOne(s: seq<Item<Pair>>)
    requires Greedy(s)
    ensures OneToOne(s)
  {
    if s != [] {
      var front := s[..|s| - 1];
      GreedyIsOneToOne(front);
      forall i, j | 0 <= i < j < |s|
        ensures s[i].value.candColIndex != s[j].value.candColIndex && s[i].value.queryColIndex != s[j].value.queryColIndex
      {
        assert s[i] == front[i];
        if j < |s| - 1 {
          assert s[j] == front[j];
        }
      }
    }
  }

  /** an element at two positions occurs at least twice */
  lemma TwoPositions<T>(s: seq<T>, i: nat, j: nat)
    requires i < j < |s| && s[i] == s[j]
    ensures multiset(s)[s[i]] >= 2
  {
    assert s == s[..j] + s[j..];
    assert s[i] == s[..j][i];
    assert s[j] == s[j..][0];
  }

  /** in a one-to-one sequence each item occurs once */
  lemma OnePosition(s: seq<Item<Pair>>, p: nat)
    requires OneToOne(s) && p < |s|
    ensures multiset(s)[s[p]] == 1
  {
    assert s == s[..p] + [s[p]] + s[p + 1..];
    assert s[p] !in multiset(s[..p]) by {
      forall m | 0 <= m < p ensures s[..p][m] != s[p] {
        assert s[..p][m] == s[m];
      }
    }
    var back := s[p + 1..];
    assert s[p] !in multiset(back) by {
      forall m | 0 <= m < |back| ensures back[m] != s[p] {
        assert back[m] == s[p + 1 + m];
      }
    }
  }

  /** Reordering keeps a one-to-one sequence one-to-one. */
  lemma OneToOnePermutation(a: seq<Item<Pair>>, b: seq<Item<Pair>>)
    requires OneToOne(a) && multiset(a) == multiset(b)
    ensures OneToOne(b)
  {
    forall i, j | 0 <= i < j < |b|
      ensures b[i].value.candColIndex != b[j].value.candColIndex && b[i].value.queryColIndex != b[j].value.queryColIndex
    {
      assert b[i] in multiset(a) && b[j] in multiset(a);
      var p :| 0 <= p < |a| && a[p] == b[i];
      var q :| 0 <= q < |a| && a[q] == b[j];
      if p == q {
        TwoPositions(b, i, j);
        OnePosition(a, p);
        assert false;
      }
    }
  }

  /** every accepted pair belongs to table t and sits in the queue with the
      priority its kind of search gives it */
  predicate QueuedFor(s: seq<Item<Pair>>, t: string, kind: Kind)
  {
    forall i :: 0 <= i < |s| ==> s[i].value.candTableID == t && s[i].priority == TablePriority(s[i].value, kind)
  }

  /** pairs in non-increasing order of their table priority */
  predicate SortedByPriority(ps: seq<Pair>, kind: Kind)
  {
    forall i, j :: 0 <= i < j < |ps| ==> TablePriority(ps[i], kind) >= TablePriority(ps[j], kind)
  }

  /** some accepted pair has the candidate or the query column of pair */
  predicate SharesColumn(s: seq<Item<Pair>>, pair: Pair)
  {
    exists i :: 0 <= i < |s| && (s[i].value.candColIndex == pair.candColIndex || s[i].value.queryColIndex == pair.queryColIndex)
  }

  /** Counter membership of the columns is column sharing. */
  lemma SeenBetterMeansShared(s: seq<Item<Pair>>, pair: Pair)
    ensures (pair.candColIndex in CandKeys(s) || pair.queryColIndex in QueryKeys(s)) <==> SharesColumn(s, pair)
  {
    if SharesColumn(s, pair) {
      var i :| 0 <= i < |s| && (s[i].value.candColIndex == pair.candColIndex || s[i].value.queryColIndex == pair.queryColIndex);
      assert s[i].value.candColIndex in CandKeys(s);
      assert s[i].value.queryColIndex in QueryKeys(s);
    }
  }

  /** one candidate table's entries in `partialAlign`, `reverseAlign` and
      `tableQueues` (the three maps always share their keys, so the model
      keeps one map of triples) */
  datatype TableAlign = TableAlign(partial: set<int>, reverse: set<int>, queue: seq<Item<Pair>>)

  /** a table's entries against the pairs it accepted: the counters hold
      their columns, the queue holds them until `get` drains it, and the
      table is completed exactly when there are k of them */
  ghost predicate TableState(t: string, ta: TableAlign, acc: seq<Item<Pair>>, done: bool, k: int, kind: Kind)
  {
    |acc| <= k && (done <==> |acc| == k) &&
    (!done ==> ta.queue == acc) && (done ==> ta.queue == [] || ta.queue == acc) &&
    Greedy(acc) && QueuedFor(acc, t, kind) &&
    ta.partial == CandKeys(acc) && ta.reverse == QueryKeys(acc)
  }

  ghost predicate TablesState(completed: set<string>, tables: map<string, TableAlign>,
                              accepted: map<string, seq<Item<Pair>>>, k: int, kind: Kind)
  {
    k >= 1 && completed <= tables.Keys && accepted.Keys == tables.Keys &&
    forall t {:trigger tables[t]} :: t in tables ==> TableState(t, tables[t], accepted[t], t in completed, k, kind)
  }

  /** what a result says about its table: k pairs, one-to-one, all of the
      table, in descending priority, and a reordering of its accepted
      pairs; `i` is its position on the channel */
  ghost predicate ResultOf(r: SearchResult, items: seq<Item<Pair>>, i: nat,
                           accepted: map<string, seq<Item<Pair>>>, k: int, kind: Kind)
  {
    r.candidateTableID in accepted && r.k == k && r.n == i + 1 &&
    r.alignment == Values(items) && |items| == k && SortedDesc(items) &&
    multiset(items) == multiset(accepted[r.candidateTableID]) &&
    OneToOne(items) && QueuedFor(items, r.candidateTableID, kind) && SortedByPriority(r.alignment, kind)
  }

  /** one result per completed table, in completion order, the i-th with
      N = i + 1 */
  ghost predicate ResultsState(completed: set<string>, accepted: map<string, seq<Item<Pair>>>,
                               results: seq<SearchResult>, emitted: seq<seq<Item<Pair>>>, k: int, kind: Kind)
  {
    |results| == |completed| && |emitted| == |results| &&
    (forall i :: 0 <= i < |results| ==> results[i].candidateTableID in completed) &&
    (forall i {:trigger ResultOf(results[i], emitted[i], i, accepted, k, kind)} :: 0 <= i < |results| ==> ResultOf(results[i], emitted[i], i, accepted, k, kind)) &&
    (forall i, j :: 0 <= i < j < |results| ==> results[i].candidateTableID != results[j].candidateTableID)
  }

  /** every accepted pair is one of `source` */
  ghost predicate AcceptedFrom(accepted: map<string, seq<Item<Pair>>>, source: seq<Pair>)
  {
    forall t, i :: t in accepted && 0 <= i < |accepted[t]| ==> accepted[t][i].value in source
  }

  /** Adding an empty entry for a new table keeps the state. */
  lemma InitKeeps(completed: set<string>, tables: map<string, TableAlign>, accepted: map<string, seq<Item<Pair>>>,
                  results: seq<SearchResult>, emitted: seq<seq<Item<Pair>>>, k: int, kind: Kind, t: string)
    requires TablesState(completed, tables, accepted, k, kind) && t !in tables
    requires ResultsState(completed, accepted, results, emitted, k, kind)
    ensures TablesState(completed, tables[t := TableAlign({}, {}, [])], accepted[t := []], k, kind)
    ensures ResultsState(completed, accepted[t := []], results, emitted, k, kind)
  {
    var tables', accepted' := tables[t := TableAlign({}, {}, [])], accepted[t := []];
    forall u | u in tables' ensures TableState(u, tables'[u], accepted'[u], u in completed, k, kind) {
      if u == t {
        assert CandKeys([]) == {} && QueryKeys([]) == {};
      } else {
        assert tables'[u] == tables[u] && accepted'[u] == accepted[u];
      }
    }
    forall i | 0 <= i < |results| ensures ResultOf(results[i], emitted[i], i, accepted', k, kind) {
      assert ResultOf(results[i], emitted[i], i, accepted, k, kind);
      assert results[i].candidateTableID in completed;
      assert accepted'[results[i].candidateTableID] == accepted[results[i].candidateTableID];
    }
  }

  /** Accepting a pair of an uncompleted table whose columns are both
      unused keeps every table's state. */
  lemma AcceptKeepsTables(completed: set<string>, tables: map<string, TableAlign>, accepted: map<string, seq<Item<Pair>>>,
                          k: int, kind: Kind, pair: Pair, acc: seq<Item<Pair>>, ta: TableAlign)
    requires TablesState(completed, tables, accepted, k, kind)
    requires pair.candTableID in tables && pair.candTableID !in completed
    requires pair.candColIndex !in tables[pair.candTableID].partial && pair.queryColIndex !in tables[pair.candTableID].reverse
    requires acc == accepted[pair.candTableID] + [Item(pair, TablePriority(pair, kind))]
    requires ta == TableAlign(tables[pair.candTableID].partial + {pair.candColIndex}, tables[pair.candTableID].reverse + {pair.queryColIndex},
                              tables[pair.candTableID].queue + [Item(pair, TablePriority(pair, kind))])
    ensures ta.queue == acc && |acc| <= k && Greedy(acc) && QueuedFor(acc, pair.candTableID, kind)
    ensures |acc| == k ==> TablesState(completed + {pair.candTableID}, tables[pair.candTableID := ta], accepted[pair.candTableID := acc], k, kind)
    ensures |acc| < k ==> TablesState(completed, tables[pair.candTableID := ta], accepted[pair.candTableID := acc], k, kind)
  {
    var t := pair.candTableID;
    var it := Item(pair, TablePriority(pair, kind));
    var tables', accepted' := tables[t := ta], accepted[t := acc];
    var completed' := if |acc| == k then completed + {t} else completed;
    assert TableState(t, tables[t], accepted[t], false, k, kind);
    KeysAppend(accepted[t], it);
    assert acc[..|acc| - 1] == accepted[t];
    forall u | u in tables' ensures TableState(u, tables'[u], accepted'[u], u in completed', k, kind) {
      if u != t {
        assert tables'[u] == tables[u] && accepted'[u] == accepted[u];
        assert (u in completed') == (u in completed);
      } else {
        assert QueuedFor(acc, t, kind) by {
          forall i | 0 <= i < |acc| ensures acc[i].value.candTableID == t && acc[i].priority == TablePriority(acc[i].value, kind) {
            if i < |acc| - 1 {
              assert acc[i] == accepted[t][i];
            }
          }
        }
      }
    }
  }

  /** Changing the accepted pairs of a table without a result keeps the
      results. */
  lemma ResultsKeepOthers(completed: set<string>, accepted: map<string, seq<Item<Pair>>>,
                          results: seq<SearchResult>, emitted: seq<seq<Item<Pair>>>, k: int, kind: Kind,
                          t: string, acc: seq<Item<Pair>>)
    requires ResultsState(completed, accepted, results, emitted, k, kind) && t !in completed
    ensures ResultsState(completed, accepted[t := acc], results, emitted, k, kind)
  {
    forall i | 0 <= i < |results| ensures ResultOf(results[i], emitted[i], i, accepted[t := acc], k, kind) {
      assert ResultOf(results[i], emitted[i], i, accepted, k, kind);
      assert results[i].candidateTableID in completed;
      assert accepted[t := acc][results[i].candidateTableID] == accepted[results[i].candidateTableID];
    }
  }

  /** Emitting the result of a newly completed table, read in descending
      order from its drained queue, keeps the results. */
  lemma EmitKeepsResults(completed: set<string>, accepted: map<string, seq<Item<Pair>>>,
                         results: seq<SearchResult>, emitted: seq<seq<Item<Pair>>>, k: int, kind: Kind,
                         t: string, items: seq<Item<Pair>>)
    requires ResultsState(completed, accepted, results, emitted, k, kind) && t !in completed
    requires t in accepted && |accepted[t]| == k && Greedy(accepted[t]) && QueuedFor(accepted[t], t, kind)
    requires SortedDesc(items) && multiset(items) == multiset(accepted[t])
    ensures ResultsState(completed + {t}, accepted, results + [SearchResult(t, Values(items), k, |completed| + 1)],
                         emitted + [items], k, kind)
  {
    var r := SearchResult(t, Values(items), k, |completed| + 1);
    EmittedIsResult(accepted[t], items, t, |results|, accepted, k, kind);
    var results', emitted' := results + [r], emitted + [items];
    forall i | 0 <= i < |results'| ensures ResultOf(results'[i], emitted'[i], i, accepted, k, kind) {
      if i < |results| {
        assert results'[i] == results[i] && emitted'[i] == emitted[i];
      }
    }
    forall i, j | 0 <= i < j < |results'| ensures results'[i].candidateTableID != results'[j].candidateTableID {
      if j == |results| {
        assert results'[i] == results[i];
        assert results[i].candidateTableID in completed;
      } else {
        assert results'[i] == results[i] && results'[j] == results[j];
      }
    }
  }

  /** The drained queue of a completed table, read in descending order,
      is a result for it. */
  lemma EmittedIsResult(acc: seq<Item<Pair>>, items: seq<Item<Pair>>, t: string, i: nat,
                        accepted: map<string, seq<Item<Pair>>>, k: int, kind: Kind)
    requires t in accepted && accepted[t] == acc && |acc| == k && Greedy(acc) && QueuedFor(acc, t, kind)
    requires SortedDesc(items) && multiset(items) == multiset(acc)
    ensures ResultOf(SearchResult(t, Values(items), k, i + 1), items, i, accepted, k, kind)
  {
    assert |items| == k by {
      assert |multiset(items)| == |multiset(acc)|;
    }
    GreedyIsOneToOne(acc);
    OneToOnePermutation(acc, items);
    forall m | 0 <= m < |items| ensures items[m].value.candTableID == t && items[m].priority == TablePriority(items[m].value, kind) {
      assert items[m] in multiset(acc);
      var p :| 0 <= p < |acc| && acc[p] == items[m];
    }
    var ps := Values(items);
    forall a, b | 0 <= a < b < |ps| ensures TablePriority(ps[a], kind) >= TablePriority(ps[b], kind) {
      assert ps[a] == items[a].value && ps[b] == items[b].value;
    }
  }

  /** A reordering of pairs drawn from `source` draws from `source`. */
  lemma ReorderedFrom(a: seq<Item<Pair>>, b: seq<Item<Pair>>, source: seq<Pair>)
    requires multiset(a) == multiset(b)
    requires forall i :: 0 <= i < |a| ==> a[i].value in source
    ensures forall i :: 0 <= i < |b| ==> b[i].value in source
  {
    forall i | 0 <= i < |b| ensures b[i].value in source {
      assert b[i] in multiset(a);
      var j :| 0 <= j < |a| && a[j] == b[i];
    }
  }

  lemma AcceptedFromInit(accepted: map<string, seq<Item<Pair>>>, t: string, source: seq<Pair>)
    requires AcceptedFrom(accepted, source)
    ensures AcceptedFrom(accepted[t := []], source)
  {
  }

  lemma AcceptedFromAppend(accepted: map<string, seq<Item<Pair>>>, t: string, it: Item<Pair>, source: seq<Pair>)
    requires AcceptedFrom(accepted, source) && t in accepted && it.value in source
    ensures AcceptedFrom(accepted[t := accepted[t] + [it]], source)
  {
    var accepted': map<string, seq<Item<Pair>>> := accepted[t := accepted[t] + [it]];
    forall u: string, m: int | u in accepted' && 0 <= m < |accepted'[u]| ensures accepted'[u][m].value in source {
      if u != t || m < |accepted[t]| {
        assert accepted'[u][m] == accepted[u][m];
      }
    }
  }

  lemma PrefixChain<T>(r0: seq<T>, r1: seq<T>, r2: seq<T>)
    requires |r0| <= |r1| <= |r2| && r1[..|r0|] == r0 && r2[..|r1|] == r1
    ensures r2[..|r0|] == r0
  {
    assert r2[..|r0|] == r2[..|r1|][..|r0|];
  }

  /** what the alignment state decides, as values: the pairs each table
      accepted, the completed tables and the order in which they were
      completed (the tables of the results sent so far) */
  datatype Progress = Progress(accepted: map<string, seq<Item<Pair>>>, completed: set<string>, finished: seq<string>)

  /** the pairs table t accepted (none before its first pair) */
  function AcceptedOf(accepted: map<string, seq<Item<Pair>>>, t: string): seq<Item<Pair>>
  {
    if t in accepted then accepted[t] else []
  }

  /** `processPairs*` keeps a pair exactly when its table is not completed
      and neither of its columns is used by a pair the table accepted */
  predicate Accepts(s: Progress, pair: Pair)
  {
    pair.candTableID !in s.completed && !SharesColumn(AcceptedOf(s.accepted, pair.candTableID), pair)
  }

  /** one pair of `processPairs*`: a table seen for the first time gets an
      empty entry; a kept pair is appended to its table's pairs, and the
      table is completed (and its result sent) when it has k of them */
  function Step(s: Progress, pair: Pair, k: int, kind: Kind): Progress
  {
    var t := pair.candTableID;
    var acc := AcceptedOf(s.accepted, t);
    if !Accepts(s, pair) then s.(accepted := s.accepted[t := acc])
    else
      var acc' := acc + [Item(pair, TablePriority(pair, kind))];
      if |acc'| == k then Progress(s.accepted[t := acc'], s.completed + {t}, s.finished + [t])
      else s.(accepted := s.accepted[t := acc'])
  }

  /** `processPairs*` over the batch in the order it is read: one `Step`
      per pair, stopping right after a kept pair brings the number of
      completed tables to n */
  function Drain(s: Progress, order: seq<Item<Pair>>, k: int, n: int, kind: Kind): Progress
    decreases |order|
  {
    if order == [] then s
    else
      var s' := Step(s, order[0].value, k, kind);
      if Accepts(s, order[0].value) && |s'.completed| == n then s' else Drain(s', order[1..], k, n, kind)
  }

  lemma DrainAt(s: Progress, order: seq<Item<Pair>>, i: nat, k: int, n: int, kind: Kind)
    requires i < |order|
    ensures Drain(s, order[i..], k, n, kind) ==
      var s' := Step(s, order[i].value, k, kind);
      if Accepts(s, order[i].value) && |s'.completed| == n then s' else Drain(s', order[i + 1..], k, n, kind)
  {
    assert order[i..][1..] == order[i + 1..];
  }

  /** the batches one after the other, each read in its order */
  function DrainBatches(s: Progress, orders: seq<seq<Item<Pair>>>, k: int, n: int, kind: Kind): Progress
  {
    if orders == [] then s
    else Drain(DrainBatches(s, orders[..|orders| - 1], k, n, kind), orders[|orders| - 1], k, n, kind)
  }

  /** what the stream's pairs from one point on put into the batch while
      the completed tables are `completed`: those of other tables that pass
      the filter, with their batch priority, in stream order */
  function BatchItems(seg: seq<Pair>, completed: set<string>, kind: Kind): seq<Item<Pair>>
  {
    if seg == [] then []
    else
      var e := seg[|seg| - 1];
      BatchItems(seg[..|seg| - 1], completed, kind) +
      if e.candTableID !in completed && Admits(e, kind) then [Item(e, BatchPriority(e, kind))] else []
  }

  lemma StepSkipped(s: Progress, pair: Pair, k: int, kind: Kind)
    requires !Accepts(s, pair)
    ensures Step(s, pair, k, kind) == Progress(s.accepted[pair.candTableID := AcceptedOf(s.accepted, pair.candTableID)], s.completed, s.finished)
  {
  }

  lemma StepTaken(s: Progress, pair: Pair, k: int, kind: Kind,
                  accepted: map<string, seq<Item<Pair>>>, completed: set<string>, finished: seq<string>)
    requires Accepts(s, pair)
    requires accepted == s.accepted[pair.candTableID := AcceptedOf(s.accepted, pair.candTableID)][pair.candTableID :=
      AcceptedOf(s.accepted, pair.candTableID) + [Item(pair, TablePriority(pair, kind))]]
    requires completed == if |accepted[pair.candTableID]| == k then s.completed + {pair.candTableID} else s.completed
    requires finished == s.finished + if |accepted[pair.candTableID]| == k then [pair.candTableID] else []
    ensures Step(s, pair, k, kind) == Progress(accepted, completed, finished)
  {
    var t := pair.candTableID;
    assert accepted == s.accepted[t := AcceptedOf(s.accepted, t) + [Item(pair, TablePriority(pair, kind))]];
    if |accepted[t]| != k {
      assert finished == s.finished;
    }
  }

  /** the tables of the results, in the order they were sent */
  function TableIDs(results: seq<SearchResult>): (r: seq<string>)
    ensures |r| == |results| && forall i :: 0 <= i < |results| ==> r[i] == results[i].candidateTableID
  {
    seq(|results|, i requires 0 <= i < |results| => results[i].candidateTableID)
  }

  lemma TableIDsSnoc(r0: seq<SearchResult>, r1: seq<SearchResult>, t: string)
    requires |r1| == |r0| + 1 && r1[..|r0|] == r0 && r1[|r0|].candidateTableID == t
    ensures TableIDs(r1) == TableIDs(r0) + [t]
  {
    assert forall i :: 0 <= i < |r0| ==> r1[i] == r0[i];
  }

  class Alignment {
    /** `completedTables` (only `Has` and `Unique` are used, so a set) */
    var completed: set<string>
    /** `partialAlign`, `reverseAlign` and `tableQueues`, by table */
    var tables: map<string, TableAlign>
    const k: int
    const n: int
    /** what has been sent on the result channel */
    var results: seq<SearchResult>

    /** which `processPairs*` this alignment is used with */
    ghost const kind: Kind
    /** the pairs each table has accepted (its queue's pushes) */
    ghost var accepted: map<string, seq<Item<Pair>>>
    /** the queue items each emitted alignment was read from */
    ghost var emitted: seq<seq<Item<Pair>>>

    ghost predicate TablesValid()
      reads this
    {
      TablesState(completed, tables, accepted, k, kind)
    }

    ghost predicate Valid()
      reads this
    {
      TablesValid() && ResultsState(completed, accepted, results, emitted, k, kind)
    }

    /** the state as values */
    ghost function Current(): Progress
      reads this
    {
      Progress(accepted, completed, TableIDs(results))
    }

    /** `initAlignment(K, N)` */
    constructor (k: int, n: int, ghost kind: Kind)
      requires k >= 1
      ensures Valid()
      ensures this.k == k && this.n == n && this.kind == kind
      ensures completed == {} && tables == map[] && results == [] && accepted == map[]
    {
      this.k := k;
      this.n := n;
      this.kind := kind;
      completed := {};
      tables := map[];
      results := [];
      accepted := map[];
      emitted := [];
    }

    /** `hasCompleted` */
    function HasCompleted(tableID: string): (b: bool)
      reads this
      ensures b <==> tableID in completed
    {
      tableID in completed
    }

    /** `hasPartialTable` */
    function HasPartialTable(tableID: string): (b: bool)
      reads this
      ensures b <==> tableID in tables
    {
      tableID in tables
    }

    /** `hasSeenBetter`: false for a table with no partial state, true for
        every pair of a completed table, and otherwise true exactly when
        the pair shares its candidate or its query column with a pair the
        table already accepted. */
    function HasSeenBetter(pair: Pair): (b: bool)
      reads this
      requires TablesValid()
      ensures pair.candTableID !in tables ==> !b
      ensures pair.candTableID in completed ==> b
      ensures pair.candTableID in tables && pair.candTableID !in completed ==>
        (b <==> SharesColumn(accepted[pair.candTableID], pair))
    {
      var t := pair.candTableID;
      if !HasPartialTable(t) then false
      else if HasCompleted(t) then true
      else
        SeenBetterMeansShared(accepted[t], pair);
        pair.candColIndex in tables[t].partial || pair.queryColIndex in tables[t].reverse
    }

    /** `get`: panics unless the table is completed; otherwise drains that
        table's queue and returns its pairs in descending priority. */
    method Get(tableID: string) returns (r: Outcome<seq<Pair>>, ghost items: seq<Item<Pair>>)
      requires TablesValid()
      modifies this
      ensures TablesValid()
      ensures completed == old(completed) && accepted == old(accepted) && results == old(results) && emitted == old(emitted)
      ensures r.Panic? <==> tableID !in completed
      ensures r.Panic? ==> tables == old(tables)
      ensures r.Value? ==> r.value == Values(items) && SortedDesc(items)
      ensures r.Value? ==> multiset(items) == multiset(old(tables[tableID].queue))
      ensures r.Value? ==> tables == old(tables)[tableID := old(tables[tableID]).(queue := [])]
    {
      if !HasCompleted(tableID) {
        return Panic("This table has not been completed"), [];
      }
      var ps := DescendingOrder(tables[tableID].queue);
      items := ps;
      var tables' := tables[tableID := tables[tableID].(queue := [])];
      forall u | u in tables' ensures TableState(u, tables'[u], accepted[u], u in completed, k, kind) {
        if u != tableID {
          assert tables'[u] == tables[u];
        } else {
          assert TableState(u, tables[u], accepted[u], true, k, kind);
        }
      }
      tables := tables';
      r := Value(Values(ps));
    }

    /** the new-table branch of `processPairs*`: empty counters and an
        empty queue for the table */
    method InitTable(t: string)
      requires Valid() && t !in tables
      modifies this
      ensures Valid()
      ensures tables == old(tables)[t := TableAlign({}, {}, [])] && accepted == old(accepted)[t := []]
      ensures completed == old(completed) && results == old(results)
    {
      InitKeeps(completed, tables, accepted, results, emitted, k, kind, t);
      tables := tables[t := TableAlign({}, {}, [])];
      accepted := accepted[t := []];
    }

    /** Accepts a pair that `hasSeenBetter` let through: records its two
        columns, pushes it into its table's queue (which has room, as the
        table is not complete) and, when that queue reaches k pairs,
        completes the table and emits its result with N = the number of
        completed tables. */
    method Accept(pair: Pair, kd: Kind)
      requires Valid() && kd == kind
      requires pair.candTableID in tables && !HasSeenBetter(pair)
      modifies this
      ensures Valid()
      ensures accepted == old(accepted)[pair.candTableID := old(accepted[pair.candTableID]) + [Item(pair, TablePriority(pair, kd))]]
      ensures completed == if |accepted[pair.candTableID]| == k then old(completed) + {pair.candTableID} else old(completed)
      ensures |completed| <= |old(completed)| + 1
      ensures |results| >= |old(results)| && results[..|old(results)|] == old(results)
      ensures TableIDs(results) == TableIDs(old(results)) + if |accepted[pair.candTableID]| == k then [pair.candTableID] else []
    {
      ghost var before, r0 := completed, results;
      var t := pair.candTableID;
      assert TableState(t, tables[t], accepted[t], false, k, kind);
      if |tables[t].queue| + 1 == k {
        Record(pair, kd, true);
        Emit(t, before);
        TableIDsSnoc(r0, results, t);
      } else {
        Record(pair, kd, false);
        assert results[..|results|] == results;
        assert TableIDs(results) + [] == TableIDs(results);
      }
    }

    /** the state changes of accepting a pair, up to the result the
        completing branch sends; full says whether the table's queue
        reaches k pairs */
    method Record(pair: Pair, kd: Kind, full: bool)
      requires Valid() && kd == kind
      requires pair.candTableID in tables && !HasSeenBetter(pair)
      requires full <==> |accepted[pair.candTableID]| + 1 == k
      modifies this
      ensures TablesValid() && results == old(results) && emitted == old(emitted)
      ensures accepted == old(accepted)[pair.candTableID := old(accepted[pair.candTableID]) + [Item(pair, TablePriority(pair, kd))]]
      ensures ResultsState(old(completed), accepted, results, emitted, k, kind)
      ensures full ==> pair.candTableID in tables && tables[pair.candTableID].queue == accepted[pair.candTableID]
      ensures full ==> completed == old(completed) + {pair.candTableID} && pair.candTableID !in old(completed)
      ensures !full ==> completed == old(completed)
    {
      var t := pair.candTableID;
      var it := Item(pair, TablePriority(pair, kd));
      var ta := tables[t];
      assert t !in completed && pair.candColIndex !in ta.partial && pair.queryColIndex !in ta.reverse;
      var ta' := TableAlign(ta.partial + {pair.candColIndex}, ta.reverse + {pair.queryColIndex}, ta.queue + [it]);
      ghost var acc := accepted[t] + [it];
      var completed' := if full then completed + {t} else completed;
      assert ta'.queue == acc && TablesState(completed', tables[t := ta'], accepted[t := acc], k, kind) &&
        ResultsState(completed, accepted[t := acc], results, emitted, k, kind) by {
        AcceptKeepsTables(completed, tables, accepted, k, kind, pair, acc, ta');
        ResultsKeepOthers(completed, accepted, results, emitted, k, kind, t, acc);
      }
      tables := tables[t := ta'];
      accepted := accepted[t := acc];
      completed := completed';
    }

    /** the completing branch of `processPairs*`: sends the result of the
        table just completed, its pairs read from `get`, with N = the
        number of completed tables */
    method Emit(t: string, ghost before: set<string>)
      requires TablesValid() && t in tables && tables[t].queue == accepted[t] && completed == before + {t} && t !in before
      requires ResultsState(before, accepted, results, emitted, k, kind)
      modifies this
      ensures Valid()
      ensures completed == old(completed) && accepted == old(accepted)
      ensures |results| == |old(results)| + 1 && results[..|old(results)|] == old(results)
      ensures results[|old(results)|].candidateTableID == t
    {
      assert TableState(t, tables[t], accepted[t], true, k, kind);
      var al, items := Get(t);
      EmitKeepsResults(before, accepted, results, emitted, k, kind, t, items);
      assert al.value == Values(items) && |completed| == |before| + 1;
      results := results + [SearchResult(t, al.value, k, |completed|)];
      emitted := emitted + [items];
    }

    /** the body of the loop of `processPairs*` for one pair: creates the
        table's state if new, then keeps the pair unless `hasSeenBetter`;
        the new state is `Step` of the old one */
    method ProcessOne(pair: Pair, kd: Kind, ghost source: seq<Pair>) returns (taken: bool)
      requires Valid() && kd == kind && AcceptedFrom(accepted, source) && pair in source
      modifies this
      ensures Valid() && AcceptedFrom(accepted, source)
      ensures taken <==> Accepts(old(Current()), pair)
      ensures Current() == Step(old(Current()), pair, k, kind)
      ensures |completed| <= old(|completed|) + 1
      ensures |results| >= old(|results|) && results[..old(|results|)] == old(results)
    {
      ghost var s := Current();
      var t := pair.candTableID;
      if !HasPartialTable(t) {
        AcceptedFromInit(accepted, t, source);
        InitTable(t);
      } else {
        assert accepted == accepted[t := accepted[t]];
      }
      ghost var acc := AcceptedOf(s.accepted, t);
      assert accepted == s.accepted[t := acc] && completed == s.completed && TableIDs(results) == s.finished;
      taken := !HasSeenBetter(pair);
      if taken {
        AcceptedFromAppend(accepted, t, Item(pair, TablePriority(pair, kd)), source);
        Accept(pair, kd);
        StepTaken(s, pair, k, kind, accepted, completed, TableIDs(results));
      } else {
        assert results[..|results|] == results;
        StepSkipped(s, pair, k, kind);
      }
    }

    /** `processPairsEmbedding` / `processPairsSyntactic`: drains the batch
        in descending order of batch priority and, pair by pair, creates the
        table's state if new, skips the pair if `hasSeenBetter`, and accepts
        it otherwise; returns true as soon as n tables are completed, and
        otherwise whether n are completed at the end. */
    method ProcessPairs(pairQueue: TopKQueue<Pair>, kd: Kind, ghost source: seq<Pair>)
      returns (done: bool, ghost order: seq<Item<Pair>>)
      requires Valid() && kd == kind && pairQueue.Valid()
      requires AcceptedFrom(accepted, source)
      requires forall i :: 0 <= i < |pairQueue.items| ==> pairQueue.items[i].value in source
      modifies this, pairQueue`items
      ensures Valid() && pairQueue.Valid() && pairQueue.items == []
      ensures multiset(order) == multiset(old(pairQueue.items)) && SortedDesc(order)
      ensures done <==> |completed| == n
      ensures old(|completed|) < n ==> |completed| <= n
      ensures |results| >= old(|results|) && results[..old(|results|)] == old(results)
      ensures AcceptedFrom(accepted, source)
      ensures Current() == Drain(old(Current()), order, k, n, kind)
    {
      var pairs := pairQueue.Descending();
      order := pairs;
      ReorderedFrom(old(pairQueue.items), pairs, source);
      ghost var ps, start := pairs, Current();
      var i := 0;
      while i < |pairs|
        invariant 0 <= i <= |pairs| && Valid() && pairQueue.Valid() && pairQueue.items == []
        invariant old(|completed|) < n ==> |completed| < n
        invariant |results| >= old(|results|) && results[..old(|results|)] == old(results)
        invariant AcceptedFrom(accepted, source)
        invariant Drain(Current(), ps[i..], k, n, kind) == Drain(start, ps, k, n, kind)
      {
        var pair := pairs[i].value;
        ghost var r0, s0 := results, Current();
        DrainAt(s0, ps, i, k, n, kind);
        var taken := ProcessOne(pair, kd, source);
        PrefixChain(old(results), r0, results);
        if taken && |completed| == n {
          return true, order;
        }
        i := i + 1;
      }
      done := |completed| == n;
    }
  }

  /** no candidate column and no query column occurs in two pairs */
  predicate ColumnsOneToOne(ps: seq<Pair>)
  {
    forall i, j :: 0 <= i < j < |ps| ==> ps[i].candColIndex != ps[j].candColIndex && ps[i].queryColIndex != ps[j].queryColIndex
  }

  /** what each emitted result promises: the i-th has N = i + 1 and k
      pairs of its own table, drawn from `stream`, one-to-one on both
      sides and in non-increasing order of the table priority */
  predicate ResultShape(r: SearchResult, i: int, k: int, kind: Kind, stream: seq<Pair>)
  {
    r.n == i + 1 && r.k == k && |r.alignment| == k &&
    ColumnsOneToOne(r.alignment) && SortedByPriority(r.alignment, kind) &&
    forall j :: 0 <= j < |r.alignment| ==> r.alignment[j].candTableID == r.candidateTableID && r.alignment[j] in stream
  }

  predicate ResultsShape(results: seq<SearchResult>, k: int, kind: Kind, stream: seq<Pair>)
  {
    (forall i :: 0 <= i < |results| ==> ResultShape(results[i], i, k, kind, stream)) &&
    (forall i, j :: 0 <= i < j < |results| ==> results[i].candidateTableID != results[j].candidateTableID)
  }

  /** The alignment state promises the shape of every result it emitted. */
  lemma StateResults(completed: set<string>, accepted: map<string, seq<Item<Pair>>>,
                     results: seq<SearchResult>, emitted: seq<seq<Item<Pair>>>, k: int, kind: Kind, stream: seq<Pair>)
    requires ResultsState(completed, accepted, results, emitted, k, kind) && AcceptedFrom(accepted, stream)
    ensures ResultsShape(results, k, kind, stream)
  {
    forall i | 0 <= i < |results| ensures ResultShape(results[i], i, k, kind, stream) {
      var r, items := results[i], emitted[i];
      assert ResultOf(r, items, i, accepted, k, kind);
      var acc := accepted[r.candidateTableID];
      forall a, b | 0 <= a < b < |r.alignment|
        ensures r.alignment[a].candColIndex != r.alignment[b].candColIndex && r.alignment[a].queryColIndex != r.alignment[b].queryColIndex
      {
        assert r.alignment[a] == items[a].value && r.alignment[b] == items[b].value;
      }
      forall j | 0 <= j < |r.alignment| ensures r.alignment[j].candTableID == r.candidateTableID && r.alignment[j] in stream {
        assert r.alignment[j] == items[j].value;
        assert items[j] in multiset(acc);
        var p :| 0 <= p < |acc| && acc[p] == items[j];
      }
    }
  }

  /** every batch holds between 1 and `batchSize` admitted pairs of the
      stream, each with its batch priority, and every batch but the last
      is full */
  predicate BatchesShape(batches: seq<seq<Item<Pair>>>, kind: Kind, stream: seq<Pair>)
  {
    (forall b :: 0 <= b < |batches| ==> 0 < |batches[b]| <= BatchSize) &&
    (forall b :: 0 <= b < |batches| - 1 ==> |batches[b]| == BatchSize) &&
    (forall b :: 0 <= b < |batches| ==> Admitted(batches[b], kind, stream))
  }

  /** each item is an admitted pair of the stream with its batch priority */
  predicate Admitted(items: seq<Item<Pair>>, kind: Kind, stream: seq<Pair>)
  {
    forall j :: 0 <= j < |items| ==>
      items[j].value in stream && Admits(items[j].value, kind) && items[j].priority == BatchPriority(items[j].value, kind)
  }

  /** Appending a batch to a sequence of full batches keeps the shape. */
  lemma BatchesAppend(batches: seq<seq<Item<Pair>>>, b: seq<Item<Pair>>, kind: Kind, stream: seq<Pair>)
    requires BatchesShape(batches, kind, stream) && forall c :: 0 <= c < |batches| ==> |batches[c]| == BatchSize
    requires 0 < |b| <= BatchSize && Admitted(b, kind, stream)
    ensures BatchesShape(batches + [b], kind, stream)
    ensures |b| == BatchSize ==> forall c :: 0 <= c < |batches + [b]| ==> |(batches + [b])[c]| == BatchSize
  {
    var bs := batches + [b];
    assert forall c :: 0 <= c < |batches| ==> bs[c] == batches[c];
    assert bs[|batches|] == b;
  }

  /** no progress: `initAlignment` */
  const Start := Progress(map[], {}, [])

  /** the batches cut the stream into consecutive segments, from the start,
      batch b being what segment b puts into the batch while the tables
      completed by the batches before b are completed; each batch is read in
      its order, a descending reordering of it */
  ghost predicate Batched(stream: seq<Pair>, batches: seq<seq<Item<Pair>>>, orders: seq<seq<Item<Pair>>>, ends: seq<nat>,
                          k: int, n: int, kind: Kind)
  {
    |orders| == |batches| && |ends| == |batches| + 1 && ends[0] == 0 &&
    (forall b :: 0 <= b <= |batches| ==> ends[b] <= |stream|) &&
    (forall b :: 0 <= b < |batches| ==> ends[b] <= ends[b + 1]) &&
    (forall b :: 0 <= b < |batches| ==> multiset(orders[b]) == multiset(batches[b]) && SortedDesc(orders[b])) &&
    forall b :: 0 <= b < |batches| ==>
      batches[b] == BatchItems(stream[ends[b]..ends[b + 1]], DrainBatches(Start, orders[..b], k, n, kind).completed, kind)
  }

  lemma BatchedStart(stream: seq<Pair>, k: int, n: int, kind: Kind)
    ensures Batched(stream, [], [], [0], k, n, kind)
  {
  }

  /** One more batch, ending at j and read in `order`, keeps the cut. */
  lemma BatchedAppend(stream: seq<Pair>, batches: seq<seq<Item<Pair>>>, orders: seq<seq<Item<Pair>>>, ends: seq<nat>,
                      k: int, n: int, kind: Kind, j: nat, b: seq<Item<Pair>>, order: seq<Item<Pair>>)
    requires Batched(stream, batches, orders, ends, k, n, kind)
    requires ends[|batches|] <= j <= |stream|
    requires b == BatchItems(stream[ends[|batches|]..j], DrainBatches(Start, orders, k, n, kind).completed, kind)
    requires multiset(order) == multiset(b) && SortedDesc(order)
    ensures Batched(stream, batches + [b], orders + [order], ends + [j], k, n, kind)
    ensures DrainBatches(Start, orders + [order], k, n, kind) == Drain(DrainBatches(Start, orders, k, n, kind), order, k, n, kind)
  {
    var bs, os, es := batches + [b], orders + [order], ends + [j];
    assert os[..|os| - 1] == orders;
    forall c | 0 <= c <= |bs|
      ensures es[c] <= |stream| && (c < |bs| ==> es[c] <= es[c + 1])
    {
      if c < |batches| {
        assert es[c] == ends[c] && es[c + 1] == ends[c + 1];
      } else if c == |batches| {
        assert es[c] == ends[c] && es[c + 1] == j;
      }
    }
    forall c | 0 <= c < |bs|
      ensures multiset(os[c]) == multiset(bs[c]) && SortedDesc(os[c])
    {
      if c < |batches| {
        assert os[c] == orders[c] && bs[c] == batches[c];
      }
    }
    forall c | 0 <= c < |bs|
      ensures bs[c] == BatchItems(stream[es[c]..es[c + 1]], DrainBatches(Start, os[..c], k, n, kind).completed, kind)
    {
      assert os[..c] == orders[..c];
      if c < |batches| {
        assert bs[c] == batches[c] && es[c] == ends[c] && es[c + 1] == ends[c + 1];
      } else {
        assert orders[..c] == orders;
        assert es[c] == ends[|batches|] && es[c + 1] == j;
      }
    }
  }

  /** One more pair of the stream adds at most its own item to the batch. */
  lemma BatchItemsSnoc(stream: seq<Pair>, lo: nat, i: nat, completed: set<string>, kind: Kind)
    requires lo <= i < |stream|
    ensures BatchItems(stream[lo..i + 1], completed, kind) == BatchItems(stream[lo..i], completed, kind) +
      if stream[i].candTableID !in completed && Admits(stream[i], kind) then [Item(stream[i], BatchPriority(stream[i], kind))] else []
  {
    assert stream[lo..i + 1][..i - lo] == stream[lo..i];
  }

  /** the alignment's part of the state of `QueryOrderAll`: the progress
      of the batches processed so far, fewer than n tables completed */
  ghost predicate AlignState(a: Alignment, stream: seq<Pair>, orders: seq<seq<Item<Pair>>>, n: int, k: int, kind: Kind)
    reads a
  {
    a.Valid() && a.k == k && a.n == n && a.kind == kind && AcceptedFrom(a.accepted, stream) &&
    (n >= 1 ==> |a.completed| < n) &&
    a.Current() == DrainBatches(Start, orders, k, n, kind)
  }

  /** the batch's part of the state of `QueryOrderAll` before the stream's
      pair i: the full batches processed so far and what the pairs since
      the last of them put into the batch */
  ghost predicate BatchState(batch: TopKQueue<Pair>, stream: seq<Pair>, i: nat, batches: seq<seq<Item<Pair>>>,
                             orders: seq<seq<Item<Pair>>>, ends: seq<nat>, completed: set<string>, n: int, k: int, kind: Kind)
    reads batch
  {
    i <= |stream| &&
    batch.Valid() && batch.k == BatchSize && |batch.items| < BatchSize && Admitted(batch.items, kind, stream) &&
    BatchesShape(batches, kind, stream) && (forall b :: 0 <= b < |batches| ==> |batches[b]| == BatchSize) &&
    Batched(stream, batches, orders, ends, k, n, kind) && ends[|batches|] <= i &&
    batch.items == BatchItems(stream[ends[|batches|]..i], completed, kind)
  }

  lemma AdmittedSnoc(items: seq<Item<Pair>>, e: Pair, kind: Kind, stream: seq<Pair>)
    requires Admitted(items, kind, stream) && e in stream && Admits(e, kind)
    ensures Admitted(items + [Item(e, BatchPriority(e, kind))], kind, stream)
  {
    var items' := items + [Item(e, BatchPriority(e, kind))];
    assert forall j :: 0 <= j < |items| ==> items'[j] == items[j];
  }

  /** the first half of the body of the loop of `QueryOrderAll`: a pair of
      a completed table is dropped, one that passes the filter enters the
      batch */
  method QueryFeed(a: Alignment, batch: TopKQueue<Pair>, stream: seq<Pair>, i: nat, n: int, k: int, kind: Kind,
                   ghost batches: seq<seq<Item<Pair>>>, ghost orders: seq<seq<Item<Pair>>>, ghost ends: seq<nat>)
    returns (dropped: bool)
    requires i < |stream| && BatchState(batch, stream, i, batches, orders, ends, a.completed, n, k, kind)
    modifies batch
    ensures dropped <==> stream[i].candTableID in a.completed
    ensures dropped ==> |batch.items| < BatchSize
    ensures batch.Valid() && batch.k == BatchSize && Admitted(batch.items, kind, stream)
    ensures batch.items == BatchItems(stream[ends[|batches|]..i + 1], a.completed, kind)
    ensures |batch.items| < BatchSize ==> BatchState(batch, stream, i + 1, batches, orders, ends, a.completed, n, k, kind)
  {
    var e := stream[i];
    BatchItemsSnoc(stream, ends[|batches|], i, a.completed, kind);
    dropped := a.HasCompleted(e.candTableID);
    if !dropped && Admits(e, kind) {
      AdmittedSnoc(batch.items, e, kind, stream);
      batch.Push(e, BatchPriority(e, kind));
    }
  }

  /** the body of the loop of `QueryOrderAll` for the stream's pair i: after
      `QueryFeed`, a full batch is processed, and finished says that
      processing it completed n tables */
  method QueryStep(a: Alignment, batch: TopKQueue<Pair>, stream: seq<Pair>, i: nat, n: int, k: int, kind: Kind,
                   ghost batches: seq<seq<Item<Pair>>>, ghost orders: seq<seq<Item<Pair>>>, ghost ends: seq<nat>)
    returns (finished: bool, ghost batches': seq<seq<Item<Pair>>>, ghost orders': seq<seq<Item<Pair>>>, ghost ends': seq<nat>)
    requires i < |stream| && AlignState(a, stream, orders, n, k, kind)
    requires BatchState(batch, stream, i, batches, orders, ends, a.completed, n, k, kind)
    modifies a, batch
    ensures !finished ==> AlignState(a, stream, orders', n, k, kind)
    ensures !finished ==> BatchState(batch, stream, i + 1, batches', orders', ends', a.completed, n, k, kind)
    ensures finished ==> (a.Valid() && a.k == k && a.kind == kind && AcceptedFrom(a.accepted, stream) && |a.completed| == n &&
      BatchesShape(batches', kind, stream) && Batched(stream, batches', orders', ends', k, n, kind) &&
      a.Current() == DrainBatches(Start, orders', k, n, kind))
  {
    batches', orders', ends' := batches, orders, ends;
    var dropped := QueryFeed(a, batch, stream, i, n, k, kind, batches, orders, ends);
    finished := false;
    if !dropped && batch.Size() >= BatchSize {
      finished, batches', orders', ends' := QueryBatch(a, batch, stream, i + 1, n, k, kind, batches, orders, ends);
    } else {
      assert |batch.items| < BatchSize;
    }
  }

  /** a full batch, ending before the stream's pair j, is processed */
  method QueryBatch(a: Alignment, batch: TopKQueue<Pair>, stream: seq<Pair>, j: nat, n: int, k: int, kind: Kind,
                    ghost batches: seq<seq<Item<Pair>>>, ghost orders: seq<seq<Item<Pair>>>, ghost ends: seq<nat>)
    returns (finished: bool, ghost batches': seq<seq<Item<Pair>>>, ghost orders': seq<seq<Item<Pair>>>, ghost ends': seq<nat>)
    requires AlignState(a, stream, orders, n, k, kind)
    requires batch.Valid() && batch.k == BatchSize && |batch.items| == BatchSize && Admitted(batch.items, kind, stream)
    requires BatchesShape(batches, kind, stream) && (forall b :: 0 <= b < |batches| ==> |batches[b]| == BatchSize)
    requires Batched(stream, batches, orders, ends, k, n, kind) && ends[|batches|] <= j <= |stream|
    requires batch.items == BatchItems(stream[ends[|batches|]..j], a.completed, kind)
    modifies a, batch`items
    ensures !finished ==> AlignState(a, stream, orders', n, k, kind)
    ensures !finished ==> BatchState(batch, stream, j, batches', orders', ends', a.completed, n, k, kind)
    ensures finished ==> (a.Valid() && a.k == k && a.kind == kind && AcceptedFrom(a.accepted, stream) && |a.completed| == n &&
      BatchesShape(batches', kind, stream) && Batched(stream, batches', orders', ends', k, n, kind) &&
      a.Current() == DrainBatches(Start, orders', k, n, kind))
  {
    ghost var b, s0 := batch.items, a.Current();
    BatchesAppend(batches, b, kind, stream);
    batches' := batches + [b];
    ghost var order;
    finished, order := a.ProcessPairs(batch, kind, stream);
    BatchedAppend(stream, batches, orders, ends, k, n, kind, j, b, order);
    orders', ends' := orders + [order], ends + [j];
    if !finished {
      BatchStateEmpty(batch, stream, j, batches', orders', ends', a.completed, n, k, kind);
    }
  }

  /** A batch emptied right after the batch ending before pair j. */
  lemma BatchStateEmpty(batch: TopKQueue<Pair>, stream: seq<Pair>, j: nat, batches: seq<seq<Item<Pair>>>,
                        orders: seq<seq<Item<Pair>>>, ends: seq<nat>, completed: set<string>, n: int, k: int, kind: Kind)
    requires batch.Valid() && batch.k == BatchSize && batch.items == []
    requires BatchesShape(batches, kind, stream) && (forall b :: 0 <= b < |batches| ==> |batches[b]| == BatchSize)
    requires Batched(stream, batches, orders, ends, k, n, kind) && ends[|batches|] == j <= |stream|
    ensures BatchState(batch, stream, j, batches, orders, ends, completed, n, k, kind)
  {
    assert stream[j..j] == [];
  }

  /** the remainder of the batch, if any, processed after the stream ends */
  method QueryRest(a: Alignment, batch: TopKQueue<Pair>, stream: seq<Pair>, n: int, k: int, kind: Kind,
                   ghost batches: seq<seq<Item<Pair>>>, ghost orders: seq<seq<Item<Pair>>>, ghost ends: seq<nat>)
    returns (ghost batches': seq<seq<Item<Pair>>>, ghost orders': seq<seq<Item<Pair>>>, ghost ends': seq<nat>)
    requires AlignState(a, stream, orders, n, k, kind)
    requires BatchState(batch, stream, |stream|, batches, orders, ends, a.completed, n, k, kind)
    modifies a, batch`items
    ensures a.Valid() && a.k == k && a.kind == kind && AcceptedFrom(a.accepted, stream) && (n >= 1 ==> |a.completed| <= n)
    ensures BatchesShape(batches', kind, stream) && Batched(stream, batches', orders', ends', k, n, kind)
    ensures a.Current() == DrainBatches(Start, orders', k, n, kind)
    ensures BatchItems(stream[ends'[|batches'|]..], a.completed, kind) == []
  {
    batches', orders', ends' := batches, orders, ends;
    if batch.Size() > 0 {
      batches', orders', ends' := QueryLast(a, batch, stream, n, k, kind, batches, orders, ends);
    } else {
      assert stream[ends[|batches|]..] == stream[ends[|batches|]..|stream|];
    }
  }

  /** the remaining pairs of the last batch, processed once the stream ends */
  method QueryLast(a: Alignment, batch: TopKQueue<Pair>, stream: seq<Pair>, n: int, k: int, kind: Kind,
                   ghost batches: seq<seq<Item<Pair>>>, ghost orders: seq<seq<Item<Pair>>>, ghost ends: seq<nat>)
    returns (ghost batches': seq<seq<Item<Pair>>>, ghost orders': seq<seq<Item<Pair>>>, ghost ends': seq<nat>)
    requires AlignState(a, stream, orders, n, k, kind)
    requires BatchState(batch, stream, |stream|, batches, orders, ends, a.completed, n, k, kind) && |batch.items| > 0
    modifies a, batch`items
    ensures a.Valid() && a.k == k && a.kind == kind && AcceptedFrom(a.accepted, stream) && (n >= 1 ==> |a.completed| <= n)
    ensures BatchesShape(batches', kind, stream) && Batched(stream, batches', orders', ends', k, n, kind)
    ensures a.Current() == DrainBatches(Start, orders', k, n, kind)
    ensures BatchItems(stream[ends'[|batches'|]..], a.completed, kind) == []
  {
    ghost var b, last: nat := batch.items, |stream|;
    BatchesAppend(batches, b, kind, stream);
    ghost var order;
    var finished;
    finished, order := a.ProcessPairs(batch, kind, stream);
    BatchedAppend(stream, batches, orders, ends, k, n, kind, last, b, order);
    batches', orders', ends' := batches + [b], orders + [order], ends + [last];
    assert stream[last..] == [];
  }

  /** what `QueryOrderAll` returns, against the stream: the batches cut it
      as `Batched` says; the results are those of `Drain` over the batches
      in their reading order, one per completed table in completion order;
      and the stream is read to its end unless n tables are completed */
  ghost predicate Answered(stream: seq<Pair>, results: seq<SearchResult>, batches: seq<seq<Item<Pair>>>,
                           orders: seq<seq<Item<Pair>>>, ends: seq<nat>, emitted: seq<seq<Item<Pair>>>, k: int, n: int, kind: Kind)
  {
    Batched(stream, batches, orders, ends, k, n, kind) &&
    var p := DrainBatches(Start, orders, k, n, kind);
    TableIDs(results) == p.finished && ResultsState(p.completed, p.accepted, results, emitted, k, kind) &&
    (|p.completed| == n || BatchItems(stream[ends[|batches|]..], p.completed, kind) == [])
  }

  lemma AnsweredBy(stream: seq<Pair>, completed: set<string>, accepted: map<string, seq<Item<Pair>>>,
                   results: seq<SearchResult>, batches: seq<seq<Item<Pair>>>, orders: seq<seq<Item<Pair>>>,
                   ends: seq<nat>, emitted: seq<seq<Item<Pair>>>, k: int, n: int, kind: Kind)
    requires Batched(stream, batches, orders, ends, k, n, kind) && ResultsState(completed, accepted, results, emitted, k, kind)
    requires Progress(accepted, completed, TableIDs(results)) == DrainBatches(Start, orders, k, n, kind)
    requires |completed| == n || BatchItems(stream[ends[|batches|]..], completed, kind) == []
    ensures Answered(stream, results, batches, orders, ends, emitted, k, n, kind)
  {
  }

  /** `QueryOrderAll` of the embedding index (kind Embedding) and of the
      minhash index (kind Syntactic), with the pairs the LSH query yields
      given as `stream`: pairs of completed tables are dropped, the rest
      pass the filter into a batch of `batchSize`, each full batch is
      processed at once and the remainder once at the end; the results are
      those sent on the channel, as `Answered` pins them down. */
  method QueryOrderAll(stream: seq<Pair>, n: int, k: int, kind: Kind)
    returns (results: seq<SearchResult>, ghost batches: seq<seq<Item<Pair>>>, ghost orders: seq<seq<Item<Pair>>>,
             ghost ends: seq<nat>, ghost emitted: seq<seq<Item<Pair>>>)
    requires k >= 1
    ensures ResultsShape(results, k, kind, stream)
    ensures n >= 1 ==> |results| <= n
    ensures BatchesShape(batches, kind, stream)
    ensures Answered(stream, results, batches, orders, ends, emitted, k, n, kind)
  {
    var a := new Alignment(k, n, kind);
    var batch := new TopKQueue<Pair>(BatchSize);
    BatchedStart(stream, k, n, kind);
    assert a.Current() == Start;
    var finished;
    finished, batches, orders, ends := QueryLoop(a, batch, stream, n, k, kind);
    if !finished {
      batches, orders, ends := QueryRest(a, batch, stream, n, k, kind, batches, orders, ends);
    }
    results, emitted := a.results, a.emitted;
    StateResults(a.completed, a.accepted, results, emitted, k, kind, stream);
    AnsweredBy(stream, a.completed, a.accepted, results, batches, orders, ends, emitted, k, n, kind);
  }

  /** the loop of `QueryOrderAll` over the stream, from a new alignment and
      an empty batch; finished says that a batch completed n tables */
  method QueryLoop(a: Alignment, batch: TopKQueue<Pair>, stream: seq<Pair>, n: int, k: int, kind: Kind)
    returns (finished: bool, ghost batches: seq<seq<Item<Pair>>>, ghost orders: seq<seq<Item<Pair>>>, ghost ends: seq<nat>)
    requires AlignState(a, stream, [], n, k, kind) && BatchState(batch, stream, 0, [], [], [0], a.completed, n, k, kind)
    modifies a, batch
    ensures !finished ==> AlignState(a, stream, orders, n, k, kind)
    ensures !finished ==> BatchState(batch, stream, |stream|, batches, orders, ends, a.completed, n, k, kind)
    ensures finished ==> (a.Valid() && a.k == k && a.kind == kind && AcceptedFrom(a.accepted, stream) && |a.completed| == n &&
      BatchesShape(batches, kind, stream) && Batched(stream, batches, orders, ends, k, n, kind) &&
      a.Current() == DrainBatches(Start, orders, k, n, kind))
  {
    batches, orders, ends := [], [], [0];
    var i := 0;
    finished := false;
    while i < |stream|
      invariant 0 <= i <= |stream|
      invariant AlignState(a, stream, orders, n, k, kind)
      invariant BatchState(batch, stream, i, batches, orders, ends, a.completed, n, k, kind)
    {
      finished, batches, orders, ends := QueryStep(a, batch, stream, i, n, k, kind, batches, orders, ends);
      if finished {
        return;
      }
      i := i + 1;
    }
  }
}
