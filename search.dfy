/** search/search.go: the in-memory embedding index of web tables. A
    column's embedding sums the vectors of the space-separated parts of its
    distinct transformed values; `TopK` ranks the stored entries by their
    dot product with a query vector. (`add`, `vecToBytes` and `bytesToVec`
    are the same code as in embedding/embedding.go and are modelled there.) */
module Search {
  import opened Wrappers
  import opened Seqs
  import opened GoStrings
  import opened Embedding
  import opened TopK
  import Unionability

  /** `mkDomain`: the set of transformed values */
  method MkDomain(values: seq<string>, trans: string -> string) returns (domain: set<string>)
    ensures forall w :: w in domain <==> exists i :: 0 <= i < |values| && trans(values[i]) == w
    ensures |domain| <= |values|
  {
    domain := {};
    var i := 0;
    while i < |values|
      invariant 0 <= i <= |values|
      invariant forall w :: w in domain <==> exists j :: 0 <= j < i && trans(values[j]) == w
      invariant |domain| <= i
    {
      domain := domain + {trans(values[i])};
      i := i + 1;
    }
  }

  /** f applied to each element, the results concatenated */
  function FlatMap<T, U>(f: T -> seq<U>, s: seq<T>): seq<U>
  {
    if s == [] then [] else FlatMap(f, s[..|s| - 1]) + f(s[|s| - 1])
  }

  lemma {:induction false} FlatMapAppend<T, U>(f: T -> seq<U>, a: seq<T>, b: seq<T>)
    ensures FlatMap(f, a + b) == FlatMap(f, a) + FlatMap(f, b)
  {
    if b == [] {
      assert a + b == a;
    } else {
      assert (a + b)[..|a + b| - 1] == a + b[..|b| - 1];
      FlatMapAppend(f, a, b[..|b| - 1]);
    }
  }

  /** Permuting the input permutes the output. */
  lemma {:induction false} FlatMapPermutation<T, U>(f: T -> seq<U>, a: seq<T>, b: seq<T>)
    requires multiset(a) == multiset(b)
    ensures multiset(FlatMap(f, a)) == multiset(FlatMap(f, b))
  {
    if a != [] {
      var x := a[|a| - 1];
      var init := a[..|a| - 1];
      assert a == init + [x];
      assert x in multiset(b);
      var j :| 0 <= j < |b| && b[j] == x;
      var left, right := b[..j], b[j + 1..];
      assert b == left + [x] + right;
      assert multiset(init) == multiset(left + right) by {
        assert multiset(a) == multiset(init) + multiset{x};
        assert multiset(b) == multiset(left + right) + multiset{x} by {
          assert multiset(b) == multiset(left) + multiset{x} + multiset(right);
        }
        MultisetCancel(multiset(init), multiset(left + right), x);
      }
      FlatMapPermutation(f, init, left + right);
      FlatMapAppend(f, left, right);
      FlatMapAppend(f, left + [x], right);
      FlatMapAppend(f, left, [x]);
      assert [x][..0] == [];
      var fl, fr := FlatMap(f, left), FlatMap(f, right);
      assert FlatMap(f, b) == fl + f(x) + fr;
      assert multiset(FlatMap(f, a)) == multiset(fl + fr) + multiset(f(x));
    }
  }

  /** the vectors found for the space-separated parts of each word, word by
      word */
  function FoundParts(words: seq<string>, emb: map<string, Vec>): (r: seq<Vec>)
    ensures forall dim :: StoreDim(emb, dim) ==> Dimensioned(r, dim)
  {
    if words == [] then []
    else FoundParts(words[..|words| - 1], emb) + Found(Split(words[|words| - 1], ' '), emb)
  }

  lemma {:induction false} FoundPartsIsFlatMap(words: seq<string>, emb: map<string, Vec>)
    ensures FoundParts(words, emb) == FlatMap(w => Found(Split(w, ' '), emb), words)
  {
    if words != [] {
      FoundPartsIsFlatMap(words[..|words| - 1], emb);
    }
  }

  lemma FoundPartsStep(words: seq<string>, w: string, emb: map<string, Vec>)
    ensures FoundParts(words + [w], emb) == FoundParts(words, emb) + Found(Split(w, ' '), emb)
  {
    assert (words + [w])[..|words|] == words;
  }

  /** Two duplicate-free sequences with the same elements are permutations
      of each other. */
  lemma SameElements<T>(a: seq<T>, b: seq<T>)
    requires Unionability.NoDuplicates(a) && Unionability.NoDuplicates(b)
    requires forall x :: x in a <==> x in b
    ensures multiset(a) == multiset(b)
  {
    Unionability.NoDuplicatesCount(a);
    Unionability.NoDuplicatesCount(b);
    forall x ensures multiset(a)[x] == multiset(b)[x] {
      if x in a {
        assert x in multiset(a) && x in multiset(b);
      } else {
        assert x !in multiset(a) && x !in multiset(b);
      }
    }
  }

  /** the words of the domain in the order one iteration visited them */
  ghost predicate Enumerates(order: seq<string>, values: seq<string>, trans: string -> string)
  {
    Unionability.NoDuplicates(order) &&
    forall w :: w in order <==> exists i :: 0 <= i < |values| && trans(values[i]) == w
  }

  /** what `GetEmb` returns when the domain is visited in the given order */
  function EmbOf(order: seq<string>, emb: map<string, Vec>, dim: nat): Result<Vec>
    requires StoreDim(emb, dim)
  {
    var found := FoundParts(order, emb);
    if found == [] then Err(ErrNoEmbFound) else Ok(Total(found, dim))
  }

  /** The embedding of a column does not depend on the order in which its
      domain, a Go map, is visited. */
  lemma GetEmbOrderFree(o1: seq<string>, o2: seq<string>, values: seq<string>, trans: string -> string, emb: map<string, Vec>, dim: nat)
    requires StoreDim(emb, dim)
    requires Enumerates(o1, values, trans) && Enumerates(o2, values, trans)
    ensures EmbOf(o1, emb, dim) == EmbOf(o2, emb, dim)
  {
    SameElements(o1, o2);
    FoundPartsIsFlatMap(o1, emb);
    FoundPartsIsFlatMap(o2, emb);
    FlatMapPermutation(w => Found(Split(w, ' '), emb), o1, o2);
    var f1, f2 := FoundParts(o1, emb), FoundParts(o2, emb);
    if f1 != [] {
      TotalPermutation(f1, f2, dim);
    } else {
      assert |multiset(f2)| == 0;
    }
  }

  /** the inner loop of `GetEmb`: the vectors of one word's parts added to
      vec, which holds the sum of acc */
  method AddParts(emb: map<string, Vec>, dim: nat, parts: seq<string>, have: bool, vec: array<real>, ghost acc: seq<Vec>)
    returns (have': bool, vec': array<real>)
    requires StoreDim(emb, dim) && Dimensioned(acc, dim)
    requires have <==> acc != []
    requires have ==> vec[..] == Total(acc, dim)
    modifies vec
    ensures vec' == vec || fresh(vec')
    ensures Dimensioned(acc + Found(parts, emb), dim)
    ensures have' <==> acc + Found(parts, emb) != []
    ensures have' ==> vec'[..] == Total(acc + Found(parts, emb), dim)
  {
    have', vec' := have, vec;
    ghost var sofar := acc;
    var j := 0;
    while j < |parts|
      invariant 0 <= j <= |parts|
      invariant vec' == vec || fresh(vec')
      invariant sofar == acc + Found(parts[..j], emb) && Dimensioned(sofar, dim)
      invariant have' <==> sofar != []
      invariant have' ==> vec'[..] == Total(sofar, dim)
    {
      var p := parts[j];
      FoundStep(acc, parts, j, emb);
      if p in emb {
        var e := Fetch(emb[p]);
        TotalSnoc(sofar, emb[p], dim);
        if !have' {
          vec' := e;
          have' := true;
        } else {
          var panicked := Add(vec', e);
          assert !panicked;
        }
        sofar := sofar + [emb[p]];
      }
      j := j + 1;
    }
    assert parts[..j] == parts;
  }

  /** one more part looked up in the store */
  lemma FoundStep(acc: seq<Vec>, parts: seq<string>, j: nat, emb: map<string, Vec>)
    requires j < |parts|
    ensures acc + Found(parts[..j + 1], emb) == acc + Found(parts[..j], emb) + if parts[j] in emb then [emb[parts[j]]] else []
  {
    assert parts[..j + 1][..j] == parts[..j];
  }

  /** `GetEmb`: the sum of the vectors of every part of every distinct
      transformed value, or ErrNoEmbFound when no part has one; `order` is
      the order in which the domain was visited, which does not matter
      (`GetEmbOrderFree`). */
  method GetEmb(emb: map<string, Vec>, dim: nat, trans: string -> string, column: seq<string>)
    returns (r: Result<Vec>, ghost order: seq<string>)
    requires StoreDim(emb, dim)
    ensures Enumerates(order, column, trans)
    ensures r == EmbOf(order, emb, dim)
    ensures r.Err? <==> NoneFound(order, emb)
  {
    var domain := MkDomain(column, trans);
    var vec := new real[0];
    var have := false;
    var rest := domain;
    order := [];
    while rest != {}
      invariant rest <= domain
      invariant fresh(vec)
      invariant Unionability.NoDuplicates(order)
      invariant forall w :: w in order <==> w in domain && w !in rest
      invariant have <==> FoundParts(order, emb) != []
      invariant have ==> vec[..] == Total(FoundParts(order, emb), dim)
      decreases |rest|
    {
      var w :| w in rest;
      var wordparts := Split(w, ' ');
      FoundPartsStep(order, w, emb);
      have, vec := AddParts(emb, dim, wordparts, have, vec, FoundParts(order, emb));
      order := order + [w];
      rest := rest - {w};
    }
    NoPartFound(order, emb);
    if !have {
      return Err(ErrNoEmbFound), order;
    }
    return Ok(vec[..]), order;
  }

  lemma {:induction false} NoPartFound(words: seq<string>, emb: map<string, Vec>)
    ensures FoundParts(words, emb) == [] <==> NoneFound(words, emb)
  {
    if words != [] {
      var init, last := words[..|words| - 1], words[|words| - 1];
      NoPartFound(init, emb);
      FoundEmpty(Split(last, ' '), emb);
      NoneFoundSnoc(init, last, Split(last, ' '), emb);
      assert words == init + [last];
    }
  }

  /** no part of any of the words has a vector */
  ghost predicate NoneFound(words: seq<string>, emb: map<string, Vec>)
  {
    forall w, p :: w in words && p in Split(w, ' ') ==> p !in emb
  }

  lemma NoneFoundSnoc(init: seq<string>, last: string, parts: seq<string>, emb: map<string, Vec>)
    requires parts == Split(last, ' ')
    ensures NoneFound(init + [last], emb) <==>
      NoneFound(init, emb) && forall j :: 0 <= j < |parts| ==> parts[j] !in emb
  {
    if NoneFound(init, emb) && forall j :: 0 <= j < |parts| ==> parts[j] !in emb {
      forall w, p | w in init + [last] && p in Split(w, ' ') ensures p !in emb {
        if w != last {
          assert w in init;
        } else {
          var j :| 0 <= j < |parts| && parts[j] == p;
        }
      }
      assert NoneFound(init + [last], emb);
    }
    if NoneFound(init + [last], emb) {
      forall j | 0 <= j < |parts| ensures parts[j] !in emb {
        assert last in init + [last] && parts[j] in parts;
      }
      forall w, p | w in init && p in Split(w, ' ') ensures p !in emb {
        assert w in init + [last];
      }
      assert NoneFound(init, emb);
    }
  }

  /** the dot product, accumulated from the first component */
  function Dot(x: Vec, y: Vec): real
    requires |x| == |y|
  {
    if x == [] then 0.0 else Dot(x[..|x| - 1], y[..|y| - 1]) + x[|x| - 1] * y[|y| - 1]
  }

  lemma {:induction false} DotSymmetric(x: Vec, y: Vec)
    requires |x| == |y|
    ensures Dot(x, y) == Dot(y, x)
  {
    if x != [] {
      DotSymmetric(x[..|x| - 1], y[..|y| - 1]);
    }
  }

  /** The dot product distributes over the sum of vectors, so a query's
      score against a column embedding is the sum of its scores against the
      parts' vectors. */
  lemma {:induction false} DotAdd(x: Vec, y: Vec, z: Vec)
    requires |x| == |y| == |z|
    ensures Dot(x, VecAdd(y, z)) == Dot(x, y) + Dot(x, z)
  {
    if x != [] {
      var n := |x| - 1;
      assert VecAdd(y, z)[..n] == VecAdd(y[..n], z[..n]);
      DotAdd(x[..n], y[..n], z[..n]);
    }
  }

  /** `dotProduct`: panics on a length mismatch */
  method DotProduct(x: Vec, y: Vec) returns (r: Outcome<real>)
    ensures r.Panic? <==> |x| != |y|
    ensures |x| == |y| ==> r == Value(Dot(x, y))
  {
    if |x| != |y| {
      return Panic("Length of vectors not equal");
    }
    var p := 0.0;
    var i := 0;
    while i < |x|
      invariant 0 <= i <= |x|
      invariant p == Dot(x[..i], y[..i])
    {
      assert x[..i + 1][..i] == x[..i] && y[..i + 1][..i] == y[..i];
      p := p + x[i] * y[i];
      i := i + 1;
    }
    assert x[..i] == x && y[..i] == y;
    return Value(p);
  }

  datatype EmbEntry = EmbEntry(tableID: int, columnIndex: int, vec: Vec)

  /** the queue items `TopK` pushes: each entry with its score */
  function Scored(entries: seq<EmbEntry>, query: Vec): (r: seq<Item<EmbEntry>>)
    requires forall e :: e in entries ==> |e.vec| == |query|
    ensures |r| == |entries|
    ensures forall i :: 0 <= i < |r| ==> r[i] == Item(entries[i], Dot(query, entries[i].vec))
  {
    if entries == [] then []
    else Scored(entries[..|entries| - 1], query) + [Item(entries[|entries| - 1], Dot(query, entries[|entries| - 1].vec))]
  }

  function Values<T>(items: seq<Item<T>>): (r: seq<T>)
    ensures |r| == |items| && forall i :: 0 <= i < |r| ==> r[i] == items[i].value
  {
    if items == [] then [] else Values(items[..|items| - 1]) + [items[|items| - 1].value]
  }

  lemma {:induction false} ValuesAppend<T>(a: seq<Item<T>>, b: seq<Item<T>>)
    ensures Values(a + b) == Values(a) + Values(b)
  {
    assert Values(a + b) == Values(a) + Values(b) by {
      assert |Values(a + b)| == |Values(a) + Values(b)|;
      forall i | 0 <= i < |a + b| ensures Values(a + b)[i] == (Values(a) + Values(b))[i] {
        if i < |a| { assert (a + b)[i] == a[i]; } else { assert (a + b)[i] == b[i - |a|]; }
      }
    }
  }

  lemma {:induction false} ValuesPermutation<T>(a: seq<Item<T>>, b: seq<Item<T>>)
    requires multiset(a) == multiset(b)
    ensures multiset(Values(a)) == multiset(Values(b))
  {
    if a != [] {
      var x := a[|a| - 1];
      var init := a[..|a| - 1];
      assert x in multiset(b);
      var j :| 0 <= j < |b| && b[j] == x;
      var left, right := b[..j], b[j + 1..];
      RemoveBoth(a, b, j);
      ValuesPermutation(init, left + right);
      ValuesMove(init, left, right, x);
      SplitLast(a);
      SplitAt(b, j);
    }
  }

  /** An item put back last on one side and between left and right on the
      other keeps the two lists of values permutations of each other. */
  lemma ValuesMove<T>(init: seq<Item<T>>, left: seq<Item<T>>, right: seq<Item<T>>, x: Item<T>)
    requires multiset(Values(init)) == multiset(Values(left + right))
    ensures multiset(Values(init + [x])) == multiset(Values(left + [x] + right))
  {
    ValuesSnoc(init, x);
    ValuesMiddle(left, x, right);
  }

  lemma ValuesSnoc<T>(s: seq<Item<T>>, x: Item<T>)
    ensures multiset(Values(s + [x])) == multiset(Values(s)) + multiset{x.value}
  {
    ValuesAppend(s, [x]);
    assert Values([x]) == [x.value];
  }

  lemma ValuesMiddle<T>(left: seq<Item<T>>, x: Item<T>, right: seq<Item<T>>)
    ensures multiset(Values(left + [x] + right)) == multiset(Values(left + right)) + multiset{x.value}
  {
    var vl, vr := Values(left), Values(right);
    ValuesAppend(left, [x]);
    ValuesAppend(left + [x], right);
    assert Values([x]) == [x.value];
    assert Values(left + [x] + right) == vl + [x.value] + vr;
    ValuesAppend(left, right);
    assert multiset(vl + [x.value] + vr) == multiset(vl) + multiset(vr) + multiset{x.value};
  }

  /** the pushing loop of `TopK`; panicked says that `dotProduct` panicked
      on an entry whose vector is not as long as the query */
  method PushEntries(queue: TopKQueue<EmbEntry>, entries: seq<EmbEntry>, query: Vec) returns (panicked: bool)
    requires queue.Valid() && queue.HoldsTopK() && queue.pushed == []
    modifies queue
    ensures panicked <==> exists e :: e in entries && |e.vec| != |query|
    ensures !panicked ==> queue.Valid() && queue.HoldsTopK() && queue.pushed == Scored(entries, query)
  {
    var i := 0;
    while i < |entries|
      invariant 0 <= i <= |entries|
      invariant forall e :: e in entries[..i] ==> |e.vec| == |query|
      invariant queue.Valid() && queue.HoldsTopK()
      invariant queue.pushed == Scored(entries[..i], query)
    {
      var score := DotProduct(query, entries[i].vec);
      if score.Panic? {
        assert entries[i] in entries;
        return true;
      }
      ScoredSnoc(entries, query, i);
      queue.Push(entries[i], score.value);
      i := i + 1;
    }
    assert entries[..i] == entries;
    panicked := false;
  }

  lemma ScoredSnoc(entries: seq<EmbEntry>, query: Vec, i: nat)
    requires i < |entries|
    requires (forall e :: e in entries[..i] ==> |e.vec| == |query|) && |entries[i].vec| == |query|
    ensures forall e :: e in entries[..i + 1] ==> |e.vec| == |query|
    ensures Scored(entries[..i + 1], query) == Scored(entries[..i], query) + [Item(entries[i], Dot(query, entries[i].vec))]
  {
    assert entries[..i + 1] == entries[..i] + [entries[i]];
  }

  /** the popping loop of `TopK`: `result` is filled from the end with the
      smallest remaining item each time */
  method PopAll(queue: TopKQueue<EmbEntry>) returns (result: seq<EmbEntry>, ghost ranked: seq<Item<EmbEntry>>)
    requires queue.Valid()
    modifies queue`items
    ensures queue.Valid()
    ensures multiset(ranked) == multiset(old(queue.items)) && SortedDesc(ranked)
    ensures result == Values(ranked)
  {
    var size := queue.Size();
    var out := new EmbEntry[size](_ => EmbEntry(0, 0, []));
    ranked := [];
    ghost var start := queue.items;
    var i := size;
    while i > 0
      invariant 0 <= i <= size == out.Length
      invariant queue.Valid() && |queue.items| == i
      invariant Filled(out, i, ranked)
      invariant Ranked(ranked, queue.items, start)
    {
      i := i - 1;
      var p := PopRanked(queue, out, i, ranked, start);
      ranked := [p] + ranked;
    }
    result := out[..];
    assert result == Values(ranked);
  }

  /** the cells from i on hold the values of the ranked items, in order */
  ghost predicate Filled(out: array<EmbEntry>, i: nat, ranked: seq<Item<EmbEntry>>)
    reads out
  {
    i + |ranked| == out.Length && forall k :: i <= k < out.Length ==> out[k] == ranked[k - i].value
  }

  /** one step of the loop of `TopK`, keeping its invariant */
  method PopRanked(queue: TopKQueue<EmbEntry>, out: array<EmbEntry>, i: nat, ghost ranked: seq<Item<EmbEntry>>, ghost start: seq<Item<EmbEntry>>)
    returns (p: Item<EmbEntry>)
    requires queue.Valid() && |queue.items| == i + 1
    requires Filled(out, i + 1, ranked) && Ranked(ranked, queue.items, start)
    modifies queue`items, out
    ensures queue.Valid() && |queue.items| == i
    ensures Filled(out, i, [p] + ranked) && Ranked([p] + ranked, queue.items, start)
  {
    ghost var before := queue.items;
    p := PopInto(queue, out, i);
    PopStep(before, p, queue.items, ranked, start);
  }

  /** one step of the loop of `TopK`: an item of smallest priority popped
      into cell i of the result */
  method PopInto(queue: TopKQueue<EmbEntry>, out: array<EmbEntry>, i: nat) returns (p: Item<EmbEntry>)
    requires queue.Valid() && |queue.items| > 0 && i < out.Length
    modifies queue`items, out
    ensures queue.Valid()
    ensures p in old(queue.items)
    ensures forall j :: 0 <= j < |old(queue.items)| ==> p.priority <= old(queue.items)[j].priority
    ensures multiset(queue.items) + multiset{p} == multiset(old(queue.items))
    ensures |queue.items| == |old(queue.items)| - 1
    ensures out[i] == p.value && forall j :: 0 <= j < out.Length && j != i ==> out[j] == old(out[j])
  {
    p := queue.Pop();
    out[i] := p.value;
  }

  /** the items popped so far, best first, and those left, make up the
      items of the start, and none left is below one popped */
  ghost predicate Ranked<T>(ranked: seq<Item<T>>, rest: seq<Item<T>>, start: seq<Item<T>>)
  {
    multiset(ranked) + multiset(rest) == multiset(start) && SortedDesc(ranked) &&
    forall r, y :: r in ranked && y in rest ==> y.priority >= r.priority
  }

  /** Popping the minimum p of before, leaving after, extends the ranked
      items at the front. */
  lemma PopStep<T>(before: seq<Item<T>>, p: Item<T>, after: seq<Item<T>>, ranked: seq<Item<T>>, start: seq<Item<T>>)
    requires p in before && multiset(after) + multiset{p} == multiset(before)
    requires forall i :: 0 <= i < |before| ==> p.priority <= before[i].priority
    requires Ranked(ranked, before, start)
    ensures Ranked([p] + ranked, after, start)
  {
    assert multiset([p] + ranked) == multiset{p} + multiset(ranked);
    forall y | y in after ensures y in before {
      assert y in multiset(before);
    }
    forall i, j | 0 <= i < j < |[p] + ranked| ensures ([p] + ranked)[i].priority >= ([p] + ranked)[j].priority {
      if i == 0 {
        assert ranked[j - 1] in ranked;
      } else {
        assert ([p] + ranked)[i] == ranked[i - 1] && ([p] + ranked)[j] == ranked[j - 1];
      }
    }
    forall r, y | r in [p] + ranked && y in after ensures y.priority >= r.priority {
      assert y in before;
      if r == p {
        var m :| 0 <= m < |before| && before[m] == y;
      }
    }
  }

  /** Every item in the queue was pushed with score Dot(query, vec). */
  ghost predicate ScoredItems(items: seq<Item<EmbEntry>>, query: Vec)
  {
    forall x :: x in items ==> |x.value.vec| == |query| && x.priority == Dot(query, x.value.vec)
  }

  /** the entries are of the query's dimension and in non-increasing order
      of their dot product with it */
  ghost predicate DotDescending(result: seq<EmbEntry>, query: Vec)
  {
    (forall i :: 0 <= i < |result| ==> |result[i].vec| == |query|) &&
    forall i, j :: 0 <= i < j < |result| ==> Dot(query, result[i].vec) >= Dot(query, result[j].vec)
  }

  /** every copy of an entry that `result` leaves out scores no higher than
      any entry `result` holds */
  ghost predicate NoneLeftOutHigher(entries: seq<EmbEntry>, result: seq<EmbEntry>, query: Vec)
  {
    forall e, r :: e in entries && r in result && multiset(result)[e] < multiset(entries)[e] ==>
      |e.vec| == |query| && |r.vec| == |query| && Dot(query, e.vec) <= Dot(query, r.vec)
  }

  /** `TopK`: at most k entries, in non-increasing dot-product order, taken
      from the index, with no entry left out scoring higher than one
      returned. */
  method TopKEntries(entries: seq<EmbEntry>, query: Vec, k: nat) returns (r: Outcome<seq<EmbEntry>>)
    requires k >= 1
    ensures r.Panic? <==> exists e :: e in entries && |e.vec| != |query|
    ensures r.Value? ==> forall x :: x in r.value ==> x in entries
    ensures r.Value? ==> |r.value| == (if |entries| < k then |entries| else k)
    ensures r.Value? ==> DotDescending(r.value, query)
    ensures r.Value? ==> multiset(r.value) <= multiset(entries)
    ensures r.Value? ==> NoneLeftOutHigher(entries, r.value, query)
  {
    var queue := new TopKQueue<EmbEntry>(k);
    var panicked := PushEntries(queue, entries, query);
    if panicked {
      return Panic("Length of vectors not equal");
    }
    ghost var kept, dropped := queue.items, queue.dropped;
    ghost var ranked: seq<Item<EmbEntry>>;
    var result;
    result, ranked := PopAll(queue);
    TopKResult(entries, query, k, kept, dropped, ranked);
    r := Value(result);
  }

  lemma TopKResult(entries: seq<EmbEntry>, query: Vec, k: nat, kept: seq<Item<EmbEntry>>, dropped: seq<Item<EmbEntry>>, ranked: seq<Item<EmbEntry>>)
    requires forall e :: e in entries ==> |e.vec| == |query|
    requires TopKState(kept, dropped, Scored(entries, query), k)
    requires multiset(ranked) == multiset(kept) && SortedDesc(ranked)
    ensures forall r :: r in Values(ranked) ==> r in entries
    ensures |Values(ranked)| == (if |entries| < k then |entries| else k)
    ensures DotDescending(Values(ranked), query)
    ensures multiset(Values(ranked)) <= multiset(entries)
    ensures NoneLeftOutHigher(entries, Values(ranked), query)
  {
    assert |ranked| == |kept| by {
      assert |multiset(ranked)| == |multiset(kept)|;
    }
    KeptEntries(entries, query, kept, dropped, ranked);
    SplitPart(Values(ranked), Values(dropped), entries);
    RankedOrder(ranked, query);
    LeftOutDominated(entries, query, kept, dropped, ranked);
  }

  /** the multiset of queue items splits into kept and dropped entries */
  lemma KeptEntries(entries: seq<EmbEntry>, query: Vec, kept: seq<Item<EmbEntry>>, dropped: seq<Item<EmbEntry>>, ranked: seq<Item<EmbEntry>>)
    requires forall e :: e in entries ==> |e.vec| == |query|
    requires multiset(kept) + multiset(dropped) == multiset(Scored(entries, query))
    requires multiset(ranked) == multiset(kept)
    ensures multiset(Values(ranked)) + multiset(Values(dropped)) == multiset(entries)
    ensures ScoredItems(ranked, query) && ScoredItems(dropped, query)
  {
    var pushed := Scored(entries, query);
    ScoredFacts(entries, query);
    SubItems(kept, dropped, pushed, query);
    forall x | x in ranked ensures x in kept {
      assert x in multiset(kept);
    }
    ValuesPermutation(ranked, kept);
    ValuesPermutation(kept + dropped, pushed);
    ValuesAppend(kept, dropped);
  }

  /** items sorted by score yield entries sorted by dot product */
  lemma RankedOrder(ranked: seq<Item<EmbEntry>>, query: Vec)
    requires ScoredItems(ranked, query) && SortedDesc(ranked)
    ensures DotDescending(Values(ranked), query)
  {
    var result := Values(ranked);
    forall i | 0 <= i < |result| ensures |result[i].vec| == |query| && ranked[i].priority == Dot(query, result[i].vec) {
      assert ranked[i] in ranked;
    }
  }

  /** an entry left out more often than kept scores no more than any kept
      entry */
  lemma LeftOutDominated(entries: seq<EmbEntry>, query: Vec, kept: seq<Item<EmbEntry>>, dropped: seq<Item<EmbEntry>>, ranked: seq<Item<EmbEntry>>)
    requires forall e :: e in entries ==> |e.vec| == |query|
    requires ScoredItems(ranked, query) && ScoredItems(dropped, query)
    requires multiset(Values(ranked)) + multiset(Values(dropped)) == multiset(entries)
    requires forall r :: r in Values(ranked) ==> r in entries
    requires multiset(ranked) == multiset(kept)
    requires forall d, y :: d in dropped && y in kept ==> d.priority <= y.priority
    ensures NoneLeftOutHigher(entries, Values(ranked), query)
  {
    var result := Values(ranked);
    forall e, r | e in entries && r in result && multiset(result)[e] < multiset(entries)[e]
      ensures |e.vec| == |query| && |r.vec| == |query| && Dot(query, e.vec) <= Dot(query, r.vec)
    {
      Leftover(multiset(result), multiset(Values(dropped)), multiset(entries), e);
      LeftOutPair(query, kept, dropped, ranked, e, r);
    }
  }

  /** one part of a sequence split into two multisets lies inside it */
  lemma SplitPart<T>(part: seq<T>, rest: seq<T>, all: seq<T>)
    requires multiset(part) + multiset(rest) == multiset(all)
    ensures multiset(part) <= multiset(all) && forall x :: x in part ==> x in all
  {
    forall x | x in part ensures x in all {
      assert x in multiset(part);
      assert x in multiset(all);
    }
  }

  /** what one part of a split multiset lacks, the other part holds */
  lemma Leftover<T>(kept: multiset<T>, dropped: multiset<T>, all: multiset<T>, e: T)
    requires kept + dropped == all && kept[e] < all[e]
    ensures e in dropped
  {
  }

  /** the dominance of one dropped entry e by one kept entry r */
  lemma LeftOutPair(query: Vec, kept: seq<Item<EmbEntry>>, dropped: seq<Item<EmbEntry>>, ranked: seq<Item<EmbEntry>>, e: EmbEntry, r: EmbEntry)
    requires ScoredItems(ranked, query) && ScoredItems(dropped, query)
    requires multiset(ranked) == multiset(kept)
    requires forall d, y :: d in dropped && y in kept ==> d.priority <= y.priority
    requires e in Values(dropped) && r in Values(ranked)
    ensures |e.vec| == |query| && |r.vec| == |query| && Dot(query, e.vec) <= Dot(query, r.vec)
  {
    var vd := Values(dropped);
    var a :| 0 <= a < |vd| && vd[a] == e;
    var d := dropped[a];
    assert d in dropped && d.value == e;
    var vr := Values(ranked);
    var b :| 0 <= b < |vr| && vr[b] == r;
    var y := ranked[b];
    assert y in ranked && y.value == r;
    assert y in multiset(kept);
    assert d.priority <= y.priority;
  }

  lemma {:induction false} ScoredFacts(entries: seq<EmbEntry>, query: Vec)
    requires forall e :: e in entries ==> |e.vec| == |query|
    ensures ScoredItems(Scored(entries, query), query)
    ensures Values(Scored(entries, query)) == entries
  {
    var pushed := Scored(entries, query);
    forall x | x in pushed ensures |x.value.vec| == |query| && x.priority == Dot(query, x.value.vec) {
      var i :| 0 <= i < |pushed| && pushed[i] == x;
      assert entries[i] in entries;
    }
  }

  /** what a queue holds or dropped was pushed */
  lemma SubItems(kept: seq<Item<EmbEntry>>, dropped: seq<Item<EmbEntry>>, pushed: seq<Item<EmbEntry>>, query: Vec)
    requires multiset(kept) + multiset(dropped) == multiset(pushed)
    requires ScoredItems(pushed, query)
    ensures ScoredItems(kept, query) && ScoredItems(dropped, query)
  {
    forall x | x in kept ensures x in pushed {
      assert x in multiset(pushed);
    }
    forall x | x in dropped ensures x in pushed {
      assert x in multiset(pushed);
    }
  }
}
