/** opendata/sarma.go: the value-level pieces of the ontology-based domain
    signatures (the bigram Dice coefficient of two labels, the tokenizer for
    annotations, the entity-class annotation of a column and the split of a
    column's values into annotated and unannotated ones) and the greedy
    matching step of the schema-consistency score. */
module Sarma {
  import opened Wrappers
  import opened GoStrings
  import opened TopK
  import Unionability
  import Seqs

  // ---------------------------------------------------------------
  // dice
  // ---------------------------------------------------------------

  /** the bigrams s[i:i+2] of s, left to right (none when |s| < 2) */
  function Bigrams(s: string): (r: seq<string>)
    ensures |r| == if |s| >= 2 then |s| - 1 else 0
    ensures forall i :: 0 <= i < |r| ==> r[i] == s[i..i + 2]
  {
    seq(if |s| >= 2 then |s| - 1 else 0, i requires 0 <= i < |s| - 1 => s[i..i + 2])
  }

  /** as written: the number of bigrams of bs that occur in held at all
      (the counts in held are never decremented) */
  function Hits(bs: seq<string>, held: multiset<string>): (n: nat)
    ensures n <= |bs|
  {
    if bs == [] then 0
    else Hits(bs[..|bs| - 1], held) + (if bs[|bs| - 1] in held then 1 else 0)
  }

  /** `dice` as written: twice the hits of b's bigrams among a's over the
      number of bigrams of both, after lower-casing; 0/0 is NaN */
  function DiceAsWritten(a: string, b: string): Float
  {
    var ba, bb := Bigrams(ToLower(a)), Bigrams(ToLower(b));
    Div(2.0 * (Hits(bb, multiset(ba)) as real), (|ba| + |bb|) as real)
  }

  /** the first loop of `dice`: the bigram counts of a (a map, here a
      multiset) and their number */
  method CountBigrams(a: string) returns (bigrams: multiset<string>, denom: nat)
    ensures bigrams == multiset(Bigrams(a)) && denom == |Bigrams(a)|
  {
    ghost var ba := Bigrams(a);
    bigrams := multiset{};
    denom := 0;
    var i := 0;
    while i < |a| - 1
      invariant 0 <= i <= |ba|
      invariant bigrams == multiset(ba[..i]) && denom == i
    {
      assert ba[..i + 1] == ba[..i] + [a[i..i + 2]];
      bigrams := bigrams + multiset{a[i..i + 2]};
      denom := denom + 1;
      i := i + 1;
    }
    assert ba[..i] == ba;
  }

  /** `dice(a, b)`: the bigram counts of a are kept in a map (a multiset);
      every bigram of b found there counts one hit. */
  method Dice(a0: string, b0: string) returns (coefficient: Float)
    ensures coefficient == DiceAsWritten(a0, b0)
  {
    var a := ToLower(a0);
    var b := ToLower(b0);
    ghost var ba, bb := Bigrams(a), Bigrams(b);
    var bigrams, denom := CountBigrams(a);
    var hits := 0;
    var j := 0;
    while j < |b| - 1
      invariant 0 <= j <= |bb|
      invariant hits == Hits(bb[..j], bigrams)
      invariant denom == |ba| + j
    {
      assert bb[..j + 1][..j] == bb[..j];
      assert bb[..j + 1][j] == b[j..j + 2];
      if b[j..j + 2] in bigrams {
        hits := hits + 1;
      }
      denom := denom + 1;
      j := j + 1;
    }
    assert bb[..j] == bb;
    coefficient := Div(2.0 * (hits as real), denom as real);
  }

  /** A label compared with itself scores 1 (sarma_test.go's
      dice("abc", "abc")), as long as it has a bigram. */
  lemma DiceAsWrittenSelf(s: string)
    requires |s| >= 2
    ensures DiceAsWritten(s, s) == Num(1.0)
  {
    var bs := Bigrams(ToLower(s));
    HitsAll(bs, multiset(bs));
    SameRatio(|bs|);
  }

  lemma SameRatio(n: nat)
    requires n >= 1
    ensures Div(2.0 * (n as real), (n + n) as real) == Num(1.0)
  {
    var x := 2.0 * (n as real);
    assert (n + n) as real == x;
  }

  lemma {:induction false} HitsAll(bs: seq<string>, held: multiset<string>)
    requires forall i :: 0 <= i < |bs| ==> bs[i] in held
    ensures Hits(bs, held) == |bs|
  {
    if bs != [] {
      HitsAll(bs[..|bs| - 1], held);
    }
  }

  /** Case does not matter: both labels are lower-cased first. */
  lemma DiceAsWrittenIgnoresCase(a: string, b: string)
    ensures DiceAsWritten(a, b) == DiceAsWritten(ToLower(a), ToLower(b))
  {
    ToLowerIdempotent(a);
    ToLowerIdempotent(b);
  }

  /** Labels without a bigram on either side give 0/0 = NaN. */
  lemma DiceAsWrittenShort(a: string, b: string)
    ensures DiceAsWritten(a, b) == NaN <==> |a| < 2 && |b| < 2
  {
  }

  lemma BigramsExample()
    ensures Bigrams("aa") == ["aa"] && Bigrams("aaa") == ["aa", "aa"]
  {
    assert "aa"[0..2] == "aa" && "aaa"[0..2] == "aa" && "aaa"[1..3] == "aa";
    var r, t := Bigrams("aa"), Bigrams("aaa");
    assert |r| == 1 && r[0] == "aa"[0..2];
    assert |t| == 2 && t[0] == "aaa"[0..2] && t[1] == "aaa"[1..3];
  }

  /** The coefficient leaves [0, 1]: "aa" has the one bigram "aa", and both
      bigrams of "aaa" find it, so dice("aa", "aaa") = 2 * 2 / 3. */
  lemma DiceAsWrittenAboveOne()
    ensures DiceAsWritten("aa", "aaa") == Num(4.0 / 3.0)
  {
    assert ToLower("aa") == "aa" && ToLower("aaa") == "aaa";
    BigramsExample();
    assert Hits(["aa", "aa"], multiset{"aa"}) == 2 by {
      assert ["aa", "aa"][..1] == ["aa"];
      assert ["aa"][..0] == [];
    }
  }

  /** the corrected count: each bigram of a can be matched by one bigram of
      b only, so a hit consumes one occurrence from held */
  function Consumed(bs: seq<string>, held: multiset<string>): (n: nat)
  {
    if bs == [] then 0
    else if bs[0] in held then 1 + Consumed(bs[1..], held - multiset{bs[0]})
    else Consumed(bs[1..], held)
  }

  lemma {:induction false} ConsumedBounds(bs: seq<string>, held: multiset<string>)
    ensures Consumed(bs, held) <= |bs| && Consumed(bs, held) <= |held|
  {
    if bs != [] {
      if bs[0] in held {
        ConsumedBounds(bs[1..], held - multiset{bs[0]});
        assert |held - multiset{bs[0]}| == |held| - 1;
      } else {
        ConsumedBounds(bs[1..], held);
      }
    }
  }

  lemma {:induction false} ConsumedSelf(bs: seq<string>)
    ensures Consumed(bs, multiset(bs)) == |bs|
  {
    if bs != [] {
      assert bs == [bs[0]] + bs[1..];
      assert multiset(bs) - multiset{bs[0]} == multiset(bs[1..]);
      ConsumedSelf(bs[1..]);
    }
  }

  /** the Dice coefficient with consumed counts: 2 |A ∩ B| / (|A| + |B|)
      over the bigram multisets */
  function DiceFixedValue(a: string, b: string): Float
  {
    var ba, bb := Bigrams(ToLower(a)), Bigrams(ToLower(b));
    Div(2.0 * (Consumed(bb, multiset(ba)) as real), (|ba| + |bb|) as real)
  }

  /** `dice` with the hit consuming one count of the bigram it found. */
  method DiceFixed(a0: string, b0: string) returns (coefficient: Float)
    ensures coefficient == DiceFixedValue(a0, b0)
  {
    var a := ToLower(a0);
    var b := ToLower(b0);
    ghost var ba := Bigrams(a);
    var bigrams, denom := CountBigrams(a);
    ghost var bb := Bigrams(b);
    var hits := 0;
    var j := 0;
    while j < |b| - 1
      invariant 0 <= j <= |bb|
      invariant hits + Consumed(bb[j..], bigrams) == Consumed(bb, multiset(ba))
      invariant denom == |ba| + j
    {
      assert bb[j..][1..] == bb[j + 1..];
      if b[j..j + 2] in bigrams {
        hits := hits + 1;
        bigrams := bigrams - multiset{b[j..j + 2]};
      }
      denom := denom + 1;
      j := j + 1;
    }
    coefficient := Div(2.0 * (hits as real), denom as real);
  }

  /** The corrected coefficient is NaN exactly when neither label has a
      bigram, and otherwise lies in [0, 1]. */
  lemma DiceFixedInUnitInterval(a: string, b: string)
    ensures DiceFixedValue(a, b) == NaN <==> |a| < 2 && |b| < 2
    ensures DiceFixedValue(a, b).Num? ==> 0.0 <= DiceFixedValue(a, b).r <= 1.0
  {
    var ba, bb := Bigrams(ToLower(a)), Bigrams(ToLower(b));
    ConsumedBounds(bb, multiset(ba));
    var c := Consumed(bb, multiset(ba));
    if |ba| + |bb| > 0 {
      Unionability.RealFraction(2.0 * (c as real), (|ba| + |bb|) as real);
    }
  }

  /** It still gives 1 for a label compared with itself. */
  lemma DiceFixedSelf(s: string)
    requires |s| >= 2
    ensures DiceFixedValue(s, s) == Num(1.0)
  {
    ConsumedSelf(Bigrams(ToLower(s)));
    SameRatio(|Bigrams(ToLower(s))|);
  }

  /** and keeps the corrected "aa"/"aaa" within range: one match out of
      three bigrams. */
  lemma DiceFixedExample()
    ensures DiceFixedValue("aa", "aaa") == Num(2.0 / 3.0)
  {
    assert ToLower("aa") == "aa" && ToLower("aaa") == "aaa";
    BigramsExample();
    assert multiset{"aa"} - multiset{"aa"} == multiset{};
    assert ["aa", "aa"][1..] == ["aa"];
    assert Consumed(["aa"], multiset{}) == 0;
  }

  // ---------------------------------------------------------------
  // tokenizeAnnotation
  // ---------------------------------------------------------------

  /** the pattern `[^a-z ]` */
  predicate OutsideAnnotation(c: char)
  {
    !(IsLowerLetter(c) || c == ' ')
  }

  /** `tokenizeAnnotation`: lower-cases and cuts at every character other
      than a-z and space; one more word than cutting characters, the words
      hold only a-z and spaces, and together they are the kept characters
      in order. */
  function TokenizeAnnotation(annotation: string): (words: seq<string>)
    ensures |words| == CountWhere(ToLower(annotation), OutsideAnnotation) + 1
    ensures forall i, j :: 0 <= i < |words| && 0 <= j < |words[i]| ==>
      IsLowerLetter(words[i][j]) || words[i][j] == ' '
    ensures Flatten(words) == Keep(ToLower(annotation), OutsideAnnotation)
    ensures |words| == |Cuts(ToLower(annotation), OutsideAnnotation)| + 1
    ensures Interleave(words, Cuts(ToLower(annotation), OutsideAnnotation)) == ToLower(annotation)
  {
    var lower := ToLower(annotation);
    SplitWherePartsClean(lower, OutsideAnnotation);
    SplitWhereConcat(lower, OutsideAnnotation);
    SplitWhereCount(lower, OutsideAnnotation);
    SplitWhereRejoin(lower, OutsideAnnotation);
    SplitWhere(lower, OutsideAnnotation)
  }

  /** The words are the only split of the lowercased annotation into pieces
      of a-z and spaces that gives it back when the cut characters are put
      back between them: every cutting character is a cut. */
  lemma TokenizeAnnotationUnique(annotation: string, words: seq<string>)
    requires |words| == |Cuts(ToLower(annotation), OutsideAnnotation)| + 1
    requires forall i, j :: 0 <= i < |words| && 0 <= j < |words[i]| ==> IsLowerLetter(words[i][j]) || words[i][j] == ' '
    requires Interleave(words, Cuts(ToLower(annotation), OutsideAnnotation)) == ToLower(annotation)
    ensures words == TokenizeAnnotation(annotation)
  {
    var lower := ToLower(annotation);
    var t := TokenizeAnnotation(annotation);
    InterleaveUnique(words, t, Cuts(lower, OutsideAnnotation), OutsideAnnotation);
  }

  // ---------------------------------------------------------------
  // annotateEntities
  // ---------------------------------------------------------------

  /** K in `annotateEntities`: at most this many classes annotate a column */
  const AnnotationLimit: nat := 10

  /** the classes listed for an entity, looked up lower-cased (none when
      the entity is unknown) */
  function ClassesOf(entityClass: map<string, seq<string>>, ent: string): seq<string>
  {
    var e := ToLower(ent);
    if e in entityClass then entityClass[e] else []
  }

  /** every class listed for the entities, with repetition, in order */
  function AllClasses(entities: seq<string>, entityClass: map<string, seq<string>>): seq<string>
  {
    if entities == [] then []
    else AllClasses(entities[..|entities| - 1], entityClass) + ClassesOf(entityClass, entities[|entities| - 1])
  }

  /** the count of every class of m, as a map */
  ghost function CountMap(m: multiset<string>): map<string, int>
  {
    map c | c in m :: m[c]
  }

  /** the map `classes` holds the count of every class of m */
  ghost predicate Counts(classes: map<string, int>, m: multiset<string>)
  {
    classes == CountMap(m)
  }

  /** the annotation of a column whose classes occur with multiplicities m:
      at most K distinct classes of m in non-increasing frequency, all of
      them when there are fewer than K, and no class left out occurs more
      often than one taken */
  ghost predicate TopAnnotations(ann: seq<string>, m: multiset<string>)
  {
    |ann| <= AnnotationLimit &&
    Unionability.NoDuplicates(ann) &&
    (forall a :: 0 <= a < |ann| ==> ann[a] in m) &&
    (forall a, b :: 0 <= a < b < |ann| ==> m[ann[a]] >= m[ann[b]]) &&
    (|ann| < AnnotationLimit ==> forall c :: c in m ==> c in ann) &&
    (forall c, a :: c in m && c !in ann && 0 <= a < |ann| ==> m[ann[a]] >= m[c])
  }

  /** after the map loop: freqClass groups the visited classes by count and
      freqs lists each count once */
  ghost predicate Grouped(m: multiset<string>, visited: set<string>, freqClass: map<int, seq<string>>, freqs: seq<int>)
  {
    (forall f :: f in freqClass <==> f in freqs) &&
    Unionability.NoDuplicates(freqs) &&
    (forall f :: f in freqClass ==> Unionability.NoDuplicates(freqClass[f])) &&
    (forall f, c :: f in freqClass && c in freqClass[f] ==> c in visited && m[c] == f) &&
    (forall c :: c in visited ==> m[c] in freqClass && c in freqClass[m[c]])
  }

  /** the groups of the counts sorted[lo..] have been emitted */
  ghost predicate Emitted(m: multiset<string>, sorted: seq<int>, lo: nat, ann: seq<string>)
    requires lo <= |sorted|
  {
    Unionability.NoDuplicates(ann) &&
    (forall a :: 0 <= a < |ann| ==> ann[a] in m) &&
    (forall a, b :: 0 <= a < b < |ann| ==> m[ann[a]] >= m[ann[b]]) &&
    (forall c :: c in m ==> (c in ann <==> m[c] in sorted[lo..]))
  }

  predicate Ascending(s: seq<int>)
  {
    forall i, j :: 0 <= i < j < |s| ==> s[i] <= s[j]
  }

  function InsertAsc(s: seq<int>, x: int): (r: seq<int>)
    ensures multiset(r) == multiset(s) + multiset{x}
  {
    if s == [] || x <= s[0] then [x] + s
    else
      assert s == [s[0]] + s[1..];
      [s[0]] + InsertAsc(s[1..], x)
  }

  lemma {:induction false} InsertAscSorted(s: seq<int>, x: int)
    requires Ascending(s)
    ensures Ascending(InsertAsc(s, x))
  {
    if s != [] && x > s[0] {
      InsertAscSorted(s[1..], x);
      InsertAscAbove(s, x);
      ConsAscending(s[0], InsertAsc(s[1..], x));
    }
  }

  /** inserting x > s[0] into s[1..] gives elements no smaller than s[0] */
  lemma InsertAscAbove(s: seq<int>, x: int)
    requires Ascending(s) && s != [] && x > s[0]
    ensures forall i :: 0 <= i < |InsertAsc(s[1..], x)| ==> s[0] <= InsertAsc(s[1..], x)[i]
  {
    var rest := InsertAsc(s[1..], x);
    var tail := s[1..];
    forall i | 0 <= i < |rest| ensures s[0] <= rest[i] {
      assert rest[i] in multiset(rest);
      if rest[i] != x {
        assert rest[i] in multiset(tail);
        var k :| 0 <= k < |tail| && tail[k] == rest[i];
        assert s[k + 1] == rest[i];
      }
    }
  }

  lemma ConsAscending(h: int, rest: seq<int>)
    requires Ascending(rest) && forall i :: 0 <= i < |rest| ==> h <= rest[i]
    ensures Ascending([h] + rest)
  {
    var r := [h] + rest;
    forall i, j | 0 <= i < j < |r| ensures r[i] <= r[j] {
      assert r[j] == rest[j - 1];
      if i > 0 {
        assert r[i] == rest[i - 1];
      }
    }
  }

  /** `sort.Ints`: an ascending permutation */
  function SortInts(s: seq<int>): (r: seq<int>)
    ensures Ascending(r) && multiset(r) == multiset(s)
  {
    if s == [] then []
    else
      assert s == s[..|s| - 1] + [s[|s| - 1]];
      InsertAscSorted(SortInts(s[..|s| - 1]), s[|s| - 1]);
      InsertAsc(SortInts(s[..|s| - 1]), s[|s| - 1])
  }

  /** Before the group of count sorted[lo], exactly the classes counted more
      often have been emitted. */
  lemma OuterAbove(m: multiset<string>, sorted: seq<int>, lo: nat, outer: seq<string>)
    requires lo < |sorted| && Ascending(sorted) && Unionability.NoDuplicates(sorted)
    requires Emitted(m, sorted, lo + 1, outer)
    requires forall c :: c in m ==> m[c] in sorted
    ensures forall c :: c in m ==> (c in outer <==> m[c] > sorted[lo])
  {
    forall c | c in m ensures c in outer <==> m[c] > sorted[lo] {
      var tail := sorted[lo + 1..];
      if c in outer {
        assert m[c] in tail;
        var k :| 0 <= k < |tail| && tail[k] == m[c];
        assert sorted[lo + 1 + k] == m[c];
      }
      if m[c] > sorted[lo] {
        var t :| 0 <= t < |sorted| && sorted[t] == m[c];
        assert t > lo;
        assert tail[t - lo - 1] == m[c];
      }
    }
  }

  /** Emitting part of the group of count f = sorted[lo] after the classes
      counted more often keeps the emitted classes distinct, counted at least
      f, in non-increasing order, and leaves out none counted more than f. */
  lemma EmitPart(m: multiset<string>, f: int, outer: seq<string>, group: seq<string>, j: nat, ann: seq<string>)
    requires Unionability.NoDuplicates(outer) && Unionability.NoDuplicates(group) && j <= |group|
    requires ann == outer + group[..j]
    requires forall a :: 0 <= a < |outer| ==> outer[a] in m
    requires forall a, b :: 0 <= a < b < |outer| ==> m[outer[a]] >= m[outer[b]]
    requires forall c :: c in m ==> (c in outer <==> m[c] > f)
    requires forall c :: c in group ==> c in m && m[c] == f
    ensures Unionability.NoDuplicates(ann)
    ensures forall a :: 0 <= a < |ann| ==> ann[a] in m && m[ann[a]] >= f
    ensures forall a, b :: 0 <= a < b < |ann| ==> m[ann[a]] >= m[ann[b]]
    ensures forall c :: c in m && c !in ann ==> m[c] <= f
  {
    forall a, b | 0 <= a < b < |ann| ensures ann[a] != ann[b] && m[ann[a]] >= m[ann[b]] {
      if a >= |outer| {
        assert ann[a] == group[a - |outer|] && ann[b] == group[b - |outer|];
      } else if b >= |outer| {
        assert ann[b] == group[b - |outer|];
        assert ann[b] in group;
      }
    }
    forall a | 0 <= a < |ann| ensures ann[a] in m && m[ann[a]] >= f {
      if a >= |outer| {
        assert ann[a] == group[a - |outer|];
        assert ann[a] in group;
      } else {
        assert ann[a] in outer;
      }
    }
  }

  /** Emitting the whole group of count sorted[lo] makes the groups of
      sorted[lo..] emitted. */
  lemma EmitGroup(m: multiset<string>, sorted: seq<int>, lo: nat, outer: seq<string>, group: seq<string>)
    requires lo < |sorted| && Ascending(sorted) && Unionability.NoDuplicates(sorted)
    requires Emitted(m, sorted, lo + 1, outer)
    requires forall c :: c in m ==> m[c] in sorted
    requires Unionability.NoDuplicates(group)
    requires forall c :: c in group ==> c in m && m[c] == sorted[lo]
    requires forall c :: c in m && m[c] == sorted[lo] ==> c in group
    ensures Emitted(m, sorted, lo, outer + group)
  {
    var f := sorted[lo];
    OuterAbove(m, sorted, lo, outer);
    var ann := outer + group;
    assert group[..|group|] == group;
    EmitPart(m, f, outer, group, |group|, ann);
    GroupJoined(m, sorted, lo, outer, group);
  }

  /** the classes emitted through group lo are those of a count from lo on */
  lemma GroupJoined(m: multiset<string>, sorted: seq<int>, lo: nat, outer: seq<string>, group: seq<string>)
    requires lo < |sorted|
    requires forall c :: c in m ==> (c in outer <==> m[c] in sorted[lo + 1..])
    requires forall c :: c in group ==> c in m && m[c] == sorted[lo]
    requires forall c :: c in m && m[c] == sorted[lo] ==> c in group
    ensures forall c :: c in m ==> (c in outer + group <==> m[c] in sorted[lo..])
  {
    assert sorted[lo..] == [sorted[lo]] + sorted[lo + 1..];
  }

  /** Counting one more occurrence of c keeps the counts. */
  lemma CountsAdd(classes: map<string, int>, m: multiset<string>, c: string)
    requires Counts(classes, m)
    ensures Counts(classes[c := if c in classes then classes[c] + 1 else 1], m + multiset{c})
  {
    var updated := classes[c := if c in classes then classes[c] + 1 else 1];
    assert updated.Keys == CountMap(m + multiset{c}).Keys;
  }

  /** what the counts say about each class */
  lemma CountsAt(classes: map<string, int>, m: multiset<string>)
    requires Counts(classes, m)
    ensures forall c :: c in classes <==> c in m
    ensures forall c :: c in classes ==> classes[c] == m[c]
  {
  }

  lemma AllClassesStep(entities: seq<string>, entityClass: map<string, seq<string>>, i: nat)
    requires i < |entities|
    ensures AllClasses(entities[..i + 1], entityClass) == AllClasses(entities[..i], entityClass) + ClassesOf(entityClass, entities[i])
  {
    assert entities[..i + 1][..i] == entities[..i];
  }

  lemma MultisetStep<T>(s: seq<T>, j: nat)
    requires j < |s|
    ensures multiset(s[..j + 1]) == multiset(s[..j]) + multiset{s[j]}
  {
    assert s[..j + 1] == s[..j] + [s[j]];
  }

  /** the inner loop of the first loop of `annotateEntities`: counts the
      classes cs of one entity */
  method CountListed(classes0: map<string, int>, cs: seq<string>, ghost m: multiset<string>) returns (classes: map<string, int>)
    requires Counts(classes0, m)
    ensures Counts(classes, m + multiset(cs))
  {
    classes := classes0;
    var j := 0;
    while j < |cs|
      invariant 0 <= j <= |cs|
      invariant Counts(classes, m + multiset(cs[..j]))
    {
      var c := cs[j];
      CountsAdd(classes, m + multiset(cs[..j]), c);
      MultisetStep(cs, j);
      if c !in classes {
        classes := classes[c := 1];
      } else {
        classes := classes[c := classes[c] + 1];
      }
      j := j + 1;
    }
    assert cs[..j] == cs;
  }

  /** the first loop of `annotateEntities`: the count of every class listed
      for the entities (looked up lower-cased) */
  method CountClasses(entities: seq<string>, entityClass: map<string, seq<string>>) returns (classes: map<string, int>)
    ensures Counts(classes, multiset(AllClasses(entities, entityClass)))
  {
    classes := map[];
    var i := 0;
    while i < |entities|
      invariant 0 <= i <= |entities|
      invariant Counts(classes, multiset(AllClasses(entities[..i], entityClass)))
    {
      var cs := ClassesOf(entityClass, entities[i]);
      AllClassesStep(entities, entityClass, i);
      classes := CountListed(classes, cs, multiset(AllClasses(entities[..i], entityClass)));
      i := i + 1;
    }
    assert entities[..i] == entities;
  }

  /** Filing one more class k under its count keeps the grouping. */
  lemma GroupStep(m: multiset<string>, visited: set<string>, freqClass: map<int, seq<string>>, freqs: seq<int>, k: string)
    requires Grouped(m, visited, freqClass, freqs) && k !in visited
    ensures m[k] !in freqClass ==> Grouped(m, visited + {k}, freqClass[m[k] := [k]], freqs + [m[k]])
    ensures m[k] in freqClass ==> Grouped(m, visited + {k}, freqClass[m[k] := freqClass[m[k]] + [k]], freqs)
  {
    var v := m[k];
    if v in freqClass {
      assert k !in freqClass[v];
      var g := freqClass[v] + [k];
      assert Unionability.NoDuplicates(g) by {
        forall a, b | 0 <= a < b < |g| ensures g[a] != g[b] {
          if b == |g| - 1 {
            assert g[a] in freqClass[v];
          }
        }
      }
      forall c | c in g ensures c in visited + {k} && m[c] == v {
        if c != k {
          assert c in freqClass[v];
        }
      }
    } else {
      var fs := freqs + [v];
      assert Unionability.NoDuplicates(fs) by {
        forall a, b | 0 <= a < b < |fs| ensures fs[a] != fs[b] {
          if b == |fs| - 1 {
            assert fs[a] in freqs;
          }
        }
      }
    }
  }

  /** moving k from the classes still to visit to those visited */
  lemma MoveOne(keys: set<string>, remaining: set<string>, visited: set<string>, k: string)
    requires remaining + visited == keys && remaining !! visited && k in remaining
    ensures (remaining - {k}) + (visited + {k}) == keys && (remaining - {k}) !! (visited + {k})
  {
  }

  /** the second loop of `annotateEntities`: in map order, files each class
      under its count and lists each count once */
  method GroupByCount(classes: map<string, int>, ghost m: multiset<string>) returns (freqs: seq<int>, freqClass: map<int, seq<string>>)
    requires Counts(classes, m)
    ensures Grouped(m, classes.Keys, freqClass, freqs)
  {
    CountsAt(classes, m);
    freqs := [];
    freqClass := map[];
    var remaining := classes.Keys;
    ghost var visited: set<string> := {};
    while remaining != {}
      invariant remaining + visited == classes.Keys && remaining !! visited
      invariant Grouped(m, visited, freqClass, freqs)
      decreases |remaining|
    {
      var k :| k in remaining;
      var v := classes[k];
      GroupStep(m, visited, freqClass, freqs, k);
      MoveOne(classes.Keys, remaining, visited, k);
      if v !in freqClass {
        freqClass := freqClass[v := [k]];
        freqs := freqs + [v];
      } else {
        freqClass := freqClass[v := freqClass[v] + [k]];
      }
      remaining := remaining - {k};
      visited := visited + {k};
    }
  }

  /** the groups in sorted count order: each count of sorted names the
      group of exactly the classes counted that often, and every count of
      m is in sorted */
  ghost predicate Layout(m: multiset<string>, freqClass: map<int, seq<string>>, sorted: seq<int>)
  {
    Ascending(sorted) && Unionability.NoDuplicates(sorted) &&
    (forall c :: c in m ==> m[c] in sorted) &&
    (forall t :: 0 <= t < |sorted| ==> sorted[t] in freqClass) &&
    (forall f :: f in freqClass ==> Unionability.NoDuplicates(freqClass[f])) &&
    (forall f, c :: f in freqClass && c in freqClass[f] ==> c in m && m[c] == f) &&
    (forall c :: c in m ==> m[c] in freqClass && c in freqClass[m[c]])
  }

  /** Sorting the counts of a grouping lays the groups out. */
  lemma SortedLayout(m: multiset<string>, classes: map<string, int>, freqClass: map<int, seq<string>>, freqs: seq<int>)
    requires Counts(classes, m) && Grouped(m, classes.Keys, freqClass, freqs)
    ensures Layout(m, freqClass, SortInts(freqs))
  {
    var sorted := SortInts(freqs);
    CountsAt(classes, m);
    Unionability.NoDuplicatesCount(freqs);
    Unionability.NoDuplicatesCount(sorted);
    forall c | c in m ensures m[c] in sorted {
      assert m[c] in multiset(freqs);
    }
    forall t | 0 <= t < |sorted| ensures sorted[t] in freqClass {
      assert sorted[t] in multiset(freqs);
    }
  }

  /** Emitting the groups of sorted from the highest count down until K
      classes are out gives the top annotations. */
  lemma EmittedAll(m: multiset<string>, sorted: seq<int>, ann: seq<string>)
    requires Emitted(m, sorted, 0, ann) && |ann| < AnnotationLimit
    requires forall c :: c in m ==> m[c] in sorted
    ensures TopAnnotations(ann, m)
  {
    assert sorted[0..] == sorted;
  }

  lemma StopFull(m: multiset<string>, f: int, ann: seq<string>)
    requires |ann| == AnnotationLimit && Unionability.NoDuplicates(ann)
    requires forall a :: 0 <= a < |ann| ==> ann[a] in m && m[ann[a]] >= f
    requires forall a, b :: 0 <= a < b < |ann| ==> m[ann[a]] >= m[ann[b]]
    requires forall c :: c in m && c !in ann ==> m[c] <= f
    ensures TopAnnotations(ann, m)
  {
  }

  /** Stopping at K classes inside the group of count f gives the top
      annotations. */
  lemma StopAt(m: multiset<string>, f: int, outer: seq<string>, group: seq<string>, j: nat, ann: seq<string>)
    requires Unionability.NoDuplicates(outer) && Unionability.NoDuplicates(group) && j <= |group|
    requires forall a :: 0 <= a < |outer| ==> outer[a] in m
    requires forall a, b :: 0 <= a < b < |outer| ==> m[outer[a]] >= m[outer[b]]
    requires forall c :: c in m ==> (c in outer <==> m[c] > f)
    requires forall c :: c in group ==> c in m && m[c] == f
    requires ann == outer + group[..j] && |ann| == AnnotationLimit
    ensures TopAnnotations(ann, m)
  {
    EmitPart(m, f, outer, group, j, ann);
    StopFull(m, f, ann);
  }

  /** the inner loop of the last loop of `annotateEntities`: appends the
      classes of the group of count f, stopping (full) when K are out */
  method EmitGroupUpTo(ghost m: multiset<string>, ghost f: int, outer: seq<string>, group: seq<string>)
    returns (annotations: seq<string>, full: bool)
    requires |outer| < AnnotationLimit && Unionability.NoDuplicates(outer) && Unionability.NoDuplicates(group)
    requires forall a :: 0 <= a < |outer| ==> outer[a] in m
    requires forall a, b :: 0 <= a < b < |outer| ==> m[outer[a]] >= m[outer[b]]
    requires forall c :: c in m ==> (c in outer <==> m[c] > f)
    requires forall c :: c in group ==> c in m && m[c] == f
    ensures full ==> TopAnnotations(annotations, m)
    ensures !full ==> annotations == outer + group && |annotations| < AnnotationLimit
  {
    annotations := outer;
    var j := 0;
    while j < |group|
      invariant 0 <= j <= |group|
      invariant annotations == outer + group[..j]
      invariant |annotations| < AnnotationLimit
    {
      assert group[..j + 1] == group[..j] + [group[j]];
      annotations := annotations + [group[j]];
      if |annotations| == AnnotationLimit {
        StopAt(m, f, outer, group, j + 1, annotations);
        return annotations, true;
      }
      j := j + 1;
    }
    assert group[..j] == group;
    full := false;
  }

  /** the last loop of `annotateEntities`: from the highest count down,
      appends each group's classes, returning as soon as K are out */
  method EmitTop(ghost m: multiset<string>, freqClass: map<int, seq<string>>, sorted: seq<int>) returns (annotations: seq<string>)
    requires Layout(m, freqClass, sorted)
    ensures TopAnnotations(annotations, m)
  {
    annotations := [];
    var idx := |sorted| - 1;
    while idx >= 0
      invariant -1 <= idx < |sorted|
      invariant Emitted(m, sorted, idx + 1, annotations)
      invariant |annotations| < AnnotationLimit
    {
      var group := freqClass[sorted[idx]];
      ghost var outer := annotations;
      OuterAbove(m, sorted, idx, outer);
      var full;
      annotations, full := EmitGroupUpTo(m, sorted[idx], annotations, group);
      if full {
        return;
      }
      EmitGroup(m, sorted, idx, outer, group);
      idx := idx - 1;
    }
    EmittedAll(m, sorted, annotations);
  }

  /** `annotateEntities`: counts the classes of the entities, groups them by
      count, sorts the counts and emits the groups from the highest count
      down, stopping at K classes. */
  method AnnotateEntities(entities: seq<string>, entityClass: map<string, seq<string>>) returns (annotations: seq<string>)
    ensures TopAnnotations(annotations, multiset(AllClasses(entities, entityClass)))
  {
    ghost var m := multiset(AllClasses(entities, entityClass));
    var classes := CountClasses(entities, entityClass);
    var freqs, freqClass := GroupByCount(classes, m);
    var sorted := SortInts(freqs);
    SortedLayout(m, classes, freqClass, freqs);
    annotations := EmitTop(m, freqClass, sorted);
  }

  // ---------------------------------------------------------------
  // GetOntDomain
  // ---------------------------------------------------------------

  /** the words `getWords` finds in a value */
  function ValueWords(value: string): seq<string>
  {
    Unionability.Long(SplitWhere(ToLower(value), Unionability.NotLetter))
  }

  /** ent is one of the entities `findEntities` reports for the words: every
      word names it and its entity count equals the number of words */
  predicate EntityOf(words: seq<string>, lookup: map<string, set<string>>, counts: map<string, int>, ent: string)
  {
    words != [] &&
    (forall i :: 0 <= i < |words| ==> ent in Unionability.Named(lookup, words[i])) &&
    Unionability.CountOf(counts, ent) == |words|
  }

  /** a value some entity of the ontology annotates */
  ghost predicate Annotated(value: string, lookup: map<string, set<string>>, counts: map<string, int>)
  {
    exists ent :: EntityOf(ValueWords(value), lookup, counts, ent)
  }

  /** the entities `findEntities` reports for a value, as a set */
  function FoundFor(value: string, lookup: map<string, set<string>>, counts: map<string, int>): set<string>
  {
    var words := ValueWords(value);
    if words == [] then {} else set ent | ent in Unionability.Named(lookup, words[0]) && EntityOf(words, lookup, counts, ent)
  }

  /** what `GetOntDomain` appends to `annotation` for the values, counted:
      each value contributes each of its entities once */
  function Found(values: seq<string>, lookup: map<string, set<string>>, counts: map<string, int>): multiset<string>
  {
    if values == [] then multiset{}
    else Found(values[..|values| - 1], lookup, counts) + multiset(FoundFor(values[|values| - 1], lookup, counts))
  }

  /** An entity is among those found for the values exactly when some value
      has it as one of its entities; it is found at most once per value. */
  lemma {:induction false} FoundMembers(values: seq<string>, lookup: map<string, set<string>>, counts: map<string, int>, ent: string)
    ensures ent in Found(values, lookup, counts) <==>
      exists k :: 0 <= k < |values| && EntityOf(ValueWords(values[k]), lookup, counts, ent)
    ensures Found(values, lookup, counts)[ent] <= |values|
  {
    if values != [] {
      var init, v := values[..|values| - 1], values[|values| - 1];
      FoundMembers(init, lookup, counts, ent);
      assert forall k :: 0 <= k < |init| ==> init[k] == values[k];
      assert ent in FoundFor(v, lookup, counts) <==> EntityOf(ValueWords(v), lookup, counts, ent);
      if ent in Found(values, lookup, counts) && ent !in Found(init, lookup, counts) {
        assert EntityOf(ValueWords(values[|values| - 1]), lookup, counts, ent);
      }
    }
  }

  /** `GetOntDomain` without its minhash signatures: the distinct values of
      the column (their number is the cardinality), the values no entity
      annotates (in order, once each), and every entity found for a value. */
  method GetOntDomain(values: seq<string>, lookup: map<string, set<string>>, counts: map<string, int>)
    returns (uniqueValues: seq<string>, annotation: seq<string>, noAnnotation: seq<string>)
    ensures Unionability.NoDuplicates(uniqueValues) && forall v :: v in uniqueValues <==> v in values
    ensures Unionability.NoDuplicates(noAnnotation) && |noAnnotation| <= |uniqueValues|
    ensures forall v :: v in noAnnotation <==> v in uniqueValues && !Annotated(v, lookup, counts)
    ensures forall ent :: ent in annotation <==>
      exists k :: 0 <= k < |uniqueValues| && EntityOf(ValueWords(uniqueValues[k]), lookup, counts, ent)
    ensures multiset(annotation) == Found(uniqueValues, lookup, counts)
  {
    noAnnotation := [];
    annotation := [];
    uniqueValues := Unionability.Unique(values);
    var i := 0;
    while i < |uniqueValues|
      invariant 0 <= i <= |uniqueValues|
      invariant UnannotatedSoFar(noAnnotation, uniqueValues, i, lookup, counts)
      invariant EntitiesSoFar(annotation, uniqueValues, i, lookup, counts)
      invariant multiset(annotation) == Found(uniqueValues[..i], lookup, counts)
    {
      noAnnotation, annotation := AnnotateValue(uniqueValues, i, lookup, counts, noAnnotation, annotation);
      i := i + 1;
    }
    assert uniqueValues[..i] == uniqueValues;
  }

  /** the values among the first i that no entity annotates, once each */
  ghost predicate UnannotatedSoFar(noAnnotation: seq<string>, uniqueValues: seq<string>, i: nat, lookup: map<string, set<string>>, counts: map<string, int>)
    requires i <= |uniqueValues|
  {
    Unionability.NoDuplicates(noAnnotation) && |noAnnotation| <= i &&
    forall v :: v in noAnnotation <==> v in uniqueValues[..i] && !Annotated(v, lookup, counts)
  }

  /** the entities found for the first i values */
  ghost predicate EntitiesSoFar(annotation: seq<string>, uniqueValues: seq<string>, i: nat, lookup: map<string, set<string>>, counts: map<string, int>)
  {
    forall ent :: ent in annotation <==>
      exists k :: 0 <= k < i && k < |uniqueValues| && EntityOf(ValueWords(uniqueValues[k]), lookup, counts, ent)
  }

  /** the body of the loop of `GetOntDomain`: the entities of value i */
  method AnnotateValue(uniqueValues: seq<string>, i: nat, lookup: map<string, set<string>>, counts: map<string, int>, noAnnotation: seq<string>, annotation: seq<string>)
    returns (noAnnotation': seq<string>, annotation': seq<string>)
    requires i < |uniqueValues| && Unionability.NoDuplicates(uniqueValues)
    requires UnannotatedSoFar(noAnnotation, uniqueValues, i, lookup, counts)
    requires EntitiesSoFar(annotation, uniqueValues, i, lookup, counts)
    ensures UnannotatedSoFar(noAnnotation', uniqueValues, i + 1, lookup, counts)
    ensures EntitiesSoFar(annotation', uniqueValues, i + 1, lookup, counts)
    requires multiset(annotation) == Found(uniqueValues[..i], lookup, counts)
    ensures multiset(annotation') == Found(uniqueValues[..i + 1], lookup, counts)
  {
    var value := uniqueValues[i];
    var words := Unionability.GetWords(value);
    var foundEntities := Unionability.FindEntities(words, lookup, counts);
    assert forall ent :: ent in foundEntities <==> EntityOf(ValueWords(value), lookup, counts, ent);
    noAnnotation' := noAnnotation;
    if |foundEntities| == 0 {
      noAnnotation' := noAnnotation + [value];
    } else {
      assert foundEntities[0] in foundEntities;
    }
    UnannotatedStep(noAnnotation, noAnnotation', uniqueValues, i, lookup, counts, |foundEntities| == 0);
    annotation' := annotation + foundEntities;
    EntitiesStep(annotation, foundEntities, uniqueValues, i, lookup, counts);
    FoundStep(uniqueValues, i, lookup, counts, foundEntities);
  }

  lemma FoundStep(uniqueValues: seq<string>, i: nat, lookup: map<string, set<string>>, counts: map<string, int>, found: seq<string>)
    requires i < |uniqueValues| && Unionability.NoDuplicates(found)
    requires forall ent :: ent in found <==> EntityOf(ValueWords(uniqueValues[i]), lookup, counts, ent)
    ensures Found(uniqueValues[..i + 1], lookup, counts) == Found(uniqueValues[..i], lookup, counts) + multiset(found)
  {
    assert uniqueValues[..i + 1][..i] == uniqueValues[..i];
    Seqs.DistinctBag(found, FoundFor(uniqueValues[i], lookup, counts));
  }

  lemma UnannotatedStep(noAnnotation: seq<string>, noAnnotation': seq<string>, uniqueValues: seq<string>, i: nat, lookup: map<string, set<string>>, counts: map<string, int>, none: bool)
    requires i < |uniqueValues| && Unionability.NoDuplicates(uniqueValues)
    requires UnannotatedSoFar(noAnnotation, uniqueValues, i, lookup, counts)
    requires none <==> !Annotated(uniqueValues[i], lookup, counts)
    requires noAnnotation' == if none then noAnnotation + [uniqueValues[i]] else noAnnotation
    ensures UnannotatedSoFar(noAnnotation', uniqueValues, i + 1, lookup, counts)
  {
    var value := uniqueValues[i];
    assert uniqueValues[..i + 1] == uniqueValues[..i] + [value];
    if none {
      assert value !in uniqueValues[..i];
    }
  }

  lemma EntitiesStep(annotation: seq<string>, found: seq<string>, uniqueValues: seq<string>, i: nat, lookup: map<string, set<string>>, counts: map<string, int>)
    requires i < |uniqueValues|
    requires EntitiesSoFar(annotation, uniqueValues, i, lookup, counts)
    requires forall ent :: ent in found <==> EntityOf(ValueWords(uniqueValues[i]), lookup, counts, ent)
    ensures EntitiesSoFar(annotation + found, uniqueValues, i + 1, lookup, counts)
  {
  }

  // ---------------------------------------------------------------
  // computeSchemaConsistency: the matching step
  // ---------------------------------------------------------------

  /** a query text column index paired with a candidate one */
  datatype ColumnPair = ColumnPair(query: int, candidate: int)

  /** the pairs of query column q with every candidate column, scored */
  function Row(q: int, cands: seq<int>, score: (int, int) -> real): (r: seq<Item<ColumnPair>>)
    ensures |r| == |cands|
    ensures forall j :: 0 <= j < |cands| ==> r[j] == Item(ColumnPair(q, cands[j]), score(q, cands[j]))
  {
    seq(|cands|, j requires 0 <= j < |cands| => Item(ColumnPair(q, cands[j]), score(q, cands[j])))
  }

  /** every (query, candidate) column pair, scored, in the order of the two
      nested loops */
  function AllPairs(queries: seq<int>, cands: seq<int>, score: (int, int) -> real): seq<Item<ColumnPair>>
  {
    if queries == [] then []
    else AllPairs(queries[..|queries| - 1], cands, score) + Row(queries[|queries| - 1], cands, score)
  }

  lemma {:induction false} AllPairsSize(queries: seq<int>, cands: seq<int>, score: (int, int) -> real)
    ensures |AllPairs(queries, cands, score)| == |queries| * |cands|
  {
    if queries != [] {
      AllPairsSize(queries[..|queries| - 1], cands, score);
      MulStep(|queries| - 1, |cands|);
    }
  }

  lemma AllPairsStep(queries: seq<int>, i: nat, cands: seq<int>, score: (int, int) -> real)
    requires i < |queries|
    ensures AllPairs(queries[..i + 1], cands, score) == AllPairs(queries[..i], cands, score) + Row(queries[i], cands, score)
  {
    assert queries[..i + 1][..i] == queries[..i];
  }

  lemma MulStep(a: nat, b: nat)
    ensures a * b + b == (a + 1) * b
  {
  }

  /** every pair joins a query column with a candidate column */
  lemma {:induction false} AllPairsFrom(queries: seq<int>, cands: seq<int>, score: (int, int) -> real)
    ensures forall t :: 0 <= t < |AllPairs(queries, cands, score)| ==>
      AllPairs(queries, cands, score)[t].value.query in queries &&
      AllPairs(queries, cands, score)[t].value.candidate in cands &&
      AllPairs(queries, cands, score)[t].priority == score(AllPairs(queries, cands, score)[t].value.query, AllPairs(queries, cands, score)[t].value.candidate)
  {
    if queries != [] {
      var init := queries[..|queries| - 1];
      AllPairsFrom(init, cands, score);
      var front, row := AllPairs(init, cands, score), Row(queries[|queries| - 1], cands, score);
      var all: seq<Item<ColumnPair>> := front + row;
      forall t | 0 <= t < |all| ensures
        all[t].value.query in queries && all[t].value.candidate in cands &&
        all[t].priority == score(all[t].value.query, all[t].value.candidate)
      {
        if t < |front| {
          assert all[t] == front[t];
          assert front[t].value.query in init;
        } else {
          assert all[t] == row[t - |front|];
        }
      }
    }
  }

  /** the query columns of the kept pairs */
  function QueryCols(s: seq<Item<ColumnPair>>): set<int>
  {
    if s == [] then {} else QueryCols(s[..|s| - 1]) + {s[|s| - 1].value.query}
  }

  /** the candidate columns of the kept pairs */
  function CandCols(s: seq<Item<ColumnPair>>): set<int>
  {
    if s == [] then {} else CandCols(s[..|s| - 1]) + {s[|s| - 1].value.candidate}
  }

  /** W: the sum of the kept pairs' scores */
  function Weight(s: seq<Item<ColumnPair>>): real
  {
    if s == [] then 0.0 else Weight(s[..|s| - 1]) + s[|s| - 1].priority
  }

  /** the columns and the weight of one more kept pair */
  lemma KeptAppend(s: seq<Item<ColumnPair>>, x: Item<ColumnPair>)
    ensures QueryCols(s + [x]) == QueryCols(s) + {x.value.query}
    ensures CandCols(s + [x]) == CandCols(s) + {x.value.candidate}
    ensures Weight(s + [x]) == Weight(s) + x.priority
  {
    assert (s + [x])[..|s|] == s;
  }

  /** as written: a pair is kept when its query column is not yet matched
      and its candidate column index is not among the matched QUERY columns
      (the candidate side is never checked against `candidateMatched`) */
  function KeptAsWritten(pairs: seq<Item<ColumnPair>>): seq<Item<ColumnPair>>
  {
    if pairs == [] then []
    else
      var kept := KeptAsWritten(pairs[..|pairs| - 1]);
      var p := pairs[|pairs| - 1];
      if p.value.query !in QueryCols(kept) && p.value.candidate !in QueryCols(kept) then kept + [p] else kept
  }

  /** one step of the matching loop as written */
  lemma KeptAsWrittenStep(pairs: seq<Item<ColumnPair>>, n: nat)
    requires n < |pairs|
    ensures var kept, p := KeptAsWritten(pairs[..n]), pairs[n];
      KeptAsWritten(pairs[..n + 1]) ==
        if p.value.query !in QueryCols(kept) && p.value.candidate !in QueryCols(kept) then kept + [p] else kept
  {
    assert pairs[..n + 1][..n] == pairs[..n];
  }

  /** the mapping score: 0 when nothing matched, otherwise W over the number
      of columns of both tables less the matched ones */
  function MappingScore(kept: seq<Item<ColumnPair>>, numQuery: nat, numCand: nat): Float
  {
    if QueryCols(kept) == {} then Num(0.0)
    else Div(Weight(kept), (numQuery + numCand - |QueryCols(kept)|) as real)
  }

  /** A queue as large as the number of pushes keeps every pushed item. */
  lemma AllKept<T>(items: seq<Item<T>>, dropped: seq<Item<T>>, pushed: seq<Item<T>>, k: nat)
    requires TopKState(items, dropped, pushed, k) && |pushed| == k
    ensures multiset(items) == multiset(pushed)
  {
    assert |multiset(items) + multiset(dropped)| == |items| + |dropped|;
    assert |multiset(pushed)| == |pushed|;
    assert |dropped| == 0;
  }

  lemma PushStep<T>(before: seq<T>, row: seq<T>, j: nat)
    requires j < |row|
    ensures before + row[..j] + [row[j]] == before + row[..j + 1]
  {
    assert row[..j + 1] == row[..j] + [row[j]];
  }

  /** the nested loops of `computeSchemaConsistency`: pushes every column
      pair with its matching score */
  method PushAllPairs(schemaMapping: TopKQueue<ColumnPair>, qs: seq<int>, cs: seq<int>, matchingScore: (int, int) -> real)
    requires schemaMapping.Valid() && schemaMapping.HoldsTopK() && schemaMapping.pushed == []
    modifies schemaMapping
    ensures schemaMapping.Valid() && schemaMapping.HoldsTopK()
    ensures schemaMapping.pushed == AllPairs(qs, cs, matchingScore)
  {
    var i := 0;
    while i < |qs|
      invariant 0 <= i <= |qs|
      invariant schemaMapping.Valid() && schemaMapping.HoldsTopK()
      invariant schemaMapping.pushed == AllPairs(qs[..i], cs, matchingScore)
    {
      AllPairsStep(qs, i, cs, matchingScore);
      ghost var row := Row(qs[i], cs, matchingScore);
      ghost var before := schemaMapping.pushed;
      var j := 0;
      while j < |cs|
        invariant 0 <= j <= |cs|
        invariant schemaMapping.Valid() && schemaMapping.HoldsTopK()
        invariant schemaMapping.pushed == before + row[..j]
      {
        PushStep(before, row, j);
        schemaMapping.Push(ColumnPair(qs[i], cs[j]), matchingScore(qs[i], cs[j]));
        j := j + 1;
      }
      assert row[..j] == row;
      i := i + 1;
    }
    assert qs[..i] == qs;
  }

  /** one pass of the matching loop as written, on the matched query
      columns and the weight */
  lemma MatchStep(pairs: seq<Item<ColumnPair>>, n: nat, queryMatched: set<int>, w: real)
    requires n < |pairs|
    requires queryMatched == QueryCols(KeptAsWritten(pairs[..n])) && w == Weight(KeptAsWritten(pairs[..n]))
    ensures var p := pairs[n].value;
      var take := p.query !in queryMatched && p.candidate !in queryMatched;
      QueryCols(KeptAsWritten(pairs[..n + 1])) == (if take then queryMatched + {p.query} else queryMatched) &&
      Weight(KeptAsWritten(pairs[..n + 1])) == (if take then w + pairs[n].priority else w)
  {
    KeptAsWrittenStep(pairs, n);
    KeptAppend(KeptAsWritten(pairs[..n]), pairs[n]);
  }

  /** the matching loop of `computeSchemaConsistency`, as written */
  method MatchAsWritten(pairs: seq<Item<ColumnPair>>) returns (w: real, queryMatched: set<int>)
    ensures queryMatched == QueryCols(KeptAsWritten(pairs))
    ensures w == Weight(KeptAsWritten(pairs))
  {
    w := 0.0;
    queryMatched := {};
    var candidateMatched: set<int> := {};
    var n := 0;
    while n < |pairs|
      invariant 0 <= n <= |pairs|
      invariant queryMatched == QueryCols(KeptAsWritten(pairs[..n]))
      invariant w == Weight(KeptAsWritten(pairs[..n]))
    {
      var p := pairs[n].value;
      MatchStep(pairs, n, queryMatched, w);
      if p.query !in queryMatched {
        if p.candidate !in queryMatched {
          queryMatched := queryMatched + {p.query};
          candidateMatched := candidateMatched + {p.candidate};
          w := w + pairs[n].priority;
        }
      }
      n := n + 1;
    }
    assert pairs[..n] == pairs;
  }

  /** `computeSchemaConsistency` after the label scores: `shareEntities`
      reads the first text column of each table, so no query or no
      candidate text column panics; otherwise every column pair is pushed
      with its matching score into a TopKQueue that holds them all, popped
      highest score first, and matched greedily as written. Both branches
      of the value-consistency test push the same pair with the same
      score. */
  method SchemaConsistency(queryTextColumns: seq<int>, candidateTextColumns: seq<int>, matchingScore: (int, int) -> real)
    returns (r: Outcome<Float>, ghost order: seq<Item<ColumnPair>>)
    ensures r.Panic? <==> queryTextColumns == [] || candidateTextColumns == []
    ensures r.Value? ==> multiset(order) == multiset(AllPairs(queryTextColumns, candidateTextColumns, matchingScore))
    ensures r.Value? ==> SortedDesc(order)
    ensures r.Value? ==> r.value == MappingScore(KeptAsWritten(order), |queryTextColumns|, |candidateTextColumns|)
  {
    var qs, cs := queryTextColumns, candidateTextColumns;
    if |qs| == 0 || |cs| == 0 {
      return Panic("index out of range"), [];
    }
    AllPairsSize(qs, cs, matchingScore);
    var schemaMapping := new TopKQueue<ColumnPair>(|qs| * |cs|);
    PushAllPairs(schemaMapping, qs, cs, matchingScore);
    AllKept(schemaMapping.items, schemaMapping.dropped, schemaMapping.pushed, schemaMapping.k);
    var pairs := schemaMapping.Descending();
    order := pairs;
    var mappingScore := ScoreMatching(pairs, |qs|, |cs|);
    r := Value(mappingScore);
  }

  /** the end of `computeSchemaConsistency`: the matching of the ranked
      pairs and its score */
  method ScoreMatching(pairs: seq<Item<ColumnPair>>, numQuery: nat, numCand: nat) returns (mappingScore: Float)
    ensures mappingScore == MappingScore(KeptAsWritten(pairs), numQuery, numCand)
  {
    var w, queryMatched := MatchAsWritten(pairs);
    if |queryMatched| == 0 {
      return Num(0.0);
    }
    mappingScore := Div(w, (numQuery + numCand - |queryMatched|) as real);
  }

  /** corrected: a pair is kept when neither its query column nor its
      candidate column is matched yet, the greedy one-to-one matching the
      comment "compute max weight matching" intends */
  function KeptOneToOne(pairs: seq<Item<ColumnPair>>): seq<Item<ColumnPair>>
  {
    if pairs == [] then []
    else
      var kept := KeptOneToOne(pairs[..|pairs| - 1]);
      var p := pairs[|pairs| - 1];
      if p.value.query !in QueryCols(kept) && p.value.candidate !in CandCols(kept) then kept + [p] else kept
  }

  /** the pairs join query columns with candidate columns, scored in [0, 1] */
  predicate PairsWithin(pairs: seq<Item<ColumnPair>>, queries: seq<int>, cands: seq<int>)
  {
    forall t :: 0 <= t < |pairs| ==>
      pairs[t].value.query in queries && pairs[t].value.candidate in cands && 0.0 <= pairs[t].priority <= 1.0
  }

  /** The corrected matching uses each query column and each candidate
      column at most once, and its weight is at most one per pair. */
  lemma {:induction false} KeptOneToOneFacts(pairs: seq<Item<ColumnPair>>, queries: seq<int>, cands: seq<int>)
    requires PairsWithin(pairs, queries, cands)
    ensures var kept := KeptOneToOne(pairs);
      |QueryCols(kept)| == |kept| && |CandCols(kept)| == |kept| &&
      QueryCols(kept) <= (set q | q in queries) && CandCols(kept) <= (set c | c in cands) &&
      0.0 <= Weight(kept) <= |kept| as real
  {
    if pairs != [] {
      var init := pairs[..|pairs| - 1];
      var p := pairs[|pairs| - 1];
      assert PairsWithin(init, queries, cands) by {
        forall t | 0 <= t < |init| ensures init[t] == pairs[t] {
        }
      }
      KeptOneToOneFacts(init, queries, cands);
      var kept := KeptOneToOne(init);
      KeptAppend(kept, p);
    }
  }

  lemma {:induction false} SeqSetSize<T>(s: seq<T>)
    ensures |set x | x in s| <= |s|
  {
    if s != [] {
      var init := s[..|s| - 1];
      SeqSetSize(init);
      assert s == init + [s[|s| - 1]];
      assert (set x | x in s) == (set x | x in init) + {s[|s| - 1]};
    }
  }

  /** With scores in [0, 1], the corrected mapping score is a number in
      [0, 1]: at most min(|Q|, |C|) pairs match, so the denominator is at
      least the number of matches and each adds at most 1 to W. */
  lemma OneToOneScoreInUnitInterval(pairs: seq<Item<ColumnPair>>, queries: seq<int>, cands: seq<int>)
    requires PairsWithin(pairs, queries, cands)
    ensures MappingScore(KeptOneToOne(pairs), |queries|, |cands|).Num?
    ensures 0.0 <= MappingScore(KeptOneToOne(pairs), |queries|, |cands|).r <= 1.0
  {
    var kept := KeptOneToOne(pairs);
    KeptOneToOneFacts(pairs, queries, cands);
    var m := |kept|;
    if m > 0 {
      Unionability.SubsetSize(QueryCols(kept), set q | q in queries);
      Unionability.SubsetSize(CandCols(kept), set c | c in cands);
      SeqSetSize(queries);
      SeqSetSize(cands);
      var den := |queries| + |cands| - m;
      assert den >= m;
      assert Weight(kept) <= m as real <= den as real;
      Unionability.RealFraction(Weight(kept), den as real);
      assert QueryCols(kept) != {};
      assert MappingScore(kept, |queries|, |cands|) == Num(Weight(kept) / (den as real));
    } else {
      assert QueryCols(kept) == {};
    }
  }

  /** matching scores of the example: query column 0 matches candidate
      column 5 fully, query column 1 matches it half */
  function ExampleScore(q: int, c: int): real
  {
    if q == 0 then 1.0 else 0.5
  }

  lemma ExampleOrder(order: seq<Item<ColumnPair>>)
    requires multiset(order) == multiset(AllPairs([0, 1], [5], ExampleScore)) && SortedDesc(order)
    ensures order == [Item(ColumnPair(0, 5), 1.0), Item(ColumnPair(1, 5), 0.5)]
  {
    ExamplePairs();
    SortedPair(order, Item(ColumnPair(0, 5), 1.0), Item(ColumnPair(1, 5), 0.5));
  }

  lemma ExamplePairs()
    ensures AllPairs([0, 1], [5], ExampleScore) == [Item(ColumnPair(0, 5), 1.0), Item(ColumnPair(1, 5), 0.5)]
  {
    var x, y := Item(ColumnPair(0, 5), 1.0), Item(ColumnPair(1, 5), 0.5);
    assert [0, 1][..1] == [0] && [0][..0] == [];
    assert Row(0, [5], ExampleScore) == [x];
    assert Row(1, [5], ExampleScore) == [y];
  }

  /** the only order by non-increasing priority of two items of distinct
      priorities */
  lemma SortedPair<T>(order: seq<Item<T>>, x: Item<T>, y: Item<T>)
    requires multiset(order) == multiset([x, y]) && SortedDesc(order) && x.priority > y.priority
    ensures order == [x, y]
  {
    assert |order| == 2 by {
      assert |multiset(order)| == |order|;
    }
    assert order[0] in multiset(order) && order[1] in multiset(order);
    assert multiset(order) == multiset{order[0], order[1]} by {
      assert order == [order[0], order[1]];
    }
    assert order[0].priority >= order[1].priority;
  }

  lemma ExampleKept()
    ensures var x, y := Item(ColumnPair(0, 5), 1.0), Item(ColumnPair(1, 5), 0.5);
      KeptAsWritten([x, y]) == [x, y] && KeptOneToOne([x, y]) == [x]
  {
    var x, y := Item(ColumnPair(0, 5), 1.0), Item(ColumnPair(1, 5), 0.5);
    assert [x, y][..1] == [x] && [x][..0] == [];
    KeptAppend([], x);
    assert KeptAsWritten([x]) == [x];
    assert KeptOneToOne([x]) == [x];
    assert QueryCols([x]) == {0} && CandCols([x]) == {5};
  }

  lemma ExampleScores()
    ensures var x, y := Item(ColumnPair(0, 5), 1.0), Item(ColumnPair(1, 5), 0.5);
      MappingScore([x, y], 2, 1) == Num(1.5) && MappingScore([x], 2, 1) == Num(0.5)
  {
    var x, y := Item(ColumnPair(0, 5), 1.0), Item(ColumnPair(1, 5), 0.5);
    KeptAppend([], x);
    assert [x] == [] + [x];
    KeptAppend([x], y);
    assert [x, y] == [x] + [y];
    assert QueryCols([x, y]) == {0, 1} && |QueryCols([x, y])| == 2;
    assert Weight([x, y]) == 1.5;
  }

  /** Two query columns that both match the same candidate column are both
      matched as written: W = 1.5 over 2 + 1 - 2 columns gives a schema
      consistency of 1.5. The corrected matching keeps one pair: 1 / 2. */
  lemma SchemaAsWrittenAboveOne(order: seq<Item<ColumnPair>>)
    requires multiset(order) == multiset(AllPairs([0, 1], [5], ExampleScore)) && SortedDesc(order)
    ensures MappingScore(KeptAsWritten(order), 2, 1) == Num(1.5)
    ensures MappingScore(KeptOneToOne(order), 2, 1) == Num(0.5)
  {
    ExampleOrder(order);
    ExampleKept();
    ExampleScores();
  }
}
