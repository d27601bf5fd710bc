/** opendata/unionability.go: the value helpers of the set and semantic
    unionability measures (`unique`, `differenceAndIntersection`,
    `getWords`, `findEntities`, `countWordEntity`, `getJaccard`,
    `getContainment`) and the greedy k-alignment of `alignTables`. */
module Unionability {
  import opened Wrappers
  import opened GoStrings

  // ---------------------------------------------------------------
  // unique
  // ---------------------------------------------------------------

  predicate NoDuplicates<T(==)>(s: seq<T>)
  {
    forall i, j :: 0 <= i < j < |s| ==> s[i] != s[j]
  }

  /** no element occurs twice, that is, none has multiplicity above 1 */
  lemma {:induction false} NoDuplicatesCount<T>(s: seq<T>)
    ensures NoDuplicates(s) <==> forall x :: multiset(s)[x] <= 1
  {
    if s != [] {
      var init, last := s[..|s| - 1], s[|s| - 1];
      NoDuplicatesCount(init);
      assert s == init + [last];
      if NoDuplicates(s) {
        assert NoDuplicates(init) by {
          forall i, j | 0 <= i < j < |init| ensures init[i] != init[j] {
            assert init[i] == s[i] && init[j] == s[j];
          }
        }
        assert last !in init;
      }
      if forall x :: multiset(s)[x] <= 1 {
        forall x ensures multiset(init)[x] <= 1 {
          assert multiset(s)[x] >= multiset(init)[x];
        }
        assert multiset(s) == multiset(init) + multiset{last};
        assert multiset(s)[last] <= 1;
        assert multiset(init)[last] == 0;
        forall i, j | 0 <= i < j < |s| ensures s[i] != s[j] {
          if j == |s| - 1 {
            assert s[i] == init[i];
          } else {
            assert s[i] == init[i] && s[j] == init[j];
          }
        }
      }
    }
  }

  /** the position of the first occurrence of v */
  function FirstIndex<T(==)>(s: seq<T>, v: T): (i: nat)
    requires v in s
    ensures i < |s| && s[i] == v && v !in s[..i]
  {
    if s[0] == v then 0
    else
      var j := FirstIndex(s[1..], v);
      assert s[..j + 1] == [s[0]] + s[1..][..j];
      j + 1
  }

  /** position i holds the first occurrence of s[i] */
  lemma FirstIndexAt<T>(s: seq<T>, i: nat)
    requires i < |s| && s[i] !in s[..i]
    ensures FirstIndex(s, s[i]) == i
  {
  }

  /** a value seen in the first i positions first occurs before i */
  lemma FirstIndexBefore<T>(s: seq<T>, v: T, i: nat)
    requires i <= |s| && v in s[..i]
    ensures FirstIndex(s, v) < i
  {
  }

  /** `unique`: the distinct values, each at its first occurrence, in input
      order */
  method Unique(values: seq<string>) returns (uniq: seq<string>)
    ensures NoDuplicates(uniq)
    ensures forall v :: v in uniq <==> v in values
    ensures forall a, b :: 0 <= a < b < |uniq| ==> FirstIndex(values, uniq[a]) < FirstIndex(values, uniq[b])
  {
    var seen: set<string> := {};
    uniq := [];
    var i := 0;
    while i < |values|
      invariant 0 <= i <= |values|
      invariant forall v :: v in seen <==> v in values[..i]
      invariant forall v :: v in uniq <==> v in values[..i]
      invariant NoDuplicates(uniq)
      invariant forall a :: 0 <= a < |uniq| ==> uniq[a] in values && FirstIndex(values, uniq[a]) < i
      invariant forall a, b :: 0 <= a < b < |uniq| ==> FirstIndex(values, uniq[a]) < FirstIndex(values, uniq[b])
    {
      var v := values[i];
      assert values[..i + 1] == values[..i] + [v];
      if v !in seen {
        FirstIndexAt(values, i);
        uniq := uniq + [v];
      }
      seen := seen + {v};
      forall a | 0 <= a < |uniq| ensures FirstIndex(values, uniq[a]) < i + 1 {
        assert uniq[a] in values[..i + 1];
        FirstIndexBefore(values, uniq[a], i + 1);
      }
      i := i + 1;
    }
    assert values[..i] == values;
  }

  // ---------------------------------------------------------------
  // differenceAndIntersection
  // ---------------------------------------------------------------

  /** the values of s that occur (or do not occur) in other, in order */
  function Present(s: seq<string>, other: seq<string>, wanted: bool): (r: seq<string>)
    ensures |r| <= |s|
  {
    if s == [] then []
    else Present(s[..|s| - 1], other, wanted) + (if (s[|s| - 1] in other) == wanted then [s[|s| - 1]] else [])
  }

  lemma {:induction false} PresentSplits(s: seq<string>, other: seq<string>)
    ensures |Present(s, other, false)| + |Present(s, other, true)| == |s|
    ensures forall v :: v in Present(s, other, true) <==> v in s && v in other
    ensures forall v :: v in Present(s, other, false) <==> v in s && v !in other
  {
    if s != [] {
      var init := s[..|s| - 1];
      PresentSplits(init, other);
      assert s == init + [s[|s| - 1]];
    }
  }

  /** `differenceAndIntersection`: values1 split, order kept, into values
      absent from values2 and values present in it */
  method DifferenceAndIntersection(values1: seq<string>, values2: seq<string>) returns (diff: seq<string>, intersect: seq<string>)
    ensures diff == Present(values1, values2, false) && intersect == Present(values1, values2, true)
  {
    diff, intersect := [], [];
    var i := 0;
    while i < |values1|
      invariant 0 <= i <= |values1|
      invariant diff == Present(values1[..i], values2, false) && intersect == Present(values1[..i], values2, true)
    {
      var v1 := values1[i];
      var found := false;
      var j := 0;
      while j < |values2|
        invariant 0 <= j <= |values2|
        invariant !found ==> v1 !in values2[..j]
        invariant found ==> v1 in values2
        invariant intersect == Present(values1[..i], values2, true) + (if found then [v1] else [])
      {
        if v1 == values2[j] {
          found := true;
          intersect := intersect + [v1];
          break;
        }
        assert values2[..j + 1] == values2[..j] + [values2[j]];
        j := j + 1;
      }
      if !found {
        assert values2[..j] == values2;
        diff := diff + [v1];
      }
      assert values1[..i + 1][..i] == values1[..i];
      i := i + 1;
    }
    assert values1[..i] == values1;
  }

  /** Every value goes to exactly one side. */
  lemma DifferenceAndIntersectionSplit(values1: seq<string>, values2: seq<string>)
    ensures |Present(values1, values2, false)| + |Present(values1, values2, true)| == |values1|
    ensures forall v :: v in Present(values1, values2, true) <==> v in values1 && v in values2
    ensures forall v :: v in Present(values1, values2, false) <==> v in values1 && v !in values2
  {
    PresentSplits(values1, values2);
  }

  // ---------------------------------------------------------------
  // getJaccard, getContainment
  // ---------------------------------------------------------------

  /** `getJaccard`: |I| / (|Q| + |C| - |I|) as float64 */
  function GetJaccard(query: seq<string>, candidate: seq<string>, intersection: seq<string>): (r: Float)
    ensures |query| + |candidate| - |intersection| != 0 ==>
      r == Num((|intersection| as real) / ((|query| + |candidate| - |intersection|) as real))
  {
    Div(|intersection| as real, (|query| + |candidate| - |intersection|) as real)
  }

  /** `getContainment`: |I| / |Q| as float64 */
  function GetContainment(query: seq<string>, candidate: seq<string>, intersection: seq<string>): (r: Float)
    ensures query != [] ==> r == Num((|intersection| as real) / (|query| as real))
    ensures query == [] ==> (r == NaN <==> intersection == [])
  {
    Div(|intersection| as real, |query| as real)
  }

  /** the number of distinct values is at most the length */
  lemma {:induction false} DistinctAtMost(s: seq<string>)
    ensures |set v | v in s| <= |s|
    ensures NoDuplicates(s) ==> |set v | v in s| == |s|
  {
    if s != [] {
      var init := s[..|s| - 1];
      DistinctAtMost(init);
      assert s == init + [s[|s| - 1]];
      assert (set v | v in s) == (set v | v in init) + {s[|s| - 1]};
      if NoDuplicates(s) {
        assert NoDuplicates(init) by {
          forall i, j | 0 <= i < j < |init| ensures init[i] != init[j] {
            assert init[i] == s[i] && init[j] == s[j];
          }
        }
        assert s[|s| - 1] !in init;
      }
    }
  }

  /** For duplicate-free query and candidate values (as `unique` makes
      them), the intersection from `differenceAndIntersection` makes both
      measures fractions in [0, 1], and the Jaccard denominator is nonzero
      unless both sides are empty. */
  lemma MeasuresInUnitInterval(query: seq<string>, candidate: seq<string>)
    requires NoDuplicates(query) && NoDuplicates(candidate)
    ensures var i := Present(query, candidate, true);
      var den := |query| + |candidate| - |i|;
      (den == 0 <==> query == [] && candidate == []) &&
      (den != 0 ==> 0.0 <= GetJaccard(query, candidate, i).r <= 1.0) &&
      (query != [] ==> 0.0 <= GetContainment(query, candidate, i).r <= 1.0)
  {
    var i := Present(query, candidate, true);
    IntersectionSize(query, candidate);
    var den := |query| + |candidate| - |i|;
    if den != 0 {
      Fraction(|i|, den);
    }
    if query != [] {
      Fraction(|i|, |query|);
    }
  }

  lemma Fraction(a: nat, b: int)
    requires a <= b && b != 0
    ensures 0.0 <= (a as real) / (b as real) <= 1.0
  {
    RealFraction(a as real, b as real);
  }

  lemma RealFraction(a: real, b: real)
    requires 0.0 <= a <= b && b > 0.0
    ensures 0.0 <= a / b <= 1.0
  {
    var q := a / b;
    assert q * b == a;
  }

  /** The intersection is no longer than either duplicate-free side. */
  lemma IntersectionSize(query: seq<string>, candidate: seq<string>)
    requires NoDuplicates(query) && NoDuplicates(candidate)
    ensures |Present(query, candidate, true)| <= |query| && |Present(query, candidate, true)| <= |candidate|
  {
    var i := Present(query, candidate, true);
    PresentSplits(query, candidate);
    PresentNoDuplicates(query, candidate);
    DistinctAtMost(i);
    DistinctAtMost(candidate);
    SubsetSize(set v | v in i, set v | v in candidate);
  }

  lemma SubsetSize<T>(a: set<T>, b: set<T>)
    requires a <= b
    ensures |a| <= |b|
  {
    if a != {} {
      var x :| x in a;
      SubsetSize(a - {x}, b - {x});
    }
  }

  lemma ProperSubsetSize<T>(a: set<T>, b: set<T>)
    requires a < b
    ensures |a| < |b|
  {
    assert b == a + (b - a);
    var x :| x in b && x !in a;
    assert x in b - a;
  }

  lemma {:induction false} PresentNoDuplicates(s: seq<string>, other: seq<string>)
    requires NoDuplicates(s)
    ensures NoDuplicates(Present(s, other, true))
  {
    if s != [] {
      var init := s[..|s| - 1];
      assert NoDuplicates(init) by {
        forall i, j | 0 <= i < j < |init| ensures init[i] != init[j] {
          assert init[i] == s[i] && init[j] == s[j];
        }
      }
      PresentNoDuplicates(init, other);
      PresentSplits(init, other);
      assert s == init + [s[|s| - 1]];
      assert s[|s| - 1] !in init;
    }
  }

  // ---------------------------------------------------------------
  // getWords
  // ---------------------------------------------------------------

  /** a character the pattern `[^a-z]` matches */
  predicate NotLetter(c: char)
  {
    !IsLowerLetter(c)
  }

  /** drops the leading run of non-letters */
  function DropRun(s: string): (r: string)
    ensures |r| <= |s|
    ensures r != [] ==> IsLowerLetter(r[0])
  {
    if s != [] && NotLetter(s[0]) then DropRun(s[1..]) else s
  }

  /** `notLetter.ReplaceAll(x, " ")`: each maximal run of non-letters
      becomes one space */
  function ReplaceRuns(s: string): (r: string)
    ensures forall i :: 0 <= i < |r| ==> IsLowerLetter(r[i]) || r[i] == ' '
    decreases |s|
  {
    if s == [] then []
    else if IsLowerLetter(s[0]) then [s[0]] + ReplaceRuns(s[1..])
    else [' '] + ReplaceRuns(DropRun(s[1..]))
  }

  /** The replacement keeps every letter in order and never yields two
      spaces side by side. */
  lemma {:induction false} ReplaceRunsShape(s: string)
    ensures Keep(ReplaceRuns(s), NotLetter) == Keep(s, NotLetter)
    ensures forall i :: 0 <= i < |ReplaceRuns(s)| - 1 ==> ReplaceRuns(s)[i] != ' ' || ReplaceRuns(s)[i + 1] != ' '
    decreases |s|
  {
    if s != [] {
      if IsLowerLetter(s[0]) {
        ReplaceRunsShape(s[1..]);
      } else {
        var d := DropRun(s[1..]);
        ReplaceRunsShape(d);
        DropRunKeeps(s[1..]);
        var r := ReplaceRuns(s);
        forall i | 0 <= i < |r| - 1 ensures r[i] != ' ' || r[i + 1] != ' ' {
          if i == 0 {
            assert r[1] == ReplaceRuns(d)[0];
            assert d != [] && IsLowerLetter(d[0]);
          } else {
            assert r[i] == ReplaceRuns(d)[i - 1] && r[i + 1] == ReplaceRuns(d)[i];
          }
        }
      }
    }
  }

  lemma {:induction false} DropRunKeeps(s: string)
    ensures Keep(DropRun(s), NotLetter) == Keep(s, NotLetter)
  {
    if s != [] && NotLetter(s[0]) {
      DropRunKeeps(s[1..]);
    }
  }

  /** the pieces of length at least 3 */
  function Long(parts: seq<string>): (r: seq<string>)
    ensures forall i :: 0 <= i < |r| ==> |r[i]| >= 3
  {
    if parts == [] then []
    else Long(parts[..|parts| - 1]) + (if |parts[|parts| - 1]| >= 3 then [parts[|parts| - 1]] else [])
  }

  lemma {:induction false} LongConcat(a: seq<string>, b: seq<string>)
    ensures Long(a + b) == Long(a) + Long(b)
  {
    if b != [] {
      LongConcat(a, b[..|b| - 1]);
      assert (a + b)[..|a + b| - 1] == a + b[..|b| - 1];
    } else {
      assert a + b == a;
    }
  }

  /** w put in front of the first piece */
  function Prepend(w: string, parts: seq<string>): seq<string>
    requires |parts| >= 1
  {
    [w + parts[0]] + parts[1..]
  }

  lemma PrependEmpty(parts: seq<string>)
    requires |parts| >= 1
    ensures Prepend([], parts) == parts
  {
    assert [] + parts[0] == parts[0];
    assert parts == [parts[0]] + parts[1..];
  }

  lemma {:induction false} LongSkipsRun(s: string)
    ensures Long(SplitWhere(s, NotLetter)) == Long(Prepend([], SplitWhere(DropRun(s), NotLetter)))
    ensures Long(SplitWhere(DropRun(s), NotLetter)) == Long(Prepend([], SplitWhere(DropRun(s), NotLetter)))
  {
    var t := SplitWhere(DropRun(s), NotLetter);
    PrependEmpty(t);
    if s != [] && NotLetter(s[0]) {
      LongSkipsRun(s[1..]);
      LongConcat([[]], SplitWhere(s[1..], NotLetter));
    }
  }

  /** Splitting the replaced string on spaces keeps the same long pieces
      as cutting the original at every non-letter. */
  lemma {:induction false} PiecesAgree(w: string, s: string)
    ensures Long(Prepend(w, Split(ReplaceRuns(s), ' '))) == Long(Prepend(w, SplitWhere(s, NotLetter)))
    decreases |s|
  {
    if s == [] {
    } else if IsLowerLetter(s[0]) {
      var t := s[1..];
      PiecesAgree(w + [s[0]], t);
      var a := Split(ReplaceRuns(t), ' ');
      var b := SplitWhere(t, NotLetter);
      assert ReplaceRuns(s) == [s[0]] + ReplaceRuns(t);
      assert Split(ReplaceRuns(s), ' ') == [[s[0]] + a[0]] + a[1..];
      PrependCons(w, s[0], a);
      assert SplitWhere(s, NotLetter) == [[s[0]] + b[0]] + b[1..];
      PrependCons(w, s[0], b);
    } else {
      var d := DropRun(s[1..]);
      PiecesAgree([], d);
      var a := Split(ReplaceRuns(d), ' ');
      assert ReplaceRuns(s) == [' '] + ReplaceRuns(d);
      assert Split(ReplaceRuns(s), ' ') == [[]] + a;
      PrependEmptyHead(w, a);
      LongConcat([w], Prepend([], a));
      var b := SplitWhere(s[1..], NotLetter);
      assert SplitWhere(s, NotLetter) == [[]] + b;
      PrependEmptyHead(w, b);
      PrependEmpty(b);
      LongConcat([w], b);
      LongSkipsRun(s[1..]);
    }
  }

  lemma PrependCons(w: string, c: char, a: seq<string>)
    requires |a| >= 1
    ensures Prepend(w, [[c] + a[0]] + a[1..]) == Prepend(w + [c], a)
  {
    assert w + ([c] + a[0]) == (w + [c]) + a[0];
    assert ([[c] + a[0]] + a[1..])[1..] == a[1..];
  }

  lemma PrependEmptyHead(w: string, a: seq<string>)
    requires |a| >= 1
    ensures Prepend(w, [[]] + a) == [w] + Prepend([], a)
  {
    PrependEmpty(a);
    assert w + [] == w;
    assert ([[]] + a)[1..] == a;
  }

  /** a piece with no space is its own `strings.TrimSpace` */
  lemma TrimSpaceNoSpace(w: string)
    requires forall i :: 0 <= i < |w| ==> IsLowerLetter(w[i])
    ensures TrimSpace(w) == w
  {
    if w != [] {
      assert IsLowerLetter(w[0]) && IsLowerLetter(w[|w| - 1]);
    }
    TrimUntouched(w, IsSpace);
  }

  lemma {:induction false} SplitPiecesLetters(s: string)
    requires forall i :: 0 <= i < |s| ==> IsLowerLetter(s[i]) || s[i] == ' '
    ensures forall i, j :: 0 <= i < |Split(s, ' ')| && 0 <= j < |Split(s, ' ')[i]| ==> IsLowerLetter(Split(s, ' ')[i][j])
  {
    if s != [] {
      SplitPiecesLetters(s[1..]);
      var rest := Split(s[1..], ' ');
      var r := Split(s, ' ');
      if s[0] != ' ' {
        forall i, j | 0 <= i < |r| && 0 <= j < |r[i]| ensures IsLowerLetter(r[i][j]) {
          if i == 0 {
            if j > 0 { assert r[0][j] == rest[0][j - 1]; }
          } else {
            assert r[i] == rest[i];
          }
        }
      }
    }
  }

  /** one piece of the split replaced string is all letters */
  lemma PieceLetters(y: string, i: nat)
    requires forall k :: 0 <= k < |y| ==> IsLowerLetter(y[k]) || y[k] == ' '
    requires i < |Split(y, ' ')|
    ensures forall j :: 0 <= j < |Split(y, ' ')[i]| ==> IsLowerLetter(Split(y, ' ')[i][j])
  {
    SplitPiecesLetters(y);
  }

  /** The long pieces are words of letters. */
  lemma WordsOf(lower: string)
    ensures Long(Split(ReplaceRuns(lower), ' ')) == Long(SplitWhere(lower, NotLetter))
    ensures forall i :: 0 <= i < |Long(SplitWhere(lower, NotLetter))| ==>
      forall j :: 0 <= j < |Long(SplitWhere(lower, NotLetter))[i]| ==> IsLowerLetter(Long(SplitWhere(lower, NotLetter))[i][j])
  {
    PiecesAgree([], lower);
    PrependEmpty(Split(ReplaceRuns(lower), ' '));
    PrependEmpty(SplitWhere(lower, NotLetter));
    SplitWherePartsClean(lower, NotLetter);
    LongPieces(SplitWhere(lower, NotLetter));
    var ws := Long(SplitWhere(lower, NotLetter));
    forall i | 0 <= i < |ws| ensures forall j :: 0 <= j < |ws[i]| ==> IsLowerLetter(ws[i][j]) {
      assert ws[i] in SplitWhere(lower, NotLetter);
    }
  }

  /** `getWords`: the lowercased value cut at every non-letter, keeping the
      words of at least 3 letters */
  method GetWords(x: string) returns (result: seq<string>)
    ensures result == Long(SplitWhere(ToLower(x), NotLetter))
    ensures forall i :: 0 <= i < |result| ==> |result[i]| >= 3 && forall j :: 0 <= j < |result[i]| ==> IsLowerLetter(result[i][j])
  {
    var lower := ToLower(x);
    var y := ReplaceRuns(lower);
    var parts := Split(y, ' ');
    result := [];
    var i := 0;
    while i < |parts|
      invariant 0 <= i <= |parts|
      invariant result == Long(parts[..i])
    {
      var w := parts[i];
      PieceLetters(y, i);
      TrimSpaceNoSpace(w);
      w := TrimSpace(w);
      assert parts[..i + 1][..i] == parts[..i];
      if |w| >= 3 {
        result := result + [w];
      }
      i := i + 1;
    }
    assert parts[..i] == parts;
    WordsOf(lower);
  }

  lemma {:induction false} LongPieces(parts: seq<string>)
    ensures forall v :: v in Long(parts) ==> v in parts
  {
    if parts != [] {
      LongPieces(parts[..|parts| - 1]);
    }
  }

  // ---------------------------------------------------------------
  // findEntities, countWordEntity
  // ---------------------------------------------------------------

  /** `lookup[w]`: the entities a word names (absent words name none) */
  function Named(lookup: map<string, set<string>>, w: string): set<string>
  {
    if w in lookup then lookup[w] else {}
  }

  /** `counts[ent]` (0 when absent) */
  function CountOf(counts: map<string, int>, ent: string): int
  {
    if ent in counts then counts[ent] else 0
  }

  /** the number of words naming ent */
  function Naming(words: seq<string>, ent: string, lookup: map<string, set<string>>): (n: nat)
    ensures n <= |words|
  {
    if words == [] then 0
    else Naming(words[..|words| - 1], ent, lookup) + (if ent in Named(lookup, words[|words| - 1]) then 1 else 0)
  }

  /** All words name ent exactly when the count reaches the number of
      words. */
  lemma {:induction false} NamingAll(words: seq<string>, ent: string, lookup: map<string, set<string>>)
    ensures Naming(words, ent, lookup) == |words| <==> forall i :: 0 <= i < |words| ==> ent in Named(lookup, words[i])
  {
    if words != [] {
      var init := words[..|words| - 1];
      NamingAll(init, ent, lookup);
      assert forall i :: 0 <= i < |init| ==> init[i] == words[i];
    }
  }

  /** `countWordEntity` */
  method CountWordEntity(words: seq<string>, ent: string, lookup: map<string, set<string>>) returns (count: nat)
    ensures count == Naming(words, ent, lookup)
    ensures count == |words| <==> forall i :: 0 <= i < |words| ==> ent in Named(lookup, words[i])
  {
    count := 0;
    var i := 0;
    while i < |words|
      invariant 0 <= i <= |words|
      invariant count == Naming(words[..i], ent, lookup)
    {
      assert words[..i + 1][..i] == words[..i];
      if ent in Named(lookup, words[i]) {
        count := count + 1;
      }
      i := i + 1;
    }
    assert words[..i] == words;
    NamingAll(words, ent, lookup);
  }

  /** `findEntities`: nothing for no words; otherwise the entities of the
      first word that every word names and whose count is the number of
      words, each once (in map iteration order, which Go leaves
      unspecified) */
  method FindEntities(words: seq<string>, lookup: map<string, set<string>>, counts: map<string, int>) returns (ents: seq<string>)
    ensures words == [] ==> ents == []
    ensures NoDuplicates(ents)
    ensures forall ent :: ent in ents <==>
      words != [] && (forall i :: 0 <= i < |words| ==> ent in Named(lookup, words[i])) && CountOf(counts, ent) == |words|
  {
    ents := [];
    var n := |words|;
    if n > 0 {
      var remaining := Named(lookup, words[0]);
      ghost var visited: set<string> := {};
      while remaining != {}
        invariant remaining + visited == Named(lookup, words[0]) && remaining !! visited
        invariant EntitiesVisited(words, lookup, counts, ents, visited)
        decreases |remaining|
      {
        var ent :| ent in remaining;
        ents := VisitEntity(words, lookup, counts, ent, visited, ents);
        remaining := remaining - {ent};
        visited := visited + {ent};
      }
      forall ent | ent in ents || (CommonEntity(words, lookup, counts, ent) && words != [])
        ensures ent in ents <==> CommonEntity(words, lookup, counts, ent)
      {
        if CommonEntity(words, lookup, counts, ent) {
          assert ent in Named(lookup, words[0]);
        }
      }
    }
  }

  /** every word names the entity, and its count is the word count */
  predicate CommonEntity(words: seq<string>, lookup: map<string, set<string>>, counts: map<string, int>, ent: string)
  {
    (forall i :: 0 <= i < |words| ==> ent in Named(lookup, words[i])) && CountOf(counts, ent) == |words|
  }

  /** the entities found, each once, are the common ones among those
      visited */
  ghost predicate EntitiesVisited(words: seq<string>, lookup: map<string, set<string>>, counts: map<string, int>,
                                  ents: seq<string>, visited: set<string>)
  {
    NoDuplicates(ents) &&
    forall ent :: ent in ents <==> ent in visited && CommonEntity(words, lookup, counts, ent)
  }

  /** one entity of the first word's entities checked against the others */
  method VisitEntity(words: seq<string>, lookup: map<string, set<string>>, counts: map<string, int>, ent: string,
                     ghost visited: set<string>, ents: seq<string>) returns (ents': seq<string>)
    requires EntitiesVisited(words, lookup, counts, ents, visited) && ent !in visited
    ensures EntitiesVisited(words, lookup, counts, ents', visited + {ent})
  {
    var c := CountWordEntity(words, ent, lookup);
    if c == |words| && CountOf(counts, ent) == |words| {
      ents' := ents + [ent];
      assert ent !in ents;
    } else {
      ents' := ents;
    }
  }


  // ---------------------------------------------------------------
  // alignTables (greedy k-alignment)
  // ---------------------------------------------------------------

  /** `minK` and `maxK` */
  const MinK := 1
  const MaxK := 10

  /** a row of the column-unionability query: (column1, column2, score) */
  datatype Row = Row(column1: int, column2: int, score: real)

  /** the fields of `tableUnionability` */
  datatype TableUnionability = TableUnionability(table1: string, table2: string, measure: string, score: real, k: int)

  /** the rows accepted so far use distinct columns on both sides */
  predicate Disjoint(rows: seq<Row>)
  {
    forall i, j :: 0 <= i < j < |rows| ==> rows[i].column1 != rows[j].column1 && rows[i].column2 != rows[j].column2
  }

  function Sources(rows: seq<Row>): set<int>
  {
    set i | 0 <= i < |rows| :: rows[i].column1
  }

  function Dests(rows: seq<Row>): set<int>
  {
    set i | 0 <= i < |rows| :: rows[i].column2
  }

  lemma EndsAppend(rows: seq<Row>, r: Row)
    ensures Sources(rows + [r]) == Sources(rows) + {r.column1}
    ensures Dests(rows + [r]) == Dests(rows) + {r.column2}
  {
    var t := rows + [r];
    assert forall i :: 0 <= i < |rows| ==> t[i] == rows[i];
    assert t[|rows|] == r;
  }

  /** the rows the greedy loop of `alignTables` accepts, in row order: a
      row is kept when neither of its columns is used by the rows kept
      before it */
  function FirstFit(rows: seq<Row>): seq<Row>
  {
    if rows == [] then []
    else
      var kept := FirstFit(rows[..|rows| - 1]);
      var r := rows[|rows| - 1];
      if r.column1 !in Sources(kept) && r.column2 !in Dests(kept) then kept + [r] else kept
  }

  lemma FirstFitStep(rows: seq<Row>, i: nat)
    requires i < |rows|
    ensures var kept := FirstFit(rows[..i]);
      FirstFit(rows[..i + 1]) == if rows[i].column1 !in Sources(kept) && rows[i].column2 !in Dests(kept) then kept + [rows[i]] else kept
  {
    assert rows[..i + 1][..i] == rows[..i];
  }

  /** The kept rows use distinct columns on both sides, and every row
      shares a column with a kept one. */
  lemma {:induction false} FirstFitMaximal(rows: seq<Row>)
    ensures Disjoint(FirstFit(rows)) && forall r :: r in FirstFit(rows) ==> r in rows
    ensures forall m :: 0 <= m < |rows| ==> rows[m].column1 in Sources(FirstFit(rows)) || rows[m].column2 in Dests(FirstFit(rows))
  {
    if rows != [] {
      var init := rows[..|rows| - 1];
      var kept := FirstFit(init);
      var r := rows[|rows| - 1];
      FirstFitMaximal(init);
      if r.column1 !in Sources(kept) && r.column2 !in Dests(kept) {
        AcceptDisjoint(kept, r);
        EndsAppend(kept, r);
      }
      forall m | 0 <= m < |rows| ensures rows[m].column1 in Sources(FirstFit(rows)) || rows[m].column2 in Dests(FirstFit(rows)) {
        if m < |init| {
          assert rows[m] == init[m];
        }
      }
      forall x | x in FirstFit(rows) ensures x in rows {
        if x in kept {
          var j :| 0 <= j < |init| && init[j] == x;
          assert rows[j] == x;
        }
      }
    }
  }

  /** the greedy loop of `alignTables` over the rows of the query (the
      SQL query itself is left out): a row is accepted only if both its
      columns are unused, and the k-th accepted row is emitted, with that
      k, when `minK <= k <= maxK` */
  method AlignTables(table1: string, table2: string, measure: string, rows: seq<Row>)
    returns (out: seq<TableUnionability>, ghost accepted: seq<Row>)
    ensures Disjoint(accepted) && forall r :: r in accepted ==> r in rows
    ensures forall r :: r in rows ==> r.column1 in Sources(accepted) || r.column2 in Dests(accepted)
    ensures accepted == FirstFit(rows)
    ensures |out| == if |accepted| < MaxK then |accepted| else MaxK
    ensures forall i :: 0 <= i < |out| ==>
      out[i] == TableUnionability(table1, table2, measure, accepted[i].score, i + 1)
  {
    var source: set<int> := {};
    var dest: set<int> := {};
    var k := 0;
    out := [];
    accepted := [];
    var i := 0;
    while i < |rows|
      invariant 0 <= i <= |rows|
      invariant source == Sources(accepted) && dest == Dests(accepted) && k == |accepted|
      invariant accepted == FirstFit(rows[..i])
      invariant |out| == if k < MaxK then k else MaxK
      invariant forall j :: 0 <= j < |out| ==> out[j] == TableUnionability(table1, table2, measure, accepted[j].score, j + 1)
    {
      var row := rows[i];
      FirstFitStep(rows, i);
      if row.column1 !in source {
        if row.column2 !in dest {
          k := k + 1;
          EndsAppend(accepted, row);
          accepted := accepted + [row];
          source := source + {row.column1};
          dest := dest + {row.column2};
          if k >= MinK && k <= MaxK {
            out := out + [TableUnionability(table1, table2, measure, row.score, k)];
          }
        }
      }
      i := i + 1;
    }
    assert rows[..i] == rows;
    FirstFitMaximal(rows);
  }

  lemma AcceptDisjoint(accepted: seq<Row>, r: Row)
    requires Disjoint(accepted) && r.column1 !in Sources(accepted) && r.column2 !in Dests(accepted)
    ensures Disjoint(accepted + [r])
  {
    var a := accepted + [r];
    forall i, j | 0 <= i < j < |a| ensures a[i].column1 != a[j].column1 && a[i].column2 != a[j].column2 {
      assert a[i] == accepted[i];
      if j < |accepted| {
        assert a[j] == accepted[j];
      } else {
        assert accepted[i].column1 in Sources(accepted) && accepted[i].column2 in Dests(accepted);
      }
    }
  }
}
