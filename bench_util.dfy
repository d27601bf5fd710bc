/** benchmarkserver/util.go: column identifiers, domain file names, value
    classification, signature similarity and value tokenisation. */
module BenchUtil {
  import opened Wrappers
  import opened GoStrings

  // ---------------------------------------------------------------
  // Column identifiers  "<tableID>:<columnIndex>"
  // ---------------------------------------------------------------

  function ToColumnID(tableID: string, columnIndex: int): (id: string)
    ensures |id| > |tableID| && HasPrefix(id, tableID) && id[|tableID|] == ':'
  {
    tableID + ":" + Itoa(columnIndex)
  }

  /** Panics unless the identifier has exactly one ':' and the text after it
      is a decimal integer. */
  function FromColumnID(id: string): (r: Outcome<(string, int)>)
    ensures r.Value? <==> |Split(id, ':')| == 2 && Atoi(Split(id, ':')[1]).Ok?
    ensures r.Value? ==> CountChar(id, ':') == 1
    ensures r.Value? ==> ':' !in r.value.0 && HasPrefix(id, r.value.0 + ":")
  {
    var items := Split(id, ':');
    SplitCount(id, ':');
    if |items| != 2 then Panic("Malformed Column ID: " + id)
    else
      var n := Atoi(items[1]);
      if n.Err? then Panic("Malformed Column ID: " + id)
      else
        SplitPartsLackSep(id, ':');
        JoinSplit(id, ':');
        assert id == items[0] + [':'] + items[1];
        Value((items[0], n.value))
  }

  lemma FromColumnIDOfToColumnID(tableID: string, columnIndex: Int64)
    requires ':' !in tableID
    ensures FromColumnID(ToColumnID(tableID, columnIndex)) == Value((tableID, columnIndex))
  {
    var digits := Itoa(columnIndex);
    assert ToColumnID(tableID, columnIndex) == tableID + [':'] + digits;
    SplitConcat(tableID, ':', digits);
    SplitWithoutSep(tableID, ':');
    SplitWithoutSep(digits, ':');
    SplitCount(ToColumnID(tableID, columnIndex), ':');
    AtoiItoa(columnIndex);
  }

  // ---------------------------------------------------------------
  // Domain file names  "<domainDir>/<tableID>/<columnIndex>.<ext>"
  // ---------------------------------------------------------------

  /** The table is the directory with `domainDir` and then one '/' removed;
      the column index is the base name without its extension, and a base
      name that is not an integer panics. */
  function ParseFilename(domainDir: string, filename: string): (r: Outcome<(string, int)>)
    ensures r.Value? <==> Atoi(TrimSuffix(Base(filename), Ext(filename))).Ok?
    ensures r.Value? ==> r.value.0 == TrimPrefix(TrimPrefix(Dir(filename), domainDir), "/")
  {
    var tableID := TrimPrefix(TrimPrefix(Dir(filename), domainDir), "/");
    var index := Atoi(TrimSuffix(Base(filename), Ext(filename)));
    if index.Err? then Panic(index.error) else Value((tableID, index.value))
  }

  /** the name under which a column's domain file is stored */
  function DomainFilename(domainDir: string, tableID: string, columnIndex: int, ext: string): string
  {
    domainDir + "/" + tableID + "/" + Itoa(columnIndex) + "." + ext
  }

  /** Parsing the name of a stored domain file gives back the table and the
      column. */
  lemma ParseDomainFilename(domainDir: string, tableID: string, columnIndex: Int64, ext: string)
    requires tableID != []
    requires '/' !in ext && '.' !in ext
    ensures ParseFilename(domainDir, DomainFilename(domainDir, tableID, columnIndex, ext))
      == Value((tableID, columnIndex))
  {
    var digits := Itoa(columnIndex);
    var f := DomainFilename(domainDir, tableID, columnIndex, ext);
    DirOfDomainFilename(domainDir, tableID, digits, ext);
    BaseOfDomainFilename(domainDir + "/" + tableID, digits, ext);
    ExtOfDomainFilename(domainDir + "/" + tableID + "/" + digits, ext);
    TrimPrefixThenSlash(domainDir, tableID);
    TrimSuffixDotExt(digits, ext);
    AtoiItoa(columnIndex);
  }

  lemma DirOfDomainFilename(domainDir: string, tableID: string, digits: string, ext: string)
    requires tableID != []
    requires '/' !in ext && '/' !in digits
    ensures Dir(domainDir + "/" + tableID + "/" + digits + "." + ext) == domainDir + "/" + tableID
  {
    var dirPart := domainDir + "/" + tableID;
    var tail := digits + "." + ext;
    assert domainDir + "/" + tableID + "/" + digits + "." + ext == dirPart + ['/'] + tail;
    LastIndexCharAfter(dirPart, '/', tail);
  }

  lemma BaseOfDomainFilename(dirPart: string, digits: string, ext: string)
    requires '/' !in ext && '/' !in digits
    ensures Base(dirPart + "/" + digits + "." + ext) == digits + "." + ext
  {
    var tail := digits + "." + ext;
    var f := dirPart + "/" + digits + "." + ext;
    assert f == dirPart + ['/'] + tail;
    assert f[|f| - 1] == tail[|tail| - 1];
    assert TrimRightFunc(f, IsSlash) == f;
    LastIndexCharAfter(dirPart, '/', tail);
    assert f[|dirPart| + 1..] == tail;
  }

  lemma ExtOfDomainFilename(stem: string, ext: string)
    requires '/' !in ext && '.' !in ext
    ensures Ext(stem + "." + ext) == "." + ext
  {
    var f := stem + "." + ext;
    var tail := "." + ext;
    assert f == stem + ['.'] + ext && f == stem + tail;
    LastIndexCharAfter(stem, '.', ext);
    assert '/' !in tail;
    LastIndexCharBefore(stem, '/', tail);
    assert f[|stem|..] == tail;
  }

  // ---------------------------------------------------------------
  // Value classification
  // ---------------------------------------------------------------

  /** `^\d+$` */
  predicate IntegerPattern(v: string) { v != [] && AllDigits(v) }

  /** `^\d+\.\d+$` */
  predicate FloatPattern(v: string)
  {
    exists d :: 0 < d < |v| - 1 && v[d] == '.' && AllDigits(v[..d]) && AllDigits(v[d + 1..])
  }

  /** `^\d+$` or `^\d+\.\d+$` */
  predicate IsNumeric(v: string)
  {
    var d := IndexChar(v, '.');
    (v != [] && AllDigits(v)) || (0 < d < |v| - 1 && AllDigits(v[..d]) && AllDigits(v[d + 1..]))
  }

  /** `isNumeric` accepts exactly the two anchored patterns. */
  lemma IsNumericMatchesPatterns(v: string)
    ensures IsNumeric(v) <==> IntegerPattern(v) || FloatPattern(v)
  {
    FloatPatternAtFirstDot(v);
  }

  /** A decimal point matched by `^\d+\.\d+$` is the first one. */
  lemma FloatPatternAtFirstDot(v: string)
    ensures var d := IndexChar(v, '.');
      FloatPattern(v) <==> 0 < d < |v| - 1 && AllDigits(v[..d]) && AllDigits(v[d + 1..])
  {
    FloatPatternFirstDot(v);
    FirstDotFloatPattern(v);
  }

  /** a matched decimal point is at the first dot */
  lemma FloatPatternFirstDot(v: string)
    ensures var d := IndexChar(v, '.');
      FloatPattern(v) ==> 0 < d < |v| - 1 && AllDigits(v[..d]) && AllDigits(v[d + 1..])
  {
    if FloatPattern(v) {
      var e :| 0 < e < |v| - 1 && v[e] == '.' && AllDigits(v[..e]) && AllDigits(v[e + 1..]);
      DigitsBeforeDot(v, e);
    }
  }

  /** digits around the first dot match */
  lemma FirstDotFloatPattern(v: string)
    ensures var d := IndexChar(v, '.');
      0 < d < |v| - 1 && AllDigits(v[..d]) && AllDigits(v[d + 1..]) ==> FloatPattern(v)
  {
    var d := IndexChar(v, '.');
    if 0 < d < |v| - 1 && AllDigits(v[..d]) && AllDigits(v[d + 1..]) {
      DotWitness(v, d);
    }
  }

  /** a dot between digits makes the pattern */
  lemma DotWitness(v: string, d: nat)
    requires 0 < d < |v| - 1 && v[d] == '.' && AllDigits(v[..d]) && AllDigits(v[d + 1..])
    ensures FloatPattern(v)
  {
  }

  /** a dot after nothing but digits is the first dot */
  lemma DigitsBeforeDot(v: string, e: nat)
    requires e < |v| && v[e] == '.' && AllDigits(v[..e])
    ensures IndexChar(v, '.') == e
  {
    assert '.' !in v[..e] by {
      forall i | 0 <= i < e ensures v[..e][i] != '.' { assert IsDigit(v[..e][i]); }
    }
    IndexCharAt(v, '.', e);
  }


  /** `[[:alpha:]]{2,}` somewhere in the value */
  predicate TextPattern(v: string)
  {
    exists i :: 0 <= i < |v| - 1 && IsAlpha(v[i]) && IsAlpha(v[i + 1])
  }

  predicate IsText(v: string)
  {
    |v| >= 2 && ((IsAlpha(v[0]) && IsAlpha(v[1])) || IsText(v[1..]))
  }

  /** `isText` holds exactly when two letters are adjacent somewhere. */
  lemma {:induction false} IsTextMatchesPattern(v: string)
    ensures IsText(v) <==> TextPattern(v)
  {
    if |v| >= 2 && !(IsAlpha(v[0]) && IsAlpha(v[1])) {
      IsTextMatchesPattern(v[1..]);
      assert TextPattern(v[1..]) ==> TextPattern(v) by {
        if TextPattern(v[1..]) {
          var i :| 0 <= i < |v| - 2 && IsAlpha(v[1..][i]) && IsAlpha(v[1..][i + 1]);
          assert IsAlpha(v[i + 1]) && IsAlpha(v[i + 2]);
        }
      }
      assert TextPattern(v) ==> TextPattern(v[1..]) by {
        if TextPattern(v) {
          var i :| 0 <= i < |v| - 1 && IsAlpha(v[i]) && IsAlpha(v[i + 1]);
          assert i != 0;
          assert IsAlpha(v[1..][i - 1]) && IsAlpha(v[1..][i]);
        }
      }
    }
  }

  /** A value matching a numeric pattern never holds two letters, so the
      order in which `classifyValues` tests the patterns never matters. */
  lemma NumericIsNotText(v: string)
    requires IsNumeric(v)
    ensures !IsText(v)
  {
    IsNumericMatchesPatterns(v);
    NumericHasNoLetter(v);
    IsTextMatchesPattern(v);
  }

  lemma NumericHasNoLetter(v: string)
    requires IntegerPattern(v) || FloatPattern(v)
    ensures forall j :: 0 <= j < |v| ==> !IsAlpha(v[j])
  {
    if !IntegerPattern(v) {
      var d :| 0 < d < |v| - 1 && v[d] == '.' && AllDigits(v[..d]) && AllDigits(v[d + 1..]);
      forall j | 0 <= j < |v| ensures !IsAlpha(v[j]) {
        if j < d { assert v[j] == v[..d][j]; }
        else if j > d { assert v[j] == v[d + 1..][j - d - 1]; }
      }
    }
  }

  /** the class key `classifyValues` counts a value under ("" = none) */
  function Class(v: string): (k: string)
    ensures k == "numeric" || k == "text" || k == ""
    ensures k == "" <==> !IsNumeric(v) && !IsText(v)
  {
    if IsNumeric(v) then "numeric" else if IsText(v) then "text" else ""
  }

  /** the number of values counted under class `k` */
  function ClassCount(values: seq<string>, k: string): (n: nat)
    ensures n <= |values|
  {
    if values == [] then 0
    else ClassCount(values[..|values| - 1], k) + (if Class(values[|values| - 1]) == k then 1 else 0)
  }

  /** the classes counted at least once */
  function SeenClasses(values: seq<string>): (ks: set<string>)
    ensures "" !in ks
  {
    if values == [] then {}
    else
      var k := Class(values[|values| - 1]);
      SeenClasses(values[..|values| - 1]) + (if k == "" then {} else {k})
  }

  /** the `counts` map after the first loop */
  function ClassCounts(values: seq<string>): map<string, nat>
  {
    map k | k in SeenClasses(values) :: ClassCount(values, k)
  }

  /** A class is seen exactly when it is counted at least once. */
  lemma {:induction false} ClassCountPositive(values: seq<string>, k: string)
    requires k != ""
    ensures k in SeenClasses(values) <==> ClassCount(values, k) >= 1
  {
    if values != [] {
      ClassCountPositive(values[..|values| - 1], k);
    }
  }

  /** a listing of a set, each element once: the order in which Go happens
      to range over a map with these keys */
  predicate IsEnumeration(order: seq<string>, keys: set<string>)
  {
    (forall i, j :: 0 <= i < j < |order| ==> order[i] != order[j]) && (set x | x in order) == keys
  }

  lemma EnumerationSize(order: seq<string>, keys: set<string>)
    requires IsEnumeration(order, keys)
    ensures |order| == 0 <==> keys == {}
  {
    if |order| > 0 { assert order[0] in keys; }
  }

  /** the keys an enumeration visits are the keys of the set */
  lemma EnumerationAt(order: seq<string>, keys: set<string>, j: nat)
    requires IsEnumeration(order, keys) && j < |order|
    ensures order[j] in keys
  {
    assert order[j] in (set x | x in order);
  }

  /** every key of the set is visited by an enumeration */
  lemma EnumerationHas(order: seq<string>, keys: set<string>, k: string)
    requires IsEnumeration(order, keys) && k in keys
    ensures exists m :: 0 <= m < |order| && order[m] == k
  {
    assert k in (set x | x in order);
  }

  /** `classifyValues` as written: `maxCount` is never raised, so every
      positive count beats it and the key reported is the last one the map
      iteration visits. */
  function ClassifyAsWritten(values: seq<string>, order: seq<string>): (r: string)
    requires IsEnumeration(order, SeenClasses(values))
    ensures r == "" <==> SeenClasses(values) == {}
    ensures r != "" ==> r in SeenClasses(values) && r == order[|order| - 1]
  {
    EnumerationSize(order, SeenClasses(values));
    if order == [] then ""
    else
      assert order[|order| - 1] in (set x | x in order);
      order[|order| - 1]
  }

  /** the first loop of `classifyValues`: how many values fall in each class */
  method CountClasses(values: seq<string>) returns (counts: map<string, nat>)
    ensures counts.Keys == SeenClasses(values)
    ensures forall k :: k in counts ==> counts[k] == ClassCount(values, k) && counts[k] >= 1
  {
    counts := map[];
    var i := 0;
    while i < |values|
      invariant 0 <= i <= |values|
      invariant counts.Keys == SeenClasses(values[..i])
      invariant forall k :: k in counts ==> counts[k] == ClassCount(values[..i], k)
    {
      counts := CountOne(values, i, counts);
      i := i + 1;
    }
    assert values[..i] == values;
    forall k | k in counts ensures counts[k] >= 1 { ClassCountPositive(values, k); }
  }

  /** `classifyValues` with `order` standing for the iteration order of the
      `counts` map. */
  method ClassifyValues(values: seq<string>, order: seq<string>) returns (r: string)
    requires IsEnumeration(order, SeenClasses(values))
    ensures r == ClassifyAsWritten(values, order)
  {
    var counts := CountClasses(values);
    var maxKey := "";
    var maxCount := 0;
    var j := 0;
    while j < |order|
      invariant 0 <= j <= |order|
      invariant maxCount == 0
      invariant j == 0 ==> maxKey == ""
      invariant j > 0 ==> maxKey == order[j - 1]
    {
      var k := order[j];
      EnumerationAt(order, SeenClasses(values), j);
      if counts[k] > maxCount {
        maxKey := k;
      }
      j := j + 1;
    }
    EnumerationSize(order, SeenClasses(values));
    r := maxKey;
  }

  /** one value of the counting loop: its class, when it has one, counted
      once more */
  method CountOne(values: seq<string>, i: nat, counts: map<string, nat>) returns (counts': map<string, nat>)
    requires i < |values|
    requires counts.Keys == SeenClasses(values[..i])
    requires forall k :: k in counts ==> counts[k] == ClassCount(values[..i], k)
    ensures counts'.Keys == SeenClasses(values[..i + 1])
    ensures forall k :: k in counts' ==> counts'[k] == ClassCount(values[..i + 1], k)
  {
    var key := Class(values[i]);
    SeenClassesStep(values, i);
    counts' := counts;
    if key != "" {
      ClassCountPositive(values[..i], key);
      counts' := counts[key := (if key in counts then counts[key] else 0) + 1];
      assert counts'.Keys == counts.Keys + {key};
    }
    forall k | k in counts' ensures counts'[k] == ClassCount(values[..i + 1], k) {
      ClassCountStep(values, i, k);
    }
  }

  /** the count of one class, one value further */
  lemma ClassCountStep(values: seq<string>, i: nat, k: string)
    requires i < |values|
    ensures ClassCount(values[..i + 1], k) == ClassCount(values[..i], k) + (if Class(values[i]) == k then 1 else 0)
  {
    var p := values[..i + 1];
    assert p[..|p| - 1] == values[..i];
  }

  lemma SeenClassesStep(values: seq<string>, i: nat)
    requires i < |values|
    ensures SeenClasses(values[..i + 1]) ==
      SeenClasses(values[..i]) + (if Class(values[i]) == "" then {} else {Class(values[i])})
    ensures forall k ::
      ClassCount(values[..i + 1], k) == ClassCount(values[..i], k) + (if Class(values[i]) == k then 1 else 0)
  {
    var p := values[..i + 1];
    assert p[..|p| - 1] == values[..i];
  }

  /** The comment on `classifyValues` promises the dominant class; as written
      it can report a minority one. */
  lemma ClassifyAsWrittenMissesMajority()
    ensures var values := ["1", "1", "ab"];
      IsEnumeration(["numeric", "text"], SeenClasses(values)) &&
      ClassifyAsWritten(values, ["numeric", "text"]) == "text" &&
      ClassCount(values, "numeric") == 2 && ClassCount(values, "text") == 1
  {
    var values := ["1", "1", "ab"];
    assert IsNumeric("1") by { assert AllDigits("1"); }
    assert !IsNumeric("ab") by { assert !IsDigit("ab"[0]); assert IndexChar("ab", '.') == -1; }
    assert IsText("ab") by { assert IsAlpha("ab"[0]) && IsAlpha("ab"[1]); }
    assert values[..2] == ["1", "1"];
    assert values[..2][..1] == ["1"];
    assert ["1"][..0] == [];
    assert SeenClasses(values) == {"numeric", "text"};
  }

  /** the intended class: the one counted most often, the first in map
      order among equals */
  function DominantClass(values: seq<string>, order: seq<string>): (r: string)
    requires IsEnumeration(order, SeenClasses(values))
    ensures r == "" <==> SeenClasses(values) == {}
    ensures r != "" ==> r in SeenClasses(values)
    ensures r != "" ==> forall k :: k in SeenClasses(values) ==> ClassCount(values, k) <= ClassCount(values, r)
  {
    EnumerationSize(order, SeenClasses(values));
    if order == [] then ""
    else
      var r := MostCounted(values, order);
      assert r in (set x | x in order);
      forall k | k in SeenClasses(values) ensures ClassCount(values, k) <= ClassCount(values, r) {
        assert k in (set x | x in order);
        var m :| 0 <= m < |order| && order[m] == k;
      }
      r
  }

  function MostCounted(values: seq<string>, order: seq<string>): (r: string)
    requires order != []
    ensures r in order
    ensures forall i :: 0 <= i < |order| ==> ClassCount(values, order[i]) <= ClassCount(values, r)
  {
    if |order| == 1 then order[0]
    else
      var init := order[..|order| - 1];
      var best := MostCounted(values, init);
      var last := order[|order| - 1];
      var r := if ClassCount(values, last) > ClassCount(values, best) then last else best;
      assert forall i :: 0 <= i < |order| - 1 ==> order[i] == init[i];
      r
  }

  /** `classifyValues` with the running maximum updated: reports the dominant
      class. */
  method ClassifyValuesFixed(values: seq<string>, order: seq<string>) returns (r: string)
    requires IsEnumeration(order, SeenClasses(values))
    ensures r == "" <==> SeenClasses(values) == {}
    ensures r != "" ==> r in SeenClasses(values)
    ensures r != "" ==> forall k :: k in SeenClasses(values) ==> ClassCount(values, k) <= ClassCount(values, r)
  {
    var counts := CountClasses(values);
    var maxKey := "";
    var maxCount := 0;
    var j := 0;
    while j < |order|
      invariant 0 <= j <= |order|
      invariant BestSoFar(counts, order, j, maxKey, maxCount)
    {
      EnumerationAt(order, SeenClasses(values), j);
      maxKey, maxCount := KeepBest(counts, order, j, maxKey, maxCount);
      j := j + 1;
    }
    EnumerationSize(order, SeenClasses(values));
    BestIsDominant(values, order, counts, maxKey, maxCount);
    r := maxKey;
  }

  /** after j keys of the enumeration: the largest count so far and a key
      having it, or nothing before the first key */
  ghost predicate BestSoFar(counts: map<string, nat>, order: seq<string>, j: nat, maxKey: string, maxCount: nat)
    requires j <= |order|
  {
    (j == 0 ==> maxKey == "" && maxCount == 0) &&
    (j > 0 ==> maxKey in counts && maxCount == counts[maxKey]) &&
    forall m :: 0 <= m < j ==> order[m] in counts && counts[order[m]] <= maxCount
  }

  /** one key of the corrected loop */
  method KeepBest(counts: map<string, nat>, order: seq<string>, j: nat, maxKey: string, maxCount: nat)
    returns (maxKey': string, maxCount': nat)
    requires j < |order| && order[j] in counts && BestSoFar(counts, order, j, maxKey, maxCount)
    requires j == 0 ==> counts[order[j]] > 0
    ensures BestSoFar(counts, order, j + 1, maxKey', maxCount')
  {
    maxKey', maxCount' := maxKey, maxCount;
    var k := order[j];
    if counts[k] > maxCount' {
      maxKey' := k;
      maxCount' := counts[k];
    }
  }

  /** The key left by the corrected loop counts at least as often as every
      class. */
  lemma BestIsDominant(values: seq<string>, order: seq<string>, counts: map<string, nat>, maxKey: string, maxCount: nat)
    requires IsEnumeration(order, SeenClasses(values))
    requires counts.Keys == SeenClasses(values)
    requires forall k :: k in counts ==> counts[k] == ClassCount(values, k)
    requires BestSoFar(counts, order, |order|, maxKey, maxCount)
    ensures maxKey != "" ==> forall k :: k in SeenClasses(values) ==> ClassCount(values, k) <= ClassCount(values, maxKey)
  {
    forall k | k in SeenClasses(values) && maxKey != "" ensures ClassCount(values, k) <= ClassCount(values, maxKey) {
      EnumerationHas(order, SeenClasses(values), k);
      var m :| 0 <= m < |order| && order[m] == k;
    }
  }


  // ---------------------------------------------------------------
  // Signatures, search and cardinality
  // ---------------------------------------------------------------

  /** the number of positions below |query| where the two signatures agree */
  function Agreements(query: seq<int>, candidate: seq<int>): (n: nat)
    requires |candidate| >= |query|
    ensures n <= |query|
  {
    if query == [] then 0
    else Agreements(query[..|query| - 1], candidate) + (if query[|query| - 1] == candidate[|query| - 1] then 1 else 0)
  }

  lemma {:induction false} AgreementsSelf(q: seq<int>)
    ensures Agreements(q, q) == |q|
  {
    if q != [] {
      AgreementsPrefix(q[..|q| - 1], q);
    }
  }

  lemma {:induction false} AgreementsPrefix(q: seq<int>, c: seq<int>)
    requires q <= c
    ensures Agreements(q, c) == |q|
  {
    if q != [] {
      assert q[..|q| - 1] <= c;
      AgreementsPrefix(q[..|q| - 1], c);
    }
  }

  /** `estimateJaccard`: the fraction of positions of `query` at which the
      candidate signature agrees; reading past a shorter candidate panics. */
  method EstimateJaccard(query: seq<int>, candidate: seq<int>) returns (r: Outcome<Float>)
    ensures |candidate| < |query| ==> r.Panic?
    ensures |candidate| >= |query| ==> r == Value(Div(Agreements(query, candidate) as real, |query| as real))
  {
    var intersection := 0;
    var i := 0;
    while i < |query|
      invariant 0 <= i <= |query|
      invariant i <= |candidate|
      invariant intersection == Agreements(query[..i], candidate)
    {
      if i >= |candidate| {
        return Panic("index out of range");
      }
      if query[i] == candidate[i] {
        intersection := intersection + 1;
      }
      assert query[..i + 1][..i] == query[..i];
      i := i + 1;
    }
    assert query[..i] == query;
    r := Value(Div(intersection as real, |query| as real));
  }

  /** The estimate is a fraction in [0, 1] for a nonempty query and exactly 1
      for identical signatures. */
  lemma EstimateJaccardRange(query: seq<int>, candidate: seq<int>)
    requires |candidate| >= |query| > 0
    ensures 0.0 <= Agreements(query, candidate) as real / |query| as real <= 1.0
    ensures query == candidate ==> Agreements(query, candidate) == |query|
  {
    if query == candidate { AgreementsSelf(query); }
    FractionInUnit(Agreements(query, candidate), |query|);
  }

  lemma FractionInUnit(a: nat, b: nat)
    requires a <= b && b > 0
    ensures 0.0 <= a as real / b as real <= 1.0
  {
    var q := a as real / b as real;
    assert q * (b as real) == a as real;
  }

  /** `index`: the first position of `s` in `a`, or -1 */
  method IndexOf(a: seq<string>, s: string) returns (r: int)
    ensures -1 <= r < |a|
    ensures r == -1 <==> s !in a
    ensures r >= 0 ==> a[r] == s && s !in a[..r]
  {
    var i := 0;
    while i < |a|
      invariant 0 <= i <= |a|
      invariant s !in a[..i]
    {
      if a[i] == s {
        return i;
      }
      assert a[..i + 1] == a[..i] + [a[i]];
      i := i + 1;
    }
    assert a[..i] == a;
    r := -1;
  }

  /** `getCardinality`: the number of distinct values */
  method GetCardinality(column: seq<string>) returns (n: nat)
    ensures n == |set v | v in column|
  {
    var seen: set<string> := {};
    var i := 0;
    while i < |column|
      invariant 0 <= i <= |column|
      invariant seen == set v | v in column[..i]
    {
      seen := seen + {column[i]};
      assert column[..i + 1] == column[..i] + [column[i]];
      i := i + 1;
    }
    assert column[..i] == column;
    n := |seen|;
  }

  lemma CardinalityBound(column: seq<string>)
    ensures |set v | v in column| <= |column|
    ensures column != [] ==> |set v | v in column| >= 1
  {
    CardinalityAtMostLength(column);
    if column != [] {
      var distinct := set v | v in column;
      assert column[0] in distinct;
      assert |distinct| >= 1 by { assert |distinct - {column[0]}| == |distinct| - 1; }
    }
  }

  lemma {:induction false} CardinalityAtMostLength(column: seq<string>)
    ensures |set v | v in column| <= |column|
  {
    if column != [] {
      var init := column[..|column| - 1];
      CardinalityAtMostLength(init);
      assert (set v | v in column) == (set v | v in init) + {column[|column| - 1]} by {
        assert column == init + [column[|column| - 1]];
      }
    }
  }

  // ---------------------------------------------------------------
  // Tokenised values
  // ---------------------------------------------------------------

  /** `DefaultTokenFun`: split on single spaces */
  function DefaultTokens(s: string): (r: seq<string>)
    ensures |r| == CountChar(s, ' ') + 1
  {
    SplitCount(s, ' ');
    Split(s, ' ')
  }

  function MapTrans(tokens: seq<string>, trans: string -> string): (r: seq<string>)
    ensures |r| == |tokens| && forall j :: 0 <= j < |r| ==> r[j] == trans(tokens[j])
  {
    seq(|tokens|, j requires 0 <= j < |tokens| => trans(tokens[j]))
  }

  /** what `tokenizedValues` sends: for each value in order, the transformed
      tokens of the transformed value, unless there are more than 5 */
  function Tokenized(values: seq<string>, tok: string -> seq<string>, trans: string -> string): seq<seq<string>>
  {
    if values == [] then []
    else
      var v := values[|values| - 1];
      var tokens := tok(trans(v));
      Tokenized(values[..|values| - 1], tok, trans) + (if |tokens| > 5 then [] else [MapTrans(tokens, trans)])
  }

  /** `tokenizedValues` with its channel collected into a sequence */
  method TokenizedValues(values: seq<string>, tok: string -> seq<string>, trans: string -> string)
    returns (out: seq<seq<string>>)
    ensures out == Tokenized(values, tok, trans)
  {
    out := [];
    var i := 0;
    while i < |values|
      invariant 0 <= i <= |values|
      invariant out == Tokenized(values[..i], tok, trans)
    {
      var v := trans(values[i]);
      var tokens := tok(v);
      assert values[..i + 1][..i] == values[..i];
      if |tokens| <= 5 {
        var k := 0;
        var mapped := tokens;
        while k < |mapped|
          invariant 0 <= k <= |mapped| == |tokens|
          invariant forall j :: 0 <= j < k ==> mapped[j] == trans(tokens[j])
          invariant forall j :: k <= j < |mapped| ==> mapped[j] == tokens[j]
        {
          mapped := mapped[k := trans(mapped[k])];
          k := k + 1;
        }
        assert mapped == MapTrans(tokens, trans);
        out := out + [mapped];
      }
      i := i + 1;
    }
    assert values[..i] == values;
  }

  /** Every emitted list has at most 5 tokens, each the transform of a token
      of a transformed input value; values with more tokens are dropped. */
  lemma {:induction false} TokenizedShape(values: seq<string>, tok: string -> seq<string>, trans: string -> string)
    ensures |Tokenized(values, tok, trans)| <= |values|
    ensures forall t :: t in Tokenized(values, tok, trans) ==> |t| <= 5
    ensures forall t :: t in Tokenized(values, tok, trans) ==> exists v :: v in values && t == MapTrans(tok(trans(v)), trans)
    ensures (forall v :: v in values ==> |tok(trans(v))| <= 5) ==> |Tokenized(values, tok, trans)| == |values|
  {
    if values != [] {
      var init := values[..|values| - 1];
      TokenizedShape(init, tok, trans);
      forall v | v in init ensures v in values { }
    }
  }
}
