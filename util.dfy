/** util/util.go: the q-gram tokens of an attribute's values, and the test
    for a numeric cell. */
module Util {
  import opened Wrappers
  import opened Seqs
  import opened GoStrings
  import BenchUtil

  // ---------------------------------------------------------------
  // tokenize
  // ---------------------------------------------------------------

  /** a value as `tokenize` reads it: '_' made a space, trimmed, lower-cased */
  function CleanValue(e: string): string
  {
    ToLower(TrimSpace(ReplaceChar(e, '_', ' ')))
  }

  /** the 3-character pieces of a text, one starting at each position that
      leaves room for three */
  function Grams(e: string): (r: seq<string>)
    ensures |e| >= 3 ==> |r| == |e| - 2
    ensures |e| < 3 ==> r == []
    ensures forall i :: 0 <= i < |r| ==> r[i] == e[i..i + 3]
  {
    if |e| < 3 then [] else seq(|e| - 2, i requires 0 <= i < |e| - 2 => e[i..i + 3])
  }

  /** the values of an attribute as `tokenize` reads them */
  function CleanValues(att: seq<string>): (r: seq<string>)
    ensures |r| == |att|
    ensures forall k :: 0 <= k < |att| ==> r[k] == CleanValue(att[k])
  {
    seq(|att|, k requires 0 <= k < |att| => CleanValue(att[k]))
  }

  /** the q-grams of the values, value after value */
  function AttGrams(values: seq<string>): seq<string>
  {
    if values == [] then [] else AttGrams(values[..|values| - 1]) + Grams(values[|values| - 1])
  }

  lemma {:induction false} AttGramsConcat(a: seq<string>, b: seq<string>)
    ensures AttGrams(a + b) == AttGrams(a) + AttGrams(b)
    decreases |b|
  {
    if b == [] {
      assert a + b == a;
    } else {
      AttGramsSnoc(a, b);
    }
  }

  lemma {:induction false} AttGramsSnoc(a: seq<string>, b: seq<string>)
    requires b != []
    ensures AttGrams(a + b) == AttGrams(a) + AttGrams(b)
    decreases |b|, 0
  {
    var init := b[..|b| - 1];
    var last := b[|b| - 1];
    AttGramsConcat(a, init);
    SplitLast(b);
    AppendAssoc(a, init, [last]);
    AttGramsLast(a + init, last);
    AttGramsLast(init, last);
    AppendAssoc(AttGrams(a), AttGrams(init), Grams(last));
  }

  /** the grams of one more value */
  lemma AttGramsLast(values: seq<string>, last: string)
    ensures AttGrams(values + [last]) == AttGrams(values) + Grams(last)
  {
    assert (values + [last])[..|values|] == values;
  }


  /** the two results of `tokenize` */
  datatype Counts = Counts(tokens: seq<int>, tmap: map<string, int>)

  /** one q-gram counted: a known q-gram adds one to its token and to its
      own count; a token index outside the slice panics */
  function Step(c: Counts, g: string, qgrams: map<string, int>): (r: Outcome<Counts>)
  {
    if g !in qgrams then Value(c)
    else
      var v := qgrams[g];
      if v < 0 || v >= |c.tokens| then Panic("index out of range")
      else Value(Counts(c.tokens[v := c.tokens[v] + 1], c.tmap[g := if g in c.tmap then c.tmap[g] + 1 else 1]))
  }

  /** no token and no q-gram counted yet */
  function Zero(qgrams: map<string, int>): Counts
  {
    Counts(seq(|qgrams|, _ => 0), map[])
  }

  /** the q-grams counted in order from the given counts; a panic stops it */
  function FoldFrom(start: Outcome<Counts>, grams: seq<string>, qgrams: map<string, int>): Outcome<Counts>
  {
    if grams == [] then start
    else
      match FoldFrom(start, grams[..|grams| - 1], qgrams)
      case Panic(m) => Panic(m)
      case Value(c) => Step(c, grams[|grams| - 1], qgrams)
  }

  /** the q-grams counted in order from no counts */
  function Fold(grams: seq<string>, qgrams: map<string, int>): Outcome<Counts>
  {
    FoldFrom(Value(Zero(qgrams)), grams, qgrams)
  }

  lemma {:induction false} FoldFromConcat(start: Outcome<Counts>, a: seq<string>, b: seq<string>, qgrams: map<string, int>)
    ensures FoldFrom(FoldFrom(start, a, qgrams), b, qgrams) == FoldFrom(start, a + b, qgrams)
    decreases |b|
  {
    if b == [] {
      assert a + b == a;
    } else {
      var init := b[..|b| - 1];
      FoldFromConcat(start, a, init, qgrams);
      assert (a + b)[..|a + b| - 1] == a + init;
    }
  }

  /** A panic stays a panic. */
  lemma {:induction false} FoldFromPanic(m: string, grams: seq<string>, qgrams: map<string, int>)
    ensures FoldFrom(Panic(m), grams, qgrams) == Panic(m)
  {
    if grams != [] {
      FoldFromPanic(m, grams[..|grams| - 1], qgrams);
    }
  }

  /** a known q-gram whose token index is outside the counts */
  predicate BadIndex(g: string, qgrams: map<string, int>)
  {
    g in qgrams && (qgrams[g] < 0 || qgrams[g] >= |qgrams|)
  }

  /** the number of q-grams known with token index v */
  function TokenCount(grams: seq<string>, qgrams: map<string, int>, v: int): nat
  {
    if grams == [] then 0
    else
      var g := grams[|grams| - 1];
      TokenCount(grams[..|grams| - 1], qgrams, v) + if g in qgrams && qgrams[g] == v then 1 else 0
  }

  /** the counts `tokenize` promises: one token per known q-gram index,
      each the number of q-grams of that index, and the count of each known
      q-gram that occurs */
  ghost predicate Counted(c: Counts, grams: seq<string>, qgrams: map<string, int>)
  {
    |c.tokens| == |qgrams| &&
    (forall v :: 0 <= v < |qgrams| ==> c.tokens[v] == TokenCount(grams, qgrams, v)) &&
    (forall g :: g in c.tmap <==> g in qgrams && g in grams) &&
    (forall g :: g in c.tmap ==> c.tmap[g] == multiset(grams)[g])
  }

  lemma StepCounted(c: Counts, grams: seq<string>, g: string, qgrams: map<string, int>)
    requires Counted(c, grams, qgrams)
    ensures Step(c, g, qgrams).Panic? <==> BadIndex(g, qgrams)
    ensures Step(c, g, qgrams).Value? ==> Counted(Step(c, g, qgrams).value, grams + [g], qgrams)
  {
    var next := grams + [g];
    assert next[..|next| - 1] == grams;
    assert multiset(next) == multiset(grams) + multiset{g};
    if Step(c, g, qgrams).Value? {
      var d := Step(c, g, qgrams).value;
      forall v | 0 <= v < |qgrams| ensures d.tokens[v] == TokenCount(next, qgrams, v) {
      }
      forall h ensures h in d.tmap <==> h in qgrams && h in next {
        assert h in next <==> h in grams || h == g;
      }
    }
  }

  /** The counts of `tokenize` are the token and q-gram counts of the
      values, and it panics exactly when a known q-gram has a token index
      outside the counts. */
  lemma {:induction false} FoldCounted(grams: seq<string>, qgrams: map<string, int>)
    ensures Fold(grams, qgrams).Panic? <==> exists i :: 0 <= i < |grams| && BadIndex(grams[i], qgrams)
    ensures Fold(grams, qgrams).Value? ==> Counted(Fold(grams, qgrams).value, grams, qgrams)
  {
    if grams == [] {
      assert Counted(Zero(qgrams), grams, qgrams);
    } else {
      var init := grams[..|grams| - 1];
      var g := grams[|grams| - 1];
      FoldCounted(init, qgrams);
      assert grams == init + [g];
      assert forall i :: 0 <= i < |init| ==> init[i] == grams[i];
      if Fold(init, qgrams).Value? {
        StepCounted(Fold(init, qgrams).value, init, g, qgrams);
      }
    }
  }

  /** With one token index per q-gram, each known q-gram's count is its
      token's count. */
  lemma TokensMatchCounts(c: Counts, grams: seq<string>, qgrams: map<string, int>, g: string)
    requires Counted(c, grams, qgrams)
    requires forall a, b :: a in qgrams && b in qgrams && qgrams[a] == qgrams[b] ==> a == b
    requires g in c.tmap && 0 <= qgrams[g] < |qgrams|
    ensures c.tokens[qgrams[g]] == c.tmap[g]
  {
    TokenCountOne(grams, qgrams, g);
  }

  lemma {:induction false} TokenCountOne(grams: seq<string>, qgrams: map<string, int>, g: string)
    requires forall a, b :: a in qgrams && b in qgrams && qgrams[a] == qgrams[b] ==> a == b
    requires g in qgrams
    ensures TokenCount(grams, qgrams, qgrams[g]) == multiset(grams)[g]
  {
    if grams != [] {
      var init := grams[..|grams| - 1];
      TokenCountOne(init, qgrams, g);
      assert grams == init + [grams[|grams| - 1]];
      assert multiset(grams) == multiset(init) + multiset{grams[|grams| - 1]};
    }
  }

  /** the inner loop of `tokenize` over the positions of one value */
  method CountGrams(c: Counts, e: string, qgrams: map<string, int>) returns (r: Outcome<Counts>)
    ensures r == FoldFrom(Value(c), Grams(e), qgrams)
  {
    var gs := Grams(e);
    var d := c;
    for ix := 0 to |e|
      invariant Value(d) == FoldFrom(Value(c), gs[..if ix <= |gs| then ix else |gs|], qgrams)
    {
      if ix <= |e| - 3 {
        assert gs[..ix + 1][..ix] == gs[..ix];
        var g := e[ix..ix + 3];
        assert g == gs[ix];
        var next := Step(d, g, qgrams);
        if next.Panic? {
          FoldFromConcat(Value(c), gs[..ix + 1], gs[ix + 1..], qgrams);
          FoldFromPanic(next.reason, gs[ix + 1..], qgrams);
          assert gs[..ix + 1] + gs[ix + 1..] == gs;
          return next;
        }
        d := next.value;
      }
    }
    assert gs[..|gs|] == gs;
    return Value(d);
  }

  /** `tokenize`: the tokens and q-gram counts of the q-grams of all values,
      a panic for a known q-gram whose token index is out of range */
  method Tokenize(att: seq<string>, qgrams: map<string, int>) returns (r: Outcome<Counts>)
    ensures r == Fold(AttGrams(CleanValues(att)), qgrams)
  {
    ghost var values := CleanValues(att);
    var tokens: seq<int> := seq(|qgrams|, _ => 0);
    var tmap: map<string, int> := map[];
    var c := Counts(tokens, tmap);
    for k := 0 to |att|
      invariant Value(c) == Fold(AttGrams(values[..k]), qgrams)
    {
      var e := CleanValue(att[k]);
      assert e == values[k];
      AttGramsStep(values, k, qgrams);
      var next := CountGrams(c, e, qgrams);
      if next.Panic? {
        AttGramsPanic(values, k, next.reason, qgrams);
        return next;
      }
      c := next.value;
    }
    assert values[..|att|] == values;
    return Value(c);
  }

  /** Counting one more value continues from the counts of the values
      before it. */
  lemma AttGramsStep(values: seq<string>, k: nat, qgrams: map<string, int>)
    requires k < |values|
    ensures Fold(AttGrams(values[..k + 1]), qgrams) == FoldFrom(Fold(AttGrams(values[..k]), qgrams), Grams(values[k]), qgrams)
  {
    assert values[..k + 1][..k] == values[..k];
    FoldFromConcat(Value(Zero(qgrams)), AttGrams(values[..k]), Grams(values[k]), qgrams);
  }

  /** A panic on one value is the panic of the whole attribute. */
  lemma AttGramsPanic(values: seq<string>, k: nat, m: string, qgrams: map<string, int>)
    requires k < |values|
    requires Fold(AttGrams(values[..k + 1]), qgrams) == Panic(m)
    ensures Fold(AttGrams(values), qgrams) == Panic(m)
  {
    var rest := values[k + 1..];
    AttGramsConcat(values[..k + 1], rest);
    assert values[..k + 1] + rest == values;
    FoldFromConcat(Value(Zero(qgrams)), AttGrams(values[..k + 1]), AttGrams(rest), qgrams);
    FoldFromPanic(m, AttGrams(rest), qgrams);
  }

  // ---------------------------------------------------------------
  // IsNumeric
  // ---------------------------------------------------------------

  /** `IsNumeric`: `strconv.ParseFloat` accepts the cell */
  predicate IsNumeric(cell: string)
  {
    DecimalFloatSyntax(cell) || SpecialFloatSyntax(cell)
  }

  /** A decimal integer, signed or not, is numeric. */
  lemma IntegerIsNumeric(sign: string, digits: string)
    requires sign == "" || sign == "-" || sign == "+"
    requires digits != [] && AllDigits(digits)
    ensures IsNumeric(sign + digits)
  {
    var s := sign + digits;
    var body := if s != [] && (s[0] == '+' || s[0] == '-') then s[1..] else s;
    assert body == digits;
    NoExponent(digits);
    assert IndexChar(digits, '.') == -1;
  }

  /** A text of digits and dots holds no exponent mark. */
  lemma NoExponent(v: string)
    requires forall k :: 0 <= k < |v| ==> IsDigit(v[k]) || v[k] == '.'
    ensures IndexExp(v) == -1
  {
    assert IndexChar(v, 'e') == -1;
    assert IndexChar(v, 'E') == -1;
  }

  /** Every value the benchmark server's `isNumeric` accepts (`^\d+$` or
      `^\d+\.\d+$`) parses as a float. */
  lemma BenchNumericIsNumeric(v: string)
    requires BenchUtil.IsNumeric(v)
    ensures IsNumeric(v)
  {
    if AllDigits(v) {
      NoSign(v);
      IntegerIsNumeric("", v);
      assert "" + v == v;
    } else {
      DottedIsNumeric(v, IndexChar(v, '.'));
    }
  }

  /** digits, a dot, digits: a mantissa with no sign and no exponent */
  lemma DottedIsNumeric(v: string, d: int)
    requires d == IndexChar(v, '.') && 0 < d < |v| - 1
    requires AllDigits(v[..d]) && AllDigits(v[d + 1..])
    ensures IsNumeric(v)
  {
    forall k | 0 <= k < |v| ensures IsDigit(v[k]) || v[k] == '.' {
      if k < d {
        assert v[k] == v[..d][k];
      } else if k > d {
        assert v[k] == v[d + 1..][k - d - 1];
      }
    }
    NoExponent(v);
    assert IsDigit(v[0]) by {
      assert v[0] == v[..d][0];
    }
    assert MantissaSyntax(v);
    MantissaIsDecimal(v);
  }

  /** a mantissa that starts with a digit and holds no exponent mark is a
      decimal float */
  lemma MantissaIsDecimal(v: string)
    requires v != [] && IsDigit(v[0]) && IndexExp(v) == -1 && MantissaSyntax(v)
    ensures DecimalFloatSyntax(v)
  {
  }

  lemma NoSign(v: string)
    requires BenchUtil.IsNumeric(v)
    ensures v != [] && IsDigit(v[0])
  {
    var d := IndexChar(v, '.');
    if !AllDigits(v) {
      assert v[0] == v[..d][0];
    }
  }

  /** the empty cell and a word are not numeric */
  lemma NotNumeric()
    ensures !IsNumeric("") && !IsNumeric("abc")
  {
    assert IndexChar("", '.') == -1;
    assert IndexChar("abc", 'e') == -1 && IndexChar("abc", 'E') == -1 && IndexChar("abc", '.') == -1;
    assert !IsDigit("abc"[0]);
  }
}
