/** embedding/embedding.go and embedding/fasttext.go: the embedding of a
    value is the sum of its tokens' word vectors, and the embedding of a
    column aggregates its values' embeddings. The fastText store is a map
    from word to vector; vectors are sequences of reals (float64 rounding is
    not modelled) and every stored vector has the store's dimension. */
module Embedding {
  import opened Wrappers
  import opened Seqs
  import BenchUtil

  type Vec = seq<real>

  const ErrNoEmbFound := "No embedding found"

  function Zero(dim: nat): (z: Vec)
    ensures |z| == dim && forall i :: 0 <= i < dim ==> z[i] == 0.0
  {
    seq(dim, _ => 0.0)
  }

  function VecAdd(a: Vec, b: Vec): (r: Vec)
    requires |a| == |b|
    ensures |r| == |a| && forall i :: 0 <= i < |r| ==> r[i] == a[i] + b[i]
  {
    seq(|a|, i requires 0 <= i < |a| => a[i] + b[i])
  }

  function Scale(v: Vec, c: real): (r: Vec)
    ensures |r| == |v| && forall i :: 0 <= i < |r| ==> r[i] == v[i] * c
  {
    seq(|v|, i requires 0 <= i < |v| => v[i] * c)
  }

  lemma VecAddComm(a: Vec, b: Vec)
    requires |a| == |b|
    ensures VecAdd(a, b) == VecAdd(b, a)
  {
  }

  lemma VecAddAssoc(a: Vec, b: Vec, c: Vec)
    requires |a| == |b| == |c|
    ensures VecAdd(VecAdd(a, b), c) == VecAdd(a, VecAdd(b, c))
  {
  }

  lemma VecAddSwap(a: Vec, b: Vec, c: Vec)
    requires |a| == |b| == |c|
    ensures VecAdd(VecAdd(a, b), c) == VecAdd(VecAdd(a, c), b)
  {
  }

  lemma VecAddZero(a: Vec)
    ensures VecAdd(Zero(|a|), a) == a
  {
  }

  predicate Dimensioned(vs: seq<Vec>, dim: nat)
  {
    forall k :: 0 <= k < |vs| ==> |vs[k]| == dim
  }

  /** every vector of the store has dimension dim */
  predicate StoreDim(emb: map<string, Vec>, dim: nat)
  {
    forall w :: w in emb ==> |emb[w]| == dim
  }

  /** the componentwise sum of vs, the zero vector when vs is empty */
  function Total(vs: seq<Vec>, dim: nat): (t: Vec)
    requires Dimensioned(vs, dim)
    ensures |t| == dim
  {
    if vs == [] then Zero(dim) else VecAdd(Total(vs[..|vs| - 1], dim), vs[|vs| - 1])
  }

  lemma {:induction false} TotalAppend(a: seq<Vec>, b: seq<Vec>, dim: nat)
    requires Dimensioned(a, dim) && Dimensioned(b, dim)
    ensures Dimensioned(a + b, dim)
    ensures Total(a + b, dim) == VecAdd(Total(a, dim), Total(b, dim))
  {
    if b == [] {
      assert a + b == a;
    } else {
      var init := b[..|b| - 1];
      assert (a + b)[..|a + b| - 1] == a + init;
      TotalAppend(a, init, dim);
      VecAddAssoc(Total(a, dim), Total(init, dim), b[|b| - 1]);
    }
  }

  lemma TotalSingle(v: Vec)
    ensures Total([v], |v|) == v
  {
    assert [v][..0] == [];
    VecAddZero(v);
  }

  /** The sum does not depend on the order of its terms. */
  lemma {:induction false} TotalPermutation(a: seq<Vec>, b: seq<Vec>, dim: nat)
    requires Dimensioned(a, dim) && multiset(a) == multiset(b)
    ensures Dimensioned(b, dim)
    ensures Total(a, dim) == Total(b, dim)
  {
    PermutedDimensioned(a, b, dim);
    if a != [] {
      var x := a[|a| - 1];
      var init := a[..|a| - 1];
      assert x in multiset(b);
      var j :| 0 <= j < |b| && b[j] == x;
      var left, right := b[..j], b[j + 1..];
      RemoveBoth(a, b, j);
      SplitLast(a);
      SplitAt(b, j);
      DimensionedInit(a, dim);
      DimensionedParts(left, x, right, dim);
      TotalPermutation(init, left + right, dim);
      TotalMove(init, left, right, x, dim);
    }
  }

  lemma PermutedDimensioned(a: seq<Vec>, b: seq<Vec>, dim: nat)
    requires Dimensioned(a, dim) && multiset(a) == multiset(b)
    ensures Dimensioned(b, dim)
  {
    forall k | 0 <= k < |b| ensures |b[k]| == dim {
      assert b[k] in multiset(a);
    }
  }

  lemma DimensionedInit(a: seq<Vec>, dim: nat)
    requires Dimensioned(a, dim) && a != []
    ensures Dimensioned(a[..|a| - 1], dim) && |a[|a| - 1]| == dim
  {
    var init := a[..|a| - 1];
    assert forall k :: 0 <= k < |init| ==> init[k] == a[k];
  }

  /** the parts of a sequence of vectors of dimension dim */
  lemma DimensionedParts(left: seq<Vec>, x: Vec, right: seq<Vec>, dim: nat)
    requires Dimensioned(left + [x] + right, dim)
    ensures Dimensioned(left, dim) && Dimensioned(right, dim) && |x| == dim
    ensures Dimensioned(left + right, dim) && Dimensioned(left + [x], dim)
  {
    var s := left + [x] + right;
    assert forall k :: 0 <= k < |left| ==> left[k] == s[k];
    assert forall k :: 0 <= k < |right| ==> right[k] == s[|left| + 1 + k];
    assert s[|left|] == x;
  }

  /** a vector added last on one side and between left and right on the
      other keeps the two sums equal */
  lemma TotalMove(init: seq<Vec>, left: seq<Vec>, right: seq<Vec>, x: Vec, dim: nat)
    requires Dimensioned(init, dim) && Dimensioned(left, dim) && Dimensioned(right, dim) && |x| == dim
    requires Dimensioned(left + right, dim) && Dimensioned(left + [x], dim)
    requires Total(init, dim) == Total(left + right, dim)
    ensures Dimensioned(init + [x], dim) && Dimensioned(left + [x] + right, dim)
    ensures Total(init + [x], dim) == Total(left + [x] + right, dim)
  {
    TotalAppend(init, [x], dim);
    TotalSingle(x);
    TotalAppend(left, right, dim);
    TotalAppend(left + [x], right, dim);
    TotalAppend(left, [x], dim);
    var l, r := Total(left, dim), Total(right, dim);
    VecAddSwap(l, r, x);
    VecAddAssoc(l, x, r);
  }

  /** The sum of n copies of u (each scaled by c) is u scaled by n c. */
  lemma {:induction false} TotalCopies(vs: seq<Vec>, u: Vec)
    requires forall v :: v in vs ==> v == u
    ensures Dimensioned(vs, |u|)
    ensures Total(vs, |u|) == Scale(u, |vs| as real)
  {
    if vs != [] {
      var init := vs[..|vs| - 1];
      assert vs[|vs| - 1] in vs;
      forall v | v in init ensures v == u {
        assert v in vs;
      }
      TotalCopies(init, u);
      ScaleAdd(u, |init| as real, 1.0);
      ScaleOne(u);
    }
  }

  lemma ScaleAdd(u: Vec, a: real, b: real)
    ensures VecAdd(Scale(u, a), Scale(u, b)) == Scale(u, a + b)
  {
    forall i | 0 <= i < |u| ensures u[i] * a + u[i] * b == u[i] * (a + b) {
    }
  }

  lemma ScaleOne(u: Vec)
    ensures Scale(u, 1.0) == u
  {
  }

  /** `add`: panics (here: reports and changes nothing) when the lengths
      differ; otherwise dst becomes the componentwise sum and src is left as
      it was (unless it is dst itself). */
  method Add(dst: array<real>, src: array<real>) returns (panicked: bool)
    modifies dst
    ensures panicked <==> dst.Length != src.Length
    ensures panicked ==> dst[..] == old(dst[..])
    ensures !panicked ==> dst[..] == VecAdd(old(dst[..]), old(src[..]))
    ensures src != dst ==> src[..] == old(src[..])
  {
    if dst.Length != src.Length {
      return true;
    }
    var i := 0;
    while i < src.Length
      invariant 0 <= i <= src.Length
      invariant forall j :: 0 <= j < i ==> dst[j] == old(dst[j]) + old(src[j])
      invariant forall j :: i <= j < dst.Length ==> dst[j] == old(dst[j]) && src[j] == old(src[j])
      invariant src != dst ==> src[..] == old(src[..])
    {
      dst[i] := dst[i] + src[i];
      i := i + 1;
    }
    assert forall j :: 0 <= j < dst.Length ==> dst[..][j] == VecAdd(old(dst[..]), old(src[..]))[j];
    return false;
  }

  /** the vectors in dst scaled in place by c, as the frequency loops do */
  method ScaleInPlace(dst: array<real>, c: real)
    modifies dst
    ensures dst[..] == Scale(old(dst[..]), c)
  {
    var i := 0;
    while i < dst.Length
      invariant 0 <= i <= dst.Length
      invariant forall j :: 0 <= j < i ==> dst[j] == old(dst[j]) * c
      invariant forall j :: i <= j < dst.Length ==> dst[j] == old(dst[j])
    {
      dst[i] := dst[i] * c;
      i := i + 1;
    }
    assert forall j :: 0 <= j < dst.Length ==> dst[..][j] == Scale(old(dst[..]), c)[j];
  }

  /** `ft.GetEmb` decoding a fresh vector for a word */
  method Fetch(v: Vec) returns (a: array<real>)
    ensures fresh(a) && a[..] == v
  {
    a := new real[|v|](i requires 0 <= i < |v| => v[i]);
  }

  /** the vectors of the tokens found in the store, in token order */
  function Found(tokens: seq<string>, emb: map<string, Vec>): (r: seq<Vec>)
    ensures |r| <= |tokens|
    ensures forall dim :: StoreDim(emb, dim) ==> Dimensioned(r, dim)
  {
    if tokens == [] then []
    else
      var t := tokens[|tokens| - 1];
      Found(tokens[..|tokens| - 1], emb) + (if t in emb then [emb[t]] else [])
  }

  /** No vector is found exactly when no token is in the store. */
  lemma {:induction false} FoundEmpty(tokens: seq<string>, emb: map<string, Vec>)
    ensures Found(tokens, emb) == [] <==> forall j :: 0 <= j < |tokens| ==> tokens[j] !in emb
  {
    if tokens != [] {
      FoundEmpty(tokens[..|tokens| - 1], emb);
    }
  }

  /** what `GetValueEmb` and `getTokenizedValueEmb` return: the sum of the
      found vectors, or ErrNoEmbFound when none is found */
  function ValueEmbOf(tokens: seq<string>, emb: map<string, Vec>, dim: nat): Result<Vec>
    requires StoreDim(emb, dim)
  {
    var found := Found(tokens, emb);
    if found == [] then Err(ErrNoEmbFound) else Ok(Total(found, dim))
  }

  /** `GetValueEmb` (embedding/embedding.go) and `getTokenizedValueEmb`
      (embedding/fasttext.go), which are the same loop: fails iff no token
      has a vector, otherwise the componentwise sum of the found vectors. */
  method GetValueEmb(emb: map<string, Vec>, dim: nat, tokens: seq<string>) returns (r: Result<Vec>)
    requires StoreDim(emb, dim)
    ensures r.Err? <==> forall j :: 0 <= j < |tokens| ==> tokens[j] !in emb
    ensures r.Ok? ==> |r.value| == dim && r.value == Total(Found(tokens, emb), dim)
    ensures r == ValueEmbOf(tokens, emb, dim)
  {
    var valueVec := new real[0];
    var have := false;
    var i := 0;
    while i < |tokens|
      invariant 0 <= i <= |tokens|
      invariant fresh(valueVec)
      invariant have <==> Found(tokens[..i], emb) != []
      invariant have ==> valueVec[..] == Total(Found(tokens[..i], emb), dim)
    {
      var t := tokens[i];
      assert tokens[..i + 1][..i] == tokens[..i];
      if t in emb {
        var e := Fetch(emb[t]);
        if !have {
          valueVec := e;
          assert Found(tokens[..i + 1], emb) == [emb[t]];
          TotalSingle(emb[t]);
          have := true;
        } else {
          assert Found(tokens[..i + 1], emb) == Found(tokens[..i], emb) + [emb[t]];
          var panicked := Add(valueVec, e);
          assert !panicked;
        }
      } else {
        assert Found(tokens[..i + 1], emb) == Found(tokens[..i], emb);
      }
      i := i + 1;
    }
    assert tokens[..i] == tokens;
    FoundEmpty(tokens, emb);
    if !have {
      return Err(ErrNoEmbFound);
    }
    return Ok(valueVec[..]);
  }

  /** `Tokenize`: transFun on the value, tokenFun on the result, then
      transFun on each token, in place */
  method Tokenize(v: string, tok: string -> seq<string>, trans: string -> string) returns (tokens: seq<string>)
    ensures |tokens| == |tok(trans(v))|
    ensures forall j :: 0 <= j < |tokens| ==> tokens[j] == trans(tok(trans(v))[j])
    ensures tokens == BenchUtil.MapTrans(tok(trans(v)), trans)
  {
    var w := trans(v);
    tokens := tok(w);
    ghost var split := tokens;
    var i := 0;
    while i < |tokens|
      invariant 0 <= i <= |tokens| == |split|
      invariant forall j :: 0 <= j < i ==> tokens[j] == trans(split[j])
      invariant forall j :: i <= j < |tokens| ==> tokens[j] == split[j]
    {
      tokens := tokens[i := trans(tokens[i])];
      i := i + 1;
    }
  }

  /** the transformed values of vs seen so far */
  function Transformed(vs: seq<string>, trans: string -> string): set<string>
  {
    set v | v in vs :: trans(v)
  }

  /** what `TokenizedValues` (embedding/embedding.go) sends: for each value
      whose transform was not seen before, the transformed tokens of its
      transform, unless it has more than 5 tokens */
  function DistinctTokenized(values: seq<string>, tok: string -> seq<string>, trans: string -> string): seq<seq<string>>
  {
    if values == [] then []
    else
      var init := values[..|values| - 1];
      var w := trans(values[|values| - 1]);
      var tokens := tok(w);
      DistinctTokenized(init, tok, trans) +
        (if w in Transformed(init, trans) || |tokens| > 5 then [] else [BenchUtil.MapTrans(tokens, trans)])
  }

  /** `TokenizedValues` with its channel collected into a sequence; the
      counter of seen values is a set. */
  method TokenizedValues(values: seq<string>, tok: string -> seq<string>, trans: string -> string)
    returns (out: seq<seq<string>>)
    ensures out == DistinctTokenized(values, tok, trans)
  {
    out := [];
    var seen: set<string> := {};
    var i := 0;
    while i < |values|
      invariant 0 <= i <= |values|
      invariant seen == Transformed(values[..i], trans)
      invariant out == DistinctTokenized(values[..i], tok, trans)
    {
      var v := trans(values[i]);
      assert values[..i + 1][..i] == values[..i];
      assert Transformed(values[..i + 1], trans) == seen + {v} by {
        assert values[..i + 1] == values[..i] + [values[i]];
      }
      if v !in seen {
        seen := seen + {v};
        var tokens := tok(v);
        if |tokens| <= 5 {
          var k := 0;
          var mapped := tokens;
          while k < |mapped|
            invariant 0 <= k <= |mapped| == |tokens|
            invariant forall j :: 0 <= j < k ==> mapped[j] == trans(tokens[j])
            invariant forall j :: k <= j < |mapped| ==> mapped[j] == tokens[j]
          {
            mapped := mapped[k := trans(mapped[k])];
            k := k + 1;
          }
          assert mapped == BenchUtil.MapTrans(tokens, trans);
          out := out + [mapped];
        }
      }
      i := i + 1;
    }
    assert values[..i] == values;
  }

  /** Each transformed value is sent at most once: no two emitted lists come
      from equal transforms, and at most one list per distinct transform. */
  lemma {:induction false} DistinctTokenizedBound(values: seq<string>, tok: string -> seq<string>, trans: string -> string)
    ensures |DistinctTokenized(values, tok, trans)| <= |Transformed(values, trans)|
    ensures forall t :: t in DistinctTokenized(values, tok, trans) ==> |t| <= 5
  {
    if values != [] {
      var init := values[..|values| - 1];
      var w := trans(values[|values| - 1]);
      DistinctTokenizedBound(init, tok, trans);
      assert values == init + [values[|values| - 1]];
      assert Transformed(values, trans) == Transformed(init, trans) + {w};
      var tokens := tok(w);
      var last: seq<seq<string>> := if w in Transformed(init, trans) || |tokens| > 5 then [] else [BenchUtil.MapTrans(tokens, trans)];
      assert DistinctTokenized(values, tok, trans) == DistinctTokenized(init, tok, trans) + last;
      if w !in Transformed(init, trans) {
        assert |Transformed(values, trans)| == |Transformed(init, trans)| + 1;
        if |tokens| <= 5 {
          assert |BenchUtil.MapTrans(tokens, trans)| <= 5;
        }
      } else {
        assert last == [];
        assert Transformed(values, trans) == Transformed(init, trans);
      }
      assert forall t :: t in last ==> |t| <= 5;
    }
  }

  /** the embeddings of the values that have one, in order */
  function ValueVecs(lists: seq<seq<string>>, emb: map<string, Vec>, dim: nat): (r: seq<Vec>)
    requires StoreDim(emb, dim)
    ensures Dimensioned(r, dim) && |r| <= |lists|
  {
    if lists == [] then []
    else
      var init := ValueVecs(lists[..|lists| - 1], emb, dim);
      match ValueEmbOf(lists[|lists| - 1], emb, dim)
      case Ok(v) => init + [v]
      case Err(_) => init
  }

  /** the componentwise quotients `v / float64(count)` */
  function Divided(v: Vec, count: nat): (r: Vec)
    requires count >= 1
    ensures |r| == |v| && forall i :: 0 <= i < |r| ==> r[i] == v[i] / count as real
  {
    seq(|v|, i requires 0 <= i < |v| => v[i] / count as real)
  }

  /** what `GetDomainEmbAve` returns */
  function DomainEmbAve(column: seq<string>, emb: map<string, Vec>, dim: nat, tok: string -> seq<string>, trans: string -> string): Result<Vec>
    requires StoreDim(emb, dim)
  {
    var vs := ValueVecs(DistinctTokenized(column, tok, trans), emb, dim);
    if vs == [] then Err(ErrNoEmbFound) else Ok(Divided(Total(vs, dim), |vs|))
  }

  /** `GetDomainEmbAve`: the average of the embeddings of the distinct
      values that have one (the sum divided by their count), or
      ErrNoEmbFound when none has. */
  method GetDomainEmbAve(emb: map<string, Vec>, dim: nat, tok: string -> seq<string>, trans: string -> string, column: seq<string>)
    returns (r: Result<Vec>)
    requires StoreDim(emb, dim)
    ensures r == DomainEmbAve(column, emb, dim, tok, trans)
  {
    var values := TokenizedValues(column, tok, trans);
    var have, vec, count := SumValueEmbs(emb, dim, values);
    if !have {
      return Err(ErrNoEmbFound);
    }
    DivideInPlace(vec, count);
    return Ok(vec[..]);
  }

  /** the summing loop of `GetDomainEmbAve`: the sum of the value
      embeddings found, and how many there were */
  method SumValueEmbs(emb: map<string, Vec>, dim: nat, values: seq<seq<string>>)
    returns (have: bool, vec: array<real>, count: nat)
    requires StoreDim(emb, dim)
    ensures fresh(vec)
    ensures count == |ValueVecs(values, emb, dim)| && (have <==> count > 0)
    ensures have ==> vec[..] == Total(ValueVecs(values, emb, dim), dim)
  {
    vec := new real[0];
    have := false;
    count := 0;
    var i := 0;
    while i < |values|
      invariant 0 <= i <= |values|
      invariant fresh(vec)
      invariant count == |ValueVecs(values[..i], emb, dim)|
      invariant have <==> count > 0
      invariant have ==> vec[..] == Total(ValueVecs(values[..i], emb, dim), dim)
    {
      assert values[..i + 1][..i] == values[..i];
      var valueVec := GetValueEmb(emb, dim, values[i]);
      if valueVec.Ok? {
        var v := valueVec.value;
        assert ValueVecs(values[..i + 1], emb, dim) == ValueVecs(values[..i], emb, dim) + [v];
        var e := Fetch(v);
        if !have {
          vec := e;
          TotalSingle(v);
          have := true;
        } else {
          var panicked := Add(vec, e);
          assert !panicked;
        }
        count := count + 1;
      } else {
        assert ValueVecs(values[..i + 1], emb, dim) == ValueVecs(values[..i], emb, dim);
      }
      i := i + 1;
    }
    assert values[..i] == values;
  }

  /** `vec[i] = v / float64(count)` for every component */
  method DivideInPlace(vec: array<real>, count: nat)
    requires count >= 1
    modifies vec
    ensures vec[..] == Divided(old(vec[..]), count)
  {
    var j := 0;
    while j < vec.Length
      invariant 0 <= j <= vec.Length
      invariant forall m :: 0 <= m < j ==> vec[m] == old(vec[m]) / count as real
      invariant forall m :: j <= m < vec.Length ==> vec[m] == old(vec[m])
    {
      vec[j] := vec[j] / count as real;
      j := j + 1;
    }
    assert forall m :: 0 <= m < vec.Length ==> vec[..][m] == Divided(old(vec[..]), count)[m];
  }

  /** When every value that has an embedding has the same one, u, the
      average is u. */
  lemma AverageOfCopies(column: seq<string>, emb: map<string, Vec>, dim: nat, tok: string -> seq<string>, trans: string -> string, u: Vec)
    requires StoreDim(emb, dim) && |u| == dim
    requires forall v :: v in ValueVecs(DistinctTokenized(column, tok, trans), emb, dim) ==> v == u
    ensures DomainEmbAve(column, emb, dim, tok, trans).Ok? ==> DomainEmbAve(column, emb, dim, tok, trans).value == u
  {
    var vs := ValueVecs(DistinctTokenized(column, tok, trans), emb, dim);
    if vs != [] {
      TotalCopies(vs, u);
      DividedScaled(u, |vs|);
    }
  }

  lemma DividedScaled(u: Vec, n: nat)
    requires n >= 1
    ensures Divided(Scale(u, n as real), n) == u
  {
    var d := Divided(Scale(u, n as real), n);
    forall i | 0 <= i < |u| ensures d[i] == u[i] {
      assert d[i] == (u[i] * n as real) / n as real;
    }
    assert d == u;
  }

  lemma ScaledReciprocal(u: Vec, n: nat)
    requires n >= 1
    ensures Scale(Scale(u, n as real), 1.0 / n as real) == u
  {
    var d := Scale(Scale(u, n as real), 1.0 / n as real);
    forall i | 0 <= i < |u| ensures d[i] == u[i] {
      MulReciprocal(u[i], n as real);
    }
    assert d == u;
  }

  /** A column fails to embed exactly when no distinct value has a token in
      the store. */
  lemma {:induction false} ValueVecsEmpty(lists: seq<seq<string>>, emb: map<string, Vec>, dim: nat)
    requires StoreDim(emb, dim)
    ensures ValueVecs(lists, emb, dim) == [] <==>
      forall k, j :: 0 <= k < |lists| && 0 <= j < |lists[k]| ==> lists[k][j] !in emb
  {
    if lists != [] {
      var init := lists[..|lists| - 1];
      ValueVecsEmpty(init, emb, dim);
      FoundEmpty(lists[|lists| - 1], emb);
      assert forall k :: 0 <= k < |init| ==> init[k] == lists[k];
    }
  }

  /** the frequency-scaled embeddings of the values that have one, in order:
      value i counts freqs[i] times */
  function WeightedVecs(values: seq<string>, freqs: seq<int>, emb: map<string, Vec>, dim: nat, tok: string -> seq<string>, trans: string -> string): (r: seq<Vec>)
    requires StoreDim(emb, dim) && |freqs| >= |values|
    ensures Dimensioned(r, dim) && |r| <= |values|
  {
    if values == [] then []
    else
      var n := |values| - 1;
      var init := WeightedVecs(values[..n], freqs, emb, dim, tok, trans);
      match ValueEmbOf(BenchUtil.MapTrans(tok(trans(values[n])), trans), emb, dim)
      case Ok(v) => init + [Scale(v, freqs[n] as real)]
      case Err(_) => init
  }

  /** the sum of the frequencies of the values that have an embedding */
  function FoundFrequency(values: seq<string>, freqs: seq<int>, emb: map<string, Vec>, dim: nat, tok: string -> seq<string>, trans: string -> string): int
    requires StoreDim(emb, dim) && |freqs| >= |values|
  {
    if values == [] then 0
    else
      var n := |values| - 1;
      FoundFrequency(values[..n], freqs, emb, dim, tok, trans) +
        (if ValueEmbOf(BenchUtil.MapTrans(tok(trans(values[n])), trans), emb, dim).Ok? then freqs[n] else 0)
  }

  lemma {:induction false} FoundFrequencyPositive(values: seq<string>, freqs: seq<int>, emb: map<string, Vec>, dim: nat, tok: string -> seq<string>, trans: string -> string)
    requires StoreDim(emb, dim) && |freqs| >= |values|
    // frequencies are occurrence counts of a domain's distinct values, so each is at least 1
    requires forall i :: 0 <= i < |values| ==> freqs[i] >= 1
    ensures WeightedVecs(values, freqs, emb, dim, tok, trans) != [] ==> FoundFrequency(values, freqs, emb, dim, tok, trans) >= 1
    ensures FoundFrequency(values, freqs, emb, dim, tok, trans) >= 0
  {
    if values != [] {
      FoundFrequencyPositive(values[..|values| - 1], freqs, emb, dim, tok, trans);
    }
  }

  /** one iteration of the frequency loops: the value's embedding, scaled
      in place by its frequency; absent when the value has none */
  method ScaledValueEmb(emb: map<string, Vec>, dim: nat, tok: string -> seq<string>, trans: string -> string, value: string, freq: int)
    returns (found: bool, vec: array<real>)
    requires StoreDim(emb, dim)
    ensures fresh(vec)
    ensures var r := ValueEmbOf(BenchUtil.MapTrans(tok(trans(value)), trans), emb, dim);
      found == r.Ok? && (found ==> vec[..] == Scale(r.value, freq as real))
  {
    var tokens := Tokenize(value, tok, trans);
    var r := GetValueEmb(emb, dim, tokens);
    vec := new real[0];
    found := r.Ok?;
    if found {
      vec := Fetch(r.value);
      ScaleInPlace(vec, freq as real);
    }
  }

  /** `GetDomainEmbSum`: the sum of the embeddings of the values that have
      one, each scaled by its frequency, or ErrNoEmbFound when none has. */
  method GetDomainEmbSum(emb: map<string, Vec>, dim: nat, tok: string -> seq<string>, trans: string -> string, values: seq<string>, freqs: seq<int>)
    returns (r: Result<Vec>)
    requires StoreDim(emb, dim) && |freqs| >= |values|
    ensures var vs := WeightedVecs(values, freqs, emb, dim, tok, trans);
      r == if vs == [] then Err(ErrNoEmbFound) else Ok(Total(vs, dim))
  {
    var sum := new real[0];
    var have := false;
    ghost var acc: seq<Vec> := [];
    var i := 0;
    while i < |values|
      invariant 0 <= i <= |values|
      invariant fresh(sum)
      invariant acc == WeightedVecs(values[..i], freqs, emb, dim, tok, trans)
      invariant have <==> acc != []
      invariant have ==> sum[..] == Total(acc, dim)
    {
      WeightedStep(values, freqs, emb, dim, tok, trans, i);
      var found, vec := ScaledValueEmb(emb, dim, tok, trans, values[i], freqs[i]);
      if found {
        TotalSnoc(acc, vec[..], dim);
        if !have {
          sum := vec;
          have := true;
        } else {
          var panicked := Add(sum, vec);
          assert !panicked;
        }
        acc := acc + [vec[..]];
      }
      i := i + 1;
    }
    assert values[..i] == values;
    if !have {
      return Err(ErrNoEmbFound);
    }
    return Ok(sum[..]);
  }

  lemma WeightedStep(values: seq<string>, freqs: seq<int>, emb: map<string, Vec>, dim: nat, tok: string -> seq<string>, trans: string -> string, i: nat)
    requires StoreDim(emb, dim) && |freqs| >= |values| && i < |values|
    ensures var r := ValueEmbOf(BenchUtil.MapTrans(tok(trans(values[i])), trans), emb, dim);
      WeightedVecs(values[..i + 1], freqs, emb, dim, tok, trans) ==
        WeightedVecs(values[..i], freqs, emb, dim, tok, trans) + (if r.Ok? then [Scale(r.value, freqs[i] as real)] else [])
  {
    assert values[..i + 1][..i] == values[..i];
  }

  lemma TotalSnoc(vs: seq<Vec>, v: Vec, dim: nat)
    requires Dimensioned(vs, dim) && |v| == dim
    ensures Dimensioned(vs + [v], dim)
    ensures Total(vs + [v], dim) == (if vs == [] then v else VecAdd(Total(vs, dim), v))
  {
    assert (vs + [v])[..|vs|] == vs;
    if vs == [] {
      TotalSingle(v);
    }
  }

  /** `multVector` as written: every component is divided by s. */
  method MultVector(v: seq<real>, s: real) returns (sv: seq<real>)
    requires s != 0.0
    ensures |sv| == |v| && forall i :: 0 <= i < |v| ==> sv[i] == v[i] / s
  {
    var a := new real[|v|];
    var i := 0;
    while i < |v|
      invariant 0 <= i <= |v|
      invariant forall j :: 0 <= j < i ==> a[j] == v[j] / s
    {
      a[i] := v[i] / s;
      i := i + 1;
    }
    sv := a[..];
  }

  /** multVector corrected: every component is multiplied by s. */
  method MultVectorFixed(v: seq<real>, s: real) returns (sv: seq<real>)
    ensures sv == Scale(v, s)
  {
    var a := new real[|v|];
    var i := 0;
    while i < |v|
      invariant 0 <= i <= |v|
      invariant forall j :: 0 <= j < i ==> a[j] == v[j] * s
    {
      a[i] := v[i] * s;
      i := i + 1;
    }
    sv := a[..];
  }

  /** the frequency-weighted mean of the value embeddings */
  function DomainEmbMean(values: seq<string>, freqs: seq<int>, emb: map<string, Vec>, dim: nat, tok: string -> seq<string>, trans: string -> string): Result<Vec>
    requires StoreDim(emb, dim) && |freqs| >= |values|
    // frequencies are occurrence counts of a domain's distinct values, so each is at least 1
    requires forall i :: 0 <= i < |values| ==> freqs[i] >= 1
  {
    var vs := WeightedVecs(values, freqs, emb, dim, tok, trans);
    FoundFrequencyPositive(values, freqs, emb, dim, tok, trans);
    if vs == [] then Err(ErrNoEmbFound)
    else Ok(Scale(Total(vs, dim), 1.0 / FoundFrequency(values, freqs, emb, dim, tok, trans) as real))
  }

  /** what `GetDomainEmbMean` returns as written */
  function DomainEmbMeanAsWritten(values: seq<string>, freqs: seq<int>, emb: map<string, Vec>, dim: nat, tok: string -> seq<string>, trans: string -> string): Result<Vec>
    requires StoreDim(emb, dim) && |freqs| >= |values|
  {
    var vs := WeightedVecs(values, freqs, emb, dim, tok, trans);
    if vs == [] then Err(ErrNoEmbFound)
    else Ok(Scale(Total(vs, dim), FoundFrequency(values, freqs, emb, dim, tok, trans) as real))
  }

  /** `GetDomainEmbMean` as written: multVector(sum, 1/n) divides the sum by
      1/n, so each component is the sum times n, n the total frequency of
      the values found. */
  method GetDomainEmbMeanAsWritten(emb: map<string, Vec>, dim: nat, tok: string -> seq<string>, trans: string -> string, values: seq<string>, freqs: seq<int>)
    returns (r: Result<Vec>)
    requires StoreDim(emb, dim) && |freqs| >= |values|
    // frequencies are occurrence counts of a domain's distinct values, so each is at least 1
    requires forall i :: 0 <= i < |values| ==> freqs[i] >= 1
    ensures r == DomainEmbMeanAsWritten(values, freqs, emb, dim, tok, trans)
  {
    var sum := GetDomainEmbSum(emb, dim, tok, trans, values, freqs);
    if sum.Err? {
      return sum;
    }
    FoundFrequencyPositive(values, freqs, emb, dim, tok, trans);
    var n := FoundNum(emb, dim, tok, trans, values, freqs);
    assert n >= 1;
    var mean := MultVector(sum.value, 1.0 / n as real);
    ReciprocalScale(sum.value, mean, n as real);
    return Ok(mean);
  }

  /** dividing each component by 1/n multiplies it by n */
  lemma ReciprocalScale(v: Vec, sv: Vec, n: real)
    requires n > 0.0 && |sv| == |v|
    requires forall i :: 0 <= i < |v| ==> sv[i] == v[i] / (1.0 / n)
    ensures sv == Scale(v, n)
  {
    forall i | 0 <= i < |v| ensures sv[i] == v[i] * n {
      DivReciprocal(v[i], n);
    }
  }

  lemma DivReciprocal(x: real, n: real)
    requires n > 0.0
    ensures x / (1.0 / n) == x * n
  {
  }

  lemma MulReciprocal(x: real, n: real)
    requires n > 0.0
    ensures (x * n) * (1.0 / n) == x
  {
  }

  /** `GetDomainEmbMean` corrected: the sum is multiplied by 1/n. */
  method GetDomainEmbMeanFixed(emb: map<string, Vec>, dim: nat, tok: string -> seq<string>, trans: string -> string, values: seq<string>, freqs: seq<int>)
    returns (r: Result<Vec>)
    requires StoreDim(emb, dim) && |freqs| >= |values|
    // frequencies are occurrence counts of a domain's distinct values, so each is at least 1
    requires forall i :: 0 <= i < |values| ==> freqs[i] >= 1
    ensures r == DomainEmbMean(values, freqs, emb, dim, tok, trans)
  {
    var sum := GetDomainEmbSum(emb, dim, tok, trans, values, freqs);
    if sum.Err? {
      return sum;
    }
    FoundFrequencyPositive(values, freqs, emb, dim, tok, trans);
    var n := FoundNum(emb, dim, tok, trans, values, freqs);
    var mean := MultVectorFixed(sum.value, 1.0 / n as real);
    return Ok(mean);
  }

  /** the `ftValuesNum` counter of `GetDomainEmbMean` */
  method FoundNum(emb: map<string, Vec>, dim: nat, tok: string -> seq<string>, trans: string -> string, values: seq<string>, freqs: seq<int>)
    returns (n: int)
    requires StoreDim(emb, dim) && |freqs| >= |values|
    ensures n == FoundFrequency(values, freqs, emb, dim, tok, trans)
  {
    n := 0;
    var i := 0;
    while i < |values|
      invariant 0 <= i <= |values|
      invariant n == FoundFrequency(values[..i], freqs, emb, dim, tok, trans)
    {
      assert values[..i + 1][..i] == values[..i];
      var tokens := Tokenize(values[i], tok, trans);
      var vec := GetValueEmb(emb, dim, tokens);
      if vec.Ok? {
        n := n + freqs[i];
      }
      i := i + 1;
    }
    assert values[..i] == values;
  }

  /** When every value found embeds to the same u, the mean is u. */
  lemma {:induction false} MeanOfCopies(values: seq<string>, freqs: seq<int>, emb: map<string, Vec>, dim: nat, tok: string -> seq<string>, trans: string -> string, u: Vec)
    requires StoreDim(emb, dim) && |freqs| >= |values| && |u| == dim
    // frequencies are occurrence counts of a domain's distinct values, so each is at least 1
    requires forall i :: 0 <= i < |values| ==> freqs[i] >= 1
    requires forall i :: 0 <= i < |values| ==> ValueEmbOf(BenchUtil.MapTrans(tok(trans(values[i])), trans), emb, dim) in {Ok(u), Err(ErrNoEmbFound)}
    ensures DomainEmbMean(values, freqs, emb, dim, tok, trans).Ok? ==> DomainEmbMean(values, freqs, emb, dim, tok, trans).value == u
  {
    var vs := WeightedVecs(values, freqs, emb, dim, tok, trans);
    var n := FoundFrequency(values, freqs, emb, dim, tok, trans);
    WeightedCopies(values, freqs, emb, dim, tok, trans, u);
    FoundFrequencyPositive(values, freqs, emb, dim, tok, trans);
    if vs != [] {
      ScaledReciprocal(u, n);
    }
  }

  lemma {:induction false} WeightedCopies(values: seq<string>, freqs: seq<int>, emb: map<string, Vec>, dim: nat, tok: string -> seq<string>, trans: string -> string, u: Vec)
    requires StoreDim(emb, dim) && |freqs| >= |values| && |u| == dim
    requires forall i :: 0 <= i < |values| ==> ValueEmbOf(BenchUtil.MapTrans(tok(trans(values[i])), trans), emb, dim) in {Ok(u), Err(ErrNoEmbFound)}
    ensures Total(WeightedVecs(values, freqs, emb, dim, tok, trans), dim) == Scale(u, FoundFrequency(values, freqs, emb, dim, tok, trans) as real)
  {
    if values != [] {
      var n := |values| - 1;
      var r := ValueEmbOf(BenchUtil.MapTrans(tok(trans(values[n])), trans), emb, dim);
      assert r in {Ok(u), Err(ErrNoEmbFound)};
      WeightedCopies(values[..n], freqs, emb, dim, tok, trans, u);
      if r.Ok? {
        CopyFound(values, freqs, emb, dim, tok, trans, u);
      } else {
        CopyMissing(values, freqs, emb, dim, tok, trans, u);
      }
    }
  }

  /** the last value embeds to u: one more weighted copy of u */
  lemma CopyFound(values: seq<string>, freqs: seq<int>, emb: map<string, Vec>, dim: nat, tok: string -> seq<string>, trans: string -> string, u: Vec)
    requires StoreDim(emb, dim) && |freqs| >= |values| > 0 && |u| == dim
    requires ValueEmbOf(BenchUtil.MapTrans(tok(trans(values[|values| - 1])), trans), emb, dim) == Ok(u)
    requires var init := values[..|values| - 1];
      Total(WeightedVecs(init, freqs, emb, dim, tok, trans), dim) == Scale(u, FoundFrequency(init, freqs, emb, dim, tok, trans) as real)
    ensures Total(WeightedVecs(values, freqs, emb, dim, tok, trans), dim) == Scale(u, FoundFrequency(values, freqs, emb, dim, tok, trans) as real)
  {
    var n := |values| - 1;
    var init := WeightedVecs(values[..n], freqs, emb, dim, tok, trans);
    var n0 := FoundFrequency(values[..n], freqs, emb, dim, tok, trans);
    var w := Scale(u, freqs[n] as real);
    assert WeightedVecs(values, freqs, emb, dim, tok, trans) == init + [w];
    assert FoundFrequency(values, freqs, emb, dim, tok, trans) == n0 + freqs[n];
    TotalLast(init, w, dim);
    ScaleAdd(u, n0 as real, freqs[n] as real);
  }

  /** the sum of vs and one more vector */
  lemma TotalLast(vs: seq<Vec>, v: Vec, dim: nat)
    requires Dimensioned(vs, dim) && |v| == dim
    ensures Dimensioned(vs + [v], dim)
    ensures Total(vs + [v], dim) == VecAdd(Total(vs, dim), v)
  {
    var s := vs + [v];
    assert s[..|s| - 1] == vs && s[|s| - 1] == v;
  }

  /** the last value embeds to nothing: the sum and the count stay */
  lemma CopyMissing(values: seq<string>, freqs: seq<int>, emb: map<string, Vec>, dim: nat, tok: string -> seq<string>, trans: string -> string, u: Vec)
    requires StoreDim(emb, dim) && |freqs| >= |values| > 0 && |u| == dim
    requires ValueEmbOf(BenchUtil.MapTrans(tok(trans(values[|values| - 1])), trans), emb, dim).Err?
    requires var init := values[..|values| - 1];
      Total(WeightedVecs(init, freqs, emb, dim, tok, trans), dim) == Scale(u, FoundFrequency(init, freqs, emb, dim, tok, trans) as real)
    ensures Total(WeightedVecs(values, freqs, emb, dim, tok, trans), dim) == Scale(u, FoundFrequency(values, freqs, emb, dim, tok, trans) as real)
  {
  }

  /** A single value of frequency 2 whose vector is [1]: the mean as written
      is [4], the mean is [1]. */
  lemma MeanAsWrittenExample(tok: string -> seq<string>, trans: string -> string)
    requires trans("a") == "a" && tok("a") == ["a"]
    ensures var emb := map["a" := [1.0]];
      DomainEmbMeanAsWritten(["a"], [2], emb, 1, tok, trans) == Ok([4.0]) &&
      DomainEmbMean(["a"], [2], emb, 1, tok, trans) == Ok([1.0])
  {
    var emb := map["a" := [1.0]];
    var tokens := BenchUtil.MapTrans(tok(trans("a")), trans);
    assert tokens == ["a"];
    assert Found(tokens, emb) == [[1.0]] by {
      assert tokens[..0] == [];
    }
    TotalSingle([1.0]);
    assert ValueEmbOf(tokens, emb, 1) == Ok([1.0]);
    assert ["a"][..0] == [];
    assert Scale([1.0], 2.0) == [2.0];
    TotalSingle([2.0]);
    assert WeightedVecs(["a"], [2], emb, 1, tok, trans) == [[2.0]];
    assert FoundFrequency(["a"], [2], emb, 1, tok, trans) == 2;
    assert Scale([2.0], 2.0) == [4.0];
    assert Scale([2.0], 1.0 / 2.0) == [1.0];
  }

  /** the float64 byte orders of encoding/binary */
  datatype ByteOrder = BigEndian | LittleEndian

  function Pow256(n: nat): (p: nat)
    ensures p >= 1
  {
    if n == 0 then 1 else 256 * Pow256(n - 1)
  }

  /** the n bytes of w, most significant first */
  function BigEndianBytes(w: nat, n: nat): (b: seq<Byte>)
    ensures |b| == n
  {
    if n == 0 then [] else BigEndianBytes(w / 256, n - 1) + [w % 256]
  }

  /** the number whose bytes, most significant first, are b */
  function BigEndianValue(b: seq<Byte>): (v: nat)
    ensures v < Pow256(|b|)
  {
    if b == [] then 0 else BigEndianValue(b[..|b| - 1]) * 256 + b[|b| - 1]
  }

  lemma {:induction false} BigEndianRoundTrip(w: nat, n: nat)
    requires w < Pow256(n)
    ensures BigEndianValue(BigEndianBytes(w, n)) == w
  {
    if n > 0 {
      var b := BigEndianBytes(w, n);
      assert b[..|b| - 1] == BigEndianBytes(w / 256, n - 1);
      BigEndianRoundTrip(w / 256, n - 1);
    }
  }

  function Reverse<T>(s: seq<T>): (r: seq<T>)
    ensures |r| == |s| && forall i :: 0 <= i < |s| ==> r[i] == s[|s| - 1 - i]
  {
    if s == [] then [] else [s[|s| - 1]] + Reverse(s[..|s| - 1])
  }

  lemma ReverseReverse<T>(s: seq<T>)
    ensures Reverse(Reverse(s)) == s
  {
  }

  lemma EightBytes()
    ensures Pow256(8) == TwoTo64
  {
  }

  /** the 8 bytes `binary.Write` emits for a float64 whose bit pattern is w */
  function WordBytes(w: Word64, order: ByteOrder): (b: seq<Byte>)
    ensures |b| == 8
  {
    var be := BigEndianBytes(w, 8);
    if order == BigEndian then be else Reverse(be)
  }

  /** the float64 bit pattern `binary.Read` decodes from 8 bytes */
  function BytesWord(b: seq<Byte>, order: ByteOrder): Word64
    requires |b| == 8
  {
    EightBytes();
    BigEndianValue(if order == BigEndian then b else Reverse(b))
  }

  lemma WordRoundTrip(w: Word64, order: ByteOrder)
    ensures BytesWord(WordBytes(w, order), order) == w
  {
    EightBytes();
    BigEndianRoundTrip(w, 8);
    ReverseReverse(BigEndianBytes(w, 8));
  }

  /** the bytes of the whole vector, 8 per component */
  function Encode(vec: seq<Word64>, order: ByteOrder): (data: seq<Byte>)
    ensures |data| == 8 * |vec|
  {
    if vec == [] then [] else Encode(vec[..|vec| - 1], order) + WordBytes(vec[|vec| - 1], order)
  }

  /** the components read from data: one per complete group of 8 bytes,
      trailing bytes ignored */
  function Decode(data: seq<Byte>, order: ByteOrder): (vec: seq<Word64>)
    ensures |vec| == |data| / 8
  {
    seq(|data| / 8, i requires 0 <= i < |data| / 8 => EightsBelow(|data|, i); BytesWord(data[8 * i..8 * i + 8], order))
  }

  lemma DecodeAppend(a: seq<Byte>, b: seq<Byte>, order: ByteOrder)
    requires |a| % 8 == 0
    ensures Decode(a + b, order) == Decode(a, order) + Decode(b, order)
  {
    var k := |a| / 8;
    EightsAppend(|a|, |b|);
    var d, da, db := Decode(a + b, order), Decode(a, order), Decode(b, order);
    assert |d| == |da + db|;
    forall i | 0 <= i < |d| ensures d[i] == (da + db)[i] {
      if i < k {
        DecodeAppendLeft(a, b, order, k, i);
      } else {
        DecodeAppendRight(a, b, order, k, i - k);
      }
    }
  }

  /** component i of the decoded data, from its 8 bytes */
  lemma DecodeAt(data: seq<Byte>, order: ByteOrder, i: nat)
    requires i < |data| / 8
    ensures 8 * i + 8 <= |data| && Decode(data, order)[i] == BytesWord(data[8 * i..8 * i + 8], order)
  {
    EightsBelow(|data|, i);
  }

  lemma DecodeAppendLeft(a: seq<Byte>, b: seq<Byte>, order: ByteOrder, k: nat, i: nat)
    requires |a| == 8 * k && i < k && |Decode(a + b, order)| == k + |b| / 8
    ensures Decode(a + b, order)[i] == Decode(a, order)[i]
  {
    DecodeAt(a + b, order, i);
    DecodeAt(a, order, i);
    ConcatSliceLeft(a, b, 8 * i, 8 * i + 8);
  }

  lemma DecodeAppendRight(a: seq<Byte>, b: seq<Byte>, order: ByteOrder, k: nat, j: nat)
    requires |a| == 8 * k && j < |b| / 8 && k + j < |a + b| / 8
    ensures Decode(a + b, order)[k + j] == Decode(b, order)[j]
  {
    DecodeAt(a + b, order, k + j);
    DecodeAt(b, order, j);
    WordOfRight(a, b, k, j);
  }

  /** word k + j of a + b is word j of b when a holds k words */
  lemma WordOfRight(a: seq<Byte>, b: seq<Byte>, k: nat, j: nat)
    requires |a| == 8 * k && 8 * j + 8 <= |b|
    ensures (a + b)[8 * (k + j)..8 * (k + j) + 8] == b[8 * j..8 * j + 8]
  {
    var lo := 8 * j;
    assert 8 * (k + j) == |a| + lo;
    ConcatSliceRightAt(a, b, lo, lo + 8);
  }



  lemma EightsAppend(m: nat, n: nat)
    requires m % 8 == 0
    ensures (m + n) / 8 == m / 8 + n / 8 && m == 8 * (m / 8)
  {
  }

  /** the 8 bytes of one component decode to it */
  lemma DecodeWord(w: Word64, order: ByteOrder)
    ensures Decode(WordBytes(w, order), order) == [w]
  {
    var wb := WordBytes(w, order);
    DecodeAt(wb, order, 0);
    assert wb[0..8] == wb;
    WordRoundTrip(w, order);
  }

  /** `BytesToVec(VecToBytes(v)) == v` */
  lemma {:induction false} DecodeEncode(vec: seq<Word64>, order: ByteOrder)
    ensures Decode(Encode(vec, order), order) == vec
  {
    if vec != [] {
      var init, w := vec[..|vec| - 1], vec[|vec| - 1];
      DecodeEncode(init, order);
      var front, wb := Encode(init, order), WordBytes(w, order);
      assert Encode(vec, order) == front + wb;
      assert |front| % 8 == 0;
      DecodeAppend(front, wb, order);
      DecodeWord(w, order);
      SplitLast(vec);
    }
  }

  /** `VecToBytes`: each component's 8 bytes, in order */
  method VecToBytes(vec: seq<Word64>, order: ByteOrder) returns (data: seq<Byte>)
    ensures |data| == 8 * |vec|
    ensures forall i :: 0 <= i < |vec| ==> data[8 * i..8 * i + 8] == WordBytes(vec[i], order)
    ensures data == Encode(vec, order)
  {
    data := [];
    var i := 0;
    while i < |vec|
      invariant 0 <= i <= |vec|
      invariant data == Encode(vec[..i], order)
    {
      assert vec[..i + 1][..i] == vec[..i];
      data := data + WordBytes(vec[i], order);
      i := i + 1;
    }
    assert vec[..i] == vec;
    forall i | 0 <= i < |vec| ensures data[8 * i..8 * i + 8] == WordBytes(vec[i], order) {
      EncodeAt(vec, order, i);
    }
  }

  lemma {:induction false} EncodeAt(vec: seq<Word64>, order: ByteOrder, i: nat)
    requires i < |vec|
    ensures 8 * i + 8 <= |Encode(vec, order)|
    ensures Encode(vec, order)[8 * i..8 * i + 8] == WordBytes(vec[i], order)
    decreases |vec|, 1
  {
    if i < |vec| - 1 {
      EncodeAtFront(vec, order, i);
    } else {
      EncodeAtLast(vec, order);
    }
  }

  /** a component before the last one keeps its bytes in the encoding of
      all but the last */
  lemma {:induction false} EncodeAtFront(vec: seq<Word64>, order: ByteOrder, i: nat)
    requires i < |vec| - 1
    ensures 8 * i + 8 <= |Encode(vec, order)|
    ensures Encode(vec, order)[8 * i..8 * i + 8] == WordBytes(vec[i], order)
    decreases |vec|, 0
  {
    var n := |vec| - 1;
    var init := vec[..n];
    var front, wb := Encode(init, order), WordBytes(vec[n], order);
    assert Encode(vec, order) == front + wb;
    EncodeAt(init, order, i);
    assert init[i] == vec[i];
    ConcatSliceLeft(front, wb, 8 * i, 8 * i + 8);
  }

  /** the last component's bytes end the encoding */
  lemma EncodeAtLast(vec: seq<Word64>, order: ByteOrder)
    requires vec != []
    ensures var i := |vec| - 1;
      8 * i + 8 <= |Encode(vec, order)| && Encode(vec, order)[8 * i..8 * i + 8] == WordBytes(vec[i], order)
  {
    var n := |vec| - 1;
    var front, wb := Encode(vec[..n], order), WordBytes(vec[n], order);
    assert Encode(vec, order) == front + wb;
    ConcatSliceRight(front, wb);
  }

  /** `BytesToVec`: len(data)/8 components, each decoded from its 8 bytes;
      the read never fails as every component has its 8 bytes. */
  method BytesToVec(data: seq<Byte>, order: ByteOrder) returns (r: Result<seq<Word64>>)
    ensures r.Ok? && |r.value| == |data| / 8
    ensures r == Ok(Decode(data, order))
  {
    var size := |data| / 8;
    var vec := new Word64[size];
    var i := 0;
    while i < size
      invariant 0 <= i <= size
      invariant Decode(data, order)[..i] == vec[..i]
    {
      DecodeAt(data, order, i);
      vec[i] := BytesWord(data[8 * i..8 * i + 8], order);
      i := i + 1;
    }
    assert Decode(data, order)[..size] == Decode(data, order);
    assert vec[..size] == vec[..];
    return Ok(vec[..]);
  }

  lemma EightsBelow(n: nat, i: nat)
    requires i < n / 8
    ensures 8 * i + 8 <= n
  {
  }
}
