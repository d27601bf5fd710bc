/** embserver/util.go: domain names and the set similarity of two domains.
    `toColumnID`, `fromColumnID` and `getDomainName` are the functions
    `BenchUtil.ToColumnID` and `BenchUtil.FromColumnID` model (the same
    format "<tableID>:<columnIndex>" and the same checks). */
module EmbUtil {
  import opened Wrappers
  import opened GoStrings
  import BenchUtil

  /** `getTableColumnIndexFromDomainName`: the text before the first ':' and
      the integer after it. Unlike `fromColumnID` it does not check the
      number of parts: it panics when there is no ':' (the index of the
      second part is out of range) or the second part is not an integer,
      and ignores anything after a second ':'. */
  function GetTableColumnIndexFromDomainName(name: string): (r: Outcome<(string, int)>)
    ensures r.Value? <==> |Split(name, ':')| >= 2 && Atoi(Split(name, ':')[1]).Ok?
    ensures r.Value? ==> ':' !in r.value.0 && HasPrefix(name, r.value.0 + ":")
  {
    var ps := Split(name, ':');
    if |ps| < 2 then Panic("index out of range")
    else
      var n := Atoi(ps[1]);
      if n.Err? then Panic(n.error)
      else
        SplitPartsLackSep(name, ':');
        JoinSplit(name, ':');
        JoinPrefix(ps, ':');
        Value((ps[0], n.value))
  }

  /** a list of two or more parts joined with sep begins with the first
      part and sep */
  lemma JoinPrefix(parts: seq<string>, sep: char)
    requires |parts| >= 2
    ensures HasPrefix(Join(parts, sep), parts[0] + [sep])
  {
    JoinFront(parts, sep);
  }

  lemma {:induction false} JoinFront(parts: seq<string>, sep: char)
    requires |parts| >= 2
    ensures Join(parts, sep) == parts[0] + [sep] + Join(parts[1..], sep)
  {
    if |parts| > 2 {
      JoinFront(parts[..|parts| - 1], sep);
      assert parts[..|parts| - 1][1..] == parts[1..][..|parts| - 2];
    } else {
      assert parts[1..] == [parts[1]];
    }
  }

  /** The domain name of a table without ':' and a 64-bit column index
      reads back as that table and index. */
  lemma DomainNameRoundTrip(tableID: string, columnIndex: Int64)
    requires ':' !in tableID
    ensures GetTableColumnIndexFromDomainName(BenchUtil.ToColumnID(tableID, columnIndex)) == Value((tableID, columnIndex))
  {
    var digits := Itoa(columnIndex);
    assert BenchUtil.ToColumnID(tableID, columnIndex) == tableID + [':'] + digits;
    SplitConcat(tableID, ':', digits);
    SplitWithoutSep(tableID, ':');
    SplitWithoutSep(digits, ':');
    AtoiItoa(columnIndex);
  }

  /** Text after a second ':' does not change what the name reads as. */
  lemma DomainNameIgnoresRest(tableID: string, columnIndex: Int64, rest: string)
    requires ':' !in tableID
    ensures GetTableColumnIndexFromDomainName(BenchUtil.ToColumnID(tableID, columnIndex) + ":" + rest) == Value((tableID, columnIndex))
  {
    var digits := Itoa(columnIndex);
    var name := BenchUtil.ToColumnID(tableID, columnIndex) + ":" + rest;
    assert name == tableID + [':'] + (digits + [':'] + rest);
    SplitConcat(tableID, ':', digits + [':'] + rest);
    SplitConcat(digits, ':', rest);
    SplitWithoutSep(tableID, ':');
    SplitWithoutSep(digits, ':');
    AtoiItoa(columnIndex);
  }

  // ---------------------------------------------------------------
  // jaccard, containment
  // ---------------------------------------------------------------

  /** `convertSliceToSet`: the distinct values of a domain, lowercased */
  function LowerSet(dom: seq<string>): (r: set<string>)
    ensures forall v :: v in r ==> ToLower(v) == v
    ensures |r| <= |dom|
  {
    if dom == [] then {}
    else
      var v := ToLower(dom[|dom| - 1]);
      ToLowerIdempotent(dom[|dom| - 1]);
      LowerSet(dom[..|dom| - 1]) + {v}
  }

  lemma LowerSetSnoc(dom: seq<string>, v: string)
    ensures LowerSet(dom + [v]) == LowerSet(dom) + {ToLower(v)}
  {
    assert (dom + [v])[..|dom|] == dom;
  }

  /** A lowercased value is in the set exactly when some value of the
      domain lowercases to it. */
  lemma {:induction false} LowerSetMembers(dom: seq<string>, v: string)
    ensures v in LowerSet(dom) <==> exists x :: x in dom && ToLower(x) == v
  {
    if dom != [] {
      var init := dom[..|dom| - 1];
      LowerSetMembers(init, v);
      assert dom == init + [dom[|dom| - 1]];
      if exists x :: x in dom && ToLower(x) == v {
        var x :| x in dom && ToLower(x) == v;
        assert x in init || x == dom[|dom| - 1];
      }
    }
  }

  /** `jaccard`: |A ∩ B| / |A ∪ B| of the two lowercased sets (NaN when both
      domains are empty) */
  function Jaccard(dom1: seq<string>, dom2: seq<string>): Float
  {
    var a, b := LowerSet(dom1), LowerSet(dom2);
    Div(|a * b| as real, |a + b| as real)
  }

  /** `containment`: |A ∩ B| / |A| of the two lowercased sets (NaN when the
      first domain is empty) */
  function Containment(dom1: seq<string>, dom2: seq<string>): Float
  {
    var a, b := LowerSet(dom1), LowerSet(dom2);
    Div(|a * b| as real, |a| as real)
  }

  lemma SetSizes(a: set<string>, b: set<string>)
    ensures |a * b| <= |a| <= |a + b|
    ensures |a * b| == |a| <==> a <= b
    ensures |a| == |a + b| <==> b <= a
  {
    SetParts(a, b);
    SetParts(b, a);
    assert a * b == b * a;
    assert a + b == (a - b) + (b - a) + a * b;
    assert |a + b| == |a - b| + |b - a| + |a * b| by {
      assert (a - b) * (b - a) == {};
      assert ((a - b) + (b - a)) * (a * b) == {};
    }
    assert a <= b <==> a - b == {};
    assert b <= a <==> b - a == {};
  }

  /** a set is the part outside another set and the part inside it */
  lemma SetParts(a: set<string>, b: set<string>)
    ensures |a| == |a - b| + |a * b|
  {
    assert a == (a - b) + a * b;
    assert (a - b) * (a * b) == {};
  }

  /** x / y for 0 <= x <= y, y > 0: a fraction in [0, 1], 1 exactly at x == y */
  lemma UnitFraction(x: nat, y: nat)
    requires x <= y && y > 0
    ensures 0.0 <= (x as real) / (y as real) <= 1.0
    ensures (x as real) / (y as real) == 1.0 <==> x == y
  {
    var q := (x as real) / (y as real);
    assert q * (y as real) == x as real;
  }

  /** Jaccard is a fraction in [0, 1], NaN only when both domains are
      empty, and 1 exactly when the two lowercased sets are equal. */
  lemma JaccardRange(dom1: seq<string>, dom2: seq<string>)
    ensures Jaccard(dom1, dom2) == NaN <==> dom1 == [] && dom2 == []
    ensures Jaccard(dom1, dom2).Num? <==> dom1 != [] || dom2 != []
    ensures Jaccard(dom1, dom2).Num? ==> 0.0 <= Jaccard(dom1, dom2).r <= 1.0
    ensures Jaccard(dom1, dom2) == Num(1.0) <==> (dom1 != [] || dom2 != []) && LowerSet(dom1) == LowerSet(dom2)
  {
    var a, b := LowerSet(dom1), LowerSet(dom2);
    NonEmpty(dom1);
    NonEmpty(dom2);
    SetSizes(a, b);
    SetSizes(b, a);
    assert b + a == a + b && b * a == a * b;
    if |a + b| != 0 {
      UnitFraction(|a * b|, |a + b|);
    }
  }

  /** A domain with a value has a nonempty lowercased set. */
  lemma NonEmpty(dom: seq<string>)
    ensures LowerSet(dom) == {} <==> dom == []
  {
    if dom != [] {
      LowerSetMembers(dom, ToLower(dom[0]));
    }
  }

  /** Containment is a fraction in [0, 1], NaN only when the first domain is
      empty, and 1 exactly when the first lowercased set is inside the
      second. */
  lemma ContainmentRange(dom1: seq<string>, dom2: seq<string>)
    ensures Containment(dom1, dom2) == NaN <==> dom1 == []
    ensures Containment(dom1, dom2).Num? <==> dom1 != []
    ensures Containment(dom1, dom2).Num? ==> 0.0 <= Containment(dom1, dom2).r <= 1.0
    ensures Containment(dom1, dom2) == Num(1.0) <==> dom1 != [] && LowerSet(dom1) <= LowerSet(dom2)
  {
    var a, b := LowerSet(dom1), LowerSet(dom2);
    NonEmpty(dom1);
    SetSizes(a, b);
    if |a| != 0 {
      UnitFraction(|a * b|, |a|);
    }
  }

  /** Jaccard is symmetric and never above containment. */
  lemma JaccardBelowContainment(dom1: seq<string>, dom2: seq<string>)
    requires dom1 != []
    ensures Jaccard(dom1, dom2) == Jaccard(dom2, dom1)
    ensures Jaccard(dom1, dom2).r <= Containment(dom1, dom2).r
  {
    var a, b := LowerSet(dom1), LowerSet(dom2);
    NonEmpty(dom1);
    SetSizes(a, b);
    assert b + a == a + b && b * a == a * b;
    var x, y, z := |a * b| as real, |a + b| as real, |a| as real;
    assert 0.0 < z <= y;
    SmallerDenominator(x, y, z);
  }

  lemma SmallerDenominator(x: real, y: real, z: real)
    requires 0.0 <= x && 0.0 < z <= y
    ensures x / y <= x / z
  {
    var p, q := x / y, x / z;
    assert p * y == x && q * z == x;
    assert p >= 0.0;
    assert p * z <= p * y;
  }

  /** The values of the examples in embserver/util_test.go: repeats and
      letter case do not count, so {a, b} and {b, c, d} share one of four
      values and one of the first domain's two. */
  lemma SimilarityExample()
    ensures Jaccard(["a", "a", "a", "b"], ["B", "c", "c", "d"]) == Num(0.25)
    ensures Containment(["a", "a", "a", "b"], ["B", "c", "c", "d"]) == Num(0.5)
  {
    var dom1, dom2 := ["a", "a", "a", "b"], ["B", "c", "c", "d"];
    FirstExampleSet();
    SecondExampleSet();
    assert "a"[0] != "b"[0] && "a"[0] != "c"[0] && "a"[0] != "d"[0];
    assert "b"[0] != "c"[0] && "b"[0] != "d"[0] && "c"[0] != "d"[0];
    OverlapSizes("a", "b", "c", "d");
  }

  /** {w, x} and {x, y, z}, all four different, share one of four values
      and one of the first set's two */
  lemma OverlapSizes<T>(w: T, x: T, y: T, z: T)
    requires w != x && w != y && w != z && x != y && x != z && y != z
    ensures |{w, x} * {x, y, z}| == 1 && |{w, x}| == 2 && |{w, x} + {x, y, z}| == 4
  {
    assert {w, x} * {x, y, z} == {x};
    assert {w, x} + {x, y, z} == {w, x, y, z};
  }

  lemma FirstExampleSet()
    ensures LowerSet(["a", "a", "a", "b"]) == {"a", "b"}
  {
    LowerSingle('a', 'a');
    LowerSingle('b', 'b');
    LowerSetSnoc([], "a");
    assert [] + ["a"] == ["a"];
    LowerSetSnoc(["a"], "a");
    assert ["a"] + ["a"] == ["a", "a"];
    LowerSetSnoc(["a", "a"], "a");
    assert ["a", "a"] + ["a"] == ["a", "a", "a"];
    LowerSetSnoc(["a", "a", "a"], "b");
    assert ["a", "a", "a"] + ["b"] == ["a", "a", "a", "b"];
    assert {"a"} + {"a"} == {"a"};
  }

  lemma SecondExampleSet()
    ensures LowerSet(["B", "c", "c", "d"]) == {"b", "c", "d"}
  {
    LowerSingle('B', 'b');
    LowerSingle('c', 'c');
    LowerSingle('d', 'd');
    LowerSetSnoc([], "B");
    assert [] + ["B"] == ["B"];
    LowerSetSnoc(["B"], "c");
    assert ["B"] + ["c"] == ["B", "c"];
    LowerSetSnoc(["B", "c"], "c");
    assert ["B", "c"] + ["c"] == ["B", "c", "c"];
    LowerSetSnoc(["B", "c", "c"], "d");
    assert ["B", "c", "c"] + ["d"] == ["B", "c", "c", "d"];
    assert {"b", "c"} + {"c"} == {"b", "c"};
  }

  /** a one-character value lowercases to its lowercased character */
  lemma LowerSingle(c: char, l: char)
    requires LowerChar(c) == l
    ensures ToLower([c]) == [l]
  {
  }


  // ---------------------------------------------------------------
  // contains
  // ---------------------------------------------------------------

  /** `contains`: whether e occurs in s */
  method Contains(s: seq<string>, e: string) returns (found: bool)
    ensures found <==> e in s
  {
    for i := 0 to |s|
      invariant e !in s[..i]
    {
      if s[i] == e {
        return true;
      }
      assert s[..i + 1] == s[..i] + [s[i]];
    }
    assert s[..|s|] == s;
    return false;
  }
}
