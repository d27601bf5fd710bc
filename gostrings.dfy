/** The subset of Go's `strings`, `strconv` and `unicode` packages that the
    table-union code relies on, over ASCII text (a `char` stands for one
    byte of a UTF-8 string whose bytes are all below 128). */
module GoStrings {
  import opened Wrappers

  // ---------------------------------------------------------------
  // Character classes (ASCII parts of Go's unicode and regexp classes)
  // ---------------------------------------------------------------

  predicate IsDigit(c: char) { '0' <= c <= '9' }
  predicate IsLowerLetter(c: char) { 'a' <= c <= 'z' }
  predicate IsUpperLetter(c: char) { 'A' <= c <= 'Z' }
  /** `[[:alpha:]]` */
  predicate IsAlpha(c: char) { IsLowerLetter(c) || IsUpperLetter(c) }
  /** `unicode.IsSpace` on ASCII: '\t', '\n', '\v', '\f', '\r', ' '. */
  predicate IsSpace(c: char)
  {
    c == ' ' || c == '\t' || c == '\n' || c == '\r' || c == '\U{0B}' || c == '\U{0C}'
  }
  /** `unicode.IsPunct` on ASCII (category P); `$ + < = > ^ ` | ~` are
      symbols (category S) and are not punctuation. */
  predicate IsPunct(c: char)
  {
    c == '!' || c == '"' || c == '#' || c == '%' || c == '&' || c == '\'' || c == '(' ||
    c == ')' || c == '*' || c == ',' || c == '-' || c == '.' || c == '/' || c == ':' ||
    c == ';' || c == '?' || c == '@' || c == '[' || c == '\\' || c == ']' || c == '_' ||
    c == '{' || c == '}'
  }

  function LowerChar(c: char): char
  {
    if IsUpperLetter(c) then (c as int + 32) as char else c
  }

  /** `strings.ToLower` on ASCII text. */
  function ToLower(s: string): (r: string)
    ensures |r| == |s|
    ensures forall i :: 0 <= i < |s| ==> r[i] == LowerChar(s[i])
    ensures forall i :: 0 <= i < |r| ==> !IsUpperLetter(r[i])
  {
    seq(|s|, i requires 0 <= i < |s| => LowerChar(s[i]))
  }

  lemma ToLowerIdempotent(s: string)
    ensures ToLower(ToLower(s)) == ToLower(s)
  {
  }

  lemma ToLowerConcat(a: string, b: string)
    ensures ToLower(a + b) == ToLower(a) + ToLower(b)
  {
  }

  /** `strings.Map` replacing every `from` by `to` (`strings.Replace(s, from, to, -1)`
      for one-character arguments). */
  function ReplaceChar(s: string, from: char, to: char): (r: string)
    ensures |r| == |s|
    ensures forall i :: 0 <= i < |s| ==> r[i] == (if s[i] == from then to else s[i])
  {
    seq(|s|, i requires 0 <= i < |s| => if s[i] == from then to else s[i])
  }

  // ---------------------------------------------------------------
  // Trimming
  // ---------------------------------------------------------------

  /** `strings.TrimLeftFunc`: drops the longest prefix whose characters satisfy `p`. */
  function TrimLeftFunc(s: string, p: char -> bool): (r: string)
    ensures |r| <= |s| && r == s[|s| - |r|..]
    ensures forall i :: 0 <= i < |s| - |r| ==> p(s[i])
    ensures r != [] ==> !p(r[0])
    decreases |s|
  {
    if s != [] && p(s[0]) then TrimLeftFunc(s[1..], p) else s
  }

  /** `strings.TrimRightFunc`: drops the longest suffix whose characters satisfy `p`. */
  function TrimRightFunc(s: string, p: char -> bool): (r: string)
    ensures |r| <= |s| && r == s[..|r|]
    ensures forall i :: |r| <= i < |s| ==> p(s[i])
    ensures r != [] ==> !p(r[|r| - 1])
    decreases |s|
  {
    if s != [] && p(s[|s| - 1]) then TrimRightFunc(s[..|s| - 1], p) else s
  }

  /** `strings.TrimFunc` */
  function TrimFunc(s: string, p: char -> bool): string
  {
    TrimRightFunc(TrimLeftFunc(s, p), p)
  }

  /** `strings.TrimSpace` */
  function TrimSpace(s: string): string
  {
    TrimFunc(s, IsSpace)
  }

  /** where the text `TrimFunc` keeps starts */
  function TrimStart(s: string, p: char -> bool): (lo: nat)
    ensures lo <= |s|
  {
    |s| - |TrimLeftFunc(s, p)|
  }

  /** What trimming promises: the result is a contiguous piece of the input,
      the characters removed on both sides satisfy `p`, and neither end of a
      nonempty result satisfies `p`. */
  lemma {:induction false} TrimFuncShape(s: string, p: char -> bool)
    ensures TrimStart(s, p) + |TrimFunc(s, p)| <= |s|
    ensures TrimFunc(s, p) == s[TrimStart(s, p)..TrimStart(s, p) + |TrimFunc(s, p)|]
    ensures forall i :: 0 <= i < TrimStart(s, p) ==> p(s[i])
    ensures forall i :: TrimStart(s, p) + |TrimFunc(s, p)| <= i < |s| ==> p(s[i])
    ensures TrimFunc(s, p) != [] ==> !p(TrimFunc(s, p)[0]) && !p(TrimFunc(s, p)[|TrimFunc(s, p)| - 1])
  {
    var l, r, lo := TrimLeftFunc(s, p), TrimFunc(s, p), TrimStart(s, p);
    assert r == TrimRightFunc(l, p) && lo == |s| - |l|;
    TrimmedPiece(s, l, r, lo, p);
    assert r != [] ==> !p(r[0]) && !p(r[|r| - 1]);
  }

  /** a suffix of s, then a prefix of that suffix, cut where p holds */
  lemma TrimmedPiece(s: string, l: string, r: string, lo: nat, p: char -> bool)
    requires lo == |s| - |l| && l == s[lo..] && (l != [] ==> !p(l[0]))
    requires |r| <= |l| && r == l[..|r|] && forall i :: |r| <= i < |l| ==> p(l[i])
    requires r != [] ==> !p(r[|r| - 1])
    ensures lo + |r| <= |s| && r == s[lo..lo + |r|]
    ensures forall i :: lo + |r| <= i < |s| ==> p(s[i])
    ensures r != [] ==> !p(r[0]) && !p(r[|r| - 1])
  {
    forall i | lo + |r| <= i < |s| ensures p(s[i]) {
      assert s[i] == l[i - lo];
    }
    if r != [] {
      assert r[0] == l[0];
    }
  }

  /** `TrimFuncShape` for white space */
  lemma TrimSpaceShape(s: string)
    ensures var r, lo := TrimSpace(s), TrimStart(s, IsSpace);
      lo + |r| <= |s| && r == s[lo..lo + |r|] &&
      (forall i :: 0 <= i < lo ==> IsSpace(s[i])) &&
      (forall i :: lo + |r| <= i < |s| ==> IsSpace(s[i])) &&
      (r != [] ==> !IsSpace(r[0]) && !IsSpace(r[|r| - 1]))
  {
    TrimFuncShape(s, IsSpace);
  }

  /** Each character kept by trimming is the input's character at its
      shifted position. */
  lemma TrimChars(s: string, p: char -> bool)
    ensures var r, lo := TrimFunc(s, p), TrimStart(s, p);
      lo + |r| <= |s| && forall k :: 0 <= k < |r| ==> r[k] == s[lo + k]
  {
    TrimFuncShape(s, p);
  }

  lemma TrimFuncIdempotent(s: string, p: char -> bool)
    ensures TrimFunc(TrimFunc(s, p), p) == TrimFunc(s, p)
  {
    var r := TrimFunc(s, p);
    if r != [] {
      assert !p(r[0]) && !p(r[|r| - 1]);
    }
  }

  /** the default value transformation of the search servers:
      `strings.ToLower(strings.TrimFunc(strings.TrimSpace(s), unicode.IsPunct))` */
  function DefaultTrans(s: string): (r: string)
    ensures forall i :: 0 <= i < |r| ==> !IsUpperLetter(r[i])
    ensures r != [] ==> !IsPunct(r[0]) && !IsPunct(r[|r| - 1])
  {
    var t := TrimFunc(TrimSpace(s), IsPunct);
    TrimEnds(TrimSpace(s), IsPunct);
    var r := ToLower(t);
    if r != [] then
      LowerCharKeepsPunct(t[0]);
      LowerCharKeepsPunct(t[|t| - 1]);
      r
    else r
  }

  lemma LowerCharKeepsPunct(c: char)
    ensures IsPunct(LowerChar(c)) == IsPunct(c)
  {
  }

  /** A text whose ends do not satisfy p is not trimmed. */
  lemma TrimUntouched(s: string, p: char -> bool)
    requires s != [] ==> !p(s[0]) && !p(s[|s| - 1])
    ensures TrimFunc(s, p) == s
  {
  }

  lemma TrimEnds(s: string, p: char -> bool)
    ensures var r := TrimFunc(s, p); r != [] ==> !p(r[0]) && !p(r[|r| - 1])
  {
    var l := TrimLeftFunc(s, p);
    var r := TrimRightFunc(l, p);
    if r != [] {
      assert r == l[..|r|];
      assert r[0] == l[0];
    }
  }

  // ---------------------------------------------------------------
  // Searching and prefixes
  // ---------------------------------------------------------------

  /** the number of occurrences of `c` in `s` */
  function CountChar(s: string, c: char): (n: nat)
    ensures n <= |s|
    ensures n == 0 <==> c !in s
  {
    if s == [] then 0 else (if s[0] == c then 1 else 0) + CountChar(s[1..], c)
  }

  predicate HasPrefix(s: string, pre: string)
  {
    |pre| <= |s| && s[..|pre|] == pre
  }

  predicate HasSuffix(s: string, suf: string)
  {
    |suf| <= |s| && s[|s| - |suf|..] == suf
  }

  /** `strings.TrimPrefix` */
  function TrimPrefix(s: string, pre: string): (r: string)
    ensures HasPrefix(s, pre) ==> s == pre + r
    ensures !HasPrefix(s, pre) ==> r == s
  {
    if HasPrefix(s, pre) then s[|pre|..] else s
  }

  /** `strings.TrimSuffix` */
  function TrimSuffix(s: string, suf: string): (r: string)
    ensures HasSuffix(s, suf) ==> s == r + suf
    ensures !HasSuffix(s, suf) ==> r == s
  {
    if HasSuffix(s, suf) then s[..|s| - |suf|] else s
  }

  lemma TrimPrefixConcat(a: string, b: string)
    ensures TrimPrefix(a + b, a) == b
  {
    assert (a + b)[..|a|] == a;
  }

  lemma TrimPrefixThenSlash(a: string, b: string)
    ensures TrimPrefix(TrimPrefix(a + "/" + b, a), "/") == b
  {
    var s := a + "/" + b;
    assert s[..|a|] == a;
    assert s[|a|..] == "/" + b;
    assert ("/" + b)[..1] == "/";
    assert ("/" + b)[1..] == b;
  }

  lemma TrimSuffixDotExt(a: string, ext: string)
    ensures TrimSuffix(a + "." + ext, "." + ext) == a
  {
    var s := a + "." + ext;
    assert s[|s| - |"." + ext|..] == "." + ext;
    assert s[..|s| - |"." + ext|] == a;
  }

  lemma TrimSuffixConcat(a: string, b: string)
    ensures TrimSuffix(a + b, b) == a
  {
    assert (a + b)[|a + b| - |b|..] == b;
  }

  /** `sub` occurs in `s` starting at position `i` */
  predicate OccursAt(s: string, sub: string, i: int)
  {
    0 <= i && i + |sub| <= |s| && s[i..i + |sub|] == sub
  }

  /** `strings.Index` on `s[from..]`, reported as a position of `s`. */
  function IndexFrom(s: string, sub: string, from: nat): (r: int)
    requires from <= |s|
    ensures r == -1 || (from <= r && OccursAt(s, sub, r))
    ensures forall j :: from <= j && (r == -1 || j < r) ==> !OccursAt(s, sub, j)
    decreases |s| - from
  {
    if from + |sub| > |s| then -1
    else if s[from..from + |sub|] == sub then from
    else IndexFrom(s, sub, from + 1)
  }

  /** `strings.Index`: the first position of `sub` in `s`, or -1. */
  function Index(s: string, sub: string): (r: int)
    ensures r == -1 || OccursAt(s, sub, r)
    ensures forall j :: 0 <= j && (r == -1 || j < r) ==> !OccursAt(s, sub, j)
  {
    IndexFrom(s, sub, 0)
  }

  /** `strings.IndexByte`-like: the first position of `c`, or -1. */
  function IndexChar(s: string, c: char): (r: int)
    ensures -1 <= r < |s|
    ensures r >= 0 ==> s[r] == c && c !in s[..r]
    ensures r == -1 <==> c !in s
  {
    if s == [] then -1
    else if s[0] == c then 0
    else var k := IndexChar(s[1..], c); if k == -1 then -1 else k + 1
  }

  lemma {:induction false} IndexCharAt(s: string, c: char, e: nat)
    requires e < |s| && s[e] == c && c !in s[..e]
    ensures IndexChar(s, c) == e
  {
    if e > 0 {
      assert s[0] == s[..e][0];
      assert s[1..][..e - 1] == s[..e][1..];
      IndexCharAt(s[1..], c, e - 1);
    }
  }

  /** `strings.IndexAny`: the first position of any of the characters, or
      -1. */
  function IndexAny(s: string, chars: string): (r: int)
    ensures -1 <= r < |s|
    ensures r >= 0 ==> s[r] in chars && forall j :: 0 <= j < r ==> s[j] !in chars
    ensures r == -1 <==> forall j :: 0 <= j < |s| ==> s[j] !in chars
  {
    if s == [] then -1
    else if s[0] in chars then 0
    else var k := IndexAny(s[1..], chars); if k == -1 then -1 else k + 1
  }

  /** the last position of `c`, or -1 */
  function LastIndexChar(s: string, c: char): (r: int)
    ensures -1 <= r < |s|
    ensures r >= 0 ==> s[r] == c && c !in s[r + 1..]
    ensures r == -1 <==> c !in s
    decreases |s|
  {
    if s == [] then -1
    else if s[|s| - 1] == c then |s| - 1
    else
      var init := s[..|s| - 1];
      var r := LastIndexChar(init, c);
      assert s == init + [s[|s| - 1]];
      assert r >= 0 ==> s[r + 1..] == init[r + 1..] + [s[|s| - 1]];
      r
  }

  // ---------------------------------------------------------------
  // Splitting and joining
  // ---------------------------------------------------------------

  /** `strings.Split(s, sep)` for a one-character separator: n separators give
      n + 1 pieces, and `Split("", sep) == [""]`. */
  function Split(s: string, sep: char): (r: seq<string>)
    ensures |r| >= 1
  {
    if s == [] then [[]]
    else
      var rest := Split(s[1..], sep);
      if s[0] == sep then [[]] + rest
      else [[s[0]] + rest[0]] + rest[1..]
  }

  /** `strings.SplitN(s, sep, n)` for n >= 1 and a one-character separator:
      cuts at the first n - 1 separators, the last piece keeping the rest. */
  function SplitN(s: string, sep: char, n: nat): (r: seq<string>)
    requires n >= 1
    ensures 1 <= |r| <= n
    ensures forall i :: 0 <= i < |r| - 1 ==> sep !in r[i]
    ensures |r| < n ==> sep !in r[|r| - 1]
    decreases n
  {
    var i := IndexChar(s, sep);
    if n == 1 || i == -1 then [s]
    else [s[..i]] + SplitN(s[i + 1..], sep, n - 1)
  }

  /** The pieces of `SplitN` joined with the separator give back the
      text. */
  lemma {:induction false} JoinSplitN(s: string, sep: char, n: nat)
    requires n >= 1
    ensures Join(SplitN(s, sep, n), sep) == s
    decreases n
  {
    var i := IndexChar(s, sep);
    if n > 1 && i != -1 {
      var rest := SplitN(s[i + 1..], sep, n - 1);
      JoinSplitN(s[i + 1..], sep, n - 1);
      assert SplitN(s, sep, n) == [s[..i]] + rest;
      JoinCons(s[..i], rest, sep);
      assert s == s[..i] + [sep] + s[i + 1..];
    }
  }

  /** joining a first piece before at least one more */
  lemma JoinCons(a: string, rest: seq<string>, sep: char)
    requires rest != []
    ensures Join([a] + rest, sep) == a + [sep] + Join(rest, sep)
  {
    assert ([a] + rest)[1..] == rest;
  }

  /** A text whose first separator follows `a` splits into `a` and the
      pieces of the rest. */
  lemma SplitNCut(a: string, sep: char, b: string, n: nat)
    requires n >= 2 && sep !in a
    ensures SplitN(a + [sep] + b, sep, n) == [a] + SplitN(b, sep, n - 1)
  {
    var s := a + [sep] + b;
    assert s[..|a|] == a && s[|a|] == sep;
    IndexCharAt(s, sep, |a|);
    assert s[|a| + 1..] == b;
  }

  /** `strings.Join(parts, sep)` */
  function Join(parts: seq<string>, sep: char): string
  {
    if |parts| == 0 then []
    else if |parts| == 1 then parts[0]
    else parts[0] + [sep] + Join(parts[1..], sep)
  }

  lemma {:induction false} SplitWithoutSep(s: string, sep: char)
    requires sep !in s
    ensures Split(s, sep) == [s]
  {
    if s != [] {
      assert sep !in s[1..] by {
        forall i | 0 <= i < |s[1..]| ensures s[1..][i] != sep { assert s[1..][i] == s[i + 1]; }
      }
      SplitWithoutSep(s[1..], sep);
      assert s[0] != sep;
      assert [s[0]] + s[1..] == s;
    }
  }

  /** A separator splits the two sides independently. */
  lemma {:induction false} SplitConcat(a: string, sep: char, b: string)
    ensures Split(a + [sep] + b, sep) == Split(a, sep) + Split(b, sep)
    decreases |a|, 1
  {
    if a == [] {
      assert a + [sep] + b == [sep] + b;
      assert ([sep] + b)[1..] == b;
    } else {
      SplitConcatCons(a, sep, b);
    }
  }

  lemma {:induction false} SplitConcatCons(a: string, sep: char, b: string)
    requires a != []
    ensures Split(a + [sep] + b, sep) == Split(a, sep) + Split(b, sep)
    decreases |a|, 0
  {
    var s := a + [sep] + b;
    assert s[0] == a[0];
    assert s[1..] == a[1..] + [sep] + b;
    SplitConcat(a[1..], sep, b);
    var x, y := Split(a[1..], sep), Split(b, sep);
    if a[0] == sep {
      assert Split(s, sep) == [[]] + (x + y);
      assert Split(a, sep) == [[]] + x;
    } else {
      SplitGlue(a[0], x, y);
    }
  }

  /** a character glued to the first piece of x + y, x having a piece */
  lemma SplitGlue(c: char, x: seq<string>, y: seq<string>)
    requires |x| >= 1
    ensures [[c] + (x + y)[0]] + (x + y)[1..] == ([[c] + x[0]] + x[1..]) + y
  {
    assert (x + y)[1..] == x[1..] + y;
  }


  lemma {:induction false} SplitPartsLackSep(s: string, sep: char)
    ensures forall i :: 0 <= i < |Split(s, sep)| ==> sep !in Split(s, sep)[i]
  {
    if s != [] {
      SplitPartsLackSep(s[1..], sep);
    }
  }

  lemma {:induction false} SplitCount(s: string, sep: char)
    ensures |Split(s, sep)| == CountChar(s, sep) + 1
  {
    if s != [] {
      SplitCount(s[1..], sep);
    }
  }

  lemma {:induction false} JoinSplit(s: string, sep: char)
    ensures Join(Split(s, sep), sep) == s
  {
    if s != [] {
      var rest := Split(s[1..], sep);
      JoinSplit(s[1..], sep);
      if s[0] == sep {
        assert ([[]] + rest)[1..] == rest;
      } else if |rest| > 1 {
        assert ([[s[0]] + rest[0]] + rest[1..])[1..] == rest[1..];
      }
    }
  }

  lemma {:induction false} SplitJoin(parts: seq<string>, sep: char)
    requires |parts| >= 1
    requires forall i :: 0 <= i < |parts| ==> sep !in parts[i]
    ensures Split(Join(parts, sep), sep) == parts
  {
    if |parts| == 1 {
      SplitWithoutSep(parts[0], sep);
    } else {
      SplitJoin(parts[1..], sep);
      SplitWithoutSep(parts[0], sep);
      SplitConcat(parts[0], sep, Join(parts[1..], sep));
    }
  }

  /** the leading run of characters that fail `p` */
  function TakeUntil(s: string, p: char -> bool): (w: string)
    ensures |w| <= |s| && w == s[..|w|]
    ensures forall i :: 0 <= i < |w| ==> !p(w[i])
    ensures |w| < |s| ==> p(s[|w|])
  {
    if s == [] || p(s[0]) then [] else [s[0]] + TakeUntil(s[1..], p)
  }

  /** `strings.Fields`: the maximal runs of non-space characters. */
  function Fields(s: string): (r: seq<string>)
    ensures forall i :: 0 <= i < |r| ==> IsWord(r[i])
    decreases |s|
  {
    if s == [] then []
    else if IsSpace(s[0]) then Fields(s[1..])
    else
      var w := TakeUntil(s, IsSpace);
      assert IsWord(w);
      [w] + Fields(s[|w|..])
  }

  /** Every character of a field is a character of the text. */
  lemma {:induction false} FieldsChars(s: string)
    ensures forall w, c :: w in Fields(s) && c in w ==> c in s
    decreases |s|
  {
    if s != [] {
      if IsSpace(s[0]) {
        FieldsChars(s[1..]);
      } else {
        var w := TakeUntil(s, IsSpace);
        FieldsChars(s[|w|..]);
      }
    }
  }

  /** a nonempty run of non-space characters */
  predicate IsWord(w: string)
  {
    w != [] && forall j :: 0 <= j < |w| ==> !IsSpace(w[j])
  }

  lemma FieldsOfWord(w: string)
    requires IsWord(w)
    ensures Fields(w) == [w]
  {
    assert TakeUntil(w, IsSpace) == w;
    assert w[|w|..] == [];
  }

  /** A word followed by a space starts the fields of the text. */
  lemma FieldsCons(w: string, sp: char, s: string)
    requires IsWord(w) && IsSpace(sp)
    ensures Fields(w + [sp] + s) == [w] + Fields(s)
  {
    var x := w + [sp] + s;
    assert forall k :: 0 <= k < |w| ==> x[k] == w[k];
    assert x[|w|] == sp;
    assert TakeUntil(x, IsSpace) == w;
    assert x[|w|..] == [sp] + s;
    assert ([sp] + s)[1..] == s;
  }

  // ---------------------------------------------------------------
  // strconv
  // ---------------------------------------------------------------

  predicate AllDigits(s: string) { forall i :: 0 <= i < |s| ==> IsDigit(s[i]) }

  function DigitChar(d: nat): char
    requires d < 10
  {
    ('0' as int + d) as char
  }

  /** the value of a string of decimal digits */
  function DecValue(s: string): nat
    requires AllDigits(s)
  {
    if s == [] then 0 else 10 * DecValue(s[..|s| - 1]) + (s[|s| - 1] as int - '0' as int)
  }

  /** the shortest decimal spelling of `n` */
  function DecDigits(n: nat): (r: string)
    ensures r != [] && AllDigits(r)
  {
    if n < 10 then [DigitChar(n)] else DecDigits(n / 10) + [DigitChar(n % 10)]
  }

  lemma {:induction false} DecValueOfDigits(n: nat)
    ensures DecValue(DecDigits(n)) == n
  {
    if n >= 10 {
      var r := DecDigits(n);
      assert r[..|r| - 1] == DecDigits(n / 10);
      DecValueOfDigits(n / 10);
    }
  }

  /** `strconv.Itoa` */
  function Itoa(i: int): (r: string)
    ensures r != [] && ':' !in r && '/' !in r && '.' !in r && '_' !in r && ' ' !in r
  {
    var d := if i < 0 then "-" + DecDigits(-i) else DecDigits(i);
    assert AllDigits(DecDigits(if i < 0 then -i else i));
    d
  }

  /** `strconv.Atoi`: an optional sign and at least one decimal digit, whose
      value must fit in 64 bits; anything else is an error. */
  function Atoi(s: string): (r: Result<int>)
    ensures r.Ok? ==> MinInt64 <= r.value <= MaxInt64
    ensures s == [] ==> r.Err?
  {
    if s == [] then Err("invalid syntax")
    else
      var neg := s[0] == '-';
      var body := if s[0] == '-' || s[0] == '+' then s[1..] else s;
      if body == [] || !AllDigits(body) then Err("invalid syntax")
      else
        var v: int := if neg then -(DecValue(body) as int) else DecValue(body);
        if v < MinInt64 || v > MaxInt64 then Err("value out of range") else Ok(v)
  }

  lemma AtoiItoa(i: Int64)
    ensures Atoi(Itoa(i)) == Ok(i)
  {
    var s := Itoa(i);
    if i < 0 {
      var d := DecDigits(-(i as int));
      assert s == "-" + d;
      assert s[0] == '-' && s[1..] == d;
      DecValueOfDigits(-(i as int));
    } else {
      var d := DecDigits(i);
      assert s == d;
      assert IsDigit(d[0]);
      DecValueOfDigits(i);
    }
  }

  /** `strconv.ParseBool` */
  function ParseBool(s: string): (r: Result<bool>)
    ensures r == Ok(true) <==> s in {"1", "t", "T", "TRUE", "true", "True"}
    ensures r == Ok(false) <==> s in {"0", "f", "F", "FALSE", "false", "False"}
  {
    if s in {"1", "t", "T", "TRUE", "true", "True"} then Ok(true)
    else if s in {"0", "f", "F", "FALSE", "false", "False"} then Ok(false)
    else Err("invalid syntax")
  }

  /** `strconv.FormatBool` */
  function FormatBool(b: bool): string
  {
    if b then "true" else "false"
  }

  lemma ParseFormatBool(b: bool)
    ensures ParseBool(FormatBool(b)) == Ok(b)
  {
  }

  /** a string of '0' and '1' */
  predicate AllBits(s: string) { forall i :: 0 <= i < |s| ==> s[i] == '0' || s[i] == '1' }

  function BinValue(s: string): nat
    requires AllBits(s)
  {
    if s == [] then 0 else 2 * BinValue(s[..|s| - 1]) + (if s[|s| - 1] == '1' then 1 else 0)
  }

  /** `strconv.ParseUint(s, 2, 64)`: one or more binary digits whose value is
      below 2^64. */
  function ParseUintBase2(s: string): (r: Result<nat>)
    ensures r.Ok? <==> s != [] && AllBits(s) && BinValue(s) < TwoTo64
    ensures r.Ok? ==> r.value == BinValue(s)
  {
    if s == [] || !AllBits(s) then Err("invalid syntax")
    else if BinValue(s) >= TwoTo64 then Err("value out of range")
    else Ok(BinValue(s))
  }

  /** Decimal float syntax accepted by `strconv.ParseFloat`:
      `[+-]? (D+ ('.' D*)? | '.' D+) ([eE] [+-]? D+)?`. */
  predicate DecimalFloatSyntax(s: string)
  {
    var body := if s != [] && (s[0] == '+' || s[0] == '-') then s[1..] else s;
    var e := IndexExp(body);
    var mant := if e < 0 then body else body[..e];
    var exp := if e < 0 then [] else body[e + 1..];
    MantissaSyntax(mant) && (e < 0 || ExponentSyntax(exp))
  }

  function IndexExp(s: string): (r: int)
    ensures -1 <= r < |s|
    ensures r >= 0 ==> s[r] == 'e' || s[r] == 'E'
  {
    var a := IndexChar(s, 'e');
    var b := IndexChar(s, 'E');
    if a < 0 then b else if b < 0 then a else if a < b then a else b
  }

  predicate MantissaSyntax(m: string)
  {
    var d := IndexChar(m, '.');
    if d < 0 then m != [] && AllDigits(m)
    else AllDigits(m[..d]) && AllDigits(m[d + 1..]) && (d > 0 || d + 1 < |m|)
  }

  predicate ExponentSyntax(x: string)
  {
    var body := if x != [] && (x[0] == '+' || x[0] == '-') then x[1..] else x;
    body != [] && AllDigits(body)
  }

  /** the special values `inf`, `infinity` (optionally signed) and `nan`,
      case-insensitively */
  predicate SpecialFloatSyntax(s: string)
  {
    var l := ToLower(s);
    var body := if l != [] && (l[0] == '+' || l[0] == '-') then l[1..] else l;
    body == "inf" || body == "infinity" || l == "nan"
  }

  // ---------------------------------------------------------------
  // Splitting on a character class (`regexp.Split(s, -1)` for a pattern
  // that matches exactly one character, such as `[^a-z ]`)
  // ---------------------------------------------------------------

  /** For a one-character pattern `regexp.Split` cuts at every matching
      character: n matches give n + 1 pieces, and "" gives [""]. */
  function SplitWhere(s: string, p: char -> bool): (r: seq<string>)
    ensures |r| >= 1
  {
    if s == [] then [[]]
    else
      var rest := SplitWhere(s[1..], p);
      if p(s[0]) then [[]] + rest
      else [[s[0]] + rest[0]] + rest[1..]
  }

  lemma {:induction false} SplitWherePartsClean(s: string, p: char -> bool)
    ensures forall i, j :: 0 <= i < |SplitWhere(s, p)| && 0 <= j < |SplitWhere(s, p)[i]| ==>
      !p(SplitWhere(s, p)[i][j])
  {
    if s != [] {
      SplitWherePartsClean(s[1..], p);
      var rest := SplitWhere(s[1..], p);
      if !p(s[0]) {
        var r := SplitWhere(s, p);
        forall i, j | 0 <= i < |r| && 0 <= j < |r[i]| ensures !p(r[i][j]) {
          if i == 0 {
            if j > 0 { assert r[0][j] == rest[0][j - 1]; }
          } else {
            assert r[i] == rest[i];
          }
        }
      }
    }
  }

  /** where every piece comes from: concatenating all pieces gives back the
      characters that do not match */
  lemma {:induction false} SplitWhereConcat(s: string, p: char -> bool)
    ensures Flatten(SplitWhere(s, p)) == Keep(s, p)
  {
    if s != [] {
      SplitWhereConcat(s[1..], p);
      var rest := SplitWhere(s[1..], p);
      if p(s[0]) {
        assert ([[]] + rest)[1..] == rest;
      } else {
        var r := SplitWhere(s, p);
        assert r[1..] == rest[1..];
        FlattenCons(rest);
        FlattenCons(r);
      }
    }
  }

  /** the number of characters of s that match p */
  function CountWhere(s: string, p: char -> bool): nat
  {
    if s == [] then 0 else (if p(s[0]) then 1 else 0) + CountWhere(s[1..], p)
  }

  /** n matching characters cut s into n + 1 pieces */
  lemma {:induction false} SplitWhereCount(s: string, p: char -> bool)
    ensures |SplitWhere(s, p)| == CountWhere(s, p) + 1
  {
    if s != [] {
      SplitWhereCount(s[1..], p);
    }
  }

  /** the characters of s that match p, in order: where `SplitWhere` cuts */
  function Cuts(s: string, p: char -> bool): (r: string)
    ensures |r| == CountWhere(s, p)
    ensures forall i :: 0 <= i < |r| ==> p(r[i])
  {
    if s == [] then [] else (if p(s[0]) then [s[0]] else []) + Cuts(s[1..], p)
  }

  /** pieces joined back with one cut character between neighbours */
  function Interleave(parts: seq<string>, cuts: string): string
    requires |parts| == |cuts| + 1
    decreases |cuts|
  {
    if cuts == [] then parts[0] else parts[0] + [cuts[0]] + Interleave(parts[1..], cuts[1..])
  }

  /** `SplitWhere` cuts exactly at the matching characters: putting each
      back between its neighbouring pieces gives s again */
  lemma {:induction false} SplitWhereRejoin(s: string, p: char -> bool)
    ensures |SplitWhere(s, p)| == |Cuts(s, p)| + 1
    ensures Interleave(SplitWhere(s, p), Cuts(s, p)) == s
  {
    SplitWhereCount(s, p);
    if s != [] {
      SplitWhereRejoin(s[1..], p);
      var rest, cuts := SplitWhere(s[1..], p), Cuts(s[1..], p);
      assert s == [s[0]] + s[1..];
      if p(s[0]) {
        assert SplitWhere(s, p) == [[]] + rest && Cuts(s, p) == [s[0]] + cuts;
        InterleaveCut([], rest, s[0], cuts);
      } else {
        assert SplitWhere(s, p) == [[s[0]] + rest[0]] + rest[1..] && Cuts(s, p) == cuts;
        InterleaveGrow(s[0], rest, cuts);
      }
    }
  }

  /** a piece and a cut in front */
  lemma InterleaveCut(x: string, rest: seq<string>, c: char, cuts: string)
    requires |rest| == |cuts| + 1
    ensures Interleave([x] + rest, [c] + cuts) == x + [c] + Interleave(rest, cuts)
  {
    assert ([x] + rest)[1..] == rest && ([c] + cuts)[1..] == cuts;
  }

  /** a character in front of the first piece */
  lemma InterleaveGrow(ch: char, rest: seq<string>, cuts: string)
    requires |rest| == |cuts| + 1
    ensures Interleave([[ch] + rest[0]] + rest[1..], cuts) == [ch] + Interleave(rest, cuts)
  {
    if cuts != [] {
      assert ([[ch] + rest[0]] + rest[1..])[1..] == rest[1..];
    }
  }

  /** the position of the first character of s that matches p (|s| when
      none does) */
  function FirstWhere(s: string, p: char -> bool): (n: nat)
    ensures n <= |s|
  {
    if s == [] || p(s[0]) then 0 else 1 + FirstWhere(s[1..], p)
  }

  lemma {:induction false} FirstWhereAt(s: string, p: char -> bool, n: nat)
    requires n < |s| && p(s[n]) && forall j :: 0 <= j < n ==> !p(s[j])
    ensures FirstWhere(s, p) == n
  {
    if n > 0 {
      assert !p(s[0]);
      FirstWhereAt(s[1..], p, n - 1);
    }
  }

  /** Pieces free of matching characters are determined by the cuts and the
      rejoined string: at most one split has both properties. */
  lemma {:induction false} InterleaveUnique(a: seq<string>, b: seq<string>, cuts: string, p: char -> bool)
    requires |a| == |cuts| + 1 && |b| == |cuts| + 1
    requires forall i :: 0 <= i < |cuts| ==> p(cuts[i])
    requires forall i, j :: 0 <= i < |a| && 0 <= j < |a[i]| ==> !p(a[i][j])
    requires forall i, j :: 0 <= i < |b| && 0 <= j < |b[i]| ==> !p(b[i][j])
    requires Interleave(a, cuts) == Interleave(b, cuts)
    ensures a == b
  {
    if cuts == [] {
      assert a == [a[0]] && b == [b[0]];
    } else {
      var x, y := a[0], b[0];
      var restA, restB := Interleave(a[1..], cuts[1..]), Interleave(b[1..], cuts[1..]);
      var w := Interleave(a, cuts);
      assert w == x + [cuts[0]] + restA && w == y + [cuts[0]] + restB;
      FirstWhereAt(w, p, |x|);
      FirstWhereAt(w, p, |y|);
      assert x == w[..|x|] == y;
      assert restA == w[|x| + 1..] == restB;
      forall i, j | 0 <= i < |a[1..]| && 0 <= j < |a[1..][i]| ensures !p(a[1..][i][j]) {
        assert a[1..][i] == a[i + 1];
      }
      forall i, j | 0 <= i < |b[1..]| && 0 <= j < |b[1..][i]| ensures !p(b[1..][i][j]) {
        assert b[1..][i] == b[i + 1];
      }
      InterleaveUnique(a[1..], b[1..], cuts[1..], p);
      assert a == [a[0]] + a[1..] && b == [b[0]] + b[1..];
    }
  }

  function Flatten(parts: seq<string>): string
  {
    if parts == [] then [] else parts[0] + Flatten(parts[1..])
  }

  lemma FlattenCons(parts: seq<string>)
    requires parts != []
    ensures Flatten(parts) == parts[0] + Flatten(parts[1..])
  {
  }

  /** the characters of `s` that fail `p` */
  function Keep(s: string, p: char -> bool): string
  {
    if s == [] then [] else (if p(s[0]) then [] else [s[0]]) + Keep(s[1..], p)
  }

  /** `Keep` drops exactly the characters p holds of. */
  lemma {:induction false} KeepChars(s: string, p: char -> bool)
    ensures forall c :: c in Keep(s, p) <==> c in s && !p(c)
  {
    if s != [] {
      KeepChars(s[1..], p);
      assert s == [s[0]] + s[1..];
    }
  }

  /** A text without a character p holds of is kept whole. */
  lemma {:induction false} KeepNone(s: string, p: char -> bool)
    requires forall i :: 0 <= i < |s| ==> !p(s[i])
    ensures Keep(s, p) == s
  {
    if s != [] {
      KeepNone(s[1..], p);
      assert s == [s[0]] + s[1..];
    }
  }

  // ---------------------------------------------------------------
  // path/filepath on slash-separated paths
  // ---------------------------------------------------------------

  /** `filepath.Dir`. The directory part is cleaned only by dropping its
      trailing separator, which is all `filepath.Clean` does to a path
      without empty, "." or ".." elements. */
  function Dir(path: string): (d: string)
    ensures d != []
  {
    var i := LastIndexChar(path, '/');
    if i < 0 then "."
    else if i == 0 then "/"
    else path[..i]
  }

  /** `filepath.Base` */
  function Base(path: string): string
  {
    if path == [] then "."
    else
      var q := TrimRightFunc(path, IsSlash);
      if q == [] then "/" else q[LastIndexChar(q, '/') + 1..]
  }

  predicate IsSlash(c: char) { c == '/' }

  /** `filepath.Ext`: from the last '.' of the final element, or "". */
  function Ext(path: string): (e: string)
    ensures e == [] || (e[0] == '.' && HasSuffix(path, e) && '/' !in e)
  {
    var d := LastIndexChar(path, '.');
    var s := LastIndexChar(path, '/');
    if d > s then
      assert '/' !in path[d..] by {
        assert path[d..] == [path[d]] + path[d + 1..];
        assert '/' !in path[s + 1..];
        assert path[d + 1..] == path[s + 1..][d - s..];
      }
      path[d..]
    else []
  }

  lemma {:induction false} LastIndexCharAfter(a: string, c: char, b: string)
    requires c !in b
    ensures LastIndexChar(a + [c] + b, c) == |a|
    decreases |b|
  {
    var s := a + [c] + b;
    if b != [] {
      assert s[..|s| - 1] == a + [c] + b[..|b| - 1];
      assert s[|s| - 1] == b[|b| - 1];
      LastIndexCharAfter(a, c, b[..|b| - 1]);
    }
  }

  /** A character absent from b is last found, if at all, inside a. */
  lemma LastIndexCharBefore(a: string, c: char, b: string)
    requires c !in b
    ensures LastIndexChar(a + b, c) < |a|
  {
    forall j | |a| <= j < |a + b| ensures (a + b)[j] != c {
      assert (a + b)[j] == b[j - |a|];
    }
  }

  lemma LastIndexCharAbsent(s: string, c: char)
    requires c !in s
    ensures LastIndexChar(s, c) == -1
  {
  }
}
