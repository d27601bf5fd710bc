/** sandbox/kenpu-distributed/go/src/opendata/streams.go: the helpers that
    turn the lines and CSV records of the open-data files into domains, and
    the names of the ontology entities into plain lower-case words. The
    channels, goroutines and files around them are not part of this model:
    a file is given as the lines its scanner yields, or as its records.
    (`classifyValues` and `wordsFromLine` are the same code as
    benchmarkserver/util.go's `classifyValues` and opendata/sarma.go's
    `tokenizeAnnotation`, and are modelled there, as
    `BenchUtil.ClassifyValues` and `Sarma.TokenizeAnnotation`.) */
module OdStreams {
  import opened Wrappers
  import opened GoStrings

  /** `Domain`: a column of a file (index -1 for a whole file of lines) and
      its values */
  datatype Domain = Domain(filename: string, index: int, values: seq<string>)

  // ---------------------------------------------------------------
  // readLines
  // ---------------------------------------------------------------

  /** a line of nothing but white space */
  predicate Blank(line: string)
  {
    forall k :: 0 <= k < |line| ==> IsSpace(line[k])
  }

  /** `strings.TrimSpace` leaves nothing of exactly the blank lines. */
  lemma TrimSpaceBlank(line: string)
    ensures TrimSpace(line) == "" <==> Blank(line)
  {
    TrimSpaceShape(line);
  }

  /** the lines that are not blank, in order, as they were read */
  function NonBlank(texts: seq<string>): (r: seq<string>)
    ensures |r| <= |texts|
  {
    if texts == [] then []
    else
      var last := texts[|texts| - 1];
      NonBlank(texts[..|texts| - 1]) + (if Blank(last) then [] else [last])
  }

  lemma {:induction false} NonBlankConcat(a: seq<string>, b: seq<string>)
    ensures NonBlank(a + b) == NonBlank(a) + NonBlank(b)
    decreases |b|
  {
    if b != [] {
      var init := b[..|b| - 1];
      assert (a + b)[..|a + b| - 1] == a + init;
      NonBlankConcat(a, init);
    } else {
      assert a + b == a;
    }
  }

  /** The lines kept are exactly the lines that are not blank. */
  lemma {:induction false} NonBlankMembers(texts: seq<string>)
    ensures forall l :: l in NonBlank(texts) <==> l in texts && !Blank(l)
  {
    if texts != [] {
      var init := texts[..|texts| - 1];
      NonBlankMembers(init);
      assert texts == init + [texts[|texts| - 1]];
    }
  }

  /** the first maxLines lines when maxLines is positive, else all */
  function Capped(lines: seq<string>, maxLines: int): (r: seq<string>)
    ensures |r| <= |lines| && r == lines[..|r|]
    ensures maxLines > 0 ==> |r| == if |lines| < maxLines then |lines| else maxLines
    ensures maxLines <= 0 ==> r == lines
  {
    if maxLines > 0 && maxLines < |lines| then lines[..maxLines] else lines
  }

  /** one more line read */
  lemma NonBlankStep(texts: seq<string>, i: nat)
    requires i < |texts|
    ensures NonBlank(texts[..i + 1]) == NonBlank(texts[..i]) + if Blank(texts[i]) then [] else [texts[i]]
  {
    assert texts[..i + 1][..i] == texts[..i];
  }

  /** Once the lines kept from a prefix number maxLines, the rest of the
      file adds nothing to the capped lines. */
  lemma CappedAt(texts: seq<string>, n: nat, maxLines: int)
    requires n <= |texts| && maxLines > 0 && |NonBlank(texts[..n])| == maxLines
    ensures Capped(NonBlank(texts), maxLines) == NonBlank(texts[..n])
  {
    NonBlankConcat(texts[..n], texts[n..]);
    assert texts[..n] + texts[n..] == texts;
  }

  /** `readLines` on a file that opens: the lines that are not blank, the
      original text of each kept, stopping once maxLines are kept when
      maxLines is positive */
  method ReadLines(texts: seq<string>, maxLines: int) returns (lines: seq<string>)
    ensures lines == Capped(NonBlank(texts), maxLines)
  {
    lines := [];
    var i := 0;
    while i < |texts|
      invariant 0 <= i <= |texts|
      invariant lines == NonBlank(texts[..i])
      invariant maxLines > 0 ==> |lines| < maxLines
    {
      var value := TrimSpace(texts[i]);
      TrimSpaceBlank(texts[i]);
      NonBlankStep(texts, i);
      if value != "" {
        lines := lines + [texts[i]];
        if maxLines > 0 && maxLines <= |lines| {
          CappedAt(texts, i + 1, maxLines);
          return;
        }
      }
      i := i + 1;
    }
    assert texts[..i] == texts;
  }

  // ---------------------------------------------------------------
  // domainsFromCells
  // ---------------------------------------------------------------

  /** cell c of the row exists and is longer than two once trimmed */
  predicate Kept(row: seq<string>, c: nat)
  {
    c < |row| && |TrimSpace(row[c])| > 2
  }

  /** the cells of column c that are kept, untrimmed, row by row */
  function KeptCells(cells: seq<seq<string>>, c: nat): (r: seq<string>)
    ensures |r| <= |cells|
  {
    if cells == [] then []
    else
      var row := cells[|cells| - 1];
      KeptCells(cells[..|cells| - 1], c) + (if Kept(row, c) then [row[c]] else [])
  }

  /** A column's values are exactly the kept cells of that column; a row too
      short to have the column adds nothing. */
  lemma {:induction false} KeptCellsMembers(cells: seq<seq<string>>, c: nat)
    ensures forall v :: v in KeptCells(cells, c) <==> exists i :: 0 <= i < |cells| && Kept(cells[i], c) && cells[i][c] == v
  {
    if cells != [] {
      var init := cells[..|cells| - 1];
      KeptCellsMembers(init, c);
      assert forall i :: 0 <= i < |init| ==> init[i] == cells[i];
    }
  }

  /** a domain with cell c of the row appended when it is kept */
  function WithCell(d: Domain, row: seq<string>, c: nat): Domain
  {
    d.(values := d.values + if Kept(row, c) then [row[c]] else [])
  }

  /** the inner loop of `domainsFromCells`: the kept cells of one row
      appended to their domains */
  method AddRow(domains: seq<Domain>, row: seq<string>) returns (r: seq<Domain>)
    ensures |r| == |domains|
    ensures forall c :: 0 <= c < |domains| ==> r[c] == WithCell(domains[c], row, c)
  {
    r := domains;
    for c := 0 to |domains|
      invariant |r| == |domains|
      invariant forall x :: 0 <= x < c ==> r[x] == WithCell(domains[x], row, x)
      invariant forall x :: c <= x < |domains| ==> r[x] == domains[x]
    {
      if c < |row| {
        var value := TrimSpace(row[c]);
        if |value| > 2 {
          r := r[c := r[c].(values := r[c].values + [row[c]])];
        }
      }
    }
  }

  /** `domainsFromCells`: no domain for no records; width domains otherwise,
      domain c holding the kept cells of column c in order. A negative width
      panics when there are records (the slice cannot be made). */
  method DomainsFromCells(cells: seq<seq<string>>, filename: string, width: int) returns (r: Outcome<seq<Domain>>)
    ensures cells == [] ==> r == Value([])
    ensures r.Panic? <==> cells != [] && width < 0
    ensures r.Value? && cells != [] ==>
      |r.value| == width && forall c :: 0 <= c < width ==> r.value[c] == Domain(filename, c, KeptCells(cells, c))
  {
    if |cells| == 0 {
      return Value([]);
    }
    if width < 0 {
      return Panic("makeslice: len out of range");
    }
    var domains: seq<Domain> := [];
    for i := 0 to width
      invariant |domains| == i
      invariant forall c :: 0 <= c < i ==> domains[c] == Domain(filename, c, [])
    {
      domains := domains + [Domain(filename, i, [])];
    }
    for i := 0 to |cells|
      invariant |domains| == width
      invariant forall c :: 0 <= c < width ==> domains[c] == Domain(filename, c, KeptCells(cells[..i], c))
    {
      assert cells[..i + 1][..i] == cells[..i];
      domains := AddRow(domains, cells[i]);
    }
    assert cells[..|cells|] == cells;
    return Value(domains);
  }

  // ---------------------------------------------------------------
  // cleanEntityName
  // ---------------------------------------------------------------

  /** `cleanEntityName`: lower-cased, '_' made a space, cut before the first
      '(' unless the name starts with it, and trimmed */
  function CleanEntityName(ent: string): (r: string)
    ensures |r| <= |ent|
  {
    var x := ReplaceChar(ToLower(ent), '_', ' ');
    var i := IndexChar(x, '(');
    var y := if i > 0 then x[..i] else x;
    TrimSpaceShape(y);
    TrimSpace(y)
  }

  /** the shape of a cleaned name: no upper-case letter and no '_', a '('
      only at its start, and no space at either end */
  predicate Clean(r: string)
  {
    (forall k :: 0 <= k < |r| ==> !IsUpperLetter(r[k]) && r[k] != '_') &&
    ('(' in r ==> r[0] == '(') &&
    (r != [] ==> !IsSpace(r[0]) && !IsSpace(r[|r| - 1]))
  }

  /** Trimming a text of no upper-case letter and no '_', with a '(' only
      at its start, leaves a clean name. */
  lemma TrimmedClean(y: string)
    requires forall k :: 0 <= k < |y| ==> !IsUpperLetter(y[k]) && y[k] != '_'
    requires '(' in y ==> y[0] == '('
    ensures Clean(TrimSpace(y))
  {
    TrimSpaceShape(y);
    PieceClean(y, TrimSpace(y), TrimStart(y, IsSpace));
  }

  /** A piece of such a text, after its leading spaces, with no space at
      either end, is a clean name. */
  lemma PieceClean(y: string, r: string, lo: nat)
    requires forall k :: 0 <= k < |y| ==> !IsUpperLetter(y[k]) && y[k] != '_'
    requires '(' in y ==> y[0] == '('
    requires lo + |r| <= |y| && r == y[lo..lo + |r|]
    requires forall i :: 0 <= i < lo ==> IsSpace(y[i])
    requires r != [] ==> !IsSpace(r[0]) && !IsSpace(r[|r| - 1])
    ensures Clean(r)
  {
    forall k | 0 <= k < |r| ensures !IsUpperLetter(r[k]) && r[k] != '_' {
      assert r[k] == y[lo + k];
    }
    if '(' in r {
      var k :| 0 <= k < |r| && r[k] == '(';
      assert y[lo + k] == '(';
      assert lo == 0;
    }
  }

  /** A cleaned name is clean. */
  lemma CleanEntityNameClean(ent: string)
    ensures Clean(CleanEntityName(ent))
  {
    var x := ReplaceChar(ToLower(ent), '_', ' ');
    assert forall k :: 0 <= k < |x| ==> !IsUpperLetter(x[k]) && x[k] != '_';
    var i := IndexChar(x, '(');
    var y := if i > 0 then x[..i] else x;
    assert forall k :: 0 <= k < |y| ==> !IsUpperLetter(y[k]) && y[k] != '_';
    TrimmedClean(y);
  }

  /** Cleaning leaves a clean name as it is. */
  lemma CleanFixed(r: string)
    requires Clean(r)
    ensures CleanEntityName(r) == r
  {
    assert ToLower(r) == r;
    assert ReplaceChar(r, '_', ' ') == r;
    if '(' in r {
      IndexCharAt(r, '(', 0);
    }
    TrimUntouched(r, IsSpace);
  }

  /** Cleaning a cleaned name changes nothing. */
  lemma CleanEntityNameIdempotent(ent: string)
    ensures CleanEntityName(CleanEntityName(ent)) == CleanEntityName(ent)
  {
    CleanEntityNameClean(ent);
    CleanFixed(CleanEntityName(ent));
  }
}
