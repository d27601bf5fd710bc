/** sandbox/kenpu-distributed/go/src/od/data.go: the open-data files listed
    one per line as "repository dataset file", and the domains (columns) of
    a file's CSV records. The file system, the CSV reader and the saved
    value files are not part of this model: a file's records are given. */
module OdData {
  import opened Wrappers
  import opened GoStrings
  import WikiTable

  /** `MIN_DOMSIZE` (od/env.go) */
  const MinDomSize: nat := 5

  const LowerLetters: string := "abcdefghijklmnopqrstuvwxyz"

  /** a value holding a lower-case letter */
  predicate IsGoodValue(v: string)
  {
    exists i :: 0 <= i < |v| && IsLowerLetter(v[i])
  }

  lemma LowerLettersAre(c: char)
    ensures c in LowerLetters <==> IsLowerLetter(c)
  {
    assert forall i :: 0 <= i < |LowerLetters| ==> LowerLetters[i] as int == 'a' as int + i;
    if IsLowerLetter(c) {
      assert LowerLetters[c as int - 'a' as int] == c;
    }
  }

  /** `IsGoodValue` finds one of the letters a-z in the value exactly when
      some character of it is a lower-case letter. */
  lemma IndexAnyLowerLetters(v: string)
    ensures IndexAny(v, LowerLetters) >= 0 <==> IsGoodValue(v)
  {
    forall i | 0 <= i < |v| ensures v[i] in LowerLetters <==> IsLowerLetter(v[i]) {
      LowerLettersAre(v[i]);
    }
  }

  /** `Datafile`: where a CSV file of the open data lives */
  datatype Datafile = Datafile(repo: string, dataset: string, file: string)

  /** `ParseDatafile`: the trimmed line cut at its first two spaces; a line
      of fewer than three pieces panics (`parts[1]` or `parts[2]` out of
      range). The pieces joined by spaces are the trimmed line, and only the
      file name may hold a space. */
  function ParseDatafile(line: string): (r: Outcome<Datafile>)
    ensures r.Panic? <==> |SplitN(TrimSpace(line), ' ', 3)| < 3
    ensures r.Value? ==>
      r.value.repo + " " + r.value.dataset + " " + r.value.file == TrimSpace(line) &&
      ' ' !in r.value.repo && ' ' !in r.value.dataset
  {
    var parts := SplitN(TrimSpace(line), ' ', 3);
    if |parts| < 3 then Panic("index out of range")
    else
      ThreeParts(TrimSpace(line));
      Value(Datafile(parts[0], parts[1], parts[2]))
  }

  /** a text cut at its first two spaces into three pieces is the pieces
      joined by spaces, only the last holding a space */
  lemma ThreeParts(t: string)
    requires |SplitN(t, ' ', 3)| >= 3
    ensures var parts := SplitN(t, ' ', 3);
      parts[0] + " " + parts[1] + " " + parts[2] == t && ' ' !in parts[0] && ' ' !in parts[1]
  {
    var parts := SplitN(t, ' ', 3);
    JoinSplitN(t, ' ', 3);
    JoinThree(parts, ' ');
  }

  lemma JoinThree(parts: seq<string>, sep: char)
    requires |parts| == 3
    ensures Join(parts, sep) == parts[0] + [sep] + parts[1] + [sep] + parts[2]
  {
    var tail := parts[1..];
    assert tail[1..] == [parts[2]];
    assert Join(tail[1..], sep) == parts[2];
    assert Join(tail, sep) == parts[1] + [sep] + parts[2];
  }

  /** A line written as "repository dataset file" parses back to those
      three, the file name keeping any spaces inside it. */
  lemma ParseDatafileOf(f: Datafile)
    requires f.repo != [] && !IsSpace(f.repo[0]) && ' ' !in f.repo && ' ' !in f.dataset
    requires f.file != [] && !IsSpace(f.file[|f.file| - 1])
    ensures ParseDatafile(f.repo + " " + f.dataset + " " + f.file) == Value(f)
  {
    var line := f.repo + " " + f.dataset + " " + f.file;
    TrimUntouched(line, IsSpace);
    assert line == f.repo + [' '] + (f.dataset + [' '] + f.file);
    SplitNCut(f.repo, ' ', f.dataset + [' '] + f.file, 3);
    SplitNCut(f.dataset, ' ', f.file, 2);
  }

  /** `Domain`: a column of a data file and its good values */
  datatype Domain = Domain(datafile: Datafile, index: int, values: seq<string>)

  /** `IsGood`: a domain of at least `MinDomSize` values */
  predicate IsGood(d: Domain)
  {
    |d.values| >= MinDomSize
  }

  /** the column count of `GetDomains`: the width of the first row, then of
      each narrower row. A row of no cells resets the count, which the next
      row's width replaces; the CSV reader yields no such row. */
  function ColCount(cells: seq<seq<string>>): nat
  {
    if cells == [] then 0
    else
      var c := ColCount(cells[..|cells| - 1]);
      var w := |cells[|cells| - 1]|;
      if w < c || c == 0 then w else c
  }

  /** When no row is empty the column count is the width of the narrowest
      row. */
  lemma {:induction false} ColCountNarrowest(cells: seq<seq<string>>)
    requires forall i :: 0 <= i < |cells| ==> cells[i] != []
    ensures cells != [] ==> exists i :: 0 <= i < |cells| && ColCount(cells) == |cells[i]|
    ensures forall i :: 0 <= i < |cells| ==> ColCount(cells) <= |cells[i]|
    decreases |cells|
  {
    if cells != [] {
      var init := cells[..|cells| - 1];
      var last := |cells| - 1;
      ColCountNarrowest(init);
      assert forall i :: 0 <= i < |init| ==> init[i] == cells[i];
      if init == [] {
        assert ColCount(cells) == |cells[0]|;
      } else {
        var j :| 0 <= j < |init| && ColCount(init) == |init[j]|;
        assert ColCount(init) > 0;
        if |cells[last]| < ColCount(init) {
          assert ColCount(cells) == |cells[last]|;
        } else {
          assert ColCount(cells) == |cells[j]|;
        }
      }
    }
  }

  /** the lower-cased values of column col that are good, row by row */
  function GoodValues(rows: seq<seq<string>>, col: nat): (r: seq<string>)
    requires WikiTable.Wide(rows, col + 1)
    ensures |r| <= |rows|
  {
    if rows == [] then []
    else
      var init := rows[..|rows| - 1];
      var v := ToLower(rows[|rows| - 1][col]);
      GoodValues(init, col) + (if IsGoodValue(v) then [v] else [])
  }

  /** The values of a column are exactly its cells, lower-cased, that are
      good. */
  lemma {:induction false} GoodValuesMembers(rows: seq<seq<string>>, col: nat)
    requires WikiTable.Wide(rows, col + 1)
    ensures forall v :: v in GoodValues(rows, col) <==> exists i :: 0 <= i < |rows| && v == ToLower(rows[i][col]) && IsGoodValue(v)
  {
    if rows != [] {
      var init := rows[..|rows| - 1];
      GoodValuesMembers(init, col);
      assert forall i :: 0 <= i < |init| ==> init[i] == rows[i];
    }
  }

  /** the column loop of `GetDomains`: the good values of column col in the
      rows after the first, and a panic at a later row with no cell col */
  method ColumnValues(cells: seq<seq<string>>, col: nat) returns (r: Outcome<seq<string>>)
    ensures r.Panic? <==> exists i :: 0 < i < |cells| && |cells[i]| <= col
    ensures r.Value? ==> cells != [] ==> WikiTable.Wide(cells[1..], col + 1) && r.value == GoodValues(cells[1..], col)
    ensures r.Value? && cells == [] ==> r.value == []
  {
    var values: seq<string> := [];
    if cells == [] {
      return Value(values);
    }
    var rows := cells[1..];
    for i := 0 to |rows|
      invariant WikiTable.Wide(rows[..i], col + 1)
      invariant values == GoodValues(rows[..i], col)
    {
      if |rows[i]| <= col {
        assert |cells[i + 1]| <= col;
        return Panic("index out of range");
      }
      var value := ToLower(rows[i][col]);
      IndexAnyLowerLetters(value);
      var next := rows[..i + 1];
      assert next[..i] == rows[..i] && next[i] == rows[i];
      assert WikiTable.Wide(next, col + 1);
      if IndexAny(value, LowerLetters) >= 0 {
        values := values + [value];
      }
      assert values == GoodValues(next, col);
    }
    assert rows[..|rows|] == rows;
    assert !exists i :: 0 < i < |cells| && |cells[i]| <= col by {
      forall i | 0 < i < |cells| ensures col < |cells[i]| {
        assert cells[i] == rows[i - 1];
      }
    }
    return Value(values);
  }

  /** `GetDomains` on the records of an existing file: one domain per
      column, the column count being `ColCount`; each holds, in order, the
      lower-cased good values of its column in the rows after the header
      row. A later row narrower than the count panics. */
  method GetDomains(f: Datafile, cells: seq<seq<string>>) returns (r: Outcome<seq<Domain>>)
    ensures r.Panic? <==> exists i :: 0 < i < |cells| && |cells[i]| < ColCount(cells)
    ensures r.Value? ==> |r.value| == ColCount(cells)
    ensures r.Value? && cells != [] ==>
      WikiTable.Wide(cells[1..], ColCount(cells)) &&
      forall col :: 0 <= col < |r.value| ==> r.value[col] == Domain(f, col, GoodValues(cells[1..], col))
  {
    var colCount := 0;
    for i := 0 to |cells|
      invariant colCount == ColCount(cells[..i])
    {
      assert cells[..i + 1][..i] == cells[..i];
      var rowWidth := |cells[i]|;
      if rowWidth < colCount || colCount == 0 {
        colCount := rowWidth;
      }
    }
    assert cells[..|cells|] == cells;
    var domains: seq<Domain> := [];
    for col := 0 to colCount
      invariant |domains| == col
      invariant forall i :: 0 < i < |cells| ==> col <= |cells[i]|
      invariant cells != [] ==> WikiTable.Wide(cells[1..], col)
      invariant cells != [] ==> forall c :: 0 <= c < col ==> domains[c] == Domain(f, c, GoodValues(cells[1..], c))
    {
      var values := ColumnValues(cells, col);
      if values.Panic? {
        return Panic(values.reason);
      }
      assert forall i :: 0 < i < |cells| ==> col < |cells[i]|;
      if cells != [] {
        assert WikiTable.Wide(cells[1..], col + 1);
      }
      ghost var before := domains;
      domains := domains + [Domain(f, col, values.value)];
      assert forall c :: 0 <= c < col ==> domains[c] == before[c];
    }
    return Value(domains);
  }
}
