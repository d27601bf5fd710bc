/** wikitable/wikitable.go: a web table held column by column, read from
    the raw JSON record of the dataset (`readRaw`) and from and to CSV
    records (`FromCsv`, `ToCsv`). CSV text itself is not modelled: a CSV
    file is the sequence of its records, as `csv.Reader.ReadAll` returns
    them and `csv.Writer.Write` takes them. */
module WikiTable {
  import opened Wrappers
  import opened GoStrings

  /** a column header: its text and whether the column is numeric */
  datatype Header = Header(isNum: bool, text: string)

  /** `WikiTable`: an id, one header per column, and the columns */
  datatype WikiTable = WikiTable(id: int, headers: seq<Header>, columns: seq<seq<string>>)

  /** `wikiTableRaw`: the id, the candidate header rows and the rows of cell
      texts */
  datatype WikiTableRaw = WikiTableRaw(id: int, headers: seq<seq<Header>>, rows: seq<seq<string>>)

  /** the records of a CSV file */
  type Records = seq<seq<string>>

  /** every row has at least n cells */
  predicate Wide(rows: seq<seq<string>>, n: nat)
  {
    forall i :: 0 <= i < |rows| ==> n <= |rows[i]|
  }

  /** every record has as many fields as the first, as `csv.Reader` (with
      its default `FieldsPerRecord`) checks before `ReadAll` returns */
  predicate Rectangular(rows: Records)
  {
    forall i :: 0 <= i < |rows| ==> |rows[i]| == |rows[0]|
  }

  // ---------------------------------------------------------------
  // Transposition
  // ---------------------------------------------------------------

  /** the first n columns of rows[lo..]: column j holds cell j of every row */
  function ColumnsOf(rows: seq<seq<string>>, n: nat, lo: nat): (cols: seq<seq<string>>)
    requires Wide(rows, n) && lo <= |rows|
    ensures |cols| == n
    ensures forall j :: 0 <= j < n ==> |cols[j]| == |rows| - lo
    ensures forall j, i :: 0 <= j < n && 0 <= i < |rows| - lo ==> cols[j][i] == rows[lo + i][j]
  {
    seq(n, j requires 0 <= j < n => seq(|rows| - lo, i requires 0 <= i < |rows| - lo => rows[lo + i][j]))
  }

  /** every one of the n columns has at least m cells */
  predicate Deep(cols: seq<seq<string>>, n: nat, m: nat)
  {
    n <= |cols| && forall j :: 0 <= j < n ==> m <= |cols[j]|
  }

  /** the first m rows of the first n columns: row i holds cell i of every
      column */
  function RowsOf(cols: seq<seq<string>>, n: nat, m: nat): (rows: seq<seq<string>>)
    requires Deep(cols, n, m)
    ensures |rows| == m && Wide(rows, n)
    ensures forall i, j :: 0 <= i < m && 0 <= j < n ==> |rows[i]| == n && rows[i][j] == cols[j][i]
  {
    seq(m, i requires 0 <= i < m => seq(n, j requires 0 <= j < n => cols[j][i]))
  }

  /** Transposing n columns of m cells into rows and back gives the columns. */
  lemma ColumnsOfRows(cols: seq<seq<string>>, n: nat, m: nat)
    requires |cols| == n && forall j :: 0 <= j < n ==> |cols[j]| == m
    ensures ColumnsOf(RowsOf(cols, n, m), n, 0) == cols
  {
    var back := ColumnsOf(RowsOf(cols, n, m), n, 0);
    forall j | 0 <= j < n ensures back[j] == cols[j] {
    }
  }

  // ---------------------------------------------------------------
  // readRaw
  // ---------------------------------------------------------------

  /** the last candidate header row with n fields, if any */
  function LastHeaders(hs: seq<seq<Header>>, n: nat): Option<seq<Header>>
  {
    if hs == [] then None
    else if |hs[|hs| - 1]| == n then Some(hs[|hs| - 1])
    else LastHeaders(hs[..|hs| - 1], n)
  }

  /** The header row chosen is the one of length n with no other of length
      n after it, and there is none exactly when no row has length n. */
  lemma {:induction false} LastHeadersSpec(hs: seq<seq<Header>>, n: nat)
    ensures LastHeaders(hs, n).None? <==> forall i :: 0 <= i < |hs| ==> |hs[i]| != n
    ensures LastHeaders(hs, n).Some? ==>
      exists i :: 0 <= i < |hs| && hs[i] == LastHeaders(hs, n).value && |hs[i]| == n &&
        forall x :: i < x < |hs| ==> |hs[x]| != n
  {
    if hs != [] && |hs[|hs| - 1]| != n {
      var init := hs[..|hs| - 1];
      LastHeadersSpec(init, n);
      if LastHeaders(init, n).Some? {
        var i :| 0 <= i < |init| && init[i] == LastHeaders(init, n).value && |init[i]| == n &&
          forall x :: i < x < |init| ==> |init[x]| != n;
        assert hs[i] == init[i];
        assert forall x :: i < x < |hs| ==> |hs[x]| != n by {
          forall x | i < x < |hs| ensures |hs[x]| != n {
            if x < |init| {
              assert hs[x] == init[x];
            }
          }
        }
      } else {
        forall i | 0 <= i < |hs| ensures |hs[i]| != n {
          if i < |init| {
            assert hs[i] == init[i];
          }
        }
      }
    }
  }

  /** a cell's text with spaces, then punctuation, trimmed from both ends */
  function Clean(v: string): string
  {
    TrimFunc(TrimSpace(v), IsPunct)
  }

  /** A cleaned cell neither starts nor ends with punctuation. */
  lemma CleanTrimmed(v: string)
    ensures var c := Clean(v); c != [] ==> !IsPunct(c[0]) && !IsPunct(c[|c| - 1])
  {
    TrimFuncShape(TrimSpace(v), IsPunct);
  }

  /** the first n cells of every row, cleaned, column by column */
  predicate CleanColumns(cols: seq<seq<string>>, rows: seq<seq<string>>, n: nat)
    requires Wide(rows, n)
  {
    |cols| == n &&
    (forall j :: 0 <= j < n ==> |cols[j]| == |rows|) &&
    forall j, i :: 0 <= j < n && 0 <= i < |rows| ==> cols[j][i] == Clean(rows[i][j])
  }

  /** `readRaw`'s transposition: cell j of row i, cleaned, becomes cell i of
      column j; a row with fewer than n cells makes the index panic */
  method TransposeRaw(rows: seq<seq<string>>, n: nat) returns (r: Outcome<seq<seq<string>>>)
    ensures r.Panic? <==> !Wide(rows, n)
    ensures r.Value? ==> Wide(rows, n) && CleanColumns(r.value, rows, n)
  {
    var cols: seq<seq<string>> := seq(n, _ => seq(|rows|, _ => ""));
    for i := 0 to |rows|
      invariant |cols| == n && forall j :: 0 <= j < n ==> |cols[j]| == |rows|
      invariant Wide(rows[..i], n)
      invariant forall j, a :: 0 <= j < n && 0 <= a < i ==> cols[j][a] == Clean(rows[a][j])
    {
      var next := CleanRow(cols, rows, n, i);
      if next.Panic? {
        assert !Wide(rows, n) by {
          assert |rows[i]| < n;
        }
        return Panic(next.reason);
      }
      assert rows[..i + 1] == rows[..i] + [rows[i]];
      cols := next.value;
    }
    assert rows[..|rows|] == rows;
    return Value(cols);
  }

  /** the columns with the first j cells put at index i */
  predicate RowFilled(out: seq<seq<string>>, cols: seq<seq<string>>, cells: seq<string>, m: nat, n: nat, i: nat, j: nat)
    requires |cols| == n && i < m && j <= n && j <= |cells| && forall x :: 0 <= x < n ==> |cols[x]| == m
  {
    |out| == n && (forall x :: 0 <= x < n ==> |out[x]| == m) &&
    forall x, a :: 0 <= x < n && 0 <= a < m ==>
      out[x][a] == if a == i && x < j then cells[x] else cols[x][a]
  }

  /** one more cell put in place */
  lemma RowFilledStep(out: seq<seq<string>>, cols: seq<seq<string>>, cells: seq<string>, m: nat, n: nat, i: nat, j: nat)
    requires |cols| == n && i < m && j < n && j < |cells| && forall x :: 0 <= x < n ==> |cols[x]| == m
    requires RowFilled(out, cols, cells, m, n, i, j)
    ensures RowFilled(out[j := out[j][i := cells[j]]], cols, cells, m, n, i, j + 1)
  {
    var row := out[j][i := cells[j]];
    var next := out[j := row];
    forall x | 0 <= x < n ensures |next[x]| == m {
      if x != j {
        assert next[x] == out[x];
      }
    }
    forall x, a | 0 <= x < n && 0 <= a < m
      ensures next[x][a] == if a == i && x < j + 1 then cells[x] else cols[x][a]
    {
      if x != j {
        assert next[x] == out[x];
      } else if a != i {
        assert next[x][a] == row[a] == out[j][a];
      }
    }
  }

  /** the cells of a row, cleaned */
  function CleanCells(row: seq<string>): (r: seq<string>)
    ensures |r| == |row| && forall k :: 0 <= k < |row| ==> r[k] == Clean(row[k])
  {
    seq(|row|, k requires 0 <= k < |row| => Clean(row[k]))
  }

  /** one pass of `readRaw`'s inner loop: the cleaned cells of row i put at
      index i of the n columns, or a panic when the row is shorter than n */
  method CleanRow(cols: seq<seq<string>>, rows: seq<seq<string>>, n: nat, i: nat) returns (r: Outcome<seq<seq<string>>>)
    requires |cols| == n && i < |rows| && forall j :: 0 <= j < n ==> |cols[j]| == |rows|
    ensures r.Panic? <==> |rows[i]| < n
    ensures r.Value? ==> |r.value| == n && forall j :: 0 <= j < n ==> |r.value[j]| == |rows|
    ensures r.Value? ==> forall j, a :: 0 <= j < n && 0 <= a < |rows| ==>
                           r.value[j][a] == if a == i then Clean(rows[i][j]) else cols[j][a]
  {
    ghost var cells := CleanCells(rows[i]);
    var out := cols;
    for j := 0 to n
      invariant j <= |rows[i]|
      invariant RowFilled(out, cols, cells, |rows|, n, i, j)
    {
      if j >= |rows[i]| {
        return Panic("index out of range");
      }
      RowFilledStep(out, cols, cells, |rows|, n, i, j);
      out := out[j := out[j][i := Clean(rows[i][j])]];
    }
    return Value(out);
  }

  /** `readRaw`: an error when there is no row, when the first row is empty
      or when no header row has as many fields as the first row; otherwise
      the last such header row and the first row's width of cleaned cells
      of every row, transposed (a shorter row panics) */
  method ReadRaw(raw: WikiTableRaw) returns (r: Outcome<Result<WikiTable>>)
    ensures r == Value(Err("Raw table has no row")) <==> raw.rows == []
    ensures r == Value(Err("Raw table has no column")) <==> raw.rows != [] && raw.rows[0] == []
    ensures r.Value? && r.value.Err? <==>
      raw.rows == [] || raw.rows[0] == [] || LastHeaders(raw.headers, |raw.rows[0]|).None?
    ensures r.Panic? <==> raw.rows != [] && raw.rows[0] != [] &&
                          LastHeaders(raw.headers, |raw.rows[0]|).Some? && !Wide(raw.rows, |raw.rows[0]|)
    ensures r.Value? && r.value.Ok? ==>
      var t := r.value.value;
      raw.rows != [] && Wide(raw.rows, |raw.rows[0]|) &&
      t.id == 0 && Some(t.headers) == LastHeaders(raw.headers, |raw.rows[0]|) &&
      CleanColumns(t.columns, raw.rows, |raw.rows[0]|)
  {
    if |raw.rows| <= 0 {
      return Value(Err("Raw table has no row"));
    }
    var numCol := |raw.rows[0]|;
    if numCol == 0 {
      return Value(Err("Raw table has no column"));
    }
    var headers: Option<seq<Header>> := None;
    for i := 0 to |raw.headers|
      invariant headers == LastHeaders(raw.headers[..i], numCol)
    {
      assert raw.headers[..i + 1][..i] == raw.headers[..i];
      if |raw.headers[i]| == numCol {
        headers := Some(raw.headers[i]);
      }
    }
    assert raw.headers[..|raw.headers|] == raw.headers;
    if headers.None? {
      return Value(Err("Cannot find headers with the same number of fields as row"));
    }
    var cols := TransposeRaw(raw.rows, numCol);
    if cols.Panic? {
      return Panic(cols.reason);
    }
    return Value(Ok(WikiTable(0, headers.value, cols.value)));
  }

  // ---------------------------------------------------------------
  // FromCsv
  // ---------------------------------------------------------------

  /** the headers of a CSV file: text from the first record, the numeric
      flag parsed from the second; the first flag that does not parse is
      the error */
  function HeadersOf(texts: seq<string>, flags: seq<string>): (r: Result<seq<Header>>)
    requires |texts| <= |flags|
    ensures r.Ok? <==> forall i :: 0 <= i < |texts| ==> ParseBool(flags[i]).Ok?
    ensures r.Ok? ==> |r.value| == |texts|
    ensures r.Ok? ==> forall i :: 0 <= i < |texts| ==> r.value[i] == Header(ParseBool(flags[i]).value, texts[i])
  {
    if texts == [] then Ok([])
    else
      var n := |texts| - 1;
      match HeadersOf(texts[..n], flags)
      case Err(e) => Err(e)
      case Ok(hs) =>
        assert forall i :: 0 <= i < n ==> texts[..n][i] == texts[i];
        match ParseBool(flags[n])
        case Err(e) => Err(e)
        case Ok(b) => Ok(hs + [Header(b, texts[n])])
  }

  /** Once a prefix of the header fields fails, the whole fails with the
      same error: the error is that of the first flag that does not parse. */
  lemma {:induction false} HeadersErrStays(texts: seq<string>, flags: seq<string>, k: nat, e: string)
    requires |texts| <= |flags| && k <= |texts| && HeadersOf(texts[..k], flags) == Err(e)
    ensures HeadersOf(texts, flags) == Err(e)
  {
    if k < |texts| {
      var n := |texts| - 1;
      assert texts[..n][..k] == texts[..k];
      HeadersErrStays(texts[..n], flags, k, e);
    } else {
      assert texts[..k] == texts;
    }
  }

  /** The flags `FormatBool` writes read back as the headers they came from. */
  lemma HeadersOfFormatted(hs: seq<Header>)
    ensures HeadersOf(HeaderTexts(hs), HeaderFlags(hs)) == Ok(hs)
  {
    var flags := HeaderFlags(hs);
    forall i | 0 <= i < |hs| ensures ParseBool(flags[i]) == Ok(hs[i].isNum) {
      ParseFormatBool(hs[i].isNum);
    }
    var texts := HeaderTexts(hs);
    var r := HeadersOf(texts, flags);
    assert r.Ok?;
    assert |r.value| == |hs|;
    forall i | 0 <= i < |hs| ensures r.value[i] == hs[i] {
      assert r.value[i] == Header(ParseBool(flags[i]).value, texts[i]);
    }
    assert r.value == hs;
  }

  /** `FromCsv`'s header loop (and `table.FromCSV`'s): one header per field
      of the first record */
  method MakeHeaders(texts: seq<string>, flags: seq<string>) returns (r: Result<seq<Header>>)
    requires |texts| <= |flags|
    ensures r == HeadersOf(texts, flags)
  {
    var headers: seq<Header> := [];
    for i := 0 to |texts|
      invariant HeadersOf(texts[..i], flags) == Ok(headers)
    {
      assert texts[..i + 1][..i] == texts[..i];
      var isNum := ParseBool(flags[i]);
      if isNum.Err? {
        HeadersErrStays(texts, flags, i + 1, isNum.error);
        return Err(isNum.error);
      }
      headers := headers + [Header(isNum.value, texts[i])];
    }
    assert texts[..|texts|] == texts;
    return Ok(headers);
  }

  /** `FromCsv`'s (and `table.FromCSV`'s) column loop: the first n fields of
      the records from lo on, column by column */
  method FillColumns(rows: Records, n: nat, lo: nat) returns (cols: seq<seq<string>>)
    requires Wide(rows, n) && lo <= |rows|
    ensures cols == ColumnsOf(rows, n, lo)
  {
    cols := seq(n, _ => seq(|rows| - lo, _ => ""));
    for i := 0 to |rows| - lo
      invariant |cols| == n && forall j :: 0 <= j < n ==> |cols[j]| == |rows| - lo
      invariant forall j, a :: 0 <= j < n && 0 <= a < i ==> cols[j][a] == rows[lo + a][j]
    {
      for j := 0 to n
        invariant |cols| == n && forall x :: 0 <= x < n ==> |cols[x]| == |rows| - lo
        invariant forall x, a :: 0 <= x < n && 0 <= a < i ==> cols[x][a] == rows[lo + a][x]
        invariant forall x :: 0 <= x < j ==> cols[x][i] == rows[lo + i][x]
      {
        cols := cols[j := cols[j][i := rows[lo + i][j]]];
      }
    }
    assert forall j :: 0 <= j < n ==> cols[j] == ColumnsOf(rows, n, lo)[j];
  }

  /** `FromCsv` as written: an error with fewer than two records or a flag
      that does not parse; otherwise the headers of the first two records
      and, as columns, every record, the two header records included */
  function FromCsvOf(rows: Records): (r: Result<WikiTable>)
    requires Rectangular(rows)
    ensures r.Ok? <==> |rows| >= 2 && HeadersOf(rows[0], rows[1]).Ok?
    ensures r.Ok? ==> r.value.id == 0 && r.value.headers == HeadersOf(rows[0], rows[1]).value
    ensures r.Ok? ==> |r.value.columns| == |rows[0]| &&
                        (forall j, i :: 0 <= j < |rows[0]| && 0 <= i < |rows| ==> |r.value.columns[j]| == |rows| && r.value.columns[j][i] == rows[i][j])
  {
    if |rows| < 2 then Err("Empty table")
    else
      match HeadersOf(rows[0], rows[1])
      case Err(e) => Err(e)
      case Ok(hs) => Ok(WikiTable(0, hs, ColumnsOf(rows, |hs|, 0)))
  }

  method FromCsv(rows: Records) returns (r: Result<WikiTable>)
    requires Rectangular(rows)
    ensures r == FromCsvOf(rows)
  {
    if |rows| < 2 {
      return Err("Empty table");
    }
    var headers := MakeHeaders(rows[0], rows[1]);
    if headers.Err? {
      return Err(headers.error);
    }
    var cols := FillColumns(rows, |headers.value|, 0);
    return Ok(WikiTable(0, headers.value, cols));
  }

  // ---------------------------------------------------------------
  // ToCsv
  // ---------------------------------------------------------------

  function HeaderTexts(hs: seq<Header>): (r: seq<string>)
    ensures |r| == |hs| && forall i :: 0 <= i < |hs| ==> r[i] == hs[i].text
  {
    seq(|hs|, i requires 0 <= i < |hs| => hs[i].text)
  }

  function HeaderFlags(hs: seq<Header>): (r: seq<string>)
    ensures |r| == |hs| && forall i :: 0 <= i < |hs| ==> r[i] == FormatBool(hs[i].isNum)
  {
    seq(|hs|, i requires 0 <= i < |hs| => FormatBool(hs[i].isNum))
  }

  /** `ToCsv` loops over the first column's cells and, for each, over the
      headers: it reads a missing column or a short column only when the
      first column has a cell */
  predicate Writable(t: WikiTable)
    requires t.columns != []
  {
    |t.columns[0]| == 0 || Deep(t.columns, |t.headers|, |t.columns[0]|)
  }

  /** `ToCsv`: an error for a table without columns; a panic when a header
      has no column as long as the first; otherwise the header texts, the
      numeric flags, and one record per cell of the first column */
  function ToCsvOf(t: WikiTable): (r: Outcome<Result<Records>>)
    ensures r == Value(Err("Empty table")) <==> t.columns == []
    ensures r.Panic? <==> t.columns != [] && !Writable(t)
    ensures r.Value? && r.value.Ok? ==>
      |r.value.value| == |t.columns[0]| + 2 && Rectangular(r.value.value) && |r.value.value[0]| == |t.headers|
  {
    if t.columns == [] then Value(Err("Empty table"))
    else if !Writable(t) then Panic("index out of range")
    else
      var n, m := |t.headers|, |t.columns[0]|;
      var recs := [HeaderTexts(t.headers), HeaderFlags(t.headers)] + (if m == 0 then [] else RowsOf(t.columns, n, m));
      assert forall i :: 2 <= i < |recs| ==> |recs[i]| == n;
      Value(Ok(recs))
  }

  method ToCsv(t: WikiTable) returns (r: Outcome<Result<Records>>)
    ensures r == ToCsvOf(t)
  {
    if |t.columns| == 0 {
      return Value(Err("Empty table"));
    }
    var n := |t.headers|;
    var row := new string[n](_ => "");
    for i := 0 to n
      modifies row
      invariant forall x :: 0 <= x < i ==> row[x] == t.headers[x].text
    {
      row[i] := t.headers[i].text;
    }
    assert row[..] == HeaderTexts(t.headers);
    var recs := [row[..]];
    for i := 0 to n
      modifies row
      invariant forall x :: 0 <= x < i ==> row[x] == FormatBool(t.headers[x].isNum)
    {
      row[i] := FormatBool(t.headers[i].isNum);
    }
    assert row[..] == HeaderFlags(t.headers);
    recs := recs + [row[..]];
    assert recs == [HeaderTexts(t.headers), HeaderFlags(t.headers)];
    var m := |t.columns[0]|;
    var written: seq<seq<string>> := [];
    for i := 0 to m
      invariant |written| == i && (i > 0 ==> Deep(t.columns, n, i))
      invariant forall a :: 0 <= a < i ==> |written[a]| == n && forall x :: 0 <= x < n ==> written[a][x] == t.columns[x][a]
    {
      var ok := FillRecord(row, t, i);
      if !ok {
        return Panic("index out of range");
      }
      assert Deep(t.columns, n, i + 1);
      written := written + [row[..]];
    }
    WrittenRows(t, written);
    return Value(Ok(recs + written));
  }

  /** the inner loop of `ToCsv`: cell i of every column, or false at the
      first column too short to have it, which makes the table unwritable */
  method FillRecord(row: array<string>, t: WikiTable, i: nat) returns (ok: bool)
    requires row.Length == |t.headers| && t.columns != [] && i < |t.columns[0]|
    modifies row
    ensures ok ==> row.Length <= |t.columns|
    ensures ok ==> forall x :: 0 <= x < row.Length ==> i < |t.columns[x]| && row[x] == t.columns[x][i]
    ensures !ok ==> !Writable(t)
  {
    for j := 0 to row.Length
      invariant j <= |t.columns|
      invariant forall x :: 0 <= x < j ==> x < |t.columns| && i < |t.columns[x]| && row[x] == t.columns[x][i]
    {
      if j >= |t.columns| || i >= |t.columns[j]| {
        NotWritable(t, i, j);
        return false;
      }
      row[j] := t.columns[j][i];
    }
    return true;
  }

  /** The records written after the header rows are the table's rows. */
  lemma WrittenRows(t: WikiTable, written: seq<seq<string>>)
    requires t.columns != []
    requires |written| == |t.columns[0]| && (|written| > 0 ==> Deep(t.columns, |t.headers|, |written|))
    requires forall a :: 0 <= a < |written| ==> |written[a]| == |t.headers| && forall x :: 0 <= x < |t.headers| ==> written[a][x] == t.columns[x][a]
    ensures written == if |written| == 0 then [] else RowsOf(t.columns, |t.headers|, |written|)
  {
    if |written| > 0 {
      var rows := RowsOf(t.columns, |t.headers|, |written|);
      forall a | 0 <= a < |written| ensures written[a] == rows[a] {
      }
    }
  }

  lemma NotWritable(t: WikiTable, i: nat, j: nat)
    requires t.columns != [] && i < |t.columns[0]| && j < |t.headers|
    requires j >= |t.columns| || i >= |t.columns[j]|
    ensures !Writable(t)
  {
  }

  // ---------------------------------------------------------------
  // Reading back what ToCsv writes
  // ---------------------------------------------------------------

  /** a table `ToCsv` can write and read back: as many columns as headers,
      at least one, all of one length */
  predicate WellFormed(t: WikiTable)
  {
    |t.columns| == |t.headers| && t.columns != [] &&
    forall j :: 0 <= j < |t.columns| ==> |t.columns[j]| == |t.columns[0]|
  }

  /** the well-formed table's records: header texts, flags, then its rows */
  lemma ToCsvRecords(t: WikiTable)
    requires WellFormed(t)
    ensures ToCsvOf(t) == Value(Ok([HeaderTexts(t.headers), HeaderFlags(t.headers)] + RowsOf(t.columns, |t.headers|, |t.columns[0]|)))
  {
    if |t.columns[0]| == 0 {
      assert RowsOf(t.columns, |t.headers|, 0) == [];
    }
  }

  /** every column with its header's text and flag in front */
  function WithHeaderCells(hs: seq<Header>, cols: seq<seq<string>>): (r: seq<seq<string>>)
    requires |cols| == |hs|
    ensures |r| == |hs| && forall j :: 0 <= j < |hs| ==> r[j] == [hs[j].text, FormatBool(hs[j].isNum)] + cols[j]
  {
    seq(|hs|, j requires 0 <= j < |hs| => [hs[j].text, FormatBool(hs[j].isNum)] + cols[j])
  }

  /** A cell of the records `ToCsv` writes, read back as column j: the
      header text, the flag, then the column's own cells. */
  lemma CellBack(t: WikiTable, recs: Records, j: nat, i: nat)
    requires WellFormed(t) && j < |t.headers| && i < |t.columns[0]| + 2
    requires recs == [HeaderTexts(t.headers), HeaderFlags(t.headers)] + RowsOf(t.columns, |t.headers|, |t.columns[0]|)
    ensures j < |recs[i]| && recs[i][j] == WithHeaderCells(t.headers, t.columns)[j][i]
  {
    var cell := [t.headers[j].text, FormatBool(t.headers[j].isNum)] + t.columns[j];
    assert WithHeaderCells(t.headers, t.columns)[j] == cell;
    if i >= 2 {
      assert recs[i] == RowsOf(t.columns, |t.headers|, |t.columns[0]|)[i - 2];
      assert cell[i] == t.columns[j][i - 2];
    }
  }

  /** `FromCsv(ToCsv(t))` as written: every column comes back with the
      header text and the numeric flag in front of its cells. */
  lemma FromCsvOfToCsv(t: WikiTable)
    requires WellFormed(t)
    ensures ToCsvOf(t).Value? && ToCsvOf(t).value.Ok?
    ensures FromCsvOf(ToCsvOf(t).value.value) == Ok(WikiTable(0, t.headers, WithHeaderCells(t.headers, t.columns)))
  {
    var n, m := |t.headers|, |t.columns[0]|;
    ToCsvRecords(t);
    var recs := ToCsvOf(t).value.value;
    assert recs[0] == HeaderTexts(t.headers) && recs[1] == HeaderFlags(t.headers);
    HeadersOfFormatted(t.headers);
    var back := FromCsvOf(recs);
    assert back.Ok? && back.value.headers == t.headers;
    var cols := back.value.columns;
    var want := WithHeaderCells(t.headers, t.columns);
    forall j | 0 <= j < n ensures cols[j] == want[j] {
      forall i | 0 <= i < m + 2 ensures cols[j][i] == want[j][i] {
        CellBack(t, recs, j, i);
      }
    }
    assert cols == want;
  }

  /** A one-column table with one cell does not survive `ToCsv` and then
      `FromCsv`: the column comes back as its header, its flag and its cell. */
  lemma FromCsvKeepsHeaderRows()
    ensures var t := WikiTable(0, [Header(false, "name")], [["x"]]);
      ToCsvOf(t).Value? && ToCsvOf(t).value.Ok? &&
      FromCsvOf(ToCsvOf(t).value.value) == Ok(WikiTable(0, t.headers, [["name", "false", "x"]])) &&
      FromCsvOf(ToCsvOf(t).value.value) != Ok(t)
  {
    var t := WikiTable(0, [Header(false, "name")], [["x"]]);
    FromCsvOfToCsv(t);
    assert FormatBool(false) == "false";
    var cols := WithHeaderCells(t.headers, t.columns);
    assert cols[0] == ["name", "false", "x"];
    assert cols == [["name", "false", "x"]];
    assert [["name", "false", "x"]] != [["x"]];
  }
}
