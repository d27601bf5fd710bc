/** table/ontwikitable.go: a web table whose cells are the Wikipedia
    entities the cells' HTML links to, read from the raw JSON record of the
    dataset. */
module OntWikiTable {
  import opened Wrappers
  import opened GoStrings
  import opened WikiTable
  import opened Table

  /** the start of a link to a Wikipedia article */
  const LinkPrefix: string := "a href=\"http://www.wikipedia.org/wiki/"

  /** `ontWikiTableRaw`: the id, the candidate header rows and the rows of
      cell HTML */
  datatype OntWikiTableRaw = OntWikiTableRaw(id: int, headers: seq<seq<Header>>, rows: seq<seq<string>>)

  /** `cellToEntity`: "" when the cell has no Wikipedia link; otherwise the
      text from the end of the first link prefix up to the next '"', and a
      panic (a slice at index -1) when no '"' follows. The `strings.Replace`
      of the source removes the prefix the text starts with. */
  function CellToEntity(html: string): (r: Outcome<string>)
    ensures Index(html, LinkPrefix) == -1 ==> r == Value("")
    ensures r.Panic? <==> Index(html, LinkPrefix) != -1 && '"' !in html[Index(html, LinkPrefix) + |LinkPrefix|..]
    ensures r.Value? && Index(html, LinkPrefix) != -1 ==>
      var k := Index(html, LinkPrefix) + |LinkPrefix|;
      '"' !in r.value && HasPrefix(html[k..], r.value + "\"")
  {
    var ahinx := Index(html, LinkPrefix);
    if ahinx == -1 then Value("")
    else
      var c := html[ahinx + |LinkPrefix|..];
      var q := IndexChar(c, '"');
      if q == -1 then Panic("slice bounds out of range")
      else
        assert c[..q + 1] == c[..q] + "\"";
        Value(c[..q])
  }

  /** A cell whose first link prefix is followed by an entity name and a '"'
      yields that name. */
  lemma LinkEntity(pre: string, entity: string, post: string)
    requires '"' !in entity
    requires Index(pre + LinkPrefix + entity + "\"" + post, LinkPrefix) == |pre|
    ensures CellToEntity(pre + LinkPrefix + entity + "\"" + post) == Value(entity)
  {
    var html := pre + LinkPrefix + entity + "\"" + post;
    var c := html[|pre| + |LinkPrefix|..];
    assert c == entity + "\"" + post;
    assert c[|entity|] == '"' && c[..|entity|] == entity;
  }

  /** every cell of the first n columns of every row has an entity */
  predicate Extractable(rows: seq<seq<string>>, n: nat)
    requires Wide(rows, n)
  {
    forall i, j :: 0 <= i < |rows| && 0 <= j < n ==> CellToEntity(rows[i][j]).Value?
  }

  /** the entity of cell j of every row, column by column */
  predicate EntityColumns(cols: seq<seq<string>>, rows: seq<seq<string>>, n: nat)
    requires Wide(rows, n) && Extractable(rows, n)
  {
    |cols| == n &&
    (forall j :: 0 <= j < n ==> |cols[j]| == |rows|) &&
    forall j, i :: 0 <= j < n && 0 <= i < |rows| ==> cols[j][i] == CellToEntity(rows[i][j]).value
  }

  /** `readRawOnt`'s transposition: the entity of cell j of row i becomes
      cell i of column j; a short row or a link without a closing '"'
      panics */
  method TransposeOnt(rows: seq<seq<string>>, n: nat) returns (r: Outcome<seq<seq<string>>>)
    ensures r.Panic? <==> !(Wide(rows, n) && Extractable(rows, n))
    ensures r.Value? ==> Wide(rows, n) && Extractable(rows, n) && EntityColumns(r.value, rows, n)
  {
    var cols: seq<seq<string>> := seq(n, _ => seq(|rows|, _ => ""));
    for i := 0 to |rows|
      invariant |cols| == n && forall j :: 0 <= j < n ==> |cols[j]| == |rows|
      invariant Wide(rows[..i], n) && Extractable(rows[..i], n)
      invariant forall j, a :: 0 <= j < n && 0 <= a < i ==> cols[j][a] == CellToEntity(rows[a][j]).value
    {
      var next := EntityRow(cols, rows, n, i);
      if next.Panic? {
        assert !(Wide(rows, n) && Extractable(rows, n)) by {
          if Wide(rows, n) {
            var j :| 0 <= j < n && CellToEntity(rows[i][j]).Panic?;
          }
        }
        return Panic(next.reason);
      }
      assert rows[..i + 1] == rows[..i] + [rows[i]];
      cols := next.value;
    }
    assert rows[..|rows|] == rows;
    return Value(cols);
  }

  /** the entities of a row's cells, "" for a cell that panics */
  function EntityCells(row: seq<string>): (r: seq<string>)
    ensures |r| == |row| && forall k :: 0 <= k < |row| && CellToEntity(row[k]).Value? ==> r[k] == CellToEntity(row[k]).value
  {
    seq(|row|, k requires 0 <= k < |row| => var e := CellToEntity(row[k]); if e.Value? then e.value else "")
  }

  /** one pass of `readRawOnt`'s inner loop over row i */
  method EntityRow(cols: seq<seq<string>>, rows: seq<seq<string>>, n: nat, i: nat) returns (r: Outcome<seq<seq<string>>>)
    requires |cols| == n && i < |rows| && forall j :: 0 <= j < n ==> |cols[j]| == |rows|
    ensures r.Panic? <==> n > |rows[i]| || exists j :: 0 <= j < n && CellToEntity(rows[i][j]).Panic?
    ensures r.Value? ==> n <= |rows[i]| && forall j :: 0 <= j < n ==> CellToEntity(rows[i][j]).Value?
    ensures r.Value? ==> |r.value| == n && forall j :: 0 <= j < n ==> |r.value[j]| == |rows|
    ensures r.Value? ==> forall j, a :: 0 <= j < n && 0 <= a < |rows| ==>
                           r.value[j][a] == if a == i then CellToEntity(rows[i][j]).value else cols[j][a]
  {
    ghost var cells := EntityCells(rows[i]);
    var out := cols;
    for j := 0 to n
      invariant j <= |rows[i]| && forall x :: 0 <= x < j ==> CellToEntity(rows[i][x]).Value?
      invariant RowFilled(out, cols, cells, |rows|, n, i, j)
    {
      if j >= |rows[i]| {
        return Panic("index out of range");
      }
      var v := CellToEntity(rows[i][j]);
      if v.Panic? {
        return Panic(v.reason);
      }
      RowFilledStep(out, cols, cells, |rows|, n, i, j);
      out := out[j := out[j][i := v.value]];
    }
    return Value(out);
  }

  /** `readRawOnt`: the error cases of `readRaw` (no row, an empty first
      row, no header row as wide as the first row), then the last such
      header row and the entities of the cells, transposed */
  method ReadRawOnt(raw: OntWikiTableRaw) returns (r: Outcome<Result<Table>>)
    ensures r == Value(Err("Raw table has no row")) <==> raw.rows == []
    ensures r == Value(Err("Raw table has no column")) <==> raw.rows != [] && raw.rows[0] == []
    ensures r.Value? && r.value.Err? <==>
      raw.rows == [] || raw.rows[0] == [] || LastHeaders(raw.headers, |raw.rows[0]|).None?
    ensures r.Panic? <==> raw.rows != [] && raw.rows[0] != [] && LastHeaders(raw.headers, |raw.rows[0]|).Some? &&
                          !(Wide(raw.rows, |raw.rows[0]|) && Extractable(raw.rows, |raw.rows[0]|))
    ensures r.Value? && r.value.Ok? ==>
      var t := r.value.value;
      raw.rows != [] && Wide(raw.rows, |raw.rows[0]|) && Extractable(raw.rows, |raw.rows[0]|) &&
      t.id == "" && Some(t.headers) == LastHeaders(raw.headers, |raw.rows[0]|) &&
      EntityColumns(t.columns, raw.rows, |raw.rows[0]|)
  {
    if |raw.rows| <= 0 {
      return Value(Err("Raw table has no row"));
    }
    var numCol := |raw.rows[0]|;
    if numCol == 0 {
      return Value(Err("Raw table has no column"));
    }
    var headers: Option<seq<Header>> := None;
    for i := 0 to |raw.headers|
      invariant headers == LastHeaders(raw.headers[..i], numCol)
    {
      assert raw.headers[..i + 1][..i] == raw.headers[..i];
      if |raw.headers[i]| == numCol {
        headers := Some(raw.headers[i]);
      }
    }
    assert raw.headers[..|raw.headers|] == raw.headers;
    if headers.None? {
      return Value(Err("Cannot find headers with the same number of fields as row"));
    }
    var cols := TransposeOnt(raw.rows, numCol);
    if cols.Panic? {
      return Panic(cols.reason);
    }
    return Value(Ok(Table("", headers.value, cols.value)));
  }
}
