/** table/table.go: a table of the web-table or open-data store, read from
    the CSV file the store keeps under the table's id. Unlike
    `WikiTable.FromCsv`, `FromCSV` leaves the two header records out of
    the columns, so it reads back exactly what `ToCsv` writes. */
module Table {
  import opened Wrappers
  import opened GoStrings
  import opened WikiTable

  /** `Table`: an id, one header per column, and the columns */
  datatype Table = Table(id: string, headers: seq<Header>, columns: seq<seq<string>>)

  /** `FromCSV`: an error with fewer than two records or a flag that does
      not parse; otherwise the headers of the first two records and, as
      columns, the records after them */
  function FromCSVOf(rows: Records): (r: Result<Table>)
    requires Rectangular(rows)
    ensures r.Ok? <==> |rows| >= 2 && HeadersOf(rows[0], rows[1]).Ok?
    ensures r.Ok? ==> r.value.id == "" && |r.value.columns| == |r.value.headers| == |rows[0]|
    ensures r.Ok? ==> r.value.headers == HeadersOf(rows[0], rows[1]).value &&
                        (forall j, i :: 0 <= j < |rows[0]| && 0 <= i < |rows| - 2 ==> |r.value.columns[j]| == |rows| - 2 && r.value.columns[j][i] == rows[i + 2][j])
  {
    if |rows| < 2 then Err("Empty table")
    else
      match HeadersOf(rows[0], rows[1])
      case Err(e) => Err(e)
      case Ok(hs) => Ok(Table("", hs, ColumnsOf(rows, |hs|, 2)))
  }

  method FromCSV(rows: Records) returns (r: Result<Table>)
    requires Rectangular(rows)
    ensures r == FromCSVOf(rows)
  {
    if |rows| < 2 {
      return Err("Empty table");
    }
    var headers := MakeHeaders(rows[0], rows[1]);
    if headers.Err? {
      return Err(headers.error);
    }
    var cols := FillColumns(rows, |headers.value|, 2);
    return Ok(Table("", headers.value, cols));
  }

  /** Reading the records `ToCsv` writes for a well-formed table gives back
      its headers and its columns. */
  lemma FromCSVOfToCsv(t: WikiTable)
    requires WellFormed(t)
    ensures ToCsvOf(t).Value? && ToCsvOf(t).value.Ok?
    ensures FromCSVOf(ToCsvOf(t).value.value) == Ok(Table("", t.headers, t.columns))
  {
    var n, m := |t.headers|, |t.columns[0]|;
    ToCsvRecords(t);
    var recs := ToCsvOf(t).value.value;
    HeadersOfFormatted(t.headers);
    assert recs[0] == HeaderTexts(t.headers) && recs[1] == HeaderFlags(t.headers);
    var back := FromCSVOf(recs);
    forall j | 0 <= j < n ensures back.value.columns[j] == t.columns[j] {
      forall i | 0 <= i < m ensures back.value.columns[j][i] == t.columns[j][i] {
        assert recs[2 + i] == RowsOf(t.columns, n, m)[i];
      }
    }
    assert back.value.columns == t.columns;
  }

  /** a store of CSV files: the records of the file kept under each id (the
      directory path `getTableFilename` joins is the map's key) */
  type Store = map<string, Records>

  const ErrNoTableFound := "No such table found"

  /** every file of the store holds records of one width */
  predicate StoreRectangular(store: Store)
  {
    forall id :: id in store ==> Rectangular(store[id])
  }

  /** `GetTable`: the table read from the file of the id, carrying that id;
      `ErrNoTableFound` when there is no such file, and the reading error
      when the records do not make a table */
  function GetTable(store: Store, id: string): (r: Result<Table>)
    requires StoreRectangular(store)
    ensures id !in store ==> r == Err(ErrNoTableFound)
    ensures id in store ==> (r.Ok? <==> FromCSVOf(store[id]).Ok?)
    ensures r.Ok? ==> id in store && r.value == FromCSVOf(store[id]).value.(id := id)
  {
    if id !in store then Err(ErrNoTableFound)
    else
      match FromCSVOf(store[id])
      case Err(e) => Err(e)
      case Ok(t) => Ok(t.(id := id))
  }

  /** A well-formed table saved with `ToCsv` under an id is read back by
      `GetTable` as itself, with that id. */
  lemma GetTableOfSaved(store: Store, id: string, t: WikiTable)
    requires StoreRectangular(store) && WellFormed(t)
    requires ToCsvOf(t).Value? && ToCsvOf(t).value.Ok?
    ensures StoreRectangular(store[id := ToCsvOf(t).value.value])
    ensures GetTable(store[id := ToCsvOf(t).value.value], id) == Ok(Table(id, t.headers, t.columns))
  {
    FromCSVOfToCsv(t);
  }
}
