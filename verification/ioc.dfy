/**
 * The reference table (`IocDatabase`): the rows of the worksheet "List" that name a species,
 * in worksheet order, and an index from each lowercased latin name to its row position.
 */
module Ioc {
  import opened Wrappers
  import opened Text
  import opened Types
  import opened Seqs

  /** A worksheet cell as the spreadsheet reader hands it over. */
  datatype Cell =
    | Empty
    | Error
    | Str(text: string)
    | Int(number: int)
    | Bool(truth: bool)
      /** DateTimeIso and DurationIso cells: text already. */
    | Iso(text: string)
      /** Float, DateTime and Duration cells, in the text the reader's own formatting gives them. */
    | Rendered(text: string)

  /** One worksheet row. */
  datatype Row = Row(cells: seq<Cell>)

  /** An opened workbook: its worksheets by name, each a sequence of rows (the first is the header). */
  datatype Workbook = Workbook(sheets: map<string, seq<Row>>)

  datatype LoadError = OpenFailed | SheetMissing | SheetEmpty | ColumnMissing(column: string)

  datatype IocDatabase = IocDatabase(entries: seq<IocEntry>, latinIndex: map<string, nat>)

  /** Positions of the four required columns. */
  datatype Columns = Columns(order: nat, family: nat, latin: nat, chinese: nat)

  const SheetName: string := "List"
  const OrderColumn: string := "Order"
  const FamilyColumn: string := "Family"
  const LatinColumn: string := "IOC_15.1"
  const ChineseColumn: string := "Chinese"

  /** The required header names, in the order they are checked. */
  const RequiredNames: seq<string> := [OrderColumn, FamilyColumn, LatinColumn, ChineseColumn]

  /**
   * `cell_string`: the text of a cell, `None` exactly for empty and error cells. String cells
   * come back trimmed, numbers in decimal, booleans as "true"/"false", and the date, time and
   * float cells as the text they already carry.
   */
  function CellString(cell: Cell): (r: Option<string>)
    ensures r.None? <==> cell.Empty? || cell.Error?
    ensures cell.Str? ==> r == Some(Trim(cell.text))
    ensures cell.Str? ==> Trimmed(r.value) && |r.value| <= |cell.text|
    ensures cell.Str? ==> (r.value == [] <==> AllWhitespace(cell.text))
    ensures cell.Int? ==> r == Some(IntToString(cell.number))
    ensures cell.Bool? ==> r == Some(if cell.truth then "true" else "false")
    ensures cell.Iso? || cell.Rendered? ==> r == Some(cell.text)
  {
    match cell
    case Empty => None
    case Error => None
    case Str(t) => Some(Trim(t))
    case Int(v) => Some(IntToString(v))
    case Bool(b) => Some(if b then "true" else "false")
    case Iso(t) => Some(t)
    case Rendered(t) => Some(t)
  }

  /** `row.get(col).unwrap_or(&DataType::Empty)`: a cell past the end of a row reads as empty. */
  function CellAt(row: Row, col: nat): Cell
  {
    if col < |row.cells| then row.cells[col] else Empty
  }

  /** The column map once the header loop has seen `header`: each named cell's text to its position. */
  function ColumnMap(header: seq<Cell>): map<string, nat>
  {
    LastPositions(header, CellString)
  }

  /** Each name that `name` reads from some cell, to the position of the last such cell. */
  function LastPositions<C>(cells: seq<C>, name: C -> Option<string>): map<string, nat>
  {
    if cells == [] then map[]
    else
      var m := LastPositions(cells[..|cells| - 1], name);
      match name(cells[|cells| - 1])
      case Some(h) => m[h := |cells| - 1]
      case None => m
  }

  lemma {:induction false} LastPositionsSpec<C>(cells: seq<C>, name: C -> Option<string>, key: string)
    ensures key in LastPositions(cells, name) <==> exists i :: 0 <= i < |cells| && name(cells[i]) == Some(key)
    ensures key in LastPositions(cells, name) ==>
      var i := LastPositions(cells, name)[key];
      && i < |cells| && name(cells[i]) == Some(key)
      && forall j :: i < j < |cells| ==> name(cells[j]) != Some(key)
  {
    if cells != [] {
      var n := |cells| - 1;
      var prefix := cells[..n];
      LastPositionsSpec(prefix, name, key);
      if name(cells[n]) != Some(key) {
        if exists i :: 0 <= i < |cells| && name(cells[i]) == Some(key) {
          var i :| 0 <= i < |cells| && name(cells[i]) == Some(key);
          assert prefix[i] == cells[i];
        }
        if key in LastPositions(prefix, name) {
          assert prefix[LastPositions(prefix, name)[key]] == cells[LastPositions(prefix, name)[key]];
        }
      }
    }
  }

  /** A header name maps to a column exactly when some header cell reads as that name, and then to the last such column. */
  lemma ColumnMapSpec(header: seq<Cell>, name: string)
    ensures name in ColumnMap(header) <==> exists i :: 0 <= i < |header| && CellString(header[i]) == Some(name)
    ensures name in ColumnMap(header) ==>
      var i := ColumnMap(header)[name];
      && i < |header| && CellString(header[i]) == Some(name)
      && forall j :: i < j < |header| ==> CellString(header[j]) != Some(name)
  {
    LastPositionsSpec(header, CellString, name);
  }

  /** All four required names are header names. */
  predicate HasRequired(colMap: map<string, nat>)
  {
    OrderColumn in colMap && FamilyColumn in colMap && LatinColumn in colMap && ChineseColumn in colMap
  }

  /** The required-column check: the first required name the header lacks is the error. */
  function RequiredColumns(colMap: map<string, nat>): (r: Result<Columns, LoadError>)
    ensures r.Ok? <==> HasRequired(colMap)
    ensures r.Ok? ==> r.value == Columns(colMap[OrderColumn], colMap[FamilyColumn], colMap[LatinColumn], colMap[ChineseColumn])
    ensures r.Err? ==> exists k :: 0 <= k < |RequiredNames| && r.error == ColumnMissing(RequiredNames[k])
                         && RequiredNames[k] !in colMap
                         && forall j :: 0 <= j < k ==> RequiredNames[j] in colMap
  {
    assert RequiredNames[0] == OrderColumn && RequiredNames[1] == FamilyColumn;
    assert RequiredNames[2] == LatinColumn && RequiredNames[3] == ChineseColumn;
    if OrderColumn !in colMap then
      Err(ColumnMissing(OrderColumn))
    else if FamilyColumn !in colMap then
      Err(ColumnMissing(FamilyColumn))
    else if LatinColumn !in colMap then
      Err(ColumnMissing(LatinColumn))
    else if ChineseColumn !in colMap then
      Err(ColumnMissing(ChineseColumn))
    else
      Ok(Columns(colMap[OrderColumn], colMap[FamilyColumn], colMap[LatinColumn], colMap[ChineseColumn]))
  }

  /** The acceptance rule for one data row (the body of the row loop). */
  function AcceptRow(row: Row, cols: Columns): Option<IocEntry>
  {
    var order := CellString(CellAt(row, cols.order));
    var family := CellString(CellAt(row, cols.family));
    var latin := CellString(CellAt(row, cols.latin));
    var chinese := CellString(CellAt(row, cols.chinese)).GetOr("");
    if order.None? || family.None? || latin.None? then None
    else
      var l := Trim(latin.value);
      if l == [] then None
      else Some(IocEntry(Trim(order.value), Trim(family.value), l, Trim(chinese)))
  }

  /**
   * A row is kept exactly when its order, family and latin cells are present and the latin
   * text is not blank; the entry holds the four fields trimmed, its latin name non-empty,
   * and "" for an absent localized name.
   */
  lemma AcceptRowSpec(row: Row, cols: Columns)
    ensures AcceptRow(row, cols).Some? <==>
      && CellString(CellAt(row, cols.order)).Some?
      && CellString(CellAt(row, cols.family)).Some?
      && CellString(CellAt(row, cols.latin)).Some?
      && !AllWhitespace(CellString(CellAt(row, cols.latin)).value)
    ensures AcceptRow(row, cols).Some? ==>
      && WellFormedEntry(AcceptRow(row, cols).value)
      && AcceptRow(row, cols).value.order == Trim(CellString(CellAt(row, cols.order)).value)
      && AcceptRow(row, cols).value.family == Trim(CellString(CellAt(row, cols.family)).value)
      && AcceptRow(row, cols).value.latin == Trim(CellString(CellAt(row, cols.latin)).value)
      && AcceptRow(row, cols).value.chinese == Trim(CellString(CellAt(row, cols.chinese)).GetOr(""))
    ensures AcceptRow(row, cols).Some? && CellString(CellAt(row, cols.chinese)).None? ==>
      AcceptRow(row, cols).value.chinese == ""
  {
  }

  /** The row loop's decision as a function value. */
  function Acceptor(cols: Columns): Row -> Option<IocEntry>
  {
    row => AcceptRow(row, cols)
  }

  /** The entries the row loop keeps from `rows`, in row order. */
  function KeptRows(rows: seq<Row>, cols: Columns): seq<IocEntry>
  {
    FilterMap(rows, Acceptor(cols))
  }

  /** A well-formed entry: what every kept row looks like. */
  predicate WellFormedEntry(e: IocEntry)
  {
    Trimmed(e.order) && Trimmed(e.family) && Trimmed(e.latin) && Trimmed(e.chinese) && e.latin != []
  }

  /**
   * The kept entries are exactly the entries of accepted rows, no more of them than rows,
   * each well formed; they keep row order (keeping distributes over concatenation).
   */
  lemma KeptRowsSpec(rows: seq<Row>, more: seq<Row>, cols: Columns)
    ensures |KeptRows(rows, cols)| <= |rows|
    ensures forall e :: e in KeptRows(rows, cols) <==> exists i :: 0 <= i < |rows| && AcceptRow(rows[i], cols) == Some(e)
    ensures forall e :: e in KeptRows(rows, cols) ==> WellFormedEntry(e)
    ensures KeptRows(rows + more, cols) == KeptRows(rows, cols) + KeptRows(more, cols)
  {
    FilterMapSpec(rows, Acceptor(cols));
    FilterMapAppend(rows, more, Acceptor(cols));
    forall e | e in KeptRows(rows, cols) ensures WellFormedEntry(e) {
      var i :| 0 <= i < |rows| && AcceptRow(rows[i], cols) == Some(e);
      AcceptRowSpec(rows[i], cols);
    }
  }

  /** The latin index once the index loop has seen `entries`: each lowercased latin name to its position. */
  function LatinIndexOf(entries: seq<IocEntry>): map<string, nat>
  {
    LastPositions(entries, LatinKey)
  }

  /** The key an entry is indexed under: its latin name, lowercased. */
  function LatinKey(e: IocEntry): Option<string>
  {
    Some(ToLower(e.latin))
  }

  /**
   * The index holds exactly the lowercased latin names of the entries; each maps to a valid
   * position whose entry lowercases to that key, and to the last such position.
   */
  lemma LatinIndexSpec(entries: seq<IocEntry>, key: string)
    ensures key in LatinIndexOf(entries) <==> exists i :: 0 <= i < |entries| && ToLower(entries[i].latin) == key
    ensures key in LatinIndexOf(entries) ==>
      var i := LatinIndexOf(entries)[key];
      && i < |entries| && ToLower(entries[i].latin) == key
      && forall j :: i < j < |entries| ==> ToLower(entries[j].latin) != key
  {
    LastPositionsSpec(entries, LatinKey, key);
  }

  /** Every index value is a position in the entry list. */
  predicate IndexInRange(latinIndex: map<string, nat>, n: nat)
  {
    forall k :: k in latinIndex ==> latinIndex[k] < n
  }

  lemma LatinIndexInRange(entries: seq<IocEntry>)
    ensures IndexInRange(LatinIndexOf(entries), |entries|)
  {
    forall k | k in LatinIndexOf(entries) ensures LatinIndexOf(entries)[k] < |entries| {
      LatinIndexSpec(entries, k);
    }
  }

  /** No two entries share a lowercased latin name. */
  predicate UniqueLatin(entries: seq<IocEntry>)
  {
    forall i, j :: 0 <= i < j < |entries| ==> ToLower(entries[i].latin) != ToLower(entries[j].latin)
  }

  /**
   * Lookup is case-insensitive: a name that lowercases like entry `i`'s latin name finds an
   * entry with that lowercased name, and finds `i` itself when lowercased names are unique.
   */
  lemma LatinLookupAnyCase(entries: seq<IocEntry>, i: nat, name: string)
    requires i < |entries| && ToLower(name) == ToLower(entries[i].latin)
    ensures ToLower(name) in LatinIndexOf(entries) && LatinIndexOf(entries)[ToLower(name)] < |entries|
    ensures ToLower(entries[LatinIndexOf(entries)[ToLower(name)]].latin) == ToLower(name)
    ensures UniqueLatin(entries) ==> LatinIndexOf(entries)[ToLower(name)] == i
  {
    LatinIndexSpec(entries, ToLower(name));
  }

  /** The sheet "List" of an opened workbook, if there is one. */
  function Sheet(book: Option<Workbook>): Option<seq<Row>>
  {
    if book.Some? && SheetName in book.value.sheets then Some(book.value.sheets[SheetName]) else None
  }

  /** What `IocDatabase::load` returns for a workbook (`None`: the workbook could not be opened). */
  function LoadResult(book: Option<Workbook>): Result<IocDatabase, LoadError>
  {
    if book.None? then Err(OpenFailed)
    else if SheetName !in book.value.sheets then Err(SheetMissing)
    else
      var rows := book.value.sheets[SheetName];
      if rows == [] then Err(SheetEmpty)
      else
        match RequiredColumns(ColumnMap(rows[0].cells))
        case Err(e) => Err(e)
        case Ok(cols) =>
          var entries := KeptRows(rows[1..], cols);
          Ok(IocDatabase(entries, LatinIndexOf(entries)))
  }

  /**
   * Loading fails, in this order, for an unopened workbook, a missing sheet, a sheet without a
   * header row, and the first missing required column; a successful load holds only well-formed
   * entries and an index into them.
   */
  lemma LoadResultSpec(book: Option<Workbook>)
    ensures book.None? ==> LoadResult(book) == Err(OpenFailed)
    ensures book.Some? && Sheet(book).None? ==> LoadResult(book) == Err(SheetMissing)
    ensures Sheet(book) == Some([]) ==> LoadResult(book) == Err(SheetEmpty)
    ensures LoadResult(book).Err? && LoadResult(book).error.ColumnMissing? ==>
      && Sheet(book).Some? && Sheet(book).value != []
      && exists k :: 0 <= k < |RequiredNames| && LoadResult(book).error.column == RequiredNames[k]
                     && RequiredNames[k] !in ColumnMap(Sheet(book).value[0].cells)
                     && forall j :: 0 <= j < k ==> RequiredNames[j] in ColumnMap(Sheet(book).value[0].cells)
    ensures LoadResult(book).Ok? ==>
      var db := LoadResult(book).value;
      && (forall e :: e in db.entries ==> WellFormedEntry(e))
      && |db.entries| < |Sheet(book).value|
      && IndexInRange(db.latinIndex, |db.entries|)
  {
    if LoadResult(book).Ok? {
      var rows := Sheet(book).value;
      var cols := RequiredColumns(ColumnMap(rows[0].cells)).value;
      KeptRowsSpec(rows[1..], [], cols);
      LatinIndexInRange(KeptRows(rows[1..], cols));
    }
  }

  /** The header loop of `IocDatabase::load`. */
  method HeaderColumns(header: seq<Cell>) returns (colMap: map<string, nat>)
    ensures colMap == ColumnMap(header)
  {
    colMap := map[];
    for idx := 0 to |header|
      invariant colMap == ColumnMap(header[..idx])
    {
      assert header[..idx + 1][..idx] == header[..idx];
      var name := CellString(header[idx]);
      if name.Some? {
        colMap := colMap[name.value := idx];
      }
    }
    assert header[..|header|] == header;
  }

  /** Keeping one more row appends its entry, if it is accepted. */
  lemma KeptRowsSnoc(rows: seq<Row>, i: nat, cols: Columns)
    requires i < |rows|
    ensures KeptRows(rows[..i + 1], cols)
      == KeptRows(rows[..i], cols) + Yield(AcceptRow(rows[i], cols))
  {
    TakeSnoc(rows, i);
    FilterMapSnoc(rows[..i], rows[i], Acceptor(cols));
  }

  /** The row loop of `IocDatabase::load`: skips rejected rows, pushes the rest. */
  method KeepRows(rows: seq<Row>, cols: Columns) returns (entries: seq<IocEntry>)
    ensures entries == KeptRows(rows, cols)
  {
    entries := [];
    for i := 0 to |rows|
      invariant entries == KeptRows(rows[..i], cols)
    {
      KeptRowsSnoc(rows, i, cols);
      var row := rows[i];
      var order := CellString(CellAt(row, cols.order));
      var family := CellString(CellAt(row, cols.family));
      var latin := CellString(CellAt(row, cols.latin));
      var chinese := CellString(CellAt(row, cols.chinese)).GetOr("");
      if order.None? || family.None? || latin.None? {
        continue;
      }
      var l := Trim(latin.value);
      if l == [] {
        continue;
      }
      entries := entries + [IocEntry(Trim(order.value), Trim(family.value), l, Trim(chinese))];
    }
    assert rows[..|rows|] == rows;
  }

  /** The index loop of `IocDatabase::load`. */
  method IndexLatin(entries: seq<IocEntry>) returns (latinIndex: map<string, nat>)
    ensures latinIndex == LatinIndexOf(entries)
  {
    latinIndex := map[];
    for j := 0 to |entries|
      invariant latinIndex == LatinIndexOf(entries[..j])
    {
      assert entries[..j + 1][..j] == entries[..j];
      latinIndex := latinIndex[ToLower(entries[j].latin) := j];
    }
    assert entries[..|entries|] == entries;
  }

  /** `IocDatabase::load`: the header, the required-column checks, the kept rows and the index. */
  method Load(book: Option<Workbook>) returns (r: Result<IocDatabase, LoadError>)
    ensures r == LoadResult(book)
  {
    if book.None? {
      return Err(OpenFailed);
    }
    if SheetName !in book.value.sheets {
      return Err(SheetMissing);
    }
    var rows := book.value.sheets[SheetName];
    if |rows| == 0 {
      return Err(SheetEmpty);
    }
    var colMap := HeaderColumns(rows[0].cells);
    if OrderColumn !in colMap {
      return Err(ColumnMissing(OrderColumn));
    }
    if FamilyColumn !in colMap {
      return Err(ColumnMissing(FamilyColumn));
    }
    if LatinColumn !in colMap {
      return Err(ColumnMissing(LatinColumn));
    }
    if ChineseColumn !in colMap {
      return Err(ColumnMissing(ChineseColumn));
    }
    var cols := Columns(colMap[OrderColumn], colMap[FamilyColumn], colMap[LatinColumn], colMap[ChineseColumn]);
    var entries := KeepRows(rows[1..], cols);
    var latinIndex := IndexLatin(entries);
    r := Ok(IocDatabase(entries, latinIndex));
  }
}
