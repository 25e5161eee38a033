/** `read_cols` and `read_single_column`: read some columns of a sheet and
    clean every cell.

    A sheet is given column by column, in the order of the file. Reading
    with `usecols=names` keeps the requested columns in file order and fails
    when one of them is not in the file; the cleaning loop then turns every
    cell of every kept column into text. The Excel parser itself is not
    modelled: a cell arrives as its text rendering, or `None` when empty.
 */
module Reader {
  import opened Wrappers
  import opened Frames
  import opened Cleaning

  datatype Column = Column(name: string, cells: seq<Option<string>>)

  /** A column after cleaning: every cell holds text. */
  datatype TextColumn = TextColumn(name: string, cells: seq<string>)

  /** pandas' complaint about a requested column the file does not have. */
  datatype ReadError = UsecolsMismatch(absent: seq<string>)

  function Names(sheet: seq<Column>): (r: seq<string>)
    ensures |r| == |sheet|
  {
    Map(sheet, (c: Column) => c.name)
  }

  function TextNames(cols: seq<TextColumn>): (r: seq<string>)
    ensures |r| == |cols|
  {
    Map(cols, (c: TextColumn) => c.name)
  }

  function CleanColumn(k: Cleaner, c: Column): TextColumn {
    TextColumn(c.name, Map(c.cells, (x: Option<string>) => CleanCell(k, x)))
  }

  function Requested(sheet: seq<Column>, names: seq<string>): seq<Column> {
    Where(sheet, (c: Column) => c.name in names)
  }

  /** `read_excel(usecols=names)` followed by the cleaning loop. */
  function ReadCols(k: Cleaner, sheet: seq<Column>, names: seq<string>): Result<seq<TextColumn>, ReadError> {
    var absent := Where(names, (n: string) => n !in Names(sheet));
    if absent != [] then Err(UsecolsMismatch(absent))
    else Ok(Map(Requested(sheet, names), (c: Column) => CleanColumn(k, c)))
  }

  lemma NamesMember(sheet: seq<Column>, n: string)
    ensures n in Names(sheet) <==> exists c :: c in sheet && c.name == n
  {
    if n in Names(sheet) {
      var i :| 0 <= i < |sheet| && Names(sheet)[i] == n;
      assert sheet[i] in sheet;
    }
    if c :| c in sheet && c.name == n {
      var i :| 0 <= i < |sheet| && sheet[i] == c;
      assert Names(sheet)[i] == n;
    }
  }

  /** Reading fails exactly when a requested column is not in the file. */
  lemma ReadColsFails(k: Cleaner, sheet: seq<Column>, names: seq<string>)
    ensures ReadCols(k, sheet, names).Err? <==> exists n :: n in names && n !in Names(sheet)
  {
    var absent := Where(names, (n: string) => n !in Names(sheet));
    if absent != [] {
      assert absent[0] in absent;
    }
  }

  /** Every column read comes from a file column of the same name, with every
      cell cleaned and none added or lost. */
  lemma ReadColsCells(k: Cleaner, sheet: seq<Column>, names: seq<string>, col: TextColumn)
    requires ReadCols(k, sheet, names).Ok? && col in ReadCols(k, sheet, names).value
    ensures col.name in names
    ensures exists src :: src in sheet && src.name == col.name
              && |col.cells| == |src.cells|
              && forall i :: 0 <= i < |src.cells| ==> col.cells[i] == CleanCell(k, src.cells[i])
  {
    var req := Requested(sheet, names);
    var out := ReadCols(k, sheet, names).value;
    var j :| 0 <= j < |out| && out[j] == col;
    assert req[j] in req;
  }

  /** Exactly the requested columns are read. */
  lemma ReadColsNames(k: Cleaner, sheet: seq<Column>, names: seq<string>, n: string)
    requires ReadCols(k, sheet, names).Ok?
    ensures n in TextNames(ReadCols(k, sheet, names).value) <==> n in names
  {
    var req := Requested(sheet, names);
    var out := ReadCols(k, sheet, names).value;
    if n in names {
      assert n !in Where(names, (m: string) => m !in Names(sheet));
      NamesMember(sheet, n);
      var c :| c in sheet && c.name == n;
      var j :| 0 <= j < |req| && req[j] == c;
      assert TextNames(out)[j] == n;
    }
    if n in TextNames(out) {
      var j :| 0 <= j < |out| && TextNames(out)[j] == n;
      assert req[j] in req;
    }
  }

  lemma RequestedOrder(sheet: seq<Column>, names: seq<string>)
    ensures Names(Requested(sheet, names)) == Where(Names(sheet), (n: string) => n in names)
  {
    var name := (c: Column) => c.name;
    var req := Requested(sheet, names);
    assert Names(req) == Map(req, name);
    assert Names(sheet) == Map(sheet, name);
    MapWhere(sheet, name, (c: Column) => c.name in names, (n: string) => n in names);
  }

  /** The columns come out in file order, whatever the order of `names`. */
  lemma ReadColsOrder(k: Cleaner, sheet: seq<Column>, names: seq<string>)
    requires ReadCols(k, sheet, names).Ok?
    ensures TextNames(ReadCols(k, sheet, names).value) == Where(Names(sheet), (n: string) => n in names)
    ensures IsSubseq(TextNames(ReadCols(k, sheet, names).value), Names(sheet))
  {
    RequestedOrder(sheet, names);
    var out := ReadCols(k, sheet, names).value;
    assert TextNames(out) == Names(Requested(sheet, names));
    WhereIsSubseq(Names(sheet), (n: string) => n in names);
  }

  /** `read_single_column`: the cleaned cells of one column, as a list. */
  function ReadSingleColumn(k: Cleaner, sheet: seq<Column>, name: string): Result<seq<string>, ReadError> {
    match ReadCols(k, sheet, [name])
    case Err(e) => Err(e)
    case Ok(cols) =>
      ReadColsNames(k, sheet, [name], name);
      Ok(cols[0].cells)
  }

  /** One string per row of the column, in row order, each cleaned. */
  lemma ReadSingleColumnSpec(k: Cleaner, sheet: seq<Column>, name: string)
    ensures ReadSingleColumn(k, sheet, name).Ok? <==> name in Names(sheet)
    ensures ReadSingleColumn(k, sheet, name).Ok? ==>
              exists src :: src in sheet && src.name == name
                && |ReadSingleColumn(k, sheet, name).value| == |src.cells|
                && forall i :: 0 <= i < |src.cells| ==>
                     ReadSingleColumn(k, sheet, name).value[i] == CleanCell(k, src.cells[i])
  {
    ReadColsFails(k, sheet, [name]);
    if ReadCols(k, sheet, [name]).Ok? {
      var cols := ReadCols(k, sheet, [name]).value;
      ReadColsNames(k, sheet, [name], name);
      assert cols[0] in cols;
      ReadColsCells(k, sheet, [name], cols[0]);
    }
  }
}
