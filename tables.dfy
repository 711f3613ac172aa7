/**
  A `Table` is the parsed form of one document of the tree: the rows of the
  last HTML table in the file, each with five text columns (S.No., Names,
  Size, Address, Description) and the link to a child document. The HTML
  parser itself is abstracted: a file system maps each existing file to the
  `<table>` elements found in it, each a sequence of `<tr>` rows, each a
  sequence of `<td>` cells that carry their text and their first `<a>` anchor.
*/
module Tables {
  import opened Results
  import opened Text
  import opened PosixPath

  /** The first `<a>` element inside a cell; its `href` attribute may be absent. */
  datatype Anchor = Anchor(href: Option<string>)

  /** A `<td>` cell: its text content and its first anchor, if any. */
  datatype Cell = Cell(text: string, anchor: Option<Anchor>)

  /** The `<td>` cells of one `<tr>`. */
  type HtmlRow = seq<Cell>

  /** The `<tr>` rows of one `<table>`, in document order. */
  type HtmlTable = seq<HtmlRow>

  /** The `<table>` elements of one file, in document order. */
  type Document = seq<HtmlTable>

  /** The files that exist, with their parsed contents. */
  type FileSystem = map<Path, Document>

  /** Why building a table raises: `FileNotFoundError`, the `ValueError` for a
      file without tables, and the `KeyError` of an anchor without `href`. */
  datatype ParseError = FileNotFound(path: Path) | NoTablesFound(path: Path) | HrefMissing

  datatype Row = Row(sno: string, names: string, size: string, address: string,
                     description: string, link: Path)

  datatype Table = Table(id: Path, rows: seq<Row>)

  // ---------------------------------------------------------------------------
  // Equality

  /** The five data columns of a row: the row without its `Link`. */
  function Data(r: Row): seq<string> {
    [r.sno, r.names, r.size, r.address, r.description]
  }

  /** The table with its `Link` column dropped. */
  function DataFrame(t: Table): seq<seq<string>> {
    seq(|t.rows|, i requires 0 <= i < |t.rows| => Data(t.rows[i]))
  }

  /** `Table.__eq__`: the two tables agree once the link column is dropped. */
  predicate Equal(a: Table, b: Table) {
    DataFrame(a) == DataFrame(b)
  }

  /** `Table.__ne__`. */
  predicate NotEqual(a: Table, b: Table) {
    !Equal(a, b)
  }

  /** Two rows agree on every column but `Link`. */
  predicate SameData(x: Row, y: Row) {
    x.sno == y.sno && x.names == y.names && x.size == y.size &&
    x.address == y.address && x.description == y.description
  }

  /** Two tables are equal exactly when they have as many rows and each row
      agrees with the row at the same position on the five data columns. */
  lemma EqualIff(a: Table, b: Table)
    ensures Equal(a, b) <==>
      |a.rows| == |b.rows| && forall i :: 0 <= i < |a.rows| ==> SameData(a.rows[i], b.rows[i])
  {
    if Equal(a, b) {
      forall i | 0 <= i < |a.rows| ensures SameData(a.rows[i], b.rows[i]) {
        assert DataFrame(a)[i] == DataFrame(b)[i];
      }
    }
    if |a.rows| == |b.rows| && forall i :: 0 <= i < |a.rows| ==> SameData(a.rows[i], b.rows[i]) {
      forall i | 0 <= i < |a.rows| ensures DataFrame(a)[i] == DataFrame(b)[i] {
        assert SameData(a.rows[i], b.rows[i]);
      }
    }
  }

  /** Tables that differ only in their links (and their file names) compare equal. */
  lemma LinksIgnored(a: Table, b: Table)
    requires |a.rows| == |b.rows|
    requires forall i :: 0 <= i < |a.rows| ==> a.rows[i].(link := b.rows[i].link) == b.rows[i]
    ensures Equal(a, b)
  {
    EqualIff(a, b);
  }

  /** Equality is an equivalence and `!=` is exactly its negation. */
  lemma EqualityLaws(a: Table, b: Table, c: Table)
    ensures Equal(a, a)
    ensures Equal(a, b) <==> Equal(b, a)
    ensures Equal(a, b) && Equal(b, c) ==> Equal(a, c)
    ensures NotEqual(a, b) <==> !Equal(a, b)
  {
  }

  /** `Table.paths()`: the `Link` column, in row order. */
  function Paths(t: Table): seq<Path> {
    seq(|t.rows|, i requires 0 <= i < |t.rows| => t.rows[i].link)
  }

  // ---------------------------------------------------------------------------
  // Building a table from a file

  /** `find_all('tr')[1:]`: the rows after the header row. */
  function DropHeader(trs: HtmlTable): HtmlTable {
    if trs == [] then [] else trs[1..]
  }

  /** The link of a row as written in its Names cell: `''` without an anchor,
      otherwise the `href` up to its first `.htm`, with `.htm` appended; an
      anchor without `href` raises. */
  function LinkText(c: Cell): Result<Path, ParseError> {
    match c.anchor
    case None => Success("")
    case Some(Anchor(None)) => Failure(HrefMissing)
    case Some(Anchor(Some(h))) => Success(h[..FirstHtm(h)] + Htm)
  }

  /** A link text is `''` when the cell has no anchor; it fails exactly when
      the anchor has no `href`; otherwise it is the `href` cut before its
      first `.htm` (or whole, when it has none), followed by `.htm`. */
  lemma LinkTextSpec(c: Cell)
    ensures var r := LinkText(c);
      (c.anchor.None? ==> r == Success("")) &&
      (r.Failure? <==> c.anchor.Some? && c.anchor.value.href.None?) &&
      (r.Success? && c.anchor.Some? ==>
        var h, n := c.anchor.value.href.value, |r.value| - |Htm|;
        0 <= n <= |h| && r.value[n..] == Htm && r.value[..n] == h[..n] &&
        (n < |h| ==> HtmAt(h, n)) && (forall k :: 0 <= k < n ==> !HtmAt(h, k)))
  {
    if c.anchor.Some? && c.anchor.value.href.Some? {
      FirstHtmSpec(c.anchor.value.href.value);
    }
  }

  /** The stripped texts of the five cells of a kept row. */
  function Texts(cells: HtmlRow): seq<string>
    requires |cells| == 5
  {
    [Strip(cells[0].text), Strip(cells[1].text), Strip(cells[2].text),
     Strip(cells[3].text), Strip(cells[4].text)]
  }

  /** The row built from a five-cell `<tr>` of a file in folder `dir`. */
  function ToRow(dir: Path, cells: HtmlRow): Result<Row, ParseError>
    requires |cells| == 5
  {
    match LinkText(cells[1])
    case Failure(e) => Failure(e)
    case Success(link) =>
      Success(Row(Strip(cells[0].text), Strip(cells[1].text), Strip(cells[2].text),
                  Strip(cells[3].text), Strip(cells[4].text), Join(dir, link)))
  }

  /** The rows of `trs` that have exactly five cells, in order. */
  function Kept(trs: HtmlTable): (r: HtmlTable)
    ensures |r| <= |trs|
  {
    if trs == [] then []
    else if |trs[0]| == 5 then [trs[0]] + Kept(trs[1..])
    else Kept(trs[1..])
  }

  /** Every kept row has five cells and comes from `trs`, and every five-cell
      row of `trs` is kept. */
  lemma {:induction false} KeptSpec(trs: HtmlTable)
    ensures var r := Kept(trs);
      (forall k :: 0 <= k < |r| ==> |r[k]| == 5 && r[k] in trs) &&
      (forall x :: x in trs && |x| == 5 ==> x in r)
  {
    if trs != [] {
      KeptSpec(trs[1..]);
      assert forall x :: x in trs ==> x == trs[0] || x in trs[1..];
    }
  }

  /** `Kept` is a filter: it keeps a single row exactly when it has five
      cells, and it keeps the rows of a concatenation part by part, so the
      kept rows keep their order and their multiplicity. */
  lemma {:induction false} KeptFilters(a: HtmlTable, b: HtmlTable, x: HtmlRow)
    ensures Kept([x]) == if |x| == 5 then [x] else []
    ensures Kept(a + b) == Kept(a) + Kept(b)
  {
    assert [x][1..] == [];
    KeptConcat(a, b);
  }

  lemma {:induction false} KeptConcat(a: HtmlTable, b: HtmlTable)
    ensures Kept(a + b) == Kept(a) + Kept(b)
  {
    if a == [] {
      assert a + b == b;
    } else {
      var ab := a + b;
      assert ab[0] == a[0] && ab[1..] == a[1..] + b;
      KeptConcat(a[1..], b);
    }
  }

  /** The loop of `Table.__init__` over the body rows, as a function. */
  function ExtractRows(dir: Path, trs: HtmlTable): Result<seq<Row>, ParseError>
  {
    if trs == [] then Success([])
    else if |trs[0]| != 5 then ExtractRows(dir, trs[1..])
    else
      match ToRow(dir, trs[0])
      case Failure(e) => Failure(e)
      case Success(row) => Prepend([row], ExtractRows(dir, trs[1..]))
  }

  /** `rows` followed by the rows of `r`, or the error of `r`. */
  function Prepend(rows: seq<Row>, r: Result<seq<Row>, ParseError>): Result<seq<Row>, ParseError> {
    match r
    case Failure(e) => Failure(e)
    case Success(more) => Success(rows + more)
  }

  /** `row` is what extraction makes of the five cells `cells` of a file in
      folder `dir`: the stripped texts of the cells and the link text of the
      Names cell resolved against `dir`. */
  predicate RowFrom(dir: Path, row: Row, cells: HtmlRow) {
    |cells| == 5 && LinkText(cells[1]).Success? &&
    Data(row) == Texts(cells) && row.link == Join(dir, LinkText(cells[1]).value)
  }

  /** `rows` is what extraction makes of the five-cell rows `kept`: one row per
      kept `<tr>`, in order. */
  predicate RowsOf(dir: Path, rows: seq<Row>, kept: HtmlTable) {
    |rows| == |kept| && forall k :: 0 <= k < |rows| ==> RowFrom(dir, rows[k], kept[k])
  }

  lemma RowsOfCons(dir: Path, row: Row, rows: seq<Row>, cells: HtmlRow, kept: HtmlTable)
    requires RowFrom(dir, row, cells) && RowsOf(dir, rows, kept)
    ensures RowsOf(dir, [row] + rows, [cells] + kept)
  {
    var rows', kept' := [row] + rows, [cells] + kept;
    forall k | 1 <= k < |rows'| ensures RowFrom(dir, rows'[k], kept'[k]) {
      assert rows'[k] == rows[k - 1] && kept'[k] == kept[k - 1];
    }
  }

  /** Every kept row's link cell either has no anchor or an anchor with `href`. */
  predicate HrefsPresent(kept: HtmlTable) {
    forall k :: 0 <= k < |kept| ==> |kept[k]| == 5 && LinkText(kept[k][1]).Success?
  }

  /** Row extraction fails exactly when a five-cell row has an anchor without
      `href`; body rows with other than five cells are skipped. */
  lemma {:induction false} ExtractRowsFails(dir: Path, trs: HtmlTable)
    ensures ExtractRows(dir, trs).Success? <==> HrefsPresent(Kept(trs))
  {
    if trs != [] {
      ExtractRowsFails(dir, trs[1..]);
      if |trs[0]| == 5 {
        var rest := Kept(trs[1..]);
        assert Kept(trs) == [trs[0]] + rest;
        var kept := Kept(trs);
        assert kept[0] == trs[0];
        if HrefsPresent(kept) {
          forall k | 0 <= k < |rest| ensures |rest[k]| == 5 && LinkText(rest[k][1]).Success? {
            assert kept[k + 1] == rest[k];
          }
        }
        if LinkText(trs[0][1]).Success? && HrefsPresent(rest) {
          forall k | 0 <= k < |kept| ensures |kept[k]| == 5 && LinkText(kept[k][1]).Success? {
            if k > 0 { assert kept[k] == rest[k - 1]; }
          }
        }
      }
    }
  }

  /** Row extraction keeps exactly the five-cell rows, in order: the k-th row
      holds the stripped texts of the k-th kept `<tr>` and its link resolved
      against `dir`. */
  lemma {:induction false} ExtractRowsContents(dir: Path, trs: HtmlTable)
    requires ExtractRows(dir, trs).Success?
    ensures RowsOf(dir, ExtractRows(dir, trs).value, Kept(trs))
  {
    if trs != [] {
      ExtractRowsContents(dir, trs[1..]);
      if |trs[0]| == 5 {
        var row := ToRow(dir, trs[0]).value;
        assert RowFrom(dir, row, trs[0]);
        RowsOfCons(dir, row, ExtractRows(dir, trs[1..]).value, trs[0], Kept(trs[1..]));
      }
    }
  }

  /** `Table(file_path)`: a missing file raises `FileNotFound`, a file without
      tables `NoTablesFound`; otherwise the rows come from the last table of
      the file, without its header row, with links resolved against the
      file's folder. */
  function Parse(fs: FileSystem, path: Path): (r: Result<Table, ParseError>)
    ensures r.Success? ==> path in fs && r.value.id == path
    ensures path !in fs ==> r == Failure(FileNotFound(path))
    ensures path in fs && fs[path] == [] ==> r == Failure(NoTablesFound(path))
  {
    if path !in fs then Failure(FileNotFound(path))
    else if fs[path] == [] then Failure(NoTablesFound(path))
    else
      match ExtractRows(Dirname(path), BodyRows(fs[path]))
      case Failure(e) => Failure(e)
      case Success(rows) => Success(Table(path, rows))
  }

  /** The rows after the header of the last table of a document. */
  function BodyRows(doc: Document): HtmlTable
    requires doc != []
  {
    DropHeader(doc[|doc| - 1])
  }

  /** `paths()` of a parsed table returns one link per five-cell body row of
      the file's last table, in row order: the row's link text joined to the
      file's folder. */
  lemma ParsedPaths(fs: FileSystem, path: Path)
    requires Parse(fs, path).Success?
    ensures path in fs && fs[path] != []
    ensures var t, kept := Parse(fs, path).value, Kept(BodyRows(fs[path]));
      |Paths(t)| == |kept| &&
      forall k :: 0 <= k < |kept| ==>
        |kept[k]| == 5 && LinkText(kept[k][1]).Success? && Paths(t)[k] == Join(Dirname(path), LinkText(kept[k][1]).value)
  {
    ExtractRowsContents(Dirname(path), BodyRows(fs[path]));
    var t, kept := Parse(fs, path).value, Kept(BodyRows(fs[path]));
    forall k | 0 <= k < |kept|
      ensures |kept[k]| == 5 && LinkText(kept[k][1]).Success? && Paths(t)[k] == Join(Dirname(path), LinkText(kept[k][1]).value)
    {
      assert RowFrom(Dirname(path), t.rows[k], kept[k]);
    }
  }

  /** The loop of `Table.__init__`: walks the body rows, keeps those with five
      cells and appends the row built from each. */
  method ExtractData(dir: Path, trs: HtmlTable) returns (r: Result<seq<Row>, ParseError>)
    ensures r == ExtractRows(dir, trs)
  {
    var data: seq<Row> := [];
    PrependNothing(ExtractRows(dir, trs));
    assert trs[0..] == trs;
    for i := 0 to |trs|
      invariant ExtractRows(dir, trs) == Prepend(data, ExtractRows(dir, trs[i..]))
    {
      ExtractRowsUnfold(dir, trs, i);
      var cols := trs[i];
      if |cols| == 5 {
        var row := ToRow(dir, cols);
        if row.Failure? {
          return Failure(row.error);
        }
        PrependTwice(data, [row.value], ExtractRows(dir, trs[i + 1..]));
        data := data + [row.value];
      }
    }
    assert trs[|trs|..] == [] && data + [] == data;
    r := Success(data);
  }

  lemma PrependNothing(r: Result<seq<Row>, ParseError>)
    ensures Prepend([], r) == r
  {
    if r.Success? {
      assert [] + r.value == r.value;
    }
  }

  lemma PrependTwice(a: seq<Row>, b: seq<Row>, r: Result<seq<Row>, ParseError>)
    ensures Prepend(a, Prepend(b, r)) == Prepend(a + b, r)
  {
    if r.Success? {
      assert a + (b + r.value) == (a + b) + r.value;
    }
  }

  lemma ExtractRowsUnfold(dir: Path, trs: HtmlTable, i: nat)
    requires i < |trs|
    ensures ExtractRows(dir, trs[i..]) ==
      if |trs[i]| != 5 then ExtractRows(dir, trs[i + 1..])
      else match ToRow(dir, trs[i])
        case Failure(e) => Failure(e)
        case Success(row) => Prepend([row], ExtractRows(dir, trs[i + 1..]))
  {
    assert trs[i..][1..] == trs[i + 1..];
  }

  /** `Table.__init__`: builds the table of the file at `path`, or raises. */
  method ParseTable(fs: FileSystem, path: Path) returns (r: Result<Table, ParseError>)
    ensures r == Parse(fs, path)
  {
    if path !in fs {
      return Failure(FileNotFound(path));
    }
    var tables := fs[path];
    if tables == [] {
      return Failure(NoTablesFound(path));
    }
    var lastTable := tables[|tables| - 1];
    var data := ExtractData(Dirname(path), DropHeader(lastTable));
    match data
    case Failure(e) => r := Failure(e);
    case Success(rows) => r := Success(Table(path, rows));
  }
}
