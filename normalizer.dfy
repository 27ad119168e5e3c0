/** The station table normaliser (`reconfigura`): keeps the allow-listed columns, turns the
    decimal-comma prices into numbers, renames the coordinates to `lat`/`lon`, drops the rows
    whose coordinate is missing and coerces the coordinates to numbers. A missing coordinate
    column makes the whole call fail. */
module Normalizer {
  import opened Wrappers
  import opened Seqs
  import opened Text
  import opened Frames

  const Latitud: string := "Latitud"
  const Longitud: string := "Longitud (WGS84)"
  const Lat: string := "lat"
  const Lon: string := "lon"

  /** The columns the dashboard keeps, in the order it keeps them. */
  const Wanted: seq<string> :=
    ["C.P.", "Dirección", "Horario", "Latitud", "Localidad", "Longitud (WGS84)", "Municipio",
     "Precio Gasoleo A", "Precio Gasolina 95 E5", "Precio Gasolina 95 E5 Premium", "Provincia",
     "Remisión", "Rótulo", "Tipo Venta", "IDEESS", "IDMunicipio", "IDProvincia", "IDCCAA"]

  /** Length and last character tell the allow-listed names apart. */
  function Signature(s: string): int {
    if s == [] then 0 else |s| * 0x11_0000 + s[|s| - 1] as int
  }

  lemma WantedDistinct()
    ensures Distinct(Wanted)
  {
    var sigs := MapSeq(Wanted, Signature);
    assert sigs == [4 * 0x11_0000 + '.' as int, 9 * 0x11_0000 + 'n' as int, 7 * 0x11_0000 + 'o' as int,
      7 * 0x11_0000 + 'd' as int, 9 * 0x11_0000 + 'd' as int, 16 * 0x11_0000 + ')' as int,
      9 * 0x11_0000 + 'o' as int, 16 * 0x11_0000 + 'A' as int, 21 * 0x11_0000 + '5' as int,
      29 * 0x11_0000 + 'm' as int, 9 * 0x11_0000 + 'a' as int, 8 * 0x11_0000 + 'n' as int,
      6 * 0x11_0000 + 'o' as int, 10 * 0x11_0000 + 'a' as int, 6 * 0x11_0000 + 'S' as int,
      11 * 0x11_0000 + 'o' as int, 11 * 0x11_0000 + 'a' as int, 6 * 0x11_0000 + 'A' as int];
    assert Distinct(sigs);
  }

  // ---------------------------------------------------------------- column selection

  /** The allow-listed columns present in the input: exactly those, without repetition, and in
      allow-list order. */
  function AvailableColumns(present: seq<string>): (cols: seq<string>)
    ensures forall c :: c in cols <==> c in Wanted && c in present
    ensures Distinct(cols)
    ensures forall i, j :: 0 <= i < j < |cols| ==> Before(Wanted, cols[i], cols[j])
  {
    var cols := Filter(Wanted, c => c in present);
    WantedDistinct();
    FilterDistinct(Wanted, c => c in present);
    forall i, j | 0 <= i < j < |cols|
      ensures Before(Wanted, cols[i], cols[j])
    {
      FilterKeepsOrder(Wanted, c => c in present, i, j);
    }
    cols
  }

  function ProjectRow(r: Row, cols: seq<string>): Row {
    map c | c in r && c in cols :: r[c]
  }

  /** `df[cols]`. */
  function Project(f: Frame, cols: seq<string>): Frame {
    Frame(cols, MapSeq(f.rows, r => ProjectRow(r, cols)))
  }

  // ---------------------------------------------------------------- cell conversions

  /** `.str.replace(',', '.')` on one cell: text is rewritten, anything else becomes NaN. */
  function StrCommaToPoint(c: Cell): Cell {
    if c.Text? then Text(ReplaceChar(c.s, ',', '.')) else Missing
  }

  /** `.replace('', None)` on one cell. */
  function BlankToMissing(c: Cell): Cell {
    if c == Text("") then Missing else c
  }

  /** `pd.to_numeric(..., errors='coerce')` on one cell: numbers stay, text that reads as a
      number becomes that number, everything else becomes NaN. */
  function ToNumeric(c: Cell): (r: Cell)
    ensures !r.Text?
    ensures c.Number? ==> r == c
  {
    match c
    case Missing => Missing
    case Number(_) => c
    case Text(s) =>
      match ParseDecimal(s)
      case Some(x) => Number(x)
      case None => Missing
  }

  /** A price cell after the clean-up loop. */
  function PriceCell(c: Cell): Cell {
    ToNumeric(BlankToMissing(StrCommaToPoint(c)))
  }

  /** A coordinate cell after the final coercion (no blank-to-None step there). */
  function CoordinateCell(c: Cell): Cell {
    ToNumeric(StrCommaToPoint(c))
  }

  /** A price is a number exactly when the text, with its commas made points, parses; the
      empty string and unparseable text become unknown and never 0. */
  lemma PriceCellMeaning(s: string, x: real)
    ensures PriceCell(Text(s)) == Number(x) <==> ParseDecimal(ReplaceChar(s, ',', '.')) == Some(x)
    ensures PriceCell(Text(s)) == Missing <==> ParseDecimal(ReplaceChar(s, ',', '.')) == None
  {
    var t := ReplaceChar(s, ',', '.');
    assert PriceCell(Text(s)) == ToNumeric(BlankToMissing(Text(t)));
    if t == "" {
      assert ParseDecimal(t) == None;
    } else {
      assert BlankToMissing(Text(t)) == Text(t);
    }
  }

  /** The empty string becomes unknown, not 0. */
  lemma BlankPriceUnknown()
    ensures PriceCell(Text("")) == Missing
  {
    assert ReplaceChar("", ',', '.') == "";
  }

  /** A price written the way the pricing service writes it, digits, a decimal comma and
      digits, becomes the number it denotes. */
  lemma PriceCommaRoundTrip(whole: string, frac: string)
    requires AllDigits(whole) && AllDigits(frac) && |whole| > 0
    ensures PriceCell(Text(whole + "," + frac)) == Number(DecimalValue(whole, frac))
  {
    var s := whole + "," + frac;
    var t := ReplaceChar(s, ',', '.');
    assert t == whole + "." + frac by {
      assert forall i :: 0 <= i < |whole| ==> s[i] == whole[i] && IsDigit(whole[i]);
      assert forall i :: 0 <= i < |frac| ==> s[|whole| + 1 + i] == frac[i] && IsDigit(frac[i]);
    }
    ParsePointDecimal(whole, frac);
  }

  // ---------------------------------------------------------------- price columns

  predicate IsPriceColumn(col: string) {
    HasInfix(col, "Precio")
  }

  /** `[col for col in df.columns if 'Precio' in col]`. */
  function PriceColumns(cols: seq<string>): seq<string> {
    Filter(cols, IsPriceColumn)
  }

  /** `df[col] = ...` for one price column. */
  function CleanPriceRow(r: Row, col: string): Row {
    if col in r then r[col := PriceCell(r[col])] else r
  }

  /** The rows after the clean-up loop has handled `cols`, in order. */
  function CleanPriceColumns(r: Row, cols: seq<string>): Row
    decreases |cols|
  {
    if cols == [] then r else CleanPriceRow(CleanPriceColumns(r, cols[..|cols| - 1]), cols[|cols| - 1])
  }

  function WithPricesCleaned(f: Frame, cols: seq<string>): Frame {
    Frame(f.columns, MapSeq(f.rows, r => CleanPriceColumns(r, cols)))
  }

  /** The clean-up of distinct columns touches each of them once and nothing else. */
  lemma {:induction false} CleanPriceColumnsAt(r: Row, cols: seq<string>, k: string)
    requires Distinct(cols)
    ensures CleanPriceColumns(r, cols).Keys == r.Keys
    ensures k in r ==> CleanPriceColumns(r, cols)[k] == if k in cols then PriceCell(r[k]) else r[k]
    decreases |cols|
  {
    if cols != [] {
      var init := cols[..|cols| - 1];
      assert Distinct(init);
      assert cols == init + [cols[|cols| - 1]];
      CleanPriceColumnsAt(r, init, k);
    }
  }

  // ---------------------------------------------------------------- rename, drop, coerce

  function RenameKey(k: string): string {
    if k == Latitud then Lat else if k == Longitud then Lon else k
  }

  function RenameRow(r: Row): Row {
    (map k | k in r && k != Latitud && k != Longitud :: r[k])
    + (if Latitud in r then map[Lat := r[Latitud]] else map[])
    + (if Longitud in r then map[Lon := r[Longitud]] else map[])
  }

  /** `df.rename(columns={'Latitud': 'lat', 'Longitud (WGS84)': 'lon'})`. */
  function Rename(f: Frame): Frame {
    Frame(MapSeq(f.columns, RenameKey), MapSeq(f.rows, RenameRow))
  }

  /** The row survives `dropna(subset=['lat', 'lon'])`. */
  predicate HasCoordinates(r: Row) {
    Lat in r && Lon in r && r[Lat] != Missing && r[Lon] != Missing
  }

  function DropMissingCoordinates(f: Frame): Frame {
    Frame(f.columns, Filter(f.rows, HasCoordinates))
  }

  function CoerceRow(r: Row): Row {
    var r1 := if Lat in r then r[Lat := CoordinateCell(r[Lat])] else r;
    if Lon in r1 then r1[Lon := CoordinateCell(r1[Lon])] else r1
  }

  function CoerceCoordinates(f: Frame): Frame {
    Frame(f.columns, MapSeq(f.rows, CoerceRow))
  }

  // ---------------------------------------------------------------- the whole normaliser

  /** The normaliser step by step, as the code runs it; `None` is the caught exception, raised
      by `dropna` when a coordinate column does not exist. */
  function Normalize(raw: Frame): (r: Option<Frame>)
    ensures r.Some? ==> |r.value.rows| <= |raw.rows|
    ensures r.Some? ==> forall row: Row :: row in r.value.rows ==>
      Lat in row && Lon in row && !row[Lat].Text? && !row[Lon].Text?
  {
    var selected := Project(raw, AvailableColumns(raw.columns));
    var priced := WithPricesCleaned(selected, PriceColumns(selected.columns));
    var renamed := Rename(priced);
    if Lat !in renamed.columns || Lon !in renamed.columns then None
    else
      CoercedCoordinates(renamed.rows);
      Some(CoerceCoordinates(DropMissingCoordinates(renamed)))
  }

  /** Every row left after the drop carries both coordinates, and coercion leaves them as
      numbers or NaN, never text. */
  lemma CoercedCoordinates(rows: seq<Row>)
    ensures forall row: Row :: row in MapSeq(Filter(rows, HasCoordinates), CoerceRow) ==>
      Lat in row && Lon in row && !row[Lat].Text? && !row[Lon].Text?
  {
    var kept := Filter(rows, HasCoordinates);
    forall row: Row | row in MapSeq(kept, CoerceRow)
      ensures Lat in row && Lon in row && !row[Lat].Text? && !row[Lon].Text?
    {
      var i :| 0 <= i < |kept| && MapSeq(kept, CoerceRow)[i] == row;
      assert kept[i] in kept;
      CoerceAt(kept[i], Lat);
      CoerceAt(kept[i], Lon);
    }
  }

  /** The raw column a normalised column comes from. */
  function SourceKey(k: string): string {
    if k == Lat then Latitud else if k == Lon then Longitud else k
  }

  /** What the normaliser does to the cell of raw column `col`. */
  function CanonicalCell(col: string, c: Cell): Cell {
    if IsPriceColumn(col) then PriceCell(c)
    else if col == Latitud || col == Longitud then CoordinateCell(c)
    else c
  }

  /** Row-wise reading of the normaliser: one raw row, all of its conversions at once, over
      the allow-listed columns `cols` the input has. */
  function CanonicalRow(r: Row, cols: seq<string>): Row {
    map k | k in ColumnSet(MapSeq(cols, RenameKey)) && SourceKey(k) in r :: CanonicalCell(SourceKey(k), r[SourceKey(k)])
  }

  predicate HasRawCoordinates(r: Row) {
    Latitud in r && Longitud in r && r[Latitud] != Missing && r[Longitud] != Missing
  }

  // ---------------------------------------------------------------- the step-by-step method

  /** `df[col] = df[col].str.replace(',', '.').replace('', None)` followed by
      `df[col] = pd.to_numeric(df[col], errors='coerce')`. */
  function UpdatePriceColumn(f: Frame, col: string): Frame {
    Frame(f.columns, MapSeq(f.rows, r => CleanPriceRow(r, col)))
  }

  /** One more pass of the clean-up loop handles one more column. */
  lemma UpdateStep(f: Frame, cols: seq<string>, i: nat)
    requires i < |cols|
    ensures UpdatePriceColumn(WithPricesCleaned(f, cols[..i]), cols[i]) == WithPricesCleaned(f, cols[..i + 1])
  {
    assert cols[..i + 1][..i] == cols[..i];
  }

  /** `reconfigura` as the code runs it: the frame is rebound step by step and the price
      columns are rewritten one at a time. */
  method Reconfigura(raw: Frame) returns (result: Option<Frame>)
    ensures result == Normalize(raw)
  {
    var cols := AvailableColumns(raw.columns);
    var df := Project(raw, cols);
    ghost var selected := df;
    var priceCols := PriceColumns(df.columns);
    for i := 0 to |priceCols|
      invariant df == WithPricesCleaned(selected, priceCols[..i])
    {
      df := UpdatePriceColumn(df, priceCols[i]);
      UpdateStep(selected, priceCols, i);
    }
    assert priceCols[..|priceCols|] == priceCols;
    df := Rename(df);
    if Lat !in df.columns || Lon !in df.columns {
      // `dropna(subset=['lat', 'lon'])` raises KeyError, caught by the handler
      return None;
    }
    df := DropMissingCoordinates(df);
    df := CoerceCoordinates(df);
    result := Some(df);
  }

  // ---------------------------------------------------------------- the row-wise reading

  /** The allow-list never names the new coordinate labels, and the coordinate columns are
      not price columns. */
  lemma WantedFacts()
    ensures Latitud in Wanted && Longitud in Wanted
    ensures Lat !in Wanted && Lon !in Wanted
    ensures !IsPriceColumn(Latitud) && !IsPriceColumn(Longitud)
  {
    assert forall i :: 0 <= i < |Wanted| ==> |Wanted[i]| >= 4;
    assert Wanted[3] == Latitud && Wanted[5] == Longitud;
    if IsPriceColumn(Latitud) {
      InfixHead(Latitud, "Precio");
      assert false;
    }
    if IsPriceColumn(Longitud) {
      InfixHead(Longitud, "Precio");
      assert false;
    }
  }

  /** The rows up to the drop, seen one raw row at a time. */
  function BeforeDrop(r: Row, cols: seq<string>): Row {
    RenameRow(CleanPriceColumns(ProjectRow(r, cols), PriceColumns(cols)))
  }

  /** Selection and the clean-up loop on one row: the selected cells, prices converted. */
  lemma ProjectCleanAt(r: Row, cols: seq<string>, k: string)
    requires ColumnSet(cols) <= r.Keys && Distinct(cols)
    ensures CleanPriceColumns(ProjectRow(r, cols), PriceColumns(cols)).Keys == ColumnSet(cols)
    ensures k in cols ==>
      CleanPriceColumns(ProjectRow(r, cols), PriceColumns(cols))[k] == if IsPriceColumn(k) then PriceCell(r[k]) else r[k]
  {
    FilterDistinct(cols, IsPriceColumn);
    CleanPriceColumnsAt(ProjectRow(r, cols), PriceColumns(cols), k);
  }

  /** The renamed row holds key `k` exactly when `k` is the new name of a key it had. */
  lemma RenameAt(r: Row, k: string)
    requires Lat !in r && Lon !in r
    ensures k in RenameRow(r) <==> SourceKey(k) in r && RenameKey(SourceKey(k)) == k
    ensures k in RenameRow(r) ==> RenameRow(r)[k] == r[SourceKey(k)]
  {
  }

  /** The same for the column labels. */
  lemma RenamedColumnsAt(cols: seq<string>, k: string)
    requires Lat !in cols && Lon !in cols
    ensures k in MapSeq(cols, RenameKey) <==> SourceKey(k) in cols && RenameKey(SourceKey(k)) == k
  {
    var out := MapSeq(cols, RenameKey);
    if k in out {
      var i :| 0 <= i < |out| && out[i] == k;
      assert SourceKey(k) == cols[i];
    }
    if SourceKey(k) in cols && RenameKey(SourceKey(k)) == k {
      var i :| 0 <= i < |cols| && cols[i] == SourceKey(k);
      assert out[i] == k;
    }
  }

  /** Coercion touches the two coordinate cells only. */
  lemma CoerceAt(r: Row, k: string)
    ensures CoerceRow(r).Keys == r.Keys
    ensures k in r ==> CoerceRow(r)[k] == if k == Lat || k == Lon then CoordinateCell(r[k]) else r[k]
  {
  }

  /** The row keeps its coordinates through selection, price clean-up and rename exactly
      when the raw row had them. */
  lemma RowKeepsCoordinates(r: Row, cols: seq<string>)
    requires ColumnSet(cols) <= r.Keys && Distinct(cols)
    requires Lat !in cols && Lon !in cols && Latitud in cols && Longitud in cols
    ensures HasCoordinates(BeforeDrop(r, cols)) == HasRawCoordinates(r)
  {
    WantedFacts();
    var r2 := CleanPriceColumns(ProjectRow(r, cols), PriceColumns(cols));
    ProjectCleanAt(r, cols, Latitud);
    ProjectCleanAt(r, cols, Longitud);
    RenameAt(r2, Lat);
    RenameAt(r2, Lon);
  }

  /** One key of one row through all the steps. */
  lemma RowStepsAt(r: Row, cols: seq<string>, k: string)
    requires ColumnSet(cols) <= r.Keys && Distinct(cols)
    requires Lat !in cols && Lon !in cols
    ensures k in CoerceRow(BeforeDrop(r, cols)) <==> k in CanonicalRow(r, cols)
    ensures k in CanonicalRow(r, cols) ==> CoerceRow(BeforeDrop(r, cols))[k] == CanonicalRow(r, cols)[k]
  {
    WantedFacts();
    var r2 := CleanPriceColumns(ProjectRow(r, cols), PriceColumns(cols));
    ProjectCleanAt(r, cols, SourceKey(k));
    RenameAt(r2, k);
    RenamedColumnsAt(cols, k);
    CoerceAt(RenameRow(r2), k);
  }

  lemma RowsAgree(a: Row, b: Row)
    requires forall k :: k in a <==> k in b
    requires forall k :: k in b ==> a[k] == b[k]
    ensures a == b
  {
  }

  /** Coercion after the drop yields the row-wise reading. */
  lemma RowSteps(r: Row, cols: seq<string>)
    requires ColumnSet(cols) <= r.Keys && Distinct(cols)
    requires Lat !in cols && Lon !in cols
    ensures CoerceRow(BeforeDrop(r, cols)) == CanonicalRow(r, cols)
  {
    var a, b := CoerceRow(BeforeDrop(r, cols)), CanonicalRow(r, cols);
    forall k
      ensures k in a <==> k in b
      ensures k in b ==> a[k] == b[k]
    {
      RowStepsAt(r, cols, k);
    }
    RowsAgree(a, b);
  }

  /** The normaliser fails exactly when the input lacks a coordinate column. */
  lemma NormalizeFails(raw: Frame)
    ensures Normalize(raw).None? <==> Latitud !in raw.columns || Longitud !in raw.columns
  {
    WantedFacts();
    var cols := AvailableColumns(raw.columns);
    RenamedColumnsAt(cols, Lat);
    RenamedColumnsAt(cols, Lon);
  }

  /** The frame the drop works on, row by row. */
  lemma RenamedRows(raw: Frame, cols: seq<string>)
    ensures |Rename(WithPricesCleaned(Project(raw, cols), PriceColumns(cols))).rows| == |raw.rows|
    ensures forall i :: 0 <= i < |raw.rows| ==>
      Rename(WithPricesCleaned(Project(raw, cols), PriceColumns(cols))).rows[i] == BeforeDrop(raw.rows[i], cols)
  {
  }

  lemma AllKeepCoordinates(raw: Frame, cols: seq<string>)
    requires WellFormed(raw)
    requires ColumnSet(cols) <= ColumnSet(raw.columns) && Distinct(cols)
    requires Lat !in cols && Lon !in cols && Latitud in cols && Longitud in cols
    ensures forall i :: 0 <= i < |raw.rows| ==>
      HasCoordinates(BeforeDrop(raw.rows[i], cols)) == HasRawCoordinates(raw.rows[i])
  {
    forall i | 0 <= i < |raw.rows|
      ensures HasCoordinates(BeforeDrop(raw.rows[i], cols)) == HasRawCoordinates(raw.rows[i])
    {
      RowKeepsCoordinates(raw.rows[i], cols);
    }
  }

  /** Dropping after the earlier steps is dropping before them, by the raw coordinates. */
  lemma DropCommutes(rows: seq<Row>, raw: seq<Row>, cols: seq<string>)
    requires |rows| == |raw| && forall i :: 0 <= i < |rows| ==> rows[i] == BeforeDrop(raw[i], cols)
    requires forall i :: 0 <= i < |raw| ==> HasCoordinates(BeforeDrop(raw[i], cols)) == HasRawCoordinates(raw[i])
    ensures Filter(rows, HasCoordinates) == MapSeq(Filter(raw, HasRawCoordinates), (r: Row) => BeforeDrop(r, cols))
  {
    var pre := (r: Row) => BeforeDrop(r, cols);
    assert rows == MapSeq(raw, pre);
    FilterMap(raw, pre, HasCoordinates, HasRawCoordinates);
  }

  /** The rows that survive the drop are the raw rows with both coordinates, in order,
      after selection, price clean-up and rename. */
  lemma DropStep(rows: seq<Row>, raw: Frame, cols: seq<string>)
    requires WellFormed(raw)
    requires ColumnSet(cols) <= ColumnSet(raw.columns) && Distinct(cols)
    requires Lat !in cols && Lon !in cols && Latitud in cols && Longitud in cols
    requires |rows| == |raw.rows| && forall i :: 0 <= i < |rows| ==> rows[i] == BeforeDrop(raw.rows[i], cols)
    ensures var kept := Filter(raw.rows, HasRawCoordinates);
      |Filter(rows, HasCoordinates)| == |kept| &&
      forall i :: 0 <= i < |kept| ==> Filter(rows, HasCoordinates)[i] == BeforeDrop(kept[i], cols)
  {
    AllKeepCoordinates(raw, cols);
    DropCommutes(rows, raw.rows, cols);
  }

  /** Coercing the surviving rows gives the row-wise reading of their raw rows. */
  lemma CoerceStep(dropped: seq<Row>, kept: seq<Row>, raw: Frame, cols: seq<string>)
    requires WellFormed(raw)
    requires ColumnSet(cols) <= ColumnSet(raw.columns) && Distinct(cols)
    requires Lat !in cols && Lon !in cols
    requires forall r :: r in kept ==> r in raw.rows
    requires |dropped| == |kept| && forall i :: 0 <= i < |kept| ==> dropped[i] == BeforeDrop(kept[i], cols)
    ensures MapSeq(dropped, CoerceRow) == MapSeq(kept, (r: Row) => CanonicalRow(r, cols))
  {
    forall i | 0 <= i < |kept|
      ensures CoerceRow(dropped[i]) == CanonicalRow(kept[i], cols)
    {
      assert kept[i] in raw.rows;
      RowSteps(kept[i], cols);
    }
  }

  /** What the allow-list selection guarantees when both coordinate columns exist. */
  lemma AvailableFacts(present: seq<string>)
    requires Latitud in present && Longitud in present
    ensures var cols := AvailableColumns(present);
      ColumnSet(cols) <= ColumnSet(present) && Distinct(cols) &&
      Lat !in cols && Lon !in cols && Latitud in cols && Longitud in cols &&
      !IsPriceColumn(Latitud) && !IsPriceColumn(Longitud)
  {
    WantedFacts();
  }

  /** The step-by-step normaliser equals the row-wise reading: when both coordinate columns
      exist it keeps the renamed allow-listed columns and, in their original order, the raw
      rows that have both coordinates, each converted cell by cell. */
  lemma NormalizeRowWise(raw: Frame)
    requires WellFormed(raw)
    requires Latitud in raw.columns && Longitud in raw.columns
    ensures var cols := AvailableColumns(raw.columns);
      Normalize(raw) ==
        Some(Frame(MapSeq(cols, RenameKey), MapSeq(Filter(raw.rows, HasRawCoordinates), r => CanonicalRow(r, cols))))
  {
    NormalizeFails(raw);
    var cols := AvailableColumns(raw.columns);
    AvailableFacts(raw.columns);
    var renamed := Rename(WithPricesCleaned(Project(raw, cols), PriceColumns(cols)));
    RenamedRows(raw, cols);
    DropStep(renamed.rows, raw, cols);
    var kept := Filter(raw.rows, HasRawCoordinates);
    CoerceStep(Filter(renamed.rows, HasCoordinates), kept, raw, cols);
  }

  // ---------------------------------------------------------------- consequences

  /** Each kept raw column appears under its new name, converted as its kind demands: prices
      parsed, coordinates coerced, every other column untouched. */
  lemma CanonicalRowAt(r: Row, cols: seq<string>, c: string)
    requires Lat !in cols && Lon !in cols
    requires c in cols && c in r
    ensures RenameKey(c) in CanonicalRow(r, cols)
    ensures CanonicalRow(r, cols)[RenameKey(c)] == CanonicalCell(c, r[c])
  {
    RenamedColumnsAt(cols, RenameKey(c));
  }

  /** Soundness of the normalised rows: each is the conversion of a raw row whose two
      coordinates were both present, and its `lat`/`lon` come from those coordinates. */
  lemma NormalizedRowsFromSource(raw: Frame, j: nat)
    requires WellFormed(raw)
    requires Normalize(raw).Some? && j < |Normalize(raw).value.rows|
    ensures exists i :: (0 <= i < |raw.rows| && HasRawCoordinates(raw.rows[i]) &&
                         Normalize(raw).value.rows[j] == CanonicalRow(raw.rows[i], AvailableColumns(raw.columns)))
    ensures Lat in Normalize(raw).value.rows[j] && Lon in Normalize(raw).value.rows[j]
  {
    var out := Normalize(raw).value;
    assert out.rows[j] in out.rows;
    NormalizeFails(raw);
    NormalizeRowWise(raw);
    var cols := AvailableColumns(raw.columns);
    var kept := Filter(raw.rows, HasRawCoordinates);
    assert out.rows == MapSeq(kept, r => CanonicalRow(r, cols));
    assert kept[j] in raw.rows;
    var i :| 0 <= i < |raw.rows| && raw.rows[i] == kept[j];
  }

  /** Completeness: every raw row with both coordinates present is in the output. */
  lemma NormalizedRowsComplete(raw: Frame, i: nat)
    requires WellFormed(raw)
    requires Latitud in raw.columns && Longitud in raw.columns
    requires i < |raw.rows| && HasRawCoordinates(raw.rows[i])
    ensures Normalize(raw).Some?
    ensures CanonicalRow(raw.rows[i], AvailableColumns(raw.columns)) in Normalize(raw).value.rows
  {
    NormalizeRowWise(raw);
    var kept := Filter(raw.rows, HasRawCoordinates);
    assert raw.rows[i] in kept;
    var j :| 0 <= j < |kept| && kept[j] == raw.rows[i];
    assert Normalize(raw).value.rows[j] == CanonicalRow(raw.rows[i], AvailableColumns(raw.columns));
  }

  /** As written, the drop runs before the coercion: a station whose latitude is present but
      does not read as a number stays in the table, with an unknown `lat`. */
  lemma UnparseableCoordinateKept(raw: Frame, i: nat, s: string)
    requires WellFormed(raw)
    requires Latitud in raw.columns && Longitud in raw.columns
    requires i < |raw.rows| && raw.rows[i][Latitud] == Text(s) && raw.rows[i][Longitud] != Missing
    requires ParseDecimal(ReplaceChar(s, ',', '.')) == None
    ensures Normalize(raw).Some?
    ensures exists out :: out in Normalize(raw).value.rows && Lat in out && out[Lat] == Missing
  {
    NormalizedRowsComplete(raw, i);
    var cols := AvailableColumns(raw.columns);
    AvailableFacts(raw.columns);
    CanonicalRowAt(raw.rows[i], cols, Latitud);
    var out := CanonicalRow(raw.rows[i], cols);
    assert out[Lat] == CoordinateCell(Text(s));
  }
}
