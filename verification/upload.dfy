/**
 The upload handler: pick a reader from the file name, reject tables that lack a
 required column, coerce the Date column and drop incomplete rows, and offer the
 distinct Region and Category values as filter options.

 Decoding the upload (splitting the data URL, base64, the CSV and Excel readers) and
 date parsing belong to libraries; they enter as the parameters `decode` and `parse`,
 which answer `None` where the library raises or coerces to "not a time".
 */
module Upload {
  import opened Records
  import opened Seqs

  /** The two readers the handler can dispatch to. */
  datatype Decoder = CsvDecoder | ExcelDecoder

  /** Reader choice by substring of the file name; "csv" is tested before "xls". */
  function DecoderFor(filename: string): Option<Decoder>
  {
    if Contains(filename, "csv") then Some(CsvDecoder)
    else if Contains(filename, "xls") then Some(ExcelDecoder)
    else None
  }

  lemma DecoderChoice(filename: string)
    ensures DecoderFor(filename) == Some(CsvDecoder) <==> IsInfix("csv", filename)
    ensures DecoderFor(filename) == Some(ExcelDecoder) <==> !IsInfix("csv", filename) && IsInfix("xls", filename)
    ensures DecoderFor(filename) == None <==> !IsInfix("csv", filename) && !IsInfix("xls", filename)
  {
    ContainsIsInfix(filename, "csv");
    ContainsIsInfix(filename, "xls");
  }

  /** Column names the dashboard needs; matching is exact and case-sensitive. */
  const RequiredColumns: seq<string> := ["Date", "Region", "Product", "Sales", "Category"]

  predicate HasRequiredColumns(columns: seq<string>)
  {
    forall i :: 0 <= i < |RequiredColumns| ==> RequiredColumns[i] in columns
  }

  /** The executable form of `HasRequiredColumns`, the header test `UpdateData` applies:
      the required names are checked one at a time, and the first missing one rejects. */
  method CheckColumns(columns: seq<string>) returns (ok: bool)
    ensures ok <==> HasRequiredColumns(columns)
    ensures !ok <==> ("Date" !in columns || "Region" !in columns || "Product" !in columns
                      || "Sales" !in columns || "Category" !in columns)
  {
    var i := 0;
    while i < |RequiredColumns|
      invariant 0 <= i <= |RequiredColumns|
      invariant forall k :: 0 <= k < i ==> RequiredColumns[k] in columns
    {
      if RequiredColumns[i] !in columns {
        return false;
      }
      i := i + 1;
    }
    assert RequiredColumns[0] in columns && RequiredColumns[1] in columns && RequiredColumns[2] in columns
        && RequiredColumns[3] in columns && RequiredColumns[4] in columns;
    return true;
  }

  /** A raw row survives cleaning when its date parses and Region and Category are present. */
  predicate Usable(raw: RawRow, parse: string -> Option<Date>)
  {
    raw.date.Some? && parse(raw.date.value).Some? && raw.region.Some? && raw.category.Some?
  }

  function UsableUnder(parse: string -> Option<Date>): RawRow -> bool
  {
    raw => Usable(raw, parse)
  }

  /** The cleaned form of a usable row: the coerced date, every other cell as it was. */
  function Convert(raw: RawRow, parse: string -> Option<Date>): (row: Row)
    requires Usable(raw, parse)
  {
    Row(parse(raw.date.value).value, raw.region.value, raw.product, raw.sales, raw.category.value)
  }

  /** Date coercion followed by dropping rows with a missing Date, Region or Category. */
  function Clean(rows: seq<RawRow>, parse: string -> Option<Date>): (r: seq<Row>)
    ensures var idx := Positions(rows, UsableUnder(parse));
            && |r| == |idx|
            && forall j :: 0 <= j < |r| ==>
                 idx[j] < |rows| && Usable(rows[idx[j]], parse) && r[j] == Convert(rows[idx[j]], parse)
    decreases |rows|
  {
    if |rows| == 0 then []
    else
      var r := Clean(rows[..|rows| - 1], parse);
      var last := rows[|rows| - 1];
      if Usable(last, parse) then r + [Convert(last, parse)] else r
  }

  /** A value is among the distinct values of a column exactly when some row carries it. */
  lemma ColumnValue<U>(rows: seq<Row>, f: Row -> U, v: U)
    ensures v in Unique(Image(rows, f)) <==> exists i :: 0 <= i < |rows| && f(rows[i]) == v
  {
    var column := Image(rows, f);
    if v in Unique(column) {
      var i :| 0 <= i < |column| && column[i] == v;
      assert f(rows[i]) == v;
    }
    if exists i :: 0 <= i < |rows| && f(rows[i]) == v {
      var i :| 0 <= i < |rows| && f(rows[i]) == v;
      assert column[i] == v;
    }
  }

  /** The distinct values of the Region and Category columns are exactly the values some row carries. */
  lemma ColumnValues(rows: seq<Row>)
    ensures forall v :: v in Unique(Image(rows, RegionOf)) <==> exists i :: 0 <= i < |rows| && rows[i].region == v
    ensures forall v :: v in Unique(Image(rows, CategoryOf)) <==> exists i :: 0 <= i < |rows| && rows[i].category == v
  {
    forall v ensures v in Unique(Image(rows, RegionOf)) <==> exists i :: 0 <= i < |rows| && rows[i].region == v {
      ColumnValue(rows, RegionOf, v);
    }
    forall v ensures v in Unique(Image(rows, CategoryOf)) <==> exists i :: 0 <= i < |rows| && rows[i].category == v {
      ColumnValue(rows, CategoryOf, v);
    }
  }

  /** What the handler hands back: the dataset for the hidden store (`None` leaves the
      store as it was) and the option lists of the two multi-selects. */
  datatype UploadResult = UploadResult(data: Option<seq<Row>>, regionOptions: seq<string>,
                                       categoryOptions: seq<string>)

  const NoUpdate := UploadResult(None, [], [])

  /** The upload handler. `contents` is the data URL of the upload (`None` before any upload). */
  function UpdateData(contents: Option<string>, filename: string,
                      decode: (Decoder, string) -> Option<Table>,
                      parse: string -> Option<Date>): (res: UploadResult)
    ensures res.data.None? ==> res == NoUpdate
    ensures res.data.Some? <==>
              && contents.Some?
              && DecoderFor(filename).Some?
              && decode(DecoderFor(filename).value, contents.value).Some?
              && HasRequiredColumns(decode(DecoderFor(filename).value, contents.value).value.columns)
    ensures res.data.Some? ==>
              var rows := res.data.value;
              && Distinct(res.regionOptions)
              && (forall v :: v in res.regionOptions <==> exists i :: 0 <= i < |rows| && rows[i].region == v)
              && Distinct(res.categoryOptions)
              && (forall v :: v in res.categoryOptions <==> exists i :: 0 <= i < |rows| && rows[i].category == v)
  {
    if contents.None? then NoUpdate
    else
      match DecoderFor(filename)
      case None => NoUpdate
      case Some(decoder) =>
        match decode(decoder, contents.value)
        case None => NoUpdate
        case Some(table) =>
          if !HasRequiredColumns(table.columns) then NoUpdate
          else
            var rows := Clean(table.rows, parse);
            ColumnValues(rows);
            var regions := Unique(Image(rows, RegionOf));
            var categories := Unique(Image(rows, CategoryOf));
            UploadResult(Some(rows), regions, categories)
  }

  /** A decoded table that lacks one of the five required columns leaves everything as it was. */
  lemma MissingColumnRejected(contents: string, filename: string, decode: (Decoder, string) -> Option<Table>,
                              parse: string -> Option<Date>, column: string)
    requires column in RequiredColumns
    requires DecoderFor(filename).Some? && decode(DecoderFor(filename).value, contents).Some?
    requires column !in decode(DecoderFor(filename).value, contents).value.columns
    ensures UpdateData(Some(contents), filename, decode, parse) == NoUpdate
  {
    var i :| 0 <= i < |RequiredColumns| && RequiredColumns[i] == column;
  }

  /** The stored dataset of a successful upload is the cleaned table, and its option
      lists follow the order in which values first appear in it. */
  lemma UploadedOptions(contents: Option<string>, filename: string,
                        decode: (Decoder, string) -> Option<Table>, parse: string -> Option<Date>)
    requires UpdateData(contents, filename, decode, parse).data.Some?
    ensures var res := UpdateData(contents, filename, decode, parse);
            var regionColumn := Image(res.data.value, RegionOf);
            var categoryColumn := Image(res.data.value, CategoryOf);
            && res.data.value == Clean(decode(DecoderFor(filename).value, contents.value).value.rows, parse)
            && (forall i, j :: 0 <= i < j < |res.regionOptions| ==>
                  IndexOf(regionColumn, res.regionOptions[i]) < IndexOf(regionColumn, res.regionOptions[j]))
            && (forall i, j :: 0 <= i < j < |res.categoryOptions| ==>
                  IndexOf(categoryColumn, res.categoryOptions[i]) < IndexOf(categoryColumn, res.categoryOptions[j]))
  {
    var res := UpdateData(contents, filename, decode, parse);
    UniqueFirstOccurrenceOrder(Image(res.data.value, RegionOf));
    UniqueFirstOccurrenceOrder(Image(res.data.value, CategoryOf));
  }
}
