/**
 The records the sales dashboard works on: calendar dates, a raw table row as the
 spreadsheet reader delivers it (cells may be missing), and a cleaned row in which
 Date, Region and Category are all present.
 */
module Records {

  /** A value that may be missing (a NaN/NaT cell, or a library call that raised). */
  datatype Option<+T> = None | Some(value: T)

  /** A day-granular calendar date. */
  datatype Date = Date(year: int, month: int, day: int)

  /** Chronological order on dates: lexicographic on (year, month, day). */
  predicate DateLe(a: Date, b: Date)
  {
    || a.year < b.year
    || (a.year == b.year && a.month < b.month)
    || (a.year == b.year && a.month == b.month && a.day <= b.day)
  }

  /** The shape of a date that a date parser can produce. */
  predicate PlausibleDate(d: Date)
  {
    1 <= d.month <= 12 && 1 <= d.day <= 31
  }

  /** The bucket of the monthly trend: a calendar month. */
  datatype Month = Month(year: int, month: int)

  function MonthOf(d: Date): Month
  {
    Month(d.year, d.month)
  }

  /** A cleaned sales record. Sales are whole units (no floating point). */
  datatype Row = Row(date: Date, region: string, product: string, sales: int, category: string)

  /** A record as read from the uploaded file, before date coercion and dropping.
      `date` holds the cell text, `None` when the cell is empty. */
  datatype RawRow = RawRow(date: Option<string>, region: Option<string>, product: string,
                           sales: int, category: Option<string>)

  /** A decoded spreadsheet: its header and its rows. */
  datatype Table = Table(columns: seq<string>, rows: seq<RawRow>)

  // Grouping keys of the four views.

  function RegionOf(r: Row): string { r.region }

  function CategoryOf(r: Row): string { r.category }

  function ProductOf(r: Row): string { r.product }

  function MonthKey(r: Row): Month { MonthOf(r.date) }

  /** The heatmap cell a row falls in: (Region, Category). */
  function CellOf(r: Row): (string, string) { (r.region, r.category) }
}
