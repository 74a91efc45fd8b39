/**
 The rendering handler: filter the stored dataset by the current selection and
 compute the four tables behind the charts (monthly trend, ten best-selling
 products, Sales share per region, Region x Category heatmap).
 */
module Dashboard {
  import opened Records
  import opened Seqs
  import opened Filtering
  import opened Aggregation

  /** How many products the bar chart shows. */
  const TopCount: nat := 10

  /** The tables behind the four charts; `EmptyFigures` when no dataset is stored. */
  datatype Views =
    | EmptyFigures
    | Figures(trend: seq<Bucket<Month>>, topProducts: seq<Bucket<string>>,
              regionShare: seq<Bucket<string>>, heatmap: seq<Bucket<(string, string)>>)

  /** Every listed product occurs in the rows and carries its own Sales sum. */
  lemma TopProductsSound(rows: seq<Row>, g: seq<Bucket<string>>, top: seq<Bucket<string>>)
    requires g == GroupSum(rows, ProductOf) && top == TopK(g, TopCount)
    ensures forall i :: 0 <= i < |top| ==>
              top[i].key in Image(rows, ProductOf) && top[i].total == SalesWhere(rows, ProductOf, top[i].key)
  {
    var column := Image(rows, ProductOf);
    var u := Unique(column);
    forall i | 0 <= i < |top|
      ensures top[i].key in column && top[i].total == SalesWhere(rows, ProductOf, top[i].key)
    {
      TopKPicksFrom(g, TopCount, i);
      var t :| 0 <= t < |g| && g[t] == top[i];
      assert u[t] in column;
    }
  }

  /** A product left off the list sold no more than any product on it. */
  lemma ProductLeftOut(rows: seq<Row>, p: string)
    requires p in Image(rows, ProductOf) && !HasKey(TopK(GroupSum(rows, ProductOf), TopCount), p)
    ensures AtMostAll(SalesWhere(rows, ProductOf, p), TopK(GroupSum(rows, ProductOf), TopCount))
  {
    var column := Image(rows, ProductOf);
    var g := GroupSum(rows, ProductOf);
    var u := Unique(column);
    var c :| 0 <= c < |column| && column[c] == p;
    assert column[c] in u;
    var t :| 0 <= t < |u| && u[t] == p;
    assert g[t].key == p && g[t].total == SalesWhere(rows, ProductOf, p);
    LeftOutIsSmaller(g, TopCount, t);
  }

  lemma TopProductsDominate(rows: seq<Row>)
    ensures var top := TopK(GroupSum(rows, ProductOf), TopCount);
            forall p :: p in Image(rows, ProductOf) && !HasKey(top, p) ==> AtMostAll(SalesWhere(rows, ProductOf, p), top)
  {
    var top := TopK(GroupSum(rows, ProductOf), TopCount);
    forall p | p in Image(rows, ProductOf) && !HasKey(top, p)
      ensures AtMostAll(SalesWhere(rows, ProductOf, p), top)
    {
      ProductLeftOut(rows, p);
    }
  }

  /** The ten products with the largest Sales sums, largest first. */
  function TopProducts(rows: seq<Row>): (top: seq<Bucket<string>>)
    ensures |top| <= TopCount
    ensures |top| == if |Unique(Image(rows, ProductOf))| < TopCount then |Unique(Image(rows, ProductOf))| else TopCount
    ensures DistinctKeys(top)
    ensures NonIncreasing(top)
    ensures forall i :: 0 <= i < |top| ==>
              top[i].key in Image(rows, ProductOf) && top[i].total == SalesWhere(rows, ProductOf, top[i].key)
    ensures forall p :: p in Image(rows, ProductOf) && !HasKey(top, p) ==>
              forall i :: 0 <= i < |top| ==> SalesWhere(rows, ProductOf, p) <= top[i].total
  {
    var g := GroupSum(rows, ProductOf);
    var top := TopK(g, TopCount);
    TopProductsSound(rows, g, top);
    TopProductsDominate(rows);
    top
  }

  /** The row lies in the heatmap cell of `region` and `category`. */
  predicate InCell(row: Row, region: string, category: string)
  {
    row.region == region && row.category == category
  }

  function CellMask(region: string, category: string): Row -> bool
  {
    row => InCell(row, region, category)
  }

  /** Sales of one heatmap cell, read directly: the total of the rows the cell's mask picks. */
  function CellSales(rows: seq<Row>, region: string, category: string): int
  {
    Total(Filter(rows, CellMask(region, category)))
  }

  /** Masking the cell's rows and summing them gives the group sum of the cell's key. */
  lemma {:induction false} CellSalesIsGroupSum(rows: seq<Row>, region: string, category: string)
    ensures CellSales(rows, region, category) == SalesWhere(rows, CellOf, (region, category))
    decreases |rows|
  {
    if |rows| > 0 {
      var front := rows[..|rows| - 1];
      var last := rows[|rows| - 1];
      CellSalesIsGroupSum(front, region, category);
      if InCell(last, region, category) {
        TotalSnoc(Filter(front, CellMask(region, category)), last);
      }
    }
  }

  /** A heatmap cell exists exactly when some row lies in it, and holds those rows' Sales sum. */
  lemma HeatmapCell(rows: seq<Row>, region: string, category: string)
    ensures Lookup(GroupSum(rows, CellOf), (region, category)) ==
              if exists i :: 0 <= i < |rows| && InCell(rows[i], region, category)
              then Some(CellSales(rows, region, category))
              else None
  {
    GroupLookup(rows, CellOf, (region, category));
    CellSalesIsGroupSum(rows, region, category);
    if exists i :: 0 <= i < |rows| && CellOf(rows[i]) == (region, category) {
      var i :| 0 <= i < |rows| && CellOf(rows[i]) == (region, category);
      assert InCell(rows[i], region, category);
    }
  }

  /** The rendering handler. */
  function UpdateGraphs(data: Option<seq<Row>>, sel: Selection): (v: Views)
    ensures data.None? <==> v.EmptyFigures?
    ensures data.Some? ==>
              var shown := ApplyFilter(data.value, sel);
              && SumTotals(v.trend) == Total(shown)
              && SumTotals(v.regionShare) == Total(shown)
              && SumTotals(v.heatmap) == Total(shown)
              && |v.topProducts| <= TopCount
              && NonIncreasing(v.topProducts)
              && (forall i :: 0 <= i < |v.trend| ==> v.trend[i].total == SalesWhere(shown, MonthKey, v.trend[i].key))
              && (forall i :: 0 <= i < |v.regionShare| ==>
                    v.regionShare[i].total == SalesWhere(shown, RegionOf, v.regionShare[i].key))
  {
    match data
    case None => EmptyFigures
    case Some(rows) =>
      var shown := ApplyFilter(rows, sel);
      Figures(GroupSum(shown, MonthKey), TopProducts(shown), GroupSum(shown, RegionOf), GroupSum(shown, CellOf))
  }

  lemma SelectedCellShown(rows: seq<Row>, sel: Selection, region: string, category: string, i: nat)
    requires i < |rows| && Selected(sel, rows[i]) && InCell(rows[i], region, category)
    ensures exists j :: 0 <= j < |ApplyFilter(rows, sel)| && InCell(ApplyFilter(rows, sel)[j], region, category)
  {
    FilterKeepsExactly(rows, sel, rows[i]);
  }

  lemma ShownCellSelected(rows: seq<Row>, sel: Selection, region: string, category: string, j: nat)
    requires j < |ApplyFilter(rows, sel)| && InCell(ApplyFilter(rows, sel)[j], region, category)
    ensures exists i :: 0 <= i < |rows| && Selected(sel, rows[i]) && InCell(rows[i], region, category)
  {
    var row := ApplyFilter(rows, sel)[j];
    FilterKeepsExactly(rows, sel, row);
    var i :| 0 <= i < |rows| && rows[i] == row;
  }

  /** The selection admits a row of the cell exactly when the filtered rows contain one. */
  lemma SelectedCellOccupied(rows: seq<Row>, sel: Selection, region: string, category: string)
    ensures (exists i :: 0 <= i < |rows| && Selected(sel, rows[i]) && InCell(rows[i], region, category))
            <==> (exists j :: 0 <= j < |ApplyFilter(rows, sel)| && InCell(ApplyFilter(rows, sel)[j], region, category))
  {
    if exists i :: 0 <= i < |rows| && Selected(sel, rows[i]) && InCell(rows[i], region, category) {
      var i :| 0 <= i < |rows| && Selected(sel, rows[i]) && InCell(rows[i], region, category);
      SelectedCellShown(rows, sel, region, category, i);
    }
    if exists j :: 0 <= j < |ApplyFilter(rows, sel)| && InCell(ApplyFilter(rows, sel)[j], region, category) {
      var j :| 0 <= j < |ApplyFilter(rows, sel)| && InCell(ApplyFilter(rows, sel)[j], region, category);
      ShownCellSelected(rows, sel, region, category, j);
    }
  }

  /** The heatmap of the rendered views is the group sum of the shown rows by cell. */
  lemma HeatmapView(rows: seq<Row>, sel: Selection)
    ensures UpdateGraphs(Some(rows), sel).heatmap == GroupSum(ApplyFilter(rows, sel), CellOf)
  {
  }

  /** The heatmap cell of (Region, Category) holds the Sales sum of the selected rows in that cell,
      and exists only when the selection admits at least one such row. */
  lemma HeatmapOfSelection(rows: seq<Row>, sel: Selection, region: string, category: string)
    ensures var v := UpdateGraphs(Some(rows), sel);
            Lookup(v.heatmap, (region, category)) ==
              if exists i :: 0 <= i < |rows| && Selected(sel, rows[i]) && InCell(rows[i], region, category)
              then Some(CellSales(ApplyFilter(rows, sel), region, category))
              else None
  {
    var shown := ApplyFilter(rows, sel);
    var occupied := exists j :: 0 <= j < |shown| && InCell(shown[j], region, category);
    assert (exists i :: 0 <= i < |rows| && Selected(sel, rows[i]) && InCell(rows[i], region, category)) == occupied by {
      SelectedCellOccupied(rows, sel, region, category);
    }
    assert Lookup(GroupSum(shown, CellOf), (region, category))
             == if occupied then Some(CellSales(shown, region, category)) else None by {
      HeatmapCell(shown, region, category);
    }
    assert UpdateGraphs(Some(rows), sel).heatmap == GroupSum(shown, CellOf) by {
      HeatmapView(rows, sel);
    }
  }
}
