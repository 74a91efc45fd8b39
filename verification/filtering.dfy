/**
 The row mask of the rendering handler: a row is kept when its Region is among the
 selected regions, its Category among the selected categories, and its Date within
 the picked range, both ends included. An empty (or absent) selection stands for
 every value present in the dataset.
 */
module Filtering {
  import opened Records
  import opened Seqs

  /** The state of the three filter widgets; an absent multi-select value is `[]`. */
  datatype Selection = Selection(regions: seq<string>, categories: seq<string>, start: Date, end: Date)

  /** The widgets' initial state: nothing selected, the whole of 2023. */
  const DefaultSelection := Selection([], [], Date(2023, 1, 1), Date(2023, 12, 31))

  predicate InRange(d: Date, start: Date, end: Date)
  {
    DateLe(start, d) && DateLe(d, end)
  }

  /** The list a multi-select is tested against: what was chosen, or every distinct
      value of the column when nothing was chosen. */
  function Effective(chosen: seq<string>, column: seq<string>): seq<string>
  {
    if |chosen| == 0 then Unique(column) else chosen
  }

  predicate Keep(row: Row, regions: seq<string>, categories: seq<string>, start: Date, end: Date)
  {
    row.region in regions && row.category in categories && InRange(row.date, start, end)
  }

  function Mask(regions: seq<string>, categories: seq<string>, start: Date, end: Date): Row -> bool
  {
    row => Keep(row, regions, categories, start, end)
  }

  /** The selection read directly: an empty list places no constraint. */
  predicate Selected(sel: Selection, row: Row)
  {
    && (|sel.regions| == 0 || row.region in sel.regions)
    && (|sel.categories| == 0 || row.category in sel.categories)
    && InRange(row.date, sel.start, sel.end)
  }

  function Criterion(sel: Selection): Row -> bool
  {
    row => Selected(sel, row)
  }

  /** Every row's Region and Category are among the distinct values of their columns. */
  lemma RowInColumns(data: seq<Row>, i: nat)
    requires i < |data|
    ensures data[i].region in Unique(Image(data, RegionOf))
    ensures data[i].category in Unique(Image(data, CategoryOf))
  {
    assert Image(data, RegionOf)[i] == data[i].region;
    assert Image(data, CategoryOf)[i] == data[i].category;
  }

  /** The mask the handler builds agrees with the direct reading on every row of the data. */
  lemma MaskAgrees(data: seq<Row>, sel: Selection)
    ensures forall i :: 0 <= i < |data| ==>
              Keep(data[i], Effective(sel.regions, Image(data, RegionOf)),
                   Effective(sel.categories, Image(data, CategoryOf)), sel.start, sel.end)
              == Selected(sel, data[i])
  {
    forall i | 0 <= i < |data|
      ensures Keep(data[i], Effective(sel.regions, Image(data, RegionOf)),
                   Effective(sel.categories, Image(data, CategoryOf)), sel.start, sel.end)
              == Selected(sel, data[i])
    {
      RowInColumns(data, i);
    }
  }

  /** The filtered dataset: exactly the rows the selection admits, in their original order. */
  function ApplyFilter(data: seq<Row>, sel: Selection): (r: seq<Row>)
    ensures Embeds(r, data, Positions(data, Criterion(sel)))
  {
    var mask := Mask(Effective(sel.regions, Image(data, RegionOf)),
                     Effective(sel.categories, Image(data, CategoryOf)),
                     sel.start, sel.end);
    MaskAgrees(data, sel);
    PositionsCongruent(data, mask, Criterion(sel));
    Filter(data, mask)
  }

  /** A row is in the filtered dataset if and only if it is in the data and the selection admits it. */
  lemma FilterKeepsExactly(data: seq<Row>, sel: Selection, row: Row)
    ensures row in ApplyFilter(data, sel) <==>
              && row in data
              && (|sel.regions| == 0 || row.region in sel.regions)
              && (|sel.categories| == 0 || row.category in sel.categories)
              && DateLe(sel.start, row.date) && DateLe(row.date, sel.end)
  {
    PickedMembership(ApplyFilter(data, sel), data, Criterion(sel), row);
  }

  /** Selections that agree on every row of the data filter it identically. */
  lemma SameVerdictSameResult(data: seq<Row>, sel1: Selection, sel2: Selection)
    requires forall i :: 0 <= i < |data| ==> Selected(sel1, data[i]) == Selected(sel2, data[i])
    ensures ApplyFilter(data, sel1) == ApplyFilter(data, sel2)
  {
    PositionsCongruent(data, Criterion(sel1), Criterion(sel2));
    EmbedsDetermined(ApplyFilter(data, sel1), ApplyFilter(data, sel2), data, Positions(data, Criterion(sel1)));
  }

  /** Selecting no region is the same as selecting every region that occurs in the data. */
  lemma NoRegionMeansAll(data: seq<Row>, sel: Selection, regions: seq<string>)
    requires forall i :: 0 <= i < |data| ==> data[i].region in regions
    ensures ApplyFilter(data, sel.(regions := [])) == ApplyFilter(data, sel.(regions := regions))
  {
    SameVerdictSameResult(data, sel.(regions := []), sel.(regions := regions));
  }

  /** Selecting no category is the same as selecting every category that occurs in the data. */
  lemma NoCategoryMeansAll(data: seq<Row>, sel: Selection, categories: seq<string>)
    requires forall i :: 0 <= i < |data| ==> data[i].category in categories
    ensures ApplyFilter(data, sel.(categories := [])) == ApplyFilter(data, sel.(categories := categories))
  {
    SameVerdictSameResult(data, sel.(categories := []), sel.(categories := categories));
  }

  /** With the widgets untouched, the dashboard shows exactly the rows dated in 2023. */
  lemma DefaultShowsYear2023(data: seq<Row>, row: Row)
    requires forall i :: 0 <= i < |data| ==> PlausibleDate(data[i].date)
    ensures row in ApplyFilter(data, DefaultSelection) <==> row in data && row.date.year == 2023
  {
    FilterKeepsExactly(data, DefaultSelection, row);
  }
}
