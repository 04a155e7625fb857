/**
 The tables behind the dashboard's bar charts: each is a pure function of
 the derived listing table.
 */
module Views {
  import opened Wrappers
  import opened Sorting
  import opened Collation
  import opened Counting
  import opened Grouping
  import opened Listings

  /** How many brands the brand/type chart keeps. */
  const TopBrandLimit := 10
  /** Odometer readings above this count as high mileage. */
  const HighMileageThreshold := 200000
  /** Vehicles younger than this many years count as recent. */
  const RecentAgeLimit := 10

  function BrandOf(r: Row): Option<string>
  {
    r.brand
  }

  function TypeOf(r: Row): Option<string>
  {
    r.listing.vehicleType
  }

  function ColorOf(r: Row): Option<string>
  {
    r.listing.paintColor
  }

  function BrandColumn(rows: seq<Row>): Series<string>
  {
    Column(rows, BrandOf)
  }

  // ---------------------------------------------------------------------
  // Vehicle types across the top brands

  /**
   `brand.value_counts().head(10).index`: at most ten brands, all of them
   if there are fewer, and none of them rarer than a brand left out.
   */
  function TopBrands(rows: seq<Row>): (top: seq<string>)
    ensures |top| <= TopBrandLimit
    ensures NoDup(top)
    ensures forall b :: b in top ==> Observed(BrandColumn(rows), b)
    ensures |top| < TopBrandLimit ==> forall b :: Observed(BrandColumn(rows), b) ==> b in top
    ensures forall b, c :: b in top && c !in top ==>
      Occurrences(BrandColumn(rows), b) >= Occurrences(BrandColumn(rows), c)
  {
    MostFrequent(BrandColumn(rows), TopBrandLimit)
  }

  predicate InTopBrands(r: Row, top: seq<string>)
  {
    r.brand.Some? && r.brand.value in top
  }

  /** `veh_ad[veh_ad['brand'].isin(top_brands)]`: a missing brand is in no set. */
  function TopBrandRows(rows: seq<Row>): (kept: seq<Row>)
    ensures forall r :: multiset(kept)[r] == if InTopBrands(r, TopBrands(rows)) then multiset(rows)[r] else 0
  {
    var top := TopBrands(rows);
    Where(rows, r => InTopBrands(r, top))
  }

  /** The (brand, type) key of a row; missing when either part is. */
  function BrandTypeOf(r: Row): Option<(string, string)>
  {
    if r.brand.Some? && r.listing.vehicleType.Some? then Some((r.brand.value, r.listing.vehicleType.value))
    else None
  }

  /** A (brand, type) pair among the top-brand rows has a top brand. */
  lemma BrandTypeHasTopBrand(rows: seq<Row>, key: (string, string))
    requires Observed(Column(TopBrandRows(rows), BrandTypeOf), key)
    ensures key.0 in TopBrands(rows)
  {
    var kept := TopBrandRows(rows);
    var col := Column(kept, BrandTypeOf);
    var j :| 0 <= j < |col| && col[j] == Some(key);
    var r := kept[j];
    assert r in multiset(kept);
    assert BrandTypeOf(r) == Some(key);
  }

  /**
   `groupby(['brand', 'type']).size()` over the top-brand rows: one
   positive count per (brand, type) pair that occurs, the counts adding up
   to the number of those rows with both columns present, in ascending
   key order, every brand one of the top brands.
   */
  function BrandTypeCounts(rows: seq<Row>): (counts: seq<Bucket<(string, string)>>)
    ensures IsCountTable(Column(TopBrandRows(rows), BrandTypeOf), counts)
    ensures forall i, j :: 0 <= i < j < |counts| ==> PairLeq(counts[i].key, counts[j].key)
    ensures forall i :: 0 <= i < |counts| ==> counts[i].key.0 in TopBrands(rows)
  {
    var col := Column(TopBrandRows(rows), BrandTypeOf);
    PairLeqIsTotalPreorder();
    var counts := GroupSizes(col, PairLeq);
    forall i | 0 <= i < |counts| ensures counts[i].key.0 in TopBrands(rows) {
      assert KeysOf(counts)[i] == counts[i].key;
      BrandTypeHasTopBrand(rows, counts[i].key);
    }
    counts
  }

  // ---------------------------------------------------------------------
  // High-mileage vehicles by type

  /** `odometer > 200000`; false for a missing reading. */
  predicate IsHighMileage(r: Row)
  {
    r.listing.odometer.Some? && r.listing.odometer.value > HighMileageThreshold
  }

  function HighMileageRows(rows: seq<Row>): (kept: seq<Row>)
    ensures forall r :: multiset(kept)[r] == if IsHighMileage(r) then multiset(rows)[r] else 0
  {
    Where(rows, IsHighMileage)
  }

  /**
   `type.value_counts()` of the high-mileage rows: the count table of
   their types, largest first; empty, not an error, when no such row has a
   type.
   */
  function HighMileageTypeCounts(rows: seq<Row>): (counts: seq<Bucket<string>>)
    ensures IsCountTable(Column(HighMileageRows(rows), TypeOf), counts)
    ensures forall i, j :: 0 <= i < j < |counts| ==> counts[i].count >= counts[j].count
    ensures counts == [] <==> Present(Column(HighMileageRows(rows), TypeOf)) == 0
  {
    var col := Column(HighMileageRows(rows), TypeOf);
    var counts := ValueCounts(col);
    CountTableEmpty(col, counts);
    counts
  }

  // ---------------------------------------------------------------------
  // Average price by colour

  datatype ColorPrice = ColorPrice(paintColor: string, price: Option<real>)

  function PriceObs(r: Row): Obs<string>
  {
    Obs(r.listing.paintColor, r.listing.price)
  }

  function PaintColorOf(e: ColorPrice): string
  {
    e.paintColor
  }

  predicate KeyStrLeq(a: Group<string>, b: Group<string>)
  {
    StrLeq(a.key, b.key)
  }

  function ToColorPrice(g: Group<string>): ColorPrice
  {
    ColorPrice(g.key, AccMean(g.acc))
  }

  /** Turning a grouped table into chart rows keeps what each group means. */
  lemma ColorPriceRows(obs: seq<Obs<string>>, groups: seq<Group<string>>)
    requires IsGroupTable(obs, groups)
    ensures var table := Image(groups, ToColorPrice);
      && DistinctBy(table, PaintColorOf)
      && (forall c :: c in Image(table, PaintColorOf) <==> Observed(KeyColumn(obs), c))
      && (forall i :: 0 <= i < |table| ==> table[i].price == Mean(ValuesOf(obs, table[i].paintColor)))
  {
    var table := Image(groups, ToColorPrice);
    assert Image(table, PaintColorOf) == Image(groups, GroupKey);
  }

  /**
   `groupby('paint_color')['price'].mean()`: one row per colour that
   occurs, in ascending colour order, holding the exact mean of that
   colour's prices (missing when none of its rows has a price).
   */
  function MeanPriceByColor(rows: seq<Row>): (table: seq<ColorPrice>)
    ensures DistinctBy(table, PaintColorOf)
    ensures forall c :: c in Image(table, PaintColorOf) <==> Observed(Column(rows, ColorOf), c)
    ensures forall i :: 0 <= i < |table| ==>
      table[i].price == Mean(ValuesOf(Image(rows, PriceObs), table[i].paintColor))
    ensures forall i, j :: 0 <= i < j < |table| ==> StrLeq(table[i].paintColor, table[j].paintColor)
  {
    var obs := Image(rows, PriceObs);
    assert KeyColumn(obs) == Column(rows, ColorOf);
    var groups := Aggregate(obs);
    SortGroupTable(obs, groups, KeyStrLeq);
    StrLeqIsTotalPreorder();
    assert TotalPreorder(KeyStrLeq);
    SortSorted(groups, KeyStrLeq);
    var sorted := Sort(groups, KeyStrLeq);
    ColorPriceRows(obs, sorted);
    Image(sorted, ToColorPrice)
  }

  /** Every colour's mean price lies between its cheapest and its dearest listing. */
  lemma MeanPriceWithinRange(rows: seq<Row>)
    ensures var table := MeanPriceByColor(rows);
      forall i :: 0 <= i < |table| && table[i].price.Some? ==>
        var prices := ValuesOf(Image(rows, PriceObs), table[i].paintColor);
        |prices| > 0 && Min(prices) as real <= table[i].price.value <= Max(prices) as real
  {
    var table := MeanPriceByColor(rows);
    forall i | 0 <= i < |table| && table[i].price.Some?
      ensures var prices := ValuesOf(Image(rows, PriceObs), table[i].paintColor);
        |prices| > 0 && Min(prices) as real <= table[i].price.value <= Max(prices) as real
    {
      MeanWithinRange(ValuesOf(Image(rows, PriceObs), table[i].paintColor));
    }
  }

  // ---------------------------------------------------------------------
  // Number of vehicles by colour

  /** `paint_color.value_counts()`: the count table of the colours, largest first. */
  function ColorFrequency(rows: seq<Row>): (counts: seq<Bucket<string>>)
    ensures IsCountTable(Column(rows, ColorOf), counts)
    ensures forall i, j :: 0 <= i < j < |counts| ==> counts[i].count >= counts[j].count
  {
    ValueCounts(Column(rows, ColorOf))
  }

  // ---------------------------------------------------------------------
  // Average mileage of recent vehicles by brand

  /** `vehicle_age < 10`; false for a missing age. */
  predicate IsRecent(r: Row)
  {
    r.vehicleAge.Some? && r.vehicleAge.value < RecentAgeLimit
  }

  function RecentRows(rows: seq<Row>): (kept: seq<Row>)
    ensures forall r :: multiset(kept)[r] == if IsRecent(r) then multiset(rows)[r] else 0
    ensures forall r :: r in kept ==> r.vehicleAge.Some? && r.vehicleAge.value < RecentAgeLimit
  {
    Where(rows, IsRecent)
  }

  /** One row of the recent-vehicle chart. `mileageVariance` is the square of `std_mileage`. */
  datatype BrandMileage = BrandMileage(
    brand: string,
    avgMileage: Option<real>,
    mileageVariance: Option<real>,
    vehicleCount: nat)

  function MileageObs(r: Row): Obs<string>
  {
    Obs(r.brand, r.listing.odometer)
  }

  function BrandNameOf(e: BrandMileage): string
  {
    e.brand
  }

  function VehicleCountOf(e: BrandMileage): int
  {
    e.vehicleCount
  }

  /** `sort_values(ascending=False)` on a column of means: larger first, missing last. */
  predicate MeanFirst(a: Option<real>, b: Option<real>)
  {
    match (a, b)
    case (Some(x), Some(y)) => x >= y
    case (Some(_), None) => true
    case (None, None) => true
    case (None, Some(_)) => false
  }

  predicate GroupMeanFirst(a: Group<string>, b: Group<string>)
  {
    MeanFirst(AccMean(a.acc), AccMean(b.acc))
  }

  lemma GroupMeanFirstIsTotalPreorder()
    ensures TotalPreorder(GroupMeanFirst)
  {
  }

  function ToBrandMileage(g: Group<string>): BrandMileage
  {
    BrandMileage(g.key, AccMean(g.acc), AccVariance(g.acc), g.acc.size)
  }

  /** Turning a grouped table into chart rows keeps what each group means. */
  lemma {:induction false} BrandMileageRows(obs: seq<Obs<string>>, groups: seq<Group<string>>)
    requires IsGroupTable(obs, groups)
    ensures var table := Image(groups, ToBrandMileage);
      && DistinctBy(table, BrandNameOf)
      && (forall b :: b in Image(table, BrandNameOf) <==> Observed(KeyColumn(obs), b))
      && (forall i :: 0 <= i < |table| ==>
          && 0 < table[i].vehicleCount == Occurrences(KeyColumn(obs), table[i].brand)
          && table[i].avgMileage == Mean(ValuesOf(obs, table[i].brand))
          && table[i].mileageVariance == SampleVariance(ValuesOf(obs, table[i].brand)))
      && SumBy(table, VehicleCountOf) == Present(KeyColumn(obs))
  {
    var table := Image(groups, ToBrandMileage);
    assert Image(table, BrandNameOf) == Image(groups, GroupKey);
    forall i | 0 <= i < |table|
      ensures table[i].mileageVariance == SampleVariance(ValuesOf(obs, table[i].brand))
    {
      VarianceFromSums(groups[i].acc.size, ValuesOf(obs, table[i].brand));
    }
    SumByPointwise(table, VehicleCountOf, groups, GroupSize);
  }

  /**
   The recent-vehicle chart: per brand of the recent rows, the exact mean
   and sample variance of its odometer readings and its number of rows;
   one row per brand, the counts adding up to the recent rows with a
   brand, ordered by mean mileage, largest first.
   */
  function MileageByBrand(rows: seq<Row>): (table: seq<BrandMileage>)
    ensures DistinctBy(table, BrandNameOf)
    ensures forall b :: b in Image(table, BrandNameOf) <==> Observed(BrandColumn(RecentRows(rows)), b)
    ensures forall i :: 0 <= i < |table| ==>
      && 0 < table[i].vehicleCount == Occurrences(BrandColumn(RecentRows(rows)), table[i].brand)
      && table[i].avgMileage == Mean(ValuesOf(Image(RecentRows(rows), MileageObs), table[i].brand))
      && table[i].mileageVariance == SampleVariance(ValuesOf(Image(RecentRows(rows), MileageObs), table[i].brand))
    ensures forall i :: 0 <= i < |table| ==>
      && (table[i].mileageVariance.None? <==>
          |ValuesOf(Image(RecentRows(rows), MileageObs), table[i].brand)| < 2)
      && (table[i].mileageVariance.Some? ==> table[i].mileageVariance.value >= 0.0)
    ensures SumBy(table, VehicleCountOf) == Present(BrandColumn(RecentRows(rows)))
    ensures forall i, j :: 0 <= i < j < |table| ==> MeanFirst(table[i].avgMileage, table[j].avgMileage)
  {
    var recent := RecentRows(rows);
    var obs := Image(recent, MileageObs);
    assert KeyColumn(obs) == BrandColumn(recent);
    var groups := Aggregate(obs);
    SortGroupTable(obs, groups, GroupMeanFirst);
    GroupMeanFirstIsTotalPreorder();
    SortSorted(groups, GroupMeanFirst);
    var sorted := Sort(groups, GroupMeanFirst);
    BrandMileageRows(obs, sorted);
    var table := Image(sorted, ToBrandMileage);
    forall i | 0 <= i < |table|
      ensures table[i].mileageVariance.Some? ==> table[i].mileageVariance.value >= 0.0
    {
      VarianceFromSums(0, ValuesOf(obs, table[i].brand));
    }
    table
  }

  /** Every brand's mean mileage lies between its lowest and its highest reading. */
  lemma MeanMileageWithinRange(rows: seq<Row>)
    ensures var table := MileageByBrand(rows);
      forall i :: 0 <= i < |table| && table[i].avgMileage.Some? ==>
        var readings := ValuesOf(Image(RecentRows(rows), MileageObs), table[i].brand);
        |readings| > 0 && Min(readings) as real <= table[i].avgMileage.value <= Max(readings) as real
  {
    var table := MileageByBrand(rows);
    forall i | 0 <= i < |table| && table[i].avgMileage.Some?
      ensures var readings := ValuesOf(Image(RecentRows(rows), MileageObs), table[i].brand);
        |readings| > 0 && Min(readings) as real <= table[i].avgMileage.value <= Max(readings) as real
    {
      MeanWithinRange(ValuesOf(Image(RecentRows(rows), MileageObs), table[i].brand));
    }
  }
}
