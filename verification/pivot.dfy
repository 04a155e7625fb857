/**
 `pivot_table(index='model_year', columns='condition', values='price',
 aggfunc='count')` followed by `reset_index().melt(...)`: the number of
 priced listings per (model year, condition), in long form. The wide table
 has one row per model year and one column per condition among the rows
 that have both; a combination no row has is NaN in it and stays missing
 after the melt.
 */
module YearCondition {
  import opened Wrappers
  import opened Sorting
  import opened Collation
  import opened Counting
  import opened Grouping
  import opened Listings

  /** The pivot key of a row; missing when its model year or its condition is. */
  function YearConditionOf(r: Row): Option<(int, string)>
  {
    if r.listing.modelYear.Some? && r.listing.condition.Some? then
      Some((r.listing.modelYear.value, r.listing.condition.value))
    else None
  }

  function PivotObs(r: Row): Obs<(int, string)>
  {
    Obs(YearConditionOf(r), r.listing.price)
  }

  /** The model year of a row that takes part in the pivot. */
  function PivotYearOf(r: Row): Option<int>
  {
    if YearConditionOf(r).Some? then r.listing.modelYear else None
  }

  /** The condition of a row that takes part in the pivot. */
  function PivotConditionOf(r: Row): Option<string>
  {
    if YearConditionOf(r).Some? then r.listing.condition else None
  }

  /** The condition of a row of model year `y` that has a price. */
  function PricedConditionOf(r: Row, y: int): Option<string>
  {
    if r.listing.modelYear == Some(y) && r.listing.price.Some? then r.listing.condition else None
  }

  /** The conditions of the priced rows of model year `y`. */
  function PricedConditions(rows: seq<Row>, y: int): Series<string>
  {
    Column(rows, (r: Row) => PricedConditionOf(r, y))
  }

  /** One row of the long table: `(model_year, condition, count)`. */
  datatype Cell = Cell(modelYear: int, condition: string, count: Option<nat>)

  function CellKey(c: Cell): (int, string)
  {
    (c.modelYear, c.condition)
  }

  function CellCount(m: map<(int, string), Acc>, y: int, c: string): Option<nat>
  {
    if (y, c) in m then Some(m[(y, c)].n) else None
  }

  /** The melted column of condition `c`: one cell per model year. */
  function MeltColumn(years: seq<int>, c: string, m: map<(int, string), Acc>): seq<Cell>
  {
    seq(|years|, i requires 0 <= i < |years| => Cell(years[i], c, CellCount(m, years[i], c)))
  }

  /** `melt`: the columns of the wide table one after the other. */
  function Melt(years: seq<int>, conds: seq<string>, m: map<(int, string), Acc>): seq<Cell>
  {
    if |conds| == 0 then []
    else MeltColumn(years, conds[0], m) + Melt(years, conds[1..], m)
  }

  /** Sum of the non-missing counts of model year `y`. */
  function YearTotal(cells: seq<Cell>, y: int): nat
  {
    if |cells| == 0 then 0
    else (if cells[0].modelYear == y then cells[0].count.GetOr(0) else 0) + YearTotal(cells[1..], y)
  }

  lemma {:induction false} MeltCells(years: seq<int>, conds: seq<string>, m: map<(int, string), Acc>)
    ensures forall cell :: cell in Melt(years, conds, m) ==>
      cell.modelYear in years && cell.condition in conds
      && cell.count == CellCount(m, cell.modelYear, cell.condition)
    ensures forall y, c :: y in years && c in conds ==> (y, c) in Image(Melt(years, conds, m), CellKey)
  {
    if |conds| > 0 {
      var col := MeltColumn(years, conds[0], m);
      var rest := Melt(years, conds[1..], m);
      MeltCells(years, conds[1..], m);
      forall y, c | y in years && c in conds
        ensures (y, c) in Image(col + rest, CellKey)
      {
        if c == conds[0] {
          var i :| 0 <= i < |years| && years[i] == y;
          assert Image(col + rest, CellKey)[i] == (y, c);
        } else {
          assert c in conds[1..];
          var i :| 0 <= i < |rest| && Image(rest, CellKey)[i] == (y, c);
          assert Image(col + rest, CellKey)[|col| + i] == (y, c);
        }
      }
    }
  }

  lemma {:induction false} MeltDistinct(years: seq<int>, conds: seq<string>, m: map<(int, string), Acc>)
    requires NoDup(years) && NoDup(conds)
    ensures DistinctBy(Melt(years, conds, m), CellKey)
  {
    if |conds| > 0 {
      var col := MeltColumn(years, conds[0], m);
      var rest := Melt(years, conds[1..], m);
      MeltDistinct(years, conds[1..], m);
      MeltCells(years, conds[1..], m);
      var all := col + rest;
      forall i, j | 0 <= i < j < |all| ensures CellKey(all[i]) != CellKey(all[j]) {
        if j < |col| {
        } else if i < |col| {
          assert all[j] == rest[j - |col|];
          assert all[j] in rest;
          assert conds[0] !in conds[1..];
        } else {
          assert all[i] == rest[i - |col|] && all[j] == rest[j - |col|];
        }
      }
    }
  }

  lemma {:induction false} YearTotalConcat(a: seq<Cell>, b: seq<Cell>, y: int)
    ensures YearTotal(a + b, y) == YearTotal(a, y) + YearTotal(b, y)
  {
    if |a| > 0 {
      YearTotalConcat(a[1..], b, y);
      assert (a + b)[1..] == a[1..] + b;
    } else {
      assert a + b == b;
    }
  }

  lemma {:induction false} YearTotalColumn(years: seq<int>, c: string, m: map<(int, string), Acc>, y: int)
    requires NoDup(years)
    ensures YearTotal(MeltColumn(years, c, m), y) == if y in years then CellCount(m, y, c).GetOr(0) else 0
  {
    if |years| > 0 {
      assert MeltColumn(years, c, m)[1..] == MeltColumn(years[1..], c, m);
      YearTotalColumn(years[1..], c, m, y);
      assert years == [years[0]] + years[1..];
    }
  }

  lemma {:induction false} YearTotalMelt(years: seq<int>, conds: seq<string>, m: map<(int, string), Acc>, y: int, s: Series<string>)
    requires NoDup(years) && y in years
    requires forall c :: CellCount(m, y, c).GetOr(0) == Occurrences(s, c)
    ensures YearTotal(Melt(years, conds, m), y) == SumCounts(Tally(s, conds))
  {
    if |conds| > 0 {
      YearTotalConcat(MeltColumn(years, conds[0], m), Melt(years, conds[1..], m), y);
      YearTotalColumn(years, conds[0], m, y);
      YearTotalMelt(years, conds[1..], m, y, s);
      assert Tally(s, conds)[1..] == Tally(s, conds[1..]);
    }
  }

  lemma {:induction false} YearTotalAbsent(cells: seq<Cell>, y: int)
    requires forall cell :: cell in cells ==> cell.modelYear != y
    ensures YearTotal(cells, y) == 0
  {
    if |cells| > 0 {
      assert cells[0] in cells;
      YearTotalAbsent(cells[1..], y);
    }
  }

  /** The number of priced rows of a combination, counted two ways. */
  lemma {:induction false} PricedCount(rows: seq<Row>, y: int, c: string)
    ensures |ValuesOf(Image(rows, PivotObs), (y, c))| == Occurrences(PricedConditions(rows, y), c)
  {
    if |rows| > 0 {
      var n := |rows|;
      PricedCount(rows[..n - 1], y, c);
      assert Image(rows, PivotObs)[..n - 1] == Image(rows[..n - 1], PivotObs);
      assert PricedConditions(rows, y)[..n - 1] == PricedConditions(rows[..n - 1], y);
    }
  }

  /** A condition among the priced rows of year `y` makes (y, condition) occur. */
  lemma PricedConditionOccurs(rows: seq<Row>, y: int, c: string)
    requires Observed(PricedConditions(rows, y), c)
    ensures Observed(Column(rows, YearConditionOf), (y, c))
    ensures Observed(Column(rows, PivotYearOf), y)
    ensures Observed(Column(rows, PivotConditionOf), c)
  {
    var s := PricedConditions(rows, y);
    var i :| 0 <= i < |s| && s[i] == Some(c);
    assert Column(rows, YearConditionOf)[i] == Some((y, c));
    assert Column(rows, PivotYearOf)[i] == Some(y);
    assert Column(rows, PivotConditionOf)[i] == Some(c);
  }

  /** The cell value of a combination: its priced-row count if it occurs, else missing. */
  lemma {:induction false} CellCountMeaning(rows: seq<Row>, y: int, c: string)
    ensures var m := Accumulate(Image(rows, PivotObs));
      CellCount(m, y, c) == if Observed(Column(rows, YearConditionOf), (y, c))
                            then Some(Occurrences(PricedConditions(rows, y), c)) else None
  {
    assert KeyColumn(Image(rows, PivotObs)) == Column(rows, YearConditionOf);
    PricedCount(rows, y, c);
  }

  /** The pivot's index: the model years of the rows having both keys, ascending. */
  function SortedYears(rows: seq<Row>): (years: seq<int>)
    ensures NoDup(years)
    ensures forall y :: y in years <==> Observed(Column(rows, PivotYearOf), y)
    ensures forall i, j :: 0 <= i < j < |years| ==> years[i] <= years[j]
  {
    var years := Distinct(Column(rows, PivotYearOf));
    SortKeepsNoDup(years, IntLeq);
    assert TotalPreorder(IntLeq);
    SortSorted(years, IntLeq);
    Sort(years, IntLeq)
  }

  /** The pivot's columns: the conditions of the rows having both keys, ascending. */
  function SortedConditions(rows: seq<Row>): (conds: seq<string>)
    ensures NoDup(conds)
    ensures forall c :: c in conds <==> Observed(Column(rows, PivotConditionOf), c)
    ensures forall i, j :: 0 <= i < j < |conds| ==> StrLeq(conds[i], conds[j])
  {
    var conds := Distinct(Column(rows, PivotConditionOf));
    SortKeepsNoDup(conds, StrLeq);
    StrLeqIsTotalPreorder();
    SortSorted(conds, StrLeq);
    Sort(conds, StrLeq)
  }

  /** Melt order: by condition, then by model year, both ascending. */
  predicate CellBefore(a: Cell, b: Cell)
  {
    CellBeforeBy(a, b, StrLeq)
  }

  /** Melt order for a given order `condLeq` on the conditions. */
  predicate CellBeforeBy(a: Cell, b: Cell, condLeq: (string, string) -> bool)
  {
    if a.condition == b.condition then a.modelYear <= b.modelYear else condLeq(a.condition, b.condition)
  }

  /** Cells in melt order throughout. */
  predicate CellsOrdered(cells: seq<Cell>, condLeq: (string, string) -> bool)
  {
    forall i, j :: 0 <= i < j < |cells| ==> CellBeforeBy(cells[i], cells[j], condLeq)
  }

  /** Two ordered runs, every cell of the first before every cell of the second, make an ordered run. */
  lemma ConcatOrdered(a: seq<Cell>, b: seq<Cell>, condLeq: (string, string) -> bool)
    requires CellsOrdered(a, condLeq) && CellsOrdered(b, condLeq)
    requires forall x, y :: x in a && y in b ==> CellBeforeBy(x, y, condLeq)
    ensures CellsOrdered(a + b, condLeq)
  {
    var all := a + b;
    forall i, j | 0 <= i < j < |all| ensures CellBeforeBy(all[i], all[j], condLeq) {
      if j < |a| {
        assert all[i] == a[i] && all[j] == a[j];
      } else if i < |a| {
        assert all[i] == a[i] && all[j] == b[j - |a|];
      } else {
        assert all[i] == b[i - |a|] && all[j] == b[j - |a|];
      }
    }
  }

  /** One melted column lists its model years in ascending order. */
  lemma ColumnOrdered(years: seq<int>, c: string, m: map<(int, string), Acc>, condLeq: (string, string) -> bool)
    requires forall i, j :: 0 <= i < j < |years| ==> years[i] <= years[j]
    ensures CellsOrdered(MeltColumn(years, c, m), condLeq)
  {
  }

  lemma {:induction false} MeltOrdered(years: seq<int>, conds: seq<string>, m: map<(int, string), Acc>,
                                       condLeq: (string, string) -> bool)
    requires forall i, j :: 0 <= i < j < |years| ==> years[i] <= years[j]
    requires forall i, j :: 0 <= i < j < |conds| ==> condLeq(conds[i], conds[j])
    requires NoDup(conds)
    ensures CellsOrdered(Melt(years, conds, m), condLeq)
    decreases |conds|
  {
    if |conds| > 0 {
      var c := conds[0];
      var later := conds[1..];
      var col := MeltColumn(years, c, m);
      var rest := Melt(years, later, m);
      assert forall i, j :: 0 <= i < j < |later| ==> condLeq(later[i], later[j]) by {
        forall i, j | 0 <= i < j < |later| ensures condLeq(later[i], later[j]) {
          assert later[i] == conds[i + 1] && later[j] == conds[j + 1];
        }
      }
      assert NoDup(later) by {
        forall i, j | 0 <= i < j < |later| ensures later[i] != later[j] {
          assert later[i] == conds[i + 1] && later[j] == conds[j + 1];
        }
      }
      MeltOrdered(years, later, m, condLeq);
      ColumnOrdered(years, c, m, condLeq);
      MeltCells(years, later, m);
      forall x, y | x in col && y in rest ensures CellBeforeBy(x, y, condLeq) {
        var k :| 0 <= k < |later| && later[k] == y.condition;
        assert conds[k + 1] == y.condition;
      }
      ConcatOrdered(col, rest, condLeq);
    }
  }

  /** The facts behind the contract of `YearConditionCounts`, about the melt it returns. */
  lemma MeltedPivot(rows: seq<Row>)
    ensures var cells := Melt(SortedYears(rows), SortedConditions(rows), Accumulate(Image(rows, PivotObs)));
      && DistinctBy(cells, CellKey)
      && (forall y, c ::
           Observed(Column(rows, PivotYearOf), y) && Observed(Column(rows, PivotConditionOf), c) ==>
             (y, c) in Image(cells, CellKey))
      && (forall i :: 0 <= i < |cells| ==>
           && Observed(Column(rows, PivotYearOf), cells[i].modelYear)
           && Observed(Column(rows, PivotConditionOf), cells[i].condition)
           && cells[i].count == if Observed(Column(rows, YearConditionOf), CellKey(cells[i]))
                                then Some(Occurrences(PricedConditions(rows, cells[i].modelYear), cells[i].condition))
                                else None)
      && (forall i, j :: 0 <= i < j < |cells| ==> CellBefore(cells[i], cells[j]))
  {
    var m := Accumulate(Image(rows, PivotObs));
    var years := SortedYears(rows);
    var conds := SortedConditions(rows);
    var cells := Melt(years, conds, m);
    MeltCells(years, conds, m);
    MeltDistinct(years, conds, m);
    MeltOrdered(years, conds, m, StrLeq);
    forall i | 0 <= i < |cells|
      ensures cells[i].count == if Observed(Column(rows, YearConditionOf), CellKey(cells[i]))
                                then Some(Occurrences(PricedConditions(rows, cells[i].modelYear), cells[i].condition))
                                else None
    {
      assert cells[i] in cells;
      CellCountMeaning(rows, cells[i].modelYear, cells[i].condition);
    }
  }

  /**
   The long table: one cell for each model year and each condition of the
   rows having both, and no other, ordered by condition and then by model
   year; a cell holds the number of priced rows of its combination when the
   combination occurs and is missing (not zero) when it does not.
   */
  function YearConditionCounts(rows: seq<Row>): (cells: seq<Cell>)
    ensures DistinctBy(cells, CellKey)
    ensures forall y, c ::
      Observed(Column(rows, PivotYearOf), y) && Observed(Column(rows, PivotConditionOf), c) ==>
        (y, c) in Image(cells, CellKey)
    ensures forall i :: 0 <= i < |cells| ==>
      && Observed(Column(rows, PivotYearOf), cells[i].modelYear)
      && Observed(Column(rows, PivotConditionOf), cells[i].condition)
      && cells[i].count == if Observed(Column(rows, YearConditionOf), CellKey(cells[i]))
                           then Some(Occurrences(PricedConditions(rows, cells[i].modelYear), cells[i].condition))
                           else None
    ensures forall i, j :: 0 <= i < j < |cells| ==> CellBefore(cells[i], cells[j])
  {
    MeltedPivot(rows);
    Melt(SortedYears(rows), SortedConditions(rows), Accumulate(Image(rows, PivotObs)))
  }

  /**
   Adding up a model year's counts over the conditions gives the number of
   rows of that year with both a condition and a price: the missing cells
   hide no rows.
   */
  lemma {:induction false} YearTotalIsPricedRows(rows: seq<Row>, y: int)
    ensures YearTotal(YearConditionCounts(rows), y) == Present(PricedConditions(rows, y))
  {
    var m := Accumulate(Image(rows, PivotObs));
    var years := SortedYears(rows);
    var conds := SortedConditions(rows);
    var s := PricedConditions(rows, y);
    MeltCells(years, conds, m);
    if y in years {
      forall c ensures CellCount(m, y, c).GetOr(0) == Occurrences(s, c) {
        CellCountMeaning(rows, y, c);
        if !Observed(Column(rows, YearConditionOf), (y, c)) && Observed(s, c) {
          PricedConditionOccurs(rows, y, c);
        }
        OccurrencesPositive(s, c);
      }
      YearTotalMelt(years, conds, m, y, s);
      forall c | Observed(s, c) ensures c in conds {
        PricedConditionOccurs(rows, y, c);
      }
      TallyTotal(s, conds);
    } else {
      YearTotalAbsent(Melt(years, conds, m), y);
      if Present(s) > 0 {
        PresentIsObserved(s);
        var c :| Observed(s, c);
        PricedConditionOccurs(rows, y, c);
      }
    }
  }
}
