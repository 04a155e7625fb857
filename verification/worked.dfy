/**
 Two Ford listings, one red and one blue, run through the derived columns
 and the mean-price chart.
 */
module WorkedExample {
  import opened Wrappers
  import opened Sorting
  import opened Collation
  import opened Counting
  import opened Grouping
  import opened Tokens
  import opened Listings
  import opened Views

  const F150 := Listing(Some(20000), Some(2015), Some("Ford F150"), Some("good"), Some(50000), Some("red"), Some("truck"))
  const Focus := Listing(Some(8000), Some(2010), Some("Ford Focus"), Some("fair"), Some(120000), Some("blue"), Some("sedan"))

  /** Both rows get brand "Ford"; the ages are 4 and 9. */
  lemma FordsDerived()
    ensures var rows := Derive([F150, Focus]);
      && rows[0].brand == Some("Ford") && rows[1].brand == Some("Ford")
      && rows[0].vehicleAge == Some(4) && rows[1].vehicleAge == Some(9)
  {
    assert FirstTokenAt("Ford F150", 0, "Ford") by {
      assert "Ford F150"[..0] == [];
      assert "Ford F150"[0..4] == "Ford";
    }
    assert FirstTokenAt("Ford Focus", 0, "Ford") by {
      assert "Ford Focus"[..0] == [];
      assert "Ford Focus"[0..4] == "Ford";
    }
    BrandOfFirstToken("Ford F150", 0, "Ford");
    BrandOfFirstToken("Ford Focus", 0, "Ford");
  }

  /** The colour and price columns of the two rows, as the chart reads them. */
  lemma FordsColumns(rows: seq<Row>)
    requires |rows| == 2 && rows[0].listing == F150 && rows[1].listing == Focus
    ensures Column(rows, ColorOf) == [Some("red"), Some("blue")]
    ensures ValuesOf(Image(rows, PriceObs), "blue") == [8000]
    ensures ValuesOf(Image(rows, PriceObs), "red") == [20000]
  {
    var obs := Image(rows, PriceObs);
    assert obs == [Obs(Some("red"), Some(20000)), Obs(Some("blue"), Some(8000))];
    var first := obs[..1];
    assert first == [Obs(Some("red"), Some(20000))];
    assert first[..0] == [];
    assert ValuesOf(first, "blue") == [];
    assert ValuesOf(first, "red") == [20000];
  }

  /** A colour table over exactly the colours red and blue, in colour order. */
  lemma RedBlueOrder(table: seq<ColorPrice>)
    requires DistinctBy(table, PaintColorOf)
    requires forall c :: c in Image(table, PaintColorOf) <==> c == "red" || c == "blue"
    requires forall i, j :: 0 <= i < j < |table| ==> StrLeq(table[i].paintColor, table[j].paintColor)
    ensures |table| == 2 && table[0].paintColor == "blue" && table[1].paintColor == "red"
  {
    var names := Image(table, PaintColorOf);
    assert "red" in names && "blue" in names;
    assert forall i :: 0 <= i < |table| ==> table[i].paintColor == "red" || table[i].paintColor == "blue" by {
      forall i | 0 <= i < |table| ensures table[i].paintColor == "red" || table[i].paintColor == "blue" {
        assert names[i] in names;
      }
    }
    assert |table| <= 2 by {
      if |table| > 2 {
        var a, b, c := table[0].paintColor, table[1].paintColor, table[2].paintColor;
        assert false;
      }
    }
    assert !StrLeq("red", "blue");
  }

  lemma MeanOfOne(x: int)
    ensures Mean([x]) == Some(x as real)
  {
    assert [x][..0] == [];
    assert Sum([x]) == x;
    assert x as real / 1 as real == x as real;
  }

  /** The colours of the two rows are exactly red and blue. */
  lemma FordsColors(colors: Series<string>)
    requires colors == [Some("red"), Some("blue")]
    ensures forall c :: Observed(colors, c) <==> c == "red" || c == "blue"
  {
    forall c ensures Observed(colors, c) <==> c == "red" || c == "blue" {
      assert colors[0] == Some("red") && colors[1] == Some("blue");
    }
  }

  /** A blue-then-red table holding the means of one price each. */
  lemma FordsPrices(table: seq<ColorPrice>, obs: seq<Obs<string>>)
    requires |table| == 2 && table[0].paintColor == "blue" && table[1].paintColor == "red"
    requires forall i :: 0 <= i < |table| ==> table[i].price == Mean(ValuesOf(obs, table[i].paintColor))
    requires ValuesOf(obs, "blue") == [8000] && ValuesOf(obs, "red") == [20000]
    ensures table == [ColorPrice("blue", Some(8000.0)), ColorPrice("red", Some(20000.0))]
  {
    MeanOfOne(8000);
    MeanOfOne(20000);
    assert table[0] == ColorPrice("blue", Some(8000.0));
    assert table[1] == ColorPrice("red", Some(20000.0));
  }

  /** The mean-price chart of the two rows: blue at 8000, then red at 20000. */
  lemma FordsMeanPrice(rows: seq<Row>)
    requires Column(rows, ColorOf) == [Some("red"), Some("blue")]
    requires ValuesOf(Image(rows, PriceObs), "blue") == [8000]
    requires ValuesOf(Image(rows, PriceObs), "red") == [20000]
    ensures MeanPriceByColor(rows) == [ColorPrice("blue", Some(8000.0)), ColorPrice("red", Some(20000.0))]
  {
    var table := MeanPriceByColor(rows);
    FordsColors(Column(rows, ColorOf));
    RedBlueOrder(table);
    FordsPrices(table, Image(rows, PriceObs));
  }

  /** End to end: the two listings, derived and charted. */
  lemma FordsChart()
    ensures MeanPriceByColor(Derive([F150, Focus])) ==
      [ColorPrice("blue", Some(8000.0)), ColorPrice("red", Some(20000.0))]
  {
    var rows := Derive([F150, Focus]);
    FordsColumns(rows);
    FordsMeanPrice(rows);
  }
}
