/** Worked examples of the two operations on small row lists. */
module Scenarios {
  import opened Rows
  import opened GridAdapter
  import opened DerivedSeries

  /** A row whose three cells are all empty. */
  const EmptyRow: Row := Row(None, None, None)

  /** A row whose cells are all filled in. */
  function Filled(cost: real, supply: real, demand: real): FullRow
  {
    Row(Some(cost), Some(demand), Some(supply))
  }

  /** Two complete rows come out cheapest first; the row without price and
      demand is left out. */
  lemma SeriesExample()
    ensures SortedDataset([Filled(10.0, 2.0, 8.0), Filled(5.0, 1.0, 9.0), Row(None, None, Some(3.0))])
         == [Filled(5.0, 1.0, 9.0), Filled(10.0, 2.0, 8.0)]
  {
    var rows := [Filled(10.0, 2.0, 8.0), Filled(5.0, 1.0, 9.0), Row(None, None, Some(3.0))];
    assert FilterComplete(rows) == [Filled(10.0, 2.0, 8.0), Filled(5.0, 1.0, 9.0)] by {
      assert rows[1..] == [Filled(5.0, 1.0, 9.0), Row(None, None, Some(3.0))];
      assert rows[1..][1..] == [Row(None, None, Some(3.0))];
    }
  }

  /** The sort keeps rows of equal price in their grid order. */
  lemma SortTieExample()
    ensures SortByCost([Filled(7.0, 1.0, 1.0), Filled(3.0, 0.0, 0.0), Filled(7.0, 2.0, 2.0)])
         == [Filled(3.0, 0.0, 0.0), Filled(7.0, 1.0, 1.0), Filled(7.0, 2.0, 2.0)]
  {
    var a, b, c := Filled(7.0, 1.0, 1.0), Filled(3.0, 0.0, 0.0), Filled(7.0, 2.0, 2.0);
    assert CostOf(a) == 7.0 && CostOf(b) == 3.0 && CostOf(c) == 7.0;
    assert [a, b, c][1..] == [b, c] && [b, c][1..] == [c];
    var t1 := SortByCost([c]);
    assert t1 == [c];
    var t2 := SortByCost([b, c]);
    assert t2 == Insert(b, t1) == [b, c];
    assert Insert(a, [c]) == [a, c];
    assert Insert(a, [b, c]) == [b] + Insert(a, [c]);
    assert SortByCost([a, b, c]) == Insert(a, t2);
  }

  /** Typing a price into the empty first row fills in that cell only. */
  lemma EditExample()
    ensures Updated([EmptyRow], Some([Change(0, Cost, None, Some(10.0))]), Edit)
         == [Row(Some(10.0), None, None)]
  {
    var cs := [Change(0, Cost, None, Some(10.0))];
    assert cs[..0] == [];
  }

  /** Re-entering the price a row already has leaves the rows as they were. */
  lemma UnchangedValueExample()
    ensures Updated([Row(Some(10.0), None, None)], Some([Change(0, Cost, Some(10.0), Some(10.0))]), Edit)
         == [Row(Some(10.0), None, None)]
  {
    var cs := [Change(0, Cost, Some(10.0), Some(10.0))];
    assert cs[..0] == [];
  }

  /** A batch reported for a data load is ignored whatever it contains. */
  lemma LoadDataExample(rows: seq<Row>, cs: seq<Change>)
    ensures Updated(rows, Some(cs), LoadData) == rows
  {
  }
}
