/** The derived series handed to the chart (`sortedDataset`): the rows whose
    three cells are all filled in, sorted ascending by price with a stable
    sort (`Array.prototype.toSorted` with comparator `a.cost - b.cost`). */
module DerivedSeries {
  import opened Rows

  /** All three cells of the row are filled in (the filter's type guard). */
  predicate Complete(r: Row)
  {
    r.cost.Some? && r.supply.Some? && r.demand.Some?
  }

  /** The guard holds exactly when every column of the row is filled in. */
  lemma CompleteAllCells(r: Row)
    ensures Complete(r) <==> forall f: Field :: Get(r, f).Some?
  {
    assert Get(r, Cost) == r.cost && Get(r, Supply) == r.supply && Get(r, Demand) == r.demand;
  }

  /** A row narrowed by the type guard: every cell holds a number. */
  type FullRow = r: Row | Complete(r) witness Row(Some(0.0), Some(0.0), Some(0.0))

  /** The sort key of a complete row, its price. */
  function CostOf(r: FullRow): real
  {
    r.cost.value
  }

  /** Ascending by price: no later row is cheaper than an earlier one. */
  predicate SortedByCost(s: seq<FullRow>)
  {
    forall i, j :: 0 <= i < j < |s| ==> CostOf(s[i]) <= CostOf(s[j])
  }

  /** The rows of `s` whose price is `c`, in the order `s` has them. Two
      orderings of the same rows agree on every such subsequence exactly when
      rows of equal price keep their relative order. */
  function WithCost(s: seq<FullRow>, c: real): seq<FullRow>
  {
    if s == [] then []
    else (if CostOf(s[0]) == c then [s[0]] else []) + WithCost(s[1..], c)
  }

  /** The `.filter` step: the complete rows of `rows`, in their order. */
  function FilterComplete(rows: seq<Row>): (r: seq<FullRow>)
    ensures |r| <= |rows|
    ensures forall x: Row :: x in r <==> x in rows && Complete(x)
    ensures forall x: FullRow :: multiset(r)[x] == multiset(rows)[x]
  {
    if rows == [] then []
    else
      assert rows == [rows[0]] + rows[1..];
      if Complete(rows[0]) then [rows[0]] + FilterComplete(rows[1..])
      else FilterComplete(rows[1..])
  }

  /** The filter keeps grid order: a row added at the end of the grid is
      kept, at the end, exactly when it is complete. */
  lemma {:induction false} FilterCompleteAppend(rows: seq<Row>, x: Row)
    ensures FilterComplete(rows + [x]) == FilterComplete(rows) + (if Complete(x) then [x] else [])
  {
    if rows != [] {
      assert (rows + [x])[1..] == rows[1..] + [x];
      FilterCompleteAppend(rows[1..], x);
    }
  }

  /** Inserts `x` in front of the first row that is at least as expensive. */
  function Insert(x: FullRow, s: seq<FullRow>): (r: seq<FullRow>)
    ensures multiset(r) == multiset(s) + multiset{x}
  {
    if s == [] then [x]
    else if CostOf(x) <= CostOf(s[0]) then [x] + s
    else
      assert s == [s[0]] + s[1..];
      [s[0]] + Insert(x, s[1..])
  }

  /** Inserting into a sorted sequence keeps it sorted. */
  lemma {:induction false} InsertSorted(x: FullRow, s: seq<FullRow>)
    requires SortedByCost(s)
    ensures SortedByCost(Insert(x, s))
  {
    if s == [] {
    } else if CostOf(x) <= CostOf(s[0]) {
      var r := [x] + s;
      forall i, j | 0 <= i < j < |r| ensures CostOf(r[i]) <= CostOf(r[j]) {
        if i == 0 {
          assert r[j] == s[j - 1];
        } else {
          assert r[i] == s[i - 1] && r[j] == s[j - 1];
        }
      }
    } else {
      var t := Insert(x, s[1..]);
      InsertSorted(x, s[1..]);
      var r := [s[0]] + t;
      forall i, j | 0 <= i < j < |r| ensures CostOf(r[i]) <= CostOf(r[j]) {
        if i == 0 {
          assert r[j] == t[j - 1];
          assert r[j] in multiset(s[1..]) + multiset{x};
          if r[j] != x {
            assert r[j] in s[1..];
          }
        } else {
          assert r[i] == t[i - 1] && r[j] == t[j - 1];
        }
      }
    }
  }

  /** The `.toSorted` step: a stable sort ascending by price. Insertion from
      the back places each row before every later row of equal price. */
  function SortByCost(s: seq<FullRow>): (r: seq<FullRow>)
    ensures multiset(r) == multiset(s)
    ensures SortedByCost(r)
  {
    if s == [] then []
    else
      assert s == [s[0]] + s[1..];
      InsertSorted(s[0], SortByCost(s[1..]));
      Insert(s[0], SortByCost(s[1..]))
  }

  /** `sortedDataset`: the complete rows, sorted ascending by price. Exactly
      the complete rows survive, each as often as it occurs. */
  function SortedDataset(rows: seq<Row>): (r: seq<FullRow>)
    ensures SortedByCost(r)
    ensures multiset(r) == multiset(FilterComplete(rows))
    ensures forall x: Row :: x in r <==> x in rows && Complete(x)
    ensures rows == [] ==> r == []
  {
    var kept := FilterComplete(rows);
    var r := SortByCost(kept);
    assert forall x: FullRow :: x in r <==> x in kept by {
      forall x: FullRow ensures x in r <==> x in kept {
        assert x in r <==> x in multiset(r);
        assert x in kept <==> x in multiset(kept);
      }
    }
    r
  }

  /** A sequence is a stable sort by price of `s` when it is sorted and keeps,
      for every price, the rows of that price in the order `s` has them. */
  ghost predicate IsStableSortByCost(t: seq<FullRow>, s: seq<FullRow>)
  {
    SortedByCost(t) && forall c: real :: WithCost(t, c) == WithCost(s, c)
  }

  /** Inserting `x` adds it in front of the rows of its own price and leaves
      the rows of every other price in place. */
  lemma {:induction false} InsertWithCost(x: FullRow, s: seq<FullRow>, c: real)
    ensures WithCost(Insert(x, s), c) == (if CostOf(x) == c then [x] else []) + WithCost(s, c)
  {
    var own := if CostOf(x) == c then [x] else [];
    if s == [] {
    } else if CostOf(x) <= CostOf(s[0]) {
      WithCostCons(x, s, c);
    } else {
      var t := Insert(x, s[1..]);
      var head := if CostOf(s[0]) == c then [s[0]] else [];
      calc {
        WithCost(Insert(x, s), c);
        WithCost([s[0]] + t, c);
        { WithCostCons(s[0], t, c); }
        head + WithCost(t, c);
        { InsertWithCost(x, s[1..], c); }
        head + (own + WithCost(s[1..], c));
        { assert head == [] || own == []; }
        own + (head + WithCost(s[1..], c));
        { WithCostCons(s[0], s[1..], c); assert [s[0]] + s[1..] == s; }
        own + WithCost(s, c);
      }
    }
  }

  /** The rows of price `c` in `[y] + t`: `y` if it has that price, then
      those of `t`. */
  lemma WithCostCons(y: FullRow, t: seq<FullRow>, c: real)
    ensures WithCost([y] + t, c) == (if CostOf(y) == c then [y] else []) + WithCost(t, c)
  {
    assert ([y] + t)[1..] == t;
  }

  /** The sort is stable: for every price, the rows of that price come out in
      the order they went in. */
  lemma {:induction false} SortByCostStable(s: seq<FullRow>, c: real)
    ensures WithCost(SortByCost(s), c) == WithCost(s, c)
  {
    if s != [] {
      SortByCostStable(s[1..], c);
      InsertWithCost(s[0], SortByCost(s[1..]), c);
    }
  }

  /** The sort meets the definition of a stable sort by price. */
  lemma SortByCostIsStableSort(s: seq<FullRow>)
    ensures IsStableSortByCost(SortByCost(s), s)
  {
    forall c: real
      ensures WithCost(SortByCost(s), c) == WithCost(s, c)
    {
      SortByCostStable(s, c);
    }
  }

  /** In the series, rows of equal price keep the order they have in the
      grid. */
  lemma SortedDatasetStable(rows: seq<Row>, c: real)
    ensures WithCost(SortedDataset(rows), c) == WithCost(FilterComplete(rows), c)
  {
    SortByCostStable(FilterComplete(rows), c);
  }

  /** The rows of price `c` in `s + [y]`: those of `s`, then `y` if it has
      that price. */
  lemma {:induction false} WithCostAppend(s: seq<FullRow>, y: FullRow, c: real)
    ensures WithCost(s + [y], c) == WithCost(s, c) + (if CostOf(y) == c then [y] else [])
  {
    if s != [] {
      assert (s + [y])[1..] == s[1..] + [y];
      WithCostAppend(s[1..], y, c);
    }
  }

  /** Stability stated on the grid: a complete row added at the end of the
      grid comes after every series row of its own price, and the rows of
      every other price are as before. */
  lemma SortedDatasetAppendStable(rows: seq<Row>, x: Row, c: real)
    ensures WithCost(SortedDataset(rows + [x]), c)
         == WithCost(SortedDataset(rows), c) + (if Complete(x) && x.cost.value == c then [x] else [])
  {
    var kept := FilterComplete(rows);
    var added := if Complete(x) && x.cost.value == c then [x] else [];
    calc {
      WithCost(SortedDataset(rows + [x]), c);
      { SortedDatasetStable(rows + [x], c); }
      WithCost(FilterComplete(rows + [x]), c);
      { FilterCompleteAppend(rows, x); }
      WithCost(kept + (if Complete(x) then [x] else []), c);
      { if Complete(x) { WithCostAppend(kept, x, c); } else { assert kept + [] == kept; } }
      WithCost(kept, c) + added;
      { SortedDatasetStable(rows, c); }
      WithCost(SortedDataset(rows), c) + added;
    }
  }

  /** The first row of a sorted sequence is one of its cheapest. */
  lemma SortedHeadCheapest(a: seq<FullRow>, x: FullRow)
    requires SortedByCost(a) && x in a
    ensures CostOf(a[0]) <= CostOf(x)
  {
    var k :| 0 <= k < |a| && a[k] == x;
    assert k == 0 || CostOf(a[0]) <= CostOf(a[k]);
  }

  /** Dropping the first row drops it from the rows of its own price only. */
  lemma WithCostTail(s: seq<FullRow>, c: real)
    requires s != []
    ensures WithCost(s[1..], c) == if CostOf(s[0]) == c then WithCost(s, c)[1..] else WithCost(s, c)
  {
  }

  /** The first row of a sequence heads the rows of its own price. */
  lemma WithCostHead(s: seq<FullRow>)
    requires s != []
    ensures WithCost(s, CostOf(s[0])) != [] && WithCost(s, CostOf(s[0]))[0] == s[0]
  {
  }

  /** A row is among the rows of price `c` exactly when it is in `s` and
      has that price. */
  lemma {:induction false} WithCostMember(s: seq<FullRow>, c: real, x: FullRow)
    ensures x in WithCost(s, c) <==> x in s && CostOf(x) == c
  {
    if s != [] {
      WithCostMember(s[1..], c, x);
      assert s == [s[0]] + s[1..];
    }
  }

  /** Two sorted sequences that agree on the rows of every price are equal. */
  lemma {:induction false} SortedGroupsDetermine(a: seq<FullRow>, b: seq<FullRow>)
    requires SortedByCost(a) && SortedByCost(b)
    requires forall c: real :: WithCost(a, c) == WithCost(b, c)
    ensures a == b
    decreases |a|
  {
    if a == [] || b == [] {
      if a != [] {
        WithCostHead(a);
      } else if b != [] {
        WithCostHead(b);
      }
      return;
    }
    var m, m' := CostOf(a[0]), CostOf(b[0]);
    WithCostHead(a);
    WithCostHead(b);
    assert m <= m' by {
      assert b[0] in WithCost(a, m');
      WithCostMember(a, m', b[0]);
      SortedHeadCheapest(a, b[0]);
    }
    assert m' <= m by {
      assert a[0] in WithCost(b, m);
      WithCostMember(b, m, a[0]);
      SortedHeadCheapest(b, a[0]);
    }
    assert a[0] == b[0];
    forall c: real
      ensures WithCost(a[1..], c) == WithCost(b[1..], c)
    {
      WithCostTail(a, c);
      WithCostTail(b, c);
    }
    SortedGroupsDetermine(a[1..], b[1..]);
    assert a == [a[0]] + a[1..] && b == [b[0]] + b[1..];
  }

  /** The stable sort by price is unique: any sequence that is sorted by price
      and keeps the order of equal-price rows is exactly `SortByCost`, so the
      result does not depend on which stable algorithm performs the sort. */
  lemma StableSortUnique(t: seq<FullRow>, s: seq<FullRow>)
    requires IsStableSortByCost(t, s)
    ensures t == SortByCost(s)
  {
    SortByCostIsStableSort(s);
    SortedGroupsDetermine(t, SortByCost(s));
  }
}
