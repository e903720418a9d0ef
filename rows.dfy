/** The row record behind the editable grid: one (price, supply, demand)
    triple whose cells may still be empty. The price column is called `cost`
    in the program. JavaScript numbers are modelled as `real`. */
module Rows {

  /** An optional value; `None` is the program's `null` (an empty cell). */
  datatype Option<+T> = None | Some(value: T)

  /** The three declared columns of a row. */
  datatype Field = Cost | Supply | Demand

  /** One row of the grid, each cell possibly empty. */
  datatype Row = Row(cost: Option<real>, demand: Option<real>, supply: Option<real>)

  /** The value of the named cell of a row (`row[prop]`). */
  function Get(r: Row, f: Field): Option<real>
  {
    match f
    case Cost => r.cost
    case Supply => r.supply
    case Demand => r.demand
  }

  /** A copy of `r` whose named cell is `v` (`{ ...r, [prop]: v }`). */
  function Set(r: Row, f: Field, v: Option<real>): (s: Row)
    ensures Get(s, f) == v
    ensures forall g: Field :: g != f ==> Get(s, g) == Get(r, g)
  {
    match f
    case Cost => r.(cost := v)
    case Supply => r.(supply := v)
    case Demand => r.(demand := v)
  }

  /** Two rows are equal as soon as their three cells are. */
  lemma RowsEqual(a: Row, b: Row)
    requires forall f: Field :: Get(a, f) == Get(b, f)
    ensures a == b
  {
    assert Get(a, Cost) == Get(b, Cost);
    assert Get(a, Supply) == Get(b, Supply);
    assert Get(a, Demand) == Get(b, Demand);
  }

  /** Writing back the value a cell already holds gives the same row. */
  lemma SetSameValue(r: Row, f: Field)
    ensures Set(r, f, Get(r, f)) == r
  {
  }
}
