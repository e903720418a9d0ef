/** The grid adapter: `afterChange` reconciles a batch of cell edits reported
    by the editable grid into the row list held as view state. */
module GridAdapter {
  import opened Rows

  /** Why the grid fired its change notification. Only a programmatic bulk
      load is treated specially; every other origin (a user edit, a paste,
      an autofill, an undo, ...) is reconciled in the same way. */
  datatype Source = LoadData | Edit | Other

  /** One reported cell change `[row, prop, oldValue, newValue]`. */
  datatype Change = Change(row: int, prop: Field, oldVal: Option<real>, newVal: Option<real>)

  /** The row index names an existing row of `rows` (`next[row]` is defined). */
  predicate InRange(rows: seq<Row>, i: int)
  {
    0 <= i < |rows|
  }

  /** The effect of one change on the accumulating copy `next`: an existing
      row whose cell differs from the new value is replaced by a copy with that
      cell set; otherwise nothing happens. The old value is not consulted. */
  function ApplyChange(rows: seq<Row>, c: Change): (r: seq<Row>)
    ensures |r| == |rows|
    ensures forall i :: 0 <= i < |rows| && i != c.row ==> r[i] == rows[i]
    ensures InRange(rows, c.row) ==> r[c.row] == Set(rows[c.row], c.prop, c.newVal)
    ensures !InRange(rows, c.row) ==> r == rows
    ensures InRange(rows, c.row) && Get(rows[c.row], c.prop) == c.newVal ==> r == rows
  {
    if !InRange(rows, c.row) then
      rows
    else if Get(rows[c.row], c.prop) == c.newVal then
      SetSameValue(rows[c.row], c.prop);
      rows
    else
      rows[c.row := Set(rows[c.row], c.prop, c.newVal)]
  }

  /** The changes of a batch folded, in order, over the row list: each change
      sees the result of the changes before it. */
  function ApplyChanges(rows: seq<Row>, cs: seq<Change>): (r: seq<Row>)
    ensures |r| == |rows|
    decreases |cs|
  {
    if cs == [] then rows
    else ApplyChange(ApplyChanges(rows, cs[..|cs| - 1]), cs[|cs| - 1])
  }

  /** The new value of the last change in `cs` that names cell (`i`, `f`),
      or `None` when no change names it. */
  function LastWrite(cs: seq<Change>, i: int, f: Field): Option<Option<real>>
    decreases |cs|
  {
    if cs == [] then None
    else if cs[|cs| - 1].row == i && cs[|cs| - 1].prop == f then Some(cs[|cs| - 1].newVal)
    else LastWrite(cs[..|cs| - 1], i, f)
  }

  /** The row list after the grid reports `changes` with origin `source`:
      unchanged when there is no batch or the batch comes from a data load,
      otherwise the batch folded over a copy of the list. */
  function Updated(prev: seq<Row>, changes: Option<seq<Change>>, source: Source): (r: seq<Row>)
    ensures |r| == |prev|
    ensures changes.None? || source.LoadData? ==> r == prev
  {
    if changes.None? || source.LoadData? then prev
    else ApplyChanges(prev, changes.value)
  }

  /** `afterChange` together with the state updater it hands to `setData`:
      copies the previous rows into a fresh array and applies the changes one
      by one, replacing a row only when it exists and its cell differs. */
  method AfterChange(prev: seq<Row>, changes: Option<seq<Change>>, source: Source)
    returns (next: seq<Row>)
    ensures next == Updated(prev, changes, source)
  {
    if changes.None? || source == LoadData {
      return prev;
    }
    var cs := changes.value;
    var a := new Row[|prev|](i requires 0 <= i < |prev| => prev[i]);
    for k := 0 to |cs|
      invariant a[..] == ApplyChanges(prev, cs[..k])
    {
      assert cs[..k + 1][..k] == cs[..k];
      var c := cs[k];
      if 0 <= c.row < a.Length && Get(a[c.row], c.prop) != c.newVal {
        a[c.row] := Set(a[c.row], c.prop, c.newVal);
      }
    }
    assert cs[..|cs|] == cs;
    next := a[..];
  }

  /** Last change wins: after the batch, cell (`i`, `f`) of an existing row
      holds the new value of the last change naming it, or its old value when
      no change names it. */
  lemma {:induction false} ApplyChangesCell(rows: seq<Row>, cs: seq<Change>, i: int, f: Field)
    requires 0 <= i < |rows|
    ensures Get(ApplyChanges(rows, cs)[i], f) ==
              match LastWrite(cs, i, f)
              case Some(v) => v
              case None => Get(rows[i], f)
    decreases |cs|
  {
    if cs != [] {
      ApplyChangesCell(rows, cs[..|cs| - 1], i, f);
    }
  }

  /** A row that no change of the batch names comes out exactly as it was. */
  lemma {:induction false} UntouchedRow(rows: seq<Row>, cs: seq<Change>, i: int)
    requires 0 <= i < |rows|
    requires forall k :: 0 <= k < |cs| ==> cs[k].row != i
    ensures ApplyChanges(rows, cs)[i] == rows[i]
    decreases |cs|
  {
    if cs != [] {
      UntouchedRow(rows, cs[..|cs| - 1], i);
    }
  }

  /** Changes naming rows that do not exist are dropped: the batch has the
      same effect as the batch with those changes removed. */
  lemma {:induction false} OutOfRangeDropped(rows: seq<Row>, cs: seq<Change>, c: Change, ds: seq<Change>)
    requires !InRange(rows, c.row)
    ensures ApplyChanges(rows, cs + [c] + ds) == ApplyChanges(rows, cs + ds)
    decreases |ds|
  {
    if ds == [] {
      assert (cs + [c] + ds)[..|cs + [c] + ds| - 1] == cs;
      assert cs + ds == cs;
    } else {
      var n := |ds| - 1;
      OutOfRangeDropped(rows, cs, c, ds[..n]);
      assert (cs + [c] + ds)[..|cs + [c] + ds| - 1] == cs + [c] + ds[..n];
      assert (cs + ds)[..|cs + ds| - 1] == cs + ds[..n];
    }
  }

  /** Applying the same batch a second time changes nothing more: every cell
      it names already holds the value the batch last writes there. */
  lemma ApplyChangesIdempotent(rows: seq<Row>, cs: seq<Change>)
    ensures ApplyChanges(ApplyChanges(rows, cs), cs) == ApplyChanges(rows, cs)
  {
    var once := ApplyChanges(rows, cs);
    var twice := ApplyChanges(once, cs);
    forall i | 0 <= i < |rows|
      ensures twice[i] == once[i]
    {
      forall f: Field
        ensures Get(twice[i], f) == Get(once[i], f)
      {
        ApplyChangesCell(rows, cs, i, f);
        ApplyChangesCell(once, cs, i, f);
      }
      RowsEqual(twice[i], once[i]);
    }
  }

  /** The state update as a whole is idempotent: reporting the same batch
      twice leaves the rows as reporting it once. */
  lemma UpdatedIdempotent(prev: seq<Row>, changes: Option<seq<Change>>, source: Source)
    ensures Updated(Updated(prev, changes, source), changes, source) == Updated(prev, changes, source)
  {
    if changes.Some? && !source.LoadData? {
      ApplyChangesIdempotent(prev, changes.value);
    }
  }
}
