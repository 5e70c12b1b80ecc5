/*
 * The loaded sheet as a value, and what the Submit handler of app.py does
 * to it: the row selection (`dropna`, `head`, `tolist`), the reset of the
 * Process and Status columns, and the merge of each row's outcome, in the
 * order the workers complete, through `data.at[row_index, column] = value`.
 */
module TableSpec {
  import opened RowUnit

  const ProcessColumn: string := "Process"
  const StatusColumn: string := "Status"
  const SuccessMark: string := "Success"
  const FailedMark: string := "Failed"

  /** The text of the ValueError raised when the one-key error dictionary
      is unpacked into two names. */
  const UnpackError: string := "not enough values to unpack (expected 2, got 1)"

  /** A data frame with the default row index 0 .. height - 1: its column
      names in order and each column's cells. */
  datatype Frame = Frame(columns: seq<string>, cells: map<string, seq<Cell>>, height: nat)

  ghost predicate WellFormed(f: Frame) {
    Distinct(f.columns) &&
    (forall c :: c in f.cells <==> c in f.columns) &&
    (forall c :: c in f.cells ==> |f.cells[c]| == f.height)
  }

  /** The cell at row `r` of column `c`; an absent column or row reads as null. */
  function Get(f: Frame, c: string, r: nat): Cell {
    if c in f.cells && r < |f.cells[c]| then f.cells[c][r] else Null
  }

  function Nulls(n: nat): seq<Cell> {
    seq(n, _ => Null)
  }

  /** `data[c] = None`: the column is reset to nulls; a new column goes last. */
  function SetColumnNull(f: Frame, c: string): (g: Frame)
    requires WellFormed(f)
    ensures WellFormed(g) && g.height == f.height
    ensures g.columns == if c in f.columns then f.columns else f.columns + [c]
    ensures forall d, r :: Get(g, d, r) == if d == c then Null else Get(f, d, r)
  {
    Frame(if c in f.cells then f.columns else f.columns + [c], f.cells[c := Nulls(f.height)], f.height)
  }

  /** `data.at[r, c] = v` for an existing row: a missing column is created,
      null everywhere else, and goes last. */
  function SetCell(f: Frame, r: nat, c: string, v: Cell): (g: Frame)
    requires WellFormed(f) && r < f.height
    ensures WellFormed(g) && g.height == f.height
    ensures g.columns == if c in f.columns then f.columns else f.columns + [c]
    ensures forall d, p :: Get(g, d, p) == if d == c && p == r then v else Get(f, d, p)
  {
    if c in f.cells then Frame(f.columns, f.cells[c := f.cells[c][r := v]], f.height)
    else Frame(f.columns + [c], f.cells[c := Nulls(f.height)[r := v]], f.height)
  }

  /** `data['Process'] = None` followed by `data['Status'] = None`. */
  function ResetMarks(f: Frame): (g: Frame)
    requires WellFormed(f)
    ensures WellFormed(g) && g.height == f.height
    ensures g.columns == KeyOrder(f.columns, [ProcessColumn, StatusColumn])
    ensures forall d, r :: Get(g, d, r) ==
              if d == ProcessColumn || d == StatusColumn then Null else Get(f, d, r)
  {
    var g1 := SetColumnNull(f, ProcessColumn);
    assert KeyOrder(f.columns, [ProcessColumn]) == g1.columns by {
      assert [ProcessColumn][..0] == [];
    }
    assert [ProcessColumn, StatusColumn][..1] == [ProcessColumn];
    SetColumnNull(g1, StatusColumn)
  }

  /** The value the item loop leaves under key `d`: the last item with that key. */
  function LastValue(fields: Dict<Cell>, d: string): Cell
    requires d in Keys(fields)
    decreases |fields|
  {
    var n := |fields|;
    if fields[n - 1].0 == d then fields[n - 1].1
    else
      assert Keys(fields[..n - 1]) == Keys(fields)[..n - 1];
      LastValue(fields[..n - 1], d)
  }

  /** In a dictionary, the value under a key is the one stored with it. */
  lemma {:induction false} LastValueOfDict(fields: Dict<Cell>, j: nat)
    requires Distinct(Keys(fields)) && j < |fields|
    ensures fields[j].0 in Keys(fields) && LastValue(fields, fields[j].0) == fields[j].1
    decreases |fields|
  {
    var n := |fields|;
    assert Keys(fields)[j] == fields[j].0;
    if j < n - 1 {
      assert Keys(fields)[n - 1] == fields[n - 1].0;
      assert Keys(fields[..n - 1]) == Keys(fields)[..n - 1];
      LastValueOfDict(fields[..n - 1], j);
    }
  }

  /** `for key, value in extracted_data.items(): data.at[r, key] = value`. */
  function WriteFields(f: Frame, r: nat, fields: Dict<Cell>): (g: Frame)
    requires WellFormed(f) && r < f.height
    ensures WellFormed(g) && g.height == f.height
    ensures g.columns == KeyOrder(f.columns, Keys(fields))
    ensures forall d, p :: Get(g, d, p) ==
              if p == r && d in Keys(fields) then LastValue(fields, d) else Get(f, d, p)
    decreases |fields|
  {
    if fields == [] then f
    else
      var n := |fields|;
      assert Keys(fields[..n - 1]) == Keys(fields)[..n - 1];
      assert Keys(fields)[n - 1] == fields[n - 1].0;
      assert forall d :: d in Keys(fields) <==> d in Keys(fields[..n - 1]) || d == fields[n - 1].0;
      SetCell(WriteFields(f, r, fields[..n - 1]), r, fields[n - 1].0, fields[n - 1].1)
  }

  /** The columns that applying an outcome writes to. */
  function OutcomeColumns(o: RowUnitResult): seq<string> {
    match o
    case Found(_, fields) => Keys(fields) + [ProcessColumn, StatusColumn]
    case ErrorDict(_) => [ProcessColumn, StatusColumn]
  }

  /** What an outcome leaves in column `d` of its row, `prev` being the cell
      there before. A result unpacks into the blob and the fields: each field
      lands in its own column, Process says Success and Status holds the blob.
      The error dictionary has one key, so unpacking it raises: Process says
      Failed and Status holds that unpacking error, whatever the message. */
  function RowCell(o: RowUnitResult, d: string, prev: Cell): Cell {
    if d == StatusColumn then Text(if o.Found? then o.blob else UnpackError)
    else if d == ProcessColumn then Text(if o.Found? then SuccessMark else FailedMark)
    else if o.Found? && d in Keys(o.fields) then LastValue(o.fields, d)
    else prev
  }

  /** The body of the completion loop for the task of row `r`. */
  function ApplyOutcome(f: Frame, r: nat, o: RowUnitResult): (g: Frame)
    requires WellFormed(f) && r < f.height
    ensures WellFormed(g) && g.height == f.height
    ensures g.columns == KeyOrder(f.columns, OutcomeColumns(o))
    ensures forall d, p :: Get(g, d, p) ==
              if p == r then RowCell(o, d, Get(f, d, r)) else Get(f, d, p)
  {
    match o
    case Found(blob, fields) =>
      var w := WriteFields(f, r, fields);
      KeyOrderMarks(f.columns, Keys(fields));
      SetCell(SetCell(w, r, ProcessColumn, Text(SuccessMark)), r, StatusColumn, Text(blob))
    case ErrorDict(_) =>
      KeyOrderMarks(f.columns, []);
      assert [] + [ProcessColumn, StatusColumn] == [ProcessColumn, StatusColumn];
      SetCell(SetCell(f, r, ProcessColumn, Text(FailedMark)), r, StatusColumn, Text(UnpackError))
  }

  lemma KeyOrderMarks(cols: seq<string>, ks: seq<string>)
    ensures var w := KeyOrder(cols, ks);
      var w1 := if ProcessColumn in w then w else w + [ProcessColumn];
      KeyOrder(cols, ks + [ProcessColumn, StatusColumn]) ==
        if StatusColumn in w1 then w1 else w1 + [StatusColumn]
  {
    var ks2 := ks + [ProcessColumn, StatusColumn];
    assert ks2[..|ks2| - 1] == ks + [ProcessColumn];
    assert (ks + [ProcessColumn])[..|ks|] == ks;
  }

  /** The message of a failed unit never reaches the table. */
  lemma ErrorMessageDropped(f: Frame, r: nat, m1: string, m2: string)
    requires WellFormed(f) && r < f.height
    ensures ApplyOutcome(f, r, ErrorDict(m1)) == ApplyOutcome(f, r, ErrorDict(m2))
  {
  }

  /** The outcomes merged in the order `order` of their completion; an
      outcome's position in `outcomes` is its task's row index. */
  function MergeInOrder(f: Frame, outcomes: seq<RowUnitResult>, order: seq<nat>): (g: Frame)
    requires WellFormed(f) && |outcomes| <= f.height
    requires forall t :: 0 <= t < |order| ==> order[t] < |outcomes|
    ensures WellFormed(g) && g.height == f.height
    decreases |order|
  {
    if order == [] then f
    else
      var n := |order|;
      ApplyOutcome(MergeInOrder(f, outcomes, order[..n - 1]), order[n - 1], outcomes[order[n - 1]])
  }

  /** Each row is written by its own task alone: once every completed task
      is distinct, a row whose task has completed holds what its outcome
      writes over the row as it was, and every other row is as it was. */
  lemma {:induction false} MergeCells(f: Frame, outcomes: seq<RowUnitResult>, order: seq<nat>)
    requires WellFormed(f) && |outcomes| <= f.height
    requires forall t :: 0 <= t < |order| ==> order[t] < |outcomes|
    requires Distinct(order)
    ensures forall d: string, r: nat :: Get(MergeInOrder(f, outcomes, order), d, r) ==
              if r in order then RowCell(outcomes[r], d, Get(f, d, r)) else Get(f, d, r)
    decreases |order|
  {
    if order != [] {
      var n := |order|;
      var init, last := order[..n - 1], order[n - 1];
      assert order == init + [last];
      MergeCells(f, outcomes, init);
      assert last !in init by {
        forall t | 0 <= t < n - 1 ensures init[t] != last {
          assert order[t] != order[n - 1];
        }
      }
    }
  }

  /** The names the completed outcomes write to, in completion order. */
  function WrittenBy(outcomes: seq<RowUnitResult>, order: seq<nat>): seq<string>
    requires forall t :: 0 <= t < |order| ==> order[t] < |outcomes|
    decreases |order|
  {
    if order == [] then []
    else
      var n := |order|;
      WrittenBy(outcomes, order[..n - 1]) + OutcomeColumns(outcomes[order[n - 1]])
  }

  /** The column names a merge leaves: the frame's own, then each name the
      completed outcomes write to, in the order they first write it. */
  lemma {:induction false} MergeColumns(f: Frame, outcomes: seq<RowUnitResult>, order: seq<nat>)
    requires WellFormed(f) && |outcomes| <= f.height
    requires forall t :: 0 <= t < |order| ==> order[t] < |outcomes|
    ensures MergeInOrder(f, outcomes, order).columns == KeyOrder(f.columns, WrittenBy(outcomes, order))
    decreases |order|
  {
    if order != [] {
      var n := |order|;
      MergeColumns(f, outcomes, order[..n - 1]);
      KeyOrderAppend(f.columns, WrittenBy(outcomes, order[..n - 1]), OutcomeColumns(outcomes[order[n - 1]]));
    }
  }

  /** A name is written by the merge exactly when one of the completed
      outcomes writes to it. */
  lemma {:induction false} WrittenByMember(outcomes: seq<RowUnitResult>, order: seq<nat>, c: string)
    requires forall t :: 0 <= t < |order| ==> order[t] < |outcomes|
    ensures c in WrittenBy(outcomes, order) <==>
            exists i :: i in order && i < |outcomes| && c in OutcomeColumns(outcomes[i])
    decreases |order|
  {
    if order != [] {
      var n := |order|;
      var init, last := order[..n - 1], order[n - 1];
      assert order == init + [last];
      WrittenByMember(outcomes, init, c);
      if exists i :: i in order && i < |outcomes| && c in OutcomeColumns(outcomes[i]) {
        var i :| i in order && i < |outcomes| && c in OutcomeColumns(outcomes[i]);
        if i != last { assert i in init; }
      }
    }
  }

  /** Two orders over the same completed tasks create the same column names. */
  lemma MergeSameColumnNames(f: Frame, outcomes: seq<RowUnitResult>, o1: seq<nat>, o2: seq<nat>)
    requires WellFormed(f) && |outcomes| <= f.height
    requires forall t :: 0 <= t < |o1| ==> o1[t] < |outcomes|
    requires forall t :: 0 <= t < |o2| ==> o2[t] < |outcomes|
    requires forall i :: i in o1 <==> i in o2
    ensures forall c :: c in MergeInOrder(f, outcomes, o1).columns <==> c in MergeInOrder(f, outcomes, o2).columns
  {
    MergeColumns(f, outcomes, o1);
    MergeColumns(f, outcomes, o2);
    KeyOrderShape(f.columns, WrittenBy(outcomes, o1));
    KeyOrderShape(f.columns, WrittenBy(outcomes, o2));
    forall c ensures c in WrittenBy(outcomes, o1) <==> c in WrittenBy(outcomes, o2) {
      WrittenByMember(outcomes, o1, c);
      WrittenByMember(outcomes, o2, c);
    }
  }

  /** Completion order decides nothing but the order of the columns the merge
      creates: two orders over the same completed tasks give the same cells
      and the same set of column names. */
  lemma MergeOrderIndependent(f: Frame, outcomes: seq<RowUnitResult>, o1: seq<nat>, o2: seq<nat>)
    requires WellFormed(f) && |outcomes| <= f.height
    requires forall t :: 0 <= t < |o1| ==> o1[t] < |outcomes|
    requires forall t :: 0 <= t < |o2| ==> o2[t] < |outcomes|
    requires Distinct(o1) && Distinct(o2)
    requires forall i :: i in o1 <==> i in o2
    ensures var g1, g2 := MergeInOrder(f, outcomes, o1), MergeInOrder(f, outcomes, o2);
      g1.cells == g2.cells && g1.height == g2.height &&
      forall c :: c in g1.columns <==> c in g2.columns
  {
    var g1, g2 := MergeInOrder(f, outcomes, o1), MergeInOrder(f, outcomes, o2);
    MergeSameColumnNames(f, outcomes, o1, o2);
    MergeCells(f, outcomes, o1);
    MergeCells(f, outcomes, o2);
    SameCells(g1, g2);
  }

  /** Two well-formed frames of one height, with the same column names and
      the same cell everywhere, hold the same columns. */
  lemma SameCells(g1: Frame, g2: Frame)
    requires WellFormed(g1) && WellFormed(g2) && g1.height == g2.height
    requires forall c :: c in g1.columns <==> c in g2.columns
    requires forall c: string, r: nat :: Get(g1, c, r) == Get(g2, c, r)
    ensures g1.cells == g2.cells
  {
    assert g1.cells.Keys == g2.cells.Keys;
    forall c | c in g1.cells ensures g1.cells[c] == g2.cells[c] {
      forall r | 0 <= r < g1.height ensures g1.cells[c][r] == g2.cells[c][r] {
        assert Get(g1, c, r) == Get(g2, c, r);
      }
    }
  }

  // ---------------------------------------------------------------------
  // Row selection
  // ---------------------------------------------------------------------

  /** `data[[column]].dropna()` from row `s` on: the label and `str()` form of
      each non-null cell, in row order. */
  function DropNaFrom(col: seq<Cell>, s: nat): (kept: seq<(nat, string)>)
    requires s <= |col|
    ensures |kept| <= |col| - s
    ensures forall i :: 0 <= i < |kept| ==> s <= kept[i].0 < |col| && col[kept[i].0] == Text(kept[i].1)
    decreases |col| - s
  {
    if s == |col| then []
    else if col[s].Null? then DropNaFrom(col, s + 1)
    else [(s, col[s].text)] + DropNaFrom(col, s + 1)
  }

  /** The labels of the kept cells. */
  function Labels(kept: seq<(nat, string)>): seq<nat> {
    seq(|kept|, i requires 0 <= i < |kept| => kept[i].0)
  }

  /** `dropna` keeps exactly the non-null cells from row `s` on. */
  lemma {:induction false} DropNaKeeps(col: seq<Cell>, s: nat)
    requires s <= |col|
    ensures forall p :: s <= p < |col| ==> (p in Labels(DropNaFrom(col, s)) <==> col[p].Text?)
    decreases |col| - s
  {
    if s < |col| {
      DropNaKeeps(col, s + 1);
      var rest := DropNaFrom(col, s + 1);
      var kept := DropNaFrom(col, s);
      assert forall x :: x in Labels(rest) ==> x > s;
      if col[s].Text? {
        assert Labels(kept) == [s] + Labels(rest);
      } else {
        assert kept == rest;
      }
    }
  }

  /** The labels strictly increase along the kept cells. */
  predicate InRowOrder(kept: seq<(nat, string)>) {
    forall i, j :: 0 <= i < j < |kept| ==> kept[i].0 < kept[j].0
  }

  /** `dropna` keeps the cells in row order. */
  lemma {:induction false} DropNaOrdered(col: seq<Cell>, s: nat)
    requires s <= |col|
    ensures InRowOrder(DropNaFrom(col, s))
    decreases |col| - s
  {
    if s < |col| {
      DropNaOrdered(col, s + 1);
      var rest := DropNaFrom(col, s + 1);
      var kept := DropNaFrom(col, s);
      if col[s].Text? {
        assert kept == [(s, col[s].text)] + rest;
        forall i, j | 0 <= i < j < |kept| ensures kept[i].0 < kept[j].0 {
          assert kept[j] == rest[j - 1];
          assert s + 1 <= rest[j - 1].0;
          if i > 0 {
            assert kept[i] == rest[i - 1];
            assert rest[i - 1].0 < rest[j - 1].0;
          }
        }
      } else {
        assert kept == rest;
      }
    }
  }

  /** `column_data_df[column].head(n).tolist()`: the values the tasks run on. */
  function SelectRows(col: seq<Cell>, n: nat): (rows: seq<string>)
    ensures |rows| <= n && |rows| <= |DropNaFrom(col, 0)|
    ensures forall i :: 0 <= i < |rows| ==> rows[i] == DropNaFrom(col, 0)[i].1
    ensures |rows| < n ==> |rows| == |DropNaFrom(col, 0)|
  {
    var kept := DropNaFrom(col, 0);
    var k := if n < |kept| then n else |kept|;
    seq(k, i requires 0 <= i < k => kept[i].1)
  }

  /** The result of task `i` is written to row `i`, while its value came from
      the row labelled `DropNaFrom(col, 0)[i].0`. That label is never below
      `i`, and it is `i` exactly when no cell up to row `i` is null. */
  lemma {:induction false} SourceRowOfTask(col: seq<Cell>, s: nat, i: nat)
    requires s <= |col| && i < |DropNaFrom(col, s)|
    ensures DropNaFrom(col, s)[i].0 >= s + i
    ensures DropNaFrom(col, s)[i].0 == s + i <==> forall p :: s <= p <= s + i ==> col[p].Text?
    decreases |col| - s
  {
    var kept := DropNaFrom(col, s);
    var rest := DropNaFrom(col, s + 1);
    if col[s].Null? {
      assert kept == rest;
      SourceRowOfTask(col, s + 1, i);
    } else if i > 0 {
      assert kept[i] == rest[i - 1];
      SourceRowOfTask(col, s + 1, i - 1);
      if forall p :: s + 1 <= p <= s + i ==> col[p].Text? {
        assert forall p :: s <= p <= s + i ==> col[p].Text?;
      }
    } else {
      assert kept[0].0 == s;
    }
  }

  /** A null above the selected rows shifts every later result off its row:
      the value of row 1 is processed and its result is written to row 0. */
  lemma NullShiftsResults(col: seq<Cell>)
    requires col == [Null, Text("Acme")]
    ensures SelectRows(col, 1) == ["Acme"]
    ensures DropNaFrom(col, 0)[0].0 == 1
  {
    assert DropNaFrom(col, 2) == [];
    assert DropNaFrom(col, 1) == [(1, "Acme")];
  }
}
