/*
 * The Submit handler of app.py over a table held in place. The handler
 * checks the query for a placeholder, asks the planning model for the
 * entities of the cleaned query, selects the first non-null values of the
 * chosen column, resets the Process and Status columns, starts one row unit
 * per selected value on the query with that value filled in, and merges
 * each unit's outcome into the table as the units complete.
 */
module Enrichment {
  import opened QueryTemplate
  import opened RowUnit
  import opened TableSpec

  /** What the planning model returns for the cleaned query. */
  datatype EntityPlan = EntityPlan(questionStatus: bool, entities: seq<string>)

  /** How a submission ends: rejected before any work, stopped by an
      exception of the planning call, or run to the end (with the warning
      shown when the planner did not recognise an extraction question). */
  datatype SubmitStatus = InvalidQuery | PlanningFailed(message: string) | Completed(warned: bool)

  /** The outcome of each task, task `i` running on the `i`-th selected value. */
  function RowOutcomes(query: string, rows: seq<string>, entities: seq<string>, svc: Services): seq<RowUnitResult> {
    seq(|rows|, i requires 0 <= i < |rows| => SearchContactDetails(Formatted(query, rows[i]), entities, svc).result)
  }

  /** `order` lists the tasks 0 .. k - 1 in the order they complete, each once. */
  ghost predicate IsCompletionOrder(order: seq<nat>, k: nat) {
    Distinct(order) && forall i: nat :: i in order <==> i < k
  }

  /** Every task index is a row of the table. */
  lemma CompletionOrderFits(f: Frame, column: string, numRows: nat, order: seq<nat>)
    requires WellFormed(f) && column in f.cells
    requires IsCompletionOrder(order, |SelectRows(f.cells[column], numRows)|)
    ensures |SelectRows(f.cells[column], numRows)| <= f.height
    ensures forall t :: 0 <= t < |order| ==> order[t] < |SelectRows(f.cells[column], numRows)|
  {
    forall t | 0 <= t < |order| ensures order[t] < |SelectRows(f.cells[column], numRows)| {
      assert order[t] in order;
    }
  }

  /** The table the handler leaves once every task has been merged. */
  function Enriched(f: Frame, column: string, query: string, numRows: nat,
                    entities: seq<string>, svc: Services, order: seq<nat>): Frame
    requires WellFormed(f) && column in f.cells
    requires IsCompletionOrder(order, |SelectRows(f.cells[column], numRows)|)
  {
    var rows := SelectRows(f.cells[column], numRows);
    CompletionOrderFits(f, column, numRows, order);
    MergeInOrder(ResetMarks(f), RowOutcomes(query, rows, entities, svc), order)
  }

  /** Every cell of the enriched table. Row `i` below the number of tasks
      holds what task `i` wrote over the row with Process and Status reset;
      every other row keeps its cells, with Process and Status null. */
  lemma EnrichedCells(f: Frame, column: string, query: string, numRows: nat,
                      entities: seq<string>, svc: Services, order: seq<nat>)
    requires WellFormed(f) && column in f.cells
    requires IsCompletionOrder(order, |SelectRows(f.cells[column], numRows)|)
    ensures var rows := SelectRows(f.cells[column], numRows);
      var g := Enriched(f, column, query, numRows, entities, svc, order);
      g.height == f.height &&
      forall d: string, r: nat :: Get(g, d, r) ==
        var before := if d == ProcessColumn || d == StatusColumn then Null else Get(f, d, r);
        if r < |rows|
        then RowCell(SearchContactDetails(Formatted(query, rows[r]), entities, svc).result, d, before)
        else before
  {
    var rows := SelectRows(f.cells[column], numRows);
    CompletionOrderFits(f, column, numRows, order);
    MergeCells(ResetMarks(f), RowOutcomes(query, rows, entities, svc), order);
  }

  /** The order in which the tasks complete changes no cell of the result. */
  lemma EnrichedOrderIndependent(f: Frame, column: string, query: string, numRows: nat,
                                 entities: seq<string>, svc: Services, o1: seq<nat>, o2: seq<nat>)
    requires WellFormed(f) && column in f.cells
    requires IsCompletionOrder(o1, |SelectRows(f.cells[column], numRows)|)
    requires IsCompletionOrder(o2, |SelectRows(f.cells[column], numRows)|)
    ensures var g1 := Enriched(f, column, query, numRows, entities, svc, o1);
      var g2 := Enriched(f, column, query, numRows, entities, svc, o2);
      g1.cells == g2.cells && forall c :: c in g1.columns <==> c in g2.columns
  {
    var rows := SelectRows(f.cells[column], numRows);
    CompletionOrderFits(f, column, numRows, o1);
    CompletionOrderFits(f, column, numRows, o2);
    MergeOrderIndependent(ResetMarks(f), RowOutcomes(query, rows, entities, svc), o1, o2);
  }

  /** A null above the selected value shifts its result up: with the column
      `[None, "Acme"]`, the value researched is "Acme" from row 1, its
      outcome is written to row 0, and row 1 keeps null marks. */
  lemma NullShiftsEnrichment(f: Frame, column: string, query: string, numRows: nat,
                             entities: seq<string>, svc: Services, order: seq<nat>)
    requires WellFormed(f) && column in f.cells && f.cells[column] == [Null, Text("Acme")]
    requires 1 <= numRows
    requires IsCompletionOrder(order, |SelectRows(f.cells[column], numRows)|)
    ensures var g := Enriched(f, column, query, numRows, entities, svc, order);
      var o := SearchContactDetails(Formatted(query, "Acme"), entities, svc).result;
      Get(g, StatusColumn, 0) == RowCell(o, StatusColumn, Null) &&
      Get(g, ProcessColumn, 0) == RowCell(o, ProcessColumn, Null) &&
      Get(g, ProcessColumn, 1) == Null && Get(g, StatusColumn, 1) == Null
  {
    var col := f.cells[column];
    NullShiftsResults(col);
    assert SelectRows(col, numRows) == ["Acme"];
    EnrichedCells(f, column, query, numRows, entities, svc, order);
  }

  /** The loaded sheet, updated in place by the handler. */
  class Table {
    var columns: seq<string>
    var cells: map<string, seq<Cell>>
    var height: nat

    function Snapshot(): Frame
      reads this
    {
      Frame(columns, cells, height)
    }

    ghost predicate Valid()
      reads this
    {
      WellFormed(Snapshot())
    }

    constructor (f: Frame)
      requires WellFormed(f)
      ensures Valid() && Snapshot() == f
    {
      columns, cells, height := f.columns, f.cells, f.height;
    }

    /** `data[c] = None`. */
    method ResetColumn(c: string)
      requires Valid()
      modifies this
      ensures Valid() && Snapshot() == SetColumnNull(old(Snapshot()), c)
    {
      if c !in cells {
        columns := columns + [c];
      }
      cells := cells[c := Nulls(height)];
    }

    /** `data.at[r, c] = v`. */
    method SetCell(r: nat, c: string, v: Cell)
      requires Valid() && r < height
      modifies this
      ensures Valid() && Snapshot() == TableSpec.SetCell(old(Snapshot()), r, c, v)
    {
      if c in cells {
        cells := cells[c := cells[c][r := v]];
      } else {
        columns := columns + [c];
        cells := cells[c := Nulls(height)[r := v]];
      }
    }

    /** One pass of the completion loop: unpack the outcome of the task of
        row `r` and write it to that row. The blob is always a string, so the
        fields are always written on success. */
    method MergeOutcome(r: nat, o: RowUnitResult)
      requires Valid() && r < height
      modifies this
      ensures Valid() && Snapshot() == ApplyOutcome(old(Snapshot()), r, o)
    {
      match o {
        case Found(blob, fields) =>
          for i := 0 to |fields|
            invariant Valid() && Snapshot() == WriteFields(old(Snapshot()), r, fields[..i])
          {
            SetCell(r, fields[i].0, fields[i].1);
            assert fields[..i + 1][..i] == fields[..i];
          }
          assert fields[..|fields|] == fields;
          SetCell(r, ProcessColumn, Text(SuccessMark));
          SetCell(r, StatusColumn, Text(blob));
        case ErrorDict(_) =>
          SetCell(r, ProcessColumn, Text(FailedMark));
          SetCell(r, StatusColumn, Text(UnpackError));
      }
    }

    /** The Submit handler on the chosen column, the raw query and the number
        of rows. The planning model and the row services are parameters, and
        `order` is the order in which the tasks complete. */
    method Submit(column: string, query: string, numRows: nat,
                  planner: string -> Attempt<EntityPlan>, svc: Services, order: seq<nat>)
      returns (status: SubmitStatus)
      requires Valid() && column in cells && 1 <= numRows
      requires IsCompletionOrder(order, |SelectRows(cells[column], numRows)|)
      modifies this
      ensures Valid()
      ensures !HasPlaceholder(query) ==> status == InvalidQuery && Snapshot() == old(Snapshot())
      ensures HasPlaceholder(query) && planner(CleanQuery(query)).Raised? ==>
        status == PlanningFailed(planner(CleanQuery(query)).message) && Snapshot() == old(Snapshot())
      ensures HasPlaceholder(query) && planner(CleanQuery(query)).Returned? ==>
        var plan := planner(CleanQuery(query)).value;
        status == Completed(!plan.questionStatus) &&
        Snapshot() == Enriched(old(Snapshot()), column, query, numRows, plan.entities, svc, order)
    {
      if !HasPlaceholder(query) {
        return InvalidQuery;
      }
      var cleaned := CleanQuery(query);
      var planned := planner(cleaned);
      if planned.Raised? {
        return PlanningFailed(planned.message);
      }
      var plan := planned.value;
      var rows := SelectRows(cells[column], numRows);
      CompletionOrderFits(Snapshot(), column, numRows, order);
      ResetColumn(ProcessColumn);
      ResetColumn(StatusColumn);
      var outcomes := RunTasks(query, rows, plan.entities, svc);
      MergeAll(outcomes, order);
      return Completed(!plan.questionStatus);
    }

    /** The completion loop: merge each task's outcome as it completes. */
    method MergeAll(outcomes: seq<RowUnitResult>, order: seq<nat>)
      requires Valid() && |outcomes| <= height
      requires forall t :: 0 <= t < |order| ==> order[t] < |outcomes|
      modifies this
      ensures Valid() && Snapshot() == MergeInOrder(old(Snapshot()), outcomes, order)
    {
      for t := 0 to |order|
        invariant Valid() && Snapshot() == MergeInOrder(old(Snapshot()), outcomes, order[..t])
      {
        MergeOutcome(order[t], outcomes[order[t]]);
        assert order[..t + 1][..t] == order[..t];
      }
      assert order[..|order|] == order;
    }
  }

  /** The submission loop: task `i` runs the row unit on the query with every
      placeholder filled in with the `i`-th selected value. */
  method RunTasks(query: string, rows: seq<string>, entities: seq<string>, svc: Services)
    returns (outcomes: seq<RowUnitResult>)
    ensures outcomes == RowOutcomes(query, rows, entities, svc)
  {
    outcomes := [];
    for i := 0 to |rows|
      invariant |outcomes| == i
      invariant forall j :: 0 <= j < i ==>
        outcomes[j] == SearchContactDetails(Formatted(query, rows[j]), entities, svc).result
    {
      var formatted := FormatQuery(query, rows[i]);
      outcomes := outcomes + [SearchContactDetails(formatted, entities, svc).result];
    }
  }
}
