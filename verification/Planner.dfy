// Bound statements, their plans, and what a selection means.
module Planner {
  import opened Results
  import opened ByteCodec
  import opened RecordCodec

  datatype Comparison = Comparison(column: Word64, literal: Value)

  datatype Statement =
    | CreateTable(name: seq<Byte>, schema: Schema)
    | CreateIndex(name: seq<Byte>, table: Word64, column: Word64)
    | Insert(table: Word64, values: Tuple)
    | Select(table: Word64, projections: seq<Word64>, filter: Option<Comparison>)

  datatype LogicalPlan =
    | LogicalCreateTable(name: seq<Byte>, schema: Schema)
    | LogicalCreateIndex(name: seq<Byte>, table: Word64, column: Word64)
    | LogicalInsert(table: Word64, values: Tuple)
    | LogicalSelect(table: Word64, projections: seq<Word64>, filter: Option<Comparison>)

  datatype PhysicalPlan =
    | PhysicalCreateTable(name: seq<Byte>, schema: Schema)
    | PhysicalCreateIndex(name: seq<Byte>, table: Word64, column: Word64)
    | PhysicalInsert(table: Word64, values: Tuple)
    | SequentialScan(table: Word64, projections: seq<Word64>, filter: Option<Comparison>)
    | IndexScan(table: Word64, projections: seq<Word64>, comparison: Comparison)

  function BuildLogicalPlan(statement: Statement): LogicalPlan {
    match statement
    case CreateTable(name, schema) => LogicalCreateTable(name, schema)
    case CreateIndex(name, table, column) => LogicalCreateIndex(name, table, column)
    case Insert(table, values) => LogicalInsert(table, values)
    case Select(table, projections, filter) => LogicalSelect(table, projections, filter)
  }

  // An equality with an integer is a candidate for an index.
  function BuildPhysicalPlan(plan: LogicalPlan): PhysicalPlan {
    match plan
    case LogicalCreateTable(name, schema) => PhysicalCreateTable(name, schema)
    case LogicalCreateIndex(name, table, column) => PhysicalCreateIndex(name, table, column)
    case LogicalInsert(table, values) => PhysicalInsert(table, values)
    case LogicalSelect(table, projections, filter) =>
      if filter.Some? && filter.value.literal.IntValue? then IndexScan(table, projections, filter.value)
      else SequentialScan(table, projections, filter)
  }

  function PlanStatement(statement: Statement): PhysicalPlan {
    BuildPhysicalPlan(BuildLogicalPlan(statement))
  }

  // The statement that a physical plan carries out.
  function Meaning(plan: PhysicalPlan): Statement {
    match plan
    case PhysicalCreateTable(name, schema) => CreateTable(name, schema)
    case PhysicalCreateIndex(name, table, column) => CreateIndex(name, table, column)
    case PhysicalInsert(table, values) => Insert(table, values)
    case SequentialScan(table, projections, filter) => Select(table, projections, filter)
    case IndexScan(table, projections, comparison) => Select(table, projections, Some(comparison))
  }

  // Planning loses and changes nothing, and index scans compare integers.
  lemma PlanMeansStatement(statement: Statement)
    ensures Meaning(PlanStatement(statement)) == statement
    ensures PlanStatement(statement).IndexScan? <==>
      statement.Select? && statement.filter.Some? && statement.filter.value.literal.IntValue?
    ensures PlanStatement(statement).IndexScan? ==> PlanStatement(statement).comparison.literal.IntValue?
  {
  }

  // ---- what a selection returns ----

  predicate Inside(projections: seq<Word64>, width: nat) {
    forall i | 0 <= i < |projections| :: projections[i] < width
  }

  predicate AllWide(tuples: seq<Tuple>, width: nat) {
    forall i | 0 <= i < |tuples| :: |tuples[i]| == width
  }

  predicate Keeps(tuple: Tuple, filter: Option<Comparison>) {
    filter.None? || (filter.value.column < |tuple| && tuple[filter.value.column] == filter.value.literal)
  }

  function Project(tuple: Tuple, projections: seq<Word64>): (r: Tuple)
    requires Inside(projections, |tuple|)
    ensures |r| == |projections| && forall i | 0 <= i < |r| :: r[i] == tuple[projections[i]]
  {
    seq(|projections|, i requires 0 <= i < |projections| => tuple[projections[i]])
  }

  // The projections of the tuples that the comparison keeps, in order.
  function Selected(tuples: seq<Tuple>, width: nat, projections: seq<Word64>, filter: Option<Comparison>): seq<Tuple>
    requires AllWide(tuples, width) && Inside(projections, width)
  {
    if tuples == [] then []
    else
      var n := |tuples| - 1;
      Selected(tuples[..n], width, projections, filter) +
        (if Keeps(tuples[n], filter) then [Project(tuples[n], projections)] else [])
  }

  // No tuple is kept, or one.
  lemma {:induction false} SelectedAtMostOne(tuples: seq<Tuple>, width: nat, projections: seq<Word64>,
                                             filter: Option<Comparison>, k: int)
    requires AllWide(tuples, width) && Inside(projections, width)
    requires forall j | 0 <= j < |tuples| :: Keeps(tuples[j], filter) <==> j == k
    ensures Selected(tuples, width, projections, filter) ==
      if 0 <= k < |tuples| then [Project(tuples[k], projections)] else []
  {
    if tuples != [] {
      var n := |tuples| - 1;
      forall j | 0 <= j < n ensures Keeps(tuples[..n][j], filter) <==> j == k {
        assert tuples[..n][j] == tuples[j];
      }
      SelectedAtMostOne(tuples[..n], width, projections, filter, k);
    }
  }

  // The rows that answer a selection, said of the rows themselves: ks are the
  // positions of the tuples that the filter lets through, in order, and every row
  // has the projected values of its tuple.
  ghost predicate Answers(rows: seq<Tuple>, tuples: seq<Tuple>, projections: seq<Word64>,
                          filter: Option<Comparison>, ks: seq<nat>) {
    && |ks| == |rows|
    && (forall j | 0 <= j < |ks| :: ks[j] < |tuples|)
    && (forall i, j | 0 <= i < j < |ks| :: ks[i] < ks[j])
    && (forall k: nat | k < |tuples| :: k in ks <==> PassesAt(tuples, k, filter))
    && (forall j | 0 <= j < |rows| :: RowAnswers(rows[j], tuples[ks[j]], projections))
  }

  // Without a filter every tuple passes; with one, those that have its literal in
  // its column.
  ghost predicate PassesAt(tuples: seq<Tuple>, k: nat, filter: Option<Comparison>)
    requires k < |tuples|
  {
    match filter
    case None => true
    case Some(Comparison(column, IntValue(n))) => column < |tuples[k]| && tuples[k][column] == IntValue(n)
    case Some(Comparison(column, TextValue(t))) => column < |tuples[k]| && tuples[k][column] == TextValue(t)
  }

  ghost predicate RowAnswers(row: Tuple, tuple: Tuple, projections: seq<Word64>) {
    && |row| == |projections|
    && forall i | 0 <= i < |projections| :: projections[i] < |tuple| && row[i] == tuple[projections[i]]
  }

  // One more tuple, which passes or does not.
  lemma AnswersMore(rows: seq<Tuple>, tuples: seq<Tuple>, projections: seq<Word64>, filter: Option<Comparison>,
                    ks: seq<nat>, tuple: Tuple, row: Tuple)
    requires Answers(rows, tuples, projections, filter, ks) && RowAnswers(row, tuple, projections)
    ensures PassesAt([tuple], 0, filter) ==>
      Answers(rows + [row], tuples + [tuple], projections, filter, ks + [|tuples|])
    ensures !PassesAt([tuple], 0, filter) ==>
      Answers(rows, tuples + [tuple], projections, filter, ks)
  {
    hide RowAnswers;
    var more, n := tuples + [tuple], |tuples|;
    var passed := if PassesAt([tuple], 0, filter) then ks + [n] else ks;
    forall k: nat | k < |more| ensures k in passed <==> PassesAt(more, k, filter) {
      if k < n {
        assert PassesAt(more, k, filter) <==> PassesAt(tuples, k, filter);
        assert k in passed <==> k in ks;
      } else {
        assert PassesAt(more, k, filter) <==> PassesAt([tuple], 0, filter);
        assert forall j | 0 <= j < |ks| :: ks[j] != k;
      }
    }
  }

  // Selected is the answer.
  lemma {:induction false} SelectedAnswers(tuples: seq<Tuple>, width: nat, projections: seq<Word64>,
                                           filter: Option<Comparison>) returns (ks: seq<nat>)
    requires AllWide(tuples, width) && Inside(projections, width)
    ensures Answers(Selected(tuples, width, projections, filter), tuples, projections, filter, ks)
  {
    hide Answers;
    if tuples == [] {
      NothingAnswers(projections, filter);
      return [];
    }
    var n := |tuples| - 1;
    var before := SelectedAnswers(tuples[..n], width, projections, filter);
    AnswersMore(Selected(tuples[..n], width, projections, filter), tuples[..n], projections, filter, before,
      tuples[n], Project(tuples[n], projections));
    assert tuples[..n] + [tuples[n]] == tuples;
    assert Selected(tuples[..n], width, projections, filter) + [] == Selected(tuples[..n], width, projections, filter);
    return if Keeps(tuples[n], filter) then before + [n] else before;
  }

  lemma NothingAnswers(projections: seq<Word64>, filter: Option<Comparison>)
    ensures Answers([], [], projections, filter, [])
  {
  }

  // The columns of a result.
  function Columns(schema: Schema, projections: seq<Word64>): (columns: Schema)
    requires Inside(projections, |schema|)
    ensures |columns| == |projections| && forall i | 0 <= i < |columns| :: columns[i] == schema[projections[i]]
  {
    seq(|projections|, i requires 0 <= i < |projections| => schema[projections[i]])
  }
}
