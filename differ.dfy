/**
 * `compare_and_generate_sql`: the statements that turn schema A (the source)
 * into schema B (the target), wrapped in `START TRANSACTION;` ... `COMMIT;`.
 *
 * The statements are first described as a plan of Statement values, and
 * Render gives each its exact text. The plan is the pass over the target
 * (CREATE TABLE, ADD COLUMN, MODIFY COLUMN) followed by the pass over the
 * source (DROP TABLE, DROP COLUMN).
 */
module Differ {
  import opened Wrappers
  import opened Text
  import opened Schemas
  import opened Formatter

  /** One statement of the migration script, before rendering. */
  datatype Statement =
    | CreateTable(table: string, definitions: seq<string>)
    | AddColumn(table: string, definition: string)
    | ModifyColumn(table: string, definition: string)
    | DropTable(table: string)
    | DropColumn(table: string, column: string)
  {
    /** Statements of the first pass; the others remove something. */
    predicate IsAddition() {
      CreateTable? || AddColumn? || ModifyColumn?
    }
  }

  /** The exact text the source appends for each kind of statement. */
  function Render(st: Statement): string {
    match st
    case CreateTable(t, defs) => "CREATE TABLE " + EncloseIdentifier(t) + " (" + Join(defs, ", ") + ");"
    case AddColumn(t, d) => "ALTER TABLE " + EncloseIdentifier(t) + " ADD COLUMN " + d + ";"
    case ModifyColumn(t, d) => "ALTER TABLE " + EncloseIdentifier(t) + " MODIFY COLUMN " + d + ";"
    case DropTable(t) => "DROP TABLE " + EncloseIdentifier(t) + ";"
    case DropColumn(t, c) => "ALTER TABLE " + EncloseIdentifier(t) + " DROP COLUMN " + EncloseIdentifier(c) + ";"
  }

  function RenderAll(plan: seq<Statement>): seq<string> {
    seq(|plan|, i requires 0 <= i < |plan| => Render(plan[i]))
  }

  /** The rendered clauses of a table's columns, in column order. */
  function Definitions(cols: seq<Column>): seq<string> {
    seq(|cols|, i requires 0 <= i < |cols| => ColumnDefinition(cols[i]))
  }

  /** What one target column of a matched table contributes. */
  function ColumnChange(table: string, existing: map<string, Column>, c: Column): seq<Statement> {
    var k := Lower(c.name);
    if k !in existing then [AddColumn(table, ColumnDefinition(c))]
    else if !Equivalent(existing[k], c) then [ModifyColumn(table, ColumnDefinition(c))]
    else []
  }

  /**
   * The ADD/MODIFY statements for the target columns `cols` of a table that
   * exists in the source as `table`, whose columns are indexed by `existing`.
   */
  function ColumnChanges(table: string, existing: map<string, Column>, cols: seq<Column>): (plan: seq<Statement>)
    ensures |plan| <= |cols|
    ensures forall st :: st in plan ==> (st.AddColumn? || st.ModifyColumn?) && st.table == table
  {
    if cols == [] then []
    else ColumnChanges(table, existing, cols[..|cols| - 1]) + ColumnChange(table, existing, cols[|cols| - 1])
  }

  /** What one target table contributes to the first pass. */
  function TableAdditions(a: Schema, entry: Table): seq<Statement> {
    match FindTable(a, entry.0)
    case None => [CreateTable(entry.0, Definitions(entry.1))]
    case Some(m) => ColumnChanges(a[m].0, ColumnIndex(a[m].1), entry.1)
  }

  /** The first pass, over the target tables `b` in order. */
  function Additions(a: Schema, b: Schema): (plan: seq<Statement>)
    ensures forall st :: st in plan ==> st.IsAddition()
  {
    if b == [] then []
    else Additions(a, b[..|b| - 1]) + TableAdditions(a, b[|b| - 1])
  }

  /** DROP COLUMN for every source column whose lowered name is not in `names`. */
  function ColumnDrops(table: string, names: set<string>, cols: seq<Column>): (plan: seq<Statement>)
    ensures |plan| <= |cols|
    ensures forall st :: st in plan ==> st.DropColumn? && st.table == table
  {
    if cols == [] then []
    else
      var c := cols[|cols| - 1];
      ColumnDrops(table, names, cols[..|cols| - 1])
      + (if Lower(c.name) in names then [] else [DropColumn(table, c.name)])
  }

  /** What one source table contributes to the second pass. */
  function TableRemovals(entry: Table, b: Schema): seq<Statement> {
    match FindTable(b, entry.0)
    case None => [DropTable(entry.0)]
    case Some(m) => ColumnDrops(entry.0, ColumnNames(b[m].1), entry.1)
  }

  /** The second pass, over the source tables `a` in order. */
  function Removals(a: Schema, b: Schema): (plan: seq<Statement>)
    ensures forall st :: st in plan ==> !st.IsAddition()
  {
    if a == [] then []
    else Removals(a[..|a| - 1], b) + TableRemovals(a[|a| - 1], b)
  }

  /** Every CREATE/ADD/MODIFY comes before every DROP. */
  function DiffPlan(a: Schema, b: Schema): (plan: seq<Statement>)
  {
    Additions(a, b) + Removals(a, b)
  }

  const Begin := "START TRANSACTION;"
  const Commit := "COMMIT;"

  /** The statement list `compare_and_generate_sql(a, b)` returns. */
  function Diff(a: Schema, b: Schema): (sql: seq<string>)
    ensures |sql| >= 2 && sql[0] == "START TRANSACTION;" && sql[|sql| - 1] == "COMMIT;"
  {
    [Begin] + RenderAll(DiffPlan(a, b)) + [Commit]
  }

  lemma RenderAllAppend(p: seq<Statement>, q: seq<Statement>)
    ensures RenderAll(p + q) == RenderAll(p) + RenderAll(q)
  {
  }

  /** One step of a loop that appends the rendering of `more` after that of `done`. */
  lemma AppendStep(sql: seq<string>, before: seq<string>, after: seq<string>,
                   done: seq<Statement>, more: seq<Statement>, all: seq<Statement>)
    requires before == sql + RenderAll(done)
    requires after == before + RenderAll(more)
    requires all == done + more
    ensures after == sql + RenderAll(all)
  {
    RenderAllAppend(done, more);
  }

  /** main.py:92: the rendered clauses of the columns of a new table, in order. */
  method FormatColumnDefinitions(columns: seq<Column>) returns (definitions: seq<string>)
    ensures definitions == Definitions(columns)
  {
    definitions := [];
    var k := 0;
    while k < |columns|
      invariant 0 <= k <= |columns|
      invariant definitions == Definitions(columns[..k])
    {
      var definition := FormatColumnDefinition(columns[k]);
      definitions := definitions + [definition];
      k := k + 1;
    }
  }

  /** main.py:98-110: ADD or MODIFY (or nothing) for one target column of a matched table. */
  method AppendColumnChange(sql: seq<string>, tableA: string, existingColumnsA: map<string, Column>, columnB: Column)
    returns (sql': seq<string>)
    ensures sql' == sql + RenderAll(ColumnChange(tableA, existingColumnsA, columnB))
  {
    var columnNameB := Lower(columnB.name);
    var columnDefB := FormatColumnDefinition(columnB);
    if columnNameB !in existingColumnsA {
      sql' := sql + ["ALTER TABLE " + EncloseIdentifier(tableA) + " ADD COLUMN " + columnDefB + ";"];
    } else {
      var columnDefA := FormatColumnDefinition(existingColumnsA[columnNameB]);
      if Lower(columnDefA) != Lower(columnDefB) {
        sql' := sql + ["ALTER TABLE " + EncloseIdentifier(tableA) + " MODIFY COLUMN " + columnDefB + ";"];
      } else {
        sql' := sql;
      }
    }
  }

  /** main.py:97-110: ADD or MODIFY for the target columns of a matched table, in order. */
  method AppendColumnChanges(sql: seq<string>, tableA: string, existingColumnsA: map<string, Column>, columnsB: seq<Column>)
    returns (sql': seq<string>)
    ensures sql' == sql + RenderAll(ColumnChanges(tableA, existingColumnsA, columnsB))
  {
    sql' := sql;
    var k := 0;
    while k < |columnsB|
      invariant 0 <= k <= |columnsB|
      invariant sql' == sql + RenderAll(ColumnChanges(tableA, existingColumnsA, columnsB[..k]))
    {
      ghost var step := sql';
      sql' := AppendColumnChange(sql', tableA, existingColumnsA, columnsB[k]);
      assert columnsB[..k + 1][..k] == columnsB[..k];
      AppendStep(sql, step, sql', ColumnChanges(tableA, existingColumnsA, columnsB[..k]),
        ColumnChange(tableA, existingColumnsA, columnsB[k]),
        ColumnChanges(tableA, existingColumnsA, columnsB[..k + 1]));
      k := k + 1;
    }
    assert columnsB[..k] == columnsB;
  }

  /** main.py:121-125: DROP COLUMN for the source columns of a matched table. */
  method AppendColumnDrops(sql: seq<string>, tableA: string, existingColumnsB: set<string>, columnsA: seq<Column>)
    returns (sql': seq<string>)
    ensures sql' == sql + RenderAll(ColumnDrops(tableA, existingColumnsB, columnsA))
  {
    sql' := sql;
    var k := 0;
    while k < |columnsA|
      invariant 0 <= k <= |columnsA|
      invariant sql' == sql + RenderAll(ColumnDrops(tableA, existingColumnsB, columnsA[..k]))
    {
      var columnA := columnsA[k];
      ghost var step := sql';
      if Lower(columnA.name) !in existingColumnsB {
        sql' := sql' + ["ALTER TABLE " + EncloseIdentifier(tableA) + " DROP COLUMN " + EncloseIdentifier(columnA.name) + ";"];
      }
      ghost var drop := if Lower(columnA.name) in existingColumnsB then [] else [DropColumn(tableA, columnA.name)];
      assert columnsA[..k + 1][..k] == columnsA[..k];
      AppendStep(sql, step, sql', ColumnDrops(tableA, existingColumnsB, columnsA[..k]), drop,
        ColumnDrops(tableA, existingColumnsB, columnsA[..k + 1]));
      k := k + 1;
    }
    assert columnsA[..k] == columnsA;
  }

  /** main.py:88-110: what one target table adds, CREATE or ADD/MODIFY. */
  method AppendTableAdditions(sql: seq<string>, schemaA: Schema, tableB: string, columnsB: seq<Column>)
    returns (sql': seq<string>)
    ensures sql' == sql + RenderAll(TableAdditions(schemaA, (tableB, columnsB)))
  {
    var found := FindTable(schemaA, tableB);
    if found.None? {
      var definitions := FormatColumnDefinitions(columnsB);
      sql' := sql + ["CREATE TABLE " + EncloseIdentifier(tableB) + " (" + Join(definitions, ", ") + ");"];
      assert TableAdditions(schemaA, (tableB, columnsB)) == [CreateTable(tableB, definitions)];
    } else {
      var tableA := schemaA[found.value].0;
      var existingColumnsA := ColumnIndex(schemaA[found.value].1);
      sql' := AppendColumnChanges(sql, tableA, existingColumnsA, columnsB);
    }
  }

  /** main.py:86-110: the pass over the target tables, in order. */
  method AppendAdditions(sql: seq<string>, schemaA: Schema, schemaB: Schema) returns (sql': seq<string>)
    ensures sql' == sql + RenderAll(Additions(schemaA, schemaB))
  {
    sql' := sql;
    var i := 0;
    while i < |schemaB|
      invariant 0 <= i <= |schemaB|
      invariant sql' == sql + RenderAll(Additions(schemaA, schemaB[..i]))
    {
      ghost var before := sql';
      sql' := AppendTableAdditions(sql', schemaA, schemaB[i].0, schemaB[i].1);
      assert schemaB[..i + 1][..i] == schemaB[..i];
      AppendStep(sql, before, sql', Additions(schemaA, schemaB[..i]), TableAdditions(schemaA, schemaB[i]),
        Additions(schemaA, schemaB[..i + 1]));
      i := i + 1;
    }
    assert schemaB[..i] == schemaB;
  }

  /** main.py:114-125: what one source table removes, DROP TABLE or DROP COLUMN. */
  method AppendTableRemovals(sql: seq<string>, tableA: string, columnsA: seq<Column>, schemaB: Schema)
    returns (sql': seq<string>)
    ensures sql' == sql + RenderAll(TableRemovals((tableA, columnsA), schemaB))
  {
    var found := FindTable(schemaB, tableA);
    if found.None? {
      sql' := sql + ["DROP TABLE " + EncloseIdentifier(tableA) + ";"];
    } else {
      var existingColumnsB := ColumnNames(schemaB[found.value].1);
      sql' := AppendColumnDrops(sql, tableA, existingColumnsB, columnsA);
    }
  }

  /** main.py:113-125: the pass over the source tables, in order. */
  method AppendRemovals(sql: seq<string>, schemaA: Schema, schemaB: Schema) returns (sql': seq<string>)
    ensures sql' == sql + RenderAll(Removals(schemaA, schemaB))
  {
    sql' := sql;
    var i := 0;
    while i < |schemaA|
      invariant 0 <= i <= |schemaA|
      invariant sql' == sql + RenderAll(Removals(schemaA[..i], schemaB))
    {
      ghost var before := sql';
      sql' := AppendTableRemovals(sql', schemaA[i].0, schemaA[i].1, schemaB);
      assert schemaA[..i + 1][..i] == schemaA[..i];
      AppendStep(sql, before, sql', Removals(schemaA[..i], schemaB), TableRemovals(schemaA[i], schemaB),
        Removals(schemaA[..i + 1], schemaB));
      i := i + 1;
    }
    assert schemaA[..i] == schemaA;
  }

  /**
   * `compare_and_generate_sql`: `START TRANSACTION;`, then the pass over the
   * target (CREATE, or ADD/MODIFY), then the pass over the source (DROP
   * TABLE, DROP COLUMN), then `COMMIT;`.
   */
  method CompareAndGenerateSql(schemaA: Schema, schemaB: Schema) returns (sql: seq<string>)
    ensures sql == Diff(schemaA, schemaB)
  {
    sql := [Begin];
    // Add new tables and columns
    sql := AppendAdditions(sql, schemaA, schemaB);
    // Drop old tables and columns not present in schema B
    ghost var afterAdditions := sql;
    sql := AppendRemovals(sql, schemaA, schemaB);
    AppendStep([Begin], afterAdditions, sql, Additions(schemaA, schemaB), Removals(schemaA, schemaB),
      DiffPlan(schemaA, schemaB));
    assert sql == [Begin] + RenderAll(DiffPlan(schemaA, schemaB));
    sql := sql + [Commit];
  }
}
