/**
 * The statements `main` writes to `update_script.sql`, one per line: the
 * rename statements, then the transaction produced by diffing the renamed
 * source snapshot against the target.
 */
module UpdateScript {
  import opened Wrappers
  import opened Text
  import opened Schemas
  import opened Formatter
  import opened Differ
  import opened Renames
  import opened DiffProperties

  /** `rename_statements + compare_and_generate_sql(renamed schema_a, schema_b)`, or the exception the rename loop raises. */
  function Script(a: Schema, b: Schema): Result<seq<string>, RenameError> {
    var renames := RenameStatements(a, b);
    match ApplyRenamesSpec(a, renames)
    case Err(e) => Err(e)
    case Ok(renamed) => Ok(renames + Diff(renamed, b))
  }

  /** The body of `main` between reading the two snapshots and writing the file. */
  method GenerateUpdateScript(schemaA: Schema, schemaB: Schema) returns (r: Result<seq<string>, RenameError>)
    ensures r == Script(schemaA, schemaB)
  {
    var renameStatements := GenerateRenameStatements(schemaA, schemaB);
    var renamed := ApplyRenames(schemaA, renameStatements);
    if renamed.Err? {
      return Err(renamed.error);
    }
    var updateStatements := CompareAndGenerateSql(renamed.value, schemaB);
    return Ok(renameStatements + updateStatements);
  }

  /**
   * On a source snapshot with distinct keys free of backticks and
   * semicolons, the script is produced: the renames come first, outside the
   * transaction, followed by START TRANSACTION;, the diff, and COMMIT; last.
   */
  lemma ScriptShape(a: Schema, b: Schema)
    requires UniqueKeys(a)
    requires forall i :: 0 <= i < |a| ==> PlainName(a[i].0)
    ensures Script(a, b).Ok?
    ensures var sql := Script(a, b).value; var n := |RenameStatements(a, b)|;
      |sql| >= n + 2 && sql[..n] == RenameStatements(a, b)
      && sql[n] == "START TRANSACTION;" && sql[|sql| - 1] == "COMMIT;"
  {
    RenamesApplyToSource(a, b);
  }

  /** When the renames succeed, the script is the renames followed by the diff of the renamed source. */
  lemma ScriptOf(a: Schema, b: Schema, renamed: Schema)
    requires ApplyRenamesSpec(a, RenameStatements(a, b)) == Ok(renamed)
    ensures Script(a, b) == Ok(RenameStatements(a, b) + Diff(renamed, b))
  {
  }

  /** A one-table schema is case-unique when its columns are. */
  lemma SingleTableCaseUnique(t: string, cols: seq<Column>)
    requires CaseUniqueColumns(cols)
    ensures CaseUnique([(t, cols)])
  {
    var b := [(t, cols)];
    assert forall i :: 0 <= i < |b| ==> b[i].1 == cols;
  }

  /** The rename half of RenameScenario: one statement, which re-keys the table. */
  lemma ScenarioRenames(t: string, cols: seq<Column>)
    requires '`' !in t && ';' !in t
    ensures RenameStatements([(t + "table", cols)], [(t, cols)]) == [RenameStatement(t + "table", t)]
    ensures ApplyRenamesSpec([(t + "table", cols)], [RenameStatement(t + "table", t)]) == Ok([(t, cols)])
  {
    ScenarioStatement(t, cols);
    ScenarioApply(t, cols);
  }

  /** `<t>table` qualifies against a target holding `<t>`. */
  lemma ScenarioStatement(t: string, cols: seq<Column>)
    ensures RenameStatements([(t + "table", cols)], [(t, cols)]) == [RenameStatement(t + "table", t)]
  {
    var a, b := [(t + "table", cols)], [(t, cols)];
    var source := t + "table";
    assert b[0].0 == t && a[0].0 == source;
    assert source[..|t|] == t && source[|t|..] == "table";
    assert Stem(source) == t && EndsWith(source, "table") && HasKey(b, t);
    assert RenameStatements(a, b) == [RenameStatement(source, t)] + RenameStatements([], b);
  }

  /** Applying that one statement re-keys `<t>table` to `<t>`. */
  lemma ScenarioApply(t: string, cols: seq<Column>)
    requires '`' !in t && ';' !in t
    ensures ApplyRenamesSpec([(t + "table", cols)], [RenameStatement(t + "table", t)]) == Ok([(t, cols)])
  {
    var a, source := [(t + "table", cols)], t + "table";
    assert source[..|t|] == t && source[|t|..] == "table";
    assert Stem(source) == t && EndsWith(source, "table");
    assert a[0].0 == source;
    assert UniqueKeys(a) && HasKey(a, source);
    assert PlainName(source) by {
      assert "table" == ['t', 'a', 'b', 'l', 'e'];
    }
    var renamed := RenameStep(a, source);
    assert renamed == [(t, cols)];
    var stmt := RenameStatement(source, t);
    assert [stmt][1..] == [];
    assert ApplyRenamesSpec(a, [stmt]) == ApplyRenamesSpec(renamed, []);
  }

  /**
   * The rename convention end to end: a source holding only `<t>table` and a
   * target holding only `<t>` with the same columns give one rename statement
   * and an empty transaction.
   */
  lemma RenameScenario(t: string, cols: seq<Column>)
    requires '`' !in t && ';' !in t
    requires CaseUniqueColumns(cols)
    ensures Script([(t + "table", cols)], [(t, cols)]) ==
      Ok([RenameStatement(t + "table", t)] + ["START TRANSACTION;", "COMMIT;"])
  {
    var a, b := [(t + "table", cols)], [(t, cols)];
    SingleTableCaseUnique(t, cols);
    DiffReflexive(b);
    ScenarioRenames(t, cols);
    ScriptOf(a, b, b);
  }
}
