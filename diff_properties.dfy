/**
 * What `compare_and_generate_sql` promises, stated over the plan of
 * statements that Differ.Diff renders.
 */
module DiffProperties {
  import opened Wrappers
  import opened Text
  import opened Schemas
  import opened Formatter
  import opened Differ

  /** The output is wrapped in the transaction markers, and every CREATE/ADD/MODIFY precedes every DROP. */
  lemma AdditionsBeforeRemovals(a: Schema, b: Schema)
    ensures Diff(a, b)[0] == "START TRANSACTION;" && Diff(a, b)[|Diff(a, b)| - 1] == "COMMIT;"
    ensures Diff(a, b) == ["START TRANSACTION;"] + RenderAll(DiffPlan(a, b)) + ["COMMIT;"]
    ensures forall i, j :: 0 <= i < j < |DiffPlan(a, b)| && DiffPlan(a, b)[j].IsAddition() ==>
      DiffPlan(a, b)[i].IsAddition()
  {
    var adds: seq<Statement>, drops: seq<Statement> := Additions(a, b), Removals(a, b);
    var plan := adds + drops;
    forall i, j | 0 <= i < j < |plan|
      ensures plan[j].IsAddition() ==> plan[i].IsAddition()
    {
      if j < |adds| {
        assert plan[i] == adds[i] && adds[i] in adds;
      } else {
        assert plan[j] == drops[j - |adds|] && drops[j - |adds|] in drops;
      }
    }
  }

  /** The parts `f(x)` for the elements `x` of `xs`, concatenated in order. */
  function ConcatMap<T, S>(f: T -> seq<S>, xs: seq<T>): seq<S> {
    if xs == [] then [] else ConcatMap(f, xs[..|xs| - 1]) + f(xs[|xs| - 1])
  }

  /** An element of a concatenation comes from one of the parts. */
  lemma {:induction false} ConcatMapMembers<T, S>(f: T -> seq<S>, xs: seq<T>, y: S)
    ensures y in ConcatMap(f, xs) <==> exists i :: 0 <= i < |xs| && y in f(xs[i])
  {
    if xs != [] {
      var init, last := xs[..|xs| - 1], |xs| - 1;
      ConcatMapMembers(f, init, y);
      if y in ConcatMap(f, init) {
        var i :| 0 <= i < |init| && y in f(init[i]);
        assert init[i] == xs[i];
      } else if y !in f(xs[last]) {
        forall i | 0 <= i < |xs| ensures y !in f(xs[i]) {
          if i < last {
            assert init[i] == xs[i];
          }
        }
      }
    }
  }

  /** The first pass is the concatenation of what each target table contributes. */
  lemma {:induction false} AdditionsConcat(a: Schema, b: Schema)
    ensures Additions(a, b) == ConcatMap(e => TableAdditions(a, e), b)
  {
    if b != [] {
      AdditionsConcat(a, b[..|b| - 1]);
    }
  }

  /** The second pass is the concatenation of what each source table contributes. */
  lemma {:induction false} RemovalsConcat(a: Schema, b: Schema)
    ensures Removals(a, b) == ConcatMap(e => TableRemovals(e, b), a)
  {
    if a != [] {
      RemovalsConcat(a[..|a| - 1], b);
    }
  }

  /** A matched table's column pass is the concatenation of what each target column contributes. */
  lemma {:induction false} ColumnChangesConcat(t: string, existing: map<string, Column>, cols: seq<Column>)
    ensures ColumnChanges(t, existing, cols) == ConcatMap(c => ColumnChange(t, existing, c), cols)
  {
    if cols != [] {
      ColumnChangesConcat(t, existing, cols[..|cols| - 1]);
    }
  }

  /** A statement of the first pass comes from one target table. */
  lemma AdditionsMembers(a: Schema, b: Schema, st: Statement)
    ensures st in Additions(a, b) <==> exists i :: 0 <= i < |b| && st in TableAdditions(a, b[i])
  {
    AdditionsConcat(a, b);
    ConcatMapMembers(e => TableAdditions(a, e), b, st);
  }

  /** A statement of the second pass comes from one source table. */
  lemma RemovalsMembers(a: Schema, b: Schema, st: Statement)
    ensures st in Removals(a, b) <==> exists i :: 0 <= i < |a| && st in TableRemovals(a[i], b)
  {
    RemovalsConcat(a, b);
    ConcatMapMembers(e => TableRemovals(e, b), a, st);
  }

  /** What a table contributes to either pass, by whether it has a match on the other side. */
  lemma TableCases(a: Schema, e: Table, b: Schema)
    ensures FindTable(a, e.0).None? ==> TableAdditions(a, e) == [CreateTable(e.0, Definitions(e.1))]
    ensures FindTable(a, e.0).Some? ==> forall st :: st in TableAdditions(a, e) ==> !st.CreateTable?
    ensures FindTable(b, e.0).None? ==> TableRemovals(e, b) == [DropTable(e.0)]
    ensures FindTable(b, e.0).Some? ==> forall st :: st in TableRemovals(e, b) ==> !st.DropTable?
  {
  }

  /**
   * CREATE TABLE is emitted exactly for the target tables that have no
   * case-insensitive match among the source tables, with the target's
   * column clauses in the target's order.
   */
  lemma CreateTableExactly(a: Schema, b: Schema, name: string, defs: seq<string>)
    ensures CreateTable(name, defs) in Additions(a, b) <==>
      FindTable(a, name).None? && exists i :: 0 <= i < |b| && b[i].0 == name && defs == Definitions(b[i].1)
  {
    var st := CreateTable(name, defs);
    AdditionsMembers(a, b, st);
    forall i | 0 <= i < |b|
      ensures st in TableAdditions(a, b[i]) <==>
        FindTable(a, b[i].0).None? && b[i].0 == name && defs == Definitions(b[i].1)
    {
      TableCases(a, b[i], b);
    }
  }

  /** DROP TABLE is emitted exactly for the source tables with no case-insensitive match in the target. */
  lemma DropTableExactly(a: Schema, b: Schema, name: string)
    ensures DropTable(name) in Removals(a, b) <==>
      FindTable(b, name).None? && exists i :: 0 <= i < |a| && a[i].0 == name
  {
    RemovalsMembers(a, b, DropTable(name));
    forall i | 0 <= i < |a|
      ensures DropTable(name) in TableRemovals(a[i], b) <==> FindTable(b, a[i].0).None? && a[i].0 == name
    {
      DropTableCase(a[i], b, name);
    }
  }

  /** The DROP TABLE one source table contributes. */
  lemma DropTableCase(e: Table, b: Schema, name: string)
    ensures DropTable(name) in TableRemovals(e, b) <==> FindTable(b, e.0).None? && e.0 == name
  {
    TableCases([], e, b);
  }

  /** No table is both created and dropped, not even under another spelling. */
  lemma NoTableCreatedAndDropped(a: Schema, b: Schema, created: string, defs: seq<string>, dropped: string)
    requires CreateTable(created, defs) in DiffPlan(a, b)
    requires DropTable(dropped) in DiffPlan(a, b)
    ensures Lower(created) != Lower(dropped)
  {
    assert CreateTable(created, defs) in Additions(a, b);
    assert DropTable(dropped) in Removals(a, b);
    CreateTableExactly(a, b, created, defs);
    DropTableExactly(a, b, dropped);
  }

  /** A statement of a matched table's column pass comes from one target column. */
  lemma ColumnChangesMembers(t: string, existing: map<string, Column>, cols: seq<Column>, st: Statement)
    ensures st in ColumnChanges(t, existing, cols) <==>
      exists k :: 0 <= k < |cols| && st in ColumnChange(t, existing, cols[k])
  {
    ColumnChangesConcat(t, existing, cols);
    ConcatMapMembers(c => ColumnChange(t, existing, c), cols, st);
  }

  /** The three outcomes for one target column of a matched table. */
  lemma ColumnChangeCases(t: string, existing: map<string, Column>, c: Column)
    ensures Lower(c.name) !in existing ==> ColumnChange(t, existing, c) == [AddColumn(t, ColumnDefinition(c))]
    ensures Lower(c.name) in existing && !Equivalent(existing[Lower(c.name)], c) ==>
      ColumnChange(t, existing, c) == [ModifyColumn(t, ColumnDefinition(c))]
    ensures Lower(c.name) in existing && Equivalent(existing[Lower(c.name)], c) ==>
      ColumnChange(t, existing, c) == []
  {
  }

  /**
   * In a matched table, ADD COLUMN is emitted, under the source table's name,
   * for exactly the target columns whose lowered name is not a column of the
   * source table; it carries the target column's clause.
   */
  lemma AddColumnExactly(t: string, existing: map<string, Column>, cols: seq<Column>, t': string, d: string)
    ensures AddColumn(t', d) in ColumnChanges(t, existing, cols) <==>
      t' == t && exists k :: 0 <= k < |cols| && Lower(cols[k].name) !in existing && d == ColumnDefinition(cols[k])
  {
    var st := AddColumn(t', d);
    ColumnChangesMembers(t, existing, cols, st);
    forall k | 0 <= k < |cols|
      ensures st in ColumnChange(t, existing, cols[k]) <==>
        t' == t && Lower(cols[k].name) !in existing && d == ColumnDefinition(cols[k])
    {
      ColumnChangeCases(t, existing, cols[k]);
    }
  }

  /**
   * In a matched table, MODIFY COLUMN is emitted, under the source table's
   * name and with the target column's clause, for exactly the target columns
   * that exist in the source table and whose clauses differ from the source
   * column's when case is ignored.
   */
  lemma ModifyColumnExactly(t: string, existing: map<string, Column>, cols: seq<Column>, t': string, d: string)
    ensures ModifyColumn(t', d) in ColumnChanges(t, existing, cols) <==>
      t' == t && exists k :: (0 <= k < |cols| && Lower(cols[k].name) in existing
        && !Equivalent(existing[Lower(cols[k].name)], cols[k]) && d == ColumnDefinition(cols[k]))
  {
    var st := ModifyColumn(t', d);
    ColumnChangesMembers(t, existing, cols, st);
    forall k | 0 <= k < |cols|
      ensures st in ColumnChange(t, existing, cols[k]) <==>
        t' == t && Lower(cols[k].name) in existing
        && !Equivalent(existing[Lower(cols[k].name)], cols[k]) && d == ColumnDefinition(cols[k])
    {
      ColumnChangeCases(t, existing, cols[k]);
    }
  }

  /** The lowercase column dictionary and the lowercase name set have the same keys. */
  lemma IndexKeysAreNames(cols: seq<Column>, k: string)
    ensures k in ColumnIndex(cols) <==> k in ColumnNames(cols)
  {
    if k in ColumnNames(cols) {
      var c :| c in cols && Lower(c.name) == k;
      var x :| 0 <= x < |cols| && cols[x] == c;
      assert LastColumn(cols, k).Some?;
    }
  }

  /** `d` is the clause of a column of `cols` whose lowered name no column of `source` has. */
  predicate NewColumnClause(source: seq<Column>, cols: seq<Column>, d: string) {
    exists k :: 0 <= k < |cols| && Lower(cols[k].name) !in ColumnNames(source) && d == ColumnDefinition(cols[k])
  }

  /** The ADD COLUMN statements one target table contributes. */
  lemma AddColumnFromTable(a: Schema, e: Table, t: string, d: string)
    ensures AddColumn(t, d) in TableAdditions(a, e) <==>
      var found := FindTable(a, e.0);
      found.Some? && t == a[found.value].0 && NewColumnClause(a[found.value].1, e.1, d)
  {
    TableCases(a, e, []);
    var found := FindTable(a, e.0);
    if found.Some? {
      var source := a[found.value];
      AddColumnExactly(source.0, ColumnIndex(source.1), e.1, t, d);
      forall k | 0 <= k < |e.1|
        ensures Lower(e.1[k].name) !in ColumnIndex(source.1) <==> Lower(e.1[k].name) !in ColumnNames(source.1)
      {
        IndexKeysAreNames(source.1, Lower(e.1[k].name));
      }
    }
  }

  /**
   * ADD COLUMN over the whole plan: it is emitted exactly when some target
   * table matches a source table case-insensitively and has a column whose
   * lowered name no column of that source table has; the statement names the
   * source table as spelled in the source and carries the target column's
   * clause.
   */
  lemma AddColumnInPlan(a: Schema, b: Schema, t: string, d: string)
    ensures AddColumn(t, d) in DiffPlan(a, b) <==>
      exists j :: 0 <= j < |b| && (var found := FindTable(a, b[j].0);
        found.Some? && t == a[found.value].0 && NewColumnClause(a[found.value].1, b[j].1, d))
  {
    var st := AddColumn(t, d);
    assert st in DiffPlan(a, b) <==> st in Additions(a, b) by {
      assert st.IsAddition();
    }
    AdditionsMembers(a, b, st);
    forall j | 0 <= j < |b|
      ensures st in TableAdditions(a, b[j]) <==>
        var found := FindTable(a, b[j].0);
        found.Some? && t == a[found.value].0 && NewColumnClause(a[found.value].1, b[j].1, d)
    {
      AddColumnFromTable(a, b[j], t, d);
    }
  }

  /**
   * `d` is the clause of a column of `cols` whose lowered name is a key of
   * `existing` and whose clause differs, once lowered, from the one that key
   * maps to.
   */
  predicate ChangedColumnClause(existing: map<string, Column>, cols: seq<Column>, d: string) {
    exists k :: 0 <= k < |cols| && Lower(cols[k].name) in existing
      && !Equivalent(existing[Lower(cols[k].name)], cols[k]) && d == ColumnDefinition(cols[k])
  }

  /** The MODIFY COLUMN statements one target table contributes. */
  lemma ModifyColumnFromTable(a: Schema, e: Table, t: string, d: string)
    ensures ModifyColumn(t, d) in TableAdditions(a, e) <==>
      var found := FindTable(a, e.0);
      found.Some? && t == a[found.value].0 && ChangedColumnClause(ColumnIndex(a[found.value].1), e.1, d)
  {
    TableCases(a, e, []);
    var found := FindTable(a, e.0);
    if found.Some? {
      var source := a[found.value];
      ModifyColumnExactly(source.0, ColumnIndex(source.1), e.1, t, d);
    }
  }

  /**
   * MODIFY COLUMN over the whole plan: it is emitted exactly when some target
   * table matches a source table case-insensitively and has a column that the
   * source table's lowered-name dictionary holds with a clause differing once
   * lowered; the statement names the source table as spelled in the source
   * and carries the target column's clause.
   */
  lemma ModifyColumnInPlan(a: Schema, b: Schema, t: string, d: string)
    ensures ModifyColumn(t, d) in DiffPlan(a, b) <==>
      exists j :: 0 <= j < |b| && (var found := FindTable(a, b[j].0);
        found.Some? && t == a[found.value].0 && ChangedColumnClause(ColumnIndex(a[found.value].1), b[j].1, d))
  {
    var st := ModifyColumn(t, d);
    assert st in DiffPlan(a, b) <==> st in Additions(a, b) by {
      assert st.IsAddition();
    }
    AdditionsMembers(a, b, st);
    forall j | 0 <= j < |b|
      ensures st in TableAdditions(a, b[j]) <==>
        var found := FindTable(a, b[j].0);
        found.Some? && t == a[found.value].0 && ChangedColumnClause(ColumnIndex(a[found.value].1), b[j].1, d)
    {
      ModifyColumnFromTable(a, b[j], t, d);
    }
  }

  /** The DROP COLUMN statements one source table contributes. */
  lemma DropColumnFromTable(e: Table, b: Schema, t: string, n: string)
    ensures DropColumn(t, n) in TableRemovals(e, b) <==>
      var found := FindTable(b, e.0);
      found.Some? && t == e.0 && Lower(n) !in ColumnNames(b[found.value].1)
      && exists k :: 0 <= k < |e.1| && e.1[k].name == n
  {
    TableCases([], e, b);
    var found := FindTable(b, e.0);
    if found.Some? {
      DropColumnExactly(e.0, ColumnNames(b[found.value].1), e.1, t, n);
    }
  }

  /**
   * DROP COLUMN over the whole plan: it is emitted exactly when a source
   * table matches a target table case-insensitively and has a column, named
   * `n` as spelled in the source, whose lowered name no column of that target
   * table has.
   */
  lemma DropColumnInPlan(a: Schema, b: Schema, t: string, n: string)
    ensures DropColumn(t, n) in DiffPlan(a, b) <==>
      exists i :: 0 <= i < |a| && (var found := FindTable(b, a[i].0);
        found.Some? && t == a[i].0 && Lower(n) !in ColumnNames(b[found.value].1)
        && exists k :: 0 <= k < |a[i].1| && a[i].1[k].name == n)
  {
    var st := DropColumn(t, n);
    assert st in DiffPlan(a, b) <==> st in Removals(a, b) by {
      assert !st.IsAddition();
    }
    RemovalsMembers(a, b, st);
    forall i | 0 <= i < |a|
      ensures st in TableRemovals(a[i], b) <==>
        var found := FindTable(b, a[i].0);
        found.Some? && t == a[i].0 && Lower(n) !in ColumnNames(b[found.value].1)
        && exists k :: 0 <= k < |a[i].1| && a[i].1[k].name == n
    {
      DropColumnFromTable(a[i], b, t, n);
    }
  }

  /** A matched table whose target columns all exist unchanged in the source yields no statement. */
  lemma {:induction false} NoColumnChanges(t: string, existing: map<string, Column>, cols: seq<Column>)
    requires forall k :: 0 <= k < |cols| ==>
      Lower(cols[k].name) in existing && Equivalent(existing[Lower(cols[k].name)], cols[k])
    ensures ColumnChanges(t, existing, cols) == []
  {
    if cols != [] {
      NoColumnChanges(t, existing, cols[..|cols| - 1]);
    }
  }

  /**
   * In a matched table, DROP COLUMN is emitted, under the source table's
   * name, for exactly the source columns whose lowered name is not among the
   * target table's lowered column names.
   */
  lemma {:induction false} DropColumnExactly(t: string, names: set<string>, cols: seq<Column>, t': string, n: string)
    ensures DropColumn(t', n) in ColumnDrops(t, names, cols) <==>
      t' == t && Lower(n) !in names && exists k :: 0 <= k < |cols| && cols[k].name == n
  {
    if cols != [] {
      var cols' := cols[..|cols| - 1];
      DropColumnExactly(t, names, cols', t', n);
      assert forall k :: 0 <= k < |cols'| ==> cols'[k] == cols[k];
    }
  }

  /** A source table whose columns all exist in the target yields no DROP COLUMN. */
  lemma {:induction false} NoColumnDrops(t: string, names: set<string>, cols: seq<Column>)
    requires forall k :: 0 <= k < |cols| ==> Lower(cols[k].name) in names
    ensures ColumnDrops(t, names, cols) == []
  {
    if cols != [] {
      NoColumnDrops(t, names, cols[..|cols| - 1]);
    }
  }

  /**
   * Every ALTER of the first pass names a source table, spelled as in the
   * source, that is the case-insensitive match of some target table.
   */
  lemma AltersUseSourceSpelling(a: Schema, b: Schema, st: Statement)
    requires st in Additions(a, b) && !st.CreateTable?
    ensures exists i :: (0 <= i < |b| && FindTable(a, b[i].0).Some?
      && st.table == a[FindTable(a, b[i].0).value].0)
  {
    AdditionsMembers(a, b, st);
  }

  /** Every DROP COLUMN names a source table, spelled as in the source, that has a match in the target. */
  lemma DropColumnsUseSourceSpelling(a: Schema, b: Schema, st: Statement)
    requires st in Removals(a, b) && st.DropColumn?
    ensures exists i :: 0 <= i < |a| && FindTable(b, a[i].0).Some? && st.table == a[i].0
  {
    RemovalsMembers(a, b, st);
  }

  /** With case-unique names, a table's own columns index to themselves. */
  lemma SelfColumnsUnchanged(t: string, cols: seq<Column>)
    requires CaseUniqueColumns(cols)
    ensures ColumnChanges(t, ColumnIndex(cols), cols) == []
    ensures ColumnDrops(t, ColumnNames(cols), cols) == []
  {
    var index := ColumnIndex(cols);
    forall k | 0 <= k < |cols|
      ensures Lower(cols[k].name) in index && Equivalent(index[Lower(cols[k].name)], cols[k])
    {
      var last := LastColumn(cols, Lower(cols[k].name));
      assert last.Some? && last.value == k;
    }
    NoColumnChanges(t, index, cols);
    forall k | 0 <= k < |cols| ensures Lower(cols[k].name) in ColumnNames(cols) {
      assert cols[k] in cols;
    }
    NoColumnDrops(t, ColumnNames(cols), cols);
  }

  /** With case-unique table names, a table of `s` matches itself. */
  lemma SelfMatch(s: Schema, i: nat)
    requires CaseUniqueTables(s) && i < |s|
    ensures FindTable(s, s[i].0) == Some(i)
  {
  }

  predicate CaseUnique(s: Schema) {
    CaseUniqueTables(s) && forall i :: 0 <= i < |s| ==> CaseUniqueColumns(s[i].1)
  }

  lemma {:induction false} SelfAdditionsEmpty(s: Schema, n: nat)
    requires CaseUnique(s) && n <= |s|
    ensures Additions(s, s[..n]) == []
  {
    if n > 0 {
      assert s[..n][..n - 1] == s[..n - 1];
      SelfAdditionsEmpty(s, n - 1);
      SelfMatch(s, n - 1);
      SelfColumnsUnchanged(s[n - 1].0, s[n - 1].1);
    }
  }

  lemma {:induction false} SelfRemovalsEmpty(s: Schema, n: nat)
    requires CaseUnique(s) && n <= |s|
    ensures Removals(s[..n], s) == []
  {
    if n > 0 {
      assert s[..n][..n - 1] == s[..n - 1];
      SelfRemovalsEmpty(s, n - 1);
      SelfMatch(s, n - 1);
      SelfColumnsUnchanged(s[n - 1].0, s[n - 1].1);
    }
  }

  /**
   * Reflexivity: when table names, and the column names of each table, are
   * unique with case ignored, diffing a schema against itself yields only the
   * transaction markers.
   */
  lemma DiffReflexive(s: Schema)
    requires CaseUnique(s)
    ensures Diff(s, s) == ["START TRANSACTION;", "COMMIT;"]
  {
    SelfAdditionsEmpty(s, |s|);
    SelfRemovalsEmpty(s, |s|);
    assert s[..|s|] == s;
  }

  /**
   * A table matched under another spelling is neither created nor dropped:
   * `Customer` in the source and `customer` in the target.
   */
  lemma CaseOnlyRenameMatches(a: Schema, b: Schema, i: int, j: int)
    requires 0 <= i < |a| && 0 <= j < |b| && Lower(a[i].0) == Lower(b[j].0)
    ensures forall defs :: CreateTable(b[j].0, defs) !in DiffPlan(a, b)
    ensures DropTable(a[i].0) !in DiffPlan(a, b)
  {
    forall defs ensures CreateTable(b[j].0, defs) !in DiffPlan(a, b) {
      CreateTableExactly(a, b, b[j].0, defs);
    }
    DropTableExactly(a, b, a[i].0);
  }

  /** The index of two columns with distinct lowered names. */
  lemma TwoColumnIndex(x: Column, y: Column, other: string)
    requires Lower(x.name) != Lower(y.name) && Lower(other) != Lower(x.name) && Lower(other) != Lower(y.name)
    ensures var index := ColumnIndex([x, y]);
      Lower(x.name) in index && index[Lower(x.name)] == x && Lower(y.name) in index && index[Lower(y.name)] == y
      && Lower(other) !in index
  {
    assert LastColumn([x, y], Lower(x.name)) == Some(0);
    assert LastColumn([x, y], Lower(y.name)) == Some(1);
    assert LastColumn([x, y], Lower(other)) == None;
  }

  /** The column pass of ModifyThenAddScenario. */
  lemma ScenarioColumnChanges(t: string, id: Column, name: Column, name': Column, email: Column)
    requires Lower(id.name) != Lower(name.name) && Lower(name'.name) == Lower(name.name)
    requires Lower(email.name) != Lower(id.name) && Lower(email.name) != Lower(name.name)
    requires !Equivalent(name, name')
    ensures ColumnChanges(t, ColumnIndex([id, name]), [id, name', email]) ==
      [ModifyColumn(t, ColumnDefinition(name')), AddColumn(t, ColumnDefinition(email))]
  {
    var index := ColumnIndex([id, name]);
    TwoColumnIndex(id, name, email.name);
    var cols := [id, name', email];
    ColumnChangeCases(t, index, id);
    ColumnChangeCases(t, index, name');
    ColumnChangeCases(t, index, email);
    assert cols[..2] == [id, name'] && cols[..2][..1] == [id] && [id][..0] == [];
    assert ColumnChanges(t, index, [id]) == [];
    assert ColumnChanges(t, index, [id, name']) == [ModifyColumn(t, ColumnDefinition(name'))];
  }

  /** The drop pass of ModifyThenAddScenario finds nothing to drop. */
  lemma ScenarioColumnDrops(t: string, id: Column, name: Column, name': Column, email: Column)
    requires Lower(name'.name) == Lower(name.name)
    ensures ColumnDrops(t, ColumnNames([id, name', email]), [id, name]) == []
  {
    var names := ColumnNames([id, name', email]);
    assert id in [id, name', email] && name' in [id, name', email];
    assert Lower(id.name) in names && Lower(name.name) in names;
    assert [id, name][..1] == [id] && [id][..0] == [];
  }

  /**
   * One matched table whose second column changed and which gained a third:
   * one MODIFY COLUMN for the changed column, then one ADD COLUMN for the new
   * one, and nothing else.
   */
  lemma ModifyThenAddScenario(t: string, id: Column, name: Column, name': Column, email: Column)
    requires Lower(id.name) != Lower(name.name) && Lower(name'.name) == Lower(name.name)
    requires Lower(email.name) != Lower(id.name) && Lower(email.name) != Lower(name.name)
    requires !Equivalent(name, name')
    ensures DiffPlan([(t, [id, name])], [(t, [id, name', email])]) ==
      [ModifyColumn(t, ColumnDefinition(name')), AddColumn(t, ColumnDefinition(email))]
  {
    var a, b := [(t, [id, name])], [(t, [id, name', email])];
    assert FindTable(a, t) == Some(0) && FindTable(b, t) == Some(0);
    ScenarioColumnChanges(t, id, name, name', email);
    ScenarioColumnDrops(t, id, name, name', email);
    assert Additions(a, b) == Additions(a, []) + TableAdditions(a, b[0]);
    assert Removals(a, b) == Removals([], b) + TableRemovals(a[0], b);
  }
}
