/**
 * Rendering of identifiers, default values and column-definition clauses
 * (`enclose_identifier`, `format_default_value`, `format_column_definition`).
 */
module Formatter {
  import opened Wrappers
  import opened Text
  import opened Schemas

  /** `` `identifier` ``: backticks around the name; nothing inside is escaped. */
  function EncloseIdentifier(identifier: string): (r: string)
    ensures |r| == |identifier| + 2 && r[0] == '`' && r[|r| - 1] == '`'
    ensures r[1..|r| - 1] == identifier
  {
    "`" + identifier + "`"
  }

  /** Defaults that are emitted bare: `NULL` and `CURRENT_TIMESTAMP`, in any case. */
  predicate IsKeywordDefault(d: string) {
    Upper(d) == "NULL" || Upper(d) == "CURRENT_TIMESTAMP"
  }

  /**
   * A keyword default is returned as it is; every other default, numeric text
   * included, is wrapped in single quotes verbatim (embedded quotes are not
   * escaped). The raw text can always be recovered with UnquoteDefault.
   */
  function FormatDefaultValue(d: string): (r: string)
    ensures r == d <==> IsKeywordDefault(d)
    ensures r == d || r == "'" + d + "'"
    ensures UnquoteDefault(r) == d
  {
    if !IsKeywordDefault(d) then "'" + d + "'"
    else
      // a keyword starts with a letter, never with a quote
      assert UpperChar(d[0]) == Upper(d)[0];
      d
  }

  /** Inverse of FormatDefaultValue: drops one pair of surrounding single quotes. */
  function UnquoteDefault(r: string): string {
    if 2 <= |r| && r[0] == '\'' && r[|r| - 1] == '\'' then r[1..|r| - 1] else r
  }

  /** Two raw defaults that render alike are the same default. */
  lemma FormatDefaultValueInjective(d1: string, d2: string)
    requires FormatDefaultValue(d1) == FormatDefaultValue(d2)
    ensures d1 == d2
  {
    assert UnquoteDefault(FormatDefaultValue(d1)) == d1;
  }

  /**
   * Numeric text is quoted like any other string; the keyword is kept bare
   * and in the case it was given.
   */
  lemma DefaultQuotingScenario()
    ensures FormatDefaultValue("0") == "'0'"
    ensures FormatDefaultValue("active") == "'active'"
    ensures FormatDefaultValue("current_timestamp") == "current_timestamp"
  {
    assert Upper("0") == "0";
    assert Upper("current_timestamp") == "CURRENT_TIMESTAMP";
  }

  /** `` `name` type ``, the part every rendering starts with. */
  function ColumnHead(c: Column): string {
    EncloseIdentifier(c.name) + " " + c.sqlType
  }

  /** The column is NOT NULL and carries a default other than `NULL` (any case). */
  predicate HasDefaultClause(c: Column) {
    c.isNullable == "NO" && c.default.Some? && Upper(c.default.value) != "NULL"
  }

  /** The rendered clause of a column; the differ compares these case-insensitively. */
  function ColumnDefinition(c: Column): (r: string)
    ensures ColumnHead(c) <= r
    ensures r == ColumnHead(c) <==> c.isNullable != "NO"
  {
    if c.isNullable != "NO" then ColumnHead(c)
    else if !HasDefaultClause(c) then ColumnHead(c) + " NOT NULL"
    else ColumnHead(c) + " NOT NULL" + " DEFAULT " + FormatDefaultValue(c.default.value)
  }

  /**
   * `format_column_definition`: start from the head and append the NOT NULL
   * and DEFAULT clauses. ` NOT NULL` follows the head exactly when
   * `is_nullable == 'NO'`; a DEFAULT clause follows only for NOT NULL columns
   * whose default is present and not `NULL`, so a nullable column never gets
   * one.
   */
  method FormatColumnDefinition(column: Column) returns (definition: string)
    ensures definition == ColumnDefinition(column)
  {
    definition := EncloseIdentifier(column.name) + " " + column.sqlType;
    if column.isNullable == "NO" {
      definition := definition + " NOT NULL";
      if column.default.Some? && Upper(column.default.value) != "NULL" {
        definition := definition + " DEFAULT " + FormatDefaultValue(column.default.value);
      }
    }
  }

  /**
   * The shape of a rendered clause: the head, then ` NOT NULL` exactly when
   * `is_nullable == 'NO'`, then a DEFAULT clause only for a NOT NULL column
   * whose default is present and not `NULL`; a nullable column never gets one.
   */
  lemma ColumnDefinitionClauses(c: Column)
    ensures c.isNullable == "NO" ==> ColumnHead(c) + " NOT NULL" <= ColumnDefinition(c)
    ensures !HasDefaultClause(c) ==>
      ColumnDefinition(c) == ColumnHead(c) || ColumnDefinition(c) == ColumnHead(c) + " NOT NULL"
    ensures HasDefaultClause(c) ==>
      ColumnDefinition(c) == ColumnHead(c) + " NOT NULL" + " DEFAULT " + FormatDefaultValue(c.default.value)
  {
  }

  /** The change test used by the differ: renderings equal up to case. */
  predicate Equivalent(a: Column, b: Column) {
    Lower(ColumnDefinition(a)) == Lower(ColumnDefinition(b))
  }

  /** The key marker is never rendered, so it never makes two columns differ. */
  lemma KeyNotCompared(c: Column, key: string)
    ensures Equivalent(c, c.(key := key))
  {
  }

  /**
   * The default of a nullable column is never rendered, so changing it (or
   * adding or removing it) never makes two columns differ.
   */
  lemma NullableDefaultNotCompared(c: Column, d: Option<string>)
    requires c.isNullable != "NO"
    ensures Equivalent(c, c.(default := d))
  {
  }

  /** Renderings of NOT NULL columns with different raw defaults differ (as text, case included). */
  lemma DefaultChangeRendered(a: Column, b: Column)
    requires a.(default := b.default) == b
    requires HasDefaultClause(a) && HasDefaultClause(b)
    requires a.default != b.default
    ensures ColumnDefinition(a) != ColumnDefinition(b)
  {
    var head := ColumnHead(b) + " NOT NULL" + " DEFAULT ";
    var x, y := FormatDefaultValue(a.default.value), FormatDefaultValue(b.default.value);
    assert x != y;
    assert (head + x)[|head|..] == x && (head + y)[|head|..] == y;
  }

  /** Lowering a rendered default still determines the lowered raw default. */
  lemma LowerFormatDefault(d: string)
    ensures UnquoteDefault(Lower(FormatDefaultValue(d))) == Lower(d)
  {
    if IsKeywordDefault(d) {
      // a keyword starts with n, N, c or C, so its lowered form starts with n or c
      assert UpperChar(d[0]) == Upper(d)[0];
      assert Lower(d)[0] == LowerChar(d[0]);
    } else {
      LowerConcat("'", d);
      LowerConcat("'" + d, "'");
    }
  }

  /**
   * The differ's change test sees a new default of a NOT NULL column exactly
   * when the two raw defaults differ other than in case.
   */
  lemma DefaultChangeDetected(a: Column, b: Column)
    requires a.(default := b.default) == b
    requires HasDefaultClause(a) && HasDefaultClause(b)
    requires Lower(a.default.value) != Lower(b.default.value)
    ensures !Equivalent(a, b)
  {
    var head := ColumnHead(b) + " NOT NULL" + " DEFAULT ";
    var x, y := FormatDefaultValue(a.default.value), FormatDefaultValue(b.default.value);
    LowerFormatDefault(a.default.value);
    LowerFormatDefault(b.default.value);
    assert Lower(x) != Lower(y);
    LowerConcat(head, x);
    LowerConcat(head, y);
    assert (Lower(head) + Lower(x))[|Lower(head)|..] == Lower(x);
    assert (Lower(head) + Lower(y))[|Lower(head)|..] == Lower(y);
  }

  /** A default changed only in case (`'active'` to `'Active'`) is not seen by the change test. */
  lemma DefaultCaseChangeIgnored(a: Column, b: Column)
    requires a.(default := b.default) == b
    requires a.default.Some? && b.default.Some?
    requires Lower(a.default.value) == Lower(b.default.value)
    ensures Equivalent(a, b)
  {
    var da, db := a.default.value, b.default.value;
    SameLowerSameUpper(da, db);
    assert HasDefaultClause(a) <==> HasDefaultClause(b);
    if HasDefaultClause(a) {
      var head := ColumnHead(b) + " NOT NULL" + " DEFAULT ";
      var x, y := FormatDefaultValue(da), FormatDefaultValue(db);
      if !IsKeywordDefault(da) {
        LowerConcat("'", da);
        LowerConcat("'" + da, "'");
        LowerConcat("'", db);
        LowerConcat("'" + db, "'");
      }
      assert Lower(x) == Lower(y);
      LowerConcat(head, x);
      LowerConcat(head, y);
    }
  }
}
