# MySQL schema updater — a Dafny model of the diff engine

The updater compares two MySQL schemas: the source `schema_a` and the target
`schema_b`. It then writes the SQL script that brings the source in line with the
target. Each schema is a snapshot read from `INFORMATION_SCHEMA.COLUMNS`. A
snapshot is an insertion-ordered dictionary from table name to the list of the
table's column records `{name, type, key, is_nullable, default}`.

The model covers the pure core of `main.py`:

- quoting of identifiers (`enclose_identifier`) and of default values
  (`format_default_value`);
- rendering of a column clause (`format_column_definition`);
- the rename heuristic (`generate_rename_statements`). A source table `xtable`
  whose stem `x` is a target table is renamed to `x`;
- the loop of `main` that parses each rename statement back and re-keys the
  source snapshot (`schema_a[new] = schema_a.pop(old)`);
- the diff itself (`compare_and_generate_sql`). It emits `START TRANSACTION;`,
  then CREATE TABLE / ADD COLUMN / MODIFY COLUMN over the target, then DROP
  TABLE / DROP COLUMN over the source, then `COMMIT;`.

Behaviours of `main.py` that the model keeps as written:

- every default other than `NULL` and `CURRENT_TIMESTAMP`, numeric text
  included, is wrapped in single quotes, so `0` becomes `'0'` (main.py:70-72);
- the rename heuristic looks the stem up in the target with an exact,
  case-sensitive key test (main.py:52);
- nothing checks that the stem is absent from the source, so re-keying can
  overwrite a source table of that name (main.py:147);
- the transaction opens with `START TRANSACTION;` (main.py:83).

A snapshot is a `seq<(string, seq<Column>)>`, so the dictionary order is
kept. A missing default (SQL NULL, Python `None`) is `None`. Python's
`lower()`/`upper()` are modelled as ASCII case mappings.

Each loop of the source is a method. Each method is proved equal to a
specification function:

- `CompareAndGenerateSql` equals `Differ.Diff`;
- `GenerateRenameStatements` equals `Renames.RenameStatements`;
- `ApplyRenames` equals `Renames.ApplyRenamesSpec`;
- `FormatColumnDefinition` equals `Formatter.ColumnDefinition`.

The properties are lemmas about those functions. `Differ.Diff` renders a plan of
`Statement` values (`DiffPlan`), one per emitted line, through `Render`, which
gives the exact text the source appends.

Files:

- `text.dfy`: Option/Result and the string operations used (`lower`, `upper`,
  `endswith`, `join`, `split`, `rstrip`);
- `schema.dfy`: the snapshot, key lookup, case-insensitive table matching and
  the lowercase column index;
- `formatter.dfy`: identifier, default and column rendering;
- `differ.dfy`: the diff;
- `diff_properties.dfy`: what the diff promises;
- `renames.dfy`: rename generation, parsing and re-keying;
- `update_script.dfy`: the list of lines `main` writes.

## Model

| member | source | states |
|---|---|---|
| Formatter.EncloseIdentifier | main.py:44-46 | the result is the name, unchanged, between two backticks |
| Formatter.FormatDefaultValue | main.py:68-78 | the default is returned unchanged exactly when it is `NULL` or `CURRENT_TIMESTAMP` in any case; otherwise it is wrapped in single quotes verbatim; the raw text is always recoverable |
| Formatter.IsKeywordDefault | main.py:70-73 | the keyword test: the default upper-cased is `NULL` or `CURRENT_TIMESTAMP`; FormatDefaultValue's contract states that exactly these are left unquoted |
| Formatter.FormatDefaultValueInjective | main.py:68-78 | two defaults that render alike are equal |
| Formatter.DefaultQuotingScenario | main.py:70-75 | numeric text `0` is quoted as `'0'`, plain text is quoted, `current_timestamp` is kept bare and in its own case |
| Formatter.ColumnDefinition | main.py:57-66 | the clause starts with `` `name` type `` and is exactly that head when the column is nullable |
| Formatter.HasDefaultClause | main.py:60-62 | the guard of the DEFAULT clause: NOT NULL, a default present and not `NULL` in any case; ColumnDefinitionClauses states that the clause appears exactly then |
| Formatter.Equivalent | main.py:107-108 | the change test: the two columns' clauses are equal once lowered |
| Formatter.FormatColumnDefinition | main.py:57-66 | the `+=`-built clause equals `ColumnDefinition` |
| Formatter.ColumnDefinitionClauses | main.py:57-66 | the clause starts with `` `name` type ``; ` NOT NULL` follows exactly when `is_nullable == 'NO'`; DEFAULT appears only for NOT NULL columns whose default is present and not `NULL` |
| Formatter.KeyNotCompared | main.py:57-66 | the key marker is never rendered, so it never makes two columns differ |
| Formatter.NullableDefaultNotCompared | main.py:60-64 | the default of a nullable column is never rendered, so changing it never makes two columns differ |
| Formatter.DefaultChangeRendered | main.py:62-64 | two NOT NULL columns that differ only in a non-NULL default render differently, as text |
| Formatter.LowerFormatDefault | main.py:68-78 | lowering the rendered default still determines the lowered raw default |
| Formatter.DefaultChangeDetected | main.py:62-64 | the change test of main.py:108 sees a new non-NULL default of a NOT NULL column when the two defaults differ other than in case |
| Formatter.DefaultCaseChangeIgnored | main.py:107-108 | a default changed only in case (`'active'` to `'Active'`) is not seen by the change test, so no MODIFY is emitted for it |
| Schemas.HasKey | main.py:52 | `k in schema_b`: some entry carries exactly that key (KeyIndex finds the first) |
| Schemas.ColumnNames | main.py:121 | the set of the source table's lowered column names; it has the same members as the keys of the lowercase column dictionary (DiffProperties.IndexKeysAreNames) |
| Schemas.KeyIndex | main.py:52 | `k in schema`: an exact-key position is found exactly when the key is present, and it is the first such position |
| Schemas.FindTable | main.py:88 | `next(...)`: the first table whose name matches when case is ignored, or none when no table matches |
| Schemas.ColumnIndex | main.py:96 | the lowercase column dictionary has exactly the lowered names as keys; each maps to the last column carrying that lowered name |
| Schemas.LastColumn | main.py:96 | the position of the last column carrying a lowered name, or none when no column carries it |
| Text.FindFrom | main.py:145-146 | `str.find`: the first occurrence of the separator at or after the start, or none when there is no occurrence |
| Text.Split | main.py:145-146 | `str.split` with a non-empty separator yields at least one piece, no piece contains the separator, and joining the pieces with the separator gives back the input; there is one piece exactly when the separator is absent; the first piece ends at the first occurrence; the second ends at the first occurrence in what follows the first separator, or is the last piece when there is none; the pieces after the first are the split of that remainder |
| Text.FindFromSuffix | main.py:145-146 | searching the text that follows a cut finds the same occurrence as searching the whole text from the cut, shifted by the cut, and finds none exactly when that does; so each cut `Split` states relative to the remainder is also an absolute position in the input |
| Text.Lower | main.py:88-123 | `str.lower()`, character by character; the case-insensitive comparisons of main.py:88, 96, 98, 108, 114, 121 and 123 go through it (lemmas LowerConcat, SameLowerSameUpper) |
| Text.Upper | main.py:62-73 | `str.upper()`, character by character; strings equal up to lowering are equal up to upper-casing (lemma SameLowerSameUpper) |
| Text.EndsWith | main.py:52 | `str.endswith`: the suffix is at most as long as the text and is its tail (used by Renames.Stem's contract) |
| Text.Join | main.py:92 | `', '.join(...)`: pieces interleaved with the separator, the inverse of Split (Text.Split's contract) |
| Text.RStrip | main.py:145 | `rstrip`: the result is a prefix of the input that does not end in a stripped character, and only stripped characters were removed |
| Differ.Render | main.py:93-125 | the exact text of each statement: `CREATE TABLE`, `ALTER TABLE ... ADD COLUMN` / `MODIFY COLUMN` / `DROP COLUMN` (main.py:103,110,125) and `DROP TABLE` (main.py:118), identifiers in backticks |
| Differ.ColumnChange | main.py:98-110 | one target column of a matched table contributes ADD when its lowered name is absent, MODIFY when the lowered clauses differ, and nothing otherwise (stated by DiffProperties.ColumnChangeCases) |
| Differ.TableAdditions | main.py:88-110 | one target table contributes CREATE when no source table matches, else its column changes against the matched source entry (stated by DiffProperties.TableCases) |
| Differ.TableRemovals | main.py:114-125 | one source table contributes DROP TABLE when no target table matches, else its column drops (stated by DiffProperties.TableCases) |
| Differ.ColumnChanges | main.py:97-110 | a matched table's column loop emits at most one statement per target column, each an ADD or MODIFY on the source table's name |
| Differ.Additions | main.py:86-110 | the target pass emits only CREATE, ADD and MODIFY statements |
| Differ.ColumnDrops | main.py:122-125 | a matched table's drop loop emits at most one statement per source column, each a DROP COLUMN on that table |
| Differ.Removals | main.py:113-125 | the source pass emits only DROP TABLE and DROP COLUMN statements |
| Differ.DiffPlan | main.py:86-125 | the statements of the target pass followed by those of the source pass; what is in it is stated by DiffProperties.CreateTableExactly, DropTableExactly, AddColumnInPlan, ModifyColumnInPlan and DropColumnInPlan |
| Differ.Diff | main.py:83 | the output has at least two lines; the first is `START TRANSACTION;` and the last is `COMMIT;` |
| Differ.FormatColumnDefinitions | main.py:92 | the list comprehension renders every column in order |
| Differ.AppendColumnChange | main.py:98-110 | for one target column, appends ADD when the lowered name is absent, MODIFY when the lowered renderings differ, and nothing otherwise |
| Differ.AppendColumnChanges | main.py:97-110 | the column loop of a matched table appends the rendered ColumnChanges |
| Differ.AppendColumnDrops | main.py:121-125 | the column loop of the source pass appends the rendered ColumnDrops |
| Differ.AppendTableAdditions | main.py:88-110 | one target table yields a CREATE, or its ADD/MODIFY statements |
| Differ.AppendAdditions | main.py:86-110 | the target pass appends the rendered Additions, table by table in target order |
| Differ.AppendTableRemovals | main.py:114-125 | one source table yields a DROP TABLE, or its DROP COLUMN statements |
| Differ.AppendRemovals | main.py:113-125 | the source pass appends the rendered Removals, table by table in source order |
| Differ.CompareAndGenerateSql | main.py:81-128 | the statement list equals `Diff(schema_a, schema_b)` |
| DiffProperties.AdditionsBeforeRemovals | main.py:83-127 | the output is `START TRANSACTION;`, the rendered plan, then `COMMIT;`; every CREATE/ADD/MODIFY precedes every DROP |
| DiffProperties.ConcatMapMembers | main.py:86-125 | a statement of a pass comes from one of the items the pass iterates over (some item; two target tables matching one source table can emit the same statement twice) |
| DiffProperties.AdditionsMembers | main.py:86-110 | a statement of the target pass comes from one target table |
| DiffProperties.RemovalsMembers | main.py:113-125 | a statement of the source pass comes from one source table |
| DiffProperties.TableCases | main.py:90-93 | an unmatched target table yields only its CREATE; an unmatched source table yields only its DROP TABLE; a matched table yields neither |
| DiffProperties.CreateTableExactly | main.py:88-93 | CREATE TABLE (name, clauses) is emitted if and only if the name is a target table that has no case-insensitive source match; the clauses are its columns' renderings, in order |
| DiffProperties.DropTableCase | main.py:114-118 | one source table contributes DROP TABLE of a name exactly when it carries that name and has no target match |
| DiffProperties.DropTableExactly | main.py:114-118 | DROP TABLE is emitted if and only if the name is a source table that has no case-insensitive target match |
| DiffProperties.NoTableCreatedAndDropped | main.py:88-118 | no table is both created and dropped, not even under another spelling |
| DiffProperties.ColumnChangeCases | main.py:101-110 | unfolding helper for Differ.ColumnChange: one target column yields ADD when its lowered name is absent, MODIFY when the lowered renderings differ, and nothing when they agree |
| DiffProperties.ColumnChangesMembers | main.py:97-110 | a statement of a matched table's column loop comes from one target column |
| DiffProperties.AddColumnExactly | main.py:101-103 | ADD COLUMN (under the source table's name, with the target column's clause) is emitted if and only if a target column's lowered name is absent from the source table |
| DiffProperties.ModifyColumnExactly | main.py:104-110 | MODIFY COLUMN is emitted if and only if the target column exists in the source table and the lowered clauses differ; it carries the target's clause |
| DiffProperties.IndexKeysAreNames | main.py:96-121 | the lowered-name dictionary of main.py:96 and the lowered-name set of main.py:121 have the same keys |
| DiffProperties.AddColumnFromTable | main.py:88-103 | one target table contributes ADD COLUMN (t, d) exactly when it matches a source table spelled `t` and has a column with clause `d` whose lowered name that source table lacks |
| DiffProperties.AddColumnInPlan | main.py:86-103 | over the whole plan, ADD COLUMN (t, d) is emitted if and only if some target table matches a source table spelled `t` and has a column with clause `d` whose lowered name that source table lacks |
| DiffProperties.ModifyColumnFromTable | main.py:88-110 | one target table contributes MODIFY COLUMN (t, d) exactly when it matches a source table spelled `t` and has a column with clause `d` that the source table's lowered-name dictionary holds with a clause differing once lowered |
| DiffProperties.ModifyColumnInPlan | main.py:86-110 | over the whole plan, MODIFY COLUMN (t, d) is emitted if and only if some target table matches a source table spelled `t` and has a column with clause `d` whose lowered name that source table's dictionary holds with a clause differing once lowered |
| DiffProperties.DropColumnFromTable | main.py:114-125 | one source table contributes DROP COLUMN (t, n) exactly when it is spelled `t`, matches a target table and has a column `n` whose lowered name that target table lacks |
| DiffProperties.DropColumnInPlan | main.py:113-125 | over the whole plan, DROP COLUMN (t, n) is emitted if and only if a source table spelled `t` matches a target table and has a column `n` whose lowered name that target table lacks |
| DiffProperties.NoColumnChanges | main.py:97-110 | target columns that all exist unchanged yield no statement |
| DiffProperties.DropColumnExactly | main.py:121-125 | DROP COLUMN is emitted if and only if a source column's lowered name is not among the target table's lowered names; it keeps the source column's spelling |
| DiffProperties.NoColumnDrops | main.py:121-125 | source columns that all exist in the target yield no DROP COLUMN |
| DiffProperties.AltersUseSourceSpelling | main.py:101-110 | every ALTER of the target pass names the source table, spelled as in the source |
| DiffProperties.DropColumnsUseSourceSpelling | main.py:125 | every DROP COLUMN names a matched source table, spelled as in the source |
| DiffProperties.SelfColumnsUnchanged | main.py:96-125 | a table with case-unique column names compared with itself yields no column statement |
| DiffProperties.SelfMatch | main.py:88 | with case-unique table names, every table matches itself |
| DiffProperties.DiffReflexive | main.py:81-128 | diffing a case-unique schema against itself yields exactly `START TRANSACTION;`, `COMMIT;` |
| DiffProperties.CaseOnlyRenameMatches | main.py:88-118 | tables whose names differ only in case are neither created nor dropped |
| DiffProperties.ModifyThenAddScenario | main.py:97-110 | a matched table with one changed and one new column yields one MODIFY, then one ADD, and nothing else |
| Renames.RenameStatement | main.py:53 | the text `RENAME TABLE `old` TO `new`;`; Renames.ParseRenameRoundTrip parses it back to (old, new) |
| Renames.Stem | main.py:52 | `t[:-5]`: the name five characters shorter, a prefix of it; a name ending in `table` is its stem followed by `table` |
| Renames.IsRenameCandidate | main.py:52 | the guard: the name ends in `table` and its stem is an exact key of the target; Renames.RenameStatementsMembers states that exactly these tables are renamed |
| Renames.RenameStatements | main.py:48-54 | at most one statement per source table |
| Renames.RenameStatementsStep | main.py:51-53 | one more source table adds its own statement, if any, at the end |
| Renames.RenameStatementsAppend | main.py:51-53 | generation over two consecutive parts of the source is the generation over each, in order |
| Renames.GeneratedFromCandidate | main.py:51-53 | every generated statement renames a qualifying source table to its stem |
| Renames.CandidateGenerated | main.py:51-53 | every qualifying source table yields its statement |
| Renames.RenameStatementsMembers | main.py:51-53 | a statement is generated if and only if some source table ends in `table` and its stem is an exact target key; it renames that table to its stem |
| Renames.GenerateRenameStatements | main.py:48-54 | the loop returns RenameStatements: one statement per qualifying source table, in source order, at most one per source table |
| Renames.ParseRename | main.py:145-146 | the two splits and the rstrip: IndexError is the only failure and always happens when the separator is absent; a parsed old name holds no backtick and a parsed new name does not end in `;` or a backtick |
| Renames.ParseRenameRoundTrip | main.py:145-146 | for names without backticks, with a new name not ending in `;`, and an old name other than ` TO `, the two splits recover exactly (old, new) |
| Renames.Pop | main.py:147 | `pop` fails with KeyError(k) exactly when the key is missing; otherwise it returns the key's columns and one entry fewer |
| Renames.Put | main.py:147 | after assignment the key is present; the dictionary grows by one exactly when the key was new |
| Renames.RenameKey | main.py:147 | pop then assign: KeyError exactly when the old key is missing; otherwise the new key is present and the dictionary never grows |
| Renames.ApplyRenamesSpec | main.py:144-147 | the statements applied in order, stopping at the first exception; a successful run never adds tables |
| Renames.PopEffect | main.py:147 | `pop` raises KeyError exactly when the key is missing; otherwise it returns the key's columns and removes only that entry, keeping the order of the others |
| Renames.PutEffect | main.py:147 | assigning a key maps it to the value and leaves every other key alone; an existing key keeps its slot, a new key goes at the end |
| Renames.RenameKeyEffect | main.py:147 | KeyError exactly when the old key is missing; otherwise the old key is gone, the new key maps to the old key's columns and the other keys keep theirs; the new key is last unless it already existed, in which case it keeps its slot |
| Renames.ApplyRenames | main.py:144-147 | the loop equals ApplyRenamesSpec: statements are applied in order and the first exception stops it |
| Renames.RenameStep | main.py:145-147 | one generated statement parses back to its names and re-keys an existing table; the keys stay distinct and every other key survives |
| Renames.GeneratedRenamesApply | main.py:141-147 | generated statements apply without exception to a snapshot that holds every table they came from |
| Renames.RenamesApplyToSource | main.py:141-147 | the statements generated from a snapshot whose names are free of backticks and semicolons apply to it without exception |
| UpdateScript.Script | main.py:141-153 | the lines written: the rename statements, then the diff of the renamed source against the target, or the exception the rename loop raises |
| UpdateScript.ScriptOf | main.py:141-153 | unfolding helper for UpdateScript.Script: when the renames succeed, the script is the renames followed by the diff of the renamed source |
| UpdateScript.GenerateUpdateScript | main.py:141-153 | the written lines are the rename statements followed by the diff of the renamed source against the target |
| UpdateScript.ScriptShape | main.py:141-153 | for plain, distinct names the script exists, starts with the renames, then `START TRANSACTION;`, and ends with `COMMIT;` |
| UpdateScript.ScenarioRenames | main.py:48-54 | a lone `<t>table` source against a lone `<t>` target yields one rename statement, which re-keys the table to `<t>` |
| UpdateScript.ScenarioStatement | main.py:48-54 | `<t>table` qualifies against a target holding `<t>` and yields exactly one statement |
| UpdateScript.ScenarioApply | main.py:144-147 | applying that statement re-keys `<t>table` to `<t>` |
| UpdateScript.RenameScenario | main.py:141-153 | the same pair yields the rename statement followed by an empty transaction |

## Left out

- Connecting to MySQL, the `INFORMATION_SCHEMA` query and the cursor
  (main.py:4-40) are left out. The snapshots are inputs. Keys of a snapshot are
  distinct only where a lemma requires `UniqueKeys`, as a Python dict's are.
- Writing `update_script.sql` and closing the connections (main.py:152-157) are
  left out. `UpdateScript.Script` is the list of lines that would be written.
- The `isinstance(default, str)` test at main.py:70 is left out. Defaults are
  `Option<string>`, so a non-string default cannot occur.
- `lower()` and `upper()` are ASCII-only. Python maps the whole of Unicode.
- `schema_a[table_a]` at main.py:96 is an exact-key lookup. The model takes the
  entry at the position `FindTable` returns. That entry is the first one
  carrying the key, so the two agree.
- `FindFrom`, `Split` and `RStrip` model only the `str` methods the rename
  loop uses, for non-empty separators.
- Renames.ParseRenameRoundTrip: stated only for names without backticks, with
  a new name not ending in `;`, and an old name other than ` TO `. For other
  names the split at main.py:145-146 can recover different names; the model
  computes what the split does but proves no round trip.
