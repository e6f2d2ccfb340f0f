/**
 * Table renames: `generate_rename_statements`, which proposes
 * `RENAME TABLE `xtable` TO `x`;` for every source table `xtable` whose
 * name minus the `table` suffix is a target table, and the loop of `main`
 * that parses each such statement back and renames the key of the source
 * snapshot (`schema_a[new] = schema_a.pop(old)`) before the diff runs.
 */
module Renames {
  import opened Wrappers
  import opened Text
  import opened Schemas
  import opened Formatter

  /** `RENAME TABLE `old` TO `new`;` */
  function RenameStatement(oldName: string, newName: string): string {
    "RENAME TABLE " + EncloseIdentifier(oldName) + " TO " + EncloseIdentifier(newName) + ";"
  }

  /** `t[:-5]`, the name without its `table` suffix. */
  function Stem(t: string): (r: string)
    requires |t| >= 5
    ensures |r| == |t| - 5 && r <= t
    ensures EndsWith(t, "table") ==> t == r + "table"
  {
    t[..|t| - 5]
  }

  /** `t.endswith("table") and t[:-5] in schema_b` (exact, case-sensitive key lookup). */
  predicate IsRenameCandidate(t: string, b: Schema) {
    EndsWith(t, "table") && HasKey(b, Stem(t))
  }

  /** The statement one source table contributes, if any. */
  function TableRename(t: string, b: Schema): seq<string> {
    if IsRenameCandidate(t, b) then [RenameStatement(t, Stem(t))] else []
  }

  /** The rename statements, in the order of the source tables. */
  function RenameStatements(a: Schema, b: Schema): (r: seq<string>)
    ensures |r| <= |a|
  {
    if a == [] then [] else TableRename(a[0].0, b) + RenameStatements(a[1..], b)
  }

  /** Generating over two consecutive parts of the source is generating over each, in order. */
  lemma {:induction false} RenameStatementsAppend(a1: Schema, a2: Schema, b: Schema)
    ensures RenameStatements(a1 + a2, b) == RenameStatements(a1, b) + RenameStatements(a2, b)
  {
    if a1 != [] {
      assert (a1 + a2)[1..] == a1[1..] + a2;
      RenameStatementsAppend(a1[1..], a2, b);
    } else {
      assert a1 + a2 == a2;
    }
  }

  /** One more source table contributes its own statement, if any, at the end. */
  lemma RenameStatementsStep(a: Schema, i: int, b: Schema)
    requires 0 <= i < |a|
    ensures RenameStatements(a[..i + 1], b) == RenameStatements(a[..i], b) + TableRename(a[i].0, b)
  {
    assert a[..i + 1] == a[..i] + [a[i]];
    RenameStatementsAppend(a[..i], [a[i]], b);
    assert RenameStatements([a[i]], b) == TableRename(a[i].0, b) + RenameStatements([], b);
  }

  /** Every generated statement comes from a source table that qualifies. */
  lemma {:induction false} GeneratedFromCandidate(a: Schema, b: Schema, stmt: string)
    requires stmt in RenameStatements(a, b)
    ensures exists i :: 0 <= i < |a| && IsRenameCandidate(a[i].0, b) && stmt == RenameStatement(a[i].0, Stem(a[i].0))
  {
    if stmt in RenameStatements(a[1..], b) {
      GeneratedFromCandidate(a[1..], b, stmt);
      var i :| 0 <= i < |a[1..]| && IsRenameCandidate(a[1..][i].0, b)
        && stmt == RenameStatement(a[1..][i].0, Stem(a[1..][i].0));
      assert a[i + 1] == a[1..][i];
    } else {
      assert stmt in TableRename(a[0].0, b);
    }
  }

  /** Every qualifying source table yields its statement. */
  lemma CandidateGenerated(a: Schema, b: Schema, i: int)
    requires 0 <= i < |a| && IsRenameCandidate(a[i].0, b)
    ensures RenameStatement(a[i].0, Stem(a[i].0)) in RenameStatements(a, b)
  {
    var tail := a[i..];
    assert a == a[..i] + tail;
    RenameStatementsAppend(a[..i], tail, b);
    assert tail[0] == a[i];
    assert RenameStatements(tail, b) == TableRename(a[i].0, b) + RenameStatements(tail[1..], b);
  }

  /**
   * A statement is generated exactly when some source table ends in `table`
   * and its stem is a key of the target; it renames that table to its stem.
   */
  lemma RenameStatementsMembers(a: Schema, b: Schema, stmt: string)
    ensures stmt in RenameStatements(a, b) <==>
      exists i :: 0 <= i < |a| && IsRenameCandidate(a[i].0, b) && stmt == RenameStatement(a[i].0, Stem(a[i].0))
  {
    if stmt in RenameStatements(a, b) {
      GeneratedFromCandidate(a, b, stmt);
    }
    if i :| 0 <= i < |a| && IsRenameCandidate(a[i].0, b) && stmt == RenameStatement(a[i].0, Stem(a[i].0)) {
      CandidateGenerated(a, b, i);
    }
  }

  /** `generate_rename_statements`: one pass over the source tables. */
  method GenerateRenameStatements(schemaA: Schema, schemaB: Schema) returns (renameStatements: seq<string>)
    ensures renameStatements == RenameStatements(schemaA, schemaB)
  {
    renameStatements := [];
    for i := 0 to |schemaA|
      invariant renameStatements == RenameStatements(schemaA[..i], schemaB)
    {
      var tableA := schemaA[i].0;
      RenameStatementsStep(schemaA, i, schemaB);
      if EndsWith(tableA, "table") && HasKey(schemaB, tableA[..|tableA| - 5]) {
        renameStatements := renameStatements + [RenameStatement(tableA, tableA[..|tableA| - 5])];
      }
    }
    assert schemaA[..|schemaA|] == schemaA;
  }

  /** The Python exception the rename loop can raise. */
  datatype RenameError =
    | IndexError          // the statement does not split into the expected pieces
    | KeyError(key: string) // the parsed old name is not a key of the source snapshot

  /** The separator the loop splits a statement on. */
  const Separator := "` TO `"

  /**
   * `new = stmt.split("` TO `")[1].rstrip(";`")` and
   * `old = stmt.split("` TO `")[0].split("`")[1]`, in that order.
   */
  function ParseRename(stmt: string): (r: Result<(string, string), RenameError>)
    ensures r.Err? ==> r.error == IndexError
    ensures (forall j :: !OccursAt(stmt, Separator, j)) ==> r == Err(IndexError)
    ensures r.Ok? ==> '`' !in r.value.0
    ensures r.Ok? ==> r.value.1 == "" || r.value.1[|r.value.1| - 1] !in {';', '`'}
  {
    var pieces := Split(stmt, Separator);
    if |pieces| < 2 then Err(IndexError)
    else
      var newName := RStrip(pieces[1], {';', '`'});
      var quoted := Split(pieces[0], "`");
      if |quoted| < 2 then Err(IndexError)
      else
        NoBacktick(quoted[1]);
        Ok((quoted[1], newName))
  }

  /** A piece that holds no occurrence of "`" holds no backtick. */
  lemma NoBacktick(p: string)
    requires forall j :: !OccursAt(p, "`", j)
    ensures '`' !in p
  {
    forall j | 0 <= j < |p| ensures p[j] != '`' {
      assert !OccursAt(p, "`", j);
      assert p[j..j + 1] == [p[j]];
    }
  }

  /** The first occurrence of `sep`, established from where it is and where it is not. */
  lemma FirstOccurrence(s: string, sep: string, i: nat)
    requires OccursAt(s, sep, i)
    requires forall j :: 0 <= j < i ==> !OccursAt(s, sep, j)
    ensures FindFrom(s, sep, 0) == Some(i)
  {
  }

  /** `sep`, which starts with a backtick, does not occur where no backtick is. */
  lemma NoSeparatorWithoutBacktick(s: string, j: int)
    requires 0 <= j < |s| && s[j] != '`'
    ensures !OccursAt(s, Separator, j)
  {
  }

  /** The prefix `RENAME TABLE `old` does not contain the separator when `old` is free of backticks. */
  lemma HeadHasNoSeparator(s: string, oldName: string, j: int)
    requires '`' !in oldName && oldName != " TO "
    requires "RENAME TABLE `" + oldName + Separator <= s
    requires 0 <= j < 14 + |oldName|
    ensures !OccursAt(s, Separator, j)
  {
    var head := "RENAME TABLE `" + oldName + Separator;
    assert s[..|head|] == head;
    if j < 13 {
      assert s[j] == head[j];
      NoSeparatorWithoutBacktick(s, j);
    } else if j > 13 {
      assert s[j] == oldName[j - 14];
      NoSeparatorWithoutBacktick(s, j);
    } else if |oldName| >= 5 {
      assert s[18] == oldName[4];
    } else if |oldName| < 4 {
      assert s[14 + |oldName|] == '`';
    } else {
      assert s[14..18] == oldName && s[j..j + 6][1..5] == s[14..18];
    }
  }

  /** Splitting a rename statement on the separator gives the head and the tail. */
  lemma SeparatorSplit(oldName: string, newName: string)
    requires '`' !in oldName && '`' !in newName && oldName != " TO "
    ensures Split(RenameStatement(oldName, newName), Separator) == ["RENAME TABLE `" + oldName, newName + "`;"]
  {
    var s := RenameStatement(oldName, newName);
    var i := 14 + |oldName|;
    var head, rest := "RENAME TABLE `" + oldName, newName + "`;";
    assert s == head + Separator + rest;
    assert s[..i] == head && s[i + 6..] == rest;
    forall j | 0 <= j < i ensures !OccursAt(s, Separator, j) {
      HeadHasNoSeparator(s, oldName, j);
    }
    FirstOccurrence(s, Separator, i);
    forall j | 0 <= j ensures !OccursAt(rest, Separator, j) {
      if j < |newName| {
        NoSeparatorWithoutBacktick(rest, j);
      }
    }
    SplitOnce(s, Separator, i);
  }

  /** `(n + "`;").rstrip(";`")` is `n` when `n` does not end in one of the two. */
  lemma StripTail(newName: string)
    requires '`' !in newName
    requires newName == "" || newName[|newName| - 1] != ';'
    ensures RStrip(newName + "`;", {';', '`'}) == newName
  {
    var rest := newName + "`;";
    assert rest[..|rest| - 1] == newName + "`" && (newName + "`")[..|newName|] == newName;
  }

  /** `"RENAME TABLE `old".split("`")` is `["RENAME TABLE ", old]` when `old` has no backtick. */
  lemma HeadSplit(oldName: string)
    requires '`' !in oldName
    ensures Split("RENAME TABLE `" + oldName, "`") == ["RENAME TABLE ", oldName]
  {
    var head := "RENAME TABLE `" + oldName;
    forall j | 0 <= j < 13 ensures !OccursAt(head, "`", j) {
      assert head[j..j + 1][0] == head[j];
    }
    assert head[13..14] == "`";
    FirstOccurrence(head, "`", 13);
    assert head[..13] == "RENAME TABLE " && head[14..] == oldName;
    forall j | 0 <= j ensures !OccursAt(oldName, "`", j) {
      if j < |oldName| {
        assert oldName[j..j + 1][0] == oldName[j];
      }
    }
    SplitOnce(head, "`", 13);
  }

  /**
   * Round trip: parsing a rename statement gives back the two names, provided
   * neither contains a backtick, the new name does not end in `;` (rstrip
   * would eat it) and the old name is not ` TO ` itself (which would make the
   * separator occur early).
   */
  lemma ParseRenameRoundTrip(oldName: string, newName: string)
    requires '`' !in oldName && '`' !in newName
    requires newName == "" || newName[|newName| - 1] != ';'
    requires oldName != " TO "
    ensures ParseRename(RenameStatement(oldName, newName)) == Ok((oldName, newName))
  {
    SeparatorSplit(oldName, newName);
    StripTail(newName);
    HeadSplit(oldName);
  }

  /** `schema[k]` for a key that is present (the first entry carrying it). */
  function Get(s: Schema, k: string): seq<Column>
    requires HasKey(s, k)
  {
    s[KeyIndex(s, k).value].1
  }

  /** The keys, in dictionary order. */
  function Keys(s: Schema): seq<string> {
    seq(|s|, i requires 0 <= i < |s| => s[i].0)
  }

  /** With distinct keys, looking up the key of an entry finds that entry. */
  lemma EntryAt(s: Schema, j: int)
    requires UniqueKeys(s) && 0 <= j < |s|
    ensures KeyIndex(s, s[j].0) == Some(j)
  {
  }

  /** `s.pop(k)`: the value and the dictionary without the entry, or KeyError. */
  function Pop(s: Schema, k: string): (r: Result<(seq<Column>, Schema), RenameError>)
    ensures r.Err? <==> !HasKey(s, k)
    ensures r.Err? ==> r.error == KeyError(k)
    ensures r.Ok? ==> r.value.0 == Get(s, k) && |r.value.1| == |s| - 1
  {
    match KeyIndex(s, k)
    case None => Err(KeyError(k))
    case Some(i) => Ok((s[i].1, s[..i] + s[i + 1..]))
  }

  /** `s[k] = v`: replace the value in place when `k` is a key, append a new entry otherwise. */
  function Put(s: Schema, k: string, v: seq<Column>): (r: Schema)
    ensures HasKey(r, k)
    ensures |r| == if HasKey(s, k) then |s| else |s| + 1
  {
    match KeyIndex(s, k)
    case None => assert (s + [(k, v)])[|s|].0 == k; s + [(k, v)]
    case Some(i) => assert s[i := (k, v)][i].0 == k; s[i := (k, v)]
  }

  /** `s[newName] = s.pop(oldName)`: the pop happens first. */
  function RenameKey(s: Schema, oldName: string, newName: string): (r: Result<Schema, RenameError>)
    ensures r.Err? <==> !HasKey(s, oldName)
    ensures r.Ok? ==> HasKey(r.value, newName) && |r.value| <= |s|
  {
    match Pop(s, oldName)
    case Err(e) => Err(e)
    case Ok((cols, rest)) => Ok(Put(rest, newName, cols))
  }

  /**
   * Removing the entry at `i` from a dictionary with distinct keys removes
   * exactly its key, keeps the order and the values of the others, and
   * keeps the keys distinct.
   */
  lemma RemoveEntry(s: Schema, i: int)
    requires UniqueKeys(s) && 0 <= i < |s|
    ensures UniqueKeys(s[..i] + s[i + 1..])
    ensures Keys(s[..i] + s[i + 1..]) == Keys(s)[..i] + Keys(s)[i + 1..]
    ensures forall k :: HasKey(s[..i] + s[i + 1..], k) <==> HasKey(s, k) && k != s[i].0
    ensures forall k :: HasKey(s[..i] + s[i + 1..], k) ==> Get(s[..i] + s[i + 1..], k) == Get(s, k)
  {
    var rest := s[..i] + s[i + 1..];
    assert forall j :: 0 <= j < i ==> rest[j] == s[j];
    assert forall j :: i <= j < |rest| ==> rest[j] == s[j + 1];
    forall k | HasKey(rest, k) ensures HasKey(s, k) && k != s[i].0 && Get(rest, k) == Get(s, k) {
      var j := KeyIndex(rest, k).value;
      var js := if j < i then j else j + 1;
      assert s[js] == rest[j];
      EntryAt(s, js);
    }
    forall k | HasKey(s, k) && k != s[i].0 ensures HasKey(rest, k) {
      var j := KeyIndex(s, k).value;
      if j < i {
        assert rest[j] == s[j];
      } else {
        assert rest[j - 1] == s[j];
      }
    }
  }

  /** Popping a present key returns its value and leaves the dictionary without its entry. */
  lemma PopEffect(s: Schema, k: string)
    requires UniqueKeys(s)
    ensures Pop(s, k).Err? <==> !HasKey(s, k)
    ensures Pop(s, k).Ok? ==> (
      var (v, rest) := Pop(s, k).value;
      var i := KeyIndex(s, k).value;
      v == Get(s, k) && UniqueKeys(rest)
      && Keys(rest) == Keys(s)[..i] + Keys(s)[i + 1..]
      && (forall k' :: HasKey(rest, k') <==> HasKey(s, k') && k' != k)
      && (forall k' :: HasKey(rest, k') ==> Get(rest, k') == Get(s, k')))
  {
    if HasKey(s, k) {
      RemoveEntry(s, KeyIndex(s, k).value);
    }
  }

  /**
   * Assigning a key: the key then maps to the value, every other key keeps
   * its value, keys stay unique, and the order of keys is unchanged when the
   * key was present and gains the key at the end when it was not.
   */
  lemma PutEffect(s: Schema, k: string, v: seq<Column>)
    requires UniqueKeys(s)
    ensures UniqueKeys(Put(s, k, v))
    ensures forall k' :: HasKey(Put(s, k, v), k') <==> HasKey(s, k') || k' == k
    ensures HasKey(Put(s, k, v), k) && Get(Put(s, k, v), k) == v
    ensures forall k' :: HasKey(s, k') && k' != k ==> Get(Put(s, k, v), k') == Get(s, k')
    ensures HasKey(s, k) ==> Keys(Put(s, k, v)) == Keys(s)
    ensures !HasKey(s, k) ==> Keys(Put(s, k, v)) == Keys(s) + [k]
  {
    var r := Put(s, k, v);
    assert forall j :: 0 <= j < |s| ==> r[j].0 == s[j].0;
    var at := if HasKey(s, k) then KeyIndex(s, k).value else |s|;
    assert r[at] == (k, v);
    EntryAt(r, at);
    forall k' | HasKey(s, k') && k' != k ensures HasKey(r, k') && Get(r, k') == Get(s, k') {
      var j := KeyIndex(s, k').value;
      assert r[j] == s[j];
      EntryAt(s, j);
      EntryAt(r, j);
    }
  }

  /**
   * `schema_a[new] = schema_a.pop(old)` on a dictionary with distinct keys:
   * KeyError exactly when `old` is missing; otherwise `old` is gone, `new`
   * maps to the columns `old` had, every other key keeps its columns, and
   * `new` is appended at the end unless it was already a key (and is not
   * `old`), in which case it keeps its place.
   */
  lemma RenameKeyEffect(s: Schema, oldName: string, newName: string)
    requires UniqueKeys(s)
    ensures RenameKey(s, oldName, newName).Err? <==> !HasKey(s, oldName)
    ensures RenameKey(s, oldName, newName).Ok? ==> (
      var r := RenameKey(s, oldName, newName).value;
      UniqueKeys(r)
      && (forall k :: HasKey(r, k) <==> (HasKey(s, k) && k != oldName) || k == newName)
      && Get(r, newName) == Get(s, oldName)
      && (forall k :: HasKey(s, k) && k != oldName && k != newName ==> Get(r, k) == Get(s, k)))
    ensures RenameKey(s, oldName, newName).Ok? ==> (
      var r := RenameKey(s, oldName, newName).value;
      var i := KeyIndex(s, oldName).value;
      var others := Keys(s)[..i] + Keys(s)[i + 1..];
      (!HasKey(s, newName) || newName == oldName ==> Keys(r) == others + [newName])
      && (HasKey(s, newName) && newName != oldName ==> Keys(r) == others))
  {
    PopEffect(s, oldName);
    if HasKey(s, oldName) {
      var (cols, rest) := Pop(s, oldName).value;
      PutEffect(rest, newName, cols);
    }
  }

  /** The loop of `main` over the rename statements, one at a time, stopping at the first exception. */
  function ApplyRenamesSpec(s: Schema, stmts: seq<string>): (r: Result<Schema, RenameError>)
    ensures r.Ok? ==> |r.value| <= |s|
    decreases |stmts|
  {
    if stmts == [] then Ok(s)
    else match ParseRename(stmts[0])
      case Err(e) => Err(e)
      case Ok((oldName, newName)) =>
        match RenameKey(s, oldName, newName)
        case Err(e) => Err(e)
        case Ok(s') => ApplyRenamesSpec(s', stmts[1..])
  }

  /** The rename loop of `main` (the statements are applied to the source snapshot in order). */
  method ApplyRenames(schemaA: Schema, renameStatements: seq<string>) returns (r: Result<Schema, RenameError>)
    ensures r == ApplyRenamesSpec(schemaA, renameStatements)
  {
    var schema := schemaA;
    for i := 0 to |renameStatements|
      invariant ApplyRenamesSpec(schema, renameStatements[i..]) == ApplyRenamesSpec(schemaA, renameStatements)
    {
      var statement := renameStatements[i];
      assert renameStatements[i..][1..] == renameStatements[i + 1..];
      var parsed := ParseRename(statement);
      if parsed.Err? {
        return Err(parsed.error);
      }
      var (oldTableName, newTableName) := parsed.value;
      var renamed := RenameKey(schema, oldTableName, newTableName);
      if renamed.Err? {
        return Err(renamed.error);
      }
      schema := renamed.value;
    }
    assert renameStatements[|renameStatements|..] == [];
    return Ok(schema);
  }

  /** A name the rename loop parses back unchanged. */
  predicate PlainName(t: string) {
    '`' !in t && ';' !in t
  }

  /**
   * One generated statement: it parses back to its two names and renames an
   * existing key; every other key survives and keys stay distinct.
   */
  lemma RenameStep(s: Schema, t: string) returns (s': Schema)
    requires UniqueKeys(s) && HasKey(s, t) && PlainName(t) && EndsWith(t, "table")
    ensures ParseRename(RenameStatement(t, Stem(t))) == Ok((t, Stem(t)))
    ensures RenameKey(s, t, Stem(t)) == Ok(s') && UniqueKeys(s')
    ensures forall k :: HasKey(s, k) && k != t ==> HasKey(s', k)
  {
    var stem := Stem(t);
    assert forall j :: 0 <= j < |stem| ==> stem[j] == t[j];
    ParseRenameRoundTrip(t, stem);
    RenameKeyEffect(s, t, stem);
    s' := RenameKey(s, t, stem).value;
  }

  /**
   * The generated statements apply without exception to a snapshot that holds
   * every table they were generated from, when those names are distinct and
   * free of backticks and semicolons.
   */
  lemma {:induction false} GeneratedRenamesApply(s: Schema, a: Schema, b: Schema)
    requires UniqueKeys(s) && UniqueKeys(a)
    requires forall i :: 0 <= i < |a| ==> HasKey(s, a[i].0) && PlainName(a[i].0)
    ensures ApplyRenamesSpec(s, RenameStatements(a, b)).Ok?
    decreases |a|
  {
    if a != [] {
      var t, tail := a[0].0, a[1..];
      var stmts := RenameStatements(a, b);
      assert stmts == TableRename(t, b) + RenameStatements(tail, b);
      assert forall i :: 0 <= i < |tail| ==> tail[i] == a[i + 1];
      assert UniqueKeys(tail);
      if IsRenameCandidate(t, b) {
        var s' := RenameStep(s, t);
        assert stmts[0] == RenameStatement(t, Stem(t)) && stmts[1..] == RenameStatements(tail, b);
        assert ApplyRenamesSpec(s, stmts) == ApplyRenamesSpec(s', stmts[1..]);
        forall i | 0 <= i < |tail| ensures HasKey(s', tail[i].0) {
          assert tail[i].0 == a[i + 1].0 != t;
        }
        GeneratedRenamesApply(s', tail, b);
      } else {
        assert stmts == RenameStatements(tail, b);
        GeneratedRenamesApply(s, tail, b);
      }
    } else {
      assert RenameStatements(a, b) == [];
    }
  }

  /** Every rename the source proposes applies cleanly to the snapshot it came from. */
  lemma RenamesApplyToSource(a: Schema, b: Schema)
    requires UniqueKeys(a)
    requires forall i :: 0 <= i < |a| ==> PlainName(a[i].0)
    ensures ApplyRenamesSpec(a, RenameStatements(a, b)).Ok?
  {
    GeneratedRenamesApply(a, a, b);
  }
}
