/**
 * The in-memory schema snapshot: an insertion-ordered dictionary from table
 * name to the list of column records read from INFORMATION_SCHEMA.COLUMNS.
 * A Python dict keeps insertion order, so a schema is a sequence of
 * (table name, columns) entries.
 */
module Schemas {
  import opened Wrappers
  import opened Text

  /** One column record: `{name, type, key, is_nullable, default}`. */
  datatype Column = Column(
    name: string,
    sqlType: string,
    key: string,
    isNullable: string,       // 'YES' or 'NO', as MySQL reports it
    default: Option<string>)  // None for SQL NULL (no default recorded)

  type Table = (string, seq<Column>)

  type Schema = seq<Table>

  /** `k in schema` (exact, case-sensitive key lookup). */
  predicate HasKey(s: Schema, k: string) {
    exists i :: 0 <= i < |s| && s[i].0 == k
  }

  /** Dictionary keys are distinct. */
  predicate UniqueKeys(s: Schema) {
    forall i, j :: 0 <= i < j < |s| ==> s[i].0 != s[j].0
  }

  /** Table names are distinct even when case is ignored. */
  predicate CaseUniqueTables(s: Schema) {
    forall i, j :: 0 <= i < j < |s| ==> Lower(s[i].0) != Lower(s[j].0)
  }

  /** Column names of one table are distinct even when case is ignored. */
  predicate CaseUniqueColumns(cols: seq<Column>) {
    forall i, j :: 0 <= i < j < |cols| ==> Lower(cols[i].name) != Lower(cols[j].name)
  }

  /** Position of the key `k` (exact match), the first if there were several. */
  function KeyIndex(s: Schema, k: string): (r: Option<nat>)
    ensures r.Some? ==> r.value < |s| && s[r.value].0 == k
    ensures r.Some? ==> forall j :: 0 <= j < r.value ==> s[j].0 != k
    ensures r.None? <==> !HasKey(s, k)
  {
    if s == [] then None
    else if s[0].0 == k then Some(0)
    else match KeyIndex(s[1..], k)
      case None => None
      case Some(i) => Some(i + 1)
  }

  /**
   * `next((t for t in s if t.lower() == name.lower()), None)`: the first
   * table of `s`, in dictionary order, whose name matches `name` when case is
   * ignored, given by its position.
   */
  function FindTable(s: Schema, name: string): (r: Option<nat>)
    ensures r.Some? ==> r.value < |s| && Lower(s[r.value].0) == Lower(name)
    ensures r.Some? ==> forall j :: 0 <= j < r.value ==> Lower(s[j].0) != Lower(name)
    ensures r.None? ==> forall j :: 0 <= j < |s| ==> Lower(s[j].0) != Lower(name)
  {
    if s == [] then None
    else if Lower(s[0].0) == Lower(name) then Some(0)
    else match FindTable(s[1..], name)
      case None => None
      case Some(i) => Some(i + 1)
  }

  /** Position of the last column of `cols` whose lowered name is `k`. */
  function LastColumn(cols: seq<Column>, k: string): (r: Option<nat>)
    ensures r.Some? ==> r.value < |cols| && Lower(cols[r.value].name) == k
    ensures r.Some? ==> forall j :: r.value < j < |cols| ==> Lower(cols[j].name) != k
    ensures r.None? ==> forall j :: 0 <= j < |cols| ==> Lower(cols[j].name) != k
  {
    if cols == [] then None
    else if Lower(cols[|cols| - 1].name) == k then Some(|cols| - 1)
    else LastColumn(cols[..|cols| - 1], k)
  }

  /**
   * `{c['name'].lower(): c for c in cols}`: a later column whose lowered name
   * repeats an earlier one replaces it, so every key maps to the LAST column
   * carrying that lowered name.
   */
  function ColumnIndex(cols: seq<Column>): (m: map<string, Column>)
    ensures forall k :: k in m <==> LastColumn(cols, k).Some?
    ensures forall k :: k in m ==> m[k] == cols[LastColumn(cols, k).value]
  {
    if cols == [] then map[]
    else
      var last := cols[|cols| - 1];
      ColumnIndex(cols[..|cols| - 1])[Lower(last.name) := last]
  }

  /** `{c['name'].lower() for c in cols}` */
  function ColumnNames(cols: seq<Column>): set<string> {
    set c | c in cols :: Lower(c.name)
  }
}
