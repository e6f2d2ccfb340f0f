/** Option and Result, the two wrappers the rest of the model uses. */
module Wrappers {
  datatype Option<T> = None | Some(value: T)

  datatype Result<T, E> = Ok(value: T) | Err(error: E)
}

/**
 * The handful of Python string operations the schema differ relies on:
 * `str.lower()`, `str.upper()`, `str.endswith()`, `str.join()`,
 * `str.split(sep)` and `str.rstrip(chars)`.
 */
module Text {
  import opened Wrappers

  /** ASCII case folding; identifiers and keywords in MySQL metadata are ASCII. */
  function LowerChar(c: char): char {
    if 'A' <= c <= 'Z' then (c as int + 32) as char else c
  }

  function UpperChar(c: char): char {
    if 'a' <= c <= 'z' then (c as int - 32) as char else c
  }

  /** `s.lower()` */
  function Lower(s: string): string {
    seq(|s|, i requires 0 <= i < |s| => LowerChar(s[i]))
  }

  /** `s.upper()` */
  function Upper(s: string): string {
    seq(|s|, i requires 0 <= i < |s| => UpperChar(s[i]))
  }

  /** Lowering works character by character, so it distributes over concatenation. */
  lemma LowerConcat(x: string, y: string)
    ensures Lower(x + y) == Lower(x) + Lower(y)
  {
  }

  /** Two strings equal up to case are also equal once upper-cased. */
  lemma SameLowerSameUpper(x: string, y: string)
    requires Lower(x) == Lower(y)
    ensures Upper(x) == Upper(y)
  {
    assert |x| == |Lower(x)| == |Lower(y)| == |y|;
    forall i | 0 <= i < |x|
      ensures UpperChar(x[i]) == UpperChar(y[i])
    {
      assert LowerChar(x[i]) == Lower(x)[i] == Lower(y)[i] == LowerChar(y[i]);
    }
  }

  /** `s.endswith(suffix)` */
  predicate EndsWith(s: string, suffix: string) {
    |suffix| <= |s| && s[|s| - |suffix|..] == suffix
  }

  /** `sep.join(parts)` */
  function Join(parts: seq<string>, sep: string): string
  {
    if |parts| == 0 then ""
    else if |parts| == 1 then parts[0]
    else parts[0] + sep + Join(parts[1..], sep)
  }

  /** `sep` occurs in `s` starting at index `j`. */
  predicate OccursAt(s: string, sep: string, j: int) {
    0 <= j && j + |sep| <= |s| && s[j..j + |sep|] == sep
  }

  /** The first occurrence of `sep` in `s` at or after `from` (`s.find(sep, from)`). */
  function FindFrom(s: string, sep: string, from: nat): (r: Option<nat>)
    ensures r.Some? ==> from <= r.value && OccursAt(s, sep, r.value)
    ensures r.Some? ==> forall j :: from <= j < r.value ==> !OccursAt(s, sep, j)
    ensures r.None? ==> forall j :: from <= j ==> !OccursAt(s, sep, j)
    decreases |s| - from
  {
    if from + |sep| > |s| then None
    else if s[from..from + |sep|] == sep then Some(from)
    else FindFrom(s, sep, from + 1)
  }

  /**
   * `s.split(sep)` for a non-empty separator: the pieces between the
   * non-overlapping occurrences of `sep`, scanned from the left. The first
   * piece ends at the first occurrence; the second ends at the first
   * occurrence in what follows that separator (which `FindFromSuffix`
   * places in `s` itself), and the remaining pieces are that remainder's
   * own split, so every cut is pinned.
   */
  function Split(s: string, sep: string): (parts: seq<string>)
    requires sep != ""
    ensures |parts| >= 1
    ensures Join(parts, sep) == s
    ensures forall k, j :: 0 <= k < |parts| ==> !OccursAt(parts[k], sep, j)
    ensures |parts| == 1 <==> FindFrom(s, sep, 0).None?
    ensures |parts| >= 2 ==> FindFrom(s, sep, 0) == Some(|parts[0]|)
    ensures |parts| == 2 ==> FindFrom(s[|parts[0]| + |sep|..], sep, 0).None?
    ensures |parts| >= 3 ==> FindFrom(s[|parts[0]| + |sep|..], sep, 0) == Some(|parts[1]|)
    ensures |parts| >= 2 ==> parts[1..] == Split(s[|parts[0]| + |sep|..], sep)
    decreases |s|
  {
    match FindFrom(s, sep, 0)
    case None => [s]
    case Some(i) =>
      var rest := Split(s[i + |sep|..], sep);
      assert OccursAt(s, sep, i);
      SplitStepJoin(s, sep, i, rest);
      SplitStepPieces(s, sep, i, rest);
      assert |s[..i]| == i && ([s[..i]] + rest)[1..] == rest;
      [s[..i]] + rest
  }

  /** Putting the text before the first separator in front of the pieces of the rest rebuilds the text. */
  lemma SplitStepJoin(s: string, sep: string, i: nat, rest: seq<string>)
    requires OccursAt(s, sep, i)
    requires |rest| >= 1 && Join(rest, sep) == s[i + |sep|..]
    ensures Join([s[..i]] + rest, sep) == s
  {
    assert ([s[..i]] + rest)[1..] == rest;
    assert s[..i] + s[i..i + |sep|] + s[i + |sep|..] == s;
  }

  /** Neither the text before the first separator nor any piece of the rest holds the separator. */
  lemma SplitStepPieces(s: string, sep: string, i: nat, rest: seq<string>)
    requires sep != "" && FindFrom(s, sep, 0) == Some(i)
    requires forall k, j :: 0 <= k < |rest| ==> !OccursAt(rest[k], sep, j)
    ensures forall k, j :: 0 <= k < |[s[..i]] + rest| ==> !OccursAt(([s[..i]] + rest)[k], sep, j)
  {
    var parts := [s[..i]] + rest;
    PrefixHasNoSeparator(s, sep, i);
    assert forall k :: 1 <= k < |parts| ==> parts[k] == rest[k - 1];
  }

  /** A position found in a suffix, as a position in the whole text. */
  function Shift(found: Option<nat>, d: nat): Option<nat> {
    match found
    case None => None
    case Some(i) => Some(d + i)
  }

  /**
   * Searching the suffix from `d` starting at `j` is searching the whole text
   * starting at `d + j`, the position `j` stands for in it, with the result
   * shifted by `d`.
   */
  lemma {:induction false} FindFromSuffix(s: string, sep: string, d: nat, j: nat)
    requires d <= |s|
    ensures FindFrom(s, sep, d + j) == Shift(FindFrom(s[d..], sep, j), d)
    decreases |s| - d - j
  {
    var suffix := s[d..];
    if j + |sep| <= |suffix| {
      assert suffix[j..j + |sep|] == s[d + j..d + j + |sep|];
      if suffix[j..j + |sep|] != sep {
        FindFromSuffix(s, sep, d, j + 1);
      }
    }
  }

  /** The text before the first occurrence of `sep` holds no occurrence of it. */
  lemma PrefixHasNoSeparator(s: string, sep: string, i: nat)
    requires sep != ""
    requires FindFrom(s, sep, 0) == Some(i)
    ensures forall j :: !OccursAt(s[..i], sep, j)
  {
    var prefix := s[..i];
    assert OccursAt(s, sep, i);
    forall j ensures !OccursAt(prefix, sep, j) {
      if 0 <= j && j + |sep| <= |prefix| {
        assert prefix[j..j + |sep|] == s[j..j + |sep|];
        assert !OccursAt(s, sep, j);
      }
    }
  }

  /** `s.rstrip(chars)`: the longest prefix of `s` that does not end in one of `chars`. */
  function RStrip(s: string, chars: set<char>): (r: string)
    ensures r <= s
    ensures r == "" || r[|r| - 1] !in chars
    ensures forall i :: |r| <= i < |s| ==> s[i] in chars
  {
    if s != "" && s[|s| - 1] in chars then RStrip(s[..|s| - 1], chars) else s
  }

  /** Splitting where the separator occurs at `i` and never again yields exactly two pieces. */
  lemma SplitOnce(s: string, sep: string, i: nat)
    requires sep != ""
    requires FindFrom(s, sep, 0) == Some(i)
    requires FindFrom(s[i + |sep|..], sep, 0).None?
    ensures Split(s, sep) == [s[..i], s[i + |sep|..]]
  {
  }
}
