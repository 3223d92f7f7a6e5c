// A line filter in the manner of grep: keep the lines of a text that contain a query, optionally
// ignoring case.
module Rgrep {
  import opened Wrappers
  import opened Text

  datatype Config = Config(query: string, filePath: string, ignoreCase: bool)

  /** `Config::new`. */
  function NewConfig(query: string, filePath: string, ignoreCase: bool): (c: Config)
    ensures c.query == query && c.filePath == filePath && c.ignoreCase == ignoreCase
  {
    Config(query, filePath, ignoreCase)
  }

  /** The first position of `c` in `s`. */
  function IndexOf(s: string, c: char): (r: Option<nat>)
    ensures r.Some? ==> r.value < |s| && s[r.value] == c && forall j :: 0 <= j < r.value ==> s[j] != c
    ensures r.None? ==> forall j :: 0 <= j < |s| ==> s[j] != c
  {
    if s == [] then None
    else if s[0] == c then Some(0)
    else match IndexOf(s[1..], c)
      case None => None
      case Some(i) => Some(i + 1)
  }

  /** A line without its line ending: a `\r` before the `\n` goes with the ending. */
  function StripCr(line: string): string {
    if line != [] && line[|line| - 1] == '\r' then line[..|line| - 1] else line
  }

  /** `str::lines`: the text cut at every `\n` (or `\r\n`); a final line ending adds no empty
    * line, and an empty text has no lines. */
  function Lines(text: string): (ls: seq<string>)
    ensures forall i :: 0 <= i < |ls| ==> forall j :: 0 <= j < |ls[i]| ==> ls[i][j] != '\n'
    ensures |ls| <= |text|
    decreases |text|
  {
    if text == [] then []
    else
      match IndexOf(text, '\n')
      case None => [text]
      case Some(i) => [StripCr(text[..i])] + Lines(text[i + 1..])
  }

  /** `to_lowercase`, for ASCII letters. */
  function LowerChar(c: char): char {
    if 'A' <= c <= 'Z' then (c as int + 32) as char else c
  }

  function Lower(s: string): (r: string)
    ensures |r| == |s| && forall i :: 0 <= i < |s| ==> r[i] == LowerChar(s[i])
  {
    seq(|s|, i requires 0 <= i < |s| => LowerChar(s[i]))
  }

  /** Whether a line is selected: the query is a substring of it, both lowered first when case
    * is ignored. */
  predicate Matches(query: string, line: string, ignoreCase: bool) {
    if ignoreCase then Contains(Lower(line), Lower(query)) else Contains(line, query)
  }

  /** The selected lines, in order. */
  function Selected(lines: seq<string>, query: string, ignoreCase: bool): seq<string>
    decreases |lines|
  {
    if lines == [] then []
    else
      var last := lines[|lines| - 1];
      Selected(lines[..|lines| - 1], query, ignoreCase) +
        (if Matches(query, last, ignoreCase) then [last] else [])
  }

  /** `search`: the lines of `text` that match, as they are in the text (not lowered). */
  method Search(query: string, text: string, ignoreCase: bool) returns (results: seq<string>)
    ensures results == Selected(Lines(text), query, ignoreCase)
  {
    var q := if ignoreCase then Lower(query) else query;
    var lines := Lines(text);
    results := [];
    var i := 0;
    while i < |lines|
      invariant 0 <= i <= |lines|
      invariant results == Selected(lines[..i], query, ignoreCase)
    {
      var line := lines[i];
      var l := if ignoreCase then Lower(line) else line;
      assert lines[..i + 1][..i] == lines[..i];
      if Find(l, q).Some? {
        results := results + [line];
      }
      i := i + 1;
    }
    assert lines[..i] == lines;
  }

  /** Every result is a line of the text that matches, and there are never more results than
    * lines. */
  lemma {:induction false} SelectedSound(lines: seq<string>, query: string, ignoreCase: bool)
    ensures |Selected(lines, query, ignoreCase)| <= |lines|
    ensures forall r :: r in Selected(lines, query, ignoreCase) ==>
      r in lines && Matches(query, r, ignoreCase)
    decreases |lines|
  {
    if lines != [] {
      var init := lines[..|lines| - 1];
      SelectedSound(init, query, ignoreCase);
      assert lines == init + [lines[|lines| - 1]];
    }
  }

  /** Every matching line is among the results. */
  lemma {:induction false} SelectedComplete(lines: seq<string>, query: string, ignoreCase: bool, i: nat)
    requires i < |lines| && Matches(query, lines[i], ignoreCase)
    ensures lines[i] in Selected(lines, query, ignoreCase)
    decreases |lines|
  {
    if i < |lines| - 1 {
      var init := lines[..|lines| - 1];
      SelectedComplete(init, query, ignoreCase, i);
    }
  }

  /** With an empty query every line is a result. */
  lemma {:induction false} EmptyQuerySelectsAll(lines: seq<string>, ignoreCase: bool)
    ensures Selected(lines, [], ignoreCase) == lines
    decreases |lines|
  {
    if lines != [] {
      var last := lines[|lines| - 1];
      EmptyQuerySelectsAll(lines[..|lines| - 1], ignoreCase);
      assert OccursAt(Lower(last), [], 0) && OccursAt(last, [], 0);
    }
  }

  /** Results are order-preserving: selecting from the lines of a concatenation is selecting
    * from each part in turn. */
  lemma {:induction false} SelectedConcat(a: seq<string>, b: seq<string>, query: string, ignoreCase: bool)
    ensures Selected(a + b, query, ignoreCase) ==
      Selected(a, query, ignoreCase) + Selected(b, query, ignoreCase)
    decreases |b|
  {
    if b == [] {
      assert a + b == a;
    } else {
      var init := b[..|b| - 1];
      SelectedConcat(a, init, query, ignoreCase);
      assert (a + b)[..|a + b| - 1] == a + init;
    }
  }

  /** Lowering does not touch a text that has no upper-case ASCII letter, so for such a query
    * and line, ignoring case changes nothing. */
  lemma LowerOfLower(s: string)
    requires forall i :: 0 <= i < |s| ==> !('A' <= s[i] <= 'Z')
    ensures Lower(s) == s
  {
  }

  /** A line that contains the query exactly is also found when case is ignored. */
  lemma CaseSensitiveImpliesInsensitive(query: string, line: string)
    requires Matches(query, line, false)
    ensures Matches(query, line, true)
  {
    var i: nat :| i <= |line| && OccursAt(line, query, i);
    assert Lower(line)[i..i + |query|] == Lower(query) by {
      forall j | 0 <= j < |query| ensures Lower(line)[i..i + |query|][j] == Lower(query)[j] {
        assert line[i + j] == query[j];
      }
    }
    assert OccursAt(Lower(line), Lower(query), i);
  }
}
