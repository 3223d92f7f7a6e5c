// Substring search on text, as Rust's `str::find` and `str::contains` do it with a string
// pattern: the leftmost occurrence, an empty pattern occurring at 0.
module Text {
  import opened Wrappers

  const CRLF: string := "\r\n"

  predicate OccursAt(s: string, pat: string, i: nat) {
    i + |pat| <= |s| && s[i..i + |pat|] == pat
  }

  predicate Contains(s: string, pat: string) {
    exists i: nat | i <= |s| :: OccursAt(s, pat, i)
  }

  function FindFrom(s: string, pat: string, k: nat): (r: Option<nat>)
    ensures r.Some? ==>
      k <= r.value && OccursAt(s, pat, r.value) &&
      forall j: nat :: k <= j < r.value ==> !OccursAt(s, pat, j)
    ensures r.None? ==> forall j: nat :: k <= j ==> !OccursAt(s, pat, j)
    decreases |s| - k
  {
    if k + |pat| > |s| then None
    else if s[k..k + |pat|] == pat then Some(k)
    else FindFrom(s, pat, k + 1)
  }

  /** `str::find`: the position of the leftmost occurrence of `pat`. */
  function Find(s: string, pat: string): (r: Option<nat>)
    ensures r.Some? ==> OccursAt(s, pat, r.value) && forall j: nat :: j < r.value ==> !OccursAt(s, pat, j)
    ensures r.None? <==> !Contains(s, pat)
  {
    FindFrom(s, pat, 0)
  }

  /** An occurrence with none before it is the one `Find` reports. */
  lemma FindFirst(s: string, pat: string, k: nat)
    requires OccursAt(s, pat, k) && forall j: nat :: j < k ==> !OccursAt(s, pat, j)
    ensures Find(s, pat) == Some(k)
  {
  }

  /** The text before the first occurrence does not contain the pattern. */
  lemma FindPrefixClean(s: string, pat: string, j: nat)
    requires |pat| > 0 && Find(s, pat) == Some(j)
    ensures !Contains(s[..j], pat)
  {
    forall i: nat ensures !OccursAt(s[..j], pat, i) {
      if i + |pat| <= j {
        assert i < j && !OccursAt(s, pat, i);
        assert s[..j][i..i + |pat|] == s[i..i + |pat|];
      }
    }
  }

  /** A line `y + CRLF` whose text has no CRLF ends at its own terminator, whatever follows. */
  lemma FindTerminator(y: string, rest: string)
    requires !Contains(y, CRLF)
    ensures Find(y + CRLF + rest, CRLF) == Some(|y|)
  {
    var s := y + CRLF + rest;
    assert OccursAt(s, CRLF, |y|) by { assert s[|y|..|y| + 2] == CRLF; }
    forall j: nat | j < |y| ensures !OccursAt(s, CRLF, j) {
      if j + 1 < |y| {
        assert s[j..j + 2] == y[j..j + 2];
        assert !OccursAt(y, CRLF, j);
      } else {
        assert s[j + 1] == '\r';
      }
    }
    FindFirst(s, CRLF, |y|);
  }

  /** A text with no CRLF in either half gains one by concatenation only across the seam. */
  lemma ContainsCrlfConcat(a: string, b: string)
    requires !Contains(a, CRLF) && !Contains(b, CRLF)
    requires a == [] || a[|a| - 1] != '\r'
    ensures !Contains(a + b, CRLF)
  {
    var s := a + b;
    forall i: nat ensures !OccursAt(s, CRLF, i) {
      if i + 2 <= |a| {
        assert s[i..i + 2] == a[i..i + 2];
        assert !OccursAt(a, CRLF, i);
      } else if i >= |a| && i + 2 <= |s| {
        assert s[i..i + 2] == b[i - |a|..i - |a| + 2];
        assert !OccursAt(b, CRLF, i - |a|);
      } else if i + 2 <= |s| {
        assert s[i] == a[|a| - 1];
      }
    }
  }

  /** A text without a carriage return contains no CRLF. */
  lemma NoReturnNoCrlf(s: string)
    requires forall i :: 0 <= i < |s| ==> s[i] != '\r'
    ensures !Contains(s, CRLF)
  {
    forall i: nat ensures !OccursAt(s, CRLF, i) {
      if i + 2 <= |s| {
        assert s[i..i + 2][0] == s[i];
      }
    }
  }
}
