/** The parts of JavaScript's string library that the core relies on:
    `startsWith`, `endsWith`, `split('\n')`, `join('\n')` and a search for the
    last occurrence of a substring. Strings are sequences of characters. */
module Text {
  import opened Wrappers

  /** String.prototype.startsWith */
  predicate StartsWith(s: string, prefix: string) {
    |prefix| <= |s| && s[..|prefix|] == prefix
  }

  /** Starting with a one-character string is a test of the first character. */
  lemma StartsWithChar(s: string, c: char)
    ensures StartsWith(s, [c]) <==> |s| > 0 && s[0] == c
  {
    if |s| > 0 && s[0] != c {
      assert s[..1][0] != c;
    }
  }

  /** String.prototype.endsWith */
  predicate EndsWith(s: string, suffix: string) {
    |suffix| <= |s| && s[|s| - |suffix|..] == suffix
  }

  /** A string that ends with `suffix` has its characters at the same
      distances from the end. */
  lemma EndsWithChar(s: string, suffix: string, j: nat)
    requires EndsWith(s, suffix) && 0 < j <= |suffix|
    ensures s[|s| - j] == suffix[|suffix| - j]
  {
    assert s[|s| - |suffix|..][|suffix| - j] == s[|s| - j];
  }

  /** The characters at which a JavaScript regular expression's `.` stops and
      `$` (without the multiline flag) does not apply: LF, CR, U+2028, U+2029. */
  predicate IsLineTerminator(c: char) {
    c == '\n' || c == '\r' || c == '\U{2028}' || c == '\U{2029}'
  }

  /** The index of the first newline in `s`, if there is one. */
  function FirstNewline(s: string): (r: Option<nat>)
    ensures r.Some? ==> r.value < |s| && s[r.value] == '\n' && '\n' !in s[..r.value]
    ensures r.None? <==> '\n' !in s
  {
    if s == [] then None
    else if s[0] == '\n' then Some(0)
    else
      var t := FirstNewline(s[1..]);
      assert s == [s[0]] + s[1..];
      if t.None? then None
      else
        assert s[..t.value + 1] == [s[0]] + s[1..][..t.value];
        Some(t.value + 1)
  }

  /** String.prototype.split('\n'): the pieces between newline characters,
      one more than there are newlines; an empty string gives [""]. */
  function Split(s: string): (r: seq<string>)
    ensures |r| >= 1
    ensures forall i :: 0 <= i < |r| ==> '\n' !in r[i]
    decreases |s|
  {
    match FirstNewline(s)
    case None => [s]
    case Some(k) => [s[..k]] + Split(s[k + 1..])
  }

  /** Array.prototype.join('\n'). */
  function Join(lines: seq<string>): string {
    if lines == [] then ""
    else if |lines| == 1 then lines[0]
    else lines[0] + "\n" + Join(lines[1..])
  }

  /** Joining the pieces of a split gives back the original string. */
  lemma {:induction false} JoinSplit(s: string)
    ensures Join(Split(s)) == s
    decreases |s|
  {
    match FirstNewline(s)
    case None =>
    case Some(k) =>
      JoinSplit(s[k + 1..]);
      var r := Split(s);
      assert r[1..] == Split(s[k + 1..]);
      assert s == s[..k] + "\n" + s[k + 1..];
  }

  /** A string without a newline is split into itself alone. */
  lemma SplitWithoutNewline(s: string)
    requires '\n' !in s
    ensures Split(s) == [s]
  {
  }

  /** Splitting two strings joined by a newline splits each of them. */
  lemma {:induction false} SplitAround(a: string, b: string)
    ensures Split(a + "\n" + b) == Split(a) + Split(b)
    decreases |a|
  {
    var s := a + "\n" + b;
    match FirstNewline(a)
    case None =>
      assert s[..|a|] == a;
      FirstNewlineIs(s, |a|);
      assert s[|a| + 1..] == b;
      assert Split(s) == [a] + Split(b);
      assert Split(a) == [a];
    case Some(k) =>
      assert s[..k] == a[..k];
      FirstNewlineIs(s, k);
      assert s[k + 1..] == a[k + 1..] + "\n" + b;
      SplitAround(a[k + 1..], b);
      var rest := Split(a[k + 1..]);
      assert Split(s) == [a[..k]] + (rest + Split(b));
      assert Split(a) == [a[..k]] + rest;
      ConcatAssoc([a[..k]], rest, Split(b));
  }

  /** Concatenation is associative. */
  lemma ConcatAssoc<T>(a: seq<T>, b: seq<T>, c: seq<T>)
    ensures a + (b + c) == (a + b) + c
  {
  }

  /** A newline at `k` with none before it is the first newline. */
  lemma {:induction false} FirstNewlineIs(s: string, k: nat)
    requires k < |s| && s[k] == '\n' && '\n' !in s[..k]
    ensures FirstNewline(s) == Some(k)
  {
    if k > 0 {
      assert s[0] == s[..k][0];
      assert s[1..][..k - 1] == s[1..k];
      assert forall j :: 0 <= j < k - 1 ==> s[1..k][j] == s[..k][j + 1];
      FirstNewlineIs(s[1..], k - 1);
    }
  }

  /** Splitting the join of newline-free lines gives the lines back. */
  lemma {:induction false} SplitJoin(lines: seq<string>)
    requires |lines| >= 1
    requires forall i :: 0 <= i < |lines| ==> '\n' !in lines[i]
    ensures Split(Join(lines)) == lines
  {
    SplitWithoutNewline(lines[0]);
    if |lines| > 1 {
      SplitJoin(lines[1..]);
      SplitAround(lines[0], Join(lines[1..]));
      assert lines == [lines[0]] + lines[1..];
    }
  }

  /** `pat` occurs in `s` beginning at index `k`. */
  predicate OccursAt(s: string, pat: string, k: int) {
    0 <= k && k + |pat| <= |s| && s[k..k + |pat|] == pat
  }

  /** An occurrence inside a slice is an occurrence in the whole string. */
  lemma OccursInSlice(s: string, a: nat, e: nat, pat: string, k: nat)
    requires a <= e <= |s|
    ensures OccursAt(s[a..e], pat, k) ==> OccursAt(s, pat, a + k)
  {
    if k + |pat| <= e - a {
      var g := s[a..e];
      var n := |pat|;
      var x, y := g[k..k + n], s[a + k..a + k + n];
      forall i | 0 <= i < n
        ensures x[i] == y[i]
      {
        assert g[k + i] == s[a + k + i];
      }
      assert x == y;
    }
  }

  /** The start of the last occurrence of `pat` in `s` that begins at or before
      index `q`, searching downwards. */
  function LastIndexAtOrBefore(s: string, pat: string, q: int): (r: Option<nat>)
    requires q + |pat| <= |s|
    ensures r.Some? ==> r.value <= q && OccursAt(s, pat, r.value)
    ensures r.Some? ==> forall k :: r.value < k <= q ==> !OccursAt(s, pat, k)
    ensures r.None? ==> forall k :: k <= q ==> !OccursAt(s, pat, k)
    decreases q + 1
  {
    if q < 0 then None
    else if s[q..q + |pat|] == pat then Some(q)
    else LastIndexAtOrBefore(s, pat, q - 1)
  }
}
