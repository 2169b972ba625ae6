/** What both diff walks of the services share: the classification of diff
    lines, the hunk header `@@ -a[,b] +c[,d] @@` of the GNU unified format,
    matched as JavaScript matches /@@ -\d+,?\d* \+(\d+),?\d* @@/, and the
    running new-file line counter described declaratively. */
module DiffLines {
  import opened Wrappers
  import opened Text

  // ---------------------------------------------------------------------
  // The hunk header regular expression
  // ---------------------------------------------------------------------

  /** `\d` without the unicode flag: the ASCII digits. */
  predicate IsDigit(c: char) {
    '0' <= c <= '9'
  }

  /** The length of the run of digits starting at index i; `\d+` and `\d*`
      are greedy and take all of it. */
  function DigitRun(s: string, i: nat): (n: nat)
    requires i <= |s|
    ensures i + n <= |s|
    decreases |s| - i
  {
    if i < |s| && IsDigit(s[i]) then 1 + DigitRun(s, i + 1) else 0
  }

  /** Where `,?\d*` ends when it starts at index i. */
  function SkipCountSuffix(s: string, i: nat): (j: nat)
    requires i <= |s|
    ensures i <= j <= |s|
  {
    var k := if i < |s| && s[i] == ',' then i + 1 else i;
    k + DigitRun(s, k)
  }

  /** Where `@@ -\d+,?\d*` ends when it starts at index p, if it matches. */
  function OldRangeEnd(s: string, p: nat): (r: Option<nat>)
    requires p <= |s|
    ensures r.Some? ==> r.value <= |s|
  {
    if !OccursAt(s, "@@ -", p) then None
    else
      var n := DigitRun(s, p + 4);
      if n == 0 then None else Some(SkipCountSuffix(s, p + 4 + n))
  }

  /** The position and length of `(\d+)` when ` \+(\d+),?\d* @@` matches at
      index b. */
  function NewStartGroup(s: string, b: nat): (r: Option<(nat, nat)>)
    requires b <= |s|
    ensures r.Some? ==> r.value.0 + r.value.1 <= |s|
  {
    if !OccursAt(s, " +", b) then None else GroupAt(s, b + 2)
  }

  /** The position and length of `(\d+)` when `(\d+),?\d* @@` matches at
      index c. */
  function GroupAt(s: string, c: nat): (r: Option<(nat, nat)>)
    requires c <= |s|
    ensures r.Some? ==> r.value.0 + r.value.1 <= |s|
  {
    var n := DigitRun(s, c);
    if n == 0 then None
    else if !OccursAt(s, " @@", SkipCountSuffix(s, c + n)) then None
    else Some((c, n))
  }

  /** The position and length of the capture group when the regular
      expression matches starting at index p. */
  function HeaderMatchAt(s: string, p: nat): (r: Option<(nat, nat)>)
    requires p <= |s|
    ensures r.Some? ==> r.value.0 + r.value.1 <= |s|
  {
    match OldRangeEnd(s, p)
    case None => None
    case Some(b) => NewStartGroup(s, b)
  }

  /** The leftmost index at or after p where the regular expression matches,
      as `RegExp.prototype.exec` finds it. */
  function FirstHeaderMatchFrom(s: string, p: nat): (r: Option<nat>)
    requires p <= |s|
    ensures r.Some? ==> p <= r.value <= |s|
    decreases |s| - p
  {
    if HeaderMatchAt(s, p).Some? then Some(p)
    else if p == |s| then None
    else FirstHeaderMatchFrom(s, p + 1)
  }

  /** The value of a digit. */
  function DigitValue(c: char): nat {
    if IsDigit(c) then c as int - '0' as int else 0
  }

  /** parseInt(digits, 10) */
  function DecimalValue(ds: string): nat {
    if ds == [] then 0
    else DecimalValue(ds[..|ds| - 1]) * 10 + DigitValue(ds[|ds| - 1])
  }

  /** The new-file start `c` of a hunk header, when the line matches. */
  function ParseHunkStart(l: string): Option<nat> {
    match FirstHeaderMatchFrom(l, 0)
    case None => None
    case Some(p) =>
      match HeaderMatchAt(l, p)
      case None => None
      case Some((c, n)) => Some(DecimalValue(l[c..c + n]))
  }

  /** The decimal digits of n, as `String(n)` writes them. */
  function Digits(n: nat): (ds: string)
    ensures |ds| >= 1
    ensures forall k :: 0 <= k < |ds| ==> IsDigit(ds[k])
  {
    if n < 10 then [('0' as int + n) as char]
    else Digits(n / 10) + [('0' as int + n % 10) as char]
  }

  /** An optional `,count` part of a hunk header. */
  function CountSuffix(count: Option<nat>): string {
    match count
    case None => ""
    case Some(n) => "," + Digits(n)
  }

  /** A hunk header as a diff tool writes it, followed by any text. */
  function HunkHeader(oldStart: nat, oldCount: Option<nat>, newStart: nat, newCount: Option<nat>, tail: string): string {
    "@@ -" + Digits(oldStart) + CountSuffix(oldCount) + " +" + Digits(newStart) + CountSuffix(newCount) + " @@" + tail
  }

  // ---------------------------------------------------------------------
  // Line classification and the running counter
  // ---------------------------------------------------------------------

  predicate IsHunkHeader(l: string) { StartsWith(l, "@@") }
  predicate IsAddition(l: string) { StartsWith(l, "+") }
  predicate IsDeletion(l: string) { StartsWith(l, "-") }
  predicate IsFileHeader(l: string) { StartsWith(l, "diff --git") }

  /** The counter is described for any header parser `parse`; the walks use
      ParseHunkStart. A hunk header whose new-file start parses sets it. */
  predicate SetsCounter(l: string, parse: string -> Option<nat>) {
    IsHunkHeader(l) && parse(l).Some?
  }

  /** A line that moves the counter forward by one: anything but a hunk
      header or a deletion, and, in a multi-file stream, a file header. */
  predicate Advances(l: string, multiFile: bool) {
    !IsHunkHeader(l) && !IsDeletion(l) && !(multiFile && IsFileHeader(l))
  }

  /** The number of lines of s that advance the counter. */
  function CountAdvancing(s: seq<string>, multiFile: bool): nat {
    if s == [] then 0
    else CountAdvancing(s[..|s| - 1], multiFile) + (if Advances(s[|s| - 1], multiFile) then 1 else 0)
  }

  /** The index of the last line of pre that sets the counter. */
  function LastCounterSetting(pre: seq<string>, parse: string -> Option<nat>): (r: Option<nat>)
    ensures r.Some? ==> r.value < |pre| && SetsCounter(pre[r.value], parse)
    ensures r.Some? ==> forall j :: r.value < j < |pre| ==> !SetsCounter(pre[j], parse)
    ensures r.None? ==> forall j :: 0 <= j < |pre| ==> !SetsCounter(pre[j], parse)
  {
    if pre == [] then None
    else if SetsCounter(pre[|pre| - 1], parse) then Some(|pre| - 1)
    else LastCounterSetting(pre[..|pre| - 1], parse)
  }

  /** The value of the line counter once the lines `pre` have been walked:
      the new-file start of the last hunk header that parsed, or 0 before
      any, plus one for every advancing line after it. */
  function CounterAfter(pre: seq<string>, multiFile: bool, parse: string -> Option<nat>): nat {
    match LastCounterSetting(pre, parse)
    case None => CountAdvancing(pre, multiFile)
    case Some(j) => parse(pre[j]).value + CountAdvancing(pre[j + 1..], multiFile)
  }

  /** The counter of the diff walks, with the header regular expression. */
  function LineCounter(pre: seq<string>, multiFile: bool): nat {
    CounterAfter(pre, multiFile, ParseHunkStart)
  }

  /** The index of the last hunk header of pre. */
  function LastHunkHeader(pre: seq<string>): (r: Option<nat>)
    ensures r.Some? ==> r.value < |pre| && IsHunkHeader(pre[r.value])
    ensures r.Some? ==> forall j :: r.value < j < |pre| ==> !IsHunkHeader(pre[j])
    ensures r.None? ==> forall j :: 0 <= j < |pre| ==> !IsHunkHeader(pre[j])
  {
    if pre == [] then None
    else if IsHunkHeader(pre[|pre| - 1]) then Some(|pre| - 1)
    else LastHunkHeader(pre[..|pre| - 1])
  }

  /** The diffHunk recorded with an added line: the last hunk header seen,
      whether or not it parsed, or "" before any. */
  function EnclosingHunk(pre: seq<string>): string {
    match LastHunkHeader(pre)
    case None => ""
    case Some(j) => pre[j]
  }

  // ---------------------------------------------------------------------
  // Lemmas
  // ---------------------------------------------------------------------

  /** Counting the advancing lines of a sequence with one more line. */
  lemma CountAdvancingSnoc(s: seq<string>, l: string, multiFile: bool)
    ensures CountAdvancing(s + [l], multiFile) == CountAdvancing(s, multiFile) + (if Advances(l, multiFile) then 1 else 0)
  {
    assert (s + [l])[..|s|] == s;
  }

  /** One step of the walk: a hunk header whose start parses sets the counter
      to it, one that does not parse leaves it alone, a deletion (and, in a
      multi-file stream, a file header) leaves it alone, and every other line
      advances it by one. */
  lemma CounterStepWith(pre: seq<string>, l: string, multiFile: bool, parse: string -> Option<nat>)
    ensures SetsCounter(l, parse) ==> CounterAfter(pre + [l], multiFile, parse) == parse(l).value
    ensures !SetsCounter(l, parse) && !Advances(l, multiFile) ==>
              CounterAfter(pre + [l], multiFile, parse) == CounterAfter(pre, multiFile, parse)
    ensures Advances(l, multiFile) ==> CounterAfter(pre + [l], multiFile, parse) == CounterAfter(pre, multiFile, parse) + 1
  {
    var s := pre + [l];
    assert s[..|pre|] == pre;
    assert s[|pre|] == l;
    if SetsCounter(l, parse) {
      assert s[|pre| + 1..] == [];
    } else {
      CountAdvancingSnoc(pre, l, multiFile);
      match LastCounterSetting(pre, parse)
      case None =>
      case Some(j) =>
        assert s[j + 1..] == pre[j + 1..] + [l];
        assert s[j] == pre[j];
        CountAdvancingSnoc(pre[j + 1..], l, multiFile);
    }
  }

  /** CounterStepWith for the header regular expression. */
  lemma CounterStep(pre: seq<string>, l: string, multiFile: bool)
    ensures SetsCounter(l, ParseHunkStart) ==> LineCounter(pre + [l], multiFile) == ParseHunkStart(l).value
    ensures IsHunkHeader(l) && !SetsCounter(l, ParseHunkStart) ==>
              LineCounter(pre + [l], multiFile) == LineCounter(pre, multiFile)
    ensures IsDeletion(l) || (multiFile && IsFileHeader(l)) ==>
              LineCounter(pre + [l], multiFile) == LineCounter(pre, multiFile)
    ensures Advances(l, multiFile) ==> LineCounter(pre + [l], multiFile) == LineCounter(pre, multiFile) + 1
  {
    CounterStepWith(pre, l, multiFile, ParseHunkStart);
    if IsDeletion(l) || (multiFile && IsFileHeader(l)) {
      NotBothPrefixes(l);
    }
  }

  /** An added line is neither a hunk header, a deletion nor a file header,
      so it advances the counter. */
  lemma AdditionAdvances(l: string, multiFile: bool)
    requires IsAddition(l)
    ensures !IsHunkHeader(l) && !IsDeletion(l) && !IsFileHeader(l)
    ensures Advances(l, multiFile)
  {
    assert l[0] == '+';
  }

  /** No line is a hunk header and also an addition, a deletion or a file header. */
  lemma NotBothPrefixes(l: string)
    ensures IsHunkHeader(l) ==> !IsAddition(l) && !IsDeletion(l) && !IsFileHeader(l)
  {
    if IsHunkHeader(l) {
      assert l[0] == '@';
    }
  }

  /** One step of the walk for the diffHunk: a hunk header becomes it,
      whether or not it parses; any other line leaves it alone. */
  lemma EnclosingHunkStep(pre: seq<string>, l: string)
    ensures EnclosingHunk(pre + [l]) == if IsHunkHeader(l) then l else EnclosingHunk(pre)
  {
    var s := pre + [l];
    assert s[..|pre|] == pre;
    assert s[|pre|] == l;
    match LastHunkHeader(pre)
    case None =>
    case Some(j) => assert s[j] == pre[j];
  }

  /** Within a hunk the counter only grows: from an added line at index i to
      a later index j with no hunk header in between, it grows by at least
      one, so the added lines of a hunk get strictly increasing numbers. */
  lemma {:induction false} CounterGrowsWithinHunkWith(lines: seq<string>, i: nat, j: nat, multiFile: bool,
                                                      parse: string -> Option<nat>)
    requires i < j <= |lines|
    requires IsAddition(lines[i])
    requires forall k :: i < k < j ==> !IsHunkHeader(lines[k])
    ensures CounterAfter(lines[..j], multiFile, parse) > CounterAfter(lines[..i], multiFile, parse)
    ensures EnclosingHunk(lines[..j]) == EnclosingHunk(lines[..i])
    decreases j - i
  {
    assert lines[..j] == lines[..j - 1] + [lines[j - 1]];
    CounterStepWith(lines[..j - 1], lines[j - 1], multiFile, parse);
    EnclosingHunkStep(lines[..j - 1], lines[j - 1]);
    if j - 1 > i {
      CounterGrowsWithinHunkWith(lines, i, j - 1, multiFile, parse);
    } else {
      AdditionAdvances(lines[i], multiFile);
    }
  }

  /** CounterGrowsWithinHunkWith for the header regular expression. */
  lemma CounterGrowsWithinHunk(lines: seq<string>, i: nat, j: nat, multiFile: bool)
    requires i < j <= |lines|
    requires IsAddition(lines[i])
    requires forall k :: i < k < j ==> !IsHunkHeader(lines[k])
    ensures LineCounter(lines[..j], multiFile) > LineCounter(lines[..i], multiFile)
    ensures EnclosingHunk(lines[..j]) == EnclosingHunk(lines[..i])
  {
    CounterGrowsWithinHunkWith(lines, i, j, multiFile, ParseHunkStart);
  }

  /** A run of digits is measured exactly. */
  lemma {:induction false} DigitRunIs(s: string, i: nat, n: nat)
    requires i + n <= |s|
    requires forall k :: i <= k < i + n ==> IsDigit(s[k])
    requires i + n < |s| ==> !IsDigit(s[i + n])
    ensures DigitRun(s, i) == n
    decreases n
  {
    if n > 0 {
      DigitRunIs(s, i + 1, n - 1);
    }
  }

  /** Reading back the digits of n gives n. */
  lemma {:induction false} DecimalValueOfDigits(n: nat)
    ensures DecimalValue(Digits(n)) == n
  {
    if n >= 10 {
      var ds := Digits(n);
      DecimalValueOfDigits(n / 10);
      assert ds[..|ds| - 1] == Digits(n / 10);
    }
  }

  /** The match found from p is the leftmost one at or after p. */
  lemma {:induction false} FirstHeaderMatchIsLeftmost(s: string, p: nat)
    requires p <= |s|
    ensures FirstHeaderMatchFrom(s, p).Some? ==>
              HeaderMatchAt(s, FirstHeaderMatchFrom(s, p).value).Some? &&
              forall q :: p <= q < FirstHeaderMatchFrom(s, p).value ==> HeaderMatchAt(s, q).None?
    ensures FirstHeaderMatchFrom(s, p).None? ==> forall q :: p <= q <= |s| ==> HeaderMatchAt(s, q).None?
    decreases |s| - p
  {
    if HeaderMatchAt(s, p).None? && p < |s| {
      FirstHeaderMatchIsLeftmost(s, p + 1);
      var r := FirstHeaderMatchFrom(s, p + 1);
      assert FirstHeaderMatchFrom(s, p) == r;
      if r.Some? {
        forall q | p <= q < r.value
          ensures HeaderMatchAt(s, q).None?
        {
          if q > p {
            assert p + 1 <= q;
          }
        }
      }
    }
  }

  /** `pat` is found where the rest of s begins with it. */
  lemma OccursOver(s: string, i: nat, pat: string, rest: string)
    requires i <= |s| && s[i..] == pat + rest
    ensures OccursAt(s, pat, i)
  {
    assert s[i..i + |pat|] == s[i..][..|pat|];
  }

  /** The digit run over a written-out number. */
  lemma DigitRunOver(s: string, i: nat, ds: string, rest: string)
    requires i <= |s| && s[i..] == ds + rest
    requires forall k :: 0 <= k < |ds| ==> IsDigit(ds[k])
    requires rest != [] ==> !IsDigit(rest[0])
    ensures DigitRun(s, i) == |ds|
  {
    assert forall k :: i <= k < i + |ds| ==> s[k] == s[i..][k - i];
    if i + |ds| < |s| {
      assert s[i + |ds|] == s[i..][|ds|] == rest[0];
    }
    DigitRunIs(s, i, |ds|);
  }

  /** Text that `,?\d*` takes whole: nothing, or a comma and digits. */
  predicate IsCountText(cs: string) {
    cs == [] || (cs[0] == ',' && forall k :: 1 <= k < |cs| ==> IsDigit(cs[k]))
  }

  /** A written-out count suffix has that shape. */
  lemma CountSuffixIsCountText(count: Option<nat>)
    ensures IsCountText(CountSuffix(count))
  {
    match count
    case None =>
    case Some(n) =>
      var cs := CountSuffix(count);
      assert cs == [','] + Digits(n);
      assert forall k :: 1 <= k < |cs| ==> cs[k] == Digits(n)[k - 1];
  }

  /** `,?\d*` over count text, followed by a space. */
  lemma SkipCountSuffixOver(s: string, i: nat, cs: string, rest: string)
    requires i <= |s| && s[i..] == cs + rest && IsCountText(cs)
    requires rest != [] && rest[0] == ' '
    ensures SkipCountSuffix(s, i) == i + |cs|
  {
    if cs == [] {
      assert s[i] == s[i..][0] == ' ';
      DigitRunOver(s, i, "", rest);
    } else {
      var ds := cs[1..];
      assert s[i] == s[i..][0] == ',';
      assert s[i + 1..] == s[i..][1..] == ds + rest;
      assert forall k :: 0 <= k < |ds| ==> ds[k] == cs[k + 1];
      DigitRunOver(s, i + 1, ds, rest);
    }
  }

  /** The first character of count text followed by a space is a comma or
      that space. */
  lemma CountSuffixStart(cs: string, rest: string)
    requires IsCountText(cs) && rest != [] && rest[0] == ' '
    ensures (cs + rest)[0] in {',', ' '}
  {
  }

  /** What follows a known part of the rest of a string. */
  lemma RestAfter(s: string, i: nat, x: string, rest: string)
    requires i <= |s| && s[i..] == x + rest
    ensures i + |x| <= |s| && s[i + |x|..] == rest
    ensures s[i..i + |x|] == x
  {
    assert s[i + |x|..] == s[i..][|x|..];
    assert s[i..i + |x|] == s[i..][..|x|];
  }

  /** `@@ -` followed by written-out digits and count text, then a space. */
  lemma OldRangeOver(s: string, p: nat, start: string, cs: string, rest: string)
    requires p <= |s| && s[p..] == "@@ -" + (start + (cs + rest))
    requires |start| >= 1 && forall k :: 0 <= k < |start| ==> IsDigit(start[k])
    requires IsCountText(cs) && rest != [] && rest[0] == ' '
    ensures OldRangeEnd(s, p) == Some(p + 4 + |start| + |cs|)
  {
    var i := p + 4 + |start|;
    CountSuffixStart(cs, rest);
    OldStartOver(s, p, start, cs + rest);
    SkipCountSuffixOver(s, i, cs, rest);
    OldRangeFromParts(s, p, |start|, i, i + |cs|);
  }

  /** `@@ -` and written-out digits, then a comma or a space. */
  lemma OldStartOver(s: string, p: nat, start: string, rest: string)
    requires p <= |s| && s[p..] == "@@ -" + (start + rest)
    requires forall k :: 0 <= k < |start| ==> IsDigit(start[k])
    requires rest != [] && rest[0] in {',', ' '}
    ensures OccursAt(s, "@@ -", p) && DigitRun(s, p + 4) == |start|
    ensures p + 4 + |start| <= |s| && s[p + 4 + |start|..] == rest
  {
    OldRangeOpening(s, p, start + rest);
    DigitsOver(s, p + 4, start, rest);
  }

  /** `@@ -` at the start of the rest of a string. */
  lemma OldRangeOpening(s: string, p: nat, x: string)
    requires p <= |s| && s[p..] == "@@ -" + x
    ensures OccursAt(s, "@@ -", p) && p + 4 <= |s| && s[p + 4..] == x
  {
    OccursOver(s, p, "@@ -", x);
    RestAfter(s, p, "@@ -", x);
  }

  /** `@@ -\d+,?\d*` from its parts. */
  lemma OldRangeFromParts(s: string, p: nat, n: nat, i: nat, j: nat)
    requires i == p + 4 + n && i <= |s| && OccursAt(s, "@@ -", p)
    requires DigitRun(s, p + 4) == n && n != 0
    requires SkipCountSuffix(s, i) == j
    ensures OldRangeEnd(s, p) == Some(j)
  {
  }

  /** ` +` followed by written-out digits and count text, then ` @@`. */
  lemma NewStartOver(s: string, b: nat, start: string, cs: string, tail: string)
    requires b <= |s| && s[b..] == " +" + (start + (cs + (" @@" + tail)))
    requires |start| >= 1 && forall k :: 0 <= k < |start| ==> IsDigit(start[k])
    requires IsCountText(cs)
    ensures NewStartGroup(s, b) == Some((b + 2, |start|))
    ensures s[b + 2..b + 2 + |start|] == start
  {
    var r3 := cs + (" @@" + tail);
    OccursOver(s, b, " +", start + r3);
    RestAfter(s, b, " +", start + r3);
    GroupOver(s, b + 2, start, cs, tail);
  }

  /** Written-out digits and count text, then ` @@`. */
  lemma GroupOver(s: string, c: nat, start: string, cs: string, tail: string)
    requires c <= |s| && s[c..] == start + (cs + (" @@" + tail))
    requires |start| >= 1 && forall k :: 0 <= k < |start| ==> IsDigit(start[k])
    requires IsCountText(cs)
    ensures GroupAt(s, c) == Some((c, |start|))
    ensures s[c..c + |start|] == start
  {
    var r3 := cs + (" @@" + tail);
    var i := c + |start|;
    CountSuffixStart(cs, " @@" + tail);
    DigitsOver(s, c, start, r3);
    CloseOver(s, i, cs, tail);
    GroupFromParts(s, c, |start|, i, i + |cs|);
  }

  /** The capture group of `(\d+),?\d* @@` from its parts. */
  lemma GroupFromParts(s: string, c: nat, n: nat, i: nat, j: nat)
    requires i == c + n && i <= |s| && DigitRun(s, c) == n && n != 0
    requires SkipCountSuffix(s, i) == j && OccursAt(s, " @@", j)
    ensures GroupAt(s, c) == Some((c, n))
  {
  }

  /** Written-out digits followed by a non-digit. */
  lemma DigitsOver(s: string, c: nat, start: string, rest: string)
    requires c <= |s| && s[c..] == start + rest
    requires forall k :: 0 <= k < |start| ==> IsDigit(start[k])
    requires rest != [] && rest[0] in {',', ' '}
    ensures DigitRun(s, c) == |start|
    ensures c + |start| <= |s| && s[c + |start|..] == rest
    ensures s[c..c + |start|] == start
  {
    DigitRunOver(s, c, start, rest);
    RestAfter(s, c, start, rest);
  }

  /** Count text followed by ` @@`. */
  lemma CloseOver(s: string, i: nat, cs: string, tail: string)
    requires i <= |s| && s[i..] == cs + (" @@" + tail) && IsCountText(cs)
    ensures SkipCountSuffix(s, i) == i + |cs|
    ensures OccursAt(s, " @@", i + |cs|)
  {
    SkipCountSuffixOver(s, i, cs, " @@" + tail);
    RestAfter(s, i, cs, " @@" + tail);
    OccursOver(s, i + |cs|, " @@", tail);
  }

  /** Parsing a hunk header gives back its new-file start, with or without
      the line counts and whatever text follows the closing `@@`. */
  lemma HunkHeaderRoundTrip(oldStart: nat, oldCount: Option<nat>, newStart: nat, newCount: Option<nat>, tail: string)
    ensures ParseHunkStart(HunkHeader(oldStart, oldCount, newStart, newCount, tail)) == Some(newStart)
  {
    var s := HunkHeader(oldStart, oldCount, newStart, newCount, tail);
    HunkHeaderShape(oldStart, oldCount, newStart, newCount, tail);
    CountSuffixIsCountText(oldCount);
    CountSuffixIsCountText(newCount);
    ParseWrittenHeader(s, Digits(oldStart), CountSuffix(oldCount), newStart, CountSuffix(newCount), tail);
  }

  /** A header written out of digits and count text parses to its new-file
      start. */
  lemma ParseWrittenHeader(s: string, start: string, oldCs: string, newStart: nat, newCs: string, tail: string)
    requires s == "@@ -" + (start + (oldCs + (" +" + (Digits(newStart) + (newCs + (" @@" + tail))))))
    requires |start| >= 1 && forall k :: 0 <= k < |start| ==> IsDigit(start[k])
    requires IsCountText(oldCs) && IsCountText(newCs)
    ensures ParseHunkStart(s) == Some(newStart)
  {
    var newPart := " +" + (Digits(newStart) + (newCs + (" @@" + tail)));
    var b := 4 + |start| + |oldCs|;
    StartsWithSpace(Digits(newStart) + (newCs + (" @@" + tail)));
    OldRangeThen(s, start, oldCs, newPart, b);
    ParseFromStages(s, b, newStart, newCs, tail);
  }

  /** "@@ -1,2 +1,3 @@" is how the header of a hunk from line 1 with two old
      and three new lines is written. */
  lemma ExampleHeaderWritten()
    ensures HunkHeader(1, Some(2), 1, Some(3), "") == "@@ -1,2 +1,3 @@"
  {
    assert Digits(1) == "1";
    assert CountSuffix(Some(2)) == ",2" by {
      assert Digits(2) == "2";
    }
    assert CountSuffix(Some(3)) == ",3" by {
      assert Digits(3) == "3";
    }
    assert HunkHeader(1, Some(2), 1, Some(3), "") == "@@ -" + "1" + ",2" + " +" + "1" + ",3" + " @@" + "";
  }

  /** A written-out header starts with "@@". */
  lemma HeaderIsHunkHeader(oldStart: nat, oldCount: Option<nat>, newStart: nat, newCount: Option<nat>, tail: string)
    ensures IsHunkHeader(HunkHeader(oldStart, oldCount, newStart, newCount, tail))
  {
    var s := HunkHeader(oldStart, oldCount, newStart, newCount, tail);
    HunkHeaderShape(oldStart, oldCount, newStart, newCount, tail);
    assert s[..2] == "@@";
  }

  /** A written-out header has a newline only where its tail has one. */
  lemma HeaderHasNoNewline(oldStart: nat, oldCount: Option<nat>, newStart: nat, newCount: Option<nat>, tail: string)
    requires '\n' !in tail
    ensures '\n' !in HunkHeader(oldStart, oldCount, newStart, newCount, tail)
  {
    var s := HunkHeader(oldStart, oldCount, newStart, newCount, tail);
    HunkHeaderShape(oldStart, oldCount, newStart, newCount, tail);
    DigitsHaveNoNewline(oldStart);
    DigitsHaveNoNewline(newStart);
    CountSuffixHasNoNewline(oldCount);
    CountSuffixHasNoNewline(newCount);
  }

  lemma DigitsHaveNoNewline(n: nat)
    ensures '\n' !in Digits(n)
  {
    var ds := Digits(n);
    forall k | 0 <= k < |ds|
      ensures ds[k] != '\n'
    {
      assert IsDigit(ds[k]);
    }
  }

  lemma CountSuffixHasNoNewline(count: Option<nat>)
    ensures '\n' !in CountSuffix(count)
  {
    match count
    case None =>
    case Some(n) =>
      DigitsHaveNoNewline(n);
      assert CountSuffix(count) == [','] + Digits(n);
  }

  /** How a written-out header splits into its old range and the rest. */
  lemma HunkHeaderShape(oldStart: nat, oldCount: Option<nat>, newStart: nat, newCount: Option<nat>, tail: string)
    ensures HunkHeader(oldStart, oldCount, newStart, newCount, tail) ==
      "@@ -" + (Digits(oldStart) + (CountSuffix(oldCount) +
        (" +" + (Digits(newStart) + (CountSuffix(newCount) + (" @@" + tail))))))
  {
    NestRight("@@ -", Digits(oldStart), CountSuffix(oldCount), " +", Digits(newStart), CountSuffix(newCount),
              " @@", tail);
  }

  /** Eight strings joined from the left are joined from the right. */
  lemma NestRight(a: string, b: string, c: string, d: string, e: string, f: string, g: string, h: string)
    ensures a + b + c + d + e + f + g + h == a + (b + (c + (d + (e + (f + (g + h))))))
  {
  }

  /** A string whose old range ends at b and whose new range is written out
      from b parses to the written new-file start. */
  lemma ParseFromStages(s: string, b: nat, v: nat, cs: string, tail: string)
    requires b <= |s| && s[b..] == " +" + (Digits(v) + (cs + (" @@" + tail))) && IsCountText(cs)
    requires OldRangeEnd(s, 0) == Some(b)
    ensures ParseHunkStart(s) == Some(v)
  {
    var ds := Digits(v);
    NewStartOver(s, b, ds, cs, tail);
    HeaderMatchJoin(s, b, b + 2, |ds|);
    ParseAtStart(s, b + 2, |ds|);
    DecimalValueOfDigits(v);
  }

  /** A header that matches at its first character parses to the value of
      the captured digits. */
  lemma ParseAtStart(s: string, c: nat, n: nat)
    requires HeaderMatchAt(s, 0) == Some((c, n))
    ensures c + n <= |s| && ParseHunkStart(s) == Some(DecimalValue(s[c..c + n]))
  {
    assert FirstHeaderMatchFrom(s, 0) == Some(0);
  }

  /** The old range of a header, and what follows it. */
  lemma OldRangeThen(s: string, start: string, cs: string, rest: string, b: nat)
    requires s == "@@ -" + (start + (cs + rest))
    requires |start| >= 1 && forall k :: 0 <= k < |start| ==> IsDigit(start[k])
    requires IsCountText(cs) && rest != [] && rest[0] == ' '
    requires b == 4 + |start| + |cs|
    ensures OldRangeEnd(s, 0) == Some(b) && b <= |s| && s[b..] == rest
  {
    var pre := "@@ -" + start + cs;
    assert s[0..] == s;
    assert s == pre + rest;
    OldRangeOver(s, 0, start, cs, rest);
    RestAfter(s, 0, pre, rest);
  }

  /** The new-file part of a header begins with a space. */
  lemma StartsWithSpace(rest: string)
    ensures (" +" + rest) != [] && (" +" + rest)[0] == ' '
  {
  }

  /** The two stages of the header pattern, put together. */
  lemma HeaderMatchJoin(s: string, b: nat, c: nat, n: nat)
    requires OldRangeEnd(s, 0) == Some(b) && NewStartGroup(s, b) == Some((c, n))
    ensures HeaderMatchAt(s, 0) == Some((c, n))
  {
  }
}
