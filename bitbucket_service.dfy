/** The Bitbucket side of the service (src/services/bitbucket.service.ts): the
    walk over the whole pull request diff that turns added lines into patches,
    the reconciliation of the reviewer's suggestions with the comments already
    on the pull request, and the loop that posts them. */
module BitbucketService {
  import opened Wrappers
  import opened Text
  import opened Types
  import opened ConfigConstants
  import opened DiffLines
  import opened BaseService
  import opened Reconciliation

  // ---------------------------------------------------------------------
  // The file header regular expression /diff --git a\/(.*) b\/(.*)/
  // ---------------------------------------------------------------------

  /** The literal start of a match. */
  const GitPrefix: string := "diff --git a/"

  /** The separator between the two names. */
  const NameSeparator: string := " b/"

  /** Where a `.*` that starts at index i of `s` stops: at the first line
      terminator, or at the end. */
  function LineEnd(s: string, i: nat): (e: nat)
    requires i <= |s|
    ensures i <= e <= |s|
    ensures e < |s| ==> IsLineTerminator(s[e])
    ensures forall k :: i <= k < e ==> !IsLineTerminator(s[k])
    decreases |s| - i
  {
    if i == |s| || IsLineTerminator(s[i]) then i else LineEnd(s, i + 1)
  }

  /** The match attempt at index p: the literal start, then the greedy first
      group, which backs off to the last " b/" before the line ends. The
      result is the index of that " b/". */
  function SplitAt(s: string, p: nat): (r: Option<nat>)
    requires p <= |s|
    ensures r.Some? ==> OccursAt(s, GitPrefix, p)
    ensures OccursAt(s, GitPrefix, p) ==>
      var e := LineEnd(s, p + |GitPrefix|);
      && (r.Some? ==> p + |GitPrefix| <= r.value && r.value + |NameSeparator| <= e && OccursAt(s, NameSeparator, r.value))
      && (r.Some? ==> forall k :: r.value < k && k + |NameSeparator| <= e ==> !OccursAt(s, NameSeparator, k))
      && (r.None? ==> forall k :: p + |GitPrefix| <= k && k + |NameSeparator| <= e ==> !OccursAt(s, NameSeparator, k))
  {
    if !OccursAt(s, GitPrefix, p) then None
    else
      var e := LineEnd(s, p + |GitPrefix|);
      if e < p + |GitPrefix| + |NameSeparator| then None
      else
        match LastIndexAtOrBefore(s, NameSeparator, e - |NameSeparator|)
        case None => None
        case Some(q) => if q >= p + |GitPrefix| then Some(q) else None
  }

  /** The second group of the leftmost match at or after index p. */
  function FileNameFrom(s: string, p: nat): Option<string>
    requires p <= |s|
    decreases |s| - p
  {
    match SplitAt(s, p)
    case Some(q) => Some(s[q + |NameSeparator|..LineEnd(s, p + |GitPrefix|)])
    case None => if p == |s| then None else FileNameFrom(s, p + 1)
  }

  /** `line.match(/diff --git a\/(.*) b\/(.*)/)`, its second group. */
  function FileName(l: string): Option<string> {
    FileNameFrom(l, 0)
  }

  // ---------------------------------------------------------------------
  // getPatches
  // ---------------------------------------------------------------------

  /** A file header whose match succeeds: it changes the current file. */
  predicate NamesFile(l: string) {
    IsFileHeader(l) && FileName(l).Some?
  }

  /** The index of the last line of pre that names a file. */
  function LastNamingHeader(pre: seq<string>): (r: Option<nat>)
    ensures r.Some? ==> r.value < |pre| && NamesFile(pre[r.value])
    ensures r.Some? ==> forall j :: r.value < j < |pre| ==> !NamesFile(pre[j])
    ensures r.None? ==> forall j :: 0 <= j < |pre| ==> !NamesFile(pre[j])
  {
    if pre == [] then None
    else if NamesFile(pre[|pre| - 1]) then Some(|pre| - 1)
    else LastNamingHeader(pre[..|pre| - 1])
  }

  /** `currentFile` once the lines `pre` have been walked: the name of the
      last file header that matched, or "" before any. */
  function CurrentFile(pre: seq<string>): string {
    match LastNamingHeader(pre)
    case None => ""
    case Some(j) => FileName(pre[j]).value
  }

  /** The patch a line `l` produces after the lines `pre`, if any: an added
      line of a file that is not ignored. The counter runs over the whole
      diff and file headers do not move it. */
  function StreamRecordFor(pre: seq<string>, l: string): seq<Patch> {
    if IsAddition(l) && !IsFileIgnored(CurrentFile(pre)) then
      [Patch(CurrentFile(pre), LineCounter(pre, true), l[1..], EnclosingHunk(pre))]
    else []
  }

  /** The patches of the lines of the whole diff, in order. */
  function StreamRecords(lines: seq<string>): seq<Patch> {
    if lines == [] then []
    else
      var pre := lines[..|lines| - 1];
      StreamRecords(pre) + StreamRecordFor(pre, lines[|lines| - 1])
  }

  /** The state of the walk once the first i lines have been read. */
  predicate WalkedTo(lines: seq<string>, i: nat, file: string, counter: nat, hunk: string, patches: seq<Patch>)
    requires i <= |lines|
  {
    file == CurrentFile(lines[..i]) && counter == LineCounter(lines[..i], true) &&
    hunk == EnclosingHunk(lines[..i]) && patches == StreamRecords(lines[..i])
  }

  /** getPatches over the text of the pull request diff. */
  method GetPatches(diff: string) returns (patches: seq<Patch>)
    ensures patches == StreamRecords(Split(diff))
  {
    patches := [];
    var diffLines := Split(diff);
    var currentFile := "";
    var currentLine: nat := 0;
    var currentDiffHunk := "";
    var i := 0;
    while i < |diffLines|
      invariant 0 <= i <= |diffLines|
      invariant WalkedTo(diffLines, i, currentFile, currentLine, currentDiffHunk, patches)
    {
      var line := diffLines[i];
      ghost var file0, line0, hunk0, patches0 := currentFile, currentLine, currentDiffHunk, patches;
      if IsFileHeader(line) {
        var m := FileName(line);
        if m.Some? {
          currentFile := m.value;
        }
        FileHeaderStep(diffLines, i, file0, line0, hunk0, patches0, currentFile);
      } else if IsHunkHeader(line) {
        var m := ParseHunkStart(line);
        if m.Some? {
          currentLine := m.value;
        }
        currentDiffHunk := line;
        HunkHeaderStep(diffLines, i, file0, line0, hunk0, patches0, currentLine);
      } else if IsAddition(line) && !IsFileIgnored(currentFile) {
        patches := patches + [Patch(currentFile, currentLine, line[1..], currentDiffHunk)];
        currentLine := currentLine + 1;
        AdditionStep(diffLines, i, file0, line0, hunk0, patches0);
      } else {
        if !IsDeletion(line) {
          currentLine := currentLine + 1;
        }
        if IsAddition(line) {
          AdditionIsNoDeletion(line);
          IgnoredAdditionStep(diffLines, i, file0, line0, hunk0, patches0);
        } else {
          OtherStep(diffLines, i, file0, line0, hunk0, patches0, currentLine);
        }
      }
      i := i + 1;
    }
    assert diffLines[..i] == diffLines;
  }

  /** A file header, read in the walk: the file is its name if it matched. */
  lemma FileHeaderStep(lines: seq<string>, i: nat, file: string, counter: nat, hunk: string, patches: seq<Patch>,
                       file': string)
    requires i < |lines|
    requires WalkedTo(lines, i, file, counter, hunk, patches)
    requires IsFileHeader(lines[i])
    requires file' == if FileName(lines[i]).Some? then FileName(lines[i]).value else file
    ensures WalkedTo(lines, i + 1, file', counter, hunk, patches)
  {
    FileHeaderSnoc(lines[..i], lines[i]);
    WalkedToNext(lines, i, file', counter, hunk, patches);
  }

  /** A hunk header, read in the walk: the counter is its start if it
      parsed, and the header is the hunk. */
  lemma HunkHeaderStep(lines: seq<string>, i: nat, file: string, counter: nat, hunk: string, patches: seq<Patch>,
                       counter': nat)
    requires i < |lines|
    requires WalkedTo(lines, i, file, counter, hunk, patches)
    requires IsHunkHeader(lines[i])
    requires counter' == if ParseHunkStart(lines[i]).Some? then ParseHunkStart(lines[i]).value else counter
    ensures WalkedTo(lines, i + 1, file, counter', lines[i], patches)
  {
    HunkHeaderSnoc(lines[..i], lines[i]);
    WalkedToNext(lines, i, file, counter', lines[i], patches);
  }

  /** An added line of a file that is not ignored, read in the walk. */
  lemma AdditionStep(lines: seq<string>, i: nat, file: string, counter: nat, hunk: string, patches: seq<Patch>)
    requires i < |lines|
    requires WalkedTo(lines, i, file, counter, hunk, patches)
    requires IsAddition(lines[i]) && !IsFileIgnored(file)
    ensures WalkedTo(lines, i + 1, file, counter + 1, hunk, patches + [Patch(file, counter, lines[i][1..], hunk)])
  {
    AdditionSnoc(lines[..i], lines[i]);
    WalkedToNext(lines, i, file, counter + 1, hunk, patches + [Patch(file, counter, lines[i][1..], hunk)]);
  }

  /** An added line of an ignored file, read in the walk: only the counter
      moves. */
  lemma IgnoredAdditionStep(lines: seq<string>, i: nat, file: string, counter: nat, hunk: string,
                            patches: seq<Patch>)
    requires i < |lines|
    requires WalkedTo(lines, i, file, counter, hunk, patches)
    requires IsAddition(lines[i]) && IsFileIgnored(file)
    ensures WalkedTo(lines, i + 1, file, counter + 1, hunk, patches)
  {
    IgnoredFileNoRecord(lines[..i], lines[i], file);
    SkippedAdditionSnoc(lines[..i], lines[i]);
    WalkedToNext(lines, i, file, counter + 1, hunk, patches);
  }

  /** The state of the walk after line i, given by its values after one more
      line. */
  lemma WalkedToNext(lines: seq<string>, i: nat, file: string, counter: nat, hunk: string, patches: seq<Patch>)
    requires i < |lines|
    requires CurrentFile(lines[..i] + [lines[i]]) == file
    requires LineCounter(lines[..i] + [lines[i]], true) == counter
    requires EnclosingHunk(lines[..i] + [lines[i]]) == hunk
    requires StreamRecords(lines[..i] + [lines[i]]) == patches
    ensures WalkedTo(lines, i + 1, file, counter, hunk, patches)
  {
    assert lines[..i + 1] == lines[..i] + [lines[i]];
  }

  /** An added line of an ignored file produces no patch. */
  lemma IgnoredFileNoRecord(pre: seq<string>, l: string, file: string)
    requires file == CurrentFile(pre) && IsFileIgnored(file)
    ensures StreamRecordFor(pre, l) == []
  {
  }

  /** An added line is not a removed one. */
  lemma AdditionIsNoDeletion(l: string)
    requires IsAddition(l)
    ensures !IsDeletion(l)
  {
    assert l[0] == '+';
  }

  /** Any other line, read in the walk: only the counter may move. */
  lemma OtherStep(lines: seq<string>, i: nat, file: string, counter: nat, hunk: string, patches: seq<Patch>,
                  counter': nat)
    requires i < |lines|
    requires WalkedTo(lines, i, file, counter, hunk, patches)
    requires !IsFileHeader(lines[i]) && !IsHunkHeader(lines[i]) && !IsAddition(lines[i])
    requires counter' == if IsDeletion(lines[i]) then counter else counter + 1
    ensures WalkedTo(lines, i + 1, file, counter', hunk, patches)
  {
    OtherSnoc(lines[..i], lines[i]);
    WalkedToNext(lines, i, file, counter', hunk, patches);
  }

  /** The current file after one more line. */
  lemma CurrentFileStep(pre: seq<string>, l: string)
    ensures CurrentFile(pre + [l]) == if NamesFile(l) then FileName(l).value else CurrentFile(pre)
  {
    var s := pre + [l];
    assert s[..|pre|] == pre;
    assert s[|pre|] == l;
    match LastNamingHeader(pre)
    case None =>
    case Some(j) => assert s[j] == pre[j];
  }

  /** A file header is none of the other kinds of line. */
  lemma FileHeaderIsNoOther(l: string)
    ensures IsFileHeader(l) ==> !IsHunkHeader(l) && !IsAddition(l) && !IsDeletion(l)
  {
    if IsFileHeader(l) {
      assert l[0] == 'd';
    }
  }

  /** A file header: it may change the current file, and leaves the counter,
      the hunk and the patches alone; in particular the counter is not reset. */
  lemma FileHeaderSnoc(pre: seq<string>, l: string)
    requires IsFileHeader(l)
    ensures CurrentFile(pre + [l]) == if FileName(l).Some? then FileName(l).value else CurrentFile(pre)
    ensures LineCounter(pre + [l], true) == LineCounter(pre, true)
    ensures EnclosingHunk(pre + [l]) == EnclosingHunk(pre)
    ensures StreamRecords(pre + [l]) == StreamRecords(pre)
  {
    assert (pre + [l])[..|pre|] == pre;
    FileHeaderIsNoOther(l);
    CurrentFileStep(pre, l);
    CounterStep(pre, l, true);
    EnclosingHunkStep(pre, l);
  }

  /** A hunk header: it becomes the hunk, nothing is recorded, the file stays,
      and the counter is its new-file start if that parses and is kept
      otherwise. */
  lemma HunkHeaderSnoc(pre: seq<string>, l: string)
    requires IsHunkHeader(l)
    ensures SetsCounter(l, ParseHunkStart) ==> LineCounter(pre + [l], true) == ParseHunkStart(l).value
    ensures !SetsCounter(l, ParseHunkStart) ==> LineCounter(pre + [l], true) == LineCounter(pre, true)
    ensures CurrentFile(pre + [l]) == CurrentFile(pre)
    ensures EnclosingHunk(pre + [l]) == l
    ensures StreamRecords(pre + [l]) == StreamRecords(pre)
  {
    assert (pre + [l])[..|pre|] == pre;
    NotBothPrefixes(l);
    CurrentFileStep(pre, l);
    CounterStep(pre, l, true);
    EnclosingHunkStep(pre, l);
  }

  /** An added line of a file that is not ignored: it is recorded with the
      file, the counter and the hunk, and the counter moves on. */
  lemma AdditionSnoc(pre: seq<string>, l: string)
    requires IsAddition(l) && !IsFileIgnored(CurrentFile(pre))
    ensures !IsFileHeader(l) && !IsHunkHeader(l)
    ensures CurrentFile(pre + [l]) == CurrentFile(pre)
    ensures LineCounter(pre + [l], true) == LineCounter(pre, true) + 1
    ensures EnclosingHunk(pre + [l]) == EnclosingHunk(pre)
    ensures StreamRecords(pre + [l]) ==
      StreamRecords(pre) + [Patch(CurrentFile(pre), LineCounter(pre, true), l[1..], EnclosingHunk(pre))]
  {
    assert (pre + [l])[..|pre|] == pre;
    AdditionAdvances(l, true);
    CurrentFileStep(pre, l);
    CounterStep(pre, l, true);
    EnclosingHunkStep(pre, l);
  }

  /** Any other line: nothing is recorded, and the counter moves on unless
      it is a removed line. */
  lemma OtherSnoc(pre: seq<string>, l: string)
    requires !IsFileHeader(l) && !IsHunkHeader(l) && !IsAddition(l)
    ensures CurrentFile(pre + [l]) == CurrentFile(pre)
    ensures LineCounter(pre + [l], true) == LineCounter(pre, true) + (if IsDeletion(l) then 0 else 1)
    ensures EnclosingHunk(pre + [l]) == EnclosingHunk(pre)
    ensures StreamRecords(pre + [l]) == StreamRecords(pre)
  {
    assert (pre + [l])[..|pre|] == pre;
    CurrentFileStep(pre, l);
    CounterStep(pre, l, true);
    EnclosingHunkStep(pre, l);
  }

  // ---------------------------------------------------------------------
  // Properties of the walk
  // ---------------------------------------------------------------------

  /** The line at index i of `lines` produces patch p: an added line of a
      file that is not ignored, recorded with that file's name, the counter
      and the hunk header above it. */
  predicate ProducedAt(lines: seq<string>, i: nat, p: Patch) {
    i < |lines| && IsAddition(lines[i]) && !IsFileIgnored(CurrentFile(lines[..i])) &&
    p == Patch(CurrentFile(lines[..i]), LineCounter(lines[..i], true), lines[i][1..], EnclosingHunk(lines[..i]))
  }

  /** A patch is in the result exactly when some line produces it. */
  lemma {:induction false} StreamRecordsMembership(lines: seq<string>, p: Patch)
    ensures p in StreamRecords(lines) <==> exists i :: ProducedAt(lines, i, p)
  {
    if lines != [] {
      var n := |lines| - 1;
      var pre := lines[..n];
      StreamRecordsMembership(pre, p);
      forall i | 0 <= i < n
        ensures ProducedAt(lines, i, p) <==> ProducedAt(pre, i, p)
      {
        ProducedAtPrefix(lines, n, i, p);
      }
      LastProduced(lines, p);
      if exists i :: ProducedAt(lines, i, p) {
        var i :| ProducedAt(lines, i, p);
        assert i == n || ProducedAt(pre, i, p);
      }
    }
  }

  /** Whether a line produces a patch depends only on the lines up to it. */
  lemma ProducedAtPrefix(lines: seq<string>, n: nat, i: nat, p: Patch)
    requires i < n <= |lines|
    ensures ProducedAt(lines, i, p) <==> ProducedAt(lines[..n], i, p)
  {
    assert lines[..n][i] == lines[i] && lines[..n][..i] == lines[..i];
  }

  /** The last line produces what StreamRecordFor gives it. */
  lemma LastProduced(lines: seq<string>, p: Patch)
    requires lines != []
    ensures p in StreamRecordFor(lines[..|lines| - 1], lines[|lines| - 1]) <==> ProducedAt(lines, |lines| - 1, p)
  {
  }

  /** No patch has an ignored path. */
  lemma NoPatchOfIgnoredFile(lines: seq<string>, p: Patch)
    requires p in StreamRecords(lines)
    ensures !IsFileIgnored(p.path)
  {
    StreamRecordsMembership(lines, p);
  }

  /** Before the first file header that matches the current file is "", so
      an added line there is recorded with the empty path. */
  lemma PathEmptyBeforeFirstFile(pre: seq<string>, l: string)
    requires forall j :: 0 <= j < |pre| ==> !NamesFile(pre[j])
    requires IsAddition(l)
    ensures CurrentFile(pre) == ""
    ensures StreamRecords(pre + [l]) ==
      StreamRecords(pre) + [Patch("", LineCounter(pre, true), l[1..], EnclosingHunk(pre))]
  {
    NoNamingHeaderNoFile(pre);
    EmptyPathNotIgnored();
    AdditionSnoc(pre, l);
  }

  /** Without a file header that matched, the current file is "". */
  lemma NoNamingHeaderNoFile(pre: seq<string>)
    requires forall j :: 0 <= j < |pre| ==> !NamesFile(pre[j])
    ensures CurrentFile(pre) == ""
  {
  }

  /** The empty path matches no pattern of the ignore list. */
  lemma EmptyPathNotIgnored()
    ensures !IsFileIgnored("")
  {
    forall p: IgnorePattern
      ensures !Matches(p, "")
    {
      NoPatternMatchesEmpty(p);
    }
  }

  /** The "+++ b/..." line that names the new file starts with '+', so in a
      file that is not ignored it is recorded as an added line, without its
      first '+', and moves the counter. */
  lemma NewFileMarkerRecorded(pre: seq<string>, rest: string)
    requires !IsFileIgnored(CurrentFile(pre))
    ensures StreamRecords(pre + ["+++" + rest]) ==
      StreamRecords(pre) + [Patch(CurrentFile(pre), LineCounter(pre, true), "++" + rest, EnclosingHunk(pre))]
    ensures LineCounter(pre + ["+++" + rest], true) == LineCounter(pre, true) + 1
  {
    var l := "+++" + rest;
    assert l[..1] == "+";
    assert l[1..] == "++" + rest;
    AdditionSnoc(pre, l);
  }

  /** An added line of an ignored file is not recorded but still moves the
      counter. */
  lemma IgnoredAdditionAdvances(pre: seq<string>, l: string)
    requires IsAddition(l) && IsFileIgnored(CurrentFile(pre))
    ensures StreamRecords(pre + [l]) == StreamRecords(pre)
    ensures LineCounter(pre + [l], true) == LineCounter(pre, true) + 1
    ensures CurrentFile(pre + [l]) == CurrentFile(pre)
    ensures EnclosingHunk(pre + [l]) == EnclosingHunk(pre)
  {
    SkippedAdditionSnoc(pre, l);
  }

  /** An added line that produces no patch only moves the counter. */
  lemma SkippedAdditionSnoc(pre: seq<string>, l: string)
    requires IsAddition(l) && StreamRecordFor(pre, l) == []
    ensures StreamRecords(pre + [l]) == StreamRecords(pre)
    ensures LineCounter(pre + [l], true) == LineCounter(pre, true) + 1
    ensures CurrentFile(pre + [l]) == CurrentFile(pre)
    ensures EnclosingHunk(pre + [l]) == EnclosingHunk(pre)
  {
    assert (pre + [l])[..|pre|] == pre;
    AdditionAdvances(l, true);
    CurrentFileStep(pre, l);
    CounterStep(pre, l, true);
    EnclosingHunkStep(pre, l);
  }

  /** The counter is not reset at a file header: the first added line after
      a file header and before any hunk header is numbered on from the lines
      of the previous file. */
  lemma CounterCarriesOverFileHeader(pre: seq<string>, h: string, l: string)
    requires IsFileHeader(h) && IsAddition(l)
    requires !IsFileIgnored(CurrentFile(pre + [h]))
    ensures StreamRecords(pre + [h] + [l]) ==
      StreamRecords(pre) + [Patch(CurrentFile(pre + [h]), LineCounter(pre, true), l[1..], EnclosingHunk(pre))]
  {
    FileHeaderSnoc(pre, h);
    AdditionSnoc(pre + [h], l);
  }

  // ---------------------------------------------------------------------
  // Properties of the file name
  // ---------------------------------------------------------------------

  /** The name contains no line terminator and no " b/": it is what follows
      the last " b/" of the line. */
  lemma {:induction false} FileNameFromShape(s: string, p: nat)
    requires p <= |s|
    requires FileNameFrom(s, p).Some?
    ensures NoLineTerminator(FileNameFrom(s, p).value)
    ensures forall k :: !OccursAt(FileNameFrom(s, p).value, NameSeparator, k)
    decreases |s| - p
  {
    match SplitAt(s, p)
    case Some(q) =>
      var e := LineEnd(s, p + |GitPrefix|);
      var g := s[q + 3..e];
      forall k | 0 <= k
        ensures !OccursAt(g, NameSeparator, k)
      {
        OccursInSlice(s, q + 3, e, NameSeparator, k);
      }
    case None =>
      FileNameFromShape(s, p + 1);
  }

  /** FileNameFromShape for the whole line. */
  lemma FileNameShape(l: string)
    requires FileName(l).Some?
    ensures NoLineTerminator(FileName(l).value)
    ensures forall k :: !OccursAt(FileName(l).value, NameSeparator, k)
  {
    FileNameFromShape(l, 0);
  }

  /** The header line for a file renamed from `a` to `b` gives `b`, when
      neither name has a line terminator and `b` has no " b/". */
  lemma FileNameRoundTrip(a: string, b: string)
    requires NoLineTerminator(a) && NoLineTerminator(b)
    requires forall k :: !OccursAt(b, NameSeparator, k)
    ensures FileName(GitPrefix + a + NameSeparator + b) == Some(b)
  {
    var s := GitPrefix + a + NameSeparator + b;
    var q := |GitPrefix| + |a|;
    assert s[..13] == GitPrefix;
    assert s[13..q] == a;
    assert s[q..q + 3] == NameSeparator;
    assert s[q + 3..] == b;
    FileNameOver(s, a, b);
  }

  /** FileNameRoundTrip over a string given by its parts. */
  lemma FileNameOver(s: string, a: string, b: string)
    requires |s| == 13 + |a| + 3 + |b|
    requires s[..13] == GitPrefix && s[13..13 + |a|] == a
    requires s[13 + |a|..13 + |a| + 3] == NameSeparator && s[13 + |a| + 3..] == b
    requires NoLineTerminator(a) && NoLineTerminator(b)
    requires forall k :: !OccursAt(b, NameSeparator, k)
    ensures FileName(s) == Some(b)
  {
    var q := 13 + |a|;
    assert OccursAt(s, GitPrefix, 0) by {
      assert s[0..13] == s[..13];
    }
    NoTerminatorOver(s, a, b);
    assert LineEnd(s, 13) == |s|;
    assert OccursAt(s, NameSeparator, q);
    var r := SplitAt(s, 0);
    assert r.Some?;
    assert r.value == q by {
      if r.value > q {
        SeparatorNotAfter(s, q, b, r.value);
      }
    }
    assert s[q + 3..|s|] == b;
  }

  /** No character after the prefix is a line terminator. */
  lemma NoTerminatorOver(s: string, a: string, b: string)
    requires |s| == 13 + |a| + 3 + |b|
    requires s[13..13 + |a|] == a
    requires s[13 + |a|..13 + |a| + 3] == NameSeparator && s[13 + |a| + 3..] == b
    requires NoLineTerminator(a) && NoLineTerminator(b)
    ensures forall k :: 13 <= k < |s| ==> !IsLineTerminator(s[k])
  {
    forall k | 13 <= k < |s|
      ensures !IsLineTerminator(s[k])
    {
      if k < 13 + |a| {
        assert s[k] == s[13..13 + |a|][k - 13];
      } else if k < 13 + |a| + 3 {
        assert s[k] == s[13 + |a|..13 + |a| + 3][k - 13 - |a|];
      } else {
        assert s[k] == s[13 + |a| + 3..][k - 16 - |a|];
      }
    }
  }

  /** No " b/" starts after the one at q. */
  lemma SeparatorNotAfter(s: string, q: nat, b: string, k: nat)
    requires q + 3 + |b| == |s|
    requires s[q..q + 3] == NameSeparator && s[q + 3..] == b
    requires forall j :: !OccursAt(b, NameSeparator, j)
    requires q < k
    ensures !OccursAt(s, NameSeparator, k)
  {
    assert s[q + 1] == s[q..q + 3][1] && s[q + 2] == s[q..q + 3][2];
    if k + 3 <= |s| {
      assert s[k] == s[k..k + 3][0];
      if q + 3 <= k {
        assert s[k..k + 3] == b[k - q - 3..k - q];
        assert !OccursAt(b, NameSeparator, k - q - 3);
      }
    }
  }

  // ---------------------------------------------------------------------
  // getComments
  // ---------------------------------------------------------------------

  /** Where a comment already on the pull request is attached, when it is. */
  datatype Inline = Inline(path: Option<string>, line: Option<int>)

  /** A comment already on the pull request: `inline` is absent for a general
      comment, and `raw` stands for `content.raw`, absent when either is. */
  datatype BitbucketComment = BitbucketComment(inline: Option<Inline>, raw: Option<string>)

  /** What an existing comment is compared by: `inline?.path`,
      `inline?.line` and `content?.raw`. */
  function KeyOfBitbucketComment(c: BitbucketComment): DedupKey {
    match c.inline
    case None => DedupKey(None, None, c.raw)
    case Some(i) => DedupKey(i.path, i.line, c.raw)
  }

  /** The keys of listed comments, in order. */
  function KeysOf(cs: seq<BitbucketComment>): (r: seq<DedupKey>)
    ensures |r| == |cs|
    ensures forall i :: 0 <= i < |cs| ==> r[i] == KeyOfBitbucketComment(cs[i])
  {
    if cs == [] then [] else [KeyOfBitbucketComment(cs[0])] + KeysOf(cs[1..])
  }

  /** `response.data.values || []`, as keys. */
  function ExistingKeys(values: Option<seq<BitbucketComment>>): seq<DedupKey> {
    match values
    case None => []
    case Some(cs) => KeysOf(cs)
  }

  /** How a posted comment comes back when the comments are listed. */
  function AsListed(c: Comment): BitbucketComment {
    BitbucketComment(Some(Inline(Some(c.path), Some(c.line))), Some(c.content))
  }

  /** getComments once the existing comments have been listed. */
  function GetComments(values: Option<seq<BitbucketComment>>, suggestions: seq<CommentSuggestion>,
                       patches: seq<Patch>): seq<Comment> {
    Reconcile(ExistingKeys(values), patches, suggestions)
  }

  /** A suggestion becomes a comment exactly when some patch has its path and
      line and no listed comment has that path, line and text. */
  lemma GetCommentsIff(values: seq<BitbucketComment>, suggestions: seq<CommentSuggestion>, patches: seq<Patch>, c: Comment)
    ensures c in GetComments(Some(values), suggestions, patches) <==>
      exists i :: 0 <= i < |suggestions| && Comment(suggestions[i].path, suggestions[i].line, suggestions[i].message) == c &&
        (exists j :: 0 <= j < |patches| && patches[j].path == c.path && patches[j].line == c.line) &&
        !(exists k :: 0 <= k < |values| && KeyOfBitbucketComment(values[k]) == KeyOf(c))
  {
    var keys := ExistingKeys(Some(values));
    ReconcileMembership(keys, patches, suggestions, c);
    assert KeyOf(c) in keys <==> exists k :: 0 <= k < |values| && KeyOfBitbucketComment(values[k]) == KeyOf(c) by {
      if KeyOf(c) in keys {
        var k :| 0 <= k < |keys| && keys[k] == KeyOf(c);
        assert KeyOfBitbucketComment(values[k]) == KeyOf(c);
      }
    }
    forall i | 0 <= i < |suggestions|
      ensures Suggest(keys, patches, suggestions[i]) == Some(c) <==>
        Comment(suggestions[i].path, suggestions[i].line, suggestions[i].message) == c &&
        (exists j :: 0 <= j < |patches| && patches[j].path == c.path && patches[j].line == c.line) &&
        KeyOf(c) !in keys
    {
      SuggestIff(keys, patches, suggestions[i]);
    }
  }

  /** A listing without `values` is an empty one. */
  lemma MissingValuesAreNoComments(suggestions: seq<CommentSuggestion>, patches: seq<Patch>)
    ensures GetComments(None, suggestions, patches) == GetComments(Some([]), suggestions, patches)
    ensures GetComments(None, suggestions, patches) == Reconcile([], patches, suggestions)
  {
  }

  /** A general comment (no `inline`) never makes a suggestion a duplicate. */
  lemma GeneralCommentNeverDuplicate(values: seq<BitbucketComment>, raw: Option<string>,
                                     suggestions: seq<CommentSuggestion>, patches: seq<Patch>)
    ensures GetComments(Some(values + [BitbucketComment(None, raw)]), suggestions, patches) ==
      GetComments(Some(values), suggestions, patches)
  {
    var keys := ExistingKeys(Some(values));
    var extra := [KeyOfBitbucketComment(BitbucketComment(None, raw))];
    assert ExistingKeys(Some(values + [BitbucketComment(None, raw)])) == keys + extra by {
      ExistingKeysAppend(values, [BitbucketComment(None, raw)]);
    }
    ReconcileIgnoresUnanchored(keys, extra, patches, suggestions);
  }

  /** The keys of two listings one after the other. */
  lemma ExistingKeysAppend(a: seq<BitbucketComment>, b: seq<BitbucketComment>)
    ensures ExistingKeys(Some(a + b)) == ExistingKeys(Some(a)) + ExistingKeys(Some(b))
  {
    var l, r := ExistingKeys(Some(a + b)), ExistingKeys(Some(a)) + ExistingKeys(Some(b));
    assert |l| == |r|;
    forall i | 0 <= i < |l| ensures l[i] == r[i] {
      if i < |a| {
        assert (a + b)[i] == a[i];
      } else {
        assert (a + b)[i] == b[i - |a|];
      }
    }
  }

  /** Once the comments of a run have been posted and come back in the
      listing, the same suggestions give no comment on the next run. */
  lemma GetCommentsRerun(values: seq<BitbucketComment>, suggestions: seq<CommentSuggestion>, patches: seq<Patch>,
                         posted: seq<BitbucketComment>)
    requires forall c :: c in GetComments(Some(values), suggestions, patches) ==> AsListed(c) in posted
    ensures GetComments(Some(values + posted), suggestions, patches) == []
  {
    var keys, more := ExistingKeys(Some(values)), ExistingKeys(Some(posted));
    ExistingKeysAppend(values, posted);
    forall c | c in Reconcile(keys, patches, suggestions) ensures KeyOf(c) in more {
      var k :| 0 <= k < |posted| && posted[k] == AsListed(c);
      assert more[k] == KeyOf(c);
    }
    RerunPostsNothing(keys, patches, suggestions, more);
  }

  // ---------------------------------------------------------------------
  // postComments
  // ---------------------------------------------------------------------

  /** What happens to the comment at position i: posted or failed as the host
      answers; there is no check of the parameters. */
  function PostEventFor(c: Comment, i: nat, accepts: nat -> bool): PostEvent {
    if accepts(i) then Posted(c) else PostFailed(c)
  }

  /** postComments: listing the existing comments may fail, and then nothing
      is posted and the error is re-thrown; otherwise every computed comment is
      sent in order, and a failed call does not stop the loop. `accepts(i)` is
      whether the host accepts the i-th call. */
  method PostComments(fetched: Result<Option<seq<BitbucketComment>>>, suggestions: seq<CommentSuggestion>,
                      patches: seq<Patch>, accepts: nat -> bool)
    returns (r: Result<seq<PostEvent>>)
    ensures fetched.Err? ==> r == Err(fetched.error)
    ensures fetched.Ok? ==> r.Ok?
    ensures fetched.Ok? && r.Ok? ==>
      var comments := GetComments(fetched.value, suggestions, patches);
      && |r.value| == |comments|
      && forall i :: 0 <= i < |comments| ==> r.value[i] == PostEventFor(comments[i], i, accepts)
  {
    if fetched.Err? {
      return Err(fetched.error);
    }
    var comments := GetComments(fetched.value, suggestions, patches);
    var events: seq<PostEvent> := [];
    if |comments| == 0 {
      return Ok(events);
    }
    var i := 0;
    while i < |comments|
      invariant i <= |comments|
      invariant |events| == i
      invariant forall j :: 0 <= j < i ==> events[j] == PostEventFor(comments[j], j, accepts)
    {
      var comment := comments[i];
      if accepts(i) {
        events := events + [Posted(comment)];
      } else {
        events := events + [PostFailed(comment)];
      }
      i := i + 1;
    }
    return Ok(events);
  }

  /** Every computed comment is sent: none is skipped, whatever its path,
      line or text. */
  lemma NoCommentSkipped(comments: seq<Comment>, accepts: nat -> bool, i: nat)
    requires i < |comments|
    ensures !PostEventFor(comments[i], i, accepts).Skipped?
    ensures PostEventFor(comments[i], i, accepts).comment == comments[i]
  {
  }
}
