/** The GitHub side of the service (src/services/github.service.ts): the
    walk over the patch of every changed file that turns added lines into
    patches, the reconciliation of the reviewer's suggestions with the review
    comments already on the pull request, and the loop that posts them. */
module GitHubService {
  import opened Wrappers
  import opened Text
  import opened Types
  import opened DiffLines
  import opened BaseService
  import opened Reconciliation

  /** A changed file as the pull request file listing gives it; binary and
      very large files come without a patch. */
  datatype ChangedFile = ChangedFile(filename: string, patch: Option<string>)

  /** A review comment already on the pull request; a comment on a line that
      is no longer in the diff has no line. */
  datatype ReviewComment = ReviewComment(path: string, line: Option<int>, body: string)

  // ---------------------------------------------------------------------
  // getPatches
  // ---------------------------------------------------------------------

  /** `!file.patch || isFileIgnored(file.filename)` fails: the file is walked. */
  predicate IsWalked(f: ChangedFile) {
    f.patch.Some? && f.patch.value != "" && !IsFileIgnored(f.filename)
  }

  /** The patch an added line `l` produces after the lines `pre` of its file,
      if it produces one. */
  function RecordFor(path: string, pre: seq<string>, l: string): seq<Patch> {
    if IsAddition(l) then [Patch(path, LineCounter(pre, false), l[1..], EnclosingHunk(pre))] else []
  }

  /** The patches of one file's lines, in order. */
  function FileRecords(path: string, lines: seq<string>): seq<Patch> {
    if lines == [] then []
    else
      var pre := lines[..|lines| - 1];
      FileRecords(path, pre) + RecordFor(path, pre, lines[|lines| - 1])
  }

  /** The patches of all walked files, file after file. */
  function GitHubPatches(files: seq<ChangedFile>): seq<Patch> {
    if files == [] then []
    else
      var f := files[|files| - 1];
      GitHubPatches(files[..|files| - 1]) + (if IsWalked(f) then FileRecords(f.filename, Split(f.patch.value)) else [])
  }

  /** The state of the inner loop once the first i lines of a file have
      been read. */
  predicate FileWalkedTo(path: string, lines: seq<string>, i: nat, counter: nat, hunk: string, records: seq<Patch>)
    requires i <= |lines|
  {
    counter == LineCounter(lines[..i], false) && hunk == EnclosingHunk(lines[..i]) &&
    records == FileRecords(path, lines[..i])
  }

  /** The inner loop over the lines of one file's patch. */
  method WalkFile(path: string, lines: seq<string>) returns (records: seq<Patch>)
    ensures records == FileRecords(path, lines)
  {
    records := [];
    var currentLine: nat := 0;
    var currentDiffHunk := "";
    var i := 0;
    while i < |lines|
      invariant 0 <= i <= |lines|
      invariant FileWalkedTo(path, lines, i, currentLine, currentDiffHunk, records)
    {
      var l := lines[i];
      ghost var line0, hunk0, records0 := currentLine, currentDiffHunk, records;
      if IsHunkHeader(l) {
        var m := ParseHunkStart(l);
        if m.Some? {
          currentLine := m.value;
        }
        currentDiffHunk := l;
        HeaderStep(path, lines, i, line0, hunk0, records0, currentLine);
      } else if IsAddition(l) {
        records := records + [Patch(path, currentLine, l[1..], currentDiffHunk)];
        currentLine := currentLine + 1;
        AdditionStep(path, lines, i, line0, hunk0, records0);
      } else {
        if !IsDeletion(l) {
          currentLine := currentLine + 1;
        }
        PlainStep(path, lines, i, line0, hunk0, records0, currentLine);
      }
      i := i + 1;
    }
    assert lines[..i] == lines;
  }

  /** A hunk header, read in the walk: the counter is its start if it parsed,
      and the header is the hunk. */
  lemma HeaderStep(path: string, lines: seq<string>, i: nat, counter: nat, hunk: string, records: seq<Patch>,
                   counter': nat)
    requires i < |lines|
    requires FileWalkedTo(path, lines, i, counter, hunk, records)
    requires IsHunkHeader(lines[i])
    requires counter' == if ParseHunkStart(lines[i]).Some? then ParseHunkStart(lines[i]).value else counter
    ensures FileWalkedTo(path, lines, i + 1, counter', lines[i], records)
  {
    HeaderSnoc(path, lines[..i], lines[i]);
    FileWalkedToNext(path, lines, i, counter', lines[i], records);
  }

  /** An added line, read in the walk. */
  lemma AdditionStep(path: string, lines: seq<string>, i: nat, counter: nat, hunk: string, records: seq<Patch>)
    requires i < |lines|
    requires FileWalkedTo(path, lines, i, counter, hunk, records)
    requires IsAddition(lines[i])
    ensures FileWalkedTo(path, lines, i + 1, counter + 1, hunk, records + [Patch(path, counter, lines[i][1..], hunk)])
  {
    AdditionSnoc(path, lines[..i], lines[i]);
    FileWalkedToNext(path, lines, i, counter + 1, hunk, records + [Patch(path, counter, lines[i][1..], hunk)]);
  }

  /** Any other line, read in the walk: only the counter may move. */
  lemma PlainStep(path: string, lines: seq<string>, i: nat, counter: nat, hunk: string, records: seq<Patch>,
                  counter': nat)
    requires i < |lines|
    requires FileWalkedTo(path, lines, i, counter, hunk, records)
    requires !IsHunkHeader(lines[i]) && !IsAddition(lines[i])
    requires counter' == if IsDeletion(lines[i]) then counter else counter + 1
    ensures FileWalkedTo(path, lines, i + 1, counter', hunk, records)
  {
    PlainSnoc(path, lines[..i], lines[i]);
    FileWalkedToNext(path, lines, i, counter', hunk, records);
  }

  /** The state of the inner loop after line i, given by its values after one
      more line. */
  lemma FileWalkedToNext(path: string, lines: seq<string>, i: nat, counter: nat, hunk: string, records: seq<Patch>)
    requires i < |lines|
    requires LineCounter(lines[..i] + [lines[i]], false) == counter
    requires EnclosingHunk(lines[..i] + [lines[i]]) == hunk
    requires FileRecords(path, lines[..i] + [lines[i]]) == records
    ensures FileWalkedTo(path, lines, i + 1, counter, hunk, records)
  {
    assert lines[..i + 1] == lines[..i] + [lines[i]];
  }

  /** A hunk header: it becomes the hunk, nothing is recorded, and the counter
      is its new-file start if that parses and is kept otherwise. */
  lemma HeaderSnoc(path: string, pre: seq<string>, l: string)
    requires IsHunkHeader(l)
    ensures SetsCounter(l, ParseHunkStart) ==> LineCounter(pre + [l], false) == ParseHunkStart(l).value
    ensures !SetsCounter(l, ParseHunkStart) ==> LineCounter(pre + [l], false) == LineCounter(pre, false)
    ensures EnclosingHunk(pre + [l]) == l
    ensures FileRecords(path, pre + [l]) == FileRecords(path, pre)
  {
    assert (pre + [l])[..|pre|] == pre;
    CounterStep(pre, l, false);
    EnclosingHunkStep(pre, l);
    NotBothPrefixes(l);
  }

  /** A line that is neither a header nor an added line: the counter moves
      on unless it is a removed line, and nothing is recorded. */
  lemma PlainSnoc(path: string, pre: seq<string>, l: string)
    requires !IsHunkHeader(l) && !IsAddition(l)
    ensures LineCounter(pre + [l], false) == LineCounter(pre, false) + (if IsDeletion(l) then 0 else 1)
    ensures EnclosingHunk(pre + [l]) == EnclosingHunk(pre)
    ensures FileRecords(path, pre + [l]) == FileRecords(path, pre)
  {
    assert (pre + [l])[..|pre|] == pre;
    CounterStep(pre, l, false);
    EnclosingHunkStep(pre, l);
  }

  /** An added line: it is recorded with the counter and the hunk, and the
      counter moves on. */
  lemma AdditionSnoc(path: string, pre: seq<string>, l: string)
    requires IsAddition(l)
    ensures !IsHunkHeader(l)
    ensures LineCounter(pre + [l], false) == LineCounter(pre, false) + 1
    ensures EnclosingHunk(pre + [l]) == EnclosingHunk(pre)
    ensures FileRecords(path, pre + [l]) ==
      FileRecords(path, pre) + [Patch(path, LineCounter(pre, false), l[1..], EnclosingHunk(pre))]
  {
    assert (pre + [l])[..|pre|] == pre;
    AdditionAdvances(l, false);
    CounterStep(pre, l, false);
    EnclosingHunkStep(pre, l);
  }

  /** getPatches over the listed files, all pages together. */
  method GetPatches(files: seq<ChangedFile>) returns (patches: seq<Patch>)
    ensures patches == GitHubPatches(files)
  {
    patches := [];
    var k := 0;
    while k < |files|
      invariant k <= |files|
      invariant patches == GitHubPatches(files[..k])
    {
      var file := files[k];
      assert files[..k + 1][..k] == files[..k];
      if file.patch.Some? && file.patch.value != "" && !IsFileIgnored(file.filename) {
        var records := WalkFile(file.filename, Split(file.patch.value));
        patches := patches + records;
      }
      k := k + 1;
    }
    assert files[..k] == files;
  }

  /** The line at index i of a file's lines produces patch p: an added line,
      recorded with the counter and the hunk header above it. */
  predicate AddedAt(path: string, lines: seq<string>, i: nat, p: Patch) {
    i < |lines| && IsAddition(lines[i]) &&
    p == Patch(path, LineCounter(lines[..i], false), lines[i][1..], EnclosingHunk(lines[..i]))
  }

  /** A patch of a file is produced exactly by an added line of it. */
  lemma {:induction false} FileRecordsMembership(path: string, lines: seq<string>, p: Patch)
    ensures p in FileRecords(path, lines) <==> exists i :: AddedAt(path, lines, i, p)
  {
    if lines != [] {
      var n := |lines| - 1;
      var pre := lines[..n];
      FileRecordsMembership(path, pre, p);
      forall i | 0 <= i < n
        ensures AddedAt(path, lines, i, p) <==> AddedAt(path, pre, i, p)
      {
        AddedAtPrefix(path, lines, n, i, p);
      }
      LastAdded(path, lines, p);
      if exists i :: AddedAt(path, lines, i, p) {
        var i :| AddedAt(path, lines, i, p);
        assert i == n || AddedAt(path, pre, i, p);
      }
    }
  }

  /** Whether a line produces a patch depends only on the lines up to it. */
  lemma AddedAtPrefix(path: string, lines: seq<string>, n: nat, i: nat, p: Patch)
    requires i < n <= |lines|
    ensures AddedAt(path, lines, i, p) <==> AddedAt(path, lines[..n], i, p)
  {
    assert lines[..n][i] == lines[i] && lines[..n][..i] == lines[..i];
  }

  /** The last line produces what RecordFor gives it. */
  lemma LastAdded(path: string, lines: seq<string>, p: Patch)
    requires lines != []
    ensures p in RecordFor(path, lines[..|lines| - 1], lines[|lines| - 1]) <==> AddedAt(path, lines, |lines| - 1, p)
  {
  }

  /** Every patch of a file carries the file's path. */
  lemma {:induction false} FileRecordsPath(path: string, lines: seq<string>)
    ensures forall p :: p in FileRecords(path, lines) ==> p.path == path
  {
    if lines != [] {
      FileRecordsPath(path, lines[..|lines| - 1]);
    }
  }

  /** A patch comes from a walked file and is one of that file's patches, and
      every patch of every walked file is there. */
  lemma {:induction false} GitHubPatchesMembership(files: seq<ChangedFile>, p: Patch)
    ensures p in GitHubPatches(files) <==>
      exists k :: 0 <= k < |files| && IsWalked(files[k]) &&
        p in FileRecords(files[k].filename, Split(files[k].patch.value))
  {
    if files != [] {
      var n := |files| - 1;
      GitHubPatchesMembership(files[..n], p);
      assert forall k :: 0 <= k < n ==> files[..n][k] == files[k];
    }
  }

  /** No patch is produced for a file without a patch, with an empty patch or
      on the ignore list; in particular no patch has an ignored path. */
  lemma {:induction false} NoPatchOfIgnoredFile(files: seq<ChangedFile>, p: Patch)
    requires p in GitHubPatches(files)
    ensures !IsFileIgnored(p.path)
    ensures exists k :: 0 <= k < |files| && files[k].filename == p.path && IsWalked(files[k])
  {
    GitHubPatchesMembership(files, p);
    var k :| 0 <= k < |files| && IsWalked(files[k]) &&
      p in FileRecords(files[k].filename, Split(files[k].patch.value));
    FileRecordsPath(files[k].filename, Split(files[k].patch.value));
  }

  /** One hunk "@@ -1,2 +1,3 @@" (see DiffLines.ExampleHeaderWritten) with a context
      line, an added line and a removed line, ending in a newline: the added
      line is line 2 of the new file, and the empty piece after the last
      newline adds nothing. */
  lemma OneHunkExample(path: string)
    ensures var h := HunkHeader(1, Some(2), 1, Some(3), "");
      var lines := [h, " context", "+added line", "-removed line", ""];
      FileRecords(path, Split(Join(lines))) == [Patch(path, 2, "added line", h)]
  {
    var h := HunkHeader(1, Some(2), 1, Some(3), "");
    HunkHeaderRoundTrip(1, Some(2), 1, Some(3), "");
    HeaderIsHunkHeader(1, Some(2), 1, Some(3), "");
    HeaderHasNoNewline(1, Some(2), 1, Some(3), "");
    SetsCounterWhenParses(h, 1);
    ExampleBodyLines();
    OneHunkFromText(path, h, " context", "+added line", "-removed line", 1);
  }

  /** The three body lines of the example: a context line, an addition and a
      deletion, none with a newline. */
  lemma ExampleBodyLines()
    ensures !IsHunkHeader(" context") && !IsAddition(" context") && !IsDeletion(" context")
    ensures IsAddition("+added line") && IsDeletion("-removed line")
    ensures "+added line"[1..] == "added line"
    ensures '\n' !in " context" && '\n' !in "+added line" && '\n' !in "-removed line"
  {
    StartsWithChar(" context", '+');
    StartsWithChar(" context", '-');
    StartsWithChar("+added line", '+');
    StartsWithChar("-removed line", '-');
  }

  /** The text of one hunk, a context line, an added line and a removed line,
      ending in a newline: the added line is numbered one past the header's
      start. */
  lemma OneHunkFromText(path: string, h: string, c: string, a: string, d: string, start: nat)
    requires SetsCounter(h, ParseHunkStart) && ParseHunkStart(h).value == start
    requires !IsHunkHeader(c) && !IsAddition(c) && !IsDeletion(c)
    requires IsAddition(a) && IsDeletion(d)
    requires '\n' !in h && '\n' !in c && '\n' !in a && '\n' !in d
    ensures FileRecords(path, Split(Join([h, c, a, d, ""]))) == [Patch(path, start + 1, a[1..], h)]
  {
    var lines := [h, c, a, d, ""];
    assert forall k :: 0 <= k < |lines| ==> '\n' !in lines[k];
    SplitJoin(lines);
    OneHunkRecords(path, lines, start);
  }

  /** A hunk header whose start parses sets the counter. */
  lemma SetsCounterWhenParses(l: string, start: nat)
    requires IsHunkHeader(l) && ParseHunkStart(l) == Some(start)
    ensures SetsCounter(l, ParseHunkStart) && ParseHunkStart(l).value == start
  {
  }

  /** A hunk of a context line, an added line, a removed line and the empty
      piece after the last newline: the added line is numbered one past the
      header's start. */
  lemma OneHunkRecords(path: string, lines: seq<string>, start: nat)
    requires |lines| == 5
    requires SetsCounter(lines[0], ParseHunkStart) && ParseHunkStart(lines[0]).value == start
    requires !IsHunkHeader(lines[1]) && !IsAddition(lines[1]) && !IsDeletion(lines[1])
    requires IsAddition(lines[2]) && IsDeletion(lines[3]) && lines[4] == ""
    ensures FileRecords(path, lines) == [Patch(path, start + 1, lines[2][1..], lines[0])]
  {
    var added := [Patch(path, start + 1, lines[2][1..], lines[0])];
    OneHunkOpening(path, lines, start);
    OneHunkAddition(path, lines, start);
    EmptyLineIsPlain();
    PlainStep(path, lines, 4, start + 2, lines[0], added, start + 3);
    assert lines[..5] == lines;
  }

  /** The header and the context line of that hunk. */
  lemma OneHunkOpening(path: string, lines: seq<string>, start: nat)
    requires |lines| == 5
    requires SetsCounter(lines[0], ParseHunkStart) && ParseHunkStart(lines[0]).value == start
    requires !IsHunkHeader(lines[1]) && !IsAddition(lines[1]) && !IsDeletion(lines[1])
    ensures FileWalkedTo(path, lines, 2, start + 1, lines[0], [])
  {
    OneHunkHeader(path, lines, start);
    PlainStep(path, lines, 1, start, lines[0], [], start + 1);
  }

  /** The header of that hunk sets the counter to its start. */
  lemma OneHunkHeader(path: string, lines: seq<string>, start: nat)
    requires |lines| == 5
    requires SetsCounter(lines[0], ParseHunkStart) && ParseHunkStart(lines[0]).value == start
    ensures FileWalkedTo(path, lines, 1, start, lines[0], [])
  {
    WalkStart(path, lines);
    HeaderStep(path, lines, 0, 0, "", [], start);
  }

  /** The added and the removed line of that hunk. */
  lemma OneHunkAddition(path: string, lines: seq<string>, start: nat)
    requires |lines| == 5
    requires FileWalkedTo(path, lines, 2, start + 1, lines[0], [])
    requires IsAddition(lines[2]) && IsDeletion(lines[3])
    ensures FileWalkedTo(path, lines, 4, start + 2, lines[0], [Patch(path, start + 1, lines[2][1..], lines[0])])
  {
    AdditionStep(path, lines, 2, start + 1, lines[0], []);
    DeletionIsNoAddition(lines[3]);
    PlainStep(path, lines, 3, start + 2, lines[0], [Patch(path, start + 1, lines[2][1..], lines[0])], start + 2);
  }

  /** Before the first line nothing is counted, enclosed or recorded. */
  lemma WalkStart(path: string, lines: seq<string>)
    ensures FileWalkedTo(path, lines, 0, 0, "", [])
  {
    assert lines[..0] == [];
  }

  /** A removed line is neither a hunk header nor an added line. */
  lemma DeletionIsNoAddition(d: string)
    requires IsDeletion(d)
    ensures !IsHunkHeader(d) && !IsAddition(d)
  {
    NotBothPrefixes(d);
    assert d[0] == '-';
  }

  /** The empty line is a context line. */
  lemma EmptyLineIsPlain()
    ensures !IsHunkHeader("") && !IsAddition("") && !IsDeletion("")
  {
  }

  // ---------------------------------------------------------------------
  // getComments
  // ---------------------------------------------------------------------

  /** What an existing review comment is compared by. */
  function KeyOfReviewComment(c: ReviewComment): DedupKey {
    DedupKey(Some(c.path), c.line, Some(c.body))
  }

  function ExistingKeys(existing: seq<ReviewComment>): (r: seq<DedupKey>)
    ensures |r| == |existing|
    ensures forall i :: 0 <= i < |existing| ==> r[i] == KeyOfReviewComment(existing[i])
  {
    if existing == [] then [] else [KeyOfReviewComment(existing[0])] + ExistingKeys(existing[1..])
  }

  /** getComments: the reconciliation against the review comments already on
      the pull request. */
  function GetComments(existing: seq<ReviewComment>, suggestions: seq<CommentSuggestion>, patches: seq<Patch>): seq<Comment> {
    Reconcile(ExistingKeys(existing), patches, suggestions)
  }

  /** A suggestion becomes a comment exactly when some patch has its path and
      line and no review comment has its path, line and body. */
  lemma GetCommentsIff(existing: seq<ReviewComment>, suggestions: seq<CommentSuggestion>, patches: seq<Patch>, c: Comment)
    ensures c in GetComments(existing, suggestions, patches) <==>
      exists i :: 0 <= i < |suggestions| && Comment(suggestions[i].path, suggestions[i].line, suggestions[i].message) == c &&
        (exists j :: 0 <= j < |patches| && patches[j].path == c.path && patches[j].line == c.line) &&
        ReviewComment(c.path, Some(c.line), c.content) !in existing
  {
    var keys := ExistingKeys(existing);
    ReconcileMembership(keys, patches, suggestions, c);
    assert KeyOf(c) in keys <==> ReviewComment(c.path, Some(c.line), c.content) in existing by {
      if KeyOf(c) in keys {
        var k :| 0 <= k < |keys| && keys[k] == KeyOf(c);
        assert existing[k] == ReviewComment(c.path, Some(c.line), c.content);
      }
      if ReviewComment(c.path, Some(c.line), c.content) in existing {
        var k :| 0 <= k < |existing| && existing[k] == ReviewComment(c.path, Some(c.line), c.content);
        assert keys[k] == KeyOf(c);
      }
    }
    forall i | 0 <= i < |suggestions|
      ensures Suggest(keys, patches, suggestions[i]) == Some(c) <==>
        Comment(suggestions[i].path, suggestions[i].line, suggestions[i].message) == c &&
        (exists j :: 0 <= j < |patches| && patches[j].path == c.path && patches[j].line == c.line) &&
        KeyOf(c) !in keys
    {
      SuggestIff(keys, patches, suggestions[i]);
    }
  }

  /** Once the comments of a run have been posted, the same suggestions give
      no comment on the next run. */
  lemma GetCommentsRerun(existing: seq<ReviewComment>, suggestions: seq<CommentSuggestion>, patches: seq<Patch>,
                         posted: seq<ReviewComment>)
    requires forall c :: c in GetComments(existing, suggestions, patches) ==>
      ReviewComment(c.path, Some(c.line), c.content) in posted
    ensures GetComments(existing + posted, suggestions, patches) == []
  {
    var keys, more := ExistingKeys(existing), ExistingKeys(posted);
    ExistingKeysAppend(existing, posted);
    forall c | c in Reconcile(keys, patches, suggestions) ensures KeyOf(c) in more {
      PostedKeyListed(posted, c);
    }
    RerunPostsNothing(keys, patches, suggestions, more);
  }

  /** The keys of two lists of review comments, one after the other. */
  lemma ExistingKeysAppend(a: seq<ReviewComment>, b: seq<ReviewComment>)
    ensures ExistingKeys(a + b) == ExistingKeys(a) + ExistingKeys(b)
  {
    var l, r := ExistingKeys(a + b), ExistingKeys(a) + ExistingKeys(b);
    assert |l| == |r|;
    forall i | 0 <= i < |l|
      ensures l[i] == r[i]
    {
      if i < |a| {
        assert (a + b)[i] == a[i];
      } else {
        assert (a + b)[i] == b[i - |a|];
      }
    }
  }

  /** A posted comment is found under its key. */
  lemma PostedKeyListed(posted: seq<ReviewComment>, c: Comment)
    requires ReviewComment(c.path, Some(c.line), c.content) in posted
    ensures KeyOf(c) in ExistingKeys(posted)
  {
    var k :| 0 <= k < |posted| && posted[k] == ReviewComment(c.path, Some(c.line), c.content);
    assert ExistingKeys(posted)[k] == KeyOf(c);
  }

  /** A review comment left on an outdated line has no line and never makes a
      suggestion a duplicate. */
  lemma OutdatedCommentNeverDuplicate(existing: seq<ReviewComment>, path: string, body: string,
                                      suggestions: seq<CommentSuggestion>, patches: seq<Patch>)
    ensures GetComments(existing + [ReviewComment(path, None, body)], suggestions, patches) ==
      GetComments(existing, suggestions, patches)
  {
    var keys := ExistingKeys(existing);
    var extra := [KeyOfReviewComment(ReviewComment(path, None, body))];
    assert ExistingKeys(existing + [ReviewComment(path, None, body)]) == keys + extra;
    ReconcileIgnoresUnanchored(keys, extra, patches, suggestions);
  }

  // ---------------------------------------------------------------------
  // postComments
  // ---------------------------------------------------------------------

  /** `comment.path && comment.line && comment.content && pr.head.sha` are all
      truthy: no empty string and no line 0. */
  predicate HasRequiredParameters(c: Comment, headSha: string) {
    c.path != "" && c.line != 0 && c.content != "" && headSha != ""
  }

  /** What happens to the comment at position i: skipped when a parameter is
      missing, otherwise posted or failed as the host answers. */
  function PostEventFor(c: Comment, i: nat, headSha: string, accepts: nat -> bool): PostEvent {
    if !HasRequiredParameters(c, headSha) then Skipped(c)
    else if accepts(i) then Posted(c)
    else PostFailed(c)
  }

  /** postComments: fetching the existing comments may fail, and then nothing
      is posted and the error is re-thrown; otherwise every computed comment is
      handled in order, and a failed call does not stop the loop. `accepts(i)`
      is whether the host accepts the post of the comment at position i of
      the computed comments, skipped ones counted. */
  method PostComments(headSha: string, fetched: Result<seq<ReviewComment>>, suggestions: seq<CommentSuggestion>,
                      patches: seq<Patch>, accepts: nat -> bool)
    returns (r: Result<seq<PostEvent>>)
    ensures fetched.Err? ==> r == Err(fetched.error)
    ensures fetched.Ok? ==> r.Ok?
    ensures fetched.Ok? && r.Ok? ==>
      var comments := GetComments(fetched.value, suggestions, patches);
      && |r.value| == |comments|
      && forall i :: 0 <= i < |comments| ==> r.value[i] == PostEventFor(comments[i], i, headSha, accepts)
  {
    if fetched.Err? {
      return Err(fetched.error);
    }
    var comments := GetComments(fetched.value, suggestions, patches);
    var events: seq<PostEvent> := [];
    if |comments| == 0 {
      return Ok(events);
    }
    var i := 0;
    while i < |comments|
      invariant i <= |comments|
      invariant |events| == i
      invariant forall j :: 0 <= j < i ==> events[j] == PostEventFor(comments[j], j, headSha, accepts)
    {
      var comment := comments[i];
      if comment.path == "" || comment.line == 0 || comment.content == "" || headSha == "" {
        events := events + [Skipped(comment)];
      } else if accepts(i) {
        events := events + [Posted(comment)];
      } else {
        events := events + [PostFailed(comment)];
      }
      i := i + 1;
    }
    return Ok(events);
  }

  /** A posted comment had all its parameters, and without a head commit
      nothing is posted. */
  lemma PostedHadParameters(comments: seq<Comment>, headSha: string, accepts: nat -> bool, i: nat)
    requires i < |comments|
    ensures PostEventFor(comments[i], i, headSha, accepts).Posted? ==>
      HasRequiredParameters(comments[i], headSha) && accepts(i)
    ensures headSha == "" ==> PostEventFor(comments[i], i, headSha, accepts) == Skipped(comments[i])
    ensures PostEventFor(comments[i], i, headSha, accepts).comment == comments[i]
  {
  }
}
