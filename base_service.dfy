/** The provider-independent part of the review service
    (src/services/base.service.ts): which events are handled, which files are
    skipped, and the order in which one run calls its collaborators. */
module BaseService {
  import opened Wrappers
  import opened Text
  import opened Types
  import opened ConfigConstants

  datatype ServiceType = GitHub | Bitbucket

  /** The allow-list of event actions per provider. Its contents are part of
      the configuration, so the model takes them as a parameter. */
  datatype ValidActions = ValidActions(github: seq<string>, bitbucket: seq<string>) {
    function For(service: ServiceType): seq<string> {
      match service
      case GitHub => github
      case Bitbucket => bitbucket
    }
  }

  /** `VALID_ACTIONS[serviceType].includes(action)` */
  function ShouldProcessAction(validActions: ValidActions, service: ServiceType, action: string): (r: bool)
    ensures r <==> exists i :: 0 <= i < |validActions.For(service)| && validActions.For(service)[i] == action
  {
    action in validActions.For(service)
  }

  // ---------------------------------------------------------------------
  // Ignore filter
  // ---------------------------------------------------------------------

  /** `patterns.some(rx => rx.test(filename))` */
  function AnyPatternMatches(patterns: seq<IgnorePattern>, filename: string): (r: bool)
    ensures r <==> exists k :: 0 <= k < |patterns| && Matches(patterns[k], filename)
  {
    if patterns == [] then false
    else Matches(patterns[0], filename) || AnyPatternMatches(patterns[1..], filename)
  }

  /** `isFileIgnored`: some pattern of the ignore list matches the path. */
  predicate IsFileIgnored(filename: string) {
    AnyPatternMatches(CommentIgnoreFilePatterns, filename)
  }

  /** Lock files and Markdown documents are ignored. */
  lemma LockAndMarkdownIgnored(filename: string)
    requires EndsWith(filename, "-lock.json") || EndsWith(filename, ".md")
    ensures IsFileIgnored(filename)
  {
    assert Matches(CommentIgnoreFilePatterns[0], filename) || Matches(CommentIgnoreFilePatterns[1], filename);
  }

  /** Images and fonts are ignored. */
  lemma AssetsIgnored(filename: string, k: nat)
    requires k < |ImageEndings + FontEndings| && EndsWith(filename, (ImageEndings + FontEndings)[k])
    ensures IsFileIgnored(filename)
  {
    if k < |ImageEndings| {
      EndsWithOneOf(filename, ImageEndings, k);
      assert Matches(CommentIgnoreFilePatterns[2], filename);
    } else {
      EndsWithOneOf(filename, FontEndings, k - |ImageEndings|);
      assert Matches(CommentIgnoreFilePatterns[3], filename);
    }
  }

  /** Minified and production bundles and source maps are ignored. */
  lemma BundlesIgnored(filename: string, k: nat)
    requires k < |BundleEndings + [".map"]| && EndsWith(filename, (BundleEndings + [".map"])[k])
    ensures IsFileIgnored(filename)
  {
    if k < |BundleEndings| {
      EndsWithOneOf(filename, BundleEndings, k);
      assert Matches(CommentIgnoreFilePatterns[4], filename);
    } else {
      assert Matches(CommentIgnoreFilePatterns[5], filename);
    }
  }

  /** Logs, text files and YAML files are ignored. */
  lemma LogsAndYamlIgnored(filename: string, k: nat)
    requires k < |LogEndings + YamlEndings| && EndsWith(filename, (LogEndings + YamlEndings)[k])
    ensures IsFileIgnored(filename)
  {
    if k < |LogEndings| {
      EndsWithOneOf(filename, LogEndings, k);
      assert Matches(CommentIgnoreFilePatterns[6], filename);
    } else {
      EndsWithOneOf(filename, YamlEndings, k - |LogEndings|);
      assert Matches(CommentIgnoreFilePatterns[8], filename);
    }
  }

  /** Env files are ignored, and so is every path containing ".env." with no
      line terminator after it. */
  lemma EnvFilesIgnored(filename: string)
    requires EndsWith(filename, ".env") || exists i :: EnvDotTailAt(filename, i)
    ensures IsFileIgnored(filename)
  {
    EnvDotTailAnywhere(filename);
    assert Matches(CommentIgnoreFilePatterns[7], filename);
  }

  /** Test and spec files of JavaScript and TypeScript are ignored. */
  lemma TestFilesIgnored(filename: string, k: nat)
    requires k < |TestEndings| && EndsWith(filename, TestEndings[k])
    ensures IsFileIgnored(filename)
  {
    EndsWithOneOf(filename, TestEndings, k);
    assert Matches(CommentIgnoreFilePatterns[9], filename);
  }

  /** A path with a single dot, three characters from its end (a name
      without dots and an extension of two characters), e.g. "src/x.ts" or
      "README.MD", is ignored exactly when the extension is ".md": every other
      rule needs a longer ending or a second dot. Matching is case-sensitive. */
  lemma ShortExtensionIgnoredIff(stem: string, ext: string)
    requires '.' !in stem
    requires |ext| == 3 && ext[0] == '.' && ext[1] != '.' && ext[2] != '.'
    ensures IsFileIgnored(stem + ext) <==> ext == ".md"
  {
    var s := stem + ext;
    assert s[|s| - 3..] == ext;
    if ext == ".md" {
      LockAndMarkdownIgnored(s);
    } else {
      OnlyDot(stem, ext);
      forall p: IgnorePattern
        ensures !Matches(p, s)
      {
        NoPatternMatches(s, ext, p);
      }
    }
  }

  /** The only dot of the path is three characters from its end. */
  lemma OnlyDot(stem: string, ext: string)
    requires '.' !in stem
    requires |ext| == 3 && ext[0] == '.' && ext[1] != '.' && ext[2] != '.'
    ensures forall m :: 0 <= m < |stem + ext| && (stem + ext)[m] == '.' ==> m == |stem + ext| - 3
  {
    var s := stem + ext;
    forall m | 0 <= m < |stem|
      ensures s[m] != '.'
    {
      assert s[m] == stem[m];
    }
  }

  /** Every ending longer than three characters starts with a dot. */
  lemma EndingsAreDotted()
    ensures forall i :: 0 <= i < |ImageEndings| ==> |ImageEndings[i]| > 3 && ImageEndings[i][0] == '.'
    ensures forall i :: 0 <= i < |FontEndings| ==> |FontEndings[i]| > 3 && FontEndings[i][0] == '.'
    ensures forall i :: 0 <= i < |BundleEndings| ==> |BundleEndings[i]| > 3 && BundleEndings[i][0] == '.'
    ensures forall i :: 0 <= i < |LogEndings| ==> |LogEndings[i]| > 3 && LogEndings[i][0] == '.'
    ensures forall i :: 0 <= i < |YamlEndings| ==> |YamlEndings[i]| > 3 && YamlEndings[i][0] == '.'
    ensures forall i :: 0 <= i < |TestEndings| ==> |TestEndings[i]| > 3 && TestEndings[i][0] == '.'
  {
  }

  /** No rule matches a path whose only dot is three characters from its end,
      unless it ends in ".md". */
  lemma NoPatternMatches(s: string, ext: string, p: IgnorePattern)
    requires |s| >= 3 && s[|s| - 3..] == ext && ext != ".md"
    requires forall m :: 0 <= m < |s| && s[m] == '.' ==> m == |s| - 3
    ensures !Matches(p, s)
  {
    EndingsAreDotted();
    match p
    case LockFile => EndingNeedsDot(s, "-lock.json", 5);
    case Markdown =>
    case Image => NoDottedEnding(s, ImageEndings);
    case Font => NoDottedEnding(s, FontEndings);
    case Bundle => NoDottedEnding(s, BundleEndings);
    case SourceMap => EndingNeedsDot(s, ".map", 0);
    case LogOrText => NoDottedEnding(s, LogEndings);
    case EnvFile =>
      EndingNeedsDot(s, ".env", 0);
      NoSecondDot(s);
    case Yaml => NoDottedEnding(s, YamlEndings);
    case TestFile => NoDottedEnding(s, TestEndings);
  }

  /** An ending with a dot more than three characters from its end does not
      fit a path whose only dot is three characters from its end. */
  lemma EndingNeedsDot(s: string, e: string, d: nat)
    requires forall m :: 0 <= m < |s| && s[m] == '.' ==> m == |s| - 3
    requires d + 3 < |e| && e[d] == '.'
    ensures !EndsWith(s, e)
  {
    if EndsWith(s, e) {
      EndsWithChar(s, e, |e| - d);
    }
  }

  /** EndingNeedsDot for a group of endings that all start with a dot. */
  lemma {:induction false} NoDottedEnding(s: string, endings: seq<string>)
    requires forall m :: 0 <= m < |s| && s[m] == '.' ==> m == |s| - 3
    requires forall i :: 0 <= i < |endings| ==> |endings[i]| > 3 && endings[i][0] == '.'
    ensures !EndsWithAny(s, endings)
    decreases |endings|
  {
    if |endings| > 0 {
      EndingNeedsDot(s, endings[0], 0);
      NoDottedEnding(s, endings[1..]);
    }
  }

  /** The empty path ends with no non-empty suffix. */
  lemma {:induction false} EmptyEndsWithNone(endings: seq<string>)
    requires forall i :: 0 <= i < |endings| ==> endings[i] != []
    ensures !EndsWithAny("", endings)
    decreases |endings|
  {
    if |endings| > 0 {
      EmptyEndsWithNone(endings[1..]);
    }
  }

  /** No rule matches the empty path. */
  lemma NoPatternMatchesEmpty(p: IgnorePattern)
    ensures !Matches(p, "")
  {
    EndingsAreDotted();
    match p
    case Image => EmptyEndsWithNone(ImageEndings);
    case Font => EmptyEndsWithNone(FontEndings);
    case Bundle => EmptyEndsWithNone(BundleEndings);
    case LogOrText => EmptyEndsWithNone(LogEndings);
    case Yaml => EmptyEndsWithNone(YamlEndings);
    case TestFile => EmptyEndsWithNone(TestEndings);
    case _ =>
  }

  /** ".env." has two dots four apart, so it does not occur in a path with
      one dot. */
  lemma NoSecondDot(s: string)
    requires forall m :: 0 <= m < |s| && s[m] == '.' ==> m == |s| - 3
    ensures !HasEnvDotTail(s)
  {
    EnvDotTailAnywhere(s);
    forall i | 0 <= i && i + 5 <= |s|
      ensures !OccursAt(s, ".env.", i)
    {
      assert s[i] == s[i..i + 5][0] && s[i + 4] == s[i..i + 5][4];
    }
  }

  /** Matching is case-sensitive: an upper-case ".MD" is not ignored. */
  lemma UpperCaseMarkdownNotIgnored()
    ensures !IsFileIgnored("README" + ".MD")
  {
    ShortExtensionIgnoredIff("README", ".MD");
  }

  /** A path that contains ".env." is ignored, even when it is a source file. */
  lemma EnvInfixIgnored()
    ensures IsFileIgnored("a.env.ts")
  {
    assert EnvDotTailAt("a.env.ts", 1);
    EnvFilesIgnored("a.env.ts");
  }

  /** An ordinary source file is not ignored; its test file is. */
  lemma SourceFileNotIgnored(stem: string)
    requires '.' !in stem
    ensures !IsFileIgnored(stem + ".ts")
    ensures IsFileIgnored(stem + ".spec.ts")
  {
    ShortExtensionIgnoredIff(stem, ".ts");
    var t := stem + TestEndings[5];
    assert t[|t| - |TestEndings[5]|..] == TestEndings[5];
    TestFilesIgnored(t, 5);
  }

  // ---------------------------------------------------------------------
  // processPullRequest
  // ---------------------------------------------------------------------

  /** What the provider-specific steps and the reviewer answer in one run.
      Each step either returns its value or throws (Err). `review` and
      `postComments` depend on what they are given; the other two only on the
      event, which is fixed for the run. */
  datatype Collaborators = Collaborators(
    getPatches: Result<seq<Patch>>,
    getReferenceFiles: Result<string>,
    reviewPatches: (seq<ReviewPatch>, string) -> Result<seq<CommentSuggestion>>,
    postComments: (seq<CommentSuggestion>, seq<Patch>) -> Result<()>)

  /** One call the run makes, with what it passes. */
  datatype Call =
    | GetPatches
    | GetReferenceFiles
    | ReviewPatches(reviewed: seq<ReviewPatch>, reference: string)
    | PostComments(suggestions: seq<CommentSuggestion>, patches: seq<Patch>)

  /** How a run ends: normally, or by re-throwing the error of a step. */
  datatype RunResult = Finished | Rethrown(error: string)

  /** The patches as given to the reviewer: `patches.map(({ path, line, content }) => ...)`. */
  function ForReview(patches: seq<Patch>): (r: seq<ReviewPatch>)
    ensures |r| == |patches|
    ensures forall i :: 0 <= i < |patches| ==>
      r[i].path == patches[i].path && r[i].line == patches[i].line && r[i].content == patches[i].content
  {
    if patches == [] then []
    else [ReviewPatch(patches[0].path, patches[0].line, patches[0].content)] + ForReview(patches[1..])
  }

  /** processPullRequest: returns the calls made, in order, and how the run
      ended. */
  method ProcessPullRequest(validActions: ValidActions, service: ServiceType, action: string, env: Collaborators)
    returns (calls: seq<Call>, result: RunResult)
    // an action outside the allow-list: nothing is called and nothing is raised
    ensures !ShouldProcessAction(validActions, service, action) ==> calls == [] && result == Finished
    // otherwise the patches are always fetched first
    ensures ShouldProcessAction(validActions, service, action) ==> |calls| >= 1 && calls[0] == GetPatches
    // fetching the patches fails: the error is re-thrown and nothing else runs
    ensures ShouldProcessAction(validActions, service, action) && env.getPatches.Err? ==>
      calls == [GetPatches] && result == Rethrown(env.getPatches.error)
    // no patches: the run ends quietly
    ensures ShouldProcessAction(validActions, service, action) && env.getPatches == Ok([]) ==>
      calls == [GetPatches] && result == Finished
    // otherwise the reference files are fetched next
    ensures ShouldProcessAction(validActions, service, action) && env.getPatches.Ok? && env.getPatches.value != [] ==>
      |calls| >= 2 && calls[1] == GetReferenceFiles
    ensures ShouldProcessAction(validActions, service, action) && env.getPatches.Ok? && env.getPatches.value != []
            && env.getReferenceFiles.Err? ==>
      calls == [GetPatches, GetReferenceFiles] && result == Rethrown(env.getReferenceFiles.error)
    // then the reviewer, with the projected patches and the reference text
    ensures ShouldProcessAction(validActions, service, action) && env.getPatches.Ok? && env.getPatches.value != []
            && env.getReferenceFiles.Ok? ==>
      var patches, reference := env.getPatches.value, env.getReferenceFiles.value;
      var review := env.reviewPatches(ForReview(patches), reference);
      && |calls| >= 3
      && calls[..3] == [GetPatches, GetReferenceFiles, ReviewPatches(ForReview(patches), reference)]
      && (review.Err? ==> |calls| == 3 && result == Rethrown(review.error))
      && (review.Ok? ==>
            var posted := env.postComments(review.value, patches);
            && calls == calls[..3] + [PostComments(review.value, patches)]
            && result == (if posted.Ok? then Finished else Rethrown(posted.error)))
    // at most one call per step
    ensures |calls| <= 4
  {
    calls := [];
    result := Finished;
    if !ShouldProcessAction(validActions, service, action) {
      return;
    }

    calls := calls + [GetPatches];
    if env.getPatches.Err? {
      result := Rethrown(env.getPatches.error);
      return;
    }
    var patches := env.getPatches.value;
    if |patches| == 0 {
      return;
    }

    calls := calls + [GetReferenceFiles];
    if env.getReferenceFiles.Err? {
      result := Rethrown(env.getReferenceFiles.error);
      return;
    }
    var referenceContent := env.getReferenceFiles.value;

    var forReview := ForReview(patches);
    calls := calls + [ReviewPatches(forReview, referenceContent)];
    var suggestions := env.reviewPatches(forReview, referenceContent);
    if suggestions.Err? {
      result := Rethrown(suggestions.error);
      return;
    }

    calls := calls + [PostComments(suggestions.value, patches)];
    var posted := env.postComments(suggestions.value, patches);
    if posted.Err? {
      result := Rethrown(posted.error);
    }
  }
}
