# ai-pr-reviewer, modelled in Dafny

ai-pr-reviewer receives pull request events from GitHub or Bitbucket. For an
event it handles, it does the following:

1. It collects the added lines of the diff as patches. Each patch holds a path,
   a new-file line number, the text of the line and its hunk header.
2. It leaves out the files on its ignore list.
3. It sends the patches and the repository's review guidelines to a language
   model.
4. It keeps the suggestions that land on an added line and are not already on
   the pull request.
5. It posts them one by one.

This project models the deterministic core of that pipeline and proves
properties of it:

- **The two diff walks** (`GitHubService.GetPatches`, `BitbucketService.GetPatches`).
  Both are loops over diff lines. Each is proved equal to a declarative record
  function:
  - the counter is the new-file start of the last hunk header that parsed, or
    0 when none has parsed yet;
  - from there it grows by one for every later line that is not a hunk
    header (one that does not parse included) and not a deletion, and, in
    the Bitbucket stream, not a `diff --git` file header;
  - the hunk is the last hunk header seen.

  GitHub walks the patch of each file separately. Bitbucket walks one diff
  stream for the whole pull request. Over that stream the counter is not reset
  at a file header, and the current file is taken from the last
  `diff --git` line that matches.
- **The two regular expressions**, matched as JavaScript's `exec` matches them:
  - the hunk header `/@@ -\d+,?\d* \+(\d+),?\d* @@/`, with a leftmost-match
    search and greedy digit runs;
  - the file header `/diff --git a\/(.*) b\/(.*)/`, where `.` stops at a line
    terminator and the first group backs off to the last ` b/`.
- **The ignore list** and `isFileIgnored`, each pattern written as a predicate
  on the path.
- **`getComments` reconciliation**, shared by both providers. A suggestion is
  kept when a patch has its path and line and no existing comment has the same
  path, line and body. Existing comments are compared through a key with
  optional fields. This models Bitbucket's `inline?.path` and GitHub's
  outdated comments that have no line.
- **The posting loops.** GitHub only checks that the parameters are present.
  A failed call never stops the loop.
- **`processPullRequest`.** The model takes its collaborators as parameters. It
  returns the calls the run makes, in order, and whether the run ended normally
  or re-threw an error.
- **`ChunkManagerUtil`.**
  - `splitIntoChunks` is shown to be the unique greedy, order-preserving packing.
  - `splitReferenceContent` keeps the text of every non-empty line in order, and
    the model states its error cases and the empty chunks it can produce.

Where the service calls the network, the model takes what came back as a
parameter:
- the file listing,
- the diff text,
- the existing comments,
- the reviewer's answer,
- whether a post was accepted.

## Model

| member | source | states |
|---|---|---|
| BaseService.ShouldProcessAction | src/services/base.service.ts:32-34 | an action is handled exactly when it appears in the allow-list of the service's provider |
| BaseService.AnyPatternMatches | src/services/base.service.ts:36-38 | `some` over the patterns holds exactly when one pattern of the list matches the path; `IsFileIgnored` is this applied to the ignore list |
| BaseService.LockAndMarkdownIgnored | src/constants/config.constants.ts:3-4 | a path ending in `-lock.json` or `.md` is ignored |
| BaseService.AssetsIgnored | src/constants/config.constants.ts:5-6 | a path ending in any image or font extension of the list is ignored |
| BaseService.BundlesIgnored | src/constants/config.constants.ts:7-8 | a path ending in `.min.js`, `.min.css`, `.prod.js`, `.prod.css` or `.map` is ignored |
| BaseService.LogsAndYamlIgnored | src/constants/config.constants.ts:9-11 | a path ending in `.log`, `.txt`, `.yml` or `.yaml` is ignored |
| BaseService.EnvFilesIgnored | src/constants/config.constants.ts:10 | a path ending in `.env`, or containing `.env.` followed only by non-terminator characters, is ignored |
| BaseService.TestFilesIgnored | src/constants/config.constants.ts:12 | JavaScript and TypeScript test and spec files are ignored |
| BaseService.ShortExtensionIgnoredIff | src/constants/config.constants.ts:2-13 | a path whose only dot starts a two-letter extension is ignored if and only if the extension is `.md`, so matching is case-sensitive and needs the full ending |
| BaseService.NoPatternMatches | src/constants/config.constants.ts:2-13 | pattern by pattern: no rule other than `.md` matches a path whose only dot is three characters from its end |
| BaseService.NoPatternMatchesEmpty | src/constants/config.constants.ts:2-13 | no pattern of the list matches the empty path |
| BaseService.UpperCaseMarkdownNotIgnored | src/constants/config.constants.ts:4 | `README.MD` is not ignored, because the patterns have no `i` flag |
| BaseService.EnvInfixIgnored | src/constants/config.constants.ts:10 | `a.env.ts` is ignored, because `\.env\..*$` matches inside a source file name |
| BaseService.SourceFileNotIgnored | src/constants/config.constants.ts:2-13 | `x.ts` is not ignored, while `x.spec.ts` is |
| ConfigConstants.EnvDotTailAnywhere | src/constants/config.constants.ts:10 | the recursive scan for `.env.` agrees with "at some position there is `.env.` and then no line terminator" |
| ConfigConstants.EndsWithOneOf | src/constants/config.constants.ts:5-12 | an alternative group `(a\|b\|…)$` matches when any one of its endings does |
| BaseService.ForReview | src/services/base.service.ts:72 | the reviewer gets one entry per patch, with the same path, line and content, in order |
| BaseService.ProcessPullRequest | src/services/base.service.ts:44-81 | an action outside the allow-list calls nothing; otherwise the patches are fetched first; a fetch error is re-thrown and nothing else runs; no patches end the run quietly; then come the reference files, the reviewer with the projected patches, and the posting with the reviewer's suggestions and the original patches; each error is re-thrown at its step; there is at most one call per step |
| DiffLines.DigitRun | src/services/github.service.ts:61 | a greedy `\d` run stays inside the line |
| DiffLines.FirstHeaderMatchIsLeftmost | src/services/github.service.ts:61 | the position the search returns is one where the hunk-header regular expression matches, and it matches at no earlier position; when there is none, it matches nowhere |
| DiffLines.DecimalValueOfDigits | src/services/github.service.ts:63 | `parseInt` of the decimal digits of n is n |
| DiffLines.HunkHeaderRoundTrip | src/services/github.service.ts:60-64 | a hunk header written as a diff tool writes it, with or without counts and with any trailing text, parses to its new-file start |
| DiffLines.ParseWrittenHeader | src/services/github.service.ts:61-63 | any header whose old start is a digit run and whose counts are optional `,digits` parses to its new start |
| DiffLines.ExampleHeaderWritten | src/services/github.service.ts:61 | the header of a hunk from line 1 with 2 old and 3 new lines is `@@ -1,2 +1,3 @@` |
| DiffLines.HeaderIsHunkHeader | src/services/github.service.ts:60 | a written header starts with `@@` |
| DiffLines.HeaderHasNoNewline | src/services/github.service.ts:54 | a written header with a tail free of newlines is a single line |
| DiffLines.LastCounterSetting | src/services/github.service.ts:60-64 | the last header that sets the counter: it sets it, and no later line does |
| DiffLines.LastHunkHeader | src/services/github.service.ts:60-65 | the last hunk header: no later line is a hunk header |
| DiffLines.CounterStepWith | src/services/github.service.ts:59-80 | reading one line: a parsing header sets the counter to its value, a non-parsing header or a deletion leaves it, and any other line adds one |
| DiffLines.CounterStep | src/services/github.service.ts:59-80 | CounterStepWith for the header regular expression, with the file header counted as in the Bitbucket walk |
| DiffLines.EnclosingHunkStep | src/services/github.service.ts:65 | the hunk becomes the line read when it is a hunk header, whether or not it parsed, and stays otherwise |
| DiffLines.CounterGrowsWithinHunkWith | src/services/github.service.ts:69-79 | after an added line, until the next hunk header, the counter is strictly larger and the hunk is unchanged |
| DiffLines.CounterGrowsWithinHunk | src/services/github.service.ts:69-79 | CounterGrowsWithinHunkWith for the header regular expression: two added lines of the same hunk get strictly increasing line numbers |
| DiffLines.AdditionAdvances | src/services/github.service.ts:69-76 | an added line is no header and no deletion and moves the counter |
| GitHubService.WalkFile | src/services/github.service.ts:54-80 | the inner loop over one file's lines returns exactly FileRecords of those lines |
| GitHubService.GetPatches | src/services/github.service.ts:49-80 | the loop over the changed files returns exactly GitHubPatches: the records of every file that has a non-empty patch and is not ignored, file after file |
| GitHubService.HeaderSnoc | src/services/github.service.ts:60-67 | a hunk header sets or keeps the counter, becomes the hunk and produces no patch |
| GitHubService.PlainSnoc | src/services/github.service.ts:77-79 | a deletion keeps the counter, any other non-added line adds one, and neither produces a patch |
| GitHubService.AdditionSnoc | src/services/github.service.ts:69-76 | an added line produces one patch with the current counter, the text after `+` and the current hunk, and the counter then moves |
| GitHubService.FileRecordsMembership | src/services/github.service.ts:69-76 | a patch is among a file's records exactly when some added line of the file produces it with the counter and hunk at that line |
| GitHubService.FileRecordsPath | src/services/github.service.ts:71 | every record of a file carries that file's name |
| GitHubService.GitHubPatchesMembership | src/services/github.service.ts:49-80 | a patch is collected exactly when it is a record of some walked file |
| GitHubService.NoPatchOfIgnoredFile | src/services/github.service.ts:50-52 | every collected patch belongs to a listed file with a patch, and its path is not ignored |
| GitHubService.OneHunkExample | src/services/github.service.ts:54-80 | the patch `@@ -1,2 +1,3 @@`, a context line, `+added line`, `-removed line` and a final newline give the single patch at line 2 |
| GitHubService.OneHunkFromText | src/services/github.service.ts:54-80 | for any header that parses to `start`, then a context line, an added line, a deletion and a final newline, the result is one patch at `start + 1` |
| GitHubService.OneHunkRecords | src/services/github.service.ts:59-80 | the same five lines, given as lines, give one patch at `start + 1` with the header as its hunk |
| GitHubService.ExistingKeys | src/services/github.service.ts:211-213 | each review comment is compared by its path, its line (absent on an outdated comment) and its body |
| GitHubService.GetCommentsIff | src/services/github.service.ts:203-225 | a comment is produced exactly when some suggestion has its path, line and message, a patch has that path and line, and no existing comment has that path, line and body |
| GitHubService.GetCommentsRerun | src/services/github.service.ts:203-225 | once every produced comment is on the pull request, a second run with the same suggestions produces nothing |
| GitHubService.ExistingKeysAppend | src/services/github.service.ts:196-201 | the keys of two pages of listed comments are the keys of each page, in order |
| GitHubService.PostedKeyListed | src/services/github.service.ts:211-213 | a posted comment, once listed, has the key its own suggestion is compared with |
| GitHubService.OutdatedCommentNeverDuplicate | src/services/github.service.ts:211-213 | an existing comment without a line never suppresses a suggestion |
| GitHubService.PostComments | src/services/github.service.ts:144-187 | a listing error is re-thrown and nothing is posted; otherwise there is one event per computed comment, in order: skipped when a parameter is missing, else posted or failed as the host answers |
| GitHubService.PostedHadParameters | src/services/github.service.ts:153-157 | a posted comment has a non-empty path and body, a non-zero line and a head commit; without a head commit everything is skipped |
| Reconciliation.FindPatch | src/services/github.service.ts:205 | `find` gives the first patch with the suggestion's path and line, and none exactly when no patch has them |
| Reconciliation.IsDuplicate | src/services/github.service.ts:211-213 | `some` holds exactly when an existing key equals the suggestion's path, line and message |
| Reconciliation.Reconcile | src/services/github.service.ts:203-225 | map and filter give at most one comment per suggestion |
| Reconciliation.SuggestIff | src/services/github.service.ts:204-224 | one suggestion is kept exactly when some patch has its path and line and its key is not among the existing ones; the comment is then the suggestion itself |
| Reconciliation.ReconcileAppend | src/services/github.service.ts:203-225 | the comments of two runs of suggestions are the comments of each run, in order |
| Reconciliation.ReconcileMembership | src/services/github.service.ts:203-225 | a comment is produced exactly when some suggestion maps to it |
| Reconciliation.CommentsAnchoredAndNew | src/services/github.service.ts:203-225 | every produced comment sits on some patch's path and line and is not yet on the pull request |
| Reconciliation.SuggestMonotone | src/services/github.service.ts:211-217 | a suggestion kept against more existing comments is kept unchanged against fewer |
| Reconciliation.RerunPostsNothing | src/services/github.service.ts:203-225 | after the comments of a run are posted, a rerun produces nothing |
| Reconciliation.UnanchoredNeverDuplicate | src/services/bitbucket.service.ts:210-215 | existing comments without a path or a line never change whether a suggestion is kept |
| Reconciliation.ReconcileIgnoresUnanchored | src/services/bitbucket.service.ts:202-227 | adding such comments changes no result |
| Reconciliation.RepeatedSuggestionPostedTwice | src/services/github.service.ts:203-225 | two equal suggestions in one answer both become comments: suggestions are not compared with each other |
| Reconciliation.SuggestionOffDiffDropped | src/services/github.service.ts:207-209 | a suggestion for a line that has no patch is dropped |
| Reconciliation.SuggestionAlreadyPostedDropped | src/services/github.service.ts:215-217 | a suggestion already on the pull request is dropped |
| BitbucketService.LineEnd | src/services/bitbucket.service.ts:72 | `.*` extends to the first line terminator or the end of the text |
| BitbucketService.SplitAt | src/services/bitbucket.service.ts:72 | the file-header expression matches at a position exactly when `diff --git a/` is there and a ` b/` follows on the same line; the split is at the last such ` b/` |
| BitbucketService.LastNamingHeader | src/services/bitbucket.service.ts:71-79 | the last file header that matched: no later line names a file |
| BitbucketService.GetPatches | src/services/bitbucket.service.ts:64-104 | the loop over the lines of the diff returns exactly StreamRecords of those lines |
| BitbucketService.CurrentFileStep | src/services/bitbucket.service.ts:71-79 | the current file changes only at a file header whose match succeeds, to its second group |
| BitbucketService.FileHeaderSnoc | src/services/bitbucket.service.ts:71-79 | a file header leaves the counter, the hunk and the patches as they were |
| BitbucketService.HunkHeaderSnoc | src/services/bitbucket.service.ts:81-91 | a hunk header sets or keeps the counter, becomes the hunk, keeps the file and produces no patch |
| BitbucketService.AdditionSnoc | src/services/bitbucket.service.ts:93-100 | an added line of a file that is not ignored produces one patch with the current file, counter and hunk, and the counter then moves |
| BitbucketService.OtherSnoc | src/services/bitbucket.service.ts:101-103 | a deletion keeps the counter, any other line adds one, and neither produces a patch |
| BitbucketService.IgnoredAdditionAdvances | src/services/bitbucket.service.ts:93-103 | an added line of an ignored file produces no patch but still adds one to the counter |
| BitbucketService.StreamRecordsMembership | src/services/bitbucket.service.ts:93-100 | a patch is collected exactly when some added line of a file that is not ignored produces it |
| BitbucketService.NoPatchOfIgnoredFile | src/services/bitbucket.service.ts:93 | no collected patch has an ignored path |
| BitbucketService.PathEmptyBeforeFirstFile | src/services/bitbucket.service.ts:66 | an added line before any matching file header becomes a patch with the empty path |
| BitbucketService.NoNamingHeaderNoFile | src/services/bitbucket.service.ts:66 | until a file header matches, the current file is empty |
| BitbucketService.EmptyPathNotIgnored | src/services/bitbucket.service.ts:93 | the empty path is not ignored |
| BitbucketService.NewFileMarkerRecorded | src/services/bitbucket.service.ts:93-100 | a `+++` line of a file that is not ignored is itself collected as an added line, and it moves the counter |
| BitbucketService.CounterCarriesOverFileHeader | src/services/bitbucket.service.ts:71-79 | the first added line after a file header gets the counter from before the header: the counter is not reset per file |
| BitbucketService.FileNameFromShape | src/services/bitbucket.service.ts:72-76 | the name taken from a header contains no line terminator and no ` b/` |
| BitbucketService.FileNameShape | src/services/bitbucket.service.ts:72-76 | FileNameFromShape for a whole line |
| BitbucketService.FileNameRoundTrip | src/services/bitbucket.service.ts:72-76 | `diff --git a/<a> b/<b>` gives `b` when neither name has a line terminator and `b` has no ` b/` |
| BitbucketService.KeysOf | src/services/bitbucket.service.ts:210-215 | each listed comment is compared by `inline?.path`, `inline?.line` and `content?.raw`, in order |
| BitbucketService.GetCommentsIff | src/services/bitbucket.service.ts:202-227 | a comment is produced exactly when some suggestion has its path, line and message, a patch has that path and line, and no listed comment has that key |
| BitbucketService.MissingValuesAreNoComments | src/services/bitbucket.service.ts:200 | a response without `values` is treated as an empty list |
| BitbucketService.GeneralCommentNeverDuplicate | src/services/bitbucket.service.ts:210-215 | a comment without `inline` never suppresses a suggestion |
| BitbucketService.ExistingKeysAppend | src/services/bitbucket.service.ts:200 | the keys of two lists of comments are the keys of each list, in order |
| BitbucketService.GetCommentsRerun | src/services/bitbucket.service.ts:202-227 | once every produced comment has been posted and is listed, a second run produces nothing |
| BitbucketService.PostComments | src/services/bitbucket.service.ts:150-185 | a listing error is re-thrown and nothing is posted; otherwise there is one event per computed comment, in order, posted or failed as the host answers |
| BitbucketService.NoCommentSkipped | src/services/bitbucket.service.ts:158-178 | Bitbucket checks no parameters: no comment is skipped |
| ChunkManager.SplitIntoChunks | src/utils/chunk-manager.util.ts:2-26 | the chunks laid end to end are the items; no chunk is empty; there are no chunks exactly when there are no items; a chunk of two or more items fits the budget; and a chunk is closed only when the next item would not fit |
| ChunkManager.GreedyPackingIsUnique | src/utils/chunk-manager.util.ts:2-26 | only one chunking of given items has these properties, so they determine the result |
| ChunkManager.TailIsGreedyPacking | src/utils/chunk-manager.util.ts:8-19 | the first chunk is a prefix of the items, and the remaining chunks pack the remaining items |
| ChunkManager.FirstChunkIsFull | src/utils/chunk-manager.util.ts:11 | when there is a second chunk, the first chunk plus one more item exceeds the budget |
| ChunkManager.FirstChunkPrefixesFit | src/utils/chunk-manager.util.ts:11-17 | every prefix of two or more items of the first chunk fits the budget |
| ChunkManager.FirstChunkNotShorter | src/utils/chunk-manager.util.ts:8-19 | the first chunk of any such chunking is as long as that of any other |
| ChunkManager.ConsChunk | src/utils/chunk-manager.util.ts:8-19 | a fitting chunk that the next chunk's first item would overflow, put in front of such a chunking, gives one |
| ChunkManager.UniformItemsPackEvenly | src/utils/chunk-manager.util.ts:2-26 | items of equal length `len`, with a budget of at least `n*len` and less than `(n+1)*len`, are packed `n` at a time |
| ChunkManager.TwentyFiveItemsOfFiveHundred | src/utils/chunk-manager.util.ts:2-26 | 25 items of 500 characters with a budget of 2000 give six chunks of four and one of one |
| ChunkManager.TotalLengthMonotone | src/utils/chunk-manager.util.ts:12-17 | a longer prefix never has a smaller serialized length |
| ChunkManager.FlattenFront | src/utils/chunk-manager.util.ts:8-23 | the chunks laid end to end start with the first chunk |
| ChunkManager.SplitReferenceContent | src/utils/chunk-manager.util.ts:28-61 | a budget of zero or less is an error with the source's message; text within the budget is one chunk; otherwise the result is exactly `Packed` of the lines; the non-empty lines of the chunks are the non-empty lines of the text, in order; every chunk fits or is one line of the text; the last chunk is not empty; an empty chunk is only ever followed by a line that alone reaches the budget, and one is produced first when the first line does; a chunk is closed only when the first line of the next one does not fit beside it |
| ChunkManager.PackLines | src/utils/chunk-manager.util.ts:45-58 | the loop over the lines and the final push return exactly `Packed(lines)`, the chunks of the reference state function `LoopState`, and these meet LinesPacked |
| ChunkManager.PackedIsLinesPacked | src/utils/chunk-manager.util.ts:45-58 | the chunks of `Packed` lose and reorder no non-empty line; a chunk over the budget is one line; the last chunk is not empty; an empty chunk is followed by a line that alone reaches the budget; every chunk but the last was closed because the next one's first line did not fit beside it |
| ChunkManager.LoopStateKept | src/utils/chunk-manager.util.ts:47-54 | the loop state after any number of lines meets all parts of the loop invariant, by induction over the lines |
| ChunkManager.LineStep | src/utils/chunk-manager.util.ts:48-54 | the overflow branch (push and restart) and the append branch each keep the loop invariant |
| ChunkManager.LongLineAfterEmptyOpenChunk | src/utils/chunk-manager.util.ts:48-51 | whenever a line of `maxSize` or more characters arrives while the open chunk is empty, at any position, the result holds an empty chunk followed by that line alone |
| ChunkManager.ClosedIsPrefix | src/utils/chunk-manager.util.ts:47-58 | the chunks closed after any number of lines are a prefix of the returned chunks |
| ChunkManager.ShortLinesShareChunk | src/utils/chunk-manager.util.ts:48-54 | `["a", "b", "cd"]` with a budget of 5 gives `["a\nb", "cd"]`: lines that fit share a chunk |
| ChunkManager.EmptyChunksBeforeLongLines | src/utils/chunk-manager.util.ts:48-54 | `["aaaa", "", "bbbb"]` with a budget of 4 gives `["", "aaaa", "", "bbbb"]` |
| ChunkManager.EmptyChunkAfterEmptyLine | src/utils/chunk-manager.util.ts:48-54 | `["", "aaaa"]` with a budget of 4 gives `["", "aaaa"]`: the leading empty line leaves the open chunk empty |
| ChunkManager.AddLine | src/utils/chunk-manager.util.ts:52 | appending a line with its `\n` separator adds exactly that line to the lines of the chunk |
| ChunkManager.NonEmptyAppend | src/utils/chunk-manager.util.ts:45-58 | the non-empty lines of two lists of lines are those of each list, in order |
| Text.Split | src/services/github.service.ts:54 | `split('\n')` gives at least one piece and no piece contains a newline |
| Text.JoinSplit | src/services/bitbucket.service.ts:64 | joining the pieces of `split('\n')` with newlines gives the text back |
| Text.SplitJoin | src/services/github.service.ts:54 | splitting the join of newline-free lines gives the lines back |
| Text.LastIndexAtOrBefore | src/services/bitbucket.service.ts:72 | the backtracking of the greedy first group: the last start of the pattern at or before the bound, with no occurrence after it up to the bound, and none exactly when it occurs nowhere up to the bound |

## Left out

- The HTTP calls to the Octokit and Bitbucket REST APIs are not modelled.
  Their results are parameters: the file listing, the diff text, the existing
  comments, and whether a post was accepted.
- Pagination is left out. The GitHub walk takes the files of all pages as one
  list. `ExistingKeysAppend` shows that keys distribute over pages.
- The rate-limit delay after each post is a timer, so the model leaves it out.
  The `CommentRateLimitDelay` constant is only recorded.
- Logging and `console` output are left out.
- `getReferenceFiles` (both providers) is left out. It only reads files over
  the network and concatenates them. Its result is a parameter of
  `ProcessPullRequest`.
- `handlePullRequest` is left out. It only copies webhook fields into the base
  payload.
- The constructors are left out. They read environment variables and throw
  when one is missing.
- The OpenAI service is not part of this model. `reviewPatches` is a function
  parameter. `base.service.ts` calls it with two arguments, while the
  reviewer's own signature takes one; the model passes both values.
- `VALID_ACTIONS` takes its contents from configuration, so it is a parameter.
  `base.service.ts` imports `COMMENT_IGNORE_FILE_PATTERNS`, `VALID_ACTIONS` and
  `COMMENT_RATE_LIMIT_DELAY`, but `config.constants.ts` exports the ignore list
  as `GITHUB_COMMENT_IGNORE_FILE_PATTERNS`. The model takes that list as the
  one meant.
- Lengths are counted in characters. JavaScript counts UTF-16 code units.
- ChunkManager.SplitReferenceContent: does not model the `typeof content !== 'string'` check, because a Dafny string is always a string.
- ChunkManager.SplitReferenceContent: the budget `maxSize` is an integer,
  while the source takes any JavaScript number. Two cases are not modelled:
  - a budget strictly between 0 and 1 is not an error in the source, and
    `"ab\ncd"` then gives `["", "ab", "cd"]`;
  - a NaN budget fails every comparison, so every line joins one chunk.
  `ChunkManager.SplitIntoChunks` also takes an integer budget. Item lengths
  are integers, so there a fractional budget acts like its floor and NaN acts
  like an unlimited budget.
- DiffLines.DecimalValue: `parseInt` is exact on unbounded naturals. The
  precision loss of JavaScript numbers above 2^53 is not modelled.
- Suggestion lines are integers. A reviewer answer with a fractional or
  non-numeric line is not modelled.
- GitHubService.PostComments: after a listing error, the re-thrown value is the
  error's message as a string, not the error object.
- BitbucketService.PostComments: after a listing error, the re-thrown value is
  the error's message as a string, not the error object.
- Try/catch paths are simplified:
  - a `getPatches` that throws re-throws in both providers, which is the
    `Err` of its result;
  - an individual post that throws is a `PostFailed` event;
  - nothing else in the loops can throw in the model.
