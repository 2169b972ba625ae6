/** The ignore list of src/constants/config.constants.ts: regular expressions
    over file paths, each written here as a predicate on the path. None of them
    has the `i` or `m` flag, so matching is case-sensitive and `$` means the end
    of the path. */
module ConfigConstants {
  import opened Text

  /** One entry of the ignore list, in the list's order. */
  datatype IgnorePattern =
    | LockFile    // /-lock\.json$/
    | Markdown    // /\.md$/
    | Image       // /\.(png|jpg|jpeg|gif|svg|ico)$/
    | Font        // /\.(woff|woff2|ttf|eot)$/
    | Bundle      // /\.(min|prod)\.(js|css)$/
    | SourceMap   // /\.map$/
    | LogOrText   // /\.(log|txt)$/
    | EnvFile     // /\.(env|env\..*)$/
    | Yaml        // /\.(yml|yaml)$/
    | TestFile    // /\.(test|spec)\.(js|ts|jsx|tsx)$/

  /** The ignore list itself. */
  const CommentIgnoreFilePatterns: seq<IgnorePattern> :=
    [LockFile, Markdown, Image, Font, Bundle, SourceMap, LogOrText, EnvFile, Yaml, TestFile]

  /** The delay between two posted comments, in milliseconds. */
  const CommentRateLimitDelay: nat := 1000

  /** `s` ends with one of `suffixes`: a group `(a|b|...)` before `$`. */
  predicate EndsWithAny(s: string, suffixes: seq<string>)
    decreases |suffixes|
  {
    |suffixes| > 0 && (EndsWith(s, suffixes[0]) || EndsWithAny(s, suffixes[1..]))
  }

  /** The endings of the rules that are alternatives of fixed suffixes. */
  const ImageEndings: seq<string> := [".png", ".jpg", ".jpeg", ".gif", ".svg", ".ico"]
  const FontEndings: seq<string> := [".woff", ".woff2", ".ttf", ".eot"]
  const BundleEndings: seq<string> := [".min.js", ".min.css", ".prod.js", ".prod.css"]
  const LogEndings: seq<string> := [".log", ".txt"]
  const YamlEndings: seq<string> := [".yml", ".yaml"]
  const TestEndings: seq<string> :=
    [".test.js", ".test.ts", ".test.jsx", ".test.tsx", ".spec.js", ".spec.ts", ".spec.jsx", ".spec.tsx"]

  /** No character of `s` is a line terminator, so `.*` can match all of it. */
  predicate NoLineTerminator(s: string) {
    forall k :: 0 <= k < |s| ==> !IsLineTerminator(s[k])
  }

  /** The second alternative of the env rule, `\.env\..*$`: ".env." occurs
      somewhere and is followed only by characters `.` can match. */
  predicate HasEnvDotTail(s: string)
    decreases |s|
  {
    |s| >= 5 && ((s[..5] == ".env." && NoLineTerminator(s[5..])) || HasEnvDotTail(s[1..]))
  }

  /** `rx.test(name)` for one pattern of the list. */
  predicate Matches(p: IgnorePattern, name: string) {
    match p
    case LockFile => EndsWith(name, "-lock.json")
    case Markdown => EndsWith(name, ".md")
    case Image => EndsWithAny(name, ImageEndings)
    case Font => EndsWithAny(name, FontEndings)
    case Bundle => EndsWithAny(name, BundleEndings)
    case SourceMap => EndsWith(name, ".map")
    case LogOrText => EndsWithAny(name, LogEndings)
    case EnvFile => EndsWith(name, ".env") || HasEnvDotTail(name)
    case Yaml => EndsWithAny(name, YamlEndings)
    case TestFile => EndsWithAny(name, TestEndings)
  }

  /** An alternative group matches when any one of its suffixes does. */
  lemma {:induction false} EndsWithOneOf(s: string, suffixes: seq<string>, k: nat)
    requires k < |suffixes| && EndsWith(s, suffixes[k])
    ensures EndsWithAny(s, suffixes)
  {
    if k > 0 {
      EndsWithOneOf(s, suffixes[1..], k - 1);
    }
  }

  /** ".env." occurs at index `i` of `s` and only characters `.` can match follow it. */
  predicate EnvDotTailAt(s: string, i: int) {
    OccursAt(s, ".env.", i) && NoLineTerminator(s[i + 5..])
  }

  lemma EnvDotTailShift(s: string, i: nat)
    requires |s| >= 1
    ensures EnvDotTailAt(s, i + 1) <==> EnvDotTailAt(s[1..], i)
  {
    if i + 6 <= |s| {
      assert s[i + 1..i + 6] == s[1..][i..i + 5];
      assert s[i + 6..] == s[1..][i + 5..];
    }
  }

  /** The recursive scan for ".env." agrees with its reading as a search over
      all positions of the path. */
  lemma {:induction false} EnvDotTailAnywhere(s: string)
    ensures HasEnvDotTail(s) <==> exists i :: EnvDotTailAt(s, i)
  {
    if |s| >= 5 {
      EnvDotTailAnywhere(s[1..]);
      if s[..5] == ".env." && NoLineTerminator(s[5..]) {
        assert s[0..5] == s[..5];
        assert EnvDotTailAt(s, 0);
      }
      if HasEnvDotTail(s[1..]) {
        var i :| EnvDotTailAt(s[1..], i);
        EnvDotTailShift(s, i);
      }
      if exists i :: EnvDotTailAt(s, i) {
        var i :| EnvDotTailAt(s, i);
        if i > 0 {
          EnvDotTailShift(s, i - 1);
        } else {
          assert s[0..5] == s[..5];
        }
      }
    } else {
      assert forall i :: !EnvDotTailAt(s, i);
    }
  }
}
