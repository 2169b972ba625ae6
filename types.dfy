/** The records that flow through the review pipeline (src/types/base.types.ts). */
module Types {

  /** An added line of a diff: file path, line number in the new file,
      the text without its leading '+', and the hunk header above it. */
  datatype Patch = Patch(path: string, line: nat, content: string, diffHunk: string)

  /** What the reviewer returns: a message it wants attached to `path`:`line`.
      The line is whatever the reviewer said and need not exist in the diff. */
  datatype CommentSuggestion = CommentSuggestion(path: string, line: int, message: string)

  /** A comment ready to be posted on the pull request. */
  datatype Comment = Comment(path: string, line: int, content: string)

  /** A patch as the reviewer sees it: without the hunk header. */
  datatype ReviewPatch = ReviewPatch(path: string, line: int, content: string)

  /** What happened to one computed comment in a posting loop. */
  datatype PostEvent =
    | Skipped(comment: Comment)      // not sent: a required parameter is missing
    | Posted(comment: Comment)       // the host accepted it
    | PostFailed(comment: Comment)   // the host call failed; the loop goes on
}
