/** What the two `getComments` implementations share: every suggestion is
    matched against the first patch with the same path and line; it is dropped
    when there is none, or when a comment already on the pull request has the
    same path, line and body; otherwise it becomes a comment. Suggestions are
    kept in their order and are not compared with each other. */
module Reconciliation {
  import opened Wrappers
  import opened Types

  /** What a comment already on the pull request is compared by. The fields
      the host may leave out (a GitHub comment on an outdated line has no line;
      a Bitbucket comment without `inline` has neither path nor line) are None,
      and None equals no value. */
  datatype DedupKey = DedupKey(path: Option<string>, line: Option<int>, body: Option<string>)

  /** The key a posted comment is found under afterwards. */
  function KeyOf(c: Comment): DedupKey {
    DedupKey(Some(c.path), Some(c.line), Some(c.content))
  }

  /** `patches.find(p => p.path === path && p.line === line)`, as an index. */
  function FindPatch(patches: seq<Patch>, path: string, line: int): (r: Option<nat>)
    ensures r.Some? ==> r.value < |patches| && patches[r.value].path == path && patches[r.value].line == line
    ensures r.Some? ==> forall j :: 0 <= j < r.value ==> !(patches[j].path == path && patches[j].line == line)
    ensures r.None? <==> forall j :: 0 <= j < |patches| ==> !(patches[j].path == path && patches[j].line == line)
  {
    if patches == [] then None
    else if patches[0].path == path && patches[0].line == line then Some(0)
    else
      match FindPatch(patches[1..], path, line)
      case None => None
      case Some(j) => Some(j + 1)
  }

  /** `existing.some(c => c.path === path && c.line === line && c.body === body)` */
  function IsDuplicate(existing: seq<DedupKey>, path: string, line: int, body: string): (r: bool)
    ensures r <==> exists k :: 0 <= k < |existing| && existing[k] == DedupKey(Some(path), Some(line), Some(body))
  {
    if existing == [] then false
    else
      var e := existing[0];
      (e.path == Some(path) && e.line == Some(line) && e.body == Some(body))
      || IsDuplicate(existing[1..], path, line, body)
  }

  /** The map callback for one suggestion: null, or the comment built from the
      suggestion and the line of the patch that was found. */
  function Suggest(existing: seq<DedupKey>, patches: seq<Patch>, s: CommentSuggestion): Option<Comment> {
    match FindPatch(patches, s.path, s.line)
    case None => None
    case Some(j) =>
      if IsDuplicate(existing, s.path, patches[j].line, s.message) then None
      else Some(Comment(s.path, patches[j].line, s.message))
  }

  /** `suggestions.map(...).filter(c => c !== null)` */
  function Reconcile(existing: seq<DedupKey>, patches: seq<Patch>, suggestions: seq<CommentSuggestion>): (r: seq<Comment>)
    ensures |r| <= |suggestions|
  {
    if suggestions == [] then []
    else
      AsSeq(Suggest(existing, patches, suggestions[0])) + Reconcile(existing, patches, suggestions[1..])
  }

  /** What the filter keeps of one mapped suggestion. */
  function AsSeq(o: Option<Comment>): seq<Comment> {
    match o
    case None => []
    case Some(c) => [c]
  }

  /** A suggestion is kept exactly when some patch has its path and line and
      no existing comment has its path, line and message; the comment is then
      the suggestion itself, whichever of several matching patches came first. */
  lemma SuggestIff(existing: seq<DedupKey>, patches: seq<Patch>, s: CommentSuggestion)
    ensures Suggest(existing, patches, s).Some? <==>
      (exists j :: 0 <= j < |patches| && patches[j].path == s.path && patches[j].line == s.line)
      && KeyOf(Comment(s.path, s.line, s.message)) !in existing
    ensures Suggest(existing, patches, s).Some? ==>
      Suggest(existing, patches, s).value == Comment(s.path, s.line, s.message)
  {
    var key := KeyOf(Comment(s.path, s.line, s.message));
    assert IsDuplicate(existing, s.path, s.line, s.message) <==> key in existing;
  }

  /** The suggestions processed in two parts give the comments of both parts
      in order: the result keeps the order of the suggestions. */
  lemma {:induction false} ReconcileAppend(existing: seq<DedupKey>, patches: seq<Patch>,
                                           a: seq<CommentSuggestion>, b: seq<CommentSuggestion>)
    ensures Reconcile(existing, patches, a + b) == Reconcile(existing, patches, a) + Reconcile(existing, patches, b)
  {
    if a != [] {
      assert (a + b)[0] == a[0];
      assert (a + b)[1..] == a[1..] + b;
      ReconcileAppend(existing, patches, a[1..], b);
      var head := AsSeq(Suggest(existing, patches, a[0]));
      assert Reconcile(existing, patches, a + b) == head + Reconcile(existing, patches, a[1..] + b);
      assert Reconcile(existing, patches, a) == head + Reconcile(existing, patches, a[1..]);
      assert head + (Reconcile(existing, patches, a[1..]) + Reconcile(existing, patches, b)) ==
        (head + Reconcile(existing, patches, a[1..])) + Reconcile(existing, patches, b);
    } else {
      assert a + b == b;
    }
  }

  /** A comment is produced exactly when some suggestion is kept and builds it. */
  lemma {:induction false} ReconcileMembership(existing: seq<DedupKey>, patches: seq<Patch>,
                                               suggestions: seq<CommentSuggestion>, c: Comment)
    ensures c in Reconcile(existing, patches, suggestions) <==>
      exists i :: 0 <= i < |suggestions| && Suggest(existing, patches, suggestions[i]) == Some(c)
  {
    if suggestions != [] {
      ReconcileMembership(existing, patches, suggestions[1..], c);
      if Suggest(existing, patches, suggestions[0]) == Some(c) {
        assert exists i :: 0 <= i < |suggestions| && Suggest(existing, patches, suggestions[i]) == Some(c);
      }
      if exists i :: 0 <= i < |suggestions| && Suggest(existing, patches, suggestions[i]) == Some(c) {
        var i :| 0 <= i < |suggestions| && Suggest(existing, patches, suggestions[i]) == Some(c);
        if i > 0 {
          assert suggestions[1..][i - 1] == suggestions[i];
        }
      }
      if exists i :: 0 <= i < |suggestions[1..]| && Suggest(existing, patches, suggestions[1..][i]) == Some(c) {
        var i :| 0 <= i < |suggestions[1..]| && Suggest(existing, patches, suggestions[1..][i]) == Some(c);
        assert suggestions[1..][i] == suggestions[i + 1];
      }
    }
  }

  /** Every produced comment is anchored on a patch and not yet on the pull
      request. */
  lemma CommentsAnchoredAndNew(existing: seq<DedupKey>, patches: seq<Patch>,
                               suggestions: seq<CommentSuggestion>, c: Comment)
    requires c in Reconcile(existing, patches, suggestions)
    ensures exists j :: 0 <= j < |patches| && patches[j].path == c.path && patches[j].line == c.line
    ensures KeyOf(c) !in existing
  {
    ReconcileMembership(existing, patches, suggestions, c);
    var i :| 0 <= i < |suggestions| && Suggest(existing, patches, suggestions[i]) == Some(c);
    SuggestIff(existing, patches, suggestions[i]);
  }

  /** More existing comments never bring a suggestion back. */
  lemma SuggestMonotone(existing: seq<DedupKey>, more: seq<DedupKey>, patches: seq<Patch>, s: CommentSuggestion)
    requires Suggest(existing + more, patches, s).Some?
    ensures Suggest(existing, patches, s) == Suggest(existing + more, patches, s)
  {
    SuggestIff(existing, patches, s);
    SuggestIff(existing + more, patches, s);
  }

  /** Running again once the comments of a run are on the pull request posts
      nothing: every suggestion is now a duplicate or still has no patch. */
  lemma {:induction false} RerunPostsNothing(existing: seq<DedupKey>, patches: seq<Patch>,
                                             suggestions: seq<CommentSuggestion>, posted: seq<DedupKey>)
    requires forall c :: c in Reconcile(existing, patches, suggestions) ==> KeyOf(c) in posted
    ensures Reconcile(existing + posted, patches, suggestions) == []
  {
    if suggestions != [] {
      var s := suggestions[0];
      var first := Suggest(existing, patches, s);
      assert Reconcile(existing, patches, suggestions) ==
        (if first.Some? then [first.value] else []) + Reconcile(existing, patches, suggestions[1..]);
      RerunPostsNothing(existing, patches, suggestions[1..], posted);
      SuggestIff(existing, patches, s);
      SuggestIff(existing + posted, patches, s);
      if first.Some? {
        assert KeyOf(first.value) in posted;
      }
    }
  }

  /** Comments that are not attached to a line (no path or no line) never make
      a suggestion a duplicate. */
  lemma UnanchoredNeverDuplicate(existing: seq<DedupKey>, extra: seq<DedupKey>, patches: seq<Patch>,
                                 s: CommentSuggestion)
    requires forall k :: 0 <= k < |extra| ==> extra[k].path.None? || extra[k].line.None?
    ensures Suggest(existing + extra, patches, s) == Suggest(existing, patches, s)
  {
    SuggestIff(existing, patches, s);
    SuggestIff(existing + extra, patches, s);
  }

  /** Adding comments that are not attached to a line changes no result. */
  lemma {:induction false} ReconcileIgnoresUnanchored(existing: seq<DedupKey>, extra: seq<DedupKey>,
                                                      patches: seq<Patch>, suggestions: seq<CommentSuggestion>)
    requires forall k :: 0 <= k < |extra| ==> extra[k].path.None? || extra[k].line.None?
    ensures Reconcile(existing + extra, patches, suggestions) == Reconcile(existing, patches, suggestions)
  {
    if suggestions != [] {
      UnanchoredNeverDuplicate(existing, extra, patches, suggestions[0]);
      ReconcileIgnoresUnanchored(existing, extra, patches, suggestions[1..]);
    }
  }

  /** Two equal suggestions in one answer both become comments: duplicates
      within a run are not suppressed. */
  lemma RepeatedSuggestionPostedTwice(p: Patch, message: string)
    ensures var s := CommentSuggestion(p.path, p.line, message);
      Reconcile([], [p], [s, s]) == [Comment(p.path, p.line, message), Comment(p.path, p.line, message)]
  {
    var s := CommentSuggestion(p.path, p.line, message);
    assert FindPatch([p], s.path, s.line) == Some(0);
    assert [s, s][1..] == [s];
  }

  /** A suggestion for a line that is not among the added lines is dropped. */
  lemma SuggestionOffDiffDropped(p: Patch, message: string)
    ensures Reconcile([], [p], [CommentSuggestion(p.path, p.line + 1, message)]) == []
  {
  }

  /** A suggestion already on the pull request is dropped. */
  lemma SuggestionAlreadyPostedDropped(p: Patch, message: string)
    ensures var key := DedupKey(Some(p.path), Some(p.line), Some(message));
      Reconcile([key], [p], [CommentSuggestion(p.path, p.line, message)]) == []
  {
    var key := DedupKey(Some(p.path), Some(p.line), Some(message));
    assert [key][0] == key;
  }
}
