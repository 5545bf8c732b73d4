/** Comment placement in the reviewer: which generated comments can be
    anchored on a diff line (and are posted as inline discussions), which
    fall back to the summary note, and how that note is rendered. */
module Placement {
  import opened Wrappers
  import opened Text
  import opened DiffLines

  /** One file of a merge request's change set. */
  datatype Change = Change(oldPath: string, newPath: string, diff: string,
                           newFile: bool, renamed: bool, deleted: bool)

  /** One comment proposed by the language model; `line` is a new-file line
      number, 0 or less meaning the file as a whole. */
  datatype ReviewComment = ReviewComment(file: string, line: int, comment: string)

  /** The three commit SHAs the platform needs to place a diff comment. */
  datatype DiffRefs = DiffRefs(baseSha: string, startSha: string, headSha: string)

  /** The inline discussion request posted for one anchored comment. */
  datatype PostCall = PostCall(body: string, refs: DiffRefs, newPath: string, newLine: int)

  /** What the platform answers to one post. */
  datatype PostOutcome = PostOk | PostFailed(error: string)

  datatype InlineResult = InlineResult(posted: nat, fallback: seq<ReviewComment>)

  /** `postInlineComments`' two results: the (possibly partial) placement
      and the error that stopped it. `calls` records the posts issued. */
  datatype Placement = Placement(result: InlineResult, calls: seq<PostCall>, err: Option<string>)

  // ---------------------------------------------------------------------
  // findChange
  // ---------------------------------------------------------------------

  predicate Touches(change: Change, file: string) {
    change.newPath == file || change.oldPath == file
  }

  /** The first change whose new or old path is `file`, if any (see
      `FindChangeIsFirst`). */
  function FindChange(changes: seq<Change>, file: string): (r: Option<Change>)
    ensures r.Some? ==> r.value in changes && Touches(r.value, file)
    decreases |changes|
  {
    if |changes| == 0 then None
    else if Touches(changes[0], file) then Some(changes[0])
    else FindChange(changes[1..], file)
  }

  /** The lookup fails only when no change touches `file`, and otherwise
      returns the first change that does. */
  lemma {:induction false} FindChangeIsFirst(changes: seq<Change>, file: string)
    ensures FindChange(changes, file).None? <==> forall i | 0 <= i < |changes| :: !Touches(changes[i], file)
    ensures FindChange(changes, file).Some? ==> exists i | 0 <= i < |changes| ::
      changes[i] == FindChange(changes, file).value
      && forall j | 0 <= j < i :: !Touches(changes[j], file)
    decreases |changes|
  {
    if |changes| > 0 && !Touches(changes[0], file) {
      FindChangeIsFirst(changes[1..], file);
      if FindChange(changes[1..], file).Some? {
        var i :| 0 <= i < |changes[1..]| && changes[1..][i] == FindChange(changes[1..], file).value
          && forall j | 0 <= j < i :: !Touches(changes[1..][j], file);
        assert changes[i + 1] == FindChange(changes, file).value;
        assert forall j | 0 <= j < i + 1 :: !Touches(changes[j], file) by {
          forall j | 0 <= j < i + 1 ensures !Touches(changes[j], file) {
            if j > 0 {
              assert changes[j] == changes[1..][j - 1];
            }
          }
        }
      } else {
        assert forall i | 0 <= i < |changes| :: !Touches(changes[i], file) by {
          forall i | 0 <= i < |changes| ensures !Touches(changes[i], file) {
            if i > 0 {
              assert changes[i] == changes[1..][i - 1];
            }
          }
        }
      }
    } else if |changes| > 0 {
      assert changes[0] == FindChange(changes, file).value;
    }
  }

  // ---------------------------------------------------------------------
  // postInlineComments
  // ---------------------------------------------------------------------

  /** A comment can be anchored when its file is in the change set, its line
      is positive, and the file's diff shows that new-file line. */
  predicate Anchorable(changes: seq<Change>, c: ReviewComment) {
    var change := FindChange(changes, c.file);
    change.Some? && c.line > 0 && Resolves(change.value.diff, c.line)
  }

  /** The inline discussion request for an anchorable comment: its text at
      its line, on the matched change's new path. */
  function CallFor(refs: DiffRefs, changes: seq<Change>, c: ReviewComment): PostCall
    requires Anchorable(changes, c)
  {
    PostCall(c.comment, refs, FindChange(changes, c.file).value.newPath, c.line)
  }

  /** Reference definition: the comments that cannot be anchored, in order. */
  function Unanchored(changes: seq<Change>, comments: seq<ReviewComment>): seq<ReviewComment>
    decreases |comments|
  {
    if |comments| == 0 then []
    else (if Anchorable(changes, comments[0]) then [] else [comments[0]])
         + Unanchored(changes, comments[1..])
  }

  /** Reference definition: one post request per anchorable comment, in order. */
  function AnchorCalls(refs: DiffRefs, changes: seq<Change>, comments: seq<ReviewComment>): seq<PostCall>
    decreases |comments|
  {
    if |comments| == 0 then []
    else (if Anchorable(changes, comments[0]) then [CallFor(refs, changes, comments[0])] else [])
         + AnchorCalls(refs, changes, comments[1..])
  }

  /** `postInlineComments` with the platform's post as the oracle `post`,
      which is given the number of posts issued before each one (`issued`
      counts those made before this call; 0 for a whole run), so that
      identical requests may get different answers. Comments are taken in
      order; an unanchorable one is appended to the
      fallback unchanged; an anchorable one is posted once, counted on
      success, and on failure stops everything, returning what was placed
      so far together with the wrapped error. Which comments fall back and
      which are posted is stated by `PlaceFollowsReference`. */
  function Place(refs: DiffRefs, changes: seq<Change>, comments: seq<ReviewComment>,
                 post: (nat, PostCall) -> PostOutcome, issued: nat): (p: Placement)
    ensures Accounted(post, issued, |comments|, p)
    decreases |comments|
  {
    if |comments| == 0 then
      Placement(InlineResult(0, []), [], None)
    else
      var c := comments[0];
      if !Anchorable(changes, c) then
        var rest := Place(refs, changes, comments[1..], post, issued);
        AccountedFallback(post, issued, |comments| - 1, rest, c);
        Placement(rest.result.(fallback := [c] + rest.result.fallback), rest.calls, rest.err)
      else
        var call := CallFor(refs, changes, c);
        match post(issued, call)
        case PostFailed(e) =>
          Placement(InlineResult(0, []), [call], Some("post inline discussion: " + e))
        case PostOk =>
          var rest := Place(refs, changes, comments[1..], post, issued + 1);
          AccountedPosted(post, issued, |comments| - 1, rest, call);
          Placement(rest.result.(posted := rest.result.posted + 1), [call] + rest.calls, rest.err)
  }

  /** What `Place` reports about `n` comments: it never takes more than
      them, and takes all of them unless an error stopped it; an error is
      the wrapped failure of the last post issued; the posts counted are
      all the calls but a failed last one, and the platform accepted each
      of them; so without an error every comment was either posted or
      fell back. */
  predicate Accounted(post: (nat, PostCall) -> PostOutcome, issued: nat, n: nat, p: Placement) {
    && |p.result.fallback| + |p.calls| <= n
    && (p.err.None? ==> |p.result.fallback| + |p.calls| == n)
    && (p.err.Some? ==> |p.calls| > 0 && LastOutcome(post, issued, p.calls).PostFailed?
                        && p.err.value == "post inline discussion: " + LastOutcome(post, issued, p.calls).error)
    && p.result.posted == (if p.err.Some? then |p.calls| - 1 else |p.calls|)
    && AllAccepted(post, issued, p.calls[..p.result.posted])
    && (p.err.None? ==> p.result.posted + |p.result.fallback| == n)
  }

  /** A comment that falls back keeps the account, one comment longer. */
  lemma AccountedFallback(post: (nat, PostCall) -> PostOutcome, issued: nat, n: nat, rest: Placement, c: ReviewComment)
    requires Accounted(post, issued, n, rest)
    ensures Accounted(post, issued, n + 1,
                      Placement(rest.result.(fallback := [c] + rest.result.fallback), rest.calls, rest.err))
  {
  }

  /** An accepted post ahead of the rest keeps the account, one comment
      longer, with the rest's posts numbered one later. */
  lemma AccountedPosted(post: (nat, PostCall) -> PostOutcome, issued: nat, n: nat, rest: Placement, call: PostCall)
    requires post(issued, call) == PostOk && Accounted(post, issued + 1, n, rest)
    ensures Accounted(post, issued, n + 1,
                      Placement(rest.result.(posted := rest.result.posted + 1), [call] + rest.calls, rest.err))
  {
    var calls := [call] + rest.calls;
    AcceptedCons(post, issued, call, rest.calls[..rest.result.posted]);
    LastOutcomeCons(post, issued, call, rest.calls);
    assert calls[..rest.result.posted + 1] == [call] + rest.calls[..rest.result.posted];
  }

  /** The platform accepted each of `calls`, the first being post number
      `issued`. */
  predicate AllAccepted(post: (nat, PostCall) -> PostOutcome, issued: nat, calls: seq<PostCall>) {
    forall i | 0 <= i < |calls| :: post(issued + i, calls[i]) == PostOk
  }

  /** The platform's answer to the last of `calls`, the first being post
      number `issued`. */
  function LastOutcome(post: (nat, PostCall) -> PostOutcome, issued: nat, calls: seq<PostCall>): PostOutcome
    requires |calls| > 0
  {
    post(issued + |calls| - 1, calls[|calls| - 1])
  }

  /** Prepending a post does not change which post comes last. */
  lemma LastOutcomeCons(post: (nat, PostCall) -> PostOutcome, issued: nat, call: PostCall, calls: seq<PostCall>)
    ensures |calls| > 0 ==> LastOutcome(post, issued, [call] + calls) == LastOutcome(post, issued + 1, calls)
  {
    if |calls| > 0 {
      assert ([call] + calls)[|calls|] == calls[|calls| - 1];
    }
  }

  /** An accepted post followed by accepted posts. */
  lemma AcceptedCons(post: (nat, PostCall) -> PostOutcome, issued: nat, call: PostCall, calls: seq<PostCall>)
    requires post(issued, call) == PostOk && AllAccepted(post, issued + 1, calls)
    ensures AllAccepted(post, issued, [call] + calls)
  {
    forall i | 0 <= i < |calls| + 1 ensures post(issued + i, ([call] + calls)[i]) == PostOk {
      if i > 0 {
        assert ([call] + calls)[i] == calls[i - 1];
        assert issued + i == (issued + 1) + (i - 1);
      }
    }
  }

  /** With `k` the number of comments taken (each either fell back or was
      posted), the fallback and the posts are exactly the reference
      definitions over the first `k` comments; without an error all were
      taken, and with one the last comment taken is the anchorable one whose
      post failed. */
  predicate FollowsReference(refs: DiffRefs, changes: seq<Change>, comments: seq<ReviewComment>, p: Placement) {
    var k := |p.result.fallback| + |p.calls|;
    && k <= |comments|
    && p.result.fallback == Unanchored(changes, comments[..k])
    && p.calls == AnchorCalls(refs, changes, comments[..k])
    && (p.err.Some? ==> 0 < k && Anchorable(changes, comments[k - 1]))
  }

  /** `Place` matches the reference definitions on every input. */
  lemma {:induction false} PlaceFollowsReference(refs: DiffRefs, changes: seq<Change>,
                                                 comments: seq<ReviewComment>, post: (nat, PostCall) -> PostOutcome, issued: nat)
    ensures FollowsReference(refs, changes, comments, Place(refs, changes, comments, post, issued))
    decreases |comments|
  {
    if |comments| > 0 {
      var c := comments[0];
      if !Anchorable(changes, c) {
        PlaceFollowsReference(refs, changes, comments[1..], post, issued);
        FallbackStep(refs, changes, comments, post, issued);
      } else if post(issued, CallFor(refs, changes, c)).PostFailed? {
        TakeAnchored(refs, changes, comments, 0);
      } else {
        PlaceFollowsReference(refs, changes, comments[1..], post, issued + 1);
        PostedStep(refs, changes, comments, post, issued);
      }
    }
  }

  /** The inductive step when the first comment falls back. */
  lemma FallbackStep(refs: DiffRefs, changes: seq<Change>, comments: seq<ReviewComment>, post: (nat, PostCall) -> PostOutcome, issued: nat)
    requires |comments| > 0 && !Anchorable(changes, comments[0])
    requires FollowsReference(refs, changes, comments[1..], Place(refs, changes, comments[1..], post, issued))
    ensures FollowsReference(refs, changes, comments, Place(refs, changes, comments, post, issued))
  {
    var rest := Place(refs, changes, comments[1..], post, issued);
    var k := |rest.result.fallback| + |rest.calls|;
    TakeFallback(refs, changes, comments, k);
  }

  /** The inductive step when the first comment is posted successfully. */
  lemma PostedStep(refs: DiffRefs, changes: seq<Change>, comments: seq<ReviewComment>, post: (nat, PostCall) -> PostOutcome, issued: nat)
    requires |comments| > 0 && Anchorable(changes, comments[0])
    requires post(issued, CallFor(refs, changes, comments[0])).PostOk?
    requires FollowsReference(refs, changes, comments[1..], Place(refs, changes, comments[1..], post, issued + 1))
    ensures FollowsReference(refs, changes, comments, Place(refs, changes, comments, post, issued))
  {
    var rest := Place(refs, changes, comments[1..], post, issued + 1);
    var k := |rest.result.fallback| + |rest.calls|;
    TakeAnchored(refs, changes, comments, k);
  }

  /** The platform may answer identical requests differently: when the
      second of two posts of the same comment fails, the first stays
      counted and the error reports the second. */
  lemma IdenticalPostsMayDiffer(refs: DiffRefs, changes: seq<Change>, c: ReviewComment)
    requires Anchorable(changes, c)
    ensures var p := Place(refs, changes, [c, c], (n, _) => if n == 0 then PostOk else PostFailed("timeout"), 0);
      p.result.posted == 1 && p.calls == [CallFor(refs, changes, c), CallFor(refs, changes, c)]
      && p.err == Some("post inline discussion: timeout")
  {
    assert [c, c][1..] == [c];
    assert "post inline discussion: " + "timeout" == "post inline discussion: timeout";
  }

  /** Taking `k + 1` comments when the first falls back: it heads the
      fallback, and the posts are those of `k` of the rest. */
  lemma TakeFallback(refs: DiffRefs, changes: seq<Change>, comments: seq<ReviewComment>, k: nat)
    requires k < |comments| && !Anchorable(changes, comments[0])
    ensures Unanchored(changes, comments[..k + 1]) == [comments[0]] + Unanchored(changes, comments[1..][..k])
    ensures AnchorCalls(refs, changes, comments[..k + 1]) == AnchorCalls(refs, changes, comments[1..][..k])
    ensures 0 < k ==> comments[k] == comments[1..][k - 1]
  {
    assert comments[..k + 1][1..] == comments[1..][..k];
    assert comments[..k + 1][0] == comments[0];
  }

  /** Taking `k + 1` comments when the first is anchorable: its post heads
      the calls, and the fallback is that of `k` of the rest. */
  lemma TakeAnchored(refs: DiffRefs, changes: seq<Change>, comments: seq<ReviewComment>, k: nat)
    requires k < |comments| && Anchorable(changes, comments[0])
    ensures Unanchored(changes, comments[..k + 1]) == Unanchored(changes, comments[1..][..k])
    ensures AnchorCalls(refs, changes, comments[..k + 1])
      == [CallFor(refs, changes, comments[0])] + AnchorCalls(refs, changes, comments[1..][..k])
    ensures 0 < k ==> comments[k] == comments[1..][k - 1]
  {
    assert comments[..k + 1][1..] == comments[1..][..k];
    assert comments[..k + 1][0] == comments[0];
  }

  // ---------------------------------------------------------------------
  // renderSummary
  // ---------------------------------------------------------------------

  const SummaryHeader: string := "### 🤖 Review Summary\n"
  const SuggestionsHeader: string := "### 💬 Additional Suggestions\n"

  /** Where a fallback comment points: `file`, or `file:line` for a
      positive line. */
  function Location(c: ReviewComment): string {
    c.file + (if c.line > 0 then ":" + ShowInt(c.line) else "")
  }

  /** The bullet of one fallback comment. */
  function Bullet(c: ReviewComment): string {
    "- " + Location(c) + (" — " + c.comment + "\n")
  }

  function Bullets(fallback: seq<ReviewComment>): string
    decreases |fallback|
  {
    if |fallback| == 0 then "" else Bullet(fallback[0]) + Bullets(fallback[1..])
  }

  /** The summary note: the summary under its header, then, only when some
      comments fell back, a suggestions section with one bullet per
      fallback comment in order. */
  function RenderSummary(summary: string, fallback: seq<ReviewComment>): (r: string)
    ensures HasPrefix(r, SummaryHeader + summary + "\n\n")
    ensures |fallback| == 0 <==> r == SummaryHeader + summary + "\n\n"
    ensures |fallback| > 0 ==> r == SummaryHeader + summary + "\n\n" + SuggestionsHeader + Bullets(fallback)
  {
    var head := SummaryHeader + summary + "\n\n";
    if |fallback| == 0 then head
    else
      assert |Bullets(fallback)| > 0;
      head + SuggestionsHeader + Bullets(fallback)
  }

  /** The rendered note around the bullet of the `i`-th fallback comment. */
  lemma RenderAround(summary: string, fallback: seq<ReviewComment>, i: nat) returns (pre: string, post: string)
    requires i < |fallback|
    ensures RenderSummary(summary, fallback) == pre + Bullet(fallback[i]) + post
  {
    var head := SummaryHeader + summary + "\n\n" + SuggestionsHeader;
    var p, q := BulletsSplit(fallback, i);
    pre, post := head + p, q;
  }

  /** Every fallback comment's bullet appears in the rendered note. */
  lemma RenderMentionsEach(summary: string, fallback: seq<ReviewComment>, i: nat)
    requires i < |fallback|
    ensures Contains(RenderSummary(summary, fallback), Bullet(fallback[i]))
  {
    var pre, post := RenderAround(summary, fallback, i);
    ContainsInfix(pre, Bullet(fallback[i]), post);
  }

  /** Every fallback comment's location, `file:line` for a positive line,
      appears in the rendered note. */
  lemma RenderMentionsLocation(summary: string, fallback: seq<ReviewComment>, i: nat)
    requires i < |fallback|
    ensures Contains(RenderSummary(summary, fallback), Location(fallback[i]))
  {
    var c := fallback[i];
    var pre, post := RenderAround(summary, fallback, i);
    ContainsWithin(pre, Bullet(c), post, "- ", Location(c), " — " + c.comment + "\n");
  }

  /** A piece of a middle part occurs in the whole. */
  lemma ContainsWithin(pre: string, mid: string, post: string, x: string, l: string, y: string)
    requires mid == x + l + y
    ensures Contains(pre + mid + post, l)
  {
    assert pre + mid + post == (pre + x) + l + (y + post);
    ContainsInfix(pre + x, l, y + post);
  }

  /** The bullets around the `i`-th one. */
  lemma {:induction false} BulletsSplit(fallback: seq<ReviewComment>, i: nat) returns (pre: string, post: string)
    requires i < |fallback|
    ensures Bullets(fallback) == pre + Bullet(fallback[i]) + post
    decreases i
  {
    if i == 0 {
      pre, post := "", Bullets(fallback[1..]);
    } else {
      var p, q := BulletsSplit(fallback[1..], i - 1);
      pre, post := Bullet(fallback[0]) + p, q;
    }
  }

  // ---------------------------------------------------------------------
  // Properties of the reference definitions, and the documented examples
  // ---------------------------------------------------------------------

  /** A comment falls back exactly when it is one of the comments and is not
      anchorable: its file has no change, its line is not positive, or the
      diff does not show that line. */
  lemma {:induction false} UnanchoredMembers(changes: seq<Change>, comments: seq<ReviewComment>, c: ReviewComment)
    ensures c in Unanchored(changes, comments) <==> c in comments && !Anchorable(changes, c)
    decreases |comments|
  {
    if |comments| > 0 {
      UnanchoredMembers(changes, comments[1..], c);
      assert comments == [comments[0]] + comments[1..];
    }
  }

  /** Every comment either falls back or is posted, never both. */
  lemma {:induction false} ReferencePartition(refs: DiffRefs, changes: seq<Change>, comments: seq<ReviewComment>)
    ensures |Unanchored(changes, comments)| + |AnchorCalls(refs, changes, comments)| == |comments|
    decreases |comments|
  {
    if |comments| > 0 {
      ReferencePartition(refs, changes, comments[1..]);
    }
  }

  const ExampleChange: Change := Change("main.go", "main.go", ExampleDiff, false, false, false)
  const NiceComment: ReviewComment := ReviewComment("main.go", 2, "nice")
  const MissingComment: ReviewComment := ReviewComment("missing.go", 1, "x")

  lemma ExampleAnchoring()
    ensures Anchorable([ExampleChange], NiceComment)
    ensures !Anchorable([ExampleChange], MissingComment)
  {
    NiceAnchored();
    MissingNotFound();
  }

  lemma NiceAnchored()
    ensures Anchorable([ExampleChange], NiceComment)
  {
    ExampleDiffResolves(2);
    assert FindChange([ExampleChange], "main.go") == Some(ExampleChange);
  }

  lemma MissingNotFound()
    ensures FindChange([ExampleChange], "missing.go").None?
  {
    assert |"main.go"| != |"missing.go"|;
    assert [ExampleChange][1..] == [];
  }

  /** One change for `main.go` with the example diff: a comment on its
      line 2 is posted, one on a missing file falls back unchanged. */
  lemma PlaceExample(refs: DiffRefs)
    ensures var p := Place(refs, [ExampleChange], [NiceComment, MissingComment], (_, _) => PostOk, 0);
      && p.err.None? && p.result.posted == 1 && p.result.fallback == [MissingComment]
      && p.calls == [PostCall("nice", refs, "main.go", 2)]
  {
    ExampleAnchoring();
    assert FindChange([ExampleChange], "main.go") == Some(ExampleChange);
    PostThenFallBack(refs, [ExampleChange], NiceComment, MissingComment, (_, _) => PostOk, 0);
  }

  /** A successfully posted comment followed by one that falls back. */
  lemma PostThenFallBack(refs: DiffRefs, changes: seq<Change>, a: ReviewComment, b: ReviewComment,
                         post: (nat, PostCall) -> PostOutcome, issued: nat)
    requires Anchorable(changes, a) && !Anchorable(changes, b)
    requires post(issued, CallFor(refs, changes, a)) == PostOk
    ensures var p := Place(refs, changes, [a, b], post, issued);
      p == Placement(InlineResult(1, [b]), [CallFor(refs, changes, a)], None)
  {
    assert [b][1..] == [];
    assert [a, b][1..] == [b];
  }

  /** The rendered note of the `reviewer` package test mentions `main.go:12`. */
  lemma RenderExample()
    ensures Contains(RenderSummary("summary", [ReviewComment("main.go", 12, "test")]), "main.go:12")
  {
    assert ShowInt(12) == "12";
    assert Location(ReviewComment("main.go", 12, "test")) == "main.go:12";
    RenderMentionsLocation("summary", [ReviewComment("main.go", 12, "test")], 0);
  }
}
