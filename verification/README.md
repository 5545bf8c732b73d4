# GitLab merge-request review bot — verified model of the core

This project is a Dafny model of the decision logic at the core of a
GitLab review bot. The bot takes a webhook note that mentions it, asks a
language model to review the merge request, and posts the result back.
The model covers:

- **Diff anchoring** (`DiffLines`, `diff.dfy`): the unified-diff walk that
  decides whether a comment on line *n* of a file's new version can be
  attached inline. This covers hunk-header parsing (`@@ -a,b +c,d @@`), the
  line classes (added, removed, context, header), and the new/old counters.
- **Comment placement and summary** (`Placement`, `placement.dfy`): finding
  the change a comment names, posting anchorable comments one by one
  through a posting oracle, collecting the rest as fallback, stopping at
  the first failed post, and rendering the summary note with its
  "Additional Suggestions" list.
- **The job queue** (`JobQueue`, `queue.dfy`): a bounded FIFO that never
  blocks on admission and returns `ErrQueueFull` when full. It also covers
  the clamps on buffer size, timeout and worker count, and the in-flight
  counter kept around each job's run.
- **The webhook handler** (`Webhook`, `webhook.dfy`): token
  authorization, the filter that decides which note events ask for a
  review, and the order in which the status codes 401, 400, 202, 500 and
  200 are chosen.
- **Configuration loading** (`Config`, `config.dfy`): the defaults, the
  read and decode failures, and the seven ordered required/positive checks.
- `Text` (`text.dfy`) models the Go string helpers these use:
  `strings.Split`, `strings.Contains`, `strings.TrimPrefix`,
  `fmt.Sprintf("%d")`, and the leading-integer behaviour of
  `fmt.Sscanf("%d")`.
- `Wrappers` and `Durations` hold `Option` and the nanosecond constants.

External effects are parameters. The GitLab "create discussion" call is
the oracle `post`. A review run is the oracle `review` in the handler and
`run` in a worker. `post` and `run` are also given the number of calls
made before, so identical requests may get different answers, as network
calls can. The configuration file arrives already read and decoded
as a `Source`. The webhook request arrives with its token header and its
body already read and decoded.

Two behaviours of the code are worth knowing:

- `DiffLines.ExampleDiffResolves`: a diff that ends with a newline splits
  into a final empty segment. The walk counts that segment as a context
  line, so one line past the end of the hunk's new side also resolves. In
  the three-line example of `reviewer_test.go`, line 4 is accepted.
- The webhook handler runs the review synchronously and does not use the
  queue. The queue is modelled on its own, as in the code.

## Model

| member | source | states |
|---|---|---|
| Text.Split | internal/reviewer/reviewer.go:164 | `strings.Split` yields at least one part, no part contains the separator, and joining the parts with it gives back the input |
| Text.SplitJoin | internal/reviewer/reviewer.go:164 | splitting the join of separator-free parts returns exactly those parts |
| Text.SplitTrailingSep | internal/reviewer/reviewer.go:164 | a trailing separator adds one final empty part |
| Text.TrimPrefix | internal/reviewer/reviewer.go:202-203 | trimming a present prefix leaves the remainder; an absent prefix leaves the string unchanged |
| Text.ContainsIffOccurs | internal/server/server.go:102 | the substring test holds exactly when the needle occurs at some index |
| Text.ScanShowInt | internal/reviewer/reviewer.go:214-216 | scanning a decimal integer followed by a non-digit recovers that integer, for negative values too |
| Text.ScanIntNoNumber | internal/reviewer/reviewer.go:214-216 | when no digit follows the optional sign, the scan fails and the value stays 0 |
| DiffLines.ParseHunkHeader | internal/reviewer/reviewer.go:196-207 | a header with fewer than three space-separated fields yields (0, 0) |
| DiffLines.RangeStartRoundTrip | internal/reviewer/reviewer.go:209-217 | the start of a rendered range, `start,count` or `start` alone, is read back as `start` |
| DiffLines.NonNumericRangeStart | internal/reviewer/reviewer.go:209-217 | for every range whose text before the first comma has no number after an optional sign, the start reads as 0, with or without a count, because the scan error is ignored |
| DiffLines.ParseRenderHunk | internal/reviewer/reviewer.go:196-207 | parsing any rendered header `@@ -o[,a] +n[,b] @@ …`, with either count present or left out, returns (new start, old start) = (n, o) |
| DiffLines.ParseHunkHeaderExample | internal/reviewer/reviewer_test.go:18-23 | `@@ -10,7 +20,9 @@` parses to new 20, old 10 |
| DiffLines.OmittedCountExample | internal/reviewer/reviewer.go:196-217 | `@@ -3 +7 @@`, with both counts left out, parses to new 7, old 3 |
| DiffLines.ShortHeaderExample | internal/reviewer/reviewer.go:198-201 | `@@` and `@@ -1,2` have too few fields and parse to (0, 0) |
| DiffLines.MalformedNewStart | internal/reviewer/reviewer.go:202-206 | for any old range and any rest of line, a header whose new range (after trimming one `+`) has no number before its first comma gets new start 0, with or without a count |
| DiffLines.ZeroHeaderKeepsCounters | internal/reviewer/reviewer.go:168-174 | a header whose new start parses as 0 leaves both counters as they were |
| DiffLines.StepLine | internal/reviewer/reviewer.go:168-191 | per line class: headers reset the counters; added and context lines hit when the new counter equals the target, else advance it; removed lines advance only the old counter |
| DiffLines.FileHeadersAreContext | internal/reviewer/reviewer.go:176-191 | every line starting with `+++` or `---` counts as a context line, not as added or removed |
| DiffLines.OldLineIrrelevant | internal/reviewer/reviewer.go:163-194 | the old-side counter never affects the answer |
| DiffLines.ScanIffAnchor | internal/reviewer/reviewer.go:163-194 | the walk answers true exactly when the target is among the new-side line numbers the diff assigns (a declarative reference list) |
| DiffLines.HunkBodyAnchors | internal/reviewer/reviewer.go:176-191 | within a hunk body, the anchorable numbers are the contiguous range starting at the hunk's new start, one per added or context line |
| DiffLines.SingleHunkResolves | internal/reviewer/reviewer.go:163-194 | for a one-hunk diff with nonzero new start, a target resolves exactly when it lies in [start, start + added-or-context lines) |
| DiffLines.DiffHasNewLine | internal/reviewer/reviewer.go:163-194 | the loop computes the walk's answer, i.e. whether the target is an assigned new-side line number |
| DiffLines.ExampleDiffResolves | internal/reviewer/reviewer_test.go:8-16 | on the test's three-line diff, exactly lines 1 to 4 resolve: 2 is accepted, 5 refused, and 4 is accepted because of the trailing empty segment |
| Placement.FindChange | internal/reviewer/reviewer.go:154-161 | a returned change is one of the changes and has the file as its new or old path |
| Placement.FindChangeIsFirst | internal/reviewer/reviewer.go:154-161 | no result exactly when no change touches the file; otherwise the result is the first change that does |
| Placement.Place | internal/reviewer/reviewer.go:102-130 | the account of the run: never more comments taken than given and all of them without an error; an error is the failure of the last post issued, wrapped as `post inline discussion: …`; the posts counted are all calls but a failed last one, and each was accepted by the platform under its own call number; without an error every comment is either posted or in the fallback |
| Placement.IdenticalPostsMayDiffer | internal/reviewer/reviewer.go:124-127 | when the second of two identical posts fails, the first stays counted and the error reports the second |
| Placement.PlaceFollowsReference | internal/reviewer/reviewer.go:102-130 | the fallback and the calls made equal the reference partition of the comments handled so far, in order; on error the stopping comment was anchorable |
| Placement.UnanchoredMembers | internal/reviewer/reviewer.go:105-113 | a comment is in the fallback exactly when it is one of the comments and has no matching change or resolving line |
| Placement.ReferencePartition | internal/reviewer/reviewer.go:102-130 | every comment goes to exactly one side, so the fallback and the posts together number the comments |
| Placement.PostThenFallBack | internal/reviewer/reviewer.go:104-128 | a comment posted successfully followed by an unanchorable one gives one post, that one comment in the fallback, and no error |
| Placement.PlaceExample | internal/reviewer/reviewer.go:102-130 | with a succeeding oracle, a comment on a diff line is posted with the change's new path and line, and one on an unknown file falls back |
| Placement.RenderSummary | internal/reviewer/reviewer.go:132-152 | the note starts with the summary header and text; the suggestions section appears exactly when there is a fallback, and then holds one bullet per comment in order |
| Placement.RenderMentionsEach | internal/reviewer/reviewer.go:140-150 | every fallback comment's bullet appears in the note |
| Placement.RenderMentionsLocation | internal/reviewer/reviewer.go:141-147 | every fallback comment's `file:line` location appears in the note |
| Placement.RenderExample | internal/reviewer/reviewer_test.go:25-31 | the test's note contains `main.go:12` |
| JobQueue.NewQueue | internal/reviewer/queue.go:30-41 | a new queue is empty with nothing in flight; a non-positive buffer becomes 1 and a non-positive timeout becomes five minutes; positive values are kept |
| JobQueue.Enqueue | internal/reviewer/queue.go:43-52 | admission succeeds exactly when there is room and appends the job at the back; otherwise `ErrQueueFull` and the queue is unchanged |
| JobQueue.Dequeue | internal/reviewer/queue.go:71 | a receive yields the oldest job and removes exactly it; nothing when empty |
| JobQueue.Stats | internal/reviewer/queue.go:58-63 | the depth is the number of buffered jobs, bounded by the capacity; the in-flight figure is the queue's own counter |
| JobQueue.WorkerCount | internal/reviewer/queue.go:65-68 | at least one worker; a positive concurrency is used as given |
| JobQueue.WorkerStep | internal/reviewer/queue.go:71-85 | a worker runs the oldest job under the queue's timeout, with the in-flight count raised by one during the run; afterwards the queue differs only by that job's removal, so the in-flight count is restored whatever the outcome and capacity and timeout are unchanged |
| JobQueue.Drain | internal/reviewer/queue.go:71-85 | one worker runs every buffered job exactly once in arrival order, failures included, the `i`-th run being the oracle's `i`-th call; afterwards the buffer is empty and nothing else about the queue has changed |
| JobQueue.EnqueueAllFits | internal/reviewer/queue.go:43-52 | while there is room every enqueue succeeds and the jobs line up behind those buffered |
| JobQueue.Backpressure | internal/reviewer/queue.go:43-52 | at capacity an enqueue is refused without effect; after one receive exactly one more fits |
| JobQueue.ReceivedInOrder | internal/reviewer/queue.go:71 | repeated receives return the buffered jobs oldest first |
| JobQueue.FifoOrder | internal/reviewer/queue.go:43-52 | jobs sent into an empty queue with room are received in the order sent |
| JobQueue.EnqueueDequeueExample | internal/reviewer/queue_test.go:8-24 | one job through a queue of capacity one comes out unchanged |
| Webhook.NoRunWithoutToken | internal/server/server.go:85-90 | with a secret configured, a request whose token header differs is answered 401 with no review run, whatever its body; with no secret, or with the matching token, the answer is never 401 |
| Webhook.ShouldProcessRules | internal/server/server.go:92-103 | a wrong object kind, a wrong noteable type, or a zero project or request id each refuse; otherwise processing happens exactly when `@` + bot name occurs in the note |
| Webhook.ShouldProcessExample | internal/server/server_test.go:5-24 | the test's merge-request note mentioning `@review-bot` is processed |
| Webhook.ShouldProcessLongerName | internal/server/server.go:102 | for any server and any merge-request note event, a mention of the bot followed by any text, so also a longer name that starts with the bot's name, is processed |
| Webhook.HandleWebhook | internal/server/server.go:51-83 | 401 exactly when unauthorized; 400 exactly when authorized but the body is unreadable or not JSON; 202 exactly when decoded but filtered out; otherwise the review runs with the event's ids and note, and the status is 500 (with `review failed: …`) or 200 by its outcome |
| Config.Load | internal/config/config.go:24-65 | read and decode failures come first; every error comes with the zero config; success exactly when no check fails, and then the file's values over the defaults; otherwise the first failing check in order |
| Config.LoadSucceedsIff | internal/config/config.go:42-64 | loading succeeds exactly when the five required strings are set and the concurrency and job timeout are positive |
| Config.ValidationIgnoresOptionalKeys | internal/config/config.go:42-62 | the webhook token, listen address, model and HTTP timeout never affect whether or how loading fails |
| Config.RequiredOnlyLoads | internal/config/config_test.go:9-36 | the five required strings alone load, with `:8080`, `internal-reviewer`, 30 s, 2 workers and 5 min filled in |
| Config.BaseUrlOnlyFails | internal/config/config_test.go:38-48 | a file with only the GitLab URL fails on the GitLab token, the next check in order |

## Left out

- `Reviewer.Run`, `buildPrompt`, the GitLab and LLM HTTP clients, and `main.go`: these are network calls and orchestration with no decision logic of their own. Placement receives the changes, comments and diff references as inputs, and posting is an oracle.
- Goroutines, the atomic in-flight counter and `context.WithTimeout`: workers are modelled one step at a time. Running N jobs at once on N workers is not modelled, because that depends on the Go scheduler and channel.
- Placement.PostCall: the post's project id and merge-request iid (`mr.ProjectID`, `mr.IID`) are left out of the call record, because both are constant within one run.
- `Queue.Jobs()`: a channel receive is modelled as `JobQueue.Dequeue`, which yields nothing where the Go receive would block.
- Logging in every function and the `/healthz` route: they have no effect on results.
- Error texts of `Config.Load`: errors are an enumeration in check order rather than the formatted messages. The wrapped read and decode errors of the YAML library are `ReadFailed` and `DecodeFailed`.
- The YAML library's key lookup, environment handling and duration-string parsing (`"30s"`, `"5m"`): the file arrives already decoded as a `Source`, and the default durations are given in nanoseconds.
- HTTP header canonicalisation and reading the request body: the token header arrives as a string (empty when absent), and the body arrives as `Body`.
- The handler's two-minute request context: it only bounds the oracle.
- Text.ScanInt: models `fmt.Sscanf("%d")` as an optional sign followed by leading decimal digits, else 0. It does not model whitespace skipping or the 64-bit overflow error.
- DiffLines.ParseRangeStart: uses the first part of a full split on `,`, which equals the first part of the source's two-way split. The `len(chunk) == 0` branch cannot happen and is not modelled.
- Text.Split and Text.Contains work on `seq<char>`, not on the bytes of a Go string. The model has no byte-length logic, so this does not change any answer.
