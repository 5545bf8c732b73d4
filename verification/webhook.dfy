/** The webhook admission layer: token check, the filter deciding whether a
    GitLab event asks the bot for a review, and the status code returned. */
module Webhook {
  import opened Wrappers
  import opened Text

  /** The fields of a GitLab note event that the server reads. */
  datatype NoteEvent = NoteEvent(objectKind: string, projectId: int, mrIid: int,
                                 note: string, noteableType: string)

  /** The server's configuration: the shared webhook secret (empty when
      none is configured) and the bot's user name. */
  datatype Server = Server(webhookToken: string, botUsername: string)

  /** `authorized`: with no configured secret every request passes;
      otherwise the `X-Gitlab-Token` header (empty when absent) must equal
      the secret exactly. */
  predicate Authorized(s: Server, tokenHeader: string)
  {
    if s.webhookToken == "" then true else tokenHeader == s.webhookToken
  }

  /** `shouldProcess`: a note on a merge request that identifies its
      project and request and mentions `@` followed by the bot's name
      anywhere, so a longer name that starts with it also matches. */
  predicate ShouldProcess(s: Server, e: NoteEvent)
  {
    if e.objectKind != "note" then false
    else if e.noteableType != "MergeRequest" then false
    else if e.projectId == 0 || e.mrIid == 0 then false
    else Contains(e.note, "@" + s.botUsername)
  }

  /** The admission rules, each condition separately. */
  lemma ShouldProcessRules(s: Server, e: NoteEvent)
    ensures e.objectKind != "note" ==> !ShouldProcess(s, e)
    ensures e.noteableType != "MergeRequest" ==> !ShouldProcess(s, e)
    ensures e.projectId == 0 || e.mrIid == 0 ==> !ShouldProcess(s, e)
    ensures ShouldProcess(s, e) <==>
      && e.objectKind == "note" && e.noteableType == "MergeRequest"
      && e.projectId != 0 && e.mrIid != 0
      && exists i :: OccursAt(e.note, "@" + s.botUsername, i)
  {
    ContainsIffOccurs(e.note, "@" + s.botUsername);
  }

  const ExampleServer: Server := Server("token", "review-bot")

  /** A note that passes the first three checks. */
  function MergeRequestNote(note: string): NoteEvent {
    NoteEvent("note", 1, 2, note, "MergeRequest")
  }

  /** The server test's event is processed. */
  lemma ShouldProcessExample()
    ensures ShouldProcess(ExampleServer, MergeRequestNote("please review @review-bot"))
  {
    var m := "@" + ExampleServer.botUsername;
    ContainsInfix("please review ", m, "");
    assert "please review " + m + "" == "please review @review-bot";
  }

  /** The mention may sit anywhere in the note and be followed by
      anything, so a longer name that begins with the bot's name (say
      `@review-bot2` for `review-bot`) also matches. */
  lemma ShouldProcessLongerName(s: Server, e: NoteEvent, pre: string, suffix: string)
    requires e.objectKind == "note" && e.noteableType == "MergeRequest"
    requires e.projectId != 0 && e.mrIid != 0
    requires e.note == pre + ("@" + s.botUsername) + suffix
    ensures ShouldProcess(s, e)
  {
    ContainsInfix(pre, "@" + s.botUsername, suffix);
  }

  // ---------------------------------------------------------------------
  // handleWebhook
  // ---------------------------------------------------------------------

  /** The request body as the handler sees it: unreadable, or read and then
      either decoded into an event or rejected by the JSON decoder. */
  datatype Body = Unreadable | Undecodable | Decoded(event: NoteEvent)

  datatype Request = Request(tokenHeader: string, body: Body)

  /** A synchronous review run requested by the handler. */
  datatype RunCall = RunCall(projectId: int, mrIid: int, note: string)

  /** The status written, the response text, and the review run (if any). */
  datatype Response = Response(status: int, text: string, run: Option<RunCall>)

  const StatusOK: int := 200
  const StatusAccepted: int := 202
  const StatusBadRequest: int := 400
  const StatusUnauthorized: int := 401
  const StatusInternalServerError: int := 500

  /** The token gate: with a secret configured, a request without it is
      answered 401 and no review runs, whatever its body; a request that
      carries it, or any request when no secret is configured, is never
      answered 401. */
  lemma NoRunWithoutToken(s: Server, req: Request, review: RunCall -> Option<string>)
    ensures s.webhookToken != "" && req.tokenHeader != s.webhookToken ==>
      HandleWebhook(s, req, review) == Response(StatusUnauthorized, "", None)
    ensures s.webhookToken == "" || req.tokenHeader == s.webhookToken ==>
      HandleWebhook(s, req, review).status != StatusUnauthorized
  {
  }

  /** `handleWebhook` with the review as the oracle `review` (an error
      message, or none on success). The checks run in a fixed order:
      authorization, body, JSON, the admission filter, then the review. */
  function HandleWebhook(s: Server, req: Request, review: RunCall -> Option<string>): (r: Response)
    ensures r.status == StatusUnauthorized <==> !Authorized(s, req.tokenHeader)
    ensures r.status == StatusBadRequest <==> Authorized(s, req.tokenHeader) && !req.body.Decoded?
    ensures r.status == StatusAccepted <==>
      Authorized(s, req.tokenHeader) && req.body.Decoded? && !ShouldProcess(s, req.body.event)
    ensures r.run.Some? <==>
      Authorized(s, req.tokenHeader) && req.body.Decoded? && ShouldProcess(s, req.body.event)
    ensures r.run.Some? ==> r.run.value == RunCall(req.body.event.projectId, req.body.event.mrIid, req.body.event.note)
    ensures r.status == StatusInternalServerError <==> r.run.Some? && review(r.run.value).Some?
    ensures r.status == StatusOK <==> r.run.Some? && review(r.run.value).None?
    ensures r.status == StatusInternalServerError ==> r.text == "review failed: " + review(r.run.value).value
  {
    if !Authorized(s, req.tokenHeader) then Response(StatusUnauthorized, "", None)
    else if !req.body.Decoded? then Response(StatusBadRequest, "", None)
    else
      var e := req.body.event;
      if !ShouldProcess(s, e) then Response(StatusAccepted, "", None)
      else
        var call := RunCall(e.projectId, e.mrIid, e.note);
        match review(call)
        case Some(err) => Response(StatusInternalServerError, "review failed: " + err, Some(call))
        case None => Response(StatusOK, "", Some(call))
  }
}
