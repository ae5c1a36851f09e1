/**
 The request handler of the GitHub-to-Discord filter worker: it classifies an
 incoming GitHub webhook delivery and either answers it locally (health check,
 misconfigured path, ignored payload) or describes the request it relays to
 the Discord webhook named by the path.

 The handler is JavaScript, and the model keeps JavaScript's semantics where
 they decide the outcome: a JSON leaf reached through optional chaining can be
 missing, JSON `null` or a string; `x?.indexOf(p) !== -1` is true when `x` is
 missing or null; `=== null` holds only for an explicit null; and a missing
 path segment is interpolated as the text "undefined".
 */
module FilterWorker {
  import opened JsStrings

  datatype Option<T> = None | Some(value: T)

  /**
   A leaf of the parsed payload as an optional chain such as
   `json.review?.body` yields it: `Absent` (undefined, also when a containing
   object is missing or null), `Null` (the key holds JSON null) or a string.
   */
  datatype Leaf = Absent | Null | Str(s: string)

  /** The parts of the parsed JSON body that the handler looks at. */
  datatype Payload = Payload(
    senderLogin: Leaf,           // json.sender?.login
    gitRef: Leaf,                // json.ref
    pullRequestUserLogin: Leaf,  // json.pull_request?.user?.login
    reviewState: Leaf,           // json.review?.state
    reviewBody: Leaf,            // json.review?.body
    repositoryName: Leaf,        // json.repository?.name
    repositoryOwnerLogin: Leaf   // json.repository?.owner?.login
  )

  /** An incoming request; `githubEvent` is the `X-GitHub-Event` header, if sent. */
  datatype Request = Request(
    httpMethod: string,
    githubEvent: Option<string>,
    payload: Payload,
    pathname: string,
    body: string
  )

  /** The seven classification flags the handler computes. */
  datatype Flags = Flags(
    isCoveralls: bool,
    isGitHubBot: bool,
    isSentry: bool,
    isDependabotBranchDelete: bool,
    isBotPRApprove: bool,
    isEmptyReview: bool,
    isBlackNonMainPush: bool
  )

  /**
   What the handler does with a request: answer the health check, reject a
   path without webhook components, acknowledge an ignored payload, or relay
   the request with the given URL, method and body.
   */
  datatype Outcome =
    | HealthCheck
    | BadRequest400
    | Ignored203
    | Forward(url: string, httpMethod: string, body: string)

  const SHIPIT := ":shipit:"
  const SHIPIT_EMOTE := "<:shipit:826492371813400637>"

  const HEALTH_CHECK_TEXT := "Worker lives! Ignoring this request because it is not a POST."
  const BAD_PATH_TEXT := "Make sure to specify webhook components like /:id/:token"
  const IGNORED_TEXT := "Ignored by github-filter-worker"

  /** `leaf?.indexOf(pat)`: undefined (`None`) unless the leaf is a string. */
  function OptionalIndexOf(leaf: Leaf, pat: string): (r: Option<int>)
    ensures r == None <==> !leaf.Str?
    ensures leaf.Str? ==> (r == Some(-1) <==> !Contains(leaf.s, pat))
  {
    match leaf
    case Str(s) => IndexOfSpec(s, pat); Some(IndexOf(s, pat))
    case _ => None
  }

  /**
   `leaf?.indexOf(pat) !== -1`: meant as "contains", but `undefined !== -1`
   makes it true for a missing or null leaf as well.
   */
  function IndexOfNotMinusOne(leaf: Leaf, pat: string): (b: bool)
    ensures b <==> (leaf.Str? ==> Contains(leaf.s, pat))
  {
    OptionalIndexOf(leaf, pat) != Some(-1)
  }

  /** `headers.get('X-GitHub-Event') === name`. */
  predicate EventIs(event: Option<string>, name: string) {
    event == Some(name)
  }

  /** The flags of a payload delivered with the given event header. */
  function Classify(event: Option<string>, p: Payload): (f: Flags)
    ensures f.isCoveralls <==> (p.senderLogin.Str? ==> Contains(p.senderLogin.s, "coveralls"))
    ensures f.isGitHubBot <==> (p.senderLogin.Str? ==> Contains(p.senderLogin.s, "[bot]"))
    ensures f.isSentry <==> (p.senderLogin.Str? ==> Contains(p.senderLogin.s, "sentry-io"))
    ensures f.isDependabotBranchDelete <==>
      (p.gitRef.Str? ==> Contains(p.gitRef.s, "dependabot")) && event == Some("delete")
    ensures f.isBotPRApprove <==>
      (p.pullRequestUserLogin.Str? ==> Contains(p.pullRequestUserLogin.s, "[bot]"))
      && event == Some("pull_request_review")
    ensures f.isEmptyReview <==>
      p.reviewState == Str("commented") && event == Some("pull_request_review") && p.reviewBody == Null
    ensures f.isBlackNonMainPush <==>
      p.gitRef != Str("refs/heads/main") && p.repositoryName == Str("black")
      && p.repositoryOwnerLogin == Str("psf") && event == Some("push")
  {
    Flags(
      isCoveralls := IndexOfNotMinusOne(p.senderLogin, "coveralls"),
      isGitHubBot := IndexOfNotMinusOne(p.senderLogin, "[bot]"),
      isSentry := IndexOfNotMinusOne(p.senderLogin, "sentry-io"),
      isDependabotBranchDelete :=
        IndexOfNotMinusOne(p.gitRef, "dependabot") && EventIs(event, "delete"),
      isBotPRApprove :=
        IndexOfNotMinusOne(p.pullRequestUserLogin, "[bot]") && EventIs(event, "pull_request_review"),
      // `===` against a string and `=== null` are exact: only `Str` and `Null` match.
      isEmptyReview :=
        p.reviewState == Str("commented") && EventIs(event, "pull_request_review") && p.reviewBody == Null,
      // `==` between a leaf and a string literal is true only for that string.
      isBlackNonMainPush :=
        p.gitRef != Str("refs/heads/main") && p.repositoryName == Str("black")
        && p.repositoryOwnerLogin == Str("psf") && EventIs(event, "push")
    )
  }

  predicate BotPayload(f: Flags) {
    f.isCoveralls || (f.isGitHubBot && !f.isSentry) || f.isDependabotBranchDelete || f.isBotPRApprove
  }

  predicate NoisyUserActions(f: Flags) {
    f.isEmptyReview
  }

  predicate ShouldIgnore(f: Flags) {
    BotPayload(f) || NoisyUserActions(f) || f.isBlackNonMainPush
  }

  /** A destructured array element: the text of `fields[k]`, or "undefined" past the end. */
  function FieldOrUndefined(fields: seq<string>, k: nat): string {
    if k < |fields| then fields[k] else "undefined"
  }

  /** The Discord webhook URL for an id and a token. */
  function WebhookUrl(id: string, token: string): string {
    "https://discord.com/api/webhooks/" + id + "/" + token + "/github?wait=1"
  }

  /** The URL built from fields 1 and 2 of `pathname.split('/')`. */
  function ForwardUrl(pathname: string): string {
    var fields := SplitOn(pathname, "/");
    WebhookUrl(FieldOrUndefined(fields, 1), FieldOrUndefined(fields, 2))
  }

  /** The relayed body: `body.replaceAll(':shipit:', SHIPIT_EMOTE)`. */
  function ForwardBody(body: string): string {
    ReplaceAll(body, SHIPIT, SHIPIT_EMOTE)
  }

  /** The handler's decision for one request. */
  function HandleRequest(req: Request): Outcome {
    if req.httpMethod != "POST" then HealthCheck
    else
      var flags := Classify(req.githubEvent, req.payload);
      if !ShouldIgnore(flags) then
        if req.pathname == "/" then BadRequest400
        else Forward(ForwardUrl(req.pathname), req.httpMethod, ForwardBody(req.body))
      else Ignored203
  }

  /**
   The status and text of the responses the handler produces itself. A relayed
   request gets Discord's response instead, so it has none here.
   */
  function LocalResponse(o: Outcome): (r: Option<(int, string)>)
    ensures r.None? <==> o.Forward?
  {
    match o
    case HealthCheck => Some((200, HEALTH_CHECK_TEXT))
    case BadRequest400 => Some((400, BAD_PATH_TEXT))
    case Ignored203 => Some((203, IGNORED_TEXT))
    case Forward(_, _, _) => None
  }

  // ---------------------------------------------------------------------------
  // Routing

  /** Only a non-POST gets the health-check reply, whatever else the request holds. */
  lemma HealthCheckExactlyForNonPost(req: Request)
    ensures HandleRequest(req) == HealthCheck <==> req.httpMethod != "POST"
  {
  }

  /** Classification comes first: an ignored payload is acknowledged whatever the path. */
  lemma IgnoredExactly(req: Request)
    ensures HandleRequest(req) == Ignored203 <==>
      req.httpMethod == "POST" && ShouldIgnore(Classify(req.githubEvent, req.payload))
  {
  }

  /** The path is checked only for payloads that are not ignored. */
  lemma BadRequestExactly(req: Request)
    ensures HandleRequest(req) == BadRequest400 <==>
      req.httpMethod == "POST" && !ShouldIgnore(Classify(req.githubEvent, req.payload)) && req.pathname == "/"
  {
  }

  /** A relayed request keeps the method and carries the URL and body built from the request. */
  lemma ForwardExactly(req: Request)
    ensures HandleRequest(req).Forward? <==>
      req.httpMethod == "POST" && !ShouldIgnore(Classify(req.githubEvent, req.payload)) && req.pathname != "/"
    ensures HandleRequest(req).Forward? ==>
      HandleRequest(req) == Forward(ForwardUrl(req.pathname), "POST", ForwardBody(req.body))
  {
  }

  // ---------------------------------------------------------------------------
  // Classification

  /** A coveralls sender, or a payload without a string sender login, is ignored. */
  lemma CoverallsIgnored(req: Request)
    requires req.httpMethod == "POST"
    requires req.payload.senderLogin.Str? ==> Contains(req.payload.senderLogin.s, "coveralls")
    ensures HandleRequest(req) == Ignored203
  {
  }

  /** A payload in which every leaf is missing is ignored, because of the test on the login. */
  lemma EmptyPayloadIgnored(httpMethod: string, event: Option<string>, pathname: string, body: string)
    requires httpMethod == "POST"
    ensures HandleRequest(Request(httpMethod, event,
      Payload(Absent, Absent, Absent, Absent, Absent, Absent, Absent), pathname, body)) == Ignored203
  {
  }

  /**
   The `[bot]`-but-not-Sentry term of `botPayload` holds exactly for a string
   login containing `[bot]` and not `sentry-io`; a missing login never sets it.
   */
  lemma GitHubBotTerm(event: Option<string>, p: Payload)
    ensures var f := Classify(event, p);
      (f.isGitHubBot && !f.isSentry) <==>
      p.senderLogin.Str? && Contains(p.senderLogin.s, "[bot]") && !Contains(p.senderLogin.s, "sentry-io")
  {
  }

  /** For a Sentry bot login, `botPayload` comes only from the other three terms. */
  lemma SentryBotNotBotPayload(event: Option<string>, p: Payload)
    requires p.senderLogin.Str?
    requires Contains(p.senderLogin.s, "[bot]") && Contains(p.senderLogin.s, "sentry-io")
    ensures var f := Classify(event, p);
      BotPayload(f) <==> f.isCoveralls || f.isDependabotBranchDelete || f.isBotPRApprove
  {
  }

  /** An empty-string or absent review body never makes an empty review. */
  lemma EmptyReviewNeedsNull(event: Option<string>, p: Payload)
    ensures p.reviewBody == Str("") || p.reviewBody == Absent ==> !Classify(event, p).isEmptyReview
  {
  }

  /** On a push to psf/black every ref but `refs/heads/main`, a missing one included, is ignored. */
  lemma BlackPush(req: Request)
    requires req.githubEvent == Some("push")
    requires req.payload.repositoryName == Str("black") && req.payload.repositoryOwnerLogin == Str("psf")
    ensures Classify(req.githubEvent, req.payload).isBlackNonMainPush <==>
      req.payload.gitRef != Str("refs/heads/main")
    ensures req.httpMethod == "POST" && req.payload.gitRef != Str("refs/heads/main") ==>
      HandleRequest(req) == Ignored203
  {
  }

  // ---------------------------------------------------------------------------
  // The forward URL

  /** `/{id}/{token}` with slash-free components relays to the webhook of that id and token. */
  lemma ForwardUrlOfIdAndToken(id: string, token: string)
    requires !Contains(id, "/") && !Contains(token, "/")
    ensures ForwardUrl("/" + id + "/" + token) == WebhookUrl(id, token)
  {
    SplitOnSeparatorFree("", "/", id + "/" + token);
    assert "" + "/" + (id + "/" + token) == "/" + id + "/" + token;
    SplitOnSeparatorFree(id, "/", token);
    IndexOfSpec(token, "/");
  }

  /** Segments after the token are dropped. */
  lemma ForwardUrlDropsExtraSegments(id: string, token: string, rest: string)
    requires !Contains(id, "/") && !Contains(token, "/")
    ensures ForwardUrl("/" + id + "/" + token + "/" + rest) == WebhookUrl(id, token)
  {
    var tail := token + "/" + rest;
    var afterSlash := id + "/" + tail;
    var full := "/" + id + "/" + token + "/" + rest;
    assert full == "" + "/" + afterSlash;
    SplitOnSeparatorFree(token, "/", rest);
    SplitOnSeparatorFree(id, "/", tail);
    SplitOnSeparatorFree("", "/", afterSlash);
    var fields := SplitOn(full, "/");
    assert fields == [""] + ([id] + ([token] + SplitOn(rest, "/")));
    assert fields[1] == id && fields[2] == token;
  }

  /** Without a token segment the URL holds the text "undefined" in its place. */
  lemma ForwardUrlMissingToken(id: string)
    requires !Contains(id, "/")
    ensures ForwardUrl("/" + id) == WebhookUrl(id, "undefined")
  {
    SplitOnSeparatorFree("", "/", id);
    assert "" + "/" + id == "/" + id;
    IndexOfSpec(id, "/");
  }

  // ---------------------------------------------------------------------------
  // The forward body

  /** A body without `:shipit:` is relayed unchanged. */
  lemma ForwardBodyUnchanged(body: string)
    requires !Contains(body, SHIPIT)
    ensures ForwardBody(body) == body
  {
    ReplaceAllUnchanged(body, SHIPIT, SHIPIT_EMOTE);
  }

  /** The text between occurrences is kept; each occurrence becomes the emote. */
  lemma ForwardBodyPieces(body: string)
    ensures ForwardBody(body) == Join(SplitOn(body, SHIPIT), SHIPIT_EMOTE)
    ensures Join(SplitOn(body, SHIPIT), SHIPIT) == body
  {
    ReplaceAllIsSplitJoin(body, SHIPIT, SHIPIT_EMOTE);
    JoinSplitOn(body, SHIPIT);
  }

  /** Each replacement lengthens the body by `|SHIPIT_EMOTE| - |SHIPIT|`, which is 20. */
  lemma ForwardBodyLength(body: string)
    ensures |ForwardBody(body)| == |body| + Occurrences(body, SHIPIT) * (|SHIPIT_EMOTE| - |SHIPIT|)
    ensures |SHIPIT_EMOTE| - |SHIPIT| == 20
  {
    ReplaceAllLength(body, SHIPIT, SHIPIT_EMOTE);
  }

  /**
   The emote itself contains `:shipit:`, so substituting twice differs from
   substituting once exactly when the body contains `:shipit:`.
   */
  lemma ForwardBodyIdempotentIff(body: string)
    ensures ForwardBody(ForwardBody(body)) == ForwardBody(body) <==> !Contains(body, SHIPIT)
  {
    if Contains(body, SHIPIT) {
      var once := ForwardBody(body);
      OccurrencesPositive(body, SHIPIT);
      var parts := SplitOn(body, SHIPIT);
      ReplaceAllIsSplitJoin(body, SHIPIT, SHIPIT_EMOTE);
      JoinContainsSeparator(parts, SHIPIT_EMOTE);
      EmoteContainsShipit();
      var at := |parts[0]|;
      assert MatchAt(once, SHIPIT, at + 1) by {
        assert once[at..at + |SHIPIT_EMOTE|] == SHIPIT_EMOTE;
        assert once[at + 1..at + 1 + |SHIPIT|] == SHIPIT_EMOTE[1..1 + |SHIPIT|];
      }
      OccurrencesPositive(once, SHIPIT);
      ForwardBodyLength(once);
    } else {
      ForwardBodyUnchanged(body);
    }
  }

  /** `:shipit:` occurs in the emote right after its first character. */
  lemma EmoteContainsShipit()
    ensures MatchAt(SHIPIT_EMOTE, SHIPIT, 1)
  {
    assert SHIPIT_EMOTE == "<" + SHIPIT + "826492371813400637>";
  }
}
