# github-filter-worker: the request filter, modelled in Dafny

The worker is a Cloudflare Worker. It sits between GitHub webhooks and a
Discord incoming webhook. For each request, `handleRequest` does one of four
things:

- It answers a non-POST with a fixed "Worker lives!" text.
- It classifies a POSTed payload with seven flags and acknowledges a payload
  it ignores with status 203.
- It rejects the bare path `/` with status 400.
- Otherwise it relays the request to
  `https://discord.com/api/webhooks/{id}/{token}/github?wait=1`, keeping the
  method, with every `:shipit:` in the body replaced by a Discord emote.

The model is pure, like the handler: straight-line bindings of boolean
expressions over optional fields, plus two string operations.

- `JsStrings.dfy` models the JavaScript string built-ins the handler calls:
  `indexOf`, `split` with a non-empty separator, and `replaceAll` with a
  non-empty pattern. `Join`, the inverse of `split`, is not called by the
  handler; it is defined here to state their properties. Each operation is
  defined recursively on strings of characters, with the replacement inserted
  literally (see "## Left out" for where this departs from JavaScript). It
  is tied to an independent characterisation:
  - `IndexOf` gives the first match, or -1 exactly when there is none.
  - `Join` undoes `SplitOn` for any separator. `SplitOn` undoes `Join` of
    separator-free fields for a one-character separator.
  - `ReplaceAll` equals splitting on the pattern and joining with the
    replacement.
- `FilterWorker.dfy` models the request (`Request`, `Payload`, `Leaf`), the
  flags (`Classify`), the aggregation (`BotPayload`, `NoisyUserActions`,
  `ShouldIgnore`) and the decision (`HandleRequest` giving an `Outcome`).

JavaScript semantics are kept where they change the result:

- Each JSON leaf is `Absent` (undefined), `Null` or `Str`.
- `x?.indexOf(p) !== -1` is `undefined !== -1`, which is true, when `x` is
  missing or null (`IndexOfNotMinusOne`).
- `review.body === null` holds only for an explicit JSON null.
- A missing path segment is interpolated as the text `undefined`.

## Where the code differs from its stated intent (the model follows the code)

- The comment at line 39 of `github-filter-worker/src/index.ts` says the
  login test checks whether the username is like `joe[bot]` or
  `coveralls`. The test at line 40 is `login?.indexOf(...) !== -1`, and on a
  missing login that is `undefined !== -1`, which is true. So a payload
  without a string `sender.login` is ignored as "coveralls"
  (`CoverallsIgnored`). A payload with every field missing is ignored too,
  not forwarded (`EmptyPayloadIgnored`). The same holds for `ref` (line 44)
  and `pull_request.user.login` (line 47).
- An observation about the code, not a stated intent: line 53 tests
  `review?.body === null`, so only an explicit JSON null counts as an empty
  review. An absent body or an empty-string body does not
  (`EmptyReviewNeedsNull`).

## Model

| member | source | states |
|---|---|---|
| JsStrings.IndexOf | github-filter-worker/src/index.ts:40-47 | `s.indexOf(pat)` is -1 or an index at which `pat` fits inside `s`. |
| JsStrings.IndexOfSpec | github-filter-worker/src/index.ts:40-47 | `s.indexOf(pat)` is -1 exactly when `pat` does not occur in `s`. Otherwise `pat` occurs at that index, and no earlier index holds a match. |
| JsStrings.SplitOn | github-filter-worker/src/index.ts:86 | `s.split(sep)` has at least one field. |
| JsStrings.SplitOnPiecesFree | github-filter-worker/src/index.ts:86 | No field of `s.split(sep)` contains the separator. |
| JsStrings.JoinSplitOn | github-filter-worker/src/index.ts:86 | Joining the fields of a split with the separator gives back the original string. |
| JsStrings.SplitOnJoin | github-filter-worker/src/index.ts:86 | For a one-character separator, splitting the join of separator-free fields gives back those fields. So the split of a path is its unique decomposition. |
| JsStrings.SplitOnSeparatorFree | github-filter-worker/src/index.ts:86 | Splitting `f + sep + rest`, where the one-character `sep` does not occur in `f`, gives `f` followed by the fields of `rest`. |
| JsStrings.ReplaceAllUnchanged | github-filter-worker/src/index.ts:92 | `replaceAll` leaves a string without an occurrence of the pattern unchanged. |
| JsStrings.ReplaceAllIsSplitJoin | github-filter-worker/src/index.ts:92 | The left-to-right, non-overlapping replacement equals `s.split(pat).join(rep)`. The text between occurrences is kept verbatim. |
| JsStrings.ReplaceAllLength | github-filter-worker/src/index.ts:92 | The result is longer than the input by the length of `rep` minus the length of `pat` for each occurrence the scan finds. |
| JsStrings.OccurrencesPositive | github-filter-worker/src/index.ts:92 | The scan finds at least one occurrence exactly when the pattern is a substring. |
| FilterWorker.OptionalIndexOf | github-filter-worker/src/index.ts:40 | `leaf?.indexOf(pat)` is undefined exactly when the leaf is not a string. For a string it is -1 exactly when `pat` does not occur. |
| FilterWorker.IndexOfNotMinusOne | github-filter-worker/src/index.ts:40-47 | `leaf?.indexOf(pat) !== -1` holds exactly when the leaf is not a string, or is a string containing `pat`. |
| FilterWorker.Classify | github-filter-worker/src/index.ts:40-59 | Each of the seven flags is characterised by substring or exact tests on the leaves and the event header. The substring test inside a flag holds on a missing or null leaf. `isEmptyReview` needs an explicit null body. `isBlackNonMainPush` holds for every ref other than the string `refs/heads/main`. |
| FilterWorker.HealthCheckExactlyForNonPost | github-filter-worker/src/index.ts:25-29 | The outcome is the health check exactly when the method is not `POST`, whatever the header, payload, path and body. |
| FilterWorker.IgnoredExactly | github-filter-worker/src/index.ts:69-102 | A POST is acknowledged as ignored (203) exactly when `shouldIgnore` holds, whatever its path, the bare `/` included. |
| FilterWorker.BadRequestExactly | github-filter-worker/src/index.ts:74-84 | The outcome is 400 exactly for a POST that is not ignored and whose pathname is `/`. |
| FilterWorker.ForwardExactly | github-filter-worker/src/index.ts:74-98 | A request is relayed exactly when it is a POST, not ignored, with a pathname other than `/`. The relayed request has the URL from the path, the method `POST` and the substituted body. |
| FilterWorker.CoverallsIgnored | github-filter-worker/src/index.ts:40-102 | A POST whose sender login contains `coveralls`, or is missing or null, is ignored, whatever the other fields are. |
| FilterWorker.EmptyPayloadIgnored | github-filter-worker/src/index.ts:40-102 | A POST whose payload has every leaf missing is ignored. |
| FilterWorker.GitHubBotTerm | github-filter-worker/src/index.ts:40-64 | `isGitHubBot && !isSentry` holds exactly for a string login containing `[bot]` and not `sentry-io`. A missing login never sets it. |
| FilterWorker.SentryBotNotBotPayload | github-filter-worker/src/index.ts:40-66 | For a login containing both `[bot]` and `sentry-io`, `botPayload` holds exactly when `isCoveralls`, `isDependabotBranchDelete` or `isBotPRApprove` does. |
| FilterWorker.EmptyReviewNeedsNull | github-filter-worker/src/index.ts:50-53 | An empty-string or absent review body never sets `isEmptyReview`. The exact condition is part of `Classify`'s contract. |
| FilterWorker.BlackPush | github-filter-worker/src/index.ts:55-69 | For a push to psf/black, `isBlackNonMainPush` is false only for the ref `refs/heads/main`. Any other ref, a missing one included, gets the POST ignored. |
| FilterWorker.ForwardUrlOfIdAndToken | github-filter-worker/src/index.ts:86-89 | The path `/{id}/{token}` with slash-free components relays to the Discord webhook URL of that id and token. |
| FilterWorker.ForwardUrlDropsExtraSegments | github-filter-worker/src/index.ts:86-89 | Segments after the third field of the split are dropped from the URL. |
| FilterWorker.ForwardUrlMissingToken | github-filter-worker/src/index.ts:86-89 | A path `/{id}` with no token segment puts the text `undefined` in the token's place. |
| FilterWorker.ForwardBodyUnchanged | github-filter-worker/src/index.ts:92 | A body without `:shipit:` is relayed unchanged. |
| FilterWorker.ForwardBodyPieces | github-filter-worker/src/index.ts:92 | The relayed body consists of the body's `:shipit:`-free pieces, in order, with the emote between them. Joining those pieces with `:shipit:` gives back the body. |
| FilterWorker.ForwardBodyLength | github-filter-worker/src/index.ts:15-92 | Each replaced `:shipit:` lengthens the body by the emote's length minus 8, which is 20 characters. |
| FilterWorker.ForwardBodyIdempotentIff | github-filter-worker/src/index.ts:15-92 | Substituting twice gives the same body as substituting once exactly when the body has no `:shipit:`. The emote itself contains `:shipit:`. |
| FilterWorker.EmoteContainsShipit | github-filter-worker/src/index.ts:15 | The emote text contains `:shipit:` right after its first character. |
| FilterWorker.BotPayload | github-filter-worker/src/index.ts:62-66 | The disjunction `botPayload`. Its properties are stated by `GitHubBotTerm` and `SentryBotNotBotPayload`. |
| FilterWorker.NoisyUserActions | github-filter-worker/src/index.ts:67 | `noisyUserActions` is `isEmptyReview`. Its properties are stated by `EmptyReviewNeedsNull` and `Classify`. |
| FilterWorker.ShouldIgnore | github-filter-worker/src/index.ts:69 | The disjunction `shouldIgnore`. Its properties are stated by `IgnoredExactly`, `CoverallsIgnored`, `EmptyPayloadIgnored` and `BlackPush`. |
| FilterWorker.ForwardUrl | github-filter-worker/src/index.ts:86-89 | The Discord URL built from the path. Its properties are stated by `ForwardUrlOfIdAndToken`, `ForwardUrlDropsExtraSegments` and `ForwardUrlMissingToken`. |
| JsStrings.ReplaceAll | github-filter-worker/src/index.ts:92 | `replaceAll` with a literal replacement. Its properties are stated by `ReplaceAllUnchanged`, `ReplaceAllIsSplitJoin` and `ReplaceAllLength`. |
| FilterWorker.ForwardBody | github-filter-worker/src/index.ts:92 | The body with every `:shipit:` replaced by the emote. Its properties are stated by `ForwardBodyUnchanged`, `ForwardBodyPieces`, `ForwardBodyLength` and `ForwardBodyIdempotentIff`. |
| FilterWorker.LocalResponse | github-filter-worker/src/index.ts:25-102 | The status and text of each response the handler answers itself: 200 with the "Worker lives!" text, 400 with the path hint, 203 with the ignored text. A relayed request, and only a relayed request, has none. |
| FilterWorker.HandleRequest | github-filter-worker/src/index.ts:23-103 | The handler's decision. Its properties are stated by `HealthCheckExactlyForNonPost`, `IgnoredExactly`, `BadRequestExactly` and `ForwardExactly`. |

## Left out

- Honeycomb configuration, sampling rates and the listener registration (lines 1-21). These are wiring around an external library.
- The `request.tracer.addData` telemetry (lines 34-37, 71). It has no influence on the decision.
- Parsing the body as JSON (line 32). The model takes the parsed leaves as input. A body that is not JSON, or that is JSON `null`, makes the handler throw; that is not modelled. A leaf that is not a string (a number, boolean, object or array) is not modelled either; JavaScript's behaviour on those varies by type.
- `new URL(...)` (line 76). The pathname is taken as an already normalised string.
- The outbound `fetch` and the passthrough of Discord's response (lines 91-98). This is network I/O; the model stops at the `Forward` description of the relayed request.
- Header passthrough. The model's request carries only the `X-GitHub-Event` header, as an optional string. It models neither the full header list that the relayed request copies nor case-insensitive header lookup.
- ReplaceAll: the replacement is inserted literally. JavaScript's `$` patterns in a string replacement (`$&`, `$$`, `` $` ``, `$'`) are not modelled. The emote the handler inserts contains no `$`.
- IndexOf, SplitOn, ReplaceAll: positions and lengths count characters (code points), not UTF-16 code units as in JavaScript. The handler only compares `indexOf` with -1 and splits and replaces on ASCII literals, so its outcomes do not depend on this.
- SplitOn, ReplaceAll: JavaScript's behaviour for an empty separator or pattern is not modelled. The handler only uses the literals `/` and `:shipit:`.
