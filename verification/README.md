# Verified model of the MSA servers

A Dafny 4.11 model of the parts of the three services (gateway, auth, game events) that carry
state, interleave or translate, with proofs about all inputs, all runs and all reachable states.
`dafny verify dfyconfig.toml` checks everything.

## What is modelled

**Route patterns and routing** (`Regex`, `PathMatcher`, `PathLanguage`, `PathRoundTrip`, `Gateway`,
`RouteTable`). `pathToRegex` is kept as the two textual rewrites it is; the resulting text is parsed
as a regular expression and given its meaning as such, and that meaning is proved to be segment-wise
matching. `matchPath` and its inverse (filling a pattern in) follow, then the sorted table and the
four-tier search, both as a class.

**Tokens over a TTL cache** (`Cache`, `Auth`, `AuthRuns`, `AuthRaces`). The three services are classes over one
store with deadlines. `AuthRuns` interleaves any number of logins, rotations and logouts at their
awaits and compares the cache with a specification that knows no clock: the last token saved.

**Optimistic locking on events** (`Events`, `EventRuns`). The event service is a class; `EventRuns`
splits every update into its read and its conditional write and interleaves them with everything else.

**The reward-request pipeline** (`Requests`, `Interceptor`, `Pipeline`, `PipelineRetry`,
`PipelineSafety`, `PipelineDelivery`). One undisturbed call and the interceptor are classes. `Pipeline` is the step relation:
queue, concurrent handlers stopping at each await, delayed copies, an event collection edited all the
while, Redis answering anything, awaits failing at will (an insert may fail before or after it took
effect). A proof shows that the stepwise handler, undisturbed, is the class's method.

**Paging and roles** (`Pagination`, `Users`).

## How to read the proofs

Methods are proved against specification functions; the step relations use the same functions, and the
results about whole runs are lemmas over traces (`tr` the states, `steps` the steps between them).

Assumptions, all visible as definitions or parameters:

- One clock for process and Redis; no eviction before a deadline. Whether Redis still answers at the very
  instant of the deadline is a parameter (`lenient`); nothing depends on it.
- Tokens are opaque texts. `Auth.Lawful` says what is relied on: signing can be undone and our tokens carry
  no blanks around them. Ids drawn for tokens and documents are fresh.
- One interceptor layer, acknowledging on, a channel that does not fail during a run (the class
  `Interceptor.MessageInterceptor` does model calls that throw), and no crash between rejecting a
  delivery and publishing its copy. The application registers the interceptor more than once
  (game-event-server/src/main.ts:22 and
  game-event-server/src/modules/event-request/event-reward-request.controller.ts:11).
- The broker's default exchange delivers to the queue named by the routing key and to no other; `Config.queue` is the
  name of the queue consumed. A message may have been published to any exchange.
- The database sorts by a rank for each field, refuses to skip a negative number of rows, and reads a negative limit as
  its absolute value.
- `toUpperCase`, environment look-ups, the validators and the token library are function parameters.

Where the code does something other than its comments or its settings suggest:

- The comment at api-gateway-server/src/gateway/utils/path-matcher.util.ts:3 shows an escaped slash after a
  parameter; the second rewrite swallows that backslash (`SecondRewriteSwallowsBackslash`). It still means the
  same, except that a lone colon before another segment becomes an unnamed parameter, which takes the value of a
  named one behind it (`LoneColonShifts`; `NamedGetTheirOwnIff` says exactly when that cannot happen).
- `update` spreads the request body, whose `version` is mandatory, beside `$inc` on the same field
  (game-event-server/src/modules/event/event.service.ts:176-186). MongoDB refuses such an update. Both
  behaviours are covered by the parameter `refuses`: the safety results hold for both, and
  `BodyVersionBlocksUpdate` says that with refusal no such update ever goes through.
- `RABBIT_MQ_NO_ACK` is read as a text, so the value `false` counts as true and switches acknowledging off
  (constructor of `MessageInterceptor`).
- A message without metadata makes the handler throw before anything else, although the field is optional.
- `logout` of an authentic token without `exp` blacklists nothing (`LogoutEndsAccess` says exactly when it works).
- `logout` does not stop a rotation that has begun: it may save a token afterwards (`RotationOutlivesLogout`;
  `LogoutIsFinalIff` says exactly when none can), and two rotations of one token may both save (`BothRotationsSave`).
- A retry publishes to the default exchange, which knows queues by name only: a message that came through another
  exchange under a routing key that is not the queue's name is lost after its first failure (`DrainedStoresOrExhausts`).
- `params` is an ordinary object, so a parameter called `__proto__` gets no value (`NamedGetTheirOwnIff`).
- A second retry writes the default exchange into `x-original-exchange` (`LiveCopyIsDetermined`).
- Rows are sorted by one field, `createdAt` unless another is named; rows that tie across the end of a page may be
  shown twice or never (`TiesCanHideRows`; `WalkIsCompleteIff` says exactly when none can).

## Model

| member | source | states |
|---|---|---|
| Regex.ExecCorrect | api-gateway-server/src/gateway/utils/path-matcher.util.ts:17-25 | Backtracking execution finds a match exactly when the declarative meaning has one, and what it returns is one |
| PathLanguage.RewritesProduce | api-gateway-server/src/gateway/utils/path-matcher.util.ts:4-6 | The two rewrites together leave literals, groups and slashes, with the slash after a parameter bare and every other one escaped |
| PathLanguage.TextParses | api-gateway-server/src/gateway/utils/path-matcher.util.ts:8 | That text, read as a regular expression, is the sequence of literal characters, slashes and captures of the pattern's segments |
| PathLanguage.PatternLanguage | api-gateway-server/src/gateway/utils/path-matcher.util.ts:4-9 | For every pattern of plain literals and parameters: the compiled expression accepts a path iff segment counts agree, literals are equal and parameters are non-empty; captures are unique |
| PathLanguage.MatchPathMeaning | api-gateway-server/src/gateway/utils/path-matcher.util.ts:12-37 | The result of `matchPath` without any regular expression, for every path, matched or not |
| PathLanguage.ProperNamesAreParamNames | api-gateway-server/src/gateway/utils/path-matcher.util.ts:14 | The names found by the global match are the names of the named parameters, in order, for every pattern of plain segments |
| PathMatcher.MatchPath | api-gateway-server/src/gateway/utils/path-matcher.util.ts:12-37 | The loop that fills `params` gives every name the value of its last occurrence, on the engine's match |
| PathRoundTrip.FillThenMatch | api-gateway-server/src/gateway/utils/path-matcher.util.ts:12-37 | Filling distinct parameters with non-empty slash-free values gives a path on which exactly those values are extracted, all but that of a parameter called `__proto__` |
| PathRoundTrip.MatchThenFill | api-gateway-server/src/gateway/utils/path-matcher.util.ts:12-37 | Every parameter is extracted iff none is called `__proto__`; then refilling with the extracted parameters gives the path back iff equally named parameters stood for equal text |
| PathRoundTrip.MatchesItself | api-gateway-server/src/gateway/gateway.service.ts:120-122 | A pattern, read as a path, matches itself, so the equality test is redundant |
| PathRoundTrip.SecondRewriteSwallowsBackslash | api-gateway-server/src/gateway/utils/path-matcher.util.ts:3-6 | The exact text for `a/:name/b`: the slash after the parameter is not escaped |
| PathRoundTrip.UnnamedParametersShift | api-gateway-server/src/gateway/utils/path-matcher.util.ts:14-34 | The i-th named parameter receives the i-th captured text, lone colons or not (all but `__proto__`) |
| PathRoundTrip.LoneColonShifts | api-gateway-server/src/gateway/utils/path-matcher.util.ts:6-34 | The failing family: on `a/:/:name` and `a/x/y` what is assigned to `name` is x, not y |
| PathRoundTrip.LoneColonExample | api-gateway-server/src/gateway/utils/path-matcher.util.ts:6-34 | ... with concrete texts: `a/:/:id` matched with `a/x/y` gives `id` the value x |
| PathRoundTrip.NamedGetTheirOwnIff | api-gateway-server/src/gateway/utils/path-matcher.util.ts:6-34 | Every named parameter receives its own text for all values iff the names are distinct, none is `__proto__`, and no unnamed parameter stands before a named one |
| Gateway.SortIsStable | api-gateway-server/src/gateway/gateway.service.ts:36 | The sorted table is ordered by path length, a permutation, and keeps equal lengths in declaration order |
| Gateway.StableSortUnique | api-gateway-server/src/gateway/gateway.service.ts:36 | Only one table has those properties, whatever sorting algorithm the engine uses |
| Gateway.SortedIsFixed | api-gateway-server/src/gateway/gateway.service.ts:111-113 | Sorting a sorted table again changes nothing |
| Gateway.GatewayService.SetupRoutes | api-gateway-server/src/gateway/gateway.service.ts:28-48 | Every declared route is loaded, its target replaced by the environment's address for its first segment if there is one, and the table is sorted |
| Gateway.GatewayService.GetRouteConfigForPath | api-gateway-server/src/gateway/gateway.service.ts:70-140 | The search with its loop and filters computes `Resolve`, whose answer `RequestGetsRoute` writes out, for every table |
| Gateway.ResolutionMeaning | api-gateway-server/src/gateway/gateway.service.ts:88-137 | In terms of the declared table: the first non-empty tier decides, the longest path wins, ties go to declaration order; the prefix tier's sort is the identity |
| Gateway.MismatchMeaning | api-gateway-server/src/gateway/gateway.service.ts:120-137 | A method mismatch: no matching route admits the method; the allowed methods are exactly those of the matching routes, at least one, none equal to the request's in any letter case |
| Gateway.RequestGetsRoute | api-gateway-server/src/gateway/gateway.service.ts:70-140 | With every condition written out: the route found is the first of the longest that serve the method (none listed, or one equal to the request's in upper case) and equal the path, or else match it, or else start it; one is found iff such a route exists; a leading slash makes no difference |
| Gateway.AllowedMethodsInOrder | api-gateway-server/src/gateway/gateway.service.ts:126 | The allowed methods come route by route, in order |
| Gateway.PatternTierMeaning | api-gateway-server/src/gateway/gateway.service.ts:97-122 | Pattern candidates are the segment-wise matches and include the exact ones |
| RouteTable.TableIsWellFormed | api-gateway-server/src/gateway/routes/index.ts:7-11 | Every declared route is a pattern the results above cover |
| RouteTable.TableMatchesBySegments | api-gateway-server/src/gateway/gateway.service.ts:97-122 | Each declared route, as the gateway holds it, matches a path exactly segment by segment; its equality test adds nothing |
| Cache.CacheService.Set | auth-server/src/cache/cache.service.ts:19-26 | What is set reads back until its TTL is over and no longer; a zero or missing TTL never ends; a negative one fails; other keys are untouched |
| Cache.CacheService.Get | auth-server/src/cache/cache.service.ts:11-17 | Reads a key unless its deadline has passed |
| Cache.CacheService.Delete | auth-server/src/cache/cache.service.ts:28-30 | Removes one key |
| Cache.CacheService.Reset | auth-server/src/cache/cache.service.ts:32-34 | Removes every key |
| Auth.KeysNeverClash | auth-server/src/auth/auth.service.ts:133-135 | Cache keys of different users, tokens and purposes differ |
| Auth.TokensService.SaveRefreshToken | auth-server/src/tokens/tokens.service.ts:18-35 | Stores the token under its user for the floored remaining seconds, or fails and stores nothing |
| Auth.TokensService.ValidateRefreshToken | auth-server/src/tokens/tokens.service.ts:38-64 | True iff stored, equal, authentic, unexpired and issued to that user |
| Auth.TokensService.RemoveRefreshToken | auth-server/src/tokens/tokens.service.ts:67-74 | Removes the user's refresh token |
| Auth.SavedTokenOutlivesItself | auth-server/src/tokens/tokens.service.ts:18-61 | A saved token is accepted at every later instant before its `exp` and at none after, through flooring and the zero-TTL path; when saving fails |
| Auth.ValidateJwtMeaning | auth-server/src/auth/auth.service.ts:151-172 | An access token is accepted iff nothing readable stands under its blacklist key and it is authentic and before its `exp`, if it has one; the answer is then its claims |
| Auth.ValidateRefreshMeaning | auth-server/src/tokens/tokens.service.ts:38-64 | Every condition of accepting a refresh token, written out |
| Auth.LogoutTouches | auth-server/src/auth/auth.service.ts:125-142 | Logout touches two keys only; the mark lasts for the time left rounded up to whole seconds, no longer |
| Auth.SaveTouches | auth-server/src/tokens/tokens.service.ts:18-35 | Saving touches the user's key only and stores the token there |
| Auth.AuthService.GeneratedIsGood | auth-server/src/auth/auth.service.ts:174-207 | The answered pair, claim by claim: the access token carries the account's id, e-mail and roles and is accepted exactly until its lifetime is over; the refresh token likewise for this user |
| Auth.AuthService.GenerateTokens | auth-server/src/auth/auth.service.ts:174-212 | A fresh pair is answered iff the refresh token could be saved; what the pair is good for (`GoodPair`) |
| Auth.AuthService.Login | auth-server/src/auth/auth.service.ts:25-60 | Refused accounts change nothing; others get a saved pair that is good (`GoodPair`) |
| Auth.AuthService.RefreshToken | auth-server/src/auth/auth.service.ts:95-123 | Rotation: which error when, and the new token in place of the old, with a good pair (`GoodPair`) |
| Auth.AuthService.Logout | auth-server/src/auth/auth.service.ts:125-149 | Blacklists a live access token for the rounded-up remaining seconds and removes the refresh token |
| Auth.AuthService.ValidateJwtToken | auth-server/src/auth/auth.service.ts:151-172 | The claims of a token that is authentic, unexpired and not blacklisted, null for every other |
| Auth.LogoutEndsAccess | auth-server/src/auth/auth.service.ts:125-172 | After a logout the access token is refused at every later instant iff it is not an authentic one without `exp` or an entry without deadline stood under its key before; for a token without `exp` nothing changes |
| AuthRuns.AcceptedIffLatestAndUnexpired | auth-server/src/tokens/tokens.service.ts:18-64 | In every reachable state a refresh token is accepted iff it is the last one saved for the user with no later logout and its `exp` has not come |
| AuthRuns.AtMostOneAccepted | auth-server/src/auth/auth.service.ts:95-110 | At most one refresh token per user is accepted at any moment |
| AuthRuns.DisplacedNeverAccepted | auth-server/src/auth/auth.service.ts:95-142 | A token displaced by rotation or removed by logout is never accepted again, for any user |
| AuthRuns.RevokedNeverAccepted | auth-server/src/auth/auth.service.ts:128-172 | Once the blacklist entry is written the token is refused at every later instant of every run, also when other logouts overwrite the entry |
| AuthRuns.AccessAcceptedIff | auth-server/src/auth/auth.service.ts:125-172 | In every reachable state an access token is accepted iff it is authentic, before its `exp` if any, and no logout of this very token has written its entry; the answer is its claims |
| AuthRuns.RotationNeedsLatest | auth-server/src/auth/auth.service.ts:98-101 | Rotation starts only from the token that is current when checked |
| AuthRaces.PresentedAgainIff | auth-server/src/auth/auth.service.ts:98-110 | A token that started one rotation can start another exactly as long as nothing has been saved or removed for the user since and it has not expired |
| AuthRaces.BothRotationsSave | auth-server/src/auth/auth.service.ts:95-110 | Any run in which a token is accepted can go on so that two rotations begun from it both save; only the second answer is accepted afterwards |
| AuthRaces.LogoutIsFinalIff | auth-server/src/auth/auth.service.ts:95-142 | Once a logout has removed the token, no continuation without a new login of the user ever has a token of the user accepted iff at that moment no rotation or login of the user is past its check and unminted or holds an unexpired token |
| AuthRaces.SessionOverIff | auth-server/src/auth/auth.service.ts:95-142 | The same in any state: also nothing current may be unexpired |
| AuthRaces.RotationOutlivesLogout | auth-server/src/auth/auth.service.ts:95-142 | Any run in which a token is accepted can go on so that a rotation begun before a complete logout leaves an accepted token after it |
| AuthRaces.WaitingEndsIt | auth-server/src/tokens/tokens.service.ts:51-59 | Any run in which a token is accepted can go on, by waiting alone, to a state in which it is not |
| AuthRuns.LoginStepsAreSaveRefresh | auth-server/src/auth/auth.service.ts:174-207 | The steps of a login, undisturbed but for the clock, leave the store the service leaves, and count as a save iff saving succeeds |
| AuthRuns.LogoutStepsAreLogoutStore | auth-server/src/auth/auth.service.ts:125-142 | Likewise for a logout |
| Events.EventService.Create | game-event-server/src/modules/event/event.service.ts:25-48 | A new document at version 0, or nothing when the dates are not in order |
| Events.EventService.FindById | game-event-server/src/modules/event/event.service.ts:101-118 | The document, unless it is missing or hidden by deletion |
| Events.EventService.Update | game-event-server/src/modules/event/event.service.ts:144-197 | Undisturbed: every field becomes the patch's value if it has one and stays otherwise, editor set, one version more; exactly which error is reported otherwise |
| Events.EventService.Remove | game-event-server/src/modules/event/event.service.ts:199-220 | Marks a live document deleted, one version more; fails on others |
| Events.EventService.Restore | game-event-server/src/modules/event/event.service.ts:234-255 | Unmarks a deleted document, one version more; fails on others |
| Events.EventService.PermanentlyRemove | game-event-server/src/modules/event/event.service.ts:223-231 | Removes a document altogether |
| Events.RestoreUndoesRemove | game-event-server/src/modules/event/event.service.ts:199-255 | Removing hides a document; restoring it then changes only version and editor |
| Events.CompareAndSetMeaning | game-event-server/src/modules/event/event.service.ts:170-192 | When the conditional write goes through, and that only its document changes |
| EventRuns.CommitIsAtomicPatch | game-event-server/src/modules/event/event.service.ts:151-188 | In every interleaving the conditional write succeeds iff the document still stands at the named version, and then patches the CURRENT document, field by field; no concurrent change is lost, no ABA through delete and restore |
| EventRuns.VersionCountsChanges | game-event-server/src/modules/event/event.service.ts:184-242 | The version is the number of updates, removals and restorations so far; start is before end in every reachable state |
| EventRuns.OneWinnerPerVersion | game-event-server/src/modules/event/event.service.ts:170-188 | Of all updates naming one version of a document at most one ever succeeds |
| EventRuns.BodyVersionBlocksUpdate | game-event-server/src/modules/event/event.service.ts:176-186 | An update whose body carries a version never goes through if the database refuses conflicting paths; otherwise the increment alone counts |
| EventRuns.FirstUpdateIsRefused | game-event-server/src/modules/event/event.service.ts:151-188 | A run of three steps: the first update of an event, its body naming version 0, passes every check and still changes nothing if the database refuses it |
| EventRuns.UpdateStepsAreUpdate | game-event-server/src/modules/event/event.service.ts:144-197 | Beginning an update and committing it at once is the service's `update`: begun exactly when its checks pass, leaving the same documents |
| EventRuns.OtherStepsMean | game-event-server/src/modules/event/event.service.ts:199-255 | Creating, removing, restoring and purging, field by field, and that no other document is touched |
| Requests.RewardRequestService.FindExistingRequest | game-event-server/src/modules/event-request/services/reward-request.service.ts:223-233 | The first stored request for the pair, if any |
| Requests.RewardRequestService.Save | game-event-server/src/modules/event-request/schemas/reward-request.schema.ts:43 | The unique index: a second request for a pair is refused, others are appended |
| Requests.RewardRequestService.CreateEventRewardRequest | game-event-server/src/modules/event-request/services/reward-request.service.ts:42-138 | One undisturbed call: every outcome and its condition, and that at most the new request is added |
| Requests.OutcomeMeaning | game-event-server/src/modules/event-request/services/reward-request.service.ts:42-138 | Every outcome of a request with exactly the situation it belongs to, and every field of a new entry |
| Requests.ApprovedMeansMet | game-event-server/src/modules/event-request/factories/condition-validator.factory.ts:21-40 | A new entry is APPROVED iff a LOGIN event's login validator or a FRIEND_INVITATION event's invitation validator said yes; any other type gives FAILED |
| Requests.EligibleIffApproved | game-event-server/src/modules/event-request/services/request-eligibility.service.ts:19-53 | The check says eligible iff the request at that moment inserts a new APPROVED entry (metadata present), and its reason is the one the request meets |
| Interceptor.MessageInterceptor.constructor | game-event-server/src/common/interceptors/message.interceptor.ts:19-27 | Any non-empty text of the setting, "false" included, switches acknowledging off |
| Interceptor.MessageInterceptor.AcknowledgeMessage | game-event-server/src/common/interceptors/message.interceptor.ts:134-154 | Succeeds iff at most `retries` attempts throw, acknowledging once, after waiting once for each failure |
| Interceptor.MessageInterceptor.RetryMessage | game-event-server/src/common/interceptors/message.interceptor.ts:159-186 | Rejects the delivery and schedules a copy with the new count and the headers naming where it came from; a reject that throws leaves it unsettled and schedules nothing |
| Interceptor.MessageInterceptor.ResumeRetry | game-event-server/src/common/interceptors/message.interceptor.ts:187-195 | After the wait the copy is published; a publish that throws loses it |
| Interceptor.MessageInterceptor.Intercept | game-event-server/src/common/interceptors/message.interceptor.ts:51-122 | Every delivery is settled exactly once, acked or rejected, if the channel lets it; which one, what is rescheduled, and what remains when calls throw |
| Pipeline.UndisturbedHandlerIsCreateOutcome | game-event-server/src/modules/event-request/services/reward-request.service.ts:42-138 | The stepwise handler, run alone, does what the service's method does |
| PipelineRetry.OneLiveCopyUntilAcked | game-event-server/src/common/interceptors/message.interceptor.ts:97-187 | Every published message has exactly one live copy until acknowledged or lost (its copy addressed to no queue), none after, and ends so at most once |
| PipelineRetry.RetriesCountFailures | game-event-server/src/common/interceptors/message.interceptor.ts:92-121 | The retry count equals the failed runs; at most maxRetries+1 runs; acknowledged without success only after all of them failed |
| PipelineRetry.RetryWaitsItsTurn | game-event-server/src/common/interceptors/message.interceptor.ts:183-187 | A copy comes back only after a failed run of the same message, no sooner than its count times the delay |
| PipelineRetry.StepUsesWork | game-event-server/src/common/interceptors/message.interceptor.ts:92-121 | Every pipeline step strictly decreases the work left |
| PipelineRetry.WorkIsBounded | game-event-server/src/common/interceptors/message.interceptor.ts:92-121 | Over any run the pipeline takes a bounded number of steps for each message published |
| PipelineRetry.NeverStuck | game-event-server/src/common/interceptors/message.interceptor.ts:92-187 | While anything is live, waiting enables a step |
| PipelineRetry.EveryRunCanDrain | game-event-server/src/common/interceptors/message.interceptor.ts:92-187 | Every run can go on, without faults and without new messages, until nothing is live |
| PipelineDelivery.LiveCopyIsDetermined | game-event-server/src/common/interceptors/message.interceptor.ts:170-187 | The live copy of a message is the n-th copy of what was published, n its failed runs: payload and routing key kept; `x-original-exchange` names the first exchange iff n is 1 or that was the default one; a copy comes back only if the routing key is the queue's name |
| PipelineDelivery.AckedSuccessIsStored | game-event-server/src/common/interceptors/message.interceptor.ts:68-90 | With faults allowed: a message acknowledged after a successful run has left a stored request for its user and event |
| PipelineDelivery.DrainedStoresOrExhausts | game-event-server/src/common/interceptors/message.interceptor.ts:92-187 | In a drained run, faults or not, every message is acknowledged or lost; lost iff its routing key is not the queue's name, retries are allowed and its first run failed; otherwise its pair is stored or all maxRetries+1 of its runs failed |
| PipelineDelivery.MessagesGetLost | game-event-server/src/common/interceptors/message.interceptor.ts:159-187 | Any run can go on with a message from another exchange, under another routing key, that is lost after its first failure |
| PipelineDelivery.RequestsOutliveEvents | game-event-server/src/modules/event/event.service.ts:223-231 | Any run can go on with an event removed for good while its requests stay |
| PipelineSafety.StoredOnceAndForever | game-event-server/src/modules/event-request/services/reward-request.service.ts:70-119 | In every run, with faults and any Redis contents: one request per pair, and stored requests never change |
| PipelineSafety.StoredMeansIneligible | game-event-server/src/modules/event-request/services/request-eligibility.service.ts:32-35 | Once a request is stored for a pair the check refuses it in every later state |
| PipelineSafety.EveryRequestJustified | game-event-server/src/modules/event-request/services/reward-request.service.ts:50-119 | Every stored request goes back to an earlier undeleted state of its event that a later check found active and in its window; it is APPROVED iff that state was a LOGIN event whose login validator, or a FRIEND_INVITATION event whose invitation validator, said yes, and FAILED otherwise |
| PipelineSafety.DrainedStoresExactlyTheAdmitted | game-event-server/src/modules/event-request/services/reward-request.service.ts:50-137 | In a drained fault-free run a pair ends with a request iff some delivery for it passed the checks, races on the unique index included |
| Pagination.PagesPartition | game-event-server/src/modules/event/dto/pagination.dto.ts:26-32 | Pages 1..pages concatenate to the whole result, all but the last are full, the last is not empty, later ones are |
| Pagination.EntryIsOnOnePage | game-event-server/src/modules/event-request/services/reward-request.service.ts:176-194 | The page and place of the i-th entry |
| Pagination.FindAll | game-event-server/src/modules/event-request/services/reward-request.service.ts:145-197 | The query object and the sort option filled in step by step give the page asked for of the rows asked for, with defaults, zero and negative parameters |
| Pagination.FindByUserId | game-event-server/src/modules/event-request/services/reward-request.service.ts:205-215 | The same with the user put into the filter |
| Pagination.AnswerIsAPage | game-event-server/src/modules/event-request/services/reward-request.service.ts:176-196 | The answer with its defaults written out (page 1, ten rows, newest first), which pages are refused, and that the others are the slices of the sorted, filtered rows |
| Pagination.SelectedMeaning | game-event-server/src/modules/event-request/services/reward-request.service.ts:149-174 | Which rows are selected, condition by condition |
| Pagination.WalkIsCompleteIff | game-event-server/src/modules/event-request/services/reward-request.service.ts:176-196 | Asking for pages 1..pages, one query each, shows every row asked for exactly once and in order, whatever the database does with ties, iff no page ends between two rows that tie |
| Pagination.StoredRowsDiffer | game-event-server/src/modules/event-request/schemas/reward-request.schema.ts:43 | The unique index makes the rows found pairwise different, as that result asks |
| Pagination.OwnRowsOnly | game-event-server/src/modules/event-request/services/reward-request.service.ts:205-215 | The rows of a user are that user's alone, unless the user is the empty text, which restricts nothing |
| Users.RemovalEmpties | auth-server/src/users/users.service.ts:139-144 | Removal leaves no roles iff the list was empty or held only two or more copies of that role; proper lists stay proper |
| Users.WithoutSplits | auth-server/src/users/users.service.ts:144 | The roles left stand as they stood |
| Users.UsersService.Create | auth-server/src/users/users.service.ts:27-53 | Refuses a taken e-mail; keeps the invariant iff the roles asked for are proper |
| Users.UsersService.Register | auth-server/src/auth/auth.service.ts:64-67 | Registration starts with the role USER alone |
| Users.UsersService.AddRole | auth-server/src/users/users.service.ts:104-129 | The role is there afterwards, once, and the others as they were; role lists stay non-empty and free of repeats |
| Users.UsersService.RemoveRole | auth-server/src/users/users.service.ts:131-159 | Removes a role, never the last; the others stay in order |

## Left out

- Patterns with regular-expression metacharacters: `MatchPath` answers `Unmodelled` for those outside the subset of `Regex`, and the results about matching do not cover them.
- Paging of events (`findAll`, `findActiveEvents`): the same slices and counts over another filter.
- Concurrent role changes and the user cache keys they delete, apart from those deletions as steps in `AuthRuns`.
- A 405 response: the gateway's controller never looks at the mismatch mark, so the model stops at what resolution returns.
- Redelivery by the broker after a crash, channel faults during a run, a second interceptor layer, Redis eviction and clock skew.
- Replay of an idempotent message through Redis: nothing writes that key, so its answers are arbitrary here.
- Passwords and signatures.
- The bodies of the validators, and `processedAt` as a time distinct from the insertion.
- Proxying, guards, static role tables, wiring, logging and configuration.
