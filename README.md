# Visa-run bingo: the reward and progression engine

Visa-run bingo is a Telegram mini-app. Each player has a record with three
counters (keys, tickets, coins), a grid of nine city tiles and five one-shot
tasks. Completing a task earns keys and tickets. Spending a key reveals a
random closed city and earns a ticket. A player who brings a friend in
through a `/start ref_<id>` link earns a key and a ticket.

The model covers three places where these rules are written:

- **The server** (`server.js`), which keeps the authoritative records.
  - Module `ServerEngine` states the record logic as functions from the old
    record (or the old `users` map) to the handler's outcome. It also holds
    the lemmas about those functions.
  - Module `ServerStore` is the server as it runs. A class `UserRecord` is
    updated in place, and a class `Store` holds the `users` map and the
    handlers: get-or-create, `/api/auth/verify`, `/api/city/open`,
    `/api/task/complete` and the referral branch of `/start`. Every method is
    proved equal to its `ServerEngine` function.
  - Module `InitData` covers the validation of the signed init data a
    Telegram Web App sends. It builds the data-check string: every
    `key=value` pair except `hash`, sorted and joined with line feeds. It then
    compares the lower-case hex HMAC-SHA-256 digest of that string, keyed with
    HMAC-SHA-256("WebAppData", bot token), against `hash`. HMAC-SHA-256
    (RFC 2104 over FIPS 180-4), UTF-8 encoding and `JSON.parse` are oracle
    fields of `Env`. `JsText` models the JavaScript string primitives the
    server uses (`startsWith`, `parseInt(s, 10)`, decimal rendering).
- **The visa-run-full front-end** (`visa-run-full/src/App.jsx`, module
  `FullApp`). Its local fallback works without the server, as `setState`
  updaters. These are modelled as functions from the old state to the new.
- **The client front-end** (`client/src/App.jsx`, module `ClientApp`). It
  has the same kind of local branch, with guards in front.

`Common` holds what the three share: optional values, reward bundles, the
first-match search and the grid of city tiles. `Math.floor(Math.random() * n)`
is a parameter `roll: nat -> nat`. The predicate `IsRoll` requires that
`roll(n) < n` for every `n > 0`.

## Model

| member | source | states |
|---|---|---|
| Common.FindIndex | server.js:289-293 | `find`: the result is the first position whose element satisfies the test, or `None` when no element does |
| Common.OrZero | server.js:144-145 | `reward.keys \|\| 0`: a missing field counts as 0. `CreditAdds` and the front-ends' `Earn` contracts state how a bundle is added |
| Common.Max | server.js:270 | `Math.max(0, …)`. `OpenCity` states that under its guard the clamp gives keys - 1 |
| Common.FreshCities | server.js:132 | one closed tile per name, in list order |
| Common.UnopenedIndices | server.js:261-264 | exactly the positions of the closed tiles, each once, in increasing order |
| Common.OpenTile | server.js:268-269 | sets `opened` on one tile, as the server's in-place assignment and the front-ends' copy-then-assign do. `OpenTileShrinksUnopened` states its effect |
| Common.OpenTileOpensExactlyOne | server.js:268-269 | opening a closed tile opens exactly that tile and keeps every other tile and every name |
| Common.OpenTileCountsDown | server.js:268-269 | opening a closed tile leaves one fewer closed tile |
| Common.OpenTileShrinksUnopened | server.js:268-269 | opening a closed tile opens exactly that tile, keeps every name and leaves one fewer closed tile |
| JsText.StartsWith | server.js:169 | `payload.startsWith('ref_')`. `ReferralFromLink` states that every `/link` payload passes it |
| JsText.IntDecimal | server.js:203 | the decimal rendering of the id in `` `ref_${userId}` ``. `ParseIntOfDecimal` states that `parseInt` reads it back |
| JsText.TrimStart | server.js:170 | `parseInt` skips exactly the leading ECMAScript white space |
| JsText.DigitPrefix | server.js:170 | `parseInt` reads the longest run of decimal digits |
| JsText.ParseInt | server.js:170 | `parseInt(s, 10)`: skip leading white space, take an optional sign, then the longest digit run, or `NaN` when there is none. `ParseIntOfDecimal` states its round trip |
| JsText.ParseIntOfDecimal | server.js:170 | `parseInt` of the decimal rendering of any integer gives that integer back |
| InitData.Get | server.js:84 | `searchParams.get(key)` is the value of the first pair with that key, and `None` exactly when no pair has it |
| InitData.Line | server.js:91 | `` `${key}=${value}` ``. `JoinInjective` and `DataCheckStringPinsLines` state what the lines determine |
| InitData.CheckLines | server.js:88-93 | the `forEach` pushes `key=value` for every pair whose key is not `hash`, in input order. `ValidateInitData`'s loop invariant and `CheckLinesIgnoreHashValue` state it |
| InitData.LexLeTotal | server.js:94 | the default sort order on strings relates any two strings |
| InitData.LexLeTransitive | server.js:94 | the default sort order on strings is transitive |
| InitData.LexLeAntisymmetric | server.js:94 | two strings that sort before each other are equal |
| InitData.InsertPermutes | server.js:94 | inserting a line adds exactly that line to the multiset of lines |
| InitData.InsertSorted | server.js:94 | inserting a line into a sorted list keeps it sorted |
| InitData.SortLinesSorts | server.js:94 | `params.sort()` yields a sorted permutation of the lines |
| InitData.SortedUnique | server.js:94 | two sorted lists with the same lines are equal, so the sorted result does not depend on the algorithm |
| InitData.SortLines | server.js:94 | `params.sort()`. `SortLinesSorts` and `SortedUnique` state that it yields the one sorted permutation |
| InitData.Join | server.js:95 | `params.join('\n')`. `JoinInjective` states that the lines can be recovered |
| InitData.JoinInjective | server.js:95 | lines that are non-empty and free of line feeds can be recovered from their `join('\n')` |
| InitData.DataCheckString | server.js:94-95 | the sorted lines joined with line feeds. `DataCheckStringIgnoresOrder` and `DataCheckStringPinsLines` state what it determines |
| InitData.DataCheckStringIgnoresOrder | server.js:88-95 | the check string depends only on the multiset of signed lines, not on the order of the pairs |
| InitData.DataCheckStringPinsLines | server.js:88-95 | when no key or value holds a line feed, equal check strings sign the same lines |
| InitData.CheckLinesIgnoreHashValue | server.js:89-93 | the value of a `hash` pair is not part of the signed lines |
| InitData.Hex | server.js:105 | `digest('hex')` writes two characters per byte |
| InitData.UnhexHex | server.js:105 | the hex rendering can be read back into the digest bytes |
| InitData.HexInjective | server.js:105-106 | two hex digests are equal as strings exactly when the digests are equal |
| InitData.ExpectedHash | server.js:98-105 | the hex HMAC of the check string under the key HMAC("WebAppData", bot token). `ForgedHashRejected` and `HexInjective` state what the comparison decides |
| InitData.UserOf | server.js:111-112 | `userStr ? JSON.parse(userStr) : null`, with `JSON.parse` an oracle. `Validation` states how it enters the claims |
| InitData.AuthDate | server.js:113 | `parseInt(get('auth_date') \|\| '0', 10)`. `Validation` states that the claims carry it |
| InitData.Validation | server.js:81-118 | null when `hash` is absent or empty. Claims exactly when `hash` equals the expected digest and the `user` field parses. The claims carry that user and the parsed `auth_date` |
| InitData.ForgedHashRejected | server.js:102-108 | changing the signature of accepted init data makes validation fail |
| InitData.ValidateInitData | server.js:81-118 | the `forEach` loop, sort, join and comparison give exactly `Validation` |
| InitData.Authenticate | server.js:232-235 | the user id of accepted claims that hold a user, else nothing. `AuthenticateRequest` states that the handlers' prologue computes it |
| InitData.AuthenticateRequest | server.js:247-251 | a handler keeps `parsed.user.id`, or nothing when `!parsed \|\| !parsed.user` |
| ServerEngine.FreshTasks | server.js:133 | one pending task per definition, in definition order, with its id, its label and empty meta |
| ServerEngine.DefaultState | server.js:126-135 | a fresh record has zero counters, every city closed in `CITY_LIST` order and every task pending with empty meta |
| ServerEngine.DefaultStateInvariant | server.js:126-135 | a fresh record satisfies the record invariant |
| ServerEngine.Credit | server.js:143-146 | `creditReward` as a function of the old record. `CreditAdds` and `UserRecord.CreditReward` state what it changes |
| ServerEngine.GetOrDefault | server.js:236-240 | the stored record, or the fresh one the handler would create. `Store.GetOrCreate` states that the store computes it |
| ServerEngine.CreditAdds | server.js:143-146 | for every record and every bundle, `creditReward` adds the bundle's keys and tickets (a missing field as 0) and changes nothing else |
| ServerEngine.CreditAdvances | server.js:143-146 | on a record that satisfies the invariant, a non-negative bundle adds its keys and tickets, changes nothing else, keeps the invariant and advances the record |
| ServerEngine.AdvancesTransitive | server.js:257-318 | the order in which records advance is transitive |
| ServerEngine.OpenCity | server.js:257-272 | refused exactly when keys <= 0. No change when every city is open. Otherwise exactly one closed city opens, keys drop by exactly 1 without going below 0, tickets rise by 1 and nothing else changes |
| ServerEngine.OpenCityWhenAllOpen | server.js:265-267 | with every city open and a key to spend, the record is answered unchanged |
| ServerEngine.OpenCityCanRevealAny | server.js:268 | every closed city is the one some random draw reveals |
| ServerEngine.OpenCityAdvances | server.js:257-272 | opening a city keeps the invariant and advances the record |
| ServerEngine.FindDefinition | server.js:289 | the definition with that id, or `None` exactly when no definition has it |
| ServerEngine.FindTask | server.js:293 | the user's first entry with that id, or `None` exactly when there is none |
| ServerEngine.CheckFailure | server.js:298-312 | the subscription check fails only for a task that needs it: with CHANNEL_ID unset, when the lookup throws, or when the status is not member, creator or administrator. It passes exactly when the task needs no check, or the channel is configured and the status is one of those three |
| ServerEngine.SubscriberCompletesSubscribe | server.js:298-316 | a member, creator or administrator with the channel configured completes a pending `subscribe`: the entry is done and one key and one ticket are credited |
| ServerEngine.CompleteTask | server.js:288-318 | an unknown id is an error. A missing or done entry is answered unchanged. A failed check is its error. Otherwise the first entry with that id is done with meta `payload \|\| {}`, the reward is credited, and nothing else changes |
| ServerEngine.MetaOf | server.js:315 | `payload \|\| {}`: the payload, or empty meta when there is none. `CompleteTask` states that the marked entry carries it |
| ServerEngine.CompleteTaskReplayIsNoOp | server.js:293-296 | after a successful completion, replaying it with any payload and any check result changes nothing |
| ServerEngine.CompleteTaskIdempotent | server.js:289-318 | completing twice settles to the same record as completing once, including after an error |
| ServerEngine.DefinitionRewardsNonNegative | server.js:40-71 | every task definition grants one key and takes nothing away |
| ServerEngine.CompletedWithAdvances | server.js:313-316 | marking a pending task done and crediting a non-negative reward keeps the invariant and advances the record |
| ServerEngine.CompleteTaskAdvances | server.js:288-318 | task completion keeps the invariant and advances the record, on every path |
| ServerEngine.AuthVerifyRequest | server.js:231-241 | `/api/auth/verify` over the `users` map. `AuthVerifyAnswersRecord` states its properties |
| ServerEngine.AuthVerifyAnswersRecord | server.js:231-241 | refused init data leaves the store alone. Otherwise the answer is the caller's record, which a known caller already had and a new caller gets fresh. The store gains that record under the caller's id and every other record is kept |
| ServerEngine.OpenCityRequest | server.js:247-272 | the caller's record is loaded or created first, the reveal runs on it, its settled result is stored under the caller, and every other record is kept |
| ServerEngine.CompleteTaskRequest | server.js:278-318 | the same load-or-create, then completion, its result stored under the caller, and every other record kept |
| ServerEngine.OpenCityByNewUser | server.js:251-259 | a new user's open is refused for lack of keys, but leaves a fresh record behind |
| ServerEngine.AuthVerifyKeepsStoreInvariant | server.js:235-241 | `/api/auth/verify` keeps every record under its own id and keeps the record invariant |
| ServerEngine.OpenCityKeepsStoreInvariant | server.js:251-272 | `/api/city/open` keeps the store invariant and only advances records |
| ServerEngine.CompleteTaskKeepsStoreInvariant | server.js:282-318 | `/api/task/complete` keeps the store invariant and only advances records |
| ServerEngine.ReferralPayload | server.js:203 | the `ref_<id>` payload of the link `/link` hands out. `ReferralFromLink` states what `/start` does with it |
| ServerEngine.ReferralInviter | server.js:169-173 | the inviter to credit, when the payload starts with `ref_`, parses to a non-zero id other than the caller's, and the caller is new. `ReferralFromLink` states it for every link |
| ServerEngine.Referral | server.js:169-177 | the store after the referral branch. `ReferralFromLink`, `ReferralRepeatsCredit` and `ReferralKeepsInvariant` state its properties |
| ServerEngine.ReferralFromLink | server.js:169-177 | a `ref_<id>` payload credits the inviter one key and one ticket, creating the record if absent, exactly when the id is non-zero, differs from the caller's and the caller is new. Nothing else changes and the caller gets no record |
| ServerEngine.ReferralRepeatsCredit | server.js:172-177 | as written, when the inviter id is non-zero and not the caller's, the same new caller repeating `/start ref_<id>` credits the inviter again |
| ServerEngine.ReferralRecordingInviteeIdempotent | server.js:172-177 | with the invitee recorded, a repeated `/start` credits nobody |
| ServerEngine.ReferralRecordingInviteeIsReferral | server.js:172-177 | the corrected referral credits exactly as the written one and in addition stores a fresh record for the invitee |
| ServerEngine.ReferralRecordingInviteeCreditsOnce | server.js:172-177 | with the invitee recorded, a link sent twice by a new caller, for a non-zero inviter id other than the caller's, credits the inviter exactly one key and one ticket |
| ServerEngine.ReferralKeepsInvariant | server.js:169-177 | the referral keeps the store invariant and only advances records |
| ServerStore.UserRecord.constructor | server.js:126-135 | a new record is `createDefaultState(userId)` |
| ServerStore.UserRecord.CreditReward | server.js:143-146 | the in-place credit equals `Credit` on the old record |
| ServerStore.UserRecord.OpenCity | server.js:257-272 | the in-place reveal answers `OpenCity` of the old record and leaves the record it settles to |
| ServerStore.UserRecord.CompleteTask | server.js:288-318 | the in-place completion answers `CompleteTask` of the old record and leaves the record it settles to |
| ServerStore.Store.constructor | server.js:23 | the store starts empty |
| ServerStore.Store.GetOrCreate | server.js:236-240 | `users.get(userId)`, or a fresh default record stored under `userId`. Only that key may change |
| ServerStore.Store.AuthVerifyFor | server.js:235-241 | the handler body after validation gives the reply and the store of `AuthVerifyRequest` |
| ServerStore.Store.AuthVerify | server.js:231-241 | validation followed by the handler body gives `AuthVerifyRequest` of the authenticated caller |
| ServerStore.Store.AuthVerifyHeader | server.js:226-241 | a missing header is refused before validation and changes nothing. Otherwise the result is as for `AuthVerify` |
| ServerStore.Store.OpenCityFor | server.js:251-272 | the handler body after validation gives the reply and the store of `OpenCityRequest` |
| ServerStore.Store.OpenCity | server.js:245-273 | validation followed by the handler body gives `OpenCityRequest` of the authenticated caller |
| ServerStore.Store.CompleteTaskFor | server.js:282-318 | the handler body after validation gives the reply and the store of `CompleteTaskRequest` |
| ServerStore.Store.CompleteTask | server.js:276-319 | validation followed by the handler body gives `CompleteTaskRequest` of the authenticated caller |
| ServerStore.Store.Start | server.js:165-179 | the referral branch of `/start` leaves exactly the store `Referral` describes |
| ServerStore.Store.CreditInviter | server.js:174-176 | the inviter's record, created if absent, is credited one key and one ticket, and no other record changes |
| FullApp.InitialState | visa-run-full/src/App.jsx:63-69 | zero counters, nine closed cities in `DEFAULT_CITIES` order, one pending task per definition in order |
| FullApp.Earn | visa-run-full/src/App.jsx:123-130 | adds the bundle's keys, tickets and coins (a missing field as 0), and leaves cities and tasks alone |
| FullApp.EarnCommutes | visa-run-full/src/App.jsx:123-130 | two queued `earn` updaters give the same state in either order |
| FullApp.OpenRandomCity | visa-run-full/src/App.jsx:133-165 | no change with keys <= 0 or no closed city. Otherwise exactly one closed city opens, keys become `max(0, keys - 1)` (here keys - 1 >= 0), tickets rise by 1, and coins and tasks stay |
| FullApp.FindDef | visa-run-full/src/App.jsx:189 | the definition with that id, or `None` exactly when no definition has it |
| FullApp.AlreadyDone | visa-run-full/src/App.jsx:193 | `find(...)?.done`: whether the first entry with the id is done. `FirstMatchDone` and `CompleteTaskAsWritten` state how it guards |
| FullApp.MarkDone | visa-run-full/src/App.jsx:194 | every entry with the id becomes done with the given meta, and every other entry is kept |
| FullApp.CompleteTaskAsWritten | visa-run-full/src/App.jsx:189-197 | an unknown id changes nothing. A done task keeps the task list but is credited again. A pending task is marked and credited |
| FullApp.RepeatedCompletionCreditsAgain | visa-run-full/src/App.jsx:191-197 | as written, repeating a completion leaves the tasks alone but adds another key, ticket and coins |
| FullApp.DefinitionsCredit | visa-run-full/src/App.jsx:17-50 | every definition grants one key, one ticket and some coins |
| FullApp.FirstMatchDone | visa-run-full/src/App.jsx:193-194 | after the mark, the guard sees the task as done |
| FullApp.CompleteTask | visa-run-full/src/App.jsx:189-197 | the guarded completion: an unknown id or a done task changes nothing, counters included. Otherwise it is the as-written completion |
| FullApp.CompleteTaskIdempotent | visa-run-full/src/App.jsx:191-197 | the guarded completion repeated with any meta changes nothing once the state has an entry for the task |
| FullApp.InitialStateInvariant | visa-run-full/src/App.jsx:63-69 | the default state has the default layout and no negative counter |
| FullApp.OpenRandomCityKeepsInvariant | visa-run-full/src/App.jsx:155-164 | the local open keeps the layout and the counters non-negative |
| FullApp.CompleteTaskKeepsInvariant | visa-run-full/src/App.jsx:189-197 | completion, as written and guarded, keeps the layout and the counters non-negative |
| FullApp.DefinitionIdsDistinct | visa-run-full/src/App.jsx:17-50 | the definitions' ids are pairwise distinct |
| FullApp.CompletionMarksOnlyThatTask | visa-run-full/src/App.jsx:192-196 | with the default layout, completing a pending task marks only its own entry, done with the given meta |
| ClientApp.InitialState | client/src/App.jsx:35-41 | zero counters, nine closed cities in `DEFAULT_CITIES` order, every task of `TASKS` pending in order |
| ClientApp.Earn | client/src/App.jsx:109-116 | adds the bundle's keys, tickets and coins (a missing field as 0), and leaves cities and tasks alone |
| ClientApp.FindDef | client/src/App.jsx:121 | the definition with that id, or `None` exactly when no definition has it |
| ClientApp.AlreadyDone | client/src/App.jsx:123-124 | `existing?.done`: whether the first entry with the id is done. `FirstMatchDone` and `CompleteTask` state how it guards |
| ClientApp.MarkDone | client/src/App.jsx:147 | every entry with the id becomes done, and every other entry is kept |
| ClientApp.CompleteTask | client/src/App.jsx:120-152 | an unknown id or a done task changes nothing. Otherwise the task list is marked, one key and one ticket are credited, and coins and cities stay |
| ClientApp.DefinitionsCredit | client/src/App.jsx:23-29 | every definition grants one key, one ticket and no coin |
| ClientApp.FirstMatchDone | client/src/App.jsx:123-124 | after the mark, the guard sees the task as done |
| ClientApp.CompleteTaskIdempotent | client/src/App.jsx:121-124 | repeating a completion changes nothing once the state has an entry for the task |
| ClientApp.MissingEntryCreditsEachTime | client/src/App.jsx:123-124 | a known task missing from the state's list is credited on every call and never marked |
| ClientApp.OpenRandomCity | client/src/App.jsx:156-186 | no change with keys <= 0 or no closed city. Otherwise exactly one closed city opens, keys drop by 1 and stay >= 0, tickets rise by 1, and coins and tasks stay |
| ClientApp.InitialStateInvariant | client/src/App.jsx:35-41 | the initial state has the default layout and no negative counter |
| ClientApp.OpenRandomCityKeepsInvariant | client/src/App.jsx:177-184 | the local open keeps the layout and the counters non-negative |
| ClientApp.CompleteTaskKeepsInvariant | client/src/App.jsx:120-152 | completion keeps the invariant, and in a state with the default layout a repeated completion is a no-op |
| ClientApp.DefinitionIdsDistinct | client/src/App.jsx:23-29 | the definitions' ids are pairwise distinct |
| ClientApp.CompletionMarksOnlyThatTask | client/src/App.jsx:147 | with the default layout, completing a pending task marks only its own entry |

## Left out

- HTTP transport is not modelled: Express routing, CORS, body parsing, status codes and JSON bodies. Each handler's answer is an `Outcome`: an `Error` tag or the record.
- The Telegram bot plumbing is not modelled: Telegraf setup, webhook or polling launch, the `/link` command, and the welcome message sent with `ctx.reply`. `ReferralPayload` renders the `ref_<id>` payload that `/link` builds.
- `bot.telegram.getChatMember` is a network call. It is the `SubscriptionCheck` parameter: whether CHANNEL_ID is set, plus a status or a failed lookup.
- ServerEngine.MetaOf, ServerEngine.CompleteTask and FullApp.CompleteTaskAsWritten: a task's meta and a request's payload are `map<string, string>`, reduced to string-valued fields. The source stores any truthy payload as it is. Numeric or nested fields, and truthy non-objects such as `"x"`, `1`, `[]` or `true`, cannot be represented.
- HMAC-SHA-256, UTF-8 encoding and `JSON.parse` are foreign computations, modelled as oracle functions in `Env`.
- Percent-decoding by `URLSearchParams` is not modelled: the init data is given as its decoded list of pairs.
- A parsed `user` object is assumed to carry an integer `id`. A user object without one, or a non-integer id, is not modelled.
- `Math.random` is not modelled. It is the `roll` parameter, constrained only to answer below the number of candidates.
- The sort order is JavaScript's order on code units. The model compares whole characters, which agrees except for characters outside the Basic Multilingual Plane.
- `params.sort()` is modelled by an insertion sort. Because the sorted result is unique (`InitData.SortedUnique`), the algorithm does not matter.
- JavaScript numbers are doubles. The counters and `parseInt` are unbounded integers, so precision loss beyond 2^53 is not modelled.
- Concurrency is not modelled. Each request is an atomic step, and no interleaving of the async handlers or of two requests is. `/api/task/complete` awaits `getChatMember` (server.js:303) between its `userTask.done` test (server.js:294) and the mark (server.js:314). Two overlapping `subscribe` requests can therefore both pass the test and both credit. `ServerEngine.CompleteTaskIdempotent` holds only for requests that run one after another.
- Timing is not modelled. The signature is compared with a plain `!==` (server.js:106), which is not a constant-time comparison. `InitData.ForgedHashRejected` states only which init data is refused, not how long refusing it takes.
- The front-ends read their guards from the rendered `state` while the updaters see the queued `s`. The model takes both to be the same state, so a stale render is not captured.
- The front-ends' server branches are not modelled: `fetch` to the API and adopting the server's state. Neither is the React rendering, `localStorage` persistence (including a stored state replacing the default), sharing or prompts.
- The quiz components, the grid and task list components, `main.jsx` and the build configuration are not modelled.
- `ServerStore.Store.Start` models only the referral branch of `/start`. Failures of `ctx.reply`, and the `catch` that swallows them, are not modelled.

## Findings

| source | as written | input that shows it | evidently intended | confidence | as-written member | corrected member |
|---|---|---|---|---|---|---|
| server.js:172-177 | the invitee is not stored, so the "hasn't been seen before" check stays true for them | a new user sends `/start ref_42` twice: user 42 gains two keys and two tickets | credit an inviter once per new invitee | not executed | ServerEngine.ReferralRepeatsCredit | ServerEngine.ReferralRecordingInviteeCreditsOnce |
| visa-run-full/src/App.jsx:191-197 | the "already done" guard covers only the task-list updater, and `earn(def.reward)` runs regardless | `completeTask('pin_bot')` twice: the second call adds another key, ticket and 5 coins | a done task credits nothing | not executed | FullApp.RepeatedCompletionCreditsAgain | FullApp.CompleteTaskIdempotent |
