# prisme, in Dafny

A model of the parts of prisme that decide something hard, and proofs of what they are for. There is one module a
source file or pair of source files, in one `.dfy` file each:

| file | what it models |
|---|---|
| `Texts`, `Sorting`, `Json` | JavaScript strings as UTF-16 code units with their `<`, a stable key sort, and JSON values with `undefined` |
| `CanonicalJson`, `Hashing` | the canonical serializers behind `hashPlan` and `contentHash`, and a parser that undoes them |
| `Confirmation` | confirmation tokens, `issue`, `verify`, and the in-memory and SQL forms of the store |
| `Plans`, `Protocol`, `Outcomes` | the dry-run and confirm cycle of the MCP write tools, as a transition system over many interleaved calls |
| `RateLimit`, `Authorizer` | the token-bucket limiter, and the authorizer that stands in front of every handler |
| `WriteSwitch`, `Tokens` | the kill switch with its per-process cache, and token verification with its cache, as transition systems |
| `Calendar`, `Measure` | ECMA-262 calendar arithmetic, KPI buckets, and what the buckets add up to |
| `Watermark` | overlapping reads, hash suppression, and what a mirror holds after any run of reads |
| `Migrations` | the migration planner and the runner that may stop after any transaction |
| `AdoptionQueue` | the filtered, counted and paged adoption queue and its digest |
| `UrlGuard` | every spelling of an IPv4 host, the refused ranges, and IPv4 addresses inside IPv6 literals |

Code that loops or updates fields is a method or a class and is proved against a function of its inputs or old state;
the results are lemmas about those functions. Code with `await` in it is a transition system instead, because what
matters there is every interleaving: one step is one SQL statement or one stretch of code between two awaits, the
world may change and the clock advance between any two steps, and a call may stop for good at any of them.

## Assumptions

- SHA-256 is ideal: a digest is its preimage. Hashing takes UTF-8, which is lossless on text without lone surrogates;
  `CanonicalIsWellFormed` shows that every canonical text is such a text.
- Numbers in plans appear as the text `Number::toString` gives them, so two numbers are equal when their texts are.
- Plans are plain JSON, possibly with `undefined` in it: an object has each key once.
- Confirmation ids are fresh when drawn, and an id is presented only once its row exists, which is what a caller that
  has seen its token has waited for. `EarlyPresentationIsNotConsumed` shows what the second one rules out.
- Each SQL statement takes effect at one instant, as it does on one row under READ COMMITTED.
- A call that stops leaves no statement on its way. An UPDATE that landed after the stop would leave what the run in
  which the call stops just after its UPDATE leaves; an INSERT that did would leave a row whose token nobody was given.
- The limiter's clock, the switch's and the protocol's do not go backwards. Bucket levels are real numbers.
- A token record's id and hash do not change once it is created; `parseToken` and `argon2Verify` are functions.
- A tool stamps an edit with its own clock, at most a minute off, rounded down to the minute; a successful run reads
  every record whose last edit is reported at or after the floor.
- Migration runners are serialized by the advisory lock, and a migration's script and its bookkeeping row commit
  together. Versions are digits, so `localeCompare` orders them as `<` does.
- Instants are ECMA-262 time values (section 21.4.1), so dates stop at 8.64e15 milliseconds either way.

## Where the code and its promise part

- `bucketStart` goes through `Date.UTC`, which reads the years 0 to 99 as 1900 to 1999 (`YearZeroIsNotFound`), and it
  can step back past the first time value (`FirstTimeValueHasNoWeek`). `BucketStartIsRightExactly` and
  `BucketsCoverExactly` say exactly when the buckets are right. The dates `kpi` is asked with are never in those years:
  `calendarDate` (apps/api/src/dto/common.ts:23-33) makes the same round trip through `Date.UTC` and refuses them, so
  only a weekly row that starts in the year 99 could meet this.
- A full limiter map admits a key it has not seen without limit. From an empty map, ten thousand other keys and then
  any number of takes of one key, all at one instant, admit every one of those takes (`NoBoundOnceFull`). `sweep` is
  meant to be called on a timer, and nothing in the repository calls it, so the runs of this code are runs of takes:
  over those, whatever the keys, the bound on a key holds exactly when the key already has its bucket
  (`BoundHoldsAmongOthersExactly`), and a process that has met 10,000 keys stays full. Over a key's own takes and
  sweeps it holds exactly when the key has its bucket or the map has room (`BoundHoldsExactly`); with sweeps and other
  keys no map is safe (`SweptMapLosesBound`); and in any run at all the bound is passed by at most the takes that found
  the map full (`EveryWindowIsBounded`). A policy with a burst under one would take the map past its cap
  (`CapHoldsExactly`); neither shipped policy is such.
- A confirmation token is matched trimmed and fingerprinted untrimmed. Any text that names an issued id and is not the
  issued token is rejected as a wrong secret (`IssuedTokenIsAcceptedExactly`), and the token itself with white space
  around it is such a text: it has the shape, is consumed, and cannot be used after (`PaddedTokenIsBurned`).
- `canonical` writes `undefined` inside an array as `null`, so those two are one value to the hash; `Same` says so.
- `ipv4Of` reads a part such as `08` as decimal 8, since it is not octal, where inet_aton reads no number
  (`MisspeltOctalIsRead`). That is the only difference, and wherever inet_aton reads a number `ipv4Of` reads the same
  one (`HostIsStrictExactly`), so the guard only takes more hosts for addresses. `new URL` rejects such a host before
  the guard sees it.
- `isPrivateIpv6` takes `fe80:` alone for link-local, which is one hextet of fe80::/10 (section 2.5.6 of RFC 4291);
  `FirstHextetDecides` says what is refused. The guard still allows only origins on its list.
- `planMigrations` compares versions and checksums and not names: a renamed file with the same text is not a change.

## Model

| member | source | states |
|---|---|---|
| Json.NormDecidesSame | apps/api/src/auth/confirmation.ts:60-68 | sorting keys and dropping `undefined` entries gives one normal form exactly to values that read alike at every key |
| CanonicalJson.StringComesBack | apps/api/src/auth/confirmation.ts:61 | the escaped text of any string, lone surrogates included, parses back to that string and stops at its closing quote (section 7 of RFC 8259) |
| CanonicalJson.EscapedExactly | apps/api/src/auth/confirmation.ts:61 | a unit outside a pair is escaped exactly when it is a quote, a backslash, a control character or a surrogate |
| CanonicalJson.PairsAreCodePoints | apps/api/src/auth/confirmation.ts:61 | two units are left as a pair exactly when they encode a code point past 0xFFFF (section 11.1.1 of ECMA-262) |
| CanonicalJson.ValueComesBack | apps/api/src/auth/confirmation.ts:60-68 | inside any longer text, the parser reads a value's canonical text back as its normal form and stops right after it |
| CanonicalJson.CanonicalComesBack | apps/api/src/auth/confirmation.ts:60-68 | the printer has a left inverse up to normal form, for every plain JSON value |
| CanonicalJson.CanonicalDecidesSame | apps/api/src/auth/confirmation.ts:60-68 | two values have one canonical text exactly when they are equal up to key order and dropped `undefined` entries |
| CanonicalJson.CanonicalIsWellFormed | apps/api/src/auth/confirmation.ts:56-61 | canonical text never holds a lone surrogate, so encoding it as UTF-8 loses nothing |
| CanonicalJson.SerializersAgree | packages/connectors/src/hash.ts:20-52 | the connectors' serializer, which renders before it sorts, writes the same text as the confirmation service's |
| Hashing.HashPlanDecidesSame | apps/api/src/auth/confirmation.ts:56-58 | two plans hash alike exactly when they are the same value, whatever code path built them |
| Hashing.ContentHashDecidesSame | packages/connectors/src/hash.ts:54-57 | the content hash is invariant under key order and injective on plain JSON |
| Confirmation.IssuedTokenNamesItsId | apps/api/src/auth/confirmation.ts:126-148 | an issued token matches the token shape and yields the id it was issued with |
| Confirmation.NamesIdExactly | apps/api/src/auth/confirmation.ts:147-148 | a text names an id exactly when it is white space, a token minted with that id, and white space |
| Confirmation.MintedIsBase64Url | apps/api/src/auth/confirmation.ts:126-127 | ids and secrets are exactly the base64url texts that 12 and 32 bytes take (section 5 of RFC 4648) |
| Confirmation.JudgedExactly | apps/api/src/auth/confirmation.ts:154-179 | each rejection holds exactly when its own condition on the row's fields does and no earlier one does, and acceptance when none does |
| Confirmation.IssuedTokenIsAcceptedExactly | apps/api/src/auth/confirmation.ts:125-180 | a token under an issued id is accepted exactly when it is the issued text, by the same subject, for the same diff hash, less than 120 s after issue; rejected as stale exactly when only the diff hash is wrong; and as a wrong secret exactly when it is any other text |
| Confirmation.PaddedTokenNamesItsId | apps/api/src/auth/confirmation.ts:147-148 | an issued token with any white space around it still matches the token shape and yields its id |
| Confirmation.PaddedTokenIsBurned | apps/api/src/auth/confirmation.ts:146-161 | presented so it is rejected as a wrong secret, and the token is then consumed for good |
| Confirmation.AttemptBurnsToken | apps/api/src/auth/confirmation.ts:150-158 | after any attempt on an id, failed ones included, no attempt on it is accepted and none changes the store |
| Confirmation.MemoryAuthStore.ConsumeConfirmation | apps/api/src/auth/memory-store.ts:80-85 | answers the row as it was and marks it consumed, keeping the first time it was |
| Confirmation.MemoryAuthStore.DeleteExpiredConfirmations | apps/api/src/auth/memory-store.ts:87-96 | exactly the rows that expired before the instant go, and the count is how many went |
| Confirmation.ConfirmationService.Issue | apps/api/src/auth/confirmation.ts:125-144 | one new unconsumed row bound to token, diff hash and subject, expiring in two minutes, and nothing else changes |
| Confirmation.ConfirmationService.VerifyToken | apps/api/src/auth/confirmation.ts:146-180 | the early returns come to the specified verdict, and the row is consumed whatever the verdict |
| Plans.DiffHashDecidesRequest | apps/api/src/mcp/server.ts:229-239 | one diff hash means exactly one tool, the same arguments and the same normalised plan; missing warnings are no warnings |
| Plans.WithoutStaysPlain | apps/api/src/mcp/server.ts:226-227 | the arguments without their token are still an object that has each key once |
| Protocol.EveryExecutionWasConfirmed | apps/api/src/mcp/server.ts:222-314 | in every interleaved run each execution answers an earlier dry run of the same subject, tool and arguments, verified within 120 s of it, whose shown plan equals the plan re-derived; so no plan without changes is executed |
| Outcomes.AppliedIsExecuted | apps/api/src/mcp/server.ts:222-314 | in every interleaved run a call answers that it applied its plan exactly when the log holds an execution by it |
| Outcomes.BeginsAsAsked | apps/api/src/mcp/server.ts:222-227 | a call keeps its tool, its subject and every argument but the token, and has that token |
| Outcomes.PlannedOutcomes | apps/api/src/mcp/server.ts:229-296 | on the call's own fields, exactly when a resolved plan is nothing to do, shown, refused for want of a service, refused as no string or as malformed, or goes to verification |
| Outcomes.PlannedFields | apps/api/src/mcp/server.ts:229-290 | a dry run's row binds its own request, subject, tool and two-minute deadline; a confirmation verifies the token it was given against its own request |
| Outcomes.InsertedIsShown | apps/api/src/mcp/server.ts:255-275 | the inserted row ends the dry run with its token shown and logged |
| Outcomes.ResumedOutcomes | apps/api/src/mcp/server.ts:286-310 | a resumed call is refused for exactly the reason its answer is rejected for, and otherwise executes once and says so |
| Protocol.ExecutionsAreInjective | apps/api/src/mcp/server.ts:286-290 | two executions have different confirmation ids, and each was made by the first call to attempt its id |
| Protocol.ConfirmedCallRunsExactly | apps/api/src/mcp/server.ts:222-314 | from any reachable state, a dry run followed by its token executes exactly when the subject, the request and its plan are the same and two minutes have not passed |
| Protocol.DryRunShows | apps/api/src/mcp/server.ts:246-275 | a dry run whose plan changes something stores one fresh row for it, changes no other call and hands out its token |
| Protocol.AcceptedAnswers | apps/api/src/auth/confirmation.ts:154-179 | an accepted verification answers the dry run that wrote the row it was judged on |
| Protocol.RunKeepsInv | apps/api/src/auth/postgres.ts:156-207 | every step of every run keeps ids apart, attempts burned, hashes true, rows logged and executions answered |
| Protocol.AttemptsBurnForGood | apps/api/src/auth/postgres.ts:167-190 | once any UPDATE has run under an id, none ever wins it again, whatever expires or is issued meanwhile |
| Protocol.SqlStoreRefinesMemoryStore | apps/api/src/auth/postgres.ts:167-207 | the two-statement consume is linearizable: under every interleaving the answers that calls are told, in order, are those of the in-memory store run on the same operations in the order they take effect |
| Protocol.AtMostOneWins | apps/api/src/auth/postgres.ts:186-200 | in every run at most one call per id is ever told of a row not yet consumed, and none once any attempt on the id has been made |
| Protocol.EveryAnswerIsReplayed | apps/api/src/auth/confirmation.ts:154-179 | in every run, what a call is judged on when it resumes is the answer of its own consume in that replay, and the call executes exactly when it is accepted |
| Protocol.TellsWhatTookEffect | apps/api/src/auth/postgres.ts:186-200 | what one step tells its call is the answer of the consume that takes effect in that step, and no other step tells it anything |
| Protocol.EarlyPresentationIsNotConsumed | apps/api/src/auth/postgres.ts:182-200 | presented before its row exists, an id can be accepted and left unconsumed, by UPDATE, INSERT and SELECT in that order |
| RateLimit.RateLimiter.TakeToken | apps/api/src/auth/rate-limit.ts:71-96 | the new map and the decision are those of the specification |
| RateLimit.RateLimiter.SweepIdle | apps/api/src/auth/rate-limit.ts:98-103 | exactly the buckets idle for more than ten minutes go |
| RateLimit.SweptExactly | apps/api/src/auth/rate-limit.ts:98-103 | what stays is exactly what was touched in the last ten minutes, as it was |
| RateLimit.ShippedPoliciesRefill | apps/api/src/auth/rate-limit.ts:42-45 | both shipped policies hold a whole token and refill within the ten minutes after which a bucket may be swept |
| RateLimit.EveryWindowIsBounded | apps/api/src/auth/rate-limit.ts:71-103 | on every run of takes and sweeps and in every window, a key is admitted at most burst + rate x length times, and once more for each take of it that found the map full of other keys |
| RateLimit.WindowIsBounded | apps/api/src/auth/rate-limit.ts:71-103 | so a key that can be tracked whenever it is taken is admitted at most burst + rate x length times |
| RateLimit.AdmittedExactly | apps/api/src/auth/rate-limit.ts:71-96 | on every run a tracked key that started full is admitted exactly when that keeps every window up to now within burst + rate x length: nothing more is let through and nothing less |
| RateLimit.RoomTracksRun | apps/api/src/auth/rate-limit.ts:88-94 | with at most 10,000 keys in a run, every key of it is tracked throughout |
| RateLimit.UnseenKeyIsUnbounded | apps/api/src/auth/rate-limit.ts:88-93 | on a full map n takes of an unseen key at one instant are all admitted, for every n |
| RateLimit.NoBoundOnceFull | apps/api/src/auth/rate-limit.ts:65-95 | a run from the empty map fills it and then admits any key any number of times at one instant |
| RateLimit.BoundHoldsAmongOthersExactly | apps/api/src/auth/rate-limit.ts:71-96 | from any map within its cap, every run of takes of any keys keeps a key's bound in every window exactly when the key already has its bucket |
| RateLimit.SweptMapLosesBound | apps/api/src/auth/rate-limit.ts:71-103 | with sweeps too no map is safe: one sweep after ten idle minutes, ten thousand other keys, and a key is admitted any number of times |
| RateLimit.BoundHoldsExactly | apps/api/src/auth/rate-limit.ts:71-103 | every run of a key's own takes and sweeps keeps the bound in every window exactly when the key has its bucket or the map has room for one |
| RateLimit.SweepsAreTransparent | apps/api/src/auth/rate-limit.ts:98-103 | leaving every sweep out of a run leaves every decision as it was |
| RateLimit.RefusalsAreInvisible | apps/api/src/auth/rate-limit.ts:75-85 | leaving every refused take out of a run leaves every other decision as it was, as long as no take meets a full map; sweeps may let any number of keys pass through |
| RateLimit.RefusalsAreInvisibleWithRoom | apps/api/src/auth/rate-limit.ts:75-85 | in particular when the keys of the run fit the map at once |
| RateLimit.CapHoldsExactly | apps/api/src/auth/rate-limit.ts:81-94 | a take passes the cap exactly when the map is full, the key is new and the burst is under one |
| RateLimit.CapHoldsAlways | apps/api/src/auth/rate-limit.ts:65-95 | with the shipped kind of policy the map never passes 10,000 keys |
| RateLimit.OthersLeaveLevel | apps/api/src/auth/rate-limit.ts:75-79 | a run that does not take a key moves its level by the clock alone |
| RateLimit.RetryHintIsExact | apps/api/src/auth/rate-limit.ts:81-85 | a refused key is admitted if its next take comes the hinted seconds later, whatever others do meanwhile, and never a whole second or more before the hint |
| Authorizer.FreezeWithholds | apps/api/src/auth/write-switch.ts:45-51 | a freeze withholds no read and no admin scope: `write:sync` outward, every write of the vocabulary for all |
| Authorizer.ChangesDecideFreeze | apps/api/src/auth/write-switch.ts:105-128 | engaging in a mode freezes that mode's scopes, and releasing freezes none |
| Authorizer.OneCredentialNamesTheCaller | apps/api/src/auth/authorizer.ts:125-197 | a caller is named exactly when one credential is presented, assertion or bearer and never both, and it verifies; is whom verifying that one names; and each refusal says which of these fails |
| Authorizer.OriginIsCheckedExactly | packages/auth/src/origin.ts:69-85 | a state-changing request passes exactly when its origin, or for want of one its referer's, is allowed and is not `null`; any other request passes |
| Authorizer.ArrivesExactly | apps/api/src/auth/authorizer.ts:200-231 | a named agent always reaches the limiter, a named human exactly when the request changes nothing or comes from an allowed origin, and is forbidden otherwise |
| Authorizer.KeyIsInjective | apps/api/src/auth/authorizer.ts:234-239 | two requests share a bucket exactly when kind, subject and state-changing agree, whatever colons a subject holds |
| Authorizer.RequestAuthorizer.Authorize | apps/api/src/auth/authorizer.ts:200-281 | an unnamed request is refused as such, and a state-changing one of a human that no allowed origin sent is forbidden, and neither touches a bucket; any other is one take under its caller's key and the write or read policy, refused with the take's hint or answered by the frozen scopes |
| Authorizer.GrantsOnlySubtract | apps/api/src/auth/authorizer.ts:256-280 | a grant holds the caller's scopes less exactly the withheld ones, and a frozen scope is refused as locked |
| Authorizer.ReleaseIsNeverLocked | apps/api/src/auth/write-switch.ts:40-51 | no freeze takes `admin:settings` from a caller who holds it |
| Authorizer.FreezeStopsEveryReplica | apps/api/src/auth/authorizer.ts:257-268 | two seconds after a full freeze is the newest record, no replica grants a write whose read of the switch succeeded |
| Authorizer.EngageStopsEveryReplica | apps/api/src/auth/authorizer.ts:257-268 | over every run in which an `engage` of all writes lands, no replica grants a write on a successful read of the switch two seconds after, unless something newer was written; an outward one withholds `write:sync` |
| Authorizer.GrantsAreAccounted | apps/api/src/auth/authorizer.ts:233-255 | in every run one credential is granted at most 20 + 2 per second state-changing requests in any window and 120 + 20 per second others, and one more for each that found the limiter's map full of other keys |
| Authorizer.GrantsAreBounded | apps/api/src/auth/authorizer.ts:233-255 | so it keeps to that allowance while its own key can be tracked, whatever and however many other credentials come and go |
| Authorizer.GrantsAreBoundedWithRoom | apps/api/src/auth/authorizer.ts:233-255 | in particular when the keys of the run fit the map at once |
| WriteSwitch.AnswersAreFresh | apps/api/src/auth/write-switch.ts:83-129 | under any interleaving, a `current` whose read succeeded returns a record the store held less than 2 s before that call's clock sample, or later |
| WriteSwitch.ChangeReachesEveryReplica | apps/api/src/auth/write-switch.ts:83-129 | a record that stays newest is what every successful `current` returns from 2 s after it was written |
| WriteSwitch.ChangeLands | apps/api/src/auth/write-switch.ts:105-128 | whatever happens in between, the row a change writes is engaged exactly when the change is an `engage`, with its mode, actor, reason and the instant it began |
| WriteSwitch.ChangeIsCached | apps/api/src/auth/write-switch.ts:105-128 | and its own process then has that record cached, as of that instant |
| WriteSwitch.LandedChangeIsAnswered | apps/api/src/auth/write-switch.ts:83-129 | two seconds after it landed, with nothing newer, every successful `current` of any process says what the change said |
| WriteSwitch.FailedExactly | apps/api/src/auth/write-switch.ts:95-102 | in every run the answers that count as failed are exactly those of calls whose read failed |
| WriteSwitch.ReadGoesOn | apps/api/src/auth/write-switch.ts:83-94 | a `current` with nothing fresh cached can read its row, answers the newest record and caches it |
| WriteSwitch.ChangeGoesOn | apps/api/src/auth/write-switch.ts:105-128 | a change left alone writes its row once and caches it |
| WriteSwitch.FailedChangeIsOver | apps/api/src/auth/write-switch.ts:105-128 | a change that fails leaves store and caches as they are, and never writes after |
| WriteSwitch.CachedExactlyWhenLearned | apps/api/src/auth/write-switch.ts:83-127 | a process has a record cached exactly when it has completed a read or a change of the switch since it started |
| WriteSwitch.FailedReadIsLastKnown | apps/api/src/auth/write-switch.ts:95-102 | in every run a failed read answers released only in a process that has learned nothing since it started, and otherwise a record the store held at or after the clock sample of the read or change it has it from |
| WriteSwitch.BoundIsReached | apps/api/src/auth/write-switch.ts:69-94 | a run answers a record that left the store 1,999 ms before the call's clock sample, and asked a millisecond later the process reads the row: the staleness bound is the least there is |
| Tokens.CacheStaysValid | apps/api/src/auth/tokens.ts:127-146 | neither lookup nor insertion breaks the cache's order or takes it past 1,000 entries |
| Tokens.HitIsRecent | apps/api/src/auth/tokens.ts:127-135 | a hit is the entry under its key, at most a minute old; on a miss no entry is left there, and no other entry moves |
| Tokens.VerificationCache.Cached | apps/api/src/auth/tokens.ts:127-135 | there is a hit exactly when the key has an entry at most a minute old; otherwise no entry is left under it |
| Tokens.VerificationCache.RememberEntry | apps/api/src/auth/tokens.ts:137-146 | at the cap the oldest key goes first, then the entry is set, and the cache stays valid |
| Tokens.CacheIsInvisible | apps/api/src/auth/tokens.ts:193-228 | in every run, verification comes out as it would with no cache, on the row found and the clock sample taken, and the cache stays within 1,000 entries |
| Tokens.AcceptedExactly | apps/api/src/auth/tokens.ts:193-228 | in every run a token is accepted exactly when it parses, its row was found, the secret matches the stored hash, and the row is neither revoked nor expired at the clock sample; the principal is that row's |
| Tokens.RefusedExactly | apps/api/src/auth/tokens.ts:193-217 | in every run a verification is malformed, unknown, wrong in its secret, revoked or expired exactly when that is the first of these conditions to fail |
| Tokens.VerifyGoesOn | apps/api/src/auth/tokens.ts:193-228 | from any reachable state a verification can begin and come to the cacheless answer on the row there is now |
| Tokens.CreatedIsLive | apps/api/src/auth/memory-store.ts:36-42 | a token is created unrevoked and unused, with the hash and expiry it was minted with, and no other token moves |
| Tokens.RevocationIsImmediate | apps/api/src/auth/tokens.ts:212-216 | no verification whose lookup follows a revocation of its token succeeds |
| Tokens.TokenStore.RevokeToken | apps/api/src/auth/memory-store.ts:52-57 | the token is revoked, and the answer says whether it was there unrevoked |
| Tokens.TokenStore.RevokeAllTokens | apps/api/src/auth/memory-store.ts:59-67 | every token is revoked, and the count is how many were not |
| Tokens.RevokingRevokes | apps/api/src/auth/postgres.ts:136-150 | revoking changes a token exactly when it was unrevoked, leaves none it names unrevoked, and never moves an earlier revocation |
| Calendar.YearContains | apps/api/src/services/measure.ts:107 | `getUTCFullYear` is the one year whose days include the day (section 21.4.1 of ECMA-262) |
| Calendar.DaysOfMonth | apps/api/src/services/measure.ts:115 | the months have their 28 or 29, 30 and 31 days |
| Calendar.MonthContains | apps/api/src/services/measure.ts:115 | the month index of a day is the month it lies in, with year rollover |
| Calendar.StartContains | apps/api/src/services/measure.ts:104-120 | every instant lies in the calendar bucket that starts at its start |
| Calendar.StartIsUnique | apps/api/src/services/measure.ts:104-120 | and in no other |
| Calendar.EndIsStart | apps/api/src/services/measure.ts:128-131 | buckets tile time: each ends where the next starts, at least a week on |
| Calendar.BucketStartIsRightExactly | apps/api/src/services/measure.ts:104-120 | `bucketStart` finds an instant's bucket exactly outside the years 0 to 99 and the first days of time |
| Calendar.FirstTimeValueHasNoWeek | apps/api/src/services/measure.ts:105-112 | the first time value lies in a week that starts before time does, and `bucketStart` does not find it |
| Calendar.YearZeroIsNotFound | apps/api/src/services/measure.ts:104-120 | for the first instant of the year 0 neither its week nor its month is found |
| Calendar.NextCursorIsEnd | apps/api/src/services/measure.ts:128-131 | the cursor moves to the end of its bucket, and always forward by a week or more |
| Measure.BucketsBetween | apps/api/src/services/measure.ts:123-134 | terminates, and returns the chain of starts from the bucket of `from` up to the last not after `to` |
| Measure.BucketsAscend | apps/api/src/services/measure.ts:123-134 | the starts strictly increase |
| Measure.BucketsAreContiguous | apps/api/src/services/measure.ts:123-134 | each bucket ends where the next starts, and the last ends after `to` |
| Measure.BucketsCoverExactly | apps/api/src/services/measure.ts:123-134 | every instant of [from, to] has its bucket in the list exactly when none lies in a year from 0 to 99 and the first bucket does not start before time itself |
| Measure.BucketsConserve | apps/api/src/services/measure.ts:493-529 | when every entry of an area falls in a listed bucket, the area's buckets add up to all of them |
| Measure.KpiFromWeeks | apps/api/src/services/measure.ts:493-509 | each area's counts and minutes, bucket by bucket, are those of the rows in that bucket; Signals areas get no minutes |
| Measure.KpiFromMirror | apps/api/src/services/measure.ts:510-529 | the same of the completions in [from, to], with the default minutes where none were recorded |
| Measure.EntriesAreCompletions | apps/api/src/services/measure.ts:510-529 | the entries of a range are worth how many tasks of an area were completed in it, and their recorded minutes or the default, counted on the completions themselves |
| Measure.BucketEntriesAreCompletions | apps/api/src/services/measure.ts:510-529 | and those of one bucket are the completions of its part of the range |
| Measure.KindIsOfTheLast | apps/api/src/services/measure.ts:471 | the kind of an area is that of the last one listed with its key |
| Measure.MirrorConserves | apps/api/src/services/measure.ts:510-529 | each bucket of an area's series holds the completions of its part of [from, to], and their recorded or default minutes; the buckets add up to all of them; and a Signals area has no minutes |
| Measure.WeeksConserveByWeek | apps/api/src/services/measure.ts:483-509 | with weekly rows and weekly buckets no row is lost and none counted twice |
| Measure.WeeksConserveByMonth | apps/api/src/services/measure.ts:483-509 | with weekly rows and monthly buckets exactly the rows whose Monday precedes the first bucket are dropped |
| Watermark.SuppressUnchanged | packages/connectors/src/watermark.ts:69-87 | the batch is split by whether the known hash is the record's own, in order, and the changed hashes are merged over the known |
| Watermark.SplitIsComplete | packages/connectors/src/watermark.ts:69-87 | the two parts together hold every record of the batch once |
| Watermark.ChangedSufficesAt | packages/connectors/src/watermark.ts:69-87 | applying only the changed part leaves the mirror that applying the whole batch leaves |
| Watermark.MirroredAfter | packages/connectors/src/watermark.ts:75-86 | the stored hashes stay those of the mirrored content |
| Watermark.RerunChangesNothing | packages/connectors/src/watermark.ts:69-87 | the same batch again, with the hashes it left, changes nothing |
| Watermark.OverlapIsExact | packages/connectors/src/watermark.ts:20-35 | every edit made at or after a run's start is reported inside the next window, and 120 s is the least whole overlap for which that is so |
| Watermark.ShippedOverlapIsLeast | packages/connectors/src/watermark.ts:20-35 | the overlap the code uses is that least one, and a run is asked for what was edited from two minutes before the last one's start |
| Watermark.NoEditIsLost | packages/connectors/src/watermark.ts:30-47 | after any runs, failed ones among them, a successful run leaves every record as the tool held it at an instant not before that run's start |
| Migrations.PlanMigrations | packages/db/src/migrations.ts:111-156 | pending, skipped and problems are those of the specification, in order |
| Migrations.HighestIsHighest | packages/db/src/migrations.ts:130-133 | the loop finds an applied version that none is above |
| Migrations.PlanIsCleanExactly | packages/db/src/migrations.ts:111-156 | no problem exactly when the applied versions and checksums are those of a prefix of the shipped list; then the prefix is skipped and the rest is pending |
| Migrations.PlanExactly | packages/db/src/migrations.ts:111-156 | on any table: pending is, in order, what has no row; skipped what has its checksum; and there is a problem for each row not shipped, each row with another checksum, each migration without a row below an applied version, and nothing else |
| Migrations.Database.RunMigrations | packages/db/src/migrations.ts:205-266 | wherever the run stops, exactly the committed pending migrations are recorded and run, in order, and a refused or dry run does nothing |
| Migrations.PlanOnTable | packages/db/src/migrations.ts:191-223 | on a table in version order the plan is clean exactly on a checksum-exact prefix |
| Migrations.RunKeepsHistory | packages/db/src/migrations.ts:236-255 | one run, stopped anywhere, only appends, leaves a checksum-exact prefix of what it ships, and does not lower the schema version |
| Migrations.HistoryIsAppendOnly | packages/db/src/migrations.ts:205-274 | over any runs by any images the table is append-only and in order, and the schema version never falls |
| Migrations.RerunCompletes | packages/db/src/migrations.ts:198-266 | after a stop anywhere, a complete rerun brings the table and the version to what is shipped, and one more applies nothing |
| AdoptionQueue.QueueView | apps/api/src/services/adoption-queue.ts:115-169 | its items are a page of the candidates whose fields the filter shows and its total is their number; every when, source and area count is the total with that one value chosen instead; and every area with a match is listed, for candidates in areas whose keys are area keys |
| AdoptionQueue.MatchesIsShows | apps/api/src/services/adoption-queue.ts:71-112 | the filter shows exactly: undated without an end, ended with one before today, upcoming with a later start and no end before today, current otherwise; and the role or external kind, the area and the kind asked for |
| AdoptionQueue.EndedSelectionIsShown | apps/api/src/services/adoption-queue.ts:195-211 | the selection is what has an end before today, under the other filters, in order |
| AdoptionQueue.RealAreasAreRight | apps/api/src/dto/common.ts:37-41 | the pattern of an area key keeps the word `_none` free, so every count the area facet lists is the total its value would show |
| AdoptionQueue.PeriodsAddUp | apps/api/src/services/adoption-queue.ts:127-147 | all is open plus ended, and open is current plus upcoming plus undated, under any other filters |
| AdoptionQueue.AreasAreRightExactly | apps/api/src/services/adoption-queue.ts:87-90 | what the reserved word protects: the area facet is right exactly when no match is keyed `_none`, or as many are as have no area |
| AdoptionQueue.ReservedAreaIsNotShown | apps/api/src/services/adoption-queue.ts:43-90 | the input the pattern rules out: a candidate in an area keyed `_none` would be counted there and not shown |
| AdoptionQueue.PagesConcatenate | apps/api/src/services/adoption-queue.ts:165-167 | the first n pages are the first n x limit matches, so enough pages are every match once |
| AdoptionQueue.EndedCountIsTheFacet | apps/api/src/services/adoption-queue.ts:195-211 | the size of the ended selection is the Ended facet, whatever `when` the view was asked with |
| AdoptionQueue.EndedStaysEnded | apps/api/src/services/adoption-queue.ts:71-79 | a period that has ended has ended on every later day |
| AdoptionQueue.EndedOnlyGrows | apps/api/src/services/adoption-queue.ts:195-211 | what was selected on a day is selected on every later day, in the same order |
| AdoptionQueue.DigestNamesTheSet | apps/api/src/services/adoption-queue.ts:213-232 | two digests agree exactly when they are of the same candidates, each as often, in whatever order |
| UrlGuard.SplitUndoesJoin | packages/auth/src/url-guard.ts:51 | splitting a joined host gives back its parts |
| UrlGuard.RadixesAgree | packages/auth/src/url-guard.ts:54-64 | a number spelled in hexadecimal of either case, octal or decimal is read as that number from any of the three, and as none when it is not a safe integer |
| UrlGuard.Expand | packages/auth/src/url-guard.ts:66-74 | one to four numbers expand to the four big-endian bytes of the number they denote when the last fills the bytes the others leave, and to nothing when one is too large |
| UrlGuard.PartIsStrictExactly | packages/auth/src/url-guard.ts:54-64 | a part is read as inet_aton reads it exactly when it is not decimal digits behind a 0 with an 8 or a 9 among them, which it reads as decimal |
| UrlGuard.HostIsStrictExactly | packages/auth/src/url-guard.ts:49-75 | wherever inet_aton reads a number the guard reads the same one; they differ exactly on hosts with such a part that the guard reads as a number, and there inet_aton reads none |
| UrlGuard.MisspeltOctalIsRead | packages/auth/src/url-guard.ts:58-61 | the host `08` is 0.0.0.8 to the guard and nothing to inet_aton |
| UrlGuard.Ipv4Of | packages/auth/src/url-guard.ts:49-75 | the octets returned are the four big-endian bytes of the number inet_aton reads in the host; when it reads none nothing is returned, save for a host with a misspelt octal part |
| UrlGuard.OctetsAreBigEndian | packages/auth/src/url-guard.ts:66-74 | four bytes are the octets of their big-endian number and of no other |
| UrlGuard.PrivateIsListed | packages/auth/src/url-guard.ts:77-86 | the branches on the first two octets hold exactly on the eight CIDR blocks |
| UrlGuard.EverySpellingIsSeen | packages/auth/src/url-guard.ts:49-86 | in one to four parts of any radix, an address is refused as a literal exactly when it is in a listed block |
| UrlGuard.DottedNamesTheAddress | packages/auth/src/url-guard.ts:93-98 | a mapped dotted address is refused when it names none, and otherwise exactly on the listed blocks |
| UrlGuard.HextetsNameTheAddress | packages/auth/src/url-guard.ts:103-108 | a mapped hextet address is refused exactly on the listed blocks |
| UrlGuard.MappedSpellingsAgree | packages/auth/src/url-guard.ts:93-108 | one mapped address, dotted or in hextets, bracketed or not, one verdict (section 2.5.5.2 of RFC 4291) |
| UrlGuard.AllowedIsNeverListed | packages/auth/src/url-guard.ts:119-147 | no URL that is allowed has a host that denotes an address in a listed block: in one to four parts, or mapped into an IPv6 literal dotted or in hextets |
| UrlGuard.GuardExactly | packages/auth/src/url-guard.ts:119-147 | each refusal holds exactly when its condition on the URL's parts does and no earlier one does, the address one stated by the eight blocks; and a URL is allowed exactly when none does and its origin is listed |
| UrlGuard.FirstHextetDecides | packages/auth/src/url-guard.ts:88-92 | a literal that starts with a hextet, in either case and bracketed or not, is refused exactly when that hextet is in fc00::/7 or is fe80 |
| UrlGuard.RefusedStartsWithHextet | packages/auth/src/url-guard.ts:88-92 | a refused literal that does not start with a colon starts with a hextet of four digits |
| UrlGuard.MappedExactly | packages/auth/src/url-guard.ts:93-110 | a mapped literal is refused exactly when it is four decimal parts that name no address or a listed one, or two hextets that name a listed one |
| UrlGuard.LoopbackIsRefused | packages/auth/src/url-guard.ts:88-90 | `::` and `::1` are refused, bracketed or not |
| UrlGuard.OtherColonsAreNoLiterals | packages/auth/src/url-guard.ts:88-110 | nothing else that starts with a colon is refused, save for a mapped address |

## Left out

- WindowIsBounded: asks that the key can be tracked whenever it is taken; `EveryWindowIsBounded` is what holds of every run.
- GrantsAreBounded: asks the same of the credential's own key; `GrantsAreAccounted` is what holds of every run.
- SweepsAreTransparent: asks that the keys of the run fit the map at once, as a run without sweeps never frees any.
- AnswersAreFresh: bounds the answers of calls whose store read succeeded; a failed read keeps the last known record, however old (`FailedReadIsLastKnown`).
- Authenticate: the Bearer pattern and header trimming are taken as done, and origin and referer arrive parsed; each is one library call.
- Accumulate: the two KPI loops repeat the same lines for one entry, and the model writes them once.
- Protocol, WriteSwitch and Tokens: transition systems over values and not classes, because the awaits of one call interleave with every other; aliasing of in-memory records across calls is not modelled.
- Lower: ASCII only; no other letter lower-cases to a character the IPv6 patterns mention.
- Day labels: `dayText` keys a bucket by its day; the model keys it by the instant it starts at, which is that day's midnight.
- Cryptography: Argon2, SHA-256, JOSE signatures and constant-time comparison; each is an abstract function.
- `canonicalize` on dates, maps, sets, big integers, functions and symbols, and `canonical` on anything that is not JSON.
- HTTP, JSON-RPC framing, Zod schemas and the read tools: parsing and plumbing, one branch each.
- `requirementFor` and `tools/list`: each is one lookup and one scope test.
- Token minting: its checks are each one comparison.
- The ranked order of the source and area facet lists, which rests on `localeCompare`.
- `observedCapacity`, `observationsFromWeeks`, `measurementWindow`, ritual adherence and the Run series: sums and dates that add only easier members.
- The reconciler's planner and `apply`, scoring and scheduling, and time-zone formatting: not part of this model.
- Malformed URLs: the guard starts from a parsed URL.
