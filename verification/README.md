# Verified model of the backend's authentication core

The backend signs users in with passwords or OpenID Connect, limits attempts, keeps sessions, roles and an audit
trail, and pages through sample items. This project models the stateful protocols behind that and proves what
they promise over every run, every interleaving or every input.

| file | what it models |
|---|---|
| `Basics.dfy` | what several modules share |
| `RateLimitLog.dfy` | the meaning of a rate-limit scope: the log of uncleared events, counted in a window |
| `RateLimitRuns.dfy` | runs of the limiter's eight operations and the verdicts that five such logs give |
| `RateLimitVerdicts.dfy` | the same verdicts by the operations' own fields, without keys or logs |
| `MemoryRateLimiter.dfy` | the in-memory limiter: ordered maps of timestamp queues, trimmed in place, evicted from the head |
| `RedisSlidingWindow.dfy` | the Redis limiter as interleaved steps: TIME, one ZCOUNT a key, MULTI, expiry, cut-off |
| `RateLimitAgreement.dfy` | both limiters on the same run of operations |
| `RateLimitAdmission.dfy` | how many OIDC starts each limiter lets through when checks and records overlap |
| `CircuitBreaker.dfy` | the breaker of the Redis limiter and its warnings |
| `AuthDatabase.dfy`, `AuthTransactions.dfy` | the auth tables, their invariants, and every transaction as a function on them |
| `AuthPromises.dfy` | what each transaction promises, by rows and fields: for whom it goes through, what changes, what does not |
| `AuthRepository.dfy`, `AuthUsecases.dfy` | the repositories and use cases as classes that change the tables step by step |
| `AuthSystem.dfy`, `AuthHistory.dfy`, `AuthOrigins.dfy`, `AuthDeletionAge.dfy` | all requests and commands interleaving; what every run keeps, what its history shows, and which step brought what |
| `SessionExpiry.dfy` | session lifetimes with skipped touches and millisecond storage |
| `ReplayAudit.dfy` | the audit rows of rejected-session replays |
| `SampleItemPages.dfy` | keyset pagination under inserts and deletes |
| `TextReplace.dfy`, `AdminSearch.dfy`, `JsonPointer.dfy` | escaping for SQL LIKE and for JSON Pointer (RFC 6901) |
| `OidcMetadataCache.dfy` | the discovery and JWKS caches with forced refresh |
| `UnitOfWork.dfy` | nested transaction blocks, failing writes, raised errors and handlers |

Every method of a class is proved against a function of its inputs and the old state. What those functions promise is
proved apart from them, by rows and fields, and for runs by what the operations of the run say. Assumptions: the limiters' and the cache's clocks do not go back; ids and tokens are new
when drawn and hashes are injective; a transaction is one step (serializable), and a lone repository call is a transaction of its own;
settings stay fixed during a run. The limiters use real-valued time. Database times are whole microseconds, cut to
milliseconds when stored and when a query compares with them
(`backend/app/libraries/sqlalchemy_types.py:32-43`).

What a request has read (a user whose password was checked, a session at logout, a context, an accepted callback) can be used by a
later step at any time and any number of times, so every delay and every stale read is covered.

## Findings

| what the code does | source | shown by |
|---|---|---|
| The freshness of an authentication is checked before the deletion's own time is read: at the deletion the limit is kept exactly when no more time has passed than the check left, and every larger age within the delay occurs | backend/app/usecases/account_deletion_usecase.py:89-103 | `AuthDeletionAge.AgeAtDeletion`, `AuthDeletionAge.DeletionCanComeLate` |
| A callback under the wrong provider consumes the state all the same; it can never be accepted afterwards | backend/app/usecases/oauth_oidc_usecase.py:283-296 | `AuthUsecases.AuthUsecase.ConsumeCallbackState`, `AuthHistory.SpentIsForGood` |
| A check and its record are separate, so k starts under way together can exceed the limit by k - 1, and no more | backend/app/usecases/oauth_oidc_usecase.py:91-131 | `RateLimitAdmission.StartsPerWindow`, `RateLimitAdmission.BoundIsReachedOnRedis` |
| A colon can make one rate-limit bucket of two pairs of address and e-mail: exactly when one address goes on with a colon where the other ends and the e-mails make up for it, so never when no e-mail has a colon | backend/app/libraries/auth_rate_limiter.py:232-233 | `RateLimitVerdicts.PairKeysAgree`, `RateLimitVerdicts.ColonsConfuse`, `RateLimitVerdicts.ColonConfusesVerdict` |
| A block in which a write failed commits nothing, even when the failure was handled inside it | backend/app/services/unit_of_work.py:44-50 | `UnitOfWork.BrokenBlockCommitsNothing` |
| A minute is kept between any three JWKS loads but not between any two: exactly a forced refresh within a minute of a successful load comes sooner | backend/app/services/oidc_provider_client.py:265-313 | `OidcMetadataCache.CloseLoadCondition`, `OidcMetadataCache.TwoLoadsCanBeClose` |
| Two branches of a request's authentication, a missing and a deleted user, are never taken by an active session | backend/app/usecases/auth_usecase.py:315-332 | `AuthSystem.ActiveSessionsHaveUsers` |
| A LIKE escape character that is itself a wildcard breaks the escaping; the backslash in use does not | backend/app/models/admin_query.py:13-17 | `AdminSearch.EscapeCharacterCondition`, `AdminSearch.WildcardEscapeFails` |

## Model

| member | source | states |
|---|---|---|
| RateLimitLog.ClearCounts | backend/app/libraries/auth_rate_limiter.py:111-112 | a success forgets exactly the events of its key |
| RateLimitLog.DroppedExactly | backend/app/libraries/auth_rate_limiter.py:185-204 | a record is dropped if and only if its key has no event in the window and at least as many keys as the cap have one |
| RateLimitRuns.NoDropMeansFullVerdicts | backend/app/libraries/auth_rate_limiter.py:185-204 | when no record of a run of operations is dropped in any scope, every verdict is the one of the full event logs |
| RateLimitRuns.DropsOnlyAdmit | backend/app/libraries/auth_rate_limiter.py:197-204 | the cap can let a request through, never turn one away: what the full logs allow is allowed |
| RateLimitVerdicts.PairKeysAgree | backend/app/libraries/auth_rate_limiter.py:232-233 | the joined key of address and e-mail tells two pairs apart, except exactly those that a colon confuses |
| RateLimitVerdicts.ColonsConfuse | backend/app/libraries/auth_rate_limiter.py:232-233 | which takes a colon in an e-mail |
| RateLimitVerdicts.ColonConfusesVerdict | backend/app/libraries/redis_login_rate_limiter.py:250-251 | an input on which such a colon turns away a pair that had no failure |
| RateLimitVerdicts.PairCountIsTaken | backend/app/libraries/auth_rate_limiter.py:80-112 | on every run the pair scope counts the failures in the window of the pairs taken for this one, since the latest success of one of them |
| RateLimitVerdicts.PairCountIsFailures | backend/app/libraries/auth_rate_limiter.py:80-112 | where no colon confuses: the failures of this e-mail from this address, since their latest success together, and no other's |
| RateLimitVerdicts.EmailCountIsFailures | backend/app/libraries/auth_rate_limiter.py:80-109 | the e-mail scope counts the login failures of this e-mail from all addresses, and no deletion failure |
| RateLimitVerdicts.VerdictIsPromised | backend/app/libraries/auth_rate_limiter.py:41-144 | each of the four verdicts compares the run's own failures, registrations or starts in the right window with the right limit |
| RateLimitVerdicts.VerdictsArePromised | backend/app/libraries/auth_rate_limiter.py:41-144 | so do all verdicts of every run without confused pairs |
| MemoryRateLimiter.Trim | backend/app/libraries/auth_rate_limiter.py:206-208 | trimming keeps every count at or after the window start, and what is left is exactly the live events |
| MemoryRateLimiter.BucketMap.GetExistingBucket | backend/app/libraries/auth_rate_limiter.py:169-183 | the returned queue has as many entries as the log has live events of the key; the log is untouched |
| MemoryRateLimiter.BucketMap.EvictExpiredBuckets | backend/app/libraries/auth_rate_limiter.py:210-222 | afterwards there is room or every queue is live, so stopping at the first live head is exact; the loop ends by map size |
| MemoryRateLimiter.BucketMap.GetOrCreateBucket | backend/app/libraries/auth_rate_limiter.py:185-204 | a bucket is refused exactly when the key is not live and as many other keys as the cap are live |
| MemoryRateLimiter.BucketMap.Record | backend/app/libraries/auth_rate_limiter.py:94-109 | the log becomes the capped log of the record; the map stays ordered by last event and within the cap |
| MemoryRateLimiter.BucketMap.Pop | backend/app/libraries/auth_rate_limiter.py:111-112 | map and log forget the key together |
| MemoryRateLimiter.HeadLiveMeansAllLive | backend/app/libraries/auth_rate_limiter.py:216-222 | with the map in last-event order, a live head means every queue is live |
| MemoryRateLimiter.AppendedIsConsistent | backend/app/libraries/auth_rate_limiter.py:193-204 | appending the time and moving the key to the end keep map order equal to last-event order |
| MemoryRateLimiter.AfterTrimIsConsistent | backend/app/libraries/auth_rate_limiter.py:176-183 | trimming or deleting one queue changes no later answer |
| MemoryRateLimiter.LiveKeysFit | backend/app/libraries/auth_rate_limiter.py:197-204 | live keys never outnumber the map; when all queues are live they are the map's keys |
| MemoryRateLimiter.InMemoryLoginRateLimiter.IsAllowed | backend/app/libraries/auth_rate_limiter.py:41-60 | the verdict is that of three event logs filtered by the window, under the joined key, the address and the e-mail, and no log changes |
| MemoryRateLimiter.InMemoryLoginRateLimiter.IsAccountDeletionReauthAllowed | backend/app/libraries/auth_rate_limiter.py:62-78 | the verdict is that of the pair and the address logs |
| MemoryRateLimiter.InMemoryLoginRateLimiter.RecordFailure | backend/app/libraries/auth_rate_limiter.py:80-109 | each log gets the failure, up to its cap; the e-mail log only when asked |
| MemoryRateLimiter.InMemoryLoginRateLimiter.RecordSuccess | backend/app/libraries/auth_rate_limiter.py:111-112 | only the pair's events are cleared |
| MemoryRateLimiter.InMemoryLoginRateLimiter.IsRegistrationAllowed | backend/app/libraries/auth_rate_limiter.py:114-122 | the verdict is that of the registration log in its own window |
| MemoryRateLimiter.InMemoryLoginRateLimiter.RecordRegistration | backend/app/libraries/auth_rate_limiter.py:124-134 | the registration log gets the event, up to its cap |
| MemoryRateLimiter.InMemoryLoginRateLimiter.IsOidcAuthorizationAllowed | backend/app/libraries/auth_rate_limiter.py:136-144 | the verdict is that of the OIDC-start log |
| MemoryRateLimiter.InMemoryLoginRateLimiter.RecordOidcAuthorization | backend/app/libraries/auth_rate_limiter.py:146-156 | the OIDC-start log gets the event, up to its cap |
| RedisSlidingWindow.CountsAreBounded | backend/app/libraries/redis_login_rate_limiter.py:226-232 | after any interleaving a count is at least the uncleared events in the window when ZCOUNT runs and at most those in the window at TIME |
| RedisSlidingWindow.AtomicCountIsExact | backend/app/libraries/redis_login_rate_limiter.py:226-232 | with no time in between, the count is exact |
| RedisSlidingWindow.LiveEventsChangeExactly | backend/app/libraries/redis_login_rate_limiter.py:226-244 | in every reachable state a step changes the live events of a key exactly: a record adds its score once for each time it names the key, a success clears its key, and no trimming, expiry or other step changes any |
| RedisSlidingWindow.ExpiredHoldsNothingLive | backend/app/libraries/redis_login_rate_limiter.py:238-243 | a set past its TTL of window + 1 seconds holds nothing that is still in the window |
| RedisSlidingWindow.RunIsConsistent | backend/app/libraries/redis_login_rate_limiter.py:226-248 | on every schedule each stored set answers live counts as the log does and never counts more |
| RateLimitAgreement.LimitersAgree | backend/app/libraries/redis_login_rate_limiter.py:171-244 | on every run of the eight operations the Redis verdicts, multi-key and in their own windows, are those of the full event logs, and those promised by the operations' fields where no colon confuses; without drops the capped verdicts are the same |
| RateLimitAgreement.MemoryVerdicts | backend/app/libraries/auth_rate_limiter.py:41-156 | a whole run on the limiter class, five scopes and two windows, gives the verdicts of the capped logs; when nothing was dropped, those of Redis, and those promised by the operations' fields where no colon confuses |
| RateLimitAgreement.BucketKeyIsInjective | backend/app/libraries/redis_login_rate_limiter.py:250-255 | different scopes or keys have different buckets |
| RateLimitAdmission.StartsPerWindow | backend/app/usecases/oauth_oidc_usecase.py:91-131 | on every schedule of the Redis limiter, with at most k starts between check and record, every closed window holds at most max + k - 1 recorded starts, however late a record runs; the limiter's own count decides each check |
| RateLimitAdmission.StartsInMemory | backend/app/libraries/auth_rate_limiter.py:136-156 | the same bound on every run of the in-memory limiter's own map |
| RateLimitAdmission.AnswerTellsEnough | backend/app/libraries/redis_login_rate_limiter.py:219-232 | a check is told at least the starts in the window when its ZCOUNT runs |
| RateLimitAdmission.RecordingKeepsRoom | backend/app/usecases/oauth_oidc_usecase.py:113-131 | a start recorded at a time read after its check was already counted in every window it falls in |
| RateLimitAdmission.BoundIsReachedOnRedis | backend/app/usecases/oauth_oidc_usecase.py:91-131 | for every max and k some schedule of the Redis limiter has max + k - 1 starts at one instant |
| RateLimitAdmission.BoundIsReached | backend/app/libraries/auth_rate_limiter.py:136-156 | so has some run of the in-memory limiter |
| CircuitBreaker.Breaker.CircuitIsOpen | backend/app/libraries/redis_login_rate_limiter.py:302-309 | open if and only if it opened less than a cooldown ago; otherwise it closes; the failure count stays |
| CircuitBreaker.Breaker.Start | backend/app/libraries/redis_login_rate_limiter.py:279-281 | a call goes through if and only if the breaker did not open less than a cooldown ago; one that does not writes no warning |
| CircuitBreaker.Breaker.End | backend/app/libraries/redis_login_rate_limiter.py:282-294 | a success resets, an exhausted pool changes nothing, a failure counts and at the threshold (re)opens; non-pool warnings equal counted failures |
| CircuitBreaker.Breaker.MarkFailure | backend/app/libraries/redis_login_rate_limiter.py:311-316 | one more failure and one more warning; at the threshold the circuit (re)opens |
| CircuitBreaker.Breaker.MarkSuccess | backend/app/libraries/redis_login_rate_limiter.py:318-321 | the breaker is as new |
| CircuitBreaker.Breaker.LogUnavailable | backend/app/libraries/redis_login_rate_limiter.py:323-328 | one warning unless the circuit is open and was warned about |
| CircuitBreaker.Breaker.LogPoolExhaustion | backend/app/libraries/redis_login_rate_limiter.py:330-337 | pool warnings are at least the interval apart, and one was written within the interval |
| CircuitBreaker.Goings | backend/app/libraries/redis_login_rate_limiter.py:274-321 | on every interleaving of starts and ends a call is short-circuited if and only if the failures since the latest success met the threshold and the latest of them is less than a cooldown ago; so the breaker recovers |
| CircuitBreaker.FailuresAreSpaced | backend/app/libraries/redis_login_rate_limiter.py:302-316 | beyond the failures that open the breaker each failed call costs a cooldown, also when calls that find the pool exhausted close it in between |
| CircuitBreaker.OutageCost | backend/app/libraries/redis_login_rate_limiter.py:274-328 | a sequential outage of length D, in any mix of failures and exhausted pools, costs at most threshold + floor(D / cooldown) failed calls, whatever the state before |
| AuthPromises.RequestGoesThrough | backend/app/usecases/auth_usecase.py:301-368 | a request is let in if and only if its session is unrevoked and unexpired and its user exists, is not deleted and is active |
| AuthPromises.RequestTouchesItsSession | backend/app/usecases/auth_usecase.py:343-361 | it changes the times of its own session and nothing else |
| AuthPromises.RefusedUserIsSignedOut | backend/app/usecases/auth_usecase.py:324-341 | a deleted or inactive user ends with no unrevoked session; other users' sessions stay |
| AuthPromises.SessionIsReplaced | backend/app/libraries/auth_session_issuer.py:23-51 | the new session is its user's, unrevoked, with the earlier expiry; of the others exactly the browser's active one is revoked |
| AuthPromises.LoginLetsIn | backend/app/usecases/auth_usecase.py:262-280 | a login goes through unless its user is gone or deleted, and its session lets an active user in exactly until the earlier limit |
| AuthPromises.RegistrationCreates | backend/app/usecases/auth_usecase.py:156-179 | refused exactly when a live user has the address; the new user has what was given and is active |
| AuthPromises.LogoutShutsOut | backend/app/usecases/auth_usecase.py:412-435 | the session is revoked and lets no later request in; no other session changes |
| AuthPromises.SignInGoesThrough | backend/app/usecases/oauth_oidc_usecase.py:371-416 | a known identity signs in if and only if its user is live and active; an unknown one if and only if the provider is trusted with addresses and the claims carry a verified, nonempty one, whose live holder is active and linked automatically, or which nobody has and the provider provisions |
| AuthPromises.SignInLinks | backend/app/usecases/oauth_oidc_usecase.py:371-416 | a new identity is linked to a live, active user with exactly the vouched address, and nothing else changes; a known one changes nothing |
| AuthPromises.ReauthRecords | backend/app/services/auth_repository.py:274-287 | the provider's authentication time is put on that session alone |
| AuthPromises.DeletionTakesItsOwn | backend/app/usecases/account_deletion_usecase.py:105-116 | the deleted user is left with no session, identity or role, and nobody else loses any |
| AuthPromises.UpdateChangesWhatIsGiven | backend/app/services/admin_user_repository.py:82-120 | refused for a user that is gone and for another live user's address; exactly the given fields change |
| AuthPromises.UpdateSignsOut | backend/app/usecases/admin_user_usecase.py:151-180 | a new password or a deactivation ends all the user's sessions and nobody else's; any other update ends none |
| AuthPromises.UpdateGivesRoles | backend/app/usecases/admin_user_usecase.py:151-180 | only given roles change, to exactly those |
| AuthPromises.AdminCreates | backend/app/usecases/admin_user_usecase.py:87-113 | refused exactly when a live user has the address; the new user has what was given and exactly the given roles |
| AuthPromises.SeedMakesAdministrator | backend/manage.py:327-366 | afterwards a live, active user has the address, the password and the role; other users and roles stay |
| AuthPromises.GrantAdds | backend/manage.py:278-304 | refused exactly when no live user has the address; one role is added and none taken away |
| AuthPromises.RolesAreReplaced | backend/app/usecases/authorization_usecase.py:62-91 | refused exactly for a user that is not live; its roles become those given and nobody else's change |
| AuthPromises.PruningSparesActive | backend/app/services/auth_repository.py:336-341 | a session goes if and only if it expired before the given time, so pruning ends no active one |
| AuthPromises.PruningSparesPending | backend/app/services/auth_repository.py:385-391 | a state goes if and only if it expired or was consumed before the given time |
| AuthPromises.PruningKeepsKnownRoles | backend/manage.py:237-256 | exactly the rows with a known code stay; no known code is an error |
| AuthSystem.StepKeepsTables | backend/app/services/auth_repository.py:235-334 | every transaction, from any safe tables, leaves them safe, and the audit trail right unless it prunes it |
| AuthSystem.RunKeepsTables | backend/app/services/auth_repository.py:235-334 | the same over every interleaving |
| AuthSystem.DeletedUsersHaveNothing | backend/app/usecases/account_deletion_usecase.py:92-103 | in every reachable state a deleted user has no unrevoked session, no identity and no role, even if a login looked it up before |
| AuthSystem.OneDeletionRowEach | backend/app/services/auth_repository.py:289-323 | while audit rows are not pruned, a user has exactly one deletion row if deleted and none otherwise |
| AuthSystem.TrailGivesRoles | backend/app/usecases/authorization_usecase.py:62-91 | while audit rows are not pruned, folding a live user's grants and revocations gives its stored roles, across the API, the grant, prune and seed commands |
| AuthSystem.SessionsExpireOnTime | backend/app/libraries/auth_session_issuer.py:11-20 | every stored session expires at the earlier of issued + absolute TTL and last seen + idle TTL |
| AuthSystem.ActiveSessionsHaveUsers | backend/app/usecases/auth_usecase.py:313-332 | an active session's user exists and is not deleted, so two rejection branches never run |
| AuthSystem.AddressesAreUnique | backend/app/services/auth_repository.py:75-103 | no two users that are not deleted share an address, so a lookup has one answer |
| AuthHistory.EachStateIsAcceptedOnce | backend/app/services/auth_repository.py:357-391 | over every run with pruning, no OIDC state is accepted twice, by success or error callback |
| AuthHistory.AcceptanceAnswersItsStart | backend/app/usecases/oauth_oidc_usecase.py:271-296 | each acceptance follows a start with the same provider and browser binding, strictly before its expiry, and carries the verifier of the challenge that was sent |
| AuthHistory.SpentIsForGood | backend/app/usecases/oauth_oidc_usecase.py:283-296 | a state consumed once, even under the wrong provider, or pruned, is never accepted in any continuation |
| AuthHistory.StepKeepsOidc | backend/app/services/auth_repository.py:357-391 | every step keeps: stored states are their starts, accepted states are spent, no state accepted twice |
| AuthHistory.DeletionNeedsFreshAuthentication | backend/app/usecases/account_deletion_usecase.py:89-116 | a deletion without a password implies an accepted callback that recorded, on that session, the authentication time the check saw, within the limit at the check, for an identity linked to the user, with the nonce of that start |
| AuthDeletionAge.AgeAtDeletion | backend/app/usecases/account_deletion_usecase.py:89-116 | at the deletion the authentication is within the limit if and only if the time since the check is within what the check left; it never exceeds the limit by more than that time |
| AuthDeletionAge.DeletionCanComeLate | backend/app/usecases/account_deletion_usecase.py:89-103 | that bound is reached, for all valid settings and every delay, by a concrete run |
| AuthHistory.StepKeepsReauth | backend/app/usecases/oauth_oidc_usecase.py:428-452 | every authentication time on a session or in a request's context has a record behind it, backed by an accepted callback |
| AuthHistory.OidcLoginLeaves | backend/app/usecases/oauth_oidc_usecase.py:310-332 | a sign-in links at most its own identity and puts the claimed time on its own session only |
| AuthOrigins.LinksAreVouchedFor | backend/app/usecases/oauth_oidc_usecase.py:371-416 | on every run, each identity ever linked to a user was linked by a sign-in whose good token, answering an accepted callback, vouched for the very address that the active user had then |
| AuthOrigins.ContextsWereEarned | backend/app/usecases/auth_usecase.py:301-368 | on every run, each context was given to a request whose session was good and whose user was then undeleted and active, and shows both as they were |
| AuthOrigins.ApprovalsWereEarned | backend/app/usecases/account_deletion_usecase.py:66-103 | on every run, each approved deletion was asked for in a context whose password was shown, or which has a fresh provider authentication if it has none |
| AuthOrigins.DeletionsWereAskedFor | backend/app/usecases/account_deletion_usecase.py:105-116 | on every run, each deleted user was deleted by its own approved request or by an administrator |
| AuthOrigins.LookupsWereEarned | backend/app/usecases/oauth_oidc_usecase.py:428-452 | on every run, each reauthentication that may be recorded passed every check: callback, user, session, identity, nonce, token times and freshness |
| AuthOrigins.AcceptancesWereStarted | backend/app/usecases/oauth_oidc_usecase.py:113-130 | on every run, each accepted callback got the state that one start stored, with its purpose, user, session, secrets and expiry |
| AuthOrigins.SessionsWereEarned | backend/app/usecases/auth_usecase.py:213-280 | on every run, each session was issued by a registration, by a login after the active user's password was shown, or by a sign-in of a linked identity with a good token |
| AuthOrigins.StoredSessionsAreOwned | backend/app/libraries/auth_session_issuer.py:38-51 | on every run, each stored session is that user's |
| AuthOrigins.EndedIsForGood | backend/app/services/auth_repository.py:210-217 | a session signed out, revoked or pruned lets no request in, in any continuation |
| AuthTransactions.LoginKeeps | backend/app/usecases/auth_usecase.py:262-280 | a login that goes through keeps the tables safe and the trail right |
| AuthTransactions.RegisterKeeps | backend/app/usecases/auth_usecase.py:156-179 | so does a registration |
| AuthTransactions.AuthenticateKeeps | backend/app/usecases/auth_usecase.py:302-368 | so does every request; an active session always has a live user |
| AuthTransactions.OidcLoginKeeps | backend/app/usecases/oauth_oidc_usecase.py:310-353 | so does an OIDC sign-in, whether it finds, links or provisions the user |
| AuthTransactions.ResolveLoginKeeps | backend/app/usecases/oauth_oidc_usecase.py:371-416 | resolving ends with a live user to whom the identity is linked |
| AuthTransactions.DeleteUserKeeps | backend/app/usecases/admin_user_usecase.py:194-217 | a deletion leaves nothing live, and one more deletion row only the first time |
| AuthTransactions.ReplaceRolesKeeps | backend/app/services/authorization_repository.py:56-94 | whatever roles are given, the rows written bring the trail to exactly those roles |
| AuthTransactions.AdminCreateKeeps | backend/app/usecases/admin_user_usecase.py:87-113 | creating a user with roles keeps the trail right |
| AuthTransactions.AdminUpdateKeeps | backend/app/usecases/admin_user_usecase.py:151-180 | so does an update with new address, password, activity or roles |
| AuthTransactions.GrantKeeps | backend/manage.py:278-304 | the command-line grant, which logs grants only, keeps the trail right |
| AuthTransactions.SeedAdminKeeps | backend/manage.py:327-366 | so does the seed command, for a new and for an existing administrator |
| AuthTransactions.PruneRolesKeeps | backend/manage.py:237-256 | pruning unknown codes logs exactly the rows it deletes |
| AuthDatabase.GrantsAreRead | backend/app/usecases/authorization_usecase.py:71-80 | grant rows, read back, add exactly their codes to their user's roles |
| AuthDatabase.RevocationsAreRead | backend/app/usecases/authorization_usecase.py:81-90 | revocation rows, read back, remove exactly their codes |
| AuthRepository.AuthTables.FindUserByEmail | backend/app/services/auth_repository.py:75-82 | the one user that is not deleted and has the address, or none |
| AuthRepository.AuthTables.CreateUser | backend/app/services/auth_repository.py:40-56 | refused exactly when a user that is not deleted has the address; otherwise one row is added |
| AuthRepository.AuthTables.UpdateUser | backend/app/services/admin_user_repository.py:82-120 | refused for a missing user and for another's address; otherwise only the given fields change |
| AuthRepository.AuthTables.FindActiveSessionByTokenHash | backend/app/services/auth_repository.py:178-187 | an unrevoked, unexpired session with the token, or none exists |
| AuthRepository.AuthTables.ReplaceAuthSession | backend/app/libraries/auth_session_issuer.py:23-51 | the browser's active session is revoked and a new one added with the computed expiry |
| AuthRepository.AuthTables.ConsumeOidcAuthorizationState | backend/app/services/auth_repository.py:357-383 | the five outcomes, each by the fields of the row; only the consumed one changes it |
| AuthRepository.AuthTables.ReplaceUserRoles | backend/app/services/authorization_repository.py:56-94 | the user's roles become exactly the target set; granted and revoked are the two differences, each code once |
| AuthRepository.AuthTables.DeleteUnknownRoleAssignments | backend/app/services/authorization_repository.py:46-54 | exactly the rows with unknown codes go; no known code is an error |
| AuthRepository.AuthTables.ListUnknownRoleAssignments | backend/app/services/authorization_repository.py:32-44 | those rows, each once |
| AuthRepository.RevokingTheOne | backend/app/libraries/auth_session_issuer.py:31-35 | with unique tokens, revoking the session found revokes every active session of the token |
| AuthRepository.RemovedAndAdded | backend/app/services/authorization_repository.py:67-83 | deleting the revoked rows and inserting the granted ones gives exactly the target roles |
| AuthUsecases.AuthUsecase.Register | backend/app/usecases/auth_usecase.py:156-179 | the method is the registration step, all or nothing |
| AuthUsecases.AuthUsecase.CheckPassword | backend/app/usecases/auth_usecase.py:230-260 | a user is found if and only if it is live and active, has the address and has a password, which was shown; otherwise the failure is logged |
| AuthUsecases.AuthUsecase.Login | backend/app/usecases/auth_usecase.py:262-280 | the method is the login step, refused for a user deleted since the lookup |
| AuthUsecases.AuthUsecase.AuthenticateSession | backend/app/usecases/auth_usecase.py:301-368 | a context is given if and only if a session with the token is unrevoked, unexpired and of an undeleted, active user; a refused user is signed out everywhere; for a known token without an active session at most the replay row is written |
| AuthUsecases.AuthUsecase.ConsumeCallbackState | backend/app/usecases/oauth_oidc_usecase.py:271-296 | a state is returned if and only if it is stored, unconsumed and unexpired and of this browser and provider; a wrong provider still consumes it |
| AuthUsecases.AuthUsecase.ResolveLoginUserAndIdentity | backend/app/usecases/oauth_oidc_usecase.py:371-416 | who signs in, by the fields of provider, claims and tables, in both directions; the user is live, active, linked, and has the vouched address if the identity is new; a refusal changes nothing |
| AuthUsecases.AuthUsecase.CompleteLoginCallback | backend/app/usecases/oauth_oidc_usecase.py:310-353 | the method is the OIDC sign-in step with its setup and success rows, or changes nothing; the new session is the live, active user's, whose address the claims vouch for if the identity is new |
| AuthUsecases.AuthUsecase.StartAuthorization | backend/app/usecases/oauth_oidc_usecase.py:113-130 | the stored state has the purpose, the secrets, the request's user and session and the expiry, and belongs to what leaves for browser and provider; a reauthentication without a session is refused |
| AuthUsecases.AuthUsecase.CompleteReauthCallback | backend/app/usecases/oauth_oidc_usecase.py:428-462 | goes through if and only if the session is the expected one, the identity is the user's and the authentication time is given and fresh; only then that session gets it |
| AuthUsecases.AuthUsecase.DeleteAccount | backend/app/usecases/account_deletion_usecase.py:66-116 | goes through if and only if the user exists and the password was shown or, without one, the session's authentication is fresh; then the user is deleted and signed out everywhere |
| AuthUsecases.AuthUsecase.DeleteUser | backend/app/usecases/admin_user_usecase.py:194-217 | the method is the deletion step, all or nothing |
| AuthUsecases.AuthUsecase.ReplaceRolesWithAudit | backend/app/usecases/admin_user_usecase.py:238-282 | roles replaced and one audit row for each code granted and each code revoked |
| AuthUsecases.AuthUsecase.ReplaceUserRoles | backend/app/usecases/authorization_usecase.py:62-91 | the method is that command's step |
| AuthUsecases.AuthUsecase.AdminCreateUser | backend/app/usecases/admin_user_usecase.py:87-113 | the method is that command's step |
| AuthUsecases.AuthUsecase.AdminUpdateUser | backend/app/usecases/admin_user_usecase.py:151-180 | the method is that command's step |
| AuthUsecases.AuthUsecase.GrantRole | backend/manage.py:278-304 | the method is that command's step |
| AuthUsecases.AuthUsecase.SeedAdmin | backend/manage.py:327-366 | the method is that command's step |
| AuthUsecases.AuthUsecase.PruneUnknownRoles | backend/manage.py:237-256 | the method is that command's step |
| SessionExpiry.StoredExpiry | backend/app/libraries/auth_session_issuer.py:11-20 | cutting to milliseconds commutes with the expiry formula |
| SessionExpiry.TouchKeepsExpiry | backend/app/usecases/auth_usecase.py:343-361 | a touched or skipped request keeps the expiry formula true of the stored times |
| SessionExpiry.TouchIntervalIsSafe | backend/app/config/auth.py:133-140 | touches wait as configured, for at most half the idle TTL, or are never skipped |
| SessionExpiry.SteadyUseLastsToAbsoluteLimit | backend/app/usecases/auth_usecase.py:343-361 | requests closer than idle TTL less the slack keep a session valid to its absolute limit, despite skipped touches and cut milliseconds |
| SessionExpiry.OneMicrosecondMoreCanExpire | backend/app/config/auth.py:133-140 | the bound is exact: one microsecond more and a session can be lost, for all settings where idle is shorter than absolute |
| SessionExpiry.NothingPastAbsoluteLimit | backend/app/services/auth_repository.py:178-187 | no request is accepted at or after the absolute limit |
| ReplayAudit.AuditTable.RecordRejectedSessionReplay | backend/app/services/auth_repository.py:398-455 | without the lock nothing; else the row in the window is folded into, or a new one added |
| ReplayAudit.RowsAreApart | backend/app/services/auth_repository.py:417-446 | on every run, whatever the order of the replays' times, a session's replay rows are pairwise more than the window apart |
| ReplayAudit.CountsAddUp | backend/app/services/auth_repository.py:428-455 | on every run their counts add up to the replays that got the lock |
| ReplayAudit.RowsTellTheTruth | backend/app/services/auth_repository.py:462-506 | on every run a row carries the time of its first replay, folds only replays within the window of it, counts them and describes the latest; its recent addresses are the last ten entered, in order; its distinct count is between the true one and the replays with an address, exact up to ten |
| ReplayAudit.QueryFindsLatest | backend/app/services/auth_repository.py:418-428 | on every run the row that is folded into is the one with strictly the greatest time in the window |
| ReplayAudit.FoldedTells | backend/app/services/auth_repository.py:462-506 | the same of the fold alone, for every list of replays |
| ReplayAudit.FoldedShowsLatest | backend/app/services/auth_repository.py:462-500 | the recent addresses are exactly the last ten entries, an address being entered again only when it is not among them; the distinct count is the number of entries |
| SampleItemPages.PageIsCut | backend/app/usecases/sample_item_usecase.py:28-43 | a page is the first `limit` rows of the listing, with a cursor exactly when a row is left |
| SampleItemPages.DescendingIsUnique | backend/app/services/sample_item_repository.py:42-45 | the ORDER BY has one result |
| SampleItemPages.WalkReturnsStored | backend/app/services/sample_item_repository.py:35-47 | every item of page i is the owner's and is stored in the table that page i was read from |
| SampleItemPages.WalkDescends | backend/app/usecases/sample_item_usecase.py:28-43 | a walk is strictly newest first, by id among equal times, whatever happens between pages, so nothing comes twice |
| SampleItemPages.WalkMissesNothingPresent | backend/app/usecases/sample_item_usecase.py:28-43 | a finished walk has returned every item present throughout |
| SampleItemPages.WalkReturnsExactlyOnce | backend/app/usecases/sample_item_usecase.py:28-43 | exactly once |
| SampleItemPages.RestOfListing | backend/app/services/sample_item_repository.py:36-41 | what the cursor selects is exactly the rest of the listing |
| SampleItemPages.UndisturbedWalk | backend/app/usecases/sample_item_usecase.py:28-43 | left alone, the pages concatenate to the whole sorted list, in PageCount pages |
| SampleItemPages.PageCountIsCeiling | backend/app/usecases/sample_item_usecase.py:92-95 | PageCount is max(1, ceil(n / limit)) |
| AdminSearch.PassesEscapeOnce | backend/app/models/admin_query.py:13-17 | the three replacements, in their order, equal one per-character map |
| AdminSearch.SearchIsSubstring | backend/app/services/admin_user_repository.py:124-126 | LIKE with the escaped, wrapped pattern holds exactly when the search text is a substring |
| AdminSearch.EscapeCharacterCondition | backend/app/models/admin_query.py:13-17 | that holds for an escape character if and only if it is not a wildcard |
| AdminSearch.WildcardEscapeFails | backend/app/models/admin_query.py:13-17 | an input on which a wildcard escape character fails |
| JsonPointer.PointerRoundTrip | backend/app/bootstrap/error_handlers.py:194-196 | splitting and unescaping a pointer gives back its parts, for every nonempty list of parts (section 4 of RFC 6901) |
| JsonPointer.PointerIsInjective | backend/app/bootstrap/error_handlers.py:194-196 | different paths have different pointers |
| OidcMetadataCache.JsonCache.CachedJson | backend/app/services/oidc_provider_client.py:284-313 | live value, live failure or one load; only this key's entries change |
| OidcMetadataCache.ProviderClient.Discovery | backend/app/services/oidc_provider_client.py:252-263 | metadata that does not validate stays cached and is refused at every call |
| OidcMetadataCache.ProviderClient.Jwks | backend/app/services/oidc_provider_client.py:265-282 | a forced call drops the positive entry, notes its time, and then behaves as any call |
| OidcMetadataCache.ProviderClient.ShouldRefreshJwks | backend/app/services/oidc_provider_client.py:340-351 | if and only if the token names a key id that is not there and the last forced refresh, if any, is at least 60 s ago |
| OidcMetadataCache.ProviderClient.KeysForToken | backend/app/services/oidc_provider_client.py:179-190 | a key set is returned only if it verifies the token, and then it is what the latest request brought; the first answer if it verifies, else the refreshed one if a refresh is due and that verifies, else none |
| OidcMetadataCache.LoadsExactlyWhen | backend/app/services/oidc_provider_client.py:265-313 | on every run a step makes a request if and only if none was made yet, or the latest failed at least 60 s ago, or succeeded at least 3600 s ago or is refreshed by force |
| OidcMetadataCache.AnswerIsLatestLoad | backend/app/services/oidc_provider_client.py:284-313 | on every run each answer is the value or the failure of the latest request |
| OidcMetadataCache.AnswersAreFresh | backend/app/services/oidc_provider_client.py:284-313 | a value answered at t is what the latest load brought, less than the TTL before t |
| OidcMetadataCache.NeverBothLive | backend/app/services/oidc_provider_client.py:284-313 | a key never has a live positive and a live negative entry together |
| OidcMetadataCache.DiscoveryLoadsAreAMinuteApart | backend/app/services/oidc_provider_client.py:252-263 | successive discovery loads are at least 60 s apart |
| OidcMetadataCache.ThreeLoadsSpanAMinute | backend/app/services/oidc_provider_client.py:265-313 | any three successive JWKS loads, forced ones included, span at least 60 s |
| OidcMetadataCache.CloseLoadCondition | backend/app/services/oidc_provider_client.py:265-313 | a new load comes within a minute of the latest one if and only if it is forced, the latest succeeded and the refresh runs within that minute |
| OidcMetadataCache.TwoLoadsCanBeClose | backend/app/services/oidc_provider_client.py:340-351 | two loads need not: an ordinary and a forced one can follow at once |
| UnitOfWork.NestingIsFlat | backend/app/services/unit_of_work.py:34-67 | every nesting of blocks, writes, raises and handlers means the same as with its inner blocks removed |
| UnitOfWork.WithoutInnerIsFlat | backend/app/services/unit_of_work.py:36-42 | what remains has no block inside a block |
| UnitOfWork.PendingIsPerformed | backend/app/services/unit_of_work.py:52-60 | inside a block exactly the performed writes are pending, in order, and nothing is committed |
| UnitOfWork.OutermostIsAllOrNothing | backend/app/services/unit_of_work.py:44-50 | the outermost block commits all its performed writes in order, exactly when its body ends normally on a usable session, and none otherwise |
| UnitOfWork.BrokenBlockCommitsNothing | backend/app/services/auth_repository.py:49-54 | a block in which a flush failed never commits, even when the error was handled |
| UnitOfWork.LoneWritesCommit | backend/app/services/auth_repository.py:34-38 | outside any block each write commits by itself |
| UnitOfWork.Context.Run | backend/app/services/unit_of_work.py:34-50 | running with the context variable has the effect of the program without inner blocks |
| UnitOfWork.Context.RunNested | backend/app/services/unit_of_work.py:34-60 | the variable is set by the outermost block and reset on every exit |
| UnitOfWork.Context.Persist | backend/app/services/auth_repository.py:34-38 | flush into the current block, or commit alone |

## Left out

- CircuitBreaker.OutageCost: is about calls that follow each other; with calls in flight together each of them can still fail.
- RateLimitAdmission.StartsPerWindow: takes the bound k on overlapping starts as given, because the code does not bound them.
- AuthRepository.AuthTables.ReplaceUserRoles: lists what was granted and revoked in some order, each code once, where the code sorts them.
- AuthRepository.AuthTables.ListUnknownRoleAssignments: lists the rows in some order, each once; the order of the query depends on the database's collation.
- AuthUsecases.AuthUsecase.StartAuthorization: leaves out the redirect path, language and login hint of the state, and the limiter calls around it, which RateLimitAdmission models.
- AuthUsecases.AuthUsecase.DeleteAccount: leaves out the typed confirmation of the address and the limiter calls of the password branch.
- SampleItemPages: the create, update and delete methods and the cursor's base64 and JSON text; tables are values that may change arbitrarily between pages.
- UnitOfWork.OutermostIsAllOrNothing: whether a block that ends normally on a session that a failed write made unusable raises is the database library's choice; both are covered, and nothing is committed either way.
- The plain row updates of the repositories (`record_user_login`, `touch_session`, `revoke_session`, `revoke_sessions_for_user`, `delete_auth_identities_for_user`, `record_oidc_login`, `record_oidc_reauth`, `mark_user_deleted`) are methods here, but what they promise is stated by the transactions that use them.
- The in-memory limiter's buckets are created and appended to in one step, as every caller does; the warning about the cap is a flag.
- The Redis fail-open or fail-closed policy and the operation deadline; a cut-off operation stops between two of its steps.
- Password hashing and policy, token generation, SHA-256, base64, JWT decoding and signatures, JSON and URL parsing: an injective hash, a set of key sets that verify a token, and parsed claims stand for them.
- Claims other than subject, e-mail, nonce, issue, expiry and authentication time; issuer and audience checks only compare constants.
- The order of limiter calls within a login or registration: limiters and tables are modelled apart.
- Concurrent loads in the metadata cache, and an awaited load that is cancelled after a forced refresh dropped the entry.
- Foreign keys of audit rows on pruned sessions, other columns of the tables (language, CSRF hash, addresses, user agents, `modified_at`), and the ownership of sample items by deleted users, which the code does not guarantee under interleaving.
- Isolation levels below serializable, the advisory lock's key collisions, and database faults.
- Paths whose parts are not texts, and percent-encoding of the fragment in a JSON Pointer.
- `normalize_admin_search`, `_validation_error_item`, audit detail of role rows, authorization catalogs, configuration parsing: easy members.
- HTTP controllers, cookies, CSRF middleware, dependency injection, migrations and the frontend.
