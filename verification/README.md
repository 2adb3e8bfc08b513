# Verification of the marketplace backend's state machines

Dafny models of the parts of this backend that carry real state, with their properties proved for
all inputs and all runs. `dafny verify dfyconfig.toml` checks everything.

A database table is a map or a sequence, a row a datatype value. A service whose methods update
rows is a class whose methods are proved to do exactly what a specification function says; the
properties are then lemmas about that function and its runs. What one step does is also stated in
plain terms, column by column and with its numbers written out, in the lemmas called `...Exactly` and
`...InColumns`. `withTransaction`
(src/modules/unit-of-work/unit-of-work.service.ts:207) is all-or-nothing: a thrown error leaves the
tables as they were.

| modules | subject |
|---|---|
| `SessionProtocol`, `SessionSteps`, `SessionGuarantees`, `SessionService` | Refresh-token rotation. Any number of callers interleave one await at a time; the Redis lock expires at any moment and is never released; logins, deletes, failures and the clock are further steps. |
| `WebhookLedger`, `WebhookProcessor` | Payment and transfer events: transaction statuses and balances in exact cents, redelivery, and failures before, between or after a handler's writes. |
| `ChatLog`, `ChatSessionService` | Dense message numbers under a row lock, the 200-message cap, closing, newest-first cursor paging. |
| `TaskIndex`, `ProjectAiContextService` | The AI task index against a simple map, its order, the audit log, the staleness flag over the whole history, for transactions one after another. |
| `ContextOverlaps` | The same row under overlapping transactions: what the audit log and the index keep, exactly when, and what is lost otherwise. |
| `Envelope`, `KeyVault`, `AiProviderKeyService` | Versioned AES-GCM envelopes as text, the provider-key table, re-encryption. |
| `ColumnVault` | The column vault with its cached key, and the encrypting column transformer. |
| `MoneyMath` | Fixed-point money, half-away-from-zero rounding, the generated fee columns. |
| `Idempotency`, `IdempotencyInterceptor` | The idempotency cache as an interleaving of lookups, handler runs, unawaited inserts and sweeps. |
| `QuestionOrder`, `QuestionBank` | Positions 1..N of active onboarding questions, statement by statement against the partial unique index, for transactions one after another. |
| `QuestionOverlaps` | The same table under overlapping transactions: exactly when the positions stay 1..N. |
| `FileSweep`, `FilesCleanup` | The two batched storage sweeps. |
| `RateLimit`, `AttemptTracker` | Fixed-window counters and login lockout, attempts one at a time and overlapping. |
| `AdminOtp`, `AdminOtpSteps`, `AdminOtpGuarantees`, `AdminOtpLimits`, `AdminOtpRuns`, `AdminAuthService` | One-time-password sign-in: any number of requests and verifications interleave one await at a time over the token table and the Redis counters. |
| `Text`, `Sequences`, `Arithmetic` | Shared helpers. |

Assumptions are parameters or predicates, never hidden: AES-GCM, base64 and the nonce source are the
fields of `Envelope.Primitives` with the laws in `Envelope.Lawful`; hashes are opaque values; times,
fresh tokens, failures and network outcomes are arguments of the steps. The ORM's `save` of an entity with
a key reads its row again and then updates the columns that differ; transactions run at READ COMMITTED. Where only calls that nothing
interleaves with are covered, the last section says so.

Where the code does not do what its documentation promises, the code is modelled and a lemma says so:

- The result cache needs distinct 16-character prefixes among all tokens ever issued. The unique
  constraint gives freshness only against stored rows, and a refresh token signed twice for one user
  in the same second is the same text, so a re-issued token can overwrite a cached result
  (`ReissuedTokenOverwrites`, `SharedPrefixOverwrites`, `SharedPrefixMisserves`).
- A webhook handler that throws between its status write and its balance write is never retried,
  because its event row counts as a duplicate: the credit is lost (`LostTopUpStaysLost`,
  `CreditsAndLosses`).
- A refund reverses a transaction without debiting the balance it credited, and a transaction can be
  credited both for the payment and for a later failed transfer (`CreditsExact`).
- The idempotency row is inserted after the response has left, so an immediate retry can run the
  handler again (`RetryBeatsTheInsert`; exactly when: `OnceExactly`). Its endpoint is the route
  pattern, so a key can be answered with the response of another resource (`AnotherAddressIsReplayed`).
- Fee plus payout exceeds the price by a cent on half-cent ties, which the invoice CHECK rejects
  (`LineItemCheckExact`); `divInteger` with a negative divisor does not round as documented
  (`DivRoundNegativeExact`).
- A one-time password is read and marked used in separate statements without a lock, so overlapping
  verifications of one password all sign in (`TwoVerificationsSignInTwice`; exactly when:
  `SignInsExactly`, `AloneExactly`), and overlapping requests can leave a user two unused passwords
  (`CrossingLeavesTwo`; exactly when: `OneUnusedExactly`).
- Transactions on a project's AI context or on the question bank read first and write later without a
  lock. Overlapping ones can drop audit rows (`DecisionIsDropped`; exactly when: `AuditTrailExactly`),
  lose a task (`TaskIsLost`), wipe a context just created (`CreationEmptiesTheContext`), or leave the
  questions with a gap or without a position (`CreationLeavesAGap`, `CompactionDropsAQuestion`; exactly
  when: `OrderExactly`), and no caller sees an error.
- The mail limits count a send only after the mail, so a request that dies in between is not counted
  (`UncountedSendsAreUnlimited`).
- A failed one-time-password request has already invalidated the previous password
  (`RequestSupersedes`).
- The failure counters are fixed windows, not the rolling ones their comments name
  (`SpanInsideAWindowExceeds`; exactly when: `SpanBoundExactly`), and are read before they are
  counted, so overlapping attempts get past the threshold (`OverlapReachesIt`).

## Model

| member | source | states |
|---|---|---|
| `SessionProtocol.StepKeepsInv` | src/modules/auth/services/session.service.ts:68-155 | Every await-to-await step of any caller of `refresh`, every login, delete, lock or cache expiry and clock tick keeps the whole protocol invariant: unique tokens, one transaction per row, one stamp per row, one live line per login, one recorded answer per rotation. |
| `SessionProtocol.RunKeepsInv` | src/modules/auth/services/session.service.ts:68-188 | The invariant holds after every legal interleaving of any number of callers. |
| `SessionGuarantees.RotatedAtMostOnce` | src/modules/auth/services/session.service.ts:83-149 | In every interleaving, with the lock expiring at any time, no session row is rotated twice, and a stored row has been rotated exactly when `used_at` is set. |
| `SessionGuarantees.RotationConsumesAValidRow` | src/modules/auth/services/session.service.ts:86-126 | Only the commit of the locked transaction rotates, only a row the middleware still accepts, and the row is rejected from then on; the expired branch (whose delete the rollback undoes) rotates nothing. |
| `SessionGuarantees.SessionsBoundedByLogins` | src/modules/auth/services/session.service.ts:83-149 | A user's unused rows plus rotations stamped but not yet created never exceed the user's logins, even when `createSession` fails after the stamp. |
| `SessionGuarantees.HoldersShrink` | src/modules/auth/services/session.service.ts:83-149 | No step but a login of that user can add a live session line; each live row or in-flight rotation after the step continues a line live before it. |
| `SessionGuarantees.HoldersShrinkOverRun` | src/modules/auth/services/session.service.ts:83-149 | The same over every run without a login of that user. |
| `SessionGuarantees.RejectedForever` | src/common/middleware/jwt-context.middleware.ts:71-90 | Once the session check rejects an issued id (row gone, stamped or expired) it rejects it in every later state. |
| `SessionGuarantees.ReplayIsDetected` | src/modules/auth/services/session.service.ts:101-136 | A caller that misses the active row and meets a used one starts a DELETE that finds every row the user then has. |
| `SessionGuarantees.ReplayRevokesEverything` | src/modules/auth/services/session.service.ts:315-319 | Whatever runs while that DELETE waits for row locks, when it commits no row the user had at its start is left, rotated meanwhile or not; rows inserted while it waited are all that can remain, none if it did not wait; nobody else loses a row. |
| `SessionGuarantees.OnlyFlightsSurviveRevocation` | src/modules/auth/services/session.service.ts:129-149 | After any revocation, however long its DELETE waited, and until the user next logs in: every session descends from a rotation in flight when the DELETE committed, or from a row inserted while it waited (by a rotation, unless the user logged in meanwhile); if it did not wait and no rotation is in flight, there is none. |
| `SessionGuarantees.ServedOwnRotation` | src/modules/auth/services/session.service.ts:70-87 | When issued tokens have distinct 16-character prefixes, whatever a caller is served, directly or from the cache, is the answer of the unique rotation of the row its own token opened. |
| `SessionGuarantees.NothingIsOverwritten` | src/modules/auth/services/session.service.ts:149-155 | Under the same condition a published result never meets an older one under its key. |
| `SessionGuarantees.SharedPrefixMisserves` | src/modules/auth/services/session.service.ts:69-87 | The condition is needed: for every two different tokens sharing the prefix, of two users or of one, some run answers a refresh of the first session with the rotation of the second, the first row staying unused. |
| `SessionGuarantees.SharedPrefixOverwrites` | src/modules/auth/services/session.service.ts:149-155 | For every two such tokens some run, with no token ever issued twice, publishes a result over a different cached one. |
| `SessionGuarantees.ReissuedTokenOverwrites` | src/database/migrations/20260520000001-InitialSchema.ts:102 | The unique constraint only keeps a token fresh against rows still stored: for every token, a run that deletes its row and issues it again overwrites a cached result with a different one. |
| `SessionGuarantees.WaiterPollsAtMostTwice` | src/modules/auth/services/session.service.ts:166-188 | A waiting caller is served exactly if the result is cached at one of its two polls, and refused after the second. |
| `SessionSteps.LockingExactly` | src/modules/auth/services/session.service.ts:83-88 | A caller takes its prefix's key exactly when it is absent, and waits otherwise. |
| `SessionSteps.PollingExactly` | src/modules/auth/services/session.service.ts:166-187 | A waiting caller is served what is cached under its prefix; after the second empty poll it is refused. |
| `SessionSteps.LookupExactly` | src/modules/unit-of-work/repositories/auth/user-session.repository.ts:26-37 | The locking SELECT finds an unused row of the token that no open transaction holds, or reports none exactly when no unused row has it; it writes nothing. |
| `SessionSteps.DecisionExactly` | src/modules/auth/services/session.service.ts:118-131 | A row past its end is refused with the table unchanged; any other gets its stamp and keeps its other columns. |
| `SessionSteps.InspectionExactly` | src/modules/auth/services/session.service.ts:101-116 | A used row of the token names the user to revoke; an unused one or none is refused. |
| `SessionSteps.RevocationExactly` | src/modules/auth/services/session.service.ts:315-319 | The DELETE finds the user's rows, used or not, and removes exactly those once no open transaction holds one. |
| `SessionSteps.CreationExactly` | src/modules/auth/services/session.service.ts:201-260 | The INSERT adds an unused row of the same user with a fresh id and its end `lifetime` away; it is refused exactly when a row has the token. |
| `SessionSteps.PublicationExactly` | src/modules/auth/services/session.service.ts:149-154 | The answer is cached under the prefix of the presented token and returned. |
| `SessionSteps.LoginExactly` | src/modules/auth/services/basic-auth.service.ts:346 | A login adds an unused row with a token no row has. |
| `SessionSteps.DeletionExactly` | src/modules/auth/services/session.service.ts:190-199 | A logout or other delete removes exactly the rows it names, once no open transaction holds one. |
| `SessionSteps.ExpiryExactly` | src/modules/auth/services/session.service.ts:83 | An expired Redis key is gone, and nothing else. |
| `SessionSteps.CallExactly` | src/modules/auth/services/session.service.ts:68-155 | A call can fail at any point before its answer: it is refused, with nothing undone and nothing else written. |
| `SessionSteps.CheckExactly` | src/common/middleware/jwt-context.middleware.ts:83-84 | The session check accepts exactly a stored row that was never used and has not passed its end. |
| `SessionService.SessionService.Refresh` | src/modules/auth/services/session.service.ts:68-155 | A whole undisturbed call, branch by branch: lock busy reads only the cache; an active row is consumed and replaced, or refused when expired with the table unchanged; a used row deletes exactly its user's rows; an unknown token changes nothing. |
| `SessionService.SessionService.TryLock` | src/modules/auth/services/session.service.ts:83 | Whoever finds the prefix unlocked holds its lock; nobody releases it. |
| `SessionService.SessionService.AwaitRefreshResult` | src/modules/auth/services/session.service.ts:166-188 | The polling loop returns the cached response or the generic error, and writes nothing. |
| `SessionService.SessionService.FindActiveByTokenForUpdate` | src/modules/unit-of-work/repositories/auth/user-session.repository.ts:26-37 | Once no other transaction holds it, returns the unused row of the token and holds its lock, or reports that none exists; other open transactions are allowed. |
| `SessionService.SessionService.DetectReuse` | src/modules/auth/services/session.service.ts:101-116 | Without an active row, reports the user exactly when the stored row of the token is a used one. |
| `SessionService.SessionService.StampOrRefuse` | src/modules/auth/services/session.service.ts:109-126 | Refuses an expired session with the table unchanged (the transaction rolls back), otherwise stamps `used_at`. |
| `SessionService.SessionService.CreateSession` | src/modules/auth/services/session.service.ts:201-260 | Inserts a fresh unused row of the same user, or fails, leaving only the stamp, when a stored row carries the token. |
| `SessionService.SessionService.FindOwned` | src/modules/auth/services/session.service.ts:315-317 | The DELETE starts with exactly the rows the user then has. |
| `SessionService.SessionService.DeleteFound` | src/modules/auth/services/session.service.ts:317-318 | Once no transaction holds one of them, exactly the rows found at the start are deleted. |
| `SessionService.SessionService.RevokeAllSessionsForUser` | src/modules/auth/services/session.service.ts:315-319 | With nothing to wait for, exactly the rows of the user are deleted. |
| `SessionService.SessionService.PublishResult` | src/modules/auth/services/session.service.ts:152 | Stores the answer under the prefix of the presented token and serves it. |
| `SessionService.SessionService.CheckSession` | src/common/middleware/jwt-context.middleware.ts:71-90 | The middleware's test of a session id, and that a refused issued id stays refused in every future of the run. |
| `SessionService.SessionService.LoginSession` | src/modules/auth/services/basic-auth.service.ts:346 | A login inserts one fresh unused row of the user, or nothing when its token is already stored. |
| `SessionService.SessionService.DeleteSessions` | src/modules/auth/services/basic-auth.service.ts:410-423 | Any set of rows can be deleted once no transaction holds one of them (logout, password change and reset). |
| `WebhookLedger.RedeliveryIsSkipped` | src/modules/webhooks/webhook-processor.service.ts:37-87 | A stream with redeliveries acts exactly like its first occurrences of each (processor, event id), even after a failed handler. |
| `WebhookLedger.LedgerClosedForm` | src/modules/webhooks/webhook-processor.service.ts:187-474 | After any stream each status is its own transaction's actions run in order, and each balance is its start plus amount times credits over the owner's transactions. |
| `WebhookLedger.PermutationIsHarmless` | src/modules/webhooks/webhook-processor.service.ts:37-87 | Every permutation of a stream with distinct event keys that keeps the order of the events of each transaction ends with the same statuses, balances and event log. |
| `WebhookLedger.ReorderingIsHarmless` | src/modules/webhooks/webhook-processor.service.ts:187-474 | More generally, with redeliveries: two streams that give every transaction the same first deliveries in the same order end with the same statuses and balances. |
| `WebhookLedger.DifferentTransactionsCommute` | src/modules/webhooks/webhook-processor.service.ts:37-87 | Two fresh events about different transactions commute exactly, event log included. |
| `WebhookLedger.NeighboursMaySwap` | src/modules/webhooks/webhook-processor.service.ts:37-87 | Anywhere in a stream two neighbouring events with different ids about different transactions may change places without any difference. |
| `WebhookLedger.CreditBound` | src/modules/webhooks/webhook-processor.service.ts:226-276 | In any stream, failures included, a transaction is credited at most twice: once for the top-up and once for a failed transfer, the second only on the way to `reversed`. |
| `WebhookLedger.CreditsExact` | src/modules/webhooks/webhook-processor.service.ts:402-474 | Without failures, from any status, a transaction is credited once exactly if its first event while pending is a payment, plus once exactly if a failed transfer comes before any refund; never when it starts reversed. |
| `WebhookLedger.StatusExact` | src/modules/webhooks/webhook-processor.service.ts:187-474 | Without failures the final status is read off the events: reversed exactly when one reverses, else decided by the first event while pending. |
| `WebhookLedger.CreditsAndLosses` | src/modules/webhooks/webhook-processor.service.ts:57-86 | With failures, from any status: credits given plus credits lost between the status write and the balance write are what the actions that reached their first write earn, and the status is theirs. |
| `WebhookLedger.BalancesFromEvents` | src/modules/webhooks/webhook-processor.service.ts:57-474 | After any stream every balance is its start plus amount times what each transaction's events earn, less what failures lost, and every status is read off the events; nothing is lost when no handler fails. |
| `WebhookLedger.LostTopUpStaysLost` | src/modules/webhooks/webhook-processor.service.ts:239-266 | A handler that dies between the two writes loses the top-up for good, whatever payment events follow. |
| `WebhookLedger.EventRowExactly` | src/modules/webhooks/webhook-processor.service.ts:37-145 | Which processor each kind of event belongs to; a stored event row makes the delivery a no-op, otherwise the row is stored and ends processed exactly when the handler returns. |
| `WebhookLedger.RefundExactly` | src/modules/webhooks/webhook-processor.service.ts:333-359 | A refund marks its transaction reversed whatever its status and moves no balance; a missing or unknown id changes nothing. |
| `WebhookLedger.PaymentFailedExactly` | src/modules/webhooks/webhook-processor.service.ts:295-331 | A failed payment marks a pending transaction failed, touches no other status and no balance. |
| `WebhookLedger.TopUpExactly` | src/modules/webhooks/webhook-processor.service.ts:229-280 | A payment completes a pending top-up and adds its amount to its owner's account, if that exists and the call does not die in between; any other status is left alone. |
| `WebhookLedger.BusinessTransferExactly` | src/modules/webhooks/webhook-processor.service.ts:379-427 | A failed transfer reverses the first business withdrawal with its id and gives its amount back, unless it is reversed already. |
| `WebhookLedger.ConsultantTransferExactly` | src/modules/webhooks/webhook-processor.service.ts:389-473 | Only when no business withdrawal has the id is the first consultant one treated so. |
| `WebhookLedger.OtherEventsExactly` | src/modules/webhooks/webhook-processor.service.ts:147-227 | Invoice payments, unhandled kinds and transfers with no or an unknown id leave every row and balance as it is. |
| `WebhookProcessor.WebhookProcessor.ProcessWebhook` | src/modules/webhooks/webhook-processor.service.ts:37-145 | The dispatching method acts on rows, balances and event log as the ledger function does, and throws exactly when a fresh event's handler does. |
| `WebhookProcessor.WebhookProcessor.HandlePaymentSucceeded` | src/modules/webhooks/webhook-processor.service.ts:187-292 | The imperative handler equals the ledger step; only a pending transaction is completed and credited. |
| `WebhookProcessor.WebhookProcessor.HandleStatusOnly` | src/modules/webhooks/webhook-processor.service.ts:295-358 | Payment failure moves only a pending transaction, a refund moves any, and neither touches a balance. |
| `WebhookProcessor.WebhookProcessor.HandleTransferFailed` | src/modules/webhooks/webhook-processor.service.ts:369-474 | Businesses are searched before consultants; the match is reversed and credited once. |
| `ChatLog.RunKeepsInv` | src/modules/project-chat-session/project-chat-session.service.ts:151-207 | In every reachable state the stored sequence numbers are exactly 1..messageCount, at most 200; stored messages never change, a closed session never changes again, and `implementedAt` is set exactly when completed. |
| `ChatLog.NumbersAreFree` | src/modules/project-chat-session/project-chat-session.service.ts:184-199 | Under the row lock the numbers allocated to new messages are never taken, so the unique index never fires. |
| `ChatLog.PatchExactly` | src/modules/project-chat-session/project-chat-session.service.ts:151-207 | Exactly when a patch is accepted and which of the three errors refuses it otherwise, changing nothing; accepted: drafts in order after the old messages, draft and stage replaced only when given, `updated_at` moved exactly when a column changed. |
| `ChatLog.ClosedByOwnerExactly` | src/modules/project-chat-session/project-chat-session.service.ts:268-296 | Closing by hand, every column and outcome: refused for another user or a closed session; completing stamps the time and keeps the created task ids if any are given, abandoning neither; `updated_at` moves. |
| `ChatLog.SweptExactly` | src/modules/housekeeping/housekeeping.processor.ts:72-87 | The sweep abandons exactly an active session with fewer than 5 messages untouched for more than 90 days, and changes nothing else. |
| `ChatLog.LogIsWhatWasAccepted` | src/modules/project-chat-session/project-chat-session.service.ts:151-207 | Over any run the log is the initial one followed by exactly the drafts of the patches that pass the tests, in order, numbered on: nothing is lost, repeated or reordered. |
| `ChatLog.ClosingExactly` | src/modules/housekeeping/housekeeping.processor.ts:72-87 | Exactly which operations change a status (the owner's, or the sweep on a short idle session), and what closing leaves alone. |
| `ChatLog.CreatedSessionsStayDense` | src/modules/project-chat-session/project-chat-session.service.ts:39-58 | Creation is refused exactly on finished projects and for `extend` on a draft one; what it creates stays dense under every later run. |
| `ChatLog.NewestIsPage` | src/modules/project-chat-session/project-chat-session.service.ts:234-241 | For any table and bound the query's page is descending, eligible, and leaves out only smaller eligible numbers, then being full. |
| `ChatLog.CursorEnumeratesTheLog` | src/modules/project-chat-session/project-chat-session.service.ts:224-257 | Following `next_cursor` from the head with any limit >= 1 and any operations between requests shows the messages present at the start exactly once, newest first, in floor(n / limit) + 1 requests. |
| `ChatSessionService.ChatSession.PatchSession` | src/modules/project-chat-session/project-chat-session.service.ts:140-207 | The in-place method equals the specification step, errors included, and stamps `updated_at` only when something changed. |
| `ChatSessionService.ChatSession.SetStatus` | src/modules/project-chat-session/project-chat-session.service.ts:260-301 | The in-place method equals the specification step. |
| `ChatSessionService.ChatSession.Sweep` | src/modules/housekeeping/housekeeping.processor.ts:72-87 | One row's part of the bulk UPDATE equals the specification step. |
| `ChatSessionService.ChatSession.ListPage` | src/modules/project-chat-session/project-chat-session.service.ts:224-257 | The page is the newest-first page below the bound, and the cursor is its least number exactly when the page is full. |
| `TaskIndex.IndexAgreesWithMap` | src/modules/project-ai-context/project-ai-context.service.ts:74-131 | In every run the list has distinct ids, holds exactly the entries of a simple map run, and lists them in order of their latest insertion. |
| `TaskIndex.IndexExactly` | src/modules/project-ai-context/project-ai-context.service.ts:74-216 | Over every run a task is listed, once, exactly when some patch of it has not been followed by a removal, with the title, price and column of its last patch and the summary of the last derived write naming it since its insertion (the last patch of the id within that write; none if there is no such write). |
| `TaskIndex.EntriesLast` | src/modules/project-ai-context/project-ai-context.service.ts:82-92 | Over any run without a removal of the id, its summary changes only by a derived write naming it, and its other columns only by a patch of it. |
| `TaskIndex.FlagMeansDisturbed` | src/modules/project-ai-context/project-ai-context.service.ts:94-131 | `needs_reindex` is set exactly when, since the last derived write, a task was added, a listed task removed, the skills replaced, or a sweep found the last indexing over seven days old. |
| `TaskIndex.UnflaggedIndexIsTheIndexedOne` | src/modules/project-ai-context/project-ai-context.service.ts:225-232 | `taskCountAtIndex` is always the number of ids at the last derived write, and whenever the flag is down the index lists exactly those ids. |
| `TaskIndex.FlagOutlivesAnUndoneChange` | src/modules/project-ai-context/project-ai-context.service.ts:109-131 | The converse fails: adding a task and deleting it again leaves the flag up. |
| `TaskIndex.DecisionsAreTheTrail` | src/modules/project-ai-context/project-ai-context.service.ts:152-232 | `decisions` is exactly one audit row per decision and derived write, in order. |
| `TaskIndex.DecisionsOnlyGrow` | src/modules/project-ai-context/project-ai-context.service.ts:214-223 | The audit log of an earlier moment is a prefix of every later one. |
| `ContextOverlaps.AuditTrailExactly` | src/modules/project-ai-context/project-ai-context.service.ts:157-174 | With any number of transactions overlapping, each reading, comparing and updating separately: the log holds one row per committed decision and derived write, in order, at every moment, if and only if no audit writer missed a row committed since its reading, no other writer one committed before its `save`, and no `save` that creates the row meets a log already begun. |
| `ContextOverlaps.WriteKeepsLogExactly` | src/modules/project-ai-context/project-ai-context.service.ts:157-174 | One write, exactly: which overlaps keep the log and which drop rows. |
| `ContextOverlaps.WriteExactly` | src/modules/project-ai-context/project-ai-context.service.ts:182-236 | Any write in columns, whatever was committed since its reading: undisturbed it is the serial step; otherwise it overwrites exactly the columns in which what it wants differs from what its `save` found; a second INSERT fails and changes nothing. |
| `ContextOverlaps.StepsExactly` | src/modules/project-ai-context/project-ai-context.service.ts:57-131 | Which transactions go on to `save` (one that ensures the row only if it found none, one that removes tasks only if it found one of them listed), and that reading, comparing and dropping change no row. |
| `ContextOverlaps.IndexSurvivesOverlaps` | src/modules/project-ai-context/project-ai-context.service.ts:74-131 | When the list is not moved between a change of it and its reading, nor between another transaction's reading and its `save`, it is the one the committed operations give one after another: distinct ids, the simple map's entries, insertion order. |
| `ContextOverlaps.DecisionIsDropped` | src/modules/project-ai-context/project-ai-context.service.ts:157-174 | For every row and any two decisions logged by overlapping transactions, both commit and the log holds only the second. |
| `ContextOverlaps.TaskIsLost` | src/modules/project-ai-context/project-ai-context.service.ts:74-106 | For every row and any two new tasks patched in by overlapping transactions, both commit and the list holds only the second. |
| `ContextOverlaps.CreationEmptiesTheContext` | src/modules/project-ai-context/project-ai-context.service.ts:57-71 | Two overlapping first uses: the later `save` of the empty row wipes the decision the other has logged. |
| `ProjectAiContextService.ProjectAiContext.EnsureExists` | src/modules/project-ai-context/project-ai-context.service.ts:57-71 | Creates the row once and leaves an existing one alone. |
| `ProjectAiContextService.ProjectAiContext.RecordDecision` | src/modules/project-ai-context/project-ai-context.service.ts:157-174 | Appends one audit row, creating the row when missing. |
| `ProjectAiContextService.ProjectAiContext.PatchTaskInIndex` | src/modules/project-ai-context/project-ai-context.service.ts:74-106 | Find-then-overwrite-or-push equals the specification step. |
| `ProjectAiContextService.ProjectAiContext.RemoveManyFromIndex` | src/modules/project-ai-context/project-ai-context.service.ts:109-131 | The filter loop equals the specification step; an empty or ineffective removal writes nothing. |
| `ProjectAiContextService.ProjectAiContext.WriteDerived` | src/modules/project-ai-context/project-ai-context.service.ts:182-236 | Map building and the summary loop equal the specification step; the last patch of an id wins. |
| `ProjectAiContextService.ProjectAiContext.FlagAfterSkillSync` | src/modules/business-projects/services/settings.service.ts:165-175 | Raises the flag, creating the row when missing. |
| `ProjectAiContextService.ProjectAiContext.Sweep` | src/modules/housekeeping/housekeeping.processor.ts:109-118 | Raises the flag on an unflagged row indexed more than seven days ago. |
| `Envelope.ParseOfSerialise` | src/modules/ai-provider-key/crypto/master-key.cipher.ts:52-70 | `parse(serialise(e))` is `e` exactly for positive versions and colon-free parts; any other envelope is rejected, never misread. |
| `Envelope.ParseExactly` | src/modules/ai-provider-key/crypto/master-key.cipher.ts:56-70 | `parse` accepts exactly `v`, a token that reads as a positive version and three colon-free parts, colons between, as that version, nonce, tag and ciphertext. |
| `Envelope.ParseIntReads` | src/modules/ai-provider-key/crypto/master-key.cipher.ts:65 | `parseInt` skips blanks and a plus sign and ignores what follows the digits. |
| `Envelope.ParseIntExactly` | src/modules/ai-provider-key/crypto/master-key.cipher.ts:65 | `parseInt(s, 10)` is the number n exactly for blanks, at most one sign and digits that read as n, followed by anything but a digit. |
| `Envelope.SerialiseExactly` | src/modules/ai-provider-key/crypto/master-key.cipher.ts:52-54 | The stored form, written out: `v`, the version in decimal without leading zeros, and the three parts in their order, colons between. |
| `Envelope.SerialiseOfParse` | src/modules/ai-provider-key/crypto/master-key.cipher.ts:52-70 | A parsed text prints back to itself exactly when its version token is canonical. |
| `Envelope.GcmRoundTrip` | src/modules/ai-provider-key/crypto/aes-gcm.ts:86-135 | An envelope opens under every configuration that still has its version, whichever version is current. |
| `Envelope.SealsExactly` | src/modules/ai-provider-key/crypto/aes-gcm.ts:86-106 | Sealing succeeds exactly under a positive current version whose key is well-formed base64 of 32 bytes; the envelope names that version and carries the draw's nonce and what the cipher makes of the text under it. |
| `Envelope.OpensExactly` | src/modules/ai-provider-key/crypto/aes-gcm.ts:113-135 | An envelope opens exactly when its version has a usable key, nonce and tag have 12 and 16 bytes, and the cipher accepts it. |
| `Envelope.KeyTextExactly` | src/modules/ai-provider-key/crypto/aes-gcm.ts:39-57 | Key text is base64 characters, standard or URL-safe, and at most two equals signs. |
| `Envelope.MasterRoundTrip` | src/modules/ai-provider-key/crypto/master-key.cipher.ts:34-50 | Encryption succeeds exactly when the current version is positive and its key valid; the stored text then reads back, and the version beside it is the one inside it. |
| `Envelope.LawsAreConsistent` | src/modules/ai-provider-key/crypto/aes-gcm.ts:86-135 | The laws assumed of the cipher, base64 and the random source hold of a concrete choice that can use a key, so they are not contradictory. |
| `KeyVault.RunKeepsInv` | src/modules/ai-provider-key/ai-provider-key.service.ts:137-306 | Over any run in which versions in use stay configured: at most one active row per assistant type, every row decrypts to the key it was created with, its version column is its envelope's, its last four characters are the key's. |
| `KeyVault.PlaintextSurvivesTheRun` | src/modules/ai-provider-key/ai-provider-key.service.ts:273-306 | A row present before and after a run reads as the same key. |
| `KeyVault.ReEncryptionIsExact` | src/modules/ai-provider-key/ai-provider-key.service.ts:273-306 | Re-encryption is all-or-nothing: it fails, changing nothing, exactly when a row is stale and the current key is unusable; otherwise it returns the stale count, leaves every row current and otherwise unchanged, and a repeat returns 0. |
| `KeyVault.WhoIsActive` | src/modules/ai-provider-key/ai-provider-key.service.ts:157-263 | Which key serves a type changes only by creating or activating for that type, or by revoking its active row, which leaves none. |
| `KeyVault.RevokeExactly` | src/modules/ai-provider-key/ai-provider-key.service.ts:235-266 | Revocation is refused exactly for the active row of a type without an inactive one; otherwise exactly that row goes, and an active one leaves its type with keys but none active. |
| `KeyVault.ServedIsTheOriginal` | src/modules/ai-provider-key/ai-provider-key.service.ts:43-102 | The front end gets, under its own key, exactly the plaintext the active row was created with; missing row and unusable front-end key are the only failures. |
| `KeyVault.CreateExactly` | src/modules/ai-provider-key/ai-provider-key.service.ts:137-185 | Every column of a new key: the given type, model and label, a fresh id, the current version, the last four characters, active, every other key of the type inactive; it fails, changing nothing, exactly when the master key is unusable. |
| `KeyVault.UpdateExactly` | src/modules/ai-provider-key/ai-provider-key.service.ts:188-198 | Model and label are written when given, to that row alone; it fails exactly for an unknown id. |
| `KeyVault.ActivateExactly` | src/modules/ai-provider-key/ai-provider-key.service.ts:201-232 | The row becomes the one active row of its type, other types stay as they are; it fails exactly for an unknown id. |
| `KeyVault.Last4Exactly` | src/modules/ai-provider-key/ai-provider-key.service.ts:144 | What is shown of a key is its last four characters, stars in front of a shorter one. |
| `KeyVault.NoncesNeverRepeat` | src/modules/ai-provider-key/crypto/aes-gcm.ts:94-105 | Over every run, re-encryptions and reconfigurations included, no two stored ciphertexts carry the same nonce, as long as the random source repeats none. |
| `AiProviderKeyService.AiProviderKeys.CreateKey` | src/modules/ai-provider-key/ai-provider-key.service.ts:137-185 | Deactivates the type's active row and inserts the new one active, or changes nothing when encryption fails. |
| `AiProviderKeyService.AiProviderKeys.UpdateKey` | src/modules/ai-provider-key/ai-provider-key.service.ts:188-198 | Only label and model change, and only when given. |
| `AiProviderKeyService.AiProviderKeys.ActivateKey` | src/modules/ai-provider-key/ai-provider-key.service.ts:201-232 | Equals the specification step and keeps the vault invariant. |
| `AiProviderKeyService.AiProviderKeys.RevokeKey` | src/modules/ai-provider-key/ai-provider-key.service.ts:235-266 | Equals the specification step and keeps the vault invariant. |
| `AiProviderKeyService.AiProviderKeys.ReEncrypt` | src/modules/ai-provider-key/ai-provider-key.service.ts:273-306 | The loop over a working copy equals the specification pass; a row that fails leaves the table as it was. |
| `AiProviderKeyService.AiProviderKeys.GetActiveKeyEnvelope` | src/modules/ai-provider-key/ai-provider-key.service.ts:43-102 | Equals the serving specification. |
| `ColumnVault.FromOfTo` | src/database/transformers/encrypted-string.transformer.ts:14-27 | `from(to(x))` is `x` for every nullable string as long as the same key is in force; `to` fails exactly for a non-null value without a valid key, and otherwise writes an envelope. |
| `ColumnVault.FirstKeySticks` | src/common/utils/crypto-vault.ts:19-34 | Once a key is cached no later environment value replaces it. |
| `ColumnVault.ReadsBackInTheSameProcess` | src/common/utils/crypto-vault.ts:48-86 | A value stored in a process reads back in it after any further calls, even when the environment variable has changed. |
| `ColumnVault.LegacyPassesThrough` | src/database/transformers/encrypted-string.transformer.ts:19-27 | Exactly what reading does: without the `v1:` prefix the value passes unchanged; with it, it is read only as a four-part envelope that opens. |
| `ColumnVault.KeyExactly` | src/common/utils/crypto-vault.ts:19-36 | The key in force and the cache after a call, with the two errors: a cached key wins, else the text must be there and decode to 32 bytes. |
| `ColumnVault.StoredExactly` | src/common/utils/crypto-vault.ts:48-60 | The stored form, written out: `v1`, the draw's nonce, tag and ciphertext, colons between. |
| `ColumnVault.OpenExactly` | src/common/utils/crypto-vault.ts:66-86 | Opening, with its five errors in the order of its tests: number of parts, version, key, lengths of 12 and 16 bytes, authentication. |
| `ColumnVault.ReadExactly` | src/database/transformers/encrypted-string.transformer.ts:19-28 | Null stays null, a text without the `v1:` prefix passes, any other is opened. |
| `ColumnVault.CryptoVault.LoadKey` | src/common/utils/crypto-vault.ts:19-34 | Result and cache after it, for every cache state and raw key. |
| `ColumnVault.CryptoVault.Encrypt` | src/common/utils/crypto-vault.ts:48-60 | Equals the sealing specification and caches the key. |
| `ColumnVault.CryptoVault.Decrypt` | src/common/utils/crypto-vault.ts:66-86 | Equals the opening specification; a malformed or unknown envelope loads no key. |
| `ColumnVault.CryptoVault.To` | src/database/transformers/encrypted-string.transformer.ts:14-17 | Equals the column specification. |
| `ColumnVault.CryptoVault.From` | src/database/transformers/encrypted-string.transformer.ts:19-27 | Equals the column specification. |
| `MoneyMath.MoneyRoundTrip` | src/common/utils/money.ts:15-31 | Printing an amount and reading it back is the identity for every integer number of cents. |
| `MoneyMath.ParseExactlyThePattern` | src/common/utils/money.ts:12-22 | A text is accepted exactly when, trimmed, it matches the pattern. |
| `MoneyMath.NumeralExactly` | src/common/utils/money.ts:12-22 | Which texts are numerals at a scale, and of what value: blanks around an optional minus, digits, and at most so many more after a point. |
| `MoneyMath.AmountExactly` | src/common/utils/money.ts:15-22 | The same for amounts: the text spells 100 times the dollars plus the cents. |
| `MoneyMath.PrintedExactly` | src/common/utils/money.ts:24-31 | An amount prints as an optional minus, the dollars without needless zeros, a point and two digits. |
| `MoneyMath.SpelledIsDecimal` | src/common/utils/money.ts:20-21 | The parsed amount is the decimal value of the digits at the scale of the pattern. |
| `MoneyMath.DivRoundNearest` | src/common/utils/money.ts:34-37 | With a positive denominator the quotient is the nearest integer, ties away from zero. |
| `MoneyMath.NearestAwayUnique` | src/common/utils/money.ts:33-37 | That property determines the quotient. |
| `MoneyMath.DivRoundNegativeExact` | src/common/utils/money.ts:34-37 | With a negative denominator it still rounds so exactly for the magnitudes named by `NegativeDivisorIsSafe`, and not otherwise. |
| `MoneyMath.FourByMinusTwo` | src/common/utils/money.ts:34-37 | Four divided by minus two comes out as minus one. |
| `MoneyMath.DivIntegerNearest` | src/common/utils/money.ts:86-90 | Integer division by a positive divisor is nearest, odd and monotone. |
| `MoneyMath.DivIntegerExactly` | src/common/utils/money.ts:86-90 | It fails exactly for zero, and otherwise is the nearest cent exactly for positive divisors and the safe magnitudes of negative ones. |
| `MoneyMath.MulRateNearest` | src/common/utils/money.ts:67-77 | `mulRate` is the nearest cent to the exact product, ties away from zero, and odd. |
| `MoneyMath.MulRateMonotone` | src/common/utils/money.ts:67-77 | A non-negative rate keeps the order of amounts. |
| `MoneyMath.SumMoney` | src/common/utils/money.ts:51-53 | The fold adds exactly, and fails exactly when one value does not parse. |
| `MoneyMath.LineRoundingDrift` | src/common/utils/money.ts:34-37 | Rounding n lines separately differs from rounding their total by at most (n + 1) / 2 cents. |
| `MoneyMath.FeeSplitExact` | src/database/entities/tasks/task.entity.ts:93-115 | Fee plus payout is the price, or one cent more exactly on half-cent ties below a rate of one. |
| `MoneyMath.LineItemCheckExact` | src/database/migrations/20260520000001-InitialSchema.ts:788-789 | The line-item CHECK holds exactly off half-cent ties, for every price >= 0 and rate in 0..1. |
| `MoneyMath.FiveCentTaskViolatesCheck` | src/database/migrations/20260520000001-InitialSchema.ts:449-450 | A five-cent task at the default rate violates it. |
| `MoneyMath.FeeAgreesWithMoney` | src/database/entities/tasks/task.entity.ts:93-103 | The generated fee column and `Money.mulRate` agree on every price and parsable rate. |
| `Idempotency.RunKeepsInv` | src/common/interceptors/idempotency.interceptor.ts:92-174 | In every interleaving each stored row, and each insert in flight, is the response of a successful handler run of its own request. |
| `Idempotency.ReplaysAreHandlerResponses` | src/common/interceptors/idempotency.interceptor.ts:99-127 | In every reachable state a replay is the response of a handler run with the same key, user, endpoint and body hash, expired or not; a mismatch means a handler ran under that key with another body. |
| `Idempotency.ReplayAddressExactly` | src/common/interceptors/idempotency.interceptor.ts:190-200 | A replay answers with the run that stored the row, possibly for another address of the same route; it is the request's own address exactly when that run was for it, and always when the client used the key for one address only. |
| `Idempotency.AnotherAddressIsReplayed` | src/common/interceptors/idempotency.interceptor.ts:86-100 | For every request and every other address of its route, the key and body replay the first address's response to the second. |
| `Idempotency.RowLastsItsLifetime` | src/common/interceptors/idempotency.interceptor.ts:146-174 | Until it expires a stored row is there, unchanged, under every interleaving. |
| `Idempotency.OnlyASweepRemoves` | src/modules/housekeeping/housekeeping.processor.ts:47-52 | A row that is gone or different was removed by a sweep after its expiry. |
| `Idempotency.SweepExactly` | src/modules/housekeeping/housekeeping.processor.ts:47-60 | A sweep leaves exactly the rows whose expiry has not passed, unchanged, and touches nothing else. |
| `Idempotency.RowLastsSixHours` | src/common/interceptors/idempotency.interceptor.ts:165 | Every stored row comes from a success, and the first sweep more than six hours (21600000 ms) after that success removes it, no earlier one. |
| `Idempotency.LookupExactly` | src/common/interceptors/idempotency.interceptor.ts:99-132 | What a lookup answers and leaves behind: miss, body mismatch or the stored response. |
| `Idempotency.HandlerEndsExactly` | src/common/interceptors/idempotency.interceptor.ts:132-144 | A success starts an insert that expires six hours after it, a failure none. |
| `Idempotency.InsertExactly` | src/common/interceptors/idempotency.interceptor.ts:154-173 | The insert stores the row only when the slot is free; a failed one stores nothing. |
| `Idempotency.SuccessesAreAccountedFor` | src/common/interceptors/idempotency.interceptor.ts:129-174 | Conservation over every run: successful handler runs of a slot are pending inserts plus stored, collided and failed ones; stored rows are present or swept. |
| `Idempotency.OnceExactly` | src/common/interceptors/idempotency.interceptor.ts:129-174 | Over every schedule and from every reachable state with at most one row or insert: at every moment no insert has collided and handlers have succeeded at most once per row lifetime, plus once per failed insert, if and only if every success of the slot comes while no row is stored and no other insert of it is outstanding. |
| `Idempotency.SuccessesAreOnceExactly` | src/common/interceptors/idempotency.interceptor.ts:92-174 | The same from an empty table. |
| `Idempotency.SequentialRequestsSucceedOnce` | src/common/interceptors/idempotency.interceptor.ts:92-144 | In particular when requests under a key do not overlap, insert included. |
| `Idempotency.RetryBeatsTheInsert` | src/common/interceptors/idempotency.interceptor.ts:134-144 | Without that it is false: for every request a client that retries right after its response runs the handler twice, because the insert is not awaited. |
| `IdempotencyInterceptor.CacheKeyIsCanonical` | src/common/interceptors/idempotency.interceptor.ts:55-89 | A call is cached exactly when the route opted in, the user is known, and the header without its outer blanks has 1 to 80 characters, which are the key; sent trimmed it names the same slot. |
| `Text.TrimExactly` | src/common/interceptors/idempotency.interceptor.ts:70 | `trim` removes all the blanks at both ends and nothing else. |
| `Text.BlankExactly` | src/common/interceptors/idempotency.interceptor.ts:70 | The blanks are the white space and line terminators of ECMAScript, by code point. |
| `IdempotencyInterceptor.Interceptor.RunWithCache` | src/common/interceptors/idempotency.interceptor.ts:92-127 | The lookup outcome and the new state, for hit, mismatch and miss. |
| `IdempotencyInterceptor.Interceptor.HandlerSucceeded` | src/common/interceptors/idempotency.interceptor.ts:134-144 | The response leaves with the insert only started. |
| `IdempotencyInterceptor.Interceptor.HandlerFailed` | src/common/interceptors/idempotency.interceptor.ts:132-144 | A failed handler starts no insert. |
| `IdempotencyInterceptor.Interceptor.Persist` | src/common/interceptors/idempotency.interceptor.ts:146-174 | The insert keeps an existing row, and any database error is swallowed. |
| `IdempotencyInterceptor.Interceptor.ExpireIdempotencyKeys` | src/modules/housekeeping/housekeeping.processor.ts:47-60 | Deletes exactly the expired rows and returns their number. |
| `QuestionOrder.PositionsAreOneToN` | src/modules/admin-onboarding-questions/services/admin-onboarding-questions.service.ts:45-55 | The positions in use are exactly 1..N. |
| `QuestionOrder.OrderInColumns` | src/modules/unit-of-work/repositories/onboarding/onboarding-question.repository.ts:22-27 | What the order says of the columns: the i-th question is active, undeleted and at position i + 1; every other is inactive without a position. |
| `QuestionOrder.OrderIsUnique` | src/modules/unit-of-work/repositories/onboarding/onboarding-question.repository.ts:22-27 | The table determines the order. |
| `QuestionOrder.RemovalKeepsRelativeOrder` | src/modules/unit-of-work/repositories/onboarding/onboarding-question.repository.ts:72-100 | Leaving the active set keeps every other pair in the order it had. |
| `QuestionOrder.AcceptsIffPermutation` | src/modules/admin-onboarding-questions/services/admin-onboarding-questions.service.ts:188-196 | The three reorder tests accept a list exactly when it is a permutation of the active ids. |
| `QuestionOrder.RenumberStep` | src/modules/unit-of-work/repositories/onboarding/onboarding-question.repository.ts:61-69 | Each single UPDATE of the renumbering loop keeps the partial unique index satisfied. |
| `QuestionOrder.RenumberingOrders` | src/modules/unit-of-work/repositories/onboarding/onboarding-question.repository.ts:90-99 | The finished loop leaves the rows in order and every other column alone. |
| `QuestionOverlaps.OrderExactly` | src/modules/unit-of-work/repositories/onboarding/onboarding-question.repository.ts:42-100 | With any number of admin writes overlapping: the active questions sit at 1..N at every moment if and only if every write still finds what it needs. |
| `QuestionOverlaps.WriteKeepsOrderExactly` | src/modules/unit-of-work/repositories/onboarding/onboarding-question.repository.ts:42-100 | What that is, write by write: no question has left since an addition's MAX; the active questions are those a compaction selected; everything a reorder lists is still active, or the unique index refuses it; a question read as inactive is so still, or now the last. |
| `QuestionOverlaps.WriteInColumns` | src/modules/unit-of-work/repositories/onboarding/onboarding-question.repository.ts:42-100 | Every write in columns, on whatever rows it finds: who gets which position, who loses it, who is activated, deactivated or deleted; and that it is rolled back exactly when two active questions would share a position. |
| `QuestionOverlaps.OnlyWritesMove` | src/modules/admin-onboarding-questions/services/admin-onboarding-questions.service.ts:38-59 | Between reading and writing a transaction changes no row, dropped ones change none at all, and an inactive question is created without a position. |
| `QuestionOverlaps.SerialKeepsOrder` | src/modules/admin-onboarding-questions/services/admin-onboarding-questions.service.ts:131-214 | In particular the order is kept when no other transaction touches the bank between one's reading and its write. |
| `QuestionOverlaps.ClashExactly` | src/database/migrations/20260520000001-InitialSchema.ts:1169-1174 | The unique index refuses a reorder exactly when a question left out sits where a listed, active one is to go. |
| `QuestionOverlaps.CreationLeavesAGap` | src/modules/unit-of-work/repositories/onboarding/onboarding-question.repository.ts:42-50 | For every bank and question: deactivating it between another question's MAX and INSERT leaves a gap, and both commit. |
| `QuestionOverlaps.CompactionDropsAQuestion` | src/modules/unit-of-work/repositories/onboarding/onboarding-question.repository.ts:72-99 | For every bank and question: a question created between a compaction's SELECT and UPDATE is left active without a position, and both commit. |
| `QuestionBank.OnboardingQuestions.FindMaxActivePosition` | src/modules/unit-of-work/repositories/onboarding/onboarding-question.repository.ts:42-50 | The maximum is the number of active questions. |
| `QuestionBank.OnboardingQuestions.FindAllActiveOrdered` | src/modules/unit-of-work/repositories/onboarding/onboarding-question.repository.ts:22-27 | The active ids in ascending position, gaps or not. |
| `QuestionBank.OnboardingQuestions.DetachAndCompact` | src/modules/unit-of-work/repositories/onboarding/onboarding-question.repository.ts:72-100 | From any ascending positions to 1..N in the same order. |
| `QuestionBank.OnboardingQuestions.ReorderActive` | src/modules/unit-of-work/repositories/onboarding/onboarding-question.repository.ts:52-70 | The given permutation becomes the order, without an index violation on the way. |
| `QuestionBank.OnboardingQuestions.AssertOptionsValid` | src/modules/admin-onboarding-questions/services/admin-onboarding-questions.service.ts:226-258 | Text questions take no options, the others at least two with distinct values. |
| `QuestionBank.OnboardingQuestions.CreateQuestion` | src/modules/admin-onboarding-questions/services/admin-onboarding-questions.service.ts:38-60 | An active question is appended; an inactive one changes no position; bad options change nothing. |
| `QuestionBank.OnboardingQuestions.SetActive` | src/modules/admin-onboarding-questions/services/admin-onboarding-questions.service.ts:131-158 | Activation appends, deactivation removes and compacts, an equal value changes nothing, and no other column of any row moves. |
| `QuestionBank.OnboardingQuestions.SoftDelete` | src/modules/admin-onboarding-questions/services/admin-onboarding-questions.service.ts:160-181 | Deletion removes from the order and compacts only if the question was active. |
| `QuestionBank.OnboardingQuestions.Reorder` | src/modules/admin-onboarding-questions/services/admin-onboarding-questions.service.ts:183-214 | Accepted exactly for a permutation of the active ids, which is then the order and the answer; otherwise nothing changes. |
| `QuestionBank.OnboardingQuestions.ListActive` | src/modules/admin-onboarding-questions/services/admin-onboarding-questions.service.ts:62-67 | Lists the order. |
| `FilesCleanup.FilesCleanupService.PurgeOrphanedUploads` | src/modules/files/files-cleanup.service.ts:72-105 | The batch loop terminates, whatever the batch size. In columns: it stamps only files with no purpose, not deleted, uploaded before the cutoff and in no live attachment, oldest first, with the time of the sweep, and all of them when not cut short; its total counts them. |
| `FilesCleanup.FilesCleanupService.PurgeExpiredSoftDeletes` | src/modules/files/files-cleanup.service.ts:107-132 | The batch loop terminates, whatever the batch size and whatever removals fail. In columns: only files deleted before the cutoff go, the longest deleted first, and all of them when not cut short; links to them are emptied; bytes go exactly for the removable objects of the active provider. |
| `FilesCleanup.FilesCleanupService.PurgeOne` | src/modules/files/files-cleanup.service.ts:134-153 | The row goes whether or not its bytes could be removed. |
| `FilesCleanup.FilesCleanupService.Oldest` | src/modules/unit-of-work/repositories/files/file.repository.ts:41-51 | The batch is the oldest candidates, in order, up to the limit. |
| `FileSweep.OrphanSweepExactly` | src/modules/files/files-cleanup.service.ts:80-96 | Whatever part of the candidates a sweep deletes, it is one of unclaimed files, stamped and otherwise unchanged; all candidates means all unclaimed files. |
| `FileSweep.PurgeExactly` | src/modules/unit-of-work/repositories/files/file.repository.ts:41-51 | Whatever part of the candidates a purge removes, it is one of files deleted before the cutoff, with their links and bytes; all candidates means all such files. |
| `FileSweep.AttachedFilesAreSafe` | src/modules/files/files-cleanup.service.ts:80-98 | A sweep never touches a file with a purpose, a live attachment or a recent upload. |
| `FileSweep.LateUsesAreLost` | src/modules/files/files-cleanup.service.ts:81-97 | The UPDATE tests nothing again: of a batch, the soft-deleted files in use are exactly those attached or given a purpose since the batch's SELECT. |
| `FileSweep.InterruptedThenComplete` | src/modules/files/files-cleanup.service.ts:79-104 | A sweep cut short and then completed ends where one complete sweep does. |
| `FileSweep.InterruptedPurgeThenComplete` | src/modules/files/files-cleanup.service.ts:114-131 | The same for the purge, rows and attachment links. |
| `RateLimit.GuardedStaysWithinAllowance` | src/modules/auth/services/login-attempt-tracker.service.ts:34-58 | From any state of the counter, increments fit the rest of the window plus full windows. |
| `RateLimit.BoundIsReached` | src/modules/auth/services/login-attempt-tracker.service.ts:49-58 | The bound is exact: some legal run meets it, for every number of windows. |
| `RateLimit.MostIsReached` | src/modules/auth/services/login-attempt-tracker.service.ts:34-58 | For every counter, time and span some guarded run has as many increments as `MostInSpan`, and by `AtMostInSpan` none has more. |
| `RateLimit.SpanBoundExactly` | src/modules/auth/services/login-attempt-tracker.service.ts:34-58 | For every counter, time and span, all guarded runs in the span stay within threshold * (floor(span / window) + 1) if and only if it does not outlast whole windows by what is left of a running window that still has room. |
| `RateLimit.FailureBoundExactly` | src/modules/auth/services/login-attempt-tracker.service.ts:34-64 | The same equivalence for login attempts, correct or not: the credential checks that fail in any span without a success. |
| `RateLimit.AttemptExactly` | src/modules/auth/services/login-attempt-tracker.service.ts:34-64 | One attempt: refused exactly when the unexpired key holds the threshold, which leaves it alone; a right credential deletes the key, a wrong one counts once more, in the running window or a new one. |
| `RateLimit.SpanInsideAWindowExceeds` | src/modules/auth/services/login-attempt-tracker.service.ts:49-58 | The excess at its plainest: for every threshold and window >= 2 a legal run puts 2 * threshold - 1 failures into a span of 1. |
| `RateLimit.FailuresBetweenSuccesses` | src/modules/auth/services/login-attempt-tracker.service.ts:34-64 | After an accepted attempt and whatever failed since, the checks that fail in any span before the next success are at most what the span can hold, hence at most threshold * (floor(T / window) + 1) unless it overflows a running window, which the span right after the success never does. |
| `RateLimit.OverlappingFailures` | src/modules/auth/services/basic-auth.service.ts:290-308 | Reading the counter and counting are separate commands: with up to k attempts between them at once, every span obeys the same bounds with the threshold raised by k - 1. |
| `RateLimit.OverlapReachesIt` | src/modules/auth/services/login-attempt-tracker.service.ts:34-58 | The raise is real: from every expired counter, for every threshold, k and number n of windows some orderly run counts (threshold + k - 1) * (n + 1) failures within n windows. |
| `RateLimit.OverlapBoundExactly` | src/modules/auth/services/login-attempt-tracker.service.ts:34-58 | For every counter with nobody in flight, every span and every k: all runs with up to k overlapping attempts stay within (threshold + k - 1) * (floor(span / window) + 1) if and only if the span does not overflow a running window. |
| `RateLimit.MostOverlappedIsReached` | src/modules/auth/services/login-attempt-tracker.service.ts:34-58 | For every counter, span and k some such run counts exactly `MostOverlapped` failures, and by `AtMostOverlapped` none counts more. |
| `AttemptTracker.Tracker.AssertNotLocked` | src/modules/auth/services/login-attempt-tracker.service.ts:34-46 | Open exactly while the live count is below the threshold. |
| `AttemptTracker.Tracker.RecordFailure` | src/modules/admin-auth/services/admin-otp-attempt-tracker.service.ts:54-65 | The counter and the returned count after one failure; the window starts at the first. |
| `AttemptTracker.Tracker.Try` | src/modules/auth/services/basic-auth.service.ts:290-308 | Check, verify, then count or reset: verdict and counter after one attempt that nothing interleaves with. |
| `AdminOtp.StepKeepsInv` | src/modules/admin-auth/services/admin-auth.service.ts:50-182 | Every await-to-await step of any request or verification, every other token type's INSERT, every failure and clock tick keeps the protocol invariant: successful readings precede the first mark, stamps follow their reading, and of two unused passwords of a user the later one's UPDATE ran before the earlier one's INSERT. |
| `AdminOtp.RunKeepsInv` | src/modules/admin-auth/services/admin-auth.service.ts:50-182 | The invariant holds after every legal interleaving of any number of requests and verifications. |
| `AdminOtpGuarantees.SignInsExactly` | src/modules/admin-auth/services/admin-auth.service.ts:129-176 | In every interleaving, failures included: a password signs in at most once if and only if, of the calls it signed in, none read the row between another's reading and that one's stamp. |
| `AdminOtpGuarantees.SignInsAreReadings` | src/modules/admin-auth/services/admin-auth.service.ts:129-176 | The count in every interleaving: sign-ins are the successful readings, all made before the row was first marked used, less the calls that failed or are still open. |
| `AdminOtpGuarantees.AloneExactly` | src/modules/admin-auth/services/admin-auth.service.ts:129-166 | When no verification of it fails half-way, a password is read, and so signs in, at most once if and only if no verification reads it between another's reading and that one's stamp. |
| `AdminOtpGuarantees.EachPasswordWorksOnce` | src/modules/admin-auth/services/admin-auth.service.ts:129-176 | Under that condition on the schedule, failures or not, a password signs in at most once. |
| `AdminOtpGuarantees.TwoVerificationsSignInTwice` | src/modules/admin-auth/services/admin-auth.service.ts:129-166 | In every state and for every usable password, two verifications that overlap both sign in. |
| `AdminOtpGuarantees.APasswordCanWorkTwice` | src/modules/admin-auth/services/admin-auth.service.ts:50-182 | For every user and password some run from the start signs in twice with it. |
| `AdminOtpGuarantees.OneUnusedExactly` | src/modules/admin-auth/services/admin-auth.service.ts:62-76 | In every interleaving a user has at most one unused password if and only if no two of them come from requests that crossed: the later one's UPDATE before the earlier one's INSERT. |
| `AdminOtpGuarantees.UncrossedLeaveOne` | src/modules/admin-auth/services/admin-auth.service.ts:62-76 | When every INSERT follows its own UPDATE with no other INSERT for that user between, a user never has two unused passwords. |
| `AdminOtpGuarantees.CrossingLeavesTwo` | src/modules/admin-auth/services/admin-auth.service.ts:62-76 | For every user and any two passwords, two crossing requests leave both unused. |
| `AdminOtpGuarantees.UsedIsDead` | src/modules/admin-auth/services/admin-auth.service.ts:145-166 | A used password is never read successfully again; only calls that had already read it can still sign in, over every later run. |
| `AdminOtpGuarantees.RequestSupersedes` | src/modules/admin-auth/services/admin-auth.service.ts:62-76 | From its UPDATE on, and whatever then fails, a request kills every earlier password of its user for good, except for verifications that had read it by then. |
| `AdminOtpGuarantees.InsertExactly` | src/database/migrations/20260520000001-InitialSchema.ts:60-70 | A password is refused exactly when its hash is in the table, whichever kind of token put it there; then no row changes, so the earlier passwords stay dead. |
| `AdminOtpGuarantees.ReadExactly` | src/modules/admin-auth/services/admin-auth.service.ts:129-163 | A reading succeeds exactly for the user's own unused, unexpired password, changes no row, and otherwise sends the call to count a failure. |
| `AdminOtpSteps.ResendLimitsExactly` | src/modules/admin-auth/services/admin-auth.service.ts:226-250 | A request goes on unless the user's unexpired half-hour key holds 3 sends or the daily one 10. |
| `AdminOtpSteps.InvalidationExactly` | src/modules/admin-auth/services/admin-auth.service.ts:62-66 | The UPDATE marks exactly the user's unused one-time passwords as used now; other users, other token types and earlier stamps stay as they are. |
| `AdminOtpSteps.InsertionExactly` | src/modules/admin-auth/services/admin-auth.service.ts:68-76 | The INSERT stores an unused password that lasts ten minutes, or fails when any token carries the hash. |
| `AdminOtpSteps.SendCountExactly` | src/modules/admin-auth/services/admin-auth.service.ts:252-266 | A send counts once on the half-hour key and once on the daily one, each window starting at its first send. |
| `AdminOtpSteps.LockExactly` | src/modules/admin-auth/services/admin-otp-attempt-tracker.service.ts:38-51 | A verification goes on unless the user's unexpired failure key holds 5. |
| `AdminOtpSteps.ReadingExactly` | src/modules/admin-auth/services/admin-auth.service.ts:129-163 | A reading accepts exactly a stored one-time password of that user, unused and not past its end, and writes nothing. |
| `AdminOtpSteps.FailureCountExactly` | src/modules/admin-auth/services/admin-otp-attempt-tracker.service.ts:54-65 | A wrong password counts once on the failure key, which lasts an hour from the first. |
| `AdminOtpSteps.SignInExactly` | src/modules/admin-auth/services/admin-auth.service.ts:165-178 | The stamp writes `used_at` and no other column, the reset deletes that user's failure key alone, then the session opens. |
| `AdminOtpLimits.CountedWithin` | src/modules/admin-auth/services/admin-otp-attempt-tracker.service.ts:38-65 | For each of the three counters, after any history and over any span with at most k calls of the user between reading and counting, what is counted is at most what the span can hold at threshold + k - 1. |
| `AdminOtpLimits.SendsAreAccountedFor` | src/modules/admin-auth/services/admin-auth.service.ts:68-81 | Conservation over every run: passwords issued are sends counted, sends lost to a failure after the INSERT, and what is still under way. |
| `AdminOtpLimits.SendsObeyBothLimits` | src/modules/admin-auth/services/admin-auth.service.ts:226-269 | Counted sends obey both limits at once over every span, whatever was sent before: 3 per half hour and 10 per day, raised by k - 1 for k overlapping requests, unless the span overflows a running window; passwords issued exceed that only by the lost sends and at most k under way. |
| `AdminOtpLimits.WrongPasswordsAreLimited` | src/modules/admin-auth/services/admin-otp-attempt-tracker.service.ts:38-71 | The same for wrong passwords over every span between two sign-ins: 5 per hour, raised by k - 1. |
| `AdminOtpRuns.OrderlyIsRealised` | src/modules/admin-auth/services/admin-otp-attempt-tracker.service.ts:38-65 | The converse of what the limits rest on: from every state, every orderly run of attempts on a counter is what that counter sees of some legal run of the protocol, both send counters at once. |
| `AdminOtpRuns.WrongPasswordBoundExactly` | src/modules/admin-auth/services/admin-otp-attempt-tracker.service.ts:38-71 | From every state with no verification of the user under way, for every span and k: all runs keep the wrong passwords between sign-ins within (5 + k - 1) * (floor(span / hour) + 1) if and only if the span does not overflow a running window; and some run counts the maximum. |
| `AdminOtpRuns.WindowLimitIsReached` | src/modules/admin-auth/services/admin-auth.service.ts:226-269 | For every k some run sends 3 + k - 1 mails at one instant. |
| `AdminOtpRuns.DailyLimitIsReached` | src/modules/admin-auth/services/admin-auth.service.ts:226-269 | For every number of days and k some run, keeping the half-hour limit throughout, sends exactly the raised daily bound of its span. |
| `AdminOtpRuns.UncountedSendsAreUnlimited` | src/modules/admin-auth/services/admin-auth.service.ts:76-81 | The limits bound what is counted: from every state with room, any number of passwords can be issued and mailed at one instant, one request at a time, when each dies between its mail and its count. |
| `AdminAuthService.AdminAuth.AssertResendLimits` | src/modules/admin-auth/services/admin-auth.service.ts:226-250 | Lets a request through exactly while both counters are below their limits. |
| `AdminAuthService.AdminAuth.InvalidatePrevious` | src/modules/admin-auth/services/admin-auth.service.ts:62-66 | One UPDATE marks exactly the user's unused one-time passwords. |
| `AdminAuthService.AdminAuth.SaveToken` | src/modules/admin-auth/services/admin-auth.service.ts:68-76 | Inserts the password, or fails and changes no row when any token carries its hash. |
| `AdminAuthService.AdminAuth.IncrementResendCounters` | src/modules/admin-auth/services/admin-auth.service.ts:252-269 | Counts one send on both counters. |
| `AdminAuthService.AdminAuth.AssertNotLocked` | src/modules/admin-auth/services/admin-otp-attempt-tracker.service.ts:38-51 | Lets a verification through exactly while the failure count is below five. |
| `AdminAuthService.AdminAuth.FindToken` | src/modules/admin-auth/services/admin-auth.service.ts:129-163 | The tests in order find the password usable exactly when it is the user's own, unused and unexpired, and record the reading. |
| `AdminAuthService.AdminAuth.RecordFailure` | src/modules/admin-auth/services/admin-otp-attempt-tracker.service.ts:54-65 | Counts one failure and ends the call. |
| `AdminAuthService.AdminAuth.StampToken` | src/modules/admin-auth/services/admin-auth.service.ts:165-166 | Writes `used_at` whatever the row holds by now. |
| `AdminAuthService.AdminAuth.ResetFailures` | src/modules/admin-auth/services/admin-otp-attempt-tracker.service.ts:68-71 | Deletes the failure counter. |
| `AdminAuthService.AdminAuth.Request` | src/modules/admin-auth/services/admin-auth.service.ts:50-84 | A whole undisturbed request: which of the four ends it comes to, and what is then invalidated, issued and counted. |
| `AdminAuthService.AdminAuth.Verify` | src/modules/admin-auth/services/admin-auth.service.ts:87-182 | A whole undisturbed verification: signs in exactly when not locked and the password is usable, then consumes it and clears the counter; a wrong one counts a failure and changes no token. |

## Left out

- SessionService.SessionService.Refresh: one whole call that nothing interleaves with, which is all a sequential method can state; every order in which different callers reach the segment methods is a legal run, which `SessionGuarantees` covers.
- SessionService.SessionService.RevokeAllSessionsForUser: the DELETE with nothing to wait for; `FindOwned` and `DeleteFound` are its two ends when it waits.
- AttemptTracker.Tracker.Try: one attempt that nothing interleaves with; `RateLimit.OverlappingFailures` bounds overlapping ones.
- AdminAuthService.AdminAuth.Request: one whole call that nothing interleaves with; its segments are methods, and every order of them is a run of `AdminOtp`.
- AdminAuthService.AdminAuth.Verify: the same.
- FilesCleanup.FilesCleanupService.PurgeOrphanedUploads: no other request changes the tables during the sweep; `FileSweep.LateUsesAreLost` says what a batch does to files attached while it is in hand.
- Other webhook effects: `completeInvoicePayment`, the payer-address merge, `account.updated` and notifications do not change the modelled ledger; two webhooks interleaving inside their handlers are not modelled, the code takes no lock there.
- Float sums in the webhook handlers: balances are exact cents, which `toFixed(2)` restores within numeric(15,2).
- TaskIndex.IndexAgreesWithMap: transactions one after another; `ContextOverlaps` says what overlapping ones keep and lose.
- TaskIndex.DecisionsOnlyGrow: the same; `ContextOverlaps.AuditTrailExactly` is the exact condition under overlap.
- QuestionOrder.PositionsAreOneToN: stated of a table in order; `QuestionOverlaps.OrderExactly` says when overlapping transactions keep it so.
- ContextOverlaps.AuditTrailExactly: one operation per transaction, and its last statement together with its commit; a transaction that patches several tasks reads its own writes.
- QuestionOverlaps.OrderExactly: the statements of a write, from the first UPDATE to the commit, are one step; text, kind and options are left out.
- Concurrent transactions on the provider-key table: these run one after another here. The partial unique index refuses a second active row, but a `save` can write back columns that another transaction has changed since.
- A database failure between removing one file's bytes and deleting its row (the next sweep then finishes that row).
- JavaScript numbers as money inputs and outputs (`value.toString()`, `toNumber`, `mulInteger`), and version numbers beyond 2^53 in `parseInt`.
- Cryptographic strength, authentication failures on forged text, and plaintexts with unpaired surrogates, which UTF-8 does not keep.
- Redis failing between INCR and EXPIRE, which would leave a counter without expiry.
- Admin sign-in for an unknown or inactive user, the first request's creation of the user, and e-mail whitelisting.
- Question text and option updates, inactive listings, chat session listings, key listings, the other AI-context columns and all response mapping: no further state.
- Task review, billing settlement, withdrawal, publishing and skill-exam pipelines: their services are not part of this model.
- Deleting a user, which cascades over sessions, tokens and idempotency rows.
