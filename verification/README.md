# The leak portal's state machines, proved

This project models the logic of a breach-exposure portal in Dafny and proves what its database rows, counters, clocks
and encodings keep over every run. Each module follows one part of the program: a class with the program's mutable
fields whose methods are proved against step functions, and lemmas about those functions for all inputs, all reachable
states and all runs.

| modules | what they cover |
|---|---|
| `FindingLedger`, `LedgerHistory`, `LedgerInvariant`, `LedgerTheorems`, `LedgerProvenance`, `IngestIdempotence`, `Retention`, `RetentionTheorems` | findings keyed by fingerprint, re-leak links, remediation, the event trail, the purge |
| `LoginThrottle`, `LoginHistory` | the per-address throttle and the per-account lockout of the administrator login |
| `BatchQueue`, `BatchTheorems`, `BatchProvenance`, `BatchTargets`, `LikePattern` | the durable scan queue, and which users a target selects |
| `TokenBucket`, `LeakCheckClient`, `LeakCheckReplies` | request pacing, retries, circuit breaker, paged query |
| `Base64Url`, `FlatJson`, `AsciiText`, `OAuthTransaction` | the signed OAuth transaction cookie |
| `Digests`, `NotificationKeys`, `Notifications`, `AlertOutbox` | hash pre-images and the two outboxes |
| `Aead`, `DataKeys`, `KeyRotation`, `PlatformSettings` | encrypted stores, their key as text, and its rotation |
| `Sessions`, `SelfScan` | browser sessions and self-service scans |

Conventions. The database is maps or sequences of rows, and each committed transaction is one step. Queries that may
break ties, or return any rows up to a limit, are relations, and theorems hold for every choice. Time is a parameter.
SHA-256, HMAC and AES-GCM are function parameters with the usual laws stated as preconditions; random bytes are
parameters. Row ids of findings are their creation numbers, standing for fresh random ids.

Two kinds of results stand side by side. The invariants say what every reachable state keeps. The provenance results say
where each answer comes from, told only by what was submitted and what was stored, without the step functions: a finding
has the columns of a record that was ingested, a queue row ended as its worker reported, a failure counted against an
address is a refused login, a row of an outbox says what the other side answered, a token is accepted exactly by its
history.

Shared arithmetic is in `Numbers`, the option type in `Wrappers`.

Where the code departs from its own words, the model follows the code, and each departure has its exact condition:

- The purge says "newest work first", but gives no order (`app/retention.py:85` and `:97`). `NewestFirstExactly` says
  when every choice it may make is newest first. A purge that would leave a link to a deleted row is refused as a whole
  by the foreign key (`app/models.py:485-487`): `FullPurgeExactly` and `PurgeSucceedsExactly` say when,
  `RefusedPurgeIsReachable` gives a run that leads there, and `RefusedWhilePredecessorIsOpen` says how long it lasts.
- An OU target written with a trailing slash selects the descendants but not the OU itself; `OuSelectsSubtree` says
  exactly when.
- `total_count` counts selected users while the queue has one row per case-folded address; `TotalCountsUsersNotRows`
  says exactly when they agree.
- A finisher that comes late leaves a finished batch's status and counters alone but rewrites its `finished_at`:
  `LateFinishExactly` says when a finished batch is left as it was, `LateFinishMovesTheStamp` gives a run where it is not.
- A circuit threshold below one is accepted by the constructor, and acts as a threshold of one;
  `ThresholdMustBePositive` says that exactly the positive thresholds mean what they say.
- The base64 decoder skips ASCII characters outside its alphabets but pads by the whole length, so such a character can
  make text undecodable, and a character outside ASCII always does; `DecodeSkipsOthersExactly` says exactly when,
  `StrayCharacterBreaks` shows one of each.
- A rotation decodes its key texts leniently (`app/reencrypt.py:34-40`), the settings strictly (`app/config.py:91-92`),
  so it may commit under a text that the restarted application refuses: `RotationAcceptsMore` gives such texts, and
  `SettingsAcceptExactly` says which texts the settings accept.
- The throttle's bound on failures of an address is sharp exactly when window and block last more than one unit of the
  clock, or one unit and a single failure blocks (`AddressBoundIsSharpExactly`); the settings ask for sixty seconds.
- A scan whose task never finishes it stays active and keeps its user from every further check
  (`ActiveUntilFinished`, `AbandonedScanBlocks`).
- A successful scan ends when it starts, since one clock reading is used for both (`SuccessEndsAtItsStart`).

## Model

| member | source | states |
|---|---|---|
| FindingLedger.Ledger.UpsertFinding | app/ingest.py:135-171 | a known fingerprint only refreshes the sighting columns of its row; an unknown one inserts exactly one new row |
| FindingLedger.Ledger.FindRemediatedPredecessor | app/ingest.py:173-194 | returns a most recently remediated, unlinked finding with the same subject, identity and source name and another password, and none exactly when there is none |
| FindingLedger.Ledger.LinkReleak | app/ingest.py:196-199 | sets the predecessor's link and the successor's severity, nothing else |
| FindingLedger.Ledger.IngestRecord | app/ingest.py:239-274 | one record is one step of the ledger relation |
| FindingLedger.Ledger.IngestRecords | app/ingest.py:223-275 | the loop is a trace of such steps, and its summary is the tally of their outcomes |
| FindingLedger.Ledger.RemediateFinding | app/remediation.py:18-37 | closes an open finding once and logs it; closed or missing findings change nothing |
| FindingLedger.Ledger.UnremediateFinding | app/remediation.py:40-58 | reopens a closed finding once and logs it; open or missing findings change nothing |
| FindingLedger.Ledger.PurgeExpiredFindings | app/retention.py:78-110 | deletes the selected eligible findings with their events, or fails and deletes nothing exactly when a surviving link would dangle |
| LedgerInvariant.StepKeepsInv | app/ingest.py:239-274 | every committed step keeps rows, links and replayed trails in agreement |
| LedgerInvariant.RunKeepsInv | app/ingest.py:223-275 | the agreement holds in every state of every interleaving |
| LedgerTheorems.TrailIsFaithful | app/remediation.py:28-58 | one discovery first; closings alternate; remediated exactly when the last of them is a remediation, by that actor at that time; high exactly when there is one re-leak event |
| LedgerTheorems.NoEventOutlivesItsFinding | app/retention.py:105-107 | every event in every reachable state names a stored finding |
| LedgerTheorems.ChainsRunForward | app/ingest.py:173-199 | following links goes strictly forward in creation order, so chains never cycle, and keeps subject, identity and a named source |
| LedgerTheorems.LinksAreDisjoint | app/ingest.py:263-273 | a link never dangles, joins different passwords, ends in a high finding whose trail names the predecessor, and shares its target with no other link |
| LedgerTheorems.OnlyExpiredFindingsAreDeleted | app/retention.py:91-107 | a finding disappears only by a purge under a deleting policy that found it closed by the cutoff |
| LedgerTheorems.DeletedFindingsHadExpired | app/retention.py:91-107 | in every run a finding that has gone was deleted by such a purge at some step between |
| LedgerTheorems.LogIsAppendOnly | app/ingest.py:201-220 | outside a purge, rows stay and every trail only grows at its end |
| LedgerTheorems.PurgeSparesSurvivors | app/retention.py:97-107 | a purge leaves every surviving row and its trail as they were |
| LedgerTheorems.PolicyFailsClosed | app/retention.py:56-75 | exactly which stored settings delete anything, and the cutoff they give |
| RetentionTheorems.NewestFirstExactly | app/retention.py:85-102 | every selection takes the newest first exactly when none or all are taken, or all were closed at once |
| RetentionTheorems.FullPurgeExactly | app/retention.py:97-107 | with room for all eligible rows, exactly they go when no other row links to one, and nothing goes otherwise |
| RetentionTheorems.PurgeSucceedsExactly | app/retention.py:97-107 | whatever is selected, the purge is accepted exactly when nothing is taken, no eligible row is linked to, or all are taken and linked only from among themselves |
| RetentionTheorems.RefusedPurgeIsReachable | app/remediation.py:49-56 | a run after which one finding is eligible and no purge removes it |
| RetentionTheorems.RefusedWhilePredecessorIsOpen | app/retention.py:97-107 | while the predecessor stays open its successor is never deleted and every purge that takes it with all others does nothing |
| IngestIdempotence.BatchAddsItsFingerprints | app/ingest.py:223-275 | the stored fingerprints grow by exactly the batch's, and `new_count` is by how many |
| IngestIdempotence.OrderDoesNotMatter | app/ingest.py:239-275 | reordering or repeating records changes neither the fingerprints nor the new count |
| IngestIdempotence.IngestSplits | app/ingest.py:239-275 | ingesting `xs + ys` is ingesting `xs` and then `ys`: the same runs, and a summary that is the two summaries joined |
| IngestIdempotence.ReingestOnlyRefreshes | app/ingest.py:135-171 | re-ingesting stored records adds no row, event or link |
| IngestIdempotence.ImmediateReingestChangesNothing | app/ingest.py:223-275 | repeating a batch at the same time is the identity on the database |
| IngestIdempotence.ReingestAfterWork | app/ingest.py:250-254 | after any remediations, reopenings and other ingests, re-ingesting changes only the sighting columns of the rows it mentions |
| LedgerProvenance.FindingsComeFromRecords | app/ingest.py:135-171 | in every run a finding has the subject, source, identity, password and fingerprint of a record ingested when no stored finding had its fingerprint, and was first seen then |
| LedgerProvenance.SightingsAreTheLatest | app/ingest.py:153-171 | in every run a finding shows the record and the time of the latest ingest of its fingerprint |
| LedgerProvenance.ClosedExactlyByItsClosing | app/remediation.py:18-58 | in every run a finding is closed exactly when a remediation found it open and no reopening came since; when, by whom and with which note are that remediation's |
| LedgerProvenance.EventsAreExactlyTheRecorded | app/remediation.py:28-58 | in every run the trail of a stored finding holds exactly the events its steps recorded, with their actor and time |
| LedgerProvenance.ReLeaksAreLinkedExactly | app/ingest.py:173-199 | a new finding is high exactly when one of the same account and named source was closed under another password and is not linked; the one closed last is linked, and no other row changes |
| LedgerProvenance.SummaryIsTrue | app/ingest.py:223-275 | the summary names the rows that hold the records, the ids added, each once, and counts the rows and links added |
| LedgerProvenance.PurgeRemovesTheExpired | app/retention.py:56-110 | with no link into an expired finding, a purge removes as many expired ones as its limit allows, and nothing else |
| LedgerProvenance.SourcesShowTheLatestFlags | app/ingest.py:112-133 | in every run a source is stored exactly when a record named it, with the flags of the latest |
| LoginHistory.FailuresAreTheRefusals | app/auth/local.py:231-309 | in every run the failures counted against an address are exactly the logins from it that found it unblocked and returned no user |
| LoginHistory.ChecksAreTheGuesses | app/auth/local.py:265-301 | in every run the factor checks of an account are exactly the logins that reached it, right exactly if password and enrolled code are |
| LoginHistory.RefusalsAreCounted | app/auth/local.py:231-341 | a refused login adds one failure to its address whatever was wrong, and blocks it at the maximum; a granted one adds none |
| LoginHistory.GuessesAreCounted | app/auth/local.py:272-309 | wrong factors add one failure to the account since its last lockout and lock it at the maximum; right ones clear both and are its last login |
| LoginHistory.RefusalsAreBounded | app/auth/local.py:236-239 | any time shorter than window and block holds at most `2 * max - 1` refused logins of one address |
| LoginHistory.WrongGuessesAreSpread | app/auth/local.py:272-301 | `max + 1` consecutive wrong guesses at an account span at least its lockout |
| LoginHistory.LastLoginIsTheLastRightGuess | app/auth/local.py:303-309 | in every run the last login of an account is its last right guess |
| LoginThrottle.LocalAuthenticator.ResetIpLimitIfElapsed | app/auth/local.py:328-335 | an elapsed block clears the counter, else an elapsed window does |
| LoginThrottle.LocalAuthenticator.RecordIpFailure | app/auth/local.py:337-341 | counts one failure in a current window and blocks at the maximum |
| LoginThrottle.LocalAuthenticator.Authenticate | app/auth/local.py:219-309 | the login as one step on both tables, with who is returned |
| LoginThrottle.RunTracksAddresses | app/auth/local.py:328-341 | in every run the counter covers the latest failures and the block is set exactly when the counter is full |
| LoginThrottle.AddressFailuresAreBounded | app/auth/local.py:236-239 | any time shorter than window and block holds at most `2 * max - 1` recorded failures of one address |
| LoginThrottle.AddressBoundIsAttained | app/auth/local.py:328-341 | for every configuration some run has that many failures within one unit of the clock |
| LoginThrottle.AddressBoundIsSharpExactly | app/auth/local.py:328-341 | some run has that many failures in a time shorter than window and block exactly when both last two units of the clock, or one unit with a maximum of one |
| LoginThrottle.GuessesAreSpread | app/auth/local.py:272-301 | `max + 1` consecutive failed factor checks on an account span at least its lockout |
| LoginThrottle.GrantedExactlyWhen | app/auth/local.py:231-309 | a user is returned exactly when address, account, role, lock, password and enrolled code all pass |
| BatchQueue.Queue.CreateBatch | app/batches.py:65-99 | one untouched row per distinct subject in a new pending batch, or an error for no users |
| BatchQueue.Queue.ClaimNext | app/batches.py:102-146 | takes the first claimable row not locked elsewhere, or none when there is none |
| BatchQueue.Queue.FinishWork | app/batches.py:149-181 | closes the row if it still runs and recounts its batch |
| BatchTheorems.RunKeepsInv | app/batches.py:102-181 | queue rows, batches and claims stay consistent over every interleaving |
| BatchTheorems.BatchIsDerived | app/batches.py:134-181 | status and counters of a batch are exactly what its rows say, in both directions |
| BatchTheorems.ClaimsAreFarApart | app/batches.py:105-131 | two claims of one row are stamped more than ten minutes apart |
| BatchTheorems.AttemptsCountClaims | app/batches.py:120-131 | the attempts of every row count the claims made of it |
| BatchTheorems.TerminalRowIsFinal | app/batches.py:153-163 | a terminal row never changes, whoever finishes late |
| BatchTheorems.FinishedBatchIsFinal | app/batches.py:174-181 | a finished batch keeps status and counters for ever |
| BatchTheorems.LateFinishExactly | app/batches.py:164-181 | a finish leaves a finished batch exactly as it was unless it is the batch's own at another time |
| BatchTheorems.LateFinishMovesTheStamp | app/batches.py:175-180 | a run in which a second finisher moves the time stamp of a finished batch |
| BatchTheorems.FinishesMakeProgress | app/batches.py:153-163 | an effective finish closes exactly one open row, a late one none, and claims open none |
| BatchTheorems.OpenRowsAreConsumed | app/batches.py:153-163 | while nothing is created, the open rows go down by exactly the finishes that came in time |
| BatchTheorems.TotalCountsUsersNotRows | app/batches.py:68-97 | the declared total is the number of queue rows exactly when no two addresses fold together |
| BatchProvenance.RowsEndAsReported | app/batches.py:149-163 | in every run a terminal row has the outcome, error and time that a worker reported when the row was running |
| BatchProvenance.BatchSucceedsExactly | app/batches.py:164-181 | in every run a batch has succeeded exactly when every row of it was reported to have succeeded |
| BatchProvenance.RunningRowsNameTheirClaimer | app/batches.py:120-131 | in every run a running row is held by the worker and since the time of its latest claim |
| BatchProvenance.ClaimsTakeTheFirstWaiting | app/batches.py:102-131 | in every run a claim takes the first created of the rows never claimed or claimed more than ten minutes ago, and none only when none waits |
| BatchProvenance.RowsComeFromSelections | app/batches.py:68-97 | in every run a row was queued for a user selected by the creation of its batch, then |
| BatchProvenance.BatchesAreStamped | app/batches.py:134-146 | in every run a batch has started exactly with its first claim, and has an end exactly when finished |
| BatchProvenance.FinishedAtTheLatestReport | app/batches.py:174-181 | in every run the end of a finished batch is the time of the latest report about it |
| LikePattern.ChainedReplacesEscapeEach | app/batches.py:184-185 | the three chained replaces are one escape per character |
| LikePattern.EscapedMatchesItself | app/batches.py:184-185 | escaped text in a LIKE pattern consumes exactly itself |
| LikePattern.PrefixPattern | app/batches.py:188-189 | `escape(p) + "%"` matches exactly the strings that start with `p` |
| LikePattern.SuffixPattern | app/batches.py:57-58 | `"%@" + escape(d)` matches exactly the strings that end with `"@" + d`, up to case |
| BatchTargets.OuSelectsSubtree | app/batches.py:47-53 | an OU target selects exactly its descendants, and itself exactly without a trailing slash; never a sibling sharing a name prefix |
| BatchTargets.TopOuSelectsAll | app/batches.py:188-189 | the top OU selects every user with a path |
| BatchTargets.DomainSelectsItsAddresses | app/batches.py:54-59 | a domain target selects exactly the addresses at that domain, up to case, and none if it has an inner at sign |
| TokenBucket.RunKeepsInv | app/leakcheck.py:105-119 | tokens stay in [0, 1] and are what flowed in since the last grant, however the refill is split |
| TokenBucket.GrantedExactly | app/leakcheck.py:105-119 | in every run a poll is granted exactly when it is the first or a period has gone by since the last grant |
| TokenBucket.DelayIsExact | app/leakcheck.py:118-119 | in every run a refused poll is told to wait exactly until a period has gone by since the last grant |
| TokenBucket.GrantsAreSpaced | app/leakcheck.py:99-101 | consecutive grants are at least `1 / rate` apart for any tasks polling at any times |
| TokenBucket.GrantsAreBounded | app/leakcheck.py:99-117 | an interval of length `L` holds at most `ceil(L * rate)` grants |
| TokenBucket.OneSleepSuffices | app/leakcheck.py:118-119 | a refused task that sleeps the computed delay undisturbed is then granted |
| TokenBucket.Bucket.Poll | app/leakcheck.py:107-118 | one pass through the lock is one step of the bucket |
| TokenBucket.Bucket.Acquire | app/leakcheck.py:105-119 | a lone waiter is granted after at most one sleep |
| LeakCheckClient.OpenExactlyAtThreshold | app/leakcheck.py:277-284 | in every run the circuit is open exactly when the failure count has reached the threshold |
| LeakCheckClient.ThresholdMustBePositive | app/leakcheck.py:277-280 | that equivalence holds of the configured threshold in every run exactly when it is at least one |
| LeakCheckClient.NothingIsSentBeforeTheReset | app/leakcheck.py:268-280 | once a failure has opened the circuit nothing is sent until the reset time after that failure |
| LeakCheckClient.OpenedByTheLastFailure | app/leakcheck.py:268-280 | an open circuit was opened by the end of the last attempt sent, which failed |
| LeakCheckClient.BurstsAreFollowedByQuiet | app/leakcheck.py:268-284 | a threshold of failed sends with no success is followed by no send before the reset time from the first of them |
| LeakCheckClient.TotalBackoffClosedForm | app/leakcheck.py:204-220 | total backoff is `2^r - 1` up to four retries and `15 + 8 (r - 4)` beyond |
| LeakCheckClient.Client.EnsureCircuitAvailable | app/leakcheck.py:268-275 | refuses before the reset time, and closes the circuit after it |
| LeakCheckClient.Client.RequestPage | app/leakcheck.py:190-227 | which attempt ends the request and how, at most `max_retries + 1` sends, a total sleep that is the backoff of the retries made and never above that of all, and the circuit afterwards |
| LeakCheckClient.RequestEndsOneWay | app/leakcheck.py:196-227 | one request has one end: a page exactly on a parsable 200, unavailable exactly when refused or out of retries |
| LeakCheckReplies.RequestStopsExactly | app/leakcheck.py:196-227 | a request stops at an attempt exactly when every earlier one was sent and met a network error, 429 or 5xx, and this one did not, was refused, or was the last |
| LeakCheckReplies.OutcomesExactly | app/leakcheck.py:203-227 | each outcome has its exact replies: 401 is a configuration error, a parsable 200 a page, other final answers a protocol error |
| LeakCheckReplies.ExchangeCounts | app/leakcheck.py:268-284 | a network error, 429 or 5xx adds one failure and opens the circuit at the threshold, any other answer closes it, an error while reading does neither |
| LeakCheckReplies.RefusedExactly | app/leakcheck.py:268-284 | in every run an attempt is refused exactly when the last one sent failed, reached the threshold, and ended less than the reset time ago |
| LeakCheckClient.Client.QueryDomain | app/leakcheck.py:170-188 | the pages that the requests for them end in, joined up to the first short one or the limit; or the failure of the first page that fails; and the circuit after exactly the exchanges made |
| LeakCheckClient.QueryCompletesExactly | app/leakcheck.py:174-188 | the query completes exactly when every page it has to ask for arrives |
| LeakCheckClient.PagedQueryIsExact | app/leakcheck.py:170-188 | against a server of `data` the pages join to its first `1000 * max_pages` records, and the last is full exactly when there are that many |
| LeakCheckClient.HonestQueryIsExact | app/leakcheck.py:170-188 | over an honest network it completes exactly when every page needed arrives, and then records, `found` and `truncated` are exact |
| LeakCheckClient.HealthyQueryIsExact | app/leakcheck.py:170-188 | with the circuit closed and every page answered, it completes with exactly the server's first records |
| Base64Url.EncodedShape | app/auth/google.py:450-451 | `n` bytes encode to `(4n + 2) / 3` url-safe characters, and the pads put back are the ones stripped |
| Base64Url.DecodeUndoesEncode | app/auth/google.py:450-455 | decoding inverts encoding on every byte string |
| Base64Url.QuadsAreTheNumber | app/auth/google.py:450-451 | the four digits of three bytes are the same number as the bytes |
| Base64Url.EncodeIsInjective | app/auth/google.py:450-451 | different bytes have different encodings |
| Base64Url.DecodeSkipsOthersExactly | app/auth/google.py:454-455 | text without padding decodes exactly when it is ASCII, its alphabet characters do not leave one over, and the pads for its whole length complete them; it then decodes as those characters alone |
| Base64Url.StrayCharacterBreaks | app/auth/google.py:454-455 | one character outside the alphabets, or outside ASCII, makes decodable text undecodable |
| FlatJson.ReadUndoesWrite | app/auth/google.py:120-129 | reading a compactly written flat object returns its members |
| OAuthTransaction.CreatedIsCreatable | app/auth/google.py:102-110 | created tokens have 43, 43 and 86 url-safe characters |
| OAuthTransaction.CreationTellsDrawsApart | app/auth/google.py:102-110 | each created token decodes to its own random bytes, so two share a token exactly when they drew the same |
| OAuthTransaction.ChallengesDiffer | app/auth/google.py:112-115 | the code challenge is the verifier's digest as a 43-character token, and tells digests apart |
| OAuthTransaction.PayloadText | app/auth/google.py:120-129 | the signed text, member by member |
| OAuthTransaction.CookieShape | app/auth/google.py:117-132 | one dot, a 43-character signature, and well under 2048 characters |
| OAuthTransaction.DeserializeUndoesSerialize | app/auth/google.py:134-172 | a cookie comes back as its transaction exactly until it expires |
| OAuthTransaction.TransactionsLiveTenMinutes | app/auth/google.py:102-172 | accepted through second 599 after creation, refused from second 600 on |
| OAuthTransaction.OnlyOneSignature | app/auth/google.py:142-149 | for one payload and key no second signature is ever accepted |
| OAuthTransaction.AcceptedUnderOneDigest | app/auth/google.py:145-149 | a cookie accepted under two keys has the same digest under both |
| OAuthTransaction.AcceptedIsSigned | app/auth/google.py:139-160 | an accepted cookie carries the digest of its very payload under the key, and the payload says what is accepted |
| OAuthTransaction.AcceptedExactly | app/auth/google.py:134-172 | exactly which cookies are accepted, and as which transaction |
| OAuthTransaction.AcceptedMayBeReissued | app/auth/google.py:117-172 | the cookie of an accepted transaction whose expiry is within the calendar is itself accepted, as the same transaction |
| OAuthTransaction.AcceptedIsWellFormed | app/auth/google.py:160-172 | whatever is accepted has well-formed tokens and has not expired |
| Digests.DigestOf | app/ingest.py:342-346 | the loop hashes the length-prefixed parts, and fails on a part of 2^32 bytes |
| Digests.FramedIsInjective | app/ingest.py:342-346 | length-prefixed parts are told apart whatever their number |
| Digests.FingerprintTellsApart | app/ingest.py:323-346 | two findings hash the same bytes exactly when all traits agree, a missing hash being the zero hash |
| Digests.IdentityTellsApart | app/ingest.py:370-378 | identity keys hash the same bytes exactly for the same three identifiers, and never a fingerprint's |
| Digests.IdentityKey | app/ingest.py:370-378 | no key exactly when all three identifiers are empty |
| NotificationKeys.HexReads | app/notifications.py:92 | an id's text has two lower-case hexadecimal digits for each byte |
| NotificationKeys.CanonicalIsTheSet | app/notifications.py:92 | sorting without duplicates forgets order and repetition, and nothing else |
| NotificationKeys.KeyImageIsInjective | app/notifications.py:238-243 | the undelimited pre-image still determines user, template and ids |
| NotificationKeys.ImagesTellRequestsApart | app/notifications.py:83-105 | two requests share a pre-image exactly when user, template and set of findings agree |
| Notifications.EnqueueDeduplicates | app/notifications.py:83-105 | a row is added exactly when no queued request is the same, and asking again changes nothing |
| Notifications.MessagesAreApart | app/notifications.py:169-191 | with a cooldown never below `g`, two messages to one user are sent at least `g` apart |
| Notifications.RowsEndAsDelivered | app/notifications.py:141-194 | in every run a row no longer pending was delivered by one step: a dry run when none is set or it is set, suppressed when its user was sent something within the cooldown, else sent exactly if the mail server took it |
| Notifications.RowsAreAttemptedOnce | app/notifications.py:141-194 | in every run a row no longer pending was attempted once, any other never |
| Notifications.RowsWereRequested | app/notifications.py:83-105 | in every run each row was asked for, when it was created |
| Notifications.DeliveredIsFinal | app/notifications.py:163-194 | a row that left the pending state never changes again |
| Notifications.Outbox.DeliverNext | app/notifications.py:141-194 | takes the oldest pending row; dry run, cooldown, success or failure; unreadable settings change nothing |
| Notifications.GroupsKeepOrder | app/notifications.py:128-130 | grouping keeps every pair, in order |
| Notifications.GroupsHoldTheirPairs | app/notifications.py:128-130 | a user's group holds each finding as often as it was paired with that user |
| Notifications.Group | app/notifications.py:128-130 | the dictionary holds exactly the users mentioned, each with its findings |
| AlertOutbox.Outbox.DispatchNext | app/alerts.py:122-162 | attempts the earliest due row once, if there is one |
| AlertOutbox.Outbox.FanOut | app/alerts.py:93-116 | a run of enqueueings, one for each enabled sink of each finding, that leaves a row for exactly the old keys and those |
| AlertOutbox.AttemptsAreCounted | app/alerts.py:144-160 | attempts equals the number of attempts made; a pending row has fewer than five |
| AlertOutbox.RowsSayTheirAnswers | app/alerts.py:144-160 | in every run a row is delivered exactly if its last attempt met no error, given up exactly after five that all did, and shows the last error |
| AlertOutbox.PendingRowsAreDueAsPlanned | app/alerts.py:150-156 | in every run a pending row is due when it was queued, then 15, 30, 60 and 120 seconds after its attempts |
| AlertOutbox.DeadLettersHadFiveTries | app/alerts.py:150-156 | a dead letter was attempted five times over at least 225 seconds, whatever the clock does |
| AlertOutbox.FinalRowsAreFinal | app/alerts.py:131-160 | delivered and dead-lettered rows never change |
| AlertOutbox.OneRowPerKey | app/alerts.py:35-53 | one row per sink and scope |
| AlertOutbox.DispatchingEnds | app/alerts.py:122-162 | from every reachable state, without new rows at most five dispatches per row find work |
| Aead.AadsAreDistinct | app/platform_settings.py:162-164 | no two rows share associated data, within a store or across the three |
| KeyRotation.FindingSurvives | app/reencrypt.py:70-83 | a finding that is not lost reads the same under the new key, and rotating back restores its bytes |
| KeyRotation.SettingSurvives | app/reencrypt.py:86-92 | the same for a setting, lost exactly when it does not read under the old key |
| KeyRotation.CredentialSurvives | app/reencrypt.py:99-114 | the same for a TOTP seed with its nonce in front |
| KeyRotation.PlaintextsArePreserved | app/reencrypt.py:61-116 | if no row fails, all three stores read under the new key as they did under the old |
| KeyRotation.ReportIsComplete | app/reencrypt.py:43-116 | successes and failures make up the eligible rows, and no failure is reported exactly when none is lost |
| KeyRotation.ReportCountsWhatOpens | app/reencrypt.py:61-116 | each count of the report is the number of rows of its store that open under the old key |
| KeyRotation.FailuresNameTheLost | app/reencrypt.py:61-116 | the failures name exactly the rows with a ciphertext that does not open |
| KeyRotation.RotatingBackRestores | app/reencrypt.py:57-116 | rotating with swapped keys restores the exact bytes |
| KeyRotation.Database.Rotate | app/reencrypt.py:61-116 | the three loops rotate every store and report it, unless a setting has an unknown name |
| KeyRotation.Database.Run | app/reencrypt.py:119-139 | commits exactly when no row fails and it is no dry run; otherwise every store is as before |
| DataKeys.GeneratedKeysDecode | app/reencrypt.py:34-40 | generated keys decode to their bytes |
| DataKeys.RotationAcceptsExactly | app/reencrypt.py:34-40 | a rotation accepts a text without padding exactly if it is ASCII with 43 alphabet characters and a length that is no multiple of four |
| DataKeys.SettingsAcceptExactly | app/config.py:84-97 | the settings accept exactly the texts of 43 alphabet characters, padded or not, that do not begin like a placeholder, and take the key a rotation takes |
| DataKeys.RotationAcceptsMore | app/reencrypt.py:34-40 | every key with four stray characters behind it is accepted by a rotation and refused by the settings |
| DataKeys.GeneratedKeysAreAccepted | app/reencrypt.py:142-145 | the settings accept a generated key, and as the bytes drawn, exactly unless it begins like a placeholder |
| PlatformSettings.SettingsStore.WriteMany | app/platform_settings.py:106-141 | reading gives what was written; keys not written keep their very bytes |
| PlatformSettings.LastSuppliedValueIsRead | app/platform_settings.py:106-141 | after a write a key reads as the last value supplied for it, and keeps its bytes if none was |
| PlatformSettings.BlankSecretsAreKept | app/platform_settings.py:115-117 | a blank secret keeps the stored one, a blank plain value is stored |
| Sessions.DeadlinesAreOrdered | app/auth/session.py:72-79 | the idle deadline never passes the absolute one, which never moves |
| Sessions.DeadStaysDead | app/auth/session.py:115-127 | once revoked or expired, a session is refused for ever |
| Sessions.RevokeAllEndsThemAll | app/auth/session.py:153-168 | no session of the user that existed is accepted again; other users' sessions are untouched |
| Sessions.UsesAreBounded | app/auth/session.py:87-127 | accepted uses lie within the absolute time of issue and less than the idle time apart |
| Sessions.AcceptedExactly | app/auth/session.py:59-168 | in every run a token is accepted exactly if it was issued, nothing revoked it since, its user is active, and neither the absolute time since issue nor the idle time since its last use has passed |
| Sessions.TokensStayTheirUsers | app/auth/session.py:59-127 | in every run an accepted session is the user's its token was issued to |
| Sessions.SessionManager.VerifyToken | app/auth/session.py:87-127 | accepts exactly live sessions of active users, and slides only those |
| Sessions.SessionManager.RevokeAllOf | app/auth/session.py:153-168 | revokes every unrevoked session of the user and counts them |
| SelfScan.Portal.LatestStart | app/routers/user.py:255-266 | the latest start among the user's own scans, or none when none has started |
| SelfScan.Portal.SelfCheck | app/routers/user.py:71-111 | exactly when a check is refused, and why, or admitted |
| SelfScan.NoneRemainsExactly | app/routers/user.py:310-318 | truncating to whole seconds loses nothing: no time remains exactly when the cooldown has passed |
| SelfScan.RetryAfterSuffices | app/routers/user.py:79-84 | waiting as long as the answer says is enough |
| SelfScan.RetryAfterIsTight | app/routers/user.py:310-318 | a second less than the answer says is not enough |
| SelfScan.ScansAreAsReported | app/scan_runtime.py:66-116 | in every run a scan is pending, running, succeeded or failed exactly as its task's events say, finishes once, and has their times |
| SelfScan.AdmittedExactly | app/routers/user.py:71-111 | a check is admitted exactly if configured, with a readable cooldown from a minute to thirty days, no own scan unfinished and none started within the cooldown |
| SelfScan.ScansWereAdmitted | app/routers/user.py:71-111 | in every run an own scan was admitted by a check of its user |
| SelfScan.AtMostOneActive | app/routers/user.py:269-279 | a user never has two active own scans |
| SelfScan.FinishedScansStarted | app/scan_runtime.py:73-116 | every finished scan has a start, no later than its end |
| SelfScan.SuccessEndsAtItsStart | app/scans.py:30-72 | a successful scan's end is its start |
| SelfScan.ActiveUntilFinished | app/scan_runtime.py:66-116 | an active scan stays active exactly as long as its own task does not finish it |
| SelfScan.AbandonedScanBlocks | app/routers/user.py:73-78 | until then its user is admitted to no further check |
| SelfScan.AdmissionWaitsOutTheCooldown | app/routers/user.py:74-84 | at admission every earlier own scan, failed or not, started at least the cooldown ago |
| SelfScan.StartsAreApart | app/routers/user.py:255-318 | with a cooldown never below `g`, two own scans of one user start at least `g` apart |
| SelfScan.Portal.FinishScan | app/scan_runtime.py:79-116 | success overwrites start and end with one clock reading; failure keeps the committed start |

## Left out

- Interleaving inside a transaction: each is atomic. `finish_work` counts rows without locking its batch, rows locked
  by other deliveries are skipped, and the breaker's check comes before the limiter's wait, so the theorems about
  counters, cooldowns and the circuit are about transactions and requests in sequence.
- The worker's endless loop: its claim, execute, finish and purge steps are modelled, the loop is not.
- Cryptography, password hashing and rehashing, TOTP codes, SMTP, HTTP and JWT verification: parameters or absent.
- Unicode: normalization, case folding and the lower-casing of ILIKE are function parameters; ILIKE folds character by
  character; UTF-8 encoding of texts is assumed done.
- FlatJson.ReadUndoesWrite: the reader takes flat objects with plain ASCII strings and integers; escapes, nesting and
  other values are refused where Python would parse them, which only a payload signed by another program could contain.
- KeyRotation.Database.Run: a nonce of a length AES-GCM refuses would end the rotation with an error; the database's
  constraint keeps nonces at 12 bytes, and the case is not modelled.
- Notifications.MessagesAreApart: for deliveries in sequence only; two deliveries at once could each miss the other.
- TokenBucket.GrantsAreBounded: over exact reals, not over floating point.
- Sessions.SessionManager.IssueSession: random tokens are taken to be new, and a token stands for its hash.
- LedgerTheorems.PolicyFailsClosed: a day count too large for a calendar is an overflow error in Python, not modelled.
- The loop that enqueues one digest per group, the e-mail text, password masks, HTML, the form parsing of the routers,
  OIDC discovery, schedules, migrations and scripts: text, input or one call each, with no state to keep.
- Notifications.Outbox.DeliverNext: the error text stored beside a suppressed or failed row.
- AlertOutbox.Outbox.FanOut: the payload, and the choice of event name from the severity; scopes are given.
- The breach source's vendor text columns; a source is named by its unique name and date.
- The upsert of the subject a self-check resolves, the audit log, and first and last scan times of subjects.
