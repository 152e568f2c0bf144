# Marco, verified

A Dafny model of the state machines and codecs inside the Marco mail server, with proofs of what they promise over
whole runs. SQLite tables are sequences or maps, each statement or transaction is one atomic step, clocks are
integers that are passed in, and goroutines are interleaved steps of a transition system. Code that updates
state is a class whose methods are proved against functions of the old state; the theorems are then lemmas about
those functions.

`dafny verify dfyconfig.toml` checks everything.

## What is here

| component | files |
|---|---|
| Outbound queue: table, worker, interleaved protocol, runs | `storage_queue`, `queue_worker`, `queue_protocol`, `queue_runs`, `queue_accounts` |
| Reference-counted blob store under every caller | `blob_store`, `blob_protocol`, `blob_accounts` |
| Token-bucket limiter with eviction | `rate_limit`, `rate_limit_runs` |
| Wrapped base64, POP3 byte-stuffing, FTS5 quoting | `base64`, `dot_stuffing`, `search_query`, `search_terms` |
| CIDR matching and the SPF evaluator | `net_text`, `cidr`, `spf`, `spf_fragment`, `spf_records` |
| Message table and IMAP mailbox views | `message_table`, `imap_flags`, `imap_views`, `imap_mailbox`, `imap_races` |
| IDLE notifier | `imap_notifier` |
| POP3 session | `pop3_session` |
| SMTP session, DATA and local delivery | `smtp_headers`, `smtp_session`, `local_delivery` |
| DMARC aggregation and report cycles | `dmarc_results`, `dmarc_reports`, `dmarc_runs` |
| TTL cache and the two tables behind one | `ttl_cache`, `mailbox_cache`, `auth_session`, `cache_races` |

## Where the code does not do what it seems to promise

Each point is a lemma; where the promise holds under a condition, the condition is proved exact.

- The limiter's eviction is unnoticeable in every run whose ticker keeps up if and only if `600 * rate >= burst`
  (`RateLimitRuns.EvictionUnnoticedExactly`), and so is the bound of burst plus refills on what one IP gets in any window
  (`RateLimitRuns.WindowBoundExactly`); below that, an idler gets a second full bucket too soon.
- A POP3 session starts with its line flag unset, unlike in its tests, so a first message that begins with a dot
  arrives without it (`DotStuffing.FlagUnsetDamages`). Nor do messages with bare line feeds, which IMAP APPEND and the API
  store as they come, reach a client whose lines end in CRLF (`DotStuffing.BareLineFeedsDamage`); exactly which do:
  `DotStuffing.StrictFaithful`.
- TEXT search terms reach FTS5 unchanged if and only if their quotes are balanced in the sense of
  `SearchTerms.Recoverable` (`SearchTerms.ReceivedExactly`).
- The SPF evaluator answers TempError where a name does not exist, passes over networks and domains that do not parse,
  never matches IPv4-mapped ip6 networks, and passes over mail hosts it cannot look up, all against RFC 7208; elsewhere in
  the fragment it agrees (`SpfFragment.FollowsRfcExactly`, for whole records `SpfFragment.RecordFollowsRfcExactly`,
  for their text `SpfRecords.RecordTextFollowsRfc`).
- Its `mx:` and `include:` arms are unreachable (`Spf.UnreachedArms`); such terms look up addresses of names nobody wrote
  (`SpfRecords.MisreadForms`), as do lengths on `a` and `mx` (`SpfRecords.LengthForms`). And a mechanism that is just a colon makes the
  evaluation panic (`Spf.CheckCrashesExactly`).
- A mailbox whose largest UID is 2^32-1 gives the next message UID 0, and then no more (`ImapMailbox.Mailbox.CopyMessages`).
- QUIT expunges every flagged message of the INBOX once anything is marked, so it removes exactly the session's marks
  if and only if nothing is marked or all messages flagged before login were marked by this session too
  (`Pop3Session.QuitRemovesExactlyMarked`; a failing run: `Pop3Session.ForeignFlagOccurs`).
- STORE writes back the flags it listed, so flags other sessions change in between are lost unless STORE asks for the same
  (`ImapRaces.ChangeSurvivesExactly`), and EXPUNGE stops at a row another session removed first
  (`ImapRaces.ExpungeEndsExactly`).
- A DMARC result that arrives between its domain's report and the end of the cycle is marked as reported without
  being in any report (`DmarcRuns.LateRowIsLost`, exactly when: `DmarcRuns.MarkedUnreported`).
- A reader under way can put a deleted mailbox or a revoked session back into the cache, where it stays for the TTL
  (exactly when: `CacheRaces.DeletedIsSeenExactly`, `CacheRaces.RevokedIsSeenExactly`).
- A session that authenticates keeps that status through RSET, and an unauthenticated one can still have bounces queued
  to the address it gave as its sender (`SmtpSession.UnauthenticatedNeverRelays`).

## Model

| member | source | states |
|---|---|---|
| StorageQueue.QueueStore.Enqueue | pkg/storage/queue.go:11-20 | a new pending row with a fresh id, due now; refused without change if the message does not exist |
| StorageQueue.QueueStore.DeleteMessage | pkg/storage/schema.go:66-73 | deleting a message removes its queue rows, whoever is working on them, and no others |
| StorageQueue.QueueStore.ClaimNext | pkg/storage/queue.go:25-64 | the row claimed is a due pending one with the earliest next_attempt, only its status changes; nothing is claimed only if nothing is due |
| StorageQueue.OldestExists | pkg/storage/queue.go:31-48 | among any non-empty set of due rows one is oldest, so ClaimNext never comes back empty-handed |
| StorageQueue.QueueStore.Complete | pkg/storage/queue.go:67-78 | removes exactly this row; reports whether it was there |
| StorageQueue.QueueStore.Fail | pkg/storage/queue.go:83-114 | requeues with one more attempt, or removes at the limit, or reports a row that is gone; no other row changes |
| QueueWorker.Backoff | pkg/queue/worker.go:355-369 | between a minute and a day for every attempt number |
| QueueWorker.BackoffSchedule | pkg/queue/worker.go:355-369 | a minute, five, fifteen, one hour, four, twelve, and a day from then on |
| QueueWorker.BackoffOfSeven | pkg/queue/worker.go:355-369 | seven delays together are 148860 seconds |
| QueueWorker.BackoffGrows | pkg/queue/worker.go:355-369 | n delays together are at least n minutes and at most n days |
| QueueWorker.Manager.DeliverNext | pkg/queue/worker.go:39-187 | a local domain is delivered to locally, a remote one through the relay or else its mail hosts in order up to the first success, and nothing is tried where message, text, domain or an answer about it is missing; the row is removed exactly on a success or at the retry limit; a bounce goes out only when retries end after the recipient's domain was classified as local or remote |
| QueueProtocol.StepInv | pkg/storage/queue.go:25-114 | every step of any worker, client, administrator or cascade keeps the per-id accounting of holders, claims, deliveries and backoff |
| QueueRuns.QueueSafety | pkg/storage/queue.go:25-114 | in every run: one holder per id, active exactly while held, each claim ends in one finish, at most one successful delivery per id, ids enqueued = queued + delivered + exhausted + removed |
| QueueRuns.RetryBudget | pkg/storage/queue.go:83-114 | in every run: attempt_count is the failures so far and what the holder saw, claims stay within maxRetries+1, and an exhausted row was never delivered and waited out all its backoff |
| QueueRuns.FatesAreFinal | pkg/storage/queue.go:67-114 | an id that left the table never comes back, and its fate never changes |
| QueueAccounts.HistoryFromEvents | pkg/storage/queue.go:25-114 | in every run the claims on record are the claim events of the id, the deliveries the successful attempts of workers that claimed it last, ids number the enqueueings, and an id on record as removed was deleted, itself or with its message |
| QueueAccounts.FateFromEvents | pkg/storage/queue.go:67-114 | by the events alone: an id that left the queue and was not deleted was completed if some attempt delivered it, else given up |
| QueueAccounts.GivenUpAfterBackoff | pkg/queue/worker.go:355-369 | between the end of the first turn of an id given up and the end of its turn maxRetries later lie at least the delays of the schedule |
| QueueAccounts.WorkersNeverStuck | pkg/storage/queue.go:25-64 | in every state a worker can take its next step: claim or find nothing due, attempt either way, finish |
| QueueRuns.TurnInThreeSteps | pkg/queue/worker.go:39-187 | claim, attempt and finish without interruption change the table as one DeliverNext does |
| QueueRuns.AheadShrinks | pkg/storage/queue.go:31-48 | no step lets a row join those ahead of an overdue row, and each claim of another takes one of them away |
| QueueRuns.BoundedOvertaking | pkg/storage/queue.go:31-48 | no starvation: until an overdue row is claimed, workers poll at most as often as there were rows ahead of it, whatever is enqueued or fails meanwhile |
| QueueRuns.StepUsesPotential | pkg/storage/queue.go:83-114 | 2*(retries left) + (2 if pending else 1), summed over rows, drops with every claim, failure and completion; only enqueueing adds to it |
| QueueRuns.BoundedWork | pkg/storage/queue.go:83-114 | over any run the effective steps are bounded by the initial potential plus that of each enqueue |
| BlobStore.SQLiteStore.Put | pkg/blobstore/sqlite.go:26-43 | stores new content with one reference, or adds one to what is there; the key is the content's digest |
| BlobStore.StoredUntilReleased | pkg/blobstore/sqlite.go:26-78 | round trip: from a Put until its content was deleted as often as it was put, the returned key holds exactly that content, whatever else is put or deleted |
| BlobStore.SQLiteStore.Delete | pkg/blobstore/sqlite.go:62-78 | one reference less, and the blob goes when none is left |
| BlobStore.DeleteUndoesPut | pkg/blobstore/sqlite.go:26-78 | uninterrupted, Delete restores the store as it was before the Put |
| BlobProtocol.StepInv | pkg/blobstore/sqlite.go:26-78 | with Delete split into its two statements, every step of every caller keeps refcount = references kept for good + references still to be given back |
| BlobProtocol.NoMessageLosesItsBlob | pkg/imap/mailbox.go:277-316 | in every interleaving of SMTP, bounces, local delivery, API send, IMAP append and copy and DMARC reports, each message row's blob is present, counted and unaltered |
| BlobProtocol.CopiesKeepTheirBlobs | pkg/imap/mailbox.go:277-316 | a copy under way finds all its blobs even if the originals are deleted meanwhile |
| BlobProtocol.QuiescentStore | pkg/smtp/session.go:196-233 | with nothing in flight the store holds exactly the references kept, and no blob without one |
| BlobAccounts.KeptFromEvents | pkg/smtp/session.go:190-276 | in every run the references kept of a content are the operations that put it and then, by the events alone, had its size accepted, inserted its row, or failed for a caller that does not clean up |
| BlobAccounts.QuiescentStoreFromEvents | pkg/blobstore/sqlite.go:26-78 | with nothing in flight a content is stored exactly if there is such an operation, with one reference for each |
| BlobAccounts.RefusedContentIsGone | pkg/smtp/session.go:202-209 | content that was too long, or whose delivery or API send failed, each time it was put, is not in the store |
| BlobAccounts.OperationsFinish | pkg/blobstore/sqlite.go:62-78 | from every state any operation can be brought to its end without touching the others |
| BlobAccounts.InsertedRow | pkg/smtp/session.go:217-287 | an insert adds one row, for the content its own operation put |
| BlobAccounts.CopiedRow | pkg/imap/mailbox.go:277-316 | the n-th row a copy inserts is for the content of the n-th row it listed, as it was then |
| BlobAccounts.RowsStay | pkg/storage/schema.go:66-73 | in every run a row stays as it is until it is deleted, and is gone from then on |
| RateLimit.Limiter.Refill | pkg/ratelimit/ratelimit.go:42-63 | one tick tops up every bucket by rate/10, capped at burst, in whatever order the map is walked |
| RateLimit.Limiter.Cleanup | pkg/ratelimit/ratelimit.go:67-86 | drops exactly the buckets not seen for ten minutes |
| RateLimit.Limiter.Allow | pkg/ratelimit/ratelimit.go:90-107 | admits if a token is there and takes it; an unknown IP counts as a full bucket; last-seen is updated either way |
| RateLimitRuns.BucketHistory | pkg/ratelimit/ratelimit.go:42-107 | without eviction a bucket holds at least what came in since its IP was last seen, up to burst |
| RateLimitRuns.StaleIsFull | pkg/ratelimit/ratelimit.go:67-86 | if 600*rate >= burst and the ticker keeps up, every bucket a cleanup drops is full |
| RateLimitRuns.EvictionSimulates | pkg/ratelimit/ratelimit.go:67-107 | if 600*rate >= burst, in every run whose ticker keeps up the evicting limiter simulates one that never drops a bucket |
| RateLimitRuns.EvictionIsSound | pkg/ratelimit/ratelimit.go:67-107 | under the same conditions every request is answered as if nothing were ever evicted |
| RateLimitRuns.IdlerShowsEviction | pkg/ratelimit/ratelimit.go:67-107 | if ten minutes of ticks do not fill a bucket, some run shows the eviction |
| RateLimitRuns.EvictionUnnoticedExactly | pkg/ratelimit/ratelimit.go:42-107 | eviction is unnoticeable in all paced runs if and only if 600*rate >= burst |
| RateLimitRuns.TokensAreConserved | pkg/ratelimit/ratelimit.go:42-107 | under the same conditions requests admitted in a window plus tokens left never exceed tokens at its start plus what its ticks bring |
| RateLimitRuns.WindowBound | pkg/ratelimit/ratelimit.go:42-107 | under the same conditions any window with k ticks admits at most burst + k*rate/10 requests of one IP |
| RateLimitRuns.IdlerOverdraws | pkg/ratelimit/ratelimit.go:67-107 | below 600*rate >= burst an idler is admitted 2*burst requests, more than that share |
| RateLimitRuns.WindowBoundExactly | pkg/ratelimit/ratelimit.go:42-107 | every IP keeps to its share in every window of every run whose ticker keeps up if and only if 600*rate >= burst |
| RateLimitRuns.IpsAreIndependent | pkg/ratelimit/ratelimit.go:90-107 | an IP's bucket is the same whether or not other IPs send requests |
| Base64.EncodeGroup | pkg/dmarc/report.go:470-489 | up to three bytes give four characters of table 1 of RFC 4648, padded |
| Base64.Base64Encode | pkg/dmarc/report.go:465-500 | the loop over groups and lineLen writes the encoding wrapped every 76 characters |
| Base64.RoundTrip | pkg/dmarc/report.go:465-500 | for every byte string, dropping CRLF and decoding gives back the input |
| Base64.EncodedLength | pkg/dmarc/report.go:465-500 | the encoding has 4*ceil(n/3) characters |
| Base64.EncodedPadding | pkg/dmarc/report.go:465-500 | padding is as section 4 of RFC 4648 requires, and stands nowhere else |
| Base64.LineLengths | pkg/dmarc/report.go:465-500 | broken as the encoder breaks it, every line of a text is exactly 76 characters except a shorter, possibly empty, last one (section 6.8 of RFC 2045) |
| Base64.EncodedLines | pkg/dmarc/report.go:465-500 | so for every input, whose last line has 4 characters for each group left over from lines of 19, and none if there are none left |
| DotStuffing.Session.DotStuffWrite | pkg/pop3/session.go:567-582 | the byte loop emits the stuffed form and leaves the line flag as the data ends |
| DotStuffing.StuffedAppend | pkg/pop3/session.go:567-582 | any split into chunks emits the same bytes as one call on the whole |
| DotStuffing.Session.WriteMessage | pkg/pop3/session.go:338-359 | RETR's chunk loop writes the whole message stuffed, then the terminator |
| DotStuffing.ReadsBackExactly | pkg/pop3/session.go:338-359 | a client, of RFC 1939 or one that tolerates bare LF, reads back exactly the message and stops exactly at the terminator if and only if the message is Faithful for it |
| DotStuffing.StrictFaithful | pkg/pop3/session.go:567-582 | for the client of section 3 of RFC 1939, whose lines end in CRLF only: the message is empty, or it ends in CRLF, has no dot after a bare LF, and does not begin with a dot while the flag is unset |
| DotStuffing.TolerantFaithful | pkg/pop3/session.go:567-582 | for a client that takes a bare LF for a line end: the message is empty, or it ends in LF and does not begin with a dot while the flag is unset |
| DotStuffing.SessionReadsBackExactly | pkg/pop3/session.go:338-359 | the same for any sequence of RETR replies in one session, either client |
| DotStuffing.FlagSetSuffices | pkg/pop3/pop3_test.go:92 | started at a line start, messages that end in CRLF and have no dot after a bare LF always reach the client of RFC 1939 |
| DotStuffing.FlagUnsetDamages | pkg/pop3/session.go:48-80 | as sessions really start, a first message with a leading dot is damaged for either client |
| DotStuffing.BareLineFeedsDamage | pkg/pop3/session.go:567-582 | "a" LF and LF "." CRLF do not reach the client of RFC 1939, whatever the flag |
| SearchQuery.TokenizeQuery | pkg/storage/search.go:117-140 | the loop's tokens are the query cut at spaces outside quotes |
| SearchQuery.Fts5Query | pkg/storage/search.go:96-114 | one quoted literal for each token, outer quotes removed and inner ones doubled |
| SearchQuery.QueryIsWellFormed | pkg/storage/search.go:96-145 | for every query string, an FTS5 reader sees well-formed literals whose contents are those tokens |
| SearchQuery.BuildQuery | pkg/imap/mailbox.go:152-160 | IMAP terms are joined by spaces, phrases in quotes |
| SearchTerms.ReceivedExactly | pkg/imap/mailbox.go:152-160 | FTS5 receives exactly the non-empty TEXT terms, in order, if and only if the list is Recoverable |
| SearchTerms.QuoteFreeTermsArrive | pkg/imap/mailbox.go:152-160 | terms without a double quote always arrive |
| SearchTerms.TermReceivedExactly | pkg/storage/search.go:117-140 | a term is the first one received if and only if it Fits and, unless it is the last, has an even number of quotes |
| SearchTerms.SwallowingTerm | pkg/storage/search.go:117-140 | a term with an odd number of quotes and no break of its own, with another after it, is not the first one received |
| SearchTerms.BrokenTerm | pkg/storage/search.go:117-140 | a phrase with a space between its own quotes falls apart |
| Cidr.CidrMatch | pkg/spf/checker.go:375-409 | the byte loop and the mask decide equality of the leading bits of the canonical addresses, for every length |
| Cidr.SameNetworkInNumbers | pkg/spf/checker.go:375-409 | that is equality of the big-endian integers after division by two to the bits left out |
| Cidr.NetworksNest | pkg/spf/checker.go:375-409 | of two networks one contains the other or they have no address in common |
| Cidr.ShorterPrefixMatches | pkg/spf/checker.go:375-409 | a match at one length is a match at every shorter one |
| Spf.MatchIP4 | pkg/spf/checker.go:182-208 | matches exactly if the argument parses and the address is IPv4 and in the network |
| Spf.MatchIP6 | pkg/spf/checker.go:211-237 | the same for ip6 arguments |
| Spf.UnreachedArms | pkg/spf/checker.go:110-139 | no mechanism selects the `mx:` or `include:` arm |
| Spf.FirstMatchDecides | pkg/spf/checker.go:79-146 | the mechanisms' verdict is that of the first term that has one, and open exactly if none has |
| Spf.LookupRecord | pkg/spf/checker.go:361-372 | the first TXT string that starts like an SPF record |
| Spf.EvaluateRecord | pkg/spf/checker.go:79-179 | the loop over terms and the redirect compute the evaluator function, on cyclic zones too |
| Spf.Check | pkg/spf/checker.go:64-75 | TempError without an answer, None without a record, else the record's evaluation at depth 0 |
| Spf.FirstTermWins | pkg/spf/checker.go:79-146 | the first term with a verdict gives the result, TempError if a lookup fails first |
| Spf.NothingMatchesIsNeutral | pkg/spf/checker.go:148-179 | no match and no redirect is Neutral (section 4.7 of RFC 7208) |
| Spf.AllStopsRedirect | pkg/spf/checker.go:148-179 | a record with an `all` term never follows its redirect (section 5.1 of RFC 7208) |
| Spf.RedirectChain | pkg/spf/checker.go:79-179 | on every zone the result is what the redirect chain settles on within ten redirects, or PermError if eleven records in a row redirect |
| Spf.SelfRedirect | pkg/spf/checker.go:79-179 | a record that redirects to itself is a PermError |
| Spf.CrashExactly | pkg/spf/checker.go:121-126 | evaluating a term panics exactly if its mechanism is a lone colon |
| Spf.CheckCrashesExactly | pkg/spf/checker.go:64-179 | a check panics exactly if a lone colon gives the first verdict of a record reached within ten redirects |
| SpfRecords.FieldsOfWord | pkg/spf/checker.go:84 | a text without white space is one term |
| SpfRecords.FieldsCut | pkg/spf/checker.go:84 | white space anywhere cuts a text into the terms before and after it |
| SpfFragment.FollowsRfcExactly | pkg/spf/checker.go:79-146 | each written-out term of the fragment yields the verdict RFC 7208 gives it if and only if no lookup answers that there is no such name or record, its network or domain is well-formed, an ip6 network is not an IPv4-mapped one covering the sender, and the mail hosts up to a match are at most ten without a failed lookup |
| SpfFragment.RecordFollowsRfcExactly | pkg/spf/checker.go:79-146 | code and RFC decide a record of such terms by the same term with the same verdict, or both leave it open, if and only if all its terms are well-formed and the code follows the RFC at each term before which the RFC has not decided |
| SpfFragment.MechanismsNeverPermError | pkg/spf/checker.go:88-146 | no mechanism makes the evaluator answer PermError |
| SpfFragment.IllFormedRecordDiffers | pkg/spf/checker.go:88-146 | so a record with an ill-formed term, wherever it stands, never gets the RFC's PermError |
| SpfRecords.RecordTextFollowsRfc | pkg/spf/checker.go:79-179 | for the text "v=spf1" and the written-out terms, evaluator and RFC decide by the same term alike or both leave it open if and only if that condition holds, and then the evaluation has the RFC's result |
| SpfRecords.IllFormedTextDiffers | pkg/spf/checker.go:79-179 | the text of a record with an ill-formed term never evaluates to the RFC's PermError |
| SpfRecords.AllRecord | pkg/spf/checker.go:131-146 | a record of one `all` term gives every sender the result of its qualifier |
| SpfRecords.AllRecords | pkg/spf/checker.go:79-179 | "v=spf1 -all" is a Fail for every sender, "v=spf1 ~all" a SoftFail, "v=spf1 ?all" Neutral |
| SpfRecords.RedirectOutcome | pkg/spf/checker.go:148-179 | when no term decides, the first redirect gives PermError without a target or record, TempError if the lookup fails, else what the first record found there comes to |
| SpfRecords.RedirectingText | pkg/spf/checker.go:79-179 | so for the text of a record with the redirect anywhere among its terms |
| SpfRecords.ColonFormReads | pkg/spf/checker.go:119-121 | every other mechanism with a colon compares addresses of what its text says from the third character to a slash |
| SpfRecords.MisreadForms | pkg/spf/checker.go:119-139 | `mx:x` looks up addresses of ":x" and `include:x` of "clude:x" |
| SpfRecords.LengthForms | pkg/spf/checker.go:254-325 | `a/24` looks up addresses of the name "24" and `mx/24` its mail hosts |
| SpfRecords.OthersAreIgnored | pkg/spf/checker.go:140-143 | a mechanism that is none of these is passed over |
| SpfFragment.NonexistentExample | pkg/spf/checker.go:240-251 | `-a:none.example` is a TempError if that name does not exist, where the RFC goes on to the next term |
| SpfFragment.BadNetworkDiffers | pkg/spf/checker.go:182-208 | `ip4:` without a network is passed over, where the RFC calls for PermError |
| SpfFragment.MappedNetworkDiffers | pkg/spf/checker.go:211-237 | an IPv4-mapped ip6 network never matches, where the RFC compares the prefix |
| SpfFragment.MappedExample | pkg/spf/checker.go:211-237 | `-ip6:::ffff:192.0.2.1/16`, which for the RFC is a Fail of all senders in 0::/16 |
| SpfFragment.FailedHostDiffers | pkg/spf/checker.go:285-305 | a mail host whose lookup fails is passed over, where the RFC calls for TempError |
| SpfFragment.IP4Reads | pkg/spf/checker.go:187-205 | the evaluator reads every network text of the RFC's grammar as the network it denotes |
| NetText.QuadExactly | pkg/spf/checker.go:197-204 | a text reads as an IPv4 address exactly if it is that address in decimal, without leading zeros |
| NetText.AtoiReads | pkg/spf/checker.go:187-196 | a length is read with a sign and leading zeros, and not at all beyond 64 bits |
| MessageTable.MessageStore.InsertMessage | pkg/storage/messages.go:21-48 | a row with a fresh id and the UID after the mailbox's largest, modulo 2^32; fails exactly on a UID conflict; below the maximum it never fails and UIDs stay unique |
| MessageTable.MessageStore.UpdateFlags | pkg/storage/messages.go:157-170 | changes the masked bits of this row only |
| MessageTable.MessageStore.ListMessages | pkg/storage/messages.go:88-118 | of the mailbox's rows beyond sinceUID, if one is given, those with the largest UIDs, as many as the limit allows, by descending UID |
| MessageTable.MessageStore.ListMessageUIDs | pkg/storage/messages.go:232-251 | exactly the UIDs in use in the mailbox, strictly ascending |
| MessageTable.MessageStore.ExpungeMailbox | pkg/storage/messages.go:255-265 | removes exactly the mailbox's flagged rows and counts them |
| MessageTable.BoxSorted | pkg/storage/messages.go:232-251 | in every reachable table a mailbox lists exactly its rows, with strictly ascending UIDs |
| MessageTable.BoxMax | pkg/storage/messages.go:21-48 | the largest UID is that of the last message listed |
| ImapFlags.FlagsToBits | pkg/imap/mailbox.go:366-382 | a bit is set exactly if its flag is named; other names set nothing |
| ImapFlags.FlagsToIMAP | pkg/imap/mailbox.go:385-403 | a flag is named exactly if its bit is set, and nothing else is named |
| ImapFlags.OperationsOnSets | pkg/imap/mailbox.go:257-266 | SET, ADD and REMOVE on bits are replacement, union and difference of flag sets |
| ImapFlags.BitsRoundTrip | pkg/imap/mailbox.go:366-403 | listing the flags of a row and reading them back gives its bits, less any that are no flag's |
| ImapFlags.NamesRoundTrip | pkg/imap/mailbox.go:366-403 | reading names and listing them again gives the known ones among them, each once |
| ImapViews.RankIsPosition | pkg/imap/mailbox.go:85-143 | sequence number k names the message with the k-th smallest UID |
| ImapViews.SelectionIs | pkg/imap/mailbox.go:85-143 | a set picks by UID the messages whose UID it contains, by sequence number those at the positions it contains |
| ImapViews.SelectedSorted | pkg/imap/mailbox.go:233-316 | a sequence set selects exactly the messages whose UID or rank it contains, by ascending UID |
| ImapMailbox.ReverseInPlace | pkg/imap/mailbox.go:95-98 | the swapping loop reverses the listing |
| ImapMailbox.Mailbox.GetStatus | pkg/imap/mailbox.go:47-70 | the number of messages, and the UID the next insert assigns |
| ImapMailbox.Mailbox.ListMessages | pkg/imap/mailbox.go:85-143 | FETCH sends exactly the chosen messages, by ascending UID, each with its rank |
| ImapMailbox.Mailbox.SearchMessages | pkg/imap/mailbox.go:147-209 | every hit by UID, or by the same sequence number FETCH uses |
| ImapMailbox.Mailbox.CreateMessage | pkg/imap/mailbox.go:212-229 | APPEND adds one row with the announced UID and exactly the flags named; that UID is 0 exactly if the mailbox has run out of them |
| ImapMailbox.Mailbox.UpdateMessagesFlags | pkg/imap/mailbox.go:233-273 | STORE combines the flags of exactly the chosen messages and changes nothing else |
| ImapMailbox.Mailbox.CopyMessages | pkg/imap/mailbox.go:277-316 | COPY, into itself too, appends exactly the selected messages with consecutive UIDs in source order; where the destination runs out of UIDs, one more with UID 0 and then it fails |
| ImapMailbox.Mailbox.Expunge | pkg/imap/mailbox.go:319-334 | the delete loop removes exactly the mailbox's flagged rows |
| ImapRaces.StoreWritesItsListing | pkg/imap/mailbox.go:233-273 | whatever other sessions did since, a row STORE writes has the flags it had when STORE listed the mailbox, combined with those given |
| ImapRaces.AsInOneStepExactly | pkg/imap/mailbox.go:257-270 | a flag comes out as if STORE were one step if and only if it is given, or all flags are replaced, or it was not changed in between |
| ImapRaces.ChangeSurvivesExactly | pkg/imap/mailbox.go:257-270 | a flag changed in between keeps its new value if and only if STORE asks for that value itself |
| ImapRaces.DeleLost | pkg/pop3/session.go:364-391 | a POP3 DELE between the listing and the write of +FLAGS (\Seen) is lost |
| ImapRaces.ExpungeEndsExactly | pkg/imap/mailbox.go:319-334 | in every run an EXPUNGE gets through if and only if it removes all it listed itself; otherwise it stops at the first row another session removed and leaves the ones after it |
| ImapRaces.UnflaggedTooLate | pkg/imap/mailbox.go:319-334 | clearing a flag after the listing does not save the message |
| ImapNotifier.RemoveInPlace | pkg/imap/notifier.go:37-40 | shifting the tail within the shared array leaves the slice without that one element |
| ImapNotifier.Append | pkg/imap/notifier.go:23-28 | appending within or beyond the array's capacity adds one element at the end |
| ImapNotifier.MailboxNotifier.Subscribe | pkg/imap/notifier.go:23-28 | a new open channel joins its mailbox; every registered channel stays open and registered once, and no two mailboxes share an array |
| ImapNotifier.MailboxNotifier.Unsubscribe | pkg/imap/notifier.go:31-43 | removes this channel from this mailbox if it is there, and no other channel anywhere |
| ImapNotifier.MailboxNotifier.Notify | pkg/imap/notifier.go:47-54 | closes exactly the channels registered for the mailbox, each of them once, and forgets them |
| ImapNotifier.DroppingIsCut | pkg/imap/notifier.go:37-40 | cutting out the found position removes every occurrence of the channel |
| Pop3Session.Session.HandleCommand | pkg/pop3/session.go:83-131 | each command does to session and table what the step of the runs below does: logging in, marking, unmarking, expunging, or nothing where the phase or an argument does not allow it |
| Pop3Session.LoggedInExactly | pkg/pop3/session.go:83-200 | a session is in the transaction state if and only if some event was an APOP with the right digest, where configured, for a known address, or the right password for the last name given; the first of these says as whom |
| Pop3Session.NameIsLastNamed | pkg/pop3/session.go:133-166 | until then the session's name is the last one given since the last password |
| Pop3Session.TargetIs | pkg/pop3/session.go:364-391 | DELE names the message of the user's own INBOX with that UID |
| Pop3Session.Session.HandlePASS | pkg/pop3/session.go:145-166 | a wrong password forgets the user name, a right one enters the transaction state |
| Pop3Session.Session.HandleDELE | pkg/pop3/session.go:364-391 | flags and marks the message with this UID in the user's INBOX, if there is one |
| Pop3Session.Session.HandleRSET | pkg/pop3/session.go:394-402 | the loop over marks clears the flag of exactly those messages |
| Pop3Session.UserNeverChanges | pkg/pop3/session.go:83-131 | after login neither the user nor the phase changes, whatever is sent |
| Pop3Session.MarkedSinceReset | pkg/pop3/session.go:364-402 | in every run the marks are the messages deleted since the last RSET |
| Pop3Session.FlagsExplained | pkg/pop3/session.go:364-402 | in every run, new mail included, an INBOX message is flagged exactly if it is marked, or was flagged before login and never marked since |
| Pop3Session.NothingGoesBeforeQuit | pkg/pop3/session.go:83-131 | without QUIT no message is removed or altered except in its flags: a dropped connection removes none |
| Pop3Session.QuitRemoves | pkg/pop3/session.go:528-540 | QUIT removes nothing without a mark, else exactly the messages flagged in the INBOX by then |
| Pop3Session.QuitRemovesExactlyMarked | pkg/pop3/session.go:528-540 | the exact condition under which QUIT removes just the messages marked since the last RSET |
| Pop3Session.ForeignFlagGoesToo | pkg/pop3/session.go:528-540 | DELE of one message and QUIT also remove any message that was flagged before login |
| Pop3Session.ForeignFlagOccurs | pkg/pop3/session.go:528-540 | a mailbox of two messages where that happens |
| SmtpHeaders.ReadHeaders | pkg/smtp/session.go:328-345 | the line loop hands out a prefix, headers and rest together being all bytes received; it fails exactly if the connection breaks first |
| SmtpHeaders.ScanStops | pkg/smtp/session.go:328-345 | the scan stops right after the first blank line, at the end, or beyond 64 KB |
| SmtpHeaders.ReadAll | pkg/smtp/session.go:314-324 | however it is chunked, the stream is read whole and the counter ends at its length |
| SmtpSession.SplitsAgree | pkg/smtp/session.go:71-82 | where RCPT splits into two pieces, its domain is the one DATA later routes by |
| SmtpSession.Session.Mail | pkg/smtp/session.go:33-42 | accepts exactly senders with an '@' |
| SmtpSession.Session.Rcpt | pkg/smtp/session.go:63-93 | adds the recipient exactly if there is room and the session is authenticated, or the address has one '@' and a local domain and is not greylisted |
| SmtpSession.Session.Auth | pkg/smtp/session.go:49-60 | a success authenticates the session for good, a failure changes nothing |
| SmtpSession.Session.Reset | pkg/smtp/session.go:289-292 | clears sender and recipients and nothing else |
| SmtpSession.Session.Receive | pkg/smtp/session.go:152-209 | the message is stored as received if it ends properly within the limit; otherwise the store is as it was before |
| SmtpSession.Session.Data | pkg/smtp/session.go:152-276 | refused mail leaves no row, entry or reference; mail is accepted exactly if it ends properly within the limit, and then gives each recipient's route its row and entry over the bytes received; every new row's text is stored and every new entry names an outbound row to its recipient |
| SmtpSession.InboxedOnceEach | pkg/smtp/session.go:217-232 | a user with an INBOX gets one row for each time it was named, nobody else gets one |
| SmtpSession.InboxRowsAre | pkg/smtp/session.go:217-232 | each such row is in its addressee's INBOX, shares the message's blob, and has its size, sender and subject |
| SmtpSession.OutboundRowsAre | pkg/smtp/session.go:234-287 | a message for a remote recipient is queued as it came, a recipient missing at a local domain is answered by a notice to the sender, each with its own row and an entry that names it |
| SmtpSession.RowsAreStored | pkg/smtp/session.go:190-287 | the blob of every row DATA inserts is in the store, with the length the row says |
| SmtpSession.ReferencesTaken | pkg/smtp/session.go:234-272 | beyond the one of the message itself, each notice takes one reference to its blob and nothing else takes any |
| SmtpSession.AdmittedExactly | pkg/smtp/session.go:71-82 | an unauthenticated client may name an address exactly if it is a local part, one '@' and a local domain |
| SmtpSession.QueuedOnceEach | pkg/smtp/session.go:234-272 | a remote address without account gets one queue entry for each time it was named, and the sender one for each named address at a local domain without account |
| SmtpSession.DroppedExactly | pkg/smtp/session.go:217-244 | mail is dropped for exactly the users without an INBOX and the addresses without an '@' that are no account |
| SmtpSession.StoredAsReceived | pkg/smtp/session.go:190-209 | afterwards the store holds the bytes received under their digest, and all it held before |
| SmtpSession.UnauthenticatedNeverRelays | pkg/smtp/session.go:63-93 | in a session that never authenticated no recipient takes the outbound route; all it queues goes to its own sender |
| LocalDelivery.Manager.DeliverLocal | pkg/queue/worker.go:189-241 | one message with its own reference in the INBOX the address or its alias leads to, or no trace |
| LocalDelivery.InboxForAddress | pkg/queue/worker.go:197-224 | that INBOX is the one of the alias's destination if the address is an alias, else of the address itself |
| LocalDelivery.SplitRejoins | pkg/queue/worker.go:197-203 | the alias is looked up under parts that make up the address |
| DmarcResults.ResultStore.InsertDMARCResult | pkg/storage/dmarc.go:23-33 | one new unsent row with a fresh id |
| DmarcResults.ResultStore.MarkDMARCResultsSent | pkg/storage/dmarc.go:87-103 | the updates one domain at a time mark exactly the rows of the listed domains |
| DmarcResults.EveryGroupTallies | pkg/storage/dmarc.go:51-83 | groups have distinct keys and cover every unsent row; in each, pass + fail = count for SPF and DKIM, count is the number of its rows, and the time is their latest |
| DmarcResults.DomainTotal | pkg/storage/dmarc.go:51-83 | a domain's group counts sum to its unsent rows |
| DmarcResults.DomainsOnce | pkg/storage/dmarc.go:106-126 | the domains listed are exactly those with unsent rows, each once |
| DmarcReports.ReportGenerator.GenerateDomainReport | pkg/dmarc/report.go:213-357 | a report is made exactly for a domain with a report address and results; the call fails exactly if the lookup does |
| DmarcReports.ReportGenerator.GenerateReports | pkg/dmarc/report.go:179-210 | an undisturbed cycle makes one report for each domain that wants it and has unsent rows, and marks the rows of exactly the domains whose lookup did not fail |
| DmarcReports.ReportsOnePerDomain | pkg/dmarc/report.go:190-199 | exactly the domains that want reports and have unsent rows get one, each a single one |
| DmarcReports.CycleMarks | pkg/dmarc/report.go:201-207 | the rows of every domain are marked unless its lookup failed |
| DmarcReports.RecordsTell | pkg/dmarc/report.go:278-330 | each record tells of the unsent rows of one source and disposition, with their number and whether any passed, and no such row goes untold |
| DmarcReports.OneRecordPerSource | pkg/storage/dmarc.go:51-83 | a report has one record for each source and disposition among its domain's unsent rows |
| DmarcReports.ReportCountsItsRows | pkg/dmarc/report.go:229-245 | a report's counts add up to its domain's unsent rows, each row counted once |
| DmarcReports.RecordClaims | pkg/dmarc/report.go:278-330 | a record claims a pass exactly if one of the messages it stands for passed |
| DmarcRuns.CountedOncePerFailure | pkg/dmarc/report.go:179-210 | in every run of inserts between the statements of cycles, a row is counted in at most one report more than marking failed |
| DmarcRuns.CycleInOneGo | pkg/dmarc/report.go:179-210 | the events of a cycle that nothing comes between do what GenerateReports does |
| DmarcRuns.CountedAtMostOnce | pkg/dmarc/report.go:179-210 | so if marking always succeeds, no row is counted in two reports |
| DmarcRuns.ReportsAreNews | pkg/dmarc/report.go:213-245 | each report counts all its domain's unsent rows, none of which any earlier report counted |
| DmarcRuns.MarkedUnreported | pkg/storage/dmarc.go:87-103 | a row about to be marked is in no report if and only if its domain made none or made it before the row came |
| DmarcRuns.SentForever | pkg/storage/dmarc.go:87-103 | what is marked stays marked and is never counted again |
| DmarcRuns.LateRowIsLost | pkg/dmarc/report.go:201-207 | a result inserted after its domain's report and before the marking is never reported |
| DmarcRuns.FailedMarksCountAgain | pkg/dmarc/report.go:201-207 | that bound is reached: for every n, n failed markings can make n+1 reports count the same row |
| TtlCache.Cache.Get | pkg/cache/cache.go:34-53 | only the last value set, only within its TTL, and always when it is there and live |
| TtlCache.Cache.Set | pkg/cache/cache.go:56-69 | the size limit holds; a full cache gives up one entry, a live one only if none has expired |
| TtlCache.Cache.EvictOne | pkg/cache/cache.go:88-100 | removes exactly one entry, an expired one if there is any |
| TtlCache.Cache.Delete | pkg/cache/cache.go:72-76 | removes this entry only |
| MailboxCache.MailboxStore.CreateMailbox | pkg/storage/mailboxes.go:38-55 | refused exactly for a name the user has; the cache stays coherent |
| MailboxCache.MailboxStore.GetMailbox | pkg/storage/mailboxes.go:58-77 | cached or not, the answer is the one an uncached lookup gives |
| MailboxCache.MailboxStore.DeleteMailbox | pkg/storage/mailboxes.go:121-135 | the row and its cache entry go together |
| MailboxCache.MailboxStore.RenameMailbox | pkg/storage/mailboxes.go:138-151 | the row is renamed unless the name is taken; no stale entry survives |
| AuthSession.SessionStore.CreateSession | pkg/auth/session.go:18-34 | a new session valid until now + expiry |
| AuthSession.SessionStore.ValidateSession | pkg/auth/session.go:37-62 | never a revoked or unissued token, never more than 60 s past expiry, always an unexpired session of the table |
| AuthSession.SessionStore.RevokeSession | pkg/auth/session.go:65-72 | the session is gone from table and cache for good |
| CacheRaces.HitsAreRecent | pkg/storage/mailboxes.go:58-77 | however readers and writers of a key overlap, statement by statement, a hit returns a value its row held no longer ago than the TTL and the slowest reader's time between SELECT and fill |
| CacheRaces.StaleToTheLimit | pkg/auth/session.go:37-72 | that bound is reached, whether a writer invalidates after the write or, as RevokeSession does, before it |
| CacheRaces.DeletedIsSeenExactly | pkg/storage/mailboxes.go:121-135 | after a deletion and its invalidation the cache returns the row again if and only if a reader had it in hand |
| CacheRaces.RevokedIsSeenExactly | pkg/auth/session.go:65-72 | however long ago the cache was invalidated, a session deleted now is accepted again if and only if the cache holds it live or a reader has it in hand at that moment |
| CacheRaces.RevokedInTheGap | pkg/auth/session.go:65-72 | invalidating first leaves a gap: a reader that starts in it brings a revoked session back |

## Left out

- Crashes and shutdown in the middle of a turn (rows left active), and database errors, except where a row says so.
- A clock reading and the statement that uses it are one step; a reading that goes stale while waiting for the database lock is not modelled.
- Delivery over SMTP: an attempt is reported as a success or a failure. A server that took the message although the attempt failed is not seen, so duplicates through a second MX host are outside `QueueRuns.QueueSafety`.
- TLS, ACME, DKIM signing, DNS transport, gzip, XML, MIME and header parsing; DNS answers, parsed addresses and parsed headers are parameters.
- SHA-256 is an injective digest. Filesystem and S3 blob stores have no reference count and are not modelled.
- Deleting messages never releases blobs in the source; the model keeps that, so the blob store may hold blobs no row names.
- The limiter computes in reals, not float64, and assumes a rate that is not negative, as its callers configure it; starting and stopping its goroutines is left out.
- Base64's shifts and masks on bytes are written as division, remainder and sum.
- SPF `mx:`, `include:` and prefix lengths on `a` and `mx` get no meaning beyond what the code does with them; evaluateInclude is unreachable and not modelled. Texts are sequences of characters, so invalid UTF-8 is outside the model. The text forms of IPv6 addresses are a parameter shared with the RFC's side.
- SpfFragment.FollowsRfcExactly: mechanism names are in lower case, and so are those of `SpfFragment.RecordFollowsRfcExactly` and `SpfRecords.RecordTextFollowsRfc`, whose terms are separated by single spaces. RFC 7208's limits over a whole record (ten lookups, two void ones) and its selection among several SPF records are not compared.
- The dates of messages, FETCH items other than flags and numbers, MoveMessage and pagination. A sequence set is a finite set of numbers, and full-text hits are a parameter.
- POP3 LIST, STAT, UIDL, TOP, CAPA and STLS output. Runs of `Pop3Session` admit arriving mail, but no other writer of flags.
- DMARC lookups and report delivery are outcomes; ORDER BY within the aggregation, report ids and date ranges are left out.
- SMTP greylisting is a yes or no from outside, SPF in DATA only logs, and the text of a bounce is a parameter. During one DATA the directory of users and local domains does not change, and its OUTBOUND mailbox exists, as start-up creates it.
- SmtpSession.Backend.InsertMessage: numbers the rows it inserts from 1 and does not model UIDs, which `MessageTable` does.
- The notifier's, caches' and sessions' locks: each of their methods, and in `CacheRaces` each statement, is one step. `CacheRaces` follows one key at a time. Mailbox entries that survive the deletion of their user are not modelled.
- A session token is assumed never to have come up before.
- HTTP handlers, CLI, configuration, audit, metrics, aliases, contacts and user management.
