# svidmint, modelled and proved in Dafny

svidmint mints SPIFFE identities for serverless workloads. A workload sends platform evidence, an
attestor turns it into claims, a registration entry turns the claims into a SPIFFE ID, and a
self-signed CA issues an X.509 or JWT SVID for it; a client-side source keeps its SVID fresh. This
project models that path and proves what it promises: over all inputs where the code is sequential,
over all interleavings where it is not. `dafny verify dfyconfig.toml` checks everything.

## How it is built

Code that changes things step by step is a class or a method with loops (`X509Source`,
`CloudflareWorkersAttestor`, `GitHubOIDCAttestor`, `BundleFetcher`, `JSONStore`, `SqlStore`,
`SelfSignedCA`, `Server`), and its contract ties the new state to a function of the old one. Code that
runs concurrently is also a transition system over the same functions: one list of actions is one
interleaving of the refresh loop, callers, servers, operators and the clock, and module `Runs` gives
runs and induction over them. Time is unbounded integer nanoseconds, except that TTL arithmetic is in
wrapping int64. Certificates and signatures are symbolic.

| file | what it holds |
|---|---|
| CredentialSource, CredentialRuns, RetrySchedule | the SDK's X.509 source, its timed runs, its retries |
| CloudflareCache, GithubCache, Federation | the three caches and their three locking disciplines |
| Glob, Matcher, Stores | path.Match globs, entry selection, the JSON and SQL stores |
| Ttl, Pki, SelfSignedCA, CaRuns | lifetimes, path validation, the CA and its life over restarts |
| Attest, EndToEnd, Mapper | the endpoint, server lifetimes against client refresh, ID derivation |

What comes in from outside is a parameter: the clock's readings, random keys, server answers, whether a
write or a database call works, and the parsers for certificates, keys, SPIFFE IDs, base64 and JSON.

## Where the code and its documentation differ

The model follows the code.

- README.md:355 promises a minimum that includes the platform token's remaining life. `computeTTL` can
  do that (`Ttl.FutureExpiryBounds`; an expiry in the past it ignores, `Ttl.PastExpiryIgnored`), but both
  its callers pass no platform expiry and no entry TTL (internal/ca/self_signed.go:286,
  internal/ca/self_signed.go:380). So the endpoint keeps to the minimum exactly when the token leaves the
  entry TTL, or 3600 s, capped (`Attest.DocumentedMinimumExactly`): with no entry TTL, a maximum of a day
  and a token with a minute left it issues an hour (`Attest.TokenOutlived`).
- The CA's default TTL setting reaches what the endpoint issues only when the TTL asked for wraps around
  to nothing or the maximum is not positive; for an entry without a TTL the handler substitutes its own
  hour (`Attest.DefaultTtlSettingExactly`).
- A TTL of more than 9223372036 s overflows, and then the lifetime need not be the least bound
  (`Ttl.CallersLifetimeExactly` says when it is). Some such TTLs get the default instead of the maximum
  (`Ttl.OverflowFallsToDefault`), some no lifetime at all (`Ttl.NoLifetimeExactly`).
- The intermediate is made once per process. After its signing TTL the process goes on issuing chains
  that never validate (`CaRuns.ExpiredIntermediateIssuesNothingValid`).
- Cancelling the context given to `NewX509Source` without calling `Close` ends the refreshes while the
  getters go on serving the SVID past its expiry (`CredentialRuns.CancelWithoutCloseServesExpired`).
- With one nanosecond left, half is zero and the loop waits a full second. This is the `max(c, 1)` in
  `CredentialRuns.CredentialContinuity`.
- A `Create` whose file write fails reports an error but leaves the entry in the JSON store's memory, so
  the retry is refused (`Stores.RetryAfterFailedCreate`).
- A start that fails can be repeated unless it was interrupted in saving a new root so that both files
  are there but do not belong together, as when the first start of all tears the certificate: after
  that no start comes up until somebody removes a file (`CaRuns.InterruptedSaveIsPermanent`,
  `CaRuns.CanComeUpExactly`). This rests on x509.CreateCertificate refusing a parent certificate that
  does not match the signing key.
- A JSON store opened on a file that holds `null` is up and dead: nothing can ever be put into it
  (`Stores.NullFileIsDead`). No other content does that (`Stores.DeadExactly`).
- Go documents `path.Match` by a grammar, but its scan settles each run of terms where it first fits and
  never moves it. With a class that takes "/" between stars it refuses names that the grammar accepts,
  such as "a/" for `*[^b]*` (`Glob.NegatedClassSlips`); `Glob.DocumentedExactly` gives the check that
  tells which patterns do.
- The derived SPIFFE ID does not always tell claims apart: with two or more claims, one of which has a
  slash, other claims under the same keys derive the same ID (`Mapper.CollidesExactly`).

## Model

| member | source | states |
|---|---|---|
| CredentialRuns.CredentialContinuity | sdk/go/x509source.go:97-151 | over every timely run in which at most m refreshes fail in a row, no expired SVID (strictly: none at or past its NotAfter) is ever served before the context is cancelled, if and only if committed SVIDs have more than 2^m (max(c, 1) + c) - c left, c = 3 lag + 2 latency; with any delay that is (2^(m+1) - 1) c, and without failures max(c, 1 ns) |
| CredentialRuns.EnoughLifeSuffices | sdk/go/x509source.go:129-151 | the safety half: an invariant through read, wait, fire, failure and commit keeps enough life ahead of expiry for every refresh that may still fail |
| CredentialRuns.LifeNeededIs | sdk/go/x509source.go:137 | the closed form of the life that m failures need, each of which leaves half of what there was less the delay |
| CredentialRuns.TooLittleLifeFails | sdk/go/x509source.go:129-151 | the sharpness half: with any less life some timely run serves an expired SVID |
| CredentialRuns.SlowestRun | sdk/go/x509source.go:129-151 | from every state at the top of the loop with no more left than needed, the slowest run, failing as often as it may, reaches expiry with the old SVID still served |
| CredentialRuns.CancelWithoutCloseServesExpired | sdk/go/x509source.go:60-71 | from every start there is a run, with the context cancelled but the source not closed, after which an expired SVID is served and the loop has returned |
| CredentialRuns.CloseIsFinal | sdk/go/x509source.go:60-93 | after Close, over every continuation: still closed, both getters refuse, at most one more refresh starts, and the loop takes at most four more steps |
| CredentialRuns.ClosingIsFinal | sdk/go/x509source.go:60-93 | in every run in which Close has happened, both getters refuse as closed at the end, and after the closing at most one refresh starts and the loop takes at most four steps |
| CredentialRuns.ClosedLoopCanReturn | sdk/go/x509source.go:129-151 | the closed and cancelled loop is never stuck: within its step bound it can reach its return without waiting |
| CredentialRuns.HeldPairIsOneRefresh | sdk/go/x509source.go:61-123 | at every point of every run the SVID and the bundle held come from one and the same refresh, the last one committed, and until it is closed the source serves both whole |
| RetrySchedule.ExactRetrySchedule | sdk/go/x509source.go:129-151 | from R ns left, after k instant failures exactly ceil(R / 2^k) are left and all k attempts fell before expiry, for all k up to ceil(log2 R), where 1 ns is left |
| RetrySchedule.ExpiredRetrySchedule | sdk/go/x509source.go:139-141 | with at most a nanosecond left, and for ever after expiry, attempts that fail at once start exactly one second apart |
| RetrySchedule.AttemptsBeforeExpiryBounded | sdk/go/x509source.go:129-151 | until a refresh commits, no run with any latencies starts more than ceil(log2 R) attempts before expiry |
| RetrySchedule.CeilLog2IsLeast | sdk/go/x509source.go:137 | the count in the schedule is the least n with R at most 2^n |
| RetrySchedule.CeilDivBounds | sdk/go/x509source.go:137 | the quotient in the schedule is rounded up |
| CredentialSource.ParseCertificates | sdk/go/x509source.go:159-170 | the parsed chain is the given one in order, and parsing fails exactly when some certificate does not parse |
| CredentialSource.ParseSvidResponse | sdk/go/x509source.go:154-196 | an SVID results exactly from a nonempty parsable chain, a present parsable key and a valid SPIFFE ID, and holds those |
| CredentialSource.ParseBundleResponse | sdk/go/x509source.go:199-219 | a bundle results exactly from a valid trust domain and parsable authorities, and holds those |
| CredentialSource.X509Source.GetX509SVID | sdk/go/x509source.go:61-71 | refuses as closed whenever closed; otherwise serves the held SVID whole, or says that there is none |
| CredentialSource.X509Source.GetX509BundleForTrustDomain | sdk/go/x509source.go:74-84 | the same for the bundle |
| CredentialSource.X509Source.Close | sdk/go/x509source.go:87-93 | afterwards closed and cancelled, with SVID and bundle as they were |
| CredentialSource.X509Source.Refresh | sdk/go/x509source.go:97-126 | succeeds exactly when both answers parse, then both fields change together to what the answers say; otherwise nothing changes |
| CredentialSource.X509Source.NextWait | sdk/go/x509source.go:130-142 | the loop goes on exactly while open with a leaf certificate, and waits half of the remaining life, rounded down, or one second if that is nothing |
| CredentialSource.NewX509Source | sdk/go/x509source.go:36-58 | a source exists exactly if its first refresh succeeded, and then holds an SVID and its bundle |
| CloudflareCache.StalenessExactly | internal/attestor/cloudflare_workers.go:157-199 | over all interleavings, with requests stored within D: every key set returned for a URL was served by it at most `age` before, for all runs, if and only if `age` is at least 5 min + D less a nanosecond |
| CloudflareCache.BoundedStaleness | internal/attestor/cloudflare_workers.go:157-199 | the bound, for each returned key set: the same URL served the same keys less than 5 min + D earlier, so URLs never mix |
| CloudflareCache.ProvenanceKept | internal/attestor/cloudflare_workers.go:157-199 | the inductive invariant: everything cached, looked up, in flight or returned was served by its URL recently enough |
| CloudflareCache.OldestReturn | internal/attestor/cloudflare_workers.go:157-199 | a run that returns keys exactly as old as the bound allows |
| CloudflareCache.OlderAnswerMayOverwrite | internal/attestor/cloudflare_workers.go:190-195 | a run in which a caller's older answer replaces newer cached keys: the last writer wins |
| CloudflareCache.StoredServesFiveMinutes | internal/attestor/cloudflare_workers.go:157-195 | whatever is stored for other URLs meanwhile, a stored key set is what a later caller of its URL takes for five minutes, and from then on a caller has to ask |
| CloudflareCache.CloudflareWorkersAttestor.FetchJwks | internal/attestor/cloudflare_workers.go:157-199 | alone, a fresh entry is returned and kept; otherwise the response is returned and stored under its URL, or nothing changes on failure |
| CloudflareCache.UndisturbedFetch | internal/attestor/cloudflare_workers.go:166-198 | a call that finds nothing fresh and is not disturbed is one of the interleaved runs and leaves the cache that FetchJwks leaves |
| CloudflareCache.UndisturbedHit | internal/attestor/cloudflare_workers.go:158-164 | the same for a call that finds a fresh entry |
| CloudflareCache.CloudflareWorkersAttestor.MatchTeam | internal/attestor/cloudflare_workers.go:145-154 | the first configured team with that issuer, and none exactly when no team has it |
| CloudflareCache.IssuerDeterminesName | internal/attestor/cloudflare_workers.go:148 | two teams have the same expected issuer exactly when they have the same name |
| GithubCache.SingleFlightAlways | internal/attestor/github_oidc.go:153-194 | over all interleavings: one request outstanding at most, completed fetches an hour apart, and no keys given out an hour or more after their fetch |
| GithubCache.SingleFlightKept | internal/attestor/github_oidc.go:153-194 | the inductive invariant behind it, including mutual exclusion |
| GithubCache.RefetchedAfterAnHour | internal/attestor/github_oidc.go:153-194 | in every reachable state a caller inside the mutex takes the last fetched keys exactly while they are less than an hour old, and has to fetch otherwise |
| GithubCache.FetchRateBound | internal/attestor/github_oidc.go:153-194 | any window of length T sees at most floor(T / 1 h) + 1 completed fetches |
| GithubCache.FetchRateAttained | internal/attestor/github_oidc.go:153-194 | the bound is attained for every n |
| GithubCache.UndisturbedFetch | internal/attestor/github_oidc.go:153-194 | an undisturbed fetching call is one of the interleaved runs and leaves the cache that FetchJwks leaves |
| GithubCache.GitHubOIDCAttestor.FetchJwks | internal/attestor/github_oidc.go:153-194 | fresh keys are returned untouched; otherwise the cache becomes the response, or stays as it was when the fetch fails |
| GithubCache.GitHubOIDCAttestor.ValidateRepository | internal/attestor/github_oidc.go:137-151 | allowed exactly when the list is empty or some pattern matches with no malformed pattern before it; the other two verdicts exactly as well |
| Federation.SnapshotConsistency | internal/ca/federation.go:54-80 | over all interleavings of rounds: readers see nothing yet or exactly one successful round, covering every configured domain, each bundle under its own domain |
| Federation.OnlyCommitsAreVisible | internal/ca/federation.go:66-70 | rounds that begin, progress or fail without committing change nothing readers see |
| Federation.FullRoundReplaces | internal/ca/federation.go:77-81 | committing a round over an earlier one leaves nothing of the earlier one |
| Federation.RoundCoversDomains | internal/ca/federation.go:55-63 | a round's domains are exactly the configured ones |
| Federation.RoundTakesLast | internal/ca/federation.go:57-63 | each bundle is filed under its own domain and comes from the last endpoint configured for it |
| Federation.OtherUsesIgnored | internal/ca/federation.go:139-142 | keys for other uses never influence the bundle, whatever they hold |
| Federation.BundleFetcher.FetchOne | internal/ca/federation.go:112-156 | a bundle exists exactly when the answer is good and every certificate of its x509-svid keys parses, and then has these as authorities, each in its place in document order, and nothing else |
| Federation.BundleMeaning | internal/ca/federation.go:138-155 | the same of the bundle of a document as the rounds use it |
| Federation.BundleFetcher.Fetch | internal/ca/federation.go:54-72 | all endpoints' bundles committed together, exactly when all are good; otherwise the visible map is untouched |
| Federation.BundleFetcher.CommitAll | internal/ca/federation.go:65-69 | the loop under the lock overlays the whole round, in any map order |
| Federation.ReadsComeFromLastRound | internal/ca/federation.go:54-80 | at any point of any run GetBundle answers nothing exactly before the first commit or for a domain not configured; otherwise a bundle of that domain whose authorities are the certificates, in order, of the document that the last committed round read from the last endpoint configured for it |
| Federation.BundleFetcher.MinRefreshInterval | internal/ca/federation.go:160-172 | the least parsable interval, capped at five minutes |
| Glob.MatchMeaning | internal/entry/matcher.go:39 | the grammar's meaning: exactly the names that can be cut into one piece per term, each described by its term |
| Glob.DocumentedExactly | internal/entry/matcher.go:39 | the leftmost chunk scan of path.Match agrees with the grammar's meaning on every name if and only if a check of the pattern finds no chunk between two stars that slips (or some class takes nothing) |
| Glob.SlipsExactly | internal/entry/matcher.go:39 | the check, position by position and for shifts up to the chunk's length, finds a chunk exactly when on some name it fits twice with a slash in what the second fit adds |
| Glob.NegatedClassSlips | internal/entry/matcher.go:39 | "a/" is refused for `*[^b]*`, although the grammar accepts it |
| Glob.ScanIsSound | internal/entry/matcher.go:39 | for every pattern: what the scan accepts the grammar accepts |
| Glob.ScanIsComplete | internal/entry/matcher.go:39 | for every pattern without such a chunk: what the grammar accepts the scan accepts, since the next star takes what an early fit leaves over |
| Glob.DecidedIsSlipFree | internal/attestor/github_oidc.go:142 | patterns in which no term takes "/" and another character too have no such chunk |
| Glob.SingleTermSlips | internal/entry/matcher.go:39 | a single term between stars is such a chunk exactly when it takes "/" and another character |
| Glob.ParseShow | internal/entry/matcher.go:39 | parsing undoes printing for every list of terms with nonempty classes |
| Glob.ParseExactly | internal/attestor/github_oidc.go:142-146 | a pattern is malformed exactly if it spells no list of terms in the grammar, and otherwise is parsed as what it spells |
| Glob.SegmentsPreservedExactly | internal/attestor/github_oidc.go:142 | a pattern preserves the number of "/" segments of everything it matches if and only if none of its classes takes "/", or one takes nothing |
| Glob.PrefixGlobScope | internal/attestor/github_oidc.go:142 | a plain prefix with a final star accepts exactly the prefix and a slash-free rest; a plain pattern accepts only itself |
| Glob.ClassScope | internal/entry/matcher.go:39 | a class takes one character, exactly those in one of its ranges or in none, "/" included; "?" takes any but "/" |
| Matcher.MatchEntries | internal/entry/matcher.go:12-27 | for every list: the first entry no eligible entry beats, none exactly when none is eligible; with distinct IDs, the winner of the pool |
| Matcher.AllSelectorsMatch | internal/entry/matcher.go:29-45 | true exactly when every selector has a colon, a claim for its key, and a well-formed glob matching it |
| Matcher.SelectorMeaning | internal/entry/matcher.go:30-42 | a selector without a colon never holds; key and glob hold exactly if the key is claimed, the glob is well formed and its terms scan the claimed value |
| Matcher.PlainSelectorMeaning | internal/entry/matcher.go:30-42 | a plain glob asks for exactly that value, with a final star for it and a slash-free rest |
| Matcher.WinnerMeaning | internal/entry/matcher.go:8-11 | the winner is the greatest eligible entry under (more selectors, smaller ID), unique, and exists exactly when any is eligible |
| Matcher.WinnerOutranks | internal/entry/matcher.go:8-25 | the winner is for the attestor, all its selectors hold, and every other such entry has fewer selectors, or as many and a greater ID |
| Matcher.BetterIsStrictOrder | internal/entry/matcher.go:21-22 | that ranking is a strict total order on distinct IDs |
| Matcher.LessMeaning | internal/entry/matcher.go:22 | IDs are compared lexicographically |
| Matcher.CutMeaning | internal/entry/matcher.go:31 | a selector is cut at its first colon and nothing is lost |
| Matcher.EnumerationIndependence | internal/entry/jsonstore.go:95-107 | any two listings of a pool with distinct IDs select the same entry |
| Matcher.FilterByAttestor | internal/entry/sqlite.go:136-140 | leaving out rows of other attestors never changes the selection |
| Matcher.AddingAnEntry | internal/entry/matcher.go:12-27 | adding an entry changes the winner only to that entry, and exactly when it is eligible and better |
| Matcher.DeletingALoser | internal/entry/matcher.go:12-27 | deleting an entry that did not win never changes the winner |
| Matcher.ExtendingSelectors | internal/entry/matcher.go:21-45 | more selectors only shrink what an entry matches and only raise its rank |
| Matcher.ExtendedWinnerStillWins | internal/entry/matcher.go:21-45 | a winner that still matches with more selectors still wins |
| Stores.JsonPersistence | internal/entry/jsonstore.go:45-93 | over any run of calls and failing writes: memory is the guarded map operations applied in turn, keyed by ID; after every successful call the file is the whole memory and reopening gives the same store |
| Stores.InStepKept | internal/entry/jsonstore.go:45-93 | the file falls out of step exactly through a permitted operation whose write fails |
| Stores.JSONStore.Create | internal/entry/jsonstore.go:45-53 | refused exactly for a taken ID or a nil map; otherwise in memory even if the write fails, and on disk if it does not |
| Stores.JSONStore.Update | internal/entry/jsonstore.go:75-83 | the same for an ID that must exist |
| Stores.JSONStore.Delete | internal/entry/jsonstore.go:85-93 | the same for removal |
| Stores.JsonGetReadsBack | internal/entry/jsonstore.go:45-93 | Get answers what the last permitted operation for the ID left there, whatever operations on other IDs, refused calls and failed writes came since |
| Stores.NullFileIsDead | internal/entry/jsonstore.go:21-53 | a store opened on a file holding null never accepts or changes anything, nor does its file ever change |
| Stores.DeadExactly | internal/entry/jsonstore.go:21-93 | a store just opened has some run of calls that succeeds if and only if its file does not hold null |
| Stores.JSONStore.Match | internal/entry/jsonstore.go:95-107 | the pool's winner whatever the map's order, a failure when there is none |
| Stores.NewJSONStore | internal/entry/jsonstore.go:21-35 | empty for an absent file, a nil map for one holding null, the file's table for a good one, no store for a corrupt or unreadable one |
| Stores.SqlStore.Create | internal/entry/sqlite.go:55-68 | inserts exactly when the database works and the ID is free |
| Stores.SqlStore.Update | internal/entry/sqlite.go:97-117 | replaces exactly when the database works and the ID exists |
| Stores.SqlStore.Delete | internal/entry/sqlite.go:119-134 | removes exactly when the database works and the ID exists |
| Stores.SqlGetReadsBack | internal/entry/sqlite.go:55-134 | the same for SQL on a working database, through encoding and decoding |
| Stores.SqlStore.DecodeRows | internal/entry/sqlite.go:146-156 | the entries of the attestor's rows, in any order, or nothing exactly when one does not decode |
| Stores.SqlStore.Match | internal/entry/postgres.go:124-145 | the winner among the attestor's rows; without one, SQLite fails and Postgres answers nothing; other attestors' rows are never read |
| Stores.PrefilteredRowsSelectAlike | internal/entry/sqlite.go:136-163 | selecting over the attestor's rows is selecting over the whole table |
| Stores.SqlRefinesTable | internal/entry/sqlite.go:55-134 | each statement acts on the table as the abstract operation, and succeeds exactly when it is permitted |
| Stores.BackendsAgree | internal/entry/postgres.go:45-122 | after any sequence of operations on working storage, JSON and SQL stand for the same table and permit the same next operation |
| Stores.RetryAfterFailedCreate | internal/entry/jsonstore.go:45-53 | after a failed write, retrying Create succeeds on SQL and is refused by JSON |
| Ttl.LifetimeIsLeastBound | internal/ca/self_signed.go:329-356 | without overflow, the lifetime is the least present bound in whole seconds and never above the maximum |
| Ttl.LifetimeInRange | internal/ca/self_signed.go:332-356 | with full wrap-around, never negative and never above the larger of default and maximum |
| Ttl.CallersLifetimeExactly | internal/ca/self_signed.go:286 | for the callers' inputs, exactly when the result is the least bound |
| Ttl.OverflowFallsToDefault | internal/ca/self_signed.go:335 | the first overflowing request gets the default, which is the least bound only if it equals the maximum |
| Ttl.NoLifetimeExactly | internal/ca/self_signed.go:332-356 | with settings of at least a second, a caller gets a lifetime of zero exactly when the request wraps to less than a second, as 18446744074 s does |
| Ttl.ExceedsMaximumExactly | internal/ca/self_signed.go:349-354 | for the callers' inputs, exactly when the maximum is exceeded |
| Ttl.LifetimeMonotone | internal/ca/self_signed.go:332-356 | without overflow, monotone in every present bound |
| Ttl.PastExpiryIgnored | internal/ca/self_signed.go:343-348 | a platform expiry in the past changes nothing |
| Ttl.FutureExpiryBounds | internal/ca/self_signed.go:343-348 | given a future platform expiry, the lifetime ends no later than it |
| SelfSignedCA.SelfSignedCA.ComputeTTL | internal/ca/self_signed.go:332-356 | the branch-by-branch computation is the lifetime function the lemmas are about |
| SelfSignedCA.SelfSignedCA.SignX509SVID | internal/ca/self_signed.go:258-327 | signs exactly for IDs of its trust domain with a path, and yields that leaf under its intermediate |
| SelfSignedCA.SelfSignedCA.SignJWTSVID | internal/ca/self_signed.go:361-411 | the same for tokens, and only with an audience |
| SelfSignedCA.NewSelfSignedCA | internal/ca/self_signed.go:59-131 | loads the root if both files exist, else makes and saves one; the configured trust domain, default and maximum; intermediate, for the signing TTL, and JWT key are new; every failure leaves the disk as the failing step left it |
| Pki.FloorIsWholeSecond | internal/ca/self_signed.go:299-316 | certificate times are whole seconds, less than one second early |
| CaRuns.OnlyIssuedChainsValidate | internal/ca/self_signed.go:446-458 | whatever chain is presented, if it validates its leaf was issued by this CA for the returned ID of its trust domain, under the root in use, and is in its time |
| CaRuns.IssuedChainValidatesExactly | internal/ca/self_signed.go:446-458 | an issued chain validates, to exactly its own ID, if and only if trust domain, root and all three validity periods fit |
| CaRuns.IdentitySurvivesRestarts | internal/ca/self_signed.go:79-131 | over any run that keeps both root files, a chain issued by any earlier process validates at the current one exactly while its times hold |
| CaRuns.RootPersists | internal/ca/self_signed.go:79-106 | without removal of the files, every start that comes up has the same root |
| CaRuns.StartPutsRootOnDisk | internal/ca/self_signed.go:79-106 | a start that comes up leaves its root in both files, the old one if there was one, else a new ten-year one |
| CaRuns.ReachableWorldsSound | internal/ca/self_signed.go:59-327 | the invariant on keys, certificates and records holds in every world reachable from an empty disk |
| CaRuns.JwtDiesWithItsProcess | internal/ca/self_signed.go:462-476 | a token validates if and only if no restart has come up since it was signed and its audience and, give or take a minute, its times fit |
| CaRuns.JwtRoundTrip | internal/ca/self_signed.go:361-411 | at the signing process a token validates to its ID for its audiences within its times, give or take a minute, and not otherwise |
| CaRuns.OnlyIssuedTokensValidate | internal/ca/self_signed.go:462-476 | whatever token is presented, if it validates this process signed it, for an ID of its trust domain and the audience asked for, and it is in its time give or take a minute |
| CaRuns.InterruptedSaveIsPermanent | internal/ca/self_signed.go:79-106 | after a start of a CA that could come up, some run that removes no file comes up again if and only if that start was not interrupted: key torn beside a certificate, or key saved and then certificate torn or another key's certificate left in place |
| CaRuns.CanComeUpExactly | internal/ca/self_signed.go:79-113 | from any world, some run that removes no file comes up again if and only if a file is missing or both are readable and the certificate is the key's |
| CaRuns.UnrecoverableStaysDown | internal/ca/self_signed.go:79-113 | otherwise no run that removes no file ever comes up or changes the files |
| CaRuns.StartLeavesRecoverable | internal/ca/self_signed.go:79-106 | a start keeps files recoverable if and only if it is not interrupted |
| CaRuns.StartComesUpExactly | internal/ca/self_signed.go:59-131 | a start comes up if and only if its settings parse, its files are recoverable and, if it has to make a root, both saves work |
| CaRuns.GoodForLifeExactly | internal/ca/self_signed.go:139-188 | in every reachable world a chain is valid for its leaf's whole life if and only if the leaf ends within intermediate and root, or has no life at all |
| CaRuns.NestsExactly | internal/ca/self_signed.go:161-188 | what a process issues lies within its intermediate if and only if it ends within signing TTL of the start |
| CaRuns.SettingsDecideLifetime | internal/ca/self_signed.go:59-77 | until the next restart a process signs only IDs of the configured trust domain with a path, and what it signs ends after the TTL asked for or the configured default, capped by the configured maximum |
| CaRuns.LeavesNestInIntermediate | internal/ca/self_signed.go:285-304 | with positive settings and default at most maximum, every leaf issued up to signing TTL less maximum TTL after the start is nested, overflow included |
| CaRuns.ExpiredIntermediateIssuesNothingValid | internal/ca/self_signed.go:161-188 | once the intermediate has ended, nothing issued ever validates |
| CaRuns.ReachableWorldsOrdered | internal/ca/self_signed.go:139-176 | in every reachable world certificates begin no earlier than their signers |
| Attest.RegistryAttest | internal/attestor/registry.go:23-30 | the first attestor accepting the type decides; nobody accepting is a failure |
| Attest.FirstAttestorDecides | internal/attestor/registry.go:23-30 | given which attestor is the first to accept the type, the result is its result |
| Attest.StoreMatch | internal/entry/store.go:5-13 | each backend's answer is one its contents allow |
| Attest.BackendChoosesWinner | internal/server/attest.go:76-80 | a backend that stands for a table answers with the table's winner, in whatever order it walks it |
| Attest.HandlerGoesByTable | internal/server/attest.go:76-80 | whatever backend stands for a table, the handler goes by the table's winner for the claims proved |
| Attest.BackendsAnswerAlike | internal/server/attest.go:76-80 | servers with any two backends that stand for the same table give the same response to every request |
| Attest.Server.HandleAttest | internal/server/attest.go:35-139 | every request ends by the first thing it lacks or in an SVID of exactly the type asked for; success and issue counters stay equal per evidence type, and refusals count nothing but failed attestations |
| Attest.RefusalsExactly | internal/server/attest.go:35-125 | status and code of each refusal by the first thing that is missing: request fields, encoding, attestor or its consent to the decoded evidence, entry, signable ID; nothing else is refused |
| Attest.Server.Decide | internal/server/attest.go:35-125 | the handler's early returns, as an outcome of request, attestors, store contents, CA and clock |
| Attest.Server.CheckRequest | internal/server/attest.go:36-63 | passes exactly the well-formed requests whose evidence decodes, and decodes it |
| Attest.Server.Answer | internal/server/attest.go:65-134 | attests, matches and issues, by the store's choice for the claims attested; the answer is of the requested type |
| Attest.Server.IssueSvid | internal/server/attest.go:82-134 | the entry's SVID of the requested type, leaf first, or a server error exactly when the CA may not sign its ID |
| Attest.Server.CountIssued | internal/server/attest.go:136-137 | one success and one issued SVID more, under this request's labels |
| Attest.IssuesExactlyToTheEntitled | internal/server/attest.go:35-139 | for every request, store and state of the database: an SVID is issued if and only if the request is well formed and its evidence proves claims whose unique best match, among the entries the store can read for that evidence type, names an ID the CA may sign |
| Attest.ChoosesFromReadable | internal/server/attest.go:76-80 | the store chooses the winner of what it can read: everything in memory, or the attestor's rows if the database works and each of them decodes |
| Attest.IssuesTheEntrysSvid | internal/server/attest.go:82-134 | a request entitled to an entry gets that entry's SVID, or a server error exactly when the CA may not sign its ID |
| Attest.IssuedLifetime | internal/server/attest.go:82-134 | its ID, key, audience and times: the lifetime is min(entry TTL if positive else 3600 s, maximum TTL) |
| Attest.DocumentedMinimumExactly | internal/server/attest.go:68-139 | what is issued ends at the documented minimum, platform token included, if and only if the attestation has no expiry or leaves the promised lifetime in whole seconds; it never ends earlier |
| Attest.TokenOutlived | internal/server/attest.go:82-86 | an instance: 3600 s issued where the documented minimum is 60 s |
| Attest.IssuedSvidValidatesAtOnce | internal/server/attest.go:94-125 | the issued chain validates at once at the issuing process if and only if its own intermediate and root are in their time and the leaf, rounded down to whole seconds, has not already ended |
| Attest.IssuedTokenValidatesExactly | internal/server/attest.go:126-133 | a JWT request is answered with a token that validates at the issuing process to the entry's ID for exactly the audiences asked for and its lifetime, give or take a minute |
| Attest.DefaultTtlSettingExactly | internal/server/attest.go:82-86 | another default TTL setting of the CA issues the same SVID if and only if the TTL asked for does not wrap to nothing and the maximum is positive, or both defaults are the same in whole seconds |
| EndToEnd.IssuedLifetimeKeepsSourceLive | sdk/go/x509source.go:128-151 | over all runs in which every SVID in hand is one the server issued at most a latency before and at most m refreshes fail in a row, none is served expired if and only if the issued lifetime has in it a second, the latency and the life that m failures need; without failures a second, three scheduling delays and three latencies |
| EndToEnd.HeldChainValidatesExactly | sdk/go/x509source.go:61-71 | at every point of such a run the chain in hand also validates at the CA if and only if it is live and neither the process's intermediate nor its root has ended |
| EndToEnd.SuppliedRunsAreTimely | sdk/go/x509source.go:97-123 | such runs meet the client's timing with the lifetime less the latency and the second that certificates round away |
| EndToEnd.LeastLeftAttained | internal/ca/self_signed.go:285-304 | and an SVID issued a nanosecond before a full second has no more than that |
| Mapper.DeriveSpiffeId | internal/mapper/mapper.go:12-23 | the ID renders the values in increasing key order, and no map iteration order can give another |
| Mapper.DerivedSegments | internal/mapper/mapper.go:12-23 | with slash-free parts the ID's segments are the scheme, the trust domain, the attestor and the values in key order |
| Mapper.SortSorts | internal/mapper/mapper.go:17 | sorting yields an increasing listing of the same keys |
| Mapper.IncreasingListingUnique | internal/mapper/mapper.go:10-11 | a set of keys has exactly one increasing listing |
| Mapper.SplitJoin | internal/mapper/mapper.go:22 | splitting on "/" recovers the values if and only if there are any and all are slash-free |
| Mapper.CollidesExactly | internal/mapper/mapper.go:12-23 | some other claims under the same keys derive the same ID if and only if there are two or more claims and one has a slash |
| Mapper.DerivationInjective | internal/mapper/mapper.go:12-23 | for one key set, an ID determines the (slash-free) trust domain and attestor, and the claims too if one of the two claim sets is slash-free or has a single claim |
| Mapper.SlashesCollide | internal/attestor/github_oidc.go:122-131 | an instance: the claims of a GitHub token collide, because a repository has a slash |

## Left out

- HTTP, JSON, YAML, PEM, ASN.1, base64, SQL drivers and logging: they are parameters or environment steps; a refused request or bad body is a None.
- Real cryptography: keys are names, a signature is the name of its key, and nobody else holds the CA's keys; the JWT key ID is not modelled apart from the key.
- Path validation of go-spiffe and crypto/x509: modelled from section 6.1 of RFC 5280 (times, issuer names, CA flag, certSign, path length); name constraints, extended key usages and duplicate elimination are not.
- Validation of a token's claims in go-jose: modelled with its default leeway of one minute on exp and iat.
- path.Match: the scan is modelled on characters, not on bytes of UTF-8.
- Rounding of `Duration.Seconds()` through float64: modelled as truncation to whole seconds.
- SelfSignedCA.SelfSignedCA.ComputeTTL: int is 64 bits wide, as on the platforms the program is built for; the clock itself does not overflow.
- Stores.JSONStore.Create: entries are values, so a caller that keeps the pointer it passed in or got out and changes the entry through it is not modelled.
- Stores.NewJSONStore: null in place of a single entry in the file, which the source keeps as a nil pointer, is not modelled.
- Stores.SqlStore.Create: time stamps, the attestor index and column types are not modelled; selectors go through an encoding that decodes to what was encoded.
- Torn writes: a failed write leaves the JSON file in any state, and a root file as it was or corrupt.
- Mapper.DeriveSpiffeId: sort.Strings is a library call, modelled as an insertion sort on a sequence; strings are sequences of characters, not bytes.
- Attestors' own verification of evidence (STS, OIDC, Access JWTs), except the two key caches, the team match and the repository list.
- Federation.BundleFetcher.Fetch: the ticker loop of `Start` and its panic on a non-positive interval; rounds may start at any time and overlap.
- The fact that a client reading SVID and bundle in two calls may straddle a commit; each call by itself is atomic.
- The validate endpoint, which passes an empty expected audience; the JWT round trip is proved at the CA's own functions.
- Listing entries, bundle and JWKS endpoints, configuration, CLI, middleware, and the TypeScript SDK: plumbing without further properties.
