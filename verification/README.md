# A verified model of the identity model libraries and their gates

This project models the parts of the repository whose behaviour is hardest to see from
one function, in Dafny, and proves what they promise.  `dafny verify dfyconfig.toml` checks
all of it.

| file | models |
|---|---|
| `RecencyList.dfy` | the reference: a least-recently-used list with expiry and a bound, and the cooldown records beside it |
| `LruInclusion.dfy` | whole runs of that list: inclusion between bounds, what a hit means, how long a key survives |
| `TickCache.dfy` | the Go caches of JWK Sets and of discovery documents as one class with recency ticks, proved to be the list |
| `TickProtocol.dfy` | their locking, over every interleaving of readers and writers |
| `TickRecency.dfy` | the history of these ticks: when the entry evicted is the least recently used one |
| `SingleFlight.dfy` | their fetch protocol, over every interleaving of callers, flights and cancellations |
| `KeySets.dfy` | keys on the heap: parsing, copying, isolation |
| `JwksHandle.dfy` | the JWK Set handle: fetch, resolve, refresh |
| `RefreshThrottle.dfy` | the refresh cooldown and the bounds over whole runs |
| `VectorRun.dfy`, `VectorServer.dfy`, `VectorOrder.dfy` | the canned-vector server: one run and its verdict, the table of runs, completion in any order |
| `Bytes.dfy`, `DpopTransport.dfy` | the DPoP round tripper: nonces, replay of requests, restoration of responses |
| `DpopProof.dfy` | DPoP proofs, builder against verifier |
| `CargoBlocks.dfy`, `CargoText.dfy`, `CargoLock.dfy` | the Cargo.lock synchroniser: the blocks of a lockfile, lines of text, and reading and writing as a lens |
| `ClaimsValidators.dfy`, `ScopeValidator.dfy` | composable claims validators and the scope validator |
| `FormEncoding.dfy` | form encoding of Basic credentials, and capped reading |
| `GoMutationGate.dfy` | the Go half of the native mutation gate |
| `MutmutText.dfy`, `PyMutationScope.dfy` | the Python mutation gate: what it reads from mutmut, and its two scoping stages |
| `Options.dfy` | optional values and results |

## How to read it

Code that changes things step by step is a class or a method with loops, proved against a
function or a predicate; the lemmas then say what that function or predicate means over all
inputs, whole runs or all interleavings.  Concurrency is a state machine: `Enabled` says when
a step is possible, `After` what it does, `Exec` what a sequence of steps leads to.

Clock readings, answers of servers, results of tools, diffs, file contents and the outcome of
signing are parameters.  Clocks are integers.  Hashes and signatures are ideal: a hash is what
was hashed, a signature names its key and what it covers.

## What turned out not to hold

- The recency tick is not always the order of use: a hit takes its tick and stores it in two
  steps under a shared lock, so a slow hit can store an old tick over a newer one, and a key
  used last can be evicted first, although the comment of the cache speaks of the least
  recently used entry.  `OverlapInvertsRecency` is such a run.  `SettledTickIsStale` gives the
  exact condition, which takes two overlapping hits on one key (`NeverOvertaken`), and
  `VictimIsLeastRecentlyUsed` the promise that holds without it.
- The throttle needs the record of a URI to be kept, and eviction prunes it.  The bound on
  automatic refreshes holds for all runs of at most n URIs exactly if the cache is unbounded
  or has room for n: `ThrottleIsExact`, with the run `EvictionLiftsThrottle`.  And only
  successful refreshes leave a record: while fetches fail, automatic refreshes are not
  throttled at all, `FailuresAreNotThrottled`.
- In the canned-vector server the order in which bodies complete does not show in records,
  replies to accepted requests or verdicts, but it does show in the text of the error that
  refusals and checks repeat: `ErrorTextIsFixed` gives the exact condition.
- The order of members matters for an any-of validator exactly when one member accepts and
  another has a bug or panics: `AnyOrderMatters`.
- A lockfile version with a quote or a line break cannot be written and read back; an empty
  last line that is ended otherwise than by a line feed is lost by a write: `PutGet`,
  `PutLines`.
- A most negative maximal age would admit exactly the proofs whose age saturates, because its
  negation wraps around: `WindowMeans`.
- The Python gate looks only at the first line that a mutant removes: one that removes several
  lines, of which only a later one was changed, is dropped.  `LaterLineSlips` is such a
  mutant, `ChangedLineIsKept` the exact condition.

## Model

| member | source | states |
|---|---|---|
| TickCache.Cache.Lookup | go/pkg/jwks/cache.go:146-158 | a hit answers the cached value and moves the key to the front of the recency list; an expired or missing key answers nothing and changes nothing |
| TickCache.Cache.Store | go/pkg/jwks/cache.go:163-170 | the recency list with the key in front, its new value and expiry, cut to the bound |
| TickCache.Cache.Evict | go/pkg/jwks/cache.go:178-198 | cuts the recency list to the bound and drops the cooldown records of exactly the keys cut; no bound if it is not positive |
| TickCache.LeastRecent | go/pkg/discovery/cache.go:117-131 | the scan finds one victim, the same in every iteration order: the only entry of smallest tick, the last key of the recency list |
| TickCache.Cache.Invalidate | go/pkg/jwks/cache.go:203-207 | removes the entry and leaves the cooldown record |
| TickCache.Cache.Clear | go/pkg/jwks/cache.go:210-215 | no entry and no record is left |
| TickCache.Cache.MarkRefresh | go/pkg/jwks/cache.go:102-123 | the record of the key is the instant; under a positive bound the records are capped by dropping oldest ones |
| TickCache.Cache.CapRefresh | go/pkg/jwks/cache.go:109-122 | what stays fits the bound and is not older than anything dropped |
| TickCache.Cache.LeastRecentlyRefreshed | go/pkg/jwks/cache.go:110-117 | some record that no other undercuts |
| TickCache.Cache.RefreshThrottled | go/pkg/jwks/cache.go:128-139 | true exactly if the cooldown is positive and the record is younger than it |
| TickCache.ViewIsDetermined | go/pkg/jwks/cache.go:48-73 | entries and records leave no choice in the recency list they stand for |
| TickCache.StandsHit | go/pkg/discovery/cache.go:83-95 | one hit on the entries is one touch of the list |
| TickCache.StandsInsert | go/pkg/discovery/cache.go:103-105 | one insertion into the entries is one insertion into the list |
| TickCache.StandsCut | go/pkg/discovery/cache.go:130 | one eviction from the entries is one cut of the list |
| RecencyList.JustStoredSurvives | go/pkg/discovery/cache.go:100-132 | the key just stored is still there after its own eviction pass, with its value, whatever the bound |
| RecencyList.LatestMarkSurvives | go/pkg/jwks/cache.go:105-122 | the record just marked survives the cap if its instant is later than all others |
| RecencyList.StoreValid | go/pkg/jwks/cache.go:163-198 | storing keeps the list sound and within a positive bound |
| RecencyList.StoredHits | go/pkg/jwks/cache.go:146-170 | what was just stored is a hit until it expires |
| LruInclusion.InclusionTheorem | go/pkg/jwks/cache.go:146-207 | the same calls on caches of bounds m <= m' (or unbounded) keep the smaller one's entries, values, expiries and recency order inside the larger one's; every hit of the smaller is the same hit of the larger |
| LruInclusion.HitIsLatestStore | go/pkg/jwks/cache.go:146-170 | a hit of a bounded cache is the unexpired value of the latest store of that key not dropped since |
| LruInclusion.UnboundedIsLatest | go/pkg/jwks/cache.go:160-170 | without a bound the cache is the map of latest stores |
| LruInclusion.HotKeySurvives | go/pkg/jwks/cache.go:34-41 | a key used since survives as long as fewer than m other keys have been used after it |
| LruInclusion.UsedKeyStays | go/pkg/jwks/cache.go:34-41 | over every run, a key that was stored or hit stays cached until it is dropped or m other keys have been used since; order of insertion would not do |
| LruInclusion.FloodEvicts | go/pkg/jwks/cache.go:34-41 | m stores of other keys do evict it, so the previous bound is tight |
| TickProtocol.InvHolds | go/pkg/jwks/cache.go:146-198 | over every interleaving of readers and writers, issued ticks never exceed the counter, ticks of entries and of readers in flight are pairwise distinct, and a writer is alone |
| TickProtocol.VictimIsUnique | go/pkg/jwks/cache.go:178-197 | a writer that may evict has one possible victim, which is not the key being stored, and no reader is inside |
| TickProtocol.EvictionIsDeterministic | go/pkg/jwks/cache.go:182-197 | a whole eviction pass has one outcome, and the key just stored has the newest tick in it |
| TickProtocol.EvictionMeans | go/pkg/jwks/cache.go:178-197 | a whole eviction pass leaves as many entries as the bound admits, unchanged, and every one that goes is older than every one that stays |
| TickProtocol.EvictionEnds | go/pkg/jwks/cache.go:178-197 | a writer is never stuck: some eviction pass ends by unlocking |
| TickProtocol.NewestStays | go/pkg/jwks/cache.go:160-170 | with a bound of at least one the newest key is not the victim |
| TickRecency.SettledTickIsStale | go/pkg/jwks/cache.go:141-158 | with no tick of a key under way, its entry is older than its last use exactly if its last store came from an older use than one stored before |
| TickRecency.VictimIsLeastRecentlyUsed | go/pkg/jwks/cache.go:34-41 | the entry that is evicted is the least recently used of all entries, unless its own last store was overtaken in that way; the others may have been |
| TickRecency.NeverOvertaken | go/pkg/jwks/cache.go:153-157 | if hits on one key never overlap, nothing is overtaken |
| TickRecency.OverlapInvertsRecency | go/pkg/jwks/cache.go:141-198 | a run from the empty cache in which a slow hit is overtaken, and the key used after another one is evicted before it |
| SingleFlight.InvHolds | go/pkg/jwks/cache.go:228-267 | the registry holds exactly the unpublished flights, callers wait on flights for their own key, and every value is genuine, over every interleaving |
| SingleFlight.OneFetchPerKey | go/pkg/jwks/cache.go:235-237 | at most one fetch of a key is in progress |
| SingleFlight.ValuesAreFetched | go/pkg/jwks/cache.go:246-252 | a value handed to a caller or cached comes from a successful fetch of that key; failures are never cached |
| SingleFlight.WaitersAgree | go/pkg/jwks/cache.go:258-265 | callers served by one flight get one result |
| SingleFlight.WaiterIsNeverStuck | go/pkg/jwks/cache.go:255-266 | the flight of a waiting caller can move, or has a result for it |
| SingleFlight.FlightsFinish | go/pkg/jwks/cache.go:237-253 | a flight publishes after at most four steps of its own |
| SingleFlight.OneFetchServesAll | go/pkg/jwks/cache.go:228-267 | two callers that miss a key are served by one flight with what the server answers; only a success is logged, once, and cached |
| SingleFlight.SavedIsServed | go/pkg/jwks/cache.go:231-253 | what is stored is served, until it expires and not after, to a later caller and to the flight of one that joined too late |
| SingleFlight.CancelIsInvisible | go/pkg/jwks/cache.go:243-257 | cancelling a caller, the one that started the flight included, changes nothing that the others can do or see |
| KeySets.KeyIsIsolated | go/pkg/jwks/jwks.go:123-133 | no writes through what belongs to somebody else change what a key handed out reads |
| KeySets.ServeTwo | go/pkg/jwks/cache.go:258-265 | two callers of one flight get copies that share no slice and no map with each other or with the cache |
| KeySets.CloneKey | go/pkg/jwks/jwks.go:286-295 | a copy reads the same and shares no map with the original |
| KeySets.CloneKeys | go/pkg/jwks/jwks.go:300-309 | a copied slice reads the same, is entirely fresh and has an owner of its own |
| KeySets.ParseKey | go/pkg/jwks/jwks.go:313-345 | a member that is no object fails the document; a mistyped or incomplete key is invalid; the rest keeps its unmodelled parameters |
| KeySets.ParseKeySet | go/pkg/jwks/jwks.go:241-280 | the usable keys in document order, or the error of a malformed member, or the first invalid key if none is usable, or the empty-set error |
| KeySets.DocumentMeans | go/pkg/jwks/jwks.go:55-80 | which documents parse, exactly which members yield a key and with what, and which error else |
| KeySets.UnusableKeyIsSkipped | go/pkg/jwks/jwks.go:251-269 | an invalid key anywhere does not change which other keys a document yields |
| JwksHandle.FindMaster | go/pkg/jwks/cache.go:228-253 | the cache's own slice, found at either look, or fetched and stored |
| JwksHandle.Fetch | go/pkg/jwks/cache.go:228-267 | served from the cache at either look, or asked and stored; the caller gets a fresh copy of what the cache now holds, and a failure changes nothing |
| JwksHandle.FetchTwice | go/pkg/jwks/jwks.go:97-100 | a second fetch within the time to live of what the first one stored asks nobody and reads the same keys, whatever the first caller did to its copy; a later one asks again |
| JwksHandle.Flight | go/pkg/jwks/cache.go:237-253 | looks again, else fetches and stores; the result is the cache's own slice |
| JwksHandle.Handle.ResolveKey | go/pkg/jwks/jwks.go:123-133 | found exactly if some key has the kid; then a fresh copy of the first such key |
| JwksHandle.Handle.ForceRefresh | go/pkg/jwks/jwks.go:167-178 | asks exactly once; on success the keys are the fetched ones, the cache holds them too and the cooldown restarts; on failure the keys stay and only the entry is gone |
| JwksHandle.Handle.Adopt | go/pkg/jwks/jwks.go:173-177 | the record is marked and the keys are taken over, with the cache otherwise as it was |
| JwksHandle.Handle.ResolveKeyWithRefresh | go/pkg/jwks/jwks.go:145-159 | the server is asked exactly if the kid is unknown and no refresh was recorded less than a cooldown ago; then the answer decides, and else nothing changes |
| JwksHandle.FetchKeySet | go/pkg/jwks/jwks.go:102-109 | a handle with a fresh copy of its own of what the cache holds; after an error the cache is valid and unchanged |
| JwksHandle.HandleIsIsolated | go/pkg/jwks/jwks.go:282-309 | no writes through what belongs to anybody else change what a handle reads |
| JwksHandle.CacheIsIsolated | go/pkg/jwks/cache.go:231-234 | no writes through anything handed out change what the cache holds for any URI |
| RefreshThrottle.ThrottleBound | go/pkg/jwks/jwks.go:145-178 | in every run of the cache that keeps the record of a URI, under a clock that never runs back, k successful automatic refreshes whose marks span L satisfy (k-1)*cooldown <= L, with explicit refreshes interleaved |
| RefreshThrottle.AutoIsSpaced | go/pkg/jwks/cache.go:128-139 | in such a run an automatic refresh, successful or not, starts at least a cooldown after any earlier mark |
| RefreshThrottle.AutoPassesIff | go/pkg/jwks/cache.go:125-139 | after any run, an automatic refresh at least a cooldown after every mark of its URI goes through; while the record is kept, only such a one does |
| RefreshThrottle.BoundIsAttained | go/pkg/jwks/cache.go:125-139 | the bound is attained: k automatic refreshes of one URI exactly a cooldown apart all succeed, for every k |
| RefreshThrottle.RoomIsEnough | go/pkg/jwks/cache.go:176-198 | the bound holds in every run, without clearing, whose URIs all fit the cache |
| RefreshThrottle.EvictionLiftsThrottle | go/pkg/jwks/cache.go:195-196 | one URI more than the bound is enough for a run of stores that evicts a record and lets two automatic refreshes pass in one instant |
| RefreshThrottle.ThrottleIsExact | go/pkg/jwks/cache.go:176-198 | under such a clock and without clearing, the bound holds in all runs of at most n URIs exactly if the cache is unbounded or n is within its bound |
| RefreshThrottle.FailuresAreNotThrottled | go/pkg/jwks/jwks.go:167-173 | while fetches fail, any number of automatic refreshes pass in one instant |
| RefreshThrottle.BothBounded | go/pkg/jwks/cache.go:92-123 | entries and records stay within one positive bound in every state of every run |
| RefreshThrottle.OrphanRecord | go/pkg/jwks/cache.go:95-101 | a run that leaves a record with no entry behind it |
| VectorRun.CheckRequest | infra/node-oidc-provider/vectors.js:118-155 | no difference exactly if the method, every header and every form field are as wanted |
| VectorRun.HeaderMetMeans | infra/node-oidc-provider/vectors.js:123-142 | a wanted header is looked up in lower case and compared as it is, or without parameters for a content type; an empty one must be absent |
| VectorRun.MediaTypeReads | infra/node-oidc-provider/vectors.js:134-136 | a content type is read without its parameters and the white space around it |
| VectorRun.FormMetMeans | infra/node-oidc-provider/vectors.js:143-154 | a wanted form field is there exactly once, with its value; an empty one not at all |
| VectorRun.Check | infra/node-oidc-provider/vectors.js:160-181 | no difference exactly if nothing is pending, the counts are as expected and every request on the wanted path is as wanted, one at least |
| VectorServer.Judge | infra/node-oidc-provider/vectors.js:261-275 | passes exactly if the expectations are met without an error, or nothing was expected and nothing recorded |
| VectorServer.NoRunIsEmptyRun | infra/node-oidc-provider/vectors.js:266-274 | where nothing was recorded the check passes exactly if it would on an empty run and the vector counts calls |
| VectorServer.Expire | infra/node-oidc-provider/vectors.js:232-235 | keeps exactly the runs that have been idle for less than the limit |
| VectorServer.Reserve | infra/node-oidc-provider/vectors.js:284-302 | a run at its limit is blamed and the request refused; otherwise one pending slot is added at the end of its path, and earlier slots and other paths stay |
| VectorServer.Server.Reset | infra/node-oidc-provider/vectors.js:221-230 | a POST removes the run, anything else is refused and changes nothing |
| VectorServer.Server.Find | infra/node-oidc-provider/vectors.js:232-243 | idle runs go first; a new base path is turned away exactly if the table is full |
| VectorServer.Server.Requests | infra/node-oidc-provider/vectors.js:244-260 | each record in order with its method, its headers and the first value of each form field; counts and positions unchanged |
| VectorServer.Server.Verdict | infra/node-oidc-provider/vectors.js:261-278 | passes exactly if the vector's expectations are met, and records nothing |
| VectorServer.Server.Arrive | infra/node-oidc-provider/vectors.js:232-302 | the whole new table and run, within both limits, and the ticket or the refusal |
| VectorServer.Server.Complete | infra/node-oidc-provider/vectors.js:303-347 | the record is no longer pending, the reply is that of its slot, and the first error text stays |
| VectorServer.AdmitValid | infra/node-oidc-provider/vectors.js:290-302 | a run's count stays the total length of its lists, within the limit |
| VectorServer.SettleValid | infra/node-oidc-provider/vectors.js:306-313 | completing a request keeps that too |
| VectorServer.TicketStays | infra/node-oidc-provider/vectors.js:290-306 | an awaiting handler keeps its record while others complete, even after a reset |
| VectorServer.TicketStaysOnArrival | infra/node-oidc-provider/vectors.js:290-301 | and while others arrive |
| VectorOrder.DeterminedHolds | infra/node-oidc-provider/vectors.js:279-348 | records, tickets, replies and whether there is an error are functions of the arrivals and the set of completed requests |
| VectorOrder.OrderIsInvisible | infra/node-oidc-provider/vectors.js:22-23 | two orders of the same history leave the same records in the same order, the same replies, refusals to the same requests and the same verdict |
| VectorOrder.AnswerByArrival | infra/node-oidc-provider/vectors.js:301-347 | the n-th request to arrive on a path gets the n-th entry of its sequence, or the last, with its status and fixture or the error of reading it, whenever its body completes |
| VectorOrder.AnswerByPath | infra/node-oidc-provider/vectors.js:318-347 | a path without a sequence has the one answer of the http map, at every position and in every order |
| VectorOrder.AnswerOfFailure | infra/node-oidc-provider/vectors.js:303-325 | 404 if the path is in neither map or its sequence is empty, 413 or 400 with its text if the body cannot be read |
| VectorOrder.FirstFaultStays | infra/node-oidc-provider/vectors.js:303-340 | which text a completion blames the run with, and that the first one stays |
| VectorOrder.RecordByArrival | infra/node-oidc-provider/vectors.js:290-313 | an accepted request has its record in its slot, with method and headers at once and the form of its body when it is complete |
| VectorOrder.VerdictByArrival | infra/node-oidc-provider/vectors.js:157-181 | the check passes exactly if every request was accepted, is complete and was answered without a fault, and counts and contents are as wanted |
| VectorOrder.SlotsRise | infra/node-oidc-provider/vectors.js:290-301 | requests on one path have slots in the order of arrival, none shared |
| VectorOrder.PassMeansDone | infra/node-oidc-provider/vectors.js:160-181 | a passing check means every request was accepted, is complete and succeeded |
| VectorOrder.AnyTextMayWin | infra/node-oidc-provider/vectors.js:284-347 | every candidate error text is the one that stays in some order |
| VectorOrder.ErrorTextIsFixed | infra/node-oidc-provider/vectors.js:284-289 | the error text, repeated by every refusal, is the same in all orders exactly if there is at most one candidate |
| DpopTransport.Transport.RoundTrip | go/pkg/dpop/transport.go:70-98 | what is sent, what is remembered and what the caller gets, for every pair of attempts; the caller's headers are not written |
| DpopTransport.Transport.NonceChallenge | go/pkg/dpop/transport.go:138-162 | retries exactly on a challenge, and leaves the whole body readable, short or long |
| DpopTransport.Transport.BodyReplay | go/pkg/dpop/transport.go:192-208 | no body, the caller's replay, or the buffered body; the original body is always closed |
| DpopTransport.Transport.Do | go/pkg/dpop/transport.go:104-133 | sends the caller's headers with the transport's own two replaced, and the given body |
| DpopTransport.Transport.CacheNonce | go/pkg/dpop/transport.go:179-185 | the cached nonces stay the last non-empty ones heard, host by host |
| DpopTransport.Transport.GetNonce | go/pkg/dpop/transport.go:173-177 | the last non-empty nonce heard from the host |
| DpopTransport.RetryOnce | go/pkg/dpop/transport.go:70-133 | at most two sends, the second exactly after a challenge and with its nonce; both with the same body, the proof and token of the transport and the caller's other headers |
| DpopTransport.AnswersAreHeard | go/pkg/dpop/transport.go:70-98 | every answer that a send got is remembered, in order, and the caller gets the answer to the last send, or nothing if it got none or the retry was not sent |
| DpopTransport.FirstProofIsFresh | go/pkg/dpop/transport.go:70-98 | in any sequence of round trips the first proof of a request carries the last non-empty nonce that its host has given, retries included |
| DpopTransport.LastNonceIsLast | go/pkg/dpop/transport.go:173-185 | the remembered nonce is the one of the latest answer of that host that carried one |
| DpopTransport.PeekDecides | go/pkg/dpop/transport.go:153-160 | bytes past the first 64 KiB of a body never make or unmake a challenge |
| DpopProof.BuiltIsAcceptedIff | go/pkg/dpop/verify.go:102-199 | a built proof is accepted exactly if method, normalized URI, time window, token and nonce fit, and the returned fields are those built in |
| DpopProof.WindowMeans | go/pkg/dpop/verify.go:171-174 | the age window in plain arithmetic, with what 64-bit durations do at both ends |
| DpopProof.FreshIsInWindow | go/pkg/dpop/proof.go:82 | rounding the issue time down to seconds does not make a fresh proof too old |
| DpopProof.AcceptedWasBuilt | go/pkg/dpop/verify.go:133-144 | an accepted proof under a key is one of those built with it, for this token and nonce, even if the key signs tokens of other types too |
| DpopProof.AcceptedMeans | go/pkg/dpop/verify.go:102-199 | any token is accepted exactly if it has the type of a proof, an asymmetric algorithm, one signature by its embedded public key over this header and payload, and claims that fit |
| DpopProof.DifferenceIsNamed | go/pkg/dpop/verify.go:155-180 | an accepted proof held against another request fails by the name of the first thing that differs |
| DpopProof.FaultIsNamed | go/pkg/dpop/verify.go:108-157 | a refused token is refused by the name of the first check that it fails |
| DpopProof.TamperingShows | go/pkg/dpop/verify.go:139-144 | no other proof can carry the signature |
| DpopProof.UriIsBound | go/pkg/dpop/proof.go:117-129 | an accepted proof is accepted for another URI, with the same result, exactly if that has the same scheme, authority and path |
| CargoLock.LockVersion | tools/sync_cargo_lock_version.py:95-110 | the version on the located line |
| CargoLock.SyncLock | tools/sync_cargo_lock_version.py:113-134 | the text with the located line rewritten |
| CargoBlocks.PackageBlocks | tools/sync_cargo_lock_version.py:84-92 | the bounds of every block in order |
| CargoBlocks.LocateMeans | tools/sync_cargo_lock_version.py:98-110 | the located line is the first version line of the first block that names the crate; otherwise which of the two is missing |
| CargoBlocks.LocateExact | tools/sync_cargo_lock_version.py:84-110 | the same in terms of headers: a block goes from a header to the next or to the end, and the first block that names the crate decides |
| CargoLock.PutGet | tools/sync_cargo_lock_version.py:113-134 | writing works on exactly the texts that can be read, with the same error otherwise, and reads back as written exactly if the version has no quote and no line break |
| CargoLock.PutPut | tools/sync_cargo_lock_version.py:113-134 | a second write overrides the first |
| CargoLock.PutLines | tools/sync_cargo_lock_version.py:116-132 | every line but one is kept, except for an empty last line whose end is no line feed |
| CargoLock.PutPlain | tools/sync_cargo_lock_version.py:116-132 | on text with line feeds only, one line changes; none does exactly if it reads already as it would be written |
| CargoLock.GetIsFine | tools/sync_cargo_lock_version.py:52-53 | a version that was read can be written |
| CargoLock.ManifestFine | tools/sync_cargo_lock_version.py:63-81 | so can the version of a manifest |
| CargoBlocks.FindEntry | tools/sync_cargo_lock_version.py:98-110 | the scan of the blocks ends at that line |
| CargoBlocks.WriteLocates | tools/sync_cargo_lock_version.py:116-130 | writing another version there leaves it the line that is found |
| CargoText.OneKind | tools/sync_cargo_lock_version.py:52-54 | no line is at once a header, a name and a version |
| CargoText.FieldLineReads | tools/sync_cargo_lock_version.py:52-53 | a name or version line is read with any white space around it and its equals sign, as the value between the quotes |
| CargoText.FieldLineIs | tools/sync_cargo_lock_version.py:52-53 | and every line read as a name or a version has that form |
| CargoText.HeaderReads | tools/sync_cargo_lock_version.py:54-88 | which lines open a block, the package table and other tables |
| CargoLock.ToolIsSound | tools/sync_cargo_lock_version.py:52-54 | the tool's own lines read back the versions written to them, and give fine versions only |
| CargoLock.ToolLaws | tools/sync_cargo_lock_version.py:95-134 | the lens laws for the tool's own lines |
| CargoBlocks.FindDeclared | tools/sync_cargo_lock_version.py:63-81 | the flag scan finds the first version line whose last table header is [package] |
| CargoBlocks.DeclaredMeans | tools/sync_cargo_lock_version.py:63-81 | the version found is that of the first line that declares one with [package] as the last header before it |
| CargoLock.Run | tools/sync_cargo_lock_version.py:137-177 | exit code and lockfile of a run |
| CargoLock.CheckAfterSync | tools/sync_cargo_lock_version.py:154-177 | after a run that does not fail, a check passes and another run changes nothing |
| CargoLock.CheckMeans | tools/sync_cargo_lock_version.py:154-177 | a check changes nothing, passes exactly if both versions are read and equal, and exits 1 exactly if they differ |
| CargoLock.OrdinaryEntry | tools/sync_cargo_lock_version.py:95-134 | an ordinary entry is read and written end to end, and no other line changes |
| CargoText.SplitClosed | tools/sync_cargo_lock_version.py:116-132 | joined lines with a final line feed split into the same lines |
| CargoText.SplitOpen | tools/sync_cargo_lock_version.py:116-132 | without one, an empty last line is lost and nothing else |
| CargoText.SplitBreak | tools/sync_cargo_lock_version.py:84-110 | any line break ends a line, and a carriage return takes a line feed after it along |
| CargoText.JoinSplit | tools/sync_cargo_lock_version.py:116-132 | text with line feeds only is put together again from its lines |
| CargoText.VersionTextReads | tools/sync_cargo_lock_version.py:130 | a written version line reads as that version |
| ClaimsValidators.Validate | go/pkg/jwt/claims_validation.go:111-136 | the closures compute the left-to-right short-circuit semantics |
| ClaimsValidators.RunClaimsValidator | go/pkg/jwt/claims_validation.go:289-324 | success only on acceptance; a rejection passes through unchanged; a bug or a panic fails closed |
| ClaimsValidators.CleanIsTruth | go/pkg/jwt/claims_validation.go:101-137 | a tree of clean leaves accepts exactly if its boolean formula is true, and otherwise rejects cleanly |
| ClaimsValidators.OrderIsFree | go/pkg/jwt/claims_validation.go:101-137 | reordering or repeating members at any level of a clean tree leaves the verdict alone |
| ClaimsValidators.Monotone | go/pkg/jwt/claims_validation.go:101-137 | more accepting leaves never turn an acceptance into a rejection |
| ClaimsValidators.AllMeans | go/pkg/jwt/claims_validation.go:112-119 | the first outcome that is no acceptance, or acceptance |
| ClaimsValidators.AnyMeans | go/pkg/jwt/claims_validation.go:121-135 | the first outcome that is no clean rejection, or one rejection with all reasons in order |
| ClaimsValidators.AllReasonsAreGiven | go/pkg/jwt/claims_validation.go:121-135 | when all members reject, the rejection lists their reasons, each once and in order |
| ClaimsValidators.CombineMeans | go/pkg/jwt/claims_validation.go:101-136 | which constructions are refused, and when what is constructed accepts and rejects |
| ClaimsValidators.AnyOrderMatters | go/pkg/jwt/claims_validation.go:87-91 | the order of an any-of decides acceptance exactly if one member accepts and another is faulty |
| ClaimsValidators.AllOrderIsFree | go/pkg/jwt/claims_validation.go:80-83 | an all-of accepts in every order or in none |
| ClaimsValidators.AllFlattens | go/pkg/jwt/claims_validation.go:112-119 | a nested all-of flattens with the very same outcome |
| ClaimsValidators.AnyFlattens | go/pkg/jwt/claims_validation.go:121-135 | a nested any-of flattens up to the wording of a rejection |
| ScopeValidator.CheckScopes | go/pkg/jwt/claims_validation.go:206-221 | accepts, or rejects naming the missing scopes in order |
| ScopeValidator.ScopesFromValue | go/pkg/jwt/claims_validation.go:267-283 | the words of a text or the strings of an array, and nothing of any other shape |
| ScopeValidator.ScopesAccept | go/pkg/jwt/claims_validation.go:201-222 | accepts exactly if every required scope is granted, and never fails otherwise than by a clean rejection |
| ScopeValidator.MissingInOrder | go/pkg/jwt/claims_validation.go:210-219 | missing scopes are named in the order in which they are required |
| ScopeValidator.GrantedMeans | go/pkg/jwt/claims_validation.go:239-247 | which claim grants a scope, with the fall-through to scp |
| ScopeValidator.MalformedFailsClosed | go/pkg/jwt/claims_validation.go:235-239 | a malformed scope claim rejects whatever scp holds |
| ScopeValidator.ScopesSplit | go/pkg/jwt/claims_validation.go:201-222 | requiring two lists is the all-of of requiring each |
| ScopeValidator.FieldsJoin | go/pkg/jwt/claims_validation.go:270-273 | words joined by spaces are read back |
| ScopeValidator.FieldsSplit | go/pkg/jwt/claims_validation.go:270-273 | white space separates words wherever it stands |
| ScopeValidator.FieldsWord | go/pkg/jwt/claims_validation.go:270-273 | a text without white space is one word |
| FormEncoding.FormUrlEncode | rust/src/client_auth.rs:55-67 | the encoding of the whole input |
| FormEncoding.ByteIsSent | rust/src/client_auth.rs:58-64 | what each byte is sent as: itself, a plus sign, or a percent sign and two upper-case digits |
| FormEncoding.DecodeEncode | rust/src/client_auth.rs:55-67 | decoding undoes encoding on every byte string |
| FormEncoding.OutputIsSafe | rust/src/client_auth.rs:58-64 | the output uses unreserved characters, plus and %XX only, and is at most three times as long |
| FormEncoding.CredentialsParse | rust/src/client_auth.rs:44-51 | exactly one colon, and a server reads back exactly the two parts |
| FormEncoding.CredentialsDetermine | rust/src/client_auth.rs:44-51 | different pairs give different credentials |
| FormEncoding.ReadCappedBody | rust/src/client_auth.rs:71-86 | the whole body if it arrives and fits, else the error of the first chunk that fails or would not fit |
| GoMutationGate.NoSilentGreen | tools/mutation_security_native.py:881-972 | on a pass each changed file lies below exactly one run, which was built and whose report lists a mutant, and every mutant that the report lists for a changed line of the file is dead or waived for exactly what it does |
| GoMutationGate.GreenMeans | tools/mutation_security_native.py:803-972 | the gate is green exactly if every run, as its report reads, is sound and settles its mutants: nothing that is reported is lost |
| GoMutationGate.GateGo | tools/mutation_security_native.py:881-972 | exit 0 exactly if there is nothing to gate or every guard holds and every mutant in scope is acceptable; exit 2 exactly if a run or a report entry is unsound |
| GoMutationGate.GatePackage | tools/mutation_security_native.py:803-878 | mutants exactly if every guard on the run holds, else exit 2 |
| GoMutationGate.RunAll | tools/mutation_security_native.py:927-932 | all mutants of all runs, or a stop at an unsound one |
| GoMutationGate.Judge | tools/mutation_security_native.py:934-972 | malformed entries give 2, an unacceptable mutant in scope gives 1, else 0 |
| GoMutationGate.EvaluateGo | tools/mutation_security_native.py:408-451 | the survivors, split exactly by whether they are waived; a skipped mutant never is |
| GoMutationGate.HealthCheck | tools/mutation_security_native.py:853-855 | unhealthy exactly if at least five mutants were tested and none was killed |
| GoMutationGate.ReportMutants | tools/mutation_security_native.py:583-617 | every mutant under its module-relative name, unless some name is unusable |
| GoMutationGate.NamesAreRelative | tools/mutation_security_native.py:595-609 | a report is refused exactly if some file name is not a relative path without .. |
| GoMutationGate.ReportIsKept | tools/mutation_security_native.py:610-617 | it gives exactly the mutants that its files list, under their paths below the directory of the run |
| GoMutationGate.OneRunPerFile | tools/mutation_security_native.py:552-571 | the directories run are pairwise not nested, and each changed file lies below exactly one |
| GoMutationGate.ParentIs | tools/mutation_security_native.py:552-571 | the directory of a path is all of it but the last component |
| GoMutationGate.PartsShow | tools/mutation_security_native.py:595-597 | a normal path is read back from its one spelling |
| GoMutationGate.SameSpellingOnce | tools/mutation_security_native.py:650-672 | two listed spellings of one path are equal |
| GoMutationGate.HashFollowsLine | tools/mutation_security_native.py:364-384 | two mutants have one hash exactly if they have the same mutator at the same place of the same stripped line |
| GoMutationGate.HashExists | tools/mutation_security_native.py:373-384 | there is a hash exactly if the line exists and is not blank |
| GoMutationGate.IgnoredIs | tools/mutation_security_native.py:536-549 | which paths are skipped, component by component |
| PyMutationScope.UnchangedFunctions | tools/mutation_security.py:253-269 | the names that occur in some changed file and span a changed line in none |
| MutmutText.ReadRemovedLine | tools/mutation_security.py:303-320 | the flag scan finds the first removed line after a hunk header |
| MutmutText.RemovedInMeans | tools/mutation_security.py:303-320 | what is read off is the first line that a hunk removes, without the white space around it |
| MutmutText.BodyMeans | tools/mutation_security.py:345-352 | each line of a diff is kept or dropped for itself, dropped exactly if it is a comment, a file header or a hunk header |
| MutmutText.SignatureIsExact | tools/mutation_security.py:327-355 | two diffs have one signature exactly if the lines that count are the same, apart from white space before and after them |
| PyMutationScope.Evaluate | tools/mutation_security.py:566-588 | the survivors, split exactly by whether they are waived |
| PyMutationScope.ChangedLineIsKept | tools/mutation_security.py:411-475 | a surviving mutant that alters a changed line of its function is dropped by neither stage exactly if the first line it alters is a changed one or not found |
| PyMutationScope.LineStageDrops | tools/mutation_security.py:411-447 | the line stage drops exactly the survivors whose first altered line is found in their function, and on no changed line |
| PyMutationScope.Scope | tools/mutation_security.py:690-697 | both stages together: a mutant stays, with its status, unless its function is known and untouched in every changed file, or it survived on an unchanged line |
| PyMutationScope.Gate | tools/mutation_security.py:686-735 | exit 0 exactly if the allowlist parses and every mutant is killed, out of scope or waived |
| PyMutationScope.PassMeansPinned | tools/mutation_security.py:686-735 | on a pass every mutant whose first altered line is a changed line of its function was killed or waived for what it does |
| PyMutationScope.LaterLineSlips | tools/mutation_security.py:303-320 | a surviving mutant that removes two lines of which only the second was changed does not fail the gate |
| PyMutationScope.WaiverSurvivesRenumbering | tools/mutation_security.py:327-371 | a waiver keeps its effect when the mutants of its function are renumbered |
| PyMutationScope.WaiverFitsOne | tools/mutation_security.py:566-588 | the mutants that one waiver covers share their function prefix and the lines of their diffs that count |
| MutmutText.NameTracesBack | tools/mutation_security.py:272-300 | the name of a mutant is traced back to its function and file |
| MutmutText.NamelessTracesNowhere | tools/mutation_security.py:272-300 | a name without the mark or without a module is traced to no function and no module |
| MutmutText.ReplaceMeans | tools/mutation_security.py:291-300 | dots become slashes and nothing else changes |
| MutmutText.FirstOfMeans | tools/mutation_security.py:366-371 | the prefix of a name ends at the first mark in it |
| MutmutText.RenumberingIsInvisible | tools/mutation_security.py:327-371 | neither the number in a mutant's name nor the first line of what is shown counts for prefix and signature |

## Left out

- Entries of the caches are values in a map, not objects: an entry that a reader still holds past an eviction is not modelled, and a hit writes the entry through the map.
- Runs of the vector server are numbered values in a table, not objects: the number stands for the reference that an awaiting handler holds.
- The recency counter is unbounded; the wrap-around of a 64-bit counter is not modelled.
- TickCache.Cache.MarkRefresh: which of several oldest records goes is left open, because the iteration order of the map decides it.
- Concurrent use of a handle's `Keys` and its own lock are not modelled; a refresh may then join a flight registered before its invalidation, so `ForceRefresh` is stated for calls that do not overlap.
- JwksHandle.Fetch: runs a flight of its own to the end; joining another caller's flight is the subject of `SingleFlight`.
- Bodies of `Extra` values are immutable, as the source assumes.
- VectorRun.Check: states when there is no difference, not the wording or order of the differences.
- The routing of request paths, the loading and schema validation of vectors, the rewriting of fixture hosts and the default content type are not modelled; each endpoint is a method that gets the loaded vector.
- Lower case and white space of header values are those of ASCII in `VectorRun`.
- DpopTransport.Transport.RoundTrip: read errors while peeking at a response are not modelled, nor are cancelled contexts; the base transport takes a request's body whole.
- HTTP header fields have one value each in `DpopTransport`, and their names are in canonical form.
- Parsing and rendering of URIs, JSON, base64 and the JOSE library are parameters or ideal; the detection of private members in an embedded key is a flag of that key.
- DpopProof.BuiltIsAcceptedIff: instants are integers; what Go does with seconds near the limits of 64 bits before subtracting is not modelled.
- The scans of the lockfile and the manifest are over lines already classified, each by the three tests of the tool; their regular expressions are written out as a scan of a line; command-line parsing, printing and file errors other than an unreadable file are not modelled.
- Leaves of a validator tree are arbitrary functions of the claims; the validators for required claims and claim values, and logging, would only be further leaves.
- The base64 step of Basic credentials and the snippet of a body are not modelled.
- GoMutationGate.GateGo: directories are run in any order and the listing, the report and the file list of each run are given; the allowlist is given as parsed; a status that is not a text is only rejected, not printed.
- GoMutationGate.NoSilentGreen: takes the files of a directory listing to have normal paths, as listings do.
- The hash of a Go mutant is taken of mutator, line and offset as three values, so texts that collide when joined are told apart.
- The Rust half of the native gate repeats the pattern of the Go half without its path handling, and is not modelled.
- The pre-filter of the Python gate and its probe run are not modelled; neither are the option builders, error types, the discovery policy, introspection and the registered-claim checks, which are flat lists of rules.
