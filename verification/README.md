# Pingoo, verified

Pingoo is a reverse proxy and web server: its listeners inspect every HTTP request, apply
rules to it (block, captcha, rate limit) and hand it to a proxied or a static service.
This project models the parts of it whose correctness spans many requests, and proves what
holds over every run of them.

* **Rate limiter.** `SlidingWindow` is the law: a probe is answered by counting earlier log
  entries, with no bucket and no counter in sight. `RateLimiter` is the program: a class with
  a green and a blue bucket, the two clock readings of each call and the worker loop around
  it. It is proved to give the answers of the law. `EpochLaw` reads every answer off the
  instants of the probes; `RateLimiterRuns` and `RateEstimate` prove what holds on every run.
* **Request handler.** `HttpListener` has the handler's nested loops, proved against a
  flattened walk over the actions a request meets; `HandlerLaw` reads the response off the
  rules. `Gateway` is any number of concurrent
  handlers sharing one limiter worker per rule through its channel; `GatewayAnswers` proves
  that each of them answers what the loops answer.
* **Static site.** `StaticSite` cuts the handler at every `await` and interleaves it with
  other requests, file changes and evictions. Its results are about all runs over a given
  sequence of file changes. `StaticSiteService` is the same handler run in one go, over a
  cache it updates in place; `StaticSiteLaw` says which answer each request gets. `ETag`,
  `ETagLaw` and `Hex` are the entity tags and the headers that match them,
  `ConditionalRequests` is what a 304 is worth.
* **Captcha.** `Base64Url`, `Json` and `Jwt` are the token layer (compact serialization,
  section 7.1 of RFC 7515), `ProofOfWork` the search in the browser and the server's check,
  `Captcha` the three server operations, `CaptchaLaw` what they make of any signed claims and
  `CaptchaRuns` the protocol over whole runs.
  `CaptchaGate` joins it to the request handlers, `CaptchaVisit` follows one client from the
  challenge to the door, and `ClientId` is the identity tokens are bound to.
* **Service registry.** `ServiceRegistry` is a round of discovery, write by write;
  `DiscoveryLaw` says which upstreams a reader then finds.
* **TLS.** `TlsManager` builds the certificate index and resolves a server name over it.

Time is an integer number of nanoseconds. Clock readings, random values, file system
failures, discoverers and clients are parameters or arbitrary events. Signing is any function
whose signatures verify, SHA-256 any function (without a collision among the inputs at hand
where a result needs that), JSON any codec that reads back the records this program writes: strings, truth values and 64-bit
integers under its own member names. These are `requires` clauses, never axioms.

## What the code does not promise

* `docs/rules.md:151-156` allows "no more than 10 requests per ONE minute". The limiter
  allows twice that and no more: `AtMostTwiceLimit` bounds it, `TwiceLimitIsReached` attains
  it for every limit, and `DocumentedRateExactlyWhenClosed` says that the documented rate is
  kept on all runs only by a limiter that admits nothing.
* Lines 137-140 of `pingoo/rate_limiter.rs` (blue becomes previous) are never reached. A blue
  window that is over always ends two periods after green, so both buckets are reset
  (`Advance` proves it).
* The limiter approximates a sliding-window estimate, but its counters stop at 65535. On all
  runs, what it admits has an estimate below the limit plus one exactly when the limit times
  the seconds of the period is at most 65535, or there is no capacity
  (`KeepsEstimateExactlyWhen`). Otherwise a flood in one window is forgotten by the last second
  of the next.
* With a zero period the window never moves on, so an address gets its limit once and for
  all. An address that was silent for two periods is heard again on all runs exactly when the
  limit is positive and the period is too, or there is no capacity (`ForgivesExactlyWhen`).
* A 200 of the static site may announce one length and carry another. All runs over a
  sequence of file changes announce the right one exactly when no path ever has files of two
  sizes (`LengthExactlyWhen`); fresh modification times do not help (`LengthMayBeWrong`).
* A 200 of the static site may carry content that was current at no instant of its request.
  All runs over a sequence of file changes serve current content exactly when it is *tame*
  (`CurrentExactlyWhen`): between two versions of a file with the same modification time and
  the same size of at most 500 000 bytes, in whatever order versions come, every content the
  file has is that of the later one. Two versions that share size and time break this
  (`StaleWithoutFreshStamps`), and so does rolling a file back with its old modification time
  although no two different versions share anything (`StaleAfterRollback`). Modification
  times that a path never had before keep it (`BodyWasCurrent`).
* A 304 in answer to the tag of an earlier 200 may leave a client with content that is not
  the file's. On all runs over a sequence of file changes it never does exactly when versions
  of the same time and size are tame, whatever their size (`NotModifiedExactlyWhen`). So a
  rollback breaks it here too, and so do two large files of one size and time. Fresh
  modification times keep it (`NotModifiedIsSound`).
* A service that lost one upstream is unregistered for one round, since removals follow
  insertions (`PresentExactlyWhen`).
* With a key file whose keys accept only their own signatures, the server reads back the
  tokens it issues exactly when the last key with the first key's id is the first key
  (`KeyFileWorksExactlyWhen`); otherwise it refuses every one of them
  (`ShadowedKeyIsRefused`).
* `pingoo/captcha.rs:408` says that an identity belongs to a client of one site. It does for
  one user agent (`OneBrowserOneSite`). But user agent and host are hashed without anything
  between them, so clients of one address family share an identity exactly when they share
  the address and the two run together are equal (`SameFamilySameIdExactlyWhen`,
  `OneIdTwoSites`).
* The test at `pingoo/tls/tls_manager.rs:155` compares a whole file name with `default`, so
  `default.pem` is loaded like any other certificate (`DefaultIsNotExcluded`). It matches
  every name, so a certificate with wildcards only that is loaded after it is never served
  (`NothingServedAfterDefault`).

## Model

| member | source | states |
|---|---|---|
| SlidingWindow.Run | pingoo/rate_limiter.rs:51-54 | every sequence of probes has a run of the limiter, one entry per probe in order |
| SlidingWindow.RunUnique | pingoo/rate_limiter.rs:116-170 | two runs over the same probes are the same, so the answers are a function of the probes |
| RateLimiter.RateLimiter.constructor | pingoo/rate_limiter.rs:96-114 | a new limiter is empty, its limit is kept below the largest counter value, its first window starts at the first clock reading |
| RateLimiter.RateLimiter.CanResume | pingoo/rate_limiter.rs:116-170 | the answer is that of the counting law over all earlier probes, and the two buckets again mirror the log |
| RateLimiter.RateLimiter.Charge | pingoo/rate_limiter.rs:144-169 | charges the current bucket, weighs the previous one, answers what counting the log answers; a refusal changes no counter |
| RateLimiter.RateLimiter.Advance | pingoo/rate_limiter.rs:121-142 | moves the buckets to the window the law says is current, and never takes the blue-to-green rotation |
| RateLimiter.BucketView | pingoo/rate_limiter.rs:150-161 | a bucket holds exactly the addresses charged to its window, so its size is the number of distinct ones |
| RateLimiter.BucketNumbers | pingoo/rate_limiter.rs:144-166 | current and previous counters are the saturated counts of the current and previous window, and the key count is the number of addresses |
| RateLimiter.ChargedHolds | pingoo/rate_limiter.rs:188-190 | one saturating increment keeps every counter equal to its saturated count |
| RateLimiter.GetRateLimitHandle | pingoo/rate_limiter.rs:44-56 | the worker answers each received probe once, in order, with the answers of the one run over its inbox |
| EpochLaw.AnswerExactlyWhen | pingoo/rate_limiter.rs:116-199 | in every run time falls into epochs of two periods, each begun by the first probe after the one before; the j-th probe of an address in the first half is limited if and only if j exceeds the limit, in the second half if and only if j plus c(s - d)/s does, c being what was heard in the first half (65535 at most), s the seconds of the period and d the whole seconds into the half; it is refused if and only if it is its first in the half and as many addresses as fit are known |
| EpochLaw.AnswerWithoutPeriodOrLimit | pingoo/rate_limiter.rs:117-127 | with a limit of zero every probe is limited; with a period of zero the j-th is limited if and only if j exceeds the limit, for the whole run |
| RateLimiterRuns.WindowsApart | pingoo/rate_limiter.rs:121-148 | every probe falls into a window that covers its instant, and different windows start at least a period apart |
| RateLimiterRuns.AdmittedPerWindow | pingoo/rate_limiter.rs:150-169 | one window admits an address at most `limit` times, saturation included |
| RateLimiterRuns.AtMostTwiceLimit | pingoo/rate_limiter.rs:116-181 | in every run and every interval of one period an address is admitted at most twice the limit |
| RateLimiterRuns.TwiceLimitIsReached | pingoo/rate_limiter.rs:116-181 | for every limit, positive period and capacity there is a run that attains the bound |
| RateLimiterRuns.DocumentedRateExactlyWhenClosed | docs/rules.md:123-156 | the documented rate holds on all runs if and only if limit or capacity is zero |
| RateLimiterRuns.ClosedAdmitsNothing | pingoo/rate_limiter.rs:117-155 | a zero limit or capacity admits nobody, and without capacity every probe is refused |
| RateLimiterRuns.ZeroPeriodNeverMovesOn | pingoo/rate_limiter.rs:127 | with a zero period the first window stays current for ever |
| RateLimiterRuns.ZeroPeriodAdmitsLimitOnce | pingoo/rate_limiter.rs:127 | with a zero period an address is admitted at most `limit` times in the whole run |
| RateLimiterRuns.SilenceIsForgiven | pingoo/rate_limiter.rs:127-169 | an address silent for two periods is not answered "limited", whatever the others did |
| RateLimiterRuns.ForgivesExactlyWhen | pingoo/rate_limiter.rs:117-169 | on all runs two silent periods exclude "limited" if and only if the limit is positive and the period is positive or the capacity zero |
| RateLimiterRuns.WithinCapacity | pingoo/rate_limiter.rs:154-161 | no window ever holds more addresses than the fixed capacity |
| RateLimiterRuns.RefusedAlwaysOrNever | pingoo/rate_limiter.rs:150-161 | inside one window an address is refused always or never |
| RateLimiterRuns.VerdictTracksEstimate | pingoo/rate_limiter.rs:163-169 | a limited probe has a sliding-window estimate above the limit once elapsed time is cut to seconds; an admitted one has an estimate below the limit plus one when the previous window counts for at most 65535 |
| RateEstimate.KeepsEstimateExactlyWhen | pingoo/rate_limiter.rs:150-199 | on all runs, every probe admitted while its window lasts has a true estimate below the limit plus one, if and only if limit times seconds is at most 65535 or the capacity is zero |
| RateLimiterRuns.ApproxBounds | pingoo/rate_limiter.rs:193-199 | the approximation is within one below the exact share, above it by at most the part of a second that was cut off, and never above the previous count |
| RateLimiterRuns.ApproxMonotone | pingoo/rate_limiter.rs:193-199 | it does not grow with elapsed time nor shrink with the previous count |
| RateLimiterRuns.ApproxFitsU64 | pingoo/rate_limiter.rs:198 | its product fits the 64 bits it is computed in |
| HttpListener.HandleRequest | pingoo/listeners/http_listener.rs:197-281 | a user agent that is empty or of 256 bytes or more, a captcha path and an invalid cookie are answered at the gate, in this order; then the nested loops answer what the flattened walk over the actions answers; probes stop at the first that is not admitted, and that one accounts for a 429, 503 or 500; a served request sent all its probes |
| HttpListener.ApplyActions | pingoo/listeners/http_listener.rs:253-272 | one matching rule ends the request with the walk's answer or leaves exactly the rest of the walk to do |
| HttpListener.ServedExactlyWhen | pingoo/listeners/http_listener.rs:252-279 | a request reaches service k if and only if nothing blocks it, every captcha asked for is solved, every probe is admitted, and k is the first service that wants it |
| HttpListener.DispatchFirst | pingoo/listeners/http_listener.rs:275-281 | the service chosen is the first that matches |
| HandlerLaw.GateExactlyWhen | pingoo/listeners/http_listener.rs:197-240 | each answer of the gate, if and only if the request has what it is about and nothing that comes before |
| HandlerLaw.StoppedExactlyAs | pingoo/listeners/http_listener.rs:252-273 | the first action of a matching rule that does not let the request pass decides: a block is the blocked page, an unsolved captcha the captcha page, a limit 429, 503 or 500 by its own reply |
| HandlerLaw.PassedExactlyAs | pingoo/listeners/http_listener.rs:275-281 | a request that every action lets pass is served by the first service that wants it, or not found if none does |
| Gateway.InvHolds | pingoo/listeners/http_listener.rs:252-279 | in every reachable state each worker's log is a run, each queued ticket is genuine and distinct, and each handler has been admitted by every limiter behind it |
| Gateway.NoServiceWithoutAdmission | pingoo/listeners/http_listener.rs:262-270 | no request reaches a service past a limiter that did not admit it |
| Gateway.ServedPassedEverything | pingoo/listeners/http_listener.rs:197-281 | a served request had a user agent of 1 to 255 bytes, no captcha path and no invalid cookie; no matching rule blocks, every captcha asked of it was solved, and it went to the first service that wants it |
| Gateway.ProbesConserved | pingoo/rate_limiter.rs:18-61 | sent probes are the answered ones followed by the queued ones, at most 1024, each answered once, with the answers of the sequential run in receive order |
| GatewayAnswers.AnswersAsAlone | pingoo/listeners/http_listener.rs:197-281 | however handlers and workers interleave, a finished request was answered what the handler's loops answer on the replies its own probes got |
| Gateway.ServicesSeeAtMostTwiceLimit | pingoo/config/config.rs:261-283 | over all listeners and interleavings, at most twice the limit of one address's requests admitted within a period reach any service |
| CaptchaGate.ServedHasSolved | pingoo/listeners/http_listener.rs:226-261 | behind every served request that a captcha rule matches is a pass of that client's identity issued at most 24 hours before, earned by solving a challenge issued at most 10 minutes before that; both bounded from both sides, up to drift and one second |
| CaptchaGate.ServedIsSolver | pingoo/listeners/http_listener.rs:168-261 | and whoever solved it has, within one address family, the address of the served request's client, and user agent and host that run together to the same bytes |
| StaticSite.InvHolds | pingoo/services/http_static_site_service.rs:99-235 | in every run, whatever is written, cached data is never older than the stamp beside it, and every body was read after its request's metadata or after metadata that looked the same |
| StaticSite.CurrentExactlyWhen | pingoo/services/http_static_site_service.rs:99-256 | all runs over a sequence of file changes serve only bodies current at an instant between metadata read and answer, if and only if the versions the cache takes for one are tame |
| StaticSite.LengthExactlyWhen | pingoo/services/http_static_site_service.rs:134-256 | all runs over a sequence of file changes announce the length of the body they carry, if and only if no path ever has files of two sizes |
| StaticSite.HitIsCurrent | pingoo/services/http_static_site_service.rs:187-201 | over tame versions a cache hit hands out content that was current at some instant since the request read the metadata |
| StaticSite.BodyWasCurrent | pingoo/services/http_static_site_service.rs:99-256 | with modification times a path never had before, under every interleaving the body of a 200 is the file's content at an instant between metadata read and answer |
| StaticSite.SameVersionSameBody | pingoo/services/http_static_site_service.rs:134-157 | ... and when the file has one stamp from metadata read to answer, the length is right and the tag names this content |
| ConditionalRequests.NotModifiedExactlyWhen | pingoo/services/http_static_site_service.rs:141-182 | on all runs over a sequence of file changes, a 304 to the tag of an earlier 200 finds the body of that 200 current, if and only if versions of the same time and size are tame (no two files that were there having colliding digests) |
| ConditionalRequests.NotModifiedIsSound | pingoo/services/http_static_site_service.rs:141-182 | with modification times a path never had before, that body was current all the while since the 200's metadata read |
| StaticSite.LengthMayBeWrong | pingoo/services/http_static_site_service.rs:134-136 | with fresh modification times there is still a run in which the announced length is not the body's |
| StaticSite.StaleWithoutFreshStamps | pingoo/services/http_static_site_service.rs:187-201 | two versions that share size and time: a run serves a body current at no instant of the request |
| StaticSite.StaleAfterRollback | pingoo/services/http_static_site_service.rs:187-201 | the same happens when a file is rolled back with its time, though no two different versions share size and time |
| ETag.PreimageInjective | pingoo/services/http_static_site_service.rs:150-154 | path, 64-bit size and 128-bit time can be read back from the bytes that are hashed |
| ETag.LittleEndianInjective | pingoo/services/http_static_site_service.rs:152-153 | fixed-width little-endian numbers of that width are distinct |
| ETag.OpaqueOfQuoted | pingoo/services/http_static_site_service.rs:161-169 | a tag is recognised as it was sent, strong or weak |
| ETag.WeakTagSameVersion | pingoo/services/http_static_site_service.rs:150-169 | a tag that matches one given earlier is of the same path, size and time, if the digest tells the two apart |
| ETagLaw.MatchesExactlyWhen | pingoo/services/http_static_site_service.rs:155-169 | for every header: it matches the tag of a file if and only if, between blanks, weakness marks and quotes, it is the hexadecimal digest of path, size and time |
| ETagLaw.QuotedMatchesExactlyWhen | pingoo/services/http_static_site_service.rs:155-169 | a quoted text, strong or weak, matches if and only if it is that digest |
| ETagLaw.LittleEndianReads | pingoo/services/http_static_site_service.rs:152-153 | sizes and times are hashed with the lowest byte first |
| StaticSiteService.StaticSiteService.HandleHttpRequest | pingoo/services/http_static_site_service.rs:83-257 | the handler answers what a service without a cache answers, or 500 exactly when a file operation it needs fails (a read is not needed when the entry is up to date); the whole new cache is stated and stays in agreement with the files |
| StaticSiteService.TameCacheAgrees | pingoo/services/http_static_site_service.rs:187-222 | in every run over tame versions, an entry that looks like the current file has its content |
| StaticSiteService.ArrivalIsAnswered | pingoo/services/http_static_site_service.rs:83-257 | at any moment of any such run, a request that comes in and is left alone is answered in at most seven steps as by a service without a cache |
| StaticSiteService.UndisturbedAnswer | pingoo/services/http_static_site_service.rs:83-257 | from any point on its way, over a cache that agrees with the files, a request that nothing disturbs ends in at most six steps with that answer |
| StaticSiteLaw.UncachedIs | pingoo/services/http_static_site_service.rs:83-257 | the answer spelled out: 405, 404, 304 if the client names the hash of this version, else 200 with the content, from the path, its index or its html twin |
| StaticSiteLaw.AnsweredExactlyWhen | pingoo/services/http_static_site_service.rs:99-256 | under every interleaving, a request that got to a file is told 304 if and only if it named the hash of the version it saw, and is answered from its own path, its index or its html twin |
| StaticSiteLaw.FailureIsAnswered | pingoo/services/http_static_site_service.rs:124-127 | a failing metadata read, file read or open is an error, and no other step can fail |
| StaticSiteLaw.CacheSteps | pingoo/services/http_static_site_service.rs:185-222 | what each step does to the cache: an outdated entry goes before the file is read, and only files of at most 500 000 bytes with a time are entered |
| Hex.DecodeEncode | pingoo/captcha.rs:312-313 | reading what was written gives the bytes back |
| Hex.EncodeDecode | pingoo/captcha.rs:52-53 | writing what was read gives the same digits in lower case |
| Hex.EncodeDigits | pingoo/captcha.rs:312-313 | byte i is written as digits 2i and 2i + 1, the higher one first |
| Hex.DecodesExactlyWhen | pingoo/captcha.rs:52-53 | what is read is an even number of hexadecimal digits, in either case |
| Base64Url.DecodesExactlyWhatItEncodes | jwt/jwt.rs:173-230 | a string decodes to given bytes if and only if it is their encoding (section 5 of RFC 4648, no padding) |
| Base64Url.EncodingHasNoDot | jwt/jwt.rs:184-193 | an encoding never contains the separator |
| Base64Url.GroupDigits | jwt/jwt.rs:173-176 | three bytes are the four base-64 digits of their number, in the alphabet of section 5 of RFC 4648 |
| Base64Url.TailDigits | jwt/jwt.rs:173-176 | one or two last bytes are written as if zero bits followed, without padding |
| Jwt.Sign | jwt/jwt.rs:172-196 | the token is message, dot, signature of exactly that message, or the signer's failure |
| Jwt.JoinSplit | jwt/jwt.rs:219-226 | the pieces between the dots have no dot and make up the token |
| Jwt.SplitLengths | jwt/jwt.rs:233 | the signed prefix cut by lengths is header, dot, claims |
| Jwt.MessageInjective | jwt/jwt.rs:173-186 | two signed messages are equal only for equal header and claims |
| Jwt.SignedTokenVerifiesExactlyWhen | jwt/jwt.rs:172-327 | a signed token verifies if and only if the header names the key's algorithm, the claims pass the options and the wanted record can be read, and then gives back header and claims |
| Jwt.KnownMessage | jwt/jwt.rs:213-327 | the same for any token carrying a known message under a valid signature, however it is encoded |
| Jwt.ParseHeaderAgrees | jwt/jwt.rs:198-246 | whenever verification succeeds, `parse_header` returns the same header |
| Jwt.VerifiedMessage | jwt/jwt.rs:228-234 | nothing is accepted unless the key accepts the signature over the token's own first two parts |
| Jwt.ClaimsAcceptedExactlyWhen | jwt/jwt.rs:248-324 | for any options: claims are accepted if and only if they pass each check that is asked for, issuer, audience and the two times to the nanosecond |
| Jwt.TimeWindow | jwt/jwt.rs:258-286 | that window is `nbf - drift <= now < exp + 1s + drift`, to the nanosecond |
| Jwt.AcceptedExactlyWhen | jwt/jwt.rs:213-327 | a string is accepted as header and claims if and only if it is three encoded parts, the third a signature of at most 132 bytes of the other two, that read as them |
| Jwt.RefusedExactlyWhen | jwt/jwt.rs:219-234 | the error is a bad signature if and only if there are three parts and the last does not sign the others; else it is a bad token |
| Jwt.HeaderParsedExactlyWhen | jwt/jwt.rs:198-211 | a header is parsed if and only if it is encoded in the first of exactly three parts |
| Jwt.HeaderReadExactlyWhen | jwt/jwt.rs:36-85 | a record reads as a header if and only if it says so member by member, type and algorithm by name |
| ProofOfWork.Search | captcha/src/index.tsx:135-146 | after any number of rounds the search is still going on if and only if no nonce up to there solves the challenge; otherwise it returned the smallest that does, and the server accepts it with its hash |
| ProofOfWork.Uint8ArrayToHex | captcha/src/utils.ts:24-32 | the loop writes the hexadecimal form, which decodes to the bytes |
| ProofOfWork.ZerosLead | captcha/src/index.tsx:143 | comparing a prefix with zeros is counting leading zeros |
| ProofOfWork.DifficultyBoundsTheHash | pingoo/captcha.rs:311-321 | difficulty d is met if and only if the hash, read as a big-endian number, is below 16 to the power of its digits minus d |
| ProofOfWork.AcceptsExactlyWhen | pingoo/captcha.rs:311-333 | work is accepted if and only if the hash is that of challenge and nonce, and is that small |
| ProofOfWork.SolvesExactlyWhen | captcha/src/index.tsx:140-143 | a nonce ends the search if and only if its hash is that small |
| ProofOfWork.DecimalReads | captcha/src/index.tsx:145 | nonces are written in decimal, without a leading zero |
| Captcha.GenerateCaptchaCookie | pingoo/captcha.rs:423-469 | the cookie carries the token signed for the challenge claims and expires a minute before it; it fails exactly when signing fails |
| Captcha.GenerateCaptchaVerifiedCookies | pingoo/captcha.rs:471-523 | the first cookie carries the pass and expires a minute before it, the second removes the challenge cookie; it fails exactly when signing fails |
| Captcha.ApiVerify | pingoo/captcha.rs:241-346 | the two cookies of a pass are given if and only if cookie and body are there, the challenge token is this client's and alive, and the work is done |
| Captcha.CountLeadingZeroes | pingoo/captcha.rs:314 | the loop counts the leading zeros |
| Captcha.ChallengeRoundTrip | pingoo/captcha.rs:59-67 | challenge claims are read back from their JSON |
| Captcha.PassRoundTrip | pingoo/captcha.rs:69-75 | pass claims are read back from their JSON |
| Captcha.KindsAreDistinct | pingoo/captcha.rs:59-75 | neither kind of claims can be read as the other |
| CaptchaRuns.AcceptedWasIssued | pingoo/captcha.rs:125-145 | with unforgeable signatures, whatever is read from a cookie was written by the server |
| CaptchaRuns.PassNeedsWork | pingoo/captcha.rs:241-346 | in every run a pass follows a live challenge of the same client, and its hash is that of this challenge and the nonce and begins with a zero digit |
| CaptchaRuns.AccessNeedsPass | pingoo/captcha.rs:125-156 | access is given only on a live pass of the same client |
| CaptchaRuns.AccessTracesBackToWork | pingoo/captcha.rs:125-346 | access implies a pass issued at most 24 hours before, earned on a challenge issued at most 10 minutes before it was verified; neither lies in the future, all up to drift and one second |
| CaptchaVisit.Visit | pingoo/captcha.rs:125-346 | a client that takes a challenge, sends what the search found and comes back with its pass is let in if and only if the search ended, and challenge and pass were alive when shown |
| ClientId.SameIdSameDigest | pingoo/captcha.rs:417-420 | encoding and padding lose nothing: two identities agree if and only if the digests do |
| ClientId.IdIs | pingoo/captcha.rs:419-420 | for a 32-byte digest the identity is its 43 characters and a zero |
| ClientId.SameIdExactlyWhen | pingoo/captcha.rs:408-421 | two clients whose digests do not collide share an identity if and only if address, user agent and host run together to the same bytes |
| ClientId.SameFamilySameIdExactlyWhen | pingoo/captcha.rs:408-421 | within one address family: if and only if the addresses agree and user agent and host run together agree |
| ClientId.OneBrowserOneSite | pingoo/captcha.rs:408-421 | one user agent at one address shares its identity between two sites if and only if they are one host |
| ClientId.OneIdTwoSites | pingoo/captcha.rs:415-416 | a user agent that takes over the beginning of the host keeps its identity at another host |
| CaptchaRuns.AccessIsRecent | pingoo/captcha.rs:125-346 | from end to end, access implies a solved challenge of the same client at most 24 hours and 10 minutes old, plus twice the drift and second and the time `verify` took |
| CaptchaRuns.IssuedTokenIsRead | pingoo/captcha.rs:423-523 | a token the server issued is read back exactly while it is alive |
| CaptchaRuns.ValidatesExactlyWhen | pingoo/captcha.rs:125-156 | an issued token gives access if and only if it is a pass, of this client, alive |
| CaptchaRuns.VerifiesExactlyWhen | pingoo/captcha.rs:274-333 | an issued token is accepted at `verify` if and only if it is a challenge, of this client, alive, and the hash is that of challenge and nonce and begins with a zero digit |
| CaptchaRuns.AliveBounds | pingoo/captcha.rs:430-442 | being alive in rounded seconds bounds the real age of a token |
| CaptchaRuns.IssuedClaims | pingoo/captcha.rs:430-486 | every claim of an issued token: "pingoo" twice, the client, its times in seconds with 600 or 86400 to live, the challenge with difficulty 1 or the passed flag |
| CaptchaLaw.IssuedHeader | pingoo/captcha.rs:445-456 | the header of an issued token is its type, EdDSA and the key's id, and nothing else |
| CaptchaLaw.PassExactlyWhen | pingoo/captcha.rs:125-156 | for any claims signed by a known key: the cookie is validated if and only if issuer, audience and times are acceptable, the flag is set and the subject is this client |
| CaptchaLaw.WorkExactlyWhen | pingoo/captcha.rs:241-333 | for any claims signed by a known key: work is verified if and only if they are acceptable and this client's, and the hash meets their own challenge and difficulty |
| CaptchaLaw.ClaimsReadExactlyWhen | pingoo/captcha.rs:59-75 | a record reads as either kind of claims if and only if it says so member by member |
| CaptchaRuns.ReadBackExactlyWhen | pingoo/captcha.rs:91-145 | a live issued token is read back if and only if the last key of the file with the first key's id is the first key |
| CaptchaRuns.KeyFileWorksExactlyWhen | pingoo/captcha.rs:91-145 | every live token a signing key file may issue is read back if and only if that holds |
| CaptchaRuns.ShadowedKeyIsRefused | pingoo/captcha.rs:106-145 | a token whose signing key lost its id to a later key is refused by every reader |
| ServiceRegistry.ServiceRegistry.constructor | pingoo/service_discovery/service_registry.rs:55-73 | the registry starts with the static upstreams |
| ServiceRegistry.ServiceRegistry.Discover | pingoo/service_discovery/service_registry.rs:105-144 | a round inserts what gained, then removes what lost; after every single write a reader finds the old list, the new list or nothing |
| ServiceRegistry.ServiceRegistry.Insert | pingoo/service_discovery/service_registry.rs:131-136 | exactly the updated services get their new lists |
| ServiceRegistry.ServiceRegistry.Remove | pingoo/service_discovery/service_registry.rs:138-141 | exactly the deleted services go |
| ServiceRegistry.MergeAll | pingoo/service_discovery/service_registry.rs:105-128 | static upstreams followed by every successful discoverer's, a failed one adding nothing |
| DiscoveryLaw.MergedExactlyWhen | pingoo/service_discovery/service_registry.rs:107-128 | an upstream is merged for a service if and only if it is static for it or a successful discoverer found it; likewise the services |
| DiscoveryLaw.MergedInOrder | pingoo/service_discovery/service_registry.rs:121-127 | the merged list is the static list followed by each discoverer's in order |
| DiscoveryLaw.ReadAfterTwoRounds | pingoo/service_discovery/service_registry.rs:75-144 | after two rounds that found the same, a reader finds exactly what is static or was found |
| DiscoveryLaw.ReadAfterOneRound | pingoo/service_discovery/service_registry.rs:75-144 | after one round a reader finds the same, or nothing if the service lost an upstream |
| DiscoveryLaw.StaticExactlyWhen | pingoo/service_discovery/service_registry.rs:191-225 | the last service of a name is registered with exactly its IP addresses, HTTP before TCP |
| DiscoveryLaw.OnlyConfigured | pingoo/service_discovery/service_registry.rs:191-225 | the services registered at the start are the configured ones |
| DiscoveryLaw.AddressesInOrder | pingoo/service_discovery/service_registry.rs:200-206 | addresses keep the order of the configuration |
| ServiceRegistry.DiffUpstreams | pingoo/service_discovery/service_registry.rs:148-189 | `updated` is the services that gained an upstream, `deleted` those that lost one |
| ServiceRegistry.RoundIsSound | pingoo/service_discovery/service_registry.rs:130-141 | after one round every registered service has exactly the discovered set of upstreams |
| ServiceRegistry.PresentExactlyWhen | pingoo/service_discovery/service_registry.rs:130-141 | a service is registered after a round if and only if it was discovered and lost no upstream |
| ServiceRegistry.FollowsExactlyWhenNothingIsLost | pingoo/service_discovery/service_registry.rs:130-141 | one round reaches the discovered state if and only if no surviving service lost an upstream |
| ServiceRegistry.TwoRoundsConverge | pingoo/service_discovery/service_registry.rs:105-144 | two rounds with equal discoveries reach it from any registry |
| ServiceRegistry.SettledIsUnchanged | pingoo/service_discovery/service_registry.rs:148-189 | further rounds with permuted lists leave the registry literally unchanged |
| ServiceRegistry.StaticUpstreamsStay | pingoo/service_discovery/service_registry.rs:105-144 | in every run, whichever discoverers fail, a registered service has all its static upstreams |
| ServiceRegistry.ReadersSeeStatic | pingoo/service_discovery/service_registry.rs:75-81 | and so does whatever a reader finds in the middle of a round |
| TlsManager.LoadCertificates | pingoo/tls/tls_manager.rs:160-177 | the loops build the index of the certificates loaded, and fail with the first that cannot be read |
| TlsManager.ResolveScans | pingoo/tls/tls_manager.rs:110-131 | lookup over the index is a scan of the certificates: the last that lists the name, else the first with a matching wildcard, else the default |
| TlsManager.NoNameScans | pingoo/tls/tls_manager.rs:110-131 | a hello without a server name is answered as one for the empty name |
| TlsManager.ListedNamesAreServed | pingoo/tls/tls_manager.rs:110-131 | a name any loaded certificate lists is served by a certificate that lists it |
| TlsManager.WildcardServedExactlyWhen | pingoo/tls/tls_manager.rs:117-127 | for an unlisted name a certificate is served if and only if it is the first that matches, or the default when none does |
| TlsManager.NothingServedAfterDefault | pingoo/tls/tls_manager.rs:134-235 | with the default certificate among the loaded ones, a certificate that has wildcards only and comes after it is served for no name |
| TlsManager.DefaultIsNotExcluded | pingoo/tls/tls_manager.rs:153-157 | the file name test is the extension test alone |
| TlsManager.CertificateFileExactlyWhen | pingoo/tls/tls_manager.rs:153-157 | the files loaded are those whose name ends in ".pem" with something before it |

## Left out

- ProofOfWork.Search: stops after a given number of rounds where the browser goes on; a challenge no nonce solves is one it never answers for any number of rounds. Nonces are unbounded where the browser's numbers are exact up to 2 to the 53.
- StaticSiteService.StaticSiteService.HandleHttpRequest: no file changes during the call; that happens in the step system `StaticSite`, whose processes are values, so building the response in place is not captured there.
- CaptchaRuns.AccessIsRecent: the time a `verify` request takes is a parameter, because the server reads the request body between the token check and the pass.
- Gateway.ServicesSeeAtMostTwiceLimit: the period is measured by the worker's clock when it takes the probe, not when the service is called.
- Static site paths: the traversal guard, joining the URL to the root and completing a path are arbitrary functions; methods other than GET and HEAD are one case.
- Static site responses: content type and cache control headers; a streamed body is read at one instant, when the file is opened.
- Hash map, DashMap and moka internals: capacity is a function that never gives less than asked and keeps what it gave, DashMap is atomic per key, evictions are arbitrary.
- Instants are unbounded integers, so adding periods to a clock near its end is not modelled.
- Signatures, SHA-256, key generation, JWK conversion and the JSON text grammar: arbitrary functions under the assumptions each lemma names.
- JWT headers: the certificate chain field, and records written as JSON arrays.
- Rule and route expressions, and wildcard matching: arbitrary predicates.
- Captcha: the SameSite attribute, the JSON bodies of the answers and reading or writing the key file.
- DNS and Docker discovery: an arbitrary result or failure; the ticker is an arbitrary sequence of rounds.
- Sockets, TLS handshakes, ACME, GeoIP, proxying and graceful shutdown.
- Configuration parsing, error pages, country codes and the captcha's user interface: simple members only.
