# Verification of the session system

A Dafny model of the Go server's session system and of the smaller algorithms it rests on, with
proofs of what they promise. `dafny verify dfyconfig.toml` checks all of it. The proofs are about
the model; no code of the server was executed.

## What is modelled

**The session protocol.** Requests share one store. Each loads a session, changes its own copy, and
commits it in one or two store calls, while other requests do the same and time passes.
`SessionModel.dfy` holds the values and pure steps, `Session.dfy` the `Session` class with `Load`,
`Commit` and the middleware's finalise closure over a store whose calls may fail, all proved against those
steps. `Protocol.dfy` makes
a transition system of them: any number of requests interleave between store calls, the clock moves
between any two steps and within a commit call, a client may send any cookie, a store call may work,
fail unchanged, or fail after its change was made, and a handler may panic. `ProtocolSafety.dfy`
proves an invariant of every step and what follows for every run; `ProtocolData.dfy` proves what
stored data can be, and what becomes of CSRF tokens over runs. `SessionEffects.dfy` says what each
operation on a session comes to for the client once its request has committed.

**The store.** `TtlTable.dfy` states the store contract on values. `MemStore.dfy` holds the in-memory
store as a class over a map of byte buffers, with lookups that free expired entries, and proves that
it refines a map in which expired entries are simply absent.

**The handlers.** `Handlers.dfy` holds `authEdupass`, `authEdupassCallback` and `logout` as methods on
the `Session` class, and carries what they may put in a session through every run of the protocol.
`StateHolders.dfy` follows who can hold the state value of a pending login, `RepeatedCallback.dfy` says
exactly when a callback can be repeated, and `PendingLogin.dfy` in which runs a state value passes at most
once. Below them,
`Edupass.dfy` and `EdupassGroups.dfy` model the groups claim, `ReturnTo.dfy` the redirect-path check
and the reference resolution of RFC 3986, `ReturnToExact.dfy` which paths pass, and `Csrf.dfy` token masking and
its base64.

**The response writers.** `Writers.dfy` holds the session writer stacked on the request-log writer
stacked on a writer that behaves as net/http's does, as one state machine per writer;
`WriterClasses.dfy` holds the objects, proved against the machines, and a request served through them.
`PassThrough.dfy` says what the writers leave alone, and `ResponseCookie.dfy` follows the session cookie from the
commit's response to what is sent.

**Random strings.** `Random.dfy` holds the rejection-sampling loop over a byte stream, proved against a
pure function of the accepted draws, and the counting proof that it is exactly uniform. `RandomStreams.dfy`
takes both down to the bytes of the stream.

**dotenv.** `Dotenv.dfy` holds the line regular expression as a direct scanner, proved to find what the
expression prefers, and `parse`; `DotenvRoundTrip.dfy` proves what parsing gives back of printed pairs, and
`DotenvLines.dfy` what it makes of a text line by line.

## What the proofs show to be otherwise than documented

- A repeated callback is said to fail because there is no pending login (auth.go, lines 173-174). Take a
  callback that passed the state check, and its last step: a store call of its commit, or a panic. In between,
  other requests and the callback itself may do anything. After that step the state can pass again in some
  continuation of the run if and only if, just before it, another request in flight has the state in its
  session, or the step leaves it in the store: the stored session still has it and does not expire first, and
  the step neither removes nor overwrites it. That is so of a panic, of a refusal whose save fails unchanged or
  cannot be encoded, of a sign-in whose save under the new ID is reported as failed, and of one whose removal
  of the superseded entry fails unchanged (`RepeatedCallback.RepeatedCallbackExactly`). In the last case the client is told of a success
  (`RepeatedCallback.SignedInYetRepeatable`). Whichever login is pending, two overlapping callbacks both pass
  (`RepeatedCallback.OverlapPassesTwice`).
- `Update` of the in-memory store is not always atomic: exactly when the entry expires between its
  lookup and its write, it acts at no single instant (`MemStore.OneInstant`,
  `MemStore.UpdateCanOutliveItsEntry`).
- `VerifyCSRFToken` is documented to report whether `CSRFToken` returned the token. It also accepts text
  `CSRFToken` never returns, such as a token with a newline in it (`Csrf.NewlineStillVerifies`);
  `Csrf.VerifiedIsMaskedIffCanonical` says exactly when it does.
- The logged status is the committed one except when finalise works and the first final status given to
  `WriteHeader` has more than three digits: that status is logged, and net/http panics on it
  (`Writers.LoggedStatusOfReturn`, `Writers.OverlongIsLogged`).
- Repeats dropped by location and code are repeats of the raw entry exactly when the app code is not
  empty (`Edupass.SameGrantSameEntry`); the configuration allows no empty one.
- A printed dotenv pair comes back exactly when its key is legal and its value has no double quote and no CRLF
  (`DotenvRoundTrip.ComesBackExactly`).

## Model

| member | source | states |
|---|---|---|
| ProtocolSafety.InvStep | server/internal/session/session.go:77-165 | every step of every request keeps the invariant: each stored entry is a decodable session stored under its own ID with the token and user that ID was issued with, each session in flight agrees with them unless destroyed, and an ID about to be created was never created before and belongs to one request |
| ProtocolSafety.RunKeeps | server/internal/session/session.go:77-165 | every run keeps the invariant, never changes what an ID was issued with, and never brings back an entry for an ID that was once created and has none |
| ProtocolSafety.IdsNeverReturn | server/internal/session/session.go:123-165 | an ID that was in the store and has left it, destroyed, superseded or expired, is never in the store again |
| ProtocolSafety.SignOutIsFinal | server/internal/session/session.go:124-126 | once a destroyed session was removed, even by a call that reported failure, no continuation of the run loads its ID again |
| ProtocolSafety.SignOutBeatsRequestsInFlight | server/internal/middleware/session.go:110-117 | a request still in flight at sign-out cannot restore the session: its commit call, however it ends, leaves the store as it was and sends no cookie |
| ProtocolSafety.SupersedingIsFinal | server/internal/session/session.go:147-154 | the entry under a superseded ID never loads again once its removal was made, even when the call reported failure |
| ProtocolSafety.ErrorBranchesUnreachable | server/internal/session/session.go:138-145 | with fresh IDs no reachable state takes Commit's "ID already taken" branch, and no reachable store holds an entry Load finds undecodable |
| ProtocolSafety.IdsBoundForLife | server/internal/session/session.go:240-256 | whatever loads under an ID at any two moments of a run has the same user, or none, and the same CSRF token, and so has every session in flight under it that is not destroyed |
| ProtocolSafety.TokensDiffer | server/internal/session/session.go:77-104 | sessions loaded under different IDs at any two moments of a run have different CSRF tokens |
| ProtocolSafety.CookieSettled | server/internal/middleware/session.go:110-148 | a response's cookie is settled once, at its request's own commit step; it carries an ID only when that step wrote the session under it for at least Max-Age seconds, and expires the client's cookie exactly when the step removed a destroyed session |
| ProtocolSafety.CookieStays | server/internal/middleware/session.go:110-148 | no later step of a run changes a settled cookie |
| ProtocolSafety.CookieWasWritten | server/internal/middleware/session.go:102-152 | in every run, a response that carries an ID has a commit step of its own request, with a store call that worked, that wrote the session under that ID with a TTL of at least Max-Age |
| ProtocolSafety.CookieLoadsUntilRemoved | server/internal/middleware/session.go:132-146 | until its Max-Age is over, under every interleaving with other requests, those on the same session included, the cookie loads the committed user and token, unless a step signed the session out or removed it as superseded; then it loads nothing |
| ProtocolSafety.CookieLoadsCommitted | server/internal/session/session.go:77-104 | with no other commit under the ID meanwhile, it loads the committed data too |
| ProtocolSafety.ResponseCookieLoads | server/internal/middleware/session.go:102-152 | end to end from an empty store: a response's cookie was written at its own commit step, and from then to the end of its Max-Age loads the user and token committed there, unless a later step signed the session out or superseded its ID, and then nothing |
| ProtocolSafety.StaleRequestWritesNothing | server/internal/middleware/session.go:111-117 | a request that kept its ID saves its session exactly when the entry is still there; otherwise it writes nothing, sends no cookie and leaves the response alone |
| ProtocolData.RunKeepsOk | server/internal/session/session.go:215-256 | in every run whose handlers keep to given rules on data values and users, everything stored and in flight keeps to them |
| ProtocolData.TokensVerifyForTheirIdOnly | server/internal/session/session.go:176-186 | a CSRF token issued for an ID, whether or not its session was stored yet, verifies on every later load of that ID and on no load of another |
| ProtocolData.TokensDieWithSetUser | server/internal/session/session.go:240-242 | no CSRF token issued before verifies on a session that SetUser has changed |
| Sessions.CommitLeavesSession | server/internal/session/session.go:147-148 | whatever its store calls do, a commit changes nothing of the session but its stored ID, which becomes its ID exactly when it was saved |
| Sessions.CommitAgain | server/internal/session/session.go:116-119 | so a later commit of a saved session sees its ID as unchanged, and saves it only while its entry is there |
| SessionEffects.LoadsExactly | server/internal/session/session.go:77-104 | stored bytes load as the session they encode, under its own ID and with a CSRF token, and as undecodable otherwise |
| SessionEffects.UnknownCookieGetsNewSession | server/internal/middleware/session.go:81-96 | a cookie whose ID does not load gets a session with a fresh ID and token, no user and no data |
| SessionEffects.SignOutSignsOut | server/internal/session/session.go:252-256 | in every run: a handler calls Destroy, anything at all follows, and its request's commit call works; the cookie is expired, and the ID loads nothing in any continuation |
| SessionEffects.SignInSignsIn | server/internal/session/session.go:240-248 | in every run: a handler calls SetUser, other requests do anything, and the commit call works; the new cookie carries the new ID and loads exactly that user, the new token and no data |
| SessionEffects.ValuesAreSaved | server/internal/session/session.go:123-166 | in every run a value set is what loads under its key after the commit, a removed one is gone, and every other key, the user and the token are as they were |
| SessionEffects.CommitSaves | server/internal/middleware/session.go:107-149 | a commit call that works writes the session under its ID for AuthenticatedTTL with a user and DefaultTTL without, and sends its ID for that many seconds |
| SessionEffects.ResponseFailsExactly | server/internal/middleware/session.go:114-131 | the response becomes a 500 if and only if the first store call reported a failure or a value could not be encoded |
| Sessions.Session.GetAndDeleteText | server/internal/session/session.go:215-219 | GetAndDelete at type string: the key goes even when its value is of another type, and the text is given back only when it is a string |
| Sessions.Session.SetUser | server/internal/session/session.go:240-248 | a new ID and CSRF token, the user attached, and all data discarded; the stored ID stays |
| Sessions.Session.Destroy | server/internal/session/session.go:252-256 | user and data gone, the ID kept, marked for removal |
| Sessions.Load | server/internal/session/session.go:77-104 | the stored session, a new one when there is no live entry, or an error for a store call that fails or an entry that is not a session stored under the ID |
| Sessions.Commit | server/internal/session/session.go:123-166 | session, store contents and error after a commit, whichever of its store calls fail, before or after they took effect |
| Sessions.Finalise | server/internal/middleware/session.go:102-152 | the TTL the session's user calls for, and the response each commit error leads to, a failed removal of the superseded entry included: left alone, replaced with a 500, or sent with the cookie |
| Sessions.CommitIsProtocolSteps | server/internal/session/session.go:123-166 | for every outcome of its store calls, Commit is the protocol's commit step followed, when it leaves a superseded entry, by the removal step: same session, same error, and from then on the same visible table |
| MemStore.LazyRefinesPlain | server/internal/session/memstore/memstore.go:56-166 | any sequence of calls under a clock that never goes back gets the same replies from the lazily expiring store as from a map in which expired entries are absent, though Create and Update read the clock twice |
| MemStore.StepsAgree | server/internal/session/memstore/memstore.go:56-166 | one call: same reply, and tables no later call can tell apart |
| MemStore.OneInstant | server/internal/session/memstore/memstore.go:106-134 | a call acts as if at one instant within it if and only if it is not an Update whose entry expires between its two readings of the clock |
| MemStore.RefusedExactly | server/internal/session/memstore/memstore.go:56-149 | a call is refused, and changes nothing, exactly when its context is done, or it writes under an empty ID, or no data, or for no time |
| MemStore.WritesExactly | server/internal/session/memstore/memstore.go:93-134 | unless refused, Create writes exactly when its ID has no live entry and Update exactly when it has one |
| MemStore.WrittenIsReadBack | server/internal/session/memstore/memstore.go:97-134 | what was written is read back until its TTL is over and then gone, and other IDs keep their entries |
| MemStore.DeletedIsGone | server/internal/session/memstore/memstore.go:136-150 | a deleted entry is gone, and no other |
| MemStore.Lookup | server/internal/session/memstore/memstore.go:154-166 | lookup finds exactly the live entries, and freeing an expired one changes nothing visible from then on |
| MemStore.Store.Get | server/internal/session/memstore/memstore.go:56-74 | contents and reply are those of the pure step, and the buffer handed out is new and not one the store holds |
| MemStore.Store.Create | server/internal/session/memstore/memstore.go:76-104 | contents and reply are those of the pure step, and the store comes to hold no buffer of its caller |
| MemStore.Store.Update | server/internal/session/memstore/memstore.go:106-134 | contents and reply are those of the pure step, and the store comes to hold no buffer of its caller |
| MemStore.Store.Delete | server/internal/session/memstore/memstore.go:136-149 | contents and reply are those of the pure step |
| MemStore.OverwritePassed | server/internal/session/memstore/memstore.go:92-103 | a caller that overwrites the buffer it passed to Create leaves what is stored as Create left it |
| MemStore.OverwriteUpdated | server/internal/session/memstore/memstore.go:122-133 | the same for Update |
| MemStore.OverwriteReturned | server/internal/session/memstore/memstore.go:68-73 | a caller that overwrites the buffer Get handed out leaves what is stored alone |
| MemStore.UpdateCanOutliveItsEntry | server/internal/session/memstore/memstore.go:106-134 | an Update that replaces an entry after it expired, and acts at no instant |
| Writers.FinaliseRunsOnceAndFirst | server/internal/middleware/session.go:199-264 | for every trace of a handler that returns, finalise runs exactly once, and until it has run only informational statuses have got through |
| Writers.FailureSendsOne500 | server/internal/middleware/session.go:199-264 | when finalise fails, the inner writer gets the earlier informational statuses, then one 500 with the initial headers and RenderPlain's two, and nothing after, whatever else the handler calls |
| Writers.CommittedWithFinalisedHeaders | server/internal/middleware/session.go:199-248 | the call that first commits a status sends it with the headers finalise leaves |
| ResponseCookies.ResponseCarriesCookie | server/internal/middleware/session.go:132-151 | for every trace of a handler that sets no cookie itself, what is sent has the initial cookies followed by the session cookie exactly when the commit settled on a response that carries one |
| PassThrough.FinalisedExactly | server/internal/middleware/session.go:219-264 | for every trace, finalise has run exactly when the handler wrote, flushed, hijacked or gave a status of 200 or more, or 101 |
| PassThrough.CallsReachInner | server/internal/middleware/session.go:221-264 | for every trace, when finalise works, the inner writer gets exactly the handler's calls, in order |
| PassThrough.ResponseIsTheHandlers | server/internal/middleware/session.go:199-264 | the response is the one net/http's writer gives to the same calls had finalise's headers been set just before the first call that commits, writes, flushes or hijacks |
| PassThrough.ReturnedIsTheHandlers | server/internal/middleware/session.go:155-159 | the same once the handler has returned, also when it never wrote |
| PassThrough.BodyIsTheHandlers | server/internal/middleware/session.go:235-242 | the bodies sent are those the handler wrote, in order, up to a hijack |
| PassThrough.AddedExactly | server/internal/middleware/session.go:107-149 | finalise replaces Cache-Control, adds the session cookie after the handler's, and leaves every other header |
| PassThrough.PlainHeadersExactly | server/internal/middleware/session.go:211-215 | the 500 has the initial headers but for its own content type |
| Writers.LoggedStatusOfReturn | server/internal/middleware/requestlog.go:26-123 | for every trace of a handler that returns, the logged status is the one committed unless the first final status has more than three digits and finalise worked; none is logged exactly when the handler hijacked first; it is 500 when finalise failed |
| Writers.LoggedStatusOfPanic | server/internal/middleware/requestlog.go:26-61 | the same for a handler that panics, where none is logged also when it panicked before committing one |
| Writers.OverlongIsLogged | server/internal/middleware/requestlog.go:76-83 | WriteHeader(1000) is logged though nothing is committed |
| WriterClasses.SessionResponseWriter.FinaliseOnce | server/internal/middleware/session.go:199-217 | the object's new state is that of the machine's finalise step: at most once, headers reset and a 500 sent on failure |
| WriterClasses.SessionResponseWriter.WriteHeader | server/internal/middleware/session.go:221-231 | the object's new state is that of the machine's WriteHeader step |
| WriterClasses.SessionResponseWriter.Write | server/internal/middleware/session.go:235-242 | the object's new state is that of the machine's Write step, and the caller learns of a failed finalise |
| WriterClasses.SessionResponseWriter.Flush | server/internal/middleware/session.go:246-253 | the object's new state is that of the machine's Flush step |
| WriterClasses.SessionResponseWriter.Hijack | server/internal/middleware/session.go:257-264 | the object's new state is that of the machine's Hijack step; a connection is handed over only if finalise did not fail |
| WriterClasses.RequestLogResponseWriter.WriteHeader | server/internal/middleware/requestlog.go:76-83 | the object's new state is that of the log machine's WriteHeader step |
| WriterClasses.RequestLogResponseWriter.Hijack | server/internal/middleware/requestlog.go:102-109 | the object's new state is that of the log machine's Hijack step |
| WriterClasses.Serve | server/internal/middleware/session.go:94-158 | the objects of both middlewares, made for a request and driven by any handler that returns, end as the machines say |
| Random.Pack | server/pkg/random/random.go:29-42 | limit is a power of the alphabet size with limit < 2^64 <= limit * size, and the loop that finds it agrees with the packing the specification uses |
| Random.ThresholdKeepsHalf | server/pkg/random/random.go:44-46 | the threshold is a positive multiple of limit, and at least half of all draws are below it |
| Random.DigitsSpell | server/pkg/random/random.go:75-79 | the base-size digits of a draw spell a string exactly when the draw is congruent to that string's number: digits are a bijection |
| Random.Uniform | server/pkg/random/random.go:20-82 | for every duplicate-free alphabet of at least two characters and every n, each n-character string is given by the same positive number of sequences of accepted draws |
| Random.AlphanumericUniform | server/pkg/random/random.go:20-82 | so it is under the packing and threshold Alphanumeric works out for its alphabet |
| Random.OutputOver | server/pkg/random/random.go:75-79 | every sequence of accepted draws gives a string over the alphabet |
| Random.BigEndianOneToOne | server/pkg/random/random.go:57-63 | eight bytes make a number below 2^64, each number from one group of eight bytes |
| Random.NextDraw | server/pkg/random/random.go:58-63 | the draw is the next eight bytes of the stream, read within the buffer, across refills |
| Random.NextAccepted | server/pkg/random/random.go:57-68 | the rejection loop gives the next draw below the threshold, skips none, and ends when the stream has one more |
| Random.Generate | server/pkg/random/random.go:48-82 | the text is the pure function of the first accepted draws of the stream, exactly as many as it needs, taken eight bytes at a time without repeats |
| Random.Alphanumeric | server/pkg/random/random.go:20-82 | it panics exactly for a negative length or an alphabet of fewer than two characters, and otherwise returns the output of the stream's first accepted draws under the packing for its alphabet |
| RandomStreams.DrawBytes | server/pkg/random/random.go:57-63 | byte j of draw k is stream byte 8k + j: each draw is eight bytes of its own, in order |
| RandomStreams.DrawsOfBytes | server/pkg/random/random.go:57-63 | every sequence of n draws below 2^64 comes from a string of 8n bytes |
| RandomStreams.BytesOfDrawsOf | server/pkg/random/random.go:57-63 | and from one only: the string is that of its draws |
| RandomStreams.UniformOverStreams | server/pkg/random/random.go:20-82 | uniform over the bytes read, rejections included: for every number of draws, each string over the alphabet is returned for equally many strings of bytes read in full, and for some when none is rejected |
| RandomStreams.ReturnsForItsBytes | server/pkg/random/random.go:48-82 | what Alphanumeric returns is the string its bytes are counted for |
| Handlers.PendingLoginExactly | server/internal/handler/auth.go:126-129 | authEdupass sets exactly the four values, the return path when it is safe and "/" otherwise |
| Handlers.ClearPendingExactly | server/internal/handler/auth.go:187-194 | the callback takes exactly those four away |
| Handlers.CallbackExactly | server/internal/handler/auth.go:153-404 | for every session, query and token: the callback signs in if and only if the stored state is the query's, the pending texts are there, the query has no error, the token verifies with the nonce, was issued in time and names an ID, name and email, and its groups have the printed entry of exactly one base role; the user then is who the claims name in that role, with exactly the attributes printed for its school, under a new ID and token with no data; otherwise the session loses the four values and nothing else, and the error code says why |
| Handlers.LoginRoundTrip | server/internal/handler/auth.go:101-404 | from authEdupass to the callback: it signs in exactly when the callback has the login's state and no error and the token its nonce and one base role, and goes on to the path asked for if that is safe |
| Handlers.AuthEdupass | server/internal/handler/auth.go:112-151 | the session's data gets the return path, if safe, and the state, nonce and code verifier of one pending login, replacing any other; nothing else changes |
| Handlers.AuthEdupassCallback | server/internal/handler/auth.go:177-404 | for the app codes the configuration allows, the session's new state and the redirect are those of `CallbackExactly`, and for any app code those the specification functions give |
| Handlers.SignIn | server/internal/handler/auth.go:364-404 | from resolved groups: one role signs in, several, a set-aside kindergarten role or none give their error codes |
| Handlers.Logout | server/internal/handler/auth.go:57-77 | the session has no user and no data and is marked for removal; ID, token and stored ID stay |
| Handlers.AcceptedIsComplete | server/internal/handler/auth.go:339-402 | whoever the callback signs in has a non-empty ID, name and email, a labelled role, a four-digit school code that is no kindergarten's, and a duplicate-free list of recognized attributes |
| Handlers.UsersAlwaysComplete | server/internal/handler/proxy.go:78 | from an empty store, in every run, each session stored or in flight with a user has a complete one, which passes the proxy's completeness check |
| Handlers.RedirectsAlwaysSafe | server/internal/handler/auth.go:126 | in every run each stored return path, and each path a callback redirects to or carries to the login page, is one safeReturnTo accepts |
| RepeatedCallback.RepeatedCallbackExactly | server/internal/handler/auth.go:173-404 | in every run, for a state value made once: a callback passes with it, then anything happens, steps of its own, of other requests and of the clock, up to its last store call or panic; after that the state can pass again if and only if, just before, another request in flight has it, or the last step leaves it in the unexpired stored session |
| RepeatedCallback.CanPassAfterExactly | server/internal/session/session.go:123-165 | the same condition at any store call or panic of any request that no longer has the state |
| RepeatedCallback.RepeatPassesExactly | server/internal/handler/auth.go:173-174 | the callback repeated at once after the last step of one that gave the state up passes if and only if that step left the pending login in the store |
| StateHolders.CanPassExactly | server/internal/handler/auth.go:192-213 | at every point of every run, a state value can pass again if and only if a session in flight or an unexpired stored one has it |
| StateHolders.HeldUnderOneId | server/internal/handler/auth.go:122-129 | in every run, whatever fails or overlaps, a state value made once is only ever held under one session ID, and one never made is held nowhere |
| PendingLogins.StatePassesOnce | server/internal/handler/auth.go:173-213 | a state value made once passes in at most one callback of every run in which the callback taking it is the only request in flight that has it, and from then on each request that came from the entry holding it makes its removal and none loads it; requests and store calls of other sessions are unconstrained |
| PendingLogins.SeparateRequestsPassOnce | server/internal/handler/auth.go:173-213 | so it does in every run in which requests on one session do not overlap, store calls work and handlers return |
| PendingLogins.TracksStep | server/internal/handler/auth.go:192-213 | each such step keeps: once taken, no session in flight has the state, and if an unexpired entry has it some unfinished request owes its removal |
| RepeatedCallback.OverlapPassesTwice | server/internal/handler/auth.go:173-174 | whichever login is pending, two callbacks that both load before either commits both pass |
| RepeatedCallback.SignedInYetRepeatable | server/internal/session/session.go:116-119 | a sign-in whose superseded entry is not removed answers with the new session's cookie, and the old entry keeps the pending login |
| Edupass.PrintSplit | server/internal/handler/auth.go:703-707 | the parts print to the entry exactly when an underscore stands before the infix; when none does, the app part is empty |
| Edupass.SplitPrint | server/internal/handler/auth.go:703-707 | splitting what parts print to gives the parts back |
| Edupass.RoleGrantedExactly | server/internal/handler/auth.go:643-660 | an entry grants a role if and only if it is that role printed, with a recognized code and a four-digit location that is no kindergarten's |
| Edupass.AttributeGrantedExactly | server/internal/handler/auth.go:663-671 | an entry grants an attribute if and only if it is that attribute printed, with a recognized code and a four-digit location |
| Edupass.MKRoleExactly | server/internal/handler/auth.go:648-655 | an entry is set aside as a kindergarten's role if and only if it is a recognized role printed, at a kindergarten code |
| Edupass.MKCodesExactly | server/internal/handler/auth.go:553-568 | the kindergarten codes are the numbers 6101 to 6159 but 6125 |
| Edupass.NotBothBranches | server/internal/handler/auth.go:643-668 | no entry could be accepted under both the role and the attribute branch |
| Edupass.SameGrantSameEntry | server/internal/handler/auth.go:655-659 | granting the same means being the same entry, if and only if the app code is not empty |
| EdupassGroups.ResolveEdupassGroups | server/internal/handler/auth.go:637-697 | the two loops compute the specification, and for the app codes the configuration allows the result is the one `ResolvedExactly` describes |
| EdupassGroups.ResolvedExactly | server/internal/handler/auth.go:610-697 | for every claim: the roles are the base roles whose printed entries it has, the attributes those whose printed entries it has at the only role's location, each once and in order of arrival; the kindergarten flag is set exactly when it has a printed role of theirs; every other entry is unrecognized, as often as it came |
| EdupassGroups.DedupKeepsFirsts | server/internal/handler/auth.go:655-659 | dropping repeats keeps exactly the values, each once, in the order of their first occurrences |
| EdupassGroups.EntriesConserved | server/internal/handler/auth.go:643-689 | each raw entry counts exactly once, as a role occurrence, a kept-attribute occurrence or an unrecognized entry, and unrecognized is exactly the multiset of the rest |
| EdupassGroups.RolesExact | server/internal/handler/auth.go:643-660 | the roles are exactly those granted, each once |
| EdupassGroups.AttributesExact | server/internal/handler/auth.go:676-689 | the attributes are exactly those granted at the single role's location, each once, also when they came before the role |
| EdupassGroups.OrderIrrelevant | server/internal/handler/auth.go:364-393 | permuting the claim changes neither the sets of roles and attributes, the multiset of unrecognized entries, the kindergarten flag, nor the sign-in decision and error code |
| ReturnTo.AcceptedIsFixedPoint | server/internal/handler/auth.go:434-461 | removing dot segments by section 5.2.4 of RFC 3986 leaves an accepted path unchanged, as sent and as decoded, also when percent-encoded dots count |
| ReturnTo.AcceptedStaysOnSite | server/internal/handler/auth.go:430-433 | resolving an accepted candidate by section 5.2.2 of RFC 3986 keeps the page's scheme and authority and lands on exactly the candidate |
| ReturnTo.AcceptedHasNoTricks | server/internal/handler/auth.go:439-451 | an accepted candidate has exactly one leading slash, no backslash in its path, encoded or not, and no tab or line break before its fragment |
| ReturnTo.SafeReturnToIdempotent | server/internal/handler/auth.go:434-461 | checking twice changes nothing, and the result is safe whenever the fallback is |
| ReturnTo.RootIsSafe | server/internal/handler/auth.go:126 | the fallback in use is itself safe |
| ReturnToExact.AcceptedExactly | server/internal/handler/auth.go:434-461 | a candidate is accepted if and only if it has 1 to 1024 bytes, one leading slash that no backslash follows, no control character before the fragment, percent signs only before two hexadecimal digits in path and fragment, and whatever its path encodes has no backslash and no dot segment |
| ReturnToExact.UnescapeExactly | server/internal/handler/auth.go:445-449 | percent-decoding gives a text exactly when the path is that text with some bytes percent-encoded, in either case |
| ReturnToExact.DecodesExactly | server/internal/handler/auth.go:445-448 | a path decodes exactly when each percent sign is before two hexadecimal digits |
| ReturnToExact.SplitExactly | server/internal/handler/auth.go:454-458 | the segments looked at are exactly the stretches between slashes or the ends |
| Csrf.VerifiesExactly | server/internal/session/csrf.go:43-56 | a text verifies exactly when the token is not empty and the text decodes to twice its length in halves that XOR to it |
| Csrf.MaskingsVerify | server/internal/session/csrf.go:36-38 | every masking of a token verifies, and different random bytes give different maskings |
| Csrf.NoTextVerifiesTwice | server/internal/session/csrf.go:43-56 | no text verifies for two tokens |
| Csrf.VerifiedIsMaskedIffCanonical | server/internal/session/csrf.go:40-56 | a text that verifies was returned by maskToken, for some random bytes, if and only if it has no newline and no stray bits in its last character |
| Csrf.NewlineStillVerifies | server/internal/session/csrf.go:40-56 | a returned token with a newline after it verifies too |
| Csrf.DecodeEncoded | server/internal/session/csrf.go:36-38 | base64 decoding undoes encoding, and encoded text is canonical |
| Csrf.EncodeDecoded | server/internal/session/csrf.go:49-52 | encoding undoes decoding of canonical text |
| Csrf.MaskedBits | server/internal/session/csrf.go:11-19 | the second half has each bit of the token, flipped where the random bytes have a one |
| Csrf.EncryptedHalfSaysNothing | server/internal/session/csrf.go:8-19 | whatever the token, each encrypted half comes from exactly one choice of the random bytes |
| Csrf.DigitsExactly | server/internal/session/csrf.go:37 | the digits are the URL-safe alphabet of section 5 of RFC 4648, in its order |
| Csrf.GroupsExactly | server/internal/session/csrf.go:37 | as in section 4 of RFC 4648, each three bytes and the four digits they become are the same 24 bits |
| Csrf.LeftOverExactly | server/internal/session/csrf.go:37 | one or two bytes left over are encoded as though zeros followed, without the digits of zeros only |
| Csrf.Mask | server/internal/session/csrf.go:11-19 | the buffer filled in place is the random bytes followed by the token under them |
| Csrf.Unmask | server/internal/session/csrf.go:23-33 | nothing for an odd length, and otherwise the XOR of the halves |
| Dotenv.MatchesAsLineRE | server/pkg/dotenv/parser.go:8 | the scanner matches at the start of a line exactly when the expression can, takes the earliest alternative any match takes, and every match through the same alternative gives the same key, value and rest |
| Dotenv.Parse | server/pkg/dotenv/parser.go:14-38 | the loop over matches and groups computes the last-wins map of the keys and values found |
| DotenvRoundTrip.RoundTrip | server/pkg/dotenv/parser.go:10-38 | printing any list of pairs as KEY="value" lines, with legal keys and values without double quote or CRLF, and parsing it gives the last-wins map |
| DotenvRoundTrip.ComesBackExactly | server/pkg/dotenv/parser.go:8-38 | a single printed pair comes back if and only if its key is legal and its value has no double quote and no CRLF |
| DotenvRoundTrip.ParsedKeysLegal | server/pkg/dotenv/parser.go:8 | whatever the text, parsing gives legal keys only |
| DotenvLines.LineEndingsAlike | server/pkg/dotenv/parser.go:15 | whichever lines of a text end in CRLF in place of LF, it parses the same |
| DotenvLines.LinesExactly | server/pkg/dotenv/parser.go:20 | for every text: a match at its start is found first and the search goes on after the line it ends on; without one the line adds nothing and the search goes on at the next |
| DotenvLines.InvalidLinesSkipped | server/pkg/dotenv/parser.go:11 | a line that assigns nothing, blank, a comment or not valid, changes nothing about what the lines after it parse to |
| DotenvLines.WrittenRoundTrip | server/pkg/dotenv/parser.go:8-38 | pairs written double-quoted, single-quoted or plain, mixed as they come, parse to the last-wins map |
| DotenvLines.TrimExactly | server/pkg/dotenv/parser.go:32 | trimming takes all white space from both ends and nothing else |
| DotenvRoundTrip.LastWinsMeans | server/pkg/dotenv/parser.go:10-13 | the map has exactly the keys that occur, each with the value of its last occurrence |

## Left out

- Random.Alphanumeric: `bound`, a ghost parameter, says how far the stream must be read to find enough
  accepted draws, so that termination can be proved; the code loops for as long as its source rejects.
- Sessions.Session.GetAndDeleteText: the generic `GetAndDelete` only at type string, the only one in use.
- JSON: encoding a snapshot gives one symbol, and other bytes stand for text that does not decode; an
  unencodable value is one marked so, and how JSON rewrites numbers, structs and invalid UTF-8 is not modelled.
- Fresh IDs and tokens: `random.Base58` is taken to return values never seen before. The state value of
  a pending login is taken to be set by one handler only.
- Valkey: covered by the store contract, whose calls may fail before or after their change.
- net/http's writer: what it does is modelled, not its code. It supports Flush, sends a 200 for a response
  never written, and takes no status below 100 or above 999; statuses that allow no body are not told apart.
- url.Parse: only for strings that start with exactly one slash, the only ones that reach it. Chars stand
  for bytes in `ReturnTo`, `Edupass` and `Csrf`, and for code points of valid UTF-8 in `Dotenv`.
- ID token verification, the code exchange and their errors: one value that says how they ended, with the claims.
- The text of redirects to Edupass and the query encoding of the login URL, and what is logged but the status.
- Constant-time comparison, the mutex of the in-memory store, and its `WithClock` option.
- The float64 of `ttl.Seconds()`: whole seconds by integer division, which agrees for TTLs of whole seconds.
- Slices inside values: `SetUser` and `User` clone the attributes of a user, which here are values and cannot
  be shared in the first place.
- The `login` handler, `Get`, `User`, `CSRFToken` and the other getters, which return what is there.
- Handlers without a session in their context, which answer 500 and touch nothing.
- Configuration, routing, the reverse proxy beyond its completeness check, templates, the mock Edupass
  server and the React host application.
