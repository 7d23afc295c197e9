# A verified model of litestar-security

This project models the state machines and translations at the centre of litestar-security, a
Litestar plugin for authentication, local accounts, multi-factor login, authorization and
response hardening, and proves what they keep over every run.

Six groups of modules follow the program's structure.

* **The reference account store.** `AccountSpec` gives one transition per store method (the
  store holds a lock, so a method is one atomic step). `AccountStore` is the imperative store:
  dictionaries, sets and mutable refresh records, proved to follow those transitions step by
  step, with a ghost list of the operations performed so far. `RefreshFamilies`,
  `AccountEpochs` and `PurposeTokens` prove one joint invariant over every run and what follows
  from it, `AccountHistory` that every table and every answer is fixed by the log of calls and
  outcomes alone.
* **The fixed-window rate limiter.** `RateLimitSpec` has the slot arithmetic and plain counters
  that never expire, `RateLimitHistory` what those admit, `RateLimiter` the lock-holding
  read-add-write loop on an expiring store, and `RateLimitMachine` any number of coroutines
  interleaved step by step. Of that machine, `RateLimitDeadlines` says when it counts like the
  plain counters, `RateLimitVerdicts` what it lets through when it does, `RateLimitWrites` and
  `RateLimitBound` what it lets through in any case, and `RateLimitRuns` that both bounds are met.
* **Policies.** `PolicySpec` compiles `any_of`, `all_of` and `at_least` into alternatives,
  `PolicyCompiler` is the caching compiler, `Evaluator` runs a plan on one request,
  `AdmittedGrants` says entry by entry what an admitted caller may do, and `OpenApi` projects
  plans into documentation (section 4.8.30 of OpenAPI 3.1.0). Both readers of a plan are proved
  to mean what the policy says.
* **Second factors.** `MfaLogin` (challenge-bound completions), `MfaCeremony` (what an issuance
  takes, step by step), `Totp` (RFC 6238 counters) and
  `Passkeys` (signature counters, sections 6.1.1 and 7.2 of WebAuthn Level 2) are step machines
  over arbitrarily many interleaved requests, together with the classes of their stores.
* **Authorization.** `Authorization` is the intersection of a snapshot with credential bounds in
  closed form. `ConnectionLifetime` follows it through merges and refreshes of a WebSocket.
* **Codecs and a cache.** `PurposeCodec` prints and parses one-time tokens (base64url of section
  5 of RFC 4648, canonical as in section 3.5), `TokenJourney` follows one from printing through the
  store to redemption, `Csp` serializes policies and parses them with
  section 2.2.1 of CSP Level 3, and `VerifierCache` is the bounded LRU against its access trace.

Keyed hashes, one-time-password generation, text checks and WebAuthn verification are function
parameters or arbitrary inputs. Clock readings and entropy draws are inputs. `Valid()` of a
store class says that its tables are exactly what the operations performed so far lead to, so
every theorem about runs holds of every object at every moment (`ValidMeansInv`).

Where the code and what it is documented to do part ways, the code is modelled as it is and the
difference has its own lemma:

* `RotateCommand` carries the successor's family expiry and scopes, and the store copies them
  unchecked: a family keeps its terms exactly if every rotation repeats them
  (`RefreshFamilies.FamilyTermsKept`).
* A receipt is replayed before expiry and epoch are looked at, so it outlives a password change
  (`AccountEpochs.ReceiptOutlivesEpoch`).
* The limiter counts like counters that never expire exactly in the runs in which no read meets
  an expired entry (`RateLimitDeadlines.SerialExactlyIfTimely`). Such a run lets at most twice the
  limit through in any window. A read can come later, and then one slot lets through more than its
  limit (`RateLimitRuns.LateReadOverAdmits`). Admitting too much is all that can go wrong
  (`RateLimitMachine.NoInterleavingDeniesTooMuch`), and no run admits more than three times the
  limit in any window (`RateLimitBound.NeverMoreThanThrice`), which `RateLimitRuns.ThriceIsReached`
  attains.
* A password change ends the pending second-factor logins except those that have already re-read
  the account: the condition of `MfaLogin.PasswordChangeKillsChallenges` is exact, and
  `MfaLogin.ConfirmedLoginOutlivesPasswordChange` is such a login. What it issues carries the
  epoch the account has left, which the store's epoch test refuses for a refresh family
  (`AccountStore.InMemoryLocalAccountStore.CreateRefreshFamily`).
* A resource bound with two entries for one resource depends on the enumeration order of a set
  (`Authorization.OrderIsImmaterialExactly`).
* Parsing a purpose token raises instead of rejecting when the text before its first underscore
  is not ASCII and its separators are in place (`PurposeCodec.RaisesExactly`).
* `serialize` does not validate the nonce, and a browser skips directives that are not ASCII: the
  header means what was configured exactly under the condition of `Csp.SerializedMeansConfigured`.
* Under the audit-only clone policy accepted counters keep their order exactly if nothing was
  flagged (`Passkeys.AuditOnlyIncreasesExactly`).

## Model

| member | source | states |
|---|---|---|
| `RefreshFamilies.FamilyIsOneChain` | src/litestar_security/testing.py:931-1020 | After any run: a family has exactly one unconsumed token, its consumed tokens are exactly those of its ROTATED outcomes and form one successor chain ending at the unconsumed one, and all its tokens agree on account, epoch and revocation |
| `RefreshFamilies.RefreshInvKept` | src/litestar_security/testing.py:551-1090 | Every store operation keeps the family invariant |
| `RefreshFamilies.RevocationIsFinal` | src/litestar_security/testing.py:959-1090 | After a detected replay or a revoke call no continuation rotates, prepares or replays anything of the family |
| `RefreshFamilies.RevokedStaysRevoked` | src/litestar_security/testing.py:1022-1060 | No operation clears a family's revocation |
| `RefreshFamilies.SecondPresentation` | src/litestar_security/testing.py:969-980 | A rotated token presented again returns the committed receipt unchanged under the same key, at any time and epoch, and revokes the family under any other key |
| `RefreshFamilies.FamilyTermsKept` | src/litestar_security/testing.py:998-1020 | A family keeps the deadline and scopes it was created with if and only if every rotation repeated its predecessor's |
| `AccountEpochs.EpochCountsChanges` | src/litestar_security/testing.py:642-656 | An account's epoch minus one is its CHANGED plus RESET outcomes, and each passed epoch was left by exactly one of them |
| `AccountEpochs.EpochInvKept` | src/litestar_security/testing.py:551-1090 | Every store operation keeps the epoch accounting |
| `AccountEpochs.EpochBumpIsFinal` | src/litestar_security/testing.py:642-656 | After an epoch is left, no continuation prepares or rotates its refresh tokens or resets a password with its recovery tokens |
| `AccountEpochs.ResetNeedsIssuedEpoch` | src/litestar_security/testing.py:787-814 | A reset happens only at the epoch its recovery token was issued for |
| `AccountEpochs.OneResetPerEpoch` | src/litestar_security/testing.py:787-814 | Of all recovery tokens issued to an account at one epoch at most one ever resets the password |
| `AccountEpochs.ReceiptOutlivesEpoch` | src/litestar_security/testing.py:969-980 | Receipt replay precedes the epoch check: it still works after a password change |
| `AccountEpochs.CredentialsFollowOutcomes` | src/litestar_security/testing.py:630-656 | The stored password hash and verified flag are those of the latest successful operation that supplied them |
| `AccountHistory.TablesFollowHistory` | src/litestar_security/testing.py:551-1090 | After any run every table is what the log of calls and outcomes says, entry by entry: account records, password hashes, live and used tokens with their failed proofs, and refresh records with their terms, consumption, revocation and receipt |
| `AccountHistory.AnswersFollowHistory` | src/litestar_security/testing.py:630-1060 | What any call but registration and the revocation of an account's families answers next is fixed by that log, deadlines, digests, owners, epochs and earlier uses included |
| `AccountHistory.RegistrationFollowsHistory` | src/litestar_security/testing.py:686-742 | A registration creates the account, on the oldest live invitation with the digest if one is presented, exactly when the log knows nothing against it; otherwise it answers what stands in the way |
| `AccountHistory.RevokeAllCounts` | src/litestar_security/testing.py:1054-1060 | Revoking an account's families counts those with a token of the account that were not revoked before |
| `AccountHistory.GrantsAreInTime` | src/litestar_security/testing.py:959-1020 | Over every run each rotation and each prepared context named a token whose record has both deadlines after the time of the call, and the very terms the call named or was given |
| `PurposeTokens.TokensAreOneShot` | src/litestar_security/testing.py:686-814 | After any run: live and used ids are disjoint, each token succeeded at most once, counters exist only for live tokens, count their wrong proofs and stay below the maximum |
| `PurposeTokens.UsedIsFinal` | src/litestar_security/testing.py:744-814 | A used id never becomes live again and never succeeds |
| `PurposeTokens.ExhaustedNeverSucceeds` | src/litestar_security/testing.py:1072-1079 | A token that met its maximum of wrong proofs never succeeds afterwards |
| `PurposeTokens.InvitationIsSpent` | src/litestar_security/testing.py:686-742 | An invited registration takes the oldest live invitation with the presented digest, unexpired, and burns it |
| `AccountStore.ReachableInv` | src/litestar_security/testing.py:551-592 | The joint invariant of families, epochs and tokens holds after every run |
| `AccountStore.InMemoryLocalAccountStore.ValidMeansInv` | src/litestar_security/testing.py:551-592 | The joint invariant holds of every store object at every moment |
| `AccountStore.InMemoryLocalAccountStore.Register` | src/litestar_security/testing.py:686-742 | Registration, in the branch order of the source, as one step of the specified run |
| `AccountStore.InMemoryLocalAccountStore.IssueToken` | src/litestar_security/testing.py:744-752 | An issue is stored unless its id is known, live or used |
| `AccountStore.InMemoryLocalAccountStore.ConsumeAndVerify` | src/litestar_security/testing.py:760-785 | Consuming a verification token as one step of the specified run |
| `AccountStore.InMemoryLocalAccountStore.ConsumeAndReset` | src/litestar_security/testing.py:787-814 | Consuming a recovery token as one step of the specified run |
| `AccountStore.InMemoryLocalAccountStore.CompareAndReplacePassword` | src/litestar_security/testing.py:630-640 | A rehash goes through only over the hash it was computed from |
| `AccountStore.InMemoryLocalAccountStore.ReplacePasswordAndBumpEpoch` | src/litestar_security/testing.py:642-656 | A change goes through only at the expected epoch and raises it by one |
| `AccountStore.InMemoryLocalAccountStore.CreateRefreshFamily` | src/litestar_security/testing.py:931-957 | A family starts only at the current epoch, with a new token id and a new family id |
| `AccountStore.InMemoryLocalAccountStore.PrepareRotation` | src/litestar_security/testing.py:959-981 | The rotation lookup with its seven outcomes, revoking the family on replay |
| `AccountStore.InMemoryLocalAccountStore.RotateToken` | src/litestar_security/testing.py:983-1020 | Rotation marks the record in place and adds the successor |
| `AccountStore.InMemoryLocalAccountStore.RevokeFamily` | src/litestar_security/testing.py:1022-1027 | Revoking by family id |
| `AccountStore.InMemoryLocalAccountStore.RevokeToken` | src/litestar_security/testing.py:1029-1037 | Revoking the family of a presented token |
| `AccountStore.InMemoryLocalAccountStore.RevokeTokenForAccount` | src/litestar_security/testing.py:1039-1052 | The same, owner-checked |
| `AccountStore.InMemoryLocalAccountStore.RevokeForAccount` | src/litestar_security/testing.py:1054-1060 | Revoking every family of an account in any order counts those that changed |
| `RateLimitSpec.RetryLandsInNextSlot` | src/litestar_security/accounts/_rate_limits.py:384-415 | The reported wait lies between one second and the window, waiting exactly that long lands in the very next slot, and no shorter whole wait does |
| `RateLimitDeadlines.SerialExactlyIfTimely` | src/litestar_security/accounts/_rate_limits.py:357-415 | For any number of coroutines and any interleaving: every read arrives at all costs charged to its bucket before it in lock order plus its own, if and only if no read of the run meets an expired entry |
| `RateLimitDeadlines.PromptRunsAreSerial` | src/litestar_security/accounts/_rate_limits.py:397-415 | Every entry outlives its slot on the shared clock: a run whose reads stay inside the slot they charge counts like counters that never expire |
| `RateLimitSpec.WriteAgrees` | src/litestar_security/accounts/_rate_limits.py:397-415 | A write keeps the expiring store in agreement with the counters, with a deadline no earlier than the end of the slot |
| `RateLimitSpec.BucketNamesDiffer` | src/litestar_security/accounts/_rate_limits.py:402-404 | Within one operation the hashed name of a bucket identifies it |
| `RateLimitSpec.BucketNamesCollideExactly` | src/litestar_security/accounts/_rate_limits.py:402-404 | Buckets of two operations can share a name if and only if one operation continues the other like a bucket name, which needs a NUL in it |
| `RateLimiter.TimelyAcquireIsIdeal` | src/litestar_security/accounts/_rate_limits.py:357-395 | A whole attempt none of whose reads meets an expired entry decides like never-expiring counters |
| `RateLimiter.AcquireDecidesExactly` | src/litestar_security/accounts/_rate_limits.py:357-415 | One attempt on any store: it fails exactly if a bucket it reads is unreadable, else it is allowed exactly if every bucket, expired entries read as empty, still holds its cost; every bucket then holds what was read plus the cost for one window, and no other changes |
| `RateLimiter.StoreRateLimiter.Acquire` | src/litestar_security/accounts/_rate_limits.py:357-395 | The loop over buckets, keeping the longest wait, equals its specification |
| `RateLimiter.StoreRateLimiter.Consume` | src/litestar_security/accounts/_rate_limits.py:397-416 | Read, add and write one bucket, refusing an unreadable counter |
| `RateLimitMachine.EveryInterleavingIsSerial` | src/litestar_security/accounts/_rate_limits.py:107-114 | For any interleaving of lock, read, write and release steps in which no read meets an expired entry, the verdicts are those of serving the attempts one by one in lock order |
| `RateLimitMachine.NoInterleavingDeniesTooMuch` | src/litestar_security/accounts/_rate_limits.py:357-415 | With no condition on the run: one turn after the other, nobody fails, and whoever is denied is denied by never-expiring counters too, with the same wait |
| `RateLimitMachine.InvKept` | src/litestar_security/accounts/_rate_limits.py:107-114 | Every step keeps mutual exclusion and the agreement of store and counters: exactly if the step reads no expired entry, and from below in any case |
| `RateLimitVerdicts.VerdictsBySums` | src/litestar_security/accounts/_rate_limits.py:357-415 | For any mix of attempts and any interleaving in which no read meets an expired entry: a finished attempt was admitted exactly when its operation is unlimited or each of its buckets still holds all costs charged to it in the slot up to and including its own; otherwise it was denied with the wait to the end of the slot |
| `RateLimitVerdicts.OneBucketAdmitsBySum` | src/litestar_security/accounts/_rate_limits.py:357-415 | If no read of the run meets an expired entry: N coroutines on one and the same bucket, of either kind, within one slot: admitted exactly when the costs up to it in lock order sum to at most the limit |
| `RateLimitVerdicts.TimelyUnitAttempts` | src/litestar_security/accounts/_rate_limits.py:384-395 | If no read of the run meets an expired entry: N finished unit-cost attempts on one bucket in one slot: exactly min(N, limit) were let through |
| `RateLimitVerdicts.TimelyAdmitsAPrefix` | src/litestar_security/accounts/_rate_limits.py:384-395 | If no read of the run meets an expired entry: of the turns on the same buckets within a slot those let through come first |
| `RateLimitVerdicts.TimelyLetsThroughTwice` | src/litestar_security/accounts/_rate_limits.py:384-415 | If no read of the run meets an expired entry: a bucket lets through at most twice the limit in any half-open interval of one window |
| `RateLimitVerdicts.TimelyWaitingSucceeds` | src/litestar_security/accounts/_rate_limits.py:357-395 | If no read of the run meets an expired entry: a denied caller that comes back exactly as long after its clock reading as it was told is let through, unless it asks for more than the limit or was overtaken by a turn in a later slot |
| `RateLimitBound.NeverMoreThanThrice` | src/litestar_security/accounts/_rate_limits.py:357-415 | With no condition on the run: a bucket lets through at most three times the limit in any half-open interval of one window, however late the reads come |
| `RateLimitRuns.LateReadOverAdmits` | src/litestar_security/accounts/_rate_limits.py:357-415 | A run of the machine in which one slot lets through twice its limit, because the second read comes after what the first attempt wrote has expired |
| `RateLimitRuns.TwiceIsReached` | src/litestar_security/accounts/_rate_limits.py:384-415 | A run without late reads that lets through exactly twice the limit in one window |
| `RateLimitRuns.ThriceIsReached` | src/litestar_security/accounts/_rate_limits.py:357-415 | A run with two late reads that lets through exactly three times the limit in one window: the unconditional bound is met |
| `PolicySpec.CompilePreservesMeaning` | src/litestar_security/_openapi.py:114-164 | Compiled alternatives hold of a success set exactly when the policy does: one of, all of, or at least k of its mechanisms |
| `PolicySpec.CompileFailsExactly` | src/litestar_security/_openapi.py:114-164 | Compilation is refused exactly for an undefined mechanism, an implicit policy without defaults, an optional exclusion, or an expansion over the cap |
| `PolicySpec.PlanFlagsExactly` | src/litestar_security/_openapi.py:114-151 | A compiled plan authenticates unless the policy is public or excluded, and bypasses only if it is excluded |
| `PolicySpec.AlternativesAskAsWritten` | src/litestar_security/_openapi.py:114-164 | Every participant of an alternative asks the scopes the policy wrote, or none for a default one, and participants stand in the registry's order |
| `PolicySpec.AtLeastExpandsBinomially` | src/litestar_security/_openapi.py:135-143 | An accepted threshold policy has exactly the binomial number of alternatives the cap test computed |
| `PolicySpec.CombinationsMeanAtLeast` | src/litestar_security/_openapi.py:143 | Some k-combination succeeds entirely exactly when at least k members succeed |
| `PolicySpec.ConstructorsBuildExactly` | src/litestar_security/authentication.py:216-319 | A policy is the result of some constructor calls if and only if it is well formed |
| `PolicyCompiler.Compiler.CompilePolicy` | src/litestar_security/_openapi.py:95-112 | The cache returns what direct compilation would, and the canonical object of its plan |
| `PolicyCompiler.SameObjectForEqualPlans` | src/litestar_security/_openapi.py:95-112 | Two compilations share an object exactly when their plans are equal |
| `Evaluator.AdmissionFollowsPolicy` | src/litestar_security/authentication.py:1128-1192 | With or without an application resolver: a request is admitted exactly when every presented credential succeeds for one principal, the successes satisfy the policy as written and the application loads an authorization for the principal; it passes anonymously exactly when the policy is optional and nothing was presented |
| `Evaluator.VerdictByOutcomes` | src/litestar_security/authentication.py:1128-1264 | Each of the four verdicts exactly, for any resolver: trouble with a credential first, then a bad credential, then trouble resolving an identity, then identities, the plan and the application's answer |
| `Evaluator.DefaultPlanIsImplicitRequired` | src/litestar_security/authentication.py:1153-1163 | The default plan treats every request like the compiled implicit required policy |
| `Evaluator.OpenExactlyIfPublic` | src/litestar_security/authentication.py:1128-1146 | A public or excluded route lets every request through whatever it presents, and no other policy does |
| `Evaluator.AdmittedWithinEveryBound` | src/litestar_security/authentication.py:1167-1192 | An admitted caller stays within the bounds of every credential that succeeded |
| `AdmittedGrants.AdmittedBySlots` | src/litestar_security/authentication.py:1128-1192 | Admission told by the credential slots: all that is offered succeeds, for one principal, the owning mechanisms satisfy the policy as written, and the application loads an authorization; the verdict names that principal |
| `AdmittedGrants.AdmittedByParticipants` | src/litestar_security/authentication.py:1128-1192 | The same for a request evaluated against a list of participants, required or not |
| `AdmittedGrants.GrantsAreUnited` | src/litestar_security/authentication.py:1273-1297 | Without an application resolver the credentials' grants are united axis by axis and tenant by tenant, and of attributes the last credential that sets one decides |
| `AdmittedGrants.AdmittedHoldsExactly` | src/litestar_security/authentication.py:1175-1192 | An admitted caller holds a scope, role, capability, tenant or tenant role exactly if some credential, or the application, grants it and every credential bounded there lists it |
| `AdmittedGrants.AdmittedResourcesExactly` | src/litestar_security/authentication.py:1175-1192 | It holds a resource permission exactly if one is given whose resource every bound knows, cut to the scopes every such bound lists, and the attributes it is given |
| `Evaluator.MergeAuthorization` | src/litestar_security/authentication.py:1273-1297 | The loop with one accumulator per axis computes the united grants |
| `Evaluator.EvaluateRequest` | src/litestar_security/authentication.py:1128-1192 | The evaluator's phases in order compute the specified verdict |
| `Evaluator.ExtractPhase` | src/litestar_security/authentication.py:1199-1210 | Extraction fails as soon as one slot raises |
| `Evaluator.AuthenticatePhase` | src/litestar_security/authentication.py:1212-1233 | The loop over presented credentials |
| `Evaluator.ResolvePhase` | src/litestar_security/authentication.py:1242-1264 | The two loops over resolutions |
| `OpenApi.ProjectionPreservesMeaning` | src/litestar_security/_openapi.py:214-253 | When projection succeeds the requirement list is met by exactly the scheme sets that meet the plan, shared schemes included, and its length is the sum of products of option counts, plus one if anonymous |
| `OpenApi.ProjectionDocumentsExactly` | src/litestar_security/_openapi.py:214-253 | The documented list holds exactly the empty requirement for anonymous access and, for every alternative and every pick of a scheme for each participant, the requirement that names the picked schemes, each with the scopes asked of it |
| `OpenApi.DocumentationMeansPolicy` | src/litestar_security/_openapi.py:95-253 | What a route's documentation asks of the schemes is what its policy asks of the mechanisms they stand for |
| `OpenApi.ProjectionRefusesExactly` | src/litestar_security/_openapi.py:214-253 | A plan is refused exactly when some alternative has a participant that asks scopes although one of its schemes cannot express them, or two participants that one scheme can stand for and that ask different scopes |
| `OpenApi.CombineFailsExactly` | src/litestar_security/_openapi.py:245-252 | A combination is refused exactly when it asks one scheme for two scope lists |
| `OpenApi.FromRegistryExactly` | src/litestar_security/_openapi.py:177-264 | Schemes compile exactly when every mechanism has one and no scheme name has two definitions |
| `OpenApi.CandidatesAreDocumented` | src/litestar_security/_openapi.py:177-212 | A mechanism can be met by exactly the schemes it documents, its primary one first and the others in their order |
| `OpenApi.CompileSchemes` | src/litestar_security/_openapi.py:177-212 | The loop over the registry fills the three tables as specified |
| `OpenApi.CompiledPlansAreCovered` | src/litestar_security/_openapi.py:152-212 | A compiled plan names only mechanisms the scheme set documents |
| `OpenApi.ProjectPlan` | src/litestar_security/_openapi.py:214-253 | The nested loops compute the specified projection |
| `Authorization.ResolveIsClosedForm` | src/litestar_security/context.py:372-425 | Resolution computes the closed form: per axis what every bound lists, and empty tenant role sets dropped exactly when some restriction bounds roles |
| `Authorization.ResolveIgnoresOrderAndRepetition` | src/litestar_security/context.py:372-425 | Permuting or repeating restrictions changes nothing, nor does iterating an equal resource bound with one entry per resource in another order |
| `Authorization.ResolveInBatches` | src/litestar_security/context.py:372-425 | Resolving a first batch and then the rest equals resolving all |
| `Authorization.ResolveNeverExpands` | src/litestar_security/context.py:372-425 | Nothing outside the snapshot or any bound is granted |
| `Authorization.OrderIsImmaterialExactly` | src/litestar_security/context.py:465-475 | A resource bound means the same in every iteration order of its set if and only if it has one entry per resource |
| `Authorization.ResolveAuthorization` | src/litestar_security/context.py:372-425 | The loop with one accumulator per axis equals resolution |
| `ConnectionLifetime.NoRefreshEscapesABound` | src/litestar_security/authentication.py:875-886 | From any handshake the evaluator lets through: at every moment the authorization in force is the latest snapshot resolved against all restrictions of the context, within each of them, those of every credential of the handshake included |
| `ConnectionLifetime.SourceIsLatest` | src/litestar_security/authentication.py:875-886 | While open, that snapshot is the latest one the connection was given |
| `ConnectionLifetime.MergeGoverned` | src/litestar_security/authentication.py:964-1004 | Merging a connect token keeps the context governed by its snapshot and restrictions |
| `ConnectionLifetime.OpenExactlyWhileWelcome` | src/litestar_security/authentication.py:875-1004 | A connection stays open exactly while every connect token is for whom it speaks and every answer it needs loads |
| `ConnectionLifetime.OpenSpeaksForOne` | src/litestar_security/authentication.py:964-1004 | While open it speaks for one principal throughout and is bound by the restrictions it opened with and those of every connect token, in order |
| `ConnectionLifetime.WebSocketConnection.Merge` | src/litestar_security/authentication.py:964-1004 | The merge with its error cases |
| `ConnectionLifetime.WebSocketConnection.Refresh` | src/litestar_security/authentication.py:875-886 | A refresh replaces the snapshot and resolves it against every restriction |
| `MfaLogin.OneIssuancePerChallenge` | src/litestar_security/accounts/_auth_service.py:355-417 | Over every interleaving one challenge leads to at most one issuance, for its account, client key and epoch, on an active account record (what the issuance took before is `MfaCeremony.EveryIssuanceIsEarned`) |
| `MfaLogin.FailedAttemptBurns` | src/litestar_security/accounts/_auth_service.py:303-417 | One challenge is worth one attempt: whoever has taken it, or takes it with this step, and is then rejected, be it for a wrong factor code, a stale account record, a failed establishment, a broken binding or an abort, burns it, and no continuation stores it or issues from it |
| `MfaLogin.RefusedFactorBurns` | src/litestar_security/accounts/_auth_service.py:395-402 | After a refused factor of a client that holds a challenge no continuation stores the challenge or issues from it |
| `MfaCeremony.EveryIssuanceIsEarned` | src/litestar_security/accounts/_auth_service.py:303-417 | Over every interleaving each issuance goes back, in this order and by one client, to an account read active at the challenge's epoch, the presentation before its deadline of a challenge issued for that account, epoch and client key, an accepted factor, a second read with the account still active at that epoch, and a successful establishment |
| `MfaCeremony.UndisturbedCompletionIssues` | src/litestar_security/accounts/_auth_service.py:355-417 | In any state a completion nothing interleaves with issues, once and for its request, exactly when the account is active, its challenge is stored for it, fits and has not expired, and the factor is accepted |
| `MfaLogin.PasswordChangeKillsChallenges` | src/litestar_security/accounts/_auth_service.py:303-335 | In any reachable state where the account is past a challenge's epoch and nothing was issued from it: no continuation issues from it if and only if no completion is confirmed with it |
| `MfaLogin.ConfirmedLoginOutlivesPasswordChange` | src/litestar_security/accounts/_auth_service.py:303-417 | A run from the empty store that does issue: the establishment goes ahead after a password change, for the account record re-read before it, whose epoch the account has then left |
| `MfaLogin.NextKeeps` | src/litestar_security/accounts/_auth_service.py:355-417 | Every step keeps the joint invariant of challenges, holders and issuances |
| `MfaLogin.InMemoryMfaLoginChallengeStore.Put` | src/litestar_security/testing.py:3990-3997 | A challenge is stored under its digest |
| `MfaLogin.InMemoryMfaLoginChallengeStore.Consume` | src/litestar_security/testing.py:3999-4022 | The digest is popped first and returned only for the exact account, epoch and an unexpired record |
| `Totp.AcceptedCountersIncrease` | src/litestar_security/accounts/_mfa.py:786-815 | Over any interleaving a method's accepted counters strictly increase, each in its request's window and the latest match there |
| `Totp.AcceptancesAreBounded` | src/litestar_security/accounts/_mfa.py:1067-1085 | Acceptances with clock readings in [t0, t1] number at most the time steps between them plus 2 * drift + 1 |
| `Totp.AcceptedExactly` | src/litestar_security/accounts/_mfa.py:1067-1085 | A code is accepted at a counter exactly if it is well formed and that is the latest matching counter of the window |
| `Totp.CurrentIsTimeStep` | src/litestar_security/accounts/_mfa.py:1067-1085 | A clock reading lies in the time step it is assigned, seconds cut toward the epoch |
| `Totp.OpensExactly` | src/litestar_security/accounts/_mfa.py:786-815 | A verification gets past its checks exactly if the method was activated, for the account that asks, and the code is accepted at a counter above all accepted so far |
| `Totp.ActivatedFromEnrollment` | src/litestar_security/accounts/_mfa.py:684-780 | A method is the enrollment it was activated from, by a code accepted for the enrollment's account before the enrollment expired |
| `Totp.ActivationWinsExactly` | src/litestar_security/testing.py:3678-3747 | A checked activation wins exactly if its enrollment is still pending for that account and in time |
| `Totp.CommitWinsExactly` | src/litestar_security/testing.py:3762-3778 | A checked verification wins exactly if its counter is above every counter accepted so far |
| `Totp.ChooseCounter` | src/litestar_security/accounts/_mfa.py:1067-1085 | The loop that keeps the last match returns the largest one |
| `Totp.InMemoryMfaStore.Activate` | src/litestar_security/testing.py:3678-3716 | Activation pops the enrollment even when it then does not fit |
| `Totp.InMemoryMfaStore.ActivateWithRecoveryCodes` | src/litestar_security/testing.py:3718-3747 | Activation that keeps an enrollment that does not fit |
| `Totp.InMemoryMfaStore.Advance` | src/litestar_security/testing.py:3762-3778 | The counter only moves forward |
| `Passkeys.AcceptedCountersIncrease` | src/litestar_security/accounts/_passkeys.py:820-895 | Under the reject policy accepted counters are zeros, then strictly increasing, the stored count is the last of them, updates consume consecutive versions once each, and suspicion is exactly a flag in the past |
| `Passkeys.UsedByOwner` | src/litestar_security/accounts/_passkeys.py:820-895 | Over every interleaving whoever asserted or renamed a credential is the account it was registered for |
| `Passkeys.FinishedExactly` | src/litestar_security/accounts/_passkeys.py:820-895 | An assertion loaded for an account and finished any time later is recorded exactly if the account owned the credential, the response fits it and nothing updated it in between; it is flagged exactly if a nonzero count did not grow, and accepted unless flagged under the reject policy |
| `Passkeys.DetailsAreLatest` | src/litestar_security/testing.py:3904-3977 | A credential's name, backup state and last use are those of its latest rename and its latest recorded assertion |
| `Passkeys.StoredOnlyGrows` | src/litestar_security/testing.py:3904-3977 | No continuation lowers a stored count or version or clears a suspicion |
| `Passkeys.AuditOnlyIncreasesExactly` | src/litestar_security/accounts/_passkeys.py:857-878 | Under the audit-only policy accepted counters keep that order if and only if no assertion was flagged |
| `Passkeys.NextKeeps` | src/litestar_security/accounts/_passkeys.py:820-895 | Every step keeps the invariant tying each credential to its history |
| `Passkeys.InMemoryPasskeyStore.AddCredential` | src/litestar_security/testing.py:3872-3891 | A credential is added only if its id is new |
| `Passkeys.InMemoryPasskeyStore.Record` | src/litestar_security/testing.py:3904-3945 | The versioned compare-and-set of an assertion |
| `Passkeys.InMemoryPasskeyStore.Rename` | src/litestar_security/testing.py:3958-3977 | An owner-checked rename raises the version |
| `PurposeCodec.IssuedIsProved` | src/litestar_security/accounts/_purpose_tokens.py:231-334 | An issued token proves to its own id and digest, and is rejected under every other purpose |
| `PurposeCodec.IssuesExactly` | src/litestar_security/accounts/_purpose_tokens.py:231-288 | A token is issued exactly for a positive lifetime, one to a hundred attempts and entropy of the right sizes, with that deadline and those attempts |
| `TokenJourney.PrintedTokenRedeems` | src/litestar_security/accounts/_purpose_tokens.py:231-334 | Of a printed and stored token of any purpose: while it is live its text is good for that purpose exactly before issue time plus lifetime, and no other text under its id is, unless the hash collides |
| `TokenJourney.PrintedTokenVerifies` | src/litestar_security/testing.py:744-785 | A printed and stored verification token verifies its account in the store on its own text, exactly before issue time plus lifetime |
| `PurposeCodec.SymbolsAreTabled` | src/litestar_security/accounts/_purpose_tokens.py:396-398 | Every symbol of a segment is the one Table 2 of RFC 4648 has for its six bits of the input |
| `PurposeCodec.ParsedExactly` | src/litestar_security/accounts/_purpose_tokens.py:308-330 | A string parses exactly when it is the printed form of one 16-byte lookup and one 32-byte secret |
| `PurposeCodec.PrintedIsParsed` | src/litestar_security/accounts/_purpose_tokens.py:308-330 | Parsing a printed token gives its parts back, and only under its own name |
| `PurposeCodec.RaisesExactly` | src/litestar_security/accounts/_purpose_tokens.py:290-323 | The parser raises exactly on well-separated strings whose prefix is not ASCII |
| `PurposeCodec.DecodeSegmentExactly` | src/litestar_security/accounts/_purpose_tokens.py:400-413 | A segment is accepted exactly when it is the encoding of that many bytes, although the library's decoder is lenient |
| `PurposeCodec.DigestInputsDiffer` | src/litestar_security/accounts/_purpose_tokens.py:392-393 | Distinct accepted pairs of purpose and token have distinct hash inputs |
| `PurposeCodec.DigestIdentifiesToken` | src/litestar_security/accounts/_purpose_tokens.py:290-334 | Equal digests come from one token under one purpose, or from a collision of the hash |
| `PurposeCodec.ValidTokenIdExactly` | src/litestar_security/accounts/_purpose_tokens.py:382-389 | A token id is well formed exactly when some 16-byte lookup prints to it |
| `Csp.SerializedMeansConfigured` | src/litestar_security/headers.py:91-113 | Parsing the header as CSP Level 3 says gives the sorted directives with their sources and nonce if and only if sources and nonce are ASCII and the nonce has no white space or semicolon |
| `Csp.SerializedMeans` | src/litestar_security/headers.py:91-113 | With a clean nonce the parse is the configured policy less its directives that are not ASCII |
| `Csp.SerializedIsVisible` | src/litestar_security/headers.py:91-113 | Apart from what its nonce brings, a serialized policy holds no control character |
| `Csp.NonceNeededExactly` | src/litestar_security/headers.py:104-106 | Serialization without a nonce is refused exactly when there are nonce directives |
| `Csp.BuildExactly` | src/litestar_security/headers.py:56-78 | Construction succeeds exactly on valid directives, sources and configured nonce directives, and yields them sorted and deduplicated |
| `Csp.DirectiveTokenMeans` | src/litestar_security/headers.py:21 | A directive name is a lower-case ASCII letter followed by such letters, digits and hyphens |
| `Csp.BuildFaultsExactly` | src/litestar_security/headers.py:56-78 | Construction reports the first bad directive, by its name or else its first bad source, or else a nonce directive that is not configured |
| `Csp.BeforeMeans` | src/litestar_security/headers.py:77 | Directives are sorted by code point |
| `Csp.DedupeInOrder` | src/litestar_security/headers.py:65-70 | Deduplicated sources keep the order of first occurrence |
| `Csp.Construct` | src/litestar_security/headers.py:56-78 | The constructor's loops, with the first fault they meet |
| `Csp.SerializePolicy` | src/litestar_security/headers.py:91-113 | The serialization loop |
| `VerifierCache.DynamicVerifierCache.GetOrCreate` | src/litestar_security/providers/_internal.py:39-50 | After any access trace the cache holds the last `maximum` distinct routes in recency order with their latest material; a call hits exactly when route and material are held, and returns the prepared verifier |
| `VerifierCache.RecencyIsByLastUse` | src/litestar_security/providers/_internal.py:39-50 | The recency list of a trace has exactly the accessed routes, once each, by their latest access |
| `VerifierCache.TouchNewest` | src/litestar_security/providers/_internal.py:43-49 | Evicting beyond the bound commutes with touching: the bounded cache is always the newest part of the unbounded one |
| `VerifierCache.DynamicVerifierCache.Evict` | src/litestar_security/providers/_internal.py:48-49 | The eviction loop keeps exactly the newest routes |

## Left out

- Session records and the epoch comparison when one is presented, login methods, linked providers, recovery codes, step-up grants and API keys: other tables of the reference stores with the same one-table idioms.
- Durable events and notifications written beside a store operation: they are appended and never read back by it.
- Configuration validation in constructors and text normalization (stripping, casing, length limits): its conclusions are preconditions or parameters.
- `RefreshTokenService`, the WebSocket supervisor and the session services around the stores: commands are arbitrary inputs here, so every caller is covered, but what the services themselves put into a command is not.
- Litestar plumbing, route policy inheritance, CLI, schema and release tooling: they wrap libraries that are not part of this model.
- Argon2, AES-GCM, HMAC, SHA-256, PyOTP and py-webauthn: function parameters or arbitrary answers.
- Service coroutines as methods: `complete_mfa_login`, `verify_totp`, `verify_authentication` and the lock-polling loop are step relations, because interleaving between their awaits is what the theorems are about; the polling delay is not timed.
- The WebAuthn challenge store: an assertion may start from any load, which covers more runs than the ceremony allows.
- Purpose tokens that are not strings, and surrogate code points: Dafny strings hold Unicode scalar values.
- A coroutine that fails or is cancelled between the limiter's get and set: the lock is released and buckets already charged stay charged; the step machine lets every holder finish.
- Floating-point clocks: the limiter's clock is a real number, other clocks are integer microseconds.
- Bucket names: the store is keyed by the tuple a bucket's name is computed from. When two operations' names coincide is proved apart (`RateLimitSpec.BucketNamesCollideExactly`); collisions of SHA-256 are not modelled.
- CSP modes and the other response headers: fixed header names and values.
