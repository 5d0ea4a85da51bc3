# Vault Gateway: a verified model

Vault Gateway answers Vault-shaped HTTP requests from cloud secret stores. A pod logs in with
its service-account token, gets a short-lived client token, and reads secrets by path; reads go
through an in-memory cache. `vault-inject` runs in the pod and turns `vault:` references in its
environment into secrets. This project models that core in Dafny and proves what it promises
over every run, every interleaving and every input.

`dafny verify dfyconfig.toml` checks everything.

## How the model is laid out

- `CacheSpec`, `CacheHits`, `LruInclusion`: the cache as functions on a list of slots, most recently
  used first; invariants, what hits and when, and inclusion, over whole runs.
- `LinkedList`, `CacheImpl`: the cache as it is built, a map and a ring of linked nodes, proved to
  compute exactly those functions.
- `CacheAside`, `AsideHits`: lookup, fetch and store by any number of readers, interleaved at will;
  what they return, and when they need no fetch.
- `AwsBackend`, `AzureNaming`, `AzureBackend`, `AzureAccess`: the backend reads, who owns the maps
  they return, what the Azure names preserve, and when authorization by path protects a name.
- `TokenSpec`, `TokenHistory`, `TokenStore`: the token store as functions, its runs, and as built.
- `Strings`, `PathGlob`, `PathPatterns`, `SecretPath`, `ServiceAccounts`, `Rbac`: paths, patterns,
  usernames, roles.
- `Gateway`, `Handlers`, `QuotaIsolation`: login and read as one state machine over all of the
  above, the handlers as they run, and quotas account by account.
- `EnvResolver`, `EnvFetches`, `EnvNames`, `EnvValues`, `Retry`: `vault-inject`, the remote reads it
  makes, and the variables and values the application ends up with.

Conventions. Time is an integer, a clock reading is a parameter of the step that takes it, and
nothing is assumed about successive readings unless a lemma says so. A method that holds a lock
from start to end is one step. The random source, the token validator and the secret stores are
parameters. Strings are byte strings, one character per byte. A Go map is a `SecretMap` object
where sharing matters and a `map` value elsewhere.

Where code and documentation differ, the model follows the code:

- `**` takes at least one segment; docs/authentication.md:172 says any number.
- A `*` in a role's namespaces is an ordinary name; docs/authentication.md:117 calls it a wildcard.
- Three attempts pause twice, 0.5 s and 1 s; the source's README.md:117 lists a third pause of 2 s.
- Only the read handler validates paths; internal/secretpath/secretpath.go:15-17 says every backend
  does so too.
- A path can be fetched twice, although the comment at cmd/vault-inject/main.go:200 says at most
  once: exactly when missing secrets are skipped and two references name a path that cannot be
  read (`EnvFetches.FetchedTwiceExactly`, `EnvFetches.FailingPathIsFetchedTwice`).
- The application can see `VAULT_*` variables, although the source's README.md:420 says never:
  exactly when the environment sets one outside the list of nineteen, or a secret injected whole
  has such a key (`EnvNames.VaultNamesHiddenExactly`, with one input for each half in
  `EnvNames.UnlistedVaultVarIsSeen` and `EnvNames.InjectedVaultVarIsSeen`).

## Model

| member | source | states |
|---|---|---|
| CacheSpec.RunInv | internal/cache/cache.go:80-176 | after any sequence of operations paths are distinct, the size is within the bound, negative entries hold no value |
| CacheSpec.StoreEvictsOnlyTheLast | internal/cache/cache.go:118-132 | a store puts the written entry first and costs at most one entry, the last, and only for a new path in a full cache |
| CacheSpec.LookupExactly | internal/cache/cache.go:80-100 | a lookup in full, by position: a miss that changes nothing when disabled or absent, removal and a miss past the expiry, and otherwise a hit with what the slot holds, which moves to the front |
| CacheSpec.StoredThenFound | internal/cache/cache.go:103-132 | what is stored is found by every lookup until its lifetime is over; without a lifetime nothing is stored |
| CacheSpec.RunSortedByTouch | internal/cache/cache.go:80-132 | in every reachable state list order is the order of last touches in the history, so the evicted entry is the least recently touched |
| CacheSpec.EvictionNeedsCrowd | internal/cache/cache.go:158-171 | an entry is evicted only after as many other paths were touched since as the cache can hold |
| CacheSpec.TouchedPathIsRetained | internal/cache/cache.go:80-176 | a touched path stays cached, unless removed or found expired, while fewer other paths than the bound have been touched |
| CacheHits.HitIsStandingWrite | internal/cache/cache.go:80-149 | a hit after any run answers what the last write of the path stored, not invalidated, flushed or overwritten since, within its TTL |
| CacheHits.StandingWriteHits | internal/cache/cache.go:80-176 | the converse: while the last write of a path stands, was looked up in time, and fewer other paths than the bound were touched since some touch of it, a lookup within its TTL answers exactly what was written |
| LruInclusion.RunIncluded | internal/cache/cache.go:80-176 | after any common run the smaller of two caches is a subsequence of the larger, with a surplus within the difference of the bounds |
| LruInclusion.LargerCacheHitsMore | internal/cache/cache.go:80-176 | every entry of the smaller cache is in the larger with the same value, polarity and expiry, and every hit of the smaller is the same hit of the larger |
| LinkedList.List.PushFront | internal/cache/cache.go:129 | a new node is linked at the front and the ring stays well linked |
| LinkedList.List.MoveToFront | internal/cache/cache.go:94 | a node moves to the front, the others keep their order |
| LinkedList.List.Remove | internal/cache/cache.go:173-176 | exactly the given node leaves the ring |
| LinkedList.List.Back | internal/cache/cache.go:160-163 | the last node, or nil for an empty list |
| LinkedList.List.Init | internal/cache/cache.go:148 | the list is empty afterwards |
| CacheImpl.CloneMap | internal/cache/cache.go:178-187 | an equal, newly allocated map whatever the iteration order; nil for nil |
| CacheImpl.Cache.constructor | internal/cache/cache.go:64-74 | an empty, consistent cache with the given configuration, a non-positive bound replaced by 10000 |
| CacheImpl.Cache.SlotAt | internal/cache/cache.go:42-56 | map and list are in step: every path in the map has its own node, at the position of its slot |
| CacheImpl.Cache.Get | internal/cache/cache.go:80-100 | refines the abstract lookup: expiry removes, a hit moves to the front, and the map returned is a fresh copy |
| CacheImpl.Cache.Set | internal/cache/cache.go:103-108 | refines the abstract store of a copy; stores nothing when disabled or without a TTL |
| CacheImpl.Cache.SetNegative | internal/cache/cache.go:111-116 | refines the abstract store of a not-found entry |
| CacheImpl.Cache.StoreLocked | internal/cache/cache.go:118-132 | overwrite or insert, then evict, is the abstract store |
| CacheImpl.Cache.EvictLocked | internal/cache/cache.go:158-171 | drops from the back down to the bound; the nil branch and the stale-node branch cannot be reached |
| CacheImpl.Cache.RemoveLocked | internal/cache/cache.go:173-176 | removes exactly that path from map and list together |
| CacheImpl.Cache.Invalidate | internal/cache/cache.go:135-141 | removes exactly that path, or nothing |
| CacheImpl.Cache.Flush | internal/cache/cache.go:144-149 | empty, consistent and usable afterwards |
| CacheImpl.Cache.Len | internal/cache/cache.go:152-156 | the number of slots |
| CacheAside.CacheRunsItsOps | internal/backend/aws/backend.go:135-166 | under every interleaving the cache is a run of its own operations, so all cache results hold in the protocol |
| CacheAside.HitIsARecentFetch | internal/backend/aws/backend.go:135-166 | a hit is answered by a completed fetch of that same id, the last one stored and still standing, at most the TTL earlier (negative TTL for not-found); never by an error or an uncached not-found |
| CacheAside.DoneFromFetch | internal/backend/aws/backend.go:135-166 | whatever a reader returns is the answer of a completed fetch of that id, made by the reader itself after its lookup or written to the cache by its fetcher at most the TTL before it and not replaced or removed since |
| AsideHits.LiveAnswerIsServed | internal/backend/aws/backend.go:135-166 | under every interleaving, a lookup of an id while an answer stored for it stands, within its lifetime and not crowded out, is done at once with that answer and without a fetch |
| CacheAside.CachingIsTransparent | internal/backend/aws/backend.go:135-166 | over an unchanging backend every reader gets the uncached answer |
| AwsBackend.AwsBackend.GetSecret | internal/backend/aws/backend.go:135-166 | one reader's run of the protocol with the client asked for prefix+path; on a miss a failure gives unavailable and stores nothing, not-found and a secret's pairs are returned and found again for their lifetimes; the map returned is fresh and not one the cache holds |
| AwsBackend.ClearMap | internal/api/secrets.go:123-128 | the map is empty afterwards, whatever the iteration order |
| TokenSpec.IssueExactIffFresh | internal/auth/token_store.go:72-98 | a successful issue keeps the counters exact if and only if the token drawn was not stored already |
| TokenSpec.DeleteIsPurge | internal/auth/token_store.go:142-164 | deleting entries one by one, in any order, reduces every counter by exactly its share |
| TokenSpec.PurgeKeeps | internal/auth/token_store.go:133-164 | removing any set of tokens keeps the counter bounds, and keeps exact counters exact |
| TokenSpec.CountsSumUp | internal/auth/token_store.go:46-53 | counters that are no lower than what is stored bound the number of tokens by their sum; exact ones sum up to it |
| TokenSpec.RunBounded | internal/auth/token_store.go:72-164 | after any run, whatever the random source returns, no counter is below what is stored or above the quota |
| TokenSpec.QuotaHolds | internal/auth/token_store.go:85-87 | a positive quota is never exceeded |
| TokenSpec.RunExact | internal/auth/token_store.go:72-164 | with fresh tokens every counter is the number of stored tokens, absent meaning zero, after any run |
| TokenSpec.RefusedExactlyAtQuota | internal/auth/token_store.go:85-87 | with fresh tokens an issue is refused for quota exactly when quota-many tokens are stored |
| TokenHistory.VerifyIsHistory | internal/auth/token_store.go:103-116 | a token verifies to an identity if and only if the run issued it to that identity, nothing since took it away, and the TTL has not passed; no assumption on clock or randomness |
| TokenHistory.VerifyIsHistoryMonotone | internal/auth/token_store.go:103-116 | if no sweep read a later clock, the condition is: issued, not revoked or reissued, within the TTL |
| TokenHistory.BackwardClockForgets | internal/auth/token_store.go:142-154 | a concrete run in which a clock that goes back makes a live token fail |
| TokenHistory.SweepsAreInvisible | internal/auth/token_store.go:142-154 | runs that differ only in sweeps, with the same issues succeeding, answer every verification alike |
| TokenStore.TokenStore.constructor | internal/auth/token_store.go:57-64 | an empty store with exact counters |
| TokenStore.TokenStore.IssueToken | internal/auth/token_store.go:72-98 | refines the abstract issue, including quota refusal and random failure |
| TokenStore.TokenStore.VerifyToken | internal/auth/token_store.go:103-130 | refines the abstract verification and changes nothing |
| TokenStore.TokenStore.DeleteLocked | internal/auth/token_store.go:156-164 | removes the entry and decrements or drops its counter |
| TokenStore.TokenStore.RevokeToken | internal/auth/token_store.go:133-139 | refines the abstract revocation; unknown tokens change nothing |
| TokenStore.TokenStore.CleanupExpired | internal/auth/token_store.go:142-154 | removes exactly the expired tokens and returns their number, in any iteration order |
| TokenStore.TokenStore.TokenCount | internal/auth/token_store.go:168-172 | the number of stored tokens, at most the sum of all counters and equal to it when they are exact |
| PathGlob.MatchSegments | internal/auth/rbac.go:118-143 | true if and only if the segments can be cut into one piece per pattern segment, a literal taking itself, `*` one, `**` one or more; terminates |
| PathGlob.MatchesMeansCut | internal/auth/rbac.go:118-143 | the recursive meaning used elsewhere is the existence of such a cut |
| PathGlob.MatchPath | internal/auth/rbac.go:112-116 | the matcher on both strings without surrounding slashes |
| PathGlob.MatchConcat | internal/auth/rbac.go:118-143 | a concatenated pattern matches exactly the concatenations of matches |
| PathGlob.GeneraliseNeverShrinks | internal/auth/rbac.go:118-143 | turning literals into `*` or `**`, or `*` into `**`, never loses a path |
| PathGlob.ReplaceInContext | internal/auth/rbac.go:118-143 | a part of a pattern may be replaced by one that accepts at least as much |
| PathGlob.StarsCommute | internal/auth/rbac.go:118-143 | `*/**` and `**/*` are equivalent anywhere in a pattern |
| PathGlob.MatchLength | internal/auth/rbac.go:118-143 | a match has at least one path segment per pattern segment, exactly one without `**` |
| PathGlob.LiteralMatch | internal/auth/rbac.go:118-143 | a pattern without stars matches exactly itself |
| PathPatterns.RecursivePattern | internal/auth/rbac.go:103-116 | `p/**` matches exactly the paths that begin with `p/` |
| PathPatterns.OneLevelPattern | internal/auth/rbac.go:103-116 | `p/*` matches exactly the paths one segment below `p` |
| PathPatterns.StarMatches | internal/auth/rbac.go:103-116 | `*` matches exactly the paths of one segment |
| PathPatterns.EverythingPattern | internal/auth/rbac.go:103-116 | `**` matches every path |
| PathPatterns.PathAsPattern | internal/auth/rbac.go:103-116 | a well-formed path, as a pattern, matches itself and no other |
| PathPatterns.EdgeSlashesIgnored | internal/auth/rbac.go:113-114 | slashes at the ends of pattern or path make no difference |
| Strings.TrimExactly | internal/auth/rbac.go:113-114 | trimming takes off that character at both ends, nothing else, and leaves none there |
| Rbac.BindingExactly | internal/auth/rbac.go:45-57 | a binding is allowed if and only if the role exists, one of its namespaces is the identity's, and one of its accounts is the identity's or `*` |
| Rbac.Contains | internal/auth/rbac.go:83-90 | true if and only if some position of the list holds the value |
| Rbac.ContainsSA | internal/auth/rbac.go:94-101 | true if and only if some position holds the account or `*` |
| Rbac.CheckBinding | internal/auth/rbac.go:45-57 | the binding check as it runs: true exactly for a listed namespace and a listed account or `*` |
| Rbac.CheckAccess | internal/auth/rbac.go:61-101 | true exactly for an identity that the role's lists bind, with one of the role's patterns for the path |
| SecretPath.Validate | internal/secretpath/secretpath.go:62-103 | accepts exactly 1 to 256 characters, given by code, with no empty, `.` or `..` segment; every refusal names a fault the path has |
| SecretPath.EdgeSlash | internal/secretpath/secretpath.go:69-74 | a slash at either end already makes an empty segment |
| SecretPath.AcceptedPathIsItsSegments | internal/auth/rbac.go:112-116 | on accepted paths all trimming is the identity and the joined segments are the string the backend gets |
| ServiceAccounts.ParseExactly | internal/auth/validator.go:146-157 | parsing yields (ns, sa) if and only if the username is the prefix, a non-empty colon-free ns, a colon and a non-empty sa |
| ServiceAccounts.RefusedExactly | internal/auth/validator.go:146-157 | refusal happens exactly when no such pair exists |
| ServiceAccounts.KeyRestoresUsername | internal/auth/token_store.go:67-69 | prefix plus quota key is the username that was parsed |
| ServiceAccounts.SharedCounter | internal/auth/token_store.go:67-69 | authenticated identities share a counter if and only if namespace and account agree |
| Gateway.TokensRun | internal/api/auth.go:61-86 | the gateway's token store is the store's own run, event by event |
| Gateway.AsideRun | internal/api/secrets.go:60-81 | the gateway's cache and backend reads are the cache-aside protocol's own run, event by event |
| Gateway.StoredIdentityIsBound | internal/auth/rbac.go:61-74 | every stored identity is bound by the lists of its role, so the recheck never fails and access depends on the path patterns alone |
| Gateway.AdmittedExactly | internal/api/secrets.go:37-58 | a read is admitted if and only if its path is well formed and a login of the run, still standing and within its role's TTL, came from a namespace and account the role lists, and the role lists a pattern for the path |
| Gateway.EverySecretIsEntitled | internal/api/secrets.go:33-104 | every 200 has an earlier login that returned that token within the TTL, from a namespace and an account that the role lists, a listed pattern for the path, and data that the secret store answered for that very path: to this request after its own lookup, which follows its admission, or to the reader that last wrote it to the cache, at most the TTL before that lookup |
| Gateway.ResponseFromFetch | internal/api/secrets.go:60-98 | every answer is what the secret store replied to a fetch of the request's own id, 200 with the data, 404 or one of two 502s by kind of reply: by its own reader after its own lookup, or by the reader that wrote that very answer to the cache at most the TTL before the lookup, the last to write that id |
| Gateway.GatewayIsTransparent | internal/api/secrets.go:60-98 | with an unchanging secret store every admitted read is answered as without a cache |
| Gateway.RefusalsIgnoreSecrets | internal/api/secrets.go:37-58 | two runs with the same logins, reads, revocations and sweeps but any secrets and cache contents have the same tokens, login answers and refusals |
| Gateway.RefusalShape | internal/api/secrets.go:33-58 | 400 and 403 are given only at admission, 400 exactly for an ill-formed path, and change neither tokens nor cache |
| Gateway.LeaseIsHonoured | internal/api/auth.go:78-107 | unless revoked or reissued, the token verifies to the identity that logged in up to the TTL, the role's own if positive and else the default, sweeps notwithstanding, and to nothing afterwards; the announced lease is that TTL in whole seconds |
| QuotaIsolation.OwnRun | internal/auth/token_store.go:72-164 | with fresh tokens, what a quota key holds after any run is what a store of its own would hold that saw only its issues and every revocation and sweep |
| QuotaIsolation.OthersNeverRefuse | internal/auth/token_store.go:85-87 | with fresh tokens an issue succeeds or is refused as it would with no other identity in the store |
| QuotaIsolation.AccountQuota | internal/auth/token_store.go:67-87 | in every run of authenticated logins no namespace and service account hold more tokens than a positive quota |
| QuotaIsolation.LoginSucceedsExactly | internal/api/auth.go:37-114 | after any run with fresh tokens and authenticated logins, a login succeeds if and only if its fields are there, the role lists its namespace and account, randomness worked and its own account holds fewer tokens than the quota; what it hands out; every other login stores nothing and gets the 400 for its fault or the one 403 |
| QuotaIsolation.OtherAccountsNeverMatter | internal/api/auth.go:61-86 | two runs that agree on an account's logins, on revocations and on sweeps leave it the same tokens and answer its next login alike, whatever other accounts do |
| Handlers.Handlers.Login | internal/api/auth.go:37-114 | the handler's effects and answer are the login step |
| Handlers.Handlers.ReadSecret | internal/api/secrets.go:33-104 | a refused read touches nothing; an admitted one is one reader's run with all four answers of the backend, and wiping the map afterwards does not reach the cache |
| Handlers.ReadIsItsEvents | internal/api/secrets.go:33-104 | what ReadSecret does is what its five events do at the end of any run of the gateway: the same refusal, or the same answer and cache |
| AzureNaming.FlatRoundTrip | internal/backend/azure/naming.go:75-91 | encode then decode gives the canonical key, the key itself exactly when it has no `-` and no `/`; an empty key is not decoded |
| AzureNaming.FlatNameSpelled | internal/backend/azure/naming.go:46-77 | the name of a key is its path, two hyphens and itself, with `/` and `_` written as `-`, and no other |
| AzureNaming.FlatNameIsAllowed | internal/backend/azure/naming.go:22-46 | path and key in letters, digits, `-`, `_` and `/` have a name Key Vault allows |
| AzureNaming.ListedNameRestored | internal/backend/azure/naming.go:75-91 | re-encoding a decoded key gives back every name Key Vault allows |
| AzureNaming.FlatDecodeInjective | internal/backend/azure/naming.go:84-91 | under one path distinct listed names decode to distinct keys |
| AzureNaming.JsonRoundTripExactly | internal/backend/azure/naming.go:46-51 | a path can be read back from its name if and only if it has no `_` and no `-` right before `-` or `/` |
| AzureNaming.OnePlainPathPerName | internal/backend/azure/naming.go:96-98 | every path shares its name with exactly one such path |
| AzureNaming.JsonInjective | internal/backend/azure/naming.go:96-98 | such paths have distinct names |
| AzureNaming.CleanSegmentsArePlain | internal/backend/azure/naming.go:46-51 | paths whose segments have no `_`, no `--` and no hyphen at the end are such paths |
| AzureBackend.Assemble | internal/backend/azure/backend.go:170-190 | the loop computes the listing's result |
| AzureBackend.FailsExactly | internal/backend/azure/backend.go:180-188 | the listing fails if and only if the fetch of some belonging name breaks |
| AzureBackend.EntryFromName | internal/backend/azure/backend.go:172-190 | every entry comes from a belonging, present name |
| AzureBackend.NameHasEntry | internal/backend/azure/backend.go:172-190 | every belonging, present name has its entry with its value |
| AzureBackend.FlatListingLosesNothing | internal/backend/azure/backend.go:164-200 | one entry per belonging, present name, so the result is empty exactly when there is none |
| AzureBackend.FlatSecretReadBack | internal/backend/azure/backend.go:164-200 | a listing of the names, spelled out, of distinct keys without `-` and `/` is read as exactly those keys and values, whatever the path |
| AzureBackend.EmptyExactly | internal/backend/azure/backend.go:192-195 | the result is empty if and only if no belonging name is present |
| AzureBackend.UnderscoreNamesCollide | internal/backend/azure/naming.go:84-91 | outside the Key Vault alphabet two names can share a key |
| AzureBackend.AzureBackend.GetFlat | internal/backend/azure/backend.go:164-200 | a broken listing or fetch gives unavailable and stores nothing; a 404 on the listing is not-found, unstored; with nothing present not-found is found again for the negative TTL, and otherwise the gathered secret for the TTL |
| AzureBackend.AzureBackend.GetJson | internal/backend/azure/backend.go:203-223 | asks for the json name of the path; a 404 is not-found and found again as such, other errors give unavailable and store nothing, a decoded map, nil included, is returned and found again |
| AzureBackend.AzureBackend.GetSecret | internal/backend/azure/backend.go:144-160 | one reader's run of the protocol in either strategy, a 404 on the listing being not-found that is not cached; the map returned is not one the cache holds |
| AzureAccess.NameIsOwnExactly | internal/backend/azure/naming.go:96-98 | a well-formed path shares its json name with no other if and only if it has no `-`, no `_`, and no `/` unless it is 256 long |
| AzureAccess.BareIsShortest | internal/backend/azure/naming.go:96-98 | a path with the json name of one without `-` and `_` is longer than it or equal to it |
| AzureAccess.ReadableExactly | internal/api/secrets.go:37-60 | a Key Vault secret can be read exactly by those entitled to one of the well-formed paths that share its json name |
| AzureAccess.PathProtectsNameExactly | internal/api/secrets.go:37-60 | in every run of every gateway whoever can read the secret of a path is entitled to the path, if and only if the path has its json name to itself |
| AzureAccess.JsonSecretIsEntitled | internal/backend/azure/backend.go:203-223 | every 200 over an unchanging vault holds the content of the secret named after the path, the bearer was entitled to that path, and a path that owns the name is that path |
| AzureAccess.HyphensReachASlash | internal/backend/azure/naming.go:96-98 | `a--b` and `a/b` share a json name although `*` matches only the first |
| AzureAccess.FlatOverlapExactly | internal/backend/azure/naming.go:75-91 | two paths can have a listed name in common if and only if both prefixes are in Key Vault's alphabet and one begins with the other |
| AzureAccess.OneNameTwoPaths | internal/backend/azure/naming.go:84-91 | one listed name that belongs to two paths under different keys |
| EnvResolver.ResolveEnviron | cmd/vault-inject/main.go:192-296 | the first failure, or the resolved lines followed by one block per injected secret, its keys in some order; and the remote reads made, in order |
| EnvResolver.ResolveVars | cmd/vault-inject/main.go:217-271 | the environment loop is the first part of the abstract run |
| EnvResolver.InjectPath | cmd/vault-inject/main.go:274-293 | one listed path, after trimming, is one step of the abstract run |
| EnvResolver.Inject | cmd/vault-inject/main.go:289-292 | every key of the secret exactly once, in some order |
| EnvResolver.CachedFetch | cmd/vault-inject/main.go:203-213 | the memoised lookup; failures are not remembered, every remote read is recorded |
| EnvResolver.MemoIsInvisible | cmd/vault-inject/main.go:202-293 | for a consistent remote read the output equals that of a fresh read at every reference |
| EnvResolver.ResolutionFailsExactly | cmd/vault-inject/main.go:250-286 | for a consistent remote the run fails if and only if missing secrets are errors and some item needs an unreadable path or a missing key, and it reports the first such item |
| EnvResolver.OneSnapshotPerPath | cmd/vault-inject/main.go:202-213 | all references to a path that get data get the same secret even if the remote changes |
| EnvFetches.AtMostOneSuccess | cmd/vault-inject/main.go:203-213 | a call whose path is asked for again later failed, and every secret used is the answer of some call |
| EnvFetches.StrictFetchesOnce | cmd/vault-inject/main.go:250-257 | when missing secrets are errors no path is fetched twice |
| EnvFetches.LenientFetches | cmd/vault-inject/main.go:200-213 | for a consistent remote with missing secrets skipped, the number of reads of each path: one if it can be read, one per reference if not |
| EnvFetches.FetchedTwiceExactly | cmd/vault-inject/main.go:200-213 | for a consistent remote some path is read twice if and only if missing secrets are skipped and two items name one path that cannot be read |
| EnvFetches.FailingPathIsFetchedTwice | cmd/vault-inject/main.go:200-213 | a concrete input with a double fetch |
| EnvNames.LinesName | cmd/vault-inject/main.go:217-271 | for any property of names, the resolved lines set a variable with it exactly when an environment entry that is not stripped does, even over a changing remote |
| EnvNames.NoVaultVarSurvives | cmd/vault-inject/main.go:225-228 | no configuration variable is among the resolved variables |
| EnvNames.NameSetExactly | cmd/vault-inject/main.go:192-296 | for any property of names, a resolved environment sets a variable with it if and only if an unlisted environment entry does or a listed path that can be read has such a key |
| EnvNames.VaultNamesHiddenExactly | cmd/vault-inject/main.go:192-296 | the application sees no `VAULT_*` variable if and only if the environment sets none outside the stripped list and no injected secret has such a key; for the listed names the second condition alone decides |
| EnvNames.UnlistedVaultVarIsSeen | cmd/vault-inject/main.go:225-228 | `VAULT_FORMAT` reaches the application with no secret involved |
| EnvNames.InjectedVaultVarIsSeen | cmd/vault-inject/main.go:289-292 | an injected secret sets `VAULT_TOKEN` |
| EnvValues.StrippedExactly | cmd/vault-inject/main.go:218-228 | an entry is stripped if and only if it is a listed name, an equals sign and anything |
| EnvValues.ReferenceExactly | cmd/vault-inject/main.go:218-245 | an entry is a reference to path p and key q under name k if and only if it is `k=vault:p#q` with no `=` in k, no `#` in p and k not listed |
| EnvValues.TrimSpaceExactly | cmd/vault-inject/main.go:275 | trimming takes off white space at both ends and nothing else |
| EnvValues.ResolvedLineByLine | cmd/vault-inject/main.go:192-296 | for a consistent remote the result is, in order, what each entry contributes (nothing if stripped, `k=` and the value of key q at p for a reference that can be resolved, else the entry) and then the pairs of each listed path that can be read, each key once with its value |
| EnvValues.FailsWithTheFirst | cmd/vault-inject/main.go:250-287 | for a consistent remote the run fails if and only if missing secrets are errors and some entry or listed path cannot be resolved, and reports the path and error, or the missing key and path, of the first |
| Retry.WithRetry | cmd/vault-inject/main.go:345-363 | between 1 and maxAttempts calls; a success or an error text with `HTTP 4` in it ends them and nothing else does before the last; the last answer is returned; one pause between calls and none at the end |
| Retry.TotalSleepExactly | cmd/vault-inject/main.go:352-354 | n pauses last base times (2^n - 1) if and only if the longest fits in 64 bits, and less otherwise |

## Left out

- CacheImpl.Cache.WriteEntry: cache entries are values that are replaced in the map, not objects updated through a pointer; nothing but the map holds that pointer.
- SecretPath.Validate: characters are bytes; decoding to runes is not modelled, and every byte of a non-ASCII rune is refused just as the rune is.
- EnvResolver.TrimSpace: only ASCII white space is trimmed; the multi-byte Unicode spaces are not modelled.
- AwsBackend.AwsBackend.GetSecret: decoding of the secret string, as JSON or as a single value, is library behaviour; the decoded pairs are a parameter.
- ServiceAccounts.ParseUsername: the TokenReview call around it is foreign; its answer is a parameter of the login step.
- Handlers.Handlers.ReadSecret: runs one request alone, over the AWS backend; interleaving of requests is in Gateway and CacheAside, and Handlers.ReadIsItsEvents connects the two.
- GCP and Vault backends: the same cache-aside shape again.
- HTTP, TLS, headers, CORS, metrics, audit log, health endpoints, version: no state that the results above depend on.
- The per-address rate limiter: its decision is made by a library that is not part of the repository.
- Configuration loading and validation, and reading of the `VAULT_*` settings of vault-inject: flat branches.
- Context deadlines around fetches, process replacement, binary copying: input and output.
- Timing of the constant-time comparison and quality of randomness: not functional properties.
