# DeclarativeAuth: verified model

DeclarativeAuth is an identity provider whose users, groups and OIDC clients are declared in files and
served over OIDC and LDAP by any number of replicas that share one Postgres database. This project models
its decision logic in Dafny and proves, over all inputs and all runs, what that logic is for.

Twenty-six modules, one per file, follow the program's own structure.

- **Group graph.** `Reachability` defines one relation. `CycleDetection`, `Flattening` and `GroupDetails`
  are the three algorithms (colour-marking search, memoised closure with its inverse, breadth-first search),
  each proved to compute that relation, so that they agree with one another. `CustomAttributes` merges
  attribute sources. `IdentityLoad` puts them together into loading and hot reload, and
  `Lookups` answers the questions that login and LDAP ask of a loaded snapshot.
- **Token protocol.** `SigningKeys` interleaves the separate statements of every replica's key rotation and
  cache refresh; `TokenService` adds signed tokens and the pruned denylist on top of it. `Sessions` is
  refresh-token rotation with reuse detection, `AuthCodes` the authorization codes. Each keeps a record of
  what happened and proves that every later decision is a function of that record alone.
- **Brute force.** `Backoff` is the wrapping 64-bit arithmetic, `Lockouts` the counter machine and the
  two-dimension limiter on top of it.
- **LDAP.** `DistinguishedNames` prints and reads names, `Directory` selects entries, `Paging` slices them,
  `LdapConnection` is the connection loop.
- **Login.** `Words` and `Strength` are the password estimate, `MfaChallenges` the emailed one-time codes.

`Options`, `Tables`, `Integers`, `Hashing`, `StringOrder` and `Identity` hold what several modules share.

Code that changes variables, rows or fields is modelled as methods and classes, proved against functions on
values; the theorems about whole runs are lemmas about those functions. A run is a sequence of requests folded
over a step function, so a lemma about `After(run)` holds in every reachable state.

## Assumptions

- Hashes are collision free and signatures cannot be forged: digests are a datatype around the secret, a
  token exists only if it was signed, and the S256 transform is an arbitrary function parameter.
- Random codes, secrets, key ids, token ids and challenge ids are numbers that were not used before.
- Times are integer nanoseconds on one shared clock that never goes back. The database columns hold
  microseconds, so where a bound below says "plus" or "less one nanosecond", that is one tick of this clock, not a
  precision that the program has. In key rotation the database's `now()` is the start of the transaction, and a
  bound `lag` limits how long a transaction stays open.
- A database transaction is one step, except key rotation and the resend of an MFA code, whose statements
  are separate steps with anything in between.
- Iteration over a map happens in an arbitrary order.
- Case folding is an arbitrary choice of representatives that maps ASCII letters to lower case, so what is proved
  holds for the Unicode tables, whatever their version.

## What the code does where its comments or an expectation say otherwise

- **Rotation race** (internal/store/oidckeys.go:76-78). The comment says that the losing replicas see an
  up-to-date key. The locking read that waited finds its row no longer current and returns no row, so the
  loser goes on to insert a second current key, which the partial unique index refuses. The outcome, an
  unchanged table, is `LoserChangesNothing`.
- **Overlap.** The code checks no relation between its durations. One would expect an overlap of the 15-minute
  token lifetime plus the age a cache may reach to be enough; it is not, because `retire_at` counts from the
  start of the rotating transaction. `NeverStrandedIffWellTimed` gives the exact bound: token lifetime plus cache
  age plus `lag`, less one nanosecond. For every shorter overlap `ShortOverlapStrands` builds a history of the
  program that refuses a live token: one replica finds its key not due and pauses before it refreshes, another
  starts to rotate that key, the first reads it, the second commits, the first signs as late as its cache allows,
  and a replica that starts up in the token's last instant does not find the key. Likewise no key is accepted late
  exactly when the overlap is at least `lag` (`NeverLateIffOrderly`). The cache age is more than the five-minute
  tick (internal/server/run.go:437): a replica whose rotation fails, as a race loser's does, returns before it
  refreshes (internal/oidcserver/keys.go:193-195), so `delta` has to cover every tick that it can miss in a row. The
  default overlap of 24 hours (internal/config/env.go:234) leaves room for that.
- **Page sizes.** The size of a paged search is any int64, and adding it to the offset can wrap. Then the slice
  bounds are out of order and the program panics, which nothing recovers from. `SlicePage` states exactly when a
  page comes out, `PanicsExactly` which request of a session ends the program, and `ProbePanics` that the
  discovery search for the root DSE is among them on every server. Sizes in the range of section 2 of RFC 2696 are
  safe (`SmallSizesInRange`), and so is following the cookies with any size (`FetchAll`).
- **Attribute conflicts** (internal/identity/resolver.go:184-186). The comment says that a key is dropped when more
  than one source contributes it. A user who lists one group twice loses that group's direct attribute to a
  conflict with itself (`ListedTwiceDropped`, `ListedTwiceAlone`); `ResolvedExactly` gives the exact condition.
- **Skipped reloads.** A reload is skipped when the hash is unchanged, and the hash covers the files' bytes one
  after the other without a separator, so merging two files can change the declarations and still be skipped
  (`MergedFilesSkipped`). `HolderShowsLastAcceptable` says which load is held in every case.
- **Identifiers** (internal/identity/model.go:193-196). The comment says that flows can never disagree on which
  account an identifier means. `DeterminedExactly` shows when that holds: always, except for the empty
  identifier once two users have no email, where the answer depends on map iteration.
- **Wrap-around.** The shift-and-multiply is not always a capped doubling. `ExactIffWrapSafe` gives the exact
  condition, decidable from the parameters; `UnboundedBackoffDrops` shows parameters under which the backoff
  falls; `BoundIsWrapSafe` and `DefaultsAreWrapSafe` show that a simple bound, met by the defaults, suffices.
- **Dropped locks.** A lock can end before its deadline in two ways: a failure after the window restarts the
  counter, and a failure whose product wraps gets a shorter backoff than the one before it. The password-reset path
  records failures while a key is locked (internal/web/reset.go:165-169). `LocksHoldExactly`: every lock holds until
  its deadline or a reset if and only if the parameters are wrap-safe and the cap is at most the window plus one
  nanosecond.
- **Guess budget.** The five attempts belong to a challenge, not to a login: a resend starts a new budget
  (`ResendRestoresBudget`). What a login gets is five for each challenge that descends from it (`LoginBudget`), and
  for every number of resends some run uses all of them (`LoginBudgetAttained`).
- **Refresh by the wrong client** gets no tokens but spends the secret (`WrongClientSpendsSecret`); the session's
  lifetime becomes that of a refresh token, also for a browser session, which shares the table.
- **Names with commas or surrounding blanks** are listed but not found by their own name
  (`UserFoundByName`, `GroupFoundByName`: found exactly when the name is plain).
- **A failed or anonymous bind** leaves the earlier identity of the connection in place
  (`OthersKeepIdentity`).
- **Introspection** is stricter than rotation by one instant: at exactly the expiry time a refresh is still
  accepted and introspection already says inactive (`IntrospectionMatchesRecord`).

## Model

| member | source | states |
|---|---|---|
| CycleDetection.DetectCycle | internal/identity/resolver.go:33-75 | terminates on every finite graph, dangling names included; answers "no cycle" exactly when the graph is acyclic; otherwise the path follows membership edges and its last name occurs earlier in it |
| CycleDetection.Search.Visit | internal/identity/resolver.go:38-59 | without a cycle the name ends black, the path is as before, and finishing order stays topological; a reported path is a real cycle report |
| CycleDetection.Search.VisitParents | internal/identity/resolver.go:48-55 | without a cycle every parent is finished before the name is |
| CycleDetection.Search.Enter | internal/identity/resolver.go:46-47 | marking gray keeps "gray names are exactly the path" and shrinks the set of unseen names |
| CycleDetection.Search.Leave | internal/identity/resolver.go:56-57 | marking black keeps "black names are exactly the finished ones, in topological order" |
| CycleDetection.ReportMeansCyclic | internal/identity/resolver.go:42-44 | a path whose last name occurs earlier proves the graph cyclic |
| CycleDetection.FinishedMeansAcyclic | internal/identity/resolver.go:67-74 | if every group finished in topological order, no chain returns to its start |
| Reachability.ReachSetShrinks | internal/identity/resolver.go:120-124 | on an acyclic graph reach sets shrink strictly along each edge, so the closure recursion terminates |
| Reachability.ReachSetUnfold | internal/identity/resolver.go:118-125 | reaching is being the name itself or reaching through a direct parent |
| Flattening.CheckReferences | internal/identity/resolver.go:89-105 | passes exactly when every listed group exists; a report names a declaration that really lists a missing group |
| Flattening.Closures.ClosureOf | internal/identity/resolver.go:113-128 | whatever the memo table already holds, the result is exactly the set of reachable names and the table stays correct |
| Flattening.ResolveFlattenedMemberOf | internal/identity/resolver.go:110-155 | every user's list is strictly sorted and holds exactly the groups reachable from the direct ones |
| Flattening.AppendToAll | internal/identity/resolver.go:272-274 | the user is appended to the list of each of the user's groups and to no other |
| Flattening.InverseStep | internal/identity/resolver.go:271-275 | handling users in name order keeps each group's list strictly sorted and exactly inverse for the users handled |
| Flattening.ResolveFlattenedMembers | internal/identity/resolver.go:263-277 | the result is the exact inverse: a user is in a group's list if and only if the group is in the user's, sorted, with no empty list |
| GroupDetails.Expand | internal/admin/groupdetails.go:119-128 | records exactly the unvisited successors, each with the current path plus one step, and stops early only at the target |
| GroupDetails.SearchStep | internal/admin/groupdetails.go:116-129 | processing the queue head keeps the search invariant: distances in the queue are sorted and differ by at most one |
| GroupDetails.NoShorterPath | internal/admin/groupdetails.go:106-108 | once everything nearer is processed, no path is shorter than the recorded one |
| GroupDetails.SearchComplete | internal/admin/groupdetails.go:116-129 | with an empty queue exactly the reachable names are recorded, each with a path of minimum length |
| GroupDetails.BfsPaths | internal/admin/groupdetails.go:111-132 | lists exactly the names other than the start that it reaches, strictly sorted, each with a shortest path |
| GroupDetails.Seed | internal/admin/groupdetails.go:140-153 | answers at once exactly when the target is a source; otherwise every source is queued and the search invariant holds |
| GroupDetails.FirstHitShortest | internal/admin/groupdetails.go:163-167 | the first path that hits the target is shortest over all sources |
| GroupDetails.ShortestPath | internal/admin/groupdetails.go:139-172 | nothing exactly when no source reaches the target; otherwise a path of minimum length over all sources |
| GroupDetails.AddChild | internal/admin/groupdetails.go:49-51 | adds exactly the edges from each parent to the group |
| GroupDetails.ChildGraph | internal/admin/groupdetails.go:47-52 | the child graph has exactly the membership edges, reversed |
| GroupDetails.UsersPanel | internal/admin/groupdetails.go:63-69 | lists exactly the users in the group, strictly sorted, each with a shortest chain from the user to the group |
| GroupDetails.ReversedListing | internal/admin/groupdetails.go:75-84 | reversing the paths found going down gives exactly the nested groups with shortest chains that end at this group |
| GroupDetails.ReversedPaths | internal/admin/groupdetails.go:94-104 | every path is reversed, names and order are kept |
| GroupDetails.ComputeGroupDetails | internal/admin/groupdetails.go:44-89 | one detail per group with exact users, subgroups and super-groups, all by shortest chains |
| GroupDetails.PanelAgreesWithFlattenedMembers | internal/admin/groupdetails.go:63-69 | the panel built from shortest chains and the member list built from closure and inverse name the same users in the same order |
| CustomAttributes.AddContribution | internal/identity/resolver.go:210-219 | every key of the contributor gets one more contribution at the end, other keys are untouched |
| CustomAttributes.ContributedExactly | internal/identity/resolver.go:221-234 | how often each contribution comes in: once from the user's own field, once for each listing of a group the user is in or lists, from that group's field, and from nowhere else |
| CustomAttributes.Collect | internal/identity/resolver.go:221-234 | the table holds exactly the contributions of all sources, in source order |
| CustomAttributes.Settle | internal/identity/resolver.go:242-255 | a key with one contribution takes its values, a key with several is dropped and reported once with all its sources |
| CustomAttributes.MergeUser | internal/identity/resolver.go:207-259 | adds one user's outcome and leaves every other user's attributes and messages as they were |
| CustomAttributes.GroupView | internal/identity/resolver.go:193-198 | a group has resolved attributes exactly when it declares some, and they are its own |
| CustomAttributes.ResolveCustomAttributes | internal/identity/resolver.go:192-261 | for every user and key: resolved from its sole contribution, or dropped with exactly one conflict naming every source, or not contributed at all; never both |
| CustomAttributes.SoleExactly | internal/identity/resolver.go:243-255 | exactly one contribution comes in if and only if one source has the key and, if it is a listed group, the user lists it once |
| CustomAttributes.ResolvedExactly | internal/identity/resolver.go:242-255 | after a load, for every user and key: resolved, with the source's values, if and only if that sole source exists; dropped with a conflict if and only if the key is contributed otherwise |
| CustomAttributes.ListedTwiceDropped | internal/identity/resolver.go:228-234 | in every merge a user who lists a group more than once has none of that group's direct attributes resolved, and a conflict for each |
| CustomAttributes.ListedTwiceAlone | internal/identity/resolver.go:180-186 | such a group can be the only source of the key, so that one source is enough for a conflict |
| IdentityLoad.Assemble | internal/config/loader.go:62-189 | succeeds exactly on well-formed declarations (names present and unique, emails unique, clients complete) and yields the declared maps |
| IdentityLoad.Admit | internal/config/loader.go:82-182 | one declaration is taken in exactly when it may follow those before it, and then the maps are those of the longer list |
| IdentityLoad.WellDeclaredExactly | internal/config/loader.go:82-182 | a directory is well formed exactly when every declaration is complete in itself and any two are compatible, so the order of the files does not matter |
| IdentityLoad.DeclaredExactly | internal/config/loader.go:101-181 | the maps of a well-formed directory hold exactly its declarations |
| IdentityLoad.LoadIdentity | internal/config/loader.go:50-213 | loads exactly the acceptable directories, and every loaded snapshot has names that are not empty, resolved references, an acyclic graph, exact memberships and inverse, unique emails and settled attributes |
| IdentityLoad.EmailsUnique | internal/config/loader.go:124-129 | no two users of a well-formed directory share a non-empty email |
| IdentityLoad.NamesPresent | internal/config/loader.go:83-120 | no user or group of a well-formed directory has an empty name |
| IdentityLoad.MembershipStaysDeclared | internal/config/loader.go:191-206 | every group in a user's flattened list is declared |
| IdentityLoad.Watcher.constructor | internal/config/watcher.go:51-68 | starts with no snapshot |
| IdentityLoad.Watcher.LoadInitial | internal/config/watcher.go:51-68 | installs the snapshot exactly when the directory is acceptable |
| IdentityLoad.Watcher.Reload | internal/config/watcher.go:176-193 | replaces the snapshot exactly when the new directory is acceptable and its hashed bytes differ; otherwise keeps the last good one |
| IdentityLoad.Watcher.Run | internal/config/watcher.go:176-193 | every snapshot shown after any sequence of good and bad reloads is valid |
| IdentityLoad.HolderShowsLastAcceptable | internal/config/watcher.go:176-193 | after any sequence of reloads the holder shows the bytes of the latest acceptable load, and exactly the first of the acceptable loads in a row that have those bytes |
| IdentityLoad.MergedFilesSkipped | internal/config/loader.go:188-211 | for every decoder that reads a comment sign so: two files and their merger have the same bytes and different groups, both load, and the second is skipped after the first |
| Lookups.IsMemberOf | internal/identity/model.go:150-157 | on a loaded snapshot the scan answers exactly whether a chain of memberships leads from the user to the group |
| Lookups.MFARequiredByDeclaration | internal/identity/model.go:165-175 | on a loaded snapshot true exactly when the user's own setting or some group reachable by a membership chain asks for a second factor |
| Lookups.UsernameForEmail | internal/identity/model.go:180-187 | some user with that email, or nothing exactly when no user has it |
| Lookups.ResolveIdentifier | internal/identity/model.go:197-205 | a username stands for itself, anything else for a user with that email, if there is one |
| Lookups.DeterminedExactly | internal/identity/model.go:189-205 | on a loaded snapshot the answer is independent of map order if and only if the identifier is not empty or at most one user has no email |
| Lookups.EmailMeansOwner | internal/identity/model.go:189-205 | an email that is nobody's username stands for its owner and for no one else |
| Backoff.BackoffAt | internal/store/lockouts.go:99-111 | at every count past the threshold the wrapped result is the capped doubling, unless the product leaves 63 bits and wraps to a positive value below the cap |
| Backoff.ExactIffWrapSafe | internal/store/lockouts.go:106-109 | the code equals the capped doubling over unbounded integers at every count if and only if none of 64 products wraps to a positive value below the cap |
| Backoff.BoundIsWrapSafe | internal/store/lockouts.go:106-109 | if the base is m times a power of two and m times the cap is below 2^63, no product wraps that way |
| Backoff.DefaultsAreWrapSafe | internal/config/env.go:266-276 | one second doubling up to fifteen minutes meets the condition, whatever the threshold |
| Backoff.BackoffMonotone | internal/store/lockouts.go:99-111 | under the condition the backoff is positive, never decreases with the count, and never exceeds the cap |
| Backoff.UnboundedBackoffDrops | internal/store/lockouts.go:106-109 | a base of 2^20 + 1 ns under a 24 h cap falls from the cap to 2^44 ns between two counts |
| Lockouts.LockoutStore.constructor | internal/store/lockouts.go:43-45 | no key has a row |
| Lockouts.LockoutStore.IsLocked | internal/store/lockouts.go:27-38 | true exactly when the key has a deadline still ahead |
| Lockouts.LockoutStore.RecordFailure | internal/store/lockouts.go:43-82 | the key's row becomes the row after one more failure; no other row changes |
| Lockouts.LockoutStore.Reset | internal/store/lockouts.go:85-88 | the key's row is gone; no other row changes |
| Lockouts.CounterIsRunLength | internal/store/lockouts.go:55-64 | the counter is the length of the longest run of failures that ends the history without a reset or a gap longer than the window |
| Lockouts.LockedNeedsRun | internal/store/lockouts.go:66-70 | with any parameters, a locked key has more than threshold failures in such a run, and the threshold is positive |
| Lockouts.LockedExactly | internal/store/lockouts.go:66-70 | with any parameters, a key is locked exactly when the code's backoff for the longest run of failures that ends the history has not elapsed |
| Lockouts.LockedByDoubling | internal/store/lockouts.go:66-70 | with wrap-safe parameters, exactly when some such run is longer than the threshold and its capped doubling has not elapsed |
| Lockouts.LockCarriesBackoff | internal/store/lockouts.go:66-77 | the stored deadline is the last failure plus the backoff of the counter |
| Lockouts.FailuresExtendLock | internal/store/lockouts.go:43-82 | with wrap-safe parameters and a window that covers the cap, failures before the deadline never move it earlier |
| Lockouts.ShortWindowDropsLock | internal/store/lockouts.go:61-63 | when the window is shorter than the cap, sixty-five failures past the threshold and one late failure lose the lock before the deadline |
| Lockouts.WrapDropsLock | internal/store/lockouts.go:106-109 | when some product wraps to a positive value below the cap, one failure more at the same moment cuts a lock from the cap to that value |
| Lockouts.LocksHoldExactly | internal/store/lockouts.go:43-82 | on every run a lock holds until its deadline or a reset, if and only if the parameters are wrap-safe and the cap is at most the window plus one nanosecond, or the window is negative and nothing locks |
| Lockouts.GuessesBounded | internal/store/lockouts.go:26-82 | the guesses of one key that fit into a time without a success: threshold plus one for each window begun, and one for each shortest backoff |
| Lockouts.KeysDistinct | internal/auth/ratelimit.go:35-36 | user and address keys never collide and are injective |
| Lockouts.RateLimiter.constructor | internal/auth/ratelimit.go:21-33 | the limiter keeps its parameters and store |
| Lockouts.RateLimiter.IsLocked | internal/auth/ratelimit.go:41-52 | locked exactly when an enabled dimension with a non-empty key is |
| Lockouts.RateLimiter.RecordFailure | internal/auth/ratelimit.go:55-67 | one failure is recorded in each enabled dimension and nowhere else |
| Lockouts.RateLimiter.RecordSuccess | internal/auth/ratelimit.go:70-82 | each enabled dimension is cleared and nothing else |
| Lockouts.DimensionsIndependent | internal/auth/ratelimit.go:38-82 | under any mix of attempts a user's row depends only on that user's attempts and an address's row only on that address's |
| Lockouts.GuardedPerUser | internal/auth/authenticate.go:63-71 | what the two-dimension check lets through is, for each user by itself, let through by that user's lock |
| Lockouts.UserGuessesBounded | internal/auth/authenticate.go:63-71 | under any mix of attempts behind the limiter, the wrong passwords looked at for one user since that user's last success obey that bound |
| Lockouts.GuardedPerIp | internal/auth/authenticate.go:63-71 | and for each address by itself, by that address's lock |
| Lockouts.AddressGuessesBounded | internal/auth/authenticate.go:63-71 | the wrong passwords looked at from one address, whatever users it tries, obey the bound of the address dimension |
| Words.TilesRepeat | internal/auth/strength.go:177-187 | a word that equals itself shifted by p, with p dividing its length, is its first p letters repeated |
| Words.LeastRotationDivides | internal/auth/strength.go:173-187 | the least cyclic period divides every cyclic period (the periodicity argument) |
| Words.LeastTilePrimitive | internal/auth/strength.go:173-187 | the shortest tile of a word is primitive |
| Words.RootExists | internal/auth/strength.go:168-170 | every non-empty word is a power of a primitive word |
| Words.RootUnique | internal/auth/strength.go:168-170 | the primitive root and its exponent are unique |
| Strength.DetectRepeat | internal/auth/strength.go:171-189 | returns the primitive root and its count, or nothing exactly when the password is empty or primitive |
| Strength.RepeatFindsRoot | internal/auth/strength.go:171-189 | on w repeated k times the answer is the primitive root of w with k times its count, or nothing when that count is one |
| Strength.CharPool | internal/auth/strength.go:138-166 | the sum of the alphabet sizes of the classes that occur, the classes given as code points |
| Strength.LongestSequenceRun | internal/auth/strength.go:194-217 | some ascending or descending run has that length and none is longer |
| Strength.RunsIgnoreCase | internal/auth/strength.go:191-200 | passwords that differ only in the case of letters have the same runs |
| Strength.RunsExactly | internal/auth/strength.go:191-211 | without capitals a run is exactly a stretch of consecutive code points, up or down |
| Strength.LongestEndingAt | internal/auth/strength.go:200-211 | the two loop variables describe the longest run that ends at the current letter |
| Strength.RootCheapest | internal/auth/strength.go:119-124 | among all units whose repetition is the password, the primitive root costs least to guess |
| Strength.PasswordGuesses | internal/auth/strength.go:108-132 | the estimate is the exact minimum over brute force, every repeated unit and every long enough run, not only the ones it looks at |
| Strength.RepetitionAddsLittle | internal/auth/strength.go:96-100 | w repeated k times is never estimated above k times the brute force of w |
| Strength.PasswordScore | internal/auth/strength.go:47-61 | the score is the bracket of that exact minimum, the brackets given in numbers |
| Strength.ScoreBrackets | internal/auth/strength.go:47-61 | scores 0 to 4 are exactly the guess counts below 2^28, 2^36, 2^60, 2^80 and the rest, written out |
| Strength.RepetitionScore | internal/auth/strength.go:47-61 | repeating a password scores no higher than one copy and the count would |
| SigningKeys.OIDCKeyStore.constructor | internal/store/migrations/00009_oidc_signing_keys.sql:1-10 | the table starts empty |
| SigningKeys.OIDCKeyStore.Active | internal/store/oidckeys.go:31-51 | exactly the rows with no retirement or a retirement still ahead |
| SigningKeys.OIDCKeyStore.Lookup | internal/store/oidckeys.go:56-69 | the row of the key, retired or not, or nothing exactly when there is none |
| SigningKeys.OIDCKeyStore.RotateIfDue | internal/store/oidckeys.go:81-121 | rotates exactly when due: retires the current key an overlap from now and inserts the new one as current; reports true exactly when the table changed |
| SigningKeys.KeyStore.constructor | internal/oidcserver/keys.go:147-148 | an empty cache over the shared table |
| SigningKeys.KeyStore.Refresh | internal/oidcserver/keys.go:162-184 | the cache becomes what one reading of the table gives: the current key and the live keys |
| SigningKeys.KeyStore.Lookup | internal/oidcserver/keys.go:212-232 | finds cached keys as they are, and others exactly when the table has them and they are not past retirement |
| SigningKeys.CommitExtendsChain | internal/store/oidckeys.go:104-120 | a commit either appends one link to the chain of rotations or, when it lost the race or its key exists, leaves the table unchanged |
| SigningKeys.CommitDecided | internal/store/oidckeys.go:104-120 | in every run a commit takes effect exactly when its key is new and its locking read found the current row or there is none yet; only then may the replica refresh |
| SigningKeys.SelectDecided | internal/store/oidckeys.go:90-97 | a locking read leads on to a rotation exactly when it found no row or one that is due |
| SigningKeys.AbortUndoes | internal/store/oidckeys.go:86 | a rotation call that fails leaves table, record and caches as they were, gives up its lock, and is followed by another call, not by a refresh |
| SigningKeys.TableIsChain | internal/store/oidckeys.go:81-121 | in every interleaving of replicas the table is exactly the chain of committed rotations: the last key current, each earlier one retiring an overlap after the start of the next rotation, none rotated before it was due |
| SigningKeys.ExactlyOneCurrentKey | internal/store/migrations/00009_oidc_signing_keys.sql:10 | after the first commit exactly one key is current, and a key has no retirement exactly when it is current |
| SigningKeys.LoserChangesNothing | internal/store/oidckeys.go:111-116 | a rotation that found no current row while one exists leaves table and record unchanged |
| SigningKeys.CommitFreesOthers | internal/store/oidckeys.go:76-78 | while one transaction holds the current row no other commit changes the table |
| SigningKeys.CachesSound | internal/oidcserver/keys.go:162-184 | with an overlap of at least the lag, in every run a cached current key retires no sooner than an overlap after the cache was read, less the lag, and nothing cached as active had retired when it was read |
| SigningKeys.CachesHoldLiveKeys | internal/store/oidckeys.go:31-51 | in every run each cache holds every key committed before it was read and not retired by then, so a retiring key stays known |
| SigningKeys.NoLateAcceptance | internal/oidcserver/keys.go:212-232 | with an overlap of at least the lag, no replica accepts a key later than the age of a cache after its retirement |
| SigningKeys.NeverLateIffOrderly | internal/oidcserver/keys.go:212-232 | that holds in every run if and only if the overlap is at least the lag |
| SigningKeys.LateWithShortOverlap | internal/oidcserver/keys.go:189-199 | for every shorter overlap and every interval some run, in which replicas refresh only after their own rotation call, accepts a key too late |
| TokenService.RevokedTokenStore.constructor | internal/store/oidcrevocations.go:16-18 | the denylist starts empty |
| TokenService.RevokedTokenStore.Revoke | internal/store/oidcrevocations.go:23-28 | records the token id once; a second call keeps the first expiry |
| TokenService.RevokedTokenStore.IsRevoked | internal/store/oidcrevocations.go:34-44 | true exactly when the id is recorded and the recorded expiry is ahead |
| TokenService.RevokedTokenStore.DeleteExpired | internal/store/oidcrevocations.go:48-54 | removes exactly the rows past their expiry and counts them |
| TokenService.Expiry | internal/oidcserver/provider.go:638 | the exp claim is within the second before fifteen minutes from now |
| TokenService.DenylistSound | internal/store/oidcrevocations.go:23-54 | in every history, whatever the durations: until it expires a revoked token is listed under its own expiry, and nothing else is listed |
| TokenService.SignedIsBacked | internal/oidcserver/provider.go:710-715 | a token signed with a cached current key has a key that is good until the token's last instant |
| TokenService.SignIssues | internal/oidcserver/provider.go:628-715 | signing adds one token with the subject, audience, scope and id asked for, within the second before fifteen minutes, under the key its replica holds for current, and changes nothing else |
| TokenService.AcceptedExactly | internal/oidcserver/provider.go:720-742 | under the exact overlap bound, at every replica, in every history: a token is accepted exactly when it was signed, has not expired and was never revoked |
| TokenService.LiveTokenFindsKey | internal/oidcserver/provider.go:721-728 | under the exact overlap bound every unexpired token finds a key that has not retired, at every replica |
| TokenService.NeverStrandedIffWellTimed | internal/oidcserver/provider.go:720-742 | no live token is ever refused, at any replica in any history, if and only if the overlap is at least token lifetime plus cache age plus lag less one nanosecond |
| TokenService.ShortOverlapStrands | internal/oidcserver/keys.go:147-199 | for every shorter overlap and every interval some history, in which replicas refresh only after their own rotation call, refuses a live, unrevoked token at a replica that has just started up |
| TokenService.RevokeTakesEffect | internal/oidcserver/provider.go:854-860 | revocation records exactly the live tokens of the calling client |
| TokenService.SweepLeavesUnexpired | internal/store/oidcrevocations.go:46-54 | in every history a sweep keeps every revoked token that has not expired, under its own expiry, and leaves no expired one |
| TokenService.RevokedStaysRevoked | internal/store/oidcrevocations.go:30-54 | once revoked a token is never accepted again at any replica, however sweeps are scheduled and whatever the rotation's durations are |
| Sessions.SessionStore.constructor | internal/store/sessions.go:44-46 | no session exists |
| Sessions.SessionStore.Create | internal/store/sessions.go:49-55 | inserts the row unless the id exists, and changes nothing else |
| Sessions.SessionStore.GetByID | internal/store/sessions.go:58-78 | the row, or nothing exactly when there is none |
| Sessions.SessionStore.RotateRefreshToken | internal/store/sessions.go:95-140 | missing, revoked or expired: nothing changes; wrong secret: the session is revoked; right secret: hash and expiry are replaced and nothing else |
| Sessions.SessionStore.Revoke | internal/store/sessions.go:143-146 | marks that session revoked and no other |
| Sessions.SessionStore.RevokeAllForUser | internal/store/sessions.go:150-155 | marks exactly the user's unrevoked sessions |
| Sessions.AcceptedIsIssueChain | internal/store/sessions.go:95-140 | in every run the secrets accepted for a session are its issue chain in order, all but the newest, each once |
| Sessions.RefreshDecidedByRecord | internal/store/sessions.go:117-139 | on a live session, whatever lifetime it was created with, the newest secret is accepted and any other ends it; on any other session nothing happens |
| Sessions.TokensMatchLogin | internal/oidcserver/provider.go:518-571 | tokens come out exactly for the newest secret of a live session shown by its own client, with the user and scope of the login |
| Sessions.IntrospectionMatchesRecord | internal/oidcserver/provider.go:804-819 | active exactly for the newest secret of a live session before its expiry instant |
| Sessions.IdentityNeverChanges | internal/store/sessions.go:130-139 | user, client, scope and issue time never change along a chain |
| Sessions.DeadForever | internal/store/sessions.go:117-119 | an ended or expired session is never accepted again by rotation or introspection, whatever follows; the four lemmas below say what ends one |
| Sessions.WrongClientSpendsSecret | internal/oidcserver/provider.go:542-555 | another client's refresh gets no tokens, spends the secret, and the rightful holder's next use ends the session |
| Sessions.LoginTakesEffect | internal/store/sessions.go:49-55 | in every run a login with a new id opens a session that is alive for its lifetime with the secret handed out, and touches no other |
| Sessions.TimeTakesEffect | internal/store/sessions.go:117-119 | in every run a session that is not refreshed ends when its time is up, and not before |
| Sessions.RevokeTokenTakesEffect | internal/oidcserver/provider.go:841-852 | in every run revoking a token ends its session exactly when the client it was issued to shows the newest secret, and otherwise changes nothing |
| Sessions.LogoutTakesEffect | internal/store/sessions.go:142-146 | in every run logging out ends an existing session and touches no other |
| Sessions.LogoutEverywhereTakesEffect | internal/store/sessions.go:148-155 | in every run logging out everywhere ends every session created for the user and leaves the rows of all others as they were |
| AuthCodes.OIDCCodeStore.constructor | internal/store/oidccodes.go:29-31 | no code exists |
| AuthCodes.OIDCCodeStore.Insert | internal/store/oidccodes.go:34-41 | inserts the row unless the code exists |
| AuthCodes.OIDCCodeStore.Redeem | internal/store/oidccodes.go:47-78 | returns the row and marks it used exactly when it exists, is unused and not past its expiry; otherwise changes nothing |
| AuthCodes.OIDCCodeStore.DeleteExpired | internal/store/oidccodes.go:82-88 | removes exactly the codes past their expiry and counts them |
| AuthCodes.IssuancesProper | internal/oidcserver/provider.go:302-318 | every issued code was for a redirect URI registered for its client then, and had an S256 challenge if the client was public |
| AuthCodes.IssuedByVisit | internal/oidcserver/provider.go:320-368 | every issued code goes back to one visit by a browser logged in as that user, at that time, with a login as recent as prompt and max_age asked for |
| AuthCodes.AuthorizeExactly | internal/oidcserver/provider.go:302-368 | each outcome of the authorization endpoint exactly: a code for an answerable request with a fresh login; without one the login page, or login_required under prompt=none; never a redirect to an unregistered URI |
| AuthCodes.VisitDecided | internal/oidcserver/provider.go:320-368 | in every run a visit adds a code for the logged-in user exactly when it is answerable and the login is fresh |
| AuthCodes.TradeDecidedByRecord | internal/oidcserver/provider.go:453-496 | tokens come out exactly for an authenticated client showing its own code, never presented before, within two minutes, repeating the redirect URI and proving the key; they carry that issuance's user, scope and nonce; an unauthenticated client gets invalid_client |
| AuthCodes.TradeRecorded | internal/oidcserver/provider.go:453-496 | in every run each token request is recorded with its answer, and an authenticated one, granted or refused by a later check, uses up the code |
| AuthCodes.NoReplay | internal/store/oidccodes.go:66-76 | from any table: after one authenticated exchange no later one with that code gives tokens, whoever presents it; other codes are untouched |
| AuthCodes.TimeEndsCode | internal/oidcserver/provider.go:363 | in every run a code is live for two minutes from its issue, however the clock moves |
| AuthCodes.SweepLeavesLive | internal/store/oidccodes.go:80-88 | in every run the table holds, right after a sweep, exactly the codes issued in the last two minutes |
| AuthCodes.TokensJustified | internal/oidcserver/provider.go:463-496 | every token pair in the record repeats one properly issued code, and for a client public at issue the verifier hashes to the challenge |
| AuthCodes.CodesAreSingleUse | internal/store/oidccodes.go:43-78 | in every interleaving with sweeps the answers recorded hold at most one token pair for each code, and every pair is justified |
| MfaChallenges.EmailChallengeStore.constructor | internal/store/mfa.go:79-82 | no challenge exists |
| MfaChallenges.EmailChallengeStore.Create | internal/store/mfa.go:82-91 | removes expired rows, then inserts the challenge with no attempts unless the id exists |
| MfaChallenges.EmailChallengeStore.Verify | internal/store/mfa.go:100-141 | dead challenge or spent budget: nothing changes; wrong code: one more attempt; right code: consumed, with its user |
| MfaChallenges.EmailChallengeStore.Peek | internal/store/mfa.go:146-158 | the user and return path exactly when the challenge is neither consumed nor expired |
| MfaChallenges.EmailChallengeStore.Delete | internal/store/mfa.go:162-165 | removes that challenge and no other |
| MfaChallenges.GuessBudget | internal/store/mfa.go:120-141 | in every run a challenge compares at most five wrong codes and accepts at most one right one |
| MfaChallenges.LoginBudget | internal/web/mfa.go:194-218 | in every run the wrong codes compared over all challenges that descend from one login are at most five for each of them, so five if it was never resent |
| MfaChallenges.LoginBudgetAttained | internal/web/mfa.go:194-218 | for every number of resends some run compares five wrong codes with each of the login's challenges |
| MfaChallenges.SubmitDecidedByRecord | internal/web/mfa.go:130-174 | what a submitted code does is a function of the record: ignored unless the challenge is open, unexpired, unspent and not superseded; accepted exactly for the code sent, with the user and return path of that challenge |
| MfaChallenges.ResendDecidedByRecord | internal/web/mfa.go:194-199 | in every run a resend goes on exactly for a challenge that the record shows opened, unexpired, unanswered and not replaced, with its user and return path |
| MfaChallenges.ResendGoesOn | internal/web/mfa.go:200-218 | its remaining statements replace the challenge that was read and open one new challenge for the same user and return path |
| MfaChallenges.TimeEndsChallenge | internal/store/mfa.go:108-118 | in every run a challenge takes guesses up to its expiry and not at it |
| MfaChallenges.TracedMeansPassword | internal/web/mfa.go:176-218 | a challenge traced through any chain of resends, all for the same user and return path, goes back to an accepted password of that user |
| MfaChallenges.SessionsAreEarned | internal/web/handlers.go:249-333 | every session, with or without a code, is for a user whose password was accepted earlier in the run, traced through resends that may interleave with anything |
| MfaChallenges.LoginDecided | internal/web/handlers.go:298-332 | an accepted password opens a challenge and no session where a second factor is required, a session and no challenge where not |
| MfaChallenges.DirectSessionsNotRequired | internal/web/handlers.go:298-332 | in every run a session without a code goes back to a login that required no second factor |
| MfaChallenges.ResendRestoresBudget | internal/web/mfa.go:194-218 | after the read, delete and insert of a resend, a challenge whose budget was spent has a successor that takes guesses |
| DistinguishedNames.SplitDN | internal/ldapserver/dn.go:61-70 | the trimmed comma-separated parts, none for the empty name |
| DistinguishedNames.DnEqualFold | internal/ldapserver/dn.go:96-107 | true exactly when the names have equally many parts, pairwise equal up to case |
| DistinguishedNames.DnTrimSuffixFold | internal/ldapserver/dn.go:112-125 | the leading parts exactly when the trailing ones match the suffix up to case |
| DistinguishedNames.TrimExactly | internal/ldapserver/dn.go:65-69 | trimming takes off white space, all of it, and only at the ends |
| DistinguishedNames.WhiteSpace | internal/ldapserver/dn.go:67 | white space is the Unicode White_Space list, written out |
| DistinguishedNames.FoldsLetters | internal/ldapserver/dn.go:96-107 | on ASCII texts folding ignores the case of letters and nothing else |
| DistinguishedNames.RdnExactly | internal/ldapserver/dn.go:80-89 | a component has a value exactly when it is a text without equals sign that trims and folds to the attribute type, an equals sign, and a text that trims to the value |
| DistinguishedNames.EntryNamesExactly | internal/ldapserver/dn.go:148-164 | which texts a search takes for a user's or a group's name, exactly: such a component, a comma, and any spelling of the container's name |
| DistinguishedNames.SplitJoin | internal/ldapserver/dn.go:65 | splitting what was joined by a comma gives the two splits one after the other |
| DistinguishedNames.UserRoundTrip | internal/ldapserver/dn.go:37-39 | reading a printed user name back gives the trimmed name, or nothing if it has a comma; the name itself exactly when it is plain |
| DistinguishedNames.GroupRoundTrip | internal/ldapserver/dn.go:156-164 | the same for group names |
| DistinguishedNames.BindRoundTrip | internal/ldapserver/dn.go:129-142 | binding with a printed plain user name authenticates that name |
| DistinguishedNames.FoldedRoundTrip | internal/ldapserver/dn.go:80-125 | reading ignores the case of the attribute type and of the container and keeps that of the value |
| DistinguishedNames.UserNameIgnoresCase | internal/ldapserver/dn.go:96-125 | a user entry's name with its fixed parts in any case names the same user |
| DistinguishedNames.BindNameExactly | internal/ldapserver/dn.go:129-142 | a bind name without an equals sign is a bare username, trimmed; any other is read as a user entry's name or not at all |
| DistinguishedNames.PrintedForms | internal/ldapserver/dn.go:32-54 | the printed names, spelled out |
| Directory.IsSubschemaExact | internal/ldapserver/search.go:207-209 | the subschema test by parts is the structural comparison with its name |
| Directory.ResolveUser | internal/ldapserver/search.go:204-226 | a printed user name passes every earlier branch and leads to the trimmed user, or nowhere if it has a comma |
| Directory.ResolveGroup | internal/ldapserver/search.go:204-242 | the same for a printed group name |
| Directory.UserFoundByName | internal/ldapserver/search.go:217-226 | a base search on a declared user's name returns exactly that entry if and only if the name is plain |
| Directory.GroupFoundByName | internal/ldapserver/search.go:227-242 | the same for groups |
| Directory.EntryFoundByName | internal/ldapserver/search.go:201-273 | with plain names every entry of the whole subtree is found again, alone, by a base search on its name, privileged or not |
| Directory.SubtreeDecomposes | internal/ldapserver/search.go:249-271 | the subtree of the base is the base entry plus the subtrees of its single-level children, each entry in exactly one of them |
| Directory.SubtreeExactly | internal/ldapserver/search.go:249-271 | the whole subtree of the base holds exactly the fixed entries, every declared user and group and, for privileged searches, the Samba domain and the undeclared "Domain Users" |
| Directory.BaseSearchExactly | internal/ldapserver/search.go:249-271 | every search from the base, scope by scope, entry by entry |
| Directory.SpellingIrrelevant | internal/ldapserver/search.go:243-249 | a search from the base or a container finds the same whatever the case and the blanks in its name |
| Directory.OutsideFindsNothing | internal/ldapserver/search.go:201-273 | a search from a name that is not below the base finds nothing, unless it is the root or the subschema |
| Directory.UnknownFindsNothing | internal/ldapserver/search.go:201-273 | nor does a search from a name below the base that is none of the containers, the Samba domain, or a user's or group's name |
| Directory.UsersSearchExactly | internal/ldapserver/search.go:275-289 | for every scope, what a search from the users' container shows: the container, exactly the declared users, or both |
| Directory.GroupsSearchExactly | internal/ldapserver/search.go:315-334 | the same for groups, with the synthetic group exactly when privileged and undeclared |
| Directory.UserSearchExactly | internal/ldapserver/search.go:217-226 | for every scope, a search on a user's own name: the entry if the user is declared and children are not asked for, otherwise nothing |
| Directory.GroupSearchExactly | internal/ldapserver/search.go:227-242 | the same for groups, declared, synthetic or neither |
| Directory.RootExactly | internal/ldapserver/search.go:204-206 | a search from the empty name shows the root entry alone, whatever the scope |
| Directory.SubschemaExactly | internal/ldapserver/search.go:207-209 | a search from any spelling of the subschema name shows that entry alone, whatever the scope |
| Directory.SambaExactly | internal/ldapserver/search.go:210-215 | a privileged search on the Samba domain's name shows it and nothing else |
| Directory.CarriesSambaExactly | internal/ldapserver/search.go:291-350 | which entries carry Samba attributes: the two synthetic ones, and users and groups with stored data when privileged |
| Directory.SearchNamesDistinct | internal/ldapserver/search.go:201-334 | every search, whatever its base and scope, returns entries with distinct names |
| Paging.CookieRoundTrip | internal/ldapserver/controls.go:71-87 | a printed offset reads back as itself over the whole non-negative int64 range |
| Paging.CookieExactly | internal/ldapserver/controls.go:81-86 | a cookie resumes at an offset exactly when it is its decimal digits with zeros and at most a plus sign in front; every other cookie starts over |
| Paging.FindPagedResults | internal/ldapserver/controls.go:59-78 | the first paged-results control decides; none exactly when no control has the identifier; one that does not decode asks for everything from the start |
| Paging.SlicePage | internal/ldapserver/search.go:180-195 | for every int64 size: a page comes out if and only if the size is not positive or clamped start plus size stays below 2^63; it starts at the clamped offset, holds at most size entries and fewer only at the end, with the exact remaining count and a cookie exactly when something remains |
| Paging.SmallSizesInRange | internal/ldapserver/search.go:183-190 | every size below 2^31, and every first request, gives a page |
| Paging.OrderIrrelevant | internal/ldapserver/search.go:170-178 | whatever order the maps are walked in, the sorted filtered list is the same |
| Paging.FetchAll | internal/ldapserver/search.go:170-198 | with every int64 page size, following the cookie stops and concatenates to exactly the sorted matching list, with every reported size exact, although each request walks the maps in its own order |
| LdapConnection.Serve | internal/ldapserver/server.go:87-144 | one request gets the response its state calls for; the connection is on TLS afterwards exactly if it was or the response upgraded it, and the bound name changes only by an authenticating bind or an upgrade |
| LdapConnection.HandleConn | internal/ldapserver/server.go:78-145 | every response is the one its request calls for given the record; nothing follows a closed connection or a panic, and nothing before it goes unanswered |
| LdapConnection.BindReportsAuthentication | internal/ldapserver/bind.go:16-71 | in every session a bind response reports a user exactly for a well-formed simple bind with a readable name, TLS where required, and a positive verdict |
| LdapConnection.BindCodesExactly | internal/ldapserver/bind.go:16-71 | in every session a bind is answered with success exactly when it authenticates someone or is anonymous where that is allowed, and with invalidCredentials exactly for the refused names and passwords |
| LdapConnection.BindAnswer | internal/ldapserver/bind.go:16-71 | every result code of a bind with its exact condition |
| LdapConnection.SearchAnswer | internal/ldapserver/search.go:103-131 | every result code of a search with its exact condition, and what a page sends |
| LdapConnection.ExtendedAnswer | internal/ldapserver/extended.go:29-65 | every answer to an extended request with its exact condition: an upgrade only for StartTLS on a plaintext connection of a server with TLS whose response was sent and whose handshake succeeded |
| LdapConnection.ClosesExactly | internal/ldapserver/server.go:87-144 | in every session the connection closes exactly at an unbind, an unreadable or unknown message, or an upgrade that fails half way; every write is refused, and only an abandon goes without response |
| LdapConnection.SearchSendsAnswer | internal/ldapserver/search.go:103-198 | in every session an admitted unpaged search with a readable filter sends the whole answer |
| LdapConnection.AnswerExactly | internal/ldapserver/search.go:170-178 | the answer holds exactly the selected entries that the filter keeps, each once, in name order |
| LdapConnection.ReadersArePrivileged | internal/ldapserver/search.go:136-140 | on a loaded snapshot a search is privileged exactly for a bound user who is, at any depth, in the configured readers group |
| LdapConnection.BoundByLatestBind | internal/ldapserver/server.go:110-130 | the bound name is a given user if and only if the latest deciding exchange (authenticating bind or TLS upgrade) is a bind as that user |
| LdapConnection.BoundOnlyOnTLS | internal/ldapserver/bind.go:21-25 | under RequireTLS a connection is never bound in plaintext |
| LdapConnection.EntriesNeedAccess | internal/ldapserver/search.go:113-126 | an entry other than the root DSE is sent only if the TLS requirement is met and the client is bound or anonymous access is allowed |
| LdapConnection.PanicsExactly | internal/ldapserver/search.go:182-195 | in every session the program panics exactly at a well-formed, admitted, paged search whose positive size plus clamped offset reaches 2^63 |
| LdapConnection.ProbePanics | internal/ldapserver/search.go:113-119 | the root DSE probe with a control of the largest size and cookie "1", decoded, panics on every server, bound or not, with or without TLS |
| LdapConnection.SambaNeedsReader | internal/ldapserver/search.go:136-140 | entries with Samba attributes, on users, groups and the two synthetic entries alike, are sent only to a bound member of the readers group |
| LdapConnection.OthersKeepIdentity | internal/ldapserver/server.go:110-130 | only a successful authenticating bind or a TLS upgrade changes who is bound |

## Left out

- Cryptography, BER, YAML, HTTP, cookies, CSRF, templates, mail, metrics, audit, logging and command-line parsing: the model starts from decoded requests and takes verification results as given.
- The client_credentials grant, end-session, userinfo claims and the at_hash value: they add only easy members to the token model.
- WebAuthn ceremonies, Samba RID and NT-hash storage, the graph drawing of internal/admin/graph.go and the log summary of internal/config/diff.go.
- Database failures: every statement is taken to succeed or to be refused by a constraint; the search path that answers "other" when Samba data cannot be read is not modelled.
- Attribute rendering of LDAP entries and the evaluation of filters: an entry is its name, its kind and whether it carries Samba attributes, a filter is an arbitrary predicate, a filter that does not parse is the error path.
- Password-hash and custom-attribute normalisation in internal/config/loader.go: a declaration carries a flag that says whether it normalised; the texts of error and conflict messages are not modelled, only what they name.
- Strength.PasswordGuesses: guess counts are exact integers; the rounding of the float logarithms is not modelled, nor is the byte-length check of the password policy.
- Strength.PasswordScore: for the same reason a score within float rounding of a bracket boundary is not covered.
- Paging.FetchAll: is about lists of fewer than 2^62 entries, more than memory holds.
- Lockouts.UserGuessesBounded: attempts do not overlap; passwords looked at between another attempt's check and its record are not counted against that attempt.
- Lockouts.LockoutStore.RecordFailure: one call is atomic, so two racing first failures of a key, which have no row to lock, are not modelled; the width of the stored counter is not modelled.
- Backoff.ExactIffWrapSafe: is about a positive threshold, base and cap, each base and cap within int64; with a threshold of zero or less nothing locks, which is part of the function itself.
- SigningKeys.KeyStore.Refresh: asks for a table with at most one current row and a current row that is live, which TableIsChain proves of every reachable table; parse failures of stored keys are not modelled.
- SigningKeys.OIDCKeyStore.RotateIfDue: is the uncontended call; contention is modelled by the separate steps of SigningKeys and proved there.
- Sessions.TokensMatchLogin: client authentication comes before the grant and is modelled in AuthCodes only; token strings that do not parse into an id and a secret are not modelled.
- AuthCodes.TradeDecidedByRecord: the token endpoint's rate limit, and HTTP Basic versus form credentials, are not modelled; prompt and max_age come parsed.
