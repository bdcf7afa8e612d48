# Verified model of the stash backend's core

This project models, in Dafny, the parts of the backend in which correctness depends on more
than one step, and proves what they keep:

- the **rolling-window budget** in Redis and the **email budget** built on it, under callers
  whose clocks disagree;
- the **fixed-window limiter** with its release;
- the **password-work limiter**, as a step system in which any caller may act between any two
  atomic actions of another;
- the **collection store**, first with every operation as one transaction, then with the
  deletion of a collection, and the filing of an item, split into their statements and other
  transactions committing between them;
- **keyset pagination** with a pinned row, from the tokens a client sends back to the rows it
  gets over a whole reading, while the tables change between pages;
- the **PHC codec** of stored password hashes, down to decimal numbers and base64;
- the **metadata extraction** from a page, and what the order in which decoded JSON-LD objects
  are iterated can change.

Code that updates something in place is a class or a method here (`SortedSetKey`,
`CounterKey`, `PINEmailBudget`, `PasswordWorkLimiter`, `Process`, `Database`, `Document`, the
listing and parsing methods). Each such method is proved equal to a function on values, and the
theorems over whole runs are about those functions. The `…Runs` modules hold them. What a caller
gets is also stated apart from those functions, in the caller's own units, texts and numbers:
`PolicyRuns`, `ListingRequests`, `PageSources`, `JsonLdSources` and the written forms in `Phc`,
`Base64` and `Cursor`.

Verify everything with `dafny verify dfyconfig.toml`.

## Where the code and its own comments disagree

The model follows the code. Each point below is a proved theorem.

- Rolling window, key expiry (`internal/ratelimit/sliding.go:52-56`: re-armed on every call).
  The expiry is armed before the entry is recorded, and arming a missing key does nothing, so
  the first admission of a quiet subject leaves a key with no deadline, which the server never
  collects (`DeadlineAfterAdmission`, `FirstAdmissionIsNeverCollected`).
- Rolling window, "any twenty-four-hour stretch" (`sliding.go:19-25`). Each caller sends its own
  clock. With clocks within `d` of the server, the stretches that hold at most the maximum are
  exactly those no longer than the window less `2d` (`SafeStretches`).
- Fixed window, a release cannot postpone the reset (`internal/ratelimit/limiter.go:95-97`).
  Releasing a counter that stands at one and calling again starts a whole new window
  (`ReleaseThenCall`).
- Fixed window, rounding the wait up keeps a client from a second refusal
  (`internal/ratelimit/limiter.go:339-341`). A client that waits exactly what it was told is refused
  again when the window had a whole number of seconds to go, and only then (`WaitAsReported`).
- Password work, dropping a wakeup cannot lose it
  (`internal/security/password_work.go:231-234`). True exactly when the limit is one
  (`WakeupsAreSafeOnlyAtOne`); what holds for every limit is `NobodyIsStranded`.
- Password work, no derivation without a slot (`internal/security/password.go:80-88`). The first
  use of the dummy hash derives without one, so the exact bound is the limit plus one
  (`ExactDerivationBound`).
- Put, a collection that was removed a moment ago does not turn a move into a failure
  (`internal/api/collection/types.go:48-53`), and the look-up after a taken name finds the row that
  took it (`internal/api/collection/queries.sql:713-715`). A removal between the statements is an
  internal failure, exactly where `FailsInternallyExactly` says (`RemovedBeforeLookup`,
  `RemovedBeforeMove`).
- Metadata, the keys written like markup are out of reach of a meta tag
  (`internal/enrichment/constants.go:113-114`). A meta tag reaches every key that is the trimmed
  lower-case form of some text and no other (`MetaReachesExactly`), those two included
  (`MetaReachesMarkup`); one that comes first takes the place of the title element
  (`MetaTakesTheTitle`).
- Metadata, the walk goes in document order (`internal/enrichment/extract.go:281`). It visits the
  properties of an object in the runtime's arbitrary order, and the two site names depend on it:
  exactly when the value can give more than one (`SettledByOneName`). Platform and site name of a
  page are settled exactly when all that can be chosen for them reads alike
  (`PlatformIsSettledExactly`, `SiteNameIsSettledExactly`), and `ReadingsDisagree` is a page where
  they are not.
- Metadata, a page that could be read in part yields what was found
  (`internal/enrichment/extract.go:49-52`). A reader that fails loses everything found before
  (`PageExtraction.Extract`).
- Cursors, a saved item token cannot be mismatched against anything
  (`internal/api/saved_item/service.go:420-421`). The saved item listings accept collection tokens
  as positions of theirs, and `CollectionTokenReadsAsItemToken` says exactly which; the reverse is
  refused.

## Model

| member | source | states |
|---|---|---|
| SlidingWindow.SortedSetKey.PExpire | internal/ratelimit/sliding.go:71 | Arming the expiry of a missing key does nothing; that of a present key becomes the time plus the window. |
| SlidingWindow.AdmitToSlidingWindow | internal/ratelimit/sliding.go:61-90 | The script, command by command on the sorted set, leaves the state and gives the reply of `Admit`: pruned, armed if anything is left, then refused with the oldest entry's wait or recorded. |
| SlidingWindow.RefundSlidingWindow | internal/ratelimit/sliding.go:104-110 | The refund removes the one named member, leaves a missing key missing, and says whether it removed anything. |
| SlidingWindow.Allow | internal/ratelimit/sliding.go:226-318 | An unenforceable policy or an unreachable server changes nothing; otherwise the result is the script's reply, with an admission identifier exactly when allowed. What that is in the policy's own unit is stated by `AdmittedByPolicy`. |
| SlidingWindow.Release | internal/ratelimit/sliding.go:336-365 | An empty admission is a success that changes nothing; otherwise the refund runs or the error is reported. |
| SlidingRuns.NeverOverfull | internal/ratelimit/sliding.go:209-221 | In every run, however many calls are refused, the set never holds more than the maximum. |
| SlidingRuns.RollingBound | internal/ratelimit/sliding.go:19-25 | With every clock within `skew` of the server, the never-refunded admissions of any stretch of the window less `2 * skew` number at most the maximum. |
| SlidingRuns.SafeStretches | internal/ratelimit/sliding.go:253-261 | A stretch length is safe for all runs if and only if it is at most the window less `2 * skew`, or is empty. |
| SlidingRuns.WaitIsPositive | internal/ratelimit/sliding.go:73-85 | With one monotone clock a refusal's wait is positive and at most the window. |
| SlidingRuns.RefusedBeforeWait | internal/ratelimit/sliding.go:149-164 | With no refunds, every call before the wait has passed is refused. |
| SlidingRuns.AdmittedAfterWait | internal/ratelimit/sliding.go:149-164 | A call once the wait has passed, with nothing else admitted meanwhile, is admitted. |
| SlidingRuns.RoundingIsTight | internal/ratelimit/limiter.go:343-351 | The two roundings together never name an earlier moment and add less than one second. |
| SlidingRuns.HeaderWaitSuffices | internal/apperror/error.go:300-309 | A refused client that waits out the header's seconds is admitted, and waited less than a second too long. |
| SlidingRuns.ExpiryIsGarbageCollection | internal/ratelimit/sliding.go:52-56 | With one monotone clock every run gets the same replies from a server that drops keys at their deadline and from one that never does. |
| SlidingRuns.DeadlineAfterAdmission | internal/ratelimit/sliding.go:67-87 | A call leaves a deadline if and only if an earlier entry survived the pruning; a refusal always does. |
| SlidingRuns.FirstAdmissionIsNeverCollected | internal/ratelimit/sliding.go:67-87 | The first admission of a missing key leaves a key that no later moment finds expired. |
| PolicyRuns.WindowInMillis | internal/ratelimit/sliding.go:247-259 | The window that reaches the script is the policy's in nanoseconds, short of less than a millisecond, and a second at least. |
| PolicyRuns.EnforceableSliding | internal/ratelimit/sliding.go:118-141 | The policies that can be enforced are exactly those with a budget of one at least over one second at least. |
| PolicyRuns.AdmittedByCounting | internal/ratelimit/sliding.go:61-90 | With one clock, in every run, a call is admitted if and only if fewer than the maximum of the earlier calls were admitted, not given back, and less than a window before it; and it is told how many there are with it. |
| PolicyRuns.AdmittedByPolicy | internal/ratelimit/sliding.go:226-318 | The same by the policy in nanoseconds, with no number that the script sees. |
| PolicyRuns.StretchByPolicy | internal/ratelimit/sliding.go:209-221 | In every run with one clock, the admissions in any stretch of whole milliseconds within the policy's window number at most the policy's maximum. |
| EmailBudget.NotAttemptedIsNotAttempted | internal/email/budget.go:310-321 | Every error NotAttempted builds, even of no cause, counts as not attempted, and still matches exactly the mark and what its cause matched. |
| EmailBudget.WrappingKeepsTheMark | internal/email/budget.go:310-321 | A marked error stays marked when it is wrapped on its way up. |
| EmailBudget.PINEmailBudget.ReserveGlobal | internal/email/budget.go:154-178 | A reservation is one admission attempt on the global window, and names an admission exactly when it was admitted. |
| EmailBudget.PINEmailBudget.RefundGlobal | internal/email/budget.go:264-275 | An empty admission changes nothing; otherwise the named member is removed if the server is reached. |
| EmailBudget.PINEmailBudget.Deliver | internal/email/budget.go:196-250 | The sender's report is returned unchanged. With a marked report, an admission and a server in reach, that one entry goes and every other stays; without any of the three nothing changes. Marked means that the mark occurs in the error's tree, wherever (`RefundDueMeaning`). |
| EmailBudget.MatchedIsOccurring | internal/email/budget.go:310-321 | An error matches another exactly when that other is found at the end of some path of wraps and joins. |
| EmailBudget.NotAttemptedIsMarked | internal/email/budget.go:310-321 | What NotAttempted builds of any cause, and however often that is wrapped on the way up, carries the mark. |
| EmailBudget.RefundDueMeaning | internal/email/budget.go:218-250 | A refund is due if and only if there is an admission and the report carries the mark. |
| EmailBudget.FreedSlotAdmits | internal/email/budget.go:239-275 | Once one live entry has been given back, a set that held no more than the maximum admits the next reservation, whenever it comes. |
| EmailBudget.UnsentFreesItsSlot | internal/email/budget.go:196-250 | After any run, delivering a live reservation with a marked report lets the next reservation in. |
| EmailBudget.SendsStayWithinBudget | internal/email/budget.go:180-250 | Over any run, the messages whose send succeeded or failed after an attempt, by when their slot was reserved, number at most the maximum in any safe stretch, whichever refunds fail. |
| EmailBudget.DeliveringTwiceOverspends | internal/email/budget.go:196-230 | One reservation delivered twice exceeds the maximum, so the callers' discipline is needed. |
| FixedWindow.IncrementWithTTL | internal/ratelimit/limiter.go:57-77 | The script equals `Increment`: count up, arm at one, repair a missing expiry, report count and remaining life. |
| FixedWindow.ReleaseOne | internal/ratelimit/limiter.go:107-119 | The script equals `GiveOne`: a missing key stays missing and a count never goes below zero. |
| FixedWindow.Allow | internal/ratelimit/limiter.go:213-270 | An unenforceable policy or an unreachable server changes nothing; otherwise a call is allowed exactly when its count is at most the maximum. |
| FixedWindow.Release | internal/ratelimit/limiter.go:298-334 | A release reports the count it leaves, or changes nothing when the server is not reached. |
| FixedRuns.DebtNeverGrows | internal/ratelimit/limiter.go:88-106 | From any start, a count below zero never goes further below. |
| FixedRuns.CountStaysNonNegative | internal/ratelimit/limiter.go:88-106 | From any non-negative start the count is never negative. |
| FixedRuns.ExpiryFromFirstCall | internal/ratelimit/limiter.go:57-77 | From the first call on, a key that exists has an expiry, whatever was there before. |
| FixedRuns.ReleaseOnlyLowers | internal/ratelimit/limiter.go:88-119 | A release neither creates a key nor touches an expiry, and takes at most one off the count. |
| FixedRuns.CallMovesExpiryOnlyFromZero | internal/ratelimit/limiter.go:57-61 | A call moves an existing expiry if and only if the counter stood at zero (and the new window differs). |
| FixedRuns.ReleaseThenCall | internal/ratelimit/limiter.go:95-97 | A release and a call leave count and reset as they were, except that from one the reset moves to a whole new window. |
| FixedRuns.SpanBound | internal/ratelimit/limiter.go:57-119 | From any start, between two rises to one the allowed calls number at most the maximum plus the releases that took effect, plus what the count was short of zero at first; that last term is gone from the first rise on. |
| FixedRuns.EdgeBound | internal/ratelimit/limiter.go:57-77 | From any start and without releases, steps within one window length of each other allow at most `2 * max - 1` calls, or the maximum and the initial shortfall if that is more. |
| FixedRuns.ExactEdgeBound | internal/ratelimit/limiter.go:57-77 | Over all starts no further below zero than `debt`, a number bounds every stretch of one window in every run without releases if and only if it is at least `max` plus the larger of `max - 1` and `debt`. |
| FixedRuns.RefusedUntilReset | internal/ratelimit/limiter.go:213-270 | After a refusal with nothing released, a call is allowed if and only if the reported reset has passed. |
| PolicyRuns.WindowInSeconds | internal/ratelimit/limiter.go:213-229 | The window that reaches the script is the policy's in nanoseconds, short of less than a second, and a second at least. |
| PolicyRuns.CountedFromRise | internal/ratelimit/limiter.go:57-77 | Without releases, a call is told its place among the calls since its window opened. |
| PolicyRuns.AllowedByPolicy | internal/ratelimit/limiter.go:213-270 | By the policy in nanoseconds: the first `max` calls of a window are allowed, and every later one is refused while the window lasts. |
| PolicyRuns.ReopenedByPolicy | internal/ratelimit/limiter.go:123-150 | By the policy in nanoseconds: a call later than a window after one has opened finds that another has. |
| PolicyRuns.WaitAsReported | internal/ratelimit/limiter.go:336-351 | A refused client that waits exactly the whole seconds it was told, with nothing released, is refused again if and only if the window had a whole number of seconds to go; the wait is the remaining life rounded up. |
| PasswordWork.PasswordWorkLimiter.TryAcquire | internal/security/password_work.go:239-250 | A slot is taken exactly when one is free. |
| PasswordWork.PasswordWorkLimiter.GiveBack | internal/security/password_work.go:208-216 | The count drops by one and never below zero. |
| PasswordWork.PasswordWorkLimiter.Announce | internal/security/password_work.go:229-236 | Afterwards a wakeup is pending, whether it was sent or found one there. |
| PasswordWork.Process.Perform | internal/security/password_work.go:143-204 | Each atomic action of a caller, performed on the limiter and the caller's place, has exactly the effect `Do` gives it. Which outcome a caller is settled with is stated by `TimeoutIsForTheLive`. |
| PasswordWorkRuns.AlwaysAccounted | internal/security/password_work.go:198-250 | In every interleaving the count equals the acquisitions whose closure has not fired and lies between zero and the limit. |
| PasswordWorkRuns.ReleaseBelongsToItsAcquisition | internal/security/password_work.go:184-225 | A first release gives back one slot, a repeated one changes nothing, and the clamp at zero never decides. |
| PasswordWorkRuns.DerivationsAreBounded | internal/security/password.go:265-285 | Derivations in flight never exceed the limit, plus one only while the dummy hash is being made. |
| PasswordWorkRuns.DummyIsMadeOnce | internal/security/password.go:265-285 | Once made, the dummy hash is never made again. |
| PasswordWorkRuns.ExactDerivationBound | internal/security/password.go:80-88 | A number bounds the derivations in flight in every interleaving if and only if it is at least the limit plus one. |
| PasswordWorkRuns.CancelledEarlyNeverHolds | internal/security/password_work.go:135-146 | A request cancelled before it asked never gets a slot. |
| PasswordWorkRuns.OnlyCancelledEndCancelled | internal/security/password_work.go:143-179 | In every reachable state, a caller that ended as cancelled had its context cancelled. |
| PasswordWorkRuns.TimeoutIsForTheLive | internal/security/password_work.go:170-179 | A step times a caller out if and only if its timer had fired and its context is not done; it ends it as cancelled if and only if its context is done and it settles after its timer, leaves the wait by the context, or is looked at before it asked. |
| PasswordWorkRuns.LeavingTheWait | internal/security/password_work.go:160-182 | A caller leaves the wait by its timer, by taking a pending wakeup, or by its context being done, and by nothing else. |
| PasswordWorkRuns.OutcomesAreFinal | internal/security/password_work.go:143-182 | Whatever anybody does after it, a caller that was cancelled, or timed out, stays so. |
| PasswordWorkRuns.GainingASlot | internal/security/password_work.go:143-169 | A step gives a caller a slot if and only if it is the caller's first try or its try after a wakeup, and a slot is free. |
| PasswordWorkRuns.NobodyIsStranded | internal/security/password_work.go:143-236 | For every limit: if nothing is held and somebody waits, a wakeup is pending, about to be sent, or taken and about to be used. |
| PasswordWorkRuns.WaiterCanProceed | internal/security/password_work.go:160-169 | A waiter beside an entirely free limiter is at most three steps of already started callers from a slot being taken. |
| PasswordWorkRuns.CoalescedLosesOne | internal/security/password_work.go:229-235 | For every limit of two or more, a reachable state has a waiter beside a free slot and nothing on its way to tell it. |
| PasswordWorkRuns.WakeupsAreSafeOnlyAtOne | internal/security/password_work.go:231-234 | No reachable state loses a wakeup if and only if the limit is one. |
| CollectionStore.Database.PutSavedItem | internal/api/collection/repository.go:125-247 | The transaction, statement by statement, commits exactly what `Put` says and reports its result. |
| CollectionStore.Database.CreateUserCollection | internal/api/collection/repository.go:1188-1284 | A row is inserted exactly when no collection of the user, of either type, holds the reduced name. |
| CollectionStore.Database.CreateSavedItem | internal/api/saved_item/service.go:105-161 | A saved URL is filed in the user's Unsorted collection; without a host, or without Unsorted, nothing changes (`CreateEffect`). |
| CollectionStore.Database.DeleteSavedItem | internal/api/saved_item/service.go:279-326 | The statements leave what `DeleteItem` says and report it; what that is, `DeleteItemEffect` and `DeletableMeansDeletable` state. |
| CollectionStore.Database.DeleteUserCollection | internal/api/collection/repository.go:280-414 | The transaction equals `DeleteCollection`, in its order of refusals and in what it commits. |
| CollectionRuns.RunsKeepValid | migrations/000025_enforce_saved_item_collection_ownership.up.sql:67-87 | After every run each item is in one existing collection of its owner, every user has exactly one Unsorted, and reduced names are unique per user. |
| CollectionRuns.UnsortedIsPermanent | internal/api/collection/repository.go:316-322 | The Unsorted collections of the start are there, unchanged, after every run. |
| CollectionRuns.PutEffect | internal/api/collection/repository.go:125-247 | On success one item moves and at most one collection is created, which then holds it; created and already never hold together; a failure changes nothing. |
| CollectionRuns.PutIsIdempotent | internal/api/collection/service.go:99-101 | A second identical put under the existing intent writes nothing and reports the item as already there. |
| CollectionRuns.TakenNameIsRefused | internal/api/collection/types.go:56-65 | Under the create intent a name the user already holds is a conflict and changes nothing. |
| CollectionRuns.PutRefusals | internal/api/collection/service.go:104-143 | A put succeeds if and only if the intent is one of two, the trimmed name has 1 to 100 characters, the item is there and the user's, and a name to be created is free; which refusal is given, in which order, is stated for every request. |
| CollectionRuns.CreateEffect | internal/api/saved_item/service.go:105-161 | Saving adds one item of the user, in the collection whose system key says "unsorted", and changes nothing else; without a host nothing changes. |
| CollectionRuns.DeleteItemEffect | internal/api/saved_item/service.go:279-326 | Deleting succeeds if and only if the item is there and the user's; then that one item goes, all else stays, and the report names the collection it was filed in. Otherwise it is not found and nothing changes. |
| CollectionRuns.DeleteRefusals | internal/api/collection/service.go:612-652 | The answer to every request to delete a collection, in the order in which the refusals come. |
| CollectionRuns.DeleteCollectionEffect | internal/api/collection/repository.go:249-414 | Moving conserves all items and refiles exactly the collection's; deleting removes exactly those; a failure changes nothing. |
| CollectionRuns.AtomicDeleteNeverFindsItems | internal/api/collection/repository.go:386-399 | With nothing in between, the not-empty conflict cannot occur, and the constraints are kept. |
| CollectionRuns.DeletableMeansDeletable | internal/api/saved_item/service.go:234-244 | An item deletion reports its collection deletable if and only if deleting it right away succeeds and removes no item, which is when it is not Unsorted and holds nothing. |
| DeleteInterleaved.AlwaysConsistent | internal/api/collection/repository.go:280-414 | However the deletion's statements interleave with other committed transactions, the committed store meets every constraint at every moment. |
| DeleteInterleaved.NothingShowsUntilCommit | internal/api/collection/repository.go:249-262 | Unless and until the deletion succeeds, the committed store is what the other transactions alone leave. |
| DeleteInterleaved.DecidesAtomically | internal/api/collection/repository.go:280-414 | The split deletion decides as the atomic one would on the store of that moment, with three exceptions that are spelled out exactly. |
| DeleteInterleaved.LateFilingForcesConflict | internal/api/collection/repository.go:1119-1158 | In every schedule, the statement after the disposal fails with the not-empty conflict if and only if an item is in the collection now that was absent or elsewhere when the disposal read the store; the committed store is then what the others alone left. |
| DeleteInterleaved.UndisturbedIsAtomic | internal/api/collection/repository.go:280-414 | With no other transaction in between, the split deletion is the atomic one. |
| DeleteInterleaved.ConflictHappens | internal/api/collection/repository.go:386-399 | A permitted schedule exists in which a late filing makes the deletion fail. |
| DeleteInterleaved.TargetVanishes | internal/api/collection/repository.go:324-350 | From every store with an empty source and an empty target a permitted schedule exists in which a move succeeds although its target has gone. |
| DeleteInterleaved.SourceVanishes | internal/api/collection/repository.go:324-350 | From every such store a permitted schedule exists in which the missing target is reported although the source has gone as well. |
| PutInterleaved.AlwaysConsistent | internal/api/collection/repository.go:125-247 | However the statements of a put interleave with other committed transactions, the committed store meets every constraint at every moment. |
| PutInterleaved.NothingShowsUntilCommit | internal/api/collection/repository.go:235-240 | Unless and until the put succeeds, the committed store is what the other transactions alone leave. |
| PutInterleaved.DecidesAtomically | internal/api/collection/repository.go:125-247 | The split put decides as the atomic one would on the store of that moment, except that it may fail internally, which the atomic one never does, and then leaves nothing. |
| PutInterleaved.SuccessFilesUnderTheName | internal/api/collection/service.go:78-101 | A put that succeeds has filed the item under the submitted name; created and already are reported exactly. |
| PutInterleaved.FailsInternallyExactly | internal/api/collection/repository.go:1188-1240 | In every schedule the next statement fails internally if and only if the collection that was found under the name, and held it when it was found, has been removed since and, before the look-up, nothing has taken the name; a create never does. |
| PutInterleaved.RemovedBeforeLookup | internal/api/collection/repository.go:1181-1235 | From every store with an empty destination a permitted schedule ends in the internal failure of the look-up. |
| PutInterleaved.RemovedBeforeMove | internal/api/collection/repository.go:213-233 | From every such store a permitted schedule ends in the internal failure of the move. |
| PutInterleaved.UndisturbedIsAtomic | internal/api/collection/repository.go:125-247 | With no other transaction in between, the split put is the atomic one. |
| Keyset.RestMeaning | internal/api/collection/queries.sql:179-237 | The rows beyond a resume point come strictly in order, and are exactly the table's rows that stand beyond it. |
| Keyset.QueryAnswers | internal/api/collection/queries.sql:179-237 | A query answers with rows beyond the cut, in order, as many as were asked for or all there are, and every row it leaves out stands after every row it gives. |
| Keyset.AnswerIsUnique | internal/api/collection/queries.sql:179-237 | No other sequence of rows meets that description. |
| Keyset.PageSplits | internal/api/collection/repository.go:436-462 | A row still to come is on the page or beyond the place where the page's token resumes. |
| Keyset.RestAfterPage | internal/api/collection/repository.go:436-462 | On an unchanged table, what is left after a page is what was left before, less the page. |
| Keyset.RowsComeInOrder | internal/api/collection/service.go:154-158 | However the table changes between pages, the rows of a reading come strictly in order. |
| Keyset.NothingIsMissed | internal/api/collection/service.go:154-158 | A place held at every page read is among those returned by a reading that completes. |
| Keyset.PagesMakeTheTable | internal/api/collection/repository.go:436-462 | A completed reading of an unchanging table returns it whole and in order, whatever the page sizes. |
| Keyset.NumberOfPages | internal/api/collection/repository.go:436-462 | It takes the length divided by the page size, rounded up and one at least, and all pages but the last are full. |
| Codecs.SomeCodecIsFaithful | internal/pagination/cursor.go:58-94 | What the token theorems rely on is met by some codec, whatever the lower-casing. |
| Cursor.EnvelopeRoundTrip | internal/pagination/cursor.go:58-129 | A payload survives its token, one of another version is told apart, and read as the other payload type only the shared members remain. |
| Cursor.DecodeCollectionCursor | internal/api/collection/service.go:257-320 | An accepted position after a row has a value and an identifier, and a parsed time exactly for the sorts by time. |
| Cursor.CollectionCursorRoundTrip | internal/api/collection/service.go:343-374 | A token decodes, to exactly its page's last place, if and only if it is used with its own sort and that row had a non-nil id and, for the sort by name, a non-blank name. |
| Cursor.AcceptedUnderOneSort | internal/api/collection/service.go:270-274 | Whoever wrote it, a token is accepted under one sort at most. |
| Cursor.GroupIsNotAssumed | internal/api/collection/types.go:187-194 | A payload reads as "after Unsorted" only when it says so itself and carries no position. |
| Cursor.GroupIsAlwaysWritten | internal/api/collection/types.go:187-194 | Whoever wrote it and however it was cut short, an accepted token writes out the group it is read as. |
| Cursor.ItemCursorRoundTrip | internal/api/saved_item/service.go:427-490 | A saved item token decodes to its page's last place if and only if that id is not nil. |
| Cursor.ItemTokenIsNoCollectionToken | internal/api/collection/service.go:257-274 | The collection listing refuses a saved item token under every sort. |
| Cursor.CollectionTokenReadsAsItemToken | internal/api/collection/service.go:532-562 | The saved item listings accept a collection token if and only if it was issued after a row other than Unsorted whose id is not nil and, under the sort by name, whose name reads as an instant; the position read is stated for every case. |
| Cursor.CollectionTokenText | internal/api/collection/service.go:343-395 | What the text of a collection token is, member by member: version 1, the sort by name, 0 after Unsorted and 1 after a row, and that row's value and identifier. |
| Cursor.ItemTokenText | internal/api/saved_item/service.go:477-487 | The same for a saved item token. |
| Cursor.AcceptedExactly | internal/api/collection/service.go:257-320 | A collection payload is accepted if and only if its version is 1, it was issued under the sort requested, and it is either of the group 0 without a position or of the group 1 with a usable one. |
| Cursor.ItemAcceptedExactly | internal/api/saved_item/service.go:427-457 | A saved item payload is accepted if and only if its version is 1, its value is an instant and its identifier is not nil. |
| Cursor.TokenIsUrlSafe | internal/pagination/cursor.go:58-65 | A token consists of letters, digits, hyphens and underscores. |
| Listing.PlacesAreTheOrder | internal/api/collection/queries.sql:124-128 | Places compare as the listing orders two rows: Unsorted first, then newest, oldest or by reduced name, and ties by id in the same direction. |
| Listing.CutsAreWanted | internal/api/collection/queries.sql:228-233 | A row stands beyond the cut of a position if and only if the row comparison of the sort's statement holds of it and it is not Unsorted. |
| Listing.ListAfterPosition | internal/api/collection/repository.go:596-661 | What comes back are the first rows that the row comparison accepts: in the listing's order, each from the table, and each row left out comes after all of them, which are then as many as were asked for. |
| Listing.ListCollectionsRows | internal/api/collection/repository.go:473-594 | The same for every resume point: all rows without a cursor, all but Unsorted after Unsorted, and those the row comparison accepts after a row. |
| Listing.ReadCollections | internal/api/collection/repository.go:441-462 | The page is the front of what is left, and `hasMore` is true exactly when something is left after it. |
| Listing.ListCollections | internal/api/collection/service.go:168-243 | The service returns the page of the rows beyond the token's position, with a token for the rest exactly when there is a rest; an unknown sort or unusable token is refused. Which order each request text gets, `PageIsAsAsked` states. |
| Listing.ListSavedItems | internal/api/saved_item/service.go:361-413 | The same for saved items, all of a user's or those in one collection. |
| ListingRequests.PageIsAsAsked | internal/api/collection/service.go:168-243 | Every page, for every request text and limit: own rows only; Unsorted first; then newest first for no sort or "newest", oldest first for "oldest", by reduced name for "name", ties by identifier; 20 rows at most for a limit below one, 50 above fifty. Any other text is refused. |
| ListingRequests.FirstPageIsTheFront | internal/api/collection/service.go:168-243 | The first page is the front of that order: every own row left out comes after every row on it, and it says there is more exactly when a row is left out, being full then. |
| ListingRequests.ReadingIsAsAsked | internal/api/collection/service.go:154-166 | A whole reading, whatever changes between its pages, comes in the order the request text asks for, no row twice. |
| ListingRequests.ItemPageIsAsAsked | internal/api/saved_item/service.go:361-413 | Every page of saved items: own items only, of the one collection if one is asked for, newest first, 20 at most by default and 50 at most ever. |
| ListingRequests.FirstItemsAreTheNewest | internal/api/saved_item/service.go:361-413 | The first page of saved items holds the newest of those asked for, and says there is more exactly when one is left out. |
| ListingRuns.StoreIsKeyed | migrations/000022_create_collections_and_saved_item_enrichment.up.sql:41-55 | The store's own constraints make its collections listable. |
| ListingRuns.TokenResumesAtTheRow | internal/api/collection/service.go:333-414 | A page's token resumes exactly after the place of the page's last row, when both sides agree on its name. |
| ListingRuns.NamesThatDiffer | internal/api/collection/service.go:406-414 | Where the two forms of a name differ, the page after a row skips a later row if and only if that row does not stand after the token's form, and repeats one up to it if and only if that row does. |
| ListingRuns.RowComesBack | internal/api/collection/service.go:406-414 | The last row of a page itself comes straight back if and only if the token's form of its name stands before the table's. |
| ListingRuns.TokenIsExactWhereNamesAgree | internal/api/collection/service.go:406-414 | No row can be skipped or repeated after a row if and only if both forms of its name stand at the same place. |
| ListingRuns.TokensFollowPlaces | internal/api/collection/service.go:168-243 | A client that follows the tokens is never refused and gets the pages of the reading by places. |
| ListingRuns.ListedOnceInOrder | internal/api/collection/service.go:154-166 | Whatever is created and deleted between pages, a client gets only its own rows, in the order it asked for, none twice, and Unsorted only as the very first. |
| ListingRuns.PresentThroughoutIsListed | internal/api/collection/service.go:154-158 | A client told that there is no more has had every row that was there at each of its requests. |
| ListingRuns.StillTableIsListedWhole | internal/api/collection/repository.go:436-462 | A table that stays as it is comes back whole and in order, in the exact number of pages, all full but the last. |
| StillReadings.ReadsWholeExactly | internal/api/collection/service.go:333-414 | A table that stays as it is is read whole at every page size, each row once and in order, if and only if the token of each row that has another after it is accepted and resumes with just the rows after it. |
| StillReadings.TimeSortsReadWhole | internal/api/collection/service.go:376-387 | Under the sorts by time every table of the store is read whole. |
| TokenReading.GettingAllIsExact | internal/api/collection/service.go:222-240 | Whatever the rows are, with pages of one row all are got in order only if every token leaves just the rows after its own. |
| ItemListingRuns.ItemsListedOnceInOrder | internal/api/saved_item/queries.sql:122-232 | Whatever is saved, deleted and refiled between pages, a client gets only its own items in scope, newest first, none twice. |
| ItemListingRuns.ItemPresentThroughoutIsListed | internal/api/collection/queries.sql:543-587 | A client told that there is no more has had every item that was in scope at each of its requests, even one refiled meanwhile. |
| ItemListingRuns.StillItemsAreListedWhole | internal/api/saved_item/repository.go:272-343 | Items that stay as they are come back whole and in order, in the exact number of pages. |
| Base64.RoundTrip | internal/pagination/cursor.go:64 | Decoding what was encoded gives it back, for every byte string and both alphabets. |
| Base64.DigitsOfTheTable | internal/pagination/cursor.go:64 | The digits run from A to Z, a to z and 0 to 9, and the two alphabets differ in the last two. |
| Base64.GroupsWriteTheirNumber | internal/pagination/cursor.go:64 | Three bytes and their four digits write one number, most significant first; one byte or two are written with four or two zero bits after them. |
| Phc.SplitOfJoin | internal/security/password.go:314-320 | Splitting a join of parts that avoid the separator gives the parts back. |
| Phc.DecimalRoundTrip | internal/security/password.go:299-312 | The decimal text of every number reads back as that number. |
| Phc.ParseArgon2Params | internal/security/password.go:347-410 | The loop over the settings gives what `ReadParams` says, or the error. |
| Phc.AcceptedParameters | internal/security/password.go:347-410 | Parameters are accepted if and only if every setting can be read and each key occurs, in any order and however often; each is what the last setting of its key says, within its bound. |
| Phc.PhcRoundTrip | internal/security/password.go:299-345 | Decoding an encoded hash gives back parameters, salt and hash. |
| Phc.DecodedIsBounded | internal/security/password.go:314-345 | Whatever was stored, a hash that decodes asks for no more than the ceilings, and has a salt and a hash. |
| Phc.VerifiesByDeriving | internal/security/password.go:210-297 | A password matches any well-formed stored hash if and only if deriving with the stored salt, parameters and length gives the stored bytes; a match is flagged by the three thresholds and a mismatch never. |
| Phc.StoredHashVerifies | internal/security/password.go:210-297 | A stored hash under any acceptable parameters verifies its password, and is flagged for rehashing exactly when it has less than 65536 KiB, fewer than three iterations or fewer than four lanes. |
| Phc.FreshHashVerifies | internal/security/password.go:124-238 | A freshly hashed password matches and needs no rehash; another matches exactly when it derives the same 32 bytes under the active parameters. |
| Phc.FreshHashText | internal/security/password.go:299-312 | The stored text of a fresh hash, to the letter: "$argon2id$v=19$m=65536,t=3,p=4$", the salt, "$" and the hash. |
| Phc.PieceIsRead | internal/security/password.go:353-397 | A setting with a plainly written number is read if and only if its key is m, t or p and the number is at least one and at most 131072, 8 or 255. |
| Phc.StoredRefusals | internal/security/password.go:314-345 | Which error each stored text is refused with, by its parts, in the order in which they are looked at. |
| Text.BlankMeansAllSpace | internal/enrichment/extract.go:30-44 | A string trims to nothing if and only if every character of it is space. |
| Text.TrimTakesSpace | internal/enrichment/extract.go:30-44 | Trimming leaves a stretch of the string and takes away only whitespace at its two ends. |
| JsonLd.Document.Set | internal/enrichment/extract.go:30-44 | The first value that is not blank stays, trimmed; an empty key, a blank value and a later one change nothing. |
| JsonLd.Document.WalkJsonLd | internal/enrichment/extract.go:288-302 | The recursive walk over the map in place leaves what `Walk` says, and terminates by structural descent. |
| JsonLd.Document.WalkJsonLdObject | internal/enrichment/extract.go:304-361 | The walk of one object leaves what `WalkObject` says. |
| JsonLdSources.PageObjectTells | internal/enrichment/extract.go:304-361 | An object that is neither an organisation nor a web site, and lists no graph, leaves under each of the seven page candidates just what its property says, in any of the forms a property may take, and nothing where it says nothing. |
| JsonLdSources.PageObjectComesFirst | internal/enrichment/extract.go:304-361 | What an object with a graph says itself has the first word, before the graph. |
| JsonLdSources.SiteObjectTells | internal/enrichment/extract.go:304-317 | An organisation or web site, by whatever qualified name of its type and wherever it stands, fills its own candidate with its name if that is free, and tells nothing else. |
| JsonLdSources.GraphTells | internal/enrichment/extract.go:338-342 | An object that only lists a graph tells what the graph tells, no more of a reference than before. |
| JsonLdSources.ListTells | internal/enrichment/extract.go:288-302 | A list tells in turn, item by item, whatever was recorded before. |
| JsonLdSources.PropertyTells | internal/enrichment/extract.go:344-360 | An object under any other property is entered as a reference; those under publisher, author and image, and values that are no objects, are passed over. |
| JsonLdSources.TypeIsLastSegment | internal/enrichment/extract.go:363-402 | The type is the part after the last of / # : in lower case, of a text or of the first text in a list. |
| JsonLdSources.NameIsRead | internal/enrichment/extract.go:426-456 | A publisher or author is a text, the name of an object, or the first name in a list of objects. |
| JsonLdSources.ImageIsRead | internal/enrichment/extract.go:458-494 | An image is a text, the url of an object or failing that its contentUrl, or the first of such in a list. |
| JsonLdOrder.Lookup | internal/enrichment/extract.go:409-429 | Looking a key up in a decoded object does not see the order of its fields. |
| SiteNames.WalkOver | internal/enrichment/extract.go:26-45 | What is recorded already stays, and what the walk records besides does not depend on it. |
| SiteNames.WalkGives | internal/enrichment/extract.go:304-361 | The walk has a site name exactly when the value can give one, and it is one of those the value can give. |
| SiteNames.SameNamings | internal/enrichment/extract.go:304-361 | Which names a value can give does not depend on the order in which its objects are listed. |
| SiteNames.PossibleNames | internal/enrichment/extract.go:348-360 | A name can be given if and only if some order of the objects in the value leaves it, whatever was recorded before under other keys. |
| SiteNames.SettledByOneName | internal/enrichment/extract.go:281-302 | All orders leave the same site name if and only if the value can give at most one. |
| JsonLdAgreement.ReferencesNameOnlySites | internal/enrichment/extract.go:344-347 | Below a reference the walk changes nothing but the two site names. |
| JsonLdAgreement.OrderIndependent | internal/enrichment/extract.go:288-361 | Whatever the iteration order at every object, the walk fills the same keys, and all but the two site names with the same values. |
| PageExtraction.Extract | internal/enrichment/extract.go:53-149 | The token loop leaves the candidates that `ScanAll` says, or fails where the reader does. |
| PageSources.MetaSays | internal/enrichment/extract.go:169-201 | A meta tag: the last naming attribute, trimmed and in lower case, is filled with the first content if it is free and the content is not blank; nothing else changes. |
| PageSources.LinkSays | internal/enrichment/extract.go:203-239 | A link with "canonical" among the words of any of its relations fills the canonical address with its first href. |
| PageSources.OtherLinksSayNothing | internal/enrichment/extract.go:203-239 | Any other link changes nothing. |
| PageSources.WordsAreWords | internal/enrichment/extract.go:219-227 | The words of a text are exactly what stands in it between whitespace or its ends. |
| PageSources.TitleSays | internal/enrichment/extract.go:87-147 | In every page, the end of a title fills the title element's candidate with all the text since the title began, whatever tags come between. |
| PageSources.ScriptIsJsonLd | internal/enrichment/extract.go:146-167 | A script is JSON-LD if and only if its first type, trimmed, in lower case and up to a semicolon, is application/ld+json. |
| PageSources.BlockSays | internal/enrichment/extract.go:248-262 | In every page, a JSON-LD block outside a title adds what the walk of its value gives, and nothing when its text is blank or not JSON; what was found before stays. |
| PageSources.TextsAreTakenFrom | internal/enrichment/constants.go:12-98 | Title, description and author are what the first source to say something says, in the order of sources given for each. |
| PageSources.SitesAreTakenFrom | internal/enrichment/constants.go:12-98 | The same for platform and site name. |
| PageSources.UrlsAreTakenFrom | internal/enrichment/constants.go:12-98 | The same for image and canonical address. |
| PageExtraction.PageIsOrderIndependent | internal/enrichment/extract.go:53-149 | Two readings of one page agree on every flag and on all candidates but the two site names. |
| PageReadings.ReadingGives | internal/enrichment/extract.go:53-149 | Every reading of a page finds one of the choices under a key, and nothing exactly when there are none; the choices are those of the first token that can give the key anything. |
| PageReadings.ReadingAttains | internal/enrichment/extract.go:53-149 | Every choice is what some reading of the page finds. |
| PageReadings.ReportIsSettledExactly | internal/enrichment/select.go:36-54 | For any precedence list and any report of a candidate, all readings of a page report the same if and only if all the list's choices read alike. |
| PageReadings.PlatformIsSettledExactly | internal/enrichment/select.go:16-54 | All readings report the same platform if and only if everything that can be chosen for it reads alike. |
| PageReadings.SiteNameIsSettledExactly | internal/enrichment/select.go:16-54 | All readings report the same site name if and only if everything that can be chosen for it reads alike. |
| PageReadings.OtherListsAreSettled | internal/enrichment/select.go:36-54 | A list without a site name chooses the same candidate in all readings. |
| PageReadings.MetadataIsDeterministic | internal/enrichment/select.go:16-54 | Title, description, image, canonical URL and author are the same in all readings. |
| PageReadings.ReadingsDisagree | internal/enrichment/extract.go:281-302 | A page that names two web sites has two readings whose platforms and whose site names differ. |
| PageReadings.OneOrganizationIsSettled | internal/enrichment/extract.go:314-317 | A page that names one organisation and nothing else has that name as its platform in every reading. |
| PageReadings.MetaReachesExactly | internal/enrichment/constants.go:113-114 | Some meta tag fills a free key, those written like markup included, if and only if trimming and lower-casing some text gives the key. |
| PageReadings.MetaReachesMarkup | internal/enrichment/constants.go:113-118 | Where lower-casing leaves them alone, the title element's key and the canonical link's are filled by some meta tag. |
| PageReadings.MetaTakesTheTitle | internal/enrichment/constants.go:113-118 | A meta tag with the title element's key, before that element has ended, is the title of a page that states none in its metadata. |

## Left out

- HMAC key derivation, identifier generation, Argon2, HTTP, TLS, charset decoding and HTML
  tokenising: library calls. A key stands for one subject, fresh identifiers are distinct,
  Argon2 is a deterministic function whose output has the length asked for, and a page is its
  token sequence.
- JSON text, RFC 3339 text and UUID text: the printers and parsers are parameters of `Cursor`,
  relied on only to read back what they wrote, for JSON without fractions; `Codecs` has a codec
  that does. How a decoded JSON object fills a payload is modelled.
- The agreement of the server's lower-casing with the database's `lower(btrim(name))`, and the
  collation: one named assumption, `ListingRuns.NameAgrees`, on an abstract reduction and rank.
- URL resolution and text normalisation in `internal/enrichment/normalize.go`: functions of the
  chosen candidate, taken as parameters of the selection.
- `optionalText`, `deriveDomain`: flat computations with no state.
- Redis replies that get lost after a script ran: a call that gets no answer is taken not to have
  run.
- The boundary of Redis expiry: a key is taken as expired strictly after its deadline.
- The timer of one `Acquire` call: it may fire at any moment while its caller waits, so nothing is
  claimed about how long a caller waits. A release called again while the first is still running
  returns at once here, where the program waits for the first to finish; neither changes anything.
- Saving a URL and deleting an item: single statements, so nothing comes between.
- Lock waits and deadlocks: other transactions are restrained by what the deletion or the put holds,
  and never wait.
- The messages of parse errors: the codec reports one error per stage.
- Saved item counts in the collection listing, display columns, and the owner check before the
  listing of one collection's items: rows carry what ordering and scoping read.
- Custom matching methods on errors: an error is a tree of wraps and joins.
- PerEmail budget and its recovery flow, registration, login, sessions, password reset: their use
  of the limiter is the discipline stated in `EmailBudget.Disciplined`.
- Enrichment workers, search ranking, HTTP handlers, mappers, configuration: no state of the kind
  modelled here.
- SendsStayWithinBudget: counts by the moment of reservation and within the window less twice the
  clock error, because that is the longest stretch for which it is true.
- RefusedBeforeWait: is stated for one clock and without refunds, which is all the source promises.
- ItemPresentThroughoutIsListed: speaks of an item by its identifier, because the collection it is
  filed in may change during the reading.
- DecidesAtomically: has three exceptions for the deletion and one for the put, which are what the
  statements do under read committed.
