# Verification of the rate-limiting protocol

A Dafny model of the logical core of a distributed rate limiter: five admission algorithms (token
bucket, leaky bucket, fixed window, sliding window counter, sliding window log), each run as an
optimistic loop of at most five attempts over a shared store of versioned values (read the clock,
`get`, decide, `cas`), with the in-process store or an etcd cluster behind it.

`dafny verify dfyconfig.toml` checks everything.

## How it is built

- **Decisions.** `TokenBucket`, `LeakyBucket`, `FixedWindow`, `SlidingWindowCounter` and
  `SlidingWindowLog` hold the state each limiter stores and one attempt as a function
  (`Step`, and `Attempt` from what `get` returned). `Runs` folds any decision function over the
  commits under one key.
- **Whole runs.** `TokenBucketRuns`, `BucketDuality`, `FixedWindowRuns`, `SlidingCounterRuns`,
  `SlidingCounterBursts`, `SlidingLogRuns` and `Remaining` prove what the algorithms promise over every
  run of commits; `TokenBucketClocks`, `LeakyBucketClocks` and `SlidingCounterClocks` say on exactly
  which clocks, as the modules of the other two do for theirs.
- **Denied checks.** A denied check writes. `DeniedChecks` says when no other check can tell, for any
  decision function; `DeniedBuckets`, `DeniedWindows` and `DeniedCounter` give the clocks on which that
  holds of each algorithm, exactly, and `DeniedForward` the clocks it holds on for all five.
- **Stores.** `StateStore` is the contract as functions of a store's contents; `LocalStore`,
  `EtcdStore` and the `SharedStore` that hides which one is used are imperative, and their methods
  are proved against it.
- **Concurrency.** `Protocol` is a step relation over any number of checks and plain writers, in
  which reading the clock, `get`, `cas`, drawing a version and inserting it are separate steps and
  store faults are part of the steps. `ProtocolInvariant` proves one invariant of every step;
  `ProtocolTheorems`, `Versions`, `ClockRaces`, `Accounting`, `Isolation` and `EndToEnd` draw the
  consequences, and `Witnesses` shows that their extremes are reached.
- **The limiters.** Five classes with the loop, the arithmetic and the in-place work of the log,
  written out. Each `Check` runs against a shared store while others take any steps of the protocol
  before its two requests (`Surroundings` carries them out on the store): they start checks of their
  own, read, commit and put. It is proved to do what `CheckLoop.CheckRun` says and to leave a state
  of the protocol, so that the bounds of `EndToEnd` hold of it.

Clock readings are milliseconds and non-negative; costs are `u32`; quantities kept in `f64` are
exact reals, and `as i64` truncates and saturates.

A *clock* below is the sequence of readings that the commits of a run were decided with, in the order
in which they took effect; it *goes forward* if no reading is earlier than the one before it. A bound
"under a key that only checks write" speaks of the commits on a key that nobody puts to.

Every lemma that Dafny would do by induction on its own carries `{:induction false}`: the proofs are
those written down.

## Where the code and its documentation part

The code is followed, and the exact condition is proved where there is one.

- A check reads the time before the store, so time that only moves forward guarantees nothing about
  the clock of the commits: every run of commits, with any readings in any order, is what some
  faultless interleaving commits in which time only moves forward (`ClockRaces.EveryRunHappens`). No
  bound in time holds unconditionally. The clocks on which it holds are given exactly, for each
  algorithm (`BoundedExactly` in `TokenBucketClocks`, `LeakyBucketClocks`, `FixedWindowRuns`,
  `SlidingCounterClocks` and `SlidingLogRuns`). The sliding log is described as perfectly accurate:
  it is so on exactly the clocks of `SlidingLogRuns.AgreesExactly`. Its state is described as oldest
  first: it is so on exactly the clocks of `SlidingLogRuns.SortedExactly`.
- The sliding counter is described as having no boundary burst. It has none exactly when its limit
  is at most 1 or its window one second long, that is, when `max * (window - 1) < window`
  (`SlidingCounterBursts.NoBurstExactly`; for spans made of whole seconds, exactly when
  `max * (window - 2) < window`, `SlidingCounterBursts.NoBurstInSecondsExactly`). Otherwise, on a
  clock that goes forward, a span of one window's length that ends `offset` seconds into a window
  admits up to `max * (1 + offset / window)`, rounded down (`SlidingCounterBursts.LimitAndBurst`,
  `SlidingCounterBursts.SpanBoundAttained`): never twice the limit.
- The counter's `remaining` is zero on every denial, also when there is room for a smaller request
  (`Remaining.SlidingCounterUnderreports`; the exact condition is `Remaining.SlidingCounterExact`).
- A version is described as monotone. `put` draws its version before it takes the lock, so a key's
  version can go down (`ProtocolTheorems.PutsCanLowerAVersion`), and does so exactly when a put is
  overtaken between the two (`Versions.IncreasingExactly`); no check is misled by it.
- `cas` with an expected version of 0 on an absent key succeeds over etcd and fails locally. No
  version handed out by `get` is 0, so no limiter meets the difference
  (`CheckLoop.SeenVersionsAreIssued`).
- The sliding log's retry hint names the expiry of the oldest unit, which is too early for a request
  that needs more of them to expire (`SlidingLogRuns.AdmittedAgainExactly` gives the exact time).
- The sliding counter's retry hint is the start of the next window, which can be too late, since the
  estimate fades inside the window, or too early (`SlidingCounterRuns.AdmittedAgainExactly` gives the
  exact times).
- A bucket's retry hint is rounded down: a request repeated exactly then is denied again, unless what it
  lacked refills to the millisecond (`TokenBucketRuns.RetryHintTight`, `BucketDuality.LeakyRetryHintTight`).
- The retry hint of a request that costs more than the limit names a time at which it is denied
  again; the lemmas about hints say so with their last condition.

## Model

| member | source | states |
|---|---|---|
| LocalStores.LocalStore.Get | src/store/local.rs:34-36 | the current value and version of a key, or none |
| LocalStores.LocalStore.Put | src/store/local.rs:38-42 | an unconditional write under the next version, which it returns; the version counter goes up by one, and every other key stays |
| LocalStores.LocalStore.Cas | src/store/local.rs:44-62 | writes exactly when the expectation holds, an absent key included, under the next version; otherwise changes nothing and reports the version that is stored, 0 if there is none |
| EtcdStores.EtcdStore.Get | src/store/etcd.rs:31-37 | the value and modification revision under the prefix, a slash and the key; none for an absent key, and whenever the request fails |
| EtcdStores.EtcdStore.Put | src/store/etcd.rs:39-48 | a write under the prefix, a slash and the key, at the next revision; after an error 0 is reported, and the write was applied at once or never is |
| EtcdStores.EtcdStore.Cas | src/store/etcd.rs:50-81 | meets the `cas` contract with creation and modification revisions, except for version 0 of an absent key; any error is a conflict, also when the write was applied (at once, or else never), and a conflict reports the revision a second read finds, 0 if there is none or the read fails |
| CheckLoop.SeenVersionsAreIssued | src/store/etcd.rs:54-59 | what a check passes back to `cas` is never 0, so no check meets that exception |
| Surroundings.LetOthers | src/store/mod.rs:20-31 | the steps of others, carried out on either store, leave it as the protocol says |
| SharedStores.SharedStore.Cas | src/store/mod.rs:27-31 | both implementations meet one contract, faults included, under the key itself locally and under the prefixed key over etcd: what is written, what is answered, and the stored version with a conflict; over etcd a version of 0 expected of an absent key is accepted too |
| SharedStores.SharedStore.Get | src/store/mod.rs:21-22 | both implementations read the same model, under the same keys; only over etcd can the read fail |
| SharedStores.SharedStore.KeysApart | src/store/etcd.rs:24-26 | no two keys share an entry, in either store |
| SharedStores.SharedStore.ChecksApart | src/algorithms/token_bucket.rs:50 | among clients without a slash, two checks reach one entry of a store only if they have the same algorithm, client and resource |
| TokenBucketLimiters.TokenBucketLimiter.Check | src/algorithms/token_bucket.rs:49-107 | for any steps of others before each request, the imperative loop, under the key of its algorithm, client and resource, leaves the store and the protocol exactly as the specification of the loop says, in a state of the protocol, and answers with the decision of its commit, or with a denial that names 100 ms |
| TokenBucketLimiters.TokenBucketLimiter.Decide | src/algorithms/token_bucket.rs:68-87 | its refill and decision arithmetic is the step the whole-run theorems are about |
| LeakyBucketLimiters.LeakyBucketLimiter.Check | src/algorithms/leaky_bucket.rs:46-107 | the same for the leaky bucket |
| LeakyBucketLimiters.LeakyBucketLimiter.Decide | src/algorithms/leaky_bucket.rs:67-87 | its leak and queue arithmetic is the step the whole-run theorems are about |
| FixedWindowLimiters.FixedWindowLimiter.Check | src/algorithms/fixed_window.rs:46-105 | the same for the fixed window |
| FixedWindowLimiters.FixedWindowLimiter.Decide | src/algorithms/fixed_window.rs:67-85 | its window counting is the step the whole-run theorems are about |
| SlidingWindowCounterLimiters.SlidingWindowCounterLimiter.Check | src/algorithms/sliding_window_counter.rs:50-129 | the same for the sliding window counter |
| SlidingWindowCounterLimiters.SlidingWindowCounterLimiter.Decide | src/algorithms/sliding_window_counter.rs:76-105 | its rolling, weighting and decision is the step the whole-run theorems are about |
| SlidingWindowLogLimiters.SlidingWindowLogLimiter.Check | src/algorithms/sliding_window_log.rs:49-112 | the same for the sliding window log |
| SlidingWindowLogLimiters.SlidingWindowLogLimiter.Decide | src/algorithms/sliding_window_log.rs:71-92 | pruning in place and pushing one timestamp per unit give the step the whole-run theorems are about |
| SlidingWindowLogLimiters.Timestamps.Retain | src/algorithms/sliding_window_log.rs:70-71 | keeps exactly the timestamps newer than the cutoff, in their order |
| CheckLoop.CheckIsInterleaving | src/algorithms/token_bucket.rs:53-107 | whatever others do around a check and whatever fails, it leaves a state that an interleaving of the protocol leads to, without faults on the local store |
| CheckLoop.FreshStoresReached | src/store/local.rs:19-24 | a fresh store of either kind is a state of the protocol |
| CheckLoop.UndisturbedCommits | src/algorithms/token_bucket.rs:82-98 | an attempt between whose requests nobody changes the key commits, and answers with the decision on what was stored |
| CheckLoop.ChecksAloneAreTheRun | src/algorithms/token_bucket.rs:53-107 | checks left alone on a fresh key return the decisions of the sequential run |
| ProtocolInvariant.StepKeeps | src/store/local.rs:34-62 | one invariant (versions, store against history of writes, every check's knowledge, ownership of commits) is kept by every step |
| ProtocolInvariant.ReachableInv | src/store/local.rs:34-62 | it holds after every interleaving |
| ProtocolTheorems.Linearizable | src/algorithms/token_bucket.rs:53-106 | in every interleaving, with or without faults, every key holds the fold of its writes, and every committed check returned its decision on the state just before a commit made between its start and its end |
| ProtocolTheorems.SequentialRun | src/algorithms/token_bucket.rs:53-106 | after every interleaving, a key written only by checks holds the sequential run of its commits, with that run's decisions |
| ClockRaces.EveryRunHappens | src/algorithms/token_bucket.rs:58-59 | every run of commits, with any clock readings, is committed by some faultless interleaving in which time only moves forward |
| ProtocolTheorems.CurrentIffUntouched | src/store/local.rs:44-62 | no ABA: an attempt finds its version if and only if nobody wrote the key since its `get`, and then the key holds what it saw |
| ProtocolTheorems.VersionsStoredOnce | src/store/local.rs:27-29 | no version is stored twice, although `put` inserts later than it draws |
| Versions.CommitsExceedAll | src/store/local.rs:54-57 | a commit's version exceeds every version written before it, under any key |
| Versions.CommitsOnlyIncrease | src/store/mod.rs:15-18 | the versions of a key that nobody puts to strictly increase, whatever is put elsewhere |
| Versions.IncreasingExactly | src/store/local.rs:38-42 | the versions of a key increase if and only if no put to it is overtaken between drawing its version and inserting it |
| ProtocolTheorems.PutsCanLowerAVersion | src/store/local.rs:38-42 | two overlapping `put`s can leave the lower version |
| ProtocolTheorems.GivingUpHasNoEffect | src/algorithms/token_bucket.rs:100-106 | a check that gave up wrote nothing, if none of its own requests failed: always so on the local store, and over etcd whatever failed for others |
| ProtocolTheorems.GiveUpIsCovered | src/algorithms/token_bucket.rs:53-106 | behind every give-up there are at least five failed requests of that check or writes of others to the key during the call |
| ProtocolTheorems.GiveUpNeedsFiveOthers | src/algorithms/token_bucket.rs:53-106 | on the local store, among checks only, at least five different other checks committed on the key during the call |
| ProtocolTheorems.FourOthersNeverExhaust | src/algorithms/token_bucket.rs:53-106 | a check that at most four others overlap commits |
| Witnesses.FiveOthersExhaust | src/algorithms/token_bucket.rs:53-106 | five are enough: five other checks and nobody else make a check on the local store give up |
| Accounting.AdmittedAtMostCharged | src/store/etcd.rs:65-80 | the cost admitted to any set of callers, decided in any set of instants, is at most the cost charged in the store, whatever fails |
| Accounting.ChargedAtMostFiveTimes | src/store/etcd.rs:65-80 | a check is charged at most five times, and at most once without faults |
| Witnesses.FiveChargesHappen | src/store/etcd.rs:65-80 | and five charges do occur: a check over etcd whose commits are applied but not confirmed is charged five times and told it failed |
| Accounting.AdmittedIsCharged | src/store/local.rs:44-62 | without faults, all callers together are admitted exactly the cost charged in the store |
| Accounting.FreshStateOnlyOnFreshKey | src/store/etcd.rs:31-37 | a failed `get` never leads to an existing state being reset |
| Accounting.AdmittedAtMostRun | src/algorithms/token_bucket.rs:53-106 | callers get at most what the sequential run of the key's commits admits |
| Isolation.KeysIsolated | src/store/local.rs:34-62 | projecting any interleaving onto one key is a legal interleaving of that key alone, with the same value, versions, writes and decisions |
| Keys.KeysInjective | src/algorithms/fixed_window.rs:47 | client ids without a slash never share a key across algorithms, clients and resources |
| Keys.KeysSpelled | src/algorithms/token_bucket.rs:50 | each algorithm's key is its name, the client and the resource, joined by slashes |
| Keys.CollideExactly | src/algorithms/token_bucket.rs:50 | two different ids can share a key if and only if one continues the other past a slash |
| Keys.FullKeysInjective | src/store/etcd.rs:24-26 | under etcd a key is held as the prefix, a slash and the key, so one prefix keeps keys apart |
| Keys.NamespacesApart | src/store/etcd.rs:10-26 | two prefixes can share an entry if and only if one continues the other past a slash; prefixes without a slash never do |
| EndToEnd.TokenBucketCallers | src/algorithms/token_bucket.rs:53-106 | under a key that only checks write, in every interleaving, faults included: if the clock of the key's commits never moves forward further than it gets (`TokenBucketClocks.AlwaysStraight`), any set of callers is admitted in an interval at most a full bucket and its refill |
| EndToEnd.LeakyBucketCallers | src/algorithms/leaky_bucket.rs:51-106 | the same for the leaky bucket, under the same two conditions: at most a full queue and what drains |
| EndToEnd.FixedWindowCallers | src/algorithms/fixed_window.rs:50-104 | under a key that only checks write, if the commits never re-enter a window they left: in any interval of time at most the limit times the windows it touches |
| EndToEnd.SlidingCounterCallers | src/algorithms/sliding_window_counter.rs:54-128 | under a key that only checks write, if the commits' clock keeps its spans (`SlidingCounterClocks.SpansKept`): at most `max * (1 + offset / window)` in a window's length, in ms, ending at that offset |
| EndToEnd.SlidingLogCallers | src/algorithms/sliding_window_log.rs:53-111 | under a key that only checks write, if nothing that a commit pruned shares a span with a later one: at most the limit in every span of one window |
| EndToEnd.CheckKeepsScene | src/algorithms/token_bucket.rs:53-107 | if nobody puts to any key meanwhile, what a `Check` leaves on a key that only checks wrote, with checks of others around it, is again a state those five bounds speak of |
| EndToEnd.TokenBucketCheck | src/algorithms/token_bucket.rs:53-107 | the token bucket's bound after such a check, contended or not, if the clock of the commits it leaves is straight |
| EndToEnd.CheckGaveUp | src/algorithms/token_bucket.rs:100-106 | on a key that only checks write, such a check gives up on the local store only if five others committed to its key during the call |
| TokenBucketRuns.AdmitsExactlyTheEnvelope | src/algorithms/token_bucket.rs:68-79 | on any clock, a request is admitted if and only if it fits the rate envelope anchored at every earlier commit, steps back of the clock accruing nothing |
| TokenBucketRuns.LevelIsLeastHeadroom | src/algorithms/token_bucket.rs:68-79 | on any clock, the tokens present are the least headroom of all those envelopes |
| TokenBucketRuns.HeadroomInTime | src/algorithms/token_bucket.rs:68-69 | on a clock that goes forward, each envelope is the capacity plus the rate times the elapsed time |
| TokenBucketRuns.StretchBound | src/algorithms/token_bucket.rs:68-79 | on a clock that goes forward, every stretch of a run admits at most the capacity plus the rate times its length |
| TokenBucketRuns.TokensInRange | src/algorithms/token_bucket.rs:68-79 | stored tokens stay between 0 and the capacity, whatever the commit times |
| TokenBucketRuns.TokensConserved | src/algorithms/token_bucket.rs:58-79 | whatever the commit times, tokens left plus cost admitted since any commit never exceed the capacity plus the refill of the forward clock moves |
| TokenBucketRuns.AccruedIsElapsed | src/algorithms/token_bucket.rs:68-69 | without regressions that refill is the rate times the elapsed time |
| TokenBucketRuns.RetryHintTight | src/algorithms/token_bucket.rs:71-77 | repeated before the hint, with nothing admitted in between, a denied request is denied again; at the hint it is admitted exactly if what it lacked refills to the millisecond, and after it exactly if the bucket can hold it at all, unless the hint saturated |
| TokenBucketRuns.RetryHintExact | src/algorithms/token_bucket.rs:73-77 | for any cost, the hint of a denial is the last whole millisecond whose refill does not exceed what is lacking, or the end of the `i64` range |
| TokenBucketRuns.GainInTime | src/algorithms/token_bucket.rs:68-69 | what refills is the rate per second times the milliseconds elapsed, over 1000; nothing when the clock went back |
| Limiter.AsI64Truncates | src/algorithms/token_bucket.rs:75-88 | the casts keep the integer part, toward zero, and saturate at both ends |
| TokenBucketClocks.BoundedExactly | src/algorithms/token_bucket.rs:58-79 | the bound of every interval holds, for all capacities, rates and costs, on exactly the clocks that between any two commits move forward no further than the two readings are apart |
| TokenBucketClocks.ForwardClockIsSafe | src/algorithms/token_bucket.rs:58-79 | clocks that go forward are among those |
| BucketDuality.RunsDual | src/algorithms/leaky_bucket.rs:67-87 | on every run, regressions included, the leaky bucket and the token bucket of equal rate and capacity charge alike and give the same answers (the limit they report agrees for capacities within `i64`) |
| BucketDuality.LeakyStretchBound | src/algorithms/leaky_bucket.rs:67-79 | on a clock that goes forward, every stretch admits at most the queue's capacity plus what drains |
| BucketDuality.QueueConserved | src/algorithms/leaky_bucket.rs:67-79 | on any clock, all that was ever admitted is still queued or had its forward clock moves to drain in |
| LeakyBucketClocks.BoundedExactly | src/algorithms/leaky_bucket.rs:56-79 | its interval bound holds on exactly the same clocks as the token bucket's |
| BucketDuality.LeakyRetryHintTight | src/algorithms/leaky_bucket.rs:71-77 | its retry hint is tight to a millisecond, as the token bucket's is |
| BucketDuality.LeakyRetryHintExact | src/algorithms/leaky_bucket.rs:71-77 | for any cost, the hint of a denial is the last whole millisecond in which no more drains than is in the way, or the end of the `i64` range |
| FixedWindowRuns.AdmitsExactlyTheWindow | src/algorithms/fixed_window.rs:67-77 | on a clock that never re-enters a window it left, a request is admitted if and only if it fits with what its aligned window has admitted |
| FixedWindowRuns.CountSinceEntered | src/algorithms/fixed_window.rs:67-77 | on any clock, a decision counts what was charged since the commits last entered its window |
| FixedWindowRuns.BoundedExactly | src/algorithms/fixed_window.rs:55-77 | every aligned window stays within the limit on exactly the clocks that never re-enter a window they left |
| FixedWindowRuns.ForwardClockIsSafe | src/algorithms/fixed_window.rs:55-56 | clocks that go forward are among those |
| FixedWindowRuns.SpanBound | src/algorithms/fixed_window.rs:67-77 | on those clocks, any interval of time admits at most the limit times the windows it touches |
| FixedWindowRuns.TwiceTheLimit | src/algorithms/fixed_window.rs:7-8 | on those clocks, a window's length, starting at any millisecond, admits at most twice the limit |
| FixedWindowRuns.TwiceTheLimitAttained | src/algorithms/fixed_window.rs:7-8 | and a run at a boundary, on a clock that goes forward, attains it within two milliseconds |
| FixedWindowRuns.RetryHintExact | src/algorithms/fixed_window.rs:69-75 | with nothing admitted in between, a denied request is admitted later if and only if the hinted number of whole seconds has passed and its cost is within the limit; for any cost the hint leads from the start of the second to the first millisecond of the next window |
| SlidingCounterRuns.FitsExactly | src/algorithms/sliding_window_counter.rs:83-86 | the fractional comparison is an integer one, scaled by the window |
| SlidingCounterRuns.EstimateNeverRises | src/algorithms/sliding_window_counter.rs:76-83 | waiting never raises the weighted estimate, across any number of windows |
| SlidingCounterRuns.EstimateBounded | src/algorithms/sliding_window_counter.rs:76-97 | on a clock that goes forward, the estimate, and each count, stays within the limit at every instant from the last commit on |
| SlidingCounterRuns.CountsAreAdmitted | src/algorithms/sliding_window_counter.rs:76-97 | as long as no reading goes back into an earlier window, the two counts are what their two windows admitted |
| SlidingCounterClocks.CountsAreMoves | src/algorithms/sliding_window_counter.rs:76-97 | on any clock, the two counts are what was charged no roll ago and one roll ago |
| SlidingCounterClocks.SpanBound | src/algorithms/sliding_window_counter.rs:59-98 | a window's length, starting at any millisecond and ending at an offset, admits at most `max * (1 + offset / window)`, on every clock that keeps its spans |
| SlidingCounterClocks.BoundedExactly | src/algorithms/sliding_window_counter.rs:59-98 | for a window shorter than 2^32 seconds, that bound holds, for all limits and costs, on exactly the clocks where two commits in one span are no roll apart, or one roll that comes late enough in the span |
| SlidingCounterClocks.WindowsInOrderAreSafe | src/algorithms/sliding_window_counter.rs:59-60 | clocks that never go back into an earlier window are among those; inside a window they may go back |
| SlidingCounterRuns.ForwardClockInOrder | src/algorithms/sliding_window_counter.rs:59-60 | and clocks that go forward never go back into an earlier window |
| SlidingCounterClocks.BelowTwiceTheLimit | src/algorithms/sliding_window_counter.rs:59-98 | on those clocks, always less than twice a positive limit |
| SlidingCounterBursts.SpanBoundAttained | src/algorithms/sliding_window_counter.rs:59-98 | on a clock that goes forward, every whole number of units within that bound gets through: the limit at the end of a window, the rest at the offset |
| SlidingCounterBursts.LimitAndBurst | src/algorithms/sliding_window_counter.rs:59-98 | on the clocks that keep their spans, a span admits at most the limit and `max * offset / window`, rounded down, more: with the row before, the largest burst there is |
| SlidingCounterBursts.NoBurstExactly | src/algorithms/sliding_window_counter.rs:10 | on clocks that go forward, no span of one window's length ever admits more than the limit if and only if `max * (window - 1) < window`, that is, the limit is at most 1 or the window one second |
| SlidingCounterBursts.NoBurstInSecondsExactly | src/algorithms/sliding_window_counter.rs:10 | for spans of whole seconds, if and only if `max * (window - 2) < window` |
| SlidingCounterClocks.SpanBoundBroken | src/algorithms/sliding_window_counter.rs:76-81 | the shortest failure: one reading from the window before makes a full window admit more |
| SlidingCounterRuns.AdmissionPersists | src/algorithms/sliding_window_counter.rs:76-86 | what would be admitted now would be admitted at every later time |
| SlidingCounterRuns.HintIsRestOfWindow | src/algorithms/sliding_window_counter.rs:89-91 | for any state and cost, the hint of a denial is the whole seconds left of the window, in ms, or the end of the `i64` range |
| SlidingCounterRuns.WaitingAfterDenial | src/algorithms/sliding_window_counter.rs:85-92 | for a window within the `i64` range of ms, and any cost, the hint leads from the start of the second to the start of the next window; with nothing admitted in between, a denied request is admitted there if and only if its own window has room, and two windows on if and only if the limit has |
| SlidingCounterRuns.AdmittedAgainExactly | src/algorithms/sliding_window_counter.rs:76-92 | with nothing admitted in between, the exact times at which a denied request is admitted, inside its window, in the next one, and after |
| SlidingLogRuns.AgreesExactly | src/algorithms/sliding_window_log.rs:58-83 | every decision (allowed, remaining and hint) is what counting the never-pruned history gives, on exactly the clocks where nothing pruned would be counted by a later check |
| SlidingLogRuns.BoundedExactly | src/algorithms/sliding_window_log.rs:58-83 | at most the limit is admitted in every span of one window, ending at any instant, on exactly the clocks where nothing pruned shares a span with a later check |
| SlidingLogRuns.ForwardClockIsSafe | src/algorithms/sliding_window_log.rs:58-59 | clocks that go forward meet both conditions |
| SlidingLogRuns.LogAnswersLikeHistory | src/algorithms/sliding_window_log.rs:71-72 | the stored log answers every question about unpruned readings like the full history |
| SlidingLogRuns.LogIsSurvivors | src/algorithms/sliding_window_log.rs:71-79 | on any clock, the stored log is exactly the admitted units that no later commit has pruned, in the order of the commits |
| SlidingLogRuns.SortedExactly | src/algorithms/sliding_window_log.rs:21-24 | the log is kept oldest first on exactly the clocks that go back behind a reading only once it was pruned |
| SlidingLogRuns.LogInOrder | src/algorithms/sliding_window_log.rs:71-79 | on a clock that goes forward it is oldest first and within the window of the last commit |
| SlidingLogRuns.StoredLogIsRecentHistory | src/algorithms/sliding_window_log.rs:71-79 | on such a clock it holds exactly the admitted units newer than the last cutoff |
| SlidingLogRuns.LogFits | src/algorithms/sliding_window_log.rs:74-77 | it never holds more timestamps than the limit, on any clock |
| SlidingLogRuns.RetryHintEarliest | src/algorithms/sliding_window_log.rs:74-83 | on a clock that goes forward, with nothing admitted in between, the hint is the earliest instant at which one unit is admitted (if the limit is not 0); anything is denied before |
| SlidingLogRuns.HintNamesTheFirst | src/algorithms/sliding_window_log.rs:80-84 | on any clock and for any cost, the hint of a denial is the time until the first unit of the log leaves the window, never 0, and a whole window if the log is empty |
| SlidingLogRuns.AdmittedAgainExactly | src/algorithms/sliding_window_log.rs:71-83 | on a clock that goes forward, with nothing admitted in between, a denied request of any cost is admitted later if and only if it is within the limit and as many of the oldest units as it lacks have expired; the hint names the expiry of the first, or a whole window if there is none |
| DeniedChecks.DeniedLeaveNoTrace | src/algorithms/token_bucket.rs:68-79 | for any decision function, if the decisions of a run and of what is left of it are told by what was charged before them, deleting denied commits changes no other decision and no charge |
| DeniedBuckets.TokenBucketHidesExactly | src/algorithms/token_bucket.rs:68-87 | deleting denied commits changes no other decision, for all capacities, rates and costs, on exactly the clocks that never turn: of any three readings, the middle one lies between the others |
| DeniedBuckets.LeakyBucketHidesExactly | src/algorithms/leaky_bucket.rs:67-87 | the same clocks for the leaky bucket |
| DeniedWindows.FixedWindowHidesExactly | src/algorithms/fixed_window.rs:60-85 | for the fixed window, for all limits and costs, exactly the clocks that never re-enter a window they left |
| DeniedWindows.SlidingLogHidesExactly | src/algorithms/sliding_window_log.rs:71-92 | for the log, exactly the clocks where nothing pruned would be counted by a later check |
| DeniedCounter.SlidingCounterHidesExactly | src/algorithms/sliding_window_counter.rs:76-98 | for the counter, with a window shorter than 2^32 - 1 seconds, exactly the clocks where a charge weighs at every later commit what its own reading says, however often the counts were rolled on in between |
| DeniedCounter.WindowsInOrderKeepWeights | src/algorithms/sliding_window_counter.rs:76-81 | clocks that never go back into an earlier window are among those |
| DeniedForward.AllFiveHideDenials | src/algorithms/token_bucket.rs:68-98 | on clocks that go forward, for all five algorithms: deleting any set of denied commits changes no other decision |
| Remaining.TokenBucketExact | src/algorithms/token_bucket.rs:86 | after any commit, a further check at that instant is admitted if and only if its cost is within `remaining`, which is the whole part of the tokens left |
| Remaining.LeakyBucketExact | src/algorithms/leaky_bucket.rs:86 | the same of the room left in the queue |
| Remaining.FixedWindowExact | src/algorithms/fixed_window.rs:84 | the same; `remaining` is the limit less the stored count |
| Remaining.SlidingLogExact | src/algorithms/sliding_window_log.rs:91 | the same; `remaining` is the limit less the units stored |
| Remaining.SlidingCounterExact | src/algorithms/sliding_window_counter.rs:94-104 | the same if and only if the cost fits in the room the estimate leaves, or that room is less than one unit; `remaining` is the whole part of the room left by an admitted request, and 0 for a denied one |
| Remaining.SlidingCounterUnderreports | src/algorithms/sliding_window_counter.rs:104 | a denial that reports 0 with the whole window free |

## Left out

- SlidingCounterClocks.BoundedExactly: for windows shorter than 2^32 seconds, since no single request can ask for more units; that the condition is enough (`SpanBound`) needs no such limit.
- DeniedCounter.SlidingCounterHidesExactly: for windows shorter than 2^32 - 1 seconds, for the same reason; that the condition is enough (`SlidingCounterHides`) needs no such limit.
- BucketDuality.RunsDual: the reported limit is compared for a queue capacity within `i64`, beyond which the original's cast of it wraps; everything else for every capacity.
- EtcdStores.EtcdStore.Cas: a transaction that returned an error can still be applied by the cluster later, after the second read and while the check goes on; here it is applied at once or never. The protocol, and all that is proved over etcd, assumes the same.
- EtcdStores.EtcdStore.Put: likewise for a put that returned an error.
- Stored bytes that do not decode, on which the original falls back to a fresh state: the store holds states, and one store holds those of one algorithm.
- Rounding of `f64`, and overflow of `u64` and `i64` sums and products; rates and capacities are not negative and windows are not empty.
- The wording of `reason`, the back-off sleeps, real clocks and the scheduler: sleeps are steps of others, clocks are parameters.
- How etcd replicates: a transaction is atomic and revisions increase; several clients of one cluster are several checks on one store. The readiness probe `ping` is not modelled.
- The servers, header formatting, message encoding and signing, configuration and clients, which only call `check` and carry its answer.
