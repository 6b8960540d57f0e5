# redisx: verified model

redisx is an asynchronous Redis adapter. This project models the parts of it that carry real
protocol or algorithmic content and proves what they guarantee on every input and in every
run:

- **The fenced lock** (`LockProtocol`, `LockTheorems`, `LockClient`, `Keyspace`). Any number of
  acquisitions and one server; `SET NX PX` and `INCR` are separate commands; requests may be
  delayed without bound, lost, or executed with the reply lost. The main results: a token is
  stored exactly while its acquisition has won, is unreleased and within its lease; at most one
  acquisition per key owns; the fence order is right for an `INCR` that executes within the
  ttl of its `SET`, and that bound is exact. The client's calls are runs of this protocol.
- **The pool** (`PoolProtocol`, `PoolTheorems`, `Pool`, `PoolCall`). Every atomic operation of
  acquire, drop and close is one step and all interleavings, timeouts and cancellations are
  covered. The main results: permits are conserved, the ledger of outcomes balances, and
  `close` drains for good exactly when no task is between its second check and its increment.
- **The retry engine** (`Retry`, `Backoff`, `Jitter`, `Words`). The loop is proved against a
  recursive description of a run, whose trace, sleeps and end time are then bounded.
- **The routed call** (`KvCommands`, `Client`). Routing, retry, pool and server composed: whatever
  fails and whatever other clients do, a whole call adds at most one application of its command,
  and its time is bounded.
- **Texts** (`Text`, `Endpoints`, `Tokens`). Redaction, endpoint and node-list parsing, lock
  tokens and the constant-time comparison.

`dafny verify dfyconfig.toml` checks the project. Nothing was executed.

## How the model is laid out

A protocol is a state with a step function (`Enabled`, `Apply`); a run is the sequence of its
steps, and theorems quantify over runs. The objects the library mutates are classes
(`LockClient.World`, `Pool.PoolInner`, `Client.RedisClient`, `Tokens.TokenSource`) whose methods
follow the source statement by statement; where the source awaits, the methods let everybody
else take any steps of the protocol.

Assumptions:

- Each sent command executes at most once, and a Lua script is one atomic server step. The
  driver's own resends, redirects and reconnects are not part of this model.
- Only the lock operations write lock names and their fence keys, and no lock name is another
  lock's fence key. Other keys may change freely (`Foreign` steps).
- Lock tokens are fresh. Within one process that is `LockClient.NextTokenIsFresh`; tokens of
  different processes differ if their process numbers, counters or clock readings do.
- The server's clock counts milliseconds; a key is visible up to and including the millisecond of
  its expiry and gone after it, as on a Redis server.
- Atomic operations interleave sequentially; the semaphore is a permit counter that grants or
  times out in any order, and a permit reserved for a waiter that has not seen it yet is free.
- Durations are exact reals, so rounding to nanoseconds and of floating point is not modelled.

Where code and documentation differ the model follows the code:

- The README of the library (lines 137-140) calls `SET` and `MSET` idempotent; the code makes them
  ambiguous writes (`src/resilience.rs:70-80`) and no operation is classified idempotent.
- The comments at `src/resilience.rs:166`, `272` and `277` promise `Timeout` when the retry deadline is
  exhausted. The code normally returns the last attempt's error; `Retry.OwnTimeoutExactly` says
  when its own `Timeout` appears, and `Retry.DeadlineWithoutTimeout` is a call without it.
- The documentation of `close` (`src/pool.rs:331`) promises to wait for the drain. A task between its
  second check and its increment is missed: `PoolTheorems.CloseMissesAStraggler` is such a run.
- Fences are documented as monotone (`src/ext.rs:3-6`). An acquisition whose `INCR` executes after
  its ttl can draw a larger fence than its successor: `LockTheorems.Inversion` is such a run for
  every ttl and every longer delay.
- The counter `waiters` is documented as the number of waiting calls (`src/pool.rs:33`); a call
  cancelled while waiting stays in it (`PoolTheorems.WaitersLeak`).
- The branches for a closed semaphore (`src/pool/lifecycle.rs:150`) and a negative fence
  (`src/ext.rs:321-323`) are unreachable.

## Model

| member | source | states |
|---|---|---|
| LockProtocol.StoredIffOwns | src/ext.rs:102-117 | in every state of the invariant the server stores a token exactly while its acquisition won, is not released, and its lease runs |
| LockProtocol.SetInv | src/ext.rs:289-313 | executing `SET NX PX`, won or refused, keeps the invariant over all acquisitions and keys |
| LockProtocol.IncrInv | src/ext.rs:315-319 | executing `INCR` at any later time keeps the invariant, including fence order and the fence counters of other keys |
| LockProtocol.RequestInv | src/ext.rs:101-117 | executing a release or extend script, however late, keeps the invariant |
| LockProtocol.IncrDraws | src/ext.rs:315-319 | the fence drawn is one more than every fence of the key so far, and the record of whether the token was still stored agrees with ownership |
| LockProtocol.IncrFailsExactly | src/ext.rs:315-319 | an INCR fails exactly when the fence counter has reached the largest 64-bit integer, and otherwise draws the counter plus one |
| LockProtocol.StepInv | src/ext.rs:276-364 | every step of clients, network, clock and strangers keeps the invariant |
| LockTheorems.Reachable | src/ext.rs:276-364 | the invariant holds after every run from the empty server |
| LockTheorems.MutualExclusion | src/ext.rs:102-117 | in every run, stored and owned agree, and two acquisitions never own one key together |
| LockTheorems.FencesDistinct | src/ext.rs:315-328 | fences of one key are at least 1, distinct, and ordered exactly as their INCRs executed |
| LockTheorems.Fencing | src/ext.rs:289-329 | an INCR executed while the token is stored, which is exactly at most the ttl after its SET, draws a fence below that of every later winner |
| LockTheorems.StaleWritesRefused | src/ext.rs:3-6 | a resource that refuses smaller fences takes no write of an in-time acquisition after one of a later owner |
| LockTheorems.OrderedWritesTaken | src/ext.rs:3-6 | writes whose fences never fall are all taken |
| LockTheorems.Inversion | src/ext.rs:289-319 | for every ttl and every longer delay, a run in which the earlier owner draws fence 2 and the later owner fence 1 |
| LockTheorems.FencingExact | src/ext.rs:289-329 | fence order holds in all runs with a given delay between SET and INCR if and only if the delay is at most the ttl |
| LockTheorems.NeverReturns | src/ext.rs:285-307 | an acquisition that no longer owns never owns again |
| LockTheorems.OneInterval | src/ext.rs:285-307 | each token is stored over one contiguous interval of any run |
| LockTheorems.ReleaseAtMostOnce | src/ext.rs:337-342 | in any run, release scripts of one acquisition answer 1 at most once |
| LockTheorems.OnlyTheOwnerActs | src/ext.rs:101-117 | whenever it executes, a release deletes exactly its key and an extend sets exactly its expiry to the new ttl from then on while its own token is stored, and otherwise neither changes anything |
| LockTheorems.OtherOwnersUndisturbed | src/ext.rs:101-117 | whoever else owns a key goes on owning it, and stays stored, when a script executes |
| LockTheorems.EveryLockExpires | src/ext.rs:276-364 | whatever is visible at a lock name is an owner's token, and it expires one ttl after the last extend that answered true executed, or else one ttl after its SET |
| LockTheorems.LeaseHistory | src/ext.rs:276-364 | in every run a lease is set by the SET that won and by each extend that answers true, to its ttl from then on, and by nothing else |
| LockTheorems.RunLease | src/ext.rs:349-364 | only an extend moves a lease |
| LockTheorems.KeyBecomesFree | src/ext.rs:280-319 | without further extends a token is gone once its lease is over, orphaned locks included, and the key is free or has another owner |
| Keyspace.TtlMillis | src/ext.rs:280-284 | a ttl is accepted exactly from one millisecond to below 2^64 milliseconds and is rounded down to whole milliseconds |
| Keyspace.SetNxPx | src/ext.rs:294-304 | a winner's token is held from now until its ttl has passed and then the key is free; a loser found another entry and leaves it; no other key is touched |
| LockClient.OthersKeep | src/ext.rs:276-330 | nobody else can alter an acquisition whose caller has no lock object yet |
| LockClient.OthersMayDoAnything | src/ext.rs:276-330 | interference can be any run of steps that are not the call's own |
| LockClient.World.SetCommand | src/ext.rs:289-313 | the SET of a call, with others acting before it executes and before its reply: what each way of delivery answers, and what it leaves in the protocol |
| LockClient.World.IncrCommand | src/ext.rs:315-323 | the INCR of a call: its exact answer, which is the fence counter plus one unless the delivery fails or the counter is exhausted, and what it leaves in the protocol |
| LockClient.World.LockAcquire | src/ext.rs:276-330 | the exact answer in every case: bad arguments, each failing delivery, a key taken when the SET executes, an exhausted counter, or a lock with the counter's next value; the token of a lock, or of an orphan left by a failure, is stored exactly until the ttl has passed |
| LockClient.World.TwoLocks | src/ext.rs:276-330 | two lock objects for one key: distinct fences, at most one stored token, and the right fence order if the earlier drew its fence within its ttl |
| LockClient.World.EvalScript | src/ext.rs:127-152 | a script call is a send and an execution of the protocol after whatever others do; a failed request may still be on its way |
| LockClient.World.LockRelease | src/ext.rs:337-342 | answers true exactly if the token was stored when the script executed, and then deletes that key and nothing else; otherwise the keyspace is unchanged |
| LockClient.World.LockExtend | src/ext.rs:349-364 | answers true exactly if the token was stored when the script executed, and then sets its expiry to the new ttl from then on and changes nothing else; otherwise the keyspace is unchanged |
| LockClient.NextTokenIsFresh | src/ext.rs:76-87 | the generator's next token differs from all tokens issued before, up to 2^64 of them |
| Tokens.HexRoundTrip | src/ext.rs:86 | hexadecimal printing loses nothing |
| Tokens.HexIsShortest | src/ext.rs:86 | no leading zeros are printed |
| Tokens.TokenRoundTrip | src/ext.rs:76-87 | a printed token parses back to its clock reading, process and sequence number |
| Tokens.TokenInjective | src/ext.rs:73-87 | tokens are equal only if all three parts are |
| Tokens.TokenSource.Generate | src/ext.rs:76-87 | each call draws the counter's value, advances it modulo 2^64, and prints it recoverably |
| Tokens.DistinctExactly | src/ext.rs:73-87 | the tokens of one process are pairwise distinct, for all clock readings, exactly up to 2^64 calls |
| Tokens.ConstantTimeEq | src/ext.rs:90-99 | the accumulator loop answers true exactly for equal byte strings |
| PoolProtocol.StepInv | src/pool/lifecycle.rs:106-161 | every atomic step of every task and closer keeps permits, counters and the ledger in balance |
| PoolProtocol.CountUpdate | src/pool/lifecycle.rs:132-148 | moving one task changes each count of tasks by exactly what it leaves and enters |
| PoolTheorems.Backpressure | src/pool/lifecycle.rs:132-148 | in every interleaving free plus held permits equal the limit, commands in flight never exceed held permits, and no decrement underflows |
| PoolTheorems.Ledger | src/pool/lifecycle.rs:106-161 | every acquire that returned was granted or is counted once as rejected, timed out or unconnected; the closed-semaphore branch is never taken |
| PoolTheorems.WaitersLeak | src/pool/lifecycle.rs:132-134 | `waiters` is the number of queued tasks plus those ever cancelled there, so it is exact only without cancellations |
| PoolTheorems.CancelledWaiterStays | src/pool/lifecycle.rs:132-134 | in every pool there is a run after which `waiters` is 1 and nobody waits |
| PoolTheorems.StepWhileClosed | src/pool/lifecycle.rs:136-148 | one step of a closed pool commits no new task |
| PoolTheorems.ClosedForGood | src/pool.rs:336-351 | once closed the pool stays closed, and in-flight plus committed tasks never grow again |
| PoolTheorems.OnlyStragglersRun | src/pool.rs:336-351 | after `close` reads zero, only tasks already past the second check can ever run |
| PoolTheorems.DrainIsFinalExactly | src/pool.rs:339-343 | after `close` reads zero, nothing ever runs again if and only if no task was past the second check and uncounted |
| PoolTheorems.AtomicTailDrains | src/pool/lifecycle.rs:136-148 | in every run whose check-and-count tail is one step, nothing is in flight after any `close` returned Ok |
| PoolTheorems.CloseMissesAStraggler | src/pool.rs:336-351 | in every pool there is a run where a command starts after `close` returned Ok |
| PoolCall.AcquireOutcome | src/pool/lifecycle.rs:106-161 | an acquire takes at most its budget, and a granted one exactly the semaphore's time |
| PoolCall.RunTimed | src/pool/permit.rs:200-236 | an execution takes at most its budget beyond the wait |
| PoolCall.CallWithinLimit | src/pool.rs:420-434 | one call, queueing included, takes at most the call deadline, or else the acquire limit plus the command limit |
| PoolCall.CallFinishesExactly | src/pool/permit.rs:174-198 | a call completes exactly when permit and command come within their own limits and together within the deadline |
| PoolCall.CallEndsExactly | src/pool.rs:420-434 | how and when a call ends in every case: refused, timed out waiting, refused after the wait, cut off, or finished |
| Pool.OthersKeep | src/pool/lifecycle.rs:133 | whatever others do during an await, the waiting task and the invariant stay |
| Pool.OthersMayDoAnything | src/pool/lifecycle.rs:133 | interference can be any run of steps that are not the call's own |
| Pool.AcquireIsRun | src/pool/lifecycle.rs:106-161 | an acquire, with anything everybody else does while it waits, is a run of the protocol, atomic operation by atomic operation |
| Pool.ReleaseIsRun | src/pool.rs:125-129 | dropping a permit is a run of the protocol: first the counter, then the semaphore |
| Pool.PauseTimes | src/pool.rs:349 | a pause of `close` lasts five milliseconds, and longer only by the overshoot |
| Pool.PoolInner.constructor | src/pool/lifecycle.rs:76-104 | a new pool is the protocol's initial state with all counters zero |
| Pool.PoolInner.Arrive | src/pool/lifecycle.rs:110-132 | the checks before the wait, in order, with the counter each one moves |
| Pool.PoolInner.Settle | src/pool/lifecycle.rs:133-161 | the end of the wait and the tail of acquire: a free permit that comes in time is granted unless the pool was closed; result, counters, permit and time |
| Pool.PoolInner.AcquireWithTimeout | src/pool/lifecycle.rs:106-161 | the exact answer in every case: a permit exactly if the pool was open and connected, the budget positive, the grant in time, and after the wait a permit free and the pool still open; the state left under interference, and the time |
| Pool.PoolInner.RunTimed | src/pool/permit.rs:200-236 | every execution adds one to exactly one of ok, err and timeout, and answers the command's result or a timeout |
| Pool.PoolInner.ExecuteWithTotalDeadline | src/pool/permit.rs:174-198 | waiting counts against the total; every finished execution is counted exactly once |
| Pool.PoolInner.DropPermit | src/pool.rs:125-129 | dropping a permit decrements a positive counter and then returns the permit |
| Pool.PoolInner.WithPoolConn | src/client.rs:364-373 | a call finishes exactly under the stated conditions on pool, wait, command and deadline, answers accordingly, stays within its limit, counts one execution exactly if it was granted a permit, and hands the permit back, whatever others do meanwhile |
| Pool.PoolInner.Close | src/pool.rs:336-351 | the polling loop ends at the first poll that reads zero, with Ok, or else at the first one not before the deadline |
| Words.XorShiftInverse | src/resilience.rs:246-248 | an xor-shift by at least a third of the word has a two-sided inverse |
| Words.ShrDivides | src/resilience.rs:246-248 | a right shift is the quotient by a power of two |
| Words.MulInverse | src/resilience.rs:246-247 | a wrapping multiplication by an invertible factor can be undone |
| Jitter.JitterSeed | src/resilience.rs:323-329 | the seed loop computes attempt times 31 to the name's length plus a hash of the name, modulo 2^64 |
| Jitter.SeedInjective | src/resilience.rs:323-329 | for each operation name the seed determines the attempt |
| Jitter.EveryByteMatters | src/resilience.rs:323-329 | names that differ in one byte never share a seed |
| Jitter.MixIsPermutation | src/resilience.rs:245-248 | splitmix64 is a permutation of the 64-bit words |
| Jitter.AttemptsNeverShareState | src/resilience.rs:245-248 | two attempts of one operation never share a seed or a mixed state |
| Jitter.JitteredDelay | src/resilience.rs:239-252 | the jittered delay lies between half the backoff and the backoff |
| Jitter.JitterReachesAll | src/resilience.rs:239-252 | the mixed seed picks one of 1001 equal steps of that band, and every step is picked by some seed |
| Jitter.Jittered | src/resilience.rs:243-252 | the statement sequence computes that delay |
| Backoff.RetryConfig.WithMultiplier | src/resilience.rs:155-164 | a finite multiplier above 1 is kept, any other, also NaN and infinities, becomes 1; every other setting stays and the configuration is valid |
| Backoff.Fixed | src/resilience.rs:130-140 | at least one attempt and otherwise as many as asked for, with the delay as initial backoff and as cap |
| Backoff.Exponential | src/resilience.rs:142-153 | at least one attempt and otherwise as many as asked for, factor 2, the cap as given, and an initial backoff clipped to it |
| Backoff.DocumentedBackoff | src/resilience.rs:142-164 | for the constructor's own arguments, clipped or not, and any multiplier, the wait is initial * multiplier^(n-1) up to the cap |
| Backoff.BackoffFor | src/resilience.rs:221-237 | the loop with its early exit computes min(cap, initial * multiplier^(n-1)), and zero for n = 0 |
| Backoff.BackoffSteps | src/resilience.rs:216-237 | nothing before a failure, then the initial backoff, then the previous one times the multiplier, up to the cap |
| Backoff.BackoffMonotone | src/resilience.rs:216-237 | the backoff grows with the attempt, never above the cap and, from attempt 1, never below the initial value |
| Backoff.FixedIsConstant | src/resilience.rs:129-140 | a fixed-interval configuration always waits the same time |
| Retry.Planned | src/resilience.rs:299-302 | the planned wait lies between half the backoff and the backoff, and is the backoff itself without jitter |
| Retry.PlannedByJitter | src/resilience.rs:299-302 | with jitter the planned wait is the one drawn for the seed of this operation and attempt |
| Retry.TraceShape | src/resilience.rs:279-319 | from any point of the loop: how many attempts remain, which of them fail, and what is returned |
| Retry.RetryTrace | src/resilience.rs:279-319 | between 1 and max_attempts attempts; all but the last fail retryably; the result is the last attempt's or the engine's own timeout; a retryable error is returned only when attempts or deadline ran out |
| Retry.FirstDecisiveAttemptWins | src/resilience.rs:288-294 | the first success or non-retryable error ends the call and is its result |
| Retry.StopsAt | src/resilience.rs:279-319 | without a deadline the call makes exactly the attempts up to the first decisive or last allowed one, and returns its result |
| Retry.OnlySuchFailuresRetry | src/error.rs:56-61 | connection failures, transient ones, timeouts and I/O errors are retried, any other failure ends the call at once |
| Retry.Timeline | src/resilience.rs:279-319 | after every attempt: whether there is another, that it starts when the requested sleep is over, and when the call ends |
| Retry.RetriesWait | src/resilience.rs:299-315 | without a deadline no attempt starts before half of every backoff up to it has passed |
| Retry.TimesOrdered | src/resilience.rs:256-264 | attempts start in order, and only the last can start at or after the deadline, even if sleeps overshoot |
| Retry.OwnTimeoutExactly | src/resilience.rs:303-309 | the engine's own timeout appears exactly when the deadline passes between the two clock readings after a retryable failure with attempts left |
| Retry.DeadlineWithoutTimeout | src/resilience.rs:295-297 | a call that exhausts its deadline and returns the attempt's error |
| Retry.SleepBand | src/resilience.rs:299-315 | each requested sleep is the planned wait, between half its backoff and the backoff, or, only where that is more than the time left to the deadline, exactly the time left |
| Retry.UnjitteredSleeps | src/resilience.rs:256-264 | without jitter and deadline every wait is the documented backoff itself |
| Retry.SleepBudget | src/resilience.rs:299-315 | the requested sleeps sum to at most the cap per retry, and to at most the time left to the deadline |
| Retry.DeadlineBound | src/resilience.rs:279-319 | with exact timers a call with a deadline ends by the deadline plus one attempt |
| Retry.AttemptsBound | src/resilience.rs:279-319 | with exact timers a call ends by one attempt limit per attempt plus one cap per retry |
| KvCommands.RetryOnlyForReads | src/resilience.rs:70-106 | automatic retry is allowed for exactly the commands that never change the server's state |
| KvCommands.ReadYourWrites | src/pool/kv.rs:26-46 | what is set is read, for good or until its ttl has passed, and other keys stay |
| KvCommands.TimeToLive | src/pool/kv.rs:80-90 | missing keys are an error, keys without expiry have none, others have what is left of their ttl |
| KvCommands.ExistenceReplies | src/pool/kv.rs:49-77 | DEL and PEXPIRE say whether the key was there, and what they leave |
| KvCommands.IncrementsAddUp | src/pool/kv.rs:61-63 | increments count from zero and add up; texts and overflow are refused without effect |
| KvCommands.ManyAtOnce | src/client.rs:315-361 | MGET answers as many reads, MSET does what its items set one by one |
| KvCommands.SendableTtls | src/pool/kv.rs:6-23 | the ttls that are sent |
| Client.RedisClient.Once | src/client.rs:364-373 | one attempt: the new server state, the result and the time for every way it can fare |
| Client.RedisClient.PlannedBackoff | src/resilience.rs:299-302 | the backoff loop, the seed loop and the mixing statements together compute the planned wait |
| Client.RedisClient.AfterAttempt | src/resilience.rs:290-316 | return or sleep after an attempt exactly as the specified run decides |
| Client.RedisClient.WithRetry | src/resilience.rs:279-319 | the loop makes exactly the attempts of the specified run, with its result, server state and end time |
| Client.RedisClient.Route | src/client.rs:376-403 | retryable commands go through the loop, all others are attempted once |
| Client.RedisClient.Call | src/client.rs:156-362 | an empty MGET or MSET is answered at once; any other call, delayed executions included, adds at most one application of its command to what others do before, during and after it, a retried one none; it answers rightly, and an unretried one leaves exactly what its one attempt does |
| Client.AtMostOnceEffect | src/client.rs:376-403 | for every command, configuration and schedule of failures, delays and interference, also after the call, the server goes through the changes of others with at most one application of the command among them; a retried command adds none |
| Client.SuccessIsAnAnswer | src/client.rs:395-402 | a success is the server's answer to the last attempt, in the state everybody else had brought about |
| Client.CallAnswers | src/client.rs:376-403 | an unretried call answers with its one attempt; a read with a retry configuration goes on while attempts fail retryably and answers with the last, or with a timeout at the deadline |
| Client.FirstDecisiveAnswer | src/client.rs:395-402 | a read retried without a deadline answers with its first decisive attempt or the last one allowed |
| Client.SucceedsExactly | src/client.rs:364-373 | an attempt succeeds exactly if pool, permit, command and delivery allow it and the reply is no error |
| Client.StragglerIsExecuted | src/client.rs:364-373 | a delayed command is executed when its time comes, and changes of others take effect |
| Client.EndToEndTime | src/client.rs:376-403 | with exact timers a retried call ends by retry deadline plus one call, and by one call per attempt plus one full backoff per retry; any other takes at most one call |
| Text.DecimalRoundTrip | src/config/parse.rs:42-52 | parsing the printed digits of a number gives the number back |
| Text.TrimRemovesBlanks | src/config/parse.rs:11 | trimming removes white space at both ends, all of it, and nothing else |
| Endpoints.RedactUrl | src/config/parse.rs:10-25 | a URL with credentials keeps scheme and host; its credentials are replaced as `Endpoints.RedactHidesPassword` and `Endpoints.RedactHidesToken` say |
| Endpoints.RedactIdempotent | src/config/parse.rs:10-25 | redaction is idempotent on every string |
| Endpoints.RedactHidesPassword | src/config/parse.rs:10-25 | the redacted URL is the same for every password, also with '@' or ':' in it |
| Endpoints.RedactHidesToken | src/config/parse.rs:10-25 | credentials without a colon are masked altogether |
| Endpoints.RedactLeavesTheRest | src/config/parse.rs:24 | whatever is no URL with credentials is only trimmed |
| Endpoints.HostPortRoundTrip | src/config/parse.rs:36-56 | printing and parsing `host:port` is the identity exactly for non-empty hosts without leading white space or bracket |
| Endpoints.DefaultPort | src/config/parse.rs:54 | a text without a colon is a host on port 6379 |
| Endpoints.BadPortRefused | src/config/parse.rs:38-53 | a host followed by anything but a port is refused in either form |
| Endpoints.OpenBracketRefused | src/config/parse.rs:38-41 | a bracket not closed in front of a port is refused |
| Endpoints.MissingHostIsKept | src/config/parse.rs:47-54 | a text whose only colon comes first counts as a host on the default port |
| Endpoints.PortExactly | src/config/parse.rs:42-44 | a port is the decimal form of a 16-bit number, possibly behind zeros and a plus sign |
| Endpoints.BracketRoundTrip | src/config/parse.rs:38-46 | printing and parsing `[host]:port` is the identity exactly for hosts without "]:" |
| Endpoints.SplitNodesRoundTrip | src/config/parse.rs:86-92 | the outputs of `split_nodes` are exactly the lists of non-empty trimmed comma-free items, and joining one with commas and splitting gives it back |
| Endpoints.NodesOfAnyText | src/config/parse.rs:86-92 | for every text: the nodes on either side of a comma in order, and of a text without comma what trimming leaves, unless nothing |

## Left out

- Connection setup, TLS, and the driver's resends, redirects and reconnects.
- Streams, transactions, Pub/Sub, hashes, lists and sets: each call forwards one server command.
- `eval_script`, `script_load_and_eval`, `eval_sha` and `pipeline_set` beyond the two lock scripts.
- Blocking commands with an explicit command budget (`with_conn_budget`).
- Environment reading, TOML, URL parsing by the `url` crate, `validate_seed`, `parse_bool`, `parse_mode`.
- `stats`, `metrics_snapshot`, `Debug` output, error labels, the driver's error-kind table and the atomicity table.
- Pool.PoolInner.WithPoolConn: the execution counters are those of the calls made through the object; interfering tasks move permits and acquire counters only.
- Backoff.BackoffFor: over exact reals, so the rounding of `f64` and of `Duration` to nanoseconds is not modelled.
- Jitter.JitteredDelay: over exact reals, as above.
- Keyspace values are either text or integers: incrementing a text that spells a number is refused here, while the server would count on from it.
- The server's limit on expiry times beyond 63 bits: such a command would be refused, which is the same as one that never executed.
- Multi-key commands on a cluster: `MSET` and `MGET` are one atomic step, as on a single slot.
- `close` polls at least every five milliseconds of model time; how a runtime schedules the pause is a parameter.
- The timing side of the constant-time comparison.
