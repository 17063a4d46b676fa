# async-tail in Dafny

A model of the decision logic in `async-tail`, a `tail -f` library for Python
with a Rust engine. It covers three parts.

- **The blocking engine, `Tail::read_line`.** A producer thread pushes
  `(line, path)` pairs onto a shared buffer. `read_line` polls that buffer once
  per `step` milliseconds. Each pass sleeps, checks for a pending interrupt,
  samples the buffer size, and then decides whether to keep waiting or to
  return. It can return the batch, the `"timeout"` marker or the `"signal"`
  marker, and it clears the buffer whenever it returns.
- **The `tail` generator.** It calls `read_line` over and over with the same
  three timing arguments. Each result becomes an action: a batch is yielded,
  a timeout becomes `[]` or a silent retry, and a signal raises
  `KeyboardInterrupt` or ends the generator.
- **The published `__version__`.** The Cargo package version goes through
  `replace("-alpha", "a")` and then `replace("-beta", "b")`.

Files:

- `wrappers.dfy` (`Wrappers`): `Option`, used for the deadlines.
- `seqs.dfy` (`Seqs`): associativity of concatenation, named so that proofs
  can regroup sequences cheaply.
- `sync_tail.dfy` (`SyncTail`): the engine.
  - The wall clock is an abstract natural number.
  - One pass of the loop sees one `Tick`. A tick holds how far the sleep
    overran `step`, the lines the producer pushed meanwhile, and whether the
    interrupt check fails.
  - `Step` is one pass. `Run`/`ReadLine` is the loop over a finite tick stream,
    and it ends `Returned` or still `Pending`.
  - `FollowsRules` states the rules of one pass as a relation between the
    state, the tick and the outcome. `Step` follows them, and
    `RulesDetermineStep` shows they allow only one outcome.
  - `Iteration` and `ReadLineLoop` are the loop written imperatively, with the
    source's local variables. `Iteration` follows the rules, and
    `ReadLineLoop` is proved equal to the functional model.
- `tail_generator.dfy` (`TailGenerator`): the generator.
  - `Drive` is a pure function from the sequence of `read_line` results to the
    yielded batches and how the generator ended.
  - `Session` feeds it the results of consecutive engine calls over one tick
    stream. The buffer and the clock carry over from call to call.
- `version.dfy` (`Version`): Rust's `str::replace`, modelled as a
  left-to-right, non-overlapping scan, and the two chained rewrites.

How the engine groups changes (src/sync.rs:56-75):

- The debounce deadline is set at the first iteration that *sees* a non-empty
  buffer: the clock after that iteration's sleep, plus `debounce_ms`. It is
  not set from the arrival of the first line.
- The deadline is a fixed ceiling and is never moved.
- As soon as an iteration sees the same non-zero size as the previous
  non-zero sample, the batch is returned (src/sync.rs:58-59).
- Both deadlines are compared strictly (`now > deadline`).

## Model

| member | source | states |
|---|---|---|
| SyncTail.Push | src/sync.rs:28-33 | The producer's push appends one `(line, path)` pair after everything already buffered. It leaves the earlier pairs and the clock untouched. |
| SyncTail.PushAll | src/sync.rs:28-33 | Several pushes leave the buffer as the old buffer followed by the new pairs, in push order. |
| SyncTail.ObservedIsPushed | src/sync.rs:28-33 | An iteration samples exactly the buffer the producer's pushes left. It is the old buffer, unchanged, followed by the new lines. |
| SyncTail.Clear | src/sync.rs:83-85 | `clear` leaves the buffer empty and changes nothing else. |
| SyncTail.TimeoutDeadline | src/sync.rs:43-46 | The outer deadline is absent exactly when `timeout_ms` is 0. When present, it is the clock at entry plus `timeout_ms`. |
| SyncTail.Start | src/sync.rs:40-46 | A call starts with last size 0, no debounce deadline, and the outer deadline computed from the clock at entry. |
| SyncTail.Step | src/sync.rs:47-80 | One pass follows the rules of an iteration. A failed interrupt check returns `"signal"` before the buffer is looked at. `"timeout"` needs an empty sample strictly past the outer deadline. The same non-zero size as the previous sample returns the batch. A growing buffer is returned exactly when the clock is strictly past the debounce deadline. That deadline is set once, at the first non-empty sample, to now + `debounce_ms`, and never moved. Every return leaves the buffer empty, and a pass that keeps waiting keeps the sample and the outer deadline. |
| SyncTail.RulesDetermineStep | src/sync.rs:47-80 | The rules of an iteration leave no choice: any outcome that follows them is the one `Step` computes. |
| SyncTail.StepKeepsValid | src/sync.rs:56-70 | A debounce deadline exists exactly when a non-empty sample has been seen. The last size never exceeds the buffer. Every pass keeps both facts. |
| SyncTail.Run | src/sync.rs:47-77 | A call that returns has used at least one pass and no more passes than there were ticks. |
| SyncTail.RunSignal | src/sync.rs:49-54 | A call returns `"signal"` exactly at the first tick whose interrupt check fails. No earlier tick had one. A call still waiting has seen no interrupt. |
| SyncTail.RunData | src/sync.rs:56-80 | A returned batch is never empty. It is the buffer as the call found it, followed by every line pushed during the call, in push order. |
| SyncTail.RunClears | src/sync.rs:49-85 | Whatever a call returns, the buffer is empty afterwards. The clock has advanced by exactly the passes the call used. |
| SyncTail.RunPending | src/sync.rs:47-77 | A call still waiting holds the initial buffer followed by every line pushed so far. Its clock has advanced by all the ticks. |
| SyncTail.RunTimeout | src/sync.rs:71-75 | `"timeout"` comes back only when the buffer was empty at entry, nothing was pushed during the call, an outer deadline exists, and the clock is strictly past it. |
| SyncTail.NoTimeoutWhenUnbounded | src/sync.rs:43-45 | With `timeout_ms` 0, a call never returns `"timeout"`. |
| SyncTail.NoTimeoutAfterData | src/sync.rs:57-75 | Once a pass has seen a non-empty buffer, the call can no longer end in `"timeout"`. |
| SyncTail.DeadlineNeverMoves | src/sync.rs:64-70 | While a call waits, a debounce deadline once set stays at its value. |
| SyncTail.ReadLineSpec | src/sync.rs:39-81 | The whole contract of one call. It returns at the first interrupt or earlier. A batch is the buffer followed by every line pushed during the call. `"timeout"` means nothing was there, the timeout is non-zero, and strictly more than `timeout_ms` has passed since entry. After any return the buffer is empty and the clock has advanced by exactly the passes used. A call still waiting has seen no interrupt and holds every line pushed. |
| SyncTail.StepSpendsBudget | src/sync.rs:47-77 | With a positive step, and either a debounce deadline or an outer deadline not yet passed, each pass that keeps waiting uses up at least one step of the time still available. |
| SyncTail.ReturnsWithinBudget | src/sync.rs:47-77 | From a live state, a call returns within as many passes as the remaining time budget allows. |
| SyncTail.ReadLineReturns | src/sync.rs:39-81 | With positive `step_ms` and `timeout_ms`, a call returns within timeout + debounce + 2 steps' worth of passes, whatever the producer pushes. |
| SyncTail.ReturnsAfterFirstChange | src/sync.rs:57-70 | Once a debounce deadline is set and not yet passed, a call returns within that deadline plus one step's worth of passes, with or without an outer deadline: `debounce` bounds the time changes are grouped over (async_tail/main.py:31). |
| SyncTail.WaitsForeverWhenUnbounded | src/sync.rs:43-76 | With `timeout_ms` 0, an empty buffer and no lines or interrupts arriving, a call never returns, however many passes run. |
| SyncTail.Iteration | src/sync.rs:47-77 | The loop body as written, with its local variables, follows the rules of an iteration: interrupt first, stability exit, fixed debounce ceiling, strict timeout with an empty sample, and an empty buffer after every return. |
| SyncTail.ReadLineLoop | src/sync.rs:39-81 | The loop as written gives the same result as the step model on every tick stream. Its batch is non-empty, and the buffer is empty when it returns. |
| TailGenerator.Dispatch | async_tail/main.py:51-63 | A batch is yielded for data, and for a timeout only with `yield_on_timeout`. The yielded batch is the data itself, or `[]` for a timeout. Only `"signal"` ends the generator, and it raises exactly when `raise_interrupt` is set. |
| TailGenerator.DefaultsDispatch | async_tail/main.py:18-25 | With the declared defaults, a timeout is retried silently and a signal raises. The timing arguments are 1600, 50 and 5000 ms. |
| TailGenerator.Drive | async_tail/main.py:49-63 | The generator never reads more results than exist. While running it has read them all. When it has ended, the last result it read is `"signal"`. |
| TailGenerator.DriveEndsAtFirstSignal | async_tail/main.py:56-61 | Without a `"signal"` result the generator keeps reading. With one, it ends at the first one: it raises if `raise_interrupt` is set and returns otherwise. |
| TailGenerator.NothingAfterSignal | async_tail/main.py:56-61 | Results after the first `"signal"` are never read, so nothing is yielded after it. |
| TailGenerator.DriveAppend | async_tail/main.py:49-63 | Results without a signal are each read once. Their yields come first, in order, before those of the results that follow. |
| TailGenerator.YieldsEveryResult | async_tail/main.py:50-63 | With `yield_on_timeout`, every result before the signal yields one batch per call: the data unchanged, or `[]` for a timeout. |
| TailGenerator.YieldsOnlyData | async_tail/main.py:50-63 | Without `yield_on_timeout`, the yielded batches are exactly the data results read, in order. A timeout yields nothing, and the next call follows. |
| TailGenerator.YieldedLines | async_tail/main.py:50-63 | Whatever the flags, the lines yielded are exactly the lines of the data results read, in order. |
| TailGenerator.ReadCalls | async_tail/main.py:49-50 | Consecutive `read_line` calls over one tick stream stop after a `"signal"`, so only the last result can be that marker. |
| TailGenerator.CallsInOrder | src/sync.rs:78-85 | Over consecutive calls, the lines handed back are an initial part of the lines pushed, in push order. None is repeated or invented. |
| TailGenerator.CallsComplete | src/sync.rs:47-80 | Without an interrupt, the lines handed back, followed by the lines still buffered, are exactly the lines pushed. |
| TailGenerator.CallsEnd | src/sync.rs:49-54 | The calls end in `"signal"` exactly when a consumed tick carries an interrupt. No other result is that marker. |
| TailGenerator.CallsDataNonEmpty | src/sync.rs:57-59 | Every data result of consecutive calls holds at least one line. |
| TailGenerator.DriveReadsAll | async_tail/main.py:49-63 | When only the last result can be `"signal"`, the generator reads every result. |
| TailGenerator.Session | async_tail/main.py:48-63 | `tail` dispatches every result of its engine calls, and when it has stopped, the last call made returned `"signal"`. |
| TailGenerator.SessionDelivers | async_tail/main.py:48-63 | The generator yields the pushed lines in push order, never one twice and never one that was not pushed. Without an interrupt, every pushed line is either yielded or still waiting in the buffer. |
| TailGenerator.SessionEnds | async_tail/main.py:56-61 | The generator is still running exactly when no interrupt occurred. It raised `KeyboardInterrupt` exactly when an interrupt occurred and `raise_interrupt` is set. |
| TailGenerator.SessionYieldsNonEmpty | async_tail/main.py:51-55 | Without `yield_on_timeout`, the generator never yields an empty batch. |
| TailGenerator.YieldsWatchedPaths | src/sync.rs:25-32 | If the producer reports only lines of watched files, every yielded line names a watched path. |
| Version.Replace | src/lib.rs:16 | Rust's `str::replace` with a replacement no longer than a non-empty pattern never lengthens the string. |
| Version.ReplaceLength | src/lib.rs:16 | Each rewritten occurrence trades the pattern's length for the replacement's: the length of `replace`'s result plus count × pattern length equals the input length plus count × replacement length. |
| Version.CountPositive | src/lib.rs:16 | `replace` rewrites at least one occurrence exactly when the pattern occurs in the string. |
| Version.ReplaceAbsent | src/lib.rs:16 | A string without the pattern comes back unchanged. |
| Version.ReplaceLeftmost | src/lib.rs:16 | The leftmost occurrence is rewritten. Everything before it is copied, and the scan resumes after it, so occurrences never overlap. |
| Version.Normalize | src/lib.rs:16 | The published version is never longer than the Cargo package version. |
| Version.NormalizeLength | src/lib.rs:16 | The published version is 5 characters shorter per rewritten `-alpha`, and 4 shorter per `-beta` rewritten in the string the first rewrite left. |
| Version.NormalizeUnchanged | src/lib.rs:16 | A version is published as it is exactly when it contains neither `-alpha` nor `-beta`. |
| Version.AlphaExample | src/lib.rs:11-16 | Cargo's `1.0.0-alpha1` is published as `1.0.0a1`. |
| Version.BetaExample | src/lib.rs:16 | Cargo's `2.1.0-beta3` is published as `2.1.0b3`. |
| Version.OrderMatters | src/lib.rs:16 | The `-alpha` rewrite runs first and the `-beta` rewrite sees its result. `1.0-bet-alpha` becomes `1.0b`; the opposite order would give `1.0-beta`. |

## Left out

- File watching, offsets, truncation and splitting into lines happen inside
  the `linemux` crate, which is not part of this model. The producer is an
  opaque source of `(line, path)` pushes, arriving in `Tick.appended`.
- Threads, the tokio runtime and the `Arc<Mutex<…>>` (src/sync.rs:18-35) are
  not modelled. Pushes land between passes, before the size sample.
- The source takes the lock separately for copying the buffer (src/sync.rs:78)
  and for clearing it (src/sync.rs:79). A line pushed in between would be
  lost. The model treats copy and clear as one step, so no-loss is proved only
  under that assumption.
- The source also takes the lock separately for the size sample
  (src/sync.rs:56) and for the copy (src/sync.rs:78). Pushes in that window
  would enter the batch uncounted. The model copies what was sampled.
- On the timeout path the lock is likewise released between the empty size
  sample (src/sync.rs:56) and the `clear` at src/sync.rs:73. A line pushed in
  that window is dropped and the call returns `"timeout"`. The model has every
  push land before the sample, so the no-loss results (`RunTimeout`,
  `CallsComplete`, `SessionDelivers`) hold only under that assumption.
- `SystemTime::now`, `sleep` and `py.check_signals` become the tick stream.
  Each pass reads the clock once. The source reads it separately at
  src/sync.rs:63 and src/sync.rs:72, but only one of those reads happens in any
  pass.
- `u64` millisecond arithmetic and `SystemTime` overflow panics are not
  modelled. Times are unbounded naturals.
- The asynchronous path (src/async.rs, `AIOTail`, `atail`) forwards lines from
  `linemux` one by one and has no decision logic of its own.
- PyO3 conversion, `__enter__`, `__exit__` and `close` are not modelled;
  `close` does nothing (src/sync.rs:93). Logging calls are not modelled either.
- The path conversion `str(p)` (async_tail/main.py:48) only feeds `linemux`.
  The model keeps only its consequence for output, `YieldsWatchedPaths`.
- That every call receives the same `debounce`, `step` and `rust_timeout`
  holds by construction: `Session` passes the single `ReadParams(o)` to every
  call.
- SyncTail.ReadLineReturns: assumes a clock that never goes backwards. Each
  pass advances it by `step_ms` plus a natural delay. `SystemTime` is not
  monotonic, and a clock set back postpones both deadlines, so the source
  gives no such bound. The same holds for `SyncTail.ReturnsWithinBudget` and
  `SyncTail.ReturnsAfterFirstChange`.
- SyncTail.ReadLineReturns: the bound is stated for positive `step_ms`. With
  `step_ms` 0 the source's clock still advances through real elapsed time,
  which the model has only as the optional `Tick.delay`.
