# Asynchronous standard streams, timeouts and task ids

This project models the parts of async-std that hold real logic, and proves properties of the model:

- **The stream bridges** (`src/io/stdin.rs`, `src/io/stdout.rs`, `src/io/stderr.rs`). They make the process's blocking standard streams usable from futures. Each handle is a mutex-guarded `State`: either `Idle(Option<Inner>)` or `Busy(JoinHandle<State>)`. Every poll call loops. If the state is busy, the call polls the join handle and adopts the state it yields. If it is idle, the call takes `last_op`. A result of the matching kind that fits the caller's buffer is returned. Otherwise `Inner` is moved into a closure run by `spawn_blocking`, and the state becomes busy.
- **The deadline combinators** (`src/future/timeout.rs`, `src/io/timeout.rs`). They race a future against a delay.
- **The task id counter** (`src/task/task_id.rs`).

## How the model is built

- `Async` and `Io` hold the shared types: `Option`, `Poll`, `byte`, `io::Error` and `io::Result`.
- `Stdin` models `src/io/stdin.rs`.
- `WriteBridge` models both `src/io/stdout.rs` and `src/io/stderr.rs`. Those two files are the same code line for line. The only difference is the synchronous handle held in `Inner`, which is the `Handle` tag here. One class `WriteBridge.Bridge` has two named constructors, `Stdout` and `Stderr`. Each `poll_write`, `poll_flush` and `poll_close` row below covers the same lines of `src/io/stderr.rs` as it does of `src/io/stdout.rs`.
- **A dispatched closure** is a `Job`: the `Inner` it moved in plus the call it makes.
- **Polling its join handle** is an input `env: Job -> Poll<Outcome>`. It is `Pending` while the worker runs. Once the synchronous call has returned, it is `Ready(outcome)`.
- **`Finish(job, outcome)`** runs the rest of the closure. It records `last_op` and hands `Inner` back as `Idle(Some(inner))`.
- **`HostAbides(env)`** is the standard `Read`/`Write` contract: a call reports at most the length of the slice it was given. The poll loops need this to terminate. A stale count can only come from an earlier, larger buffer, and the rewritten job always fits.
- **Each poll method is a loop that updates `state`,** as in the source. It is proved equal to a non-recursive specification function, such as `PollWriteSpec`. The loop invariant is that this function's value for the current state never changes. A rank on the state proves that the loop ends.
- **The combinators** are pure functions of what one poll of the wrapped future and one poll of the delay report. `Drive` models a caller that polls repeatedly, over sequences of those reports.
- **The task id counter** is a class with the counter, an `aborted` flag and a ghost history of issued ids.

## Model

| member | source | states |
|---|---|---|
| `Stdin.Stdin.constructor` | src/io/stdin.rs:40-47 | a fresh stdin is `Idle(Some(inner))` with an empty line, an empty buffer and no recorded result |
| `Stdin.Finish` | src/io/stdin.rs:152-157 | a finished job hands `Inner` back in `Idle(Some(..))`. A line read replaces the cleared line with the text read and records `ReadLine(res)`. A read overwrites a prefix of the buffer, keeps its length and records `Read(res)` (the read closure at lines 235-239) |
| `Stdin.Resize` | src/io/stdin.rs:226-232 | before a read, the buffer's length is set to the caller's buffer length, and the bytes kept keep their values |
| `Stdin.LineResult` | src/io/stdin.rs:142-143 | `read_line` can hand back a recorded result exactly when it is a `ReadLine` result, and hands it back unchanged |
| `Stdin.ReadResult` | src/io/stdin.rs:213-218 | `poll_read` can hand back a recorded result exactly when it is a `Read` error or a `Read` count no larger than the caller's buffer |
| `Stdin.PollReadLineSpec` | src/io/stdin.rs:132-167 | one poll of `read_line`. The caller's string is only appended to, and only on success. What is appended is the line the closure read, the one the state now holds, whether that line was recorded before the call or read by a job dispatched and completed within it. A returned result leaves the state idle with `last_op` cleared. The call is pending exactly when it leaves a job in flight whose handle is not ready. A busy state whose handle is not ready is returned untouched. A new job is a line read with `last_op` taken. The state stays valid: an idle slot always holds its `Inner` |
| `Stdin.PollReadSpec` | src/io/stdin.rs:200-246 | one `poll_read`. It never reports more than the buffer length. It changes only the first `n` bytes of the caller's buffer, and nothing on error or `Pending`. Those `n` bytes are the first `n` bytes of the buffer the closure read into, whether that read was recorded before the call or dispatched and completed within it. A result is reported once. A busy state whose handle is not ready is returned untouched. A new read job gets a buffer exactly as long as the caller's |
| `Stdin.Stdin.PollReadLine` | src/io/stdin.rs:133-164 | the polling loop leaves the state, result and caller string that `PollReadLineSpec` gives |
| `Stdin.Stdin.PollRead` | src/io/stdin.rs:205-245 | the polling loop, with the in-place copy into the caller's array, leaves the state, result and array contents that `PollReadSpec` gives |
| `Stdin.AppendLine` | src/io/stdin.rs:143-146 | the caller's string keeps its contents. On `Ok` it is followed by exactly the line read. On an error it is unchanged |
| `Stdin.CopyOut` | src/io/stdin.rs:214-220 | on `Ok(n)` the caller's buffer's first `n` bytes become the read buffer's first `n` bytes and the rest is untouched. On an error the buffer is unchanged. The length never changes |
| `Stdin.ConsumesRecordedLine` | src/io/stdin.rs:142-147 | with `ReadLine(Ok(n))` recorded, the call returns `Ok(n)`, appends exactly the stored line to the caller's string and clears `last_op` |
| `Stdin.ConsumesRecordedLineError` | src/io/stdin.rs:142-143 | with `ReadLine(Err(e))` recorded, the call returns `Err(e)` once, leaves the string untouched and clears `last_op` |
| `Stdin.ConsumesRecordedRead` | src/io/stdin.rs:213-222 | with `Read(Ok(n))` recorded and `n <= buf.len()`, the call returns `Ok(n)`. The caller's buffer becomes `inner.buf[..n]` followed by its own untouched tail |
| `Stdin.ConsumesRecordedReadError` | src/io/stdin.rs:213-214 | with `Read(Err(e))` recorded, the call returns `Err(e)` once, leaves the caller's buffer untouched and clears `last_op`. The error is neither dropped nor retried |
| `Stdin.StaleReadIsRedispatched` | src/io/stdin.rs:216-239 | a recorded count larger than the caller's buffer is not returned. A read into a buffer of the caller's length is dispatched instead, and its handle is polled |
| `Stdin.OtherKindIsDropped` | src/io/stdin.rs:142-158 | a `Read` result seen by `read_line`, or a `ReadLine` result seen by `poll_read`, is taken and dropped, and an operation of the requested kind is dispatched. The call is pending while its handle is not ready, and otherwise returns the new operation's result, never the dropped one |
| `Stdin.DispatchesLine` | src/io/stdin.rs:142-161 | with no `ReadLine` result recorded (none at all, or a `Read` result), `read_line` dispatches a line read of the same `Inner`. While its handle is not ready the call is pending with that job in flight. Once it is ready, the call returns the read's result, leaves the text read as the stored line with nothing recorded, and appends that text to the caller's string on success |
| `Stdin.DispatchesRead` | src/io/stdin.rs:213-243 | with no usable `Read` result recorded (none at all, a `ReadLine` result, or a stale count), `poll_read` dispatches a read into a buffer of the caller's length. While its handle is not ready the call is pending with that job in flight. Once it is ready, the call returns the read's result and leaves the state idle holding the buffer read into, with nothing recorded. On success the bytes read are the front of the caller's buffer and its tail is untouched. On an error the buffer is unchanged |
| `Stdin.ReadyHandleIsAdopted` | src/io/stdin.rs:243 | a ready join handle's state replaces `Busy`, and the call goes on from it |
| `Stdin.TwoLinesAppend` | src/io/stdin.rs:142-157 | with `ReadLine(Ok(n))` recorded for line `L`, and the next dispatched line read returning `Ok(k)` with text `t`, two calls return `Ok(n)` then `Ok(k)` and leave the caller's string as `caller + L`, then `caller + L + t`: each line once, in order |
| `WriteBridge.Bridge.Stdout` | src/io/stdout.rs:38-44 | a fresh stdout is `Idle(Some(inner))` with an empty buffer and no recorded result |
| `WriteBridge.Bridge.Stderr` | src/io/stderr.rs:38-44 | a fresh stderr is `Idle(Some(inner))` with an empty buffer and no recorded result |
| `WriteBridge.Finish` | src/io/stdout.rs:177-181 | a finished write (or flush, lines 205-209) job records `Write(res)` (or `Flush(res)`) and hands `Inner`, with its buffer and handle unchanged, back in `Idle(Some(..))` |
| `WriteBridge.WriteResult` | src/io/stdout.rs:154-161 | `poll_write` can hand back a recorded result exactly when it is a `Write` error or a `Write` count no larger than the caller's buffer |
| `WriteBridge.FlushResult` | src/io/stdout.rs:199-200 | `poll_flush` can hand back a recorded result exactly when it is a `Flush` result, and hands it back unchanged |
| `WriteBridge.PollWriteSpec` | src/io/stdout.rs:141-188 | one `poll_write`. It never reports more bytes than the caller supplied. A result is reported once. The call is pending exactly when a job whose handle is not ready is in flight. A busy state whose handle is not ready is returned untouched. A new job writes exactly the caller's bytes. The stream never changes |
| `WriteBridge.PollFlushSpec` | src/io/stdout.rs:190-216 | one `poll_flush`. A result is reported once. The call is pending exactly when a job whose handle is not ready is in flight. A busy state whose handle is not ready is returned untouched. A new job is a flush with `last_op` taken. The write buffer and the stream are left as they were |
| `WriteBridge.Bridge.PollWrite` | src/io/stdout.rs:146-187 | the polling loop leaves the state and result that `PollWriteSpec` gives |
| `WriteBridge.Bridge.PollFlush` | src/io/stdout.rs:191-215 | the polling loop leaves the state and result that `PollFlushSpec` gives |
| `WriteBridge.Bridge.PollClose` | src/io/stderr.rs:218-220 | closing behaves exactly as flushing |
| `WriteBridge.ConsumesRecordedWrite` | src/io/stderr.rs:154-161 | with `Write(res)` recorded, where `res` is an error or a count that fits, the call returns `res` and clears `last_op` |
| `WriteBridge.StaleWriteIsRedispatched` | src/io/stdout.rs:157-174 | a recorded count larger than the caller's buffer is not returned. A write of exactly the caller's bytes is dispatched, and its handle is polled |
| `WriteBridge.ReturnsRecordedFlush` | src/io/stderr.rs:199-200 | a recorded `Flush(res)` is returned unchanged, and `last_op` is cleared |
| `WriteBridge.DispatchesWrite` | src/io/stdout.rs:154-185 | with no usable `Write` result recorded (none at all, a `Flush` result, or a stale count), `poll_write` dispatches a write of exactly the caller's bytes. While its handle is not ready the call is pending with that job in flight. Once it is ready, the call returns that write's own outcome and leaves the bridge idle with the caller's bytes as its buffer and nothing recorded |
| `WriteBridge.DispatchesFlush` | src/io/stdout.rs:199-213 | with no `Flush` result recorded, `poll_flush` dispatches a flush of the same `Inner`. While its handle is not ready the call is pending with that job in flight. Once it is ready, the call returns that flush's own outcome and leaves the bridge idle with nothing recorded |
| `WriteBridge.FlushDiscardsWriteResult` | src/io/stdout.rs:199-209 | a `Write` result seen by `poll_flush` is dropped, and a flush is dispatched |
| `WriteBridge.ReadyHandleIsAdopted` | src/io/stdout.rs:185 | a ready join handle's state replaces `Busy` for writes and flushes (line 213), and the call goes on from it |
| `WriteBridge.ShorterSecondWrite` | src/io/stdout.rs:157-161 | after a pending write of a longer buffer, a write of a shorter buffer never reports more than its own length |
| `WriteBridge.HelloScenario` | src/io/stdout.rs:154-181 | writing "hello" to a fresh bridge: the first poll dispatches and is pending. Once the worker reports `Ok(5)`, the next poll returns `Ok(5)` and leaves the bridge idle with nothing recorded |
| `FutureTimeout.PollTimeout` | src/future/timeout.rs:63-72 | the delay is polled exactly when the future is pending. The call is ready iff either side is. A ready future's value wins, whatever the delay says. A timeout is reported iff the future is pending and the delay has fired |
| `FutureTimeout.Display` | src/future/timeout.rs:83-86 | a timeout error displays as "future has timed out" |
| `FutureTimeout.TimeoutErrorsEqual` | src/future/timeout.rs:76-79 | any two timeout errors are equal |
| `FutureTimeout.Drive` | src/future/timeout.rs:32-41 | polling until ready stops at the first ready poll, and every earlier poll found both sides pending. Polling stays pending iff every poll found both sides pending |
| `FutureTimeout.Never` | src/future/pending.rs:41-43 | `future::pending()` is never ready |
| `FutureTimeout.NeverReadyTimesOut` | src/future/timeout.rs:26-28 | a never-ready future raced against a delay that fires at poll `k` yields the timeout error, at a poll where the delay had fired, no later than poll `k` |
| `FutureTimeout.CompletionBeforeDeadlineWins` | src/future/timeout.rs:65-66 | a future that is ready at poll `k`, before the delay has fired, yields `Ok`, never the timeout |
| `IoTimeout.PollTimeout` | src/io/timeout.rs:66-79 | the timer is polled exactly when the future is pending. A ready future's `io::Result` is returned unchanged, an error included. A pending future with a fired timer yields a `TimedOut` error with message "future timed out". Otherwise the call is pending |
| `IoTimeout.Flatten` | src/io/timeout.rs:68-75 | a generic outcome put in I/O shape: `Ok(res)` gives the future's own `io::Result`, a timeout gives the `TimedOut` error "future timed out" |
| `IoTimeout.SameRaceAsFutureTimeout` | src/io/timeout.rs:66-79 | on every poll `io::timeout` polls the same sides as `future::timeout` and is ready exactly when it is, with the same outcome once put in I/O shape |
| `IoTimeout.Drive` | src/io/timeout.rs:35-44 | defined as `FutureTimeout.Drive` with the outcome flattened. Polling until ready stops at the first ready poll of `Timeout::poll`, and every earlier poll found both sides pending. Polling stays pending iff every poll found both sides pending |
| `IoTimeout.NeverReadyTimesOut` | src/future/pending.rs:22-23 | `io::timeout` around `pending()` yields the `TimedOut` error once the timer fires |
| `IoTimeout.CompletionBeforeDeadlineWins` | src/io/timeout.rs:68-71 | a future that is ready before the timer fires has its own result returned, even an error |
| `TaskIds.Issued` | src/task/task_id.rs:21-27 | the `k`-th id a process generates is `k`, starting at 1 |
| `TaskIds.IssuedIncreasing` | src/task/task_id.rs:15-27 | generated ids strictly increase, so no two are equal. All lie between 1 and `u64::MAX / 2` |
| `TaskIds.IdCounter.constructor` | src/task/task_id.rs:21 | the counter starts at 1 with nothing issued |
| `TaskIds.IdCounter.Generate` | src/task/task_id.rs:20-28 | returns the current counter value and increments the counter by one. The increment is a wrapping `u64` `fetch_add`, but the contract proves the wrap never happens: the process aborts before the counter passes `u64::MAX / 2 + 2`. At or below `u64::MAX / 2` it appends that id to the history, and the id is larger than every id issued before it, so no id is handed out twice. The whole history stays strictly increasing and within `[1, u64::MAX / 2]`. Above it, it aborts instead of returning |
| `TaskIds.FirstIdIsOne` | src/task/task_id.rs:21-23 | the first id generated is 1 |

## Left out

- Mutex locking and poisoning (`lock().unwrap()`) are left out. Each poll call is treated as atomic and sequential. The `unwrap` of the idle slot becomes the requirement `Valid(state)`, which every constructor establishes and every poll preserves.
- The worker pool, threads and wakers (`Context`) are left out. A join handle's poll is the input `env`, and the synchronous `read`, `read_line`, `write` and `flush` calls are its outcomes.
- The order in which the underlying stream sees writes from several concurrent callers is not modelled. The model shows only that each bridge holds at most one job at a time, because its state has a single slot.
- The `.context(..)` decoration of a `read_line` error (src/io/stdin.rs:166) is left out. Errors are opaque values passed through unchanged.
- Vec capacity, `reserve` and the uninitialised bytes exposed by `set_len` are left out. The buffer is a sequence whose length is set, and bytes added by growing it are 0.
- `Stdin.Fits`: a line read's reported count is not tied to the length of the text it read. Characters are not bytes here.
- The feature-gated lock handles (`lock()`, `StdinLock`, `StdoutLock`, `StderrLock`) are left out. They call the synchronous handle directly. So are the `AsRawFd` and `AsRawHandle` impls, which are platform plumbing.
- Delay durations and wall-clock time are left out. What a poll of the delay or timer reports is an input. The `timeout` constructors (`Delay::new(dur)`) are modelled only through `Drive`.
- The `Display` impl of `TaskId` (decimal formatting) is left out.
- The atomic ordering of `fetch_add` is left out. Calls to `generate` are sequential, and the process does nothing after an abort, so `Generate` requires that the process has not aborted.
