/** The asynchronous standard output and standard error handles.

    Both handles are the same state machine (src/io/stdout.rs and
    src/io/stderr.rs differ only in the synchronous handle they own), so one
    class `Bridge` models both; its two named constructors are `stdout()` and
    `stderr()`, and the `Handle` tag in `Inner` records which stream it owns.

    The worker pool behind `spawn_blocking` is not modelled: a dispatched job
    is the closure's captured `Inner` plus the kind of call it makes, and
    polling its join handle is an oracle `env: Job -> Poll<Outcome>` that says
    whether the worker has finished and, if so, what the synchronous call
    returned. `Finish` then runs the rest of the closure. */
module WriteBridge {
  import opened Async
  import opened Io

  /** The synchronous stream an `Inner` owns. */
  datatype Handle = StdoutHandle | StderrHandle

  /** The result of the last blocking call, kept until a poll consumes it. */
  datatype Operation = Write(written: Result<nat>) | Flush(flushed: Result<()>)

  /** The resource bundle that is owned either by the idle slot or by the
      closure running on a worker, never by both. */
  datatype Inner = Inner(handle: Handle, buf: seq<byte>, lastOp: Option<Operation>)

  /** A dispatched closure: the `Inner` it moved in and the call it makes. */
  datatype Job = WriteJob(inner: Inner) | FlushJob(inner: Inner)

  /** What the synchronous call returned. */
  datatype Outcome = Wrote(written: Result<nat>) | Flushed(flushed: Result<()>)

  datatype State = Idle(slot: Option<Inner>) | Busy(task: Job)

  /** Polling a job's join handle: Pending while the worker runs, then the
      outcome of the synchronous call. */
  type Env = Job -> Poll<Outcome>

  /** Between polls the idle slot always holds the `Inner`; `Idle(None)` only
      exists inside one poll, between `opt.take()` and `*state = Busy(..)`. */
  predicate Valid(s: State) {
    s.Busy? || s.slot.Some?
  }

  /** The standard `Write` contract: a write reports at most the length of
      the slice it was given, and each call yields an outcome of its own kind. */
  predicate Fits(j: Job, o: Outcome) {
    match j
    case WriteJob(inner) => o.Wrote? && (o.written.Ok? ==> o.written.value <= |inner.buf|)
    case FlushJob(_) => o.Flushed?
  }

  /** The host's synchronous handle keeps the `Write` contract on every job. */
  ghost predicate HostAbides(env: Env) {
    forall j :: env(j).Ready? ==> Fits(j, env(j).value)
  }

  /** The closure's remaining work once the synchronous call has returned:
      record the outcome in `last_op` and hand `Inner` back in an idle state. */
  function Finish(j: Job, o: Outcome): (s: State)
    requires Fits(j, o)
    ensures s.Idle? && s.slot.Some?
    ensures s.slot.value.handle == j.inner.handle && s.slot.value.buf == j.inner.buf
    ensures j.WriteJob? ==> s.slot.value.lastOp == Some(Write(o.written))
    ensures j.FlushJob? ==> s.slot.value.lastOp == Some(Flush(o.flushed))
  {
    match j
    case WriteJob(inner) => Idle(Some(inner.(lastOp := Some(Write(o.written)))))
    case FlushJob(inner) => Idle(Some(inner.(lastOp := Some(Flush(o.flushed)))))
  }

  /** The result `poll_write` may hand back from `last_op` for a caller buffer
      of length `len`: a recorded error, or a recorded count that fits. A count
      larger than the buffer is stale, and so is a result of the other kind. */
  function WriteResult(lastOp: Option<Operation>, len: nat): (r: Option<Result<nat>>)
    ensures r.Some? <==> lastOp.Some? && lastOp.value.Write? && (lastOp.value.written.Ok? ==> lastOp.value.written.value <= len)
    ensures r.Some? ==> r.value == lastOp.value.written
  {
    match lastOp
    case Some(Write(Err(e))) => Some(Err(e))
    case Some(Write(Ok(n))) => if n <= len then Some(Ok(n)) else None
    case _ => None
  }

  /** The result `poll_flush` may hand back from `last_op`. */
  function FlushResult(lastOp: Option<Operation>): (r: Option<Result<()>>)
    ensures r.Some? <==> lastOp.Some? && lastOp.value.Flush?
    ensures r.Some? ==> r.value == lastOp.value.flushed
  {
    match lastOp
    case Some(Flush(res)) => Some(res)
    case _ => None
  }

  /** What one poll call returns and the state it leaves behind. */
  datatype Polled<+T> = Polled(poll: Poll<T>, next: State)

  /** `poll_write` from an idle `Inner`: consume a usable write result, or
      dispatch a write of the caller's bytes and poll its handle once. */
  function WriteFromIdle(inner: Inner, b: seq<byte>, env: Env): Polled<Result<nat>>
    requires HostAbides(env)
  {
    match WriteResult(inner.lastOp, |b|)
    case Some(r) => Polled(Ready(r), Idle(Some(inner.(lastOp := None))))
    case None =>
      var j := WriteJob(inner.(buf := b, lastOp := None));
      match env(j)
      case Pending => Polled(Pending, Busy(j))
      case Ready(o) =>
        var done := Finish(j, o).slot.value;
        Polled(Ready(WriteResult(done.lastOp, |b|).value), Idle(Some(done.(lastOp := None))))
  }

  /** One call of `poll_write` with the caller's bytes `b`, from state `s`. */
  function PollWriteSpec(s: State, b: seq<byte>, env: Env): (r: Polled<Result<nat>>)
    requires Valid(s) && HostAbides(env)
    ensures Valid(r.next)
    // the caller is never told that more bytes were written than it supplied
    ensures r.poll.Ready? && r.poll.value.Ok? ==> r.poll.value.value <= |b|
    // a result is reported once: the slot is idle again with no recorded result
    ensures r.poll.Ready? ==> r.next.Idle? && r.next.slot.value.lastOp.None?
    // Pending exactly when a blocking call is in flight and its handle is not ready
    ensures r.poll.Pending? <==> r.next.Busy?
    ensures r.poll.Pending? ==> env(r.next.task).Pending?
    // while an earlier call is in flight and not ready, nothing new is started
    ensures s.Busy? && env(s.task).Pending? ==> r == Polled(Pending, s)
    // a newly dispatched job writes exactly the caller's bytes
    ensures r.next.Busy? && r.next != s ==> r.next.task == WriteJob(Inner(StreamOf(s), b, None))
    ensures StreamOf(r.next) == StreamOf(s)
  {
    match s
    case Idle(slot) => WriteFromIdle(slot.value, b, env)
    case Busy(j) =>
      match env(j)
      case Pending => Polled(Pending, s)
      case Ready(o) => WriteFromIdle(Finish(j, o).slot.value, b, env)
  }

  /** `poll_flush` from an idle `Inner`: return a recorded flush result, or
      dispatch a flush and poll its handle once. */
  function FlushFromIdle(inner: Inner, env: Env): Polled<Result<()>>
    requires HostAbides(env)
  {
    match FlushResult(inner.lastOp)
    case Some(r) => Polled(Ready(r), Idle(Some(inner.(lastOp := None))))
    case None =>
      var j := FlushJob(inner.(lastOp := None));
      match env(j)
      case Pending => Polled(Pending, Busy(j))
      case Ready(o) =>
        var done := Finish(j, o).slot.value;
        Polled(Ready(FlushResult(done.lastOp).value), Idle(Some(done.(lastOp := None))))
  }

  /** One call of `poll_flush` (and of `poll_close`) from state `s`. */
  function PollFlushSpec(s: State, env: Env): (r: Polled<Result<()>>)
    requires Valid(s) && HostAbides(env)
    ensures Valid(r.next)
    ensures r.poll.Ready? ==> r.next.Idle? && r.next.slot.value.lastOp.None?
    ensures r.poll.Pending? <==> r.next.Busy?
    ensures r.poll.Pending? ==> env(r.next.task).Pending?
    ensures s.Busy? && env(s.task).Pending? ==> r == Polled(Pending, s)
    // a newly dispatched job is a flush of the same Inner, with last_op taken
    ensures r.next.Busy? && r.next != s ==> r.next.task.FlushJob? && r.next.task.inner.lastOp.None?
    ensures StreamOf(r.next) == StreamOf(s)
    // the write buffer is left as it was
    ensures BufOf(r.next) == BufOf(if s.Busy? && env(s.task).Ready? then Finish(s.task, env(s.task).value) else s)
  {
    match s
    case Idle(slot) => FlushFromIdle(slot.value, env)
    case Busy(j) =>
      match env(j)
      case Pending => Polled(Pending, s)
      case Ready(o) => FlushFromIdle(Finish(j, o).slot.value, env)
  }

  /** The stream a valid state's `Inner` belongs to, wherever `Inner` is. */
  function StreamOf(s: State): Handle
    requires Valid(s)
  {
    if s.Busy? then s.task.inner.handle else s.slot.value.handle
  }

  /** The write buffer of a valid state's `Inner`, wherever `Inner` is. */
  function BufOf(s: State): seq<byte>
    requires Valid(s)
  {
    if s.Busy? then s.task.inner.buf else s.slot.value.buf
  }

  /** Loop measure for `poll_write`: how far the state is from a result the
      caller of length `len` can be handed. */
  function WriteRank(s: State, len: nat): nat {
    match s
    case Idle(None) => 5
    case Idle(Some(inner)) =>
      if WriteResult(inner.lastOp, len).Some? then 0 else if inner.lastOp.None? then 2 else 3
    case Busy(j) => if j.WriteJob? && |j.inner.buf| <= len then 1 else 4
  }

  /** Loop measure for `poll_flush`. */
  function FlushRank(s: State): nat {
    match s
    case Idle(None) => 3
    case Idle(Some(inner)) => if FlushResult(inner.lastOp).Some? then 0 else 2
    case Busy(j) => if j.FlushJob? then 1 else 3
  }

  class Bridge {
    /** `Mutex<State>`; each poll call is treated as atomic. */
    var state: State

    /** `stdout()`: an idle bridge around a fresh standard-output handle. */
    constructor Stdout()
      ensures state == Idle(Some(Inner(StdoutHandle, [], None)))
    {
      state := Idle(Some(Inner(StdoutHandle, [], None)));
    }

    /** `stderr()`: an idle bridge around a fresh standard-error handle. */
    constructor Stderr()
      ensures state == Idle(Some(Inner(StderrHandle, [], None)))
    {
      state := Idle(Some(Inner(StderrHandle, [], None)));
    }

    /** `Write::poll_write`. */
    method PollWrite(buf: seq<byte>, env: Env) returns (p: Poll<Result<nat>>)
      requires Valid(state) && HostAbides(env)
      modifies this
      ensures Polled(p, state) == PollWriteSpec(old(state), buf, env)
    {
      ghost var want := PollWriteSpec(state, buf, env);
      p := Pending;
      var done := false;
      while !done
        invariant !done ==> Valid(state) && PollWriteSpec(state, buf, env) == want
        invariant done ==> Polled(p, state) == want
        decreases if done then 0 else 1 + WriteRank(state, |buf|)
      {
        match state
        case Busy(task) =>
          match env(task) {
            case Pending =>
              p, done := Pending, true;
            case Ready(o) =>
              state := Finish(task, o);
          }
        case Idle(slot) =>
          var inner := slot.value;
          var last := inner.lastOp;
          inner := inner.(lastOp := None);
          state := Idle(Some(inner));
          if last.Some? && last.value.Write? {
            match last.value.written {
              case Err(e) =>
                p, done := Ready(Err(e)), true;
              case Ok(n) =>
                // a count larger than this caller's buffer is stale: go round
                // again, which dispatches a fresh write
                if n <= |buf| {
                  p, done := Ready(Ok(n)), true;
                }
            }
          } else {
            // `opt.take()`: the slot is empty while the closure owns `Inner`
            state := Idle(None);
            inner := inner.(buf := buf);
            state := Busy(WriteJob(inner));
          }
      }
    }

    /** `Write::poll_flush`. */
    method PollFlush(env: Env) returns (p: Poll<Result<()>>)
      requires Valid(state) && HostAbides(env)
      modifies this
      ensures Polled(p, state) == PollFlushSpec(old(state), env)
    {
      ghost var want := PollFlushSpec(state, env);
      p := Pending;
      var done := false;
      while !done
        invariant !done ==> Valid(state) && PollFlushSpec(state, env) == want
        invariant done ==> Polled(p, state) == want
        decreases if done then 0 else 1 + FlushRank(state)
      {
        match state
        case Busy(task) =>
          match env(task) {
            case Pending =>
              p, done := Pending, true;
            case Ready(o) =>
              state := Finish(task, o);
          }
        case Idle(slot) =>
          var inner := slot.value;
          var last := inner.lastOp;
          inner := inner.(lastOp := None);
          state := Idle(Some(inner));
          if last.Some? && last.value.Flush? {
            p, done := Ready(last.value.flushed), true;
          } else {
            // `opt.take()`: the slot is empty while the closure owns `Inner`
            state := Idle(None);
            state := Busy(FlushJob(inner));
          }
      }
    }

    /** `Write::poll_close`: the same as a flush. */
    method PollClose(env: Env) returns (p: Poll<Result<()>>)
      requires Valid(state) && HostAbides(env)
      modifies this
      ensures Polled(p, state) == PollFlushSpec(old(state), env)
    {
      p := PollFlush(env);
    }
  }

  /** A recorded write result that fits the caller's buffer is returned as it
      is, and `last_op` is cleared so it is reported only once. */
  lemma ConsumesRecordedWrite(inner: Inner, b: seq<byte>, env: Env)
    requires HostAbides(env)
    requires inner.lastOp.Some? && inner.lastOp.value.Write?
    requires inner.lastOp.value.written.Ok? ==> inner.lastOp.value.written.value <= |b|
    ensures PollWriteSpec(Idle(Some(inner)), b, env)
         == Polled(Ready(inner.lastOp.value.written), Idle(Some(inner.(lastOp := None))))
  {
  }

  /** A recorded count larger than the current buffer is discarded: the call
      does not return it, and a write of the current bytes is dispatched (the
      stale-count case of `DispatchesWrite`, stated on its own). */
  lemma StaleWriteIsRedispatched(inner: Inner, b: seq<byte>, n: nat, env: Env)
    requires HostAbides(env)
    requires inner.lastOp == Some(Write(Ok(n))) && n > |b|
    ensures var j := WriteJob(inner.(buf := b, lastOp := None));
            var r := PollWriteSpec(Idle(Some(inner)), b, env);
            && r.poll != Ready(Ok(n))
            && (env(j).Pending? ==> r == Polled(Pending, Busy(j)))
            && (env(j).Ready? ==> r == Polled(Ready(env(j).value.written), Idle(Some(j.inner))))
  {
  }

  /** With no usable write result recorded (none at all, a stale count or a
      flush result), `poll_write` dispatches a write of exactly the caller's
      bytes: pending while its handle is not ready, and otherwise returning
      that write's own outcome. */
  lemma DispatchesWrite(inner: Inner, b: seq<byte>, env: Env)
    requires HostAbides(env) && WriteResult(inner.lastOp, |b|).None?
    ensures var j := WriteJob(inner.(buf := b, lastOp := None));
            var r := PollWriteSpec(Idle(Some(inner)), b, env);
            && (env(j).Pending? ==> r == Polled(Pending, Busy(j)))
            && (env(j).Ready? ==> r == Polled(Ready(env(j).value.written), Idle(Some(j.inner))))
  {
  }

  /** With no flush result recorded, `poll_flush` dispatches a flush of the
      same `Inner`: pending while its handle is not ready, and otherwise
      returning that flush's own outcome. */
  lemma DispatchesFlush(inner: Inner, env: Env)
    requires HostAbides(env) && FlushResult(inner.lastOp).None?
    ensures var j := FlushJob(inner.(lastOp := None));
            var r := PollFlushSpec(Idle(Some(inner)), env);
            && (env(j).Pending? ==> r == Polled(Pending, Busy(j)))
            && (env(j).Ready? ==> r == Polled(Ready(env(j).value.flushed), Idle(Some(j.inner))))
  {
  }

  /** `poll_flush` returns a recorded flush result unchanged. */
  lemma ReturnsRecordedFlush(inner: Inner, res: Result<()>, env: Env)
    requires HostAbides(env)
    requires inner.lastOp == Some(Flush(res))
    ensures PollFlushSpec(Idle(Some(inner)), env) == Polled(Ready(res), Idle(Some(inner.(lastOp := None))))
  {
  }

  /** A write result found by `poll_flush` is discarded and a flush is
      dispatched (the write-result case of `DispatchesFlush`). */
  lemma FlushDiscardsWriteResult(inner: Inner, res: Result<nat>, env: Env)
    requires HostAbides(env)
    requires inner.lastOp == Some(Write(res))
    ensures var j := FlushJob(inner.(lastOp := None));
            var r := PollFlushSpec(Idle(Some(inner)), env);
            && (env(j).Pending? ==> r == Polled(Pending, Busy(j)))
            && (env(j).Ready? ==> r == Polled(Ready(env(j).value.flushed), Idle(Some(j.inner))))
  {
  }

  /** A join handle that is ready replaces the busy state with the state its
      closure yields, and the same call carries on from there. */
  lemma ReadyHandleIsAdopted(j: Job, o: Outcome, b: seq<byte>, env: Env)
    requires HostAbides(env) && env(j) == Ready(o)
    ensures PollWriteSpec(Busy(j), b, env) == PollWriteSpec(Finish(j, o), b, env)
    ensures PollFlushSpec(Busy(j), env) == PollFlushSpec(Finish(j, o), env)
  {
  }

  /** A write of `b` followed by a write of a shorter buffer `b'`, with the
      first still in flight: the second call never reports more than `|b'|`.
      This is the general bound of `PollWriteSpec` applied to this scenario,
      kept as the scenario the stale-count rule exists for. */
  lemma ShorterSecondWrite(s: State, b: seq<byte>, b': seq<byte>, env: Env, env': Env)
    requires Valid(s) && HostAbides(env) && HostAbides(env')
    requires |b'| < |b|
    requires PollWriteSpec(s, b, env).poll.Pending?
    ensures var r := PollWriteSpec(PollWriteSpec(s, b, env).next, b', env');
            r.poll.Ready? && r.poll.value.Ok? ==> r.poll.value.value <= |b'|
  {
  }

  /** Writing "hello" on a fresh bridge: the first poll dispatches and is
      pending; once the worker reports `Ok(5)`, the next poll returns `Ok(5)`
      and leaves the bridge idle with nothing recorded. */
  lemma HelloScenario(h: Handle, env: Env, env': Env)
    requires HostAbides(env) && HostAbides(env')
    requires var hello: seq<byte> := [104, 101, 108, 108, 111];
             && env(WriteJob(Inner(h, hello, None))) == Pending
             && env'(WriteJob(Inner(h, hello, None))) == Ready(Wrote(Ok(5)))
    ensures var hello: seq<byte> := [104, 101, 108, 108, 111];
            var first := PollWriteSpec(Idle(Some(Inner(h, [], None))), hello, env);
            && first == Polled(Pending, Busy(WriteJob(Inner(h, hello, None))))
            && PollWriteSpec(first.next, hello, env') == Polled(Ready(Ok(5)), Idle(Some(Inner(h, hello, None))))
  {
  }
}
