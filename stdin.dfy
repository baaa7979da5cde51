/** The asynchronous standard input handle (src/io/stdin.rs).

    As for the writers, a dispatched job is the closure's captured `Inner`
    plus the kind of call it makes, and polling its join handle is an oracle
    `env: Job -> Poll<Outcome>`; `Finish` runs the rest of the closure once
    the synchronous call has returned. */
module Stdin {
  import opened Async
  import opened Io

  /** The result of the last blocking call, kept until a poll consumes it. */
  datatype Operation = ReadLine(lineRead: Result<nat>) | Read(bytesRead: Result<nat>)

  /** The resource bundle owned either by the idle slot or by a worker's
      closure: the line accumulator, the reusable read buffer and `last_op`. */
  datatype Inner = Inner(line: string, buf: seq<byte>, lastOp: Option<Operation>)

  /** A dispatched closure: the `Inner` it moved in and the call it makes. */
  datatype Job = ReadLineJob(inner: Inner) | ReadJob(inner: Inner)

  /** What the synchronous call returned: for a line read, the result and the
      text it appended to the (cleared) line; for a read, the result and the
      bytes it placed at the front of the buffer. */
  datatype Outcome = LineRead(lineResult: Result<nat>, text: string) | BytesRead(readResult: Result<nat>, filled: seq<byte>)

  datatype State = Idle(slot: Option<Inner>) | Busy(task: Job)

  type Env = Job -> Poll<Outcome>

  /** A recorded read count never exceeds the buffer it was read into. */
  predicate InnerOk(inner: Inner) {
    match inner.lastOp
    case Some(Read(Ok(n))) => n <= |inner.buf|
    case _ => true
  }

  /** Between polls the idle slot always holds the `Inner`. */
  predicate Valid(s: State) {
    match s
    case Idle(slot) => slot.Some? && InnerOk(slot.value)
    case Busy(_) => true
  }

  /** The standard `Read` contract: a read fills a prefix of the slice it was
      given and reports exactly how many bytes that was; each call yields an
      outcome of its own kind. */
  predicate Fits(j: Job, o: Outcome) {
    match j
    case ReadLineJob(_) => o.LineRead?
    case ReadJob(inner) =>
      o.BytesRead? && |o.filled| <= |inner.buf| && (o.readResult.Ok? ==> o.readResult.value == |o.filled|)
  }

  /** The host's synchronous handle keeps the `Read` contract on every job. */
  ghost predicate HostAbides(env: Env) {
    forall j :: env(j).Ready? ==> Fits(j, env(j).value)
  }

  /** The closure's remaining work once the synchronous call has returned:
      the line read replaced the cleared line, the read overwrote a prefix of
      the buffer; the result goes into `last_op` and `Inner` comes back idle. */
  function Finish(j: Job, o: Outcome): (s: State)
    requires Fits(j, o)
    ensures s.Idle? && s.slot.Some? && Valid(s)
    ensures j.ReadLineJob? ==> s.slot.value == j.inner.(line := o.text, lastOp := Some(ReadLine(o.lineResult)))
    ensures j.ReadJob? ==> && s.slot.value.line == j.inner.line
                           && s.slot.value.lastOp == Some(Read(o.readResult))
                           && |s.slot.value.buf| == |j.inner.buf|
                           && s.slot.value.buf[..|o.filled|] == o.filled
                           && s.slot.value.buf[|o.filled|..] == j.inner.buf[|o.filled|..]
  {
    match j
    case ReadLineJob(inner) => Idle(Some(inner.(line := o.text, lastOp := Some(ReadLine(o.lineResult)))))
    case ReadJob(inner) =>
      Idle(Some(inner.(buf := o.filled + inner.buf[|o.filled|..], lastOp := Some(Read(o.readResult)))))
  }

  /** `set_len(n)` on the read buffer: the length becomes `n` and the bytes
      kept keep their values (new bytes, uninitialised in the source, are 0). */
  function Resize(v: seq<byte>, n: nat): (r: seq<byte>)
    ensures |r| == n
    ensures forall i :: 0 <= i < n && i < |v| ==> r[i] == v[i]
  {
    if n <= |v| then v[..n] else v + seq(n - |v|, _ => 0 as byte)
  }

  /** The result `read_line` may hand back from `last_op`. */
  function LineResult(lastOp: Option<Operation>): (r: Option<Result<nat>>)
    ensures r.Some? <==> lastOp.Some? && lastOp.value.ReadLine?
    ensures r.Some? ==> r.value == lastOp.value.lineRead
  {
    match lastOp
    case Some(ReadLine(res)) => Some(res)
    case _ => None
  }

  /** The result `poll_read` may hand back from `last_op` for a caller buffer
      of length `len`: a recorded error, or a recorded count that fits. */
  function ReadResult(lastOp: Option<Operation>, len: nat): (r: Option<Result<nat>>)
    ensures r.Some? <==> lastOp.Some? && lastOp.value.Read? && (lastOp.value.bytesRead.Ok? ==> lastOp.value.bytesRead.value <= len)
    ensures r.Some? ==> r.value == lastOp.value.bytesRead
  {
    match lastOp
    case Some(Read(Err(e))) => Some(Err(e))
    case Some(Read(Ok(n))) => if n <= len then Some(Ok(n)) else None
    case _ => None
  }

  /** The caller's string after a consumed line result: the line is appended
      on success, nothing on error. */
  function AppendLine(caller: string, line: string, r: Result<nat>): (s: string)
    // what was there is kept, and it is followed by exactly the line read
    ensures |caller| <= |s| && s[..|caller|] == caller
    ensures r.Ok? ==> s[|caller|..] == line
    ensures r.Err? ==> s == caller
  {
    if r.Ok? then caller + line else caller
  }

  /** The caller's buffer after a consumed read result: on `Ok(n)` its first
      `n` bytes are copied from the read buffer, the rest is untouched. */
  function CopyOut(src: seq<byte>, r: Result<nat>, b: seq<byte>): (out: seq<byte>)
    requires r.Ok? ==> r.value <= |src| && r.value <= |b|
    ensures |out| == |b|
    ensures r.Ok? ==> out[..r.value] == src[..r.value] && out[r.value..] == b[r.value..]
    ensures r.Err? ==> out == b
  {
    if r.Ok? then src[..r.value] + b[r.value..] else b
  }

  /** What one poll of `read_line` returns, the state it leaves behind and
      the caller's string afterwards. */
  datatype LinePolled = LinePolled(poll: Poll<Result<nat>>, next: State, out: string)

  /** What one `poll_read` returns, the state it leaves behind and the
      caller's buffer afterwards. */
  datatype ReadPolled = ReadPolled(poll: Poll<Result<nat>>, next: State, out: seq<byte>)

  /** `read_line` from an idle state holding `inner`: a recorded `ReadLine`
      result is consumed; otherwise `last_op` is taken and a line read is
      dispatched, and its join handle polled once. */
  function LineFromIdle(inner: Inner, caller: string, env: Env): LinePolled
    requires InnerOk(inner) && HostAbides(env)
  {
    match LineResult(inner.lastOp)
    case Some(r) => LinePolled(Ready(r), Idle(Some(inner.(lastOp := None))), AppendLine(caller, inner.line, r))
    case None =>
      var j := ReadLineJob(inner.(lastOp := None));
      match env(j)
      case Pending => LinePolled(Pending, Busy(j), caller)
      case Ready(o) =>
        var done := Finish(j, o).slot.value;
        var r := LineResult(done.lastOp).value;
        LinePolled(Ready(r), Idle(Some(done.(lastOp := None))), AppendLine(caller, done.line, r))
  }

  /** One poll of the `read_line` future with the caller's string `caller`. */
  function PollReadLineSpec(s: State, caller: string, env: Env): (r: LinePolled)
    requires Valid(s) && HostAbides(env)
    ensures Valid(r.next)
    // the caller's string is only ever appended to, and only on success
    ensures |caller| <= |r.out| && r.out[..|caller|] == caller
    ensures !(r.poll.Ready? && r.poll.value.Ok?) ==> r.out == caller
    // a result is reported once
    ensures r.poll.Ready? ==> r.next.Idle? && r.next.slot.value.lastOp.None?
    // what is appended is the line the closure read, the one kept in `Inner`
    ensures r.poll.Ready? && r.poll.value.Ok? ==> r.out == caller + r.next.slot.value.line
    ensures r.poll.Pending? <==> r.next.Busy?
    ensures r.poll.Pending? ==> env(r.next.task).Pending?
    // while an earlier call is in flight and not ready, nothing new is started
    ensures s.Busy? && env(s.task).Pending? ==> r == LinePolled(Pending, s, caller)
    // a newly dispatched job is a line read with last_op taken
    ensures r.next.Busy? && r.next != s ==> r.next.task.ReadLineJob? && r.next.task.inner.lastOp.None?
  {
    match s
    case Idle(slot) => LineFromIdle(slot.value, caller, env)
    case Busy(j) =>
      match env(j)
      case Pending => LinePolled(Pending, s, caller)
      case Ready(o) => LineFromIdle(Finish(j, o).slot.value, caller, env)
  }

  /** `poll_read` from an idle state holding `inner`: a recorded `Read` result
      that fits is consumed; otherwise `last_op` is taken and a read into a
      buffer of the caller's length is dispatched, and its join handle
      polled once. */
  function ReadFromIdle(inner: Inner, b: seq<byte>, env: Env): ReadPolled
    requires InnerOk(inner) && HostAbides(env)
  {
    match ReadResult(inner.lastOp, |b|)
    case Some(r) => ReadPolled(Ready(r), Idle(Some(inner.(lastOp := None))), CopyOut(inner.buf, r, b))
    case None =>
      var j := ReadJob(inner.(buf := Resize(inner.buf, |b|), lastOp := None));
      match env(j)
      case Pending => ReadPolled(Pending, Busy(j), b)
      case Ready(o) =>
        var done := Finish(j, o).slot.value;
        var r := ReadResult(done.lastOp, |b|).value;
        ReadPolled(Ready(r), Idle(Some(done.(lastOp := None))), CopyOut(done.buf, r, b))
  }

  /** One `poll_read` into the caller's buffer `b`. */
  function PollReadSpec(s: State, b: seq<byte>, env: Env): (r: ReadPolled)
    requires Valid(s) && HostAbides(env)
    ensures Valid(r.next)
    // the caller is never handed more bytes than its buffer holds, and only
    // the first n bytes of its buffer change
    ensures |r.out| == |b|
    ensures r.poll.Ready? && r.poll.value.Ok? ==> r.poll.value.value <= |b| && r.out[r.poll.value.value..] == b[r.poll.value.value..]
    ensures !(r.poll.Ready? && r.poll.value.Ok?) ==> r.out == b
    // a result is reported once
    ensures r.poll.Ready? ==> r.next.Idle? && r.next.slot.value.lastOp.None?
    // what is copied is the front of the buffer the closure read into
    ensures r.poll.Ready? && r.poll.value.Ok? ==>
              var n := r.poll.value.value;
              n <= |r.next.slot.value.buf| && r.out[..n] == r.next.slot.value.buf[..n]
    ensures r.poll.Pending? <==> r.next.Busy?
    ensures r.poll.Pending? ==> env(r.next.task).Pending?
    ensures s.Busy? && env(s.task).Pending? ==> r == ReadPolled(Pending, s, b)
    // a newly dispatched read is given a buffer exactly as long as the caller's
    ensures r.next.Busy? && r.next != s ==> r.next.task.ReadJob? && |r.next.task.inner.buf| == |b| && r.next.task.inner.lastOp.None?
  {
    match s
    case Idle(slot) => ReadFromIdle(slot.value, b, env)
    case Busy(j) =>
      match env(j)
      case Pending => ReadPolled(Pending, s, b)
      case Ready(o) => ReadFromIdle(Finish(j, o).slot.value, b, env)
  }

  /** Loop measure for `read_line`. */
  function LineRank(s: State): nat {
    match s
    case Idle(None) => 3
    case Idle(Some(inner)) => if LineResult(inner.lastOp).Some? then 0 else 2
    case Busy(j) => if j.ReadLineJob? then 1 else 3
  }

  /** Loop measure for `poll_read` with a caller buffer of length `len`. */
  function ReadRank(s: State, len: nat): nat {
    match s
    case Idle(None) => 5
    case Idle(Some(inner)) =>
      if ReadResult(inner.lastOp, len).Some? then 0 else if inner.lastOp.None? then 2 else 3
    case Busy(j) => if j.ReadJob? && |j.inner.buf| <= len then 1 else 4
  }

  class Stdin {
    /** `Mutex<State>`; each poll call is treated as atomic. */
    var state: State

    /** `stdin()`: an idle handle with an empty line, an empty buffer and no
        recorded result. */
    constructor ()
      ensures state == Idle(Some(Inner("", [], None)))
    {
      state := Idle(Some(Inner("", [], None)));
    }

    /** One poll of the `read_line` future: `buf` is the caller's string
        before the poll and `buf'` after it. */
    method PollReadLine(buf: string, env: Env) returns (p: Poll<Result<nat>>, buf': string)
      requires Valid(state) && HostAbides(env)
      modifies this
      ensures LinePolled(p, state, buf') == PollReadLineSpec(old(state), buf, env)
    {
      ghost var want := PollReadLineSpec(state, buf, env);
      p, buf' := Pending, buf;
      var done := false;
      while !done
        invariant buf' == buf || done
        invariant !done ==> Valid(state) && PollReadLineSpec(state, buf, env) == want
        invariant done ==> LinePolled(p, state, buf') == want
        decreases if done then 0 else 1 + LineRank(state)
      {
        match state
        case Busy(task) =>
          match env(task) {
            case Pending =>
              p, done := Pending, true;
            case Ready(o) =>
              state := Finish(task, o);
          }
        case Idle(slot) =>
          var inner := slot.value;
          var last := inner.lastOp;
          inner := inner.(lastOp := None);
          state := Idle(Some(inner));
          if last.Some? && last.value.ReadLine? {
            match last.value.lineRead {
              case Err(e) =>
                p, done := Ready(Err(e)), true;
              case Ok(n) =>
                buf' := buf + inner.line;
                p, done := Ready(Ok(n)), true;
            }
          } else {
            // `opt.take()`: the slot is empty while the closure owns `Inner`
            state := Idle(None);
            state := Busy(ReadLineJob(inner));
          }
      }
    }

    /** `Read::poll_read` into the caller's buffer `buf`. */
    method PollRead(buf: array<byte>, env: Env) returns (p: Poll<Result<nat>>)
      requires Valid(state) && HostAbides(env)
      modifies this, buf
      ensures ReadPolled(p, state, buf[..]) == PollReadSpec(old(state), old(buf[..]), env)
    {
      ghost var b := buf[..];
      ghost var want := PollReadSpec(state, b, env);
      p := Pending;
      var done := false;
      while !done
        invariant done || buf[..] == b
        invariant !done ==> Valid(state) && PollReadSpec(state, b, env) == want
        invariant done ==> ReadPolled(p, state, buf[..]) == want
        decreases if done then 0 else 1 + ReadRank(state, buf.Length)
      {
        match state
        case Busy(task) =>
          match env(task) {
            case Pending =>
              p, done := Pending, true;
            case Ready(o) =>
              state := Finish(task, o);
          }
        case Idle(slot) =>
          var inner := slot.value;
          var last := inner.lastOp;
          inner := inner.(lastOp := None);
          state := Idle(Some(inner));
          if last.Some? && last.value.Read? {
            match last.value.bytesRead {
              case Err(e) =>
                p, done := Ready(Err(e)), true;
              case Ok(n) =>
                // a count larger than this caller's buffer is stale: go round
                // again, which dispatches a fresh read
                if n <= buf.Length {
                  forall i | 0 <= i < n {
                    buf[i] := inner.buf[i];
                  }
                  assert buf[..] == inner.buf[..n] + b[n..];
                  p, done := Ready(Ok(n)), true;
                }
            }
          } else {
            // `opt.take()`: the slot is empty while the closure owns `Inner`
            state := Idle(None);
            inner := inner.(buf := Resize(inner.buf, buf.Length));
            state := Busy(ReadJob(inner));
          }
      }
    }
  }

  /** A recorded line is appended to the caller's string exactly once: the
      call returns the recorded count and clears `last_op`. */
  lemma ConsumesRecordedLine(inner: Inner, caller: string, n: nat, env: Env)
    requires InnerOk(inner) && HostAbides(env)
    requires inner.lastOp == Some(ReadLine(Ok(n)))
    ensures PollReadLineSpec(Idle(Some(inner)), caller, env)
         == LinePolled(Ready(Ok(n)), Idle(Some(inner.(lastOp := None))), caller + inner.line)
  {
  }

  /** A recorded line-read error is returned once and the string is untouched. */
  lemma ConsumesRecordedLineError(inner: Inner, caller: string, e: Error, env: Env)
    requires InnerOk(inner) && HostAbides(env)
    requires inner.lastOp == Some(ReadLine(Err(e)))
    ensures PollReadLineSpec(Idle(Some(inner)), caller, env)
         == LinePolled(Ready(Err(e)), Idle(Some(inner.(lastOp := None))), caller)
  {
  }

  /** A recorded read that fits is copied into the front of the caller's buffer. */
  lemma ConsumesRecordedRead(inner: Inner, b: seq<byte>, n: nat, env: Env)
    requires InnerOk(inner) && HostAbides(env)
    requires inner.lastOp == Some(Read(Ok(n))) && n <= |b|
    ensures PollReadSpec(Idle(Some(inner)), b, env)
         == ReadPolled(Ready(Ok(n)), Idle(Some(inner.(lastOp := None))), inner.buf[..n] + b[n..])
  {
  }

  /** A recorded read error is returned once: the caller's buffer is
      untouched and `last_op` is cleared. */
  lemma ConsumesRecordedReadError(inner: Inner, b: seq<byte>, e: Error, env: Env)
    requires InnerOk(inner) && HostAbides(env)
    requires inner.lastOp == Some(Read(Err(e)))
    ensures PollReadSpec(Idle(Some(inner)), b, env)
         == ReadPolled(Ready(Err(e)), Idle(Some(inner.(lastOp := None))), b)
  {
  }

  /** A recorded read larger than the current buffer is discarded, and a read
      into a buffer of the current length is dispatched (the stale-count case
      of `DispatchesRead`, stated on its own). */
  lemma StaleReadIsRedispatched(inner: Inner, b: seq<byte>, n: nat, env: Env)
    requires InnerOk(inner) && HostAbides(env)
    requires inner.lastOp == Some(Read(Ok(n))) && n > |b|
    ensures var j := ReadJob(inner.(buf := Resize(inner.buf, |b|), lastOp := None));
            var r := PollReadSpec(Idle(Some(inner)), b, env);
            && r.poll != Ready(Ok(n))
            && (env(j).Pending? ==> r == ReadPolled(Pending, Busy(j), b))
            && (env(j).Ready? ==> r.poll == Ready(env(j).value.readResult))
  {
  }

  /** A result of the other kind is taken and dropped, and a fresh operation
      of the requested kind is dispatched; once its handle is ready, the call
      returns the new operation's result, never the dropped one (the
      other-kind cases of `DispatchesLine` and `DispatchesRead`). */
  lemma OtherKindIsDropped(inner: Inner, caller: string, b: seq<byte>, env: Env)
    requires InnerOk(inner) && HostAbides(env)
    ensures inner.lastOp.Some? && inner.lastOp.value.Read? ==>
              var j := ReadLineJob(inner.(lastOp := None));
              var r := PollReadLineSpec(Idle(Some(inner)), caller, env);
              && (env(j).Pending? ==> r == LinePolled(Pending, Busy(j), caller))
              && (env(j).Ready? ==> r.poll == Ready(env(j).value.lineResult))
    ensures inner.lastOp.Some? && inner.lastOp.value.ReadLine? ==>
              var j := ReadJob(inner.(buf := Resize(inner.buf, |b|), lastOp := None));
              var r := PollReadSpec(Idle(Some(inner)), b, env);
              && (env(j).Pending? ==> r == ReadPolled(Pending, Busy(j), b))
              && (env(j).Ready? ==> r.poll == Ready(env(j).value.readResult))
  {
  }

  /** With no `ReadLine` result recorded, `read_line` dispatches a line read
      of the same `Inner`: pending while its handle is not ready, and
      otherwise returning that read's result, with its text appended on
      success and kept as the stored line. */
  lemma DispatchesLine(inner: Inner, caller: string, env: Env)
    requires InnerOk(inner) && HostAbides(env) && LineResult(inner.lastOp).None?
    ensures var j := ReadLineJob(inner.(lastOp := None));
            var r := PollReadLineSpec(Idle(Some(inner)), caller, env);
            && (env(j).Pending? ==> r == LinePolled(Pending, Busy(j), caller))
            && (env(j).Ready? ==>
                  var o := env(j).value;
                  r == LinePolled(Ready(o.lineResult), Idle(Some(j.inner.(line := o.text))), AppendLine(caller, o.text, o.lineResult)))
  {
  }

  /** With no usable `Read` result recorded, `poll_read` dispatches a read
      into a buffer of the caller's length: pending while its handle is not
      ready, and otherwise returning that read's result, with the bytes it
      filled copied to the front of the caller's buffer on success. */
  lemma DispatchesRead(inner: Inner, b: seq<byte>, env: Env)
    requires InnerOk(inner) && HostAbides(env) && ReadResult(inner.lastOp, |b|).None?
    ensures var j := ReadJob(inner.(buf := Resize(inner.buf, |b|), lastOp := None));
            var r := PollReadSpec(Idle(Some(inner)), b, env);
            && (env(j).Pending? ==> r == ReadPolled(Pending, Busy(j), b))
            && (env(j).Ready? ==>
                  var o := env(j).value;
                  && r.poll == Ready(o.readResult)
                  && r.next == Idle(Some(Finish(j, o).slot.value.(lastOp := None)))
                  && |o.filled| <= |b|
                  && (o.readResult.Ok? ==> r.out == o.filled + b[|o.filled|..])
                  && (o.readResult.Err? ==> r.out == b))
  {
  }

  /** A join handle that is ready replaces the busy state with the state its
      closure yields, and the same call carries on from there. */
  lemma ReadyHandleIsAdopted(j: Job, o: Outcome, caller: string, b: seq<byte>, env: Env)
    requires HostAbides(env) && env(j) == Ready(o)
    ensures PollReadLineSpec(Busy(j), caller, env) == PollReadLineSpec(Finish(j, o), caller, env)
    ensures PollReadSpec(Busy(j), b, env) == PollReadSpec(Finish(j, o), b, env)
  {
  }

  /** Two completed line reads append the two lines read, each once and in
      order: first the line already recorded in `inner`, then the line `t`
      that the dispatched read returns. */
  lemma TwoLinesAppend(inner: Inner, caller: string, n: nat, k: nat, t: string, env: Env, env': Env)
    requires InnerOk(inner) && HostAbides(env) && HostAbides(env')
    requires inner.lastOp == Some(ReadLine(Ok(n)))
    requires env'(ReadLineJob(inner.(lastOp := None))) == Ready(LineRead(Ok(k), t))
    ensures var r := PollReadLineSpec(Idle(Some(inner)), caller, env);
            var r' := PollReadLineSpec(r.next, r.out, env');
            && r.poll == Ready(Ok(n)) && r.out == caller + inner.line
            && r'.poll == Ready(Ok(k)) && r'.out == caller + inner.line + t
  {
  }
}
