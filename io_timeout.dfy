/** `io::timeout` (src/io/timeout.rs): an I/O future raced against a delay.
    It runs the race of `future::timeout` with a different output: the
    wrapped future's `io::Result` passes through unchanged, and a timeout is
    an `io::Error` of kind `TimedOut`. */
module IoTimeout {
  import opened Async
  import opened Io
  import FutureTimeout

  /** The error a timeout produces. */
  const TimedOutError: Error := Error(TimedOut, "future timed out")

  /** One poll of `Timeout`: what it reports, and whether the timer was polled. */
  datatype Polled<+T> = Polled(poll: Poll<Result<T>>, timerPolled: bool)

  /** `Timeout::poll`, given what polling the wrapped future and polling the
      timer report. */
  function PollTimeout<T>(future: Poll<Result<T>>, timer: Poll<()>): (r: Polled<T>)
    ensures r.timerPolled <==> future.Pending?
    ensures r.poll.Ready? <==> future.Ready? || timer.Ready?
    // a ready future's result is returned as it is, an error included
    ensures future.Ready? ==> r.poll == future
    // otherwise a fired timer yields the TimedOut error
    ensures future.Pending? && timer.Ready? ==> r.poll == Ready(Err(Error(TimedOut, "future timed out")))
  {
    if future.Ready? then Polled(future, false)
    else if timer.Ready? then Polled(Ready(Err(TimedOutError)), true)
    else Polled(Pending, true)
  }

  /** The I/O shape of a generic timeout outcome: the future's own result,
      or the `TimedOut` error. */
  function Flatten<T>(o: FutureTimeout.Outcome<Result<T>>): (r: Result<T>)
    ensures o.Ok? ==> r == o.value
    ensures o.Err? ==> r == Err(Error(TimedOut, "future timed out"))
  {
    match o
    case Ok(res) => res
    case Err(_) => Err(TimedOutError)
  }

  /** Both combinators run the same race on every poll: they poll the same
      sides, are ready together, and agree once the outcome is put in I/O
      shape. */
  lemma SameRaceAsFutureTimeout<T>(future: Poll<Result<T>>, timer: Poll<()>)
    ensures var g := FutureTimeout.PollTimeout(future, timer);
            var r := PollTimeout(future, timer);
            && r.timerPolled == g.delayPolled
            && r.poll.Ready? == g.poll.Ready?
            && (r.poll.Ready? ==> r.poll.value == Flatten(g.poll.value))
  {
  }

  /** A caller polling the combinator once per element of `futures` and
      `timers`, stopping at the first ready poll: the generic race, with its
      outcome put in I/O shape. */
  function Drive<T>(futures: seq<Poll<Result<T>>>, timers: seq<Poll<()>>): (r: FutureTimeout.Run<Result<T>>)
    requires |futures| == |timers|
    ensures r.Finished? ==> 0 < r.polls <= |futures|
    ensures r.Finished? ==> PollTimeout(futures[r.polls - 1], timers[r.polls - 1]).poll == Ready(r.value)
    ensures r.Finished? ==> forall i :: 0 <= i < r.polls - 1 ==> futures[i].Pending? && timers[i].Pending?
    ensures r.StillPending? <==> forall i :: 0 <= i < |futures| ==> futures[i].Pending? && timers[i].Pending?
  {
    match FutureTimeout.Drive(futures, timers)
    case Finished(o, k) => FutureTimeout.Finished(Flatten(o), k)
    case StillPending => FutureTimeout.StillPending
  }

  /** `io::timeout(dur, future::pending())`: once the timer fires, the result
      is the `TimedOut` error. */
  lemma NeverReadyTimesOut<T>(timers: seq<Poll<()>>, k: nat)
    requires k < |timers| && timers[k].Ready?
    ensures var r := Drive(FutureTimeout.Never<Result<T>>(|timers|), timers);
            r.Finished? && r.value == Err(Error(TimedOut, "future timed out")) && r.polls <= k + 1
  {
  }

  /** A future that completes before the timer fires has its own result
      reported, even when that result is itself an error. */
  lemma CompletionBeforeDeadlineWins<T>(futures: seq<Poll<Result<T>>>, timers: seq<Poll<()>>, k: nat)
    requires |futures| == |timers| && k < |futures|
    requires futures[k].Ready?
    requires forall i :: 0 <= i < k ==> timers[i].Pending?
    ensures var r := Drive(futures, timers);
            r.Finished? && r.polls <= k + 1 && Ready(r.value) == futures[r.polls - 1]
  {
  }
}
