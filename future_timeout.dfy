/** `future::timeout` (src/future/timeout.rs): a future raced against a delay.

    The delay's clock is not modelled: what a poll of the delay reports
    (elapsed or not) is an input, as is what a poll of the wrapped future
    reports. A caller's repeated polling is modelled by `Drive` over the
    sequences of those reports. */
module FutureTimeout {
  import opened Async

  /** `TimeoutError`: its only field is private and of unit type, so every
      value is the same value. */
  datatype TimeoutError = TimeoutError

  /** The output of the combinator, `Result<T, TimeoutError>`. */
  datatype Outcome<+T> = Ok(value: T) | Err(error: TimeoutError)

  /** One poll of `TimeoutFuture`: what it reports, and whether the delay was
      polled (the wrapped future always is). */
  datatype Polled<+T> = Polled(poll: Poll<Outcome<T>>, delayPolled: bool)

  /** `Display for TimeoutError`. */
  function Display(e: TimeoutError): (s: string)
    ensures s == "future has timed out"
  {
    "future has timed out"
  }

  /** `TimeoutFuture::poll`, given what polling the wrapped future and polling
      the delay report. */
  function PollTimeout<T>(future: Poll<T>, delay: Poll<()>): (r: Polled<T>)
    // the delay is consulted only when the wrapped future is not ready
    ensures r.delayPolled <==> future.Pending?
    // ready as soon as either side is
    ensures r.poll.Ready? <==> future.Ready? || delay.Ready?
    // a ready future wins, whatever the delay would say
    ensures future.Ready? ==> r.poll == Ready(Ok(future.value))
    // a timeout is reported only when the future is pending and the delay fired
    ensures r.poll.Ready? && r.poll.value.Err? <==> future.Pending? && delay.Ready?
  {
    match future
    case Ready(v) => Polled(Ready(Ok(v)), false)
    case Pending =>
      match delay
      case Ready(_) => Polled(Ready(Err(TimeoutError)), true)
      case Pending => Polled(Pending, true)
  }

  /** The outcome of polling repeatedly until the combinator is ready: the
      value and how many polls it took, or still pending after all of them. */
  datatype Run<+R> = Finished(value: R, polls: nat) | StillPending

  /** A caller polling the combinator once per element of `futures` and
      `delays` (poll i sees `futures[i]` and `delays[i]`), stopping at the
      first ready poll. */
  function Drive<T>(futures: seq<Poll<T>>, delays: seq<Poll<()>>): (r: Run<Outcome<T>>)
    requires |futures| == |delays|
    ensures r.Finished? ==> 0 < r.polls <= |futures|
    ensures r.Finished? ==> PollTimeout(futures[r.polls - 1], delays[r.polls - 1]).poll == Ready(r.value)
    // every poll before the last one found both sides pending
    ensures r.Finished? ==> forall i :: 0 <= i < r.polls - 1 ==> futures[i].Pending? && delays[i].Pending?
    ensures r.StillPending? <==> forall i :: 0 <= i < |futures| ==> futures[i].Pending? && delays[i].Pending?
    decreases |futures|
  {
    if |futures| == 0 then StillPending
    else
      match PollTimeout(futures[0], delays[0]).poll
      case Ready(v) => Finished(v, 1)
      case Pending =>
        match Drive(futures[1..], delays[1..])
        case Finished(v, k) => Finished(v, k + 1)
        case StillPending => StillPending
  }

  /** `future::pending()` polled `n` times: never ready. */
  function Never<T>(n: nat): (s: seq<Poll<T>>)
    ensures |s| == n && forall i :: 0 <= i < n ==> s[i].Pending?
  {
    seq(n, _ => Pending)
  }

  /** Any two `TimeoutError` values are equal. */
  lemma TimeoutErrorsEqual(a: TimeoutError, b: TimeoutError)
    ensures a == b
  {
  }

  /** Racing a never-ready future: once the delay fires (at poll `k`), the
      combinator reports a timeout, no earlier than that poll. */
  lemma NeverReadyTimesOut<T>(delays: seq<Poll<()>>, k: nat)
    requires k < |delays| && delays[k].Ready?
    ensures var r := Drive(Never<T>(|delays|), delays);
            r.Finished? && r.value == Err(TimeoutError) && r.polls <= k + 1
            && delays[r.polls - 1].Ready?
  {
  }

  /** A future that completes at poll `k`, before the delay has fired, makes
      the combinator report its output, never a timeout. */
  lemma CompletionBeforeDeadlineWins<T>(futures: seq<Poll<T>>, delays: seq<Poll<()>>, k: nat)
    requires |futures| == |delays| && k < |futures|
    requires futures[k].Ready?
    requires forall i :: 0 <= i < k ==> delays[i].Pending?
    ensures var r := Drive(futures, delays);
            r.Finished? && r.value.Ok? && r.polls <= k + 1
  {
  }
}
