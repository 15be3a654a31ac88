/**
 * The rate-limit rule of `Discogs.__request`: a throttled reply is answered
 * by sleeping and sending the identical request again, as many times as it
 * takes.  The server's answers are a finite sequence of responses, so the
 * unbounded retry terminates here by running out of them.
 */
module Requests {
  import opened Wrappers
  import opened Schema

  /** `API_RATELIMIT_STATUS`: HTTP 429 Too Many Requests. */
  const RateLimitStatus: int := 429
  /** `API_RATELIMIT_TIME`: the cool-down window, in seconds. */
  const RateLimitTime: int := 61
  /** Remaining quota assumed when the reply has no rate-limit header. */
  const DefaultRemaining: int := 60
  /** The shortest sleep on a throttled reply, in seconds. */
  const MinWait: int := 2

  function Remaining(r: Response): int
    requires r.Reply?
  {
    r.remaining.GetOr(DefaultRemaining)
  }

  /** A reply that makes the client back off: almost no quota left, or status 429. */
  predicate Throttled(r: Response) {
    r.Reply? && (Remaining(r) < 2 || r.status == RateLimitStatus)
  }

  /** Seconds slept at time `now` when the previous back-off happened at `lastBlock`. */
  function WaitSeconds(now: int, lastBlock: int): (w: int)
    ensures w >= MinWait
    ensures w >= RateLimitTime - (now - lastBlock)
    ensures w == MinWait || w == RateLimitTime - (now - lastBlock)
  {
    if RateLimitTime - (now - lastBlock) > MinWait then RateLimitTime - (now - lastBlock) else MinWait
  }

  datatype Outcome = Answered(body: Body) | TransportFailed | OutOfResponses

  /**
   * The result of sending one request: how it ended, how many responses it
   * consumed, the back-off time afterwards and the sleeps taken, in order.
   */
  datatype Attempt = Attempt(outcome: Outcome, used: nat, lastBlock: int, waits: seq<int>)

  /**
   * `__request`: take responses until one is not throttled; on each
   * throttled one sleep `WaitSeconds(now, lastBlock)`, record `now` as the
   * new back-off time and retry.
   */
  function Request(rs: seq<Response>, lastBlock: int): (a: Attempt)
    ensures a.used <= |rs|
    decreases |rs|
  {
    if |rs| == 0 then Attempt(OutOfResponses, 0, lastBlock, [])
    else
      match rs[0]
      case Broken(_) => Attempt(TransportFailed, 1, lastBlock, [])
      case Reply(_, _, now, body) =>
        if Throttled(rs[0]) then
          var rest := Request(rs[1..], now);
          Attempt(rest.outcome, rest.used + 1, rest.lastBlock, [WaitSeconds(now, lastBlock)] + rest.waits)
        else
          Attempt(Answered(body), 1, lastBlock, [])
  }

  /**
   * What a request consumed: every sleep answers a throttled reply and
   * lasts `WaitSeconds` from the previous back-off; the reply taken, if
   * any, is the first unthrottled one.
   */
  lemma {:induction false} RequestSpec(rs: seq<Response>, lastBlock: int)
    ensures
      var a := Request(rs, lastBlock);
      && (a.outcome.OutOfResponses? ==> a.used == |rs| && |a.waits| == |rs|)
      && (!a.outcome.OutOfResponses? ==> a.used >= 1 && |a.waits| == a.used - 1)
      && (a.outcome.Answered? ==>
            rs[a.used - 1].Reply? && !Throttled(rs[a.used - 1]) && a.outcome.body == rs[a.used - 1].body)
      && (a.outcome.TransportFailed? ==> rs[a.used - 1].Broken?)
      && (forall i :: 0 <= i < |a.waits| ==> Throttled(rs[i]))
      && (forall i :: 0 <= i < |a.waits| ==>
            a.waits[i] == WaitSeconds(rs[i].now, if i == 0 then lastBlock else rs[i - 1].now))
      && a.lastBlock == (if |a.waits| == 0 then lastBlock else rs[|a.waits| - 1].now)
    decreases |rs|
  {
    if |rs| > 0 && rs[0].Reply? && Throttled(rs[0]) {
      RequestSpec(rs[1..], rs[0].now);
    }
  }

  /** A throttled reply at position `i` costs one sleep and defers to the responses after it. */
  lemma ThrottledStep(rs: seq<Response>, i: nat, block: int)
    requires i < |rs| && Throttled(rs[i])
    ensures
      var rest := Request(rs[i + 1..], rs[i].now);
      Request(rs[i..], block) ==
        Attempt(rest.outcome, rest.used + 1, rest.lastBlock, [WaitSeconds(rs[i].now, block)] + rest.waits)
  {
    assert rs[i..][1..] == rs[i + 1..];
  }

  /** The retry written as a loop over the responses; it computes `Request`. */
  method AwaitReply(rs: seq<Response>, lastBlock: int) returns (a: Attempt)
    ensures a == Request(rs, lastBlock)
  {
    var i := 0;
    var block := lastBlock;
    var waits: seq<int> := [];
    while i < |rs| && Throttled(rs[i])
      invariant 0 <= i <= |rs|
      invariant |waits| == i
      invariant
        var rest := Request(rs[i..], block);
        Request(rs, lastBlock) == Attempt(rest.outcome, rest.used + i, rest.lastBlock, waits + rest.waits)
      decreases |rs| - i
    {
      var w := WaitSeconds(rs[i].now, block);
      ThrottledStep(rs, i, block);
      ghost var rest := Request(rs[i + 1..], rs[i].now);
      assert (waits + [w]) + rest.waits == waits + ([w] + rest.waits);
      waits := waits + [w];
      block := rs[i].now;
      i := i + 1;
    }
    assert waits + [] == waits;
    if i == |rs| {
      a := Attempt(OutOfResponses, i, block, waits);
    } else if rs[i].Broken? {
      a := Attempt(TransportFailed, i + 1, block, waits);
    } else {
      a := Attempt(Answered(rs[i].body), i + 1, block, waits);
    }
  }

  /** While quota remains and the status is not 429, a reply is taken at once. */
  lemma UnthrottledReplyIsTakenAtOnce(rs: seq<Response>, lastBlock: int)
    requires |rs| > 0 && rs[0].Reply?
    requires Remaining(rs[0]) >= 2 && rs[0].status != RateLimitStatus
    ensures Request(rs, lastBlock) == Attempt(Answered(rs[0].body), 1, lastBlock, [])
  {
  }

  /** A reply without the quota header is throttled exactly when its status is 429. */
  lemma MissingHeaderMeansStatusDecides(r: Response)
    requires r.Reply? && r.remaining.None?
    ensures Throttled(r) <==> r.status == RateLimitStatus
  {
  }
}
