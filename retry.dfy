/** The retry-and-backoff wrapper that every API request goes through. */
module Retry {
  import opened Types

  /** What one attempt of a request produced: a reply with its status and
      decoded body, or a failure of the client itself (connection error). */
  datatype Reply<J> = Response(status: int, body: J) | Failure

  /** Attempts made before giving up. */
  const Retries: nat := 5

  /** Statuses that mean "rate limited or briefly unavailable, try again". */
  predicate IsTransient(status: int)
  {
    status == 429 || status == 502 || status == 503 || status == 504
  }

  /** Statuses that `raise_for_status` lets through. */
  predicate IsSuccess(status: int)
  {
    200 <= status <= 299
  }

  /** The reply to attempt `k` (counting from 0). The script stands for the
      remote side; attempts past its end fail in the client. */
  function ReplyAt<J>(script: seq<Reply<J>>, k: nat): Reply<J>
  {
    if k < |script| then script[k] else Failure
  }

  predicate TransientAt<J>(script: seq<Reply<J>>, k: nat)
  {
    ReplyAt(script, k).Response? && IsTransient(ReplyAt(script, k).status)
  }

  function Pow2(k: nat): (r: nat)
    ensures r >= 1
  {
    if k == 0 then 1 else 2 * Pow2(k - 1)
  }

  function Sum(xs: seq<nat>): nat
  {
    if xs == [] then 0 else Sum(xs[..|xs| - 1]) + xs[|xs| - 1]
  }

  /** Sends the request until a non-transient reply arrives or five attempts
      are spent, sleeping 1, 2, 4, ... seconds after each transient reply.
      `sent` is the number of attempts made and `waits` the sleeps taken. */
  method RequestJson<J>(script: seq<Reply<J>>) returns (r: Result<J>, sent: nat, waits: seq<nat>)
    ensures 1 <= sent <= Retries
    ensures forall k :: 0 <= k < sent - 1 ==> TransientAt(script, k)
    ensures ReplyAt(script, sent - 1).Failure? ==> r == Err(Transport)
    ensures TransientAt(script, sent - 1) ==>
              sent == Retries && r == Err(HttpStatus(ReplyAt(script, sent - 1).status))
    ensures var last := ReplyAt(script, sent - 1);
            last.Response? && !IsTransient(last.status) ==>
              r == if IsSuccess(last.status) then Ok(last.body) else Err(HttpStatus(last.status))
    ensures |waits| == if TransientAt(script, sent - 1) then sent else sent - 1
    ensures forall k :: 0 <= k < |waits| ==> waits[k] == Pow2(k)
  {
    var backoff: nat := 1;
    sent := 0;
    waits := [];
    while sent < Retries
      invariant sent <= Retries
      invariant forall k :: 0 <= k < sent ==> TransientAt(script, k)
      invariant |waits| == sent
      invariant forall k :: 0 <= k < sent ==> waits[k] == Pow2(k)
      invariant backoff == Pow2(sent)
    {
      var reply := ReplyAt(script, sent);
      sent := sent + 1;
      match reply
      case Failure =>
        return Err(Transport), sent, waits;
      case Response(status, body) =>
        if IsTransient(status) {
          waits := waits + [backoff];
          backoff := backoff * 2;
        } else if IsSuccess(status) {
          return Ok(body), sent, waits;
        } else {
          return Err(HttpStatus(status)), sent, waits;
        }
    }
    // Five transient replies: the last one is raised.
    assert TransientAt(script, sent - 1);
    r := Err(HttpStatus(ReplyAt(script, sent - 1).status));
  }

  /** Doubling sleeps 1, 2, 4, ... add up to one less than the next one. */
  lemma {:induction false} SleepTotal(waits: seq<nat>)
    requires forall k :: 0 <= k < |waits| ==> waits[k] == Pow2(k)
    ensures Sum(waits) + 1 == Pow2(|waits|)
  {
    if waits != [] {
      SleepTotal(waits[..|waits| - 1]);
    }
  }

  /** The sleeps of one request add up to at most 31 seconds. */
  lemma RequestSleepBound(waits: seq<nat>)
    requires |waits| <= Retries
    requires forall k :: 0 <= k < |waits| ==> waits[k] == Pow2(k)
    ensures Sum(waits) <= 31
  {
    SleepTotal(waits);
    PowMonotone(|waits|, Retries);
  }

  lemma {:induction false} PowMonotone(a: nat, b: nat)
    requires a <= b
    ensures Pow2(a) <= Pow2(b)
  {
    if a < b {
      PowMonotone(a, b - 1);
    }
  }
}
