/**
 The clock calibration of src/network/clock_offset.h and the error bound of its midpoint
 estimate (section 8 of RFC 5905).  All times are in microseconds.
 */
module ClockOffset {
  import opened Options

  const MAX_RTT_US := 200_000
  const MAX_ABS_OFFSET_US := 10_000_000
  const INT64_MAX := 0x7fff_ffff_ffff_ffff

  datatype Reason = Accepted | TransportFailed | BadServerTime | RttTooLarge | OffsetTooLarge | BadLocalTimes

  datatype Result = Result(reason: Reason, rttUs: int, sampleOffsetUs: int)

  /** One calibration attempt: the request failed, or it gave three times. */
  datatype Attempt = Failure | Sample(sent: int, received: int, server: int)

  function Midpoint(a: Attempt): int
    requires a.Sample?
  {
    a.sent + (a.received - a.sent) / 2
  }

  /** A sample that may replace the offset. */
  predicate Acceptable(a: Attempt) {
    && a.Sample? && a.server > 0
    && 0 <= a.received - a.sent <= MAX_RTT_US
    && -MAX_ABS_OFFSET_US <= a.server - Midpoint(a) <= MAX_ABS_OFFSET_US
  }

  /** The offset of the last acceptable attempt, 0 when there was none. */
  function LastAccepted(attempts: seq<Attempt>): int {
    if attempts == [] then 0 else
      var a := attempts[|attempts| - 1];
      if Acceptable(a) then a.server - Midpoint(a) else LastAccepted(attempts[..|attempts| - 1])
  }

  function AcceptCount(attempts: seq<Attempt>): (n: nat)
    ensures n <= |attempts|
  {
    if attempts == [] then 0
    else AcceptCount(attempts[..|attempts| - 1]) + if Acceptable(attempts[|attempts| - 1]) then 1 else 0
  }

  class Calibrator {
    var hasOffset: bool
    var offset: int
    var lastRtt: int
    var acceptCount: nat
    var failCount: nat
    ghost var attempts: seq<Attempt>

    /** The calibrator shows the history of its calls. */
    ghost predicate Valid()
      reads this
    {
      && acceptCount == AcceptCount(attempts)
      && acceptCount + failCount == |attempts|
      && (hasOffset <==> exists k :: 0 <= k < |attempts| && Acceptable(attempts[k]))
      && (hasOffset ==> offset == LastAccepted(attempts) && 0 <= lastRtt <= MAX_RTT_US)
      && (!hasOffset ==> LastAccepted(attempts) == 0)
    }

    constructor ()
      ensures Valid() && attempts == []
    {
      hasOffset, offset, lastRtt, acceptCount, failCount := false, 0, 0, 0, 0;
      attempts := [];
    }

    method OnTransportFailure() returns (r: Result)
      requires Valid()
      modifies this
      ensures Valid() && attempts == old(attempts) + [Failure]
      ensures r == Result(TransportFailed, 0, 0)
      ensures unchanged(this`hasOffset, this`offset, this`lastRtt, this`acceptCount)
      ensures failCount == old(failCount) + 1
    {
      Extended(attempts, Failure);
      failCount := failCount + 1;
      attempts := attempts + [Failure];
      return Result(TransportFailed, 0, 0);
    }

    method OnSample(sent: int, received: int, server: int) returns (r: Result)
      requires Valid()
      modifies this
      ensures Valid() && attempts == old(attempts) + [Sample(sent, received, server)]
      ensures r.reason == Accepted <==> Acceptable(Sample(sent, received, server))
      ensures r.reason == BadServerTime <==> server <= 0
      ensures r.reason == BadLocalTimes <==> server > 0 && received < sent
      ensures r.reason == RttTooLarge <==> server > 0 && received - sent > MAX_RTT_US
      ensures r.reason != TransportFailed
      ensures r.reason in {Accepted, RttTooLarge, OffsetTooLarge} ==>
                (r.rttUs == received - sent
                 && -1 <= 2 * (server - r.sampleOffsetUs) - (sent + received) <= 0)
      ensures r.reason == Accepted ==> hasOffset && offset == r.sampleOffsetUs && lastRtt == r.rttUs
      ensures r.reason != Accepted ==> unchanged(this`hasOffset, this`offset, this`lastRtt, this`acceptCount)
      ensures acceptCount == old(acceptCount) + if r.reason == Accepted then 1 else 0
      ensures failCount == old(failCount) + if r.reason == Accepted then 0 else 1
    {
      ghost var a := Sample(sent, received, server);
      Extended(attempts, a);
      attempts := attempts + [a];
      if server <= 0 {
        failCount := failCount + 1;
        return Result(BadServerTime, 0, 0);
      }
      if received < sent {
        failCount := failCount + 1;
        return Result(BadLocalTimes, 0, 0);
      }
      var rtt := received - sent;
      var midpoint := sent + rtt / 2;
      var sampleOffset := server - midpoint;
      if rtt > MAX_RTT_US {
        failCount := failCount + 1;
        return Result(RttTooLarge, rtt, sampleOffset);
      }
      var absOffset := if sampleOffset < 0 then -sampleOffset else sampleOffset;
      if absOffset > MAX_ABS_OFFSET_US {
        failCount := failCount + 1;
        return Result(OffsetTooLarge, rtt, sampleOffset);
      }
      offset, lastRtt, hasOffset := sampleOffset, rtt, true;
      acceptCount := acceptCount + 1;
      assert Acceptable(attempts[|attempts| - 1]);
      return Result(Accepted, rtt, sampleOffset);
    }

    function OffsetUs(): (o: int)
      requires Valid()
      reads this
      ensures o == LastAccepted(attempts)
    {
      if hasOffset then offset else 0
    }
  }

  lemma Extended(attempts: seq<Attempt>, a: Attempt)
    ensures LastAccepted(attempts + [a]) == if Acceptable(a) then a.server - Midpoint(a) else LastAccepted(attempts)
    ensures AcceptCount(attempts + [a]) == AcceptCount(attempts) + if Acceptable(a) then 1 else 0
    ensures (exists k :: 0 <= k < |attempts + [a]| && Acceptable((attempts + [a])[k])) <==>
            Acceptable(a) || exists k :: 0 <= k < |attempts| && Acceptable(attempts[k])
  {
    var all := attempts + [a];
    assert all[..|all| - 1] == attempts && all[|all| - 1] == a;
    forall k | 0 <= k < |attempts| ensures all[k] == attempts[k] {
    }
    assert Acceptable(a) ==> Acceptable(all[|attempts|]);
  }

  /** Whatever is tried, the offset in use stays within ten seconds. */
  lemma {:induction false} OffsetIsBounded(attempts: seq<Attempt>)
    ensures -10_000_000 <= LastAccepted(attempts) <= 10_000_000
  {
    if attempts != [] {
      OffsetIsBounded(attempts[..|attempts| - 1]);
    }
  }

  /**
   The samples that count: a server time, both local times in order and at most 200 ms
   apart, and the server at most ten seconds off their middle, which is rounded down.
   */
  lemma AcceptableMeans(sent: int, received: int, server: int)
    ensures !Acceptable(Failure)
    ensures Acceptable(Sample(sent, received, server)) <==>
            && server > 0 && sent <= received <= sent + 200_000
            && -20_000_001 <= 2 * server - sent - received <= 20_000_000
  {
  }

  /** The newest sample that counts sets the offset: server time less the middle of the local times. */
  lemma {:induction false} NewestCounts(attempts: seq<Attempt>, k: nat)
    requires k < |attempts| && Acceptable(attempts[k])
    requires forall j :: k < j < |attempts| ==> !Acceptable(attempts[j])
    ensures var a := attempts[k];
      0 <= 2 * LastAccepted(attempts) - (2 * a.server - a.sent - a.received) <= 1
    decreases |attempts|
  {
    var n := |attempts| - 1;
    if k < n {
      NewestCounts(attempts[..n], k);
    }
  }

  // ------------------------------------------------------------------ the error bound

  /** The server's answer in milliseconds, as src/network/https_client.cpp converts it. */
  function ServerTimeUs(ms: int): Option<int> {
    if ms <= 0 || ms > INT64_MAX / 1000 then None else Some(ms * 1000)
  }

  /**
   The server's clock is ahead by trueOffset, was read at local time readAt between
   sending and receiving, and was truncated to milliseconds.
   */
  predicate TruthfulAt(a: Attempt, trueOffset: int, readAt: int) {
    && a.Sample?
    && a.sent <= readAt <= a.received
    && ServerTimeUs((readAt + trueOffset) / 1000) == Some(a.server)
  }

  ghost predicate Truthful(a: Attempt, trueOffset: int) {
    exists readAt :: TruthfulAt(a, trueOffset, readAt)
  }

  /** The midpoint is off by at most half the round trip, and one millisecond of truncation. */
  lemma SampleErrorBound(a: Attempt, trueOffset: int)
    requires Truthful(a, trueOffset)
    ensures var rtt := a.received - a.sent;
      -1000 - rtt / 2 < a.server - Midpoint(a) - trueOffset <= rtt - rtt / 2
  {
    var readAt :| TruthfulAt(a, trueOffset, readAt);
  }

  /** After any attempts whose samples are all truthful, a calibrated offset is within bounds. */
  lemma {:induction false} CalibrationBound(attempts: seq<Attempt>, trueOffset: int)
    requires forall k :: 0 <= k < |attempts| ==> attempts[k].Failure? || Truthful(attempts[k], trueOffset)
    requires exists k :: 0 <= k < |attempts| && Acceptable(attempts[k])
    ensures -101_000 < LastAccepted(attempts) - trueOffset <= 100_000
  {
    hide Truthful, LastAccepted;
    var n := |attempts| - 1;
    assert attempts == attempts[..n] + [attempts[n]];
    Extended(attempts[..n], attempts[n]);
    if Acceptable(attempts[n]) {
      SampleErrorBound(attempts[n], trueOffset);
    } else {
      CalibrationBound(attempts[..n], trueOffset);
    }
  }

  /** Both ends of the bound are reached. */
  lemma BoundIsTight(trueOffset: int, sent: int)
    requires 0 <= trueOffset <= 1_000_000 && 0 < sent + trueOffset && sent % 1000 == 0 && trueOffset % 1000 == 0
    requires sent <= INT64_MAX - 10_000_000
    ensures exists a :: Truthful(a, trueOffset) && Acceptable(a) && a.server - Midpoint(a) - trueOffset == 100_000
    ensures exists a :: Truthful(a, trueOffset + 999) && Acceptable(a)
                        && a.server - Midpoint(a) - (trueOffset + 999) == -100_999
  {
    var late := Sample(sent, sent + 200_000, sent + 200_000 + trueOffset);
    var early := Sample(sent, sent + 200_000, sent + trueOffset);
    WholeMilliseconds(sent, trueOffset);
    assert TruthfulAt(late, trueOffset, sent + 200_000);
    assert TruthfulAt(early, trueOffset + 999, sent);
    assert Acceptable(late) && late.server - Midpoint(late) - trueOffset == 100_000;
    assert Acceptable(early) && early.server - Midpoint(early) - (trueOffset + 999) == -100_999;
  }

  lemma WholeMilliseconds(sent: int, offset: int)
    requires sent % 1000 == 0 && offset % 1000 == 0
    ensures (sent + 200_000 + offset) / 1000 * 1000 == sent + 200_000 + offset
    ensures (sent + (offset + 999)) / 1000 * 1000 == sent + offset
  {
  }

  function ExchangeToRecvUs(exchangeTs: int, recvTs: int, offset: int): Option<nat> {
    if exchangeTs <= 0 then None
    else if recvTs + offset - exchangeTs < 0 then None
    else Some(recvTs + offset - exchangeTs)
  }

  /** What arrives d later by the exchange's clock is reported as d; what seems to arrive early is not reported. */
  lemma LatencyOnExchangeClock(exchangeTs: int, offset: int, d: int)
    ensures ExchangeToRecvUs(exchangeTs, exchangeTs - offset + d, offset)
         == if exchangeTs >= 1 && d >= 0 then Some(d) else None
  {
  }

  /**
   With a calibrated offset a reported latency is within the same bounds of the true one,
   every true latency of 101 ms or more is reported, and none below -100 ms is.
   */
  lemma {:induction false} LatencyInheritsBound(attempts: seq<Attempt>, trueOffset: int, exchangeTs: int, recvTs: int)
    requires forall k :: 0 <= k < |attempts| ==> attempts[k].Failure? || Truthful(attempts[k], trueOffset)
    requires exists k :: 0 <= k < |attempts| && Acceptable(attempts[k])
    ensures var trueLatency := recvTs + trueOffset - exchangeTs;
      var reported := ExchangeToRecvUs(exchangeTs, recvTs, LastAccepted(attempts));
      && (reported.Some? ==> exchangeTs > 0 && -101_000 < reported.value - trueLatency <= 100_000)
      && (exchangeTs > 0 && trueLatency >= 101_000 ==> reported.Some?)
      && (trueLatency < -100_000 ==> reported.None?)
  {
    CalibrationBound(attempts, trueOffset);
  }
}
