/**
 The per-symbol sequence gate of src/network/trade_seq_gate.h: duplicates, gaps and
 recovery by retransmission.
 */
module TradeSeqGate {
  import opened Options

  datatype GateState = Live | Recovering

  datatype Action = Accept | Duplicate | Gap | Hold

  datatype GateResult = GateResult(action: Action, missingBegin: int, missingEnd: int) {
    function MissingCount(): nat {
      if action != Gap || missingEnd < missingBegin then 0 else missingEnd - missingBegin + 1
    }
  }

  /** The gate's fields as a value. */
  datatype Gate = Gate(hasLast: bool, lastId: int, missingBegin: int, missingEnd: int, state: GateState) {
    predicate CanTrade() {
      state == Live
    }

    function MissingRange(): Option<(int, int)> {
      if state != Recovering then None else Some((missingBegin, missingEnd))
    }

    /** Ids counted as missing while the gate recovers. */
    function MissingCount(): nat {
      if state == Recovering && missingBegin <= missingEnd then missingEnd - missingBegin + 1 else 0
    }
  }

  const FRESH_GATE := Gate(false, 0, 0, 0, Live)

  function OnLive(g: Gate, id: int): (Gate, GateResult) {
    if g.state == Recovering then (g, GateResult(Hold, g.missingBegin, g.missingEnd))
    else if !g.hasLast then (g.(hasLast := true, lastId := id), GateResult(Accept, 0, 0))
    else if id == g.lastId + 1 then (g.(lastId := id), GateResult(Accept, 0, 0))
    else if id <= g.lastId then (g, GateResult(Duplicate, 0, 0))
    else (g.(state := Recovering, missingBegin := g.lastId + 1, missingEnd := id - 1),
          GateResult(Gap, g.lastId + 1, id - 1))
  }

  function OnReplay(g: Gate, id: int): (Gate, bool) {
    if g.state != Recovering || !g.hasLast || id != g.lastId + 1 then (g, false)
    else if id == g.missingEnd then (g.(lastId := id, missingBegin := 0, missingEnd := 0, state := Live), true)
    else (g.(lastId := id), true)
  }

  /** The object the code keeps, updated in place. */
  class SeqGate {
    var hasLast: bool
    var lastId: int
    var missingBegin: int
    var missingEnd: int
    var state: GateState

    constructor ()
      ensures View() == FRESH_GATE
    {
      hasLast, lastId, missingBegin, missingEnd, state := false, 0, 0, 0, Live;
    }

    function View(): Gate
      reads this
    {
      Gate(hasLast, lastId, missingBegin, missingEnd, state)
    }

    method OnLiveTrade(id: int) returns (r: GateResult)
      modifies this
      ensures (View(), r) == OnLive(old(View()), id)
    {
      if state == Recovering {
        return GateResult(Hold, missingBegin, missingEnd);
      }
      if !hasLast {
        hasLast, lastId := true, id;
        return GateResult(Accept, 0, 0);
      }
      if id == lastId + 1 {
        lastId := id;
        return GateResult(Accept, 0, 0);
      }
      if id <= lastId {
        return GateResult(Duplicate, 0, 0);
      }
      state, missingBegin, missingEnd := Recovering, lastId + 1, id - 1;
      return GateResult(Gap, missingBegin, missingEnd);
    }

    method OnReplayTrade(id: int) returns (accepted: bool)
      modifies this
      ensures (View(), accepted) == OnReplay(old(View()), id)
    {
      if state != Recovering || !hasLast {
        return false;
      }
      if id != lastId + 1 {
        return false;
      }
      lastId := id;
      if lastId == missingEnd {
        state, missingBegin, missingEnd := Live, 0, 0;
      }
      return true;
    }
  }

  // --------------------------------------------------------------------- all runs

  datatype Call = LiveTrade(id: int) | ReplayTrade(id: int)

  function Step(g: Gate, c: Call): Gate {
    match c
    case LiveTrade(id) => OnLive(g, id).0
    case ReplayTrade(id) => OnReplay(g, id).0
  }

  predicate Accepts(g: Gate, c: Call) {
    match c
    case LiveTrade(id) => OnLive(g, id).1.action == Accept
    case ReplayTrade(id) => OnReplay(g, id).1
  }

  function After(calls: seq<Call>): Gate {
    if calls == [] then FRESH_GATE else Step(After(calls[..|calls| - 1]), calls[|calls| - 1])
  }

  /** The ids that passed, in call order. */
  function AcceptedIds(calls: seq<Call>): seq<int> {
    if calls == [] then [] else
      var n := |calls| - 1;
      AcceptedIds(calls[..n]) + if Accepts(After(calls[..n]), calls[n]) then [calls[n].id] else []
  }

  ghost predicate Consecutive(ids: seq<int>) {
    forall i :: 0 <= i < |ids| ==> ids[i] == ids[0] + i
  }

  ghost predicate GateInv(g: Gate, ids: seq<int>) {
    && g.hasLast == (ids != [])
    && Consecutive(ids)
    && (ids != [] ==> ids[|ids| - 1] == g.lastId)
    && (g.state == Recovering ==> g.hasLast && g.missingBegin <= g.lastId + 1 <= g.missingEnd)
    && (g.state == Recovering ==> ids[0] < g.missingBegin)
  }

  /** In every run: no hole and no repeat, and a recovery always knows what it still misses. */
  lemma {:induction false} AcceptedIdsAreConsecutive(calls: seq<Call>)
    ensures GateInv(After(calls), AcceptedIds(calls))
  {
    if calls != [] {
      var n := |calls| - 1;
      AcceptedIdsAreConsecutive(calls[..n]);
      GateStep(After(calls[..n]), AcceptedIds(calls[..n]), calls[n]);
    }
  }

  lemma GateStep(g: Gate, ids: seq<int>, c: Call)
    requires GateInv(g, ids)
    ensures GateInv(Step(g, c), ids + if Accepts(g, c) then [c.id] else [])
  {
  }

  /**
   The range a gate reports: there is one exactly while it cannot trade, and then it starts
   behind an accepted id, what has come of it has been accepted, and the rest has not.
   */
  lemma ReportedRange(calls: seq<Call>)
    ensures After(calls).MissingRange().Some? <==> !After(calls).CanTrade()
    ensures var g, ids := After(calls), AcceptedIds(calls);
      g.MissingRange().Some? ==>
        var (from, to) := g.MissingRange().value;
        && from - 1 in ids && from <= to
        && forall id :: from <= id <= to ==> (id in ids <==> id <= g.lastId)
  {
    hide After, AcceptedIds;
    AcceptedIdsAreConsecutive(calls);
    var g, ids := After(calls), AcceptedIds(calls);
    if g.state == Recovering {
      forall id | ids[0] <= id <= g.lastId ensures id in ids {
        assert ids[id - ids[0]] == id;
      }
    }
  }

  /** Replays accepted by a run that starts in the given gate. */
  function AcceptedFrom(g: Gate, calls: seq<Call>): nat
    decreases calls
  {
    if calls == [] then 0
    else (if Accepts(g, calls[0]) then 1 else 0) + AcceptedFrom(Step(g, calls[0]), calls[1..])
  }

  function RunFrom(g: Gate, calls: seq<Call>): Gate
    decreases calls
  {
    if calls == [] then g else RunFrom(Step(g, calls[0]), calls[1..])
  }

  /**
   From a recovering gate, while it stays recovering every accepted call is a replay
   that brings last one closer; it returns to Live with exactly the
   (missingEnd - last)-th acceptance, not before.
   */
  lemma {:induction false} RecoveryLength(g: Gate, calls: seq<Call>)
    requires g.state == Recovering && g.hasLast && g.lastId < g.missingEnd
    requires forall k :: 0 <= k < |calls| ==> RunFrom(g, calls[..k]).state == Recovering
    ensures var h := RunFrom(g, calls);
            var n := AcceptedFrom(g, calls);
      && h.lastId == g.lastId + n && n <= g.missingEnd - g.lastId
      && (h.state == Live <==> n == g.missingEnd - g.lastId)
      && (h.state == Recovering ==> h.missingBegin == g.missingBegin && h.missingEnd == g.missingEnd)
    decreases |calls|
  {
    if calls != [] {
      var t := Step(g, calls[0]);
      if t.state == Live {
        OnlyLastCallEnds(g, calls);
        assert calls[1..] == [];
      } else {
        forall k | 0 <= k < |calls[1..]| ensures RunFrom(t, calls[1..][..k]).state == Recovering {
          assert calls[..k + 1][1..] == calls[1..][..k];
          assert RunFrom(g, calls[..k + 1]).state == Recovering;
        }
        RecoveryLength(t, calls[1..]);
      }
    }
  }

  lemma OnlyLastCallEnds(g: Gate, calls: seq<Call>)
    requires calls != [] && Step(g, calls[0]).state == Live
    requires forall k :: 0 <= k < |calls| ==> RunFrom(g, calls[..k]).state == Recovering
    ensures |calls| == 1
  {
    assert RunFrom(g, [calls[0]]) == Step(g, calls[0]) by {
      assert [calls[0]][1..] == [];
    }
    assert calls[..1] == [calls[0]];
    assert RunFrom(g, calls[..1]).state == Live;
  }

  lemma {:induction false} AfterIsRunFrom(a: seq<Call>, b: seq<Call>)
    ensures After(a + b) == RunFrom(After(a), b)
    decreases |b|
  {
    if b == [] {
      assert a + b == a;
    } else {
      var a' := a + [b[0]];
      assert a'[..|a|] == a;
      AfterIsRunFrom(a', b[1..]);
      assert a' + b[1..] == a + b;
    }
  }

  /** The same inside any run: whenever the gate recovers, exactly missingEnd - last acceptances end it. */
  lemma {:induction false} RecoveryInRun(before: seq<Call>, calls: seq<Call>)
    requires After(before).state == Recovering
    requires forall k :: 0 <= k < |calls| ==> After(before + calls[..k]).state == Recovering
    ensures var g, h := After(before), After(before + calls);
            var n := |AcceptedIds(before + calls)| - |AcceptedIds(before)|;
      && h.lastId == g.lastId + n && n <= g.missingEnd - g.lastId
      && (h.state == Live <==> n == g.missingEnd - g.lastId)
      && (h.state == Recovering ==> h.missingBegin == g.missingBegin && h.missingEnd == g.missingEnd)
  {
    hide After, AcceptedIds, RunFrom, AcceptedFrom;
    AcceptedIdsAreConsecutive(before);
    forall k | 0 <= k < |calls| ensures RunFrom(After(before), calls[..k]).state == Recovering {
      AfterIsRunFrom(before, calls[..k]);
    }
    AfterIsRunFrom(before, calls);
    AcceptedAdds(before, calls);
    RecoveryLength(After(before), calls);
  }

  lemma {:induction false} AcceptedAdds(a: seq<Call>, b: seq<Call>)
    ensures |AcceptedIds(a + b)| == |AcceptedIds(a)| + AcceptedFrom(After(a), b)
    decreases |b|
  {
    hide Accepts, Step;
    if b == [] {
      assert a + b == a;
    } else {
      var a' := a + [b[0]];
      assert a'[..|a|] == a;
      AcceptedAdds(a', b[1..]);
      assert a' + b[1..] == a + b;
    }
  }

  /**
   An id turned away as Gap or Hold is never skipped: at any later point it has either
   been accepted, or the next jump beyond it reports it missing.
   */
  lemma {:induction false} TurnedAwayIsNotSkipped(before: seq<Call>, id: int, after: seq<Call>, later: int)
    requires var r := OnLive(After(before), id).1; r.action == Gap || r.action == Hold
    requires id > After(before).lastId
    ensures var calls := before + [LiveTrade(id)] + after;
            var g := After(calls);
      || id in AcceptedIds(calls)
      || (id > g.lastId
          && (g.CanTrade() && later > id ==>
                OnLive(g, later).1.action == Gap
                && OnLive(g, later).1.missingBegin <= id <= OnLive(g, later).1.missingEnd))
  {
    hide After, AcceptedIds;
    var calls := before + [LiveTrade(id)] + after;
    assert before + ([LiveTrade(id)] + after) == calls;
    AcceptedIdsAreConsecutive(before);
    LastStays(before, [LiveTrade(id)] + after);
    if id <= After(calls).lastId {
      AcceptedUpToLast(before, [LiveTrade(id)] + after, id);
    }
  }

  lemma LastStays(a: seq<Call>, b: seq<Call>)
    ensures After(a).hasLast ==> After(a + b).hasLast
  {
    hide After;
    AcceptedIdsAreConsecutive(a);
    AcceptedIdsAreConsecutive(a + b);
    AcceptedGrows(a, b);
  }

  /** Whatever lies above an earlier last id and not above the present one has been accepted. */
  lemma AcceptedUpToLast(a: seq<Call>, b: seq<Call>, id: int)
    requires After(a).hasLast && After(a).lastId < id <= After(a + b).lastId
    ensures id in AcceptedIds(a + b)
  {
    hide After, AcceptedIds;
    AcceptedIdsAreConsecutive(a);
    AcceptedIdsAreConsecutive(a + b);
    AcceptedGrows(a, b);
    var first := AcceptedIds(a + b)[0];
    assert AcceptedIds(a)[0] == first;
    assert AcceptedIds(a)[|AcceptedIds(a)| - 1] == After(a).lastId;
    assert AcceptedIds(a + b)[id - first] == id;
  }

  lemma {:induction false} AcceptedGrows(a: seq<Call>, b: seq<Call>)
    ensures AcceptedIds(a) <= AcceptedIds(a + b)
    decreases |b|
  {
    if b == [] {
      assert a + b == a;
    } else {
      AcceptedGrows(a, b[..|b| - 1]);
      assert (a + b)[..|a + b| - 1] == a + b[..|b| - 1];
    }
  }

  // ----------------------------------------------------------------- what the answers mean

  /** The highest id passed on; 0 when there is none. */
  function Newest(ids: seq<int>): int {
    if ids == [] then 0 else ids[|ids| - 1]
  }

  /**
   The answer to any call after any run, told from the ids accepted so far: the next id
   passes, a lower one is a duplicate, a higher one opens a gap that ends right before it,
   and while a gap is open live trades are held and only its next id is taken.
   */
  lemma AnswersMean(calls: seq<Call>, id: int)
    ensures var g, ids := After(calls), AcceptedIds(calls);
      var r := OnLive(g, id).1;
      && (r.action == Hold <==> !g.CanTrade())
      && (r.action == Accept <==> g.CanTrade() && (ids == [] || id == Newest(ids) + 1))
      && (r.action == Duplicate <==> g.CanTrade() && ids != [] && id <= Newest(ids))
      && (r.action == Gap <==> g.CanTrade() && ids != [] && id > Newest(ids) + 1)
      && (r.action == Gap ==> OnLive(g, id).0.MissingRange() == Some((Newest(ids) + 1, id - 1))
                              && (r.missingBegin, r.missingEnd) == (Newest(ids) + 1, id - 1)
                              && r.MissingCount() == id - 1 - Newest(ids))
      && (r.action == Hold ==> g.MissingRange() == Some((r.missingBegin, r.missingEnd)) && OnLive(g, id).0 == g)
      && (r.action == Duplicate ==> OnLive(g, id).0 == g)
      && (r.action != Gap ==> r.MissingCount() == 0)
      && (OnReplay(g, id).1 <==> !g.CanTrade() && id == Newest(ids) + 1)
  {
    hide After, AcceptedIds;
    AcceptedIdsAreConsecutive(calls);
  }

  function Range(from: int, n: nat): (ids: seq<int>)
    ensures |ids| == n && forall i :: 0 <= i < n ==> ids[i] == from + i
    decreases n
  {
    if n == 0 then [] else [from] + Range(from + 1, n - 1)
  }

  function Lives(ids: seq<int>): (calls: seq<Call>)
    ensures |calls| == |ids| && forall i :: 0 <= i < |ids| ==> calls[i] == LiveTrade(ids[i])
  {
    if ids == [] then [] else [LiveTrade(ids[0])] + Lives(ids[1..])
  }

  function Replays(ids: seq<int>): (calls: seq<Call>)
    ensures |calls| == |ids| && forall i :: 0 <= i < |ids| ==> calls[i] == ReplayTrade(ids[i])
  {
    if ids == [] then [] else [ReplayTrade(ids[0])] + Replays(ids[1..])
  }

  /** Without jumps the gate is transparent. */
  lemma {:induction false} InOrderIsAccepted(first: int, n: nat)
    ensures AcceptedIds(Lives(Range(first, n))) == Range(first, n)
    ensures After(Lives(Range(first, n))).CanTrade()
  {
    hide After, AcceptedIds, Range, Lives;
    var calls, ids := Lives(Range(first, n)), Range(first, n);
    if n == 0 {
      assert calls == [] && ids == [];
      NoCalls();
    } else {
      InOrderIsAccepted(first, n - 1);
      var before, next := Lives(Range(first, n - 1)), first + n - 1;
      assert calls == before + [LiveTrade(next)] && ids == Range(first, n - 1) + [next];
      OneMoreCall(before, LiveTrade(next));
      AnswersMean(before, next);
    }
  }

  lemma NoCalls()
    ensures After([]) == FRESH_GATE && AcceptedIds([]) == []
  {
  }

  lemma OneMoreCall(calls: seq<Call>, c: Call)
    ensures After(calls + [c]) == Step(After(calls), c)
    ensures AcceptedIds(calls + [c]) == AcceptedIds(calls) + if Accepts(After(calls), c) then [c.id] else []
  {
    hide Step, Accepts;
    assert (calls + [c])[..|calls|] == calls;
  }

  /** Replaying what is still missing, in order, is all taken and reopens the gate right behind the gap. */
  lemma RetransmissionRecovers(calls: seq<Call>)
    requires !After(calls).CanTrade()
    ensures var g := After(calls);
      g.missingEnd > g.lastId &&
      var missing := Range(g.lastId + 1, g.missingEnd - g.lastId);
      var all := calls + Replays(missing);
      && After(all).CanTrade() && After(all).lastId == g.missingEnd
      && AcceptedIds(all) == AcceptedIds(calls) + missing
  {
    hide After, AcceptedIds, Range, Replays;
    AcceptedIdsAreConsecutive(calls);
    var g := After(calls);
    var missing := Range(g.lastId + 1, g.missingEnd - g.lastId);
    var all := calls + Replays(missing);
    Refill(g, g.missingEnd - g.lastId);
    AfterIsRunFrom(calls, Replays(missing));
    AcceptedAdds(calls, Replays(missing));
    AcceptedIdsAreConsecutive(all);
    AcceptedGrows(calls, Replays(missing));
    var before, ids := AcceptedIds(calls), AcceptedIds(all);
    forall i | |before| <= i < |ids| ensures ids[i] == missing[i - |before|] {
      assert ids[0] == before[0];
    }
    assert ids == before + missing;
  }

  lemma {:induction false} Refill(g: Gate, n: nat)
    requires n >= 1 && g.state == Recovering && g.hasLast && g.missingEnd == g.lastId + n
    ensures var calls := Replays(Range(g.lastId + 1, n));
      && RunFrom(g, calls).CanTrade() && RunFrom(g, calls).lastId == g.missingEnd && AcceptedFrom(g, calls) == n
    decreases n
  {
    var calls := Replays(Range(g.lastId + 1, n));
    var h := Step(g, calls[0]);
    assert calls[1..] == Replays(Range(g.lastId + 2, n - 1));
    if n > 1 {
      Refill(h, n - 1);
    } else {
      assert calls[1..] == [];
    }
  }
}
