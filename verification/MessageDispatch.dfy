/**
 The part of src/network/connection_manager.cpp that follows JSON parsing: symbol
 extraction, subscription check, per-symbol gates, order-book rollback check, counters
 and callbacks.
 */
module MessageDispatch {
  import opened Options
  import opened TradeSeqGate

  /**
   A combined-stream message: the parser's verdict on its data for either stream type,
   and whether the user's callback will throw on it.
   */
  datatype Message = Message(stream: string, trade: Option<int>, book: Option<int>, throws: bool)

  /** parse_orderbook only passes positive update ids. */
  predicate FromParser(m: Message) {
    m.book.Some? ==> m.book.value > 0
  }

  datatype Feed = Feed(
    gates: map<string, Gate>, bookIds: map<string, int>,
    tradesParsed: nat, booksParsed: nat, parseErrors: nat, duplicates: nat,
    gaps: nat, missingRecords: nat, recovering: nat, rollbacks: nat, callbackErrors: nat,
    // what the callbacks were given
    trades: seq<(string, int)>, books: seq<(string, int)>)

  const IDLE_FEED := Feed(map[], map[], 0, 0, 0, 0, 0, 0, 0, 0, 0, [], [])

  // ---------------------------------------------------------------------- symbols

  function LowerChar(c: char): char {
    if 'A' <= c <= 'Z' then (c as int - 'A' as int + 'a' as int) as char else c
  }

  function Lower(s: string): (t: string)
    ensures |t| == |s|
  {
    if s == [] then [] else [LowerChar(s[0])] + Lower(s[1..])
  }

  /** Everything before the first '@', and everything after it. */
  function AtPosition(s: string): (p: nat)
    ensures p <= |s| && (p < |s| ==> s[p] == '@') && (forall i :: 0 <= i < p ==> s[i] != '@')
  {
    if s == [] || s[0] == '@' then 0 else 1 + AtPosition(s[1..])
  }

  function SymbolOf(m: Message): string {
    Lower(m.stream[..AtPosition(m.stream)])
  }

  function StreamType(m: Message): string
    requires AtPosition(m.stream) < |m.stream|
  {
    m.stream[AtPosition(m.stream) + 1..]
  }

  predicate Subscribed(symbols: seq<string>, symbol: string) {
    exists i :: 0 <= i < |symbols| && Lower(symbols[i]) == symbol
  }

  datatype Kind = BadStream | TradeKind | BookKind | OtherKind

  function KindOf(symbols: seq<string>, m: Message): Kind {
    var at := AtPosition(m.stream);
    if at == |m.stream| || at == 0 || !Subscribed(symbols, SymbolOf(m)) then BadStream
    else if "trade" <= StreamType(m) then TradeKind
    else if "depth" <= StreamType(m) then BookKind
    else OtherKind
  }

  // --------------------------------------------------------------------- dispatch

  function GateOf(feed: Feed, symbol: string): Gate {
    if symbol in feed.gates then feed.gates[symbol] else FRESH_GATE
  }

  function BookIdOf(feed: Feed, symbol: string): int {
    if symbol in feed.bookIds then feed.bookIds[symbol] else 0
  }

  function OnTrade(feed: Feed, symbol: string, id: int): Feed {
    var (gate, r) := OnLive(GateOf(feed, symbol), id);
    var next := feed.(gates := feed.gates[symbol := gate]);
    match r.action
    case Duplicate => next.(duplicates := feed.duplicates + 1)
    case Gap => next.(gaps := feed.gaps + 1, missingRecords := feed.missingRecords + r.MissingCount(),
                      recovering := feed.recovering + 1)
    case Hold => next
    case Accept => next.(tradesParsed := feed.tradesParsed + 1, trades := feed.trades + [(symbol, id)])
  }

  function OnBook(feed: Feed, symbol: string, id: int): Feed {
    var last := BookIdOf(feed, symbol);
    if last != 0 && id < last then
      feed.(bookIds := feed.bookIds[symbol := last], rollbacks := feed.rollbacks + 1)
    else
      feed.(bookIds := feed.bookIds[symbol := id], booksParsed := feed.booksParsed + 1,
            books := feed.books + [(symbol, id)])
  }

  /** What a callback throws is counted and goes no further. */
  function AfterCallback(feed: Feed, next: Feed, throws: bool): Feed {
    if throws && |next.trades| + |next.books| > |feed.trades| + |feed.books|
    then next.(callbackErrors := next.callbackErrors + 1) else next
  }

  function OnMessage(symbols: seq<string>, feed: Feed, m: Message): Feed {
    match KindOf(symbols, m)
    case BadStream => feed.(parseErrors := feed.parseErrors + 1)
    case TradeKind =>
      if m.trade.None? then feed.(parseErrors := feed.parseErrors + 1)
      else AfterCallback(feed, OnTrade(feed, SymbolOf(m), m.trade.value), m.throws)
    case BookKind =>
      if m.book.None? then feed.(parseErrors := feed.parseErrors + 1)
      else AfterCallback(feed, OnBook(feed, SymbolOf(m), m.book.value), m.throws)
    case OtherKind => feed
  }

  class ConnectionManager {
    const symbols: seq<string>
    var tradeSeqGates: map<string, Gate>
    var lastOrderbookUpdateId: map<string, int>
    var tradesParsed: nat
    var orderbooksParsed: nat
    var parseErrors: nat
    var duplicateCount: nat
    var gapCount: nat
    var missingRecords: nat
    var recoveringSymbols: nat
    var orderbookIdRollbackCount: nat
    var callbackErrors: nat
    var tradeCallbacks: seq<(string, int)>
    var orderbookCallbacks: seq<(string, int)>

    constructor (symbols: seq<string>)
      ensures this.symbols == symbols && View() == IDLE_FEED
    {
      this.symbols := symbols;
      tradeSeqGates, lastOrderbookUpdateId := map[], map[];
      tradesParsed, orderbooksParsed, parseErrors, duplicateCount := 0, 0, 0, 0;
      gapCount, missingRecords, recoveringSymbols, orderbookIdRollbackCount := 0, 0, 0, 0;
      callbackErrors, tradeCallbacks, orderbookCallbacks := 0, [], [];
    }

    function View(): Feed
      reads this
    {
      Feed(tradeSeqGates, lastOrderbookUpdateId, tradesParsed, orderbooksParsed, parseErrors, duplicateCount,
           gapCount, missingRecords, recoveringSymbols, orderbookIdRollbackCount, callbackErrors,
           tradeCallbacks, orderbookCallbacks)
    }

    method ToLower(s: string) returns (t: string)
      ensures t == Lower(s)
    {
      t := [];
      for i := 0 to |s|
        invariant t + Lower(s[i..]) == Lower(s)
      {
        assert s[i..][0] == s[i] && s[i..][1..] == s[i + 1..];
        t := t + [LowerChar(s[i])];
      }
      assert Lower(s[|s|..]) == [];
    }

    method FindAt(s: string) returns (p: nat)
      ensures p == AtPosition(s)
    {
      p := 0;
      while p < |s| && s[p] != '@'
        invariant p <= |s| && AtPosition(s) == p + AtPosition(s[p..])
      {
        assert s[p..][1..] == s[p + 1..];
        p := p + 1;
      }
    }

    method IsSubscribed(symbol: string) returns (found: bool)
      ensures found == Subscribed(symbols, symbol)
    {
      for i := 0 to |symbols|
        invariant forall j :: 0 <= j < i ==> Lower(symbols[j]) != symbol
      {
        var lower := ToLower(symbols[i]);
        if lower == symbol {
          return true;
        }
      }
      return false;
    }

    method OnRawMessage(m: Message)
      modifies this
      ensures View() == OnMessage(symbols, old(View()), m)
    {
      var at := FindAt(m.stream);
      if at == |m.stream| || at == 0 {
        parseErrors := parseErrors + 1;
        return;
      }
      var symbol := ToLower(m.stream[..at]);
      var streamType := m.stream[at + 1..];
      var subscribed := IsSubscribed(symbol);
      if !subscribed {
        parseErrors := parseErrors + 1;
        return;
      }
      if "trade" <= streamType {
        if m.trade.Some? {
          HandleTrade(symbol, m.trade.value, m.throws);
        } else {
          parseErrors := parseErrors + 1;
        }
      } else if "depth" <= streamType {
        if m.book.Some? {
          HandleOrderbook(symbol, m.book.value, m.throws);
        } else {
          parseErrors := parseErrors + 1;
        }
      }
    }

    /** The callback is called; what it throws is swallowed and counted. */
    method SafeInvoke(throws: bool)
      modifies this`callbackErrors
      ensures callbackErrors == old(callbackErrors) + if throws then 1 else 0
    {
      if throws {
        callbackErrors := callbackErrors + 1;
      }
    }

    /** The symbol's gate, created on first use, takes the trade. */
    method PassGate(symbol: string, id: int) returns (r: GateResult)
      modifies this`tradeSeqGates
      ensures var (gate, result) := OnLive(GateOf(old(View()), symbol), id);
        r == result && tradeSeqGates == old(tradeSeqGates)[symbol := gate]
    {
      hide OnLive;
      if symbol !in tradeSeqGates {
        tradeSeqGates := tradeSeqGates[symbol := FRESH_GATE];
      }
      var (gate, result) := OnLive(tradeSeqGates[symbol], id);
      tradeSeqGates := tradeSeqGates[symbol := gate];
      return result;
    }

    method CountTurnedAway(r: GateResult)
      modifies this`duplicateCount, this`gapCount, this`missingRecords, this`recoveringSymbols
      ensures duplicateCount == old(duplicateCount) + if r.action == Duplicate then 1 else 0
      ensures gapCount == old(gapCount) + if r.action == Gap then 1 else 0
      ensures recoveringSymbols == old(recoveringSymbols) + if r.action == Gap then 1 else 0
      ensures missingRecords == old(missingRecords) + if r.action == Gap then r.MissingCount() else 0
    {
      if r.action == Duplicate {
        duplicateCount := duplicateCount + 1;
      } else if r.action == Gap {
        gapCount := gapCount + 1;
        missingRecords := missingRecords + r.MissingCount();
        recoveringSymbols := recoveringSymbols + 1;
      }
    }

    method HandleTrade(symbol: string, id: int, throws: bool)
      modifies this
      ensures View() == AfterCallback(old(View()), OnTrade(old(View()), symbol, id), throws)
    {
      hide OnLive;
      var seq' := PassGate(symbol, id);
      if seq'.action != Accept {
        CountTurnedAway(seq');
        return;
      }
      tradesParsed := tradesParsed + 1;
      tradeCallbacks := tradeCallbacks + [(symbol, id)];
      SafeInvoke(throws);
    }

    method HandleOrderbook(symbol: string, id: int, throws: bool)
      modifies this
      ensures View() == AfterCallback(old(View()), OnBook(old(View()), symbol, id), throws)
    {
      if symbol !in lastOrderbookUpdateId {
        lastOrderbookUpdateId := lastOrderbookUpdateId[symbol := 0];
      }
      var lastId := lastOrderbookUpdateId[symbol];
      var seen := lastId != 0;
      if seen && id < lastId {
        orderbookIdRollbackCount := orderbookIdRollbackCount + 1;
        return;
      }
      lastOrderbookUpdateId := lastOrderbookUpdateId[symbol := id];
      orderbooksParsed := orderbooksParsed + 1;
      orderbookCallbacks := orderbookCallbacks + [(symbol, id)];
      SafeInvoke(throws);
    }
  }

  // ---------------------------------------------------------------------- all streams

  function After(symbols: seq<string>, ms: seq<Message>): Feed {
    if ms == [] then IDLE_FEED else OnMessage(symbols, After(symbols, ms[..|ms| - 1]), ms[|ms| - 1])
  }

  /** The ids one symbol's callback was given. */
  function IdsOf(calls: seq<(string, int)>, symbol: string): seq<int> {
    if calls == [] then [] else
      var n := |calls| - 1;
      IdsOf(calls[..n], symbol) + if calls[n].0 == symbol then [calls[n].1] else []
  }

  /** The messages of one symbol. */
  function Only(ms: seq<Message>, symbol: string): seq<Message> {
    if ms == [] then [] else
      var n := |ms| - 1;
      Only(ms[..n], symbol) + if SymbolOf(ms[n]) == symbol then [ms[n]] else []
  }

  lemma {:induction false} OnlyCounts(ms: seq<Message>, symbol: string, m: Message)
    ensures multiset(Only(ms, symbol))[m] == if SymbolOf(m) == symbol then multiset(ms)[m] else 0
  {
    hide SymbolOf;
    if ms != [] {
      var n := |ms| - 1;
      OnlyCounts(ms[..n], symbol, m);
      assert ms == ms[..n] + [ms[n]];
    }
  }

  lemma IdsOfSnoc(calls: seq<(string, int)>, call: (string, int), symbol: string)
    ensures IdsOf(calls + [call], symbol) == IdsOf(calls, symbol) + if call.0 == symbol then [call.1] else []
  {
    assert (calls + [call])[..|calls|] == calls;
  }

  /** What one symbol sees of the state. */
  ghost predicate SameFor(symbol: string, a: Feed, b: Feed) {
    && GateOf(a, symbol) == GateOf(b, symbol)
    && BookIdOf(a, symbol) == BookIdOf(b, symbol)
    && IdsOf(a.trades, symbol) == IdsOf(b.trades, symbol)
    && IdsOf(a.books, symbol) == IdsOf(b.books, symbol)
  }

  lemma TradeIsLocal(feed: Feed, s: string, id: int, symbol: string)
    requires s != symbol
    ensures SameFor(symbol, OnTrade(feed, s, id), feed)
  {
    hide OnLive, IdsOf;
    IdsOfSnoc(feed.trades, (s, id), symbol);
  }

  lemma BookIsLocal(feed: Feed, s: string, id: int, symbol: string)
    requires s != symbol
    ensures SameFor(symbol, OnBook(feed, s, id), feed)
  {
    hide IdsOf;
    IdsOfSnoc(feed.books, (s, id), symbol);
  }

  lemma OtherSymbol(symbols: seq<string>, feed: Feed, m: Message, symbol: string)
    requires SymbolOf(m) != symbol
    ensures SameFor(symbol, OnMessage(symbols, feed, m), feed)
  {
    hide OnTrade, OnBook, SymbolOf, KindOf, IdsOf;
    if m.trade.Some? {
      TradeIsLocal(feed, SymbolOf(m), m.trade.value, symbol);
    }
    if m.book.Some? {
      BookIsLocal(feed, SymbolOf(m), m.book.value, symbol);
    }
  }

  lemma OwnTrade(a: Feed, b: Feed, s: string, id: int)
    requires SameFor(s, a, b)
    ensures SameFor(s, OnTrade(a, s, id), OnTrade(b, s, id))
  {
    hide OnLive, IdsOf;
    IdsOfSnoc(a.trades, (s, id), s);
    IdsOfSnoc(b.trades, (s, id), s);
  }

  lemma OwnBook(a: Feed, b: Feed, s: string, id: int)
    requires SameFor(s, a, b)
    ensures SameFor(s, OnBook(a, s, id), OnBook(b, s, id))
  {
    hide IdsOf;
    IdsOfSnoc(a.books, (s, id), s);
    IdsOfSnoc(b.books, (s, id), s);
  }

  lemma CallbackSeesSame(symbol: string, a: Feed, b: Feed, a': Feed, b': Feed, throws: bool)
    requires SameFor(symbol, a', b')
    ensures SameFor(symbol, AfterCallback(a, a', throws), AfterCallback(b, b', throws))
  {
    hide IdsOf;
  }

  lemma OwnSymbol(symbols: seq<string>, a: Feed, b: Feed, m: Message, symbol: string)
    requires SymbolOf(m) == symbol && SameFor(symbol, a, b)
    ensures SameFor(symbol, OnMessage(symbols, a, m), OnMessage(symbols, b, m))
  {
    hide OnTrade, OnBook, SymbolOf, KindOf, SameFor, AfterCallback;
    if m.trade.Some? {
      OwnTrade(a, b, symbol, m.trade.value);
      CallbackSeesSame(symbol, a, b, OnTrade(a, symbol, m.trade.value), OnTrade(b, symbol, m.trade.value), m.throws);
    }
    if m.book.Some? {
      OwnBook(a, b, symbol, m.book.value);
      CallbackSeesSame(symbol, a, b, OnBook(a, symbol, m.book.value), OnBook(b, symbol, m.book.value), m.throws);
    }
    ErrorSeesSame(symbol, a, b);
  }

  lemma ErrorSeesSame(symbol: string, a: Feed, b: Feed)
    requires SameFor(symbol, a, b)
    ensures SameFor(symbol, a.(parseErrors := a.parseErrors + 1), b.(parseErrors := b.parseErrors + 1))
  {
    hide IdsOf;
  }

  /** Symbols do not disturb each other: any interleaving acts on one as if it were alone. */
  lemma {:induction false} SymbolsAreIndependent(symbols: seq<string>, ms: seq<Message>, symbol: string)
    ensures SameFor(symbol, After(symbols, ms), After(symbols, Only(ms, symbol)))
  {
    hide SymbolOf, OnMessage, SameFor;
    if ms == [] {
      SameForSelf(symbol, IDLE_FEED);
    } else {
      var n := |ms| - 1;
      SymbolsAreIndependent(symbols, ms[..n], symbol);
      var a, b := After(symbols, ms[..n]), After(symbols, Only(ms[..n], symbol));
      if SymbolOf(ms[n]) == symbol {
        var only := Only(ms[..n], symbol) + [ms[n]];
        assert only[..|only| - 1] == Only(ms[..n], symbol);
        OwnSymbol(symbols, a, b, ms[n], symbol);
      } else {
        assert Only(ms, symbol) == Only(ms[..n], symbol);
        OtherSymbol(symbols, a, ms[n], symbol);
        SameForChain(symbol, OnMessage(symbols, a, ms[n]), a, b);
      }
    }
  }

  lemma SameForSelf(symbol: string, a: Feed)
    ensures SameFor(symbol, a, a)
  {
  }

  lemma SameForChain(symbol: string, a: Feed, b: Feed, c: Feed)
    requires SameFor(symbol, a, b) && SameFor(symbol, b, c)
    ensures SameFor(symbol, a, c)
  {
  }

  // ------------------------------------------------------------------------ counters

  /** Sum over the symbols seen. */
  ghost function Total(m: map<string, nat>): nat {
    if m == map[] then 0 else
      var k :| k in m;
      m[k] + Total(m - {k})
  }

  lemma {:induction false} TotalSplit(m: map<string, nat>, k: string)
    requires k in m
    ensures Total(m) == m[k] + Total(m - {k})
    decreases |m|
  {
    var j :| j in m && Total(m) == m[j] + Total(m - {j});
    if j != k {
      TotalSplit(m - {j}, k);
      TotalSplit(m - {k}, j);
      assert m - {j} - {k} == m - {k} - {j};
    }
  }

  lemma TotalUpdate(m: map<string, nat>, k: string, v: nat)
    ensures Total(m[k := v]) == Total(m) + v - if k in m then m[k] else 0
  {
    TotalSplit(m[k := v], k);
    assert m[k := v] - {k} == m - {k};
    if k in m {
      TotalSplit(m, k);
    } else {
      assert m - {k} == m;
    }
  }

  ghost function Delivered(feed: Feed): map<string, nat> {
    map s | s in feed.gates :: |IdsOf(feed.trades, s)|
  }

  ghost function Blocked(feed: Feed): map<string, nat> {
    map s | s in feed.gates :: if feed.gates[s].CanTrade() then 0 else 1
  }

  ghost function Missing(feed: Feed): map<string, nat> {
    map s | s in feed.gates :: feed.gates[s].MissingCount()
  }

  /** One symbol: delivered ids run from the first to last without a hole. */
  ghost predicate SymbolInv(feed: Feed, s: string) {
    var ids := IdsOf(feed.trades, s);
    && GateInv(GateOf(feed, s), ids)
    && (GateOf(feed, s).state == Recovering ==> GateOf(feed, s).missingBegin == GateOf(feed, s).lastId + 1)
    && (s in feed.gates ==> feed.gates[s].hasLast)
  }

  ghost predicate FeedInv(feed: Feed) {
    && (forall s :: SymbolInv(feed, s))
    && feed.tradesParsed == Total(Delivered(feed))
    && feed.gaps == feed.recovering == Total(Blocked(feed))
    && feed.missingRecords == Total(Missing(feed))
  }

  /** The symbol a trade belongs to: its gate, its callback ids, and the counters. */
  lemma OwnTradeInv(feed: Feed, s: string, id: int)
    requires SymbolInv(feed, s)
    ensures var next := OnTrade(feed, s, id);
      && SymbolInv(next, s)
      && next.gates == feed.gates[s := GateOf(next, s)]
      && IdsOf(next.trades, s) == IdsOf(feed.trades, s) + (if Accepts(GateOf(feed, s), LiveTrade(id)) then [id] else [])
      && next.tradesParsed - feed.tradesParsed == |IdsOf(next.trades, s)| - |IdsOf(feed.trades, s)|
      && next.gaps - feed.gaps == next.recovering - feed.recovering
      && next.gaps - feed.gaps == (if GateOf(feed, s).CanTrade() && !GateOf(next, s).CanTrade() then 1 else 0)
      && (!GateOf(feed, s).CanTrade() ==> GateOf(next, s) == GateOf(feed, s))
      && next.missingRecords - feed.missingRecords == GateOf(next, s).MissingCount() - GateOf(feed, s).MissingCount()
  {
    hide IdsOf;
    IdsOfSnoc(feed.trades, (s, id), s);
    GateStep(GateOf(feed, s), IdsOf(feed.trades, s), LiveTrade(id));
  }

  lemma SymbolInvFrame(a: Feed, b: Feed, s: string)
    requires SymbolInv(a, s) && SameFor(s, a, b) && (s in a.gates <==> s in b.gates)
    ensures SymbolInv(b, s)
  {
  }

  lemma TradeCounters(feed: Feed, symbol: string, id: int)
    requires FeedInv(feed)
    ensures FeedInv(OnTrade(feed, symbol, id))
  {
    hide IdsOf, GateInv, OnTrade, SymbolInv;
    var next := OnTrade(feed, symbol, id);
    OwnTradeInv(feed, symbol, id);
    forall s | s != symbol ensures SymbolInv(next, s) && SameFor(s, next, feed) {
      TradeIsLocal(feed, symbol, id, s);
      SymbolInvFrame(feed, next, s);
    }
    if symbol !in feed.gates {
      NewSymbolHasNoIds(feed, symbol);
    }
    var n: nat := |IdsOf(next.trades, symbol)|;
    var h := GateOf(next, symbol);
    var blocked: nat := if h.CanTrade() then 0 else 1;
    CounterMaps(feed, next, symbol);
    TotalUpdate(Delivered(feed), symbol, n);
    TotalUpdate(Blocked(feed), symbol, blocked);
    TotalUpdate(Missing(feed), symbol, h.MissingCount());
  }

  lemma CounterMaps(feed: Feed, next: Feed, symbol: string)
    requires next.gates == feed.gates[symbol := GateOf(next, symbol)]
    requires forall s :: s != symbol ==> SameFor(s, next, feed)
    ensures Delivered(next) == Delivered(feed)[symbol := |IdsOf(next.trades, symbol)|]
    ensures Blocked(next) == Blocked(feed)[symbol := if GateOf(next, symbol).CanTrade() then 0 else 1]
    ensures Missing(next) == Missing(feed)[symbol := GateOf(next, symbol).MissingCount()]
  {
    hide IdsOf, SameFor, Blocked, Missing, GateOf;
    BlockedAndMissing(feed, next, symbol);
    forall s | s in feed.gates && s != symbol ensures IdsOf(next.trades, s) == IdsOf(feed.trades, s) {
      SameIds(s, next, feed);
    }
  }

  lemma SameIds(s: string, a: Feed, b: Feed)
    requires SameFor(s, a, b)
    ensures IdsOf(a.trades, s) == IdsOf(b.trades, s)
  {
  }

  lemma BlockedAndMissing(feed: Feed, next: Feed, symbol: string)
    requires next.gates == feed.gates[symbol := GateOf(next, symbol)]
    ensures Blocked(next) == Blocked(feed)[symbol := if GateOf(next, symbol).CanTrade() then 0 else 1]
    ensures Missing(next) == Missing(feed)[symbol := GateOf(next, symbol).MissingCount()]
  {
  }

  lemma NewSymbolHasNoIds(feed: Feed, s: string)
    requires SymbolInv(feed, s) && s !in feed.gates
    ensures IdsOf(feed.trades, s) == []
  {
  }

  lemma OthersKeepCounters(symbols: seq<string>, feed: Feed, m: Message)
    requires FeedInv(feed) && KindOf(symbols, m) != TradeKind
    ensures FeedInv(OnMessage(symbols, feed, m))
  {
    hide KindOf, SymbolOf, FeedInv;
    FeedInvFrame(feed, OnMessage(symbols, feed, m));
  }

  /** Only the gates, the trades delivered and their counters matter. */
  lemma FeedInvFrame(a: Feed, b: Feed)
    requires FeedInv(a) && a.gates == b.gates && a.trades == b.trades
    requires a.tradesParsed == b.tradesParsed && a.gaps == b.gaps
    requires a.recovering == b.recovering && a.missingRecords == b.missingRecords
    ensures FeedInv(b)
  {
    hide IdsOf, GateInv;
    forall s ensures SymbolInv(b, s) {
      assert SymbolInv(a, s);
    }
    assert Delivered(a) == Delivered(b) && Blocked(a) == Blocked(b) && Missing(a) == Missing(b);
  }

  /**
   The metrics mean what they say after any message stream: parsed trades are the sum
   over symbols of last - first + 1; gaps and recovering symbols both count the symbols
   that cannot trade; missing records add up their ranges.
   */
  lemma {:induction false} CountersAddUp(symbols: seq<string>, ms: seq<Message>)
    ensures FeedInv(After(symbols, ms))
  {
    hide FeedInv, KindOf, SymbolOf, OnTrade;
    if ms == [] {
      IdleInv();
    } else {
      var n := |ms| - 1;
      CountersAddUp(symbols, ms[..n]);
      var feed := After(symbols, ms[..n]);
      if KindOf(symbols, ms[n]) == TradeKind && ms[n].trade.Some? {
        var next := OnTrade(feed, SymbolOf(ms[n]), ms[n].trade.value);
        TradeCounters(feed, SymbolOf(ms[n]), ms[n].trade.value);
        FeedInvFrame(next, AfterCallback(feed, next, ms[n].throws));
      } else if KindOf(symbols, ms[n]) == TradeKind {
        FeedInvFrame(feed, feed.(parseErrors := feed.parseErrors + 1));
      } else {
        OthersKeepCounters(symbols, feed, ms[n]);
      }
    }
  }

  lemma IdleInv()
    ensures FeedInv(IDLE_FEED)
  {
  }

  /** The per-symbol count behind the sum. */
  lemma DeliveredIsRange(symbols: seq<string>, ms: seq<Message>, s: string)
    requires s in After(symbols, ms).gates
    ensures var feed := After(symbols, ms);
            var ids := IdsOf(feed.trades, s);
            ids != [] && |ids| == feed.gates[s].lastId - ids[0] + 1
            && forall i :: 0 <= i < |ids| ==> ids[i] == ids[0] + i
  {
    hide After, IdsOf;
    CountersAddUp(symbols, ms);
    assert SymbolInv(After(symbols, ms), s);
  }

  // ---------------------------------------------------------------------- order books

  ghost predicate Ascending(ids: seq<int>) {
    forall i, j :: 0 <= i < j < |ids| ==> ids[i] <= ids[j]
  }

  ghost predicate BookInv(feed: Feed, s: string) {
    var ids := IdsOf(feed.books, s);
    && Ascending(ids)
    && (forall i :: 0 <= i < |ids| ==> ids[i] > 0)
    && BookIdOf(feed, s) == if ids == [] then 0 else ids[|ids| - 1]
  }

  /** Delivered order-book ids never go back; ids are positive, so 0 can mean "none yet". */
  lemma {:induction false} BookIdsNeverDecrease(symbols: seq<string>, ms: seq<Message>, s: string)
    requires forall i :: 0 <= i < |ms| ==> FromParser(ms[i])
    ensures BookInv(After(symbols, ms), s)
  {
    hide KindOf, SymbolOf, OnTrade;
    if ms != [] {
      var n := |ms| - 1;
      BookIdsNeverDecrease(symbols, ms[..n], s);
      BookStep(symbols, After(symbols, ms[..n]), ms[n], s);
    }
  }

  lemma BookStep(symbols: seq<string>, feed: Feed, m: Message, s: string)
    requires BookInv(feed, s) && FromParser(m)
    ensures BookInv(OnMessage(symbols, feed, m), s)
  {
    hide KindOf, SymbolOf, OnLive, OnBook, BookInv;
    if m.book.Some? {
      OneBook(feed, SymbolOf(m), m.book.value, s);
    }
    BookFrame(symbols, feed, m);
    var next := OnMessage(symbols, feed, m);
    if m.book.Some? && next.books == OnBook(feed, SymbolOf(m), m.book.value).books
       && next.bookIds == OnBook(feed, SymbolOf(m), m.book.value).bookIds {
      BookInvFrame(OnBook(feed, SymbolOf(m), m.book.value), next, s);
    } else {
      BookInvFrame(feed, next, s);
    }
  }

  /** Only an order-book message changes what is known about order books. */
  lemma BookFrame(symbols: seq<string>, feed: Feed, m: Message)
    ensures var next := OnMessage(symbols, feed, m);
      || (next.books == feed.books && next.bookIds == feed.bookIds)
      || (m.book.Some? && next.books == OnBook(feed, SymbolOf(m), m.book.value).books
          && next.bookIds == OnBook(feed, SymbolOf(m), m.book.value).bookIds)
  {
    hide KindOf, SymbolOf, OnLive, OnBook;
  }

  lemma BookInvFrame(a: Feed, b: Feed, s: string)
    requires BookInv(a, s) && a.books == b.books && a.bookIds == b.bookIds
    ensures BookInv(b, s)
  {
  }

  lemma OneBook(feed: Feed, symbol: string, id: int, s: string)
    requires BookInv(feed, s) && id > 0
    ensures BookInv(OnBook(feed, symbol, id), s)
  {
    hide IdsOf;
    IdsOfSnoc(feed.books, (symbol, id), s);
  }

  /** The ids of one symbol's order-book messages, in order. */
  ghost function Received(symbols: seq<string>, ms: seq<Message>, s: string): seq<int> {
    if ms == [] then [] else
      var n := |ms| - 1;
      Received(symbols, ms[..n], s)
      + if OnStream(symbols, ms[n], s, "depth") && ms[n].book.Some? then [ms[n].book.value] else []
  }

  /** A 0 is followed by a negative id before any positive one has come. */
  ghost predicate ZeroThenNegative(ids: seq<int>) {
    exists i, j :: 0 <= i < j < |ids| && ids[i] == 0 && ids[j] < 0 && NonePositive(ids[..j])
  }

  ghost predicate NonePositive(ids: seq<int>) {
    forall i :: 0 <= i < |ids| ==> ids[i] <= 0
  }

  lemma OneMoreSign(ids: seq<int>, x: int)
    ensures NonePositive(ids + [x]) <==> NonePositive(ids) && x <= 0
  {
    var all := ids + [x];
    assert all[|ids|] == x;
    assert NonePositive(all) ==> forall i :: 0 <= i < |ids| ==> ids[i] == all[i] <= 0;
  }

  /** Whether a further id makes that happen. */
  lemma OneMoreReceived(ids: seq<int>, x: int)
    ensures ZeroThenNegative(ids + [x]) <==> ZeroThenNegative(ids) || (0 in ids && x < 0 && NonePositive(ids))
  {
    hide NonePositive;
    var all := ids + [x];
    assert all[..|ids|] == ids;
    if ZeroThenNegative(all) {
      var i, j :| 0 <= i < j < |all| && all[i] == 0 && all[j] < 0 && NonePositive(all[..j]);
      assert ids[i] == 0;
      if j < |ids| {
        assert all[..j] == ids[..j] && ids[j] < 0;
      }
    }
    if ZeroThenNegative(ids) {
      var i, j :| 0 <= i < j < |ids| && ids[i] == 0 && ids[j] < 0 && NonePositive(ids[..j]);
      assert all[..j] == ids[..j] && all[i] == 0 && all[j] < 0;
    } else if 0 in ids && x < 0 && NonePositive(ids) {
      var i :| 0 <= i < |ids| && ids[i] == 0;
      assert all[i] == 0 && all[|ids|] < 0 && NonePositive(all[..|ids|]);
    }
  }

  /** What a symbol's received ids tell about its delivered ones. */
  ghost predicate Tells(feed: Feed, s: string, received: seq<int>) {
    var ids := IdsOf(feed.books, s);
    && (!Ascending(ids) <==> ZeroThenNegative(received))
    && (NonePositive(received) <==> BookIdOf(feed, s) <= 0)
    && (Ascending(ids) ==> ((ids != [] && BookIdOf(feed, s) == 0) <==> (NonePositive(received) && 0 in received)))
    && BookIdOf(feed, s) == if ids == [] then 0 else ids[|ids| - 1]
  }

  lemma AscendingOneMore(ids: seq<int>, x: int)
    ensures Ascending(ids + [x]) <==> Ascending(ids) && (ids == [] || ids[|ids| - 1] <= x)
  {
    var all := ids + [x];
    if Ascending(all) {
      forall i, j | 0 <= i < j < |ids| ensures ids[i] <= ids[j] {
        assert all[i] <= all[j];
      }
      assert ids != [] ==> all[|ids| - 1] <= all[|ids|];
    }
  }

  lemma BookTells(feed: Feed, s: string, id: int, received: seq<int>)
    requires Tells(feed, s, received)
    ensures Tells(OnBook(feed, s, id), s, received + [id])
  {
    hide IdsOf, Ascending, ZeroThenNegative, NonePositive;
    OneMoreReceived(received, id);
    OneMoreSign(received, id);
    AscendingOneMore(IdsOf(feed.books, s), id);
    IdsOfSnoc(feed.books, (s, id), s);
  }

  lemma TellsFrame(a: Feed, b: Feed, s: string, received: seq<int>)
    requires Tells(a, s, received)
    requires IdsOf(a.books, s) == IdsOf(b.books, s) && BookIdOf(a, s) == BookIdOf(b, s)
    ensures Tells(b, s, received)
  {
    hide Ascending, ZeroThenNegative, NonePositive, IdsOf;
  }

  lemma MessageTells(symbols: seq<string>, feed: Feed, m: Message, s: string, received: seq<int>)
    requires Tells(feed, s, received)
    ensures Tells(OnMessage(symbols, feed, m), s,
                  received + if KindOf(symbols, m) == BookKind && m.book.Some? && SymbolOf(m) == s then [m.book.value] else [])
  {
    hide Tells, KindOf, SymbolOf, OnTrade, OnBook, IdsOf;
    assert received + [] == received;
    var next := OnMessage(symbols, feed, m);
    if SymbolOf(m) != s {
      OtherSymbol(symbols, feed, m, s);
      TellsFrame(feed, next, s, received);
    } else if KindOf(symbols, m) == BookKind && m.book.Some? {
      BookTells(feed, s, m.book.value, received);
      TellsFrame(OnBook(feed, s, m.book.value), next, s, received + [m.book.value]);
    } else {
      NotABook(symbols, feed, m);
      TellsFrame(feed, next, s, received);
    }
  }

  lemma NotABook(symbols: seq<string>, feed: Feed, m: Message)
    requires KindOf(symbols, m) != BookKind || m.book.None?
    ensures OnMessage(symbols, feed, m).books == feed.books && OnMessage(symbols, feed, m).bookIds == feed.bookIds
  {
    hide KindOf, SymbolOf, OnLive;
  }

  lemma {:induction false} StreamTells(symbols: seq<string>, ms: seq<Message>, s: string)
    ensures Tells(After(symbols, ms), s, Received(symbols, ms, s))
  {
    hide Tells, OnMessage, KindOf, SymbolOf, OnStream;
    if ms == [] {
      NothingTold(s);
    } else {
      var n := |ms| - 1;
      StreamTells(symbols, ms[..n], s);
      OnStreamKind(symbols, ms[n], s);
      MessageTells(symbols, After(symbols, ms[..n]), ms[n], s, Received(symbols, ms[..n], s));
    }
  }

  lemma NothingTold(s: string)
    ensures Tells(IDLE_FEED, s, [])
  {
  }

  /**
   What the 0 sentinel costs without the parser's check, for every message stream: the ids
   delivered for a symbol fail to ascend exactly when, among the ids received for it, a 0
   is followed by a negative one before any positive one has come.
   */
  lemma {:induction false} RollbackSlipsExactlyWhen(symbols: seq<string>, ms: seq<Message>, s: string)
    ensures !Ascending(IdsOf(After(symbols, ms).books, s)) <==> ZeroThenNegative(Received(symbols, ms, s))
  {
    hide After, IdsOf, Received, Ascending, ZeroThenNegative;
    StreamTells(symbols, ms, s);
  }

  /** One such stream: 0 and then -3 are both delivered. */
  lemma SentinelNeedsPositiveIds()
    ensures IdsOf(After(["btcusdt"], [DepthOf(0), DepthOf(-3)]).books, "btcusdt") == [0, -3]
  {
    hide OnMessage, OnBook, IdsOf;
    var ms := [DepthOf(0), DepthOf(-3)];
    DepthStep(IDLE_FEED, 0);
    DepthStep(OnBook(IDLE_FEED, "btcusdt", 0), -3);
    assert ms[..1] == [DepthOf(0)] && ms[..1][..0] == [];
    assert After(["btcusdt"], ms[..1]) == OnMessage(["btcusdt"], IDLE_FEED, DepthOf(0));
    BothDelivered("btcusdt");
  }

  lemma BothDelivered(symbol: string)
    ensures IdsOf(OnBook(OnBook(IDLE_FEED, symbol, 0), symbol, -3).books, symbol) == [0, -3]
  {
    IdsOfSnoc([], (symbol, 0), symbol);
    IdsOfSnoc([(symbol, 0)], (symbol, -3), symbol);
  }

  function DepthOf(id: int): Message {
    Message("btcusdt@depth20", None, Some(id), false)
  }

  lemma DepthStep(feed: Feed, id: int)
    ensures OnMessage(["btcusdt"], feed, DepthOf(id)) == OnBook(feed, "btcusdt", id)
  {
    hide OnBook, Lower, AtPosition;
    var m := DepthOf(id);
    LowerIsKept("btcusdt");
    AtAfter("btcusdt", "@depth20");
    assert m.stream == "btcusdt" + "@depth20";
    assert m.stream[..7] == "btcusdt" && m.stream[8..] == "depth20";
    assert Lower(["btcusdt"][0]) == "btcusdt";
    assert StreamType(m) == "depth20" && SymbolOf(m) == "btcusdt";
    assert "depth20"[..5] == "depth" && "depth20"[0] != "trade"[0];
  }

  lemma {:induction false} LowerIsKept(s: string)
    requires forall i :: 0 <= i < |s| ==> !('A' <= s[i] <= 'Z')
    ensures Lower(s) == s
  {
    if s != [] {
      LowerIsKept(s[1..]);
    }
  }

  lemma {:induction false} AtAfter(a: string, b: string)
    requires (forall i :: 0 <= i < |a| ==> a[i] != '@') && b != [] && b[0] == '@'
    ensures AtPosition(a + b) == |a|
  {
    if a == [] {
      assert a + b == b;
    } else {
      assert (a + b)[1..] == a[1..] + b;
      AtAfter(a[1..], b);
    }
  }

  // ---------------------------------------------------------------- what a message does

  const UPPER := "ABCDEFGHIJKLMNOPQRSTUVWXYZ"
  const LOWER := "abcdefghijklmnopqrstuvwxyz"

  /** Lower replaces the 26 capitals, each by its own small letter, and nothing else. */
  lemma {:induction false} LowerAt(s: string, i: nat)
    requires i < |s|
    ensures s[i] !in UPPER ==> Lower(s)[i] == s[i]
    ensures forall k :: 0 <= k < 26 && UPPER[k] == s[i] ==> Lower(s)[i] == LOWER[k]
  {
    hide LowerChar;
    if i == 0 {
      LowerLetter(s[0]);
    } else {
      LowerAt(s[1..], i - 1);
    }
  }

  lemma LowerLetter(c: char)
    ensures c !in UPPER ==> LowerChar(c) == c
    ensures forall k :: 0 <= k < 26 && UPPER[k] == c ==> LowerChar(c) == LOWER[k]
  {
    hide UPPER, LOWER;
    CapitalLetters();
    SmallLetters();
    if 'A' <= c <= 'Z' {
      assert UPPER[c as int - 'A' as int] == c;
    }
  }

  lemma CapitalLetters()
    ensures |UPPER| == 26 && forall k :: 0 <= k < 26 ==> UPPER[k] as int == 'A' as int + k
  {
  }

  lemma SmallLetters()
    ensures |LOWER| == 26 && forall k :: 0 <= k < 26 ==> LOWER[k] as int == 'a' as int + k
  {
  }

  lemma SubscribedMeans(symbols: seq<string>, symbol: string)
    ensures Subscribed(symbols, symbol) <==> exists configured :: configured in symbols && Lower(configured) == symbol
  {
    hide Lower;
    forall i | 0 <= i < |symbols| ensures symbols[i] in symbols {
    }
  }

  /** A stream name: a symbol without '@', then '@', then a word and anything after it. */
  ghost predicate Spelled(stream: string, p: string, word: string, rest: string) {
    p != [] && '@' !in p && stream == p + "@" + word + rest
  }

  lemma SpelledParts(m: Message, p: string, word: string, rest: string)
    requires Spelled(m.stream, p, word, rest)
    ensures AtPosition(m.stream) == |p| && |p| < |m.stream|
    ensures SymbolOf(m) == Lower(p) && StreamType(m) == word + rest
  {
    hide AtPosition, Lower;
    NameParts(p, word, rest);
    assert forall i :: 0 <= i < |p| ==> p[i] in p;
    AtAfter(p, "@" + (word + rest));
  }

  lemma NameParts(p: string, word: string, rest: string)
    ensures var stream := p + "@" + word + rest;
      && stream == p + ("@" + (word + rest))
      && stream[..|p|] == p && stream[|p| + 1..] == word + rest
  {
  }

  /** What a trade message does, told from its stream name alone. */
  lemma TradeMessage(symbols: seq<string>, feed: Feed, m: Message, p: string, rest: string)
    requires Spelled(m.stream, p, "trade", rest) && Subscribed(symbols, Lower(p))
    ensures m.trade.None? ==> OnMessage(symbols, feed, m) == feed.(parseErrors := feed.parseErrors + 1)
    ensures m.trade.Some? ==>
              var id, s, next := m.trade.value, Lower(p), OnMessage(symbols, feed, m);
              var (gate, r) := OnLive(GateOf(feed, s), id);
              && next.trades == feed.trades + (if r.action == Accept then [(s, id)] else [])
              && next.gates == feed.gates[s := gate]
              && next.tradesParsed == feed.tradesParsed + (if r.action == Accept then 1 else 0)
              && next.duplicates == feed.duplicates + (if r.action == Duplicate then 1 else 0)
              && next.gaps == feed.gaps + (if r.action == Gap then 1 else 0)
              && next.recovering == feed.recovering + (if r.action == Gap then 1 else 0)
              && next.missingRecords == feed.missingRecords + (if r.action == Gap then r.MissingCount() else 0)
              && next.callbackErrors == feed.callbackErrors + (if r.action == Accept && m.throws then 1 else 0)
              && (next.parseErrors, next.booksParsed, next.rollbacks) == (feed.parseErrors, feed.booksParsed, feed.rollbacks)
              && next.books == feed.books && next.bookIds == feed.bookIds
  {
    hide OnLive, Lower, Subscribed, AtPosition;
    SpelledParts(m, p, "trade", rest);
    assert ("trade" + rest)[..5] == "trade";
    assert KindOf(symbols, m) == TradeKind;
  }

  /** What an order-book message does. */
  lemma BookMessage(symbols: seq<string>, feed: Feed, m: Message, p: string, rest: string)
    requires Spelled(m.stream, p, "depth", rest) && Subscribed(symbols, Lower(p))
    ensures m.book.None? ==> OnMessage(symbols, feed, m) == feed.(parseErrors := feed.parseErrors + 1)
    ensures m.book.Some? ==>
              var id, s, next := m.book.value, Lower(p), OnMessage(symbols, feed, m);
              var back := BookIdOf(feed, s) != 0 && id < BookIdOf(feed, s);
              && next.books == feed.books + (if back then [] else [(s, id)])
              && BookIdOf(next, s) == (if back then BookIdOf(feed, s) else id)
              && (forall t :: t != s ==> BookIdOf(next, t) == BookIdOf(feed, t))
              && next.booksParsed == feed.booksParsed + (if back then 0 else 1)
              && next.rollbacks == feed.rollbacks + (if back then 1 else 0)
              && next.callbackErrors == feed.callbackErrors + (if !back && m.throws then 1 else 0)
              && next == feed.(books := next.books, bookIds := next.bookIds, booksParsed := next.booksParsed,
                               rollbacks := next.rollbacks, callbackErrors := next.callbackErrors)
  {
    hide Lower, Subscribed, AtPosition;
    SpelledParts(m, p, "depth", rest);
    assert ("depth" + rest)[..5] == "depth" && ("depth" + rest)[0] == 'd';
    assert KindOf(symbols, m) == BookKind;
  }

  /** Names without a symbol or with a foreign one are errors; other stream types are ignored. */
  lemma OtherMessage(symbols: seq<string>, feed: Feed, m: Message)
    ensures '@' !in m.stream || m.stream[0] == '@' ==>
              OnMessage(symbols, feed, m) == feed.(parseErrors := feed.parseErrors + 1)
    ensures forall p, rest :: Spelled(m.stream, p, [], rest) && !Subscribed(symbols, Lower(p)) ==>
              OnMessage(symbols, feed, m) == feed.(parseErrors := feed.parseErrors + 1)
    ensures forall p, rest ::
              (Spelled(m.stream, p, [], rest) && Subscribed(symbols, Lower(p)) && !("trade" <= rest) && !("depth" <= rest)
               ==> OnMessage(symbols, feed, m) == feed)
  {
    hide Lower, Subscribed, AtPosition;
    forall p, rest | Spelled(m.stream, p, [], rest)
      ensures AtPosition(m.stream) == |p| && SymbolOf(m) == Lower(p) && StreamType(m) == rest
    {
      SpelledParts(m, p, [], rest);
      assert [] + rest == rest;
    }
    NoSymbol(m);
  }

  lemma NoSymbol(m: Message)
    ensures '@' !in m.stream ==> AtPosition(m.stream) == |m.stream|
    ensures '@' in m.stream && m.stream[0] == '@' ==> AtPosition(m.stream) == 0
  {
    if AtPosition(m.stream) < |m.stream| {
      assert m.stream[AtPosition(m.stream)] == '@';
    }
  }

  /** The message comes on a stream of that kind for a subscribed symbol, spelled in any case. */
  ghost predicate OnStream(symbols: seq<string>, m: Message, symbol: string, word: string) {
    Subscribed(symbols, symbol) && exists p, rest :: Spelled(m.stream, p, word, rest) && Lower(p) == symbol
  }

  lemma OnStreamKind(symbols: seq<string>, m: Message, symbol: string)
    ensures OnStream(symbols, m, symbol, "trade") <==> KindOf(symbols, m) == TradeKind && SymbolOf(m) == symbol
    ensures OnStream(symbols, m, symbol, "depth") <==> KindOf(symbols, m) == BookKind && SymbolOf(m) == symbol
  {
    hide Lower, Subscribed, AtPosition, Spelled;
    StreamParts(symbols, m, symbol, "trade");
    StreamParts(symbols, m, symbol, "depth");
    assert "trade"[0] != "depth"[0];
  }

  lemma StreamParts(symbols: seq<string>, m: Message, symbol: string, word: string)
    requires word != []
    ensures OnStream(symbols, m, symbol, word) <==>
            var at := AtPosition(m.stream);
            && 0 < at < |m.stream| && Subscribed(symbols, symbol) && SymbolOf(m) == symbol && word <= StreamType(m)
  {
    hide Lower, Subscribed, AtPosition;
    var at := AtPosition(m.stream);
    forall p, rest | Spelled(m.stream, p, word, rest) && Lower(p) == symbol
      ensures 0 < at < |m.stream| && SymbolOf(m) == symbol && word <= StreamType(m)
    {
      SpelledParts(m, p, word, rest);
    }
    if 0 < at < |m.stream| && word <= StreamType(m) {
      var p, rest := m.stream[..at], StreamType(m)[|word|..];
      assert m.stream == p + "@" + word + rest;
      assert Spelled(m.stream, p, word, rest);
    }
  }

  /** The ids of one symbol's trade messages, in order. */
  ghost function TradeIds(symbols: seq<string>, ms: seq<Message>, s: string): seq<int> {
    if ms == [] then [] else
      var n := |ms| - 1;
      TradeIds(symbols, ms[..n], s)
      + if OnStream(symbols, ms[n], s, "trade") && ms[n].trade.Some? then [ms[n].trade.value] else []
  }

  lemma LivesSnoc(ids: seq<int>, id: int)
    ensures Lives(ids + [id]) == Lives(ids) + [LiveTrade(id)]
  {
  }

  /**
   After any message stream a symbol's trade callback has been given exactly the ids that
   a gate of its own accepts when fed the symbol's trade messages.
   */
  lemma {:induction false} TradesDelivered(symbols: seq<string>, ms: seq<Message>, s: string)
    ensures var calls := Lives(TradeIds(symbols, ms, s));
      && IdsOf(After(symbols, ms).trades, s) == AcceptedIds(calls)
      && GateOf(After(symbols, ms), s) == TradeSeqGate.After(calls)
  {
    hide OnMessage, OnStream, IdsOf, AcceptedIds, TradeSeqGate.After, Lives;
    if ms == [] {
      NoCalls();
      NoIds(s);
      assert Lives([]) == [];
    } else {
      var n := |ms| - 1;
      TradesDelivered(symbols, ms[..n], s);
      var ids, feed := TradeIds(symbols, ms[..n], s), After(symbols, ms[..n]);
      if OnStream(symbols, ms[n], s, "trade") && ms[n].trade.Some? {
        OwnTradeMessage(symbols, feed, ms[n], s);
        LivesSnoc(ids, ms[n].trade.value);
        OneMoreCall(Lives(ids), LiveTrade(ms[n].trade.value));
      } else {
        assert TradeIds(symbols, ms, s) == ids;
        ForeignTrade(symbols, feed, ms[n], s);
      }
    }
  }

  lemma NoIds(s: string)
    ensures IdsOf([], s) == [] && GateOf(IDLE_FEED, s) == FRESH_GATE
  {
  }

  lemma OwnTradeMessage(symbols: seq<string>, feed: Feed, m: Message, s: string)
    requires OnStream(symbols, m, s, "trade") && m.trade.Some?
    ensures var next, call := OnMessage(symbols, feed, m), LiveTrade(m.trade.value);
      && GateOf(next, s) == Step(GateOf(feed, s), call)
      && IdsOf(next.trades, s) == IdsOf(feed.trades, s) + if Accepts(GateOf(feed, s), call) then [call.id] else []
  {
    hide OnLive, Lower, Subscribed, Spelled, IdsOf, OnMessage;
    var p, rest :| Spelled(m.stream, p, "trade", rest) && Lower(p) == s;
    TradeMessage(symbols, feed, m, p, rest);
    IdsOfSnoc(feed.trades, (s, m.trade.value), s);
    assert feed.trades + [] == feed.trades;
  }

  lemma ForeignTrade(symbols: seq<string>, feed: Feed, m: Message, s: string)
    requires !OnStream(symbols, m, s, "trade") || m.trade.None?
    ensures var next := OnMessage(symbols, feed, m);
      GateOf(next, s) == GateOf(feed, s) && IdsOf(next.trades, s) == IdsOf(feed.trades, s)
  {
    hide OnStream, IdsOf, OnLive, SymbolOf, KindOf, OnTrade;
    OnStreamKind(symbols, m, s);
    if SymbolOf(m) != s {
      OtherSymbol(symbols, feed, m, s);
    }
  }

  /** The ids that none before them exceeds. */
  ghost function Peaks(ids: seq<int>): seq<int> {
    if ids == [] then [] else
      var n := |ids| - 1;
      Peaks(ids[..n]) + if forall i :: 0 <= i < n ==> ids[i] <= ids[n] then [ids[n]] else []
  }

  lemma {:induction false} LastPeak(ids: seq<int>)
    ensures (ids == []) == (Peaks(ids) == [])
    ensures forall i :: 0 <= i < |ids| ==> ids[i] <= Peaks(ids)[|Peaks(ids)| - 1]
    ensures Peaks(ids) != [] ==> Peaks(ids)[|Peaks(ids)| - 1] in ids
  {
    if ids != [] {
      LastPeak(ids[..|ids| - 1]);
    }
  }

  /**
   Of the order books the parser passes for a symbol, in any message stream, exactly those
   are delivered whose id is as high as every earlier one of that symbol.
   */
  lemma {:induction false} BooksDelivered(symbols: seq<string>, ms: seq<Message>, s: string)
    requires forall i :: 0 <= i < |ms| ==> FromParser(ms[i])
    ensures IdsOf(After(symbols, ms).books, s) == Peaks(Received(symbols, ms, s))
    ensures forall id :: id in Received(symbols, ms, s) ==> id > 0
  {
    hide OnMessage, OnStream, IdsOf, Peaks;
    if ms == [] {
      NoIds(s);
      LastPeak([]);
    } else {
      var n := |ms| - 1;
      BooksDelivered(symbols, ms[..n], s);
      var ids, feed := Received(symbols, ms[..n], s), After(symbols, ms[..n]);
      if OnStream(symbols, ms[n], s, "depth") && ms[n].book.Some? {
        BookIdsNeverDecrease(symbols, ms[..n], s);
        OwnBookMessage(symbols, feed, ms[n], s);
        PeaksSnoc(ids, ms[n].book.value);
      } else {
        assert Received(symbols, ms, s) == ids;
        ForeignBook(symbols, feed, ms[n], s);
      }
    }
  }

  /** Only the last peak matters. */
  lemma PeaksSnoc(ids: seq<int>, id: int)
    ensures var peaks := Peaks(ids);
      Peaks(ids + [id]) == peaks + if peaks == [] || id >= peaks[|peaks| - 1] then [id] else []
  {
    var all, peaks := ids + [id], Peaks(ids);
    assert all[..|ids|] == ids;
    LastPeak(ids);
    if peaks != [] {
      var k :| 0 <= k < |ids| && ids[k] == peaks[|peaks| - 1];
      assert all[k] == ids[k];
    }
  }

  lemma OwnBookMessage(symbols: seq<string>, feed: Feed, m: Message, s: string)
    requires OnStream(symbols, m, s, "depth") && m.book.Some? && BookInv(feed, s)
    ensures var ids := IdsOf(feed.books, s);
      IdsOf(OnMessage(symbols, feed, m).books, s)
      == ids + if ids == [] || m.book.value >= ids[|ids| - 1] then [m.book.value] else []
  {
    hide Lower, Subscribed, Spelled, IdsOf, OnMessage;
    var p, rest :| Spelled(m.stream, p, "depth", rest) && Lower(p) == s;
    BookMessage(symbols, feed, m, p, rest);
    IdsOfSnoc(feed.books, (s, m.book.value), s);
    assert feed.books + [] == feed.books;
  }

  lemma ForeignBook(symbols: seq<string>, feed: Feed, m: Message, s: string)
    requires !OnStream(symbols, m, s, "depth") || m.book.None?
    ensures IdsOf(OnMessage(symbols, feed, m).books, s) == IdsOf(feed.books, s)
  {
    hide OnStream, IdsOf, SymbolOf, KindOf, OnLive;
    OnStreamKind(symbols, m, s);
    if SymbolOf(m) != s {
      OtherSymbol(symbols, feed, m, s);
    } else {
      NotABook(symbols, feed, m);
    }
  }
}
