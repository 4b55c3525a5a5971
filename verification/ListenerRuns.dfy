/** What the market listener is told of trades, definitions and a snapshot, and by a late joiner altogether. */
module ListenerRuns {
  import opened Types
  import opened Sequences
  import opened BookLevels
  import opened BookRuns
  import opened BookStates
  import opened LevelOperations
  import opened Recovery
  import opened Snapshots
  import opened Publication
  import opened BookManagement
  import opened Saver
  import opened ConsumerQuotes
  import opened ListenerLog

  /* ---------- trades and definitions ---------- */

  function TradesIn(log: seq<Sent>): seq<Sent> {
    if log == [] then []
    else TradesIn(log[..|log| - 1]) + if log[|log| - 1].TradeSent? then [log[|log| - 1]] else []
  }

  function ContractsIn(log: seq<Sent>): seq<string> {
    if log == [] then []
    else
      ContractsIn(log[..|log| - 1])
      + if log[|log| - 1].ContractDefinition? then [log[|log| - 1].contract] else []
  }

  lemma {:induction false} ReadersConcat(a: seq<Sent>, b: seq<Sent>)
    ensures TradesIn(a + b) == TradesIn(a) + TradesIn(b) && ContractsIn(a + b) == ContractsIn(a) + ContractsIn(b)
  {
    if b == [] {
      assert a + b == a;
    } else {
      assert (a + b)[..|a + b| - 1] == a + b[..|b| - 1];
      ReadersConcat(a, b[..|b| - 1]);
    }
  }

  lemma {:induction false} NoTrades(ms: seq<Sent>)
    requires forall i :: 0 <= i < |ms| ==> AboutPrices(ms[i])
    ensures TradesIn(ms) == [] && ContractsIn(ms) == []
  {
    if ms != [] {
      NoTrades(ms[..|ms| - 1]);
    }
  }

  /** A trade of a defined security that is not a deletion. */
  predicate IsTraded(before: Desk, e: Event) {
    && e.OnBook? && e.book.entryType == Trade && e.book.securityID in before.books
    && e.book.updateAction != Delete && e.book.updateAction != DeleteThru && e.book.updateAction != DeleteFrom
  }

  /** A message with price and size of a trade, under the symbol that the security was last defined with. */
  predicate TellsTrade(m: Sent, before: Desk, b: Book) {
    && m.TradeSent? && m.last.price == b.entryPx && m.last.size == b.entrySize
    && m.contract == (if b.securityID in before.instruments then before.instruments[b.securityID].symbol else "")
  }

  /** The desk before event `n` of a run. */
  function Before(d: Desk, es: seq<Event>, n: nat): Desk
    requires n <= |es|
  {
    DeskRun(d, es[..n])
  }

  /** The positions of the trades among the events. */
  function TradesAt(d: Desk, es: seq<Event>): seq<nat> {
    if es == [] then []
    else
      var n := |es| - 1;
      TradesAt(d, es[..n]) + if IsTraded(Before(d, es, n), es[n]) then [n] else []
  }

  /** Message `ms[j]` is about the trade at position `at[j]`. */
  ghost predicate TellsTrades(ms: seq<Sent>, at: seq<nat>, d: Desk, es: seq<Event>) {
    && |ms| == |at|
    && forall j :: 0 <= j < |at| ==> TellsTradeAt(ms[j], d, es, at[j])
  }

  ghost predicate TellsTradeAt(m: Sent, d: Desk, es: seq<Event>, n: nat) {
    n < |es| && es[n].OnBook? && TellsTrade(m, Before(d, es, n), es[n].book)
  }

  lemma OneMessage(m: Sent)
    ensures TradesIn([m]) == if m.TradeSent? then [m] else []
    ensures ContractsIn([m]) == if m.ContractDefinition? then [m.contract] else []
  {
    assert [m][..0] == [];
  }

  /** The trade among the messages of one entry. */
  lemma AnnouncedTrade(d: Desk, b: Book)
    ensures var ms := TradesIn(Announced(d.books, b, SymbolOf(d, b.securityID)));
            if IsTraded(d, OnBook(b)) then |ms| == 1 && TellsTrade(ms[0], d, b) else ms == []
    ensures ContractsIn(Announced(d.books, b, SymbolOf(d, b.securityID))) == []
  {
    var contract := SymbolOf(d, b.securityID);
    var sent := Announced(d.books, b, contract);
    if FlagOf(d.books, b) == 3 && !IsDeletion(b.updateAction) {
      OneMessage(TradeSent(contract, DataPoint(b.entryPx, b.entrySize)));
      assert sent == [TradeSent(contract, DataPoint(b.entryPx, b.entrySize))];
    } else {
      NoTrades(sent);
    }
  }

  lemma StepTrades(d: Desk, e: Event) returns (ms: seq<Sent>)
    ensures TradesIn(DeskStep(d, e).sent) == TradesIn(d.sent) + ms
    ensures if IsTraded(d, e) then |ms| == 1 && TellsTrade(ms[0], d, e.book) else ms == []
  {
    match e
    case OnBook(b) =>
      var sent := Announced(d.books, b, SymbolOf(d, b.securityID));
      ReadersConcat(d.sent, sent);
      AnnouncedTrade(d, b);
      ms := TradesIn(sent);
    case OnDefinition(i) =>
      ms := [];
      ReadersConcat(d.sent, [ContractDefinition(i.symbol)]);
      OneMessage(ContractDefinition(i.symbol));
      assert TradesIn(d.sent) + [] == TradesIn(d.sent);
  }

  lemma TradesMore(ms: seq<Sent>, more: seq<Sent>, d: Desk, es: seq<Event>)
    requires es != [] && TellsTrades(ms, TradesAt(d, es[..|es| - 1]), d, es[..|es| - 1])
    requires if IsTraded(DeskRun(d, es[..|es| - 1]), es[|es| - 1])
             then |more| == 1 && TellsTrade(more[0], DeskRun(d, es[..|es| - 1]), es[|es| - 1].book) else more == []
    ensures TellsTrades(ms + more, TradesAt(d, es), d, es)
  {
    var n := |es| - 1;
    var front, at := es[..n], TradesAt(d, es[..n]);
    var all, told := TradesAt(d, es), ms + more;
    forall j | 0 <= j < |all|
      ensures TellsTradeAt(told[j], d, es, all[j])
    {
      if j < |at| {
        assert all[j] == at[j] && TellsTradeAt(ms[j], d, front, at[j]);
        assert front[..at[j]] == es[..at[j]];
      }
    }
  }

  /** Over any run, the listener is told exactly the trades of defined securities that are no deletions, in order, each
      with its price and size. */
  lemma {:induction false} TradesAreTold(d: Desk, es: seq<Event>) returns (ms: seq<Sent>)
    ensures TradesIn(DeskRun(d, es).sent) == TradesIn(d.sent) + ms
    ensures TellsTrades(ms, TradesAt(d, es), d, es)
  {
    if es == [] {
      ms := [];
    } else {
      var front, e := es[..|es| - 1], es[|es| - 1];
      var before := TradesAreTold(d, front);
      var more := StepTrades(DeskRun(d, front), e);
      TradesMore(before, more, d, es);
      ms := before + more;
      Assoc(TradesIn(d.sent), before, more);
    }
  }

  /** The definitions among the events that are no removals. */
  function Listed(es: seq<Event>): seq<Instrument> {
    if es == [] then []
    else
      var e := es[|es| - 1];
      Listed(es[..|es| - 1]) + if e.OnDefinition? && e.instrument.action != Remove then [e.instrument] else []
  }

  ghost predicate Names(contracts: seq<string>, instruments: seq<Instrument>) {
    |contracts| == |instruments| && forall j :: 0 <= j < |contracts| ==> contracts[j] == instruments[j].symbol
  }

  lemma StepContracts(d: Desk, e: Event)
    ensures ContractsIn(DeskStep(d, e).sent)
            == ContractsIn(d.sent)
               + if e.OnDefinition? && e.instrument.action != Remove then [e.instrument.symbol] else []
  {
    assert ContractsIn(d.sent) + [] == ContractsIn(d.sent);
    match e
    case OnBook(b) =>
      ReadersConcat(d.sent, Announced(d.books, b, SymbolOf(d, b.securityID)));
      AnnouncedTrade(d, b);
    case OnDefinition(i) =>
      ReadersConcat(d.sent, [ContractDefinition(i.symbol)]);
      OneMessage(ContractDefinition(i.symbol));
  }

  /** Over any run, the listener is told the symbol of every definition that is no removal, in order. */
  lemma {:induction false} DefinitionsAreTold(d: Desk, es: seq<Event>) returns (contracts: seq<string>)
    ensures ContractsIn(DeskRun(d, es).sent) == ContractsIn(d.sent) + contracts
    ensures Names(contracts, Listed(es))
  {
    if es == [] {
      contracts := [];
    } else {
      var front, e := es[..|es| - 1], es[|es| - 1];
      var before := DefinitionsAreTold(d, front);
      var more := if e.OnDefinition? && e.instrument.action != Remove then [e.instrument.symbol] else [];
      StepContracts(DeskRun(d, front), e);
      contracts := before + more;
      Assoc(ContractsIn(d.sent), before, more);
    }
  }

  /* ---------- what definitions leave ---------- */

  /** The definitions in the messages of a consumer, those in dropped messages left out. */
  function DefinitionsOf(firstSeq: int, ms: seq<MdpMessage>): seq<Instrument> {
    if ms == [] then []
    else
      var m := ms[|ms| - 1];
      DefinitionsOf(firstSeq, ms[..|ms| - 1])
      + if m.packetSeqNum > firstSeq && m.body.Definitions? then m.body.instruments else []
  }

  /** The last definition of a security. */
  function LastOf(defs: seq<Instrument>, id: uint32): Option<Instrument> {
    if defs == [] then None
    else if defs[|defs| - 1].securityID == id then Some(defs[|defs| - 1])
    else LastOf(defs[..|defs| - 1], id)
  }

  /** A desk that knows `id` as it was defined last; a removal is only forgotten. */
  ghost predicate KnowsAs(d: Desk, id: uint32, last: Option<Instrument>) {
    last.Some? ==>
      if last.value.action == Remove then id !in d.instruments
      else
        && id in d.instruments && d.instruments[id] == last.value
        && id in d.books && d.books[id].marketDepth == last.value.depth && d.books[id].symbol == last.value.symbol
  }

  lemma {:induction false} DefineAllKnows(d: Desk, defs: seq<Instrument>, id: uint32)
    ensures KnowsAs(DeskDefineAll(d, defs), id, LastOf(defs, id))
    ensures LastOf(defs, id).None? ==>
              && At(DeskDefineAll(d, defs).books, id) == At(d.books, id)
              && (id in DeskDefineAll(d, defs).instruments <==> id in d.instruments)
              && (id in d.instruments ==> DeskDefineAll(d, defs).instruments[id] == d.instruments[id])
  {
    if defs != [] {
      DefineAllKnows(d, defs[..|defs| - 1], id);
    }
  }

  lemma {:induction false} LastOfConcat(a: seq<Instrument>, b: seq<Instrument>, id: uint32)
    ensures LastOf(a + b, id) == if LastOf(b, id).Some? then LastOf(b, id) else LastOf(a, id)
  {
    if b == [] {
      assert a + b == a;
    } else {
      assert (a + b)[..|a + b| - 1] == a + b[..|b| - 1];
      LastOfConcat(a, b[..|b| - 1], id);
    }
  }

  lemma TakenKnows(d: Desk, recovery: seq<Book>, firstSeq: int, m: MdpMessage, id: uint32, last: Option<Instrument>)
    requires KnowsAs(d, id, last)
    ensures var defs := if m.packetSeqNum > firstSeq && m.body.Definitions? then m.body.instruments else [];
            KnowsAs(Taken(d, recovery, firstSeq, m), id, if LastOf(defs, id).Some? then LastOf(defs, id) else last)
  {
    if m.packetSeqNum > firstSeq {
      match m.body
      case Definitions(defs) => DefineAllKnows(d, defs, id);
      case Books(books) =>
        HandleRunsBooks(d, Left(recovery, m.packetSeqNum, books));
        EntriesKeepDefinitions(d.books, Left(recovery, m.packetSeqNum, books), id);
      case Unparsed =>
    }
  }

  lemma EntriesKeepDefinitions(bs: Books, books: seq<Book>, id: uint32)
    ensures id in RunBooks(bs, books) <==> id in bs
    ensures id in bs ==>
              && RunBooks(bs, books)[id].symbol == bs[id].symbol
              && RunBooks(bs, books)[id].marketDepth == bs[id].marketDepth
  {
    SymbolsStay(bs, books);
    if id in bs {
      OnlySidesChange(bs, books, id);
    }
  }

  /** After any messages, the consumer knows each security that they define as it was defined last, name and depth. */
  lemma {:induction false} ConsumerKnowsLast(d: Desk, recovery: seq<Book>, firstSeq: int, ms: seq<MdpMessage>,
                                             id: uint32)
    ensures KnowsAs(Consume(d, recovery, firstSeq, ms), id, LastOf(DefinitionsOf(firstSeq, ms), id))
  {
    if ms != [] {
      var front, m := ms[..|ms| - 1], ms[|ms| - 1];
      var defs := if m.packetSeqNum > firstSeq && m.body.Definitions? then m.body.instruments else [];
      ConsumerKnowsLast(d, recovery, firstSeq, front, id);
      LastOfConcat(DefinitionsOf(firstSeq, front), defs, id);
      TakenKnows(Consume(d, recovery, firstSeq, front), recovery, firstSeq, m, id,
                 LastOf(DefinitionsOf(firstSeq, front), id));
    }
  }

  /* ---------- the snapshot ---------- */

  /** Replaying snapshot entries reports exactly the securities that have an entry at a level inside their depth. */
  lemma {:induction false} TouchedExactly(bs: Books, recovery: seq<Book>, id: uint32)
    requires IsSnapshot(recovery)
    ensures id in Touched(bs, recovery) <==> id in bs && HasEntry(recovery, id, bs[id].marketDepth)
  {
    if recovery != [] {
      var front, b := recovery[..|recovery| - 1], recovery[|recovery| - 1];
      TouchedExactly(bs, front, id);
      EntriesKeepDefinitions(bs, front, b.securityID);
      EntriesKeepDefinitions(bs, front, id);
      if id in bs {
        HasEntryMore(front, b, id, bs[id].marketDepth);
        assert front + [b] == recovery;
      }
    }
  }

  ghost predicate HasEntry(recovery: seq<Book>, id: uint32, depth: nat) {
    exists i :: 0 <= i < |recovery| && IsEntry(recovery[i], id, depth)
  }

  predicate IsEntry(b: Book, id: uint32, depth: nat) {
    b.securityID == id && (b.entryType == Bid || b.entryType == Offer) && 1 <= b.priceLevel <= depth
  }

  lemma HasEntryMore(recovery: seq<Book>, b: Book, id: uint32, depth: nat)
    ensures HasEntry(recovery + [b], id, depth) <==> HasEntry(recovery, id, depth) || IsEntry(b, id, depth)
  {
    var all := recovery + [b];
    assert all[|recovery|] == b;
    assert forall i :: 0 <= i < |recovery| ==> all[i] == recovery[i];
  }

  /** Replaying any entries without a channel reset reports every security whose book is another one afterwards. */
  lemma {:induction false} ChangedIsTouched(bs: Books, recovery: seq<Book>, id: uint32)
    requires forall i :: 0 <= i < |recovery| ==> recovery[i].entryType != BookReset
    ensures At(RunBooks(bs, recovery), id) != At(bs, id) ==> id in Touched(bs, recovery)
  {
    if recovery != [] {
      var front, b := recovery[..|recovery| - 1], recovery[|recovery| - 1];
      ChangedIsTouched(bs, front, id);
      var before := RunBooks(bs, front);
      if b.securityID == id && id in before && !Takes(before[id], b) {
        assert Updated(before[id], b) == before[id];
      }
    }
  }

  /** What is published for a book that the snapshot changed: all of it, and the best prices if there are any. */
  ghost predicate Publishes(ms: seq<Sent>, v: BookValue) {
    if v.bid != [] || v.ask != [] then |ms| == 2 && Depicts(ms[0], v) && TellsBest(ms[1], v)
    else |ms| == 1 && Depicts(ms[0], v)
  }

  lemma PublishedUnder(v: BookValue, c: string)
    ensures var ms := Under([SendL2(v)] + SendBbo(v), c); if v.symbol == c then Publishes(ms, v) else ms == []
  {
    BookSays(v);
    if v.symbol == c {
      UnderAll([SendL2(v)] + SendBbo(v), c);
    } else {
      UnderNone([SendL2(v)] + SendBbo(v), c);
    }
  }

  /** Publishing each security of a set once publishes each of them exactly once. */
  lemma {:induction false} BroadcastPublishes(bs: Books, order: seq<uint32>, ids: set<uint32>, id: uint32, c: string)
    requires Owns(bs, id, c) && id in bs && Enumerates(order, ids)
    ensures var ms := Under(Broadcast(bs, order), c); if id in ids then Publishes(ms, bs[id]) else ms == []
  {
    if order != [] {
      var front, last := order[..|order| - 1], order[|order| - 1];
      BroadcastPublishes(bs, front, ids - {last}, id, c);
      if last in bs {
        PublishedUnder(bs[last], c);
        UnderConcat(Broadcast(bs, front), [SendL2(bs[last])] + SendBbo(bs[last]), c);
      } else {
        assert Broadcast(bs, front) + [] == Broadcast(bs, front);
      }
    }
  }

  /** After a snapshot was replayed, the log under the symbol of a security grows by the book that the replay led to,
      once, if the snapshot has an entry for it inside its depth, and by nothing otherwise. */
  lemma SnapshotIsTold(d: Desk, recovery: seq<Book>, order: seq<uint32>, id: uint32, c: string)
    returns (ms: seq<Sent>)
    requires IsSnapshot(recovery) && Owns(d.books, id, c) && id in d.books
    requires Enumerates(order, Touched(d.books, recovery))
    ensures Under(Replayed(d, recovery, order).sent, c) == Under(d.sent, c) + ms
    ensures id in RunBooks(d.books, recovery)
    ensures if HasEntry(recovery, id, d.books[id].marketDepth) then Publishes(ms, RunBooks(d.books, recovery)[id])
            else ms == []
  {
    var bs := RunBooks(d.books, recovery);
    OwnsAfter(d.books, recovery, id, c);
    EntriesKeepDefinitions(d.books, recovery, id);
    TouchedExactly(d.books, recovery, id);
    BroadcastPublishes(bs, order, Touched(d.books, recovery), id, c);
    UnderConcat(d.sent, Broadcast(bs, order), c);
    ms := Under(Broadcast(bs, order), c);
  }

  /** A late joiner: under the symbol of a security, the listener is told the book of the snapshot, once, if that has an
      entry for it, and then exactly what each consumed event says, in order. */
  lemma LateJoinerTells(d: Desk, recovery: seq<Book>, order: seq<uint32>, firstSeq: int, ms: seq<MdpMessage>,
                        id: uint32, c: string)
    returns (first: seq<Sent>, told: seq<seq<Sent>>)
    requires IsSnapshot(recovery) && Owns(d.books, id, c) && id in d.books
    requires Enumerates(order, Touched(d.books, recovery)) && KeepsSymbol(EventsOf(recovery, firstSeq, ms), id, c)
    ensures id in RunBooks(d.books, recovery)
    ensures if HasEntry(recovery, id, d.books[id].marketDepth) then Publishes(first, RunBooks(d.books, recovery)[id])
            else first == []
    ensures SaysAll(told, Replayed(d, recovery, order), EventsOf(recovery, firstSeq, ms), id)
    ensures Under(Consume(Replayed(d, recovery, order), recovery, firstSeq, ms).sent, c)
            == Under(d.sent, c) + first + Joined(told)
  {
    var start := Replayed(d, recovery, order);
    first := SnapshotIsTold(d, recovery, order, id, c);
    OwnsAfter(d.books, recovery, id, c);
    ConsumeIsRun(start, recovery, firstSeq, ms);
    told := LogSaysAll(start, EventsOf(recovery, firstSeq, ms), id, c);
  }

  lemma SnapshotL2(d: Desk, recovery: seq<Book>, order: seq<uint32>, id: uint32, c: string)
    requires IsSnapshot(recovery) && Owns(d.books, id, c) && id in d.books
    requires Enumerates(order, Touched(d.books, recovery)) && HasEntry(recovery, id, d.books[id].marketDepth)
    ensures var after := Replayed(d, recovery, order);
            && id in after.books && LastL2(after.sent, c).Some?
            && Depicts(LastL2(after.sent, c).value, after.books[id])
  {
    var ms := SnapshotIsTold(d, recovery, order, id, c);
    var after := Replayed(d, recovery, order);
    EntriesKeepDefinitions(d.books, recovery, id);
    LastL2Under(after.sent, c);
    LastL2Concat(Under(d.sent, c), ms, c);
    LastL2Few(ms, c);
  }

  /** Its last level-2 message shows the current book of a security with snapshot entries, as long as no reset and no
      definition of it came behind the last accepted entry, or behind the snapshot if there is none. */
  lemma LateL2IsCurrent(d: Desk, recovery: seq<Book>, order: seq<uint32>, firstSeq: int, ms: seq<MdpMessage>,
                        id: uint32, c: string)
    requires IsSnapshot(recovery) && Owns(d.books, id, c) && id in d.books
    requires Enumerates(order, Touched(d.books, recovery)) && HasEntry(recovery, id, d.books[id].marketDepth)
    requires var es := EventsOf(recovery, firstSeq, ms);
             KeepsSymbol(es, id, c) && NoSilentChange(es, LastLanding(Replayed(d, recovery, order), es, id), id)
    ensures var after := Consume(Replayed(d, recovery, order), recovery, firstSeq, ms);
            && id in after.books && LastL2(after.sent, c).Some?
            && Depicts(LastL2(after.sent, c).value, after.books[id])
  {
    var start, es := Replayed(d, recovery, order), EventsOf(recovery, firstSeq, ms);
    var k := LastLanding(start, es, id);
    OwnsAfter(d.books, recovery, id, c);
    ConsumeIsRun(start, recovery, firstSeq, ms);
    LastL2ShowsLanding(start, es, id, c);
    BookStaysSince(start, es, k, id);
    if k == 0 {
      SnapshotL2(d, recovery, order, id, c);
      assert es[..0] == [];
    }
  }
}
