/** The book manager: messages in, quotes out. */
module BookManagement {
  import opened Types
  import opened Sequences
  import opened BookLevels
  import opened BookRuns
  import opened BookStates
  import opened Recovery
  import opened Publication

  /** All that the book manager keeps: books, definitions, and the log of what it sent. */
  datatype Desk = Desk(books: Books, instruments: map<uint32, Instrument>, sent: seq<Sent>)

  function SymbolOf(d: Desk, id: uint32): string {
    if id in d.instruments then d.instruments[id].symbol else ""
  }

  /** One definition. A removal is forgotten by the definition manager and never reaches the books. */
  function DeskDefine(d: Desk, i: Instrument): Desk {
    if i.action == Remove then d.(instruments := d.instruments - {i.securityID})
    else Desk(Defined(d.books, i), d.instruments[i.securityID := i], d.sent + [ContractDefinition(i.symbol)])
  }

  function DeskDefineAll(d: Desk, instruments: seq<Instrument>): Desk {
    if instruments == [] then d
    else DeskDefine(DeskDefineAll(d, instruments[..|instruments| - 1]), instruments[|instruments| - 1])
  }

  /** One increment entry. */
  function DeskHandle(d: Desk, b: Book): Desk {
    d.(books := Modified(d.books, b), sent := d.sent + Announced(d.books, b, SymbolOf(d, b.securityID)))
  }

  function DeskHandleAll(d: Desk, books: seq<Book>): Desk {
    if books == [] then d else DeskHandle(DeskHandleAll(d, books[..|books| - 1]), books[|books| - 1])
  }

  /** What the cursor over the snapshot leaves of the entries of message `n`. */
  function Left(recovery: seq<Book>, n: uint32, books: seq<Book>): seq<Book> {
    Without(recovery, FirstIncluding(recovery, n, 0), |recovery|, books)
  }

  /** One message of the increment feed. */
  function DeskMessage(d: Desk, recovery: seq<Book>, m: MdpMessage): Desk {
    match m.body
    case Books(books) => DeskHandleAll(d, Left(recovery, m.packetSeqNum, books))
    case Definitions(instruments) => DeskDefineAll(d, instruments)
    case Unparsed => d
  }

  /** Entries change the books exactly as `RunBooks` says, whatever is sent. */
  lemma {:induction false} HandleRunsBooks(d: Desk, books: seq<Book>)
    ensures DeskHandleAll(d, books).books == RunBooks(d.books, books)
    ensures DeskHandleAll(d, books).instruments == d.instruments
  {
    if books != [] {
      HandleRunsBooks(d, books[..|books| - 1]);
    }
  }

  /* ---------- the last quote in the log ---------- */

  /** The last quote that the log holds for a contract. */
  function LastQuoteFor(log: seq<Sent>, contract: string): Option<Quote> {
    if log == [] then None
    else if log[|log| - 1].contract == contract && AsQuote(log[|log| - 1]).Some? then AsQuote(log[|log| - 1])
    else LastQuoteFor(log[..|log| - 1], contract)
  }

  /** No other security trades under the symbol of `id`. */
  predicate OwnsSymbol(bs: Books, id: uint32) {
    id in bs && forall k :: k in bs && k != id ==> bs[k].symbol != bs[id].symbol
  }

  function AsEvents(books: seq<Book>): seq<Event> {
    seq(|books|, i requires 0 <= i < |books| => OnBook(books[i]))
  }

  lemma {:induction false} LastQuoteForConcat(a: seq<Sent>, b: seq<Sent>, contract: string)
    ensures LastQuoteFor(a + b, contract)
            == if LastQuoteFor(b, contract).Some? then LastQuoteFor(b, contract) else LastQuoteFor(a, contract)
  {
    if b == [] {
      assert a + b == a;
    } else {
      assert (a + b)[..|a + b| - 1] == a + b[..|b| - 1];
      LastQuoteForConcat(a, b[..|b| - 1], contract);
    }
  }

  /** Entries neither define securities nor rename them. */
  lemma {:induction false} SymbolsStay(bs: Books, books: seq<Book>)
    ensures RunBooks(bs, books).Keys == bs.Keys
    ensures forall k :: k in bs ==> RunBooks(bs, books)[k].symbol == bs[k].symbol
    ensures RunEvents(bs, AsEvents(books)) == RunBooks(bs, books)
  {
    if books != [] {
      SymbolsStay(bs, books[..|books| - 1]);
      assert AsEvents(books)[..|books| - 1] == AsEvents(books[..|books| - 1]);
    }
  }

  lemma {:induction false} AllUnder(ms: seq<Sent>, contract: string)
    requires forall i :: 0 <= i < |ms| ==> AsQuote(ms[i]).Some? ==> ms[i].contract == contract
    ensures LastQuoteFor(ms, contract) == LastQuote(ms)
  {
    if ms != [] {
      AllUnder(ms[..|ms| - 1], contract);
    }
  }

  lemma {:induction false} NoneUnder(ms: seq<Sent>, contract: string)
    requires forall i :: 0 <= i < |ms| ==> AsQuote(ms[i]).Some? ==> ms[i].contract != contract
    ensures LastQuoteFor(ms, contract) == None
  {
    if ms != [] {
      NoneUnder(ms[..|ms| - 1], contract);
    }
  }

  /** The quotes that an entry makes the book manager send carry the symbol of its security. */
  lemma QuotesCarrySymbol(bs: Books, b: Book, contract: string)
    ensures forall i :: 0 <= i < |Announced(bs, b, contract)| && AsQuote(Announced(bs, b, contract)[i]).Some? ==>
              b.securityID in bs && Announced(bs, b, contract)[i].contract == bs[b.securityID].symbol
  {
  }

  /** Among the messages of one entry, those under the symbol of `id` are the quotes of `id`. */
  lemma AnnouncedUnder(bs: Books, b: Book, id: uint32, contract: string)
    requires OwnsSymbol(bs, id)
    ensures LastQuoteFor(Announced(bs, b, contract), bs[id].symbol)
            == LastQuote(SentFor(bs, OnBook(b), id, contract))
  {
    QuotesCarrySymbol(bs, b, contract);
    if b.securityID == id {
      AllUnder(Announced(bs, b, contract), bs[id].symbol);
    } else {
      NoneUnder(Announced(bs, b, contract), bs[id].symbol);
    }
  }

  /** The log of the book manager shows, under the symbol of a security, the quotes of that security. */
  lemma {:induction false} LogShowsQuotes(d: Desk, books: seq<Book>, id: uint32)
    requires OwnsSymbol(d.books, id)
    ensures var c := d.books[id].symbol;
            var quote := LastQuote(LogFor(d.books, AsEvents(books), id, c));
            LastQuoteFor(DeskHandleAll(d, books).sent, c)
            == if quote.Some? then quote else LastQuoteFor(d.sent, c)
  {
    var c := d.books[id].symbol;
    if books != [] {
      var front, b := books[..|books| - 1], books[|books| - 1];
      var before := RunBooks(d.books, front);
      LogShowsQuotes(d, front, id);
      HandleRunsBooks(d, front);
      SymbolsStay(d.books, front);
      assert AsEvents(books)[..|books| - 1] == AsEvents(front);
      LogShowsOne(DeskHandleAll(d, front), b, id);
      LastQuoteConcat(LogFor(d.books, AsEvents(front), id, c), SentFor(before, OnBook(b), id, c));
    }
  }

  /** One more entry adds, under the symbol of a security, what it makes of its quote. */
  lemma LogShowsOne(d: Desk, b: Book, id: uint32)
    requires OwnsSymbol(d.books, id)
    ensures var c := d.books[id].symbol;
            var quote := LastQuote(SentFor(d.books, OnBook(b), id, c));
            LastQuoteFor(DeskHandle(d, b).sent, c) == if quote.Some? then quote else LastQuoteFor(d.sent, c)
  {
    var c, contract := d.books[id].symbol, SymbolOf(d, b.securityID);
    AnnouncedUnder(d.books, b, id, contract);
    LastQuoteForConcat(d.sent, Announced(d.books, b, contract), c);
    QuotesIgnoreContract(d.books, b, id, contract, c);
  }

  /** The contract passed along is only used for trades, which are no quotes. */
  lemma QuotesIgnoreContract(bs: Books, b: Book, id: uint32, contract: string, other: string)
    ensures LastQuote(SentFor(bs, OnBook(b), id, contract)) == LastQuote(SentFor(bs, OnBook(b), id, other))
  {
    if FlagOf(bs, b) == 3 {
      LastOfOne(TradeSent(contract, DataPoint(b.entryPx, b.entrySize)));
      LastOfOne(TradeSent(other, DataPoint(b.entryPx, b.entrySize)));
    }
  }

  /** After any entries, if the last one that may have moved the top of a security left a side non-empty, the
      last quote in the log under its symbol is the current top. */
  lemma LoggedQuoteIsTop(d: Desk, books: seq<Book>, id: uint32)
    requires OwnsSymbol(d.books, id)
    requires LastMoveLeftRows(d.books, AsEvents(books), id) == Some(true)
    ensures id in DeskHandleAll(d, books).books
    ensures LastQuoteFor(DeskHandleAll(d, books).sent, d.books[id].symbol)
            == Some(Top(Some(DeskHandleAll(d, books).books[id])))
  {
    LogShowsQuotes(d, books, id);
    HandleRunsBooks(d, books);
    SymbolsStay(d.books, books);
    LastQuoteTracksTop(d.books, AsEvents(books), id, d.books[id].symbol);
  }

  /** What the listener gets for the securities that a snapshot changed. */
  function Broadcast(bs: Books, order: seq<uint32>): seq<Sent> {
    if order == [] then []
    else
      var id := order[|order| - 1];
      Broadcast(bs, order[..|order| - 1]) + if id in bs then [SendL2(bs[id])] + SendBbo(bs[id]) else []
  }

  /** The desk after the current books of `order` were published. */
  function Announcing(d: Desk, order: seq<uint32>): Desk {
    d.(sent := d.sent + Broadcast(d.books, order))
  }

  /** The desk after a snapshot was replayed and the securities of `order` were published. */
  function Replayed(d: Desk, recovery: seq<Book>, order: seq<uint32>): Desk {
    Announcing(d.(books := RunBooks(d.books, recovery)), order)
  }

  /** `order` lists the elements of `ids`, each once. */
  ghost predicate Enumerates(order: seq<uint32>, ids: set<uint32>) {
    if order == [] then ids == {}
    else
      var id := order[|order| - 1];
      id in ids && Enumerates(order[..|order| - 1], ids - {id})
  }

  /** Publishing `id` takes it from the ones that are left. */
  lemma OneMore(order: seq<uint32>, ids: set<uint32>, rest: set<uint32>, id: uint32)
    requires Enumerates(order, ids - rest) && rest <= ids && id in rest
    ensures Enumerates(order + [id], ids - (rest - {id}))
  {
    assert (order + [id])[..|order|] == order;
    assert ids - (rest - {id}) - {id} == ids - rest;
  }

  /** Sending the book of one more security extends the broadcast. */
  lemma SentMore(before: seq<Sent>, bs: Books, order: seq<uint32>, id: uint32)
    requires id in bs
    ensures before + Broadcast(bs, order + [id])
            == (before + Broadcast(bs, order)) + ([SendL2(bs[id])] + SendBbo(bs[id]))
  {
    assert (order + [id])[..|order|] == order;
    Assoc(before, Broadcast(bs, order), [SendL2(bs[id])] + SendBbo(bs[id]));
  }

  lemma {:induction false} TouchedIsDefined(bs: Books, books: seq<Book>)
    ensures Touched(bs, books) <= bs.Keys
  {
    if books != [] {
      TouchedIsDefined(bs, books[..|books| - 1]);
      SymbolsStay(bs, books[..|books| - 1]);
    }
  }

  /** What goes out for an entry, given what the controller reports about it. */
  function SentBy(b: Book, flag: nat, state: Option<BookValue>, contract: string): seq<Sent> {
    if flag == 2 && state.Some? then [SendL2(state.value)] + if IsBboChanged(b) then SendBbo(state.value) else []
    else if flag == 3 && !IsDeletion(b.updateAction) then [TradeSent(contract, DataPoint(b.entryPx, b.entrySize))]
    else []
  }

  /** The state the controller reports is the updated one, so what goes out is what `Announced` says. */
  lemma ReportIsAnnounced(bs: Books, b: Book, state: Option<BookValue>, contract: string)
    requires state.Some? <==> FlagOf(bs, b) == 2 && Takes(bs[b.securityID], b)
    requires state.Some? ==> state.value == Updated(bs[b.securityID], b)
    ensures SentBy(b, FlagOf(bs, b), state, contract) == Announced(bs, b, contract)
  {
  }

  class BookManager {
    const controller: BookStateController
    const recovery: RecoveryManager
    var instruments: map<uint32, Instrument>
    /** What the market listener was sent. */
    var sent: seq<Sent>
    /** The value of all this between calls. */
    ghost var desk: Desk

    ghost predicate Sound()
      reads controller, controller.owned, recovery
    {
      controller.Valid() && recovery.Valid() && recovery.controller == controller
    }

    ghost predicate Valid()
      reads `desk, `instruments, `sent, controller, controller.owned, recovery
    {
      Sound() && desk == View()
    }

    function View(): Desk
      requires controller.Valid()
      reads `instruments, `sent, controller, controller.owned
    {
      Desk(controller.View(), instruments, sent)
    }

    constructor ()
      ensures Valid() && desk == Desk(map[], map[], []) && recovery.recoveryBooks == [] && recovery.waitMerge == 0
      ensures fresh(controller) && fresh(recovery) && controller.owned == {}
    {
      var c := new BookStateController();
      controller := c;
      recovery := new RecoveryManager(c);
      instruments, sent := map[], [];
      desk := Desk(map[], map[], []);
    }

    /** What the controller reports goes out: the book of a changed state and, if its top may have changed,
        the best bid and offer; or a trade. */
    method Send(b: Book, flag: nat, state: BookState?, contract: string)
      modifies `sent
      ensures sent == old(sent) + SentBy(b, flag, if state == null then None else Some(state.Value()), contract)
      ensures flag == 2 && state != null ==>
                |sent| > |old(sent)| && Depicts(sent[|old(sent)|], state.Value())
    {
      if flag == 2 && state != null {
        sent := sent + [SendL2(state.Value())];
        if IsBboChanged(b) {
          SendBestPrices(state);
        }
      } else if flag == 3 {
        if IsDeletion(b.updateAction) {
          return;
        }
        sent := sent + [TradeSent(contract, DataPoint(b.entryPx, b.entrySize))];
      }
    }

    method SendBestPrices(state: BookState)
      modifies `sent
      ensures sent == old(sent) + SendBbo(state.Value())
      ensures if state.bid == [] && state.ask == [] then sent == old(sent)
              else |sent| == |old(sent)| + 1 && TellsBest(sent[|old(sent)|], state.Value())
    {
      var isBidEmpty, isAskEmpty := state.bid == [], state.ask == [];
      if isBidEmpty && isAskEmpty {
      } else if !isBidEmpty && !isAskEmpty {
        sent := sent + [BBO(state.symbol, Point(state.bid[0]), Point(state.ask[0]))];
      } else if isBidEmpty {
        sent := sent + [OfferOnly(state.symbol, Point(state.ask[0]))];
      } else {
        sent := sent + [BidOnly(state.symbol, Point(state.bid[0]))];
      }
    }

    method HandleBook(b: Book)
      requires Sound()
      modifies `sent, controller.owned
      ensures Sound() && controller.owned == old(controller.owned)
      ensures View() == DeskHandle(old(View()), b)
    {
      ghost var before := controller.View();
      var flag, state := controller.ModifyState(b);
      var contract := if b.securityID in instruments then instruments[b.securityID].symbol else "";
      assert state != null ==> state.Value() == controller.View()[b.securityID];
      ReportIsAnnounced(before, b, if state == null then None else Some(state.Value()), contract);
      Send(b, flag, state, contract);
    }

    method OnDefinition(i: Instrument)
      requires Sound()
      modifies `instruments, `sent, controller, controller.owned
      ensures Sound() && fresh(controller.owned - old(controller.owned))
      ensures View() == DeskDefine(old(View()), i)
    {
      if i.action == Remove {
        instruments := instruments - {i.securityID};
        return;
      }
      instruments := instruments[i.securityID := i];
      sent := sent + [ContractDefinition(i.symbol)];
      controller.CreateOrShrink(i);
    }

    method OnDefinitions(defs: seq<Instrument>)
      requires Valid()
      modifies this, controller, controller.owned
      ensures Valid() && fresh(controller.owned - old(controller.owned))
      ensures desk == DeskDefineAll(old(desk), defs)
    {
      for k := 0 to |defs|
        invariant Sound() && fresh(controller.owned - old(controller.owned))
        invariant desk == old(desk) && View() == DeskDefineAll(desk, defs[..k])
      {
        assert defs[..k + 1][..k] == defs[..k];
        OnDefinition(defs[k]);
      }
      assert defs[..|defs|] == defs;
      desk := View();
    }

    method HandleBooks(books: seq<Book>)
      requires Sound()
      modifies `sent, controller.owned
      ensures Sound() && controller.owned == old(controller.owned)
      ensures View() == DeskHandleAll(old(View()), books)
    {
      for k := 0 to |books|
        invariant Sound() && controller.owned == old(controller.owned)
        invariant View() == DeskHandleAll(old(View()), books[..k])
      {
        assert books[..k + 1][..k] == books[..k];
        HandleBook(books[k]);
      }
      assert books[..|books|] == books;
    }

    /** The entries of a message, without those that the snapshot covers. */
    method HandleUncovered(n: uint32, books: seq<Book>)
      requires Sound() && recovery.PassedOlderThan(n)
      modifies `sent, controller.owned, recovery`waitMerge
      ensures Sound() && recovery.PassedOlderThan(n) && controller.owned == old(controller.owned)
      ensures View() == DeskHandleAll(old(View()), Left(recovery.recoveryBooks, n, books))
    {
      var left := recovery.RemovePastBooks(n, books);
      HandleBooks(left);
    }

    method HandleEntries(n: uint32, books: seq<Book>)
      requires Valid() && recovery.PassedOlderThan(n)
      modifies `sent, `desk, controller.owned, recovery`waitMerge
      ensures Valid() && recovery.PassedOlderThan(n) && controller.owned == old(controller.owned)
      ensures desk == DeskHandleAll(old(desk), Left(recovery.recoveryBooks, n, books))
    {
      HandleUncovered(n, books);
      desk := View();
    }

    /** Messages come with non-decreasing numbers. */
    method ParseToSend(m: MdpMessage)
      requires Valid() && recovery.PassedOlderThan(m.packetSeqNum)
      modifies this, controller, controller.owned, recovery`waitMerge
      ensures Valid() && recovery.PassedOlderThan(m.packetSeqNum)
      ensures fresh(controller.owned - old(controller.owned))
      ensures desk == DeskMessage(old(desk), recovery.recoveryBooks, m)
    {
      match m.body
      case Books(books) =>
        if books == [] {
          assert Left(recovery.recoveryBooks, m.packetSeqNum, books) == [];
          return;
        }
        HandleEntries(m.packetSeqNum, books);
      case Definitions(defs) =>
        OnDefinitions(defs);
      case Unparsed =>
    }

    method SendState(state: BookState)
      modifies `sent
      ensures sent == old(sent) + ([SendL2(state.Value())] + SendBbo(state.Value()))
    {
      sent := sent + [SendL2(state.Value())];
      SendBestPrices(state);
    }

    method SendSecurity(id: uint32)
      requires controller.Valid() && id in controller.View()
      modifies `sent
      ensures var v := controller.View()[id]; sent == old(sent) + ([SendL2(v)] + SendBbo(v))
    {
      SendState(controller.states[id]);
    }

    /** Publishes each of some securities once; the order is up to the set. */
    method SendStates(ids: set<uint32>) returns (ghost order: seq<uint32>)
      requires Sound() && ids <= View().books.Keys
      modifies `sent
      ensures Enumerates(order, ids)
      ensures View() == Announcing(old(View()), order)
    {
      ghost var bs, before := controller.View(), sent;
      var rest := ids;
      order := [];
      assert ids - rest == {};
      while rest != {}
        invariant rest <= ids && Enumerates(order, ids - rest)
        invariant sent == before + Broadcast(bs, order)
        decreases rest
      {
        var id :| id in rest;
        OneMore(order, ids, rest, id);
        SentMore(before, bs, order, id);
        assert controller.View() == bs;
        SendSecurity(id);
        order, rest := order + [id], rest - {id};
      }
      assert ids - rest == ids;
    }

    /** Replays the snapshot and publishes each security it changed once, in some order. */
    method ReplayAndSend(datas: seq<RecoveryMessage>) returns (ghost order: seq<uint32>)
      requires Sound()
      modifies `sent, recovery, controller.owned
      ensures Sound() && controller.owned == old(controller.owned)
      ensures recovery.recoveryBooks == old(recovery.recoveryBooks) + AllBooks(datas) && recovery.waitMerge == 0
      ensures Enumerates(order, Touched(old(View()).books, recovery.recoveryBooks))
      ensures View() == Replayed(old(View()), recovery.recoveryBooks, order)
    {
      var touched := LoadRecovery(datas);
      order := SendStates(touched);
    }

    method ParseRecovery(datas: seq<RecoveryMessage>) returns (ghost order: seq<uint32>)
      requires Valid()
      modifies this, recovery, controller.owned
      ensures Valid() && controller.owned == old(controller.owned)
      ensures recovery.recoveryBooks == old(recovery.recoveryBooks) + AllBooks(datas) && recovery.waitMerge == 0
      ensures Enumerates(order, Touched(old(desk).books, recovery.recoveryBooks))
      ensures desk == Replayed(old(desk), recovery.recoveryBooks, order)
    {
      order := ReplayAndSend(datas);
      desk := View();
    }

    /** Replays the snapshot into the books without publishing anything yet. */
    method LoadRecovery(datas: seq<RecoveryMessage>) returns (touched: set<uint32>)
      requires Sound()
      modifies recovery, controller.owned
      ensures Sound() && controller.owned == old(controller.owned)
      ensures recovery.recoveryBooks == old(recovery.recoveryBooks) + AllBooks(datas) && recovery.waitMerge == 0
      ensures touched == Touched(old(View()).books, recovery.recoveryBooks) && touched <= View().books.Keys
      ensures View() == old(View()).(books := RunBooks(old(View()).books, recovery.recoveryBooks))
    {
      ghost var before := controller.View();
      touched := recovery.OnNewRecovery(datas);
      TouchedIsDefined(before, recovery.recoveryBooks);
      assert RunBooks(before, recovery.recoveryBooks).Keys == before.Keys by {
        SymbolsStay(before, recovery.recoveryBooks);
      }
    }
  }
}
