/** The quotes that the consumer has published after a snapshot, definitions and increments. */
module ConsumerQuotes {
  import opened Types
  import opened BookLevels
  import opened BookRuns
  import opened Recovery
  import opened Publication
  import opened BookManagement
  import opened Saver

  /** One entry or one definition; the definition manager keeps removals to itself. */
  function DeskStep(d: Desk, e: Event): Desk {
    match e
    case OnBook(b) => DeskHandle(d, b)
    case OnDefinition(i) => DeskDefine(d, i)
  }

  function DeskRun(d: Desk, es: seq<Event>): Desk {
    if es == [] then d else DeskStep(DeskRun(d, es[..|es| - 1]), es[|es| - 1])
  }

  predicate IsRemoval(e: Event) {
    e.OnDefinition? && e.instrument.action == Remove
  }

  /** The events that reach the books. */
  function Reaching(es: seq<Event>): seq<Event> {
    if es == [] then []
    else Reaching(es[..|es| - 1]) + if IsRemoval(es[|es| - 1]) then [] else [es[|es| - 1]]
  }

  function AsDefinitions(instruments: seq<Instrument>): seq<Event> {
    seq(|instruments|, i requires 0 <= i < |instruments| => OnDefinition(instruments[i]))
  }

  /** What one message is to the book manager. */
  function EventsOfMessage(recovery: seq<Book>, m: MdpMessage): seq<Event> {
    match m.body
    case Books(books) => AsEvents(Left(recovery, m.packetSeqNum, books))
    case Definitions(instruments) => AsDefinitions(instruments)
    case Unparsed => []
  }

  function EventsOf(recovery: seq<Book>, firstSeq: int, ms: seq<MdpMessage>): seq<Event> {
    if ms == [] then []
    else
      var m := ms[|ms| - 1];
      EventsOf(recovery, firstSeq, ms[..|ms| - 1])
      + if m.packetSeqNum <= firstSeq then [] else EventsOfMessage(recovery, m)
  }

  lemma {:induction false} DeskRunConcat(d: Desk, a: seq<Event>, b: seq<Event>)
    ensures DeskRun(d, a + b) == DeskRun(DeskRun(d, a), b)
  {
    if b == [] {
      assert a + b == a;
    } else {
      assert (a + b)[..|a + b| - 1] == a + b[..|b| - 1];
      DeskRunConcat(d, a, b[..|b| - 1]);
    }
  }

  lemma {:induction false} HandleAllIsRun(d: Desk, books: seq<Book>)
    ensures DeskHandleAll(d, books) == DeskRun(d, AsEvents(books))
  {
    if books != [] {
      HandleAllIsRun(d, books[..|books| - 1]);
      assert AsEvents(books)[..|books| - 1] == AsEvents(books[..|books| - 1]);
    }
  }

  lemma {:induction false} DefineAllIsRun(d: Desk, instruments: seq<Instrument>)
    ensures DeskDefineAll(d, instruments) == DeskRun(d, AsDefinitions(instruments))
  {
    if instruments != [] {
      DefineAllIsRun(d, instruments[..|instruments| - 1]);
      assert AsDefinitions(instruments)[..|instruments| - 1] == AsDefinitions(instruments[..|instruments| - 1]);
    }
  }

  lemma MessageIsRun(d: Desk, recovery: seq<Book>, m: MdpMessage)
    ensures DeskMessage(d, recovery, m) == DeskRun(d, EventsOfMessage(recovery, m))
  {
    match m.body
    case Books(books) => HandleAllIsRun(d, Left(recovery, m.packetSeqNum, books));
    case Definitions(instruments) => DefineAllIsRun(d, instruments);
    case Unparsed =>
  }

  /** Consuming messages is running their events. */
  lemma {:induction false} ConsumeIsRun(d: Desk, recovery: seq<Book>, firstSeq: int, ms: seq<MdpMessage>)
    ensures Consume(d, recovery, firstSeq, ms) == DeskRun(d, EventsOf(recovery, firstSeq, ms))
  {
    if ms != [] {
      var front, m := ms[..|ms| - 1], ms[|ms| - 1];
      var before := EventsOf(recovery, firstSeq, front);
      ConsumeIsRun(d, recovery, firstSeq, front);
      if m.packetSeqNum <= firstSeq {
        assert before + [] == before;
      } else {
        MessageIsRun(DeskRun(d, before), recovery, m);
        DeskRunConcat(d, before, EventsOfMessage(recovery, m));
      }
    }
  }

  /* ---------- the quotes under one symbol ---------- */

  /** `c` is the symbol of `id`, if that is defined, and of no other security. */
  predicate Owns(bs: Books, id: uint32, c: string) {
    forall k :: k in bs ==> (k == id <==> bs[k].symbol == c)
  }

  /** Definitions keep it that way. */
  predicate KeepsSymbol(es: seq<Event>, id: uint32, c: string) {
    forall i :: 0 <= i < |es| && es[i].OnDefinition? ==>
                  (es[i].instrument.securityID == id <==> es[i].instrument.symbol == c)
  }

  lemma OwnsOn(bs: Books, e: Event, id: uint32, c: string)
    requires Owns(bs, id, c)
    requires e.OnDefinition? ==> (e.instrument.securityID == id <==> e.instrument.symbol == c)
    ensures Owns(EventStep(bs, e), id, c)
  {
  }

  /** What an event sends under the symbol are the quotes of the security. */
  lemma SentUnder(bs: Books, b: Book, id: uint32, c: string, contract: string)
    requires Owns(bs, id, c)
    ensures LastQuoteFor(Announced(bs, b, contract), c) == LastQuote(SentFor(bs, OnBook(b), id, c))
  {
    QuotesCarrySymbol(bs, b, contract);
    if b.securityID == id {
      AllUnder(Announced(bs, b, contract), c);
      QuotesIgnoreContract(bs, b, id, contract, c);
    } else {
      NoneUnder(Announced(bs, b, contract), c);
    }
  }

  /** The last quote under a symbol, if `later` has none the one of before. */
  function OrElse(later: Option<Quote>, before: Option<Quote>): Option<Quote> {
    if later.Some? then later else before
  }

  /** A desk that a run of events led to, as far as one security is concerned. */
  ghost predicate Shows(d: Desk, bs: Books, es: seq<Event>, id: uint32, c: string, before: Option<Quote>) {
    && d.books == RunEvents(bs, es) && Owns(d.books, id, c)
    && LastQuoteFor(d.sent, c) == OrElse(LastQuote(LogFor(bs, es, id, c)), before)
  }

  lemma LogMore(bs: Books, es: seq<Event>, e: Event, id: uint32, c: string)
    ensures RunEvents(bs, es + [e]) == EventStep(RunEvents(bs, es), e)
    ensures LastQuote(LogFor(bs, es + [e], id, c))
            == OrElse(LastQuote(SentFor(RunEvents(bs, es), e, id, c)), LastQuote(LogFor(bs, es, id, c)))
  {
    assert (es + [e])[..|es|] == es;
    LastQuoteConcat(LogFor(bs, es, id, c), SentFor(RunEvents(bs, es), e, id, c));
  }

  lemma ShowsBook(d: Desk, bs: Books, es: seq<Event>, b: Book, id: uint32, c: string, before: Option<Quote>)
    requires Shows(d, bs, es, id, c, before)
    ensures Shows(DeskHandle(d, b), bs, es + [OnBook(b)], id, c, before)
  {
    var contract := SymbolOf(d, b.securityID);
    OwnsOn(d.books, OnBook(b), id, c);
    SentUnder(d.books, b, id, c, contract);
    LastQuoteForConcat(d.sent, Announced(d.books, b, contract), c);
    LogMore(bs, es, OnBook(b), id, c);
  }

  lemma DefinitionIsQuiet(bs: Books, i: Instrument, id: uint32, c: string)
    ensures LastQuote(SentFor(bs, OnDefinition(i), id, c)) == None
    ensures LastQuoteFor([ContractDefinition(i.symbol)], c) == None
  {
    LastOfOne(ContractDefinition(i.symbol));
    NoneUnder([ContractDefinition(i.symbol)], c);
  }

  lemma ShowsDefinition(d: Desk, bs: Books, es: seq<Event>, i: Instrument, id: uint32, c: string, before: Option<Quote>)
    requires Shows(d, bs, es, id, c, before) && i.action != Remove && (i.securityID == id <==> i.symbol == c)
    ensures Shows(DeskDefine(d, i), bs, es + [OnDefinition(i)], id, c, before)
  {
    OwnsOn(d.books, OnDefinition(i), id, c);
    DefinitionIsQuiet(d.books, i, id, c);
    LastQuoteForConcat(d.sent, [ContractDefinition(i.symbol)], c);
    LogMore(bs, es, OnDefinition(i), id, c);
  }

  lemma {:induction false} RunShows(d: Desk, es: seq<Event>, id: uint32, c: string)
    requires Owns(d.books, id, c) && KeepsSymbol(es, id, c)
    ensures Shows(DeskRun(d, es), d.books, Reaching(es), id, c, LastQuoteFor(d.sent, c))
  {
    if es != [] {
      var front, e := es[..|es| - 1], es[|es| - 1];
      RunShows(d, front, id, c);
      match e
      case OnBook(b) => ShowsBook(DeskRun(d, front), d.books, Reaching(front), b, id, c, LastQuoteFor(d.sent, c));
      case OnDefinition(i) =>
        if i.action == Remove {
          assert Reaching(front) + [] == Reaching(front);
        } else {
          ShowsDefinition(DeskRun(d, front), d.books, Reaching(front), i, id, c, LastQuoteFor(d.sent, c));
        }
    }
  }

  /** After any messages, with definitions among them: the last quote under the symbol of a security is the current
      top if the last event that may have moved it left a side non-empty; without such an event neither the quote
      nor the top has changed. */
  lemma ConsumedQuoteIsTop(d: Desk, recovery: seq<Book>, firstSeq: int, ms: seq<MdpMessage>, id: uint32, c: string)
    requires Owns(d.books, id, c) && KeepsSymbol(EventsOf(recovery, firstSeq, ms), id, c)
    ensures var after := Consume(d, recovery, firstSeq, ms);
            var now, quote := Top(At(after.books, id)), LastQuoteFor(after.sent, c);
            match LastMoveLeftRows(d.books, Reaching(EventsOf(recovery, firstSeq, ms)), id)
            case None => quote == LastQuoteFor(d.sent, c) && now == Top(At(d.books, id))
            case Some(left) => if left then quote == Some(now) else now == Quote(NOTHING, NOTHING)
  {
    var es := EventsOf(recovery, firstSeq, ms);
    ConsumeIsRun(d, recovery, firstSeq, ms);
    RunShows(d, es, id, c);
    LastQuoteTracksTop(d.books, Reaching(es), id, c);
  }

  /* ---------- the snapshot ---------- */

  lemma QuoteOfBook(v: BookValue, c: string)
    ensures LastQuoteFor([SendL2(v)] + SendBbo(v), c)
            == if v.symbol == c && !IsEmpty(Some(v)) then Some(Top(Some(v))) else None
  {
    QuoteSent(v);
    if v.symbol == c {
      AllUnder([SendL2(v)] + SendBbo(v), c);
    } else {
      NoneUnder([SendL2(v)] + SendBbo(v), c);
    }
  }

  /** What is published for a list of securities shows the top of each that is in it and has rows. */
  lemma {:induction false} BroadcastShows(bs: Books, order: seq<uint32>, id: uint32, c: string)
    requires Owns(bs, id, c) && id in bs
    ensures LastQuoteFor(Broadcast(bs, order), c)
            == if id in order && !IsEmpty(At(bs, id)) then Some(Top(At(bs, id))) else None
  {
    if order != [] {
      var front, last := order[..|order| - 1], order[|order| - 1];
      BroadcastShows(bs, front, id, c);
      assert order == front + [last];
      if last in bs {
        QuoteOfBook(bs[last], c);
        LastQuoteForConcat(Broadcast(bs, front), [SendL2(bs[last])] + SendBbo(bs[last]), c);
      } else {
        assert Broadcast(bs, front) + [] == Broadcast(bs, front);
      }
    }
  }

  lemma {:induction false} EnumeratesAll(order: seq<uint32>, ids: set<uint32>)
    requires Enumerates(order, ids)
    ensures forall id :: id in order <==> id in ids
  {
    if order != [] {
      var front, last := order[..|order| - 1], order[|order| - 1];
      EnumeratesAll(front, ids - {last});
      assert order == front + [last];
    }
  }

  lemma OwnsAfter(bs: Books, books: seq<Book>, id: uint32, c: string)
    requires Owns(bs, id, c)
    ensures Owns(RunBooks(bs, books), id, c)
  {
    SymbolsStay(bs, books);
  }

  /** After a snapshot was replayed and published, the last quote of every security that it changed and that has
      rows is its top. */
  lemma SnapshotQuoteIsTop(d: Desk, recovery: seq<Book>, order: seq<uint32>, id: uint32, c: string)
    requires Owns(d.books, id, c) && Enumerates(order, Touched(d.books, recovery))
    requires id in Touched(d.books, recovery) && !IsEmpty(At(RunBooks(d.books, recovery), id))
    ensures var after := Replayed(d, recovery, order);
            Owns(after.books, id, c) && LastQuoteFor(after.sent, c) == Some(Top(At(after.books, id)))
  {
    var bs := RunBooks(d.books, recovery);
    OwnsAfter(d.books, recovery, id, c);
    EnumeratesAll(order, Touched(d.books, recovery));
    BroadcastShows(bs, order, id, c);
    LastQuoteForConcat(d.sent, Broadcast(bs, order), c);
  }

  /** A late joiner: after the snapshot and any messages, the last quote of a security that the snapshot changed is
      its current top, unless the last event that may have moved it, or without one the snapshot, left both of its
      sides empty. */
  lemma LateQuoteIsTop(d: Desk, recovery: seq<Book>, order: seq<uint32>, firstSeq: int, ms: seq<MdpMessage>,
                       id: uint32, c: string)
    requires Owns(d.books, id, c) && KeepsSymbol(EventsOf(recovery, firstSeq, ms), id, c)
    requires Enumerates(order, Touched(d.books, recovery)) && id in Touched(d.books, recovery)
    ensures var start := Replayed(d, recovery, order);
            var after := Consume(start, recovery, firstSeq, ms);
            var moved := LastMoveLeftRows(start.books, Reaching(EventsOf(recovery, firstSeq, ms)), id);
            (if moved.Some? then moved.value else !IsEmpty(At(start.books, id))) ==>
              LastQuoteFor(after.sent, c) == Some(Top(At(after.books, id)))
  {
    var start := Replayed(d, recovery, order);
    OwnsAfter(d.books, recovery, id, c);
    ConsumedQuoteIsTop(start, recovery, firstSeq, ms, id, c);
    if !IsEmpty(At(start.books, id)) {
      SnapshotQuoteIsTop(d, recovery, order, id, c);
    }
  }
}
