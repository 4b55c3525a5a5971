/** Which quotes the book manager publishes, and when the last one still is the top of the book. */
module Publication {
  import opened Types
  import opened BookLevels
  import opened BookRuns
  import opened BookStates

  datatype DataPoint = DataPoint(price: Price, size: uint32)

  /** What goes to the market listener. */
  datatype Sent =
    | L2(contract: string, bids: seq<DataPoint>, offers: seq<DataPoint>)
    | BBO(contract: string, bid: DataPoint, offer: DataPoint)
    | BidOnly(contract: string, bid: DataPoint)
    | OfferOnly(contract: string, offer: DataPoint)
    | TradeSent(contract: string, last: DataPoint)
    | ContractDefinition(contract: string)

  function Point(r: BookPrice): DataPoint {
    DataPoint(r.entryPx, r.entrySize)
  }

  function Points(s: Side): seq<DataPoint> {
    seq(|s|, i requires 0 <= i < |s| => Point(s[i]))
  }

  /** Whether an entry can change the best bid or offer. */
  predicate IsBboChanged(b: Book) {
    match b.kind
    case Snapshot => b.priceLevel == 1
    case Increment => (
      match b.updateAction
      case New => b.priceLevel == 1
      case Change => b.priceLevel == 1
      case Delete => b.priceLevel == 1
      case DeleteThru => true
      case DeleteFrom => true
      case Overlay => false
      case NullAction => false)
    case OtherKind => false
  }

  function SendL2(v: BookValue): Sent {
    L2(v.symbol, Points(v.bid), Points(v.ask))
  }

  function SendBbo(v: BookValue): seq<Sent> {
    if v.bid == [] && v.ask == [] then []
    else if v.bid != [] && v.ask != [] then [BBO(v.symbol, Point(v.bid[0]), Point(v.ask[0]))]
    else if v.bid == [] then [OfferOnly(v.symbol, Point(v.ask[0]))]
    else [BidOnly(v.symbol, Point(v.bid[0]))]
  }

  predicate IsDeletion(a: UpdateAction) {
    a == Delete || a == DeleteThru || a == DeleteFrom
  }

  /** What one entry makes the book manager send, given the books before it. */
  function Announced(bs: Books, b: Book, contract: string): seq<Sent> {
    if FlagOf(bs, b) == 2 && Takes(bs[b.securityID], b) then
      var v := Updated(bs[b.securityID], b);
      [SendL2(v)] + if IsBboChanged(b) then SendBbo(v) else []
    else if FlagOf(bs, b) == 3 && !IsDeletion(b.updateAction) then
      [TradeSent(contract, DataPoint(b.entryPx, b.entrySize))]
    else []
  }

  /* ---------- what a message shows ---------- */

  /** One side of a level-2 message shows prices and sizes of a side of the book, level by level. */
  predicate ShowsRows(points: seq<DataPoint>, side: Side) {
    && |points| == |side|
    && forall i :: 0 <= i < |side| ==> points[i].price == side[i].entryPx && points[i].size == side[i].entrySize
  }

  /** A level-2 message that shows the book `v`: bids under bids and asks under offers. */
  predicate Depicts(m: Sent, v: BookValue) {
    m.L2? && m.contract == v.symbol && ShowsRows(m.bids, v.bid) && ShowsRows(m.offers, v.ask)
  }

  predicate ShowsFirst(p: DataPoint, side: Side) {
    side != [] && p.price == side[0].entryPx && p.size == side[0].entrySize
  }

  /** A message with the best prices of `v`: both, or the one of the only side that has rows. */
  predicate TellsBest(m: Sent, v: BookValue) {
    && m.contract == v.symbol
    && (if v.ask == [] then m.BidOnly? && ShowsFirst(m.bid, v.bid)
        else if v.bid == [] then m.OfferOnly? && ShowsFirst(m.offer, v.ask)
        else m.BBO? && ShowsFirst(m.bid, v.bid) && ShowsFirst(m.offer, v.ask))
  }

  /** What goes out for a book. */
  lemma BookSays(v: BookValue)
    ensures Depicts(SendL2(v), v)
    ensures if v.bid != [] || v.ask != [] then |SendBbo(v)| == 1 && TellsBest(SendBbo(v)[0], v) else SendBbo(v) == []
  {
  }

  /* ---------- the quote a subscriber sees ---------- */

  /** Best bid and best offer; a side that a message leaves out reads as blank. */
  datatype Quote = Quote(bid: DataPoint, offer: DataPoint)

  const NOTHING := Point(BLANK)

  function AsQuote(m: Sent): Option<Quote> {
    match m
    case BBO(_, bid, offer) => Some(Quote(bid, offer))
    case BidOnly(_, bid) => Some(Quote(bid, NOTHING))
    case OfferOnly(_, offer) => Some(Quote(NOTHING, offer))
    case L2(_, _, _) => None
    case TradeSent(_, _) => None
    case ContractDefinition(_) => None
  }

  /** The last quote of a log. */
  function LastQuote(log: seq<Sent>): Option<Quote> {
    if log == [] then None
    else if AsQuote(log[|log| - 1]).Some? then AsQuote(log[|log| - 1])
    else LastQuote(log[..|log| - 1])
  }

  /** The current top of a security; no book reads as an empty one. */
  function Top(v: Option<BookValue>): Quote {
    if v.None? then Quote(NOTHING, NOTHING)
    else Quote(Point(Row(v.value.bid, 0)), Point(Row(v.value.ask, 0)))
  }

  predicate IsEmpty(v: Option<BookValue>) {
    v.None? || (v.value.bid == [] && v.value.ask == [])
  }

  /** What an event sends that concerns one security. */
  function SentFor(bs: Books, e: Event, id: uint32, contract: string): seq<Sent> {
    match e
    case OnBook(b) => if b.securityID == id then Announced(bs, b, contract) else []
    case OnDefinition(i) => if i.securityID == id && i.action != Remove then [ContractDefinition(i.symbol)] else []
  }

  function LogFor(bs: Books, es: seq<Event>, id: uint32, contract: string): seq<Sent> {
    if es == [] then []
    else
      var front := es[..|es| - 1];
      LogFor(bs, front, id, contract) + SentFor(RunEvents(bs, front), es[|es| - 1], id, contract)
  }

  /** The events after which the top of a security may be another one: accepted entries that can change the
      best bid or offer, channel resets, removals, and definitions of depth 0. */
  predicate MayMoveTop(bs: Books, e: Event, id: uint32) {
    match e
    case OnBook(b) =>
      b.entryType == BookReset
      || (b.securityID == id && FlagOf(bs, b) == 2 && Takes(bs[id], b) && IsBboChanged(b))
    case OnDefinition(i) => i.securityID == id && (i.action == Remove || i.depth == 0)
  }

  lemma {:induction false} LastQuoteConcat(a: seq<Sent>, b: seq<Sent>)
    ensures LastQuote(a + b) == if LastQuote(b).Some? then LastQuote(b) else LastQuote(a)
  {
    if b == [] {
      assert a + b == a;
    } else {
      assert (a + b)[..|a + b| - 1] == a + b[..|b| - 1];
      LastQuoteConcat(a, b[..|b| - 1]);
    }
  }

  /** Suppressing a quote is sound: an accepted entry that cannot change the best bid or offer leaves the
      first level of both sides as it was. */
  lemma SuppressionIsSound(v: BookValue, b: Book)
    requires IsQuote(b) && Takes(v, b) && !IsBboChanged(b)
    ensures Top(Some(Updated(v, b))) == Top(Some(v))
  {
  }

  /** An event that cannot move the top does not move it and sends no quote. */
  lemma QuietEvent(bs: Books, e: Event, id: uint32, contract: string)
    requires !MayMoveTop(bs, e, id)
    ensures Top(At(EventStep(bs, e), id)) == Top(At(bs, id))
    ensures LastQuote(SentFor(bs, e, id, contract)) == None
  {
    match e
    case OnBook(b) =>
      if b.securityID == id && FlagOf(bs, b) == 2 && Takes(bs[id], b) {
        SuppressionIsSound(bs[id], b);
        LastOfOne(SendL2(Updated(bs[id], b)));
        assert SentFor(bs, e, id, contract) == [SendL2(Updated(bs[id], b))];
      } else if b.securityID == id {
        LastOfOne(TradeSent(contract, DataPoint(b.entryPx, b.entrySize)));
      }
    case OnDefinition(i) =>
      LastOfOne(ContractDefinition(i.symbol));
  }

  lemma LastOfOne(m: Sent)
    ensures LastQuote([m]) == AsQuote(m)
  {
    assert [m][..0] == [];
  }

  /** The quote in what goes out for a changed book. */
  lemma QuoteSent(v: BookValue)
    ensures LastQuote([SendL2(v)] + SendBbo(v)) == if IsEmpty(Some(v)) then None else Some(Top(Some(v)))
  {
    LastQuoteConcat([SendL2(v)], SendBbo(v));
    LastOfOne(SendL2(v));
    if SendBbo(v) != [] {
      LastOfOne(SendBbo(v)[0]);
    }
  }

  /** An event that may move the top sends the new top, unless it leaves both sides empty: then it sends
      no quote at all. */
  lemma MovingEvent(bs: Books, e: Event, id: uint32, contract: string)
    requires MayMoveTop(bs, e, id)
    ensures var after := At(EventStep(bs, e), id);
            LastQuote(SentFor(bs, e, id, contract)) == if IsEmpty(after) then None else Some(Top(after))
  {
    match e
    case OnBook(b) =>
      if b.entryType == BookReset {
        assert SentFor(bs, e, id, contract) == [];
      } else {
        QuoteSent(Updated(bs[id], b));
        assert SentFor(bs, e, id, contract) == [SendL2(Updated(bs[id], b))] + SendBbo(Updated(bs[id], b));
      }
    case OnDefinition(i) =>
      LastOfOne(ContractDefinition(i.symbol));
  }

  /** Whether the last event that may have moved the top left a side non-empty, if there was such an event. */
  function LastMoveLeftRows(bs: Books, es: seq<Event>, id: uint32): Option<bool> {
    if es == [] then None
    else
      var front, e := es[..|es| - 1], es[|es| - 1];
      var before := RunEvents(bs, front);
      if MayMoveTop(before, e, id) then Some(!IsEmpty(At(EventStep(before, e), id)))
      else LastMoveLeftRows(bs, front, id)
  }

  /** Over any run, the last quote sent for a security is its current top if the last event that may have
      moved the top left a side non-empty; if it left both sides empty, no quote was sent since, and the
      current top is blank; without such an event nothing was sent and nothing moved. */
  lemma {:induction false} LastQuoteTracksTop(bs: Books, es: seq<Event>, id: uint32, contract: string)
    ensures var now, last := Top(At(RunEvents(bs, es), id)), LastQuote(LogFor(bs, es, id, contract));
            match LastMoveLeftRows(bs, es, id)
            case None => last == None && now == Top(At(bs, id))
            case Some(left) => if left then last == Some(now) else now == Quote(NOTHING, NOTHING)
  {
    if es != [] {
      var front, e := es[..|es| - 1], es[|es| - 1];
      var before := RunEvents(bs, front);
      LastQuoteTracksTop(bs, front, id, contract);
      LastQuoteConcat(LogFor(bs, front, id, contract), SentFor(before, e, id, contract));
      if MayMoveTop(before, e, id) {
        MovingEvent(before, e, id, contract);
      } else {
        QuietEvent(before, e, id, contract);
      }
    }
  }

  /** Hence the last quote is stale exactly when the last moving event emptied the book after a quote that
      was not blank. */
  lemma StaleExactlyWhenEmptied(bs: Books, es: seq<Event>, id: uint32, contract: string)
    requires LastMoveLeftRows(bs, es, id).Some? && LastQuote(LogFor(bs, es, id, contract)).Some?
    ensures LastQuote(LogFor(bs, es, id, contract)).value == Top(At(RunEvents(bs, es), id))
            <==> LastMoveLeftRows(bs, es, id).value
                 || LastQuote(LogFor(bs, es, id, contract)).value == Quote(NOTHING, NOTHING)
  {
    LastQuoteTracksTop(bs, es, id, contract);
  }
}
