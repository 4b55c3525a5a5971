/** Market-by-price book management on values: one reading of every level operation. */
module BookLevels {
  import opened Types

  datatype BookPrice = BookPrice(numberOfOrders: uint32, entrySize: uint32, entryPx: Price)

  const BLANK := BookPrice(0, 0, (0, 0))

  type Side = seq<BookPrice>

  /** A side read as a total function from level to row; a level that is not stored is blank. */
  function Row(s: Side, i: int): BookPrice {
    if 0 <= i < |s| then s[i] else BLANK
  }

  function Min(a: int, b: int): int {
    if a <= b then a else b
  }

  function Max(a: int, b: int): int {
    if a >= b then a else b
  }

  /** What one book entry asks of one side. */
  datatype LevelOp = LevelOp(action: UpdateAction, level: nat, row: BookPrice)

  predicate Accepted(depth: nat, s: Side, op: LevelOp) {
    match op.action
    case New => 1 <= op.level <= depth
    case DeleteFrom => 1 <= op.level <= depth
    case Change => 1 <= op.level <= depth && op.level <= |s|
    case Delete => 1 <= op.level <= depth && op.level <= |s|
    case DeleteThru => true
    case Overlay => false
    case NullAction => false
  }

  /** How many rows an accepted operation leaves. */
  function SizeAfter(depth: nat, s: Side, op: LevelOp): (n: nat)
    requires Accepted(depth, s, op)
  {
    match op.action
    case New => Min(depth, Max(|s| + 1, op.level))
    case Change => |s|
    case Delete => |s| - 1
    case DeleteThru => 0
    case DeleteFrom => Max(0, |s| - op.level)
  }

  /** Which row an accepted operation puts at index `i`: New shifts down from its level, Delete shifts up
      from its level, DeleteFrom shifts up by its level, Change replaces and DeleteThru blanks. */
  function RowAfter(s: Side, op: LevelOp, i: nat): BookPrice {
    match op.action
    case New => if i < op.level - 1 then Row(s, i) else if i == op.level - 1 then op.row else Row(s, i - 1)
    case Change => if i == op.level - 1 then op.row else Row(s, i)
    case Delete => if i < op.level - 1 then Row(s, i) else Row(s, i + 1)
    case DeleteThru => BLANK
    case DeleteFrom => Row(s, i + op.level)
    case Overlay => Row(s, i)
    case NullAction => Row(s, i)
  }

  function Apply(depth: nat, s: Side, op: LevelOp): Side {
    if !Accepted(depth, s, op) then s
    else seq(SizeAfter(depth, s, op), i requires 0 <= i => RowAfter(s, op, i))
  }

  /** The value of one security's book. */
  datatype BookValue = BookValue(
    bookType: uint8,
    securityID: uint32,
    symbol: string,
    marketDepth: uint8,
    bid: Side,
    ask: Side)

  type Books = map<uint32, BookValue>

  function SideOf(v: BookValue, entryType: EntryType): Side {
    if entryType == Bid then v.bid else v.ask
  }

  function WithSide(v: BookValue, entryType: EntryType, s: Side): BookValue {
    if entryType == Bid then v.(bid := s) else v.(ask := s)
  }

  /** A snapshot entry is a New whatever its action field says. */
  function ToOp(b: Book): LevelOp {
    LevelOp(if b.kind == Snapshot then New else b.updateAction, b.priceLevel,
            BookPrice(b.numberOfOrders, b.entrySize, b.entryPx))
  }

  /** Whether a bid or offer entry changes the book of its security. */
  predicate Takes(v: BookValue, b: Book) {
    b.kind != OtherKind && Accepted(v.marketDepth, SideOf(v, b.entryType), ToOp(b))
  }

  function Updated(v: BookValue, b: Book): BookValue {
    if b.kind == OtherKind then v
    else WithSide(v, b.entryType, Apply(v.marketDepth, SideOf(v, b.entryType), ToOp(b)))
  }

  function Cleared(bs: Books): Books {
    map k | k in bs :: bs[k].(bid := [], ask := [])
  }

  predicate IsQuote(b: Book) {
    b.entryType == Bid || b.entryType == Offer
  }

  /** The effect of one entry on all books: a reset clears every book, a bid or offer updates the book of
      its security if that is defined, and everything else changes nothing. */
  function Modified(bs: Books, b: Book): Books {
    if b.entryType == BookReset then Cleared(bs)
    else if b.securityID in bs && IsQuote(b) then bs[b.securityID := Updated(bs[b.securityID], b)]
    else bs
  }

  function Shrunk(v: BookValue, depth: uint8): BookValue {
    v.(marketDepth := depth, bid := v.bid[..Min(|v.bid|, depth)], ask := v.ask[..Min(|v.ask|, depth)])
  }

  /** The effect of one definition on all books. */
  function Defined(bs: Books, i: Instrument): Books {
    if i.action == Remove then bs - {i.securityID}
    else if i.securityID in bs then bs[i.securityID := Shrunk(bs[i.securityID], i.depth).(symbol := i.symbol)]
    else bs[i.securityID := BookValue(1, i.securityID, i.symbol, i.depth, [], [])]
  }

  predicate WithinDepth(v: BookValue) {
    |v.bid| <= v.marketDepth && |v.ask| <= v.marketDepth
  }

  predicate AllWithinDepth(bs: Books) {
    forall k :: k in bs ==> WithinDepth(bs[k])
  }

  lemma UpdateKeepsDepth(v: BookValue, b: Book)
    requires WithinDepth(v)
    ensures WithinDepth(Updated(v, b))
  {
  }
}
