/** What entries and definitions do to a book, read off the deques themselves. */
module LevelOperations {
  import opened Types
  import opened BookLevels
  import opened BookRuns

  /** A change is a deletion followed by an insertion at the same level, whatever row is deleted, for every level
      except the missing ones inside the depth. */
  lemma ChangeIsDeleteThenNew(depth: nat, s: Side, level: nat, row: BookPrice, other: BookPrice)
    requires |s| <= depth
    ensures Apply(depth, s, LevelOp(Change, level, row))
            == Apply(depth, Apply(depth, s, LevelOp(Delete, level, other)), LevelOp(New, level, row))
            <==> level == 0 || level <= |s| || level > depth
  {
    var changed := Apply(depth, s, LevelOp(Change, level, row));
    var deleted := Apply(depth, s, LevelOp(Delete, level, other));
    var again := Apply(depth, deleted, LevelOp(New, level, row));
    if 1 <= level <= |s| {
      assert |again| == |s| && forall i :: 0 <= i < |s| ==> again[i] == changed[i];
    }
  }

  /** `t` is what an entry with this action, level and row makes of the deque `s`. A level that is not there, or lies
      outside the depth, is left alone. */
  ghost predicate Becomes(depth: nat, s: Side, action: UpdateAction, level: nat, x: BookPrice, t: Side) {
    match action
    case New =>
      if level == 0 || level > depth then t == s
      else if level <= |s| + 1 then t == (s[..level - 1] + [x] + s[level - 1..])[..Min(depth, |s| + 1)]
      else t == s + seq(level - 1 - |s|, _ => BookPrice(0, 0, (0, 0))) + [x]
    case Change => if 1 <= level <= |s| then t == s[level - 1 := x] else t == s
    case Delete => if 1 <= level <= |s| then t == s[..level - 1] + s[level..] else t == s
    case DeleteThru => t == []
    case DeleteFrom => if 1 <= level <= depth then t == s[Min(level, |s|)..] else t == s
    case Overlay => t == s
    case NullAction => t == s
  }

  lemma AppliedBecomes(depth: nat, s: Side, op: LevelOp)
    requires |s| <= depth
    ensures Becomes(depth, s, op.action, op.level, op.row, Apply(depth, s, op))
  {
    var t := Apply(depth, s, op);
    match op.action
    case New => NewBecomes(depth, s, op);
    case Change =>
    case Delete =>
    case DeleteThru =>
    case DeleteFrom =>
    case Overlay =>
    case NullAction =>
  }

  lemma NewBecomes(depth: nat, s: Side, op: LevelOp)
    requires |s| <= depth && op.action == New
    ensures Becomes(depth, s, New, op.level, op.row, Apply(depth, s, op))
  {
    if 1 <= op.level <= depth && op.level <= |s| + 1 {
      var whole := s[..op.level - 1] + [op.row] + s[op.level - 1..];
      assert Apply(depth, s, op) == whole[..Min(depth, |s| + 1)];
    }
  }

  /** Whether a bid or offer entry is accepted: what the level check asks for, and a type and an action that are
      handled at all. */
  predicate Fits(v: BookValue, b: Book) {
    var rows := if b.entryType == Bid then |v.bid| else |v.ask|;
    match b.kind
    case Snapshot => 1 <= b.priceLevel <= v.marketDepth
    case Increment => (
      match b.updateAction
      case New => 1 <= b.priceLevel <= v.marketDepth
      case Change => 1 <= b.priceLevel <= v.marketDepth && b.priceLevel <= rows
      case Delete => 1 <= b.priceLevel <= v.marketDepth && b.priceLevel <= rows
      case DeleteThru => true
      case DeleteFrom => 1 <= b.priceLevel <= v.marketDepth
      case Overlay => false
      case NullAction => false)
    case OtherKind => false
  }

  /** The controller accepts exactly these entries. */
  lemma AcceptedFits(v: BookValue, b: Book)
    ensures Takes(v, b) <==> Fits(v, b)
  {
  }

  /** `w` is what a bid or offer entry makes of the book `v`: a snapshot entry inserts, an increment entry does what
      its action says, any other does nothing; one side changes and nothing else. */
  ghost predicate BookBecomes(v: BookValue, b: Book, w: BookValue) {
    var x := BookPrice(b.numberOfOrders, b.entrySize, b.entryPx);
    var action := if b.kind == Snapshot then New else if b.kind == Increment then b.updateAction else NullAction;
    && w == v.(bid := w.bid, ask := w.ask)
    && (b.entryType == Bid ==> w.ask == v.ask && Becomes(v.marketDepth, v.bid, action, b.priceLevel, x, w.bid))
    && (b.entryType == Offer ==> w.bid == v.bid && Becomes(v.marketDepth, v.ask, action, b.priceLevel, x, w.ask))
  }

  /** What one entry makes of all books: a reset empties both sides of each, a bid or offer edits its own if that is
      defined, everything else changes nothing. */
  ghost predicate BooksBecome(bs: Books, b: Book, cs: Books) {
    && cs.Keys == bs.Keys
    && forall k :: k in bs ==>
         if b.entryType == BookReset then cs[k] == bs[k].(bid := [], ask := [])
         else if k == b.securityID && (b.entryType == Bid || b.entryType == Offer) then BookBecomes(bs[k], b, cs[k])
         else cs[k] == bs[k]
  }

  lemma UpdatedBecomes(v: BookValue, b: Book)
    requires WithinDepth(v) && (b.entryType == Bid || b.entryType == Offer)
    ensures BookBecomes(v, b, Updated(v, b))
  {
    AppliedBecomes(v.marketDepth, SideOf(v, b.entryType), ToOp(b));
  }

  lemma ModifiedBecomes(bs: Books, b: Book)
    requires AllWithinDepth(bs)
    ensures BooksBecome(bs, b, Modified(bs, b))
  {
    if b.securityID in bs && (b.entryType == Bid || b.entryType == Offer) {
      UpdatedBecomes(bs[b.securityID], b);
    }
  }

  lemma {:induction false} RunKeepsDepth(bs: Books, books: seq<Book>)
    requires AllWithinDepth(bs)
    ensures AllWithinDepth(RunBooks(bs, books))
  {
    if books != [] {
      RunKeepsDepth(bs, books[..|books| - 1]);
      StepKeepsDepth(RunBooks(bs, books[..|books| - 1]), OnBook(books[|books| - 1]));
    }
  }

  /** After any entries, the last one has done to the deques what it asks for. */
  lemma LastEntryBecomes(bs: Books, books: seq<Book>, b: Book)
    requires AllWithinDepth(bs)
    ensures BooksBecome(RunBooks(bs, books), b, RunBooks(bs, books + [b]))
  {
    assert (books + [b])[..|books|] == books;
    RunKeepsDepth(bs, books);
    ModifiedBecomes(RunBooks(bs, books), b);
  }

  /** In particular, an accepted change puts its three numbers at its level and leaves every other level alone. */
  lemma ChangeIsVisible(bs: Books, books: seq<Book>, b: Book)
    requires AllWithinDepth(bs) && b.kind == Increment && b.updateAction == Change && IsQuote(b)
    requires b.securityID in RunBooks(bs, books)
    requires 1 <= b.priceLevel <= |SideOf(RunBooks(bs, books)[b.securityID], b.entryType)|
    ensures b.securityID in RunBooks(bs, books + [b])
    ensures var before := SideOf(RunBooks(bs, books)[b.securityID], b.entryType);
            var after := SideOf(RunBooks(bs, books + [b])[b.securityID], b.entryType);
            && |after| == |before|
            && after[b.priceLevel - 1] == BookPrice(b.numberOfOrders, b.entrySize, b.entryPx)
            && forall i :: 0 <= i < |before| && i != b.priceLevel - 1 ==> after[i] == before[i]
  {
    LastEntryBecomes(bs, books, b);
  }

  /** What a definition makes of all books: a removal takes the book away, a new security gets an empty book of type 1,
      and a known one is renamed, gets the new depth, and loses the rows behind it and no others. */
  ghost predicate DefinitionBecomes(bs: Books, i: Instrument, cs: Books) {
    && (forall k :: k != i.securityID ==> (k in cs <==> k in bs) && (k in bs ==> cs[k] == bs[k]))
    && (if i.action == Remove then i.securityID !in cs
        else
          && i.securityID in cs
          && var w := cs[i.securityID];
             if i.securityID !in bs then w == BookValue(1, i.securityID, i.symbol, i.depth, [], [])
             else
               var v := bs[i.securityID];
               && w == v.(symbol := i.symbol, marketDepth := i.depth, bid := w.bid, ask := w.ask)
               && w.bid == (if |v.bid| > i.depth then v.bid[..i.depth] else v.bid)
               && w.ask == (if |v.ask| > i.depth then v.ask[..i.depth] else v.ask))
  }

  lemma DefinedBecomes(bs: Books, i: Instrument)
    ensures DefinitionBecomes(bs, i, EventStep(bs, OnDefinition(i)))
  {
  }
}
