/** How much of the unlimited book the depth-capped one stores: exactly as many rows as the events leave room for. */
module BoundedCounts {
  import opened Types
  import opened BookLevels
  import opened BookRuns
  import opened BoundedBook

  /** Depth and number of stored rows of one security. */
  datatype Extent = Extent(depth: nat, bids: nat, asks: nat)

  /** How many of `k` rows an entry leaves at this depth, whatever is in them. */
  function RowsLeft(depth: nat, k: nat, action: UpdateAction, level: nat): (n: nat)
    requires k <= depth
    ensures n <= depth
  {
    match action
    case New => if 1 <= level <= depth then Min(depth, Max(k + 1, level)) else k
    case Delete => if 1 <= level <= k then k - 1 else k
    case DeleteFrom => if 1 <= level <= depth then Max(0, k - level) else k
    case DeleteThru => 0
    case Change => k
    case Overlay => k
    case NullAction => k
  }

  predicate Sensible(x: Option<Extent>) {
    x.Some? ==> x.value.bids <= x.value.depth && x.value.asks <= x.value.depth
  }

  function ActionOf(b: Book): UpdateAction {
    if b.kind == Snapshot then New else if b.kind == Increment then b.updateAction else NullAction
  }

  /** What an event does to the numbers. A definition that leaves room for the rows that are stored takes none. */
  function Counted(x: Option<Extent>, id: uint32, e: Event): (y: Option<Extent>)
    requires Sensible(x)
    ensures Sensible(y)
  {
    match e
    case OnBook(b) =>
      if x.None? then x
      else if b.entryType == BookReset then Some(Extent(x.value.depth, 0, 0))
      else if b.securityID != id then x
      else if b.entryType == Bid then
        Some(x.value.(bids := RowsLeft(x.value.depth, x.value.bids, ActionOf(b), b.priceLevel)))
      else if b.entryType == Offer then
        Some(x.value.(asks := RowsLeft(x.value.depth, x.value.asks, ActionOf(b), b.priceLevel)))
      else x
    case OnDefinition(i) =>
      if i.securityID != id then x
      else if i.action == Remove then None
      else if x.None? then Some(Extent(i.depth, 0, 0))
      else Some(Extent(i.depth, Min(i.depth, x.value.bids), Min(i.depth, x.value.asks)))
  }

  function CountedAll(x: Option<Extent>, id: uint32, es: seq<Event>): (y: Option<Extent>)
    requires Sensible(x)
    ensures Sensible(y)
  {
    if es == [] then x else Counted(CountedAll(x, id, es[..|es| - 1]), id, es[|es| - 1])
  }

  function ExtentOf(v: Option<BookValue>): Option<Extent> {
    if v.None? then None else Some(Extent(v.value.marketDepth, |v.value.bid|, |v.value.ask|))
  }

  lemma SideCounted(v: BookValue, b: Book, id: uint32)
    requires WithinDepth(v) && b.securityID == id && IsQuote(b)
    ensures Counted(ExtentOf(Some(v)), id, OnBook(b)) == ExtentOf(Some(Updated(v, b)))
  {
  }

  lemma StepCounted(bs: Books, e: Event, id: uint32)
    requires AllWithinDepth(bs)
    ensures Sensible(ExtentOf(At(bs, id)))
    ensures ExtentOf(At(EventStep(bs, e), id)) == Counted(ExtentOf(At(bs, id)), id, e)
  {
    StepAt(bs, e, id);
    if id in bs {
      assert WithinDepth(bs[id]);
      if e.OnBook? && e.book.securityID == id && IsQuote(e.book) {
        SideCounted(bs[id], e.book, id);
      }
    }
  }

  /** Over any run, depth and numbers of rows follow from the events alone. */
  lemma {:induction false} RunCounted(bs: Books, es: seq<Event>, id: uint32)
    requires AllWithinDepth(bs)
    ensures Sensible(ExtentOf(At(bs, id)))
    ensures ExtentOf(At(RunEvents(bs, es), id)) == CountedAll(ExtentOf(At(bs, id)), id, es)
  {
    if id in bs {
      assert WithinDepth(bs[id]);
    }
    if es != [] {
      RunCounted(bs, es[..|es| - 1], id);
      DepthIsKept(bs, es[..|es| - 1]);
      StepCounted(RunEvents(bs, es[..|es| - 1]), es[|es| - 1], id);
    }
  }

  /** Over every run whose events meet the guard, each side is exactly the beginning of the side that never forgets,
      of the length that the events leave: no redefinition, deletion or insertion costs a row too many. */
  lemma StoredExactly(bs: Books, es: seq<Event>, id: uint32)
    requires AllWithinDepth(bs) && RunKeepsUp(bs, es)
    ensures Sensible(ExtentOf(At(bs, id)))
    ensures var v, u, x := At(RunEvents(bs, es), id), At(UnlimitedRun(bs, es), id),
                           CountedAll(ExtentOf(At(bs, id)), id, es);
            && (v.Some? <==> x.Some?) && (u.Some? <==> x.Some?)
            && (x.Some? ==>
                  && v.value.marketDepth == x.value.depth
                  && x.value.bids <= |u.value.bid| && v.value.bid == u.value.bid[..x.value.bids]
                  && x.value.asks <= |u.value.ask| && v.value.ask == u.value.ask[..x.value.asks])
  {
    RunCounted(bs, es, id);
    BoundedSimulatesUnlimited(bs, es);
    if id in RunEvents(bs, es) {
      assert IsPrefixOf(RunEvents(bs, es)[id], UnlimitedRun(bs, es)[id]);
    }
  }

  /** After such a run a redefinition keeps every stored row at a level up to the new depth. */
  lemma RedefinitionKeepsRows(bs: Books, es: seq<Event>, i: Instrument)
    requires AllWithinDepth(bs) && RunKeepsUp(bs, es) && i.action != Remove && i.securityID in RunEvents(bs, es)
    ensures var id, more := i.securityID, es + [OnDefinition(i)];
            && id in RunEvents(bs, more) && id in UnlimitedRun(bs, more)
            && var before, after, u := RunEvents(bs, es)[id], RunEvents(bs, more)[id], UnlimitedRun(bs, more)[id];
               && after.marketDepth == i.depth
               && Min(|before.bid|, i.depth) <= |u.bid| && after.bid == u.bid[..Min(|before.bid|, i.depth)]
               && Min(|before.ask|, i.depth) <= |u.ask| && after.ask == u.ask[..Min(|before.ask|, i.depth)]
  {
    var more := es + [OnDefinition(i)];
    assert more[..|es|] == es && RunKeepsUp(bs, more);
    StoredExactly(bs, more, i.securityID);
    RunCounted(bs, es, i.securityID);
  }
}
