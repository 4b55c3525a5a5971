/** Runs of events on the books, and what each security and each side sees of them. */
module BookRuns {
  import opened Types
  import opened BookLevels

  datatype Event = OnBook(book: Book) | OnDefinition(instrument: Instrument)

  function EventStep(bs: Books, e: Event): Books {
    match e
    case OnBook(b) => Modified(bs, b)
    case OnDefinition(i) => Defined(bs, i)
  }

  function RunEvents(bs: Books, es: seq<Event>): Books {
    if es == [] then bs else EventStep(RunEvents(bs, es[..|es| - 1]), es[|es| - 1])
  }

  /** No side is ever longer than the depth of its security. */
  lemma {:induction false} DepthIsKept(bs: Books, es: seq<Event>)
    requires AllWithinDepth(bs)
    ensures AllWithinDepth(RunEvents(bs, es))
  {
    if es != [] {
      DepthIsKept(bs, es[..|es| - 1]);
      StepKeepsDepth(RunEvents(bs, es[..|es| - 1]), es[|es| - 1]);
    }
  }

  lemma StepKeepsDepth(bs: Books, e: Event)
    requires AllWithinDepth(bs)
    ensures AllWithinDepth(EventStep(bs, e))
  {
    match e
    case OnBook(b) =>
      if b.securityID in bs {
        UpdateKeepsDepth(bs[b.securityID], b);
      }
    case OnDefinition(i) =>
  }

  /** Reading sides as total functions, every accepted operation is a shift cut off at the depth: the row
      it puts at a level inside the depth is the one `RowAfter` names, stored or blank. */
  lemma OperationsShift(depth: nat, s: Side, op: LevelOp, i: nat)
    requires Accepted(depth, s, op) && |s| <= depth && i < depth
    ensures Row(Apply(depth, s, op), i) == RowAfter(s, op, i)
    ensures Row(Apply(depth, s, op), depth + i) == BLANK
  {
  }

  /** Delete takes back a New at the same level exactly when the New neither padded nor pushed a row out. */
  lemma DeleteUndoesNew(depth: nat, s: Side, level: nat, row: BookPrice, other: BookPrice)
    requires |s| <= depth && 1 <= level <= depth
    ensures Apply(depth, Apply(depth, s, LevelOp(New, level, row)), LevelOp(Delete, level, other)) == s
            <==> |s| < depth && level <= |s| + 1
  {
    var t := Apply(depth, s, LevelOp(New, level, row));
    var u := Apply(depth, t, LevelOp(Delete, level, other));
    assert |u| == |t| - 1;
    if |s| < depth && level <= |s| + 1 {
      assert forall i :: 0 <= i < |s| ==> u[i] == s[i];
    }
  }

  /** Deleting the first row `k` times. */
  function DeleteTops(depth: nat, s: Side, k: nat, row: BookPrice): Side
    decreases k
  {
    if k == 0 then s else DeleteTops(depth, Apply(depth, s, LevelOp(Delete, 1, row)), k - 1, row)
  }

  /** DeleteFrom a level is that many deletions of the first row, as far as there are rows. */
  lemma DeleteFromIsDeleteTops(depth: nat, s: Side, k: nat, row: BookPrice)
    requires |s| <= depth && 1 <= k <= depth
    ensures Apply(depth, s, LevelOp(DeleteFrom, k, row)) == DeleteTops(depth, s, k, row)
  {
    TopsGo(depth, s, k, row);
    DeleteTopsGo(depth, s, k, row);
  }

  lemma TopsGo(depth: nat, s: Side, k: nat, row: BookPrice)
    requires |s| <= depth && 1 <= k <= depth
    ensures Apply(depth, s, LevelOp(DeleteFrom, k, row)) == s[Min(k, |s|)..]
    ensures Apply(depth, s, LevelOp(Delete, 1, row)) == s[Min(1, |s|)..]
  {
  }

  lemma {:induction false} DeleteTopsGo(depth: nat, s: Side, k: nat, row: BookPrice)
    requires |s| <= depth && k <= depth
    ensures DeleteTops(depth, s, k, row) == s[Min(k, |s|)..]
    decreases k
  {
    if k > 0 {
      TopsGo(depth, s, 1, row);
      var rest := s[Min(1, |s|)..];
      DeleteTopsGo(depth, rest, k - 1, row);
      assert rest[Min(k - 1, |rest|)..] == s[Min(k, |s|)..];
    }
  }

  /* ---------- one security ---------- */

  function At(bs: Books, id: uint32): Option<BookValue> {
    if id in bs then Some(bs[id]) else None
  }

  /** What an event does to one security. */
  function OneStep(v: Option<BookValue>, id: uint32, e: Event): Option<BookValue> {
    match e
    case OnBook(b) =>
      if v.None? then None
      else if b.entryType == BookReset then Some(v.value.(bid := [], ask := []))
      else if b.securityID == id && IsQuote(b) then Some(Updated(v.value, b))
      else v
    case OnDefinition(i) =>
      if i.securityID != id then v
      else if i.action == Remove then None
      else if v.Some? then Some(Shrunk(v.value, i.depth).(symbol := i.symbol))
      else Some(BookValue(1, id, i.symbol, i.depth, [], []))
  }

  function RunOne(v: Option<BookValue>, id: uint32, es: seq<Event>): Option<BookValue> {
    if es == [] then v else OneStep(RunOne(v, id, es[..|es| - 1]), id, es[|es| - 1])
  }

  predicate Concerns(e: Event, id: uint32) {
    match e
    case OnBook(b) => b.entryType == BookReset || b.securityID == id
    case OnDefinition(i) => i.securityID == id
  }

  /** The events of one security and the resets. */
  function Only(es: seq<Event>, id: uint32): seq<Event> {
    if es == [] then []
    else
      var e := es[|es| - 1];
      Only(es[..|es| - 1], id) + if Concerns(e, id) then [e] else []
  }

  /** The book of a security depends on its own events and the resets only. */
  lemma {:induction false} Projection(bs: Books, es: seq<Event>, id: uint32)
    ensures At(RunEvents(bs, es), id) == RunOne(At(bs, id), id, Only(es, id))
  {
    if es != [] {
      var front, e := es[..|es| - 1], es[|es| - 1];
      Projection(bs, front, id);
      StepAt(RunEvents(bs, front), e, id);
      if Concerns(e, id) {
        assert Only(es, id) == Only(front, id) + [e];
        assert Only(es, id)[..|Only(es, id)| - 1] == Only(front, id);
      } else {
        assert Only(es, id) == Only(front, id);
      }
    }
  }

  /** Runs that agree on the events of a security agree on its book. */
  lemma SameEventsSameBook(bs: Books, cs: Books, es: seq<Event>, fs: seq<Event>, id: uint32)
    requires At(bs, id) == At(cs, id) && Only(es, id) == Only(fs, id)
    ensures At(RunEvents(bs, es), id) == At(RunEvents(cs, fs), id)
  {
    Projection(bs, es, id);
    Projection(cs, fs, id);
  }

  function SecurityOf(e: Event): uint32 {
    match e
    case OnBook(b) => b.securityID
    case OnDefinition(i) => i.securityID
  }

  predicate IsReset(e: Event) {
    e.OnBook? && e.book.entryType == BookReset
  }

  /** Two events of different securities have the same effect on any security in either order. */
  lemma CommuteAt(bs: Books, e: Event, f: Event, id: uint32)
    requires SecurityOf(e) != SecurityOf(f) && !IsReset(e) && !IsReset(f)
    ensures At(EventStep(EventStep(bs, e), f), id) == At(EventStep(EventStep(bs, f), e), id)
  {
    StepAt(bs, e, id);
    StepAt(bs, f, id);
    StepAt(EventStep(bs, e), f, id);
    StepAt(EventStep(bs, f), e, id);
  }

  lemma SameEverywhere(bs: Books, cs: Books)
    requires forall id: uint32 :: At(bs, id) == At(cs, id)
    ensures bs == cs
  {
    assert forall id: uint32 :: (id in bs <==> At(bs, id).Some?) && (id in cs <==> At(cs, id).Some?);
    assert forall id :: id in bs ==> At(bs, id) == Some(bs[id]) && At(cs, id) == Some(cs[id]);
  }

  /** Events of different securities commute. */
  lemma EventsCommute(bs: Books, e: Event, f: Event)
    requires SecurityOf(e) != SecurityOf(f) && !IsReset(e) && !IsReset(f)
    ensures EventStep(EventStep(bs, e), f) == EventStep(EventStep(bs, f), e)
  {
    forall id: uint32
      ensures At(EventStep(EventStep(bs, e), f), id) == At(EventStep(EventStep(bs, f), e), id)
    {
      CommuteAt(bs, e, f, id);
    }
    SameEverywhere(EventStep(EventStep(bs, e), f), EventStep(EventStep(bs, f), e));
  }

  lemma StepAt(bs: Books, e: Event, id: uint32)
    ensures At(EventStep(bs, e), id) == OneStep(At(bs, id), id, e)
  {
  }

  /* ---------- one side, entries only ---------- */

  function RunBooks(bs: Books, books: seq<Book>): Books {
    if books == [] then bs else Modified(RunBooks(bs, books[..|books| - 1]), books[|books| - 1])
  }

  /** Whether an entry edits side `t` of security `id`. */
  predicate Edits(b: Book, id: uint32, t: EntryType) {
    b.securityID == id && b.entryType == t && b.kind != OtherKind
  }

  function SideStep(depth: nat, s: Side, b: Book, id: uint32, t: EntryType): Side {
    if b.entryType == BookReset then []
    else if Edits(b, id, t) then Apply(depth, s, ToOp(b))
    else s
  }

  function SideRun(depth: nat, s: Side, books: seq<Book>, id: uint32, t: EntryType): Side {
    if books == [] then s
    else SideStep(depth, SideRun(depth, s, books[..|books| - 1], id, t), books[|books| - 1], id, t)
  }

  /** Each side of each defined security evolves on its own. */
  lemma {:induction false} SideProjection(bs: Books, books: seq<Book>, id: uint32, t: EntryType)
    requires id in bs && (t == Bid || t == Offer)
    ensures id in RunBooks(bs, books)
    ensures RunBooks(bs, books)[id].marketDepth == bs[id].marketDepth
    ensures SideOf(RunBooks(bs, books)[id], t) == SideRun(bs[id].marketDepth, SideOf(bs[id], t), books, id, t)
  {
    if books != [] {
      SideProjection(bs, books[..|books| - 1], id, t);
    }
  }

  /** The two sides, the depth and the fixed fields are all there is to a book. */
  lemma {:induction false} OnlySidesChange(bs: Books, books: seq<Book>, id: uint32)
    requires id in bs
    ensures id in RunBooks(bs, books)
    ensures RunBooks(bs, books)[id].(bid := [], ask := []) == bs[id].(bid := [], ask := [])
  {
    if books != [] {
      OnlySidesChange(bs, books[..|books| - 1], id);
    }
  }

  lemma {:induction false} SideRunConcat(depth: nat, s: Side, a: seq<Book>, b: seq<Book>, id: uint32, t: EntryType)
    ensures SideRun(depth, s, a + b, id, t) == SideRun(depth, SideRun(depth, s, a, id, t), b, id, t)
  {
    if b == [] {
      assert a + b == a;
    } else {
      assert (a + b)[..|a + b| - 1] == a + b[..|b| - 1];
      SideRunConcat(depth, s, a, b[..|b| - 1], id, t);
    }
  }

  /** A shorter side stays the shorter one through every entry. */
  lemma {:induction false} ShorterStaysShorter(depth: nat, s: Side, u: Side, books: seq<Book>, id: uint32, t: EntryType)
    requires |s| <= |u| <= depth
    ensures |SideRun(depth, s, books, id, t)| <= |SideRun(depth, u, books, id, t)| <= depth
  {
    if books != [] {
      ShorterStaysShorter(depth, s, u, books[..|books| - 1], id, t);
    }
  }
}
