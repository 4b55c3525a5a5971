/** Joining the channel late, from a snapshot, leads to the same books as having listened from the start. */
module LateJoin {
  import opened Types
  import opened BookLevels
  import opened BookRuns
  import opened Recovery
  import opened ResetFilter
  import opened Snapshots

  /** What a late joiner of one side has: the snapshot, then the merged part of what it saw. */
  ghost function LateSide(depth: nat, recovery: seq<Book>, firstSeq: int, seen: seq<Book>,
                          id: uint32, t: EntryType): Side {
    SideRun(depth, SideRun(depth, [], recovery, id, t), Merged(recovery, firstSeq, seen), id, t)
  }

  /** The channel up to the snapshot of a security, cut where the late joiner starts to apply entries:
      `early` holds packets up to `firstSeq`, `mid` those after it that the snapshot of number `n` includes. */
  ghost predicate Cut(recovery: seq<Book>, firstSeq: int, early: seq<Book>, mid: seq<Book>, id: uint32, n: int) {
    && firstSeq <= n && IsSnapshot(recovery) && SnapshotOf(recovery, id, n)
    && AtMost(early, firstSeq) && MoreThan(mid, firstSeq) && AtMost(mid, n)
  }

  /** The snapshot rebuilds the side as it was after the packets it includes. */
  ghost predicate FaithfulSide(depth: nat, recovery: seq<Book>, early: seq<Book>, mid: seq<Book>,
                               id: uint32, t: EntryType) {
    SideRun(depth, [], recovery, id, t) == SideRun(depth, [], early + mid, id, t)
  }

  /** The overlap of increments and snapshot does a side no harm. A security with snapshot entries loses what the
      snapshot brought to any reset that gets through; one without them must be led from an empty side to an empty
      side by the entries that count. */
  ghost predicate OverlapSafe(depth: nat, recovery: seq<Book>, mid: seq<Book>, id: uint32, t: EntryType) {
    if HasSnapshot(recovery, id) then ResetsFiltered(recovery, mid) || SideRun(depth, [], recovery, id, t) == []
    else SideRun(depth, [], Counting(recovery, mid), id, t) == []
  }

  /** At the moment a security reaches its snapshot number, late and early joiner agree on a side exactly when the
      overlap is safe for it. */
  lemma AgreeAtSnapshot(depth: nat, recovery: seq<Book>, firstSeq: int, early: seq<Book>, mid: seq<Book>,
                        id: uint32, t: EntryType, n: int)
    requires Cut(recovery, firstSeq, early, mid, id, n) && FaithfulSide(depth, recovery, early, mid, id, t)
    ensures LateSide(depth, recovery, firstSeq, mid, id, t) == SideRun(depth, [], early + mid, id, t)
            <==> OverlapSafe(depth, recovery, mid, id, t)
  {
    if HasSnapshot(recovery, id) {
      CoveredIsFrozen(depth, SideRun(depth, [], recovery, id, t), recovery, firstSeq, n, mid, id, t);
      ResetsSurvive(recovery, firstSeq, mid);
    } else {
      NoSnapshotIsEmpty(depth, recovery, id, t);
      OnlyCountingCounts(depth, [], recovery, firstSeq, firstSeq, mid, id, t);
    }
  }

  /** A security without snapshot entries: if no reset comes behind the last one of the overlap that gets through,
      the late joiner applies to an empty side what the early joiner applies to a fuller one, and both are empty
      when the snapshot number is reached. */
  lemma EmptyIsReached(depth: nat, recovery: seq<Book>, firstSeq: int, early: seq<Book>, mid: seq<Book>,
                       id: uint32, t: EntryType, n: int)
    requires Cut(recovery, firstSeq, early, mid, id, n) && FaithfulSide(depth, recovery, early, mid, id, t)
    requires !HasSnapshot(recovery, id) && NoReset(mid[LastKept(recovery, mid)..])
    ensures OverlapSafe(depth, recovery, mid, id, t)
    ensures LateSide(depth, recovery, firstSeq, mid, id, t) == SideRun(depth, [], early + mid, id, t) == []
  {
    var from := LastKept(recovery, mid);
    NoSnapshotIsEmpty(depth, recovery, id, t);
    NoResetIsUnreset(mid[from..]);
    SideRunConcat(depth, [], early, mid, id, t);
    ShorterStaysShorter(depth, [], [], early, id, t);
    FromLastKept(depth, SideRun(depth, [], early, id, t), recovery, mid, id, t);
    AgreeAtSnapshot(depth, recovery, firstSeq, early, mid, id, t, n);
  }

  /** What the entries behind the last reset that gets through make of an empty side is at most as long as what all
      entries make of any side. */
  lemma FromLastKept(depth: nat, u: Side, recovery: seq<Book>, books: seq<Book>, id: uint32, t: EntryType)
    requires |u| <= depth
    ensures |SideRun(depth, [], books[LastKept(recovery, books)..], id, t)| <= |SideRun(depth, u, books, id, t)|
  {
    var from := LastKept(recovery, books);
    var front := books[..from];
    assert books == front + books[from..];
    SideRunConcat(depth, u, front, books[from..], id, t);
    ShorterStaysShorter(depth, u, u, front, id, t);
    ShorterStaysShorter(depth, [], SideRun(depth, u, front, id, t), books[from..], id, t);
  }

  /** A reset that is filtered in the overlap can do harm: a security without snapshot entries keeps a row that the
      reset removed for the early joiner. */
  lemma FilteredResetMisleads(depth: nat, id: uint32, other: uint32, n: uint32)
    requires depth >= 1 && n >= 2 && other != id
    ensures var recovery := [Book(n, Snapshot, other, Bid, New, 1, 1, 1, (1, 0))];
            var mid := [Book(n, Increment, id, Bid, New, 1, 1, 1, (1, 0)),
                        Book(n, Increment, other, BookReset, New, 1, 1, 1, (1, 0))];
            && Cut(recovery, n - 1, [], mid, id, n) && FaithfulSide(depth, recovery, [], mid, id, Bid)
            && ResetsFiltered(recovery, mid) && !HasSnapshot(recovery, id)
            && |LateSide(depth, recovery, n - 1, mid, id, Bid)| == 1
            && SideRun(depth, [], [] + mid, id, Bid) == []
            && !OverlapSafe(depth, recovery, mid, id, Bid)
  {
    var shown := Book(n, Snapshot, other, Bid, New, 1, 1, 1, (1, 0));
    var row := Book(n, Increment, id, Bid, New, 1, 1, 1, (1, 0));
    var reset := Book(n, Increment, other, BookReset, New, 1, 1, 1, (1, 0));
    var recovery, mid := [shown], [row, reset];
    assert recovery[0] == shown && Dropped(recovery, reset);
    assert mid[0] == row && mid[1] == reset && [] + mid == mid;
    RowThenReset(depth, recovery, n - 1, row, reset, id);
    NoSnapshotIsEmpty(depth, recovery, id, Bid);
    AgreeAtSnapshot(depth, recovery, n - 1, [], mid, id, Bid, n);
  }

  /** A new row and then a reset: both are gone, unless the reset is filtered. */
  lemma RowThenReset(depth: nat, recovery: seq<Book>, firstSeq: int, row: Book, reset: Book, id: uint32)
    requires depth >= 1 && !HasSnapshot(recovery, id) && Dropped(recovery, reset) && reset.packetSeqNum > firstSeq
    requires Edits(row, id, Bid) && row.packetSeqNum > firstSeq
    requires row.kind == Increment && row.updateAction == New && row.priceLevel == 1
    ensures SideRun(depth, [], [row, reset], id, Bid) == []
    ensures |SideRun(depth, [], Merged(recovery, firstSeq, [row, reset]), id, Bid)| == 1
  {
    assert [row, reset] == [row] + [reset] && [row] == [] + [row];
    RunMore(depth, [], [row], reset, id, Bid);
    MergedMore(depth, [], recovery, firstSeq, firstSeq, [row], reset, id, Bid);
    MergedMore(depth, [], recovery, firstSeq, firstSeq, [], row, id, Bid);
    OneRow(depth, row, id);
  }

  lemma OneRow(depth: nat, row: Book, id: uint32)
    requires depth >= 1 && Edits(row, id, Bid)
    requires row.kind == Increment && row.updateAction == New && row.priceLevel == 1
    ensures |SideStep(depth, [], row, id, Bid)| == 1
  {
  }

  /** What a late joiner of a side needs: some later reset gets through or the overlap was safe, and since the last
      such reset each filtered one finds the side empty that snapshot and increments lead to. */
  ghost predicate LateSafe(depth: nat, recovery: seq<Book>, mid: seq<Book>, rest: seq<Book>, id: uint32, t: EntryType) {
    && (LastKept(recovery, rest) > 0 || OverlapSafe(depth, recovery, mid, id, t))
    && AllFindEmpty(depth, SideRun(depth, [], recovery, id, t), recovery, rest, id, t,
                    LastKept(recovery, rest), |rest|)
  }

  /** Late and early joiner have the same side after `k` more entries. */
  ghost predicate SidesAgree(depth: nat, recovery: seq<Book>, firstSeq: int, early: seq<Book>, seen: seq<Book>,
                             mid: seq<Book>, rest: seq<Book>, id: uint32, t: EntryType, k: nat)
    requires k <= |rest|
  {
    LateSide(depth, recovery, firstSeq, seen + mid + rest[..k], id, t)
    == SideRun(depth, [], early + mid + rest[..k], id, t)
  }

  lemma SidesAgreeAfter(depth: nat, recovery: seq<Book>, firstSeq: int, early: seq<Book>, seen: seq<Book>,
                        mid: seq<Book>, rest: seq<Book>, id: uint32, t: EntryType, k: nat)
    requires k <= |rest| && AtMost(seen, firstSeq)
    ensures SidesAgree(depth, recovery, firstSeq, early, seen, mid, rest, id, t, k)
            <==> AgreeAfter(depth, LateSide(depth, recovery, firstSeq, mid, id, t),
                            SideRun(depth, [], early + mid, id, t), recovery, firstSeq, rest, id, t, k)
  {
    var snap, kept := SideRun(depth, [], recovery, id, t), Merged(recovery, firstSeq, mid);
    MergedConcat(recovery, firstSeq, seen + mid, rest[..k]);
    MergedConcat(recovery, firstSeq, seen, mid);
    OldIsDropped(recovery, firstSeq, seen);
    assert [] + kept == kept;
    SideRunConcat(depth, snap, kept, Merged(recovery, firstSeq, rest[..k]), id, t);
    SideRunConcat(depth, [], early + mid, rest[..k], id, t);
  }

  /** From the snapshot number on, joining late gives after every entry since the last reset that gets through the
      same side as having joined at the first packet, if and only if the side is safe. */
  lemma LateEqualsEarlySide(depth: nat, recovery: seq<Book>, firstSeq: int,
                            early: seq<Book>, seen: seq<Book>, mid: seq<Book>, rest: seq<Book>,
                            id: uint32, t: EntryType, n: int)
    requires Cut(recovery, firstSeq, early, mid, id, n) && FaithfulSide(depth, recovery, early, mid, id, t)
    requires AtMost(seen, firstSeq) && MoreThan(rest, n)
    ensures (forall k :: LastKept(recovery, rest) <= k <= |rest| ==>
                           SidesAgree(depth, recovery, firstSeq, early, seen, mid, rest, id, t, k))
            <==> LateSafe(depth, recovery, mid, rest, id, t)
  {
    var from, s, u := LastKept(recovery, rest), LateSide(depth, recovery, firstSeq, mid, id, t),
                      SideRun(depth, [], early + mid, id, t);
    forall k | from <= k <= |rest|
      ensures SidesAgree(depth, recovery, firstSeq, early, seen, mid, rest, id, t, k)
              <==> AgreeAfter(depth, s, u, recovery, firstSeq, rest, id, t, k)
    {
      SidesAgreeAfter(depth, recovery, firstSeq, early, seen, mid, rest, id, t, k);
    }
    AgreeAtSnapshot(depth, recovery, firstSeq, early, mid, id, t, n);
    AgreeSinceKept(depth, s, u, recovery, firstSeq, n, rest, id, t);
  }

  /* ---------- whole books ---------- */

  /** Books that are defined but hold no prices. */
  predicate Fresh(defs: Books) {
    forall id :: id in defs ==> defs[id].bid == [] && defs[id].ask == []
  }

  /** The books of a late joiner. */
  ghost function LateBooks(defs: Books, recovery: seq<Book>, firstSeq: int, seen: seq<Book>): Books {
    RunBooks(RunBooks(defs, recovery), Merged(recovery, firstSeq, seen))
  }

  /** The snapshot rebuilds the book of a security as it was after the packets it includes. */
  ghost predicate Faithful(defs: Books, recovery: seq<Book>, early: seq<Book>, mid: seq<Book>, id: uint32) {
    id in defs && id in RunBooks(defs, recovery) && id in RunBooks(defs, early + mid)
    && RunBooks(defs, recovery)[id] == RunBooks(defs, early + mid)[id]
  }

  lemma LateSideOf(defs: Books, recovery: seq<Book>, firstSeq: int, seen: seq<Book>, id: uint32, t: EntryType)
    requires id in defs && Fresh(defs) && (t == Bid || t == Offer)
    ensures id in LateBooks(defs, recovery, firstSeq, seen)
    ensures SideOf(LateBooks(defs, recovery, firstSeq, seen)[id], t)
            == LateSide(defs[id].marketDepth, recovery, firstSeq, seen, id, t)
  {
    SideProjection(defs, recovery, id, t);
    SideProjection(RunBooks(defs, recovery), Merged(recovery, firstSeq, seen), id, t);
  }

  lemma FaithfulOnSide(defs: Books, recovery: seq<Book>, early: seq<Book>, mid: seq<Book>, id: uint32, t: EntryType)
    requires Fresh(defs) && Faithful(defs, recovery, early, mid, id) && (t == Bid || t == Offer)
    ensures FaithfulSide(defs[id].marketDepth, recovery, early, mid, id, t)
    ensures SideOf(RunBooks(defs, recovery)[id], t) == SideRun(defs[id].marketDepth, [], recovery, id, t)
  {
    SideProjection(defs, recovery, id, t);
    SideProjection(defs, early + mid, id, t);
  }

  lemma SameSidesSameBook(v: BookValue, u: BookValue)
    requires v.(bid := [], ask := []) == u.(bid := [], ask := [])
    requires v.bid == u.bid && v.ask == u.ask
    ensures v == u
  {
  }

  /** A book that agrees in both sides agrees altogether, because nothing else ever changes. */
  lemma BothSides(defs: Books, recovery: seq<Book>, firstSeq: int, seen: seq<Book>, all: seq<Book>, id: uint32)
    requires id in defs && Fresh(defs)
    requires forall t :: t == Bid || t == Offer ==>
               LateSide(defs[id].marketDepth, recovery, firstSeq, seen, id, t)
               == SideRun(defs[id].marketDepth, [], all, id, t)
    ensures id in LateBooks(defs, recovery, firstSeq, seen) && id in RunBooks(defs, all)
    ensures LateBooks(defs, recovery, firstSeq, seen)[id] == RunBooks(defs, all)[id]
  {
    OnlySidesChange(defs, recovery, id);
    OnlySidesChange(RunBooks(defs, recovery), Merged(recovery, firstSeq, seen), id);
    OnlySidesChange(defs, all, id);
    LateSideOf(defs, recovery, firstSeq, seen, id, Bid);
    LateSideOf(defs, recovery, firstSeq, seen, id, Offer);
    SideProjection(defs, all, id, Bid);
    SideProjection(defs, all, id, Offer);
    SameSidesSameBook(LateBooks(defs, recovery, firstSeq, seen)[id], RunBooks(defs, all)[id]);
  }

  /** The same for the book of a security. */
  ghost predicate LateSafeBook(defs: Books, recovery: seq<Book>, mid: seq<Book>, rest: seq<Book>, id: uint32) {
    && id in defs
    && LateSafe(defs[id].marketDepth, recovery, mid, rest, id, Bid)
    && LateSafe(defs[id].marketDepth, recovery, mid, rest, id, Offer)
  }

  /** Late and early joiner have the same book after `k` more entries. */
  ghost predicate BooksAgree(defs: Books, recovery: seq<Book>, firstSeq: int, early: seq<Book>, seen: seq<Book>,
                             mid: seq<Book>, rest: seq<Book>, id: uint32, k: nat)
    requires k <= |rest|
  {
    var late := LateBooks(defs, recovery, firstSeq, seen + mid + rest[..k]);
    var all := RunBooks(defs, early + mid + rest[..k]);
    id in late && id in all && late[id] == all[id]
  }

  lemma BooksAgreeBySide(defs: Books, recovery: seq<Book>, firstSeq: int, early: seq<Book>, seen: seq<Book>,
                         mid: seq<Book>, rest: seq<Book>, id: uint32, k: nat)
    requires id in defs && Fresh(defs) && k <= |rest|
    ensures BooksAgree(defs, recovery, firstSeq, early, seen, mid, rest, id, k)
            <==> SidesAgree(defs[id].marketDepth, recovery, firstSeq, early, seen, mid, rest, id, Bid, k)
                 && SidesAgree(defs[id].marketDepth, recovery, firstSeq, early, seen, mid, rest, id, Offer, k)
  {
    var mine, all := seen + mid + rest[..k], early + mid + rest[..k];
    LateSideOf(defs, recovery, firstSeq, mine, id, Bid);
    LateSideOf(defs, recovery, firstSeq, mine, id, Offer);
    SideProjection(defs, all, id, Bid);
    SideProjection(defs, all, id, Offer);
    if SidesAgree(defs[id].marketDepth, recovery, firstSeq, early, seen, mid, rest, id, Bid, k)
       && SidesAgree(defs[id].marketDepth, recovery, firstSeq, early, seen, mid, rest, id, Offer, k) {
      BothSides(defs, recovery, firstSeq, mine, all, id);
    }
  }

  /** Late join equals early join: once a security has reached its snapshot number, its book is, after every entry
      since the last reset that gets through, the one that an early joiner has, if and only if it is safe. */
  lemma LateEqualsEarly(defs: Books, recovery: seq<Book>, firstSeq: int,
                        early: seq<Book>, seen: seq<Book>, mid: seq<Book>, rest: seq<Book>, id: uint32, n: int)
    requires Fresh(defs) && Faithful(defs, recovery, early, mid, id)
    requires Cut(recovery, firstSeq, early, mid, id, n)
    requires AtMost(seen, firstSeq) && MoreThan(rest, n)
    ensures (forall k :: LastKept(recovery, rest) <= k <= |rest| ==>
                           BooksAgree(defs, recovery, firstSeq, early, seen, mid, rest, id, k))
            <==> LateSafeBook(defs, recovery, mid, rest, id)
  {
    var depth := defs[id].marketDepth;
    forall k | LastKept(recovery, rest) <= k <= |rest|
      ensures BooksAgree(defs, recovery, firstSeq, early, seen, mid, rest, id, k)
              <==> SidesAgree(depth, recovery, firstSeq, early, seen, mid, rest, id, Bid, k)
                   && SidesAgree(depth, recovery, firstSeq, early, seen, mid, rest, id, Offer, k)
    {
      BooksAgreeBySide(defs, recovery, firstSeq, early, seen, mid, rest, id, k);
    }
    FaithfulOnSide(defs, recovery, early, mid, id, Bid);
    FaithfulOnSide(defs, recovery, early, mid, id, Offer);
    LateEqualsEarlySide(depth, recovery, firstSeq, early, seen, mid, rest, id, Bid, n);
    LateEqualsEarlySide(depth, recovery, firstSeq, early, seen, mid, rest, id, Offer, n);
  }

  /** In particular, at the snapshot number the two books are equal if and only if the overlap is safe for both
      sides. */
  lemma ResetConditionIsExact(defs: Books, recovery: seq<Book>, firstSeq: int,
                              early: seq<Book>, mid: seq<Book>, id: uint32, n: int)
    requires Fresh(defs) && Faithful(defs, recovery, early, mid, id)
    requires Cut(recovery, firstSeq, early, mid, id, n)
    ensures id in LateBooks(defs, recovery, firstSeq, mid) && id in RunBooks(defs, early + mid)
    ensures LateBooks(defs, recovery, firstSeq, mid)[id] == RunBooks(defs, early + mid)[id]
            <==> OverlapSafe(defs[id].marketDepth, recovery, mid, id, Bid)
                 && OverlapSafe(defs[id].marketDepth, recovery, mid, id, Offer)
  {
    var rest: seq<Book> := [];
    LateSideOf(defs, recovery, firstSeq, mid, id, Bid);
    AgreeWithoutRest(defs, recovery, firstSeq, early, mid, id);
    LateEqualsEarly(defs, recovery, firstSeq, early, [], mid, rest, id, n);
    assert LastKept(recovery, rest) == 0;
  }

  lemma AgreeWithoutRest(defs: Books, recovery: seq<Book>, firstSeq: int, early: seq<Book>, mid: seq<Book>, id: uint32)
    ensures BooksAgree(defs, recovery, firstSeq, early, [], mid, [], id, 0)
            <==> var late, all := LateBooks(defs, recovery, firstSeq, mid), RunBooks(defs, early + mid);
                 id in late && id in all && late[id] == all[id]
  {
    var rest: seq<Book> := [];
    assert [] + mid + rest[..0] == mid && early + mid + rest[..0] == early + mid;
  }

  /** What a side needs when the late joiner missed packets behind the snapshot: some later reset gets through or
      the missed packets led back to what the snapshot shows, and each filtered reset finds the side empty. */
  ghost predicate StartSafe(depth: nat, recovery: seq<Book>, before: seq<Book>, rest: seq<Book>, id: uint32,
                            t: EntryType) {
    && (LastKept(recovery, rest) > 0 || SideRun(depth, [], recovery, id, t) == SideRun(depth, [], before, id, t))
    && AllFindEmpty(depth, SideRun(depth, [], before, id, t), recovery, rest, id, t, LastKept(recovery, rest), |rest|)
  }

  /** A late joiner who goes straight from the snapshot to `rest`, while the early joiner has seen `before`: they
      agree after every entry since the last reset that gets through if and only if both sides are safe. */
  lemma MissedExactly(defs: Books, recovery: seq<Book>, firstSeq: int, before: seq<Book>, rest: seq<Book>,
                      id: uint32, n: int)
    requires Fresh(defs) && id in defs && firstSeq <= n && SnapshotOf(recovery, id, n) && MoreThan(rest, n)
    ensures (forall k :: LastKept(recovery, rest) <= k <= |rest| ==>
                           BooksAgree(defs, recovery, firstSeq, before, [], [], rest, id, k))
            <==> StartSafe(defs[id].marketDepth, recovery, before, rest, id, Bid)
                 && StartSafe(defs[id].marketDepth, recovery, before, rest, id, Offer)
  {
    forall k | LastKept(recovery, rest) <= k <= |rest|
      ensures BooksAgree(defs, recovery, firstSeq, before, [], [], rest, id, k)
              <==> SidesAgree(defs[id].marketDepth, recovery, firstSeq, before, [], [], rest, id, Bid, k)
                   && SidesAgree(defs[id].marketDepth, recovery, firstSeq, before, [], [], rest, id, Offer, k)
    {
      BooksAgreeBySide(defs, recovery, firstSeq, before, [], [], rest, id, k);
    }
    MissedOnSide(defs[id].marketDepth, recovery, firstSeq, before, rest, id, Bid, n);
    MissedOnSide(defs[id].marketDepth, recovery, firstSeq, before, rest, id, Offer, n);
  }

  lemma MissedOnSide(depth: nat, recovery: seq<Book>, firstSeq: int, before: seq<Book>, rest: seq<Book>,
                     id: uint32, t: EntryType, n: int)
    requires firstSeq <= n && SnapshotOf(recovery, id, n) && MoreThan(rest, n)
    ensures (forall k :: LastKept(recovery, rest) <= k <= |rest| ==>
                           SidesAgree(depth, recovery, firstSeq, before, [], [], rest, id, t, k))
            <==> StartSafe(depth, recovery, before, rest, id, t)
  {
    var from, s, u := LastKept(recovery, rest), LateSide(depth, recovery, firstSeq, [], id, t),
                      SideRun(depth, [], before + [], id, t);
    assert before + [] == before;
    forall k | from <= k <= |rest|
      ensures SidesAgree(depth, recovery, firstSeq, before, [], [], rest, id, t, k)
              <==> AgreeAfter(depth, s, u, recovery, firstSeq, rest, id, t, k)
    {
      SidesAgreeAfter(depth, recovery, firstSeq, before, [], [], rest, id, t, k);
    }
    AgreeSinceKept(depth, s, u, recovery, firstSeq, n, rest, id, t);
  }

  /** A later reset that names a security with a newer snapshot is filtered, and the late joiner keeps the rows
      that it removed for everybody else. */
  lemma FilteredResetKeepsRows(defs: Books, id: uint32, other: uint32, n: uint32)
    requires Fresh(defs) && id in defs && other != id && defs[id].marketDepth >= 1 && 1 <= n < UINT32_MAX
    ensures var row := Book(1, Increment, id, Bid, New, 1, 1, 1, (1, 0));
            var recovery := [row.(kind := Snapshot, packetSeqNum := n),
                             row.(kind := Snapshot, packetSeqNum := n + 1, securityID := other)];
            var reset := row.(packetSeqNum := n + 1, securityID := other, entryType := BookReset);
            && Faithful(defs, recovery, [row], [], id) && Cut(recovery, n, [row], [], id, n)
            && id in LateBooks(defs, recovery, n, [reset]) && |LateBooks(defs, recovery, n, [reset])[id].bid| == 1
            && id in RunBooks(defs, [row, reset]) && RunBooks(defs, [row, reset])[id].bid == []
  {
    var row := Book(1, Increment, id, Bid, New, 1, 1, 1, (1, 0));
    var shown, newer := row.(kind := Snapshot, packetSeqNum := n),
                        row.(kind := Snapshot, packetSeqNum := n + 1, securityID := other);
    var recovery := [shown, newer];
    var reset := row.(packetSeqNum := n + 1, securityID := other, entryType := BookReset);
    assert recovery[..1] == [shown] && [shown][..0] == [] && [row][..0] == [] && [reset][..0] == [];
    assert RunBooks(defs, [shown]) == Modified(defs, shown);
    assert RunBooks(defs, recovery) == Modified(Modified(defs, shown), newer);
    assert [row] + [] == [row] && RunBooks(defs, [row]) == Modified(defs, row);
    assert [row, reset][..1] == [row];
    assert recovery[1] == newer && Covered(recovery, n + 1, other);
    assert Merged(recovery, n, [reset]) == [];
  }
}
