/** Which increment entries a late joiner applies, and what becomes of a side when channel resets are filtered
    like entries. */
module ResetFilter {
  import opened Types
  import opened BookLevels
  import opened BookRuns
  import opened Recovery
  import opened Snapshots

  /** Whether a late joiner applies an increment entry: its packet is newer than the first snapshot message
      and no snapshot of its security includes it. */
  ghost predicate Applies(recovery: seq<Book>, firstSeq: int, b: Book) {
    b.packetSeqNum > firstSeq && !Covered(recovery, b.packetSeqNum, b.securityID)
  }

  /** The increment entries that a late joiner applies. */
  ghost function Merged(recovery: seq<Book>, firstSeq: int, books: seq<Book>): seq<Book> {
    if books == [] then []
    else
      var b := books[|books| - 1];
      Merged(recovery, firstSeq, books[..|books| - 1]) + if Applies(recovery, firstSeq, b) then [b] else []
  }

  predicate Resets(b: Book) {
    b.entryType == BookReset
  }

  predicate AtMost(books: seq<Book>, n: int) {
    forall i :: 0 <= i < |books| ==> books[i].packetSeqNum <= n
  }

  predicate MoreThan(books: seq<Book>, n: int) {
    forall i :: 0 <= i < |books| ==> books[i].packetSeqNum > n
  }

  /** A channel reset that is filtered like an entry which a snapshot of the security it names includes. */
  ghost predicate Dropped(recovery: seq<Book>, b: Book) {
    Resets(b) && Covered(recovery, b.packetSeqNum, b.securityID)
  }

  /** A channel reset that gets through. */
  ghost predicate Kept(recovery: seq<Book>, b: Book) {
    Resets(b) && !Covered(recovery, b.packetSeqNum, b.securityID)
  }

  /** Every channel reset is filtered; in particular, there may be none. */
  ghost predicate ResetsFiltered(recovery: seq<Book>, books: seq<Book>) {
    forall i :: 0 <= i < |books| && Resets(books[i]) ==> Covered(recovery, books[i].packetSeqNum, books[i].securityID)
  }

  /** All snapshot entries of a security carry the number of its snapshot. */
  predicate SnapshotOf(recovery: seq<Book>, id: uint32, n: int) {
    forall j :: 0 <= j < |recovery| && recovery[j].securityID == id ==> recovery[j].packetSeqNum == n
  }

  predicate HasSnapshot(recovery: seq<Book>, id: uint32) {
    exists j :: 0 <= j < |recovery| && recovery[j].securityID == id
  }

  predicate NoReset(books: seq<Book>) {
    forall i :: 0 <= i < |books| ==> !Resets(books[i])
  }

  lemma {:induction false} MergedConcat(recovery: seq<Book>, firstSeq: int, a: seq<Book>, b: seq<Book>)
    ensures Merged(recovery, firstSeq, a + b) == Merged(recovery, firstSeq, a) + Merged(recovery, firstSeq, b)
  {
    if b == [] {
      assert a + b == a;
    } else {
      assert (a + b)[..|a + b| - 1] == a + b[..|b| - 1];
      MergedConcat(recovery, firstSeq, a, b[..|b| - 1]);
    }
  }

  /** Nothing of the part that precedes the first snapshot message is applied. */
  lemma {:induction false} OldIsDropped(recovery: seq<Book>, firstSeq: int, books: seq<Book>)
    requires AtMost(books, firstSeq)
    ensures Merged(recovery, firstSeq, books) == []
  {
    if books != [] {
      OldIsDropped(recovery, firstSeq, books[..|books| - 1]);
    }
  }

  /** Up to its snapshot, a security with snapshot entries sees no edit, so only a reset can touch it. */
  lemma {:induction false} CoveredIsFrozen(depth: nat, s: Side, recovery: seq<Book>, firstSeq: int, n: int,
                                           books: seq<Book>, id: uint32, t: EntryType)
    requires AtMost(books, n) && SnapshotOf(recovery, id, n) && HasSnapshot(recovery, id)
    ensures SideRun(depth, s, Merged(recovery, firstSeq, books), id, t)
            == if NoReset(Merged(recovery, firstSeq, books)) then s else []
  {
    if books != [] {
      var front, b := books[..|books| - 1], books[|books| - 1];
      CoveredIsFrozen(depth, s, recovery, firstSeq, n, front, id, t);
      var kept, all := Merged(recovery, firstSeq, front), Merged(recovery, firstSeq, books);
      if Applies(recovery, firstSeq, b) {
        assert all[..|kept|] == kept && all[|kept|] == b;
        assert b.securityID != id;
        assert NoReset(all) <==> NoReset(kept) && !Resets(b);
      } else {
        assert all == kept;
      }
    }
  }

  /** A security without snapshot entries starts empty. */
  lemma {:induction false} NoSnapshotIsEmpty(depth: nat, recovery: seq<Book>, id: uint32, t: EntryType)
    requires IsSnapshot(recovery) && !HasSnapshot(recovery, id)
    ensures SideRun(depth, [], recovery, id, t) == []
  {
    if recovery != [] {
      var front := recovery[..|recovery| - 1];
      assert forall j :: 0 <= j < |front| ==> front[j] == recovery[j];
      NoSnapshotIsEmpty(depth, front, id, t);
    }
  }

  /** A reset survives unless it is filtered. */
  lemma {:induction false} ResetsSurvive(recovery: seq<Book>, firstSeq: int, books: seq<Book>)
    requires MoreThan(books, firstSeq)
    ensures NoReset(Merged(recovery, firstSeq, books)) <==> ResetsFiltered(recovery, books)
  {
    if books != [] {
      var front, b := books[..|books| - 1], books[|books| - 1];
      ResetsSurvive(recovery, firstSeq, front);
      var kept, all := Merged(recovery, firstSeq, front), Merged(recovery, firstSeq, books);
      FilteredMore(recovery, front, b);
      assert front + [b] == books;
      if Applies(recovery, firstSeq, b) {
        assert all[|kept|] == b && all[..|kept|] == kept;
        assert NoReset(all) <==> NoReset(kept) && !Resets(b);
      } else {
        assert all == kept;
      }
    }
  }

  lemma FilteredMore(recovery: seq<Book>, books: seq<Book>, b: Book)
    ensures ResetsFiltered(recovery, books + [b])
            <==> ResetsFiltered(recovery, books) && (Resets(b) ==> Covered(recovery, b.packetSeqNum, b.securityID))
  {
    assert (books + [b])[|books|] == b;
    assert forall i :: 0 <= i < |books| ==> (books + [b])[i] == books[i];
  }

  /* ---------- the last reset that gets through ---------- */

  /** How many entries there are up to and including the last reset that gets through. */
  ghost function LastKept(recovery: seq<Book>, books: seq<Book>): (k: nat)
    ensures k <= |books| && (k > 0 ==> Kept(recovery, books[k - 1]))
    ensures forall i :: k <= i < |books| ==> !Kept(recovery, books[i])
  {
    if books == [] then 0
    else if Kept(recovery, books[|books| - 1]) then |books|
    else LastKept(recovery, books[..|books| - 1])
  }

  /** The entries without the channel resets among them. */
  function Unreset(books: seq<Book>): seq<Book> {
    if books == [] then []
    else
      var b := books[|books| - 1];
      Unreset(books[..|books| - 1]) + if Resets(b) then [] else [b]
  }

  /** The two sides after the first `k` entries: one from `s` on with the entries that are applied, one from `u`
      on with all of them. */
  ghost predicate AgreeAfter(depth: nat, s: Side, u: Side, recovery: seq<Book>, firstSeq: int, books: seq<Book>,
                             id: uint32, t: EntryType, k: nat)
    requires k <= |books|
  {
    SideRun(depth, s, Merged(recovery, firstSeq, books[..k]), id, t) == SideRun(depth, u, books[..k], id, t)
  }

  /** A filtered reset finds the side empty, if entry `k` is one. */
  ghost predicate FindsEmpty(depth: nat, u: Side, recovery: seq<Book>, books: seq<Book>, id: uint32, t: EntryType,
                             k: nat)
    requires k < |books|
  {
    Dropped(recovery, books[k]) ==> SideRun(depth, u, books[..k], id, t) == []
  }

  /** They agree after each number of entries from `from` up to `hi`. */
  ghost predicate AllAgree(depth: nat, s: Side, u: Side, recovery: seq<Book>, firstSeq: int, books: seq<Book>,
                           id: uint32, t: EntryType, from: nat, hi: nat)
    requires hi <= |books|
  {
    forall k :: from <= k <= hi ==> AgreeAfter(depth, s, u, recovery, firstSeq, books, id, t, k)
  }

  ghost predicate AllFindEmpty(depth: nat, u: Side, recovery: seq<Book>, books: seq<Book>, id: uint32, t: EntryType,
                               from: nat, hi: nat)
    requires hi <= |books|
  {
    forall k :: from <= k < hi ==> FindsEmpty(depth, u, recovery, books, id, t, k)
  }

  /** An entry of a packet behind the snapshot of `id` is applied, is a filtered reset, or is of another security. */
  lemma MergedMore(depth: nat, s: Side, recovery: seq<Book>, firstSeq: int, n: int, books: seq<Book>, b: Book,
                   id: uint32, t: EntryType)
    requires firstSeq <= n && b.packetSeqNum > n && SnapshotOf(recovery, id, n)
    ensures SideRun(depth, s, Merged(recovery, firstSeq, books + [b]), id, t)
            == var late := SideRun(depth, s, Merged(recovery, firstSeq, books), id, t);
               if Dropped(recovery, b) then late else SideStep(depth, late, b, id, t)
  {
    var kept := Merged(recovery, firstSeq, books);
    assert (books + [b])[..|books|] == books;
    if Applies(recovery, firstSeq, b) {
      assert (kept + [b])[..|kept|] == kept;
    } else {
      assert kept + [] == kept;
      assert b.securityID != id || Dropped(recovery, b);
    }
  }

  lemma RunMore(depth: nat, u: Side, books: seq<Book>, b: Book, id: uint32, t: EntryType)
    ensures SideRun(depth, u, books + [b], id, t) == SideStep(depth, SideRun(depth, u, books, id, t), b, id, t)
  {
    assert (books + [b])[..|books|] == books;
  }

  lemma Next(books: seq<Book>, k: nat, l: nat)
    requires k < |books| && l == k + 1
    ensures books[..l] == books[..k] + [books[k]]
  {
  }

  /** One more entry: two sides that agree still do, unless a filtered reset finds the second one non-empty. */
  lemma StaysAgreed(depth: nat, s: Side, u: Side, recovery: seq<Book>, firstSeq: int, n: int, books: seq<Book>,
                    id: uint32, t: EntryType, k: nat, l: nat)
    requires firstSeq <= n && MoreThan(books, n) && SnapshotOf(recovery, id, n) && k < |books| && l == k + 1
    requires AgreeAfter(depth, s, u, recovery, firstSeq, books, id, t, k)
    ensures AgreeAfter(depth, s, u, recovery, firstSeq, books, id, t, l)
            <==> FindsEmpty(depth, u, recovery, books, id, t, k)
  {
    Next(books, k, l);
    MergedMore(depth, s, recovery, firstSeq, n, books[..k], books[k], id, t);
    RunMore(depth, u, books[..k], books[k], id, t);
  }

  /** A reset that gets through makes both sides empty. */
  lemma KeptEmpties(depth: nat, s: Side, u: Side, recovery: seq<Book>, firstSeq: int, n: int, books: seq<Book>,
                    id: uint32, t: EntryType, k: nat, l: nat)
    requires firstSeq <= n && MoreThan(books, n) && SnapshotOf(recovery, id, n) && k < |books| && l == k + 1
    requires Kept(recovery, books[k])
    ensures AgreeAfter(depth, s, u, recovery, firstSeq, books, id, t, l)
  {
    Next(books, k, l);
    MergedMore(depth, s, recovery, firstSeq, n, books[..k], books[k], id, t);
    RunMore(depth, u, books[..k], books[k], id, t);
  }

  /** Sides that agree after `from` entries agree after each further one up to `hi` if and only if each filtered
      reset in between finds the second side empty. */
  lemma {:induction false} AgreeOnStretch(depth: nat, s: Side, u: Side, recovery: seq<Book>, firstSeq: int, n: int,
                                          books: seq<Book>, id: uint32, t: EntryType, from: nat, hi: nat)
    requires firstSeq <= n && MoreThan(books, n) && SnapshotOf(recovery, id, n) && from <= hi <= |books|
    requires AgreeAfter(depth, s, u, recovery, firstSeq, books, id, t, from)
    ensures AllAgree(depth, s, u, recovery, firstSeq, books, id, t, from, hi)
            <==> AllFindEmpty(depth, u, recovery, books, id, t, from, hi)
    decreases hi
  {
    if from < hi {
      var last := hi - 1;
      AgreeOnStretch(depth, s, u, recovery, firstSeq, n, books, id, t, from, last);
      if AllAgree(depth, s, u, recovery, firstSeq, books, id, t, from, last) {
        StaysAgreed(depth, s, u, recovery, firstSeq, n, books, id, t, last, hi);
      }
      StretchGrows(depth, s, u, recovery, firstSeq, books, id, t, from, last, hi);
    }
  }

  lemma StretchGrows(depth: nat, s: Side, u: Side, recovery: seq<Book>, firstSeq: int, books: seq<Book>,
                     id: uint32, t: EntryType, from: nat, last: nat, hi: nat)
    requires from <= last && hi == last + 1 && hi <= |books|
    ensures AllAgree(depth, s, u, recovery, firstSeq, books, id, t, from, hi)
            <==> AllAgree(depth, s, u, recovery, firstSeq, books, id, t, from, last)
                 && AgreeAfter(depth, s, u, recovery, firstSeq, books, id, t, hi)
    ensures AllFindEmpty(depth, u, recovery, books, id, t, from, hi)
            <==> AllFindEmpty(depth, u, recovery, books, id, t, from, last)
                 && FindsEmpty(depth, u, recovery, books, id, t, last)
  {
  }

  /** Behind the snapshot of a security, a late and an early joiner of a side that start from whatever they have
      agree after every entry since the last reset that gets through if and only if there is such a reset or they
      started equal, and each filtered reset since then finds the early joiner's side empty. */
  lemma AgreeSinceKept(depth: nat, s: Side, u: Side, recovery: seq<Book>, firstSeq: int, n: int, books: seq<Book>,
                       id: uint32, t: EntryType)
    requires firstSeq <= n && MoreThan(books, n) && SnapshotOf(recovery, id, n)
    ensures var from := LastKept(recovery, books);
            AllAgree(depth, s, u, recovery, firstSeq, books, id, t, from, |books|)
            <==> (from > 0 || s == u) && AllFindEmpty(depth, u, recovery, books, id, t, from, |books|)
  {
    var from := LastKept(recovery, books);
    if from > 0 {
      KeptEmpties(depth, s, u, recovery, firstSeq, n, books, id, t, from - 1, from);
      AgreeOnStretch(depth, s, u, recovery, firstSeq, n, books, id, t, from, |books|);
    } else {
      AgreeAtStart(depth, s, u, recovery, firstSeq, books, id, t);
      if s == u {
        AgreeOnStretch(depth, s, u, recovery, firstSeq, n, books, id, t, from, |books|);
      }
    }
  }

  lemma AgreeAtStart(depth: nat, s: Side, u: Side, recovery: seq<Book>, firstSeq: int, books: seq<Book>,
                     id: uint32, t: EntryType)
    ensures AgreeAfter(depth, s, u, recovery, firstSeq, books, id, t, 0) <==> s == u
    ensures AllAgree(depth, s, u, recovery, firstSeq, books, id, t, 0, |books|) ==> s == u
  {
    assert books[..0] == [];
  }

  /** From equal sides, they agree after every single entry if and only if each filtered reset finds the side
      empty. */
  lemma AgreeThroughout(depth: nat, s: Side, recovery: seq<Book>, firstSeq: int, n: int, books: seq<Book>,
                        id: uint32, t: EntryType)
    requires firstSeq <= n && MoreThan(books, n) && SnapshotOf(recovery, id, n)
    ensures AllAgree(depth, s, s, recovery, firstSeq, books, id, t, 0, |books|)
            <==> AllFindEmpty(depth, s, recovery, books, id, t, 0, |books|)
  {
    AgreeAtStart(depth, s, s, recovery, firstSeq, books, id, t);
    AgreeOnStretch(depth, s, s, recovery, firstSeq, n, books, id, t, 0, |books|);
  }

  /** Without filtered resets, a security misses nothing behind its snapshot. */
  lemma NewIsApplied(depth: nat, s: Side, recovery: seq<Book>, firstSeq: int, n: int, books: seq<Book>,
                     id: uint32, t: EntryType)
    requires firstSeq <= n && MoreThan(books, n) && SnapshotOf(recovery, id, n)
    requires forall i :: 0 <= i < |books| ==> !Dropped(recovery, books[i])
    ensures SideRun(depth, s, Merged(recovery, firstSeq, books), id, t) == SideRun(depth, s, books, id, t)
  {
    AgreeThroughout(depth, s, recovery, firstSeq, n, books, id, t);
    assert AgreeAfter(depth, s, s, recovery, firstSeq, books, id, t, |books|);
    assert books[..|books|] == books;
  }

  /** The entries behind the last reset that gets through, without the filtered resets. */
  ghost function Counting(recovery: seq<Book>, books: seq<Book>): seq<Book> {
    Unreset(books[LastKept(recovery, books)..])
  }

  lemma UnresetMore(books: seq<Book>, b: Book)
    ensures Unreset(books + [b]) == Unreset(books) + if Resets(b) then [] else [b]
  {
    assert (books + [b])[..|books|] == books;
  }

  lemma CountingMore(recovery: seq<Book>, books: seq<Book>, b: Book)
    ensures Kept(recovery, b) ==> LastKept(recovery, books + [b]) > 0 && Counting(recovery, books + [b]) == []
    ensures !Kept(recovery, b) ==>
              && LastKept(recovery, books + [b]) == LastKept(recovery, books)
              && Counting(recovery, books + [b]) == Counting(recovery, books) + if Resets(b) then [] else [b]
  {
    var all := books + [b];
    assert all[..|books|] == books;
    if Kept(recovery, b) {
      assert all[|all|..] == [];
    } else {
      var from := LastKept(recovery, books);
      assert all[from..] == books[from..] + [b];
      UnresetMore(books[from..], b);
    }
  }

  /** The side that a late joiner of a security ends with if only those entries count. */
  ghost function CountingRun(depth: nat, s: Side, recovery: seq<Book>, books: seq<Book>,
                             id: uint32, t: EntryType): Side {
    SideRun(depth, if LastKept(recovery, books) > 0 then [] else s, Counting(recovery, books), id, t)
  }

  lemma CountingRunMore(depth: nat, s: Side, recovery: seq<Book>, books: seq<Book>, b: Book, id: uint32, t: EntryType)
    ensures CountingRun(depth, s, recovery, books + [b], id, t)
            == var late := CountingRun(depth, s, recovery, books, id, t);
               if Dropped(recovery, b) then late else SideStep(depth, late, b, id, t)
  {
    CountingMore(recovery, books, b);
    var counting := Counting(recovery, books);
    if !Resets(b) {
      RunMore(depth, if LastKept(recovery, books) > 0 then [] else s, counting, b, id, t);
    } else {
      assert counting + [] == counting;
    }
  }

  /** What counts for a late joiner of a security are the entries behind the last reset that gets through, without
      the filtered resets. */
  lemma {:induction false} OnlyCountingCounts(depth: nat, s: Side, recovery: seq<Book>, firstSeq: int, n: int,
                                              books: seq<Book>, id: uint32, t: EntryType)
    requires firstSeq <= n && MoreThan(books, n) && SnapshotOf(recovery, id, n)
    ensures SideRun(depth, s, Merged(recovery, firstSeq, books), id, t) == CountingRun(depth, s, recovery, books, id, t)
  {
    if books == [] {
      assert Counting(recovery, books) == [];
    } else {
      var front, b := books[..|books| - 1], books[|books| - 1];
      assert books == front + [b];
      OnlyCountingCounts(depth, s, recovery, firstSeq, n, front, id, t);
      MergedMore(depth, s, recovery, firstSeq, n, front, b, id, t);
      CountingRunMore(depth, s, recovery, front, b, id, t);
    }
  }

  /** If no reset comes behind the last one that gets through, the entries behind it all count. */
  lemma {:induction false} NoResetIsUnreset(books: seq<Book>)
    requires NoReset(books)
    ensures Unreset(books) == books
  {
    if books != [] {
      NoResetIsUnreset(books[..|books| - 1]);
    }
  }
}
