/** From packets on two lossy feeds to the books of a late joiner. */
module EndToEnd {
  import opened Types
  import opened Sequences
  import opened IncrementData
  import opened PacketLog
  import opened BookLevels
  import opened BookRuns
  import opened Recovery
  import opened ResetFilter
  import opened LateJoin
  import opened Snapshots
  import opened Feed
  import opened FeedInvariant
  import opened FeedTheorems

  function EntriesOf(m: MdpMessage): seq<Book> {
    if m.body.Books? then m.body.books else []
  }

  /** The entries of all messages, in order. */
  function BooksOf(ms: seq<MdpMessage>): seq<Book> {
    if ms == [] then [] else BooksOf(ms[..|ms| - 1]) + EntriesOf(ms[|ms| - 1])
  }

  /** The parser stamps every increment entry with the number of its packet. */
  predicate Stamped(m: MdpMessage) {
    forall i :: 0 <= i < |EntriesOf(m)| ==> EntriesOf(m)[i].packetSeqNum == m.packetSeqNum
  }

  predicate AllStamped(ms: seq<MdpMessage>) {
    forall i :: 0 <= i < |ms| ==> Stamped(ms[i])
  }

  /** The entries that the consumer applies, decided message by message. */
  ghost function Consumed(recovery: seq<Book>, firstSeq: int, ms: seq<MdpMessage>): seq<Book> {
    if ms == [] then []
    else
      var m := ms[|ms| - 1];
      Consumed(recovery, firstSeq, ms[..|ms| - 1])
      + if m.packetSeqNum <= firstSeq then [] else Uncovered(recovery, m.packetSeqNum, EntriesOf(m))
  }

  lemma {:induction false} MergedOfOneMessage(recovery: seq<Book>, firstSeq: int, n: int, books: seq<Book>)
    requires forall i :: 0 <= i < |books| ==> books[i].packetSeqNum == n
    ensures Merged(recovery, firstSeq, books) == if n <= firstSeq then [] else Uncovered(recovery, n, books)
  {
    if books != [] {
      MergedOfOneMessage(recovery, firstSeq, n, books[..|books| - 1]);
    }
  }

  /** Deciding message by message is deciding entry by entry. */
  lemma {:induction false} ConsumedIsMerged(recovery: seq<Book>, firstSeq: int, ms: seq<MdpMessage>)
    requires AllStamped(ms)
    ensures Consumed(recovery, firstSeq, ms) == Merged(recovery, firstSeq, BooksOf(ms))
  {
    if ms != [] {
      var front, m := ms[..|ms| - 1], ms[|ms| - 1];
      ConsumedIsMerged(recovery, firstSeq, front);
      assert Stamped(m);
      MergedOfOneMessage(recovery, firstSeq, m.packetSeqNum, EntriesOf(m));
      MergedConcat(recovery, firstSeq, BooksOf(front), EntriesOf(m));
    }
  }

  lemma {:induction false} BooksOfConcat(a: seq<MdpMessage>, b: seq<MdpMessage>)
    ensures BooksOf(a + b) == BooksOf(a) + BooksOf(b)
  {
    if b == [] {
      assert a + b == a;
    } else {
      assert (a + b)[..|a + b| - 1] == a + b[..|b| - 1];
      BooksOfConcat(a, b[..|b| - 1]);
    }
  }

  /** Every body of the channel parses to stamped entries. */
  ghost predicate WellParsed(channel: int -> seq<MessageBody>) {
    forall n: uint32, i :: 0 <= i < |channel(n)| ==> Stamped(MdpMessage(n, channel(n)[i]))
  }

  /** Channel messages of [lo, hi) are stamped and numbered inside the range. */
  lemma {:induction false} ChannelRange(channel: int -> seq<MessageBody>, lo: uint32, hi: int)
    requires WellParsed(channel) && hi <= UINT32_MAX + 1
    ensures AllStamped(ChannelMessages(channel, lo, hi))
    ensures AllAbove(ChannelMessages(channel, lo, hi), lo - 1) && AllUpto(ChannelMessages(channel, lo, hi), hi - 1)
    decreases hi - lo
  {
    if lo < hi {
      ChannelRange(channel, lo, hi - 1);
      var n: uint32, ms := hi - 1, Messages(Packet(hi - 1, channel(hi - 1)));
      forall i | 0 <= i < |ms|
        ensures Stamped(ms[i])
      {
        assert ms[i] == MdpMessage(n, channel(n)[i]);
      }
    }
  }

  /** Entries inherit the bounds of the messages they are in. */
  lemma {:induction false} BooksInRange(ms: seq<MdpMessage>, lo: int, hi: int)
    requires AllStamped(ms)
    ensures AllAbove(ms, lo) ==> MoreThan(BooksOf(ms), lo)
    ensures AllUpto(ms, hi) ==> AtMost(BooksOf(ms), hi)
  {
    if ms != [] {
      var front, m := ms[..|ms| - 1], ms[|ms| - 1];
      BooksInRange(front, lo, hi);
      assert Stamped(m);
    }
  }

  /** Cutting anywhere between the first snapshot number and the first packet seen filters the same. */
  lemma {:induction false} SameCut(recovery: seq<Book>, firstSeq: int, cut: int, books: seq<Book>)
    requires forall i :: 0 <= i < |books| ==> (books[i].packetSeqNum > firstSeq <==> books[i].packetSeqNum > cut)
    ensures Merged(recovery, firstSeq, books) == Merged(recovery, cut, books)
  {
    if books != [] {
      SameCut(recovery, firstSeq, cut, books[..|books| - 1]);
    }
  }

  /** Everything the channel published in packets [lo, hi), as entries. */
  function Published(channel: int -> seq<MessageBody>, lo: uint32, hi: int): seq<Book>
    requires hi <= UINT32_MAX + 1
  {
    BooksOf(ChannelMessages(channel, lo, hi))
  }

  lemma PublishedSplit(channel: int -> seq<MessageBody>, lo: uint32, mid: uint32, hi: int)
    requires lo <= mid <= hi <= UINT32_MAX + 1
    ensures Published(channel, lo, hi) == Published(channel, lo, mid) + Published(channel, mid, hi)
  {
    ChannelSplit(channel, lo, mid, hi);
    BooksOfConcat(ChannelMessages(channel, lo, mid), ChannelMessages(channel, mid, hi));
  }

  lemma PublishedInRange(channel: int -> seq<MessageBody>, lo: uint32, hi: int, below: int, top: int)
    requires WellParsed(channel) && hi <= UINT32_MAX + 1 && below == lo - 1 && top == hi - 1
    ensures MoreThan(Published(channel, lo, hi), below) && AtMost(Published(channel, lo, hi), top)
  {
    ChannelRange(channel, lo, hi);
    BooksInRange(ChannelMessages(channel, lo, hi), lo - 1, hi - 1);
  }

  /** The snapshot entries of a security list the rows of its book, by ascending level on each side. */
  ghost predicate ListsBook(recovery: seq<Book>, v: BookValue, id: uint32) {
    && Ascending(Quotes(recovery, id, Bid)) && Lists(Quotes(recovery, id, Bid), v.bid)
    && Ascending(Quotes(recovery, id, Offer)) && Lists(Quotes(recovery, id, Offer), v.ask)
  }

  /** The snapshot data of a late joiner: `firstSeq` is the number of its first message, and the entries of
      security `id`, if any, list its book as of packet `n`. */
  ghost predicate GoodSnapshot(defs: Books, recovery: seq<Book>, firstSeq: int, channel: int -> seq<MessageBody>,
                               id: uint32, n: uint32)
    requires n < UINT32_MAX
  {
    && firstSeq <= n
    && Fresh(defs) && id in defs
    && IsSnapshot(recovery) && SnapshotOf(recovery, id, n)
    && id in RunBooks(defs, Published(channel, 1, n + 1))
    && ListsBook(recovery, RunBooks(defs, Published(channel, 1, n + 1))[id], id)
  }

  lemma ListedSideIsRebuilt(defs: Books, recovery: seq<Book>, books: seq<Book>, id: uint32, t: EntryType)
    requires Fresh(defs) && id in defs && id in RunBooks(defs, books)
    requires (t == Bid || t == Offer) && IsSnapshot(recovery)
    requires Ascending(Quotes(recovery, id, t)) && Lists(Quotes(recovery, id, t), SideOf(RunBooks(defs, books)[id], t))
    ensures id in RunBooks(defs, recovery)
    ensures SideOf(RunBooks(defs, recovery)[id], t) == SideOf(RunBooks(defs, books)[id], t)
  {
    SideProjection(defs, recovery, id, t);
    SideProjection(defs, books, id, t);
    ShorterStaysShorter(defs[id].marketDepth, [], [], books, id, t);
    SnapshotRebuilds(defs[id].marketDepth, recovery, SideOf(RunBooks(defs, books)[id], t), id, t);
  }

  /** Replaying a good snapshot rebuilds the book that it lists. */
  lemma ListedBookIsRebuilt(defs: Books, recovery: seq<Book>, books: seq<Book>, id: uint32)
    requires Fresh(defs) && id in defs && id in RunBooks(defs, books) && IsSnapshot(recovery)
    requires ListsBook(recovery, RunBooks(defs, books)[id], id)
    ensures SameBook(RunBooks(defs, recovery), RunBooks(defs, books), id)
  {
    ListedSideIsRebuilt(defs, recovery, books, id, Bid);
    ListedSideIsRebuilt(defs, recovery, books, id, Offer);
    OnlySidesChange(defs, recovery, id);
    OnlySidesChange(defs, books, id);
    SameSidesSameBook(RunBooks(defs, recovery)[id], RunBooks(defs, books)[id]);
  }

  /** The same for a snapshot that comes in messages, split anywhere. */
  lemma SplitListingIsRebuilt(defs: Books, ms: seq<RecoveryMessage>, cuts: seq<nat>, recovery: seq<Book>,
                              books: seq<Book>, id: uint32)
    requires Splits(ms, cuts, recovery)
    requires Fresh(defs) && id in defs && id in RunBooks(defs, books) && IsSnapshot(recovery)
    requires ListsBook(recovery, RunBooks(defs, books)[id], id)
    ensures SameBook(RunBooks(defs, AllBooks(ms)), RunBooks(defs, books), id)
  {
    SplitIsWhole(ms, cuts, recovery);
    ListedBookIsRebuilt(defs, recovery, books, id);
  }

  ghost predicate SameBook(a: Books, b: Books, id: uint32) {
    id in a && id in b && a[id] == b[id]
  }

  /** The first packet that a late joiner who starts with packet `first` may apply. */
  function StartOf(firstSeq: int, first: uint32): int {
    Max(firstSeq + 1, first)
  }

  /** The entries of an early and of a late consumer are cut into the same middle and rest. */
  lemma Pieces(channel: int -> seq<MessageBody>, first: uint32, start: uint32, n: uint32, tail: seq<MdpMessage>)
    requires n < UINT32_MAX && 1 <= first <= start <= n + 1
    ensures Published(channel, 1, n + 1) == Published(channel, 1, start) + Published(channel, start, n + 1)
    ensures Published(channel, 1, start) == Published(channel, 1, first) + Published(channel, first, start)
    ensures BooksOf(ChannelMessages(channel, first, n + 1) + tail)
            == Published(channel, first, start) + Published(channel, start, n + 1) + BooksOf(tail)
  {
    PublishedSplit(channel, 1, start, n + 1);
    PublishedSplit(channel, 1, first, start);
    PublishedSplit(channel, first, start, n + 1);
    BooksOfConcat(ChannelMessages(channel, first, n + 1), tail);
  }

  lemma StampedConcat(a: seq<MdpMessage>, b: seq<MdpMessage>)
    requires AllStamped(a) && AllStamped(b)
    ensures AllStamped(a + b)
  {
  }

  lemma PiecesInRange(channel: int -> seq<MessageBody>, first: uint32, start: uint32, n: uint32, cut: int)
    requires WellParsed(channel) && n < UINT32_MAX && 1 <= first <= start <= n + 1 && cut == start - 1
    ensures AtMost(Published(channel, 1, start), cut)
    ensures AtMost(Published(channel, first, start), cut)
    ensures MoreThan(Published(channel, start, n + 1), cut) && AtMost(Published(channel, start, n + 1), n)
    ensures AllStamped(ChannelMessages(channel, first, n + 1))
    ensures first == start ==> Published(channel, first, start) == []
  {
    PublishedInRange(channel, 1, start, 0, cut);
    PublishedInRange(channel, first, start, first - 1, cut);
    PublishedInRange(channel, start, n + 1, cut, n);
    ChannelRange(channel, first, n + 1);
    if first == start {
      assert ChannelMessages(channel, first, start) == [];
    }
  }

  /** Agreement of the two consumers once their entries are cut into pieces. */
  lemma PiecesAgree(defs: Books, recovery: seq<Book>, firstSeq: int, cut: int, before: seq<Book>, seen: seq<Book>,
                    mid: seq<Book>, tail: seq<MdpMessage>, delivered: seq<MdpMessage>, id: uint32, n: int)
    requires firstSeq <= cut <= n && Fresh(defs) && id in defs && IsSnapshot(recovery) && SnapshotOf(recovery, id, n)
    requires AtMost(before + seen, cut) && AtMost(seen, cut) && (firstSeq < cut ==> seen == [])
    requires MoreThan(mid, cut) && AtMost(mid, n) && MoreThan(BooksOf(tail), n)
    requires SameBook(RunBooks(defs, recovery), RunBooks(defs, before + seen + mid), id)
    requires LateSafeBook(defs, recovery, mid, BooksOf(tail), id)
    requires AllStamped(delivered) && BooksOf(delivered) == seen + mid + BooksOf(tail)
    ensures SameBook(RunBooks(RunBooks(defs, recovery), Consumed(recovery, firstSeq, delivered)),
                     RunBooks(defs, before + BooksOf(delivered)), id)
  {
    var early, rest := before + seen, BooksOf(tail);
    AssocOuter(before, seen, mid, rest);
    OverlapCuts(recovery, firstSeq, cut, seen, mid, rest, n);
    LateEqualsEarly(defs, recovery, cut, early, seen, mid, rest, id, n);
    assert BooksAgree(defs, recovery, cut, early, seen, mid, rest, id, |rest|) && rest[..|rest|] == rest;
    ConsumedIsMerged(recovery, firstSeq, delivered);
  }

  /** A consumer that was handed packets first..n and then `tail` has the book of a consumer that was handed
      packets 1..n and then `tail`. */
  lemma LateConsumerAgrees(defs: Books, recovery: seq<Book>, firstSeq: nat, channel: int -> seq<MessageBody>,
                           first: uint32, tail: seq<MdpMessage>, id: uint32, n: uint32)
    requires WellParsed(channel) && n < UINT32_MAX && 1 <= first <= n + 1
    requires GoodSnapshot(defs, recovery, firstSeq, channel, id, n)
    requires AllStamped(tail) && AllAbove(tail, n)
    requires LateSafeBook(defs, recovery, Published(channel, StartOf(firstSeq, first), n + 1), BooksOf(tail), id)
    ensures SameBook(RunBooks(RunBooks(defs, recovery),
                              Consumed(recovery, firstSeq, ChannelMessages(channel, first, n + 1) + tail)),
                     RunBooks(defs, Published(channel, 1, first)
                                    + BooksOf(ChannelMessages(channel, first, n + 1) + tail)),
                     id)
  {
    var start: uint32 := StartOf(firstSeq, first);
    var cut := start - 1;
    var delivered := ChannelMessages(channel, first, n + 1) + tail;
    var before, seen := Published(channel, 1, first), Published(channel, first, start);
    var mid := Published(channel, start, n + 1);
    Pieces(channel, first, start, n, tail);
    PiecesInRange(channel, first, start, n, cut);
    assert MoreThan(BooksOf(tail), n) by {
      BooksInRange(tail, n, n);
    }
    assert AllStamped(delivered) by {
      StampedConcat(ChannelMessages(channel, first, n + 1), tail);
    }
    ListedBookIsRebuilt(defs, recovery, Published(channel, 1, n + 1), id);
    PiecesAgree(defs, recovery, firstSeq, cut, before, seen, mid, tail, delivered, id, n);
  }

  lemma OverlapCuts(recovery: seq<Book>, firstSeq: int, cut: int, seen: seq<Book>, mid: seq<Book>, rest: seq<Book>,
                    n: int)
    requires firstSeq <= cut <= n && AtMost(seen, cut) && (firstSeq < cut ==> seen == [])
    requires MoreThan(mid, cut) && MoreThan(rest, n)
    ensures Merged(recovery, firstSeq, seen + mid + rest) == Merged(recovery, cut, seen + mid + rest)
  {
    SameCut(recovery, firstSeq, cut, seen + mid + rest);
  }

  /** What follows packet `n` in a prefix of the channel comes from later packets of the channel. */
  lemma TailFollows(channel: int -> seq<MessageBody>, first: uint32, n: uint32, hi: int, tail: seq<MdpMessage>)
    requires WellParsed(channel) && n < UINT32_MAX && first <= n + 1 && first <= hi <= UINT32_MAX
    requires ChannelMessages(channel, first, n + 1) + tail <= ChannelMessages(channel, first, hi)
    ensures hi <= n + 1 ==> tail == []
    ensures hi > n + 1 ==> tail <= ChannelMessages(channel, n + 1, hi)
  {
    var got, all := ChannelMessages(channel, first, n + 1), ChannelMessages(channel, first, hi);
    if hi <= n + 1 {
      ChannelSplit(channel, first, hi, n + 1);
      assert |got + tail| <= |all| <= |got|;
    } else {
      ChannelSplit(channel, first, n + 1, hi);
      PrefixOfRest(got, tail, ChannelMessages(channel, n + 1, hi));
    }
  }

  lemma PrefixOfRest<T>(a: seq<T>, b: seq<T>, c: seq<T>)
    requires a + b <= a + c
    ensures b <= c
  {
    assert |b| <= |c|;
    assert forall i :: 0 <= i < |b| ==> b[i] == (a + b)[|a| + i] == (a + c)[|a| + i] == c[i];
  }

  /** Part of the later messages of the channel. */
  lemma TailIsGood(channel: int -> seq<MessageBody>, n: uint32, hi: uint32, tail: seq<MdpMessage>)
    requires WellParsed(channel) && n + 1 < hi && tail <= ChannelMessages(channel, n + 1, hi)
    ensures AllStamped(tail) && AllAbove(tail, n)
  {
    ChannelRange(channel, n + 1, hi);
    PartIsGood(ChannelMessages(channel, n + 1, hi), n, tail);
  }

  lemma PartIsGood(later: seq<MdpMessage>, n: int, tail: seq<MdpMessage>)
    requires tail <= later && AllStamped(later) && AllAbove(later, n)
    ensures AllStamped(tail) && AllAbove(tail, n)
  {
    assert forall i :: 0 <= i < |tail| ==> tail[i] == later[i];
  }

  /** What the late joiner must have: at least the packets up to the snapshot number of the security. */
  ghost predicate Joined(channel: int -> seq<MessageBody>, first: uint32, n: uint32, delivered: seq<MdpMessage>)
    requires n < UINT32_MAX
  {
    1 <= first <= n + 1 && ChannelMessages(channel, first, n + 1) <= delivered
  }

  lemma AnyTailIsGood(channel: int -> seq<MessageBody>, first: uint32, n: uint32, hi: int, tail: seq<MdpMessage>)
    requires WellParsed(channel) && n < UINT32_MAX && first <= n + 1 && first <= hi <= UINT32_MAX
    requires ChannelMessages(channel, first, n + 1) + tail <= ChannelMessages(channel, first, hi)
    ensures AllStamped(tail) && AllAbove(tail, n)
  {
    TailFollows(channel, first, n, hi, tail);
    if hi > n + 1 {
      TailIsGood(channel, n, hi, tail);
    }
  }

  /** What was handed over behind packet `n`. */
  function Behind(channel: int -> seq<MessageBody>, first: uint32, n: uint32, delivered: seq<MdpMessage>)
    : seq<MdpMessage>
    requires n < UINT32_MAX && ChannelMessages(channel, first, n + 1) <= delivered
  {
    delivered[|ChannelMessages(channel, first, n + 1)|..]
  }

  lemma SplitPrefix<T>(a: seq<T>, b: seq<T>) returns (rest: seq<T>)
    requires a <= b
    ensures b == a + rest && rest == b[|a|..]
  {
    rest := b[|a|..];
  }

  /** A prefix of the channel that reaches packet `n` is packets first..n and a well-formed tail. */
  lemma JoinedSplits(channel: int -> seq<MessageBody>, first: uint32, hi: int, delivered: seq<MdpMessage>, n: uint32)
    returns (tail: seq<MdpMessage>)
    requires WellParsed(channel) && n < UINT32_MAX && Joined(channel, first, n, delivered)
    requires first <= hi <= UINT32_MAX && delivered <= ChannelMessages(channel, first, hi)
    ensures tail == Behind(channel, first, n, delivered)
    ensures delivered == ChannelMessages(channel, first, n + 1) + tail
    ensures AllStamped(tail) && AllAbove(tail, n)
  {
    tail := SplitPrefix(ChannelMessages(channel, first, n + 1), delivered);
    AnyTailIsGood(channel, first, n, hi, tail);
  }

  lemma JoinedHasTheBook(channel: int -> seq<MessageBody>, first: uint32, hi: int, delivered: seq<MdpMessage>,
                         defs: Books, recovery: seq<Book>, firstSeq: nat, id: uint32, n: uint32)
    requires first <= hi <= UINT32_MAX && delivered <= ChannelMessages(channel, first, hi)
    requires WellParsed(channel) && n < UINT32_MAX && Joined(channel, first, n, delivered)
    requires GoodSnapshot(defs, recovery, firstSeq, channel, id, n)
    requires LateSafeBook(defs, recovery, Published(channel, StartOf(firstSeq, first), n + 1),
                          BooksOf(Behind(channel, first, n, delivered)), id)
    ensures SameBook(RunBooks(RunBooks(defs, recovery), Consumed(recovery, firstSeq, delivered)),
                     RunBooks(defs, Published(channel, 1, first) + BooksOf(delivered)), id)
  {
    var tail := JoinedSplits(channel, first, hi, delivered, n);
    LateConsumerAgrees(defs, recovery, firstSeq, channel, first, tail, id, n);
  }

  /** End to end: whatever the feeds lose, duplicate or reorder, whatever the replay threads do and however
      all threads interleave, once the consumer of a late joiner was handed the packets up to the snapshot
      number of a security, its book is the one that every increment from packet 1 on leads to. */
  lemma LateJoinerHasTheBook(s: State, channel: int -> seq<MessageBody>, defs: Books, recovery: seq<Book>,
                             firstSeq: nat, id: uint32, n: uint32)
    requires Reachable(s) && s.accepted != [] && FromChannel(s.accepted, channel)
    requires WellParsed(channel) && n < UINT32_MAX && Joined(channel, s.accepted[0].seqNum, n, s.delivered)
    requires GoodSnapshot(defs, recovery, firstSeq, channel, id, n)
    requires LateSafeBook(defs, recovery, Published(channel, StartOf(firstSeq, s.accepted[0].seqNum), n + 1),
                          BooksOf(Behind(channel, s.accepted[0].seqNum, n, s.delivered)), id)
    ensures SameBook(RunBooks(RunBooks(defs, recovery), Consumed(recovery, firstSeq, s.delivered)),
                     RunBooks(defs, Published(channel, 1, s.accepted[0].seqNum) + BooksOf(s.delivered)), id)
  {
    ReachableFollowsChannel(s, channel);
    JoinedHasTheBook(channel, s.accepted[0].seqNum, Missing(s), s.delivered, defs, recovery, firstSeq, id, n);
  }

  lemma ReachableFollowsChannel(s: State, channel: int -> seq<MessageBody>)
    requires Reachable(s) && s.accepted != [] && FromChannel(s.accepted, channel)
    ensures s.accepted[0].seqNum <= Missing(s) <= UINT32_MAX
    ensures s.delivered <= ChannelMessages(channel, s.accepted[0].seqNum, Missing(s))
  {
    ReachableKeeps(s);
    DeliveredFromChannel(s, channel);
  }

  /* ---------- one cursor for the whole run ---------- */

  /** Where the snapshot cursor is after a list of messages: each message with entries that is not dropped moves
      it on from where it was. */
  function CursorAfter(recovery: seq<Book>, firstSeq: int, ms: seq<MdpMessage>): (c: nat)
    ensures c <= |recovery|
  {
    if ms == [] then 0
    else
      var before, m := CursorAfter(recovery, firstSeq, ms[..|ms| - 1]), ms[|ms| - 1];
      if m.packetSeqNum <= firstSeq || EntriesOf(m) == [] then before
      else FirstIncluding(recovery, m.packetSeqNum, before)
  }

  lemma {:induction false} CursorPassesOlder(recovery: seq<Book>, firstSeq: int, ms: seq<MdpMessage>, n: int)
    requires AllUpto(ms, n)
    ensures forall k :: 0 <= k < CursorAfter(recovery, firstSeq, ms) ==> recovery[k].packetSeqNum < n
  {
    if ms != [] {
      CursorPassesOlder(recovery, firstSeq, ms[..|ms| - 1], n);
    }
  }

  lemma CursorFindsPlace(recovery: seq<Book>, firstSeq: int, ms: seq<MdpMessage>, i: nat)
    requires NonDecreasing(ms) && i < |ms|
    ensures var n := ms[i].packetSeqNum;
            FirstIncluding(recovery, n, CursorAfter(recovery, firstSeq, ms[..i])) == FirstIncluding(recovery, n, 0)
  {
    var n := ms[i].packetSeqNum;
    CursorPassesOlder(recovery, firstSeq, ms[..i], n);
    CursorResumes(recovery, n, 0, CursorAfter(recovery, firstSeq, ms[..i]));
  }

  /** Over every interleaving, one cursor that only moves forward finds at each message that is handed over the
      place that a search from the beginning finds, and stays there after a message with entries. */
  lemma OneCursorSuffices(acts: seq<Action>, recovery: seq<Book>, firstSeq: int, i: nat)
    requires AllNumbered(acts) && i < |Run(acts).delivered|
    ensures var delivered := Run(acts).delivered;
            var n := delivered[i].packetSeqNum;
            && FirstIncluding(recovery, n, CursorAfter(recovery, firstSeq, delivered[..i]))
               == FirstIncluding(recovery, n, 0)
            && (n > firstSeq && EntriesOf(delivered[i]) != [] ==>
                  CursorAfter(recovery, firstSeq, delivered[..i + 1]) == FirstIncluding(recovery, n, 0))
  {
    DeliveredNeverFalls(acts);
    CursorFindsPlace(recovery, firstSeq, Run(acts).delivered, i);
    assert Run(acts).delivered[..i + 1][..i] == Run(acts).delivered[..i];
  }

  /* ---------- joining too late ---------- */

  lemma {:induction false} NothingConsumed(recovery: seq<Book>, firstSeq: int, ms: seq<MdpMessage>)
    requires BooksOf(ms) == []
    ensures Consumed(recovery, firstSeq, ms) == []
  {
    if ms != [] {
      NothingConsumed(recovery, firstSeq, ms[..|ms| - 1]);
    }
  }

  /** The packets that were missed, and the resets in `rest` that are filtered, do a side no harm: some later reset
      gets through or the missed packets left the side as it was, and each filtered reset finds the side empty. */
  ghost predicate MissHarmless(depth: nat, recovery: seq<Book>, shown: seq<Book>, before: seq<Book>, rest: seq<Book>,
                               id: uint32, t: EntryType) {
    && (LastKept(recovery, rest) > 0 || SideRun(depth, [], shown, id, t) == SideRun(depth, [], before, id, t))
    && AllFindEmpty(depth, SideRun(depth, [], before, id, t), recovery, rest, id, t, LastKept(recovery, rest), |rest|)
  }

  /** A consumer whose first packet is later than the one after the snapshot has, after every entry that it is handed
      since the last reset that gets through, the book of a consumer from packet 1 on, if and only if the packets
      that it missed did no harm. */
  lemma LateStartExactly(defs: Books, recovery: seq<Book>, firstSeq: nat, channel: int -> seq<MessageBody>,
                         id: uint32, n: uint32, first: uint32, rest: seq<Book>)
    requires n + 1 < first && GoodSnapshot(defs, recovery, firstSeq, channel, id, n) && MoreThan(rest, n)
    ensures var shown, before := Published(channel, 1, n + 1), Published(channel, 1, first);
            var depth := defs[id].marketDepth;
            (forall k :: LastKept(recovery, rest) <= k <= |rest| ==>
                           BooksAgree(defs, recovery, firstSeq, before, [], [], rest, id, k))
            <==> MissHarmless(depth, recovery, shown, before, rest, id, Bid)
                 && MissHarmless(depth, recovery, shown, before, rest, id, Offer)
  {
    ListedSideIsReplayed(defs, recovery, Published(channel, 1, n + 1), id, Bid);
    ListedSideIsReplayed(defs, recovery, Published(channel, 1, n + 1), id, Offer);
    MissedExactly(defs, recovery, firstSeq, Published(channel, 1, first), rest, id, n);
  }

  lemma ListedSideIsReplayed(defs: Books, recovery: seq<Book>, books: seq<Book>, id: uint32, t: EntryType)
    requires Fresh(defs) && id in defs && id in RunBooks(defs, books)
    requires (t == Bid || t == Offer) && IsSnapshot(recovery)
    requires Ascending(Quotes(recovery, id, t)) && Lists(Quotes(recovery, id, t), SideOf(RunBooks(defs, books)[id], t))
    ensures SideRun(defs[id].marketDepth, [], recovery, id, t) == SideRun(defs[id].marketDepth, [], books, id, t)
  {
    ListedSideIsRebuilt(defs, recovery, books, id, t);
    SideProjection(defs, recovery, id, t);
    SideProjection(defs, books, id, t);
  }

  /** In terms of messages: what the consumer ends with after `ms`. */
  lemma LateStartHasTheBook(defs: Books, recovery: seq<Book>, firstSeq: nat, channel: int -> seq<MessageBody>,
                            id: uint32, n: uint32, first: uint32, ms: seq<MdpMessage>)
    requires n + 1 < first && GoodSnapshot(defs, recovery, firstSeq, channel, id, n)
    requires AllStamped(ms) && AllAbove(ms, n)
    requires var shown, before := Published(channel, 1, n + 1), Published(channel, 1, first);
             var depth := defs[id].marketDepth;
             MissHarmless(depth, recovery, shown, before, BooksOf(ms), id, Bid)
             && MissHarmless(depth, recovery, shown, before, BooksOf(ms), id, Offer)
    ensures SameBook(RunBooks(RunBooks(defs, recovery), Consumed(recovery, firstSeq, ms)),
                     RunBooks(defs, Published(channel, 1, first) + BooksOf(ms)), id)
  {
    var rest, before := BooksOf(ms), Published(channel, 1, first);
    BooksInRange(ms, n, n);
    LateStartExactly(defs, recovery, firstSeq, channel, id, n, first, rest);
    WholeAgrees(defs, recovery, firstSeq, before, rest, id);
    ConsumedIsMerged(recovery, firstSeq, ms);
  }

  lemma WholeAgrees(defs: Books, recovery: seq<Book>, firstSeq: int, before: seq<Book>, rest: seq<Book>, id: uint32)
    requires BooksAgree(defs, recovery, firstSeq, before, [], [], rest, id, |rest|)
    ensures SameBook(RunBooks(RunBooks(defs, recovery), Merged(recovery, firstSeq, rest)),
                     RunBooks(defs, before + rest), id)
  {
    assert rest[..|rest|] == rest && [] + [] + rest == rest && before + [] + rest == before + rest;
  }

  /** A channel whose only entry is in packet `n`. */
  function OneEntry(n: uint32, b: Book): int -> seq<MessageBody> {
    k => if k == n then [Books([b])] else []
  }

  lemma OneEntryOfPacket(n: uint32, b: Book, k: uint32)
    ensures BooksOf(Messages(Packet(k, OneEntry(n, b)(k)))) == if k == n then [b] else []
  {
    var ms := Messages(Packet(k, OneEntry(n, b)(k)));
    if k == n {
      assert ms == [MdpMessage(n, Books([b]))];
      assert ms[..0] == [];
      assert BooksOf(ms) == [] + [b];
    } else {
      assert ms == [];
    }
  }

  lemma {:induction false} OneEntryPublished(n: uint32, b: Book, lo: uint32, hi: int)
    requires hi <= UINT32_MAX + 1
    ensures Published(OneEntry(n, b), lo, hi) == if lo <= n < hi then [b] else []
    decreases hi - lo
  {
    if lo < hi {
      var k: uint32 := hi - 1;
      var channel := OneEntry(n, b);
      assert ChannelMessages(channel, lo, hi) == ChannelMessages(channel, lo, k) + Messages(Packet(k, channel(k)));
      OneEntryPublished(n, b, lo, k);
      OneEntryOfPacket(n, b, k);
      BooksOfConcat(ChannelMessages(channel, lo, k), Messages(Packet(k, channel(k))));
    }
  }

  /** The first packet must not come later than the one after the snapshot: with any later first packet there
      is a channel on which the late joiner misses an entry, and it never gets it, however much it is handed. */
  lemma StartingTooLateFails(defs: Books, id: uint32, n: uint32, first: uint32, hi: uint32)
    requires Fresh(defs) && id in defs && defs[id].marketDepth >= 1 && n + 1 < first <= hi
    ensures var b := Book(n + 1, Increment, id, Bid, New, 1, 1, 1, (1, 0));
            var channel := OneEntry(n + 1, b);
            && GoodSnapshot(defs, [], n, channel, id, n)
            && !SameBook(RunBooks(RunBooks(defs, []), Consumed([], n, ChannelMessages(channel, first, hi))),
                         RunBooks(defs, Published(channel, 1, hi)), id)
  {
    var b := Book(n + 1, Increment, id, Bid, New, 1, 1, 1, (1, 0));
    var channel := OneEntry(n + 1, b);
    OneEntryPublished(n + 1, b, 1, n + 1);
    OneEntryPublished(n + 1, b, 1, hi);
    OneEntryPublished(n + 1, b, first, hi);
    NothingConsumed([], n, ChannelMessages(channel, first, hi));
    OneEntryChanges(defs, b);
  }

  lemma OneEntryChanges(defs: Books, b: Book)
    requires Fresh(defs) && b.securityID in defs && defs[b.securityID].marketDepth >= 1
    requires b.kind == Increment && b.entryType == Bid && b.updateAction == New && b.priceLevel == 1
    ensures !SameBook(RunBooks(defs, []), RunBooks(defs, [b]), b.securityID)
  {
    assert [b][..0] == [];
    assert RunBooks(defs, [b]) == Modified(defs, b);
    assert |RunBooks(defs, [b])[b.securityID].bid| == 1;
  }
}
