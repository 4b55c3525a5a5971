/** The consumer: it drains the reorder buffer into the book manager, after a snapshot when it joined late. */
module Saver {
  import opened Types
  import opened IncrementData
  import opened PacketLog
  import opened BookLevels
  import opened BookRuns
  import opened Recovery
  import opened LateJoin
  import opened BookManagement
  import opened Feed
  import opened FeedInvariant
  import opened FeedTheorems
  import opened EndToEnd

  /** What the consumer makes of one message: those up to `firstSeq` are dropped. */
  function Taken(d: Desk, recovery: seq<Book>, firstSeq: int, m: MdpMessage): Desk {
    if m.packetSeqNum <= firstSeq then d else DeskMessage(d, recovery, m)
  }

  /** What the consumer makes of a list of messages. */
  function Consume(d: Desk, recovery: seq<Book>, firstSeq: int, ms: seq<MdpMessage>): Desk {
    if ms == [] then d else Taken(Consume(d, recovery, firstSeq, ms[..|ms| - 1]), recovery, firstSeq, ms[|ms| - 1])
  }

  predicate NoDefinitions(ms: seq<MdpMessage>) {
    forall i :: 0 <= i < |ms| ==> !ms[i].body.Definitions?
  }

  /** Without definition changes, the books the consumer ends with are those of the late-join theorems. */
  lemma {:induction false} ConsumeIsRunBooks(d: Desk, recovery: seq<Book>, firstSeq: int, ms: seq<MdpMessage>)
    requires Orderly(recovery) && NoDefinitions(ms)
    ensures Consume(d, recovery, firstSeq, ms).books == RunBooks(d.books, Consumed(recovery, firstSeq, ms))
  {
    if ms != [] {
      var front, m := ms[..|ms| - 1], ms[|ms| - 1];
      ConsumeIsRunBooks(d, recovery, firstSeq, front);
      var before := Consume(d, recovery, firstSeq, front);
      if m.packetSeqNum > firstSeq {
        MessageRunsBooks(before, recovery, m);
        RunBooksConcat(d.books, Consumed(recovery, firstSeq, front), Uncovered(recovery, m.packetSeqNum, EntriesOf(m)));
      } else {
        assert Consumed(recovery, firstSeq, ms) == Consumed(recovery, firstSeq, front);
      }
    }
  }

  lemma MessageRunsBooks(d: Desk, recovery: seq<Book>, m: MdpMessage)
    requires Orderly(recovery) && !m.body.Definitions?
    ensures DeskMessage(d, recovery, m).books == RunBooks(d.books, Uncovered(recovery, m.packetSeqNum, EntriesOf(m)))
  {
    if m.body.Books? {
      CursorRefinesFilter(recovery, m.packetSeqNum, m.body.books);
      HandleRunsBooks(d, Left(recovery, m.packetSeqNum, m.body.books));
    }
  }

  lemma {:induction false} RunBooksConcat(bs: Books, a: seq<Book>, b: seq<Book>)
    ensures RunBooks(bs, a + b) == RunBooks(RunBooks(bs, a), b)
  {
    if b == [] {
      assert a + b == a;
    } else {
      assert (a + b)[..|a + b| - 1] == a + b[..|b| - 1];
      RunBooksConcat(bs, a, b[..|b| - 1]);
    }
  }

  /** End to end with the code of the consumer: in every reachable state of the receiving side, a consumer
      that replayed a good snapshot and then consumed what it was handed has, for every security whose
      snapshot number was reached, the book that all increments from packet 1 on lead to. */
  lemma ConsumerHasTheBook(s: State, channel: int -> seq<MessageBody>, d: Desk, recovery: seq<Book>,
                           firstSeq: nat, id: uint32, n: uint32)
    requires Reachable(s) && s.accepted != [] && FromChannel(s.accepted, channel)
    requires WellParsed(channel) && n < UINT32_MAX && Joined(channel, s.accepted[0].seqNum, n, s.delivered)
    requires GoodSnapshot(d.books, recovery, firstSeq, channel, id, n)
    requires LateSafeBook(d.books, recovery, Published(channel, StartOf(firstSeq, s.accepted[0].seqNum), n + 1),
                          BooksOf(Behind(channel, s.accepted[0].seqNum, n, s.delivered)), id)
    requires Orderly(recovery) && NoDefinitions(s.delivered)
    ensures SameBook(Consume(d.(books := RunBooks(d.books, recovery)), recovery, firstSeq, s.delivered).books,
                     RunBooks(d.books, Published(channel, 1, s.accepted[0].seqNum) + BooksOf(s.delivered)), id)
  {
    LateJoinerHasTheBook(s, channel, d.books, recovery, firstSeq, id, n);
    ConsumeIsRunBooks(d.(books := RunBooks(d.books, recovery)), recovery, firstSeq, s.delivered);
  }

  /** From the data that the consumer starts with: definitions, and snapshot messages into which the entries of a good
      snapshot are split in any way. What it has then, published in any order, and has consumed of what it was handed,
      leaves it with the same book. */
  lemma StarterHasTheBook(s: State, channel: int -> seq<MessageBody>, d: Desk, definitions: seq<Instrument>,
                          ms: seq<RecoveryMessage>, cuts: seq<nat>, recovery: seq<Book>, order: seq<uint32>,
                          id: uint32, n: uint32)
    requires Reachable(s) && s.accepted != [] && FromChannel(s.accepted, channel)
    requires WellParsed(channel) && n < UINT32_MAX && Joined(channel, s.accepted[0].seqNum, n, s.delivered)
    requires ms != [] && Splits(ms, cuts, recovery) && Orderly(recovery) && NoDefinitions(s.delivered)
    requires var firstSeq, defs := ms[0].lastMsgSeqNumProcessed, DeskDefineAll(d, definitions).books;
             && GoodSnapshot(defs, recovery, firstSeq, channel, id, n)
             && LateSafeBook(defs, recovery, Published(channel, StartOf(firstSeq, s.accepted[0].seqNum), n + 1),
                             BooksOf(Behind(channel, s.accepted[0].seqNum, n, s.delivered)), id)
    ensures var start := DeskDefineAll(d, definitions);
            SameBook(Consume(Replayed(start, AllBooks(ms), order), AllBooks(ms), ms[0].lastMsgSeqNumProcessed,
                             s.delivered).books,
                     RunBooks(start.books, Published(channel, 1, s.accepted[0].seqNum) + BooksOf(s.delivered)), id)
  {
    var firstSeq, start := ms[0].lastMsgSeqNumProcessed, DeskDefineAll(d, definitions);
    SplitIsWhole(ms, cuts, recovery);
    LateJoinerHasTheBook(s, channel, start.books, recovery, firstSeq, id, n);
    ConsumeIsRunBooks(Replayed(start, recovery, order), recovery, firstSeq, s.delivered);
  }

  /** The messages a consumer takes before it has to wait. */
  function Takeable(datas: seq<MdpMessage>, holes: set<int>): seq<MdpMessage> {
    if datas == [] || exists h :: h in holes && h <= datas[0].packetSeqNum then []
    else [datas[0]] + Takeable(datas[1..], holes)
  }

  /** What the consumer takes is a prefix of the buffer, all of it below every hole, and it ends only at the end of the
      buffer or at a message that lies above a hole. */
  lemma {:induction false} TakeableIsPrefix(datas: seq<MdpMessage>, holes: set<int>)
    ensures Takeable(datas, holes) <= datas
    ensures var n := |Takeable(datas, holes)|;
            && (forall i, h :: 0 <= i < n && h in holes ==> datas[i].packetSeqNum < h)
            && (n < |datas| ==> exists h :: h in holes && h <= datas[n].packetSeqNum)
  {
    if datas != [] && Takeable(datas, holes) != [] {
      TakeableIsPrefix(datas[1..], holes);
      assert datas == [datas[0]] + datas[1..];
    }
  }

  /** In every reachable state of the receiving side in which the consumer holds no message, what it takes before it
      waits is all that can be delivered and was not handed over yet. */
  lemma DrainTakesDeliverable(s: State)
    requires Reachable(s) && s.picked.None?
    ensures s.delivered + Takeable(s.buffer.datas, s.buffer.holes) == Deliverable(s)
  {
    ReachableKeeps(s);
    if s.inserted == {} {
      NothingStored(s);
    } else {
      var later := LineSplits(s);
      DeliveredFollows(s);
      TwoCuts(s.delivered, s.buffer.datas, Deliverable(s), later);
      MissingIsFirstHole(s);
      StreamNumbers(s.accepted, Numbers(s.accepted), First(s), Missing(s));
      var rest := Deliverable(s)[|s.delivered|..];
      assert s.buffer.datas == rest + later by {
        SplitBehind(s.delivered, s.buffer.datas, Deliverable(s), later);
      }
      TakeableEnds(rest, later, s.buffer.holes, Missing(s));
    }
  }

  lemma SplitBehind<T>(a: seq<T>, b: seq<T>, c: seq<T>, d: seq<T>)
    requires a + b == c + d && a <= c
    ensures b == c[|a|..] + d
  {
    assert c == a + c[|a|..];
    assert (a + b)[|a|..] == b && (c + d)[|a|..] == c[|a|..] + d;
  }

  /** Taking stops at the first message behind the first hole. */
  lemma {:induction false} TakeableEnds(rest: seq<MdpMessage>, later: seq<MdpMessage>, holes: set<int>, first: int)
    requires AllUpto(rest, first - 1) && AllAbove(later, first) && forall h :: h in holes ==> first <= h
    requires later != [] ==> first in holes
    ensures Takeable(rest + later, holes) == rest
  {
    var line := rest + later;
    if rest == [] {
      assert later != [] ==> line[0] == later[0];
    } else {
      TakeableEnds(rest[1..], later, holes, first);
      assert line[1..] == rest[1..] + later && rest == [rest[0]] + rest[1..];
    }
  }

  /** What draining starts from and what it does not change. */
  datatype Draining = Draining(
    datas: seq<MdpMessage>,
    holes: set<int>,
    desk: Desk,
    recovery: seq<Book>,
    firstSeq: uint32)

  class DatSaver {
    const data: CmeData
    const bookManager: BookManager
    var recoveryFirstSeq: uint32

    ghost predicate Valid()
      reads this, data, bookManager, bookManager.controller, bookManager.controller.owned, bookManager.recovery
    {
      data.Valid() && bookManager.Valid()
    }

    /** The snapshot cursor is not ahead of the next message. */
    ghost predicate Caught()
      requires bookManager.recovery.Valid()
      reads this, data, bookManager, bookManager.recovery
    {
      data.incrementDatas != [] ==> bookManager.recovery.PassedOlderThan(data.incrementDatas[0].packetSeqNum)
    }

    constructor (data: CmeData, bookManager: BookManager)
      requires data.Valid() && bookManager.Valid()
      ensures Valid() && this.data == data && this.bookManager == bookManager
      ensures recoveryFirstSeq == 0
    {
      this.data, this.bookManager := data, bookManager;
      recoveryFirstSeq := 0;
    }

    /** Definitions first, then the snapshot; the first snapshot message says which increments are too old. */
    method ProcessRecoveryData(definitions: seq<Instrument>, recoveryDatas: seq<RecoveryMessage>)
      returns (ghost order: seq<uint32>)
      requires Valid() && recoveryDatas != [] && bookManager.recovery.recoveryBooks == []
      modifies `recoveryFirstSeq
      modifies bookManager, bookManager.controller, bookManager.controller.owned, bookManager.recovery
      ensures Valid() && fresh(bookManager.controller.owned - old(bookManager.controller.owned))
      ensures recoveryFirstSeq == recoveryDatas[0].lastMsgSeqNumProcessed
      ensures bookManager.recovery.recoveryBooks == AllBooks(recoveryDatas) && bookManager.recovery.waitMerge == 0
      ensures bookManager.desk
              == Replayed(DeskDefineAll(old(bookManager.desk), definitions), AllBooks(recoveryDatas), order)
    {
      bookManager.OnDefinitions(definitions);
      assert [] + AllBooks(recoveryDatas) == AllBooks(recoveryDatas);
      order := bookManager.ParseRecovery(recoveryDatas);
      recoveryFirstSeq := recoveryDatas[0].lastMsgSeqNumProcessed;
    }

    /** Drops a message that the first snapshot message includes; everything else goes to the books. */
    method ConvertMessage(m: MdpMessage) returns (shouldSend: bool)
      requires Valid() && bookManager.recovery.PassedOlderThan(m.packetSeqNum)
      modifies bookManager, bookManager.controller, bookManager.controller.owned, bookManager.recovery`waitMerge
      ensures Valid() && bookManager.recovery.PassedOlderThan(m.packetSeqNum)
      ensures fresh(bookManager.controller.owned - old(bookManager.controller.owned))
      ensures shouldSend == (m.packetSeqNum > recoveryFirstSeq)
      ensures bookManager.desk
              == Taken(old(bookManager.desk), bookManager.recovery.recoveryBooks, recoveryFirstSeq, m)
    {
      if m.packetSeqNum <= recoveryFirstSeq {
        return false;
      }
      bookManager.ParseToSend(m);
      return true;
    }

    /** Converts a picked message and removes it. */
    method ProcessPicked(m: MdpMessage)
      requires Valid() && bookManager.recovery.PassedOlderThan(m.packetSeqNum)
      requires data.incrementDatas != [] && data.incrementDatas[0] == m
      modifies data`incrementDatas
      modifies bookManager, bookManager.controller, bookManager.controller.owned, bookManager.recovery`waitMerge
      ensures Valid() && Caught()
      ensures fresh(bookManager.controller.owned - old(bookManager.controller.owned))
      ensures data.incrementDatas == old(data.incrementDatas)[1..]
      ensures bookManager.desk
              == Taken(old(bookManager.desk), bookManager.recovery.recoveryBooks, recoveryFirstSeq, m)
    {
      var shouldSendNow := ConvertMessage(m);
      data.RemoveIncrementData(0);
    }

    /** Where draining stands: `taken` of `datas` went through the books. */
    ghost predicate Progress(run: Draining, taken: seq<MdpMessage>)
      requires Valid()
      reads this, data, bookManager, bookManager.controller, bookManager.controller.owned, bookManager.recovery
    {
      && Caught()
      && data.unreceivedSeqs == run.holes
      && recoveryFirstSeq == run.firstSeq && bookManager.recovery.recoveryBooks == run.recovery
      && Drained(run.datas, run.holes, taken, data.incrementDatas)
      && bookManager.desk == Consume(run.desk, run.recovery, run.firstSeq, taken)
    }

    /** Processes the first message, which lies below every hole. */
    method ProcessFirst(m: MdpMessage, ghost run: Draining, ghost taken: seq<MdpMessage>)
      requires Valid() && Progress(run, taken)
      requires Ready(data.View()) && data.incrementDatas[0] == m
      modifies data`incrementDatas
      modifies bookManager, bookManager.controller, bookManager.controller.owned, bookManager.recovery`waitMerge
      ensures Valid() && fresh(bookManager.controller.owned - old(bookManager.controller.owned))
      ensures Progress(run, taken + [m]) && data.incrementDatas == old(data.incrementDatas)[1..]
    {
      TakeOne(run.datas, run.holes, taken, data.incrementDatas);
      ConsumeMore(run.desk, run.recovery, run.firstSeq, taken, m);
      ProcessPicked(m);
    }

    /** One round of the consumer loop. */
    method ProcessNext(ghost run: Draining, ghost taken: seq<MdpMessage>) returns (message: Option<MdpMessage>)
      requires Valid() && Progress(run, taken)
      modifies data`incrementDatas
      modifies bookManager, bookManager.controller, bookManager.controller.owned, bookManager.recovery`waitMerge
      ensures Valid() && fresh(bookManager.controller.owned - old(bookManager.controller.owned))
      ensures message.None? ==> Progress(run, taken) && Takeable(data.incrementDatas, run.holes) == []
      ensures message.Some? ==> Progress(run, taken + [message.value])
      ensures message.Some? ==> |data.incrementDatas| < |old(data.incrementDatas)|
    {
      message := data.PickNextMessage();
      if message.None? {
        NothingTakeable(data.View());
        return;
      }
      ProcessFirst(message.value, run, taken);
    }

    /** The consumer loop, up to the moment when it has to wait. */
    method DrainFrom(ghost run: Draining) returns (ghost taken: seq<MdpMessage>)
      requires Valid() && Progress(run, [])
      modifies data`incrementDatas
      modifies bookManager, bookManager.controller, bookManager.controller.owned, bookManager.recovery`waitMerge
      ensures Valid() && fresh(bookManager.controller.owned - old(bookManager.controller.owned))
      ensures Progress(run, taken) && Takeable(data.incrementDatas, run.holes) == []
    {
      taken := [];
      while true
        invariant Valid() && Progress(run, taken)
        invariant fresh(bookManager.controller.owned - old(bookManager.controller.owned))
        decreases |data.incrementDatas|
      {
        var message := ProcessNext(run, taken);
        if message.None? {
          return;
        }
        taken := taken + [message.value];
      }
    }

    /** Drains the buffer until the next message in order is missing: every message below the first hole is
        consumed once, in order, and removed. */
    method Drain() returns (ghost taken: seq<MdpMessage>)
      requires Valid() && Caught()
      modifies data`incrementDatas
      modifies bookManager, bookManager.controller, bookManager.controller.owned, bookManager.recovery`waitMerge
      ensures Valid() && fresh(bookManager.controller.owned - old(bookManager.controller.owned))
      ensures old(data.incrementDatas) == taken + data.incrementDatas
      ensures taken == Takeable(old(data.incrementDatas), data.unreceivedSeqs)
      ensures bookManager.desk
              == Consume(old(bookManager.desk), bookManager.recovery.recoveryBooks, recoveryFirstSeq, taken)
    {
      ghost var run := Draining(data.incrementDatas, data.unreceivedSeqs, bookManager.desk,
                                bookManager.recovery.recoveryBooks, recoveryFirstSeq);
      NothingDrained(run.datas, run.holes);
      taken := DrainFrom(run);
      AllDrained(run.datas, run.holes, taken, data.incrementDatas);
    }

    /** A consumer that sees packet 1 first needs no snapshot; any other one starts from it. `order` is
        the order in which the snapshot was published. */
    method StartSave(definitions: seq<Instrument>, recoveryDatas: seq<RecoveryMessage>)
      returns (ghost order: seq<uint32>, ghost taken: seq<MdpMessage>)
      requires Valid() && recoveryFirstSeq == 0
      requires data.incrementDatas != [] && data.incrementDatas[0].packetSeqNum > 1 ==> recoveryDatas != []
      requires bookManager.recovery.recoveryBooks == [] && bookManager.recovery.waitMerge == 0
      modifies this, data`incrementDatas
      modifies bookManager, bookManager.controller, bookManager.controller.owned, bookManager.recovery
      ensures Valid()
      ensures var datas, before := old(data.incrementDatas), old(bookManager.desk);
              if datas == [] || datas[0].packetSeqNum == 0 then
                taken == [] && bookManager.desk == before
              else
                && taken == Takeable(datas, data.unreceivedSeqs)
                && bookManager.desk == (
                     if datas[0].packetSeqNum == 1 then Consume(before, [], 0, taken)
                     else
                       Consume(Replayed(DeskDefineAll(before, definitions), AllBooks(recoveryDatas), order),
                               AllBooks(recoveryDatas), recoveryDatas[0].lastMsgSeqNumProcessed, taken))
    {
      order, taken := [], [];
      var firstSeq := data.GetIncrementFirstDataSeq();
      if firstSeq == 0 {
        return;
      }
      if firstSeq != 1 {
        order := ProcessRecoveryData(definitions, recoveryDatas);
      }
      taken := Drain();
    }
  }

  /** `datas` was split into what was taken so far and the rest, and `taken` is part of what can be taken. */
  ghost predicate Drained(datas: seq<MdpMessage>, holes: set<int>, taken: seq<MdpMessage>, rest: seq<MdpMessage>) {
    datas == taken + rest && Takeable(datas, holes) == taken + Takeable(rest, holes)
  }

  lemma NothingTakeable(b: Buffer)
    requires !Ready(b)
    ensures Takeable(b.datas, b.holes) == []
  {
  }

  lemma NothingDrained(datas: seq<MdpMessage>, holes: set<int>)
    ensures Drained(datas, holes, [], datas)
  {
    assert [] + datas == datas && [] + Takeable(datas, holes) == Takeable(datas, holes);
  }

  lemma AllDrained(datas: seq<MdpMessage>, holes: set<int>, taken: seq<MdpMessage>, rest: seq<MdpMessage>)
    requires Drained(datas, holes, taken, rest) && Takeable(rest, holes) == []
    ensures datas == taken + rest && taken == Takeable(datas, holes)
  {
    assert taken + [] == taken;
  }

  lemma TakeOne(datas: seq<MdpMessage>, holes: set<int>, taken: seq<MdpMessage>, rest: seq<MdpMessage>)
    requires Drained(datas, holes, taken, rest)
    requires rest != [] && forall h :: h in holes ==> rest[0].packetSeqNum < h
    ensures Drained(datas, holes, taken + [rest[0]], rest[1..])
  {
    var m, later := rest[0], rest[1..];
    assert rest == [m] + later;
    assert taken + ([m] + later) == (taken + [m]) + later;
    assert Takeable(rest, holes) == [m] + Takeable(later, holes);
    assert taken + ([m] + Takeable(later, holes)) == (taken + [m]) + Takeable(later, holes);
  }

  lemma ConsumeMore(d: Desk, recovery: seq<Book>, firstSeq: int, taken: seq<MdpMessage>, m: MdpMessage)
    ensures Consume(d, recovery, firstSeq, taken + [m])
            == Taken(Consume(d, recovery, firstSeq, taken), recovery, firstSeq, m)
  {
    assert (taken + [m])[..|taken|] == taken;
  }
}
