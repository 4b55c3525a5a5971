/** What the receiving side guarantees over every interleaving. */
module FeedTheorems {
  import opened Types
  import opened Arbitrator
  import opened IncrementData
  import opened PacketLog
  import opened Feed
  import opened FeedInvariant

  /** The messages of packets first, first+1, ..., `hi` - 1 as they were accepted. */
  function InOrder(s: State, hi: int): seq<MdpMessage> {
    if s.accepted == [] then [] else Stream(s.accepted, Numbers(s.accepted), First(s), hi)
  }

  /** The first number from `lo` up to `top` that was not stored, or `top` + 1. */
  function FirstMissing(inserted: set<int>, lo: int, top: int): (n: int)
    ensures lo <= n && (lo <= top + 1 ==> n <= top + 1)
    ensures forall i :: lo <= i < n ==> i in inserted
    ensures n <= top ==> n !in inserted
    decreases top + 1 - lo
  {
    if lo > top || lo !in inserted then lo else FirstMissing(inserted, lo + 1, top)
  }

  function Missing(s: State): int {
    if s.accepted == [] then 0 else FirstMissing(s.inserted, First(s), s.arbitration.current)
  }

  /** The messages of the packets that can be delivered without waiting for any other packet. */
  function Deliverable(s: State): seq<MdpMessage> {
    InOrder(s, Missing(s))
  }

  /** Two ways to cut one line: the shorter first piece is a prefix of the longer one. */
  lemma TwoCuts<T>(a: seq<T>, b: seq<T>, c: seq<T>, d: seq<T>)
    requires a + b == c + d
    ensures |a| <= |c| ==> a <= c
    ensures |a| > |c| ==> d != [] && d[0] == a[|c|]
    ensures |a| < |c| ==> b != [] && b[0] == c[|a|]
    ensures |a| == |c| ==> b == d
  {
    var line := a + b;
    assert forall i :: 0 <= i < |a| ==> a[i] == line[i];
    assert forall i :: 0 <= i < |c| ==> c[i] == line[i];
    assert forall i :: 0 <= i < |b| ==> b[i] == line[|a| + i];
    assert forall i :: 0 <= i < |d| ==> d[i] == line[|c| + i];
  }

  /** A state reached by the protocol in which some packet was stored. */
  ghost predicate Started(s: State) {
    Inv(s) && s.inserted != {}
  }

  lemma MissingIsFirstHole(s: State)
    requires Started(s)
    ensures Missing(s) <= s.buffer.last + 1 <= s.arbitration.current + 1
    ensures Missing(s) == s.buffer.last + 1 ==> s.buffer.holes == {}
    ensures Missing(s) <= s.buffer.last ==> Missing(s) in s.buffer.holes
    ensures forall h :: h in s.buffer.holes ==> Missing(s) <= h
  {
    var n, last := Missing(s), s.buffer.last;
    assert last + 1 !in s.inserted;
    assert n <= last + 1;
    forall h | h in s.buffer.holes
      ensures n <= h <= last
    {
      assert First(s) < h < last && h !in s.inserted;
    }
    if n == last + 1 {
      assert s.buffer.holes == {};
    } else {
      assert First(s) in s.inserted && n != First(s);
      assert n != last;
    }
  }

  /** Up to the first missing packet, the stored stream is the whole accepted stream. */
  lemma StoredUpToMissing(s: State)
    requires Started(s)
    ensures Stream(s.accepted, s.inserted, First(s), Missing(s)) == Deliverable(s)
  {
    MissingIsFirstHole(s);
    StreamAgree(s.accepted, s.inserted, s.accepted, Numbers(s.accepted), First(s), Missing(s));
  }

  lemma BehindMissing(s: State)
    requires Started(s)
    ensures var later := Stream(s.accepted, s.inserted, Missing(s), s.buffer.last + 1);
            AllAbove(later, Missing(s)) && (later != [] ==> Missing(s) in s.buffer.holes)
  {
    MissingIsFirstHole(s);
    var n, last := Missing(s), s.buffer.last;
    if n <= last {
      StreamInsertFree(s.accepted, s.inserted, n, last + 1);
      StreamNumbers(s.accepted, s.inserted, n + 1, last + 1);
    }
  }

  lemma LineSplits(s: State) returns (later: seq<MdpMessage>)
    requires Started(s)
    ensures s.delivered + Rest(s) == Deliverable(s) + later
    ensures AllAbove(later, Missing(s))
    ensures later != [] ==> Missing(s) in s.buffer.holes
  {
    MissingIsFirstHole(s);
    StreamSplit(s.accepted, s.inserted, First(s), Missing(s), s.buffer.last + 1);
    StoredUpToMissing(s);
    BehindMissing(s);
    later := Stream(s.accepted, s.inserted, Missing(s), s.buffer.last + 1);
  }

  lemma StreamInsertFree(ps: seq<Packet>, d: set<int>, n: int, hi: int)
    requires n !in d && n < hi
    ensures Stream(ps, d, n, hi) == Stream(ps, d, n + 1, hi)
  {
    StreamInsert(ps, d, n, n, hi);
    assert Stream(ps, d, n, n) == [];
  }

  /** The consumer has got a prefix of what can be delivered. */
  lemma DeliveredFollows(s: State)
    requires Started(s)
    ensures s.delivered <= Deliverable(s)
  {
    var later := LineSplits(s);
    TwoCuts(s.delivered, Rest(s), Deliverable(s), later);
  }

  /** Pick is neither early nor stuck: it returns exactly while something is deliverable that was not
      handed over, and it returns the next deliverable message. */
  lemma PickContinues(s: State)
    requires Started(s) && s.picked.None?
    ensures Ready(s.buffer) <==> |s.delivered| < |Deliverable(s)|
    ensures Ready(s.buffer) ==> s.buffer.datas[0] == Deliverable(s)[|s.delivered|]
  {
    MissingIsFirstHole(s);
    DeliveredFollows(s);
    var later := LineSplits(s);
    TwoCuts(s.delivered, s.buffer.datas, Deliverable(s), later);
    StreamNumbers(s.accepted, Numbers(s.accepted), First(s), Missing(s));
  }

  /** Before anything was stored, nothing is deliverable and the consumer waits. */
  lemma NothingStored(s: State)
    requires Inv(s) && s.inserted == {}
    ensures Deliverable(s) == [] && s.delivered == [] && !Ready(s.buffer) && s.picked.None?
  {
    if s.accepted != [] {
      assert Missing(s) == First(s);
    }
  }

  lemma PickContinuesAlways(s: State)
    requires Inv(s) && s.picked.None?
    ensures Ready(s.buffer) <==> |s.delivered| < |Deliverable(s)|
    ensures Ready(s.buffer) ==> Step(s, PickMessage).delivered == Deliverable(s)[..|s.delivered| + 1]
  {
    if s.inserted == {} {
      NothingStored(s);
    } else {
      PickContinues(s);
      DeliveredFollows(s);
    }
  }

  lemma DeliveredInOrder(s: State)
    requires Inv(s)
    ensures s.delivered <= Deliverable(s)
    ensures s.accepted != [] ==>
              && First(s) <= Missing(s) <= s.arbitration.current + 1
              && forall n :: First(s) <= n < Missing(s) ==> n in Numbers(s.accepted)
  {
    if s.inserted == {} {
      NothingStored(s);
    } else {
      MissingIsFirstHole(s);
      DeliveredFollows(s);
    }
  }

  /** Exactly-once in-order delivery: over every interleaving, the consumer has been handed a prefix of
      the messages of the packets numbered first, first+1, ..., all of which were accepted. */
  lemma ExactlyOnceInOrder(acts: seq<Action>)
    requires AllNumbered(acts)
    ensures Run(acts).delivered <= InOrder(Run(acts), Missing(Run(acts)))
    ensures Run(acts).accepted != [] ==>
              forall n :: First(Run(acts)) <= n < Missing(Run(acts)) ==> n in Numbers(Run(acts).accepted)
  {
    RunKeeps(acts);
    DeliveredInOrder(Run(acts));
  }

  lemma LowestIsFirst(s: State)
    requires Started(s) && s.delivered == [] && s.accepted[0].bodies != []
    ensures s.buffer.datas != [] && s.buffer.datas[0] == Messages(s.accepted[0])[0]
  {
    var p := s.accepted[0];
    assert s.picked.None? && [] + s.buffer.datas == s.buffer.datas;
    StreamBegins(s.accepted, s.inserted, p.seqNum, p.seqNum + 1, s.buffer.last + 1);
    assert Carried(s.accepted, p.seqNum) == Messages(p) by {
      CarriedOnce(s.accepted);
    }
  }

  /** Over every interleaving, until the consumer is handed something, what lies first in the buffer is the first
      message of the first accepted packet: the number by which the consumer decides whether it needs a snapshot. */
  lemma FirstBufferedIsFirst(acts: seq<Action>)
    requires AllNumbered(acts) && Run(acts).inserted != {} && Run(acts).delivered == []
    requires Run(acts).accepted != [] && Run(acts).accepted[0].bodies != []
    ensures var s := Run(acts);
            && s.buffer.datas != [] && s.buffer.datas[0].packetSeqNum == First(s)
            && s.buffer.datas[0].body == s.accepted[0].bodies[0]
  {
    RunKeeps(acts);
    LowestIsFirst(Run(acts));
  }

  lemma DeliveredRises(s: State)
    requires Inv(s)
    ensures NonDecreasing(s.delivered)
  {
    DeliveredInOrder(s);
    if s.accepted != [] {
      StreamNonDecreasing(s.accepted, Numbers(s.accepted), First(s), Missing(s));
      assert forall i :: 0 <= i < |s.delivered| ==> s.delivered[i] == Deliverable(s)[i];
    }
  }

  /** Over every interleaving, the numbers of the messages that the consumer is handed never fall. */
  lemma DeliveredNeverFalls(acts: seq<Action>)
    requires AllNumbered(acts)
    ensures NonDecreasing(Run(acts).delivered)
  {
    RunKeeps(acts);
    DeliveredRises(Run(acts));
  }

  lemma DeliveredFromChannel(s: State, channel: int -> seq<MessageBody>)
    requires Inv(s) && s.accepted != [] && FromChannel(s.accepted, channel)
    ensures Missing(s) <= UINT32_MAX
    ensures s.delivered <= ChannelMessages(channel, s.accepted[0].seqNum, Missing(s))
  {
    DeliveredInOrder(s);
    if s.inserted == {} {
      NothingStored(s);
    } else {
      StreamIsChannel(s.accepted, channel, s.accepted[0].seqNum, Missing(s));
    }
  }

  /** When both feeds and the replays carry the channel's packets, delivery is a prefix of the channel
      itself from the first accepted packet on. */
  lemma DeliveryFollowsChannel(acts: seq<Action>, channel: int -> seq<MessageBody>)
    requires AllNumbered(acts)
    requires Run(acts).accepted != [] && FromChannel(Run(acts).accepted, channel)
    ensures Missing(Run(acts)) <= UINT32_MAX
    ensures Run(acts).delivered <= ChannelMessages(channel, Run(acts).accepted[0].seqNum, Missing(Run(acts)))
  {
    RunKeeps(acts);
    DeliveredFromChannel(Run(acts), channel);
  }

  /** Over every interleaving the consumer can go on exactly while the next message in order was stored,
      and then that message is what it gets. */
  lemma PickNeitherEarlyNorStuck(acts: seq<Action>)
    requires AllNumbered(acts) && Run(acts).picked.None?
    ensures Ready(Run(acts).buffer) <==> |Run(acts).delivered| < |Deliverable(Run(acts))|
    ensures Ready(Run(acts).buffer) ==>
              Step(Run(acts), PickMessage).delivered == Deliverable(Run(acts))[..|Run(acts).delivered| + 1]
  {
    RunKeeps(acts);
    PickContinuesAlways(Run(acts));
  }

  /** Nothing is lost and no thread holds a packet that it did not store. */
  predicate Settled(s: State) {
    s.arbitration.lost == {} && !s.udp.Checked? && s.replays == map[]
  }

  lemma SettledIsDeliverable(s: State)
    requires Inv(s) && s.accepted != [] && Settled(s)
    ensures Deliverable(s) == InOrder(s, s.arbitration.current + 1)
    ensures forall n :: First(s) <= n <= s.arbitration.current ==> n in Numbers(s.accepted)
  {
    forall n | First(s) <= n <= s.arbitration.current
      ensures n in s.inserted
    {
      assert n in Numbers(s.accepted);
      assert !InFlight(s, n);
    }
    assert Missing(s) == s.arbitration.current + 1;
  }

  /** Once no packet is lost or inside a thread, all packets from the first to the current one were accepted
      and their messages are deliverable. */
  lemma RecoveredIsDeliverable(s: State)
    requires Reachable(s) && s.accepted != [] && Settled(s)
    ensures Deliverable(s) == InOrder(s, s.arbitration.current + 1)
    ensures forall n :: First(s) <= n <= s.arbitration.current ==> n in Numbers(s.accepted)
  {
    ReachableKeeps(s);
    SettledIsDeliverable(s);
  }

  /** Each number is accepted at most once over both feeds and all replays, never below the first, and
      accepted and lost numbers partition [first, current]. */
  lemma AcceptedOnce(acts: seq<Action>)
    requires AllNumbered(acts)
    ensures var s := Run(acts);
            && Distinct(s.accepted)
            && Numbers(s.accepted) !! s.arbitration.lost
            && (s.accepted != [] ==>
                  && First(s) in Numbers(s.accepted) && s.arbitration.current in Numbers(s.accepted)
                  && forall n :: First(s) <= n <= s.arbitration.current
                                 <==> n in Numbers(s.accepted) || n in s.arbitration.lost)
  {
    RunKeeps(acts);
  }

  /** The holes of the buffer are the lost or in-flight numbers below its highest number. */
  lemma HolesAreOutstanding(acts: seq<Action>, n: int)
    requires AllNumbered(acts) && Run(acts).inserted != {}
    ensures var s := Run(acts);
            n in s.buffer.holes <==> n < s.buffer.last && (n in s.arbitration.lost || InFlight(s, n))
  {
    RunKeeps(acts);
    OutstandingBelowLast(Run(acts), n);
  }

  lemma OutstandingBelowLast(s: State, n: int)
    requires Started(s)
    ensures n in s.buffer.holes <==> n < s.buffer.last && (n in s.arbitration.lost || InFlight(s, n))
  {
    if n in s.buffer.holes {
      assert n in Numbers(s.accepted) || n in s.arbitration.lost;
    }
    if n in s.arbitration.lost {
      assert n !in Numbers(s.accepted);
    }
    if InFlight(s, n) {
      assert n in Numbers(s.accepted) && n !in s.inserted;
    }
  }

  /** `everLost` is what its name says: the union of the lost sets of all states so far. */
  lemma EverLostIsHistory(s: State, a: Action)
    requires Inv(s) && Numbered(a)
    ensures Step(s, a).everLost == s.everLost + Step(s, a).arbitration.lost
  {
    assert Arbitrated(s) && s.arbitration.lost <= s.everLost;
    if a.CheckFeed? {
      LostGrowsByGap(s.arbitration, a.packet.seqNum);
    } else {
      assert Step(s, a).arbitration.lost <= s.arbitration.lost && Step(s, a).everLost == s.everLost;
    }
  }

  /** A feed packet adds the reported gap to the lost numbers, or takes its own number out. */
  lemma LostGrowsByGap(a: Arbitration, n: uint32)
    requires n != NO_SEQUENCE
    ensures var (after, status) := FeedCheck(a, n);
            status != DISCARD ==> Gap(status, n) <= after.lost <= a.lost + Gap(status, n)
  {
    if a.current != NO_SEQUENCE && n == a.current + 1 {
      assert Between(a.current, n) == {};
    }
  }

  /** Replay requests are disjoint, none precedes the storing of the packet that revealed its gap, and
      whenever the UDP thread is idle they cover exactly the numbers that were ever lost. */
  lemma RequestsCoverLosses(acts: seq<Action>)
    requires AllNumbered(acts)
    ensures RequestsExact(Run(acts))
  {
    RunKeeps(acts);
    InvGivesExactRequests(Run(acts));
  }

  ghost predicate RequestsExact(s: State) {
    && (forall i, j :: 0 <= i < j < |s.requests| ==> s.requests[i].end < s.requests[j].begin)
    && (forall i :: 0 <= i < |s.requests| ==> s.requests[i].begin <= s.requests[i].end)
    && (forall i :: 0 <= i < |s.requests| ==> s.requests[i].end + 1 in s.inserted)
    && (s.udp.Idle? ==> Requested(s.requests) == s.everLost)
  }

  lemma InvGivesExactRequests(s: State)
    requires Inv(s)
    ensures RequestsExact(s)
  {
    assert RequestsOrdered(s) && RequestsCover(s);
    if s.udp.Idle? {
      assert Pending(s) == {};
    }
  }

  /** A packet numbered 2^32-1 goes through the UDP thread, and then comes another feed packet. */
  ghost function AfterSentinel(s: State, top: Packet, next: Packet): State {
    Step(Step(Step(Step(s, CheckFeed(top)), StoreFeed), RequestReplay), CheckFeed(next))
  }

  /** Number 2^32-1 breaks acceptance exactly when the UDP thread looks at it after a first packet: then the
      first packet, seen again, is accepted again. Otherwise every number stays accepted at most once. */
  lemma SentinelBreaks(s: State, top: Packet, next: Packet)
    requires Inv(s) && top.seqNum == NO_SEQUENCE
    requires if s.accepted == [] then next.seqNum != NO_SEQUENCE else next == s.accepted[0]
    ensures Distinct(AfterSentinel(s, top, next).accepted) <==> !s.udp.Idle? || s.accepted == []
  {
    var t := Step(s, CheckFeed(top));
    if s.udp.Idle? && s.accepted != [] {
      SentinelRestarts(s, top, next);
    } else {
      assert t == s;
      StepKeeps(s, StoreFeed);
      StepKeeps(Step(s, StoreFeed), RequestReplay);
      StepKeeps(Step(Step(s, StoreFeed), RequestReplay), CheckFeed(next));
    }
  }

  lemma SentinelRestarts(s: State, top: Packet, next: Packet)
    requires Inv(s) && top.seqNum == NO_SEQUENCE && s.udp.Idle? && s.accepted != [] && next == s.accepted[0]
    ensures AfterSentinel(s, top, next).accepted == s.accepted + [top] + [next]
    ensures !Distinct(AfterSentinel(s, top, next).accepted)
  {
    var t := Step(s, CheckFeed(top));
    assert First(s) <= s.arbitration.current < NO_SEQUENCE;
    assert t.arbitration.current == NO_SEQUENCE && t.accepted == s.accepted + [top];
    var u := Step(Step(t, StoreFeed), RequestReplay);
    assert u.udp.Idle? && u.arbitration == t.arbitration && u.accepted == t.accepted;
    var twice := s.accepted + [top] + [next];
    assert twice[0] == twice[|s.accepted| + 1];
  }

  /** After number 2^32-1 a packet that was already accepted is accepted again. */
  lemma SentinelAcceptsTwice()
    ensures var p, top := Packet(0xFFFF_FFFE, []), Packet(0xFFFF_FFFF, []);
            Run([CheckFeed(p), StoreFeed, CheckFeed(top), StoreFeed, CheckFeed(p)]).accepted == [p, top, p]
  {
    var p, top := Packet(0xFFFF_FFFE, []), Packet(0xFFFF_FFFF, []);
    var acts := [CheckFeed(p), StoreFeed, CheckFeed(top), StoreFeed, CheckFeed(p)];
    assert acts[..4][..3] == acts[..3] && acts[..3][..2] == acts[..2] && acts[..2][..1] == acts[..1];
    assert acts[..1][..0] == [];
    assert Run(acts[..1]) == Step(INITIAL, CheckFeed(p));
    assert Run(acts[..2]) == Step(Run(acts[..1]), StoreFeed);
    assert Run(acts[..3]) == Step(Run(acts[..2]), CheckFeed(top));
    assert Run(acts[..4]) == Step(Run(acts[..3]), StoreFeed);
  }
}
