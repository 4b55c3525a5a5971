/** The glue between arbitrator, buffer and replayer, as each thread runs it when it is not interrupted. */
module Processing {
  import opened Types
  import opened Arbitrator
  import opened IncrementData
  import opened Feed
  import opened FeedInvariant

  /** The protocol state after some steps that no other thread interrupts. */
  ghost function Steps(s: State, acts: seq<Action>): State {
    if acts == [] then s else Step(Steps(s, acts[..|acts| - 1]), acts[|acts| - 1])
  }

  ghost function FeedActions(p: Packet): seq<Action> {
    [CheckFeed(p), StoreFeed, RequestReplay]
  }

  ghost function ReplayActions(thread: nat, p: Packet): seq<Action> {
    [CheckReplay(thread, p), StoreReplay(thread)]
  }

  lemma {:induction false} StepsStayReachable(s: State, acts: seq<Action>)
    requires Reachable(s) && AllNumbered(acts)
    ensures Reachable(Steps(s, acts))
  {
    if acts != [] {
      StepsStayReachable(s, acts[..|acts| - 1]);
      ReachableStep(Steps(s, acts[..|acts| - 1]), acts[|acts| - 1]);
    }
  }

  /** What the three steps of a feed packet amount to. */
  lemma FeedStepsAre(s: State, p: Packet)
    requires s.udp.Idle?
    ensures Steps(s, FeedActions(p)).udp.Idle?
    ensures var (arbitration, status) := FeedCheck(s.arbitration, p.seqNum);
            var t := Steps(s, FeedActions(p));
            && t.arbitration == arbitration
            && t.buffer == (if status == DISCARD then s.buffer else Insert(s.buffer, p.seqNum, Messages(p)))
            && t.requests == s.requests + (if 0 < status < DISCARD then [Request(status, p.seqNum - 1)] else [])
  {
    var acts := FeedActions(p);
    assert acts[..2][..1] == acts[..1] && acts[..1][..0] == [];
    assert Steps(s, acts[..1]) == Step(s, CheckFeed(p));
    assert Steps(s, acts[..2]) == Step(Step(s, CheckFeed(p)), StoreFeed);
  }

  /** What the two steps of a replayed packet amount to. */
  lemma ReplayStepsAre(s: State, thread: nat, p: Packet)
    requires thread !in s.replays
    ensures var (arbitration, status) := ReplayCheck(s.arbitration, p.seqNum);
            var t := Steps(s, ReplayActions(thread, p));
            && t.arbitration == arbitration
            && t.buffer == (if status == DISCARD then s.buffer else Insert(s.buffer, p.seqNum, Messages(p)))
            && t.requests == s.requests && t.udp == s.udp && thread !in t.replays
  {
    var acts := ReplayActions(thread, p);
    assert acts[..1][..0] == [];
    assert Steps(s, acts[..1]) == Step(s, CheckReplay(thread, p));
  }

  /** A packet that passed its check is never the one the buffer has as highest. */
  lemma StoringIsWellFormed(s: State, a: Action)
    requires Reachable(s) && Numbered(a)
    requires (a.CheckFeed? && s.udp.Idle? && FeedCheck(s.arbitration, a.packet.seqNum).1 != DISCARD)
             || (a.CheckReplay? && a.thread !in s.replays && ReplayCheck(s.arbitration, a.packet.seqNum).1 != DISCARD)
    ensures s.buffer.last == NO_LAST || a.packet.seqNum != s.buffer.last
  {
    var t := Step(s, a);
    ReachableStep(s, a);
    ReachableKeeps(t);
    assert if a.CheckFeed? then t.udp == Checked(a.packet, t.udp.status) else t.replays[a.thread] == a.packet;
    StoreIsWellFormed(t, a.packet);
  }

  /** A request as the numbers that it asks for. */
  predicate Asks(r: Request, n: int) {
    r.begin <= n <= r.end
  }

  class DatProcessor {
    const arbitrator: DatArbitrator
    const data: CmeData
    /** The ranges for which a replay thread was started, as the server gets them. */
    var requests: seq<Request>
    /** How often the error handler was called. */
    var errors: nat
    /** The protocol state that the objects are in. */
    ghost var state: State

    /** The objects hold what the protocol state says. */
    ghost predicate Matches()
      reads this, arbitrator, data
    {
      && data.Valid()
      && state.arbitration == arbitrator.View()
      && state.buffer == data.View()
      && state.requests == requests
      && state.udp.Idle?
    }

    ghost predicate Valid()
      reads this, arbitrator, data
    {
      Matches() && Reachable(state)
    }

    constructor (arbitrator: DatArbitrator, data: CmeData)
      requires arbitrator.View() == INITIAL.arbitration
      requires data.Valid() && data.View() == EMPTY
      ensures Valid() && state == INITIAL && errors == 0
    {
      this.arbitrator, this.data := arbitrator, data;
      requests, errors := [], 0;
      state := INITIAL;
      assert Run([]) == INITIAL;
    }

    /** Arbitration, insertion and, if a gap was found, a replay request. */
    method HandleFeedPacket(p: Packet)
      requires data.Valid()
      requires FeedCheck(arbitrator.View(), p.seqNum).1 != DISCARD ==>
                 data.lastSeq == NO_LAST || p.seqNum != data.lastSeq
      modifies `requests, arbitrator, data
      ensures data.Valid()
      ensures var (arbitration, status) := FeedCheck(old(arbitrator.View()), p.seqNum);
              && arbitrator.View() == arbitration
              && data.View() == (if status == DISCARD then old(data.View())
                                 else Insert(old(data.View()), p.seqNum, Messages(p)))
              && requests == old(requests) + if 0 < status < DISCARD then [Request(status, p.seqNum - 1)] else []
    {
      var status := arbitrator.CheckFeedPacket(p.seqNum);
      if status == DISCARD {
        return;
      }
      data.InsertIncrementData(p.seqNum, Messages(p));
      if status > 0 {
        StartTcpReplay(status, p.seqNum);
      }
    }

    /** A feed packet that meets no other thread goes through its three protocol steps. Number 2^32-1 does so
        too, but the state it leads to need not be one of the protocol any more. */
    method ProcessFeedData(p: Packet)
      requires Valid()
      modifies this, arbitrator, data
      ensures Matches() && state == Steps(old(state), FeedActions(p)) && errors == old(errors)
      ensures p.seqNum != NO_SEQUENCE ==> Valid()
    {
      FeedStepsAre(state, p);
      if FeedCheck(state.arbitration, p.seqNum).1 != DISCARD {
        FeedIsWellFormed(state, p);
      }
      if p.seqNum != NO_SEQUENCE {
        StepsStayReachable(state, FeedActions(p));
      }
      HandleFeedPacket(p);
      state := Steps(state, FeedActions(p));
    }

    /** Starts a replay of the numbers from `begin` up to but not including `end`; the replayer asks the server
        for the closed range. */
    method StartTcpReplay(begin: uint32, end: uint32)
      modifies `requests
      ensures |requests| == |old(requests)| + 1 && requests[..|old(requests)|] == old(requests)
      ensures 0 < end ==> forall n :: Asks(requests[|old(requests)|], n) <==> begin <= n < end
      ensures requests[|old(requests)|] == Request(begin, Wrap32(end - 1))
    {
      requests := requests + [Request(begin, Wrap32(end - 1))];
    }

    /** A replayed packet that meets no other thread goes through its two protocol steps; no packet stands for
        an error of the connection, which goes to the error handler. */
    method ProcessReplayData(buffer: Option<Packet>, ghost thread: nat)
      requires Valid() && thread !in state.replays
      modifies this, arbitrator, data
      ensures Valid()
      ensures state == if buffer.None? then old(state) else Steps(old(state), ReplayActions(thread, buffer.value))
      ensures errors == old(errors) + if buffer.None? then 1 else 0
    {
      if buffer.None? {
        errors := errors + 1;
        return;
      }
      var p := buffer.value;
      ghost var before := state;
      ReplayStepsAre(state, thread, p);
      StepsStayReachable(state, ReplayActions(thread, p));
      state := Steps(state, ReplayActions(thread, p));
      var status := arbitrator.CheckReplayPacket(p.seqNum);
      if status == DISCARD {
        return;
      }
      StoringIsWellFormed(before, CheckReplay(thread, p));
      data.InsertIncrementData(p.seqNum, Messages(p));
    }
  }

  /** Any feed packet that is kept, even number 2^32-1, can be stored. */
  lemma FeedIsWellFormed(s: State, p: Packet)
    requires Reachable(s) && s.udp.Idle? && FeedCheck(s.arbitration, p.seqNum).1 != DISCARD
    ensures s.buffer.last == NO_LAST || p.seqNum != s.buffer.last
  {
    if p.seqNum != NO_SEQUENCE {
      StoringIsWellFormed(s, CheckFeed(p));
    }
  }
}
