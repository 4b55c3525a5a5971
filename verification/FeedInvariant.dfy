/** Every step of the receiving side keeps the invariant. */
module FeedInvariant {
  import opened Types
  import opened Sequences
  import opened Arbitrator
  import opened IncrementData
  import opened PacketLog
  import opened Feed

  /** Logging a fresh packet changes neither the first number nor what is held under the others. */
  lemma LogFresh(s: State, p: Packet)
    requires p.seqNum !in Numbers(s.accepted)
    requires Distinct(s.accepted)
    ensures Distinct(s.accepted + [p])
    ensures Numbers(s.accepted + [p]) == Numbers(s.accepted) + {p.seqNum}
    ensures forall n :: n != p.seqNum ==> Carried(s.accepted + [p], n) == Carried(s.accepted, n)
    ensures Carried(s.accepted + [p], p.seqNum) == Messages(p)
  {
    NumbersAre(s.accepted);
    Appended(s.accepted, p);
    CarriedFresh(s.accepted, p.seqNum);
  }

  /** A packet that passes a check carries a number that was never accepted. */
  lemma PassedIsFresh(s: State, n: uint32)
    requires Arbitrated(s)
    requires (FeedCheck(s.arbitration, n).1 != DISCARD && n != NO_SEQUENCE) || n in s.arbitration.lost
    ensures n !in Numbers(s.accepted)
  {
  }

  /** A feed packet that the UDP thread keeps. */
  ghost predicate FeedKept(s: State, p: Packet) {
    s.udp.Idle? && p.seqNum != NO_SEQUENCE && FeedCheck(s.arbitration, p.seqNum).1 != DISCARD
  }

  /** A replayed packet that thread `t` keeps. */
  ghost predicate ReplayKept(s: State, t: nat, p: Packet) {
    t !in s.replays && p.seqNum in s.arbitration.lost
  }

  lemma CheckFeedArbitrates(s: State, p: Packet)
    requires Arbitrated(s) && FeedKept(s, p)
    ensures Arbitrated(Step(s, CheckFeed(p)))
  {
    PassedIsFresh(s, p.seqNum);
    LogFresh(s, p);
    var t := Step(s, CheckFeed(p));
    assert t.accepted == s.accepted + [p];
    if s.accepted != [] {
      assert First(t) == First(s);
      forall n
        ensures First(t) <= n <= t.arbitration.current <==> n in Numbers(t.accepted) || n in t.arbitration.lost
      {
        assert n in Numbers(t.accepted) <==> n in Numbers(s.accepted) || n == p.seqNum;
        if p.seqNum > s.arbitration.current {
          assert n in t.arbitration.lost <==> n in s.arbitration.lost || s.arbitration.current < n < p.seqNum;
        }
      }
    }
  }

  lemma CheckFeedAccounts(s: State, p: Packet)
    requires Arbitrated(s) && Accounted(s) && FeedKept(s, p)
    ensures Accounted(Step(s, CheckFeed(p)))
  {
    PassedIsFresh(s, p.seqNum);
    LogFresh(s, p);
    var t := Step(s, CheckFeed(p));
    forall n | n in Numbers(t.accepted)
      ensures n in t.inserted || InFlight(t, n)
    {
      if n != p.seqNum {
        assert n in s.inserted || InFlight(s, n);
      }
    }
  }

  lemma CheckFeedApart(s: State, p: Packet)
    requires Arbitrated(s) && Accounted(s) && Apart(s) && FeedKept(s, p)
    ensures Apart(Step(s, CheckFeed(p)))
  {
    PassedIsFresh(s, p.seqNum);
    assert forall t :: t in s.replays ==> OnItsWay(s, s.replays[t]);
  }

  lemma CheckFeedHoles(s: State, p: Packet)
    requires Arbitrated(s) && Accounted(s) && Holed(s) && FeedKept(s, p)
    ensures Holed(Step(s, CheckFeed(p)))
  {
  }

  /** Accepting a packet that is not stored yet leaves the stored stream alone. */
  lemma LogOrders(s: State, t: State, p: Packet)
    requires Distinct(s.accepted) && p.seqNum !in Numbers(s.accepted) && s.inserted <= Numbers(s.accepted)
    requires Ordered(s)
    requires t.accepted == s.accepted + [p] && t.inserted == s.inserted
    requires t.buffer == s.buffer && t.picked == s.picked && t.delivered == s.delivered
    ensures Ordered(t)
  {
    if s.inserted != {} {
      LogFresh(s, p);
      assert First(t) == First(s);
      StreamAgree(s.accepted, s.inserted, t.accepted, t.inserted, First(s), s.buffer.last + 1);
    }
    assert Rest(t) == Rest(s);
  }

  lemma CheckFeedRequests(s: State, p: Packet)
    requires Arbitrated(s) && RequestsOrdered(s) && RequestsCover(s) && FeedKept(s, p)
    ensures RequestsOrdered(Step(s, CheckFeed(p))) && RequestsCover(Step(s, CheckFeed(p)))
  {
    var t := Step(s, CheckFeed(p));
    assert s.accepted != [] ==> t.arbitration.current >= s.arbitration.current;
    assert Pending(t) == Gap(t.udp.status, p.seqNum);
    assert Pending(s) == {};
  }

  lemma CheckFeedKeeps(s: State, p: Packet)
    requires Inv(s) && p.seqNum != NO_SEQUENCE
    ensures Inv(Step(s, CheckFeed(p)))
  {
    if FeedKept(s, p) {
      CheckFeedArbitrates(s, p);
      CheckFeedAccounts(s, p);
      CheckFeedApart(s, p);
      CheckFeedHoles(s, p);
      PassedIsFresh(s, p.seqNum);
      LogOrders(s, Step(s, CheckFeed(p)), p);
      CheckFeedRequests(s, p);
    } else {
      assert Step(s, CheckFeed(p)) == s;
    }
  }

  lemma CheckReplayArbitrates(s: State, t: nat, p: Packet)
    requires Arbitrated(s) && ReplayKept(s, t, p)
    ensures Arbitrated(Step(s, CheckReplay(t, p)))
  {
    LogFresh(s, p);
    var s' := Step(s, CheckReplay(t, p));
    assert First(s') == First(s);
    forall n
      ensures First(s') <= n <= s'.arbitration.current <==> n in Numbers(s'.accepted) || n in s'.arbitration.lost
    {
      assert n in Numbers(s'.accepted) <==> n in Numbers(s.accepted) || n == p.seqNum;
      assert n in s'.arbitration.lost <==> n in s.arbitration.lost && n != p.seqNum;
    }
  }

  lemma CheckReplayHolds(s: State, t: nat, p: Packet)
    requires Arbitrated(s) && Accounted(s) && ReplayKept(s, t, p)
    ensures var s' := Step(s, CheckReplay(t, p)); forall u :: u in s'.replays ==> OnItsWay(s', s'.replays[u])
    ensures var s' := Step(s, CheckReplay(t, p)); s'.udp.Checked? ==> OnItsWay(s', s'.udp.packet)
  {
    LogFresh(s, p);
    var s' := Step(s, CheckReplay(t, p));
    assert s'.replays == s.replays[t := p] && s'.inserted == s.inserted && s'.udp == s.udp;
    forall u | u in s'.replays
      ensures OnItsWay(s', s'.replays[u])
    {
      if u != t {
        assert OnItsWay(s, s.replays[u]);
      }
    }
  }

  /** A packet that was in a thread still is in one. */
  lemma StillInFlight(s: State, t: nat, p: Packet, n: int)
    requires ReplayKept(s, t, p) && InFlight(s, n)
    ensures InFlight(Step(s, CheckReplay(t, p)), n)
  {
    var s' := Step(s, CheckReplay(t, p));
    if !(s.udp.Checked? && s.udp.packet.seqNum == n) {
      var u :| u in s.replays && s.replays[u].seqNum == n;
      assert u in s'.replays && s'.replays[u].seqNum == n;
    }
  }

  lemma CheckReplayAccounts(s: State, t: nat, p: Packet)
    requires Arbitrated(s) && Accounted(s) && ReplayKept(s, t, p)
    ensures Accounted(Step(s, CheckReplay(t, p)))
  {
    var s' := Step(s, CheckReplay(t, p));
    assert Numbers(s'.accepted) == Numbers(s.accepted) + {p.seqNum} by {
      LogFresh(s, p);
    }
    forall n | n in Numbers(s'.accepted)
      ensures n in s'.inserted || InFlight(s', n)
    {
      if n == p.seqNum {
        assert t in s'.replays && s'.replays[t].seqNum == n;
      } else if n !in s.inserted {
        StillInFlight(s, t, p, n);
      }
    }
    CheckReplayHolds(s, t, p);
  }

  lemma CheckReplayApart(s: State, t: nat, p: Packet)
    requires Arbitrated(s) && Accounted(s) && Apart(s) && ReplayKept(s, t, p)
    ensures Apart(Step(s, CheckReplay(t, p)))
  {
    assert forall u :: u in s.replays ==> OnItsWay(s, s.replays[u]);
  }

  lemma CheckReplayRequests(s: State, t: nat, p: Packet)
    requires RequestsOrdered(s) && RequestsCover(s) && ReplayKept(s, t, p)
    ensures RequestsOrdered(Step(s, CheckReplay(t, p))) && RequestsCover(Step(s, CheckReplay(t, p)))
  {
    var s' := Step(s, CheckReplay(t, p));
    assert s'.requests == s.requests && Pending(s') == Pending(s);
  }

  lemma CheckReplayHoles(s: State, t: nat, p: Packet)
    requires Arbitrated(s) && Holed(s) && ReplayKept(s, t, p)
    ensures Holed(Step(s, CheckReplay(t, p)))
  {
  }

  lemma CheckReplayKeeps(s: State, t: nat, p: Packet)
    requires Inv(s)
    ensures Inv(Step(s, CheckReplay(t, p)))
  {
    if ReplayKept(s, t, p) {
      CheckReplayArbitrates(s, t, p);
      CheckReplayAccounts(s, t, p);
      CheckReplayApart(s, t, p);
      CheckReplayHoles(s, t, p);
      LogOrders(s, Step(s, CheckReplay(t, p)), p);
      CheckReplayRequests(s, t, p);
    } else {
      assert Step(s, CheckReplay(t, p)) == s;
    }
  }

  /** `t` is `s` after packet `p` went into the buffer. */
  ghost predicate Stored(s: State, p: Packet, t: State) {
    var stored := Store(s, p);
    t.buffer == stored.buffer && t.picked == stored.picked && t.inserted == stored.inserted
    && t.accepted == s.accepted && t.arbitration == s.arbitration && t.delivered == s.delivered
  }

  /** The buffer is never asked to store the number it has as highest. */
  lemma StoreIsWellFormed(s: State, p: Packet)
    requires Holed(s) && OnItsWay(s, p)
    ensures s.buffer.last == NO_LAST || p.seqNum != s.buffer.last
  {
  }

  lemma StoreHoles(s: State, p: Packet, t: State)
    requires Arbitrated(s) && Holed(s) && OnItsWay(s, p) && Stored(s, p, t)
    ensures Holed(t)
  {
    NumbersAre(s.accepted);
    if s.inserted == {} {
      assert s.accepted[0].seqNum == p.seqNum;
    } else {
      assert First(s) < p.seqNum != s.buffer.last;
      forall n
        ensures n in t.buffer.holes <==> First(t) < n < t.buffer.last && n !in t.inserted
      {
        assert n in s.buffer.holes <==> First(s) < n < s.buffer.last && n !in s.inserted;
      }
    }
  }

  lemma {:induction false} FiltersSkipPrefix(a: seq<MdpMessage>, b: seq<MdpMessage>, n: int)
    requires AllUpto(a, n)
    ensures Upto(a + b, n) == a + Upto(b, n) && Above(a + b, n) == Above(b, n)
  {
    if a == [] {
      assert a + b == b;
    } else {
      assert (a + b)[1..] == a[1..] + b;
      FiltersSkipPrefix(a[1..], b, n);
      assert a == [a[0]] + a[1..];
    }
  }

  /** Messages that sort behind the delivered ones land at their place in the whole line. */
  lemma LandsInLine(done: seq<MdpMessage>, rest: seq<MdpMessage>, ms: seq<MdpMessage>,
                    low: seq<MdpMessage>, high: seq<MdpMessage>, n: int)
    requires done + rest == low + high
    requires AllUpto(done, n) && AllUpto(low, n) && AllAbove(high, n)
    ensures done + (Upto(rest, n) + ms + Above(rest, n)) == low + ms + high
  {
    SplitAt(low, high, n);
    FiltersSkipPrefix(done, rest, n);
    AssocOuter(done, Upto(rest, n), ms, Above(rest, n));
  }

  /** The consumer's iterator stays at the front and the rest is filtered around the new messages. */
  lemma StoreKeepsPicked(s: State, p: Packet, t: State)
    requires Stored(s, p, t)
    requires s.picked.Some? ==>
               s.picked.value == 0 && s.buffer.datas != [] && s.buffer.datas[0].packetSeqNum < p.seqNum
    ensures t.picked == s.picked
    ensures s.picked.Some? ==> t.buffer.datas != [] && t.buffer.datas[0] == s.buffer.datas[0]
    ensures Rest(t) == Upto(Rest(s), p.seqNum) + Messages(p) + Above(Rest(s), p.seqNum)
  {
    if s.picked.Some? {
      var head, rest := s.buffer.datas[0], s.buffer.datas[1..];
      var low, high := Upto(rest, p.seqNum), Above(rest, p.seqNum);
      assert t.buffer.datas == ([head] + low) + Messages(p) + high;
      assert t.buffer.datas[1..] == low + Messages(p) + high;
    }
  }

  /** Everything delivered sorts before a packet that is still to be stored. */
  lemma DeliveredIsBelow(s: State, p: Packet)
    requires Arbitrated(s) && Holed(s) && Ordered(s) && OnItsWay(s, p)
    ensures forall i :: 0 <= i < |s.delivered| ==> s.delivered[i].packetSeqNum < p.seqNum
  {
    NumbersAre(s.accepted);
    if s.inserted != {} && p.seqNum < s.buffer.last {
      assert p.seqNum in s.buffer.holes;
    }
  }

  /** Nothing is stored behind the highest number. */
  lemma NothingBehindLast(s: State, hi: int)
    requires Holed(s) && s.inserted != {} && First(s) <= s.buffer.last + 1 <= hi
    ensures Stream(s.accepted, s.inserted, First(s), hi) == Stream(s.accepted, s.inserted, First(s), s.buffer.last + 1)
  {
    StreamSplit(s.accepted, s.inserted, First(s), s.buffer.last + 1, hi);
    StreamEmpty(s.accepted, s.inserted, s.buffer.last + 1, hi);
  }

  /** The stored stream grows by exactly the messages of `p`, at its number. */
  lemma StreamGrows(s: State, p: Packet) returns (low: seq<MdpMessage>, high: seq<MdpMessage>)
    requires Arbitrated(s) && Holed(s) && OnItsWay(s, p) && s.inserted != {}
    ensures AllUpto(low, p.seqNum) && AllAbove(high, p.seqNum)
    ensures Stream(s.accepted, s.inserted, First(s), s.buffer.last + 1) == low + high
    ensures var last := if p.seqNum > s.buffer.last then p.seqNum else s.buffer.last;
            Stream(s.accepted, s.inserted + {p.seqNum}, First(s), last + 1) == low + Messages(p) + high
  {
    var n, f, log, d := p.seqNum, First(s), s.accepted, s.inserted;
    var last := if n > s.buffer.last then n else s.buffer.last;
    assert f <= n && f <= s.buffer.last;
    low, high := Stream(log, d, f, n), Stream(log, d, n + 1, last + 1);
    assert AllUpto(low, n) && AllAbove(high, n) by {
      StreamNumbers(log, d, f, n);
      StreamNumbers(log, d, n + 1, last + 1);
    }
    StreamInsert(log, d, f, n, last + 1);
    assert Stream(log, d, f, s.buffer.last + 1) == Stream(log, d, f, last + 1) by {
      NothingBehindLast(s, last + 1);
    }
  }

  lemma StoreOrders(s: State, p: Packet, t: State)
    requires Arbitrated(s) && Holed(s) && Ordered(s) && OnItsWay(s, p) && Stored(s, p, t)
    ensures Ordered(t)
  {
    DeliveredIsBelow(s, p);
    StoreKeepsPicked(s, p, t);
    if s.inserted == {} {
      NumbersAre(s.accepted);
      assert s.accepted[0].seqNum == p.seqNum;
      assert t.inserted == {p.seqNum};
      assert Stream(t.accepted, t.inserted, p.seqNum, p.seqNum) == [];
      assert Stream(t.accepted, t.inserted, p.seqNum, p.seqNum + 1) == Messages(p);
      assert Rest(t) == [] + Messages(p) + [];
    } else {
      var low, high := StreamGrows(s, p);
      LandsInLine(s.delivered, Rest(s), Messages(p), low, high, p.seqNum);
    }
  }

  lemma StoreFeedAccounts(s: State)
    requires Accounted(s) && Apart(s) && s.udp.Checked?
    ensures Accounted(Step(s, StoreFeed)) && Apart(Step(s, StoreFeed))
  {
    var p, t := s.udp.packet, Step(s, StoreFeed);
    assert t.inserted == s.inserted + {p.seqNum} && t.replays == s.replays && t.accepted == s.accepted;
    assert !t.udp.Checked?;
    assert OnItsWay(s, p);
    forall n | n in Numbers(t.accepted)
      ensures n in t.inserted || InFlight(t, n)
    {
      assert n in s.inserted || InFlight(s, n);
    }
    forall u | u in t.replays
      ensures OnItsWay(t, t.replays[u])
    {
      assert OnItsWay(s, s.replays[u]);
    }
  }

  lemma StoreReplayAccounts(s: State, u: nat)
    requires Accounted(s) && Apart(s) && u in s.replays
    ensures Accounted(Step(s, StoreReplay(u))) && Apart(Step(s, StoreReplay(u)))
  {
    var p, t := s.replays[u], Step(s, StoreReplay(u));
    assert t.inserted == s.inserted + {p.seqNum} && t.replays == s.replays - {u} && t.accepted == s.accepted;
    assert t.udp == s.udp;
    assert OnItsWay(s, p);
    forall n | n in Numbers(t.accepted)
      ensures n in t.inserted || InFlight(t, n)
    {
      if n !in t.inserted && !(s.udp.Checked? && s.udp.packet.seqNum == n) {
        assert InFlight(s, n);
        var v :| v in s.replays && s.replays[v].seqNum == n;
        assert v in t.replays && t.replays[v].seqNum == n;
      }
    }
    forall v | v in t.replays
      ensures OnItsWay(t, t.replays[v])
    {
      assert OnItsWay(s, s.replays[v]);
    }
  }

  lemma StoreKeepsRequests(s: State, p: Packet, t: State)
    requires RequestsOrdered(s) && RequestsCover(s) && Stored(s, p, t)
    requires t.requests == s.requests && t.everLost == s.everLost
    requires t.udp == s.udp
             || (s.udp.Checked? && s.udp.packet == p
                 && t.udp == if s.udp.status > 0 then Saved(p, s.udp.status) else Idle)
    ensures RequestsOrdered(t) && RequestsCover(t)
  {
    assert Pending(t) == Pending(s);
  }

  lemma StoreFeedKeeps(s: State)
    requires Inv(s)
    ensures Inv(Step(s, StoreFeed))
  {
    if s.udp.Checked? {
      var t := Step(s, StoreFeed);
      assert OnItsWay(s, s.udp.packet) && Stored(s, s.udp.packet, t);
      StoreFeedAccounts(s);
      StoreHoles(s, s.udp.packet, t);
      StoreOrders(s, s.udp.packet, t);
      assert Arbitrated(t);
      StoreKeepsRequests(s, s.udp.packet, t);
    }
  }

  lemma StoreReplayKeeps(s: State, u: nat)
    requires Inv(s)
    ensures Inv(Step(s, StoreReplay(u)))
  {
    if u in s.replays {
      var t := Step(s, StoreReplay(u));
      assert OnItsWay(s, s.replays[u]) && Stored(s, s.replays[u], t);
      StoreReplayAccounts(s, u);
      StoreHoles(s, s.replays[u], t);
      StoreOrders(s, s.replays[u], t);
      assert Arbitrated(t);
      StoreKeepsRequests(s, s.replays[u], t);
    }
  }

  /** A step that moves no packet between log, threads and buffer accounts for the same packets. */
  lemma AccountedElsewhere(s: State, t: State)
    requires Accounted(s)
    requires t.accepted == s.accepted && t.inserted == s.inserted && t.replays == s.replays
    requires s.udp.Checked? || t.udp.Checked? ==> t.udp == s.udp
    ensures Accounted(t)
  {
    forall n | n in Numbers(t.accepted)
      ensures n in t.inserted || InFlight(t, n)
    {
      assert n in s.inserted || InFlight(s, n);
    }
    forall u | u in t.replays
      ensures OnItsWay(t, t.replays[u])
    {
      assert OnItsWay(s, s.replays[u]);
    }
    if t.udp.Checked? {
      assert OnItsWay(s, s.udp.packet);
    }
  }

  lemma RequestFollowsOthers(s: State)
    requires s.udp.Saved? && s.accepted != [] && RequestsOrdered(s)
    ensures RequestsOrdered(Step(s, RequestReplay))
  {
    var t, last := Step(s, RequestReplay), |s.requests|;
    assert t.requests[last] == Request(s.udp.status, s.udp.packet.seqNum - 1);
    assert forall i :: 0 <= i < last ==> t.requests[i] == s.requests[i];
  }

  lemma RequestedMore(rs: seq<Request>, r: Request, lo: int, hi: int)
    requires lo == r.begin - 1 && hi == r.end + 1
    ensures Requested(rs + [r]) == Requested(rs) + Between(lo, hi)
  {
    assert (rs + [r])[..|rs|] == rs;
  }

  lemma RequestCovers(s: State)
    requires s.udp.Saved? && s.udp.status > 0 && RequestsCover(s)
    ensures RequestsCover(Step(s, RequestReplay))
  {
    var lo: int, hi: int := s.udp.status - 1, s.udp.packet.seqNum;
    RequestedMore(s.requests, Request(s.udp.status, hi - 1), lo, hi);
    assert Pending(s) == Between(lo, hi);
  }

  lemma RequestReplayKeeps(s: State)
    requires Inv(s)
    ensures Inv(Step(s, RequestReplay))
  {
    if s.udp.Saved? {
      RequestFollowsOthers(s);
      RequestCovers(s);
      SameStreamKeeps(s, Step(s, RequestReplay));
      AccountedElsewhere(s, Step(s, RequestReplay));
    }
  }

  lemma SameStreamKeeps(s: State, t: State)
    requires Arbitrated(s) && Holed(s) && Ordered(s)
    requires t.arbitration == s.arbitration && t.accepted == s.accepted && t.inserted == s.inserted
    requires t.buffer == s.buffer && t.picked == s.picked && t.delivered == s.delivered && t.everLost == s.everLost
    requires s.inserted != {} && s.accepted != []
    ensures Arbitrated(t) && Holed(t) && Ordered(t)
  {
    assert First(t) == First(s) && Rest(t) == Rest(s);
  }

  /** The consumer touches neither the arbitration nor the bookkeeping of losses. */
  ghost predicate ConsumerOnly(s: State, t: State) {
    && t.arbitration == s.arbitration && t.udp == s.udp && t.replays == s.replays && t.requests == s.requests
    && t.accepted == s.accepted && t.inserted == s.inserted && t.everLost == s.everLost
    && t.buffer.last == s.buffer.last && t.buffer.holes == s.buffer.holes
  }

  lemma ConsumerKeeps(s: State, t: State)
    requires Inv(s) && ConsumerOnly(s, t) && Ordered(t)
    requires s.inserted == {} ==> t.buffer == s.buffer
    ensures Inv(t)
  {
    AccountedElsewhere(s, t);
    assert Pending(t) == Pending(s);
  }

  lemma PickMessageKeeps(s: State)
    requires Inv(s)
    ensures Inv(Step(s, PickMessage))
  {
    if s.picked.None? && Ready(s.buffer) {
      PickOrders(s);
      ConsumerKeeps(s, Step(s, PickMessage));
    }
  }

  lemma PickOrders(s: State)
    requires Holed(s) && Ordered(s) && s.picked.None? && Ready(s.buffer)
    ensures Ordered(Step(s, PickMessage))
  {
    var t, m := Step(s, PickMessage), s.buffer.datas[0];
    var line := Stream(s.accepted, s.inserted, First(s), s.buffer.last + 1);
    assert t.delivered + Rest(t) == s.delivered + s.buffer.datas by {
      assert s.buffer.datas == [m] + s.buffer.datas[1..];
    }
    StreamNumbers(s.accepted, s.inserted, First(s), s.buffer.last + 1);
    assert line[|s.delivered|] == m;
    assert m.packetSeqNum <= s.buffer.last;
  }

  lemma RemoveMessageKeeps(s: State)
    requires Inv(s)
    ensures Inv(Step(s, RemoveMessage))
  {
    if s.picked.Some? {
      RemoveOrders(s);
      ConsumerKeeps(s, Step(s, RemoveMessage));
    }
  }

  lemma RemoveOrders(s: State)
    requires Ordered(s) && s.picked.Some?
    ensures Ordered(Step(s, RemoveMessage))
  {
    assert Step(s, RemoveMessage).buffer.datas == Rest(s);
  }

  lemma StepKeeps(s: State, a: Action)
    requires Inv(s) && Numbered(a)
    ensures Inv(Step(s, a))
  {
    match a
    case CheckFeed(p) => CheckFeedKeeps(s, p);
    case StoreFeed => StoreFeedKeeps(s);
    case RequestReplay => RequestReplayKeeps(s);
    case CheckReplay(t, p) => CheckReplayKeeps(s, t, p);
    case StoreReplay(t) => StoreReplayKeeps(s, t);
    case PickMessage => PickMessageKeeps(s);
    case RemoveMessage => RemoveMessageKeeps(s);
  }

  /** The invariant holds after every interleaving of thread steps. */
  lemma {:induction false} RunKeeps(acts: seq<Action>)
    requires AllNumbered(acts)
    ensures Inv(Run(acts))
  {
    if acts != [] {
      RunKeeps(acts[..|acts| - 1]);
      StepKeeps(Run(acts[..|acts| - 1]), acts[|acts| - 1]);
    }
  }

  ghost predicate AllNumbered(acts: seq<Action>) {
    forall i :: 0 <= i < |acts| ==> Numbered(acts[i])
  }

  /** Some interleaving of thread steps leads to `s`. */
  ghost predicate Reachable(s: State) {
    exists acts :: AllNumbered(acts) && Run(acts) == s
  }

  lemma ReachableStep(s: State, a: Action)
    requires Reachable(s) && Numbered(a)
    ensures Reachable(Step(s, a))
  {
    var acts :| AllNumbered(acts) && Run(acts) == s;
    assert (acts + [a])[..|acts|] == acts;
    assert AllNumbered(acts + [a]) && Run(acts + [a]) == Step(s, a);
  }

  lemma ReachableKeeps(s: State)
    requires Reachable(s)
    ensures Inv(s)
  {
    var acts :| AllNumbered(acts) && Run(acts) == s;
    RunKeeps(acts);
  }
}
