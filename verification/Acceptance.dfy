/** Which packets the receiving side accepts, and that the consumer gets everything that can be delivered. */
module Acceptance {
  import opened Types
  import opened Arbitrator
  import opened IncrementData
  import opened PacketLog
  import opened Feed
  import opened FeedInvariant
  import opened FeedTheorems
  import opened Processing

  /** `t` follows `s` by taking packet `p` if it is wanted, and by nothing at all otherwise. */
  ghost predicate TakesIf(s: State, p: Packet, t: State, wanted: bool) {
    && (t.accepted == s.accepted + [p] <==> wanted)
    && (wanted ==> OnItsWay(t, p))
    && (!wanted ==> t == s)
    && p.seqNum !in t.arbitration.lost
  }

  /** While the UDP thread is idle, a packet of either feed is taken if and only if nothing was accepted yet or its
      number lies above the first one and was not accepted before. A lost packet that comes again is taken too. */
  lemma FeedOffer(s: State, p: Packet)
    requires Reachable(s) && s.udp.Idle? && p.seqNum != NO_SEQUENCE
    ensures TakesIf(s, p, Step(s, CheckFeed(p)),
                    p.seqNum !in Numbers(s.accepted) && (s.accepted == [] || First(s) < p.seqNum))
  {
    ReachableKeeps(s);
    var t := Step(s, CheckFeed(p));
    if s.accepted != [] && p.seqNum <= s.arbitration.current {
      assert First(s) <= p.seqNum ==> p.seqNum in Numbers(s.accepted) || p.seqNum in s.arbitration.lost;
      assert p.seqNum in s.arbitration.lost ==> First(s) <= p.seqNum && p.seqNum != First(s);
    }
    if t != s {
      PassedIsFresh(s, p.seqNum);
      CheckFeedKeeps(s, p);
      assert t.udp.Checked? && t.udp.packet == p;
    } else {
      assert s.accepted != s.accepted + [p];
    }
  }

  /** A free replay thread takes a packet if and only if its number lies between the first and the highest accepted
      one and was not accepted before. */
  lemma ReplayOffer(s: State, thread: nat, p: Packet)
    requires Reachable(s) && thread !in s.replays
    ensures TakesIf(s, p, Step(s, CheckReplay(thread, p)),
                    s.accepted != [] && First(s) <= p.seqNum <= s.arbitration.current
                    && p.seqNum !in Numbers(s.accepted))
  {
    ReachableKeeps(s);
    var t := Step(s, CheckReplay(thread, p));
    if t != s {
      CheckReplayKeeps(s, thread, p);
      assert t.replays[thread] == p;
    } else {
      assert s.accepted != s.accepted + [p];
    }
  }

  /* ---------- whole runs ---------- */

  /** A packet that is taken is the last one of the log; no other step touches the log. */
  lemma LogGrows(s: State, a: Action)
    ensures s.accepted <= Step(s, a).accepted
  {
  }

  /** Action `a` brings number `n` to a thread that is free to look at it. A replay thread only looks for numbers
      up to the highest accepted one. */
  ghost predicate Offers(s: State, a: Action, n: int) {
    match a
    case CheckFeed(p) => p.seqNum == n && s.udp.Idle?
    case CheckReplay(t, p) => p.seqNum == n && t !in s.replays && s.accepted != [] && n <= s.arbitration.current
    case _ => false
  }

  ghost predicate WasOffered(acts: seq<Action>, n: int) {
    exists i :: 0 <= i < |acts| && OfferedAt(acts, n, i)
  }

  /** The same, at one position. */
  ghost predicate OfferedAt(acts: seq<Action>, n: int, i: nat)
    requires i < |acts|
  {
    Offers(Run(acts[..i]), acts[i], n)
  }

  lemma SameInFront(acts: seq<Action>, n: int, i: nat)
    requires acts != [] && i < |acts| - 1
    ensures OfferedAt(acts, n, i) <==> OfferedAt(acts[..|acts| - 1], n, i)
  {
    assert acts[..|acts| - 1][..i] == acts[..i];
  }

  lemma OfferedMore(acts: seq<Action>, n: int)
    requires acts != []
    ensures var front := acts[..|acts| - 1];
            WasOffered(acts, n) <==> WasOffered(front, n) || OfferedAt(acts, n, |acts| - 1)
  {
    var front := acts[..|acts| - 1];
    if WasOffered(acts, n) {
      var i :| 0 <= i < |acts| && OfferedAt(acts, n, i);
      if i < |front| {
        SameInFront(acts, n, i);
      }
    }
    if WasOffered(front, n) {
      var i :| 0 <= i < |front| && OfferedAt(front, n, i);
      SameInFront(acts, n, i);
    }
  }

  /** The numbers of the log grow by what the step offers, from the first number on. */
  ghost predicate AcceptsOffered(s: State, a: Action, n: int) {
    var t := Step(s, a);
    n in Numbers(t.accepted) <==> n in Numbers(s.accepted) || (Offers(s, a, n) && t.accepted != [] && First(t) <= n)
  }

  /** Nothing is accepted below the first number. */
  lemma FirstIsLowest(s: State)
    requires Reachable(s) && s.accepted != []
    ensures First(s) in Numbers(s.accepted) && s.arbitration.current in Numbers(s.accepted)
    ensures forall n :: n in Numbers(s.accepted) ==> First(s) <= n <= s.arbitration.current
  {
    ReachableKeeps(s);
  }

  lemma FeedAccepts(s: State, p: Packet, n: int)
    requires Reachable(s) && p.seqNum != NO_SEQUENCE
    ensures AcceptsOffered(s, CheckFeed(p), n)
  {
    if s.udp.Idle? {
      FeedOffer(s, p);
      Appended(s.accepted, p);
      if s.accepted != [] {
        FirstIsLowest(s);
      }
    } else {
      assert Step(s, CheckFeed(p)) == s;
    }
  }

  lemma ReplayAccepts(s: State, thread: nat, p: Packet, n: int)
    requires Reachable(s)
    ensures AcceptsOffered(s, CheckReplay(thread, p), n)
  {
    if thread !in s.replays {
      ReplayOffer(s, thread, p);
      Appended(s.accepted, p);
      if s.accepted != [] {
        FirstIsLowest(s);
      }
    } else {
      assert Step(s, CheckReplay(thread, p)) == s;
    }
  }

  lemma StepAccepts(s: State, a: Action, n: int)
    requires Reachable(s) && Numbered(a)
    ensures AcceptsOffered(s, a, n)
  {
    match a
    case CheckFeed(p) => FeedAccepts(s, p, n);
    case CheckReplay(thread, p) => ReplayAccepts(s, thread, p, n);
    case _ => assert Step(s, a).accepted == s.accepted;
  }

  /** Over every interleaving, what was accepted are exactly the numbers from the first one on that some free thread
      looked at: nothing that is offered again after it was lost is thrown away. */
  lemma {:induction false} AcceptedExactlyOffered(acts: seq<Action>, n: int)
    requires AllNumbered(acts)
    ensures var s := Run(acts);
            n in Numbers(s.accepted) <==> s.accepted != [] && First(s) <= n && WasOffered(acts, n)
  {
    if acts != [] {
      var front, a := acts[..|acts| - 1], acts[|acts| - 1];
      var s := Run(front);
      AcceptedExactlyOffered(front, n);
      OfferedMore(acts, n);
      LogGrows(s, a);
      assert Reachable(s);
      StepAccepts(s, a, n);
      if s.accepted == [] {
        NothingOffered(front, n);
      }
    }
  }

  /** Before anything was accepted, nothing was offered. */
  lemma {:induction false} NothingOffered(acts: seq<Action>, n: int)
    requires AllNumbered(acts) && Run(acts).accepted == []
    ensures !WasOffered(acts, n)
  {
    if acts != [] {
      var front, last := acts[..|acts| - 1], acts[|acts| - 1];
      var s := Run(front);
      LogGrows(s, last);
      NothingOffered(front, n);
      OfferedMore(acts, n);
      assert Reachable(s);
      if last.CheckFeed? && s.udp.Idle? {
        FeedOffer(s, last.packet);
      }
    }
  }

  /* ---------- the consumer gets on ---------- */

  /** The consumer removes what it picked and picks again, `k` times. */
  ghost function Rounds(k: nat): seq<Action> {
    if k == 0 then [] else Rounds(k - 1) + [RemoveMessage, PickMessage]
  }

  lemma RoundMore(s: State, k: nat)
    requires k >= 1
    ensures Steps(s, Rounds(k)) == Step(Step(Steps(s, Rounds(k - 1)), RemoveMessage), PickMessage)
  {
    var before, acts := Rounds(k - 1), Rounds(k);
    assert acts[..|acts| - 1] == before + [RemoveMessage] && (before + [RemoveMessage])[..|before|] == before;
  }

  /** What can be delivered depends on what was accepted and stored only. */
  lemma SameDeliverable(s: State, t: State)
    requires t.accepted == s.accepted && t.inserted == s.inserted && t.arbitration == s.arbitration
    ensures Deliverable(t) == Deliverable(s)
  {
  }

  lemma RemovedIsFree(s: State)
    requires Inv(s)
    ensures var r := Step(s, RemoveMessage);
            r.picked.None? && r.delivered == s.delivered && Deliverable(r) == Deliverable(s)
  {
    assert Ordered(s);
    SameDeliverable(s, Step(s, RemoveMessage));
  }

  lemma PickedIsNext(s: State)
    requires Inv(s) && s.picked.None?
    ensures var t := Step(s, PickMessage);
            && Deliverable(t) == Deliverable(s)
            && t.delivered == Deliverable(s)[..Least(|s.delivered| + 1, |Deliverable(s)|)]
  {
    SameDeliverable(s, Step(s, PickMessage));
    PickContinuesAlways(s);
    DeliveredInOrder(s);
  }

  function Least(a: nat, b: nat): nat {
    if a <= b then a else b
  }

  /** `t` has the first `n` of these messages, or all of them. */
  ghost predicate HandedOver(line: seq<MdpMessage>, t: State, n: nat) {
    Deliverable(t) == line && t.delivered == line[..Least(n, |line|)]
  }

  lemma NothingYet(s: State)
    requires Inv(s)
    ensures HandedOver(Deliverable(s), s, |s.delivered|)
  {
    DeliveredInOrder(s);
  }

  /** One round hands over the next deliverable message, if there is one. */
  lemma OneRound(line: seq<MdpMessage>, t: State, n: nat, m: nat)
    requires Inv(t) && HandedOver(line, t, n) && m == n + 1
    ensures HandedOver(line, Step(Step(t, RemoveMessage), PickMessage), m)
  {
    RemovedIsFree(t);
    RemoveMessageKeeps(t);
    PickedIsNext(Step(t, RemoveMessage));
  }

  /** Behind `k` rounds, one more. */
  lemma NextRound(s: State, line: seq<MdpMessage>, k: nat, n: nat, m: nat)
    requires k >= 1 && Reachable(Steps(s, Rounds(k - 1))) && m == n + 1
    requires HandedOver(line, Steps(s, Rounds(k - 1)), n)
    ensures HandedOver(line, Steps(s, Rounds(k)), m)
  {
    ReachableKeeps(Steps(s, Rounds(k - 1)));
    RoundMore(s, k);
    OneRound(line, Steps(s, Rounds(k - 1)), n, m);
  }

  lemma {:induction false} RoundsReach(s: State, k: nat)
    requires Reachable(s)
    ensures Reachable(Steps(s, Rounds(k)))
  {
    if k > 0 {
      RoundsReach(s, k - 1);
      RoundMore(s, k);
      ReachableStep(Steps(s, Rounds(k - 1)), RemoveMessage);
      ReachableStep(Step(Steps(s, Rounds(k - 1)), RemoveMessage), PickMessage);
    }
  }

  /** In every reachable state, `k` rounds of the consumer hand over the next `k` deliverable messages, as far as
      there are any: it is never stuck and never goes wrong. */
  lemma {:induction false} ConsumerCatchesUp(s: State, k: nat)
    requires Reachable(s)
    ensures HandedOver(Deliverable(s), Steps(s, Rounds(k)), |s.delivered| + k)
  {
    if k == 0 {
      ReachableKeeps(s);
      NothingYet(s);
    } else {
      ConsumerCatchesUp(s, k - 1);
      RoundsReach(s, k - 1);
      NextRound(s, Deliverable(s), k, |s.delivered| + k - 1, |s.delivered| + k);
    }
  }
}
