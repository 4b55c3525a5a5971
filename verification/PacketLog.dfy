/** What a log of accepted packets says: which numbers it holds and, in number order, which messages. */
module PacketLog {
  import opened Types
  import opened IncrementData

  function Numbers(ps: seq<Packet>): set<int> {
    if ps == [] then {} else Numbers(ps[..|ps| - 1]) + {ps[|ps| - 1].seqNum}
  }

  ghost predicate Distinct(ps: seq<Packet>) {
    forall i, j :: 0 <= i < j < |ps| ==> ps[i].seqNum != ps[j].seqNum
  }

  /** All messages that the log holds under number `n`, in acceptance order. */
  function Carried(ps: seq<Packet>, n: int): seq<MdpMessage> {
    if ps == [] then []
    else
      var last := ps[|ps| - 1];
      Carried(ps[..|ps| - 1], n) + if last.seqNum == n then Messages(last) else []
  }

  /** The messages of the numbers of `d` in [lo, hi), by ascending number. */
  function Stream(ps: seq<Packet>, d: set<int>, lo: int, hi: int): seq<MdpMessage>
    decreases hi - lo
  {
    if hi <= lo then []
    else Stream(ps, d, lo, hi - 1) + if hi - 1 in d then Carried(ps, hi - 1) else []
  }

  lemma {:induction false} NumbersAre(ps: seq<Packet>)
    ensures forall i :: 0 <= i < |ps| ==> ps[i].seqNum in Numbers(ps)
    ensures forall n :: n in Numbers(ps) ==> exists i :: 0 <= i < |ps| && ps[i].seqNum == n
  {
    if ps != [] {
      var front := ps[..|ps| - 1];
      NumbersAre(front);
      forall n | n in Numbers(ps)
        ensures exists i :: 0 <= i < |ps| && ps[i].seqNum == n
      {
        if n in Numbers(front) {
          var i :| 0 <= i < |front| && front[i].seqNum == n;
          assert ps[i].seqNum == n;
        } else {
          assert ps[|ps| - 1].seqNum == n;
        }
      }
      forall i | 0 <= i < |ps|
        ensures ps[i].seqNum in Numbers(ps)
      {
        if i < |front| {
          assert front[i] == ps[i];
        }
      }
    }
  }

  lemma {:induction false} CarriedFresh(ps: seq<Packet>, n: int)
    requires n !in Numbers(ps)
    ensures Carried(ps, n) == []
  {
    if ps != [] {
      CarriedFresh(ps[..|ps| - 1], n);
    }
  }

  lemma {:induction false} CarriedStamped(ps: seq<Packet>, n: int)
    ensures forall i :: 0 <= i < |Carried(ps, n)| ==> Carried(ps, n)[i].packetSeqNum == n
  {
    if ps != [] {
      CarriedStamped(ps[..|ps| - 1], n);
    }
  }

  /** Appending a packet changes what is held under its own number only. */
  lemma Appended(ps: seq<Packet>, p: Packet)
    ensures Numbers(ps + [p]) == Numbers(ps) + {p.seqNum}
    ensures forall n :: Carried(ps + [p], n) == if n == p.seqNum then Carried(ps, n) + Messages(p) else Carried(ps, n)
  {
    assert (ps + [p])[..|ps|] == ps;
    forall n
      ensures Carried(ps + [p], n) == if n == p.seqNum then Carried(ps, n) + Messages(p) else Carried(ps, n)
    {
      assert Carried(ps, n) + [] == Carried(ps, n);
    }
  }

  lemma {:induction false} StreamSplit(ps: seq<Packet>, d: set<int>, lo: int, mid: int, hi: int)
    requires lo <= mid <= hi
    ensures Stream(ps, d, lo, hi) == Stream(ps, d, lo, mid) + Stream(ps, d, mid, hi)
    decreases hi - mid
  {
    if mid < hi {
      StreamSplit(ps, d, lo, mid, hi - 1);
    }
  }

  lemma {:induction false} StreamNumbers(ps: seq<Packet>, d: set<int>, lo: int, hi: int)
    ensures AllUpto(Stream(ps, d, lo, hi), hi - 1) && AllAbove(Stream(ps, d, lo, hi), lo - 1)
    decreases hi - lo
  {
    if lo < hi {
      StreamNumbers(ps, d, lo, hi - 1);
      CarriedStamped(ps, hi - 1);
    }
  }

  /** The lowest number comes first. */
  lemma StreamBegins(ps: seq<Packet>, d: set<int>, lo: int, next: int, hi: int)
    requires lo in d && next == lo + 1 && next <= hi
    ensures Stream(ps, d, lo, hi) == Carried(ps, lo) + Stream(ps, d, next, hi)
  {
    StreamSplit(ps, d, lo, next, hi);
    assert Stream(ps, d, lo, lo) == [];
    assert [] + Carried(ps, lo) == Carried(ps, lo);
  }

  /** Packet numbers never fall. */
  ghost predicate NonDecreasing(ms: seq<MdpMessage>) {
    forall i, j :: 0 <= i < j < |ms| ==> ms[i].packetSeqNum <= ms[j].packetSeqNum
  }

  lemma {:induction false} StreamNonDecreasing(ps: seq<Packet>, d: set<int>, lo: int, hi: int)
    ensures NonDecreasing(Stream(ps, d, lo, hi))
    decreases hi - lo
  {
    if lo < hi {
      StreamNonDecreasing(ps, d, lo, hi - 1);
      StreamNumbers(ps, d, lo, hi - 1);
      CarriedStamped(ps, hi - 1);
    }
  }

  lemma {:induction false} StreamAgree(ps: seq<Packet>, d: set<int>, qs: seq<Packet>, e: set<int>, lo: int, hi: int)
    requires forall n :: lo <= n < hi ==> (n in d <==> n in e)
    requires forall n :: lo <= n < hi && n in d ==> Carried(ps, n) == Carried(qs, n)
    ensures Stream(ps, d, lo, hi) == Stream(qs, e, lo, hi)
    decreases hi - lo
  {
    if lo < hi {
      StreamAgree(ps, d, qs, e, lo, hi - 1);
    }
  }

  lemma {:induction false} StreamEmpty(ps: seq<Packet>, d: set<int>, lo: int, hi: int)
    requires forall n :: lo <= n < hi ==> n !in d
    ensures Stream(ps, d, lo, hi) == []
    decreases hi - lo
  {
    if lo < hi {
      StreamEmpty(ps, d, lo, hi - 1);
    }
  }

  /** Adding number `n` to the set puts its messages between the lower and the higher numbers. */
  lemma StreamInsert(ps: seq<Packet>, d: set<int>, lo: int, n: int, hi: int)
    requires lo <= n < hi && n !in d
    ensures Stream(ps, d, lo, hi) == Stream(ps, d, lo, n) + Stream(ps, d, n + 1, hi)
    ensures Stream(ps, d + {n}, lo, hi) == Stream(ps, d, lo, n) + Carried(ps, n) + Stream(ps, d, n + 1, hi)
  {
    StreamSplit(ps, d, lo, n + 1, hi);
    StreamSplit(ps, d + {n}, lo, n + 1, hi);
    StreamAgree(ps, d + {n}, ps, d, lo, n);
    StreamAgree(ps, d + {n}, ps, d, n + 1, hi);
  }

  /** The messages of channel packets lo, ..., hi - 1, where `channel(n)` is what packet `n` contains. */
  function ChannelMessages(channel: int -> seq<MessageBody>, lo: uint32, hi: int): seq<MdpMessage>
    requires hi <= UINT32_MAX + 1
    decreases hi - lo
  {
    if hi <= lo then []
    else ChannelMessages(channel, lo, hi - 1) + Messages(Packet(hi - 1, channel(hi - 1)))
  }

  lemma {:induction false} ChannelSplit(channel: int -> seq<MessageBody>, lo: uint32, mid: uint32, hi: int)
    requires lo <= mid <= hi <= UINT32_MAX + 1
    ensures ChannelMessages(channel, lo, hi) == ChannelMessages(channel, lo, mid) + ChannelMessages(channel, mid, hi)
    decreases hi - mid
  {
    if mid < hi {
      ChannelSplit(channel, lo, mid, hi - 1);
    }
  }

  lemma {:induction false} CarriedOnce(ps: seq<Packet>)
    requires Distinct(ps)
    ensures forall i :: 0 <= i < |ps| ==> Carried(ps, ps[i].seqNum) == Messages(ps[i])
  {
    if ps != [] {
      var front, p := ps[..|ps| - 1], ps[|ps| - 1];
      assert front + [p] == ps;
      CarriedOnce(front);
      NumbersAre(front);
      CarriedFresh(front, p.seqNum);
      Appended(front, p);
    }
  }

  /** Every logged packet is the channel's packet of that number. */
  ghost predicate FromChannel(ps: seq<Packet>, channel: int -> seq<MessageBody>) {
    forall i :: 0 <= i < |ps| ==> ps[i].bodies == channel(ps[i].seqNum)
  }

  lemma CarriedFromChannel(ps: seq<Packet>, channel: int -> seq<MessageBody>, n: uint32)
    requires Distinct(ps) && FromChannel(ps, channel) && n in Numbers(ps)
    ensures Carried(ps, n) == Messages(Packet(n, channel(n)))
  {
    NumbersAre(ps);
    CarriedOnce(ps);
    var i :| 0 <= i < |ps| && ps[i].seqNum == n;
    assert ps[i] == Packet(n, channel(n));
  }

  lemma {:induction false} StreamFromChannel(ps: seq<Packet>, d: set<int>, channel: int -> seq<MessageBody>,
                                             lo: uint32, hi: int)
    requires hi <= UINT32_MAX + 1
    requires forall n: uint32 :: lo <= n < hi ==> n in d && Carried(ps, n) == Messages(Packet(n, channel(n)))
    ensures Stream(ps, d, lo, hi) == ChannelMessages(channel, lo, hi)
    decreases hi - lo
  {
    if lo < hi {
      var last: uint32 := hi - 1;
      StreamFromChannel(ps, d, channel, lo, last);
      assert last in d && Carried(ps, last) == Messages(Packet(last, channel(last)));
    }
  }

  /** A gap-free stretch of a log that came from the channel is that stretch of the channel. */
  lemma StreamIsChannel(ps: seq<Packet>, channel: int -> seq<MessageBody>, lo: uint32, hi: int)
    requires Distinct(ps) && FromChannel(ps, channel) && hi <= UINT32_MAX + 1
    requires forall n :: lo <= n < hi ==> n in Numbers(ps)
    ensures Stream(ps, Numbers(ps), lo, hi) == ChannelMessages(channel, lo, hi)
  {
    forall n: uint32 | lo <= n < hi
      ensures Carried(ps, n) == Messages(Packet(n, channel(n)))
    {
      CarriedFromChannel(ps, channel, n);
    }
    StreamFromChannel(ps, Numbers(ps), channel, lo, hi);
  }
}
