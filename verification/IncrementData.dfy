/** The reorder buffer between the receiving threads and the consumer. */
module IncrementData {
  import opened Types
  import opened Arbitrator
  import opened OrderedSets

  /** `last` before the first insertion. */
  const NO_LAST: uint32 := UINT32_MAX

  /** `holes` are the numbers below `last` that were not inserted yet. */
  datatype Buffer = Buffer(last: uint32, holes: set<int>, datas: seq<MdpMessage>)

  const EMPTY: Buffer := Buffer(NO_LAST, {}, [])

  /** The messages numbered at most `n`, in order. */
  function Upto(s: seq<MdpMessage>, n: int): (r: seq<MdpMessage>)
    ensures forall i :: 0 <= i < |r| ==> r[i].packetSeqNum <= n
  {
    if s == [] then []
    else if s[0].packetSeqNum <= n then [s[0]] + Upto(s[1..], n)
    else Upto(s[1..], n)
  }

  /** The messages numbered above `n`, in order. */
  function Above(s: seq<MdpMessage>, n: int): (r: seq<MdpMessage>)
    ensures forall i :: 0 <= i < |r| ==> r[i].packetSeqNum > n
  {
    if s == [] then []
    else if s[0].packetSeqNum > n then [s[0]] + Above(s[1..], n)
    else Above(s[1..], n)
  }

  ghost predicate Sorted(s: seq<MdpMessage>) {
    forall i :: 0 < i < |s| ==> s[i - 1].packetSeqNum <= s[i].packetSeqNum
  }

  ghost predicate AllUpto(s: seq<MdpMessage>, n: int) {
    forall i :: 0 <= i < |s| ==> s[i].packetSeqNum <= n
  }

  ghost predicate AllAbove(s: seq<MdpMessage>, n: int) {
    forall i :: 0 <= i < |s| ==> s[i].packetSeqNum > n
  }

  /** Splitting at `n` where the numbers cross it gives the two filters back. */
  lemma {:induction false} SplitAt(a: seq<MdpMessage>, b: seq<MdpMessage>, n: int)
    requires AllUpto(a, n) && AllAbove(b, n)
    ensures Upto(a + b, n) == a && Above(a + b, n) == b
  {
    if a != [] {
      assert (a + b)[1..] == a[1..] + b;
      SplitAt(a[1..], b, n);
      assert a == [a[0]] + a[1..];
    } else if b != [] {
      assert a + b == b;
      SplitAt([], b[1..], n);
      assert [] + b[1..] == b[1..];
      assert b == [b[0]] + b[1..];
    }
  }

  lemma {:induction false} AboveFromHead(s: seq<MdpMessage>, n: int)
    requires Sorted(s) && (s != [] ==> s[0].packetSeqNum > n)
    ensures AllAbove(s, n)
  {
    if |s| > 1 {
      var rest := s[1..];
      assert Sorted(rest) by {
        assert forall i :: 0 < i < |rest| ==> rest[i - 1] == s[i] && rest[i] == s[i + 1];
      }
      assert rest[0] == s[1];
      AboveFromHead(rest, n);
      assert forall i :: 0 < i < |s| ==> s[i] == rest[i - 1];
    }
  }

  lemma {:induction false} UptoFromLast(s: seq<MdpMessage>, n: int)
    requires Sorted(s) && (s != [] ==> s[|s| - 1].packetSeqNum <= n)
    ensures AllUpto(s, n)
  {
    if |s| > 1 {
      UptoFromLast(s[..|s| - 1], n);
      assert forall i :: 0 <= i < |s| - 1 ==> s[i] == s[..|s| - 1][i];
    }
  }

  lemma {:induction false} SortedSplit(s: seq<MdpMessage>, n: int)
    requires Sorted(s)
    ensures s == Upto(s, n) + Above(s, n)
  {
    if s != [] {
      if s[0].packetSeqNum > n {
        AboveFromHead(s, n);
        SplitAt([], s, n);
        assert [] + s == s;
      } else {
        assert Sorted(s[1..]) by {
          assert forall i :: 0 < i < |s| - 1 ==> s[1..][i - 1] == s[i] && s[1..][i] == s[i + 1];
        }
        SortedSplit(s[1..], n);
        assert s == [s[0]] + s[1..];
      }
    }
  }

  /** Inserting a packet: its messages go behind everything numbered at most `n`, and the holes below
      the highest number are those never inserted. */
  function Insert(b: Buffer, n: uint32, ms: seq<MdpMessage>): (r: Buffer)
  {
    Buffer(
      if b.last == NO_LAST || n > b.last then n else b.last,
      if b.last == NO_LAST then b.holes
      else if n > b.last then b.holes + Between(b.last, n)
      else b.holes - {n},
      Upto(b.datas, n) + ms + Above(b.datas, n))
  }

  /** The consumer may take the first message exactly when nothing that must come before it is missing. */
  ghost predicate Ready(b: Buffer) {
    b.datas != [] && forall h :: h in b.holes ==> b.datas[0].packetSeqNum < h
  }

  /** A message of the packet that is being inserted lands behind those of the packet that are in already. */
  lemma LandsBehind(below: seq<MdpMessage>, done: seq<MdpMessage>, above: seq<MdpMessage>, m: MdpMessage)
    requires AllUpto(below + done, m.packetSeqNum) && AllAbove(above, m.packetSeqNum)
    ensures var line, n := (below + done) + above, m.packetSeqNum;
            Upto(line, n) + [m] + Above(line, n) == (below + (done + [m])) + above
    ensures AllUpto(below + (done + [m]), m.packetSeqNum)
  {
    SplitAt(below + done, above, m.packetSeqNum);
    assert (below + done) + [m] == below + (done + [m]);
  }

  class CmeData {
    var lastSeq: uint32
    var unreceivedSeqs: set<int>
    var incrementDatas: seq<MdpMessage>

    function View(): Buffer
      reads this
    {
      Buffer(lastSeq, unreceivedSeqs, incrementDatas)
    }

    /** The multiset is ordered, and 0 is free to say that nothing is missing. */
    ghost predicate Valid()
      reads this
    {
      Sorted(incrementDatas) && forall h :: h in unreceivedSeqs ==> h > 0
    }

    constructor ()
      ensures Valid() && View() == EMPTY
    {
      lastSeq, unreceivedSeqs, incrementDatas := UINT32_MAX, {}, [];
    }

    /** Ordered-multiset insertion: behind every element that is not greater. */
    method InsertMessage(m: MdpMessage)
      requires Valid()
      modifies `incrementDatas
      ensures Valid()
      ensures incrementDatas ==
              Upto(old(incrementDatas), m.packetSeqNum) + [m] + Above(old(incrementDatas), m.packetSeqNum)
    {
      var i := |incrementDatas|;
      while i > 0 && incrementDatas[i - 1].packetSeqNum > m.packetSeqNum
        invariant 0 <= i <= |incrementDatas|
        invariant forall j :: i <= j < |incrementDatas| ==> incrementDatas[j].packetSeqNum > m.packetSeqNum
      {
        i := i - 1;
      }
      PrefixSorted(incrementDatas, i);
      UptoFromLast(incrementDatas[..i], m.packetSeqNum);
      SplitWhere(incrementDatas, i, m.packetSeqNum);
      StaysSorted(incrementDatas, i, m);
      incrementDatas := incrementDatas[..i] + [m] + incrementDatas[i..];
    }

    /** Moves the messages of packet `n` into the multiset one by one. */
    method InsertMessages(n: uint32, ms: seq<MdpMessage>)
      requires Valid()
      requires forall i :: 0 <= i < |ms| ==> ms[i].packetSeqNum == n
      modifies `incrementDatas
      ensures Valid()
      ensures incrementDatas == Upto(old(incrementDatas), n) + ms + Above(old(incrementDatas), n)
    {
      ghost var below, above := Upto(incrementDatas, n), Above(incrementDatas, n);
      SortedSplit(incrementDatas, n);
      ghost var done: seq<MdpMessage> := [];
      assert below + done == below;
      for i := 0 to |ms|
        invariant Valid() && done == ms[..i]
        invariant incrementDatas == (below + done) + above && AllUpto(below + done, n)
      {
        LandsBehind(below, done, above, ms[i]);
        InsertMessage(ms[i]);
        done := done + [ms[i]];
      }
      assert done == ms;
    }

    /** The counting range of the third branch is well formed because `n` is not `lastSeq`. */
    method InsertIncrementData(n: uint32, ms: seq<MdpMessage>)
      requires Valid()
      requires forall i :: 0 <= i < |ms| ==> ms[i].packetSeqNum == n
      requires lastSeq == NO_LAST || n != lastSeq
      modifies this
      ensures Valid()
      ensures View() == Insert(old(View()), n, ms)
    {
      InsertMessages(n, ms);
      ghost var stored := incrementDatas;
      if lastSeq == UINT32_MAX {
        lastSeq := n;
      } else if n < lastSeq {
        unreceivedSeqs := unreceivedSeqs - {n};
      } else {
        for seqNum := lastSeq + 1 to n
          invariant Valid() && lastSeq == old(lastSeq) && incrementDatas == stored
          invariant unreceivedSeqs == old(unreceivedSeqs) + Between(lastSeq, seqNum)
        {
          unreceivedSeqs := unreceivedSeqs + {seqNum};
        }
        lastSeq := n;
      }
    }

    /** One round of the waiting loop: `None` means that the consumer goes on waiting. */
    method PickNextMessage() returns (message: Option<MdpMessage>)
      requires Valid()
      ensures message.Some? <==> Ready(View())
      ensures message.Some? <==>
                incrementDatas != [] && forall h :: h in unreceivedSeqs ==> incrementDatas[0].packetSeqNum < h
      ensures message.Some? ==> message.value == incrementDatas[0]
    {
      if incrementDatas == [] {
        return None;
      }
      var firstUnreceived := 0;
      if unreceivedSeqs != {} {
        SmallestExists(unreceivedSeqs);
        firstUnreceived :| firstUnreceived in unreceivedSeqs
                        && forall h :: h in unreceivedSeqs ==> firstUnreceived <= h;
      }
      if firstUnreceived != 0 && incrementDatas[0].packetSeqNum >= firstUnreceived {
        return None;
      }
      return Some(incrementDatas[0]);
    }

    /** `position` is where the iterator that was picked points. */
    method RemoveIncrementData(position: nat)
      requires Valid() && position < |incrementDatas|
      modifies `incrementDatas
      ensures Valid()
      ensures incrementDatas == old(incrementDatas)[..position] + old(incrementDatas)[position + 1..]
    {
      RemovalSorted(incrementDatas, position);
      incrementDatas := incrementDatas[..position] + incrementDatas[position + 1..];
    }

    /** The lowest number that is buffered; 0 stands for the consumer that keeps waiting for a first packet. */
    method GetIncrementFirstDataSeq() returns (first: uint32)
      requires Valid()
      ensures incrementDatas == [] ==> first == 0
      ensures incrementDatas != [] ==> first == incrementDatas[0].packetSeqNum
      ensures forall i :: 0 <= i < |incrementDatas| ==> first <= incrementDatas[i].packetSeqNum
    {
      if incrementDatas == [] {
        return 0;
      }
      first := incrementDatas[0].packetSeqNum;
      AboveFromHead(incrementDatas, first - 1);
    }
  }

  /** An upper-bound position splits an ordered buffer into the two filters. */
  lemma SplitWhere(s: seq<MdpMessage>, i: nat, n: int)
    requires i <= |s|
    requires AllUpto(s[..i], n) && AllAbove(s[i..], n)
    ensures s[..i] == Upto(s, n) && s[i..] == Above(s, n)
  {
    var low, high := s[..i], s[i..];
    assert s == low + high;
    SplitAt(low, high, n);
  }

  lemma StaysSorted(s: seq<MdpMessage>, i: nat, m: MdpMessage)
    requires Sorted(s) && i <= |s|
    requires i > 0 ==> s[i - 1].packetSeqNum <= m.packetSeqNum
    requires i < |s| ==> s[i].packetSeqNum > m.packetSeqNum
    ensures Sorted(s[..i] + [m] + s[i..])
  {
    var t := s[..i] + [m] + s[i..];
    forall k | 0 < k < |t|
      ensures t[k - 1].packetSeqNum <= t[k].packetSeqNum
    {
      assert t[k] == if k < i then s[k] else if k == i then m else s[k - 1];
      assert t[k - 1] == if k <= i then s[k - 1] else if k == i + 1 then m else s[k - 2];
    }
  }

  lemma PrefixSorted(s: seq<MdpMessage>, i: nat)
    requires Sorted(s) && i <= |s|
    ensures Sorted(s[..i])
  {
    assert forall k :: 0 <= k < i ==> s[..i][k] == s[k];
  }

  lemma RemovalSorted(s: seq<MdpMessage>, i: nat)
    requires Sorted(s) && i < |s|
    ensures Sorted(s[..i] + s[i + 1..])
  {
    var t := s[..i] + s[i + 1..];
    forall k | 0 < k < |t|
      ensures t[k - 1].packetSeqNum <= t[k].packetSeqNum
    {
      assert t[k] == if k < i then s[k] else s[k + 1];
      assert t[k - 1] == if k <= i then s[k - 1] else s[k];
      if k == i {
        assert s[k - 1].packetSeqNum <= s[k].packetSeqNum <= s[k + 1].packetSeqNum;
      }
    }
  }
}
