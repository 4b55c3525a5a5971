/** The reorder buffer on its own: what it holds does not depend on the order of insertion. */
module BufferOrder {
  import opened Types
  import opened IncrementData
  import opened PacketLog

  function InsertAll(ps: seq<Packet>): Buffer {
    if ps == [] then EMPTY
    else
      var p := ps[|ps| - 1];
      Insert(InsertAll(ps[..|ps| - 1]), p.seqNum, Messages(p))
  }

  /** Distinct packets, none of which carries the "none yet" number. */
  ghost predicate Insertable(ps: seq<Packet>) {
    ps != [] && Distinct(ps) && forall i :: 0 <= i < |ps| ==> ps[i].seqNum < NO_LAST
  }

  /** The holes are the numbers between the first inserted one and the highest that were not inserted. */
  ghost predicate HolesAre(b: Buffer, d: set<int>, first: int) {
    && b.last in d
    && (forall n :: n in d ==> n <= b.last)
    && (forall n :: n in b.holes <==> first < n < b.last && n !in d)
  }

  lemma HolesGrow(b: Buffer, d: set<int>, first: int, n: uint32, ms: seq<MdpMessage>)
    requires HolesAre(b, d, first) && first in d && n !in d
    requires b.last < NO_LAST
    ensures HolesAre(Insert(b, n, ms), d + {n}, first)
  {
  }

  /** Whatever the order, `last` is the highest number and the holes are what is missing below it. */
  lemma {:induction false} HolesAfter(ps: seq<Packet>)
    requires Insertable(ps)
    ensures HolesAre(InsertAll(ps), Numbers(ps), ps[0].seqNum)
  {
    var front, p := ps[..|ps| - 1], ps[|ps| - 1];
    if front == [] {
      assert InsertAll(front) == EMPTY;
      assert Numbers(ps) == {p.seqNum};
    } else {
      HolesAfter(front);
      NumbersAre(front);
      assert front[0] == ps[0];
      HolesGrow(InsertAll(front), Numbers(front), ps[0].seqNum, p.seqNum, Messages(p));
    }
  }

  /** Whatever the order, the messages are lined up by packet number, packets kept whole. */
  lemma {:induction false} MessagesAfter(ps: seq<Packet>, lo: int, hi: int)
    requires Distinct(ps) && forall i :: 0 <= i < |ps| ==> lo <= ps[i].seqNum < hi
    ensures InsertAll(ps).datas == Stream(ps, Numbers(ps), lo, hi)
  {
    if ps == [] {
      StreamEmpty(ps, {}, lo, hi);
    } else {
      var front, p := ps[..|ps| - 1], ps[|ps| - 1];
      assert front + [p] == ps;
      MessagesAfter(front, lo, hi);
      NumbersAre(front);
      CarriedFresh(front, p.seqNum);
      Appended(front, p);
      StreamAgree(front, Numbers(front), ps, Numbers(front), lo, hi);
      Lines(ps, Numbers(front), lo, p.seqNum, hi);
    }
  }

  lemma Lines(ps: seq<Packet>, d: set<int>, lo: int, n: int, hi: int)
    requires lo <= n < hi && n !in d
    ensures var line := Stream(ps, d, lo, hi);
            Stream(ps, d + {n}, lo, hi) == Upto(line, n) + Carried(ps, n) + Above(line, n)
  {
    StreamInsert(ps, d, lo, n, hi);
    StreamNumbers(ps, d, lo, n);
    StreamNumbers(ps, d, n + 1, hi);
    SplitAt(Stream(ps, d, lo, n), Stream(ps, d, n + 1, hi), n);
  }

  ghost predicate SamePackets(ps: seq<Packet>, qs: seq<Packet>) {
    (forall i :: 0 <= i < |ps| ==> ps[i] in qs) && (forall i :: 0 <= i < |qs| ==> qs[i] in ps)
  }

  lemma SameNumbers(ps: seq<Packet>, qs: seq<Packet>)
    requires forall i :: 0 <= i < |ps| ==> ps[i] in qs
    ensures Numbers(ps) <= Numbers(qs)
  {
    NumbersAre(ps);
    NumbersAre(qs);
    forall n | n in Numbers(ps)
      ensures n in Numbers(qs)
    {
      var i :| 0 <= i < |ps| && ps[i].seqNum == n;
      assert ps[i] in qs;
    }
  }

  lemma SameCarried(ps: seq<Packet>, qs: seq<Packet>, n: int)
    requires Distinct(ps) && Distinct(qs) && SamePackets(ps, qs) && n in Numbers(ps)
    ensures Carried(ps, n) == Carried(qs, n)
  {
    NumbersAre(ps);
    CarriedOnce(ps);
    CarriedOnce(qs);
    var i :| 0 <= i < |ps| && ps[i].seqNum == n;
    var j :| 0 <= j < |qs| && qs[j] == ps[i];
    assert Carried(qs, qs[j].seqNum) == Messages(qs[j]);
  }

  lemma SameHoles(b: Buffer, c: Buffer, d: set<int>, first: int)
    requires HolesAre(b, d, first) && HolesAre(c, d, first)
    ensures b.last == c.last && b.holes == c.holes
  {
    assert b.last <= c.last && c.last <= b.last;
    assert forall n :: n in b.holes <==> n in c.holes;
  }

  /** Two insertion orders of the same packets that start with the same packet build the same buffer. */
  lemma OrderDoesNotMatter(ps: seq<Packet>, qs: seq<Packet>)
    requires Insertable(ps) && Insertable(qs) && SamePackets(ps, qs) && ps[0] == qs[0]
    ensures InsertAll(ps) == InsertAll(qs)
  {
    SameNumbers(ps, qs);
    SameNumbers(qs, ps);
    HolesAfter(ps);
    HolesAfter(qs);
    SameHoles(InsertAll(ps), InsertAll(qs), Numbers(ps), ps[0].seqNum);
    MessagesAfter(ps, 0, NO_LAST);
    MessagesAfter(qs, 0, NO_LAST);
    forall n | 0 <= n < NO_LAST && n in Numbers(ps)
      ensures Carried(ps, n) == Carried(qs, n)
    {
      SameCarried(ps, qs, n);
    }
    StreamAgree(ps, Numbers(ps), qs, Numbers(qs), 0, NO_LAST);
  }
}
