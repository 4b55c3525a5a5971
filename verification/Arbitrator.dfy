/** Arbitration between the redundant UDP feeds and the TCP replays. */
module Arbitrator {
  import opened Types

  /** `current` value before any packet was accepted. */
  const NO_SEQUENCE: uint32 := UINT32_MAX

  /** Status of a packet that must be dropped. */
  const DISCARD: uint32 := UINT32_MAX

  datatype Arbitration = Arbitration(current: uint32, lost: set<int>)

  /** The numbers strictly between `lo` and `hi`. */
  function Between(lo: int, hi: int): (gap: set<int>)
    ensures forall x :: x in gap <==> lo < x < hi
    decreases hi - lo
  {
    if hi <= lo + 1 then {} else Between(lo, hi - 1) + {hi - 1}
  }

  /** What a feed packet means: a number above `current` is fresh and everything it jumps over is lost,
      a lost number is recovered, and any other number was seen before. */
  function FeedCheck(a: Arbitration, n: uint32): (r: (Arbitration, uint32))
  {
    if a.current == NO_SEQUENCE then
      if n == NO_SEQUENCE then (a, DISCARD) else (a.(current := n), 0)
    else if n > a.current then
      (Arbitration(n, a.lost + Between(a.current, n)), if n == a.current + 1 then 0 else a.current + 1)
    else
      if n < a.current && n in a.lost then (a.(lost := a.lost - {n}), 0) else (a, DISCARD)
  }

  /** A replayed packet is wanted only while its number is lost. */
  function ReplayCheck(a: Arbitration, n: uint32): (r: (Arbitration, uint32))
  {
    if n in a.lost then (a.(lost := a.lost - {n}), 0) else (a, DISCARD)
  }

  class DatArbitrator {
    var currentSequence: uint32
    var lostSequences: set<int>

    function View(): Arbitration
      reads this
    {
      Arbitration(currentSequence, lostSequences)
    }

    constructor ()
      ensures View() == Arbitration(NO_SEQUENCE, {})
    {
      currentSequence, lostSequences := UINT32_MAX, {};
    }

    method CheckFeedPacket(n: uint32) returns (status: uint32)
      modifies this
      ensures (View(), status) == FeedCheck(old(View()), n)
    {
      if n == Wrap32(currentSequence + 1) {
        assert lostSequences + Between(currentSequence, currentSequence + 1) == lostSequences;
        currentSequence := n;
        return 0;
      }
      if n == currentSequence {
        return DISCARD;
      }
      if currentSequence == UINT32_MAX {
        currentSequence := n;
        return 0;
      }
      if n < currentSequence {
        if n !in lostSequences {
          return DISCARD;
        }
        lostSequences := lostSequences - {n};
        return 0;
      }
      var oldSeq := Wrap32(currentSequence + 1);
      for seqNum := oldSeq to n
        invariant lostSequences == old(lostSequences) + Between(old(currentSequence), seqNum)
        invariant currentSequence == old(currentSequence)
      {
        lostSequences := lostSequences + {seqNum};
      }
      currentSequence := n;
      return oldSeq;
    }

    method CheckReplayPacket(n: uint32) returns (status: uint32)
      modifies this
      ensures (View(), status) == ReplayCheck(old(View()), n)
    {
      if n !in lostSequences {
        return DISCARD;
      }
      lostSequences := lostSequences - {n};
      return 0;
    }
  }
}
