/** Snapshots that are repeated in cycles: what is assembled of one, and when two of them mix. */
module SnapshotCycles {
  import opened Types
  import opened BookLevels
  import opened SnapshotAssembly

  /** All messages of a list of packets. */
  function Concat<T>(ps: seq<RecoveryPacket<T>>): seq<T> {
    if ps == [] then [] else Concat(ps[..|ps| - 1]) + ps[|ps| - 1].messages
  }

  /** A snapshot as the exchange repeats it: packets 1, 2, ..., with the message count in packet 1. */
  ghost predicate IsCycle<T>(cycle: seq<RecoveryPacket<T>>) {
    && 0 < |cycle| < UINT32_MAX
    && (forall j :: 0 <= j < |cycle| ==> cycle[j].seqNum == j + 1)
    && cycle[0].total == |Concat(cycle)|
    && cycle[|cycle| - 1].messages != []
  }

  /** Every packet of the list is one of the cycle, each any number of times and in any order. */
  ghost predicate FromCycle<T>(ps: seq<RecoveryPacket<T>>, cycle: seq<RecoveryPacket<T>>) {
    forall i :: 0 <= i < |ps| ==> 1 <= ps[i].seqNum <= |cycle| && ps[i] == cycle[ps[i].seqNum - 1]
  }

  lemma {:induction false} ConcatGrows<T>(ps: seq<RecoveryPacket<T>>, k: nat)
    requires k <= |ps|
    ensures |Concat(ps[..k])| <= |Concat(ps)|
    ensures k < |ps| && ps[|ps| - 1].messages != [] ==> |Concat(ps[..k])| < |Concat(ps)|
  {
    if k == |ps| {
      assert ps[..k] == ps;
    } else {
      assert ps[..|ps| - 1][..k] == ps[..k];
      ConcatGrows(ps[..|ps| - 1], k);
    }
  }

  lemma ConcatNext<T>(ps: seq<RecoveryPacket<T>>, k: nat)
    requires 1 <= k <= |ps|
    ensures Concat(ps[..k]) == Concat(ps[..k - 1]) + ps[k - 1].messages
  {
    assert ps[..k][..k - 1] == ps[..k - 1];
  }

  lemma {:induction false} ConcatOfBoth<T>(a: seq<RecoveryPacket<T>>, b: seq<RecoveryPacket<T>>)
    ensures Concat(a + b) == Concat(a) + Concat(b)
  {
    if b == [] {
      assert a + b == a;
    } else {
      assert (a + b)[..|a + b| - 1] == a + b[..|b| - 1];
      ConcatOfBoth(a, b[..|b| - 1]);
    }
  }

  /** Packet 1 makes the assembly forget everything before it. */
  lemma {:induction false} RestartForgets<T>(earlier: seq<RecoveryPacket<T>>, ps: seq<RecoveryPacket<T>>)
    requires ps != [] && ps[0].seqNum == 1
    ensures After(earlier + ps) == After(ps)
  {
    var all := earlier + ps;
    assert all[..|all| - 1] == earlier + ps[..|ps| - 1];
    if |ps| > 1 {
      RestartForgets(earlier, ps[..|ps| - 1]);
    }
  }

  /* ---------- a run against a cycle ---------- */

  /** The messages of packet j + 1 of the cycle; there are none behind its end. */
  function CycleMessages<T>(cycle: seq<RecoveryPacket<T>>, j: nat): seq<T> {
    if j < |cycle| then cycle[j].messages else []
  }

  function Beginning<T>(cycle: seq<RecoveryPacket<T>>, k: nat): seq<T> {
    Concat(cycle[..Min(k, |cycle|)])
  }

  /** The packets that were picked have the messages of the cycle. */
  ghost predicate PicksAreCycles<T>(ps: seq<RecoveryPacket<T>>, run: seq<nat>, cycle: seq<RecoveryPacket<T>>)
    requires IsRun(ps, run)
  {
    forall j :: 0 <= j < |run| ==> ps[run[j]].messages == CycleMessages(cycle, j)
  }

  /** After every pick, what is saved is the beginning of the cycle. */
  ghost predicate FollowsCycle<T>(ps: seq<RecoveryPacket<T>>, run: seq<nat>, cycle: seq<RecoveryPacket<T>>)
    requires IsRun(ps, run)
  {
    forall k :: 1 <= k <= |run| ==> After(ps[..run[k - 1] + 1]).datas == Beginning(cycle, k)
  }

  lemma SavedAtPick<T>(ps: seq<RecoveryPacket<T>>, run: seq<nat>, k: nat)
    requires IsRun(ps, run) && 1 <= k <= |run|
    ensures After(ps[..run[k - 1] + 1]) == Assembly(Wrap32(k), ps[run[0]].total, MessagesOf(ps, run[..k]))
  {
    AssembledAtPick(ps, run, k, run[k - 1] + 1);
  }

  lemma BeginningNext<T>(cycle: seq<RecoveryPacket<T>>, j: nat, k: nat)
    requires k == j + 1
    ensures Beginning(cycle, k) == Beginning(cycle, j) + CycleMessages(cycle, j)
  {
    if k <= |cycle| {
      ConcatNext(cycle, k);
    }
  }

  lemma PickedNext<T>(ps: seq<RecoveryPacket<T>>, run: seq<nat>, j: nat, k: nat)
    requires IsRun(ps, run) && j < |run| && k == j + 1
    ensures MessagesOf(ps, run[..k]) == MessagesOf(ps, run[..j]) + ps[run[j]].messages
  {
    assert run[..k][..j] == run[..j];
  }

  lemma {:induction false} PickedIsBeginning<T>(ps: seq<RecoveryPacket<T>>, run: seq<nat>,
                                                cycle: seq<RecoveryPacket<T>>, k: nat)
    requires IsRun(ps, run) && PicksAreCycles(ps, run, cycle) && k <= |run|
    ensures MessagesOf(ps, run[..k]) == Beginning(cycle, k)
  {
    if k == 0 {
      assert run[..0] == [] && cycle[..0] == [];
    } else {
      var j := k - 1;
      PickedIsBeginning(ps, run, cycle, j);
      PickedNext(ps, run, j, k);
      BeginningNext(cycle, j, k);
    }
  }

  lemma SameTails<T>(a: seq<T>, b: seq<T>, c: seq<T>)
    requires a + b == a + c
    ensures b == c
  {
    assert b == (a + b)[|a|..] && c == (a + c)[|a|..];
  }

  lemma PickIsCycles<T>(ps: seq<RecoveryPacket<T>>, run: seq<nat>, cycle: seq<RecoveryPacket<T>>, j: nat, k: nat)
    requires IsRun(ps, run) && FollowsCycle(ps, run, cycle) && j < |run| && k == j + 1
    ensures ps[run[j]].messages == CycleMessages(cycle, j)
  {
    SavedAtPick(ps, run, k);
    PickedNext(ps, run, j, k);
    BeginningNext(cycle, j, k);
    if j == 0 {
      assert run[..0] == [] && cycle[..0] == [];
    } else {
      SavedAtPick(ps, run, j);
      assert After(ps[..run[j - 1] + 1]).datas == Beginning(cycle, j);
    }
    assert After(ps[..run[k - 1] + 1]).datas == Beginning(cycle, k);
    SameTails(Beginning(cycle, j), ps[run[j]].messages, CycleMessages(cycle, j));
  }

  /** Whatever was received, what is saved follows a cycle at every pick if and only if every packet that was
      picked has the messages of that cycle: one picked packet of another cycle is enough to go wrong. */
  lemma FollowsExactly<T>(ps: seq<RecoveryPacket<T>>, run: seq<nat>, cycle: seq<RecoveryPacket<T>>)
    requires IsRun(ps, run)
    ensures FollowsCycle(ps, run, cycle) <==> PicksAreCycles(ps, run, cycle)
  {
    if PicksAreCycles(ps, run, cycle) {
      forall k | 1 <= k <= |run|
        ensures After(ps[..run[k - 1] + 1]).datas == Beginning(cycle, k)
      {
        SavedAtPick(ps, run, k);
        PickedIsBeginning(ps, run, cycle, k);
      }
    }
    if FollowsCycle(ps, run, cycle) {
      forall j | 0 <= j < |run|
        ensures ps[run[j]].messages == CycleMessages(cycle, j)
      {
        PickIsCycles(ps, run, cycle, j, j + 1);
      }
    }
  }

  /* ---------- the callback ---------- */

  /** Whether the callback is called for the packet at position `i`. */
  ghost predicate Called<T>(ps: seq<RecoveryPacket<T>>, i: nat)
    requires i < |ps|
  {
    Accepts(After(ps[..i]), ps[i]) && |After(ps[..i + 1]).datas| >= After(ps[..i + 1]).total
  }

  /** Every position from packet 1 on is a pick or lies between a pick and the next one. */
  lemma {:induction false} PickBefore(run: seq<nat>, i: nat) returns (k: nat)
    requires run != [] && run[0] <= i
    requires forall j, l :: 0 <= j < l < |run| ==> run[j] < run[l]
    ensures 1 <= k <= |run| && run[k - 1] <= i && (k < |run| ==> i < run[k])
  {
    var last := |run| - 1;
    if run[last] <= i {
      k := |run|;
    } else {
      k := PickBefore(run[..last], i);
    }
  }

  /** Between two picks, and behind the last one, nothing is accepted and the callback is not called. */
  lemma NotCalledBetween<T>(ps: seq<RecoveryPacket<T>>, run: seq<nat>, k: nat, i: nat)
    requires IsRun(ps, run) && 1 <= k <= |run| && run[k - 1] < i < NextPick(ps, run, k - 1)
    ensures i < |ps| && !Accepts(After(ps[..i]), ps[i]) && !Called(ps, i)
  {
    AssembledAtPick(ps, run, k, i);
    var j := k - 1;
    assert ps[i].seqNum != Wrap32(j + 2);
    WrapNext(k);
  }

  lemma WrapNext(k: nat)
    ensures Wrap32(Wrap32(k) + 1) == Wrap32(k + 1)
  {
  }

  lemma PicksAreAccepted<T>(ps: seq<RecoveryPacket<T>>, run: seq<nat>, k: nat)
    requires IsRun(ps, run) && 1 <= k <= |run|
    ensures Accepts(After(ps[..run[k - 1]]), ps[run[k - 1]])
  {
    if k > 1 {
      var j := k - 1;
      AssembledAtPick(ps, run, j, run[j]);
      WrapNext(j);
    }
  }

  lemma CountAtPick<T>(ps: seq<RecoveryPacket<T>>, run: seq<nat>, cycle: seq<RecoveryPacket<T>>, k: nat)
    requires IsRun(ps, run) && 1 <= k <= |run| && IsCycle(cycle) && PicksAreCycles(ps, run, cycle)
    requires ps[run[0]].total == cycle[0].total
    ensures var a := After(ps[..run[k - 1] + 1]); |a.datas| >= a.total <==> k >= |cycle|
    ensures k >= |cycle| ==> After(ps[..run[k - 1] + 1]).datas == Concat(cycle)
  {
    SavedAtPick(ps, run, k);
    PickedIsBeginning(ps, run, cycle, k);
    ConcatGrows(cycle, Min(k, |cycle|));
    assert cycle[..|cycle|] == cycle;
  }

  /** If the picked packets are those of the cycle, the callback is called exactly for its last packet and for
      any empty packet that is picked behind it, and then the whole snapshot is there. */
  lemma CalledExactlyAtEnd<T>(ps: seq<RecoveryPacket<T>>, run: seq<nat>, cycle: seq<RecoveryPacket<T>>, k: nat)
    requires IsRun(ps, run) && 1 <= k <= |run| && IsCycle(cycle) && PicksAreCycles(ps, run, cycle)
    requires ps[run[0]].total == cycle[0].total
    ensures Called(ps, run[k - 1]) <==> k >= |cycle|
    ensures k >= |cycle| ==> After(ps[..run[k - 1] + 1]).datas == Concat(cycle)
  {
    PicksAreAccepted(ps, run, k);
    CountAtPick(ps, run, cycle, k);
  }

  /* ---------- receiving one cycle ---------- */

  lemma PickIsOfCycle<T>(ps: seq<RecoveryPacket<T>>, run: seq<nat>, cycle: seq<RecoveryPacket<T>>, j: nat)
    requires IsRun(ps, run) && j < |run| && j <= |cycle| && IsCycle(cycle) && FromCycle(ps[run[0]..], cycle)
    ensures j < |cycle| && ps[run[j]] == cycle[j]
  {
    InTail(ps, run[0], run[j]);
    assert ps[run[j]] in ps[run[0]..];
    assert ps[run[j]].seqNum == j + 1;
  }

  lemma InTail<T>(s: seq<T>, at: nat, i: nat)
    requires at <= i < |s|
    ensures exists d :: 0 <= d < |s[at..]| && s[at..][d] == s[i]
  {
    assert s[at..][i - at] == s[i];
  }

  /** If everything since the last packet 1 came from one cycle, so did everything that was picked. */
  lemma PickedFromCycle<T>(ps: seq<RecoveryPacket<T>>, run: seq<nat>, cycle: seq<RecoveryPacket<T>>)
    requires IsRun(ps, run) && run != [] && IsCycle(cycle) && FromCycle(ps[run[0]..], cycle)
    ensures |run| <= |cycle| && PicksAreCycles(ps, run, cycle) && ps[run[0]].total == cycle[0].total
  {
    if |run| > |cycle| {
      PickIsOfCycle(ps, run, cycle, |cycle|);
    } else {
      forall j | 0 <= j < |run|
        ensures ps[run[j]] == cycle[j]
      {
        PickIsOfCycle(ps, run, cycle, j);
      }
    }
  }

  /** Whatever was received before the last packet 1, and whatever arrives of the cycle after it, duplicated,
      lost or out of order: what is saved is a prefix of the cycle. */
  lemma SavedIsPrefix<T>(ps: seq<RecoveryPacket<T>>, run: seq<nat>, cycle: seq<RecoveryPacket<T>>)
    requires IsRun(ps, run) && run != [] && IsCycle(cycle) && FromCycle(ps[run[0]..], cycle)
    ensures 1 <= |run| <= |cycle|
    ensures After(ps) == Assembly(|run|, cycle[0].total, Concat(cycle[..|run|]))
  {
    PickedFromCycle(ps, run, cycle);
    SavedOfRun(ps, run);
    PickedIsBeginning(ps, run, cycle, |run|);
    assert run[..|run|] == run;
  }

  lemma SavedOfRun<T>(ps: seq<RecoveryPacket<T>>, run: seq<nat>)
    requires IsRun(ps, run) && 0 < |run| < UINT32_MAX
    ensures After(ps) == Assembly(|run|, ps[run[0]].total, MessagesOf(ps, run))
  {
    WrapSmall(|run|);
    AssembledIsRun(ps, run);
  }

  lemma WrapSmall(k: nat)
    requires k <= UINT32_MAX
    ensures Wrap32(k) == k
  {
  }

  /** Then the number of messages reaches the declared total exactly when the whole snapshot is there. */
  lemma CompleteExactlyAtEnd<T>(ps: seq<RecoveryPacket<T>>, run: seq<nat>, cycle: seq<RecoveryPacket<T>>)
    requires IsRun(ps, run) && run != [] && IsCycle(cycle) && FromCycle(ps[run[0]..], cycle)
    ensures |After(ps).datas| >= After(ps).total <==> After(ps).datas == Concat(cycle)
    ensures |After(ps).datas| >= After(ps).total <==> After(ps).current == |cycle|
  {
    SavedIsPrefix(ps, run, cycle);
    ConcatGrows(cycle, |run|);
    assert cycle[..|cycle|] == cycle;
  }

  /* ---------- two cycles ---------- */

  /** Packets numbered 1, 2, ... are all saved. */
  lemma {:induction false} ConsecutiveAreSaved<T>(ps: seq<RecoveryPacket<T>>)
    requires 0 < |ps| < UINT32_MAX && forall j :: 0 <= j < |ps| ==> ps[j].seqNum == j + 1
    ensures After(ps) == Assembly(|ps|, ps[0].total, Concat(ps))
  {
    var front, p := ps[..|ps| - 1], ps[|ps| - 1];
    if front == [] {
      assert After(front) == Assembly(0, 0, []) && Concat(front) == [];
    } else {
      ConsecutiveAreSaved(front);
      assert After(ps) == Receive(After(front), p);
      assert Accepts(After(front), p) && p.seqNum != 1;
    }
  }

  /** When the snapshot changes after packet `k` was received, the rest of the new cycle is taken for the rest of
      the old one. The callback is called for the mixture exactly when the new rest is long enough, and the
      mixture is the old snapshot exactly when the two rests have the same messages. */
  lemma CyclesCanMix<T>(a: seq<RecoveryPacket<T>>, b: seq<RecoveryPacket<T>>, k: nat)
    requires IsCycle(a) && IsCycle(b) && 1 <= k < |a| && k < |b|
    ensures var saved := After(a[..k] + b[k..]);
            && saved.datas == Concat(a[..k]) + Concat(b[k..])
            && (|saved.datas| >= saved.total <==> |Concat(b[k..])| >= |Concat(a[k..])|)
            && (saved.datas == Concat(a) <==> Concat(b[k..]) == Concat(a[k..]))
  {
    MixtureIsSaved(a, b, k);
    ConcatSplit(a, k);
    SameBehind(Concat(a[..k]), Concat(b[k..]), Concat(a[k..]));
  }

  lemma ConcatSplit<T>(ps: seq<RecoveryPacket<T>>, k: nat)
    requires k <= |ps|
    ensures Concat(ps) == Concat(ps[..k]) + Concat(ps[k..])
  {
    var front, behind := ps[..k], ps[k..];
    assert ps == front + behind;
    ConcatOfBoth(front, behind);
  }

  lemma MixtureIsSaved<T>(a: seq<RecoveryPacket<T>>, b: seq<RecoveryPacket<T>>, k: nat)
    requires IsCycle(a) && IsCycle(b) && 1 <= k < |a| && k < |b|
    ensures After(a[..k] + b[k..]) == Assembly(|b|, a[0].total, Concat(a[..k]) + Concat(b[k..]))
  {
    var ps := a[..k] + b[k..];
    forall j | 0 <= j < |ps|
      ensures ps[j].seqNum == j + 1
    {
      assert ps[j] == if j < k then a[j] else b[j];
    }
    ConsecutiveAreSaved(ps);
    ConcatOfBoth(a[..k], b[k..]);
  }

  lemma SameBehind<T>(a: seq<T>, b: seq<T>, c: seq<T>)
    ensures a + b == a + c <==> b == c
    ensures |a + b| >= |a + c| <==> |b| >= |c|
  {
    if a + b == a + c {
      SameTails(a, b, c);
    }
  }
}
