/** Assembly of the snapshot from the packets of the cyclic recovery feeds. */
module SnapshotAssembly {
  import opened Types

  /** `total` is TotNumReports, FIX tag 911; it is looked at in packet 1 only. */
  datatype RecoveryPacket<T> = RecoveryPacket(seqNum: uint32, total: uint32, messages: seq<T>)

  datatype Assembly<T> = Assembly(current: uint32, total: uint32, datas: seq<T>)

  /** Packet 1 always starts over; any other packet must be the next one. */
  predicate Accepts<T>(a: Assembly<T>, p: RecoveryPacket<T>) {
    p.seqNum == Wrap32(a.current + 1) || p.seqNum == 1
  }

  function Receive<T>(a: Assembly<T>, p: RecoveryPacket<T>): Assembly<T> {
    if !Accepts(a, p) then a
    else if p.seqNum == 1 then Assembly(1, p.total, p.messages)
    else Assembly(p.seqNum, a.total, a.datas + p.messages)
  }

  /** The assembly after a list of received packets. */
  function After<T>(ps: seq<RecoveryPacket<T>>): Assembly<T> {
    if ps == [] then Assembly(0, 0, []) else Receive(After(ps[..|ps| - 1]), ps[|ps| - 1])
  }

  /** `run` picks packets numbered 1, 2, ..., modulo 2^32, in the order in which they were received. */
  ghost predicate Consecutive<T>(ps: seq<RecoveryPacket<T>>, run: seq<nat>) {
    && (forall j :: 0 <= j < |run| ==> run[j] < |ps| && ps[run[j]].seqNum == Wrap32(j + 1))
    && (forall j, k :: 0 <= j < k < |run| ==> run[j] < run[k])
  }

  /** It passes over no packet that it was waiting for. */
  ghost predicate Greedy<T>(ps: seq<RecoveryPacket<T>>, run: seq<nat>) {
    forall j, i :: 0 <= j < |run| && run[j] < i < NextPick(ps, run, j) && i < |ps| ==> ps[i].seqNum != Wrap32(j + 2)
  }

  /** It starts at the last packet 1. */
  ghost predicate Latest<T>(ps: seq<RecoveryPacket<T>>, run: seq<nat>) {
    forall i :: (if run == [] then 0 else run[0] + 1) <= i < |ps| ==> ps[i].seqNum != 1
  }

  ghost predicate IsRun<T>(ps: seq<RecoveryPacket<T>>, run: seq<nat>) {
    Consecutive(ps, run) && Latest(ps, run) && Greedy(ps, run)
  }

  function NextPick<T>(ps: seq<RecoveryPacket<T>>, run: seq<nat>, j: nat): nat {
    if j + 1 < |run| then run[j + 1] else |ps|
  }

  /** The messages of the picked packets, in order. */
  function MessagesOf<T>(ps: seq<RecoveryPacket<T>>, run: seq<nat>): seq<T>
    requires forall j :: 0 <= j < |run| ==> run[j] < |ps|
  {
    if run == [] then [] else MessagesOf(ps, run[..|run| - 1]) + ps[run[|run| - 1]].messages
  }

  lemma {:induction false} MessagesOfFront<T>(ps: seq<RecoveryPacket<T>>, p: RecoveryPacket<T>, run: seq<nat>)
    requires forall j :: 0 <= j < |run| ==> run[j] < |ps|
    ensures MessagesOf(ps + [p], run) == MessagesOf(ps, run)
  {
    if run != [] {
      MessagesOfFront(ps, p, run[..|run| - 1]);
    }
  }

  /** A run that the last packet is not part of is the run without it. */
  lemma RunWithoutLast<T>(ps: seq<RecoveryPacket<T>>, run: seq<nat>)
    requires ps != [] && IsRun(ps, run) && (run == [] || run[|run| - 1] != |ps| - 1)
    ensures IsRun(ps[..|ps| - 1], run)
    ensures ps[|ps| - 1].seqNum != 1 && ps[|ps| - 1].seqNum != Wrap32(|run| + 1)
  {
    var front := ps[..|ps| - 1];
    assert run != [] ==> NextPick(ps, run, |run| - 1) == |ps|;
    forall j, i | 0 <= j < |run| && run[j] < i < NextPick(front, run, j) && i < |front|
      ensures front[i].seqNum != Wrap32(j + 2)
    {
      assert i < NextPick(ps, run, j);
    }
  }

  /** A run of at least two packets that ends with the last one is its front plus that packet. */
  lemma RunWithLast<T>(ps: seq<RecoveryPacket<T>>, run: seq<nat>)
    requires ps != [] && IsRun(ps, run) && |run| > 1 && run[|run| - 1] == |ps| - 1
    ensures IsRun(ps[..|ps| - 1], run[..|run| - 1])
    ensures ps[|ps| - 1].seqNum == Wrap32(|run|) != 1
  {
    var front, shorter := ps[..|ps| - 1], run[..|run| - 1];
    assert run[0] < |ps| - 1;
    forall j, i | 0 <= j < |shorter| && shorter[j] < i < NextPick(front, shorter, j) && i < |front|
      ensures front[i].seqNum != Wrap32(j + 2)
    {
      assert i < NextPick(ps, run, j);
    }
  }

  /** A packet that is neither 1 nor the next of a run of length `k` is dropped; the next one is appended. */
  lemma ReceiveInRun<T>(a: Assembly<T>, p: RecoveryPacket<T>, k: nat)
    requires a.current == Wrap32(k) && p.seqNum != 1
    ensures Receive(a, p) == if p.seqNum == Wrap32(k + 1) then Assembly(p.seqNum, a.total, a.datas + p.messages) else a
  {
  }

  /** Over any received packets, duplicated, lost, restarted or interleaved: what is saved are the messages
      of the run, `current` is its length, and the total is the one its packet 1 declared. */
  lemma {:induction false} AssembledIsRun<T>(ps: seq<RecoveryPacket<T>>, run: seq<nat>)
    requires IsRun(ps, run)
    ensures After(ps) == Assembly(Wrap32(|run|), if run == [] then 0 else ps[run[0]].total, MessagesOf(ps, run))
  {
    if ps != [] {
      var front, p := ps[..|ps| - 1], ps[|ps| - 1];
      assert ps == front + [p];
      if run == [] || run[|run| - 1] != |ps| - 1 {
        RunWithoutLast(ps, run);
        AssembledIsRun(front, run);
        MessagesOfFront(front, p, run);
        ReceiveInRun(After(front), p, |run|);
      } else if |run| == 1 {
        assert MessagesOf(ps, run[..0]) == [];
      } else {
        RunWithLast(ps, run);
        AssembledIsRun(front, run[..|run| - 1]);
        MessagesOfFront(front, p, run[..|run| - 1]);
        ReceiveInRun(After(front), p, |run| - 1);
      }
    }
  }

  /** Every list of packets has a run. */
  lemma {:induction false} RunExists<T>(ps: seq<RecoveryPacket<T>>) returns (run: seq<nat>)
    ensures IsRun(ps, run)
  {
    if ps == [] {
      run := [];
    } else {
      var p, last := ps[|ps| - 1], |ps| - 1;
      var shorter := RunExists(ps[..last]);
      if p.seqNum == 1 {
        run := [last];
      } else if p.seqNum == Wrap32(|shorter| + 1) {
        run := shorter + [last];
        RunTakesNext(ps, shorter);
      } else {
        run := shorter;
        RunSkipsOther(ps, shorter);
      }
    }
  }

  lemma RunTakesNext<T>(ps: seq<RecoveryPacket<T>>, run: seq<nat>)
    requires ps != [] && IsRun(ps[..|ps| - 1], run)
    requires ps[|ps| - 1].seqNum == Wrap32(|run| + 1) != 1
    ensures IsRun(ps, run + [|ps| - 1])
  {
    var front, p := ps[..|ps| - 1], ps[|ps| - 1];
    assert ps == front + [p];
    ConsecutiveTakesNext(front, run, p);
    GreedyTakesNext(front, run, p);
  }

  lemma ConsecutiveTakesNext<T>(ps: seq<RecoveryPacket<T>>, run: seq<nat>, p: RecoveryPacket<T>)
    requires Consecutive(ps, run) && p.seqNum == Wrap32(|run| + 1)
    ensures Consecutive(ps + [p], run + [|ps|])
  {
  }

  lemma GreedyTakesNext<T>(ps: seq<RecoveryPacket<T>>, run: seq<nat>, p: RecoveryPacket<T>)
    requires Consecutive(ps, run) && Greedy(ps, run)
    ensures Greedy(ps + [p], run + [|ps|])
  {
    var all, longer := ps + [p], run + [|ps|];
    forall j, i | 0 <= j < |longer| && longer[j] < i < NextPick(all, longer, j) && i < |all|
      ensures all[i].seqNum != Wrap32(j + 2)
    {
      assert j < |run| && i < NextPick(ps, run, j) && ps[i] == all[i];
    }
  }

  lemma RunSkipsOther<T>(ps: seq<RecoveryPacket<T>>, run: seq<nat>)
    requires ps != [] && IsRun(ps[..|ps| - 1], run)
    requires ps[|ps| - 1].seqNum != 1 && ps[|ps| - 1].seqNum != Wrap32(|run| + 1)
    ensures IsRun(ps, run)
  {
    var front := ps[..|ps| - 1];
    forall j, i | 0 <= j < |run| && run[j] < i < NextPick(ps, run, j) && i < |ps|
      ensures ps[i].seqNum != Wrap32(j + 2)
    {
      assert i < NextPick(front, run, j) || (i == |front| && j == |run| - 1);
      assert i < |front| ==> front[i] == ps[i];
    }
  }

  /** The run of the packets up to some point between two picks. */
  lemma RunPrefix<T>(ps: seq<RecoveryPacket<T>>, run: seq<nat>, k: nat, m: nat)
    requires IsRun(ps, run) && 1 <= k <= |run| && run[k - 1] < m <= NextPick(ps, run, k - 1)
    ensures m <= |ps| && IsRun(ps[..m], run[..k])
  {
    ConsecutivePrefix(ps, run, k, m);
    GreedyPrefix(ps, run, k, m);
    assert forall i :: 0 <= i < m ==> ps[..m][i] == ps[i];
  }

  lemma ConsecutivePrefix<T>(ps: seq<RecoveryPacket<T>>, run: seq<nat>, k: nat, m: nat)
    requires Consecutive(ps, run) && 1 <= k <= |run| && run[k - 1] < m <= |ps|
    ensures Consecutive(ps[..m], run[..k])
  {
    forall j | 0 <= j < k
      ensures run[j] < m && ps[..m][run[j]].seqNum == Wrap32(j + 1)
    {
      assert j < k - 1 ==> run[j] < run[k - 1];
    }
  }

  lemma GreedyPrefix<T>(ps: seq<RecoveryPacket<T>>, run: seq<nat>, k: nat, m: nat)
    requires Greedy(ps, run) && 1 <= k <= |run| && m <= |ps| && m <= NextPick(ps, run, k - 1)
    ensures Greedy(ps[..m], run[..k])
  {
    var front, shorter := ps[..m], run[..k];
    forall j, i | 0 <= j < |shorter| && shorter[j] < i < NextPick(front, shorter, j) && i < |front|
      ensures front[i].seqNum != Wrap32(j + 2)
    {
      assert i < NextPick(ps, run, j) && front[i] == ps[i];
    }
  }

  lemma {:induction false} MessagesOfPrefix<T>(ps: seq<RecoveryPacket<T>>, m: nat, run: seq<nat>)
    requires m <= |ps| && forall j :: 0 <= j < |run| ==> run[j] < m
    ensures MessagesOf(ps[..m], run) == MessagesOf(ps, run)
  {
    if run != [] {
      MessagesOfPrefix(ps, m, run[..|run| - 1]);
    }
  }

  /** What is saved between the `k`-th pick and the next one. */
  lemma AssembledAtPick<T>(ps: seq<RecoveryPacket<T>>, run: seq<nat>, k: nat, m: nat)
    requires IsRun(ps, run) && 1 <= k <= |run| && run[k - 1] < m <= NextPick(ps, run, k - 1)
    ensures m <= |ps| && After(ps[..m]) == Assembly(Wrap32(k), ps[run[0]].total, MessagesOf(ps, run[..k]))
  {
    RunPrefix(ps, run, k, m);
    AssembledIsRun(ps[..m], run[..k]);
    MessagesOfPrefix(ps, m, run[..k]);
  }

  class RecoverySaver<T> {
    var currentSequence: uint32
    var totalNumber: uint32
    var recoveryDatas: seq<T>
    /** Every packet that arrived so far. */
    ghost var received: seq<RecoveryPacket<T>>

    ghost predicate Valid()
      reads this
    {
      Assembly(currentSequence, totalNumber, recoveryDatas) == After(received)
    }

    constructor ()
      ensures Valid() && received == []
    {
      currentSequence, totalNumber, recoveryDatas := 0, 0, [];
      received := [];
    }

    /** The result says whether the callback is called. */
    method ProcessRecoveryPacket(p: RecoveryPacket<T>) returns (called: bool)
      requires Valid()
      modifies this
      ensures Valid() && received == old(received) + [p]
      ensures called <==> Accepts(After(old(received)), p) && |recoveryDatas| >= totalNumber
    {
      received := received + [p];
      assert received[..|received| - 1] == old(received);
      if p.seqNum != Wrap32(currentSequence + 1) && p.seqNum != 1 {
        return false;
      }
      called := SavePacket(p);
    }

    method SavePacket(p: RecoveryPacket<T>) returns (isAllSaved: bool)
      modifies `currentSequence, `totalNumber, `recoveryDatas
      ensures currentSequence == p.seqNum
      ensures totalNumber == if p.seqNum == 1 then p.total else old(totalNumber)
      ensures recoveryDatas == (if p.seqNum == 1 then [] else old(recoveryDatas)) + p.messages
      ensures isAllSaved <==> |recoveryDatas| >= totalNumber
    {
      if p.seqNum == 1 {
        recoveryDatas := [];
        totalNumber := p.total;
      }
      recoveryDatas := recoveryDatas + p.messages;
      currentSequence := p.seqNum;
      return |recoveryDatas| >= totalNumber;
    }

    /** What is saved, seen from the packets that arrived. */
    lemma SavedIsRun(run: seq<nat>)
      requires Valid() && IsRun(received, run)
      ensures recoveryDatas == MessagesOf(received, run) && currentSequence == Wrap32(|run|)
      ensures run != [] ==> totalNumber == received[run[0]].total
    {
      AssembledIsRun(received, run);
    }
  }
}
