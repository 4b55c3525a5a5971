/** Cutting the TCP replay stream into packets. */
module Replayer {
  import opened Types
  import opened Sequences

  type uint16 = x: int | 0 <= x <= 0xFFFF

  type Bytes = seq<uint8>

  const HEARTBEAT: uint16 := 12
  const LOGOUT: uint16 := 16

  /** Where the template id is inside a packet: MsgSeqNum, SendingTime, MsgSize and BlockLength come first. */
  const TEMPLATE_AT: nat := 4 + 8 + 2 + 2

  function U16At(b: Bytes, i: nat): uint16
    requires i + 2 <= |b|
  {
    var low: int, high: int := b[i], b[i + 1];
    low + 0x100 * high
  }

  /** Four bytes are read; the upper two are dropped when the value is returned in 16 bits. */
  function TemplateAt(b: Bytes, i: nat): uint16
    requires i + TEMPLATE_AT + 4 <= |b|
  {
    U16At(b, i + TEMPLATE_AT)
  }

  /** Where the next frame starts. */
  function NextFrame(b: Bytes, at: nat): (next: nat)
    requires at + 2 <= |b|
    ensures next >= at + 2
  {
    at + 2 + U16At(b, at)
  }

  /** The next frame makes the code read behind the buffer: its header is cut off, or it is handed over and is
      cut off. The source takes for granted that this does not happen. */
  predicate Overruns(b: Bytes, at: nat)
    requires at < |b|
  {
    || at + 2 + TEMPLATE_AT + 4 > |b|
    || (TemplateAt(b, at + 2) != LOGOUT && TemplateAt(b, at + 2) != HEARTBEAT && NextFrame(b, at) > |b|)
  }

  /** How the cutting of a buffer ends: at its end, at a logout, or where the code would read behind it. */
  datatype End = Done | Logout | Overrun

  /** What is handed over, how many frames were passed, and how it ends. */
  datatype Cut = Cut(handed: seq<Bytes>, passed: nat, end: End)

  /** Passing some frames before the others. */
  function Passing(c: Cut, front: seq<Bytes>, count: nat): Cut {
    Cut(front + c.handed, count + c.passed, c.end)
  }

  /** What one frame has to hand over. */
  function Payload(b: Bytes, at: nat): seq<Bytes>
    requires at < |b| && !Overruns(b, at) && TemplateAt(b, at + 2) != LOGOUT
  {
    if TemplateAt(b, at + 2) == HEARTBEAT then [] else [b[at + 2..NextFrame(b, at)]]
  }

  function Deframe(b: Bytes, at: nat): Cut
    decreases |b| - at
  {
    if at >= |b| then Cut([], 0, Done)
    else if Overruns(b, at) then Cut([], 0, Overrun)
    else if TemplateAt(b, at + 2) == LOGOUT then Cut([], 0, Logout)
    else Passing(Deframe(b, NextFrame(b, at)), Payload(b, at), 1)
  }

  /* ---------- the sender's side ---------- */

  /** A packet that has a template id and whose length fits the prefix. */
  predicate Sendable(p: Bytes) {
    TEMPLATE_AT + 4 <= |p| <= 0xFFFF
  }

  predicate AllSendable(ps: seq<Bytes>) {
    forall i :: 0 <= i < |ps| ==> Sendable(ps[i])
  }

  function Framed(p: Bytes): Bytes
    requires Sendable(p)
  {
    [|p| % 0x100, |p| / 0x100] + p
  }

  function FrameAll(ps: seq<Bytes>): Bytes
    requires AllSendable(ps)
  {
    if ps == [] then [] else Framed(ps[0]) + FrameAll(ps[1..])
  }

  function Template(p: Bytes): uint16
    requires Sendable(p)
  {
    U16At(p, TEMPLATE_AT)
  }

  /** The position of the first logout, or the number of packets. */
  function FirstLogout(ps: seq<Bytes>): (n: nat)
    requires AllSendable(ps)
    ensures n <= |ps| && (n < |ps| ==> Template(ps[n]) == LOGOUT)
    ensures forall i :: 0 <= i < n ==> Template(ps[i]) != LOGOUT
  {
    if ps == [] || Template(ps[0]) == LOGOUT then 0 else 1 + FirstLogout(ps[1..])
  }

  /** The packets that are no heartbeats, in order. */
  function WithoutHeartbeats(ps: seq<Bytes>): seq<Bytes>
    requires AllSendable(ps)
  {
    if ps == [] then []
    else (if Template(ps[0]) == HEARTBEAT then [] else [ps[0]]) + WithoutHeartbeats(ps[1..])
  }

  /** The buffer shows the frame of `p` to the loop. */
  ghost predicate Shows(b: Bytes, at: nat, p: Bytes)
    requires Sendable(p)
  {
    && at + 2 + |p| <= |b| && b[at + 2..at + 2 + |p|] == p
    && U16At(b, at) == |p| && TemplateAt(b, at + 2) == Template(p)
  }

  /** What a frame looks like to the loop. */
  lemma HeadOfFrame(b: Bytes, at: nat, p: Bytes, rest: Bytes)
    requires at <= |b| && Sendable(p) && b[at..] == Framed(p) + rest
    ensures Shows(b, at, p) && b[at + 2 + |p|..] == rest
  {
    PieceOf(b, at, [|p| % 0x100, |p| / 0x100], p + rest);
    PieceOf(b, at + 2, p, rest);
    assert b[at + 2 + TEMPLATE_AT] == p[TEMPLATE_AT] && b[at + 2 + TEMPLATE_AT + 1] == p[TEMPLATE_AT + 1];
  }

  /** The first piece of what is left of a buffer at `at`, and what is left after it. */
  lemma PieceOf(b: Bytes, at: nat, piece: Bytes, rest: Bytes)
    requires at <= |b| && b[at..] == piece + rest
    ensures at + |piece| <= |b| && b[at + |piece|..] == rest
    ensures forall k :: 0 <= k < |piece| ==> b[at + k] == piece[k]
    ensures b[at..at + |piece|] == piece
  {
    var line := b[at..];
    assert forall k :: 0 <= k < |line| ==> b[at + k] == line[k];
    assert forall k :: 0 <= k < |rest| ==> line[|piece| + k] == rest[k];
  }

  /** The packets in front of what `c` cuts, one by one. */
  function Sending(ps: seq<Bytes>, c: Cut): Cut
    requires AllSendable(ps)
  {
    if ps == [] then c
    else if Template(ps[0]) == LOGOUT then Cut([], 0, Logout)
    else Passing(Sending(ps[1..], c), if Template(ps[0]) == HEARTBEAT then [] else [ps[0]], 1)
  }

  /** What should come out of sent packets in front of `c`: those before the first logout that are no heartbeats,
      and without a logout also what comes out of `c`. */
  function Wanted(ps: seq<Bytes>, c: Cut): Cut
    requires AllSendable(ps)
  {
    var n := FirstLogout(ps);
    if n < |ps| then Cut(WithoutHeartbeats(ps[..n]), n, Logout) else Passing(c, WithoutHeartbeats(ps), n)
  }

  lemma {:induction false} SendingIsWanted(ps: seq<Bytes>, c: Cut)
    requires AllSendable(ps)
    ensures Sending(ps, c) == Wanted(ps, c)
  {
    if ps == [] {
      assert [] + c.handed == c.handed;
    } else if Template(ps[0]) == LOGOUT {
      assert ps[..0] == [];
    } else {
      var later, n := ps[1..], FirstLogout(ps);
      var first := if Template(ps[0]) == HEARTBEAT then [] else [ps[0]];
      SendingIsWanted(later, c);
      assert ps[..n][1..] == later[..n - 1];
      assert first + (WithoutHeartbeats(later) + c.handed) == (first + WithoutHeartbeats(later)) + c.handed;
    }
  }

  /** From `at` on, the buffer holds the frames of `ps` up to the first logout, or up to `next`. */
  ghost predicate FramesAt(b: Bytes, at: nat, ps: seq<Bytes>, next: nat)
    requires AllSendable(ps)
    decreases |ps|
  {
    if ps == [] then at == next
    else Shows(b, at, ps[0]) && (Template(ps[0]) != LOGOUT ==> FramesAt(b, at + 2 + |ps[0]|, ps[1..], next))
  }

  /** Behind the first frame come the frames of the other packets. */
  lemma FirstFrame(b: Bytes, at: nat, ps: seq<Bytes>, tail: Bytes)
    requires AllSendable(ps) && ps != [] && at <= |b| && b[at..] == FrameAll(ps) + tail
    ensures Shows(b, at, ps[0]) && b[at + 2 + |ps[0]|..] == FrameAll(ps[1..]) + tail
    ensures |FrameAll(ps)| == 2 + |ps[0]| + |FrameAll(ps[1..])|
  {
    FrameAllHead(ps, tail);
    HeadOfFrame(b, at, ps[0], FrameAll(ps[1..]) + tail);
  }

  lemma {:induction false} FramesAreAt(b: Bytes, at: nat, ps: seq<Bytes>, tail: Bytes, next: nat)
    requires AllSendable(ps) && at <= |b| && b[at..] == FrameAll(ps) + tail && next == at + |FrameAll(ps)|
    ensures FramesAt(b, at, ps, next)
    decreases |ps|
  {
    if ps != [] {
      FirstFrame(b, at, ps, tail);
      FramesAreAt(b, at + 2 + |ps[0]|, ps[1..], tail, next);
    }
  }

  lemma {:induction false} DeframeFrames(b: Bytes, at: nat, ps: seq<Bytes>, next: nat)
    requires AllSendable(ps) && FramesAt(b, at, ps, next)
    ensures Deframe(b, at) == Sending(ps, Deframe(b, next))
    decreases |ps|
  {
    if ps != [] {
      var p, later := ps[0], ps[1..];
      DeframeFirst(b, at, p);
      SendingFirst(ps, Deframe(b, next));
      if Template(p) != LOGOUT {
        DeframeFrames(b, at + 2 + |p|, later, next);
      }
    }
  }

  lemma SendingFirst(ps: seq<Bytes>, c: Cut)
    requires AllSendable(ps) && ps != []
    ensures Sending(ps, c) == if Template(ps[0]) == LOGOUT then Cut([], 0, Logout)
                              else Passing(Sending(ps[1..], c), if Template(ps[0]) == HEARTBEAT then [] else [ps[0]], 1)
  {
  }

  lemma DeframeFirst(b: Bytes, at: nat, p: Bytes)
    requires Sendable(p) && Shows(b, at, p)
    ensures Deframe(b, at) == if Template(p) == LOGOUT then Cut([], 0, Logout)
                              else Passing(Deframe(b, at + 2 + |p|), if Template(p) == HEARTBEAT then [] else [p], 1)
  {
  }

  lemma FrameAllHead(ps: seq<Bytes>, tail: Bytes)
    requires AllSendable(ps) && ps != []
    ensures FrameAll(ps) + tail == Framed(ps[0]) + (FrameAll(ps[1..]) + tail)
    ensures |FrameAll(ps)| == 2 + |ps[0]| + |FrameAll(ps[1..])|
  {
    var first, later := Framed(ps[0]), FrameAll(ps[1..]);
    assert FrameAll(ps) == first + later;
    Assoc(first, later, tail);
  }

  /** Cutting inverts framing: of any sent packets, exactly those before the first logout that are no
      heartbeats are handed over, in order; what follows a logout is not looked at. */
  lemma DeframeInvertsFrame(ps: seq<Bytes>, tail: Bytes)
    requires AllSendable(ps) && (tail == [] || FirstLogout(ps) < |ps|)
    ensures Deframe(FrameAll(ps) + tail, 0) == Wanted(ps, Cut([], 0, Done))
  {
    var b, next := FrameAll(ps) + tail, |FrameAll(ps)|;
    assert b[0..] == b;
    FramesAreAt(b, 0, ps, tail, next);
    DeframeFrames(b, 0, ps, next);
    SendingIsWanted(ps, Deframe(b, next));
  }

  /** One packet in front of anything, byte by byte: two bytes of length, low byte first, and the packet, whose bytes
      16 and 17 tell what it is. 12 is a heartbeat, which is passed, 16 a logout, which ends everything, and any other
      packet is handed over without its length. */
  lemma OnePacket(p: Bytes, rest: Bytes)
    requires 20 <= |p| <= 0xFFFF
    ensures var frame := [|p| % 0x100, |p| / 0x100] + p;
            var c, d := Deframe(frame + rest, 0), Deframe(frame + rest, |frame|);
            var isHeartbeat, isLogout := p[16] == 12 && p[17] == 0, p[16] == 16 && p[17] == 0;
            if isLogout then c == Cut([], 0, Logout)
            else c == Cut((if isHeartbeat then [] else [p]) + d.handed, 1 + d.passed, d.end)
  {
    var b := Framed(p) + rest;
    assert b[0..] == b;
    HeadOfFrame(b, 0, p, rest);
    DeframeFirst(b, 0, p);
    TemplateOf(p);
    assert [p] + Deframe(b, 2 + |p|).handed == Passing(Deframe(b, 2 + |p|), [p], 1).handed;
  }

  lemma TemplateOf(p: Bytes)
    requires Sendable(p)
    ensures Template(p) == HEARTBEAT <==> p[16] == 12 && p[17] == 0
    ensures Template(p) == LOGOUT <==> p[16] == 16 && p[17] == 0
  {
  }

  /** A buffer that ends inside a frame, as a connection may deliver it: everything before that frame is handed
      over, and then the code reads behind the buffer exactly when the header of the frame is not complete or
      the frame is neither a heartbeat nor a logout. */
  lemma CutFrameOverruns(ps: seq<Bytes>, p: Bytes, k: nat)
    requires AllSendable(ps) && FirstLogout(ps) == |ps| && Sendable(p) && 0 < k < |Framed(p)|
    ensures var c := Deframe(FrameAll(ps) + Framed(p)[..k], 0);
            && c.handed == WithoutHeartbeats(ps)
            && (c.end.Overrun? <==> k < 2 + TEMPLATE_AT + 4 || (Template(p) != HEARTBEAT && Template(p) != LOGOUT))
  {
    var part := Framed(p)[..k];
    var b, next := FrameAll(ps) + part, |FrameAll(ps)|;
    assert b[0..] == b && b[next..] == part;
    FramesAreAt(b, 0, ps, part, next);
    DeframeFrames(b, 0, ps, next);
    SendingIsWanted(ps, Deframe(b, next));
    CutFrame(b, next, p, k);
    assert WithoutHeartbeats(ps) + [] == WithoutHeartbeats(ps);
  }

  lemma CutFrame(b: Bytes, at: nat, p: Bytes, k: nat)
    requires Sendable(p) && 0 < k < |Framed(p)| && at <= |b| && b[at..] == Framed(p)[..k]
    ensures Deframe(b, at).handed == []
    ensures Deframe(b, at).end.Overrun?
            <==> k < 2 + TEMPLATE_AT + 4 || (Template(p) != HEARTBEAT && Template(p) != LOGOUT)
  {
    assert at + k == |b|;
    if k >= 2 + TEMPLATE_AT + 4 {
      PartOfFrame(b, at, p, k);
    }
  }

  /** The header of a frame that is cut off behind it. */
  lemma PartOfFrame(b: Bytes, at: nat, p: Bytes, k: nat)
    requires Sendable(p) && 2 + TEMPLATE_AT + 4 <= k < |Framed(p)| && at <= |b| && b[at..] == Framed(p)[..k]
    ensures at + k == |b| && U16At(b, at) == |p| && TemplateAt(b, at + 2) == Template(p)
    ensures NextFrame(b, at) > |b|
  {
    var line := b[at..];
    assert |line| == k;
    assert line[0] == b[at] && line[1] == b[at + 1];
    assert b[at + 2 + TEMPLATE_AT] == line[2 + TEMPLATE_AT] == p[TEMPLATE_AT];
    assert b[at + 2 + TEMPLATE_AT + 1] == line[2 + TEMPLATE_AT + 1] == p[TEMPLATE_AT + 1];
  }

  class DatReplayer {
    /** What the processor was given, how often another receive was asked for, and whether the connection
        was stopped. */
    var handed: seq<Bytes>
    var receives: nat
    var stopped: bool

    constructor ()
      ensures handed == [] && receives == 0 && !stopped
    {
      handed, receives, stopped := [], 0, false;
    }

    /** Picks packet after packet out of the received bytes. The remaining length falls by at least two in
        every round. `Overrun` stands for whatever the code does once it reads behind the buffer. */
    method OnRecoveryData(buffer: Bytes) returns (end: End)
      modifies this
      ensures Cut(handed, receives, end) == Passing(Deframe(buffer, 0), old(handed), old(receives))
      ensures stopped <==> old(stopped) || end == Logout
    {
      var start := 0;
      ghost var left, all := Deframe(buffer, 0), Passing(Deframe(buffer, 0), handed, receives);
      while start < |buffer|
        invariant stopped == old(stopped)
        invariant left == Deframe(buffer, start) && Passing(left, handed, receives) == all
        decreases |buffer| - start
      {
        if Overruns(buffer, start) {
          PassNone(handed, receives, Overrun);
          return Overrun;
        }
        var packetLength := U16At(buffer, start);
        var templateId := TemplateAt(buffer, start + 2);
        if templateId == LOGOUT {
          PassNone(handed, receives, Logout);
          stopped := true;
          return Logout;
        }
        ghost var payload, next := Payload(buffer, start), NextFrame(buffer, start);
        left := Deframe(buffer, next);
        assert Passing(left, handed + payload, receives + 1) == all by {
          PassMore(left, payload, handed, receives);
        }
        if templateId != HEARTBEAT {
          handed := handed + [buffer[start + 2..start + 2 + packetLength]];
        } else {
          assert handed + payload == handed;
        }
        receives := receives + 1;
        start := start + packetLength + 2;
        assert start == next;
      }
      PassNone(handed, receives, Done);
      return Done;
    }
  }

  lemma PassNone(front: seq<Bytes>, count: nat, end: End)
    ensures Passing(Cut([], 0, end), front, count) == Cut(front, count, end)
  {
  }

  /** Passing one more frame. */
  lemma PassMore(c: Cut, payload: seq<Bytes>, front: seq<Bytes>, count: nat)
    ensures Passing(Passing(c, payload, 1), front, count) == Passing(c, front + payload, count + 1)
  {
    assert front + (payload + c.handed) == (front + payload) + c.handed;
  }
}
