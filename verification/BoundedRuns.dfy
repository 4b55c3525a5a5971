/** Every state in which the depth-capped book stops following the unlimited one is reached by some run. */
module BoundedRuns {
  import opened Types
  import opened BookLevels
  import opened BookRuns
  import opened BoundedBook

  /** Operations on the bid side of one security, as increment entries. */
  predicate Sendable(ops: seq<LevelOp>) {
    forall i :: 0 <= i < |ops| ==> ops[i].level <= 0xFF
  }

  function Entry(op: LevelOp, id: uint32): Event
    requires op.level <= 0xFF
  {
    OnBook(Book(1, Increment, id, Bid, op.action, op.level, op.row.numberOfOrders, op.row.entrySize, op.row.entryPx))
  }

  function Entries(ops: seq<LevelOp>, id: uint32): seq<Event>
    requires Sendable(ops)
  {
    seq(|ops|, i requires 0 <= i < |ops| => Entry(ops[i], id))
  }

  function Capped(depth: nat, s: Side, ops: seq<LevelOp>): Side {
    if ops == [] then s else Apply(depth, Capped(depth, s, ops[..|ops| - 1]), ops[|ops| - 1])
  }

  function Uncapped(u: Side, ops: seq<LevelOp>): Side {
    if ops == [] then u else Unlimited(Uncapped(u, ops[..|ops| - 1]), ops[|ops| - 1])
  }

  function WithBid(bs: Books, id: uint32, s: Side): Books
    requires id in bs
  {
    bs[id := bs[id].(bid := s)]
  }

  lemma EntrySteps(bs: Books, id: uint32, s: Side, op: LevelOp)
    requires id in bs && op.level <= 0xFF
    ensures EventStep(WithBid(bs, id, s), Entry(op, id)) == WithBid(bs, id, Apply(bs[id].marketDepth, s, op))
    ensures UnlimitedStep(WithBid(bs, id, s), Entry(op, id)) == WithBid(bs, id, Unlimited(s, op))
  {
    assert ToOp(Entry(op, id).book) == op;
  }

  /** The operations on side values are the events on books. */
  lemma {:induction false} RunsAreSides(bs: Books, ops: seq<LevelOp>, id: uint32)
    requires id in bs && Sendable(ops)
    ensures RunEvents(bs, Entries(ops, id)) == WithBid(bs, id, Capped(bs[id].marketDepth, bs[id].bid, ops))
    ensures UnlimitedRun(bs, Entries(ops, id)) == WithBid(bs, id, Uncapped(bs[id].bid, ops))
  {
    if ops == [] {
      assert bs[id := bs[id]] == bs;
    } else {
      var front, op := ops[..|ops| - 1], ops[|ops| - 1];
      RunsAreSides(bs, front, id);
      EntriesMore(front, op, id);
      assert front + [op] == ops;
      RunMore(bs, Entries(front, id), Entry(op, id));
      EntrySteps(bs, id, Capped(bs[id].marketDepth, bs[id].bid, front), op);
      EntrySteps(bs, id, Uncapped(bs[id].bid, front), op);
    }
  }

  lemma EntriesMore(ops: seq<LevelOp>, op: LevelOp, id: uint32)
    requires Sendable(ops) && op.level <= 0xFF
    ensures Sendable(ops + [op]) && Entries(ops + [op], id) == Entries(ops, id) + [Entry(op, id)]
  {
  }

  lemma RunMore(bs: Books, es: seq<Event>, e: Event)
    ensures RunEvents(bs, es + [e]) == EventStep(RunEvents(bs, es), e)
    ensures UnlimitedRun(bs, es + [e]) == UnlimitedStep(UnlimitedRun(bs, es), e)
  {
    assert (es + [e])[..|es|] == es;
  }

  /** New at level 1 and Delete always meet the guard. */
  predicate Harmless(op: LevelOp) {
    op.level <= 0xFF && ((op.action == New && op.level == 1) || op.action == Delete)
  }

  predicate AllHarmless(ops: seq<LevelOp>) {
    forall i :: 0 <= i < |ops| ==> Harmless(ops[i])
  }

  lemma {:induction false} HarmlessKeepsUp(bs: Books, ops: seq<LevelOp>, id: uint32)
    requires id in bs && AllHarmless(ops)
    ensures Sendable(ops) && RunKeepsUp(bs, Entries(ops, id))
  {
    if ops != [] {
      var front, op, es := ops[..|ops| - 1], ops[|ops| - 1], Entries(ops, id);
      HarmlessKeepsUp(bs, front, id);
      assert es[..|es| - 1] == Entries(front, id) && es[|es| - 1] == Entry(op, id);
      assert Harmless(op) && ToOp(Entry(op, id).book) == op;
    }
  }

  /** New at level 1 for each row, the last one first. */
  function Push(w: Side): seq<LevelOp> {
    if w == [] then [] else Push(w[1..]) + [LevelOp(New, 1, w[0])]
  }

  lemma {:induction false} PushBuilds(depth: nat, w: Side)
    requires depth >= 1
    ensures Capped(depth, [], Push(w)) == w[..Min(depth, |w|)]
    ensures Uncapped([], Push(w)) == w
    ensures AllHarmless(Push(w))
  {
    if w != [] {
      var later, op := w[1..], LevelOp(New, 1, w[0]);
      PushBuilds(depth, later);
      CappedMore(depth, [], [], Push(later), op);
      PushOne(depth, later, w[0]);
      assert [w[0]] + later == w;
    }
  }

  lemma CappedMore(depth: nat, s: Side, u: Side, ops: seq<LevelOp>, op: LevelOp)
    ensures Capped(depth, s, ops + [op]) == Apply(depth, Capped(depth, s, ops), op)
    ensures Uncapped(u, ops + [op]) == Unlimited(Uncapped(u, ops), op)
  {
    assert (ops + [op])[..|ops|] == ops;
  }

  lemma PushOne(depth: nat, w: Side, row: BookPrice)
    requires depth >= 1
    ensures Unlimited(w, LevelOp(New, 1, row)) == [row] + w
    ensures Apply(depth, w[..Min(depth, |w|)], LevelOp(New, 1, row)) == ([row] + w)[..Min(depth, |w| + 1)]
  {
  }

  /** `count` deletions at one level. */
  function Deletes(level: nat, count: nat): seq<LevelOp> {
    seq(count, _ => LevelOp(Delete, level, BLANK))
  }

  const ROW := BookPrice(1, 1, (1, 0))

  function Rows(count: nat): Side {
    seq(count, _ => ROW)
  }

  /** Deleting right behind `s` eats up the rows behind it. */
  lemma {:induction false} DeletesEat(depth: nat, s: Side, level: nat, count: nat, rows: nat, all: nat)
    requires level == |s| + 1 && |s| + rows <= depth && count <= rows && count <= all
    ensures Capped(depth, s + Rows(rows), Deletes(level, count)) == s + Rows(rows - count)
    ensures Uncapped(s + Rows(all), Deletes(level, count)) == s + Rows(all - count)
  {
    if count > 0 {
      var op, fewer := LevelOp(Delete, level, BLANK), count - 1;
      DeletesEat(depth, s, level, fewer, rows, all);
      assert Deletes(level, count) == Deletes(level, fewer) + [op];
      CappedMore(depth, s + Rows(rows), s + Rows(all), Deletes(level, fewer), op);
      EatOne(depth, s, level, rows - count, rows - fewer);
      EatOne(Room(s + Rows(all - fewer), op), s, level, all - count, all - fewer);
    }
  }

  lemma EatOne(depth: nat, s: Side, level: nat, left: nat, rows: nat)
    requires level == |s| + 1 && rows == left + 1 && |s| + rows <= depth
    ensures Apply(depth, s + Rows(rows), LevelOp(Delete, level, BLANK)) == s + Rows(left)
  {
  }

  lemma {:induction false} CappedConcat(depth: nat, s: Side, u: Side, a: seq<LevelOp>, b: seq<LevelOp>)
    ensures Capped(depth, s, a + b) == Capped(depth, Capped(depth, s, a), b)
    ensures Uncapped(u, a + b) == Uncapped(Uncapped(u, a), b)
  {
    if b == [] {
      assert a + b == a;
    } else {
      assert (a + b)[..|a + b| - 1] == a + b[..|b| - 1];
      CappedConcat(depth, s, u, a, b[..|b| - 1]);
    }
  }

  /** Operations that lead from empty sides to `s` and to `s` with one more row behind it. */
  function Hide(depth: nat, s: Side): seq<LevelOp>
    requires |s| <= depth
  {
    Push(s + Rows(depth + 1 - |s|)) + Deletes(|s| + 1, depth - |s|)
  }

  lemma BothHarmless(a: seq<LevelOp>, b: seq<LevelOp>)
    requires AllHarmless(a) && AllHarmless(b)
    ensures AllHarmless(a + b)
  {
  }

  lemma HideLeads(depth: nat, s: Side)
    requires |s| < depth <= 0xFF
    ensures Capped(depth, [], Hide(depth, s)) == s && Uncapped([], Hide(depth, s)) == s + [ROW]
    ensures AllHarmless(Hide(depth, s))
  {
    var count, all := depth - |s|, depth - |s| + 1;
    var w := s + Rows(all);
    PushBuilds(depth, w);
    RowsCut(s, count, all);
    CappedConcat(depth, [], [], Push(w), Deletes(|s| + 1, count));
    DeletesEat(depth, s, |s| + 1, count, count, all);
    RowsFew(s);
    BothHarmless(Push(w), Deletes(|s| + 1, count));
  }

  lemma RowsCut(s: Side, count: nat, all: nat)
    requires count <= all
    ensures (s + Rows(all))[..|s| + count] == s + Rows(count)
  {
  }

  lemma RowsFew(s: Side)
    ensures s + Rows(0) == s && Rows(1) == [ROW]
  {
  }

  /** Harmless operations that lead to `s` and to an unlimited side that `op` shows to be another one. */
  lemma Reaches(depth: nat, s: Side, op: LevelOp) returns (ops: seq<LevelOp>)
    requires |s| <= depth <= 0xFF && (op.action == New || op.action == DeleteFrom) && !KeepsUp(depth, s, op)
    ensures AllHarmless(ops) && Capped(depth, [], ops) == s
    ensures !(Apply(depth, s, op) <= Unlimited(Uncapped([], ops), op))
  {
    if op.action == New {
      ops := Hide(depth, s);
      HideLeads(depth, s);
      assert Apply(depth, s, op)[|s|] == BLANK && Unlimited(s + [ROW], op)[|s|] == ROW;
    } else {
      ops := Push(s);
      PushBuilds(depth, s);
      assert s[..|s|] == s;
      assert Apply(depth, s, op) == s && Unlimited(s, op) == [];
    }
  }

  /** The guard is needed wherever it fails: from an empty book, some run whose events all meet the guard leads
      to any side within the depth and to an unlimited side of which it is a prefix, such that the operation
      that does not meet the guard ends this. */
  lemma UnguardedFails(bs: Books, id: uint32, s: Side, op: LevelOp) returns (es: seq<Event>)
    requires AllWithinDepth(bs) && id in bs && bs[id].bid == []
    requires |s| <= bs[id].marketDepth && op.level <= 0xFF
    requires (op.action == New || op.action == DeleteFrom) && !KeepsUp(bs[id].marketDepth, s, op)
    ensures RunKeepsUp(bs, es) && Simulates(RunEvents(bs, es), UnlimitedRun(bs, es))
    ensures id in RunEvents(bs, es) && RunEvents(bs, es)[id].bid == s
    ensures !Simulates(RunEvents(bs, es + [Entry(op, id)]), UnlimitedRun(bs, es + [Entry(op, id)]))
  {
    var ops := Reaches(bs[id].marketDepth, s, op);
    HarmlessKeepsUp(bs, ops, id);
    es := Entries(ops, id);
    BoundedSimulatesUnlimited(bs, es);
    RunsAreSides(bs, ops, id);
    OneMoreEntry(bs, es, op, id);
    assert !IsPrefixOf(RunEvents(bs, es + [Entry(op, id)])[id], UnlimitedRun(bs, es + [Entry(op, id)])[id]);
  }

  lemma OneMoreEntry(bs: Books, es: seq<Event>, op: LevelOp, id: uint32)
    requires op.level <= 0xFF && id in RunEvents(bs, es) && id in UnlimitedRun(bs, es)
    ensures var v, u := RunEvents(bs, es)[id], UnlimitedRun(bs, es)[id];
            && id in RunEvents(bs, es + [Entry(op, id)]) && id in UnlimitedRun(bs, es + [Entry(op, id)])
            && RunEvents(bs, es + [Entry(op, id)])[id].bid == Apply(v.marketDepth, v.bid, op)
            && UnlimitedRun(bs, es + [Entry(op, id)])[id].bid == Unlimited(u.bid, op)
  {
    assert (es + [Entry(op, id)])[..|es|] == es && ToOp(Entry(op, id).book) == op;
  }
}
