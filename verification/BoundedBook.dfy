/** The depth-capped book against a book that never forgets a row. */
module BoundedBook {
  import opened Types
  import opened BookLevels
  import opened BookRuns

  /** A depth that neither rejects the operation for its level nor cuts its result. */
  function Room(u: Side, op: LevelOp): nat {
    |u| + 1 + op.level
  }

  /** The operation on a side without depth. */
  function Unlimited(u: Side, op: LevelOp): Side {
    Apply(Room(u, op), u, op)
  }

  /** Where the capped side keeps up with the unlimited one: New must not need blank padding, and
      DeleteFrom must not be rejected while there is something to delete. */
  predicate KeepsUp(depth: nat, s: Side, op: LevelOp) {
    match op.action
    case New => op.level <= |s| + 1 || op.level > depth
    case DeleteFrom => op.level <= depth || s == []
    case _ => true
  }

  /** Whatever unlimited side `s` is a prefix of, it is a prefix again afterwards. */
  ghost predicate StaysPrefix(depth: nat, s: Side, op: LevelOp) {
    forall u: Side :: s <= u ==> Apply(depth, s, op) <= Unlimited(u, op)
  }

  lemma KeepsUpStaysPrefix(depth: nat, s: Side, u: Side, op: LevelOp)
    requires |s| <= depth && s <= u && KeepsUp(depth, s, op)
    ensures Apply(depth, s, op) <= Unlimited(u, op)
  {
    var s', u' := Apply(depth, s, op), Unlimited(u, op);
    assert |s'| <= |u'|;
    forall i | 0 <= i < |s'|
      ensures s'[i] == u'[i]
    {
      assert forall j :: 0 <= j < |s| ==> s[j] == u[j];
    }
  }

  /** A New that pads loses the rows that were pushed past the depth before. */
  lemma PaddingLosesRows(depth: nat, s: Side, op: LevelOp)
    requires |s| <= depth && op.action == New && !KeepsUp(depth, s, op)
    ensures !StaysPrefix(depth, s, op)
  {
    var u := s + [BookPrice(1, 1, (1, 0))];
    var s', u' := Apply(depth, s, op), Unlimited(u, op);
    assert s'[|s|] == BLANK && u'[|s|] == BookPrice(1, 1, (1, 0));
    assert s <= u;
    assert !(s' <= u');
  }

  /** A rejected DeleteFrom keeps rows that the unlimited side deletes. */
  lemma RejectedDeleteKeepsRows(depth: nat, s: Side, op: LevelOp)
    requires |s| <= depth && op.action == DeleteFrom && !KeepsUp(depth, s, op)
    ensures !StaysPrefix(depth, s, op)
  {
    assert s <= s;
    assert Apply(depth, s, op) == s && Unlimited(s, op) == [];
  }

  /** The guard is exact: a caller that knows only the capped side can rely on the prefix relation after
      the operation if and only if the guard holds. */
  lemma GuardIsExact(depth: nat, s: Side, op: LevelOp)
    requires |s| <= depth
    ensures StaysPrefix(depth, s, op) <==> KeepsUp(depth, s, op)
  {
    if KeepsUp(depth, s, op) {
      forall u: Side | s <= u
        ensures Apply(depth, s, op) <= Unlimited(u, op)
      {
        KeepsUpStaysPrefix(depth, s, u, op);
      }
    } else if op.action == New {
      PaddingLosesRows(depth, s, op);
    } else {
      RejectedDeleteKeepsRows(depth, s, op);
    }
  }

  /* ---------- all books ---------- */

  /** The effect of an event on books that keep every row: depths are recorded but cut nothing. */
  function UnlimitedStep(us: Books, e: Event): Books {
    match e
    case OnBook(b) =>
      if b.entryType == BookReset then Cleared(us)
      else if b.securityID in us && IsQuote(b) && b.kind != OtherKind then
        var u := us[b.securityID];
        us[b.securityID := WithSide(u, b.entryType, Unlimited(SideOf(u, b.entryType), ToOp(b)))]
      else us
    case OnDefinition(i) =>
      if i.action != Remove && i.securityID in us then
        us[i.securityID := us[i.securityID].(marketDepth := i.depth, symbol := i.symbol)]
      else Defined(us, i)
  }

  function UnlimitedRun(us: Books, es: seq<Event>): Books {
    if es == [] then us else UnlimitedStep(UnlimitedRun(us, es[..|es| - 1]), es[|es| - 1])
  }

  predicate EventKeepsUp(bs: Books, e: Event) {
    e.OnBook? && e.book.securityID in bs && IsQuote(e.book) && e.book.kind != OtherKind ==>
      var v := bs[e.book.securityID];
      KeepsUp(v.marketDepth, SideOf(v, e.book.entryType), ToOp(e.book))
  }

  /** Every event of the run meets the guard in the state it arrives in. */
  predicate RunKeepsUp(bs: Books, es: seq<Event>) {
    es == [] ||
    (RunKeepsUp(bs, es[..|es| - 1]) && EventKeepsUp(RunEvents(bs, es[..|es| - 1]), es[|es| - 1]))
  }

  predicate IsPrefixOf(v: BookValue, u: BookValue) {
    v.bid <= u.bid && v.ask <= u.ask
  }

  ghost predicate Simulates(bs: Books, us: Books) {
    bs.Keys == us.Keys && forall k :: k in bs ==> IsPrefixOf(bs[k], us[k])
  }

  lemma StepSimulates(bs: Books, us: Books, e: Event)
    requires Simulates(bs, us) && AllWithinDepth(bs) && EventKeepsUp(bs, e)
    ensures Simulates(EventStep(bs, e), UnlimitedStep(us, e))
  {
    match e
    case OnBook(b) =>
      if b.entryType != BookReset && b.securityID in bs && IsQuote(b) && b.kind != OtherKind {
        var v, u := bs[b.securityID], us[b.securityID];
        assert IsPrefixOf(v, u) && WithinDepth(v);
        KeepsUpStaysPrefix(v.marketDepth, SideOf(v, b.entryType), SideOf(u, b.entryType), ToOp(b));
      }
    case OnDefinition(i) =>
      if i.action != Remove && i.securityID in bs {
        assert IsPrefixOf(bs[i.securityID], us[i.securityID]);
      }
  }

  /** Through truncation, rejection, shrinking, growth and reset, every stored side is a prefix of the side
      that never forgets, on every run whose events meet the guard. */
  lemma {:induction false} BoundedSimulatesUnlimited(bs: Books, es: seq<Event>)
    requires AllWithinDepth(bs) && RunKeepsUp(bs, es)
    ensures Simulates(RunEvents(bs, es), UnlimitedRun(bs, es))
  {
    if es == [] {
      assert forall k :: k in bs ==> IsPrefixOf(bs[k], bs[k]);
    } else {
      var front := es[..|es| - 1];
      BoundedSimulatesUnlimited(bs, front);
      DepthIsKept(bs, front);
      StepSimulates(RunEvents(bs, front), UnlimitedRun(bs, front), es[|es| - 1]);
    }
  }
}
