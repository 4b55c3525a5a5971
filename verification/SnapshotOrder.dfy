/** When the entries of a snapshot come in another order: the side is rebuilt only in ascending order. */
module SnapshotOrder {
  import opened Types
  import opened BookLevels
  import opened BookRuns
  import opened Snapshots

  /** How many rows of a side are not blank. */
  function Filled(s: Side): (n: nat)
    ensures n <= |s|
  {
    if s == [] then 0 else Filled(s[..|s| - 1]) + if s[|s| - 1] == BLANK then 0 else 1
  }

  lemma {:induction false} FilledConcat(a: Side, b: Side)
    ensures Filled(a + b) == Filled(a) + Filled(b)
  {
    if b == [] {
      assert a + b == a;
    } else {
      assert (a + b)[..|a + b| - 1] == a + b[..|b| - 1];
      FilledConcat(a, b[..|b| - 1]);
    }
  }

  lemma {:induction false} FilledFull(s: Side)
    requires forall i :: 0 <= i < |s| ==> s[i] != BLANK
    ensures Filled(s) == |s|
  {
    if s != [] {
      FilledFull(s[..|s| - 1]);
    }
  }

  lemma {:induction false} FilledBlank(n: nat)
    ensures Filled(seq(n, _ => BLANK)) == 0
  {
    if n > 0 {
      FilledBlank(n - 1);
      assert seq(n, _ => BLANK)[..n - 1] == seq(n - 1, _ => BLANK);
    }
  }

  /** Cutting a side takes away what is filled behind the cut. */
  lemma {:induction false} FilledCut(s: Side, k: nat)
    requires k <= |s|
    ensures Filled(s[..k]) <= Filled(s)
    ensures forall c :: k <= c < |s| && s[c] != BLANK ==> Filled(s[..k]) < Filled(s)
  {
    if k == |s| {
      assert s[..k] == s;
    } else {
      var front := s[..|s| - 1];
      FilledCut(front, k);
      assert front[..k] == s[..k];
      assert forall c :: k <= c < |front| ==> front[c] == s[c];
    }
  }

  /** A blank row above a filled one. */
  ghost predicate Gap(s: Side, b: int, c: int) {
    0 <= b < c < |s| && s[b] == BLANK && s[c] != BLANK
  }

  /** After `j` filled rows went in, one was lost or there is a blank row above a filled one. */
  ghost predicate Damaged(s: Side, j: nat) {
    Filled(s) < j || (Filled(s) == j && exists b, c :: Gap(s, b, c))
  }

  /** A New before the side is cut at the depth. */
  function Inserted(s: Side, level: nat, row: BookPrice): Side
    requires level >= 1
  {
    if level <= |s| + 1 then s[..level - 1] + [row] + s[level - 1..]
    else s + seq(level - 1 - |s|, _ => BLANK) + [row]
  }

  lemma NewIsInserted(depth: nat, s: Side, op: LevelOp)
    requires |s| <= depth && op.action == New && 1 <= op.level <= depth
    ensures var t := Inserted(s, op.level, op.row);
            Apply(depth, s, op) == t[..Min(depth, |t|)]
  {
    var t := Inserted(s, op.level, op.row);
    assert |t| == Max(|s| + 1, op.level);
    assert forall i :: 0 <= i < |t| ==> t[i] == RowAfter(s, op, i);
  }

  lemma FilledInserted(s: Side, level: nat, row: BookPrice)
    requires level >= 1 && row != BLANK
    ensures Filled(Inserted(s, level, row)) == Filled(s) + 1
  {
    assert [row][..0] == [] && Filled([row]) == 1;
    if level <= |s| + 1 {
      FilledConcat(s[..level - 1], [row]);
      FilledConcat(s[..level - 1] + [row], s[level - 1..]);
      FilledConcat(s[..level - 1], s[level - 1..]);
      assert s == s[..level - 1] + s[level - 1..];
    } else {
      var blanks := seq(level - 1 - |s|, _ => BLANK);
      FilledBlank(level - 1 - |s|);
      FilledConcat(s, blanks);
      FilledConcat(s + blanks, [row]);
    }
  }

  /** An insertion moves a gap, it does not close it. */
  lemma GapMoves(s: Side, level: nat, row: BookPrice, b: int, c: int) returns (b': int, c': int)
    requires level >= 1 && Gap(s, b, c)
    ensures Gap(Inserted(s, level, row), b', c')
  {
    b' := if level - 1 <= b then b + 1 else b;
    c' := if level - 1 <= c then c + 1 else c;
  }

  /** Damage cannot be repaired: the blank row leaves only behind the filled row below it. */
  lemma DamageStays(depth: nat, s: Side, op: LevelOp, j: nat, j': nat)
    requires |s| <= depth && op.action == New && 1 <= op.level <= depth && op.row != BLANK
    requires Damaged(s, j) && j' == j + 1
    ensures Damaged(Apply(depth, s, op), j')
  {
    var t := Inserted(s, op.level, op.row);
    var k := Min(depth, |t|);
    NewIsInserted(depth, s, op);
    FilledInserted(s, op.level, op.row);
    FilledCut(t, k);
    if Filled(s) == j && Filled(t[..k]) == j' {
      var b, c :| Gap(s, b, c);
      var b', c' := GapMoves(s, op.level, op.row, b, c);
      assert c' < k;
      assert Gap(t[..k], b', c');
    }
  }

  /** `q` has the entries of `side`, in some order. */
  ghost predicate Rearranges(q: seq<Book>, side: Side, n: uint32, id: uint32, t: EntryType)
    requires |side| <= 0xFF
  {
    multiset(q) == multiset(Entries(side, n, id, t))
  }

  ghost predicate NoBlank(side: Side) {
    forall i :: 0 <= i < |side| ==> side[i] != BLANK
  }

  lemma SameTail<T>(q: seq<T>, e: seq<T>, k: nat)
    requires multiset(q) == multiset(e) && k <= |q| && k <= |e| && q[..k] == e[..k]
    ensures multiset(q[k..]) == multiset(e[k..])
  {
    assert q[..k] + q[k..] == q && e[..k] + e[k..] == e;
    var front := multiset(q[..k]);
    assert multiset(q) == front + multiset(q[k..]) && multiset(e) == front + multiset(e[k..]);
    assert multiset(q) - front == multiset(q[k..]) && multiset(e) - front == multiset(e[k..]);
  }

  /** Elements of one tail are elements of the other. */
  lemma FoundInTail<T>(q: seq<T>, e: seq<T>, k: nat, x: T) returns (i: nat)
    requires multiset(q) == multiset(e) && k <= |q| && k <= |e| && q[..k] == e[..k] && x in q[k..]
    ensures k <= i < |e| && e[i] == x
  {
    SameTail(q, e, k);
    assert x in multiset(q[k..]);
    assert x in e[k..];
    var j :| 0 <= j < |e[k..]| && e[k..][j] == x;
    i := k + j;
  }

  lemma {:induction false} FirstDifference<T>(q: seq<T>, e: seq<T>) returns (k: nat)
    requires |q| == |e| && q != e
    ensures k < |q| && q[..k] == e[..k] && q[k] != e[k]
  {
    if q[0] != e[0] {
      k := 0;
    } else {
      assert q == [q[0]] + q[1..] && e == [e[0]] + e[1..];
      var j := FirstDifference(q[1..], e[1..]);
      k := j + 1;
      assert q[..k] == [q[0]] + q[1..][..j] && e[..k] == [e[0]] + e[1..][..j];
    }
  }

  lemma SameLength<T>(q: seq<T>, e: seq<T>)
    requires multiset(q) == multiset(e)
    ensures |q| == |e|
  {
    assert |multiset(q)| == |q| && |multiset(e)| == |e|;
  }

  /** The first entry that is not in its place belongs to a later level, and the one whose place it is comes
      later. */
  lemma FirstMisplaced(q: seq<Book>, side: Side, n: uint32, id: uint32, t: EntryType) returns (k: nat, i: nat)
    requires |side| <= 0xFF && Rearranges(q, side, n, id, t) && q != Entries(side, n, id, t)
    ensures k < i < |q| == |side| && q[..k] == Entries(side, n, id, t)[..k]
    ensures k + 1 < q[k].priceLevel <= |side| && q[k] == Entries(side, n, id, t)[q[k].priceLevel - 1]
    ensures q[i].priceLevel == k + 1
  {
    var e := Entries(side, n, id, t);
    SameLength(q, e);
    k := FirstDifference(q, e);
    assert q[k] == q[k..][0] && e[k] == e[k..][0];
    var l := FoundInTail(q, e, k, q[k]);
    i := FoundInTail(e, q, k, e[k]);
  }

  /** Only the entries in their places are ascending. */
  lemma AscendingIsInPlace(q: seq<Book>, side: Side, n: uint32, id: uint32, t: EntryType)
    requires |side| <= 0xFF && Rearranges(q, side, n, id, t)
    ensures Ascending(q) <==> q == Entries(side, n, id, t)
  {
    EntriesList(side, n, id, t);
    if q != Entries(side, n, id, t) {
      var k, i := FirstMisplaced(q, side, n, id, t);
      assert q[k].priceLevel > q[i].priceLevel;
    }
  }

  /** A New that pads leaves a blank row above its own. */
  lemma PaddingDamages(depth: nat, s: Side, op: LevelOp, j: nat)
    requires op.action == New && |s| + 1 < op.level <= depth && op.row != BLANK && j == |s| + 1
    ensures Damaged(Apply(depth, s, op), j)
  {
    var t := Inserted(s, op.level, op.row);
    NewIsInserted(depth, s, op);
    assert t[..|t|] == t;
    FilledInserted(s, op.level, op.row);
    assert Gap(t, |s|, op.level - 1);
  }

  /** One more entry. */
  lemma RunMore(depth: nat, q: seq<Book>, id: uint32, t: EntryType, i: nat, j: nat)
    requires i < |q| && j == i + 1 && t != BookReset && Edits(q[i], id, t)
    ensures SideRun(depth, [], q[..j], id, t) == Apply(depth, SideRun(depth, [], q[..i], id, t), ToOp(q[i]))
  {
    assert q[..j][..i] == q[..i];
  }

  /** The side right after the first misplaced entry. */
  lemma DamageBegins(depth: nat, q: seq<Book>, side: Side, n: uint32, id: uint32, t: EntryType, k: nat, j: nat)
    requires |side| <= depth && |side| <= 0xFF && t != BookReset && NoBlank(side) && k < |q| == |side| && j == k + 1
    requires q[..k] == Entries(side, n, id, t)[..k]
    requires j < q[k].priceLevel <= |side| && q[k] == Entries(side, n, id, t)[q[k].priceLevel - 1]
    ensures Damaged(SideRun(depth, [], q[..j], id, t), j)
  {
    var before := side[..k];
    assert SideRun(depth, [], q[..k], id, t) == before by {
      assert q[..k] == Entries(before, n, id, t);
      SnapshotRoundTrip(depth, before, n, id, t);
    }
    RunMore(depth, q, id, t, k, j);
    PaddingDamages(depth, before, ToOp(q[k]), j);
  }

  /** An entry of a side without blank rows. */
  ghost predicate FilledEntry(b: Book, depth: nat, id: uint32, t: EntryType) {
    Edits(b, id, t) && b.kind == Snapshot && 1 <= b.priceLevel <= depth && ToOp(b).row != BLANK
  }

  lemma {:induction false} DamageLasts(depth: nat, q: seq<Book>, id: uint32, t: EntryType, k: nat, j: nat)
    requires t != BookReset && k <= j <= |q|
    requires forall i :: 0 <= i < |q| ==> FilledEntry(q[i], depth, id, t)
    requires Damaged(SideRun(depth, [], q[..k], id, t), k)
    ensures Damaged(SideRun(depth, [], q[..j], id, t), j)
    decreases j - k
  {
    if j > k {
      var i := j - 1;
      DamageLasts(depth, q, id, t, k, i);
      RunMore(depth, q, id, t, i, j);
      ShorterStaysShorter(depth, [], [], q[..i], id, t);
      assert FilledEntry(q[i], depth, id, t);
      DamageStays(depth, SideRun(depth, [], q[..i], id, t), ToOp(q[i]), i, j);
    }
  }

  /** The entries of a side without blank rows, in whatever order they come, rebuild it exactly when they come
      by ascending level. */
  lemma RebuiltExactlyAscending(depth: nat, q: seq<Book>, side: Side, n: uint32, id: uint32, t: EntryType)
    requires |side| <= depth && |side| <= 0xFF && t != BookReset && NoBlank(side)
    requires Rearranges(q, side, n, id, t)
    ensures SideRun(depth, [], q, id, t) == side <==> Ascending(q)
  {
    AscendingIsInPlace(q, side, n, id, t);
    if Ascending(q) {
      SnapshotRoundTrip(depth, side, n, id, t);
    } else {
      var k, i := FirstMisplaced(q, side, n, id, t);
      DamageBegins(depth, q, side, n, id, t, k, k + 1);
      AllFilled(depth, q, side, n, id, t);
      DamageLasts(depth, q, id, t, k + 1, |q|);
      assert q[..|q|] == q;
      FilledFull(side);
    }
  }

  lemma AllFilled(depth: nat, q: seq<Book>, side: Side, n: uint32, id: uint32, t: EntryType)
    requires |side| <= depth && |side| <= 0xFF && NoBlank(side) && Rearranges(q, side, n, id, t)
    ensures forall i :: 0 <= i < |q| ==> FilledEntry(q[i], depth, id, t)
  {
    var e := Entries(side, n, id, t);
    forall i | 0 <= i < |q|
      ensures FilledEntry(q[i], depth, id, t)
    {
      assert q[i] in multiset(q);
      assert q[i] in e;
      var l :| 0 <= l < |e| && e[l] == q[i];
      assert ToOp(e[l]).row == side[l];
    }
  }

  /** The same with the other side and all other securities interleaved in any way. */
  lemma SnapshotRebuiltExactlyAscending(depth: nat, books: seq<Book>, side: Side, n: uint32, id: uint32, t: EntryType)
    requires |side| <= depth && |side| <= 0xFF && t != BookReset && NoBlank(side) && IsSnapshot(books)
    requires Rearranges(Quotes(books, id, t), side, n, id, t)
    ensures SideRun(depth, [], books, id, t) == side <==> Ascending(Quotes(books, id, t))
  {
    OnlyQuotesMatter(depth, books, id, t);
    RebuiltExactlyAscending(depth, Quotes(books, id, t), side, n, id, t);
  }
}
