/** A snapshot is a list of levels; replaying it into an empty book rebuilds the sides it lists. */
module Snapshots {
  import opened Types
  import opened BookLevels
  import opened BookRuns

  /** The entries that edit one side of one security. */
  function Quotes(books: seq<Book>, id: uint32, t: EntryType): seq<Book> {
    if books == [] then []
    else
      var b := books[|books| - 1];
      Quotes(books[..|books| - 1], id, t) + if Edits(b, id, t) then [b] else []
  }

  /** Snapshot entries of any security and type, without a channel reset among them. */
  predicate IsSnapshot(books: seq<Book>) {
    forall i :: 0 <= i < |books| ==> books[i].kind == Snapshot && books[i].entryType != BookReset
  }

  predicate Ascending(q: seq<Book>) {
    forall i, j :: 0 <= i < j < |q| ==> q[i].priceLevel < q[j].priceLevel
  }

  /** The row that `q` lists for a level; a level it leaves out is blank. */
  function RowAt(q: seq<Book>, level: int): BookPrice {
    if q == [] then BLANK
    else if q[|q| - 1].priceLevel == level then ToOp(q[|q| - 1]).row
    else RowAt(q[..|q| - 1], level)
  }

  function LastLevel(q: seq<Book>): nat {
    if q == [] then 0 else q[|q| - 1].priceLevel
  }

  /** `q` lists the rows of `side` and its last level is the last row. */
  ghost predicate Lists(q: seq<Book>, side: Side) {
    && (forall i :: 0 <= i < |q| ==> 1 <= q[i].priceLevel)
    && |side| == LastLevel(q)
    && (forall l :: 0 <= l < |side| ==> side[l] == RowAt(q, l + 1))
  }

  /** What a side becomes depends on its own entries only. */
  lemma {:induction false} OnlyQuotesMatter(depth: nat, books: seq<Book>, id: uint32, t: EntryType)
    requires IsSnapshot(books)
    ensures SideRun(depth, [], books, id, t) == SideRun(depth, [], Quotes(books, id, t), id, t)
    ensures IsSnapshot(Quotes(books, id, t))
    ensures forall i :: 0 <= i < |Quotes(books, id, t)| ==> Edits(Quotes(books, id, t)[i], id, t)
  {
    if books != [] {
      var front, b := books[..|books| - 1], books[|books| - 1];
      OnlyQuotesMatter(depth, front, id, t);
      if Edits(b, id, t) {
        assert Quotes(books, id, t)[..|Quotes(books, id, t)| - 1] == Quotes(front, id, t);
      } else {
        assert Quotes(books, id, t) == Quotes(front, id, t);
      }
    }
  }

  lemma {:induction false} BlankAboveLast(q: seq<Book>, level: int)
    requires Ascending(q) && level > LastLevel(q)
    ensures RowAt(q, level) == BLANK
  {
    if q != [] {
      var front := q[..|q| - 1];
      assert front != [] ==> front[|front| - 1].priceLevel < q[|q| - 1].priceLevel;
      BlankAboveLast(front, level);
    }
  }

  /** Leaving out the last entry of a listing lists the rows up to the entry before it. */
  lemma ListsFront(q: seq<Book>, side: Side)
    requires q != [] && Ascending(q) && Lists(q, side)
    ensures var front := q[..|q| - 1];
            && LastLevel(front) < |side| && Ascending(front) && Lists(front, side[..LastLevel(front)])
            && forall l :: LastLevel(front) <= l < |side| - 1 ==> side[l] == BLANK
  {
    var front := q[..|q| - 1];
    assert front != [] ==> front[|front| - 1].priceLevel < q[|q| - 1].priceLevel;
    forall l | 0 <= l < |side| - 1
      ensures side[l] == RowAt(front, l + 1)
      ensures l >= LastLevel(front) ==> side[l] == BLANK
    {
      if l >= LastLevel(front) {
        BlankAboveLast(front, l + 1);
      }
    }
  }

  lemma {:induction false} ListingRebuilds(depth: nat, q: seq<Book>, side: Side, id: uint32, t: EntryType)
    requires Ascending(q) && Lists(q, side) && |side| <= depth && IsSnapshot(q)
    requires forall i :: 0 <= i < |q| ==> Edits(q[i], id, t)
    ensures SideRun(depth, [], q, id, t) == side
  {
    if q != [] {
      var front, b := q[..|q| - 1], q[|q| - 1];
      ListsFront(q, side);
      var before := side[..LastLevel(front)];
      ListingRebuilds(depth, front, before, id, t);
      assert Apply(depth, before, ToOp(b)) == side;
    }
  }

  /** Snapshot entries in ascending level order per side, with both sides and all securities interleaved
      in any way, rebuild exactly the side they list when it fits the depth. */
  lemma SnapshotRebuilds(depth: nat, books: seq<Book>, side: Side, id: uint32, t: EntryType)
    requires IsSnapshot(books) && |side| <= depth
    requires Ascending(Quotes(books, id, t)) && Lists(Quotes(books, id, t), side)
    ensures SideRun(depth, [], books, id, t) == side
  {
    OnlyQuotesMatter(depth, books, id, t);
    ListingRebuilds(depth, Quotes(books, id, t), side, id, t);
  }

  /** The snapshot entries of a side, one for each row. */
  function Entries(side: Side, n: uint32, id: uint32, t: EntryType): (q: seq<Book>)
    requires |side| <= 0xFF
  {
    seq(|side|, i requires 0 <= i < |side| =>
      Book(n, Snapshot, id, t, New, i + 1, side[i].numberOfOrders, side[i].entrySize, side[i].entryPx))
  }

  lemma {:induction false} EntriesList(side: Side, n: uint32, id: uint32, t: EntryType)
    requires |side| <= 0xFF
    ensures Ascending(Entries(side, n, id, t)) && Lists(Entries(side, n, id, t), side)
  {
    if side != [] {
      var q, front := Entries(side, n, id, t), side[..|side| - 1];
      EntriesList(front, n, id, t);
      assert q[..|q| - 1] == Entries(front, n, id, t);
    }
  }

  /** Replaying the entries of a side gives the side back. */
  lemma SnapshotRoundTrip(depth: nat, side: Side, n: uint32, id: uint32, t: EntryType)
    requires |side| <= depth && |side| <= 0xFF && t != BookReset
    ensures SideRun(depth, [], Entries(side, n, id, t), id, t) == side
  {
    EntriesList(side, n, id, t);
    ListingRebuilds(depth, Entries(side, n, id, t), side, id, t);
  }

  /** The order matters: the two rows of a side come back wrong when the lower level is listed first. */
  lemma DescendingSnapshotFails(top: BookPrice, second: BookPrice, n: uint32, id: uint32)
    requires second != BLANK
    ensures var q := Entries([top, second], n, id, Bid);
            SideRun(2, [], [q[1], q[0]], id, Bid) != [top, second]
  {
    var q := Entries([top, second], n, id, Bid);
    var r := [q[1], q[0]];
    assert r[..1][..0] == [] && r[..1] == [q[1]];
    assert SideRun(2, [], r[..1], id, Bid) == [BLANK, second];
    assert SideRun(2, [], r, id, Bid) == [top, BLANK];
  }
}
