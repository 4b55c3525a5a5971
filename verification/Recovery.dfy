/** Merging a snapshot with the increments that overlap it. */
module Recovery {
  import opened Types
  import opened BookLevels
  import opened BookRuns
  import opened BookStates

  /** A snapshot message: the number of the last packet it includes, and its entries. */
  datatype RecoveryMessage = RecoveryMessage(lastMsgSeqNumProcessed: uint32, books: seq<Book>)

  /** The entries of all snapshot messages, in order. */
  function AllBooks(ms: seq<RecoveryMessage>): seq<Book> {
    if ms == [] then [] else AllBooks(ms[..|ms| - 1]) + ms[|ms| - 1].books
  }

  /** Message `j` carries the entries from `cuts[j]` up to `cuts[j + 1]` of a list that the messages cover. */
  ghost predicate Splits(ms: seq<RecoveryMessage>, cuts: seq<nat>, recovery: seq<Book>) {
    && |cuts| == |ms| + 1 && cuts[0] == 0 && cuts[|ms|] == |recovery|
    && forall j :: 0 <= j < |ms| ==> Carries(ms, cuts, recovery, j)
  }

  ghost predicate Carries(ms: seq<RecoveryMessage>, cuts: seq<nat>, recovery: seq<Book>, j: nat)
    requires |cuts| == |ms| + 1 && j < |ms|
  {
    cuts[j] <= cuts[j + 1] <= |recovery| && ms[j].books == recovery[cuts[j]..cuts[j + 1]]
  }

  /** However a list is split into messages, their entries are that list: every message counts, in message order. */
  lemma {:induction false} SplitIsWhole(ms: seq<RecoveryMessage>, cuts: seq<nat>, recovery: seq<Book>)
    requires Splits(ms, cuts, recovery)
    ensures AllBooks(ms) == recovery
  {
    if ms != [] {
      var n := |ms| - 1;
      assert Carries(ms, cuts, recovery, n);
      var front, fewer, part := ms[..n], cuts[..n + 1], recovery[..cuts[n]];
      forall j | 0 <= j < n
        ensures Carries(front, fewer, part, j)
      {
        CutsRise(ms, cuts, recovery, j + 1, n);
        assert Carries(ms, cuts, recovery, j);
      }
      SplitIsWhole(front, fewer, part);
      assert recovery == part + recovery[cuts[n]..];
    }
  }

  lemma {:induction false} CutsRise(ms: seq<RecoveryMessage>, cuts: seq<nat>, recovery: seq<Book>, j: nat, k: nat)
    requires Splits(ms, cuts, recovery) && j <= k <= |ms|
    ensures cuts[j] <= cuts[k]
    decreases k - j
  {
    if j < k {
      assert Carries(ms, cuts, recovery, j);
      CutsRise(ms, cuts, recovery, j + 1, k);
    }
  }

  lemma {:induction false} AllBooksConcat(a: seq<RecoveryMessage>, b: seq<RecoveryMessage>)
    ensures AllBooks(a + b) == AllBooks(a) + AllBooks(b)
  {
    if b == [] {
      assert a + b == a;
    } else {
      assert (a + b)[..|a + b| - 1] == a + b[..|b| - 1];
      AllBooksConcat(a, b[..|b| - 1]);
    }
  }

  lemma AllBooksOfOne(m: RecoveryMessage)
    ensures AllBooks([m]) == m.books
  {
    assert [m][..0] == [] && [] + m.books == m.books;
  }

  /** A snapshot that includes packet `n` covers security `id`. */
  ghost predicate Covered(recovery: seq<Book>, n: int, id: uint32) {
    exists j :: 0 <= j < |recovery| && recovery[j].securityID == id && recovery[j].packetSeqNum >= n
  }

  /** The naive filter: an entry of message `n` survives if no snapshot covers its security. */
  ghost function Uncovered(recovery: seq<Book>, n: int, books: seq<Book>): seq<Book> {
    if books == [] then []
    else
      var b := books[|books| - 1];
      Uncovered(recovery, n, books[..|books| - 1]) + if Covered(recovery, n, b.securityID) then [] else [b]
  }

  /** The first snapshot entry from `i` on that includes packet `n`, or the end. */
  function FirstIncluding(recovery: seq<Book>, n: int, i: nat): (j: nat)
    requires i <= |recovery|
    ensures i <= j <= |recovery|
    ensures forall k :: i <= k < j ==> recovery[k].packetSeqNum < n
    ensures j < |recovery| ==> recovery[j].packetSeqNum >= n
    decreases |recovery| - i
  {
    if i == |recovery| || recovery[i].packetSeqNum >= n then i else FirstIncluding(recovery, n, i + 1)
  }

  predicate Occurs(recovery: seq<Book>, i: nat, j: nat, id: uint32)
    requires j <= |recovery|
  {
    exists k :: i <= k < j && recovery[k].securityID == id
  }

  /** The entries whose security is none of those in `recovery[i..j]`. */
  function Without(recovery: seq<Book>, i: nat, j: nat, books: seq<Book>): seq<Book>
    requires j <= |recovery|
  {
    if books == [] then []
    else
      var b := books[|books| - 1];
      Without(recovery, i, j, books[..|books| - 1]) + if Occurs(recovery, i, j, b.securityID) then [] else [b]
  }

  /** Survivors of removing every entry of one security. */
  function RemoveSecurity(books: seq<Book>, id: uint32): seq<Book> {
    if books == [] then []
    else
      var b := books[|books| - 1];
      RemoveSecurity(books[..|books| - 1], id) + if b.securityID == id then [] else [b]
  }

  ghost predicate SortedBySeq(recovery: seq<Book>) {
    forall i, j :: 0 <= i < j < |recovery| ==> recovery[i].packetSeqNum <= recovery[j].packetSeqNum
  }

  /** Every entry that comes behind a newer one is covered up to that newer one by an entry of its own security. */
  ghost predicate Orderly(recovery: seq<Book>) {
    forall i, j :: 0 <= i < j < |recovery| && recovery[j].packetSeqNum < recovery[i].packetSeqNum ==>
                     Covered(recovery, recovery[i].packetSeqNum, recovery[j].securityID)
  }

  /** For message `n`, the securities that occur from the cursor on are the covered ones. */
  ghost predicate CursorRight(recovery: seq<Book>, n: int) {
    forall id: uint32 :: Covered(recovery, n, id) <==> Occurs(recovery, FirstIncluding(recovery, n, 0), |recovery|, id)
  }

  lemma OrderlyIsRight(recovery: seq<Book>, n: int)
    requires Orderly(recovery)
    ensures CursorRight(recovery, n)
  {
    var i := FirstIncluding(recovery, n, 0);
    forall j | i <= j < |recovery|
      ensures Covered(recovery, n, recovery[j].securityID)
    {
      if recovery[j].packetSeqNum < n {
        assert Covered(recovery, recovery[i].packetSeqNum, recovery[j].securityID);
      }
    }
  }

  lemma RightIsOrderly(recovery: seq<Book>)
    requires forall n: uint32 :: CursorRight(recovery, n)
    ensures Orderly(recovery)
  {
    forall i, j | 0 <= i < j < |recovery| && recovery[j].packetSeqNum < recovery[i].packetSeqNum
      ensures Covered(recovery, recovery[i].packetSeqNum, recovery[j].securityID)
    {
      var n := recovery[i].packetSeqNum;
      assert CursorRight(recovery, n) && FirstIncluding(recovery, n, 0) <= i;
      assert Occurs(recovery, FirstIncluding(recovery, n, 0), |recovery|, recovery[j].securityID);
    }
  }

  /** The cursor filters exactly the covered securities of every message if and only if the snapshot is orderly;
      entries sorted by number are. */
  lemma CursorFiltersCovered(recovery: seq<Book>)
    ensures (forall n: uint32 :: CursorRight(recovery, n)) <==> Orderly(recovery)
    ensures SortedBySeq(recovery) ==> Orderly(recovery)
  {
    if Orderly(recovery) {
      forall n: uint32
        ensures CursorRight(recovery, n)
      {
        OrderlyIsRight(recovery, n);
      }
    }
    if forall n: uint32 :: CursorRight(recovery, n) {
      RightIsOrderly(recovery);
    }
  }

  /** Entries that are not sorted by number can make the cursor filter an entry that no snapshot covers: one of
      another security stops the cursor, and an older one of the same security is found behind it. */
  lemma UnsortedSnapshotFilters(b: Book, other: uint32)
    requires other != b.securityID && 1 <= b.packetSeqNum
    ensures var recovery := [b.(securityID := other), b.(packetSeqNum := b.packetSeqNum - 1)];
            && !Orderly(recovery) && !Covered(recovery, b.packetSeqNum, b.securityID)
            && Uncovered(recovery, b.packetSeqNum, [b]) == [b]
            && Without(recovery, FirstIncluding(recovery, b.packetSeqNum, 0), |recovery|, [b]) == []
  {
    var recovery := [b.(securityID := other), b.(packetSeqNum := b.packetSeqNum - 1)];
    assert recovery[1].securityID == b.securityID;
    assert recovery[1].packetSeqNum < recovery[0].packetSeqNum;
    assert Occurs(recovery, 0, 2, b.securityID);
    assert [b][..0] == [];
  }

  /** On an orderly snapshot the moving cursor computes the naive filter. */
  lemma {:induction false} CursorRefinesFilter(recovery: seq<Book>, n: int, books: seq<Book>)
    requires Orderly(recovery)
    ensures Without(recovery, FirstIncluding(recovery, n, 0), |recovery|, books) == Uncovered(recovery, n, books)
  {
    if books != [] {
      CursorRefinesFilter(recovery, n, books[..|books| - 1]);
      OrderlyIsRight(recovery, n);
      assert Covered(recovery, n, books[|books| - 1].securityID) <==>
             Occurs(recovery, FirstIncluding(recovery, n, 0), |recovery|, books[|books| - 1].securityID);
    }
  }

  /** Skipping on from a cursor that only passed older entries gives the first including entry. */
  lemma {:induction false} CursorResumes(recovery: seq<Book>, n: int, from: nat, i: nat)
    requires from <= i <= |recovery| && forall k :: from <= k < i ==> recovery[k].packetSeqNum < n
    ensures FirstIncluding(recovery, n, from) == FirstIncluding(recovery, n, i)
    decreases i - from
  {
    if from < i {
      CursorResumes(recovery, n, from + 1, i);
    }
  }

  /** Removing one more security from the survivors. */
  lemma {:induction false} WithoutExtends(recovery: seq<Book>, i: nat, j: nat, books: seq<Book>)
    requires i <= j < |recovery|
    ensures RemoveSecurity(Without(recovery, i, j, books), recovery[j].securityID) == Without(recovery, i, j + 1, books)
  {
    if books != [] {
      var b, id := books[|books| - 1], recovery[j].securityID;
      var kept := Without(recovery, i, j, books[..|books| - 1]);
      WithoutExtends(recovery, i, j, books[..|books| - 1]);
      assert Occurs(recovery, i, j + 1, b.securityID) <==> Occurs(recovery, i, j, b.securityID) || b.securityID == id;
      if !Occurs(recovery, i, j, b.securityID) {
        assert (kept + [b])[..|kept|] == kept;
      } else {
        assert Without(recovery, i, j, books) == kept;
      }
    }
  }

  lemma {:induction false} WithoutNothing(recovery: seq<Book>, i: nat, books: seq<Book>)
    requires i <= |recovery|
    ensures Without(recovery, i, i, books) == books
  {
    if books != [] {
      WithoutNothing(recovery, i, books[..|books| - 1]);
      assert books == books[..|books| - 1] + [books[|books| - 1]];
    }
  }

  /** The securities whose books a list of entries changes. */
  function Touched(bs: Books, books: seq<Book>): set<uint32> {
    if books == [] then {}
    else
      var before, b := RunBooks(bs, books[..|books| - 1]), books[|books| - 1];
      Touched(bs, books[..|books| - 1])
      + if FlagOf(before, b) == 2 && Takes(before[b.securityID], b) then {b.securityID} else {}
  }

  class RecoveryManager {
    const controller: BookStateController
    var recoveryBooks: seq<Book>
    /** Where the snapshot entries that may still cover increments begin. */
    var waitMerge: nat

    ghost predicate Valid()
      reads this
    {
      waitMerge <= |recoveryBooks|
    }

    /** The cursor has passed only entries that no message numbered `n` or more can need. */
    ghost predicate PassedOlderThan(n: int)
      requires Valid()
      reads this
    {
      forall k :: 0 <= k < waitMerge ==> recoveryBooks[k].packetSeqNum < n
    }

    constructor (controller: BookStateController)
      ensures Valid() && recoveryBooks == [] && waitMerge == 0 && this.controller == controller
    {
      this.controller := controller;
      recoveryBooks, waitMerge := [], 0;
    }

    /** Appends the entries of all snapshot messages. */
    method AppendBooks(datas: seq<RecoveryMessage>)
      modifies `recoveryBooks
      ensures recoveryBooks == old(recoveryBooks) + AllBooks(datas)
    {
      for i := 0 to |datas|
        invariant recoveryBooks == old(recoveryBooks) + AllBooks(datas[..i])
      {
        assert datas[..i + 1][..i] == datas[..i];
        recoveryBooks := recoveryBooks + datas[i].books;
      }
      assert datas[..|datas|] == datas;
    }

    /** Feeds every entry to the controller and collects the securities whose state changed. */
    method ReplayBooks(books: seq<Book>) returns (touched: set<uint32>)
      requires controller.Valid()
      modifies controller.owned
      ensures controller.Valid() && controller.owned == old(controller.owned)
      ensures controller.View() == RunBooks(old(controller.View()), books)
      ensures touched == Touched(old(controller.View()), books)
    {
      ghost var before := controller.View();
      touched := {};
      for i := 0 to |books|
        invariant controller.Valid() && controller.owned == old(controller.owned)
        invariant controller.View() == RunBooks(before, books[..i])
        invariant touched == Touched(before, books[..i])
      {
        assert books[..i + 1][..i] == books[..i];
        var flag, state := controller.ModifyState(books[i]);
        if flag == 2 && state != null {
          touched := touched + {books[i].securityID};
        }
      }
      assert books[..|books|] == books;
    }

    /** Appends the snapshot, rewinds the cursor and replays every entry; `willSend` are the securities
        whose state the caller must publish. */
    method OnNewRecovery(datas: seq<RecoveryMessage>) returns (willSend: set<uint32>)
      requires Valid() && controller.Valid()
      modifies this, controller.owned
      ensures Valid() && controller.Valid() && controller.owned == old(controller.owned)
      ensures recoveryBooks == old(recoveryBooks) + AllBooks(datas) && waitMerge == 0
      ensures controller.View() == RunBooks(old(controller.View()), recoveryBooks)
      ensures willSend == Touched(old(controller.View()), recoveryBooks)
    {
      ghost var before := controller.View();
      AppendBooks(datas);
      waitMerge := 0;
      assert controller.View() == before;
      willSend := ReplayBooks(recoveryBooks);
    }

    /** Moves the cursor past the entries that are older than the message. */
    method SkipOlder(messageSeq: uint32)
      requires Valid() && PassedOlderThan(messageSeq)
      modifies `waitMerge
      ensures Valid() && PassedOlderThan(messageSeq)
      ensures waitMerge == FirstIncluding(recoveryBooks, messageSeq, 0)
      ensures waitMerge == FirstIncluding(recoveryBooks, messageSeq, old(waitMerge))
    {
      CursorResumes(recoveryBooks, messageSeq, 0, waitMerge);
      while waitMerge != |recoveryBooks| && recoveryBooks[waitMerge].packetSeqNum < messageSeq
        invariant Valid() && PassedOlderThan(messageSeq)
        invariant FirstIncluding(recoveryBooks, messageSeq, waitMerge) == FirstIncluding(recoveryBooks, messageSeq, 0)
        decreases |recoveryBooks| - waitMerge
      {
        waitMerge := waitMerge + 1;
      }
    }

    /** Removes the securities of all entries from the cursor on. */
    method RemoveCovered(incrementBooks: seq<Book>) returns (left: seq<Book>)
      requires Valid()
      ensures left == Without(recoveryBooks, waitMerge, |recoveryBooks|, incrementBooks)
    {
      var start := waitMerge;
      left := incrementBooks;
      WithoutNothing(recoveryBooks, start, incrementBooks);
      for pos := start to |recoveryBooks|
        invariant left == Without(recoveryBooks, start, pos, incrementBooks)
      {
        WithoutExtends(recoveryBooks, start, pos, incrementBooks);
        left := RemoveSecurity(left, recoveryBooks[pos].securityID);
      }
    }

    /** Calls come with non-decreasing numbers, so the cursor never has to move back. */
    method RemovePastBooks(messageSeq: uint32, incrementBooks: seq<Book>) returns (left: seq<Book>)
      requires Valid() && PassedOlderThan(messageSeq)
      modifies `waitMerge
      ensures Valid() && PassedOlderThan(messageSeq)
      ensures waitMerge == if incrementBooks == [] then old(waitMerge)
                           else FirstIncluding(recoveryBooks, messageSeq, old(waitMerge))
      ensures left
              == Without(recoveryBooks, FirstIncluding(recoveryBooks, messageSeq, 0), |recoveryBooks|, incrementBooks)
    {
      if waitMerge == |recoveryBooks| || incrementBooks == [] {
        CursorResumes(recoveryBooks, messageSeq, 0, waitMerge);
        WithoutNothing(recoveryBooks, |recoveryBooks|, incrementBooks);
        return incrementBooks;
      }
      SkipOlder(messageSeq);
      left := RemoveCovered(incrementBooks);
    }
  }
}
