/** What the market listener is told, message by message and field by field. */
module ListenerLog {
  import opened Types
  import opened Sequences
  import opened BookLevels
  import opened BookRuns
  import opened BookStates
  import opened LevelOperations
  import opened Recovery
  import opened Publication
  import opened BookManagement
  import opened Saver
  import opened ConsumerQuotes

  /** The messages about prices under a symbol. */
  function Under(log: seq<Sent>, c: string): seq<Sent> {
    if log == [] then []
    else
      var m := log[|log| - 1];
      Under(log[..|log| - 1], c)
      + if m.contract == c && AboutPrices(m) then [m] else []
  }

  predicate AboutPrices(m: Sent) {
    m.L2? || m.BBO? || m.BidOnly? || m.OfferOnly?
  }

  /** A bid or offer entry of security `id` that is accepted. */
  predicate Lands(bs: Books, e: Event, id: uint32) {
    && e.OnBook? && e.book.securityID == id && (e.book.entryType == Bid || e.book.entryType == Offer)
    && id in bs && Fits(bs[id], e.book)
  }

  /** An accepted entry that can reach level 1: a deletion from the top or of everything, or one at level 1. */
  predicate ReachesTop(b: Book) {
    if b.kind == Increment && (b.updateAction == DeleteThru || b.updateAction == DeleteFrom) then true
    else b.priceLevel == 1
  }

  /** `ms` is what an event makes the manager say about `id`: nothing, or the book after the entry, and behind it the
      best prices if the entry reaches level 1 and leaves any. */
  ghost predicate Says(ms: seq<Sent>, before: Books, e: Event, after: Books, id: uint32) {
    if !Lands(before, e, id) then ms == []
    else
      && id in after
      && (if ReachesTop(e.book) && (after[id].bid != [] || after[id].ask != [])
          then |ms| == 2 && Depicts(ms[0], after[id]) && TellsBest(ms[1], after[id])
          else |ms| == 1 && Depicts(ms[0], after[id]))
  }

  lemma {:induction false} UnderConcat(a: seq<Sent>, b: seq<Sent>, c: string)
    ensures Under(a + b, c) == Under(a, c) + Under(b, c)
  {
    if b == [] {
      assert a + b == a;
    } else {
      assert (a + b)[..|a + b| - 1] == a + b[..|b| - 1];
      UnderConcat(a, b[..|b| - 1], c);
    }
  }

  lemma {:induction false} UnderAll(ms: seq<Sent>, c: string)
    requires forall i :: 0 <= i < |ms| ==> AboutPrices(ms[i]) && ms[i].contract == c
    ensures Under(ms, c) == ms
  {
    if ms != [] {
      UnderAll(ms[..|ms| - 1], c);
    }
  }

  lemma {:induction false} UnderNone(ms: seq<Sent>, c: string)
    requires forall i :: 0 <= i < |ms| && AboutPrices(ms[i]) ==> ms[i].contract != c
    ensures Under(ms, c) == []
  {
    if ms != [] {
      UnderNone(ms[..|ms| - 1], c);
    }
  }

  /** What an accepted entry makes the manager send, under its own symbol and under others. */
  lemma LandedSays(v: BookValue, b: Book, c: string)
    ensures var ms := [SendL2(v)] + if IsBboChanged(b) then SendBbo(v) else [];
            Under(ms, c) == if v.symbol == c then ms else []
  {
    var ms := [SendL2(v)] + if IsBboChanged(b) then SendBbo(v) else [];
    BookSays(v);
    if v.symbol == c {
      UnderAll(ms, c);
    } else {
      UnderNone(ms, c);
    }
  }

  lemma ReachingTopIsChanging(v: BookValue, b: Book)
    requires Fits(v, b)
    ensures ReachesTop(b) <==> IsBboChanged(b)
  {
  }

  lemma OtherSays(bs: Books, b: Book, c: string, contract: string)
    requires !(b.securityID in bs && IsQuote(b) && Takes(bs[b.securityID], b))
    ensures Under(Announced(bs, b, contract), c) == []
  {
    UnderNone(Announced(bs, b, contract), c);
  }

  /** What goes out for an entry of a security, under its symbol. */
  lemma AnnouncedSays(bs: Books, b: Book, id: uint32, c: string, contract: string)
    requires Owns(bs, id, c)
    ensures Says(Under(Announced(bs, b, contract), c), bs, OnBook(b), Modified(bs, b), id)
  {
    if b.securityID in bs {
      AcceptedFits(bs[b.securityID], b);
    }
    if b.securityID in bs && IsQuote(b) && Takes(bs[b.securityID], b) {
      var v := Updated(bs[b.securityID], b);
      BookSays(v);
      LandedSays(v, b, c);
      ReachingTopIsChanging(bs[b.securityID], b);
    } else {
      OtherSays(bs, b, c, contract);
    }
  }

  lemma StepSays(d: Desk, e: Event, id: uint32, c: string) returns (ms: seq<Sent>)
    requires Owns(d.books, id, c)
    ensures Under(DeskStep(d, e).sent, c) == Under(d.sent, c) + ms
    ensures Says(ms, d.books, e, DeskStep(d, e).books, id)
  {
    match e
    case OnBook(b) =>
      var contract := SymbolOf(d, b.securityID);
      UnderConcat(d.sent, Announced(d.books, b, contract), c);
      AnnouncedSays(d.books, b, id, c, contract);
      ms := Under(Announced(d.books, b, contract), c);
    case OnDefinition(i) =>
      ms := [];
      if i.action != Remove {
        UnderConcat(d.sent, [ContractDefinition(i.symbol)], c);
        UnderNone([ContractDefinition(i.symbol)], c);
      }
      assert Under(d.sent, c) + [] == Under(d.sent, c);
  }

  /** `told[n]` is what event `n` of a run makes the manager say about `id`. */
  ghost predicate SaysAll(told: seq<seq<Sent>>, d: Desk, es: seq<Event>, id: uint32) {
    && |told| == |es|
    && forall n :: 0 <= n < |es| ==> SaysAt(told[n], d, es, id, n)
  }

  ghost predicate SaysAt(ms: seq<Sent>, d: Desk, es: seq<Event>, id: uint32, n: nat)
    requires n < |es|
  {
    Says(ms, DeskRun(d, es[..n]).books, es[n], DeskRun(d, es[..n + 1]).books, id)
  }

  function Joined<T>(parts: seq<seq<T>>): seq<T> {
    if parts == [] then [] else Joined(parts[..|parts| - 1]) + parts[|parts| - 1]
  }

  lemma RunOwns(d: Desk, es: seq<Event>, id: uint32, c: string)
    requires Owns(d.books, id, c) && KeepsSymbol(es, id, c)
    ensures Owns(DeskRun(d, es).books, id, c)
  {
    RunShows(d, es, id, c);
  }

  /** The log under the symbol of a security, over any run of entries and definitions: it grows by exactly what each
      event says about that security, in the order of the events. */
  lemma {:induction false} LogSaysAll(d: Desk, es: seq<Event>, id: uint32, c: string) returns (told: seq<seq<Sent>>)
    requires Owns(d.books, id, c) && KeepsSymbol(es, id, c)
    ensures SaysAll(told, d, es, id)
    ensures Under(DeskRun(d, es).sent, c) == Under(d.sent, c) + Joined(told)
  {
    if es == [] {
      told := [];
    } else {
      var front, e, n := es[..|es| - 1], es[|es| - 1], |es| - 1;
      var before := LogSaysAll(d, front, id, c);
      RunOwns(d, front, id, c);
      var ms := StepSays(DeskRun(d, front), e, id, c);
      told := before + [ms];
      assert es[..n] == front && es[..n + 1] == es;
      SaysMore(before, ms, d, es, id);
      JoinedMore(Under(d.sent, c), before, ms);
    }
  }

  lemma JoinedMore<T>(front: seq<T>, parts: seq<seq<T>>, part: seq<T>)
    ensures front + Joined(parts + [part]) == front + Joined(parts) + part
  {
    assert (parts + [part])[..|parts|] == parts;
    Assoc(front, Joined(parts), part);
  }

  lemma SaysInFront(ms: seq<Sent>, d: Desk, es: seq<Event>, id: uint32, n: nat)
    requires es != [] && n < |es| - 1
    ensures SaysAt(ms, d, es, id, n) <==> SaysAt(ms, d, es[..|es| - 1], id, n)
  {
    var front := es[..|es| - 1];
    assert front[..n] == es[..n] && front[..n + 1] == es[..n + 1];
  }

  lemma SaysMore(before: seq<seq<Sent>>, ms: seq<Sent>, d: Desk, es: seq<Event>, id: uint32)
    requires es != [] && SaysAll(before, d, es[..|es| - 1], id) && SaysAt(ms, d, es, id, |es| - 1)
    ensures SaysAll(before + [ms], d, es, id)
  {
    forall n | 0 <= n < |es|
      ensures SaysAt((before + [ms])[n], d, es, id, n)
    {
      if n < |es| - 1 {
        SaysInFront(before[n], d, es, id, n);
      }
    }
  }

  /* ---------- the last level-2 message ---------- */

  function LastL2(log: seq<Sent>, c: string): Option<Sent> {
    if log == [] then None
    else if log[|log| - 1].contract == c && log[|log| - 1].L2? then Some(log[|log| - 1])
    else LastL2(log[..|log| - 1], c)
  }

  lemma {:induction false} LastL2Concat(a: seq<Sent>, b: seq<Sent>, c: string)
    ensures LastL2(a + b, c) == if LastL2(b, c).Some? then LastL2(b, c) else LastL2(a, c)
  {
    if b == [] {
      assert a + b == a;
    } else {
      assert (a + b)[..|a + b| - 1] == a + b[..|b| - 1];
      LastL2Concat(a, b[..|b| - 1], c);
    }
  }

  lemma LastL2Few(ms: seq<Sent>, c: string)
    requires |ms| <= 2
    ensures LastL2(ms, c)
            == if |ms| == 2 && ms[1].contract == c && ms[1].L2? then Some(ms[1])
               else if ms != [] && ms[0].contract == c && ms[0].L2? then Some(ms[0]) else None
  {
    if |ms| == 2 {
      assert ms[..1] == [ms[0]] && [ms[0]][..0] == [];
    } else if |ms| == 1 {
      assert ms[..0] == [];
    }
  }

  lemma {:induction false} LastL2Under(log: seq<Sent>, c: string)
    ensures LastL2(Under(log, c), c) == LastL2(log, c)
  {
    if log != [] {
      var front, m := log[..|log| - 1], log[|log| - 1];
      LastL2Under(front, c);
      if m.contract == c && AboutPrices(m) {
        assert (Under(front, c) + [m])[..|Under(front, c)|] == Under(front, c);
      } else {
        assert Under(front, c) + [] == Under(front, c);
      }
    }
  }

  /** The last level-2 message after one more event. */
  lemma L2Step(d: Desk, e: Event, id: uint32, c: string)
    requires Owns(d.books, id, c)
    ensures var t, m := DeskStep(d, e), LastL2(DeskStep(d, e).sent, c);
            if Lands(d.books, e, id) then id in t.books && m.Some? && Depicts(m.value, t.books[id])
            else m == LastL2(d.sent, c)
  {
    var t := DeskStep(d, e);
    var ms := StepSays(d, e, id, c);
    LastL2Under(t.sent, c);
    LastL2Under(d.sent, c);
    LastL2Concat(Under(d.sent, c), ms, c);
    LastL2Few(ms, c);
    if Lands(d.books, e, id) {
      StepSymbol(d, e, id, c);
    }
  }

  lemma StepSymbol(d: Desk, e: Event, id: uint32, c: string)
    requires Owns(d.books, id, c) && Lands(d.books, e, id)
    ensures id in DeskStep(d, e).books && DeskStep(d, e).books[id].symbol == c
  {
  }

  /** An event that changes the book of `id` without a message: a reset, or a definition of it. */
  predicate ChangesSilently(e: Event, id: uint32) {
    match e
    case OnBook(b) => b.entryType == BookReset
    case OnDefinition(i) => i.securityID == id && i.action != Remove
  }

  lemma OtherEventsKeep(d: Desk, e: Event, id: uint32)
    requires !Lands(d.books, e, id) && !ChangesSilently(e, id)
    ensures At(DeskStep(d, e).books, id) == At(d.books, id)
  {
    match e
    case OnBook(b) =>
      if b.securityID == id && id in d.books {
        AcceptedFits(d.books[id], b);
        assert IsQuote(b) ==> Updated(d.books[id], b) == d.books[id];
      }
    case OnDefinition(i) =>
  }

  /** How many events there are up to and including the last accepted entry of `id`. */
  function LastLanding(d: Desk, es: seq<Event>, id: uint32): (k: nat)
    ensures k <= |es|
  {
    if es == [] then 0
    else if Lands(DeskRun(d, es[..|es| - 1]).books, es[|es| - 1], id) then |es|
    else LastLanding(d, es[..|es| - 1], id)
  }

  /** Event `n` of a run is an accepted entry of `id`. */
  predicate LandsAt(d: Desk, es: seq<Event>, id: uint32, n: nat)
    requires n < |es|
  {
    Lands(DeskRun(d, es[..n]).books, es[n], id)
  }

  lemma LandsInFront(d: Desk, es: seq<Event>, id: uint32, n: nat)
    requires es != [] && n < |es| - 1
    ensures LandsAt(d, es, id, n) <==> LandsAt(d, es[..|es| - 1], id, n)
  {
    assert es[..|es| - 1][..n] == es[..n];
  }

  /** It is what its name says. */
  lemma {:induction false} LandingIsLast(d: Desk, es: seq<Event>, id: uint32)
    ensures var k := LastLanding(d, es, id);
            && (k > 0 ==> LandsAt(d, es, id, k - 1))
            && forall n :: k <= n < |es| ==> !LandsAt(d, es, id, n)
  {
    if es != [] {
      var front, k := es[..|es| - 1], LastLanding(d, es, id);
      if k < |es| {
        LandingIsLast(d, front, id);
        forall n | k <= n < |es|
          ensures !LandsAt(d, es, id, n)
        {
          if n < |front| {
            LandsInFront(d, es, id, n);
          }
        }
        if 0 < k {
          LandsInFront(d, es, id, k - 1);
        }
      }
    }
  }

  /** Over any run, the last level-2 message under the symbol of a security shows its book as it was right after the
      last accepted entry; without one no message was added. */
  lemma {:induction false} LastL2ShowsLanding(d: Desk, es: seq<Event>, id: uint32, c: string)
    requires Owns(d.books, id, c) && KeepsSymbol(es, id, c)
    ensures var k, m := LastLanding(d, es, id), LastL2(DeskRun(d, es).sent, c);
            if k == 0 then m == LastL2(d.sent, c)
            else
              var shown := DeskRun(d, es[..k]).books;
              id in shown && m.Some? && Depicts(m.value, shown[id])
  {
    if es != [] {
      var front, e := es[..|es| - 1], es[|es| - 1];
      LastL2ShowsLanding(d, front, id, c);
      RunOwns(d, front, id, c);
      L2Step(DeskRun(d, front), e, id, c);
      if Lands(DeskRun(d, front).books, e, id) {
        assert es[..|es|] == es;
      } else {
        assert es[..LastLanding(d, front, id)] == front[..LastLanding(d, front, id)];
      }
    }
  }

  /** Since event `k` nothing has changed the book of `id` without a message. */
  predicate NoSilentChange(es: seq<Event>, k: nat, id: uint32) {
    forall n :: k <= n < |es| ==> !ChangesSilently(es[n], id)
  }

  lemma {:induction false} BookStaysSince(d: Desk, es: seq<Event>, k: nat, id: uint32)
    requires LastLanding(d, es, id) <= k <= |es| && NoSilentChange(es, k, id)
    ensures At(DeskRun(d, es).books, id) == At(DeskRun(d, es[..k]).books, id)
  {
    if k == |es| {
      assert es[..k] == es;
    } else {
      var front, e := es[..|es| - 1], es[|es| - 1];
      assert front[..k] == es[..k];
      BookStaysSince(d, front, k, id);
      OtherEventsKeep(DeskRun(d, front), e, id);
    }
  }

  /** Hence it shows the current book whenever an accepted entry was the last event that changed the security. */
  lemma LastL2IsCurrent(d: Desk, es: seq<Event>, id: uint32, c: string)
    requires Owns(d.books, id, c) && KeepsSymbol(es, id, c)
    requires LastLanding(d, es, id) > 0 && NoSilentChange(es, LastLanding(d, es, id), id)
    ensures var after := DeskRun(d, es);
            && id in after.books && LastL2(after.sent, c).Some?
            && Depicts(LastL2(after.sent, c).value, after.books[id])
  {
    LastL2ShowsLanding(d, es, id, c);
    BookStaysSince(d, es, LastLanding(d, es, id), id);
  }
}
