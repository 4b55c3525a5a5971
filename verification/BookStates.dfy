/** The book state controller: deques that are edited in place, proved to do what `BookLevels` reads. */
module BookStates {
  import opened Types
  import opened BookLevels

  class BookState {
    const bookType: uint8
    const securityID: uint32
    var symbol: string
    var marketDepth: uint8
    var bid: Side
    var ask: Side

    constructor (bookType: uint8, securityID: uint32, symbol: string, marketDepth: uint8)
      ensures Value() == BookValue(bookType, securityID, symbol, marketDepth, [], [])
    {
      this.bookType, this.securityID, this.symbol, this.marketDepth := bookType, securityID, symbol, marketDepth;
      bid, ask := [], [];
    }

    function Value(): BookValue
      reads this
    {
      BookValue(bookType, securityID, symbol, marketDepth, bid, ask)
    }

    /** The deque that an entry of this type works on. */
    function Target(entryType: EntryType): Side
      reads this
    {
      if entryType == Bid then bid else ask
    }

    method SetTarget(entryType: EntryType, s: Side)
      modifies this
      ensures Value() == WithSide(old(Value()), entryType, s)
    {
      if entryType == Bid {
        bid := s;
      } else {
        ask := s;
      }
    }
  }

  class BookStateController {
    var states: map<uint32, BookState>
    /** The book states, as the frame of everything that touches one. */
    ghost var owned: set<BookState>

    /** Each security has a book state of its own, and no side is longer than its depth. */
    ghost predicate Valid()
      reads this, owned
    {
      forall k :: k in states ==> states[k] in owned && states[k].securityID == k && WithinDepth(states[k].Value())
    }

    function View(): Books
      requires Valid()
      reads this, owned
    {
      map k | k in states :: states[k].Value()
    }

    constructor ()
      ensures Valid() && View() == map[] && owned == {}
    {
      states, owned := map[], {};
    }

    static method CheckPriceLevel(b: Book, state: BookState, action: UpdateAction) returns (ok: bool)
      ensures action != Overlay && action != NullAction ==>
                ok == Accepted(state.marketDepth, state.Target(b.entryType), ToOp(b).(action := action))
    {
      match action {
        case New | DeleteFrom =>
          if b.priceLevel == 0 || b.priceLevel > state.marketDepth {
            return false;
          }
        case Change | Delete =>
          if b.priceLevel == 0 || b.priceLevel > state.marketDepth {
            return false;
          }
          if |state.Target(b.entryType)| < b.priceLevel {
            return false;
          }
        case _ =>
      }
      return true;
    }

    static method NewPrice(b: Book, state: BookState) returns (ok: bool)
      requires 1 <= b.priceLevel <= state.marketDepth
      modifies state
      ensures ok
      ensures state.Value() == WithSide(old(state.Value()), b.entryType,
                Apply(state.marketDepth, old(state.Target(b.entryType)), ToOp(b).(action := New)))
    {
      var depth, target := state.marketDepth, state.Target(b.entryType);
      ghost var before := target;
      var newPrice := BookPrice(b.numberOfOrders, b.entrySize, b.entryPx);
      var currentSize := |target|;
      var newSize;
      if b.priceLevel <= currentSize + 1 {
        target := target[..b.priceLevel - 1] + [newPrice] + target[b.priceLevel - 1..];
        newSize := currentSize + 1;
      } else {
        target := target + seq(b.priceLevel - 1 - currentSize, _ => BLANK);
        target := target + [newPrice];
        newSize := b.priceLevel;
      }
      if newSize > depth {
        target := target[..depth];
      }
      assert target == Apply(depth, before, ToOp(b).(action := New));
      state.SetTarget(b.entryType, target);
      return true;
    }

    static method ChangePrice(b: Book, state: BookState) returns (ok: bool)
      requires 1 <= b.priceLevel <= state.marketDepth && b.priceLevel <= |state.Target(b.entryType)|
      modifies state
      ensures ok
      ensures state.Value() == WithSide(old(state.Value()), b.entryType,
                Apply(state.marketDepth, old(state.Target(b.entryType)), ToOp(b).(action := Change)))
      ensures state.Target(b.entryType) == old(state.Target(b.entryType))[b.priceLevel - 1 :=
                BookPrice(b.numberOfOrders, b.entrySize, b.entryPx)]
    {
      var target := state.Target(b.entryType);
      ghost var before := target;
      target := target[b.priceLevel - 1 := BookPrice(b.numberOfOrders, b.entrySize, b.entryPx)];
      assert target == Apply(state.marketDepth, before, ToOp(b).(action := Change));
      state.SetTarget(b.entryType, target);
      return true;
    }

    static method DeletePrice(b: Book, state: BookState) returns (ok: bool)
      requires 1 <= b.priceLevel <= state.marketDepth && b.priceLevel <= |state.Target(b.entryType)|
      modifies state
      ensures ok
      ensures state.Value() == WithSide(old(state.Value()), b.entryType,
                Apply(state.marketDepth, old(state.Target(b.entryType)), ToOp(b).(action := Delete)))
    {
      var target := state.Target(b.entryType);
      ghost var before := target;
      target := target[..b.priceLevel - 1] + target[b.priceLevel..];
      assert target == Apply(state.marketDepth, before, ToOp(b).(action := Delete));
      state.SetTarget(b.entryType, target);
      return true;
    }

    static method DeleteAllPrice(b: Book, state: BookState) returns (ok: bool)
      modifies state
      ensures ok
      ensures state.Value() == WithSide(old(state.Value()), b.entryType,
                Apply(state.marketDepth, old(state.Target(b.entryType)), ToOp(b).(action := DeleteThru)))
    {
      assert [] == Apply(state.marketDepth, state.Target(b.entryType), ToOp(b).(action := DeleteThru));
      state.SetTarget(b.entryType, []);
      return true;
    }

    static method DeleteTopPrice(b: Book, state: BookState) returns (ok: bool)
      requires 1 <= b.priceLevel <= state.marketDepth
      modifies state
      ensures ok
      ensures state.Value() == WithSide(old(state.Value()), b.entryType,
                Apply(state.marketDepth, old(state.Target(b.entryType)), ToOp(b).(action := DeleteFrom)))
    {
      var target := state.Target(b.entryType);
      ghost var before := target;
      target := target[Min(b.priceLevel, |target|)..];
      assert target == Apply(state.marketDepth, before, ToOp(b).(action := DeleteFrom));
      state.SetTarget(b.entryType, target);
      return true;
    }

    static method UpdatePrice(b: Book, state: BookState) returns (ok: bool)
      modifies state
      ensures ok == Takes(old(state.Value()), b)
      ensures state.Value() == Updated(old(state.Value()), b)
    {
      match b.kind
      case Snapshot =>
        ok := CheckPriceLevel(b, state, New);
        if ok {
          ok := NewPrice(b, state);
        }
      case Increment =>
        ok := CheckPriceLevel(b, state, b.updateAction);
        if ok {
          match b.updateAction
          case New => ok := NewPrice(b, state);
          case Change => ok := ChangePrice(b, state);
          case Delete => ok := DeletePrice(b, state);
          case DeleteThru => ok := DeleteAllPrice(b, state);
          case DeleteFrom => ok := DeleteTopPrice(b, state);
          case _ => ok := false;
        }
      case OtherKind =>
        ok := false;
    }

    /** Flag 1: reset, 2: book state (null when the entry was rejected), 3: trade, 0: nothing to do. */
    method ModifyState(b: Book) returns (flag: nat, state: BookState?)
      requires Valid()
      modifies owned
      ensures Valid() && states == old(states) && owned == old(owned)
      ensures View() == Modified(old(View()), b)
      ensures flag == FlagOf(old(View()), b)
      ensures state != null <==> flag == 2 && Takes(old(View())[b.securityID], b)
      ensures state != null ==> b.securityID in states && state == states[b.securityID]
    {
      if b.entryType == BookReset {
        ResetState();
        return 1, null;
      }
      if b.securityID !in states {
        return 0, null;
      }
      if b.entryType == Bid || b.entryType == Offer {
        var target := states[b.securityID];
        UpdateKeepsDepth(target.Value(), b);
        var ok := UpdatePrice(b, target);
        assert View() == Modified(old(View()), b);
        if ok {
          return 2, target;
        }
        return 2, null;
      }
      return if b.entryType == Trade then 3 else 0, null;
    }

    method ResetState()
      requires Valid()
      modifies owned
      ensures Valid() && states == old(states) && owned == old(owned)
      ensures View() == Cleared(old(View()))
    {
      var rest := states.Keys;
      while rest != {}
        invariant states == old(states) && owned == old(owned) && rest <= states.Keys
        invariant forall k :: k in states && k in rest ==> states[k].Value() == old(states[k].Value())
        invariant forall k :: k in states && k !in rest ==>
                    states[k].Value() == old(states[k].Value()).(bid := [], ask := [])
        decreases rest
      {
        var k :| k in rest;
        states[k].bid, states[k].ask := [], [];
        rest := rest - {k};
      }
    }

    method CreateOrShrink(i: Instrument)
      requires Valid()
      modifies this, owned
      ensures Valid() && fresh(owned - old(owned))
      ensures View() == Defined(old(View()), i)
    {
      if i.action == Remove {
        states := states - {i.securityID};
        assert View() == old(View()) - {i.securityID};
      } else if i.securityID !in states {
        Create(i);
      } else {
        Redefine(i);
      }
    }

    method Create(i: Instrument)
      requires Valid() && i.securityID !in states
      modifies this
      ensures Valid() && fresh(owned - old(owned))
      ensures View() == old(View())[i.securityID := BookValue(1, i.securityID, i.symbol, i.depth, [], [])]
    {
      var created := new BookState(1, i.securityID, i.symbol, i.depth);
      states, owned := states[i.securityID := created], owned + {created};
      assert forall k :: k in old(states) ==> states[k].Value() == old(states[k].Value());
    }

    /** Updates the name and adjusts to the new depth. */
    method Redefine(i: Instrument)
      requires Valid() && i.securityID in states
      modifies owned
      ensures Valid() && states == old(states) && owned == old(owned)
      ensures View() == old(View())[i.securityID := Shrunk(old(View())[i.securityID], i.depth).(symbol := i.symbol)]
    {
      var state := states[i.securityID];
      state.symbol := i.symbol;
      Shrink(state, i.depth);
      assert forall k :: k in states && k != i.securityID ==> states[k].Value() == old(states[k].Value());
    }

    static method Shrink(state: BookState, newDepth: uint8)
      modifies state
      ensures state.Value() == Shrunk(old(state.Value()), newDepth)
    {
      state.marketDepth := newDepth;
      if |state.bid| > newDepth {
        state.bid := state.bid[..newDepth];
      }
      if |state.ask| > newDepth {
        state.ask := state.ask[..newDepth];
      }
    }
  }

  /** The first component of what the controller reports about an entry. */
  function FlagOf(bs: Books, b: Book): nat {
    if b.entryType == BookReset then 1
    else if b.securityID !in bs then 0
    else if IsQuote(b) then 2
    else if b.entryType == Trade then 3
    else 0
  }
}
