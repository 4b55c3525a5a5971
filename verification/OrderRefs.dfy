/** Order references of the CTP trader: allocation on insert, search on cancel, lookup in callbacks. */
module OrderRefs {
  import opened Types
  import opened Decimal
  import opened OrderedSets

  /** An order that was sent: its reference and the client's own id. */
  datatype Placed = Placed(ref: int, id: string)

  /** `log` lists every insert; it only records history. */
  datatype Orders = Orders(maxOrderRef: int, index: map<int, string>, log: seq<Placed>)

  datatype Action = Login(maxOrderRef: string) | Insert(id: string)

  /** A login continues after the highest reference that the exchange knows; an insert takes the next one. */
  function Act(o: Orders, a: Action): Orders {
    match a
    case Login(text) => o.(maxOrderRef := Atoi(text) + 1)
    case Insert(id) =>
      Orders(o.maxOrderRef + 1, o.index[o.maxOrderRef := id], o.log + [Placed(o.maxOrderRef, id)])
  }

  /** Before the first login the next reference is whatever the memory held. */
  function Run(initial: int, acts: seq<Action>): Orders {
    if acts == [] then Orders(initial, map[], []) else Act(Run(initial, acts[..|acts| - 1]), acts[|acts| - 1])
  }

  /** The client id that a callback on an order reports. */
  function Reported(index: map<int, string>, orderRef: string, orderSysID: string): string {
    if Atoi(orderRef) in index then index[Atoi(orderRef)] else orderRef + "|" + orderSysID
  }

  /** `r` is the lowest reference under which `id` is filed. */
  ghost predicate IsFound(index: map<int, string>, id: string, r: Option<int>) {
    match r
    case None => forall k :: k in index ==> index[k] != id
    case Some(ref) => ref in index && index[ref] == id && forall k :: k in index && k < ref ==> index[k] != id
  }

  /* ---------- what the index holds ---------- */

  /** The position of the last insert under `ref`. */
  function LastUnder(log: seq<Placed>, ref: int): (i: Option<nat>)
    ensures i.Some? ==> i.value < |log| && log[i.value].ref == ref
    ensures forall j :: (if i.Some? then i.value + 1 else 0) <= j < |log| ==> log[j].ref != ref
  {
    if log == [] then None
    else if log[|log| - 1].ref == ref then Some(|log| - 1)
    else LastUnder(log[..|log| - 1], ref)
  }

  /** `ref` is filed under the id of the last insert that was given it. */
  predicate FilesLast(o: Orders, ref: int) {
    match LastUnder(o.log, ref)
    case None => ref !in o.index
    case Some(i) => ref in o.index && o.index[ref] == o.log[i].id
  }

  lemma FilesLastStays(o: Orders, a: Action, ref: int)
    requires FilesLast(o, ref)
    ensures FilesLast(Act(o, a), ref)
  {
    if a.Insert? {
      LastUnderMore(o.log, Placed(o.maxOrderRef, a.id), ref);
    }
  }

  lemma LastUnderMore(log: seq<Placed>, p: Placed, ref: int)
    ensures LastUnder(log + [p], ref) == if p.ref == ref then Some(|log|) else LastUnder(log, ref)
  {
    assert (log + [p])[..|log|] == log;
  }

  /** Over any run, with or without further logins, the index holds the last insert of each reference. */
  lemma {:induction false} IndexHoldsLast(initial: int, acts: seq<Action>, ref: int)
    ensures FilesLast(Run(initial, acts), ref)
  {
    if acts != [] {
      IndexHoldsLast(initial, acts[..|acts| - 1], ref);
      FilesLastStays(Run(initial, acts[..|acts| - 1]), acts[|acts| - 1], ref);
    }
  }

  lemma IndexHoldsEveryLast(initial: int, acts: seq<Action>)
    ensures forall ref :: FilesLast(Run(initial, acts), ref)
  {
    forall ref
      ensures FilesLast(Run(initial, acts), ref)
    {
      IndexHoldsLast(initial, acts, ref);
    }
  }

  /** A callback reports the id of the last order that got its reference. */
  lemma ReportedIsLast(o: Orders, i: nat, sysId: string)
    requires i < |o.log| && FilesLast(o, o.log[i].ref)
    ensures LastUnder(o.log, o.log[i].ref).Some?
    ensures Reported(o.index, Text(o.log[i].ref, 10), sysId) == o.log[LastUnder(o.log, o.log[i].ref).value].id
  {
    AtoiInvertsItoa(o.log[i].ref, "");
    assert Text(o.log[i].ref, 10) + "" == Text(o.log[i].ref, 10);
  }

  /** No two orders with different ids share a reference. */
  ghost predicate NoClash(log: seq<Placed>) {
    forall i, j :: 0 <= i < j < |log| && log[i].ref == log[j].ref ==> log[i].id == log[j].id
  }

  ghost predicate CallbacksRight(o: Orders, sysId: string) {
    forall i :: 0 <= i < |o.log| ==> Reported(o.index, Text(o.log[i].ref, 10), sysId) == o.log[i].id
  }

  lemma RightIsNoClash(o: Orders, sysId: string)
    requires forall ref :: FilesLast(o, ref)
    ensures CallbacksRight(o, sysId) <==> NoClash(o.log)
  {
    forall i | 0 <= i < |o.log|
      ensures LastUnder(o.log, o.log[i].ref).Some?
      ensures Reported(o.index, Text(o.log[i].ref, 10), sysId) == o.log[LastUnder(o.log, o.log[i].ref).value].id
    {
      ReportedIsLast(o, i, sysId);
    }
    if CallbacksRight(o, sysId) {
      forall i, j | 0 <= i < j < |o.log| && o.log[i].ref == o.log[j].ref
        ensures o.log[i].id == o.log[j].id
      {
        assert Reported(o.index, Text(o.log[i].ref, 10), sysId) == o.log[i].id;
      }
    }
  }

  /** Over any run, every callback reports the id that its order was placed with exactly when no reference was
      given to two orders with different ids. */
  lemma CallbacksRightExactly(initial: int, acts: seq<Action>, sysId: string)
    ensures CallbacksRight(Run(initial, acts), sysId) <==> NoClash(Run(initial, acts).log)
  {
    IndexHoldsEveryLast(initial, acts);
    RightIsNoClash(Run(initial, acts), sysId);
  }

  /** A login whose number is at least every reference used so far; without any order that is any login. */
  ghost predicate Continues(o: Orders, a: Action) {
    a.Login? ==> forall i :: 0 <= i < |o.log| ==> o.log[i].ref <= Atoi(a.maxOrderRef)
  }

  ghost predicate AllContinue(initial: int, acts: seq<Action>) {
    forall n :: 0 <= n < |acts| ==> Continues(Run(initial, acts[..n]), acts[n])
  }

  ghost predicate Climbing(o: Orders) {
    && (forall i, j :: 0 <= i < j < |o.log| ==> o.log[i].ref < o.log[j].ref)
    && (forall i :: 0 <= i < |o.log| ==> o.log[i].ref < o.maxOrderRef)
  }

  lemma ClimbOn(o: Orders, a: Action)
    requires Climbing(o) && Continues(o, a)
    ensures Climbing(Act(o, a))
  {
  }

  /** References climb when no login sets the counter back. */
  lemma {:induction false} ReferencesClimb(initial: int, acts: seq<Action>)
    requires AllContinue(initial, acts)
    ensures Climbing(Run(initial, acts))
  {
    if acts != [] {
      var n := |acts| - 1;
      var front := acts[..n];
      forall m | 0 <= m < n
        ensures Continues(Run(initial, front[..m]), front[m])
      {
        assert front[..m] == acts[..m] && Continues(Run(initial, acts[..m]), acts[m]);
      }
      ReferencesClimb(initial, front);
      assert Continues(Run(initial, acts[..n]), acts[n]);
      ClimbOn(Run(initial, front), acts[n]);
    }
  }

  /** The first order placed with `id`. */
  function FirstWith(log: seq<Placed>, id: string): (i: nat)
    ensures i <= |log| && (i < |log| ==> log[i].id == id)
    ensures forall j :: 0 <= j < i ==> log[j].id != id
  {
    if log == [] || log[0].id == id then 0 else 1 + FirstWith(log[1..], id)
  }

  /** Climbing references are found by the id of the first order placed with it. */
  lemma FoundIsFirst(o: Orders, id: string, r: Option<int>)
    requires Climbing(o) && IsFound(o.index, id, r)
    requires forall ref :: FilesLast(o, ref)
    ensures r == if FirstWith(o.log, id) < |o.log| then Some(o.log[FirstWith(o.log, id)].ref) else None
  {
    var first := FirstWith(o.log, id);
    if first < |o.log| {
      assert FilesLast(o, o.log[first].ref) && LastUnder(o.log, o.log[first].ref) == Some(first);
    }
    if r.Some? {
      assert FilesLast(o, r.value);
      var i := LastUnder(o.log, r.value).value;
      assert first <= i;
    }
  }

  /** When no login sets the counter back, every callback reports its own order, and the search for an id finds
      the reference of the first order placed with it. */
  lemma CorrelationHolds(initial: int, acts: seq<Action>, id: string, sysId: string, r: Option<int>)
    requires AllContinue(initial, acts) && IsFound(Run(initial, acts).index, id, r)
    ensures CallbacksRight(Run(initial, acts), sysId)
    ensures var log := Run(initial, acts).log;
            r == if FirstWith(log, id) < |log| then Some(log[FirstWith(log, id)].ref) else None
  {
    ReferencesClimb(initial, acts);
    CallbacksRightExactly(initial, acts, sysId);
    IndexHoldsEveryLast(initial, acts);
    FoundIsFirst(Run(initial, acts), id, r);
  }

  /** So the cancel of an order finds it exactly when no earlier order has the same client id. */
  lemma CancelFindsOwnExactly(initial: int, acts: seq<Action>, i: nat, r: Option<int>)
    requires AllContinue(initial, acts) && i < |Run(initial, acts).log|
    requires IsFound(Run(initial, acts).index, Run(initial, acts).log[i].id, r)
    ensures var log := Run(initial, acts).log;
            r == Some(log[i].ref) <==> forall j :: 0 <= j < i ==> log[j].id != log[i].id
  {
    var o := Run(initial, acts);
    ReferencesClimb(initial, acts);
    IndexHoldsEveryLast(initial, acts);
    OwnIsFirst(o, i, r);
  }

  lemma OwnIsFirst(o: Orders, i: nat, r: Option<int>)
    requires Climbing(o) && i < |o.log| && IsFound(o.index, o.log[i].id, r)
    requires forall ref :: FilesLast(o, ref)
    ensures r == Some(o.log[i].ref) <==> forall j :: 0 <= j < i ==> o.log[j].id != o.log[i].id
  {
    FoundIsFirst(o, o.log[i].id, r);
    assert FirstWith(o.log, o.log[i].id) <= i;
  }

  /** After a login that sets the counter back, the callback on an old order reports a new one. */
  lemma ReloginConfuses()
    ensures var o := Run(0, [Login("7"), Insert("a"), Login("7"), Insert("b")]);
            && o.log == [Placed(8, "a"), Placed(8, "b")]
            && Reported(o.index, "8", "") == "b"
  {
    var acts := [Login("7"), Insert("a"), Login("7"), Insert("b")];
    assert acts[..3][..2] == acts[..2] && acts[..2][..1] == acts[..1] && acts[..1][..0] == [];
    assert "7"[1..] == "" && Atoi("7") == 7 && "8"[1..] == "" && Atoi("8") == 8;
    assert Run(0, acts[..1]) == Orders(8, map[], []);
    assert Run(0, acts[..2]) == Orders(9, map[8 := "a"], [Placed(8, "a")]);
    assert Run(0, acts[..3]) == Orders(8, map[8 := "a"], [Placed(8, "a")]);
  }

  /* ---------- references in a row ---------- */

  function Inserts(ids: seq<string>): seq<Action> {
    seq(|ids|, i requires 0 <= i < |ids| => Insert(ids[i]))
  }

  /** The orders placed from some state on get consecutive references, starting with the next one. */
  ghost predicate InARow(before: Orders, after: Orders, ids: seq<string>) {
    && after.maxOrderRef == before.maxOrderRef + |ids|
    && |after.log| == |before.log| + |ids| && after.log[..|before.log|] == before.log
    && forall k :: 0 <= k < |ids| ==> after.log[|before.log| + k] == Placed(before.maxOrderRef + k, ids[k])
  }

  /** Whatever came before, orders between two logins get the references in a row, each under its own id. */
  lemma {:induction false} ReferencesInARow(initial: int, acts: seq<Action>, ids: seq<string>)
    ensures InARow(Run(initial, acts), Run(initial, acts + Inserts(ids)), ids)
  {
    if ids == [] {
      assert acts + Inserts(ids) == acts;
    } else {
      var fewer, id := ids[..|ids| - 1], ids[|ids| - 1];
      ReferencesInARow(initial, acts, fewer);
      OneMoreInsert(initial, acts, fewer, id);
      assert fewer + [id] == ids;
      RowGoesOn(Run(initial, acts), Run(initial, acts + Inserts(fewer)), fewer, id);
    }
  }

  lemma OneMoreInsert(initial: int, acts: seq<Action>, ids: seq<string>, id: string)
    ensures Run(initial, acts + Inserts(ids + [id])) == Act(Run(initial, acts + Inserts(ids)), Insert(id))
  {
    var all := acts + Inserts(ids + [id]);
    assert all[..|all| - 1] == acts + Inserts(ids) && all[|all| - 1] == Insert(id);
  }

  lemma RowGoesOn(before: Orders, o: Orders, ids: seq<string>, id: string)
    requires InARow(before, o, ids)
    ensures InARow(before, Act(o, Insert(id)), ids + [id])
  {
  }

  /** After a login they begin one above the number that the exchange reports. */
  lemma LoginContinues(initial: int, acts: seq<Action>, text: string, ids: seq<string>, k: nat)
    requires k < |ids|
    ensures var before, after := Run(initial, acts), Run(initial, acts + [Login(text)] + Inserts(ids));
            && |after.log| == |before.log| + |ids|
            && after.log[|before.log| + k] == Placed(Atoi(text) + 1 + k, ids[k])
  {
    assert (acts + [Login(text)])[..|acts|] == acts;
    ReferencesInARow(initial, acts + [Login(text)], ids);
  }

  /* ---------- orders of others ---------- */

  /** What is reported for an order that this client did not place: reference, bar, system id. */
  lemma ForeignIsJoined(index: map<int, string>, orderRef: string, sysId: string)
    requires Atoi(orderRef) !in index
    ensures var id, n := Reported(index, orderRef, sysId), |orderRef|;
            |id| == n + 1 + |sysId| && id[..n] == orderRef && id[n] == '|' && id[n + 1..] == sysId
  {
  }

  /** Such an id tells reference and system id apart, as long as no reference has a bar in it. */
  lemma ForeignIsUnambiguous(index: map<int, string>, ref: string, sysId: string, ref': string, sysId': string)
    requires Atoi(ref) !in index && Atoi(ref') !in index && '|' !in ref && '|' !in ref'
    ensures Reported(index, ref, sysId) == Reported(index, ref', sysId') <==> ref == ref' && sysId == sysId'
  {
    FirstBar(index, ref, sysId);
    FirstBar(index, ref', sysId');
    ForeignIsJoined(index, ref, sysId);
    ForeignIsJoined(index, ref', sysId');
    if Reported(index, ref, sysId) == Reported(index, ref', sysId') {
      assert |ref| == |ref'|;
    }
  }

  lemma FirstBar(index: map<int, string>, ref: string, sysId: string)
    requires Atoi(ref) !in index && '|' !in ref
    ensures var id := Reported(index, ref, sysId);
            && |ref| < |id| && id[|ref|] == '|'
            && forall i :: 0 <= i < |ref| ==> id[i] != '|'
  {
    var id := Reported(index, ref, sysId);
    assert forall i :: 0 <= i < |ref| ==> id[i] == ref[i];
  }

  /* ---------- the trader ---------- */

  /** The text that a C string holds: everything before the terminator. */
  function CString(a: seq<char>): string {
    if a == [] || a[0] == NUL then [] else [a[0]] + CString(a[1..])
  }

  class CtpTraderSpi {
    var maxOrderRef: int32
    var clientOrdersIndex: map<int, string>
    ghost const initial: int
    /** Every login and insert so far. */
    ghost var acts: seq<Action>

    ghost predicate Valid()
      reads this
    {
      var o := Run(initial, acts);
      && o.maxOrderRef == maxOrderRef && o.index == clientOrdersIndex
      && forall k :: k in clientOrdersIndex ==> -0x8000_0000 <= k <= 0x7FFF_FFFF
    }

    constructor (garbage: int32)
      ensures Valid() && initial == garbage && acts == []
    {
      maxOrderRef, clientOrdersIndex := garbage, map[];
      initial, acts := garbage, [];
    }

    method OnRspUserLogin(ok: bool, maxRef: string)
      requires Valid() && -0x8000_0000 <= Atoi(maxRef) < 0x7FFF_FFFF
      modifies this
      ensures Valid() && acts == old(acts) + if ok then [Login(maxRef)] else []
      ensures maxOrderRef == if ok then Atoi(maxRef) + 1 else old(maxOrderRef)
    {
      if ok {
        maxOrderRef := Atoi(maxRef) + 1;
        acts := acts + [Login(maxRef)];
        assert acts[..|acts| - 1] == old(acts);
      }
    }

    /** The order field gets the text of the reference that the order was filed under. */
    method ReqOrderInsert(id: string, orderRef: array<char>)
      requires Valid() && orderRef.Length == 13 && maxOrderRef < 0x7FFF_FFFF
      modifies this, orderRef
      ensures Valid() && acts == old(acts) + [Insert(id)]
      ensures CString(orderRef[..]) == Text(old(maxOrderRef), 10) && maxOrderRef == old(maxOrderRef) + 1
      ensures old(maxOrderRef) in clientOrdersIndex && clientOrdersIndex[old(maxOrderRef)] == id
    {
      WriteRef(maxOrderRef, orderRef);
      clientOrdersIndex := clientOrdersIndex[maxOrderRef := id];
      maxOrderRef := maxOrderRef + 1;
      acts := acts + [Insert(id)];
      assert acts[..|acts| - 1] == old(acts);
    }

    /** Looks through the index by ascending reference. */
    method FindRef(id: string) returns (found: Option<int>)
      ensures IsFound(clientOrdersIndex, id, found)
    {
      var rest := clientOrdersIndex.Keys;
      while rest != {}
        invariant rest <= clientOrdersIndex.Keys
        invariant forall k, l :: k in clientOrdersIndex && k !in rest && l in rest ==> k < l
        invariant forall k :: k in clientOrdersIndex && k !in rest ==> clientOrdersIndex[k] != id
        decreases rest
      {
        SmallestExists(rest);
        var ref :| ref in rest && forall k :: k in rest ==> ref <= k;
        if clientOrdersIndex[ref] == id {
          return Some(ref);
        }
        rest := rest - {ref};
      }
      return None;
    }

    /** A cancel names the order by the reference it was filed under, or is not sent. */
    method ReqOrderAction(id: string, orderRef: array<char>) returns (sent: bool)
      requires Valid() && orderRef.Length == 13
      modifies orderRef
      ensures exists r :: IsFound(clientOrdersIndex, id, r) && sent == r.Some?
                          && (sent ==> CString(orderRef[..]) == Text(r.value, 10))
      ensures !sent ==> orderRef[..] == old(orderRef[..])
    {
      var found := FindRef(id);
      if found.None? {
        return false;
      }
      WriteRef(found.value, orderRef);
      return true;
    }

    method WriteRef(ref: int32, orderRef: array<char>)
      requires orderRef.Length == 13
      modifies orderRef
      ensures CString(orderRef[..]) == Text(ref, 10)
    {
      TextFits(ref);
      ghost var behind := orderRef[..][|Text(ref, 10)| + 1..];
      Itoa(ref, orderRef, 10);
      TextIsCString(ref, behind);
    }

    method OnOrder(orderRef: string, orderSysID: string) returns (id: string)
      ensures id == Reported(clientOrdersIndex, orderRef, orderSysID)
      ensures Atoi(orderRef) !in clientOrdersIndex ==>
                |id| == |orderRef| + 1 + |orderSysID| && id[..|orderRef|] == orderRef
                && id[|orderRef|] == '|' && id[|orderRef| + 1..] == orderSysID
    {
      if Atoi(orderRef) !in clientOrdersIndex {
        id := orderRef;
        id := id + "|";
        id := id + orderSysID;
      } else {
        id := clientOrdersIndex[Atoi(orderRef)];
      }
    }
  }

  lemma {:induction false} CStringOf(s: string, behind: seq<char>)
    requires forall k :: 0 <= k < |s| ==> s[k] != NUL
    ensures CString(s + [NUL] + behind) == s
  {
    if s != [] {
      CStringOf(s[1..], behind);
      assert (s + [NUL] + behind)[1..] == s[1..] + [NUL] + behind;
    }
  }

  lemma {:induction false} DigitsAreDigits(n: nat)
    ensures forall k :: 0 <= k < |Digits(n, 10)| ==> IsDigit(Digits(n, 10)[k])
  {
    if n >= 10 {
      DigitsAreDigits(Quotient(n, 10));
    }
  }

  lemma TextIsCString(ref: int, behind: seq<char>)
    ensures CString(Text(ref, 10) + [NUL] + behind) == Text(ref, 10)
  {
    DigitsAreDigits(Magnitude(ref));
    CStringOf(Text(ref, 10), behind);
  }
}
