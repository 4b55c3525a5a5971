/** Trade sizes from cumulative volumes. */
module Volume {
  /** A depth record: `volume` is what was traded in the session so far, and `hour` is what the first two
      characters of the update time say. */
  type Traded = x: int | 0 <= x <= 0x7FFF_FFFF

  datatype Tick = Tick(instrument: string, volume: Traded, hour: int)

  /** What is remembered about an instrument. */
  datatype Last = Last(volume: Traded, hour: int)

  datatype Sale = Sale(contract: string, size: int)

  /** The night session begins: the count starts over. */
  predicate NewSession(before: int, now: int) {
    now > 18 && before < 18
  }

  /** The size that a record adds to what is remembered. */
  function Size(m: map<string, Last>, t: Tick): nat {
    if t.instrument !in m || NewSession(m[t.instrument].hour, t.hour) || t.volume <= m[t.instrument].volume
    then 0
    else t.volume - m[t.instrument].volume
  }

  function Remember(m: map<string, Last>, t: Tick): map<string, Last> {
    m[t.instrument := Last(t.volume, t.hour)]
  }

  function After(ts: seq<Tick>): map<string, Last> {
    if ts == [] then map[] else Remember(After(ts[..|ts| - 1]), ts[|ts| - 1])
  }

  /** The sales that the records lead to: one for each positive size. */
  function Sales(ts: seq<Tick>): seq<Sale> {
    if ts == [] then []
    else
      var front, t := ts[..|ts| - 1], ts[|ts| - 1];
      Sales(front) + SaleOf(t, Size(After(front), t))
  }

  function SaleOf(t: Tick, size: int): seq<Sale> {
    if size > 0 then [Sale(t.instrument, size)] else []
  }

  function Sold(sales: seq<Sale>, contract: string): int {
    if sales == [] then 0
    else
      var last := sales[|sales| - 1];
      Sold(sales[..|sales| - 1], contract) + if last.contract == contract then last.size else 0
  }

  /** The records of one instrument. */
  function Own(ts: seq<Tick>, instrument: string): seq<Tick> {
    if ts == [] then []
    else Own(ts[..|ts| - 1], instrument) + if ts[|ts| - 1].instrument == instrument then [ts[|ts| - 1]] else []
  }

  /** The records of one instrument, cut where a new session begins. */
  function Sessions(own: seq<Tick>): (ss: seq<seq<Tick>>)
    ensures |ss| <= |own| && (own != [] ==> ss != [])
    ensures forall i :: 0 <= i < |ss| ==> ss[i] != []
    ensures own != [] ==> var s := ss[|ss| - 1]; s[|s| - 1] == own[|own| - 1]
  {
    if own == [] then []
    else
      var n := |own| - 1;
      var before := Sessions(own[..n]);
      if n == 0 || NewSession(own[n - 1].hour, own[n].hour) then before + [[own[n]]]
      else before[..|before| - 1] + [before[|before| - 1] + [own[n]]]
  }

  /** What was traded in each session: last minus first. */
  function Net(ss: seq<seq<Tick>>): int {
    if ss == [] then 0 else Net(ss[..|ss| - 1]) + Rise(ss[|ss| - 1])
  }

  function Rise(s: seq<Tick>): int {
    if s == [] then 0 else s[|s| - 1].volume - s[0].volume
  }

  /** Cumulative volume never falls inside a session. */
  predicate Rising(s: seq<Tick>) {
    forall i :: 0 < i < |s| ==> s[i - 1].volume <= s[i].volume
  }

  predicate AllRising(ss: seq<seq<Tick>>) {
    forall i :: 0 <= i < |ss| ==> Rising(ss[i])
  }

  /** All records of a list of sessions. */
  function Together(ss: seq<seq<Tick>>): seq<Tick> {
    if ss == [] then [] else Together(ss[..|ss| - 1]) + ss[|ss| - 1]
  }

  /** The night session begins between two records: the hour goes from below 18 to above 18. */
  predicate NightBegins(before: Tick, now: Tick) {
    before.hour < 18 < now.hour
  }

  ghost predicate Unbroken(s: seq<Tick>) {
    forall j :: 0 < j < |s| ==> !NightBegins(s[j - 1], s[j])
  }

  /** One session ends and the next begins with the night session. */
  ghost predicate CutAtNight(s: seq<Tick>, t: seq<Tick>) {
    s != [] && t != [] && NightBegins(s[|s| - 1], t[0])
  }

  ghost predicate EachUnbroken(ss: seq<seq<Tick>>) {
    forall k :: 0 <= k < |ss| ==> ss[k] != [] && Unbroken(ss[k])
  }

  ghost predicate EachCut(ss: seq<seq<Tick>>) {
    forall k :: 0 < k < |ss| ==> CutAtNight(ss[k - 1], ss[k])
  }

  /** The sessions are all the records in order, none has the beginning of a night session inside, and such a beginning
      is what separates them. */
  ghost predicate AreSessions(ss: seq<seq<Tick>>, own: seq<Tick>) {
    && Together(ss) == own
    && EachUnbroken(ss) && EachCut(ss)
  }

  lemma TogetherMore(ss: seq<seq<Tick>>, s: seq<Tick>)
    ensures Together(ss + [s]) == Together(ss) + s
  {
    assert (ss + [s])[..|ss|] == ss;
  }

  lemma UnbrokenMore(s: seq<Tick>, t: Tick)
    requires s != [] && Unbroken(s) && !NightBegins(s[|s| - 1], t)
    ensures Unbroken(s + [t])
  {
    var all := s + [t];
    forall j | 0 < j < |all|
      ensures !NightBegins(all[j - 1], all[j])
    {
      assert j < |s| ==> all[j] == s[j];
    }
  }

  lemma SessionAdded(ss: seq<seq<Tick>>, own: seq<Tick>, t: Tick)
    requires AreSessions(ss, own) && (ss != [] ==> CutAtNight(ss[|ss| - 1], [t]))
    ensures AreSessions(ss + [[t]], own + [t])
  {
    TogetherMore(ss, [t]);
    UnbrokenAdded(ss, t);
    CutAdded(ss, [t]);
  }

  lemma UnbrokenAdded(ss: seq<seq<Tick>>, t: Tick)
    requires EachUnbroken(ss)
    ensures EachUnbroken(ss + [[t]])
  {
    assert Unbroken([t]);
    assert forall k :: 0 <= k < |ss| ==> (ss + [[t]])[k] == ss[k];
  }

  lemma CutAdded(ss: seq<seq<Tick>>, s: seq<Tick>)
    requires EachCut(ss) && (ss != [] ==> CutAtNight(ss[|ss| - 1], s))
    ensures EachCut(ss + [s])
  {
    var all := ss + [s];
    forall k | 0 < k < |all|
      ensures CutAtNight(all[k - 1], all[k])
    {
      if k < |ss| {
        assert CutAtNight(ss[k - 1], ss[k]);
      }
    }
  }

  /** The last session may grow at its end. */
  lemma CutsStay(others: seq<seq<Tick>>, s: seq<Tick>, t: Tick)
    requires s != [] && EachCut(others + [s])
    ensures EachCut(others + [s + [t]])
  {
    var before, after := others + [s], others + [s + [t]];
    assert (s + [t])[0] == s[0];
    forall k | 0 < k < |after|
      ensures CutAtNight(after[k - 1], after[k])
    {
      assert CutAtNight(before[k - 1], before[k]);
    }
  }

  lemma UnbrokenStay(others: seq<seq<Tick>>, s: seq<Tick>, longer: seq<Tick>)
    requires EachUnbroken(others + [s]) && longer != [] && Unbroken(longer)
    ensures EachUnbroken(others + [longer])
  {
    var before, after := others + [s], others + [longer];
    assert forall k :: 0 <= k < |others| ==> before[k] == after[k];
  }

  lemma SessionExtended(others: seq<seq<Tick>>, s: seq<Tick>, own: seq<Tick>, t: Tick)
    requires AreSessions(others + [s], own) && s != [] && !NightBegins(s[|s| - 1], t)
    ensures AreSessions(others + [s + [t]], own + [t])
  {
    assert Unbroken(s) by {
      assert (others + [s])[|others|] == s;
    }
    UnbrokenMore(s, t);
    UnbrokenStay(others, s, s + [t]);
    CutsStay(others, s, t);
    TogetherMore(others, s);
    TogetherMore(others, s + [t]);
  }

  lemma SplitLast<T>(ss: seq<T>) returns (others: seq<T>, s: T)
    requires ss != []
    ensures others == ss[..|ss| - 1] && s == ss[|ss| - 1] && ss == others + [s]
  {
    others, s := ss[..|ss| - 1], ss[|ss| - 1];
  }

  /** The records of an instrument are cut into sessions exactly where its night session begins. */
  lemma {:induction false} SessionsAreCut(own: seq<Tick>)
    ensures AreSessions(Sessions(own), own)
  {
    if own != [] {
      var front, t := own[..|own| - 1], own[|own| - 1];
      assert own == front + [t];
      SessionsAreCut(front);
      SessionsStep(front, t);
      SessionsGoOn(Sessions(front), front, t);
    }
  }

  /** One more record starts a session or extends the last one. */
  lemma SessionsGoOn(before: seq<seq<Tick>>, own: seq<Tick>, t: Tick)
    requires AreSessions(before, own) && (own != [] ==> before != [])
    ensures AreSessions(if StartsSession(own, t) then before + [[t]]
                        else before[..|before| - 1] + [before[|before| - 1] + [t]], own + [t])
  {
    if before != [] {
      var others, s := SplitLast(before);
      TogetherMore(others, s);
      assert own[|own| - 1] == s[|s| - 1];
      if StartsSession(own, t) {
        SessionAdded(before, own, t);
      } else {
        SessionExtended(others, s, own, t);
      }
    } else {
      SessionAdded(before, own, t);
    }
  }

  /** What is remembered about an instrument is its last record, however the instruments interleave. */
  lemma {:induction false} RemembersOwnLast(ts: seq<Tick>, c: string)
    ensures c in After(ts) <==> Own(ts, c) != []
    ensures c in After(ts) ==> var t := Own(ts, c)[|Own(ts, c)| - 1];
                               t.instrument == c && After(ts)[c] == Last(t.volume, t.hour)
  {
    if ts != [] {
      RemembersOwnLast(ts[..|ts| - 1], c);
    }
  }

  lemma SoldMore(sales: seq<Sale>, t: Tick, size: nat, c: string)
    ensures Sold(sales + SaleOf(t, size), c) == Sold(sales, c) + if t.instrument == c then size else 0
  {
    if size > 0 {
      assert (sales + [Sale(t.instrument, size)])[..|sales|] == sales;
    } else {
      assert sales + [] == sales;
    }
  }

  /** Adding a session. */
  lemma NetPush(ss: seq<seq<Tick>>, s: seq<Tick>)
    ensures Net(ss + [s]) == Net(ss) + Rise(s)
  {
    assert (ss + [s])[..|ss|] == ss;
  }

  lemma RisingPush(ss: seq<seq<Tick>>, s: seq<Tick>)
    ensures AllRising(ss + [s]) <==> AllRising(ss) && Rising(s)
  {
    assert (ss + [s])[|ss|] == s;
    assert forall i :: 0 <= i < |ss| ==> (ss + [s])[i] == ss[i];
  }

  lemma RisingLonger(s: seq<Tick>, t: Tick)
    requires s != []
    ensures Rising(s + [t]) <==> Rising(s) && s[|s| - 1].volume <= t.volume
  {
    var longer := s + [t];
    assert longer[|s|] == t && longer[|s| - 1] == s[|s| - 1];
    assert forall i :: 0 <= i < |s| ==> longer[i] == s[i];
  }

  /** Between two cuts of the same records: a session was started, or the last one grew by `more`. */
  ghost predicate Grown(before: seq<seq<Tick>>, after: seq<seq<Tick>>, starts: bool, more: int) {
    && Net(after) == Net(before) + (if starts then 0 else more)
    && (AllRising(after) <==> AllRising(before) && (starts || more >= 0))
  }

  lemma LastSessionGrows(ss: seq<seq<Tick>>, s: seq<Tick>, t: Tick)
    requires s != []
    ensures Grown(ss + [s], ss + [s + [t]], false, t.volume - s[|s| - 1].volume)
  {
    NetPush(ss, s);
    NetPush(ss, s + [t]);
    RisingPush(ss, s);
    RisingPush(ss, s + [t]);
    RisingLonger(s, t);
  }

  lemma SessionStarts(ss: seq<seq<Tick>>, t: Tick)
    ensures forall more :: Grown(ss, ss + [[t]], true, more)
  {
    NetPush(ss, [t]);
    RisingPush(ss, [t]);
  }

  predicate StartsSession(own: seq<Tick>, t: Tick) {
    own == [] || NewSession(own[|own| - 1].hour, t.hour)
  }

  lemma SessionsStep(own: seq<Tick>, t: Tick)
    ensures var before := Sessions(own);
            Sessions(own + [t])
            == if StartsSession(own, t) then before + [[t]]
               else before[..|before| - 1] + [before[|before| - 1] + [t]]
  {
    assert (own + [t])[..|own|] == own;
  }

  function Growth(own: seq<Tick>, t: Tick): int {
    if own == [] then 0 else t.volume - own[|own| - 1].volume
  }

  /** What one more record of an instrument adds to its sessions. */
  lemma SessionsGrow(own: seq<Tick>, t: Tick)
    ensures Grown(Sessions(own), Sessions(own + [t]), StartsSession(own, t), Growth(own, t))
  {
    var before := Sessions(own);
    SessionsStep(own, t);
    if StartsSession(own, t) {
      SessionStarts(before, t);
    } else {
      var others, s := before[..|before| - 1], before[|before| - 1];
      assert before == others + [s];
      LastSessionGrows(others, s, t);
    }
  }

  /** What one more record of an instrument adds to its sales. */
  lemma SizeFromOwn(ts: seq<Tick>, t: Tick)
    ensures var own := Own(ts, t.instrument);
            Size(After(ts), t) == if StartsSession(own, t) || Growth(own, t) <= 0 then 0 else Growth(own, t)
  {
    RemembersOwnLast(ts, t.instrument);
  }

  lemma SoldByRecord(ts: seq<Tick>, t: Tick, c: string)
    ensures Sold(Sales(ts + [t]), c) == Sold(Sales(ts), c) + if t.instrument == c then Size(After(ts), t) else 0
    ensures Own(ts + [t], c) == if t.instrument == c then Own(ts, c) + [t] else Own(ts, c)
  {
    OneMoreTick(ts, t);
    SoldMore(Sales(ts), t, Size(After(ts), t), c);
    assert (ts + [t])[..|ts|] == ts;
    assert Own(ts, c) + [] == Own(ts, c);
  }

  /** Sold quantity against what the sessions add up to. */
  ghost predicate Conserved(sold: int, ss: seq<seq<Tick>>) {
    sold >= Net(ss) && (sold == Net(ss) <==> AllRising(ss))
  }

  lemma StaysConserved(sold: int, before: seq<seq<Tick>>, after: seq<seq<Tick>>, starts: bool, more: int)
    requires Conserved(sold, before) && Grown(before, after, starts, more)
    ensures Conserved(sold + if starts || more <= 0 then 0 else more, after)
  {
  }

  /** Conservation: for any interleaving of instruments, what is reported as sold of one of them is at least the
      sum of last minus first over its sessions, and it is that sum exactly when its cumulative volume never
      falls inside a session. */
  lemma {:induction false} VolumeIsConserved(ts: seq<Tick>, c: string)
    ensures Sold(Sales(ts), c) >= Net(Sessions(Own(ts, c)))
    ensures Sold(Sales(ts), c) == Net(Sessions(Own(ts, c))) <==> AllRising(Sessions(Own(ts, c)))
  {
    AllConserved(ts, c);
  }

  /** What two records of an instrument in a row add: the rise of its volume, unless a night session begins. */
  function Added(before: Tick, now: Tick): nat {
    if NightBegins(before, now) || now.volume <= before.volume then 0 else now.volume - before.volume
  }

  function AddedAll(own: seq<Tick>): nat {
    if |own| < 2 then 0 else AddedAll(own[..|own| - 1]) + Added(own[|own| - 2], own[|own| - 1])
  }

  /** Record by record: what is reported as sold is what the rises of its volume add up to, falls and the beginnings of
      night sessions left out, even if volume falls inside a session. */
  lemma {:induction false} SoldIsAdded(ts: seq<Tick>, c: string)
    ensures Sold(Sales(ts), c) == AddedAll(Own(ts, c))
  {
    if ts != [] {
      var front, t := ts[..|ts| - 1], ts[|ts| - 1];
      assert ts == front + [t];
      SoldIsAdded(front, c);
      SoldByRecord(front, t, c);
      if t.instrument == c {
        SizeIsAdded(front, t);
        AddedMore(Own(front, c), t);
      }
    }
  }

  lemma AddedMore(own: seq<Tick>, t: Tick)
    ensures AddedAll(own + [t]) == AddedAll(own) + if own == [] then 0 else Added(own[|own| - 1], t)
  {
    assert (own + [t])[..|own|] == own;
  }

  lemma SizeIsAdded(ts: seq<Tick>, t: Tick)
    ensures var own := Own(ts, t.instrument);
            Size(After(ts), t) == if own == [] then 0 else Added(own[|own| - 1], t)
  {
    SizeFromOwn(ts, t);
  }

  lemma {:induction false} AllConserved(ts: seq<Tick>, c: string)
    ensures Conserved(Sold(Sales(ts), c), Sessions(Own(ts, c)))
  {
    if ts == [] {
      NothingConserved();
    } else {
      var front, t := ts[..|ts| - 1], ts[|ts| - 1];
      assert ts == front + [t];
      AllConserved(front, c);
      ConservedByRecord(front, t, c);
    }
  }

  lemma NothingConserved()
    ensures Conserved(0, [])
  {
  }

  lemma ConservedByRecord(ts: seq<Tick>, t: Tick, c: string)
    requires Conserved(Sold(Sales(ts), c), Sessions(Own(ts, c)))
    ensures Conserved(Sold(Sales(ts + [t]), c), Sessions(Own(ts + [t], c)))
  {
    SoldByRecord(ts, t, c);
    if t.instrument == c {
      var own := Own(ts, c);
      SizeFromOwn(ts, t);
      SessionsGrow(own, t);
      StaysConserved(Sold(Sales(ts), c), Sessions(own), Sessions(own + [t]), StartsSession(own, t), Growth(own, t));
    }
  }

  /** Every reported sale has a positive size. */
  lemma {:induction false} SalesArePositive(ts: seq<Tick>)
    ensures forall i :: 0 <= i < |Sales(ts)| ==> Sales(ts)[i].size > 0
  {
    if ts != [] {
      SalesArePositive(ts[..|ts| - 1]);
    }
  }

  lemma OneMoreTick(ts: seq<Tick>, t: Tick)
    ensures After(ts + [t]) == Remember(After(ts), t)
    ensures Sales(ts + [t]) == Sales(ts) + SaleOf(t, Size(After(ts), t))
  {
    assert (ts + [t])[..|ts|] == ts;
  }

  class FemasBookManager {
    var trademap: map<string, Last>
    var sales: seq<Sale>
    /** Every record so far. */
    ghost var ticks: seq<Tick>

    ghost predicate Valid()
      reads this
    {
      trademap == After(ticks) && sales == Sales(ticks)
    }

    constructor ()
      ensures Valid() && ticks == []
    {
      trademap, sales := map[], [];
      ticks := [];
    }

    /** The part of the record's processing that reports trades. */
    method SendTrade(t: Tick)
      requires Valid()
      modifies this
      ensures Valid() && ticks == old(ticks) + [t]
    {
      OneMoreTick(ticks, t);
      ticks := ticks + [t];
      var volume := MakePriceVolume(t);
      if volume > 0 {
        sales := sales + [Sale(t.instrument, volume)];
      }
    }

    method MakePriceVolume(t: Tick) returns (size: int)
      modifies `trademap
      ensures size == Size(old(trademap), t)
      ensures trademap == Remember(old(trademap), t)
    {
      if t.instrument !in trademap {
        trademap := trademap[t.instrument := Last(t.volume, t.hour)];
        return 0;
      }
      CheckTime(t);
      var more: int := t.volume - trademap[t.instrument].volume;
      trademap := trademap[t.instrument := Last(t.volume, t.hour)];
      return if more > 0 then more else 0;
    }

    /** Rebases the count when the night session begins. */
    method CheckTime(t: Tick)
      requires t.instrument in trademap
      modifies `trademap
      ensures trademap == if NewSession(old(trademap)[t.instrument].hour, t.hour)
                          then Remember(old(trademap), t) else old(trademap)
    {
      if NewSession(trademap[t.instrument].hour, t.hour) {
        trademap := trademap[t.instrument := Last(t.volume, t.hour)];
      }
    }
  }
}
