/** The receiving side as a step relation. One UDP thread serves both feeds, every gap starts a replay
    thread, and one consumer drains the buffer; checking a packet and storing it are separate steps. */
module Feed {
  import opened Types
  import opened Arbitrator
  import opened IncrementData
  import opened PacketLog

  /** A replay request for the closed range [begin, end]. */
  datatype Request = Request(begin: int, end: int)

  /** Where the UDP thread is inside the processing of one feed packet. */
  datatype UdpThread = Idle | Checked(packet: Packet, status: uint32) | Saved(packet: Packet, status: uint32)

  /** `replays` holds the packet each replay thread has checked but not stored. `picked` is the position
      of the iterator the consumer works on. The last three fields only record history. */
  datatype State = State(
    arbitration: Arbitration,
    buffer: Buffer,
    udp: UdpThread,
    replays: map<nat, Packet>,
    picked: Option<nat>,
    delivered: seq<MdpMessage>,
    requests: seq<Request>,
    accepted: seq<Packet>,
    inserted: set<int>,
    everLost: set<int>)

  const INITIAL := State(Arbitration(NO_SEQUENCE, {}), EMPTY, Idle, map[], None, [], [], [], {}, {})

  datatype Action =
    | CheckFeed(packet: Packet)
    | StoreFeed
    | RequestReplay
    | CheckReplay(thread: nat, packet: Packet)
    | StoreReplay(thread: nat)
    | PickMessage
    | RemoveMessage

  /** What a gap status reports as lost. */
  function Gap(status: uint32, n: uint32): set<int> {
    if status > 0 then Between(status - 1, n) else {}
  }

  /** Storing a packet; the iterator of the consumer keeps pointing at the same message. */
  function Store(s: State, p: Packet): State {
    var moved :=
      if s.picked.Some? && s.picked.value < |s.buffer.datas| && p.seqNum < s.buffer.datas[s.picked.value].packetSeqNum
      then Some(s.picked.value + |p.bodies|)
      else s.picked;
    s.(buffer := Insert(s.buffer, p.seqNum, Messages(p)), picked := moved, inserted := s.inserted + {p.seqNum})
  }

  /** One step of one thread. An action whose thread is not at that point changes nothing. */
  ghost function Step(s: State, a: Action): State {
    match a
    case CheckFeed(p) =>
      var (arbitration, status) := FeedCheck(s.arbitration, p.seqNum);
      if !s.udp.Idle? || status == DISCARD then s
      else s.(arbitration := arbitration, udp := Checked(p, status), accepted := s.accepted + [p],
              everLost := s.everLost + Gap(status, p.seqNum))
    case StoreFeed =>
      if !s.udp.Checked? then s
      else Store(s, s.udp.packet).(udp := if s.udp.status > 0 then Saved(s.udp.packet, s.udp.status) else Idle)
    case RequestReplay =>
      if !s.udp.Saved? then s
      else s.(udp := Idle, requests := s.requests + [Request(s.udp.status, s.udp.packet.seqNum - 1)])
    case CheckReplay(t, p) =>
      var (arbitration, status) := ReplayCheck(s.arbitration, p.seqNum);
      if t in s.replays || status == DISCARD then s
      else s.(arbitration := arbitration, replays := s.replays[t := p], accepted := s.accepted + [p])
    case StoreReplay(t) =>
      if t !in s.replays then s else Store(s, s.replays[t]).(replays := s.replays - {t})
    case PickMessage =>
      if s.picked.Some? || !Ready(s.buffer) then s
      else s.(picked := Some(0), delivered := s.delivered + [s.buffer.datas[0]])
    case RemoveMessage =>
      if s.picked.None? || s.picked.value >= |s.buffer.datas| then s
      else
        var i, datas := s.picked.value, s.buffer.datas;
        s.(picked := None, buffer := s.buffer.(datas := datas[..i] + datas[i + 1..]))
  }

  /** The state after any interleaving of thread steps. */
  ghost function Run(acts: seq<Action>): State {
    if acts == [] then INITIAL else Step(Run(acts[..|acts| - 1]), acts[|acts| - 1])
  }

  /** 2^32-1 is no packet number: both the arbitrator and the buffer use it for "none yet". */
  predicate Numbered(a: Action) {
    a.CheckFeed? ==> a.packet.seqNum != NO_SEQUENCE
  }

  function First(s: State): int
    requires s.accepted != []
  {
    s.accepted[0].seqNum
  }

  /** Accepted numbers and lost numbers partition [first, current]. */
  ghost predicate Arbitrated(s: State) {
    && Distinct(s.accepted)
    && (s.accepted == [] ==> s.arbitration == Arbitration(NO_SEQUENCE, {}) && s.everLost == {} && s.udp.Idle?)
    && (s.accepted != [] ==>
          && First(s) <= s.arbitration.current < NO_SEQUENCE
          && First(s) in Numbers(s.accepted) && s.arbitration.current in Numbers(s.accepted)
          && forall n :: First(s) <= n <= s.arbitration.current
                         <==> n in Numbers(s.accepted) || n in s.arbitration.lost)
    && Numbers(s.accepted) !! s.arbitration.lost
  }

  /** `p` was accepted, is on its way, and is what the log holds under its number. */
  ghost predicate OnItsWay(s: State, p: Packet) {
    p.seqNum in Numbers(s.accepted) && p.seqNum !in s.inserted && Carried(s.accepted, p.seqNum) == Messages(p)
  }

  ghost predicate InFlight(s: State, n: int) {
    (s.udp.Checked? && s.udp.packet.seqNum == n) || exists t :: t in s.replays && s.replays[t].seqNum == n
  }

  /** Every accepted packet was stored or is in a thread. */
  ghost predicate Accounted(s: State) {
    && s.inserted <= Numbers(s.accepted)
    && (forall n :: n in Numbers(s.accepted) ==> n in s.inserted || InFlight(s, n))
    && (s.udp.Checked? ==> OnItsWay(s, s.udp.packet))
    && (forall t :: t in s.replays ==> OnItsWay(s, s.replays[t]))
  }

  /** No two threads hold the same number. */
  ghost predicate Apart(s: State) {
    && (forall t :: t in s.replays && s.udp.Checked? ==> s.replays[t].seqNum != s.udp.packet.seqNum)
    && (forall t, u :: t in s.replays && u in s.replays && t != u ==> s.replays[t].seqNum != s.replays[u].seqNum)
  }

  /** `last` is the highest stored number and `holes` is everything below it that was not stored. */
  ghost predicate Holed(s: State) {
    && (s.inserted == {} ==>
          && s.buffer == EMPTY
          && (s.accepted != [] ==> s.udp.Checked? && s.accepted == [s.udp.packet] && s.arbitration.lost == {}
                                   && s.arbitration.current == First(s) && s.replays == map[]))
    && (s.inserted != {} ==>
          && s.accepted != [] && First(s) in s.inserted
          && s.buffer.last in s.inserted && s.buffer.last < NO_LAST
          && (forall n :: n in s.inserted ==> n <= s.buffer.last)
          && (forall n :: n in s.buffer.holes <==> First(s) < n < s.buffer.last && n !in s.inserted))
  }

  /** The buffered messages that were not handed over yet. */
  function Rest(s: State): seq<MdpMessage> {
    if s.picked.Some? && s.buffer.datas != [] then s.buffer.datas[1..] else s.buffer.datas
  }

  /** Handed-over messages followed by buffered ones are the stored packets in number order. */
  ghost predicate Ordered(s: State) {
    && (s.picked.Some? ==> s.picked.value == 0 && s.buffer.datas != [] && s.delivered != []
                           && s.delivered[|s.delivered| - 1] == s.buffer.datas[0])
    && (s.inserted == {} ==> s.delivered == [] && s.picked.None?)
    && (s.inserted != {} ==>
          && s.accepted != []
          && s.delivered + Rest(s) == Stream(s.accepted, s.inserted, First(s), s.buffer.last + 1))
    && (forall i :: 0 <= i < |s.delivered| ==> s.delivered[i].packetSeqNum <= s.buffer.last)
    && (forall i, h :: 0 <= i < |s.delivered| && h in s.buffer.holes ==> s.delivered[i].packetSeqNum < h)
  }

  function Requested(rs: seq<Request>): set<int> {
    if rs == [] then {} else Requested(rs[..|rs| - 1]) + Between(rs[|rs| - 1].begin - 1, rs[|rs| - 1].end + 1)
  }

  /** Lost numbers whose replay was not requested yet. */
  function Pending(s: State): set<int> {
    if s.udp.Idle? then {} else Gap(s.udp.status, s.udp.packet.seqNum)
  }

  /** Requests never overlap and each follows the storing of the packet that revealed its gap. */
  ghost predicate RequestsOrdered(s: State) {
    && (forall i :: 0 <= i < |s.requests| ==>
                      s.requests[i].begin <= s.requests[i].end && s.requests[i].end + 1 in s.inserted)
    && (forall i, j :: 0 <= i < j < |s.requests| ==> s.requests[i].end < s.requests[j].begin)
    && (forall i :: 0 <= i < |s.requests| ==> s.accepted != [] && s.requests[i].end < s.arbitration.current)
    && (!s.udp.Idle? && s.udp.status > 0 ==>
          && s.udp.status < s.udp.packet.seqNum && s.udp.packet.seqNum == s.arbitration.current
          && forall i :: 0 <= i < |s.requests| ==> s.requests[i].end < s.udp.status)
    && (s.udp.Saved? ==> s.udp.status > 0 && s.udp.packet.seqNum in s.inserted)
  }

  /** Requested and pending numbers are together everything that was ever lost. */
  ghost predicate RequestsCover(s: State) {
    s.everLost == Requested(s.requests) + Pending(s) && s.arbitration.lost <= s.everLost
  }

  ghost predicate Inv(s: State) {
    && Arbitrated(s)
    && Accounted(s) && Apart(s)
    && Holed(s)
    && Ordered(s)
    && RequestsOrdered(s) && RequestsCover(s)
  }
}
