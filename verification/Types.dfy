/** Fixed-width integers and the market-data values that the feed handler passes around. */
module Types {
  const UINT32_MAX: uint32 := 0xFFFF_FFFF

  type uint8 = x: int | 0 <= x <= 0xFF
  type uint32 = x: int | 0 <= x <= 0xFFFF_FFFF

  /** What `x` becomes when it is stored in an unsigned 32-bit variable. */
  function Wrap32(x: int): uint32 {
    x % 0x1_0000_0000
  }

  datatype Option<+T> = None | Some(value: T)

  /** FIX tag 269. `OtherEntry` stands for every entry type the book controller ignores. */
  datatype EntryType = Bid | Offer | Trade | BookReset | OtherEntry

  /** FIX tag 279. */
  datatype UpdateAction = New | Change | Delete | DeleteThru | DeleteFrom | Overlay | NullAction

  /** Message type of a book entry: snapshot is 35=W, increment is 35=X. */
  datatype BookKind = Snapshot | Increment | OtherKind

  /** A price is a (mantissa, exponent) pair; it is never converted. */
  type Price = (int, int)

  /** One parsed book entry. In a snapshot entry `packetSeqNum` holds tag 369, LastMsgSeqNumProcessed. */
  datatype Book = Book(
    packetSeqNum: uint32,
    kind: BookKind,
    securityID: uint32,
    entryType: EntryType,
    updateAction: UpdateAction,
    priceLevel: uint8,
    numberOfOrders: uint32,
    entrySize: uint32,
    entryPx: Price)

  datatype SecurityAction = Add | Modify | Remove

  datatype Instrument = Instrument(action: SecurityAction, securityID: uint32, symbol: string, depth: uint8)

  /** A message is what its parser finds in it: book entries, definitions, or nothing the books depend on. */
  datatype MessageBody =
    | Books(books: seq<Book>)
    | Definitions(instruments: seq<Instrument>)
    | Unparsed

  datatype MdpMessage = MdpMessage(packetSeqNum: uint32, body: MessageBody)

  datatype Packet = Packet(seqNum: uint32, bodies: seq<MessageBody>)

  /** The messages of a packet in packet order, each stamped with the number of its packet. */
  function Messages(p: Packet): (ms: seq<MdpMessage>)
    ensures |ms| == |p.bodies|
    ensures forall i :: 0 <= i < |ms| ==> ms[i].packetSeqNum == p.seqNum
  {
    seq(|p.bodies|, i requires 0 <= i < |p.bodies| => MdpMessage(p.seqNum, p.bodies[i]))
  }

  /** Message `i` holds body `i`. */
  lemma MessageBodies(p: Packet, i: nat)
    requires i < |p.bodies|
    ensures Messages(p)[i] == MdpMessage(p.seqNum, p.bodies[i])
  {
  }
}
