/** The host-side ("logical") records the packers read, and the experimenter callback table.
    Each record is a value: the packers never change it. */
module Structs {
  import opened Wire
  import opened Ofp

  /** An action of the sibling action codec, standing for the bytes that codec packs it to.
      Its wire length is `|wire|`. */
  datatype Action = Action(wire: seq<byte>)

  /** An experimenter instruction; its body is known only to the experimenter callbacks. */
  datatype ExpInstruction = ExpInstruction(experimenterId: u32, body: seq<byte>)

  datatype Instruction =
    | GotoTable(tableId: byte)
    | WriteMetadata(metadata: u64, metadataMask: u64)
    | WriteActions(actions: seq<Action>)
    | ApplyActions(actions: seq<Action>)
    | ClearActions
    | Experimenter(exp: ExpInstruction)
      /** Any type code the packer has no case for (OFPIT_METER among them). */
    | UnknownInstruction(itype: UnknownInstructionType)

  /** The instruction type codes that reach the `default` case of the instruction switches:
      every 16-bit code except those of the cases above. */
  type UnknownInstructionType = t: u16 |
    && t != OFPIT_GOTO_TABLE && t != OFPIT_WRITE_METADATA && t != OFPIT_WRITE_ACTIONS
    && t != OFPIT_APPLY_ACTIONS && t != OFPIT_CLEAR_ACTIONS && t != OFPIT_EXPERIMENTER
    witness 6

  datatype Bucket = Bucket(weight: u16, watchPort: u32, watchGroup: u32, actions: seq<Action>)

  /** One field of an extensible match, encoded by the TLV sub-codec. */
  datatype MatchTlv = MatchTlv(header: u32, value: seq<byte>)

  /** A match: its type code, its declared `length` (the byte length of its TLV fields for an
      OXM match), and its fields. */
  datatype Match = Match(mtype: u16, length: u16, fields: seq<MatchTlv>)

  /** The byte order the TLV sub-codec is asked for. */
  datatype ByteOrder = HostOrder | NetworkOrder

  datatype FlowStats = FlowStats(
    tableId: byte,
    durationSec: u32,
    durationNsec: u32,
    priority: u16,
    idleTimeout: u16,
    hardTimeout: u16,
    cookie: u64,
    packetCount: u64,
    byteCount: u64,
    flowMatch: Match,
    instructions: seq<Instruction>)

  datatype BucketCounter = BucketCounter(packetCount: u64, byteCount: u64)

  datatype GroupStats = GroupStats(
    groupId: u32,
    refCount: u32,
    packetCount: u64,
    byteCount: u64,
    counters: seq<BucketCounter>)

  datatype GroupDescStats = GroupDescStats(groupType: byte, groupId: u32, buckets: seq<Bucket>)

  datatype QueueProp =
    | MinRate(rate: u16)
    | MaxRate(rate: u16)
      /** The payload is carried but never packed. */
    | ExperimenterProp(experimenterId: u32, data: seq<byte>)
    | UnknownProp(ptype: UnknownPropType)

  /** The queue property codes that reach the `default` case of the property switches: every
      16-bit code except OFPQT_MIN_RATE, OFPQT_MAX_RATE and OFPQT_EXPERIMENTER. */
  type UnknownPropType = t: u16 | t != OFPQT_MIN_RATE && t != OFPQT_MAX_RATE && t != OFPQT_EXPERIMENTER
    witness 0

  datatype PacketQueue = PacketQueue(queueId: u32, properties: seq<QueueProp>)

  type EthAddr = s: seq<byte> | |s| == 6 witness [0, 0, 0, 0, 0, 0]

  datatype Port = Port(
    portNo: u32,
    hwAddr: EthAddr,
    name: seq<byte>,
    config: u32,
    state: u32,
    curr: u32,
    advertised: u32,
    supported: u32,
    peer: u32,
    currSpeed: u32,
    maxSpeed: u32)

  datatype TableStats = TableStats(tableId: byte, activeCount: u32, lookupCount: u64, matchedCount: u64)

  datatype PortStats = PortStats(
    portNo: u32,
    rxPackets: u64,
    txPackets: u64,
    rxBytes: u64,
    txBytes: u64,
    rxDropped: u64,
    txDropped: u64,
    rxErrors: u64,
    txErrors: u64,
    rxFrameErr: u64,
    rxOverErr: u64,
    rxCrcErr: u64,
    collisions: u64)

  datatype QueueStats = QueueStats(portNo: u32, queueId: u32, txBytes: u64, txPackets: u64, txErrors: u64)

  // ---------------------------------------------------------------------------
  // The experimenter callback table. Every level may be absent (a NULL pointer).

  /** A length callback and a pack callback for one record family. The pack callback is
      represented by the bytes it writes at the destination; its return value is their count. */
  datatype Callbacks<!T> = Callbacks(ofpLen: Option<T -> nat>, pack: Option<T -> seq<byte>>)

  datatype Exp = Exp(inst: Option<Callbacks<ExpInstruction>>, matchCallbacks: Option<Callbacks<Match>>)

  /** `exp->inst->ofp_len`, or `None` when `exp`, `exp->inst` or the pointer is NULL. */
  function InstLenCallback(exp: Option<Exp>): Option<ExpInstruction -> nat>
  {
    if exp.Some? && exp.value.inst.Some? then exp.value.inst.value.ofpLen else None
  }

  /** `exp->inst->pack`, or `None` when any level is NULL. */
  function InstPackCallback(exp: Option<Exp>): Option<ExpInstruction -> seq<byte>>
  {
    if exp.Some? && exp.value.inst.Some? then exp.value.inst.value.pack else None
  }

  /** `exp->match->ofp_len`, or `None` when any level is NULL. */
  function MatchLenCallback(exp: Option<Exp>): Option<Match -> nat>
  {
    if exp.Some? && exp.value.matchCallbacks.Some? then exp.value.matchCallbacks.value.ofpLen else None
  }

  /** `exp->match->pack`, or `None` when any level is NULL. */
  function MatchPackCallback(exp: Option<Exp>): Option<Match -> seq<byte>>
  {
    if exp.Some? && exp.value.matchCallbacks.Some? then exp.value.matchCallbacks.value.pack else None
  }
}
