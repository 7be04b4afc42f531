/** Wire constants: record type codes and the sizes of the fixed wire structs.
    The sizes are those of the structs whose fields the packers write, field by field,
    in OpenFlow's layouts (all multi-byte integers big-endian). */
module Ofp {

  // Instruction types (enum ofp_instruction_type).
  const OFPIT_GOTO_TABLE: int := 1
  const OFPIT_WRITE_METADATA: int := 2
  const OFPIT_WRITE_ACTIONS: int := 3
  const OFPIT_APPLY_ACTIONS: int := 4
  const OFPIT_CLEAR_ACTIONS: int := 5
  const OFPIT_EXPERIMENTER: int := 0xFFFF

  // Queue property types (enum ofp_queue_properties).
  const OFPQT_MIN_RATE: int := 1
  const OFPQT_MAX_RATE: int := 2
  const OFPQT_EXPERIMENTER: int := 0xFFFF

  // Match types (enum ofp_match_type).
  const OFPMT_STANDARD: int := 0
  const OFPMT_OXM: int := 1

  /** The common instruction header: type, len, pad[4]. */
  const INSTRUCTION_HEADER_SIZE: nat := 8
  const INSTRUCTION_GOTO_TABLE_SIZE: nat := 8
  const INSTRUCTION_WRITE_METADATA_SIZE: nat := 24
  const INSTRUCTION_ACTIONS_SIZE: nat := 8

  /** len, weight, watch_port, watch_group, pad[4]. */
  const BUCKET_SIZE: nat := 16

  /** type, length, oxm_fields[4]. */
  const MATCH_SIZE: nat := 8

  /** length .. byte_count (48 bytes), then the embedded match. */
  const FLOW_STATS_SIZE: nat := 56

  /** length, pad[2], group_id, ref_count, pad2[4], packet_count, byte_count. */
  const GROUP_STATS_SIZE: nat := 32
  const BUCKET_COUNTER_SIZE: nat := 16

  /** length, type, pad, group_id. */
  const GROUP_DESC_STATS_SIZE: nat := 8

  /** The common queue property header: property, len, pad[4]. */
  const QUEUE_PROP_HEADER_SIZE: nat := 8
  const QUEUE_PROP_MIN_RATE_SIZE: nat := 16
  const QUEUE_PROP_MAX_RATE_SIZE: nat := 16
  /** header, experimenter, pad[4], then a payload the packer never copies. */
  const QUEUE_PROP_EXPERIMENTER_SIZE: nat := 16

  /** queue_id, len, pad[2]. */
  const PACKET_QUEUE_SIZE: nat := 8

  const ETH_ADDR_LEN: nat := 6
  const OFP_MAX_PORT_NAME_LEN: nat := 16
  const PORT_SIZE: nat := 64
  const TABLE_STATS_SIZE: nat := 24
  const PORT_STATS_SIZE: nat := 104
  const QUEUE_STATS_SIZE: nat := 32
}
