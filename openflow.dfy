/** The OpenFlow 1.1 structures the builder fills in (the `ofl_*` records of the OpenFlow
    library it links against): the standard match, the actions, the instructions and the
    flow-modification message. Only the fields and codes the builder touches, plus the
    fields a zeroed record leaves at zero, are modelled. Numeric codes are those of the
    OpenFlow Switch Specification 1.1.0. */
module OpenFlow {
  import opened Bytes
  import opened Wrappers

  // Message, match and instruction type codes.
  const OFPT_FLOW_MOD: uint8 := 14
  const OFPMT_STANDARD: uint16 := 0
  const OFPIT_GOTO_TABLE: uint16 := 1
  const OFPIT_WRITE_METADATA: uint16 := 2
  const OFPIT_WRITE_ACTIONS: uint16 := 3
  const OFPIT_APPLY_ACTIONS: uint16 := 4

  // Flow-mod defaults.
  const OFPFC_ADD: uint8 := 0
  const OFP_FLOW_PERMANENT: uint16 := 0
  const OFP_DEFAULT_PRIORITY: uint16 := 0x8000
  const OFP_NO_BUFFER: uint32 := 0xFFFF_FFFF   // `buffer_id = -1` stored in a uint32_t
  const OFPP_ANY: uint32 := 0xFFFF_FFFF
  const OFPG_ANY: uint32 := 0xFFFF_FFFF

  // Wildcard bits of the standard match.
  const OFPFW_IN_PORT: bv32 := 1 << 0
  const OFPFW_DL_VLAN: bv32 := 1 << 1
  const OFPFW_DL_VLAN_PCP: bv32 := 1 << 2
  const OFPFW_DL_TYPE: bv32 := 1 << 3
  const OFPFW_NW_TOS: bv32 := 1 << 4
  const OFPFW_NW_PROTO: bv32 := 1 << 5
  const OFPFW_TP_SRC: bv32 := 1 << 6
  const OFPFW_TP_DST: bv32 := 1 << 7
  const OFPFW_MPLS_LABEL: bv32 := 1 << 8
  const OFPFW_MPLS_TC: bv32 := 1 << 9
  const OFPFW_ALL: bv32 := (1 << 10) - 1

  /** The wildcard flags, one per bit above. */
  datatype Wildcard = InPort | DlVlan | DlVlanPcp | DlType | NwTos | NwProto | TpSrc | TpDst | MplsLabel | MplsTc

  function WildcardBit(f: Wildcard): bv32
  {
    match f
    case InPort => OFPFW_IN_PORT
    case DlVlan => OFPFW_DL_VLAN
    case DlVlanPcp => OFPFW_DL_VLAN_PCP
    case DlType => OFPFW_DL_TYPE
    case NwTos => OFPFW_NW_TOS
    case NwProto => OFPFW_NW_PROTO
    case TpSrc => OFPFW_TP_SRC
    case TpDst => OFPFW_TP_DST
    case MplsLabel => OFPFW_MPLS_LABEL
    case MplsTc => OFPFW_MPLS_TC
  }

  // Packet constants used by the builder.
  const ETH_TYPE_IP: uint16 := 0x0800
  const ETH_TYPE_MPLS: uint16 := 0x8847
  const IP_TYPE_UDP: uint8 := 17
  const ETH_ADDR_LEN: nat := 6

  /** `struct ofl_match_standard`. Ethernet addresses and masks are the six bytes in
      memory; the other fields are host integers. A set mask bit means "ignore this bit". */
  datatype Match = Match(
    matchType: uint16,
    inPort: uint32,
    wildcards: bv32,
    dlSrc: seq<byte>, dlSrcMask: seq<byte>,
    dlDst: seq<byte>, dlDstMask: seq<byte>,
    dlVlan: uint16, dlVlanPcp: uint8,
    dlType: uint16,
    nwTos: uint8, nwProto: uint8,
    nwSrc: uint32, nwSrcMask: uint32,
    nwDst: uint32, nwDstMask: uint32,
    tpSrc: uint16, tpDst: uint16,
    mplsLabel: uint32, mplsTc: uint8,
    metadata: uint64, metadataMask: uint64)

  /** The operations of the experimenter extension (`ofl_bme_*` records). Each is packed as
      an OFPAT_EXPERIMENTER action carrying the extension's experimenter identifier and a
      sub-type; those numbers are defined in a header that is not part of this model, so
      the constructor stands for the pair. */
  datatype BmeAction =
    | SetFieldFromMetadata(field: uint32, offset: uint8)
    | SetMetadataFromPacket(field: uint32, offset: uint8)
    | SetMetadataFromCounter(maxNum: uint32)
    | SetMplsLabelFromCounter
    | OutputByMetadata
    | XorEncode(labelA: uint32, labelB: uint32)
    | XorDecode(labelA: uint32, labelB: uint32)
    | UpdateDistance(port: uint32, hwAddr: seq<byte>)
    | Serialize(mplsLabel: uint32, timeout: uint32)

  /** One action record (`ofl_action_*`). */
  datatype Action =
    | Output(port: uint32, maxLen: uint16)
    | SetMplsLabel(mplsLabel: uint32)
    | DecMplsTtl
    | DecNwTtl
    | PushMpls(ethertype: uint16)
    | PopMpls(ethertype: uint16)
    | SetDlDst(dlAddr: seq<byte>)
    | SetNwDst(nwAddr: uint32)
    | Experimenter(bme: BmeAction)

  /** One instruction record (`ofl_instruction_*`). An action-bearing instruction carries
      its flattened action array, whose entries are null where a list head was never
      filled. */
  datatype Instruction =
    | GotoTable(tableId: uint8)
    | WriteMetadata(metadata: uint64, metadataMask: uint64)
    | WriteActions(actions: seq<Option<Action>>)
    | ApplyActions(actions: seq<Option<Action>>)
  {
    /** The `type` field of the instruction header. */
    function Type(): (t: uint16)
      ensures t == OFPIT_WRITE_ACTIONS <==> WriteActions?
      ensures t == OFPIT_APPLY_ACTIONS <==> ApplyActions?
    {
      match this
      case GotoTable(_) => OFPIT_GOTO_TABLE
      case WriteMetadata(_, _) => OFPIT_WRITE_METADATA
      case WriteActions(_) => OFPIT_WRITE_ACTIONS
      case ApplyActions(_) => OFPIT_APPLY_ACTIONS
    }
  }

  /** The scalar fields of `struct ofl_msg_flow_mod`. */
  datatype FlowModFields = FlowModFields(
    msgType: uint8,
    cookie: uint64, cookieMask: uint64,
    tableId: uint8,
    command: uint8,
    idleTimeout: uint16, hardTimeout: uint16,
    priority: uint16,
    bufferId: uint32,
    outPort: uint32, outGroup: uint32,
    flags: uint16)

  /** What `build` hands to the packer: the flow mod with its match, its flattened
      instruction array (empty when the flow mod never got an instruction chain) and the
      transaction identifier. */
  datatype Message = Message(
    xid: uint32,
    fields: FlowModFields,
    stdMatch: Match,
    instructions: seq<Option<Instruction>>)
}
