/** Flow statistics: `ofl_structs_flow_stats_ofp_len`, `ofl_structs_flow_stats_ofp_total_len` and
    `ofl_structs_flow_stats_pack`. A record is a 48-byte fixed part, the match (padded to a
    multiple of 8) and the flow's instructions. */
module FlowStats {
  import opened Wire
  import opened Ofp
  import opened Structs
  import opened Layout
  import opened Instructions
  import opened Matches

  /** Where the instructions start: the fixed part, `type` and `length` of the match and the
      match's declared length, rounded up to 8 (`ROUND_UP(sizeof(struct ofp_flow_stats) - 4 +
      length, 8)`). */
  function MatchEnd(fs: FlowStats): nat
  {
    RoundUp(FLOW_STATS_SIZE - 4 + fs.flowMatch.length, 8)
  }

  /** Where the match starts: the offset of the `match` field. */
  const MATCH_OFFSET: nat := FLOW_STATS_SIZE - MATCH_SIZE

  /** `ofl_structs_flow_stats_ofp_len`: the match area plus the instructions' total length;
      `None` when the instructions' length fails. */
  function FlowStatsLen(fs: FlowStats, exp: Option<Exp>): Option<nat>
  {
    var insts := InstructionsTotalLen(fs.instructions, exp);
    if insts.None? then None else Some(MatchEnd(fs) + insts.value)
  }

  /** `ofl_structs_flow_stats_ofp_total_len`. */
  function FlowStatsTotalLen(fss: seq<FlowStats>, exp: Option<Exp>): Option<nat>
  {
    SumOpt(fss, fs => FlowStatsLen(fs, exp))
  }

  /** The total fails exactly when some record's length fails. */
  lemma FlowStatsTotalLenFails(fss: seq<FlowStats>, exp: Option<Exp>)
    ensures FlowStatsTotalLen(fss, exp).None?
        <==> exists k :: 0 <= k < |fss| && FlowStatsLen(fss[k], exp).None?
  {
    SumOptFails(fss, fs => FlowStatsLen(fs, exp));
  }

  /** A record's length fails exactly when the length of one of its instructions fails. */
  lemma FlowStatsLenFails(fs: FlowStats, exp: Option<Exp>)
    ensures FlowStatsLen(fs, exp).None?
        <==> exists j :: 0 <= j < |fs.instructions| && InstructionLen(fs.instructions[j], exp).None?
  {
    InstructionsTotalLenFails(fs.instructions, exp);
  }

  /** The instructions start on an 8-byte boundary after the match's declared extent, and less
      than 8 bytes after it. */
  lemma MatchEndAligned(fs: FlowStats)
    ensures MatchEnd(fs) % 8 == 0
    ensures FLOW_STATS_SIZE - 4 + fs.flowMatch.length <= MatchEnd(fs) < FLOW_STATS_SIZE + 4 + fs.flowMatch.length
    ensures MATCH_OFFSET + MATCH_SIZE <= MatchEnd(fs)
  {
    RoundUpIsPadTo8(FLOW_STATS_SIZE - 4 + fs.flowMatch.length);
  }

  /** The instructions every packed flow carries: each has a known type, and an experimenter
      one has callbacks that agree on its length. */
  predicate SupportedAll(insts: seq<Instruction>, exp: Option<Exp>)
  {
    && (forall k :: 0 <= k < |insts| ==> Packs(insts[k], exp))
    && (forall k :: 0 <= k < |insts| ==> Supported(insts[k], exp))
  }

  /** The match as the packer writes it (in host order). */
  function FlowMatchImage(fs: FlowStats, exp: Option<Exp>, oxm: OxmCodec): seq<Cell>
  {
    MatchImage(fs.flowMatch, HostOrder, exp, oxm)
  }

  /** The encoded match stays inside the area its declared length reserves. */
  predicate MatchFits(fs: FlowStats, exp: Option<Exp>, oxm: OxmCodec)
  {
    MATCH_OFFSET + |FlowMatchImage(fs, exp, oxm)| <= MatchEnd(fs)
  }

  /** `length`, `table_id`, pad, `duration_sec`, `duration_nsec`, `priority`, `idle_timeout`,
      `hard_timeout`, pad2[6], `cookie`, `packet_count`, `byte_count`. */
  function FlowStatsHeader(fs: FlowStats, total: nat): seq<byte>
  {
    Be16(Trunc16(total)) + [fs.tableId] + [0] + Be32(fs.durationSec) + Be32(fs.durationNsec)
      + Be16(fs.priority) + Be16(fs.idleTimeout) + Be16(fs.hardTimeout) + Zeros(6)
      + Be64(fs.cookie) + Be64(fs.packetCount) + Be64(fs.byteCount)
  }

  /** The bytes between the end of the encoded match and the instructions: never written. */
  function MatchGap(fs: FlowStats, exp: Option<Exp>, oxm: OxmCodec): nat
    requires MatchFits(fs, exp, oxm)
  {
    MatchEnd(fs) - MATCH_OFFSET - |FlowMatchImage(fs, exp, oxm)|
  }

  /** The fixed part and the match, and the gap the match leaves before the instructions. */
  function FlowStatsHead(fs: FlowStats, total: nat, exp: Option<Exp>, oxm: OxmCodec): seq<Cell>
    requires MatchFits(fs, exp, oxm)
  {
    Bytes(FlowStatsHeader(fs, total)) + FlowMatchImage(fs, exp, oxm) + Skips(MatchGap(fs, exp, oxm))
  }

  /** What the pack pass writes: the fixed part, the match, the untouched gap and the
      instructions. */
  function FlowStatsImage(fs: FlowStats, exp: Option<Exp>, oxm: OxmCodec): seq<Cell>
    requires SupportedAll(fs.instructions, exp)
    requires MatchFits(fs, exp, oxm)
  {
    var total := MatchEnd(fs) + |InstructionsImage(fs.instructions, exp)|;
    FlowStatsHead(fs, total, exp, oxm) + InstructionsImage(fs.instructions, exp)
  }

  /** The fixed part is 48 bytes, with `length` first and `table_id` after it. */
  lemma FlowStatsHeaderFields(fs: FlowStats, total: nat)
    ensures var h := Bytes(FlowStatsHeader(fs, total));
      && |h| == MATCH_OFFSET
      && h[..2] == Bytes(Be16(Trunc16(total)))
      && h[2] == Put(fs.tableId)
  {
  }

  /** The parts of a record, each at its offset. */
  lemma ImageParts(h: seq<Cell>, m: seq<Cell>, g: seq<Cell>, ins: seq<Cell>)
    requires |h| == MATCH_OFFSET
    ensures var img := h + m + g + ins;
      && img[..2] == h[..2]
      && img[2] == h[2]
      && img[MATCH_OFFSET..MATCH_OFFSET + |m|] == m
      && img[MATCH_OFFSET + |m|..MATCH_OFFSET + |m| + |g|] == g
      && img[MATCH_OFFSET + |m| + |g|..] == ins
  {
  }

  /** A packed flow-stats record is as long as the length pass says, its `length` field holds
      that length (mod 2^16), the match sits at the `match` field and the instructions start at
      the 8-byte boundary after the match; only the bytes between the two are left unwritten. */
  lemma FlowStatsFields(fs: FlowStats, exp: Option<Exp>, oxm: OxmCodec)
    requires SupportedAll(fs.instructions, exp)
    requires MatchFits(fs, exp, oxm)
    ensures var img := FlowStatsImage(fs, exp, oxm);
      var m := FlowMatchImage(fs, exp, oxm);
      && FlowStatsLen(fs, exp) == Some(|img|)
      && img[..2] == Bytes(Be16(Trunc16(|img|)))
      && img[2] == Put(fs.tableId)
      && img[MATCH_OFFSET..MATCH_OFFSET + |m|] == m
      && img[MATCH_OFFSET + |m|..MatchEnd(fs)] == Skips(MatchGap(fs, exp, oxm))
      && img[MatchEnd(fs)..] == InstructionsImage(fs.instructions, exp)
      && Complete(img[MatchEnd(fs)..])
  {
    InstructionsTotalLenAgrees(fs.instructions, exp);
    var total := MatchEnd(fs) + |InstructionsImage(fs.instructions, exp)|;
    FlowStatsHeaderFields(fs, total);
    var h := Bytes(FlowStatsHeader(fs, total));
    var m := FlowMatchImage(fs, exp, oxm);
    var g := Skips(MatchGap(fs, exp, oxm));
    var ins := InstructionsImage(fs.instructions, exp);
    assert FlowStatsImage(fs, exp, oxm) == h + m + g + ins;
    ImageParts(h, m, g, ins);
  }

  /** `ofl_structs_flow_stats_ofp_total_len` is the size of the records packed back to back
      when every record packs: given the image of each record, the total does not fail and is
      their summed size. */
  lemma FlowStatsTotalLenAgrees(fss: seq<FlowStats>, exp: Option<Exp>, oxm: OxmCodec, images: seq<seq<Cell>>)
    requires forall k :: 0 <= k < |fss| ==> SupportedAll(fss[k].instructions, exp) && MatchFits(fss[k], exp, oxm)
    requires |images| == |fss|
    requires forall k :: 0 <= k < |fss| ==> images[k] == FlowStatsImage(fss[k], exp, oxm)
    ensures FlowStatsTotalLen(fss, exp) == Some(|Concat(images)|)
  {
    forall k | 0 <= k < |fss| ensures FlowStatsLen(fss[k], exp) == Some(|images[k]|) {
      FlowStatsFields(fss[k], exp, oxm);
    }
    LaidOutSizeOpt(fss, images, fs => FlowStatsLen(fs, exp));
  }

  /** The first part of `ofl_structs_flow_stats_pack`: writes the fixed part with `length` set
      to `total`, then packs the match at the `match` field in host order. */
  method PackFlowStatsHead(fs: FlowStats, total: nat, dst: array<byte>, at: nat, exp: Option<Exp>, oxm: OxmCodec)
    requires MatchFits(fs, exp, oxm)
    requires at + MatchEnd(fs) <= dst.Length
    modifies dst
    ensures |FlowStatsHead(fs, total, exp, oxm)| == MatchEnd(fs)
    ensures dst[..] == Patch(old(dst[..]), at, FlowStatsHead(fs, total, exp, oxm))
  {
    ghost var s := dst[..];
    var h := Bytes(FlowStatsHeader(fs, total));
    FlowStatsHeaderFields(fs, total);
    WriteImage(dst, at, h);
    ghost var header := dst[..];
    ghost var m := FlowMatchImage(fs, exp, oxm);
    var _ := PackMatch(fs.flowMatch, dst, at + MATCH_OFFSET, HostOrder, exp, oxm);
    PatchStep(s, header, dst[..], at, at + MATCH_OFFSET, h, m);
    PatchSkipTail(s, at, h + m, MatchGap(fs, exp, oxm));
  }

  /** The head, then the instructions from the 8-byte boundary after the match, give the
      record's image. */
  lemma FlowStatsPacked(fs: FlowStats, exp: Option<Exp>, oxm: OxmCodec, s0: seq<byte>, s1: seq<byte>, s2: seq<byte>, at: nat, total: nat)
    requires SupportedAll(fs.instructions, exp)
    requires MatchFits(fs, exp, oxm)
    requires total == MatchEnd(fs) + |InstructionsImage(fs.instructions, exp)|
    requires at + total <= |s0|
    requires |FlowStatsHead(fs, total, exp, oxm)| == MatchEnd(fs)
    requires s1 == Patch(s0, at, FlowStatsHead(fs, total, exp, oxm))
    requires s2 == Patch(s1, at + MatchEnd(fs), InstructionsImage(fs.instructions, exp))
    ensures s2 == Patch(s0, at, FlowStatsImage(fs, exp, oxm))
  {
    PatchStep(s0, s1, s2, at, at + MatchEnd(fs), FlowStatsHead(fs, total, exp, oxm),
      InstructionsImage(fs.instructions, exp));
  }

  /** `ofl_structs_flow_stats_pack`: writes the fixed part, packs the match at the `match` field
      in host order, packs the instructions from the 8-byte boundary after the match, and
      returns the record's length. */
  method PackFlowStats(fs: FlowStats, dst: array<byte>, at: nat, exp: Option<Exp>, oxm: OxmCodec)
    returns (r: nat)
    requires SupportedAll(fs.instructions, exp)
    requires MatchFits(fs, exp, oxm)
    requires at + MatchEnd(fs) + |InstructionsImage(fs.instructions, exp)| <= dst.Length
    modifies dst
    ensures FlowStatsLen(fs, exp) == Some(r) && |FlowStatsImage(fs, exp, oxm)| == r
    ensures dst[..] == Patch(old(dst[..]), at, FlowStatsImage(fs, exp, oxm))
  {
    InstructionsTotalLenAgrees(fs.instructions, exp);
    var matchEnd := MatchEnd(fs);
    var totalLen := matchEnd + InstructionsTotalLen(fs.instructions, exp).value;
    ghost var s := dst[..];
    PackFlowStatsHead(fs, totalLen, dst, at, exp, oxm);
    ghost var head := dst[..];
    var _ := PackInstructionList(fs.instructions, dst, at + matchEnd, exp);
    FlowStatsPacked(fs, exp, oxm, s, head, dst[..], at, totalLen);
    r := totalLen;
  }
}
