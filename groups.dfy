/** Group statistics and group descriptions: `ofl_structs_group_stats_*` and
    `ofl_structs_group_desc_stats_*`. */
module Groups {
  import opened Wire
  import opened Ofp
  import opened Structs
  import opened Layout
  import opened Records
  import opened Buckets

  // ---------------------------------------------------------------------------
  // Group statistics: a 32-byte header followed by one 16-byte counter per bucket.

  /** `ofl_structs_group_stats_ofp_len`. */
  function GroupStatsLen(g: GroupStats): nat
  {
    GROUP_STATS_SIZE + BUCKET_COUNTER_SIZE * |g.counters|
  }

  /** `ofl_structs_group_stats_ofp_total_len`. */
  function GroupStatsTotalLen(gs: seq<GroupStats>): nat
  {
    Sum(gs, GroupStatsLen)
  }

  /** `length`, pad[2], `group_id`, `ref_count`, pad2[4], `packet_count`, `byte_count`. */
  function GroupStatsHeader(g: GroupStats): seq<byte>
  {
    Be16(Trunc16(GroupStatsLen(g))) + Zeros(2) + Be32(g.groupId) + Be32(g.refCount) + Zeros(4)
      + Be64(g.packetCount) + Be64(g.byteCount)
  }

  function CounterImage(c: BucketCounter): seq<Cell>
  {
    Bytes(BucketCounterBytes(c))
  }

  function CounterLen(c: BucketCounter): nat
  {
    BUCKET_COUNTER_SIZE
  }

  /** The counters packed back to back from `bucket_stats`. */
  function CountersImage(cs: seq<BucketCounter>): seq<Cell>
  {
    Concat(Images(cs, CounterImage))
  }

  /** The counters take 16 bytes each, with no padding, and every byte is written. */
  lemma CountersImageLen(cs: seq<BucketCounter>)
    ensures |CountersImage(cs)| == BUCKET_COUNTER_SIZE * |cs|
    ensures Complete(CountersImage(cs))
  {
    LaidOut(cs, CounterImage, CounterLen);
    SumConst(cs, CounterLen, BUCKET_COUNTER_SIZE);
  }

  /** Counter `k` occupies bytes `16 k` to `16 (k + 1)` of the counter area. */
  lemma CounterAt(cs: seq<BucketCounter>, k: nat)
    requires k < |cs|
    ensures |CountersImage(cs)| == BUCKET_COUNTER_SIZE * |cs|
    ensures CountersImage(cs)[BUCKET_COUNTER_SIZE * k..BUCKET_COUNTER_SIZE * (k + 1)] == CounterImage(cs[k])
  {
    CountersImageLen(cs);
    CountersImageLen(cs[..k]);
    ChildAt(cs, CounterImage, k);
  }

  function GroupStatsImage(g: GroupStats): seq<Cell>
  {
    Bytes(GroupStatsHeader(g)) + CountersImage(g.counters)
  }

  /** A packed group-stats record is `GroupStatsLen` bytes long, every byte is written, its
      `length` field holds that length (mod 2^16), and the counters follow the 32-byte header. */
  lemma GroupStatsFields(g: GroupStats)
    ensures var img := GroupStatsImage(g);
      && |img| == GroupStatsLen(g)
      && Complete(img)
      && img[..2] == Bytes(Be16(Trunc16(|img|)))
      && img[GROUP_STATS_SIZE..] == CountersImage(g.counters)
  {
    CountersImageLen(g.counters);
    var h := Bytes(GroupStatsHeader(g));
    var c := CountersImage(g.counters);
    assert (h + c)[..2] == h[..2];
    CompleteAppend(h, c);
  }

  /** The counter loop of the group-stats packer: each counter is packed at the cursor, which
      then advances by the count the counter packer returns. */
  method PackCounterList(cs: seq<BucketCounter>, dst: array<byte>, at: nat) returns (cursor: nat)
    requires at + BUCKET_COUNTER_SIZE * |cs| <= dst.Length
    modifies dst
    ensures cursor == at + BUCKET_COUNTER_SIZE * |cs| && |CountersImage(cs)| == BUCKET_COUNTER_SIZE * |cs|
    ensures dst[..] == Patch(old(dst[..]), at, CountersImage(cs))
  {
    CountersImageLen(cs);
    ghost var parts := Images(cs, CounterImage);
    cursor := at;
    var i := 0;
    while i < |cs|
      invariant 0 <= i <= |cs|
      invariant cursor == at + |Concat(parts[..i])|
      invariant |Concat(parts[..i])| <= |Concat(parts)|
      invariant dst[..] == Patch(old(dst[..]), at, Concat(parts[..i]))
    {
      ConcatAt(parts, i);
      ConcatSnoc(parts, i);
      assert parts[i] == CounterImage(cs[i]);
      ghost var before := dst[..];
      var len := PackBucketCounter(cs[i], dst, cursor);
      PatchStep(old(dst[..]), before, dst[..], at, cursor, Concat(parts[..i]), parts[i]);
      cursor := cursor + len;
      i := i + 1;
    }
    assert parts[..i] == parts;
  }

  /** `ofl_structs_group_stats_pack`: writes the header, then the counters from `bucket_stats`
      on, and returns the record's length. */
  method PackGroupStats(g: GroupStats, dst: array<byte>, at: nat) returns (r: nat)
    requires at + GroupStatsLen(g) <= dst.Length
    modifies dst
    ensures r == GroupStatsLen(g) && |GroupStatsImage(g)| == GroupStatsLen(g)
    ensures dst[..] == Patch(old(dst[..]), at, GroupStatsImage(g))
  {
    CountersImageLen(g.counters);
    var totalLen := GROUP_STATS_SIZE + BUCKET_COUNTER_SIZE * |g.counters|;
    ghost var s := dst[..];
    WriteImage(dst, at, Bytes(Be16(Trunc16(totalLen)) + Zeros(2) + Be32(g.groupId) + Be32(g.refCount) + Zeros(4)
      + Be64(g.packetCount) + Be64(g.byteCount)));
    ghost var header := dst[..];
    var _ := PackCounterList(g.counters, dst, at + GROUP_STATS_SIZE);
    PatchStep(s, header, dst[..], at, at + GROUP_STATS_SIZE, Bytes(GroupStatsHeader(g)), CountersImage(g.counters));
    r := totalLen;
  }

  /** `ofl_structs_group_stats_ofp_total_len` is the size of the records packed back to back. */
  lemma GroupStatsTotalLenAgrees(gs: seq<GroupStats>)
    ensures GroupStatsTotalLen(gs) == |Concat(Images(gs, GroupStatsImage))|
  {
    forall k | 0 <= k < |gs| ensures |GroupStatsImage(gs[k])| == GroupStatsLen(gs[k]) {
      GroupStatsFields(gs[k]);
    }
    LaidOutSize(gs, GroupStatsImage, GroupStatsLen);
  }

  // ---------------------------------------------------------------------------
  // Group descriptions: an 8-byte header followed by the group's buckets.

  /** `ofl_structs_group_desc_stats_ofp_len`. */
  function GroupDescStatsLen(g: GroupDescStats): nat
  {
    GROUP_DESC_STATS_SIZE + BucketsTotalLen(g.buckets)
  }

  /** `ofl_structs_group_desc_stats_ofp_total_len`. */
  function GroupDescStatsTotalLen(gs: seq<GroupDescStats>): nat
  {
    Sum(gs, GroupDescStatsLen)
  }

  /** `length`, `type`, pad, `group_id`. */
  function GroupDescHeader(g: GroupDescStats): seq<byte>
  {
    Be16(Trunc16(GroupDescStatsLen(g))) + [g.groupType] + [0] + Be32(g.groupId)
  }

  function GroupDescStatsImage(g: GroupDescStats): seq<Cell>
  {
    Bytes(GroupDescHeader(g)) + BucketsImage(g.buckets)
  }

  /** A packed group description is `GroupDescStatsLen` bytes long, every byte is written, its
      `length` field holds that length (mod 2^16), and the buckets follow the 8-byte header. */
  lemma GroupDescStatsFields(g: GroupDescStats)
    ensures var img := GroupDescStatsImage(g);
      && |img| == GroupDescStatsLen(g)
      && Complete(img)
      && img[..2] == Bytes(Be16(Trunc16(|img|)))
      && img[GROUP_DESC_STATS_SIZE..] == BucketsImage(g.buckets)
  {
    BucketsTotalLenAgrees(g.buckets);
    var h := Bytes(GroupDescHeader(g));
    var b := BucketsImage(g.buckets);
    assert (h + b)[..2] == h[..2];
    CompleteAppend(h, b);
  }

  /** `ofl_structs_group_desc_stats_pack`: writes the header, packs the buckets after it, and
      returns the record's length. */
  method PackGroupDescStats(g: GroupDescStats, dst: array<byte>, at: nat) returns (r: nat)
    requires at + GroupDescStatsLen(g) <= dst.Length
    modifies dst
    ensures r == GroupDescStatsLen(g) && |GroupDescStatsImage(g)| == GroupDescStatsLen(g)
    ensures dst[..] == Patch(old(dst[..]), at, GroupDescStatsImage(g))
  {
    BucketsTotalLenAgrees(g.buckets);
    var totalLen := GROUP_DESC_STATS_SIZE + BucketsTotalLen(g.buckets);
    ghost var s := dst[..];
    WriteImage(dst, at, Bytes(Be16(Trunc16(totalLen)) + [g.groupType] + [0] + Be32(g.groupId)));
    ghost var header := dst[..];
    var _ := PackBucketList(g.buckets, dst, at + GROUP_DESC_STATS_SIZE);
    PatchStep(s, header, dst[..], at, at + GROUP_DESC_STATS_SIZE, Bytes(GroupDescHeader(g)), BucketsImage(g.buckets));
    r := totalLen;
  }

  /** `ofl_structs_group_desc_stats_ofp_total_len` is the size of the records packed back to
      back. */
  lemma GroupDescStatsTotalLenAgrees(gs: seq<GroupDescStats>)
    ensures GroupDescStatsTotalLen(gs) == |Concat(Images(gs, GroupDescStatsImage))|
  {
    forall k | 0 <= k < |gs| ensures |GroupDescStatsImage(gs[k])| == GroupDescStatsLen(gs[k]) {
      GroupDescStatsFields(gs[k]);
    }
    LaidOutSize(gs, GroupDescStatsImage, GroupDescStatsLen);
  }
}
