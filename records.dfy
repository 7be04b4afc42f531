/** The fixed-size leaf records: `ofl_structs_port_pack`, `_table_stats_pack`,
    `_port_stats_pack`, `_queue_stats_pack` and `_bucket_counter_pack`. Each writes every field
    of its record in network byte order, zeroes its pads, and returns the record's size. The
    decoders beside them read a record back and state that nothing is lost. */
module Records {
  import opened Wire
  import opened Ofp
  import opened Structs

  // ---------------------------------------------------------------------------
  // Runs of 32- and 64-bit fields.

  function Be32s(xs: seq<u32>): (r: seq<byte>)
    ensures |r| == 4 * |xs|
  {
    if xs == [] then [] else Be32(xs[0]) + Be32s(xs[1..])
  }

  function Be64s(xs: seq<u64>): (r: seq<byte>)
    ensures |r| == 8 * |xs|
  {
    if xs == [] then [] else Be64(xs[0]) + Be64s(xs[1..])
  }

  /** Field `k` of a run of 32-bit fields. */
  lemma {:induction false} Be32sAt(xs: seq<u32>, k: nat)
    requires k < |xs|
    ensures Be32s(xs)[4 * k..4 * k + 4] == Be32(xs[k])
  {
    if k > 0 {
      Be32sAt(xs[1..], k - 1);
      assert Be32s(xs)[4 * k..4 * k + 4] == Be32s(xs[1..])[4 * (k - 1)..4 * (k - 1) + 4];
    }
  }

  /** Field `k` of a run of 64-bit fields. */
  lemma {:induction false} Be64sAt(xs: seq<u64>, k: nat)
    requires k < |xs|
    ensures Be64s(xs)[8 * k..8 * k + 8] == Be64(xs[k])
  {
    if k > 0 {
      Be64sAt(xs[1..], k - 1);
      assert Be64s(xs)[8 * k..8 * k + 8] == Be64s(xs[1..])[8 * (k - 1)..8 * (k - 1) + 8];
    }
  }

  function FromBe32At(s: seq<byte>, k: nat): u32
    requires 4 * k + 4 <= |s|
  {
    FromBe32(s[4 * k..4 * k + 4])
  }

  function FromBe64At(s: seq<byte>, k: nat): u64
    requires 8 * k + 8 <= |s|
  {
    FromBe64(s[8 * k..8 * k + 8])
  }

  lemma Be32sRoundTrip(xs: seq<u32>, k: nat)
    requires k < |xs|
    ensures FromBe32At(Be32s(xs), k) == xs[k]
  {
    Be32sAt(xs, k);
    Be32RoundTrip(xs[k]);
  }

  lemma Be64sRoundTrip(xs: seq<u64>, k: nat)
    requires k < |xs|
    ensures FromBe64At(Be64s(xs), k) == xs[k]
  {
    Be64sAt(xs, k);
    Be64RoundTrip(xs[k]);
  }

  // ---------------------------------------------------------------------------
  // The port name: `strncpy(dst->name, src->name, OFP_MAX_PORT_NAME_LEN)`.

  /** `strncpy(dst, src, n)` for a string `src` (its terminating NUL not included): copies up to
      the first NUL or `n` bytes, and fills the rest of the `n` bytes with zeros. */
  function StrNCopy(src: seq<byte>, n: nat): (r: seq<byte>)
    ensures |r| == n
  {
    if n == 0 then []
    else if src == [] || src[0] == 0 then Zeros(n)
    else [src[0]] + StrNCopy(src[1..], n - 1)
  }

  /** The C string stored in a fixed-width field: its bytes up to the first NUL. */
  function CString(field: seq<byte>): (r: seq<byte>)
    ensures |r| <= |field| && 0 !in r
  {
    if field == [] || field[0] == 0 then [] else [field[0]] + CString(field[1..])
  }

  /** A name of at most `n` bytes without a NUL is copied whole and padded with zeros, and it
      reads back unchanged. */
  lemma {:induction false} StrNCopyRoundTrip(src: seq<byte>, n: nat)
    requires |src| <= n && 0 !in src
    ensures StrNCopy(src, n) == src + Zeros(n - |src|)
    ensures CString(StrNCopy(src, n)) == src
  {
    if n > 0 {
      if src == [] {
        assert CString(Zeros(n)) == [];
      } else {
        StrNCopyRoundTrip(src[1..], n - 1);
        assert [src[0]] + (src[1..] + Zeros(n - |src|)) == src + Zeros(n - |src|);
        assert StrNCopy(src, n)[1..] == StrNCopy(src[1..], n - 1);
      }
    }
  }

  /** A longer name without a NUL in its first `n` bytes is cut to `n` bytes, with no NUL left. */
  lemma {:induction false} StrNCopyTruncates(src: seq<byte>, n: nat)
    requires n <= |src| && 0 !in src[..n]
    ensures StrNCopy(src, n) == src[..n]
  {
    if n > 0 {
      assert src[1..][..n - 1] == src[..n][1..];
      StrNCopyTruncates(src[1..], n - 1);
    }
  }

  // ---------------------------------------------------------------------------
  // struct ofp_port.

  /** The eight 32-bit fields after the name. */
  function PortWords(p: Port): seq<u32>
  {
    [p.config, p.state, p.curr, p.advertised, p.supported, p.peer, p.currSpeed, p.maxSpeed]
  }

  /** `port_no`, pad[4], `hw_addr`, pad2[2], `name`, then the eight 32-bit fields. */
  function PortBytes(p: Port): (r: seq<byte>)
    ensures |r| == PORT_SIZE
  {
    Be32(p.portNo) + Zeros(4) + p.hwAddr + Zeros(2) + StrNCopy(p.name, OFP_MAX_PORT_NAME_LEN) + Be32s(PortWords(p))
  }

  function DecodePort(s: seq<byte>): Option<Port>
  {
    if |s| != PORT_SIZE then None
    else
      var w := s[32..];
      Some(Port(FromBe32(s[..4]), s[8..14], CString(s[16..32]),
                FromBe32At(w, 0), FromBe32At(w, 1), FromBe32At(w, 2), FromBe32At(w, 3),
                FromBe32At(w, 4), FromBe32At(w, 5), FromBe32At(w, 6), FromBe32At(w, 7)))
  }

  /** A port whose name fits the field and holds no NUL reads back unchanged. */
  lemma PortRoundTrip(p: Port)
    requires |p.name| <= OFP_MAX_PORT_NAME_LEN && 0 !in p.name
    ensures DecodePort(PortBytes(p)) == Some(p)
  {
    var s := PortBytes(p);
    var name := StrNCopy(p.name, OFP_MAX_PORT_NAME_LEN);
    assert s[..4] == Be32(p.portNo);
    assert s[8..14] == p.hwAddr;
    assert s[16..32] == name;
    assert s[32..] == Be32s(PortWords(p));
    Be32RoundTrip(p.portNo);
    StrNCopyRoundTrip(p.name, OFP_MAX_PORT_NAME_LEN);
    forall k | 0 <= k < 8 ensures FromBe32At(s[32..], k) == PortWords(p)[k] {
      Be32sRoundTrip(PortWords(p), k);
    }
  }

  /** `ofl_structs_port_pack`. */
  method PackPort(p: Port, dst: array<byte>, at: nat) returns (r: nat)
    requires at + PORT_SIZE <= dst.Length
    modifies dst
    ensures r == PORT_SIZE
    ensures dst[..] == Patch(old(dst[..]), at, Bytes(PortBytes(p)))
  {
    var name := StrNCopy(p.name, OFP_MAX_PORT_NAME_LEN);
    WriteImage(dst, at, Bytes(Be32(p.portNo) + Zeros(4) + p.hwAddr + Zeros(2) + name
      + Be32s([p.config, p.state, p.curr, p.advertised, p.supported, p.peer, p.currSpeed, p.maxSpeed])));
    r := PORT_SIZE;
  }

  // ---------------------------------------------------------------------------
  // struct ofp_table_stats.

  /** `table_id`, pad[3], `active_count`, `lookup_count`, `matched_count`. */
  function TableStatsBytes(t: TableStats): (r: seq<byte>)
    ensures |r| == TABLE_STATS_SIZE
  {
    [t.tableId] + Zeros(3) + Be32(t.activeCount) + Be64(t.lookupCount) + Be64(t.matchedCount)
  }

  function DecodeTableStats(s: seq<byte>): Option<TableStats>
  {
    if |s| != TABLE_STATS_SIZE then None
    else Some(TableStats(s[0], FromBe32(s[4..8]), FromBe64(s[8..16]), FromBe64(s[16..24])))
  }

  lemma TableStatsRoundTrip(t: TableStats)
    ensures DecodeTableStats(TableStatsBytes(t)) == Some(t)
  {
    var s := TableStatsBytes(t);
    assert s == ([t.tableId] + Zeros(3) + Be32(t.activeCount)) + (Be64(t.lookupCount) + Be64(t.matchedCount));
    assert s[4..8] == Be32(t.activeCount);
    assert s[8..16] == Be64(t.lookupCount);
    assert s[16..24] == Be64(t.matchedCount);
    Be32RoundTrip(t.activeCount);
    Be64RoundTrip(t.lookupCount);
    Be64RoundTrip(t.matchedCount);
  }

  /** `ofl_structs_table_stats_pack`. */
  method PackTableStats(t: TableStats, dst: array<byte>, at: nat) returns (r: nat)
    requires at + TABLE_STATS_SIZE <= dst.Length
    modifies dst
    ensures r == TABLE_STATS_SIZE
    ensures dst[..] == Patch(old(dst[..]), at, Bytes(TableStatsBytes(t)))
  {
    WriteImage(dst, at, Bytes([t.tableId] + Zeros(3) + Be32(t.activeCount) + Be64(t.lookupCount) + Be64(t.matchedCount)));
    r := TABLE_STATS_SIZE;
  }

  // ---------------------------------------------------------------------------
  // struct ofp_port_stats.

  /** The twelve 64-bit counters after `port_no` and the pad. */
  function PortCounters(p: PortStats): seq<u64>
  {
    [p.rxPackets, p.txPackets, p.rxBytes, p.txBytes, p.rxDropped, p.txDropped,
     p.rxErrors, p.txErrors, p.rxFrameErr, p.rxOverErr, p.rxCrcErr, p.collisions]
  }

  function PortStatsBytes(p: PortStats): (r: seq<byte>)
    ensures |r| == PORT_STATS_SIZE
  {
    Be32(p.portNo) + Zeros(4) + Be64s(PortCounters(p))
  }

  function DecodePortStats(s: seq<byte>): Option<PortStats>
  {
    if |s| != PORT_STATS_SIZE then None
    else
      var c := s[8..];
      Some(PortStats(FromBe32(s[..4]),
                     FromBe64At(c, 0), FromBe64At(c, 1), FromBe64At(c, 2), FromBe64At(c, 3),
                     FromBe64At(c, 4), FromBe64At(c, 5), FromBe64At(c, 6), FromBe64At(c, 7),
                     FromBe64At(c, 8), FromBe64At(c, 9), FromBe64At(c, 10), FromBe64At(c, 11)))
  }

  lemma PortStatsRoundTrip(p: PortStats)
    ensures DecodePortStats(PortStatsBytes(p)) == Some(p)
  {
    var s := PortStatsBytes(p);
    assert s[..4] == Be32(p.portNo);
    assert s[8..] == Be64s(PortCounters(p));
    Be32RoundTrip(p.portNo);
    forall k | 0 <= k < 12 ensures FromBe64At(s[8..], k) == PortCounters(p)[k] {
      Be64sRoundTrip(PortCounters(p), k);
    }
  }

  /** `ofl_structs_port_stats_pack`. */
  method PackPortStats(p: PortStats, dst: array<byte>, at: nat) returns (r: nat)
    requires at + PORT_STATS_SIZE <= dst.Length
    modifies dst
    ensures r == PORT_STATS_SIZE
    ensures dst[..] == Patch(old(dst[..]), at, Bytes(PortStatsBytes(p)))
  {
    var counters := [p.rxPackets, p.txPackets, p.rxBytes, p.txBytes, p.rxDropped, p.txDropped,
                     p.rxErrors, p.txErrors, p.rxFrameErr, p.rxOverErr, p.rxCrcErr, p.collisions];
    WriteImage(dst, at, Bytes(Be32(p.portNo) + Zeros(4) + Be64s(counters)));
    r := PORT_STATS_SIZE;
  }

  // ---------------------------------------------------------------------------
  // struct ofp_queue_stats.

  function QueueStatsBytes(q: QueueStats): (r: seq<byte>)
    ensures |r| == QUEUE_STATS_SIZE
  {
    Be32(q.portNo) + Be32(q.queueId) + Be64(q.txBytes) + Be64(q.txPackets) + Be64(q.txErrors)
  }

  function DecodeQueueStats(s: seq<byte>): Option<QueueStats>
  {
    if |s| != QUEUE_STATS_SIZE then None
    else Some(QueueStats(FromBe32(s[..4]), FromBe32(s[4..8]), FromBe64(s[8..16]), FromBe64(s[16..24]), FromBe64(s[24..32])))
  }

  lemma QueueStatsRoundTrip(q: QueueStats)
    ensures DecodeQueueStats(QueueStatsBytes(q)) == Some(q)
  {
    var s := QueueStatsBytes(q);
    assert s[..4] == Be32(q.portNo);
    assert s[4..8] == Be32(q.queueId);
    assert s[8..16] == Be64(q.txBytes);
    assert s[16..24] == Be64(q.txPackets);
    assert s[24..32] == Be64(q.txErrors);
    Be32RoundTrip(q.portNo);
    Be32RoundTrip(q.queueId);
    Be64RoundTrip(q.txBytes);
    Be64RoundTrip(q.txPackets);
    Be64RoundTrip(q.txErrors);
  }

  /** `ofl_structs_queue_stats_pack`. */
  method PackQueueStats(q: QueueStats, dst: array<byte>, at: nat) returns (r: nat)
    requires at + QUEUE_STATS_SIZE <= dst.Length
    modifies dst
    ensures r == QUEUE_STATS_SIZE
    ensures dst[..] == Patch(old(dst[..]), at, Bytes(QueueStatsBytes(q)))
  {
    WriteImage(dst, at, Bytes(Be32(q.portNo) + Be32(q.queueId) + Be64(q.txBytes) + Be64(q.txPackets) + Be64(q.txErrors)));
    r := QUEUE_STATS_SIZE;
  }

  // ---------------------------------------------------------------------------
  // struct ofp_bucket_counter.

  function BucketCounterBytes(c: BucketCounter): (r: seq<byte>)
    ensures |r| == BUCKET_COUNTER_SIZE
  {
    Be64(c.packetCount) + Be64(c.byteCount)
  }

  function DecodeBucketCounter(s: seq<byte>): Option<BucketCounter>
  {
    if |s| != BUCKET_COUNTER_SIZE then None
    else Some(BucketCounter(FromBe64(s[..8]), FromBe64(s[8..])))
  }

  lemma BucketCounterRoundTrip(c: BucketCounter)
    ensures DecodeBucketCounter(BucketCounterBytes(c)) == Some(c)
  {
    Be64RoundTrip(c.packetCount);
    Be64RoundTrip(c.byteCount);
  }

  /** `ofl_structs_bucket_counter_pack`. */
  method PackBucketCounter(c: BucketCounter, dst: array<byte>, at: nat) returns (r: nat)
    requires at + BUCKET_COUNTER_SIZE <= dst.Length
    modifies dst
    ensures r == BUCKET_COUNTER_SIZE
    ensures dst[..] == Patch(old(dst[..]), at, Bytes(BucketCounterBytes(c)))
  {
    WriteImage(dst, at, Bytes(Be64(c.packetCount) + Be64(c.byteCount)));
    r := BUCKET_COUNTER_SIZE;
  }
}
