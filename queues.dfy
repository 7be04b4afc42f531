/** Queue properties and packet queues: `ofl_structs_queue_prop_*` and
    `ofl_structs_packet_queue_*`. */
module Queues {
  import opened Wire
  import opened Ofp
  import opened Structs
  import opened Layout

  // ---------------------------------------------------------------------------
  // Queue properties.

  /** The OFPQT_* code written into the `property` field. */
  function QueuePropType(p: QueueProp): u16
  {
    match p
    case MinRate(_) => OFPQT_MIN_RATE
    case MaxRate(_) => OFPQT_MAX_RATE
    case ExperimenterProp(_, _) => OFPQT_EXPERIMENTER
    case UnknownProp(t) => t
  }

  /** The property code decides the case, as the `switch` on `type` does. */
  lemma QueuePropTypeIdentifies(p: QueueProp)
    ensures QueuePropType(p) == OFPQT_MIN_RATE <==> p.MinRate?
    ensures QueuePropType(p) == OFPQT_MAX_RATE <==> p.MaxRate?
    ensures QueuePropType(p) == OFPQT_EXPERIMENTER <==> p.ExperimenterProp?
  {
  }

  /** `ofl_structs_queue_prop_ofp_len`: the fixed size of a known property, 0 otherwise. */
  function QueuePropLen(p: QueueProp): (r: nat)
    ensures r == 0 <==> p.UnknownProp?
  {
    match p
    case MinRate(_) => QUEUE_PROP_MIN_RATE_SIZE
    case MaxRate(_) => QUEUE_PROP_MAX_RATE_SIZE
    case ExperimenterProp(_, _) => QUEUE_PROP_EXPERIMENTER_SIZE
    case UnknownProp(_) => 0
  }

  /** `ofl_structs_queue_prop_ofp_total_len`. */
  function QueuePropsTotalLen(ps: seq<QueueProp>): nat
  {
    Sum(ps, QueuePropLen)
  }

  /** A rate property after its type: `len`, the pad, `rate`, six more pad bytes. */
  function RatePropRest(size: u16, rate: u16): seq<byte>
  {
    Be16(size) + (Zeros(4) + (Be16(rate) + Zeros(6)))
  }

  /** What the pack pass writes, in every case. The experimenter property's `experimenter`
      field is never written, and an unknown property gets only its type and pad. */
  function QueuePropImage(p: QueueProp): seq<Cell>
  {
    match p
    case MinRate(rate) => Bytes(Be16(OFPQT_MIN_RATE) + RatePropRest(QUEUE_PROP_MIN_RATE_SIZE, rate))
    case MaxRate(rate) => Bytes(Be16(OFPQT_MAX_RATE) + RatePropRest(QUEUE_PROP_MAX_RATE_SIZE, rate))
    case ExperimenterProp(_, _) =>
      Bytes(Be16(OFPQT_EXPERIMENTER) + Be16(QUEUE_PROP_EXPERIMENTER_SIZE) + Zeros(4)) + Skips(4) + Bytes(Zeros(4))
    case UnknownProp(t) => PreludeImage(t)
  }

  /** A known property: the image is as long as the length pass says, starts with the type,
      holds that length in `len`, and zeroes every pad; only the experimenter id is left
      unwritten. An unknown property has length 0 but still gets its 8-byte type and pad. */
  lemma QueuePropFields(p: QueueProp)
    ensures var img := QueuePropImage(p);
      && (!p.UnknownProp? ==>
            && |img| == QueuePropLen(p) == 16
            && img[..4] == Bytes(Be16(QueuePropType(p)) + Be16(QueuePropLen(p)))
            && img[4..8] == Bytes(Zeros(4)))
      && ((p.MinRate? || p.MaxRate?) ==>
            Complete(img) && img[8..10] == Bytes(Be16(p.rate)) && img[10..] == Bytes(Zeros(6)))
      && (p.ExperimenterProp? ==> img[8..12] == Skips(4) && img[12..] == Bytes(Zeros(4)))
      && (p.UnknownProp? ==> QueuePropLen(p) == 0 && |img| == 8 && img[2..4] == Skips(2))
  {
  }

  /** Writes of the experimenter case: prelude, then `len`, then the final pad. */
  lemma ExperimenterPropWrites(s: seq<byte>, off: nat)
    requires off + QUEUE_PROP_EXPERIMENTER_SIZE <= |s|
    ensures Patch(Patch(Patch(s, off, PreludeImage(OFPQT_EXPERIMENTER)), off + 2, Bytes(Be16(QUEUE_PROP_EXPERIMENTER_SIZE))),
                  off + 12, Bytes(Zeros(4)))
         == Patch(s, off, QueuePropImage(ExperimenterProp(0, [])))
  {
    var l := Patch(Patch(Patch(s, off, PreludeImage(OFPQT_EXPERIMENTER)), off + 2, Bytes(Be16(QUEUE_PROP_EXPERIMENTER_SIZE))),
                  off + 12, Bytes(Zeros(4)));
    var img := QueuePropImage(ExperimenterProp(0, []));
    var r := Patch(s, off, img);
    forall k | 0 <= k < |s| ensures l[k] == r[k] {
      if off <= k < off + 2 {
        assert PreludeImage(OFPQT_EXPERIMENTER)[k - off] == img[k - off];
      } else if off + 4 <= k < off + 8 {
        assert PreludeImage(OFPQT_EXPERIMENTER)[k - off] == img[k - off];
      }
    }
  }

  /** `ofl_structs_queue_prop_pack`: writes `property` and the pad, then the case's fields, and
      returns the length the length pass gives. */
  method PackQueueProp(p: QueueProp, dst: array<byte>, off: nat) returns (r: nat)
    requires off + |QueuePropImage(p)| <= dst.Length
    modifies dst
    ensures r == QueuePropLen(p)
    ensures dst[..] == Patch(old(dst[..]), off, QueuePropImage(p))
  {
    ghost var s := dst[..];
    WriteImage(dst, off, PreludeImage(QueuePropType(p)));
    match p {
      case MinRate(rate) =>
        PackRest(dst, off, s, OFPQT_MIN_RATE, Be16(QUEUE_PROP_MIN_RATE_SIZE) + (Zeros(4) + (Be16(rate) + Zeros(6))));
        r := QUEUE_PROP_MIN_RATE_SIZE;
      case MaxRate(rate) =>
        PackRest(dst, off, s, OFPQT_MAX_RATE, Be16(QUEUE_PROP_MAX_RATE_SIZE) + (Zeros(4) + (Be16(rate) + Zeros(6))));
        r := QUEUE_PROP_MAX_RATE_SIZE;
      case ExperimenterProp(_, _) =>
        WriteImage(dst, off + 2, Bytes(Be16(QUEUE_PROP_EXPERIMENTER_SIZE)));
        WriteImage(dst, off + 12, Bytes(Zeros(4)));
        ExperimenterPropWrites(s, off);
        r := QUEUE_PROP_EXPERIMENTER_SIZE;
      case UnknownProp(_) =>
        r := 0;
    }
  }

  /** The properties the packet-queue loop lays out: every known type. */
  predicate KnownProps(ps: seq<QueueProp>)
  {
    forall k :: 0 <= k < |ps| ==> !ps[k].UnknownProp?
  }

  /** The properties packed back to back, the first one first. */
  function QueuePropsImage(ps: seq<QueueProp>): seq<Cell>
  {
    Concat(Images(ps, QueuePropImage))
  }

  /** Length/pack agreement for known properties: the total length is the size of the packed
      properties. */
  lemma QueuePropsTotalLenAgrees(ps: seq<QueueProp>)
    requires KnownProps(ps)
    ensures |QueuePropsImage(ps)| == QueuePropsTotalLen(ps)
    ensures QueuePropsTotalLen(ps) == 16 * |ps|
  {
    forall k | 0 <= k < |ps| ensures |QueuePropImage(ps[k])| == QueuePropLen(ps[k]) {
      QueuePropFields(ps[k]);
    }
    LaidOutSize(ps, QueuePropImage, QueuePropLen);
    SumConst(ps, QueuePropLen, 16);
  }

  /** The property loop of the packet-queue packer: each property is packed at the cursor,
      which then advances by the count the property packer returns. */
  method PackQueuePropList(ps: seq<QueueProp>, dst: array<byte>, at: nat) returns (cursor: nat)
    requires KnownProps(ps)
    requires at + QueuePropsTotalLen(ps) <= dst.Length
    modifies dst
    ensures cursor == at + QueuePropsTotalLen(ps) && |QueuePropsImage(ps)| == QueuePropsTotalLen(ps)
    ensures dst[..] == Patch(old(dst[..]), at, QueuePropsImage(ps))
  {
    QueuePropsTotalLenAgrees(ps);
    ghost var parts := Images(ps, QueuePropImage);
    cursor := at;
    var i := 0;
    while i < |ps|
      invariant 0 <= i <= |ps|
      invariant cursor == at + |Concat(parts[..i])|
      invariant |Concat(parts[..i])| <= |Concat(parts)|
      invariant dst[..] == Patch(old(dst[..]), at, Concat(parts[..i]))
    {
      ConcatAt(parts, i);
      ConcatSnoc(parts, i);
      QueuePropFields(ps[i]);
      assert parts[i] == QueuePropImage(ps[i]);
      ghost var before := dst[..];
      var len := PackQueueProp(ps[i], dst, cursor);
      PatchStep(old(dst[..]), before, dst[..], at, cursor, Concat(parts[..i]), parts[i]);
      cursor := cursor + len;
      i := i + 1;
    }
    assert parts[..i] == parts;
  }

  // ---------------------------------------------------------------------------
  // Packet queues: `queue_id`, `len`, pad[2], then the properties.

  /** `ofl_structs_packet_queue_ofp_len`. */
  function PacketQueueLen(q: PacketQueue): nat
  {
    PACKET_QUEUE_SIZE + QueuePropsTotalLen(q.properties)
  }

  /** `ofl_structs_packet_queue_ofp_total_len`. */
  function PacketQueuesTotalLen(qs: seq<PacketQueue>): nat
  {
    Sum(qs, PacketQueueLen)
  }

  function PacketQueueHeader(q: PacketQueue): seq<byte>
  {
    Be32(q.queueId) + Be16(Trunc16(PacketQueueLen(q))) + Zeros(2)
  }

  function PacketQueueImage(q: PacketQueue): seq<Cell>
  {
    Bytes(PacketQueueHeader(q)) + QueuePropsImage(q.properties)
  }

  /** A packet queue with known properties is `PacketQueueLen` bytes long, its `len` field
      holds that length (mod 2^16), and its properties follow the 8-byte header. */
  lemma PacketQueueFields(q: PacketQueue)
    requires KnownProps(q.properties)
    ensures var img := PacketQueueImage(q);
      && |img| == PacketQueueLen(q)
      && img[4..6] == Bytes(Be16(Trunc16(|img|)))
      && img[PACKET_QUEUE_SIZE..] == QueuePropsImage(q.properties)
  {
    QueuePropsTotalLenAgrees(q.properties);
    var h := Bytes(PacketQueueHeader(q));
    var ps := QueuePropsImage(q.properties);
    assert (h + ps)[4..6] == h[4..6];
  }

  /** `ofl_structs_packet_queue_pack`: writes the header, packs the properties after it, and
      returns the queue's length. */
  method PackPacketQueue(q: PacketQueue, dst: array<byte>, at: nat) returns (r: nat)
    requires KnownProps(q.properties)
    requires at + PacketQueueLen(q) <= dst.Length
    modifies dst
    ensures r == PacketQueueLen(q) && |PacketQueueImage(q)| == PacketQueueLen(q)
    ensures dst[..] == Patch(old(dst[..]), at, PacketQueueImage(q))
  {
    QueuePropsTotalLenAgrees(q.properties);
    var totalLen := PACKET_QUEUE_SIZE + QueuePropsTotalLen(q.properties);
    ghost var s := dst[..];
    WriteImage(dst, at, Bytes(Be32(q.queueId) + Be16(Trunc16(totalLen)) + Zeros(2)));
    ghost var header := dst[..];
    var _ := PackQueuePropList(q.properties, dst, at + PACKET_QUEUE_SIZE);
    PatchStep(s, header, dst[..], at, at + PACKET_QUEUE_SIZE, Bytes(PacketQueueHeader(q)), QueuePropsImage(q.properties));
    r := totalLen;
  }

  /** `ofl_structs_packet_queue_ofp_total_len` is the size of the queues packed back to back
      when their properties are all known. */
  lemma PacketQueuesTotalLenAgrees(qs: seq<PacketQueue>)
    requires forall k :: 0 <= k < |qs| ==> KnownProps(qs[k].properties)
    ensures PacketQueuesTotalLen(qs) == |Concat(Images(qs, PacketQueueImage))|
  {
    forall k | 0 <= k < |qs| ensures |PacketQueueImage(qs[k])| == PacketQueueLen(qs[k]) {
      PacketQueueFields(qs[k]);
    }
    LaidOutSize(qs, PacketQueueImage, PacketQueueLen);
  }
}
