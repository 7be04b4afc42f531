/** Group buckets: `ofl_structs_buckets_ofp_len`, `_ofp_total_len` and `ofl_structs_bucket_pack`.
    A bucket is its 16-byte header, its actions, and zero padding up to a multiple of 8. */
module Buckets {
  import opened Wire
  import opened Ofp
  import opened Structs
  import opened Actions
  import opened Layout

  /** The header plus the actions, before alignment. */
  function BucketRawLen(b: Bucket): nat
  {
    BUCKET_SIZE + ActionsTotalLen(b.actions)
  }

  /** `ofl_structs_buckets_ofp_len`: the raw length padded to a multiple of 8. */
  function BucketLen(b: Bucket): nat
  {
    PadTo8(BucketRawLen(b))
  }

  /** The number of zero bytes after the last action (`align`). */
  function BucketAlign(b: Bucket): nat
  {
    var rem := BucketRawLen(b) % 8;
    if rem == 0 then 0 else 8 - rem
  }

  /** A bucket's length is the least multiple of 8 that holds its header and actions: it adds
      fewer than 8 bytes, exactly the `align` zero bytes. */
  lemma BucketLenAligned(b: Bucket)
    ensures BucketLen(b) % 8 == 0
    ensures BucketRawLen(b) <= BucketLen(b) < BucketRawLen(b) + 8
    ensures BucketLen(b) == BucketRawLen(b) + BucketAlign(b)
    ensures forall m: nat :: BucketRawLen(b) <= m && m % 8 == 0 ==> BucketLen(b) <= m
  {
    RoundUpIsPadTo8(BucketRawLen(b));
  }

  /** `ofl_structs_buckets_ofp_total_len`. */
  function BucketsTotalLen(bs: seq<Bucket>): nat
  {
    Sum(bs, BucketLen)
  }

  /** `len`, `weight`, `watch_port`, `watch_group`, four zero pad bytes. */
  function BucketHeader(b: Bucket): seq<byte>
  {
    Be16(Trunc16(BucketLen(b))) + (Be16(b.weight) + (Be32(b.watchPort) + Be32(b.watchGroup) + Zeros(4)))
  }

  /** The wire image of a bucket. */
  function BucketImage(b: Bucket): seq<Cell>
  {
    Bytes(BucketHeader(b)) + ActionsImage(b.actions) + Bytes(Zeros(BucketAlign(b)))
  }

  /** A packed bucket is `BucketLen` bytes long and every byte is written; its `len` field holds
      that length (mod 2^16); the actions follow the header back to back; and the padding after
      them is zero. */
  lemma BucketFields(b: Bucket)
    ensures var img := BucketImage(b);
      && |img| == BucketLen(b)
      && Complete(img)
      && img[..2] == Bytes(Be16(Trunc16(|img|)))
      && img[BUCKET_SIZE..BucketRawLen(b)] == ActionsImage(b.actions)
      && img[BucketRawLen(b)..] == Bytes(Zeros(BucketAlign(b)))
  {
    BucketLenAligned(b);
    ActionsImageLen(b.actions);
    var h := Bytes(BucketHeader(b));
    var acts := ActionsImage(b.actions);
    var z := Bytes(Zeros(BucketAlign(b)));
    assert (h + acts + z)[..2] == h[..2];
    assert (h + acts + z)[BUCKET_SIZE..BucketRawLen(b)] == acts;
    assert (h + acts + z)[BucketRawLen(b)..] == z;
    CompleteAppend(h, acts);
    CompleteAppend(h + acts, z);
  }

  /** `ofl_structs_bucket_pack`: writes the header, packs the actions after it, zero-fills the
      `align` bytes after the last action, and returns the padded length. */
  method PackBucket(b: Bucket, dst: array<byte>, at: nat) returns (r: nat)
    requires at + BucketLen(b) <= dst.Length
    modifies dst
    ensures r == BucketLen(b) && |BucketImage(b)| == BucketLen(b)
    ensures dst[..] == Patch(old(dst[..]), at, BucketImage(b))
  {
    BucketLenAligned(b);
    ActionsImageLen(b.actions);
    var totalLen := BUCKET_SIZE + ActionsTotalLen(b.actions);
    var rem := totalLen % 8;
    var align := if rem == 0 then 0 else 8 - rem;
    totalLen := totalLen + align;
    ghost var s := dst[..];
    ghost var h := Bytes(BucketHeader(b));
    ghost var acts := ActionsImage(b.actions);
    assert totalLen == BucketLen(b) && align == BucketAlign(b);
    WriteImage(dst, at, Bytes(Be16(Trunc16(totalLen)) + (Be16(b.weight) + (Be32(b.watchPort) + Be32(b.watchGroup) + Zeros(4)))));
    ghost var mid := dst[..];
    var data := PackActionList(b.actions, dst, at + BUCKET_SIZE);
    PatchStep(s, mid, dst[..], at, at + BUCKET_SIZE, h, acts);
    ghost var full := dst[..];
    assert data == at + |h + acts|;
    WriteImage(dst, data, Bytes(Zeros(align)));
    PatchStep(s, full, dst[..], at, data, h + acts, Bytes(Zeros(align)));
    r := totalLen;
  }

  /** The buckets packed back to back, the first one first. */
  function BucketsImage(bs: seq<Bucket>): seq<Cell>
  {
    Concat(Images(bs, BucketImage))
  }

  /** Length/pack agreement for a bucket array: the total length is the size of the packed
      array, and every byte of it is written. */
  lemma BucketsTotalLenAgrees(bs: seq<Bucket>)
    ensures |BucketsImage(bs)| == BucketsTotalLen(bs)
    ensures Complete(BucketsImage(bs))
  {
    forall k | 0 <= k < |bs| ensures |BucketImage(bs[k])| == BucketLen(bs[k]) && Complete(BucketImage(bs[k])) {
      BucketFields(bs[k]);
    }
    LaidOut(bs, BucketImage, BucketLen);
  }

  /** The bucket loop of the group-description packer: each bucket is packed at the cursor,
      which then advances by the count the bucket packer returns. */
  method PackBucketList(bs: seq<Bucket>, dst: array<byte>, at: nat) returns (cursor: nat)
    requires at + BucketsTotalLen(bs) <= dst.Length
    modifies dst
    ensures cursor == at + BucketsTotalLen(bs) && |BucketsImage(bs)| == BucketsTotalLen(bs)
    ensures dst[..] == Patch(old(dst[..]), at, BucketsImage(bs))
  {
    BucketsTotalLenAgrees(bs);
    ghost var parts := Images(bs, BucketImage);
    cursor := at;
    var i := 0;
    while i < |bs|
      invariant 0 <= i <= |bs|
      invariant cursor == at + |Concat(parts[..i])|
      invariant |Concat(parts[..i])| <= |Concat(parts)|
      invariant dst[..] == Patch(old(dst[..]), at, Concat(parts[..i]))
    {
      ConcatAt(parts, i);
      ConcatSnoc(parts, i);
      BucketFields(bs[i]);
      assert parts[i] == BucketImage(bs[i]);
      ghost var before := dst[..];
      var len := PackBucket(bs[i], dst, cursor);
      PatchStep(old(dst[..]), before, dst[..], at, cursor, Concat(parts[..i]), parts[i]);
      cursor := cursor + len;
      i := i + 1;
    }
    assert parts[..i] == parts;
  }
}
