/** Byte-level building blocks shared by every packer: integer widths, network byte order,
    zero padding, 8-byte rounding, and the picture of a buffer after a record is written into it. */
module Wire {

  type byte = x: int | 0 <= x < 0x100
  type u16 = x: int | 0 <= x < 0x1_0000
  type u32 = x: int | 0 <= x < 0x1_0000_0000
  type u64 = x: int | 0 <= x < 0x1_0000_0000_0000_0000

  /** The C code reports `(size_t)-1` for a missing callback; here that is `None`. */
  datatype Option<T> = None | Some(value: T)

  // ---------------------------------------------------------------------------
  // Network byte order (htons, htonl, hton64) and the matching decoders.

  function Be16(x: u16): (r: seq<byte>)
    ensures |r| == 2
  {
    [x / 0x100, x % 0x100]
  }

  function Be32(x: u32): (r: seq<byte>)
    ensures |r| == 4
  {
    Be16(x / 0x1_0000) + Be16(x % 0x1_0000)
  }

  function Be64(x: u64): (r: seq<byte>)
    ensures |r| == 8
  {
    Be32(x / 0x1_0000_0000) + Be32(x % 0x1_0000_0000)
  }

  function FromBe16(s: seq<byte>): u16
    requires |s| == 2
  {
    (s[0] as int) * 0x100 + (s[1] as int)
  }

  function FromBe32(s: seq<byte>): u32
    requires |s| == 4
  {
    FromBe16(s[..2]) * 0x1_0000 + FromBe16(s[2..])
  }

  function FromBe64(s: seq<byte>): u64
    requires |s| == 8
  {
    FromBe32(s[..4]) * 0x1_0000_0000 + FromBe32(s[4..])
  }

  lemma Be16RoundTrip(x: u16)
    ensures FromBe16(Be16(x)) == x
  {
  }

  lemma Be32RoundTrip(x: u32)
    ensures FromBe32(Be32(x)) == x
  {
    var s := Be32(x);
    assert s[..2] == Be16(x / 0x1_0000);
    assert s[2..] == Be16(x % 0x1_0000);
    Be16RoundTrip(x / 0x1_0000);
    Be16RoundTrip(x % 0x1_0000);
  }

  lemma Be64RoundTrip(x: u64)
    ensures FromBe64(Be64(x)) == x
  {
    var s := Be64(x);
    assert s[..4] == Be32(x / 0x1_0000_0000);
    assert s[4..] == Be32(x % 0x1_0000_0000);
    Be32RoundTrip(x / 0x1_0000_0000);
    Be32RoundTrip(x % 0x1_0000_0000);
  }

  /** `htons` applied to a `size_t`: only the low 16 bits of a length reach the wire. */
  function Trunc16(n: nat): (r: u16)
    ensures n < 0x1_0000 ==> r == n
  {
    n % 0x1_0000
  }

  function Zeros(n: nat): (r: seq<byte>)
    ensures |r| == n
  {
    seq(n, _ => 0)
  }

  // ---------------------------------------------------------------------------
  // 8-byte alignment, in the two spellings the source uses.

  /** The `ROUND_UP(X, Y)` macro: `(X + Y - 1) / Y * Y`. */
  function RoundUp(x: nat, y: nat): nat
    requires y > 0
  {
    (x + y - 1) / y * y
  }

  /** The bucket code's inline form: add `8 - x % 8` unless `x` is already a multiple of 8. */
  function PadTo8(x: nat): nat
  {
    var rem := x % 8;
    x + (if rem == 0 then 0 else 8 - rem)
  }

  /** Both spellings give the least multiple of 8 that is not below `x`. */
  lemma RoundUpIsPadTo8(x: nat)
    ensures RoundUp(x, 8) == PadTo8(x)
    ensures PadTo8(x) % 8 == 0 && x <= PadTo8(x) < x + 8
    ensures forall m: nat :: x <= m && m % 8 == 0 ==> PadTo8(x) <= m
  {
    var q := x / 8;
    assert x == 8 * q + x % 8;
    assert (x + 7) / 8 == if x % 8 == 0 then q else q + 1;
  }

  // ---------------------------------------------------------------------------
  // What a packer does to the destination buffer.

  /** One byte position of a packed record: written with `value`, or left as the buffer had it. */
  datatype Cell = Put(value: byte) | Skip

  /** The image of a byte string every byte of which is written. */
  function Bytes(b: seq<byte>): (img: seq<Cell>)
    ensures |img| == |b|
  {
    seq(|b|, k requires 0 <= k < |b| => Put(b[k]))
  }

  function Skips(n: nat): (img: seq<Cell>)
    ensures |img| == n
  {
    seq(n, _ => Skip)
  }

  /** No byte of the record is left stale. */
  predicate Complete(img: seq<Cell>)
  {
    forall k :: 0 <= k < |img| ==> img[k].Put?
  }

  lemma CompleteAppend(a: seq<Cell>, b: seq<Cell>)
    requires Complete(a) && Complete(b)
    ensures Complete(a + b)
  {
  }

  /** The first two 2-byte fields of a byte string. */
  lemma BytesHead(a: seq<byte>, b: seq<byte>, rest: seq<byte>)
    requires |a| == 2 && |b| == 2
    ensures |a + (b + rest)| == 4 + |rest|
    ensures Bytes(a + (b + rest))[..4] == Bytes(a + b)
    ensures Complete(Bytes(a + (b + rest)))
  {
  }

  lemma BytesConcat(a: seq<byte>, b: seq<byte>)
    ensures Bytes(a + b) == Bytes(a) + Bytes(b)
  {
  }

  /** The buffer `s` after the record image `img` has been written at offset `at`. */
  function Patch(s: seq<byte>, at: nat, img: seq<Cell>): (r: seq<byte>)
    requires at + |img| <= |s|
    ensures |r| == |s|
  {
    seq(|s|, k requires 0 <= k < |s| =>
      if at <= k < at + |img| && img[k - at].Put? then img[k - at].value else s[k])
  }

  /** Writing two images back to back is writing their concatenation. */
  lemma PatchThen(s: seq<byte>, at: nat, x: seq<Cell>, y: seq<Cell>)
    requires at + |x| + |y| <= |s|
    ensures Patch(Patch(s, at, x), at + |x|, y) == Patch(s, at, x + y)
  {
    var l := Patch(Patch(s, at, x), at + |x|, y);
    var r := Patch(s, at, x + y);
    forall k | 0 <= k < |s| ensures l[k] == r[k] {
      if at + |x| <= k < at + |x| + |y| {
        assert (x + y)[k - at] == y[k - (at + |x|)];
      } else if at <= k < at + |x| {
        assert (x + y)[k - at] == x[k - at];
      }
    }
  }

  /** One step of a packing loop: the buffer holding the first images, then the next image
      written at the cursor, holds the images so far followed by the next one. */
  lemma PatchStep(s0: seq<byte>, s1: seq<byte>, s2: seq<byte>, at: nat, cursor: nat, x: seq<Cell>, y: seq<Cell>)
    requires at + |x| + |y| <= |s0| && cursor == at + |x|
    requires s1 == Patch(s0, at, x)
    requires s2 == Patch(s1, cursor, y)
    ensures s2 == Patch(s0, at, x + y)
  {
    PatchThen(s0, at, x, y);
  }

  /** `over` written on top of `under` at the same offset: where `over` writes a byte, that byte;
      elsewhere what `under` wrote. */
  function Overlay(under: seq<Cell>, over: seq<Cell>): (img: seq<Cell>)
    ensures |img| == if |under| < |over| then |over| else |under|
  {
    var n := if |under| < |over| then |over| else |under|;
    seq(n, k requires 0 <= k < n =>
      if k < |over| && over[k].Put? then over[k] else if k < |under| then under[k] else Skip)
  }

  /** Writing two images at the same offset is writing their overlay. */
  lemma PatchOverlay(s: seq<byte>, at: nat, under: seq<Cell>, over: seq<Cell>)
    requires at + |under| <= |s| && at + |over| <= |s|
    ensures Patch(Patch(s, at, under), at, over) == Patch(s, at, Overlay(under, over))
  {
  }

  /** A complete image covers every image no longer than itself. */
  lemma OverlayCovers(under: seq<Cell>, over: seq<Cell>)
    requires |under| <= |over| && Complete(over)
    ensures Overlay(under, over) == over
  {
  }

  /** Writing a record leaves every byte before and after it as it was. */
  lemma PatchFrame(s: seq<byte>, at: nat, img: seq<Cell>)
    requires at + |img| <= |s|
    ensures Patch(s, at, img)[..at] == s[..at]
    ensures Patch(s, at, img)[at + |img|..] == s[at + |img|..]
  {
  }

  /** Rewriting a field in the middle of a record just written. */
  lemma PatchField(s: seq<byte>, at: nat, x: seq<byte>, y: seq<byte>, y2: seq<byte>, z: seq<byte>)
    requires |y2| == |y| && at + |x| + |y| + |z| <= |s|
    ensures Patch(Patch(s, at, Bytes(x + y + z)), at + |x|, Bytes(y2)) == Patch(s, at, Bytes(x + y2 + z))
  {
    var l := Patch(Patch(s, at, Bytes(x + y + z)), at + |x|, Bytes(y2));
    var r := Patch(s, at, Bytes(x + y2 + z));
    forall k | 0 <= k < |s| ensures l[k] == r[k] {
      if at <= k < at + |x| {
        assert (x + y + z)[k - at] == x[k - at] == (x + y2 + z)[k - at];
      } else if at + |x| + |y| <= k < at + |x| + |y| + |z| {
        assert (x + y + z)[k - at] == z[k - at - |x| - |y|] == (x + y2 + z)[k - at];
      }
    }
  }

  /** Cells a record leaves unwritten at its end change nothing. */
  lemma PatchSkipTail(s: seq<byte>, at: nat, img: seq<Cell>, n: nat)
    requires at + |img| + n <= |s|
    ensures Patch(s, at, img + Skips(n)) == Patch(s, at, img)
  {
  }

  // ---------------------------------------------------------------------------
  // Child records laid out back to back.

  /** The images of `parts` one after the other, the first one first. */
  function Concat(parts: seq<seq<Cell>>): seq<Cell>
  {
    if parts == [] then [] else Concat(parts[..|parts| - 1]) + parts[|parts| - 1]
  }

  /** Part `k` starts where the parts before it end, and lies whole inside the concatenation. */
  lemma {:induction false} ConcatAt(parts: seq<seq<Cell>>, k: nat)
    requires k < |parts|
    ensures |Concat(parts[..k])| + |parts[k]| <= |Concat(parts)|
    ensures Concat(parts)[|Concat(parts[..k])|..|Concat(parts[..k])| + |parts[k]|] == parts[k]
  {
    var init := parts[..|parts| - 1];
    if k == |parts| - 1 {
      assert parts[..k] == init;
    } else {
      ConcatAt(init, k);
      assert init[..k] == parts[..k];
    }
  }

  /** Concatenating one more part. */
  lemma ConcatSnoc(parts: seq<seq<Cell>>, i: nat)
    requires i < |parts|
    ensures Concat(parts[..i + 1]) == Concat(parts[..i]) + parts[i]
  {
    assert parts[..i + 1][..i] == parts[..i];
  }

  /** When every part is written whole, so is their concatenation. */
  lemma {:induction false} ConcatComplete(parts: seq<seq<Cell>>)
    requires forall k :: 0 <= k < |parts| ==> Complete(parts[k])
    ensures Complete(Concat(parts))
  {
    if parts != [] {
      ConcatComplete(parts[..|parts| - 1]);
    }
  }

  /** Writes every `Put` cell of `img` into `dst` starting at `at`. */
  method WriteImage(dst: array<byte>, at: nat, img: seq<Cell>)
    requires at + |img| <= dst.Length
    modifies dst
    ensures dst[..] == Patch(old(dst[..]), at, img)
  {
    var i := 0;
    while i < |img|
      invariant 0 <= i <= |img|
      invariant dst[..] == Patch(old(dst[..]), at, img[..i])
    {
      if img[i].Put? {
        dst[at + i] := img[i].value;
      }
      i := i + 1;
    }
    assert img[..i] == img;
  }

  // ---------------------------------------------------------------------------
  // The common 8-byte header of instructions and queue properties: a 2-byte type, a 2-byte
  // length and four pad bytes. Both packers first write the type and zero the pad, then
  // fill in the length and the rest case by case.

  /** The header after its first two writes: `type`, then the zeroed pad; `len` not yet written. */
  function PreludeImage(t: u16): (img: seq<Cell>)
    ensures |img| == 8
  {
    Bytes(Be16(t)) + Skips(2) + Bytes(Zeros(4))
  }

  /** Writing the prelude and then the record from its `len` field on writes the whole record. */
  lemma PreludeThenRest(s: seq<byte>, off: nat, t: u16, rest: seq<byte>)
    requires |rest| >= 6 && off + 2 + |rest| <= |s|
    ensures Patch(Patch(s, off, PreludeImage(t)), off + 2, Bytes(rest)) == Patch(s, off, Bytes(Be16(t) + rest))
  {
    var l := Patch(Patch(s, off, PreludeImage(t)), off + 2, Bytes(rest));
    var r := Patch(s, off, Bytes(Be16(t) + rest));
    forall k | 0 <= k < |s| ensures l[k] == r[k] {
      if off <= k < off + 2 {
        assert PreludeImage(t)[k - off] == Put(Be16(t)[k - off]);
      }
    }
  }

  /** After the prelude of type `t`: writes the record's bytes from `len` on. */
  method PackRest(dst: array<byte>, off: nat, ghost s: seq<byte>, ghost t: u16, rest: seq<byte>)
    requires |rest| >= 6 && |s| == dst.Length && off + 2 + |rest| <= dst.Length
    requires dst[..] == Patch(s, off, PreludeImage(t))
    modifies dst
    ensures dst[..] == Patch(s, off, Bytes(Be16(t) + rest))
  {
    WriteImage(dst, off + 2, Bytes(rest));
    PreludeThenRest(s, off, t, rest);
  }
}
