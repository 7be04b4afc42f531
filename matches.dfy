/** The match header: `ofl_structs_match_ofp_len` and `ofl_structs_match_pack`. The OXM fields
    themselves are encoded by the TLV sub-codec, which is a parameter here. */
module Matches {
  import opened Wire
  import opened Ofp
  import opened Structs

  /** The TLV sub-codec: `oxm_put_match` (host order) or `oxm_put_packet_match` (network order),
      represented by the bytes it puts into the scratch buffer; their count is `oxm_len`. */
  type OxmCodec = (Match, ByteOrder) -> seq<byte>

  /** `ofl_structs_match_ofp_len`: a standard match has the fixed size; every other type asks
      the experimenter length callback, and gives 0 when there is none. */
  function MatchLen(m: Match, exp: Option<Exp>): nat
  {
    if m.mtype == OFPMT_STANDARD then MATCH_SIZE
    else if MatchLenCallback(exp).None? then 0
    else MatchLenCallback(exp).value(m)
  }

  /** The `length` an OXM match with fields is given: the encoded fields plus `type` and
      `length` (`oxm_len + sizeof(struct ofp_match) - 4`), as 16 bits. */
  function OxmMatchLength(b: seq<byte>): u16
  {
    Trunc16(|b| + MATCH_SIZE - 4)
  }

  /** What `ofl_structs_match_pack` writes at the match, in every case. */
  function MatchImage(m: Match, order: ByteOrder, exp: Option<Exp>, oxm: OxmCodec): seq<Cell>
  {
    if m.mtype == OFPMT_OXM then
      if m.length == 0 then Bytes(Be16(OFPMT_OXM) + Be16(MATCH_SIZE))
      else
        var b := oxm(m, order);
        Bytes(Be16(OFPMT_OXM) + Be16(OxmMatchLength(b)) + b)
    else if MatchPackCallback(exp).None? then []
    else Bytes(MatchPackCallback(exp).value(m))
  }

  /** What `ofl_structs_match_pack` returns. */
  function MatchPackResult(m: Match, order: ByteOrder, exp: Option<Exp>, oxm: OxmCodec): Option<nat>
  {
    if m.mtype == OFPMT_OXM then
      if m.length == 0 then Some(0) else Some(OxmMatchLength(oxm(m, order)) as nat)
    else if MatchPackCallback(exp).None? then None
    else Some(|MatchPackCallback(exp).value(m)|)
  }

  /** An OXM match with fields: its `type` is OFPMT_OXM, its `length` field holds the value the
      packer returns, and the encoded fields follow; the packed header and fields take exactly
      that many bytes while they fit in 16 bits. An OXM match of declared length 0 gets `type`
      and the fixed `length`, and the packer returns 0. */
  lemma OxmMatchFields(m: Match, order: ByteOrder, exp: Option<Exp>, oxm: OxmCodec)
    requires m.mtype == OFPMT_OXM
    ensures var img := MatchImage(m, order, exp, oxm);
      var r := MatchPackResult(m, order, exp, oxm);
      && r.Some?
      && Complete(img)
      && img[..2] == Bytes(Be16(OFPMT_OXM))
      && (m.length == 0 ==> r == Some(0) && img[2..] == Bytes(Be16(MATCH_SIZE)))
      && (m.length != 0 ==>
            && img[2..4] == Bytes(Be16(r.value))
            && img[4..] == Bytes(oxm(m, order))
            && (|img| < 0x1_0000 ==> r.value == |img|))
  {
    if m.length != 0 {
      var b := oxm(m, order);
      var t := Be16(OFPMT_OXM);
      var l := Be16(OxmMatchLength(b));
      assert (t + l + b)[2..4] == l;
      assert (t + l + b)[4..] == b;
    }
  }

  /** The length pass and the pack pass do not agree on matches: the length pass knows only
      the standard type and the pack pass only the OXM type. Without experimenter callbacks, an
      OXM match with fields has length 0 but packs to at least its 4-byte header, and a standard
      match has length 8 but fails to pack. */
  lemma MatchLenPackDisagree(m: Match, order: ByteOrder, oxm: OxmCodec)
    ensures m.mtype == OFPMT_OXM && m.length != 0 ==>
      MatchLen(m, None) == 0 && |MatchImage(m, order, None, oxm)| >= 4
      && MatchPackResult(m, order, None, oxm).Some?
    ensures m.mtype == OFPMT_STANDARD ==>
      MatchLen(m, None) == MATCH_SIZE && MatchPackResult(m, order, None, oxm) == None
      && MatchImage(m, order, None, oxm) == []
  {
  }

  /** The OXM branch of `ofl_structs_match_pack` for a match with fields: writes `type` and the
      fixed `length`, copies the encoded fields after the header, then rewrites `length`. */
  method PackOxmMatch(m: Match, dst: array<byte>, off: nat, order: ByteOrder, exp: Option<Exp>, oxm: OxmCodec)
    returns (len: u16)
    requires m.mtype == OFPMT_OXM && m.length != 0
    requires off + |MatchImage(m, order, exp, oxm)| <= dst.Length
    modifies dst
    ensures MatchPackResult(m, order, exp, oxm) == Some(len as nat)
    ensures dst[..] == Patch(old(dst[..]), off, MatchImage(m, order, exp, oxm))
  {
    ghost var s := dst[..];
    var b := oxm(m, order);
    var head := Be16(m.mtype) + Be16(MATCH_SIZE);
    WriteImage(dst, off, Bytes(head));
    ghost var header := dst[..];
    WriteImage(dst, off + 4, Bytes(b));
    BytesConcat(head, b);
    PatchStep(s, header, dst[..], off, off + 4, Bytes(head), Bytes(b));
    len := Trunc16(|b| + MATCH_SIZE - 4);
    WriteImage(dst, off + 2, Bytes(Be16(len)));
    PatchField(s, off, Be16(m.mtype), Be16(MATCH_SIZE), Be16(len), b);
  }

  /** `ofl_structs_match_pack`. For an OXM match it writes `type` and the fixed `length`; when
      the match has fields it copies their encoding after the header and rewrites `length`.
      Every other type goes to the experimenter pack callback. The `oxm_fields` argument of the
      C function is overwritten before use, so it is not a parameter here. */
  method PackMatch(m: Match, dst: array<byte>, off: nat, order: ByteOrder, exp: Option<Exp>, oxm: OxmCodec)
    returns (r: Option<nat>)
    requires off + |MatchImage(m, order, exp, oxm)| <= dst.Length
    modifies dst
    ensures r == MatchPackResult(m, order, exp, oxm)
    ensures dst[..] == Patch(old(dst[..]), off, MatchImage(m, order, exp, oxm))
  {
    if m.mtype == OFPMT_OXM {
      if m.length != 0 {
        var len := PackOxmMatch(m, dst, off, order, exp, oxm);
        r := Some(len as nat);
      } else {
        WriteImage(dst, off, Bytes(Be16(m.mtype) + Be16(MATCH_SIZE)));
        r := Some(0);
      }
    } else if MatchPackCallback(exp).None? {
      r := None;
    } else {
      var b := MatchPackCallback(exp).value(m);
      WriteImage(dst, off, Bytes(b));
      r := Some(|b|);
    }
  }
}
