/** Instructions: `ofl_structs_instructions_ofp_len`, `_ofp_total_len` and `_pack`. */
module Instructions {
  import opened Wire
  import opened Ofp
  import opened Structs
  import opened Actions
  import opened Layout

  /** The OFPIT_* code written into the `type` field. */
  function InstructionType(i: Instruction): u16
  {
    match i
    case GotoTable(_) => OFPIT_GOTO_TABLE
    case WriteMetadata(_, _) => OFPIT_WRITE_METADATA
    case WriteActions(_) => OFPIT_WRITE_ACTIONS
    case ApplyActions(_) => OFPIT_APPLY_ACTIONS
    case ClearActions => OFPIT_CLEAR_ACTIONS
    case Experimenter(_) => OFPIT_EXPERIMENTER
    case UnknownInstruction(t) => t
  }

  /** The type code decides the case, as the `switch` on `type` does: each OFPIT_* code belongs
      to exactly one kind of instruction, and every other code to an unknown one. */
  lemma InstructionTypeIdentifies(i: Instruction)
    ensures InstructionType(i) == OFPIT_GOTO_TABLE <==> i.GotoTable?
    ensures InstructionType(i) == OFPIT_WRITE_METADATA <==> i.WriteMetadata?
    ensures InstructionType(i) == OFPIT_WRITE_ACTIONS <==> i.WriteActions?
    ensures InstructionType(i) == OFPIT_APPLY_ACTIONS <==> i.ApplyActions?
    ensures InstructionType(i) == OFPIT_CLEAR_ACTIONS <==> i.ClearActions?
    ensures InstructionType(i) == OFPIT_EXPERIMENTER <==> i.Experimenter?
  {
  }

  /** `ofl_structs_instructions_ofp_len`. `None` is the `(size_t)-1` of a missing callback. */
  function InstructionLen(i: Instruction, exp: Option<Exp>): (r: Option<nat>)
    ensures r.None? <==> i.Experimenter? && InstLenCallback(exp).None?
    ensures !i.Experimenter? && !i.UnknownInstruction? ==> INSTRUCTION_HEADER_SIZE <= r.value
    ensures i.UnknownInstruction? ==> r == Some(0)
  {
    match i
    case GotoTable(_) => Some(INSTRUCTION_GOTO_TABLE_SIZE)
    case WriteMetadata(_, _) => Some(INSTRUCTION_WRITE_METADATA_SIZE)
    case WriteActions(acts) => Some(INSTRUCTION_ACTIONS_SIZE + ActionsTotalLen(acts))
    case ApplyActions(acts) => Some(INSTRUCTION_ACTIONS_SIZE + ActionsTotalLen(acts))
    case ClearActions => Some(INSTRUCTION_ACTIONS_SIZE)
    case Experimenter(x) =>
      if InstLenCallback(exp).None? then None else Some(InstLenCallback(exp).value(x))
    case UnknownInstruction(_) => Some(0)
  }

  /** `ofl_structs_instructions_ofp_total_len`: the sum of the instruction lengths, failing when
      one of them fails. */
  function InstructionsTotalLen(insts: seq<Instruction>, exp: Option<Exp>): Option<nat>
  {
    SumOpt(insts, i => InstructionLen(i, exp))
  }

  /** The total fails exactly when the length of some instruction fails. */
  lemma InstructionsTotalLenFails(insts: seq<Instruction>, exp: Option<Exp>)
    ensures InstructionsTotalLen(insts, exp).None?
        <==> exists k :: 0 <= k < |insts| && InstructionLen(insts[k], exp).None?
  {
    SumOptFails(insts, i => InstructionLen(i, exp));
  }

  // ---------------------------------------------------------------------------
  // What the pack pass writes.

  /** The pack pass writes a whole record: every known type, and an experimenter instruction
      whose pack callback is present and writes at least the 8-byte header. */
  predicate Packs(i: Instruction, exp: Option<Exp>)
  {
    && !i.UnknownInstruction?
    && (i.Experimenter? ==>
          InstPackCallback(exp).Some? && |InstPackCallback(exp).value(i.exp)| >= INSTRUCTION_HEADER_SIZE)
  }

  /** As `Packs`, and the experimenter length callback is present and agrees with the pack
      callback (the agreement the callback table is trusted to keep). */
  predicate Supported(i: Instruction, exp: Option<Exp>)
  {
    && Packs(i, exp)
    && (i.Experimenter? ==>
          InstLenCallback(exp).Some?
          && InstLenCallback(exp).value(i.exp) == |InstPackCallback(exp).value(i.exp)|)
  }

  /** Header of WRITE_ACTIONS / APPLY_ACTIONS: type, then total length and pad. */
  function ActionsHeader(t: u16, acts: seq<Action>): seq<byte>
  {
    Be16(t) + (Be16(Trunc16(INSTRUCTION_ACTIONS_SIZE + ActionsTotalLen(acts))) + Zeros(4))
  }

  /** The wire image of an instruction the pack pass writes whole: `type`, then the rest. */
  function InstructionImage(i: Instruction, exp: Option<Exp>): seq<Cell>
    requires Packs(i, exp)
  {
    match i
    case GotoTable(t) =>
      Bytes(Be16(OFPIT_GOTO_TABLE) + (Be16(INSTRUCTION_GOTO_TABLE_SIZE) + ([t] + Zeros(3))))
    case WriteMetadata(md, mask) =>
      Bytes(Be16(OFPIT_WRITE_METADATA)
            + (Be16(INSTRUCTION_WRITE_METADATA_SIZE) + (Zeros(4) + Be64(md) + Be64(mask))))
    case WriteActions(acts) => Bytes(ActionsHeader(OFPIT_WRITE_ACTIONS, acts)) + ActionsImage(acts)
    case ApplyActions(acts) => Bytes(ActionsHeader(OFPIT_APPLY_ACTIONS, acts)) + ActionsImage(acts)
    case ClearActions =>
      Bytes(Be16(OFPIT_CLEAR_ACTIONS) + (Be16(INSTRUCTION_ACTIONS_SIZE) + Zeros(4)))
    case Experimenter(x) => Bytes(InstPackCallback(exp).value(x))
  }

  /** What the pack pass writes in every case: the record image when it packs one; otherwise the
      prelude, overwritten by whatever a present experimenter callback writes. */
  function WrittenImage(i: Instruction, exp: Option<Exp>): seq<Cell>
  {
    if Packs(i, exp) then InstructionImage(i, exp)
    else if i.Experimenter? && InstPackCallback(exp).Some? then
      Overlay(PreludeImage(OFPIT_EXPERIMENTER), Bytes(InstPackCallback(exp).value(i.exp)))
    else PreludeImage(InstructionType(i))
  }

  /** For every instruction the packer writes itself: the record starts with its type, its
      `len` field holds its length (mod 2^16), and an action instruction carries its actions
      right after the 8-byte header. */
  lemma InstructionFields(i: Instruction, exp: Option<Exp>)
    requires Packs(i, exp) && !i.Experimenter?
    ensures var img := InstructionImage(i, exp);
      && |img| >= INSTRUCTION_HEADER_SIZE
      && Complete(img)
      && img[..4] == Bytes(Be16(InstructionType(i)) + Be16(Trunc16(|img|)))
      && ((i.WriteActions? || i.ApplyActions?) ==> img[INSTRUCTION_HEADER_SIZE..] == ActionsImage(i.actions))
  {
    match i
    case GotoTable(t) =>
      BytesHead(Be16(OFPIT_GOTO_TABLE), Be16(INSTRUCTION_GOTO_TABLE_SIZE), [t] + Zeros(3));
    case WriteMetadata(md, mask) =>
      BytesHead(Be16(OFPIT_WRITE_METADATA), Be16(INSTRUCTION_WRITE_METADATA_SIZE),
        Zeros(4) + Be64(md) + Be64(mask));
    case WriteActions(acts) => ActionsFields(OFPIT_WRITE_ACTIONS, acts);
    case ApplyActions(acts) => ActionsFields(OFPIT_APPLY_ACTIONS, acts);
    case ClearActions =>
      BytesHead(Be16(OFPIT_CLEAR_ACTIONS), Be16(INSTRUCTION_ACTIONS_SIZE), Zeros(4));
  }

  /** The fields of an action instruction's image. */
  lemma ActionsFields(t: u16, acts: seq<Action>)
    ensures var img := Bytes(ActionsHeader(t, acts)) + ActionsImage(acts);
      && |img| == INSTRUCTION_ACTIONS_SIZE + ActionsTotalLen(acts)
      && Complete(img)
      && img[..4] == Bytes(Be16(t) + Be16(Trunc16(|img|)))
      && img[INSTRUCTION_HEADER_SIZE..] == ActionsImage(acts)
  {
    ActionsImageLen(acts);
    var h := ActionsHeader(t, acts);
    var len := Be16(Trunc16(INSTRUCTION_ACTIONS_SIZE + ActionsTotalLen(acts)));
    BytesHead(Be16(t), len, Zeros(4));
    assert (Bytes(h) + ActionsImage(acts))[..4] == Bytes(h)[..4];
    CompleteAppend(Bytes(h), ActionsImage(acts));
  }

  /** Length/pack agreement for one instruction: the length pass gives the size of the image
      the pack pass writes, and that image leaves no byte stale. */
  lemma InstructionLenAgrees(i: Instruction, exp: Option<Exp>)
    requires Supported(i, exp)
    ensures InstructionLen(i, exp) == Some(|InstructionImage(i, exp)|)
    ensures Complete(InstructionImage(i, exp))
  {
    if i.WriteActions? || i.ApplyActions? {
      ActionsImageLen(i.actions);
    }
  }

  /** Every case writes at least the 8-byte header; an unknown instruction, and an
      experimenter instruction without a pack callback, leave its `len` field stale. */
  lemma WrittenImageShape(i: Instruction, exp: Option<Exp>)
    ensures |WrittenImage(i, exp)| >= INSTRUCTION_HEADER_SIZE
    ensures i.UnknownInstruction? || (i.Experimenter? && InstPackCallback(exp).None?) ==>
      WrittenImage(i, exp)[2] == Skip && WrittenImage(i, exp)[3] == Skip
    ensures i.UnknownInstruction? ==>
      InstructionLen(i, exp) == Some(0) && |WrittenImage(i, exp)| == INSTRUCTION_HEADER_SIZE
  {
  }

  /** `ofl_structs_instructions_pack`: writes `type` and the pad, then the case's fields, and
      returns the byte count (`None` for the `(size_t)-1` of a missing callback). */
  method PackInstruction(i: Instruction, dst: array<byte>, off: nat, exp: Option<Exp>) returns (r: Option<nat>)
    requires off + |WrittenImage(i, exp)| <= dst.Length
    modifies dst
    ensures dst[..] == Patch(old(dst[..]), off, WrittenImage(i, exp))
    ensures Packs(i, exp) ==> r == Some(|WrittenImage(i, exp)|)
    ensures !i.Experimenter? || Supported(i, exp) ==> r == InstructionLen(i, exp)
    ensures i.UnknownInstruction? ==> r == Some(0)
    ensures i.Experimenter? ==>
      r == if InstPackCallback(exp).None? then None else Some(|InstPackCallback(exp).value(i.exp)|)
  {
    WrittenImageShape(i, exp);
    if Supported(i, exp) {
      InstructionLenAgrees(i, exp);
    }
    ghost var s := dst[..];
    WriteImage(dst, off, PreludeImage(InstructionType(i)));
    if i.Experimenter? {
      r := PackExperimenterInstruction(i, dst, off, exp, s);
    } else if i.UnknownInstruction? {
      r := Some(0);
    } else {
      r := PackStandardInstruction(i, dst, off, exp, s);
    }
  }

  /** The cases of the standard instruction types, after the prelude. */
  method PackStandardInstruction(i: Instruction, dst: array<byte>, off: nat, ghost exp: Option<Exp>, ghost s: seq<byte>)
    returns (r: Option<nat>)
    requires !i.Experimenter? && !i.UnknownInstruction?
    requires |s| == dst.Length && off + |WrittenImage(i, exp)| <= dst.Length
    requires dst[..] == Patch(s, off, PreludeImage(InstructionType(i)))
    modifies dst
    ensures dst[..] == Patch(s, off, WrittenImage(i, exp))
    ensures r == Some(|WrittenImage(i, exp)|)
  {
    match i {
      case GotoTable(t) =>
        PackRest(dst, off, s, OFPIT_GOTO_TABLE, Be16(INSTRUCTION_GOTO_TABLE_SIZE) + ([t] + Zeros(3)));
        r := Some(INSTRUCTION_GOTO_TABLE_SIZE);
      case WriteMetadata(md, mask) =>
        PackRest(dst, off, s, OFPIT_WRITE_METADATA,
          Be16(INSTRUCTION_WRITE_METADATA_SIZE) + (Zeros(4) + Be64(md) + Be64(mask)));
        r := Some(INSTRUCTION_WRITE_METADATA_SIZE);
      case WriteActions(acts) =>
        ActionsImageLen(acts);
        r := PackActionsInstruction(OFPIT_WRITE_ACTIONS, acts, dst, off, s);
      case ApplyActions(acts) =>
        ActionsImageLen(acts);
        r := PackActionsInstruction(OFPIT_APPLY_ACTIONS, acts, dst, off, s);
      case ClearActions =>
        PackRest(dst, off, s, OFPIT_CLEAR_ACTIONS, Be16(INSTRUCTION_ACTIONS_SIZE) + Zeros(4));
        r := Some(INSTRUCTION_ACTIONS_SIZE);
    }
  }

  /** The experimenter case, after the prelude: hands the record to the pack callback, or
      fails when there is none. */
  method PackExperimenterInstruction(i: Instruction, dst: array<byte>, off: nat, exp: Option<Exp>, ghost s: seq<byte>)
    returns (r: Option<nat>)
    requires i.Experimenter?
    requires |s| == dst.Length && off + |WrittenImage(i, exp)| <= dst.Length
    requires dst[..] == Patch(s, off, PreludeImage(OFPIT_EXPERIMENTER))
    modifies dst
    ensures dst[..] == Patch(s, off, WrittenImage(i, exp))
    ensures r == if InstPackCallback(exp).None? then None else Some(|InstPackCallback(exp).value(i.exp)|)
  {
    if InstPackCallback(exp).None? {
      r := None;
    } else {
      var b := InstPackCallback(exp).value(i.exp);
      WriteImage(dst, off, Bytes(b));
      PatchOverlay(s, off, PreludeImage(OFPIT_EXPERIMENTER), Bytes(b));
      if |b| >= INSTRUCTION_HEADER_SIZE {
        OverlayCovers(PreludeImage(OFPIT_EXPERIMENTER), Bytes(b));
      }
      r := Some(|b|);
    }
  }

  /** The WRITE_ACTIONS / APPLY_ACTIONS case, after the prelude: `len` (the header plus the
      actions' total length), the pad, then the actions one after the other. */
  method PackActionsInstruction(t: u16, acts: seq<Action>, dst: array<byte>, off: nat, ghost s: seq<byte>)
    returns (r: Option<nat>)
    requires |s| == dst.Length && off + INSTRUCTION_ACTIONS_SIZE + ActionsTotalLen(acts) <= dst.Length
    requires dst[..] == Patch(s, off, PreludeImage(t))
    modifies dst
    ensures |Bytes(ActionsHeader(t, acts)) + ActionsImage(acts)| == INSTRUCTION_ACTIONS_SIZE + ActionsTotalLen(acts)
    ensures r == Some(INSTRUCTION_ACTIONS_SIZE + ActionsTotalLen(acts))
    ensures dst[..] == Patch(s, off, Bytes(ActionsHeader(t, acts)) + ActionsImage(acts))
  {
    ActionsImageLen(acts);
    var total := INSTRUCTION_ACTIONS_SIZE + ActionsTotalLen(acts);
    PackRest(dst, off, s, t, Be16(Trunc16(total)) + Zeros(4));
    ghost var mid := dst[..];
    var _ := PackActionList(acts, dst, off + INSTRUCTION_ACTIONS_SIZE);
    PatchStep(s, mid, dst[..], off, off + INSTRUCTION_ACTIONS_SIZE, Bytes(ActionsHeader(t, acts)), ActionsImage(acts));
    r := Some(total);
  }

  // ---------------------------------------------------------------------------
  // Instruction lists.

  /** The image of each instruction. */
  function InstructionImages(insts: seq<Instruction>, exp: Option<Exp>): (parts: seq<seq<Cell>>)
    requires forall k :: 0 <= k < |insts| ==> Packs(insts[k], exp)
    ensures |parts| == |insts|
  {
    seq(|insts|, k requires 0 <= k < |insts| => InstructionImage(insts[k], exp))
  }

  /** The images of a prefix are the prefix of the images. */
  lemma InstructionImagesPrefix(insts: seq<Instruction>, exp: Option<Exp>, k: nat)
    requires forall j :: 0 <= j < |insts| ==> Packs(insts[j], exp)
    requires k <= |insts|
    ensures InstructionImages(insts, exp)[..k] == InstructionImages(insts[..k], exp)
  {
    var parts := InstructionImages(insts, exp);
    var prefix := InstructionImages(insts[..k], exp);
    forall j | 0 <= j < k ensures parts[j] == prefix[j] {
      assert insts[..k][j] == insts[j];
    }
  }

  /** The instructions packed back to back, the first one first. */
  function InstructionsImage(insts: seq<Instruction>, exp: Option<Exp>): seq<Cell>
    requires forall k :: 0 <= k < |insts| ==> Packs(insts[k], exp)
  {
    Concat(InstructionImages(insts, exp))
  }

  /** Length/pack agreement for a list: the total length is the size of the packed list, and
      every byte of it is written. */
  lemma {:induction false} InstructionsTotalLenAgrees(insts: seq<Instruction>, exp: Option<Exp>)
    requires forall k :: 0 <= k < |insts| ==> Packs(insts[k], exp)
    requires forall k :: 0 <= k < |insts| ==> Supported(insts[k], exp)
    ensures InstructionsTotalLen(insts, exp) == Some(|InstructionsImage(insts, exp)|)
    ensures Complete(InstructionsImage(insts, exp))
  {
    if insts != [] {
      var n := |insts| - 1;
      var parts := InstructionImages(insts, exp);
      InstructionsTotalLenAgrees(insts[..n], exp);
      InstructionLenAgrees(insts[n], exp);
      InstructionImagesPrefix(insts, exp, n);
      assert InstructionsImage(insts, exp) == InstructionsImage(insts[..n], exp) + parts[n];
      CompleteAppend(InstructionsImage(insts[..n], exp), parts[n]);
    }
  }

  /** Instruction `k` starts where the instructions before it end. */
  lemma InstructionAt(insts: seq<Instruction>, exp: Option<Exp>, k: nat)
    requires forall j :: 0 <= j < |insts| ==> Packs(insts[j], exp)
    requires k < |insts|
    ensures var start := |InstructionsImage(insts[..k], exp)|;
      && start + |InstructionImage(insts[k], exp)| <= |InstructionsImage(insts, exp)|
      && InstructionsImage(insts, exp)[start..start + |InstructionImage(insts[k], exp)|] == InstructionImage(insts[k], exp)
  {
    InstructionImagesPrefix(insts, exp, k);
    ConcatAt(InstructionImages(insts, exp), k);
  }

  /** The instruction loop of the flow-stats packer: each instruction is packed at the cursor,
      which then advances by the count the instruction packer returns. */
  method PackInstructionList(insts: seq<Instruction>, dst: array<byte>, at: nat, exp: Option<Exp>)
    returns (cursor: nat)
    requires forall k :: 0 <= k < |insts| ==> Packs(insts[k], exp)
    requires at + |InstructionsImage(insts, exp)| <= dst.Length
    modifies dst
    ensures cursor == at + |InstructionsImage(insts, exp)|
    ensures dst[..] == Patch(old(dst[..]), at, InstructionsImage(insts, exp))
  {
    ghost var parts := InstructionImages(insts, exp);
    cursor := at;
    var i := 0;
    while i < |insts|
      invariant 0 <= i <= |insts|
      invariant cursor == at + |Concat(parts[..i])|
      invariant |Concat(parts[..i])| <= |Concat(parts)|
      invariant dst[..] == Patch(old(dst[..]), at, Concat(parts[..i]))
    {
      ConcatAt(parts, i);
      ConcatSnoc(parts, i);
      assert Packs(insts[i], exp) && parts[i] == WrittenImage(insts[i], exp);
      ghost var before := dst[..];
      var len := PackInstruction(insts[i], dst, cursor, exp);
      PatchStep(old(dst[..]), before, dst[..], at, cursor, Concat(parts[..i]), parts[i]);
      cursor := cursor + len.value;
      i := i + 1;
    }
    assert parts[..i] == parts;
  }
}
