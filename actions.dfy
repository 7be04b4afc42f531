/** The action lists that instructions and buckets carry. The action codec itself is a sibling
    of this core; it is represented by what it promises: an action packs to its own bytes and
    reports their count, and the total length of a list is the sum of those counts. */
module Actions {
  import opened Wire
  import opened Structs
  import opened Layout

  /** `ofl_actions_ofp_len` for one action: the count of its bytes. */
  function ActionLen(a: Action): nat
  {
    |a.wire|
  }

  /** What `ofl_actions_pack` writes for one action. */
  function ActionImage(a: Action): seq<Cell>
  {
    Bytes(a.wire)
  }

  /** `ofl_actions_ofp_total_len`: the sum of the action lengths. */
  function ActionsTotalLen(acts: seq<Action>): nat
  {
    Sum(acts, ActionLen)
  }

  /** The actions packed back to back, the first one first. */
  function ActionsImage(acts: seq<Action>): seq<Cell>
  {
    Concat(Images(acts, ActionImage))
  }

  /** The length pass and the pack pass agree on an action list, and every byte is written. */
  lemma ActionsImageLen(acts: seq<Action>)
    ensures |ActionsImage(acts)| == ActionsTotalLen(acts)
    ensures Complete(ActionsImage(acts))
  {
    LaidOut(acts, ActionImage, ActionLen);
  }

  /** Action `k` occupies the bytes that follow the actions before it. */
  lemma ActionAt(acts: seq<Action>, k: nat)
    requires k < |acts|
    ensures ActionsTotalLen(acts[..k]) + |acts[k].wire| <= ActionsTotalLen(acts)
    ensures |ActionsImage(acts)| == ActionsTotalLen(acts)
    ensures ActionsImage(acts)[ActionsTotalLen(acts[..k])..ActionsTotalLen(acts[..k]) + |acts[k].wire|]
      == Bytes(acts[k].wire)
  {
    ActionsImageLen(acts);
    ActionsImageLen(acts[..k]);
    ChildAt(acts, ActionImage, k);
  }

  /** `ofl_actions_pack` for one action: writes its bytes at `at` and returns their count. */
  method PackAction(a: Action, dst: array<byte>, at: nat) returns (n: nat)
    requires at + |a.wire| <= dst.Length
    modifies dst
    ensures n == |a.wire|
    ensures dst[..] == Patch(old(dst[..]), at, Bytes(a.wire))
  {
    WriteImage(dst, at, Bytes(a.wire));
    n := |a.wire|;
  }

  /** The action loop shared by the action instructions and the buckets: each action is packed
      at the cursor, and the cursor advances by the count the action codec returns. */
  method PackActionList(acts: seq<Action>, dst: array<byte>, at: nat) returns (cursor: nat)
    requires at + ActionsTotalLen(acts) <= dst.Length
    modifies dst
    ensures cursor == at + ActionsTotalLen(acts)
    ensures |ActionsImage(acts)| == ActionsTotalLen(acts)
    ensures dst[..] == Patch(old(dst[..]), at, ActionsImage(acts))
  {
    ActionsImageLen(acts);
    ghost var parts := Images(acts, ActionImage);
    cursor := at;
    var i := 0;
    while i < |acts|
      invariant 0 <= i <= |acts|
      invariant cursor == at + |Concat(parts[..i])|
      invariant |Concat(parts[..i])| <= |Concat(parts)|
      invariant dst[..] == Patch(old(dst[..]), at, Concat(parts[..i]))
    {
      assert parts[i] == Bytes(acts[i].wire);
      ConcatAt(parts, i);
      ConcatSnoc(parts, i);
      ghost var before := dst[..];
      var len := PackAction(acts[i], dst, cursor);
      PatchStep(old(dst[..]), before, dst[..], at, cursor, Concat(parts[..i]), parts[i]);
      cursor := cursor + len;
      i := i + 1;
    }
    assert parts[..i] == parts;
  }
}
