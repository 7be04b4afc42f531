# Packing OpenFlow 1.3 structures

This project models `oflib/ofl-structs-pack.c` of ofsoftswitch13. That file serialises the
OpenFlow 1.3 records a switch sends to its controller:

- instructions (section 7.2.4 of the OpenFlow Switch Specification 1.3);
- buckets (section 7.3.4.2);
- flow, group and group-description statistics (sections 7.3.5.2, 7.3.5.9 and 7.3.5.10);
- queue properties and packet queues (section 7.2.2);
- the OXM match header (section 7.2.3);
- the fixed port, table-stats, port-stats, queue-stats and bucket-counter records.

Each record kind has two passes:

- a **length pass** (`*_ofp_len`, and `*_ofp_total_len` over an array), modelled as pure functions;
- a **pack pass** (`*_pack`), which stores the record's fields into the caller's buffer at a
  cursor and returns the number of bytes it occupies.

The pack pass is modelled as methods that write into an `array<byte>` at an offset. Each pack
method states its whole effect on the buffer as `dst[..] == Patch(old(dst[..]), at, img)`. Here
`img` is the record's *image*, a sequence of cells: `Put(b)` is a byte the C code stores and
`Skip` is a byte it never touches. `Patch` changes nothing outside `[at, at + |img|)`
(`Wire.PatchFrame`). The images are functions of the record. The promises of the source are
proved about them:

- the length pass gives the size of the image;
- the 16-bit length field holds that size;
- children are laid out back to back;
- padding is zeroed, and alignment is to 8 bytes.

Loops that advance a `data` cursor over child records become `while` loops. Their invariant
says the cursor is `at` plus the size of the children already packed, and the buffer holds
exactly those children's images.

Modules:

| Module | Contents |
|---|---|
| `Wire` | network byte order, 16-bit truncation, `ROUND_UP`, images and `Patch` |
| `Ofp` | type codes and `sizeof` constants |
| `Structs` | the records |
| `Layout` | array sums and back-to-back layout |
| `Actions` | the action list as seen from this file |
| `Instructions` | instructions |
| `Buckets` | buckets |
| `Records` | the fixed leaf records |
| `Groups` | group stats and group descriptions |
| `Queues` | queue properties and packet queues |
| `Matches` | the match header |
| `FlowStats` | flow statistics |

`(size_t)-1`, the value returned when an experimenter callback is missing, is `None`.

## Model

| member | source | states |
|---|---|---|
| Wire.Be16RoundTrip | oflib/ofl-structs-pack.c:101 | a 16-bit field stored with `htons` reads back as the same value |
| Wire.Be32RoundTrip | oflib/ofl-structs-pack.c:201-202 | a 32-bit field stored with `htonl` reads back as the same value |
| Wire.Be64RoundTrip | oflib/ofl-structs-pack.c:113-114 | a 64-bit field stored with `hton64` reads back as the same value |
| Wire.Trunc16 | oflib/ofl-structs-pack.c:129 | `htons` of a length keeps it unchanged when it fits in 16 bits |
| Wire.RoundUp | oflib/ofl-structs-pack.c:221 | the `ROUND_UP(x, y)` macro; the source only rounds to 8, and `Wire.RoundUpIsPadTo8` proves that the result is the least multiple of 8 not below `x` |
| Wire.RoundUpIsPadTo8 | oflib/ofl-structs-pack.c:172-173 | `ROUND_UP(x, 8)` and the bucket code's `x + (8 - x % 8)` agree; the result is the least multiple of 8 not below `x`, adding fewer than 8 bytes |
| Wire.PatchFrame | oflib/ofl-structs-pack.c:91-162 | a pack leaves every byte before the record and after its image unchanged |
| Wire.PreludeThenRest | oflib/ofl-structs-pack.c:93-94 | storing `type` and the zeroed pad first, then the case's fields from `len` on, gives the record's bytes |
| Layout.SumOptFails | oflib/ofl-structs-pack.c:83-88 | a sum of lengths that can fail fails exactly when one element's length fails |
| Layout.SumConst | oflib/ofl-structs-pack.c:271-272 | summing a fixed element size gives the size times the count |
| Layout.LaidOut | oflib/ofl-structs-pack.c:340-343 | children whose images match their lengths and write every byte, laid out back to back, take the summed length and write every byte |
| Layout.LaidOutSize | oflib/ofl-structs-pack.c:450-454 | children whose images match their lengths take the summed length when laid out back to back |
| Layout.LaidOutSizeOpt | oflib/ofl-structs-pack.c:226-231 | a failing-length sum that gives each child's image size does not fail and equals the laid-out size |
| Layout.ChildAt | oflib/ofl-structs-pack.c:302-305 | child `k` sits, whole, right after the children before it |
| Actions.ActionsTotalLen | oflib/ofl-structs-pack.c:64 | the sum of the action lengths, as `ofl_actions_ofp_total_len` is called here; `Actions.ActionsImageLen` proves it is the size of the packed action list |
| Actions.ActionsImageLen | oflib/ofl-structs-pack.c:127 | the packed action list is as long as the action total length and writes every byte |
| Actions.ActionAt | oflib/ofl-structs-pack.c:133-136 | action `k` starts at the summed length of the actions before it |
| Actions.PackAction | oflib/ofl-structs-pack.c:134 | packing one action stores its encoding and returns its length |
| Actions.PackActionList | oflib/ofl-structs-pack.c:133-136 | the action loop ends with the cursor at the total action length, the actions stored back to back |
| Instructions.InstructionTypeIdentifies | oflib/ofl-structs-pack.c:53-78 | each OFPIT_* code belongs to exactly one kind of instruction, in both directions; every other code is an unknown instruction |
| Instructions.InstructionLen | oflib/ofl-structs-pack.c:51-80 | the length pass fails exactly for an experimenter instruction without a length callback; a known standard instruction is at least its 8-byte header; an unknown one has length 0; `Instructions.InstructionLenAgrees` ties it to the packed instruction |
| Instructions.InstructionsTotalLen | oflib/ofl-structs-pack.c:83-88 | the sum of the instruction lengths, failing when one fails (`Instructions.InstructionsTotalLenFails`); `Instructions.InstructionsTotalLenAgrees` proves it is the size of the packed instructions |
| Instructions.InstructionsTotalLenFails | oflib/ofl-structs-pack.c:82-88 | the instructions' total length fails exactly when one instruction's length fails |
| Instructions.InstructionFields | oflib/ofl-structs-pack.c:97-150 | a standard instruction starts with its type and a `len` that holds its own size; its bytes are all written; action instructions carry their actions after the 8-byte header |
| Instructions.ActionsFields | oflib/ofl-structs-pack.c:127-137 | a write/apply-actions instruction is 8 bytes plus the action total, stores that in `len` and packs the actions after the header |
| Instructions.InstructionLenAgrees | oflib/ofl-structs-pack.c:51-80 | for a known instruction the length pass gives the size of the packed instruction, and every byte is written |
| Instructions.WrittenImageShape | oflib/ofl-structs-pack.c:93-94 | every pack stores at least `type` and the pad; an unknown instruction, or an experimenter one without a pack callback, leaves `len` unwritten; an unknown instruction has length 0 in the length pass, but its pack covers the 8-byte header |
| Instructions.PackInstruction | oflib/ofl-structs-pack.c:91-162 | returns the length-pass value for every non-experimenter instruction, 0 for an unknown type after storing `type` and the pad, and for an experimenter instruction the callback's byte count or failure when the callback is missing |
| Instructions.PackStandardInstruction | oflib/ofl-structs-pack.c:97-150 | the goto-table, write-metadata, actions and clear-actions cases store their fields after `type` and the pad, and return the record's size |
| Instructions.PackExperimenterInstruction | oflib/ofl-structs-pack.c:151-157 | the experimenter case fails without a pack callback and otherwise stores and counts the callback's bytes |
| Instructions.PackActionsInstruction | oflib/ofl-structs-pack.c:118-138 | an actions instruction stores `len` = 8 + action total and the actions after the header, and returns that length |
| Instructions.InstructionImagesPrefix | oflib/ofl-structs-pack.c:263-265 | the images of the first `k` instructions are the first `k` images |
| Instructions.InstructionsTotalLenAgrees | oflib/ofl-structs-pack.c:82-88 | for supported instructions the total length is the size of the instructions packed back to back, every byte written |
| Instructions.InstructionAt | oflib/ofl-structs-pack.c:263-265 | instruction `k` sits right after the instructions before it |
| Instructions.PackInstructionList | oflib/ofl-structs-pack.c:263-265 | the instruction loop ends with the cursor after the packed instructions, stored back to back |
| Buckets.BucketLen | oflib/ofl-structs-pack.c:167-174 | the 16-byte header plus the action total, padded to 8; `Buckets.BucketLenAligned` and `Buckets.BucketFields` tie it to the packed bucket |
| Buckets.BucketsTotalLen | oflib/ofl-structs-pack.c:179-184 | the sum of the bucket lengths; `Buckets.BucketsTotalLenAgrees` proves it is the size of the packed buckets |
| Buckets.BucketLenAligned | oflib/ofl-structs-pack.c:166-174 | a bucket's length is a multiple of 8, at least its unpadded length, less than 8 above it, the least such multiple, and exactly the unpadded length plus `align` |
| Buckets.BucketFields | oflib/ofl-structs-pack.c:193-212 | a packed bucket is as long as its length, stores that length in `len`, has its actions right after the 16-byte header and exactly `align` zero bytes after them |
| Buckets.PackBucket | oflib/ofl-structs-pack.c:188-215 | returns the length-pass value and stores the bucket's image |
| Buckets.BucketsTotalLenAgrees | oflib/ofl-structs-pack.c:178-184 | the buckets' total length is the size of the buckets packed back to back, every byte written |
| Buckets.PackBucketList | oflib/ofl-structs-pack.c:340-343 | the bucket loop ends with the cursor at the total bucket length, the buckets stored back to back |
| Records.Be32sAt | oflib/ofl-structs-pack.c:467-474 | the `k`-th 32-bit field of a run sits at bytes `4k` to `4k + 4` |
| Records.Be64sAt | oflib/ofl-structs-pack.c:494-505 | the `k`-th 64-bit counter of a run sits at bytes `8k` to `8k + 8` |
| Records.Be32sRoundTrip | oflib/ofl-structs-pack.c:467-474 | each 32-bit field of a run reads back as stored |
| Records.Be64sRoundTrip | oflib/ofl-structs-pack.c:494-505 | each 64-bit counter of a run reads back as stored |
| Records.StrNCopy | oflib/ofl-structs-pack.c:466 | `strncpy` fills exactly the 16-byte name field |
| Records.CString | oflib/ofl-structs-pack.c:466 | reading a name field back stops at the first NUL |
| Records.StrNCopyRoundTrip | oflib/ofl-structs-pack.c:466 | a name shorter than the field is copied and NUL-padded, and reads back unchanged |
| Records.StrNCopyTruncates | oflib/ofl-structs-pack.c:466 | a name at least as long as the field is cut to the field's width |
| Records.PortBytes | oflib/ofl-structs-pack.c:461-477 | a packed port is 64 bytes |
| Records.PortRoundTrip | oflib/ofl-structs-pack.c:461-477 | every field of a port whose name fits reads back from the packed bytes |
| Records.PackPort | oflib/ofl-structs-pack.c:461-477 | stores the port's 64 bytes and returns 64 |
| Records.TableStatsBytes | oflib/ofl-structs-pack.c:480-488 | packed table stats are 24 bytes |
| Records.TableStatsRoundTrip | oflib/ofl-structs-pack.c:480-488 | every table-stats field reads back from the packed bytes |
| Records.PackTableStats | oflib/ofl-structs-pack.c:480-488 | stores the table stats' 24 bytes and returns 24 |
| Records.PortStatsBytes | oflib/ofl-structs-pack.c:491-508 | packed port stats are 104 bytes |
| Records.PortStatsRoundTrip | oflib/ofl-structs-pack.c:491-508 | every port-stats field reads back from the packed bytes |
| Records.PackPortStats | oflib/ofl-structs-pack.c:491-508 | stores the port stats' 104 bytes and returns 104 |
| Records.QueueStatsBytes | oflib/ofl-structs-pack.c:511-519 | packed queue stats are 32 bytes |
| Records.QueueStatsRoundTrip | oflib/ofl-structs-pack.c:511-519 | every queue-stats field reads back from the packed bytes |
| Records.PackQueueStats | oflib/ofl-structs-pack.c:511-519 | stores the queue stats' 32 bytes and returns 32 |
| Records.BucketCounterBytes | oflib/ofl-structs-pack.c:522-527 | a packed bucket counter is 16 bytes |
| Records.BucketCounterRoundTrip | oflib/ofl-structs-pack.c:522-527 | both counters read back from the packed bytes |
| Records.PackBucketCounter | oflib/ofl-structs-pack.c:522-527 | stores the counter's 16 bytes and returns 16 |
| Groups.GroupStatsLen | oflib/ofl-structs-pack.c:270-273 | the 32-byte fixed part plus 16 bytes per counter; `Groups.GroupStatsFields` proves it is the size of the packed record and the value of its `length` |
| Groups.GroupStatsTotalLen | oflib/ofl-structs-pack.c:276-281 | the sum of the record lengths; `Groups.GroupStatsTotalLenAgrees` proves it is the size of the packed records |
| Groups.GroupDescStatsLen | oflib/ofl-structs-pack.c:311-314 | the 8-byte fixed part plus the bucket total; `Groups.GroupDescStatsFields` proves it is the size of the packed record and the value of its `length` |
| Groups.GroupDescStatsTotalLen | oflib/ofl-structs-pack.c:317-322 | the sum of the record lengths; `Groups.GroupDescStatsTotalLenAgrees` proves it is the size of the packed records |
| Groups.CountersImageLen | oflib/ofl-structs-pack.c:289-290 | the counters take 16 bytes each, with no padding, all written |
| Groups.CounterAt | oflib/ofl-structs-pack.c:300-305 | counter `k` occupies bytes `16k` to `16(k + 1)` after the 32-byte header |
| Groups.GroupStatsFields | oflib/ofl-structs-pack.c:289-305 | packed group stats are as long as their length, store it in `length`, write every byte and have the counters after the header |
| Groups.PackCounterList | oflib/ofl-structs-pack.c:302-305 | the counter loop ends with the cursor 16 bytes per counter on, the counters stored back to back |
| Groups.PackGroupStats | oflib/ofl-structs-pack.c:284-308 | returns the length-pass value and stores the record's image |
| Groups.GroupStatsTotalLenAgrees | oflib/ofl-structs-pack.c:275-281 | the total length is the size of the records packed back to back |
| Groups.GroupDescStatsFields | oflib/ofl-structs-pack.c:330-343 | a packed group description is as long as its length, stores it in `length`, writes every byte and has the buckets after the 8-byte header |
| Groups.PackGroupDescStats | oflib/ofl-structs-pack.c:325-346 | returns the length-pass value and stores the record's image |
| Groups.GroupDescStatsTotalLenAgrees | oflib/ofl-structs-pack.c:316-322 | the total length is the size of the records packed back to back |
| Queues.QueuePropTypeIdentifies | oflib/ofl-structs-pack.c:362-372 | each OFPQT_* code belongs to exactly one kind of property, in both directions; every other code is an unknown property |
| Queues.QueuePropLen | oflib/ofl-structs-pack.c:359-372 | the length is 0 exactly for an unknown property; `Queues.QueuePropFields` proves a known property's length is the size of its image |
| Queues.QueuePropsTotalLen | oflib/ofl-structs-pack.c:350-356 | the sum of the property lengths; `Queues.QueuePropsTotalLenAgrees` proves it is the size of the packed properties |
| Queues.QueuePropFields | oflib/ofl-structs-pack.c:358-416 | a known property is 16 bytes, as the length pass says, stores its type and that size and zeroes its pads; only the experimenter id is not written; an unknown property has length 0 but still gets its type and pad |
| Queues.ExperimenterPropWrites | oflib/ofl-structs-pack.c:402-409 | the experimenter case's three stores give the experimenter property's image |
| Queues.PackQueueProp | oflib/ofl-structs-pack.c:375-416 | returns the length-pass value in every case, 0 for an unknown type, and stores the property's image |
| Queues.QueuePropsTotalLenAgrees | oflib/ofl-structs-pack.c:349-356 | for known properties the total length is the size of the packed properties, 16 bytes each |
| Queues.PackQueuePropList | oflib/ofl-structs-pack.c:450-454 | the property loop ends with the cursor at the total property length, the properties stored back to back |
| Queues.PacketQueueLen | oflib/ofl-structs-pack.c:428-432 | the 8-byte header plus the property total; `Queues.PacketQueueFields` proves it is the size of the packed queue and the value of its `len` |
| Queues.PacketQueuesTotalLen | oflib/ofl-structs-pack.c:419-425 | the sum of the queue lengths; `Queues.PacketQueuesTotalLenAgrees` proves it is the size of the packed queues |
| Queues.PacketQueueFields | oflib/ofl-structs-pack.c:440-454 | a packed queue is as long as its length, stores it in `len` and has its properties after the 8-byte header |
| Queues.PackPacketQueue | oflib/ofl-structs-pack.c:434-457 | returns the length-pass value and stores the queue's image |
| Queues.PacketQueuesTotalLenAgrees | oflib/ofl-structs-pack.c:418-425 | the total length is the size of the queues packed back to back |
| Matches.MatchLen | oflib/ofl-structs-pack.c:531-544 | 8 for a standard match, otherwise the experimenter length callback, or 0 without one; `Matches.MatchLenPackDisagree` sets it against the pack pass |
| Matches.OxmMatchFields | oflib/ofl-structs-pack.c:548-563 | an OXM match stores its type; with fields it stores in `length` the value returned and the encoded fields after the header, taking that many bytes while it fits in 16 bits; with no fields it stores the fixed length and returns 0 |
| Matches.PackOxmMatch | oflib/ofl-structs-pack.c:548-563 | an OXM match with fields stores its header and encoded fields, rewrites `length` and returns that 16-bit value |
| Matches.MatchLenPackDisagree | oflib/ofl-structs-pack.c:530-575 | without callbacks, an OXM match with fields has length 0 but packs to at least 4 bytes, and a standard match has length 8 but fails to pack |
| Matches.PackMatch | oflib/ofl-structs-pack.c:546-575 | returns 0, the 16-bit stored length, the callback's count, or failure when the callback is missing, and stores the match's image |
| FlowStats.FlowStatsLen | oflib/ofl-structs-pack.c:219-223 | the rounded match area plus the instruction total, failing when that fails (`FlowStats.FlowStatsLenFails`); `FlowStats.FlowStatsFields` proves it is the size of the packed record |
| FlowStats.FlowStatsTotalLen | oflib/ofl-structs-pack.c:226-231 | the sum of the record lengths, failing when one fails (`FlowStats.FlowStatsTotalLenFails`); `FlowStats.FlowStatsTotalLenAgrees` proves it is the size of the packed records |
| FlowStats.FlowStatsTotalLenFails | oflib/ofl-structs-pack.c:225-231 | the total fails exactly when some record's length fails |
| FlowStats.FlowStatsLenFails | oflib/ofl-structs-pack.c:218-223 | a record's length fails exactly when one of its instructions' length fails |
| FlowStats.MatchEndAligned | oflib/ofl-structs-pack.c:221 | the instructions start on an 8-byte boundary, after the match's declared extent and less than 8 bytes past it |
| FlowStats.FlowStatsHeaderFields | oflib/ofl-structs-pack.c:246-257 | the fixed part is 48 bytes with `length` and then `table_id` first |
| FlowStats.FlowStatsFields | oflib/ofl-structs-pack.c:233-266 | a packed record is as long as the length pass says and stores that in `length`; the match sits at offset 48; the gap up to the rounded offset is never written; the instructions start there and are all written |
| FlowStats.PackFlowStatsHead | oflib/ofl-structs-pack.c:246-259 | stores the fixed part, then the match at offset 48, leaving the gap untouched |
| FlowStats.FlowStatsPacked | oflib/ofl-structs-pack.c:259-264 | the fixed part and the match, followed by the instructions packed at the 8-byte boundary after the match, give the whole record's image |
| FlowStats.PackFlowStats | oflib/ofl-structs-pack.c:233-266 | returns the length-pass value and stores the record's image |
| FlowStats.FlowStatsTotalLenAgrees | oflib/ofl-structs-pack.c:225-231 | for records that pack, the total does not fail and is the size of the records packed back to back |

## Left out

- The OXM TLV encoding (`oxm_put_match`, `oxm_put_packet_match`) is a parameter `oxm` giving the encoded bytes. The `ofpbuf` scratch buffer it is written into, and the buffer's allocation and release, are not modelled.
- The `oxm_fields` argument of `ofl_structs_match_pack` is overwritten before use, so it is not a parameter.
- The action codec (`ofl_actions_ofp_total_len`, `ofl_actions_pack`) is a separate file. An action carries its encoded bytes; its length is their count, and packing it stores them.
- Experimenter callbacks (`exp->inst`, `exp->match`) are optional functions. The length callback gives a count; the pack callback gives the bytes it stores, and its return value is their count. Only the dispatch, including the missing-callback failure, is modelled.
- The experimenter queue property's `experimenter` field and payload are never written by the source. The model leaves those bytes as unwritten.
- Logging (`OFL_LOG_WARN`) has no effect on the result and is left out.
- `OFL_UTILS_SUM_ARR_FUN` and `OFL_UTILS_SUM_ARR_FUN2` are defined in `ofl-utils.h`, which is not part of this model. They are taken to be plain sums.
- When a length that can fail is summed, the model gives `None`. The C code would add `(size_t)-1` into the sum and wrap around.
- The `sizeof(struct ofp_*)` values come from `openflow.h`, which is not part of this model. They are named constants chosen to match the fields the code stores.
- Port: `memcpy` of the hardware address is a 6-byte copy. `strncpy` of the name is a fixed-width copy that NUL-pads a shorter name.
- Instructions.PackInstructionList: requires every instruction to have a known type and, for an experimenter instruction, a pack callback that stores at least 8 bytes. An unknown instruction has length 0 and its pack returns 0, but the pack stores `type` and the pad of an 8-byte header, so the next instruction would be stored over them; the model does not describe such overlapping lists.
- Queues.PackQueuePropList: requires known property types, for the same reason. An unknown property has length 0 in the length pass and its pack returns 0, but the pack stores the type and the pad of its 8-byte header.
- Queues.PackPacketQueue: requires known property types, because of the property loop above.
- FlowStats.PackFlowStats: requires supported instructions, whose length callback agrees with the pack callback. It also requires the encoded match to fit in the area its declared `length` reserves. Otherwise the instructions would overwrite the end of the match.
- Arrays are sequences, and pointers are offsets into one buffer. The model does not capture aliasing between the source records and the destination buffer.
