# Native code patcher (`ir_patch.c`), modelled in Dafny

The IR JIT framework emits machine code. It sometimes has to redirect every
branch to one address (`from`) so that the branch goes to another address (`to`)
instead, for example when a stub is replaced. `ir_patch.c` does this in place.
It has four parts, and this project models all four.

- **`_asm_x86_inslen`**, an x64 instruction-length decoder (`x86_inslen.dfy`,
  module `X86InsLen`).
  - It is driven by two 256-entry opcode maps. Each entry packs an action
    class in its high nibble and a base length in its low nibble.
  - The decoder is a total recursive function, `InsLen`. It returns `None`
    where the source would read past the end of the buffer.
  - The method `AsmX86InsLen` implements the same loop imperatively and is
    proved equal to `InsLen`.
- **x86 `ir_patch_code`** (`x86_patch.dfy`, module `X86Patch`).
  - It walks the code forward, one decoded instruction at a time.
  - At each instruction that starts more than 5 bytes before the end, it
    looks for a near `Jcc` (`0F 8x`, rel32 at offset 2) or a near `JMP`
    (`E9`, rel32 at offset 1) whose target is `from`.
  - It rewrites that rel32 field to `to`, truncated to 32 bits.
  - The method `PatchCode` is proved against two functions of the original
    buffer, `Patched` and `PatchCount`. Lemmas about those functions give what
    the patch promises: which sites change, what they now target, and that
    every other byte stays the same.
- **AArch64 `ir_patch_code`** (`arm64_patch.dfy`, module `Arm64Patch`).
  - It scans the 32-bit words from the last one down to the first.
  - It rewrites the immediate of every B (imm26), B.cond/CBZ/CBNZ (imm19) and
    TBZ/TBNZ (imm14) that matches `from`.
  - When `to` is out of reach, a short branch is relayed through the first B
    the scan rewrote (the veneer). If no relay is possible either, the source
    aborts.
  - The method `PatchCode` is proved against `NewWord`, which says what
    becomes of each word, and `HitCount`.
- **`ir_patch`** (`ir_patch.dfy`, module `IrPatch`).
  - It first rewrites the slots of the jump table that follows the code, then
    calls the code pass.
  - It returns the sum of both counts.
  - There is one entry point per target: `PatchX64` and `PatchArm64`.

### Representation

- Bytes and words are integers in [0, 256) and [0, 2^32). Every mask and shift
  of the source is written as a division or remainder by the matching power of
  two.
- Addresses are unbounded integers.
  - On x64, `base` is the address of the first byte of the code.
  - On AArch64, `PatchCode` works with word addresses (byte address / 4).
    `PatchArm64` takes byte addresses and divides them by 4.
- The rel32 field is a little-endian two's-complement 32-bit value. The new
  displacement is stored modulo 2^32. The x86 source does no range check, so
  the rewritten branch reaches `to` exactly only when the displacement fits in
  32 bits.
- The AArch64 B match compares 25 bits of the field, as the source does (mask
  0x01ffffff), although the field is 26 bits wide. `MatchesTarget` states the
  consequence: a B whose target lies 2^25 words from `from` also matches.
- Abort is the outcome `Aborted`. The model makes no claim about the buffer
  after it.
- The flush of the instruction cache is a returned boolean.
- The jump table is a separate array of pointer values. `SlotOffset` gives
  each slot's real byte offset from the start of the code, and
  `SlotsDisjoint` shows that the slots lie past the code.
- The decoder and the patch loop tell `0F 8x` apart with different byte tests:
  `0F` then high nibble 8, and a 16-bit load masked with `0xf0ff`. Both test
  the same two bytes.

### When the cache is flushed

`ir_patch` itself never flushes the instruction cache. Only `ir_patch_code`
flushes, and only when it rewrote at least one branch in the code, so a jump
table whose slots matched while the code did not causes no flush (`flushed` in
`IrPatch.PatchX64` and `IrPatch.PatchArm64`).

## Model

| member | source | states |
|---|---|---|
| X86InsLen.InsLen | ir_patch.c:14-143 | whenever the decoder stays inside the buffer, it returns a length of at least one byte |
| X86InsLen.StepAt | ir_patch.c:64-114 | one pass of the class switch either finishes, or moves to a later byte that is still inside the buffer, or goes to the ModRM step at or after the current byte |
| X86InsLen.RunStep | ir_patch.c:64-114 | the loop is its first switch pass followed by the rest of the loop |
| X86InsLen.OneByteMap | ir_patch.c:16-41 | every x64 one-byte map entry has a valid class; class 1 is exactly the prefix bytes; flag 2 belongs to 66 alone; flag 4 belongs exactly to REX.W 48-4F |
| X86InsLen.TwoByteMap | ir_patch.c:42-59 | no 0F-map entry is a prefix, an escape or a VEX lead byte, and every entry has a valid class |
| X86InsLen.StepPositive | ir_patch.c:64-114 | a switch pass keeps the running length non-negative and finishes with at least one byte |
| X86InsLen.ResumePositive | ir_patch.c:64-143 | the loop resumed from any reachable state returns at least one byte |
| X86InsLen.RunPositive | ir_patch.c:60-143 | the decoder started on a valid map entry returns at least one byte |
| X86InsLen.StepLocal | ir_patch.c:64-114 | a switch pass at p reads no byte before p |
| X86InsLen.ModRMLocal | ir_patch.c:115-140 | the ModRM/SIB step after q reads only bytes after q |
| X86InsLen.ResumeLocal | ir_patch.c:64-143 | the rest of the loop reads no byte before its position |
| X86InsLen.InsLenLocal | ir_patch.c:14-143 | the length at p depends only on the bytes from p on |
| X86InsLen.NearBranchLength | ir_patch.c:39-83 | E8/E9 decode to 5 bytes and 0F 80..0F 8F to 6, the end of their rel32 field |
| X86InsLen.StepShift | ir_patch.c:64-114 | starting a switch pass with a length k larger shifts its result by k |
| X86InsLen.ResumeShift | ir_patch.c:64-143 | the rest of the loop, started with a length k larger, returns k more |
| X86InsLen.RunShift | ir_patch.c:64-143 | the decoder started with a length k larger returns k more |
| X86InsLen.PrefixStep | ir_patch.c:68-72 | a class-1 byte adds one to the length, ORs its flags into the prefix set and reads the next byte through the one-byte map |
| X86InsLen.PrefixShift | ir_patch.c:68-72 | a prefix contributes exactly one byte to whatever follows |
| X86InsLen.NeutralPrefixEntry | ir_patch.c:17-40 | segment overrides, 67, REX without W, F0, F2 and F3 are class-1 entries whose flags change neither operand size nor REX.W |
| X86InsLen.NeutralPrefix | ir_patch.c:17-72 | such a prefix adds exactly one byte to the length of the instruction it precedes |
| X86InsLen.OperandSizePrefix | ir_patch.c:27-114 | after 66, class-4 and class-8 immediates shrink by 2 (net length one less), while classes 5 and 9 keep theirs (net one more) |
| X86InsLen.OperandSizeRun | ir_patch.c:79-114 | with the 66 flag set, classes 4 and 8 return 2 less than without it, and classes 5 and 9 the same |
| X86InsLen.RexWImmediate | ir_patch.c:22-67 | MOV r64, imm64 (REX.W then B8-BF) is 10 bytes; without the prefix it is 5 |
| X86InsLen.ModRMAddressing | ir_patch.c:115-140 | the ModRM step adds the base length plus the mod/rm/SIB displacement bytes: 0 for mod 3, 4 for mod 0 with rm 5, 1 or 4 for mod 1 or 2, one SIB byte when rm is 4, and 4 more for SIB base 5 under mod 0 |
| X86InsLen.ModRMLength | ir_patch.c:114-140 | a one-byte class-9 opcode is its base length plus those addressing bytes |
| X86InsLen.ModRMRun | ir_patch.c:114-140 | the same for any class-9 entry, starting from a length of zero |
| X86InsLen.Group3Length | ir_patch.c:40-140 | F6/F7 carry an immediate (1 or 4 bytes) only when ModRM.reg is 0 |
| X86InsLen.Group3OperandSize | ir_patch.c:27-90 | 66 F7 /0 carries a 2-byte immediate |
| X86InsLen.VexTwoByteLength | ir_patch.c:37-110 | C5 decodes as two VEX bytes followed by the 0F-map opcode at p+2 |
| X86InsLen.VexThreeByteLength | ir_patch.c:37-140 | C4 with map 0F38/0F3A skips three bytes, then decodes ModRM |
| X86InsLen.AsmModRM | ir_patch.c:115-140 | the imperative ModRM/SIB step computes `ModRM` |
| X86InsLen.AsmPass | ir_patch.c:64-114 | the imperative switch pass computes `StepAt` |
| X86InsLen.AsmX86InsLen | ir_patch.c:14-143 | the decoder loop returns `InsLen` of the buffer at the start position |
| X86Patch.LeValue | ir_patch.c:156-159 | a little-endian byte string denotes a number below 256^n |
| X86Patch.LeBytes | ir_patch.c:157-160 | n bytes of a value are n bytes long |
| X86Patch.U32At | ir_patch.c:156-159 | a 4-byte load is an unsigned 32-bit value |
| X86Patch.Signed32 | ir_patch.c:146-159 | a 32-bit value read as signed lies in [-2^31, 2^31) and is congruent to it modulo 2^32 |
| X86Patch.Le32 | ir_patch.c:157-160 | a 32-bit store writes 4 bytes |
| X86Patch.LeValue4 | ir_patch.c:156-159 | a 4-byte little-endian load, byte by byte |
| X86Patch.Le32Bytes | ir_patch.c:157-160 | the bytes a 32-bit store writes are the value's four low bytes |
| X86Patch.LowBytesValue | ir_patch.c:157-160 | the four low bytes together are the value modulo 2^32 |
| X86Patch.Signed32Congruent | ir_patch.c:156-160 | the signed reading of v mod 2^32 is congruent to v, and equals v when v fits in 32 signed bits |
| X86Patch.Le32Decode | ir_patch.c:156-160 | loading a stored value gives it back modulo 2^32, and exactly when it fits in 32 signed bits |
| X86Patch.Le32OfValue | ir_patch.c:156-160 | storing the value of four bytes writes those bytes |
| X86Patch.Le32Wrap | ir_patch.c:157-160 | the store truncates: v and v - 2^32 store the same bytes |
| X86Patch.Le32Encode | ir_patch.c:156-160 | storing a loaded field writes it back unchanged |
| X86Patch.NearJump | ir_patch.c:156-159 | the rel32 field sits at offset 2 for 0F 8x and at offset 1 for E9 |
| X86Patch.WriteField | ir_patch.c:157-160 | the rewrite keeps the buffer size |
| X86Patch.WriteFieldBytes | ir_patch.c:157-160 | the rewrite stores to - (end of instruction), truncated, into the four field bytes, and no other byte changes |
| X86Patch.PatchFields | ir_patch.c:155-164 | rewriting a list of fields keeps the buffer size |
| X86Patch.PatchFieldsOutside | ir_patch.c:155-164 | a byte outside every rewritten field keeps its value |
| X86Patch.PatchFieldsInside | ir_patch.c:155-164 | a byte inside a rewritten field holds that field's new displacement byte |
| X86Patch.PatchFieldsDisp | ir_patch.c:157-160 | each rewritten field then holds to - (end of instruction), modulo 2^32 |
| X86Patch.FieldAt | ir_patch.c:155-163 | a field is reported exactly when the instruction at p is a near Jcc or JMP whose decoded end plus its stored displacement is `from`, and the field is the last four bytes of that decoded instruction |
| X86Patch.Walk | ir_patch.c:153-163 | the walk visits only starts from p up to 6 bytes before the end, and their fields lie inside the buffer |
| X86Patch.WalkStep | ir_patch.c:155-163 | the walk is the current instruction followed by the walk from the next decoded one |
| X86Patch.FieldAtLength | ir_patch.c:156-163 | the decoded length of a matched branch ends exactly where its rel32 field ends |
| X86Patch.SpacedCons | ir_patch.c:155-163 | spacing extends to a visit placed ahead of later ones |
| X86Patch.WalkSpaced | ir_patch.c:155-163 | the starts visited ascend, and no visited start lies inside the field of an earlier branch |
| X86Patch.WalkFields | ir_patch.c:156-161 | every visit records its field exactly when the instruction is a near branch to `from` |
| X86Patch.Fields | ir_patch.c:156-161 | there are at most as many fields as visits |
| X86Patch.FieldsAppend | ir_patch.c:155-164 | the fields of two runs of visits are the fields of each, in order |
| X86Patch.FieldsBelow | ir_patch.c:155-164 | fields that end below a bound still do as a list |
| X86Patch.FieldsMember | ir_patch.c:156-161 | q is a recorded field exactly when some visit recorded it |
| X86Patch.FieldsAscending | ir_patch.c:155-164 | the recorded fields ascend without overlapping and lie inside the buffer |
| X86Patch.OutsideAppend | ir_patch.c:155-164 | a byte outside two lists of fields is outside both together |
| X86Patch.FieldsSpareOpcode | ir_patch.c:156-160 | the opcode bytes of a visited branch lie outside every rewritten field |
| X86Patch.Patched | ir_patch.c:148-169 | the patched buffer exists exactly when the walk stays inside the buffer, and it is the same size |
| X86Patch.PatchCount | ir_patch.c:150-161 | the count exists exactly when the walk does |
| X86Patch.PatchedOf | ir_patch.c:150-164 | the patched buffer rewrites exactly the recorded fields, and the count is how many there are |
| X86Patch.PatchFieldsKind | ir_patch.c:156-160 | after the rewrite, each visited branch is still the same kind of branch |
| X86Patch.PatchFieldsTarget | ir_patch.c:157-160 | a branch whose field was rewritten targets `to` modulo 2^32, and exactly `to` when the displacement fits |
| X86Patch.PatchFieldsRetarget | ir_patch.c:156-161 | the same branch kind, now targeting `to` (modulo 2^32) |
| X86Patch.PatchedRetargets | ir_patch.c:155-164 | every branch to `from` that the walk reaches becomes the same kind of branch to `to`, modulo 2^32 and exactly when the displacement fits |
| X86Patch.PatchedKeeps | ir_patch.c:155-164 | every byte outside the rewritten fields, opcodes included, keeps its value |
| X86Patch.MatchesLocal | ir_patch.c:156-161 | whether p holds a branch to `from` depends only on the bytes from p on |
| X86Patch.WriteFieldLength | ir_patch.c:156-163 | rewriting a branch's field keeps its kind and decoded length, and touches nothing past the field |
| X86Patch.PatchFieldsSnoc | ir_patch.c:155-164 | rewriting one more field after the others |
| X86Patch.LoadDisp32 | ir_patch.c:156-159 | the unaligned 32-bit load returns the signed displacement |
| X86Patch.StoreField | ir_patch.c:157-160 | the unaligned 32-bit store writes the new displacement |
| X86Patch.BranchField | ir_patch.c:156-159 | the two-way match test returns the field of a near branch to `from` |
| X86Patch.Decodes | ir_patch.c:163 | while the walk goes on, the decoder succeeds on the partly patched buffer |
| X86Patch.WriteStep | ir_patch.c:156-163 | one rewrite during the loop extends the list of rewritten fields and keeps the length and bytes still to be decoded |
| X86Patch.WalkAdvance | ir_patch.c:155-163 | one step of the walk gives up the current field, if any, and continues from the next decoded instruction |
| X86Patch.Advance | ir_patch.c:155-163 | one pass of the loop keeps its invariant: the buffer is the original with the fields behind rewritten, and no field is lost or gained |
| X86Patch.PatchAt | ir_patch.c:156-163 | the loop body rewrites the branch at p if it matches, then decodes the length of the instruction at p |
| X86Patch.PatchCode | ir_patch.c:148-169 | the x64 pass leaves the buffer as `Patched` and returns `PatchCount`, and it flushes exactly when that count is nonzero |
| Arm64Patch.Field | ir_patch.c:192-225 | the immediate field is below 2^width |
| Arm64Patch.PlaceKeeps | ir_patch.c:197-237 | a rewrite keeps the kind of branch and every bit outside the immediate (masks fc000000, ff00001f, fff8001f), and the field holds the distance modulo 2^width |
| Arm64Patch.PlaceKeeps26 | ir_patch.c:197 | B: bits 26-31 kept, low 26 bits replaced |
| Arm64Patch.PlaceKeeps19 | ir_patch.c:219 | B.cond/CBZ/CBNZ: bits 0-4 and 24-31 kept, bits 5-23 replaced |
| Arm64Patch.PlaceKeeps14 | ir_patch.c:237 | TBZ/TBNZ: bits 0-4 and 19-31 kept, bits 5-18 replaced |
| Arm64Patch.SameHigh | ir_patch.c:189-222 | words that agree from bit 19 or bit 24 up agree in every bit the kind test reads |
| Arm64Patch.PlaceTarget | ir_patch.c:193-237 | a distance that passes the range check comes back out of the field: the rewritten branch jumps there |
| Arm64Patch.SignedLow | ir_patch.c:194-227 | the range check admits exactly the distances whose two's-complement field reads back as the same number, so an abort or a veneer fallback happens only when the field cannot hold the distance |
| Arm64Patch.MatchesTarget | ir_patch.c:191-225 | a branch matches exactly when its target agrees with `from` in the compared bits: 25 for B, 19 or 14 for the short branches |
| Arm64Patch.RewriteSpec | ir_patch.c:189-240 | a word that is not a branch to `from` stays the same; a branch to `from` keeps its kind and the bits outside its immediate, and then jumps to `to` when that fits, otherwise to the veneer; the scan aborts exactly when B does not reach `to`, or when a short branch reaches neither `to` nor an existing veneer |
| Arm64Patch.Veneer | ir_patch.c:177-201 | the veneer held after visiting the words from k up is the highest B to `from` among them, and it is never replaced |
| Arm64Patch.HitCount | ir_patch.c:198-238 | the count of branches to `from` is at most the number of words |
| Arm64Patch.VeneerRelay | ir_patch.c:209-237 | a short branch that cannot reach `to` is pointed at a B to `from` at a higher address, which itself now jumps to `to` |
| Arm64Patch.ScanStep | ir_patch.c:186-240 | visiting one more word sets the veneer only when it is the first B to `from`, and counts the word when it is a branch to `from` |
| Arm64Patch.PatchWord | ir_patch.c:186-240 | the loop body rewrites the word as `Rewrite` says, reports an abort and whether the word matched, and takes the word as the veneer when it is the first B rewritten |
| Arm64Patch.PatchCode | ir_patch.c:173-248 | the AArch64 pass aborts exactly when some word cannot be rewritten; otherwise every word ends as `NewWord` makes it, the count is the number of branches to `from`, and the cache is flushed exactly when that count is nonzero |
| IrPatch.AlignedSize | ir_patch.c:256 | the table offset is the code size rounded up to a multiple of the pointer size, and less than one pointer past it |
| IrPatch.SlotOffset | ir_patch.c:256-264 | each slot lies at or after the end of the code, pointer aligned |
| IrPatch.SlotsDisjoint | ir_patch.c:256-264 | slots are distinct, non-overlapping, and the first starts within a pointer of the code's end |
| IrPatch.Replace | ir_patch.c:258-263 | each slot that held `from` holds `to`, and every other slot keeps its value |
| IrPatch.Occurrences | ir_patch.c:258-262 | a count of matching slots never exceeds the number of slots |
| IrPatch.ReplaceCounts | ir_patch.c:258-263 | when `from` and `to` differ, no `from` is left, and the slots holding `to` are those that held either |
| IrPatch.PatchTable | ir_patch.c:253-265 | exactly the first `jmp_table_size` slots are visited and replaced; slots past them are unchanged; the count is the number that held `from` |
| IrPatch.PatchX64 | ir_patch.c:251-270 | on x64, the table is replaced, the code is left as `Patched`, and the result is the table count plus the code count; the flush depends only on the code count |
| IrPatch.PatchArm64 | ir_patch.c:251-270 | on AArch64, the table is replaced; the code pass either aborts or leaves every word as `NewWord` makes it; the result is the sum of both counts, and the flush depends only on the code count |

## Left out

- The 32-bit x86 build: the `IR_TARGET_X86` rows of `map_op1` (lines 24 and 34) and the VEX branch at lines 92-97. Only the x64 build is modelled.
- `ir_mem_flush` is an external cache flush. It is modelled as the returned `flushed` flag.
- `abort()` is modelled as the outcome `Aborted`. The model says nothing about the buffer after an abort; the source partly rewrites the buffer before it aborts.
- Concurrent execution of the code while it is patched, and the atomicity of the stores, cannot be expressed in this sequential model.
- Pointer width, provenance and unaligned access become integer index and address arithmetic. Addresses never wrap around 2^64.
- `IR_ALIGNED_SIZE` is defined in `ir.h`, which is not part of this model. `AlignedSize` uses the usual round-up to a multiple of the pointer size (8).
- X86Patch.PatchCode: requires that the forward walk never runs the decoder past the end of the buffer. The source would read out of bounds there, so the model takes this as the caller's obligation.
- IrPatch.PatchArm64: requires `base`, `from` and `to` to be word aligned. The source subtracts `uint32_t *` pointers, which is only meaningful for aligned addresses. `Arm64Patch.PatchCode` therefore works on word addresses.
- Arm64Patch.HitCount: its own contract states only the bound. How the count relates to the rewrites is stated by `Arm64Patch.PatchCode`.
- The AArch64 code size is a whole number of words: the buffer is an array of words. The source would read outside the buffer if the size were not a multiple of 4.
- X86InsLen.InsLen: the source keeps `result` in a `uint32_t`, so it is modular, and the model keeps it in an unbounded integer. After a 66 prefix, the class-4 and class-8 cases subtract 2 from a running length that can be 1 (for `66 69 /r iw` it briefly holds 0xFFFFFFFF, and the model -1). The following addition of the base length brings it back, and the length returned is at least 1 (`X86InsLen.StepPositive`, `X86InsLen.RunPositive`), so both return the same number for every length below 2^32. The model proves no upper bound on the length; each pass adds at most 15 plus one byte read, and the buffer bounds the number of passes.
