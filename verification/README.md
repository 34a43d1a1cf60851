# The direct machine-code backend

This project models the part of the compiler that turns parsed statements into x86-64 and
AArch64 machine code and into a dynamically linked ELF image, and the front-end state that part
relies on. Everything is stated over mathematical integers kept in range by hand: a register is
a number below 2^64, memory is a function from addresses to bytes, a bit-field word is the sum of
its shifted fields. The two machines have executable semantics (`X86Machine.dfy`,
`A64Machine.dfy`), written from the Intel SDM (Vol. 2, sections 2.1 and 2.2.1) and the Arm ARM
(section C6.2), so "what the emitted code means" is a theorem about running it, not about its
text. `hash`, the values of arguments, and the state in which a body leaves the machine are
parameters or are quantified over.

How the modules fit together:

- `Words`, `Bits`, `Memory`: fixed-width arithmetic, bits, byte memory.
- `TypeSys`, `Registers`, `NamedRegs`: derived types, abstract registers, and which machine registers
  they are.
- `X86Instr`, `X86RoundTrip`, `X86Flags`, `X86Machine`: encoder, decoder, semantics. `X86Lower`,
  `X86Alias`, `X86Compare`, `X86Address`, `X86Stores`, `X86Frame` state what the chosen sequences
  compute; `X86Buffer` and `X86Emit` are the imperative emitters, each proved to put exactly the
  encoding of its sequence.
- `A64Instr`, `A64Machine`, `A64Moves`, `A64Bits`, `A64Lower`, `A64Sums`, `A64Compare`, `A64Stores`,
  `A64Frame`, `A64FrameExact`, `A64Buffer`, `A64Emit`, `A64EmitLoops`: the same for AArch64, with
  `A64Sums` also proving that the two backends agree.
- `LinkKeys`, `LinkNames`, `LinkLayout`, `LinkTables`: label keys and the reference linker. `X86Linker` and
  `A64Linker` are the linkers themselves, state machines over begin, label, branch, call, string
  and end steps whose invariant ties the tables relocated in place to the reference layout.
  `X86Patch`/`X86Image` and `A64Patch`/`A64Image` say what the final image means.
- `SysvHash`, `ElfBytes`, `ElfArch`, `ElfImage`, `ElfPath`, `ElfWriter`: the dynamic container and its
  writer. `ElfLoader` reads a file from its bytes alone, as the kernel and the dynamic loader do: headers,
  segments, dynamic section, symbols, relocations, lazy binding. `ElfLoaded` and `ElfBound` prove what it
  finds in a written file, and `ElfLink` joins this to the linkers: an unresolved call ends in the function
  of its own name, the process starts at main's prologue, and literals stand where their addresses point.
- `Conditions`, `OwnNumbers`, `HashTables`, `NregAlloc`, `StackSlots`: the front-end state.
- `Slices`, `SliceResults`, `SliceObjects`, `StaticIndex`: checked accesses with indices of every
  width, on the numbers the emitted code computes: when the checks are right, what passing operands
  give, and what stays inside the object. `X86Slices` and `A64Slices` run the emitted code
  (comparisons, branches, address, count) and prove that it computes those numbers from every
  state.

Where the code does not meet the property one would like, the code is kept and the exact condition
is proved, as an equivalence over all inputs or all states: which forms the encoders handle
(`X86RoundTrip.RoundTrip`, `A64Lower.AddSubImmMeaning`, `A64Stores.MemMeaning`), which
destinations may be operands (`X86Alias.AddRegExact`, `X86Alias.SubRegExact`,
`A64Sums.SubNarrowLeftExact`), which comparisons decide (`X86Compare.CmpRegExact`,
`X86Compare.CmpImmExact`, `A64Compare.CmpRegExact`, `A64Compare.CmpImmExact`,
`Conditions.X86ConstantBlock`, `Conditions.A64ConstantBlock`, `OwnNumbers.X86OwnExactly`,
`OwnNumbers.A64OwnExactly`, `Conditions.BranchExact`, `Conditions.CondSetExact`), which frames give
the registers back (`A64FrameExact.FrameExact`), when two labels share a key (`LinkKeys.KeysEqual`,
`LinkKeys.CollideExactly`, `LinkKeys.LongNamesShareOneKey`), when register ranges overlap
(`NregAlloc.DeclareExact`, `NregAlloc.RunExact`), when a frame saves every register that was given to a
name (`NregAlloc.X86SavesExactly`), which of them survive calls (`NamedRegs.X86SurvivesCalls`), and when bounds checks and element addresses are
right (`Slices.ChecksExact`, `Slices.SafeExactly`, `SliceResults.RightExactly`,
`SliceResults.OpenRangeExact`, `SliceObjects.X86IndexExact`, `StaticIndex.A64StaticExact`).

An access that passes its check does not always stay in its object: a signed one-byte index of -100
into a 200-byte stack array passes on both machines and gives an address 100 bytes below it
(`X86Slices.ByteIndexEscapes`, `A64Slices.ByteIndexEscapes`). `Slices.SafeExactly` says for which
lengths and index types this cannot happen, and `SliceObjects.AccessInside` and
`SliceObjects.ChainInside` hold there; slices are safe on x86-64 at every index width.

On x86-64 a function gives its caller back every register it named only if no inner block needed more
of them than are in use at its end: the frame is made for the final count
(`NregAlloc.X86SavesExactly`, with an instance in `NregAlloc.NestedNameNotSaved`).

## Model

| member | source | states |
|---|---|---|
| TypeSys.DTypeCell.Append | alc/typesys.h:78-82 | appending shifts nothing and is ignored when the eight declarators are in use |
| TypeSys.DTypeCell.Wrap | alc/typesys.h:84-92 | the in-place shift puts the new declarator outermost and keeps the others in order; ignored when full |
| TypeSys.DTypeCell.Unwrap | alc/typesys.h:101-111 | returns the outermost declarator and leaves the rest in order; harmless on a plain type |
| TypeSys.UnwrapUndoesWrap | alc/typesys.h:84-111 | wrapping and unwrapping are inverse exactly below the declarator limit |
| TypeSys.Eq | alc/typesys.h:173-187 | the comparing loop decides equality with slice amounts ignored |
| TypeSys.Check | alc/typesys.h:189-213 | the two-cursor loop holds exactly when every run of checks of `from` is a prefix of the matching run of `to` and all else agrees |
| TypeSys.CheckIsPartialOrder | alc/typesys.h:189-213 | the check relation is reflexive, transitive, and antisymmetric up to type equality |
| TypeSys.RegCount | alc/typesys.h:165-171 | two registers exactly when some declarator is a slice |
| TypeSys.SizeCovers | alc/typesys.h:144-163 | a slice is two 8-byte words, as many as it has registers; an address one; an array that many times the base type; a check adds nothing |
| TypeSys.AddressUnderOneCheck | alc/typesys.h:137-142 | a type counts as an address exactly when its outermost declarator is one, or the one under a single check |
| X86RoundTrip.RoundTrip | alc/bin-x86_64.c:193-326 | for every instruction form the decoder returns the instruction and the untouched rest if and only if the form is one the encoder handles (the excluded ones: RSP as index, 16-bit immediates that do not fit a byte, and the like) |
| X86RoundTrip.StreamRoundTrip | alc/bin-x86_64.c:193-326 | a whole emitted stream decodes back to exactly the emitted sequence |
| X86RoundTrip.MemOperandRoundTrip | alc/bin-x86_64.c:211-258 | ModRM, SIB and displacement decode to the operand, including RSP/R12 bases (SIB) and RBP/R13 bases (disp8) |
| X86Buffer.CodeBuffer.Put8 | alc/bin-x86_64.c:130-144 | a byte goes to the selected buffer, or the error flag is raised exactly on overflow |
| X86Buffer.CodeBuffer.Put32 | alc/bin-x86_64.c:146-151 | four bytes, little-endian, negative values modulo 2^32 |
| X86Buffer.CodeBuffer.Put64 | alc/bin-x86_64.c:153-156 | eight bytes, little-endian, from two halves |
| X86Emit.EncodeRR | alc/bin-x86_64.c:193-209 | the bytes put are the encoding of the register-register form |
| X86Emit.EncodeMem | alc/bin-x86_64.c:226-258 | the bytes put are the encoding of the memory form |
| X86Emit.AluRI | alc/bin-x86_64.c:264-293 | the imm8/imm32 choice puts the encoding of the immediate form |
| X86Emit.ShiftRI | alc/bin-x86_64.c:295-310 | the bytes put are the encoding of the shift by a constant |
| X86Emit.EmitNeg | alc/bin-x86_64.c:312-326 | the bytes put are the encoding of NEG |
| X86Emit.EmitMov | alc/bin-x86_64.c:450-499 | the bytes put are the encoding of the move sequence whose meaning MovMeaning states |
| X86Emit.EmitMovReg | alc/bin-x86_64.c:505-568 | likewise for register moves |
| X86Emit.EmitAddReg | alc/bin-x86_64.c:578-588 | likewise for register sums |
| X86Emit.EmitSubReg | alc/bin-x86_64.c:594-612 | likewise for register differences |
| X86Emit.EmitCmp | alc/bin-x86_64.c:614-616 | the bytes put are the encoding of the compare with a constant |
| X86Emit.EmitCmpReg | alc/bin-x86_64.c:618-642 | the bytes put are the encoding of the compare sequence, by widths and condition |
| X86Emit.EmitCondSet | alc/bin-x86_64.c:812-836 | the bytes put are the encoding of SETcc and the extension; refused exactly for conditions without a code |
| X86Emit.EmitElemAddr | alc/bin-x86_64.c:1134-1171 | the bytes put are the encoding of base, index extension, and scaled address or multiplication |
| X86Emit.EmitStrImm | alc/bin-x86_64.c:701-741 | likewise for constants stored to memory |
| X86Emit.EmitStorePacked | alc/bin-x86_64.c:1023-1038 | the loop puts the store-and-shift sequence |
| X86Emit.EmitZerofill | alc/bin-x86_64.c:1040-1057 | the nested loops put the zeroing sequence |
| X86Emit.EmitFnPrologueEpilogue | alc/bin-x86_64.c:840-890 | the prologue goes to its own buffer and the epilogue continues the body |
| X86Lower.MovMeaning | alc/bin-x86_64.c:450-499 | every form (xor, imm8/16/32, sign-extended imm32, zero-extended imm32, imm64) acts as one move of the value modulo 2^(8 size), and decodes back |
| X86Lower.MovRegMeaning | alc/bin-x86_64.c:505-568 | a widening move extends the source as its type says; any other copies it at the source width |
| X86Lower.AddRegMeaning | alc/bin-x86_64.c:578-588 | dst = lhs + rhs modulo the width, each operand sign- or zero-extended by its own type, nothing else changed |
| X86Lower.SubRegMeaning | alc/bin-x86_64.c:594-612 | dst = lhs - rhs likewise, including the subtract-then-negate form |
| X86Alias.AddRegExact | alc/bin-x86_64.c:578-588 | the sum is right in every state if and only if the wider operand is not overwritten first and an equal-width sum has an address form |
| X86Alias.SubRegExact | alc/bin-x86_64.c:594-612 | the difference is right in every state if and only if no operand still needed is overwritten |
| X86Compare.CmpImmDecodes | alc/bin-x86_64.c:264-293 | for every width and constant the bytes decode to a compare with what the field holds, followed at 16 bits by the two immediate bytes that are not read |
| X86Compare.StrayIsNoBranch | alc/bin-x86_64.c:284-293 | for 16-bit constants from 128 to 65535 those bytes are two zeros, which are no instruction the compiler emits, so no branch follows the compare |
| X86Compare.CmpImmExact | alc/bin-x86_64.c:614-616 | nothing else is read and the flags are those of comparing with the constant at the operand's width, in every state, if and only if the constant is a byte at 16 bits and fits 32 bits signed at 64 bits |
| X86Compare.CmpRegMeaning | alc/bin-x86_64.c:618-642 | the flags that the emitted mixed-width compare leaves, whatever registers coincide |
| X86Compare.CmpRegExact | alc/bin-x86_64.c:618-642 | they are those of the operands' numbers, in every state, if and only if RAX holds no operand that is still needed and no narrower left operand is tested for equality |
| X86Address.ElemAddrRuns | alc/bin-x86_64.c:1134-1171 | the address is base + element size times the whole index register, which is extended in place first if it is narrow; only that register, RAX, RCX and the destination change |
| X86Stores.StrImmMeaning | alc/bin-x86_64.c:701-741 | one store or the two-dword split writes exactly the bytes of one store of the operand size |
| X86Stores.StorePackedMeaning | alc/bin-x86_64.c:1023-1038 | exactly the first n <= 8 little-endian bytes of the source are written; no other memory and no register but the source changes |
| X86Stores.ZerofillMeaning | alc/bin-x86_64.c:1040-1057 | exactly `size` zero bytes are written; only RCX changes |
| X86Frame.PrologueMeaning | alc/bin-x86_64.c:840-890 | saved registers in distinct slots right below the entry stack pointer, locals between RSP and those slots, RSP aligned to 16 at calls given the ABI alignment, nothing above touched |
| X86Frame.EpilogueRestores | alc/bin-x86_64.c:840-890 | for every body that keeps RSP and the save slots: RSP, RBP when changed, and every pushed register are restored |
| X86Frame.FrameDecodes | alc/bin-x86_64.c:840-890 | the emitted prologue and epilogue bytes decode back to those instructions |
| LinkKeys.MakeKeyInjective | alc/bin-x86_64.c:187-191 | uncut keys of one function, or of two functions neither of which continues the other after a dot, are equal exactly for the same function, label and index |
| LinkKeys.FullKeysEqual | alc/bin-x86_64.c:187-191 | two key texts are equal if and only if index and the text before it are |
| LinkKeys.CollideExactly | alc/bin-x86_64.c:187-191 | two functions share some uncut key if and only if one name continues the other after a dot and leaves room for a label and an index |
| LinkKeys.KeysEqual | alc/bin-x86_64.c:187-191 | two labels share a key, cut or not, if and only if they have one index and the same text before it, or both texts fill the 95 characters alike |
| LinkKeys.SameFunctionKeys | alc/bin-x86_64.c:187-191 | cut or not, two labels of a function share a key if and only if the kept part of label and index is the same |
| LinkKeys.LongNamesShareOneKey | alc/bin-x86_64.c:187-191 | all labels of a function share one key if and only if its name has 94 characters or more |
| LinkKeys.DottedNamesCollide | alc/bin-x86_64.c:187-191 | an instance: a dot in a function name makes two labels share a key |
| LinkNames.DistinctExactly | alc/bin-x86_64.c:802-810 | table keys, cut or not, are distinct if and only if no two labels share one in that sense |
| LinkNames.LookupFinds | alc/bin-x86_64.c:377-385 | looking up a label finds the first label that shares its key, which is its own entry if and only if no earlier one does |
| LinkLayout.BodyPlacement | alc/bin-x86_64.c:336-375 | each function stands whole in the linked code: its prologue and right after it its body |
| LinkLayout.LabelPlacement | alc/bin-x86_64.c:348-353 | each label ends at its own place in its function, wherever the function was put |
| LinkLayout.FixPlacement | alc/bin-x86_64.c:354-359 | each fix-up moves with its body |
| LinkLayout.SymbolPlacement | alc/bin-x86_64.c:361-367 | each named function has a symbol at the start of its prologue |
| LinkLayout.FixesOrdered | alc/bin-x86_64.c:354-359 | fix-up fields of the whole program are in order, pairwise disjoint and inside the code |
| LinkLayout.EntryIsMain | alc/bin-x86_64.c:368-369 | the entry is the start of the last function called main |
| LinkTables.UnquotedText | alc/bin-x86_64.c:644-657 | whatever stands between the first and the last character of a quoted literal is its text; texts that are too short or do not start with a quote stay as they are |
| LinkLayout.FindIsFirst | alc/bin-x86_64.c:377-385 | lookup succeeds exactly when the key is there, with the first such entry |
| LinkLayout.FindAt | alc/bin-x86_64.c:377-385 | the lookup loop computes that |
| LinkLayout.ImportsDistinct | alc/bin-x86_64.c:402-419 | no imported name is listed twice |
| LinkLayout.ExternalRecorded | alc/bin-x86_64.c:420-423 | every call to a name that is no function is listed with the import of exactly that name |
| LinkLayout.OnlyExternalsListed | alc/bin-x86_64.c:395-425 | nothing else is listed |
| X86Linker.Linker.EmitFnBegin | alc/bin-x86_64.c:328-334 | starting a function while the outer one is still empty keeps the linker in step |
| X86Linker.Linker.EmitFn | alc/bin-x86_64.c:905-910 | the active context is named |
| X86Linker.Linker.EmitLabel | alc/bin-x86_64.c:802-810 | a label at the current offset, or an error exactly when the table is full |
| X86Linker.Linker.EmitBranch | alc/bin-x86_64.c:770-781 | a jump with a zero field and a fix-up exactly on that field |
| X86Linker.Linker.EmitBranchCond | alc/bin-x86_64.c:783-800 | likewise for conditions below 14; others are refused |
| X86Linker.Linker.EmitFnCall | alc/bin-x86_64.c:892-903 | likewise for calls |
| X86Linker.Linker.EmitStringLit | alc/bin-x86_64.c:644-681 | the literal without its quotes (LinkTables.UnquotedText) and a 0 are appended, and its address taken by a fix-up; X86Image.StringStands says where that leads |
| X86Linker.Linker.EmitFnEnd | alc/bin-x86_64.c:336-375 | relocating every undone entry in place makes the function the next object of the layout; refused exactly when the code would overflow |
| X86Linker.Linker.BinEmit | alc/bin-x86_64.c:387-444 | patching in place gives the linked image, whose entry X86Image.MainStarts states; errors exactly for an unknown label or too many imports |
| X86Linker.Linker.StillValid | alc/bin-x86_64.c:130-144 | every other emitter keeps the linker invariant |
| X86Image.FixupLands | alc/bin-x86_64.c:387-432 | every fix-up field of every function holds the exact distance to the label, function or string it names; external calls are listed and left as they were |
| X86Image.KeysReachTheirOwners | alc/bin-x86_64.c:377-385 | with distinct keys (when that is, LinkNames.DistinctExactly says) a branch reaches that very label and a call that very function |
| X86Image.BranchReachesLabel | alc/bin-x86_64.c:377-432 | a branch to a function's label and index goes to the first label with that key, and to that very label when names are apart |
| X86Image.OtherBytesKept | alc/bin-x86_64.c:434-444 | every other byte of the image is the concatenated functions and strings |
| X86Image.MainStarts | alc/bin-x86_64.c:368-369 | the image's entry is the start of the last function called main, and its prologue stands there whole |
| X86Image.FixupDecodes | alc/bin-x86_64.c:387-432 | wherever its function was placed, the instruction of every fix-up decodes as it was emitted, but with the displacement that leads where its field points |
| X86Image.StringStands | alc/bin-x86_64.c:644-681 | the field of a literal's fix-up points to a place of the image, behind the code, where exactly its text and a 0 stand |
| X86Patch.PatchedField | alc/bin-x86_64.c:387-432 | disjoint fields each receive their own displacement |
| A64Instr.RoundTrip | alc/bin-aarch64.c:20-62 | a word decodes to an instruction if and only if it is the encoding of that well-formed instruction |
| A64Buffer.WordBuffer.PutWord | alc/bin-aarch64.c:120-126 | a word goes to the body, or the error flag is raised exactly on overflow |
| A64Buffer.WordBuffer.PutPrologue | alc/bin-aarch64.c:128-134 | likewise for the prologue |
| A64Buffer.WordsDecode | alc/bin-aarch64.c:20-62 | each word of an emitted sequence decodes to its instruction |
| A64Moves.MovMeaning | alc/bin-aarch64.c:282-330 | for every value and width the MOVZ/MOVN/MOVK sequence leaves the value modulo 2^64 in the register, whichever strategy is chosen |
| A64Moves.MovLength | alc/bin-aarch64.c:290-330 | one to four instructions, with the exact count for each strategy |
| A64Emit.EmitMov | alc/bin-aarch64.c:282-330 | the lane-counting and emitting loops put exactly that sequence |
| A64Emit.CountLanes | alc/bin-aarch64.c:290-297 | the counts of lanes that differ from zero and from all ones |
| A64Emit.EmitMovReg | alc/bin-aarch64.c:337-357 | the word put is the encoding of the move whose meaning MovRegMeaning states |
| A64Emit.AddSubImmediate | alc/bin-aarch64.c:368-380 | the word put, with sign flip and 12-bit shift, is the encoding of the chosen instruction |
| A64Emit.EmitAddSub | alc/bin-aarch64.c:382-396 | adding or subtracting zero is a move; otherwise the immediate form |
| A64Emit.EmitCmp | alc/bin-aarch64.c:398-401 | the flag-setting immediate form into the zero register |
| A64Emit.EmitAddReg | alc/bin-aarch64.c:424-432 | plain or extended-register form, by the operand widths |
| A64Emit.EmitSubReg | alc/bin-aarch64.c:434-446 | likewise, moving a narrower left operand to x16 first |
| A64Emit.EmitCmpReg | alc/bin-aarch64.c:448-463 | likewise for comparison |
| A64Emit.EmitLsl | alc/bin-aarch64.c:465-473 | the UBFM whose meaning LslMeaning states |
| A64Emit.EmitLsrImm | alc/bin-aarch64.c:475-482 | the UBFM whose meaning LsrMeaning states |
| A64Emit.EmitBitfield | alc/bin-aarch64.c:484-491 | the BFM or UBFM whose meaning InsertMeaning states |
| A64Emit.MemOp | alc/bin-aarch64.c:519-532 | scaled or unscaled form, by the offset |
| A64Emit.EmitElemAddr | alc/bin-aarch64.c:977-997 | the base of a stack array, then the shifted or extended sum |
| A64EmitLoops.EmitStorePacked | alc/bin-aarch64.c:878-893 | the loop puts the store-and-shift sequence |
| A64EmitLoops.EmitZerofill | alc/bin-aarch64.c:895-920 | the three loops put the zeroing sequence; the halving loop ends because size < 2 * rsize |
| A64EmitLoops.EmitFnPrologueEpilogue | alc/bin-aarch64.c:599-674 | prologue and epilogue words are those of the frame code; refused exactly for nine or more saved registers |
| A64Lower.SxtMeaning | alc/bin-aarch64.c:341-345 | SBFM from bit 0 sign-extends, proved from the rotate-and-mask definition |
| A64Lower.MovRegMeaning | alc/bin-aarch64.c:337-357 | the instruction of a widening move of a typed operand extends it over the register; that of any other copies 32 or 64 bits |
| A64Sums.MovRegRuns | alc/bin-aarch64.c:332-357 | the whole move, of which nothing is emitted between equal operands: only the destination changes, and the bytes of the source that fit arrive |
| A64Lower.AddSubImmMeaning | alc/bin-aarch64.c:368-396 | the result is lhs plus or minus the constant if and only if the constant has an encoding |
| A64Sums.AddRegMeaning | alc/bin-aarch64.c:424-432 | dst = lhs + rhs modulo the width, each operand extended by its own type, whatever registers coincide |
| A64Sums.SubRegMeaning | alc/bin-aarch64.c:434-446 | dst = lhs - rhs when the left operand is not the narrower |
| A64Sums.SubNarrowLeftExact | alc/bin-aarch64.c:443-445 | with a narrower left operand the difference is exact in every state if and only if the result is 64-bit, that operand typed, and the other one not in x16 |
| A64Compare.CmpRegMeaning | alc/bin-aarch64.c:448-463 | the flags that the emitted compare leaves, for any widths and registers |
| A64Compare.CmpRegExact | alc/bin-aarch64.c:448-463 | they are those of the operands' numbers, in every state, if and only if the widths are ones that are extended: 32 or 64 bits, a narrower left operand typed and widened to 64, the right one not in x16 |
| A64Compare.CmpImmMeaning | alc/bin-aarch64.c:368-401 | the flags of comparing with any constant: cut to its field, negative ones added, the carry lost when nothing is left of them |
| A64Compare.CmpImmExact | alc/bin-aarch64.c:398-401 | they are those of comparing with the constant, in every state, if and only if it has an encoding and is not lost altogether |
| A64Sums.BackendsAgreeOnAdd | alc/bin-aarch64.c:424-432 | from equal operand values both backends leave the same sum wherever the x86-64 sum is right |
| A64Sums.BackendsAgreeOnSub | alc/bin-aarch64.c:434-446 | and the same difference, where AArch64 extends a narrow left operand |
| A64Sums.ElemAddrMeaning | alc/bin-aarch64.c:977-997 | base + index * 2^shift for the number the index stands for |
| A64Bits.LslMeaning | alc/bin-aarch64.c:465-473 | left shift by the amount modulo the width |
| A64Bits.LsrMeaning | alc/bin-aarch64.c:475-482 | logical right shift by the amount modulo the width |
| A64Bits.InsertMeaning | alc/bin-aarch64.c:484-491 | for every legal position and width exactly the low source bits land at lsb, over the old bits or over zeros |
| A64Stores.MemMeaning | alc/bin-aarch64.c:519-532 | the access is at the given offset if and only if the offset has an encoding |
| A64Stores.StorePackedMeaning | alc/bin-aarch64.c:878-893 | exactly the first n <= 8 little-endian bytes are written; no other memory and no register but the source changes |
| A64Stores.ZerofillMeaning | alc/bin-aarch64.c:895-920 | exactly `size` zero bytes are written and nothing else changes |
| A64Frame.PrologueMeaning | alc/bin-aarch64.c:599-674 | SP falls by a multiple of 16, each saved register has its own slot above the locals, x29 points between them, nothing at or above the old SP changes |
| A64Frame.EpilogueRestores | alc/bin-aarch64.c:599-674 | for every body that keeps SP and the save slots: SP, x29, x30 and x19.. are restored, other registers kept |
| A64Frame.EncodableExact | alc/bin-aarch64.c:586-674 | every pair offset is encoded exactly if and only if the last one is at most 504 |
| A64FrameExact.FrameExact | alc/bin-aarch64.c:586-674 | for every frame: SP falls by the frame size and everything saved comes back, from every state and for every body that keeps SP and the slots, if and only if the frame fits its fields |
| A64FrameExact.FramesThatFail | alc/bin-aarch64.c:586-674 | 512 bytes of locals save x29 and x30 below SP; 4080 bytes leave SP where it was |
| A64Linker.Linker.EmitFnBegin | alc/bin-aarch64.c:165-170 | starting a function while the outer one is still empty keeps the linker in step |
| A64Linker.Linker.EmitLabel | alc/bin-aarch64.c:705-713 | a label at the current word, or an error exactly when the table is full |
| A64Linker.Linker.EmitBranch | alc/bin-aarch64.c:676-686 | a branch word with a zero field and a fix-up on it |
| A64Linker.Linker.EmitBranchCond | alc/bin-aarch64.c:688-703 | likewise for the sixteen conditions |
| A64Linker.Linker.EmitFnCall | alc/bin-aarch64.c:1026-1036 | likewise for calls |
| A64Linker.Linker.EmitStringLit | alc/bin-aarch64.c:999-1024 | the literal without its quotes and a 0 are appended, and its address taken by an ADR with a fix-up; A64Image.StringStands says where that leads |
| A64Linker.Linker.EmitFnEnd | alc/bin-aarch64.c:172-210 | relocating every undone entry in place makes the function the next object of the layout |
| A64Linker.Linker.BinEmit | alc/bin-aarch64.c:222-276 | OR-ing fields into the words gives the linked image, in bytes; errors exactly for an unknown label or too many imports |
| A64Patch.PatchDisplaces | alc/bin-aarch64.c:226-266 | OR-ing a field within reach into its placeholder gives exactly the instruction with that displacement |
| A64Image.FixupLands | alc/bin-aarch64.c:222-266 | every fix-up word decodes to its instruction with the exact distance; the capacities keep every field within reach |
| A64Image.BranchReachesLabel | alc/bin-aarch64.c:213-266 | the same for branches on AArch64 |
| A64Image.OtherWordsKept | alc/bin-aarch64.c:269-276 | every other word is the concatenated functions |
| A64Image.MainStarts | alc/bin-aarch64.c:204-205 | the image's entry, in bytes, is the start of the last function called main, and its prologue stands there whole |
| A64Image.StringStands | alc/bin-aarch64.c:999-1024 | the ADR of a literal's fix-up takes the address of a place of the image, behind the code, where exactly its text and a 0 stand |
| SysvHash.ElfHash | alc/emit_helper-elf-exe.h:112-122 | the loop computes the gABI hash, always below 2^28 |
| SysvHash.StepClearsTop | alc/emit_helper-elf-exe.h:116-119 | folding the top nibble back clears it and loses nothing below |
| SysvHash.HashIsSum | alc/emit_helper-elf-exe.h:112-122 | the hash of a name is the sum of its bytes times powers of 16 if and only if that sum is below 2^28 |
| SysvHash.ShortSums | alc/emit_helper-elf-exe.h:112-122 | which it is for every name of up to six ASCII characters |
| SysvHash.HashOfLonger | alc/emit_helper-elf-exe.h:112-122 | each further byte shifts in four bits and folds back at bit 4 what leaves the low 28 |
| SysvHash.HashOfExit | alc/emit_helper-elf-exe.h:112-128 | an instance: the hash of exit is 0x6cf04 |
| SysvHash.FillTable | alc/emit_helper-elf-exe.h:282-291 | every chain entry is the previous symbol of its bucket, every bucket its last symbol |
| SysvHash.ChainsDescend | alc/emit_helper-elf-exe.h:287-291 | chains strictly decrease, so every walk ends at 0 |
| SysvHash.Lookup | alc/emit_helper-elf-exe.h:282-291 | the gABI lookup finds the last symbol of the name, and 0 exactly when the name is absent |
| ElfImage.NameInDynstr | alc/emit_helper-elf-exe.h:139-151 | each name stands terminated at its recorded offset |
| ElfImage.RegionsDisjoint | alc/emit_helper-elf-exe.h:153-200 | all fifteen regions of the image, headers included, are pairwise disjoint and inside it |
| ElfImage.LayoutAligned | alc/emit_helper-elf-exe.h:153-195 | symbols, hash table, relocations and GOT are 8-byte aligned, stub and text 16-byte aligned, the data on a page of its own |
| ElfArch.PltEntryMeaning | alc/exe-elf-x86_64.c:45-53 | on both machines a PLT entry jumps through exactly its own GOT slot, leaving on AArch64 the slot's address in x16; on x86-64 the code behind the jump pushes the entry's own number and goes to the first entry |
| ElfArch.Plt0Meaning | alc/exe-elf-aarch64.c:48-58 | the first PLT entry enters the resolver in the third GOT word, on x86-64 with the second word pushed, on AArch64 with the x16 it was entered with saved |
| ElfArch.AdrpExact | alc/exe-elf-aarch64.c:22-26 | ADRP reaches the page of its target |
| ElfArch.PatchedCallMeaning | alc/exe-elf-aarch64.c:70-76 | on both machines a patched call goes exactly to its target |
| ElfArch.StartStubMeaning | alc/exe-elf-x86_64.c:28-35 | the x86-64 stub decodes to a call of main, a move of the result register to the first parameter register, and a call of exit; the AArch64 one to the two calls, where these registers are one |
| ElfPath.CallReachesPlt | alc/emit_helper-elf-exe.h:24-31 | every external call goes to the PLT entry of its import |
| ElfPath.HashWired | alc/emit_helper-elf-exe.h:282-291 | the hash section holds that table |
| ElfPath.StubWired | alc/emit_helper-elf-exe.h:314-317 | the stub in the image calls main at the entry offset and then, with its result, the PLT entry of exit |
| ElfLoaded.HeadersRead | alc/emit_helper-elf-exe.h:208-269 | read from the bytes alone: a file the kernel accepts for the machine, entered at the stub and mapped by its program headers as the layout says |
| ElfLoaded.DynamicReads | alc/emit_helper-elf-exe.h:299-312 | looking up each tag of the dynamic section from the segment that holds it gives the address or number it stands for |
| ElfBound.FileReads | alc/emit_helper-elf-exe.h:208-312 | segments that can be mapped, the interpreter's path, DT_NEEDED naming libc.so.6, the dynamic section's address in the first GOT word, and at DT_HASH the gABI table of the symbols' names |
| ElfBound.SymbolReads | alc/emit_helper-elf-exe.h:273-280 | through DT_SYMTAB, DT_SYMENT, DT_STRTAB and within DT_STRSZ, symbol i + 1 is an undefined global function named as import i |
| ElfBound.RelocationReads | alc/emit_helper-elf-exe.h:293-298 | through DT_JMPREL, DT_PLTRELSZ and DT_PLTREL, relocation i fills the writable slot i with the address of import i |
| ElfBound.SlotReads | alc/emit_helper-elf-exe.h:319-330 | a jump through slot i while it holds its first value comes to the resolver, found through DT_PLTGOT, with relocation number i |
| ElfBound.ImportsWired | alc/emit_helper-elf-exe.h:273-330 | for every import: PLT entry i jumps through slot i of DT_PLTGOT, which relocation i fills with the function of that name, at once or on the first call |
| ElfBound.CallBound | alc/emit_helper-elf-exe.h:24-31 | in memory every external call leads through such a slot to the function of its import's name |
| ElfBound.StartBound | alc/emit_helper-elf-exe.h:314-317 | the process starts at the entry point with a call of main and then of the C library's exit with main's result |
| ElfBound.TextHeld | alc/emit_helper-elf-exe.h:332-333 | text that no external call covers is in memory, to be read and executed, as it was linked |
| ElfWriter.BuildDynstr | alc/emit_helper-elf-exe.h:139-151 | the loop builds the string table and records every offset |
| ElfWriter.Writer.PutPltAndGot | alc/emit_helper-elf-exe.h:324-330 | the loop fills PLT and GOT together |
| ElfWriter.Writer.PatchExtCalls | alc/emit_helper-elf-exe.h:24-31 | the loop redirects every call in the copied text |
| ElfWriter.Writer.WriteDynamicElf | alc/emit_helper-elf-exe.h:130-337 | a file with every region in place exactly when it fits and has at most 62 names; with more than 64 the table of name offsets is overrun first; everything else is refused |
| ElfLink.ImportsOverrun | alc/emit_helper-elf-exe.h:147-151 | the linker's 64 imports together with exit overrun that table exactly when all 64 are used |
| ElfLink.X86ExternalCall | alc/bin-x86_64.c:387-444 | from linked functions to memory: every unresolved call is a call instruction that leads to the function of exactly its name, bound at once or on the first call |
| ElfLink.A64ExternalCall | alc/bin-aarch64.c:222-276 | the same on AArch64 |
| ElfLink.X86Starts | alc/bin-x86_64.c:368-369 | the process starts at the prologue of the last function called main and exits with its result |
| ElfLink.A64Starts | alc/bin-aarch64.c:204-205 | the same on AArch64 |
| ElfLink.X86Loaded | alc/bin-x86_64.c:387-432 | every other instruction with a fix-up is in memory as it was emitted, leading where its field points |
| ElfLink.X86Literal | alc/bin-x86_64.c:644-681 | in memory the instruction of a literal computes the address at which exactly its text and a 0 stand |
| ElfLink.A64Literal | alc/bin-aarch64.c:999-1024 | the same on AArch64 |
| Conditions.FlipNegates | alc/main.c:2726-2731 | flipping is an involution and negates every evaluable condition |
| Conditions.FlagsMean | alc/bin-x86_64.c:122-124 | after a full-width compare each condition holds on both machines exactly when it holds of the operands |
| Conditions.MachinesAgree | alc/bin-aarch64.c:115-118 | both machines decide every one of the fourteen conditions alike, the flag tests included |
| Conditions.MeansIsEval | alc/main.c:2733-2766 | the run-time comparison decides as constant folding does |
| Conditions.BranchExact | alc/bin-aarch64.c:688-703 | a branch is exact for every condition but "never", which AArch64 takes; x86-64 refuses "always" and "never" |
| Conditions.CondSetExact | alc/bin-aarch64.c:493-496 | the register is 1 exactly when the condition holds, except that "always" gives 0 |
| Conditions.X86CondSetExact | alc/bin-x86_64.c:812-836 | behind a full-width compare the register is 1 exactly when the condition holds of the operands and 0 otherwise, over its whole width |
| Conditions.BlockRuns | alc/main.c:2803-2870 | under the flags of a full-width compare a guarded block runs exactly when its condition holds, folded or emitted, on both machines |
| Conditions.X86RegisterBlock | alc/main.c:2813-2870 | behind the emitted compare of two registers the block runs exactly when the condition holds of their numbers, wherever that compare is exact |
| Conditions.A64RegisterBlock | alc/main.c:2813-2870 | the same on AArch64 |
| Conditions.X86ConstantBlock | alc/main.c:2826-2828 | right behind a compare with a constant, for each condition and width and in every state, if and only if the constant is a byte at 16 bits and fits 32 bits signed at 64 bits |
| Conditions.A64ConstantBlock | alc/main.c:2826-2828 | and on AArch64, for each condition, a constant of the register's width and the register that is compared, if and only if the constant has an encoding |
| OwnNumbers.X86OwnExactly | alc/main.c:2826-2828 | for an operand of any width and all conditions of its sign, the block follows the operand's own number in every state if and only if the constant fits its field and the operand can stand for it |
| OwnNumbers.A64OwnExactly | alc/main.c:2826-2828 | on AArch64 if and only if moreover the operand is no narrower than 32 bits and the constant has an encoding |
| OwnNumbers.A64HeldOwn | alc/main.c:2826-2828 | for narrower operands it does wherever the 32-bit register holds the extended number |
| HashTables.Table.FindEntry | alc/mini_hashset.h:37-54 | the probe stops at the key or the first free slot; it gives up exactly when the table is full and the key absent |
| HashTables.Table.TryFind | alc/hashmap.h:39-45 | find is the lookup of a map |
| HashTables.Table.Overwrite | alc/mini_hashset.h:61-65 | overwrite updates the map |
| HashTables.Table.Add | alc/mini_hashset.h:67-75 | add never replaces a binding |
| HashTables.Table.Clear | alc/mini_hashset.h:88-92 | clearing empties the map |
| HashTables.MaskIsMod | alc/hashmap.h:29-30 | masking by a power of two less one is the cyclic step |
| HashTables.StopFindsBinding | alc/mini_hashset.h:37-54 | the slot where a probe stops holds the key exactly when the map binds it |
| HashTables.Scopes.Push | alc/mini_hashset.h:97-106 | a new empty scope, refused at seven |
| HashTables.Scopes.Pop | alc/mini_hashset.h:107-112 | the innermost scope is dropped; the outermost stays |
| HashTables.Scopes.AddId | alc/main.c:990-993 | a parameter is bound in the innermost scope unless the name is bound there already |
| HashTables.Scopes.OverwriteId | alc/main.c:2465-2465 | a declaration binds its name in the innermost scope, over any binding there |
| HashTables.Scopes.FindId | alc/mini_hashset.h:119-129 | the search is innermost-first lookup in a stack of maps |
| HashTables.InnermostIs | alc/mini_hashset.h:119-129 | which is the binding of the innermost scope that has one |
| NregAlloc.EveryRun | alc/main.c:2431-2466 | over every run of declarations and blocks the register invariant holds unless at least 254 registers were in use (exactly when, RunExact says) |
| NregAlloc.DeclareExact | alc/main.c:661-664 | a declaration keeps the invariant if and only if the count does not pass 255 |
| NregAlloc.RunExact | alc/main.c:2431-2466 | a run keeps the invariant throughout if and only if no declaration of it wraps the count |
| NregAlloc.AcceptedRuns | alc/bin-aarch64.c:604-612 | a function whose AArch64 frame is accepted kept the invariant all along, and every machine register it ever gave a name is one that the frame saves |
| NregAlloc.GivenRestored | alc/bin-aarch64.c:599-674 | so behind the epilogue each of them holds again what it held at entry |
| NregAlloc.X86SavesExactly | alc/bin-x86_64.c:852-865 | the x86-64 frame, made for the final count, saves every register that was ever given to a name if and only if that count is also the highest one |
| NregAlloc.NestedNameNotSaved | alc/bin-x86_64.c:852-865 | an instance: the one name of an inner block lives in RBX, and the frame of its function saves nothing |
| NamedRegs.A64SavedExactly | alc/bin-aarch64.c:140-141 | named register o is saved by an accepted frame if and only if the function used more than o of them |
| NamedRegs.A64NamedApart | alc/bin-aarch64.c:136-153 | the named registers of an accepted frame are different machine registers, none of them a parameter, x16, x29, x30 or 31 |
| NamedRegs.A64WorkingMeetsNamed | alc/bin-aarch64.c:136-153 | working register p is named register o if and only if p = o + 11 |
| NamedRegs.A64PassesByAapcs | alc/bin-aarch64.c:144-151 | parameters and results are in the order of AAPCS64; the frame pointer is x29 and 31 the stack pointer or zero |
| NamedRegs.X86Apart | alc/exe-elf-x86_64.c:6-9 | on x86-64 named, working and parameter registers are different among themselves, and named ones from all others |
| NamedRegs.X86PassesByPsabi | alc/exe-elf-x86_64.c:8-9 | parameters and results are in the order of the System V psABI |
| NamedRegs.X86SurvivesCalls | alc/exe-elf-x86_64.c:7-7 | a named register survives a call that keeps the psABI if and only if it is one of the first five |
| NamedRegs.X86SavedExactly | alc/bin-x86_64.c:860-865 | the x86-64 frame saves exactly the named registers below the count it is made for |
| NregAlloc.VisibleDisjoint | alc/main.c:2459-2467 | any two names of open scopes hold disjoint registers below the count |
| NregAlloc.BlockRestores | alc/main.c:2569-2583 | a well-nested block gives back exactly its names and registers |
| NregAlloc.WrapOverlaps | alc/main.c:661-664 | a run from the start whose one-byte count wraps: two visible names share a register |
| NregAlloc.Allocator.AddNreg | alc/main.c:661-664 | count and high-water mark after a declaration |
| NregAlloc.Allocator.DeclareVar | alc/main.c:2431-2467 | the name gets the next registers |
| NregAlloc.Allocator.StartOfBlock | alc/main.c:2569-2573 | scope and mark are pushed together |
| NregAlloc.Allocator.EndOfBlock | alc/main.c:2575-2583 | and dropped together |
| StackSlots.SlotAllocator.ResolveStackStoreTarget | alc/main.c:1453-1493 | a first store takes fresh bytes below all slots, later stores the same ones |
| StackSlots.SlotsInFrame | alc/bin-aarch64.c:614-616 | every slot lies between SP and the frame pointer and two slots share no byte |
| StackSlots.SlotHolds | alc/main.c:1471-1475 | a slot is large enough for a plain value or array |
| StackSlots.NextPow2Least | alc/main.c:1470-1470 | sizes are rounded to the least power of two that holds them |
| Slices.ChecksExact | alc/main.c:1168-1184 | for all operands of a type whose registers hold them, failing means out of bounds if and only if the length is kept: always for slices, on x86-64 unless a narrow index type cannot reach it, on AArch64 when it has an encoding or no index of the type reaches what is left |
| Slices.SafeExactly | alc/main.c:1168-1184 | whatever the registers hold, for each form, index width and sign: operands fail or are in bounds if and only if no number that passes can be a negative one (on x86-64 signed bytes need length % 256 at most 128, or 127 for range ends; 16-bit indices a length below 128) |
| Slices.PassingInBounds | alc/main.c:1168-1184 | for safe forms, or registers that hold their indices on AArch64, operands that pass are in bounds, cut length or not |
| SliceResults.AccessRight | alc/main.c:1190-1221 | an access that passes gives exactly the address and count asked for, under what the code relies on |
| SliceResults.RightExactly | alc/main.c:1190-1221 | whatever the registers hold, accesses of a type give what was asked for if and only if its ranges are safe and: on x86-64 the indices are not of 32 bits; on AArch64 the stack offset is encodable and the element size a power of two, unless no index but 0 passes |
| SliceResults.OpenRangeExact | alc/main.c:1196-1203 | the count of an open range is exact if and only if the index register holds the extended index in full when it is subtracted, which x86-64 provides for narrow ones |
| SliceObjects.AccessInside | alc/main.c:1190-1221 | under what the code relies on, an access that passes gives an element of the object, or a run of whole elements with exactly the count asked for |
| SliceObjects.X86IndexExact | alc/bin-x86_64.c:1150-1153 | in objects below 4 GiB an index that passes a safe check hits the object if and only if the bits above it are lost in the scaling |
| SliceObjects.ChainInside | alc/main.c:1115-1225 | however long the chain of such accesses, results stay in the original object |
| X86Slices.Refines | alc/main.c:1158-1221 | run from any state, the emitted x86-64 comparisons, branches, address and count do what the model of accesses says |
| X86Slices.PerformedInside | alc/main.c:1158-1221 | so, under what the code relies on, an executed access that does not fail stays inside its object |
| A64Slices.Refines | alc/main.c:1158-1221 | the same for the AArch64 code |
| A64Slices.PerformedInside | alc/main.c:1158-1221 | and its accesses |
| X86Slices.ByteIndexEscapes | alc/bin-x86_64.c:264-293 | an i8 index of -100 into 200 bytes passes its check and gives the address 100 bytes below them |
| A64Slices.ByteIndexEscapes | alc/bin-aarch64.c:977-997 | the same on AArch64 for a register with zeros above the byte |
| StaticIndex.X86StaticExact | alc/main.c:1566-1575 | the check of a constant index into a slice fails exactly when the count is not greater |
| StaticIndex.A64StaticExact | alc/main.c:1566-1575 | on AArch64 in every state if and only if the index has an encoding |
| StaticIndex.CutIndexPasses | alc/main.c:1566-1575 | an instance: index 8191 passes for a count of 4097 |
| StaticIndex.StaticInside | alc/main.c:1566-1588 | an index below the count names an element of the object |

## Left out

- X86Linker.Linker.EmitFnBegin: requires that nothing of the outer function has been emitted, because the source resets the shared buffer; a nested compilation started after that loses the outer bytes. A64Linker.Linker.EmitFnBegin has the same precondition.
- A64Sums.SubRegMeaning: covers a left operand at least as wide as the right; SubNarrowLeftExact says exactly when the other case is right.
- X86Lower.AddRegMeaning: takes a destination that is not the wider operand, and for equal widths no byte sum and no RSP on the right; X86Alias.AddRegExact says these are exactly the sums that are right in every state.
- X86Lower.SubRegMeaning: takes a destination that is not the operand still needed; X86Alias.SubRegExact says when the difference is right.
- A64Frame.EpilogueRestores: is stated for frames that fit their fields, as A64Frame.PrologueMeaning is; A64FrameExact.FrameExact says that no other frame gives its registers back in every state.
- X86Frame.PrologueMeaning: is stated for the number of registers the frame saves; the x86-64 source passes the final count, not the highest one, and NregAlloc.X86SavesExactly says when these differ.
- ElfWriter.Writer.WriteDynamicElf: reports that the table of name offsets is overrun and stops there; what the overrun destroys is not modelled.
- SliceResults.AccessRight: takes objects smaller than half the address space, under what the code relies on; RightExactly and SafeExactly say when that is needed. Unchecked accesses and end-only ranges of slices are not modelled.
- Slices.SafeExactly: a 16-bit index compared with a length of 128 or more counts as unsafe on x86-64 because other bytes stand before the branch (outcome Astray); what those bytes do is not modelled.
- X86Slices.Refines: takes registers that are not overwritten while they are needed (its predicate Fits), as A64Slices.Refines does; on AArch64 an index below 64 bits whose element size has more than four trailing zeros has no encoding (A64Sums.ShiftFitsExactly) and is left out.
- NregAlloc.EveryRun: models one-line declarations of one register or a slice, and parameters as such declarations; 16-byte structs held in registers are not modelled.
- StackSlots.SlotHolds: says nothing about slots of addresses, whose size the source takes from the base type; the 32-bit width of the stack size is not modelled.
- A64Emit.EmitElemAddr: takes element sizes whose shift has an encoding, which A64Sums.ShiftFitsExactly characterises.
- A64Emit.EmitMovReg: takes base types of one to eight bytes, as EmitSubReg, EmitCmpReg and EmitAddSub do; wider ones overflow the field of the extension.
- A64EmitLoops.EmitStorePacked: takes sources that are no addresses; an address would get a 64-bit access for each chunk.
- X86Emit.EmitStrImm: takes base types of one, two, four or eight bytes.
- X86Linker.Linker.EmitStringLit: takes destinations of four or eight bytes.
- File output, the section headers and the header fields that point to them, the static image (the entry stub with a system call in place of exit), Mach-O and PE containers.
- What the resolver and the C library do once entered.
- Lexing, parsing, directives, diagnostics and text assembly output.
- Aggregate construction (emit_eightbyte_struct, store_struct, emit_array_access), multiplication, and emit_str_imm on AArch64.
- const_hashmap, whose mask by 25 is not a cyclic step, and the growing arrays of dyn.h.
- x86-64 flags: only those of a comparison, for the branch or SETcc right after it.
