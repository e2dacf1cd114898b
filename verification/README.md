# A verified model of the 68000 assembler, disassembler and analysis store

This project models, in Dafny, the parts of the repository that carry its promises, and proves them:

- the instruction codec: the table-driven encoder and the separately written decoder are inverse,
  form by form, including fields, sizes, extension words and the MOVEM register mask;
- the lazy decode cache, which agrees with decoding directly from the bytes;
- the analysis policy and the fact store of the sections: growth, deep copy, the bounded mirror,
  inherited structures, address resolution and manual data references;
- the JSON builder: a rope of chunks and a string escaper that RFC 8259 section 7 undoes;
- the layout projection of a frozen render plan.

The encoding is that of the M68000 Family Programmer's Reference Manual, sections 2.1 and 2.2.

## How it is built

Code that works in place is a method over arrays or a class, proved against a function of its inputs;
the properties are lemmas about those functions. The generated form tables are parameters:
`FormTable.WellFormed` says what both halves of the codec rely on, and the codec lemmas hold for every
well-formed form. A form is not well formed when it has a control-register or PREDEC operand kind.

| files | what they hold |
|---|---|
| `Wrappers`, `Words`, `FormTable` | optional values, bit fields and bytes, forms and operands |
| `Assembler`, `Disassembler`, `RegisterMask` | the two halves of the codec |
| `FieldRoundTrip`, `PatchRoundTrip`, `SizeRoundTrip` | fields, operands in fields, and size suffixes come back |
| `IndexRoundTrip`, `ExtensionRoundTrip` | index extensions and the whole extension tail come back |
| `InstructionRoundTrip`, `BranchRoundTrip`, `IrCodec` | whole instructions come back, with any bytes behind them |
| `FormSearch` | the disassembler's search through the table, and the round trip through it |
| `Spans`, `SpanTiling` | operand storage spans |
| `SymbolTargets`, `SymbolRoundTrip`, `DisplacementFit` | from symbol to displacement and from displacement to target |
| `IndexWitness`, `MovemWitness`, `SymbolWitness` | rows of MOVE, MOVEM and BFTST with the values of the tables, at which the round trips and their failures are seen |
| `DecodeStore`, `DecodeCache`, `DecodeSection`, `DecodeObject` | the decode cache, from one answer to a whole object |
| `CustomStructs`, `StructLayout` | inherited structures and their layout |
| `PolicyStore`, `PolicyCopy`, `StructuredMirror` | collections of the policy, its copy and its mirror |
| `DataReferences`, `PointerLoop`, `PointerRanges` | facts about addresses |
| `JsonText`, `JsonBuilder` | escaping, parsing and the rope |
| `LayoutProjection` | the projected plan |

## What does not hold, and exactly when it does

Where the code does not keep a law on all inputs, the lemma is an if-and-only-if, and most failures are shown
at a concrete input, named last.

- The disassembler takes the first row that reads the bytes. An instruction is found again exactly when no row
  tried earlier reads them too (`FormSearch.SearchRoundTrip`). That no row can be in the way is seen in the
  table: every row listed earlier lacks the CPU or fixes a bit differently (`FormSearch.UnrivalledIsFirst`).
- A branch with suffix `.l` never comes back: the encoder writes at most one displacement word for it, and the
  decoder takes the next word of the section for its displacement. A `.b` branch comes back only when its low
  byte is none of the two signals, a `.w` one when its displacement is a signed word
  (`BranchRoundTrip.BranchExactly`; `ByteBranchLooksLong`, `ByteBranchLooksWord` and `LongBranchIsLost` there).
- The outer displacement of a full index extension is recognised by the number of bytes that remain, and the
  bytes behind the instruction count too. An operand with an outer displacement comes back exactly when the
  later extensions are as short as the decoder estimates them and nothing follows the instruction; one without
  comes back exactly when that surplus and what follows are together not 2 or 4 bytes
  (`IndexRoundTrip.IndexedExtensionRoundTrip`, `ExtensionRoundTrip.TailRoundTrip`,
  `InstructionRoundTrip.FormRoundTrip`; `IndexWitness.MoveComesBackExactly`).
- The encoder and the decoder choose the width of an immediate in different ways. The two choices are the
  same exactly when the size shows in a field, or the form has a single size, or the size that the operands
  get without a suffix is not long (`SizeRoundTrip.ImmediateWidthsAgree`). No row of the generated tables reaches
  the difference: the rows without a size field and with several sizes get a byte size or none from an
  immediate operand.
- Decoding an instruction directly gives its operands the kinds of the form, and the encoder of instructions
  refuses operands of the kinds IND, POSTINC, PREDEC and ABSL where the form has them
  (`IrCodec.DirectOperandsFit`). The round trip of `IrCodec` therefore takes the normalised operands that
  the analysis makes of a candidate.
- The extension words counted for the storage spans differ from those emitted for long and unsized
  branches, for byte branches with a zero low byte and for immediates of bit-field operands
  (`SpanTiling.CountsAgreeExactly`, `SpanTiling.LabelCountSettled`).
- A PC-relative reference of a bit-field operand does not come back: the resolver takes only EA operands for
  PC-relative and writes the target itself, while the collector counts it from the place of the operand. Such
  an operand would lead to its target from the place 0 only; all other references come back exactly when
  the displacement fits its field and the target is in the section (`SymbolRoundTrip.ReferenceComesBack`,
  `DisplacementFit.DisplacementExactly`; `SymbolWitness.BitFieldLeadsElsewhere`).
- The base of a PC-relative displacement is computed alike on both sides exactly when no ABSL operand
  comes before the operand (`SymbolTargets.BasesAgree`). In the generated tables ABSL occurs in the rows of
  MOVE16 only, which have no PC-relative operand, so no row reaches the difference.
- The cache answers a request differently from decoding directly exactly when the offset was stored for a
  CPU above the ceiling of the request; with ceilings that never go down this cannot happen
  (`DecodeCache.AnswersDirectlyExactly`, `DecodeCache.MonotoneRunAnswersDirectly`;
  `DecodeCache.LowerRequestIsAnswered`).
- A data reference that is refused for want of memory can take the stored ones with it: the list is assigned
  the null result of the failed growth. It is lost exactly when it is full and not empty and the growth for a
  reference to be added fails; every other refusal keeps it (`DataReferences.LostExactly`;
  `DataReferences.SixteenAreLost`).
- Setting an analysis's own policy leaves the analysis empty when the copy of it cannot be copied back
  (`StructuredMirror.SourceAnalysis.ResetOwnPolicy`).

The overflow branch of the projected equate is never taken: a name of 63 characters and eight digits fit
(`LayoutProjection.RootTextFits`).

## Model

| member | source | states |
|---|---|---|
| Words.WidthMaskAsShift | src/m68k_disassembler.c:26-30 | the mask of a field is a run of ones as wide as the field, up to the full word |
| Words.ExtractOverlay | src/m68k_disassembler.c:26-30 | reading a bit field just written gives the value cut to the width of the field |
| Words.OverlayElsewhere | src/m68k_assembler.c:430-449 | writing a bit field leaves every bit outside of it alone |
| Assembler.FormIndexForOperands | src/m68k_assembler.c:348-379 | the first row that fits mnemonic, operands, CPU and size is found, nothing only when no row fits |
| Assembler.SelectionIsUnique | src/m68k_assembler.c:348-379 | at most one row can be the selected one |
| Assembler.BuildPatchValues | src/m68k_assembler.c:624-751 | the field array holds for each patch the value of its source, or the error of the first patch that has none |
| Assembler.EncodeOpword | src/m68k_assembler.c:430-449 | the opword is the base with every opword field laid over it, or the error for a missing mnemonic or short field list |
| Assembler.EmitBoundExtensionWord | src/m68k_assembler.c:472-488 | exactly one word is appended, the bound base with its fields, unless the buffer is full |
| Assembler.EmitIndexExtension | src/m68k_assembler.c:503-528 | brief or full index words are appended whole, and refused exactly when they do not fit |
| Assembler.EmitOneExtension | src/m68k_assembler.c:530-570 | the words of one extension kind are appended behind the earlier ones, with the error of the kind otherwise |
| Assembler.EmitExtensions | src/m68k_assembler.c:601-622 | bound words come first, then each extension in table order; the first error wins |
| Assembler.FormSizeBytes | src/m68k_assembler.c:26-58 | the byte count that the size or opmode field names |
| Assembler.WriteWords | src/m68k_assembler.c:753-781 | opword and extension words are stored big-endian and fill exactly two bytes each |
| Assembler.AssembleInstruction | src/m68k_assembler.c:753-781 | the buffer receives the bytes of the one selected row, or the row's error, and -2 when no row fits |
| RegisterMask.ReverseReglistMask | src/m68k_instruction_spec.c:65-73 | the bit loop computes the mirrored register mask |
| RegisterMask.ReversalIsAnInvolution | src/m68k_instruction_spec.c:65-73 | bit i moves to bit 15-i and reversing twice gives the mask back |
| Disassembler.MatchForm | src/m68k_disassembler.c:121-134 | a form matches exactly when the data are long enough and opword and bound words agree with its fixed bits |
| Disassembler.ExtractPatchValues | src/m68k_disassembler.c:177-194 | every patch value is read from its word and bits |
| Disassembler.ValidatePatchValues | src/m68k_disassembler.c:201-214 | exactly the field lists whose size and opmode values the form knows are accepted |
| Disassembler.FirstPatch | src/m68k_disassembler.c:76-83 | the first patch of a field kind, none only when no patch has the kind |
| Disassembler.InitOperands | src/m68k_disassembler.c:399-466 | each operand starts with the fixed registers and modes of its kind |
| Disassembler.MinimumRemainingExtensionBytes | src/m68k_disassembler.c:216-257 | the estimate is the sum over the later extensions of the least they can take |
| Disassembler.DecodeIndexExtension | src/m68k_disassembler.c:259-302 | brief or full words go to the operand and the offset advances over what was read; nothing else changes |
| Disassembler.DecodeOneExtension | src/m68k_disassembler.c:304-397 | one extension changes its own operand only and advances by what it reads |
| Disassembler.DecodeExtensions | src/m68k_disassembler.c:304-397 | the extensions are read in table order behind the bound words, and the last offset is the byte count |
| Disassembler.ApplyPatches | src/m68k_disassembler.c:486-611 | the operands hold the values of all patches, in table order |
| Disassembler.DecodeOperands | src/m68k_disassembler.c:486-611 | fields and extensions fill the operands, a forbidden addressing mode refuses, a predecrement MOVEM mask is turned back |
| Disassembler.DisassembleAs | src/m68k_disassembler.c:903-945 | decoding against one form: match, fields, size, operands, byte count |
| FieldRoundTrip.FixedBitsSurvive | src/m68k_assembler.c:430-449 | no field value can disturb the fixed bits of a word, so the form matches its own encoding |
| FieldRoundTrip.FieldComesBack | src/m68k_disassembler.c:177-194 | a field is read back as its value cut to its width, whatever the other fields of the word hold |
| FieldRoundTrip.OverlayInverse | src/m68k_assembler.c:472-488 | opword and bound words of any field values match the form and all fields are extracted again, whatever bytes follow |
| IndexRoundTrip.BriefRoundTrip | src/m68k_disassembler.c:259-302 | a brief index operand is recovered between any words and before any bytes, and the offset advances by what was emitted |
| IndexRoundTrip.FullRoundTrip | src/m68k_disassembler.c:259-302 | a full index operand is recovered exactly when the surplus of the tail and the bytes behind it do not look like an outer displacement |
| IndexRoundTrip.IndexedExtensionRoundTrip | src/m68k_assembler.c:503-528 | brief and full operands at once, with the decoder's own choice of allowing the full format |
| PatchRoundTrip.PatchTransfers | src/m68k_assembler.c:624-751 | for every value source, storing the encoder's field of an operand transfers just the parts the source carries |
| PatchRoundTrip.PatchesCarry | src/m68k_disassembler.c:486-611 | each part of a decoded operand comes from the last patch that carries it, or from the blank operand |
| PatchRoundTrip.PatchesRestore | src/m68k_disassembler.c:486-611 | an operand whose every part is carried or blank is restored from the fields alone |
| ExtensionRoundTrip.EstimateIsLeast | src/m68k_disassembler.c:216-257 | on a partly decoded operand the decoder's minimum is the least length of the extension still to come |
| ExtensionRoundTrip.TailLength | src/m68k_disassembler.c:346-349 | the emitted tail is the decoder's estimate plus a surplus, so the subtraction of the estimate never wraps on encoded bytes |
| ExtensionRoundTrip.ExtensionStep | src/m68k_disassembler.c:304-397 | one extension is read back with its length exactly when it is recognised |
| ExtensionRoundTrip.UnrecognisedIsMisread | src/m68k_disassembler.c:289-298 | an unrecognised full extension is read as a different index |
| ExtensionRoundTrip.TailComesBack | src/m68k_assembler.c:601-622 | the whole tail of recognised extensions restores all operands and stops at its end, whatever bytes follow |
| ExtensionRoundTrip.TailRoundTrip | src/m68k_disassembler.c:304-397 | the same with its converse: otherwise decoding fails or returns another index |
| SizeRoundTrip.EncodedFieldsAreValid | src/m68k_disassembler.c:201-214 | fields the encoder makes pass the decoder's validation |
| SizeRoundTrip.SuffixComesBack | src/m68k_disassembler.c:85-119 | the decoder tells the size the encoder was given, by field, signal byte or single-size mask |
| SizeRoundTrip.ImmediateWidthsAgree | src/m68k_assembler.c:490-501 | the encoder emits a long immediate when the decoder reads one, exactly under a condition on the form |
| InstructionRoundTrip.FormRoundTrip | src/m68k_assembler.c:601-781 | the bytes of a normalised instruction, with any bytes behind them, match the form and decode to the same operands, suffix and length; when an index is not recognised they do not |
| InstructionRoundTrip.ModeShows | src/m68k_disassembler.c:486-611 | the opword of an encoded MOVEM shows the predecrement mode exactly when its destination has it |
| InstructionRoundTrip.MaskTurnsBack | src/m68k_disassembler.c:486-611 | the decoder turns the register mask of the encoded bytes exactly for MOVEM to a predecrement operand |
| InstructionRoundTrip.EncoderAccepts | src/m68k_assembler.c:753-781 | every normalised instruction whose words fit is encoded, so the round trip is never about nothing |
| IrCodec.EncodeOne | src/m68k_ir_codec.c:631-710 | the buffer receives the encoding of the instruction by its named form, with the mask turned for predecrement; otherwise the count is 0 |
| IrCodec.DirectOperandsFit | src/m68k_instruction_spec.c:154-173 | operands as decoded fit their form exactly when it has no IND, POSTINC, PREDEC or ABSL operand |
| IrCodec.ViewIsUndone | src/m68k_decode_ir.c:399-430 | turning a candidate's operand into an instruction operand undoes what the encoder's view of it changed |
| IrCodec.BytesIgnoreMode | src/m68k_instruction_spec.c:175-203 | the mode that the conversion sets for plain register kinds has no influence on the bytes |
| IrCodec.EncodableIsEncoded | src/m68k_ir_codec.c:631-710 | an instruction that its form can express is encoded whenever its suffix has a value and its words fit |
| IrCodec.EncodeDecodeRoundTrip | src/m68k_ir_codec.c:631-710 | encoding an instruction and decoding it against its form, with any bytes behind it, rebuilds it exactly when its indexes are recognised |
| FormSearch.DisassembleOne | src/m68k_disassembler.c:903-945 | the loop over the candidates of the opword's bucket returns the first one that reads the data |
| FormSearch.FoundIsFirst | src/m68k_disassembler.c:903-945 | what is found reads the data, nothing tried before it does, and nothing is found only when no candidate reads them |
| FormSearch.BucketIsEnough | src/m68k_disassembler.c:917-920 | with complete buckets, one bucket finds a form exactly when some row of the whole table reads the data |
| FormSearch.FoundExactly | src/m68k_disassembler.c:903-945 | a row is the one found exactly when it reads the data and no candidate before it does |
| FormSearch.FixedApartExcludes | src/m68k_disassembler.c:121-134 | no data match two rows that fix a common bit differently |
| FormSearch.UnrivalledIsFirst | src/m68k_disassembler.c:903-945 | when every row listed before one in its buckets lacks the CPU or fixes a bit differently, nothing tried before it reads its data |
| FormSearch.UnrivalledRoundTrip | src/m68k_disassembler.c:903-945 | encoding an instruction of such a row and searching the table for its bytes finds it again exactly when its indexes are recognised |
| FormSearch.SearchRoundTrip | src/m68k_disassembler.c:903-945 | encoding an instruction and searching the table for its bytes, with any bytes behind them, finds it again exactly when its indexes are recognised and no row tried earlier reads them |
| BranchRoundTrip.BranchExactly | src/m68k_assembler.c:560-563 | for every branch form, suffix, displacement and bytes behind it: it comes back exactly under a condition on suffix and low byte |
| BranchRoundTrip.BranchDecodes | src/m68k_disassembler.c:363-373 | what the decoder makes of the bytes of any branch and those behind it, surviving or not |
| BranchRoundTrip.ByteBranchLooksLong | src/m68k_disassembler.c:363-373 | the bytes 60 FF of a byte branch by -1 decode to a long branch over the next word, and fail without one |
| BranchRoundTrip.ByteBranchLooksWord | src/m68k_assembler.c:560-563 | a byte branch by 0 is encoded in four bytes and decodes to a word branch |
| BranchRoundTrip.LongBranchIsLost | src/m68k_assembler.c:560-563 | a long branch by 0x12345 is encoded in two bytes and decodes with the next word for its displacement |
| IndexWitness.MoveComesBackExactly | src/m68k_disassembler.c:289-298 | a MOVE with two full indexes loses one of them with 0, 2 or 4 bytes behind it and comes back with any other number |
| MovemWitness.MovemTurnsTheList | src/m68k_disassembler.c:486-611 | an encoded MOVEM of D0 to predecrement shows the mode in its opword and decodes with the list turned back |
| Spans.StorageSpan | src/m68k_decode_ir.c:104-142 | the scan of the decode side for the operand's first bytes |
| Spans.OperandExtensionSpan | src/m68k_assembler.c:572-599 | the span measured by emitting into a scratch buffer, refused when an operand has two |
| SpanTiling.CountsAgreeExactly | src/m68k_decode_ir.c:78-102 | the counted words are those emitted, exactly under a condition by extension kind |
| SpanTiling.LabelCountSettled | src/m68k_decode_ir.c:78-102 | for the conditional displacement word the condition is a word branch, or a byte branch with a nonzero low byte |
| SpanTiling.SpansAgree | src/m68k_decode_ir.c:104-142 | the two independently computed spans of an operand are the same, but for the label of a byte branch, which gets its opword byte on one side, and for spans beyond the address space |
| SpanTiling.SpansCover | src/m68k_assembler.c:572-599 | a byte is in some operand's span exactly when it lies behind the opword and bound words and inside the instruction |
| SpanTiling.SpansAreDisjoint | src/m68k_assembler.c:572-599 | no byte is in the spans of two operands |
| SymbolTargets.RelativeBase | src/m68k_assembler.c:414-428 | the base of the operand lies behind opword, bound words and the words of the earlier operands |
| SymbolTargets.ApplySymbolRefs | src/m68k_ir_symbol_resolve.c:8-62 | all operands are resolved left to right, whatever is read in place of the operands before a later one, or the call fails on the first reference without a target |
| SymbolTargets.ResolvedDisplacement | src/m68k_ir_symbol_resolve.c:45-51 | a reference ends up as target minus its own place, the place taken from the resolved operands before it, or as the target itself in a bit-field operand |
| SymbolTargets.FieldKeepsTarget | src/m68k_decode_ir.c:258-262 | a displacement cut to a word or byte still leads to its target exactly when it fits the field |
| SymbolTargets.CountsAgreeUnlessAbsolute | src/m68k_decode_ir.c:11-40 | the decode side's normalised operand counts the words of the encoder's operand, except for ABSL kinds |
| SymbolTargets.BasesAgree | src/m68k_decode_ir.c:288-294 | for every operand the collector's base is at most the resolver's, and equal exactly when no ABSL operand comes first |
| SymbolRoundTrip.ResolvedHolds | src/m68k_ir_symbol_resolve.c:8-62 | resolving an instruction leaves in a label or PC-relative operand the displacement of its target from its place, and in a bit-field operand the target |
| SymbolRoundTrip.CollectedTarget | src/m68k_decode_ir.c:236-301 | what the collector makes of a label, EA or bit-field operand of a decoded instruction, and when it keeps it |
| SymbolRoundTrip.ReferenceComesBack | src/m68k_decode_ir.c:236-301 | a reference resolved, encoded and decoded among any bytes is collected with its target exactly when it is a label, or in reach and in no bit-field operand |
| DisplacementFit.CutEncodesAlike | src/m68k_assembler.c:530-570 | an instruction is encoded in the bytes of the one whose displacement is cut to its field |
| DisplacementFit.DisplacementExactly | src/m68k_decode_ir.c:236-301 | for every target, near or far: the reference comes back exactly when its displacement fits the field and it is a label or in reach |
| SymbolWitness.BitFieldLeadsElsewhere | src/m68k_ir_symbol_resolve.c:42-52 | a BFTST of a symbol at 0x100, resolved and encoded at offset 0, is collected with the target 0x104 |
| SymbolWitness.BftstIsFound | src/m68k_disassembler.c:903-945 | the same instruction, encoded and searched, is found again whatever lies behind it |
| DecodeStore.DisassembleForCpuCeiling | src/m68k_decode_ir.c:342-352 | the lowest CPU up to the ceiling that decodes the bytes |
| DecodeStore.CeilingsAgree | src/m68k_decode_ir.c:342-352 | one success answers for every ceiling: the same at or above its CPU, failure below |
| DecodeStore.FailureIsDownwardClosed | src/m68k_decode_ir.c:315-324 | failing at a ceiling means failing at every lower one, which is what an absence mark relies on |
| DecodeStore.InsertedIsSorted | src/m68k_decode_ir.c:174-202 | inserting at the rank keeps the offsets strictly increasing |
| DecodeCache.EnsuredIsFaithful | src/m68k_decode_ir.c:497-522 | one request keeps the cache true: stored candidates and absence marks agree with decoding directly |
| DecodeCache.AnswersDirectlyExactly | src/m68k_decode_ir.c:497-522 | a request gets the direct decode exactly when its offset is not stored for a CPU above the ceiling |
| DecodeCache.RunIsFaithful | src/m68k_decode_ir.c:497-522 | the cache stays true over any run of requests with any ceilings |
| DecodeCache.MonotoneRunAnswersDirectly | src/m68k_decode_ir.c:497-522 | with ceilings that never go down, every answer of the run is the direct decode |
| DecodeCache.LowerRequestIsAnswered | src/m68k_decode_ir.c:497-522 | asked for CPU 5 and then for CPU 0, the cache answers the second request with a candidate for CPU 2 that direct decoding does not have |
| DecodeSection.Section.CandidateIndexAt | src/m68k_decode_ir.c:152-172 | bisection finds an offset that is stored, or the place where it belongs |
| DecodeSection.Section.FindCandidateAtOffset | src/m68k_decode_ir.c:303-309 | the stored candidate of an offset, none exactly when there is none |
| DecodeSection.Section.InsertCandidateSorted | src/m68k_decode_ir.c:174-202 | the grown and shifted array holds the old candidates and the new one in order, or the old ones when the offset was there |
| DecodeSection.Section.AbsentForCpu | src/m68k_decode_ir.c:315-324 | known absent exactly when the mark lies above the ceiling |
| DecodeSection.Section.RememberAbsent | src/m68k_decode_ir.c:326-340 | the mark of the offset is raised and no other one changes |
| DecodeSection.Section.EnsureCandidateAt | src/m68k_decode_ir.c:497-522 | the in-place operation is the cache step about which the run lemmas speak |
| DecodeObject.DirectCandidatesAre | src/m68k_decode_ir.c:524-541 | the successes at the first n even offsets, sorted, each the direct decode, none left out |
| DecodeObject.BuiltExactly | src/m68k_decode_ir.c:524-541 | a built section holds an offset exactly when direct decoding succeeds there |
| DecodeObject.DecodeIR.EnsureCandidateAt | src/m68k_decode_ir.c:497-522 | one section takes the cache step, the counter follows, a missing section is refused |
| DecodeObject.DecodeIR.BuildSection | src/m68k_decode_ir.c:524-541 | the loop over even offsets leaves a true cache with exactly the direct candidates |
| DecodeObject.DecodeIR.BuildObjectSections | src/m68k_decode_ir.c:455-495 | one new and empty section per section of the image, sharing no storage |
| DecodeObject.DecodeIR.BuildObject | src/m68k_decode_ir.c:524-541 | every section is built and the counter is the total over the sections, modulo its width |
| JsonText.PlainSpan | src/json_builder.c:145-174 | copying a span of plain bytes at once is escaping them one by one |
| JsonText.EscapedIsParsed | src/json_builder.c:145-174 | the escape of one byte is read back as that byte wherever it stands |
| JsonText.StringRoundTrip | src/json_builder.c:145-174 | a parser of RFC 8259 section 7 applied to the escaped string returns every byte string and stops at its end |
| JsonBuilder.Builder.AppendChunk | src/json_builder.c:37-55 | an empty chunk of at least the asked size becomes the tail, the text stays |
| JsonBuilder.Builder.AppendBytes | src/json_builder.c:57-80 | the text grows by the bytes, and every chunk but the tail is full |
| JsonBuilder.Builder.AppendBuilder | src/json_builder.c:123-130 | the text of a different builder is appended and that builder is unchanged |
| JsonBuilder.Builder.AppendJsonString | src/json_builder.c:145-174 | the batching escaper appends the byte-by-byte escaping of its input between quotes |
| JsonBuilder.Builder.Build | src/json_builder.c:180-198 | the built buffer is the concatenation in order, terminated, its length the size field |
| CustomStructs.CustomStructParent | src/m68k_ir.c:1657-1663 | the first structure with the base's name |
| CustomStructs.CustomStructFieldAt | src/m68k_ir.c:1665-1682 | the loop up the chain is the level-by-level lookup |
| CustomStructs.CustomStructsValid | src/m68k_ir.c:1753-1784 | the nested loops decide the validity of all structures and chains |
| CustomStructs.ChainsAreFiniteAndAcyclic | src/m68k_ir.c:1753-1784 | in an accepted policy no chain is longer than the number of structures and none returns to its start |
| CustomStructs.OneLevelMatches | src/m68k_ir.c:1753-1784 | in an accepted policy at most one level of a chain has a field at an offset and width |
| CustomStructs.LookupExactly | src/m68k_ir.c:1665-1682 | a field is found exactly when some level of the chain has a match, and it is that level's |
| StructLayout.InsertField | src/m68k_ir.c:1684-1706 | one insertion step of the in-place sort by offset |
| StructLayout.LayoutFields | src/m68k_ir.c:1684-1706 | the selected field indices, or a refusal when the fields exceed limit or capacity |
| StructLayout.SortedFieldsAre | src/m68k_ir.c:1684-1706 | sorting is a permutation in order of offset |
| StructLayout.LayoutIsOrderly | src/m68k_ir.c:1684-1706 | emitted fields are distinct, ordered, named, sized, inside the structure and pairwise disjoint |
| StructLayout.LeftOutOverlaps | src/m68k_ir.c:1684-1706 | a usable field that is left out overlaps an emitted one that starts no later |
| StructLayout.FindLayoutConstant | src/m68k_ir.c:1733-1751 | 1 exactly when a single structure and field generate the name, with their value; -1 exactly when several do |
| PolicyStore.Store.Reserve | src/m68k_ir.c:1828-1857 | reserving keeps the contents and gives the capacity, refuses beyond the limit, and leaves all stores apart from it alone |
| PolicyStore.Doubled | src/m68k_ir.c:1868-1896 | the doubling loop ends at a capacity between the required and the limit |
| PolicyStore.DoublingIsBounded | src/m68k_ir.c:1868-1896 | doubling never takes twice what is required |
| PolicyStore.Store.Destroy | src/m68k_ir.c:1614-1655 | the store is empty and inline again, and all stores apart from it keep their contents |
| PolicyCopy.Policy.CheckValid | src/m68k_ir.c:1786-1866 | the validity checks of the collections decide validity |
| PolicyCopy.Policy.MakeCopies | src/m68k_ir.c:2026-2185 | fresh copies of all heap collections, or a failure that an allocation caused |
| PolicyCopy.Policy.CopyFrom | src/m68k_ir.c:2026-2185 | a successful copy is valid, equal in all collections up to refreshed text lengths, apart from its source and in new memory; a failed one changes nothing, and the source is kept either way |
| PolicyCopy.Policy.Reserve | src/m68k_ir.c:1828-1896 | reserving in one collection keeps the whole policy valid with all it holds, leaves the collection's status on excess, and a policy in other memory is kept |
| PolicyCopy.Policy.Destroy | src/m68k_ir.c:1614-1655 | all collections are empty and inline, the custom structures and the status are cleared, and a policy in other memory is kept with all it holds |
| PolicyCopy.Policy.WorkOnCopy | src/platform_file_lib.c:12386-12437 | copying a policy, reserving in the copy any number of times and destroying the copy leave the policy as it was |
| StructuredMirror.RunStaysMirrored | src/m68k_ir.c:1483-1530 | over any run of appends, policies and finalizations the mirror is the bounded prefix of the list, and a longer list has left a status |
| StructuredMirror.AllAppended | src/m68k_ir.c:1483-1530 | setting a fitting policy makes list and mirror its refreshed items |
| StructuredMirror.SourceAnalysis.AppendStructuredDataItem | src/m68k_ir.c:1291-1321 | list, mirror and status after an append, unchanged when memory fails |
| StructuredMirror.SourceAnalysis.SetForeignPolicy | src/m68k_ir.c:1483-1530 | list and mirror restart from the items of the policy, as far as memory lasts |
| StructuredMirror.SourceAnalysis.ResetOwnPolicy | src/m68k_ir.c:1483-1530 | setting the analysis's own policy works on a copy taken before it is destroyed, and leaves an empty analysis when that cannot be copied back |
| StructuredMirror.SourceAnalysis.FinalizeTableConflicts | src/m68k_ir.c:5421-5452 | every table of the list gets its conflict state and the mirror is refreshed from the list |
| DataReferences.SectionAnalysis.AppendDataReference | src/m68k_ir.c:3022-3104 | refused, known, merged into the first equal entry, appended or out of memory; the code and the new list in its array |
| DataReferences.SectionAnalysis.Grow | src/m68k_ir.c:34-44 | room for one more reference with all stored ones kept, or no list |
| DataReferences.AppendedExactly | src/m68k_ir.c:3022-3104 | a proper manual reference is appended exactly when no stored one has its owner or overlaps its word |
| DataReferences.LostExactly | src/m68k_ir.c:3086-3089 | the list is lost exactly when it is full and not empty and a reference to be added finds no memory; every other -1 keeps it |
| DataReferences.SixteenAreLost | src/m68k_ir.c:3086-3089 | sixteen appended references are lost when the growth for a seventeenth fails |
| DataReferences.GrowingRunAppendsAll | src/m68k_ir.c:3022-3104 | with memory for every growth no run loses the list, and it holds what the appends make of it |
| DataReferences.RunKeepsManuals | src/m68k_ir.c:3022-3104 | after any appends, whatever memory there was, the stored manual words are disjoint and each leads from its base to its target |
| DataReferences.ManualAppendOnlyAdds | src/m68k_ir.c:3022-3104 | a manual append that leaves a list never changes a stored reference, and a refused one changes nothing |
| PointerLoop.PointerLoopDomain | src/m68k_ir.c:2930-2964 | the envelope that all matching evidence proves, none exactly when there is no such envelope |
| PointerLoop.EndsDecide | src/m68k_ir.c:2930-2964 | checking the first and last iteration decides that every cursor is aligned and inside and that both bounds are attained |
| PointerLoop.DomainIsUnique | src/m68k_ir.c:2930-2964 | there is at most one envelope to return |
| PointerRanges.ResolvePointerAddress | src/m68k_ir.c:1566-1593 | the place named by all ranges of the strongest provenance, ambiguous exactly when two of them differ, whatever the order |
| PointerRanges.ResolutionIsUnique | src/m68k_ir.c:1566-1593 | the answer is determined but for which ambiguous place is named |
| LayoutProjection.RootTextReadsBack | src/m68k_layout_projection.c:119 | name and address can be read off a rewritten equate |
| LayoutProjection.RootTextFits | src/m68k_layout_projection.c:119-120 | a rewritten equate always fits its buffer |
| LayoutProjection.OneDeclarationAndRowEach | src/m68k_layout_projection.c:96-128 | a ready projection has exactly one declaration and one row for each region and moves no mapped one |
| LayoutProjection.RowIsWhereItSays | src/m68k_layout_projection.c:123-124 | each row's text is found in the whole text at its recorded interval, and the intervals are contiguous |
| LayoutProjection.NothingMovedNothingChanged | src/m68k_layout_projection.c:106-130 | a projection that moves no root gives the rows of a placed plan back unchanged |
| LayoutProjection.Admission | src/m68k_layout_projection.c:61-90 | the checks on frames, widths, profile, mapped storage and views, and which answer each gives |
| LayoutProjection.RewriteRow | src/m68k_layout_projection.c:110-122 | a region's second row, an unknown region or another kind of row is refused; only a moved root gets a new text |
| LayoutProjection.Projection.RewriteDeclarations | src/m68k_layout_projection.c:96-105 | the owned declarations with the addresses of the roots, refused exactly when one is invalid |
| LayoutProjection.Projection.RewriteRows | src/m68k_layout_projection.c:106-125 | the owned rows in their new places with the totals of bytes and lines, refused exactly when a row is invalid |
| LayoutProjection.Projection.Build | src/m68k_layout_projection.c:49-131 | the answer for every request; when ready, only moved root equates and root declarations differ from the base, which is unchanged |

## Left out

- The generated tables of forms, patches, buckets and control registers are parameters, and so is the
  disassembler of the decode cache.
- Control registers, cache selectors, FPU and coprocessor identifiers are table lookups. Whether such a lookup
  or the rendering rejects what was read is a parameter of FormSearch.
- Rendering of instructions to text, names of enumerations, diagnostics, varargs formatting and plumbing.
- The bodies of the memory layout resolver and of the reference lookup: their results are parameters of the
  projection. The reason texts of refusals are not modelled, only the three kinds of answer.
- The per-kind append functions that only remove duplicates, and the section copy.
- Allocation failures, except in policy copy, reserve, the mirror, data references and the projection.
- The instruction round trip speaks of normalised operands: register, effective address, immediate, register
  list and label kinds whose numbers are in range and sign extended, as the decoder returns them.
- Disassembler.DecodeIndexExtension: the C subtraction of the estimate can wrap on truncated data; here the
  size is the wrapped-free difference and such data fail to decode. On encoded bytes it never wraps
  (ExtensionRoundTrip.TailLength).
- SymbolTargets.ApplySymbolRefs: the C code hands over its operand array with the stride of another
  structure. What it reads for the operands from the second on is a parameter, and lemmas about what is left
  in a PC-relative operand speak of the first two operands, before which nothing is read wrongly.
- SymbolRoundTrip.ReferenceComesBack: which operand is a branch target is simulator metadata and left out.
- DecodeSection.Section.EnsureCandidateAt: offsets above 2^32 - 3, where the C end computation wraps, are
  excluded, and so are sections of such a size in DecodeObject.DecodeIR.BuildObject.
- JsonBuilder.Builder.AppendBuilder: appending a builder to itself is excluded.
- JsonText.StringRoundTrip: bytes from 0x80 on pass through unchanged, whether or not they are UTF-8.
- PolicyStore.Store.Destroy: a freed buffer is modelled as one with arbitrary contents.
- DataReferences.SectionAnalysis.AppendDataReference: a call after the list has been lost is left out, because
  the C code then reads the list through a null pointer.
- PolicyCopy.Policy.CopyFrom: an item is its bounded texts and the rest of its numbers.
- StructuredMirror.SourceAnalysis.FinalizeTableConflicts: whether an item overlaps accepted code is a
  parameter; the ranges materialized for a table, which are updated alongside, are left out.
- LayoutProjection.Projection.Build: the byte position is unbounded; the C one is as wide as an object size.
