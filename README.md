# yagl record codecs in Dafny

This project models two record types of yagl, a translator between binary
NewGRF files and a text form:

- **The indirect-parameter record (Action 0x0D).** Its payload is four
  fixed bytes (`target`, `operation`, `source1`, `source2`). A 4-byte
  `data` word follows when `source1 == 0xFF` or `source2 >= 0xFE`. The
  operation byte packs a "not if defined" flag in bit 7 and one of 13
  operators in the low seven bits. A sub-kind (Param, Patch, Resources,
  OtherGRF) is derived from `source2` and `data`. Printing renders
  operand references, an operator token and a signed/unsigned suffix.
- **The sprite-index record.** It holds a 4-byte sprite id. Its children
  (real-sprite images by zoom level, or a sound effect) live in a map
  from sprite id to child list, outside the record. `print` looks the
  children up there; `parse` reads them from a token stream, choosing
  each child's type by one token of lookahead.

Module layout:

- `ByteCodec` is the fixed-width byte reader and writer: little-endian,
  and running out of bytes is a failure.
- `Tokens` is the token stream the text parsers consume.
- `Text` holds `pad` and the `0x`-prefixed hexadecimal rendering.
- `Action0D` holds the wire format, the sub-kind and the mutable record
  class.
- `Action0DText` holds the enum tables and the printers.
- `StatementReader` reads back the text `print` produces: the frame
  naming the kind, and the Param, Patch, OtherGRF and Resources
  statements.
- `SpriteIndex` holds the sprite-index record.

The mutable records are classes. Their byte-level `Read` and `Write`
methods are proved against pure functions (`Decode` and `Encode`, `DecodeId`
and `EncodeId`). `SpriteIndexRecord.Print` is proved against `PrintIndex`,
and `SpriteIndexRecord.Parse` against `ParseIndex`. The lemmas state
properties of those functions. `Action0DRecord::print` changes nothing, so
it is the function `Action0DText.Print`. `Action0DRecord.Parse` states its
outcome directly, because parsing this record stops with "not implemented".

Facts about the code that the model keeps:

- The operator table has four signed/unsigned pairs, eight operators in
  all (records/actions/Action0DRecord.cpp:123-134).
- `print_other` prints the other GRF's parameter as `<"label">ref`, with no
  braces around `ref` (records/actions/Action0DRecord.cpp:294-301).
- `SpriteIndexRecord::parse` keeps the parsed children in a local list and
  drops it. Nothing is registered in the shared sprite map
  (records/graphics/SpriteIndexRecord.cpp:74-101).

## Model

| member | source | states |
|---|---|---|
| Action0D.OperatorCode | records/actions/Action0DRecord.cpp:118-136 | every operator has a raw value below 0x0D |
| Action0D.OperatorOf | records/actions/Action0DRecord.cpp:118-136 | a raw value names an operator exactly when it is below 0x0D, and then that operator's value is the raw value |
| Action0D.OperatorCodeRoundTrip | records/actions/Action0DRecord.cpp:118-136 | each operator's raw value names the same operator again |
| Action0D.GrmOperatorCode | records/actions/Action0DRecord.cpp:137-149 | every GRM operator has a raw value of at most 6 |
| Action0D.GrmOperatorOf | records/actions/Action0DRecord.cpp:137-149 | a byte names a GRM operator exactly when it is at most 6, and then that operator's raw value is the byte |
| Action0D.GrmOperatorCodeRoundTrip | records/actions/Action0DRecord.cpp:137-149 | each GRM operator's raw value names the same GRM operator again |
| Action0D.HasData | records/actions/Action0DRecord.cpp:62-65 | has_data: the data word is on the wire exactly when source1 is 0xFF or source2 is at least 0xFE; Decode, Encode and SpecialKindHasData state what depends on it |
| Action0D.KindOf | records/actions/Action0DRecord.cpp:68-88 | Patch iff source2 is 0xFE and data is 0xFFFF; Resources iff source2 is 0xFE, data is not 0xFFFF and its low byte is 0xFF; OtherGRF iff source2 is 0xFE and the low byte is not 0xFF; Param iff source2 is not 0xFE |
| Action0D.KindDependsOnlyOnSource2AndData | records/actions/Action0DRecord.cpp:68-88 | records agreeing on source2 and data have the same kind, whatever their target, operation, source1 and flag |
| Action0D.SpecialKindHasData | records/actions/Action0DRecord.cpp:62-88 | every kind other than Param has its data word on the wire |
| Action0D.SplitOperationByte | records/actions/Action0DRecord.cpp:30-33 | the flag is set iff bit 7 of the byte is set, and the operation part is below 0x80 |
| Action0D.OperationByte | records/actions/Action0DRecord.cpp:51 | for a 7-bit operation, bit 7 of the emitted byte is the flag and the low seven bits are the operation |
| Action0D.OperationByteOfSplit | records/actions/Action0DRecord.cpp:51 | recombining the split parts gives back the original operation byte |
| Action0D.SplitOfOperationByte | records/actions/Action0DRecord.cpp:51 | splitting the byte write emits gives back the flag and an operation below 0x80 |
| Action0D.Decode | records/actions/Action0DRecord.cpp:26-43 | read fails iff fewer than 4 bytes remain, or fewer than 8 when source1 is 0xFF or source2 is at least 0xFE; on success it consumes 8 bytes when has_data holds and 4 otherwise, and data is 0 when absent |
| Action0D.Encode | records/actions/Action0DRecord.cpp:46-59 | write emits 8 payload bytes when has_data holds and 4 otherwise |
| Action0D.DecodeEncode | records/actions/Action0DRecord.cpp:46-59 | reading what write emitted gives back the same record and consumes exactly those bytes, for every record with a 7-bit operation and zero data when has_data fails, whatever follows |
| Action0D.DecodeFields | records/actions/Action0DRecord.cpp:26-43 | a record whose fields come from the leading bytes in read's order (flag and operation split from byte 1, data from bytes 4-7 only when has_data holds) is the decoded record |
| Action0D.EncodeDecode | records/actions/Action0DRecord.cpp:46-59 | writing a record that was read reproduces exactly the payload bytes read consumed |
| Action0D.KindSurvivesRoundTrip | records/actions/Action0DRecord.cpp:68-88 | the kind derived after reading a written record is the kind of the original |
| Action0D.Action0DRecord.Read | records/actions/Action0DRecord.cpp:26-43 | succeeds iff Decode of the unread bytes succeeds; then the fields are the decoded record and the cursor advances by the bytes consumed |
| Action0D.Action0DRecord.Write | records/actions/Action0DRecord.cpp:46-59 | appends exactly Encode of the record's fields to the output |
| Action0D.Action0DRecord.Parse | records/actions/Action0DRecord.cpp:346-349 | fails with "not implemented" once the record name matches, and with the mismatch error otherwise |
| Action0DText.KindNameInjective | records/actions/Action0DRecord.cpp:108-117 | distinct kinds print distinct names |
| Action0DText.OperatorNameInjective | records/actions/Action0DRecord.cpp:118-136 | distinct operators have distinct names in the operator table |
| Action0DText.GrmOperatorNameInjective | records/actions/Action0DRecord.cpp:137-149 | distinct GRM operators have distinct names |
| Action0DText.KindName | records/actions/Action0DRecord.cpp:108-117 | the type table's names; KindNameInjective and StatementReader.KindNameReadsBack show they identify the kind |
| Action0DText.OperatorName | records/actions/Action0DRecord.cpp:118-136 | the operator table's names; OperatorNameInjective shows they identify the operator |
| Action0DText.GrmOperatorName | records/actions/Action0DRecord.cpp:137-149 | the GRM table's names; GrmOperatorNameInjective and StatementReader.GrmOperatorNameReadsBack show they identify the GRM operator |
| Action0DText.ShortOp | records/actions/Action0DRecord.cpp:155-177 | the token is `?` exactly for a code outside the operator table; OperatorFromToken inverts it |
| Action0DText.SignSuffix | records/actions/Action0DRecord.cpp:239-250 | a suffix is printed exactly for the operators that have a signed and an unsigned form; StatementReader.ReadSuffixOf reads it back |
| Action0DText.ParamDescription | records/actions/Action0DRecord.cpp:203-219 | param_description; StatementReader.ReadOperandOf shows it reads back as the operand the byte denotes |
| Action0DText.PrintParam | records/actions/Action0DRecord.cpp:222-255 | print_param; StatementReader.ReadPrintParam shows it reads back as the record's operands, operator and flag |
| Action0DText.PrintPatch | records/actions/Action0DRecord.cpp:310-318 | print_patch; StatementReader.ReadPrintPatch shows it reads back as the target and patch variable |
| Action0DText.PrintOther | records/actions/Action0DRecord.cpp:294-301 | print_other; StatementReader.ReadPrintOther shows it reads back as the target, GRF label and parameter |
| Action0DText.Header | records/actions/Action0DRecord.cpp:186-189 | the record name, the kind in angle brackets and the opening brace; StatementReader.ReadPrintedFrame reads the kind back from it |
| Action0DText.OperatorFromToken | records/actions/Action0DRecord.cpp:155-177 | an operator recovered from an infix token and a suffix is never Assignment, and short_op maps it back to that token with that signedness |
| Action0DText.OperatorTokenRoundTrip | records/actions/Action0DRecord.cpp:155-177 | every operator except Assignment is recovered from its short_op token and its signedness |
| Action0DText.SignedPairsShareToken | records/actions/Action0DRecord.cpp:155-177 | each unsigned/signed pair shares one token: `*`, `<<`, `/`, `%` |
| Action0DText.PrintResources | records/actions/Action0DRecord.cpp:327-337 | the Resources statement fails iff source1 is not a GRM operator value (above 6); what it prints on success is stated by StatementReader.ReadPrintResources |
| Action0DText.Body | records/actions/Action0DRecord.cpp:191-197 | each derived kind gets its own statement: Param the print_param text, Patch the print_patch text, OtherGRF the print_other text with the record's GRF label, Resources the print_resources text with the feature name and number; it fails exactly for a Resources record whose source1 is above 6 |
| Action0DText.Print | records/actions/Action0DRecord.cpp:182-200 | same failure condition; on success the text is the header naming the derived kind, then the kind's statement at indent + 4, then the closing brace at the record's indent |
| StatementReader.ReadLiteralOperand | records/actions/Action0DRecord.cpp:206-208 | the rendering of the data word holds no delimiter and reads back as that literal |
| StatementReader.ReadGlobalVarOperand | records/actions/Action0DRecord.cpp:210-212 | a byte with bit 7 set (not 0xFF) renders as a global_var reference that reads back as that global variable |
| StatementReader.ReadParameterOperand | records/actions/Action0DRecord.cpp:214-216 | a byte below 0x80 renders as a parameter reference that reads back as that parameter |
| StatementReader.ReadOperandOf | records/actions/Action0DRecord.cpp:203-219 | every operand byte's description holds no delimiter and reads back as the operand it denotes |
| StatementReader.OperandOfInjective | records/actions/Action0DRecord.cpp:203-219 | equal operands come from equal bytes, and from equal data words when the byte is 0xFF |
| StatementReader.ReadSuffixOf | records/actions/Action0DRecord.cpp:239-250 | the suffix after the second operand reads back as the operator's signedness |
| StatementReader.ReadOperationOf | records/actions/Action0DRecord.cpp:236-251 | what follows the first source reads back as Assignment with no second operand when the operation is 0, and otherwise as the operator and the second operand |
| StatementReader.ReadBoolOf | records/actions/Action0DRecord.cpp:254 | the not_if_defined statement reads back as the flag |
| StatementReader.ReadPrintParam | records/actions/Action0DRecord.cpp:222-255 | reading the Param statement gives back the target, both sources, the operator with its signedness, and the flag |
| StatementReader.PrintParamInjective | records/actions/Action0DRecord.cpp:222-255 | two records that print the same Param statement have the same operation, flag, target and source1, and the same source2 unless the operation is Assignment |
| StatementReader.ReadPrintPatch | records/actions/Action0DRecord.cpp:310-318 | reading the Patch statement gives back the target and the patch variable number source1 |
| StatementReader.PrintPatchInjective | records/actions/Action0DRecord.cpp:310-318 | equal Patch statements mean equal target and source1 |
| StatementReader.ReadPrintOther | records/actions/Action0DRecord.cpp:294-301 | reading the OtherGRF statement gives back the target, the GRF label and the other GRF's parameter |
| StatementReader.PrintOtherInjective | records/actions/Action0DRecord.cpp:294-301 | equal OtherGRF statements mean equal GRF label, target and source1 |
| StatementReader.GrmOperatorFromName | records/actions/Action0DRecord.cpp:137-149 | a name read as a GRM operator is that operator's name in the GRM table |
| StatementReader.GrmOperatorNameReadsBack | records/actions/Action0DRecord.cpp:137-149 | every GRM name reads back as its operator |
| StatementReader.ReadPrintResources | records/actions/Action0DRecord.cpp:327-337 | reading the Resources statement gives back the target, the GRM operator source1 names, the feature name and the number |
| StatementReader.PrintResourcesInjective | records/actions/Action0DRecord.cpp:327-337 | equal Resources statements mean equal target, source1, feature name and number |
| StatementReader.KindFromName | records/actions/Action0DRecord.cpp:108-117 | a name read as a kind is that kind's name in the type table |
| StatementReader.KindNameReadsBack | records/actions/Action0DRecord.cpp:108-117 | every kind name reads back as its kind |
| StatementReader.ReadPrintedFrame | records/actions/Action0DRecord.cpp:182-200 | reading a printed record's frame gives back its derived kind and, between the braces, exactly the per-kind statement at indent + 4 |
| StatementReader.ReadPrintedRecord | records/actions/Action0DRecord.cpp:182-200 | a printed record reads back as its kind, and its statement reads back as that kind's fields: the Param, Patch, OtherGRF or Resources reading above |
| SpriteIndex.DecodeId | records/graphics/SpriteIndexRecord.cpp:27-30 | reading the sprite id fails iff fewer than four bytes remain |
| SpriteIndex.EncodeId | records/graphics/SpriteIndexRecord.cpp:33-36 | write emits exactly four bytes; DecodeEncodeId and EncodeDecodeId pin down their order |
| SpriteIndex.DecodeEncodeId | records/graphics/SpriteIndexRecord.cpp:27-36 | reading what write emitted gives back the same sprite id, whatever follows |
| SpriteIndex.EncodeDecodeId | records/graphics/SpriteIndexRecord.cpp:27-36 | writing a read sprite id reproduces the four bytes read |
| SpriteIndex.PrintChildrenAppend | records/graphics/SpriteIndexRecord.cpp:50-53 | printing a concatenation of child lists prints the first list, then the second |
| SpriteIndex.PrintChildren | records/graphics/SpriteIndexRecord.cpp:50-53 | the loop over the children; PrintChildrenAppend and PrintChildrenAt state its order |
| SpriteIndex.PrintChildrenAt | records/graphics/SpriteIndexRecord.cpp:47-54 | every child is printed exactly once, in stored order: the children before it, the child, then the children after it |
| SpriteIndex.PrintIndexMissing | records/graphics/SpriteIndexRecord.cpp:55-61 | with no map entry for the id, nothing is printed between the `{` and `}` lines |
| SpriteIndex.PrintIndexReadsOwnEntry | records/graphics/SpriteIndexRecord.cpp:42-49 | two maps that agree on the record's own id give the same output |
| SpriteIndex.PrintIndex | records/graphics/SpriteIndexRecord.cpp:42-64 | print: the output starts with the `sprite_id:` line and `{`, and ends with the closing `}` line; PrintIndexMissing, PrintIndexReadsOwnEntry, PrintChildrenAt and HeaderIdReadsBack state what it prints |
| SpriteIndex.HeaderIdReadsBack | records/graphics/SpriteIndexRecord.cpp:44 | the `sprite_id:` line carries the id in hexadecimal, and it reads back as the id |
| SpriteIndex.PrintedIdReadsBack | records/graphics/SpriteIndexRecord.cpp:42-45 | the id line of the printed record, after its `sprite_id: ` label, reads back as the record's id |
| SpriteIndex.ParseChildren | records/graphics/SpriteIndexRecord.cpp:78-99 | the child loop succeeds only by stopping at a `}` token |
| SpriteIndex.ParseChildrenChain | records/graphics/SpriteIndexRecord.cpp:78-99 | the children the loop collects follow one another without gaps; each starts at a token other than `}`, has the kind its first token selects (`[` gives a real sprite carrying the id, anything else a sound effect), and is what that kind's parser returns there |
| SpriteIndex.LookaheadKind | records/graphics/SpriteIndexRecord.cpp:85-95 | `[` selects a real-sprite child carrying the index's id, and every other token a sound effect |
| SpriteIndex.ParseIndexAccepts | records/graphics/SpriteIndexRecord.cpp:67-102 | a successful parse consumed `sprite_id`, `:`, the integer that becomes the id, `{`, the chained children and a final `}` |
| SpriteIndex.ParseIndex | records/graphics/SpriteIndexRecord.cpp:67-102 | a successful parse ends just past a `}` at least five tokens after its start |
| SpriteIndex.ParseChildrenComplete | records/graphics/SpriteIndexRecord.cpp:78-99 | a chain of children followed by a `}` is exactly what the child loop collects, and it stops on that `}` |
| SpriteIndex.ParseIndexComplete | records/graphics/SpriteIndexRecord.cpp:67-102 | the converse of ParseIndexAccepts: `sprite_id`, `:`, an integer, `{`, a chain of children and `}` parse, with the integer as the id, those children, and the end just past the `}` |
| SpriteIndex.ReadChildren | records/graphics/SpriteIndexRecord.cpp:77-99 | the loop fails iff the child-loop specification fails, with the same error; otherwise it stops on the `}` and has collected each parsed child in order |
| SpriteIndex.SpriteIndexRecord.Read | records/graphics/SpriteIndexRecord.cpp:27-30 | succeeds iff four bytes remain; then the id is the decoded word and the cursor advances by 4; otherwise nothing changes |
| SpriteIndex.SpriteIndexRecord.Write | records/graphics/SpriteIndexRecord.cpp:33-36 | appends exactly the four bytes of the id |
| SpriteIndex.SpriteIndexRecord.Print | records/graphics/SpriteIndexRecord.cpp:42-64 | the printed text is the header, the map entry's children at indent + 4 (none when absent), and the closing brace |
| SpriteIndex.SpriteIndexRecord.Parse | records/graphics/SpriteIndexRecord.cpp:67-102 | succeeds iff the parse specification accepts the tokens; then the id is the parsed integer and the cursor is past the closing `}`; otherwise the error is the first mismatch; no map is changed |

## Left out

- `ActionRecord::write` (records/actions/Action0DRecord.cpp:48) emits the action header before the payload. It is not part of this model. `Encode` is the payload that follows it.
- The byte primitives `read_uint8`, `read_uint32` and `write_uint*` are not part of this model. They are taken as a fixed-width little-endian codec. A short read is a failure, as the exception it throws would be.
- `to_hex` and `pad` are not part of this model. `to_hex` is taken as `0x` plus fixed-width lowercase hex digits: 2 for a byte, 4 for a 16-bit word, 8 for a 32-bit word. `pad(n)` is taken as `n` spaces.
- The boolean descriptor's print is not part of this model. It is taken as `<pad><name>: true;` or `false;`.
- `desc_grm_op.value` for a value outside the GRM table is not part of this model. It is taken as a print error.
- `FeatureName` and `RecordName` are foreign lookups and are passed in as parameters.
- `m_grf_id`, `m_feature` and `m_number` are used only by print, and read never sets them. They are passed to `Action0DText.Print` as an `Extras` value rather than held as record fields. How they are derived is not part of this model.
- `print_param`'s signed/unsigned switch elides its case lists. The model takes the four Unsigned operators for `, unsigned` and the four Signed ones for `, signed`.
- `Action0DRecord::parse` stops with "not implemented" right after the record name. The unreachable remainder is left out, as are `parse_param`, `parse_other`, `parse_patch` and `parse_resources`, which are incomplete or empty.
- Action0D.Action0DRecord.Read: when the bytes run out, the model does not state which fields were already assigned, because the caller must not use the record then.
- StatementReader.ReadPrintParam: proved only for operation codes in the operator table. A code from 0x0D to 0x7F prints as `?`, which the reader rejects.
- StatementReader.ReadPrintOther: proved only for GRF labels with no double quote, which would otherwise end the label early.
- StatementReader.ReadPrintResources: proved only for feature names with no comma, which would otherwise end the feature name early.
- StatementReader.ReadPrintedRecord: its per-kind readings carry the same conditions as ReadPrintParam, ReadPrintOther and ReadPrintResources.
- Token lexing (`TokenStream`) is left out. The parsers take a sequence of tokens.
- The child records (`RealSpriteRecord`, `ActionFFRecord`) are parameters. Child printing is a function of the child and the indent, so the sprite map that the source also passes to a child's `print` is not modelled.
- SpriteIndex.SpriteIndexRecord.Parse: proved for child parsers that consume at least one token whenever they succeed. A child parser that consumed nothing would make the source loop forever.
- The "Missing sprites." line goes to the console under the debug option and never to the output. It is left out, along with the command-line options.
- The code that fills the sprite map while reading a binary file is not part of this model.
- `records/properties/IntegerValue.h` is not part of this model. It is a thin wrapper over the byte and text primitives.
- `tests/Test_Action02BasicRecord.cpp` tests a record type that is not part of this model.
