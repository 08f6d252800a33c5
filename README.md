# PICassembler in Dafny

A verified model of the two programs of PICassembler:

- `assembler.c` turns assembly source for the PIC16F627A into a hex file in the Intel HEX format. For each mnemonic it reads, it looks the descriptor up in an instruction table. It packs the opcode and operands into a 16-bit word and swaps the word's two bytes. It then appends the word to the program and adds both bytes to a running checksum. At the end it writes three records: an extended linear address record, one data record holding every word, and an end-of-file record.
- `disassembler.c` reads such a file record by record. It takes the byte count from characters 1-2 and the record type from characters 7-8. It prints `END` for type 1 and ignores every other type except 0. For type 0 it reads each four-digit group from character 9 on, swaps its bytes and decodes it. The decoder is a hand-ordered cascade: six whole-word constants first, then a switch on the top four bits, then tests on wider opcode fields. It prints one line of assembly, or nothing when no case matches.

The modules follow the program's structure:

- `Words`: 16-bit words, `swapData`, and the `short` conversions of the disassembler.
- `HexText`: `printf("%0Nx")` and `strtol(…, 16)` on strings.
- `Encoder`: the descriptor table, the lookup loop, operand scanning and word packing.
- `Assembler`: the main loop, the checksum and the writing of the hex file.
- `Decoder`: `fprintInstr`, as a function from a word to an optional decoded instruction and the line it prints.
- `Disassembler`: the record loop.
- `RoundTrip`: what the two programs promise together.

The main loops and the lookup are methods with loop invariants, each proved equal to a specification function. The properties are proved about those functions.

Where the documented design and the code differ, the model follows the code:

- The disassembler does not stop at an end-of-file record. `END` is printed and the following records are still processed (`Disassembler.EndDoesNotStop`).
- A word that no case of the cascade matches prints nothing. There is no "unknown opcode" outcome (`Decoder.SilentWords`).
- Operands are combined with `+=`, not `|=`. An operand wider than its field carries into its neighbour (`Encoder.OperandOverflowCorruptsNeighbour`).

## Model

| member | source | states |
|---|---|---|
| Words.Swap | assembler.c:225-235 | the result is a 16-bit word whose low byte is the argument's high byte and whose high byte is its low byte |
| Words.SwapInvolution | disassembler.c:258-269 | swapping a word twice gives the word back, so the disassembler's swap undoes the assembler's |
| Words.SwapKeepsByteSum | assembler.c:149-155 | swapping does not change the sum of a word's two bytes |
| Words.SwapExamples | assembler.c:149 | 0x3003 becomes 0x0330 and 0x1234 becomes 0x3412 |
| Words.ToShortPattern | disassembler.c:79 | the cast to `short` keeps a 16-bit pattern congruent to the value modulo 2^16 |
| Words.SignExtend | disassembler.c:81 | the `short` passed as an `int` lies in -0x8000..0x7FFF and has the same 16-bit pattern |
| HexText.FormatHexFits | assembler.c:183-190 | `%0Nx` of a value below 16^N is exactly its N-digit hex text |
| HexText.FixedHexValue | assembler.c:187 | the N hex digits written for a value below 16^N have that value |
| HexText.StrToLOfDigits | disassembler.c:62 | `strtol` in base 16 on a string of hex digits returns the value of those digits |
| HexText.StrToLFormatHex | disassembler.c:62 | `strtol` in base 16 reads back every number `%0Nx` writes |
| Encoder.FirstMatch | assembler.c:109-118 | the lowest table index whose name equals the mnemonic; None exactly when no row has that name |
| Encoder.Lookup | assembler.c:107-118 | the search loop returns -1 exactly when no row matches, otherwise the first matching index, and agrees with FirstMatch |
| Encoder.OperandSlots | assembler.c:105-136 | both slots are reset to 0; slots beyond the declared operands or the operand texts given stay 0 |
| Encoder.Encode | assembler.c:138-141 | the packed instruction is a 16-bit word |
| Encoder.EncodeInstruction | assembler.c:138-141 | adding the shifted opcode and each shifted operand, truncated to 16 bits at every step, gives the sum of the shifted fields modulo 2^16 |
| Encoder.EncodeIgnoresMasks | assembler.c:138-141 | two descriptors that differ only in their operand masks encode every statement identically |
| Encoder.EncodeReadsDeclaredSlots | assembler.c:139-140 | only the first `numOperands` slots affect the word |
| Encoder.OperandOverflowCorruptsNeighbour | assembler.c:140 | with the `addwf` layout, the out-of-range f = 128 gives the same word (0x0780) as f = 0, d = 1 |
| Assembler.ByteSumOfSwapped | assembler.c:149-155 | the byte sum of a program does not depend on whether its words are swapped |
| Assembler.FinishChecksum | assembler.c:166-168 | the finished checksum is a byte that brings the accumulated sum to 0 modulo 256 |
| Assembler.RecordChecksum | assembler.c:162-168 | the checksum is a byte c with (sum of the data bytes + 2n + c) mod 256 = 0 for n words |
| Assembler.StatementWord | assembler.c:105-150 | a statement yields a word exactly when its mnemonic is in the table |
| Assembler.ProgramWordsConcat | assembler.c:104-161 | the words of two sources read one after the other are the words of the first followed by the words of the second |
| Assembler.UnknownMnemonicSkipped | assembler.c:107-120 | a statement whose mnemonic is not in the table adds no word, and the statements after it are still assembled |
| Assembler.RecognisedProgram | assembler.c:104-161 | when every mnemonic is known there is one word per statement, in order, each the word of its statement |
| Assembler.AssembleStatement | assembler.c:105-160 | one pass appends the statement's word exactly when it is known, counts it and keeps the checksum equal to the byte sum modulo 2^32 |
| Assembler.ReadSource | assembler.c:104-161 | the loop stores the words of all recognised statements, their count and their byte sum modulo 2^32 |
| Assembler.AssembleProgram | assembler.c:104-168 | the words of the source, their count and a checksum byte that makes the data record's bytes sum to 0 modulo 256 |
| Assembler.EmitHexFile | assembler.c:182-191 | the file written is the three records, one per line |
| Assembler.Assemble | assembler.c:104-191 | the file written for a source is the three records built from the source's words and their checksum |
| Assembler.HexFileWrittenInPieces | assembler.c:182-191 | the file is the pieces the `fprintf` calls write, in order |
| Assembler.HexFileFraming | assembler.c:182-191 | the file is the extended address record, the data record and the end-of-file record, each on its own line |
| Assembler.UnknownSourceIsEmpty | assembler.c:104-161 | a source none of whose mnemonics is in the table assembles to no words |
| Assembler.EmptyProgramText | assembler.c:104-191 | for a source with no known mnemonic the file is `:020000040000fa`, `:0000000000`, `:00000001ff` |
| Assembler.SumOfDataBytes | assembler.c:151-155 | the bytes of the data field sum to the running byte sum of the words |
| Assembler.HexOfWord | assembler.c:187 | `%04x` of a word is the two-digit hex of its high byte followed by that of its low byte |
| Assembler.HexWordsAreHexBytes | assembler.c:186-188 | the data field is the two-digit hex of each data byte in order |
| Assembler.DataRecordText | assembler.c:183-190 | when the byte count fits in two digits, the data record is `:` followed by the hex of its count, address, type, data and checksum bytes |
| Assembler.DataRecordSumsToZero | assembler.c:162-190 | the bytes of the data record, checksum included, sum to 0 modulo 256 |
| Assembler.FixedRecordsSumToZero | assembler.c:182-191 | the two fixed records are `:` and the hex of bytes that sum to 0 modulo 256 |
| Decoder.ByteOriented | disassembler.c:107-186 | every word of group 0 decodes to a mnemonic with one or two operands |
| Decoder.BitOriented | disassembler.c:187-208 | every word of group 1 decodes to a bit operation with two operands |
| Decoder.Control | disassembler.c:209-219 | every word of group 2 decodes to `call` or `goto` with one operand |
| Decoder.Literal | disassembler.c:220-249 | a word of group 3 decodes exactly when it lies outside 0x3B00..0x3BFF, with one operand |
| Decoder.Decode | disassembler.c:96-255 | a word decodes exactly when it lies in 0..0x3FFF outside 0x3B00..0x3BFF; at most two operands; no operands exactly for the six constant words |
| Decoder.ByteOrientedReads | disassembler.c:107-186 | in group 0 the mnemonic is selected by `instr >> 8`, f is the low 7 bits and d is bit 7 |
| Decoder.BitOrientedReads | disassembler.c:187-208 | in group 1 the mnemonic is selected by `instr >> 10`, f is the low 7 bits and b the 3 bits from bit 7 |
| Decoder.ControlReads | disassembler.c:209-219 | in group 2 the mnemonic is selected by `instr >> 11` and k is the low 11 bits |
| Decoder.LiteralReads | disassembler.c:220-249 | in group 3 the decoded mnemonic's opcode test holds and k is the low 8 bits |
| Decoder.DecodeReads | disassembler.c:96-255 | every decoded instruction has its mnemonic's opcode in the word and operands that are the word's fields, each below its field's bound |
| Decoder.ConstantsShadowGroupZero | disassembler.c:99-108 | the constants are tested first: 0x0100 prints `clrw` although group 0 alone reads it as `clrf .0`, and no constant prints `movwf` |
| Decoder.ByteOrientedDistinct | disassembler.c:107-186 | group 0 words with different `instr >> 8` decode to different mnemonics |
| Decoder.NameIsWordText | disassembler.c:99-247 | every mnemonic printed is at least three lower-case letters |
| Decoder.LineForm | disassembler.c:99-247 | each printed line is a single line that starts with the mnemonic, has one `.` per operand, and has a `,` exactly when there are two operands |
| Decoder.DecodeLine | disassembler.c:96-255 | the printed text is empty exactly when the word does not decode |
| Decoder.DecodeLineIsOneLine | disassembler.c:96-255 | a word that decodes prints exactly one line |
| Decoder.LowGroupsCovered | disassembler.c:106-219 | every word below 0x3000 prints a line |
| Decoder.SilentWords | disassembler.c:220-252 | words in 0x3B00..0x3BFF, words from 0x4000 on and negative words print nothing |
| Disassembler.Field | disassembler.c:60-61 | `strncpy` of a field gives `len` characters from `start`, fewer where the record ends |
| Disassembler.GroupCount | disassembler.c:73-74 | the loop visits group k exactly when 9 + 4k < numBytes * 2 + 9 |
| Disassembler.DataWord | disassembler.c:77-79 | each group read is a 16-bit pattern |
| Disassembler.RecordWords | disassembler.c:72-79 | a data record holds one word per group the loop visits |
| Disassembler.RecordWordsAt | disassembler.c:74-79 | word k of a readable data record is the group at character 9 + 4k, which lies inside the record |
| Disassembler.RecordGroups | disassembler.c:74-79 | every group of a readable data record starts inside it and holds its word |
| Disassembler.DisassembleData | disassembler.c:73-82 | the data loop prints the decoded line of each swapped word, in order |
| Disassembler.DisassembleRecord | disassembler.c:60-83 | one record prints `END` for type 1, its decoded words for type 0, nothing otherwise |
| Disassembler.Disassemble | disassembler.c:59-84 | the whole output is the output of every record, in order |
| Disassembler.DisassemblyTextOfOne | disassembler.c:59-84 | a file of one record prints what that record prints |
| Disassembler.DisassemblyTextConcat | disassembler.c:59-84 | the output for two files read one after the other is the output of the first followed by that of the second |
| Disassembler.EndDoesNotStop | disassembler.c:68-70 | an end-of-file record prints `END` and the records after it are still processed |
| Disassembler.OtherRecordsSilent | disassembler.c:64-83 | a record of a type other than 0 and 1 contributes nothing to the output |
| Disassembler.WordLinesCount | disassembler.c:74-81 | a data record prints at most one line per word, and exactly one per word when every word decodes |
| Disassembler.OutputReadsOnlyFields | disassembler.c:60-79 | two records that agree on characters 1-2, characters 7-8 and every data group print the same, whatever their lengths and other characters |
| Disassembler.SameGroupsSameWords | disassembler.c:74-79 | two data records with the same count and the same four-character data groups hold the same words, whatever their lengths |
| RoundTrip.FileDestWord | assembler.c:138-141 | a file-and-destination row packs its opcode at bit 8, d at bit 7 and f at bit 0, and group 0 reads them back |
| RoundTrip.FileWord | assembler.c:138-141 | a file-only row (`clrf`, `movwf`) packs its opcode at bit 7 and f at bit 0 |
| RoundTrip.BitWord | assembler.c:138-141 | a bit row packs its opcode at bit 10, b at bit 7 and f at bit 0, and group 1 reads them back |
| RoundTrip.AddressWord | assembler.c:138-141 | `call` and `goto` pack their opcode at bit 11 and k at bit 0, and group 2 reads them back |
| RoundTrip.LiteralWord | assembler.c:138-141 | a literal row packs k into the low byte under its opcode, and group 3 reads it back |
| RoundTrip.DecodeGroupZero | disassembler.c:99-107 | a group 0 word that is not a constant reaches the byte-oriented cases |
| RoundTrip.DecodeGroupOne | disassembler.c:99-187 | every group 1 word reaches the bit-oriented cases |
| RoundTrip.DecodeGroupTwo | disassembler.c:99-209 | every group 2 word reaches the `call` and `goto` cases |
| RoundTrip.DecodeGroupThree | disassembler.c:99-220 | every group 3 word reaches the literal cases |
| RoundTrip.DecodeEncode | disassembler.c:96-255 | for every row of the PIC16F627A table and operands that fit their fields, decoding the encoded word gives the row's mnemonic and the same operands |
| RoundTrip.HexWordAt | assembler.c:186-188 | characters 4k to 4k + 3 of the data field are `%04x` of word k |
| RoundTrip.WordReadBack | disassembler.c:77-79 | `(short)strtol` of `%04x` of a word gives the word's pattern back |
| RoundTrip.DataRecordReadBack | disassembler.c:59-79 | the data record written for at most nine words is readable, has type 0 and holds exactly those words |
| RoundTrip.FixedRecordsReadBack | disassembler.c:64-70 | the extended address record reads as type 4 and the end-of-file record as type 1 |
| RoundTrip.OutputOfTypes | disassembler.c:68-83 | the three records of the file print nothing, the decoded words and `END` respectively |
| RoundTrip.ThreeRecordsText | disassembler.c:59-84 | a file of those three record types prints the decoded words followed by `END` |
| RoundTrip.HexFileReadBack | disassembler.c:59-84 | disassembling the file written for at most nine words prints the decoded line of each word and then `END` |
| RoundTrip.LineIsStatementText | disassembler.c:99-247 | every line printed is the source text, in the assembler's decimal operand syntax, of a statement with the same mnemonic and operands |
| RoundTrip.StatementRoundTrip | disassembler.c:96-255 | the line printed for an assembled statement is the text of its decimal-form listing, which assembles to the same word |
| RoundTrip.ProgramListing | disassembler.c:74-81 | the lines printed for an assembled program are the listing of its statements |
| RoundTrip.ListingReassembles | assembler.c:104-161 | assembling the listing gives back the same program words |
| RoundTrip.AssembleThenDisassemble | disassembler.c:59-84 | disassembling the file assembled from at most nine statements prints their listing followed by `END` |

## Left out

- File handling, command-line arguments, the usage message and the success messages are not modelled. The assembler's input is a sequence of `Statement` values and its output is the text of `hexFormatProgram.txt`. The disassembler's input is the sequence of records and its output is the text it writes.
- The instruction-set file and `acquireInstruction` (assembler.c:85-92) are not part of this model. The table is a parameter of the assembler model. The round-trip lemmas use `RoundTrip.PicTable`, a table for the PIC16F627A written to match the decoder's field layout.
- `printInstruction` and the `#ifdef DEBUG` blocks only print debugging output.
- The `fscanf` tokenising of the assembly source is not modelled at character level. A statement is its mnemonic plus, per operand, the prefix character and the number `%d` or `%x` reads. The separating characters the scanner discards are not represented. Neither is the desynchronisation a malformed operand causes.
- Disassembler.Readable: the model only covers records that are white-space-free tokens of 7 to 49 characters whose data groups start inside the token. The C code would read past the terminator or overflow `hexString[50]` on other records. The model does not say what it prints then.
- RoundTrip.DataRecordReadBack, RoundTrip.HexFileReadBack and RoundTrip.AssembleThenDisassemble: these hold for at most nine words. The assembler writes all words into one record, and a record of more than nine words (over 49 characters) overflows the disassembler's 50-character buffer.
- Assembler.DataRecordText: when the program has 128 words or more, `%02x` prints the byte count with three digits. The record then is not valid Intel HEX. The model prints those digits faithfully, but this lemma needs the count to fit in two digits.
- Encoder.Descriptor.WellFormed: the model only admits tables with at most two operands and shift counts below 32. The C code has undefined behaviour for larger shifts, and its arrays only hold two operands. Operands are unbounded integers, and their overflow is modelled only through the 16-bit truncation of `hexInstruction`.
- HexText.StrToL: `strtol` is modelled without its skipping of leading white space. The model never needs it, because records are white-space-free tokens.
