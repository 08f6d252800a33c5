/**
 * What the two programs promise together: the disassembler reads back the
 * hex file the assembler writes, and for an instruction table laid out as
 * the PIC16F627A data sheet lays out its words, it prints every assembled
 * statement back in the assembler's own input syntax.
 */
module RoundTrip {
  import opened Wrappers
  import opened Words
  import opened HexText
  import opened Encoder
  import opened Assembler
  import opened Decoder
  import opened Disassembler

  /**
   * Instruction-table rows in the format of the assembler's instruction set
   * file: each operand's "mask" is its width in bits, then its shift.
   */
  function FileDestRow(name: string, code: int): Descriptor {
    Descriptor(name, [OperandSpec(7, 0), OperandSpec(1, 7)], code, 8)
  }

  function FileRow(name: string, code: int): Descriptor {
    Descriptor(name, [OperandSpec(7, 0)], code, 7)
  }

  function BitRow(name: string, code: int): Descriptor {
    Descriptor(name, [OperandSpec(7, 0), OperandSpec(3, 7)], code, 10)
  }

  function AddressRow(name: string, code: int): Descriptor {
    Descriptor(name, [OperandSpec(11, 0)], code, 11)
  }

  function LiteralRow(name: string, code: int, shift: nat): Descriptor {
    Descriptor(name, [OperandSpec(8, 0)], code, shift)
  }

  function FixedRow(name: string, word: int): Descriptor {
    Descriptor(name, [], word, 0)
  }

  /**
   * The 35 instructions of the PIC16F627A as rows of the assembler's table,
   * in the order of the data sheet's instruction set summary.
   */
  function PicRow(i: nat): (d: Descriptor)
    requires i < 35
    ensures d.WellFormed()
  {
    match i
    case 0 => FileDestRow("addwf", 7)
    case 1 => FileDestRow("andwf", 5)
    case 2 => FileRow("clrf", 3)
    case 3 => FixedRow("clrw", 0x0100)
    case 4 => FileDestRow("comf", 9)
    case 5 => FileDestRow("decf", 3)
    case 6 => FileDestRow("decfsz", 11)
    case 7 => FileDestRow("incf", 10)
    case 8 => FileDestRow("incfsz", 15)
    case 9 => FileDestRow("iorwf", 4)
    case 10 => FileDestRow("movf", 8)
    case 11 => FileRow("movwf", 1)
    case 12 => FixedRow("nop", 0x0000)
    case 13 => FileDestRow("rlf", 13)
    case 14 => FileDestRow("rrf", 12)
    case 15 => FileDestRow("subwf", 2)
    case 16 => FileDestRow("swapf", 14)
    case 17 => FileDestRow("xorwf", 6)
    case 18 => BitRow("bcf", 4)
    case 19 => BitRow("bsf", 5)
    case 20 => BitRow("btfsc", 6)
    case 21 => BitRow("btfss", 7)
    case 22 => LiteralRow("addlw", 0x1f, 9)
    case 23 => LiteralRow("andlw", 0x39, 8)
    case 24 => AddressRow("call", 4)
    case 25 => FixedRow("clrwdt", 0x0064)
    case 26 => AddressRow("goto", 5)
    case 27 => LiteralRow("iorlw", 0x38, 8)
    case 28 => LiteralRow("movlw", 0xc, 10)
    case 29 => FixedRow("retfie", 0x0009)
    case 30 => LiteralRow("retlw", 0xd, 10)
    case 31 => FixedRow("return", 0x0008)
    case 32 => FixedRow("sleep", 0x0063)
    case 33 => LiteralRow("sublw", 0x1e, 9)
    case _ => LiteralRow("xorlw", 0x3a, 8)
  }

  function PicTable(): seq<Descriptor> {
    seq(35, i requires 0 <= i < 35 => PicRow(i))
  }

  /** Every declared operand fits the width its row gives it. */
  predicate Fits(d: Descriptor, slots: seq<int>) {
    && |slots| == 2 && |d.operands| <= 2
    && forall j :: 0 <= j < |d.operands| ==>
         0 <= d.operands[j].mask && 0 <= slots[j] < Pow2(d.operands[j].mask)
  }

  lemma SmallPowers()
    ensures Pow2(0) == 1 && Pow2(1) == 2 && Pow2(3) == 8 && Pow2(7) == 0x80 && Pow2(8) == 0x100
    ensures Pow2(9) == 0x200 && Pow2(10) == 0x400 && Pow2(11) == 0x800
  {
  }

  /** A byte-oriented row with a destination bit lands in group 0 with f and d where the decoder reads them. */
  lemma FileDestWord(name: string, code: int, slots: seq<int>)
    requires 2 <= code < 16 && Fits(FileDestRow(name, code), slots)
    ensures var w := Encode(FileDestRow(name, code), slots);
            && w == code * 0x100 + slots[1] * 0x80 + slots[0]
            && w / 0x100 == code && w % 0x80 == slots[0] && w / 0x80 % 2 == slots[1]
            && Decode(w) == ByteOriented(w)
  {
    SmallPowers();
    FieldSumOfTwo(FileDestRow(name, code).operands, slots);
    var w := code * 0x100 + slots[1] * 0x80 + slots[0];
    assert Encode(FileDestRow(name, code), slots) == w;
    FileDestFields(w, code, slots[1], slots[0]);
    DecodeGroupZero(w);
  }

  lemma FileDestFields(w: int, code: int, d: int, f: int)
    requires w == code * 0x100 + d * 0x80 + f && 0 <= code && 0 <= d < 2 && 0 <= f < 0x80
    ensures w / 0x100 == code && w % 0x80 == f && w / 0x80 % 2 == d
  {
    assert w == 0x80 * (2 * code + d) + f;
    assert w / 0x80 == 2 * code + d;
  }

  lemma DecodeGroupZero(w: int)
    requires 0 <= w < 0x1000 && !IsConstantWord(w)
    ensures Decode(w) == ByteOriented(w)
  {
  }

  /** `clrf` and `movwf` set bit 7, which the decoder does not look at. */
  lemma FileWord(name: string, code: int, slots: seq<int>)
    requires (code == 1 || code == 3) && Fits(FileRow(name, code), slots)
    ensures var w := Encode(FileRow(name, code), slots);
            && w == code * 0x80 + slots[0]
            && w / 0x100 == code / 2 && w % 0x80 == slots[0]
            && Decode(w) == ByteOriented(w)
  {
    SmallPowers();
    FieldSumOfTwo(FileRow(name, code).operands, slots);
    var w := code * 0x80 + slots[0];
    assert Encode(FileRow(name, code), slots) == w;
    assert w / 0x100 == code / 2 by {
      assert w == 0x100 * (code / 2) + (0x80 * (code % 2) + slots[0]);
    }
    DecodeGroupZero(w);
  }

  lemma BitWord(name: string, code: int, slots: seq<int>)
    requires 4 <= code < 8 && Fits(BitRow(name, code), slots)
    ensures var w := Encode(BitRow(name, code), slots);
            && w == code * 0x400 + slots[1] * 0x80 + slots[0]
            && w / 0x400 == code && w % 0x80 == slots[0] && w / 0x80 % 8 == slots[1]
            && Decode(w) == BitOriented(w)
  {
    SmallPowers();
    FieldSumOfTwo(BitRow(name, code).operands, slots);
    var w := code * 0x400 + slots[1] * 0x80 + slots[0];
    assert Encode(BitRow(name, code), slots) == w;
    BitFields(w, code, slots[1], slots[0]);
    DecodeGroupOne(w);
  }

  lemma BitFields(w: int, code: int, b: int, f: int)
    requires w == code * 0x400 + b * 0x80 + f && 0 <= code && 0 <= b < 8 && 0 <= f < 0x80
    ensures w / 0x400 == code && w % 0x80 == f && w / 0x80 % 8 == b
  {
    assert w == 0x80 * (8 * code + b) + f;
    assert w / 0x80 == 8 * code + b;
  }

  lemma DecodeGroupOne(w: int)
    requires 0x1000 <= w < 0x2000
    ensures Decode(w) == BitOriented(w)
  {
  }

  lemma AddressWord(name: string, code: int, slots: seq<int>)
    requires (code == 4 || code == 5) && Fits(AddressRow(name, code), slots)
    ensures var w := Encode(AddressRow(name, code), slots);
            && w == code * 0x800 + slots[0]
            && w / 0x800 == code && w % 0x800 == slots[0]
            && Decode(w) == Control(w)
  {
    SmallPowers();
    FieldSumOfTwo(AddressRow(name, code).operands, slots);
    var w := code * 0x800 + slots[0];
    assert Encode(AddressRow(name, code), slots) == w;
    DecodeGroupTwo(w);
  }

  lemma DecodeGroupTwo(w: int)
    requires 0x2000 <= w < 0x3000
    ensures Decode(w) == Control(w)
  {
  }

  /**
   * A literal row puts its opcode above an 8-bit k; `high` is the word's
   * upper byte, from which every comparison of group 3 follows.
   */
  lemma LiteralWord(name: string, code: int, shift: nat, high: int, slots: seq<int>)
    requires 8 <= shift <= 10 && 0x30 <= high < 0x40 && code * Pow2(shift) == high * 0x100
    requires Fits(LiteralRow(name, code, shift), slots)
    ensures var w := Encode(LiteralRow(name, code, shift), slots);
            && w == high * 0x100 + slots[0]
            && w / 0x100 == high && w / 0x200 == high / 2 && w / 0x400 == high / 4
            && w % 0x100 == slots[0]
            && Decode(w) == Literal(w)
  {
    SmallPowers();
    FieldSumOfTwo(LiteralRow(name, code, shift).operands, slots);
    var w := high * 0x100 + slots[0];
    assert Encode(LiteralRow(name, code, shift), slots) == w;
    LiteralFields(w, high, slots[0]);
    DecodeGroupThree(w);
  }

  lemma LiteralFields(w: int, high: int, k: int)
    requires w == high * 0x100 + k && 0 <= high && 0 <= k < 0x100
    ensures w / 0x100 == high && w / 0x200 == high / 2 && w / 0x400 == high / 4 && w % 0x100 == k
  {
    assert w == 0x200 * (high / 2) + (0x100 * (high % 2) + k);
    assert w == 0x400 * (high / 4) + (0x100 * (high % 4) + k);
  }

  lemma DecodeGroupThree(w: int)
    requires 0x3000 <= w < 0x4000
    ensures Decode(w) == Literal(w)
  {
  }

  /**
   * The decoder gives back the row's mnemonic and exactly the operands the
   * encoder packed into the word.
   */
  predicate ReadsBack(d: Descriptor, slots: seq<int>)
    requires |d.operands| <= 2 && |slots| == 2
  {
    var r := Decode(Encode(d, slots));
    r.Some? && Name(r.value.op) == d.name && r.value.operands == slots[..|d.operands|]
  }

  /** A row of FileDestRow's layout decodes to its mnemonic with f and d. */
  lemma FileDestReadsBack(i: nat, name: string, code: int, op: Op, slots: seq<int>)
    requires i < 35 && PicRow(i) == FileDestRow(name, code)
    requires 2 <= code < 16 && ByteOp(code) == op && Name(op) == name
    requires Fits(PicRow(i), slots)
    ensures ReadsBack(PicRow(i), slots)
  {
    FileDestWord(name, code, slots);
    assert slots[..2] == [slots[0], slots[1]];
  }

  /** `clrf` and `movwf` decode to their mnemonic with f alone. */
  lemma FileReadsBack(i: nat, name: string, code: int, op: Op, slots: seq<int>)
    requires i < 35 && PicRow(i) == FileRow(name, code)
    requires (code == 1 || code == 3) && ByteOp(code / 2) == op && Name(op) == name
    requires Fits(PicRow(i), slots)
    ensures ReadsBack(PicRow(i), slots)
  {
    FileWord(name, code, slots);
    assert slots[..1] == [slots[0]];
  }

  lemma BitReadsBack(i: nat, name: string, code: int, op: Op, slots: seq<int>)
    requires i < 35 && PicRow(i) == BitRow(name, code)
    requires 4 <= code < 8 && op == [Bcf, Bsf, Btfsc, Btfss][code - 4] && Name(op) == name
    requires Fits(PicRow(i), slots)
    ensures ReadsBack(PicRow(i), slots)
  {
    BitWord(name, code, slots);
    assert slots[..2] == [slots[0], slots[1]];
  }

  lemma AddressReadsBack(i: nat, name: string, code: int, op: Op, slots: seq<int>)
    requires i < 35 && PicRow(i) == AddressRow(name, code)
    requires (code == 4 || code == 5) && op == (if code == 4 then Call else Goto) && Name(op) == name
    requires Fits(PicRow(i), slots)
    ensures ReadsBack(PicRow(i), slots)
  {
    AddressWord(name, code, slots);
    assert slots[..1] == [slots[0]];
  }

  lemma LiteralReadsBack(i: nat, name: string, code: int, shift: nat, high: int, op: Op, slots: seq<int>)
    requires i < 35 && PicRow(i) == LiteralRow(name, code, shift)
    requires 8 <= shift <= 10 && 0x30 <= high < 0x40 && code * Pow2(shift) == high * 0x100
    requires Literal(high * 0x100) == Some(Decoded(op, [0])) && Name(op) == name
    requires Fits(PicRow(i), slots)
    ensures ReadsBack(PicRow(i), slots)
  {
    LiteralWord(name, code, shift, high, slots);
    LiteralKeepsOp(high, slots[0]);
    assert slots[..1] == [slots[0]];
  }

  /** Group 3 picks the mnemonic from the upper byte alone and passes k through. */
  lemma LiteralKeepsOp(high: int, k: int)
    requires 0x30 <= high < 0x40 && 0 <= k < 0x100
    ensures Literal(high * 0x100 + k).Some? == Literal(high * 0x100).Some?
    ensures Literal(high * 0x100).Some? ==>
              Literal(high * 0x100 + k) == Some(Decoded(Literal(high * 0x100).value.op, [k]))
  {
    LiteralFields(high * 0x100 + k, high, k);
    LiteralFields(high * 0x100, high, 0);
  }

  /** An operand-less row is its own word, which the decoder names on its own. */
  lemma FixedReadsBack(i: nat, name: string, word: int, op: Op, slots: seq<int>)
    requires i < 35 && PicRow(i) == FixedRow(name, word)
    requires IsWord(word) && |slots| == 2
    requires Decode(word) == Some(Decoded(op, [])) && Name(op) == name
    ensures ReadsBack(PicRow(i), slots)
  {
    SmallPowers();
    assert Encode(FixedRow(name, word), slots) == word;
    assert slots[..0] == [];
  }

  /**
   * For every row of the table and every operand that fits its field, the
   * decoder gives back the row's mnemonic and the declared operands of the
   * word the encoder built.
   */
  lemma DecodeEncode(i: nat, slots: seq<int>)
    requires i < |PicTable()| && Fits(PicTable()[i], slots)
    ensures var d := PicTable()[i];
            var r := Decode(Encode(d, slots));
            && r.Some?
            && Name(r.value.op) == d.name
            && r.value.operands == slots[..|d.operands|]
  {
    assert PicTable()[i] == PicRow(i);
    if i < 5 {
      DecodeEncodeRows0To4(i, slots);
    } else if i < 9 {
      DecodeEncodeRows5To8(i, slots);
    } else if i < 13 {
      DecodeEncodeRows9To12(i, slots);
    } else if i < 16 {
      DecodeEncodeRows13To15(i, slots);
    } else if i < 18 {
      DecodeEncodeRows16To17(i, slots);
    } else if i < 22 {
      DecodeEncodeRows18To21(i, slots);
    } else if i < 25 {
      DecodeEncodeRows22To24(i, slots);
    } else if i < 28 {
      DecodeEncodeRows25To27(i, slots);
    } else if i < 31 {
      DecodeEncodeRows28To30(i, slots);
    } else if i < 33 {
      DecodeEncodeRows31To32(i, slots);
    } else {
      DecodeEncodeRows33To34(i, slots);
    }
  }

  lemma DecodeEncodeRows0To4(i: nat, slots: seq<int>)
    requires i < 5 && Fits(PicRow(i), slots)
    ensures ReadsBack(PicRow(i), slots)
  {
    if i == 0 {
      FileDestReadsBack(i, "addwf", 7, Addwf, slots);
    } else if i == 1 {
      FileDestReadsBack(i, "andwf", 5, Andwf, slots);
    } else if i == 2 {
      FileReadsBack(i, "clrf", 3, Clrf, slots);
    } else if i == 3 {
      FixedReadsBack(i, "clrw", 0x0100, Clrw, slots);
    } else {
      FileDestReadsBack(i, "comf", 9, Comf, slots);
    }
  }

  lemma DecodeEncodeRows5To8(i: nat, slots: seq<int>)
    requires 5 <= i < 9 && Fits(PicRow(i), slots)
    ensures ReadsBack(PicRow(i), slots)
  {
    if i == 5 {
      FileDestReadsBack(i, "decf", 3, Decf, slots);
    } else if i == 6 {
      FileDestReadsBack(i, "decfsz", 0xb, Decfsz, slots);
    } else if i == 7 {
      FileDestReadsBack(i, "incf", 0xa, Incf, slots);
    } else {
      FileDestReadsBack(i, "incfsz", 0xf, Incfsz, slots);
    }
  }

  lemma DecodeEncodeRows9To12(i: nat, slots: seq<int>)
    requires 9 <= i < 13 && Fits(PicRow(i), slots)
    ensures ReadsBack(PicRow(i), slots)
  {
    if i == 9 {
      FileDestReadsBack(i, "iorwf", 4, Iorwf, slots);
    } else if i == 10 {
      FileDestReadsBack(i, "movf", 8, Movf, slots);
    } else if i == 11 {
      FileReadsBack(i, "movwf", 1, Movwf, slots);
    } else {
      FixedReadsBack(i, "nop", 0x0000, Nop, slots);
    }
  }

  lemma DecodeEncodeRows13To15(i: nat, slots: seq<int>)
    requires 13 <= i < 16 && Fits(PicRow(i), slots)
    ensures ReadsBack(PicRow(i), slots)
  {
    if i == 13 {
      FileDestReadsBack(i, "rlf", 0xd, Rlf, slots);
    } else if i == 14 {
      FileDestReadsBack(i, "rrf", 0xc, Rrf, slots);
    } else {
      FileDestReadsBack(i, "subwf", 2, Subwf, slots);
    }
  }

  lemma DecodeEncodeRows16To17(i: nat, slots: seq<int>)
    requires 16 <= i < 18 && Fits(PicRow(i), slots)
    ensures ReadsBack(PicRow(i), slots)
  {
    if i == 16 {
      FileDestReadsBack(i, "swapf", 0xe, Swapf, slots);
    } else {
      FileDestReadsBack(i, "xorwf", 6, Xorwf, slots);
    }
  }

  lemma DecodeEncodeRows18To21(i: nat, slots: seq<int>)
    requires 18 <= i < 22 && Fits(PicRow(i), slots)
    ensures ReadsBack(PicRow(i), slots)
  {
    if i == 18 {
      BitReadsBack(i, "bcf", 4, Bcf, slots);
    } else if i == 19 {
      BitReadsBack(i, "bsf", 5, Bsf, slots);
    } else if i == 20 {
      BitReadsBack(i, "btfsc", 6, Btfsc, slots);
    } else {
      BitReadsBack(i, "btfss", 7, Btfss, slots);
    }
  }

  lemma DecodeEncodeRows22To24(i: nat, slots: seq<int>)
    requires 22 <= i < 25 && Fits(PicRow(i), slots)
    ensures ReadsBack(PicRow(i), slots)
  {
    SmallPowers();
    if i == 22 {
      LiteralReadsBack(i, "addlw", 0x1f, 9, 0x3e, Addlw, slots);
    } else if i == 23 {
      LiteralReadsBack(i, "andlw", 0x39, 8, 0x39, Andlw, slots);
    } else {
      AddressReadsBack(i, "call", 4, Call, slots);
    }
  }

  lemma DecodeEncodeRows25To27(i: nat, slots: seq<int>)
    requires 25 <= i < 28 && Fits(PicRow(i), slots)
    ensures ReadsBack(PicRow(i), slots)
  {
    SmallPowers();
    if i == 25 {
      FixedReadsBack(i, "clrwdt", 0x0064, Clrwdt, slots);
    } else if i == 26 {
      AddressReadsBack(i, "goto", 5, Goto, slots);
    } else {
      LiteralReadsBack(i, "iorlw", 0x38, 8, 0x38, Iorlw, slots);
    }
  }

  lemma DecodeEncodeRows28To30(i: nat, slots: seq<int>)
    requires 28 <= i < 31 && Fits(PicRow(i), slots)
    ensures ReadsBack(PicRow(i), slots)
  {
    SmallPowers();
    if i == 28 {
      LiteralReadsBack(i, "movlw", 0xc, 10, 0x30, Movlw, slots);
    } else if i == 29 {
      FixedReadsBack(i, "retfie", 0x0009, Retfie, slots);
    } else {
      LiteralReadsBack(i, "retlw", 0xd, 10, 0x34, Retlw, slots);
    }
  }

  lemma DecodeEncodeRows31To32(i: nat, slots: seq<int>)
    requires 31 <= i < 33 && Fits(PicRow(i), slots)
    ensures ReadsBack(PicRow(i), slots)
  {
    if i == 31 {
      FixedReadsBack(i, "return", 0x0008, Return, slots);
    } else {
      FixedReadsBack(i, "sleep", 0x0063, Sleep, slots);
    }
  }

  lemma DecodeEncodeRows33To34(i: nat, slots: seq<int>)
    requires 33 <= i < 35 && Fits(PicRow(i), slots)
    ensures ReadsBack(PicRow(i), slots)
  {
    SmallPowers();
    if i == 33 {
      LiteralReadsBack(i, "sublw", 0x1e, 9, 0x3c, Sublw, slots);
    } else {
      LiteralReadsBack(i, "xorlw", 0x3a, 8, 0x3a, Xorlw, slots);
    }
  }

  /** The data field holds four hex digits per word. */
  lemma {:induction false} HexWordsShape(ws: seq<int>)
    requires AllWords(ws)
    ensures |HexWords(ws)| == 4 * |ws| && AllHexDigits(HexWords(ws))
  {
    if ws != [] {
      var p, w := ws[..|ws| - 1], ws[|ws| - 1];
      HexWordsShape(p);
      assert Pow16(4) == 0x1_0000;
      FormatHexFits(w, 4);
      assert HexWords(ws) == HexWords(p) + FormatHex(w, 4);
    }
  }

  /** Word k sits at characters 4k..4k+3 of the data field. */
  lemma {:induction false} HexWordAt(ws: seq<int>, k: nat)
    requires AllWords(ws) && k < |ws|
    ensures 4 * k + 4 <= |HexWords(ws)|
    ensures HexWords(ws)[4 * k .. 4 * k + 4] == FormatHex(ws[k], 4)
  {
    var p, w := ws[..|ws| - 1], ws[|ws| - 1];
    HexWordsShape(ws);
    HexWordsShape(p);
    var h, t := HexWords(p), FormatHex(w, 4);
    assert HexWords(ws) == h + t;
    if k < |p| {
      HexWordAt(p, k);
      SliceOfLeft(h, t, 4 * k, 4 * k + 4);
      assert ws[k] == p[k];
    } else {
      SliceOfRight(h, t);
    }
  }

  lemma SliceOfLeft(x: string, y: string, a: nat, b: nat)
    requires a <= b <= |x|
    ensures (x + y)[a..b] == x[a..b]
  {
  }

  lemma SliceOfRight(x: string, y: string)
    ensures (x + y)[|x|..|x| + |y|] == y
  {
  }

  /** Where the pieces of a data record sit: count at 1-2, type at 7-8, data from 9. */
  lemma RecordSlices(count: string, data: string, sum: string)
    requires |count| == 2 && |sum| == 2
    ensures var r := ":" + count + "000000" + data + sum;
            && |r| == 11 + |data|
            && r[1..3] == count && r[7..9] == "00" && r[9..9 + |data|] == data
            && (forall i :: 0 <= i < |r| ==>
                  r[i] == ':' || r[i] == '0' || (1 <= i < 3 && r[i] == count[i - 1])
                  || (9 <= i < 9 + |data| && r[i] == data[i - 9]) || (9 + |data| <= i && r[i] == sum[i - 9 - |data|]))
  {
  }

  /** Hex digits and the colon hold no white space: a record is one `%s` token. */
  lemma RecordHasNoSpace(count: string, data: string, sum: string)
    requires |count| == 2 && |sum| == 2
    requires AllHexDigits(count) && AllHexDigits(data) && AllHexDigits(sum)
    ensures var r := ":" + count + "000000" + data + sum;
            forall i :: 0 <= i < |r| ==> !IsSpace(r[i])
  {
    RecordSlices(count, data, sum);
  }

  /** "00" and "04" and "01", read by `strtol(…, 16)`. */
  lemma ShortHexValue(v: nat)
    requires v < 16
    ensures StrToL(['0', HexChar(v)]) == v
  {
    var s := ['0', HexChar(v)];
    DigitValueOfHexChar(v);
    assert AllHexDigits(s);
    assert s[..1] == ['0'] && s[..1][..0] == [];
    StrToLOfDigits(s);
  }

  /**
   * The data record the assembler writes for at most nine words (it then
   * fits `hexString[50]`) is read as a type 0 record whose groups are
   * exactly the stored words.
   */
  lemma DataRecordReadBack(ws: seq<int>, checksum: nat)
    requires AllWords(ws) && |ws| <= 9 && checksum < 0x100
    ensures Readable(DataRecord(ws, checksum))
    ensures RecordType(DataRecord(ws, checksum)) == 0
    ensures RecordWords(DataRecord(ws, checksum)) == ws
  {
    var n := |ws|;
    var rec := DataRecord(ws, checksum);
    var count, data, sum := FormatHex(2 * n, 2), HexWords(ws), FormatHex(checksum, 2);
    FormatHexFits(2 * n, 2);
    FormatHexFits(checksum, 2);
    HexWordsShape(ws);
    RecordSlices(count, data, sum);
    assert rec == ":" + count + "000000" + data + sum;
    assert Field(rec, 1, 2) == count;
    StrToLFormatHex(2 * n, 2);
    assert ByteCount(rec) == 2 * n;
    assert GroupCount(2 * n) == n;
    assert Field(rec, 7, 2) == ['0', HexChar(0)];
    ShortHexValue(0);
    assert RecordType(rec) == 0;
    RecordHasNoSpace(count, data, sum);
    assert Readable(rec);
    forall k | 0 <= k < n
      ensures RecordWords(rec)[k] == ws[k]
    {
      RecordWordsAt(rec, k);
      HexWordAt(ws, k);
      GroupOfRecord(count, data, sum, k);
      WordReadBack(ws[k]);
    }
  }

  /** The k-th four-character field after the type is the k-th group of the data. */
  lemma GroupOfRecord(count: string, data: string, sum: string, k: nat)
    requires |count| == 2 && |sum| == 2 && 4 * k + 4 <= |data|
    ensures var r := ":" + count + "000000" + data + sum;
            9 + 4 * k <= |r| && Field(r, 9 + 4 * k, 4) == data[4 * k .. 4 * k + 4]
  {
    var r := ":" + count + "000000" + data + sum;
    assert r == (":" + count + "000000") + data + sum;
    assert |":" + count + "000000"| == 9;
  }

  /** A word printed with `%04x` comes back as the same `short` pattern. */
  lemma WordReadBack(w: int)
    requires IsWord(w)
    ensures ToShortPattern(StrToL(FormatHex(w, 4))) == w
  {
    StrToLFormatHex(w, 4);
  }

  /** The other two records: type 04 and type 01, both readable. */
  lemma FixedRecordsReadBack()
    ensures Readable(ExtendedAddressRecord) && RecordType(ExtendedAddressRecord) == 4
    ensures Readable(EndOfFileRecord) && RecordType(EndOfFileRecord) == 1
  {
    assert Field(ExtendedAddressRecord, 7, 2) == ['0', HexChar(4)];
    ShortHexValue(4);
    assert Field(EndOfFileRecord, 7, 2) == ['0', HexChar(1)];
    ShortHexValue(1);
  }

  /** Three records print what each prints, in order. */
  lemma DisassemblyOfThree(e: string, d: string, z: string)
    requires Readable(e) && Readable(d) && Readable(z)
    ensures AllReadable([e, d, z])
    ensures DisassemblyText([e, d, z]) == RecordOutput(e) + RecordOutput(d) + RecordOutput(z)
  {
    DisassemblyTextOfOne(e);
    DisassemblyTextOfOne(d);
    DisassemblyTextOfOne(z);
    assert [e] + [d] == [e, d] && [e, d] + [z] == [e, d, z];
    DisassemblyTextConcat([e], [d]);
    DisassemblyTextConcat([e, d], [z]);
  }

  lemma ThreeRecordsText(e: string, d: string, z: string, ws: seq<int>)
    requires Readable(e) && Readable(d) && Readable(z) && AllWords(ws)
    requires RecordType(e) == 4 && RecordType(d) == 0 && RecordType(z) == 1
    requires RecordWords(d) == ws
    ensures AllReadable([e, d, z])
    ensures DisassemblyText([e, d, z]) == WordLines(ws) + "END\n"
  {
    DisassemblyOfThree(e, d, z);
    calc {
      DisassemblyText([e, d, z]);
      RecordOutput(e) + RecordOutput(d) + RecordOutput(z);
      { OutputOfTypes(e, d, z, ws); }
      [] + WordLines(ws) + "END\n";
      { assert [] + WordLines(ws) == WordLines(ws); }
      WordLines(ws) + "END\n";
    }
  }

  lemma OutputOfTypes(e: string, d: string, z: string, ws: seq<int>)
    requires Readable(e) && Readable(d) && Readable(z) && AllWords(ws)
    requires RecordType(e) == 4 && RecordType(d) == 0 && RecordType(z) == 1
    requires RecordWords(d) == ws
    ensures RecordOutput(e) == [] && RecordOutput(d) == WordLines(ws) && RecordOutput(z) == "END\n"
  {
  }

  /**
   * The disassembler, given the assembler's three records, prints the
   * decoded stored words and then `END`; the address record prints nothing.
   */
  lemma HexFileReadBack(ws: seq<int>, checksum: nat)
    requires AllWords(ws) && |ws| <= 9 && checksum < 0x100
    ensures AllReadable(HexFileRecords(ws, checksum))
    ensures DisassemblyText(HexFileRecords(ws, checksum)) == WordLines(ws) + "END\n"
  {
    var e, d, z := ExtendedAddressRecord, DataRecord(ws, checksum), EndOfFileRecord;
    DataRecordReadBack(ws, checksum);
    FixedRecordsReadBack();
    assert HexFileRecords(ws, checksum) == [e, d, z];
    ThreeRecordsText(e, d, z, ws);
  }

  lemma PicTableWellFormed()
    ensures TableWellFormed(PicTable())
  {
    forall i | 0 <= i < |PicTable()|
      ensures PicTable()[i].WellFormed()
    {
      assert PicTable()[i] == PicRow(i);
    }
  }

  /** The word the assembler stores for one statement, when the table knows its mnemonic. */
  function PicWord(s: Statement): Option<int> {
    StatementWord(PicTable(), s)
  }

  /** The program the assembler builds from a source with this table. */
  function PicProgram(source: seq<Statement>): (ws: seq<int>)
    ensures AllWords(ws)
  {
    ProgramWords(PicTable(), source)
  }

  /**
   * A statement whose mnemonic is in the table and whose operands fit the
   * widths of its row, so that no operand spills into a neighbouring field.
   */
  predicate Assemblable(s: Statement) {
    var m := FirstMatch(PicTable(), s.mnemonic);
    && m.Some?
    && |PicTable()[m.value].operands| <= 2
    && Fits(PicTable()[m.value], OperandSlots(PicTable()[m.value], s.operands))
  }

  /** The values of the declared operand slots of an assemblable statement. */
  function DeclaredValues(s: Statement): (vs: seq<nat>)
    requires Assemblable(s)
    ensures |vs| <= 2
  {
    var d := PicTable()[FirstMatch(PicTable(), s.mnemonic).value];
    var slots := OperandSlots(d, s.operands);
    seq(|d.operands|, j requires 0 <= j < |d.operands| => slots[j] as nat)
  }

  /** Operands written as `.` followed by a decimal number. */
  function DecimalOperands(vs: seq<nat>): (ops: seq<Operand>)
    ensures |ops| == |vs|
    ensures forall j :: 0 <= j < |vs| ==> ops[j] == Operand('.', vs[j])
  {
    seq(|vs|, j requires 0 <= j < |vs| => Operand('.', vs[j]))
  }

  /** A statement rewritten with its declared operands in decimal. */
  function Listed(s: Statement): Statement
    requires Assemblable(s)
  {
    Statement(s.mnemonic, DecimalOperands(DeclaredValues(s)))
  }

  predicate DecimalForm(s: Statement) {
    && |s.operands| <= 2
    && forall j :: 0 <= j < |s.operands| ==> s.operands[j].prefix == '.' && s.operands[j].value >= 0
  }

  /** An operand as written in the source: its prefix character, then its value in decimal. */
  function OperandSource(o: Operand): string
    requires o.value >= 0
  {
    [o.prefix] + Decimal(o.value)
  }

  /**
   * The source line of a statement with decimal operands in the syntax the
   * assembler scans: the mnemonic, one separator, then the operands, each a
   * `.` and a decimal number, separated by `,`.
   */
  function StatementText(s: Statement): string
    requires DecimalForm(s)
  {
    var ops := s.operands;
    if |ops| == 0 then s.mnemonic + "\n"
    else if |ops| == 1 then s.mnemonic + " " + OperandSource(ops[0]) + "\n"
    else s.mnemonic + " " + OperandSource(ops[0]) + "," + OperandSource(ops[1]) + "\n"
  }

  lemma RegroupOneOperand(n: string, a: string)
    ensures n + " ." + a + "\n" == n + " " + ("." + a) + "\n"
  {
  }

  lemma RegroupTwoOperands(n: string, a: string, b: string)
    ensures n + " ." + a + ",." + b + "\n" == n + " " + ("." + a) + "," + ("." + b) + "\n"
  {
  }

  /** Every line the disassembler prints is a statement in the assembler's syntax. */
  lemma LineIsStatementText(d: Decoded)
    requires |d.operands| <= 2
    ensures DecimalForm(Statement(Name(d.op), DecimalOperands(d.operands)))
    ensures Line(d) == StatementText(Statement(Name(d.op), DecimalOperands(d.operands)))
  {
    var ops := DecimalOperands(d.operands);
    if |d.operands| == 1 {
      var a := Decimal(d.operands[0]);
      assert OperandSource(ops[0]) == "." + a;
      RegroupOneOperand(Name(d.op), a);
    } else if |d.operands| == 2 {
      var a, b := Decimal(d.operands[0]), Decimal(d.operands[1]);
      assert OperandSource(ops[0]) == "." + a;
      assert OperandSource(ops[1]) == "." + b;
      RegroupTwoOperands(Name(d.op), a, b);
    }
  }

  /**
   * One statement through both programs: its word, stored swapped, is
   * swapped back and decoded to the statement with its operands in decimal,
   * and that line assembles to the same word again.
   */
  lemma StatementRoundTrip(s: Statement)
    requires Assemblable(s)
    ensures PicWord(s).Some? && DecimalForm(Listed(s))
    ensures WordLine(PicWord(s).value) == StatementText(Listed(s))
    ensures PicWord(Listed(s)) == PicWord(s)
  {
    PicTableWellFormed();
    var i := FirstMatch(PicTable(), s.mnemonic).value;
    var d := PicTable()[i];
    var slots := OperandSlots(d, s.operands);
    var e := Encode(d, slots);
    DecodeEncode(i, slots);
    var r := Decode(e).value;
    SwapInvolution(e);
    assert PicWord(s) == Some(Swap(e));
    assert WordLine(Swap(e)) == Line(r);
    var vs := DeclaredValues(s);
    assert r.operands == vs;
    LineIsStatementText(r);
    var listedSlots := OperandSlots(d, Listed(s).operands);
    EncodeReadsDeclaredSlots(d, slots, listedSlots);
  }

  lemma ListedIsDecimal(s: Statement)
    requires Assemblable(s)
    ensures DecimalForm(Listed(s))
  {
  }

  /** What the disassembler prints for a program: each statement with decimal operands. */
  function Listing(source: seq<Statement>): string
    requires forall i :: 0 <= i < |source| ==> Assemblable(source[i])
  {
    if source == [] then []
    else
      var s := source[|source| - 1];
      ListedIsDecimal(s);
      Listing(source[..|source| - 1]) + StatementText(Listed(s))
  }

  /** The words of an assemblable program decode to its listing, line by line. */
  lemma {:induction false} ProgramListing(source: seq<Statement>)
    requires forall i :: 0 <= i < |source| ==> Assemblable(source[i])
    ensures WordLines(PicProgram(source)) == Listing(source)
  {
    if source != [] {
      var n := |source|;
      var p, s := source[..n - 1], source[n - 1];
      ProgramListing(p);
      StatementRoundTrip(s);
      var ws, w := PicProgram(p), PicWord(s).value;
      assert PicProgram(source) == ws + [w];
      assert (ws + [w])[..|ws|] == ws;
    }
  }

  /** The listing, assembled again, gives back the same program. */
  lemma {:induction false} ListingReassembles(source: seq<Statement>)
    requires forall i :: 0 <= i < |source| ==> Assemblable(source[i])
    ensures PicProgram(seq(|source|, i requires 0 <= i < |source| => Listed(source[i]))) == PicProgram(source)
  {
    if source != [] {
      var n := |source|;
      var listed := seq(n, i requires 0 <= i < n => Listed(source[i]));
      var p := source[..n - 1];
      ListingReassembles(p);
      assert listed[..n - 1] == seq(n - 1, i requires 0 <= i < n - 1 => Listed(p[i]));
      StatementRoundTrip(source[n - 1]);
    }
  }

  /**
   * The whole pipeline: a source of at most nine assemblable statements is
   * assembled into a hex file whose records the disassembler reads back,
   * printing the listing of the source and then `END`.
   */
  lemma AssembleThenDisassemble(source: seq<Statement>)
    requires |source| <= 9
    requires forall i :: 0 <= i < |source| ==> Assemblable(source[i])
    ensures var ws := PicProgram(source);
            && AllReadable(HexFileRecords(ws, RecordChecksum(ws)))
            && DisassemblyText(HexFileRecords(ws, RecordChecksum(ws))) == Listing(source) + "END\n"
  {
    var ws := PicProgram(source);
    HexFileReadBack(ws, RecordChecksum(ws));
    ProgramListing(source);
  }

}
