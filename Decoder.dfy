/**
 * `fprintInstr` of disassembler.c: the hand-ordered cascade that turns one
 * instruction word of the PIC16F627A into the line of assembly it prints,
 * or into nothing.
 */
module Decoder {
  import opened Wrappers
  import opened HexText

  /** The 35 mnemonics the cascade can print, grouped as the cascade tests them. */
  datatype Op =
    | Clrw | Nop | Clrwdt | Retfie | Return | Sleep
    | Addwf | Andwf | Clrf | Comf | Decf | Decfsz | Incf | Incfsz
    | Iorwf | Movf | Movwf | Rlf | Rrf | Subwf | Swapf | Xorwf
    | Bcf | Bsf | Btfsc | Btfss
    | Call | Goto
    | Addlw | Andlw | Iorlw | Movlw | Retlw | Sublw | Xorlw

  /** The text printed for each mnemonic. */
  function Name(op: Op): string {
    match op
    case Clrw => "clrw"
    case Nop => "nop"
    case Clrwdt => "clrwdt"
    case Retfie => "retfie"
    case Return => "return"
    case Sleep => "sleep"
    case Addwf => "addwf"
    case Andwf => "andwf"
    case Clrf => "clrf"
    case Comf => "comf"
    case Decf => "decf"
    case Decfsz => "decfsz"
    case Incf => "incf"
    case Incfsz => "incfsz"
    case Iorwf => "iorwf"
    case Movf => "movf"
    case Movwf => "movwf"
    case Rlf => "rlf"
    case Rrf => "rrf"
    case Subwf => "subwf"
    case Swapf => "swapf"
    case Xorwf => "xorwf"
    case Bcf => "bcf"
    case Bsf => "bsf"
    case Btfsc => "btfsc"
    case Btfss => "btfss"
    case Call => "call"
    case Goto => "goto"
    case Addlw => "addlw"
    case Andlw => "andlw"
    case Iorlw => "iorlw"
    case Movlw => "movlw"
    case Retlw => "retlw"
    case Sublw => "sublw"
    case Xorlw => "xorlw"
  }

  /**
   * The comparison that selects a mnemonic: `instr / unit == value`, that is
   * `(instr >> log2(unit)) == value`; unit 1 is a whole-word constant.
   */
  datatype Opcode = Opcode(value: int, unit: nat)

  /** The opcode field the cascade compares before printing each mnemonic (lines 99-248). */
  function Selector(op: Op): (s: Opcode)
    ensures s.unit >= 1
  {
    match op
    case Clrw => Opcode(0x0100, 1)
    case Nop => Opcode(0x0000, 1)
    case Clrwdt => Opcode(0x0064, 1)
    case Retfie => Opcode(0x0009, 1)
    case Return => Opcode(0x0008, 1)
    case Sleep => Opcode(0x0063, 1)
    case Addwf => Opcode(7, 0x100)
    case Andwf => Opcode(5, 0x100)
    case Clrf => Opcode(1, 0x100)
    case Comf => Opcode(9, 0x100)
    case Decf => Opcode(3, 0x100)
    case Decfsz => Opcode(11, 0x100)
    case Incf => Opcode(10, 0x100)
    case Incfsz => Opcode(15, 0x100)
    case Iorwf => Opcode(4, 0x100)
    case Movf => Opcode(8, 0x100)
    case Movwf => Opcode(0, 0x100)
    case Rlf => Opcode(13, 0x100)
    case Rrf => Opcode(12, 0x100)
    case Subwf => Opcode(2, 0x100)
    case Swapf => Opcode(14, 0x100)
    case Xorwf => Opcode(6, 0x100)
    case Bcf => Opcode(4, 0x400)
    case Bsf => Opcode(5, 0x400)
    case Btfsc => Opcode(6, 0x400)
    case Btfss => Opcode(7, 0x400)
    case Call => Opcode(4, 0x800)
    case Goto => Opcode(5, 0x800)
    case Addlw => Opcode(0x1f, 0x200)
    case Andlw => Opcode(0x39, 0x100)
    case Iorlw => Opcode(0x38, 0x100)
    case Movlw => Opcode(0xc, 0x400)
    case Retlw => Opcode(0xd, 0x400)
    case Sublw => Opcode(0x1e, 0x200)
    case Xorlw => Opcode(0x3a, 0x100)
  }

  /**
   * The number of values each printed operand can take, one entry per
   * operand: f below 0x80 (FMASK), d below 2 (DMASK), b below 8 (BMASK),
   * k below 0x800 (KMASKL) or 0x100 (KMASKS).
   */
  function Limits(op: Op): (ls: seq<nat>)
    ensures |ls| <= 2
    ensures forall j :: 0 <= j < |ls| ==> ls[j] >= 2
  {
    match op
    case Clrw | Nop | Clrwdt | Retfie | Return | Sleep => []
    case Clrf | Movwf => [0x80]
    case Bcf | Bsf | Btfsc | Btfss => [0x80, 8]
    case Call | Goto => [0x800]
    case Addlw | Andlw | Iorlw | Movlw | Retlw | Sublw | Xorlw => [0x100]
    case _ => [0x80, 2]
  }

  /** One decoded instruction: the mnemonic and the operands printed after it. */
  datatype Decoded = Decoded(op: Op, operands: seq<nat>)

  /** The operands have the number and the ranges the mnemonic prints. */
  predicate Shaped(d: Decoded) {
    && |d.operands| == |Limits(d.op)|
    && (|d.operands| >= 1 ==> d.operands[0] < Limits(d.op)[0])
    && (|d.operands| == 2 ==> d.operands[1] < Limits(d.op)[1])
  }

  /**
   * d is a reading of instr: the opcode field holds the mnemonic's value, the
   * first operand is the word's low bits and a second operand starts at bit 7.
   */
  predicate Reads(instr: int, d: Decoded) {
    && Shaped(d)
    && instr / Selector(d.op).unit == Selector(d.op).value
    && (|d.operands| >= 1 ==> d.operands[0] == instr % Limits(d.op)[0])
    && (|d.operands| == 2 ==> d.operands[1] == instr / 0x80 % Limits(d.op)[1])
  }

  /** The six words printed as operand-less constants (lines 99-104). */
  predicate IsConstantWord(instr: int) {
    instr == 0x0100 || instr == 0x0000 || instr == 0x0064 ||
    instr == 0x0009 || instr == 0x0008 || instr == 0x0063
  }

  /**
   * The words for which the cascade prints a line: 0..0x3FFF without the
   * unassigned block 0x3B00..0x3BFF of group 3.
   */
  predicate Decodable(instr: int) {
    0 <= instr < 0x4000 && !(0x3B00 <= instr < 0x3C00)
  }

  /**
   * The mnemonic each value of `instr >> 8` selects in group 0, tested in
   * the code's order; the sixteen tests cover all sixteen values, so the
   * last (`== 6`) never fails.
   */
  function ByteOp(g: int): Op
    requires 0 <= g < 16
  {
    if g == 7 then Addwf
    else if g == 5 then Andwf
    else if g == 1 then Clrf
    else if g == 9 then Comf
    else if g == 3 then Decf
    else if g == 11 then Decfsz
    else if g == 10 then Incf
    else if g == 15 then Incfsz
    else if g == 4 then Iorwf
    else if g == 8 then Movf
    else if g == 0 then Movwf
    else if g == 13 then Rlf
    else if g == 12 then Rrf
    else if g == 2 then Subwf
    else if g == 14 then Swapf
    else Xorwf
  }

  /**
   * Case 0x0 (lines 107-186): byte-oriented file register operations, tested
   * on `instr >> 8`; `f = instr & FMASK`, and `d = (instr >> 7) & DMASK` for
   * every mnemonic but `clrf` and `movwf`, which do not look at bit 7.
   */
  function ByteOriented(instr: int): (r: Option<Decoded>)
    requires 0 <= instr < 0x1000
    ensures r.Some? && 1 <= |r.value.operands| <= 2
  {
    var g := instr / 0x100;
    var f := instr % 0x80;
    if g == 1 || g == 0 then Some(Decoded(ByteOp(g), [f]))
    else Some(Decoded(ByteOp(g), [f, instr / 0x80 % 2]))
  }

  /** Case 0x1 (lines 187-208): bit-oriented operations, tested on `instr >> 10`. */
  function BitOriented(instr: int): (r: Option<Decoded>)
    requires 0x1000 <= instr < 0x2000
    ensures r.Some? && |r.value.operands| == 2
  {
    var f := instr % 0x80;
    var b := instr / 0x80 % 8;
    if instr / 0x400 == 4 then Some(Decoded(Bcf, [f, b]))
    else if instr / 0x400 == 5 then Some(Decoded(Bsf, [f, b]))
    else if instr / 0x400 == 6 then Some(Decoded(Btfsc, [f, b]))
    else if instr / 0x400 == 7 then Some(Decoded(Btfss, [f, b]))
    else None
  }

  /** Case 0x2 (lines 209-219): `call` and `goto`, tested on `instr >> 11`. */
  function Control(instr: int): (r: Option<Decoded>)
    requires 0x2000 <= instr < 0x3000
    ensures r.Some? && |r.value.operands| == 1
  {
    var k := instr % 0x800;
    if instr / 0x800 == 4 then Some(Decoded(Call, [k]))
    else if instr / 0x800 == 5 then Some(Decoded(Goto, [k]))
    else None
  }

  /**
   * Case 0x3 (lines 220-249): literal operations, tested in the code's order;
   * the block 0x3B00..0x3BFF matches no test.
   */
  function Literal(instr: int): (r: Option<Decoded>)
    requires 0x3000 <= instr < 0x4000
    ensures r.Some? <==> !(0x3B00 <= instr < 0x3C00)
    ensures r.Some? ==> |r.value.operands| == 1
  {
    var k := instr % 0x100;
    if instr / 0x200 == 0x1f then Some(Decoded(Addlw, [k]))
    else if instr / 0x100 == 0x39 then Some(Decoded(Andlw, [k]))
    else if instr / 0x100 == 0x38 then Some(Decoded(Iorlw, [k]))
    else if instr / 0x400 == 0xc then Some(Decoded(Movlw, [k]))
    else if instr / 0x400 == 0xd then Some(Decoded(Retlw, [k]))
    else if instr / 0x200 == 0x1e then Some(Decoded(Sublw, [k]))
    else if instr / 0x100 == 0x3a then Some(Decoded(Xorlw, [k]))
    else None
  }

  /**
   * `fprintInstr(instr)` (lines 96-255): the six constants first, then the
   * switch on `instr >> 12`. A negative `instr` (a `short` with bit 15 set)
   * and every word from 0x4000 on reach `default` and print nothing.
   */
  function Decode(instr: int): (r: Option<Decoded>)
    ensures r.Some? <==> Decodable(instr)
    ensures r.Some? ==> |r.value.operands| <= 2
    ensures r.Some? && r.value.operands == [] <==> IsConstantWord(instr)
  {
    if instr == 0x0100 then Some(Decoded(Clrw, []))
    else if instr == 0x0000 then Some(Decoded(Nop, []))
    else if instr == 0x0064 then Some(Decoded(Clrwdt, []))
    else if instr == 0x0009 then Some(Decoded(Retfie, []))
    else if instr == 0x0008 then Some(Decoded(Return, []))
    else if instr == 0x0063 then Some(Decoded(Sleep, []))
    else if instr / 0x1000 == 0 then ByteOriented(instr)
    else if instr / 0x1000 == 1 then BitOriented(instr)
    else if instr / 0x1000 == 2 then Control(instr)
    else if instr / 0x1000 == 3 then Literal(instr)
    else None
  }

  /** Each byte-oriented word is read with the opcode in bits 8-11 and in-range operands. */
  lemma ByteOrientedReads(instr: int)
    requires 0 <= instr < 0x1000
    ensures Reads(instr, ByteOriented(instr).value)
    ensures Selector(ByteOriented(instr).value.op) == Opcode(instr / 0x100, 0x100)
  {
  }

  /** Each bit-oriented word is read with the opcode in bits 10-13. */
  lemma BitOrientedReads(instr: int)
    requires 0x1000 <= instr < 0x2000
    ensures Reads(instr, BitOriented(instr).value)
    ensures Selector(BitOriented(instr).value.op) == Opcode(instr / 0x400, 0x400)
  {
  }

  /** `call` and `goto` are read with the opcode in bits 11-13. */
  lemma ControlReads(instr: int)
    requires 0x2000 <= instr < 0x3000
    ensures Reads(instr, Control(instr).value)
    ensures Selector(Control(instr).value.op) == Opcode(instr / 0x800, 0x800)
  {
  }

  /** Each printed literal word is read with its own opcode and an 8-bit literal. */
  lemma LiteralReads(instr: int)
    requires 0x3000 <= instr < 0x4000 && Literal(instr).Some?
    ensures Reads(instr, Literal(instr).value)
  {
  }

  /**
   * Whatever the cascade prints is a reading of the word: the opcode field
   * holds the mnemonic's value and every operand is in range.
   */
  lemma DecodeReads(instr: int)
    requires Decode(instr).Some?
    ensures Reads(instr, Decode(instr).value)
  {
    if IsConstantWord(instr) {
    } else if instr / 0x1000 == 0 {
      ByteOrientedReads(instr);
    } else if instr / 0x1000 == 1 {
      BitOrientedReads(instr);
    } else if instr / 0x1000 == 2 {
      ControlReads(instr);
    } else {
      LiteralReads(instr);
    }
  }

  /**
   * The constants are tested before the groups: 0x0100 prints `clrw`
   * although the byte-oriented group alone would print it as `clrf .0`.
   */
  lemma ConstantsShadowGroupZero()
    ensures ByteOriented(0x0100) == Some(Decoded(Clrf, [0]))
    ensures Decode(0x0100) == Some(Decoded(Clrw, []))
    ensures forall w :: IsConstantWord(w) ==> ByteOriented(w).value.op == Movwf || w == 0x0100
    ensures forall w :: IsConstantWord(w) ==> Decode(w).value.op != Movwf
  {
  }

  /**
   * Within group 0, the 16 values of `instr >> 8` give 16 different
   * mnemonics: two words with different opcode fields never print the same
   * name.
   */
  lemma ByteOrientedDistinct(a: int, b: int)
    requires 0 <= a < 0x1000 && 0 <= b < 0x1000
    requires a / 0x100 != b / 0x100
    ensures ByteOriented(a).value.op != ByteOriented(b).value.op
  {
  }

  /** Whether a string is one line: it ends in its only newline. */
  predicate OneLine(s: string) {
    |s| >= 1 && s[|s| - 1] == '\n' && forall i :: 0 <= i < |s| - 1 ==> s[i] != '\n'
  }

  /** Lower-case letters only, as every mnemonic is. */
  predicate IsWordText(s: string) {
    forall i :: 0 <= i < |s| ==> 'a' <= s[i] <= 'z'
  }

  lemma NameIsWordText(op: Op)
    ensures |Name(op)| >= 3 && IsWordText(Name(op))
  {
    if op in {Clrw, Nop, Clrwdt, Retfie, Return, Sleep} {
      ConstantNamesAreWords(op);
    } else if op in {Addwf, Andwf, Clrf, Comf, Decf, Decfsz, Incf, Incfsz} {
      ByteNamesAreWords(op);
    } else if op in {Iorwf, Movf, Movwf, Rlf, Rrf, Subwf, Swapf, Xorwf} {
      MoreByteNamesAreWords(op);
    } else if op in {Bcf, Bsf, Btfsc, Btfss, Call, Goto} {
      BitAndControlNamesAreWords(op);
    } else {
      LiteralNamesAreWords(op);
    }
  }

  lemma ConstantNamesAreWords(op: Op)
    requires op in {Clrw, Nop, Clrwdt, Retfie, Return, Sleep}
    ensures |Name(op)| >= 3 && IsWordText(Name(op))
  {
  }

  lemma ByteNamesAreWords(op: Op)
    requires op in {Addwf, Andwf, Clrf, Comf, Decf, Decfsz, Incf, Incfsz}
    ensures |Name(op)| >= 3 && IsWordText(Name(op))
  {
  }

  lemma MoreByteNamesAreWords(op: Op)
    requires op in {Iorwf, Movf, Movwf, Rlf, Rrf, Subwf, Swapf, Xorwf}
    ensures |Name(op)| >= 3 && IsWordText(Name(op))
  {
  }

  lemma BitAndControlNamesAreWords(op: Op)
    requires op in {Bcf, Bsf, Btfsc, Btfss, Call, Goto}
    ensures |Name(op)| >= 3 && IsWordText(Name(op))
  {
  }

  lemma LiteralNamesAreWords(op: Op)
    requires op in {Addlw, Andlw, Iorlw, Movlw, Retlw, Sublw, Xorlw}
    ensures |Name(op)| >= 3 && IsWordText(Name(op))
  {
  }

  /**
   * The three line forms: `name .x,.y`, `name .x` and `name`, operands in
   * decimal (`"%s .%d,.%d\n"`, `"%s .%d\n"`, `"%s\n"`).
   */
  function Line(d: Decoded): (s: string)
    requires |d.operands| <= 2
  {
    if |d.operands| == 0 then Name(d.op) + "\n"
    else if |d.operands| == 1 then Name(d.op) + " ." + Decimal(d.operands[0]) + "\n"
    else Name(d.op) + " ." + Decimal(d.operands[0]) + ",." + Decimal(d.operands[1]) + "\n"
  }

  /** The number of times c occurs in s. */
  function Count(s: string, c: char): nat {
    if s == [] then 0 else Count(s[..|s| - 1], c) + (if s[|s| - 1] == c then 1 else 0)
  }

  lemma {:induction false} CountConcat(a: string, b: string, c: char)
    ensures Count(a + b, c) == Count(a, c) + Count(b, c)
  {
    if b == [] {
      assert a + b == a;
    } else {
      assert (a + b)[..|a + b| - 1] == a + b[..|b| - 1];
      CountConcat(a, b[..|b| - 1], c);
    }
  }

  lemma {:induction false} CountAbsent(s: string, c: char)
    requires forall i :: 0 <= i < |s| ==> s[i] != c
    ensures Count(s, c) == 0
  {
    if s != [] {
      CountAbsent(s[..|s| - 1], c);
    }
  }

  /**
   * Every line the cascade prints is a single line that starts with the
   * mnemonic and carries one `.` per operand and one `,` between two
   * operands.
   */
  lemma LineForm(d: Decoded)
    requires |d.operands| <= 2
    ensures OneLine(Line(d))
    ensures Line(d)[..|Name(d.op)|] == Name(d.op)
    ensures Count(Line(d), '.') == |d.operands|
    ensures Count(Line(d), ',') == if |d.operands| == 2 then 1 else 0
  {
    var name := Name(d.op);
    if |d.operands| == 0 {
      assert Line(d) == name + [] + "\n";
      LineOfPieces(d, []);
    } else if |d.operands| == 1 {
      var x := OperandText(" .", d.operands[0]);
      RegroupOne(name, " .", Decimal(d.operands[0]));
      LineOfPieces(d, x);
    } else {
      var x := OperandText(" .", d.operands[0]);
      var y := OperandText(",.", d.operands[1]);
      CountConcat(x, y, '.');
      CountConcat(x, y, ',');
      RegroupTwo(name, " .", Decimal(d.operands[0]), ",.", Decimal(d.operands[1]));
      LineOfPieces(d, x + y);
    }
  }

  /** A line made of the mnemonic, operand text `rest` and the newline. */
  lemma LineOfPieces(d: Decoded, rest: string)
    requires |d.operands| <= 2
    requires Line(d) == Name(d.op) + rest + "\n"
    requires forall i :: 0 <= i < |rest| ==> rest[i] != '\n'
    requires Count(rest, '.') == |d.operands|
    requires Count(rest, ',') == if |d.operands| == 2 then 1 else 0
    ensures OneLine(Line(d))
    ensures Line(d)[..|Name(d.op)|] == Name(d.op)
    ensures Count(Line(d), '.') == |d.operands|
    ensures Count(Line(d), ',') == if |d.operands| == 2 then 1 else 0
  {
    var name := Name(d.op);
    NameIsWordText(d.op);
    CountAbsent(name, '.');
    CountAbsent(name, ',');
    LinePieces(name, rest, '.');
    LinePieces(name, rest, ',');
  }

  lemma RegroupOne(name: string, lead: string, x: string)
    ensures name + lead + x + "\n" == name + (lead + x) + "\n"
  {
  }

  lemma RegroupTwo(name: string, lead: string, x: string, sep: string, y: string)
    ensures name + lead + x + sep + y + "\n" == name + ((lead + x) + (sep + y)) + "\n"
  {
  }

  /** One printed operand: its two-character lead-in, then its decimal digits. */
  lemma OperandText(lead: string, n: nat) returns (t: string)
    requires lead == " ." || lead == ",."
    ensures t == lead + Decimal(n)
    ensures forall i :: 0 <= i < |t| ==> t[i] != '\n'
    ensures Count(t, '.') == 1
    ensures Count(t, ',') == if lead == ",." then 1 else 0
  {
    t := lead + Decimal(n);
    CountAbsent(Decimal(n), '.');
    CountAbsent(Decimal(n), ',');
    CountConcat(lead, Decimal(n), '.');
    CountConcat(lead, Decimal(n), ',');
    CountOfPair(lead[0], lead[1], '.');
    CountOfPair(lead[0], lead[1], ',');
    assert lead == [lead[0], lead[1]];
  }

  lemma CountOfPair(a: char, b: char, c: char)
    ensures Count([a, b], c) == (if a == c then 1 else 0) + (if b == c then 1 else 0)
  {
    assert [a, b][..1] == [a];
    assert [a][..0] == [];
    assert Count([a], c) == (if a == c then 1 else 0);
  }

  /** The counting and line shape of `name + rest + "\n"`. */
  lemma LinePieces(name: string, rest: string, c: char)
    requires c != '\n'
    requires forall i :: 0 <= i < |name| ==> name[i] != '\n'
    requires forall i :: 0 <= i < |rest| ==> rest[i] != '\n'
    ensures OneLine(name + rest + "\n")
    ensures (name + rest + "\n")[..|name|] == name
    ensures Count(name + rest + "\n", c) == Count(name, c) + Count(rest, c)
  {
    CountConcat(name + rest, "\n", c);
    CountConcat(name, rest, c);
    assert Count("\n", c) == 0 by {
      assert "\n"[..0] == [];
    }
  }

  /** What `fprintInstr(instr)` writes: one line, or nothing. */
  function DecodeLine(instr: int): (s: string)
    ensures s == [] <==> !Decodable(instr)
  {
    match Decode(instr)
    case None => []
    case Some(d) => Line(d)
  }

  /** Whatever the cascade prints is exactly one line. */
  lemma DecodeLineIsOneLine(instr: int)
    requires Decodable(instr)
    ensures OneLine(DecodeLine(instr))
  {
    LineForm(Decode(instr).value);
  }

  /** Every word of groups 0 to 2 prints exactly one line. */
  lemma LowGroupsCovered(instr: int)
    requires 0 <= instr < 0x3000
    ensures OneLine(DecodeLine(instr))
  {
    DecodeLineIsOneLine(instr);
  }

  /**
   * Nothing is printed for the unassigned literal block, for words from
   * 0x4000 on and for negative values.
   */
  lemma SilentWords(instr: int)
    requires 0x3B00 <= instr < 0x3C00 || instr >= 0x4000 || instr < 0
    ensures DecodeLine(instr) == []
  {
  }

}
