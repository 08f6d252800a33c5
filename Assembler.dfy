/**
 * The main loop of assembler.c and the hex file it writes: one swapped word
 * per recognised statement, the running checksum, and the three records
 * (extended linear address, data, end of file) of the Intel HEX format.
 */
module Assembler {
  import opened Wrappers
  import opened Words
  import opened HexText
  import opened Encoder

  /** `checksum` is an `unsigned int`: every `+=` wraps modulo 2^32. */
  const ChecksumModulus: int := 0x1_0000_0000

  /** The sum of both bytes of every word (lines 151 and 155, before wrapping). */
  function ByteSum(ws: seq<int>): (s: nat)
    requires AllWords(ws)
    ensures s <= 510 * |ws|
  {
    if ws == [] then 0 else ByteSum(ws[..|ws| - 1]) + Low(ws[|ws| - 1]) + High(ws[|ws| - 1])
  }

  function SwapAll(ws: seq<int>): (r: seq<int>)
    requires AllWords(ws)
    ensures |r| == |ws| && AllWords(r)
    ensures forall i :: 0 <= i < |ws| ==> r[i] == Swap(ws[i])
  {
    seq(|ws|, i requires 0 <= i < |ws| => Swap(ws[i]))
  }

  /** The checksum cannot tell whether the words were swapped. */
  lemma {:induction false} ByteSumOfSwapped(ws: seq<int>)
    requires AllWords(ws)
    ensures ByteSum(SwapAll(ws)) == ByteSum(ws)
  {
    if ws != [] {
      var n := |ws|;
      assert SwapAll(ws)[..n - 1] == SwapAll(ws[..n - 1]);
      ByteSumOfSwapped(ws[..n - 1]);
      SwapKeepsByteSum(ws[n - 1]);
    }
  }

  /**
   * Lines 166-168: `checksum = ~checksum; checksum += 1; checksum &= 0xff`,
   * the two's complement of the accumulated sum's low byte.
   */
  function FinishChecksum(acc: int): (c: int)
    requires 0 <= acc < ChecksumModulus
    ensures 0 <= c < 0x100
    ensures (acc + c) % 0x100 == 0
  {
    ((ChecksumModulus - 1 - acc) + 1) % ChecksumModulus % 0x100
  }

  /**
   * The checksum byte of the data record for the stored words ws: the sum of
   * their bytes plus the byte count `2 * numWords`, finished as above.
   */
  function RecordChecksum(ws: seq<int>): (c: int)
    requires AllWords(ws)
    ensures 0 <= c < 0x100
    ensures (ByteSum(ws) + 2 * |ws| + c) % 0x100 == 0
  {
    var total := ByteSum(ws) + 2 * |ws|;
    var acc := total % ChecksumModulus;
    WrapKeepsLowByte(total);
    var c := FinishChecksum(acc);
    SameLowByte(acc, total, c);
    c
  }

  /** Numbers with the same low byte keep it equal after adding the same c. */
  lemma SameLowByte(a: int, b: int, c: int)
    requires a % 0x100 == b % 0x100
    ensures (a + c) % 0x100 == (b + c) % 0x100
  {
    var qa, qb := a / 0x100, b / 0x100;
    assert a == 0x100 * qa + a % 0x100;
    assert b == 0x100 * qb + b % 0x100;
    assert a + c == 0x100 * (qa - qb) + (b + c);
    ByteOfMultiple(qa - qb, b + c);
  }

  /** Wrapping modulo 2^32 leaves the low byte alone. */
  lemma WrapKeepsLowByte(x: int)
    ensures x % ChecksumModulus % 0x100 == x % 0x100
  {
    var q, r := x / ChecksumModulus, x % ChecksumModulus;
    var m := 0x100_0000 * q;
    assert x == 0x100 * m + r;
    ByteOfMultiple(m, r);
  }

  lemma ByteOfMultiple(m: int, r: int)
    ensures (0x100 * m + r) % 0x100 == r % 0x100
  {
  }

  /**
   * The word stored for one statement: the encoding of the first descriptor
   * named like its mnemonic, byte-swapped; None for an unknown mnemonic.
   */
  function StatementWord(table: seq<Descriptor>, s: Statement): (r: Option<int>)
    requires TableWellFormed(table)
    ensures r.Some? <==> FirstMatch(table, s.mnemonic).Some?
    ensures r.Some? ==> IsWord(r.value)
  {
    match FirstMatch(table, s.mnemonic)
    case None => None
    case Some(i) =>
      var d := table[i];
      Some(Swap(Encode(d, OperandSlots(d, s.operands))))
  }

  /** `finalProgramWord[0..numWords]` after the whole source has been read. */
  function ProgramWords(table: seq<Descriptor>, source: seq<Statement>): (ws: seq<int>)
    requires TableWellFormed(table)
    ensures AllWords(ws) && |ws| <= |source|
  {
    if source == [] then []
    else Append(ProgramWords(table, source[..|source| - 1]), StatementWord(table, source[|source| - 1]))
  }

  /** The stored words after one more statement: its word appended, when it has one. */
  function Append(ws: seq<int>, word: Option<int>): (r: seq<int>)
    requires AllWords(ws) && (word.Some? ==> IsWord(word.value))
    ensures AllWords(r) && |r| <= |ws| + 1
  {
    match word
    case None => ws
    case Some(w) => ws + [w]
  }

  /** Words are appended in source order: the program of a + b is that of a, then that of b. */
  lemma {:induction false} ProgramWordsConcat(table: seq<Descriptor>, a: seq<Statement>, b: seq<Statement>)
    requires TableWellFormed(table)
    ensures ProgramWords(table, a + b) == ProgramWords(table, a) + ProgramWords(table, b)
  {
    if b == [] {
      assert a + b == a;
    } else {
      var n := |b|;
      assert (a + b)[..|a + b| - 1] == a + b[..n - 1];
      assert (a + b)[|a + b| - 1] == b[n - 1];
      ProgramWordsConcat(table, a, b[..n - 1]);
    }
  }

  /**
   * An unknown mnemonic produces no word and assembly goes on: the statement
   * can be removed without changing the program.
   */
  lemma UnknownMnemonicSkipped(table: seq<Descriptor>, a: seq<Statement>, s: Statement, b: seq<Statement>)
    requires TableWellFormed(table)
    requires FirstMatch(table, s.mnemonic).None?
    ensures ProgramWords(table, a + [s] + b) == ProgramWords(table, a + b)
  {
    ProgramWordsConcat(table, a + [s], b);
    ProgramWordsConcat(table, a, [s]);
    ProgramWordsConcat(table, a, b);
    assert [s][..0] == [];
  }

  /**
   * When every mnemonic is known, the program has exactly one word per
   * statement, the i-th word being that of the i-th statement.
   */
  lemma {:induction false} RecognisedProgram(table: seq<Descriptor>, source: seq<Statement>)
    requires TableWellFormed(table)
    requires forall i :: 0 <= i < |source| ==> FirstMatch(table, source[i].mnemonic).Some?
    ensures |ProgramWords(table, source)| == |source|
    ensures forall i :: 0 <= i < |source| ==> Some(ProgramWords(table, source)[i]) == StatementWord(table, source[i])
  {
    if source != [] {
      var n := |source|;
      var p, s := source[..n - 1], source[n - 1];
      assert forall i :: 0 <= i < |p| ==> p[i] == source[i];
      RecognisedProgram(table, p);
      var w := StatementWord(table, s);
      assert ProgramWords(table, source) == ProgramWords(table, p) + [w.value];
      forall i | 0 <= i < n
        ensures Some(ProgramWords(table, source)[i]) == StatementWord(table, source[i])
      {
        if i < n - 1 {
          assert ProgramWords(table, source)[i] == ProgramWords(table, p)[i];
        }
      }
    }
  }

  lemma WrapAddLeft(a: int, b: int)
    ensures (a % ChecksumModulus + b) % ChecksumModulus == (a + b) % ChecksumModulus
  {
  }

  /** Adding both bytes of one more word, each addition wrapping, keeps the running sum. */
  lemma ChecksumStep(acc: int, ws: seq<int>, w: int)
    requires AllWords(ws) && IsWord(w)
    requires acc == ByteSum(ws) % ChecksumModulus
    ensures ((acc + Low(w)) % ChecksumModulus + High(w)) % ChecksumModulus == ByteSum(ws + [w]) % ChecksumModulus
  {
    assert (ws + [w])[..|ws|] == ws;
    assert ByteSum(ws + [w]) == ByteSum(ws) + Low(w) + High(w);
    WrapAddLeft(ByteSum(ws), Low(w));
    WrapAddLeft(ByteSum(ws) + Low(w), High(w));
  }

  /** Lines 162-168 turn the running sum into the record checksum. */
  lemma FinishStep(acc: int, ws: seq<int>)
    requires AllWords(ws)
    requires acc == ByteSum(ws) % ChecksumModulus
    ensures ((ChecksumModulus - 1 - (acc + |ws| * 2) % ChecksumModulus) + 1) % ChecksumModulus % 0x100
            == RecordChecksum(ws)
  {
    WrapAddLeft(ByteSum(ws), |ws| * 2);
  }

  /** One more statement appends its word, if it has one. */
  lemma ProgramWordsStep(table: seq<Descriptor>, source: seq<Statement>, k: nat)
    requires TableWellFormed(table) && k < |source|
    ensures ProgramWords(table, source[..k + 1]) ==
      Append(ProgramWords(table, source[..k]), StatementWord(table, source[k]))
  {
    assert source[..k + 1][..k] == source[..k];
  }

  /**
   * Lines 105-160, one pass of the main loop: reset the operand slots, look
   * the mnemonic up and, when it is known, encode, swap, append the word and
   * add both of its bytes to the checksum. An unknown mnemonic changes
   * nothing.
   */
  method AssembleStatement(table: seq<Descriptor>, statement: Statement,
                           words: seq<int>, count: nat, sum: int)
    returns (finalProgramWord: seq<int>, numWords: nat, checksum: int)
    requires TableWellFormed(table) && AllWords(words)
    requires count == |words| && sum == ByteSum(words) % ChecksumModulus
    ensures finalProgramWord == Append(words, StatementWord(table, statement))
    ensures numWords == |finalProgramWord|
    ensures checksum == ByteSum(finalProgramWord) % ChecksumModulus
  {
    finalProgramWord, numWords, checksum := words, count, sum;
    var operands := [0, 0];
    var index := Lookup(table, statement.mnemonic);
    if index != -1 {
      var d := table[index];
      operands := OperandSlots(d, statement.operands);
      var hexInstruction := EncodeInstruction(d, operands);
      hexInstruction := Swap(hexInstruction);
      ChecksumStep(checksum, finalProgramWord, hexInstruction);
      finalProgramWord := finalProgramWord + [hexInstruction];
      checksum := (checksum + Low(hexInstruction)) % ChecksumModulus;
      checksum := (checksum + High(hexInstruction)) % ChecksumModulus;
      numWords := numWords + 1;
    }
  }

  /**
   * Lines 104-160: read every statement, append the swapped word of each
   * recognised one to `finalProgramWord` and accumulate both of its bytes in
   * `checksum`.
   */
  method ReadSource(table: seq<Descriptor>, source: seq<Statement>)
    returns (finalProgramWord: seq<int>, numWords: nat, checksum: int)
    requires TableWellFormed(table)
    ensures finalProgramWord == ProgramWords(table, source)
    ensures numWords == |finalProgramWord|
    ensures checksum == ByteSum(finalProgramWord) % ChecksumModulus
  {
    finalProgramWord, numWords, checksum := [], 0, 0;
    for k := 0 to |source|
      invariant finalProgramWord == ProgramWords(table, source[..k])
      invariant numWords == |finalProgramWord|
      invariant checksum == ByteSum(finalProgramWord) % ChecksumModulus
    {
      ProgramWordsStep(table, source, k);
      finalProgramWord, numWords, checksum :=
        AssembleStatement(table, source[k], finalProgramWord, numWords, checksum);
    }
    assert source[..|source|] == source;
  }

  /**
   * Lines 104-168: the words of the whole source, then the byte count is
   * added to the running sum and the checksum finished.
   */
  method AssembleProgram(table: seq<Descriptor>, source: seq<Statement>)
    returns (finalProgramWord: seq<int>, numWords: nat, checksum: int)
    requires TableWellFormed(table)
    ensures finalProgramWord == ProgramWords(table, source)
    ensures numWords == |finalProgramWord|
    ensures 0 <= checksum < 0x100
    ensures (ByteSum(finalProgramWord) + 2 * numWords + checksum) % 0x100 == 0
    ensures checksum == RecordChecksum(finalProgramWord)
  {
    finalProgramWord, numWords, checksum := ReadSource(table, source);
    FinishStep(checksum, finalProgramWord);
    checksum := (checksum + numWords * 2) % ChecksumModulus;
    checksum := ChecksumModulus - 1 - checksum;
    checksum := (checksum + 1) % ChecksumModulus;
    checksum := checksum % 0x100;
  }

  /** Line 182: the extended linear address record, upper address 0x0000. */
  const ExtendedAddressRecord: string := ":020000040000fa"

  /** Line 191: the end of file record. */
  const EndOfFileRecord: string := ":00000001ff"

  /** Lines 186-188: every stored word as `%04x`. */
  function HexWords(ws: seq<int>): string
    requires AllWords(ws)
  {
    if ws == [] then [] else HexWords(ws[..|ws| - 1]) + FormatHex(ws[|ws| - 1], 4)
  }

  /**
   * Lines 183-190: the one data record, `:`, the byte count `%02x`, address
   * `0000` and type `00`, the words, then the checksum `%02x`.
   */
  function DataRecord(ws: seq<int>, checksum: nat): string
    requires AllWords(ws)
  {
    ":" + FormatHex(2 * |ws|, 2) + "000000" + HexWords(ws) + FormatHex(checksum, 2)
  }

  function HexFileRecords(ws: seq<int>, checksum: nat): seq<string>
    requires AllWords(ws)
  {
    [ExtendedAddressRecord, DataRecord(ws, checksum), EndOfFileRecord]
  }

  /** Records written one per line. */
  function Lines(records: seq<string>): string {
    if records == [] then [] else Lines(records[..|records| - 1]) + records[|records| - 1] + "\n"
  }

  /** The whole of `hexFormatProgram.txt`. */
  function HexFileText(ws: seq<int>, checksum: nat): string
    requires AllWords(ws)
  {
    Lines(HexFileRecords(ws, checksum))
  }

  /** Lines 182-191: the `fprintf` calls that write the file, the data field in a loop. */
  method EmitHexFile(finalProgramWord: seq<int>, numWords: nat, checksum: nat) returns (text: string)
    requires AllWords(finalProgramWord) && numWords == |finalProgramWord|
    ensures text == HexFileText(finalProgramWord, checksum)
  {
    text := ExtendedAddressRecord + "\n";
    text := text + ":" + FormatHex(numWords * 2, 2);
    text := text + "000000";
    ghost var header := text;
    for i := 0 to numWords
      invariant text == header + HexWords(finalProgramWord[..i])
    {
      assert finalProgramWord[..i + 1][..i] == finalProgramWord[..i];
      text := text + FormatHex(finalProgramWord[i], 4);
    }
    assert finalProgramWord[..numWords] == finalProgramWord;
    text := text + FormatHex(checksum, 2) + "\n";
    text := text + EndOfFileRecord + "\n";
    HexFileWrittenInPieces(finalProgramWord, checksum);
  }

  lemma HexFileWrittenInPieces(ws: seq<int>, checksum: nat)
    requires AllWords(ws)
    ensures HexFileText(ws, checksum) ==
      ExtendedAddressRecord + "\n" + ":" + FormatHex(|ws| * 2, 2) + "000000" + HexWords(ws)
      + FormatHex(checksum, 2) + "\n" + EndOfFileRecord + "\n"
  {
    HexFileFraming(ws, checksum);
    Regroup(ExtendedAddressRecord, FormatHex(|ws| * 2, 2), HexWords(ws), FormatHex(checksum, 2), EndOfFileRecord);
  }

  /** Regrouping the pieces the file is written in (pure sequence associativity). */
  lemma Regroup(e: string, count: string, data: string, sum: string, z: string)
    ensures e + "\n" + ":" + count + "000000" + data + sum + "\n" + z + "\n"
            == e + "\n" + (":" + count + "000000" + data + sum) + "\n" + z + "\n"
  {
  }

  /** assembler.c without its file handling: the source in, the hex file text out. */
  method Assemble(table: seq<Descriptor>, source: seq<Statement>) returns (text: string)
    requires TableWellFormed(table)
    ensures text == HexFileText(ProgramWords(table, source), RecordChecksum(ProgramWords(table, source)))
  {
    var finalProgramWord, numWords, checksum := AssembleProgram(table, source);
    text := EmitHexFile(finalProgramWord, numWords, checksum);
  }

  lemma LinesOfThree(a: string, b: string, c: string)
    ensures Lines([a, b, c]) == a + "\n" + b + "\n" + c + "\n"
  {
    assert [a, b, c][..2] == [a, b];
    assert [a, b][..1] == [a];
    assert [a][..0] == [];
    assert Lines([a]) == a + "\n";
    assert Lines([a, b]) == a + "\n" + b + "\n";
  }

  /**
   * Whatever the program, the file opens with the extended linear address
   * record and closes with the end of file record, one data record between.
   */
  lemma HexFileFraming(ws: seq<int>, checksum: nat)
    requires AllWords(ws)
    ensures HexFileText(ws, checksum)
            == ExtendedAddressRecord + "\n" + DataRecord(ws, checksum) + "\n" + EndOfFileRecord + "\n"
  {
    LinesOfThree(ExtendedAddressRecord, DataRecord(ws, checksum), EndOfFileRecord);
  }

  /** A source none of whose mnemonics is in the table assembles to no words. */
  lemma {:induction false} UnknownSourceIsEmpty(table: seq<Descriptor>, source: seq<Statement>)
    requires TableWellFormed(table)
    requires forall i :: 0 <= i < |source| ==> FirstMatch(table, source[i].mnemonic).None?
    ensures ProgramWords(table, source) == []
  {
    if source != [] {
      var p := source[..|source| - 1];
      assert forall i :: 0 <= i < |p| ==> p[i] == source[i];
      UnknownSourceIsEmpty(table, p);
    }
  }

  /**
   * A source with no known mnemonic still gives the three records, the data
   * record empty.
   */
  lemma EmptyProgramText(table: seq<Descriptor>, source: seq<Statement>)
    requires TableWellFormed(table)
    requires forall i :: 0 <= i < |source| ==> FirstMatch(table, source[i].mnemonic).None?
    ensures var ws := ProgramWords(table, source);
            HexFileText(ws, RecordChecksum(ws)) == ":020000040000fa\n:0000000000\n:00000001ff\n"
  {
    UnknownSourceIsEmpty(table, source);
    EmptyWordsText();
  }

  lemma EmptyWordsText()
    ensures HexFileText([], RecordChecksum([])) == ":020000040000fa\n:0000000000\n:00000001ff\n"
  {
    assert RecordChecksum([]) == 0 by {
      assert ByteSum([]) == 0;
      assert FinishChecksum(0) == 0;
    }
    assert FormatHex(0, 2) == "00" by {
      assert NumDigits(0) == 1;
    }
    assert DataRecord([], 0) == ":0000000000";
    HexFileFraming([], 0);
    EmptyFileText();
  }

  lemma EmptyFileText()
    ensures ExtendedAddressRecord + "\n" + ":0000000000" + "\n" + EndOfFileRecord + "\n"
            == ":020000040000fa\n:0000000000\n:00000001ff\n"
  {
  }

  /** The bytes of the stored words in the order the data field shows them. */
  function DataBytes(ws: seq<int>): (bs: seq<nat>)
    requires AllWords(ws)
    ensures |bs| == 2 * |ws|
    ensures forall i :: 0 <= i < |bs| ==> bs[i] < 0x100
  {
    if ws == [] then [] else DataBytes(ws[..|ws| - 1]) + [High(ws[|ws| - 1]), Low(ws[|ws| - 1])]
  }

  function Sum(bs: seq<nat>): nat {
    if bs == [] then 0 else Sum(bs[..|bs| - 1]) + bs[|bs| - 1]
  }

  lemma {:induction false} SumConcat(a: seq<nat>, b: seq<nat>)
    ensures Sum(a + b) == Sum(a) + Sum(b)
  {
    if b == [] {
      assert a + b == a;
    } else {
      assert (a + b)[..|a + b| - 1] == a + b[..|b| - 1];
      SumConcat(a, b[..|b| - 1]);
    }
  }

  lemma SumOfPair(h: nat, l: nat)
    ensures Sum([h, l]) == h + l
  {
    assert [h, l][..1] == [h];
    assert [h][..0] == [];
    assert Sum([h]) == h;
  }

  lemma {:induction false} SumOfDataBytes(ws: seq<int>)
    requires AllWords(ws)
    ensures Sum(DataBytes(ws)) == ByteSum(ws)
  {
    if ws != [] {
      var w := ws[|ws| - 1];
      SumOfDataBytes(ws[..|ws| - 1]);
      SumConcat(DataBytes(ws[..|ws| - 1]), [High(w), Low(w)]);
      SumOfPair(High(w), Low(w));
    }
  }

  /** Bytes as pairs of lower-case hex digits, as a record writes them. */
  function HexBytes(bs: seq<nat>): string {
    if bs == [] then [] else HexBytes(bs[..|bs| - 1]) + FixedHex(bs[|bs| - 1], 2)
  }

  lemma {:induction false} HexBytesConcat(a: seq<nat>, b: seq<nat>)
    ensures HexBytes(a + b) == HexBytes(a) + HexBytes(b)
  {
    if b == [] {
      assert a + b == a;
    } else {
      var c := b[..|b| - 1];
      assert (a + b)[..|a + b| - 1] == a + c;
      assert (a + b)[|a + b| - 1] == b[|b| - 1];
      HexBytesConcat(a, c);
      var x, y, z := HexBytes(a), HexBytes(c), FixedHex(b[|b| - 1], 2);
      assert HexBytes(a + b) == (x + y) + z;
      assert (x + y) + z == x + (y + z);
    }
  }

  lemma HexBytesOfPair(h: nat, l: nat)
    ensures HexBytes([h, l]) == FixedHex(h, 2) + FixedHex(l, 2)
  {
    assert [h, l][..1] == [h];
    assert [h][..0] == [];
    assert HexBytes([h]) == FixedHex(h, 2);
  }

  /** `%04x` of a word is `%02x` of its high byte followed by `%02x` of its low byte. */
  lemma HexOfWord(w: int)
    requires IsWord(w)
    ensures FormatHex(w, 4) == FixedHex(High(w), 2) + FixedHex(Low(w), 2)
  {
    FormatHexFits(w, 4);
    var h, l := High(w), Low(w);
    var a := w / 16;
    assert a / 16 == h && a % 16 == l / 16 && w % 16 == l % 16 by {
      WordFromBytes(w);
      DivideWord(w, h, l);
    }
    assert FixedHex(w, 4) == FixedHex(a, 3) + [HexChar(l % 16)];
    assert FixedHex(a, 3) == FixedHex(h, 2) + [HexChar(l / 16)];
    assert FixedHex(l, 2) == FixedHex(l / 16, 1) + [HexChar(l % 16)];
    assert FixedHex(l / 16, 1) == [HexChar(l / 16)] by {
      assert l / 16 / 16 == 0 && l / 16 % 16 == l / 16;
    }
  }

  lemma DivideWord(w: int, h: int, l: int)
    requires w == h * 0x100 + l && 0 <= h && 0 <= l < 0x100
    ensures w / 16 == 16 * h + l / 16 && w % 16 == l % 16
    ensures (w / 16) / 16 == h && (w / 16) % 16 == l / 16
  {
    assert w == 16 * (16 * h + l / 16) + l % 16;
  }

  lemma {:induction false} HexWordsAreHexBytes(ws: seq<int>)
    requires AllWords(ws)
    ensures HexWords(ws) == HexBytes(DataBytes(ws))
  {
    if ws != [] {
      var p, w := ws[..|ws| - 1], ws[|ws| - 1];
      calc {
        HexBytes(DataBytes(ws));
        HexBytes(DataBytes(p) + [High(w), Low(w)]);
        { HexBytesConcat(DataBytes(p), [High(w), Low(w)]); }
        HexBytes(DataBytes(p)) + HexBytes([High(w), Low(w)]);
        { HexBytesOfPair(High(w), Low(w)); HexOfWord(w); }
        HexBytes(DataBytes(p)) + FormatHex(w, 4);
        { HexWordsAreHexBytes(p); }
        HexWords(p) + FormatHex(w, 4);
      }
    }
  }

  /** The bytes of the data record: count, address (two bytes), type, data, checksum. */
  function DataRecordBytes(ws: seq<int>, checksum: nat): seq<nat>
    requires AllWords(ws)
  {
    [2 * |ws|, 0, 0, 0] + DataBytes(ws) + [checksum]
  }

  /**
   * The data record's text is `:` and the hex of its bytes, provided the byte
   * count fits in its two digits.
   */
  lemma DataRecordText(ws: seq<int>, checksum: nat)
    requires AllWords(ws) && 2 * |ws| < 0x100 && checksum < 0x100
    ensures DataRecord(ws, checksum) == ":" + HexBytes(DataRecordBytes(ws, checksum))
  {
    var head: seq<nat> := [2 * |ws|, 0, 0, 0];
    var data := DataBytes(ws);
    calc {
      HexBytes(DataRecordBytes(ws, checksum));
      HexBytes(head + data + [checksum]);
      { HexBytesConcat(head + data, [checksum]); HexBytesConcat(head, data); }
      HexBytes(head) + HexBytes(data) + HexBytes([checksum]);
      { HexOfHeader(2 * |ws|); HexWordsAreHexBytes(ws); HexOfChecksum(checksum); }
      FormatHex(2 * |ws|, 2) + "000000" + HexWords(ws) + FormatHex(checksum, 2);
    }
    RegroupRecord(FormatHex(2 * |ws|, 2), HexWords(ws), FormatHex(checksum, 2));
  }

  lemma HexOfHeader(count: nat)
    requires count < 0x100
    ensures HexBytes([count, 0, 0, 0]) == FormatHex(count, 2) + "000000"
  {
    var head: seq<nat> := [count, 0, 0, 0];
    FormatHexFits(count, 2);
    assert head[..3] == [count, 0, 0];
    assert head[..3][..2] == [count, 0];
    assert head[..3][..2][..1] == [count];
    assert head[..3][..2][..1][..0] == [];
    assert FixedHex(0, 2) == "00";
    assert HexBytes([count]) == FixedHex(count, 2);
    assert HexBytes([count, 0]) == FixedHex(count, 2) + "00";
    assert HexBytes([count, 0, 0]) == FixedHex(count, 2) + "00" + "00";
  }

  lemma HexOfChecksum(checksum: nat)
    requires checksum < 0x100
    ensures HexBytes([checksum]) == FormatHex(checksum, 2)
  {
    FormatHexFits(checksum, 2);
    assert [checksum][..0] == [];
  }

  lemma RegroupRecord(count: string, data: string, sum: string)
    ensures ":" + count + "000000" + data + sum == ":" + ((count + "000000") + data + sum)
  {
  }

  /**
   * With the checksum assembler.c computes, the bytes of the data record sum
   * to 0 modulo 256, as the Intel HEX format requires of every record.
   */
  lemma DataRecordSumsToZero(ws: seq<int>)
    requires AllWords(ws)
    ensures Sum(DataRecordBytes(ws, RecordChecksum(ws))) % 0x100 == 0
  {
    var c := RecordChecksum(ws);
    var head: seq<nat> := [2 * |ws|, 0, 0, 0];
    var data := DataBytes(ws);
    SumConcat(head + data, [c]);
    SumConcat(head, data);
    SumOfDataBytes(ws);
    assert Sum([c]) == c by {
      assert [c][..0] == [];
    }
    assert Sum(head) == 2 * |ws| by {
      assert head[..3] == [2 * |ws|, 0, 0];
      assert head[..3][..2] == [2 * |ws|, 0];
      assert head[..3][..2][..1] == [2 * |ws|];
      assert head[..3][..2][..1][..0] == [];
      assert Sum([2 * |ws|]) == 2 * |ws|;
      assert Sum([2 * |ws|, 0]) == 2 * |ws|;
      assert Sum([2 * |ws|, 0, 0]) == 2 * |ws|;
    }
  }

  /**
   * The two fixed records of lines 182 and 191 are well-formed Intel HEX
   * records: `:` and the hex of their bytes, which sum to 0 modulo 256.
   */
  lemma FixedRecordsSumToZero()
    ensures var bytes: seq<nat> := [0x02, 0x00, 0x00, 0x04, 0x00, 0x00, 0xfa];
            ExtendedAddressRecord == ":" + HexBytes(bytes) && Sum(bytes) % 0x100 == 0
    ensures var bytes: seq<nat> := [0x00, 0x00, 0x00, 0x01, 0xff];
            EndOfFileRecord == ":" + HexBytes(bytes) && Sum(bytes) % 0x100 == 0
  {
    ExtendedAddressBytes();
    EndOfFileBytes();
  }

  lemma ExtendedAddressBytes()
    ensures var bytes: seq<nat> := [0x02, 0x00, 0x00, 0x04, 0x00, 0x00, 0xfa];
            ExtendedAddressRecord == ":" + HexBytes(bytes) && Sum(bytes) % 0x100 == 0
  {
    ExtendedAddressDigits();
    ExtendedAddressSum();
  }

  lemma ExtendedAddressDigits()
    ensures HexBytes([0x02, 0x00, 0x00, 0x04, 0x00, 0x00, 0xfa]) == "020000040000fa"
  {
    var head: seq<nat>, tail: seq<nat> := [0x02, 0x00, 0x00, 0x04], [0x00, 0x00, 0xfa];
    assert head + tail == [0x02, 0x00, 0x00, 0x04, 0x00, 0x00, 0xfa];
    ExtendedAddressHeader();
    ExtendedAddressData();
    HexBytesConcat(head, tail);
  }

  lemma ExtendedAddressHeader()
    ensures HexBytes([0x02, 0x00, 0x00, 0x04]) == "02000004"
  {
    HexPair(0x02);
    HexPair(0x00);
    HexPair(0x04);
    HexBytesOfFour(0x02, 0x00, 0x00, 0x04);
  }

  lemma ExtendedAddressData()
    ensures HexBytes([0x00, 0x00, 0xfa]) == "0000fa"
  {
    HexPair(0x00);
    HexPair(0xfa);
    HexBytesOfThree(0x00, 0x00, 0xfa);
  }

  lemma ExtendedAddressSum()
    ensures Sum([0x02, 0x00, 0x00, 0x04, 0x00, 0x00, 0xfa]) == 0x100
  {
    var head: seq<nat>, tail: seq<nat> := [0x02, 0x00, 0x00, 0x04], [0x00, 0x00, 0xfa];
    assert head + tail == [0x02, 0x00, 0x00, 0x04, 0x00, 0x00, 0xfa];
    SumConcat(head, tail);
    SumOfFour(0x02, 0x00, 0x00, 0x04);
    SumOfThree(0x00, 0x00, 0xfa);
  }

  lemma EndOfFileBytes()
    ensures var bytes: seq<nat> := [0x00, 0x00, 0x00, 0x01, 0xff];
            EndOfFileRecord == ":" + HexBytes(bytes) && Sum(bytes) % 0x100 == 0
  {
    EndOfFileDigits();
    EndOfFileSum();
  }

  lemma EndOfFileDigits()
    ensures HexBytes([0x00, 0x00, 0x00, 0x01, 0xff]) == "00000001ff"
  {
    var head: seq<nat>, tail: seq<nat> := [0x00, 0x00, 0x00, 0x01], [0xff];
    assert head + tail == [0x00, 0x00, 0x00, 0x01, 0xff];
    assert HexBytes(head) == "00000001" by {
      HexPair(0x00);
      HexPair(0x01);
      HexBytesOfFour(0x00, 0x00, 0x00, 0x01);
    }
    assert HexBytes(tail) == "ff" by {
      HexPair(0xff);
      assert tail[..0] == [];
    }
    HexBytesConcat(head, tail);
  }

  lemma EndOfFileSum()
    ensures Sum([0x00, 0x00, 0x00, 0x01, 0xff]) == 0x100
  {
    var head: seq<nat>, tail: seq<nat> := [0x00, 0x00, 0x00, 0x01], [0xff];
    assert head + tail == [0x00, 0x00, 0x00, 0x01, 0xff];
    SumConcat(head, tail);
    SumOfFour(0x00, 0x00, 0x00, 0x01);
    assert tail[..0] == [];
  }

  /** The two digits of a byte: high nibble first. */
  lemma HexPair(v: nat)
    requires v < 0x100
    ensures FixedHex(v, 2) == [HexChar(v / 16), HexChar(v % 16)]
  {
    assert FixedHex(v / 16 / 16, 0) == [];
  }

  lemma HexBytesOfThree(a: nat, b: nat, c: nat)
    ensures HexBytes([a, b, c]) == FixedHex(a, 2) + FixedHex(b, 2) + FixedHex(c, 2)
  {
    assert [a, b, c][..2] == [a, b];
    assert HexBytes([a, b, c]) == HexBytes([a, b]) + FixedHex(c, 2);
    HexBytesOfPair(a, b);
  }

  lemma HexBytesOfFour(a: nat, b: nat, c: nat, d: nat)
    ensures HexBytes([a, b, c, d]) == FixedHex(a, 2) + FixedHex(b, 2) + FixedHex(c, 2) + FixedHex(d, 2)
  {
    assert [a, b, c, d][..3] == [a, b, c];
    assert HexBytes([a, b, c, d]) == HexBytes([a, b, c]) + FixedHex(d, 2);
    HexBytesOfThree(a, b, c);
  }

  lemma SumOfThree(a: nat, b: nat, c: nat)
    ensures Sum([a, b, c]) == a + b + c
  {
    assert [a, b, c][..2] == [a, b];
    SumOfPair(a, b);
  }

  lemma SumOfFour(a: nat, b: nat, c: nat, d: nat)
    ensures Sum([a, b, c, d]) == a + b + c + d
  {
    assert [a, b, c, d][..3] == [a, b, c];
    SumOfThree(a, b, c);
  }

}
