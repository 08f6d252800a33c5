/**
 * The main loop of disassembler.c: every record of the hex file is sliced at
 * fixed character positions, its type decides what is printed, and each
 * four-digit group of a data record is read, byte-swapped and decoded.
 */
module Disassembler {
  import opened Words
  import opened HexText
  import opened Decoder

  /**
   * `strncpy(stringTemp, hexString + start, len)` with the terminator added
   * after it: the len characters from start, fewer where the record ends.
   */
  function Field(rec: string, start: nat, len: nat): (s: string)
    requires start <= |rec|
    ensures |s| == if start + len <= |rec| then len else |rec| - start
    ensures forall i :: 0 <= i < |s| ==> s[i] == rec[start + i]
  {
    rec[start .. if start + len <= |rec| then start + len else |rec|]
  }

  /** Lines 60-62: the byte count, read from characters 1 and 2. */
  function ByteCount(rec: string): int
    requires |rec| >= 1
  {
    StrToL(Field(rec, 1, 2))
  }

  /** Lines 64-66: the record type, read from characters 7 and 8. */
  function RecordType(rec: string): int
    requires |rec| >= 7
  {
    StrToL(Field(rec, 7, 2))
  }

  /**
   * How many passes `for (i = 9; i < numBytes * 2 + 9; i += 4)` makes: one
   * per started pair of bytes, none for a count of zero or less.
   */
  function GroupCount(numBytes: int): (n: nat)
    ensures forall k: nat :: k < n <==> 9 + 4 * k < numBytes * 2 + 9
  {
    if numBytes <= 0 then 0 else (numBytes + 1) / 2
  }

  /** The white space `fscanf("%s")` splits records at. */
  predicate IsSpace(c: char) {
    c == ' ' || c == '\t' || c == '\n' || c == '\r' || c == '\U{B}' || c == '\U{C}'
  }

  /**
   * A record the loop reads without touching memory outside it: a token of
   * `fscanf("%s")` (no white space) that fits `char hexString[50]`, reaches
   * the type field, and whose data groups start inside the string.
   */
  predicate Readable(rec: string) {
    && 7 <= |rec| <= 49
    && (forall i :: 0 <= i < |rec| ==> !IsSpace(rec[i]))
    && (RecordType(rec) == 0 && GroupCount(ByteCount(rec)) > 0 ==> 9 + 4 * (GroupCount(ByteCount(rec)) - 1) <= |rec|)
  }

  /** Line 77: the four characters of the k-th data group, from character 9 + 4k. */
  function Group(rec: string, k: nat): string
    requires 9 + 4 * k <= |rec|
  {
    Field(rec, 9 + 4 * k, 4)
  }

  /**
   * Line 79: the k-th data group as `oneData` holds it, the `short` whose
   * bits are those of the value `strtol` reads.
   */
  function DataWord(rec: string, k: nat): (w: int)
    requires 9 + 4 * k <= |rec|
    ensures IsWord(w)
  {
    ToShortPattern(StrToL(Group(rec, k)))
  }

  /** The first n data groups of a record, in file order. */
  function DataWords(rec: string, n: nat): (ws: seq<int>)
    requires n == 0 || 9 + 4 * (n - 1) <= |rec|
    ensures |ws| == n && AllWords(ws)
  {
    seq(n, k requires 0 <= k < n => DataWord(rec, k))
  }

  /** The words of a data record, in file order, before the swap. */
  function RecordWords(rec: string): (ws: seq<int>)
    requires Readable(rec) && RecordType(rec) == 0
    ensures |ws| == GroupCount(ByteCount(rec)) && AllWords(ws)
  {
    DataWords(rec, GroupCount(ByteCount(rec)))
  }

  /** Word k of a data record is the value of its k-th group. */
  lemma RecordWordsAt(rec: string, k: nat)
    requires Readable(rec) && RecordType(rec) == 0 && k < GroupCount(ByteCount(rec))
    ensures 9 + 4 * k <= |rec| && RecordWords(rec)[k] == DataWord(rec, k)
  {
  }

  /**
   * Lines 80-81: the word is byte-swapped once and passed, sign-extended to
   * `int`, to `fprintInstr`.
   */
  function WordLine(w: int): string
    requires IsWord(w)
  {
    DecodeLine(SignExtend(Swap(w)))
  }

  function WordLines(ws: seq<int>): string
    requires AllWords(ws)
  {
    if ws == [] then [] else WordLines(ws[..|ws| - 1]) + WordLine(ws[|ws| - 1])
  }

  lemma WordLinesStep(ws: seq<int>, k: nat)
    requires AllWords(ws) && k < |ws|
    ensures WordLines(ws[..k + 1]) == WordLines(ws[..k]) + WordLine(ws[k])
  {
    assert ws[..k + 1][..k] == ws[..k];
  }

  /**
   * Lines 68-83: `END` for type 1, the decoded words for type 0, nothing
   * for any other type.
   */
  function RecordOutput(rec: string): string
    requires Readable(rec)
  {
    if RecordType(rec) == 1 then "END\n"
    else if RecordType(rec) == 0 then WordLines(RecordWords(rec))
    else []
  }

  predicate AllReadable(recs: seq<string>) {
    forall i :: 0 <= i < |recs| ==> Readable(recs[i])
  }

  /** What one record prints, where it can be read at all. */
  function Shown(rec: string): string {
    if Readable(rec) then RecordOutput(rec) else []
  }

  /**
   * What a loop that prints f(r) for each record r has printed after the
   * first n records.
   */
  function Printed(f: string -> string, recs: seq<string>, n: nat): string
    requires n <= |recs|
  {
    if n == 0 then [] else Printed(f, recs, n - 1) + f(recs[n - 1])
  }

  /** Lines 59-84: the output of every record, in order; nothing stops the loop early. */
  function DisassemblyText(recs: seq<string>): string
    requires AllReadable(recs)
  {
    Printed(Shown, recs, |recs|)
  }

  /** One record prints what RecordOutput says. */
  lemma DisassemblyTextOfOne(rec: string)
    requires Readable(rec)
    ensures AllReadable([rec]) && DisassemblyText([rec]) == RecordOutput(rec)
  {
    assert Printed(Shown, [rec], 1) == [] + Shown(rec);
  }

  /** Lines 60-83, one record: slice the fields and dispatch on the type. */
  method DisassembleRecord(hexString: string) returns (out: string)
    requires Readable(hexString)
    ensures out == RecordOutput(hexString)
  {
    out := [];
    var numBytes := StrToL(Field(hexString, 1, 2));
    var dataType := StrToL(Field(hexString, 7, 2));
    if dataType == 1 {
      out := "END\n";
    } else if dataType == 0 {
      RecordGroups(hexString);
      out := DisassembleData(hexString, numBytes, RecordWords(hexString));
    }
  }

  /**
   * Lines 69-82: step through the data characters in fours, one word each;
   * `words` are the values of the groups the loop visits.
   */
  method DisassembleData(hexString: string, numBytes: int, ghost words: seq<int>) returns (out: string)
    requires AllWords(words) && |words| == GroupCount(numBytes)
    requires forall k :: 0 <= k < |words| ==> 9 + 4 * k <= |hexString| && DataWord(hexString, k) == words[k]
    ensures out == WordLines(words)
  {
    out := [];
    var numCharData := numBytes * 2;
    ghost var k := 0;
    var i := 9;
    while i < numCharData + 9
      invariant i == 9 + 4 * k && 0 <= k <= |words|
      invariant out == WordLines(words[..k])
      decreases numCharData + 9 - i
    {
      var oneData := ToShortPattern(StrToL(Field(hexString, i, 4)));
      GroupAt(hexString, i, k);
      assert oneData == words[k];
      oneData := Swap(oneData);
      WordLinesStep(words, k);
      out := out + DecodeLine(SignExtend(oneData));
      i := i + 4;
      k := k + 1;
    }
    assert words[..k] == words;
  }

  /** The loop's step: the group read at character i is group k. */
  lemma GroupAt(rec: string, i: nat, k: nat)
    requires i == 9 + 4 * k <= |rec|
    ensures ToShortPattern(StrToL(Field(rec, i, 4))) == DataWord(rec, k)
  {
  }

  /** The groups of a readable data record lie inside it and hold its words. */
  lemma RecordGroups(rec: string)
    requires Readable(rec) && RecordType(rec) == 0
    ensures forall k :: 0 <= k < |RecordWords(rec)| ==>
              9 + 4 * k <= |rec| && DataWord(rec, k) == RecordWords(rec)[k]
  {
    forall k | 0 <= k < |RecordWords(rec)|
      ensures 9 + 4 * k <= |rec| && DataWord(rec, k) == RecordWords(rec)[k]
    {
      RecordWordsAt(rec, k);
    }
  }

  /** Lines 59-84: the whole file, record after record. */
  method Disassemble(records: seq<string>) returns (out: string)
    requires AllReadable(records)
    ensures out == DisassemblyText(records)
  {
    out := [];
    for n := 0 to |records|
      invariant out == Printed(Shown, records, n)
    {
      var text := DisassembleRecord(records[n]);
      out := out + text;
    }
  }

  lemma AllReadableConcat(a: seq<string>, b: seq<string>)
    requires AllReadable(a) && AllReadable(b)
    ensures AllReadable(a + b)
  {
    forall i | 0 <= i < |a + b|
      ensures Readable((a + b)[i])
    {
      if i < |a| {
        assert (a + b)[i] == a[i];
      } else {
        assert (a + b)[i] == b[i - |a|];
      }
    }
  }

  /** Records appended after the first n do not change what those n print. */
  lemma {:induction false} PrintedPrefix(f: string -> string, a: seq<string>, b: seq<string>, n: nat)
    requires n <= |a|
    ensures Printed(f, a + b, n) == Printed(f, a, n)
  {
    if n > 0 {
      PrintedPrefix(f, a, b, n - 1);
      assert (a + b)[n - 1] == a[n - 1];
    }
  }

  /** The first |a| + k records of a + b print what a prints, then what the first k of b print. */
  lemma {:induction false} PrintedConcat(f: string -> string, a: seq<string>, b: seq<string>, k: nat)
    requires k <= |b|
    ensures Printed(f, a + b, |a| + k) == Printed(f, a, |a|) + Printed(f, b, k)
  {
    if k == 0 {
      PrintedPrefix(f, a, b, |a|);
    } else {
      PrintedConcat(f, a, b, k - 1);
      var x, y, z := Printed(f, a, |a|), Printed(f, b, k - 1), f(b[k - 1]);
      assert (a + b)[|a| + k - 1] == b[k - 1];
      assert (x + y) + z == x + (y + z);
    }
  }

  lemma PrintedAppend(f: string -> string, a: seq<string>, b: seq<string>)
    ensures Printed(f, a + b, |a + b|) == Printed(f, a, |a|) + Printed(f, b, |b|)
  {
    PrintedConcat(f, a, b, |b|);
  }

  /** The output of a + b is that of a followed by that of b. */
  lemma DisassemblyTextConcat(a: seq<string>, b: seq<string>)
    requires AllReadable(a) && AllReadable(b)
    ensures AllReadable(a + b)
    ensures DisassemblyText(a + b) == DisassemblyText(a) + DisassemblyText(b)
  {
    AllReadableConcat(a, b);
    PrintedAppend(Shown, a, b);
  }

  /**
   * An end of file record prints `END` and the records after it are still
   * processed.
   */
  lemma EndDoesNotStop(before: seq<string>, end: string, after: seq<string>)
    requires AllReadable(before) && Readable(end) && AllReadable(after)
    requires RecordType(end) == 1
    ensures AllReadable(before + [end] + after)
    ensures DisassemblyText(before + [end] + after)
            == DisassemblyText(before) + "END\n" + DisassemblyText(after)
  {
    DisassemblyTextOfOne(end);
    DisassemblyTextConcat(before, [end]);
    DisassemblyTextConcat(before + [end], after);
  }

  /** A record of any type other than 0 and 1 (such as 04) adds nothing to the output. */
  lemma OtherRecordsSilent(before: seq<string>, rec: string, after: seq<string>)
    requires AllReadable(before) && Readable(rec) && AllReadable(after)
    requires RecordType(rec) != 0 && RecordType(rec) != 1
    ensures AllReadable(before + [rec] + after)
    ensures DisassemblyText(before + [rec] + after) == DisassemblyText(before + after)
  {
    DisassemblyTextOfOne(rec);
    DisassemblyTextConcat(before, [rec]);
    DisassemblyTextConcat(before + [rec], after);
    DisassemblyTextConcat(before, after);
    assert DisassemblyText(before + [rec]) == DisassemblyText(before);
  }

  /** Each word decodes to at most one line, and to exactly one when its swap is decodable. */
  lemma {:induction false} WordLinesCount(ws: seq<int>)
    requires AllWords(ws)
    ensures Count(WordLines(ws), '\n') <= |ws|
    ensures (forall i :: 0 <= i < |ws| ==> Decodable(SignExtend(Swap(ws[i]))))
            ==> Count(WordLines(ws), '\n') == |ws|
  {
    if ws != [] {
      var p, w := ws[..|ws| - 1], ws[|ws| - 1];
      WordLinesCount(p);
      CountConcat(WordLines(p), WordLine(w), '\n');
      if Decodable(SignExtend(Swap(w))) {
        DecodeLineIsOneLine(SignExtend(Swap(w)));
        OneLineCount(WordLine(w));
      } else {
        assert WordLine(w) == [];
      }
    }
  }

  /** A single line holds exactly one newline. */
  lemma OneLineCount(s: string)
    requires OneLine(s)
    ensures Count(s, '\n') == 1
  {
    var n := |s| - 1;
    CountAbsent(s[..n], '\n');
  }

  /**
   * Two records that agree on the byte count, the type and every data group
   * print the same: the loop reads nothing else (not the `:`, the address or
   * the checksum), and their lengths may differ.
   */
  lemma OutputReadsOnlyFields(a: string, b: string)
    requires Readable(a) && Readable(b)
    requires Field(a, 1, 2) == Field(b, 1, 2) && Field(a, 7, 2) == Field(b, 7, 2)
    requires forall k: nat :: k < GroupCount(ByteCount(a)) && 9 + 4 * k <= |a| && 9 + 4 * k <= |b| ==>
               Group(a, k) == Group(b, k)
    ensures RecordOutput(a) == RecordOutput(b)
  {
    if RecordType(a) == 0 {
      SameGroupsSameWords(a, b);
    }
  }

  /** Two data records with the same count and the same groups hold the same words. */
  lemma SameGroupsSameWords(a: string, b: string)
    requires Readable(a) && Readable(b) && RecordType(a) == 0 && RecordType(b) == 0
    requires ByteCount(a) == ByteCount(b)
    requires forall k: nat :: k < GroupCount(ByteCount(a)) && 9 + 4 * k <= |a| && 9 + 4 * k <= |b| ==>
               Group(a, k) == Group(b, k)
    ensures RecordWords(a) == RecordWords(b)
  {
    forall k | 0 <= k < GroupCount(ByteCount(a))
      ensures RecordWords(a)[k] == RecordWords(b)[k]
    {
      RecordWordsAt(a, k);
      RecordWordsAt(b, k);
    }
  }

}
