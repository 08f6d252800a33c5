/**
 * The table-driven encoder of assembler.c: descriptor lookup by mnemonic,
 * the operand slots of one statement, and the packing of opcode and
 * operands into one 16-bit word.
 */
module Encoder {
  import opened Wrappers
  import opened Words

  /** One operand field of a descriptor: `maskOperand[j]` and `shiftOperand[j]`. */
  datatype OperandSpec = OperandSpec(mask: int, shift: nat)

  /**
   * One row of the instruction table (`struct instruction`). `operands` holds
   * the `numOperands` declared fields in order; the slots of undeclared
   * operands are never read and are left out.
   */
  datatype Descriptor = Descriptor(name: string, operands: seq<OperandSpec>, opCode: int, opShift: nat)
  {
    /**
     * What the C code needs of a row: at most two operands (the struct's
     * arrays have two slots) and shift counts below the width of `int`.
     */
    predicate WellFormed() {
      && |operands| <= 2
      && opShift < 32
      && forall j :: 0 <= j < |operands| ==> operands[j].shift < 32
    }
  }

  predicate TableWellFormed(table: seq<Descriptor>) {
    forall i :: 0 <= i < |table| ==> table[i].WellFormed()
  }

  /**
   * The text of one operand as the scanner sees it: the character read first
   * (`.` for decimal, `0` for `0x` hex) and the number `%d` or `%x` reads
   * after it.
   */
  datatype Operand = Operand(prefix: char, value: int)

  /** One statement of the assembly source: a mnemonic and its operand texts. */
  datatype Statement = Statement(mnemonic: string, operands: seq<Operand>)

  /**
   * The specification of the lookup loop: the lowest index whose name equals
   * the mnemonic exactly, or None.
   */
  function FirstMatch(table: seq<Descriptor>, name: string): (r: Option<nat>)
    ensures r.Some? ==> r.value < |table| && table[r.value].name == name
    ensures r.Some? ==> forall k :: 0 <= k < r.value ==> table[k].name != name
    ensures r.None? ==> forall k :: 0 <= k < |table| ==> table[k].name != name
  {
    if table == [] then None
    else if table[0].name == name then Some(0)
    else match FirstMatch(table[1..], name)
      case None => None
      case Some(i) => Some(i + 1)
  }

  /**
   * The linear search with `strcmp` and `break`; -1 stands for "not an
   * instruction".
   */
  method Lookup(table: seq<Descriptor>, name: string) returns (index: int)
    ensures index == -1 <==> forall k :: 0 <= k < |table| ==> table[k].name != name
    ensures index != -1 ==> 0 <= index < |table| && table[index].name == name
    ensures index != -1 ==> forall k :: 0 <= k < index ==> table[k].name != name
    ensures FirstMatch(table, name) == if index == -1 then None else Some(index)
  {
    index := -1;
    var i := 0;
    while i < |table|
      invariant 0 <= i <= |table|
      invariant index == -1
      invariant forall k :: 0 <= k < i ==> table[k].name != name
    {
      if table[i].name == name {
        index := i;
        break;
      }
      i := i + 1;
    }
  }

  /**
   * The value one operand slot receives from its text: `.` is followed by a
   * decimal, `0` by one skipped character and a hex number; any other first
   * character leaves the slot at its reset value 0.
   */
  function ScanOperand(o: Operand): int {
    if o.prefix == '.' || o.prefix == '0' then o.value else 0
  }

  /**
   * `operands[2]` after one statement has been scanned: both slots are reset
   * to 0, then the declared ones are read in order.
   */
  function OperandSlots(d: Descriptor, ops: seq<Operand>): (slots: seq<int>)
    requires |d.operands| <= 2
    ensures |slots| == 2
    ensures forall j :: |d.operands| <= j < 2 ==> slots[j] == 0
    ensures forall j :: 0 <= j < 2 && |ops| <= j ==> slots[j] == 0
  {
    seq(2, j requires 0 <= j < 2 => if j < |d.operands| && j < |ops| then ScanOperand(ops[j]) else 0)
  }

  /** Σ_{j < |specs|} slots[j] << specs[j].shift, as unbounded integers. */
  function FieldSum(specs: seq<OperandSpec>, slots: seq<int>): int
    requires |specs| <= |slots|
  {
    if specs == [] then 0
    else FieldSum(specs[..|specs| - 1], slots) + slots[|specs| - 1] * Pow2(specs[|specs| - 1].shift)
  }

  /** FieldSum written out for the at most two operands a descriptor has. */
  lemma FieldSumOfTwo(specs: seq<OperandSpec>, slots: seq<int>)
    requires |specs| <= 2 <= |slots|
    ensures FieldSum(specs, slots) ==
      (if |specs| >= 1 then slots[0] * Pow2(specs[0].shift) else 0) +
      (if |specs| == 2 then slots[1] * Pow2(specs[1].shift) else 0)
  {
    if |specs| == 2 {
      assert specs[..1][..0] == [];
    } else if |specs| == 1 {
      assert specs[..0] == [];
    }
  }

  /**
   * The word assembler.c builds for a statement (before the byte swap):
   * `(opCode << shiftOpCode) + Σ operands[j] << shiftOperand[j]`, truncated to
   * the 16 bits of `hexInstruction`. The masks play no part.
   */
  function Encode(d: Descriptor, slots: seq<int>): (w: int)
    requires |d.operands| <= 2 && |slots| == 2
    ensures IsWord(w)
  {
    (d.opCode * Pow2(d.opShift) + FieldSum(d.operands, slots)) % 0x1_0000
  }

  lemma ModAddLeft(a: int, b: int)
    ensures (a % 0x1_0000 + b) % 0x1_0000 == (a + b) % 0x1_0000
  {
  }

  /**
   * Lines 138-141: `hexInstruction` starts as the shifted opcode and each
   * declared operand is added in turn, every step truncated to 16 bits.
   */
  method EncodeInstruction(d: Descriptor, slots: seq<int>) returns (hexInstruction: int)
    requires d.WellFormed() && |slots| == 2
    ensures hexInstruction == Encode(d, slots)
  {
    hexInstruction := (d.opCode * Pow2(d.opShift)) % 0x1_0000;
    for j := 0 to |d.operands|
      invariant hexInstruction == (d.opCode * Pow2(d.opShift) + FieldSum(d.operands[..j], slots)) % 0x1_0000
    {
      ModAddLeft(d.opCode * Pow2(d.opShift) + FieldSum(d.operands[..j], slots),
                 slots[j] * Pow2(d.operands[j].shift));
      assert d.operands[..j + 1][..j] == d.operands[..j];
      hexInstruction := (hexInstruction + slots[j] * Pow2(d.operands[j].shift)) % 0x1_0000;
    }
    assert d.operands[..|d.operands|] == d.operands;
  }

  /** Only the shifts of the declared operands matter to FieldSum: the masks do not. */
  lemma {:induction false} FieldSumIgnoresMasks(a: seq<OperandSpec>, b: seq<OperandSpec>, slots: seq<int>)
    requires |a| == |b| <= |slots|
    requires forall j :: 0 <= j < |a| ==> a[j].shift == b[j].shift
    ensures FieldSum(a, slots) == FieldSum(b, slots)
  {
    if a != [] {
      FieldSumIgnoresMasks(a[..|a| - 1], b[..|b| - 1], slots);
    }
  }

  /**
   * `maskOperand` is never consulted: two descriptors that differ only in
   * their masks encode every statement identically.
   */
  lemma EncodeIgnoresMasks(d: Descriptor, e: Descriptor, slots: seq<int>)
    requires |d.operands| <= 2 && |slots| == 2
    requires e.opCode == d.opCode && e.opShift == d.opShift && |e.operands| == |d.operands|
    requires forall j :: 0 <= j < |d.operands| ==> e.operands[j].shift == d.operands[j].shift
    ensures Encode(d, slots) == Encode(e, slots)
  {
    FieldSumIgnoresMasks(d.operands, e.operands, slots);
  }

  lemma {:induction false} FieldSumReadsPrefix(specs: seq<OperandSpec>, a: seq<int>, b: seq<int>)
    requires |specs| <= |a| && |specs| <= |b|
    requires forall j :: 0 <= j < |specs| ==> a[j] == b[j]
    ensures FieldSum(specs, a) == FieldSum(specs, b)
  {
    if specs != [] {
      FieldSumReadsPrefix(specs[..|specs| - 1], a, b);
    }
  }

  /** Only the first `numOperands` slots contribute to the word. */
  lemma EncodeReadsDeclaredSlots(d: Descriptor, a: seq<int>, b: seq<int>)
    requires |d.operands| <= 2 && |a| == 2 && |b| == 2
    requires forall j :: 0 <= j < |d.operands| ==> a[j] == b[j]
    ensures Encode(d, a) == Encode(d, b)
  {
    FieldSumReadsPrefix(d.operands, a, b);
  }

  /**
   * Operands are added, not masked: with the `addwf` layout (f at bit 0,
   * d at bit 7) the out-of-range f = 128 produces the word of f = 0, d = 1.
   */
  lemma OperandOverflowCorruptsNeighbour()
    ensures var addwf := Descriptor("addwf", [OperandSpec(7, 0), OperandSpec(1, 7)], 7, 8);
            Encode(addwf, [128, 0]) == Encode(addwf, [0, 1]) == 0x0780
  {
    var addwf := Descriptor("addwf", [OperandSpec(7, 0), OperandSpec(1, 7)], 7, 8);
    assert Pow2(0) == 1 && Pow2(7) == 128 && Pow2(8) == 256;
    FieldSumOfTwo(addwf.operands, [128, 0]);
    FieldSumOfTwo(addwf.operands, [0, 1]);
  }

}
