/**
 * 16-bit instruction words as both programs hold them: an `unsigned short`
 * (assembler) or a `short` (disassembler), and the byte exchange `swapData`
 * that both programs define identically.
 */
module Words {

  /** A value an `unsigned short` can hold; also the bit pattern of a `short`. */
  predicate IsWord(w: int) {
    0 <= w < 0x1_0000
  }

  predicate AllWords(ws: seq<int>) {
    forall i :: 0 <= i < |ws| ==> IsWord(ws[i])
  }

  /** `w & 0xff` */
  function Low(w: int): int
    requires IsWord(w)
  {
    w % 0x100
  }

  /** `(w >> 8) & 0xff` */
  function High(w: int): int
    requires IsWord(w)
  {
    w / 0x100
  }

  /** 2 to the power n: `x << n` is `x * Pow2(n)` before truncation. */
  function Pow2(n: nat): (r: nat)
    ensures r >= 1
  {
    if n == 0 then 1 else 2 * Pow2(n - 1)
  }

  /**
   * `swapData`: the high and the low byte of a word change places,
   * `((w & 0xff) << 8) | (w >> 8)`.
   */
  function Swap(w: int): (r: int)
    requires IsWord(w)
    ensures IsWord(r)
    ensures Low(r) == High(w) && High(r) == Low(w)
  {
    Low(w) * 0x100 + High(w)
  }

  /** A word is determined by its two bytes. */
  lemma WordFromBytes(w: int)
    requires IsWord(w)
    ensures w == High(w) * 0x100 + Low(w)
  {
  }

  /** Swapping twice gives back the original word. */
  lemma SwapInvolution(w: int)
    requires IsWord(w)
    ensures Swap(Swap(w)) == w
  {
    WordFromBytes(Swap(Swap(w)));
    WordFromBytes(w);
  }

  /** Swapping keeps the sum of the two bytes, so a byte-sum checksum cannot see it. */
  lemma SwapKeepsByteSum(w: int)
    requires IsWord(w)
    ensures Low(Swap(w)) + High(Swap(w)) == Low(w) + High(w)
  {
  }

  /** The two examples the assembler's comment gives for `swapData`. */
  lemma SwapExamples()
    ensures Swap(0x3003) == 0x0330
    ensures Swap(0x1234) == 0x3412
  {
  }

  /** `(short)v`: the 16-bit pattern that a conversion to `short` keeps. */
  function ToShortPattern(v: int): (w: int)
    ensures IsWord(w)
    ensures (v - w) % 0x1_0000 == 0
  {
    v % 0x1_0000
  }

  /**
   * The `int` a `short` with bit pattern w becomes when passed to an `int`
   * parameter: two's-complement sign extension.
   */
  function SignExtend(w: int): (r: int)
    requires IsWord(w)
    ensures -0x8000 <= r < 0x8000
    ensures ToShortPattern(r) == w
  {
    if w < 0x8000 then w else w - 0x1_0000
  }

}
