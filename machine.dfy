/** Machine types of the PIC16F886 firmware (CCS C): 8-bit `int`, 16-bit `int16`,
    and the two integers the firmware uses as sets of bits with CCS's `bit_set`,
    `bit_clear` and `bit_test`: the 32-bit dirty mask (`int32`) and the 8-bit
    updated-sensor mask (`int`). */
module Machine {

  /** CCS `int` and `char`: unsigned 8 bits. */
  newtype byte = x: int | 0 <= x < 256

  /** CCS `int16`: unsigned 16 bits. */
  newtype u16 = x: int | 0 <= x < 0x1_0000

  // ---------------------------------------------------------------------------
  // Bit masks. An integer used only through `bit_set`, `bit_clear`, `bit_test`
  // and assignment of a constant is modelled by its bits:
  // element i is bit i, element 0 the least significant bit; the length is the
  // width of the integer.

  type Bits = seq<bool>

  /** The constant 0 of the given width. */
  function Zero(width: nat): Bits {
    seq(width, _ => false)
  }

  /** The constant with every bit set (`0xffffffff` for an `int32`). */
  function Ones(width: nat): Bits {
    seq(width, _ => true)
  }

  /** `bit_test(m, i)`. */
  predicate TestBit(m: Bits, i: nat)
    requires i < |m|
  {
    m[i]
  }

  /** `bit_set(m, i)`: bit i becomes set, every other bit is kept. */
  function SetBit(m: Bits, i: nat): (r: Bits)
    requires i < |m|
    ensures |r| == |m|
    ensures forall j :: 0 <= j < |m| ==> (TestBit(r, j) <==> j == i || TestBit(m, j))
  {
    m[i := true]
  }

  /** `bit_clear(m, i)`: bit i becomes clear, every other bit is kept. */
  function ClearBit(m: Bits, i: nat): (r: Bits)
    requires i < |m|
    ensures |r| == |m|
    ensures forall j :: 0 <= j < |m| ==> (TestBit(r, j) <==> j != i && TestBit(m, j))
  {
    m[i := false]
  }

  /** No bit of 0 is set and every bit of the all-ones constant is. */
  lemma ConstantBits(width: nat)
    ensures |Zero(width)| == width && |Ones(width)| == width
    ensures forall j :: 0 <= j < width ==> !TestBit(Zero(width), j) && TestBit(Ones(width), j)
  {}

  /** A mask equals 0 exactly when none of its bits is set. */
  lemma ZeroIffNoBit(m: Bits)
    ensures m == Zero(|m|) <==> forall j :: 0 <= j < |m| ==> !TestBit(m, j)
  {
    if forall j :: 0 <= j < |m| ==> !TestBit(m, j) {
      forall j | 0 <= j < |m|
        ensures m[j] == Zero(|m|)[j]
      {
        assert !TestBit(m, j);
      }
    }
  }

  /** The number of set bits at positions k and above. */
  function CountFrom(m: Bits, k: nat): nat
    requires k <= |m|
    decreases |m| - k
  {
    if k == |m| then 0 else (if TestBit(m, k) then 1 else 0) + CountFrom(m, k + 1)
  }

  /** The number of set bits of the mask. */
  function PopCount(m: Bits): nat {
    CountFrom(m, 0)
  }

  /** Counting from k only looks at bits k and above. */
  lemma {:induction false} CountFromAgree(m: Bits, m': Bits, k: nat)
    requires |m| == |m'| && k <= |m|
    requires forall j :: k <= j < |m| ==> (TestBit(m, j) <==> TestBit(m', j))
    ensures CountFrom(m, k) == CountFrom(m', k)
    decreases |m| - k
  {
    if k < |m| {
      CountFromAgree(m, m', k + 1);
    }
  }

  /** At most one per position is counted, and none exactly when no bit from k on is set. */
  lemma {:induction false} CountFromBounds(m: Bits, k: nat)
    requires k <= |m|
    ensures CountFrom(m, k) <= |m| - k
    ensures CountFrom(m, k) == 0 <==> forall j :: k <= j < |m| ==> !TestBit(m, j)
    decreases |m| - k
  {
    if k < |m| {
      CountFromBounds(m, k + 1);
    }
  }

  /** Every position from k on is counted in the all-ones constant. */
  lemma {:induction false} CountFromOnes(width: nat, k: nat)
    requires k <= width
    ensures CountFrom(Ones(width), k) == width - k
    decreases width - k
  {
    if k < width {
      CountFromOnes(width, k + 1);
    }
  }
}
