/** What the CRC-8 generator detects beyond single bytes: bursts of up to eight bits, wherever they fall. */
module Crc8Bursts {
  import opened Bytes
  import opened Crc8

  /** Register after one more message bit, most significant bit first. */
  function BitStep(c: byte, bit: bool): byte
  {
    Shift(if bit then Xor(c, 0x80) else c)
  }

  function FoldBits(c: byte, bits: seq<bool>): byte
    decreases |bits|
  {
    if bits == [] then c else FoldBits(BitStep(c, bits[0]), bits[1..])
  }

  lemma {:induction false} FoldBitsConcat(c: byte, xs: seq<bool>, ys: seq<bool>)
    ensures FoldBits(c, xs + ys) == FoldBits(FoldBits(c, xs), ys)
    decreases |xs|
  {
    hide BitStep;
    if xs == [] {
      assert xs + ys == ys;
    } else {
      assert (xs + ys)[1..] == xs[1..] + ys;
      FoldBitsConcat(BitStep(c, xs[0]), xs[1..], ys);
    }
  }

  // ---- Folding bytes is folding their bits ----

  lemma ShiftXor(c: byte, b: byte)
    ensures Shift(Xor(c, b)) == Xor(BitStep(c, b & 0x80 != 0), b << 1)
  {
    hide Shift, Xor;
    var top := if b & 0x80 != 0 then Xor(c, 0x80) else c;
    if b & 0x80 != 0 {
      LoadHigh(c, b);
    } else {
      LoadLow(b);
    }
    ShiftLinear(top, b & 0x7F);
    RestShift(b);
  }

  lemma LoadHigh(c: byte, b: byte)
    requires b & 0x80 != 0
    ensures Xor(c, b) == Xor(Xor(c, 0x80), b & 0x7F)
  {
  }

  lemma LoadLow(b: byte)
    requires b & 0x80 == 0
    ensures b & 0x7F == b
  {
  }

  lemma RestShift(b: byte)
    ensures Shift(b & 0x7F) == b << 1
  {
  }

  lemma {:induction false} ShiftsAreBits(c: byte, b: byte, n: nat)
    ensures Shifts(Xor(c, b), n) == Xor(FoldBits(c, LeadingBits(b, n)), ShiftedOut(b, n))
    decreases n
  {
    hide Xor, Shift, BitStep;
    if n > 0 {
      ShiftXor(c, b);
      var bits := LeadingBits(b, n);
      assert bits[1..] == LeadingBits(b << 1, n - 1);
      ShiftsAreBits(BitStep(c, b & 0x80 != 0), b << 1, n - 1);
    }
  }

  function ShiftedOut(b: byte, n: nat): byte
    decreases n
  {
    if n == 0 then b else ShiftedOut(b << 1, n - 1)
  }

  lemma NothingLeft(b: byte)
    ensures ShiftedOut(b, 8) == 0
  {
    assert ShiftedOut(b, 8) == ShiftedOut((((b << 1) << 1) << 1) << 1, 4);
    ShiftedAway(b);
  }

  lemma ShiftedAway(b: byte)
    ensures (((((((b << 1) << 1) << 1) << 1) << 1) << 1) << 1) << 1 == 0
  {
  }

  lemma XorNone(c: byte)
    ensures Xor(c, 0) == c
  {
  }

  lemma UpdateIsBits(c: byte, b: byte)
    ensures Update(c, b) == FoldBits(c, LeadingBits(b, BITS_PER_BYTE))
  {
    hide Shifts, BitStep, FoldBits, LeadingBits, ShiftedOut, Xor;
    UpdateXor(c, b);
    ShiftsAreBits(c, b, BITS_PER_BYTE);
    NothingLeft(b);
    XorNone(FoldBits(c, LeadingBits(b, BITS_PER_BYTE)));
  }

  /** The table-driven register is the bit-serial shift register of the generator. */
  lemma {:induction false} FoldIsBits(c: byte, bs: seq<byte>)
    ensures Fold(c, bs) == FoldBits(c, Bits(bs))
    decreases |bs|
  {
    hide Update, BitStep, LeadingBits;
    if bs != [] {
      UpdateIsBits(c, bs[0]);
      FoldBitsConcat(c, LeadingBits(bs[0], BITS_PER_BYTE), Bits(bs[1..]));
      FoldIsBits(Update(c, bs[0]), bs[1..]);
    }
  }

  // ---- Bursts ----

  lemma {:induction false} QuietBits(c: byte, bits: seq<bool>)
    requires forall i :: 0 <= i < |bits| ==> !bits[i]
    ensures FoldBits(c, bits) == 0 <==> c == 0
    decreases |bits|
  {
    hide Shift;
    if bits != [] {
      ShiftKernel(c);
      QuietBits(BitStep(c, bits[0]), bits[1..]);
    }
  }

  /** Low mask that the top `j` bits of the register are outside of. */
  function BelowTop(j: nat): byte
    decreases j
  {
    if j == 0 then 0xFF else BelowTop(j - 1) >> 1
  }

  lemma BelowTopOdd(j: nat)
    requires j <= 7
    ensures BelowTop(j) & 1 == 1
  {
    assert BelowTop(0) == 0xFF && BelowTop(1) == 0x7F && BelowTop(2) == 0x3F && BelowTop(3) == 0x1F;
    assert BelowTop(4) == 0x0F && BelowTop(5) == 0x07 && BelowTop(6) == 0x03 && BelowTop(7) == 0x01;
  }

  lemma StepBack(c: byte, bit: bool, m: byte)
    requires m & 1 == 1
    requires BitStep(c, bit) & m == 0
    ensures c & (m >> 1) == 0
  {
  }

  /** If `j <= 7` further bits can clear the register, only its top `j` bits can be set. */
  lemma {:induction false} ClearedFrom(c: byte, bits: seq<bool>)
    requires |bits| <= 7
    requires FoldBits(c, bits) == 0
    ensures c & BelowTop(|bits|) == 0
    decreases |bits|
  {
    hide BitStep;
    if bits != [] {
      ClearedFrom(BitStep(c, bits[0]), bits[1..]);
      BelowTopOdd(|bits| - 1);
      StepBack(c, bits[0], BelowTop(|bits| - 1));
    }
  }

  lemma OddMask(m: byte)
    requires m & 1 == 1
    ensures 0x07 & m != 0
  {
  }

  lemma StaysSet(bits: seq<bool>)
    requires |bits| <= 7
    ensures FoldBits(0x07, bits) != 0
  {
    BelowTopOdd(|bits|);
    OddMask(BelowTop(|bits|));
    if FoldBits(0x07, bits) == 0 {
      ClearedFrom(0x07, bits);
    }
  }

  lemma FirstBit()
    ensures BitStep(0, true) == 0x07
  {
  }

  /** A burst of at most eight bits never leaves the register at zero, across byte boundaries too. */
  lemma BurstDetected(e: seq<bool>, lo: int)
    requires BurstAt(e, 8, lo)
    ensures FoldBits(0, e) != 0
  {
    hide BitStep;
    var hi := if lo + 8 <= |e| then lo + 8 else |e|;
    var head, mid, tail := e[..lo], e[lo + 1..hi], e[hi..];
    assert e == head + ([true] + (mid + tail));
    FoldBitsConcat(0, head, [true] + (mid + tail));
    QuietBits(0, head);
    assert ([true] + (mid + tail))[1..] == mid + tail;
    FirstBit();
    FoldBitsConcat(0x07, mid, tail);
    StaysSet(mid);
    QuietBits(FoldBits(0x07, mid), tail);
  }

  /** One wrong byte, one burst of at most eight bits or an odd number of wrong bits always leaves a remainder. */
  lemma ErrorsDetected(es: seq<byte>)
    requires OneByte(es) || OddFlips(Bits(es)) || Burst(Bits(es), 8)
    ensures Fold(0, es) != 0
  {
    hide Bits, FoldBits;
    if Burst(Bits(es), 8) {
      var lo :| BurstAt(Bits(es), 8, lo);
      FoldIsBits(0, es);
      BurstDetected(Bits(es), lo);
    } else {
      Detected(es);
    }
  }

  /** The bound 8 is exact: the generator itself is a burst of nine bits that goes unnoticed. */
  lemma NineBitBurstMissed()
    ensures Fold(0, [0x01, 0x07]) == 0
    ensures Burst(Bits([0x01, 0x07]), 9)
  {
    var es: seq<byte> := [0x01, 0x07];
    assert es[1..] == [0x07];
    assert Update(0, 0x01) == 0x07 && Update(0x07, 0x07) == 0 by { GeneratorSteps(); }
    assert LeadingBits(0x01, 8) == [false, false, false, false, false, false, false, true];
    assert BurstAt(Bits(es), 9, 7);
  }

  lemma GeneratorSteps()
    ensures Update(0, 0x01) == 0x07 && Update(0x07, 0x07) == 0
  {
    assert Shifts(0x01, 8) == Shifts(0x10, 4) == 0x07;
    assert Shifts(0x00, 8) == 0x00;
  }
}
