/** What the CRC-16 generator detects: bursts no longer than the register and odd numbers
    of flipped bits, over messages of any length. */
module ErrorDetection {
  import opened Bytes
  import opened Crc16

  /** Register after one more message bit, most significant bit first. */
  function BitStep(c: bv16, bit: bool): bv16
  {
    Shift(if bit then Xor(c, 0x8000) else c)
  }

  function FoldBits(c: bv16, bits: seq<bool>): bv16
    decreases |bits|
  {
    if bits == [] then c else FoldBits(BitStep(c, bits[0]), bits[1..])
  }

  lemma {:induction false} FoldBitsConcat(c: bv16, xs: seq<bool>, ys: seq<bool>)
    ensures FoldBits(c, xs + ys) == FoldBits(FoldBits(c, xs), ys)
    decreases |xs|
  {
    hide BitStep;
    if xs == [] {
      assert xs + ys == ys;
    } else {
      assert (xs + ys)[1..] == xs[1..] + ys;
      FoldBitsConcat(BitStep(c, xs[0]), xs[1..], ys);
    }
  }

  // ---- Folding bytes is folding their bits ----

  lemma LoadHigh(c: bv16, b: byte)
    requires b & 0x80 != 0
    ensures Xor(c, (b as bv16) << 8) == Xor(Xor(c, 0x8000), ((b & 0x7F) as bv16) << 8)
  {
  }

  lemma LoadLow(b: byte)
    requires b & 0x80 == 0
    ensures b & 0x7F == b
  {
  }

  lemma LoadParts(c: bv16, b: byte)
    ensures Load(c, b) == Xor(if b & 0x80 != 0 then Xor(c, 0x8000) else c, ((b & 0x7F) as bv16) << 8)
  {
    hide Load, Xor;
    LoadIsXor(c, b);
    if b & 0x80 != 0 {
      LoadHigh(c, b);
    } else {
      LoadLow(b);
    }
  }

  lemma RestShift(b: byte)
    ensures (((b & 0x7F) as bv16) << 8) & 0x8000 == 0
    ensures (((b & 0x7F) as bv16) << 8) << 1 == ((b << 1) as bv16) << 8
  {
  }

  lemma LoadStep(c: bv16, b: byte)
    ensures Shift(Load(c, b)) == Load(BitStep(c, b & 0x80 != 0), b << 1)
  {
    hide Shift, Xor, Load;
    var top := if b & 0x80 != 0 then Xor(c, 0x8000) else c;
    var rest := ((b & 0x7F) as bv16) << 8;
    LoadParts(c, b);
    ShiftLinear(top, rest);
    RestShift(b);
    ShiftClear(rest);
    LoadIsXor(Shift(top), b << 1);
  }

  lemma {:induction false} ShiftsAreBits(c: bv16, b: byte, n: nat)
    ensures Shifts(Load(c, b), n) == Load(FoldBits(c, LeadingBits(b, n)), ShiftedOut(b, n))
    decreases n
  {
    hide Load, Shift, BitStep;
    if n > 0 {
      LoadStep(c, b);
      var bits := LeadingBits(b, n);
      assert bits[1..] == LeadingBits(b << 1, n - 1);
      ShiftsAreBits(BitStep(c, b & 0x80 != 0), b << 1, n - 1);
    }
  }

  function ShiftedOut(b: byte, n: nat): byte
    decreases n
  {
    if n == 0 then b else ShiftedOut(b << 1, n - 1)
  }

  lemma NothingLeft(b: byte)
    ensures (((((((b << 1) << 1) << 1) << 1) << 1) << 1) << 1) << 1 == 0
  {
  }

  lemma UpdateIsBits(c: bv16, b: byte)
    ensures Update(c, b) == FoldBits(c, LeadingBits(b, BITS_PER_BYTE))
  {
    hide Shift, Shifts, BitStep, FoldBits, LeadingBits;
    ShiftsAreBits(c, b, BITS_PER_BYTE);
    NothingLeft(b);
    assert ShiftedOut(b, 8) == ShiftedOut((((b << 1) << 1) << 1) << 1, 4);
  }

  lemma {:induction false} FoldIsBits(c: bv16, bs: seq<byte>)
    ensures Fold(c, bs) == FoldBits(c, Bits(bs))
    decreases |bs|
  {
    hide Update, BitStep, LeadingBits;
    if bs != [] {
      UpdateIsBits(c, bs[0]);
      FoldBitsConcat(c, LeadingBits(bs[0], BITS_PER_BYTE), Bits(bs[1..]));
      FoldIsBits(Update(c, bs[0]), bs[1..]);
    }
  }

  // ---- Bursts ----

  lemma {:induction false} QuietBits(c: bv16, bits: seq<bool>)
    requires forall i :: 0 <= i < |bits| ==> !bits[i]
    ensures FoldBits(c, bits) == 0 <==> c == 0
    decreases |bits|
  {
    hide Shift;
    if bits != [] {
      ShiftKernel(c);
      QuietBits(BitStep(c, bits[0]), bits[1..]);
    }
  }

  /** Low mask that the top `j` bits of the register are outside of. */
  function BelowTop(j: nat): bv16
    decreases j
  {
    if j == 0 then 0xFFFF else BelowTop(j - 1) >> 1
  }

  lemma BelowTopOdd(j: nat)
    requires j <= 15
    ensures BelowTop(j) & 1 == 1
  {
    assert BelowTop(0) == 0xFFFF && BelowTop(1) == 0x7FFF && BelowTop(2) == 0x3FFF && BelowTop(3) == 0x1FFF;
    assert BelowTop(4) == 0x0FFF && BelowTop(5) == 0x07FF && BelowTop(6) == 0x03FF && BelowTop(7) == 0x01FF;
    assert BelowTop(8) == 0x00FF && BelowTop(9) == 0x007F && BelowTop(10) == 0x003F && BelowTop(11) == 0x001F;
    assert BelowTop(12) == 0x000F && BelowTop(13) == 0x0007 && BelowTop(14) == 0x0003 && BelowTop(15) == 0x0001;
  }

  lemma StepBack(c: bv16, bit: bool, m: bv16)
    requires m & 1 == 1
    requires BitStep(c, bit) & m == 0
    ensures c & (m >> 1) == 0
  {
    var d := if bit then Xor(c, 0x8000) else c;
    TopSet(d, m);
    ShiftBack(d, m);
    FlipTop(c, m);
  }

  lemma TopSet(d: bv16, m: bv16)
    requires m & 1 == 1
    ensures ((d << 1) ^ 0x1021) & m != 0
  {
  }

  lemma ShiftBack(d: bv16, m: bv16)
    requires (d << 1) & m == 0
    ensures d & (m >> 1) == 0
  {
  }

  lemma FlipTop(c: bv16, m: bv16)
    ensures (c ^ 0x8000) & (m >> 1) == c & (m >> 1)
  {
  }

  /** If `j <= 15` further bits can clear the register, only its top `j` bits can be set. */
  lemma {:induction false} ClearedFrom(c: bv16, bits: seq<bool>)
    requires |bits| <= 15
    requires FoldBits(c, bits) == 0
    ensures c & BelowTop(|bits|) == 0
    decreases |bits|
  {
    hide BitStep;
    if bits != [] {
      ClearedFrom(BitStep(c, bits[0]), bits[1..]);
      BelowTopOdd(|bits| - 1);
      StepBack(c, bits[0], BelowTop(|bits| - 1));
    }
  }

  lemma OddMask(m: bv16)
    requires m & 1 == 1
    ensures 0x1021 & m != 0
  {
  }

  lemma StaysSet(bits: seq<bool>)
    requires |bits| <= 15
    ensures FoldBits(0x1021, bits) != 0
  {
    BelowTopOdd(|bits|);
    OddMask(BelowTop(|bits|));
    if FoldBits(0x1021, bits) == 0 {
      ClearedFrom(0x1021, bits);
    }
  }

  /** A burst no longer than the register never leaves it at zero, however many
      correct bits surround it. */
  lemma BurstDetected(e: seq<bool>, lo: int)
    requires BurstAt(e, 16, lo)
    ensures FoldBits(0, e) != 0
  {
    hide Shift;
    var hi := if lo + 16 <= |e| then lo + 16 else |e|;
    var head, mid, tail := e[..lo], e[lo + 1..hi], e[hi..];
    assert e == head + ([true] + (mid + tail));
    FoldBitsConcat(0, head, [true] + (mid + tail));
    QuietBits(0, head);
    assert ([true] + (mid + tail))[1..] == mid + tail;
    assert BitStep(0, true) == 0x1021 by { FirstBit(); }
    FoldBitsConcat(0x1021, mid, tail);
    StaysSet(mid);
    QuietBits(FoldBits(0x1021, mid), tail);
  }

  lemma FirstBit()
    ensures BitStep(0, true) == 0x1021
  {
  }

  // ---- Odd numbers of flipped bits ----

  /** Whether an odd number of the `n` leading bits of a register is set. */
  function Odd(c: bv16, n: nat): bool
    decreases n
  {
    if n == 0 then false else (c & 0x8000 != 0) != Odd(c << 1, n - 1)
  }

  function Parity(c: bv16): bool
  {
    Odd(c, 16)
  }

  lemma {:induction false} OddLinear(a: bv16, b: bv16, n: nat)
    ensures Odd(Xor(a, b), n) == (Odd(a, n) != Odd(b, n))
    decreases n
  {
    hide Xor;
    if n > 0 {
      XorStep(a, b);
      XorTop(a, b);
      OddLinear(a << 1, b << 1, n - 1);
    }
  }

  lemma XorStep(a: bv16, b: bv16)
    ensures Xor(a, b) << 1 == Xor(a << 1, b << 1)
  {
    hide Xor;
    XorDefined(a, b);
    XorDefined(a << 1, b << 1);
    XorSplit(a, b);
  }

  lemma XorDefined(a: bv16, b: bv16)
    ensures Xor(a, b) == a ^ b
  {
  }

  lemma XorTop(a: bv16, b: bv16)
    ensures (Xor(a, b) & 0x8000 != 0) == ((a & 0x8000 != 0) != (b & 0x8000 != 0))
  {
  }

  function Left(c: bv16, n: nat): bv16
    decreases n
  {
    if n == 0 then c else Left(c << 1, n - 1)
  }

  lemma {:induction false} OddOneMore(c: bv16, n: nat)
    ensures Odd(c, n + 1) == (Odd(c, n) != (Left(c, n) & 0x8000 != 0))
    decreases n
  {
    if n > 0 {
      OddOneMore(c << 1, n - 1);
    }
  }

  lemma LeftEmpty(c: bv16)
    ensures Left(c, 16) == 0
  {
    assert Left(c, 16) == Left(c << 1 << 1 << 1 << 1, 12);
    assert Left(c << 1 << 1 << 1 << 1, 12) == Left(c << 1 << 1 << 1 << 1 << 1 << 1 << 1 << 1, 8);
    var d := c << 1 << 1 << 1 << 1 << 1 << 1 << 1 << 1;
    assert Left(d, 8) == Left(d << 1 << 1 << 1 << 1, 4);
    assert Left(d << 1 << 1 << 1 << 1, 4) == Left(d << 1 << 1 << 1 << 1 << 1 << 1 << 1 << 1, 0);
  }

  lemma ParityTop(c: bv16)
    ensures Parity(Xor(c, 0x8000)) == !Parity(c)
  {
    OddLinear(c, 0x8000, 16);
    hide Xor;
    assert Odd(0x8000, 16);
  }

  lemma ShiftParts(c: bv16)
    ensures Shift(c) == if c & 0x8000 != 0 then Xor(c << 1, 0x1021) else c << 1
  {
  }

  lemma ParityDoubled(c: bv16)
    ensures Odd(c << 1, 16) == (Odd(c, 16) != (c & 0x8000 != 0))
  {
    OddOneMore(c << 1, 15);
    LeftEmpty(c);
    assert Left(c, 16) == Left(c << 1, 15);
  }

  lemma OddGenerator()
    ensures Odd(0x1021, 16)
  {
    assert Odd(0x1021, 16) == !Odd(0x2100, 8) == Odd(0x1000, 4);
  }

  lemma ParityShift(c: bv16)
    ensures Parity(Shift(c)) == Parity(c)
  {
    hide Shift, Xor;
    ShiftParts(c);
    OddLinear(c << 1, 0x1021, 16);
    OddGenerator();
    hide Odd;
    ParityDoubled(c);
  }

  /** The generator has an even number of terms, so every step keeps the parity of
      register and message together. */
  lemma {:induction false} ParityKept(c: bv16, bits: seq<bool>)
    ensures Parity(FoldBits(c, bits)) == (Parity(c) != OddFlips(bits))
    decreases |bits|
  {
    hide Parity, Shift, Xor;
    if bits != [] {
      var d := if bits[0] then Xor(c, 0x8000) else c;
      ParityTop(c);
      ParityShift(d);
      ParityKept(BitStep(c, bits[0]), bits[1..]);
    }
  }

  /** No burst of at most 16 bits and no odd number of flips is a multiple of the generator. */
  lemma Detected(es: seq<byte>)
    requires Burst(Bits(es), 16) || OddFlips(Bits(es))
    ensures Fold(0, es) != 0
  {
    hide BitStep;
    FoldIsBits(0, es);
    if Burst(Bits(es), 16) {
      var lo :| BurstAt(Bits(es), 16, lo);
      BurstDetected(Bits(es), lo);
    } else {
      ParityKept(0, Bits(es));
    }
  }

  /** The bound 16 is exact: the generator itself is a burst of 17 bits that goes unnoticed. */
  lemma SeventeenBitBurstMissed()
    ensures Fold(0, [0x01, 0x10, 0x21]) == 0
    ensures Burst(Bits([0x01, 0x10, 0x21]), 17)
  {
    assert Update(0, 0x01) == 0x1021 && Update(0x1021, 0x10) == 0x2100 && Update(0x2100, 0x21) == 0 by {
      GeneratorSteps();
    }
    var es: seq<byte> := [0x01, 0x10, 0x21];
    assert es[1..] == [0x10, 0x21] && es[1..][1..] == [0x21];
    assert LeadingBits(0x01, 8) == [false, false, false, false, false, false, false, true];
    assert BurstAt(Bits(es), 17, 7);
  }

  lemma GeneratorSteps()
    ensures Update(0, 0x01) == 0x1021 && Update(0x1021, 0x10) == 0x2100 && Update(0x2100, 0x21) == 0
  {
    assert Shifts(0x0100, 8) == 0x1021;
    assert Shifts(0x0021, 8) == 0x2100;
    assert Shifts(0x0000, 8) == 0x0000;
  }
}
