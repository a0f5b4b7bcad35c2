/** CRC-16/CCITT-FALSE, as `crc16_ccitt.c` computes it bit by bit. */
module Crc16 {
  import opened Bytes

  const INIT: bv16 := 0xFFFF

  /** One turn of the shift loop: generator 0x1021, most significant bit first. */
  function Shift(c: bv16): bv16
  {
    if c & 0x8000 != 0 then (c << 1) ^ 0x1021 else c << 1
  }

  function Shifts(c: bv16, n: nat): bv16
    decreases n
  {
    if n == 0 then c else Shifts(Shift(c), n - 1)
  }

  /** The byte enters at the top of the register. */
  function Load(crc: bv16, b: byte): bv16
  {
    crc ^ ((b as bv16) << 8)
  }

  /** Register after folding in one byte. */
  function Update(crc: bv16, b: byte): bv16
  {
    Shifts(Load(crc, b), BITS_PER_BYTE)
  }

  function Fold(crc: bv16, bs: seq<byte>): bv16
    decreases |bs|
  {
    if bs == [] then crc else Fold(Update(crc, bs[0]), bs[1..])
  }

  function Crc(bs: seq<byte>): bv16
  {
    Fold(INIT, bs)
  }

  /** The two bytes a register value is transmitted as, high byte first. */
  function Wire(crc: bv16): seq<byte>
  {
    [(crc >> 8) as bv8, (crc & 0xFF) as bv8]
  }

  method UpdateByte(crc: bv16, b: byte) returns (r: bv16)
    ensures r == Update(crc, b)
  {
    r := crc ^ ((b as bv16) << 8);
    for i := 0 to BITS_PER_BYTE
      invariant Shifts(r, BITS_PER_BYTE - i) == Update(crc, b)
    {
      if r & 0x8000 != 0 {
        r := (r << 1) ^ 0x1021;
      } else {
        r := r << 1;
      }
    }
  }

  method Compute(data: array<byte>, lo: nat, hi: nat) returns (crc: bv16)
    requires lo <= hi <= data.Length
    ensures crc == Crc(data[lo..hi])
  {
    crc := INIT;
    for i := lo to hi
      invariant Fold(crc, data[i..hi]) == Crc(data[lo..hi])
    {
      assert data[i..hi][1..] == data[i + 1..hi];
      crc := UpdateByte(crc, data[i]);
    }
  }

  lemma {:induction false} FoldConcat(c: bv16, xs: seq<byte>, ys: seq<byte>)
    ensures Fold(c, xs + ys) == Fold(Fold(c, xs), ys)
    decreases |xs|
  {
    hide Update;
    if xs == [] {
      assert xs + ys == ys;
    } else {
      assert (xs + ys)[1..] == xs[1..] + ys;
      FoldConcat(Update(c, xs[0]), xs[1..], ys);
    }
  }

  lemma FoldSnoc(c: bv16, xs: seq<byte>, b: byte)
    ensures Fold(c, xs + [b]) == Update(Fold(c, xs), b)
  {
    hide Update;
    FoldConcat(c, xs, [b]);
    assert [b][1..] == [];
  }

  // ---- Linearity over exclusive or ----

  function Xor(a: bv16, b: bv16): bv16
  {
    a ^ b
  }

  lemma LoadIsXor(c: bv16, b: byte)
    ensures Load(c, b) == Xor(c, (b as bv16) << 8)
  {
  }

  lemma XorSplit(a: bv16, b: bv16)
    ensures (a ^ b) << 1 == (a << 1) ^ (b << 1)
    ensures (a ^ b) & 0x8000 == (a & 0x8000) ^ (b & 0x8000)
    ensures a & 0x8000 == 0 || a & 0x8000 == 0x8000
    ensures b & 0x8000 == 0 || b & 0x8000 == 0x8000
  {
  }

  lemma XorGenerator(x: bv16, y: bv16)
    ensures (x ^ 0x1021) ^ y == (x ^ y) ^ 0x1021 && x ^ (y ^ 0x1021) == (x ^ y) ^ 0x1021
  {
  }

  lemma XorGenerators(x: bv16, y: bv16)
    ensures (x ^ 0x1021) ^ (y ^ 0x1021) == x ^ y
  {
  }

  lemma ShiftLinear(a: bv16, b: bv16)
    ensures Shift(Xor(a, b)) == Xor(Shift(a), Shift(b))
  {
    XorSplit(a, b);
    XorGenerator(a << 1, b << 1);
    XorGenerators(a << 1, b << 1);
  }

  lemma {:induction false} ShiftsLinear(a: bv16, b: bv16, n: nat)
    ensures Shifts(Xor(a, b), n) == Xor(Shifts(a, n), Shifts(b, n))
    decreases n
  {
    hide Xor, Shift;
    if n > 0 {
      ShiftLinear(a, b);
      ShiftsLinear(Shift(a), Shift(b), n - 1);
    }
  }

  lemma XorShuffle(a: bv16, b: bv16, x: byte, y: byte)
    ensures (a ^ b) ^ (((x ^ y) as bv16) << 8) == (a ^ ((x as bv16) << 8)) ^ (b ^ ((y as bv16) << 8))
  {
  }

  lemma Loaded(a: bv16, b: bv16, x: byte, y: byte)
    ensures Load(Xor(a, b), FlipByte(x, y)) == Xor(Load(a, x), Load(b, y))
  {
    XorShuffle(a, b, x, y);
  }

  lemma UpdateLinear(a: bv16, b: bv16, x: byte, y: byte)
    ensures Update(Xor(a, b), FlipByte(x, y)) == Xor(Update(a, x), Update(b, y))
  {
    hide Xor, Shifts, Load, FlipByte;
    Loaded(a, b, x, y);
    ShiftsLinear(Load(a, x), Load(b, y), BITS_PER_BYTE);
  }

  /** The register of a corrupted message is the register of the message, changed by
      the register that the error pattern alone would leave. */
  lemma {:induction false} FoldLinear(a: bv16, b: bv16, bs: seq<byte>, es: seq<byte>)
    requires |bs| == |es|
    ensures Fold(Xor(a, b), Flip(bs, es)) == Xor(Fold(a, bs), Fold(b, es))
    decreases |bs|
  {
    hide Xor, Update, FlipByte;
    if bs != [] {
      assert Flip(bs, es)[1..] == Flip(bs[1..], es[1..]);
      UpdateLinear(a, b, bs[0], es[0]);
      FoldLinear(Update(a, bs[0]), Update(b, es[0]), bs[1..], es[1..]);
    }
  }

  // ---- The register is zero exactly over a message that carries its own CRC ----

  lemma ShiftBits(c: bv16)
    ensures c & 0x8000 != 0 ==> (c << 1) ^ 0x1021 != 0
    ensures c & 0x8000 == 0 && c << 1 == 0 ==> c == 0
  {
  }

  lemma ShiftKernel(c: bv16)
    ensures Shift(c) == 0 <==> c == 0
  {
    ShiftBits(c);
  }

  lemma {:induction false} ShiftsKernel(c: bv16, n: nat)
    ensures Shifts(c, n) == 0 <==> c == 0
    decreases n
  {
    hide Shift;
    if n > 0 {
      ShiftKernel(c);
      ShiftsKernel(Shift(c), n - 1);
    }
  }

  lemma ShiftClear(c: bv16)
    requires c & 0x8000 == 0
    ensures Shift(c) == c << 1
  {
  }

  lemma LowByteClear(b: byte)
    ensures var c := b as bv16;
            && c & 0x8000 == 0 && (c << 1) & 0x8000 == 0 && (c << 2) & 0x8000 == 0 && (c << 3) & 0x8000 == 0
            && (c << 4) & 0x8000 == 0 && (c << 5) & 0x8000 == 0 && (c << 6) & 0x8000 == 0 && (c << 7) & 0x8000 == 0
  {
  }

  lemma ShiftTwice(c: bv16)
    ensures (c << 1) << 1 == c << 2 && (c << 2) << 1 == c << 3 && (c << 3) << 1 == c << 4 && (c << 4) << 1 == c << 5
    ensures (c << 5) << 1 == c << 6 && (c << 6) << 1 == c << 7 && (c << 7) << 1 == c << 8
  {
  }

  /** A register that holds only a low byte is moved to the high byte by eight turns. */
  lemma ShiftLowByte(b: byte)
    ensures Shifts(b as bv16, BITS_PER_BYTE) == (b as bv16) << 8
  {
    hide Shift;
    var c := b as bv16;
    LowByteClear(b);
    ShiftTwice(c);
    ShiftClear(c); ShiftClear(c << 1); ShiftClear(c << 2); ShiftClear(c << 3);
    ShiftClear(c << 4); ShiftClear(c << 5); ShiftClear(c << 6); ShiftClear(c << 7);
    assert Shifts(c, 8) == Shifts(c << 4, 4);
  }

  lemma WireBits(c: bv16, hi: byte, lo: byte)
    ensures (c ^ ((hi as bv16) << 8)) ^ (lo as bv16) == 0 <==> hi == (c >> 8) as bv8 && lo == (c & 0xFF) as bv8
  {
  }

  lemma FoldTwo(c: bv16, hi: byte, lo: byte)
    ensures Fold(c, [hi, lo]) == Update(Update(c, hi), lo)
  {
    hide Update;
    assert [hi, lo] == [hi] + [lo];
    FoldSnoc(c, [hi], lo);
    FoldSnoc(c, [], hi);
    assert [] + [hi] == [hi];
  }

  lemma WireSeq(c: bv16, hi: byte, lo: byte)
    ensures [hi, lo] == Wire(c) <==> hi == (c >> 8) as bv8 && lo == (c & 0xFF) as bv8
  {
  }

  lemma XorLoad(c: bv16, hi: byte, d: bv16)
    ensures Xor(Load(c, hi), d) == (c ^ ((hi as bv16) << 8)) ^ d
  {
  }

  lemma WireXor(c: bv16, hi: byte, lo: byte)
    ensures Xor(Load(c, hi), lo as bv16) == 0 <==> [hi, lo] == Wire(c)
  {
    hide Xor, Load, Wire;
    XorLoad(c, hi, lo as bv16);
    WireSeq(c, hi, lo);
    WireBits(c, hi, lo);
  }

  /** Two bytes that follow a message zero the register iff they are its CRC. */
  lemma ResidueZero(c: bv16, hi: byte, lo: byte)
    ensures Fold(c, [hi, lo]) == 0 <==> [hi, lo] == Wire(c)
  {
    hide Xor, Load, Wire, Shift, Shifts, Update;
    var x := Xor(Load(c, hi), lo as bv16);
    FoldTwo(c, hi, lo);
    ResidueShifts(c, hi, lo);
    ShiftsKernel(x, BITS_PER_BYTE);
    ShiftsKernel(Shifts(x, BITS_PER_BYTE), BITS_PER_BYTE);
    WireXor(c, hi, lo);
  }

  lemma ResidueShifts(c: bv16, hi: byte, lo: byte)
    ensures Update(Update(c, hi), lo) == Shifts(Shifts(Xor(Load(c, hi), lo as bv16), BITS_PER_BYTE), BITS_PER_BYTE)
  {
    hide Shift, Shifts, Load, Xor;
    var x := Load(c, hi);
    LoadIsXor(Update(c, hi), lo);
    ShiftLowByte(lo);
    ShiftsLinear(x, lo as bv16, BITS_PER_BYTE);
  }
}
