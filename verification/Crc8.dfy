/** CRC-8/CCITT (generator x^8 + x^2 + x + 1, register initially zero) as the table of
    `attentio_protocol.c` computes it, and the bit-serial division the table stands for. */
module Crc8 {
  import opened Bytes

  /** The lookup table, one row for each high nibble of the index. */
  const TABLE: seq<seq<byte>> := [
    [0x00, 0x07, 0x0E, 0x09, 0x1C, 0x1B, 0x12, 0x15, 0x38, 0x3F, 0x36, 0x31, 0x24, 0x23, 0x2A, 0x2D],
    [0x70, 0x77, 0x7E, 0x79, 0x6C, 0x6B, 0x62, 0x65, 0x48, 0x4F, 0x46, 0x41, 0x54, 0x53, 0x5A, 0x5D],
    [0xE0, 0xE7, 0xEE, 0xE9, 0xFC, 0xFB, 0xF2, 0xF5, 0xD8, 0xDF, 0xD6, 0xD1, 0xC4, 0xC3, 0xCA, 0xCD],
    [0x90, 0x97, 0x9E, 0x99, 0x8C, 0x8B, 0x82, 0x85, 0xA8, 0xAF, 0xA6, 0xA1, 0xB4, 0xB3, 0xBA, 0xBD],
    [0xC7, 0xC0, 0xC9, 0xCE, 0xDB, 0xDC, 0xD5, 0xD2, 0xFF, 0xF8, 0xF1, 0xF6, 0xE3, 0xE4, 0xED, 0xEA],
    [0xB7, 0xB0, 0xB9, 0xBE, 0xAB, 0xAC, 0xA5, 0xA2, 0x8F, 0x88, 0x81, 0x86, 0x93, 0x94, 0x9D, 0x9A],
    [0x27, 0x20, 0x29, 0x2E, 0x3B, 0x3C, 0x35, 0x32, 0x1F, 0x18, 0x11, 0x16, 0x03, 0x04, 0x0D, 0x0A],
    [0x57, 0x50, 0x59, 0x5E, 0x4B, 0x4C, 0x45, 0x42, 0x6F, 0x68, 0x61, 0x66, 0x73, 0x74, 0x7D, 0x7A],
    [0x89, 0x8E, 0x87, 0x80, 0x95, 0x92, 0x9B, 0x9C, 0xB1, 0xB6, 0xBF, 0xB8, 0xAD, 0xAA, 0xA3, 0xA4],
    [0xF9, 0xFE, 0xF7, 0xF0, 0xE5, 0xE2, 0xEB, 0xEC, 0xC1, 0xC6, 0xCF, 0xC8, 0xDD, 0xDA, 0xD3, 0xD4],
    [0x69, 0x6E, 0x67, 0x60, 0x75, 0x72, 0x7B, 0x7C, 0x51, 0x56, 0x5F, 0x58, 0x4D, 0x4A, 0x43, 0x44],
    [0x19, 0x1E, 0x17, 0x10, 0x05, 0x02, 0x0B, 0x0C, 0x21, 0x26, 0x2F, 0x28, 0x3D, 0x3A, 0x33, 0x34],
    [0x4E, 0x49, 0x40, 0x47, 0x52, 0x55, 0x5C, 0x5B, 0x76, 0x71, 0x78, 0x7F, 0x6A, 0x6D, 0x64, 0x63],
    [0x3E, 0x39, 0x30, 0x37, 0x22, 0x25, 0x2C, 0x2B, 0x06, 0x01, 0x08, 0x0F, 0x1A, 0x1D, 0x14, 0x13],
    [0xAE, 0xA9, 0xA0, 0xA7, 0xB2, 0xB5, 0xBC, 0xBB, 0x96, 0x91, 0x98, 0x9F, 0x8A, 0x8D, 0x84, 0x83],
    [0xDE, 0xD9, 0xD0, 0xD7, 0xC2, 0xC5, 0xCC, 0xCB, 0xE6, 0xE1, 0xE8, 0xEF, 0xFA, 0xFD, 0xF4, 0xF3]
  ]

  lemma TableShape()
    ensures |TABLE| == 16
    ensures forall h :: 0 <= h < 16 ==> |TABLE[h]| == 16
  {
  }

  function Lookup(i: byte): byte
  {
    TableShape();
    TABLE[(i >> 4) as nat][(i & 0xF) as nat]
  }

  /** One step of the division by 0x07, most significant bit first. */
  function Shift(c: byte): byte
  {
    if c & 0x80 != 0 then (c << 1) ^ 0x07 else c << 1
  }

  function Shifts(c: byte, n: nat): byte
    decreases n
  {
    if n == 0 then c else Shifts(Shift(c), n - 1)
  }

  function Update(crc: byte, b: byte): byte
  {
    Shifts(crc ^ b, BITS_PER_BYTE)
  }

  /** Remainder register after the bytes `bs`. */
  function Fold(crc: byte, bs: seq<byte>): byte
    decreases |bs|
  {
    if bs == [] then crc else Fold(Update(crc, bs[0]), bs[1..])
  }

  function Crc(bs: seq<byte>): byte
  {
    Fold(0, bs)
  }

  // ---- The table holds the eight-step remainders ----

  function Xor(a: byte, b: byte): byte
  {
    a ^ b
  }

  /** Row `h` is the first row with a constant added. */
  ghost predicate RowIs(row: seq<byte>, d: byte, r: seq<byte>)
  {
    && |row| == |r| == 16
    && row[0] == Xor(d, r[0]) && row[1] == Xor(d, r[1]) && row[2] == Xor(d, r[2]) && row[3] == Xor(d, r[3])
    && row[4] == Xor(d, r[4]) && row[5] == Xor(d, r[5]) && row[6] == Xor(d, r[6]) && row[7] == Xor(d, r[7])
    && row[8] == Xor(d, r[8]) && row[9] == Xor(d, r[9]) && row[10] == Xor(d, r[10]) && row[11] == Xor(d, r[11])
    && row[12] == Xor(d, r[12]) && row[13] == Xor(d, r[13]) && row[14] == Xor(d, r[14]) && row[15] == Xor(d, r[15])
  }

  lemma Rows0()
    ensures RowIs(TABLE[0], 0x00, TABLE[0])
    ensures RowIs(TABLE[1], 0x70, TABLE[0])
    ensures RowIs(TABLE[2], 0xE0, TABLE[0])
    ensures RowIs(TABLE[3], 0x90, TABLE[0])
  {
  }

  lemma Rows1()
    ensures RowIs(TABLE[4], 0xC7, TABLE[0])
    ensures RowIs(TABLE[5], 0xB7, TABLE[0])
    ensures RowIs(TABLE[6], 0x27, TABLE[0])
    ensures RowIs(TABLE[7], 0x57, TABLE[0])
  {
  }

  lemma Rows2()
    ensures RowIs(TABLE[8], 0x89, TABLE[0])
    ensures RowIs(TABLE[9], 0xF9, TABLE[0])
    ensures RowIs(TABLE[10], 0x69, TABLE[0])
    ensures RowIs(TABLE[11], 0x19, TABLE[0])
  {
  }

  lemma Rows3()
    ensures RowIs(TABLE[12], 0x4E, TABLE[0])
    ensures RowIs(TABLE[13], 0x3E, TABLE[0])
    ensures RowIs(TABLE[14], 0xAE, TABLE[0])
    ensures RowIs(TABLE[15], 0xDE, TABLE[0])
  {
  }

  lemma FirstRow0()
    ensures Shifts(0x00, 8) == 0x00 && Shifts(0x01, 8) == 0x07 && Shifts(0x02, 8) == 0x0E && Shifts(0x03, 8) == 0x09
  {
  }

  lemma FirstRow1()
    ensures Shifts(0x04, 8) == 0x1C && Shifts(0x05, 8) == 0x1B && Shifts(0x06, 8) == 0x12 && Shifts(0x07, 8) == 0x15
  {
  }

  lemma FirstRow2()
    ensures Shifts(0x08, 8) == 0x38 && Shifts(0x09, 8) == 0x3F && Shifts(0x0A, 8) == 0x36 && Shifts(0x0B, 8) == 0x31
  {
  }

  lemma FirstRow3()
    ensures Shifts(0x0C, 8) == 0x24 && Shifts(0x0D, 8) == 0x23 && Shifts(0x0E, 8) == 0x2A && Shifts(0x0F, 8) == 0x2D
  {
  }

  lemma FirstColumn0()
    ensures Shifts(0x00, 8) == 0x00 && Shifts(0x10, 8) == 0x70 && Shifts(0x20, 8) == 0xE0 && Shifts(0x30, 8) == 0x90
  {
  }

  lemma FirstColumn1()
    ensures Shifts(0x40, 8) == 0xC7 && Shifts(0x50, 8) == 0xB7 && Shifts(0x60, 8) == 0x27 && Shifts(0x70, 8) == 0x57
  {
  }

  lemma FirstColumn2()
    ensures Shifts(0x80, 8) == 0x89 && Shifts(0x90, 8) == 0xF9 && Shifts(0xA0, 8) == 0x69 && Shifts(0xB0, 8) == 0x19
  {
  }

  lemma FirstColumn3()
    ensures Shifts(0xC0, 8) == 0x4E && Shifts(0xD0, 8) == 0x3E && Shifts(0xE0, 8) == 0xAE && Shifts(0xF0, 8) == 0xDE
  {
  }

  lemma Nibbles(n: byte)
    requires n < 16
    ensures n == 0 || n == 1 || n == 2 || n == 3 || n == 4 || n == 5 || n == 6 || n == 7
         || n == 8 || n == 9 || n == 10 || n == 11 || n == 12 || n == 13 || n == 14 || n == 15
  {
  }

  lemma RowOf(h: byte)
    requires h < 16
    ensures |TABLE| == 16 && RowIs(TABLE[h as nat], Shifts(h << 4, BITS_PER_BYTE), TABLE[0])
  {
    hide RowIs, Shifts;
    TableShape();
    Nibbles(h);
    if h < 4 {
      Rows0(); FirstColumn0();
    } else if h < 8 {
      Rows1(); FirstColumn1();
    } else if h < 12 {
      Rows2(); FirstColumn2();
    } else {
      Rows3(); FirstColumn3();
    }
  }

  lemma FirstRowOf(lo: byte)
    requires lo < 16
    ensures |TABLE| == 16 && |TABLE[0]| == 16 && TABLE[0][lo as nat] == Shifts(lo, BITS_PER_BYTE)
  {
    hide Shifts;
    TableShape();
    Nibbles(lo);
    if lo < 4 {
      FirstRow0();
    } else if lo < 8 {
      FirstRow1();
    } else if lo < 12 {
      FirstRow2();
    } else {
      FirstRow3();
    }
  }

  lemma EntryOf(row: seq<byte>, d: byte, r: seq<byte>, lo: byte)
    requires RowIs(row, d, r) && lo < 16
    ensures row[lo as nat] == Xor(d, r[lo as nat])
  {
    hide Xor;
    Nibbles(lo);
  }

  lemma NibbleJoin(i: byte)
    ensures Xor((i >> 4) << 4, i & 0xF) == i
    ensures i >> 4 < 16 && i & 0xF < 16
  {
  }

  lemma XorSplit(a: byte, b: byte)
    ensures (a ^ b) << 1 == (a << 1) ^ (b << 1)
    ensures (a ^ b) & 0x80 == (a & 0x80) ^ (b & 0x80)
    ensures a & 0x80 == 0 || a & 0x80 == 0x80
    ensures b & 0x80 == 0 || b & 0x80 == 0x80
  {
  }

  lemma XorGenerator(x: byte, y: byte)
    ensures (x ^ 0x07) ^ y == (x ^ y) ^ 0x07 && x ^ (y ^ 0x07) == (x ^ y) ^ 0x07
  {
  }

  lemma XorGenerators(x: byte, y: byte)
    ensures (x ^ 0x07) ^ (y ^ 0x07) == x ^ y
  {
  }

  lemma ShiftLinear(a: byte, b: byte)
    ensures Shift(Xor(a, b)) == Xor(Shift(a), Shift(b))
  {
    XorSplit(a, b);
    XorGenerator(a << 1, b << 1);
    XorGenerators(a << 1, b << 1);
  }

  lemma {:induction false} ShiftsLinear(a: byte, b: byte, n: nat)
    ensures Shifts(Xor(a, b), n) == Xor(Shifts(a, n), Shifts(b, n))
    decreases n
  {
    hide Xor, Shift;
    if n > 0 {
      ShiftLinear(a, b);
      ShiftsLinear(Shift(a), Shift(b), n - 1);
    }
  }

  /** Every table entry is the remainder the bit-serial division leaves. */
  lemma TableIsRemainder(i: byte)
    ensures Lookup(i) == Shifts(i, BITS_PER_BYTE)
  {
    hide Xor, Shifts, RowIs;
    var h, lo := i >> 4, i & 0xF;
    NibbleJoin(i);
    RowOf(h);
    FirstRowOf(lo);
    EntryOf(TABLE[h as nat], Shifts(h << 4, BITS_PER_BYTE), TABLE[0], lo);
    ShiftsLinear(h << 4, lo, BITS_PER_BYTE);
  }

  lemma LookupIsUpdate(crc: byte, b: byte)
    ensures Lookup(crc ^ b) == Update(crc, b)
  {
    hide Lookup, Shifts;
    TableIsRemainder(crc ^ b);
  }

  /** `ap_crc8`, continued from a given register as the packet parser does. */
  method Continue(crc: byte, data: array<byte>, lo: nat, hi: nat) returns (r: byte)
    requires lo <= hi <= data.Length
    ensures r == Fold(crc, data[lo..hi])
  {
    r := crc;
    for i := lo to hi
      invariant Fold(r, data[i..hi]) == Fold(crc, data[lo..hi])
    {
      hide Lookup, Update;
      assert data[i..hi][1..] == data[i + 1..hi];
      LookupIsUpdate(r, data[i]);
      r := Lookup(r ^ data[i]);
    }
  }

  lemma {:induction false} FoldConcat(c: byte, xs: seq<byte>, ys: seq<byte>)
    ensures Fold(c, xs + ys) == Fold(Fold(c, xs), ys)
    decreases |xs|
  {
    hide Update;
    if xs == [] {
      assert xs + ys == ys;
    } else {
      assert (xs + ys)[1..] == xs[1..] + ys;
      FoldConcat(Update(c, xs[0]), xs[1..], ys);
    }
  }

  lemma FoldSnoc(c: byte, xs: seq<byte>, b: byte)
    ensures Fold(c, xs + [b]) == Update(Fold(c, xs), b)
  {
    hide Update;
    FoldConcat(c, xs, [b]);
    assert [b][1..] == [];
  }

  // ---- Error detection ----

  lemma XorShuffle(a: byte, b: byte, x: byte, y: byte)
    ensures (a ^ b) ^ (x ^ y) == (a ^ x) ^ (b ^ y)
  {
  }

  lemma UpdateLinear(a: byte, b: byte, x: byte, y: byte)
    ensures Update(Xor(a, b), FlipByte(x, y)) == Xor(Update(a, x), Update(b, y))
  {
    hide Shifts;
    XorShuffle(a, b, x, y);
    ShiftsLinear(a ^ x, b ^ y, BITS_PER_BYTE);
  }

  lemma {:induction false} FoldLinear(a: byte, b: byte, bs: seq<byte>, es: seq<byte>)
    requires |bs| == |es|
    ensures Fold(Xor(a, b), Flip(bs, es)) == Xor(Fold(a, bs), Fold(b, es))
    decreases |bs|
  {
    hide Xor, Update, FlipByte;
    if bs != [] {
      assert Flip(bs, es)[1..] == Flip(bs[1..], es[1..]);
      UpdateLinear(a, b, bs[0], es[0]);
      FoldLinear(Update(a, bs[0]), Update(b, es[0]), bs[1..], es[1..]);
    }
  }

  lemma ShiftKernel(c: byte)
    ensures Shift(c) == 0 <==> c == 0
  {
  }

  lemma {:induction false} ShiftsKernel(c: byte, n: nat)
    ensures Shifts(c, n) == 0 <==> c == 0
    decreases n
  {
    hide Shift;
    if n > 0 {
      ShiftKernel(c);
      ShiftsKernel(Shift(c), n - 1);
    }
  }

  /** One wrong byte anywhere in a message, and nothing else. */
  ghost predicate OneByte(es: seq<byte>)
  {
    exists k :: OneByteAt(es, k)
  }

  ghost predicate OneByteAt(es: seq<byte>, k: int)
  {
    0 <= k < |es| && es[k] != 0 && forall i :: 0 <= i < |es| && i != k ==> es[i] == 0
  }

  lemma {:induction false} ZerosKeep(c: byte, es: seq<byte>)
    requires forall i :: 0 <= i < |es| ==> es[i] == 0
    ensures Fold(c, es) == 0 <==> c == 0
    decreases |es|
  {
    hide Shifts;
    if es != [] {
      ShiftsKernel(c, BITS_PER_BYTE);
      assert c ^ es[0] == c;
      ZerosKeep(Update(c, es[0]), es[1..]);
    }
  }

  lemma OneByteSeen(es: seq<byte>, k: int)
    requires OneByteAt(es, k)
    ensures Fold(0, es) != 0
  {
    hide Shifts;
    assert es == es[..k] + ([es[k]] + es[k + 1..]);
    FoldConcat(0, es[..k], [es[k]] + es[k + 1..]);
    ZerosKeep(0, es[..k]);
    assert ([es[k]] + es[k + 1..])[1..] == es[k + 1..];
    assert 0 ^ es[k] == es[k];
    ShiftsKernel(es[k], BITS_PER_BYTE);
    ZerosKeep(Update(0, es[k]), es[k + 1..]);
  }

  /** Whether an odd number of the `n` leading bits is set. */
  function Odd(c: byte, n: nat): bool
    decreases n
  {
    if n == 0 then false else (c & 0x80 != 0) != Odd(c << 1, n - 1)
  }

  lemma {:induction false} OddLinear(a: byte, b: byte, n: nat)
    ensures Odd(Xor(a, b), n) == (Odd(a, n) != Odd(b, n))
    decreases n
  {
    hide Xor;
    if n > 0 {
      XorStep(a, b);
      XorTop(a, b);
      OddLinear(a << 1, b << 1, n - 1);
    }
  }

  lemma XorStep(a: byte, b: byte)
    ensures Xor(a, b) << 1 == Xor(a << 1, b << 1)
  {
  }

  lemma XorTop(a: byte, b: byte)
    ensures (Xor(a, b) & 0x80 != 0) == ((a & 0x80 != 0) != (b & 0x80 != 0))
  {
  }

  lemma ParityDoubled(c: byte)
    ensures Odd(c << 1, 8) == (Odd(c, 8) != (c & 0x80 != 0))
  {
    var d := c << 1 << 1 << 1 << 1;
    assert Odd(c, 8) == ((c & 0x80 != 0) != Odd(c << 1, 7));
    OddTail(c << 1);
  }

  lemma OddTail(d: byte)
    requires d & 1 == 0
    ensures Odd(d, 8) == Odd(d, 7)
  {
  }

  lemma ShiftParts(c: byte)
    ensures Shift(c) == if c & 0x80 != 0 then Xor(c << 1, 0x07) else c << 1
  {
  }

  lemma ParityShift(c: byte)
    ensures Odd(Shift(c), 8) == Odd(c, 8)
  {
    hide Shift, Xor;
    ShiftParts(c);
    OddLinear(c << 1, 0x07, 8);
    assert Odd(0x07, 8);
    hide Odd;
    ParityDoubled(c);
  }

  lemma {:induction false} ParityShifts(c: byte, n: nat)
    ensures Odd(Shifts(c, n), 8) == Odd(c, 8)
    decreases n
  {
    hide Shift, Odd;
    if n > 0 {
      ParityShift(c);
      ParityShifts(Shift(c), n - 1);
    }
  }

  lemma {:induction false} OddBits(b: byte, n: nat)
    ensures Odd(b, n) == OddFlips(LeadingBits(b, n))
    decreases n
  {
    if n > 0 {
      OddBits(b << 1, n - 1);
      assert LeadingBits(b, n)[1..] == LeadingBits(b << 1, n - 1);
    }
  }

  /** Register and message keep their common parity, because the generator has an even
      number of terms. */
  lemma {:induction false} ParityKept(c: byte, bs: seq<byte>)
    ensures Odd(Fold(c, bs), 8) == (Odd(c, 8) != OddFlips(Bits(bs)))
    decreases |bs|
  {
    hide Odd, Shifts, LeadingBits, Xor;
    if bs != [] {
      UpdateXor(c, bs[0]);
      OddLinear(c, bs[0], 8);
      ParityShifts(Xor(c, bs[0]), BITS_PER_BYTE);
      OddBits(bs[0], BITS_PER_BYTE);
      OnesConcat(LeadingBits(bs[0], BITS_PER_BYTE), Bits(bs[1..]));
      ParityKept(Update(c, bs[0]), bs[1..]);
    }
  }

  lemma UpdateXor(c: byte, b: byte)
    ensures Update(c, b) == Shifts(Xor(c, b), BITS_PER_BYTE)
  {
    hide Shifts;
  }

  /** A single wrong byte or an odd number of wrong bits always leaves a remainder. */
  lemma Detected(es: seq<byte>)
    requires OneByte(es) || OddFlips(Bits(es))
    ensures Fold(0, es) != 0
  {
    if OneByte(es) {
      var k :| OneByteAt(es, k);
      OneByteSeen(es, k);
    } else {
      hide Update, Bits;
      ParityKept(0, es);
      assert !Odd(0, 8);
    }
  }
}
