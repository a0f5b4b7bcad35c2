/** What the CRC-16 generator makes of two flipped bits: it misses them exactly when they are a
    multiple of 32767 bits apart. */
module DoubleErrors {
  import opened Arithmetic
  import opened Bytes
  import opened Crc16
  import opened ErrorDetection

  const ORDER: nat := 32767

  // ---- Turns of the register multiply polynomials ----

  lemma {:induction false} ShiftsAdd(c: bv16, m: nat, n: nat)
    ensures Shifts(c, m + n) == Shifts(Shifts(c, m), n)
    decreases m
  {
    hide Shift;
    if m > 0 {
      ShiftsAdd(Shift(c), m - 1, n);
    }
  }

  lemma ShiftsShift(c: bv16, n: nat)
    ensures Shifts(Shift(c), n) == Shift(Shifts(c, n))
  {
    hide Shift;
    ShiftsAdd(c, 1, n);
    ShiftsAdd(c, n, 1);
    assert Shifts(c, 1) == Shifts(Shift(c), 0);
    assert Shifts(Shifts(c, n), 1) == Shifts(Shift(Shifts(c, n)), 0);
  }

  /** Multiplies by x and adds `q` if `bit` is set. */
  function Turn(acc: bv16, bit: bool, q: bv16): bv16
  {
    Xor(Shift(acc), if bit then q else 0)
  }

  function Nibble(acc: bv16, h: bv4, q: bv16): bv16
  {
    Turn(Turn(Turn(Turn(acc, h & 8 != 0, q), h & 4 != 0, q), h & 2 != 0, q), h & 1 != 0, q)
  }

  /** Product of the polynomial with the hexadecimal digits `a`..`d` and `q`, modulo the generator. */
  function Times(a: bv4, b: bv4, c: bv4, d: bv4, q: bv16): bv16
  {
    Nibble(Nibble(Nibble(Nibble(0, a, q), b, q), c, q), d, q)
  }

  lemma TurnShifts(acc: bv16, bit: bool, n: nat)
    ensures Shifts(Turn(acc, bit, 1), n) == Turn(Shifts(acc, n), bit, Shifts(1, n))
  {
    hide Shift, Xor;
    ShiftsLinear(Shift(acc), if bit then 1 else 0, n);
    ShiftsShift(acc, n);
    ShiftsKernel(0, n);
  }

  lemma NibbleShifts(acc: bv16, h: bv4, n: nat)
    ensures Shifts(Nibble(acc, h, 1), n) == Nibble(Shifts(acc, n), h, Shifts(1, n))
  {
    hide Turn;
    var t1 := Turn(acc, h & 8 != 0, 1);
    var t2 := Turn(t1, h & 4 != 0, 1);
    var t3 := Turn(t2, h & 2 != 0, 1);
    TurnShifts(acc, h & 8 != 0, n);
    TurnShifts(t1, h & 4 != 0, n);
    TurnShifts(t2, h & 2 != 0, n);
    TurnShifts(t3, h & 1 != 0, n);
  }

  lemma TimesShifts(a: bv4, b: bv4, c: bv4, d: bv4, n: nat)
    ensures Shifts(Times(a, b, c, d, 1), n) == Times(a, b, c, d, Shifts(1, n))
  {
    hide Nibble;
    ShiftsKernel(0, n);
    NibbleShifts(0, a, n);
    NibbleShifts(Nibble(0, a, 1), b, n);
    NibbleShifts(Nibble(Nibble(0, a, 1), b, 1), c, n);
    NibbleShifts(Nibble(Nibble(Nibble(0, a, 1), b, 1), c, 1), d, n);
  }

  /** `x^m` times `x^n`, with `a`..`d` the digits of `x^m`. */
  lemma Product(m: nat, n: nat, a: bv4, b: bv4, c: bv4, d: bv4, p: bv16, q: bv16, r: bv16)
    requires Shifts(1, m) == p && Shifts(1, n) == q
    requires Times(a, b, c, d, 1) == p && Times(a, b, c, d, q) == r
    ensures Shifts(1, m + n) == r
  {
    hide Times, Shifts;
    ShiftsAdd(1, m, n);
    TimesShifts(a, b, c, d, n);
  }

  lemma Small()
    ensures Shifts(1, 1) == 0x0002 && Shifts(1, 8) == 0x0100 && Shifts(1, 9) == 0x0200
    ensures Shifts(1, 16) == 0x1021
  {
    assert Shifts(1, 8) == Shifts(0x10, 4);
    assert Shifts(1, 9) == Shifts(0x10, 5) == Shifts(0x100, 1);
    assert Shifts(1, 16) == Shifts(0x10, 12) == Shifts(0x100, 8) == Shifts(0x1000, 4);
  }

  lemma PowersLow()
    ensures Shifts(1, 32) == 0x3730 && Shifts(1, 64) == 0xb861 && Shifts(1, 128) == 0xaefc
    ensures Shifts(1, 256) == 0x8e29 && Shifts(1, 512) == 0x13fc && Shifts(1, 1024) == 0x36c4
  {
    hide Shifts;
    Small();
    Product(16, 16, 0x1, 0x0, 0x2, 0x1, 0x1021, 0x1021, 0x3730);
    Product(32, 32, 0x3, 0x7, 0x3, 0x0, 0x3730, 0x3730, 0xb861);
    Product(64, 64, 0xb, 0x8, 0x6, 0x1, 0xb861, 0xb861, 0xaefc);
    Product(128, 128, 0xa, 0xe, 0xf, 0xc, 0xaefc, 0xaefc, 0x8e29);
    Product(256, 256, 0x8, 0xe, 0x2, 0x9, 0x8e29, 0x8e29, 0x13fc);
    Product(512, 512, 0x1, 0x3, 0xf, 0xc, 0x13fc, 0x13fc, 0x36c4);
  }

  lemma PowersHigh()
    ensures Shifts(1, 2048) == 0xfd50 && Shifts(1, 4096) == 0xaa9e && Shifts(1, 8192) == 0x881c
    ensures Shifts(1, 16384) == 0x4458 && Shifts(1, 32768) == 0x0002
  {
    hide Shifts;
    PowersLow();
    Product(1024, 1024, 0x3, 0x6, 0xc, 0x4, 0x36c4, 0x36c4, 0xfd50);
    Product(2048, 2048, 0xf, 0xd, 0x5, 0x0, 0xfd50, 0xfd50, 0xaa9e);
    Product(4096, 4096, 0xa, 0xa, 0x9, 0xe, 0xaa9e, 0xaa9e, 0x881c);
    Product(8192, 8192, 0x8, 0x8, 0x1, 0xc, 0x881c, 0x881c, 0x4458);
    Product(16384, 16384, 0x4, 0x4, 0x5, 0x8, 0x4458, 0x4458, 0x0002);
  }

  lemma NotAt217()
    ensures Shifts(1, 217) != 1
  {
    hide Shifts;
    Small();
    PowersLow();
    PowersHigh();
    Product(128, 64, 0xa, 0xe, 0xf, 0xc, 0xaefc, 0xb861, 0x650b);
    Product(192, 16, 0x6, 0x5, 0x0, 0xb, 0x650b, 0x1021, 0x45b4);
    Product(208, 9, 0x4, 0x5, 0xb, 0x4, 0x45b4, 0x0200, 0x48e3);
  }

  lemma NotAt1057()
    ensures Shifts(1, 1057) != 1
  {
    hide Shifts;
    Small();
    PowersLow();
    PowersHigh();
    Product(1024, 32, 0x3, 0x6, 0xc, 0x4, 0x36c4, 0x3730, 0xf147);
    Product(1056, 1, 0xf, 0x1, 0x4, 0x7, 0xf147, 0x0002, 0xf2af);
  }

  lemma NotAt4681()
    ensures Shifts(1, 4681) != 1
  {
    hide Shifts;
    Small();
    PowersLow();
    PowersHigh();
    Product(4096, 512, 0xa, 0xa, 0x9, 0xe, 0xaa9e, 0x13fc, 0x54a0);
    Product(4608, 64, 0x5, 0x4, 0xa, 0x0, 0x54a0, 0xb861, 0x0106);
    Product(4672, 9, 0x0, 0x1, 0x0, 0x6, 0x0106, 0x0200, 0x2c42);
  }

  // ---- The order of x ----

  ghost predicate Period(n: nat)
  {
    Shifts(1, n) == 1
  }

  lemma ShiftInjective(a: bv16, b: bv16, n: nat)
    requires Shifts(a, n) == Shifts(b, n)
    ensures a == b
  {
    hide Shift, Shifts;
    ShiftsLinear(a, b, n);
    ShiftsKernel(Xor(a, b), n);
    XorSame(Shifts(a, n), Shifts(b, n));
    XorSame(a, b);
  }

  lemma XorSame(a: bv16, b: bv16)
    ensures Xor(a, b) == 0 <==> a == b
  {
    hide Xor;
    XorTwice(a, b);
    XorSelf(a);
  }

  lemma XorTwice(a: bv16, b: bv16)
    ensures Xor(a, Xor(a, b)) == b && Xor(a, 0) == a
  {
  }

  lemma XorSelf(a: bv16)
    ensures Xor(a, a) == 0
  {
  }

  lemma OrderIsPeriod()
    ensures Period(ORDER)
  {
    hide Shifts;
    Small();
    PowersHigh();
    ShiftsAdd(1, ORDER, 1);
    ShiftInjective(Shifts(1, ORDER), 1, 1);
  }

  lemma PeriodAdd(m: nat, n: nat)
    requires Period(m)
    ensures Period(m + n) <==> Period(n)
  {
    hide Shifts;
    ShiftsAdd(1, m, n);
  }

  lemma {:induction false} PeriodTimes(m: nat, q: nat)
    requires Period(m)
    ensures Period(m * q)
  {
    hide Shifts;
    if q == 0 {
      assert m * q == 0;
      assert Period(0) by { ShiftsNone(); }
    } else {
      PeriodTimes(m, q - 1);
      assert m * q == m + m * (q - 1);
      PeriodAdd(m, m * (q - 1));
    }
  }

  lemma ShiftsNone()
    ensures Shifts(1, 0) == 1
  {
  }

  lemma {:induction false} PeriodGcd(m: nat, n: nat)
    requires Period(m) && Period(n)
    ensures Period(Gcd(m, n))
    decreases n
  {
    hide Period;
    if n > 0 {
      PeriodTimes(n, m / n);
      DivMod(m, n);
      PeriodAdd(n * (m / n), m % n);
      PeriodGcd(n, m % n);
    }
  }

  lemma BothLarge(d: int, e: int)
    requires d > 12 && e > 12
    ensures d * e >= 169
  {
    assert d * e >= 13 * e;
  }

  lemma SameSign(c: nat, d: int)
    requires c * d > 0
    ensures d > 0
  {
  }

  lemma PrimeFactors(p: nat, d: int, e: int)
    requires p == 7 || p == 31 || p == 151
    requires d > 0 && e > 0 && d * e == p
    ensures d == 1 || e == 1
  {
    if d > 12 && e > 12 {
      BothLarge(d, e);
      assert false;
    } else if d <= 12 {
      assert d == 1 || d == 2 || d == 3 || d == 4 || d == 5 || d == 6
          || d == 7 || d == 8 || d == 9 || d == 10 || d == 11 || d == 12;
    } else {
      assert e == 1 || e == 2 || e == 3 || e == 4 || e == 5 || e == 6
          || e == 7 || e == 8 || e == 9 || e == 10 || e == 11 || e == 12;
    }
  }

  /** Takes a prime out of `k`, or shows that `k` divides what is left. */
  lemma TakePrime(p: nat, k: nat, g: int, m: int) returns (prime: bool, t: int)
    requires p == 7 || p == 31 || p == 151
    requires k > 0 && k * g == p * m
    ensures if prime then k == p * t else m == k * t
  {
    var c := Gcd(p, k);
    GcdDivides(p, k);
    var d: int :| c * d == p;
    SameSign(c, d);
    PrimeFactors(p, c, d);
    if c == 1 {
      prime := false;
      t := Euclid(k, g, p, m);
    } else {
      assert c == p;
      prime := true;
      t :| c * t == k;
    }
  }

  /** 32767 is 7 times 31 times 151, so a divisor that is not all of it divides one of three quotients. */
  lemma ProperDivisor(g: nat, k: nat) returns (t: nat, quotient: nat)
    requires g * k == ORDER && k != 1
    ensures quotient == 217 || quotient == 1057 || quotient == 4681
    ensures g * t == quotient
  {
    var p7, t7 := TakePrime(7, k, g, 4681);
    if p7 {
      Quotient(g, k, 7, t7);
      return t7, 4681;
    }
    var p31, t31 := TakePrime(31, k, t7, 151);
    if p31 {
      Quotient(g, k, 31, t31);
      return t31, 1057;
    }
    var p151, t151 := TakePrime(151, k, t31, 1);
    if p151 {
      Quotient(g, k, 151, t151);
      return t151, 217;
    }
    assert false;
  }

  lemma Quotient(g: nat, k: nat, p: nat, t: int)
    requires g * k == ORDER && p > 0 && k == p * t
    ensures t >= 0 && p * (g * t) == ORDER
  {
    assert g * k == p * (g * t);
    assert p * (t + 1) == p * t + p;
    SameSign(p, t + 1);
  }

  /** The powers of x repeat with period 32767 and no smaller one. */
  lemma PeriodIff(n: nat)
    ensures Period(n) <==> n % ORDER == 0
  {
    hide Period;
    OrderIsPeriod();
    if n % ORDER == 0 {
      PeriodTimes(ORDER, n / ORDER);
    }
    if Period(n) {
      var g := Gcd(ORDER, n);
      PeriodGcd(ORDER, n);
      GcdDivides(ORDER, n);
      var k: int :| g * k == ORDER;
      var q: int :| g * q == n;
      if k == 1 {
        assert n == ORDER * q;
      } else {
        ProperPeriod(g, k);
      }
    }
  }

  lemma ProperPeriod(g: nat, k: nat)
    requires g * k == ORDER && k != 1
    ensures !Period(g)
  {
    hide Period;
    if Period(g) {
      var t, quotient := ProperDivisor(g, k);
      PeriodTimes(g, t);
      NotPeriods();
    }
  }

  lemma NotPeriods()
    ensures !Period(217) && !Period(1057) && !Period(4681)
  {
    hide Shifts;
    NotAt217();
    NotAt1057();
    NotAt4681();
  }

  // ---- Two flipped bits ----

  /** Bits `i` and `j` are set, and no others. */
  ghost predicate TwoFlips(e: seq<bool>, i: nat, j: nat)
  {
    i < j < |e| && e[i] && e[j] && forall k :: 0 <= k < |e| && e[k] ==> k == i || k == j
  }

  lemma {:induction false} QuietTurns(c: bv16, bits: seq<bool>)
    requires forall i :: 0 <= i < |bits| ==> !bits[i]
    ensures FoldBits(c, bits) == Shifts(c, |bits|)
    decreases |bits|
  {
    hide Shift;
    if bits != [] {
      QuietTurns(BitStep(c, bits[0]), bits[1..]);
    }
  }

  lemma SecondFlip(c: bv16)
    ensures BitStep(c, true) == 0 <==> c == 0x8000
  {
    hide Shift;
    ShiftKernel(Xor(c, 0x8000));
    XorSame(c, 0x8000);
  }

  /** The register after the first flip and `n` quiet bits, against the one that the second flip clears. */
  lemma FlipsApart(n: nat)
    ensures Shifts(0x1021, n) == 0x8000 <==> (n + 1) % ORDER == 0
  {
    hide Shifts;
    Small();
    assert Shifts(1, 15) == 0x8000 by { TopPower(); }
    ShiftsAdd(1, 16, n);
    ShiftsAdd(1, n + 1, 15);
    if Shifts(0x1021, n) == 0x8000 {
      ShiftInjective(Shifts(1, n + 1), 1, 15);
    }
    PeriodIff(n + 1);
    assert Period(n + 1) <==> Shifts(1, n + 1) == 1;
  }

  lemma TopPower()
    ensures Shifts(1, 15) == 0x8000
  {
    assert Shifts(1, 15) == Shifts(0x10, 11) == Shifts(0x100, 7) == Shifts(0x1000, 3);
  }

  /** Two flipped bits leave a zero register iff their distance is a multiple of 32767. */
  lemma DoubleMissedIff(e: seq<bool>, i: nat, j: nat)
    requires TwoFlips(e, i, j)
    ensures FoldBits(0, e) == 0 <==> (j - i) % ORDER == 0
  {
    hide BitStep, Shifts;
    var head, mid, tail := e[..i], e[i + 1..j], e[j + 1..];
    assert e == head + ([true] + (mid + ([true] + tail)));
    FoldBitsConcat(0, head, [true] + (mid + ([true] + tail)));
    QuietBits(0, head);
    FoldCons(0, mid + ([true] + tail));
    FirstBit();
    FoldBitsConcat(0x1021, mid, [true] + tail);
    QuietTurns(0x1021, mid);
    FoldCons(Shifts(0x1021, |mid|), tail);
    SecondFlip(Shifts(0x1021, |mid|));
    QuietBits(BitStep(Shifts(0x1021, |mid|), true), tail);
    FlipsApart(|mid|);
  }

  lemma FoldCons(c: bv16, bits: seq<bool>)
    ensures FoldBits(c, [true] + bits) == FoldBits(BitStep(c, true), bits)
  {
    hide BitStep;
    assert ([true] + bits)[1..] == bits;
  }
}
