/** Bytes, byte strings and the bit strings they stand for. */
module Bytes {

  type byte = bv8

  /** Concatenation of a sequence of sequences, in order. */
  function Flatten<T>(ss: seq<seq<T>>): seq<T>
  {
    if ss == [] then [] else ss[0] + Flatten(ss[1..])
  }

  lemma {:induction false} FlattenConcat<T>(ss: seq<seq<T>>, ts: seq<seq<T>>)
    ensures Flatten(ss + ts) == Flatten(ss) + Flatten(ts)
  {
    if ss == [] {
      assert ss + ts == ts;
    } else {
      assert (ss + ts)[1..] == ss[1..] + ts;
      FlattenConcat(ss[1..], ts);
    }
  }

  lemma FlattenSnoc<T>(ss: seq<seq<T>>, t: seq<T>)
    ensures Flatten(ss + [t]) == Flatten(ss) + t
  {
    FlattenConcat(ss, [t]);
    assert Flatten([t]) == t + Flatten([]);
  }

  /** The `uint8_t` cast of a number that fits. */
  function ToByte(n: nat): byte
    requires n < 256
  {
    n as bv8
  }

  /** Big-endian split of a 16-bit quantity, as both wire formats use it. */
  function High(n: nat): byte
    requires n < 0x1_0000
  {
    ToByte(n / 256)
  }

  function Low(n: nat): byte
    requires n < 0x1_0000
  {
    ToByte(n % 256)
  }

  function Join(hi: byte, lo: byte): nat
  {
    (hi as nat) * 256 + lo as nat
  }

  lemma NextByte(b: byte)
    requires b as nat < 255
    ensures (b + 1) as nat == b as nat + 1
  {
    ByteBelow(b);
  }

  lemma ByteBelow(b: byte)
    requires b as nat < 255
    ensures b < 255
  {
  }

  lemma ByteBound(b: byte)
    ensures b as nat < 256
  {
  }

  lemma CastBack(b: byte)
    ensures b as nat < 256 && ToByte(b as nat) == b
  {
  }

  lemma {:induction false} SomeByte(n: nat) returns (b: byte)
    requires n < 256
    ensures b as nat == n
  {
    if n == 0 {
      b := 0;
    } else {
      var a := SomeByte(n - 1);
      NextByte(a);
      b := a + 1;
    }
  }

  lemma ByteRoundTrip(n: nat)
    requires n < 256
    ensures ToByte(n) as nat == n
  {
    hide ToByte;
    var b := SomeByte(n);
    CastBack(b);
  }

  lemma JoinSplit(n: nat)
    requires n < 0x1_0000
    ensures Join(High(n), Low(n)) == n
  {
    hide ToByte;
    ByteRoundTrip(n / 256);
    ByteRoundTrip(n % 256);
  }

  function FlipByte(b: byte, e: byte): byte
  {
    b ^ e
  }

  /** Bytewise exclusive or: the corruption of `bs` by the error pattern `es`. */
  function Flip(bs: seq<byte>, es: seq<byte>): (r: seq<byte>)
    requires |bs| == |es|
    ensures |r| == |bs|
  {
    if bs == [] then [] else [FlipByte(bs[0], es[0])] + Flip(bs[1..], es[1..])
  }

  lemma {:induction false} FlipConcat(xs: seq<byte>, ys: seq<byte>, es: seq<byte>, fs: seq<byte>)
    requires |xs| == |es| && |ys| == |fs|
    ensures Flip(xs + ys, es + fs) == Flip(xs, es) + Flip(ys, fs)
  {
    hide FlipByte;
    if xs == [] {
      assert xs + ys == ys && es + fs == fs;
    } else {
      assert (xs + ys)[1..] == xs[1..] + ys && (es + fs)[1..] == es[1..] + fs;
      FlipConcat(xs[1..], ys, es[1..], fs);
    }
  }

  lemma FlipPair(x: byte, y: byte, e: byte, f: byte)
    ensures Flip([x, y], [e, f]) == [FlipByte(x, e), FlipByte(y, f)]
  {
    hide FlipByte;
    assert [x, y][1..] == [y] && [e, f][1..] == [f];
    assert Flip([y], [f]) == [FlipByte(y, f)] + Flip([], []);
  }

  lemma FlipNone(b: byte)
    ensures FlipByte(b, 0) == b
  {
  }

  lemma FlipCons(b: byte, xs: seq<byte>, es: seq<byte>)
    requires |xs| == |es|
    ensures Flip([b] + xs, [0] + es) == [b] + Flip(xs, es)
  {
    FlipNone(b);
    hide FlipByte;
    assert ([b] + xs)[1..] == xs && ([0] + es)[1..] == es;
  }

  /** The error pattern `es` hits everything behind the first two bytes. */
  function Corrupt(f: seq<byte>, es: seq<byte>): seq<byte>
    requires |f| >= 2 && |es| == |f| - 2
  {
    f[..2] + Flip(f[2..], es)
  }

  lemma CorruptTail(f: seq<byte>, es: seq<byte>)
    requires |f| >= 2 && |es| == |f| - 2
    ensures Corrupt(f, es)[1..] == Flip(f[1..], [0] + es)
  {
    hide Flip;
    FlipCons(f[1], f[2..], es);
    assert f[1..] == [f[1]] + f[2..];
    assert Corrupt(f, es)[1..] == [f[1]] + Flip(f[2..], es);
  }

  /** The `n` leading bits of a byte, most significant first. */
  function LeadingBits(b: byte, n: nat): (r: seq<bool>)
    ensures |r| == n
    decreases n
  {
    if n == 0 then [] else [b & 0x80 != 0] + LeadingBits(b << 1, n - 1)
  }

  const BITS_PER_BYTE: nat := 8

  /** The bits of a byte string in transmission order. */
  function Bits(bs: seq<byte>): (r: seq<bool>)
    ensures |r| == BITS_PER_BYTE * |bs|
  {
    if bs == [] then [] else LeadingBits(bs[0], BITS_PER_BYTE) + Bits(bs[1..])
  }

  lemma {:induction false} BitsConcat(xs: seq<byte>, ys: seq<byte>)
    ensures Bits(xs + ys) == Bits(xs) + Bits(ys)
  {
    hide LeadingBits;
    if xs == [] {
      assert xs + ys == ys;
    } else {
      assert (xs + ys)[0] == xs[0] && (xs + ys)[1..] == xs[1..] + ys;
      BitsConcat(xs[1..], ys);
      var head := LeadingBits(xs[0], BITS_PER_BYTE);
      assert head + (Bits(xs[1..]) + Bits(ys)) == (head + Bits(xs[1..])) + Bits(ys);
    }
  }

  function Zeros(n: nat): (r: seq<byte>)
    ensures |r| == n && forall i :: 0 <= i < n ==> r[i] == 0
  {
    seq(n, _ => 0)
  }

  lemma {:induction false} ZeroBits(n: nat)
    ensures forall i :: 0 <= i < BITS_PER_BYTE * n ==> !Bits(Zeros(n))[i]
  {
    if n > 0 {
      assert Zeros(n)[1..] == Zeros(n - 1);
      assert LeadingBits(0, 8) == [false, false, false, false, false, false, false, false];
      ZeroBits(n - 1);
    }
  }

  /** Number of set bits. */
  function Ones(e: seq<bool>): nat
  {
    if e == [] then 0 else (if e[0] then 1 else 0) + Ones(e[1..])
  }

  lemma {:induction false} OnesConcat(e: seq<bool>, f: seq<bool>)
    ensures Ones(e + f) == Ones(e) + Ones(f)
  {
    if e == [] {
      assert e + f == f;
    } else {
      assert (e + f)[1..] == e[1..] + f;
      OnesConcat(e[1..], f);
    }
  }

  ghost predicate OddFlips(e: seq<bool>)
  {
    Ones(e) % 2 == 1
  }

  /** Every set bit lies in one window of `width` consecutive bits, and there is a set bit. */
  ghost predicate Burst(e: seq<bool>, width: nat)
  {
    exists lo :: BurstAt(e, width, lo)
  }

  ghost predicate BurstAt(e: seq<bool>, width: nat, lo: int)
  {
    0 <= lo < |e| && e[lo] && forall i :: 0 <= i < |e| && e[i] ==> lo <= i < lo + width
  }
}
