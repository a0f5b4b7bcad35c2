/** The bridge frames by length while the CRC-checking parser stays the authority: the two
    machines run in lockstep over every byte stream. */
module Framing {
  import opened Bytes
  import opened Machine
  import opened ApWire
  import R = ApReasm
  import P = ApCodec
  import Crc8
  import Crc8Bursts

  /** The parser's judgement on one whole frame. */
  function Decode(f: seq<byte>): P.Verdict
    requires IsFrame(f)
  {
    P.Judge(f[1], f[2..|f| - 1], f[|f| - 1])
  }

  function Decodes(fs: seq<seq<byte>>): seq<P.Verdict>
    requires forall f :: f in fs ==> IsFrame(f)
  {
    if fs == [] then [] else [Decode(fs[0])] + Decodes(fs[1..])
  }

  /** Parser state that corresponds to a reassembler state: the reassembler's last missing
      byte is the parser's CRC byte. */
  function Twin(r: R.State): P.State
  {
    match r
    case Sync => P.Sync
    case Len => P.Len
    case Data(len, got) => if |got| >= len as nat then P.AwaitCrc(len, got) else P.Data(len, got)
  }

  predicate Sound(e: R.Event)
  {
    if e.Framed? then IsFrame(e.frame) else !ValidLen(e.len)
  }

  function VerdictOf(e: R.Event): P.Verdict
    requires Sound(e)
  {
    if e.Framed? then Decode(e.frame) else P.LenError(e.len)
  }

  function VerdictsOf(es: seq<R.Event>): seq<P.Verdict>
    requires forall e :: e in es ==> Sound(e)
  {
    if es == [] then [] else [VerdictOf(es[0])] + VerdictsOf(es[1..])
  }

  lemma LockstepByte(r: R.State, b: byte)
    requires R.Ok(r)
    ensures R.Ok(R.Step(r, b).0)
    ensures forall e :: e in R.Step(r, b).1 ==> Sound(e)
    ensures P.Step(Twin(r), b) == (Twin(R.Step(r, b).0), VerdictsOf(R.Step(r, b).1))
  {
    hide P.Judge, Decode;
    LenRange(b);
    if r.Data? {
      LenRange(r.len);
      if |r.got| == r.len as nat {
        var f := [SYNC, r.len] + r.got + [b];
        DecodeParts(r.len, r.got, b);
        VerdictsOne(R.Framed(f));
      }
    } else if r.Len? && !ValidLen(b) {
      VerdictsOne(R.BadLen(b));
    }
  }

  lemma DecodeParts(len: byte, data: seq<byte>, crc: byte)
    requires ValidLen(len) && |data| == len as nat
    ensures IsFrame([SYNC, len] + data + [crc])
    ensures Decode([SYNC, len] + data + [crc]) == P.Judge(len, data, crc)
  {
    hide P.Judge;
    LenRange(len);
    var f := [SYNC, len] + data + [crc];
    assert f[2..|f| - 1] == data;
  }

  lemma VerdictsOne(e: R.Event)
    requires Sound(e)
    ensures VerdictsOf([e]) == [VerdictOf(e)]
  {
    hide VerdictOf;
    assert [e][1..] == [];
  }

  /** The two machines agree on every stream, event for event, from corresponding states. */
  lemma {:induction false} Lockstep(r: R.State, bs: seq<byte>)
    requires R.Ok(r)
    ensures forall e :: e in Emitted(R.Step, r, bs) ==> Sound(e)
    ensures Final(P.Step, Twin(r), bs) == Twin(Final(R.Step, r, bs))
    ensures Emitted(P.Step, Twin(r), bs) == VerdictsOf(Emitted(R.Step, r, bs))
    decreases |bs|
  {
    hide P.Step, R.Step, Twin, R.Ok, P.Judge;
    if bs != [] {
      var (r1, es) := R.Step(r, bs[0]);
      LockstepByte(r, bs[0]);
      Lockstep(r1, bs[1..]);
      VerdictsConcat(es, Emitted(R.Step, r1, bs[1..]));
    }
  }

  lemma {:induction false} VerdictsConcat(es: seq<R.Event>, fs: seq<R.Event>)
    requires forall e :: e in es + fs ==> Sound(e)
    requires forall e :: e in es ==> Sound(e)
    requires forall e :: e in fs ==> Sound(e)
    ensures VerdictsOf(es + fs) == VerdictsOf(es) + VerdictsOf(fs)
  {
    hide VerdictOf, Sound;
    if es == [] {
      assert es + fs == fs;
    } else {
      assert (es + fs)[1..] == es[1..] + fs;
      VerdictsConcat(es[1..], fs);
    }
  }

  /** Packets and CRC failures; LEN errors never leave the bridge. */
  predicate OnFrame(v: P.Verdict)
  {
    v.Complete? || v.ErrCrc?
  }

  function Judgements(vs: seq<P.Verdict>): seq<P.Verdict>
  {
    if vs == [] then [] else (if OnFrame(vs[0]) then [vs[0]] else []) + Judgements(vs[1..])
  }

  lemma DecodeOnFrame(f: seq<byte>)
    requires IsFrame(f)
    ensures OnFrame(Decode(f))
  {
    hide Crc8.Crc;
  }

  lemma {:induction false} JudgementsAreDecodes(es: seq<R.Event>)
    requires forall e :: e in es ==> Sound(e)
    ensures forall f :: f in R.Frames(es) ==> IsFrame(f)
    ensures Judgements(VerdictsOf(es)) == Decodes(R.Frames(es))
  {
    hide Decode;
    if es != [] {
      var rest := es[1..];
      assert Sound(es[0]);
      JudgementsAreDecodes(rest);
      assert VerdictsOf(es)[1..] == VerdictsOf(rest);
      if es[0].Framed? {
        DecodeOnFrame(es[0].frame);
        assert R.Frames(es) == [es[0].frame] + R.Frames(rest);
        assert R.Frames(es)[1..] == R.Frames(rest);
      } else {
        assert R.Frames(es) == R.Frames(rest);
      }
    }
  }

  /** Framing transparency, first half: on any stream the parser reaches exactly the verdicts
      on the frames the reassembler cuts out of it, and otherwise only reports bad LEN bytes. */
  lemma ParserJudgesFrames(bs: seq<byte>)
    ensures forall f :: f in R.Frames(Emitted(R.Step, R.Sync, bs)) ==> IsFrame(f)
    ensures Judgements(Emitted(P.Step, P.Sync, bs)) == Decodes(R.Frames(Emitted(R.Step, R.Sync, bs)))
  {
    Lockstep(R.Sync, bs);
    JudgementsAreDecodes(Emitted(R.Step, R.Sync, bs));
  }

  /** Back-to-back whole frames are judged one by one and leave the parser hunting for SYNC. */
  lemma {:induction false} FramesJudged(fs: seq<seq<byte>>)
    requires forall f :: f in fs ==> IsFrame(f)
    ensures Final(P.Step, P.Sync, Flatten(fs)) == P.Sync
    ensures Emitted(P.Step, P.Sync, Flatten(fs)) == Decodes(fs)
  {
    hide P.Step, R.Step, Decode;
    if fs != [] {
      RunConcat(P.Step, P.Sync, fs[0], Flatten(fs[1..]));
      FrameJudged(fs[0]);
      FramesJudged(fs[1..]);
    }
  }

  lemma FrameJudged(f: seq<byte>)
    requires IsFrame(f)
    ensures Final(P.Step, P.Sync, f) == P.Sync
    ensures Emitted(P.Step, P.Sync, f) == [Decode(f)]
  {
    hide P.Step, R.Step, Decode;
    R.FrameRun(f);
    Lockstep(R.Sync, f);
    assert VerdictsOf([R.Framed(f)]) == [Decode(f)];
  }

  /** Framing transparency: forwarding only the reassembled frames shows the parser exactly
      the packets and CRC failures of the raw stream, in the same order. */
  lemma FramingTransparent(bs: seq<byte>)
    ensures Judgements(Emitted(P.Step, P.Sync, bs))
         == Emitted(P.Step, P.Sync, Flatten(R.Frames(Emitted(R.Step, R.Sync, bs))))
  {
    ParserJudgesFrames(bs);
    FramesJudged(R.Frames(Emitted(R.Step, R.Sync, bs)));
  }

  /** Builder and parser are inverse. */
  lemma BuildDecodes(cmd: byte, payload: seq<byte>)
    requires |payload| <= MAX_PAYLOAD
    ensures IsFrame(Build(cmd, payload))
    ensures Decode(Build(cmd, payload)) == P.Complete(cmd, payload)
  {
    hide Crc8.Crc;
    BuildIsFrame(cmd, payload);
    var f := Build(cmd, payload);
    var len := ToByte(|payload| + 1);
    assert f[2..|f| - 1] == [cmd] + payload;
    assert [len] + ([cmd] + payload) == [len, cmd] + payload;
    assert ([cmd] + payload)[1..] == payload;
  }

  lemma DecodedIsBuilt(f: seq<byte>, cmd: byte, payload: seq<byte>)
    requires IsFrame(f) && Decode(f) == P.Complete(cmd, payload)
    ensures |payload| <= MAX_PAYLOAD && f == Build(cmd, payload)
  {
    hide Crc8.Crc, ToByte;
    LenRange(f[1]);
    CastBack(f[1]);
    var data := f[2..|f| - 1];
    assert data == [cmd] + payload;
    assert [f[1]] + data == [f[1], cmd] + payload;
    assert f == [SYNC] + ([f[1], cmd] + payload) + [f[|f| - 1]];
  }

  /** A frame decodes to a packet iff it is the built form of that packet. */
  lemma DecodesIffBuilt(f: seq<byte>, cmd: byte, payload: seq<byte>)
    requires IsFrame(f)
    ensures Decode(f) == P.Complete(cmd, payload) <==> |payload| <= MAX_PAYLOAD && f == Build(cmd, payload)
  {
    hide Decode, Build;
    if Decode(f) == P.Complete(cmd, payload) {
      DecodedIsBuilt(f, cmd, payload);
    } else if |payload| <= MAX_PAYLOAD && f == Build(cmd, payload) {
      BuildDecodes(cmd, payload);
    }
  }

  // ---- Corruption of a built packet: the error pattern hits CMD..CRC and leaves SYNC and LEN alone ----

  lemma CorruptKeepsFrame(f: seq<byte>, es: seq<byte>)
    requires IsFrame(f) && |es| == |f| - 2
    ensures IsFrame(Corrupt(f, es))
  {
    hide Flip, ValidLen;
  }

  /** A frame carries its own CRC iff the register ends at zero over LEN..CRC. */
  lemma FrameResidue(f: seq<byte>)
    requires IsFrame(f)
    ensures Decode(f).ErrCrc? <==> Crc8.Fold(0, f[1..]) != 0
  {
    hide Crc8.Fold;
    LenRange(f[1]);
    var n := |f| - 1;
    assert f[1..] == [f[1]] + f[2..n] + [f[n]];
    ResidueSplit(f[1], f[2..n], f[n]);
  }

  /** A corrupted packet is judged by the remainder of the error pattern alone. */
  lemma CorruptJudged(cmd: byte, payload: seq<byte>, es: seq<byte>)
    requires |payload| <= MAX_PAYLOAD && |es| == |payload| + 2
    ensures IsFrame(Corrupt(Build(cmd, payload), es))
    ensures Decode(Corrupt(Build(cmd, payload), es)).ErrCrc? <==> Crc8.Fold(0, es) != 0
  {
    hide Crc8.Fold, Decode, Crc8.Xor, Corrupt, Build;
    BuildIsFrame(cmd, payload);
    BuildDecodes(cmd, payload);
    var f := Build(cmd, payload);
    CorruptKeepsFrame(f, es);
    CorruptTail(f, es);
    FrameResidue(f);
    FrameResidue(Corrupt(f, es));
    XorZero(0);
    Crc8.FoldLinear(0, 0, f[1..], [0] + es);
    QuietStart(es);
    XorZero(Crc8.Fold(0, es));
  }

  lemma XorZero(b: byte)
    ensures Crc8.Xor(0, b) == b && Crc8.Xor(0, 0) == 0
  {
  }

  lemma QuietStart(es: seq<byte>)
    ensures Crc8.Fold(0, [0] + es) == Crc8.Fold(0, es)
  {
    hide Crc8.Shifts;
    assert ([0] + es)[1..] == es;
    Crc8.ShiftsKernel(0, BITS_PER_BYTE);
    assert Crc8.Update(0, 0) == Crc8.Shifts(0, BITS_PER_BYTE);
  }

  /** The final register is zero iff the last byte is the CRC of the others. */
  lemma ResidueSplit(len: byte, data: seq<byte>, crc: byte)
    ensures Crc8.Fold(0, [len] + data + [crc]) == 0 <==> crc == Crc8.Crc([len] + data)
  {
    hide Crc8.Fold, Crc8.Shifts;
    Crc8.FoldSnoc(0, [len] + data, crc);
    var c := Crc8.Crc([len] + data);
    Crc8.ShiftsKernel(c ^ crc, BITS_PER_BYTE);
    XorCancel(c, crc);
  }

  lemma XorCancel(a: byte, b: byte)
    ensures a ^ b == 0 <==> a == b
  {
  }

  /** No single wrong byte, no burst of up to eight bits and no odd number of wrong bits in CMD..CRC
      is ever accepted: the parser consumes the packet, reports one CRC error and hunts for SYNC again. */
  lemma CorruptionRejected(cmd: byte, payload: seq<byte>, es: seq<byte>)
    requires |payload| <= MAX_PAYLOAD && |es| == |payload| + 2
    requires Crc8.OneByte(es) || OddFlips(Bits(es)) || Burst(Bits(es), 8)
    ensures Final(P.Step, P.Sync, Corrupt(Build(cmd, payload), es)) == P.Sync
    ensures Emitted(P.Step, P.Sync, Corrupt(Build(cmd, payload), es)) == [P.ErrCrc]
  {
    hide P.Step, Crc8.Fold, Bits, Crc8.OneByte, Burst, Corrupt;
    Crc8Bursts.ErrorsDetected(es);
    CorruptJudged(cmd, payload, es);
    FrameJudged(Corrupt(Build(cmd, payload), es));
  }
}
