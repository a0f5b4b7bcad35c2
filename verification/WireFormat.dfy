/** The formats and constants of the wire, written out: byte layouts, check values and command codes,
    independent of the names the rest of the model uses for them. */
module WireFormat {
  import opened Bytes
  import opened Machine
  import opened SessionPolicy
  import ApWire
  import Crc16
  import Crc8
  import Crc8Bursts
  import ErrorDetection
  import Framing
  import L = LinkFrame
  import LinkProperties
  import P = ApCodec

  // ---- Check values of the two CRCs over the digits 1 to 9 ----

  const DIGITS: seq<byte> := [0x31, 0x32, 0x33, 0x34, 0x35, 0x36, 0x37, 0x38, 0x39]

  lemma Crc16Start()
    ensures Crc16.Update(0xffff, 0x31) == 0xc782
    ensures Crc16.Update(0xc782, 0x32) == 0x3dba
    ensures Crc16.Update(0x3dba, 0x33) == 0x5bce
    ensures Crc16.Update(0x5bce, 0x34) == 0x5349
    ensures Crc16.Update(0x5349, 0x35) == 0x4560
  {
    assert Crc16.Shifts(0xceff, 8) == 0xc782;
    assert Crc16.Shifts(0xf582, 8) == 0x3dba;
    assert Crc16.Shifts(0x0eba, 8) == 0x5bce;
    assert Crc16.Shifts(0x6fce, 8) == 0x5349;
    assert Crc16.Shifts(0x6649, 8) == 0x4560;
  }

  lemma Crc16End()
    ensures Crc16.Update(0x4560, 0x36) == 0x2ef4
    ensures Crc16.Update(0x2ef4, 0x37) == 0x7718
    ensures Crc16.Update(0x7718, 0x38) == 0xa12b
    ensures Crc16.Update(0xa12b, 0x39) == 0x29b1
  {
    assert Crc16.Shifts(0x7360, 8) == 0x2ef4;
    assert Crc16.Shifts(0x19f4, 8) == 0x7718;
    assert Crc16.Shifts(0x4f18, 8) == 0xa12b;
    assert Crc16.Shifts(0x982b, 8) == 0x29b1;
  }

  lemma Crc8Start()
    ensures Crc8.Update(0x00, 0x31) == 0x97
    ensures Crc8.Update(0x97, 0x32) == 0x72
    ensures Crc8.Update(0x72, 0x33) == 0xc0
    ensures Crc8.Update(0xc0, 0x34) == 0xc2
    ensures Crc8.Update(0xc2, 0x35) == 0xcb
  {
    assert Crc8.Shifts(0x31, 8) == 0x97;
    assert Crc8.Shifts(0xa5, 8) == 0x72;
    assert Crc8.Shifts(0x41, 8) == 0xc0;
    assert Crc8.Shifts(0xf4, 8) == 0xc2;
    assert Crc8.Shifts(0xf7, 8) == 0xcb;
  }

  lemma Crc8End()
    ensures Crc8.Update(0xcb, 0x36) == 0xfd
    ensures Crc8.Update(0xfd, 0x37) == 0x78
    ensures Crc8.Update(0x78, 0x38) == 0xc7
    ensures Crc8.Update(0xc7, 0x39) == 0xf4
  {
    assert Crc8.Shifts(0xfd, 8) == 0xfd;
    assert Crc8.Shifts(0xca, 8) == 0x78;
    assert Crc8.Shifts(0x40, 8) == 0xc7;
    assert Crc8.Shifts(0xfe, 8) == 0xf4;
  }

  lemma DigitsFrom(i: nat)
    requires i < |DIGITS|
    ensures DIGITS[i..] == [DIGITS[i]] + DIGITS[i + 1..] && DIGITS[i..][0] == DIGITS[i] && DIGITS[i..][1..] == DIGITS[i + 1..]
  {
  }

  /** CRC-16/CCITT-FALSE: the empty message gives the initial register, the digits give 0x29B1. */
  lemma Crc16CheckValue()
    ensures Crc16.Crc([]) == 0xFFFF
    ensures Crc16.Crc(DIGITS) == 0x29B1
  {
    hide Crc16.Update;
    Crc16Start();
    Crc16End();
    assert DIGITS == DIGITS[0..];
    DigitsFrom(0);
    assert Crc16.Fold(0xffff, DIGITS[0..]) == Crc16.Fold(0xc782, DIGITS[1..]);
    DigitsFrom(1);
    assert Crc16.Fold(0xc782, DIGITS[1..]) == Crc16.Fold(0x3dba, DIGITS[2..]);
    DigitsFrom(2);
    assert Crc16.Fold(0x3dba, DIGITS[2..]) == Crc16.Fold(0x5bce, DIGITS[3..]);
    DigitsFrom(3);
    assert Crc16.Fold(0x5bce, DIGITS[3..]) == Crc16.Fold(0x5349, DIGITS[4..]);
    DigitsFrom(4);
    assert Crc16.Fold(0x5349, DIGITS[4..]) == Crc16.Fold(0x4560, DIGITS[5..]);
    DigitsFrom(5);
    assert Crc16.Fold(0x4560, DIGITS[5..]) == Crc16.Fold(0x2ef4, DIGITS[6..]);
    DigitsFrom(6);
    assert Crc16.Fold(0x2ef4, DIGITS[6..]) == Crc16.Fold(0x7718, DIGITS[7..]);
    DigitsFrom(7);
    assert Crc16.Fold(0x7718, DIGITS[7..]) == Crc16.Fold(0xa12b, DIGITS[8..]);
    DigitsFrom(8);
    assert Crc16.Fold(0xa12b, DIGITS[8..]) == Crc16.Fold(0x29b1, DIGITS[9..]);
    assert DIGITS[9..] == [];
  }

  /** CRC-8: the empty message gives zero, the digits give 0xF4. */
  lemma Crc8CheckValue()
    ensures Crc8.Crc([]) == 0
    ensures Crc8.Crc(DIGITS) == 0xF4
  {
    hide Crc8.Update;
    Crc8Start();
    Crc8End();
    assert DIGITS == DIGITS[0..];
    DigitsFrom(0);
    assert Crc8.Fold(0x00, DIGITS[0..]) == Crc8.Fold(0x97, DIGITS[1..]);
    DigitsFrom(1);
    assert Crc8.Fold(0x97, DIGITS[1..]) == Crc8.Fold(0x72, DIGITS[2..]);
    DigitsFrom(2);
    assert Crc8.Fold(0x72, DIGITS[2..]) == Crc8.Fold(0xc0, DIGITS[3..]);
    DigitsFrom(3);
    assert Crc8.Fold(0xc0, DIGITS[3..]) == Crc8.Fold(0xc2, DIGITS[4..]);
    DigitsFrom(4);
    assert Crc8.Fold(0xc2, DIGITS[4..]) == Crc8.Fold(0xcb, DIGITS[5..]);
    DigitsFrom(5);
    assert Crc8.Fold(0xcb, DIGITS[5..]) == Crc8.Fold(0xfd, DIGITS[6..]);
    DigitsFrom(6);
    assert Crc8.Fold(0xfd, DIGITS[6..]) == Crc8.Fold(0x78, DIGITS[7..]);
    DigitsFrom(7);
    assert Crc8.Fold(0x78, DIGITS[7..]) == Crc8.Fold(0xc7, DIGITS[8..]);
    DigitsFrom(8);
    assert Crc8.Fold(0xc7, DIGITS[8..]) == Crc8.Fold(0xf4, DIGITS[9..]);
    assert DIGITS[9..] == [];
  }

  // ---- Layouts ----

  lemma HighLow(n: nat)
    requires n < 0x1_0000
    ensures High(n) as nat * 256 + Low(n) as nat == n
  {
    JoinSplit(n);
  }

  lemma WireJoined(c: bv16)
    ensures |Crc16.Wire(c)| == 2 && ((Crc16.Wire(c)[0] as bv16) << 8) | (Crc16.Wire(c)[1] as bv16) == c
  {
    assert ((((c >> 8) as bv8) as bv16) << 8) | (((c & 0xFF) as bv8) as bv16) == c;
  }

  /** A link frame, byte by byte; its last two bytes are the bit-serial register over all but SYNC,
      started at 0xFFFF, high byte first. */
  lemma LinkLayout(f: L.Frame)
    requires |f.payload| <= 4096
    ensures var n, r := |f.payload|, L.Build(f);
            && |r| == n + 8 && r[0] == 0xA5 && r[1] == 0x01 && r[2] == f.channel && r[3] == f.seqNo
            && r[4] as nat * 256 + r[5] as nat == n
            && r[6..6 + n] == f.payload
            && ((r[6 + n] as bv16) << 8) | (r[7 + n] as bv16) == ErrorDetection.FoldBits(0xFFFF, Bits(r[1..6 + n]))
  {
    hide Crc16.Fold, Crc16.Wire, High, Low, Bits, ErrorDetection.FoldBits;
    var n := |f.payload|;
    var body := L.Header(f.channel, f.seqNo, n) + f.payload;
    var r, w := L.Build(f), Crc16.Wire(Crc16.Crc(body[1..]));
    HighLow(n);
    WireJoined(Crc16.Crc(body[1..]));
    ErrorDetection.FoldIsBits(0xFFFF, body[1..]);
    assert r == body + w;
    assert r[1..6 + n] == body[1..];
    assert r[6..6 + n] == f.payload;
    assert r[6 + n] == w[0] && r[7 + n] == w[1];
  }

  /** An AP packet, byte by byte; its last byte is the bit-serial register over LEN, CMD and payload,
      started at zero. */
  lemma ApLayout(cmd: byte, payload: seq<byte>)
    requires |payload| <= 252
    ensures var n, f := |payload|, ApWire.Build(cmd, payload);
            && |f| == n + 4 && f[0] == 0xA5 && f[1] as nat == n + 1 && f[2] == cmd
            && f[3..3 + n] == payload
            && f[3 + n] == Crc8Bursts.FoldBits(0, Bits(f[1..3 + n]))
  {
    hide Crc8.Fold, Bits, Crc8Bursts.FoldBits, ToByte;
    var n, f := |payload|, ApWire.Build(cmd, payload);
    var body := [ToByte(n + 1), cmd] + payload;
    ByteRoundTrip(n + 1);
    Crc8Bursts.FoldIsBits(0, body);
    assert f[1..3 + n] == body;
    assert f[3..3 + n] == payload;
  }

  /** What the bridge takes for a whole frame. */
  lemma FrameShape(f: seq<byte>)
    ensures ApWire.IsFrame(f) <==> |f| >= 4 && f[0] == 0xA5 && 1 <= f[1] as nat <= 253 && |f| == f[1] as nat + 3
  {
    if |f| >= 4 {
      ApWire.LenRange(f[1]);
    }
  }

  /** The two packets the bridge makes itself: ERROR with NOT_CONTROLLER, and RELEASE. */
  lemma BridgePackets()
    ensures ApWire.IsFrame(Rejection()) && Framing.Decode(Rejection()) == P.Complete(0xF1, [0x01])
    ensures ApWire.IsFrame(ReleasePacket()) && Framing.Decode(ReleasePacket()) == P.Complete(0x02, [])
  {
    hide ApWire.Build, Framing.Decode, ApWire.IsFrame;
    Framing.BuildDecodes(0xF1, [0x01]);
    Framing.BuildDecodes(0x02, []);
  }

  // ---- Rejected lengths and versions ----

  /** AP parser at LEN: 0 is a length error, 254 and 255 an overflow, anything else starts a packet. */
  lemma LenVerdicts(b: byte)
    ensures Emitted(P.Step, P.Sync, [0xA5, b])
         == if b as nat == 0 then [P.ErrLen] else if b as nat >= 254 then [P.ErrOverflow] else []
    ensures Final(P.Step, P.Sync, [0xA5, b]) == if 1 <= b as nat <= 253 then P.Data(b, []) else P.Sync
  {
    ApWire.LenRange(b);
    ZeroByte(b);
    assert [0xA5] + [b] == [0xA5, b];
    RunSnoc(P.Step, P.Sync, [0xA5], b);
    RunOne(P.Step, P.Sync, 0xA5);
  }

  lemma ZeroByte(b: byte)
    ensures b as nat == 0 <==> b == 0
  {
  }

  /** Link parser after SYNC: a wrong version byte is one version error; it starts a frame itself iff
      it is SYNC. */
  lemma WrongVersion(b: byte)
    requires b != 0x01
    ensures Emitted(L.Step, L.Sync, [0xA5, b]) == [L.VerError]
    ensures Final(L.Step, L.Sync, [0xA5, b]) == if b == 0xA5 then L.Ver else L.Sync
  {
    hide Crc16.Update;
    assert [0xA5] + [b] == [0xA5, b];
    RunSnoc(L.Step, L.Sync, [0xA5], b);
    RunOne(L.Step, L.Sync, 0xA5);
  }

  /** Link parser at LEN: more than 4096 is one length error, and the parser hunts for SYNC again
      without waiting for the payload. */
  lemma OversizedLength(ch: byte, sq: byte, hi: byte, lo: byte)
    requires hi as nat * 256 + lo as nat > 4096
    ensures Emitted(L.Step, L.Sync, [0xA5, 0x01, ch, sq, hi, lo]) == [L.LenError]
    ensures Final(L.Step, L.Sync, [0xA5, 0x01, ch, sq, hi, lo]) == L.Sync
  {
    hide Crc16.Update;
    OpeningRun(ch, sq, hi);
    var head := [0xA5, 0x01, ch, sq, hi];
    assert head + [lo] == [0xA5, 0x01, ch, sq, hi, lo];
    RunSnoc(L.Step, L.Sync, head, lo);
  }

  lemma OpeningRun(ch: byte, sq: byte, hi: byte)
    ensures var s := Final(L.Step, L.Sync, [0xA5, 0x01, ch, sq, hi]); s.LenLo? && s.len == hi as nat * 256
    ensures Emitted(L.Step, L.Sync, [0xA5, 0x01, ch, sq, hi]) == []
  {
    hide Crc16.Update;
    RunOne(L.Step, L.Sync, 0xA5);
    assert [0xA5] + [0x01] == [0xA5, 0x01];
    RunSnoc(L.Step, L.Sync, [0xA5], 0x01);
    assert [0xA5, 0x01] + [ch] == [0xA5, 0x01, ch];
    RunSnoc(L.Step, L.Sync, [0xA5, 0x01], ch);
    assert [0xA5, 0x01, ch] + [sq] == [0xA5, 0x01, ch, sq];
    RunSnoc(L.Step, L.Sync, [0xA5, 0x01, ch], sq);
    assert [0xA5, 0x01, ch, sq] + [hi] == [0xA5, 0x01, ch, sq, hi];
    RunSnoc(L.Step, L.Sync, [0xA5, 0x01, ch, sq], hi);
  }

  // ---- Command codes ----

  /** The third byte of a frame or reply, which is all the bridge looks at. */
  ghost predicate HasCode(f: seq<byte>, code: byte)
  {
    |f| > 2 && f[2] == code
  }

  /** The events that make history, by their codes: CLAIM 0x01, RELEASE 0x02, OK 0xF0, session end 0x82. */
  lemma EventCodes(e: Event, c: Handle)
    ensures AnyClaim(e) <==> e.FrameFrom? && HasCode(e.frame, 0x01)
    ensures ReleaseBy(e, c) <==> e.FrameFrom? && e.conn == c && HasCode(e.frame, 0x02)
    ensures IsOk(e) <==> e.FromLink? && HasCode(e.payload, 0xF0)
    ensures IsSessionEnd(e) <==> e.FromLink? && HasCode(e.payload, 0x82)
    ensures L.CH_AP_CTRL == 0x01 && CONN_NONE == 0xFFFF
  {
  }
}
