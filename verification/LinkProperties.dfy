/** What the link parser promises about the builder's frames, corrupted frames and arbitrary bytes. */
module LinkProperties {
  import opened Bytes
  import opened Machine
  import opened LinkFrame
  import Crc16
  import DoubleErrors
  import ErrorDetection

  // ---- Completeness: a frame met where a frame may start is judged by its CRC alone ----

  lemma {:induction false} PayloadRun(crc: bv16, ch: byte, sq: byte, len: nat, got: seq<byte>, rest: seq<byte>)
    requires |got| < len && |got| + |rest| == len
    ensures Final(Step, Payload(crc, ch, sq, len, got), rest) == CrcHi(Crc16.Fold(crc, rest), ch, sq, got + rest)
    ensures Emitted(Step, Payload(crc, ch, sq, len, got), rest) == []
    decreases |rest|
  {
    hide Crc16.Update;
    var crc1, got1 := Crc16.Update(crc, rest[0]), got + [rest[0]];
    assert got1 + rest[1..] == got + rest;
    if |rest| == 1 {
      assert rest[1..] == [];
    } else {
      PayloadRun(crc1, ch, sq, len, got1, rest[1..]);
    }
  }

  lemma HeaderRun(ch: byte, sq: byte, hi: byte, lo: byte)
    requires Join(hi, lo) <= MAX_PAYLOAD
    ensures var t := [VERSION, ch, sq, hi, lo];
            && Emitted(Step, Ver, t) == []
            && Final(Step, Ver, t) == if Join(hi, lo) == 0 then CrcHi(Crc16.Crc(t), ch, sq, [])
                                      else Payload(Crc16.Crc(t), ch, sq, Join(hi, lo), [])
  {
    hide Crc16.Update, Step;
    var t := [VERSION, ch, sq, hi, lo];
    var c1 := Crc16.Update(Crc16.INIT, VERSION);
    var c2 := Crc16.Update(c1, ch);
    var c3 := Crc16.Update(c2, sq);
    var c4 := Crc16.Update(c3, hi);
    assert t[1..] == [ch, sq, hi, lo] && t[1..][1..] == [sq, hi, lo];
    assert [sq, hi, lo][1..] == [hi, lo] && [hi, lo][1..] == [lo] && [lo][1..] == [];
    assert Crc16.Fold(c1, [ch, sq, hi, lo]) == Crc16.Fold(c2, [sq, hi, lo]);
    assert Crc16.Fold(c2, [sq, hi, lo]) == Crc16.Fold(c3, [hi, lo]);
    Crc16.FoldTwo(c3, hi, lo);
    HeaderSteps(ch, sq, hi, lo, c1, c2, c3, c4);
    RunOne(Step, LenLo(c4, ch, sq, hi as nat * 256), lo);
    assert Final(Step, LenHi(c3, ch, sq), [hi, lo]) == Final(Step, LenLo(c4, ch, sq, hi as nat * 256), [lo]);
    assert Final(Step, Channel(c1), [ch, sq, hi, lo]) == Final(Step, LenHi(c3, ch, sq), [hi, lo]);
    assert Emitted(Step, LenHi(c3, ch, sq), [hi, lo]) == [];
    assert Emitted(Step, Channel(c1), [ch, sq, hi, lo]) == [];
  }

  lemma HeaderSteps(ch: byte, sq: byte, hi: byte, lo: byte, c1: bv16, c2: bv16, c3: bv16, c4: bv16)
    requires c1 == Crc16.Update(Crc16.INIT, VERSION) && c2 == Crc16.Update(c1, ch)
    requires c3 == Crc16.Update(c2, sq) && c4 == Crc16.Update(c3, hi) && Join(hi, lo) <= MAX_PAYLOAD
    ensures Step(Ver, VERSION) == (Channel(c1), []) && Step(Channel(c1), ch) == (Seq(c2, ch), [])
    ensures Step(Seq(c2, ch), sq) == (LenHi(c3, ch, sq), [])
    ensures Step(LenHi(c3, ch, sq), hi) == (LenLo(c4, ch, sq, hi as nat * 256), [])
    ensures Step(LenLo(c4, ch, sq, hi as nat * 256), lo)
         == (if Join(hi, lo) == 0 then CrcHi(Crc16.Update(c4, lo), ch, sq, [])
             else Payload(Crc16.Update(c4, lo), ch, sq, Join(hi, lo), []), [])
  {
    hide Crc16.Update;
  }

  /** The rest of a frame after its SYNC byte. */
  function Rest(ch: byte, sq: byte, hi: byte, lo: byte, pl: seq<byte>, x: byte, y: byte): seq<byte>
  {
    [VERSION, ch, sq, hi, lo] + pl + [x, y]
  }

  function Outcome(ch: byte, sq: byte, pl: seq<byte>, good: bool): Event
  {
    if good then Deliver(Frame(ch, sq, pl)) else CrcError
  }

  /** Whatever its CHANNEL, SEQ, PAYLOAD and CRC bytes are, a frame of consistent length is
      consumed whole; it is delivered iff the CRC register over VERSION..CRC ends at zero. */
  lemma RestRun(ch: byte, sq: byte, hi: byte, lo: byte, pl: seq<byte>, x: byte, y: byte)
    requires |pl| == Join(hi, lo) <= MAX_PAYLOAD
    ensures var t := Rest(ch, sq, hi, lo, pl, x, y);
            && Final(Step, Ver, t) == Sync
            && Emitted(Step, Ver, t) == [Outcome(ch, sq, pl, Crc16.Crc(t) == 0)]
  {
    hide Crc16.Fold, Join, Step;
    var head := [VERSION, ch, sq, hi, lo];
    var crc := Crc16.Fold(Crc16.Crc(head), pl);
    HeaderRun(ch, sq, hi, lo);
    RunConcat(Step, Ver, head + pl, [x, y]);
    RunConcat(Step, Ver, head, pl);
    if pl == [] {
      assert Crc16.Fold(Crc16.Crc(head), []) == Crc16.Crc(head) by { FoldNone(Crc16.Crc(head)); }
    } else {
      PayloadRun(Crc16.Crc(head), ch, sq, |pl|, [], pl);
      assert [] + pl == pl;
    }
    assert Final(Step, Ver, head + pl) == CrcHi(crc, ch, sq, pl);
    CrcRun(crc, ch, sq, pl, x, y);
    Crc16.FoldConcat(Crc16.INIT, head, pl);
    Crc16.FoldConcat(Crc16.INIT, head + pl, [x, y]);
    Crc16.ResidueZero(crc, x, y);
  }

  lemma FoldNone(c: bv16)
    ensures Crc16.Fold(c, []) == c
  {
  }

  lemma CrcRun(crc: bv16, ch: byte, sq: byte, pl: seq<byte>, x: byte, y: byte)
    ensures Final(Step, CrcHi(crc, ch, sq, pl), [x, y]) == Sync
    ensures Emitted(Step, CrcHi(crc, ch, sq, pl), [x, y]) == [Outcome(ch, sq, pl, [x, y] == Crc16.Wire(crc))]
  {
    hide RxHigh, RxWhole, Crc16.Wire;
    RxIsWire(x, y, crc);
    assert [x, y][1..] == [y];
    RunOne(Step, CrcLo(crc, ch, sq, pl, RxHigh(x)), y);
  }

  /** The extra event of a SYNC byte where a version byte was due. */
  function Stray(s: State): seq<Event>
  {
    if s.Ver? then [VerError] else []
  }

  lemma FrameStart(s: State, t: seq<byte>)
    requires s.Sync? || s.Ver?
    ensures Final(Step, s, [SYNC] + t) == Final(Step, Ver, t)
    ensures Emitted(Step, s, [SYNC] + t) == Stray(s) + Emitted(Step, Ver, t)
  {
    assert ([SYNC] + t)[1..] == t;
  }

  /** A frame starts at any point where the parser hunts for SYNC or VERSION. */
  lemma RunAt(s: State, ch: byte, sq: byte, hi: byte, lo: byte, pl: seq<byte>, x: byte, y: byte)
    requires s.Sync? || s.Ver?
    requires |pl| == Join(hi, lo) <= MAX_PAYLOAD
    ensures var t := Rest(ch, sq, hi, lo, pl, x, y);
            && Final(Step, s, [SYNC] + t) == Sync
            && Emitted(Step, s, [SYNC] + t) == Stray(s) + [Outcome(ch, sq, pl, Crc16.Crc(t) == 0)]
  {
    hide Step, Rest, Crc16.Crc;
    RestRun(ch, sq, hi, lo, pl, x, y);
    FrameStart(s, Rest(ch, sq, hi, lo, pl, x, y));
  }

  lemma BuildParts(f: Frame)
    requires |f.payload| <= MAX_PAYLOAD
    ensures var (hi, lo, r) := (High(|f.payload|), Low(|f.payload|), Build(f));
            && Join(hi, lo) == |f.payload|
            && r == [SYNC] + Rest(f.channel, f.seqNo, hi, lo, f.payload, r[|r| - 2], r[|r| - 1])
            && Crc16.Crc(r[1..]) == 0
  {
    hide Crc16.Fold, High, Low, Crc16.Wire;
    JoinSplit(|f.payload|);
    var body := Header(f.channel, f.seqNo, |f.payload|) + f.payload;
    var r := Build(f);
    var x, y := r[|r| - 2], r[|r| - 1];
    var w := Crc16.Wire(Crc16.Crc(body[1..]));
    assert |w| == 2 by { WireLength(Crc16.Crc(body[1..])); }
    assert w == [x, y];
    Crc16.ResidueZero(Crc16.Crc(body[1..]), x, y);
    Crc16.FoldConcat(Crc16.INIT, body[1..], [x, y]);
    assert r[1..] == body[1..] + [x, y];
    assert body == [SYNC] + ([VERSION, f.channel, f.seqNo, High(|f.payload|), Low(|f.payload|)] + f.payload);
  }

  lemma WireLength(c: bv16)
    ensures |Crc16.Wire(c)| == 2
  {
  }

  /** Completeness: every built frame is delivered exactly once, whatever bytes it carries. */
  lemma BuiltDelivered(s: State, f: Frame)
    requires s.Sync? || s.Ver?
    requires |f.payload| <= MAX_PAYLOAD
    ensures Final(Step, s, Build(f)) == Sync
    ensures Emitted(Step, s, Build(f)) == Stray(s) + [Deliver(f)]
    ensures Deliveries(Emitted(Step, s, Build(f))) == [f]
  {
    hide Step, Build, Rest, Crc16.Crc, High, Low;
    BuildParts(f);
    var r := Build(f);
    var (hi, lo, x, y) := (High(|f.payload|), Low(|f.payload|), r[|r| - 2], r[|r| - 1]);
    assert r[1..] == Rest(f.channel, f.seqNo, hi, lo, f.payload, x, y);
    RunAt(s, f.channel, f.seqNo, hi, lo, f.payload, x, y);
    DeliveriesConcat(Stray(s), [Deliver(f)]);
    DeliveriesOne(Stray(s));
    DeliveriesOne([Deliver(f)]);
  }

  lemma {:induction false} BuiltSequenceDelivered(fs: seq<Frame>)
    requires forall f :: f in fs ==> |f.payload| <= MAX_PAYLOAD
    ensures Final(Step, Sync, Wires(fs)) == Sync
    ensures Deliveries(Emitted(Step, Sync, Wires(fs))) == fs
  {
    hide Step, Build;
    if fs != [] {
      BuiltDelivered(Sync, fs[0]);
      RunConcat(Step, Sync, Build(fs[0]), Wires(fs[1..]));
      BuiltSequenceDelivered(fs[1..]);
      DeliveriesConcat(Emitted(Step, Sync, Build(fs[0])), Emitted(Step, Sync, Wires(fs[1..])));
    }
  }

  function Wires(fs: seq<Frame>): seq<byte>
    requires forall f :: f in fs ==> |f.payload| <= MAX_PAYLOAD
  {
    if fs == [] then [] else Build(fs[0]) + Wires(fs[1..])
  }

  // ---- Soundness: what is delivered was there, whole and in order ----

  /** The input bytes a state stands for: the partial frame since its SYNC byte. */
  function Held(s: State): seq<byte>
    requires Ok(s)
  {
    match s
    case Sync => []
    case Ver => [SYNC]
    case Channel(_) => [SYNC, VERSION]
    case Seq(_, ch) => [SYNC, VERSION, ch]
    case LenHi(_, ch, sq) => [SYNC, VERSION, ch, sq]
    case LenLo(_, ch, sq, len) => [SYNC, VERSION, ch, sq, High(len)]
    case Payload(_, ch, sq, len, got) => Header(ch, sq, len) + got
    case CrcHi(_, ch, sq, got) => Header(ch, sq, |got|) + got
    case CrcLo(_, ch, sq, got, rx) => Header(ch, sq, |got|) + got + [Crc16.Wire(rx)[0]]
  }

  /** Lengths are in range and the running CRC is the CRC of VERSION up to the byte just read. */
  predicate Ok(s: State)
  {
    match s
    case Sync => true
    case Ver => true
    case Channel(crc) => crc == Crc16.Crc([VERSION])
    case Seq(crc, ch) => crc == Crc16.Crc([VERSION, ch])
    case LenHi(crc, ch, sq) => crc == Crc16.Crc([VERSION, ch, sq])
    case LenLo(crc, ch, sq, len) =>
      len < 0x1_0000 && len % 256 == 0 && crc == Crc16.Crc([VERSION, ch, sq, High(len)])
    case Payload(crc, ch, sq, len, got) =>
      |got| < len <= MAX_PAYLOAD && crc == Crc16.Crc((Header(ch, sq, len) + got)[1..])
    case CrcHi(crc, ch, sq, got) =>
      |got| <= MAX_PAYLOAD && crc == Crc16.Crc((Header(ch, sq, |got|) + got)[1..])
    case CrcLo(crc, ch, sq, got, rx) =>
      |got| <= MAX_PAYLOAD && crc == Crc16.Crc((Header(ch, sq, |got|) + got)[1..]) && rx == RxHigh(Crc16.Wire(rx)[0])
  }

  ghost predicate Suffix(t: seq<byte>, s: seq<byte>)
  {
    |t| <= |s| && t == s[|s| - |t|..]
  }

  /** One byte extends the partial frame, completes it or starts afresh. */
  ghost predicate Advances(s: State, b: byte)
    requires Ok(s)
  {
    var (s1, es) := Step(s, b);
    && Ok(s1)
    && Suffix(Held(s1), Held(s) + [b])
    && (es == [] || (exists f :: es == [Deliver(f)]) || es == [CrcError] || es == [VerError] || es == [LenError])
    && (forall f :: es == [Deliver(f)] ==> s1 == Sync && |f.payload| <= MAX_PAYLOAD && Build(f) == Held(s) + [b])
  }

  lemma SplitJoined(len: nat, lo: byte)
    requires len < 0x1_0000 && len % 256 == 0
    ensures len + lo as nat < 0x1_0000 && High(len + lo as nat) == High(len) && Low(len + lo as nat) == lo
  {
    hide ToByte;
    CastBack(lo);
    assert (len + lo as nat) / 256 == len / 256 && (len + lo as nat) % 256 == lo as nat;
  }

  lemma HighOf(b: byte)
    ensures b as nat * 256 < 0x1_0000 && (b as nat * 256) % 256 == 0 && High(b as nat * 256) == b
  {
    hide ToByte;
    CastBack(b);
    assert (b as nat * 256) / 256 == b as nat;
  }

  lemma AdvanceHunt(s: State, b: byte)
    requires s.Sync? || s.Ver?
    ensures Advances(s, b)
  {
    hide Crc16.Update, High;
    Crc16.FoldSnoc(Crc16.INIT, [], b);
    assert [] + [b] == [b];
  }

  lemma AdvanceChannel(s: State, b: byte)
    requires s.Channel? && Ok(s)
    ensures Advances(s, b)
  {
    hide Crc16.Update, Crc16.Fold, High;
    Crc16.FoldSnoc(Crc16.INIT, [VERSION], b);
    assert [VERSION] + [b] == [VERSION, b];
  }

  lemma AdvanceSeq(s: State, b: byte)
    requires s.Seq? && Ok(s)
    ensures Advances(s, b)
  {
    hide Crc16.Update, Crc16.Fold, High;
    Crc16.FoldSnoc(Crc16.INIT, [VERSION, s.ch], b);
    assert [VERSION, s.ch] + [b] == [VERSION, s.ch, b];
  }

  lemma LenHiOk(crc: bv16, ch: byte, sq: byte, b: byte)
    requires crc == Crc16.Crc([VERSION, ch, sq])
    ensures var s1 := LenLo(Crc16.Update(crc, b), ch, sq, b as nat * 256);
            Ok(s1) && Held(s1) == [SYNC, VERSION, ch, sq] + [b]
  {
    hide Crc16.Fold, Crc16.Update, High;
    HighOf(b);
    Crc16.FoldSnoc(Crc16.INIT, [VERSION, ch, sq], b);
    assert [VERSION, ch, sq] + [b] == [VERSION, ch, sq, b];
  }

  lemma AdvanceLenHi(s: State, b: byte)
    requires s.LenHi? && Ok(s)
    ensures Advances(s, b)
  {
    hide Crc16.Crc, Crc16.Update;
    LenHiOk(s.crc, s.ch, s.sq, b);
    assert Step(s, b) == (LenLo(Crc16.Update(s.crc, b), s.ch, s.sq, b as nat * 256), []);
    assert Held(s) == [SYNC, VERSION, s.ch, s.sq];
    hide Step, Ok, Held;
  }

  lemma AdvanceLenLo(s: State, b: byte)
    requires s.LenLo? && Ok(s)
    ensures Advances(s, b)
  {
    hide Crc16.Fold, Crc16.Update, High, Low;
    var len := s.len + b as nat;
    if len <= MAX_PAYLOAD {
      LenLoHeader(s.ch, s.sq, s.len, b);
    }
  }

  lemma LenLoHeader(ch: byte, sq: byte, hi: nat, b: byte)
    requires hi < 0x1_0000 && hi % 256 == 0 && hi + b as nat <= MAX_PAYLOAD
    ensures Header(ch, sq, hi + b as nat) + [] == [SYNC, VERSION, ch, sq, High(hi)] + [b]
    ensures Crc16.Crc((Header(ch, sq, hi + b as nat) + [])[1..]) == Crc16.Update(Crc16.Crc([VERSION, ch, sq, High(hi)]), b)
  {
    hide Crc16.Update, Crc16.Fold, High, Low;
    SplitJoined(hi, b);
    Crc16.FoldSnoc(Crc16.INIT, [VERSION, ch, sq, High(hi)], b);
    assert (Header(ch, sq, hi + b as nat) + [])[1..] == [VERSION, ch, sq, High(hi)] + [b];
  }

  lemma AdvancePayload(s: State, b: byte)
    requires s.Payload? || s.CrcHi?
    requires Ok(s)
    ensures Advances(s, b)
  {
    hide Crc16.Update, High, Low, Crc16.Wire, RxHigh;
    if s.Payload? {
      var h := Header(s.ch, s.sq, s.len);
      assert h + (s.got + [b]) == (h + s.got) + [b];
      assert (h + (s.got + [b]))[1..] == (h + s.got)[1..] + [b];
      Crc16.FoldSnoc(Crc16.INIT, (h + s.got)[1..], b);
    } else {
      RxHighWire(b);
    }
  }

  lemma RxHighWire(b: byte)
    ensures |Crc16.Wire(RxHigh(b))| == 2 && Crc16.Wire(RxHigh(b))[0] == b
  {
    assert (((b as bv16) << 8) >> 8) as bv8 == b;
  }

  lemma AdvanceCrcLo(s: State, b: byte)
    requires s.CrcLo? && Ok(s)
    ensures Advances(s, b)
  {
    hide Crc16.Crc, High, Low, Crc16.Wire, RxHigh, RxWhole;
    WireLength(s.rx);
    RxIsWire(Crc16.Wire(s.rx)[0], b, s.crc);
    var f := Frame(s.ch, s.sq, s.got);
    if RxWhole(s.rx, b) == s.crc {
      assert Build(f) == Held(s) + [b];
      assert Step(s, b).1 == [Deliver(f)];
    } else {
      assert Step(s, b).1 == [CrcError];
    }
  }

  lemma Advance(s: State, b: byte)
    requires Ok(s)
    ensures Advances(s, b)
  {
    hide Advances, Ok;
    match s
    case Sync => AdvanceHunt(s, b);
    case Ver => AdvanceHunt(s, b);
    case Channel(_) => AdvanceChannel(s, b);
    case Seq(_, _) => AdvanceSeq(s, b);
    case LenHi(_, _, _) => AdvanceLenHi(s, b);
    case LenLo(_, _, _, _) => AdvanceLenLo(s, b);
    case Payload(_, _, _, _, _) => AdvancePayload(s, b);
    case CrcHi(_, _, _, _) => AdvancePayload(s, b);
    case CrcLo(_, _, _, _, _) => AdvanceCrcLo(s, b);
  }

  /** Stream positions just after the bytes that fired the callback. */
  function Ends(bs: seq<byte>): seq<nat>
  {
    if bs == [] then []
    else
      var n := |bs| - 1;
      Ends(bs[..n]) + (if Deliveries(Step(Final(Step, Sync, bs[..n]), bs[n]).1) == [] then [] else [|bs|])
  }

  /** The `i`th frame is the stretch of input that ends at the `i`th position, and the
      stretches do not overlap each other or the partial frame still held. */
  ghost predicate Slices(bs: seq<byte>, fs: seq<Frame>, ends: seq<nat>, held: nat)
  {
    && |ends| == |fs|
    && held <= |bs|
    && (forall i :: 0 <= i < |fs| ==> SliceAt(bs, fs[i], ends[i]))
    && (forall i :: 0 <= i < |fs| - 1 ==> ends[i] + OVERHEAD + |fs[i + 1].payload| <= ends[i + 1])
    && (|fs| > 0 ==> ends[|fs| - 1] + held <= |bs|)
  }

  ghost predicate SliceAt(bs: seq<byte>, f: Frame, end: nat)
  {
    && |f.payload| <= MAX_PAYLOAD
    && OVERHEAD + |f.payload| <= end <= |bs|
    && bs[end - OVERHEAD - |f.payload|..end] == Build(f)
  }

  lemma SliceStays(bs: seq<byte>, b: byte, f: Frame, end: nat)
    requires SliceAt(bs, f, end)
    ensures SliceAt(bs + [b], f, end)
  {
    hide Build;
  }

  /** Soundness: each callback fires at the end of a contiguous slice of the input that is the
      built form of exactly what the callback is given; the slices are disjoint and in order. */
  lemma {:induction false} DeliveredSlices(bs: seq<byte>)
    ensures Ok(Final(Step, Sync, bs))
    ensures Suffix(Held(Final(Step, Sync, bs)), bs)
    ensures Slices(bs, Deliveries(Emitted(Step, Sync, bs)), Ends(bs), |Held(Final(Step, Sync, bs))|)
    decreases |bs|
  {
    hide Step, Build, Held, Ok, SliceAt;
    if bs == [] {
      StartOk();
    } else {
      var n := |bs| - 1;
      var pre, b := bs[..n], bs[n];
      assert bs == pre + [b];
      DeliveredSlices(pre);
      RunSnoc(Step, Sync, pre, b);
      SliceStep(pre, b);
    }
  }

  lemma StartOk()
    ensures Ok(Sync) && Held(Sync) == []
  {
  }

  /** A byte delivers nothing, or the frame it completes. */
  lemma AdvanceOutcome(s: State, b: byte)
    requires Ok(s)
    ensures var (s1, es) := Step(s, b);
            && Ok(s1) && Suffix(Held(s1), Held(s) + [b])
            && (Deliveries(es) == [] || (|Deliveries(es)| == 1 && s1 == Sync))
            && (Deliveries(es) != [] ==> var f := Deliveries(es)[0]; |f.payload| <= MAX_PAYLOAD && Build(f) == Held(s) + [b])
  {
    hide Step, Build, Held, Ok, Suffix;
    Advance(s, b);
    var es := Step(s, b).1;
    DeliveriesOne(es);
  }

  lemma EndsSnoc(pre: seq<byte>, b: byte)
    ensures Ends(pre + [b])
         == Ends(pre) + if Deliveries(Step(Final(Step, Sync, pre), b).1) == [] then [] else [|pre| + 1]
  {
    hide Step, Deliveries;
    assert (pre + [b])[..|pre|] == pre;
  }

  lemma SliceStep(pre: seq<byte>, b: byte)
    requires Ok(Final(Step, Sync, pre))
    requires Suffix(Held(Final(Step, Sync, pre)), pre)
    requires Slices(pre, Deliveries(Emitted(Step, Sync, pre)), Ends(pre), |Held(Final(Step, Sync, pre))|)
    ensures var s1 := Step(Final(Step, Sync, pre), b).0;
            Ok(s1) && Suffix(Held(s1), pre + [b])
            && Slices(pre + [b], Deliveries(Emitted(Step, Sync, pre) + Step(Final(Step, Sync, pre), b).1),
                      Ends(pre + [b]), |Held(s1)|)
  {
    hide Step, Build, Held, Ok, SliceAt, Final, Emitted, Slices, Deliveries, Ends;
    var s := Final(Step, Sync, pre);
    var (s1, es) := Step(s, b);
    AdvanceOutcome(s, b);
    DeliveriesConcat(Emitted(Step, Sync, pre), es);
    EndsSnoc(pre, b);
    var fs, ends := Deliveries(Emitted(Step, Sync, pre)), Ends(pre);
    if Deliveries(es) == [] {
      assert fs + [] == fs && ends + [] == ends;
      SlicesQuiet(pre, b, fs, ends, |Held(s)|, |Held(s1)|);
    } else {
      StartOk();
      assert Deliveries(es) == [Deliveries(es)[0]];
      SlicesMore(pre, b, fs, ends, |Held(s)|, Deliveries(es)[0]);
    }
  }

  lemma SlicesQuiet(pre: seq<byte>, b: byte, fs: seq<Frame>, ends: seq<nat>, held: nat, held1: nat)
    requires Slices(pre, fs, ends, held) && held1 <= held + 1
    ensures Slices(pre + [b], fs, ends, held1)
  {
    hide SliceAt;
    forall i | 0 <= i < |fs|
      ensures SliceAt(pre + [b], fs[i], ends[i])
    {
      SliceStays(pre, b, fs[i], ends[i]);
    }
  }

  lemma SliceAtEnd(bs: seq<byte>, f: Frame)
    requires |f.payload| <= MAX_PAYLOAD && Suffix(Build(f), bs)
    ensures SliceAt(bs, f, |bs|)
  {
    hide Build;
    assert bs[|bs| - |Build(f)|..|bs|] == bs[|bs| - |Build(f)|..];
  }

  lemma SlicesMore(pre: seq<byte>, b: byte, fs: seq<Frame>, ends: seq<nat>, held: nat, f: Frame)
    requires Slices(pre, fs, ends, held)
    requires |f.payload| <= MAX_PAYLOAD && |Build(f)| == held + 1 && Suffix(Build(f), pre + [b])
    ensures Slices(pre + [b], fs + [f], ends + [|pre| + 1], 0)
  {
    hide SliceAt, Build, Suffix;
    SlicesQuiet(pre, b, fs, ends, held, held + 1);
    SliceAtEnd(pre + [b], f);
  }

  // ---- Corrupted frames ----

  /** The error pattern `es` hits CHANNEL..CRC and leaves SYNC, VERSION and LEN alone. */
  ghost predicate SparesLength(es: seq<byte>)
  {
    |es| >= 6 && es[2] == 0 && es[3] == 0
  }

  function CorruptFrame(f: Frame, es: seq<byte>): Frame
    requires |es| == |f.payload| + 6
  {
    Frame(FlipByte(f.channel, es[0]), FlipByte(f.seqNo, es[1]), Flip(f.payload, es[4..|es| - 2]))
  }

  lemma FlipHead(ch: byte, sq: byte, hi: byte, lo: byte, e1: byte, e2: byte)
    ensures Flip([ch, sq] + [hi, lo], [e1, e2] + [0, 0]) == [FlipByte(ch, e1), FlipByte(sq, e2)] + [hi, lo]
  {
    hide FlipByte, Flip;
    FlipNone(hi);
    FlipNone(lo);
    FlipPair(hi, lo, 0, 0);
    FlipPair(ch, sq, e1, e2);
    FlipConcat([ch, sq], [hi, lo], [e1, e2], [0, 0]);
  }

  lemma CorruptBody(ch: byte, sq: byte, hi: byte, lo: byte, pl: seq<byte>, x: byte, y: byte,
                    e1: byte, e2: byte, es: seq<byte>, e: byte, f: byte)
    requires |es| == |pl|
    ensures Flip(([ch, sq] + [hi, lo]) + (pl + [x, y]), ([e1, e2] + [0, 0]) + (es + [e, f]))
         == ([FlipByte(ch, e1), FlipByte(sq, e2)] + [hi, lo]) + (Flip(pl, es) + [FlipByte(x, e), FlipByte(y, f)])
  {
    hide Flip, FlipByte;
    FlipHead(ch, sq, hi, lo, e1, e2);
    FlipConcat([ch, sq] + [hi, lo], pl + [x, y], [e1, e2] + [0, 0], es + [e, f]);
    FlipConcat(pl, [x, y], es, [e, f]);
    FlipPair(x, y, e, f);
  }

  lemma CorruptShape(ch: byte, sq: byte, hi: byte, lo: byte, pl: seq<byte>, x: byte, y: byte,
                     e1: byte, e2: byte, es: seq<byte>, e: byte, f: byte)
    requires |es| == |pl|
    ensures Corrupt([SYNC] + Rest(ch, sq, hi, lo, pl, x, y), ([e1, e2] + [0, 0]) + (es + [e, f]))
         == [SYNC] + Rest(FlipByte(ch, e1), FlipByte(sq, e2), hi, lo, Flip(pl, es), FlipByte(x, e), FlipByte(y, f))
  {
    hide Flip, FlipByte, Rest;
    RestParts(ch, sq, hi, lo, pl, x, y);
    TwoTail(SYNC, VERSION, ([ch, sq] + [hi, lo]) + (pl + [x, y]));
    CorruptBody(ch, sq, hi, lo, pl, x, y, e1, e2, es, e, f);
    RestParts(FlipByte(ch, e1), FlipByte(sq, e2), hi, lo, Flip(pl, es), FlipByte(x, e), FlipByte(y, f));
  }

  lemma ErrorParts(es: seq<byte>)
    requires SparesLength(es)
    ensures var n := |es| - 6; es == ([es[0], es[1]] + [0, 0]) + (es[4..4 + n] + [es[4 + n], es[5 + n]])
  {
  }

  lemma TwoTail(a: byte, b: byte, t: seq<byte>)
    ensures ([a, b] + t)[..2] == [a, b] && ([a, b] + t)[2..] == t
  {
  }

  lemma RestParts(ch: byte, sq: byte, hi: byte, lo: byte, pl: seq<byte>, x: byte, y: byte)
    ensures [SYNC] + Rest(ch, sq, hi, lo, pl, x, y) == [SYNC, VERSION] + (([ch, sq] + [hi, lo]) + (pl + [x, y]))
  {
  }

  lemma ZeroStart(es: seq<byte>)
    ensures Crc16.Fold(0, [0] + es) == Crc16.Fold(0, es)
  {
    hide Crc16.Shifts, Crc16.Load;
    assert ([0] + es)[1..] == es;
    LoadZero();
    Crc16.ShiftsKernel(0, BITS_PER_BYTE);
  }

  lemma LoadZero()
    ensures Crc16.Load(0, 0) == 0
  {
  }

  lemma XorNone(c: bv16)
    ensures Crc16.Xor(0, c) == c && Crc16.Xor(c, 0) == c
  {
  }

  /** A corrupted frame is consumed whole, and is delivered iff the error pattern is itself a
      multiple of the generator; then, and only then, the corrupted fields reach the callback. */
  lemma CorruptJudged(f: Frame, es: seq<byte>)
    requires |f.payload| <= MAX_PAYLOAD && |es| == |f.payload| + 6 && SparesLength(es)
    ensures Final(Step, Sync, Corrupt(Build(f), es)) == Sync
    ensures Emitted(Step, Sync, Corrupt(Build(f), es))
         == [if Crc16.Fold(0, es) == 0 then Deliver(CorruptFrame(f, es)) else CrcError]
  {
    hide Step, Build, Rest, Crc16.Fold, High, Low, Corrupt, Flip, FlipByte, Crc16.Xor, Final, Emitted, Join;
    BuildParts(f);
    var r := Build(f);
    var (hi, lo, x, y) := (High(|f.payload|), Low(|f.payload|), r[|r| - 2], r[|r| - 1]);
    var n := |f.payload|;
    ErrorParts(es);
    CorruptShape(f.channel, f.seqNo, hi, lo, f.payload, x, y, es[0], es[1], es[4..4 + n], es[4 + n], es[5 + n]);
    var g := CorruptFrame(f, es);
    RunAt(Sync, g.channel, g.seqNo, hi, lo, g.payload, FlipByte(x, es[4 + n]), FlipByte(y, es[5 + n]));
    var t := Rest(g.channel, g.seqNo, hi, lo, g.payload, FlipByte(x, es[4 + n]), FlipByte(y, es[5 + n]));
    assert Corrupt(r, es)[1..] == t;
    CorruptTail(r, es);
    XorNone(Crc16.INIT);
    Crc16.FoldLinear(Crc16.INIT, 0, r[1..], [0] + es);
    ZeroStart(es);
    XorNone(Crc16.Fold(0, es));
  }

  /** Error detection at every payload length: one burst of at most 16 bits, or an odd number of
      flipped bits, costs exactly one CRC error, delivers nothing and leaves the parser in SYNC. */
  lemma CorruptionRejected(f: Frame, es: seq<byte>)
    requires |f.payload| <= MAX_PAYLOAD && |es| == |f.payload| + 6 && SparesLength(es)
    requires Burst(Bits(es), 16) || OddFlips(Bits(es))
    ensures Final(Step, Sync, Corrupt(Build(f), es)) == Sync
    ensures Emitted(Step, Sync, Corrupt(Build(f), es)) == [CrcError]
    ensures Count(Stats(0, 0, 0, 0, 0), Emitted(Step, Sync, Corrupt(Build(f), es))) == Stats(0, 1, 0, 0, 0)
  {
    hide Step, Build, Crc16.Fold, Corrupt, Bits, Count, Final, Emitted;
    ErrorDetection.Detected(es);
    CorruptJudged(f, es);
    CountOne(Stats(0, 0, 0, 0, 0), CrcError);
  }

  /** The bound on the burst is exact: a 17-bit burst in the payload is delivered as if intact. */
  lemma LongerBurstDelivered(f: Frame, es: seq<byte>)
    requires |f.payload| == 3
    requires es == [0, 0, 0, 0] + [0x01, 0x10, 0x21] + [0, 0]
    ensures Burst(Bits([0x01, 0x10, 0x21]), 17)
    ensures Emitted(Step, Sync, Corrupt(Build(f), es)) == [Deliver(CorruptFrame(f, es))]
  {
    hide Step, Build, Crc16.Fold, Corrupt, Final, Emitted, Bits;
    ErrorDetection.SeventeenBitBurstMissed();
    Crc16.FoldConcat(0, [0, 0, 0, 0] + [0x01, 0x10, 0x21], [0, 0]);
    Crc16.FoldConcat(0, [0, 0, 0, 0], [0x01, 0x10, 0x21]);
    ZerosFold(2);
    ZerosFold(4);
    assert Zeros(4) == [0, 0, 0, 0] && Zeros(2) == [0, 0];
    CorruptJudged(f, es);
  }

  lemma {:induction false} ZerosFold(n: nat)
    ensures Crc16.Fold(0, Zeros(n)) == 0
  {
    hide Crc16.Shifts, Crc16.Load;
    if n > 0 {
      assert Zeros(n)[1..] == Zeros(n - 1);
      LoadZero();
      Crc16.ShiftsKernel(0, BITS_PER_BYTE);
      ZerosFold(n - 1);
    }
  }

  /** Two flipped bits outside LEN, at every payload length: the frame is delivered with both wrong
      if they are exactly 32767 bits apart, and otherwise costs one CRC error. */
  lemma DoubleErrorJudged(f: Frame, es: seq<byte>, i: nat, j: nat)
    requires |f.payload| <= MAX_PAYLOAD && |es| == |f.payload| + 6 && SparesLength(es)
    requires DoubleErrors.TwoFlips(Bits(es), i, j)
    ensures Final(Step, Sync, Corrupt(Build(f), es)) == Sync
    ensures Emitted(Step, Sync, Corrupt(Build(f), es))
         == [if j - i == DoubleErrors.ORDER then Deliver(CorruptFrame(f, es)) else CrcError]
  {
    hide Step, Build, Crc16.Fold, Corrupt, Bits, Final, Emitted;
    ErrorDetection.FoldIsBits(0, es);
    DoubleErrors.DoubleMissedIff(Bits(es), i, j);
    CorruptJudged(f, es);
    assert 0 < j - i < 2 * DoubleErrors.ORDER;
  }

  /** Up to 4089 payload bytes no two flipped bits outside LEN are missed. */
  lemma DoubleErrorRejected(f: Frame, es: seq<byte>, i: nat, j: nat)
    requires |f.payload| <= 4089 && |es| == |f.payload| + 6 && SparesLength(es)
    requires DoubleErrors.TwoFlips(Bits(es), i, j)
    ensures Final(Step, Sync, Corrupt(Build(f), es)) == Sync
    ensures Emitted(Step, Sync, Corrupt(Build(f), es)) == [CrcError]
  {
    hide Step, Build, Corrupt, Bits, Final, Emitted;
    DoubleErrorJudged(f, es, i, j);
  }

  /** The first bit of CHANNEL and a bit 32767 places on. */
  function FarFlips(len: nat): (es: seq<byte>)
    requires len >= 4090
    ensures |es| == len + 6
  {
    [0x80] + Zeros(4094) + [0x01] + Zeros(len - 4090)
  }

  /** 4089 is exact: from 4090 payload bytes on, two such bits pass. */
  lemma DoubleErrorDelivered(f: Frame)
    requires 4090 <= |f.payload| <= MAX_PAYLOAD
    ensures var es := FarFlips(|f.payload|);
            && SparesLength(es) && DoubleErrors.TwoFlips(Bits(es), 0, DoubleErrors.ORDER)
            && Emitted(Step, Sync, Corrupt(Build(f), es)) == [Deliver(CorruptFrame(f, es))]
            && CorruptFrame(f, es).channel != f.channel
  {
    hide Step, Build, Corrupt, Final, Emitted, Bits, FlipByte;
    var n := |f.payload|;
    FarBits(n);
    FarSpares(n);
    DoubleErrorJudged(f, FarFlips(n), 0, DoubleErrors.ORDER);
    TopFlipped(f.channel);
  }

  lemma FarSpares(len: nat)
    requires len >= 4090
    ensures SparesLength(FarFlips(len)) && FarFlips(len)[0] == 0x80
  {
  }

  lemma TopFlipped(b: byte)
    ensures FlipByte(b, 0x80) != b
  {
  }

  lemma FarBits(len: nat)
    requires len >= 4090
    ensures DoubleErrors.TwoFlips(Bits(FarFlips(len)), 0, DoubleErrors.ORDER)
  {
    hide Bits, Zeros;
    BitsConcat([0x80] + Zeros(4094) + [0x01], Zeros(len - 4090));
    BitsConcat([0x80] + Zeros(4094), [0x01]);
    BitsConcat([0x80], Zeros(4094));
    ZeroBits(4094);
    ZeroBits(len - 4090);
    EdgeBits();
  }

  lemma EdgeBits()
    ensures Bits([0x80]) == [true, false, false, false, false, false, false, false]
    ensures Bits([0x01]) == [false, false, false, false, false, false, false, true]
  {
    assert (0x80 as byte) << 1 == 0;
    assert LeadingBits(0, 7) == [false, false, false, false, false, false, false];
    assert LeadingBits(0x80, 8) == [true] + LeadingBits(0, 7);
    assert LeadingBits(0x01, 8) == [false, false, false, false] + LeadingBits(0x10, 4);
    assert LeadingBits(0x10, 4) == [false, false, false, true];
    assert Bits([]) == [];
  }

  // ---- Attempt accounting ----

  /** SYNC bytes taken as the start of a frame, in SYNC or as a stray where VERSION was due. */
  function Starts(s: State, bs: seq<byte>): nat
    decreases |bs|
  {
    if bs == [] then 0
    else (if (s.Sync? || s.Ver?) && bs[0] == SYNC then 1 else 0) + Starts(Step(s, bs[0]).0, bs[1..])
  }

  function Open(s: State): nat
  {
    if s.Sync? then 0 else 1
  }

  lemma StartStep(s: State, b: byte, st: Stats)
    ensures var (s1, es) := Step(s, b);
            var st1 := Count(st, es);
            && Open(s) + (if (s.Sync? || s.Ver?) && b == SYNC then 1 else 0)
               == (st1.frames - st.frames) + (st1.crcErr - st.crcErr) + (st1.verErr - st.verErr) + (st1.lenErr - st.lenErr) + Open(s1)
            && st1.resync - st.resync == st1.lenErr - st.lenErr
  {
    hide Crc16.Update, RxWhole, RxHigh, Count;
    CountNone(st);
    var es := Step(s, b).1;
    if es != [] {
      assert es == [es[0]];
      CountOne(st, es[0]);
    }
  }

  /** Every attempt ends in exactly one counter, or is the one still open; resynchronisations
      are exactly the oversized lengths. */
  lemma {:induction false} AttemptsAccounted(s: State, bs: seq<byte>, st: Stats)
    ensures var st1 := Count(st, Emitted(Step, s, bs));
            && Open(s) + Starts(s, bs)
               == (st1.frames - st.frames) + (st1.crcErr - st.crcErr) + (st1.verErr - st.verErr) + (st1.lenErr - st.lenErr)
                  + Open(Final(Step, s, bs))
            && st1.resync - st.resync == st1.lenErr - st.lenErr
    decreases |bs|
  {
    hide Step, Count;
    CountNone(st);
    if bs != [] {
      var (s1, es) := Step(s, bs[0]);
      StartStep(s, bs[0], st);
      CountConcat(st, es, Emitted(Step, s1, bs[1..]));
      AttemptsAccounted(s1, bs[1..], Count(st, es));
    }
  }

  // ---- Self-stabilisation ----

  /** Bytes that can still pass, none of them SYNC, before the parser hunts for SYNC again. */
  function Distance(s: State): nat
  {
    match s
    case Sync => 0
    case Ver => 4103
    case Channel(_) => 4102
    case Seq(_, _) => 4101
    case LenHi(_, _, _) => 4100
    case LenLo(_, _, _, _) => 4099
    case Payload(_, _, _, len, got) => if |got| < len then 2 + len - |got| else 3
    case CrcHi(_, _, _, _) => 2
    case CrcLo(_, _, _, _, _) => 1
  }

  lemma QuietStep(s: State, b: byte)
    requires b != SYNC
    ensures var d := Distance(Step(s, b).0); if s.Sync? then d == 0 else d < Distance(s)
  {
    hide Crc16.Update, RxWhole, RxHigh;
  }

  lemma {:induction false} QuietBytesSettle(s: State, bs: seq<byte>)
    requires SYNC !in bs
    ensures Distance(Final(Step, s, bs)) <= if |bs| <= Distance(s) then Distance(s) - |bs| else 0
    decreases |bs|
  {
    hide Step;
    if bs != [] {
      QuietStep(s, bs[0]);
      QuietBytesSettle(Step(s, bs[0]).0, bs[1..]);
    }
  }

  /** From any reachable state, 4103 bytes that are not SYNC bring the parser back to SYNC, and
      the next built frame is then delivered exactly. */
  lemma Stabilises(s: State, quiet: seq<byte>, f: Frame)
    requires Ok(s) && SYNC !in quiet && |quiet| >= 4103 && |f.payload| <= MAX_PAYLOAD
    ensures Final(Step, s, quiet + Build(f)) == Sync
    ensures Emitted(Step, s, quiet + Build(f)) == Emitted(Step, s, quiet) + [Deliver(f)]
  {
    hide Step, Build;
    assert Distance(s) <= 4103;
    QuietBytesSettle(s, quiet);
    RunConcat(Step, s, quiet, Build(f));
    BuiltDelivered(Sync, f);
  }

  /** The bound is exact: after SYNC, 4102 quiet bytes can leave the parser one byte short. */
  lemma StabilisationBoundExact(pl: seq<byte>, ch: byte, sq: byte, x: byte)
    requires |pl| == MAX_PAYLOAD && SYNC !in pl && ch != SYNC && sq != SYNC && x != SYNC
    ensures var quiet := [VERSION, ch, sq, 0x10, 0x00] + pl + [x];
            |quiet| == 4102 && SYNC !in quiet && Final(Step, Ver, quiet).CrcLo?
  {
    hide Crc16.Fold, RxHigh, Step;
    var head: seq<byte> := [VERSION, ch, sq, 0x10, 0x00];
    HeaderRun(ch, sq, 0x10, 0x00);
    PayloadRun(Crc16.Crc(head), ch, sq, |pl|, [], pl);
    RunConcat(Step, Ver, head, pl);
    RunSnoc(Step, Ver, head + pl, x);
    CrcHiStep(Final(Step, Ver, head + pl), x);
  }

  lemma CrcHiStep(s: State, b: byte)
    requires s.CrcHi?
    ensures Step(s, b).0.CrcLo?
  {
  }
}
