/** UART link framing of `al1_frame.c`:
    SYNC, VERSION, CHANNEL, SEQ, LEN (2 bytes), up to 4096 payload bytes, CRC-16 over VERSION..PAYLOAD. */
module LinkFrame {
  import opened Bytes
  import opened Machine
  import Crc16

  const SYNC: byte := 0xA5
  const VERSION: byte := 0x01
  const MAX_PAYLOAD: nat := 4096
  const HEADER_LEN: nat := 6
  const OVERHEAD: nat := 8
  const CH_AP_CTRL: byte := 0x01

  datatype Frame = Frame(channel: byte, seqNo: byte, payload: seq<byte>)

  function Header(channel: byte, seqNo: byte, len: nat): seq<byte>
    requires len <= MAX_PAYLOAD
  {
    [SYNC, VERSION, channel, seqNo, High(len), Low(len)]
  }

  /** The bytes `al1_frame_build` writes. */
  function Build(f: Frame): (r: seq<byte>)
    requires |f.payload| <= MAX_PAYLOAD
    ensures |r| == OVERHEAD + |f.payload|
  {
    var body := Header(f.channel, f.seqNo, |f.payload|) + f.payload;
    body + Crc16.Wire(Crc16.Crc(body[1..]))
  }

  // ---- The nine-state parser ----

  datatype State =
    | Sync
    | Ver
    | Channel(crc: bv16)
    | Seq(crc: bv16, ch: byte)
    | LenHi(crc: bv16, ch: byte, sq: byte)
    | LenLo(crc: bv16, ch: byte, sq: byte, len: nat)
    | Payload(crc: bv16, ch: byte, sq: byte, len: nat, got: seq<byte>)
    | CrcHi(crc: bv16, ch: byte, sq: byte, got: seq<byte>)
    | CrcLo(crc: bv16, ch: byte, sq: byte, got: seq<byte>, rx: bv16)

  datatype Event = Deliver(frame: Frame) | CrcError | VerError | LenError

  /** The received CRC, high byte first. */
  function RxHigh(b: byte): bv16
  {
    (b as bv16) << 8
  }

  function RxWhole(rx: bv16, b: byte): bv16
  {
    rx | (b as bv16)
  }

  function Step(s: State, b: byte): (State, seq<Event>)
  {
    match s
    case Sync => (if b == SYNC then Ver else Sync, [])
    case Ver =>
      if b != VERSION then (if b == SYNC then Ver else Sync, [VerError])
      else (Channel(Crc16.Update(Crc16.INIT, b)), [])
    case Channel(crc) => (Seq(Crc16.Update(crc, b), b), [])
    case Seq(crc, ch) => (LenHi(Crc16.Update(crc, b), ch, b), [])
    case LenHi(crc, ch, sq) => (LenLo(Crc16.Update(crc, b), ch, sq, b as nat * 256), [])
    case LenLo(crc, ch, sq, hi) =>
      var len := hi + b as nat;
      if len > MAX_PAYLOAD then (Sync, [LenError])
      else if len == 0 then (CrcHi(Crc16.Update(crc, b), ch, sq, []), [])
      else (Payload(Crc16.Update(crc, b), ch, sq, len, []), [])
    case Payload(crc, ch, sq, len, got) =>
      if |got| + 1 >= len then (CrcHi(Crc16.Update(crc, b), ch, sq, got + [b]), [])
      else (Payload(Crc16.Update(crc, b), ch, sq, len, got + [b]), [])
    case CrcHi(crc, ch, sq, got) => (CrcLo(crc, ch, sq, got, RxHigh(b)), [])
    case CrcLo(crc, ch, sq, got, rx) =>
      (Sync, [if RxWhole(rx, b) == crc then Deliver(Frame(ch, sq, got)) else CrcError])
  }

  /** The delivered frames, in order. */
  function Deliveries(es: seq<Event>): seq<Frame>
  {
    if es == [] then [] else (if es[0].Deliver? then [es[0].frame] else []) + Deliveries(es[1..])
  }

  lemma {:induction false} DeliveriesConcat(es: seq<Event>, fs: seq<Event>)
    ensures Deliveries(es + fs) == Deliveries(es) + Deliveries(fs)
  {
    if es == [] {
      assert es + fs == fs;
    } else {
      var head := if es[0].Deliver? then [es[0].frame] else [];
      DeliveriesConcat(es[1..], fs);
      assert (es + fs)[0] == es[0] && (es + fs)[1..] == es[1..] + fs;
      assert head + (Deliveries(es[1..]) + Deliveries(fs)) == (head + Deliveries(es[1..])) + Deliveries(fs);
    }
  }

  lemma DeliveriesOne(es: seq<Event>)
    requires |es| <= 1
    ensures Deliveries(es) == if es == [] || !es[0].Deliver? then [] else [es[0].frame]
  {
  }

  /** The receive counters of `al1_link_stats_t`. */
  datatype Stats = Stats(frames: nat, crcErr: nat, verErr: nat, lenErr: nat, resync: nat)

  function Count(st: Stats, es: seq<Event>): Stats
  {
    Stats(st.frames + |Deliveries(es)|, st.crcErr + multiset(es)[CrcError], st.verErr + multiset(es)[VerError],
          st.lenErr + multiset(es)[LenError], st.resync + multiset(es)[LenError])
  }

  lemma CountConcat(st: Stats, es: seq<Event>, fs: seq<Event>)
    ensures Count(st, es + fs) == Count(Count(st, es), fs)
  {
    DeliveriesConcat(es, fs);
    assert multiset(es + fs) == multiset(es) + multiset(fs);
  }

  lemma CountNone(st: Stats)
    ensures Count(st, []) == st && Deliveries([]) == []
  {
  }

  lemma CountOne(st: Stats, e: Event)
    ensures Deliveries([e]) == if e.Deliver? then [e.frame] else []
    ensures Count(st, [e]) == match e
                              case Deliver(_) => st.(frames := st.frames + 1)
                              case CrcError => st.(crcErr := st.crcErr + 1)
                              case VerError => st.(verErr := st.verErr + 1)
                              case LenError => st.(lenErr := st.lenErr + 1, resync := st.resync + 1)
  {
    assert [e][1..] == [];
    assert multiset([e]) == multiset{e};
  }

  datatype Mode = SYNC_MODE | VER_MODE | CHANNEL_MODE | SEQ_MODE | LEN_HI_MODE | LEN_LO_MODE
    | PAYLOAD_MODE | CRC_HI_MODE | CRC_LO_MODE

  class Parser {
    var mode: Mode
    var channel: byte
    var seqNo: byte
    var len: nat
    var idx: nat
    var crcCalc: bv16
    var crcRx: bv16
    const payload: array<byte>
    var stats: Stats

    ghost predicate Valid()
      reads this, payload
    {
      && payload.Length == MAX_PAYLOAD
      && (mode == PAYLOAD_MODE ==> idx < len <= MAX_PAYLOAD)
      && (mode == CRC_HI_MODE || mode == CRC_LO_MODE ==> idx == len <= MAX_PAYLOAD)
    }

    ghost function Abs(): State
      reads this, payload
      requires Valid()
    {
      match mode
      case SYNC_MODE => Sync
      case VER_MODE => Ver
      case CHANNEL_MODE => Channel(crcCalc)
      case SEQ_MODE => Seq(crcCalc, channel)
      case LEN_HI_MODE => LenHi(crcCalc, channel, seqNo)
      case LEN_LO_MODE => LenLo(crcCalc, channel, seqNo, len)
      case PAYLOAD_MODE => Payload(crcCalc, channel, seqNo, len, payload[..idx])
      case CRC_HI_MODE => CrcHi(crcCalc, channel, seqNo, payload[..idx])
      case CRC_LO_MODE => CrcLo(crcCalc, channel, seqNo, payload[..idx], crcRx)
    }

    constructor ()
      ensures Valid() && fresh(payload) && Abs() == Sync
      ensures stats == Stats(0, 0, 0, 0, 0)
    {
      mode, channel, seqNo, len, idx, crcCalc, crcRx := SYNC_MODE, 0, 0, 0, 0, 0, 0;
      payload := new byte[MAX_PAYLOAD];
      stats := Stats(0, 0, 0, 0, 0);
    }

    method Resync()
      modifies this`stats, this`mode
      ensures mode == SYNC_MODE && stats == old(stats.(resync := stats.resync + 1))
    {
      stats := stats.(resync := stats.resync + 1);
      mode := SYNC_MODE;
    }

    /** LEN_LO completes the length; an oversized one is dropped. */
    method TakeLenLo(b: byte) returns (ghost es: seq<Event>)
      requires Valid() && mode == LEN_LO_MODE
      modifies this
      ensures Valid() && (Abs(), es) == Step(old(Abs()), b)
      ensures |es| <= 1 && Deliveries(es) == [] && stats == Count(old(stats), es)
    {
      hide Crc16.Update, Count, Deliveries;
      len := len + b as nat;
      crcCalc := Crc16.UpdateByte(crcCalc, b);
      es := [];
      CountNone(stats);
      if len > MAX_PAYLOAD {
        es := [LenError];
        CountOne(stats, LenError);
        stats := stats.(lenErr := stats.lenErr + 1);
        Resync();
      } else {
        idx := 0;
        mode := if len == 0 then CRC_HI_MODE else PAYLOAD_MODE;
      }
    }

    method TakePayload(b: byte)
      requires Valid() && mode == PAYLOAD_MODE
      modifies this, payload
      ensures Valid() && (Abs(), []) == Step(old(Abs()), b)
      ensures unchanged(`stats)
    {
      hide Crc16.Update;
      payload[idx] := b;
      idx := idx + 1;
      assert payload[..idx] == old(payload[..idx]) + [b];
      crcCalc := Crc16.UpdateByte(crcCalc, b);
      if idx >= len {
        mode := CRC_HI_MODE;
      }
    }

    /** CRC_LO completes the frame; `delivered` stands for the frame callback. */
    method TakeCrcLo(b: byte) returns (delivered: bool, ghost es: seq<Event>)
      requires Valid() && mode == CRC_LO_MODE
      modifies this
      ensures Valid() && (Abs(), es) == Step(old(Abs()), b)
      ensures stats == Count(old(stats), es) && len <= payload.Length
      ensures es == [if delivered then Deliver(Frame(channel, seqNo, payload[..len])) else CrcError]
    {
      hide RxWhole, Count, Deliveries;
      crcRx := RxWhole(crcRx, b);
      delivered := crcRx == crcCalc;
      ghost var e := if delivered then Deliver(Frame(channel, seqNo, payload[..len])) else CrcError;
      CountOne(stats, e);
      es := [e];
      if delivered {
        stats := stats.(frames := stats.frames + 1);
      } else {
        stats := stats.(crcErr := stats.crcErr + 1);
      }
      mode := SYNC_MODE;
    }

    /** The header bytes before LEN_LO. */
    method TakeHeader(b: byte) returns (ghost es: seq<Event>)
      requires Valid()
      requires mode == SYNC_MODE || mode == VER_MODE || mode == CHANNEL_MODE || mode == SEQ_MODE || mode == LEN_HI_MODE
      modifies this
      ensures Valid() && (Abs(), es) == Step(old(Abs()), b)
      ensures |es| <= 1 && Deliveries(es) == [] && stats == Count(old(stats), es)
    {
      hide Crc16.Update, Count, Deliveries;
      es := [];
      CountNone(stats);
      match mode {
        case SYNC_MODE =>
          if b == SYNC {
            mode := VER_MODE;
          }
        case VER_MODE =>
          if b != VERSION {
            es := [VerError];
            CountOne(stats, VerError);
            stats := stats.(verErr := stats.verErr + 1);
            mode := if b == SYNC then VER_MODE else SYNC_MODE;
          } else {
            crcCalc := Crc16.UpdateByte(Crc16.INIT, b);
            mode := CHANNEL_MODE;
          }
        case CHANNEL_MODE =>
          channel := b;
          crcCalc := Crc16.UpdateByte(crcCalc, b);
          mode := SEQ_MODE;
        case SEQ_MODE =>
          seqNo := b;
          crcCalc := Crc16.UpdateByte(crcCalc, b);
          mode := LEN_HI_MODE;
        case LEN_HI_MODE =>
          len := (b as nat) * 256;
          crcCalc := Crc16.UpdateByte(crcCalc, b);
          mode := LEN_LO_MODE;
      }
    }

    /** One turn of the loop body; `delivered` stands for the frame callback, which is given
        `channel`, `seqNo` and the first `len` payload bytes. */
    method FeedByte(b: byte) returns (delivered: bool, ghost es: seq<Event>)
      requires Valid()
      modifies this, payload
      ensures Valid() && (Abs(), es) == Step(old(Abs()), b)
      ensures stats == Count(old(stats), es)
      ensures delivered ==> len <= payload.Length && es == [Deliver(Frame(channel, seqNo, payload[..len]))]
      ensures !delivered ==> Deliveries(es) == []
    {
      hide Step, Deliveries, Count;
      delivered, es := false, [];
      CountNone(stats);
      match mode {
        case LEN_LO_MODE =>
          es := TakeLenLo(b);
        case PAYLOAD_MODE =>
          TakePayload(b);
        case CRC_HI_MODE =>
          TakeCrcHi(b);
        case CRC_LO_MODE =>
          delivered, es := TakeCrcLo(b);
          CountOne(stats, es[0]);
        case _ =>
          es := TakeHeader(b);
      }
    }

    method TakeCrcHi(b: byte)
      requires Valid() && mode == CRC_HI_MODE
      modifies this
      ensures Valid() && (Abs(), []) == Step(old(Abs()), b)
      ensures unchanged(`stats)
    {
      hide RxHigh;
      crcRx := RxHigh(b);
      mode := CRC_LO_MODE;
    }

    /** `out` collects what the frame callback is given, in order. */
    method Feed(data: seq<byte>) returns (out: seq<Frame>)
      requires Valid()
      modifies this, payload
      ensures Valid()
      ensures Abs() == Final(Step, old(Abs()), data)
      ensures out == Deliveries(Emitted(Step, old(Abs()), data))
      ensures stats == Count(old(stats), Emitted(Step, old(Abs()), data))
    {
      hide Step, Deliveries, Count;
      out := [];
      ghost var start := Abs();
      CountNone(stats);
      assert data[..0] == [];
      for i := 0 to |data|
        invariant Valid()
        invariant Abs() == Final(Step, start, data[..i])
        invariant out == Deliveries(Emitted(Step, start, data[..i]))
        invariant stats == Count(old(stats), Emitted(Step, start, data[..i]))
      {
        hide Final, Emitted, Abs;
        assert data[..i + 1] == data[..i] + [data[i]];
        RunSnoc(Step, start, data[..i], data[i]);
        var delivered, es := FeedByte(data[i]);
        DeliveriesConcat(Emitted(Step, start, data[..i]), es);
        CountConcat(old(stats), Emitted(Step, start, data[..i]), es);
        if delivered {
          DeliveriesOne(es);
          out := out + [Frame(channel, seqNo, payload[..len])];
        }
      }
      assert data[..|data|] == data;
    }
  }

  lemma RxBits(hi: byte, lo: byte, crc: bv16)
    ensures ((hi as bv16) << 8) | (lo as bv16) == crc <==> hi == (crc >> 8) as bv8 && lo == (crc & 0xFF) as bv8
  {
  }

  /** The received CRC equals the computed one iff it was transmitted high byte first. */
  lemma RxIsWire(hi: byte, lo: byte, crc: bv16)
    ensures RxWhole(RxHigh(hi), lo) == crc <==> [hi, lo] == Crc16.Wire(crc)
  {
    hide Crc16.Wire;
    RxBits(hi, lo, crc);
    Crc16.WireSeq(crc, hi, lo);
  }

  /** Writes the frame into `out` and returns its length, or 0 and leaves `out` alone.
      An absent payload stands for the NULL pointer. */
  method BuildInto(out: array?<byte>, channel: byte, seqNo: byte, payload: array?<byte>, len: nat) returns (n: nat)
    requires len < 0x1_0000
    requires payload != null ==> len <= payload.Length && payload != out
    modifies if out == null then {} else {out}
    ensures n == if out == null || len > MAX_PAYLOAD || (len > 0 && payload == null) || out.Length < OVERHEAD + len
                 then 0 else OVERHEAD + len
    ensures n == 0 && out != null ==> out[..] == old(out[..])
    ensures n > 0 ==> out[..n] == Build(Frame(channel, seqNo, if len == 0 then [] else old(payload[..len])))
    ensures n > 0 ==> out[n..] == old(out[n..])
  {
    hide Crc16.Update, Crc16.Fold, Crc16.Crc, Crc16.Wire;
    if out == null || len > MAX_PAYLOAD {
      return 0;
    }
    if len > 0 && payload == null {
      return 0;
    }
    var total := OVERHEAD + len;
    if out.Length < total {
      return 0;
    }
    ghost var pl := if len == 0 then [] else old(payload[..len]);
    WriteHeader(out, channel, seqNo, len);
    WritePayload(out, payload, len);
    ghost var body := Header(channel, seqNo, len) + pl;
    Joined(out[..], HEADER_LEN, HEADER_LEN + len, Header(channel, seqNo, len), pl);
    assert out[1..HEADER_LEN + len] == out[..HEADER_LEN + len][1..];
    var crc := Crc16.Compute(out, 1, HEADER_LEN + len);
    WriteCrc(out, HEADER_LEN + len, crc);
    Joined(out[..], HEADER_LEN + len, total, body, Crc16.Wire(crc));
    return total;
  }

  lemma Joined(s: seq<byte>, m: nat, n: nat, x: seq<byte>, y: seq<byte>)
    requires m <= n <= |s| && s[..m] == x && s[m..n] == y
    ensures s[..n] == x + y
  {
  }

  method WriteHeader(out: array<byte>, channel: byte, seqNo: byte, len: nat)
    requires len <= MAX_PAYLOAD && out.Length >= HEADER_LEN
    modifies out
    ensures out[..HEADER_LEN] == Header(channel, seqNo, len)
    ensures out[HEADER_LEN..] == old(out[HEADER_LEN..])
  {
    hide High, Low;
    out[0], out[1], out[2], out[3], out[4], out[5] := SYNC, VERSION, channel, seqNo, High(len), Low(len);
  }

  method WritePayload(out: array<byte>, payload: array?<byte>, len: nat)
    requires out.Length >= HEADER_LEN + len && (len > 0 ==> payload != null)
    requires payload != null ==> len <= payload.Length && payload != out
    modifies out
    ensures out[..HEADER_LEN] == old(out[..HEADER_LEN])
    ensures out[HEADER_LEN..HEADER_LEN + len] == if len == 0 then [] else payload[..len]
    ensures out[HEADER_LEN + len..] == old(out[HEADER_LEN + len..])
  {
    if len > 0 {
      forall i | 0 <= i < len {
        out[HEADER_LEN + i] := payload[i];
      }
    }
  }

  method WriteCrc(out: array<byte>, at: nat, crc: bv16)
    requires at + 2 <= out.Length
    modifies out
    ensures out[..at] == old(out[..at]) && out[at..at + 2] == Crc16.Wire(crc)
    ensures out[at + 2..] == old(out[at + 2..])
  {
    var wire := Crc16.Wire(crc);
    assert |wire| == 2;
    hide Crc16.Wire;
    out[at], out[at + 1] := wire[0], wire[1];
  }
}
