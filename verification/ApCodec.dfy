/** The AP packet codec of `attentio_protocol.c`: the byte-fed parser that checks the CRC-8,
    and the packet builder. */
module ApCodec {
  import opened Bytes
  import opened Machine
  import opened ApWire
  import Crc8

  /** `data` holds CMD and PAYLOAD. */
  datatype State = Sync | Len | Data(len: byte, data: seq<byte>) | AwaitCrc(len: byte, data: seq<byte>)

  /** The results other than "need more". */
  datatype Verdict = Complete(cmd: byte, payload: seq<byte>) | ErrCrc | ErrLen | ErrOverflow

  /** Judgement on a packet body; LEN is at least 1, so the body is never empty. */
  function Judge(len: byte, data: seq<byte>, crc: byte): Verdict
  {
    if data == [] || crc != Crc8.Crc([len] + data) then ErrCrc else Complete(data[0], data[1..])
  }

  function LenError(b: byte): Verdict
  {
    if b == 0 then ErrLen else ErrOverflow
  }

  function Step(s: State, b: byte): (State, seq<Verdict>)
  {
    match s
    case Sync => (if b == SYNC then Len else Sync, [])
    case Len => if ValidLen(b) then (Data(b, []), []) else (Sync, [LenError(b)])
    case Data(len, data) =>
      if |data| + 1 >= len as nat then (AwaitCrc(len, data + [b]), []) else (Data(len, data + [b]), [])
    case AwaitCrc(len, data) => (Sync, [Judge(len, data, b)])
  }

  datatype Mode = SYNC_MODE | LEN_MODE | DATA_MODE | CRC_MODE
  datatype Result = NEED_MORE | COMPLETE | ERR_CRC | ERR_LEN | ERR_OVERFLOW

  class Parser {
    var mode: Mode
    var len: byte
    var idx: nat
    const data: array<byte>
    var pktCmd: byte
    var pktLen: nat
    const pktPayload: array<byte>

    ghost predicate Valid()
      reads this, data
    {
      && data.Length == MAX_PAYLOAD + 1
      && pktPayload.Length == MAX_PAYLOAD
      && data != pktPayload
      && (mode == DATA_MODE ==> ValidLen(len) && idx < len as nat <= data.Length)
      && (mode == CRC_MODE ==> ValidLen(len) && idx == len as nat <= data.Length)
    }

    ghost function Abs(): State
      reads this, data
      requires Valid()
    {
      match mode
      case SYNC_MODE => Sync
      case LEN_MODE => Len
      case DATA_MODE => Data(len, data[..idx])
      case CRC_MODE => AwaitCrc(len, data[..idx])
    }

    /** The verdict the caller reads off the result code and the packet fields. */
    ghost function Verdicts(r: Result): seq<Verdict>
      reads this, pktPayload
      requires r == COMPLETE ==> pktLen <= pktPayload.Length
    {
      match r
      case NEED_MORE => []
      case COMPLETE => [Complete(pktCmd, pktPayload[..pktLen])]
      case ERR_CRC => [ErrCrc]
      case ERR_LEN => [ErrLen]
      case ERR_OVERFLOW => [ErrOverflow]
    }

    constructor ()
      ensures Valid() && fresh(data) && fresh(pktPayload) && Abs() == Sync
    {
      mode, len, idx := SYNC_MODE, 0, 0;
      data := new byte[MAX_PAYLOAD + 1];
      pktPayload := new byte[MAX_PAYLOAD];
    }

    method ParseByte(b: byte) returns (r: Result)
      requires Valid()
      modifies this, data, pktPayload
      ensures Valid()
      ensures r == COMPLETE ==> pktLen <= pktPayload.Length
      ensures (Abs(), Verdicts(r)) == Step(old(Abs()), b)
    {
      hide Judge;
      r := NEED_MORE;
      match mode {
        case SYNC_MODE =>
          if b == SYNC {
            mode, len, idx := LEN_MODE, 0, 0;
          }
        case LEN_MODE =>
          LenRange(b);
          if b == 0 {
            mode := SYNC_MODE;
            r := ERR_LEN;
          } else if b > 253 {
            mode := SYNC_MODE;
            r := ERR_OVERFLOW;
          } else {
            mode, len, idx := DATA_MODE, b, 0;
          }
        case DATA_MODE =>
          TakeData(b);
        case CRC_MODE =>
          r := FinishPacket(b);
      }
    }

    method TakeData(b: byte)
      requires Valid() && mode == DATA_MODE
      modifies this`idx, this`mode, data
      ensures Valid() && (Abs(), []) == Step(old(Abs()), b)
    {
      data[idx] := b;
      idx := idx + 1;
      assert data[..idx] == old(data[..idx]) + [b];
      if idx >= len as nat {
        mode := CRC_MODE;
      }
    }

    method FinishPacket(b: byte) returns (r: Result)
      requires Valid() && mode == CRC_MODE
      modifies this, pktPayload
      ensures Valid() && mode == SYNC_MODE
      ensures r == COMPLETE ==> pktLen <= pktPayload.Length
      ensures Verdicts(r) == [old(Judge(len, data[..idx], b))]
    {
      hide Crc8.Crc;
      LenRange(len);
      ghost var body := data[..idx];
      var computed := ComputeCrc();
      mode := SYNC_MODE;
      if b != computed {
        return ERR_CRC;
      }
      Publish();
      assert body[0] == data[0] && body[1..] == data[1..idx];
      return COMPLETE;
    }

    /** Copies the collected body to the packet the caller reads. */
    method Publish()
      requires data.Length == MAX_PAYLOAD + 1 && pktPayload.Length == MAX_PAYLOAD && data != pktPayload
      requires 1 <= idx == len as nat <= data.Length
      modifies this`pktCmd, this`pktLen, pktPayload
      ensures pktLen <= pktPayload.Length && pktCmd == data[0] && pktPayload[..pktLen] == data[1..idx]
    {
      pktCmd := data[0];
      pktLen := len as nat - 1;
      forall i | 0 <= i < pktLen {
        pktPayload[i] := data[1 + i];
      }
    }

    /** CRC-8 of LEN, then continued over the collected body. */
    method ComputeCrc() returns (crc: byte)
      requires Valid() && mode == CRC_MODE
      ensures crc == Crc8.Crc([len] + data[..idx])
    {
      hide Crc8.Update, Crc8.Lookup;
      var first := new byte[1] [len];
      var start := Crc8.Continue(0, first, 0, 1);
      assert first[0..1] == [len];
      crc := Crc8.Continue(start, data, 0, len as nat);
      Crc8.FoldConcat(0, [len], data[..idx]);
    }
  }

  /** Lays a packet out in `buf`; 0 when the buffer is too small or the payload too long. A NULL
      payload is never copied, so the bytes already in its place become the payload. */
  method BuildPacket(buf: array?<byte>, cmd: byte, payload: array?<byte>, len: nat) returns (n: nat)
    requires len < 256
    requires payload != null ==> len <= payload.Length && payload != buf
    modifies if buf == null then {} else {buf}
    ensures n == if buf == null || buf.Length < len + 4 || len > MAX_PAYLOAD then 0 else len + 4
    ensures n == 0 && buf != null ==> buf[..] == old(buf[..])
    ensures n > 0 ==> buf[..n] == Build(cmd, old(if payload == null then buf[3..3 + len] else payload[..len]))
    ensures n > 0 ==> buf[n..] == old(buf[n..])
  {
    hide Crc8.Crc, Crc8.Fold;
    var total := 4 + len;
    if buf == null || buf.Length < total {
      return 0;
    }
    if len > MAX_PAYLOAD {
      return 0;
    }
    var lenField := ToByte(1 + len);
    ghost var body := if payload == null then buf[3..3 + len] else payload[..len];
    WritePacket(buf, lenField, cmd, payload, len);
    assert buf[1..3 + len] == [lenField, cmd] + body;
    var crc := ComputeOver(buf, 1, 3 + len);
    buf[3 + len] := crc;
    assert buf[..total] == [SYNC] + ([lenField, cmd] + body) + [crc];
    return total;
  }

  method WritePacket(buf: array<byte>, lenField: byte, cmd: byte, payload: array?<byte>, len: nat)
    requires buf.Length >= len + 4
    requires payload != null ==> len <= payload.Length && payload != buf
    modifies buf
    ensures buf[..3] == [SYNC, lenField, cmd]
    ensures buf[3..3 + len] == old(if payload == null then buf[3..3 + len] else payload[..len])
    ensures buf[3 + len..] == old(buf[3 + len..])
  {
    buf[0] := SYNC;
    buf[1] := lenField;
    buf[2] := cmd;
    if len > 0 && payload != null {
      forall i | 0 <= i < len {
        buf[3 + i] := payload[i];
      }
    }
  }

  method ComputeOver(data: array<byte>, lo: nat, hi: nat) returns (crc: byte)
    requires lo <= hi <= data.Length
    ensures crc == Crc8.Crc(data[lo..hi])
  {
    hide Crc8.Update, Crc8.Lookup;
    crc := Crc8.Continue(0, data, lo, hi);
  }

  method BuildError(buf: array?<byte>, code: byte) returns (n: nat)
    modifies if buf == null then {} else {buf}
    ensures n == if buf == null || buf.Length < 5 then 0 else 5
    ensures n == 0 && buf != null ==> buf[..] == old(buf[..])
    ensures n > 0 ==> buf[..n] == Build(CMD_ERROR, [code]) && buf[n..] == old(buf[n..])
  {
    var payload := new byte[1] [code];
    ghost var body := payload[..1];
    assert |body| == 1 && body[0] == code;
    assert body == [code];
    n := BuildPacket(buf, CMD_ERROR, payload, 1);
  }
}
