/** The client side of the notification path (`ble_smoke.py`): the Python port of the reassembler
    and the request builder, and what they make of the firmware's fragments. */
module Client {
  import opened Bytes
  import opened Machine
  import opened ApWire
  import opened ApReasm
  import P = ApCodec
  import Crc8
  import Framing
  import Notify

  datatype ClientMode = SYNC_STATE | LEN_STATE | DATA_STATE

  /** `frame` grows by appending; nothing bounds it but LEN. */
  class ApReassembler {
    var mode: ClientMode
    var frame: seq<byte>
    var need: nat
    var lenErr: nat

    ghost predicate Valid()
      reads this
    {
      match mode
      case SYNC_STATE => true
      case LEN_STATE => frame == [SYNC]
      case DATA_STATE =>
        && |frame| >= 2 && frame[0] == SYNC && ValidLen(frame[1])
        && need > 0 && |frame| + need == frame[1] as nat + 3
    }

    ghost function Abs(): State
      reads this
      requires Valid()
    {
      match mode
      case SYNC_STATE => Sync
      case LEN_STATE => Len
      case DATA_STATE => Data(frame[1], frame[2..])
    }

    constructor ()
      ensures Valid() && Abs() == Sync && lenErr == 0
    {
      mode, frame, need, lenErr := SYNC_STATE, [], 0, 0;
    }

    /** One turn of the loop; `out` holds the frame this byte completes, if any. */
    method FeedByte(b: byte) returns (out: seq<seq<byte>>)
      requires Valid()
      modifies this
      ensures Valid() && Abs() == Step(old(Abs()), b).0
      ensures out == Frames(Step(old(Abs()), b).1)
      ensures lenErr == old(lenErr) + BadLens(Step(old(Abs()), b).1)
    {
      out := [];
      match mode {
        case SYNC_STATE =>
          if b == SYNC {
            frame := [b];
            mode := LEN_STATE;
          }
        case LEN_STATE =>
          LenRange(b);
          if b < 1 || b > 253 {
            lenErr := lenErr + 1;
            mode := SYNC_STATE;
            EventsOne([BadLen(b)]);
            return;
          }
          frame := frame + [b];
          need := b as nat + 1;
          mode := DATA_STATE;
        case DATA_STATE =>
          LenRange(frame[1]);
          ghost var got := frame[2..];
          frame := frame + [b];
          need := need - 1;
          assert frame == [SYNC, frame[1]] + got + [b];
          assert frame[2..] == got + [b];
          if need == 0 {
            EventsOne([Framed(frame)]);
            out := [frame];
            mode := SYNC_STATE;
          }
      }
    }

    /** Returns the frames this feed completes; agrees with the firmware's reassembler on every input. */
    method Feed(data: seq<byte>) returns (out: seq<seq<byte>>)
      requires Valid()
      modifies this
      ensures Valid() && Abs() == Final(Step, old(Abs()), data)
      ensures out == Frames(Emitted(Step, old(Abs()), data))
      ensures lenErr == old(lenErr) + BadLens(Emitted(Step, old(Abs()), data))
    {
      hide Step;
      out := [];
      ghost var start := Abs();
      for i := 0 to |data|
        invariant Valid() && Abs() == Final(Step, start, data[..i])
        invariant out == Frames(Emitted(Step, start, data[..i]))
        invariant lenErr == old(lenErr) + BadLens(Emitted(Step, start, data[..i]))
      {
        assert data[..i + 1] == data[..i] + [data[i]];
        RunSnoc(Step, start, data[..i], data[i]);
        EventsConcat(Emitted(Step, start, data[..i]), Step(Abs(), data[i]).1);
        var more := FeedByte(data[i]);
        out := out + more;
      }
      assert data[..|data|] == data;
    }
  }

  // ---- Firmware to client ----

  /** What successive feeds return, one list a feed. */
  function Returned(s: State, chunks: seq<seq<byte>>): seq<seq<seq<byte>>>
    decreases |chunks|
  {
    if chunks == [] then []
    else [Frames(Emitted(Step, s, chunks[0]))] + Returned(Final(Step, s, chunks[0]), chunks[1..])
  }

  lemma {:induction false} ReturnedFlat(s: State, chunks: seq<seq<byte>>)
    ensures Flatten(Returned(s, chunks)) == Frames(Emitted(Step, s, Flatten(chunks)))
    ensures |Returned(s, chunks)| == |chunks|
    decreases |chunks|
  {
    hide Step;
    if chunks != [] {
      var s1 := Final(Step, s, chunks[0]);
      ReturnedFlat(s1, chunks[1..]);
      RunConcat(Step, s, chunks[0], Flatten(chunks[1..]));
      EventsConcat(Emitted(Step, s, chunks[0]), Emitted(Step, s1, Flatten(chunks[1..])));
    }
  }

  /** Fragmentation round trip: whatever MTU the firmware cuts at, a client that is between frames
      gets exactly the frame that was notified, once. */
  lemma FragmentsReturnFrame(f: seq<byte>, mtu: nat)
    requires IsFrame(f)
    ensures Flatten(Returned(Sync, Notify.Fragments(f, Notify.Chunk(mtu)))) == [f]
    ensures Final(Step, Sync, Flatten(Notify.Fragments(f, Notify.Chunk(mtu)))) == Sync
  {
    hide Step, IsFrame;
    var fragments := Notify.Fragments(f, Notify.Chunk(mtu));
    Notify.FragmentsRebuild(f, Notify.Chunk(mtu));
    ReturnedFlat(Sync, fragments);
    FrameRun(f);
    EventsOne([Framed(f)]);
  }

  /** All fragments of many frames, in order; the MTU may change from one frame to the next. */
  function Notifications(fs: seq<seq<byte>>, mtus: seq<nat>): seq<seq<byte>>
    requires |fs| == |mtus|
  {
    if fs == [] then [] else Notify.Fragments(fs[0], Notify.Chunk(mtus[0])) + Notifications(fs[1..], mtus[1..])
  }

  lemma {:induction false} NotificationsFlat(fs: seq<seq<byte>>, mtus: seq<nat>)
    requires |fs| == |mtus|
    ensures Flatten(Notifications(fs, mtus)) == Flatten(fs)
  {
    hide Notify.Fragments;
    if fs != [] {
      NotificationsFlat(fs[1..], mtus[1..]);
      Notify.FragmentsRebuild(fs[0], Notify.Chunk(mtus[0]));
      FlattenConcat(Notify.Fragments(fs[0], Notify.Chunk(mtus[0])), Notifications(fs[1..], mtus[1..]));
    }
  }

  /** A whole session of replies and events: the client gets every frame, in order, exactly once. */
  lemma SessionReturned(fs: seq<seq<byte>>, mtus: seq<nat>)
    requires |fs| == |mtus| && forall f :: f in fs ==> IsFrame(f)
    ensures Flatten(Returned(Sync, Notifications(fs, mtus))) == fs
  {
    hide Step, IsFrame;
    NotificationsFlat(fs, mtus);
    ReturnedFlat(Sync, Notifications(fs, mtus));
    FramesRun(fs);
  }

  // ---- Client to firmware ----

  datatype Request = Raw(frame: seq<byte>) | ValueError

  function BuildFrame(cmd: byte, payload: seq<byte>): Request
  {
    if |payload| > 252 then ValueError
    else
      var body := [ToByte(|payload| + 1), cmd] + payload;
      Raw([SYNC] + body + [Crc8.Crc(body)])
  }

  /** A request is built iff the payload fits; the firmware's parser then reads it back. */
  lemma BuildFrameDecodes(cmd: byte, payload: seq<byte>)
    ensures BuildFrame(cmd, payload).Raw? <==> |payload| <= MAX_PAYLOAD
    ensures var r := BuildFrame(cmd, payload);
            r.Raw? ==> && Emitted(P.Step, P.Sync, r.frame) == [P.Complete(cmd, payload)]
                       && Final(P.Step, P.Sync, r.frame) == P.Sync
  {
    hide P.Step, Crc8.Crc;
    if |payload| <= MAX_PAYLOAD {
      Framing.BuildDecodes(cmd, payload);
      Framing.FrameJudged(Build(cmd, payload));
    }
  }
}
