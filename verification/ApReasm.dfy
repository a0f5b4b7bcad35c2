/** The length-only AP reassembler of `ap_reasm.c`: it frames by LEN and checks no CRC. */
module ApReasm {
  import opened Bytes
  import opened Machine
  import opened ApWire

  /** `Data` holds LEN and the CMD, PAYLOAD and CRC bytes collected so far. */
  datatype State = Sync | Len | Data(len: byte, got: seq<byte>)

  datatype Event = Framed(frame: seq<byte>) | BadLen(len: byte)

  function Step(s: State, b: byte): (State, seq<Event>)
  {
    match s
    case Sync => (if b == SYNC then Len else Sync, [])
    case Len => if ValidLen(b) then (Data(b, []), []) else (Sync, [BadLen(b)])
    case Data(len, got) =>
      if |got| == len as nat then (Sync, [Framed([SYNC, len] + got + [b])]) else (Data(len, got + [b]), [])
  }

  /** States the machine can be in: LEN in range and at least one byte still to come. */
  predicate Ok(s: State)
  {
    s.Data? ==> ValidLen(s.len) && |s.got| <= s.len as nat
  }

  /** The whole frames among the events, in order. */
  function Frames(es: seq<Event>): seq<seq<byte>>
  {
    if es == [] then []
    else (if es[0].Framed? then [es[0].frame] else []) + Frames(es[1..])
  }

  function BadLens(es: seq<Event>): nat
  {
    if es == [] then 0 else (if es[0].BadLen? then 1 else 0) + BadLens(es[1..])
  }

  lemma {:induction false} EventsConcat(es: seq<Event>, fs: seq<Event>)
    ensures Frames(es + fs) == Frames(es) + Frames(fs)
    ensures BadLens(es + fs) == BadLens(es) + BadLens(fs)
  {
    if es == [] {
      assert es + fs == fs;
    } else {
      var head := if es[0].Framed? then [es[0].frame] else [];
      EventsConcat(es[1..], fs);
      assert (es + fs)[0] == es[0] && (es + fs)[1..] == es[1..] + fs;
      assert head + (Frames(es[1..]) + Frames(fs)) == (head + Frames(es[1..])) + Frames(fs);
    }
  }

  // ---- The C object ----

  datatype Mode = SYNC_MODE | LEN_MODE | DATA_MODE

  class Reassembler {
    var mode: Mode
    var need: nat
    var idx: nat
    const frame: array<byte>
    var frames: nat
    var lenErr: nat

    ghost predicate Valid()
      reads this, frame
    {
      && frame.Length == MAX_PACKET
      && (mode == DATA_MODE ==>
            && frame[0] == SYNC && ValidLen(frame[1])
            && 2 <= idx < idx + need == frame[1] as nat + 3)
      && (mode == LEN_MODE ==> frame[0] == SYNC)
    }

    ghost function Abs(): State
      reads this, frame
      requires Valid()
      ensures Ok(Abs())
    {
      LenRange(frame[1]);
      match mode
      case SYNC_MODE => Sync
      case LEN_MODE => Len
      case DATA_MODE => Data(frame[1], frame[2..idx])
    }

    constructor ()
      ensures Valid() && fresh(frame) && Abs() == Sync && frames == lenErr == 0
    {
      mode, need, idx := SYNC_MODE, 0, 0;
      frame := new byte[MAX_PACKET];
      frames, lenErr := 0, 0;
    }

    method Init()
      requires Valid()
      modifies this
      ensures Valid() && Abs() == Sync && frames == lenErr == 0
    {
      mode, need, idx := SYNC_MODE, 0, 0;
      frames, lenErr := 0, 0;
    }

    /** One turn of the loop body; `done` stands for the frame callback, which is given
        the first `idx` bytes of the buffer. */
    method FeedByte(b: byte) returns (done: bool)
      requires Valid()
      modifies this, frame
      ensures Valid()
      ensures Abs() == Step(old(Abs()), b).0
      ensures done ==> idx <= frame.Length && Step(old(Abs()), b).1 == [Framed(frame[..idx])]
      ensures frames == old(frames) + if done then 1 else 0
      ensures !done ==> Step(old(Abs()), b).1 == if lenErr > old(lenErr) then [BadLen(b)] else []
      ensures lenErr == old(lenErr) || (lenErr == old(lenErr) + 1 && !done)
    {
      done := false;
      match mode {
        case SYNC_MODE =>
          if b == SYNC {
            frame[0] := b;
            idx := 1;
            mode := LEN_MODE;
          }
        case LEN_MODE =>
          LenRange(b);
          if !ValidLen(b) {
            lenErr := lenErr + 1;
            mode := SYNC_MODE;
          } else {
            frame[1] := b;
            idx := 2;
            need := b as nat + 1;
            mode := DATA_MODE;
          }
        case DATA_MODE =>
          done := TakeData(b);
      }
    }

    /** A byte after LEN; `done` when it is the last one due. */
    method TakeData(b: byte) returns (done: bool)
      requires Valid() && mode == DATA_MODE
      modifies this`mode, this`idx, this`need, this`frames, frame
      ensures Valid() && Abs() == Step(old(Abs()), b).0
      ensures done ==> idx <= frame.Length
      ensures Step(old(Abs()), b).1 == if done then [Framed(frame[..idx])] else []
      ensures frames == old(frames) + if done then 1 else 0
    {
      hide Step;
      LenRange(frame[1]);
      ghost var len, got := frame[1], frame[2..idx];
      frame[idx] := b;
      idx := idx + 1;
      need := need - 1;
      done := need == 0;
      FrameSplit(frame[..idx], len, got, b);
      DataStep(len, got, b, frame[..idx]);
      if done {
        frames := frames + 1;
        mode := SYNC_MODE;
      }
    }

    /** `out` collects what the frame callback is given, one copy a call. */
    method Feed(data: seq<byte>) returns (out: seq<seq<byte>>)
      requires Valid()
      modifies this, frame
      ensures Valid()
      ensures Abs() == Final(Step, old(Abs()), data)
      ensures out == Frames(Emitted(Step, old(Abs()), data))
      ensures frames == old(frames) + |out|
      ensures lenErr == old(lenErr) + BadLens(Emitted(Step, old(Abs()), data))
    {
      out := [];
      ghost var start := Abs();
      for i := 0 to |data|
        invariant Valid()
        invariant Abs() == Final(Step, start, data[..i])
        invariant out == Frames(Emitted(Step, start, data[..i]))
        invariant frames == old(frames) + |out|
        invariant lenErr == old(lenErr) + BadLens(Emitted(Step, start, data[..i]))
      {
        hide Step;
        ghost var events := Step(Abs(), data[i]).1;
        assert data[..i + 1] == data[..i] + [data[i]];
        RunSnoc(Step, start, data[..i], data[i]);
        EventsConcat(Emitted(Step, start, data[..i]), events);
        var done := FeedByte(data[i]);
        EventsOne(events);
        if done {
          out := out + [frame[..idx]];
        }
      }
      assert data[..|data|] == data;
    }
  }

  lemma DataStep(len: byte, got: seq<byte>, b: byte, f: seq<byte>)
    requires f == [SYNC, len] + got + [b]
    ensures Step(Data(len, got), b) == if |got| == len as nat then (Sync, [Framed(f)]) else (Data(len, f[2..]), [])
  {
    assert f[2..] == got + [b];
  }

  lemma FrameSplit(f: seq<byte>, len: byte, got: seq<byte>, b: byte)
    requires |f| >= 3 && f[0] == SYNC && f[1] == len && f[2..|f| - 1] == got && f[|f| - 1] == b
    ensures f == [SYNC, len] + got + [b] && f[2..] == got + [b]
  {
  }

  lemma EventsOne(es: seq<Event>)
    requires |es| <= 1
    ensures Frames(es) == if es == [] || es[0].BadLen? then [] else [es[0].frame]
    ensures BadLens(es) == if es == [] || es[0].Framed? then 0 else 1
  {
  }

  // ---- Whole frames ----

  lemma {:induction false} FramePrefix(f: seq<byte>, k: nat)
    requires IsFrame(f) && 2 <= k < |f|
    ensures Final(Step, Sync, f[..k]) == Data(f[1], f[2..k])
    ensures Emitted(Step, Sync, f[..k]) == []
    decreases k
  {
    assert f[..k] == f[..k - 1] + [f[k - 1]];
    RunSnoc(Step, Sync, f[..k - 1], f[k - 1]);
    if k == 2 {
      assert f[..1] == [SYNC];
      RunOne(Step, Sync, f[0]);
    } else {
      FramePrefix(f, k - 1);
      assert f[2..k] == f[2..k - 1] + [f[k - 1]];
    }
  }

  lemma LastStep(f: seq<byte>)
    requires IsFrame(f)
    ensures Step(Data(f[1], f[2..|f| - 1]), f[|f| - 1]) == (Sync, [Framed(f)])
  {
    var n := |f| - 1;
    assert [SYNC, f[1]] + f[2..n] + [f[n]] == f;
  }

  /** A frame met at a frame boundary is handed on verbatim, whatever SYNC bytes it holds. */
  lemma FrameRun(f: seq<byte>)
    requires IsFrame(f)
    ensures Final(Step, Sync, f) == Sync
    ensures Emitted(Step, Sync, f) == [Framed(f)]
  {
    var n := |f| - 1;
    assert n >= 3;
    hide Step, IsFrame;
    FramePrefix(f, n);
    assert f == f[..n] + [f[n]];
    RunSnoc(Step, Sync, f[..n], f[n]);
    LastStep(f);
  }

  lemma {:induction false} FramesRun(fs: seq<seq<byte>>)
    requires forall f :: f in fs ==> IsFrame(f)
    ensures Final(Step, Sync, Flatten(fs)) == Sync
    ensures Frames(Emitted(Step, Sync, Flatten(fs))) == fs
  {
    if fs != [] {
      FrameRun(fs[0]);
      RunConcat(Step, Sync, fs[0], Flatten(fs[1..]));
      FramesRun(fs[1..]);
      EventsConcat([Framed(fs[0])], Emitted(Step, Sync, Flatten(fs[1..])));
    }
  }

  /** Everything handed on is a whole frame. */
  lemma {:induction false} OnlyFrames(s: State, bs: seq<byte>)
    requires Ok(s)
    ensures Ok(Final(Step, s, bs))
    ensures forall e :: e in Emitted(Step, s, bs) ==> if e.Framed? then IsFrame(e.frame) else !ValidLen(e.len)
    decreases |bs|
  {
    if bs != [] {
      LenRange(bs[0]);
      OnlyFrames(Step(s, bs[0]).0, bs[1..]);
    }
  }

  lemma {:induction false} FramesMembers(es: seq<Event>)
    ensures forall f :: f in Frames(es) ==> Framed(f) in es
  {
    if es != [] {
      FramesMembers(es[1..]);
    }
  }

  lemma FramesAreFrames(s: State, bs: seq<byte>)
    requires Ok(s)
    ensures forall f :: f in Frames(Emitted(Step, s, bs)) ==> IsFrame(f)
  {
    OnlyFrames(s, bs);
    FramesMembers(Emitted(Step, s, bs));
  }
}
