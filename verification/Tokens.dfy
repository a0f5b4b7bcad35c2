/** The grammar the reassembler reads: every byte stream has exactly one reading as noise
    bytes, SYNC/bad-LEN pairs and whole frames, followed by an unfinished prefix. */
module Tokens {
  import opened Bytes
  import opened Machine
  import opened ApWire
  import opened ApReasm

  datatype Token = Noise(b: byte) | BadPair(len: byte) | Whole(frame: seq<byte>)

  function Text(t: Token): seq<byte>
  {
    match t
    case Noise(b) => [b]
    case BadPair(len) => [SYNC, len]
    case Whole(frame) => frame
  }

  predicate WellFormed(t: Token)
  {
    match t
    case Noise(b) => b != SYNC
    case BadPair(len) => !ValidLen(len)
    case Whole(frame) => IsFrame(frame)
  }

  function Texts(ts: seq<Token>): seq<byte>
  {
    if ts == [] then [] else Text(ts[0]) + Texts(ts[1..])
  }

  /** A proper prefix of a frame. */
  predicate Unfinished(rest: seq<byte>)
  {
    || rest == []
    || rest == [SYNC]
    || (|rest| >= 2 && rest[0] == SYNC && ValidLen(rest[1]) && |rest| < rest[1] as nat + 3)
  }

  /** `ts` followed by `rest` is a reading of `bs`. */
  ghost predicate Reading(bs: seq<byte>, ts: seq<Token>, rest: seq<byte>)
  {
    && bs == Texts(ts) + rest
    && (forall t :: t in ts ==> WellFormed(t))
    && Unfinished(rest)
  }

  /** Greedy reading from the left. */
  function Read(bs: seq<byte>): (r: (seq<Token>, seq<byte>))
    decreases |bs|
  {
    if Unfinished(bs) then ([], bs)
    else
      var t := First(bs);
      var (ts, rest) := Read(bs[|Text(t)|..]);
      ([t] + ts, rest)
  }

  function First(bs: seq<byte>): (t: Token)
    requires !Unfinished(bs)
    ensures WellFormed(t) && Text(t) <= bs && |Text(t)| > 0
  {
    if bs[0] != SYNC then Noise(bs[0])
    else if !ValidLen(bs[1]) then BadPair(bs[1])
    else
      LenRange(bs[1]);
      Whole(bs[..bs[1] as nat + 3])
  }

  lemma {:induction false} EveryStreamReads(bs: seq<byte>)
    ensures Reading(bs, Read(bs).0, Read(bs).1)
    decreases |bs|
  {
    hide First, WellFormed, Text, Unfinished;
    if !Unfinished(bs) {
      var t := First(bs);
      var tail := bs[|Text(t)|..];
      EveryStreamReads(tail);
      var (ts, rest) := Read(tail);
      assert ([t] + ts)[1..] == ts;
      assert bs == Text(t) + (Texts(ts) + rest);
    }
  }

  lemma FirstOf(t: Token, more: seq<byte>)
    requires WellFormed(t)
    ensures !Unfinished(Text(t) + more)
    ensures First(Text(t) + more) == t
  {
    var s := Text(t) + more;
    assert forall i :: 0 <= i < |Text(t)| ==> s[i] == Text(t)[i];
    if t.Whole? {
      LenRange(t.frame[1]);
      assert s[..|t.frame|] == t.frame;
    }
  }

  lemma {:induction false} ReadingUnique(bs: seq<byte>, ts: seq<Token>, rest: seq<byte>)
    requires Reading(bs, ts, rest)
    ensures Read(bs) == (ts, rest)
    decreases |ts|
  {
    if ts == [] {
      assert bs == rest;
    } else {
      hide First, WellFormed, Unfinished, Text;
      var more := Texts(ts[1..]) + rest;
      assert bs == Text(ts[0]) + more;
      FirstOf(ts[0], more);
      assert bs[|Text(ts[0])|..] == more;
      ReadingUnique(more, ts[1..], rest);
      assert ts == [ts[0]] + ts[1..];
    }
  }

  // ---- The reassembler implements the reading ----

  function EventOf(t: Token): seq<Event>
  {
    match t
    case Noise(_) => []
    case BadPair(len) => [BadLen(len)]
    case Whole(frame) => [Framed(frame)]
  }

  function EventsOf(ts: seq<Token>): seq<Event>
  {
    if ts == [] then [] else EventOf(ts[0]) + EventsOf(ts[1..])
  }

  function Pending(rest: seq<byte>): State
    requires Unfinished(rest)
  {
    if rest == [] then Sync else if |rest| == 1 then Len else Data(rest[1], rest[2..])
  }

  lemma TokenRun(t: Token)
    requires WellFormed(t)
    ensures Final(Step, Sync, Text(t)) == Sync
    ensures Emitted(Step, Sync, Text(t)) == EventOf(t)
  {
    match t
    case Noise(b) =>
      RunOne(Step, Sync, b);
    case BadPair(len) =>
      RunSnoc(Step, Sync, [SYNC], len);
      RunOne(Step, Sync, SYNC);
      assert [SYNC] + [len] == [SYNC, len];
    case Whole(frame) =>
      FrameRun(frame);
  }

  lemma {:induction false} PendingRun(rest: seq<byte>)
    requires Unfinished(rest)
    ensures Final(Step, Sync, rest) == Pending(rest)
    ensures Emitted(Step, Sync, rest) == []
    decreases |rest|
  {
    if rest != [] {
      var n := |rest| - 1;
      assert rest == rest[..n] + [rest[n]];
      PendingRun(rest[..n]);
      RunSnoc(Step, Sync, rest[..n], rest[n]);
      if n >= 2 {
        assert rest[2..] == rest[..n][2..] + [rest[n]];
      }
    }
  }

  /** From a frame boundary the reassembler emits exactly the frame tokens of the unique
      reading, counts exactly its bad pairs, and holds exactly its unfinished rest. */
  lemma {:induction false} ReassemblerReads(bs: seq<byte>, ts: seq<Token>, rest: seq<byte>)
    requires Reading(bs, ts, rest)
    ensures Emitted(Step, Sync, bs) == EventsOf(ts)
    ensures Final(Step, Sync, bs) == Pending(rest)
    decreases |ts|
  {
    if ts == [] {
      assert bs == rest;
      PendingRun(rest);
    } else {
      var more := Texts(ts[1..]) + rest;
      assert bs == Text(ts[0]) + more;
      TokenRun(ts[0]);
      RunConcat(Step, Sync, Text(ts[0]), more);
      ReassemblerReads(more, ts[1..], rest);
    }
  }

  function Wholes(ts: seq<Token>): seq<seq<byte>>
  {
    if ts == [] then [] else (if ts[0].Whole? then [ts[0].frame] else []) + Wholes(ts[1..])
  }

  function BadPairs(ts: seq<Token>): nat
  {
    if ts == [] then 0 else (if ts[0].BadPair? then 1 else 0) + BadPairs(ts[1..])
  }

  function NoiseBytes(ts: seq<Token>): nat
  {
    if ts == [] then 0 else (if ts[0].Noise? then 1 else 0) + NoiseBytes(ts[1..])
  }

  function TotalLength(fs: seq<seq<byte>>): nat
  {
    if fs == [] then 0 else |fs[0]| + TotalLength(fs[1..])
  }

  lemma {:induction false} TokenCounts(ts: seq<Token>)
    ensures Frames(EventsOf(ts)) == Wholes(ts) && BadLens(EventsOf(ts)) == BadPairs(ts)
    ensures |Texts(ts)| == NoiseBytes(ts) + 2 * BadPairs(ts) + TotalLength(Wholes(ts))
  {
    if ts != [] {
      TokenCounts(ts[1..]);
      EventsConcat(EventOf(ts[0]), EventsOf(ts[1..]));
      EventsOne(EventOf(ts[0]));
      if ts[0].Whole? {
        assert Wholes(ts) == [ts[0].frame] + Wholes(ts[1..]);
        assert Wholes(ts)[1..] == Wholes(ts[1..]);
      } else {
        assert Wholes(ts) == Wholes(ts[1..]);
      }
    }
  }

  /** Tokenisation: frames out are the frame tokens in order, `len_err` counts the bad pairs,
      and every input byte is accounted for by exactly one token or the rest. */
  lemma Tokenisation(bs: seq<byte>)
    ensures var (ts, rest) := Read(bs);
            && Reading(bs, ts, rest)
            && (forall us, r :: Reading(bs, us, r) ==> us == ts && r == rest)
            && Frames(Emitted(Step, Sync, bs)) == Wholes(ts)
            && BadLens(Emitted(Step, Sync, bs)) == BadPairs(ts)
            && Final(Step, Sync, bs) == Pending(rest)
            && |bs| == NoiseBytes(ts) + 2 * BadPairs(ts) + TotalLength(Wholes(ts)) + |rest|
  {
    hide Step, Read, Wholes, BadPairs, NoiseBytes, Pending;
    var (ts, rest) := Read(bs);
    EveryStreamReads(bs);
    forall us, r | Reading(bs, us, r)
      ensures us == ts && r == rest
    {
      ReadingUnique(bs, us, r);
    }
    ReassemblerReads(bs, ts, rest);
    TokenCounts(ts);
  }

  // ---- Self-stabilisation ----

  /** Bytes that still have to arrive before the reassembler is back at a frame boundary. */
  function Distance(s: State): nat
    requires Ok(s)
  {
    match s
    case Sync => 0
    case Len => 255
    case Data(len, got) =>
      LenRange(len);
      len as nat + 1 - |got|
  }

  lemma {:induction false} QuietBytesSettle(s: State, bs: seq<byte>)
    requires Ok(s) && SYNC !in bs
    ensures Ok(Final(Step, s, bs))
    ensures Distance(Final(Step, s, bs)) <= if |bs| <= Distance(s) then Distance(s) - |bs| else 0
    decreases |bs|
  {
    if bs != [] {
      LenRange(bs[0]);
      QuietBytesSettle(Step(s, bs[0]).0, bs[1..]);
    }
  }

  /** From any state, 255 bytes that are not SYNC bring the reassembler to a frame boundary,
      and the next frame is then delivered exactly. */
  lemma Stabilises(s: State, quiet: seq<byte>, f: seq<byte>)
    requires Ok(s) && SYNC !in quiet && |quiet| >= 255 && IsFrame(f)
    ensures Final(Step, s, quiet + f) == Sync
    ensures Emitted(Step, s, quiet + f) == Emitted(Step, s, quiet) + [Framed(f)]
  {
    QuietBytesSettle(s, quiet);
    if s.Data? {
      LenRange(s.len);
    }
    RunConcat(Step, s, quiet, f);
    FrameRun(f);
  }

  /** The bound is exact: after SYNC, 254 quiet bytes can leave it one byte short. */
  lemma StabilisationBoundExact(quiet: seq<byte>)
    requires |quiet| == 254 && quiet[0] == 253 && SYNC !in quiet
    ensures Final(Step, Len, quiet) != Sync
  {
    var f := [SYNC] + quiet + [0];
    assert IsFrame(f);
    FramePrefix(f, 255);
    assert f[..255] == [SYNC] + quiet;
    RunConcat(Step, Sync, [SYNC], quiet);
    RunOne(Step, Sync, SYNC);
  }
}
