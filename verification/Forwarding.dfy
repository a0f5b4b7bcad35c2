/** Which event made the bridge forward which frame, and what the AP parser's verdicts therefore say
    about the senders. */
module Forwarding {
  import opened Bytes
  import opened Machine
  import opened ApWire
  import opened SessionPolicy
  import opened SessionProperties
  import P = ApCodec
  import Framing

  /** The frames among the actions that go to the link. */
  function Forwarded(acts: seq<Action>): seq<seq<byte>>
  {
    if acts == [] then [] else (if acts[0].Forward? then [acts[0].frame] else []) + Forwarded(acts[1..])
  }

  lemma {:induction false} ForwardedConcat(xs: seq<Action>, ys: seq<Action>)
    ensures Forwarded(xs + ys) == Forwarded(xs) + Forwarded(ys)
  {
    if xs == [] {
      assert xs + ys == ys;
    } else {
      var head := if xs[0].Forward? then [xs[0].frame] else [];
      ForwardedConcat(xs[1..], ys);
      assert (xs + ys)[0] == xs[0] && (xs + ys)[1..] == xs[1..] + ys;
      assert head + (Forwarded(xs[1..]) + Forwarded(ys)) == (head + Forwarded(xs[1..])) + Forwarded(ys);
    }
  }

  lemma ForwardedUnit(a: Action)
    ensures Forwarded([a]) == if a.Forward? then [a.frame] else []
  {
    assert [a][1..] == [];
  }

  lemma ForwardsAtMostOne(s: Session, e: Event)
    ensures |Forwarded(Step(s, e).1)| <= 1
  {
    hide Build, Join;
    var acts := Step(s, e).1;
    if acts != [] {
      assert acts[1..] == [];
    }
  }

  /** The events below `k` that made the bridge forward a frame, in order. */
  function Senders(es: seq<Event>, k: nat): seq<nat>
    requires k <= |es|
  {
    if k == 0 then [] else Senders(es, k - 1) + (if Forwarded(Acts(es, k - 1)) == [] then [] else [k - 1])
  }

  ghost predicate Increasing(ks: seq<nat>)
  {
    forall i, j :: 0 <= i < j < |ks| ==> ks[i] < ks[j]
  }

  /** The frames forwarded over the first `k` events. */
  function ForwardedBy(es: seq<Event>, k: nat): seq<seq<byte>>
    requires k <= |es|
  {
    Forwarded(Emitted(Step, INIT, es[..k]))
  }

  lemma ForwardedNext(es: seq<Event>, k: nat)
    requires k < |es|
    ensures ForwardedBy(es, k + 1) == ForwardedBy(es, k) + Forwarded(Acts(es, k))
  {
    hide Step, Forwarded;
    assert es[..k + 1] == es[..k] + [es[k]];
    RunSnoc(Step, INIT, es[..k], es[k]);
    ForwardedConcat(Emitted(Step, INIT, es[..k]), Acts(es, k));
  }

  /** The `m`th forwarded frame is what the `m`th of these events forwarded, each once. */
  lemma {:induction false} SendersExact(es: seq<Event>, k: nat)
    requires k <= |es|
    ensures |Senders(es, k)| == |ForwardedBy(es, k)| && Increasing(Senders(es, k))
    ensures forall m :: 0 <= m < |Senders(es, k)| ==>
              Senders(es, k)[m] < k && Forwarded(Acts(es, Senders(es, k)[m])) == [ForwardedBy(es, k)[m]]
  {
    hide Step, Forwarded, Acts;
    if k == 0 {
      NothingForwarded(es);
    } else {
      SendersExact(es, k - 1);
      ForwardedNext(es, k - 1);
      hide ForwardedBy;
      assert |Forwarded(Acts(es, k - 1))| <= 1 by { ActsForwardOne(es, k - 1); }
    }
  }

  lemma ActsForwardOne(es: seq<Event>, k: nat)
    requires k < |es|
    ensures |Forwarded(Acts(es, k))| <= 1
  {
    hide Step;
    ForwardsAtMostOne(At(es, k), es[k]);
  }

  lemma NothingForwarded(es: seq<Event>)
    ensures ForwardedBy(es, 0) == []
  {
    assert es[..0] == [];
  }

  /** `v` is the AP parser's verdict on the frame event `k` made the bridge forward; and if it is a
      packet whose command needs a claim, that event is the arrival of exactly this packet from the
      connection that held control then. */
  ghost predicate Attributed(es: seq<Event>, k: nat, v: P.Verdict)
  {
    && k < |es|
    && |Forwarded(Acts(es, k))| == 1
    && IsFrame(Forwarded(Acts(es, k))[0])
    && v == Framing.Decode(Forwarded(Acts(es, k))[0])
    && (v.Complete? && RequiresClaim(v.cmd) ==>
          && |v.payload| <= MAX_PAYLOAD
          && es[k].FrameFrom? && es[k].frame == Build(v.cmd, v.payload)
          && HoldsControl(es, k, es[k].conn))
  }

  lemma ForwardAttributed(es: seq<Event>, k: nat, f: seq<byte>)
    requires Proper(es) && WholeFrames(es) && k < |es| && Forwarded(Acts(es, k)) == [f]
    ensures IsFrame(f) && Attributed(es, k, Framing.Decode(f))
  {
    hide HoldsControl, IsFrame, Acts, Framing.Decode, Build, RequiresClaim;
    assert ProperEvent(es[k]);
    match es[k] {
      case FrameFrom(conn, frame) =>
        GateIsHistory(es, k);
        ForwardedUnit(Forward(conn, frame));
        ForwardedUnit(Notify(conn, Rejection()));
        assert f == frame;
        var v := Framing.Decode(f);
        if v.Complete? {
          Framing.DecodesIffBuilt(f, v.cmd, v.payload);
          BuildIsFrame(v.cmd, v.payload);
        }
      case Dropped(conn) =>
        DropIsHistory(es, k);
        ForwardedUnit(Forward(conn, ReleasePacket()));
        assert f == ReleasePacket();
        ReleaseNeedsNoClaim();
        assert !RequiresClaim(CMD_RELEASE) by { ReleaseIsFree(); }
      case FromLink(payload, _) =>
        LinkForwardsNothing(es, k);
        assert false;
    }
  }

  lemma ReleaseIsFree()
    ensures !RequiresClaim(CMD_RELEASE)
  {
  }

  lemma LinkForwardsNothing(es: seq<Event>, k: nat)
    requires k < |es| && es[k].FromLink?
    ensures Forwarded(Acts(es, k)) == []
  {
    hide Join;
  }

  /** The elements of `xs` at the places `picks`. */
  function Select<T>(xs: seq<T>, picks: seq<nat>): (r: seq<T>)
    requires forall p :: 0 <= p < |picks| ==> picks[p] < |xs|
    ensures |r| == |picks| && forall p :: 0 <= p < |picks| ==> r[p] == xs[picks[p]]
  {
    seq(|picks|, p requires 0 <= p < |picks| => xs[picks[p]])
  }

  /** Gate soundness: let the AP parser read any choice of forwarded frames. Its verdicts are those on
      the frames chosen, one each; each is traced to the event that forwarded that frame, later picks
      to later events; and a packet whose command needs a claim arrived, as it is, in that very event
      from the connection then in control. */
  lemma GateSound(es: seq<Event>, picks: seq<nat>) returns (ks: seq<nat>)
    requires Proper(es) && WholeFrames(es)
    requires forall p :: 0 <= p < |picks| ==> picks[p] < |ForwardedBy(es, |es|)|
    ensures var vs := Emitted(P.Step, P.Sync, Flatten(Select(ForwardedBy(es, |es|), picks)));
            |vs| == |picks| == |ks| && forall p :: 0 <= p < |ks| ==> Attributed(es, ks[p], vs[p])
    ensures forall p, q :: 0 <= p < |ks| && 0 <= q < |ks| ==> (picks[p] < picks[q] ==> ks[p] < ks[q])
  {
    hide P.Step, IsFrame, ForwardedBy, Forwarded, Acts, Attributed, Framing.Decode, Proper, WholeFrames;
    SendersExact(es, |es|);
    var fs := Select(ForwardedBy(es, |es|), picks);
    ks := Select(Senders(es, |es|), picks);
    forall p | 0 <= p < |ks|
      ensures IsFrame(fs[p]) && Attributed(es, ks[p], Framing.Decode(fs[p]))
    {
      ForwardAttributed(es, ks[p], fs[p]);
    }
    Framing.FramesJudged(fs);
    DecodesAt(fs);
  }

  lemma {:induction false} DecodesAt(fs: seq<seq<byte>>)
    requires forall f :: f in fs ==> IsFrame(f)
    ensures |Framing.Decodes(fs)| == |fs|
    ensures forall p :: 0 <= p < |fs| ==> IsFrame(fs[p]) && Framing.Decodes(fs)[p] == Framing.Decode(fs[p])
  {
    hide Framing.Decode, IsFrame;
    if fs != [] {
      DecodesAt(fs[1..]);
    }
  }
}
