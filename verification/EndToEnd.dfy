/** From a BLE write to the decoded packet on the far side of the UART, and back: the bridge, the
    transmit queue, the link parser, the AP parser and the client composed. */
module EndToEnd {
  import opened Bytes
  import opened Machine
  import opened SessionPolicy
  import opened SlotTable
  import opened Bridge
  import opened BridgeRuns
  import opened Forwarding
  import SessionProperties
  import ApWire
  import R = ApReasm
  import P = ApCodec
  import Framing
  import L = LinkFrame
  import LinkProperties
  import LinkProgress
  import T = LinkTx
  import Client

  // ---- What the far side of the UART reads on AP_CTRL ----

  /** Payloads of the AP_CTRL frames, in order. */
  function ApPayloads(fs: seq<L.Frame>): seq<seq<byte>>
  {
    if fs == [] then []
    else
      var n := |fs| - 1;
      ApPayloads(fs[..n]) + (if fs[n].channel == L.CH_AP_CTRL then [fs[n].payload] else [])
  }

  /** Everything the receiving link parser delivers on AP_CTRL from the byte chunks it is fed. */
  function Received(chunks: seq<seq<byte>>): seq<seq<byte>>
  {
    ApPayloads(L.Deliveries(EmittedByChunks(L.Step, L.Sync, chunks)))
  }

  /** The verdicts of the AP parser that is fed what the link parser delivers. */
  function Verdicts(chunks: seq<seq<byte>>): seq<P.Verdict>
  {
    Emitted(P.Step, P.Sync, Flatten(Received(chunks)))
  }

  lemma ReceivedIsWire(chunks: seq<seq<byte>>, les: seq<T.Input>)
    requires T.Carries(chunks, les)
    ensures Received(chunks) == ApPayloads(T.WireFrames(les))
  {
    T.WireDelivered(les, chunks);
  }

  predicate ApSend(e: T.Input)
  {
    e.Send? && e.channel == L.CH_AP_CTRL
  }

  lemma PayloadsSnoc(fs: seq<L.Frame>, f: L.Frame)
    ensures ApPayloads(fs + [f]) == ApPayloads(fs) + if f.channel == L.CH_AP_CTRL then [f.payload] else []
  {
    assert (fs + [f])[..|fs|] == fs;
  }

  /** The AP_CTRL payloads handed to the link by the first `k` inputs. */
  function ApSent(les: seq<T.Input>, k: nat): seq<seq<byte>>
    requires k <= |les|
  {
    if k == 0 then [] else ApSent(les, k - 1) + (if ApSend(les[k - 1]) then [T.BytesOf(les[k - 1].payload)] else [])
  }

  /** Among the first `k` inputs, the AP_CTRL sends that reach the wire, each by its number among all
      AP_CTRL sends. */
  function Reached(les: seq<T.Input>, k: nat): seq<nat>
    requires k <= |les|
  {
    if k == 0 then []
    else Reached(les, k - 1) + (if ApSend(les[k - 1]) && T.Transmitted(les, k - 1) then [|ApSent(les, k - 1)|] else [])
  }

  lemma {:induction false} ReachedInOrder(les: seq<T.Input>, k: nat)
    requires k <= |les|
    ensures Increasing(Reached(les, k))
    ensures forall p :: 0 <= p < |Reached(les, k)| ==> Reached(les, k)[p] < |ApSent(les, k)|
  {
    hide T.Transmitted, T.BytesOf;
    if k > 0 {
      ReachedInOrder(les, k - 1);
    }
  }

  /** The first `n` of the frames, or all of them. */
  function AtMost(fs: seq<L.Frame>, n: nat): seq<L.Frame>
  {
    if |fs| <= n then fs else fs[..n]
  }

  lemma {:induction false} ReachedPayloads(les: seq<T.Input>, k: nat)
    requires k <= |les|
    ensures forall p :: 0 <= p < |Reached(les, k)| ==> Reached(les, k)[p] < |ApSent(les, k)|
    ensures ApPayloads(AtMost(T.AcceptedBy(les, k), |T.WireFrames(les)|)) == Select(ApSent(les, k), Reached(les, k))
  {
    hide T.SeqByte, T.BytesOf, T.WireFrames, ApPayloads;
    ReachedInOrder(les, k);
    if k == 0 {
      assert ApPayloads([]) == [] by { NoPayloads(); }
    } else {
      ReachedPayloads(les, k - 1);
      var fs, w, picks := T.AcceptedBy(les, k - 1), |T.WireFrames(les)|, Reached(les, k - 1);
      SelectKept(ApSent(les, k - 1), ApSent(les, k), picks);
      assert picks + [] == picks && fs + [] == fs;
      if T.Queues(les, k - 1) {
        var f := T.FrameOf(les, k - 1);
        if |fs| < w {
          PayloadsSnoc(fs, f);
          assert T.Transmitted(les, k - 1);
          if ApSend(les[k - 1]) {
            assert ApSent(les, k)[|ApSent(les, k - 1)|] == f.payload;
            SelectSnoc(ApSent(les, k), picks, |ApSent(les, k - 1)|);
          } else {
            assert ApPayloads(fs) + [] == ApPayloads(fs);
          }
        } else {
          assert AtMost(fs + [f], w) == AtMost(fs, w);
        }
      }
    }
  }

  lemma SelectKept<X>(xs: seq<X>, ys: seq<X>, picks: seq<nat>)
    requires xs <= ys && forall p :: 0 <= p < |picks| ==> picks[p] < |xs|
    ensures Select(ys, picks) == Select(xs, picks)
  {
  }

  lemma SelectSnoc<X>(xs: seq<X>, picks: seq<nat>, m: nat)
    requires m < |xs| && forall p :: 0 <= p < |picks| ==> picks[p] < |xs|
    ensures Select(xs, picks + [m]) == Select(xs, picks) + [xs[m]]
  {
  }

  lemma NoPayloads()
    ensures ApPayloads([]) == []
  {
  }

  /** Whatever is lost to full queues, failed allocations or a late transmit task, the far side
      receives exactly the AP_CTRL sends that reached the wire, in order. */
  lemma ReceivedIsReached(les: seq<T.Input>, chunks: seq<seq<byte>>)
    requires T.Carries(chunks, les)
    ensures Increasing(Reached(les, |les|))
    ensures forall p :: 0 <= p < |Reached(les, |les|)| ==> Reached(les, |les|)[p] < |ApSent(les, |les|)|
    ensures Received(chunks) == Select(ApSent(les, |les|), Reached(les, |les|))
  {
    hide T.WireFrames, T.AcceptedBy, T.Carries, ApPayloads, Received, ApSent, Reached;
    ReachedInOrder(les, |les|);
    ReceivedIsWire(chunks, les);
    ReachedPayloads(les, |les|);
    T.WireIsPrefix(les);
    assert AtMost(T.AcceptedBy(les, |les|), |T.WireFrames(les)|) == T.WireFrames(les);
  }

  lemma {:induction false} AllReached(les: seq<T.Input>, k: nat)
    requires k <= |les|
    requires forall j :: 0 <= j < |les| && ApSend(les[j]) ==> T.Transmitted(les, j)
    ensures |Reached(les, k)| == |ApSent(les, k)|
    ensures forall p :: 0 <= p < |Reached(les, k)| ==> Reached(les, k)[p] == p
  {
    hide T.Transmitted, T.BytesOf;
    if k > 0 {
      AllReached(les, k - 1);
    }
  }

  /** When every AP_CTRL send has reached the wire the far side has received them all, in order;
      traffic on other channels and its losses do not show. */
  lemma ReceivedIsSent(les: seq<T.Input>, chunks: seq<seq<byte>>)
    requires T.Carries(chunks, les)
    requires forall j :: 0 <= j < |les| && ApSend(les[j]) ==> T.Transmitted(les, j)
    ensures Received(chunks) == ApSent(les, |les|)
  {
    hide T.Transmitted, T.Carries, Received, ApSent, Reached;
    AllReached(les, |les|);
    ReceivedIsReached(les, chunks);
  }

  // ---- Delivery of one packet, whatever the cuts ----

  function Writes(h: Handle, chunks: seq<seq<byte>>): seq<Input>
  {
    if chunks == [] then [] else [Write(h, chunks[0])] + Writes(h, chunks[1..])
  }

  lemma EmptyWrite(s: State, h: Handle)
    ensures Bridge.Step(s, Write(h, [])) == (s, [])
  {
    hide R.Step, Find;
    var i := Find(s.slots, h);
    if i < |s.slots| {
      assert s.slots[i := s.slots[i].(body := s.slots[i].body)] == s.slots;
    }
  }

  /** Any split of a stream into writes acts as one write of the whole. */
  lemma {:induction false} WritesAsOne(s: State, h: Handle, chunks: seq<seq<byte>>)
    ensures Final(Bridge.Step, s, Writes(h, chunks)) == Bridge.Step(s, Write(h, Flatten(chunks))).0
    ensures Emitted(Bridge.Step, s, Writes(h, chunks)) == Bridge.Step(s, Write(h, Flatten(chunks))).1
    decreases |chunks|
  {
    hide Bridge.Step;
    if chunks == [] {
      EmptyWrite(s, h);
    } else {
      var s1 := Bridge.Step(s, Write(h, chunks[0])).0;
      WritesAsOne(s1, h, chunks[1..]);
      WriteChunking(s, h, chunks[0], Flatten(chunks[1..]));
      TwoSteps(s, Write(h, chunks[0]), Write(h, Flatten(chunks[1..])));
    }
  }

  /** The policy lets `h` send `cmd`. */
  predicate Allowed(sess: Session, h: Handle, cmd: byte)
  {
    h == sess.controller || !ApWire.RequiresClaim(cmd)
  }

  /** Connection `h` is tracked and between frames. */
  predicate AtBoundary(s: State, h: Handle)
  {
    var i := Find(s.slots, h);
    i < |s.slots| && s.slots[i].body == R.Sync
  }

  lemma WholeWrite(s: State, h: Handle, f: seq<byte>)
    requires AtBoundary(s, h) && ApWire.IsFrame(f)
    ensures SessionEvents(s, Write(h, f)) == [FrameFrom(h, f)]
    ensures AtBoundary(Bridge.Step(s, Write(h, f)).0, h)
  {
    hide R.Step, SessionPolicy.Step, ApWire.IsFrame;
    R.FrameRun(f);
    R.EventsOne([R.Framed(f)]);
    assert FramesFrom(h, [f]) == [FrameFrom(h, f)];
    assert Coupled(s.slots, Fed(s.slots, h, f));
    CoupledSearch(s.slots, Fed(s.slots, h, f), h);
  }

  /** A packet an allowed connection writes in any split is forwarded once, verbatim, and nothing
      else happens. */
  lemma PacketForwarded(s: State, h: Handle, writes: seq<seq<byte>>, cmd: byte, payload: seq<byte>)
    requires AtBoundary(s, h) && Allowed(s.sess, h, cmd)
    requires |payload| <= ApWire.MAX_PAYLOAD && Flatten(writes) == ApWire.Build(cmd, payload)
    ensures Emitted(Bridge.Step, s, Writes(h, writes)) == [Forward(h, ApWire.Build(cmd, payload))]
    ensures AtBoundary(Final(Bridge.Step, s, Writes(h, writes)), h)
  {
    hide ApWire.Build, ApWire.IsFrame, ApWire.RequiresClaim, AtBoundary;
    var f := ApWire.Build(cmd, payload);
    ApWire.BuildIsFrame(cmd, payload);
    WritesAsOne(s, h, writes);
    WholeWrite(s, h, f);
    RunOne(SessionPolicy.Step, s.sess, FrameFrom(h, f));
    ClaimNeedsNone();
  }

  /** Any packet, by its command code: written in any split at a frame boundary it is either forwarded
      once, verbatim, or answered by one NOT_CONTROLLER error to its sender, the latter exactly for the
      power, LED, effect and settings-write commands of a connection not in control. */
  lemma PacketAnswered(s: State, h: Handle, writes: seq<seq<byte>>, cmd: byte, payload: seq<byte>)
    requires AtBoundary(s, h)
    requires |payload| <= ApWire.MAX_PAYLOAD && Flatten(writes) == ApWire.Build(cmd, payload)
    ensures Emitted(Bridge.Step, s, Writes(h, writes))
         == if cmd in {0x10, 0x11, 0x20, 0x21, 0x22, 0x23, 0x30, 0x52} && h != s.sess.controller
            then [Notify(h, Rejection())] else [Forward(h, ApWire.Build(cmd, payload))]
    ensures AtBoundary(Final(Bridge.Step, s, Writes(h, writes)), h)
  {
    hide ApWire.Build, ApWire.IsFrame, AtBoundary;
    var f := ApWire.Build(cmd, payload);
    ApWire.BuildIsFrame(cmd, payload);
    WritesAsOne(s, h, writes);
    WholeWrite(s, h, f);
    RunOne(SessionPolicy.Step, s.sess, FrameFrom(h, f));
  }

  lemma ClaimNeedsNone()
    ensures !ApWire.RequiresClaim(ApWire.CMD_CLAIM)
  {
  }

  /** One write can carry a RELEASE and more: what follows it is judged without the control that
      the RELEASE gave up. */
  lemma ReleaseThenRejected(s: State, h: Handle, cmd: byte, payload: seq<byte>)
    requires AtBoundary(s, h) && h == s.sess.controller && h != CONN_NONE
    requires |payload| <= ApWire.MAX_PAYLOAD && ApWire.RequiresClaim(cmd)
    ensures var t := Bridge.Step(s, Write(h, ReleasePacket() + ApWire.Build(cmd, payload)));
            && t.1 == [Forward(h, ReleasePacket()), Notify(h, Rejection())]
            && t.0.sess == Unbound(s.sess)
  {
    hide ApWire.Build, ApWire.IsFrame, AtBoundary, ReleasePacket, Rejection, Find;
    ApWire.BuildIsFrame(cmd, payload);
    SessionProperties.ReleaseNeedsNoClaim();
    ClaimNeedsNone();
    var s1 := Bridge.Step(s, Write(h, ReleasePacket())).0;
    WriteChunking(s, h, ReleasePacket(), ApWire.Build(cmd, payload));
    TwoSteps(s, Write(h, ReleasePacket()), Write(h, ApWire.Build(cmd, payload)));
    WholeWrite(s, h, ReleasePacket());
    WholeWrite(s1, h, ApWire.Build(cmd, payload));
    ReleaseIsRelease();
    RunOne(SessionPolicy.Step, s.sess, FrameFrom(h, ReleasePacket()));
    RunOne(SessionPolicy.Step, s1.sess, FrameFrom(h, ApWire.Build(cmd, payload)));
  }

  lemma ReleaseIsRelease()
    ensures CmdOf(ReleasePacket()) == ApWire.CMD_RELEASE
  {
    ApWire.BuildIsFrame(ApWire.CMD_RELEASE, []);
  }

  // ---- The whole uplink, with any losses ----

  /** What has been sent on AP_CTRL is what the bridge has forwarded, up to a frame it is just about
      to send; other channels are free. The bridge sends as it forwards, so this holds at every moment. */
  ghost predicate SendsForwards(n: nat, es: seq<Input>, les: seq<T.Input>)
  {
    ApSent(les, |les|) <= ForwardedOver(n, es)
  }

  lemma ReceivedIsForwarded(n: nat, es: seq<Input>, les: seq<T.Input>, chunks: seq<seq<byte>>)
    requires SendsForwards(n, es, les) && T.Carries(chunks, les)
    ensures Increasing(Reached(les, |les|))
    ensures forall p :: 0 <= p < |Reached(les, |les|)| ==> Reached(les, |les|)[p] < |ForwardedOver(n, es)|
    ensures Received(chunks) == Select(ForwardedOver(n, es), Reached(les, |les|))
  {
    hide Received, T.Carries, ApSent, Reached, ForwardedOver;
    ReachedInOrder(les, |les|);
    ReceivedIsReached(les, chunks);
  }

  /** Delivery over whole runs: the far side's parser gives one verdict for each forwarded frame whose
      send reached the wire, in order, and nothing else. */
  lemma RunDelivered(n: nat, es: seq<Input>, les: seq<T.Input>, chunks: seq<seq<byte>>)
    requires AdmissibleRun(Start(n), es) && SendsForwards(n, es, les) && T.Carries(chunks, les)
    ensures forall f :: f in ForwardedOver(n, es) ==> ApWire.IsFrame(f)
    ensures forall p :: 0 <= p < |Reached(les, |les|)| ==> Reached(les, |les|)[p] < |ForwardedOver(n, es)|
    ensures Verdicts(chunks) == Framing.Decodes(Select(ForwardedOver(n, es), Reached(les, |les|)))
  {
    hide P.Step, Received, T.Carries, SendsForwards, Reached, ForwardedOver, AdmissibleRun, ApWire.IsFrame;
    ReceivedIsForwarded(n, es, les, chunks);
    ForwardedWhole(n, es);
    Framing.FramesJudged(Select(ForwardedOver(n, es), Reached(les, |les|)));
  }

  /** Authority end to end: over every bridge run, every schedule of sends, losses and transmissions
      and every cut of the wire, the far side's verdicts are traced, in order and each to its own
      event, to what made the bridge forward; and a claim-requiring packet it accepts arrived in
      that very event from the connection then in control. */
  lemma SystemGateSound(n: nat, es: seq<Input>, les: seq<T.Input>, chunks: seq<seq<byte>>) returns (ks: seq<nat>)
    requires AdmissibleRun(Start(n), es) && SendsForwards(n, es, les) && T.Carries(chunks, les)
    ensures |ks| == |Verdicts(chunks)| && Increasing(ks)
    ensures forall p :: 0 <= p < |ks| ==> Attributed(History(Start(n), es), ks[p], Verdicts(chunks)[p])
  {
    hide P.Step, Received, T.Carries, SendsForwards, Reached, ForwardedOver, AdmissibleRun, Attributed;
    ReceivedIsForwarded(n, es, les, chunks);
    ks := BridgeGateSound(n, es, Reached(les, |les|));
  }

  lemma {:induction false} ReachedGrows(les: seq<T.Input>, k: nat, m: nat)
    requires k <= m <= |les|
    ensures Reached(les, k) <= Reached(les, m)
    decreases m
  {
    hide T.Transmitted, ApSent;
    if k < m {
      ReachedGrows(les, k, m - 1);
    }
  }

  /** What a run forwards starts with what its beginning forwards, then the packet written next. */
  lemma PacketForwardedNext(n: nat, es: seq<Input>, h: Handle, writes: seq<seq<byte>>, later: seq<Input>,
                            cmd: byte, payload: seq<byte>)
    requires var s := Final(Bridge.Step, Start(n), es); AtBoundary(s, h) && Allowed(s.sess, h, cmd)
    requires |payload| <= ApWire.MAX_PAYLOAD && Flatten(writes) == ApWire.Build(cmd, payload)
    ensures ForwardedOver(n, es) + [ApWire.Build(cmd, payload)] <= ForwardedOver(n, es + Writes(h, writes) + later)
  {
    hide Bridge.Step, ApWire.Build, AtBoundary, Allowed, Writes;
    var s, mine := Final(Bridge.Step, Start(n), es), Writes(h, writes);
    PacketForwarded(s, h, writes, cmd, payload);
    RunConcat(Bridge.Step, Start(n), es + mine, later);
    RunConcat(Bridge.Step, Start(n), es, mine);
    var first := Emitted(Bridge.Step, Start(n), es);
    var rest := Emitted(Bridge.Step, Final(Bridge.Step, Start(n), es + mine), later);
    ForwardedConcat(first + [Forward(h, ApWire.Build(cmd, payload))], rest);
    ForwardedConcat(first, [Forward(h, ApWire.Build(cmd, payload))]);
    ForwardedSingle(h, ApWire.Build(cmd, payload));
  }

  lemma ForwardedSingle(h: Handle, f: seq<byte>)
    ensures Forwarded([Forward(h, f)]) == [f]
  {
    assert [Forward(h, f)][1..] == [];
  }

  lemma {:induction false} ApSentGrows(les: seq<T.Input>, k: nat, m: nat)
    requires k <= m <= |les|
    ensures ApSent(les, k) <= ApSent(les, m)
    decreases m
  {
    hide T.BytesOf;
    if k < m {
      ApSentGrows(les, k, m - 1);
    }
  }

  /** A packet fits the link whenever its buffer is allocated. */
  lemma PacketCarriable(les: seq<T.Input>, k: nat, fs: seq<seq<byte>>, cmd: byte, payload: seq<byte>)
    requires k < |les| && ApSend(les[k]) && les[k].malloc && ApSent(les, |les|) <= fs
    requires |payload| <= ApWire.MAX_PAYLOAD && |ApSent(les, k)| < |fs|
    requires fs[|ApSent(les, k)|] == ApWire.Build(cmd, payload)
    ensures LinkProgress.Carriable(les[k])
  {
    hide ApWire.Build;
    ApSentGrows(les, k + 1, |les|);
    ApWire.BuildIsFrame(cmd, payload);
    assert T.BytesOf(les[k].payload) == ApSent(les, k + 1)[|ApSent(les, k)|];
  }

  /** End-to-end delivery of one packet: after any run of the bridge, an allowed connection between
      frames writes a packet in any split, and anything may follow. If the AP_CTRL send of that packet,
      input `k` of the link, gets its buffer and finds fewer than 32 frames waiting, and the transmit
      task then gets more turns than frames were waiting, then whatever was lost before or after, and
      however the wire is cut, the far side's parser completes exactly that command and payload, after
      the verdicts on the earlier sends that reached it. */
  lemma PacketDelivered(n: nat, es: seq<Input>, h: Handle, writes: seq<seq<byte>>, later: seq<Input>,
                        les: seq<T.Input>, k: nat, chunks: seq<seq<byte>>, cmd: byte, payload: seq<byte>)
    requires AdmissibleRun(Start(n), es + Writes(h, writes) + later)
    requires var s := Final(Bridge.Step, Start(n), es); AtBoundary(s, h) && Allowed(s.sess, h, cmd)
    requires |payload| <= ApWire.MAX_PAYLOAD && Flatten(writes) == ApWire.Build(cmd, payload)
    requires SendsForwards(n, es + Writes(h, writes) + later, les) && T.Carries(chunks, les)
    requires k < |les| && ApSend(les[k]) && |ApSent(les, k)| == |ForwardedOver(n, es)|
    requires les[k].malloc && LinkProgress.Depth(les, k) < 32
    requires LinkProgress.Turns(les, k + 1, |les|) > LinkProgress.Depth(les, k)
    ensures |Reached(les, k)| < |Verdicts(chunks)|
    ensures Verdicts(chunks)[|Reached(les, k)|] == P.Complete(cmd, payload)
  {
    hide P.Step, Bridge.Step, ApWire.Build, ApWire.IsFrame, AtBoundary, Allowed, Verdicts, T.Carries, T.Transmitted;
    hide ForwardedOver, AdmissibleRun, Writes, ApSent, Framing.Decode;
    hide LinkProgress.Depth, LinkProgress.Turns;
    var run := es + Writes(h, writes) + later;
    PacketForwardedNext(n, es, h, writes, later, cmd, payload);
    PacketCarriable(les, k, ForwardedOver(n, run), cmd, payload);
    LinkProgress.TransmittedIff(les, k);
    RunDelivered(n, run, les, chunks);
    ReachedGrows(les, k + 1, |les|);
    assert Reached(les, k + 1) == Reached(les, k) + [|ApSent(les, k)|];
    hide Reached;
    var fs := Select(ForwardedOver(n, run), Reached(les, |les|));
    DecodesAt(fs);
    assert fs[|Reached(les, k)|] == ApWire.Build(cmd, payload);
    Framing.BuildDecodes(cmd, payload);
  }

  /** The premises of the above are met from start-up: a connection that claims and is answered is
      between frames and allowed every command. */
  lemma ControllerReachable(n: nat, h: Handle, tail: Tail)
    requires n > 0 && h != CONN_NONE
    ensures var es := [Connect(h), Write(h, ApWire.Build(0x01, [])), LinkAp(ApWire.Build(0xF0, []), tail)];
            var s := Final(Bridge.Step, Start(n), es);
            AdmissibleRun(Start(n), es) && AtBoundary(s, h) && s.sess.controller == h
  {
    hide ApWire.Build, ApWire.IsFrame, R.Step, Tracked, SessionIdOf;
    var claim, ok := ApWire.Build(0x01, []), ApWire.Build(0xF0, []);
    ApWire.BuildIsFrame(0x01, []);
    ApWire.BuildIsFrame(0xF0, []);
    StartInv(n);
    var s1 := Bridge.Step(Start(n), Connect(h)).0;
    ConnectedAtBoundary(n, h);
    var s2 := Bridge.Step(s1, Write(h, claim)).0;
    WholeWrite(s1, h, claim);
    RunOne(SessionPolicy.Step, s1.sess, FrameFrom(h, claim));
    RunOne(SessionPolicy.Step, s2.sess, FromLink(ok, tail));
    hide Bridge.Step, AtBoundary;
    var es := [Connect(h), Write(h, claim), LinkAp(ok, tail)];
    assert es[1..] == [Write(h, claim), LinkAp(ok, tail)] && es[1..][1..] == [LinkAp(ok, tail)];
    RunOne(Bridge.Step, s2, LinkAp(ok, tail));
    assert es[..0] == [];
  }

  lemma ConnectedAtBoundary(n: nat, h: Handle)
    requires n > 0
    ensures var s := Bridge.Step(Start(n), Connect(h)).0; AtBoundary(s, h) && s.sess == INIT
  {
    hide SessionPolicy.Step;
    assert FirstFree(Start(n).slots) == 0;
    var s := Bridge.Step(Start(n), Connect(h)).0;
    assert s.slots[0].inUse && s.slots[0].handle == h && s.slots[0].body == R.Sync;
  }

  // ---- Downlink: what the clients reassemble ----

  function DataOf(a: Action): seq<byte>
  {
    match a
    case Forward(_, frame) => frame
    case Notify(_, data) => data
    case Broadcast(data) => data
  }

  /** What the actions of one input notify to `h`. */
  function Notified(s: State, acts: seq<Action>, h: Handle): seq<seq<byte>>
  {
    if acts == [] then [] else (if h in Targets(s, acts[0]) then [DataOf(acts[0])] else []) + Notified(s, acts[1..], h)
  }

  /** Everything notified to `h` over a run, in order. */
  function NotifiedTo(s: State, es: seq<Input>, h: Handle): seq<seq<byte>>
    decreases |es|
  {
    if es == [] then []
    else Notified(s, Bridge.Step(s, es[0]).1, h) + NotifiedTo(Bridge.Step(s, es[0]).0, es[1..], h)
  }

  /** Inbound AP_CTRL payloads are whole AP frames. */
  ghost predicate WholeReplies(es: seq<Input>)
  {
    forall k :: 0 <= k < |es| && es[k].LinkAp? ==> ApWire.IsFrame(es[k].payload)
  }

  lemma StepNotifiesWhole(s: Session, e: SessionPolicy.Event)
    requires e.FromLink? ==> ApWire.IsFrame(e.payload)
    ensures forall a :: a in SessionPolicy.Step(s, e).1 && !a.Forward? ==> ApWire.IsFrame(DataOf(a))
  {
    hide ApWire.IsFrame, ApWire.Build;
    ApWire.BuildIsFrame(ApWire.CMD_ERROR, [ApWire.ERR_NOT_CONTROLLER]);
  }

  lemma {:induction false} EventsNotifyWhole(s: Session, es: seq<SessionPolicy.Event>)
    requires forall e :: e in es && e.FromLink? ==> ApWire.IsFrame(e.payload)
    ensures forall a :: a in Emitted(SessionPolicy.Step, s, es) && !a.Forward? ==> ApWire.IsFrame(DataOf(a))
    decreases |es|
  {
    hide ApWire.IsFrame, SessionPolicy.Step, DataOf;
    if es != [] {
      StepNotifiesWhole(s, es[0]);
      EventsNotifyWhole(SessionPolicy.Step(s, es[0]).0, es[1..]);
    }
  }

  lemma {:induction false} NoLinkEvents(h: Handle, fs: seq<seq<byte>>)
    ensures forall e :: e in FramesFrom(h, fs) ==> e.FrameFrom?
  {
    if fs != [] {
      NoLinkEvents(h, fs[1..]);
    }
  }

  lemma {:induction false} NotifiedWhole(s: State, acts: seq<Action>, h: Handle)
    requires forall a :: a in acts && !a.Forward? ==> ApWire.IsFrame(DataOf(a))
    ensures forall f :: f in Notified(s, acts, h) ==> ApWire.IsFrame(f)
  {
    hide ApWire.IsFrame, DataOf;
    if acts != [] {
      NotifiedWhole(s, acts[1..], h);
    }
  }

  lemma {:induction false} RunNotifiesWhole(s: State, es: seq<Input>, h: Handle)
    requires WholeReplies(es)
    ensures forall f :: f in NotifiedTo(s, es, h) ==> ApWire.IsFrame(f)
    decreases |es|
  {
    hide ApWire.IsFrame, SessionPolicy.Step, ConnsAfter, SlotsAfter;
    if es != [] {
      var (s1, acts) := Bridge.Step(s, es[0]);
      RunNotifiesWhole(s1, es[1..], h);
      if es[0].Write? {
        NoLinkEvents(es[0].h, Completed(s.slots, es[0].h, es[0].data));
      }
      EventsNotifyWhole(s.sess, SessionEvents(s, es[0]));
      NotifiedWhole(s, acts, h);
    }
  }

  /** Downlink: over every run, whatever MTU each value is cut at, the client of `h` reassembles
      exactly the replies, rejections, events and broadcasts meant for it, in order. */
  lemma ClientReassembles(s: State, es: seq<Input>, h: Handle, mtus: seq<nat>)
    requires WholeReplies(es) && |mtus| == |NotifiedTo(s, es, h)|
    ensures Flatten(Client.Returned(R.Sync, Client.Notifications(NotifiedTo(s, es, h), mtus))) == NotifiedTo(s, es, h)
  {
    hide NotifiedTo, Client.Notifications, Client.Returned;
    RunNotifiesWhole(s, es, h);
    Client.SessionReturned(NotifiedTo(s, es, h), mtus);
  }

  /** A link parser that hunts for a frame, whatever it has read before, delivers the next one. */
  lemma ReplyReceived(before: seq<byte>, f: L.Frame, chunks: seq<seq<byte>>)
    requires var p := Final(L.Step, L.Sync, before); p.Sync? || p.Ver?
    requires |f.payload| <= L.MAX_PAYLOAD && f.channel == L.CH_AP_CTRL && Flatten(chunks) == L.Build(f)
    ensures ApPayloads(L.Deliveries(EmittedByChunks(L.Step, Final(L.Step, L.Sync, before), chunks))) == [f.payload]
  {
    hide L.Step, L.Build, ApPayloads;
    var p := Final(L.Step, L.Sync, before);
    ChunkingIrrelevant(L.Step, p, chunks);
    LinkProperties.BuiltDelivered(p, f);
    PayloadsSnoc([], f);
    assert [] + [f] == [f] && ApPayloads([]) == [] by { NoPayloads(); }
  }

  /** The connection a reply with command `cmd` belongs to. */
  function Recipient(sess: Session, cmd: byte): Handle
  {
    if cmd == ApWire.CMD_OK && sess.pending != CONN_NONE then sess.pending else sess.controller
  }

  lemma ReplyRouted(s: State, payload: seq<byte>, tail: Tail)
    requires Recipient(s.sess, CmdOf(payload)) != CONN_NONE
    ensures Bridge.Step(s, LinkAp(payload, tail)).1 == [Notify(Recipient(s.sess, CmdOf(payload)), payload)]
  {
    hide CmdOf, SessionIdOf;
    RunOne(SessionPolicy.Step, s.sess, FromLink(payload, tail));
  }

  /** A reply travels the other way: after any earlier downlink bytes that leave the parser hunting,
      the STM32's link frame, through any cut of the wire, reaches the one connection it belongs to,
      whose client, after any earlier frames and at any MTUs, reads the packet back. */
  lemma ReplyDelivered(before: seq<byte>, s: State, f: L.Frame, chunks: seq<seq<byte>>, cmd: byte, payload: seq<byte>,
                       tail: Tail, earlier: seq<seq<byte>>, mtus: seq<nat>)
    requires var p := Final(L.Step, L.Sync, before); p.Sync? || p.Ver?
    requires |payload| <= ApWire.MAX_PAYLOAD && f.channel == L.CH_AP_CTRL && f.payload == ApWire.Build(cmd, payload)
    requires |f.payload| <= L.MAX_PAYLOAD && Flatten(chunks) == L.Build(f)
    requires Recipient(s.sess, cmd) != CONN_NONE
    requires |mtus| == |earlier| + 1 && forall e :: e in earlier ==> ApWire.IsFrame(e)
    ensures ApPayloads(L.Deliveries(EmittedByChunks(L.Step, Final(L.Step, L.Sync, before), chunks))) == [f.payload]
    ensures Bridge.Step(s, LinkAp(f.payload, tail)).1 == [Notify(Recipient(s.sess, cmd), f.payload)]
    ensures Flatten(Client.Returned(R.Sync, Client.Notifications(earlier + [f.payload], mtus))) == earlier + [f.payload]
    ensures Emitted(P.Step, P.Sync, f.payload) == [P.Complete(cmd, payload)]
  {
    hide L.Build, L.Step, P.Step, ApWire.Build, ApWire.IsFrame, Bridge.Step, Client.Notifications, Client.Returned, ApPayloads;
    ApWire.BuildIsFrame(cmd, payload);
    ReplyReceived(before, f, chunks);
    ReplyRouted(s, f.payload, tail);
    Client.SessionReturned(earlier + [f.payload], mtus);
    Framing.BuildDecodes(cmd, payload);
    Framing.FrameJudged(f.payload);
  }
}
