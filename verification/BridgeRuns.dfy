/** Whole runs of the bridge: its policy sees exactly one event history, every connection's
    stream is reassembled on its own, and how writes are cut does not matter. */
module BridgeRuns {
  import opened Bytes
  import opened Machine
  import opened SessionPolicy
  import opened SlotTable
  import opened Bridge
  import Forwarding
  import SessionProperties
  import ApWire
  import R = ApReasm
  import P = ApCodec

  /** The events the policy sees over a run. */
  function History(s: State, es: seq<Input>): seq<SessionPolicy.Event>
    decreases |es|
  {
    if es == [] then [] else SessionEvents(s, es[0]) + History(Bridge.Step(s, es[0]).0, es[1..])
  }

  /** The bridge acts as the policy does on that history. */
  lemma {:induction false} PolicyRun(s: State, es: seq<Input>)
    ensures Final(Bridge.Step, s, es).sess == Final(SessionPolicy.Step, s.sess, History(s, es))
    ensures Emitted(Bridge.Step, s, es) == Emitted(SessionPolicy.Step, s.sess, History(s, es))
    decreases |es|
  {
    hide SessionPolicy.Step, SessionEvents, ConnsAfter, SlotsAfter;
    if es != [] {
      var s1 := Bridge.Step(s, es[0]).0;
      RunConcat(SessionPolicy.Step, s.sess, SessionEvents(s, es[0]), History(s1, es[1..]));
      PolicyRun(s1, es[1..]);
    }
  }

  lemma AdmissibleTail(s: State, es: seq<Input>)
    requires AdmissibleRun(s, es) && es != []
    ensures Admissible(s, es[0]) && AdmissibleRun(Bridge.Step(s, es[0]).0, es[1..])
  {
    hide Bridge.Step, Admissible;
    assert es[..0] == [];
    assert Admissible(Final(Bridge.Step, s, es[..0]), es[0]);
    var s1 := Bridge.Step(s, es[0]).0;
    forall k | 0 <= k < |es[1..]|
      ensures Admissible(Final(Bridge.Step, s1, es[1..][..k]), es[1..][k])
    {
      assert es[..k + 1][0] == es[0] && es[..k + 1][1..] == es[1..][..k];
      assert Admissible(Final(Bridge.Step, s, es[..k + 1]), es[k + 1]);
    }
  }

  lemma {:induction false} HistoryGood(s: State, es: seq<Input>)
    requires Inv(s) && AdmissibleRun(s, es)
    ensures Proper(History(s, es)) && SessionProperties.WholeFrames(History(s, es))
    decreases |es|
  {
    hide Bridge.Step, SessionEvents, Inv, Admissible, AdmissibleRun, ApWire.IsFrame;
    if es != [] {
      AdmissibleTail(s, es);
      SessionEventsGood(s, es[0]);
      InvStep(s, es[0]);
      var s1 := Bridge.Step(s, es[0]).0;
      HistoryGood(s1, es[1..]);
      var xs, ys := SessionEvents(s, es[0]), History(s1, es[1..]);
      forall k | 0 <= k < |xs + ys|
        ensures ProperEvent((xs + ys)[k]) && ((xs + ys)[k].FrameFrom? ==> ApWire.IsFrame((xs + ys)[k].frame))
      {
        if k < |xs| {
          assert GoodEvent(s, xs[k]);
        } else {
          assert (xs + ys)[k] == ys[k - |xs|];
        }
      }
    }
  }

  /** The frames the bridge forwards over a run, in order. */
  function ForwardedOver(n: nat, es: seq<Input>): seq<seq<byte>>
  {
    Forwarding.Forwarded(Emitted(Bridge.Step, Start(n), es))
  }

  lemma ForwardedIsHistory(n: nat, es: seq<Input>)
    ensures ForwardedOver(n, es) == Forwarding.ForwardedBy(History(Start(n), es), |History(Start(n), es)|)
  {
    hide Bridge.Step, SessionPolicy.Step, Forwarding.Forwarded;
    var hs := History(Start(n), es);
    PolicyRun(Start(n), es);
    assert hs[..|hs|] == hs;
  }

  /** Gate soundness over whole bridge runs: connects, disconnects, writes cut and interleaved in
      any way, and any link frames. */
  lemma BridgeGateSound(n: nat, es: seq<Input>, picks: seq<nat>) returns (ks: seq<nat>)
    requires AdmissibleRun(Start(n), es)
    requires forall p :: 0 <= p < |picks| ==> picks[p] < |ForwardedOver(n, es)|
    ensures var vs := Emitted(P.Step, P.Sync, Flatten(Forwarding.Select(ForwardedOver(n, es), picks)));
            && |vs| == |picks| == |ks|
            && forall p :: 0 <= p < |ks| ==> Forwarding.Attributed(History(Start(n), es), ks[p], vs[p])
    ensures forall p, q :: 0 <= p < |ks| && 0 <= q < |ks| ==> (picks[p] < picks[q] ==> ks[p] < ks[q])
  {
    hide P.Step, ForwardedOver, Forwarding.ForwardedBy, Forwarding.Attributed, Proper, SessionProperties.WholeFrames;
    hide AdmissibleRun, Inv;
    StartInv(n);
    HistoryGood(Start(n), es);
    ForwardedIsHistory(n, es);
    ks := Forwarding.GateSound(History(Start(n), es), picks);
  }

  /** Everything forwarded is a whole frame. */
  lemma ForwardedWhole(n: nat, es: seq<Input>)
    requires AdmissibleRun(Start(n), es)
    ensures forall f :: f in ForwardedOver(n, es) ==> ApWire.IsFrame(f)
  {
    hide ForwardedOver, Forwarding.ForwardedBy, Forwarding.Forwarded, Proper, SessionProperties.WholeFrames;
    hide AdmissibleRun, Inv, ApWire.IsFrame;
    var hs := History(Start(n), es);
    StartInv(n);
    HistoryGood(Start(n), es);
    ForwardedIsHistory(n, es);
    Forwarding.SendersExact(hs, |hs|);
    forall f | f in ForwardedOver(n, es)
      ensures ApWire.IsFrame(f)
    {
      var m :| 0 <= m < |ForwardedOver(n, es)| && ForwardedOver(n, es)[m] == f;
      Forwarding.ForwardAttributed(hs, Forwarding.Senders(hs, |hs|)[m], f);
    }
  }

  // ---- The slot table refines a map from live handles to their own reassemblers ----

  function Streams(t: seq<Entry<R.State>>): map<Handle, R.State>
  {
    map h | h in Tracked(t) :: (TrackedFind(t, h); t[Find(t, h)].body)
  }

  /** The same bridge input on the map. */
  function MapStep(n: nat, m: map<Handle, R.State>, e: Input): map<Handle, R.State>
  {
    match e
    case Connect(h) => if |m| < n then m[h := R.Sync] else m
    case Disconnect(h) => m - {h}
    case Write(h, data) => if h in m then m[h := Final(R.Step, m[h], data)] else m
    case LinkAp(_, _) => m
  }

  /** The frames a write completes, on the map. */
  function MapFrames(m: map<Handle, R.State>, h: Handle, data: seq<byte>): seq<seq<byte>>
  {
    if h in m then R.Frames(Emitted(R.Step, m[h], data)) else []
  }

  lemma StreamKeys(t: seq<Entry<R.State>>)
    ensures Streams(t).Keys == Tracked(t) && |Streams(t)| == |Tracked(t)|
  {
    assert Streams(t).Keys == Tracked(t);
  }

  lemma StreamAt(t: seq<Entry<R.State>>, i: nat)
    requires Unique(t) && i < |t| && t[i].inUse
    ensures t[i].handle in Streams(t) && Streams(t)[t[i].handle] == t[i].body
  {
    var j := Find(t, t[i].handle);
    assert t[i].handle in Tracked(t);
    TrackedFind(t, t[i].handle);
  }

  lemma StreamsAgree(t: seq<Entry<R.State>>, u: seq<Entry<R.State>>, g: Handle)
    requires Unique(t) && Unique(u) && g in Tracked(t)
    requires forall j :: 0 <= j < |t| && t[j].inUse && t[j].handle == g ==> j < |u| && u[j] == t[j]
    ensures g in Streams(u) && Streams(u)[g] == Streams(t)[g]
  {
    var j :| 0 <= j < |t| && t[j].inUse && t[j].handle == g;
    StreamAt(t, j);
    StreamAt(u, j);
  }

  lemma StreamsAdd(t: seq<Entry<R.State>>, h: Handle)
    requires Unique(t) && h !in Tracked(t)
    ensures Streams(Add(t, h, R.Sync)) == if |Streams(t)| < |t| then Streams(t)[h := R.Sync] else Streams(t)
  {
    hide Find, FirstFree, Streams, Tracked;
    var u := Add(t, h, R.Sync);
    AddTracked(t, h, R.Sync);
    TrackedCount(t);
    StreamKeys(t);
    StreamKeys(u);
    if |Streams(t)| < |t| {
      StreamAt(u, FirstFree(t));
      forall g | g in Streams(t)
        ensures g in Streams(u) && Streams(u)[g] == Streams(t)[g]
      {
        StreamsAgree(t, u, g);
      }
      assert Streams(u).Keys == Streams(t)[h := R.Sync].Keys;
    }
  }

  lemma StreamsRemove(t: seq<Entry<R.State>>, h: Handle)
    requires Unique(t)
    ensures Streams(Remove(t, h)) == Streams(t) - {h}
  {
    hide Find, Streams, Tracked;
    var u := Remove(t, h);
    RemoveTracked(t, h);
    StreamKeys(t);
    StreamKeys(u);
    forall g | g in Tracked(u)
      ensures Streams(u)[g] == Streams(t)[g]
    {
      StreamsAgree(t, u, g);
    }
  }

  lemma StreamsFed(t: seq<Entry<R.State>>, h: Handle, data: seq<byte>)
    requires Unique(t) && forall i :: 0 <= i < |t| && t[i].inUse ==> R.Ok(t[i].body)
    ensures Streams(Fed(t, h, data))
         == if h in Streams(t) then Streams(t)[h := Final(R.Step, Streams(t)[h], data)] else Streams(t)
    ensures Completed(t, h, data) == MapFrames(Streams(t), h, data)
  {
    hide Find, R.Step, R.Ok, Final, Emitted, R.Frames, Streams, Tracked;
    var u := Fed(t, h, data);
    FedKeepsTable(t, h, data);
    TrackedFind(t, h);
    StreamKeys(t);
    StreamKeys(u);
    forall g | g in Tracked(t) && g != h
      ensures Streams(u)[g] == Streams(t)[g]
    {
      StreamsAgree(t, u, g);
    }
    if h in Tracked(t) {
      StreamAt(t, Find(t, h));
      StreamAt(u, Find(t, h));
    }
  }

  /** Data refinement: first-free allocation and linear search behave as one map per handle. */
  lemma SlotsRefineMap(s: State, e: Input)
    requires Inv(s) && Admissible(s, e)
    ensures Streams(Bridge.Step(s, e).0.slots) == MapStep(|s.slots|, Streams(s.slots), e)
    ensures |Bridge.Step(s, e).0.slots| == |s.slots|
    ensures e.Write? ==> SessionEvents(s, e) == FramesFrom(e.h, MapFrames(Streams(s.slots), e.h, e.data))
  {
    hide Find, FirstFree, R.Step, R.Ok, Streams, Fed, Completed, Final, Emitted, Unique;
    match e {
      case Connect(h) => StreamsAdd(s.slots, h);
      case Disconnect(h) => StreamsRemove(s.slots, h);
      case Write(h, data) => StreamsFed(s.slots, h, data); FedLength(s.slots, h, data);
      case LinkAp(_, _) =>
    }
  }

  lemma FedLength(t: seq<Entry<R.State>>, h: Handle, data: seq<byte>)
    ensures |Fed(t, h, data)| == |t|
  {
  }

  // ---- Stream isolation ----

  /** All bytes written on `h` since its latest connect, over the first `k` inputs. */
  function StreamSince(es: seq<Input>, k: nat, h: Handle): seq<byte>
    requires k <= |es|
  {
    if k == 0 || es[k - 1] == Connect(h) then []
    else StreamSince(es, k - 1, h) + (if es[k - 1].Write? && es[k - 1].h == h then es[k - 1].data else [])
  }

  /** The frames among `xs` that came from `h`. */
  function SentBy(h: Handle, xs: seq<SessionPolicy.Event>): seq<seq<byte>>
  {
    if xs == [] then [] else (if xs[0].FrameFrom? && xs[0].conn == h then [xs[0].frame] else []) + SentBy(h, xs[1..])
  }

  /** State after the first `k` inputs. */
  function After(n: nat, es: seq<Input>, k: nat): State
    requires k <= |es|
  {
    Final(Bridge.Step, Start(n), es[..k])
  }

  /** The frames the policy was given from `h` since its latest connect. */
  function HandledSince(n: nat, es: seq<Input>, k: nat, h: Handle): seq<seq<byte>>
    requires k <= |es|
  {
    if k == 0 || es[k - 1] == Connect(h) then []
    else HandledSince(n, es, k - 1, h) + SentBy(h, SessionEvents(After(n, es, k - 1), es[k - 1]))
  }

  lemma {:induction false} SentByOther(h: Handle, g: Handle, fs: seq<seq<byte>>)
    ensures SentBy(h, FramesFrom(g, fs)) == if g == h then fs else []
  {
    if fs != [] {
      SentByOther(h, g, fs[1..]);
      assert FramesFrom(g, fs)[1..] == FramesFrom(g, fs[1..]);
    }
  }

  lemma AfterNext(n: nat, es: seq<Input>, k: nat)
    requires k < |es| && AdmissibleRun(Start(n), es)
    ensures After(n, es, k + 1) == Bridge.Step(After(n, es, k), es[k]).0
    ensures Inv(After(n, es, k)) && Admissible(After(n, es, k), es[k])
  {
    hide Bridge.Step, Inv, Admissible;
    assert es[..k + 1] == es[..k] + [es[k]];
    RunSnoc(Bridge.Step, Start(n), es[..k], es[k]);
    StartInv(n);
    AdmissiblePrefix(Start(n), es, k);
    InvRun(Start(n), es[..k]);
  }

  /** Stream isolation: for a live connection, the reassembler state and the frames handled are
      exactly those of its own bytes since its latest connect; other connections, and earlier
      owners of the slot or the handle, leave no trace. */
  lemma {:induction false} StreamsIsolated(n: nat, es: seq<Input>, k: nat, h: Handle)
    requires k <= |es| && AdmissibleRun(Start(n), es) && h in Streams(After(n, es, k).slots)
    ensures Streams(After(n, es, k).slots)[h] == Final(R.Step, R.Sync, StreamSince(es, k, h))
    ensures HandledSince(n, es, k, h) == R.Frames(Emitted(R.Step, R.Sync, StreamSince(es, k, h)))
    decreases k
  {
    hide Bridge.Step, R.Step, SessionEvents, Streams, Inv, Admissible, AdmissibleRun;
    if k == 0 {
      StartInv(n);
      assert es[..0] == [];
      StreamKeys(Start(n).slots);
    } else {
      var s, e := After(n, es, k - 1), es[k - 1];
      AfterNext(n, es, k - 1);
      SlotsRefineMap(s, e);
      if e == Connect(h) {
        ConnectedFresh(s, h);
      } else {
        StreamsIsolated(n, es, k - 1, h);
        StepOfStream(n, es, k, h);
      }
    }
  }

  lemma ConnectedFresh(s: State, h: Handle)
    requires Inv(s) && Admissible(s, Connect(h))
    requires h in MapStep(|s.slots|, Streams(s.slots), Connect(h))
    ensures MapStep(|s.slots|, Streams(s.slots), Connect(h))[h] == R.Sync
  {
    hide Streams;
    StreamKeys(s.slots);
  }

  lemma StepOfStream(n: nat, es: seq<Input>, k: nat, h: Handle)
    requires 0 < k <= |es| && es[k - 1] != Connect(h)
    requires var s, e := After(n, es, k - 1), es[k - 1];
             && h in MapStep(|s.slots|, Streams(s.slots), e)
             && (e.Write? ==> SessionEvents(s, e) == FramesFrom(e.h, MapFrames(Streams(s.slots), e.h, e.data)))
             && h in Streams(s.slots)
             && Streams(s.slots)[h] == Final(R.Step, R.Sync, StreamSince(es, k - 1, h))
             && HandledSince(n, es, k - 1, h) == R.Frames(Emitted(R.Step, R.Sync, StreamSince(es, k - 1, h)))
    ensures var s, e := After(n, es, k - 1), es[k - 1];
            && MapStep(|s.slots|, Streams(s.slots), e)[h] == Final(R.Step, R.Sync, StreamSince(es, k, h))
            && HandledSince(n, es, k, h) == R.Frames(Emitted(R.Step, R.Sync, StreamSince(es, k, h)))
  {
    hide Bridge.Step, R.Step, Streams, After;
    var s, e := After(n, es, k - 1), es[k - 1];
    var old_ := StreamSince(es, k - 1, h);
    match e {
      case Write(g, data) =>
        SentByOther(h, g, MapFrames(Streams(s.slots), g, data));
        if g == h {
          RunConcat(R.Step, R.Sync, old_, data);
          R.EventsConcat(Emitted(R.Step, R.Sync, old_), Emitted(R.Step, Final(R.Step, R.Sync, old_), data));
        } else {
          assert StreamSince(es, k, h) == old_ + [] == old_;
        }
      case _ =>
        NoFrames(s, e, h);
        assert StreamSince(es, k, h) == old_ + [] == old_;
    }
  }

  lemma NoFrames(s: State, e: Input, h: Handle)
    requires !e.Write?
    ensures SentBy(h, SessionEvents(s, e)) == []
  {
  }

  // ---- Write chunking ----

  lemma {:induction false} FramesFromConcat(h: Handle, fs: seq<seq<byte>>, gs: seq<seq<byte>>)
    ensures FramesFrom(h, fs + gs) == FramesFrom(h, fs) + FramesFrom(h, gs)
  {
    if fs == [] {
      assert fs + gs == gs;
    } else {
      assert (fs + gs)[1..] == fs[1..] + gs;
      FramesFromConcat(h, fs[1..], gs);
    }
  }

  lemma FedTwice(t: seq<Entry<R.State>>, h: Handle, a: seq<byte>, b: seq<byte>)
    ensures Fed(t, h, a + b) == Fed(Fed(t, h, a), h, b)
    ensures Completed(t, h, a + b) == Completed(t, h, a) + Completed(Fed(t, h, a), h, b)
  {
    hide R.Step, Find;
    var i, u := Find(t, h), Fed(t, h, a);
    if i < |t| {
      RunConcat(R.Step, t[i].body, a, b);
      R.EventsConcat(Emitted(R.Step, t[i].body, a), Emitted(R.Step, u[i].body, b));
    }
    assert Coupled(t, u);
    CoupledSearch(t, u, h);
  }

  /** One write of `a + b` is a write of `a` followed by a write of `b`: same state, same
      forwards, rejections and releases, in the same order. */
  lemma WriteChunking(s: State, h: Handle, a: seq<byte>, b: seq<byte>)
    ensures Final(Bridge.Step, s, [Write(h, a), Write(h, b)]) == Bridge.Step(s, Write(h, a + b)).0
    ensures Emitted(Bridge.Step, s, [Write(h, a), Write(h, b)]) == Bridge.Step(s, Write(h, a + b)).1
  {
    hide SessionPolicy.Step, R.Step, Find, Fed, Completed;
    var s1 := Bridge.Step(s, Write(h, a)).0;
    FedTwice(s.slots, h, a, b);
    FramesFromConcat(h, Completed(s.slots, h, a), Completed(s1.slots, h, b));
    RunConcat(SessionPolicy.Step, s.sess, SessionEvents(s, Write(h, a)), SessionEvents(s1, Write(h, b)));
    TwoSteps(s, Write(h, a), Write(h, b));
  }

  lemma TwoSteps(s: State, d: Input, e: Input)
    ensures Final(Bridge.Step, s, [d, e]) == Bridge.Step(Bridge.Step(s, d).0, e).0
    ensures Emitted(Bridge.Step, s, [d, e]) == Bridge.Step(s, d).1 + Bridge.Step(Bridge.Step(s, d).0, e).1
  {
    hide Bridge.Step;
    assert [d, e] == [d] + [e];
    RunSnoc(Bridge.Step, s, [d], e);
    RunOne(Bridge.Step, s, d);
  }
}
