/** The AP bridge with its connection tables: BLE connects, disconnects and writes, and AP_CTRL
    frames from the link, drive the registry, the reassembler slots and the session policy. */
module Bridge {
  import opened Bytes
  import opened Machine
  import opened SessionPolicy
  import opened SlotTable
  import ApWire
  import R = ApReasm

  datatype State = State(conns: seq<Entry<()>>, slots: seq<Entry<R.State>>, sess: Session)

  datatype Input =
    | Connect(h: Handle)
    | Disconnect(h: Handle)
    | Write(h: Handle, data: seq<byte>)
    | LinkAp(payload: seq<byte>, tail: Tail)

  function Start(n: nat): State
  {
    State(seq(n, _ => Entry(false, 0, ())), seq(n, _ => Entry(false, 0, R.Sync)), SessionPolicy.INIT)
  }

  function FramesFrom(h: Handle, fs: seq<seq<byte>>): seq<SessionPolicy.Event>
  {
    if fs == [] then [] else [FrameFrom(h, fs[0])] + FramesFrom(h, fs[1..])
  }

  /** The whole frames a write completes on its connection's reassembler. */
  function Completed(slots: seq<Entry<R.State>>, h: Handle, data: seq<byte>): seq<seq<byte>>
  {
    var i := Find(slots, h);
    if i < |slots| then R.Frames(Emitted(R.Step, slots[i].body, data)) else []
  }

  function Fed(slots: seq<Entry<R.State>>, h: Handle, data: seq<byte>): seq<Entry<R.State>>
  {
    var i := Find(slots, h);
    if i < |slots| then slots[i := slots[i].(body := Final(R.Step, slots[i].body, data))] else slots
  }

  /** What an input means to the session policy. */
  function SessionEvents(s: State, e: Input): seq<SessionPolicy.Event>
  {
    match e
    case Connect(_) => []
    case Disconnect(h) => [Dropped(h)]
    case Write(h, data) => FramesFrom(h, Completed(s.slots, h, data))
    case LinkAp(payload, tail) => [FromLink(payload, tail)]
  }

  function ConnsAfter(s: State, e: Input): seq<Entry<()>>
  {
    match e
    case Connect(h) => Add(s.conns, h, ())
    case Disconnect(h) => Remove(s.conns, h)
    case _ => s.conns
  }

  function SlotsAfter(s: State, e: Input): seq<Entry<R.State>>
  {
    match e
    case Connect(h) => Add(s.slots, h, R.Sync)
    case Disconnect(h) => Remove(s.slots, h)
    case Write(h, data) => Fed(s.slots, h, data)
    case LinkAp(_, _) => s.slots
  }

  function Step(s: State, e: Input): (State, seq<Action>)
  {
    var es := SessionEvents(s, e);
    (State(ConnsAfter(s, e), SlotsAfter(s, e), Final(SessionPolicy.Step, s.sess, es)), Emitted(SessionPolicy.Step, s.sess, es))
  }

  // ---- Coupling and liveness of every name the bridge keeps ----

  /** A live handle is never connected twice, and no handle is the reserved one. */
  predicate Admissible(s: State, e: Input)
  {
    match e
    case Connect(h) => h != CONN_NONE && h !in Tracked(s.slots)
    case Disconnect(h) => h != CONN_NONE
    case _ => true
  }

  ghost predicate AdmissibleRun(s: State, es: seq<Input>)
  {
    forall k :: 0 <= k < |es| ==> Admissible(Final(Step, s, es[..k]), es[k])
  }

  predicate LiveOrNone(s: State, h: Handle)
  {
    h == CONN_NONE || h in Tracked(s.slots)
  }

  ghost predicate Inv(s: State)
  {
    && Coupled(s.conns, s.slots)
    && Unique(s.slots)
    && CONN_NONE !in Tracked(s.slots)
    && (forall i :: 0 <= i < |s.slots| && s.slots[i].inUse ==> R.Ok(s.slots[i].body))
    && LiveOrNone(s, s.sess.controller) && LiveOrNone(s, s.sess.pending)
  }

  lemma StartInv(n: nat)
    ensures Inv(Start(n)) && Tracked(Start(n).slots) == {}
  {
  }

  /** Frames are whole and come from a tracked, proper connection. */
  ghost predicate GoodEvent(s: State, e: SessionPolicy.Event)
  {
    match e
    case FrameFrom(conn, frame) => conn in Tracked(s.slots) && conn != CONN_NONE && ApWire.IsFrame(frame)
    case Dropped(conn) => conn != CONN_NONE
    case FromLink(_, _) => true
  }

  lemma {:induction false} FramesFromGood(h: Handle, fs: seq<seq<byte>>)
    requires forall f :: f in fs ==> ApWire.IsFrame(f)
    ensures |FramesFrom(h, fs)| == |fs|
    ensures forall i :: 0 <= i < |fs| ==> FramesFrom(h, fs)[i] == FrameFrom(h, fs[i]) && ApWire.IsFrame(fs[i])
  {
    if fs != [] {
      FramesFromGood(h, fs[1..]);
    }
  }

  lemma SessionEventsGood(s: State, e: Input)
    requires Inv(s) && Admissible(s, e)
    ensures forall i :: 0 <= i < |SessionEvents(s, e)| ==> GoodEvent(s, SessionEvents(s, e)[i])
  {
    hide R.Step, ApWire.IsFrame;
    if e.Write? {
      var i := Find(s.slots, e.h);
      if i < |s.slots| {
        TrackedFind(s.slots, e.h);
        R.FramesAreFrames(s.slots[i].body, e.data);
        FramesFromGood(e.h, Completed(s.slots, e.h, e.data));
      }
    }
  }

  /** The policy only ever points at connections its frames came from. */
  lemma {:induction false} SessionStaysLive(s: State, sess: Session, es: seq<SessionPolicy.Event>)
    requires forall i :: 0 <= i < |es| ==> GoodEvent(s, es[i]) && !es[i].Dropped?
    requires LiveOrNone(s, sess.controller) && LiveOrNone(s, sess.pending)
    ensures var t := Final(SessionPolicy.Step, sess, es);
            LiveOrNone(s, t.controller) && LiveOrNone(s, t.pending)
    decreases |es|
  {
    if es != [] {
      assert GoodEvent(s, es[0]);
      SessionStaysLive(s, SessionPolicy.Step(sess, es[0]).0, es[1..]);
    }
  }

  lemma DroppedIsForgotten(sess: Session, h: Handle)
    requires h != CONN_NONE
    ensures var t := Final(SessionPolicy.Step, sess, [Dropped(h)]);
            && t.controller == (if sess.controller == h then CONN_NONE else sess.controller)
            && t.pending == (if sess.pending == h then CONN_NONE else sess.pending)
  {
    RunOne(SessionPolicy.Step, sess, Dropped(h));
  }

  lemma FedKeepsTable(slots: seq<Entry<R.State>>, h: Handle, data: seq<byte>)
    requires forall i :: 0 <= i < |slots| && slots[i].inUse ==> R.Ok(slots[i].body)
    ensures Coupled(slots, Fed(slots, h, data))
    ensures Tracked(Fed(slots, h, data)) == Tracked(slots)
    ensures Unique(slots) ==> Unique(Fed(slots, h, data))
    ensures forall i :: 0 <= i < |slots| && slots[i].inUse ==> R.Ok(Fed(slots, h, data)[i].body)
  {
    hide R.Step, R.Ok;
    var i, fed := Find(slots, h), Fed(slots, h, data);
    if i < |slots| {
      R.OnlyFrames(slots[i].body, data);
    }
    CoupledTracked(slots, fed);
  }

  lemma CoupledTracked<T, U>(t: seq<Entry<T>>, u: seq<Entry<U>>)
    requires Coupled(t, u)
    ensures Tracked(t) == Tracked(u)
  {
    CoupledHandles(t, u);
    HandlesAreTracked(t);
    HandlesAreTracked(u);
  }

  lemma ConnectInv(s: State, h: Handle)
    requires Inv(s) && Admissible(s, Connect(h))
    ensures Inv(Step(s, Connect(h)).0)
  {
    hide SessionPolicy.Step, R.Step, R.Ok, Add, Unique, Coupled, Tracked;
    CoupledKept(s.conns, s.slots, h, (), R.Sync);
    AddTracked(s.slots, h, R.Sync);
    AddKeepsBodies(s.slots, h);
  }

  lemma AddKeepsBodies(t: seq<Entry<R.State>>, h: Handle)
    requires forall i :: 0 <= i < |t| && t[i].inUse ==> R.Ok(t[i].body)
    ensures forall i :: 0 <= i < |Add(t, h, R.Sync)| && Add(t, h, R.Sync)[i].inUse ==> R.Ok(Add(t, h, R.Sync)[i].body)
  {
    hide R.Ok;
    SyncOk();
  }

  lemma DisconnectInv(s: State, h: Handle)
    requires Inv(s) && Admissible(s, Disconnect(h))
    ensures Inv(Step(s, Disconnect(h)).0)
  {
    hide SessionPolicy.Step, R.Step, R.Ok, Find, Unique, Coupled, Final;
    CoupledKept(s.conns, s.slots, h, (), R.Sync);
    RemoveTracked(s.slots, h);
    DroppedIsForgotten(s.sess, h);
  }

  lemma WriteInv(s: State, h: Handle, data: seq<byte>)
    requires Inv(s)
    ensures Inv(Step(s, Write(h, data)).0)
  {
    hide SessionPolicy.Step, R.Step, R.Ok, Unique, Final, Fed, Completed, Emitted, ApWire.IsFrame;
    var e := Write(h, data);
    SessionEventsGood(s, e);
    CompletedFrames(s, h, data);
    FramesFromGood(h, Completed(s.slots, h, data));
    SessionStaysLive(s, s.sess, SessionEvents(s, e));
    FedKeepsTable(s.slots, h, data);
  }

  lemma CompletedFrames(s: State, h: Handle, data: seq<byte>)
    requires Inv(s)
    ensures forall f :: f in Completed(s.slots, h, data) ==> ApWire.IsFrame(f)
  {
    hide R.Step, ApWire.IsFrame;
    var i := Find(s.slots, h);
    if i < |s.slots| {
      R.FramesAreFrames(s.slots[i].body, data);
    }
  }

  /** Registry and slot table agree index by index, and controller and pending claimant are live
      or absent, after every input. */
  lemma InvStep(s: State, e: Input)
    requires Inv(s) && Admissible(s, e)
    ensures Inv(Step(s, e).0)
  {
    match e {
      case Connect(h) => ConnectInv(s, h);
      case Disconnect(h) => DisconnectInv(s, h);
      case Write(h, data) => WriteInv(s, h, data);
      case LinkAp(payload, tail) =>
        hide R.Step, R.Ok, Unique, Coupled;
        SessionStaysLive(s, s.sess, [FromLink(payload, tail)]);
    }
  }

  lemma SyncOk()
    ensures R.Ok(R.Sync)
  {
  }

  lemma AdmissiblePrefix(s: State, es: seq<Input>, k: nat)
    requires AdmissibleRun(s, es) && k <= |es|
    ensures AdmissibleRun(s, es[..k])
  {
    forall j | 0 <= j < k
      ensures Admissible(Final(Step, s, es[..k][..j]), es[..k][j])
    {
      assert es[..k][..j] == es[..j];
    }
  }

  lemma {:induction false} InvRun(s: State, es: seq<Input>)
    requires Inv(s) && AdmissibleRun(s, es)
    ensures Inv(Final(Step, s, es))
    decreases |es|
  {
    hide Inv, Step, Admissible;
    if es != [] {
      var n := |es| - 1;
      AdmissiblePrefix(s, es, n);
      InvRun(s, es[..n]);
      assert es == es[..n] + [es[n]];
      RunSnoc(Step, s, es[..n], es[n]);
      assert Admissible(Final(Step, s, es[..n]), es[n]);
      InvStep(Final(Step, s, es[..n]), es[n]);
    }
  }

  // ---- Notifications reach live connections only ----

  /** The connections an action notifies, with what they are sent. */
  function Targets(s: State, a: Action): seq<Handle>
  {
    match a
    case Forward(_, _) => []
    case Notify(target, _) => [target]
    case Broadcast(_) => Handles(s.conns)
  }

  lemma {:induction false} NotifiesLive(s: State, sess: Session, es: seq<SessionPolicy.Event>, a: Action)
    requires Inv(s)
    requires forall i :: 0 <= i < |es| ==> GoodEvent(s, es[i]) && (es[i].Dropped? ==> |es| == 1)
    requires LiveOrNone(s, sess.controller) && LiveOrNone(s, sess.pending)
    requires a in Emitted(SessionPolicy.Step, sess, es)
    ensures a.Notify? ==> a.target in Tracked(s.slots)
    decreases |es|
  {
    if es != [] {
      assert GoodEvent(s, es[0]);
      if a in Emitted(SessionPolicy.Step, SessionPolicy.Step(sess, es[0]).0, es[1..]) {
        NotifiesLive(s, SessionPolicy.Step(sess, es[0]).0, es[1..], a);
      }
    }
  }

  /** Every reply, rejection, event and broadcast goes to connections that are live, and a
      broadcast reaches each of them exactly once. */
  lemma NotificationsTargetLive(s: State, e: Input, a: Action)
    requires Inv(s) && Admissible(s, e) && a in Step(s, e).1
    ensures forall h :: h in Targets(s, a) ==> h in Tracked(s.conns)
    ensures NoRepeats(Targets(s, a))
    ensures a.Broadcast? ==> forall h :: h in Tracked(s.conns) ==> h in Targets(s, a)
  {
    hide SessionPolicy.Step, R.Step, Find, FirstFree;
    SessionEventsGood(s, e);
    CoupledTracked(s.conns, s.slots);
    CoupledHandles(s.conns, s.slots);
    HandlesAreTracked(s.slots);
    HandlesDistinct(s.slots);
    DropsAlone(s, e);
    NotifiesLive(s, s.sess, SessionEvents(s, e), a);
  }

  lemma DropsAlone(s: State, e: Input)
    requires Inv(s) && Admissible(s, e)
    ensures forall i :: 0 <= i < |SessionEvents(s, e)| && SessionEvents(s, e)[i].Dropped? ==> |SessionEvents(s, e)| == 1
  {
    hide R.Step, Find, Completed, ApWire.IsFrame;
    if e.Write? {
      CompletedFrames(s, e.h, e.data);
      FramesFromGood(e.h, Completed(s.slots, e.h, e.data));
    }
  }
}
