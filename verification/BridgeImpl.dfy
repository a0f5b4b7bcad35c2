/** The bridge as the firmware runs it: file-level tables and session variables updated in place by
    event handlers. Every handler is proved to do one step of the state machine in `Bridge`. */
module BridgeImpl {
  import opened Bytes
  import opened Machine
  import opened SessionPolicy
  import opened SlotTable
  import opened Bridge
  import ApWire
  import ApCodec
  import opened BridgeRuns
  import R = ApReasm

  /** Actions as the BLE layer carries them out: a broadcast is one notification a connection. */
  function Expand(conns: seq<Entry<()>>, acts: seq<Action>): seq<Action>
  {
    if acts == [] then []
    else (if acts[0].Broadcast? then NotifyEach(Handles(conns), acts[0].data) else [acts[0]]) + Expand(conns, acts[1..])
  }

  function NotifyEach(hs: seq<Handle>, data: seq<byte>): seq<Action>
  {
    if hs == [] then [] else [Notify(hs[0], data)] + NotifyEach(hs[1..], data)
  }

  lemma {:induction false} ExpandConcat(conns: seq<Entry<()>>, xs: seq<Action>, ys: seq<Action>)
    ensures Expand(conns, xs + ys) == Expand(conns, xs) + Expand(conns, ys)
  {
    if xs == [] {
      assert xs + ys == ys;
    } else {
      assert (xs + ys)[1..] == xs[1..] + ys;
      ExpandConcat(conns, xs[1..], ys);
    }
  }

  lemma ExpandOne(conns: seq<Entry<()>>, a: Action)
    ensures Expand(conns, [a]) == if a.Broadcast? then NotifyEach(Handles(conns), a.data) else [a]
  {
    assert [a][1..] == [];
  }

  lemma {:induction false} NotifyEachAt(hs: seq<Handle>, data: seq<byte>)
    ensures |NotifyEach(hs, data)| == |hs|
    ensures forall i :: 0 <= i < |hs| ==> NotifyEach(hs, data)[i] == Notify(hs[i], data)
  {
    if hs != [] {
      NotifyEachAt(hs[1..], data);
    }
  }

  /** What a broadcast amounts to: exactly one notification for each registered handle. */
  lemma BroadcastExpanded(conns: seq<Entry<()>>, data: seq<byte>)
    requires Unique(conns)
    ensures var sent := Expand(conns, [Broadcast(data)]);
            && (forall a :: a in sent <==> a.Notify? && a.data == data && a.target in Tracked(conns))
            && (forall i, j :: 0 <= i < j < |sent| ==> sent[i] != sent[j])
  {
    ExpandOne(conns, Broadcast(data));
    NotifyEachAt(Handles(conns), data);
    HandlesAreTracked(conns);
    HandlesDistinct(conns);
  }

  lemma {:induction false} NotifyEachConcat(xs: seq<Handle>, ys: seq<Handle>, data: seq<byte>)
    ensures NotifyEach(xs + ys, data) == NotifyEach(xs, data) + NotifyEach(ys, data)
  {
    if xs == [] {
      assert xs + ys == ys;
    } else {
      assert (xs + ys)[1..] == xs[1..] + ys;
      NotifyEachConcat(xs[1..], ys, data);
    }
  }

  lemma {:induction false} HandlesConcat<T>(t: seq<Entry<T>>, u: seq<Entry<T>>)
    ensures Handles(t + u) == Handles(t) + Handles(u)
  {
    if t == [] {
      assert t + u == u;
    } else {
      var head := if t[0].inUse then [t[0].handle] else [];
      HandlesConcat(t[1..], u);
      assert (t + u)[0] == t[0] && (t + u)[1..] == t[1..] + u;
      assert head + (Handles(t[1..]) + Handles(u)) == (head + Handles(t[1..])) + Handles(u);
    }
  }

  /** Table entries with the reassembler states their slots embed. */
  function Zip(t: seq<Entry<()>>, bodies: seq<R.State>): (r: seq<Entry<R.State>>)
    requires |t| == |bodies|
    ensures |r| == |t| && forall i :: 0 <= i < |t| ==> r[i] == Entry(t[i].inUse, t[i].handle, bodies[i])
  {
    seq(|t|, i requires 0 <= i < |t| => Entry(t[i].inUse, t[i].handle, bodies[i]))
  }

  lemma ZipFind(t: seq<Entry<()>>, bodies: seq<R.State>, h: Handle)
    requires |t| == |bodies|
    ensures Find(Zip(t, bodies), h) == Find(t, h) && FirstFree(Zip(t, bodies)) == FirstFree(t)
  {
    CoupledSearch(t, Zip(t, bodies), h);
  }

  lemma ZipAdd(t: seq<Entry<()>>, bodies: seq<R.State>, h: Handle)
    requires |t| == |bodies|
    ensures var i := FirstFree(t);
            var added := if i < |t| then Zip(t[i := Entry(true, h, ())], bodies[i := R.Sync]) else Zip(t, bodies);
            Add(Zip(t, bodies), h, R.Sync) == added
  {
    ZipFind(t, bodies, h);
  }

  lemma ZipRemove(t: seq<Entry<()>>, bodies: seq<R.State>, h: Handle)
    requires |t| == |bodies|
    ensures Remove(Zip(t, bodies), h) == Zip(Remove(t, h), bodies)
  {
    ZipFind(t, bodies, h);
  }

  lemma ZipFed(t: seq<Entry<()>>, bodies: seq<R.State>, h: Handle, data: seq<byte>)
    requires |t| == |bodies|
    ensures var i := Find(t, h);
            && Fed(Zip(t, bodies), h, data)
               == (if i < |t| then Zip(t, bodies[i := Final(R.Step, bodies[i], data)]) else Zip(t, bodies))
            && Completed(Zip(t, bodies), h, data) == (if i < |t| then R.Frames(Emitted(R.Step, bodies[i], data)) else [])
  {
    hide R.Step;
    ZipFind(t, bodies, h);
  }

  method NewReassemblers(n: nat) returns (rs: seq<R.Reassembler>)
    ensures |rs| == n
    ensures forall j :: 0 <= j < n ==> fresh(rs[j]) && fresh(rs[j].frame) && rs[j].Valid() && rs[j].Abs() == R.Sync
    ensures forall j, k :: 0 <= j < k < n ==> rs[j] != rs[k] && rs[j].frame != rs[k].frame
  {
    rs := [];
    for i := 0 to n
      invariant |rs| == i
      invariant forall j :: 0 <= j < i ==> fresh(rs[j]) && fresh(rs[j].frame) && rs[j].Valid() && rs[j].Abs() == R.Sync
      invariant forall j, k :: 0 <= j < k < i ==> rs[j] != rs[k] && rs[j].frame != rs[k].frame
    {
      var r := new R.Reassembler();
      rs := rs + [r];
    }
  }

  class ApBridge {
    const conns: array<Entry<()>>
    const slots: array<Entry<()>>
    /** The reassembler embedded in each slot. */
    const reasm: seq<R.Reassembler>
    var controller: Handle
    var pending: Handle
    var sessionId: nat
    /** Calls made to the link (`al1_link_send` on AP_CTRL) and to `al1_ble_notify_conn`, in order. */
    var log: seq<Action>

    /** The reassemblers and their frame buffers. */
    ghost function Heap(): (h: set<object>)
      ensures forall i :: 0 <= i < |reasm| ==> reasm[i] in h && reasm[i].frame in h
    {
      assert forall i :: 0 <= i < |reasm| ==> reasm[i] as object in (set j | 0 <= j < |reasm| :: reasm[j] as object);
      (set i | 0 <= i < |reasm| :: reasm[i] as object) + (set i | 0 <= i < |reasm| :: reasm[i].frame as object)
    }

    ghost predicate Valid()
      reads Heap()
    {
      && this !in Heap() && conns !in Heap() && slots !in Heap()
      && conns.Length == slots.Length == |reasm| && conns != slots
      && (forall i :: 0 <= i < |reasm| ==> reasm[i].Valid())
      && (forall i, j :: 0 <= i < j < |reasm| ==> reasm[i] != reasm[j] && reasm[i].frame != reasm[j].frame)
    }

    ghost function Bodies(): (r: seq<R.State>)
      requires Valid()
      reads Heap()
      ensures |r| == |reasm| && forall i :: 0 <= i < |reasm| ==> r[i] == reasm[i].Abs()
    {
      seq(|reasm|, i requires 0 <= i < |reasm| && Valid() reads Heap() => reasm[i].Abs())
    }

    ghost function Slots(): seq<Entry<R.State>>
      requires Valid()
      reads slots, Heap()
    {
      Zip(slots[..], Bodies())
    }

    ghost function Sess(): Session
      reads this
    {
      Session(controller, pending, sessionId)
    }

    ghost function Abs(): State
      requires Valid()
      reads this, conns, slots, Heap()
    {
      State(conns[..], Slots(), Sess())
    }

    constructor (maxConn: nat)
      ensures Valid() && fresh(conns) && fresh(slots) && Abs() == Start(maxConn) && log == []
      ensures forall i :: 0 <= i < |reasm| ==> fresh(reasm[i]) && fresh(reasm[i].frame)
    {
      controller, pending, sessionId := CONN_NONE, CONN_NONE, 0;
      log := [];
      var rs := NewReassemblers(maxConn);
      reasm := rs;
      conns := new Entry<()>[maxConn](_ => Entry(false, 0, ()));
      slots := new Entry<()>[maxConn](_ => Entry(false, 0, ()));
    }

    method ConnAdd(h: Handle)
      requires Valid()
      modifies conns
      ensures conns[..] == Add(old(conns[..]), h, ())
    {
      for i := 0 to conns.Length
        invariant conns[..] == old(conns[..])
        invariant forall j :: 0 <= j < i ==> conns[j].inUse
      {
        if !conns[i].inUse {
          conns[i] := Entry(true, h, ());
          return;
        }
      }
    }

    method ConnRemove(h: Handle)
      requires Valid()
      modifies conns
      ensures conns[..] == Remove(old(conns[..]), h)
    {
      for i := 0 to conns.Length
        invariant conns[..] == old(conns[..])
        invariant forall j :: 0 <= j < i ==> !(conns[j].inUse && conns[j].handle == h)
      {
        if conns[i].inUse && conns[i].handle == h {
          conns[i] := conns[i].(inUse := false);
          return;
        }
      }
    }

    method SlotFind(h: Handle) returns (i: nat)
      ensures i == Find(slots[..], h)
    {
      i := 0;
      while i < slots.Length
        invariant i <= slots.Length
        invariant forall j :: 0 <= j < i ==> !(slots[j].inUse && slots[j].handle == h)
      {
        if slots[i].inUse && slots[i].handle == h {
          return;
        }
        i := i + 1;
      }
    }

    method ClearBinding()
      modifies this`controller, this`sessionId
      ensures Sess() == Unbound(old(Sess()))
    {
      controller, sessionId := CONN_NONE, 0;
    }

    method ForwardToStm32(origin: Handle, frame: seq<byte>)
      modifies this`log
      ensures log == old(log) + [Forward(origin, frame)]
    {
      log := log + [Forward(origin, frame)];
    }

    method NotifyConn(h: Handle, data: seq<byte>)
      modifies this`log
      ensures log == old(log) + [Notify(h, data)]
    {
      log := log + [Notify(h, data)];
    }

    method NotifyAll(data: seq<byte>) returns (dispatched: nat)
      modifies this`log
      ensures log == old(log) + NotifyEach(Handles(conns[..]), data)
      ensures dispatched == |Handles(conns[..])|
    {
      dispatched := 0;
      for i := 0 to conns.Length
        invariant log == old(log) + NotifyEach(Handles(conns[..i]), data)
        invariant dispatched == |Handles(conns[..i])|
      {
        assert conns[..i + 1] == conns[..i] + [conns[i]];
        HandlesConcat(conns[..i], [conns[i]]);
        NotifyEachConcat(Handles(conns[..i]), Handles([conns[i]]), data);
        if !conns[i].inUse {
          continue;
        }
        assert NotifyEach([conns[i].handle], data) == [Notify(conns[i].handle, data)];
        NotifyConn(conns[i].handle, data);
        dispatched := dispatched + 1;
      }
      assert conns[..conns.Length] == conns[..];
    }

    method RejectNotController(conn: Handle)
      modifies this`log
      ensures log == old(log) + [Notify(conn, Rejection())]
    {
      hide ApWire.Build;
      var buf := new byte[ApWire.MIN_PACKET + 1];
      var n := ApCodec.BuildError(buf, ApWire.ERR_NOT_CONTROLLER);
      if n > 0 {
        NotifyConn(conn, buf[..n]);
      }
    }

    /** Outbound policy for one whole frame. */
    method OnApFrame(conn: Handle, frame: seq<byte>)
      modifies this`controller, this`pending, this`sessionId, this`log
      ensures Sess() == SessionPolicy.Step(old(Sess()), FrameFrom(conn, frame)).0
      ensures log == old(log) + SessionPolicy.Step(old(Sess()), FrameFrom(conn, frame)).1
    {
      hide ApWire.Build, ApWire.RequiresClaim;
      var cmd := CmdOf(frame);
      if cmd == ApWire.CMD_CLAIM {
        pending := conn;
        ForwardToStm32(conn, frame);
        return;
      }
      if conn == controller {
        ForwardToStm32(conn, frame);
        if cmd == ApWire.CMD_RELEASE {
          ClearBinding();
        }
        return;
      }
      if ApWire.RequiresClaim(cmd) {
        RejectNotController(conn);
        return;
      }
      ForwardToStm32(conn, frame);
    }

    /** Takes the first free slot for `h`; the table size when there is none. */
    method TakeSlot(h: Handle) returns (i: nat)
      modifies slots
      ensures i == FirstFree(old(slots[..])) <= slots.Length
      ensures slots[..] == if i < slots.Length then old(slots[..])[i := Entry(true, h, ())] else old(slots[..])
    {
      i := 0;
      while i < slots.Length
        invariant i <= slots.Length && slots[..] == old(slots[..])
        invariant forall j :: 0 <= j < i ==> slots[j].inUse
      {
        if !slots[i].inUse {
          slots[i] := Entry(true, h, ());
          return;
        }
        i := i + 1;
      }
    }

    method OnConnected(h: Handle)
      requires Valid()
      modifies slots, Heap()
      ensures Valid() && Slots() == Add(old(Slots()), h, R.Sync)
    {
      hide Zip, Add, FirstFree;
      ZipAdd(slots[..], Bodies(), h);
      var i := TakeSlot(h);
      if i < slots.Length {
        InitSlot(i);
      }
    }

    method InitSlot(i: nat)
      requires Valid() && i < |reasm|
      modifies reasm[i]
      ensures Valid() && Bodies() == old(Bodies())[i := R.Sync]
    {
      reasm[i].Init();
    }

    method MarkFree(h: Handle)
      modifies slots
      ensures slots[..] == Remove(old(slots[..]), h)
    {
      var i := SlotFind(h);
      if i < slots.Length {
        slots[i] := slots[i].(inUse := false);
      }
    }

    method FreeSlot(h: Handle)
      requires Valid()
      modifies slots
      ensures Valid() && Slots() == Remove(old(Slots()), h)
    {
      hide Remove, Zip;
      ZipRemove(slots[..], Bodies(), h);
      MarkFree(h);
    }

    method OnDisconnected(h: Handle)
      requires Valid()
      modifies this`controller, this`pending, this`sessionId, this`log, slots
      ensures Valid() && Slots() == Remove(old(Slots()), h)
      ensures Sess() == SessionPolicy.Step(old(Sess()), Dropped(h)).0
      ensures log == old(log) + SessionPolicy.Step(old(Sess()), Dropped(h)).1
    {
      hide SessionPolicy.Step, Zip, Find;
      FreeSlot(h);
      DropSession(h);
    }

    method DropSession(h: Handle)
      modifies this`controller, this`pending, this`sessionId, this`log
      ensures Sess() == SessionPolicy.Step(old(Sess()), Dropped(h)).0
      ensures log == old(log) + SessionPolicy.Step(old(Sess()), Dropped(h)).1
    {
      hide ApWire.Build;
      if h == pending {
        pending := CONN_NONE;
      }
      if h == controller {
        var buf := new byte[ApWire.MIN_PACKET];
        assert buf[3..3] == [];
        var n := ApCodec.BuildPacket(buf, ApWire.CMD_RELEASE, null, 0);
        if n > 0 {
          ForwardToStm32(h, buf[..n]);
        }
        ClearBinding();
      }
    }

    /** BLE connect event: registry first, then the bridge's slot. */
    method GapConnect(h: Handle)
      requires Valid()
      modifies this, conns, slots, Heap()
      ensures Valid() && Abs() == Bridge.Step(old(Abs()), Connect(h)).0
      ensures log == old(log) + Expand(conns[..], Bridge.Step(old(Abs()), Connect(h)).1)
    {
      hide SessionPolicy.Step, FirstFree, Zip;
      ConnAdd(h);
      OnConnected(h);
    }

    /** BLE disconnect event: registry first, then slot and session. */
    method GapDisconnect(h: Handle)
      requires Valid()
      modifies this, conns, slots
      ensures Valid() && Abs() == Bridge.Step(old(Abs()), Disconnect(h)).0
      ensures log == old(log) + Expand(conns[..], Bridge.Step(old(Abs()), Disconnect(h)).1)
    {
      hide Find, Zip;
      ghost var s := Abs();
      RunOne(SessionPolicy.Step, s.sess, Dropped(h));
      ConnRemove(h);
      OnDisconnected(h);
      ExpandPlain(conns[..], SessionPolicy.Step(s.sess, Dropped(h)).1);
    }

    /** One byte through the reassembler of slot `i`. */
    method FeedReasm(i: nat, b: byte) returns (done: bool, frame: seq<byte>)
      requires Valid() && i < |reasm|
      modifies reasm[i], reasm[i].frame
      ensures Valid() && Bodies() == old(Bodies())[i := R.Step(old(reasm[i].Abs()), b).0]
      ensures R.Frames(R.Step(old(reasm[i].Abs()), b).1) == if done then [frame] else []
    {
      hide R.Step;
      AtMostOne(reasm[i].Abs(), b);
      R.EventsOne(R.Step(reasm[i].Abs(), b).1);
      done := reasm[i].FeedByte(b);
      frame := if done then reasm[i].frame[..reasm[i].idx] else [];
    }

    /** One byte through slot `i`; the frame callback runs as soon as a frame is whole. */
    method FeedSlotByte(i: nat, h: Handle, b: byte)
      requires Valid() && i < |reasm|
      modifies this`controller, this`pending, this`sessionId, this`log, reasm[i], reasm[i].frame
      ensures Valid() && Bodies() == old(Bodies())[i := R.Step(old(reasm[i].Abs()), b).0]
      ensures var es := FramesFrom(h, R.Frames(R.Step(old(reasm[i].Abs()), b).1));
              && Sess() == Final(SessionPolicy.Step, old(Sess()), es)
              && log == old(log) + Emitted(SessionPolicy.Step, old(Sess()), es)
    {
      hide R.Step, SessionPolicy.Step, R.Frames;
      var done, frame := FeedReasm(i, b);
      if done {
        FramesFromOne(h, frame);
        RunOne(SessionPolicy.Step, Sess(), FrameFrom(h, frame));
        OnApFrame(h, frame);
      }
    }

    method FeedSlot(i: nat, h: Handle, data: seq<byte>)
      requires Valid() && i < |reasm|
      modifies this`controller, this`pending, this`sessionId, this`log, reasm[i], reasm[i].frame
      ensures Valid() && Bodies() == old(Bodies()[i := Final(R.Step, reasm[i].Abs(), data)])
      ensures Sess() == Final(SessionPolicy.Step, old(Sess()), Seen(h, old(reasm[i].Abs()), data))
      ensures log == old(log) + Emitted(SessionPolicy.Step, old(Sess()), Seen(h, old(reasm[i].Abs()), data))
    {
      hide R.Step, SessionPolicy.Step, Final, Emitted, Seen;
      ghost var bodies, body, sess := Bodies(), reasm[i].Abs(), Sess();
      SeenNone(h, body, sess);
      assert data[..0] == [];
      for k := 0 to |data|
        invariant Valid() && Bodies() == bodies[i := Final(R.Step, body, data[..k])]
        invariant Sess() == Final(SessionPolicy.Step, sess, Seen(h, body, data[..k]))
        invariant log == old(log) + Emitted(SessionPolicy.Step, sess, Seen(h, body, data[..k]))
      {
        assert data[..k + 1] == data[..k] + [data[k]];
        assert reasm[i].Abs() == Bodies()[i];
        SeenSnoc(h, body, sess, data[..k], data[k]);
        FeedSlotByte(i, h, data[k]);
      }
      assert data[..|data|] == data;
    }

    /** Feeds the slot that tracks `h`. */
    method FeedTracked(i: nat, h: Handle, data: seq<byte>)
      requires Valid() && i == Find(slots[..], h) < |reasm|
      modifies this`controller, this`pending, this`sessionId, this`log, reasm[i], reasm[i].frame
      ensures Valid() && Slots() == Fed(old(Slots()), h, data)
      ensures Sess() == Final(SessionPolicy.Step, old(Sess()), FramesFrom(h, old(Completed(Slots(), h, data))))
      ensures log == old(log) + Emitted(SessionPolicy.Step, old(Sess()), FramesFrom(h, old(Completed(Slots(), h, data))))
    {
      hide SessionPolicy.Step, R.Step, Find, Zip, Fed, Completed, Final, Emitted, R.Frames, FramesFrom;
      ZipFed(slots[..], Bodies(), h, data);
      FeedSlot(i, h, data);
    }

    method WriteTracked(i: nat, h: Handle, data: seq<byte>)
      requires Valid() && i == Find(slots[..], h) < |reasm|
      modifies this`controller, this`pending, this`sessionId, this`log, reasm[i], reasm[i].frame
      ensures Valid() && Abs() == Bridge.Step(old(Abs()), Write(h, data)).0
      ensures log == old(log) + Expand(conns[..], Bridge.Step(old(Abs()), Write(h, data)).1)
    {
      ghost var table := conns[..];
      WriteStep(Abs(), h, data);
      ExpandFrames(table, Sess(), h, Completed(Slots(), h, data));
      hide SessionPolicy.Step, R.Step, Find, Zip, Expand, Final, Emitted, R.Frames, FramesFrom, Bridge.Step, Fed, Completed;
      FeedTracked(i, h, data);
      assert conns[..] == table;
    }

    /** BLE write: reassemble on the connection's slot; writes from untracked handles are dropped. */
    method OnBleWrite(h: Handle, data: seq<byte>)
      requires Valid()
      modifies this, Heap()
      ensures Valid() && Abs() == Bridge.Step(old(Abs()), Write(h, data)).0
      ensures log == old(log) + Expand(conns[..], Bridge.Step(old(Abs()), Write(h, data)).1)
    {
      hide Bridge.Step, Find, Zip, Expand;
      var i := SlotFind(h);
      if i == slots.Length {
        ZipFind(slots[..], Bodies(), h);
        WriteUntracked(Abs(), h, data);
      } else {
        assert reasm[i] in Heap() && reasm[i].frame in Heap();
        hide Heap, Bodies, Slots, Abs;
        WriteTracked(i, h, data);
      }
    }

    /** AP_CTRL frame from the STM32: bind, unbind and route. `buf` is the link parser's buffer, of
        which the first `len` bytes are the payload. */
    method RouteLinkAp(buf: array<byte>, len: nat)
      requires 5 <= buf.Length && len <= buf.Length
      modifies this`controller, this`pending, this`sessionId, this`log
      ensures Sess() == SessionPolicy.Step(old(Sess()), FromLink(buf[..len], Behind(buf[..], len))).0
      ensures log == old(log) + Expand(conns[..], SessionPolicy.Step(old(Sess()), FromLink(buf[..len], Behind(buf[..], len))).1)
    {
      hide Join;
      var cmd := if len > 2 then buf[2] else 0xFF;
      assert cmd == CmdOf(buf[..len]);
      if cmd == ApWire.CMD_OK && pending != CONN_NONE {
        var conn := pending;
        pending := CONN_NONE;
        controller := conn;
        var apLen := buf[1];
        if apLen >= 3 {
          sessionId := Join(buf[3], buf[4]);
          IdFromBuffer(buf[..], len);
        }
        NotifyConn(conn, buf[..len]);
        ExpandOne(conns[..], Notify(conn, buf[..len]));
        return;
      }
      if cmd == ApWire.CMD_EVT_SESSION_END {
        if controller != CONN_NONE {
          NotifyConn(controller, buf[..len]);
          ExpandOne(conns[..], Notify(controller, buf[..len]));
        }
        ClearBinding();
        return;
      }
      if controller != CONN_NONE {
        NotifyConn(controller, buf[..len]);
        ExpandOne(conns[..], Notify(controller, buf[..len]));
      } else {
        var _ := NotifyAll(buf[..len]);
        ExpandOne(conns[..], Broadcast(buf[..len]));
      }
    }

    method OnLinkAp(buf: array<byte>, len: nat)
      requires Valid()
      requires 5 <= buf.Length && len <= buf.Length
      modifies this
      ensures Valid() && Abs() == Bridge.Step(old(Abs()), LinkAp(buf[..len], Behind(buf[..], len))).0
      ensures log == old(log) + Expand(conns[..], Bridge.Step(old(Abs()), LinkAp(buf[..len], Behind(buf[..], len))).1)
    {
      hide SessionPolicy.Step, Zip, Find, Behind;
      RunOne(SessionPolicy.Step, Sess(), FromLink(buf[..len], Behind(buf[..], len)));
      RouteLinkAp(buf, len);
    }
  }

  /** What lies behind the payload in the receive buffer; the end of the buffer reads as zero, and
      no payload that long makes the bridge look there. */
  function Behind(buf: seq<byte>, len: nat): Tail
    requires len <= |buf|
  {
    Tail(if len < |buf| then buf[len] else 0, if len + 1 < |buf| then buf[len + 1] else 0)
  }

  lemma IdFromBuffer(buf: seq<byte>, len: nat)
    requires 3 <= len <= |buf| && 5 <= |buf|
    ensures IdCarried(buf[..len], Behind(buf, len)) == Join(buf[3], buf[4])
  {
    hide Join;
  }

  /** The policy events of feeding `data` to a reassembler in state `body`. */
  function Seen(h: Handle, body: R.State, data: seq<byte>): seq<SessionPolicy.Event>
  {
    FramesFrom(h, R.Frames(Emitted(R.Step, body, data)))
  }

  lemma WriteStep(s: State, h: Handle, data: seq<byte>)
    ensures Bridge.Step(s, Write(h, data)).0
         == State(s.conns, Fed(s.slots, h, data), Final(SessionPolicy.Step, s.sess, FramesFrom(h, Completed(s.slots, h, data))))
    ensures Bridge.Step(s, Write(h, data)).1 == Emitted(SessionPolicy.Step, s.sess, FramesFrom(h, Completed(s.slots, h, data)))
  {
  }

  lemma WriteUntracked(s: State, h: Handle, data: seq<byte>)
    requires Find(s.slots, h) == |s.slots|
    ensures Bridge.Step(s, Write(h, data)) == (s, [])
    ensures Expand(s.conns, []) == []
  {
    hide SessionPolicy.Step, R.Step, Find;
    assert SessionEvents(s, Write(h, data)) == [];
  }

  lemma SeenNone(h: Handle, body: R.State, sess: Session)
    ensures Final(R.Step, body, []) == body
    ensures Final(SessionPolicy.Step, sess, Seen(h, body, [])) == sess
    ensures Emitted(SessionPolicy.Step, sess, Seen(h, body, [])) == []
  {
  }

  lemma SeenSnoc(h: Handle, body: R.State, sess: Session, data: seq<byte>, b: byte)
    ensures var mid := Final(R.Step, body, data);
            var (s1, es) := (Final(SessionPolicy.Step, sess, Seen(h, body, data)), FramesFrom(h, R.Frames(R.Step(mid, b).1)));
            && Final(R.Step, body, data + [b]) == R.Step(mid, b).0
            && Final(SessionPolicy.Step, sess, Seen(h, body, data + [b])) == Final(SessionPolicy.Step, s1, es)
            && Emitted(SessionPolicy.Step, sess, Seen(h, body, data + [b]))
               == Emitted(SessionPolicy.Step, sess, Seen(h, body, data)) + Emitted(SessionPolicy.Step, s1, es)
  {
    hide R.Step, SessionPolicy.Step, R.Frames, FramesFrom;
    var seen, es := Emitted(R.Step, body, data), R.Step(Final(R.Step, body, data), b).1;
    RunSnoc(R.Step, body, data, b);
    R.EventsConcat(seen, es);
    FramesFromConcat(h, R.Frames(seen), R.Frames(es));
    RunConcat(SessionPolicy.Step, sess, Seen(h, body, data), FramesFrom(h, R.Frames(es)));
  }

  lemma AtMostOne(s: R.State, b: byte)
    ensures |R.Step(s, b).1| <= 1
  {
  }

  lemma FramesFromOne(h: Handle, f: seq<byte>)
    ensures FramesFrom(h, [f]) == [FrameFrom(h, f)]
  {
    assert [f][1..] == [];
  }

  lemma {:induction false} ExpandPlain(conns: seq<Entry<()>>, acts: seq<Action>)
    requires forall a :: a in acts ==> !a.Broadcast?
    ensures Expand(conns, acts) == acts
  {
    if acts != [] {
      ExpandPlain(conns, acts[1..]);
    }
  }

  lemma {:induction false} ExpandFrames(conns: seq<Entry<()>>, sess: Session, h: Handle, fs: seq<seq<byte>>)
    ensures var acts := Emitted(SessionPolicy.Step, sess, FramesFrom(h, fs));
            Expand(conns, acts) == acts
    decreases |fs|
  {
    if fs != [] {
      var (sess1, acts) := SessionPolicy.Step(sess, FrameFrom(h, fs[0]));
      assert FramesFrom(h, fs)[1..] == FramesFrom(h, fs[1..]);
      ExpandFrames(conns, sess1, h, fs[1..]);
      ExpandPlain(conns, acts);
      ExpandConcat(conns, acts, Emitted(SessionPolicy.Step, sess1, FramesFrom(h, fs[1..])));
    }
  }
}
