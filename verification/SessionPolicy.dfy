/** The single-session policy of the AP bridge (`al1_ble_ap_bridge.c`): who may drive the device,
    where replies go, and what happens when a controller goes away. */
module SessionPolicy {
  import opened Bytes
  import opened Machine
  import opened ApWire

  /** A BLE connection handle (16 bits). */
  type Handle = h: int | 0 <= h < 0x1_0000

  const CONN_NONE: Handle := 0xFFFF

  datatype Session = Session(controller: Handle, pending: Handle, sessionId: nat)

  const INIT := Session(CONN_NONE, CONN_NONE, 0)

  /** What reaches the policy: a reassembled frame, a lost connection, an AP_CTRL frame from the STM32. */
  datatype Event = FrameFrom(conn: Handle, frame: seq<byte>) | Dropped(conn: Handle) | FromLink(payload: seq<byte>, tail: Tail)

  /** The two bytes behind the payload in the receive buffer. The session id is read by LEN, so an
      OK shorter than it announces takes its id from there. */
  datatype Tail = Tail(first: byte, second: byte)

  /** What it does: send on AP_CTRL, notify one connection, notify all connections. */
  datatype Action =
    | Forward(origin: Handle, frame: seq<byte>)
    | Notify(target: Handle, data: seq<byte>)
    | Broadcast(data: seq<byte>)

  /** The CMD byte, or 0xFF when the frame is too short to have one. */
  function CmdOf(f: seq<byte>): byte
  {
    if |f| > 2 then f[2] else 0xFF
  }

  function Rejection(): seq<byte>
  {
    Build(CMD_ERROR, [ERR_NOT_CONTROLLER])
  }

  function ReleasePacket(): seq<byte>
  {
    Build(CMD_RELEASE, [])
  }

  function Unbound(s: Session): Session
  {
    s.(controller := CONN_NONE, sessionId := 0)
  }

  /** LEN announces a session id after CMD. */
  predicate CarriesId(payload: seq<byte>)
  {
    |payload| > 2 && payload[1] >= 3
  }

  /** The two bytes after CMD. */
  function IdCarried(payload: seq<byte>, tail: Tail): nat
    requires |payload| > 2
  {
    var bytes := payload + [tail.first, tail.second];
    Join(bytes[3], bytes[4])
  }

  function SessionIdOf(payload: seq<byte>, tail: Tail, old_: nat): nat
  {
    if CarriesId(payload) then IdCarried(payload, tail) else old_
  }

  function Step(s: Session, e: Event): (Session, seq<Action>)
  {
    match e
    case FrameFrom(conn, frame) =>
      var cmd := CmdOf(frame);
      if cmd == CMD_CLAIM then (s.(pending := conn), [Forward(conn, frame)])
      else if conn == s.controller then
        (if cmd == CMD_RELEASE then Unbound(s) else s, [Forward(conn, frame)])
      else if RequiresClaim(cmd) then (s, [Notify(conn, Rejection())])
      else (s, [Forward(conn, frame)])
    case Dropped(conn) =>
      var s1 := if conn == s.pending then s.(pending := CONN_NONE) else s;
      if conn == s.controller then (Unbound(s1), [Forward(conn, ReleasePacket())]) else (s1, [])
    case FromLink(payload, tail) =>
      var cmd := CmdOf(payload);
      if cmd == CMD_OK && s.pending != CONN_NONE then
        (Session(s.pending, CONN_NONE, SessionIdOf(payload, tail, s.sessionId)), [Notify(s.pending, payload)])
      else if cmd == CMD_EVT_SESSION_END then
        (Unbound(s), if s.controller != CONN_NONE then [Notify(s.controller, payload)] else [])
      else if s.controller != CONN_NONE then (s, [Notify(s.controller, payload)])
      else (s, [Broadcast(payload)])
  }

  /** State before the `k`th event of a history that starts unbound. */
  function At(es: seq<Event>, k: nat): Session
    requires k <= |es|
  {
    Final(Step, INIT, es[..k])
  }

  /** What the `k`th event makes the bridge do. */
  function Acts(es: seq<Event>, k: nat): seq<Action>
    requires k < |es|
  {
    Step(At(es, k), es[k]).1
  }

  lemma AtNext(es: seq<Event>, k: nat)
    requires k < |es|
    ensures At(es, k + 1) == Step(At(es, k), es[k]).0
  {
    hide Step;
    assert es[..k + 1] == es[..k] + [es[k]];
    RunSnoc(Step, INIT, es[..k], es[k]);
  }

  /** No event names the reserved handle. */
  predicate ProperEvent(e: Event)
  {
    match e
    case FrameFrom(conn, _) => conn != CONN_NONE
    case Dropped(conn) => conn != CONN_NONE
    case FromLink(_, _) => true
  }

  ghost predicate Proper(es: seq<Event>)
  {
    forall k :: 0 <= k < |es| ==> ProperEvent(es[k])
  }

  // ---- History: authority in terms of events alone ----

  predicate AnyClaim(e: Event)
  {
    e.FrameFrom? && CmdOf(e.frame) == CMD_CLAIM
  }

  predicate ClaimBy(e: Event, c: Handle)
  {
    AnyClaim(e) && e.conn == c
  }

  predicate IsOk(e: Event)
  {
    e.FromLink? && CmdOf(e.payload) == CMD_OK
  }

  predicate IsSessionEnd(e: Event)
  {
    e.FromLink? && CmdOf(e.payload) == CMD_EVT_SESSION_END
  }

  predicate ReleaseBy(e: Event, c: Handle)
  {
    e.FrameFrom? && e.conn == c && CmdOf(e.frame) == CMD_RELEASE
  }

  /** Connection `c` claimed at `m` and, up to `k`, nobody claimed after it, no OK came and `c` stayed. */
  ghost predicate ClaimedAt(es: seq<Event>, m: int, k: nat, c: Handle)
  {
    && 0 <= m < k <= |es|
    && ClaimBy(es[m], c)
    && forall n :: m < n < k ==> !AnyClaim(es[n]) && !IsOk(es[n]) && es[n] != Dropped(c)
  }

  ghost predicate HasPendingClaim(es: seq<Event>, k: nat, c: Handle)
  {
    exists m :: ClaimedAt(es, m, k, c)
  }

  ghost predicate SomeClaimPending(es: seq<Event>, k: nat)
  {
    exists c :: HasPendingClaim(es, k, c)
  }

  /** An OK at `j` answered the pending claim of `c`; since then `c` neither left nor released,
      no session end came and no other OK answered a pending claim. */
  ghost predicate GrantedAt(es: seq<Event>, j: int, k: nat, c: Handle)
  {
    && 0 <= j < k <= |es|
    && IsOk(es[j]) && HasPendingClaim(es, j, c)
    && forall n :: j < n < k ==>
         && es[n] != Dropped(c) && !ReleaseBy(es[n], c) && !IsSessionEnd(es[n])
         && !(IsOk(es[n]) && SomeClaimPending(es, n))
  }

  ghost predicate HoldsControl(es: seq<Event>, k: nat, c: Handle)
  {
    exists j :: GrantedAt(es, j, k, c)
  }

  lemma PendingNext(es: seq<Event>, k: nat, c: Handle)
    requires k < |es|
    ensures HasPendingClaim(es, k + 1, c) <==>
            if AnyClaim(es[k]) then ClaimBy(es[k], c)
            else !IsOk(es[k]) && es[k] != Dropped(c) && HasPendingClaim(es, k, c)
  {
    hide AnyClaim, IsOk;
    if HasPendingClaim(es, k + 1, c) {
      var m :| ClaimedAt(es, m, k + 1, c);
      if m < k {
        assert ClaimedAt(es, m, k, c);
      }
    }
    if AnyClaim(es[k]) {
      if ClaimBy(es[k], c) {
        assert ClaimedAt(es, k, k + 1, c);
      }
    } else if !IsOk(es[k]) && es[k] != Dropped(c) && HasPendingClaim(es, k, c) {
      var m :| ClaimedAt(es, m, k, c);
      assert ClaimedAt(es, m, k + 1, c);
    }
  }

  lemma ControlNext(es: seq<Event>, k: nat, c: Handle)
    requires k < |es|
    ensures HoldsControl(es, k + 1, c) <==>
            if IsOk(es[k]) && SomeClaimPending(es, k) then HasPendingClaim(es, k, c)
            else es[k] != Dropped(c) && !ReleaseBy(es[k], c) && !IsSessionEnd(es[k]) && HoldsControl(es, k, c)
  {
    hide IsOk, ReleaseBy, IsSessionEnd, HasPendingClaim, SomeClaimPending;
    if HoldsControl(es, k + 1, c) {
      var j :| GrantedAt(es, j, k + 1, c);
      if j < k {
        assert GrantedAt(es, j, k, c);
      } else {
        OneIsSome(es, k, c);
      }
    }
    if IsOk(es[k]) && SomeClaimPending(es, k) {
      if HasPendingClaim(es, k, c) {
        OkIsNothingElse(es[k], c);
        assert GrantedAt(es, k, k + 1, c);
      }
    } else if es[k] != Dropped(c) && !ReleaseBy(es[k], c) && !IsSessionEnd(es[k]) && HoldsControl(es, k, c) {
      var j :| GrantedAt(es, j, k, c);
      assert GrantedAt(es, j, k + 1, c);
    }
  }

  lemma OneIsSome(es: seq<Event>, k: nat, c: Handle)
    requires HasPendingClaim(es, k, c)
    ensures SomeClaimPending(es, k)
  {
  }

  lemma OkIsNothingElse(e: Event, c: Handle)
    requires IsOk(e)
    ensures e != Dropped(c) && !ReleaseBy(e, c) && !IsSessionEnd(e)
  {
  }

  lemma NothingYet(es: seq<Event>, c: Handle)
    requires c != CONN_NONE
    ensures At(es, 0) == INIT && !HasPendingClaim(es, 0, c) && !HoldsControl(es, 0, c)
  {
    assert es[..0] == [];
  }

  lemma PendingKnown(es: seq<Event>, k: nat)
    requires Proper(es) && k <= |es|
    ensures At(es, k).pending != CONN_NONE <==> SomeClaimPending(es, k)
  {
    hide HasPendingClaim, Step;
    if At(es, k).pending != CONN_NONE {
      PendingField(es, k, At(es, k).pending);
      OneIsSome(es, k, At(es, k).pending);
    }
    if SomeClaimPending(es, k) {
      var d :| HasPendingClaim(es, k, d);
      ClaimantProper(es, k, d);
      PendingField(es, k, d);
    }
  }

  lemma ClaimantProper(es: seq<Event>, k: nat, d: Handle)
    requires Proper(es) && k <= |es| && HasPendingClaim(es, k, d)
    ensures d != CONN_NONE
  {
    var m :| ClaimedAt(es, m, k, d);
  }

  lemma {:induction false} PendingField(es: seq<Event>, k: nat, c: Handle)
    requires Proper(es) && k <= |es| && c != CONN_NONE
    ensures At(es, k).pending == c <==> HasPendingClaim(es, k, c)
  {
    hide HasPendingClaim, Step, IsOk, AnyClaim, ClaimBy;
    if k == 0 {
      NothingYet(es, c);
    } else {
      PendingField(es, k - 1, c);
      AtNext(es, k - 1);
      PendingNext(es, k - 1, c);
      FieldStep(At(es, k - 1), es[k - 1], c);
    }
  }

  lemma FieldStep(s: Session, e: Event, c: Handle)
    requires ProperEvent(e) && c != CONN_NONE
    ensures var t := Step(s, e).0;
            && (t.pending == c <==> if AnyClaim(e) then ClaimBy(e, c)
                                    else !(IsOk(e) && s.pending != CONN_NONE) && e != Dropped(c) && s.pending == c)
            && (t.controller == c <==> if IsOk(e) && s.pending != CONN_NONE then s.pending == c
                                       else e != Dropped(c) && !ReleaseBy(e, c) && !IsSessionEnd(e) && s.controller == c)
  {
  }

  /** The bridge's fields are exactly the history: the pending field names the one connection with
      an unanswered latest claim, the controller field the one connection that holds control. */
  lemma {:induction false} FieldsAreHistory(es: seq<Event>, k: nat, c: Handle)
    requires Proper(es) && k <= |es| && c != CONN_NONE
    ensures At(es, k).pending == c <==> HasPendingClaim(es, k, c)
    ensures At(es, k).controller == c <==> HoldsControl(es, k, c)
  {
    hide HasPendingClaim, HoldsControl, Step, IsOk, AnyClaim, ClaimBy, ReleaseBy, IsSessionEnd;
    PendingField(es, k, c);
    if k == 0 {
      NothingYet(es, c);
    } else {
      FieldsAreHistory(es, k - 1, c);
      PendingKnown(es, k - 1);
      AtNext(es, k - 1);
      ControlNext(es, k - 1, c);
      FieldStep(At(es, k - 1), es[k - 1], c);
    }
  }
}
