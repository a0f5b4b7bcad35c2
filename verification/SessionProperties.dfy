/** What the session policy promises over every history of frames, drops and link replies. */
module SessionProperties {
  import opened Bytes
  import opened Machine
  import opened ApWire
  import opened SessionPolicy
  import P = ApCodec
  import Framing

  // ---- Every action is determined by the history ----

  /** Gating, both ways: a frame is forwarded verbatim unless its command needs a claim and its
      sender does not hold control; then the sender alone is told so. */
  lemma GateIsHistory(es: seq<Event>, k: nat)
    requires Proper(es) && k < |es| && es[k].FrameFrom?
    ensures Acts(es, k) == if RequiresClaim(CmdOf(es[k].frame)) && !HoldsControl(es, k, es[k].conn)
                           then [Notify(es[k].conn, Rejection())] else [Forward(es[k].conn, es[k].frame)]
  {
    hide HoldsControl, HasPendingClaim;
    assert ProperEvent(es[k]);
    FieldsAreHistory(es, k, es[k].conn);
  }

  /** The same by wire codes, for every history: exactly the power (0x10, 0x11), LED (0x20 to 0x23),
      effect (0x30) and settings-write (0x52) commands are turned away, and only from a sender that
      does not hold control; everything else is forwarded as it is. */
  lemma GateCodes(es: seq<Event>, k: nat)
    requires Proper(es) && k < |es| && es[k].FrameFrom?
    ensures var c, f := es[k].conn, es[k].frame;
            var gated := |f| > 2 && f[2] in {0x10, 0x11, 0x20, 0x21, 0x22, 0x23, 0x30, 0x52};
            && (Acts(es, k) == [Notify(c, Rejection())] <==> gated && !HoldsControl(es, k, c))
            && (Acts(es, k) == [Forward(c, f)] <==> !gated || HoldsControl(es, k, c))
  {
    hide HoldsControl, HasPendingClaim, Build, Acts;
    GateIsHistory(es, k);
  }

  /** A lost connection makes the bridge release the device iff it held control. */
  lemma DropIsHistory(es: seq<Event>, k: nat)
    requires Proper(es) && k < |es| && es[k].Dropped?
    ensures Acts(es, k) == if HoldsControl(es, k, es[k].conn) then [Forward(es[k].conn, ReleasePacket())] else []
  {
    hide HoldsControl, HasPendingClaim;
    assert ProperEvent(es[k]);
    FieldsAreHistory(es, k, es[k].conn);
  }

  ghost predicate NobodyHoldsControl(es: seq<Event>, k: nat)
  {
    forall c :: c != CONN_NONE ==> !HoldsControl(es, k, c)
  }

  /** Whom a link frame answers or concerns: the pending claimant for an OK, else whoever holds control. */
  ghost predicate ReplyFor(es: seq<Event>, k: nat, c: Handle)
    requires k < |es|
  {
    if IsOk(es[k]) && SomeClaimPending(es, k) then HasPendingClaim(es, k, c) else HoldsControl(es, k, c)
  }

  /** The whole answer to a link frame, over every history: one notification of that payload to whom it
      is for; if it is for nobody, nothing when it is a session end and one broadcast of it otherwise. */
  lemma RoutingIsHistory(es: seq<Event>, k: nat)
    requires Proper(es) && k < |es| && es[k].FromLink?
    ensures forall c :: c != CONN_NONE && ReplyFor(es, k, c) ==> Acts(es, k) == [Notify(c, es[k].payload)]
    ensures (forall c :: c != CONN_NONE ==> !ReplyFor(es, k, c)) ==>
              Acts(es, k) == if |es[k].payload| > 2 && es[k].payload[2] == 0x82 then [] else [Broadcast(es[k].payload)]
  {
    hide HoldsControl, HasPendingClaim, SomeClaimPending;
    PendingKnown(es, k);
    var s := At(es, k);
    forall c: Handle | c != CONN_NONE
      ensures ReplyFor(es, k, c) <==> c == if IsOk(es[k]) && s.pending != CONN_NONE then s.pending else s.controller
    {
      FieldsAreHistory(es, k, c);
    }
    var to := if IsOk(es[k]) && s.pending != CONN_NONE then s.pending else s.controller;
    if to != CONN_NONE {
      assert ReplyFor(es, k, to);
    }
  }

  /** Frames that arrive from connections are whole. */
  ghost predicate WholeFrames(es: seq<Event>)
  {
    forall k :: 0 <= k < |es| && es[k].FrameFrom? ==> IsFrame(es[k].frame)
  }

  lemma ReleaseNeedsNoClaim()
    ensures IsFrame(ReleasePacket()) && !RequiresClaim(CmdOf(ReleasePacket()))
    ensures Framing.Decode(ReleasePacket()) == P.Complete(CMD_RELEASE, [])
  {
    hide IsFrame;
    BuildIsFrame(CMD_RELEASE, []);
    Framing.BuildDecodes(CMD_RELEASE, []);
  }

  // ---- Conservation ----

  datatype Ledger = Ledger(bound: nat, released: nat, dropped: nat, ended: nat, rebound: nat)

  function One(b: bool): nat
  {
    if b then 1 else 0
  }

  /** How one event moves the session: bindings made, and the ways a binding ends. */
  function Entry(s: Session, e: Event): Ledger
  {
    var held := s.controller != CONN_NONE;
    var binds := IsOk(e) && s.pending != CONN_NONE;
    Ledger(One(binds), One(held && ReleaseBy(e, s.controller)), One(held && e == Dropped(s.controller)),
           One(held && IsSessionEnd(e)), One(held && binds))
  }

  function Books(s: Session, es: seq<Event>): Ledger
    decreases |es|
  {
    if es == [] then Ledger(0, 0, 0, 0, 0)
    else
      var x, y := Entry(s, es[0]), Books(Step(s, es[0]).0, es[1..]);
      Ledger(x.bound + y.bound, x.released + y.released, x.dropped + y.dropped, x.ended + y.ended, x.rebound + y.rebound)
  }

  /** RELEASE packets sent on AP_CTRL although no connection sent one. */
  function Synthesised(s: Session, es: seq<Event>): nat
    decreases |es|
  {
    if es == [] then 0
    else One(!es[0].FrameFrom? && Step(s, es[0]).1 == [Forward(s.controller, ReleasePacket())])
         + Synthesised(Step(s, es[0]).0, es[1..])
  }

  lemma EntryBalances(s: Session, e: Event)
    requires ProperEvent(e)
    ensures var x := Entry(s, e);
            && x.bound + One(s.controller != CONN_NONE)
               == x.released + x.dropped + x.ended + x.rebound + One(Step(s, e).0.controller != CONN_NONE)
            && x.dropped == One(!e.FrameFrom? && Step(s, e).1 == [Forward(s.controller, ReleasePacket())])
  {
    hide Build;
  }

  /** Every binding ends in exactly one way or is still there, and the bridge releases the device
      on its own exactly once for each controller that was lost. */
  lemma {:induction false} SessionsConserved(s: Session, es: seq<Event>)
    requires Proper(es)
    ensures var x := Books(s, es);
            && x.bound + One(s.controller != CONN_NONE)
               == x.released + x.dropped + x.ended + x.rebound + One(Final(Step, s, es).controller != CONN_NONE)
            && x.dropped == Synthesised(s, es)
    decreases |es|
  {
    hide Entry, Step, ReleasePacket;
    if es != [] {
      assert ProperEvent(es[0]);
      EntryBalances(s, es[0]);
      SessionsConserved(Step(s, es[0]).0, es[1..]);
    }
  }

  // ---- The session id ----

  lemma {:induction false} NoControllerNoSession(es: seq<Event>, k: nat)
    requires Proper(es) && k <= |es|
    ensures At(es, k).controller == CONN_NONE ==> At(es, k).sessionId == 0
  {
    if k == 0 {
      assert es[..0] == [];
    } else {
      NoControllerNoSession(es, k - 1);
      AtNext(es, k - 1);
      assert ProperEvent(es[k - 1]);
    }
  }

  // The session id is determined by the history of grants.

  /** An OK that answers a claim and carries a session id. */
  ghost predicate IdGrant(es: seq<Event>, n: int)
  {
    0 <= n < |es| && IsOk(es[n]) && SomeClaimPending(es, n) && CarriesId(es[n].payload)
  }

  /** A session end, or whoever held control released it or left. */
  ghost predicate Unbinds(es: seq<Event>, n: int)
  {
    0 <= n < |es| && (IsSessionEnd(es[n]) || exists c :: GivesUp(es, n, c))
  }

  ghost predicate GivesUp(es: seq<Event>, n: nat, c: Handle)
    requires n < |es|
  {
    HoldsControl(es, n, c) && (es[n] == Dropped(c) || ReleaseBy(es[n], c))
  }

  /** The latest id-carrying grant is `g`, and control has been handed on unbroken since. */
  ghost predicate IdFrom(es: seq<Event>, g: int, k: nat)
  {
    0 <= g < k <= |es| && IdGrant(es, g) && forall n :: g < n < k ==> !IdGrant(es, n) && !Unbinds(es, n)
  }

  ghost predicate SomeId(es: seq<Event>, k: nat)
  {
    exists g :: IdFrom(es, g, k)
  }

  lemma IdNext(es: seq<Event>, g: int, k: nat)
    requires k < |es|
    ensures IdFrom(es, g, k + 1) <==> if IdGrant(es, k) then g == k else !Unbinds(es, k) && IdFrom(es, g, k)
  {
    hide IdGrant, Unbinds;
  }

  lemma IdStep(s: Session, e: Event)
    requires ProperEvent(e)
    ensures var t := Step(s, e).0;
            t.sessionId == if IsOk(e) && s.pending != CONN_NONE then SessionIdOf(e.payload, e.tail, s.sessionId)
                           else if IsSessionEnd(e) then 0
                           else if s.controller != CONN_NONE && (e == Dropped(s.controller) || ReleaseBy(e, s.controller)) then 0
                           else s.sessionId
  {
    hide IdCarried;
  }

  lemma UnbindsKnown(es: seq<Event>, k: nat)
    requires Proper(es) && k < |es|
    ensures var c := At(es, k).controller;
            var givesUp := c != CONN_NONE && (es[k] == Dropped(c) || ReleaseBy(es[k], c));
            Unbinds(es, k) <==> IsSessionEnd(es[k]) || givesUp
  {
    hide HoldsControl, HasPendingClaim, Step;
    var c := At(es, k).controller;
    assert ProperEvent(es[k]);
    if c != CONN_NONE {
      FieldsAreHistory(es, k, c);
      if es[k] == Dropped(c) || ReleaseBy(es[k], c) {
        assert GivesUp(es, k, c);
      }
    }
    if Unbinds(es, k) && !IsSessionEnd(es[k]) {
      var d :| GivesUp(es, k, d);
      FieldsAreHistory(es, k, d);
    }
  }

  /** The session id is the one carried by the latest id-carrying grant, if control has been handed
      on unbroken since, and otherwise zero. */
  lemma {:induction false} SessionIdIsHistory(es: seq<Event>, k: nat)
    requires Proper(es) && k <= |es|
    ensures forall g :: IdFrom(es, g, k) ==> At(es, k).sessionId == IdCarried(es[g].payload, es[g].tail)
    ensures !SomeId(es, k) ==> At(es, k).sessionId == 0
  {
    hide IdGrant, Unbinds, IdFrom, IdCarried, Step, Proper;
    if k == 0 {
      NoIdYet(es);
    } else {
      SessionIdIsHistory(es, k - 1);
      forall g
        ensures IdFrom(es, g, k) <==> if IdGrant(es, k - 1) then g == k - 1 else !Unbinds(es, k - 1) && IdFrom(es, g, k - 1)
      {
        IdNext(es, g, k - 1);
      }
      IdAfter(es, k - 1);
      if IdGrant(es, k - 1) {
        assert IdFrom(es, k - 1, k);
      } else if SomeId(es, k - 1) && !Unbinds(es, k - 1) {
        var g :| IdFrom(es, g, k - 1);
        assert IdFrom(es, g, k);
      }
    }
  }

  /** How an OK that answers a claim sets the id, by its bytes: LEN at least 3 announces one, big-endian
      behind CMD, read on past the payload if that is shorter. */
  lemma GrantedId(es: seq<Event>, k: nat)
    requires Proper(es) && k < |es| && es[k].FromLink? && |es[k].payload| > 2 && es[k].payload[2] == 0xF0
    requires SomeClaimPending(es, k)
    ensures var bytes := es[k].payload + [es[k].tail.first, es[k].tail.second];
            var carried := bytes[3] as nat * 256 + bytes[4] as nat;
            At(es, k + 1).sessionId == if bytes[1] as nat >= 3 then carried else At(es, k).sessionId
  {
    hide SomeClaimPending, HasPendingClaim, Step;
    PendingKnown(es, k);
    AtNext(es, k);
    assert ProperEvent(es[k]);
    IdStep(At(es, k), es[k]);
    AtLeastThree(es[k].payload[1]);
  }

  lemma AtLeastThree(b: byte)
    ensures b >= 3 <==> b as nat >= 3
  {
  }

  lemma NoIdYet(es: seq<Event>)
    ensures !SomeId(es, 0) && At(es, 0).sessionId == 0
    ensures forall g :: !IdFrom(es, g, 0)
  {
    assert es[..0] == [];
  }

  lemma IdAfter(es: seq<Event>, k: nat)
    requires Proper(es) && k < |es|
    ensures IdGrant(es, k) ==> es[k].FromLink? && |es[k].payload| > 2
    ensures At(es, k + 1).sessionId == if IdGrant(es, k) then IdCarried(es[k].payload, es[k].tail)
                                       else if Unbinds(es, k) then 0 else At(es, k).sessionId
  {
    hide Unbinds, HoldsControl, HasPendingClaim, IdCarried, Step, SomeClaimPending;
    assert ProperEvent(es[k]);
    AtNext(es, k);
    IdStep(At(es, k), es[k]);
    PendingKnown(es, k);
    UnbindsKnown(es, k);
  }

  /** Nothing within a standing grant carries an id or unbinds. */
  lemma GrantKeepsId(es: seq<Event>, j: nat, k: nat, c: Handle, n: nat)
    requires Proper(es) && c != CONN_NONE && GrantedAt(es, j, k, c) && j <= n < k
    ensures !Unbinds(es, n) && (n > j ==> !IdGrant(es, n))
  {
    hide HasPendingClaim, SomeClaimPending, HoldsControl;
    UnbindsKnown(es, n);
    if n > j {
      assert GrantedAt(es, j, n, c);
      assert HoldsControl(es, n, c) by { Holding(es, j, n, c); }
      FieldsAreHistory(es, n, c);
    }
  }

  lemma Holding(es: seq<Event>, j: nat, k: nat, c: Handle)
    requires GrantedAt(es, j, k, c)
    ensures HoldsControl(es, k, c)
  {
  }

  /** While a grant stands its id is the one its OK carried, or, if that carried none, the one in
      force when the OK came. */
  lemma SessionIdOfGrant(es: seq<Event>, j: nat, k: nat, c: Handle, g: int)
    requires Proper(es) && c != CONN_NONE && GrantedAt(es, j, k, c)
    ensures IdFrom(es, g, k) <==> if CarriesId(es[j].payload) then g == j else IdFrom(es, g, j)
  {
    hide HasPendingClaim, GivesUp, HoldsControl;
    forall n | j <= n < k
      ensures !Unbinds(es, n) && (n > j ==> !IdGrant(es, n))
    {
      GrantKeepsId(es, j, k, c, n);
    }
    OneIsSome(es, j, c);
    assert IdGrant(es, j) <==> CarriesId(es[j].payload);
  }

  /** The id in force was carried by another grant than the one that stands. */
  ghost predicate Stale(es: seq<Event>, j: nat, k: nat)
  {
    exists g :: g != j && IdFrom(es, g, k)
  }

  /** The id is stale iff the OK of the standing grant carried none and one was in force when it came. */
  lemma StaleIff(es: seq<Event>, j: nat, k: nat, c: Handle)
    requires Proper(es) && c != CONN_NONE && GrantedAt(es, j, k, c)
    ensures Stale(es, j, k) <==> !CarriesId(es[j].payload) && SomeId(es, j)
  {
    hide IdFrom, HasPendingClaim;
    forall g
      ensures IdFrom(es, g, k) <==> if CarriesId(es[j].payload) then g == j else IdFrom(es, g, j)
    {
      SessionIdOfGrant(es, j, k, c, g);
    }
    assert !IdFrom(es, j, j) by { NotYet(es, j); }
    if SomeId(es, j) && !CarriesId(es[j].payload) {
      var g :| IdFrom(es, g, j);
      assert g != j && IdFrom(es, g, k);
    }
  }

  lemma NotYet(es: seq<Event>, j: nat)
    ensures !IdFrom(es, j, j)
  {
  }

  /** Such a run: an OK without an id hands control from one connection to another, and the former
      controller's id stays in place. */
  lemma StaleSessionId(a: Handle, b: Handle, crc: byte, tail: Tail)
    requires a != b && a != CONN_NONE && b != CONN_NONE
    ensures var es := [FrameFrom(a, Build(0x01, [])), FromLink([0xA5, 3, 0xF0, 0, 7, crc], tail),
                       FrameFrom(b, Build(0x01, [])), FromLink([0xA5, 1, 0xF0, crc], tail)];
            At(es, 4) == Session(b, CONN_NONE, 7)
  {
    hide Build, Join;
    var claim := Build(0x01, []);
    BuildIsFrame(0x01, []);
    SevenJoined();
    var es := [FrameFrom(a, claim), FromLink([0xA5, 3, 0xF0, 0, 7, crc], tail),
               FrameFrom(b, claim), FromLink([0xA5, 1, 0xF0, crc], tail)];
    AtNext(es, 0);
    AtNext(es, 1);
    AtNext(es, 2);
    AtNext(es, 3);
    assert es[..0] == [];
    assert At(es, 1) == Session(CONN_NONE, a, 0);
    assert At(es, 2) == Session(a, CONN_NONE, 7);
    assert At(es, 3) == Session(a, b, 7);
  }

  lemma SevenJoined()
    ensures Join(0, 7) == 7
  {
  }

  // ---- What binding does not mean ----

  /** Events that a pending claim of `c` survives: any frame that is no CLAIM, RELEASEs among them, the
      loss of another connection, and every link frame but an OK, session ends and ERRORs among them. */
  predicate LeavesPending(e: Event, c: Handle)
  {
    !AnyClaim(e) && !IsOk(e) && e != Dropped(c)
  }

  predicate IsError(e: Event)
  {
    e.FromLink? && CmdOf(e.payload) == CMD_ERROR
  }

  /** Neither a RELEASE nor a session end nor an ERROR withdraws a pending claim. */
  lemma PendingOutlivesSession(es: seq<Event>, k: nat, c: Handle)
    requires Proper(es) && k < |es| && c != CONN_NONE && HasPendingClaim(es, k, c)
    requires IsSessionEnd(es[k]) || ReleaseBy(es[k], c) || IsError(es[k])
    ensures HasPendingClaim(es, k + 1, c) && At(es, k + 1).pending == c
    ensures IsSessionEnd(es[k]) ==> At(es, k + 1).controller == CONN_NONE
  {
    hide HasPendingClaim, HoldsControl, Build;
    PendingNext(es, k, c);
    PendingField(es, k + 1, c);
    PendingField(es, k, c);
    AtNext(es, k);
  }

  lemma {:induction false} PendingWaits(es: seq<Event>, k: nat, m: nat, c: Handle)
    requires k <= m <= |es| && HasPendingClaim(es, k, c)
    requires forall n :: k <= n < m ==> LeavesPending(es[n], c)
    ensures HasPendingClaim(es, m, c)
    decreases m
  {
    hide HasPendingClaim, AnyClaim, IsOk;
    if k < m {
      PendingWaits(es, k, m - 1, c);
      PendingNext(es, m - 1, c);
    }
  }

  /** So a claim refused by an ERROR at `k` is still granted by the next OK, whatever that answers. */
  lemma RefusedClaimStillBinds(es: seq<Event>, k: nat, m: nat, c: Handle)
    requires Proper(es) && k < m < |es| && c != CONN_NONE && HasPendingClaim(es, k, c) && IsError(es[k])
    requires forall n :: k < n < m ==> LeavesPending(es[n], c)
    requires IsOk(es[m])
    ensures HoldsControl(es, m + 1, c) && At(es, m + 1).controller == c
  {
    hide HasPendingClaim, HoldsControl, Step;
    PendingWaits(es, k, m, c);
    OneIsSome(es, m, c);
    ControlNext(es, m, c);
    FieldsAreHistory(es, m + 1, c);
  }
}
