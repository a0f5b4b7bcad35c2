/** When a send is accepted and when its frame leaves, told from the calls alone: sends, their
    allocations and the turns of the transmit task. */
module LinkProgress {
  import opened Bytes
  import opened Machine
  import opened LinkFrame
  import opened LinkTx

  /** A send the link can carry: up to 4096 bytes, its buffer allocated, no NULL payload with a length. */
  predicate Carriable(e: Input)
  {
    e.Send? && e.malloc && match e.payload { case Null(len) => len == 0 case Data(bytes) => |bytes| <= 4096 }
  }

  /** Frames waiting before input `k`: a carriable send joins unless 32 wait already, a turn of the
      transmit task takes one away. */
  function Depth(es: seq<Input>, k: nat): nat
    requires k <= |es|
  {
    if k == 0 then 0
    else
      var d := Depth(es, k - 1);
      match es[k - 1]
      case Transmit => if d > 0 then d - 1 else 0
      case Send(_, _, _) => if Carriable(es[k - 1]) && d < 32 then d + 1 else d
  }

  predicate Fits(es: seq<Input>, k: nat)
    requires k < |es|
  {
    Carriable(es[k]) && Depth(es, k) < 32
  }

  lemma CarriableOutcome(s: LinkTx.State, ch: byte, p: LinkTx.Payload, malloc: bool)
    ensures Outcome(s, p, malloc) == ESP_OK <==> Carriable(Send(ch, p, malloc)) && |s.queue| < 32
    ensures Carriable(Send(ch, p, malloc)) ==> Numbered(Send(ch, p, malloc))
  {
  }

  lemma DepthStep(s: LinkTx.State, e: Input)
    ensures |TxStep(s, e).0.queue| == match e
                                      case Transmit => if |s.queue| > 0 then |s.queue| - 1 else 0
                                      case Send(_, _, _) => if Carriable(e) && |s.queue| < 32 then |s.queue| + 1 else |s.queue|
    ensures |TxStep(s, e).1| == if e.Transmit? && |s.queue| > 0 then 1 else 0
    ensures TxStep(s, e).0.drops == s.drops + if e.Send? && !(Carriable(e) && |s.queue| < 32) then 1 else 0
  {
    hide SeqByte;
    if e.Send? {
      CarriableOutcome(s, e.channel, e.payload, e.malloc);
    }
  }

  /** Sends the link refused among the first `k` inputs. */
  function Refused(es: seq<Input>, k: nat): nat
    requires k <= |es|
  {
    if k == 0 then 0 else Refused(es, k - 1) + if es[k - 1].Send? && !Fits(es, k - 1) then 1 else 0
  }

  /** Turns among the first `k` inputs that found a frame waiting. */
  function Departures(es: seq<Input>, k: nat): nat
    requires k <= |es|
  {
    if k == 0 then 0 else Departures(es, k - 1) + if es[k - 1].Transmit? && Depth(es, k - 1) > 0 then 1 else 0
  }

  /** Queue length, drop counter and wire are what the calls say: every carriable send below the
      bound joins, every other one is counted as a drop, and every turn that finds a frame puts
      exactly one on the wire. */
  lemma {:induction false} QueueFollowsCalls(es: seq<Input>, k: nat)
    requires k <= |es|
    ensures |At(es, k).queue| == Depth(es, k) && At(es, k).drops == Refused(es, k)
    ensures |WireFrames(es[..k])| == Departures(es, k)
  {
    hide TxStep, Carriable;
    if k == 0 {
      assert es[..0] == [];
    } else {
      QueueFollowsCalls(es, k - 1);
      AtNext(es, k - 1);
      DepthStep(At(es, k - 1), es[k - 1]);
    }
  }

  /** What a call of `al1_link_send` returns, from the calls before it. */
  lemma ResultFollowsCalls(es: seq<Input>, k: nat)
    requires k < |es| && es[k].Send?
    ensures var r := Outcome(At(es, k), es[k].payload, es[k].malloc);
            var len := match es[k].payload { case Null(n) => n case Data(bytes) => |bytes| };
            && (len > 4096 ==> r == ESP_ERR_INVALID_SIZE)
            && (len <= 4096 && !es[k].malloc ==> r == ESP_ERR_NO_MEM)
            && (len <= 4096 && es[k].malloc && es[k].payload.Null? && len > 0 ==> r == ESP_FAIL)
            && (Carriable(es[k]) && Depth(es, k) >= 32 ==> r == ESP_ERR_NO_MEM)
            && (r == ESP_OK <==> Carriable(es[k]) && Depth(es, k) < 32)
    ensures Queues(es, k) <==> Carriable(es[k]) && Depth(es, k) < 32
  {
    hide TxStep, At;
    QueueFollowsCalls(es, k);
    CarriableOutcome(At(es, k), es[k].channel, es[k].payload, es[k].malloc);
  }

  /** Sends on `ch` among the first `k` inputs whose buffer was allocated for at most 4096 bytes. */
  function Allocated(es: seq<Input>, k: nat, ch: byte): nat
    requires k <= |es|
  {
    if k == 0 then 0
    else
      var e := es[k - 1];
      Allocated(es, k - 1, ch)
      + if e.Send? && e.channel == ch && e.malloc
           && (match e.payload { case Null(n) => n <= 4096 case Data(bytes) => |bytes| <= 4096 })
        then 1 else 0
  }

  lemma {:induction false} AllocatedAreNumbered(es: seq<Input>, k: nat, ch: byte)
    requires k <= |es|
    ensures NumberedBefore(es, k, ch as nat) == Allocated(es, k, ch)
  {
    if k > 0 {
      AllocatedAreNumbered(es, k - 1, ch);
      if es[k - 1].Send? {
        SameChannel(es[k - 1].channel, ch);
      }
    }
  }

  lemma SameChannel(a: byte, b: byte)
    ensures a as nat == b as nat <==> a == b
  {
    hide ToByte;
    CastBack(a);
    CastBack(b);
  }

  /** An accepted send appends one frame with its channel and bytes, numbered by the earlier
      allocated sends on that channel modulo 256; any other send leaves the queue alone. */
  lemma SendAppends(es: seq<Input>, k: nat)
    requires k < |es| && es[k].Send?
    ensures Carriable(es[k]) && Depth(es, k) < 32 ==>
              && |At(es, k + 1).queue| == |At(es, k).queue| + 1 && At(es, k).queue <= At(es, k + 1).queue
              && var f := At(es, k + 1).queue[|At(es, k).queue|];
                 && f.channel == es[k].channel
                 && f.payload == (if es[k].payload.Null? then [] else es[k].payload.bytes)
                 && f.seqNo as nat == Allocated(es, k, es[k].channel) % 256
    ensures !(Carriable(es[k]) && Depth(es, k) < 32) ==> At(es, k + 1).queue == At(es, k).queue
  {
    hide At, Carriable, SeqByte, Allocated, NumberedBefore;
    ResultFollowsCalls(es, k);
    AtNext(es, k);
    var ch := es[k].channel;
    UsedIsHistory(es, k, ch as nat);
    AllocatedAreNumbered(es, k, ch);
    SeqByteIs(Allocated(es, k, ch));
  }

  lemma SeqByteIs(n: nat)
    ensures SeqByte(n) as nat == n % 256
  {
    ByteRoundTrip(n % 256);
  }

  /** A turn of the transmit task follows every send. */
  ghost predicate TurnAfterEachSend(es: seq<Input>)
  {
    forall k :: 0 <= k < |es| - 1 && es[k].Send? ==> es[k + 1].Transmit?
  }

  lemma {:induction false} ShallowQueue(es: seq<Input>, k: nat)
    requires k <= |es| && TurnAfterEachSend(es)
    ensures Depth(es, k) <= 1
    ensures k < |es| && es[k].Send? ==> Depth(es, k) == 0
  {
    hide Carriable;
    if k > 0 {
      ShallowQueue(es, k - 1);
      if k < |es| && es[k - 1].Send? {
        assert es[(k - 1) + 1].Transmit?;
      }
    }
  }

  /** With a turn of the transmit task after each send no carriable send is ever dropped. */
  lemma PromptTurnsDropNothing(es: seq<Input>, k: nat)
    requires k < |es| && TurnAfterEachSend(es) && Carriable(es[k])
    ensures Outcome(At(es, k), es[k].payload, es[k].malloc) == ESP_OK
    ensures At(es, k + 1).drops == At(es, k).drops && |At(es, k + 1).queue| == 1
  {
    hide At, TxStep, Carriable, Outcome;
    assert es[k].Send? by { CarriableIsSend(es[k]); }
    ShallowQueue(es, k);
    ResultFollowsCalls(es, k);
    QueueFollowsCalls(es, k);
    QueueFollowsCalls(es, k + 1);
  }

  lemma CarriableIsSend(e: Input)
    requires Carriable(e)
    ensures e.Send?
  {
  }

  // ---- Progress ----

  lemma {:induction false} AcceptedCount(es: seq<Input>, k: nat)
    requires k <= |es|
    ensures |AcceptedBy(es, k)| == Departures(es, k) + Depth(es, k)
  {
    hide TxStep, At;
    QueueFollowsCalls(es, k);
    WireIsFifo(es, k);
  }

  /** A turn takes the wire one frame further, as long as one is accepted that is not yet on it. */
  lemma TurnProgress(es: seq<Input>, k: nat)
    requires k < |es| && es[k].Transmit?
    ensures var before, accepted := |WireFrames(es[..k])|, |AcceptedBy(es, k)|;
            |WireFrames(es[..k + 1])| == if before + 1 <= accepted then before + 1 else accepted
  {
    hide TxStep, AcceptedBy, WireFrames;
    QueueFollowsCalls(es, k);
    QueueFollowsCalls(es, k + 1);
    AcceptedCount(es, k);
  }

  /** Turns of the transmit task from input `lo` up to `hi`. */
  function Turns(es: seq<Input>, lo: nat, hi: nat): nat
    requires lo <= hi <= |es|
    decreases hi
  {
    if lo == hi then 0 else Turns(es, lo, hi - 1) + if es[hi - 1].Transmit? then 1 else 0
  }

  lemma {:induction false} TurnsDeliver(es: seq<Input>, k: nat, m: nat)
    requires k < m <= |es| && es[k].Send? && Fits(es, k)
    ensures var gone := Departures(es, m) - Departures(es, k);
            && gone <= Turns(es, k + 1, m)
            && (gone >= Turns(es, k + 1, m) || gone > Depth(es, k))
    decreases m
  {
    hide AcceptedBy;
    if m > k + 1 {
      TurnsDeliver(es, k, m - 1);
      AcceptedCount(es, k);
      AcceptedCount(es, k + 1);
      AcceptedCount(es, m - 1);
      AcceptedGrows(es, k + 1, m - 1);
    }
  }

  /** A send reaches the wire iff it is carriable, fewer than 32 frames wait when it is made, and
      after it the transmit task gets more turns than frames were waiting. */
  lemma TransmittedIff(es: seq<Input>, k: nat)
    requires k < |es|
    ensures Transmitted(es, k) <==> Carriable(es[k]) && Depth(es, k) < 32 && Turns(es, k + 1, |es|) > Depth(es, k)
  {
    hide AcceptedBy, WireFrames, Queues, TxStep, At, Outcome;
    if es[k].Send? {
      ResultFollowsCalls(es, k);
      AcceptedCount(es, k);
      assert es[..|es|] == es;
      QueueFollowsCalls(es, |es|);
      if Fits(es, k) {
        TurnsDeliver(es, k, |es|);
      }
    } else {
      NotASend(es, k);
    }
  }

  lemma NotASend(es: seq<Input>, k: nat)
    requires k < |es| && !es[k].Send?
    ensures !Queues(es, k) && !Carriable(es[k])
  {
  }
}
