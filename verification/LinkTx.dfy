/** The outbound side of `al1_link.c`: sequence numbering, the bounded frame queue, the transmit
    task, and the accounting of frames and buffers. */
module LinkTx {
  import opened Bytes
  import opened Machine
  import opened LinkFrame
  import LinkProperties

  const QUEUE_LEN: nat := 32
  const SEQ_MODULUS: nat := 256

  /** What a caller passes as payload: a NULL pointer with a length, or bytes. */
  datatype Payload = Null(len: nat) | Data(bytes: seq<byte>)

  function Length(p: Payload): nat
  {
    if p.Null? then p.len else |p.bytes|
  }

  /** A call of `al1_link_send`, with the outcome of its allocation, or one turn of the transmit task. */
  datatype Input = Send(channel: byte, payload: Payload, malloc: bool) | Transmit

  /** `used` counts the sequence numbers taken on each channel; `allocs` and `frees` count frame buffers. */
  datatype State = State(used: map<nat, nat>, queue: seq<Frame>, frames: nat, drops: nat, allocs: nat, frees: nat)

  const IDLE := State(map[], [], 0, 0, 0, 0)

  function Used(m: map<nat, nat>, ch: nat): nat
  {
    if ch in m then m[ch] else 0
  }

  /** The 8-bit counter after `n` increments from zero. */
  function SeqByte(n: nat): byte
  {
    ToByte(n % SEQ_MODULUS)
  }

  lemma ModNext(n: nat)
    ensures (n % SEQ_MODULUS + 1) % SEQ_MODULUS == (n + 1) % SEQ_MODULUS
  {
  }

  datatype Result = ESP_OK | ESP_ERR_INVALID_SIZE | ESP_ERR_NO_MEM | ESP_FAIL | ESP_ERR_INVALID_STATE

  function Outcome(s: State, p: Payload, malloc: bool): Result
  {
    if Length(p) > MAX_PAYLOAD then ESP_ERR_INVALID_SIZE
    else if !malloc then ESP_ERR_NO_MEM
    else if p.Null? && p.len > 0 then ESP_FAIL
    else if |s.queue| >= QUEUE_LEN then ESP_ERR_NO_MEM
    else ESP_OK
  }

  /** A send takes a sequence number once its buffer is allocated, whether or not it is queued. */
  predicate Numbered(e: Input)
  {
    e.Send? && Length(e.payload) <= MAX_PAYLOAD && e.malloc
  }

  function BytesOf(p: Payload): seq<byte>
  {
    if p.Null? then [] else p.bytes
  }

  function TxStep(s: State, e: Input): (State, seq<Frame>)
  {
    match e
    case Transmit =>
      if s.queue == [] then (s, [])
      else (s.(queue := s.queue[1..], frames := s.frames + 1, frees := s.frees + 1), [s.queue[0]])
    case Send(ch, p, malloc) =>
      if !Numbered(e) then (s.(drops := s.drops + 1), [])
      else
        var n := Used(s.used, ch as nat);
        var s1 := s.(used := s.used[ch as nat := n + 1], allocs := s.allocs + 1);
        if Outcome(s, p, malloc) == ESP_OK then
          (s1.(queue := s.queue + [Frame(ch, SeqByte(n), BytesOf(p))]), [])
        else (s1.(drops := s.drops + 1, frees := s.frees + 1), [])
  }

  // ---- Accounting ----

  function Sends(es: seq<Input>): nat
  {
    if es == [] then 0 else (if es[0].Send? then 1 else 0) + Sends(es[1..])
  }

  predicate QueueOk(s: State)
  {
    && |s.queue| <= QUEUE_LEN
    && s.allocs == s.frees + |s.queue|
    && forall i :: 0 <= i < |s.queue| ==> |s.queue[i].payload| <= MAX_PAYLOAD
  }

  /** Every send is transmitted, queued or dropped; every live buffer is a queued one; the queue
      is bounded; everything on the wire fits the frame format. */
  lemma {:induction false} TransmitAccounted(s: State, es: seq<Input>)
    requires QueueOk(s)
    ensures var t := Final(TxStep, s, es);
            && QueueOk(t)
            && Sends(es) + s.frames + |s.queue| + s.drops == t.frames + |t.queue| + t.drops
            && |Emitted(TxStep, s, es)| == t.frames - s.frames
            && forall f :: f in Emitted(TxStep, s, es) ==> |f.payload| <= MAX_PAYLOAD
    decreases |es|
  {
    hide SeqByte;
    if es != [] {
      TransmitAccounted(TxStep(s, es[0]).0, es[1..]);
    }
  }

  // ---- Order and numbering ----

  /** State before input `k` of a run that starts idle. */
  function At(es: seq<Input>, k: nat): State
    requires k <= |es|
  {
    Final(TxStep, IDLE, es[..k])
  }

  lemma AtNext(es: seq<Input>, k: nat)
    requires k < |es|
    ensures At(es, k + 1) == TxStep(At(es, k), es[k]).0
    ensures Emitted(TxStep, IDLE, es[..k + 1]) == Emitted(TxStep, IDLE, es[..k]) + TxStep(At(es, k), es[k]).1
  {
    hide TxStep;
    assert es[..k + 1] == es[..k] + [es[k]];
    RunSnoc(TxStep, IDLE, es[..k], es[k]);
  }

  /** Input `k` put a frame on the queue. */
  predicate Queues(es: seq<Input>, k: nat)
    requires k < |es|
  {
    Numbered(es[k]) && Outcome(At(es, k), es[k].payload, es[k].malloc) == ESP_OK
  }

  /** The inputs below `k` that put a frame on the queue, in order. */
  function QueuedBy(es: seq<Input>, k: nat): seq<nat>
    requires k <= |es|
  {
    if k == 0 then [] else QueuedBy(es, k - 1) + (if Queues(es, k - 1) then [k - 1] else [])
  }

  /** `QueuedBy` lists each of them once, in order. */
  lemma {:induction false} QueuedByExact(es: seq<Input>, k: nat)
    requires k <= |es|
    ensures forall i :: 0 <= i < |QueuedBy(es, k)| ==> QueuedBy(es, k)[i] < k && Queues(es, QueuedBy(es, k)[i])
    ensures forall i, j :: 0 <= i < j < |QueuedBy(es, k)| ==> QueuedBy(es, k)[i] < QueuedBy(es, k)[j]
    ensures forall n :: 0 <= n < k && Queues(es, n) ==> n in QueuedBy(es, k)
  {
    hide Queues;
    if k > 0 {
      QueuedByExact(es, k - 1);
    }
  }

  /** Sends on `ch` among the first `k` inputs that took a sequence number. */
  function NumberedBefore(es: seq<Input>, k: nat, ch: nat): nat
    requires k <= |es|
  {
    if k == 0 then 0
    else NumberedBefore(es, k - 1, ch) + (if Numbered(es[k - 1]) && es[k - 1].channel as nat == ch then 1 else 0)
  }

  /** The frame input `k` queues: the caller's bytes, numbered by the earlier numbered sends on its channel. */
  function FrameOf(es: seq<Input>, k: nat): Frame
    requires k < |es| && Queues(es, k)
  {
    Frame(es[k].channel, SeqByte(NumberedBefore(es, k, es[k].channel as nat)), BytesOf(es[k].payload))
  }

  /** The frames put on the queue by the first `k` inputs. */
  function AcceptedBy(es: seq<Input>, k: nat): seq<Frame>
    requires k <= |es|
  {
    if k == 0 then [] else AcceptedBy(es, k - 1) + (if Queues(es, k - 1) then [FrameOf(es, k - 1)] else [])
  }

  lemma {:induction false} AcceptedIndex(es: seq<Input>, k: nat, i: nat)
    requires k <= |es| && i < |AcceptedBy(es, k)|
    ensures |AcceptedBy(es, k)| == |QueuedBy(es, k)|
    ensures var n := QueuedBy(es, k)[i]; n < k && Queues(es, n) && AcceptedBy(es, k)[i] == FrameOf(es, n)
  {
    hide Queues, FrameOf;
    if k > 0 {
      SameCount(es, k - 1);
      if i < |AcceptedBy(es, k - 1)| {
        AcceptedIndex(es, k - 1, i);
      }
    }
  }

  lemma {:induction false} SameCount(es: seq<Input>, k: nat)
    requires k <= |es|
    ensures |AcceptedBy(es, k)| == |QueuedBy(es, k)|
  {
    hide Queues, FrameOf;
    if k > 0 {
      SameCount(es, k - 1);
    }
  }

  lemma {:induction false} UsedIsHistory(es: seq<Input>, k: nat, ch: nat)
    requires k <= |es|
    ensures Used(At(es, k).used, ch) == NumberedBefore(es, k, ch)
  {
    if k == 0 {
      assert es[..0] == [];
    } else {
      UsedIsHistory(es, k - 1, ch);
      AtNext(es, k - 1);
      UsedStep(At(es, k - 1), es[k - 1], ch);
    }
  }

  lemma UsedStep(s: State, e: Input, ch: nat)
    ensures Used(TxStep(s, e).0.used, ch) == Used(s.used, ch) + if Numbered(e) && e.channel as nat == ch then 1 else 0
  {
    hide SeqByte;
  }

  lemma StepFifo(s: State, e: Input)
    ensures TxStep(s, e).1 + TxStep(s, e).0.queue
         == s.queue + if Numbered(e) && Outcome(s, e.payload, e.malloc) == ESP_OK
                      then [Frame(e.channel, SeqByte(Used(s.used, e.channel as nat)), BytesOf(e.payload))] else []
  {
    hide SeqByte;
  }

  /** First in, first out, with nothing invented, lost or reordered: what is on the wire followed
      by what is queued is exactly what was accepted, each frame with the caller's bytes and the
      number of earlier numbered sends on its channel modulo 256. */
  lemma {:induction false} WireIsFifo(es: seq<Input>, k: nat)
    requires k <= |es|
    ensures Emitted(TxStep, IDLE, es[..k]) + At(es, k).queue == AcceptedBy(es, k)
  {
    hide TxStep;
    if k == 0 {
      assert es[..0] == [];
    } else {
      WireIsFifo(es, k - 1);
      AtNext(es, k - 1);
      var wire, s, accepted := Emitted(TxStep, IDLE, es[..k - 1]), At(es, k - 1), AcceptedNow(es, k - 1);
      FifoStep(es, k - 1);
      hide Emitted, AcceptedBy, Queues, At, FrameOf;
      Regroup(wire, TxStep(s, es[k - 1]).1, At(es, k).queue);
      Regroup(wire, s.queue, accepted);
      AcceptedNext(es, k - 1);
    }
  }

  function AcceptedNow(es: seq<Input>, k: nat): seq<Frame>
    requires k < |es|
  {
    if Queues(es, k) then [FrameOf(es, k)] else []
  }

  lemma AcceptedNext(es: seq<Input>, k: nat)
    requires k < |es|
    ensures AcceptedBy(es, k + 1) == AcceptedBy(es, k) + AcceptedNow(es, k)
  {
    hide Queues, FrameOf;
  }

  lemma FifoStep(es: seq<Input>, k: nat)
    requires k < |es|
    ensures TxStep(At(es, k), es[k]).1 + TxStep(At(es, k), es[k]).0.queue == At(es, k).queue + AcceptedNow(es, k)
  {
    hide TxStep, SeqByte, BytesOf, At;
    StepFifo(At(es, k), es[k]);
    if Queues(es, k) {
      UsedIsHistory(es, k, es[k].channel as nat);
    }
  }

  lemma Regroup<T>(x: seq<T>, y: seq<T>, z: seq<T>)
    ensures (x + y) + z == x + (y + z)
  {
  }

  // ---- Gaps in the sequence numbers ----

  function WireFrames(es: seq<Input>): seq<Frame>
  {
    Emitted(TxStep, IDLE, es)
  }

  lemma WireFrame(es: seq<Input>, i: nat)
    requires i < |WireFrames(es)|
    ensures i < |QueuedBy(es, |es|)|
    ensures var n := QueuedBy(es, |es|)[i]; n < |es| && Queues(es, n) && WireFrames(es)[i] == FrameOf(es, n)
  {
    hide TxStep, QueuedBy, SeqByte, AcceptedBy, Queues, FrameOf;
    assert es[..|es|] == es;
    WireIsFifo(es, |es|);
    AcceptedIndex(es, |es|, i);
    assert WireFrames(es)[i] == (WireFrames(es) + At(es, |es|).queue)[i];
  }

  /** Input `k` queued a frame that has since been written to the wire. */
  predicate Transmitted(es: seq<Input>, k: nat)
    requires k < |es|
  {
    Queues(es, k) && |AcceptedBy(es, k)| < |WireFrames(es)|
  }

  lemma {:induction false} AcceptedGrows(es: seq<Input>, k: nat, m: nat)
    requires k <= m <= |es|
    ensures AcceptedBy(es, k) <= AcceptedBy(es, m)
    decreases m
  {
    hide Queues, FrameOf;
    if k < m {
      AcceptedGrows(es, k, m - 1);
    }
  }

  /** That frame is the one at the place its acceptance gave it. */
  lemma TransmittedFrame(es: seq<Input>, k: nat)
    requires k < |es| && Transmitted(es, k)
    ensures WireFrames(es)[|AcceptedBy(es, k)|] == FrameOf(es, k)
  {
    hide TxStep, Queues, FrameOf, WireFrames;
    WireIsPrefix(es);
    AcceptedGrows(es, k + 1, |es|);
    assert AcceptedBy(es, k + 1) == AcceptedBy(es, k) + [FrameOf(es, k)];
  }

  /** Sends on `ch` from `lo` up to `hi` that took a number and were then dropped. */
  function DroppedNumbered(es: seq<Input>, lo: nat, hi: nat, ch: nat): nat
    requires lo <= hi <= |es|
    decreases hi
  {
    if lo == hi then 0
    else DroppedNumbered(es, lo, hi - 1, ch)
         + if Numbered(es[hi - 1]) && es[hi - 1].channel as nat == ch && !Queues(es, hi - 1) then 1 else 0
  }

  /** SEQ values skipped between two frames, in 8-bit arithmetic. */
  function Gap(x: byte, y: byte): nat
  {
    (y as int - x as int - 1) % SEQ_MODULUS
  }

  lemma GapOf(m: nat, n: nat)
    ensures Gap(SeqByte(m), SeqByte(m + 1 + n)) == n % SEQ_MODULUS
  {
    ByteRoundTrip(m % SEQ_MODULUS);
    ByteRoundTrip((m + 1 + n) % SEQ_MODULUS);
    assert SeqByte(m) as int == m % SEQ_MODULUS && SeqByte(m + 1 + n) as int == (m + 1 + n) % SEQ_MODULUS;
    ModGap(m, n);
  }

  lemma ModGap(m: nat, n: nat)
    ensures ((m + 1 + n) % SEQ_MODULUS - m % SEQ_MODULUS - 1) % SEQ_MODULUS == n % SEQ_MODULUS
  {
  }

  lemma {:induction false} NoneQueued(es: seq<Input>, lo: nat, hi: nat, ch: nat)
    requires lo <= hi <= |es|
    requires forall n :: lo <= n < hi && Queues(es, n) ==> es[n].Send? && es[n].channel as nat != ch
    ensures NumberedBefore(es, hi, ch) == NumberedBefore(es, lo, ch) + DroppedNumbered(es, lo, hi, ch)
    decreases hi
  {
    hide Queues;
    if lo < hi {
      NoneQueued(es, lo, hi - 1, ch);
    }
  }

  /** Frames `i` and `j` on the wire are consecutive frames of one channel. */
  ghost predicate Consecutive(fs: seq<Frame>, i: nat, j: nat)
  {
    && i < j < |fs|
    && fs[i].channel == fs[j].channel
    && forall m :: i < m < j ==> fs[m].channel as nat != fs[i].channel as nat
  }

  lemma NothingBetween(es: seq<Input>, i: nat, j: nat, n: nat)
    requires Consecutive(WireFrames(es), i, j) && |WireFrames(es)| <= |QueuedBy(es, |es|)|
    requires n < |es| && QueuedBy(es, |es|)[i] < n < QueuedBy(es, |es|)[j] && Queues(es, n)
    ensures es[n].channel as nat != WireFrames(es)[i].channel as nat
  {
    hide TxStep, Outcome, At, SeqByte, WireFrames, BytesOf, NumberedBefore;
    var ks := QueuedBy(es, |es|);
    QueuedByExact(es, |es|);
    var m :| 0 <= m < |ks| && ks[m] == n;
    assert i < m < j;
    WireFrame(es, m);
  }

  /** Drop detection at the receiver: between one frame of a channel on the wire and the next, the
      SEQ bytes skip exactly the sends that were numbered and then dropped in between, modulo 256;
      so fewer than 256 such losses are counted exactly. */
  lemma GapCountsDrops(es: seq<Input>, i: nat, j: nat)
    requires Consecutive(WireFrames(es), i, j)
    ensures var (x, y) := (WireFrames(es)[i], WireFrames(es)[j]);
            var ks := QueuedBy(es, |es|);
            && j < |ks| && ks[i] + 1 <= ks[j] < |es|
            && var drops := DroppedNumbered(es, ks[i] + 1, ks[j], x.channel as nat);
               && Gap(x.seqNo, y.seqNo) == drops % SEQ_MODULUS
               && (drops < SEQ_MODULUS ==> Gap(x.seqNo, y.seqNo) == drops)
  {
    hide TxStep, Queues, SeqByte, Gap, WireFrames, BytesOf, NumberedBefore, DroppedNumbered;
    WireFrame(es, i);
    WireFrame(es, j);
    WireFrame(es, |WireFrames(es)| - 1);
    var ks, ch := QueuedBy(es, |es|), WireFrames(es)[i].channel as nat;
    QueuedByExact(es, |es|);
    SendsOnly(es, ks[i]);
    forall n | ks[i] + 1 <= n < ks[j] && Queues(es, n)
      ensures es[n].Send? && es[n].channel as nat != ch
    {
      SendsOnly(es, n);
      NothingBetween(es, i, j, n);
    }
    NoneQueued(es, ks[i] + 1, ks[j], ch);
    GapOf(NumberedBefore(es, ks[i], ch), DroppedNumbered(es, ks[i] + 1, ks[j], ch));
  }

  lemma SendsOnly(es: seq<Input>, n: nat)
    requires n < |es| && Queues(es, n)
    ensures es[n].Send? && NumberedBefore(es, n + 1, es[n].channel as nat) == NumberedBefore(es, n, es[n].channel as nat) + 1
  {
  }

  /** What the gaps do not show: a send that is refused before numbering leaves none. */
  lemma RefusedUnnumbered(es: seq<Input>, k: nat, ch: nat)
    requires k < |es| && es[k].Send? && (Length(es[k].payload) > MAX_PAYLOAD || !es[k].malloc)
    ensures NumberedBefore(es, k + 1, ch) == NumberedBefore(es, k, ch)
    ensures At(es, k + 1) == At(es, k).(drops := At(es, k).drops + 1)
  {
    AtNext(es, k);
  }

  // ---- Across the wire ----

  lemma WireFits(es: seq<Input>)
    ensures forall f :: f in WireFrames(es) ==> |f.payload| <= MAX_PAYLOAD
  {
    TransmitAccounted(IDLE, es);
  }

  /** The chunks are a cut of exactly the bytes the transmit task wrote. */
  ghost predicate Carries(chunks: seq<seq<byte>>, es: seq<Input>)
  {
    WireFits(es);
    Flatten(chunks) == LinkProperties.Wires(WireFrames(es))
  }

  /** Whatever is sent when, and however the UART cuts the byte stream, the receiving parser
      delivers exactly the frames put on the wire, which are the first of the accepted ones. */
  lemma WireDelivered(es: seq<Input>, chunks: seq<seq<byte>>)
    requires Carries(chunks, es)
    ensures Deliveries(EmittedByChunks(LinkFrame.Step, Sync, chunks)) == WireFrames(es)
    ensures WireFrames(es) <= AcceptedBy(es, |es|)
  {
    hide LinkFrame.Step, TxStep, WireFrames, AcceptedBy, QueuedBy, LinkProperties.Wires;
    WireFits(es);
    ChunkingIrrelevant(LinkFrame.Step, Sync, chunks);
    LinkProperties.BuiltSequenceDelivered(WireFrames(es));
    WireIsPrefix(es);
  }

  lemma WireIsPrefix(es: seq<Input>)
    ensures WireFrames(es) <= AcceptedBy(es, |es|)
  {
    hide TxStep, AcceptedBy, QueuedBy;
    assert es[..|es|] == es;
    WireIsFifo(es, |es|);
  }

  // ---- The C object ----

  lemma SendEffect(s: State, ch: byte, p: Payload, malloc: bool)
    ensures var e := Input.Send(ch, p, malloc);
            var ok := Outcome(s, p, malloc) == ESP_OK;
            TxStep(s, e).0 == if !Numbered(e) then s.(drops := s.drops + 1)
                              else State(s.used[ch as nat := Used(s.used, ch as nat) + 1],
                                         s.queue + (if ok then [Frame(ch, SeqByte(Used(s.used, ch as nat)), BytesOf(p))] else []),
                                         s.frames, s.drops + (if ok then 0 else 1), s.allocs + 1, s.frees + if ok then 0 else 1)
  {
    hide SeqByte, Used, BytesOf;
  }

  /** The 8-bit counters are the sequence numbers taken, wrapped. */
  ghost predicate CountersMatch(tx: seq<nat>, used: map<nat, nat>)
  {
    |tx| == SEQ_MODULUS && forall c :: 0 <= c < SEQ_MODULUS ==> tx[c] == Used(used, c) % SEQ_MODULUS
  }

  lemma CountersLength(tx: seq<nat>, used: map<nat, nat>)
    requires CountersMatch(tx, used)
    ensures |tx| == SEQ_MODULUS
  {
  }

  lemma CountersNext(tx: seq<nat>, used: map<nat, nat>, c: nat)
    requires CountersMatch(tx, used) && c < SEQ_MODULUS
    ensures tx[c] < SEQ_MODULUS && ToByte(tx[c]) == SeqByte(Used(used, c))
    ensures CountersMatch(tx[c := (tx[c] + 1) % SEQ_MODULUS], used[c := Used(used, c) + 1])
  {
    hide ToByte;
    ModNext(Used(used, c));
  }

  class Link {
    var running: bool
    /** 8-bit counters, one a channel. */
    var txSeq: seq<nat>
    /** Frame buffers waiting in the FreeRTOS queue; each is exactly as long as its frame. */
    var queue: seq<array<byte>>
    /** Bytes written to the UART. */
    var wire: seq<byte>
    var txFrames: nat
    var txDrops: nat
    ghost var live: set<array<byte>>
    ghost var queued: seq<Frame>
    ghost var used: map<nat, nat>
    ghost var allocs: nat
    ghost var frees: nat

    /** The live buffers are exactly the queued ones and `held`, each queued once, holding its frame. */
    ghost predicate Owns(held: set<array<byte>>)
      reads this`queue, this`queued, this`live, queue
    {
      && |queue| == |queued|
      && (forall i, j :: 0 <= i < j < |queue| ==> queue[i] != queue[j])
      && held !! (set b | b in queue)
      && live == held + (set b | b in queue)
      && (forall i :: 0 <= i < |queue| ==> |queued[i].payload| <= MAX_PAYLOAD && queue[i][..] == Build(queued[i]))
    }

    ghost predicate Counts()
      reads this`txSeq, this`used
    {
      CountersMatch(txSeq, used)
    }

    ghost predicate Valid()
      reads this, queue
    {
      Counts() && Owns({})
    }

    ghost function Abs(): State
      reads this
    {
      State(used, queued, txFrames, txDrops, allocs, frees)
    }

    constructor ()
      ensures Valid() && Abs() == IDLE && running && wire == []
    {
      running := true;
      txSeq := seq(SEQ_MODULUS, _ => 0);
      queue, wire, txFrames, txDrops := [], [], 0, 0;
      live, queued, used, allocs, frees := {}, [], map[], 0, 0;
    }

    /** Takes the next sequence number of `channel`. */
    method NextSeq(channel: byte) returns (seqNo: byte)
      requires Counts()
      modifies this`txSeq, this`used
      ensures Counts()
      ensures seqNo == SeqByte(Used(old(used), channel as nat))
      ensures used == old(used)[channel as nat := Used(old(used), channel as nat) + 1]
    {
      hide ToByte, SeqByte, Used, CountersMatch;
      ByteBound(channel);
      assert |txSeq| == SEQ_MODULUS by { CountersLength(txSeq, used); }
      var c := channel as nat;
      CountersNext(txSeq, used, c);
      seqNo := ToByte(txSeq[c]);
      txSeq := txSeq[c := (txSeq[c] + 1) % SEQ_MODULUS];
      used := used[c := Used(used, c) + 1];
    }

    /** Frees a buffer that is not queued. */
    method Free(buf: array<byte>)
      requires Owns({buf})
      modifies this`live, this`frees
      ensures Owns({}) && frees == old(frees) + 1
    {
      hide Build;
      live, frees := live - {buf}, frees + 1;
    }

    /** Hands a built buffer to the queue, which owns it from then on. */
    method Enqueue(buf: array<byte>, ghost f: Frame)
      requires Owns({buf}) && |f.payload| <= MAX_PAYLOAD && buf[..] == Build(f)
      modifies this`queue, this`queued
      ensures Owns({}) && queued == old(queued) + [f] && queue == old(queue) + [buf]
    {
      hide Build;
      assert (set b | b in queue + [buf]) == {buf} + (set b | b in queue);
      queue := queue + [buf];
      queued := queued + [f];
    }

    method Fill(buf: array<byte>, channel: byte, seqNo: byte, payload: array?<byte>, len: nat) returns (n: nat)
      requires Owns({buf}) && len <= MAX_PAYLOAD && buf.Length == OVERHEAD + len
      requires payload != null ==> len <= payload.Length && payload != buf
      modifies buf
      ensures Owns({buf}) && n == if len > 0 && payload == null then 0 else OVERHEAD + len
      ensures n > 0 ==> buf[..] == Build(Frame(channel, seqNo, if len == 0 then [] else old(payload[..len])))
    {
      hide Build;
      n := BuildInto(buf, channel, seqNo, payload, len);
      assert n > 0 ==> buf[..n] == buf[..];
    }

    method Allocate(len: nat) returns (buf: array<byte>)
      requires Owns({})
      modifies this`live, this`allocs
      ensures fresh(buf) && buf.Length == len && Owns({buf}) && allocs == old(allocs) + 1
    {
      hide Build;
      buf := new byte[len];
      live, allocs := live + {buf}, allocs + 1;
    }

    /** What a caller passes; `payload == null` stands for the NULL pointer. */
    ghost function Given(payload: array?<byte>, len: nat): Payload
      reads payload
      requires payload != null ==> len <= payload.Length
    {
      if payload == null then Null(len) else Data(payload[..len])
    }

    /** Numbers the frame, builds it in its buffer and queues it, or gives the buffer back. */
    method Submit(buf: array<byte>, channel: byte, payload: array?<byte>, len: nat) returns (r: Result)
      requires Counts() && Owns({buf}) && len <= MAX_PAYLOAD && buf.Length == OVERHEAD + len
      requires payload != null ==> len <= payload.Length && payload != buf
      requires |queue| == |queued|
      modifies this`used, this`queue, this`queued, this`live, this`frees, this`txDrops, this`txSeq, buf
      ensures Valid() && queue == if r == ESP_OK then old(queue) + [buf] else old(queue)
      ensures r == Outcome(old(Abs()), old(Given(payload, len)), true)
      ensures used == old(used)[channel as nat := Used(old(used), channel as nat) + 1]
      ensures var f := Frame(channel, SeqByte(Used(old(used), channel as nat)), BytesOf(old(Given(payload, len))));
              queued == old(queued) + if r == ESP_OK then [f] else []
      ensures frees == old(frees) + (if r == ESP_OK then 0 else 1) && txDrops == old(txDrops) + if r == ESP_OK then 0 else 1
    {
      hide SeqByte, Build, Owns, Counts, Used;
      var seqNo := NextSeq(channel);
      var n := Fill(buf, channel, seqNo, payload, len);
      if n == 0 {
        Free(buf);
        txDrops := txDrops + 1;
        return ESP_FAIL;
      }
      if |queue| >= QUEUE_LEN {
        Free(buf);
        txDrops := txDrops + 1;
        return ESP_ERR_NO_MEM;
      }
      Enqueue(buf, Frame(channel, seqNo, if len == 0 then [] else old(payload[..len])));
      return ESP_OK;
    }

    /** `mallocOk` is the allocator's answer. */
    method Send(channel: byte, payload: array?<byte>, len: nat, mallocOk: bool) returns (r: Result)
      requires Valid() && len < 0x1_0000
      requires payload != null ==> len <= payload.Length
      modifies this
      ensures Valid() && wire == old(wire) && running == old(running)
      ensures !running ==> r == ESP_ERR_INVALID_STATE && Abs() == old(Abs())
      ensures running ==> r == Outcome(old(Abs()), old(Given(payload, len)), mallocOk)
      ensures running ==> Abs() == TxStep(old(Abs()), Input.Send(channel, old(Given(payload, len)), mallocOk)).0
      ensures running && len > 4096 ==> r == ESP_ERR_INVALID_SIZE
      ensures running && len <= 4096 && !mallocOk ==> r == ESP_ERR_NO_MEM
      ensures running && len <= 4096 && mallocOk && payload == null && len > 0 ==> r == ESP_FAIL
      ensures running && len <= 4096 && mallocOk && (payload != null || len == 0) ==>
                r == if |old(queue)| < 32 then ESP_OK else ESP_ERR_NO_MEM
      ensures r == ESP_OK ==> |queue| == |old(queue)| + 1 && old(queue) <= queue
      ensures r != ESP_OK ==> queue == old(queue) && (running ==> txDrops == old(txDrops) + 1)
    {
      hide SeqByte, Build, Owns, Counts, Used, TxStep, BytesOf;
      SendEffect(Abs(), channel, Given(payload, len), mallocOk);
      if !running {
        return ESP_ERR_INVALID_STATE;
      }
      if len > MAX_PAYLOAD {
        txDrops := txDrops + 1;
        return ESP_ERR_INVALID_SIZE;
      }
      if !mallocOk {
        txDrops := txDrops + 1;
        return ESP_ERR_NO_MEM;
      }
      r := SendBuffered(channel, payload, len);
    }

    method SendBuffered(channel: byte, payload: array?<byte>, len: nat) returns (r: Result)
      requires Valid() && len <= MAX_PAYLOAD
      requires payload != null ==> len <= payload.Length
      modifies this
      ensures Valid() && wire == old(wire) && running == old(running)
      ensures r == Outcome(old(Abs()), old(Given(payload, len)), true)
      ensures Abs() == TxStep(old(Abs()), Input.Send(channel, old(Given(payload, len)), true)).0
      ensures payload == null && len > 0 ==> r == ESP_FAIL
      ensures payload != null || len == 0 ==> r == if |old(queue)| < 32 then ESP_OK else ESP_ERR_NO_MEM
      ensures r == ESP_OK ==> |queue| == |old(queue)| + 1 && old(queue) <= queue
      ensures r != ESP_OK ==> queue == old(queue) && txDrops == old(txDrops) + 1
    {
      assert |queue| == |queued|;
      hide SeqByte, Build, Owns, Counts, Used, TxStep, BytesOf;
      SendEffect(Abs(), channel, Given(payload, len), true);
      var buf := Allocate(OVERHEAD + len);
      r := Submit(buf, channel, payload, len);
    }

    /** One turn of the transmit task. */
    method TransmitOne()
      requires Valid()
      modifies this
      ensures Valid() && running == old(running)
      ensures Abs() == TxStep(old(Abs()), Transmit).0
      ensures wire == old(wire) + LinkProperties.Wires(TxStep(old(Abs()), Transmit).1)
      ensures old(queue) != [] ==> queue == old(queue)[1..] && wire == old(wire) + old(queue[0][..])
      ensures old(queue) != [] ==> txFrames == old(txFrames) + 1
      ensures old(queue) == [] ==> queue == [] && wire == old(wire) && txFrames == old(txFrames)
      ensures txDrops == old(txDrops)
    {
      hide SeqByte, Build;
      if queue != [] {
        var buf := queue[0];
        assert buf in live;
        queue := queue[1..];
        wire := wire + buf[..];
        live, frees := live - {buf}, frees + 1;
        txFrames := txFrames + 1;
        queued := queued[1..];
      }
    }
  }
}
