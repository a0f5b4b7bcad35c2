/** MTU fragmentation of `al1_ble_notify_conn`: a loop with a 16-bit offset. */
module Notify {
  import opened Arithmetic
  import opened Bytes

  const OFFSET_MODULUS: nat := 0x1_0000

  /** Usable payload of one notification: ATT_MTU - 3 (Bluetooth Core Specification, Vol 3, Part F,
      section 3.4.7.1), or 20 when the MTU is unknown. */
  function Chunk(mtu: nat): (c: nat)
    ensures c > 0 && (mtu < OFFSET_MODULUS ==> c < OFFSET_MODULUS)
  {
    if mtu > 3 then mtu - 3 else 20
  }

  // ---- What a notified value should be cut into ----

  function Rounds(len: nat, chunk: nat): nat
    requires chunk > 0
  {
    (len + chunk - 1) / chunk
  }

  /** `len` rounded up to a multiple of `chunk`: where the offset ends. */
  function RoundUp(len: nat, chunk: nat): nat
    requires chunk > 0
  {
    Rounds(len, chunk) * chunk
  }

  function Cut(len: nat, chunk: nat, i: nat): nat
  {
    if i * chunk < len then i * chunk else len
  }

  lemma CutOrder(len: nat, chunk: nat, i: nat)
    ensures Cut(len, chunk, i) <= Cut(len, chunk, i + 1) <= len
  {
    assert (i + 1) * chunk == i * chunk + chunk;
  }

  function Fragment(data: seq<byte>, chunk: nat, i: nat): seq<byte>
  {
    CutOrder(|data|, chunk, i);
    data[Cut(|data|, chunk, i)..Cut(|data|, chunk, i + 1)]
  }

  /** The first `k` fragments. */
  function FirstFragments(data: seq<byte>, chunk: nat, k: nat): (r: seq<seq<byte>>)
    ensures |r| == k && forall i :: 0 <= i < k ==> r[i] == Fragment(data, chunk, i)
  {
    seq(k, i requires 0 <= i < k => Fragment(data, chunk, i))
  }

  function Fragments(data: seq<byte>, chunk: nat): seq<seq<byte>>
    requires chunk > 0
  {
    FirstFragments(data, chunk, Rounds(|data|, chunk))
  }

  lemma DivBounds(a: nat, c: nat)
    requires c > 0
    ensures a / c * c <= a < (a / c + 1) * c
  {
  }

  lemma RoundsExact(len: nat, chunk: nat)
    requires chunk > 0
    ensures len <= RoundUp(len, chunk) < len + chunk
    ensures Rounds(len, chunk) == 0 <==> len == 0
  {
    DivBounds(len + chunk - 1, chunk);
    var q := Rounds(len, chunk);
    assert (q + 1) * chunk == q * chunk + chunk;
  }

  lemma TimesMonotone(i: nat, j: nat, c: nat)
    requires i <= j
    ensures i * c <= j * c
  {
  }

  /** Offsets before the last round lie inside the data. */
  lemma CutInside(len: nat, chunk: nat, i: nat)
    requires chunk > 0
    ensures i < Rounds(len, chunk) <==> i * chunk < len
  {
    RoundsExact(len, chunk);
    var q := Rounds(len, chunk);
    if i < q {
      TimesMonotone(i + 1, q, chunk);
      assert (i + 1) * chunk == i * chunk + chunk;
    } else {
      TimesMonotone(q, i, chunk);
    }
  }

  lemma {:induction false} FragmentsPrefix(data: seq<byte>, chunk: nat, k: nat)
    ensures Flatten(FirstFragments(data, chunk, k)) == data[..Cut(|data|, chunk, k)]
  {
    if k == 0 {
      assert FirstFragments(data, chunk, 0) == [];
    } else {
      FragmentsPrefix(data, chunk, k - 1);
      CutOrder(|data|, chunk, k - 1);
      assert FirstFragments(data, chunk, k) == FirstFragments(data, chunk, k - 1) + [Fragment(data, chunk, k - 1)];
      FlattenSnoc(FirstFragments(data, chunk, k - 1), Fragment(data, chunk, k - 1));
    }
  }

  /** The fragments put together are the data; none is empty or longer than a notification may be;
      all but the last are full. */
  lemma FragmentsRebuild(data: seq<byte>, chunk: nat)
    requires chunk > 0
    ensures Flatten(Fragments(data, chunk)) == data
    ensures forall i :: 0 <= i < |Fragments(data, chunk)| ==> 0 < |Fragments(data, chunk)[i]| <= chunk
    ensures forall i :: 0 <= i < |Fragments(data, chunk)| - 1 ==> |Fragments(data, chunk)[i]| == chunk
  {
    var q := Rounds(|data|, chunk);
    FragmentsPrefix(data, chunk, q);
    CutInside(|data|, chunk, q);
    forall i | 0 <= i < q
      ensures 0 < |Fragment(data, chunk, i)| <= chunk && (i < q - 1 ==> |Fragment(data, chunk, i)| == chunk)
    {
      CutInside(|data|, chunk, i);
      CutInside(|data|, chunk, i + 1);
      assert (i + 1) * chunk == i * chunk + chunk;
    }
  }

  // ---- What the loop does, wrap-around included ----

  /** The 16-bit offset after `k` rounds. */
  function Offset(chunk: nat, k: nat): nat
  {
    if k == 0 then 0 else (Offset(chunk, k - 1) + chunk) % OFFSET_MODULUS
  }

  function Piece(data: seq<byte>, chunk: nat, off: nat): seq<byte>
  {
    if off >= |data| then [] else if |data| - off > chunk then data[off..off + chunk] else data[off..]
  }

  /** The fragments of the first `k` rounds. */
  function Sent(data: seq<byte>, chunk: nat, k: nat): seq<seq<byte>>
  {
    if k == 0 then [] else Sent(data, chunk, k - 1) + [Piece(data, chunk, Offset(chunk, k - 1))]
  }

  /** The loop leaves after exactly `k` rounds. */
  ghost predicate Leaves(len: nat, chunk: nat, k: nat)
  {
    Offset(chunk, k) >= len && forall j :: 0 <= j < k ==> Offset(chunk, j) < len
  }

  /** Until the data is covered the offset does not wrap. */
  lemma {:induction false} OffsetStraight(chunk: nat, k: nat)
    requires k > 0 ==> (k - 1) * chunk < OFFSET_MODULUS
    ensures Offset(chunk, k) == (k * chunk) % OFFSET_MODULUS
    ensures k * chunk < OFFSET_MODULUS ==> Offset(chunk, k) == k * chunk
  {
    if k > 0 {
      if k > 1 {
        assert (k - 1) * chunk == (k - 2) * chunk + chunk;
      }
      OffsetStraight(chunk, k - 1);
      assert k * chunk == (k - 1) * chunk + chunk;
    }
  }

  lemma {:induction false} SentStraight(data: seq<byte>, chunk: nat, k: nat)
    requires 0 < chunk && |data| < OFFSET_MODULUS && k <= Rounds(|data|, chunk)
    ensures Sent(data, chunk, k) == FirstFragments(data, chunk, k)
  {
    if k == 0 {
      assert FirstFragments(data, chunk, 0) == [];
    } else {
      SentStraight(data, chunk, k - 1);
      CutInside(|data|, chunk, k - 1);
      if k > 1 {
        CutInside(|data|, chunk, k - 2);
      }
      OffsetStraight(chunk, k - 1);
      PieceIsFragment(data, chunk, k - 1);
      assert FirstFragments(data, chunk, k) == FirstFragments(data, chunk, k - 1) + [Fragment(data, chunk, k - 1)];
    }
  }

  lemma PieceIsFragment(data: seq<byte>, chunk: nat, i: nat)
    requires i * chunk < |data|
    ensures Piece(data, chunk, i * chunk) == Fragment(data, chunk, i)
  {
    assert (i + 1) * chunk == i * chunk + chunk;
  }

  lemma {:induction false} SentGrows(data: seq<byte>, chunk: nat, k: nat, n: nat)
    requires 0 < chunk && k <= n && forall j :: k <= j < n ==> Offset(chunk, j) < |data|
    ensures |Flatten(Sent(data, chunk, n))| >= |Flatten(Sent(data, chunk, k))| + (n - k)
    decreases n
  {
    if k < n {
      SentGrows(data, chunk, k, n - 1);
      FlattenSnoc(Sent(data, chunk, n - 1), Piece(data, chunk, Offset(chunk, n - 1)));
    }
  }

  /** When the last round would carry the offset past 16 bits it lands inside the data again. */
  lemma WrapLandsInside(len: nat, chunk: nat)
    requires 0 < chunk < OFFSET_MODULUS && len < OFFSET_MODULUS <= RoundUp(len, chunk)
    ensures Offset(chunk, Rounds(len, chunk)) < len
  {
    var q := Rounds(len, chunk);
    RoundsExact(len, chunk);
    CutInside(len, chunk, q - 1);
    OffsetStraight(chunk, q);
    if chunk >= len {
      CutInside(len, chunk, 1);
      TimesMonotone(q, 1, chunk);
      assert false;
    }
  }

  ghost predicate SendsExactly(data: seq<byte>, chunk: nat)
  {
    exists k :: Leaves(|data|, chunk, k) && Flatten(Sent(data, chunk, k)) == data
  }

  /** The loop ends having sent exactly the data iff the length rounded up to whole chunks still
      fits the 16-bit offset; then it sends the fragments above. */
  lemma SendsExactlyIff(data: seq<byte>, chunk: nat)
    requires 0 < chunk < OFFSET_MODULUS && |data| < OFFSET_MODULUS
    ensures SendsExactly(data, chunk) <==> RoundUp(|data|, chunk) < OFFSET_MODULUS
    ensures RoundUp(|data|, chunk) < OFFSET_MODULUS ==>
              Leaves(|data|, chunk, Rounds(|data|, chunk)) && Sent(data, chunk, Rounds(|data|, chunk)) == Fragments(data, chunk)
  {
    hide Rounds, RoundUp, Offset, Sent;
    var q := Rounds(|data|, chunk);
    InsideUntil(|data|, chunk);
    SentStraight(data, chunk, q);
    FragmentsRebuild(data, chunk);
    if RoundUp(|data|, chunk) < OFFSET_MODULUS {
      EndOffset(|data|, chunk);
      assert Leaves(|data|, chunk, q);
    } else if SendsExactly(data, chunk) {
      var k :| Leaves(|data|, chunk, k) && Flatten(Sent(data, chunk, k)) == data;
      WrapLandsInside(|data|, chunk);
      SentGrows(data, chunk, q, k);
    }
  }

  lemma InsideUntil(len: nat, chunk: nat)
    requires 0 < chunk && len < OFFSET_MODULUS
    ensures forall j :: 0 <= j < Rounds(len, chunk) ==> Offset(chunk, j) < len
  {
    forall j | 0 <= j < Rounds(len, chunk)
      ensures Offset(chunk, j) < len
    {
      InsideAt(len, chunk, j);
    }
  }

  lemma InsideAt(len: nat, chunk: nat, j: nat)
    requires 0 < chunk && len < OFFSET_MODULUS && j < Rounds(len, chunk)
    ensures Offset(chunk, j) == j * chunk < len
  {
    CutInside(len, chunk, j);
    if j > 0 {
      CutInside(len, chunk, j - 1);
    }
    OffsetStraight(chunk, j);
  }

  lemma EndOffset(len: nat, chunk: nat)
    requires 0 < chunk && len < OFFSET_MODULUS && RoundUp(len, chunk) < OFFSET_MODULUS
    ensures Offset(chunk, Rounds(len, chunk)) == RoundUp(len, chunk) >= len
  {
    RoundsExact(len, chunk);
    var q := Rounds(len, chunk);
    if q > 0 {
      CutInside(len, chunk, q - 1);
    }
    OffsetStraight(chunk, q);
  }

  // ---- When the loop ends at all ----

  lemma {:induction false} OffsetMod(chunk: nat, k: nat)
    ensures Offset(chunk, k) == (k * chunk) % OFFSET_MODULUS
  {
    if k > 0 {
      OffsetMod(chunk, k - 1);
      var before := (k - 1) * chunk;
      assert k * chunk == before + chunk;
      ModStep(before, chunk);
    }
  }

  lemma ModStep(a: nat, c: nat)
    ensures (a % OFFSET_MODULUS + c) % OFFSET_MODULUS == (a + c) % OFFSET_MODULUS
  {
  }

  /** The largest offset the loop can reach. */
  function TopOffset(chunk: nat): nat
    requires 0 < chunk < OFFSET_MODULUS
  {
    GcdDivides(OFFSET_MODULUS, chunk);
    GcdSmall(chunk);
    OFFSET_MODULUS - Gcd(OFFSET_MODULUS, chunk)
  }

  lemma GcdSmall(chunk: nat)
    requires 0 < chunk < OFFSET_MODULUS
    ensures Gcd(OFFSET_MODULUS, chunk) <= chunk
  {
    GcdDivides(OFFSET_MODULUS, chunk);
    var g := Gcd(OFFSET_MODULUS, chunk);
    DividesBy(g, 0, 0);
    MultiplesApart(g, 0, chunk);
  }

  lemma MultiplesApart(g: nat, a: int, b: int)
    requires Divides(g, a) && Divides(g, b) && a < b
    ensures a + g <= b
  {
    var p: int :| g * p == a;
    var q: int :| g * q == b;
    assert p < q by {
      if q <= p {
        ProductMonotone(g, q, p);
        assert false;
      }
    }
    ProductMonotone(g, p + 1, q);
    assert g * (p + 1) == g * p + g;
  }

  lemma ProductMonotone(g: nat, p: int, q: int)
    requires p <= q
    ensures g * p <= g * q
  {
  }

  lemma {:induction false} OffsetDivided(chunk: nat, k: nat)
    requires 0 < chunk < OFFSET_MODULUS
    ensures Divides(Gcd(OFFSET_MODULUS, chunk), Offset(chunk, k))
  {
    var g := Gcd(OFFSET_MODULUS, chunk);
    if k == 0 {
      DividesBy(g, 0, 0);
    } else {
      OffsetDivided(chunk, k - 1);
      GcdDivides(OFFSET_MODULUS, chunk);
      DividesSum(g, Offset(chunk, k - 1), chunk, 1);
      DividesSum(g, OFFSET_MODULUS, Offset(chunk, k - 1) + chunk, -1);
    }
  }

  lemma OffsetTop(chunk: nat, k: nat)
    requires 0 < chunk < OFFSET_MODULUS
    ensures Offset(chunk, k) <= TopOffset(chunk)
  {
    OffsetDivided(chunk, k);
    GcdDivides(OFFSET_MODULUS, chunk);
    MultiplesApart(Gcd(OFFSET_MODULUS, chunk), Offset(chunk, k), OFFSET_MODULUS);
  }

  lemma TopReached(chunk: nat) returns (k: nat)
    requires 0 < chunk < OFFSET_MODULUS
    ensures Offset(chunk, k) == TopOffset(chunk)
  {
    var x, y := Bezout(OFFSET_MODULUS, chunk);
    k := (-y) % OFFSET_MODULUS;
    var q := (-y) / OFFSET_MODULUS;
    var g := Gcd(OFFSET_MODULUS, chunk);
    GcdDivides(OFFSET_MODULUS, chunk);
    Regroup(chunk, x, y, q, k, g);
    RemainderIs(k * chunk, x - q * chunk - 1, TopOffset(chunk));
    OffsetMod(chunk, k);
  }

  lemma Regroup(chunk: int, x: int, y: int, q: int, k: int, g: int)
    requires OFFSET_MODULUS * x + chunk * y == g && -y == OFFSET_MODULUS * q + k
    ensures k * chunk == OFFSET_MODULUS * (x - q * chunk) - g
  {
    assert k * chunk == (-y - OFFSET_MODULUS * q) * chunk == -(chunk * y) - OFFSET_MODULUS * (q * chunk);
  }

  lemma RemainderIs(n: int, z: int, r: nat)
    requires n == OFFSET_MODULUS * z + r && r < OFFSET_MODULUS
    ensures n % OFFSET_MODULUS == r
  {
  }

  lemma {:induction false} FirstLeave(len: nat, chunk: nat, k: nat) returns (j: nat)
    requires Offset(chunk, k) >= len
    ensures Leaves(len, chunk, j)
  {
    if i: nat :| i < k && Offset(chunk, i) >= len {
      j := FirstLeave(len, chunk, i);
    } else {
      j := k;
    }
  }

  /** The loop ends iff the length is no greater than 65536 less the common divisor of 65536 and the chunk. */
  lemma LeavesIff(len: nat, chunk: nat)
    requires 0 < chunk < OFFSET_MODULUS
    ensures (exists k :: Leaves(len, chunk, k)) <==> len <= TopOffset(chunk)
  {
    hide Offset;
    if k :| Leaves(len, chunk, k) {
      OffsetTop(chunk, k);
    }
    if len <= TopOffset(chunk) {
      var k := TopReached(chunk);
      var j := FirstLeave(len, chunk, k);
    }
  }

  /** When it ends after the offset has wrapped it has sent more than the data. */
  lemma WrappedSendsMore(data: seq<byte>, chunk: nat, k: nat)
    requires 0 < chunk < OFFSET_MODULUS && |data| < OFFSET_MODULUS <= RoundUp(|data|, chunk)
    requires Leaves(|data|, chunk, k)
    ensures |Flatten(Sent(data, chunk, k))| > |data|
  {
    hide Rounds, RoundUp, Offset, Sent, Flatten;
    var q := Rounds(|data|, chunk);
    InsideUntil(|data|, chunk);
    SentStraight(data, chunk, q);
    FragmentsRebuild(data, chunk);
    WrapLandsInside(|data|, chunk);
    assert k > q;
    SentGrows(data, chunk, q, k);
  }

  /** Everything the link can deliver is safe at every MTU. */
  lemma LinkSizedNeverWraps(len: nat, mtu: nat)
    requires len <= 4096 && mtu < OFFSET_MODULUS
    ensures RoundUp(len, Chunk(mtu)) < OFFSET_MODULUS
  {
    var c := Chunk(mtu);
    RoundsExact(len, c);
    if len <= c {
      CutInside(len, c, 1);
      TimesMonotone(Rounds(len, c), 1, c);
    }
  }

  /** The condition is not always met: 65535 bytes at the minimum MTU are never finished. */
  lemma {:induction false} MinimumMtuNeverLeaves(k: nat)
    ensures Offset(Chunk(23), k) % 4 == 0
    ensures Offset(Chunk(23), k) < 65535
  {
    if k > 0 {
      MinimumMtuNeverLeaves(k - 1);
    }
  }

  // ---- The loop ----

  /** The last failure among the first `n` notifications, or 0. */
  function LastError(answer: nat -> int, n: nat): int
  {
    if n == 0 then 0 else if answer(n - 1) != 0 then answer(n - 1) else LastError(answer, n - 1)
  }

  /** `answer(i)` is what the stack returns for the `i`th notification; `sent` are its values in order.
      For the lengths the precondition excludes the loop does not end. */
  method NotifyConn(data: seq<byte>, mtu: nat, answer: nat -> int) returns (rc: int, sent: seq<seq<byte>>)
    requires mtu < OFFSET_MODULUS && |data| <= TopOffset(Chunk(mtu))
    ensures Leaves(|data|, Chunk(mtu), |sent|) && sent == Sent(data, Chunk(mtu), |sent|)
    ensures RoundUp(|data|, Chunk(mtu)) < OFFSET_MODULUS ==> sent == Fragments(data, Chunk(mtu)) && Flatten(sent) == data
    ensures RoundUp(|data|, Chunk(mtu)) >= OFFSET_MODULUS ==> |Flatten(sent)| > |data|
    ensures rc == LastError(answer, |sent|)
    ensures forall i :: 0 <= i < |sent| ==> 0 < |sent[i]| <= if mtu > 3 then mtu - 3 else 20
    ensures |data| <= 4096 ==>
              forall i :: 0 <= i < |sent| - 1 ==> |sent[i]| == if mtu > 3 then mtu - 3 else 20
    ensures |data| <= 4096 && mtu > 3 ==> |data| <= |sent| * (mtu - 3) < |data| + (mtu - 3)
    ensures |data| <= 4096 && mtu <= 3 ==> |data| <= |sent| * 20 < |data| + 20
  {
    hide Rounds, RoundUp, Flatten, Chunk, TopOffset, Sent, Leaves, Fragments;
    var chunk := Chunk(mtu);
    LeavesIff(|data|, chunk);
    ghost var last: nat :| Leaves(|data|, chunk, last);
    if |data| == 0 {
      NothingToSend(chunk, answer);
      rc, sent := 0, [];
    } else {
      rc, sent := SendAll(data, chunk, answer, last);
    }
    Outcome(data, chunk, |sent|);
    PiecesOfRun(data, chunk, |sent|);
    ChunkIs(mtu);
    if |data| <= 4096 {
      LinkSizedNeverWraps(|data|, mtu);
      FragmentCount(data, chunk);
    }
  }

  lemma ChunkIs(mtu: nat)
    ensures Chunk(mtu) == if mtu > 3 then mtu - 3 else 20
  {
  }

  lemma {:induction false} PiecesBounded(data: seq<byte>, chunk: nat, k: nat)
    requires 0 < chunk && forall j :: 0 <= j < k ==> Offset(chunk, j) < |data|
    ensures |Sent(data, chunk, k)| == k
    ensures forall i :: 0 <= i < k ==> 0 < |Sent(data, chunk, k)[i]| <= chunk
  {
    hide Offset;
    if k > 0 {
      PiecesBounded(data, chunk, k - 1);
    }
  }

  lemma PiecesOfRun(data: seq<byte>, chunk: nat, k: nat)
    requires 0 < chunk && Leaves(|data|, chunk, k)
    ensures forall i :: 0 <= i < |Sent(data, chunk, k)| ==> 0 < |Sent(data, chunk, k)[i]| <= chunk
  {
    hide Offset, Sent;
    PiecesBounded(data, chunk, k);
  }

  /** As many fragments as the length needs, all but the last full. */
  lemma FragmentCount(data: seq<byte>, chunk: nat)
    requires chunk > 0
    ensures |data| <= |Fragments(data, chunk)| * chunk < |data| + chunk
    ensures forall i :: 0 <= i < |Fragments(data, chunk)| - 1 ==> |Fragments(data, chunk)[i]| == chunk
  {
    hide Rounds;
    RoundsExact(|data|, chunk);
    FragmentsRebuild(data, chunk);
  }

  /** What the clients are sent, by the MTU: values of at most MTU - 3 bytes, 20 when it is unknown,
      all but the last full, as few as that allows, which put together are the data. */
  lemma FragmentsByMtu(data: seq<byte>, mtu: nat)
    ensures var most := if mtu > 3 then mtu - 3 else 20;
            var fs := Fragments(data, Chunk(mtu));
            && (forall i :: 0 <= i < |fs| ==> 0 < |fs[i]| <= most)
            && (forall i :: 0 <= i < |fs| - 1 ==> |fs[i]| == most)
            && |data| <= |fs| * most < |data| + most
            && Flatten(fs) == data
  {
    hide Fragments, Flatten;
    FragmentsRebuild(data, Chunk(mtu));
    FragmentCount(data, Chunk(mtu));
  }

  /** The returned code is 0 iff every notification succeeded, and otherwise that of the last failure. */
  lemma {:induction false} LastErrorExact(answer: nat -> int, n: nat)
    ensures LastError(answer, n) == 0 <==> forall i :: 0 <= i < n ==> answer(i) == 0
    ensures LastError(answer, n) != 0 ==>
              exists i :: 0 <= i < n && answer(i) == LastError(answer, n) && forall j :: i < j < n ==> answer(j) == 0
  {
    if n > 0 && answer(n - 1) == 0 {
      LastErrorExact(answer, n - 1);
    }
  }

  lemma NothingToSend(chunk: nat, answer: nat -> int)
    ensures Leaves(0, chunk, 0) && Sent([], chunk, 0) == [] && LastError(answer, 0) == 0
  {
  }

  method SendAll(data: seq<byte>, chunk: nat, answer: nat -> int, ghost last: nat) returns (rc: int, sent: seq<seq<byte>>)
    requires 0 < chunk < OFFSET_MODULUS && Leaves(|data|, chunk, last)
    ensures Leaves(|data|, chunk, |sent|) && sent == Sent(data, chunk, |sent|)
    ensures rc == LastError(answer, |sent|)
  {
    rc, sent := 0, [];
    var off := 0;
    while off < |data|
      invariant off == Offset(chunk, |sent|) && |sent| <= last
      invariant sent == Sent(data, chunk, |sent|)
      invariant forall j :: 0 <= j < |sent| ==> Offset(chunk, j) < |data|
      invariant rc == LastError(answer, |sent|)
      decreases last - |sent|
    {
      hide Sent, Piece;
      SentNext(data, chunk, |sent|);
      var n := |data| - off;
      if n > chunk {
        n := chunk;
      }
      PieceCut(data, chunk, off, n);
      sent := sent + [data[off..off + n]];
      var r := answer(|sent| - 1);
      if r != 0 {
        rc := r;
      }
      off := (off + chunk) % OFFSET_MODULUS;
    }
  }

  lemma SentNext(data: seq<byte>, chunk: nat, k: nat)
    ensures Sent(data, chunk, k + 1) == Sent(data, chunk, k) + [Piece(data, chunk, Offset(chunk, k))]
  {
  }

  lemma PieceCut(data: seq<byte>, chunk: nat, off: nat, n: nat)
    requires off < |data| && n == if |data| - off > chunk then chunk else |data| - off
    ensures data[off..off + n] == Piece(data, chunk, off)
  {
  }

  lemma Outcome(data: seq<byte>, chunk: nat, k: nat)
    requires 0 < chunk < OFFSET_MODULUS && |data| <= TopOffset(chunk) && Leaves(|data|, chunk, k)
    ensures RoundUp(|data|, chunk) < OFFSET_MODULUS ==>
              Sent(data, chunk, k) == Fragments(data, chunk) && Flatten(Sent(data, chunk, k)) == data
    ensures RoundUp(|data|, chunk) >= OFFSET_MODULUS ==> |Flatten(Sent(data, chunk, k))| > |data|
  {
    hide Rounds, RoundUp, Offset, Sent, Flatten;
    assert |data| < OFFSET_MODULUS by { GcdDivides(OFFSET_MODULUS, chunk); }
    if RoundUp(|data|, chunk) < OFFSET_MODULUS {
      SendsExactlyIff(data, chunk);
      assert Leaves(|data|, chunk, Rounds(|data|, chunk));
      FragmentsRebuild(data, chunk);
    } else {
      WrappedSendsMore(data, chunk, k);
    }
  }
}
