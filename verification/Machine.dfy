/** Deterministic machines that consume one input at a time and may emit outputs.
    Every byte parser and event handler of the firmware is run by these two functions. */
module Machine {
  import opened Bytes

  /** State after consuming `xs`. */
  function Final<S, I, O>(step: (S, I) -> (S, seq<O>), s: S, xs: seq<I>): S
  {
    if xs == [] then s else Final(step, step(s, xs[0]).0, xs[1..])
  }

  /** Everything emitted while consuming `xs`, in order. */
  function Emitted<S, I, O>(step: (S, I) -> (S, seq<O>), s: S, xs: seq<I>): seq<O>
  {
    if xs == [] then [] else step(s, xs[0]).1 + Emitted(step, step(s, xs[0]).0, xs[1..])
  }

  lemma {:induction false} RunConcat<S, I, O>(step: (S, I) -> (S, seq<O>), s: S, xs: seq<I>, ys: seq<I>)
    ensures Final(step, s, xs + ys) == Final(step, Final(step, s, xs), ys)
    ensures Emitted(step, s, xs + ys) == Emitted(step, s, xs) + Emitted(step, Final(step, s, xs), ys)
  {
    if xs == [] {
      assert xs + ys == ys;
    } else {
      assert (xs + ys)[1..] == xs[1..] + ys;
      RunConcat(step, step(s, xs[0]).0, xs[1..], ys);
    }
  }

  lemma RunOne<S, I, O>(step: (S, I) -> (S, seq<O>), s: S, x: I)
    ensures Final(step, s, [x]) == step(s, x).0
    ensures Emitted(step, s, [x]) == step(s, x).1
  {
    assert [x][1..] == [];
  }

  lemma RunSnoc<S, I, O>(step: (S, I) -> (S, seq<O>), s: S, xs: seq<I>, x: I)
    ensures Final(step, s, xs + [x]) == step(Final(step, s, xs), x).0
    ensures Emitted(step, s, xs + [x]) == Emitted(step, s, xs) + step(Final(step, s, xs), x).1
  {
    RunConcat(step, s, xs, [x]);
    RunOne(step, Final(step, s, xs), x);
  }

  /** Outputs of feeding the chunks one call after the other. */
  function EmittedByChunks<S, I, O>(step: (S, I) -> (S, seq<O>), s: S, chunks: seq<seq<I>>): seq<O>
  {
    if chunks == [] then []
    else Emitted(step, s, chunks[0]) + EmittedByChunks(step, Final(step, s, chunks[0]), chunks[1..])
  }

  /** How the input is cut into calls does not matter. */
  lemma {:induction false} ChunkingIrrelevant<S, I, O>(step: (S, I) -> (S, seq<O>), s: S, chunks: seq<seq<I>>)
    ensures EmittedByChunks(step, s, chunks) == Emitted(step, s, Flatten(chunks))
  {
    if chunks != [] {
      RunConcat(step, s, chunks[0], Flatten(chunks[1..]));
      ChunkingIrrelevant(step, Final(step, s, chunks[0]), chunks[1..]);
    }
  }
}
