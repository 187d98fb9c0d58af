/** Autoregressive generation (bigram.py lines 200-208). Each step cuts the
    sequence to its last `block_size` ids, runs the model on that context,
    samples one id from the last position's distribution and appends it.
    The forward pass and `torch.multinomial` together are the parameter
    `sample`, which receives the step number (the position in the random
    stream) and the context. */
module Generation {
  import opened Wrappers
  import opened Slicing
  import opened Vocabulary
  import CausalMask

  /** Whether the forward pass `self(idx_cond)` and the indexing after it
      (lines 180-204) run on a context of length `T`: every id must index
      the token embedding table of `vocab_size` rows (lines 174 and 183),
      the full `block_size` mask only fits a `T x T` score matrix when
      `T == block_size` (line 125), and `logits[:, -1, :]` (line 204) needs
      `T > 0`. */
  predicate ForwardAccepts(ctx: seq<int>, blockSize: nat, vocabSize: nat) {
    |ctx| > 0 && |ctx| == blockSize && IdsInRange(ctx, vocabSize)
  }

  /** The acceptance condition is exactly: a non-empty context of ids in
      range whose `T x T` scores the mask fits. */
  lemma ForwardAcceptsIsMaskFit<S>(ctx: seq<int>, blockSize: nat, vocabSize: nat, score: (int, int) -> S, fill: S)
    ensures ForwardAccepts(ctx, blockSize, vocabSize) <==>
      && |ctx| > 0
      && IdsInRange(ctx, vocabSize)
      && CausalMask.MaskedFill(CausalMask.Affinities(ctx, score), CausalMask.Mask(blockSize), fill).Success?
  {
    CausalMask.CausalMasking(CausalMask.Affinities(ctx, score), |ctx|, blockSize, fill);
  }

  /** The forward pass raised on this context. */
  datatype GenError = ContextRejected(ctx: seq<int>)

  /** `idx[:, -block_size:]` */
  function Context(idx: seq<int>, blockSize: nat): (ctx: seq<int>)
    ensures 0 < blockSize <= |idx| ==> ctx == idx[|idx| - blockSize..]
    ensures |idx| < blockSize || blockSize == 0 ==> ctx == idx
  {
    LastK(idx, blockSize);
    Suffix(idx, -(blockSize as int))
  }

  /** One more iteration can run on `idx`: its last `block_size` ids form a
      context the forward pass accepts. */
  predicate CanStep(idx: seq<int>, blockSize: nat, vocabSize: nat) {
    0 < blockSize <= |idx| && IdsInRange(idx[|idx| - blockSize..], vocabSize)
  }

  /** The sampler only ever answers with an id of the vocabulary, as
      `torch.multinomial` over `vocab_size` probabilities does. */
  ghost predicate SamplerInRange(sample: (nat, seq<int>) -> int, vocabSize: nat) {
    forall k, c :: 0 <= sample(k, c) < vocabSize
  }

  /** The remaining `remaining` iterations of the loop, the next one being
      iteration number `step`. */
  function GenerateFrom(idx: seq<int>, remaining: nat, step: nat, blockSize: nat, vocabSize: nat, sample: (nat, seq<int>) -> int)
    : (r: Result<seq<int>, GenError>)
    ensures r.Success? ==> remaining == 0 || CanStep(idx, blockSize, vocabSize)
    ensures r.Success? ==> |r.value| == |idx| + remaining && r.value[..|idx|] == idx
    decreases remaining
  {
    if remaining == 0 then Success(idx)
    else
      var ctx := Context(idx, blockSize);
      if !ForwardAccepts(ctx, blockSize, vocabSize) then Failure(ContextRejected(ctx))
      else GenerateFrom(idx + [sample(step, ctx)], remaining - 1, step + 1, blockSize, vocabSize, sample)
  }

  /** With a sampler that stays in the vocabulary, the loop fails exactly
      when its first iteration does: every later context is the previous
      one shifted by one in-range id. */
  lemma {:induction false} GenerateFromSucceeds(idx: seq<int>, remaining: nat, step: nat, blockSize: nat, vocabSize: nat, sample: (nat, seq<int>) -> int)
    ensures SamplerInRange(sample, vocabSize) ==>
      (GenerateFrom(idx, remaining, step, blockSize, vocabSize, sample).Success? <==> remaining == 0 || CanStep(idx, blockSize, vocabSize))
    decreases remaining
  {
    if SamplerInRange(sample, vocabSize) && remaining > 0 && CanStep(idx, blockSize, vocabSize) {
      var ctx := Context(idx, blockSize);
      var t := sample(step, ctx);
      var next := idx + [t];
      assert 0 <= t < vocabSize;
      assert next[|next| - blockSize..] == idx[|idx| - blockSize..][1..] + [t];
      IdsInRangeConcat(idx[|idx| - blockSize..][1..], [t], vocabSize);
      GenerateFromSucceeds(next, remaining - 1, step + 1, blockSize, vocabSize, sample);
    }
  }

  /** `generate(idx, max_new_tokens)`: `range` of a non-positive count runs
      no iteration. It returns the extended sequence; it fails whenever an
      iteration runs on a sequence without an acceptable last block, and,
      with a sampler that stays in the vocabulary, exactly when the
      starting sequence has no such block. */
  function Generate(idx: seq<int>, maxNewTokens: int, blockSize: nat, vocabSize: nat, sample: (nat, seq<int>) -> int)
    : (r: Result<seq<int>, GenError>)
    ensures maxNewTokens <= 0 ==> r == Success(idx)
    ensures r.Success? ==> maxNewTokens <= 0 || CanStep(idx, blockSize, vocabSize)
    ensures SamplerInRange(sample, vocabSize) ==>
      (r.Success? <==> maxNewTokens <= 0 || CanStep(idx, blockSize, vocabSize))
    ensures r.Success? && maxNewTokens > 0 ==> |r.value| == |idx| + maxNewTokens
    ensures r.Success? ==> r.value[..|idx|] == idx
  {
    var steps := if maxNewTokens > 0 then maxNewTokens else 0;
    GenerateFromSucceeds(idx, steps, 0, blockSize, vocabSize, sample);
    GenerateFrom(idx, steps, 0, blockSize, vocabSize, sample)
  }

  /** From position `start` on, every id of `r` is the sampler's answer at
      its step (counted from `step`) on exactly the `block_size` ids before
      it. */
  predicate SampledFrom(r: seq<int>, start: nat, step: nat, blockSize: nat, sample: (nat, seq<int>) -> int) {
    forall p :: start <= p < |r| ==>
      && blockSize <= p
      && r[p] == sample(step + (p - start), r[p - blockSize..p])
  }

  /** Every appended id is the sampler's answer for its step, given as
      context exactly the `block_size` ids that precede it. */
  lemma {:induction false} StepContexts(idx: seq<int>, remaining: nat, step: nat, blockSize: nat, vocabSize: nat, sample: (nat, seq<int>) -> int)
    requires GenerateFrom(idx, remaining, step, blockSize, vocabSize, sample).Success?
    ensures SampledFrom(GenerateFrom(idx, remaining, step, blockSize, vocabSize, sample).value, |idx|, step, blockSize, sample)
    decreases remaining
  {
    var r := GenerateFrom(idx, remaining, step, blockSize, vocabSize, sample).value;
    if remaining > 0 {
      var ctx := Context(idx, blockSize);
      var next := idx + [sample(step, ctx)];
      assert r == GenerateFrom(next, remaining - 1, step + 1, blockSize, vocabSize, sample).value;
      StepContexts(next, remaining - 1, step + 1, blockSize, vocabSize, sample);
      assert r[..|next|] == next;
      assert CanStep(idx, blockSize, vocabSize);
      assert ctx == idx[|idx| - blockSize..];
      assert r[|idx| - blockSize..|idx|] == ctx by {
        assert r[..|idx|] == idx;
      }
      forall p | |idx| <= p < |r|
        ensures blockSize <= p && r[p] == sample(step + (p - |idx|), r[p - blockSize..p])
      {
        if p == |idx| {
          assert r[|idx|] == next[|idx|];
        }
      }
    }
  }

  /** The generation loop's contract: `max_new_tokens` ids are appended
      after `idx`; the one at position `p` was sampled at step `p - |idx|`
      from the suffix of length exactly `block_size` of the sequence built
      so far; and all appended ids lie in `[0, vocabSize)` when every sample
      does. */
  lemma GenerateContract(idx: seq<int>, maxNewTokens: int, blockSize: nat, vocabSize: nat, sample: (nat, seq<int>) -> int)
    requires Generate(idx, maxNewTokens, blockSize, vocabSize, sample).Success?
    requires SamplerInRange(sample, vocabSize)
    ensures maxNewTokens > 0 ==> CanStep(idx, blockSize, vocabSize)
    ensures SampledFrom(Generate(idx, maxNewTokens, blockSize, vocabSize, sample).value, |idx|, 0, blockSize, sample)
    ensures IdsInRange(Generate(idx, maxNewTokens, blockSize, vocabSize, sample).value[|idx|..], vocabSize)
  {
    var steps := if maxNewTokens > 0 then maxNewTokens else 0;
    var r := Generate(idx, maxNewTokens, blockSize, vocabSize, sample).value;
    StepContexts(idx, steps, 0, blockSize, vocabSize, sample);
    forall p | |idx| <= p < |r|
      ensures 0 <= r[p] < vocabSize
    {
      assert r[p] == sample(p - |idx|, r[p - blockSize..p]);
    }
    assert IdsInRange(r[|idx|..], vocabSize) by {
      forall q | 0 <= q < |r| - |idx| ensures 0 <= r[|idx|..][q] < vocabSize {
        assert r[|idx|..][q] == r[|idx| + q];
      }
    }
  }

  /** `torch.zeros([1, block_size])`: the driver's initial context
      (line 233). */
  function Zeros(n: nat): (z: seq<int>)
    ensures |z| == n && forall k :: 0 <= k < n ==> z[k] == 0
  {
    seq(n, k => 0)
  }

  /** Starting from the driver's zero context of length `block_size`,
      generation succeeds whenever the corpus is non-empty and the sampler
      stays in the vocabulary; with an empty vocabulary (an empty corpus)
      the zero id itself is rejected, and any shorter start fails as soon as
      one token is requested. */
  lemma DriverContextSuffices(blockSize: nat, vocabSize: nat, maxNewTokens: int, sample: (nat, seq<int>) -> int, idx: seq<int>)
    ensures blockSize > 0 && vocabSize > 0 && SamplerInRange(sample, vocabSize) ==>
      Generate(Zeros(blockSize), maxNewTokens, blockSize, vocabSize, sample).Success?
    ensures vocabSize == 0 && maxNewTokens > 0 ==> Generate(Zeros(blockSize), maxNewTokens, blockSize, vocabSize, sample).Failure?
    ensures |idx| < blockSize && maxNewTokens > 0 ==> Generate(idx, maxNewTokens, blockSize, vocabSize, sample).Failure?
  {
    var z := Zeros(blockSize);
    if vocabSize == 0 && blockSize > 0 {
      // The first context holds the id 0, which no row of an empty table has.
      assert z[|z| - blockSize..][0] == 0;
    }
  }
}
