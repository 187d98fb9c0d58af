/** How the pieces fit together in the script's driver: the corpus is
    encoded and split, training windows are fed to the model, and the text
    generated from a zero context is decoded (bigram.py lines 39-49 and
    233-234). */
module Pipeline {
  import opened Vocabulary
  import opened Codec
  import opened Batching
  import opened Generation

  /** Every window of a batch drawn from in-vocabulary data has the shape
      and range the model needs once `block_size > 0`: `block_size` ids, each
      an embedding row for the inputs and a class index of the
      cross-entropy (line 196) for the targets. */
  lemma BatchWindowsFitModel(s: Split, name: string, blockSize: nat, vocabSize: nat, ix: seq<int>)
    requires blockSize > 0
    requires |Select(s, name)| > blockSize
    requires ValidOffsets(Select(s, name), blockSize, ix)
    requires IdsInRange(Select(s, name), vocabSize)
    ensures GetBatch(s, name, blockSize, ix).Success? <==> |ix| > 0
    ensures GetBatch(s, name, blockSize, ix).Success? ==>
      forall e :: e in GetBatch(s, name, blockSize, ix).value ==>
        ForwardAccepts(e.x, blockSize, vocabSize) && ForwardAccepts(e.y, blockSize, vocabSize)
  {
    var data := Select(s, name);
    if |ix| > 0 {
      var batch := GetBatch(s, name, blockSize, ix).value;
      forall e | e in batch
        ensures ForwardAccepts(e.x, blockSize, vocabSize) && ForwardAccepts(e.y, blockSize, vocabSize)
      {
        var b :| 0 <= b < |batch| && batch[b] == e;
        assert e == Window(data, blockSize, ix[b]);
        WindowInRange(data, blockSize, vocabSize, ix[b]);
      }
    }
  }

  /** Both windows at an offset of in-vocabulary data are in the
      vocabulary. */
  lemma WindowInRange(data: seq<int>, blockSize: nat, vocabSize: nat, i: int)
    requires 0 <= i < |data| - blockSize
    requires IdsInRange(data, vocabSize)
    ensures IdsInRange(Window(data, blockSize, i).x, vocabSize)
    ensures IdsInRange(Window(data, blockSize, i).y, vocabSize)
  {
    var e := Window(data, blockSize, i);
    assert e.y == data[i + 1..i + 1 + blockSize];
    forall k | 0 <= k < blockSize
      ensures 0 <= e.x[k] < vocabSize && 0 <= e.y[k] < vocabSize
    {
      assert e.x[k] == data[i + k];
      assert e.y[k] == data[i + 1 + k];
    }
  }

  /** `decode(m.generate(context, max_new_tokens)[0].tolist())` succeeds: the
      zero context is id 0, which a non-empty corpus has, and every sampled
      id is in the vocabulary. */
  lemma GeneratedTextDecodes(text: string, blockSize: nat, maxNewTokens: int, sample: (nat, seq<int>) -> int)
    requires |text| > 0
    requires blockSize > 0
    requires SamplerInRange(sample, Build(text).Size())
    ensures Generate(Zeros(blockSize), maxNewTokens, blockSize, Build(text).Size(), sample).Success?
    ensures Decode(Build(text).itos, Generate(Zeros(blockSize), maxNewTokens, blockSize, Build(text).Size(), sample).value).Some?
  {
    var v := Build(text);
    assert text[0] in v.stoi;
    DriverContextSuffices(blockSize, v.Size(), maxNewTokens, sample, []);
    var r := Generate(Zeros(blockSize), maxNewTokens, blockSize, v.Size(), sample).value;
    GenerateContract(Zeros(blockSize), maxNewTokens, blockSize, v.Size(), sample);
    assert r[..blockSize] == Zeros(blockSize);
    forall p | 0 <= p < |r|
      ensures 0 <= r[p] < v.Size()
    {
      if p < blockSize {
        assert r[p] == r[..blockSize][p];
      } else {
        assert r[p] == r[blockSize..][p - blockSize];
      }
    }
    DecodeDomain(v, r);
  }

  /** The corpus's encoded ids, split at any point, lie in the vocabulary and
      concatenate back to the encoding of the whole text. */
  lemma {:induction false} EncodedCorpusSplits(text: string, n: int)
    ensures Encode(Build(text).stoi, text).Some?
    ensures var data := Encode(Build(text).stoi, text).value;
      && SplitAt(data, n).train + SplitAt(data, n).val == data
      && IdsInRange(SplitAt(data, n).train, Build(text).Size())
      && IdsInRange(SplitAt(data, n).val, Build(text).Size())
  {
    CorpusEncodes(text);
    var data := Encode(Build(text).stoi, text).value;
    SplitReassembles(data, n);
    IdsInRangeConcat(SplitAt(data, n).train, SplitAt(data, n).val, Build(text).Size());
  }
}
