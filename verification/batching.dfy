/** The train/validation split and the batch sampler (bigram.py lines
    40-49). The split point `n` and the random offsets drawn by
    `torch.randint` are inputs. */
module Batching {
  import opened Wrappers
  import opened Slicing

  /** `train_data = data[:n]`, `val_data = data[n:]` */
  datatype Split = Split(train: seq<int>, val: seq<int>)

  function SplitAt(data: seq<int>, n: int): (r: Split)
    ensures 0 <= n <= |data| ==> |r.train| == n && |r.val| == |data| - n
  {
    Split(Prefix(data, n), Suffix(data, n))
  }

  /** The two halves are disjoint and in order: they concatenate back to the
      data and their lengths add up, for any `n`; for `0 <= n <= |data|` the
      training half is exactly the first `n` elements. */
  lemma SplitReassembles(data: seq<int>, n: int)
    ensures SplitAt(data, n).train + SplitAt(data, n).val == data
    ensures |SplitAt(data, n).train| + |SplitAt(data, n).val| == |data|
    ensures 0 <= n <= |data| ==> SplitAt(data, n).train == data[..n] && SplitAt(data, n).val == data[n..]
  {
    PrefixSuffixCover(data, n);
  }

  /** `train_data if split == 'train' else val_data`: any other name selects
      the validation half. */
  function Select(s: Split, name: string): seq<int> {
    if name == "train" then s.train else s.val
  }

  /** One training example: `x = data[i:i+block_size]`,
      `y = data[i+1:i+1+block_size]`. */
  datatype Example = Example(x: seq<int>, y: seq<int>)

  function Window(data: seq<int>, blockSize: nat, i: int): (e: Example)
    requires 0 <= i < |data| - blockSize
    ensures |e.x| == blockSize && |e.y| == blockSize
    ensures e.x == data[i..i + blockSize]
    ensures forall k :: 0 <= k < blockSize - 1 ==> e.y[k] == e.x[k + 1]
    ensures blockSize > 0 ==> e.y[blockSize - 1] == data[i + blockSize]
  {
    Example(Slice(data, i, i + blockSize), Slice(data, i + 1, i + 1 + blockSize))
  }

  /** `torch.randint(high, ...)` raises when `high <= 0`; `torch.stack`
      raises on an empty list of windows. */
  datatype BatchError = EmptyOffsetRange | EmptyStack

  /** The offsets `torch.randint(len(data) - block_size, (batch_size,))`
      can return: each in `[0, len(data) - block_size)`. */
  predicate ValidOffsets(data: seq<int>, blockSize: nat, ix: seq<int>) {
    forall k :: 0 <= k < |ix| ==> 0 <= ix[k] < |data| - blockSize
  }

  /** `get_batch(split)`: one window per drawn offset. When the offset range
      is empty nothing is drawn and the call fails; otherwise `ix` stands for
      the `batch_size` offsets drawn, and stacking fails when there are
      none. */
  function GetBatch(s: Split, name: string, blockSize: nat, ix: seq<int>): (r: Result<seq<Example>, BatchError>)
    requires |Select(s, name)| > blockSize ==> ValidOffsets(Select(s, name), blockSize, ix)
    ensures r == Failure(EmptyOffsetRange) <==> |Select(s, name)| <= blockSize
    ensures r == Failure(EmptyStack) <==> |Select(s, name)| > blockSize && |ix| == 0
    ensures r.Success? ==> |r.value| == |ix|
  {
    var data := Select(s, name);
    if |data| - blockSize <= 0 then Failure(EmptyOffsetRange)
    else if |ix| == 0 then Failure(EmptyStack)
    else Success(seq(|ix|, k requires 0 <= k < |ix| => Window(data, blockSize, ix[k])))
  }

  /** Every example of a batch is a pair of `block_size` windows of the
      selected data at its drawn offset, the target being the input shifted
      one position to the left and completed by the next data element. */
  lemma BatchIsShiftedWindows(s: Split, name: string, blockSize: nat, ix: seq<int>)
    requires |Select(s, name)| > blockSize
    requires ValidOffsets(Select(s, name), blockSize, ix)
    ensures GetBatch(s, name, blockSize, ix).Success? <==> |ix| > 0
    ensures GetBatch(s, name, blockSize, ix).Success? ==> forall b :: 0 <= b < |ix| ==>
      var e := GetBatch(s, name, blockSize, ix).value[b];
      var data := Select(s, name);
      && |e.x| == blockSize && |e.y| == blockSize
      && e.x == data[ix[b]..ix[b] + blockSize]
      && e.y == data[ix[b] + 1..ix[b] + 1 + blockSize]
      && (forall k :: 0 <= k < blockSize - 1 ==> e.y[k] == e.x[k + 1])
      && (blockSize > 0 ==> e.y[blockSize - 1] == data[ix[b] + blockSize])
  {
  }

  /** On a corpus that repeats with period `p` (say "ab" repeated, `p == 2`),
      the target's last element repeats the input `p - 1` places earlier. */
  lemma PeriodicTarget(data: seq<int>, p: nat, blockSize: nat, i: int)
    requires 0 < p < blockSize + 1
    requires forall k :: 0 <= k < |data| - p ==> data[k + p] == data[k]
    requires 0 <= i < |data| - blockSize
    ensures Window(data, blockSize, i).y[blockSize - 1] == Window(data, blockSize, i).x[blockSize - p]
  {
    var e := Window(data, blockSize, i);
    assert e.y[blockSize - 1] == data[i + blockSize];
    assert data[i + blockSize] == data[i + blockSize - p + p];
  }
}
