/** The causal attention mask (bigram.py lines 114 and 124-125):
    `tril = torch.tril(torch.ones(block_size, block_size))` and
    `att.masked_fill(tril == 0, -inf)` on the `T x T` attention scores.
    The scores themselves are floating point; here they are values of an
    arbitrary type `S`, produced by an arbitrary pairwise score function of
    the two positions' inputs, and `-inf` is the parameter `fill`. */
module CausalMask {
  import opened Wrappers

  /** `m` has `rows` rows of `cols` entries each. */
  predicate IsMatrix<T>(m: seq<seq<T>>, rows: nat, cols: nat) {
    |m| == rows && forall i :: 0 <= i < rows ==> |m[i]| == cols
  }

  /** `torch.ones(rows, cols)` */
  function Ones(rows: nat, cols: nat): (m: seq<seq<int>>)
    ensures IsMatrix(m, rows, cols)
  {
    seq(rows, i => seq(cols, j => 1))
  }

  /** `torch.tril(m)`: the entries on or below the diagonal, zero above. */
  function Tril(m: seq<seq<int>>): (r: seq<seq<int>>)
    ensures |r| == |m|
    ensures forall i :: 0 <= i < |m| ==> |r[i]| == |m[i]|
  {
    seq(|m|, i requires 0 <= i < |m| => seq(|m[i]|, j requires 0 <= j < |m[i]| => if j <= i then m[i][j] else 0))
  }

  /** The registered buffer `tril`. */
  function Mask(blockSize: nat): (m: seq<seq<int>>)
    ensures IsMatrix(m, blockSize, blockSize)
  {
    Tril(Ones(blockSize, blockSize))
  }

  /** The mask is the 0/1 lower-triangular matrix: position `i` may see
      position `j` exactly when `j <= i`. */
  lemma MaskIsLowerTriangular(blockSize: nat)
    ensures forall i, j :: 0 <= i < blockSize && 0 <= j < blockSize ==>
      (Mask(blockSize)[i][j] == 1 <==> j <= i) && (Mask(blockSize)[i][j] == 0 <==> i < j)
  {
  }

  /** `masked_fill` raises when the mask cannot be matched to the scores. */
  datatype ShapeError = MaskShapeMismatch

  /** `scores.masked_fill(mask == 0, fill)`, where the mask must have the
      scores' shape. */
  function MaskedFill<S>(scores: seq<seq<S>>, mask: seq<seq<int>>, fill: S): (r: Result<seq<seq<S>>, ShapeError>)
    ensures r.Success? <==> |scores| == |mask| && forall i :: 0 <= i < |mask| ==> |scores[i]| == |mask[i]|
    ensures r.Success? ==> |r.value| == |scores| && forall i :: 0 <= i < |scores| ==> |r.value[i]| == |scores[i]|
  {
    if |scores| == |mask| && forall i :: 0 <= i < |mask| ==> |scores[i]| == |mask[i]| then
      Success(seq(|scores|, i requires 0 <= i < |scores| =>
        seq(|scores[i]|, j requires 0 <= j < |scores[i]| => if mask[i][j] == 0 then fill else scores[i][j])))
    else
      Failure(MaskShapeMismatch)
  }

  /** `q @ k.transpose(-2, -1) * scale`, with the score of query position `i`
      against key position `j` an arbitrary function of the two positions'
      inputs. */
  function Affinities<X, S>(xs: seq<X>, score: (X, X) -> S): (a: seq<seq<S>>)
    ensures IsMatrix(a, |xs|, |xs|)
  {
    seq(|xs|, i requires 0 <= i < |xs| => seq(|xs|, j requires 0 <= j < |xs| => score(xs[i], xs[j])))
  }

  /** The full `block_size` mask applies to a `T x T` score matrix only when
      `T == block_size`; then every future position (`j > i`) holds `fill`
      and every other position keeps its score. */
  lemma CausalMasking<S>(scores: seq<seq<S>>, t: nat, blockSize: nat, fill: S)
    requires IsMatrix(scores, t, t)
    ensures MaskedFill(scores, Mask(blockSize), fill).Success? <==> t == blockSize
    ensures MaskedFill(scores, Mask(blockSize), fill).Success? ==>
      forall i, j :: 0 <= i < t && 0 <= j < t ==>
        MaskedFill(scores, Mask(blockSize), fill).value[i][j] == (if i < j then fill else scores[i][j])
  {
    MaskIsLowerTriangular(blockSize);
    if t != blockSize && t > 0 && blockSize > 0 {
      assert |scores[0]| != |Mask(blockSize)[0]|;
    }
  }

  /** Row `i` of the masked scores is unchanged by any change of the input at
      positions after `i`: attention never reads the future. */
  lemma NoFutureDependence<X, S>(xs: seq<X>, xs': seq<X>, score: (X, X) -> S, fill: S, i: nat)
    requires |xs| == |xs'| && i < |xs|
    requires forall j :: 0 <= j <= i ==> xs[j] == xs'[j]
    ensures MaskedFill(Affinities(xs, score), Mask(|xs|), fill).Success?
    ensures MaskedFill(Affinities(xs', score), Mask(|xs|), fill).Success?
    ensures MaskedFill(Affinities(xs, score), Mask(|xs|), fill).value[i]
         == MaskedFill(Affinities(xs', score), Mask(|xs|), fill).value[i]
  {
    var t := |xs|;
    CausalMasking(Affinities(xs, score), t, t, fill);
    CausalMasking(Affinities(xs', score), t, t, fill);
    var r := MaskedFill(Affinities(xs, score), Mask(t), fill).value;
    var r' := MaskedFill(Affinities(xs', score), Mask(t), fill).value;
    forall j | 0 <= j < t
      ensures r[i][j] == r'[i][j]
    {
      if j <= i {
        assert r[i][j] == score(xs[i], xs[j]);
        assert r'[i][j] == score(xs'[i], xs'[j]);
      }
    }
  }
}
