# Sequence bookkeeping of a character-level transformer language model

`bigram.py` trains a small decoder-only transformer on a text corpus and
samples text from it. Around its floating-point tensor core sits a layer of
exact, discrete bookkeeping, and that layer is what this project models and
proves things about:

- the character vocabulary `chars = sorted(set(text))` and the tables `stoi`
  and `itos` (module `Vocabulary`);
- the codec `encode` / `decode` (module `Codec`); a character or id missing
  from its table makes Python raise `KeyError`, modelled as a `None` result;
- the train/validation split at an arbitrary integer `n` and `get_batch`
  windows (module `Batching`); `torch.randint` raising on an empty offset
  range is a `Failure` result;
- the causal mask `tril` and `masked_fill` on the attention scores (module
  `CausalMask`);
- the autoregressive `generate` loop (module `Generation`), with the forward
  pass and `torch.multinomial` replaced by a sampler parameter that receives
  the step number and the context;
- Python's slice semantics, shared by all of the above (module `Slicing`),
  and the driver-level connections between the parts (module `Pipeline`).

Every operation is a pure function over `seq`s; randomness enters only as
parameters (the split point, the batch offsets, the sampler).

The generation loop fails unless the context handed to the model is one
the forward pass accepts: exactly `block_size` ids, each a row of the
token embedding table of `vocab_size` rows. The length condition comes from
the script applying the full, unsliced `block_size x block_size` mask to
the `T x T` scores, so the forward pass only runs when `T == block_size`.
So `Generate` fails whenever an iteration runs on a sequence whose last
`block_size` ids are missing or out of range, and, with a sampler that
answers within the vocabulary, succeeds in every other case. The driver's
zero context of length `block_size` satisfies this for any non-empty
corpus.

## Model

| member | source | states |
|---|---|---|
| Slicing.Prefix | bigram.py:41 | `s[:n]` is the first `n` elements for `0 <= n <= len`, and drops the last `-n` for negative `n` |
| Slicing.Suffix | bigram.py:42 | `s[n:]` is the tail from `n` for `0 <= n <= len`, the last `-n` elements for negative `n`, the whole sequence when `-n` exceeds the length |
| Slicing.Slice | bigram.py:48-49 | `s[lo:hi]` with in-range bounds is exactly the elements between them, and is never longer than `s` |
| Slicing.PrefixSuffixCover | bigram.py:41-42 | `s[:n] + s[n:] == s` for every integer `n` |
| Slicing.LastK | bigram.py:202 | `s[-k:]` is the last `k` elements when there are at least `k`, the whole sequence when there are fewer, and the whole sequence when `k == 0` |
| Vocabulary.Insert | bigram.py:29 | adding a character to a strictly sorted listing keeps it strictly sorted and adds exactly that character |
| Vocabulary.SortedChars | bigram.py:29 | `sorted(set(text))` is strictly sorted (no duplicates) and holds exactly the characters of `text` |
| Vocabulary.SortedListingUnique | bigram.py:29 | two strictly sorted listings of the same characters are equal, so the vocabulary is determined by the set of corpus characters |
| Vocabulary.SortedListingSize | bigram.py:30 | a strictly sorted listing has as many entries as distinct characters |
| Vocabulary.VocabSizeIsDistinctCount | bigram.py:30 | `vocab_size` equals the number of distinct characters in the corpus |
| Vocabulary.StoiOf | bigram.py:33 | `stoi` has exactly the vocabulary characters as keys and maps `chars[i]` to `i` |
| Vocabulary.ItosOf | bigram.py:34 | the values of `itos` are exactly the vocabulary's characters, and over a listing without repeats no two ids map to the same character |
| Vocabulary.Build | bigram.py:29-34 | the built vocabulary is sorted without duplicates, its tables enumerate it, its characters are exactly the corpus's, and its size is the distinct-character count |
| Vocabulary.TablesInverse | bigram.py:33-34 | `stoi[itos[i]] == i` for every id below `vocab_size`, and every `stoi` value is such an id with `itos[stoi[c]] == c` |
| Codec.Encode | bigram.py:35 | `encode` fails exactly when some character is not a `stoi` key; otherwise the result has the input's length and position `k` holds `stoi[s[k]]` |
| Codec.Decode | bigram.py:36 | `decode` fails exactly when some id is not an `itos` key; otherwise the result has the input's length and position `k` holds `itos[ids[k]]` |
| Codec.EncodeDomain | bigram.py:33-35 | encoding succeeds exactly on strings over the vocabulary, and then every id is in `[0, vocab_size)` |
| Codec.DecodeDomain | bigram.py:34-36 | decoding succeeds exactly on id sequences within `[0, vocab_size)` |
| Codec.DecodeEncode | bigram.py:33-36 | `decode(encode(s)) == s` for every string over the vocabulary |
| Codec.EncodeDecode | bigram.py:33-36 | `encode(decode(ids)) == ids` for every id sequence within `[0, vocab_size)` |
| Codec.CorpusEncodes | bigram.py:39 | the corpus encodes under its own vocabulary, to ids in range, and decodes back to itself |
| Batching.SplitAt | bigram.py:40-42 | for `0 <= n <= len(data)` the training half has `n` elements and the validation half the rest |
| Batching.SplitReassembles | bigram.py:40-42 | for every integer `n`, `train_data + val_data == data` and the lengths add up; for `0 <= n <= len(data)`, `train_data == data[:n]` and `val_data == data[n:]` |
| Batching.Window | bigram.py:48-49 | for an offset in `[0, len(data) - block_size)`, `x` and `y` both have length `block_size`, `x == data[i:i+block_size]`, `y[k] == x[k+1]` below the last position, and `y`'s last element is `data[i+block_size]` |
| Batching.GetBatch | bigram.py:45-49 | `get_batch` fails with the empty-range error exactly when `len(data) <= block_size`, fails in `torch.stack` exactly when the range is non-empty but no offset was drawn, and otherwise yields one example per drawn offset |
| Batching.BatchIsShiftedWindows | bigram.py:47-49 | with valid offsets the batch exists exactly when at least one offset was drawn, and every example is the input window at its offset and the target window one position later, with the shift relation between them |
| Batching.PeriodicTarget | bigram.py:48-49 | on data of period `p` the target's last element repeats the input element `p - 1` places before its end |
| CausalMask.Mask | bigram.py:114 | `tril` is a `block_size x block_size` matrix |
| CausalMask.MaskIsLowerTriangular | bigram.py:114 | `tril[i][j] == 1` exactly when `j <= i` and `0` exactly when `j > i` |
| CausalMask.MaskedFill | bigram.py:125 | `masked_fill` succeeds exactly when the mask has the scores' shape and keeps that shape |
| CausalMask.CausalMasking | bigram.py:124-125 | the full mask fits `T x T` scores exactly when `T == block_size`; then every future position holds `-inf` and every other keeps its score |
| CausalMask.Affinities | bigram.py:124 | the score matrix of `T` positions is `T x T`, one score per query and key position |
| CausalMask.NoFutureDependence | bigram.py:124-125 | the masked score row of position `i` does not change when the input changes only at positions after `i` |
| Generation.ForwardAcceptsIsMaskFit | bigram.py:180-204 | the forward pass accepts a context exactly when it is non-empty (for `logits[:, -1, :]`), every id indexes the embedding table, and the full mask of line 125 fits its `T x T` scores |
| Generation.ForwardAccepts | bigram.py:180-204 | whether `self(idx_cond)` and `logits[:, -1, :]` run: a non-empty context of exactly `block_size` ids, each below `vocab_size` |
| Generation.Context | bigram.py:202 | the model sees the last `block_size` ids when there are that many, and the whole sequence otherwise |
| Generation.GenerateFrom | bigram.py:201-207 | the remaining iterations succeed only when none remain or the last `block_size > 0` ids of `idx` are all in the vocabulary; on success exactly that many ids are appended and `idx` stays a prefix |
| Generation.Generate | bigram.py:200-208 | `generate(idx, 0) == idx`; it fails whenever a token is requested and the last `block_size > 0` ids of `idx` are missing or out of range, and with an in-vocabulary sampler succeeds in every other case; the result has length `len(idx) + max_new_tokens` with `idx` as a prefix |
| Generation.GenerateFromSucceeds | bigram.py:201-207 | with an in-vocabulary sampler the loop fails exactly when its first iteration does, since every later context is the previous one shifted by one in-range id |
| Generation.StepContexts | bigram.py:201-207 | each appended id is the sampler's answer for its step on exactly the `block_size` ids preceding it |
| Generation.GenerateContract | bigram.py:200-208 | with an in-vocabulary sampler, a successful run started from an acceptable last block, every generation step saw a context of length exactly `block_size`, the suffix of the sequence so far, and every appended id is in `[0, vocab_size)` |
| Generation.Zeros | bigram.py:233 | `torch.zeros` of length `n` holds `n` zero ids |
| Generation.DriverContextSuffices | bigram.py:233 | a zero context of length `block_size > 0` always generates for a non-empty vocabulary and an in-vocabulary sampler; with an empty vocabulary, or from any shorter start, it fails once a token is requested |
| Pipeline.BatchWindowsFitModel | bigram.py:47-49 | over in-vocabulary data, every input and target window of a batch has length `block_size` with every id in the vocabulary, a context the forward pass accepts |
| Pipeline.WindowInRange | bigram.py:48-49 | both windows taken from in-vocabulary data hold only in-vocabulary ids |
| Pipeline.GeneratedTextDecodes | bigram.py:233-234 | decoding the text generated from the zero context succeeds for a non-empty corpus and an in-vocabulary sampler |
| Pipeline.EncodedCorpusSplits | bigram.py:39-42 | the encoded corpus, split at any point, reassembles in order and both halves lie in the vocabulary |

## Left out

- All floating-point tensor numerics: linear projections, attention scores and their scaling, softmax, dropout, LayerNorm, ReLU, embedding sums, cross-entropy (bigram.py:108-198). The attention scores are an arbitrary pairwise function of the two positions' inputs and `-inf` an arbitrary fill value; the forward pass and `torch.multinomial` are the sampler parameter of `Generation.Generate`.
- Autodiff and the AdamW optimizer step (bigram.py:214, 225-227): numeric state inside a foreign library.
- Randomness (`torch.manual_seed`, `torch.randint`, `torch.multinomial`): the batch offsets and the sampler are parameters.
- The split point `n = int(0.9 * len(data))` (bigram.py:40) is a float computation; the model takes `n` as an arbitrary integer.
- `torch.randint`'s guarantee that offsets lie in `[0, len(data) - block_size)` is a precondition of `Batching.GetBatch`, not something the model produces; `batch_size` is the number of offsets passed in.
- File reading, device placement, printing, `estimate_loss` and the training loop (bigram.py:13, 25-26, 53-65, 216-234): I/O and driver plumbing.
- The single-head `Head` class (bigram.py:68-91) is never instantiated; its mask use (line 85) has the same shape behaviour as line 125.
- CausalMask.MaskedFill: fails on any shape mismatch, whereas torch's out-of-place `masked_fill` broadcasts a side of size 1 (`T == 1` or `block_size == 1`); every such broadcast case fails later in the script (the `att @ v` product, the position-embedding lookup or `logits[:, -1, :]`), so the forward pass's overall outcome is unchanged.
- CausalMask.CausalMasking: states the fit as `T == block_size` and does not cover the broadcast cases `T == 1` or `block_size == 1`, for the same reason: each of them fails later in the forward pass.
- The batch dimension of `idx` in `generate` is fixed at one row, as in the driver.
