/** The character codec (bigram.py lines 35-36): `encode` maps each
    character through `stoi`, `decode` maps each id through `itos` and joins
    the characters. A character or id missing from its table makes Python
    raise `KeyError`; here that is the `None` result. */
module Codec {
  import opened Wrappers
  import opened Vocabulary

  /** `[stoi[ch] for ch in s]` */
  function Encode(stoi: map<char, int>, s: string): (r: Option<seq<int>>)
    ensures r.Some? <==> forall k :: 0 <= k < |s| ==> s[k] in stoi
    ensures r.Some? ==> |r.value| == |s|
    ensures r.Some? ==> forall k :: 0 <= k < |s| ==> r.value[k] == stoi[s[k]]
  {
    if |s| == 0 then Some([])
    else if s[0] !in stoi then None
    else
      match Encode(stoi, s[1..])
      case None => None
      case Some(rest) => Some([stoi[s[0]]] + rest)
  }

  /** `''.join([itos[i] for i in ids])` */
  function Decode(itos: map<int, char>, ids: seq<int>): (r: Option<string>)
    ensures r.Some? <==> forall k :: 0 <= k < |ids| ==> ids[k] in itos
    ensures r.Some? ==> |r.value| == |ids|
    ensures r.Some? ==> forall k :: 0 <= k < |ids| ==> r.value[k] == itos[ids[k]]
  {
    if |ids| == 0 then Some([])
    else if ids[0] !in itos then None
    else
      match Decode(itos, ids[1..])
      case None => None
      case Some(rest) => Some([itos[ids[0]]] + rest)
  }

  /** Encoding succeeds exactly on strings whose characters all belong to
      the vocabulary, and every id it produces is in `[0, vocab_size)`. */
  lemma EncodeDomain(v: Vocab, s: string)
    requires v.Valid()
    ensures Encode(v.stoi, s).Some? <==> forall k :: 0 <= k < |s| ==> s[k] in v.chars
    ensures Encode(v.stoi, s).Some? ==> IdsInRange(Encode(v.stoi, s).value, v.Size())
  {
    TablesInverse(v);
    assert forall c :: c in v.stoi <==> c in v.chars by {
      assert v.stoi.Keys == CharSet(v.chars);
    }
  }

  /** Decoding succeeds exactly on id sequences within `[0, vocab_size)`. */
  lemma DecodeDomain(v: Vocab, ids: seq<int>)
    requires v.Valid()
    ensures Decode(v.itos, ids).Some? <==> IdsInRange(ids, v.Size())
  {
  }

  /** `decode(encode(s)) == s` for every string over the vocabulary. */
  lemma {:induction false} DecodeEncode(v: Vocab, s: string)
    requires v.Valid()
    requires forall k :: 0 <= k < |s| ==> s[k] in v.chars
    ensures Encode(v.stoi, s).Some?
    ensures Decode(v.itos, Encode(v.stoi, s).value) == Some(s)
  {
    EncodeDomain(v, s);
    TablesInverse(v);
    var ids := Encode(v.stoi, s).value;
    var t := Decode(v.itos, ids);
    assert t.Some?;
    assert t.value == s;
  }

  /** `encode(decode(ids)) == ids` for every id sequence within
      `[0, vocab_size)`. */
  lemma EncodeDecode(v: Vocab, ids: seq<int>)
    requires v.Valid()
    requires IdsInRange(ids, v.Size())
    ensures Decode(v.itos, ids).Some?
    ensures Encode(v.stoi, Decode(v.itos, ids).value) == Some(ids)
  {
    TablesInverse(v);
    var s := Decode(v.itos, ids).value;
    var e := Encode(v.stoi, s);
    assert e.Some?;
    assert e.value == ids;
  }

  /** The corpus itself always encodes (bigram.py line 39): every character
      of `text` is in the vocabulary built from it. */
  lemma {:induction false} CorpusEncodes(text: string)
    ensures Encode(Build(text).stoi, text).Some?
    ensures IdsInRange(Encode(Build(text).stoi, text).value, Build(text).Size())
    ensures Decode(Build(text).itos, Encode(Build(text).stoi, text).value) == Some(text)
  {
    var v := Build(text);
    EncodeDomain(v, text);
    DecodeEncode(v, text);
  }
}
