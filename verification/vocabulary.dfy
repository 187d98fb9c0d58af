/** The character vocabulary of the corpus (bigram.py lines 29-34):
    `chars = sorted(set(text))`, `vocab_size = len(chars)`, and the two
    lookup tables `stoi` (character to id) and `itos` (id to character)
    built by enumerating `chars`. Characters are ordered by code point,
    which is both Python's string order and Dafny's `char` order. */
module Vocabulary {

  /** Every element is smaller than every later one: sorted, no repeats. */
  predicate StrictlySorted(s: seq<char>) {
    forall i, j :: 0 <= i < j < |s| ==> s[i] < s[j]
  }

  /** The head of a strictly sorted listing is below every later element,
      so it does not occur again. */
  lemma HeadNotRepeated(s: seq<char>)
    requires StrictlySorted(s) && |s| > 0
    ensures forall x :: x in s[1..] ==> s[0] < x
    ensures s[0] !in s[1..]
  {
    forall x | x in s[1..]
      ensures s[0] < x
    {
      var k :| 0 <= k < |s[1..]| && s[1..][k] == x;
      assert s[k + 1] == x;
    }
  }

  /** Putting a character below every element in front of a strictly sorted
      listing keeps it strictly sorted. */
  lemma ConsSorted(h: char, t: seq<char>)
    requires StrictlySorted(t)
    requires forall x :: x in t ==> h < x
    ensures StrictlySorted([h] + t)
  {
    var s := [h] + t;
    forall i, j | 0 <= i < j < |s|
      ensures s[i] < s[j]
    {
      if i == 0 {
        assert s[j] == t[j - 1];
        assert t[j - 1] in t;
      } else {
        assert s[i] == t[i - 1] && s[j] == t[j - 1];
      }
    }
  }

  /** Adds `c` to a strictly sorted listing, keeping it strictly sorted;
      a character already present is not added twice. */
  function Insert(sorted: seq<char>, c: char): (r: seq<char>)
    requires StrictlySorted(sorted)
    ensures StrictlySorted(r)
    ensures forall x :: x in r <==> x in sorted || x == c
  {
    if |sorted| == 0 then [c]
    else if c == sorted[0] then sorted
    else
      HeadNotRepeated(sorted);
      assert sorted == [sorted[0]] + sorted[1..];
      if c < sorted[0] then
        ConsSorted(c, sorted);
        [c] + sorted
      else
        var rest := Insert(sorted[1..], c);
        ConsSorted(sorted[0], rest);
        [sorted[0]] + rest
  }

  /** `sorted(set(text))`: the distinct characters of `text` in increasing
      order. */
  function SortedChars(text: string): (chars: seq<char>)
    ensures StrictlySorted(chars)
    ensures forall c :: c in chars <==> c in text
  {
    if |text| == 0 then []
    else Insert(SortedChars(text[..|text| - 1]), text[|text| - 1])
  }

  /** The head of a strictly sorted listing is its least element. */
  lemma HeadIsLeast(s: seq<char>, c: char)
    requires StrictlySorted(s) && c in s
    ensures s[0] <= c
  {
    var k :| 0 <= k < |s| && s[k] == c;
    if k > 0 { assert s[0] < s[k]; }
  }

  /** There is only one strictly sorted listing of a set of characters, so
      `SortedChars(text)` is exactly what `sorted(set(text))` denotes. */
  lemma {:induction false} SortedListingUnique(a: seq<char>, b: seq<char>)
    requires StrictlySorted(a) && StrictlySorted(b)
    requires forall c :: c in a <==> c in b
    ensures a == b
  {
    // A non-empty listing has a head, which the other listing must contain.
    assert |a| > 0 ==> a[0] in b;
    assert |b| > 0 ==> b[0] in a;
    if |a| > 0 && |b| > 0 {
      // The head of each is the least element of the common set.
      assert a[0] in a && b[0] in b;
      HeadIsLeast(a, b[0]);
      HeadIsLeast(b, a[0]);
      HeadNotRepeated(a);
      HeadNotRepeated(b);
      forall c
        ensures c in a[1..] <==> c in b[1..]
      {
        if c in a[1..] {
          assert c in a;
        }
        if c in b[1..] {
          assert c in b;
        }
        assert a == [a[0]] + a[1..];
        assert b == [b[0]] + b[1..];
      }
      SortedListingUnique(a[1..], b[1..]);
      assert a == [a[0]] + a[1..];
      assert b == [b[0]] + b[1..];
    }
  }

  /** The characters occurring in `text`, as a set. */
  function CharSet(text: string): set<char> {
    set c | c in text
  }

  /** A strictly sorted listing has exactly as many entries as distinct
      characters. */
  lemma {:induction false} SortedListingSize(s: seq<char>)
    requires StrictlySorted(s)
    ensures |CharSet(s)| == |s|
  {
    if |s| > 0 {
      var rest := s[1..];
      SortedListingSize(rest);
      HeadNotRepeated(s);
      assert s == [s[0]] + rest;
      CharSetCons(s[0], rest);
    }
  }

  /** The characters of `[h] + t` are `h` and those of `t`. */
  lemma CharSetCons(h: char, t: seq<char>)
    ensures CharSet([h] + t) == {h} + CharSet(t)
  {
    forall c
      ensures c in CharSet([h] + t) <==> c in {h} + CharSet(t)
    {
      assert c in [h] + t <==> c == h || c in t;
    }
  }

  /** `vocab_size == len(sorted(set(text))) == len(set(text))`. */
  lemma VocabSizeIsDistinctCount(text: string)
    ensures |SortedChars(text)| == |CharSet(text)|
  {
    var chars := SortedChars(text);
    SortedListingSize(chars);
    assert CharSet(chars) == CharSet(text);
  }

  /** Every id is valid for a vocabulary of `size` entries: an index into
      `itos`, and into an embedding table with `size` rows. */
  predicate IdsInRange(ids: seq<int>, size: nat) {
    forall k :: 0 <= k < |ids| ==> 0 <= ids[k] < size
  }

  /** Being in range distributes over concatenation. */
  lemma IdsInRangeConcat(a: seq<int>, b: seq<int>, size: nat)
    ensures IdsInRange(a + b, size) <==> IdsInRange(a, size) && IdsInRange(b, size)
  {
    if IdsInRange(a + b, size) {
      forall k | 0 <= k < |a| ensures 0 <= a[k] < size { assert a[k] == (a + b)[k]; }
      forall k | 0 <= k < |b| ensures 0 <= b[k] < size { assert b[k] == (a + b)[|a| + k]; }
    }
  }

  /** The vocabulary of a corpus: the sorted characters and the two tables
      enumerating them. */
  datatype Vocab = Vocab(chars: seq<char>, stoi: map<char, int>, itos: map<int, char>) {

    /** `len(chars)` */
    function Size(): nat {
      |chars|
    }

    /** `stoi` and `itos` enumerate `chars`: ids are exactly `0..vocab_size-1`
        and the character with id `i` is `chars[i]`. */
    predicate Valid() {
      && StrictlySorted(chars)
      && stoi.Keys == CharSet(chars)
      && (forall i :: i in itos ==> 0 <= i < |chars|)
      && (forall i :: 0 <= i < |chars| ==> chars[i] in stoi && stoi[chars[i]] == i)
      && (forall i :: 0 <= i < |chars| ==> i in itos && itos[i] == chars[i])
    }
  }

  /** `{ch: i for i, ch in enumerate(chars)}` */
  function StoiOf(chars: seq<char>): (m: map<char, int>)
    requires StrictlySorted(chars)
    ensures m.Keys == CharSet(chars)
    ensures forall i :: 0 <= i < |chars| ==> chars[i] in m && m[chars[i]] == i
  {
    map i | 0 <= i < |chars| :: chars[i] := i
  }

  /** `{i: ch for i, ch in enumerate(chars)}`: its values are exactly the
      listed characters, and over a listing without repeats no two ids share
      a character, so `itos` can be inverted. */
  function ItosOf(chars: seq<char>): (m: map<int, char>)
    ensures forall i :: i in m <==> 0 <= i < |chars|
    ensures forall i :: 0 <= i < |chars| ==> i in m && m[i] == chars[i]
    ensures m.Values == CharSet(chars)
    ensures StrictlySorted(chars) ==> forall i, j :: i in m && j in m && i != j ==> m[i] != m[j]
  {
    map i | 0 <= i < |chars| :: chars[i]
  }

  /** The vocabulary built from a corpus (bigram.py lines 29-34). */
  function Build(text: string): (v: Vocab)
    ensures v.Valid()
    ensures forall c :: c in v.stoi <==> c in text
    ensures v.Size() == |CharSet(text)|
  {
    var chars := SortedChars(text);
    VocabSizeIsDistinctCount(text);
    Vocab(chars, StoiOf(chars), ItosOf(chars))
  }

  /** The two tables are mutually inverse between the vocabulary's
      characters and the ids `0..vocab_size-1`. */
  lemma TablesInverse(v: Vocab)
    requires v.Valid()
    ensures forall i :: 0 <= i < v.Size() ==> v.itos[i] in v.stoi && v.stoi[v.itos[i]] == i
    ensures forall c :: c in v.stoi ==> 0 <= v.stoi[c] < v.Size() && v.stoi[c] in v.itos && v.itos[v.stoi[c]] == c
  {
    forall i | 0 <= i < v.Size()
      ensures v.itos[i] in v.stoi && v.stoi[v.itos[i]] == i
    {
      assert v.itos[i] == v.chars[i];
    }
    forall c | c in v.stoi
      ensures 0 <= v.stoi[c] < v.Size() && v.stoi[c] in v.itos && v.itos[v.stoi[c]] == c
    {
      assert c in CharSet(v.chars);
      var i :| 0 <= i < |v.chars| && v.chars[i] == c;
    }
  }
}
