/**
 * The bookkeeping around the neural part-of-speech tagger trained on the
 * Penn Treebank: the table of tags and the encoding of tags as indices into
 * it, the construction of the training lists from the tagged words that have
 * an embedding, the feature list for the Macbeth tokens, the decoding of
 * predicted indices, and the count of positions where two taggings agree.
 *
 * The embedding models are maps from the words in their vocabulary to their
 * vectors (of any type `V`); the predicted indices are an input.
 */
module PosTagging {

  type Word = string
  type Tag = string
  type TaggedWord = (Word, Tag)

  predicate NoDuplicates<T(==)>(s: seq<T>)
  {
    forall i, j :: 0 <= i < j < |s| ==> s[i] != s[j]
  }

  /** `[x[1] for x in tagged]` */
  function TagsOf(tagged: seq<TaggedWord>): (tags: seq<Tag>)
  {
    seq(|tagged|, i requires 0 <= i < |tagged| => tagged[i].1)
  }

  /** `list(set(tags))`: each tag of the corpus exactly once, in an order
      the language leaves unspecified. */
  ghost predicate IsTagTable(table: seq<Tag>, tags: seq<Tag>)
  {
    NoDuplicates(table) && (forall t :: t in table ==> t in tags) && (forall t :: t in tags ==> t in table)
  }

  /** One table with that property: the tags in order of first occurrence. */
  function Distinct(tags: seq<Tag>): (table: seq<Tag>)
    ensures IsTagTable(table, tags)
  {
    if tags == [] then []
    else
      var rest := Distinct(tags[..|tags| - 1]);
      assert tags == tags[..|tags| - 1] + [tags[|tags| - 1]];
      if tags[|tags| - 1] in rest then rest else rest + [tags[|tags| - 1]]
  }

  /** `table.index(t)`: the first position holding `t`. */
  function IndexOf(table: seq<Tag>, t: Tag): (i: nat)
    requires t in table
    ensures i < |table| && table[i] == t
    ensures forall j :: 0 <= j < i ==> table[j] != t
  {
    if table[0] == t then 0 else 1 + IndexOf(table[1..], t)
  }

  /** `[table.index(t) for t in tags]`: every code is a valid index that
      points back at its tag. */
  function Encode(table: seq<Tag>, tags: seq<Tag>): (codes: seq<nat>)
    requires forall k :: 0 <= k < |tags| ==> tags[k] in table
    ensures |codes| == |tags|
    ensures forall k :: 0 <= k < |codes| ==> codes[k] < |table| && table[codes[k]] == tags[k]
  {
    seq(|tags|, k requires 0 <= k < |tags| => IndexOf(table, tags[k]))
  }

  /** `[table[i] for i in codes]` */
  function Decode(table: seq<Tag>, codes: seq<nat>): (tags: seq<Tag>)
    requires forall k :: 0 <= k < |codes| ==> codes[k] < |table|
  {
    seq(|codes|, k requires 0 <= k < |codes| => table[codes[k]])
  }

  /** Decoding an encoded tag sequence gives it back, whatever the table's order. */
  lemma DecodeEncode(table: seq<Tag>, tags: seq<Tag>)
    requires forall k :: 0 <= k < |tags| ==> tags[k] in table
    ensures Decode(table, Encode(table, tags)) == tags
  {
  }

  /** With a duplicate-free table, encoding the decoded codes gives them back:
      the table is a bijection between its positions and its tags. */
  lemma EncodeDecode(table: seq<Tag>, codes: seq<nat>)
    requires NoDuplicates(table)
    requires forall k :: 0 <= k < |codes| ==> codes[k] < |table|
    ensures Encode(table, Decode(table, codes)) == codes
  {
  }

  /** Every tag of the corpus has a code in any table `list(set(...))` may give. */
  lemma TableCoversCorpus(table: seq<Tag>, tagged: seq<TaggedWord>)
    requires IsTagTable(table, TagsOf(tagged))
    ensures forall i :: 0 <= i < |tagged| ==> tagged[i].1 in table
  {
    forall i | 0 <= i < |tagged| ensures tagged[i].1 in table {
      assert TagsOf(tagged)[i] == tagged[i].1;
    }
  }

  // ---------------------------------------------------------------------
  // The training lists

  /** The tagged words whose word has an embedding, in corpus order. */
  function InVocabulary<V>(tagged: seq<TaggedWord>, vocab: map<Word, V>): (kept: seq<TaggedWord>)
    ensures |kept| <= |tagged|
    ensures forall k :: 0 <= k < |kept| ==> kept[k].0 in vocab && kept[k] in tagged
    ensures |kept| == |tagged| <==> forall i :: 0 <= i < |tagged| ==> tagged[i].0 in vocab
  {
    if tagged == [] then []
    else
      var init := tagged[..|tagged| - 1];
      var last := tagged[|tagged| - 1];
      var rest := InVocabulary(init, vocab);
      assert forall k :: 0 <= k < |rest| ==> rest[k] in tagged by {
        forall k | 0 <= k < |rest| ensures rest[k] in tagged {
          var i :| 0 <= i < |init| && init[i] == rest[k];
          assert tagged[i] == rest[k];
        }
      }
      if last.0 in vocab then rest + [last] else rest
  }

  /** The filter keeps order: filtering a concatenation concatenates the filtered parts. */
  lemma {:induction false} InVocabularyAppend<V>(a: seq<TaggedWord>, b: seq<TaggedWord>, vocab: map<Word, V>)
    ensures InVocabulary(a + b, vocab) == InVocabulary(a, vocab) + InVocabulary(b, vocab)
    decreases |b|
  {
    if b == [] {
      assert a + b == a;
    } else {
      var b' := b[..|b| - 1];
      assert (a + b)[..|a + b| - 1] == a + b';
      assert (a + b)[|a + b| - 1] == b[|b| - 1];
      InVocabularyAppend(a, b', vocab);
    }
  }

  /** The loop that builds `x` and `y`: one entry per tagged word whose word has
      an embedding, in corpus order; `x` holds its vector, `y` the code of its tag. */
  method BuildTrainingData<V>(tagged: seq<TaggedWord>, vocab: map<Word, V>, table: seq<Tag>)
      returns (x: seq<V>, y: seq<nat>)
    requires forall i :: 0 <= i < |tagged| ==> tagged[i].1 in table
    ensures |x| == |y| == |InVocabulary(tagged, vocab)|
    ensures forall k :: 0 <= k < |x| ==> x[k] == vocab[InVocabulary(tagged, vocab)[k].0]
    ensures forall k :: 0 <= k < |y| ==>
              y[k] < |table| && table[y[k]] == InVocabulary(tagged, vocab)[k].1
  {
    x, y := [], [];
    var i := 0;
    while i < |tagged|
      invariant 0 <= i <= |tagged|
      invariant |x| == |y| == |InVocabulary(tagged[..i], vocab)|
      invariant forall k :: 0 <= k < |x| ==> x[k] == vocab[InVocabulary(tagged[..i], vocab)[k].0]
      invariant forall k :: 0 <= k < |y| ==>
                  y[k] < |table| && table[y[k]] == InVocabulary(tagged[..i], vocab)[k].1
    {
      var w := tagged[i];
      assert tagged[..i + 1][..i] == tagged[..i] && tagged[..i + 1][i] == w;
      if w.0 in vocab {
        x := x + [vocab[w.0]];
        y := y + [IndexOf(table, w.1)];
      }
      i := i + 1;
    }
    assert tagged[..i] == tagged;
  }

  /** Every training label decodes to the tag of its tagged word. */
  lemma TrainingLabelsDecode<V>(tagged: seq<TaggedWord>, vocab: map<Word, V>, table: seq<Tag>, y: seq<nat>)
    requires |y| == |InVocabulary(tagged, vocab)|
    requires forall k :: 0 <= k < |y| ==> y[k] < |table| && table[y[k]] == InVocabulary(tagged, vocab)[k].1
    ensures Decode(table, y) == TagsOf(InVocabulary(tagged, vocab))
  {
  }

  // ---------------------------------------------------------------------
  // Macbeth

  /** The Macbeth tokens whose FIRST CHARACTER (`w[0]`) has an embedding, in order. */
  function FirstCharInVocabulary<V>(words: seq<Word>, vocab: map<Word, V>): (kept: seq<Word>)
    requires forall i :: 0 <= i < |words| ==> |words[i]| > 0
    ensures |kept| <= |words|
    ensures forall k :: 0 <= k < |kept| ==> |kept[k]| > 0 && [kept[k][0]] in vocab && kept[k] in words
    ensures |kept| == |words| <==> forall i :: 0 <= i < |words| ==> [words[i][0]] in vocab
  {
    if words == [] then []
    else
      var init := words[..|words| - 1];
      var last := words[|words| - 1];
      var rest := FirstCharInVocabulary(init, vocab);
      assert forall k :: 0 <= k < |rest| ==> rest[k] in words by {
        forall k | 0 <= k < |rest| ensures rest[k] in words {
          var i :| 0 <= i < |init| && init[i] == rest[k];
          assert words[i] == rest[k];
        }
      }
      if [last[0]] in vocab then rest + [last] else rest
  }

  /** The filter keeps order: filtering a concatenation concatenates the
      filtered parts, so the kept tokens stay in text order. */
  lemma {:induction false} FirstCharInVocabularyAppend<V>(a: seq<Word>, b: seq<Word>, vocab: map<Word, V>)
    requires forall i :: 0 <= i < |a| ==> |a[i]| > 0
    requires forall i :: 0 <= i < |b| ==> |b[i]| > 0
    ensures forall i :: 0 <= i < |a + b| ==> |(a + b)[i]| > 0
    ensures FirstCharInVocabulary(a + b, vocab) == FirstCharInVocabulary(a, vocab) + FirstCharInVocabulary(b, vocab)
    decreases |b|
  {
    if b == [] {
      assert a + b == a;
    } else {
      var b' := b[..|b| - 1];
      assert (a + b)[..|a + b| - 1] == a + b';
      assert (a + b)[|a + b| - 1] == b[|b| - 1];
      FirstCharInVocabularyAppend(a, b', vocab);
    }
  }

  /** The loop that builds `x_macbeth`: one vector per token whose first
      character is in the vocabulary, looked up by that character. */
  method MacbethFeatures<V>(words: seq<Word>, vocab: map<Word, V>) returns (x: seq<V>)
    requires forall i :: 0 <= i < |words| ==> |words[i]| > 0
    ensures |x| == |FirstCharInVocabulary(words, vocab)| <= |words|
    ensures forall k :: 0 <= k < |x| ==> x[k] == vocab[[FirstCharInVocabulary(words, vocab)[k][0]]]
  {
    x := [];
    var i := 0;
    while i < |words|
      invariant 0 <= i <= |words|
      invariant |x| == |FirstCharInVocabulary(words[..i], vocab)|
      invariant forall k :: 0 <= k < |x| ==> x[k] == vocab[[FirstCharInVocabulary(words[..i], vocab)[k][0]]]
    {
      var w := words[i];
      assert words[..i + 1][..i] == words[..i] && words[..i + 1][i] == w;
      if [w[0]] in vocab {
        x := x + [vocab[[w[0]]]];
      }
      i := i + 1;
    }
    assert words[..i] == words;
  }

  /** `[(words[i], table[j]) for i, j in enumerate(codes)]`: the i-th pair takes
      the i-th token, not the token the i-th prediction was made for. */
  function PairWithWords(words: seq<Word>, table: seq<Tag>, codes: seq<nat>): (pairs: seq<TaggedWord>)
    requires |codes| <= |words|
    requires forall k :: 0 <= k < |codes| ==> codes[k] < |table|
  {
    seq(|codes|, k requires 0 <= k < |codes| => (words[k], table[codes[k]]))
  }

  /** The output pairs are as many as the kept tokens; when every token is kept
      each pair names the token its prediction was made for. */
  lemma PairsFollowKeptTokens<V>(words: seq<Word>, vocab: map<Word, V>, table: seq<Tag>, codes: seq<nat>)
    requires forall i :: 0 <= i < |words| ==> |words[i]| > 0
    requires |codes| == |FirstCharInVocabulary(words, vocab)|
    requires forall k :: 0 <= k < |codes| ==> codes[k] < |table|
    ensures |PairWithWords(words, table, codes)| == |FirstCharInVocabulary(words, vocab)|
    ensures (forall i :: 0 <= i < |words| ==> [words[i][0]] in vocab) ==>
              forall k :: 0 <= k < |codes| ==>
                PairWithWords(words, table, codes)[k].0 == FirstCharInVocabulary(words, vocab)[k]
  {
    if forall i :: 0 <= i < |words| ==> [words[i][0]] in vocab {
      AllFirstCharsKept(words, vocab);
    }
  }

  lemma {:induction false} AllFirstCharsKept<V>(words: seq<Word>, vocab: map<Word, V>)
    requires forall i :: 0 <= i < |words| ==> |words[i]| > 0 && [words[i][0]] in vocab
    ensures FirstCharInVocabulary(words, vocab) == words
    decreases |words|
  {
    if words != [] {
      var init, last := words[..|words| - 1], words[|words| - 1];
      AllFirstCharsKept(init, vocab);
      assert [last[0]] in vocab;
      assert FirstCharInVocabulary(words, vocab) == init + [last];
      assert init + [last] == words;
    }
  }

  /** When a token is dropped, later pairs name the wrong token: with "ab" out
      of the vocabulary and "cd" in it, the only prediction is for "cd" but is
      paired with "ab". */
  lemma PairsMisalignedExample<V>(v: V, table: seq<Tag>)
    requires |table| > 0
    ensures FirstCharInVocabulary(["ab", "cd"], map["c" := v]) == ["cd"]
    ensures PairWithWords(["ab", "cd"], table, [0])[0].0 == "ab"
  {
  }

  /** The `assert len(macbeth_tags_nltk) == len(macbeth_nn_tags)` holds exactly
      when no token was dropped (the reference tagging has one tag per token). */
  lemma LengthAssertHoldsIffAllKept<V>(words: seq<Word>, vocab: map<Word, V>, table: seq<Tag>, codes: seq<nat>, reference: seq<Tag>)
    requires forall i :: 0 <= i < |words| ==> |words[i]| > 0
    requires |reference| == |words|
    requires |codes| == |FirstCharInVocabulary(words, vocab)|
    requires forall k :: 0 <= k < |codes| ==> codes[k] < |table|
    ensures |reference| == |Decode(table, codes)| <==> forall i :: 0 <= i < |words| ==> [words[i][0]] in vocab
  {
  }

  // ---------------------------------------------------------------------
  // Agreement of two taggings

  /** `sum([a[i] == b[i] for i in range(len(b))])` after `assert len(a) == len(b)`:
      a count between 0 and the length, equal to the length exactly when the
      taggings are identical. */
  function Agreement(a: seq<Tag>, b: seq<Tag>): (n: nat)
    requires |a| == |b|
    ensures n <= |b|
    ensures n == |b| <==> a == b
  {
    if b == [] then 0
    else
      var m := |b| - 1;
      var rest := Agreement(a[..m], b[..m]);
      assert a == a[..m] + [a[m]] && b == b[..m] + [b[m]];
      rest + (if a[m] == b[m] then 1 else 0)
  }

  /** The count is the number of positions where the two taggings agree. */
  lemma {:induction false} AgreementCountsPositions(a: seq<Tag>, b: seq<Tag>)
    requires |a| == |b|
    ensures Agreement(a, b) == |set i | 0 <= i < |b| && a[i] == b[i]|
    decreases |b|
  {
    if b != [] {
      var m := |b| - 1;
      AgreementCountsPositions(a[..m], b[..m]);
      var before := set i | 0 <= i < m && a[..m][i] == b[..m][i];
      var all := set i | 0 <= i < |b| && a[i] == b[i];
      assert before == set i | 0 <= i < m && a[i] == b[i];
      if a[m] == b[m] {
        assert all == before + {m};
      } else {
        assert all == before;
      }
    }
  }
}
