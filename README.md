# P1-NLP-TaggersParsers: the sequential logic between the library calls

This project is a Dafny model of the parts of the tagging and parsing scripts that are the scripts' own logic, not calls into NLTK, Stanza, CoreNLP, gensim or keras. It has four parts.

- **CoNLL-U reader** (`ConllReader`). `conll_text_reader` turns the lines of a CoNLL-U file into a list of sentences, each sentence a list of FORM values. A line `"\n"` closes the current sentence. A line starting with `#` is a comment. A line whose ID column holds a `-` is a multiword-token range and adds nothing. Every other line adds the text between its first and second tab. A line without a tab and without a `-` makes the reader raise; the model returns a failure that names the line.
- **CoNLL-U writer** (`ConllWriter`). These are the Stanza script's loops that append the rows of `CoNLL.convert_dict` to a string buffer. The model follows them exactly, including the `[:-1]` cut. It proves them against an independent statement of the format: fields joined by tabs, `"\r\n"` after each word, and a blank line after each sentence.
- **Tagger bookkeeping** (`PosTagging`). This covers:
  - the table of Penn Treebank tags, whose order is unspecified, and the encoding of tags as positions in it;
  - the training lists built from the tagged words that have an embedding;
  - the Macbeth feature list, whose lookups use the first character `w[0]`;
  - the pairing of predictions with tokens;
  - the count of agreeing tags.
- **Constituency-parse evaluation** (`ParseEvaluation`). This models the English and the Spanish scoring loops of the CoreNLP script: three score lists, the skip and analysed counters, and the stop rules.

The modules `Text` (Python's `str.split` on one character and `str.join`) and `Wrappers` (`Option`, `Result`) support the four parts.

Several things are inputs of the model:
- The file is the list `readlines` returns, with line terminators.
- Vocabulary membership and lookup are a `map` from words to vectors of an arbitrary type.
- The predicted tag indices are a sequence of naturals.
- The scoring of each sentence is an `Option<Scores<S>>`: `None` where the scorer raises, with score values of an arbitrary type `S`. The i-th outcome stands for the i-th sentence scored against the i-th gold tree.

The reader appears twice in the source, identically: `dep_parsing/utils.py:17-30` and `tagging/utils.py:7-20`. It is modelled once. The serialiser block appears four times (English, Spanish, Finnish, Chinese) and is modelled once as `WriteDocument`. So the four serialiser blocks compute the same function of their input by construction.

## Model

| member | source | states |
|---|---|---|
| Text.Split | dep_parsing/utils.py:27 | `line.split('\t')` always gives at least one piece |
| Text.SplitPieces | dep_parsing/utils.py:27 | no piece holds the separator; there are two or more pieces exactly when the separator occurs; the first piece is the text before the first separator |
| Text.JoinSplit | dep_parsing/utils.py:27 | joining the pieces with the separator gives the line back |
| Text.SplitJoin | dep_parsing/stanza_dep_parsing.py:55-57 | splitting tab-free fields joined by tabs gives the fields back |
| ConllReader.ReadConllText | dep_parsing/utils.py:17-30 | it succeeds exactly when the loop model does and returns the finished sentences; on failure it names a line without a FORM column, and no earlier line lacks one |
| ConllReader.ClassifyBlank | dep_parsing/utils.py:21-24 | a line ends a sentence exactly when it equals `"\n"` |
| ConllReader.ClassifyRange | dep_parsing/utils.py:27-28 | a non-blank, non-comment line is skipped as a range exactly when a `-` occurs before its first tab; empty-node IDs such as `5.1` are not ranges |
| ConllReader.ClassifyMalformed | dep_parsing/utils.py:21-29 | a line makes `toks[1]` raise exactly when it is not `"\n"`, does not start with `#`, and holds neither a tab nor a `-` |
| ConllReader.TokenForm | dep_parsing/utils.py:27-29 | a token line is ID, tab, FORM, then nothing or a tab; the recorded token is exactly the FORM and the ID holds no `-` |
| ConllReader.ScanAppend | dep_parsing/utils.py:20-29 | reading a concatenation of lines is reading the first part, then continuing with the second |
| ConllReader.ScanFailsIff | dep_parsing/utils.py:27-29 | the loop fails exactly when some line kind is malformed |
| ConllReader.ScanCountsSentences | dep_parsing/utils.py:21-24 | finished sentences are never changed afterwards, and each `"\n"` line adds exactly one |
| ConllReader.ScanKeepsTokensInOrder | dep_parsing/utils.py:20-29 | the finished sentences followed by the open one hold exactly the FORMs of the token lines, in file order |
| ConllReader.ScanOpenSentence | dep_parsing/utils.py:25-29 | without a `"\n"` line the loop only extends the open sentence |
| ConllReader.SentenceClosedAtBlank | dep_parsing/utils.py:21-24 | a `"\n"` line appends the FORMs read since the previous one as a sentence, even when there are none |
| ConllReader.TrailingSentenceDropped | dep_parsing/utils.py:30 | lines after the last `"\n"` line never change the returned sentences |
| ConllReader.InertLineRemovable | dep_parsing/utils.py:25-28 | deleting a comment or range line anywhere changes nothing |
| ConllReader.ReadCounts | dep_parsing/utils.py:20-29 | the number of sentences equals the number of `"\n"` lines; the token count plus that number is at most the number of lines |
| ConllReader.ReadFailsIff | dep_parsing/utils.py:27-29 | reading fails exactly when some line is malformed |
| ConllReader.TokenLine | tagging/utils.py:17-19 | a line of a plain ID, a FORM and any number of further columns contributes its FORM |
| ConllReader.TwoTokenSentence | tagging/utils.py:10-20 | two token lines with any number of columns, followed by `"\n"`, give one sentence of the two FORMs |
| ConllReader.TenColumnLine | tagging/utils.py:17-19 | a full ten-column CoNLL-U line (ID, FORM, LEMMA, UPOS, XPOS, FEATS, HEAD, DEPREL, DEPS, MISC) with a plain ID contributes its FORM, whatever the other eight fields hold |
| ConllReader.EmptyNodeLine | tagging/utils.py:17-19 | an empty-node line with ID `5.1` contributes its FORM |
| ConllReader.RangeLine | tagging/utils.py:17-18 | a range line with ID `1-2` contributes nothing |
| ConllReader.CrlfBlankLine | tagging/utils.py:11-19 | the line `"\r\n"`, when handed to the function as it is, makes it raise |
| ConllWriter.WriteDocument | dep_parsing/stanza_dep_parsing.py:53-58 | the buffer ends as the loop model gives it; when every word has a field, it is the old buffer followed by the intended text |
| ConllWriter.WriteDocuments | dep_parsing/stanza_dep_parsing.py:50-58 | appending one document per sentence to one buffer writes their concatenation |
| ConllWriter.RowWritten | dep_parsing/stanza_dep_parsing.py:55-57 | a word with a field is written as its fields joined by single tabs, with no trailing tab, then `"\r\n"` |
| ConllWriter.EmptyRowCutsPreviousLine | dep_parsing/stanza_dep_parsing.py:57 | a word with no field cuts the `'\n'` off the previous word's line end |
| ConllWriter.SentenceWritten | dep_parsing/stanza_dep_parsing.py:54-58 | a sentence of non-empty words is appended as its lines followed by `"\r\n"`, after unchanged earlier text |
| ConllWriter.DocumentWritten | dep_parsing/stanza_dep_parsing.py:53-58 | with non-empty words, earlier text is an unchanged prefix and the sentence blocks follow in input order |
| ConllWriter.DocumentsChain | dep_parsing/stanza_dep_parsing.py:50-58 | writing two documents in turn into one buffer is writing their concatenation |
| ConllWriter.SentenceEndsWithBlankLine | dep_parsing/stanza_dep_parsing.py:58 | every sentence block ends with `"\r\n"`, and a non-empty one with `"\r\n\r\n"` (a blank separator line) |
| ConllWriter.LineCount | dep_parsing/stanza_dep_parsing.py:57-58 | without `'\n'` in fields, the text holds one `'\n'` per word plus one per sentence |
| ConllWriter.RowFieldsRecoverable | dep_parsing/stanza_dep_parsing.py:55-57 | a written word line, its `"\r\n"` removed and split at tabs, gives back its tab-free fields |
| ConllWriter.EmptyRowExample | dep_parsing/stanza_dep_parsing.py:54-58 | the sentence `[["a"], []]` is written as `"a\r\r\n\r\n"` |
| PosTagging.Distinct | tagging/nltk_tagging.py:98 | one admissible `list(set(...))`: duplicate-free and holding exactly the corpus tags |
| PosTagging.IndexOf | tagging/nltk_tagging.py:119 | `index` gives the first position holding the tag |
| PosTagging.Encode | tagging/nltk_tagging.py:119 | every code is a valid index into the table and points at its tag |
| PosTagging.DecodeEncode | tagging/nltk_tagging.py:146 | decoding encoded tags gives them back, whatever the table order |
| PosTagging.EncodeDecode | tagging/nltk_tagging.py:146 | with a duplicate-free table, encoding decoded codes gives them back |
| PosTagging.TableCoversCorpus | tagging/nltk_tagging.py:98 | any table `list(set(...))` may give holds every corpus tag, so `index` never fails |
| PosTagging.InVocabulary | tagging/nltk_tagging.py:116-117 | the kept tagged words come from the corpus and have embeddings; there are at most as many as tagged words, and equally many exactly when every word has an embedding |
| PosTagging.InVocabularyAppend | tagging/nltk_tagging.py:116-119 | the filter keeps corpus order: filtering a concatenation concatenates the filtered parts |
| PosTagging.BuildTrainingData | tagging/nltk_tagging.py:114-119 | `x` and `y` have one entry per kept tagged word, in corpus order; `x` holds its vector and `y` a valid index of its tag |
| PosTagging.TrainingLabelsDecode | tagging/nltk_tagging.py:119 | decoding the training labels gives the tags of the kept words |
| PosTagging.FirstCharInVocabulary | tagging/nltk_tagging.py:138-139 | the kept Macbeth tokens are tokens whose first character has an embedding; at most as many as the tokens, and equally many exactly when every first character has one |
| PosTagging.FirstCharInVocabularyAppend | tagging/nltk_tagging.py:138-140 | the filter keeps text order: filtering a concatenation concatenates the filtered parts |
| PosTagging.MacbethFeatures | tagging/nltk_tagging.py:137-140 | `x_macbeth` holds, in order, the vector of the first character of each kept token; it is no longer than the token list |
| PosTagging.PairsFollowKeptTokens | tagging/nltk_tagging.py:147 | there are as many output pairs as kept tokens; when none is dropped, each pair names the token its prediction was made for |
| PosTagging.PairsMisalignedExample | tagging/nltk_tagging.py:147 | with `"ab"` dropped and `"cd"` kept, the single prediction (made for `"cd"`) is paired with `"ab"` |
| PosTagging.LengthAssertHoldsIffAllKept | tagging/nltk_tagging.py:149 | the length assert holds exactly when no token was dropped |
| PosTagging.Agreement | tagging/nltk_tagging.py:149-150 | under the equal-length assert (here and at lines 86-87), the count lies within the length and equals it exactly when the taggings are identical |
| PosTagging.AgreementCountsPositions | tagging/nltk_tagging.py:150 | the count is the number of positions where the two taggings agree |
| ParseEvaluation.Evaluate | cons_parsing/corenlp_cons_parsing.py:85-110 | the loop stops only after consuming at least one outcome, and ends with the outcomes only when they run out |
| ParseEvaluation.EvaluateEnglish | cons_parsing/corenlp_cons_parsing.py:39-65 | the English loop's lists and counters are those of the loop model without the skip test |
| ParseEvaluation.EvaluateSpanish | cons_parsing/corenlp_cons_parsing.py:73-110 | the Spanish loop's lists and counters are those of the loop model with the skip test after a scored sentence |
| ParseEvaluation.EvaluateCounts | cons_parsing/corenlp_cons_parsing.py:97-105 | every consumed outcome counts once, as skipped or analysed; analysed grows by the number of scored sentences |
| ParseEvaluation.EvaluateRecords | cons_parsing/corenlp_cons_parsing.py:102-104 | the three lists gain the recall, precision and tag accuracy of the scored sentences, in order |
| ParseEvaluation.EvaluateStops | cons_parsing/corenlp_cons_parsing.py:105-110 | analysed never exceeds 100; the loop runs out of outcomes only below 100; it stops at 100 only right after a scored sentence; the skip stop fires only in the Spanish loop, at exactly 1000 skips, right after a scored sentence |
| ParseEvaluation.FromStart | cons_parsing/corenlp_cons_parsing.py:73-110 | from empty lists: three lists of equal length `sents_analyzed` of at most 100 in input order; `skipped + analysed` equals the sentences attempted; below 100 without a skip stop, every sentence was attempted; English never stops on skips |
| ParseEvaluation.FailuresOnlySkip | cons_parsing/corenlp_cons_parsing.py:97-101 | failed scorings only add to the skip count and leave the lists and analysed count unchanged |
| ParseEvaluation.PastLimitNeverStops | cons_parsing/corenlp_cons_parsing.py:106-108 | once more than 1000 sentences are skipped, the skip stop can no longer fire |
| ParseEvaluation.SkipLimitMissed | cons_parsing/corenlp_cons_parsing.py:97-108 | when the first 1001 sentences all fail, the Spanish loop never stops on skips and skips more than 1000 |
| ParseEvaluation.EvaluateCorrected | cons_parsing/corenlp_cons_parsing.py:97-110 | the corrected loop also stops only after consuming an outcome, and ends with the outcomes only when they run out |
| ParseEvaluation.CorrectedBoundsSkips | cons_parsing/corenlp_cons_parsing.py:97-108 | with the skip test right after the skip, at most 1000 sentences are skipped, and the loop stops on skips exactly when 1000 are reached, at a failed sentence |
| ParseEvaluation.CorrectedAgreesBelowLimit | cons_parsing/corenlp_cons_parsing.py:97-110 | while fewer than 1000 skips are possible, the corrected and the written loops agree |

## Findings

| source | as written | input that shows it | evidently intended | confidence | as-written member | corrected member |
|---|---|---|---|---|---|---|
| cons_parsing/corenlp_cons_parsing.py:97-108 | the test `skipped_sents == 1000` runs only after a scored sentence, and the skip count can pass 1000 between two scored sentences | the first 1001 sentences all fail to score: the count goes from 1000 to 1001 with no test, and the loop goes on with no skip limit | stop once 1000 sentences have been skipped | medium, not executed: the authors may have meant only a report point | ParseEvaluation.SkipLimitMissed | ParseEvaluation.CorrectedBoundsSkips |

`EvaluateSpanish` follows the source as written. `EvaluateCorrected` is the intended loop; `CorrectedAgreesBelowLimit` shows that the two differ only once 1000 sentences can be skipped.

## Left out

- Library taggers (the default, unigram, bigram and trigram backoff chain, `nltk.pos_tag`): their behaviour is in NLTK, which is not part of this model. Their outputs appear only as the tag sequences given to `Agreement`.
- Word2Vec training, the keras model, its training, evaluation and prediction, `np.argmax`, `np.array` and `to_categorical`: these are floating-point machine learning in foreign libraries. Embeddings are a map; predictions are a sequence of indices.
- `train_test_split`: random and defined by scikit-learn.
- Stanza and CoreNLP pipelines, `CoreNLPClient`, `CoNLL.convert_dict`, `to_conll`: library and network calls. This covers the Stanza and CoreNLP tagging scripts and the CoreNLP dependency script, which only copy pairs out of library objects. `convert_dict`'s rows are the writer's input.
- ConllReader.CrlfBlankLine: it is about the function handed the line `"\r\n"` (for example from an `io.StringIO`). Every call site opens its file in text mode (`open(path, 'r')`), where Python turns `"\r\n"` and `"\r"` into `"\n"` before `readlines` returns, so a CRLF file's blank line reaches the reader as `"\n"` and closes a sentence. The newline translation of text-mode files is not modelled.
- Errors outside the `try`: only `score_trees` is guarded. A raise in `client.annotate`, in building either tree, or at `corenlp_model['sentences'][0]` aborts the whole run rather than skipping the sentence; an `Option` outcome cannot express that abort.
- The Moses detokenizer, the CoNLL 2018 scorer (`load_conllu`, `evaluate`) and PYEVALB (tree building and scoring): external oracles. A scoring is an `Option` outcome.
- File I/O and printing (`tups_to_file`, `print_results`, the percentage prints, the "Skipped with" message) and `np.mean` of the score lists. This also covers the swapped "Precision"/"Recall" labels of the printed means.
- The regular-expression label normalisation of the Spanish gold trees and the `str.replace` clean-up of the CoreNLP dependency output: corpus-specific string patching with Python regex semantics.
- Reading the file: the file object and `readlines` are replaced by the list of lines that `readlines` returns.
- ConllWriter.LineCount: it counts `'\n'` characters and requires fields free of `'\n'`; when no field holds a `'\n'`, that count equals the number of `"\r\n"` line ends. A field holding a `'\n'` outside a `"\r\n"`, such as `"a\nb"`, is not covered.
- ConllWriter.WriteDocument: its `ensures` relates the buffer to the intended text only when every word has a field. For empty words it states the exact loop result (`AppendDocument`), which `EmptyRowCutsPreviousLine` describes.
- PosTagging.MacbethFeatures: it requires every token to be non-empty. The source would raise at `w[0]` on an empty token; the tokenizer does not produce one.
- The score lists keep score values of an arbitrary type; nothing is said about their numeric range.
