/**
 * `conll_text_reader`: turns the lines of a CoNLL-U file (as returned by
 * `readlines`, line terminators included) into the list of sentences of
 * that file, each sentence the list of its FORM column values.
 *
 * A line equal to "\n" closes the current sentence, a line starting with
 * '#' is a comment, a line whose ID column contains '-' is a multiword
 * token range; every other line contributes the text between its first
 * and second tab. A line with no tab and no '-' makes `toks[1]` raise, which
 * the model reports as a failure naming that line.
 *
 * The loop is specified in two layers: `Classify` says what each line is,
 * and `Scan` runs the loop over the sequence of line kinds.
 */
module ConllReader {
  import opened Wrappers
  import opened Text

  /** What one line of the file is, as the loop body sees it. */
  datatype LineKind = Blank | Comment | MultiwordRange | Token(form: string) | Malformed

  /** The index error raised at `toks[1]`, with the number of the offending line. */
  datatype ReadError = MissingForm(line: nat)

  /** The two lists the reader keeps: finished sentences and the open one. */
  datatype ReaderState = ReaderState(result: seq<seq<string>>, sentence: seq<string>)

  const Start := ReaderState([], [])

  predicate StartsWithHash(line: string)
  {
    |line| > 0 && line[0] == '#'
  }

  /** There is a '-' before the first tab, that is, inside the ID column. */
  predicate DashInFirstField(line: string)
  {
    exists k :: 0 <= k < |line| && line[k] == '-' && '\t' !in line[..k]
  }

  /** The tests of the loop body, in the order the source makes them. */
  function Classify(line: string): (kind: LineKind)
  {
    if line == "\n" then Blank
    else if StartsWithHash(line) then Comment
    else
      var toks := Split(line, '\t');
      if '-' in toks[0] then MultiwordRange
      else if |toks| >= 2 then Token(toks[1])
      else Malformed
  }

  function Kinds(lines: seq<string>): (kinds: seq<LineKind>)
    ensures |kinds| == |lines|
  {
    seq(|lines|, i requires 0 <= i < |lines| => Classify(lines[i]))
  }

  /** One iteration of the loop; None when `toks[1]` would raise. */
  function Step(st: ReaderState, kind: LineKind): (next: Option<ReaderState>)
  {
    match kind
    case Blank => Some(ReaderState(st.result + [st.sentence], []))
    case Comment => Some(st)
    case MultiwordRange => Some(st)
    case Token(form) => Some(ReaderState(st.result, st.sentence + [form]))
    case Malformed => None
  }

  /** The loop run from state `st` over lines of the given kinds. */
  function Scan(st: ReaderState, kinds: seq<LineKind>): (final: Option<ReaderState>)
    decreases |kinds|
  {
    if kinds == [] then Some(st)
    else
      match Step(st, kinds[0])
      case None => None
      case Some(next) => Scan(next, kinds[1..])
  }

  /** What the reader makes of a whole file, None when it raises. */
  function Read(lines: seq<string>): (final: Option<ReaderState>)
  {
    Scan(Start, Kinds(lines))
  }

  /** Continue a scan that may already have failed. */
  function ScanAfter(o: Option<ReaderState>, kinds: seq<LineKind>): (final: Option<ReaderState>)
  {
    match o
    case None => None
    case Some(st) => Scan(st, kinds)
  }

  /** The number of sentence ends. */
  function CountBlank(kinds: seq<LineKind>): (n: nat)
  {
    if kinds == [] then 0
    else (if kinds[0] == Blank then 1 else 0) + CountBlank(kinds[1..])
  }

  /** The number of lines exactly equal to "\n". */
  function CountNewlineLines(lines: seq<string>): (n: nat)
  {
    if lines == [] then 0
    else (if lines[0] == "\n" then 1 else 0) + CountNewlineLines(lines[1..])
  }

  /** The FORM values of the token lines, in file order. */
  function Forms(kinds: seq<LineKind>): (forms: seq<string>)
    ensures |forms| + CountBlank(kinds) <= |kinds|
  {
    if kinds == [] then []
    else (if kinds[0].Token? then [kinds[0].form] else []) + Forms(kinds[1..])
  }

  /** All sentences one after the other. */
  function Flatten(sentences: seq<seq<string>>): (tokens: seq<string>)
  {
    if sentences == [] then []
    else Flatten(sentences[..|sentences| - 1]) + sentences[|sentences| - 1]
  }

  /** The reader itself (dep_parsing/utils.py and tagging/utils.py hold the same code).
      It succeeds exactly when the loop model does, returns the sentences the loop
      model finishes with, and otherwise names the first line that has no FORM column. */
  method ReadConllText(lines: seq<string>) returns (r: Result<seq<seq<string>>, ReadError>)
    ensures r.Success? <==> Read(lines).Some?
    ensures r.Success? ==> r.value == Read(lines).value.result
    ensures r.Failure? ==>
              && r.error.line < |lines|
              && Classify(lines[r.error.line]) == Malformed
              && forall j :: 0 <= j < r.error.line ==> Classify(lines[j]) != Malformed
  {
    var result: seq<seq<string>> := [];
    var sentence: seq<string> := [];
    ghost var kinds := Kinds(lines);
    var i := 0;
    while i < |lines|
      invariant 0 <= i <= |lines|
      invariant Read(lines) == Scan(ReaderState(result, sentence), kinds[i..])
      invariant forall j :: 0 <= j < i ==> Classify(lines[j]) != Malformed
    {
      var line := lines[i];
      assert kinds[i..][0] == Classify(line) && kinds[i..][1..] == kinds[i + 1..];
      if line == "\n" {
        result := result + [sentence];
        sentence := [];
        i := i + 1;
        continue;
      }
      if StartsWithHash(line) {
        i := i + 1;
        continue;
      }
      var toks := Split(line, '\t');
      if '-' !in toks[0] {
        if |toks| < 2 {
          return Failure(MissingForm(i));
        }
        sentence := sentence + [toks[1]];
      }
      i := i + 1;
    }
    r := Success(result);
  }

  // ---------------------------------------------------------------------
  // What a single line is

  /** Exactly the lines "\n" end a sentence. */
  lemma ClassifyBlank(line: string)
    ensures Classify(line) == Blank <==> line == "\n"
  {
  }

  lemma FirstFieldDash(line: string)
    ensures '-' in Split(line, '\t')[0] <==> DashInFirstField(line)
  {
  }

  /** A line is a multiword-token range exactly when its ID column holds a '-'
      (so an empty-node ID such as "5.1" is not one). */
  lemma ClassifyRange(line: string)
    requires line != "\n" && !StartsWithHash(line)
    ensures Classify(line) == MultiwordRange <==> DashInFirstField(line)
  {
    FirstFieldDash(line);
  }

  /** The reader fails on a line exactly when it is not "\n", not a comment and
      holds neither a tab nor a '-': this includes a line "\r\n", should the
      reader be handed one (a file read in text mode turns it into "\n"). */
  lemma ClassifyMalformed(line: string)
    ensures Classify(line) == Malformed <==>
              line != "\n" && !StartsWithHash(line) && '\t' !in line && '-' !in line
  {
    SplitPieces(line, '\t');
    if line != "\n" && !StartsWithHash(line) && '\t' !in line {
      SplitNoSeparator(line, '\t');
    }
  }

  /** A token line contributes exactly the text between its first and second tab,
      and its ID column holds no '-'. */
  lemma TokenForm(line: string, form: string) returns (id: string, rest: string)
    requires Classify(line) == Token(form)
    ensures line == id + "\t" + form + rest
    ensures '\t' !in id && '\t' !in form && '-' !in id
    ensures rest == "" || rest[0] == '\t'
  {
    var toks := Split(line, '\t');
    assert |toks| >= 2 && toks[1] == form && '-' !in toks[0];
    id, rest := SecondPiece(line, toks);
  }

  lemma SecondPiece(line: string, toks: seq<string>) returns (id: string, rest: string)
    requires toks == Split(line, '\t') && |toks| >= 2
    ensures line == id + "\t" + toks[1] + rest
    ensures id == toks[0] && '\t' !in id && '\t' !in toks[1]
    ensures rest == "" || rest[0] == '\t'
  {
    SplitPieces(line, '\t');
    id := toks[0];
    rest := if |toks| == 2 then "" else "\t" + Join(toks[2..], "\t");
    JoinSplit(line, '\t');
    JoinTwoOrMore(toks, "\t");
    assert line == id + "\t" + toks[1] + rest;
    assert '\t' !in id && '\t' !in toks[1];
    assert rest == "" || rest[0] == '\t';
  }

  lemma JoinTwoOrMore(toks: seq<string>, sep: string)
    requires |toks| >= 2
    ensures Join(toks, sep) ==
              toks[0] + sep + toks[1] + (if |toks| == 2 then "" else sep + Join(toks[2..], sep))
  {
    assert toks[1..][0] == toks[1] && toks[1..][1..] == toks[2..];
  }

  // ---------------------------------------------------------------------
  // What the loop does over many lines

  lemma {:induction false} ScanAppend(st: ReaderState, a: seq<LineKind>, b: seq<LineKind>)
    ensures Scan(st, a + b) == ScanAfter(Scan(st, a), b)
    decreases |a|
  {
    if a == [] {
      assert a + b == b;
    } else {
      assert (a + b)[0] == a[0] && (a + b)[1..] == a[1..] + b;
      match Step(st, a[0])
      case None =>
      case Some(next) => ScanAppend(next, a[1..], b);
    }
  }

  lemma KindsAppend(a: seq<string>, b: seq<string>)
    ensures Kinds(a + b) == Kinds(a) + Kinds(b)
  {
  }

  /** The reader fails exactly when some line has no FORM column. */
  lemma {:induction false} ScanFailsIff(st: ReaderState, kinds: seq<LineKind>)
    ensures Scan(st, kinds).None? <==> Malformed in kinds
    decreases |kinds|
  {
    if kinds != [] {
      assert kinds == [kinds[0]] + kinds[1..];
      match Step(st, kinds[0])
      case None =>
      case Some(next) => ScanFailsIff(next, kinds[1..]);
    }
  }

  /** Finished sentences are never touched again, and one is added per "\n" line. */
  lemma {:induction false} ScanCountsSentences(st: ReaderState, kinds: seq<LineKind>, e: ReaderState)
    requires Scan(st, kinds) == Some(e)
    ensures |e.result| == |st.result| + CountBlank(kinds)
    ensures st.result <= e.result
    decreases |kinds|
  {
    if kinds != [] {
      var next := Step(st, kinds[0]).value;
      ScanCountsSentences(next, kinds[1..], e);
    }
  }

  lemma FlattenSnoc(ss: seq<seq<string>>, s: seq<string>)
    ensures Flatten(ss + [s]) == Flatten(ss) + s
  {
  }

  /** Nothing is reordered and nothing but comment, range and blank lines is
      lost: the tokens of the finished sentences followed by the open one are
      the FORM values of the token lines in file order. */
  lemma {:induction false} ScanKeepsTokensInOrder(st: ReaderState, kinds: seq<LineKind>, e: ReaderState)
    requires Scan(st, kinds) == Some(e)
    ensures Flatten(e.result) + e.sentence == Flatten(st.result) + st.sentence + Forms(kinds)
    decreases |kinds|
  {
    if kinds != [] {
      var next := Step(st, kinds[0]).value;
      ScanKeepsTokensInOrder(next, kinds[1..], e);
      if kinds[0] == Blank {
        FlattenSnoc(st.result, st.sentence);
      }
    }
  }

  /** Without a sentence end the reader only extends the open sentence. */
  lemma {:induction false} ScanOpenSentence(st: ReaderState, kinds: seq<LineKind>, e: ReaderState)
    requires Blank !in kinds
    requires Scan(st, kinds) == Some(e)
    ensures e == ReaderState(st.result, st.sentence + Forms(kinds))
    decreases |kinds|
  {
    if kinds == [] {
      assert st.sentence + [] == st.sentence;
    } else {
      assert kinds == [kinds[0]] + kinds[1..];
      var next := Step(st, kinds[0]).value;
      ScanOpenSentence(next, kinds[1..], e);
      if !kinds[0].Token? {
        assert st.sentence + [] == st.sentence;
      }
    }
  }

  /** A "\n" line closes the sentence made of every FORM since the previous one,
      even when there is none. */
  lemma SentenceClosedAtBlank(st: ReaderState, a: seq<LineKind>, e: ReaderState)
    requires Blank !in a
    requires Scan(st, a + [Blank]) == Some(e)
    ensures e == ReaderState(st.result + [st.sentence + Forms(a)], [])
  {
    ScanAppend(st, a, [Blank]);
    var mid := Scan(st, a).value;
    ScanOpenSentence(st, a, mid);
  }

  /** The tokens after the last "\n" line are never returned: there is no final flush. */
  lemma TrailingSentenceDropped(a: seq<string>, b: seq<string>, e: ReaderState)
    requires forall i :: 0 <= i < |b| ==> b[i] != "\n"
    requires Read(a + b) == Some(e)
    ensures Read(a).Some? && e.result == Read(a).value.result
  {
    KindsAppend(a, b);
    ScanAppend(Start, Kinds(a), Kinds(b));
    assert Blank !in Kinds(b);
    ScanOpenSentence(Read(a).value, Kinds(b), e);
  }

  /** Comment lines and multiword-range lines can be deleted anywhere without
      changing what the reader does: they neither add a token nor end a sentence. */
  lemma InertLineRemovable(a: seq<string>, x: string, b: seq<string>)
    requires Classify(x) == Comment || Classify(x) == MultiwordRange
    ensures Read(a + [x] + b) == Read(a + b)
  {
    KindsAppend(a + [x], b);
    KindsAppend(a, [x]);
    KindsAppend(a, b);
    var ka, kb := Kinds(a), Kinds(b);
    ScanAppend(Start, ka + [Classify(x)], kb);
    ScanAppend(Start, ka, [Classify(x)]);
    ScanAppend(Start, ka, kb);
    assert Kinds([x]) == [Classify(x)];
    match Scan(Start, ka)
    case None =>
    case Some(m) =>
      assert Scan(m, [Classify(x)]) == Some(m);
  }

  lemma {:induction false} CountBlankKinds(lines: seq<string>)
    ensures CountBlank(Kinds(lines)) == CountNewlineLines(lines)
    decreases |lines|
  {
    if lines != [] {
      CountBlankKinds(lines[1..]);
      assert Kinds(lines)[1..] == Kinds(lines[1..]);
    }
  }

  /** The reader returns one sentence per line equal to "\n", and never more
      tokens than the file has lines that are not "\n". */
  lemma ReadCounts(lines: seq<string>, e: ReaderState)
    requires Read(lines) == Some(e)
    ensures |e.result| == CountNewlineLines(lines)
    ensures |Flatten(e.result)| + CountNewlineLines(lines) <= |lines|
  {
    CountBlankKinds(lines);
    ScanCounts(Kinds(lines), e);
  }

  lemma ScanCounts(kinds: seq<LineKind>, e: ReaderState)
    requires Scan(Start, kinds) == Some(e)
    ensures |e.result| == CountBlank(kinds)
    ensures |Flatten(e.result)| + CountBlank(kinds) <= |kinds|
  {
    ScanCountsSentences(Start, kinds, e);
    ScanKeepsTokensInOrder(Start, kinds, e);
    assert Flatten(Start.result) + Start.sentence == [];
    assert |Flatten(e.result)| <= |Forms(kinds)|;
  }

  /** The reader raises exactly when some line has no FORM column. */
  lemma ReadFailsIff(lines: seq<string>)
    ensures Read(lines).None? <==> exists i :: 0 <= i < |lines| && Classify(lines[i]) == Malformed
  {
    ScanFailsIff(Start, Kinds(lines));
    if Malformed in Kinds(lines) {
      var i :| 0 <= i < |lines| && Kinds(lines)[i] == Malformed;
      assert Classify(lines[i]) == Malformed;
    }
    if exists i :: 0 <= i < |lines| && Classify(lines[i]) == Malformed {
      var i :| 0 <= i < |lines| && Classify(lines[i]) == Malformed;
      assert Kinds(lines)[i] == Malformed;
    }
  }

  // ---------------------------------------------------------------------
  // Concrete lines

  /** A token line made of an ID column, a FORM column and whatever columns
      follow (`rest` is empty or starts with the next tab): the ID and the FORM
      are tab-free, and the ID is non-empty, contains no '-' and does not start
      with '#'. */
  predicate PlainTokenLine(id: string, form: string, rest: string)
  {
    '\t' !in id && '\t' !in form && (rest == "" || rest[0] == '\t')
    && '-' !in id && |id| > 0 && id[0] != '#'
  }

  /** Such a line, with any number of further columns, is read as its FORM. */
  lemma TokenLine(id: string, form: string, rest: string)
    requires PlainTokenLine(id, form, rest)
    ensures Classify(id + "\t" + form + rest) == Token(form)
  {
    var line := id + "\t" + form + rest;
    var after := "\t" + form + rest;
    assert line == id + after;
    SplitPrefix(id, after, '\t');
    SplitPrefix(form, rest, '\t');
    assert Split(rest, '\t')[0] == "" by {
      if rest != "" {
        assert rest[0] == '\t';
      }
    }
    assert after[0] == '\t' && after[1..] == form + rest;
    assert Split(after, '\t') == [""] + Split(form + rest, '\t');
    assert Split(line, '\t')[0] == id && Split(line, '\t')[1] == form;
    assert line[0] == id[0];
    assert line != "\n" by {
      assert |line| > 1;
    }
  }

  /** Two token lines and a "\n" line make one sentence of the two FORMs. */
  lemma TwoTokenSentence(id1: string, f1: string, r1: string, id2: string, f2: string, r2: string)
    requires PlainTokenLine(id1, f1, r1) && PlainTokenLine(id2, f2, r2)
    ensures Read([id1 + "\t" + f1 + r1, id2 + "\t" + f2 + r2, "\n"])
         == Some(ReaderState([[f1, f2]], []))
  {
    var l1, l2 := id1 + "\t" + f1 + r1, id2 + "\t" + f2 + r2;
    TokenLine(id1, f1, r1);
    TokenLine(id2, f2, r2);
    var kinds := Kinds([l1, l2, "\n"]);
    assert kinds[0] == Token(f1) && kinds[1] == Token(f2) && kinds[2] == Classify("\n");
    assert kinds == [Token(f1), Token(f2), Blank];
    ScanTwoTokens(f1, f2);
  }

  /** A full ten-column CoNLL-U line (ID, FORM, LEMMA, UPOS, XPOS, FEATS, HEAD, DEPREL, DEPS, MISC) is read as its FORM. */
  lemma TenColumnLine(id: string, form: string, lemmaForm: string, upos: string, xpos: string,
                      feats: string, head: string, deprel: string, deps: string, misc: string)
    requires '\t' !in id && '\t' !in form && '-' !in id && |id| > 0 && id[0] != '#'
    ensures Classify(id + "\t" + form + "\t" + lemmaForm + "\t" + upos + "\t" + xpos + "\t" + feats
                     + "\t" + head + "\t" + deprel + "\t" + deps + "\t" + misc + "\n") == Token(form)
  {
    var rest := "\t" + lemmaForm + "\t" + upos + "\t" + xpos + "\t" + feats
                + "\t" + head + "\t" + deprel + "\t" + deps + "\t" + misc + "\n";
    TokenLine(id, form, rest);
    assert id + "\t" + form + rest == id + "\t" + form + "\t" + lemmaForm + "\t" + upos + "\t" + xpos + "\t" + feats
                     + "\t" + head + "\t" + deprel + "\t" + deps + "\t" + misc + "\n";
  }

  lemma ScanTwoTokens(f1: string, f2: string)
    ensures Scan(Start, [Token(f1), Token(f2), Blank]) == Some(ReaderState([[f1, f2]], []))
  {
    var kinds := [Token(f1), Token(f2), Blank];
    assert kinds[1..] == [Token(f2), Blank] && kinds[1..][1..] == [Blank];
    var s1 := ReaderState([], [f1]);
    var s2 := ReaderState([], [f1, f2]);
    assert Start.sentence + [f1] == [f1];
    assert Step(Start, Token(f1)) == Some(s1);
    assert [f1] + [f2] == [f1, f2];
    assert Step(s1, Token(f2)) == Some(s2);
    assert [] + [[f1, f2]] == [[f1, f2]];
    assert Step(s2, Blank) == Some(ReaderState([[f1, f2]], []));
    assert Scan(s2, [Blank]) == Some(ReaderState([[f1, f2]], [])) by {
      assert [Blank][1..] == [];
    }
    assert Scan(s1, [Token(f2), Blank]) == Scan(s2, [Blank]);
  }

  /** An empty-node line such as "5.1" is read. */
  lemma EmptyNodeLine()
    ensures Classify("5.1\tfoo\t_\n") == Token("foo")
  {
    TokenLine("5.1", "foo", "\t_\n");
    assert "5.1" + "\t" + "foo" + "\t_\n" == "5.1\tfoo\t_\n";
  }

  /** A multiword range line such as "1-2" is skipped. */
  lemma RangeLine()
    ensures Classify("1-2\tdel\t_\n") == MultiwordRange
  {
  }

  /** The line "\r\n", when it reaches the reader as it is, makes it raise. */
  lemma CrlfBlankLine()
    ensures Classify("\r\n") == Malformed
  {
  }
}
