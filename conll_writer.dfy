/**
 * The loops that turn the rows of `CoNLL.convert_dict` (sentences, each a
 * list of words, each word a list of field values) into CoNLL-U text by
 * appending to a string buffer: every field followed by a tab, then the last
 * character cut off (`[:-1]`) and "\r\n" added for each word, and one more
 * "\r\n" after each sentence.
 *
 * `AppendFields` .. `AppendDocument` follow the loops exactly, including the
 * case of a word without fields, where the cut removes a character that an
 * earlier iteration wrote. `DocumentText` is the intended format written
 * independently: fields joined by tabs, one line per word, a blank line
 * after each sentence. The two agree whenever every word has a field.
 */
module ConllWriter {
  import opened Text

  /** A word: its field values, in column order. */
  type Row = seq<string>
  /** A sentence: its words, in order. */
  type SentenceRows = seq<Row>
  /** What `CoNLL.convert_dict` returns for one document. */
  type Document = seq<SentenceRows>

  const LineEnd := "\r\n"

  /** Python's `s[:-1]`, which is "" for the empty string. */
  function DropLast(s: string): (cut: string)
  {
    if |s| == 0 then "" else s[..|s| - 1]
  }

  /** The innermost loop: each field followed by a tab. */
  function AppendFields(buf: string, fields: Row): (after: string)
    decreases |fields|
  {
    if fields == [] then buf
    else AppendFields(buf + fields[0] + "\t", fields[1..])
  }

  /** One word: its fields, the last character cut off, then "\r\n". */
  function AppendRow(buf: string, row: Row): (after: string)
  {
    DropLast(AppendFields(buf, row)) + LineEnd
  }

  /** One sentence: its words, then an extra "\r\n". */
  function AppendSentence(buf: string, rows: SentenceRows): (after: string)
    decreases |rows|
  {
    if rows == [] then buf + LineEnd
    else AppendSentence(AppendRow(buf, rows[0]), rows[1..])
  }

  /** One document: its sentences in order. */
  function AppendDocument(buf: string, doc: Document): (after: string)
    decreases |doc|
  {
    if doc == [] then buf
    else AppendDocument(AppendSentence(buf, doc[0]), doc[1..])
  }

  /** The line of a word in the intended format. */
  function RowText(row: Row): (line: string)
  {
    Join(row, "\t") + LineEnd
  }

  /** The lines of a sentence followed by a blank line. */
  function SentenceText(rows: SentenceRows): (block: string)
    decreases |rows|
  {
    if rows == [] then LineEnd
    else RowText(rows[0]) + SentenceText(rows[1..])
  }

  /** The blocks of all sentences, in order. */
  function DocumentText(doc: Document): (text: string)
    decreases |doc|
  {
    if doc == [] then ""
    else SentenceText(doc[0]) + DocumentText(doc[1..])
  }

  predicate NoEmptySentenceRows(rows: SentenceRows)
  {
    forall j :: 0 <= j < |rows| ==> rows[j] != []
  }

  predicate NoEmptyRows(doc: Document)
  {
    forall i :: 0 <= i < |doc| ==> NoEmptySentenceRows(doc[i])
  }

  /** The number of words in a document. */
  function WordCount(doc: Document): (n: nat)
  {
    if doc == [] then 0 else |doc[0]| + WordCount(doc[1..])
  }

  /** All documents, one after the other. */
  function Concat(docs: seq<Document>): (whole: Document)
  {
    if docs == [] then [] else Concat(docs[..|docs| - 1]) + docs[|docs| - 1]
  }

  /** One `for s in CoNLL.convert_dict(...)` block, appending to `buf0`. */
  method WriteDocument(buf0: string, doc: Document) returns (buf: string)
    ensures buf == AppendDocument(buf0, doc)
    ensures NoEmptyRows(doc) ==> buf == buf0 + DocumentText(doc)
  {
    ghost var target := AppendDocument(buf0, doc);
    buf := buf0;
    var i := 0;
    while i < |doc|
      invariant 0 <= i <= |doc|
      invariant AppendDocument(buf, doc[i..]) == target
    {
      var s := doc[i];
      assert doc[i..][0] == s && doc[i..][1..] == doc[i + 1..];
      var j := 0;
      while j < |s|
        invariant 0 <= j <= |s|
        invariant AppendDocument(AppendSentence(buf, s[j..]), doc[i + 1..]) == target
      {
        var w := s[j];
        assert s[j..][0] == w && s[j..][1..] == s[j + 1..];
        var k := 0;
        while k < |w|
          invariant 0 <= k <= |w|
          invariant AppendDocument(AppendSentence(AppendRow(buf, w[k..]), s[j + 1..]), doc[i + 1..]) == target
        {
          assert w[k..][0] == w[k] && w[k..][1..] == w[k + 1..];
          assert AppendFields(buf, w[k..]) == AppendFields(buf + w[k] + "\t", w[k + 1..]);
          buf := buf + w[k] + "\t";
          k := k + 1;
        }
        assert w[k..] == [];
        buf := DropLast(buf) + LineEnd;
        j := j + 1;
      }
      assert s[j..] == [];
      buf := buf + LineEnd;
      i := i + 1;
    }
    assert doc[i..] == [];
    if NoEmptyRows(doc) {
      DocumentWritten(buf0, doc);
    }
  }

  /** The English block: one document per sentence of the treebank, all
      appended to the same buffer, which is the same as writing them as one. */
  method WriteDocuments(docs: seq<Document>) returns (buf: string)
    ensures buf == AppendDocument("", Concat(docs))
  {
    buf := "";
    var n := 0;
    while n < |docs|
      invariant 0 <= n <= |docs|
      invariant buf == AppendDocument("", Concat(docs[..n]))
    {
      assert docs[..n + 1][..n] == docs[..n];
      DocumentsChain("", Concat(docs[..n]), docs[n]);
      buf := WriteDocument(buf, docs[n]);
      n := n + 1;
    }
    assert docs[..n] == docs;
  }

  // ---------------------------------------------------------------------
  // The loops against the intended format

  lemma {:induction false} FieldsWritten(buf: string, row: Row)
    requires row != []
    ensures AppendFields(buf, row) == buf + Join(row, "\t") + "\t"
    decreases |row|
  {
    if |row| == 1 {
      assert row[1..] == [];
    } else {
      FieldsWritten(buf + row[0] + "\t", row[1..]);
    }
  }

  /** A word with at least one field is written as its fields joined by single
      tabs, with no trailing tab, then "\r\n". */
  lemma RowWritten(buf: string, row: Row)
    requires row != []
    ensures AppendRow(buf, row) == buf + RowText(row)
  {
    FieldsWritten(buf, row);
    var body := buf + Join(row, "\t");
    assert DropLast(body + "\t") == body;
  }

  /** A word with no field removes the last character already written: after
      a written word, the '\n' of its line end. */
  lemma EmptyRowCutsPreviousLine(buf: string, row: Row)
    requires row != []
    ensures AppendRow(AppendRow(buf, row), []) == buf + Join(row, "\t") + "\r" + LineEnd
  {
    RowWritten(buf, row);
    var written := buf + Join(row, "\t") + "\r";
    assert AppendRow(buf, row) == written + "\n";
    assert DropLast(written + "\n") == written;
  }

  lemma {:induction false} SentenceWritten(buf: string, rows: SentenceRows)
    requires NoEmptySentenceRows(rows)
    ensures AppendSentence(buf, rows) == buf + SentenceText(rows)
    decreases |rows|
  {
    if rows != [] {
      RowWritten(buf, rows[0]);
      SentenceWritten(buf + RowText(rows[0]), rows[1..]);
    }
  }

  /** When every word has a field the loops write exactly the intended text
      after what the buffer already held: earlier text is an unchanged prefix,
      and the blocks of the sentences follow in input order. */
  lemma {:induction false} DocumentWritten(buf: string, doc: Document)
    requires NoEmptyRows(doc)
    ensures AppendDocument(buf, doc) == buf + DocumentText(doc)
    decreases |doc|
  {
    if doc != [] {
      SentenceWritten(buf, doc[0]);
      DocumentWritten(buf + SentenceText(doc[0]), doc[1..]);
    }
  }

  /** Writing two documents one after the other into one buffer is writing
      their concatenation, whatever the words hold. */
  lemma {:induction false} DocumentsChain(buf: string, d1: Document, d2: Document)
    ensures AppendDocument(AppendDocument(buf, d1), d2) == AppendDocument(buf, d1 + d2)
    decreases |d1|
  {
    if d1 == [] {
      assert d1 + d2 == d2;
    } else {
      assert (d1 + d2)[0] == d1[0] && (d1 + d2)[1..] == d1[1..] + d2;
      DocumentsChain(AppendSentence(buf, d1[0]), d1[1..], d2);
    }
  }

  /** Every sentence block ends with a blank line. */
  lemma SentenceEndsWithBlankLine(rows: SentenceRows)
    requires NoEmptySentenceRows(rows)
    ensures |SentenceText(rows)| >= 2
    ensures SentenceText(rows)[|SentenceText(rows)| - 2..] == LineEnd
    ensures rows != [] ==> |SentenceText(rows)| >= 4 && SentenceText(rows)[|SentenceText(rows)| - 4..] == LineEnd + LineEnd
  {
  }

  // ---------------------------------------------------------------------
  // Line structure

  lemma {:induction false} JoinAvoids(row: Row, c: char)
    requires forall k :: 0 <= k < |row| ==> c !in row[k]
    requires c != '\t'
    ensures c !in Join(row, "\t")
    decreases |row|
  {
    if |row| > 1 {
      JoinAvoids(row[1..], c);
    }
  }

  /** When no field holds a '\n', the text has one line per word plus one
      blank line per sentence. */
  lemma {:induction false} LineCount(doc: Document)
    requires NoEmptyRows(doc)
    requires forall i, j, k :: 0 <= i < |doc| && 0 <= j < |doc[i]| && 0 <= k < |doc[i][j]| ==> '\n' !in doc[i][j][k]
    ensures CountChar(DocumentText(doc), '\n') == WordCount(doc) + |doc|
    decreases |doc|
  {
    if doc != [] {
      SentenceLineCount(doc[0]);
      LineCount(doc[1..]);
      CountCharAppend(SentenceText(doc[0]), DocumentText(doc[1..]), '\n');
    }
  }

  lemma {:induction false} SentenceLineCount(rows: SentenceRows)
    requires forall j, k :: 0 <= j < |rows| && 0 <= k < |rows[j]| ==> '\n' !in rows[j][k]
    ensures CountChar(SentenceText(rows), '\n') == |rows| + 1
    decreases |rows|
  {
    if rows == [] {
      assert CountChar(LineEnd, '\n') == 1;
    } else {
      JoinAvoids(rows[0], '\n');
      CountCharAppend(Join(rows[0], "\t"), LineEnd, '\n');
      assert CountChar(LineEnd, '\n') == 1;
      SentenceLineCount(rows[1..]);
      CountCharAppend(RowText(rows[0]), SentenceText(rows[1..]), '\n');
    }
  }

  /** The line of a word gives its fields back when split at tabs, as long as
      no field holds a tab. */
  lemma RowFieldsRecoverable(row: Row)
    requires row != []
    requires forall k :: 0 <= k < |row| ==> '\t' !in row[k]
    ensures |RowText(row)| >= 2
    ensures Split(RowText(row)[..|RowText(row)| - 2], '\t') == row
  {
    var t := RowText(row);
    assert t[..|t| - 2] == Join(row, "\t");
    SplitJoin(row, '\t');
  }

  /** The six characters written for one sentence of one single-field word
      "a" followed by a word with no field. */
  lemma EmptyRowExample()
    ensures AppendSentence("", [["a"], []]) == "a\r\r\n\r\n"
  {
  }
}
