/**
 * The string operations of Python that the scripts rely on, for a
 * one-character separator: `str.split(sep)` and `sep.join(pieces)`.
 */
module Text {

  /** Python's `s.split(sep)`: the maximal pieces between separators.
      There is always at least one piece (`"".split("\t") == [""]`). */
  function Split(s: string, sep: char): (pieces: seq<string>)
    ensures |pieces| >= 1
  {
    if s == [] then [""]
    else
      var rest := Split(s[1..], sep);
      if s[0] == sep then [""] + rest
      else [[s[0]] + rest[0]] + rest[1..]
  }

  /** The pieces hold no separator; there are two or more exactly when the
      string holds one; the first piece is the text up to the first separator. */
  lemma {:induction false} SplitPieces(s: string, sep: char)
    ensures forall k :: 0 <= k < |Split(s, sep)| ==> sep !in Split(s, sep)[k]
    ensures |Split(s, sep)| >= 2 <==> sep in s
    ensures Split(s, sep)[0] <= s
    ensures |Split(s, sep)[0]| == |s| || s[|Split(s, sep)[0]|] == sep
  {
    if s != [] {
      SplitPieces(s[1..], sep);
      var rest := Split(s[1..], sep);
      if s[0] != sep {
        var pieces := Split(s, sep);
        assert pieces[0] == [s[0]] + rest[0];
        assert forall k :: 1 <= k < |pieces| ==> pieces[k] == rest[k];
      }
    }
  }

  /** Python's `sep.join(pieces)`. */
  function Join(pieces: seq<string>, sep: string): (joined: string)
  {
    if pieces == [] then ""
    else if |pieces| == 1 then pieces[0]
    else pieces[0] + sep + Join(pieces[1..], sep)
  }

  /** Putting the separator back between the pieces gives the string back. */
  lemma {:induction false} JoinSplit(s: string, sep: char)
    ensures Join(Split(s, sep), [sep]) == s
  {
    if s != [] {
      var rest := Split(s[1..], sep);
      JoinSplit(s[1..], sep);
      if s[0] == sep {
        assert Split(s, sep) == [""] + rest;
        assert ([""] + rest)[1..] == rest;
      } else {
        JoinPrepend([s[0]], rest[0], rest[1..], [sep]);
        assert [rest[0]] + rest[1..] == rest;
      }
    }
  }

  /** Text put in front of the first piece ends up in front of the joined string. */
  lemma JoinPrepend(x: string, p: string, ps: seq<string>, sep: string)
    ensures Join([x + p] + ps, sep) == x + Join([p] + ps, sep)
  {
  }

  /** Splitting pieces that were joined by a separator they do not contain
      gives the pieces back: a row's fields survive being written with tabs. */
  lemma {:induction false} SplitJoin(pieces: seq<string>, sep: char)
    requires |pieces| >= 1
    requires forall k :: 0 <= k < |pieces| ==> sep !in pieces[k]
    ensures Split(Join(pieces, [sep]), sep) == pieces
  {
    if |pieces| == 1 {
      SplitNoSeparator(pieces[0], sep);
    } else {
      var tail := Join(pieces[1..], [sep]);
      SplitJoin(pieces[1..], sep);
      assert Join(pieces, [sep]) == pieces[0] + ([sep] + tail);
      SplitPrefix(pieces[0], [sep] + tail, sep);
      var u := [sep] + tail;
      assert u[0] == sep && u[1..] == tail;
      assert Split(u, sep) == [""] + pieces[1..];
      assert Split(u, sep)[0] == "" && Split(u, sep)[1..] == pieces[1..];
      assert pieces[0] + "" == pieces[0];
      assert [pieces[0]] + pieces[1..] == pieces;
    }
  }

  /** A string without the separator is a single piece. */
  lemma {:induction false} SplitNoSeparator(s: string, sep: char)
    requires sep !in s
    ensures Split(s, sep) == [s]
  {
    SplitPieces(s, sep);
    var pieces := Split(s, sep);
    assert |pieces| == 1;
    assert pieces[0] == s[..|pieces[0]|] == s;
  }

  /** A separator-free prefix is glued to the first piece of what follows it. */
  lemma {:induction false} SplitPrefix(p: string, t: string, sep: char)
    requires sep !in p
    ensures Split(p + t, sep) == [p + Split(t, sep)[0]] + Split(t, sep)[1..]
  {
    var ts := Split(t, sep);
    if p == [] {
      assert p + t == t;
      assert p + ts[0] == ts[0];
      assert [ts[0]] + ts[1..] == ts;
    } else {
      var s := p + t;
      assert s[0] == p[0] && s[0] != sep;
      assert s[1..] == p[1..] + t;
      SplitPrefix(p[1..], t, sep);
      var rest := Split(s[1..], sep);
      assert rest == [p[1..] + ts[0]] + ts[1..];
      assert Split(s, sep) == [[s[0]] + rest[0]] + rest[1..];
      assert [p[0]] + (p[1..] + ts[0]) == p + ts[0];
    }
  }

  /** How many times the character `c` occurs in `s`. */
  function CountChar(s: string, c: char): (n: nat)
    ensures n <= |s|
    ensures n == 0 <==> c !in s
  {
    if s == [] then 0
    else (if s[0] == c then 1 else 0) + CountChar(s[1..], c)
  }

  lemma {:induction false} CountCharAppend(a: string, b: string, c: char)
    ensures CountChar(a + b, c) == CountChar(a, c) + CountChar(b, c)
  {
    if a == [] {
      assert a + b == b;
    } else {
      assert (a + b)[1..] == a[1..] + b;
      CountCharAppend(a[1..], b, c);
    }
  }
}
