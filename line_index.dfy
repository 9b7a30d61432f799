/**
 * The document as one string, its lines, and the offset-to-line index the
 * host provides (`document.positionAt(offset).line`, `document.lineCount`,
 * `document.lineAt(n)`). One convention is used throughout: a line ends at
 * "\n" or at "\r\n"; a lone "\r" does not end a line.
 */
module LineIndex {

  /** Characters the source's regular expressions do not let `.` match. */
  predicate IsLineTerminator(c: char) {
    c == '\n' || c == '\r'
  }

  /** A piece of text that `.*` can match: no line terminator in it. */
  predicate NoLineBreak(t: string) {
    forall j :: 0 <= j < |t| ==> !IsLineTerminator(t[j])
  }

  /** Number of '\n' characters in `s`. */
  function NewlineCount(s: string): (n: nat)
    ensures n <= |s|
  {
    if |s| == 0 then 0
    else NewlineCount(s[..|s| - 1]) + (if s[|s| - 1] == '\n' then 1 else 0)
  }

  lemma {:induction false} NewlineCountAppend(a: string, b: string)
    ensures NewlineCount(a + b) == NewlineCount(a) + NewlineCount(b)
    decreases |b|
  {
    if |b| == 0 {
      assert a + b == a;
    } else {
      assert (a + b)[..|a + b| - 1] == a + b[..|b| - 1];
      NewlineCountAppend(a, b[..|b| - 1]);
    }
  }

  lemma {:induction false} NewlineCountZero(s: string)
    ensures NewlineCount(s) == 0 <==> '\n' !in s
  {
    if |s| > 0 {
      NewlineCountZero(s[..|s| - 1]);
      assert s == s[..|s| - 1] + [s[|s| - 1]];
    }
  }

  /**
   * The line that contains `offset`: the number of '\n' before it. It never
   * exceeds the number of the document's last line.
   */
  function LineOf(doc: string, offset: nat): (line: nat)
    requires offset <= |doc|
    ensures line <= NewlineCount(doc)
  {
    assert doc[..offset] + doc[offset..] == doc;
    NewlineCountAppend(doc[..offset], doc[offset..]);
    NewlineCount(doc[..offset])
  }

  /** Two offsets are as many lines apart as there are '\n' between them. */
  lemma LineDistance(doc: string, x: nat, y: nat)
    requires x <= y <= |doc|
    ensures LineOf(doc, y) == LineOf(doc, x) + NewlineCount(doc[x..y])
    ensures LineOf(doc, x) <= LineOf(doc, y)
    ensures LineOf(doc, y) == LineOf(doc, x) <==> '\n' !in doc[x..y]
  {
    assert doc[..y] == doc[..x] + doc[x..y];
    NewlineCountAppend(doc[..x], doc[x..y]);
    NewlineCountZero(doc[x..y]);
  }

  /** The document's lines, as `split(/\r?\n/)` gives them. */
  function Lines(doc: string): (lines: seq<string>)
    ensures |lines| >= 1
    decreases |doc|
  {
    if |doc| == 0 then [""]
    else if doc[0] == '\n' then [""] + Lines(doc[1..])
    else if doc[0] == '\r' && |doc| >= 2 && doc[1] == '\n' then [""] + Lines(doc[2..])
    else
      var rest := Lines(doc[1..]);
      [[doc[0]] + rest[0]] + rest[1..]
  }

  /** The document with every "\r\n" written as "\n". */
  function Normalized(doc: string): (s: string)
    decreases |doc|
  {
    if |doc| == 0 then ""
    else if doc[0] == '\r' && |doc| >= 2 && doc[1] == '\n' then "\n" + Normalized(doc[2..])
    else [doc[0]] + Normalized(doc[1..])
  }

  /** Lines glued back together with "\n". */
  function Join(lines: seq<string>): (s: string)
    requires |lines| >= 1
    decreases |lines|
  {
    if |lines| == 1 then lines[0] else lines[0] + "\n" + Join(lines[1..])
  }

  /** One character in front of the document changes the count by itself. */
  lemma NewlineCountCons(c: char, s: string)
    ensures NewlineCount([c] + s) == NewlineCount(s) + (if c == '\n' then 1 else 0)
  {
    NewlineCountAppend([c], s);
    assert [c][..0] == [];
  }

  /** There is one line more than there are '\n' characters. */
  lemma {:induction false} LinesCount(doc: string)
    ensures |Lines(doc)| == NewlineCount(doc) + 1
    ensures |Lines(doc)| == LineOf(doc, |doc|) + 1
    decreases |doc|
  {
    assert doc[..|doc|] == doc;
    if |doc| == 0 {
    } else if doc[0] == '\n' {
      LinesCount(doc[1..]);
      assert doc == [doc[0]] + doc[1..];
      NewlineCountCons(doc[0], doc[1..]);
    } else if doc[0] == '\r' && |doc| >= 2 && doc[1] == '\n' {
      LinesCount(doc[2..]);
      assert doc == [doc[0]] + ([doc[1]] + doc[2..]);
      NewlineCountCons(doc[1], doc[2..]);
      NewlineCountCons(doc[0], [doc[1]] + doc[2..]);
    } else {
      LinesCount(doc[1..]);
      assert doc == [doc[0]] + doc[1..];
      NewlineCountCons(doc[0], doc[1..]);
    }
  }

  /** No line holds a '\n'. */
  lemma {:induction false} LinesHaveNoNewline(doc: string)
    ensures forall k :: 0 <= k < |Lines(doc)| ==> '\n' !in Lines(doc)[k]
    decreases |doc|
  {
    if |doc| == 0 {
    } else if doc[0] == '\n' {
      LinesHaveNoNewline(doc[1..]);
    } else if doc[0] == '\r' && |doc| >= 2 && doc[1] == '\n' {
      LinesHaveNoNewline(doc[2..]);
    } else {
      LinesHaveNoNewline(doc[1..]);
      var rest := Lines(doc[1..]);
      var lines := Lines(doc);
      forall k | 0 <= k < |lines|
        ensures '\n' !in lines[k]
      {
        if k == 0 {
          assert lines[0] == [doc[0]] + rest[0];
        } else {
          assert lines[k] == rest[k];
        }
      }
    }
  }

  /**
   * Splitting loses nothing but the choice between "\n" and "\r\n": the
   * lines joined with "\n" give the normalised document.
   */
  lemma {:induction false} LinesJoin(doc: string)
    ensures Join(Lines(doc)) == Normalized(doc)
    decreases |doc|
  {
    if |doc| == 0 {
    } else if doc[0] == '\n' {
      LinesJoin(doc[1..]);
    } else if doc[0] == '\r' && |doc| >= 2 && doc[1] == '\n' {
      LinesJoin(doc[2..]);
    } else {
      LinesJoin(doc[1..]);
      var rest := Lines(doc[1..]);
      var lines := Lines(doc);
      assert lines[1..] == rest[1..];
      if |rest| == 1 {
        assert Join(lines) == [doc[0]] + rest[0];
      } else {
        assert Join(lines) == ([doc[0]] + rest[0]) + "\n" + Join(rest[1..]);
        assert Join(rest) == rest[0] + "\n" + Join(rest[1..]);
      }
    }
  }

  /** The host's `isEmptyOrWhitespace`, with spaces and tabs as whitespace. */
  predicate IsEmptyOrWhitespace(line: string) {
    forall j :: 0 <= j < |line| ==> line[j] == ' ' || line[j] == '\t'
  }
}
