/** `parse_file` (src/file_parser.rs): the same per-line scanner as the minifier, but
    every line's piece is followed by a `\n` and nothing is collapsed afterwards. The
    file itself is given as its text. */
module FileParser {
  import opened Text
  import SqlTypes
  import opened LineScanner

  /** What `parse_file` builds from the lines `ls`: each line's piece and a `\n`. */
  function Parsed(ls: seq<string>): string
  {
    if ls == [] then [] else Parsed(ls[..|ls| - 1]) + LineOutput(ls[|ls| - 1]) + "\n"
  }

  method ParseFile(content: string) returns (output: string)
    ensures output == Parsed(Lines(content))
  {
    output := "";
    var lines := Lines(content);
    for i := 0 to |lines|
      invariant output == Parsed(lines[..i])
    {
      output := ScanLine(output, lines[i]);
      output := output + "\n";
      assert lines[..i + 1][..i] == lines[..i];
    }
    assert lines[..|lines|] == lines;
  }

  lemma {:induction false} ParsedConcat(a: seq<string>, b: seq<string>)
    ensures Parsed(a + b) == Parsed(a) + Parsed(b)
    decreases |b|
  {
    if b == [] {
      assert a + b == a;
    } else {
      var b0 := b[..|b| - 1];
      assert (a + b)[..|a + b| - 1] == a + b0;
      assert (a + b)[|a + b| - 1] == b[|b| - 1];
      ParsedConcat(a, b0);
    }
  }

  /** The first line's piece and its `\n` come first. */
  lemma ParsedCons(l: string, rest: seq<string>)
    ensures Parsed([l] + rest) == LineOutput(l) + "\n" + Parsed(rest)
  {
    ParsedConcat([l], rest);
    assert [l][..0] == [] && [l][0] == l;
    assert [] + LineOutput(l) + "\n" == LineOutput(l) + "\n";
  }

  /** Every line, and only a line, ends in a `\n` of its own: the output holds as many
      line breaks as the file has lines, and ends with one when there is any. */
  lemma {:induction false} NewlinePerLine(ls: seq<string>)
    requires forall i :: 0 <= i < |ls| ==> '\n' !in ls[i]
    ensures multiset(Parsed(ls))['\n'] == |ls|
    ensures ls != [] ==> Parsed(ls) != [] && Parsed(ls)[|Parsed(ls)| - 1] == '\n'
    decreases |ls|
  {
    if ls != [] {
      var last := ls[|ls| - 1];
      NewlinePerLine(ls[..|ls| - 1]);
      LineOutputShape(last);
      assert multiset(LineOutput(last))['\n'] == 0;
    }
  }

  /** Each line gives at most its own length and one `\n`. */
  lemma {:induction false} ParsedLength(ls: seq<string>)
    ensures |Parsed(ls)| <= LinesBudget(ls)
    decreases |ls|
  {
    if ls != [] {
      assert ls == [ls[0]] + ls[1..];
      ParsedCons(ls[0], ls[1..]);
      LineOutputShape(ls[0]);
      ParsedLength(ls[1..]);
    }
  }

  /** `parse_file` outputs one `\n` per line of the file and, with them, at most one
      character more than the file holds. */
  lemma ParseFileShape(content: string)
    ensures multiset(Parsed(Lines(content)))['\n'] == |Lines(content)|
    ensures |Parsed(Lines(content))| <= |content| + 1
  {
    NewlinePerLine(Lines(content));
    ParsedLength(Lines(content));
  }

  /** A line that the scanner leaves as it is: no `--`, and no word among the four
      long forms. */
  predicate KeptAsIs(line: string) {
    NoDashPair(line)
    && forall i :: 0 <= i < |Words(line)| ==> SqlTypes.TryFromString(Words(line)[i]).Err?
  }

  /** The lines, each followed by a `\n`. */
  function Terminated(ls: seq<string>): string {
    if ls == [] then [] else ls[0] + "\n" + Terminated(ls[1..])
  }

  /** Lines left as they are come out as they went in, each followed by a `\n`. */
  lemma {:induction false} ParsedKept(ls: seq<string>)
    requires forall i :: 0 <= i < |ls| ==> KeptAsIs(ls[i])
    ensures Parsed(ls) == Terminated(ls)
    decreases |ls|
  {
    if ls != [] {
      assert ls == [ls[0]] + ls[1..];
      ParsedCons(ls[0], ls[1..]);
      LineUnchanged(ls[0]);
      ParsedKept(ls[1..]);
    }
  }

  /** Splitting a text into lines and terminating each with `\n` gives the text back
      when it has no `\r` and ends with a `\n`. */
  lemma {:induction false} TerminatedLines(s: string)
    requires '\r' !in s && (s == [] || s[|s| - 1] == '\n')
    ensures Terminated(Lines(s)) == s
    decreases |s|
  {
    if s != [] {
      var k := IndexOf(s, '\n');
      var tail := s[k + 1..];
      LinesAtNewline(s);
      TerminatedLines(tail);
      TerminatedCons(s[..k], Lines(tail));
      SplitAround(s, k);
    }
  }

  /** The first line of a text without `\r` that ends with a `\n` is the text before
      its first `\n`, and the rest is left for the following lines. */
  lemma LinesAtNewline(s: string)
    requires '\r' !in s && s != [] && s[|s| - 1] == '\n'
    ensures IndexOf(s, '\n') < |s|
    ensures Lines(s) == [s[..IndexOf(s, '\n')]] + Lines(s[IndexOf(s, '\n') + 1..])
    ensures var tail := s[IndexOf(s, '\n') + 1..];
      '\r' !in tail && (tail == [] || tail[|tail| - 1] == '\n')
  {
    var k := IndexOf(s, '\n');
    var head, tail := s[..k], s[k + 1..];
    assert k < |s|;
    assert head == [] || head[|head| - 1] == s[k - 1];
    assert StripCarriageReturn(head) == head;
    AbsentFromSlice(s, '\r', k + 1, |s|);
    assert s[k + 1..|s|] == tail;
    assert tail == [] || tail[|tail| - 1] == s[|s| - 1];
  }

  lemma SplitAround(s: string, k: nat)
    requires k < |s| && s[k] == '\n'
    ensures s == s[..k] + "\n" + s[k + 1..]
  {
    assert s == s[..k] + [s[k]] + s[k + 1..];
  }

  lemma TerminatedCons(l: string, ls: seq<string>)
    ensures Terminated([l] + ls) == l + "\n" + Terminated(ls)
  {
    assert ([l] + ls)[1..] == ls;
  }

  /** A file that ends with a line break, holds no `\r` and whose every line is left as
      it is, is reproduced exactly. */
  lemma ParseFileUnchanged(content: string)
    requires '\r' !in content && (content == [] || content[|content| - 1] == '\n')
    requires forall i :: 0 <= i < |Lines(content)| ==> KeptAsIs(Lines(content)[i])
    ensures Parsed(Lines(content)) == content
  {
    ParsedKept(Lines(content));
    TerminatedLines(content);
  }
}
