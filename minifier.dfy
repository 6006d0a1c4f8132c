/** `minifiy_sql_to_string` (src/minifier.rs): every line of a file goes through the
    per-line scanner, the pieces are concatenated with nothing between them, and the
    result has its whitespace collapsed; and the output name that `minify_sql_files!`
    derives from an input name. The file itself is given as its text. */
module Minifier {
  import opened Text
  import SqlTypes
  import opened LineScanner

  /** What the scanner pushes for the lines `ls`, in order, with no separator. */
  function Scanned(ls: seq<string>): string
  {
    if ls == [] then [] else Scanned(ls[..|ls| - 1]) + LineOutput(ls[|ls| - 1])
  }

  /** The text `minifiy_sql_to_string` returns for a file whose text is `content`. */
  function MinifiedContent(content: string): string {
    Collapse(Scanned(Lines(content)))
  }

  method MinifiySqlToString(content: string) returns (r: string)
    ensures r == MinifiedContent(content)
  {
    var output := "";
    var lines := Lines(content);
    for i := 0 to |lines|
      invariant output == Scanned(lines[..i])
    {
      output := ScanLine(output, lines[i]);
      assert lines[..i + 1][..i] == lines[..i];
    }
    assert lines[..|lines|] == lines;
    r := Collapse(output);
  }

  /** The lines' pieces are joined with nothing added between them. */
  lemma {:induction false} ScannedConcat(a: seq<string>, b: seq<string>)
    ensures Scanned(a + b) == Scanned(a) + Scanned(b)
    decreases |b|
  {
    if b == [] {
      assert a + b == a;
    } else {
      var b0 := b[..|b| - 1];
      assert (a + b)[..|a + b| - 1] == a + b0;
      assert (a + b)[|a + b| - 1] == b[|b| - 1];
      ScannedConcat(a, b0);
    }
  }

  /** A line's pieces never outgrow it. */
  lemma {:induction false} ScannedLength(ls: seq<string>)
    ensures |Scanned(ls)| + |ls| <= LinesBudget(ls)
    decreases |ls|
  {
    if ls != [] {
      assert ls == [ls[0]] + ls[1..];
      ScannedConcat([ls[0]], ls[1..]);
      assert [ls[0]][..0] == [];
      LineOutputShape(ls[0]);
      ScannedLength(ls[1..]);
    }
  }

  /** The minified text is collapsed, holds the words of the scanned text and is no
      longer than the file. */
  lemma MinifiedShape(content: string)
    ensures Collapsed(MinifiedContent(content))
    ensures Words(MinifiedContent(content)) == Words(Scanned(Lines(content)))
    ensures |MinifiedContent(content)| <= |content|
  {
    ScannedLength(Lines(content));
  }

  /** Two lines are scanned one after the other. */
  lemma ScannedPair(a: string, b: string)
    ensures Scanned([a, b]) == LineOutput(a) + LineOutput(b)
  {
    assert Scanned([a]) == LineOutput(a) by {
      assert [a][..0] == [] && [a][0] == a;
      assert [] + LineOutput(a) == LineOutput(a);
    }
    assert [a, b][..1] == [a] && [a, b][1] == b;
  }

  /** A line ending in `INTEGER` runs straight into a following `);`: the two lines
      give `x INT);`. */
  lemma LinesJoinWithoutSeparator()
    ensures Scanned(["x INTEGER", ");"]) == "x INT);"
  {
    ScannedPair("x INTEGER", ");");
    IntegerAtLineEnd();
    assert LineOutput(");") == ");" by {
      NoMinus(");");
      SingleWordLine(");");
    }
  }

  lemma IntegerAtLineEnd()
    ensures LineOutput("x INTEGER") == "x INT"
  {
    IntegerLineParts();
    TwoWordLine("x", ' ', "INTEGER");
  }

  lemma IntegerLineParts()
    ensures "x INTEGER" == "x" + [' '] + "INTEGER"
    ensures NoDashPair("x INTEGER")
    ensures SqlTypes.Abbreviate("x") == "x" && SqlTypes.Abbreviate("INTEGER") == "INT"
  {
    NoMinus("x INTEGER");
    SqlTypes.LongFormRoundTrip(SqlTypes.Integer);
  }

  /** Without a `-` there is no `--`. */
  lemma NoMinus(s: string)
    requires '-' !in s
    ensures NoDashPair(s)
  {
    assert forall i :: 0 <= i < |s| ==> s[i] != '-';
  }

  /** A comment-free line of two words is scanned word by word. */
  lemma TwoWordLine(x: string, c: char, t: string)
    requires IsWhitespace(c) && NoDashPair(x + [c] + t)
    requires forall i :: 0 <= i < |x| ==> !IsWhitespace(x[i])
    requires forall i :: 0 <= i < |t| ==> !IsWhitespace(t[i])
    ensures LineOutput(x + [c] + t) == SqlTypes.Abbreviate(x) + [c] + SqlTypes.Abbreviate(t)
  {
    CommentFreeLine(x + [c] + t);
    EmitSplit(x, [], c, t, true);
    EmitRun(x, [], true);
    EmitRun(t, [], true);
    assert [] + x == x && [] + t == t;
  }

  /** Index of the last `.` of a name that has one: Rust's `rfind('.')`. */
  function LastDot(s: string): (d: nat)
    requires '.' in s
    ensures d < |s| && s[d] == '.'
    ensures forall i :: d < i < |s| ==> s[i] != '.'
  {
    if s[|s| - 1] == '.' then |s| - 1 else LastDot(s[..|s| - 1])
  }

  /** The output name `minify_sql_files!` writes to: `_minified` inserted just before
      the last `.` of the input name. A name without `.` makes the macro panic. */
  function MinifiedPath(file: string): string
    requires '.' in file
  {
    var d := LastDot(file);
    file[..d] + "_minified" + file[d..]
  }

  /** The name keeps everything before its last `.`, then `_minified`, then the
      extension from the last `.` on; that `.` is still the last one, so removing
      the inserted nine characters gives the input back. */
  lemma MinifiedPathShape(file: string)
    requires '.' in file
    ensures |MinifiedPath(file)| == |file| + 9
    ensures MinifiedPath(file)[..LastDot(file)] == file[..LastDot(file)]
    ensures MinifiedPath(file)[LastDot(file)..LastDot(file) + 9] == "_minified"
    ensures MinifiedPath(file)[LastDot(file) + 9..] == file[LastDot(file)..]
    ensures '.' in MinifiedPath(file) && LastDot(MinifiedPath(file)) == LastDot(file) + 9
    ensures MinifiedPath(file)[..LastDot(file)] + MinifiedPath(file)[LastDot(file) + 9..] == file
  {
    var d := LastDot(file);
    var r := MinifiedPath(file);
    assert r[d + 9] == '.';
    LastDotAt(r, d + 9);
    assert file[..d] + file[d..] == file;
  }

  /** A `.` after which there is none is the last one. */
  lemma {:induction false} LastDotAt(s: string, d: nat)
    requires d < |s| && s[d] == '.'
    requires forall i :: d < i < |s| ==> s[i] != '.'
    ensures LastDot(s) == d
    decreases |s|
  {
    if d < |s| - 1 {
      var t := s[..|s| - 1];
      assert forall i :: d < i < |t| ==> t[i] == s[i];
      LastDotAt(t, d);
    }
  }

  lemma MinifiedPathExamples()
    ensures MinifiedPath("file.sql") == "file_minified.sql"
    ensures MinifiedPath("a.b.sql") == "a.b_minified.sql"
  {
    LastDotAt("file.sql", 4);
    LastDotAt("a.b.sql", 3);
  }
}
