/** Stage 2 of `minify_sql`: `remove_single_line_comments`, which walks the lines of
    the text, cuts each one at its first `--` (taking back the `-` it had already
    pushed) and follows every line with one space. */
module LineComments {
  import opened Text

  /** What a line keeps: the text before its first `--`. */
  function CutLine(line: string): string {
    line[..FirstDashPair(line)]
  }

  /** Every line's kept text followed by exactly one space. */
  function JoinLines(ls: seq<string>): string {
    if ls == [] then [] else CutLine(ls[0]) + " " + JoinLines(ls[1..])
  }

  /** The text `remove_single_line_comments` returns. */
  function StripLines(document: string): string {
    JoinLines(Lines(document))
  }

  method RemoveSingleLineComments(document: string) returns (output: string)
    ensures output == StripLines(document)
  {
    output := "";
    var lines := Lines(document);
    for i := 0 to |lines|
      invariant output == JoinLines(lines[..i])
    {
      output := PushLine(output, lines[i]);
      output := output + " ";
      JoinLinesSnoc(lines[..i], lines[i]);
      assert lines[..i + 1] == lines[..i] + [lines[i]];
    }
    assert lines[..|lines|] == lines;
  }

  /** The body of the loop over the lines: push the line's characters onto `output`
      and, on reaching a `--`, pop the `-` already pushed and stop. */
  method PushLine(output: string, line: string) returns (r: string)
    ensures r == output + CutLine(line)
  {
    r := output;
    var lastChar := '\0';
    var j := 0;
    while j < |line|
      invariant 0 <= j <= |line|
      invariant forall i :: 0 <= i < j - 1 ==> !DashPairAt(line, i)
      invariant r == output + line[..j]
      invariant lastChar == if j == 0 then '\0' else line[j - 1]
    {
      var c := line[j];
      if lastChar == '-' && c == '-' {
        CutAtDash(output, line, j);
        r := r[..|r| - 1];
        return;
      }
      r := r + [c];
      assert line[..j + 1] == line[..j] + [c];
      lastChar := c;
      j := j + 1;
    }
    WithoutDashPair(line);
  }

  /** The second `-` of the first `--` is at index `j`: the line is cut just before the
      first `-`, which the scan had already pushed. */
  lemma CutAtDash(base: string, line: string, j: int)
    requires 1 <= j < |line| && DashPairAt(line, j - 1)
    requires forall i :: 0 <= i < j - 1 ==> !DashPairAt(line, i)
    ensures (base + line[..j])[..|base| + j - 1] == base + CutLine(line)
  {
    assert FirstDashPair(line) == j - 1;
  }

  lemma WithoutDashPair(line: string)
    requires forall i :: 0 <= i < |line| - 1 ==> !DashPairAt(line, i)
    ensures CutLine(line) == line
  {
    assert line[..|line|] == line;
  }

  /** Keeping one more line appends its kept text and a space. */
  lemma {:induction false} JoinLinesSnoc(ls: seq<string>, l: string)
    ensures JoinLines(ls + [l]) == JoinLines(ls) + CutLine(l) + " "
  {
    if ls == [] {
      assert [l][1..] == [];
    } else {
      assert (ls + [l])[1..] == ls[1..] + [l];
      JoinLinesSnoc(ls[1..], l);
    }
  }

  lemma {:induction false} StrippedShape(ls: seq<string>)
    requires forall i :: 0 <= i < |ls| ==> '\n' !in ls[i]
    ensures NoDashPair(JoinLines(ls)) && '\n' !in JoinLines(ls)
    ensures JoinLines(ls) == [] <==> ls == []
    ensures ls != [] ==> JoinLines(ls)[|JoinLines(ls)| - 1] == ' '
  {
    if ls != [] {
      StrippedShape(ls[1..]);
      var cut := CutLine(ls[0]);
      CommentFreePrefix(ls[0]);
      NoDashPairConcat(cut, " ");
      NoDashPairConcat(cut + " ", JoinLines(ls[1..]));
      assert forall c :: c in cut ==> c in ls[0];
    }
  }

  lemma {:induction false} StrippedLength(ls: seq<string>)
    ensures |JoinLines(ls)| <= LinesBudget(ls)
  {
    if ls != [] {
      StrippedLength(ls[1..]);
    }
  }

  /** No `--` and no line break survive, and the text ends with the space that
      follows the last line. */
  lemma StripLinesShape(document: string)
    ensures NoDashPair(StripLines(document)) && '\n' !in StripLines(document)
    ensures StripLines(document) == [] <==> document == []
    ensures document != [] ==> StripLines(document)[|StripLines(document)| - 1] == ' '
    ensures |StripLines(document)| <= |document| + 1
  {
    StrippedShape(Lines(document));
    StrippedLength(Lines(document));
  }
}
