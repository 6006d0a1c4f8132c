/** The per-line scanner of `minifiy_sql_to_string` (src/minifier.rs) and of `parse_file`
    (src/file_parser.rs). The two files write it out separately but it behaves the same
    in both: the first flushes a run through a `match` on the peeked character, the
    second through `if let … else`, and the two ways they print the short form give the
    same text. Each is a `while let` loop over the characters of one line, peeking at the
    next one, with a `word` buffer and a `comment_started` flag. Whitespace is copied; a
    run of other characters is collected and, when the next character is whitespace or
    the line ends, pushed through `Sqltypes::try_from`; a `--` ends the line. */
module LineScanner {
  import opened Text
  import SqlTypes

  /** What the scanner emits for the part `s` of a line before its first `--`, with the
      run `word` already collected. Whitespace is copied, and the run it ends is emitted
      through `SqlTypes.Abbreviate` just before it; the run still open where `s` ends is
      emitted only when the line ends there (`fin`), not when a `--` follows it. */
  function Emit(s: string, word: string, fin: bool): string
    decreases |s|
  {
    if s == [] then (if fin then SqlTypes.Abbreviate(word) else [])
    else if IsWhitespace(s[0]) then SqlTypes.Abbreviate(word) + [s[0]] + Emit(s[1..], [], fin)
    else Emit(s[1..], word + [s[0]], fin)
  }

  /** The text the scanner pushes for one line. */
  function LineOutput(line: string): string {
    var k := FirstDashPair(line);
    Emit(line[..k], [], k == |line|)
  }

  /** One turn of the outer loop over the lines, up to the end of the
      inner `while let`: whatever the line contributes is pushed onto `output`. */
  method ScanLine(output: string, line: string) returns (r: string)
    ensures r == output + LineOutput(line)
  {
    ghost var k := FirstDashPair(line);
    ghost var fin := k == |line|;
    ghost var goal := output + LineOutput(line);
    r := output;
    var word := "";
    var commentStarted := false;
    var p := 0;
    assert line[0..k] == line[..k];
    while p < |line|
      invariant 0 <= p <= |line|
      invariant !commentStarted ==> p <= k
      invariant !commentStarted && p < |line| ==> r + Emit(line[p..k], word, fin) == goal
      invariant commentStarted || p == |line| ==> r == goal
      invariant commentStarted ==> p < |line| && line[p] == '-'
      invariant !commentStarted && p < |line| && word != [] ==> !IsWhitespace(line[p])
    {
      var c := line[p];
      p := p + 1;
      if c == '-' && commentStarted {
        break;
      } else if c == '-' && p < |line| && line[p] == '-' {
        assert DashPairAt(line, p - 1);
        assert line[p - 1..k] == [];
        commentStarted := true;
        continue;
      }
      if !commentStarted {
        assert line[p - 1..k] == [c] + line[p..k];
        if IsWhitespace(c) {
          StepSpace(r, c, line[p..k], fin, goal);
          r := r + [c];
        } else {
          StepChar(r, c, line[p..k], word, fin, goal);
          word := word + [c];
          if p < |line| {
            if IsWhitespace(line[p]) {
              assert line[p..k] == [line[p]] + line[p + 1..k];
              StepFlush(r, word, line[p], line[p + 1..k], fin, goal);
              r := r + SqlTypes.Abbreviate(word);
              word := "";
            }
          } else {
            assert line[p..k] == [];
            r := r + SqlTypes.Abbreviate(word);
          }
        }
      }
    }
  }

  /** The scan of a whitespace character keeps the loop's invariant: it is copied. */
  lemma StepSpace(r: string, c: char, rest: string, fin: bool, goal: string)
    requires IsWhitespace(c) && r + Emit([c] + rest, [], fin) == goal
    ensures (r + [c]) + Emit(rest, [], fin) == goal
  {
    assert ([c] + rest)[1..] == rest;
  }

  /** The scan of a character of a run keeps the loop's invariant: it is collected. */
  lemma StepChar(r: string, c: char, rest: string, word: string, fin: bool, goal: string)
    requires !IsWhitespace(c) && r + Emit([c] + rest, word, fin) == goal
    ensures r + Emit(rest, word + [c], fin) == goal
  {
    assert ([c] + rest)[1..] == rest;
  }

  /** Pushing a run that whitespace follows keeps the loop's invariant. */
  lemma StepFlush(r: string, word: string, c: char, rest: string, fin: bool, goal: string)
    requires IsWhitespace(c) && r + Emit([c] + rest, word, fin) == goal
    ensures (r + SqlTypes.Abbreviate(word)) + Emit([c] + rest, [], fin) == goal
  {
    assert ([c] + rest)[1..] == rest;
  }

  lemma Reassociate(x: string, y: string, c: char, z: string)
    ensures x + (y + [c] + z) == (x + y) + [c] + z
  {
  }

  /** Whitespace is copied where it stands, it ends the run before it, and the text
      after it is scanned afresh. */
  lemma {:induction false} EmitSplit(a: string, word: string, c: char, b: string, fin: bool)
    requires IsWhitespace(c)
    ensures Emit(a + [c] + b, word, fin) == Emit(a, word, true) + [c] + Emit(b, [], fin)
    decreases |a|
  {
    if a == [] {
      assert a + [c] + b == [c] + b && ([c] + b)[1..] == b;
    } else {
      assert (a + [c] + b)[0] == a[0] && (a + [c] + b)[1..] == a[1..] + [c] + b;
      if IsWhitespace(a[0]) {
        EmitSplit(a[1..], [], c, b, fin);
        Reassociate(SqlTypes.Abbreviate(word) + [a[0]], Emit(a[1..], [], true), c, Emit(b, [], fin));
      } else {
        EmitSplit(a[1..], word + [a[0]], c, b, fin);
      }
    }
  }

  /** Moving the first character of `s` onto the end of `word`. */
  lemma Uncons(word: string, s: string)
    requires s != []
    ensures word + [s[0]] + s[1..] == word + s
  {
  }

  /** A run is collected whole: it is emitted later, as one word. */
  lemma {:induction false} EmitRun(w: string, word: string, fin: bool)
    requires forall i :: 0 <= i < |w| ==> !IsWhitespace(w[i])
    ensures Emit(w, word, fin) == if fin then SqlTypes.Abbreviate(word + w) else []
    decreases |w|
  {
    if w == [] {
      assert word + w == word;
    } else {
      assert word + [w[0]] + w[1..] == word + w;
      EmitRun(w[1..], word + [w[0]], fin);
    }
  }

  /** A line-start fragment in which no word is one of the four long forms comes out
      exactly as it went in. */
  lemma {:induction false} EmitIdentity(s: string, word: string)
    requires forall i :: 0 <= i < |word| ==> !IsWhitespace(word[i])
    requires forall i :: 0 <= i < |Words(word + s)| ==> SqlTypes.TryFromString(Words(word + s)[i]).Err?
    ensures Emit(s, word, true) == word + s
    decreases |s|
  {
    if s == [] {
      assert word + s == word;
      if word != [] {
        WordsOfToken(word, []);
        assert Words(word + s)[0] == word;
      }
    } else if IsWhitespace(s[0]) {
      var ws := Words(s);
      assert ws == Words(s[1..]);
      if word != [] {
        WordsOfToken(word, s);
        assert Words(word + s)[0] == word;
        assert forall i :: 0 <= i < |ws| ==> ws[i] == Words(word + s)[i + 1];
      } else {
        assert word + s == s;
      }
      assert [] + s[1..] == s[1..];
      EmitIdentity(s[1..], []);
      Uncons(word, s);
    } else {
      Uncons(word, s);
      EmitIdentity(s[1..], word + [s[0]]);
    }
  }

  /** The scanner never lengthens its text: a looked-up word is never longer. */
  lemma {:induction false} EmitLength(s: string, word: string, fin: bool)
    ensures |Emit(s, word, fin)| <= |word| + |s|
    decreases |s|
  {
    if s != [] {
      if IsWhitespace(s[0]) {
        EmitLength(s[1..], [], fin);
      } else {
        EmitLength(s[1..], word + [s[0]], fin);
      }
    }
  }

  /** The lookup brings in no line break. */
  lemma AbbreviateNoNewline(w: string)
    requires '\n' !in w
    ensures '\n' !in SqlTypes.Abbreviate(w)
  {
    if SqlTypes.TryFromString(w).Ok? {
      match SqlTypes.TryFromString(w).value
      case Integer =>
      case Character =>
      case Boolean =>
      case Decimal =>
    }
  }

  /** The scanner brings in no line break of its own. */
  lemma {:induction false} EmitNoNewline(s: string, word: string, fin: bool)
    requires '\n' !in s && '\n' !in word
    ensures '\n' !in Emit(s, word, fin)
    decreases |s|
  {
    AbbreviateNoNewline(word);
    if s != [] {
      assert s == [s[0]] + s[1..];
      if IsWhitespace(s[0]) {
        EmitNoNewline(s[1..], [], fin);
      } else {
        EmitNoNewline(s[1..], word + [s[0]], fin);
      }
    }
  }

  /** One line's contribution is never longer than the line and holds no line break
      when the line holds none. */
  lemma LineOutputShape(line: string)
    ensures |LineOutput(line)| <= |line|
    ensures '\n' !in line ==> '\n' !in LineOutput(line)
  {
    var k := FirstDashPair(line);
    EmitLength(line[..k], [], k == |line|);
    if '\n' !in line {
      assert forall i :: 0 <= i < k ==> line[..k][i] == line[i];
      EmitNoNewline(line[..k], [], k == |line|);
    }
  }

  /** A line without `--` is scanned to its end. */
  lemma CommentFreeLine(line: string)
    requires NoDashPair(line)
    ensures LineOutput(line) == Emit(line, [], true)
  {
    var k := FirstDashPair(line);
    assert k == |line|;
    assert line[..k] == line;
  }

  /** A line without `--` whose words are none of the four long forms is reproduced
      exactly. */
  lemma LineUnchanged(line: string)
    requires NoDashPair(line)
    requires forall i :: 0 <= i < |Words(line)| ==> SqlTypes.TryFromString(Words(line)[i]).Err?
    ensures LineOutput(line) == line
  {
    CommentFreeLine(line);
    assert [] + line == line;
    EmitIdentity(line, []);
  }

  /** Where the first `--` of `a + "--" + b` is. */
  lemma FirstDashPairAt(a: string, b: string)
    requires NoDashPair(a) && (a == [] || a[|a| - 1] != '-')
    ensures FirstDashPair(a + "--" + b) == |a|
    ensures (a + "--" + b)[..|a|] == a
  {
    var s := a + "--" + b;
    assert DashPairAt(s, |a|);
    forall i | 0 <= i < |a| ensures !DashPairAt(s, i) {
      assert s[i] == a[i];
      if i + 1 < |a| {
        assert s[i + 1] == a[i + 1];
        assert !DashPairAt(a, i);
      }
    }
  }

  /** Everything from the first `--` to the end of the line is ignored: what follows
      it makes no difference, and the text before it is scanned as unfinished. */
  lemma CommentTailIgnored(a: string, b: string)
    requires NoDashPair(a) && (a == [] || a[|a| - 1] != '-')
    ensures LineOutput(a + "--" + b) == Emit(a, [], false)
  {
    FirstDashPairAt(a, b);
  }

  /** The run still open where an unfinished fragment ends is dropped: with
      `CommentTailIgnored`, a run that runs straight into `--`, with no whitespace
      between, is never pushed. */
  lemma UnfinishedRunDropped(a: string, w: string)
    requires a == [] || IsWhitespace(a[|a| - 1])
    requires forall i :: 0 <= i < |w| ==> !IsWhitespace(w[i])
    ensures Emit(a + w, [], false) == Emit(a, [], true)
  {
    EmitRun(w, [], false);
    if a == [] {
      assert a + w == w;
    } else {
      var a0, c := a[..|a| - 1], a[|a| - 1];
      SplitLast(a, w);
      assert Emit(a0 + [c] + w, [], false) == Emit(a0, [], true) + [c] by {
        EmitSplit(a0, [], c, w, false);
      }
      assert Emit(a0 + [c] + [], [], true) == Emit(a0, [], true) + [c] by {
        EmitSplit(a0, [], c, [], true);
      }
    }
  }

  lemma SplitLast(a: string, w: string)
    requires a != []
    ensures a == a[..|a| - 1] + [a[|a| - 1]] + []
    ensures a + w == a[..|a| - 1] + [a[|a| - 1]] + w
  {
  }

  /** A line that is one word comes out as that word's lookup. */
  lemma SingleWordLine(w: string)
    requires NoDashPair(w) && forall i :: 0 <= i < |w| ==> !IsWhitespace(w[i])
    ensures LineOutput(w) == SqlTypes.Abbreviate(w)
  {
    CommentFreeLine(w);
    EmitRun(w, [], true);
    assert [] + w == w;
  }

  /** `TEMPORARY` is no long form: it is never abbreviated. */
  lemma TemporaryKept()
    ensures LineOutput("TEMPORARY") == "TEMPORARY"
  {
    SingleWordLine("TEMPORARY");
  }

  /** `Sqltypes::try_from` applied to each word. */
  function AbbreviateWords(ws: seq<string>): (r: seq<string>)
    ensures |r| == |ws|
    ensures forall i :: 0 <= i < |ws| ==> r[i] == SqlTypes.Abbreviate(ws[i])
  {
    if ws == [] then [] else [SqlTypes.Abbreviate(ws[0])] + AbbreviateWords(ws[1..])
  }

  /** The lookup turns a word into a word. */
  lemma AbbreviatedToken(w: string)
    requires IsToken(w)
    ensures IsToken(SqlTypes.Abbreviate(w))
  {
    var r := SqlTypes.Abbreviate(w);
    if SqlTypes.TryFromString(w).Ok? {
      match SqlTypes.TryFromString(w).value
      case Integer => assert r == "INT";
      case Character => assert r == "CHAR";
      case Boolean => assert r == "BOOL";
      case Decimal => assert r == "DEC";
    }
  }

  /** Scanning to the end of a line abbreviates it word by word: the words of the
      output are the lookups of the words of the input, in order. */
  lemma {:induction false} EmitWords(s: string, word: string)
    requires forall i :: 0 <= i < |word| ==> !IsWhitespace(word[i])
    ensures Words(Emit(s, word, true)) == AbbreviateWords(Words(word + s))
    decreases |s|
  {
    if s == [] {
      assert word + s == word;
      WordsOfLastRun(word);
    } else if IsWhitespace(s[0]) {
      EmitWords(s[1..], []);
      assert [] + s[1..] == s[1..];
      assert s == [s[0]] + s[1..];
      WordsOfFlushedRun(word, s[0], Emit(s[1..], [], true), s[1..]);
    } else {
      Uncons(word, s);
      EmitWords(s[1..], word + [s[0]]);
    }
  }

  /** A line without `--` is abbreviated word by word. */
  lemma LineWords(line: string)
    requires NoDashPair(line)
    ensures Words(LineOutput(line)) == AbbreviateWords(Words(line))
  {
    CommentFreeLine(line);
    EmitWords(line, []);
    assert [] + line == line;
  }

  /** The run open at the end of a line is looked up as one word. */
  lemma WordsOfLastRun(word: string)
    requires forall i :: 0 <= i < |word| ==> !IsWhitespace(word[i])
    ensures Words(SqlTypes.Abbreviate(word)) == AbbreviateWords(Words(word))
  {
    if word != [] {
      var short := SqlTypes.Abbreviate(word);
      assert Words(short) == [short] by {
        AbbreviatedToken(word);
        WordsOfLoneToken(short);
      }
      assert Words(word) == [word] by {
        WordsOfLoneToken(word);
      }
      assert AbbreviateWords([word]) == [short];
    }
  }

  /** A run ended by whitespace is looked up as one word, in front of the words after. */
  lemma WordsOfFlushedRun(word: string, c: char, t: string, u: string)
    requires forall i :: 0 <= i < |word| ==> !IsWhitespace(word[i])
    requires IsWhitespace(c)
    requires Words(t) == AbbreviateWords(Words(u))
    ensures Words(SqlTypes.Abbreviate(word) + [c] + t) == AbbreviateWords(Words(word + ([c] + u)))
  {
    assert Words([c] + u) == Words(u) by {
      assert ([c] + u)[1..] == u;
    }
    assert Words([c] + t) == Words(t) by {
      assert ([c] + t)[1..] == t;
    }
    if word != [] {
      WordsOfToken(word, [c] + u);
      AbbreviatedToken(word);
      WordsOfToken(SqlTypes.Abbreviate(word), [c] + t);
      assert SqlTypes.Abbreviate(word) + [c] + t == SqlTypes.Abbreviate(word) + ([c] + t);
    } else {
      assert word + ([c] + u) == [c] + u;
    }
  }
}
