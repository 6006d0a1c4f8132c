/** Stage 1 of `minify_sql`: `remove_multiline_comments`, a one-pass scanner that
    drops nested block comments (opened by slash-star, closed by star-slash), tracking the previous character and the number
    of comments still open, and holding back a `/` until it knows no `*` follows. */
module BlockComments {

  /** The scanner's variables between two characters: what was pushed so far,
      `last_char` and `number_of_open_comments`. */
  datatype State = State(output: string, last: char, depth: nat)

  /** An empty output, the NUL character as the previous one, and no open comment. */
  const Init: State := State([], '\0', 0)

  /** One turn of the `for` loop. A close decrements the depth only when it is
      positive; both a close and an open replace the character with `'\0'` so that
      it cannot take part in the next marker. */
  function Step(st: State, c: char): (r: State)
    ensures r.depth > 0 ==> r.output == st.output
    ensures r.depth != st.depth ==> r.last == '\0' && r.output == st.output
    ensures |r.output| <= |st.output| + 2
  {
    if st.depth > 0 && st.last == '*' && c == '/' then State(st.output, '\0', st.depth - 1)
    else if st.last == '/' && c == '*' then State(st.output, '\0', st.depth + 1)
    else if st.depth == 0 then
      if c != '/' then State(st.output + (if st.last == '/' then "/" else "") + [c], c, 0)
      else State(st.output, c, 0)
    else State(st.output, c, st.depth)
  }

  /** The state after feeding `s` to the scanner, one character after another. */
  function Scan(st: State, s: string): State
    decreases |s|
  {
    if s == [] then st else Scan(Step(st, s[0]), s[1..])
  }

  /** The text `remove_multiline_comments` returns. */
  function StripBlock(s: string): string {
    Scan(Init, s).output
  }

  method RemoveMultilineComments(sqlContent: string) returns (output: string)
    ensures output == StripBlock(sqlContent)
    ensures |output| <= |sqlContent|
    ensures (forall i :: 0 <= i < |sqlContent| ==> sqlContent[i] != '/') ==> output == sqlContent
  {
    output := "";
    var lastChar := '\0';
    var numberOfOpenComments: nat := 0;
    for i := 0 to |sqlContent|
      invariant Scan(State(output, lastChar, numberOfOpenComments), sqlContent[i..]) == Scan(Init, sqlContent)
    {
      assert sqlContent[i..][1..] == sqlContent[i + 1..];
      ghost var before := State(output, lastChar, numberOfOpenComments);
      var c := sqlContent[i];
      if numberOfOpenComments > 0 && lastChar == '*' && c == '/' {
        numberOfOpenComments := numberOfOpenComments - 1;
        c := '\0';
      } else if lastChar == '/' && c == '*' {
        numberOfOpenComments := numberOfOpenComments + 1;
        c := '\0';
      } else if numberOfOpenComments == 0 {
        if c != '/' {
          if lastChar == '/' {
            output := output + "/";
          }
          output := output + [c];
        }
      }
      lastChar := c;
      assert State(output, lastChar, numberOfOpenComments) == Step(before, sqlContent[i]);
    }
    NeverLonger(sqlContent);
    if forall i :: 0 <= i < |sqlContent| ==> sqlContent[i] != '/' {
      WithoutSlashUnchanged(sqlContent);
    }
  }

  /** Scanning a concatenation is scanning its parts in turn. */
  lemma {:induction false} ScanConcat(st: State, a: string, b: string)
    ensures Scan(st, a + b) == Scan(Scan(st, a), b)
    decreases |a|
  {
    if a == [] {
      assert a + b == b;
    } else {
      assert (a + b)[1..] == a[1..] + b;
      ScanConcat(Step(st, a[0]), a[1..], b);
    }
  }

  /** A withheld `/` counts one character of output still owed. */
  function Owed(st: State): nat {
    |st.output| + (if st.depth == 0 && st.last == '/' then 1 else 0)
  }

  lemma {:induction false} ScanBudget(st: State, s: string)
    ensures Owed(Scan(st, s)) <= Owed(st) + |s|
    decreases |s|
  {
    if s != [] {
      ScanBudget(Step(st, s[0]), s[1..]);
    }
  }

  /** The block stripper never lengthens its input. */
  lemma NeverLonger(s: string)
    ensures |StripBlock(s)| <= |s|
  {
    ScanBudget(Init, s);
  }

  /** With no `/` in the input nothing opens a comment and every character is copied. */
  lemma {:induction false} WithoutSlashScan(st: State, s: string)
    requires st.depth == 0 && st.last != '/'
    requires forall i :: 0 <= i < |s| ==> s[i] != '/'
    ensures Scan(st, s) == State(st.output + s, if s == [] then st.last else s[|s| - 1], 0)
    decreases |s|
  {
    if s != [] {
      WithoutSlashScan(Step(st, s[0]), s[1..]);
      assert st.output + [s[0]] + s[1..] == st.output + s;
    }
  }

  lemma WithoutSlashUnchanged(s: string)
    requires forall i :: 0 <= i < |s| ==> s[i] != '/'
    ensures StripBlock(s) == s
  {
    WithoutSlashScan(Init, s);
  }

  /** A `/` never adds output by itself: a trailing `/` is lost. */
  lemma TrailingSlashLost(s: string)
    ensures StripBlock(s + "/") == StripBlock(s)
  {
    ScanConcat(Init, s, "/");
  }

  /** Outside a comment a `/` is emitted just before the next character that is
      neither `/` nor `*`. */
  lemma SlashEmittedBeforePlain(st: State, c: char)
    requires st.depth == 0
    requires c != '/' && c != '*'
    ensures Scan(st, ['/', c]) == State(st.output + ['/', c], c, 0)
  {
    var mid := Step(st, '/');
    assert mid == State(st.output, '/', 0);
    assert ['/', c][1..] == [c];
    assert Scan(st, ['/', c]) == Scan(mid, [c]);
    assert Scan(mid, [c]) == Step(mid, c) by { assert [c][1..] == []; }
    assert st.output + "/" + [c] == st.output + ['/', c];
  }

  /** Text that may sit inside a comment without opening or closing one. */
  predicate Plain(t: string) {
    forall i :: 0 <= i < |t| ==> t[i] != '/' && t[i] != '*'
  }

  /** A comment body: plain text and nested comments, in any order. */
  datatype Piece = Text(text: string) | Comment(body: seq<Piece>)

  predicate WellFormed(ps: seq<Piece>)
    decreases ps
  {
    ps == [] ||
    ((match ps[0]
      case Text(t) => Plain(t)
      case Comment(b) => WellFormed(b))
     && WellFormed(ps[1..]))
  }

  function Render(ps: seq<Piece>): string
    decreases ps
  {
    if ps == [] then []
    else
      (match ps[0]
       case Text(t) => t
       case Comment(b) => "/*" + Render(b) + "*/")
      + Render(ps[1..])
  }

  /** A balanced block comment: opener, the given body, closer. */
  function CommentText(body: seq<Piece>): string
  {
    "/*" + Render(body) + "*/"
  }

  lemma {:induction false} PlainInsideComment(st: State, t: string)
    requires st.depth > 0 && st.last != '/' && st.last != '*'
    requires Plain(t)
    ensures Scan(st, t) == State(st.output, if t == [] then st.last else t[|t| - 1], st.depth)
    decreases |t|
  {
    if t != [] {
      PlainInsideComment(Step(st, t[0]), t[1..]);
    }
  }

  /** Inside an open comment a well-formed body emits nothing and leaves the depth as
      it found it. */
  lemma {:induction false} BodyInsideComment(st: State, ps: seq<Piece>)
    requires st.depth > 0 && st.last != '/' && st.last != '*'
    requires WellFormed(ps)
    ensures Scan(st, Render(ps)).output == st.output
    ensures Scan(st, Render(ps)).depth == st.depth
    ensures Scan(st, Render(ps)).last != '/' && Scan(st, Render(ps)).last != '*'
    decreases ps
  {
    if ps != [] {
      var head := match ps[0] case Text(t) => t case Comment(b) => CommentText(b);
      assert Render(ps) == head + Render(ps[1..]);
      ScanConcat(st, head, Render(ps[1..]));
      var mid := Scan(st, head);
      match ps[0] {
        case Text(t) =>
          PlainInsideComment(st, t);
        case Comment(b) =>
          var inner := State(st.output, '\0', st.depth + 1);
          OpenMarker(st);
          ScanConcat(st, "/*", Render(b) + "*/");
          BodyInsideComment(inner, b);
          ScanConcat(inner, Render(b), "*/");
          CloseMarker(Scan(inner, Render(b)));
          assert "/*" + Render(b) + "*/" == "/*" + (Render(b) + "*/");
      }
      BodyInsideComment(mid, ps[1..]);
    }
  }

  /** The opener (slash, star) opens one more comment, whatever the depth, when the previous character
      cannot close one. */
  lemma OpenMarker(st: State)
    requires st.last != '*' || st.depth == 0
    ensures Scan(st, "/*") == State(st.output, '\0', st.depth + 1)
  {
    var mid := Step(st, '/');
    assert mid.last == '/' && mid.output == st.output && mid.depth == st.depth;
    assert "/*"[1..] == "*";
    assert Scan(mid, "*") == Step(mid, '*') by { assert "*"[1..] == []; }
  }

  /** The closer (star, slash) closes one comment when the previous character cannot open one. */
  lemma CloseMarker(st: State)
    requires st.depth > 0 && st.last != '/'
    ensures Scan(st, "*/") == State(st.output, '\0', st.depth - 1)
  {
    var mid := Step(st, '*');
    assert mid == State(st.output, '*', st.depth);
    assert "*/"[1..] == "/";
    assert Scan(mid, "/") == Step(mid, '/') by { assert "/"[1..] == []; }
  }

  /** Outside any comment, a comment built from plain text and nested comments emits
      nothing and the depth returns to zero: the case of `ClosedVanishes` for such a body. */
  lemma CommentVanishes(st: State, body: seq<Piece>)
    requires st.depth == 0 && st.last != '/'
    requires WellFormed(body)
    ensures Scan(st, CommentText(body)) == State(st.output, '\0', 0)
  {
    PiecesClose(body);
    ClosedVanishes(st, Render(body) + "*/");
    assert CommentText(body) == "/*" + (Render(body) + "*/");
  }

  /** At depth zero, once the previous character is not `/`, which character it was
      has no effect on what follows. */
  lemma {:induction false} LastForgotten(st1: State, st2: State, q: string)
    requires st1.output == st2.output && st1.depth == 0 && st2.depth == 0
    requires st1.last != '/' && st2.last != '/'
    ensures Scan(st1, q).output == Scan(st2, q).output
  {
    if q != [] {
      assert Step(st1, q[0]) == Step(st2, q[0]);
    }
  }

  /** Inserting a comment built from plain text and nested comments where the scanner
      is outside any comment, and not just after a withheld `/`, does not change the
      stripped text: the case of `ClosedTransparent` for such a body. */
  lemma CommentTransparent(p: string, body: seq<Piece>, q: string)
    requires Scan(Init, p).depth == 0 && Scan(Init, p).last != '/'
    requires WellFormed(body)
    ensures StripBlock(p + CommentText(body) + q) == StripBlock(p + q)
  {
    PiecesClose(body);
    ClosedTransparent(p, Render(body) + "*/", q);
    assert p + CommentText(body) + q == p + "/*" + (Render(body) + "*/") + q;
  }

  /** The depth and the previous character after a scan do not depend on the output the
      scan started from. */
  lemma {:induction false} ScanIgnoresOutput(st1: State, st2: State, s: string)
    requires st1.last == st2.last && st1.depth == st2.depth
    ensures Scan(st1, s).last == Scan(st2, s).last && Scan(st1, s).depth == Scan(st2, s).depth
    decreases |s|
  {
    if s != [] {
      ScanIgnoresOutput(Step(st1, s[0]), Step(st2, s[0]), s[1..]);
    }
  }

  /** The text after an opener closes that comment with its last character and not
      before: the depth stays positive through every proper prefix and is zero at the
      end. The body may hold any characters, nested comments included. */
  predicate Closes(s: string) {
    s != []
    && (forall j :: 0 <= j < |s| ==> Scan(State([], '\0', 1), s[..j]).depth > 0)
    && Scan(State([], '\0', 1), s).depth == 0
  }

  /** Outside any comment, an opener followed by text that closes it emits nothing and
      leaves the scanner outside any comment. */
  lemma ClosedVanishes(st: State, s: string)
    requires st.depth == 0 && st.last != '/'
    requires Closes(s)
    ensures Scan(st, "/*" + s) == State(st.output, '\0', 0)
  {
    var open := State(st.output, '\0', 1);
    OpenMarker(st);
    ScanConcat(st, "/*", s);
    var s0, c := s[..|s| - 1], s[|s| - 1];
    forall j | 0 <= j <= |s0| ensures Scan(open, s0[..j]).depth > 0 {
      assert s0[..j] == s[..j];
      ScanIgnoresOutput(open, State([], '\0', 1), s[..j]);
    }
    OpenEmitsNothing(open, s0);
    ScanIgnoresOutput(open, State([], '\0', 1), s);
    assert s == s0 + [c];
    ScanConcat(open, s0, [c]);
    assert Scan(Scan(open, s0), [c]) == Step(Scan(open, s0), c) by {
      assert [c][1..] == [];
    }
    assert s0[..|s0|] == s0;
    assert Scan(open, s0).depth > 0 && Scan(open, s).depth == 0;
  }

  /** Inserting a closed block comment where the scanner is outside any comment, and
      not just after a withheld `/`, does not change the stripped text, whatever the
      comment holds. */
  lemma ClosedTransparent(p: string, s: string, q: string)
    requires Scan(Init, p).depth == 0 && Scan(Init, p).last != '/'
    requires Closes(s)
    ensures StripBlock(p + "/*" + s + q) == StripBlock(p + q)
  {
    var st := Scan(Init, p);
    assert p + "/*" + s + q == p + ("/*" + s) + q;
    ScanConcat(Init, p + ("/*" + s), q);
    ScanConcat(Init, p, "/*" + s);
    ScanConcat(Init, p, q);
    ClosedVanishes(st, s);
    LastForgotten(State(st.output, '\0', 0), st, q);
  }

  /** Every prefix of `s` leaves a comment open. */
  predicate KeepsOpen(st: State, s: string) {
    forall j :: 0 <= j <= |s| ==> Scan(st, s[..j]).depth > 0
  }

  lemma KeepsOpenConcat(st: State, a: string, b: string)
    requires KeepsOpen(st, a) && KeepsOpen(Scan(st, a), b)
    ensures KeepsOpen(st, a + b)
  {
    forall j | 0 <= j <= |a + b| ensures Scan(st, (a + b)[..j]).depth > 0 {
      if j <= |a| {
        assert (a + b)[..j] == a[..j];
      } else {
        assert (a + b)[..j] == a + b[..j - |a|];
        ScanConcat(st, a, b[..j - |a|]);
      }
    }
  }

  lemma PlainKeepsOpen(st: State, t: string)
    requires st.depth > 0 && st.last != '/' && st.last != '*'
    requires Plain(t)
    ensures KeepsOpen(st, t)
  {
    forall j | 0 <= j <= |t| ensures Scan(st, t[..j]).depth > 0 {
      assert Plain(t[..j]) by {
        forall i | 0 <= i < j ensures t[..j][i] != '/' && t[..j][i] != '*' {
          assert t[..j][i] == t[i];
        }
      }
      PlainInsideComment(st, t[..j]);
    }
  }

  /** The two characters of the opener keep the comment open. */
  lemma OpenerKeepsOpen(st: State)
    requires st.depth > 0 && st.last != '*'
    ensures KeepsOpen(st, "/*")
  {
    OpenMarker(st);
    assert "/*"[..0] == [] && "/*"[..2] == "/*";
    assert Scan(st, "/*"[..1]) == Step(st, '/') by {
      assert "/*"[..1] == "/" && "/"[1..] == [];
    }
  }

  /** The two characters of a closer at depth two or more keep a comment open. */
  lemma CloserKeepsOpen(st: State)
    requires st.depth > 1 && st.last != '/'
    ensures KeepsOpen(st, "*/")
  {
    CloseMarker(st);
    assert "*/"[..0] == [] && "*/"[..2] == "*/";
    assert Scan(st, "*/"[..1]) == Step(st, '*') by {
      assert "*/"[..1] == "*" && "*"[1..] == [];
    }
  }

  /** A well-formed body keeps the comment around it open at every prefix. */
  lemma {:induction false} BodyKeepsOpen(st: State, ps: seq<Piece>)
    requires st.depth > 0 && st.last != '/' && st.last != '*'
    requires WellFormed(ps)
    ensures KeepsOpen(st, Render(ps))
    decreases ps
  {
    if ps == [] {
      assert Render(ps)[..0] == [];
    } else {
      var head := match ps[0] case Text(t) => t case Comment(b) => CommentText(b);
      assert Render(ps) == head + Render(ps[1..]);
      ScanConcat(st, head, Render(ps[1..]));
      match ps[0] {
        case Text(t) =>
          PlainKeepsOpen(st, t);
        case Comment(b) =>
          var inner := State(st.output, '\0', st.depth + 1);
          OpenerKeepsOpen(st);
          OpenMarker(st);
          BodyKeepsOpen(inner, b);
          BodyInsideComment(inner, b);
          KeepsOpenConcat(st, "/*", Render(b));
          ScanConcat(st, "/*", Render(b));
          CloserKeepsOpen(Scan(inner, Render(b)));
          KeepsOpenConcat(st, "/*" + Render(b), "*/");
      }
      BodyInsideComment(st, ps[..1]);
      assert Scan(st, head) == Scan(st, Render(ps[..1])) by {
        assert ps[..1][1..] == [];
        assert Render(ps[..1]) == head;
      }
      BodyKeepsOpen(Scan(st, head), ps[1..]);
      KeepsOpenConcat(st, head, Render(ps[1..]));
    }
  }

  /** The body of a well-formed comment, followed by its closer, closes the comment. */
  lemma PiecesClose(body: seq<Piece>)
    requires WellFormed(body)
    ensures Closes(Render(body) + "*/")
  {
    var open := State([], '\0', 1);
    var s := Render(body) + "*/";
    BodyKeepsOpen(open, body);
    BodyInsideComment(open, body);
    var mid := Scan(open, Render(body));
    ScanConcat(open, Render(body), "*/");
    CloseMarker(mid);
    forall j | 0 <= j < |s| ensures Scan(open, s[..j]).depth > 0 {
      if j <= |Render(body)| {
        assert s[..j] == Render(body)[..j];
      } else {
        assert s[..j] == Render(body) + "*";
        ScanConcat(open, Render(body), "*");
        assert Scan(mid, "*") == Step(mid, '*') by { assert "*"[1..] == []; }
      }
    }
  }

  /** The scanner only appends to its output, and what it appends comes from its input
      or is a withheld `/`, so it adds no line break. */
  lemma {:induction false} ScanExtends(st: State, s: string)
    requires forall i :: 0 <= i < |s| ==> s[i] != '\n'
    requires forall i :: 0 <= i < |st.output| ==> st.output[i] != '\n'
    ensures st.output <= Scan(st, s).output
    ensures forall i :: 0 <= i < |Scan(st, s).output| ==> Scan(st, s).output[i] != '\n'
    decreases |s|
  {
    if s != [] {
      var next := Step(st, s[0]);
      assert next.output == st.output || next.output == st.output + [s[0]]
             || next.output == st.output + "/" + [s[0]];
      ScanExtends(next, s[1..]);
    }
  }

  /** A comment whose body holds a `*` and a `/` goes as a whole: `a/*2*3 x/y*/b`
      becomes `ab`. The parts are parameters so that the verifier does not evaluate the
      scan on one long literal. */
  lemma StarAndSlashInComment(p: string, body: string, q: string)
    requires p == "a" && body == "2*3 x/y*/" && q == "b"
    ensures StripBlock(p + "/*" + body + q) == "ab"
  {
    PrefixA();
    assert p + "/*" + body + q == p + "/*" + (body + q);
    AfterOpener(p, body + q);
    ScanConcat(State("a", '\0', 1), body, q);
    BodyClosed(body);
    assert Scan(State("a", '\0', 0), q) == State("ab", 'b', 0) by {
      assert q[1..] == [];
    }
  }

  /** The body alone, scanned inside one open comment. */
  lemma BodyClosed(body: string)
    requires body == "2*3 x/y*/"
    ensures Scan(State("a", '\0', 1), body) == State("a", '\0', 0)
  {
    assert body == "2*3" + " x/y" + "*/";
    ScanConcat(State("a", '\0', 1), "2*3" + " x/y", "*/");
    ScanConcat(State("a", '\0', 1), "2*3", " x/y");
    assert Scan(State("a", '\0', 1), "2*3") == State("a", '3', 1);
    assert Scan(State("a", '3', 1), " x/y") == State("a", 'y', 1);
    CloseMarker(State("a", 'y', 1));
  }

  /** No closer (star, slash) occurs in `s`. */
  predicate NoCloser(s: string) {
    forall i :: 0 <= i < |s| - 1 ==> !(s[i] == '*' && s[i + 1] == '/')
  }

  lemma {:induction false} UnclosedEmitsNothing(st: State, s: string)
    requires st.depth > 0
    requires s != [] && s[0] == '/' ==> st.last != '*'
    requires NoCloser(s)
    ensures Scan(st, s).output == st.output && Scan(st, s).depth > 0
    decreases |s|
  {
    if s != [] {
      UnclosedEmitsNothing(Step(st, s[0]), s[1..]);
    }
  }

  /** After an opener that is never closed, all remaining input is dropped without error. */
  lemma UnterminatedDropsRest(p: string, s: string)
    requires Scan(Init, p).depth == 0
    requires NoCloser(s)
    ensures StripBlock(p + "/*" + s) == StripBlock(p)
  {
    var st := Scan(Init, p);
    OpenMarker(st);
    forall j | 0 <= j <= |s| ensures Scan(Init, p + "/*" + s[..j]).depth > 0 {
      assert NoCloser(s[..j]) by {
        forall i | 0 <= i < j - 1 ensures !(s[..j][i] == '*' && s[..j][i + 1] == '/') {
          assert s[..j][i] == s[i] && s[..j][i + 1] == s[i + 1];
        }
      }
      UnclosedEmitsNothing(State(st.output, '\0', 1), s[..j]);
      AfterOpener(p, s[..j]);
    }
    UnclosedDropsRest(p, s);
  }

  /** Inside an open comment, as long as no prefix of `s` brings the depth back to zero,
      nothing is emitted, whatever nested comments `s` holds. */
  lemma {:induction false} OpenEmitsNothing(st: State, s: string)
    requires forall j :: 0 <= j <= |s| ==> Scan(st, s[..j]).depth > 0
    ensures Scan(st, s).output == st.output
    decreases |s|
  {
    if s != [] {
      var s0, c := s[..|s| - 1], s[|s| - 1];
      forall j | 0 <= j <= |s0| ensures Scan(st, s0[..j]).depth > 0 {
        assert s0[..j] == s[..j];
      }
      OpenEmitsNothing(st, s0);
      assert s == s0 + [c] && s[..|s|] == s;
      ScanConcat(st, s0, [c]);
      assert Scan(Scan(st, s0), [c]) == Step(Scan(st, s0), c) by {
        assert [c][1..] == [];
      }
    }
  }

  /** After an opener that no later closer balances, all remaining input is dropped
      without error, even when it holds balanced nested comments. */
  lemma UnclosedDropsRest(p: string, s: string)
    requires Scan(Init, p).depth == 0
    requires forall j :: 0 <= j <= |s| ==> Scan(Init, p + "/*" + s[..j]).depth > 0
    ensures StripBlock(p + "/*" + s) == StripBlock(p)
  {
    var st := Scan(Init, p);
    OpenMarker(st);
    var open := State(st.output, '\0', 1);
    forall j | 0 <= j <= |s| ensures Scan(Init, p + "/*" + s[..j]) == Scan(open, s[..j]) {
      AfterOpener(p, s[..j]);
    }
    OpenEmitsNothing(open, s);
    AfterOpener(p, s);
  }

  lemma AfterOpener(p: string, t: string)
    requires Scan(Init, p).depth == 0
    ensures Scan(Init, p + "/*" + t) == Scan(State(Scan(Init, p).output, '\0', 1), t)
  {
    var st := Scan(Init, p);
    ScanConcat(Init, p, "/*" + t);
    assert p + "/*" + t == p + ("/*" + t);
    ScanConcat(st, "/*", t);
    OpenMarker(st);
  }

  /** A nested comment inside an unclosed one is dropped with it: text, an opener, plain
      text, a nested comment and plain text again leave only the text before the opener. */
  lemma UnclosedWithNested(p: string, x: string, y: string, z: string)
    requires Scan(Init, p).depth == 0
    requires Plain(x) && Plain(y) && Plain(z)
    ensures StripBlock(p + "/*" + (x + ("/*" + (y + ("*/" + z))))) == StripBlock(p)
  {
    var out := Scan(Init, p).output;
    AfterOpener(p, x + ("/*" + (y + ("*/" + z))));
    var st1 := State(out, '\0', 1);
    ScanConcat(st1, x, "/*" + (y + ("*/" + z)));
    PlainInsideComment(st1, x);
    var st2 := Scan(st1, x);
    ScanConcat(st2, "/*", y + ("*/" + z));
    OpenMarker(st2);
    var st3 := State(out, '\0', 2);
    ScanConcat(st3, y, "*/" + z);
    PlainInsideComment(st3, y);
    var st4 := Scan(st3, y);
    ScanConcat(st4, "*/", z);
    CloseMarker(st4);
    PlainInsideComment(State(out, '\0', 1), z);
  }

  lemma PrefixA()
    ensures Scan(Init, "a") == State("a", 'a', 0)
    ensures StripBlock("ab") == "ab"
  {
    assert "a"[1..] == [];
  }

  /** A `--` inside a block comment goes with the comment. */
  lemma DashesInsideComment()
    ensures StripBlock("a/* x -- y */b") == "ab"
  {
    var flat := [Text(" x -- y ")];
    assert flat[1..] == [];
    assert Plain(" x -- y ");
    assert WellFormed(flat);
    assert Render(flat) == " x -- y ";
    assert "a" + CommentText(flat) + "b" == "a/* x -- y */b";
    PrefixA();
    CommentTransparent("a", flat, "b");
  }

  lemma CommentCons(b: seq<Piece>, rest: seq<Piece>)
    requires WellFormed(b) && WellFormed(rest)
    ensures WellFormed([Comment(b)] + rest)
    ensures Render([Comment(b)] + rest) == "/*" + Render(b) + "*/" + Render(rest)
  {
    assert ([Comment(b)] + rest)[1..] == rest;
  }

  /** A nested comment balances and vanishes with its enclosing one. */
  lemma NestedCommentExample()
    ensures StripBlock("a/*/**/*/b") == "ab"
  {
    var nested := [Comment([])];
    CommentCons([], []);
    assert nested == [Comment([])] + [];
    assert "a" + CommentText(nested) + "b" == "a/*/**/*/b";
    PrefixA();
    CommentTransparent("a", nested, "b");
  }

  /** Concrete cases of the withheld slash. */
  lemma SlashExamples()
    ensures StripBlock("a/b") == "a/b"
    ensures StripBlock("a//b") == "a/b"
    ensures StripBlock("a/") == "a"
    ensures StripBlock("a/**/b") == "ab"
    ensures StripBlock("a*/b") == "a*/b"
  {
  }
}
