/** `minify_sql` of the `minify_sql` crate: block comments out, line comments out, long
    type names abbreviated, whitespace collapsed, spaces around symbols dropped, one
    trailing `;` popped. */
module MinifySql {
  import opened Text
  import opened BlockComments
  import opened LineComments
  import opened Abbreviation
  import opened Compaction

  /** The text `minify_sql` returns, stage by stage. */
  function Minify(d: Dialect, document: string): string {
    Compact(Collapse(Abbreviate(d, StripLines(StripBlock(document)))))
  }

  /** `minify_sql` with compaction as evidently intended: its output never holds a `--`,
      and it is the source's output whenever that holds none. */
  function MinifyCorrected(d: Dialect, document: string): (r: string)
    ensures NoDashPair(r)
    ensures NoDashPair(Minify(d, document)) ==> r == Minify(d, document)
  {
    CompactCorrected(Collapse(Abbreviate(d, StripLines(StripBlock(document)))))
  }

  method MinifySql(d: Dialect, document: string) returns (output: string)
    ensures output == Minify(d, document)
    ensures Collapsed(output)
    ensures Shape(output, SingleSymbols, SingleSymbols)
    ensures |output| <= |document|
  {
    var documentWithoutMultilineComments := RemoveMultilineComments(document);
    var documentWithoutComments := RemoveSingleLineComments(documentWithoutMultilineComments);

    documentWithoutComments := ReplaceLongFormatTypes(d, documentWithoutComments);

    output := Collapse(documentWithoutComments);
    ghost var collapsed := output;

    output := RemoveSpacesAroundSymbols(output);

    if |output| > 0 && output[|output| - 1] == ';' {
      output := output[..|output| - 1];
    }

    assert output == Compact(collapsed);
    assert output == Minify(d, document);
    MinifyShape(d, document);
  }

  /** The output is collapsed, has no space beside a one-character symbol, and is never
      longer than the input. */
  lemma MinifyShape(d: Dialect, document: string)
    ensures Collapsed(Minify(d, document))
    ensures Shape(Minify(d, document), SingleSymbols, SingleSymbols)
    ensures |Minify(d, document)| <= |document|
  {
    CompactShape(Collapse(Abbreviate(d, StripLines(StripBlock(document)))));
    MinifyNotLonger(d, document);
  }

  /** The loop over `LONG_FORMAT_TYPES`: each whole-word replacement, in table order. */
  method ReplaceLongFormatTypes(d: Dialect, text: string) returns (output: string)
    ensures output == Abbreviate(d, text)
  {
    output := text;
    var longFormatTypes := LongFormatTypes(d);
    TablesWellFormed(d);
    assert longFormatTypes[0..] == longFormatTypes;
    for i := 0 to |longFormatTypes|
      invariant WellFormedTable(longFormatTypes)
      invariant WellFormedTable(longFormatTypes[i..])
      invariant AbbreviateAll(output, longFormatTypes[i..]) == Abbreviate(d, text)
    {
      var (long, short) := longFormatTypes[i];
      assert longFormatTypes[i..][0] == (long, short);
      assert longFormatTypes[i..][1..] == longFormatTypes[i + 1..];
      WellFormedSuffix(longFormatTypes, i + 1);
      output := ReplaceWholeWord(output, long, short);
    }
    assert longFormatTypes[|longFormatTypes|..] == [];
  }

  /** The loop over the symbol list: both replacements for each symbol, in order. */
  method RemoveSpacesAroundSymbols(text: string) returns (output: string)
    ensures output == Tighten(text, Symbols)
  {
    var symbols := Symbols;
    SymbolsAreSymbols();
    output := text;
    assert symbols[0..] == symbols;
    for i := 0 to |symbols|
      invariant AllSymbols(symbols[i..])
      invariant Tighten(output, symbols[i..]) == Tighten(text, symbols)
    {
      assert symbols[i..][0] == symbols[i] && symbols[i..][1..] == symbols[i + 1..];
      output := ReplaceAll(output, " " + symbols[i], symbols[i]);
      output := ReplaceAll(output, symbols[i] + " ", symbols[i]);
    }
    assert symbols[|symbols|..] == [];
  }

  /** A suffix of a well-formed table is well formed. */
  lemma WellFormedSuffix(t: seq<(string, string)>, i: nat)
    requires WellFormedTable(t) && i <= |t|
    ensures WellFormedTable(t[i..])
  {
    var u := t[i..];
    forall k | 0 <= k < |u|
      ensures IsKeyword(u[k].0) && (forall j :: 0 <= j < |u| ==> |u[k].1| < |u[j].0|)
              && u[k].1 == u[k].0[..|u[k].1|]
    {
      assert u[k] == t[i + k];
      forall j | 0 <= j < |u| ensures |u[k].1| < |u[j].0| {
        assert u[j] == t[i + j];
      }
    }
  }

  /** The line stage adds one space per line, but its final space is gone again once
      whitespace is collapsed, so the output is never longer than the input. */
  lemma MinifyNotLonger(d: Dialect, document: string)
    ensures |Minify(d, document)| <= |document|
  {
    var s := StripBlock(document);
    NeverLonger(document);
    var t := StripLines(s);
    StripLinesShape(s);
    TablesWellFormed(d);
    var c: string;
    if t == [] {
      c := Collapse(Abbreviate(d, t));
      AbbreviateEmpty(LongFormatTypes(d));
      assert c == [];
    } else {
      var u := t[..|t| - 1];
      assert t == u + [' '];
      AbbreviateTrailing(u, ' ', LongFormatTypes(d));
      var a := Abbreviate(d, u);
      assert Abbreviate(d, t) == a + [' '];
      WordsSnocWhitespace(a, ' ');
      AbbreviateNotLonger(u, LongFormatTypes(d));
      c := Collapse(Abbreviate(d, t));
      assert c == Collapse(a);
    }
    CompactShape(c);
  }

  /** Removing a closed block comment, whatever it holds, at a point outside any comment
      and not just after a withheld `/`, changes nothing in the result. */
  lemma MinifyClosedTransparent(d: Dialect, p: string, s: string, q: string)
    requires Scan(Init, p).depth == 0 && Scan(Init, p).last != '/'
    requires Closes(s)
    ensures Minify(d, p + "/*" + s + q) == Minify(d, p + q)
  {
    ClosedTransparent(p, s, q);
  }

  /** The same for a comment built from plain text and nested comments, a case of
      `BlockComments.ClosedTransparent` proved through `BlockComments.CommentTransparent`. */
  lemma MinifyCommentTransparent(d: Dialect, p: string, body: seq<Piece>, q: string)
    requires Scan(Init, p).depth == 0 && Scan(Init, p).last != '/'
    requires WellFormed(body)
    ensures Minify(d, p + CommentText(body) + q) == Minify(d, p + q)
  {
    CommentTransparent(p, body, q);
  }

  /** A document that is a single line comment minifies to nothing. */
  lemma CommentLineVanishes(d: Dialect, c: string)
    requires forall i :: 0 <= i < |c| ==> c[i] != '\n'
    ensures Minify(d, "--" + c) == []
  {
    var collapsed := Collapse(Abbreviate(d, StripLines(StripBlock("--" + c))));
    assert collapsed == [] by {
      CommentLineStripped(c);
      SpaceVanishes(d);
    }
    CompactEmpty(collapsed);
  }

  /** Compaction of nothing is nothing. The empty text is a parameter, not the literal
      `[]`, so that the verifier does not evaluate the symbol loop on a literal, which is
      costly. */
  lemma CompactEmpty(s: string)
    requires s == []
    ensures Compact(s) == []
  {
    SymbolsAreSymbols();
    TightenEmpty(s, Symbols);
  }

  /** The comment stages leave the single space that follows the line, whatever the
      comment holds: the block stage keeps the leading `--` and adds no line break. */
  lemma CommentLineStripped(c: string)
    requires forall i :: 0 <= i < |c| ==> c[i] != '\n'
    ensures StripLines(StripBlock("--" + c)) == " "
  {
    var st := State("--", '-', 0);
    assert Scan(Init, "--") == st by {
      assert "--"[1..] == "-" && "-"[1..] == [];
    }
    ScanConcat(Init, "--", c);
    ScanExtends(st, c);
    var o := StripBlock("--" + c);
    assert "--" <= o;
    IndexOfAbsent(o, '\n');
    assert Lines(o) == [o];
    assert DashPairAt(o, 0);
    assert CutLine(o) == [];
    assert [o][1..] == [];
    assert JoinLines([o]) == CutLine(o) + " " + JoinLines([]);
  }

  /** A lone space is not abbreviated and collapses to nothing. */
  lemma SpaceVanishes(d: Dialect)
    ensures Collapse(Abbreviate(d, " ")) == []
  {
    TablesWellFormed(d);
    AbbreviateTrailing([], ' ', LongFormatTypes(d));
    AbbreviateEmpty(LongFormatTypes(d));
    assert Abbreviate(d, " ") == " ";
    assert Words(" ") == [] by {
      assert " "[1..] == [];
    }
  }

  lemma IndexOfAbsent(s: string, c: char)
    requires forall i :: 0 <= i < |s| ==> s[i] != c
    ensures IndexOf(s, c) == |s|
  {
  }

  /** The symbol loop leaves the empty text empty; `s` stands for `[]` for the same
      reason as in `CompactEmpty`. */
  lemma {:induction false} TightenEmpty(s: string, syms: seq<string>)
    requires s == []
    requires forall k :: 0 <= k < |syms| ==> syms[k] != []
    ensures Tighten(s, syms) == []
    decreases |syms|
  {
    if syms != [] {
      TightenEmpty(StripAround(s, syms[0]), syms[1..]);
    }
  }
}
