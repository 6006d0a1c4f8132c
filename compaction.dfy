/** Stage 4 of `minify_sql`: after whitespace is collapsed, the spaces on either side of
    each symbol of a fixed list are removed with two `str::replace` calls per symbol, in
    list order, and then one trailing `;` is popped. */
module Compaction {
  import opened Text

  /** The symbols, in the order the loop visits them. */
  const Symbols: seq<string> :=
    [",", ";", "(", ")", ">", "<", ">=", "<=", "!=", "<>", "=", "+", "-", "*", "/"]

  /** The one-character symbols of the list. */
  const SingleSymbols: set<char> := {',', ';', '(', ')', '>', '<', '=', '+', '-', '*', '/'}

  /** Rust's `str::replace`: every non-overlapping occurrence of `pat`, found left to
      right, is replaced by `rep`. */
  function ReplaceAll(s: string, pat: string, rep: string): string
    requires pat != []
    decreases |s|
  {
    if s == [] then []
    else if StartsWith(s, pat) then rep + ReplaceAll(s[|pat|..], pat, rep)
    else [s[0]] + ReplaceAll(s[1..], pat, rep)
  }

  /** The two replacements made for one symbol. */
  function StripAround(s: string, sym: string): string
    requires sym != []
  {
    ReplaceAll(ReplaceAll(s, " " + sym, sym), sym + " ", sym)
  }

  /** A symbol holds no whitespace. */
  predicate IsSymbol(sym: string) {
    sym != [] && forall i :: 0 <= i < |sym| ==> !IsWhitespace(sym[i])
  }

  predicate AllSymbols(syms: seq<string>) {
    forall k :: 0 <= k < |syms| ==> IsSymbol(syms[k])
  }

  /** The text after the loop over `syms`. */
  function Tighten(s: string, syms: seq<string>): string
    requires forall k :: 0 <= k < |syms| ==> syms[k] != []
    decreases |syms|
  {
    if syms == [] then s else Tighten(StripAround(s, syms[0]), syms[1..])
  }

  /** The last step: a text that ends with `;` loses that one character. */
  function PopTerminator(s: string): (r: string)
    ensures s != [] && s[|s| - 1] == ';' ==> r + ";" == s
    ensures !(s != [] && s[|s| - 1] == ';') ==> r == s
  {
    if s != [] && s[|s| - 1] == ';' then s[..|s| - 1] else s
  }

  /** An adjacent pair that compaction has ruled out: two spaces, a space before a
      character of `before`, or a space after a character of `after`. */
  predicate Bad(x: char, y: char, before: set<char>, after: set<char>) {
    (x == ' ' && (y == ' ' || y in before)) || (y == ' ' && x in after)
  }

  predicate NoBad(s: string, before: set<char>, after: set<char>) {
    forall i :: 0 <= i < |s| - 1 ==> !Bad(s[i], s[i + 1], before, after)
  }

  /** Collapsed text in which, moreover, no space touches the given characters on the
      given side. */
  predicate Shape(s: string, before: set<char>, after: set<char>) {
    NoBad(s, before, after)
    && (s != [] ==> s[0] != ' ' && s[|s| - 1] != ' ')
    && (forall i :: 0 <= i < |s| && IsWhitespace(s[i]) ==> s[i] == ' ')
  }

  /** The characters a one-character symbol adds to the ruled-out sides. */
  function Single(sym: string): set<char> {
    if |sym| == 1 then {sym[0]} else {}
  }

  function Singles(syms: seq<string>): set<char>
    decreases |syms|
  {
    if syms == [] then {} else Single(syms[0]) + Singles(syms[1..])
  }

  lemma NoBadConcat(a: string, b: string, before: set<char>, after: set<char>)
    requires NoBad(a, before, after) && NoBad(b, before, after)
    requires a != [] && b != [] ==> !Bad(a[|a| - 1], b[0], before, after)
    ensures NoBad(a + b, before, after)
  {
    var s := a + b;
    forall i | 0 <= i < |s| - 1 ensures !Bad(s[i], s[i + 1], before, after) {
      if i + 1 < |a| {
        assert s[i] == a[i] && s[i + 1] == a[i + 1];
      } else if i >= |a| {
        assert s[i] == b[i - |a|] && s[i + 1] == b[i - |a| + 1];
      }
    }
  }

  lemma NoBadSuffix(s: string, k: nat, before: set<char>, after: set<char>)
    requires NoBad(s, before, after) && k <= |s|
    ensures NoBad(s[k..], before, after)
  {
    forall i | 0 <= i < |s[k..]| - 1 ensures !Bad(s[k..][i], s[k..][i + 1], before, after) {
      assert s[k..][i] == s[k + i] && s[k..][i + 1] == s[k + i + 1];
    }
  }

  /** A symbol alone has no ruled-out pair: every such pair holds a space. */
  lemma SymbolNoBad(sym: string, before: set<char>, after: set<char>)
    requires IsSymbol(sym)
    ensures NoBad(sym, before, after)
  {
  }

  // Removing the space before `sym`.

  lemma {:induction false} SpaceBeforeEnds(s: string, sym: string)
    requires IsSymbol(sym)
    ensures s == [] <==> ReplaceAll(s, " " + sym, sym) == []
    ensures s != [] ==> ReplaceAll(s, " " + sym, sym)[0] == s[0]
                        || (s[0] == ' ' && ReplaceAll(s, " " + sym, sym)[0] == sym[0])
    ensures s != [] ==> ReplaceAll(s, " " + sym, sym)[|ReplaceAll(s, " " + sym, sym)| - 1] == s[|s| - 1]
    decreases |s|
  {
    var pat := " " + sym;
    if s != [] {
      if StartsWith(s, pat) {
        var rest := s[|pat|..];
        SpaceBeforeEnds(rest, sym);
        var r := ReplaceAll(rest, pat, sym);
        assert ReplaceAll(s, pat, sym) == sym + r;
        if rest == [] {
          assert s[|s| - 1] == pat[|pat| - 1] == sym[|sym| - 1];
        } else {
          assert s[|s| - 1] == rest[|rest| - 1];
        }
      } else {
        var r := ReplaceAll(s[1..], pat, sym);
        SpaceBeforeEnds(s[1..], sym);
        assert ReplaceAll(s, pat, sym) == [s[0]] + r;
        assert s[1..] != [] ==> s[|s| - 1] == s[1..][|s[1..]| - 1];
      }
    }
  }

  lemma {:induction false} SpaceBeforeNoBad(s: string, sym: string, before: set<char>, after: set<char>)
    requires IsSymbol(sym)
    requires NoBad(s, before, after)
    ensures NoBad(ReplaceAll(s, " " + sym, sym), before + Single(sym), after)
    decreases |s|
  {
    var pat := " " + sym;
    var before' := before + Single(sym);
    if s != [] {
      var r := ReplaceAll(s, pat, sym);
      if StartsWith(s, pat) {
        var u := s[|pat|..];
        NoBadSuffix(s, |pat|, before, after);
        SpaceBeforeNoBad(u, sym, before, after);
        SpaceBeforeEnds(u, sym);
        SymbolNoBad(sym, before', after);
        if u != [] {
          assert s[|sym|] == sym[|sym| - 1] && s[|sym| + 1] == u[0];
        }
        NoBadConcat(sym, ReplaceAll(u, pat, sym), before', after);
      } else {
        var u := s[1..];
        NoBadSuffix(s, 1, before, after);
        SpaceBeforeNoBad(u, sym, before, after);
        SpaceBeforeEnds(u, sym);
        if u != [] {
          assert s[1] == u[0];
        }
        NoBadConcat([s[0]], ReplaceAll(u, pat, sym), before', after);
      }
    }
  }

  lemma {:induction false} SpaceBeforeChars(s: string, sym: string)
    requires IsSymbol(sym)
    requires forall i :: 0 <= i < |s| && IsWhitespace(s[i]) ==> s[i] == ' '
    ensures forall i :: 0 <= i < |ReplaceAll(s, " " + sym, sym)| && IsWhitespace(ReplaceAll(s, " " + sym, sym)[i])
                        ==> ReplaceAll(s, " " + sym, sym)[i] == ' '
    decreases |s|
  {
    var pat := " " + sym;
    if s != [] {
      if StartsWith(s, pat) {
        SpaceBeforeChars(s[|pat|..], sym);
      } else {
        SpaceBeforeChars(s[1..], sym);
      }
    }
  }

  // Removing the space after `sym`.

  lemma {:induction false} SpaceAfterEnds(s: string, sym: string)
    requires IsSymbol(sym)
    ensures s == [] <==> ReplaceAll(s, sym + " ", sym) == []
    ensures s != [] ==> ReplaceAll(s, sym + " ", sym)[0] == s[0]
    ensures s != [] && s[|s| - 1] != ' ' ==>
              ReplaceAll(s, sym + " ", sym)[|ReplaceAll(s, sym + " ", sym)| - 1] == s[|s| - 1]
    decreases |s|
  {
    var pat := sym + " ";
    if s != [] {
      if StartsWith(s, pat) {
        var rest := s[|pat|..];
        SpaceAfterEnds(rest, sym);
        var r := ReplaceAll(rest, pat, sym);
        assert ReplaceAll(s, pat, sym) == sym + r;
        assert s[0] == sym[0];
        if rest != [] {
          assert s[|s| - 1] == rest[|rest| - 1];
        } else {
          assert s[|s| - 1] == ' ';
        }
      } else {
        var r := ReplaceAll(s[1..], pat, sym);
        SpaceAfterEnds(s[1..], sym);
        assert ReplaceAll(s, pat, sym) == [s[0]] + r;
        assert s[1..] != [] ==> s[|s| - 1] == s[1..][|s[1..]| - 1];
      }
    }
  }

  lemma {:induction false} SpaceAfterNoBad(s: string, sym: string, before: set<char>, after: set<char>)
    requires IsSymbol(sym)
    requires NoBad(s, before, after)
    ensures NoBad(ReplaceAll(s, sym + " ", sym), before, after + Single(sym))
    decreases |s|
  {
    var pat := sym + " ";
    var after' := after + Single(sym);
    if s != [] {
      if StartsWith(s, pat) {
        var u := s[|pat|..];
        NoBadSuffix(s, |pat|, before, after);
        SpaceAfterNoBad(u, sym, before, after);
        SpaceAfterEnds(u, sym);
        SymbolNoBad(sym, before, after');
        if u != [] {
          assert s[|sym|] == ' ' && s[|sym| + 1] == u[0];
        }
        NoBadConcat(sym, ReplaceAll(u, pat, sym), before, after');
      } else {
        var u := s[1..];
        NoBadSuffix(s, 1, before, after);
        SpaceAfterNoBad(u, sym, before, after);
        SpaceAfterEnds(u, sym);
        if u != [] {
          assert s[1] == u[0];
        }
        NoBadConcat([s[0]], ReplaceAll(u, pat, sym), before, after');
      }
    }
  }

  lemma {:induction false} SpaceAfterChars(s: string, sym: string)
    requires IsSymbol(sym)
    requires forall i :: 0 <= i < |s| && IsWhitespace(s[i]) ==> s[i] == ' '
    ensures forall i :: 0 <= i < |ReplaceAll(s, sym + " ", sym)| && IsWhitespace(ReplaceAll(s, sym + " ", sym)[i])
                        ==> ReplaceAll(s, sym + " ", sym)[i] == ' '
    decreases |s|
  {
    var pat := sym + " ";
    if s != [] {
      if StartsWith(s, pat) {
        SpaceAfterChars(s[|pat|..], sym);
      } else {
        SpaceAfterChars(s[1..], sym);
      }
    }
  }

  lemma {:induction false} ReplaceNotLonger(s: string, pat: string, rep: string)
    requires pat != [] && |rep| <= |pat|
    ensures |ReplaceAll(s, pat, rep)| <= |s|
    decreases |s|
  {
    if s != [] {
      if StartsWith(s, pat) {
        ReplaceNotLonger(s[|pat|..], pat, rep);
      } else {
        ReplaceNotLonger(s[1..], pat, rep);
      }
    }
  }

  /** The two replacements for a symbol keep the shape and rule out a space on either
      side of a one-character symbol; the text never grows. */
  lemma StripAroundShape(s: string, sym: string, before: set<char>, after: set<char>)
    requires IsSymbol(sym)
    requires Shape(s, before, after)
    ensures Shape(StripAround(s, sym), before + Single(sym), after + Single(sym))
    ensures |StripAround(s, sym)| <= |s|
  {
    var mid := ReplaceAll(s, " " + sym, sym);
    SpaceBeforeEnds(s, sym);
    SpaceBeforeNoBad(s, sym, before, after);
    SpaceBeforeChars(s, sym);
    SpaceAfterEnds(mid, sym);
    SpaceAfterNoBad(mid, sym, before + Single(sym), after);
    SpaceAfterChars(mid, sym);
    ReplaceNotLonger(s, " " + sym, sym);
    ReplaceNotLonger(mid, sym + " ", sym);
  }

  lemma {:induction false} TightenShape(s: string, syms: seq<string>, before: set<char>, after: set<char>)
    requires AllSymbols(syms)
    requires Shape(s, before, after)
    ensures Shape(Tighten(s, syms), before + Singles(syms), after + Singles(syms))
    ensures |Tighten(s, syms)| <= |s|
    decreases |syms|
  {
    if syms != [] {
      StripAroundShape(s, syms[0], before, after);
      TightenShape(StripAround(s, syms[0]), syms[1..], before + Single(syms[0]), after + Single(syms[0]));
      assert before + Single(syms[0]) + Singles(syms[1..]) == before + Singles(syms);
      assert after + Single(syms[0]) + Singles(syms[1..]) == after + Singles(syms);
    }
  }

  lemma SymbolsFacts()
    ensures AllSymbols(Symbols)
    ensures Singles(Symbols) == SingleSymbols
  {
    SymbolsAreSymbols();
    SinglesOfSymbols();
  }

  lemma SymbolsAreSymbols()
    ensures AllSymbols(Symbols)
  {
    forall k | 0 <= k < |Symbols| ensures IsSymbol(Symbols[k]) {
      assert |Symbols[k]| <= 2;
    }
  }

  lemma SinglesOfSymbols()
    ensures Singles(Symbols) == SingleSymbols
  {
    var a := [",", ";", "(", ")"];
    var b := [">", "<", ">=", "<=", "!=", "<>", "="];
    var c := ["+", "-", "*", "/"];
    SinglesOfParts();
    assert Singles(a + (b + c)) == Singles(a) + (Singles(b) + Singles(c)) by {
      SinglesConcat(b, c);
      SinglesConcat(a, b + c);
    }
    SymbolsInThreeParts();
    SingleSymbolsInThreeParts();
  }

  lemma SinglesOfParts()
    ensures Singles([",", ";", "(", ")"]) == {',', ';', '(', ')'}
    ensures Singles([">", "<", ">=", "<=", "!=", "<>", "="]) == {'>', '<', '='}
    ensures Singles(["+", "-", "*", "/"]) == {'+', '-', '*', '/'}
  {
    assert Singles([",", ";", "(", ")"]) == {',', ';', '(', ')'} by {}
    assert Singles([">", "<", ">=", "<=", "!=", "<>", "="]) == {'>', '<', '='} by {}
    assert Singles(["+", "-", "*", "/"]) == {'+', '-', '*', '/'} by {}
  }

  lemma SymbolsInThreeParts()
    ensures Symbols == [",", ";", "(", ")"] + ([">", "<", ">=", "<=", "!=", "<>", "="] + ["+", "-", "*", "/"])
  {
  }

  lemma SingleSymbolsInThreeParts()
    ensures SingleSymbols == {',', ';', '(', ')'} + ({'>', '<', '='} + {'+', '-', '*', '/'})
  {
  }

  lemma {:induction false} SinglesConcat(a: seq<string>, b: seq<string>)
    ensures Singles(a + b) == Singles(a) + Singles(b)
    decreases |a|
  {
    if a != [] {
      assert (a + b)[1..] == a[1..] + b;
      SinglesConcat(a[1..], b);
    } else {
      assert a + b == b;
    }
  }

  /** Popping the terminator keeps the shape, since no space precedes a `;`. */
  lemma PopShape(s: string, before: set<char>, after: set<char>)
    requires Shape(s, before, after) && ';' in before
    ensures Shape(PopTerminator(s), before, after)
    ensures |PopTerminator(s)| <= |s|
  {
    if s != [] && s[|s| - 1] == ';' {
      var r := s[..|s| - 1];
      if r != [] {
        assert s[|s| - 2] == r[|r| - 1];
      }
      assert forall i :: 0 <= i < |r| ==> r[i] == s[i];
    }
  }

  /** The whole of stage 4, from collapsed text. */
  function Compact(s: string): string {
    PopTerminator(Tighten(s, Symbols))
  }

  /** After compaction: collapsed whitespace, and no space just before or just after
      any one-character symbol; the text never grows. */
  lemma CompactShape(s: string)
    requires Collapsed(s)
    ensures Shape(Compact(s), SingleSymbols, SingleSymbols)
    ensures Collapsed(Compact(s))
    ensures |Compact(s)| <= |s|
  {
    SymbolsFacts();
    TightenPopShape(s, Symbols, SingleSymbols);
  }

  /** The symbol loop and the pop, over any list whose one-character symbols include `;`. */
  lemma TightenPopShape(s: string, syms: seq<string>, single: set<char>)
    requires Collapsed(s) && AllSymbols(syms) && Singles(syms) == single && ';' in single
    ensures Shape(PopTerminator(Tighten(s, syms)), single, single)
    ensures Collapsed(PopTerminator(Tighten(s, syms)))
    ensures |PopTerminator(Tighten(s, syms))| <= |s|
  {
    TightenCollapsed(s, syms);
    PopCollapsed(Tighten(s, syms), single);
  }

  lemma TightenCollapsed(s: string, syms: seq<string>)
    requires Collapsed(s) && AllSymbols(syms)
    ensures Shape(Tighten(s, syms), Singles(syms), Singles(syms))
    ensures |Tighten(s, syms)| <= |s|
  {
    CollapsedIsPlainShape(s);
    TightenShape(s, syms, {}, {});
    assert {} + Singles(syms) == Singles(syms);
  }

  lemma PopCollapsed(t: string, single: set<char>)
    requires Shape(t, single, single) && ';' in single
    ensures Shape(PopTerminator(t), single, single)
    ensures Collapsed(PopTerminator(t))
    ensures |PopTerminator(t)| <= |t|
  {
    PopShape(t, single, single);
  }

  /** With nothing extra ruled out, the shape is exactly collapsed text. */
  lemma CollapsedIsPlainShape(s: string)
    ensures Collapsed(s) <==> Shape(s, {}, {})
  {
  }

  /** `t` occurs in `s` starting at index `i`. */
  predicate OccursAt(s: string, t: string, i: int) {
    0 <= i && i + |t| <= |s| && s[i..i + |t|] == t
  }

  /** String form of the shape: no symbol of the list is followed by a space, and none
      but `!=` is preceded by one. */
  lemma NoSpaceAroundSymbols(s: string)
    requires Shape(s, SingleSymbols, SingleSymbols)
    ensures forall k, i :: 0 <= k < |Symbols| ==> !OccursAt(s, Symbols[k] + " ", i)
    ensures forall k, i :: 0 <= k < |Symbols| && Symbols[k] != "!=" ==> !OccursAt(s, " " + Symbols[k], i)
  {
    forall k, i | 0 <= k < |Symbols| ensures !OccursAt(s, Symbols[k] + " ", i) {
      NoSpaceAfter(s, Symbols[k], i);
    }
    forall k, i | 0 <= k < |Symbols| && Symbols[k] != "!=" ensures !OccursAt(s, " " + Symbols[k], i) {
      NoSpaceBefore(s, Symbols[k], i);
    }
  }

  lemma NoSpaceAfter(s: string, sym: string, i: int)
    requires NoBad(s, SingleSymbols, SingleSymbols)
    requires sym != [] && sym[|sym| - 1] in SingleSymbols
    ensures !OccursAt(s, sym + " ", i)
  {
    var n := |sym|;
    if 0 <= i && i + n + 1 <= |s| {
      var j := i + n - 1;
      assert !Bad(s[j], s[j + 1], SingleSymbols, SingleSymbols);
      assert s[i..i + n + 1][n - 1] == s[j] && s[i..i + n + 1][n] == s[j + 1];
      assert (sym + " ")[n - 1] == sym[n - 1] && (sym + " ")[n] == ' ';
    }
  }

  lemma NoSpaceBefore(s: string, sym: string, i: int)
    requires NoBad(s, SingleSymbols, SingleSymbols)
    requires sym != [] && sym[0] in SingleSymbols
    ensures !OccursAt(s, " " + sym, i)
  {
    var n := |sym|;
    if 0 <= i && i + n + 1 <= |s| {
      assert !Bad(s[i], s[i + 1], SingleSymbols, SingleSymbols);
      assert s[i..i + n + 1][0] == s[i] && s[i..i + n + 1][1] == s[i + 1];
      assert (" " + sym)[0] == ' ' && (" " + sym)[1] == sym[0];
    }
  }

  /** The exception: `!` is no symbol of its own, so when `! =` becomes `!=` through the
      later `=` step, the space before it stays. */
  lemma SpacedBangEquals()
    ensures Tighten("a ! =b", Symbols) == "a !=b"
  {
    SymbolsInThreeParts();
    var first := [",", ";", "(", ")", ">", "<", ">=", "<="];
    var rest := ["!=", "<>", "="] + ["+", "-", "*", "/"];
    assert Symbols == first + rest;
    TightenConcat("a ! =b", first, rest);
    FirstSymbolsAbsent();
    LaterSymbols();
  }

  lemma FirstSymbolsAbsent()
    ensures Tighten("a ! =b", [",", ";", "(", ")", ">", "<", ">=", "<="]) == "a ! =b"
  {
    TightenAbsent("a ! =b", [",", ";", "(", ")", ">", "<", ">=", "<="]);
  }

  lemma LaterSymbols()
    ensures Tighten("a ! =b", ["!=", "<>", "="] + ["+", "-", "*", "/"]) == "a !=b"
  {
    var last := ["+", "-", "*", "/"];
    assert ["!=", "<>", "="] + last == ["!="] + (["<>"] + (["="] + last));
    assert Tighten("a ! =b", ["="] + last) == "a !=b" by {
      EqualsSteps("a ! =b", "a !=b", last);
    }
    BangAngleSkipped("a ! =b", ["="] + last);
  }

  /** `!=` and `<>` find nothing in `a ! =b`. */
  lemma BangAngleSkipped(s: string, syms: seq<string>)
    requires s == "a ! =b" && forall k :: 0 <= k < |syms| ==> syms[k] != []
    ensures Tighten(s, ["!="] + (["<>"] + syms)) == Tighten(s, syms)
  {
    BangEqualsStep();
    AngleStep();
    TightenSkipTwo(s, "!=", "<>", syms);
  }

  /** Two symbols that change nothing can be skipped. */
  lemma TightenSkipTwo(s: string, a: string, b: string, syms: seq<string>)
    requires a != [] && b != [] && forall k :: 0 <= k < |syms| ==> syms[k] != []
    requires StripAround(s, a) == s && StripAround(s, b) == s
    ensures Tighten(s, [a] + ([b] + syms)) == Tighten(s, syms)
  {
    TightenCons(s, a, [b] + syms);
    TightenCons(s, b, syms);
  }

  /** `=` joins `! =` into `!=`, and the operators after it find nothing. */
  /** The texts are parameters rather than literals so that the verifier does not
      evaluate the symbol loop on them, which is costly. */
  lemma EqualsSteps(s: string, t: string, last: seq<string>)
    requires s == "a ! =b" && t == "a !=b" && last == ["+", "-", "*", "/"]
    ensures Tighten(s, ["="] + last) == t
  {
    EqualsStep(s, t);
    LastOperatorsAbsent(t, last);
    TightenThenFixed(s, t, "=", last);
  }

  lemma LastOperatorsAbsent(t: string, last: seq<string>)
    requires t == "a !=b" && last == ["+", "-", "*", "/"]
    ensures Tighten(t, last) == t
  {
    TightenAbsent(t, last);
  }

  /** One symbol turns `s` into `t`, which the symbols after it leave alone. */
  lemma TightenThenFixed(s: string, t: string, sym: string, syms: seq<string>)
    requires sym != [] && forall k :: 0 <= k < |syms| ==> syms[k] != []
    requires StripAround(s, sym) == t && Tighten(t, syms) == t
    ensures Tighten(s, [sym] + syms) == t
  {
    TightenCons(s, sym, syms);
  }

  lemma TightenCons(s: string, sym: string, syms: seq<string>)
    requires sym != [] && forall k :: 0 <= k < |syms| ==> syms[k] != []
    ensures Tighten(s, [sym] + syms) == Tighten(StripAround(s, sym), syms)
  {
    assert ([sym] + syms)[1..] == syms;
  }

  lemma BangEqualsStep()
    ensures StripAround("a ! =b", "!=") == "a ! =b"
  {
    assert " " + "!=" == " !=" && "!=" + " " == "!= ";
    assert ReplaceAll("a ! =b", " !=", "!=") == "a ! =b";
    assert ReplaceAll("a ! =b", "!= ", "!=") == "a ! =b";
  }

  lemma AngleStep()
    ensures StripAround("a ! =b", "<>") == "a ! =b"
  {
    assert " " + "<>" == " <>" && "<>" + " " == "<> ";
    ReplaceAbsent("a ! =b", " <>", "<>", 1);
    ReplaceAbsent("a ! =b", "<> ", "<>", 0);
  }

  lemma EqualsStep(s: string, t: string)
    requires s == "a ! =b" && t == "a !=b"
    ensures StripAround(s, "=") == t
  {
    assert " " + "=" == " =" && "=" + " " == "= ";
    assert ReplaceAll("a ! =b", " =", "=") == "a !=b";
    assert ReplaceAll("a !=b", "= ", "=") == "a !=b";
  }

  /** A pattern holding a character that `s` lacks is never found in it. */
  lemma {:induction false} ReplaceAbsent(s: string, pat: string, rep: string, j: nat)
    requires j < |pat|
    requires forall i :: 0 <= i < |s| ==> s[i] != pat[j]
    ensures ReplaceAll(s, pat, rep) == s
    decreases |s|
  {
    if s != [] {
      assert !StartsWith(s, pat) by {
        if |pat| <= |s| {
          assert s[j] != pat[j];
        }
      }
      ReplaceAbsent(s[1..], pat, rep, j);
      assert [s[0]] + s[1..] == s;
    }
  }

  /** A symbol whose characters do not occur leaves the text alone. */
  lemma {:induction false} TightenAbsent(s: string, syms: seq<string>)
    requires forall k :: 0 <= k < |syms| ==> syms[k] != []
    requires forall k, i :: 0 <= k < |syms| && 0 <= i < |s| ==> s[i] != syms[k][0]
    ensures Tighten(s, syms) == s
    decreases |syms|
  {
    if syms != [] {
      var sym := syms[0];
      assert forall i :: 0 <= i < |s| ==> s[i] != sym[0];
      ReplaceAbsent(s, " " + sym, sym, 1);
      ReplaceAbsent(s, sym + " ", sym, 0);
      assert forall k :: 0 <= k < |syms| - 1 ==> syms[1..][k] == syms[k + 1];
      TightenAbsent(s, syms[1..]);
    }
  }

  lemma {:induction false} TightenConcat(s: string, a: seq<string>, b: seq<string>)
    requires forall k :: 0 <= k < |a| ==> a[k] != []
    requires forall k :: 0 <= k < |b| ==> b[k] != []
    ensures forall k :: 0 <= k < |a + b| ==> (a + b)[k] != []
    ensures Tighten(s, a + b) == Tighten(Tighten(s, a), b)
    decreases |a|
  {
    if a != [] {
      assert (a + b)[1..] == a[1..] + b;
      TightenConcat(StripAround(s, a[0]), a[1..], b);
    } else {
      assert a + b == b;
    }
  }

  /** Compaction can itself create a line-comment marker: the unary minus in `1 - -1`
      ends up right after the binary one. */
  lemma MinusMinusMerges()
    ensures Compact("1 - -1") == "1--1"
  {
    var first := [",", ";", "(", ")", ">", "<", ">=", "<=", "!=", "<>", "=", "+"];
    var rest := ["-", "*", "/"];
    assert Symbols == first + rest;
    TightenConcat("1 - -1", first, rest);
    MinusFirstAbsent();
    MinusLater();
  }

  lemma MinusFirstAbsent()
    ensures Tighten("1 - -1", [",", ";", "(", ")", ">", "<", ">=", "<=", "!=", "<>", "=", "+"]) == "1 - -1"
  {
    TightenAbsent("1 - -1", [",", ";", "(", ")", ">", "<", ">=", "<=", "!=", "<>", "=", "+"]);
  }

  lemma MinusLater()
    ensures Tighten("1 - -1", ["-", "*", "/"]) == "1--1"
  {
    assert ["-", "*", "/"] == ["-"] + ["*", "/"];
    TightenCons("1 - -1", "-", ["*", "/"]);
    MinusStep();
    TightenAbsent("1--1", ["*", "/"]);
  }

  lemma MinusStep()
    ensures StripAround("1 - -1", "-") == "1--1"
  {
    assert " " + "-" == " -" && "-" + " " == "- ";
    assert ReplaceAll("1 - -1", " -", "-") == "1--1";
    ReplaceAbsent("1--1", "- ", "-", 1);
  }

  /** Exactly one trailing `;` goes: `;;` leaves one behind. */
  lemma OneTerminatorPopped(s: string)
    ensures PopTerminator(s + ";") == s
    ensures PopTerminator(s + ";;") == s + ";"
  {
    assert (s + ";;")[..|s + ";;"| - 1] == s + ";";
    assert (s + ";")[..|s + ";"| - 1] == s;
  }

  /** `Compact("1 - -1")` holds a `--`, which SQL reads as the start of a line comment:
      the compacted query no longer means what the input meant. */
  lemma CompactCreatesDashPair()
    ensures !NoDashPair(Compact("1 - -1"))
  {
    MinusMinusMerges();
    assert DashPairAt("1--1", 1);
  }

  /** The repair: a space between every two adjacent `-`. */
  function SeparateDashes(s: string): string
    decreases |s|
  {
    if |s| < 2 then s
    else if s[0] == '-' && s[1] == '-' then "- " + SeparateDashes(s[1..])
    else [s[0]] + SeparateDashes(s[1..])
  }

  /** The repaired text holds no `--`, keeps the first and last characters, and is the
      text itself when that holds no `--` already. */
  lemma {:induction false} SeparateDashesFacts(s: string)
    ensures NoDashPair(SeparateDashes(s))
    ensures s != [] ==> SeparateDashes(s) != [] && SeparateDashes(s)[0] == s[0]
    ensures s != [] ==> SeparateDashes(s)[|SeparateDashes(s)| - 1] == s[|s| - 1]
    ensures NoDashPair(s) ==> SeparateDashes(s) == s
    decreases |s|
  {
    if |s| >= 2 {
      var t := s[1..];
      var r := SeparateDashes(t);
      SeparateDashesFacts(t);
      if NoDashPair(s) {
        assert NoDashPair(t) by {
          forall i | 0 <= i < |t| ensures !DashPairAt(t, i) {
            assert DashPairAt(t, i) ==> DashPairAt(s, i + 1);
          }
        }
        assert !DashPairAt(s, 0);
        assert s == [s[0]] + t;
      }
      if s[0] == '-' && s[1] == '-' {
        NoDashPairConcat("- ", r);
      } else {
        NoDashPairConcat([s[0]], r);
      }
    }
  }

  /** Compaction as evidently intended: the same text, except that two `-` it brings
      together are kept apart by a space. */
  function CompactCorrected(s: string): (r: string)
    ensures NoDashPair(r)
    ensures NoDashPair(Compact(s)) ==> r == Compact(s)
  {
    SeparateDashesFacts(Compact(s));
    SeparateDashes(Compact(s))
  }

  /** The repaired compaction of `1 - -1` is `1- -1`. */
  lemma MinusMinusKeptApart()
    ensures CompactCorrected("1 - -1") == "1- -1"
  {
    MinusMinusMerges();
    SeparatedExample();
  }

  lemma SeparatedExample()
    ensures SeparateDashes("1--1") == "1- -1"
  {
    assert "1--1"[1..] == "--1" && "--1"[1..] == "-1" && "-1"[1..] == "1";
  }
}
