/** Stage 3 of `minify_sql`: for each `(long, short)` pair of `LONG_FORMAT_TYPES`, in
    table order, every whole-word occurrence of `long` (the regex `\b long \b`) is
    replaced by `short`. The three tables the crate's features select between are
    one `Dialect` parameter here. */
module Abbreviation {
  import opened Text

  /** The default table, the `sqlite` feature's table and the `gluesql` feature's table. */
  datatype Dialect = Standard | Sqlite | GlueSql

  function LongFormatTypes(d: Dialect): seq<(string, string)> {
    match d
    case Standard =>
      [("INTEGER", "INT"), ("BOOLEAN", "BOOL"), ("CHARACTER", "CHAR"), ("DECIMAL", "DEC"),
       ("TEMPORARY", "TEMP")]
    case Sqlite =>
      [("BOOLEAN", "BOOL"), ("CHARACTER", "CHAR"), ("DECIMAL", "DEC"), ("TEMPORARY", "TEMP")]
    case GlueSql =>
      [("INTEGER", "INT"), ("CHARACTER", "CHAR"), ("DECIMAL", "DEC"), ("TEMPORARY", "TEMP")]
  }

  /** A non-empty keyword made only of word characters, so that `\b` on both sides means
      "not preceded and not followed by a word character". */
  predicate IsKeyword(w: string) {
    w != [] && forall i :: 0 <= i < |w| ==> IsWordChar(w[i])
  }

  /** A table whose keys are keywords and whose short forms are shorter prefixes of
      their keys; every short form is shorter than every key, so no short form is
      itself a key. */
  predicate WellFormedTable(t: seq<(string, string)>) {
    forall i :: 0 <= i < |t| ==>
      IsKeyword(t[i].0) && (forall j :: 0 <= j < |t| ==> |t[i].1| < |t[j].0|)
      && t[i].1 == t[i].0[..|t[i].1|]
  }

  lemma TablesWellFormed(d: Dialect)
    ensures WellFormedTable(LongFormatTypes(d))
  {
    var t := LongFormatTypes(d);
    forall i | 0 <= i < |t| ensures IsKeyword(t[i].0) {
      var w := t[i].0;
      assert forall k :: 0 <= k < |w| ==> 'A' <= w[k] <= 'Z';
    }
  }

  /** `replace_all` of the regex `\b long \b` by `short`, scanning left to right;
      `afterWord` says whether the character before `s` in the whole text is a word
      character. Matches are found in the original text, never in replaced text. */
  function ReplaceFrom(s: string, long: string, short: string, afterWord: bool): string
    requires IsKeyword(long)
    decreases |s|
  {
    if s == [] then []
    else if MatchesAtStart(s, long, afterWord) then
      short + ReplaceFrom(s[|long|..], long, short, true)
    else [s[0]] + ReplaceFrom(s[1..], long, short, IsWordChar(s[0]))
  }

  function ReplaceWholeWord(s: string, long: string, short: string): string
    requires IsKeyword(long)
  {
    ReplaceFrom(s, long, short, false)
  }

  /** On a run of word characters, only the run equal to `long`, starting at a word
      boundary, is replaced; a longer word that merely contains `long` is left alone. */
  lemma {:induction false} ReplaceInWordRun(w: string, long: string, short: string, afterWord: bool)
    requires IsKeyword(long)
    requires forall i :: 0 <= i < |w| ==> IsWordChar(w[i])
    ensures ReplaceFrom(w, long, short, afterWord) == if !afterWord && w == long then short else w
    decreases |w|
  {
    if w != [] {
      if MatchesAtStart(w, long, afterWord) {
        assert w == long;
        assert w[|long|..] == [];
      } else {
        ReplaceInWordRun(w[1..], long, short, true);
        assert w == [w[0]] + w[1..];
      }
    }
  }

  /** Whether a whole-word match of `long` starts at the head of `s`. */
  predicate MatchesAtStart(s: string, long: string, afterWord: bool) {
    !afterWord && long <= s && (|s| == |long| || !IsWordChar(s[|long|]))
  }

  /** The non-word character `c` after `p` cannot be part of a match at the head of
      `p`, and it is a boundary when a match ends just before it. */
  lemma MatchBeforeNonWord(p: string, c: char, q: string, long: string, afterWord: bool)
    requires IsKeyword(long) && !IsWordChar(c)
    ensures MatchesAtStart(p + [c] + q, long, afterWord) == MatchesAtStart(p, long, afterWord)
    ensures p == [] ==> !MatchesAtStart(p + [c] + q, long, afterWord)
  {
    var s := p + [c] + q;
    if long <= s {
      forall k | 0 <= k < |long| ensures s[k] != c {
        assert s[k] == long[k];
      }
      assert s[|p|] == c;
      assert |long| <= |p|;
      assert long == s[..|long|] == p[..|long|];
      if |long| == |p| { assert s[|long|] == c; } else { assert s[|long|] == p[|long|]; }
    }
    if long <= p {
      assert s[..|long|] == p[..|long|];
    }
  }

  /** Replacement never crosses a non-word character: the text on each side of it is
      processed on its own. */
  lemma {:induction false} ReplaceSplits(p: string, c: char, q: string, long: string, short: string, afterWord: bool)
    requires IsKeyword(long)
    requires !IsWordChar(c)
    ensures ReplaceFrom(p + [c] + q, long, short, afterWord)
         == ReplaceFrom(p, long, short, afterWord) + [c] + ReplaceFrom(q, long, short, false)
    decreases |p|
  {
    var s := p + [c] + q;
    MatchBeforeNonWord(p, c, q, long, afterWord);
    if p == [] {
      assert s[1..] == q;
    } else if MatchesAtStart(p, long, afterWord) {
      assert s[|long|..] == p[|long|..] + [c] + q;
      ReplaceSplits(p[|long|..], c, q, long, short, true);
    } else {
      assert s[1..] == p[1..] + [c] + q;
      ReplaceSplits(p[1..], c, q, long, short, IsWordChar(p[0]));
    }
  }

  lemma {:induction false} ReplaceNotLonger(s: string, long: string, short: string, afterWord: bool)
    requires IsKeyword(long) && |short| <= |long|
    ensures |ReplaceFrom(s, long, short, afterWord)| <= |s|
    decreases |s|
  {
    if s != [] {
      if MatchesAtStart(s, long, afterWord) {
        ReplaceNotLonger(s[|long|..], long, short, true);
      } else {
        ReplaceNotLonger(s[1..], long, short, IsWordChar(s[0]));
      }
    }
  }

  /** The text after the loop over the table: each entry applied, in order, to the result
      of the previous ones. */
  function AbbreviateAll(s: string, t: seq<(string, string)>): string
    requires WellFormedTable(t)
    decreases |t|
  {
    if t == [] then s
    else AbbreviateAll(ReplaceWholeWord(s, t[0].0, t[0].1), t[1..])
  }

  function Abbreviate(d: Dialect, s: string): string {
    TablesWellFormed(d);
    AbbreviateAll(s, LongFormatTypes(d))
  }

  /** What the table does to one word: the short form of the first entry whose key it
      is, or the word itself when it is no key. */
  function Lookup(w: string, t: seq<(string, string)>): (r: string)
    requires WellFormedTable(t)
    ensures (forall i :: 0 <= i < |t| ==> t[i].0 != w) ==> r == w
    ensures forall i :: 0 <= i < |t| && t[i].0 == w && (forall j :: 0 <= j < i ==> t[j].0 != w)
              ==> r == t[i].1
  {
    if t == [] then w
    else if t[0].0 == w then t[0].1
    else
      var r := Lookup(w, t[1..]);
      assert forall i :: 1 <= i < |t| ==> t[i] == t[1..][i - 1];
      r
  }

  /** On a run of word characters the whole table acts as a lookup. */
  lemma {:induction false} AbbreviateWordRun(w: string, t: seq<(string, string)>)
    requires WellFormedTable(t)
    requires forall i :: 0 <= i < |w| ==> IsWordChar(w[i])
    ensures AbbreviateAll(w, t) == Lookup(w, t)
    decreases |t|, 0
  {
    if t != [] {
      ReplaceInWordRun(w, t[0].0, t[0].1, false);
      assert WellFormedTable(t[1..]);
      if w == t[0].0 {
        var short := t[0].1;
        assert forall i :: 0 <= i < |short| ==> short[i] == t[0].0[i];
        assert forall j :: 1 <= j < |t| ==> short != t[j].0 by {
          assert forall j :: 0 <= j < |t| ==> |short| < |t[j].0|;
        }
        NoKeyUntouched(short, t[1..]);
      } else {
        AbbreviateWordRun(w, t[1..]);
      }
    }
  }

  lemma {:induction false} NoKeyUntouched(w: string, t: seq<(string, string)>)
    requires WellFormedTable(t)
    requires forall i :: 0 <= i < |w| ==> IsWordChar(w[i])
    requires forall i :: 0 <= i < |t| ==> t[i].0 != w
    ensures AbbreviateAll(w, t) == w
    decreases |t|, 1
  {
    AbbreviateWordRun(w, t);
  }

  lemma {:induction false} AbbreviateEmpty(t: seq<(string, string)>)
    requires WellFormedTable(t)
    ensures AbbreviateAll([], t) == []
    decreases |t|
  {
    if t != [] {
      AbbreviateEmpty(t[1..]);
    }
  }

  /** The whole table never crosses a non-word character either. */
  lemma {:induction false} AbbreviateSplits(p: string, c: char, q: string, t: seq<(string, string)>)
    requires WellFormedTable(t)
    requires !IsWordChar(c)
    ensures AbbreviateAll(p + [c] + q, t) == AbbreviateAll(p, t) + [c] + AbbreviateAll(q, t)
    decreases |t|
  {
    if t != [] {
      ReplaceSplits(p, c, q, t[0].0, t[0].1, false);
      AbbreviateSplits(ReplaceWholeWord(p, t[0].0, t[0].1), c, ReplaceWholeWord(q, t[0].0, t[0].1), t[1..]);
    }
  }

  lemma {:induction false} AbbreviateNotLonger(s: string, t: seq<(string, string)>)
    requires WellFormedTable(t)
    ensures |AbbreviateAll(s, t)| <= |s|
    decreases |t|
  {
    if t != [] {
      ReplaceNotLonger(s, t[0].0, t[0].1, false);
      AbbreviateNotLonger(ReplaceWholeWord(s, t[0].0, t[0].1), t[1..]);
    }
  }

  /** A trailing non-word character passes through unchanged. */
  lemma AbbreviateTrailing(s: string, c: char, t: seq<(string, string)>)
    requires WellFormedTable(t)
    requires !IsWordChar(c)
    ensures AbbreviateAll(s + [c], t) == AbbreviateAll(s, t) + [c]
  {
    AbbreviateSplits(s, c, [], t);
    AbbreviateEmpty(t);
    assert s + [c] + [] == s + [c];
  }

  /** Which words each dialect abbreviates. */
  lemma StandardWords()
    ensures Abbreviate(Standard, "INTEGER") == "INT"
    ensures Abbreviate(Standard, "TEMPORARY") == "TEMP"
  {
    TablesWellFormed(Standard);
    AbbreviateWordRun("INTEGER", LongFormatTypes(Standard));
    AbbreviateWordRun("TEMPORARY", LongFormatTypes(Standard));
  }

  /** The `sqlite` table keeps `INTEGER`. */
  lemma SqliteKeepsInteger()
    ensures Abbreviate(Sqlite, "INTEGER") == "INTEGER"
    ensures Abbreviate(Sqlite, "BOOLEAN") == "BOOL"
  {
    TablesWellFormed(Sqlite);
    AbbreviateWordRun("INTEGER", LongFormatTypes(Sqlite));
    AbbreviateWordRun("BOOLEAN", LongFormatTypes(Sqlite));
  }

  /** The `gluesql` table keeps `BOOLEAN`. */
  lemma GlueSqlKeepsBoolean()
    ensures Abbreviate(GlueSql, "BOOLEAN") == "BOOLEAN"
    ensures Abbreviate(GlueSql, "INTEGER") == "INT"
  {
    TablesWellFormed(GlueSql);
    AbbreviateWordRun("BOOLEAN", LongFormatTypes(GlueSql));
    AbbreviateWordRun("INTEGER", LongFormatTypes(GlueSql));
  }

  /** Matching is case-sensitive and on whole words only. */
  lemma LongerWordKept()
    ensures Abbreviate(Standard, "INTEGERVALUE") == "INTEGERVALUE"
  {
    TablesWellFormed(Standard);
    var t := LongFormatTypes(Standard);
    assert forall i :: 0 <= i < |t| ==> |t[i].0| <= 9;
    assert forall k :: 0 <= k < 12 ==> 'A' <= "INTEGERVALUE"[k] <= 'Z';
    NoKeyUntouched("INTEGERVALUE", t);
  }

  lemma LowerCaseKept()
    ensures Abbreviate(Standard, "integer") == "integer"
  {
    TablesWellFormed(Standard);
    var t := LongFormatTypes(Standard);
    assert forall i :: 0 <= i < |t| ==> 'A' <= t[i].0[0] <= 'Z';
    assert "integer"[0] == 'i';
    assert forall k :: 0 <= k < 7 ==> 'a' <= "integer"[k] <= 'z';
    NoKeyUntouched("integer", t);
  }

  /** A keyword followed by a comma is still a whole word. */
  lemma CommaIsBoundary(q: string)
    ensures Abbreviate(Standard, "INTEGER" + [','] + q) == "INT" + [','] + Abbreviate(Standard, q)
  {
    TablesWellFormed(Standard);
    AbbreviateSplits("INTEGER", ',', q, LongFormatTypes(Standard));
    StandardWords();
  }
}
