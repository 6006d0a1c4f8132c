/** Character classes and whole-string helpers shared by every stage of the minifier:
    Rust's `char::is_whitespace`, the word characters behind the regex `\b`,
    `split_whitespace()` followed by `join(" ")`, `str::lines()`, and the search for
    the first line-comment marker `--`. */
module Text {

  /** Rust's `char::is_whitespace`: the Unicode White_Space property, listed in full. */
  predicate IsWhitespace(c: char) {
    var n := c as int;
    (0x09 <= n <= 0x0D) || n == 0x20 || n == 0x85 || n == 0xA0 || n == 0x1680
    || (0x2000 <= n <= 0x200A) || n == 0x2028 || n == 0x2029 || n == 0x202F
    || n == 0x205F || n == 0x3000
  }

  /** A word character for the regex `\b`, restricted to ASCII `[A-Za-z0-9_]`. */
  predicate IsWordChar(c: char) {
    ('a' <= c <= 'z') || ('A' <= c <= 'Z') || ('0' <= c <= '9') || c == '_'
  }

  /** A piece of `split_whitespace()` output: non-empty and free of whitespace. */
  predicate IsToken(w: string) {
    w != [] && forall i :: 0 <= i < |w| ==> !IsWhitespace(w[i])
  }

  /** The shape of the words of a text joined by single spaces: no whitespace but single
      ASCII spaces, none at either end and no two in a row. */
  predicate Collapsed(s: string) {
    (s != [] ==> s[0] != ' ' && s[|s| - 1] != ' ')
    && (forall i :: 0 <= i < |s| && IsWhitespace(s[i]) ==> s[i] == ' ')
    && (forall i :: 0 <= i < |s| - 1 ==> !(s[i] == ' ' && s[i + 1] == ' '))
  }

  /** Length of the leading run of non-whitespace characters. */
  function RunLength(s: string): (n: nat)
    ensures n <= |s|
    ensures forall i :: 0 <= i < n ==> !IsWhitespace(s[i])
    ensures n < |s| ==> IsWhitespace(s[n])
  {
    if s == [] || IsWhitespace(s[0]) then 0 else 1 + RunLength(s[1..])
  }

  /** `split_whitespace()`: the maximal runs of non-whitespace characters, in order. */
  function Words(s: string): (ws: seq<string>)
    ensures forall i :: 0 <= i < |ws| ==> IsToken(ws[i])
    decreases |s|
  {
    if s == [] then []
    else if IsWhitespace(s[0]) then Words(s[1..])
    else
      var n := RunLength(s);
      [s[..n]] + Words(s[n..])
  }

  /** The words, with one space between each two. */
  function Join(ws: seq<string>): string
  {
    if ws == [] then []
    else if |ws| == 1 then ws[0]
    else ws[0] + " " + Join(ws[1..])
  }

  /** The words of the text, joined again with one space between each two. */
  function Collapse(s: string): (r: string)
    ensures Collapsed(r)
    ensures Words(r) == Words(s)
    ensures |r| <= |s|
  {
    JoinCollapsed(Words(s));
    JoinWords(Words(s));
    CollapseLength(s);
    Join(Words(s))
  }

  lemma {:induction false} JoinCollapsed(ws: seq<string>)
    requires forall i :: 0 <= i < |ws| ==> IsToken(ws[i])
    ensures Collapsed(Join(ws))
    ensures ws != [] ==> Join(ws) != [] && Join(ws)[0] == ws[0][0]
    ensures ws != [] ==> ws[0] <= Join(ws)
  {
    if |ws| > 1 {
      JoinCollapsed(ws[1..]);
      var w, t := ws[0], Join(ws[1..]);
      var s := w + " " + t;
      assert s == Join(ws);
      assert s[..|w|] == w;
      forall i | 0 <= i < |s| - 1
        ensures !(s[i] == ' ' && s[i + 1] == ' ')
      {
        if i >= |w| + 1 {
          assert s[i] == t[i - |w| - 1] && s[i + 1] == t[i - |w|];
        }
      }
      forall i | 0 <= i < |s| && IsWhitespace(s[i])
        ensures s[i] == ' '
      {
        if i > |w| {
          assert s[i] == t[i - |w| - 1];
        }
      }
    }
  }

  lemma {:induction false} WordsOfToken(w: string, t: string)
    requires IsToken(w)
    requires t == [] || IsWhitespace(t[0])
    ensures Words(w + t) == [w] + Words(t)
  {
    var s := w + t;
    RunLengthOfToken(w, t);
    assert s[..|w|] == w && s[|w|..] == t;
  }

  /** A token splits into itself alone. */
  lemma WordsOfLoneToken(w: string)
    requires IsToken(w)
    ensures Words(w) == [w]
  {
    WordsOfToken(w, []);
    assert w + [] == w;
  }

  lemma {:induction false} RunLengthOfToken(w: string, t: string)
    requires forall i :: 0 <= i < |w| ==> !IsWhitespace(w[i])
    requires t == [] || IsWhitespace(t[0])
    ensures RunLength(w + t) == |w|
  {
    if w != [] {
      assert (w + t)[1..] == w[1..] + t;
      RunLengthOfToken(w[1..], t);
    } else {
      assert w + t == t;
    }
  }

  /** Joining tokens and splitting again gives the tokens back. */
  lemma {:induction false} JoinWords(ws: seq<string>)
    requires forall i :: 0 <= i < |ws| ==> IsToken(ws[i])
    ensures Words(Join(ws)) == ws
  {
    if |ws| == 1 {
      WordsOfToken(ws[0], []);
      assert ws[0] + [] == ws[0];
    } else if |ws| > 1 {
      var t := Join(ws[1..]);
      JoinWords(ws[1..]);
      WordsOfToken(ws[0], " " + t);
      assert ws[0] + " " + t == ws[0] + (" " + t);
      assert Words(" " + t) == Words(t) by {
        assert (" " + t)[1..] == t;
      }
      assert ws == [ws[0]] + ws[1..];
    }
  }

  lemma {:induction false} CollapseLength(s: string)
    ensures |Join(Words(s))| <= |s|
    decreases |s|
  {
    if s != [] {
      if IsWhitespace(s[0]) {
        CollapseLength(s[1..]);
      } else {
        var n := RunLength(s);
        var rest := s[n..];
        assert Words(s) == [s[..n]] + Words(rest);
        if rest != [] {
          assert Words(rest) == Words(rest[1..]);
          CollapseLength(rest[1..]);
        }
      }
    }
  }

  /** A trailing whitespace character adds no word. */
  lemma {:induction false} WordsSnocWhitespace(s: string, c: char)
    requires IsWhitespace(c)
    ensures Words(s + [c]) == Words(s)
    decreases |s|
  {
    if s == [] {
      assert Words([c]) == Words([]) by { assert [c][1..] == []; }
    } else if IsWhitespace(s[0]) {
      assert (s + [c])[1..] == s[1..] + [c];
      WordsSnocWhitespace(s[1..], c);
    } else {
      var n := RunLength(s);
      RunLengthOfToken(s[..n], s[n..] + [c]);
      assert s + [c] == s[..n] + (s[n..] + [c]);
      assert (s + [c])[..n] == s[..n];
      assert (s + [c])[n..] == s[n..] + [c];
      WordsSnocWhitespace(s[n..], c);
    }
  }

  /** Index of the first `c` in `s`, or `|s|` when there is none. */
  function IndexOf(s: string, c: char): (k: nat)
    ensures k <= |s|
    ensures forall i :: 0 <= i < k ==> s[i] != c
    ensures k < |s| ==> s[k] == c
  {
    if s == [] then 0 else if s[0] == c then 0 else 1 + IndexOf(s[1..], c)
  }

  /** A character missing from a text is missing from each of its slices. */
  lemma AbsentFromSlice(s: string, c: char, i: nat, j: nat)
    requires i <= j <= |s| && c !in s
    ensures c !in s[i..j]
  {
    forall m | 0 <= m < j - i ensures s[i..j][m] != c {
      assert s[i..j][m] == s[i + m];
    }
  }

  /** Drops one `\r` that ends a line terminated by `\n`. */
  function StripCarriageReturn(l: string): string {
    if l != [] && l[|l| - 1] == '\r' then l[..|l| - 1] else l
  }

  /** Rust's `str::lines()`: split at `\n`, drop a `\r` just before each `\n`, and yield
      no empty line after a final `\n`. */
  function Lines(s: string): (ls: seq<string>)
    ensures forall i :: 0 <= i < |ls| ==> '\n' !in ls[i]
    ensures |s| + 1 >= LinesBudget(ls)
    decreases |s|
  {
    if s == [] then []
    else
      var k := IndexOf(s, '\n');
      if k == |s| then [s]
      else [StripCarriageReturn(s[..k])] + Lines(s[k + 1..])
  }

  /** Characters the lines account for, counting one separator per line. */
  function LinesBudget(ls: seq<string>): nat {
    if ls == [] then 0 else |ls[0]| + 1 + LinesBudget(ls[1..])
  }

  /** `s` begins with `pat`; written as a recursion so that it evaluates on literals. */
  predicate StartsWith(s: string, pat: string)
    ensures StartsWith(s, pat) <==> pat <= s
  {
    pat == [] || (s != [] && s[0] == pat[0] && StartsWith(s[1..], pat[1..]))
  }

  /** A `--` starts at index `i` of `s`. */
  predicate DashPairAt(s: string, i: int) {
    0 <= i && i + 1 < |s| && s[i] == '-' && s[i + 1] == '-'
  }

  predicate NoDashPair(s: string) {
    forall i :: 0 <= i < |s| ==> !DashPairAt(s, i)
  }

  /** Index of the first `--` in `s`, or `|s|` when there is none. */
  function FirstDashPair(s: string): (k: nat)
    ensures k <= |s|
    ensures k < |s| ==> DashPairAt(s, k)
    ensures forall i :: 0 <= i < k ==> !DashPairAt(s, i)
  {
    if |s| < 2 then |s|
    else if s[0] == '-' && s[1] == '-' then 0
    else
      var k := FirstDashPair(s[1..]);
      assert forall i :: 1 <= i < 1 + k ==> DashPairAt(s, i) == DashPairAt(s[1..], i - 1);
      1 + k
  }

  /** What a line keeps before its first `--`: no `--` is left in it. */
  lemma CommentFreePrefix(s: string)
    ensures NoDashPair(s[..FirstDashPair(s)])
  {
    var k := FirstDashPair(s);
    forall i | 0 <= i < k ensures !DashPairAt(s[..k], i) {
      assert DashPairAt(s[..k], i) ==> DashPairAt(s, i);
    }
  }

  /** Joining two texts without `--` creates one only across the seam. */
  lemma NoDashPairConcat(a: string, b: string)
    requires NoDashPair(a) && NoDashPair(b)
    requires a == [] || b == [] || a[|a| - 1] != '-' || b[0] != '-'
    ensures NoDashPair(a + b)
  {
    var s := a + b;
    forall i | 0 <= i < |s| ensures !DashPairAt(s, i) {
      if i + 1 < |a| {
        assert DashPairAt(s, i) ==> DashPairAt(a, i);
      } else if i >= |a| {
        assert DashPairAt(s, i) ==> DashPairAt(b, i - |a|);
      }
    }
  }
}
