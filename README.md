# SQL-minifier, modelled in Dafny

This project models the core of the Rust crate SQL-minifier, a tool that shrinks SQL
text. It models two things.

The first is the `minify_sql` function of the `minify_sql` crate. It runs four stages,
in order:

1. it removes nested block comments (slash-star … star-slash);
2. it removes `--` line comments, line by line, following each line with one space;
3. it replaces whole-word long type names (`INTEGER`, `BOOLEAN`, …) with their short
   forms, using one of three tables chosen by cargo features;
4. it collapses whitespace, strips the spaces around a fixed list of symbols and pops
   one trailing `;`.

The second is the older word scanner of the `sql_minifier` crate:

- the `Sqltypes` conversions;
- the per-line `while let` scanner shared by `minifiy_sql_to_string` and `parse_file`;
- the output name that the `minify_sql_files!` macro derives from an input name.

Each character loop of the source is a `method` with a loop. Each such method is proved
equal to a specification function, and the properties are proved about that function.
The modules are:

- `Text` (text.dfy) holds the shared text notions:
  - Rust's `char::is_whitespace`;
  - `split_whitespace` and `join(" ")`;
  - `str::lines()`;
  - the first `--` of a line.
- `SqlTypes` (sqltypes.dfy) is src/types.rs.
- `BlockComments`, `LineComments`, `Abbreviation` and `Compaction` are the four stages.
  `MinifySql` is the pipeline that runs them.
- `LineScanner` is the per-line loop of src/minifier.rs and src/file_parser.rs. The two
  files write it out separately, with different control flow for flushing a run and two
  ways of printing the short form, but it behaves the same in both. `Minifier` and
  `FileParser` are the two functions built around it.

A file is given to the model as its text. `Text.Lines` splits that text as Rust's
`lines()` does.

## Model

| member | source | states |
|---|---|---|
| Text.IsWhitespace | src/minifier.rs:52 | Rust's `char::is_whitespace`: exactly the characters of the Unicode White_Space property |
| Text.IsWordChar | minify_sql/src/lib.rs:52 | the word characters of `\b`, taken as ASCII letters, digits and `_` |
| Text.Words | minify_sql/src/lib.rs:60-62 | `split_whitespace`: the maximal runs of non-whitespace characters, in order, each non-empty and free of whitespace |
| Text.Join | minify_sql/src/lib.rs:63 | `join(" ")`: the words with one space between each two |
| SqlTypes.Display | src/types.rs:17-22 | the text written for each variant: `INT`, `CHAR`, `BOOL`, `DEC` |
| SqlTypes.LongForm | src/types.rs:30-34 | the long form each variant is recognised from |
| Abbreviation.LongFormatTypes | minify_sql/src/lib.rs:83-110 | the three tables, entry for entry and in the order the source lists them |
| Abbreviation.ReplaceFrom | minify_sql/src/lib.rs:52-55 | the left-to-right whole-word replacement of one key, with matches found in the original text only |
| Abbreviation.ReplaceWholeWord | minify_sql/src/lib.rs:52-55 | one entry's replacement over a whole text, starting at a word boundary |
| Abbreviation.AbbreviateAll | minify_sql/src/lib.rs:51-56 | each table entry's replacement applied, in table order, to the result of the ones before |
| Abbreviation.Abbreviate | minify_sql/src/lib.rs:51-56 | the table loop for the chosen dialect |
| BlockComments.Scan | minify_sql/src/lib.rs:127-147 | the scanner's variables after each character of the text in turn |
| BlockComments.StripBlock | minify_sql/src/lib.rs:116-150 | the output `remove_multiline_comments` returns |
| LineComments.CutLine | minify_sql/src/lib.rs:165-175 | what one line keeps: the text before its first `--` |
| LineComments.JoinLines | minify_sql/src/lib.rs:162-179 | each line's kept text followed by one space, in order |
| LineComments.StripLines | minify_sql/src/lib.rs:156-182 | the output `remove_single_line_comments` returns |
| Compaction.ReplaceAll | minify_sql/src/lib.rs:70-71 | `str::replace`: every non-overlapping occurrence, found left to right, replaced |
| Compaction.StripAround | minify_sql/src/lib.rs:70-71 | the two replacements made for one symbol, the space before it first |
| Compaction.Tighten | minify_sql/src/lib.rs:67-72 | the loop over a symbol list, in list order |
| Compaction.Compact | minify_sql/src/lib.rs:65-78 | the symbol loop over the list of the source, then the pop of one `;` |
| MinifySql.Minify | minify_sql/src/lib.rs:35-81 | the four stages, in the order the source runs them |
| LineScanner.Emit | src/minifier.rs:51-76 | what the scanner pushes for the text before a line's first `--`, given the run already collected |
| LineScanner.LineOutput | src/minifier.rs:37-77 | what the scanner pushes for one whole line |
| Minifier.Scanned | src/minifier.rs:31-78 | the lines' pieces, in order, with nothing between them |
| Minifier.MinifiedContent | src/minifier.rs:25-83 | the text `minifiy_sql_to_string` returns: the scanned lines, collapsed |
| Minifier.MinifiedPath | src/minifier.rs:110-115 | the output name: `_minified` inserted just before the last `.` of a name that has one |
| FileParser.Parsed | src/file_parser.rs:17-62 | each line's piece followed by one `\n`, in order |
| Text.Collapse | minify_sql/src/lib.rs:60-63 | the result has only single ASCII spaces as whitespace, none at either end; it has the same words as the input and is no longer than it |
| Text.JoinWords | minify_sql/src/lib.rs:60-63 | joining whitespace-free words with single spaces and splitting again gives back exactly those words |
| Text.JoinCollapsed | minify_sql/src/lib.rs:60-63 | joining whitespace-free words with single spaces gives collapsed text that starts with the first word |
| Text.WordsSnocWhitespace | minify_sql/src/lib.rs:60-63 | a trailing whitespace character adds no word |
| Text.Lines | src/minifier.rs:31 | no line holds a `\n`, and the lines plus one separator each account for at most one character more than the text |
| Text.FirstDashPair | src/minifier.rs:41-49 | the index is that of a `--` with none before it, or the line's length when there is no `--` |
| Text.CommentFreePrefix | minify_sql/src/lib.rs:165-170 | the text before the first `--` holds no `--` |
| Text.NoDashPairConcat | minify_sql/src/lib.rs:162-179 | two texts without `--` joined at a seam that is not `-` then `-` hold no `--` |
| SqlTypes.TryFromStr | src/types.rs:29-37 | succeeds exactly on `INTEGER`, `CHARACTER`, `BOOLEAN` and `DECIMAL`, giving the variant whose long form the word is; every other word gives `Err(InvalidType)` |
| SqlTypes.TryFromString | src/types.rs:43-51 | the same acceptance set, variant and error for the owned-string conversion |
| SqlTypes.Abbreviate | src/minifier.rs:60-63 | a converted word becomes its variant's `Display` text; any other word stays as it is; the result is never longer |
| SqlTypes.ConversionsAgree | src/types.rs:26-52 | the two conversions agree on every input |
| SqlTypes.LongFormRoundTrip | src/types.rs:30-34 | converting a variant's long form gives that variant back, through either conversion |
| SqlTypes.ContractionOfLongForm | src/types.rs:17-22 | each variant's short form is a proper prefix of its long form |
| SqlTypes.ShortFormIsPrefix | src/types.rs:29-37 | for every accepted word, the displayed short form is strictly shorter than the word and a prefix of it |
| SqlTypes.DisplayInjective | src/types.rs:17-22 | distinct variants display as distinct strings |
| SqlTypes.RefusedForms | src/types.rs:35 | lower-case, mixed-case and comma-suffixed forms, and `TEMPORARY`, are refused with `Err(InvalidType)` |
| BlockComments.Step | minify_sql/src/lib.rs:128-146 | the depth only goes below its old value when it was positive, so it never underflows; nothing is emitted while a comment is open; a step that opens or closes a comment emits nothing and forgets the marker character; at most two characters are pushed |
| BlockComments.RemoveMultilineComments | minify_sql/src/lib.rs:116-150 | the loop computes the scan of the whole input; the output is never longer than the input, and input with no `/` comes out unchanged |
| BlockComments.ScanConcat | minify_sql/src/lib.rs:127-147 | scanning a concatenation is scanning its two parts in turn |
| BlockComments.ScanBudget | minify_sql/src/lib.rs:136-145 | the output, counting a withheld `/` as owed, grows by at most one character per input character |
| BlockComments.NeverLonger | minify_sql/src/lib.rs:116-150 | the stripped text is never longer than its input |
| BlockComments.WithoutSlashScan | minify_sql/src/lib.rs:136-145 | outside a comment, text without `/` is copied character for character and the depth stays zero |
| BlockComments.WithoutSlashUnchanged | minify_sql/src/lib.rs:136-145 | input with no `/` passes through unchanged |
| BlockComments.TrailingSlashLost | minify_sql/src/lib.rs:138-143 | a trailing `/` is withheld and never emitted |
| BlockComments.SlashEmittedBeforePlain | minify_sql/src/lib.rs:138-143 | outside a comment, a `/` is emitted just before the next character that is neither `/` nor `*` |
| BlockComments.PlainInsideComment | minify_sql/src/lib.rs:127-147 | inside an open comment, text without `/` or `*` emits nothing and leaves the depth alone |
| BlockComments.BodyInsideComment | minify_sql/src/lib.rs:127-147 | inside an open comment, a body of plain text and balanced nested comments emits nothing and returns to the same depth |
| BlockComments.OpenMarker | minify_sql/src/lib.rs:132-135 | the opener raises the depth by one at any depth, even inside a comment |
| BlockComments.CloseMarker | minify_sql/src/lib.rs:128-131 | the closer lowers a positive depth by one |
| BlockComments.CommentVanishes | minify_sql/src/lib.rs:127-147 | outside a comment, a comment built from text without `*` or `/` and nested comments emits nothing and the depth returns to zero; a case of ClosedVanishes |
| BlockComments.LastForgotten | minify_sql/src/lib.rs:136-145 | at depth zero, when the previous character is not `/`, which character it was makes no difference to the output |
| BlockComments.CommentTransparent | minify_sql/src/lib.rs:127-147 | inserting a comment built from text without `*` or `/` and nested comments, outside any comment and not just after a withheld `/`, leaves the stripped text unchanged; a case of ClosedTransparent |
| BlockComments.ScanIgnoresOutput | minify_sql/src/lib.rs:127-147 | the depth and the previous character after a scan do not depend on the output it started from |
| BlockComments.ClosedVanishes | minify_sql/src/lib.rs:127-147 | outside a comment, an opener followed by any text that brings the depth back to zero only at its last character emits nothing and leaves the scanner outside any comment, whatever `*`, `/` and nested comments the text holds |
| BlockComments.ClosedTransparent | minify_sql/src/lib.rs:127-147 | inserting such a closed comment outside any comment, and not just after a withheld `/`, leaves the stripped text unchanged |
| BlockComments.KeepsOpenConcat | minify_sql/src/lib.rs:127-147 | a text keeps a comment open at every prefix when its two parts do, each from the state where it starts |
| BlockComments.PlainKeepsOpen | minify_sql/src/lib.rs:136-146 | text without `*` or `/` keeps an open comment open at every prefix |
| BlockComments.OpenerKeepsOpen | minify_sql/src/lib.rs:132-135 | inside a comment, both characters of an opener keep it open |
| BlockComments.CloserKeepsOpen | minify_sql/src/lib.rs:128-131 | at depth two or more, both characters of a closer keep a comment open |
| BlockComments.BodyKeepsOpen | minify_sql/src/lib.rs:127-147 | a body of plain text and nested comments keeps the comment around it open at every prefix |
| BlockComments.PiecesClose | minify_sql/src/lib.rs:127-147 | such a body followed by a closer closes the comment, so every such comment is a closed one |
| BlockComments.StarAndSlashInComment | minify_sql/src/lib.rs:127-147 | `a/*2*3 x/y*/b` becomes `ab`: a `*` and a `/` inside a comment go with it |
| BlockComments.ScanExtends | minify_sql/src/lib.rs:127-147 | the scan only appends to its output, and on input without a line break it adds none |
| BlockComments.UnclosedEmitsNothing | minify_sql/src/lib.rs:132-136 | inside an open comment, text with no closer emits nothing and the comment stays open |
| BlockComments.UnterminatedDropsRest | minify_sql/src/lib.rs:132-136 | after an opener followed by text with no closer at all, all remaining input is dropped, and no error is raised |
| BlockComments.OpenEmitsNothing | minify_sql/src/lib.rs:127-147 | as long as no prefix of the text brings the depth back to zero, nothing is emitted, whatever nested comments the text holds |
| BlockComments.UnclosedDropsRest | minify_sql/src/lib.rs:132-146 | after an opener that no later closer balances, all remaining input is dropped, even when it holds balanced nested comments, and no error is raised |
| BlockComments.AfterOpener | minify_sql/src/lib.rs:132-135 | outside a comment, an opener leaves the output as it was and opens one comment |
| BlockComments.UnclosedWithNested | minify_sql/src/lib.rs:127-147 | text, an opener, plain text, a nested comment and plain text again leave only the text before the opener |
| BlockComments.DashesInsideComment | minify_sql/src/lib.rs:40-44 | a `--` inside a block comment goes with the comment |
| BlockComments.NestedCommentExample | minify_sql/src/lib.rs:127-147 | a nested comment balances and vanishes with the comment around it |
| BlockComments.SlashExamples | minify_sql/src/lib.rs:136-145 | `a/b` is unchanged, `a//b` becomes `a/b`, a trailing `/` is lost, an empty comment vanishes, and a stray closer outside a comment is kept |
| LineComments.RemoveSingleLineComments | minify_sql/src/lib.rs:156-182 | the loop emits, for each line, the text before its first `--` followed by exactly one space |
| LineComments.PushLine | minify_sql/src/lib.rs:163-175 | one line's inner loop pushes exactly the text before the line's first `--` |
| LineComments.CutAtDash | minify_sql/src/lib.rs:166-170 | popping the `-` already pushed when the second `-` arrives leaves exactly the text before the first `--` |
| LineComments.JoinLinesSnoc | minify_sql/src/lib.rs:162-179 | one more line appends its kept text and one space |
| LineComments.StrippedShape | minify_sql/src/lib.rs:162-179 | no `--` and no line break remain; the output is empty only when there are no lines, and otherwise ends with a space |
| LineComments.StrippedLength | minify_sql/src/lib.rs:162-179 | each line gives at most its own length plus one space |
| LineComments.StripLinesShape | minify_sql/src/lib.rs:156-182 | no `--` and no line break remain; the output is empty exactly when the input is; it ends with a space; it is at most one character longer than the input |
| Abbreviation.TablesWellFormed | minify_sql/src/lib.rs:83-110 | in all three tables every key is a word of `[A-Za-z0-9_]`, and every short form is a prefix of its key, shorter than every key |
| Abbreviation.ReplaceInWordRun | minify_sql/src/lib.rs:52-55 | within a run of word characters only a run equal to the key, at a word boundary, is replaced; a longer word containing the key is left alone |
| Abbreviation.MatchBeforeNonWord | minify_sql/src/lib.rs:52 | a non-word character ends a match: whether a match starts is decided by the text before it |
| Abbreviation.ReplaceSplits | minify_sql/src/lib.rs:52-55 | a whole-word replacement never crosses a non-word character: each side is processed on its own |
| Abbreviation.ReplaceNotLonger | minify_sql/src/lib.rs:52-55 | replacing a key with a form that is no longer never lengthens the text |
| Abbreviation.Lookup | minify_sql/src/lib.rs:51-56 | a word equal to no key stays as it is; a word equal to a key becomes the short form of the first entry with that key |
| Abbreviation.AbbreviateWordRun | minify_sql/src/lib.rs:51-56 | on a run of word characters, the whole table acts as that lookup |
| Abbreviation.NoKeyUntouched | minify_sql/src/lib.rs:51-56 | a word that is no key passes through the whole table unchanged |
| Abbreviation.AbbreviateEmpty | minify_sql/src/lib.rs:51-56 | the empty text is left empty |
| Abbreviation.AbbreviateSplits | minify_sql/src/lib.rs:51-56 | the whole table acts separately on each side of a non-word character |
| Abbreviation.AbbreviateNotLonger | minify_sql/src/lib.rs:51-56 | abbreviation never lengthens the text |
| Abbreviation.AbbreviateTrailing | minify_sql/src/lib.rs:51-56 | a trailing non-word character passes through unchanged |
| Abbreviation.StandardWords | minify_sql/src/lib.rs:85-91 | the default table shortens `INTEGER` and `TEMPORARY` |
| Abbreviation.SqliteKeepsInteger | minify_sql/src/lib.rs:95-100 | the `sqlite` table keeps `INTEGER` and shortens `BOOLEAN` |
| Abbreviation.GlueSqlKeepsBoolean | minify_sql/src/lib.rs:105-110 | the `gluesql` table keeps `BOOLEAN` and shortens `INTEGER` |
| Abbreviation.LongerWordKept | minify_sql/src/lib.rs:52 | `INTEGERVALUE` is not abbreviated |
| Abbreviation.LowerCaseKept | minify_sql/src/lib.rs:52 | matching is case-sensitive: `integer` is kept |
| Abbreviation.CommaIsBoundary | minify_sql/src/lib.rs:52 | a key followed by a comma is shortened, and the rest is processed on its own |
| Compaction.ReplaceNotLonger | minify_sql/src/lib.rs:70-71 | a replacement that is no longer than its pattern never lengthens the text |
| Compaction.ReplaceAbsent | minify_sql/src/lib.rs:70-71 | a pattern holding a character the text lacks changes nothing |
| Compaction.SpaceBeforeEnds | minify_sql/src/lib.rs:70 | removing the space before a symbol keeps the text empty exactly when it was, keeps its last character, and keeps its first unless that was the removed space |
| Compaction.SpaceBeforeNoBad | minify_sql/src/lib.rs:70 | after removing the space before a symbol, no space precedes its first character, and every pair ruled out before stays ruled out |
| Compaction.SpaceBeforeChars | minify_sql/src/lib.rs:70 | removing spaces brings in no whitespace other than `' '` |
| Compaction.SpaceAfterEnds | minify_sql/src/lib.rs:71 | removing the space after a symbol keeps the text empty exactly when it was, keeps its first character, and keeps its last unless that was a space |
| Compaction.SpaceAfterNoBad | minify_sql/src/lib.rs:71 | after removing the space after a symbol, no space follows its last character, and every pair ruled out before stays ruled out |
| Compaction.SpaceAfterChars | minify_sql/src/lib.rs:71 | removing spaces brings in no whitespace other than `' '` |
| Compaction.StripAroundShape | minify_sql/src/lib.rs:70-71 | both replacements for one symbol keep the text collapsed, add that symbol to the ruled-out sides when it is one character, and never lengthen it |
| Compaction.TightenShape | minify_sql/src/lib.rs:67-72 | the loop over a symbol list keeps every ruled-out pair ruled out, adds the list's one-character symbols, and never lengthens the text |
| Compaction.TightenConcat | minify_sql/src/lib.rs:67-72 | running the loop over two lists in turn is running it over their concatenation |
| Compaction.TightenAbsent | minify_sql/src/lib.rs:67-72 | symbols whose first character does not occur leave the text alone |
| Compaction.SymbolsFacts | minify_sql/src/lib.rs:67-69 | every symbol of the list is non-empty and holds no whitespace, and its one-character symbols are `, ; ( ) > < = + - * /` |
| Compaction.PopTerminator | minify_sql/src/lib.rs:76-78 | a text ending with `;` loses exactly that `;`; any other text is unchanged |
| Compaction.PopShape | minify_sql/src/lib.rs:76-78 | popping the terminator keeps the shape and never lengthens the text |
| Compaction.CompactShape | minify_sql/src/lib.rs:65-78 | from collapsed text, compaction gives collapsed text with no space before or after a one-character symbol, no longer than its input |
| Compaction.TightenCollapsed | minify_sql/src/lib.rs:67-72 | the symbol loop on collapsed text rules out a space on either side of the list's one-character symbols, without lengthening the text |
| Compaction.PopCollapsed | minify_sql/src/lib.rs:76-78 | popping the terminator keeps the text collapsed and the symbol rule intact |
| Compaction.CollapsedIsPlainShape | minify_sql/src/lib.rs:60-63 | with nothing extra ruled out, the shape is exactly collapsed text, in both directions |
| Compaction.NoSpaceAroundSymbols | minify_sql/src/lib.rs:65-72 | after compaction no symbol of the list is followed by a space, and none except `!=` is preceded by one |
| Compaction.NoSpaceAfter | minify_sql/src/lib.rs:71 | a symbol ending in a one-character symbol is never followed by a space |
| Compaction.NoSpaceBefore | minify_sql/src/lib.rs:70 | a symbol starting with a one-character symbol is never preceded by a space |
| Compaction.SpacedBangEquals | minify_sql/src/lib.rs:67-72 | `a ! =b` becomes `a !=b`: the later `=` step builds `!=` and leaves the space before it |
| Compaction.MinusMinusMerges | minify_sql/src/lib.rs:65-78 | `1 - -1` compacts to `1--1`, so compaction can itself produce a `--` |
| Compaction.CompactCreatesDashPair | minify_sql/src/lib.rs:65-78 | the compacted `1 - -1` holds a `--`, where SQL starts a line comment |
| Compaction.SeparateDashesFacts | minify_sql/src/lib.rs:67-72 | the repair leaves no `--`, keeps the first and last characters, and changes nothing in text that holds no `--` |
| Compaction.CompactCorrected | minify_sql/src/lib.rs:65-78 | the corrected compaction never outputs a `--`, and gives the source's output whenever that holds none |
| Compaction.MinusMinusKeptApart | minify_sql/src/lib.rs:67-72 | the corrected compaction of `1 - -1` is `1- -1` |
| MinifySql.MinifyCorrected | minify_sql/src/lib.rs:35-81 | the pipeline with the corrected compaction never outputs a `--`, and gives the source's output whenever that holds none |
| Compaction.OneTerminatorPopped | minify_sql/src/lib.rs:76-78 | one trailing `;` is removed, and a doubled `;;` leaves one behind |
| MinifySql.MinifySql | minify_sql/src/lib.rs:35-81 | the four stages in order; the output is collapsed, has no space beside a one-character symbol, and is never longer than the input |
| MinifySql.MinifyShape | minify_sql/src/lib.rs:35-81 | for every dialect and document, the output is collapsed, has no space beside a one-character symbol, and is never longer than the input |
| MinifySql.ReplaceLongFormatTypes | minify_sql/src/lib.rs:51-56 | the loop applies every table entry's whole-word replacement, in table order |
| MinifySql.RemoveSpacesAroundSymbols | minify_sql/src/lib.rs:67-72 | the loop applies both replacements for every symbol, in list order |
| MinifySql.MinifyNotLonger | minify_sql/src/lib.rs:35-81 | the space the line stage adds is gone again after collapsing, so the output is never longer than the input |
| MinifySql.MinifyClosedTransparent | minify_sql/src/lib.rs:40-44 | inserting a closed block comment, whatever it holds, outside any comment and not just after a withheld `/`, leaves the minified output unchanged |
| MinifySql.MinifyCommentTransparent | minify_sql/src/lib.rs:40-44 | the same for a comment built from text without `*` or `/` and nested comments |
| MinifySql.CommentLineVanishes | minify_sql/src/lib.rs:40-78 | a document that is one line comment minifies to nothing, whatever the comment holds, `/` and `*` included |
| MinifySql.CommentLineStripped | minify_sql/src/lib.rs:40-44 | the two comment stages reduce a one-line comment, whatever it holds, to the single space that follows its line |
| MinifySql.CompactEmpty | minify_sql/src/lib.rs:65-78 | compaction of the empty text is empty |
| LineScanner.ScanLine | src/minifier.rs:37-77 | one line's `while let` loop pushes exactly the line's piece: its whitespace, and the lookup of every run ended by whitespace or by the end of the line, all taken before the first `--` |
| LineScanner.EmitSplit | src/minifier.rs:52-65 | a whitespace character ends the run before it, is copied as it is, and the text after it is scanned afresh |
| LineScanner.EmitRun | src/minifier.rs:54-73 | a run is collected whole and emitted once, as the lookup of the run, and only when the line ends there |
| LineScanner.EmitIdentity | src/file_parser.rs:37-59 | text none of whose words is a long form is emitted exactly as it went in |
| LineScanner.EmitLength | src/minifier.rs:51-76 | the scanner never lengthens the text |
| LineScanner.EmitNoNewline | src/file_parser.rs:37-59 | the scanner brings in no line break of its own |
| LineScanner.LineOutputShape | src/minifier.rs:37-77 | a line's piece is never longer than the line, and holds no `\n` when the line holds none |
| LineScanner.CommentFreeLine | src/minifier.rs:37-49 | a line without `--` is scanned to its end |
| LineScanner.LineUnchanged | src/file_parser.rs:37-59 | a line without `--` and without a long-form word comes out exactly as it went in |
| LineScanner.CommentTailIgnored | src/minifier.rs:38-49 | everything from the first `--` on makes no difference, and the text before it is scanned as not ending the line |
| LineScanner.UnfinishedRunDropped | src/minifier.rs:41-66 | a run still being collected where a `--` starts is never pushed |
| LineScanner.SingleWordLine | src/minifier.rs:54-73 | a line that is one word comes out as that word's lookup |
| LineScanner.TemporaryKept | src/minifier.rs:60-63 | `TEMPORARY` is never abbreviated |
| LineScanner.EmitWords | src/minifier.rs:51-76 | the words of the scanner output are the lookups of the input's words, in order |
| LineScanner.LineWords | src/minifier.rs:37-77 | a line without `--` is abbreviated word by word |
| Minifier.MinifiySqlToString | src/minifier.rs:25-83 | the loop over the lines pushes every line's piece, in order, and the result is then collapsed |
| Minifier.ScannedConcat | src/minifier.rs:31-78 | the pieces of the lines are joined with nothing added between them |
| Minifier.ScannedLength | src/minifier.rs:31-78 | the pieces never outgrow the lines they come from |
| Minifier.MinifiedShape | src/minifier.rs:81 | the result is collapsed, holds the words of the scanned text, and is no longer than the file |
| Minifier.ScannedPair | src/minifier.rs:31-78 | two lines give the first line's piece followed directly by the second's |
| Minifier.LinesJoinWithoutSeparator | src/minifier.rs:31-78 | a line `x INTEGER` followed by a line `);` gives `x INT);` |
| Minifier.IntegerAtLineEnd | src/minifier.rs:67-73 | a run that ends the line is looked up: `x INTEGER` gives `x INT` |
| Minifier.TwoWordLine | src/minifier.rs:52-73 | a comment-free line of two words separated by whitespace is scanned word by word, keeping the whitespace |
| Minifier.LastDot | src/minifier.rs:112 | the index of a `.` with no `.` after it, for a name that has one |
| Minifier.MinifiedPathShape | src/minifier.rs:110-115 | the name is the input with `_minified` inserted just before its last `.`: nine characters longer, same prefix and extension, that `.` still the last one, and removing the insertion gives the input back |
| Minifier.MinifiedPathExamples | src/minifier.rs:102-104 | `file.sql` gives `file_minified.sql`, and `a.b.sql` gives `a.b_minified.sql` |
| FileParser.ParseFile | src/file_parser.rs:11-65 | the loop over the lines pushes every line's piece followed by one `\n` |
| FileParser.ParsedConcat | src/file_parser.rs:17-62 | the output for two groups of lines is the output for each, one after the other |
| FileParser.NewlinePerLine | src/file_parser.rs:17-61 | the output holds exactly one `\n` per line, and ends with one when there is any line |
| FileParser.ParsedLength | src/file_parser.rs:17-62 | each line gives at most its own length and one `\n` |
| FileParser.ParseFileShape | src/file_parser.rs:17-62 | the output holds one `\n` per line of the file and is at most one character longer than the file |
| FileParser.ParsedKept | src/file_parser.rs:37-61 | lines with no `--` and no long-form word are reproduced, each followed by `\n` |
| FileParser.TerminatedLines | src/file_parser.rs:17 | splitting a text with no `\r` that ends with `\n` into lines, and ending each line with `\n`, gives back the text |
| FileParser.ParseFileUnchanged | src/file_parser.rs:17-62 | a file with no `\r` that ends with a line break, and whose every line has no `--` and no long-form word, is reproduced exactly |

## Findings

| source | as written | input that shows it | evidently intended | confidence | as-written member | corrected member |
|---|---|---|---|---|---|---|
| minify_sql/src/lib.rs:67-72 | the spaces on both sides of `-` are removed, so a binary minus and a following unary minus become `--`, which SQL reads as the start of a line comment | `SELECT 1 - -1` compacts to `SELECT 1--1` | keep two `-` apart, so that the output never holds a `--` and means what the input meant | not executed | Compaction.CompactCreatesDashPair | Compaction.CompactCorrected |

The corrected compaction is the source's compaction followed by a space between every two
adjacent `-`. `MinifySql.MinifyCorrected` is the pipeline with that correction. The
`MinifySql.MinifySql` method models the code as written.

## Left out

- File I/O (`File::open`, `BufReader`, `std::fs::write`) and `io::Error` are not modelled. A file is its text, split by `Text.Lines` as Rust's `str::lines()` splits it. That split drops `\n`, drops a `\r` just before a `\n`, and yields no empty line after a final `\n`. It keeps a `\r` that ends a last line with no `\n` after it, as Rust does.
- `minifiy_sql_to_file` only writes the result to a file, so the model stops at the text it would write. The `minify_sql_files!` macro is likewise modelled only by its output-name rule, `Minifier.MinifiedPath`.
- The proc-macro crates are not part of this model. They are compile-time plumbing that reads a file and calls `minify_sql`. The same goes for the re-exports in `src/lib.rs`.
- Text.IsWordChar: the `regex` crate is not modelled. The `\b…\b` replacement is written out directly: a word boundary is taken to be a change between ASCII `[A-Za-z0-9_]` and any other character, where the regex would use Unicode word characters.
- `char::is_whitespace`, which `split_whitespace` and both scanners use, is modelled as the full Unicode White_Space list.
- The cargo features that pick a table are a `Dialect` parameter (`Standard`, `Sqlite`, `GlueSql`), not build configuration.
- BlockComments.Step: the `u32` comment counter is a `nat`. Wrap-around after 2^32 unclosed openers is not modelled.
- Minifier.MinifiedPath: the panic of `rfind('.').unwrap()` on a name without `.` is its precondition. Rust finds the byte offset of the last `.` and inserts at that offset, and the model does the same at the character index of the same `.`, so both build the same name for every input, ASCII or not.
- LineScanner.ScanLine and LineComments.PushLine are the bodies of the source's outer loops, taken out as methods so that each loop gets its own invariant.
- The unit tests at the end of src/file_parser.rs expect comment lines to survive, which the code at src/file_parser.rs:24-34 does not do. The model follows the code and does not encode those tests. The fixture-based tests of src/minifier.rs and of the `minify_sql` crate read files that are not part of this model, so they are not stated as exact strings.
- Idempotence is not stated because it does not hold: `a;;` minifies to `a;`, which minifies to `a`.
- MinifySql.MinifyShape: the exact output for the example in the documentation comment of `minify_sql` is not proved. Over a text that long, literal evaluation of the four stages exceeds the proof budget. Its parts are covered by other lemmas: comment lines vanish (MinifySql.CommentLineVanishes), `INTEGER` is shortened (Abbreviation.StandardWords), no space sits beside `(` and `,` (Compaction.NoSpaceAroundSymbols), and the `;` is popped (Compaction.OneTerminatorPopped).
- Compaction.NoSpaceAroundSymbols: the space rule is stated for every one-character symbol and, through them, for every listed symbol except `!=` before it. That exception is real behaviour of the code, not a missing proof. The symbol `!` is not in the list, so `a ! =b` becomes `a !=b` once the `=` step joins `! =` (Compaction.SpacedBangEquals).
- LineScanner.UnfinishedRunDropped: the loss of a run that runs straight into `--` is stated in two steps. This lemma covers that step, and LineScanner.CommentTailIgnored says the text from `--` on does not count.
- The block-comment stage runs before the line stage, and that order matters. A `--` inside a block comment goes with it (BlockComments.DashesInsideComment). Compaction, however, can create a new `--` (Compaction.MinusMinusMerges), so the final output is not free of `--`; see "## Findings".
- Inserting a line comment can change the output. Only block comments are proved transparent (MinifySql.MinifyClosedTransparent). Cutting a line at `--` keeps the text before it, so a comment can end a word run in the line scanner (LineScanner.UnfinishedRunDropped).
- The three tables are modelled exactly as the code declares them, with no separate entry for a keyword followed by a comma: a comma already ends a whole word (Abbreviation.CommaIsBoundary).
