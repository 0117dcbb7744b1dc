/**
 * Two places where `tokenize` as written (src/parser.cpp) does not do what it evidently
 * intends, each modelled as written next to the corrected behaviour that module LexSpec
 * and class Lexing.Lexer use.
 */
module Findings {
  import opened Chars
  import opened Tokens
  import opened LexSpec
  import opened LexProps

  // ---------------------------------------------------------------- a lone `/`

  /**
   * One pass of `tokenize`'s loop as written, restricted to its `/` branch: skip
   * whitespace, then at a `/` try `eat_string("//")`; a comment is skipped, and a
   * failed attempt restores the cursor and falls through to the next pass.
   */
  function SlashPassAsWritten(text: string, c: Cursor): Cursor
    requires c.pos <= |text|
  {
    var s := Skip(text, c, IsSpace, false);
    if Matches(text, s.pos, "//") then CommentSkip(text, s) else s
  }

  /**
   * `n` passes of the loop as written while the current character is `/`. Once the
   * whitespace is skipped, a `/` that does not start a comment is a fixed point: every
   * further pass ends on it again.
   */
  function SlashPassesAsWritten(text: string, c: Cursor, n: nat): (r: Cursor)
    requires c.pos <= |text|
    ensures r.pos <= |text|
    ensures var s := Skip(text, c, IsSpace, false);
      0 < n && At(text, s.pos) == '/' && !Matches(text, s.pos, "//") ==> r == s
    decreases n
  {
    if n == 0 || At(text, Skip(text, c, IsSpace, false).pos) != '/' then c
    else
      SkipSpacesIdempotent(text, c);
      SlashPassesAsWritten(text, SlashPassAsWritten(text, c), n - 1)
  }

  /**
   * As written, a `/` that does not start a comment is never consumed: after any
   * number of passes the cursor is where it was and the character under it is still
   * `/`, so the loop condition never becomes false and `tokenize` does not return.
   */
  lemma {:induction false} LoneSlashLoopsForever(text: string, c: Cursor, n: nat)
    requires c.pos <= |text| && Skip(text, c, IsSpace, false) == c
    requires At(text, c.pos) == '/' && !Matches(text, c.pos, "//")
    ensures SlashPassesAsWritten(text, c, n) == c
    ensures At(text, SlashPassesAsWritten(text, c, n).pos) == '/'
    decreases n
  {
    if n > 0 {
      assert SlashPassAsWritten(text, c) == c;
      LoneSlashLoopsForever(text, c, n - 1);
    }
  }

  /** A concrete input: the text `/` alone. */
  lemma LoneSlashExample(n: nat)
    ensures SlashPassesAsWritten("/", Cursor(0, 1, 1, 0), n) == Cursor(0, 1, 1, 0)
  {
    var text, c := "/", Cursor(0, 1, 1, 0);
    ScanEndUnique(text, 0, 0, IsSpace, false);
    assert text[0..0] == [];
    assert !Matches(text, 0, "//");
    LoneSlashLoopsForever(text, c, n);
  }

  /**
   * The corrected pass: a `/` that does not start a comment ends the pass with
   * failure, no tokens and the cursor on the `/`.
   */
  lemma LoneSlashRejected(text: string, c: Cursor)
    requires c.pos <= |text| && At(text, c.pos) == '/' && !Matches(text, c.pos, "//")
    ensures LexAt(text, c) == LexOut(false, [], c)
    ensures Skip(text, c, IsSpace, false) == c ==> LexFrom(text, c) == LexOut(false, [], c)
  {
    ScanEndUnique(text, c.pos, c.pos, IsSpace, false);
    assert text[c.pos..c.pos] == [];
  }

  // ---------------------------------------------------------------- a trailing backslash

  /**
   * Where the cursor of `eat_quoted_string`'s loop as written ends up, starting at `j`
   * inside the string: it stops after a closing quote, at a NUL or newline (failure),
   * at the end of the text (failure), and otherwise moves one character, or two after
   * a backslash without checking that a second character exists.
   */
  function QuotedReachAsWritten(text: string, j: nat): nat
    requires j <= |text|
    decreases |text| - j
  {
    if j == |text| then j
    else if text[j] == '"' then j + 1
    else if text[j] == '\\' then (if j + 2 <= |text| then QuotedReachAsWritten(text, j + 2) else j + 2)
    else if text[j] == '\0' || IsNewline(text[j]) then j
    else QuotedReachAsWritten(text, j + 1)
  }

  /** Characters that neither end nor escape anything inside a string. */
  predicate Plain(s: string) {
    forall k :: 0 <= k < |s| ==> s[k] != '"' && s[k] != '\\' && s[k] != '\0' && !IsNewline(s[k])
  }

  /**
   * As written, a string whose last character is a backslash moves the cursor one
   * place past the end of the text, where `get_char` no longer returns NUL but reads
   * beyond the buffer.
   */
  lemma {:induction false} TrailingBackslashOverruns(s: string, k: nat)
    requires Plain(s) && k <= |s|
    ensures var text := ['"'] + s + ['\\'];
      QuotedReachAsWritten(text, 1 + k) == |text| + 1
    decreases |s| - k
  {
    var text := ['"'] + s + ['\\'];
    if k < |s| {
      assert text[1 + k] == s[k];
      TrailingBackslashOverruns(s, k + 1);
    } else {
      assert text[1 + k] == '\\';
    }
  }

  /** The corrected scan rejects the same strings: they are unterminated. */
  lemma {:induction false} TrailingBackslashRejected(s: string, k: nat)
    requires Plain(s) && k <= |s|
    ensures var text := ['"'] + s + ['\\'];
      QuotedBodyEnd(text, 1 + k).None? && (k == 0 ==> QuotedEnd(text, 0).None?)
    decreases |s| - k
  {
    var text := ['"'] + s + ['\\'];
    if k < |s| {
      assert text[1 + k] == s[k];
      TrailingBackslashRejected(s, k + 1);
    } else {
      assert text[1 + k] == '\\';
    }
  }
}
