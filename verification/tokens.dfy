/**
 * Tokens of the SON lexer and the lexer's cursor (src/parser.cpp:11-39, 77-102, 165-208).
 * A span is a (start index, length) pair into the text instead of a pointer and a size.
 */
module Tokens {
  import opened Chars
  import opened Options

  datatype Kind =
    | Undefined
    | EqualSign | Semicolon | Comma
    | BraceOpen | BraceClose
    | ParenOpen | ParenClose
    | BracketOpen | BracketClose
    | KwNull | KwTrue | KwFalse
    | Identifier | Integer | Floating | String
    | DoubleSlash
    | EOF

  /**
   * The numeric value of each kind in the source's enumeration: a punctuation kind
   * is its own character code, the keywords and the other kinds count up from 256.
   */
  function Code(k: Kind): nat {
    match k
    case Undefined => 0
    case EqualSign => '=' as nat
    case Semicolon => ';' as nat
    case Comma => ',' as nat
    case BraceOpen => '{' as nat
    case BraceClose => '}' as nat
    case ParenOpen => '(' as nat
    case ParenClose => ')' as nat
    case BracketOpen => '[' as nat
    case BracketClose => ']' as nat
    case KwNull => 256
    case KwTrue => 257
    case KwFalse => 258
    case Identifier => 259
    case Integer => 260
    case Floating => 261
    case String => 262
    case DoubleSlash => 263
    case EOF => 264
  }

  /** No two kinds share a code, so the enumeration is a faithful encoding. */
  lemma CodeInjective(a: Kind, b: Kind)
    ensures Code(a) == Code(b) ==> a == b
  {
  }

  predicate IsPunctuation(c: char) {
    c == '{' || c == '}' || c == '(' || c == ')' || c == '[' || c == ']' ||
    c == '=' || c == ';' || c == ','
  }

  predicate IsPunctuationKind(k: Kind) {
    k.EqualSign? || k.Semicolon? || k.Comma? || k.BraceOpen? || k.BraceClose? ||
    k.ParenOpen? || k.ParenClose? || k.BracketOpen? || k.BracketClose?
  }

  /** The cast `kind_t(c)`: the punctuation kind whose code is the character itself. */
  function PunctuationKind(c: char): (k: Kind)
    requires IsPunctuation(c)
    ensures IsPunctuationKind(k) && Code(k) == c as int
  {
    match c
    case '{' => BraceOpen
    case '}' => BraceClose
    case '(' => ParenOpen
    case ')' => ParenClose
    case '[' => BracketOpen
    case ']' => BracketClose
    case '=' => EqualSign
    case ';' => Semicolon
    case _ => Comma
  }

  /** The three-entry keyword table the lexer builds in its constructor. */
  function KeywordKind(word: string): (r: Option<Kind>)
    ensures r.Some? ==> r.value.KwNull? || r.value.KwTrue? || r.value.KwFalse?
    ensures r == Some(KwNull) <==> word == "null"
    ensures r == Some(KwTrue) <==> word == "true"
    ensures r == Some(KwFalse) <==> word == "false"
  {
    if word == "null" then Some(KwNull)
    else if word == "true" then Some(KwTrue)
    else if word == "false" then Some(KwFalse)
    else None
  }

  datatype Span = Span(start: nat, size: nat)

  /**
   * A token. `integer` is the integer member of the source's value union: the
   * signed value of an INTEGER token and 0 for every other kind (the double of a
   * FLOATING token is not modelled).
   */
  datatype Token = Token(kind: Kind, integer: int, line: nat, col: nat, span: Span)

  /**
   * The lexer's state: index of the current character, line and column counters,
   * and the index where the current line starts.
   */
  datatype Cursor = Cursor(pos: nat, line: nat, col: nat, lineStart: nat)

  /** The effect of consuming one character `ch` at the cursor. */
  function Step(c: Cursor, ch: char): Cursor {
    if IsNewline(ch) then Cursor(c.pos + 1, c.line + 1, 1, c.pos + 1)
    else Cursor(c.pos + 1, c.line, c.col + 1, c.lineStart)
  }

  /** The effect of consuming the characters `cs` one after another. */
  function Advance(c: Cursor, cs: seq<char>): (r: Cursor)
    ensures r.pos == c.pos + |cs|
    decreases |cs|
  {
    if cs == [] then c else Step(Advance(c, cs[..|cs| - 1]), cs[|cs| - 1])
  }

  function NewlineCount(cs: seq<char>): nat
    decreases |cs|
  {
    if cs == [] then 0
    else NewlineCount(cs[..|cs| - 1]) + (if IsNewline(cs[|cs| - 1]) then 1 else 0)
  }

  /** Consuming `cs` raises the line counter by exactly the number of newline characters in it. */
  lemma {:induction false} AdvanceCountsLines(c: Cursor, cs: seq<char>)
    ensures Advance(c, cs).line == c.line + NewlineCount(cs)
    decreases |cs|
  {
    if cs != [] {
      AdvanceCountsLines(c, cs[..|cs| - 1]);
    }
  }

  /** Consuming characters that are not newlines moves only the column, by one per character. */
  lemma {:induction false} AdvanceWithinLine(c: Cursor, cs: seq<char>)
    requires forall k :: 0 <= k < |cs| ==> !IsNewline(cs[k])
    ensures Advance(c, cs) == Cursor(c.pos + |cs|, c.line, c.col + |cs|, c.lineStart)
    decreases |cs|
  {
    if cs != [] {
      AdvanceWithinLine(c, cs[..|cs| - 1]);
    }
  }

  /** After a newline the column restarts: it counts the characters after the last newline, plus one. */
  lemma {:induction false} AdvanceAfterNewline(c: Cursor, cs: seq<char>, k: nat)
    requires k < |cs| && IsNewline(cs[k])
    requires forall j :: k < j < |cs| ==> !IsNewline(cs[j])
    ensures Advance(c, cs).col == |cs| - k
    ensures Advance(c, cs).lineStart == c.pos + k + 1
    decreases |cs|
  {
    if k < |cs| - 1 {
      assert cs[..|cs| - 1][k] == cs[k];
      AdvanceAfterNewline(c, cs[..|cs| - 1], k);
    }
  }

  /** Consuming a slice one character further is one more step. */
  lemma AdvanceExtend(c: Cursor, text: seq<char>, i: nat, j: nat)
    requires i <= j < |text|
    ensures Advance(c, text[i..j + 1]) == Step(Advance(c, text[i..j]), text[j])
  {
    assert text[i..j + 1][..j - i] == text[i..j];
  }

  /** Consuming `a` and then `b` is consuming `a + b`. */
  lemma {:induction false} AdvanceConcat(c: Cursor, a: seq<char>, b: seq<char>)
    ensures Advance(Advance(c, a), b) == Advance(c, a + b)
    decreases |b|
  {
    if b == [] {
      assert a + b == a;
    } else {
      AdvanceConcat(c, a, b[..|b| - 1]);
      assert (a + b)[..|a + b| - 1] == a + b[..|b| - 1];
    }
  }

  /** Consuming the slices `s[i..j]` and `s[j..k]` in turn is consuming `s[i..k]`. */
  lemma AdvanceSplit(c: Cursor, s: seq<char>, i: nat, j: nat, k: nat)
    requires i <= j <= k <= |s|
    ensures Advance(Advance(c, s[i..j]), s[j..k]) == Advance(c, s[i..k])
  {
    AdvanceConcat(c, s[i..j], s[j..k]);
    assert s[i..j] + s[j..k] == s[i..k];
  }
}
