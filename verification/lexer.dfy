/**
 * The SON lexer (struct `lexer`, src/parser.cpp:159-531): a cursor over a character
 * buffer that appends tokens to a stream. Each method is proved to leave the lexer in
 * the state that the specification in module LexSpec describes.
 */
module Lexing {
  import opened Chars
  import opened Options
  import opened Tokens
  import opened LexSpec

  class Lexer {
    const text: string
    var pos: nat
    var line: nat
    var col: nat
    var lineStart: nat
    var tokens: seq<Token>

    /** The cursor never moves past the end of the text. */
    predicate Valid()
      reads this
    {
      pos <= |text|
    }

    /** A fresh lexer over `text`: line 1, column 1, at the first character, no tokens. */
    constructor (text: string)
      ensures Valid()
      ensures this.text == text && Checkpoint() == Cursor(0, 1, 1, 0) && tokens == []
    {
      this.text := text;
      pos, line, col, lineStart := 0, 1, 1, 0;
      tokens := [];
    }

    /** `get_checkpoint`: a snapshot of the cursor. */
    function Checkpoint(): Cursor
      reads this
    {
      Cursor(pos, line, col, lineStart)
    }

    /** `restore_checkpoint`: put back a snapshot taken earlier. */
    method Restore(s: Cursor)
      requires s.pos <= |text|
      modifies this
      ensures Valid() && Checkpoint() == s && tokens == old(tokens)
    {
      pos, line, col, lineStart := s.pos, s.line, s.col, s.lineStart;
    }

    /** `get_char`: the current character, NUL at the end of the text. */
    function Current(): char
      reads this
    {
      At(text, pos)
    }

    /** `eat_char`: consume the current character, counting lines and columns. */
    method EatChar() returns (ch: char)
      requires Valid() && pos < |text|
      modifies this
      ensures Valid() && tokens == old(tokens)
      ensures ch == old(text[pos]) && Checkpoint() == Step(old(Checkpoint()), ch)
      ensures pos == old(pos) + 1
    {
      ch := Current();
      if IsNewline(ch) {
        col := 0;
        line := line + 1;
        lineStart := pos + 1;
      }
      ch := Current();
      col := col + 1;
      pos := pos + 1;
    }

    /** `eat_while`: consume characters while they satisfy `pred`. */
    method EatWhile(pred: char -> bool) returns (sp: Span)
      requires Valid()
      modifies this
      ensures Valid() && tokens == old(tokens)
      ensures Checkpoint() == Skip(text, old(Checkpoint()), pred, false)
      ensures sp == Span(old(pos), pos - old(pos))
    {
      var checkpoint := Checkpoint();
      var count := 0;
      while Current() != '\0' && pred(Current())
        invariant Valid() && tokens == old(tokens)
        invariant checkpoint.pos <= pos && count == pos - checkpoint.pos
        invariant Checkpoint() == Advance(checkpoint, text[checkpoint.pos..pos])
        invariant forall k :: checkpoint.pos <= k < pos ==> text[k] != '\0' && pred(text[k])
        decreases |text| - pos
      {
        AdvanceExtend(checkpoint, text, checkpoint.pos, pos);
        var _ := EatChar();
        count := count + 1;
      }
      ScanEndUnique(text, checkpoint.pos, pos, pred, false);
      sp := Span(checkpoint.pos, count);
    }

    /** `eat_until`: consume characters until one satisfies `pred`. */
    method EatUntil(pred: char -> bool) returns (sp: Span)
      requires Valid()
      modifies this
      ensures Valid() && tokens == old(tokens)
      ensures Checkpoint() == Skip(text, old(Checkpoint()), pred, true)
      ensures sp == Span(old(pos), pos - old(pos))
    {
      var checkpoint := Checkpoint();
      var count := 0;
      while Current() != '\0' && !pred(Current())
        invariant Valid() && tokens == old(tokens)
        invariant checkpoint.pos <= pos && count == pos - checkpoint.pos
        invariant Checkpoint() == Advance(checkpoint, text[checkpoint.pos..pos])
        invariant forall k :: checkpoint.pos <= k < pos ==> text[k] != '\0' && !pred(text[k])
        decreases |text| - pos
      {
        AdvanceExtend(checkpoint, text, checkpoint.pos, pos);
        var _ := EatChar();
        count := count + 1;
      }
      ScanEndUnique(text, checkpoint.pos, pos, pred, true);
      sp := Span(checkpoint.pos, count);
    }

    /** One step of `eat_string`: consume the next character of `lit`, which is under the cursor. */
    method EatMatched(ghost c0: Cursor, ghost lit: string, ghost count: nat)
      requires Valid() && c0.pos <= pos && pos == c0.pos + count && count < |lit| && pos < |text|
      requires text[c0.pos..pos] == lit[..count] && text[pos] == lit[count]
      requires '\0' !in lit[..count] && lit[count] != '\0'
      requires Checkpoint() == Advance(c0, text[c0.pos..pos])
      modifies this
      ensures Valid() && tokens == old(tokens) && pos == old(pos) + 1
      ensures text[c0.pos..pos] == lit[..count + 1] && '\0' !in lit[..count + 1]
      ensures Checkpoint() == Advance(c0, text[c0.pos..pos])
    {
      AdvanceExtend(c0, text, c0.pos, pos);
      MatchesStep(text, c0.pos, lit, count);
      assert lit[..count + 1] == lit[..count] + [lit[count]];
      var _ := EatChar();
    }

    /**
     * `eat_string`: consume `lit` entirely, or nothing at all. The source has one
     * overload taking a length and one taking a NUL-terminated string; both compare
     * character by character and restore the checkpoint on the first mismatch.
     */
    method EatString(lit: string) returns (sp: Span)
      requires Valid()
      modifies this
      ensures Valid() && tokens == old(tokens)
      ensures Matches(text, old(pos), lit) ==>
        Checkpoint() == Advance(old(Checkpoint()), lit) && sp == Span(old(pos), |lit|)
      ensures !Matches(text, old(pos), lit) ==>
        Checkpoint() == old(Checkpoint()) && sp == Span(0, 0)
    {
      var checkpoint := Checkpoint();
      var count := 0;
      while count < |lit|
        invariant Valid() && tokens == old(tokens)
        invariant count <= |lit| && pos == checkpoint.pos + count
        invariant text[checkpoint.pos..pos] == lit[..count]
        invariant '\0' !in lit[..count]
        invariant Checkpoint() == Advance(checkpoint, text[checkpoint.pos..pos])
      {
        var c := Current();
        if c == '\0' || c != lit[count] {
          MatchesFails(text, checkpoint.pos, lit, count);
          Restore(checkpoint);
          return Span(0, 0);
        }
        EatMatched(checkpoint, lit, count);
        count := count + 1;
      }
      assert lit[..count] == lit;
      sp := Span(checkpoint.pos, count);
    }

    /** Consume one character, keeping the cursor the advance of `c0` over the text since `start`. */
    method EatTracked(ghost c0: Cursor, ghost start: nat)
      requires Valid() && start <= pos < |text|
      requires Checkpoint() == Advance(c0, text[start..pos])
      modifies this
      ensures Valid() && tokens == old(tokens) && pos == old(pos) + 1
      ensures Checkpoint() == Advance(c0, text[start..pos])
    {
      AdvanceExtend(c0, text, start, pos);
      var _ := EatChar();
    }

    /**
     * The loop of `eat_quoted_string`: consume the string's contents and its closing
     * quote. On failure the cursor is left where the scan stopped; the caller restores it.
     */
    method EatQuotedBody() returns (ok: bool)
      requires Valid()
      modifies this
      ensures Valid() && tokens == old(tokens)
      ensures ok == QuotedBodyEnd(text, old(pos)).Some?
      ensures ok ==>
        pos == QuotedBodyEnd(text, old(pos)).value &&
        Checkpoint() == Advance(old(Checkpoint()), text[old(pos)..pos])
    {
      ghost var c0, start := Checkpoint(), pos;
      assert text[start..start] == [];
      while Current() != '"'
        invariant Valid() && tokens == old(tokens) && start <= pos
        invariant Checkpoint() == Advance(c0, text[start..pos])
        invariant QuotedBodyEnd(text, pos) == QuotedBodyEnd(text, start)
        decreases |text| - pos
      {
        var c := Current();
        if c == '\\' {
          if pos + 1 == |text| {
            // A backslash as the last character has nothing left to escape.
            return false;
          }
          assert QuotedBodyEnd(text, pos) == QuotedBodyEnd(text, pos + 2);
          EatTracked(c0, start);
          EatTracked(c0, start);
          continue;
        }
        if c == '\0' || IsNewline(c) {
          return false;
        }
        assert QuotedBodyEnd(text, pos) == QuotedBodyEnd(text, pos + 1);
        EatTracked(c0, start);
      }
      EatTracked(c0, start);
      ok := true;
    }

    /**
     * `eat_quoted_string`: on success append one STRING token whose span runs from the
     * opening quote through the closing quote, with the line and column of the opening
     * quote; otherwise restore the cursor and append nothing.
     */
    method EatQuotedString() returns (ok: bool)
      requires Valid()
      modifies this
      ensures Valid()
      ensures ok == QuotedEnd(text, old(pos)).Some?
      ensures ok ==> var e := QuotedEnd(text, old(pos)).value;
        Checkpoint() == Advance(old(Checkpoint()), text[old(pos)..e]) &&
        tokens == old(tokens) + [Token(String, 0, old(line), old(col), Span(old(pos), e - old(pos)))]
      ensures !ok ==> Checkpoint() == old(Checkpoint()) && tokens == old(tokens)
    {
      var checkpoint := Checkpoint();
      if Current() != '"' {
        return false;
      }
      AdvanceExtend(checkpoint, text, checkpoint.pos, checkpoint.pos);
      assert text[checkpoint.pos..checkpoint.pos] == [];
      var quote := EatChar();
      ok := EatQuotedBody();
      if !ok {
        Restore(checkpoint);
        return;
      }
      AdvanceSplit(checkpoint, text, checkpoint.pos, checkpoint.pos + 1, pos);
      tokens := tokens + [Token(String, 0, checkpoint.line, checkpoint.col, Span(checkpoint.pos, pos - checkpoint.pos))];
    }

    /**
     * `eat_keyword_or_identifier`: consume the longest run of identifier characters and
     * append a keyword token for `null`, `true` or `false` and an IDENTIFIER token otherwise.
     */
    method EatKeywordOrIdentifier() returns (ok: bool)
      requires Valid()
      modifies this
      ensures Valid()
      ensures ok == IsIdentHead(At(text, old(pos)))
      ensures ok ==>
        Checkpoint() == Advance(old(Checkpoint()), text[old(pos)..IdentEnd(text, old(pos))]) &&
        tokens == old(tokens) + [WordToken(text, old(Checkpoint()))]
      ensures !ok ==> Checkpoint() == old(Checkpoint()) && tokens == old(tokens)
    {
      var c := Current();
      if !IsIdentHead(c) {
        return false;
      }
      var result := EatWhile(IsIdentBody);
      var word := text[result.start..result.start + result.size];
      ok := true;
      match KeywordKind(word)
      case None =>
        tokens := tokens + [Token(Identifier, 0, line, col, result)];
      case Some(k) =>
        tokens := tokens + [Token(k, 0, line, col, result)];
    }

    /**
     * The digit loops of `eat_number`: consume a run of digits and return the value
     * they denote, accumulated as `value * 10 + digit`.
     */
    method EatDigits() returns (value: nat)
      requires Valid()
      modifies this
      ensures Valid() && tokens == old(tokens)
      ensures pos == ScanEnd(text, old(pos), IsDigit, false)
      ensures Checkpoint() == Advance(old(Checkpoint()), text[old(pos)..pos])
      ensures forall k :: old(pos) <= k < pos ==> IsDigit(text[k])
      ensures value == DecimalValue(text[old(pos)..pos])
    {
      var checkpoint := Checkpoint();
      value := 0;
      var c := Current();
      while IsDigit(c)
        invariant Valid() && tokens == old(tokens)
        invariant checkpoint.pos <= pos && c == Current()
        invariant forall k :: checkpoint.pos <= k < pos ==> IsDigit(text[k])
        invariant value == DecimalValue(text[checkpoint.pos..pos])
        invariant Checkpoint() == Advance(checkpoint, text[checkpoint.pos..pos])
        decreases |text| - pos
      {
        assert pos < |text| && text[pos] == c;
        AdvanceExtend(checkpoint, text, checkpoint.pos, pos);
        DecimalValueStep(text, checkpoint.pos, pos);
        var _ := EatChar();
        value := value * 10 + DigitValue(c);
        c := Current();
      }
      ScanEndUnique(text, checkpoint.pos, pos, IsDigit, false);
    }

    /**
     * The first half of `eat_number`: an optional sign and the integral digits, with
     * their value (negated after a `-`).
     */
    method EatIntegral() returns (value: int)
      requires Valid() && IsNumberStart(Current())
      modifies this
      ensures Valid() && tokens == old(tokens)
      ensures pos == IntegralEnd(text, old(pos))
      ensures Checkpoint() == Advance(old(Checkpoint()), text[old(pos)..pos])
      ensures value == IntegerValue(text, old(pos))
    {
      ghost var c0 := Checkpoint();
      var start := pos;
      var c := Current();
      var sign: int := 1;
      if c == '-' || c == '+' {
        sign := if c == '-' then -1 else 1;
        AdvanceExtend(c0, text, start, pos);
        assert text[start..start] == [];
        var signChar := EatChar();
      }
      ghost var d0 := pos;
      assert d0 == DigitsStart(text, start) && Checkpoint() == Advance(c0, text[start..d0]);
      var integral := EatDigits();
      AdvanceSplit(c0, text, start, d0, pos);
      value := sign * integral;
    }

    /**
     * The second half of `eat_number` for a FLOATING number: the `.` and the digits
     * after it (their value is not kept).
     */
    method EatFraction()
      requires Valid() && Current() == '.'
      modifies this
      ensures Valid() && tokens == old(tokens)
      ensures pos == ScanEnd(text, old(pos) + 1, IsDigit, false)
      ensures Checkpoint() == Advance(old(Checkpoint()), text[old(pos)..pos])
    {
      ghost var c0, start := Checkpoint(), pos;
      AdvanceExtend(c0, text, start, start);
      assert text[start..start] == [];
      var dot := EatChar();
      var fraction := EatDigits();
      AdvanceSplit(c0, text, start, start + 1, pos);
    }

    /**
     * `eat_number`: an optional sign and a run of digits; a following `.` and a second
     * run of digits make it FLOATING, otherwise it is INTEGER with value sign times the
     * digits' decimal value. The token carries the line and column after the number.
     */
    method EatNumber() returns (ok: bool)
      requires Valid()
      modifies this
      ensures Valid()
      ensures ok == IsNumberStart(At(text, old(pos)))
      ensures ok ==>
        Checkpoint() == Advance(old(Checkpoint()), text[old(pos)..NumberEnd(text, old(pos))]) &&
        tokens == old(tokens) + [NumberToken(text, old(Checkpoint()))]
      ensures !ok ==> Checkpoint() == old(Checkpoint()) && tokens == old(tokens)
    {
      var c0 := Checkpoint();
      var start := pos;
      if !IsNumberStart(Current()) {
        return false;
      }
      var integral := EatIntegral();
      var d1, cd1 := pos, Checkpoint();
      if Current() == '.' {
        EatFraction();
        var cf1 := Checkpoint();
        AdvanceSplit(c0, text, start, d1, pos);
        FloatingToken(text, c0);
        tokens := tokens + [Token(Floating, 0, cf1.line, cf1.col, Span(start, pos - start))];
        return true;
      }
      IntegerToken(text, c0);
      tokens := tokens + [Token(Integer, integral, cd1.line, cd1.col, Span(start, d1 - start))];
      ok := true;
    }

    /** The `/` branch of `tokenize`: a `//` comment and the newline characters after it. */
    method EatComment() returns (ok: bool)
      requires Valid()
      modifies this
      ensures Valid() && tokens == old(tokens)
      ensures ok == Matches(text, old(pos), "//")
      ensures ok ==> Checkpoint() == CommentSkip(text, old(Checkpoint()))
      ensures !ok ==> Checkpoint() == old(Checkpoint())
    {
      var slashes := EatString("//");
      if slashes.size == 0 {
        return false;
      }
      var comment := EatUntil(IsNewline);
      var newlines := EatWhile(IsNewline);
      ok := true;
    }

    /**
     * The dispatch of `tokenize`'s loop at the non-NUL character `c` under the cursor:
     * one lexeme, or one comment. On success lexing goes on from the new cursor; on
     * failure the tokens appended and the cursor are those of a failed pass.
     */
    method EatToken(c: char) returns (ok: bool)
      requires Valid() && c == Current() && c != '\0'
      modifies this
      ensures Valid()
      ensures |old(tokens)| <= |tokens| && tokens[..|old(tokens)|] == old(tokens)
      ensures ok ==>
        old(pos) < pos &&
        LexAt(text, old(Checkpoint())) == Prepend(tokens[|old(tokens)|..], LexFrom(text, Checkpoint()))
      ensures !ok ==> LexAt(text, old(Checkpoint())) == LexOut(false, tokens[|old(tokens)|..], Checkpoint())
    {
      ok := true;
      if IsPunctuation(c) {
        var t := Token(PunctuationKind(c), 0, line, col, Span(pos, 1));
        var ch := EatChar();
        tokens := tokens + [t];
      } else if c == '/' {
        // A `/` that does not start a comment: the source retries it forever.
        ok := EatComment();
      } else if c == '"' {
        ok := EatQuotedString();
      } else if IsNumberStart(c) {
        // Cannot fail: `c` starts a number.
        ok := EatNumber();
      } else if IsIdentHead(c) {
        // Cannot fail: `c` starts an identifier.
        ok := EatKeywordOrIdentifier();
      } else {
        var skipped := EatUntil(IsSpace);
        ok := false;
      }
    }

    /**
     * The body of `tokenize`'s loop at the non-NUL character `c` under the cursor: one
     * lexeme (or one comment), then the whitespace after it. On success the pass goes on
     * from the new cursor; on failure the tokens appended and the cursor are those of a
     * failed pass.
     */
    method EatLexeme(c: char) returns (ok: bool)
      requires Valid() && c == Current() && c != '\0'
      modifies this
      ensures Valid()
      ensures |old(tokens)| <= |tokens| && tokens[..|old(tokens)|] == old(tokens)
      ensures ok ==>
        old(pos) < pos &&
        LexAt(text, old(Checkpoint())) == Prepend(tokens[|old(tokens)|..], LexAt(text, Checkpoint()))
      ensures !ok ==> LexAt(text, old(Checkpoint())) == LexOut(false, tokens[|old(tokens)|..], Checkpoint())
    {
      ok := EatToken(c);
      if ok {
        ghost var next := Checkpoint();
        var spaces := EatWhile(IsSpace);
        assert LexFrom(text, next) == LexAt(text, Checkpoint());
      }
    }

    /**
     * `tokenize`: one forward pass that skips whitespace and `//` comments and appends
     * a token per lexeme, then an EOF token. It returns false on an unknown lexeme, an
     * unterminated string or a `/` that does not start a comment.
     */
    method Tokenize() returns (ok: bool)
      requires Valid()
      modifies this
      ensures Valid()
      ensures var out := LexFrom(text, old(Checkpoint()));
        ok == out.ok && tokens == old(tokens) + out.tokens && Checkpoint() == out.cursor
    {
      ghost var goal := LexFrom(text, Checkpoint());
      ghost var base := tokens;
      var spaces := EatWhile(IsSpace);
      var c := Current();
      while c != '\0'
        invariant Valid() && c == Current()
        invariant |base| <= |tokens| && tokens[..|base|] == base
        invariant goal == Prepend(tokens[|base|..], LexAt(text, Checkpoint()))
        decreases |text| - pos
      {
        ghost var before := tokens;
        ok := EatLexeme(c);
        SuffixSplit(tokens, before, |base|);
        if !ok {
          PrependTwice(before[|base|..], tokens[|before|..], LexOut(false, [], Checkpoint()));
          return;
        }
        PrependTwice(before[|base|..], tokens[|before|..], LexAt(text, Checkpoint()));
        c := Current();
      }
      tokens := tokens + [Token(EOF, 0, line, col, Span(pos, 1))];
      ok := true;
    }
  }
}
