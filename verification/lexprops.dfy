/**
 * What the token stream of `tokenize` (src/parser.cpp:282-363) looks like, proved
 * about its specification in module LexSpec.
 */
module LexProps {
  import opened Chars
  import opened Options
  import opened Tokens
  import opened LexSpec

  /** Every character after an optional sign is a digit. */
  predicate AllDigitsFrom(w: string, d: nat) {
    forall k :: d <= k < |w| ==> IsDigit(w[k])
  }

  /** Length of the optional leading sign of a number lexeme. */
  function SignLength(w: string): nat {
    if |w| > 0 && IsSign(w[0]) then 1 else 0
  }

  /**
   * The text `w` of a token of kind `k` with integer member `value` is a lexeme of that kind.
   */
  predicate LexemeOf(k: Kind, value: int, w: string) {
    match k
    case Identifier =>
      |w| >= 1 && IsIdentHead(w[0]) && (forall j :: 0 <= j < |w| ==> IsIdentBody(w[j])) &&
      KeywordKind(w) == None && value == 0
    case KwNull => w == "null" && value == 0
    case KwTrue => w == "true" && value == 0
    case KwFalse => w == "false" && value == 0
    case String =>
      |w| >= 2 && w[0] == '"' && w[|w| - 1] == '"' && QuotedBody(w[1..|w| - 1]) && value == 0
    case Integer =>
      |w| >= 1 && AllDigitsFrom(w, SignLength(w)) &&
      value == (if w[0] == '-' then -1 else 1) * DecimalValue(w[SignLength(w)..])
    case Floating =>
      |w| >= 1 && value == 0 &&
      (forall j :: SignLength(w) <= j < |w| ==> IsDigit(w[j]) || w[j] == '.') &&
      multiset(w[SignLength(w)..])['.'] == 1
    case _ =>
      IsPunctuationKind(k) && |w| == 1 && Code(k) == w[0] as int && value == 0
  }

  /** A token read from `text`: an EOF token sits at the end of the text or at a NUL. */
  predicate WellFormed(text: string, t: Token) {
    var s, n := t.span.start, t.span.size;
    if t.kind == EOF then s <= |text| && At(text, s) == '\0' && n == 1 && t.integer == 0
    else if t.kind == Undefined || t.kind == DoubleSlash then false
    else s + n <= |text| && LexemeOf(t.kind, t.integer, text[s..s + n])
  }

  /** Digits with one `.` among them hold exactly one `.`. */
  lemma OneDot(ds1: string, ds2: string)
    requires forall k :: 0 <= k < |ds1| ==> IsDigit(ds1[k])
    requires forall k :: 0 <= k < |ds2| ==> IsDigit(ds2[k])
    ensures multiset(ds1 + ['.'] + ds2)['.'] == 1
  {
    assert '.' !in multiset(ds1);
    assert '.' !in multiset(ds2);
    assert multiset(ds1 + ['.'] + ds2) == multiset(ds1) + multiset{'.'} + multiset(ds2);
  }

  /** The integral digits, the `.` and the fraction digits of a FLOATING number. */
  lemma FloatingParts(text: string, d0: nat, d1: nat, e: nat)
    requires d0 <= d1 < e <= |text| && text[d1] == '.'
    requires forall k :: d0 <= k < d1 ==> IsDigit(text[k])
    requires forall k :: d1 < k < e ==> IsDigit(text[k])
    ensures forall k :: d0 <= k < e ==> IsDigit(text[k]) || text[k] == '.'
    ensures multiset(text[d0..e])['.'] == 1
  {
    var ds1, ds2 := text[d0..d1], text[d1 + 1..e];
    assert text[d0..e] == ds1 + ['.'] + ds2;
    OneDot(ds1, ds2);
  }

  lemma FloatingLexeme(text: string, i: nat)
    requires i <= |text| && IsFloating(text, i)
    ensures LexemeOf(Floating, 0, text[i..NumberEnd(text, i)])
  {
    var e := NumberEnd(text, i);
    var w := text[i..e];
    var d0 := DigitsStart(text, i);
    var d1 := IntegralEnd(text, i);
    ScanEndRun(text, d0, IsDigit, false);
    ScanEndRun(text, d1 + 1, IsDigit, false);
    FloatingParts(text, d0, d1, e);
    assert SignLength(w) == d0 - i;
    assert w[SignLength(w)..] == text[d0..e];
    forall j | SignLength(w) <= j < |w|
      ensures IsDigit(w[j]) || w[j] == '.'
    {
      assert w[j] == text[i + j];
    }
  }

  lemma FloatingTokenWellFormed(text: string, c: Cursor)
    requires c.pos <= |text| && IsFloating(text, c.pos)
    ensures WellFormed(text, NumberToken(text, c))
  {
    FloatingLexeme(text, c.pos);
  }

  lemma IntegerTokenWellFormed(text: string, c: Cursor)
    requires c.pos <= |text| && IsNumberStart(At(text, c.pos)) && !IsFloating(text, c.pos)
    ensures WellFormed(text, NumberToken(text, c))
  {
    var i := c.pos;
    var e := NumberEnd(text, i);
    var w := text[i..e];
    var d0 := DigitsStart(text, i);
    ScanEndRun(text, d0, IsDigit, false);
    assert e == IntegralEnd(text, i);
    assert SignLength(w) == d0 - i;
    assert w[SignLength(w)..] == text[d0..e];
  }

  lemma NumberTokenWellFormed(text: string, c: Cursor)
    requires c.pos <= |text| && IsNumberStart(At(text, c.pos))
    ensures WellFormed(text, NumberToken(text, c))
  {
    if IsFloating(text, c.pos) {
      FloatingTokenWellFormed(text, c);
    } else {
      IntegerTokenWellFormed(text, c);
    }
  }

  /**
   * A number without digits is accepted: a lone sign is an INTEGER of value 0 and a
   * lone `.` is a FLOATING, each one character long.
   */
  lemma DigitlessNumber(text: string, c: Cursor)
    requires c.pos < |text| && (IsSign(text[c.pos]) || text[c.pos] == '.')
    requires !IsDigit(At(text, c.pos + 1)) && At(text, c.pos + 1) != '.'
    ensures NumberEnd(text, c.pos) == c.pos + 1
    ensures NumberToken(text, c).kind == (if text[c.pos] == '.' then Floating else Integer)
    ensures NumberToken(text, c).integer == 0
    ensures NumberToken(text, c).span == Span(c.pos, 1)
  {
    assert ScanEnd(text, c.pos + 1, IsDigit, false) == c.pos + 1;
    if text[c.pos] == '.' {
      assert IntegralEnd(text, c.pos) == c.pos;
    } else {
      assert IntegralEnd(text, c.pos) == c.pos + 1;
      assert text[c.pos + 1..c.pos + 1] == [];
    }
  }

  lemma WordTokenWellFormed(text: string, c: Cursor)
    requires c.pos <= |text| && IsIdentHead(At(text, c.pos))
    ensures WellFormed(text, WordToken(text, c))
  {
    var e := IdentEnd(text, c.pos);
    var w := text[c.pos..e];
    ScanEndRun(text, c.pos, IsIdentBody, false);
    assert e > c.pos;
    assert w[0] == text[c.pos];
  }

  lemma StringTokenWellFormed(text: string, c: Cursor, e: nat)
    requires c.pos <= |text| && QuotedEnd(text, c.pos) == Some(e)
    ensures WellFormed(text, Token(String, 0, c.line, c.col, Span(c.pos, e - c.pos)))
  {
    QuotedEndIff(text, c.pos, e);
    assert c.pos + 2 <= e <= |text|;
    var w := text[c.pos..e];
    assert |w| == e - c.pos;
    var inner, body := w[1..|w| - 1], text[c.pos + 1..e - 1];
    forall k | 0 <= k < |inner| ensures inner[k] == body[k] {
      assert w[k + 1] == text[c.pos + 1 + k];
    }
    assert inner == body;
  }

  /** Every token `tokenize` appends is a well-formed lexeme of its kind, read from the text. */
  lemma {:induction false} LexFromWellFormed(text: string, c: Cursor)
    requires c.pos <= |text|
    ensures forall t :: t in LexFrom(text, c).tokens ==> WellFormed(text, t)
    decreases |text| - c.pos, 1
  {
    LexAtWellFormed(text, Skip(text, c, IsSpace, false));
  }

  lemma {:induction false} LexAtWellFormed(text: string, c: Cursor)
    requires c.pos <= |text|
    ensures forall t :: t in LexAt(text, c).tokens ==> WellFormed(text, t)
    decreases |text| - c.pos, 0
  {
    var ch := At(text, c.pos);
    if ch == '\0' {
    } else if IsPunctuation(ch) {
      LexFromWellFormed(text, Step(c, ch));
    } else if ch == '/' {
      if Matches(text, c.pos, "//") {
        LexFromWellFormed(text, CommentSkip(text, c));
      }
    } else if ch == '"' {
      match QuotedEnd(text, c.pos)
      case None =>
      case Some(e) =>
        StringTokenWellFormed(text, c, e);
        LexFromWellFormed(text, Advance(c, text[c.pos..e]));
    } else if IsNumberStart(ch) {
      NumberTokenWellFormed(text, c);
      LexFromWellFormed(text, Advance(c, text[c.pos..NumberEnd(text, c.pos)]));
    } else if IsIdentHead(ch) {
      WordTokenWellFormed(text, c);
      LexFromWellFormed(text, Advance(c, text[c.pos..IdentEnd(text, c.pos)]));
    }
  }

  /** Tokens do not overlap and appear in source order, none before the starting cursor. */
  predicate InSourceOrder(ts: seq<Token>, from: nat) {
    (forall k :: 0 <= k < |ts| ==> from <= ts[k].span.start) &&
    (forall k :: 0 <= k < |ts| - 1 ==> ts[k].span.start + ts[k].span.size <= ts[k + 1].span.start)
  }

  lemma PrependInOrder(t: Token, ts: seq<Token>, from: nat, next: nat)
    requires from <= t.span.start && t.span.start + t.span.size <= next
    requires InSourceOrder(ts, next)
    ensures InSourceOrder([t] + ts, from)
  {
    var r := [t] + ts;
    forall k | 0 <= k < |r| - 1
      ensures r[k].span.start + r[k].span.size <= r[k + 1].span.start
    {
      if k > 0 { assert r[k] == ts[k - 1] && r[k + 1] == ts[k]; }
    }
  }

  lemma {:induction false} LexFromInOrder(text: string, c: Cursor)
    requires c.pos <= |text|
    ensures InSourceOrder(LexFrom(text, c).tokens, c.pos)
    decreases |text| - c.pos, 1
  {
    LexAtInOrder(text, Skip(text, c, IsSpace, false));
  }

  lemma {:induction false} LexAtInOrder(text: string, c: Cursor)
    requires c.pos <= |text|
    ensures InSourceOrder(LexAt(text, c).tokens, c.pos)
    decreases |text| - c.pos, 0
  {
    var ch := At(text, c.pos);
    if ch == '\0' {
    } else if IsPunctuation(ch) {
      var next := Step(c, ch);
      LexFromInOrder(text, next);
      PrependInOrder(Token(PunctuationKind(ch), 0, c.line, c.col, Span(c.pos, 1)), LexFrom(text, next).tokens, c.pos, next.pos);
    } else if ch == '/' {
      if Matches(text, c.pos, "//") {
        LexFromInOrder(text, CommentSkip(text, c));
      }
    } else if ch == '"' {
      match QuotedEnd(text, c.pos)
      case None =>
      case Some(e) =>
        var next := Advance(c, text[c.pos..e]);
        LexFromInOrder(text, next);
        PrependInOrder(Token(String, 0, c.line, c.col, Span(c.pos, e - c.pos)), LexFrom(text, next).tokens, c.pos, next.pos);
    } else if IsNumberStart(ch) {
      var next := Advance(c, text[c.pos..NumberEnd(text, c.pos)]);
      LexFromInOrder(text, next);
      PrependInOrder(NumberToken(text, c), LexFrom(text, next).tokens, c.pos, next.pos);
    } else if IsIdentHead(ch) {
      var next := Advance(c, text[c.pos..IdentEnd(text, c.pos)]);
      LexFromInOrder(text, next);
      PrependInOrder(WordToken(text, c), LexFrom(text, next).tokens, c.pos, next.pos);
    }
  }

  /**
   * A punctuation character becomes one token of the kind whose code is that
   * character, with a one-character span at the cursor, and the pass goes on after it.
   */
  lemma PunctuationLexeme(text: string, c: Cursor)
    requires c.pos < |text| && IsPunctuation(text[c.pos])
    ensures var t := LexAt(text, c).tokens[0];
      Code(t.kind) == text[c.pos] as int && t.span == Span(c.pos, 1) &&
      LexAt(text, c) == Prepend([t], LexFrom(text, Step(c, text[c.pos])))
  {
  }

  /**
   * A pass fails without a token at an unterminated string, and at a character that
   * starts no lexeme; the latter leaves the cursor after the characters up to the
   * next whitespace.
   */
  lemma FailingLexemes(text: string, c: Cursor)
    requires c.pos <= |text|
    ensures At(text, c.pos) == '"' && QuotedEnd(text, c.pos).None? ==> LexAt(text, c) == LexOut(false, [], c)
    ensures var ch := At(text, c.pos);
      ch != '\0' && !IsPunctuation(ch) && ch != '/' && ch != '"' && !IsNumberStart(ch) && !IsIdentHead(ch) ==>
      LexAt(text, c) == LexOut(false, [], Skip(text, c, IsSpace, true))
  {
  }

  /** A successful run ends with exactly one EOF token; a failed one holds none. */
  predicate EndsWithSingleEOF(out: LexOut) {
    (out.ok ==> |out.tokens| >= 1) &&
    forall k :: 0 <= k < |out.tokens| ==> (out.tokens[k].kind == EOF <==> out.ok && k == |out.tokens| - 1)
  }

  lemma PrependKeepsEOF(t: Token, out: LexOut)
    requires t.kind != EOF && EndsWithSingleEOF(out)
    ensures EndsWithSingleEOF(Prepend([t], out))
  {
    var r := Prepend([t], out).tokens;
    forall k | 1 <= k < |r| ensures r[k] == out.tokens[k - 1] { }
  }

  lemma {:induction false} LexFromSingleEOF(text: string, c: Cursor)
    requires c.pos <= |text|
    ensures EndsWithSingleEOF(LexFrom(text, c))
    decreases |text| - c.pos, 1
  {
    LexAtSingleEOF(text, Skip(text, c, IsSpace, false));
  }

  lemma {:induction false} LexAtSingleEOF(text: string, c: Cursor)
    requires c.pos <= |text|
    ensures EndsWithSingleEOF(LexAt(text, c))
    decreases |text| - c.pos, 0
  {
    var ch := At(text, c.pos);
    if ch == '\0' {
    } else if IsPunctuation(ch) {
      var next := Step(c, ch);
      LexFromSingleEOF(text, next);
      PrependKeepsEOF(Token(PunctuationKind(ch), 0, c.line, c.col, Span(c.pos, 1)), LexFrom(text, next));
    } else if ch == '/' {
      if Matches(text, c.pos, "//") {
        LexFromSingleEOF(text, CommentSkip(text, c));
      }
    } else if ch == '"' {
      match QuotedEnd(text, c.pos)
      case None =>
      case Some(e) =>
        var next := Advance(c, text[c.pos..e]);
        LexFromSingleEOF(text, next);
        PrependKeepsEOF(Token(String, 0, c.line, c.col, Span(c.pos, e - c.pos)), LexFrom(text, next));
    } else if IsNumberStart(ch) {
      var next := Advance(c, text[c.pos..NumberEnd(text, c.pos)]);
      LexFromSingleEOF(text, next);
      PrependKeepsEOF(NumberToken(text, c), LexFrom(text, next));
    } else if IsIdentHead(ch) {
      var next := Advance(c, text[c.pos..IdentEnd(text, c.pos)]);
      LexFromSingleEOF(text, next);
      PrependKeepsEOF(WordToken(text, c), LexFrom(text, next));
    }
  }

  /** Skipping whitespace is idempotent: a cursor already past the whitespace stays put. */
  lemma SkipSpacesIdempotent(text: string, c: Cursor)
    requires c.pos <= |text|
    ensures Skip(text, Skip(text, c, IsSpace, false), IsSpace, false) == Skip(text, c, IsSpace, false)
  {
    var c1 := Skip(text, c, IsSpace, false);
    ScanEndUnique(text, c1.pos, c1.pos, IsSpace, false);
    assert text[c1.pos..c1.pos] == [];
  }

  lemma SkipFromInside(text: string, c: Cursor, j: nat)
    requires c.pos <= |text| && c.pos <= j <= ScanEnd(text, c.pos, IsSpace, false)
    ensures Skip(text, Advance(c, text[c.pos..j]), IsSpace, false) == Skip(text, c, IsSpace, false)
  {
    var e := ScanEnd(text, c.pos, IsSpace, false);
    var c' := Advance(c, text[c.pos..j]);
    assert c'.pos == j;
    ScanEndRun(text, c.pos, IsSpace, false);
    ScanEndUnique(text, j, e, IsSpace, false);
    assert Skip(text, c', IsSpace, false) == Advance(c', text[j..e]);
    AdvanceSplit(c, text, c.pos, j, e);
  }

  /** Whitespace emits no tokens: consuming any part of it first does not change the outcome. */
  lemma WhitespaceEmitsNothing(text: string, c: Cursor, j: nat)
    requires c.pos <= |text| && c.pos <= j <= ScanEnd(text, c.pos, IsSpace, false)
    ensures LexFrom(text, Advance(c, text[c.pos..j])) == LexFrom(text, c)
  {
    SkipFromInside(text, c, j);
  }

  /** A `//` comment emits no tokens: lexing resumes after it and its line break. */
  lemma CommentEmitsNothing(text: string, c: Cursor)
    requires c.pos <= |text| && Matches(text, c.pos, "//")
    ensures LexFrom(text, c) == LexFrom(text, CommentSkip(text, c))
  {
    ScanEndUnique(text, c.pos, c.pos, IsSpace, false);
    assert text[c.pos..c.pos] == [];
    assert text[c.pos..c.pos + 2] == "//";
    assert Skip(text, c, IsSpace, false) == c;
    assert At(text, c.pos) == '/';
    assert LexFrom(text, c) == LexAt(text, c);
  }
}
