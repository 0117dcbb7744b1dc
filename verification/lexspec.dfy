/**
 * The behaviour of the SON lexer (struct `lexer`, src/parser.cpp:159-531) stated as
 * pure functions of the text and a cursor. The imperative lexer in module Lexing is
 * proved to do exactly what these functions describe; the lemmas below state what
 * the token stream they describe looks like.
 */
module LexSpec {
  import opened Chars
  import opened Options
  import opened Tokens

  /** `get_char`: the character at index `i`, or NUL at the end of the text. */
  function At(text: string, i: nat): char {
    if i < |text| then text[i] else '\0'
  }

  /**
   * Where `eat_while(pred)` (until = false) or `eat_until(pred)` (until = true) started
   * at `i` stops: the end of the longest run of non-NUL characters for which
   * `pred` differs from `until`.
   */
  function ScanEnd(text: string, i: nat, pred: char -> bool, until: bool): (e: nat)
    requires i <= |text|
    ensures i <= e <= |text|
    ensures At(text, e) == '\0' || pred(At(text, e)) == until
    decreases |text| - i
  {
    if i == |text| || text[i] == '\0' || pred(text[i]) == until then i
    else ScanEnd(text, i + 1, pred, until)
  }

  /** Every character a scan passes over is non-NUL and on the scanned side of `pred`. */
  lemma {:induction false} ScanEndRun(text: string, i: nat, pred: char -> bool, until: bool)
    requires i <= |text|
    ensures forall k :: i <= k < ScanEnd(text, i, pred, until) ==> text[k] != '\0' && pred(text[k]) != until
    decreases |text| - i
  {
    if !(i == |text| || text[i] == '\0' || pred(text[i]) == until) {
      ScanEndRun(text, i + 1, pred, until);
    }
  }

  /** A run with the properties in ScanEnd's contract can end nowhere else. */
  lemma ScanEndUnique(text: string, i: nat, e: nat, pred: char -> bool, until: bool)
    requires i <= e <= |text|
    requires forall k :: i <= k < e ==> text[k] != '\0' && pred(text[k]) != until
    requires At(text, e) == '\0' || pred(At(text, e)) == until
    ensures ScanEnd(text, i, pred, until) == e
    decreases e - i
  {
    if i < e {
      ScanEndUnique(text, i + 1, e, pred, until);
    }
  }

  /** The cursor after `eat_while`/`eat_until` from `c`. */
  function Skip(text: string, c: Cursor, pred: char -> bool, until: bool): (r: Cursor)
    requires c.pos <= |text|
    ensures r.pos == ScanEnd(text, c.pos, pred, until)
  {
    Advance(c, text[c.pos..ScanEnd(text, c.pos, pred, until)])
  }

  /**
   * `eat_string(lit)` succeeds at `i` exactly when the text continues with `lit`
   * and no character of it is NUL (a NUL reads as the end of the text).
   */
  predicate Matches(text: string, i: nat, lit: string) {
    i + |lit| <= |text| && text[i..i + |lit|] == lit && '\0' !in lit
  }

  /** One more matching character extends a matched prefix of `lit`. */
  lemma MatchesStep(text: string, i: nat, lit: string, count: nat)
    requires count < |lit| && i + count < |text|
    requires text[i..i + count] == lit[..count] && text[i + count] == lit[count]
    ensures text[i..i + count + 1] == lit[..count + 1]
  {
    assert text[i..i + count + 1] == text[i..i + count] + [text[i + count]];
    assert lit[..count + 1] == lit[..count] + [lit[count]];
  }

  /** A NUL or a different character after a matched prefix means `lit` does not match. */
  lemma MatchesFails(text: string, i: nat, lit: string, count: nat)
    requires count < |lit| && i + count <= |text|
    requires At(text, i + count) == '\0' || At(text, i + count) != lit[count]
    ensures !Matches(text, i, lit)
  {
    if i + |lit| <= |text| && text[i..i + |lit|] == lit {
      assert text[i + count] == lit[count];
      assert lit[count] == '\0' && lit[count] in lit;
    }
  }

  // ---------------------------------------------------------------- strings

  /**
   * The scan of `eat_quoted_string` after the opening quote, from index `j`: the index
   * just past the closing quote, or None when a NUL, a newline or the end of the text
   * comes first. A backslash also consumes the character after it; a backslash that is
   * the last character of the text makes the string unterminated (see README, Findings).
   */
  function QuotedBodyEnd(text: string, j: nat): (r: Option<nat>)
    requires j <= |text|
    ensures r.Some? ==> j < r.value <= |text| && text[r.value - 1] == '"'
    decreases |text| - j
  {
    if j == |text| then None
    else if text[j] == '"' then Some(j + 1)
    else if text[j] == '\\' then (if j + 1 < |text| then QuotedBodyEnd(text, j + 2) else None)
    else if text[j] == '\0' || IsNewline(text[j]) then None
    else QuotedBodyEnd(text, j + 1)
  }

  /** A whole quoted string starting at `i`: the index just past its closing quote. */
  function QuotedEnd(text: string, i: nat): (r: Option<nat>)
    requires i <= |text|
    ensures r.Some? ==> i + 2 <= r.value <= |text| && text[i] == '"' && text[r.value - 1] == '"'
  {
    if i < |text| && text[i] == '"' then QuotedBodyEnd(text, i + 1) else None
  }

  /**
   * The contents of a string literal between its quotes: escape pairs (a backslash and
   * any character) and characters that are neither a quote, a backslash, NUL nor a newline.
   */
  predicate QuotedBody(s: string)
    decreases |s|
  {
    if s == [] then true
    else if s[0] == '\\' then |s| >= 2 && QuotedBody(s[2..])
    else s[0] != '"' && s[0] != '\0' && !IsNewline(s[0]) && QuotedBody(s[1..])
  }

  /** What the string scan accepts is a well-formed body followed by the closing quote. */
  lemma {:induction false} QuotedBodyEndSound(text: string, j: nat)
    requires j <= |text| && QuotedBodyEnd(text, j).Some?
    ensures QuotedBody(text[j..QuotedBodyEnd(text, j).value - 1])
    decreases |text| - j
  {
    var e := QuotedBodyEnd(text, j).value;
    if text[j] == '"' {
    } else if text[j] == '\\' {
      QuotedBodyEndSound(text, j + 2);
      assert text[j..e - 1][2..] == text[j + 2..e - 1];
    } else {
      QuotedBodyEndSound(text, j + 1);
      assert text[j..e - 1][1..] == text[j + 1..e - 1];
    }
  }

  /** Conversely, a well-formed body followed by a quote is scanned up to exactly that quote. */
  lemma {:induction false} QuotedBodyEndComplete(text: string, j: nat, e: nat)
    requires j < e <= |text| && text[e - 1] == '"' && QuotedBody(text[j..e - 1])
    ensures QuotedBodyEnd(text, j) == Some(e)
    decreases e - j
  {
    var s := text[j..e - 1];
    if s == [] {
    } else if s[0] == '\\' {
      assert s[2..] == text[j + 2..e - 1];
      QuotedBodyEndComplete(text, j + 2, e);
    } else {
      assert s[1..] == text[j + 1..e - 1];
      QuotedBodyEndComplete(text, j + 1, e);
    }
  }

  /** A string token spans a quote, a well-formed body and a quote, and nothing else does. */
  lemma QuotedEndIff(text: string, i: nat, e: nat)
    requires i <= |text|
    ensures QuotedEnd(text, i) == Some(e) <==>
      i + 2 <= e <= |text| && text[i] == '"' && text[e - 1] == '"' && QuotedBody(text[i + 1..e - 1])
  {
    if QuotedEnd(text, i) == Some(e) {
      QuotedBodyEndSound(text, i + 1);
    }
    if i + 2 <= e <= |text| && text[i] == '"' && text[e - 1] == '"' && QuotedBody(text[i + 1..e - 1]) {
      QuotedBodyEndComplete(text, i + 1, e);
    }
  }

  // ---------------------------------------------------------------- numbers

  predicate IsNumberStart(ch: char) {
    IsDigit(ch) || ch == '.' || ch == '+' || ch == '-'
  }

  predicate IsSign(ch: char) {
    ch == '+' || ch == '-'
  }

  function Pow10(n: nat): (p: nat)
    ensures p >= 1
  {
    if n == 0 then 1 else 10 * Pow10(n - 1)
  }

  /** The number a digit string denotes in positional decimal notation. */
  function DecimalValue(ds: string): nat
    requires forall k :: 0 <= k < |ds| ==> IsDigit(ds[k])
    decreases |ds|
  {
    if ds == [] then 0 else DigitValue(ds[0]) * Pow10(|ds| - 1) + DecimalValue(ds[1..])
  }

  lemma HornerStep(h: int, p: int, a: int, d: int)
    ensures h * (10 * p) + (a * 10 + d) == (h * p + a) * 10 + d
  {
  }

  lemma LeadingDigitBound(d: int, p: int, r: int)
    requires 0 <= d < 10 && 0 <= r < p
    ensures d * p + r < 10 * p
  {
    assert (9 - d) * p >= 0;
  }

  /** Reading one more digit multiplies the value so far by ten and adds the digit (Horner's rule). */
  lemma {:induction false} DecimalValueExtend(ds: string, d: char)
    requires forall k :: 0 <= k < |ds| ==> IsDigit(ds[k])
    requires IsDigit(d)
    ensures DecimalValue(ds + [d]) == DecimalValue(ds) * 10 + DigitValue(d)
    decreases |ds|
  {
    if ds != [] {
      assert (ds + [d])[1..] == ds[1..] + [d];
      DecimalValueExtend(ds[1..], d);
      var h, p := DigitValue(ds[0]), Pow10(|ds| - 1);
      assert DecimalValue(ds + [d]) == h * (10 * p) + DecimalValue(ds[1..] + [d]);
      assert DecimalValue(ds) == h * p + DecimalValue(ds[1..]);
      HornerStep(h, p, DecimalValue(ds[1..]), DigitValue(d));
    }
  }

  /** Accumulating the digit at `p` onto the digits `text[d0..p]`. */
  lemma DecimalValueStep(text: string, d0: nat, p: nat)
    requires d0 <= p < |text| && IsDigit(text[p])
    requires forall k :: d0 <= k < p ==> IsDigit(text[k])
    ensures forall k :: d0 <= k < p + 1 ==> IsDigit(text[k])
    ensures DecimalValue(text[d0..p + 1]) == DecimalValue(text[d0..p]) * 10 + DigitValue(text[p])
  {
    assert text[d0..p + 1] == text[d0..p] + [text[p]];
    DecimalValueExtend(text[d0..p], text[p]);
  }

  /** A run of n digits denotes a number below 10^n. */
  lemma {:induction false} DecimalValueBound(ds: string)
    requires forall k :: 0 <= k < |ds| ==> IsDigit(ds[k])
    ensures DecimalValue(ds) < Pow10(|ds|)
    decreases |ds|
  {
    if ds != [] {
      DecimalValueBound(ds[1..]);
      var d, p := DigitValue(ds[0]), Pow10(|ds| - 1);
      assert DecimalValue(ds) == d * p + DecimalValue(ds[1..]);
      LeadingDigitBound(d, p, DecimalValue(ds[1..]));
    }
  }

  /** At most eighteen digits cannot overflow the source's `int64_t` accumulator. */
  lemma EighteenDigitsFitInt64(ds: string)
    requires forall k :: 0 <= k < |ds| ==> IsDigit(ds[k])
    requires |ds| <= 18
    ensures DecimalValue(ds) < 0x8000_0000_0000_0000
  {
    DecimalValueBound(ds);
    Pow10Monotone(|ds|, 18);
    assert Pow10(3) == 1000;
    assert Pow10(6) == 1000000;
    assert Pow10(9) == 1000000000;
    assert Pow10(12) == 1000000000000;
    assert Pow10(15) == 1000000000000000;
    assert Pow10(18) == 1000000000000000000;
  }

  lemma {:induction false} Pow10Monotone(m: nat, n: nat)
    requires m <= n
    ensures Pow10(m) <= Pow10(n)
    decreases n
  {
    if m < n {
      Pow10Monotone(m, n - 1);
    }
  }

  /** Index of the first digit of a number starting at `i`: past an optional sign. */
  function DigitsStart(text: string, i: nat): (d: nat)
    requires i <= |text|
    ensures i <= d <= |text| && d <= i + 1
    ensures d == i + 1 <==> IsSign(At(text, i))
  {
    if IsSign(At(text, i)) then i + 1 else i
  }

  /** End of the integral digit run of a number starting at `i`. */
  function IntegralEnd(text: string, i: nat): nat
    requires i <= |text|
  {
    ScanEnd(text, DigitsStart(text, i), IsDigit, false)
  }

  /** A `.` after the integral digits makes the number FLOATING. */
  predicate IsFloating(text: string, i: nat)
    requires i <= |text|
  {
    At(text, IntegralEnd(text, i)) == '.'
  }

  /** End of the number lexeme starting at `i` (`eat_number`). */
  function NumberEnd(text: string, i: nat): (e: nat)
    requires i <= |text|
    ensures i <= e <= |text|
    ensures IsNumberStart(At(text, i)) ==> i < e
  {
    var d1 := IntegralEnd(text, i);
    if At(text, d1) == '.' then ScanEnd(text, d1 + 1, IsDigit, false) else d1
  }

  /** The value of an INTEGER token starting at `i`: sign times the decimal value of its digits. */
  function IntegerValue(text: string, i: nat): int
    requires i <= |text|
  {
    var d0 := DigitsStart(text, i);
    ScanEndRun(text, d0, IsDigit, false);
    (if At(text, i) == '-' then -1 else 1) * DecimalValue(text[d0..IntegralEnd(text, i)])
  }

  /**
   * The token `eat_number` emits for the number starting at cursor `c`. As in the source,
   * its line and column are those of the cursor after the number.
   */
  function NumberToken(text: string, c: Cursor): Token
    requires c.pos <= |text|
  {
    var e := NumberEnd(text, c.pos);
    var after := Advance(c, text[c.pos..e]);
    if IsFloating(text, c.pos) then Token(Floating, 0, after.line, after.col, Span(c.pos, e - c.pos))
    else Token(Integer, IntegerValue(text, c.pos), after.line, after.col, Span(c.pos, e - c.pos))
  }

  /** The INTEGER token of a number without a `.`. */
  lemma IntegerToken(text: string, c: Cursor)
    requires c.pos <= |text| && !IsFloating(text, c.pos)
    ensures NumberEnd(text, c.pos) == IntegralEnd(text, c.pos)
    ensures var after := Advance(c, text[c.pos..IntegralEnd(text, c.pos)]);
      NumberToken(text, c) ==
      Token(Integer, IntegerValue(text, c.pos), after.line, after.col, Span(c.pos, IntegralEnd(text, c.pos) - c.pos))
  {
  }

  /** The FLOATING token of a number with a `.` after its integral digits. */
  lemma FloatingToken(text: string, c: Cursor)
    requires c.pos <= |text| && IsFloating(text, c.pos)
    ensures NumberEnd(text, c.pos) == ScanEnd(text, IntegralEnd(text, c.pos) + 1, IsDigit, false)
    ensures var e := NumberEnd(text, c.pos); var after := Advance(c, text[c.pos..e]);
      NumberToken(text, c) == Token(Floating, 0, after.line, after.col, Span(c.pos, e - c.pos))
  {
  }

  // ---------------------------------------------------------------- identifiers

  function IdentEnd(text: string, i: nat): nat
    requires i <= |text|
  {
    ScanEnd(text, i, IsIdentBody, false)
  }

  /** A keyword maps to its own kind, every other word is an IDENTIFIER. */
  function WordKind(word: string): Kind {
    match KeywordKind(word)
    case Some(k) => k
    case None => Identifier
  }

  /**
   * The token `eat_keyword_or_identifier` emits at cursor `c`; its line and column are
   * those of the cursor after the word.
   */
  function WordToken(text: string, c: Cursor): Token
    requires c.pos <= |text|
  {
    var e := IdentEnd(text, c.pos);
    var after := Advance(c, text[c.pos..e]);
    Token(WordKind(text[c.pos..e]), 0, after.line, after.col, Span(c.pos, e - c.pos))
  }

  // ---------------------------------------------------------------- tokenize

  /** A `//` comment: the two slashes, the rest of the line, then the newline characters after it. */
  function CommentSkip(text: string, c: Cursor): (r: Cursor)
    requires Matches(text, c.pos, "//")
    ensures c.pos + 2 <= r.pos <= |text|
  {
    var c2 := Advance(c, "//");
    var c3 := Skip(text, c2, IsNewline, true);
    Skip(text, c3, IsNewline, false)
  }

  /** Outcome of `tokenize`: the verdict, the tokens it appended and the final cursor. */
  datatype LexOut = LexOut(ok: bool, tokens: seq<Token>, cursor: Cursor)

  function Prepend(ts: seq<Token>, out: LexOut): LexOut {
    out.(tokens := ts + out.tokens)
  }

  lemma SuffixSplit(s: seq<Token>, p: seq<Token>, i: nat)
    requires i <= |p| <= |s| && s[..|p|] == p
    ensures s[i..] == p[i..] + s[|p|..]
  {
    assert s[i..] == s[i..|p|] + s[|p|..];
    assert s[i..|p|] == p[i..];
  }

  lemma PrependTwice(ts: seq<Token>, us: seq<Token>, out: LexOut)
    ensures Prepend(ts, Prepend(us, out)) == Prepend(ts + us, out)
  {
    assert ts + (us + out.tokens) == (ts + us) + out.tokens;
  }

  /** `tokenize` from cursor `c`: skip whitespace, then dispatch on the next character. */
  function LexFrom(text: string, c: Cursor): LexOut
    requires c.pos <= |text|
    decreases |text| - c.pos, 1
  {
    LexAt(text, Skip(text, c, IsSpace, false))
  }

  /** One iteration of `tokenize`'s loop at cursor `c`, where whitespace has been skipped. */
  function LexAt(text: string, c: Cursor): LexOut
    requires c.pos <= |text|
    decreases |text| - c.pos, 0
  {
    var ch := At(text, c.pos);
    if ch == '\0' then
      LexOut(true, [Token(EOF, 0, c.line, c.col, Span(c.pos, 1))], c)
    else if IsPunctuation(ch) then
      Prepend([Token(PunctuationKind(ch), 0, c.line, c.col, Span(c.pos, 1))], LexFrom(text, Step(c, ch)))
    else if ch == '/' then
      if Matches(text, c.pos, "//") then LexFrom(text, CommentSkip(text, c))
      else LexOut(false, [], c)  // the source loops forever here (see README, Findings)
    else if ch == '"' then
      match QuotedEnd(text, c.pos)
      case None => LexOut(false, [], c)
      case Some(e) =>
        Prepend([Token(String, 0, c.line, c.col, Span(c.pos, e - c.pos))], LexFrom(text, Advance(c, text[c.pos..e])))
    else if IsNumberStart(ch) then
      Prepend([NumberToken(text, c)], LexFrom(text, Advance(c, text[c.pos..NumberEnd(text, c.pos)])))
    else if IsIdentHead(ch) then
      Prepend([WordToken(text, c)], LexFrom(text, Advance(c, text[c.pos..IdentEnd(text, c.pos)])))
    else
      LexOut(false, [], Skip(text, c, IsSpace, true))  // unknown lexeme
  }
}
