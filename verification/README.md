# SON lexer and dynamic value, in Dafny

SON is a small JSON-like data notation. This project models two parts of its C++
implementation:

- the **lexer** in `src/parser.cpp`. It turns the text of a SON document into a stream
  of tokens. Each token has a kind, an integer payload, a line and column, and a span
  of the text. The tokens are punctuation, `null`/`true`/`false`, identifiers,
  integers, floating numbers and quoted strings, followed by one end-of-file token.
  Whitespace and `//` comments are skipped.
- the **dynamic value** `son` in `include/value.hpp` and `src/value.cpp`. A value is a
  tag (null, boolean, integer, floating, string, object, array) with a payload. It
  provides type queries, checked getters, structural equality, `size`/`empty`,
  key lookup with auto-vivification, `push`, `clear`, copy, move and swap, and an
  iterator.

How the modules fit together:

| module | file | contents |
|---|---|---|
| `Chars` | `chars.dfy` | the character classes of the lexer |
| `Tokens` | `tokens.dfy` | token kinds and their codes, tokens, spans, and the cursor (position, line, column, line start) with its step and advance functions |
| `LexSpec` | `lexspec.dfy` | a pure specification of every lexing step, and of the whole run as `LexFrom`/`LexAt`, which return the success flag, the tokens and the final cursor |
| `LexProps` | `lexprops.dfy` | what the token stream looks like: every token is a well-formed lexeme of its kind, tokens are in source order, a successful run ends with exactly one EOF, and whitespace and comments emit nothing |
| `Lexing` | `lexer.dfy` | class `Lexer`, the mutable lexer state (cursor and token stream); each `eat_*` routine is a method proved against `LexSpec` |
| `Values` | `values.dfy` | the datatype `Son` and the value-level operations with their properties |
| `Mutators` | `mutators.dfy` | class `SonVar`, a `son` variable whose constructors, assignments and mutators are proved against `Values` |
| `Findings` | `findings.dfy` | two defects of `tokenize` as written, next to the corrected behaviour (the third finding, on `push(value)`, lives in `Values` and `Mutators`) |

Integers are `uint64_t` in the value (`u64`, an explicit 64-bit range) and `int64_t` in
a token. Floating values are carried as their 64-bit pattern. The lexer's text is a
`string` in which each character stands for one byte of the buffer; the end of the buffer and an embedded NUL both read as `'\0'`, as `get_char`
does.

## Model

| member | source | states |
|---|---|---|
| Chars.IsAlpha | src/parser.cpp:147 | definition only: an ASCII letter; `Chars.IsIdentBody` relates the classes |
| Chars.IsDigit | src/parser.cpp:148 | definition only: `'0'` to `'9'`; `Chars.DigitValue` gives its value |
| Chars.IsNewline | src/parser.cpp:149 | definition only: line feed or carriage return; `Tokens.AdvanceCountsLines` states how it moves the line |
| Chars.IsSpace | src/parser.cpp:150 | definition only: space, tab or a newline; `LexProps.SkipSpacesIdempotent` and `LexProps.WhitespaceEmitsNothing` state its role |
| Chars.IsIdentHead | src/parser.cpp:151 | definition only: a letter or `_`; `Chars.IsIdentBody` states that every head is a body character |
| Chars.IsIdentBody | src/parser.cpp:147-152 | every identifier head is also an identifier body character, and no body character is whitespace or NUL |
| Chars.DigitValue | src/parser.cpp:487-493 | a digit's value is below 10 and is its distance from `'0'` |
| Tokens.Code | src/parser.cpp:11-38 | definition only: the value of each `kind_t` enumerator; `Tokens.CodeInjective` and `Tokens.PunctuationKind` characterise it |
| Tokens.CodeInjective | src/parser.cpp:11-38 | distinct token kinds have distinct codes |
| Tokens.PunctuationKind | src/parser.cpp:285-301 | each of the nine punctuation characters maps to a punctuation kind whose code is that character |
| Tokens.KeywordKind | src/parser.cpp:176-180 | a word is a keyword exactly when it is `null`, `true` or `false`, and then it maps to that keyword's kind |
| Tokens.Step | src/parser.cpp:193-208 | definition only: the cursor after consuming one character; a newline moves to column 1 of the next line, which starts after it |
| Tokens.Advance | src/parser.cpp:193-208 | the cursor after consuming a sequence of characters one by one moves the position by their number; `AdvanceCountsLines`, `AdvanceWithinLine`, `AdvanceAfterNewline` and `AdvanceConcat` state the line and column |
| Tokens.AdvanceCountsLines | src/parser.cpp:193-208 | consuming characters raises the line counter by the number of newlines among them |
| Tokens.AdvanceWithinLine | src/parser.cpp:193-208 | consuming characters without a newline raises the position and the column by their number and keeps the line |
| Tokens.AdvanceAfterNewline | src/parser.cpp:193-208 | after the last newline consumed, the column counts the characters after it and the line starts right after it |
| Tokens.AdvanceConcat | src/parser.cpp:193-208 | consuming two pieces one after the other is the same as consuming them joined |
| LexSpec.At | src/parser.cpp:185-191 | definition only: the character under a position, NUL at the end of the text, as `get_char` reads it |
| LexSpec.ScanEnd | src/parser.cpp:210-242 | a scan stops inside the text, at NUL or at the first character whose predicate answers the stop value |
| LexSpec.ScanEndRun | src/parser.cpp:210-242 | every character a scan passes over is non-NUL and does not stop it |
| LexSpec.ScanEndUnique | src/parser.cpp:210-242 | any position with those two properties is where the scan stops |
| LexSpec.Skip | src/parser.cpp:210-242 | skipping moves the cursor to the scan's stop position |
| LexSpec.Matches | src/parser.cpp:244-280 | definition only: the literal occurs at the position; `Lexing.Lexer.EatString` is proved to consume it exactly when it holds |
| LexSpec.MatchesStep | src/parser.cpp:244-280 | helper: one more equal character extends the matched prefix of the literal |
| LexSpec.MatchesFails | src/parser.cpp:244-280 | a NUL or a different character after a matched prefix means the literal does not match |
| LexSpec.QuotedBody | src/parser.cpp:381-408 | definition only: a string body of escape pairs and plain characters; `QuotedBodyEndSound` and `QuotedBodyEndComplete` tie it to the scan |
| LexSpec.QuotedBodyEnd | src/parser.cpp:381-408 | a successful string scan ends after a closing quote inside the text |
| LexSpec.QuotedEnd | src/parser.cpp:366-425 | a string lexeme starts and ends with a quote and is at least two characters long |
| LexSpec.QuotedBodyEndSound | src/parser.cpp:381-408 | what the scan accepts between the quotes holds no unescaped quote, NUL or newline, and no dangling backslash |
| LexSpec.QuotedBodyEndComplete | src/parser.cpp:381-408 | every such body followed by a quote is accepted, ending exactly after that quote |
| LexSpec.QuotedEndIff | src/parser.cpp:366-425 | a string lexeme ends at `e` if and only if it opens with a quote, `e - 1` holds a quote and what lies between is a valid body |
| LexSpec.Pow10 | src/parser.cpp:487-493 | helper: every power of ten is positive |
| LexSpec.DecimalValue | src/parser.cpp:487-493 | definition only: the decimal value of a run of digits; `DecimalValueExtend` states the accumulation step |
| LexSpec.DecimalValueExtend | src/parser.cpp:487-493 | appending a digit multiplies the accumulated value by ten and adds the digit |
| LexSpec.DecimalValueStep | src/parser.cpp:487-493 | the same step, stated on a run of digits inside the text |
| LexSpec.DecimalValueBound | src/parser.cpp:487-493 | a run of n digits has a value below ten to the n |
| LexSpec.EighteenDigitsFitInt64 | src/parser.cpp:487-493 | up to eighteen digits accumulate without overflowing `int64_t` |
| LexSpec.Pow10Monotone | src/parser.cpp:487-493 | helper: powers of ten grow with the exponent |
| LexSpec.DigitsStart | src/parser.cpp:481-485 | the digits start one past the number's first character exactly when that character is a sign, and at it otherwise |
| LexSpec.IntegerValue | src/parser.cpp:481-493 | definition only: the sign times the decimal value of the integral digits, the value `eat_number` stores at line 526; `LexProps.IntegerTokenWellFormed` states it for every integer token |
| LexSpec.NumberEnd | src/parser.cpp:466-530 | a number lexeme stays inside the text and takes at least one character when it starts with a digit, `.`, `+` or `-` |
| LexSpec.NumberToken | src/parser.cpp:466-530 | definition only: the Integer or Floating token of the number at the cursor; `LexProps.NumberTokenWellFormed` states what it covers and its value |
| LexSpec.WordToken | src/parser.cpp:427-464 | definition only: the keyword or identifier token of the word at the cursor; `LexProps.WordTokenWellFormed` states its meaning |
| LexSpec.CommentSkip | src/parser.cpp:309-316 | a comment skip consumes at least the two slashes and stays inside the text |
| LexSpec.LexFrom | src/parser.cpp:282-363 | definition only: the run of `tokenize` from a cursor (skip whitespace, then one pass); its properties are the `LexProps` lemmas and `Lexing.Lexer.Tokenize` is proved equal to it |
| LexSpec.LexAt | src/parser.cpp:285-362 | definition only: one pass of `tokenize`'s loop at a cursor whose whitespace is skipped, with EOF at NUL |
| LexSpec.PrependTwice | src/parser.cpp:282-363 | the tokens of two passes prepended one after the other are those of both passes together |
| LexProps.OneDot | src/parser.cpp:495-517 | helper: digits, one dot and digits hold exactly one dot |
| LexProps.FloatingParts | src/parser.cpp:495-517 | a floating lexeme's characters after the sign are digits or a dot, with exactly one dot |
| LexProps.FloatingLexeme | src/parser.cpp:495-517 | the text a floating token covers is a floating lexeme |
| LexProps.FloatingTokenWellFormed | src/parser.cpp:495-517 | a floating token is well formed for its text |
| LexProps.IntegerTokenWellFormed | src/parser.cpp:466-530 | an integer token covers an optional sign and digits, and its value is the signed decimal value of those digits |
| LexProps.NumberTokenWellFormed | src/parser.cpp:466-530 | every number token is well formed for its text |
| LexProps.DigitlessNumber | src/parser.cpp:481-517 | a lone sign becomes an Integer token of value 0, and a lone dot a Floating token, each one character long |
| LexProps.WordTokenWellFormed | src/parser.cpp:427-464 | an identifier token is a non-keyword word of identifier characters; a keyword token's text is its keyword |
| LexProps.StringTokenWellFormed | src/parser.cpp:366-425 | a string token covers the quotes and a valid body |
| LexProps.LexFromWellFormed | src/parser.cpp:282-363 | every token of a run is well formed for the text: its span is inside the text and is a lexeme of its kind with the right value, and EOF sits at the end |
| LexProps.LexAtWellFormed | src/parser.cpp:282-363 | the same for a run that starts at a lexeme |
| LexProps.PrependInOrder | src/parser.cpp:282-363 | helper: a token ending before an in-order stream keeps it in order |
| LexProps.LexFromInOrder | src/parser.cpp:282-363 | a run's tokens start at or after the cursor and do not overlap, in source order |
| LexProps.LexAtInOrder | src/parser.cpp:282-363 | the same for a run that starts at a lexeme |
| LexProps.PunctuationLexeme | src/parser.cpp:285-307 | a punctuation character gives one token whose code is that character, one character long at the cursor, and lexing goes on after it |
| LexProps.FailingLexemes | src/parser.cpp:317-345 | an unterminated string fails with no token and the cursor on the quote; a character that starts no lexeme fails with the cursor after the text up to the next whitespace |
| LexProps.PrependKeepsEOF | src/parser.cpp:348-362 | helper: a non-EOF token before a stream with one final EOF keeps that property |
| LexProps.LexFromSingleEOF | src/parser.cpp:348-362 | a successful run ends with exactly one EOF token and a failed one holds none |
| LexProps.LexAtSingleEOF | src/parser.cpp:348-362 | the same for a run that starts at a lexeme |
| LexProps.SkipSpacesIdempotent | src/parser.cpp:284 | skipping whitespace twice is skipping it once |
| LexProps.SkipFromInside | src/parser.cpp:284 | skipping whitespace from anywhere inside a run of whitespace ends where it ends from its start |
| LexProps.WhitespaceEmitsNothing | src/parser.cpp:284 | whitespace consumed before a run changes neither its tokens nor its outcome |
| LexProps.CommentEmitsNothing | src/parser.cpp:309-316 | a comment changes neither the tokens nor the outcome |
| Lexing.Lexer.constructor | src/parser.cpp:157-173 | a new lexer is at position 0, line 1, column 1, with no tokens |
| Lexing.Lexer.Checkpoint | src/parser.cpp:182 | definition only: the lexer's state as a cursor, as `get_checkpoint` returns it |
| Lexing.Lexer.Current | src/parser.cpp:185-191 | definition only: the character under the cursor, NUL at the end, as `get_char` returns it |
| Lexing.Lexer.Restore | src/parser.cpp:182-183 | restoring a checkpoint puts the cursor back and leaves the tokens alone |
| Lexing.Lexer.EatChar | src/parser.cpp:193-208 | consuming a character returns it, moves one position and updates line and column (a newline starts the next line) |
| Lexing.Lexer.EatWhile | src/parser.cpp:210-225 | the cursor moves over the run of characters satisfying the predicate, and the returned span covers exactly that run |
| Lexing.Lexer.EatUntil | src/parser.cpp:227-242 | the cursor moves up to the first character satisfying the predicate, and the returned span covers what was passed over |
| Lexing.Lexer.EatMatched | src/parser.cpp:244-280 | helper: one step of `eat_string` consumes the next character of the literal and keeps the matched prefix and the line and column in step |
| Lexing.Lexer.EatString | src/parser.cpp:244-280 | at an occurrence of the literal the cursor moves past it and the span covers it; otherwise the cursor does not move and the span is empty |
| Lexing.Lexer.EatTracked | src/parser.cpp:381-408 | helper: consuming one character keeps the cursor equal to the advance over the text consumed so far |
| Lexing.Lexer.EatQuotedBody | src/parser.cpp:381-408 | the body scan succeeds exactly when the specification accepts it, ending after the closing quote |
| Lexing.Lexer.EatQuotedString | src/parser.cpp:366-425 | succeeds exactly at a terminated string, appending one String token spanning the quotes at the opening cursor; on failure nothing changes |
| Lexing.Lexer.EatKeywordOrIdentifier | src/parser.cpp:427-464 | succeeds exactly at an identifier head, consuming the word and appending its keyword or identifier token; on failure nothing changes |
| Lexing.Lexer.EatDigits | src/parser.cpp:487-493 | consumes the run of digits and returns its decimal value |
| Lexing.Lexer.EatIntegral | src/parser.cpp:466-493 | consumes an optional sign and the integral digits and returns their signed value |
| Lexing.Lexer.EatFraction | src/parser.cpp:495-517 | consumes the dot and the fraction digits |
| Lexing.Lexer.EatNumber | src/parser.cpp:466-530 | succeeds exactly at a digit, `.`, `+` or `-`, consuming the number and appending its Integer or Floating token; on failure nothing changes |
| Lexing.Lexer.EatComment | src/parser.cpp:309-316 | succeeds exactly at `//`, skipping the comment and the newlines after it; otherwise nothing changes |
| Lexing.Lexer.EatToken | src/parser.cpp:285-345 | the dispatch on the character under the cursor consumes at least one character and appends exactly the tokens of the specification's pass; on failure it leaves the cursor where the specification does |
| Lexing.Lexer.EatLexeme | src/parser.cpp:285-345 | one pass of the loop consumes at least one character and appends exactly the tokens the specification's pass emits; on failure it leaves the cursor where the specification does |
| Lexing.Lexer.Tokenize | src/parser.cpp:282-363 | the outcome, the appended tokens and the final cursor are those of the specification's run from the starting cursor |
| Values.TypeOf | include/value.hpp:63 | definition only: the tag of a value, as `type()` returns it |
| Values.IsNull | include/value.hpp:65 | definition only: the tag is null; `QueriesPartition` characterises all seven queries |
| Values.IsBoolean | include/value.hpp:66 | definition only: the tag is boolean |
| Values.IsInteger | include/value.hpp:67 | definition only: the tag is integer |
| Values.IsFloating | include/value.hpp:68 | definition only: the tag is floating |
| Values.IsString | include/value.hpp:69 | definition only: the tag is string |
| Values.IsObject | include/value.hpp:70 | definition only: the tag is object |
| Values.IsArray | include/value.hpp:71 | definition only: the tag is array |
| Values.QueriesPartition | include/value.hpp:63-71 | exactly one type query holds for a value, and each holds exactly for its own tag |
| Values.GetBoolean | include/value.hpp:74 | the checked getter returns the payload that rebuilds the value |
| Values.GetInteger | include/value.hpp:75 | the checked getter returns the payload that rebuilds the value |
| Values.GetFloating | include/value.hpp:76 | the checked getter returns the payload that rebuilds the value |
| Values.TypeName | include/value.hpp:94-105 | definition only: the name of each tag, as `type_name` returns it |
| Values.TypeNamesDistinct | include/value.hpp:94-105 | every tag has a non-empty name, and two names are equal exactly when the tags are |
| Values.Equal | include/value.hpp:78 | definition only: equal tags and equal payloads, recursively for containers |
| Values.NotEqual | include/value.hpp:79 | definition only: the negation of `Equal`, as `operator!=` is |
| Values.EqualIsIdentity | include/value.hpp:78 | structural equality holds exactly for identical values |
| Values.NotEqualIsDistinct | include/value.hpp:79 | inequality holds exactly for different values |
| Values.Size | src/value.cpp:205-222 | definition only: 0 for null, 1 for a scalar or string, the element count of a container |
| Values.Empty | src/value.cpp:185-202 | definition only: true for null, false for a scalar or string, no elements for a container |
| Values.EmptyIffSizeZero | src/value.cpp:185-222 | a value is empty exactly when its size is zero; a string is never empty and has size 1 |
| Values.EndIndex | src/value.cpp:262-282 | definition only: the index `set_to_end` gives the iterator |
| Values.Deref | src/value.cpp:247-259 | definition only: what `operator*` denotes at an index: an object's value, an array's item, or the value itself |
| Values.EndIndexIsSize | src/value.cpp:262-282 | the end iterator's index is the size of an object or array, and 1 for any other value (for null, one more than its size) |
| Values.Iterate | src/value.cpp:247-282 | definition only: the values visited from index 0 to the end index; its length is the end index, and `IterateVisits` states its contents |
| Values.IterateVisits | src/value.cpp:247-282 | iteration visits an object's values in order, an array's items in order, and any other value as itself once |
| Values.Default | src/value.cpp:34-49 | the value built from a tag has that tag, and size 0 for null, object and array and 1 otherwise |
| Values.Cleared | src/value.cpp:225-244 | clearing keeps the tag |
| Values.ClearedIsDefault | src/value.cpp:225-244 | clearing gives the default value of the tag, is idempotent, and leaves only null, object and array empty |
| Values.KeyIndexed | src/value.cpp:138-156 | definition only: the value and index `operator[](key)` leaves and returns; `KeyIndexedSpec` characterises it |
| Values.Pushed | src/value.cpp:167-177 | definition only: `push(key, value)`; `PushedLookup` and `PushedDuplicateShadowed` characterise it |
| Values.FindKey | src/value.cpp:138-156 | a key lookup returns the first pair with the key, and none exactly when no pair has it |
| Values.KeyIndexedSpec | src/value.cpp:138-156 | indexing a present key returns its first index and changes nothing; an absent key is appended with a null value and its index is the old count; a null becomes a one-pair object |
| Values.KeyIndexedIdempotent | src/value.cpp:138-156 | indexing the same key twice is indexing it once |
| Values.PushedDuplicateShadowed | src/value.cpp:167-177 | pushing a key already present adds a pair but lookups still find the first one |
| Values.PushedLookup | src/value.cpp:167-177 | after `push(key, value)` a lookup of the key finds the first pair that already had it, or the pushed pair when none did; the size grows by one |
| Values.Assigned | src/value.cpp:138-156 | definition only: `v[key] = x`, the write through the reference `operator[](key)` returns |
| Values.AssignedSpec | src/value.cpp:138-156 | after `v[key] = x` the value is an object where a lookup of the key finds `x` at the index `operator[]` returned, every other pair is unchanged, and a pair is added only when the key was absent |
| Values.AssignedAutoVivifies | src/value.cpp:138-156 | assigning a key into null gives the one-pair object holding that key and value |
| Values.AssignedTwice | src/value.cpp:138-156 | assigning the same key twice is the same as assigning only the second value |
| Values.FindKeyFirst | src/value.cpp:138-156 | the first pair with the key is what the lookup returns |
| Values.ItemsOf | src/value.cpp:180-182 | definition only: the items of a null or array receiver, none for null |
| Values.ItemPushedAsWritten | src/value.cpp:180-182 | `push(value)` as written returns the receiver unchanged, so its size does not grow |
| Values.PushedItem | src/value.cpp:180-182 | definition only: `push(value)` as the design intends, null becoming an array and the item appended; `PushedItemSpec` characterises it |
| Values.PushedItemSpec | src/value.cpp:180-182 | the intended push gives an array one item longer whose earlier items are the receiver's and whose last item is the pushed one; on null it is `[x]`, and iteration visits the old items then `x` |
| Values.PushedItemTwice | src/value.cpp:180-182 | two intended pushes append both items in the order pushed |
| Values.PushStubDropsItem | src/value.cpp:180-182 | the push as written always leaves the size one short of the intended push, and keeps a null receiver null where the design gives `[x]` |
| Values.FromSigned | include/value.hpp:25-30 | a signed 64-bit integer stored as `uint64_t` is congruent to it modulo 2^64 |
| Values.ToSigned | include/value.hpp:25-30 | a `uint64_t` read back as signed is in the `int64_t` range and congruent to it modulo 2^64 |
| Values.SignedRoundTrip | include/value.hpp:25-30 | the two conversions are inverse, and non-negative integers keep their value |
| Mutators.SonVar.constructor | src/value.cpp:22-31 | a new variable is null, and empty |
| Mutators.SonVar.OfType | src/value.cpp:34-49 | the variable holds the default value of the tag |
| Mutators.SonVar.OfBoolean | src/value.cpp:52-55 | the variable is a boolean whose getter returns the argument |
| Mutators.SonVar.OfInteger | src/value.cpp:58-61 | the variable is an integer whose getter returns the argument |
| Mutators.SonVar.OfFloating | src/value.cpp:64-67 | the variable is a floating whose getter returns the argument |
| Mutators.SonVar.OfString | src/value.cpp:70-73 | the variable is a string holding the characters, of size 1 |
| Mutators.SonVar.Copy | src/value.cpp:81-112 | the copy is structurally equal to the source, which is not changed |
| Mutators.SonVar.Move | src/value.cpp:115-117 | the new variable takes the source's value and the source becomes null |
| Mutators.SonVar.Swap | src/value.cpp:132-135 | the two variables exchange their values |
| Mutators.SonVar.CopyAssign | src/value.cpp:120-123 | the target takes the source's value and the source is not changed |
| Mutators.SonVar.MoveAssign | src/value.cpp:126-129 | the target takes the source's value and the source takes the target's old value |
| Mutators.SonVar.IndexKey | src/value.cpp:138-156 | the variable and the returned index are those of indexing the key, so a present key is found at its first pair and an absent one appended |
| Mutators.SonVar.IndexArray | src/value.cpp:159-164 | the element returned is the array's item at the index, which iteration also visits at that index |
| Mutators.SonVar.SetValueAt | src/value.cpp:149-155 | a write through the reference `operator[](key)` returned replaces that pair's value and keeps its key and every other pair |
| Mutators.SonVar.AssignKey | src/value.cpp:138-156 | `v[key] = x` indexes the key and writes through the reference, giving the value `Assigned` describes |
| Mutators.SonVar.AssignItem | src/value.cpp:159-164 | `v[i] = x` on an array replaces the item at `i`, which iteration then visits, and keeps the length and every other item |
| Mutators.SonVar.PushKey | src/value.cpp:167-177 | the variable becomes the old value with the pair appended, a null first becoming an object |
| Mutators.SonVar.Push | src/value.cpp:180-182 | as written, pushing a plain value changes nothing, which is `ItemPushedAsWritten` |
| Mutators.SonVar.PushItem | src/value.cpp:180-182 | the corrected push: the variable becomes the intended `PushedItem` of its old value, a null first becoming an array |
| Mutators.SonVar.Clear | src/value.cpp:225-244 | the variable becomes the cleared value |
| Findings.SlashPassAsWritten | src/parser.cpp:284-316 | definition only: one pass of the loop as written restricted to its `/` branch; `LoneSlashLoopsForever` states what repeating it does |
| Findings.SlashPassesAsWritten | src/parser.cpp:284-316 | after at least one pass, a skipped-to `/` that does not start a comment is where every further pass ends |
| Findings.LoneSlashLoopsForever | src/parser.cpp:309-316 | as written, a `/` that does not start a comment leaves the cursor on the `/` after any number of passes |
| Findings.LoneSlashExample | src/parser.cpp:309-316 | the text `/` alone is such an input |
| Findings.LoneSlashRejected | src/parser.cpp:309-316 | corrected, that `/` ends lexing with failure, no token and the cursor on it |
| Findings.QuotedReachAsWritten | src/parser.cpp:381-408 | definition only: where the string scan as written stops, stepping two after a backslash without checking the end; `TrailingBackslashOverruns` states the overrun |
| Findings.TrailingBackslashOverruns | src/parser.cpp:381-390 | as written, a string ending in a backslash moves the cursor one place past the end of the text |
| Findings.TrailingBackslashRejected | src/parser.cpp:381-390 | corrected, such a string is rejected as unterminated |

## Left out

- Reading the file (`read_whole_file`) and `parser::parse` are I/O and not modelled. The lexer takes its text as a parameter.
- Diagnostics (`printf` of unknown lexemes, `print_token`, `to_string` of a kind) are output only and not modelled.
- Floating-point arithmetic is not modelled. A floating value is kept as its 64-bit pattern.
- LexSpec.NumberToken: `eat_number` stores the `double` it computes in the token's value union. The model does not compute that `double`; a Floating token carries 0 in its integer field instead.
- LexSpec.IntegerValue: an unbounded integer. It does not model the `int64_t` overflow of the accumulation for numbers of more than eighteen digits. EighteenDigitsFitInt64 bounds where the two agree.
- The keyword table (`std::unordered_map`) is modelled as a three-way lookup on the word, not as a hash map.
- Memory management, the destructor, and ownership of the heap payload are not modelled. `Move` and `Swap` model only the values that change hands.
- `son(std::initializer_list<son>)` is an empty stub in `src/value.cpp` and is not modelled.
- `create`, `get` and `operator==` are declared but never defined. `Equal` is structural, with floating values compared by bit pattern.
- The header declares `empty` as returning `size_t` and `clear` as a `const` member returning `size_t`. `src/value.cpp` defines `bool empty() const` and `void clear()`, and those definitions are modelled.
- The constructor `son(const char*)` is defined but not declared in the header. It is modelled as defined.
- The iterator class is used by `src/value.cpp` but not declared in the header. Its `operator*` and `set_to_end` are modelled as `Deref`, `EndIndex` and `Iterate`.
- Lexing.Lexer.EatChar requires a character to be left. The source does not check, and every caller in the corrected model meets the requirement. Reading past the end is the subject of the trailing-backslash finding.
- Mutators.SonVar.IndexArray requires an array and an index inside it. The source asserts that the value is an array, but not that the `int32_t` index is in range, so a negative or out-of-range index is undefined behaviour there. Mutators.SonVar.AssignItem has the same requirement.
- Mutators.SonVar.IndexKey and Mutators.SonVar.PushKey require a null or object receiver; the source asserts it. Mutators.SonVar.Push and Mutators.SonVar.PushItem require a null or array receiver, as the source asserts.
- Mutators.SonVar.IndexKey and Mutators.SonVar.IndexArray: the source returns a `son&` into the container. The model returns the pair's index, or a copy of the item. A write through that reference is modelled as SetValueAt, AssignKey and AssignItem. A reference kept while the container is later changed (aliasing, and a reference left dangling by a reallocation) is not modelled.
- Each `char` of the lexer's text stands for one byte of the buffer. Multi-byte encodings such as UTF-8 are not modelled. In the source, a non-ASCII character counts as several columns and several span units.
- An embedded NUL is read as `'\0'`, as `get_char` returns it. Where the lexer meets an unescaped NUL, lexing ends with the EOF token, or a string in progress fails as unterminated; what follows it is not lexed. An escaped NUL inside a string is consumed with its backslash like any other character, and the string scan continues (`LexSpec.QuotedBodyEnd`, `Lexing.Lexer.EatQuotedBody`).
- The final `return false` of `tokenize` is unreachable once the loop ends at NUL and is not modelled.
- Line and column follow the source. Punctuation, string and EOF tokens take the cursor before the lexeme. Identifier, keyword and number tokens take the cursor after it.
- `parser.hpp` and the example programs are not part of this model.

## Findings

| source | as written | input that shows it | evidently intended | confidence | as-written member | corrected member |
|---|---|---|---|---|---|---|
| src/parser.cpp:309-316 | at a `/` that does not start a comment, `eat_string("//")` fails, restores the cursor and falls out of the branch; the loop then reads the same `/` again forever | `/` | fail at the `/` with no token, leaving the cursor on it, so that `tokenize` returns false | not executed | Findings.LoneSlashLoopsForever | Findings.LoneSlashRejected |
| src/value.cpp:180-182 | `push(const son&)` only asserts that the receiver is null or an array, and stores nothing | a null value and `push(1)` | a null receiver becomes the array `[1]`, and an array receiver gains the item at its end, as `push(key, value)` does for objects | not executed | Values.PushStubDropsItem | Mutators.SonVar.PushItem |
| src/parser.cpp:381-390 | after a backslash the loop consumes two characters without checking for the end; a backslash as the last character moves the cursor past the end, where `get_char` no longer returns 0 and reads outside the buffer | `"\` | treat a backslash with no following character as an unterminated string | not executed | Findings.TrailingBackslashOverruns | Findings.TrailingBackslashRejected |
