# pyMEML parser, modelled in Dafny

pyMEML reads a small configuration language. A document is a mapping, written
between `{` and `}`, with one line per entry. Each entry is `key: tuple`. A
tuple is zero or more values on one line. A value can be:

- a quoted string;
- an integer or a float;
- a bare keyword;
- a nested mapping `{ … }`;
- a list `[ … ]` whose rows are tuples.

`pymeml/parser.py` does the reading in two stages. `tokenize` splits the text
with one regular expression. Then class `Parser` runs a recursive descent over
the tokens with a cursor `pos`.

The model follows that shape, one module per part.

- `MemlValues` (values.dfy) holds the value model:
  - the `Value`, `Tuple` and `Entry` datatypes;
  - the two error kinds: a structural mismatch, which Python raises as
    `SyntaxError`, and an invalid token, which it raises as `ValueError`;
  - an insertion-ordered dictionary.

  `Keyword` is a constructor of its own. A float keeps its sign and its two
  digit runs as written.
- `MemlLexemes` (lexemes.dfy) holds the character classes and token shapes.
  The tokenizer and scalar coercion share them.
- `MemlLexer` (lexer.dfy) models the tokenizer.
  - The token expression is an explicit ordered-choice scanner, `NextMatch`.
  - `LexFrom`/`LexAt` give the tokens that `finditer` and the comment filter
    yield from a position on.
  - `Tokenize` is the imperative loop of `tokenize`, proved equal to `Lex`.
- `MemlParser` (parser.dfy) models the parser.
  - Each parsing routine has a specification function over the tokens that
    remain: `DictSpec`, `EntriesSpec`, `EntrySpec`, `TupleSpec`, `ItemSpec`,
    `ListSpec` and `RowsSpec`. Each returns the value and the tokens left over,
    or the error.
  - Class `Parser` holds the token list and the mutable `pos`. Its methods
    advance `pos` step by step, as the source does. Each method is proved to
    agree with its specification function.
  - `EntrySpec`, `ItemSpec` and method `ParseEntry` are the bodies of the
    `parse_dict` and `parse_tuple` loops, written out on their own.
  - `ParseValue` is `parse_value`.
- `MemlParserFacts` (parser_facts.dfy) proves properties of the specification
  functions:
  - how scalar coercion classifies a token;
  - that tokens after the root mapping are never read;
  - that mapping keys stay unique;
  - what the typical malformed inputs give.
- `MemlParserEnds` (parser_ends.dfy) proves where each routine stops. What
  remains is always a suffix of its input. A mapping or list that parses has
  just consumed its `}` or `]`, so none parses from tokens without one.
- `MemlRender` (render.dfy) is a renderer from values back to tokens. The
  source has no renderer; here it serves as the parser's reference. A string
  is written between double quotes, or between single quotes when it holds a
  double quote.
  `DocumentRoundTrip` proves that parsing a rendered well-formed document
  gives the document back.

Some behaviours of the code differ from what the format may seem to promise.
The model follows the code:

- the tokenizer accepts `+5`, but `parse_value` rejects it;
- the tokenizer accepts `"a\"b"`, but `parse_value` rejects it;
- a `}` or `]` in value position is not a terminator, and it is rejected as a
  scalar;
- a comment line breaks a newline run, so `x\n# c\ny` gives two newline
  tokens. Inside a mapping, `parse_dict` then takes the second newline as a
  key, and the parse fails for want of `:`;
- a key is the raw token, with its quotes if it has any.

## Model

| member | source | states |
|---|---|---|
| `MemlValues.Lookup` | pymeml/parser.py:72 | a key has a tuple in the mapping exactly when it is among the mapping's keys |
| `MemlValues.Put` | pymeml/parser.py:72 | `result[key] = tuple` leaves the key list unchanged when the key is present, and otherwise appends the key at the end |
| `MemlValues.PutLookup` | pymeml/parser.py:72 | after `result[key] = tuple`, that key reads the new tuple and every other key reads what it read before |
| `MemlValues.PutKeepsKeysUnique` | pymeml/parser.py:72 | writing a key never creates a duplicate key; the mapping grows by one exactly when the key is new |
| `MemlValues.PutOverwritesInPlace` | pymeml/parser.py:72 | a repeated key replaces its entry in place, and every other entry keeps its position |
| `MemlValues.PutAppendsNewKey` | pymeml/parser.py:72 | a new key goes at the end, and no earlier entry moves (insertion order) |
| `MemlLexemes.DigitCount` | pymeml/parser.py:26-27 | the length of the leading `\d` run: all digits, and followed by a non-digit or by the end |
| `MemlLexemes.DecimalValue` | pymeml/parser.py:106 | `int` of a digit run is zero exactly when every digit is `0` |
| `MemlLexemes.DecimalString` | pymeml/parser.py:105-106 | the decimal spelling of a number is a digit run with no leading zero |
| `MemlLexemes.DecimalStringValue` | pymeml/parser.py:105-106 | `int` applied to the decimal spelling of `n` gives `n` back |
| `MemlLexemes.LexemeIsNotComment` | pymeml/parser.py:40-41 | no shape of emitted token begins with `#`, so the comment filter drops only comments |
| `MemlLexemes.IdentIsNotNumber` | pymeml/parser.py:100-108 | an identifier carries no sign and is neither numeric shape, so it reaches the keyword branch |
| `MemlLexer.LastNewline` | pymeml/parser.py:18-20 | the newline alternative ends at a newline inside the whitespace run |
| `MemlLexer.SpaceRunEndFacts` | pymeml/parser.py:18 | `[ \t\n]*` takes every whitespace character up to the first non-space |
| `MemlLexer.BlankRunEndFacts` | pymeml/parser.py:21 | `[ \t]*` takes every blank up to the first non-blank |
| `MemlLexer.DigitRunEndFacts` | pymeml/parser.py:26-27 | `\d+` takes every digit up to the first non-digit |
| `MemlLexer.IdentRunEndFacts` | pymeml/parser.py:28 | `[A-Za-z0-9_]*` takes every identifier character up to the first other character |
| `MemlLexer.LineEndFacts` | pymeml/parser.py:22 | `[^\n]*` stops at the first newline, or at the end of the text |
| `MemlLexer.LastNewlineFacts` | pymeml/parser.py:18-20 | the newline alternative is cut back to the last newline of the run: no newline follows it inside the run, and when none is found the run holds no newline |
| `MemlLexer.SignEnd` | pymeml/parser.py:26-27 | `[-+]?` takes one character exactly when it is a sign, and none otherwise |
| `MemlLexer.FloatEnd` | pymeml/parser.py:26 | a float match at `s` ends after `s`, within the text; its shape is stated by `FloatShape` |
| `MemlLexer.IntEnd` | pymeml/parser.py:27 | an integer match at `s` ends after `s`, within the text; its shape is stated by `IntShape` |
| `MemlLexer.GroupEnd` | pymeml/parser.py:21-29 | a match of the second alternative captures a non-empty group within the text; its shape is stated by `GroupShape`, and that strings, structural characters, numbers and identifiers are matched by the `…IsOneToken` lemmas |
| `MemlLexer.StringEnd` | pymeml/parser.py:24-25 | a closed quoted-string match ends just past a closing quote of its own kind; `StringEndComplete` states the converse |
| `MemlLexer.StringEndComplete` | pymeml/parser.py:24-25 | a closed escaped string body is found: the scan stops at its closing quote |
| `MemlLexer.StringEndFacts` | pymeml/parser.py:24-25 | what lies between the quotes is made of non-quote, non-backslash characters and backslash pairs |
| `MemlLexer.NextMatch` | pymeml/parser.py:16-32 | a match at position `i` captures a non-empty group at or after `i` |
| `MemlLexer.LexFrom` | pymeml/parser.py:36-42 | the scan from position `i` emits at most one token per remaining character |
| `MemlLexer.Lex` | pymeml/parser.py:34-43 | `tokenize` emits no more tokens than the text has characters |
| `MemlLexer.Tokenize` | pymeml/parser.py:34-43 | the loop over the matches returns exactly the non-comment groups, in order (`Lex`) |
| `MemlLexer.TokensInSourceOrder` | pymeml/parser.py:34-43 | every token is the text of its own span; the spans lie left to right and do not overlap |
| `MemlLexer.FloatShape` | pymeml/parser.py:26 | the float alternative matches `[-+]?\d+\.\d+` |
| `MemlLexer.IntShape` | pymeml/parser.py:27 | the integer alternative matches `[-+]?\d+` |
| `MemlLexer.StringShape` | pymeml/parser.py:24-25 | a quoted-string match is an escaped quoted string of its own quote kind |
| `MemlLexer.GroupShape` | pymeml/parser.py:21-29 | after the blanks, the group is a comment or one of the lexeme shapes |
| `MemlLexer.MatchShape` | pymeml/parser.py:18-29 | every match captures a comment or a lexeme |
| `MemlLexer.TokensAreLexemes` | pymeml/parser.py:18-43 | every token emitted is a newline, a structural character, a quoted string, a number or an identifier, and never a comment |
| `MemlLexer.TokensAreNonEmpty` | pymeml/parser.py:34-43 | no emitted token is empty |
| `MemlLexer.BlanksSkipped` | pymeml/parser.py:21 | blanks in front of a token change nothing |
| `MemlLexer.NewlineRunCollapses` | pymeml/parser.py:18-20 | a whitespace run that holds a newline gives exactly one `"\n"` token, however many lines it spans |
| `MemlLexer.LastNewlineToken` | pymeml/parser.py:18-20 | the run's last newline is the token, and only blanks follow it inside the run |
| `MemlLexer.CommentDropped` | pymeml/parser.py:40-41 | a comment is matched and dropped, and scanning resumes at the end of its line |
| `MemlLexer.UnmatchedCharDropped` | pymeml/parser.py:36 | a character that no alternative can start is skipped silently |
| `MemlLexer.IdentMatch` | pymeml/parser.py:28 | at a letter or `_`, the match is the maximal identifier run |
| `MemlLexer.IdentifierIsOneToken` | pymeml/parser.py:28 | an identifier is emitted as one token |
| `MemlLexer.FloatIsMaximal` | pymeml/parser.py:26 | the float alternative takes the whole digit run after the point: no digit follows the match |
| `MemlLexer.IntIsMaximal` | pymeml/parser.py:26-27 | where the float alternative fails, the integer alternative takes the whole digit run, and no point followed by a digit comes after it |
| `MemlLexer.NumberEnd` | pymeml/parser.py:26-27 | the number token at a position ends after it, within the text |
| `MemlLexer.NumberMatch` | pymeml/parser.py:21-29 | at a digit or sign that starts a number, the match is that number, float tried first |
| `MemlLexer.NumberIsOneToken` | pymeml/parser.py:26-42 | a number is emitted as one token, and no digit follows it |
| `MemlLexer.StringIsOneToken` | pymeml/parser.py:24-42 | a closed quoted string, of either quote kind, is emitted as one token |
| `MemlLexer.StructuralIsOneToken` | pymeml/parser.py:23-42 | each of `{ [ ] } :` is emitted as a token of its own |
| `MemlLexer.TrailingPointDropped` | pymeml/parser.py:26-27 | `5.` gives the single token `5`, because the point is dropped |
| `MemlLexer.FloatIsOneToken` | pymeml/parser.py:26-27 | float is tried before integer, so `12.5` is one token |
| `MemlLexer.PlusSignedIntIsOneToken` | pymeml/parser.py:27 | the integer pattern takes a `+` sign, so `+5` is one token |
| `MemlLexer.EscapedQuoteIsOneToken` | pymeml/parser.py:24 | a backslash shields the quote after it, so `"a\"b"` is one token |
| `MemlLexer.LoneNewline` | pymeml/parser.py:18-20 | a newline followed by no other whitespace is one newline token |
| `MemlLexer.CommentLineKeepsItsNewline` | pymeml/parser.py:18-22 | a comment is dropped, but the newline that ends its line is still a token |
| `MemlLexer.CommentLineKeepsTwoNewlines` | pymeml/parser.py:18-42 | `x\n# c\ny` gives `x`, newline, newline, `y` |
| `MemlParser.Head` | pymeml/parser.py:51-52 | the current token is the first remaining token, or None when no token remains |
| `MemlParser.Expect` | pymeml/parser.py:54-59 | `consume(expected)` succeeds exactly when the current token is `expected`. It then drops that token; otherwise it fails with the expected and actual tokens |
| `MemlParser.ParseValue` | pymeml/parser.py:100-110 | a token is accepted exactly when it matches one of the four patterns (plain quoted string, `-?` point number, `-?` digit run, identifier), and otherwise is an invalid token; a string is the quoted token without its quotes, an integer comes from a `-?` digit run and is negative only after a `-`, a float keeps the sign and the two digit runs of a `-?` point number, and a keyword is an identifier, unchanged |
| `MemlParser.DictSpec` | pymeml/parser.py:64-75 | a successful mapping consumes at least one token |
| `MemlParser.EntriesSpec` | pymeml/parser.py:68-74 | the entry loop and the closing `}` consume at least one token |
| `MemlParser.EntrySpec` | pymeml/parser.py:69-73 | an entry's key is the raw current token, and the line consumes at least the key, `:` and newline |
| `MemlParser.TupleSpec` | pymeml/parser.py:87-98 | the tuple loop stops at a falsy token, a stop token or `:`, and does not consume the token it stops at |
| `MemlParser.ItemSpec` | pymeml/parser.py:90-97 | each pass of the tuple loop consumes at least one token |
| `MemlParser.ListSpec` | pymeml/parser.py:77-85 | a successful list consumes at least one token |
| `MemlParser.RowsSpec` | pymeml/parser.py:81-84 | the row loop and the closing `]` consume at least one token |
| `MemlParser.ParseDocument` | pymeml/parser.py:61-62 | `parse` fails exactly when `parse_dict` fails, with its error; a success needs tokens opening with `{` and a newline |
| `MemlParser.Parser.constructor` | pymeml/parser.py:47-49 | the parser starts at position 0 of the given tokens |
| `MemlParser.Parser.Current` | pymeml/parser.py:51-52 | `current` is the token at `pos`, or None past the end |
| `MemlParser.Parser.Consume` | pymeml/parser.py:54-59 | a truthy `expected` that differs from the current token fails and leaves `pos`; otherwise the current token is returned and `pos` moves on by one |
| `MemlParser.Parser.ConsumeExpected` | pymeml/parser.py:54-59 | consuming a required token is `Expect` on the remaining tokens |
| `MemlParser.Parser.Parse` | pymeml/parser.py:61-62 | `parse` is `parse_dict` from the current position |
| `MemlParser.Parser.ParseDict` | pymeml/parser.py:64-75 | the loop gives `DictSpec`'s mapping or error and leaves `pos` after the `}`; `pos` never moves back |
| `MemlParser.Parser.ParseEntry` | pymeml/parser.py:69-73 | one pass of the entry loop agrees with `EntrySpec` |
| `MemlParser.Parser.ParseList` | pymeml/parser.py:77-85 | the loop gives `ListSpec`'s rows or error and leaves `pos` after the `]` |
| `MemlParser.Parser.ParseTuple` | pymeml/parser.py:87-98 | the loop gives `TupleSpec`'s tuple or error and leaves `pos` at the token it stopped at |
| `MemlParser.ParseTokens` | pymeml/parser.py:46-62 | `Parser(tokens).parse()` gives the top-level mapping `ParseDocument` defines |
| `MemlParserFacts.KeywordIffIdent` | pymeml/parser.py:107-108 | a token becomes a keyword exactly when it is an identifier |
| `MemlParserFacts.DigitsReadAsInteger` | pymeml/parser.py:105-106 | `-?\d+` becomes its decimal value, negated when a `-` leads |
| `MemlParserFacts.PointNumberReadsAsFloat` | pymeml/parser.py:103-104 | `-?\d+\.\d+` becomes a float with that sign and those digit runs |
| `MemlParserFacts.PlusSignRejected` | pymeml/parser.py:100-110 | a token with a leading `+` is always an invalid token |
| `MemlParserFacts.LexemeAcceptedUnlessPlusOrEscapedQuote` | pymeml/parser.py:100-110 | a value-position token that the tokenizer emits is accepted exactly when it has no `+` sign and no same-kind quote inside its quotes |
| `MemlParserFacts.LeadingZerosAccepted` | pymeml/parser.py:105-106 | `007` is the integer 7 |
| `MemlParserFacts.NegativeZero` | pymeml/parser.py:105-106 | `-0` is the integer 0 |
| `MemlParserFacts.EscapedQuoteRejected` | pymeml/parser.py:101-110 | `"a\"b"` is an invalid token, though the tokenizer emits it |
| `MemlParserFacts.DictExtends` | pymeml/parser.py:64-75 | a mapping that parses gives the same mapping when more tokens follow it, and leaves those tokens unread |
| `MemlParserFacts.EntriesExtends` | pymeml/parser.py:68-74 | the same holds for the entry loop |
| `MemlParserFacts.EntryExtends` | pymeml/parser.py:69-73 | the same holds for one entry line |
| `MemlParserFacts.TupleExtends` | pymeml/parser.py:87-98 | the same holds for a tuple stopped at a token that is present |
| `MemlParserFacts.ItemExtends` | pymeml/parser.py:90-97 | the same holds for one tuple item |
| `MemlParserFacts.ListExtends` | pymeml/parser.py:77-85 | the same holds for a list |
| `MemlParserFacts.RowsExtends` | pymeml/parser.py:81-84 | the same holds for the row loop |
| `MemlParserFacts.TrailingTokensIgnored` | pymeml/parser.py:61-62 | `parse` ignores every token after the root mapping's `}` |
| `MemlParserFacts.EntriesKeepKeysUnique` | pymeml/parser.py:68-73 | the entry loop never yields a key twice |
| `MemlParserFacts.DictKeysUnique` | pymeml/parser.py:64-75 | a parsed mapping has unique keys |
| `MemlParserFacts.CloserInTupleIsInvalid` | pymeml/parser.py:87-110 | a `}` or `]` where a value is expected does not stop the tuple; it is rejected as an invalid token |
| `MemlParserFacts.EmptyDict` | pymeml/parser.py:64-75 | `{`, newline, `}` is the empty mapping |
| `MemlParserFacts.SingleScalarLine` | pymeml/parser.py:87-98 | one scalar then a newline is a one-value tuple, stopped at the newline |
| `MemlParserFacts.SingleScalarEntry` | pymeml/parser.py:69-73 | `k : t` and a newline is the entry `k` holding that one value |
| `MemlParserFacts.DictOpening` | pymeml/parser.py:66-67 | a mapping not opened by `{` fails expecting `{`; one whose `{` is not followed by a newline fails expecting a newline; both report the token found instead; a parsed mapping opened with both |
| `MemlParserFacts.ListOpening` | pymeml/parser.py:79-80 | the same for a list and `[` |
| `MemlParserFacts.EntriesScalarLine` | pymeml/parser.py:69-72 | one scalar entry line is one assignment `result[key] = tuple` |
| `MemlParserFacts.UnclosedDict` | pymeml/parser.py:74 | one scalar entry line and no `}` fails with the exact error: `}` expected at the end of the tokens (the general case is `DictNeedsClosingBrace`) |
| `MemlParserFacts.BlankLineInMappingFails` | pymeml/parser.py:68-73 | an empty line inside a mapping, such as a comment line leaves, is read as an entry keyed by the newline and fails for want of `:`, reporting the token after it |
| `MemlParserFacts.RepeatedKeyEntries` | pymeml/parser.py:68-73 | two lines with one key leave one entry, holding the second value |
| `MemlParserFacts.DuplicateKeyLastWins` | pymeml/parser.py:72 | a whole document with two lines for one key parses to one entry for that key, holding the last value |
| `MemlParserFacts.RepeatedKeyKeepsItsPlace` | pymeml/parser.py:68-74 | with another key written between the two lines of a repeated key, the repeated key stays first, holding its last value, and the other key follows |
| `MemlParserFacts.TruthyMeansTokensLeft` | pymeml/parser.py:89 | on the tokenizer's output, the truthiness test of the tuple loop (and of the entry and row loops at lines 68 and 81) fails only when no token is left |
| `MemlParserFacts.PlusNumberLexedThenRejected` | pymeml/parser.py:100-110 | `+5` is one token for `tokenize` and an invalid token for `parse_value` |
| `MemlParserFacts.EscapedQuoteLexedThenRejected` | pymeml/parser.py:101 | `"a\"b"` is one token for `tokenize` and an invalid token for `parse_value` |
| `MemlParserEnds.DictEnds` | pymeml/parser.py:64-75 | `parse_dict` leaves the position just after a `}`, and what remains is the rest of its input |
| `MemlParserEnds.EntriesEnds` | pymeml/parser.py:68-74 | the entry loop and the closing `}` do the same |
| `MemlParserEnds.EntryEnds` | pymeml/parser.py:69-73 | one entry line leaves the position just after its newline |
| `MemlParserEnds.TupleEnds` | pymeml/parser.py:87-98 | `parse_tuple` leaves what remains as the rest of its input |
| `MemlParserEnds.ItemEnds` | pymeml/parser.py:90-97 | one pass of the tuple loop does the same |
| `MemlParserEnds.ListEnds` | pymeml/parser.py:77-85 | `parse_list` leaves the position just after a `]` |
| `MemlParserEnds.RowsEnds` | pymeml/parser.py:81-84 | the row loop and the closing `]` do the same |
| `MemlParserEnds.DictNeedsClosingBrace` | pymeml/parser.py:74 | a mapping parses only from tokens that hold a `}` |
| `MemlParserEnds.ListNeedsClosingBracket` | pymeml/parser.py:84 | a list parses only from tokens that hold a `]` |
| `MemlRender.StrRoundTrip` | pymeml/parser.py:101-102 | a string not holding both kinds of quote, written between quotes of a kind it does not hold, reads back as itself |
| `MemlRender.ParsedScalarIsWellFormed` | pymeml/parser.py:100-110 | every scalar `parse_value` returns is one the renderer can write down |
| `MemlRender.IntRoundTrip` | pymeml/parser.py:105-106 | every integer, written in decimal, reads back as itself |
| `MemlRender.FloatRoundTrip` | pymeml/parser.py:103-104 | a float written as its sign and digit runs reads back as itself |
| `MemlRender.ScalarRoundTrip` | pymeml/parser.py:100-110 | every well-formed scalar reads back as itself, and its token neither stops a tuple nor opens a container |
| `MemlRender.FirstToken` | pymeml/parser.py:89 | a rendered value starts with a token at which the tuple loop goes on |
| `MemlRender.ValueRoundTrip` | pymeml/parser.py:90-97 | a rendered value is read back by one pass of the tuple loop, and the tokens after it are left |
| `MemlRender.ItemStep` | pymeml/parser.py:89-97 | each pass over rendered values reads the first of them |
| `MemlRender.ItemsRoundTrip` | pymeml/parser.py:87-98 | rendered values followed by a stop token are read back in order |
| `MemlRender.EntryLineRoundTrip` | pymeml/parser.py:69-73 | a rendered entry line reads back as that entry |
| `MemlRender.NextKeyNotIn` | pymeml/parser.py:72 | while rendered entries are read, each next key is new |
| `MemlRender.EntriesRoundTrip` | pymeml/parser.py:68-74 | rendered entries and the `}` read back in order |
| `MemlRender.RowLineRoundTrip` | pymeml/parser.py:81-83 | a rendered row is one pass of the row loop |
| `MemlRender.RowsRoundTrip` | pymeml/parser.py:81-84 | rendered rows and the `]` read back in order |
| `MemlRender.DocumentRoundTrip` | pymeml/parser.py:61-75 | parsing a rendered well-formed document gives it back, whatever follows it |

## Left out

- `pymeml/mainTest.py`: a demonstration driver that prints one parse. It is
  not part of this model.
- Floating point: `float(token)` gives an IEEE double. The model keeps the
  sign and the two digit runs as written, so rounding is not modelled.
- Unicode digits: Python's `\d` and `int` also accept non-ASCII decimal
  digits. The model's digits are `0`-`9` only.
- The regular-expression engine: `TOKEN_REGEX` and `finditer` are modelled by
  the equivalent ordered-choice scanner `NextMatch`, not by a regex
  interpreter.
- `Keyword.__repr__` and the wording of exception messages: the errors are
  the two kinds `Mismatch(expected, actual)` and `InvalidToken(token)`.
- Python's str-subclass equality: in Python `Keyword("Jan") == "Jan"` holds.
  The model keeps `Keyword` and `Str` as distinct constructors, so it does not
  capture that equality.
- Python's exceptions unwinding the stack: the model returns the error as a
  `Result` value. When a parse fails, `pos` is left wherever the failing step
  left it, and callers do not use it after that.
- The `Value`/`TupleType`/`DictType`/`ListType` aliases are the `Value`,
  `Tuple` and `Entry` datatypes. The alias `Value` omits `int`, but
  `parse_value` returns ints; the model has an `Int` constructor.
- MemlParser.DictSpec: its contract states only that it consumes tokens; what it computes is stated by DictOpening, DictEnds, DictNeedsClosingBrace, DictExtends, DictKeysUnique, EmptyDict, UnclosedDict, DuplicateKeyLastWins and the round trip in MemlRender.
- MemlParser.EntriesSpec: its contract states only that it consumes tokens; see EntriesEnds, EntriesExtends, EntriesKeepKeysUnique, BlankLineInMappingFails and EntriesRoundTrip.
- MemlParser.EntrySpec: its contract states the key and the tokens consumed; see EntryEnds, EntryExtends, SingleScalarEntry and EntryLineRoundTrip.
- MemlParser.TupleSpec: its contract states where it stops; see TupleEnds, TupleExtends, CloserInTupleIsInvalid and ItemsRoundTrip.
- MemlParser.ItemSpec: its contract states only that it consumes tokens; see ItemEnds, ItemExtends and ValueRoundTrip.
- MemlParser.ListSpec: its contract states only that it consumes tokens; see ListOpening, ListEnds, ListNeedsClosingBracket, ListExtends and the list case of ValueRoundTrip.
- MemlParser.RowsSpec: its contract states only that it consumes tokens; see RowsEnds, RowsExtends and RowsRoundTrip.
- Unwritable values: the renderer is defined only on the values that `WFValue` admits. It leaves out strings holding both kinds of quote, floats whose two digit runs are not both non-empty digit runs, and keywords that are not identifiers (`ParsedScalarIsWellFormed` shows `parse_value` returns none of these), and mappings with repeated keys or with keys that cannot head an entry line (empty, or `}`).
- MemlLexer.LexAt carries no contract of its own: it is the body of the `finditer` loop at one position, and its bound follows from LexFrom's.
- MemlLexer.FloatEnd, MemlLexer.IntEnd, MemlLexer.GroupEnd: their contracts state only bounds. The shapes they match are stated by FloatShape, IntShape and GroupShape; that the number matches take whole digit runs is stated by FloatIsMaximal, IntIsMaximal and NumberIsOneToken; that closed quoted strings and structural characters are matched at all is stated by StringEndComplete, StringIsOneToken and StructuralIsOneToken.
- MemlParser.ParseValue: CPython's limit on integer string conversion is not modelled. Since Python 3.11 (and the 3.7 to 3.10 security releases), `int(token)` raises `ValueError` for a token of more than 4300 digits. The model reads any digit run as its integer, because the limit belongs to the interpreter and its configuration, not to the source.
- MemlParser.ItemSpec: Python's recursion limit is not modelled. With the default limit, mappings and lists nested several hundred deep raise `RecursionError` through `parse_tuple` and `parse_dict`/`parse_list`. The specification functions and the `Parser` methods parse any depth.
- The `Truthy` and `TupleContinues` predicates carry no contract of their own: they are the loop conditions of lines 68, 81 and 89, and TruthyMeansTokensLeft states what the truthiness test means on the tokenizer's output.
