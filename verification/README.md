# sql-split in Dafny

A model of the SQL statement splitter `kodus/sql-split`. It has three parts:

- **`Kodus\SQL\Tokenizer`** is a recursive-descent tokenizer that turns SQL text into a list of statements. Each statement is a list of tokens. A token is a verbatim string atom, or a bracket group `()`, `{}`, `[]` that starts with its opening bracket and ends with the matching closer. Statements end at the current delimiter, `;` at first. A MySQL-client `DELIMITER xyz` line replaces the delimiter.
- **`mindplay\sql_parser\SQLTokenizer`** is the older tokenizer with the same scanners. It differs in these ways:
  - it has no delimiter state;
  - it has a smaller operator set and no `@variable` rule;
  - `;` ends a statement and is tried after every other rule.
- **`SQLSplitter`** does the following:
  - tokenizes with `SQLTokenizer`;
  - optionally removes comment atoms at every depth;
  - flattens each statement back to text;
  - trims it and drops the texts PHP reads as false.

The Dafny modules follow the program:

- `Tokens` holds the token tree, the scan outcomes and the error reasons.
  - A scanner yields `NoMatch` (nothing consumed), `Match(value, next)` (`next` is the cursor after it) or `Failed(Error(offset, reason))`.
  - `Failed` stands for the `RuntimeException` that `fail()` throws. The offset is the one the message reports.
- `Lexer` holds the character classes, one scanner function per `consume(pattern)` call, and the shared scanners `comment`, `dollarquoted`, `placeholder` and `quoted`. Lemmas there state each scanner's extent and failure.
- `Cursors` has a `Cursor` class that holds the input and the mutable `offset`.
  - Its methods are `isEOF`, `is`, the `consume` variants and the shared scanners.
  - Each method is proved to return what the matching `Lexer` function yields at the old offset, and to leave the offset after it.
- `KodusSQL` (for `Kodus\SQL\Tokenizer`) and `SqlParser` (for `mindplay\sql_parser\SQLTokenizer`) state each parsing method as a function of the input, the position and (for `Tokenizer`) the delimiter.
  - A class with the same fields as the PHP class runs the same loops on a cursor.
  - Its methods (`Tokenize`, `Statements`, `Statement`, `Token`, `Grouped`) are proved equal to those functions.
  - `tokenize(input)` itself is `KodusSQL.Tokenizer.Tokenize` (and `SqlParser.SQLTokenizer.Tokenize`), proved to return `Tokenization(input)`.
- `SQLSplitter` holds `split`, `stripComments`, `isComment` and `implode`.
  - `stripComments` and `implode` are recursive functions over `seq<Token>`. `implode` is `Tokens.Flatten`.
  - `split` is a method with the `foreach` loop, proved equal to the function `Splitting`.

PHP truthiness is kept where the code relies on it:

- `Tokenizer.token()` treats a delimiter that matches but is falsy (`"0"`) as no match. The `"0"` is consumed, and the remaining rules are tried after it.
- `Tokenizer.statement()` stops only at the `""` end marker.
- `SQLTokenizer.statement()` stops at any falsy token. A word `0` therefore ends the statement and is dropped (`ZeroEndsStatement`).
- `statements()` stops at `null` and also at an empty statement.
- `array_filter` in `split` drops `""` and `"0"`.

A `DELIMITER` directive is a word atom equal to `delimiter`, ignoring ASCII case.

- After it, the blanks are skipped. The rest of the line through its line breaks (`.*?[\r\n]+`) is then trimmed and becomes the new literal delimiter. The same statement goes on.
- Without a line break, the tokenizer fails at the offset after the blanks. With only white space before the line break, it fails at the offset after the line breaks.

The verbatim property of tokens, and the round trips built on it, hold under two conditions, and the contracts state both:

- **The "verbatim" property** (`Tokens.Verbatim`): `FlattenToken(t)` equals the input slice the token covered.
- **Condition 1** (`NoRepeatedTag`): at no position of the input does `dollarquoted()` find a string followed right away by a second copy of its tag. `dollarquoted()` consumes such a copy and drops it. The predicate looks at every position, including positions inside quoted literals and comments that the tokenizer never scans for a tag. So it also excludes inputs such as `'$$a$$$$'`, where no text is lost.
- **Condition 2:** for `Tokenizer`, the delimiter is not `"0"`, and no `DELIMITER` directive sets it to `"0"` (`NoZeroDirective`). A consumed falsy delimiter is not part of the token that follows it.

The round trips read the statements back into the input:

- `SqlParser.TokenizationLayout` gives a layout of the input. Each statement's text is one stretch of the input, after the white space `statement()` skips. The stretch is followed by its separator: a `;`, a word `0`, or the end of input.
- `KodusSQL.TokenizationLayout` does the same with the delimiter in force. Each stretch also loses its `DELIMITER` directive spans, and each statement reports the delimiter that the last span set.
- `SQLSplitter.SplitSlices` and `SQLSplitter.SplitStrippedSlices` carry this through `split`. They state its texts as the trimmed stretches of the input, with comment atoms removed when `stripComments` is set, and without the texts PHP reads as false.

## Model

| member | source | states |
|---|---|---|
| `Tokens.FlattenAppend` | src/SQLSplitter.php:54-63 | imploding a statement with one more token appends that token's text: the concatenation is depth-first with no separator |
| `Lexer.RunEnd` | src/Tokenizer.php:300-309 | the end of a character-class run lies between the start and the end of input, and the character there, if any, is outside the class |
| `Lexer.RunEndAll` | src/Tokenizer.php:300-309 | every character of the run is in the class, so the run is the longest match |
| `Lexer.RunEndAt` | src/Tokenizer.php:300-309 | conversely, a stretch of class characters followed by a non-class character or the end of input is exactly the run found |
| `Lexer.Find` | src/Tokenizer.php:163 | where a lazy `.*?t` stops: an occurrence of `t` at or after the start |
| `Lexer.FindFirst` | src/Tokenizer.php:163 | the occurrence found is the first one; nothing is found only when `t` does not occur |
| `Lexer.Run` | src/Tokenizer.php:108-114 | `\w+` / `\s+` match exactly when the first character is in the class; the atom is the input slice of the maximal run and is never a failure |
| `Lexer.OneOf` | src/Tokenizer.php:120-122 | a one-character class matches exactly when the character is in it and consumes that one character |
| `Lexer.Literal` | src/Tokenizer.php:104-106 | the delimiter rule matches exactly when the input continues with the delimiter, and consumes exactly it |
| `Lexer.Prefixed` | src/Tokenizer.php:236-243 | `:\w+` (and `@\w+`) match exactly when the prefix is followed by a word character; the atom is the maximal such slice |
| `Lexer.Comment` | src/Tokenizer.php:154-173 | `comment()` yields nothing exactly when the input opens neither `--` nor `/*`; a comment atom is the non-empty input slice it consumed |
| `Lexer.LineComment` | src/Tokenizer.php:156-160 | a `--` comment never fails and runs up to, not including, the first CR or LF (or the end of input) |
| `Lexer.BlockComment` | src/Tokenizer.php:162-169 | a `/*` comment runs through the first `*/` after its opener; it fails, after the opener, exactly when there is no such `*/` |
| `Lexer.OpeningTag` | src/Tokenizer.php:180 | the opening tag found is an input prefix of the form `$\w*$` |
| `Lexer.OpeningTagComplete` | src/Tokenizer.php:180 | conversely, any `$\w*$` prefix at the cursor is the tag found, so no tag is missed |
| `Lexer.DollarQuoted` | src/Tokenizer.php:178-195 | `dollarquoted()` yields nothing exactly when no opening tag is found, which by `OpeningTagComplete` is exactly when no `$\w*$` tag opens at the cursor; a match is at least two tags long and is the input slice at the cursor; a failure comes after the cursor |
| `Lexer.DollarQuotedBody` | src/Tokenizer.php:181-191 | after an opening tag the scanner never yields nothing: it fails, or its text holds both tags |
| `Lexer.SkipRepeat` | src/Tokenizer.php:186 | `consume($end_delimiter)` after the closing tag skips exactly one more copy of the tag when one is there, else nothing |
| `Lexer.DollarQuotedShape` | src/Tokenizer.php:178-195 | a dollar-quoted string runs from its opening tag through the first reoccurrence of the identical tag; a copy right after that is consumed and dropped; without a reoccurrence it fails after the opening tag |
| `Lexer.DollarBodyShape` | src/Tokenizer.php:181-191 | the same outcome stated for the part after the opening tag |
| `Lexer.TrailingAtom` | src/Tokenizer.php:136-142 | placeholder, then dollar-quoted: a match is non-empty input text at the cursor, and ends where its text ends unless a repeated tag was skipped |
| `Lexer.Quoted` | src/Tokenizer.php:248-283 | `quoted()` yields nothing exactly when no quote character is at the cursor; a literal is the input slice it consumed, at least two characters |
| `Lexer.QuotedRest` | src/Tokenizer.php:255-279 | the loop of `quoted()` never yields nothing, and a literal it returns is the input slice from the opening quote |
| `Lexer.QuotedShape` | src/Tokenizer.php:248-283 | a literal ends with its opening quote and its body is a run of backslash escapes and characters other than that quote; it fails only at the end of input, with the body complete or a lone backslash last |
| `Lexer.QuotedRestShape` | src/Tokenizer.php:255-279 | the same outcome for the loop from any point whose text so far is well escaped |
| `Lexer.ThroughLineBreak` | src/Tokenizer.php:82 | `.*?[\r\n]+` fails exactly when no line break follows; otherwise it ends after the whole first run of line breaks |
| `Lexer.Trim` | src/Tokenizer.php:82 | `trim()` leaves no trimmable character at either end, and yields `""` exactly when the text is all trimmable characters |
| `Lexer.TrimEnds` | src/Tokenizer.php:82 | `trim()` returns a slice of its input, and what it cuts off at either end is only trimmable characters |
| `Cursors.Cursor.constructor` | src/Tokenizer.php:46-49 | a new cursor holds the input at offset 0 |
| `Cursors.Cursor.IsEOF` | src/Tokenizer.php:285-288 | true exactly when the offset is the input length |
| `Cursors.Cursor.Is` | src/Tokenizer.php:290-293 | true exactly when the input continues with the text at the offset |
| `Cursors.Cursor.ConsumeRun` | src/Tokenizer.php:300-309 | returns `Run` at the old offset and moves the offset past a match only |
| `Cursors.Cursor.ConsumeWhile` | src/Tokenizer.php:300-309 | a possibly empty run (`\s*`, `[ ]*`, `[^\r\n]*`): returns the slice and moves the offset to its end |
| `Cursors.Cursor.ConsumeOneOf` | src/Tokenizer.php:300-309 | returns `OneOf` at the old offset and moves past a match only |
| `Cursors.Cursor.ConsumeLiteral` | src/Tokenizer.php:300-309 | returns `Literal` at the old offset and moves past a match only |
| `Cursors.Cursor.ConsumePrefixed` | src/Tokenizer.php:300-309 | returns `Prefixed` at the old offset and moves past a match only |
| `Cursors.Cursor.ConsumeThrough` | src/Tokenizer.php:300-309 | `.*?t`: the text through the first `t` with the offset after it, or `""` with the offset unchanged |
| `Cursors.Cursor.ConsumeLine` | src/Tokenizer.php:300-309 | `.*?[\r\n]+`: the text through the first run of line breaks, or `""` with the offset unchanged |
| `Cursors.Cursor.ConsumeDollarTag` | src/Tokenizer.php:300-309 | `\$\w*\$`: the opening tag with the offset after it, or `""` with the offset unchanged |
| `Cursors.Cursor.Comment` | src/Tokenizer.php:154-173 | `comment()` returns `Lexer.Comment` at the old offset and leaves the offset after the comment |
| `Cursors.Cursor.LineCommentRest` | src/Tokenizer.php:156-160 | after `--`, `comment()` returns `Lexer.Comment` from the opener and leaves the offset at the line break |
| `Cursors.Cursor.BlockCommentRest` | src/Tokenizer.php:162-169 | after the block-comment opener, `comment()` returns `Lexer.Comment` from the opener: the comment through `*/`, or the failure after the opener |
| `Cursors.Cursor.DollarQuoted` | src/Tokenizer.php:178-195 | `dollarquoted()` returns `Lexer.DollarQuoted` at the old offset and leaves the offset where it says |
| `Cursors.Cursor.DollarQuotedRest` | src/Tokenizer.php:181-191 | the part after the opening tag returns `DollarQuotedBody` |
| `Cursors.Cursor.Placeholder` | src/Tokenizer.php:236-243 | `placeholder()` returns `Prefixed(':')` at the old offset |
| `Cursors.Cursor.TrailingAtom` | src/Tokenizer.php:136-142 | placeholder, then dollar-quoted, returns `Lexer.TrailingAtom` |
| `Cursors.Cursor.Quoted` | src/Tokenizer.php:248-283 | `quoted()` returns `Lexer.Quoted` at the old offset and leaves the offset after the literal |
| `Cursors.Cursor.QuotedLoop` | src/Tokenizer.php:253-279 | the `while (true)` loop builds the literal from its pieces and returns `QuotedRest` from the opening quote |
| `Cursors.Cursor.QuotedStep` | src/Tokenizer.php:255-279 | one pass of that loop: it moves forward and leaves `QuotedRest` unchanged, or it ends with the outcome `QuotedRest` gives at the old offset, with the literal running through the new offset |
| `KodusSQL.LeadingAtom` | src/Tokenizer.php:108-130 | rules 2 to 7 of `token()` (word, space, comment, operator, `@` variable, quoted) in order: a match is non-empty input text at the cursor; a failure comes after the cursor and is neither "expected SQL token" nor "expected token or group end" |
| `KodusSQL.LeadingSymbol` | src/Tokenizer.php:120-130 | operator, `@` variable, quoted, in order: the same promise for the rules after the comment |
| `KodusSQL.TokenAt` | src/Tokenizer.php:102-149 | `token()` never yields nothing; a token other than the end marker consumes at least one character, is well formed (groups open and close with mates at every depth) and equals the input slice it consumed; the end marker stands at the end of input or after the delimiter |
| `KodusSQL.TokenFailure` | src/Tokenizer.php:102-149 | a failing `token()` fails at or after the cursor: "expected SQL token" only at a character that starts no rule, "expected token or group end" only at the end of input or right after the delimiter |
| `KodusSQL.UnknownCharacterFails` | src/Tokenizer.php:144-148 | `token()` fails with "expected SQL token" at the cursor itself exactly when the character there starts no rule and the delimiter does not start there |
| `KodusSQL.StrayCharacterFails` | src/Tokenizer.php:102-148 | a stray `)`, `]`, `}`, a `!`, `#`, `?`, a lone `@` or `:`, or a `$` that opens no tag fails with "expected SQL token" where it stands |
| `KodusSQL.GroupAt` | src/Tokenizer.php:200-231 | `grouped()` yields nothing exactly when no opening bracket is at the cursor; a group starts with its opener, ends with its mate, and is the input slice it consumed |
| `KodusSQL.GroupFailure` | src/Tokenizer.php:200-231 | `grouped()` fails only after its opening bracket, for one of the causes `TokenFailure` names |
| `KodusSQL.EmptyGroup` | src/Tokenizer.php:208-220 | an opening bracket followed right away by its mate is the group of those two atoms, consuming both |
| `KodusSQL.GroupRest` | src/Tokenizer.php:213-227 | the loop of `grouped()` never yields nothing; a group it returns keeps the opener first, is well formed, and is the input slice from the opener |
| `KodusSQL.GroupRestFailure` | src/Tokenizer.php:213-227 | the loop fails at or after its position, for one of the causes `TokenFailure` names |
| `KodusSQL.GroupAtEofFails` | src/Tokenizer.php:222-226 | a group still open at the end of input fails there with "expected token or group end" |
| `KodusSQL.StatementAt` | src/Tokenizer.php:68-97 | `statement()` yields `null` exactly when only white space is left; otherwise it consumes input and keeps no end marker, no `DELIMITER` word, and only well-formed tokens |
| `KodusSQL.StatementAtText` | src/Tokenizer.php:68-97 | round trip of `statement()`: after the white space it skips, the statement spells the input up to the delimiter or the end of input that ended it, less the directive spans, and reports the delimiter the last span set |
| `KodusSQL.StatementRest` | src/Tokenizer.php:78-94 | the token loop of `statement()` consumes input unless at the end, and keeps only such tokens |
| `KodusSQL.StatementRestText` | src/Tokenizer.php:78-94 | round trip of the token loop: the text of the tokens kept is the text of those collected before, then the input from the loop's position up to the delimiter or the end of input that stopped it, less the directive spans; the delimiter reported is the one the last span set |
| `KodusSQL.DirectiveStep` | src/Tokenizer.php:79-91 | a `DELIMITER` word in a statement that goes on starts a directive span through its line, and the loop continues after the span with the trimmed line as delimiter |
| `KodusSQL.StatementsFrom` | src/Tokenizer.php:54-63 | `statements()` keeps the statements already collected, in order, and every statement it returns is non-empty with only such tokens |
| `KodusSQL.StatementsLayout` | src/Tokenizer.php:54-63 | round trip of `statements()`: the statements it collects lie in the input in order, each after skipped white space, less its directive spans, and followed by the delimiter in force for it |
| `KodusSQL.Tokenization` | src/Tokenizer.php:39-44 | every statement of `tokenize()` is non-empty and holds no end marker, no `DELIMITER` word, and only well-formed tokens |
| `KodusSQL.TokenizationLayout` | src/Tokenizer.php:39-44 | round trip of `tokenize()`: its statements are the input read in order from offset 0 with delimiter `;`, less white space, directives and delimiters, up to the end of input or an empty statement |
| `KodusSQL.DelimiterEndsStatement` | src/Tokenizer.php:104-106 | rule 1: at a truthy delimiter `token()` returns the end marker after it |
| `KodusSQL.WordToken` | src/Tokenizer.php:108-110 | away from the delimiter, a word character starts a maximal word atom |
| `KodusSQL.SemicolonIsAtom` | src/Tokenizer.php:120-122 | once the delimiter is something else (as after `DELIMITER $$`), `;` is an ordinary one-character atom |
| `KodusSQL.DelimiterInGroupFails` | src/Tokenizer.php:222-226 | the delimiter inside a group, before its mate, fails with "expected token or group end" after the delimiter |
| `KodusSQL.DirectiveSetsDelimiter` | src/Tokenizer.php:79-91 | a `DELIMITER` word: without a line break the statement fails after the blanks; with blank delimiter text it fails after the line; otherwise the statement goes on after the line with the trimmed text as delimiter |
| `KodusSQL.Tokenizer.constructor` | src/Tokenizer.php:46-49 | a new tokenizer is at offset 0 with delimiter `;` |
| `KodusSQL.Tokenizer.Tokenize` | src/Tokenizer.php:39-44 | `tokenize($input)` returns `Tokenization(input)` |
| `KodusSQL.Tokenizer.Statements` | src/Tokenizer.php:54-63 | the `while` loop returns `StatementsFrom` at the old offset and delimiter |
| `KodusSQL.Tokenizer.Statement` | src/Tokenizer.php:68-97 | the token loop returns the tokens of `StatementAt` and leaves its delimiter in the field |
| `KodusSQL.Tokenizer.Token` | src/Tokenizer.php:102-149 | `token()` returns `TokenAt` at the old offset and the current delimiter, and leaves the offset after it |
| `KodusSQL.Tokenizer.Leading` | src/Tokenizer.php:108-130 | rules 2 to 7 return `LeadingAtom` at the old offset |
| `KodusSQL.Tokenizer.Grouped` | src/Tokenizer.php:200-231 | `grouped()` and its loop return `GroupAt` at the old offset |
| `KodusSQL.Tokenizer.GroupedLoop` | src/Tokenizer.php:213-227 | the `while (true)` loop returns `GroupRest` from its entry offset with the tokens collected so far |
| `SqlParser.LeadingAtom` | src/SQLTokenizer.php:75-93 | word, space, comment, operator `[*,.+-/=]`, quoted, in order: a match is non-empty input text at the cursor; a failure comes after the cursor and is neither "expected SQL token" nor "expected token or group end" |
| `SqlParser.LeadingSymbol` | src/SQLTokenizer.php:87-93 | operator, then quoted: the same promise for the rules after the comment |
| `SqlParser.TokenAt` | src/SQLTokenizer.php:73-116 | `token()` never yields nothing; a token other than the end marker consumes input, is well formed and is the input slice it consumed; the end marker stands at the end of input or after a `;` |
| `SqlParser.TokenFailure` | src/SQLTokenizer.php:73-116 | a failing `token()` fails at or after the cursor: "expected SQL token" only at a character that starts no rule, "expected token or group end" only at the end of input or right after a `;` |
| `SqlParser.UnknownCharacterFails` | src/SQLTokenizer.php:107-115 | `token()` fails with "expected SQL token" at the cursor itself exactly when the character there starts no rule |
| `SqlParser.StrayCharacterFails` | src/SQLTokenizer.php:73-115 | a stray `)`, `]`, `}`, a `!`, `#`, `?`, `<`, `>`, `@` or a lone `:` fails with "expected SQL token" where it stands |
| `SqlParser.GroupAt` | src/SQLTokenizer.php:167-198 | `grouped()` yields nothing exactly when no opener is at the cursor; a group opens and closes with mates and is the input slice it consumed |
| `SqlParser.GroupFailure` | src/SQLTokenizer.php:167-198 | `grouped()` fails only after its opening bracket, for one of the causes `TokenFailure` names |
| `SqlParser.EmptyGroup` | src/SQLTokenizer.php:175-187 | an opening bracket followed right away by its mate is the group of those two atoms, consuming both |
| `SqlParser.GroupRest` | src/SQLTokenizer.php:180-194 | the loop of `grouped()` never yields nothing; a group it returns keeps the opener first, is well formed, and is the input slice from the opener |
| `SqlParser.GroupRestFailure` | src/SQLTokenizer.php:180-194 | the loop fails at or after its position, for one of the causes `TokenFailure` names |
| `SqlParser.GroupAtEofFails` | src/SQLTokenizer.php:189-193 | a group still open at the end of input fails there with "expected token or group end" |
| `SqlParser.StatementAt` | src/SQLTokenizer.php:53-68 | `statement()` yields `null` exactly when only white space is left; otherwise it consumes input and keeps only truthy, well-formed tokens |
| `SqlParser.StatementAtText` | src/SQLTokenizer.php:53-68 | round trip of `statement()`: after the white space it skips, the statement's text is the input up to its separator (`;`, a word `0`, or the end of input) |
| `SqlParser.StatementRest` | src/SQLTokenizer.php:63-65 | `while ($token = $this->token())`: the loop consumes input unless at the end and keeps only truthy, well-formed tokens |
| `SqlParser.StatementRestText` | src/SQLTokenizer.php:63-65 | round trip of the loop: the text of the tokens kept is the text of those collected before, then the input up to the separator that stopped it |
| `SqlParser.SeparatorAt` | src/SQLTokenizer.php:63-65 | a token PHP reads as false stands for a separator: a `;`, a word `0`, or the end of input |
| `SqlParser.StatementsFrom` | src/SQLTokenizer.php:39-48 | `statements()` keeps what it collected, in order; every statement is non-empty |
| `SqlParser.StatementsLayout` | src/SQLTokenizer.php:39-48 | round trip of `statements()`: the statements it collects lie in the input in order, each after skipped white space and followed by its separator |
| `SqlParser.LayoutSlices` | src/SQLTokenizer.php:39-48 | read piece by piece, a layout puts the statements one after another within the input, each statement's text being its piece's slice |
| `SqlParser.Tokenization` | src/SQLTokenizer.php:24-29 | every statement of `tokenize()` is non-empty with only truthy, well-formed tokens |
| `SqlParser.TokenizationLayout` | src/SQLTokenizer.php:24-29 | round trip of `tokenize()`: its statements are the input read in order from offset 0, less white space and separators, up to the end of input or an empty statement |
| `SqlParser.WordToken` | src/SQLTokenizer.php:75-77 | a word, `delimiter` included, is an ordinary maximal atom |
| `SqlParser.SemicolonEndsStatement` | src/SQLTokenizer.php:111-113 | a `;` at a token start always ends the statement, consuming it |
| `SqlParser.SemicolonInGroupFails` | src/SQLTokenizer.php:189-193 | a `;` inside a group fails with "expected token or group end" just after it |
| `SqlParser.ZeroEndsStatement` | src/SQLTokenizer.php:63-65 | a word `0` is falsy: it ends the statement and is dropped |
| `SqlParser.SQLTokenizer.constructor` | src/SQLTokenizer.php:31-34 | a new tokenizer is at offset 0 |
| `SqlParser.SQLTokenizer.Tokenize` | src/SQLTokenizer.php:24-29 | `tokenize($input)` returns `Tokenization(input)` |
| `SqlParser.SQLTokenizer.Statements` | src/SQLTokenizer.php:39-48 | the `while` loop returns `StatementsFrom` at the old offset |
| `SqlParser.SQLTokenizer.Statement` | src/SQLTokenizer.php:53-68 | the token loop returns `StatementAt` at the old offset |
| `SqlParser.SQLTokenizer.Token` | src/SQLTokenizer.php:73-116 | `token()` returns `TokenAt` at the old offset and leaves the offset after it |
| `SqlParser.SQLTokenizer.Leading` | src/SQLTokenizer.php:75-93 | the rules before `grouped()` return `LeadingAtom` at the old offset |
| `SqlParser.SQLTokenizer.Grouped` | src/SQLTokenizer.php:167-198 | `grouped()` and its loop return `GroupAt` at the old offset |
| `SqlParser.SQLTokenizer.GroupedLoop` | src/SQLTokenizer.php:180-194 | the `while (true)` loop returns `GroupRest` from its entry offset with the tokens collected so far |
| `SQLSplitter.IsComment` | src/SQLSplitter.php:47-52 | `substr($token, 0, 2)` is `--` or `/*` exactly when the atom starts with `--` or `/*` |
| `SQLSplitter.StripComments` | src/SQLSplitter.php:30-45 | the result holds no comment atom at any depth and is no longer than the input |
| `SQLSplitter.StripToken` | src/SQLSplitter.php:34-41 | a token is dropped exactly when it is a comment atom; any other atom is kept as it is, and a group is kept as the group of its own items stripped |
| `SQLSplitter.StripAtoms` | src/SQLSplitter.php:30-45 | against an independent depth-first reading of the atoms: stripping drops exactly the comment atoms, at every depth, and keeps the others in order |
| `SQLSplitter.FlattenAtoms` | src/SQLSplitter.php:54-63 | `implode` joins the atoms read depth first, in order |
| `SQLSplitter.StrippedText` | src/SQLSplitter.php:30-63 | the text of the stripped tokens is their atoms that are not comments, joined in order |
| `SQLSplitter.StripConcat` | src/SQLSplitter.php:30-45 | stripping distributes over concatenation, so the remaining tokens keep their relative order |
| `SQLSplitter.StripCommentFree` | src/SQLSplitter.php:30-45 | tokens without comment atoms are left exactly as they are |
| `SQLSplitter.StripIdempotent` | src/SQLSplitter.php:30-45 | stripping twice equals stripping once |
| `SQLSplitter.FlattenConcat` | src/SQLSplitter.php:54-63 | `implode` of a concatenation is the concatenation of the `implode`s |
| `SQLSplitter.Filter` | src/SQLSplitter.php:27 | `array_filter` keeps only texts PHP reads as true, and no more texts than it was given |
| `SQLSplitter.FilterMembers` | src/SQLSplitter.php:27 | a text survives the filter exactly when it was there and is truthy |
| `SQLSplitter.FilterConcat` | src/SQLSplitter.php:27 | filtering distributes over concatenation, so the order is kept |
| `SQLSplitter.FilterTrimmed` | src/SQLSplitter.php:24-27 | filtering trimmed texts leaves trimmed texts |
| `SQLSplitter.StripStatements` | src/SQLSplitter.php:17-19 | stripping the statement list keeps one statement per statement, and statement `i` becomes statement `i` stripped, free of comments |
| `SQLSplitter.StatementText` | src/SQLSplitter.php:24 | `trim(implode($token))` has no trimmable character at either end |
| `SQLSplitter.Texts` | src/SQLSplitter.php:23-25 | one text per statement, in order: text `i` is the trimmed text of statement `i` |
| `SQLSplitter.TextsStripped` | src/SQLSplitter.php:17-25 | the texts of the stripped statements are, for each statement, its atoms that are not comments, joined and trimmed |
| `SQLSplitter.StatementTexts` | src/SQLSplitter.php:23-25 | the `foreach` loop returns `Texts` of the statements |
| `SQLSplitter.SplitTexts` | src/SQLSplitter.php:17-27 | what `split` returns is at most one text per statement, each truthy and trimmed |
| `SQLSplitter.SplitMembers` | src/SQLSplitter.php:17-27 | a text is in what `split` returns exactly when PHP reads it as true and it is the trimmed text of one of the statements, stripped first when `stripComments` is set |
| `SQLSplitter.SplitConcat` | src/SQLSplitter.php:23-27 | the texts of two lists of statements one after the other are the texts of the first then those of the second, so the order of the statements is kept |
| `SQLSplitter.SplitOne` | src/SQLSplitter.php:23-27 | one statement yields its trimmed text, or nothing when PHP reads that text as false |
| `SQLSplitter.Splitting` | src/SQLSplitter.php:13-28 | `split` fails exactly when the tokenizer fails, with the tokenizer's error |
| `SQLSplitter.SplitSlices` | src/SQLSplitter.php:13-28 | round trip of `split` with comments kept: its texts are the stretches of the input between separators, in order, trimmed, less those PHP reads as false |
| `SQLSplitter.SplitStrippedSlices` | src/SQLSplitter.php:13-28 | round trip of `split` with comments stripped: each statement's atoms joined are its stretch of the input, and its text is those atoms that are not comments, joined and trimmed, less those PHP reads as false |
| `SQLSplitter.Split` | src/SQLSplitter.php:13-28 | the method with the `foreach` loop returns `Splitting(sql, stripComments)` |
| `SQLSplitter.StrippedExample` | test/test.php:56-65 | the two token lists that the tokenizer test gives for `-- one\nSELECT -- two\n1; -- three\n-- four`, split with comments stripped, give `["SELECT \n1"]` |
| `SQLSplitter.UnstrippedExample` | test/test.php:56-66 | the same token lists split with comments kept give `["-- one\nSELECT -- two\n1", "-- three\n-- four"]` |

## Left out

- The PCRE engine is not modelled. Each `consume(pattern)` is a dedicated scanner with these readings:
  - `\w` is ASCII letters, digits and `_`;
  - `\s` is space, tab, LF, VT, FF and CR;
  - `.` also matches a line break (the `s` flag).
  - `matches()` is unused by the code and is left out.
- `preg_quote` escaping is not modelled. The delimiter and the dollar tag are compared as literal text.
  - `preg_quote` does not escape `/`, so in PHP a delimiter such as `//` makes the `/…/sA` pattern invalid, and that delimiter never matches.
  - The model treats every delimiter as literal text instead.
- Exception messages from `fail()` are not modelled. The model returns an `Error` with the offset and a reason tag.
- Offsets are indices into a sequence of characters. PHP's `$offset`, and the offsets in the messages of `fail()`, count bytes, so they differ from the model's after non-ASCII input.
- A backslash as the last character of the input inside a quoted literal is modelled as a failure (`EscapeAtEnd`) at the backslash.
  - In PHP, the offset moves past the end of the input, and `substr_compare` then raises an error.
- The exact error offset after the delimiter text is modelled for a literal delimiter only.
- KodusSQL.TokenAt: the verbatim property is stated only under conditions 1 and 2. Where they fail the source consumes text that no token holds, but condition 1 also excludes inputs where no text is lost, such as `'$$a$$$$'`. Its own contract speaks of matches; when it fails is stated by `TokenFailure`, `UnknownCharacterFails` and `StrayCharacterFails`.
- KodusSQL.GroupAt: the verbatim property is stated only under conditions 1 and 2, as for `TokenAt`. When it fails is stated by `GroupFailure` and `GroupAtEofFails`, not by its own contract.
- KodusSQL.GroupRest: the verbatim property is stated only under conditions 1 and 2, as for `TokenAt`. When it fails is stated by `GroupRestFailure` and `GroupAtEofFails`, not by its own contract.
- SqlParser.TokenAt: the verbatim property is stated only under condition 1, which also excludes inputs such as `'$$a$$$$'` where no text is lost. When it fails is stated by `TokenFailure`, `UnknownCharacterFails` and `StrayCharacterFails`.
- SqlParser.GroupAt: the verbatim property is stated only under condition 1. When it fails is stated by `GroupFailure` and `GroupAtEofFails`.
- SqlParser.GroupRest: the verbatim property is stated only under condition 1. When it fails is stated by `GroupRestFailure` and `GroupAtEofFails`.
- KodusSQL.StatementRest: its own contract states the shape of the tokens kept. The round trip to the input is `StatementRestText`, under conditions 1 and 2.
- KodusSQL.StatementsFrom: its own contract states the shape of the statements. The round trip to the input is `StatementsLayout`, under conditions 1 and 2.
- KodusSQL.Tokenization: its own contract states the shape of the statements. The round trip to the input is `TokenizationLayout`, under conditions 1 and 2.
- KodusSQL.StatementRestText: a directive that sets the delimiter `0` is excluded (`NoZeroDirective`). The source then consumes each later `0` as a falsy delimiter, and its text is lost.
- KodusSQL.StatementsLayout: excludes a directive that sets `0`, as `StatementRestText` does.
- KodusSQL.TokenizationLayout: excludes a directive that sets `0`, as `StatementRestText` does.
- SqlParser.StatementRest: its own contract states the shape of the tokens kept. The round trip to the input is `StatementRestText`, under condition 1.
- SqlParser.StatementsFrom: its own contract states the shape of the statements. The round trip to the input is `StatementsLayout`, under condition 1.
- Lexer.Trim: its own contract states the ends of the result. That the result is the input less trimmable characters at both ends is `TrimEnds`.
- SQLSplitter.StatementText: its own contract states that the text is trimmed. That it is the imploded statement less trimmable characters at both ends follows from `TrimEnds`.
- SQLSplitter.SplitTexts: its own contract states the bound and the shape of each text. Which texts survive is `SplitMembers`, and their order is `SplitConcat` with `SplitOne`.
- SQLSplitter.Splitting: its own contract states the failure case. The texts on success are `SplitSlices` and `SplitStrippedSlices`, under condition 1.
- SQLSplitter.StrippedExample: starts from the token lists of the tokenizer test, not from the input text. That `SQLTokenizer` produces those lists for `-- one\nSELECT -- two\n1; -- three\n-- four` is not proved.
- SQLSplitter.UnstrippedExample: starts from the same token lists. The tokenization of its input is not proved either.
- The keys that `array_filter` keeps are not modelled. `split` returns a plain sequence.
- Some test expectations are not met by the code as written and are not stated:
  - `::` as one token;
  - leading or middle empty statements being skipped (the code stops at the first empty statement).
- `Kodus\SQL\Splitter` and `Kodus\SQLSplit\Splitter`, which the tests call, are not part of this model.
- No whole-input tokenization of a concrete string (such as `SELECT 1; SELECT 2`) is proved. The round-trip lemmas state the tokenization of every input in general.
