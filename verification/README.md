# nxe-cedar: a verified model

nxe-cedar parses and evaluates Cedar access policies. This project models its tokenizer, its
recursive-descent parser, its `like` patterns, its runtime values and their equality, its extension
types (ip, decimal, datetime, duration), its bounded evaluator, its policy decision and its builder for
evaluation contexts, and proves what they are for. `dafny verify dfyconfig.toml` checks everything.

Each part comes twice: as functions that say what the source computes, about which the theorems are
stated, and as methods and classes in the source's own form (a moving position, growing arrays, counters,
bitmaps, shared containers), proved to compute those functions.

The language is also given declaratively, without tokenizer or parser: pieces of literals, layouts of
tokens, phrases (concrete syntax trees, with every spelling) and statements, with the limits as numbers.
`Language.AcceptedExactly` says that the source accepts exactly these texts, with that meaning. Likewise
Operators, Methods, Membership and Verdicts write out what evaluation and decisions mean.

| part | files |
|---|---|
| tokens and text | Utf8, Escapes, Lexer, Scanner, Rendering, Pieces, Lexemes |
| expressions | Syntax, Grammar, Parser, Printer, RoundTrip, ParserImage, Phrases, PhraseReading, PhraseImage |
| policies | PolicyGrammar, PolicyParser, PolicyRoundTrip, PolicyImage, Parentheses, Statements, Language, Spellings |
| patterns | Pattern |
| extension types | Digits, Reading, Decimal, Civil, Datetime, Duration, IpText, Ipv6, Cidr |
| values | Values, Bitmap, Equality, SetEquality |
| evaluation | Semantics, Machine, Operators, Methods, Membership, Bounded, Slots, Substitution, Results |
| decision and context | Decision, Verdicts, Builder, Injection |

Bytes are characters in texts and integers below 256 in addresses. 64-bit integers are unbounded integers
with explicit range checks where the source has them; C division truncates and is defined in Common.

Where the code and its comments or documentation disagree, the model follows the code:

- Set equality counts duplicates, although Cedar sets do not: it is equality of multisets
  (`SetEquality.SetsAreMultisets`) and agrees with that of sets exactly on sets without duplicates
  (`SetEquality.AnswersSetEquality`).
- The comment at the evaluation depth limit says that every accepted expression evaluates without meeting
  it; `Bounded.GuardCanFire` gives accepted expressions that do. What holds is `Bounded.BoundedEval`,
  and for expressions without optional parts exactly `Bounded.StraightBounded`.
- The comment at the depth limit of equality says the other limits already bound the nesting;
  `Results.DeepSetsAreNotComparable` gives accepted expressions that exceed it. The exact limit
  is `Equality.ComparableExactly`. Injected values never exceed the depth, but they may exceed the size of
  1024 members (`Builder.StoredValuesCompare`).
- Eight IPv6 groups followed by `::` are accepted (`Ipv6.EightAndGap`); every other accepted text is a
  spelling of RFC 4291 or a dotted quad (`Ipv6.IpOnly`).
- toDate of an instant in the first, incomplete day of the 64-bit range overflows; `Datetime.DateAndTime`
  says exactly when. The model returns the exact difference there.
- The feature documentation lists the escape `\'`, which the decoder does not have
  (`Escapes.EscapeLetters`).
- Printing what was parsed can exceed the parser's limits, which redundant parentheses helped to keep:
  `PolicyImage.Normalizes` says exactly when, and Parentheses has such texts for member steps, operators and depth.

## Model

| member | source | states |
|---|---|---|
| `Language.AcceptedExactly` | src/nxe_cedar_parser.c:2033-2105 | a text is parsed to the policies ps exactly if it is a layout of statements of the grammar, within the limits, that stand for ps: both directions, for every text, without naming the tokenizer or the parser |
| `Language.StatementsExactly` | src/nxe_cedar_parser.c:2033-2105 | the same for token lists |
| `Language.MeaningUnique` | src/nxe_cedar_parser.c:2033-2105 | so the grammar is unambiguous: a text means at most one list of policies |
| `PhraseImage.GrammarExactly` | src/nxe_cedar_parser.c:688-1631 | at any nesting, the parser reads exactly the phrases of the declarative grammar that keep the limits, each as the expression it stands for |
| `PhraseReading.ReadExpr` | src/nxe_cedar_parser.c:1564-1631 | every phrase of the grammar, with any parentheses, digits, quotes and commas, is read as what it stands for exactly if it keeps the limits, and is rejected otherwise |
| `PhraseReading.ReadChain` | src/nxe_cedar_parser.c:1133-1221 | chains of at most 256 operators associate to the left |
| `PhraseReading.ReadFields` | src/nxe_cedar_parser.c:553-685 | record entries: at most 64, with distinct names, the last one with or without a comma |
| `PhraseReading.ReadMember` | src/nxe_cedar_parser.c:1094-1128 | chains of at most 16 member steps |
| `PhraseImage.ExprPhrase` | src/nxe_cedar_parser.c:1564-1631 | whatever tokens it reads are such a phrase |
| `PhraseImage.EntriesPhrases` | src/nxe_cedar_parser.c:553-685 | the entries that were read, and whether a comma followed the last one |
| `Statements.ReadPolicySet` | src/nxe_cedar_parser.c:2033-2105 | every sequence of statements is read as its policies exactly if it keeps the limits |
| `Statements.ReadConstraint` | src/nxe_cedar_parser.c:1717-1798 | scopes: `==`, `in`, `is` and `is..in`, with sets of references only after `action in` |
| `Language.StatementPhrase` | src/nxe_cedar_parser.c:1932-2029 | every policy that is read is a statement of the grammar |
| `Spellings.TrailingComma` | src/nxe_cedar_parser.c:662-668 | `{ e1, .., en, }` is read exactly like `{ e1, .., en }`, for every non-empty list of entries, whatever follows, within the same limits |
| `Spellings.RecordSpelled` | src/nxe_cedar_parser.c:590-640 | record keys written bare or as strings, with or without that comma, are read like the printed record, and rejected by the same limits |
| `Spellings.HasSpelled` | src/nxe_cedar_parser.c:1239-1277 | after `has`, a name can be bare or a string |
| `Spellings.IndexSpelled` | src/nxe_cedar_parser.c:973-1011 | `["name"]` is read like `.name` |
| `Spellings.EmptyValue` | src/nxe_cedar_parser.c:1837-1927 | `@key("")` is read like `@key`, wherever it stands |
| `Lexemes.TokensExactly` | src/nxe_cedar_lexer.c:482-662 | a text has the tokens ts, none of them an error, exactly if it is these tokens' texts with gaps between them and no text running on into the next one |
| `Lexemes.LexWritten` | src/nxe_cedar_lexer.c:482-662 | however tokens are laid out, the text has exactly these tokens |
| `Lexemes.LayoutOf` | src/nxe_cedar_lexer.c:482-662 | every text without an error token is such a layout |
| `Lexemes.GapsTrimmed` | src/nxe_cedar_lexer.c:50-88 | white space and line comments before a token do not matter |
| `Lexemes.Skipped` | src/nxe_cedar_lexer.c:50-88 | what is skipped before a token is white space (space, tab, line feed, carriage return) and line comments, the last one perhaps unfinished |
| `Lexemes.TokenOnly` | src/nxe_cedar_lexer.c:482-662 | what is read as a token without an error is that token's text, and what follows does not continue it |
| `Pieces.LiteralReads` | src/nxe_cedar_lexer.c:273-388 | a literal of any pieces (characters, one-letter escapes, `\xHH`, `\u{H..}`, `\*`) is one token whose value is the bytes of the pieces |
| `Pieces.LiteralOnly` | src/nxe_cedar_lexer.c:273-388 | and there are no other string tokens |
| `Pieces.EscapeReads` | src/nxe_cedar_lexer.c:149-269 | what each escape stands for: `n` 10, `r` 13, `t` 9, `0` 0, hexadecimal pairs their byte, `u` the encoding of its scalar value |
| `Pieces.EscapeOnly` | src/nxe_cedar_lexer.c:149-269 | and there are no other escapes |
| `Pieces.HexTable` | src/nxe_cedar_lexer.c:91-107 | hexadecimal digits in either case, by their place among the sixteen |
| `Pieces.PatternReads` | src/nxe_cedar_parser.c:153-248 | patterns, piece by piece: a bare `*`, or an escape that denotes it, is a wildcard, `\*` the character, every other piece its bytes |
| `Pieces.PatternOnly` | src/nxe_cedar_parser.c:153-248 | and there are no other patterns |
| `RoundTrip.ParsePrint` | src/nxe_cedar_parser.c:688-963 | parsing undoes printing with minimal parentheses: every well-formed expression is read back to itself exactly when it keeps the depth, chain, member and record limits, and is rejected otherwise |
| `RoundTrip.RoundTrip` | src/nxe_cedar_parser.c:1094-1631 | the same at every precedence level, with any tokens behind that cannot continue the expression |
| `RoundTrip.ChainTrip` | src/nxe_cedar_parser.c:1133-1221 | or, and, additive and multiplicative chains associate to the left and hold at most 256 operators |
| `RoundTrip.RelTrip` | src/nxe_cedar_parser.c:1226-1379 | relations do not associate: their operands are printed one level tighter and one relation is read |
| `RoundTrip.IsTrip` | src/nxe_cedar_parser.c:1279-1330 | `is T in e` is one relation whose `in` belongs to the `is` |
| `RoundTrip.NegTrip` | src/nxe_cedar_parser.c:1384-1469 | unary minus: a number after it is folded, anything else is negated |
| `RoundTrip.ReadNegative` | src/nxe_cedar_parser.c:286-307 | negative literals down to INT64_MIN are read as literals |
| `RoundTrip.MemberTrip` | src/nxe_cedar_parser.c:1094-1128 | member chains of at most 16 steps |
| `RoundTrip.CallTrip` | src/nxe_cedar_parser.c:1021-1081 | method calls with and without an argument |
| `RoundTrip.ReadEntity` | src/nxe_cedar_parser.c:405-463 | entity references with up to 16 type segments |
| `RoundTrip.SetTrip` | src/nxe_cedar_parser.c:468-534 | set literals of up to 256 elements |
| `RoundTrip.RecordTrip` | src/nxe_cedar_parser.c:553-685 | record literals of up to 64 distinct keys, nested at most 16 deep |
| `RoundTrip.IfTrip` | src/nxe_cedar_parser.c:1564-1631 | if-then-else stands at expression level only |
| `Parser.Parser.Advance` | src/nxe_cedar_parser.c:68-75 | moves the cursor by one token and raises the error flag exactly at an error token |
| `Parser.Parser.Expect` | src/nxe_cedar_parser.c:79-92 | takes the given token or raises the flag |
| `Parser.Parser.ParseExpr` | src/nxe_cedar_parser.c:1564-1631 | computes the grammar function, restores depth and record depth on every return, keeps the flag sticky, terminates |
| `Parser.Parser.ParseIf` | src/nxe_cedar_parser.c:1564-1631 | likewise for conditionals |
| `Parser.Parser.ParseChain` | src/nxe_cedar_parser.c:1133-1559 | likewise for the four chain loops with their operator counter |
| `Parser.Parser.ParseRelation` | src/nxe_cedar_parser.c:1226-1379 | likewise for relations |
| `Parser.Parser.ParseTypeName` | src/nxe_cedar_parser.c:361-397 | likewise for type names |
| `Parser.Parser.ParseUnary` | src/nxe_cedar_parser.c:1384-1469 | likewise for `!`, `-` and folded literals |
| `Parser.Parser.ParseMember` | src/nxe_cedar_parser.c:1094-1128 | likewise for member chains with their step counter |
| `Parser.Parser.ParseBracketStep` | src/nxe_cedar_parser.c:973-1011 | likewise for `["key"]` |
| `Parser.Parser.ParseDotStep` | src/nxe_cedar_parser.c:1021-1081 | likewise for `.name` and calls |
| `Parser.Parser.ParsePrimary` | src/nxe_cedar_parser.c:690-963 | likewise for primary expressions |
| `Parser.Parser.ParseEntityRef` | src/nxe_cedar_parser.c:405-463 | likewise for entity references |
| `Parser.Parser.ParseSet` | src/nxe_cedar_parser.c:468-534 | likewise for set literals |
| `Parser.Parser.ParseElements` | src/nxe_cedar_parser.c:468-534 | likewise for the growing element array, up to 256 elements |
| `Parser.Parser.ParseRecord` | src/nxe_cedar_parser.c:553-685 | likewise for records, with the record depth restored |
| `Parser.Parser.ParseEntry` | src/nxe_cedar_parser.c:553-685 | one entry: rejects a key that is already there |
| `ParserImage.ImageExpr` | src/nxe_cedar_parser.c:1564-1631 | whatever tokens it reads, the parser returns a well-formed expression with records at most 16 deep, and has read no error token |
| `ParserImage.ImageRecord` | src/nxe_cedar_parser.c:553-685 | returned records have at most 64 distinct keys |
| `ParserImage.ImageSet` | src/nxe_cedar_parser.c:468-534 | returned sets have at most 256 elements |
| `ParserImage.SegmentsSnoc` | src/nxe_cedar_parser.c:316-352 | appending `::Name` to a type name appends one segment |
| `PolicyRoundTrip.ParsePrintPolicies` | src/nxe_cedar_parser.c:2033-2105 | parsing undoes printing for whole policy sets: exactly those within the limits on policies, conditions, annotations and expressions are read back, and others are rejected |
| `PolicyRoundTrip.ConstraintTrip` | src/nxe_cedar_parser.c:1717-1798 | scope constraints are read back; sets only for actions, `is` never for actions |
| `PolicyRoundTrip.ConditionsTrip` | src/nxe_cedar_parser.c:1803-1832 | up to 16 conditions in order |
| `PolicyRoundTrip.AnnotationsTrip` | src/nxe_cedar_parser.c:1837-1927 | up to 16 annotations with distinct keys |
| `PolicyImage.AcceptedText` | src/nxe_cedar_parser.c:2033-2105 | an accepted text holds no error token, was read to its end, and gives at most 256 policies within all limits |
| `PolicyImage.PolicyTextRoundTrip` | src/nxe_cedar_parser.c:2033-2105 | the same from policy set to text and back |
| `PolicyImage.Normalizes` | src/nxe_cedar_parser.c:2033-2105 | printing what an accepted text parses to and parsing that gives the same policies, exactly if the conditions keep the limits when printed with minimal parentheses; otherwise the printed text is rejected |
| `Parentheses.HiddenSteps` | src/nxe_cedar_parser.c:1094-1128 | a text accepted only for its redundant parentheses: around the first 16 of 17 member steps |
| `Parentheses.HiddenOperators` | src/nxe_cedar_parser.c:1133-1221 | likewise around the first 256 of 257 operators of a chain |
| `Parentheses.HiddenDepth` | src/nxe_cedar_parser.c:1384-1469 | likewise around the number in `-(i).f(x)`, which printing moves around the whole call and so puts x one level deeper |
| `Parentheses.DepthIsReached` | src/nxe_cedar_parser.c:1384-1469 | there are such texts: with 61 brackets in x |
| `Parentheses.StepsAreReached` | src/nxe_cedar_parser.c:1094-1128 | and a path of 17 steps |
| `Parentheses.OperatorsAreReached` | src/nxe_cedar_parser.c:1133-1221 | and a conjunction with 257 operators |
| `PolicyImage.AcceptedUnscoped` | src/nxe_cedar_eval.c:94-175 | for every accepted text, writing its scopes as `when` clauses decides every request the same |
| `PolicyImage.LexProper` | src/nxe_cedar_lexer.c:418-467 | identifier tokens are names and never keywords |
| `PolicyParser.ParseTarget` | src/nxe_cedar_parser.c:1691-1705 | computes the grammar function with the shared cursor |
| `PolicyParser.ParseInTarget` | src/nxe_cedar_parser.c:1636-1686 | sets of entity references only after `action in` |
| `PolicyParser.ParseScope` | src/nxe_cedar_parser.c:1717-1798 | scopes |
| `PolicyParser.ParseConditions` | src/nxe_cedar_parser.c:1972-2010 | the condition loop with its counter |
| `PolicyParser.ParseAnnotations` | src/nxe_cedar_parser.c:1837-1927 | the annotation loop with its duplicate check |
| `PolicyParser.ParsePolicy` | src/nxe_cedar_parser.c:1932-2029 | one policy |
| `PolicyParser.ParsePolicySet` | src/nxe_cedar_parser.c:2033-2105 | the policies of a token list, or none |
| `PolicyParser.ParseText` | src/nxe_cedar_parser.c:2033-2105 | from a text: tokenizes it and parses the tokens |
| `Scanner.QuoteRead` | src/nxe_cedar_lexer.c:273-388 | escaping only quotes and backslashes and lexing returns the original string, for every string |
| `Scanner.ScanAgrees` | src/nxe_cedar_lexer.c:273-388 | the quote scan and the escape decoder agree on every escape boundary, and no accepted literal ends in a lone backslash |
| `Scanner.DecoderAligned` | src/nxe_cedar_lexer.c:273-388 | over a whole accepted literal |
| `Lexer.Unquote` | src/nxe_cedar_lexer.c:273-388 | the decoded value is never longer than the raw text |
| `Scanner.Unescape` | src/nxe_cedar_lexer.c:334-388 | decoding into a buffer as long as the raw text computes the value and never writes past it |
| `Scanner.Scanner.SkipWhitespace` | src/nxe_cedar_lexer.c:50-88 | white space and line comments are skipped |
| `Scanner.Scanner.ReadString` | src/nxe_cedar_lexer.c:273-388 | reads a literal and leaves the position behind its closing quote |
| `Scanner.Scanner.ReadNumber` | src/nxe_cedar_lexer.c:392-414 | the longest run of digits |
| `Scanner.Scanner.ReadName` | src/nxe_cedar_lexer.c:418-467 | the longest run of name characters, looked up in the keyword table |
| `Scanner.Scanner.Next` | src/nxe_cedar_lexer.c:482-662 | the next token and the position behind it; makes progress until the end |
| `Scanner.Tokenize` | src/nxe_cedar_lexer.c:482-662 | asking for the next token until the end gives all tokens of the text |
| `Rendering.LexRendered` | src/nxe_cedar_lexer.c:482-662 | tokenizing undoes writing tokens out with spaces, for all tokens a text can have |
| `Rendering.KindName` | src/nxe_cedar_parser.c:57-66 | in the place of a name, an extension keyword is the name it is spelled like |
| `Rendering.PrintRenderable` | src/nxe_cedar_parser.c:688-963 | the printed tokens of every well-formed expression are such tokens |
| `Rendering.TextRoundTrip` | src/nxe_cedar_parser.c:1564-1631 | from expression to text and back: the expression again, exactly when it keeps the limits |
| `Utf8.EncodeWellFormed` | src/nxe_cedar_lexer.c:111-137 | every scalar value is encoded as a well-formed sequence (section 3 of RFC 3629), never with a byte 0xFF |
| `Utf8.EncodeUnique` | src/nxe_cedar_lexer.c:111-137 | and it is the only well-formed sequence for that value |
| `Escapes.DecodeEscape` | src/nxe_cedar_lexer.c:149-269 | an escape yields at least one byte and fewer bytes than it has characters |
| `Escapes.EscapeLetters` | src/nxe_cedar_lexer.c:149-269 | the characters that can follow a backslash are exactly `" \ n r t 0 x u` |
| `Escapes.NoWildFromEscape` | src/nxe_cedar_lexer.c:149-269 | with 0xFF rejected, no escape yields 0xFF |
| `Escapes.EscapeBodyPlain` | src/nxe_cedar_lexer.c:149-269 | no quote or backslash occurs inside an accepted escape after its first character |
| `Escapes.Decode` | src/nxe_cedar_lexer.c:149-269 | the in-place decoder writes exactly those bytes and moves both positions |
| `Pattern.LikeMatch` | src/nxe_cedar_expr.c:1355-1398 | the greedy matcher with its single recorded star decides the declarative meaning of a pattern, for every subject |
| `Pattern.CompiledMeansRaw` | src/nxe_cedar_parser.c:153-248 | the compiled bytes match exactly what the raw pattern matches |
| `Pattern.CompressKeepsMeaning` | src/nxe_cedar_parser.c:218-242 | dropping repeated markers keeps the language |
| `Pattern.NoLiteralWild` | src/nxe_cedar_parser.c:153-248 | 0xFF occurs in compiled patterns only as the wildcard marker |
| `Pattern.CompiledShape` | src/nxe_cedar_parser.c:153-248 | the output fits in the length of the raw text and has no two markers side by side |
| `Pattern.CompileSpell` | src/nxe_cedar_parser.c:153-248 | compiling undoes spelling, so every compiled pattern has a raw text |
| `Pattern.MatchesConcat` | src/nxe_cedar_expr.c:1355-1398 | patterns match concatenated texts by cutting them |
| `Pattern.NextStar` | src/nxe_cedar_expr.c:1375-1380 | a later wildcard makes the earlier one forgettable: backtracking to the last star is complete |
| `Pattern.Backtrack` | src/nxe_cedar_expr.c:1384-1389 | a mismatch lets the recorded star take one more byte and loses no match |
| `Pattern.Compile` | src/nxe_cedar_parser.c:153-248 | the two in-place passes compute the compiled pattern |
| `Pattern.Squeeze` | src/nxe_cedar_parser.c:218-242 | the squeezing pass, behind its own reading position |
| `Equality.EqualDecides` | src/nxe_cedar_expr.c:933-1092 | unless it fails, value equality decides whether a recursive bijection exists |
| `Equality.EqualIsSame` | src/nxe_cedar_expr.c:933-1092 | on a value whose every node is at most 32 deep, of at most 1024 members and no error, it never fails and answers exactly that |
| `Equality.NeverFails` | src/nxe_cedar_expr.c:933-1092 | no failure from the depth, size or error checks on such values, starting at any depth, whatever the other value is |
| `Equality.MatchSetDecides` | src/nxe_cedar_expr.c:985-1024 | greedy matching with a used bitmap finds a pairing whenever there is one |
| `Equality.Exchange` | src/nxe_cedar_expr.c:985-1024 | whatever partner the first element takes, the others can still be paired |
| `Equality.MatchRecordDecides` | src/nxe_cedar_expr.c:1026-1087 | likewise for records, where the first unused entry of a name is the only candidate |
| `Equality.RecordsAreMaps` | src/nxe_cedar_expr.c:1026-1087 | with unique keys, records are the same exactly when they agree as maps |
| `Equality.Reflexive` | src/nxe_cedar_expr.c:933-1092 | sameness is reflexive |
| `Equality.Symmetric` | src/nxe_cedar_expr.c:933-1092 | symmetric |
| `Equality.Transitive` | src/nxe_cedar_expr.c:933-1092 | and transitive |
| `Equality.ComparableExactly` | src/nxe_cedar_expr.c:933-1092 | and on no others: a value can be compared with everything exactly if it is within those limits |
| `Equality.SelfAnswer` | src/nxe_cedar_expr.c:933-1092 | `v == v` is true, or an error exactly beyond the limits |
| `SetEquality.SetsAreMultisets` | src/nxe_cedar_expr.c:985-1024 | two sets are the same exactly if every value occurs equally often in both |
| `SetEquality.AnswersMultisets` | src/nxe_cedar_expr.c:985-1024 | and that is the answer within the limits |
| `SetEquality.SetEqualityExactly` | src/nxe_cedar_expr.c:985-1024 | this is equality of sets on the sets without duplicates and on no others |
| `SetEquality.AnswersSetEquality` | src/nxe_cedar_expr.c:985-1024 | the same about the answer: right for every duplicate-free other side exactly if there are no duplicates |
| `SetEquality.EqualByLength` | src/nxe_cedar_expr.c:985-1024 | equal as sets and one side without duplicates: the same exactly if equally long |
| `SetEquality.DuplicatesCount` | src/nxe_cedar_expr.c:985-1024 | for instance `[1, 1] == [1]` is false although they are equal as sets |
| `Bitmap.Mark` | src/nxe_cedar_expr.c:992-1015 | setting a bit of the bitmap of 64-bit words marks that position and no other |
| `Equality.ValueEquals` | src/nxe_cedar_expr.c:933-1092 | the recursive method with its three results computes the specification |
| `Equality.SetEquals` | src/nxe_cedar_expr.c:985-1024 | the double loop with the bitmap |
| `Equality.RecordEquals` | src/nxe_cedar_expr.c:1026-1087 | the double loop by name |
| `Bounded.BoundedEval` | src/nxe_cedar_expr.c:2368-2391 | with any number of frames left the guarded evaluator returns the unguarded value or an error, and the value itself when the expression is shallow enough |
| `Bounded.StrictMonotone` | src/nxe_cedar_expr.c:1933-2357 | operators are strict in errors |
| `Bounded.ExceedsErrs` | src/nxe_cedar_expr.c:2368-2391 | if the positions that are always evaluated nest deeper than the frames left, it is an error in every environment |
| `Bounded.StraightBounded` | src/nxe_cedar_expr.c:2368-2391 | exactly so for expressions no part of which may be skipped: the unguarded value within the bound, an error beyond |
| `Bounded.GuardCanFire` | src/nxe_cedar_types.h:402-414 | the parser accepts chains of 128 to 256 operators that evaluate to true without the guard and to an error with it; below 128 they do not meet it |
| `Machine.Machine.Evaluate` | src/nxe_cedar_expr.c:2368-2391 | the evaluator with its mutable counter returns the guarded value, and the counter is the same after the call on every path |
| `Machine.Machine.EvaluateBody` | src/nxe_cedar_expr.c:1933-2357 | the operator dispatch |
| `Machine.Machine.EvaluateAttr` | src/nxe_cedar_expr.c:1214-1278 | attribute access with its fast path |
| `Machine.Machine.EvaluateHas` | src/nxe_cedar_expr.c:1292-1340 | `has` with its fast path |
| `Machine.Machine.EvaluateCall` | src/nxe_cedar_expr.c:1462-1833 | method calls |
| `Machine.Machine.EvaluateIs` | src/nxe_cedar_expr.c:1898-1929 | `is` and `is..in` |
| `Machine.Machine.EvaluateIf` | src/nxe_cedar_expr.c:2334-2352 | conditionals, whose result loses its tag |
| `Machine.Machine.EvaluateAll` | src/nxe_cedar_expr.c:2016-2046 | set literals, element by element |
| `Machine.EvalIn` | src/nxe_cedar_expr.c:1838-1893 | `in` over a set: errs if any element is not an entity, wherever it stands |
| `Machine.EntityInTarget` | src/nxe_cedar_eval.c:29-56 | reflexive membership over the parents list |
| `Machine.EvalContainsAll` | src/nxe_cedar_expr.c:1595-1637 | the double loop of containsAll |
| `Operators.LeafEquality` | src/nxe_cedar_expr.c:933-984 | values without members are equal exactly if they are identical up to the slot of an entity and the unused bytes of an IPv4 address |
| `Operators.KindsDiffer` | src/nxe_cedar_expr.c:933-984 | values of different kinds are never equal |
| `Operators.EqualLeaves` | src/nxe_cedar_expr.c:2135-2182 | so `==` and `!=` on such operands compare these normal forms |
| `Operators.Comparisons` | src/nxe_cedar_expr.c:2196-2251 | `<`, `<=`, `>`, `>=` on two Longs, datetimes or durations compare their numbers, and err on everything else |
| `Operators.Arithmetic` | src/nxe_cedar_expr.c:904-931 | `+`, `-`, `*` give the exact integer, or an error exactly outside 64 bits |
| `Operators.Negation` | src/nxe_cedar_expr.c:2296-2311 | unary minus, an error exactly for INT64_MIN and anything but a Long |
| `Operators.Logic` | src/nxe_cedar_expr.c:2089-2134 | `&&`, `\|\|`, `!`: only Boolean operands count, and the right one only if it is needed |
| `Operators.Conditional` | src/nxe_cedar_expr.c:2334-2352 | a conditional has the value of the branch its condition chooses, whatever the other one is |
| `Operators.LikeRaw` | src/nxe_cedar_expr.c:2315-2327 | `like` is matching the raw pattern |
| `Operators.Entities` | src/nxe_cedar_expr.c:1969-2011 | entity literals and keywords denote their entities |
| `Operators.Extensions` | src/nxe_cedar_expr.c:1957-1968 | each extension constructor reads its own kind of text |
| `Operators.SetElements` | src/nxe_cedar_expr.c:2015-2046 | a set literal holds the values of its elements in order, or errs if one does |
| `Operators.RecordElements` | src/nxe_cedar_expr.c:2047-2083 | a record literal holds the values of its entries under their keys |
| `Operators.KeywordAttributes` | src/nxe_cedar_expr.c:1097-1170 | `.name` and `has name` on a keyword look at the attributes of what it names |
| `Operators.RecordAttributes` | src/nxe_cedar_expr.c:1214-1340 | and on a record at its members |
| `Operators.LiteralAttributes` | src/nxe_cedar_expr.c:1145-1205 | and on an entity literal at those of the first request entity of that identity |
| `Methods.SetMethods` | src/nxe_cedar_expr.c:1481-1730 | contains, containsAll, containsAny are membership, inclusion and overlap up to sameness; isEmpty says there is no element |
| `Methods.SetMethodsErr` | src/nxe_cedar_expr.c:1481-1730 | on anything but sets they are errors |
| `Methods.DatetimeArithmetic` | src/nxe_cedar_expr.c:1745-1790 | offset adds and durationSince subtracts, both errors exactly outside 64 bits |
| `Methods.DateAndTimeOf` | src/nxe_cedar_expr.c:1497-1521 | toDate is the midnight before, toTime the time since |
| `Methods.DurationUnits` | src/nxe_cedar_expr.c:1523-1556 | durations in whole units, rounded toward zero |
| `Methods.DecimalComparisons` | src/nxe_cedar_expr.c:1790-1832 | the four decimal comparisons compare the scaled numbers |
| `Methods.IpProperties` | src/nxe_cedar_expr.c:1558-1625 | isLoopback and isMulticast by first bytes and prefix lengths |
| `Methods.InRange` | src/nxe_cedar_expr.c:1731-1743 | isInRange is inclusion of address blocks of one family |
| `Methods.NoSuchMethod0` | src/nxe_cedar_expr.c:1478-1627 | any other method without an argument is an error |
| `Methods.NoSuchMethod1` | src/nxe_cedar_expr.c:1462-1833 | any other method for that kind of value is an error |
| `Membership.KeywordIn` | src/nxe_cedar_expr.c:1838-1893 | a keyword in an entity: true exactly if its party is that entity or has it among its parents |
| `Membership.LiteralIn` | src/nxe_cedar_expr.c:1838-1893 | an entity literal has the parents of the first request entity with its identity |
| `Membership.KeywordInSet` | src/nxe_cedar_expr.c:1838-1893 | a keyword in a set of references: true exactly if that holds for one of them |
| `Membership.InErrs` | src/nxe_cedar_expr.c:1838-1893 | `in` errs exactly unless an entity is on the left and an entity or a set of entities only on the right |
| `Membership.IsIn` | src/nxe_cedar_expr.c:1898-1929 | `is T in e` is `is T` and then `in e`, which only counts if the type fits |
| `Membership.ScopeMeans` | src/nxe_cedar_eval.c:94-175 | what each scope constraint demands of its party, with the parents written out |
| `Slots.EvalDisciplined` | src/nxe_cedar_expr.c:891-897 | with untagged injected values, an evaluated entity that carries a slot has that slot's identity, and nothing inside a set or record is tagged |
| `Slots.BodyDisciplined` | src/nxe_cedar_expr.c:1969-2083 | only a bare variable or an entity literal evaluates to a tagged entity |
| `Slots.InIgnoresParents` | src/nxe_cedar_expr.c:1838-1893 | `in` on anything else never depends on the parents arrays: it is membership of the entity itself |
| `Substitution.SubstitutionExact` | src/nxe_cedar_expr.c:1969-2010 | without the guard, replacing a keyword by the literal naming it changes no value exactly when no earlier slot shares the identity |
| `Substitution.SubstValue` | src/nxe_cedar_expr.c:1173-1340 | the same for one expression |
| `Substitution.SubstitutionBounded` | src/nxe_cedar_expr.c:2368-2391 | with the guard, the literal needs at most one frame more than the keyword with its fast paths: the values are then ordered between errors and the common unguarded value, and equal if the bound is kept |
| `Substitution.LiteralValue` | src/nxe_cedar_expr.c:1174-1200 | the literal has the value of the keyword exactly under that condition |
| `Substitution.FastPath` | src/nxe_cedar_expr.c:1214-1340 | the variable fast paths of attribute access and `has` agree with the general path |
| `Results.EvalSound` | src/nxe_cedar_expr.c:1933-2357 | evaluation returns an error or a value without buried errors and with unique record keys |
| `Results.EqualityMeans` | src/nxe_cedar_expr.c:2127-2177 | `==` and `!=` between expressions are the equivalence and its negation, never an error, if the left value is within the limits |
| `Results.ComparisonExactly` | src/nxe_cedar_expr.c:2127-2177 | and only then is no comparison with it an error |
| `Results.SelfComparison` | src/nxe_cedar_expr.c:2127-2177 | `e == e` is true, or an error exactly beyond the limits |
| `Results.DeepSetsAreNotComparable` | src/nxe_cedar_types.h:385-399 | comparing k nested brackets with themselves is accepted exactly up to 63, true up to 32 and an error from 33 on |
| `Verdicts.AllowedMeans` | src/nxe_cedar_eval.c:1684-1776 | a request is allowed exactly if some permit applies to it and no forbid does, where applying is written out over scopes and values of conditions |
| `Verdicts.AppliesIsMatches` | src/nxe_cedar_eval.c:1602-1640 | a policy matches exactly if its three parties meet the scopes and each `when` is true, each `unless` false |
| `Verdicts.ClauseMeans` | src/nxe_cedar_eval.c:181-201 | `when` holds for true, `unless` for false, and neither for anything else |
| `Verdicts.UnlessIsWhenNot` | src/nxe_cedar_eval.c:181-201 | `unless { e }` is `when { !e }` |
| `Verdicts.UnlessDecision` | src/nxe_cedar_eval.c:1684-1776 | writing every `unless` so changes no decision |
| `Verdicts.SinglePermit` | src/nxe_cedar_eval.c:1684-1776 | a lone permit with `when { e }` allows exactly for true, with `unless { e }` exactly for false |
| `Decision.EvalDetail` | src/nxe_cedar_eval.c:1684-1776 | allows exactly when some permit matches and no forbid does, with or without a detail record; the record lists a prefix of the deciding policies, all of them unless allocation failed, and the list of errored policies is empty |
| `Decision.Pass` | src/nxe_cedar_eval.c:1710-1768 | one pass, with early exit or with listing |
| `Decision.Detail.Push` | src/nxe_cedar_eval.c:1651-1680 | appends through buffer doubling; a failed allocation changes nothing |
| `Decision.DecidingExact` | src/nxe_cedar_eval.c:1684-1776 | the listed policies are exactly the matching forbids, or else the matching permits |
| `Decision.MatchingExact` | src/nxe_cedar_eval.c:1602-1642 | listed in order |
| `Decision.OrderIndependent` | src/nxe_cedar_eval.c:1684-1776 | the decision does not depend on the order of the policies |
| `Decision.ErroredNeverMatches` | src/nxe_cedar_eval.c:181-201 | a policy with a failing `when` or `unless` never matches |
| `Decision.GuardIrrelevant` | src/nxe_cedar_eval.c:1602-1642 | with conditions shallow enough, the recursion guard does not affect the decision |
| `Decision.ScopeIsCondition` | src/nxe_cedar_eval.c:94-175 | a scope constraint holds exactly when the same constraint holds as a condition |
| `Decision.UnscopedDecision` | src/nxe_cedar_eval.c:94-175 | moving all scopes into conditions changes no decision |
| `Decision.CheckScope` | src/nxe_cedar_eval.c:94-175 | the scope check |
| `Decision.CheckPolicy` | src/nxe_cedar_eval.c:1602-1642 | scopes, then conditions up to the first that does not hold; the evaluation counter is left as it was |
| `Builder.ContextBuilder.constructor` | src/nxe_cedar_eval.c:519-562 | an empty forest of four roots |
| `Builder.ContextBuilder.AddAttr` | src/nxe_cedar_eval.c:222-442 | adds a scalar attribute, or changes nothing if the name is taken or the text is malformed |
| `Builder.ContextBuilder.AddNestedAttr` | src/nxe_cedar_eval.c:490-515 | adds a record or set and returns a handle to the very container stored |
| `Builder.ContextBuilder.RecordAdd` | src/nxe_cedar_eval.c:881-954 | the same through a record handle |
| `Builder.ContextBuilder.RecordAddNested` | src/nxe_cedar_eval.c:958-994 | nested containers up to depth 16, one limit for both kinds |
| `Builder.ContextBuilder.SetAdd` | src/nxe_cedar_eval.c:1123-1309 | adds an element through a set handle |
| `Builder.ContextBuilder.SetAddNested` | src/nxe_cedar_eval.c:1313-1387 | likewise for nested elements |
| `Builder.PushKeepsForest` | src/nxe_cedar_eval.c:222-239 | a scalar push keeps the stored containers a forest with unique names |
| `Builder.PushNestedKeepsForest` | src/nxe_cedar_eval.c:958-994 | so does storing a new container |
| `Builder.ValueShape` | src/nxe_cedar_eval.c:455-515 | stored values are finite trees of bounded height with unique keys, no errors and no slot tags |
| `Builder.StoredValuesCompare` | src/nxe_cedar_eval.c:1349-1387 | comparing stored values never hits the depth limit of equality: with itself and with all others it succeeds and decides sameness, exactly if no container in it has more than 1024 members |
| `Builder.LevelIsNesting` | src/nxe_cedar_eval.c:455-481 | the depth kept for a container is its true nesting: that many steps up lead to a root |
| `Builder.StoredOnce` | src/nxe_cedar_eval.c:958-994 | no container is stored in two places |
| `Builder.HandleAliases` | src/nxe_cedar_eval.c:455-481 | after any calls, a handle aliases a container stored in exactly one place, shared with no other handle, whose true nesting is the depth of the handle |
| `Builder.PushVisible` | src/nxe_cedar_eval.c:1000-1016 | a push through a handle shows in the stored value |
| `Builder.PushInvisible` | src/nxe_cedar_eval.c:1000-1016 | and in no other value at that level or below |
| `Builder.NestedVisible` | src/nxe_cedar_eval.c:1047-1085 | a new container shows as an empty value in its holder |
| `Injection.AddedAttribute` | src/nxe_cedar_eval.c:215-460 | an added scalar is what `.name` evaluates to: the value of its literal; and `has name` is true |
| `Injection.OtherAttributes` | src/nxe_cedar_eval.c:215-460 | other names, and other keywords, evaluate as before |
| `Injection.ParsedIsLiteral` | src/nxe_cedar_eval.c:318-460 | an added extension value is the value of its literal, malformed exactly if that errs |
| `Injection.PathReads` | src/nxe_cedar_eval.c:845-1010 | a path through nested records evaluates to what was stored at its end |
| `Builder.RequestIsSound` | src/nxe_cedar_eval.c:519-562 | every request that can be built meets the assumptions of the theorems on evaluation |
| `Civil.CountsDays` | src/nxe_cedar_expr.c:501-535 | 1970-01-01 is day 0 and every next calendar day is one more, for every integer year |
| `Civil.IsDayCount` | src/nxe_cedar_expr.c:524-535 | the closed form is the recursive day count |
| `Civil.Monotone` | src/nxe_cedar_expr.c:524-535 | strictly monotone, hence injective |
| `Civil.Ranges` | src/nxe_cedar_expr.c:524-535 | year of era in [0, 399], day of year in [0, 365], day of era in [0, 146096], also for negative years |
| `Civil.DateOf` | src/nxe_cedar_expr.c:524-535 | every day number between two years is the day of some date |
| `Datetime.ReadShow` | src/nxe_cedar_expr.c:579-706 | every text of the grammar with valid fields is read as the instant it denotes |
| `Datetime.OnlyShown` | src/nxe_cedar_expr.c:579-706 | nothing else is accepted |
| `Datetime.InstantInRange` | src/nxe_cedar_expr.c:579-706 | no accepted text leaves the 64-bit range |
| `Datetime.Canonical` | src/nxe_cedar_expr.c:579-706 | the canonical print of every instant of the years 0000 to 9999 is read back |
| `Datetime.OrderIsInstantOrder` | src/nxe_cedar_expr.c:579-706 | between equal offsets, the order of date and time as written is the order of the instants |
| `Datetime.OrderAcrossOffsets` | src/nxe_cedar_expr.c:579-706 | between different offsets, after taking them away |
| `Datetime.ToDateOfStamp` | src/nxe_cedar_expr.c:1497-1521 | toDate of a UTC stamp is its date, and toTime its time of day |
| `Datetime.NoMillis` | src/nxe_cedar_expr.c:655-670 | without milliseconds, a text is read like the same text with `.000` |
| `Datetime.OffsetMeans` | src/nxe_cedar_expr.c:672-706 | `+hhmm` is that much earlier than the same text with `Z`, `-hhmm` later |
| `Datetime.DateMeans` | src/nxe_cedar_expr.c:579-706 | a date alone is its midnight in UTC |
| `Datetime.OffsetsShift` | src/nxe_cedar_expr.c:660-700 | texts that differ only in offset differ by that offset |
| `Datetime.DateAndTime` | src/nxe_cedar_expr.c:1497-1521 | toDate and toTime restore the instant, 0 <= toTime < 86400000, and toDate stays in 64 bits exactly from the day floor bound on |
| `Datetime.ToDateOverflows` | src/nxe_cedar_expr.c:1497-1510 | below it the subtraction overflows: INT64_MIN is such an instant |
| `Datetime.MakeDatetime` | src/nxe_cedar_expr.c:579-706 | the reader with its moving pointer computes the specification |
| `Datetime.ReadClockAt` | src/nxe_cedar_expr.c:612-700 | the time part |
| `Duration.DurationSpelled` | src/nxe_cedar_expr.c:720-825 | groups in strictly descending units are accepted exactly when their total fits, as the signed sum |
| `Duration.FiveUnits` | src/nxe_cedar_expr.c:720-826 | days, hours, minutes, seconds and milliseconds in this order, each worth 24, 60, 60 or 1000 of the next |
| `Duration.DurationGrammar` | src/nxe_cedar_expr.c:720-825 | nothing else is accepted |
| `Duration.GroupIsRead` | src/nxe_cedar_expr.c:757-790 | `m` and `ms` are told apart whatever follows |
| `Duration.MakeDuration` | src/nxe_cedar_expr.c:720-825 | the stepwise overflow checks reject exactly the totals out of range |
| `Decimal.DecimalSpelled` | src/nxe_cedar_expr.c:403-497 | accepted exactly when the scaled value is a 64-bit integer, INT64_MIN included |
| `Decimal.TrailingZero` | src/nxe_cedar_expr.c:403-497 | a zero behind up to three fractional digits changes nothing |
| `Decimal.DecimalGrammar` | src/nxe_cedar_expr.c:403-497 | nothing but `-?d+.d{1,4}` is accepted |
| `Decimal.ShowReads` | src/nxe_cedar_expr.c:403-497 | reading undoes the canonical printer |
| `Decimal.MakeDecimal` | src/nxe_cedar_expr.c:403-497 | the digit loops with their guards compute it |
| `Digits.ParseLong` | src/nxe_cedar_parser.c:256-277 | a digit string is accepted exactly when its value fits in 64 bits |
| `Digits.ParseNegLong` | src/nxe_cedar_parser.c:286-307 | or its negation does, for the minus form |
| `Digits.GuardExact` | src/nxe_cedar_parser.c:256-277 | the guard with truncating division rejects exactly the digits that leave the range |
| `Ipv6.V6MakeIp` | src/nxe_cedar_expr.c:234-390 | every spelling of section 2.2 of RFC 4291, with any prefix length up to 128, is read as that address and prefix |
| `Ipv6.AnyZeroRun` | src/nxe_cedar_expr.c:234-390 | writing any run of zero groups as `::` changes nothing |
| `Ipv6.ReadPrinted` | src/nxe_cedar_expr.c:830-876 | every IPv6 block has a text that is read back as it |
| `Ipv6.V4MakeIp` | src/nxe_cedar_expr.c:186-229 | dotted quads with an optional prefix up to 32 |
| `Ipv6.IpOnly` | src/nxe_cedar_expr.c:830-876 | what else is accepted: nothing but eight groups followed by `::` |
| `Ipv6.EightAndGap` | src/nxe_cedar_expr.c:309-335 | that text, with or without a prefix, is accepted like the text without `::`, because the no-gap sentinel is 8, unless it is longer than 43 bytes |
| `Ipv6.ParseGroups` | src/nxe_cedar_expr.c:250-325 | the group loop with its array and sentinel |
| `Ipv6.ParseIpv6` | src/nxe_cedar_expr.c:234-390 | the reader writes exactly the specified 16 bytes |
| `Ipv6.MakeIp` | src/nxe_cedar_expr.c:830-876 | the whole ip() constructor |
| `IpText.ParseBounded` | src/nxe_cedar_expr.c:140-172 | bounded decimals: overflow guard and leading-zero rejection |
| `IpText.ParseIpv4` | src/nxe_cedar_expr.c:186-229 | the octet loop |
| `IpText.V4Only` | src/nxe_cedar_expr.c:186-229 | only dotted quads are accepted |
| `Cidr.ContainsIsInclusion` | src/nxe_cedar_expr.c:1402-1439 | byte comparison and bit mask decide inclusion of address blocks (section 3.1 of RFC 4632), false across families |
| `Cidr.HostBitsIgnored` | src/nxe_cedar_expr.c:1402-1439 | host bits do not matter |
| `Cidr.ContainsReflexive` | src/nxe_cedar_expr.c:1402-1439 | containment is reflexive |
| `Cidr.ContainsTransitive` | src/nxe_cedar_expr.c:1402-1439 | containment is transitive |
| `Cidr.AgreeByBytes` | src/nxe_cedar_expr.c:1417-1436 | whole bytes and masked bits together are the first bits of the address |

## Left out

- Memory pools, logging, error texts and allocation failure, which remains only in `Decision.Detail.Push`.
- The per-entity wrappers of the builder and its setters for identities and parents: one adder for scalars and one for containers, and the identities are parameters of `Builder.Request`.
- NULL arguments, annotation lookup and the pointers from tokens into the source text.
- `Parser` and `PolicyParser` read a list of tokens instead of calling the tokenizer on demand; `Scanner` gives that list.
- After an error token the source may go on for a few steps before it gives up; `Parser` and `PolicyParser` give up at once. The result is a rejection either way.
- Cidr.ContainsIsInclusion: shifts and masks of bytes are written as division and multiplication by two.
- Decision.EvalDetail: deciding policies are listed by their position in the policy set instead of by a pointer.
- Overflow of buffer capacities and of element counts.
- The test tree: JSON wrapper, comparison with the reference implementation, corpus runner.
