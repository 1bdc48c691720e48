# mmml core, modelled in Dafny

This project models the core of mmml, a compiler for a TeX-like markup language. mmml turns a document made of text, escapes, `\name[args]{block}` directives and comments into HTML. The model covers these parts of the compiler:

- **Character classes and UTF-8** (`Chars`, `Unicode`). The character predicates and charset tables agree with the expectations of the library's tests, and UTF-8 decoding inverts encoding.
- **The parser** (`Instructions`, `ParseUtils`, `ParseTree`, `ParseSpec`, `Parsing`, `ParseProperties`, `ParseFindings`). It turns a source into an AST instruction stream:
  - `ParseSpec` gives the meaning of each `try_match_*` as a function over the source and a position.
  - `Parsing` holds the parser's own imperative pieces (`expect`, the name and text matchers, the whitespace skippers, `Scoped_Attempt`), each proved against those functions.
  - `ParseProperties` proves that the instruction stream is well formed and covers the input. `ParseFindings` exhibits the defects of the code as written.
- **The AST** (`Ast`). Content nodes, arguments and directives are spans of the source; so are the lookups the AST provides.
- **Directives and their behaviours** (`DirectiveKinds`, `Directives`). This includes the builtin directive table, name lookup through the resolver list, the pass-through behaviours and the error behaviour.
- **The rendering engine** (`ContentTrimming`, `ProcessingModes`, `Plaintext`, `HtmlWriters`, `HtmlGeneration`, `HtmlParagraphs`, `HtmlRendering`, `HighlightMapping`, `HighlightCopy`, `ArgumentAttributes`), which covers:
  - blank-text trimming;
  - the processing modes and their status lattice;
  - plaintext generation;
  - the direct, trimmed and paragraph-splitting HTML writers;
  - the `to_html` dispatcher;
  - the plaintext projection for syntax highlighting, with its source mapping;
  - the copier that re-inserts highlighted spans;
  - arguments turned into attributes.
- **Highlighting** (`Highlight`, `MarkupHighlight`, `Services`). This covers the highlight span types, the highlighter for mmml markup itself, and the services the compiler is given: a highlighter and a logger.
- **Diagnostics and printing** (`Diagnostics`, `AnnotatedStrings`, `Printing`, `Results`):
  - diagnostic severities;
  - annotated strings;
  - the line finder and "affected line" printer of print.cpp;
  - the AST printer's indentation and cut-off rules;
  - the `Result` type.

Most of the source's imperative code is modelled as classes and methods, each proved against a specification function. This covers the HTML writers, the printers, the highlighter, `Scoped_Attempt`, and the parser's low-level matchers: `expect`, whitespace, code points, names, text, escapes, argument names and trailing-whitespace trimming. The parser's higher-level matchers, `operator()` and `parse` are modelled only as functions over values (see "## Left out"). The proved properties are stated about those functions.

Failed `MMML_ASSERT`s are handled in one of two ways:

- most are modelled as a crash outcome (`Crash`, `crashed`, `ok == false`), so their inputs are part of the model;
- where every caller meets the assertion, it becomes a `requires`, listed under "## Left out", as are the `requires` that stand for a `substr` that would throw past the end.

`Revision` (`AsWritten` / `Corrected`) selects between the code as written and the corrections under "## Findings".

The statements in the table below are proved about the model; the source itself was not run.

## Model

| member | source | states |
|---|---|---|
| Chars.DirectiveNameCharactersAreAscii | src/test/cpp/test_chars_strings.cpp:97-108 | a directive name character is ASCII, never one of the markup's special characters and never whitespace |
| Chars.DirectiveNameCharacterClasses | src/test/cpp/test_chars_strings.cpp:97-108 | specials are excluded from directive names; every ASCII letter and digit is a directive name character |
| Chars.CharsetTablesAgree | src/test/cpp/test_chars_strings.cpp:110-220 | for every code 0..127 each charset table (digits, lower, upper, alpha, alphanumeric, whitespace, blank, escapeable) contains the code exactly when its predicate holds |
| Chars.SmallTablesAgree | src/test/cpp/test_chars_strings.cpp:180-220 | for every code, the whitespace, blank and escapeable tables contain it exactly when the predicate holds |
| Chars.FirstNonBlank | src/test/cpp/test_chars_strings.cpp:222-228 | the first position at or after i that is not blank: everything skipped is blank, and the byte there is not |
| Chars.EndOfNonBlank | src/test/cpp/test_chars_strings.cpp:230-236 | one past the last non-blank byte before j: everything after it up to j is blank, and the byte before it is not |
| Chars.TrimAsciiBlankIsSlice | src/test/cpp/test_chars_strings.cpp:238-244 | trim_ascii_blank yields a slice s[b..e] with only blanks cut off on either side, and the slice neither begins nor ends with a blank |
| Chars.TrimLeftExamples | src/test/cpp/test_chars_strings.cpp:222-228 | the four expectations of the trim_ascii_blank_left test: leading blanks go, trailing blanks stay |
| Chars.TrimRightExamples | src/test/cpp/test_chars_strings.cpp:230-236 | the four expectations of the trim_ascii_blank_right test: trailing blanks go, leading blanks stay |
| Chars.TrimExamples | src/test/cpp/test_chars_strings.cpp:238-244 | the four expectations of the trim_ascii_blank test: `awoo` with blanks on neither, either or both sides trims to `awoo` |
| Chars.FirstNonBlankIs | src/test/cpp/test_chars_strings.cpp:222-228 | FirstNonBlank returns any position that ends a blank run and stops at a non-blank byte (uniqueness) |
| Chars.EndOfNonBlankIs | src/test/cpp/test_chars_strings.cpp:230-236 | EndOfNonBlank returns any position that starts a trailing blank run after a non-blank byte (uniqueness) |
| Chars.BlankPrefixTrim | src/test/cpp/test_chars_strings.cpp:222-228 | trimming on the left removes exactly a blank prefix when what follows does not start with a blank |
| Chars.BlankSuffixTrim | src/test/cpp/test_chars_strings.cpp:230-236 | trimming on the right removes exactly a blank suffix when what precedes does not end with a blank |
| Chars.HtmlTagNameExamples | src/test/cpp/test_chars_strings.cpp:246-255 | the accepted and rejected tag names of the is_html_tag_name test |
| Chars.HtmlAttributeNameExamples | src/test/cpp/test_chars_strings.cpp:257-267 | the accepted and rejected attribute names of the is_html_attribute_name test |
| Chars.HtmlUnquotedAttributeValueExamples | src/test/cpp/test_chars_strings.cpp:269-280 | the accepted and rejected values of the is_html_unquoted_attribute_value test |
| Chars.ToDecimal | src/main/cpp/print.cpp:189 | the decimal digits of n: at least one, all ASCII digits, and a leading 0 exactly for n == 0 |
| Chars.ToCharacters | src/main/cpp/print.cpp:189 | the characters of an integer: a leading - exactly when it is negative, digits after that |
| Unicode.SequenceLengthByPattern | include/mmml/util/unicode.hpp:21-27 | sequence_length by bit pattern: 0xxxxxxx gives 1, 10xxxxxx gives 0, 110xxxxx, 1110xxxx and 11110xxx give 2, 3 and 4, five or more leading ones give 0 |
| Unicode.SequenceLength | include/mmml/util/unicode.hpp:21-27 | a lead unit announces a sequence of 0 to 4 units (SequenceLengthByPattern gives the length for each bit pattern) |
| Unicode.SequenceLengthExamples | include/mmml/util/unicode.hpp:292-297 | the static_asserts on sequence_length |
| Unicode.DecodeUnchecked | include/mmml/util/unicode.hpp:54-78 | the payload of length units: in range 0..0x1FFFFF, a single unit decodes to itself, two units stay below 0x800 and three below 0x10000 |
| Unicode.IsValidUnitsByPattern | include/mmml/util/unicode.hpp:80-112 | the masked comparison of is_valid holds exactly when unit 0 has the lead pattern for the length and the next length-1 units are continuation units |
| Unicode.IsValidUnits | include/mmml/util/unicode.hpp:80-112 | the only error the unit check reports is illegal bits (IsValidUnitsByPattern says which units have them) |
| Unicode.MaskOfUnit | include/mmml/util/unicode.hpp:82-94 | each (mask, value) pair of expectation_masks and expectation_values selects a unit range |
| Unicode.Decode | include/mmml/util/unicode.hpp:121-129 | decode succeeds exactly when is_valid does, yields decode_unchecked then, and reports illegal bits otherwise |
| Unicode.Padded | include/mmml/util/unicode.hpp:132-138 | the zero-filled four-unit array holds the first length units of the input |
| Unicode.DecodeAndLengthCases | include/mmml/util/unicode.hpp:146-168 | decode_and_length's three failures in order (no data, lead not a lead unit, too few units), success exactly when the continuation units are right, and on success the length is the lead's sequence length and the code point the decoded payload |
| Unicode.DecodeAndLength | include/mmml/util/unicode.hpp:146-168 | fails with `no_data` exactly on empty input; a success consumes at least one unit, no more than there are, and exactly as many as the lead unit announces |
| Unicode.DecodeAndLengthValid | include/mmml/util/unicode.hpp:160-167 | when the input holds the whole sequence its lead unit announces, decoding succeeds exactly when the units after the lead are continuations, and yields the unchecked decoding of those units |
| Unicode.DecodeExamples | include/mmml/util/unicode.hpp:299-302 | the static_asserts on decode_unchecked: a, U+00E9, U+0905 and U+1F600 |
| Unicode.Encode | include/mmml/util/unicode.hpp:146-168 | the UTF-8 form of a code point, of 1 to 4 units (a reference definition to check the decoder against) |
| Unicode.DecodeEncode | include/mmml/util/unicode.hpp:146-168 | round trip: decoding the encoding of any code point below 0x110000 gives that code point and the encoding's length, whatever follows it |
| Unicode.PayloadBits | include/mmml/util/unicode.hpp:54-78 | decode_unchecked of an encoding's units gives back the code point |
| Unicode.EncodeLeadClassified | include/mmml/util/unicode.hpp:21-27 | the lead of an encoding of n units has the lead pattern for n and its other units are continuation units |
| Unicode.FirstError | include/mmml/util/unicode.hpp:170-181 | the error is_valid reports: Ok exactly when the whole string splits into sequences that decode |
| Unicode.IsValid | include/mmml/util/unicode.hpp:170-181 | is_valid(string) returns the first decoding failure along the split, and Ok exactly when the string is valid |
| Unicode.ValidAfterAscii | include/mmml/util/unicode.hpp:170-181 | in a valid string an ASCII unit is a whole sequence, so what follows it is valid |
| Unicode.ValidAtAscii | include/mmml/util/unicode.hpp:170-181 | in a valid string, the string is valid from any ASCII unit on |
| Unicode.ValidAfterAsciiAt | include/mmml/util/unicode.hpp:170-181 | in a valid string, what follows any ASCII unit is valid |
| Unicode.DecodeAscii | include/mmml/util/unicode.hpp:146-168 | an ASCII unit decodes to itself with length 1 |
| Unicode.ValidDecodes | include/mmml/util/unicode.hpp:170-181 | a valid non-empty string starts with a sequence that decodes |
| Unicode.ValidEncodePrefix | include/mmml/util/unicode.hpp:170-181 | an encoded code point followed by a valid string is valid |
| Unicode.CodePointIterator.Increment | include/mmml/util/unicode.hpp:218-226 | operator++ advances by the lead unit's sequence length, and throws, leaving the iterator in place, exactly when the lead is invalid or the sequence overruns the end |
| Results.ResultObject.FromValue | include/mmml/result.hpp:25-74 | a result constructed from a value has a value, and it is that value |
| Results.ResultObject.FromError | include/mmml/result.hpp:41-90 | a result constructed from an error has no value, and its error is that error |
| Results.ResultObject.Copy | include/mmml/result.hpp:92-117 | copy and move construction take the other result's state and payload |
| Results.ResultObject.CopyAssign | include/mmml/result.hpp:119-142 | copy assignment leaves this result with the other's state and payload in each of the four cases, and self-assignment changes nothing |
| Results.ResultObject.MoveAssign | include/mmml/result.hpp:144-163 | move assignment leaves this result with the other's state and payload in each of the four cases |
| Results.VoidResultObject.constructor | include/mmml/result.hpp:299-303 | a default-constructed void result is a success |
| Results.VoidResultObject.FromError | include/mmml/result.hpp:305-319 | a void result constructed from an error is a failure with that error |
| Results.VoidResultObject.Copy | include/mmml/result.hpp:321-338 | copy and move construction take the other's state and error |
| Results.VoidResultObject.Assign | include/mmml/result.hpp:340-384 | copy and move assignment take the other's state and error; success assigned over success changes nothing |
| ParseUtils.FirstNonWhitespace | src/main/cpp/parse_utils.cpp:11-57 | the first position at or after j that is not whitespace: all skipped bytes are whitespace and the byte there is not |
| ParseUtils.FindBlankLine | src/main/cpp/parse_utils.cpp:11-57 | find_blank_line reports the first line after a newline that is whitespace only and is followed, past further whitespace without a newline, by a non-whitespace byte, its length reaching the last newline before that byte; no earlier line qualifies; the value-initialised result exactly when no line qualifies |
| ParseUtils.PastLastNewline | src/test/cpp/test_chars_strings.cpp:282-291 | one past the last newline in s[a..b], or a when there is none: no newline follows it in the range |
| ParseUtils.FindBlankLineSequenceFrom | src/test/cpp/test_chars_strings.cpp:282-291 | the search from j finds nothing (the falsy value) or a span within the input starting at or after j |
| ParseUtils.FindBlankLineSequenceFromSpec | src/test/cpp/test_chars_strings.cpp:282-291 | the search from j finds the first line start from which the whitespace holds a newline, and a whitespace span ending in a newline there; nothing exactly when no such start exists |
| ParseUtils.FindBlankLineSequenceSpec | src/test/cpp/test_chars_strings.cpp:282-291 | find_blank_line_sequence is truthy exactly when some line start begins a blank sequence; then the first one, a whitespace span ending in a newline |
| ParseUtils.FindBlankLineSequenceWithoutBlank | src/test/cpp/test_chars_strings.cpp:284-285 | the empty string and awoo hold no blank line |
| ParseUtils.FindBlankLineSequenceSingleNewlines | src/test/cpp/test_chars_strings.cpp:286 | single newlines between letters are no blank line |
| ParseUtils.FindBlankLineSequenceLeading | src/test/cpp/test_chars_strings.cpp:288 | a leading newline is the blank line {0, 1} |
| ParseUtils.FindBlankLineSequenceTrailing | src/test/cpp/test_chars_strings.cpp:289 | a trailing whitespace line gives {5, 3} |
| ParseUtils.FindBlankLineSequenceInner | src/test/cpp/test_chars_strings.cpp:290 | an empty line between text gives {3, 1} |
| ParseUtils.DigitValue | src/main/cpp/parse_utils.cpp:74-84 | the value of a digit in the base (both letter cases in base 16), below the base, or -1 for a non-digit |
| ParseUtils.DigitAlphabetIsDigits | src/main/cpp/parse_utils.cpp:74-84 | the digit table of match_digits (all of it for base 16, its first base characters otherwise) holds exactly the digits of the base |
| ParseUtils.MatchDigits | src/main/cpp/parse_utils.cpp:74-84 | the length of the longest prefix of digits of the base: all before it are digits, the byte at it is not |
| ParseUtils.MatchIntegerLiteralBounds | src/main/cpp/parse_utils.cpp:86-114 | match_integer_literal never reaches past the input; no digits exactly when the input does not start with a digit; a bare prefix has length 2; a binary or hexadecimal match covers the prefix and at least one digit of its base; an octal or decimal match is a non-empty run of its digits |
| ParseUtils.MatchIntegerLiteral | src/main/cpp/parse_utils.cpp:86-114 | the match never reaches past the input; it finds no digits, and then no kind, exactly when the input is empty or does not start with a digit; a `0b` or `0x` prefix with no digits after it matches the two prefix bytes only (MatchIntegerLiteralBounds bounds the rest) |
| ParseUtils.ParseUintegerLiteral | src/main/cpp/parse_utils.cpp:116-131 | a parsed value fits `unsigned long long`, and only text starting with a digit parses (DecimalRoundTrip and MatchedLiteralParses say which texts do) |
| ParseUtils.ParseIntegerLiteral | src/main/cpp/parse_utils.cpp:133-151 | a parsed value fits `long long`, from -2^63 to 2^63 - 1, and only text starting with a digit, or with `-` and a digit, parses (NegativeRoundTrip and PositiveRoundTrip are the round trips) |
| ParseUtils.ParseUintegerDigits | src/main/cpp/parse_utils.cpp:61-72 | from_chars into unsigned long long: fails with no leading digit or when the value does not fit, so a result is at most ULLONG_MAX |
| ParseUtils.ToSigned | src/main/cpp/parse_utils.cpp:133-151 | the cast to long long is the two's complement reinterpretation: in the signed range and congruent modulo 2^64 |
| ParseUtils.NegateUnsigned | src/main/cpp/parse_utils.cpp:138-141 | unsigned negation: in range, and the sum with the operand is 0 modulo 2^64 |
| ParseUtils.DigitsValueOfDecimal | src/main/cpp/parse_utils.cpp:116-131 | the decimal digits of n are digits of base 10 and read back as n |
| ParseUtils.DecimalRoundTrip | src/main/cpp/parse_utils.cpp:116-131 | parse_uinteger_literal of the decimal digits of n gives n when it fits an unsigned long long and fails otherwise |
| ParseUtils.MatchAll | src/main/cpp/parse_utils.cpp:74-84 | a string made only of digits of the base is matched in full |
| ParseUtils.NegativeRoundTrip | src/main/cpp/parse_utils.cpp:133-151 | a minus sign and the decimal digits of n read back as -n for every n up to 2^63 |
| ParseUtils.PositiveRoundTrip | src/main/cpp/parse_utils.cpp:133-151 | decimal digits read back unchanged below 2^63, wrap around to a negative value from 2^63 to 2^64-1, and fail beyond |
| ParseUtils.CharactersRoundTrip | src/main/cpp/parse_utils.cpp:133-151 | round trip: the characters of any long long parse back to that value |
| ParseUtils.PrefixedLiteralParses | src/main/cpp/parse_utils.cpp:116-131 | digits after a two-byte prefix parse to their value in the base, or fail when it does not fit |
| ParseUtils.UnprefixedLiteralParses | src/main/cpp/parse_utils.cpp:116-131 | a non-empty run of digits parses to its value in the base, or fails when it does not fit |
| ParseUtils.MatchedLiteralParses | src/main/cpp/parse_utils.cpp:86-131 | a literal match_integer_literal matches in full is parsed by parse_uinteger_literal to the value of its digits in the base its prefix announces, unless that value does not fit |
| Instructions.Underlying | include/mmml/parse.hpp:16-62 | each enumerator's underlying value, below 16 |
| Instructions.UnderlyingInjective | include/mmml/parse.hpp:16-62 | no two enumerators share an underlying value |
| Instructions.HasOperandCases | include/mmml/parse.hpp:64-78 | ast_instruction_type_has_operand is false exactly for the pops, argument_comma and argument_equal; every push and skip, escape, text and argument_name have an operand |
| Instructions.CompareIsStrongOrdering | include/mmml/parse.hpp:83-89 | the defaulted operator<=> is a strong ordering: equal exactly when identical, antisymmetric, transitive, ordered by type and then by operand |
| Instructions.WidthConcat | include/mmml/parse.hpp:16-62 | the bytes a stream advances over, by the per-enumerator comments, add up over concatenation |
| Instructions.NestOnTop | include/mmml/parse.hpp:31-62 | a stream whose pushes and pops nest from one stack nests the same way on top of any stack |
| Instructions.NestConcat | include/mmml/parse.hpp:31-62 | nesting a concatenation is nesting the second stream from the stack the first leaves |
| Instructions.BalancedConcat | include/mmml/parse.hpp:31-62 | the concatenation of two balanced streams is balanced |
| Instructions.BalancedWrap | include/mmml/parse.hpp:31-62 | a push, a balanced body and the matching pop form a balanced stream |
| Instructions.BalancedLeaf | include/mmml/parse.hpp:16-30 | one instruction that neither pushes nor pops is balanced |
| Instructions.BalancedEmpty | include/mmml/parse.hpp:31-62 | the empty stream is balanced |
| Instructions.TypeNameAsWrittenMisses | src/main/cpp/parse.cpp:655-676 | the switch of ast_instruction_type_name has no case for argument_equal and argument_comma, exactly, so those reach the unreachable-assertion |
| Instructions.TypeNameAsWritten | src/main/cpp/parse.cpp:655-676 | the switch as written names every instruction type except `argument_equal` and `argument_comma`, for which it reaches the unreachable-assertion |
| Instructions.TypeName | src/main/cpp/parse.cpp:655-676 | with a case for every enumerator: agrees with the switch wherever it has a case |
| Instructions.TypeNameInjective | src/main/cpp/parse.cpp:655-676 | every enumerator gets a name and no two share one |
| Ast.MakeDirective | src/main/cpp/parse.cpp:32-44 | a directive built with a non-empty name (the constructor's assertion) is well formed and keeps its span, name length, arguments and block |
| Ast.MakeText | src/main/cpp/parse.cpp:46-50 | a text built from a non-empty span (the constructor's assertion) is well formed |
| Ast.MakeEscaped | src/main/cpp/parse.cpp:52-56 | an escape built from a span of length 2 (the constructor's assertion) is well formed |
| Ast.MakeGenerated | include/mmml/ast.hpp:217-240 | a generated node gives back the data, type and display it was built from |
| Ast.MakeNamedArgument | src/main/cpp/parse.cpp:13-22 | an argument built with a name span has a name exactly when the span is not empty |
| Ast.MakePositionalArgument | src/main/cpp/parse.cpp:24-30 | an argument built without a name has none: its name is the empty span at its begin |
| Ast.Substr | include/mmml/ast.hpp:53-58 | substr clamps the count to what is left of the string, and its bytes are those at pos onward |
| Ast.SpanSource | include/mmml/ast.hpp:53-58 | get_source of a span within the source: its length and its bytes are those of the span |
| Ast.DirectiveName | include/mmml/ast.hpp:126-129 | get_name of a directive: the name_length bytes after the backslash, when they lie within the source |
| Ast.ArgumentNameText | include/mmml/ast.hpp:67-71 | get_name of an argument, asserted within the source: the bytes of its name span |
| Ast.EscapedCharIndex | include/mmml/ast.hpp:198-203 | the escaped character is one past the backslash |
| Ast.EscapedChar | include/mmml/ast.hpp:193-196 | get_char is the source byte after the backslash, the second byte of the escape's source |
| Ast.SourceSpan | include/mmml/ast.hpp:342-355 | get_source_span: the node's span for user-written nodes, the empty span for generated ones |
| Ast.ContentSource | include/mmml/ast.hpp:357-371 | get_source: the span's bytes for user-written nodes, empty for generated ones, its length that of the node's span |
| Ast.VisitContentSequenceConcat | include/mmml/ast.hpp:406-411 | visiting a concatenation is visiting each part in turn |
| Ast.VisitContentSequenceInOrder | include/mmml/ast.hpp:406-411 | visit_content_sequence hands every element to the visitor exactly once, in order |
| ParseTree.EmitPiecesSnoc | src/main/cpp/parse.cpp:331-348 | the instructions of a content sequence are those of its pieces in order |
| ParseTree.PiecesWidthSnoc | src/main/cpp/parse.cpp:331-348 | the source extent of a content sequence is the sum of its pieces' extents |
| ParseTree.EmitArgumentListSnoc | src/main/cpp/parse.cpp:456-484 | each further argument is preceded by the skip 1 written for its comma |
| ParseTree.SkipIfWidth | src/main/cpp/parse.cpp:535 | a skip written only for a non-zero count advances by that count |
| ParseTree.NameCoverage | src/main/cpp/parse.cpp:529-562 | the instructions of a matched argument name advance over its leading whitespace, the name, its trailing whitespace and the equals sign |
| ParseTree.TrimmedWidth | src/main/cpp/parse.cpp:594-621 | trailing-whitespace trimming of an argument value only relabels bytes (text into skip): the width is unchanged |
| ParseTree.PieceCoverage | src/main/cpp/parse.cpp:363-454 | the instructions of a piece advance over every byte it covers, except a brace swallowed by a failed block attempt |
| ParseTree.PiecesCoverage | src/main/cpp/parse.cpp:331-348 | the instructions of a content sequence advance over every byte it covers, except swallowed braces |
| ParseTree.ArgumentsCoverage | src/main/cpp/parse.cpp:456-484 | the instructions of an argument list advance over the brackets, commas and arguments |
| ParseTree.ArgumentListCoverage | src/main/cpp/parse.cpp:456-484 | the instructions of the arguments and the commas between them cover all their bytes |
| ParseTree.ArgumentCoverage | src/main/cpp/parse.cpp:502-527 | the instructions of an argument advance over its name, whitespace and value |
| ParseTree.BlockCoverage | src/main/cpp/parse.cpp:623-650 | the instructions of a block advance over its braces and content; a lost brace is counted as lost |
| ParseTree.DocumentCoverage | src/main/cpp/parse.cpp:132-140 | the document's instructions advance over every byte of its pieces except braces swallowed by failed block attempts |
| ParseTree.NestFlat | include/mmml/parse.hpp:16-30 | a stream without pushes or pops leaves any stack as it is |
| ParseTree.FlatBalanced | include/mmml/parse.hpp:16-30 | a stream without pushes or pops is balanced |
| ParseTree.TrimmedBalanced | src/main/cpp/parse.cpp:594-621 | a trimmed argument value is balanced |
| ParseTree.PieceBalanced | src/main/cpp/parse.cpp:432-454 | every piece's pushes and pops nest: a directive's push_directive is closed by its pop_directive around balanced arguments and block |
| ParseTree.PiecesBalanced | src/main/cpp/parse.cpp:331-348 | a content sequence is balanced |
| ParseTree.ArgumentsBalanced | src/main/cpp/parse.cpp:456-484 | an argument list is balanced |
| ParseTree.ArgumentListBalanced | src/main/cpp/parse.cpp:456-484 | the arguments and commas between them are balanced |
| ParseTree.ArgumentBalanced | src/main/cpp/parse.cpp:502-527 | an argument is balanced |
| ParseTree.BlockBalanced | src/main/cpp/parse.cpp:623-650 | a block is balanced |
| ParseTree.DocumentShape | src/main/cpp/parse.cpp:132-140 | the document's stream starts with push_document counting its pieces, ends with pop_document, and every push in between is closed by the matching pop |
| ParseSpec.DecodeAndLengthSound | include/mmml/util/unicode.hpp:146-168 | `decode_and_length` never reports a length of 0 or one beyond its input, decodes an ASCII unit on its own and never takes an ASCII unit as a continuation unit |
| ParseSpec.ValidIsValidWith | include/mmml/util/unicode.hpp:170-181 | `is_valid` holds exactly when the input splits, from the front, into sequences `decode_and_length` accepts |
| ParseSpec.ValidFromIsValidWith | include/mmml/util/unicode.hpp:170-181 | validity of the rest of the input from a position is validity of that suffix |
| ParseSpec.ValidFromStart | include/mmml/util/unicode.hpp:170-181 | `is_valid` of the whole source is validity from position 0, the form the parser's lemmas use |
| ParseSpec.ValidPastAscii | src/main/cpp/parse.cpp:184-192 | in valid input every ASCII byte begins a sequence, so the input stays valid from that byte and from the byte after it; `peek_code_point`'s assertion holds there |
| ParseSpec.ValidAcrossWhitespace | src/main/cpp/parse.cpp:324-328 | skipping ASCII whitespace leaves the parser at a position where the input is still valid |
| ParseSpec.ValidStep | src/main/cpp/parse.cpp:269-281 | at a position of valid input the decoder succeeds, its sequence fits, and the input stays valid after it |
| ParseSpec.MatchCodePoints | src/main/cpp/parse.cpp:303-309 | the code point matcher consumes as many bytes as it reports, stays inside the source, and matches at least one byte when the first code point satisfies the predicate; an undecodable sequence is the failed assertion of `peek_code_point` (184-192) |
| ParseSpec.MatchDirectiveName | src/main/cpp/parse.cpp:311-316 | a directive name never starts with an ASCII digit (nothing is consumed then); otherwise a name character at the start gives a non-empty name |
| ParseSpec.MatchArgumentName | src/main/cpp/parse.cpp:318-322 | an argument name never starts with an ASCII digit; what is consumed is what is reported |
| ParseSpec.ScanStep | src/main/cpp/parse.cpp:371-420 | one iteration of the text loop stops only before an escape or directive backslash or a byte that terminates the context, never continues past a `,` in an argument value, and fails exactly on a backslash before an undecodable sequence (the assertion at 390-392) |
| ParseSpec.ScanText | src/main/cpp/parse.cpp:371-420 | the text loop ends inside the source, at or after where it started |
| ParseSpec.ScanTextStops | src/main/cpp/parse.cpp:371-420 | where the text loop stops there is an escape or directive backslash or a terminating byte; no byte before it is either; a failure implies a backslash before an undecodable sequence |
| ParseSpec.TrimmedLength | src/main/cpp/parse.cpp:606-608 | `find_last_not_of(" \t\r\n\f") + 1`: the result is within the text, the byte before it is not whitespace and every byte from it on is |
| ParseSpec.TrimOf | src/main/cpp/parse.cpp:594-621 | trimming touches only a final text instruction, and a split keeps a non-empty strict prefix of it |
| ParseSpec.Parse | src/main/cpp/parse.cpp:132-140 | a successful parse consumes the whole source, the pieces' widths adding up to its length; in the corrected revision no byte is lost (`PiecesLost == 0`) |
| ParseSpec.MatchContentSequence | src/main/cpp/parse.cpp:331-348 | content stops at the end or at a byte that terminates the context, and the pieces cover exactly what was consumed |
| ParseSpec.ContentLoop | src/main/cpp/parse.cpp:336-345 | the loop of `match_content_sequence` with its bracket levels: same coverage and stopping guarantees; a piece that cannot be matched is the failed `MMML_ASSERT(success)` |
| ParseSpec.TryMatchContent | src/main/cpp/parse.cpp:363-430 | a matched piece is non-empty and covers exactly the bytes consumed; no match consumes nothing |
| ParseSpec.TryMatchEscapedOrDirective | src/main/cpp/parse.cpp:365-367 | an escape or directive starts with a backslash and covers exactly what it consumes; a failure consumes nothing |
| ParseSpec.MatchText | src/main/cpp/parse.cpp:369-429 | text is a non-empty `text` instruction of the bytes consumed, ending before an escape or directive backslash, a terminating byte or the end |
| ParseSpec.TryMatchDirective | src/main/cpp/parse.cpp:432-454 | a directive covers exactly what it consumes, and one is always matched after a backslash followed by a name character that is not an ASCII digit |
| ParseSpec.TryMatchArgumentList | src/main/cpp/parse.cpp:456-484 | an argument list is non-empty, starts with `[`, ends with `]` and covers exactly what it consumes; otherwise nothing is consumed |
| ParseSpec.ArgumentLoop | src/main/cpp/parse.cpp:466-481 | the argument loop consumes the arguments, their separators and the closing `]`, or gives back everything |
| ParseSpec.ArgumentLoopAfter | src/main/cpp/parse.cpp:467-476 | after an argument a `]` ends the list and a `,` goes on to the next argument, with the same coverage guarantee |
| ParseSpec.PrependArgument | src/main/cpp/parse.cpp:473-476 | an argument, its comma and the rest of the list cover the bytes of all three; a failed rest gives back the whole list |
| ParseSpec.TryMatchArgument | src/main/cpp/parse.cpp:502-527 | an argument covers exactly what it consumes and ends before `,` or `]` |
| ParseSpec.TryMatchArgumentName | src/main/cpp/parse.cpp:529-562 | a name is non-empty, does not start with a digit and is followed, after whitespace, by `=`, which is consumed; otherwise nothing is |
| ParseSpec.NameAndEquals | src/main/cpp/parse.cpp:546-561 | with a non-empty name, the `=` after optional whitespace completes the name part and is its last byte; without one nothing is consumed |
| ParseSpec.TryMatchTrimmedArgumentValue | src/main/cpp/parse.cpp:564-592 | a value is leading whitespace and content that ends before `,` or `]`; a value that runs into `}` or the end is refused and consumes nothing |
| ParseSpec.TryMatchBlock | src/main/cpp/parse.cpp:623-650 | a block starts with `{`, ends with `}` and covers exactly what it consumes; in the corrected revision nothing is lost |
| ParseProperties.MatchCodePointsTotal | src/main/cpp/parse.cpp:303-309 | on input valid from the position, matching code points never fails `peek_code_point`'s assertion and leaves the input valid |
| ParseProperties.ScanTextTotal | src/main/cpp/parse.cpp:371-420 | on valid input the text loop never fails the assertion on the sequence after a backslash (390-392) |
| ParseProperties.TryMatchArgumentNameTotal | src/main/cpp/parse.cpp:529-562 | on valid input the argument name matcher never fails and leaves the input valid |
| ParseProperties.ArgumentNameTotal | src/main/cpp/parse.cpp:538-561 | the same, once the leading whitespace has been skipped and the source has not ended |
| ParseProperties.MatchArgumentNameTotal | src/main/cpp/parse.cpp:318-322 | on valid input `match_argument_name` never fails and leaves the input valid |
| ParseProperties.NameAndEqualsValid | src/main/cpp/parse.cpp:549-561 | whitespace and `=` after a name leave the input valid |
| ParseProperties.MatchContentSequenceTotal | src/main/cpp/parse.cpp:331-348 | on valid input the corrected content sequence never fails `MMML_ASSERT(success)` and leaves the input valid |
| ParseProperties.ContentLoopTotal | src/main/cpp/parse.cpp:336-345 | the loop of `match_content_sequence` does not fail on valid input, whatever the bracket levels |
| ParseProperties.TryMatchContentTotal | src/main/cpp/parse.cpp:363-430 | on valid input a piece is always matched where the content has not ended, which is what `MMML_ASSERT(success)` at 343-344 demands |
| ParseProperties.TryMatchEscapedOrDirectiveTotal | src/main/cpp/parse.cpp:365-367 | on valid input, at a backslash where the text loop stops, the corrected parser matches an escape sequence or a directive |
| ParseProperties.MatchTextTotal | src/main/cpp/parse.cpp:369-429 | on valid input text never fails, and is empty only before an escape, a directive or a terminating byte |
| ParseProperties.TryMatchDirectiveTotal | src/main/cpp/parse.cpp:432-454 | on valid input the directive matcher never fails and leaves the input valid |
| ParseProperties.TryMatchArgumentListTotal | src/main/cpp/parse.cpp:456-484 | on valid input the argument list matcher never fails and leaves the input valid |
| ParseProperties.ArgumentLoopTotal | src/main/cpp/parse.cpp:466-481 | the argument loop does not fail on valid input and leaves it valid after the closing `]` |
| ParseProperties.ArgumentLoopAfterTotal | src/main/cpp/parse.cpp:467-476 | the step after an argument, over `,` or `]`, does not fail on valid input |
| ParseProperties.TryMatchArgumentTotal | src/main/cpp/parse.cpp:502-527 | on valid input the argument matcher never fails and leaves the input valid |
| ParseProperties.TryMatchTrimmedArgumentValueTotal | src/main/cpp/parse.cpp:564-592 | on valid input the value matcher never fails and leaves the input valid |
| ParseProperties.TryMatchBlockTotal | src/main/cpp/parse.cpp:623-650 | on valid input the block matcher never fails and leaves the input valid |
| ParseProperties.ParseShape | src/main/cpp/parse.cpp:132-140 | in either revision the instructions are a balanced stream framed by `push_document` and `pop_document`, and they advance over every source byte but the braces lost to failed block attempts |
| ParseProperties.ParseValid | include/mmml/parse.hpp:91-95 | parsing is infallible on valid UTF-8 (corrected revision): no assertion fails, and the instruction stream is balanced and advances over exactly the source |
| ParseFindings.DecodeAscii | include/mmml/util/unicode.hpp:146-168 | `decode_and_length` decodes an ASCII byte as itself with length 1, whatever follows |
| ParseFindings.EscapeAtEndAsWritten | src/main/cpp/parse.cpp:486-500 | as written, the document `\{` fails the assertion of `match_content_sequence`: the bound at 490 refuses an escape sequence that ends the source |
| ParseFindings.EscapeAtEndCorrected | src/main/cpp/parse.cpp:486-500 | with the bound `m_pos + 2 <= size`, `\{` parses as one `escape` instruction of width 2 inside the document |
| ParseFindings.BackslashDigitAsWritten | src/main/cpp/parse.cpp:311-316 | as written, `\1` fails the assertion: the text loop stops before it (393-395) but no directive name can start with a digit |
| ParseFindings.BackslashDigitCorrected | src/main/cpp/parse.cpp:383-395 | when the text loop does not stop before a backslash and a digit, `\1` is one text piece of width 2 |
| ParseFindings.BackslashDigitText | src/main/cpp/parse.cpp:371-420 | the corrected text loop runs over both bytes of `\1` |
| ParseFindings.UnterminatedName | src/main/cpp/parse.cpp:311-316 | in `\b{x` the directive name is the one byte `b` |
| ParseFindings.UnterminatedTail | src/main/cpp/parse.cpp:331-348 | the trailing `x` is one text piece that reaches the end of the source, in every context |
| ParseFindings.UnterminatedBlock | src/main/cpp/parse.cpp:623-650 | the block attempt of `\b{x` keeps the consumed `{` as written and gives it back when corrected |
| ParseFindings.UnterminatedDirective | src/main/cpp/parse.cpp:432-454 | `\b{x` starts with the directive `\b`, without arguments, whose failed block attempt leaves the position after `{` as written |
| ParseFindings.UnterminatedBlockAsWritten | src/main/cpp/parse.cpp:623-650 | as written, `\b{x` parses into instructions that advance over 3 of its 4 bytes: no instruction covers the `{` |
| ParseFindings.UnterminatedLoopAsWritten | src/main/cpp/parse.cpp:331-348 | as written, the document content of `\b{x` is the directive and the text `x` |
| ParseFindings.UnterminatedRestCorrected | src/main/cpp/parse.cpp:331-348 | corrected, what follows `\b` is one text piece `{x` |
| ParseFindings.UnterminatedBlockCorrected | src/main/cpp/parse.cpp:623-650 | corrected, `\b{x` is the directive `\b` and the text `{x`, and the instructions advance over all four bytes |
| Parsing.MatchCodePointsStep | src/main/cpp/parse.cpp:269-281 | one code point accepted by `expect(predicate(char32_t))` advances by its decoded length, which stays inside the source, and the count goes on from there |
| Parsing.ScanUnfold | src/main/cpp/parse.cpp:371-420 | one iteration of the text loop either fails, stops at the cursor, or goes on from the next byte with the new bracket levels |
| Parsing.LastEmitted | src/main/cpp/parse.cpp:598-603 | the last instruction written for a content sequence is `text` exactly when its last piece is text |
| Parsing.TrimLastEmitted | src/main/cpp/parse.cpp:594-621 | trimming the instructions of an argument value's content, in place, gives what `ParseSpec.TrimOf` prescribes for its pieces |
| Parsing.TextLast | src/main/cpp/parse.cpp:598-603 | content ending in `n` bytes of text writes its other instructions followed by one `text` instruction of `n` |
| Parsing.TrimLastEmittedOther | src/main/cpp/parse.cpp:599-601 | when the last instruction is not `text` trimming changes nothing |
| Parsing.TrimLastEmittedText | src/main/cpp/parse.cpp:605-620 | trimming a final `text` instruction turns it into `skip`, splits it into `text` and `skip`, or keeps it, as `TrimOf` decides |
| Parsing.TrimLastText | src/main/cpp/parse.cpp:605-620 | the three outcomes of trimming a final `text` of `n` bytes, by the length of its non-whitespace prefix |
| Parsing.EmitTrimmedText | src/main/cpp/parse.cpp:612-617 | the instructions written for content whose last text is replaced by `skip`, or split into `text` and `skip` |
| Parsing.ScopedAttempt.constructor | src/main/cpp/parse.cpp:86-91 | an attempt records the parser, its position and the size of its output, and starts active |
| Parsing.ScopedAttempt.Commit | src/main/cpp/parse.cpp:96-100 | committing an active attempt deactivates it and leaves the parser as it is |
| Parsing.ScopedAttempt.Abort | src/main/cpp/parse.cpp:102-111 | aborting restores the recorded position and truncates the output to the recorded size; the assertions of 104-105 are its precondition |
| Parsing.ScopedAttempt.End | src/main/cpp/parse.cpp:113-118 | the destructor aborts an attempt still active and otherwise changes nothing |
| Parsing.Parser.constructor | src/main/cpp/parse.cpp:126-130 | a parser starts at position 0 over the given source and output |
| Parsing.Parser.Expect | src/main/cpp/parse.cpp:242-250 | `expect(c)` succeeds exactly when the byte at the cursor is `c`, and then advances by one |
| Parsing.Parser.MatchWhitespace | src/main/cpp/parse.cpp:324-328 | the cursor stops at the first byte that is not ASCII whitespace, and the count is the bytes skipped |
| Parsing.Parser.ExpectCodePoint | src/main/cpp/parse.cpp:269-281 | fails the assertion of `peek_code_point` exactly on an undecodable sequence; advances past an accepted code point, otherwise stays |
| Parsing.Parser.MatchCodePoints | src/main/cpp/parse.cpp:303-309 | the loop `while (expect(predicate))` ends where `ParseSpec.MatchCodePoints` says, with the same count, or fails where it fails |
| Parsing.Parser.MatchDirectiveName | src/main/cpp/parse.cpp:311-316 | agrees with `ParseSpec.MatchDirectiveName` |
| Parsing.Parser.MatchArgumentName | src/main/cpp/parse.cpp:318-322 | agrees with `ParseSpec.MatchArgumentName` |
| Parsing.Parser.SkipWhitespace | src/main/cpp/parse.cpp:533-536 | whitespace is skipped and covered by one `skip` instruction when there is any |
| Parsing.Parser.MatchText | src/main/cpp/parse.cpp:369-429 | the text part of `try_match_content`: ends where `ParseSpec.MatchText` says, with its levels, and appends one `text` instruction exactly when the text is not empty |
| Parsing.Parser.ScanText | src/main/cpp/parse.cpp:371-420 | the text loop leaves the cursor and the bracket levels where `ParseSpec.ScanText` says, without writing anything |
| Parsing.Parser.TextStep | src/main/cpp/parse.cpp:372-419 | one iteration's decision is `ParseSpec.ScanStep`, including the `size_t` wrap of `levels.square--` and `levels.brace--` at 0 |
| Parsing.Parser.TryMatchEscaped | src/main/cpp/parse.cpp:486-500 | succeeds exactly when `ParseSpec.EscapeAt` holds, then advances by 2 and appends one `escape` instruction of 2 |
| Parsing.Parser.TryMatchArgumentName | src/main/cpp/parse.cpp:529-562 | ends where `ParseSpec.TryMatchArgumentName` says and appends exactly its instructions; a failed attempt restores position and output |
| Parsing.Parser.AfterName | src/main/cpp/parse.cpp:545-561 | after a name, gives the attempt back when the name is empty or no `=` follows, and otherwise appends `skip` over the whitespace and `=` |
| Parsing.Parser.TrimTrailingWhitespace | src/main/cpp/parse.cpp:594-621 | rewrites the last instruction in place as `TrimLast` describes and leaves the cursor alone |
| Directives.StripDashes | src/main/cpp/directives.cpp:665-667 | dropping leading `-` over and over never lengthens the name |
| Directives.StripDashesFacts | src/main/cpp/directives.cpp:665-667 | what is dropped is exactly the run of dashes at the front: the rest is a suffix of the name that is empty or does not start with `-` |
| Directives.BuiltinSwitchIsTable | src/main/cpp/directives.cpp:671-738 | the `switch (name[0])` agrees, on every name not starting with `-`, with the table of builtin names: formatting names, element names, `tt`, `comment`, `error`, `html` and the `html-` prefix |
| Directives.BuiltinSwitch | src/main/cpp/directives.cpp:671-738 | a name still starting with `-` is not in the switch, every formatting name maps to the direct-formatting behaviour, and every hit is one of the built-in behaviours |
| Directives.BuiltinDirectiveSetIsTable | src/main/cpp/directives.cpp:660-741 | `Builtin_Directive_Set::operator()` resolves every name as the table resolves it without its leading dashes, and a name of dashes only to nothing |
| Directives.BuiltinDirectiveSet | src/main/cpp/directives.cpp:660-741 | a name made only of dashes resolves to nothing, and whatever a name resolves to is one of the built-in behaviours |
| Directives.BuiltinPrefixIgnored | src/main/cpp/directives.cpp:662-667 | any builtin is found both as `\-directive` and as `\directive` |
| Directives.BuiltinCategories | src/main/cpp/directives.cpp:643-655 | each group of builtin names resolves to its behaviour in `Builtin_Directive_Set::Impl`, with that behaviour's category and display |
| Directives.HtmlPrefixedNotListed | src/main/cpp/directives.cpp:695-700 | no name starting with `html-` is also a formatting or element name, so the order of the cases does not matter |
| Directives.BuiltinOthersUnresolved | src/main/cpp/directives.cpp:740 | every other name, with or without dashes, resolves to nothing |
| Directives.PassthroughNameAsWritten | src/main/cpp/directives.cpp:344-350 | as written, the tag name is the directive name less one leading `-` and less the prefix; a name shorter than the prefix makes `substr` throw |
| Directives.PassthroughName | src/main/cpp/directives.cpp:344-350 | corrected: the tag name is what follows the prefix in the name without all its leading dashes, absent exactly when that name is shorter than the prefix |
| Directives.PassthroughNameIsMatchedName | src/main/cpp/directives.cpp:643-655 | for every name the builtin set resolves to a name passthrough behaviour, the corrected tag name exists and is the matched formatting or element name, or what follows `html-` |
| Directives.PassthroughNameAsWrittenKeepsDash | src/main/cpp/directives.cpp:344-350 | as written, `\--b` resolves to the formatting behaviour of `b` but gets the tag name `-b`, which is no HTML tag name; corrected it is `b` |
| Directives.PassthroughNameAsWrittenKeepsDashInTag | src/main/cpp/directives.cpp:344-350 | the same for `\--html-div`, which as written writes a `-div` tag |
| Directives.PassthroughNameAgreesWithOneDash | src/main/cpp/directives.cpp:344-350 | with at most one leading dash the code as written and the correction agree |
| Directives.FixedName | src/main/cpp/directives.cpp:369-372 | a fixed name passthrough uses its fixed name whatever the directive is called |
| Directives.SourceTexts | src/main/cpp/directives.cpp:274-276 | one inner text per piece of content |
| Directives.SourceTextsAt | src/main/cpp/directives.cpp:274-276 | the `k`-th text is the source of the `k`-th piece of content |
| Directives.ErrorGenerateHtml | src/main/cpp/directives.cpp:271-278 | `Error_Behavior::generate_html` writes, in order, the `error-` open tag, the source of each piece of content as text, and the close tag |
| Directives.SourcesWithinPrefix | src/main/cpp/directives.cpp:274-276 | a prefix of the content lies within the source when the content does |
| Directives.ErrorHtmlShape | src/main/cpp/directives.cpp:263-279 | the `\error` HTML is one `error-` element with one text per piece of content, each that piece's source, and no other `error-` tag |
| Directives.ErrorHtml | src/main/cpp/directives.cpp:263-279 | the error behaviour writes two events more than the directive has nodes: the first opens the `error-` tag and the last closes it |
| Directives.NoTagsInSourceTexts | src/main/cpp/directives.cpp:274-276 | the texts open and close no tag |
| Directives.FirstHitIsLatest | src/main/cpp/directives.cpp:13-21 | nothing is found exactly when no resolver answers; what is found is the answer of a resolver after which none answers, so the most recently added resolver wins |
| Directives.FirstHit | src/main/cpp/directives.cpp:13-21 | the lookup finds nothing exactly when no resolver knows the name |
| Directives.FirstHitOfBuiltins | src/main/cpp/directives.cpp:13-21 | a context with only the builtin set resolves as the builtin table |
| Directives.Context.FindDirective | src/main/cpp/directives.cpp:13-21 | the loop over the reversed resolvers returns the first answer, which is `FirstHit` |
| Directives.Context.FindDirectiveOf | src/main/cpp/directives.cpp:23-26 | a directive is found by its name in the source |
| Directives.Context.SetVariable | src/main/cpp/directives.cpp:603-617 | `set` inserts a new variable or overwrites an existing one with the given value; no other variable changes |
| Directives.Context.GetVariablePlaintext | src/main/cpp/directives.cpp:553-564 | appends the variable's value when it exists and nothing otherwise |
| Directives.Context.GetVariableHtml | src/main/cpp/directives.cpp:566-577 | writes the variable's value as inner HTML when it exists and nothing otherwise |
| Directives.VariableText | src/main/cpp/directives.cpp:560-563 | the value of an existing variable, empty for a missing one |
| Directives.VariableHtml | src/main/cpp/directives.cpp:573-576 | one inner HTML event with the value of an existing variable, none for a missing one |
| Directives.GetAfterSet | src/main/cpp/directives.cpp:603-617 | getting a variable after setting it gives the new value in plaintext and HTML, and every other variable reads as before |
| Highlight.AnnotationAtSnoc | include/mmml/util/annotated_string.hpp:120-131 | appending a span annotates exactly the bytes it covers and leaves every other byte's annotation as it was |
| Highlight.AnnotationAtPastEnd | include/mmml/util/annotated_string.hpp:120-131 | of ascending spans, none annotates a byte at or after the end of the last one |
| AnnotatedStrings.IntegerText | include/mmml/util/annotated_string.hpp:133-169 | the printed integer is never empty, starts with `+` exactly when the sign policy asks for one and with `-` exactly for negative numbers |
| AnnotatedStrings.SignPolicies | include/mmml/util/annotated_string.hpp:15-22 | `negative_only` prints the bare digits; `always` puts a sign before every number; `nonzero` puts one before every number but zero |
| AnnotatedStrings.TextOf | include/mmml/util/annotated_string.hpp:81-85 | `get_text(span)` throws exactly when the span begins past the end of the text, and otherwise is the text from the span's begin, cut short at the end of the text and of full length when the span lies within it |
| AnnotatedStrings.AnnotatedString.constructor | include/mmml/util/annotated_string.hpp:42-49 | a new string has no text and no spans |
| AnnotatedStrings.AnnotatedString.GetLength | include/mmml/util/annotated_string.hpp:51-55 | the length pair is the text length and the span count |
| AnnotatedStrings.AnnotatedString.Resize | include/mmml/util/annotated_string.hpp:87-91 | both lists are truncated or grown to the requested sizes, keeping their prefixes, with `'\0'` characters and empty spans at 0 added |
| AnnotatedStrings.AnnotatedString.Clear | include/mmml/util/annotated_string.hpp:93-97 | text and spans become empty |
| AnnotatedStrings.AnnotatedString.Append | include/mmml/util/annotated_string.hpp:101-104 | an untyped append adds the text and no span |
| AnnotatedStrings.AnnotatedString.AppendRepeated | include/mmml/util/annotated_string.hpp:106-118 | `append(c)` and `append(amount, c)` add the copies of `c` and no span |
| AnnotatedStrings.AnnotatedString.AppendTyped | include/mmml/util/annotated_string.hpp:120-131 | a typed append adds the text and one span of its type covering exactly it; the assertion of 122 that the text is not empty is its precondition |
| AnnotatedStrings.AnnotatedString.AppendInteger | include/mmml/util/annotated_string.hpp:133-150 | both overloads of `append_integer` add the optional `+` and the digits, and the typed one a span covering both |
| AnnotatedStrings.AnnotatedString.AppendDigits | include/mmml/util/annotated_string.hpp:155-169 | `append_digits` adds `+` when asked and the digits, and, given a type, one span from the old end covering both |
| AnnotatedStrings.Repeat | include/mmml/util/annotated_string.hpp:115-118 | `n` copies of the character |
| AnnotatedStrings.AppendKeepsSpansWithin | include/mmml/util/annotated_string.hpp:120-125 | appends keep every span within the text |
| AnnotatedStrings.ScopedBuilder.constructor | include/mmml/util/annotated_string.hpp:237-242 | a builder records its owner, the owner's text length and its type |
| AnnotatedStrings.ScopedBuilder.Append | include/mmml/util/annotated_string.hpp:270-274 | appends the text to the owner without a span |
| AnnotatedStrings.ScopedBuilder.AppendRepeated | include/mmml/util/annotated_string.hpp:258-268 | appends copies of a character to the owner without a span |
| AnnotatedStrings.ScopedBuilder.AppendInteger | include/mmml/util/annotated_string.hpp:276-281 | appends an integer to the owner without a span |
| AnnotatedStrings.ScopedBuilder.End | include/mmml/util/annotated_string.hpp:244-253 | the destructor fails its assertion exactly when the text is shorter than at construction, and then changes nothing; otherwise it covers everything appended since construction with one span of the builder's type, or adds nothing when nothing was appended |
| MarkupHighlight.Substr | src/main/cpp/highlight/mmml.cpp:130 | `substr(index, n)` without the exception: the count is clamped to what remains of the source |
| MarkupHighlight.EmitSpan | src/main/cpp/highlight/mmml.cpp:40-51 | `emit` moves `index` past the `length` bytes and leaves the comment counters alone; it adds one span unless it coalesces with the last one |
| MarkupHighlight.EmitAnnotates | src/main/cpp/highlight/mmml.cpp:40-51 | whether or not it coalesces, `emit` annotates exactly the `length` bytes at `index` with its type and no other byte differently |
| MarkupHighlight.EmitKeepsOrdered | src/main/cpp/highlight/mmml.cpp:40-51 | `emit` keeps the spans ascending and ending at or before `index`, the last one now ending at the new `index` |
| MarkupHighlight.AddToTarget | src/main/cpp/highlight/mmml.cpp:64-65 | `target` is the content length inside the comment block and the delimiter length otherwise; adding to it adds to exactly one of them |
| MarkupHighlight.OutsideStepAnnotates | src/main/cpp/highlight/mmml.cpp:116-160 | outside comments every instruction that opens no comment moves `index` by its advance over the source and gives the bytes it advances over its type (escape, attribute, tag, symbol, important symbol; none for `skip` and `text`) |
| MarkupHighlight.CommentEntry | src/main/cpp/highlight/mmml.cpp:129-141 | a directive opens comment mode exactly when its name in the source is `\comment` or `\-comment`; its length becomes the delimiter length and nothing is emitted |
| MarkupHighlight.CommentStep | src/main/cpp/highlight/mmml.cpp:63-113 | one instruction inside a comment never moves the index back and never removes a span |
| MarkupHighlight.CommentModeIsSilent | src/main/cpp/highlight/mmml.cpp:63-113 | as written, in comment mode nothing is emitted and `index` stays, except at the `{` that opens the comment block and the `}` that closes it |
| MarkupHighlight.CommentBlockEmits | src/main/cpp/highlight/mmml.cpp:94-111 | the opening `{` emits the delimiter counted so far with the `{`, and the closing `}` emits the content, if any, and one byte of delimiter |
| MarkupHighlight.PopDirectiveInComment | src/main/cpp/highlight/mmml.cpp:75-80 | `pop_directive` leaves comment mode at depth 1 and changes nothing deeper |
| MarkupHighlight.OrderedMonotone | src/main/cpp/highlight/mmml.cpp:61-162 | a step that keeps the spans and does not move `index` back keeps them ordered |
| MarkupHighlight.CommentStepKeepsOrdered | src/main/cpp/highlight/mmml.cpp:63-113 | every instruction in comment mode keeps the spans ascending and behind `index` |
| MarkupHighlight.OpenBlockKeepsOrdered | src/main/cpp/highlight/mmml.cpp:94-100 | the opening `{` keeps the spans ordered |
| MarkupHighlight.CloseBlockKeepsOrdered | src/main/cpp/highlight/mmml.cpp:101-111 | the closing `}` keeps the spans ordered |
| MarkupHighlight.LeaveCommentKeepsOrdered | src/main/cpp/highlight/mmml.cpp:75-80 | leaving comment mode keeps the spans ordered |
| MarkupHighlight.StepKeepsOrdered | src/main/cpp/highlight/mmml.cpp:61-162 | every instruction keeps the spans ascending and behind `index` |
| MarkupHighlight.RunKeepsOrdered | src/main/cpp/highlight/mmml.cpp:32-163 | the spans `highlight_mmml` appends to an empty output are ascending and do not overlap |
| MarkupHighlight.RunThrewStays | src/main/cpp/highlight/mmml.cpp:130 | once `substr` throws, the rest of the stream is not processed |
| MarkupHighlight.EmitAgrees | src/main/cpp/highlight/mmml.cpp:40-51 | two states that annotate byte `x` alike and share the counters still do after the same `emit`, with or without coalescing |
| MarkupHighlight.LeaveCommentAgrees | src/main/cpp/highlight/mmml.cpp:75-80 | the same for leaving comment mode |
| MarkupHighlight.CommentStepAgrees | src/main/cpp/highlight/mmml.cpp:63-113 | the same for every instruction in comment mode |
| MarkupHighlight.BlockEdgeAgrees | src/main/cpp/highlight/mmml.cpp:94-111 | the same for the `{` and `}` of the comment block |
| MarkupHighlight.LeavingAgrees | src/main/cpp/highlight/mmml.cpp:75-80 | the same for `pop_directive`, and for a `}` at depth 1 in the corrected loop |
| MarkupHighlight.QuietCommentStepAgrees | src/main/cpp/highlight/mmml.cpp:67-92 | the same for the instructions a comment only counts |
| MarkupHighlight.OpenBlockShape | src/main/cpp/highlight/mmml.cpp:94-100 | the opening `{` moves `index` past the delimiter and the `{`; the corrected loop then starts the block with empty counters |
| MarkupHighlight.OpenBlockAgrees | src/main/cpp/highlight/mmml.cpp:94-100 | coalescing does not change what the opening `{` annotates |
| MarkupHighlight.CloseBlockAgrees | src/main/cpp/highlight/mmml.cpp:101-111 | coalescing does not change what the closing `}` annotates |
| MarkupHighlight.OutsideStepShape | src/main/cpp/highlight/mmml.cpp:116-160 | outside comments an instruction that neither throws nor opens a comment emits its type over its advance, or only advances when it has none |
| MarkupHighlight.OutsideStep | src/main/cpp/highlight/mmml.cpp:116-160 | one instruction outside a comment throws exactly for a `push_directive` whose index is past the source (the `substr` at line 130); otherwise the index never moves back and spans are only added |
| MarkupHighlight.OutsideStepAgrees | src/main/cpp/highlight/mmml.cpp:116-160 | coalescing does not change what an instruction outside comments annotates |
| MarkupHighlight.StepAgrees | src/main/cpp/highlight/mmml.cpp:61-162 | coalescing does not change what any instruction annotates, nor the counters |
| MarkupHighlight.Step | src/main/cpp/highlight/mmml.cpp:61-162 | one instruction throws exactly when it is outside a comment and is such a `push_directive`; otherwise the index never moves back and spans are only added |
| MarkupHighlight.CoalescingAnnotatesTheSame | src/main/cpp/highlight/mmml.cpp:42-49 | `Highlight_Options::coalescing` changes how many spans there are, never which bytes are annotated nor with what: with and without it the loop throws on the same streams and annotates every byte alike |
| MarkupHighlight.LeaveCommentAligned | src/main/cpp/highlight/mmml.cpp:75-80 | corrected, leaving comment mode brings `index` back onto the source position |
| MarkupHighlight.CorrectedCommentStepAligned | src/main/cpp/highlight/mmml.cpp:63-113 | corrected, every instruction in comment mode keeps `index` trailing the source position by exactly the bytes not yet emitted |
| MarkupHighlight.CorrectedStepAligned | src/main/cpp/highlight/mmml.cpp:61-162 | corrected, every instruction keeps that alignment |
| MarkupHighlight.CorrectedRunAligned | src/main/cpp/highlight/mmml.cpp:32-163 | corrected, after a stream ending outside comments `index` is exactly the width of the source it covers |
| MarkupHighlight.CorrectedSpansWithinSource | src/main/cpp/highlight/mmml.cpp:32-163 | corrected, the spans are ascending and none reaches past the source the stream covers |
| MarkupHighlight.RunThrough | src/main/cpp/highlight/mmml.cpp:61-162 | a stream that steps through a list of states ends in the last of them |
| MarkupHighlight.Run | src/main/cpp/highlight/mmml.cpp:32-163 | a run that does not throw keeps every span already in the output, and no instructions leave the start state unchanged |
| MarkupHighlight.BlocklessCommentWidth | src/main/cpp/parse.cpp:432-454 | the instructions of `\comment\b` advance over its 10 bytes |
| MarkupHighlight.BlocklessStates | src/main/cpp/highlight/mmml.cpp:61-162 | the states the loop passes through on `\comment\b`, one per instruction |
| MarkupHighlight.BlocklessStep | src/main/cpp/highlight/mmml.cpp:61-162 | each instruction of `\comment\b` steps from one of those states to the next |
| MarkupHighlight.BlocklessRun | src/main/cpp/highlight/mmml.cpp:32-163 | the loop over `\comment\b` ends in the last of those states |
| MarkupHighlight.BlocklessCommentAsWritten | src/main/cpp/highlight/mmml.cpp:75-80 | as written, `\comment\b` highlights the tag of `\b` at offsets 0..1, inside the comment's name, and `index` ends 8 bytes short of the 10 the stream covers |
| MarkupHighlight.BlocklessCommentCorrected | src/main/cpp/highlight/mmml.cpp:75-80 | corrected, the comment's name is one delimiter span over offsets 0..7 and the tag lands on `\b` at 8..9 |
| MarkupHighlight.Highlighter.constructor | src/main/cpp/highlight/mmml.cpp:39-59 | the captured variables start at zero with the given output |
| MarkupHighlight.Highlighter.Emit | src/main/cpp/highlight/mmml.cpp:40-51 | the `emit` lambda updates the captured output and `index` as `EmitSpan` says |
| MarkupHighlight.Highlighter.Count | src/main/cpp/highlight/mmml.cpp:64-72 | `target += k` on the reference `target` is `AddToTarget` |
| MarkupHighlight.Highlighter.Leave | src/main/cpp/highlight/mmml.cpp:76-78 | leaving comment mode, as written or corrected |
| MarkupHighlight.Highlighter.ProcessInComment | src/main/cpp/highlight/mmml.cpp:63-113 | the comment branch of the loop body changes the variables as `CommentStep` says |
| MarkupHighlight.Highlighter.ProcessOutside | src/main/cpp/highlight/mmml.cpp:115-161 | the other branch changes them as `OutsideStep` says, or throws where it throws |
| MarkupHighlight.Highlighter.Process | src/main/cpp/highlight/mmml.cpp:61-162 | one iteration of the loop is `Step` |
| MarkupHighlight.HighlightMarkup | src/main/cpp/highlight/mmml.cpp:32-163 | `highlight_mmml` over an instruction stream appends the spans `Run` describes, or reports that `substr` threw |
| Printing.AnsiColourClasses | src/main/cpp/print.cpp:28-63 | which `Diagnostic_Highlight`s share each colour: text, code citations, punctuation and operators print uncoloured; errors red; positions and internal notes black; warnings, line numbers, escapes and the internal-error notice yellow; operands and attributes magenta; notes white, the position indicator green, tags blue, each an if-and-only-if |
| Printing.SizeArithmeticWraps | src/main/cpp/print.cpp:262-270 | `size_t` addition and subtraction are arithmetic modulo 2^64; adding `npos` subtracts one except at 0, where it gives `npos` |
| Printing.LastNewlineBefore | src/main/cpp/print.cpp:265-266 | the index of the last `\n` before `e`, or -1; nothing between it and `e` is `\n` |
| Printing.FirstNewlineFrom | src/main/cpp/print.cpp:268 | the index of the first `\n` from `i` on, or the end; nothing before it is `\n` |
| Printing.FindLine | src/main/cpp/print.cpp:254-271 | the intended line of `index`: the bytes between the `\n` before it (or the start) and the `\n` at or after it (or the end), with no `\n` inside and `index` within its bounds |
| Printing.FindLineAgrees | src/main/cpp/print.cpp:254-271 | `find_line` as written, with its step back and `size_t` wrap, yields the intended line for every position but position 0 of a source starting with `\n` |
| Printing.FindLineAsWritten | src/main/cpp/print.cpp:254-271 | the line found is no longer than the source and holds no `\n` |
| Printing.FindLineAgreesSteppingBack | src/main/cpp/print.cpp:258-263 | at the end of the source or on a `\n`, past position 0, the step back still finds the line ending there |
| Printing.FindLineAgreesWithin | src/main/cpp/print.cpp:265-270 | on any other byte `rfind`/`find` bound exactly that byte's line |
| Printing.FindNewlineOn | src/main/cpp/print.cpp:268 | `find('\n')` from the end or from a `\n` stops right there |
| Printing.FindNewlineAfter | src/main/cpp/print.cpp:268 | `find('\n')` from the byte after a non-`\n` finds the end of its line |
| Printing.RFindBefore | src/main/cpp/print.cpp:265-266 | `rfind('\n')` from the byte before `index` finds the `\n` ending the previous line, or `npos` on the first line |
| Printing.RFindAt | src/main/cpp/print.cpp:265-266 | `rfind('\n')` from a non-`\n` byte does the same |
| Printing.LineSliceIs | src/main/cpp/print.cpp:265-270 | the `substr` between the `rfind` and `find` results is the slice between the line's bounds |
| Printing.LineSlice | src/main/cpp/print.cpp:265-270 | the `substr` is the stretch of source that starts after the `\n` `rfind` found, or at 0 when it found none; when that start is not past the `find` result, the stretch ends exactly there, clamped to the source |
| Printing.FindLineAtLeadingNewline | src/main/cpp/print.cpp:254-271 | on `"\nab"` at position 0 `find_line` as written wraps to `size_t(-1)` and yields `"ab"`, where the intended line is empty |
| Printing.PiecesSnoc | src/main/cpp/print.cpp:170-215 | appending one more piece appends its text, and its span when typed and not empty, after the rest |
| Printing.PiecesSpansWithin | src/main/cpp/print.cpp:170-215 | the spans a run of appends produces are ascending and lie within the text appended |
| Printing.AppendKeeps | src/main/cpp/print.cpp:170-215 | one more append keeps text and spans those of all pieces appended so far |
| Printing.FirstEmptyTyped | include/mmml/util/annotated_string.hpp:120-125 | the first piece the typed `append` would assert against (typed, no text), or the count when there is none; none before it is one |
| Printing.AppendPiece | include/mmml/util/annotated_string.hpp:99-125 | a piece appends its text and, when typed, a span of its length at the old end |
| Printing.AppendNext | include/mmml/util/annotated_string.hpp:99-125 | appending after the pieces appended so far gives the text and spans of all of them |
| Printing.AppendPieces | include/mmml/util/annotated_string.hpp:120-125 | appends the pieces in order up to the first typed empty one, which fails the assertion: `crashed` exactly when there is one, and text and spans those of the prefix before it |
| Printing.GuttersAlign | src/main/cpp/print.cpp:189-206 | the padded line-number gutter `6 - min(digits, 5)` plus the digits is exactly as wide as the blank gutter `max(6, digits + 1)` |
| Printing.AffectedLinePieces | src/main/cpp/print.cpp:187-213 | `do_print_affected_line` makes fourteen appends, in this order |
| Printing.AffectedLineLayout | src/main/cpp/print.cpp:187-213 | the cited line follows a gutter as wide as the marker line's; the marker starts `column` spaces in with `^` and is `length` long, then `~` |
| Printing.DoPrintAffectedLine | src/main/cpp/print.cpp:170-215 | with the asserted `length > 0` and no `\n` under a longer span, appends the fourteen pieces up to the first failing typed append, reporting whether there was one |
| Printing.AffectedLineCrashes | src/main/cpp/print.cpp:187-198 | as written the typed append fails exactly when the line cited is empty; as corrected it never does |
| Printing.OnlyCitedMayBeEmpty | src/main/cpp/print.cpp:189-213 | every typed piece other than the cited code has text |
| Printing.EmptyCitedLine | src/main/cpp/print.cpp:187-198 | on `"a\n\nb"` at position 2, as written, the first failing append is the cited code, the sixth piece |
| Printing.CitedLineSpansNonEmpty | src/main/cpp/print.cpp:170-215 | as corrected (the empty line appended untyped) every piece is appended and every span produced has a positive length |
| Printing.PiecesSpansNonEmpty | src/main/cpp/print.cpp:170-215 | pieces only produce spans for non-empty text |
| Printing.FilePositionText | src/main/cpp/print.cpp:219-237 | the position text is never empty |
| Printing.PrintFilePosition | src/main/cpp/print.cpp:219-237 | appends `file:line:column`, one-based, with an optional `:`, and exactly one `code_position` span covering all of it |
| Printing.AppendFilePosition | src/main/cpp/print.cpp:228-236 | the appends inside the builder add exactly the `file:line:column` text, with the optional colon, and no span; the span comes when the builder ends |
| Printing.FilePositionReadsBack | src/main/cpp/print.cpp:219-237 | the position text parses back: file name, `:`, a number reading `line + 1`, `:`, a number reading `column + 1`, then the suffix |
| Printing.PositionSlices | src/main/cpp/print.cpp:225-235 | where each part of `file:a:b` lies |
| Printing.SlicesOfConcat | src/main/cpp/print.cpp:225-235 | the slices of a three-part concatenation are its parts |
| Printing.PlainEnd | src/main/cpp/print.cpp:335-336 | the plain run from `i` ends at the first `\r`, `\t` or `\n` before `stop`, and is not empty on a plain byte |
| Printing.PlainEndIsRun | src/main/cpp/print.cpp:335-336 | no control character lies inside the run, and one lies at its end when it stops short |
| Printing.CutOffPiece | src/main/cpp/print.cpp:318-338 | each turn below the limit appends a non-empty escape or code piece and moves forward, staying within the view |
| Printing.CutOffEnd | src/main/cpp/print.cpp:309-342 | where the loop stops reading lies between its start and the end |
| Printing.ShownCons | src/main/cpp/print.cpp:309-342 | what a list of pieces stands for and prints is that of its first and the rest |
| Printing.CutOffPieceShown | src/main/cpp/print.cpp:318-338 | one piece below the limit stands for exactly the bytes it moves over and crosses the limit by at most one |
| Printing.EllipsisCase | src/main/cpp/print.cpp:312-316 | at or past the limit with bytes left, the loop appends `...` and stops |
| Printing.PieceCase | src/main/cpp/print.cpp:318-338 | below the limit, the loop appends the turn's piece and goes on from where it moved to |
| Printing.PieceCaseLet | src/main/cpp/print.cpp:318-338 | the same in terms of the turn's own result |
| Printing.LoopStep | src/main/cpp/print.cpp:311-339 | one turn below the limit keeps pieces-so-far followed by pieces-to-come the whole list |
| Printing.LoopStop | src/main/cpp/print.cpp:312-316 | at the limit, `...` completes the list |
| Printing.CutOffFromShows | src/main/cpp/print.cpp:309-342 | from any point, the pieces stand for the bytes read, end in `...` exactly when reading stops early, and print at most one past the limit, at least the limit when stopping early |
| Printing.EllipsisStep | src/main/cpp/print.cpp:312-316 | those facts hold at the ellipsis |
| Printing.PieceStep | src/main/cpp/print.cpp:318-338 | one turn below the limit keeps those facts |
| Printing.ShownStep | src/main/cpp/print.cpp:318-338 | adjacent slices of source text join |
| Printing.CutOffShows | src/main/cpp/print.cpp:309-342 | `print_cut_off` prints a prefix of the view, control characters escaped and the rest verbatim; `...` exactly when it stopped before the end, which happens only after `limit` characters; never more than `limit + 1` printed |
| Printing.CutOff | src/main/cpp/print.cpp:309-342 | prints no piece exactly for an empty view, and only `...` for a non-empty view with limit 0 |
| Printing.PrintCutOff | src/main/cpp/print.cpp:309-342 | the loop of `print_cut_off` appends exactly the pieces of `CutOff`, with their spans |
| Printing.IndentingPrinter.constructor | src/main/cpp/print.cpp:374-384 | a printer starts at indentation level 0 on its output with the given width |
| Printing.IndentingPrinter.PrintIndent | src/main/cpp/print.cpp:502-509 | fails its assertions exactly when the level or the width is negative, and then prints nothing; otherwise appends `indent_width * indent_level` spaces and no span |
| Printing.ScopedIndent.constructor | src/main/cpp/print.cpp:358-363 | creating a scope raises the level by one |
| Printing.ScopedIndent.End | src/main/cpp/print.cpp:368-371 | ending it lowers the level by one |
| Printing.IndentedIndent | src/main/cpp/print.cpp:497-509 | an indent printed inside a scope is one level deeper, fails exactly when that level or the width is negative, and the level is restored afterwards either way |
| Services.Apply | include/mmml/services.hpp:52-69 | a highlighter only appends spans to `out` and appends nothing when it fails; it succeeds exactly when the foreign highlighter does, with that error otherwise |
| Services.NoSupportNeverHighlights | include/mmml/services.hpp:72-99 | the no-support highlighter fails on every input with `unsupported_language`, leaves `out` as it was, supports no language and matches none |
| Services.Logger.constructor | include/mmml/services.hpp:181-185 | a logger starts with the minimum severity it was given, which `set_min_severity` asserts is at most `none` |
| Services.Logger.Ignorant | include/mmml/services.hpp:207-216 | `ignorant_logger` has minimum severity `none` and discards what it is given |
| Services.Logger.SetMinSeverity | include/mmml/services.hpp:192-196 | fails its assertion exactly when `severity > none`, and then changes nothing; otherwise sets the minimum severity and nothing else |
| Services.Logger.Log | include/mmml/services.hpp:204-213 | the ignorant logger's sink discards the diagnostic; the minimum severity stays |
| Services.CanLogByLevel | include/mmml/services.hpp:199-202 | `can_log` admits exactly the levels the diagnostic ordering does not place below the minimum; a minimum of `none` admits no emitted level |
| Diagnostics.Compare | include/mmml/diagnostic.hpp:32-36 | `operator<=>` is less, equivalent or greater exactly as the underlying values compare |
| Diagnostics.LevelsAscend | include/mmml/diagnostic.hpp:13-30 | `all` is `debug`, and debug, soft warning, warning, error and none ascend strictly |
| Diagnostics.NoneAboveEmitted | include/mmml/diagnostic.hpp:26-29 | every level a diagnostic is emitted with compares less than `none` |
| ContentTrimming.TrimBlankTextLeft | src/main/cpp/directive_processing.cpp:43-62 | `trim_blank_text_left` never makes the content longer |
| ContentTrimming.TrimBlankTextRight | src/main/cpp/directive_processing.cpp:64-83 | `trim_blank_text_right` never makes the content longer |
| ContentTrimming.TrimLeftFacts | src/main/cpp/directive_processing.cpp:43-62 | the left trim keeps a suffix; every node it drops is a text or generated node of ASCII blanks only, and the first node it keeps is not |
| ContentTrimming.TrimRightFacts | src/main/cpp/directive_processing.cpp:64-83 | the right trim keeps a prefix; every node it drops is blank text, and the last node it keeps is not |
| ContentTrimming.TrimBlankTextIsSlice | src/main/cpp/directive_processing.cpp:85-89 | `trim_blank_text` is a contiguous slice of the content, every node outside it blank text, and neither its first nor its last node blank text |
| ContentTrimming.TrimBlankTextIdempotent | src/main/cpp/directive_processing.cpp:85-89 | trimming already trimmed content changes nothing |
| ProcessingModes.MaxStatus | src/main/cpp/directive_processing.cpp:181 | the aggregated status is one of the two and ranks at least as high as each |
| ProcessingModes.MaxStatusAlgebra | include/cowel/directive_processing.hpp:33-37 | ranked by declaration order, max aggregation is commutative and associative, with `ok` as identity and `error` absorbing; it is `error` iff either is, `ok` iff both are |
| ProcessingModes.RankInjective | include/cowel/directive_processing.hpp:33-37 | distinct statuses have distinct underlying values |
| ProcessingModes.ModeOf | include/cowel/directive_processing.hpp:118-135 | for each combination of trimmed and paragraphed there is the mode with exactly those two properties |
| ProcessingModes.ModePredicatesClassify | include/cowel/directive_processing.hpp:118-135 | `to_html_mode_is_trimmed` and `to_html_mode_is_paragraphed` together tell every mode apart; `direct` has neither |
| ProcessingModes.Defaults | include/cowel/directive_processing.hpp:152-158 | the default `to_html` mode neither trims nor splits paragraphs, the default state is outside, the default plaintext mode is `normal` |
| Plaintext.TryGenerateErrorPlaintext | src/main/cpp/directive_processing.cpp:930-939 | appends the error behaviour's plaintext, or nothing when the context has no error behaviour |
| Plaintext.ToPlaintextContent | src/main/cpp/directive_processing.cpp:103-130 | text appends its source bytes, an escape its one character, generated plaintext its data (other generated content is `some_ignored`), a directive goes to the directive overload; the status is that of the node |
| Plaintext.ContentPlaintext | src/main/cpp/directive_processing.cpp:103-130 | text and escapes always succeed, only a directive can fail, and content is ignored only for a generated node or in the mode without side effects |
| Plaintext.ToPlaintextDirective | src/main/cpp/directive_processing.cpp:132-169 | an unresolved directive appends the error behaviour's plaintext and is `error`; pure plaintext generates; formatting generates, or in `no_side_effects` mode appends its content's plaintext; any other category generates unless in `no_side_effects`, where it appends nothing and is `some_ignored` |
| Plaintext.DirectivePlaintext | src/main/cpp/directive_processing.cpp:132-169 | a directive fails exactly when no behaviour resolves it, and ignores content only in the mode without side effects |
| Plaintext.ToPlaintextSequence | src/main/cpp/directive_processing.cpp:171-184 | the loop appends each node's plaintext in order and returns the max-aggregated status |
| Plaintext.SequencePlaintext | src/main/cpp/directive_processing.cpp:171-184 | no nodes give no text and `ok` (SequencePlaintextConcat and SequenceStatusIsMax give concatenation and the maximum status) |
| Plaintext.SequencePlaintextConcat | src/main/cpp/directive_processing.cpp:171-184 | the plaintext of two sequences in a row is the first's text followed by the second's, with the higher status |
| Plaintext.SequenceStatusIsMax | src/main/cpp/directive_processing.cpp:178-183 | a sequence's status is `ok` iff every node's is, `error` iff some node's is, and never below any node's |
| Plaintext.TrimmedPlaintextIsNormal | src/main/cpp/directive_processing.cpp:132-169 | the overloads only tell `no_side_effects` apart, so `trimmed` produces exactly what `normal` does |
| Plaintext.UnresolvedIsError | src/main/cpp/directive_processing.cpp:138-143 | a directive no behaviour resolves is `error` in every mode, its text the error behaviour's plaintext |
| HtmlGeneration.TryGenerateErrorHtml | src/main/cpp/directive_processing.cpp:941-946 | writes the error behaviour's HTML, or nothing when the context has no error behaviour |
| HtmlGeneration.ToHtmlDirective | src/main/cpp/directive_processing.cpp:335-343 | a resolved directive writes its behaviour's HTML and nothing else; an unresolved one writes the error behaviour's |
| HtmlGeneration.DirectiveHtml | src/main/cpp/directive_processing.cpp:335-343 | an unresolved directive writes nothing when the context has no error behaviour |
| HtmlGeneration.ToHtmlContent | src/main/cpp/directive_processing.cpp:306-333 | text and escapes are written as inner text, generated content as inner text or inner HTML by its type, a directive through its behaviour |
| HtmlGeneration.ContentHtml | src/main/cpp/directive_processing.cpp:306-333 | every node other than a directive writes exactly one event, and text and escapes write inner text |
| HtmlGeneration.ToHtmlDirect | src/main/cpp/directive_processing.cpp:347-352 | `to_html_direct` writes each node's HTML, in order |
| HtmlGeneration.DirectHtml | src/main/cpp/directive_processing.cpp:347-352 | content that ends in a node other than a directive writes something |
| HtmlGeneration.DirectHtmlOnePerNode | src/main/cpp/directive_processing.cpp:347-352 | content without directives writes exactly one event per node |
| HtmlGeneration.WriteTrimmedNode | src/main/cpp/directive_processing.cpp:356-401 | for node `i` the visitor writes the text trimmed left when first and right when last, generated content likewise as inner HTML, an escape as inner HTML, a directive through its behaviour |
| HtmlGeneration.ToHtmlTrimmed | src/main/cpp/directive_processing.cpp:354-406 | writes the nodes in the trimmed mode up to the first whose trimmed text is empty, where the assertion ends the program; `crashed` tells whether it did |
| HtmlGeneration.TrimmedHtml | src/main/cpp/directive_processing.cpp:354-406 | the assertion of the trimmed writer fails exactly when it fails on the visit of some node |
| HtmlGeneration.TrimmedCrashes | src/main/cpp/directive_processing.cpp:354-406 | the first `n` nodes fail the assertion exactly when the visit of one of them does |
| HtmlGeneration.NonBlankSurvivesTrim | src/main/cpp/directive_processing.cpp:366-371 | a string with a non-blank byte is never trimmed to nothing |
| HtmlGeneration.CrashIsFinal | src/main/cpp/directive_processing.cpp:373 | once the assertion fails nothing more is written |
| HtmlGeneration.TrimmedAfterTrimDoesNotCrash | src/main/cpp/directive_processing.cpp:549-559 | after `trim_blank_text`, content whose text and generated nodes are not empty never fails the trimmed writer's assertion |
| HtmlGeneration.TrimmedNodeSome | src/main/cpp/directive_processing.cpp:356-401 | a non-empty node that is not blank where it is trimmed passes the assertion |
| HtmlGeneration.TrimmedUpToDoesNotCrash | src/main/cpp/directive_processing.cpp:403-405 | when every node passes, the loop does not crash |
| HtmlGeneration.TrimmedMiddleIsDirect | src/main/cpp/directive_processing.cpp:360-375 | a non-empty text node neither first nor last is written as the direct mode writes it |
| HtmlGeneration.LiteralHtml | src/main/cpp/directive_processing.cpp:583-601 | `to_html_literally` writes one event per node |
| HtmlGeneration.ToHtmlLiterally | src/main/cpp/directive_processing.cpp:583-601 | with no generated node (which the assertion rejects), escapes and text go out as inner HTML and a directive as the inner text of its source |
| HtmlGeneration.LiteralHtmlIgnoresBehaviours | src/main/cpp/directive_processing.cpp:583-601 | literal HTML depends on the source alone, never on a behaviour |
| HtmlParagraphs.TransitionHtml | src/main/cpp/directive_processing.cpp:510-530 | inline content leaves a paragraph open, block content leaves none open, whatever the state before |
| HtmlParagraphs.ThroughBlank | src/main/cpp/directive_processing.cpp:482-493 | a round through a blank line sequence always leaves the paragraph closed |
| HtmlParagraphs.BlankLineBounds | src/main/cpp/directive_processing.cpp:474-493 | a blank line sequence found is non-empty and lies within the text |
| HtmlParagraphs.UpToStep | src/main/cpp/directive_processing.cpp:558-572 | the first `n` nodes write what the first `n - 1` wrote, then node `n - 1` from the state they left |
| HtmlParagraphs.ParagraphsWriter.constructor | src/main/cpp/directive_processing.cpp:415-420 | the visitor starts in the given paragraphs state on its writer and context |
| HtmlParagraphs.ParagraphsWriter.Transition | src/main/cpp/directive_processing.cpp:510-530 | `transition` writes `<p>` for inline content outside a paragraph, `</p>` for block content inside one, nothing otherwise, and moves to the matching state |
| HtmlParagraphs.ParagraphsWriter.OnDirective | src/main/cpp/directive_processing.cpp:532-536 | the transition for the behaviour's display, then its HTML |
| HtmlParagraphs.ParagraphsWriter.VisitDirective | src/main/cpp/directive_processing.cpp:425-436 | a resolved directive goes through `on_directive`; then, as written, the error behaviour goes through `on_directive` too, whether or not the name resolved |
| HtmlParagraphs.ParagraphsWriter.VisitGenerated | src/main/cpp/directive_processing.cpp:439-443 | the transition for the content's display, then its HTML |
| HtmlParagraphs.ParagraphsWriter.VisitEscaped | src/main/cpp/directive_processing.cpp:498-502 | the inline transition, then the escaped character |
| HtmlParagraphs.ParagraphsWriter.VisitText | src/main/cpp/directive_processing.cpp:447-495 | trims as asked (on the right as written, with `trim_ascii_blank_left`), writes nothing for empty text, writes a single leading `\n` as it is, then splits the rest at blank line sequences |
| HtmlParagraphs.ParagraphsWriter.WriteFromLeadingNewline | src/main/cpp/directive_processing.cpp:467-494 | a single leading `\n` is written on its own without a transition, and the rest is split |
| HtmlParagraphs.ParagraphsWriter.WriteBlankLineSplit | src/main/cpp/directive_processing.cpp:473-494 | the loop writes inline text up to each blank line sequence and the sequence as block text, until no sequence is left and the rest is written inline |
| HtmlParagraphs.ParagraphsWriter.WriteThroughBlank | src/main/cpp/directive_processing.cpp:482-493 | one round writes the text before the sequence inline, the sequence as block, and leaves the text after it |
| HtmlParagraphs.ParagraphsWriter.WriteTextAs | src/main/cpp/directive_processing.cpp:477-478 | a transition, then one `write_inner_text` |
| HtmlParagraphs.ParagraphsWriter.Flush | src/main/cpp/directive_processing.cpp:504-507 | `flush` closes an open paragraph and leaves the state outside |
| HtmlParagraphs.ParagraphsWriter.VisitNode | src/main/cpp/directive_processing.cpp:558-569 | in `paragraphs_trimmed` mode a text node is visited trimmed on the left when first and on the right when last; every other node is visited as it is |
| HtmlParagraphs.ParagraphsWriter.WriteAll | src/main/cpp/directive_processing.cpp:554-573 | the paragraphs modes visit every node in order and then flush |
| HtmlParagraphs.InnerTextsOfTransition | src/main/cpp/directive_processing.cpp:510-530 | a transition writes no text |
| HtmlParagraphs.TextAsKeepsText | src/main/cpp/directive_processing.cpp:477-478 | a transition and a text write exactly that text |
| HtmlParagraphs.BlankLineSplitKeepsText | src/main/cpp/directive_processing.cpp:473-494 | splitting at blank lines writes every byte of the text, in order |
| HtmlParagraphs.BlankLineSplit | src/main/cpp/directive_processing.cpp:473-494 | the split writes nothing exactly for the empty text |
| HtmlParagraphs.SplitAtKeepsText | src/main/cpp/directive_processing.cpp:474-493 | one round and the rest write the whole text |
| HtmlParagraphs.ThroughBlankKeepsText | src/main/cpp/directive_processing.cpp:482-493 | one round writes the text before the sequence and the sequence |
| HtmlParagraphs.TwoTextsKeepText | src/main/cpp/directive_processing.cpp:485-492 | an inline text followed by a block text writes both |
| HtmlParagraphs.TextParagraphsKeepsText | src/main/cpp/directive_processing.cpp:447-495 | the text visitor writes exactly its text after the trimming |
| HtmlParagraphs.LeadingNewlineKeepsText | src/main/cpp/directive_processing.cpp:467-471 | the leading-newline case still writes the whole text |
| HtmlParagraphs.TrimmedTextTrims | src/main/cpp/directive_processing.cpp:450-455 | as corrected, trimming removes blanks on the sides asked for; as written, trimming on the right trims on the left; without right trimming both agree |
| HtmlParagraphs.TrimRightAsWrittenKeepsBlank | src/main/cpp/directive_processing.cpp:453-455 | in the trimmed paragraphs mode the text `"a "` keeps its trailing blank as written, and loses it as corrected |
| HtmlParagraphs.TransitionKeeps | src/main/cpp/directive_processing.cpp:510-530 | the `p` tags of a transition alternate from the state before to the state after |
| HtmlParagraphs.TextAsKeeps | src/main/cpp/directive_processing.cpp:477-478 | so do those of a transition followed by text |
| HtmlParagraphs.BlankLineSplitKeeps | src/main/cpp/directive_processing.cpp:473-494 | the loop of the text visitor writes `p` tags that alternate from its state to the state it leaves |
| HtmlParagraphs.SplitAtKeeps | src/main/cpp/directive_processing.cpp:474-493 | so does one round with the rest |
| HtmlParagraphs.ThroughBlankKeeps | src/main/cpp/directive_processing.cpp:482-493 | so does one round |
| HtmlParagraphs.TwoTextsKeep | src/main/cpp/directive_processing.cpp:485-492 | so do an inline and a block text in a row |
| HtmlParagraphs.TextParagraphsKeeps | src/main/cpp/directive_processing.cpp:447-495 | so does the whole text visitor |
| HtmlParagraphs.LeadingNewlineKeeps | src/main/cpp/directive_processing.cpp:467-471 | so does the leading-newline case |
| HtmlParagraphs.BehaviorKeeps | src/main/cpp/directive_processing.cpp:532-536 | when behaviours write no `p` tag, so does `on_directive` |
| HtmlParagraphs.DirectiveKeeps | src/main/cpp/directive_processing.cpp:425-436 | so does the directive visitor, as written and as corrected |
| HtmlParagraphs.TransitionThenKeeps | src/main/cpp/directive_processing.cpp:439-443 | so does a transition followed by one generated or escaped event |
| HtmlParagraphs.NodeKeeps | src/main/cpp/directive_processing.cpp:558-569 | so does every node the loop visits |
| HtmlParagraphs.UpToKeeps | src/main/cpp/directive_processing.cpp:558-570 | so do the first `n` nodes |
| HtmlParagraphs.UpToKeepsStep | src/main/cpp/directive_processing.cpp:558-570 | one more node keeps it |
| HtmlParagraphs.ParagraphsBalanced | src/main/cpp/directive_processing.cpp:554-573 | when behaviours write no `p` tag, the `<p>` and `</p>` of a paragraphs mode alternate from the given state and, after the flush, leave no paragraph open |
| HtmlParagraphs.ParagraphsHtml | src/main/cpp/directive_processing.cpp:554-573 | after `flush` no paragraph is open |
| HtmlParagraphs.DirectiveParagraphsIsDirect | src/main/cpp/directive_processing.cpp:425-436 | as corrected, the directive visitor writes the transition for the producing behaviour's display, then exactly what the direct mode writes |
| HtmlParagraphs.DirectiveParagraphs | src/main/cpp/directive_processing.cpp:425-436 | a directive nobody resolves, in a context without an error behaviour, writes nothing and keeps the paragraph state |
| HtmlParagraphs.ErrorAfterResolvedAsWritten | src/main/cpp/directive_processing.cpp:433-435 | as written, a resolved directive in a context with an error behaviour is followed by the error behaviour's output, so it differs from the corrected one whenever that output is not empty |
| HtmlParagraphs.UnresolvedAgree | src/main/cpp/directive_processing.cpp:425-436 | for a directive nobody resolves, as written and as corrected agree |
| HtmlRendering.ModeContent | src/main/cpp/directive_processing.cpp:549-551 | the content a mode's writer is given, trimmed in a trimmed mode, stays within the source |
| HtmlRendering.ToHtml | src/main/cpp/directive_processing.cpp:541-581 | `to_html` trims in the trimmed modes, then writes directly, through the trimmed writer (reporting whether its assertion failed) or through the paragraphs visitor with its flush |
| HtmlRendering.RenderedHtml | src/main/cpp/directive_processing.cpp:541-581 | only the trimmed mode can end the program with a failed assertion |
| HtmlRendering.RenderingDoesNotCrash | src/main/cpp/directive_processing.cpp:549-559 | for content whose text and generated nodes are not empty (a hypothesis, see "Left out"), no mode fails the trimmed writer's assertion |
| HtmlRendering.ParagraphModesBalance | src/main/cpp/directive_processing.cpp:562-577 | in a paragraphs mode, when behaviours write no `p` tag, the `<p>` and `</p>` written alternate from the given state and leave no paragraph open |
| HtmlRendering.OtherModesWriteNoParagraphs | src/main/cpp/directive_processing.cpp:553-560 | the direct and trimmed modes write no `p` tag of their own |
| HtmlRendering.NodeWritesNoParagraphs | src/main/cpp/directive_processing.cpp:306-343 | nor does one node's direct HTML |
| HtmlRendering.DirectWritesNoParagraphs | src/main/cpp/directive_processing.cpp:347-352 | nor does `to_html_direct` |
| HtmlRendering.TrimmedWritesNoParagraphs | src/main/cpp/directive_processing.cpp:354-406 | nor does `to_html_trimmed` up to any node |
| HtmlRendering.TrimmedNodeWritesNoParagraphs | src/main/cpp/directive_processing.cpp:356-401 | nor any one node of it |
| HtmlRendering.PretrimmedRendersAlike | src/main/cpp/directive_processing.cpp:549-551 | content already trimmed renders in a trimmed mode exactly as the untrimmed content does |
| HighlightMapping.ContentMapped | src/main/cpp/directive_processing.cpp:186-204 | the projection of one node records exactly one source index per byte of text |
| HighlightMapping.DirectiveMapped | src/main/cpp/directive_processing.cpp:241-292 | so does the projection of a directive |
| HighlightMapping.SequenceMapped | src/main/cpp/directive_processing.cpp:294-304 | so does the projection of a sequence |
| HighlightMapping.MapText | src/main/cpp/directive_processing.cpp:206-228 | a text node appends its source bytes and, for each, its own position in the source |
| HighlightMapping.MapEscaped | src/main/cpp/directive_processing.cpp:230-239 | an escape appends the escaped character and its index |
| HighlightMapping.MapDirective | src/main/cpp/directive_processing.cpp:241-292 | an unresolved directive and the meta, mixed and pure-HTML categories append nothing; a formatting directive projects its content; a pure-plaintext one appends its generated plaintext, each byte mapped to the directive's start |
| HighlightMapping.MapContent | src/main/cpp/directive_processing.cpp:186-204 | dispatches by node kind; generated content is never reached, which the function asserts |
| HighlightMapping.MapSequence | src/main/cpp/directive_processing.cpp:294-304 | projects each node in order |
| HighlightMapping.MapNext | src/main/cpp/directive_processing.cpp:301-303 | one turn of the loop appends the projection of node `k` after that of the nodes before it |
| HighlightMapping.SequenceMappedWithin | src/main/cpp/directive_processing.cpp:206-292 | every index recorded is an index into the document source |
| HighlightMapping.ContentMappedWithin | src/main/cpp/directive_processing.cpp:206-292 | so is every index recorded for one node |
| HighlightMapping.MappedIsSideEffectFreePlaintext | src/main/cpp/directive_processing.cpp:132-184 | without an error behaviour, the projected text is exactly the `no_side_effects` plaintext: the projection only adds where each byte came from |
| HighlightMapping.ContentMappedIsPlaintext | src/main/cpp/directive_processing.cpp:132-169 | the same for one node |
| HighlightCopy.RunEnd | src/main/cpp/directive_processing.cpp:714-718 | the inner loop stops at or after where it starts and within the plaintext |
| HighlightCopy.Snippets | src/main/cpp/directive_processing.cpp:701-723 | the outer loop stops at or after where it starts and within the plaintext |
| HighlightCopy.SnippetNodes | src/main/cpp/directive_processing.cpp:719-721 | one generated node per snippet |
| HighlightCopy.CopyContent | src/main/cpp/directive_processing.cpp:625-638 | visiting a node only moves the index forward, within the plaintext |
| HighlightCopy.CopyDirective | src/main/cpp/directive_processing.cpp:640-698 | so does visiting a directive |
| HighlightCopy.CopySequence | src/main/cpp/directive_processing.cpp:683-687 | so does visiting a sequence, the index carried from node to node |
| HighlightCopy.Copier.constructor | src/main/cpp/directive_processing.cpp:677-682 | a copier starts with nothing copied at the given index |
| HighlightCopy.Copier.MakeGenerated | src/main/cpp/directive_processing.cpp:725-748 | `make_generated` serialises `<h- data-h=short-name>` text `</h->` for a highlighted snippet, the bare text otherwise, into an in-line HTML node |
| HighlightCopy.Copier.AppendHighlightedTextIn | src/main/cpp/directive_processing.cpp:701-723 | skips bytes mapped before the source span, stops at one mapped past it, and appends one generated node per run of bytes under the same span |
| HighlightCopy.Copier.VisitDirective | src/main/cpp/directive_processing.cpp:640-698 | an unresolved directive and the meta, mixed and pure-HTML ones are copied as they are; a pure-plaintext one is replaced as text is; a formatting one is rebuilt around the copy of its content, the index carried on |
| HighlightCopy.Copier.VisitContent | src/main/cpp/directive_processing.cpp:625-638 | text and escapes are replaced by the snippets of their source span; a generated node is never reached, which the copier asserts |
| HighlightCopy.Copier.VisitAll | src/main/cpp/directive_processing.cpp:683-685 | visits each node in turn with the same copier |
| HighlightCopy.CopyHighlighted | src/main/cpp/directive_processing.cpp:766-791 | `copy_highlighted` is a fresh copier from index 0 over the content, given tables of agreeing sizes |
| HighlightCopy.BuildSpanTable | src/main/cpp/directive_processing.cpp:820-826 | the table maps each plaintext byte to the last span covering it, or null; a span reaching past the end is reported as the out-of-bounds write it is |
| HighlightCopy.TablesFor | src/main/cpp/directive_processing.cpp:805-826 | the tables built from the projection and the spans have agreeing sizes, which `copy_highlighted` asserts |
| HighlightCopy.ToHtmlSyntaxHighlighted | src/main/cpp/directive_processing.cpp:795-833 | with the asserted non-paragraph mode: a highlighter failure is returned with nothing written; otherwise the projection is highlighted, the span table built, the content copied and rendered in the mode |
| HighlightCopy.SyntaxHighlightedHtml | src/main/cpp/directive_processing.cpp:795-833 | a highlighter failure is returned with nothing written and no failed assertion; undefined behaviour comes only with an ok result, and then either nothing is written (spans outside the text) or the mode is trimmed |
| HighlightCopy.SnippetsBounded | src/main/cpp/directive_processing.cpp:719-721 | every snippet lies within the plaintext |
| HighlightCopy.TextInSkips | src/main/cpp/directive_processing.cpp:705-708 | a byte mapped before the span is skipped |
| HighlightCopy.TextInStops | src/main/cpp/directive_processing.cpp:704-711 | the loop stops at the end or at a byte mapped past the span, appending nothing more |
| HighlightCopy.TextInCuts | src/main/cpp/directive_processing.cpp:712-721 | a byte inside the span starts a snippet up to the end of its run, and the loop goes on after it |
| HighlightCopy.CopySequenceWithin | src/main/cpp/directive_processing.cpp:766-791 | the copy of content within the source is within the source |
| HighlightCopy.CopyContentWithin | src/main/cpp/directive_processing.cpp:625-698 | so is the copy of one node |
| HighlightCopy.GeneratedNodesWithin | src/main/cpp/directive_processing.cpp:746-747 | the snippet nodes are all generated nodes |
| HighlightCopy.RunEndIsRun | src/main/cpp/directive_processing.cpp:714-718 | every byte of a run is mapped before the span's end and under the run's span |
| HighlightCopy.SnippetsAreRuns | src/main/cpp/directive_processing.cpp:701-723 | every snippet is such a run, in increasing order |
| HighlightCopy.RunsCons | src/main/cpp/directive_processing.cpp:719-722 | a run followed by runs after it is a list of runs |
| HighlightCopy.FirstFrom | src/main/cpp/directive_processing.cpp:704-711 | the first byte from `i` mapped at or past `x` lies between `i` and the end |
| HighlightCopy.SnippetsTile | src/main/cpp/directive_processing.cpp:701-723 | for a sorted mapping, the snippets' texts make up exactly the plaintext mapped into the source span, and the loop stops at the first byte past it |
| HighlightCopy.TileStep | src/main/cpp/directive_processing.cpp:712-721 | one cut keeps the tiling |
| HighlightCopy.SnippetsMaximal | src/main/cpp/directive_processing.cpp:714-718 | consecutive snippets have different spans, so runs are maximal |
| HighlightCopy.FirstFromSkips | src/main/cpp/directive_processing.cpp:705-708 | skipping bytes mapped before `x` does not move the first byte at or past it |
| HighlightCopy.RunStopsAt | src/main/cpp/directive_processing.cpp:714-718 | the next snippet after a run starts where the run ends, under another span |
| HighlightCopy.RunEndStops | src/main/cpp/directive_processing.cpp:714-718 | a run ends at the end, at a byte mapped past the span, or at a byte under another span |
| HighlightCopy.SnippetWritesItsText | src/main/cpp/directive_processing.cpp:725-748 | a snippet writes exactly its text, wrapped in `<h->` when highlighted and bare otherwise |
| HighlightCopy.SpanAtIsAnnotation | src/main/cpp/directive_processing.cpp:820-826 | the span the table records for a byte is the last span covering it, the same annotation the annotated string reports |
| HighlightCopy.FailureWritesNothing | src/main/cpp/directive_processing.cpp:814-818 | when the highlighter fails, its error is returned and nothing is written |
| ArgumentAttributes.ArgumentToAttribute | src/main/cpp/directive_processing.cpp:884-910 | returns whether an attribute was written: a named argument the filter accepts by name becomes that attribute with its plaintext value, a positional one the filter accepts by value becomes an empty attribute named by its plaintext, and nothing else is written |
| ArgumentAttributes.ArgumentAttribute | src/main/cpp/directive_processing.cpp:884-910 | an attribute written is an attribute event of the requested style, with a value exactly when the argument is named |
| ArgumentAttributes.ArgumentsToAttributes | src/main/cpp/directive_processing.cpp:871-882 | writes the attribute of each argument in turn, in order |
| ArgumentAttributes.ArgumentsAttributes | src/main/cpp/directive_processing.cpp:871-882 | there are never more attributes than arguments |
| ArgumentAttributes.ArgumentToPlaintext | src/main/cpp/directive_processing.cpp:912-928 | for a negative matched index returns false and appends nothing; otherwise appends the matched argument's plaintext and returns true |
| ArgumentAttributes.AttributeIffAccepted | src/main/cpp/directive_processing.cpp:897-909 | an attribute is written exactly when the filter, if any, accepts the key (the name of a named argument, the value of a positional one); it has that name and the requested style, and a value exactly when the argument is named; a rejected named argument is not retried as an empty attribute |
| ArgumentAttributes.AttributesStep | src/main/cpp/directive_processing.cpp:879-881 | one more argument adds its attribute, if any, at the end |
| ArgumentAttributes.UnfilteredWritesEvery | src/main/cpp/directive_processing.cpp:879-881 | without a filter every argument becomes exactly one attribute, in order |
| ArgumentAttributes.FilteredWritesAccepted | src/main/cpp/directive_processing.cpp:879-881 | with any filter, never more attributes than arguments, each of the requested style and with a key the filter accepts |

## Left out

- Parsing: these operations of parse.cpp are modelled only as functions over values (`ParseSpec.*`, with `ParseTree` building the instruction stream): `match_content_sequence`, the dispatch in `try_match_content`, `try_match_directive`, `try_match_argument_list`, `try_match_argument`, `try_match_trimmed_argument_value`, `try_match_block`, `operator()` and `parse`. The model therefore does not capture how the parser patches `m_out[i].n` in place once a sequence's length is known, nor how an abandoned attempt truncates `m_out`. Imperative versions of these did not verify within the resource limit.
- Parsing.ScopedAttempt: the `Scoped_Attempt` restore-on-abort contract is proved for the class on its own. None of the modelled parser methods uses it; the saved-copy restore in `TryMatchArgumentName` is written inline instead.
- MarkupHighlight.Highlighter.Emit: requires `n != 0`, the `MMML_DEBUG_ASSERT` at highlight/mmml.cpp:41. A release build without debug assertions would emit zero-length spans; the model does not cover that build.
- MarkupHighlight.Highlighter.ProcessOutside: inherits the `n != 0` requirement of `Emit` (highlight/mmml.cpp:41) for the spans it emits.
- MarkupHighlight.Highlighter.Process: inherits the `n != 0` requirement of `Emit` (highlight/mmml.cpp:41).
- MarkupHighlight.HighlightMarkup: inherits the `n != 0` requirement of `Emit` (highlight/mmml.cpp:41).
- Printing.DoPrintAffectedLine: the assertions at print.cpp:179 (`length > 0`) and 184 (a span of more than one byte holds no `\n`) are `requires`, not crash outcomes, and so is `begin <= |source|`, which `find_line` asserts at print.cpp:256 and `substr` at 183 needs.
- AnnotatedStrings.AnnotatedString.AppendTyped: requires `s != []`, the assertion at util/annotated_string.hpp:122. The crash on empty text is modelled for the printer's use of it: `Printing.AppendPieces` reports it as a crash, while `Printing.AppendPiece` and `Printing.AppendNext` require the piece they append typed not to be empty.
- Directives.DO_NOTHING: `Builtin_Directive_Set` default-constructs a `Do_Nothing_Behavior` (directives.cpp:644), whose category and display the code does not give. The model picks `meta` with no display, the pair directives.hpp describes for comments.
- Services.Apply: the foreign syntax highlighter is a parameter. `Apply` defines it to keep its contract (spans are only appended; nothing is appended on failure), so that contract is assumed, not proved.
- HtmlWriters.HtmlWriter: `HTML_Writer` (util/html_writer.hpp) is not part of this model. The writer is modelled as the log of calls made on it; HTML escaping and serialisation are not modelled.
- Directives.Context: the diagnostics that `try_lookup_error` and `context.try_error` emit are not modelled; the logger is modelled apart, in `Services.Logger`.
- ArgumentAttributes.ArgumentToPlaintext: `Argument_Matcher` is not part of this model. The method takes the index the matcher returned for the parameter, and its requires `index < |d.arguments|` reflects the unchecked indexing. `get_variable_name` (directives.cpp:527-544) is not modelled.
- HighlightCopy.Copier: µlight's short highlight names and HTML serialisation are the parameters `shortName` and `serialize`. A `SpanRef` (id, kind) stands for the pointer stored in the span table.
- HighlightCopy.BuildSpanTable: a span reaching past the end of the plaintext writes out of range in the source. The model reports it as `ok == false` and says nothing about the table.
- Results.ResultObject.MoveAssign: the non-void move assignment of `Result` (result.hpp:144-163) falls off its end without `return *this;`, which is undefined behaviour in C++ whenever the reference is used. The model's method has no result and models only the state change, which is what the operator evidently intends.
- HighlightCopy.SnippetsTile: proved for a sorted byte-to-source mapping, a hypothesis of the lemma. That the projection's mapping is sorted would need the nodes of an AST to lie in source order, and the construction of the AST is not part of this model, so it is not proved.
- HtmlGeneration.TrimmedAfterTrimDoesNotCrash: requires that text nodes and generated strings are not empty. The AST is built from the parser's instructions by code that is not part of this model, so that parsed documents meet this is not proved.
- HtmlRendering.RenderingDoesNotCrash: the same hypothesis as `TrimmedAfterTrimDoesNotCrash`.
- HtmlParagraphs.BehaviorsWriteNoParagraphs: the balance lemmas assume that behaviours write no `p` tags of their own; behaviours are parameters of the model.
- Services.Logger.constructor: requires `minSeverity <= NONE`, the assertion of `set_min_severity` (services.hpp:194) through which the C++ constructor goes. A constructor whose assertion fails yields no logger, so the model's constructor leaves that input out; the failure itself is modelled by `Services.Logger.SetMinSeverity`, which reports it as `crashed`.
- HtmlGeneration.LiteralHtml: requires that no node is generated, the `MMML_ASSERT_UNREACHABLE` at directive_processing.cpp:594.
- HtmlGeneration.ToHtmlLiterally: the same requirement as `LiteralHtml` (directive_processing.cpp:594).
- HighlightMapping.Reachable: the projection for highlighting asserts that it meets no generated node (directive_processing.cpp:195). The members that use it require this.
- HighlightMapping.MappedIsSideEffectFreePlaintext: proved without an error behaviour. With one, an unresolved directive is projected through the error behaviour's plaintext.
- HighlightCopy.ToHtmlSyntaxHighlighted: requires a mode without paragraphs, which the source asserts.
- ParseUtils.MatchDigits: requires `IsValidBase(base)`, the assertion at parse_utils.cpp:76. Every caller passes 2, 8, 10 or 16.
- Ast.MakeDirective: requires `nameLength != 0`, the assertion at parse.cpp:43.
- Ast.MakeText: requires a non-empty span, the assertion at parse.cpp:49.
- Ast.MakeEscaped: requires a span of length 2, the assertion at parse.cpp:55.
- Parsing.Parser.TrimTrailingWhitespace: requires `out != []`, the assertion at parse.cpp:596. Its one caller, `try_match_trimmed_argument_value`, runs inside `try_match_argument`, which has already written `push_argument`.
- Ast.Substr: requires `pos <= |s|`, where `u8string_view::substr` throws `out_of_range`. So do `MarkupHighlight.Substr` and `Printing.Substr`; the highlighter checks the index and models the throw itself (`MarkupHighlight.OutsideStep`).
- Ast.SpanSource: requires the span to lie within the source, for the same `substr`.
- Ast.DirectiveName: requires the name's start to lie within the source, for the same `substr`.
- Ast.ArgumentNameText: requires the name span to lie within the source, for the same `substr`.
- Ast.ContentSource: requires a user-written node's span to lie within the source, for the same `substr`.
- Directives.ErrorGenerateHtml: requires `SourcesWithin(d.content, source)`, for the `substr` of each piece's source.
- ParseProperties.ParseValid: proved for valid UTF-8 only, like the other `*Total` lemmas. On invalid UTF-8 the parser fails the assertion in `peek_code_point`. `Parsing.Parser.ExpectCodePoint` models that failure as a crash, but no lemma states which documents reach it.
- Printing.IndentingPrinter.PrintIndent: `options.indent_width * indent_level` at print.cpp:506 is an `int` product, which overflows, with undefined behaviour, before the cast to `size_t` when it exceeds `INT_MAX`. The model's integers are unbounded, so it does not capture that overflow.
- Memory resources (`std::pmr`, transient memory) are not modelled; sequences are unbounded.
- document_generation.cpp, the tty helpers and stream I/O are not part of this model.
- The following printers of print.cpp are not modelled. They only format already-modelled data onto a stream:
  - `print_code_string`, `print_code_string_stdout` and `print_ast`;
  - the bodies of the `AST_Printer` visits (only the indentation and cut-off rules are modelled);
  - `print_internal_error_notice`, `print_assertion_error`, `print_io_error` and `print_location_of_file`;
  - `print_source_position` and `print_diagnostic_prefix`/`line`;
  - `to_prose` and `file_name_to_utf8`.
- Unicode.CodePointIterator: `Code_Point_View`'s end sentinel and iterator comparisons (util/unicode.hpp:190-251) are not modelled apart; the iterator is a position into the bytes.
- `fuzzy_lookup_name` and `get_error_behavior` are declared in directives.hpp but not defined in the files shown, so they are not modelled.
- The helpers at directives.cpp:36-187 are not modelled: the older `to_plaintext`, `to_plaintext_mapped_for_highlighting` and `contents_to_html`. directive_processing.cpp supersedes them, and that version is modelled.
- Directives.Context: a behaviour's `generate_plaintext` and `generate_html` are the context's parameters `generatePlaintext` and `generateHtml`. Only `Error_Behavior::generate_html` and the variable behaviours are modelled in full, and the pass-through behaviours through their tag names (`PassthroughName`, `FixedName`). The bodies of `Do_Nothing_Behavior`, `Pure_HTML_Behavior`, `Passthrough_Behavior::generate_html`, `HTML_Literal_Behavior` and `Parametric_Behavior` are not modelled.
- The preprocessing pass is not modelled: `preprocess_content`, `preprocess_contents`, `preprocess_arguments` and `preprocess_matched_arguments` (directives.cpp:189-211, 457-469), and each behaviour's `preprocess`. Neither is the argument matching of `Variable_Behavior` (directives.cpp:470-544).
- The `arguments_to_attributes` of directives.cpp:213-229 is not modelled. It is an older copy; the one in directive_processing.cpp is modelled (`ArgumentAttributes.ArgumentsToAttributes`).
- Directives.Context.SetVariable: `Modify_Variable_Behavior::process` stores the plaintext of the directive's content. The model takes that plaintext as the parameter `value`.
- Results: the lifetime machinery of result.hpp (reference wrappers, moves, `std::variant` storage) is not modelled; a `Result` is a value.
- Diagnostics: the header defining `Severity` is not part of this model; severity is the diagnostic level of diagnostic.hpp.
- Services.NoSupportMatch: `match_supported_language` returns a default-constructed `Distant` (util/typo.hpp is not part of this model), modelled as no match.
- Services.Logger: only the `Ignorant_Logger` sink is modelled among the derived loggers.
- Chars: util/chars.hpp and util/strings.hpp are not part of this model, so their definitions are reconstructed:
  - whitespace is tab, line feed, form feed, carriage return and space;
  - blank adds vertical tab;
  - the escapeable characters are `\ [ ] { } ,`;
  - directive and argument names are ASCII letters, digits, `-` and `_`;
  - the HTML name predicates (`IsHtmlTagName`, `IsHtmlAttributeName`, `IsHtmlUnquotedAttributeValue`) follow the expectations of src/test/cpp/test_chars_strings.cpp:246-281 and the HTML standard's syntax for tag names, attribute names and unquoted attribute values;
  - `ToDecimal` and `ToCharacters` stand for `to_characters`, the decimal digits with a `-` before a negative number;
  - `ParseUtils.FindBlankLineSequence` stands for `find_blank_line_sequence`, which directive_processing.cpp:467-474 calls; it is reconstructed from its tests at src/test/cpp/test_chars_strings.cpp:282-291.
- The model follows the definitions in src/main/cpp/directive_processing.cpp where the headers declare other signatures: include/cowel/directive_processing.hpp declares `to_html_syntax_highlighted` with prefix and suffix parameters that the definition modelled does not have, and include/mmml/directive_processing.hpp declares `to_html` without the `paragraphs_state` parameter of the definition.

## Findings

| source | as written | input that shows it | evidently intended | confidence | as-written member | corrected member |
|---|---|---|---|---|---|---|
| src/main/cpp/parse.cpp:490 | the escape matcher requires a character after the escaped one (strict `<`) | `\{` as the whole document: `try_match_content` fails and the assertion at parse.cpp:344 fails | an escape as the last two bytes is matched | not executed | ParseFindings.EscapeAtEndAsWritten | ParseFindings.EscapeAtEndCorrected |
| src/main/cpp/parse.cpp:314 | the text loop stops at `\` followed by any directive name character, digits included | `\1`: text stops, but the name matcher refuses a leading digit, so nothing is matched and parse.cpp:344 fails | text stops only where a directive can start | not executed | ParseFindings.BackslashDigitAsWritten | ParseFindings.BackslashDigitCorrected |
| src/main/cpp/parse.cpp:625-629 | `{` is consumed before the block attempt starts | `\b{x`: the block fails, and the `{` is left consumed with no instruction covering it | an unterminated block leaves `{` to be matched as text | not executed | ParseFindings.UnterminatedBlockAsWritten | ParseFindings.UnterminatedBlockCorrected |
| src/main/cpp/parse.cpp:659-675 | `ast_instruction_type_name`'s switch has no case for `argument_equal` and `argument_comma` | either instruction type reaches the unreachable default | every instruction type has its own name | not executed | Instructions.TypeNameAsWrittenMisses | Instructions.TypeNameInjective |
| src/main/cpp/print.cpp:254-271 | `find_line` steps back one byte from a newline with `size_t` wrap-around | `"\nab"` at index 0 yields the line `ab` | the empty first line | not executed | Printing.FindLineAtLeadingNewline | Printing.FindLineAgrees |
| src/main/cpp/print.cpp:198 | `print_affected_line` appends the cited line typed even when it is empty | `"a\n\nb"` at position 2: the typed append asserts non-empty text (util/annotated_string.hpp:122) | an empty cited line is not appended typed | not executed | Printing.EmptyCitedLine | Printing.CitedLineSpansNonEmpty |
| src/main/cpp/highlight/mmml.cpp:75-80 | after `\comment` with no block, comment mode ends without advancing the index | `\comment\b` | the highlighter moves on past the directive | not executed | MarkupHighlight.BlocklessCommentAsWritten | MarkupHighlight.BlocklessCommentCorrected |
| src/main/cpp/directives.cpp:344-350 | the pass-through name drops one leading `-` from the directive name, then removes the prefix, so further leading dashes stay in the tag name | `\--b` gets the tag name `-b` | the HTML tag name is the directive name without its leading dashes | not executed | Directives.PassthroughNameAsWrittenKeepsDashInTag | Directives.PassthroughNameIsMatchedName |
| src/main/cpp/directive_processing.cpp:433-435 | in the paragraph splitter, the error behaviour, when the context has one, is applied to every directive, resolved or not | `\b{x}` where `b` resolves and an error behaviour is set: both write | only the resolved behaviour writes | not executed | HtmlParagraphs.ErrorAfterResolvedAsWritten | HtmlParagraphs.DirectiveParagraphsIsDirect |
| src/main/cpp/directive_processing.cpp:453-455 | the `trim_right` branch of the text visitor calls `trim_ascii_blank_left` | in `paragraphs_trimmed` mode, the text `a ` as the last piece is written as `a ` | `trim_right` trims blanks on the right | not executed | HtmlParagraphs.TrimRightAsWrittenKeepsBlank | HtmlParagraphs.TrimmedTextTrims |
