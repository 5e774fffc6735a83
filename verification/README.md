# SO2JS: a verified model of its lexer, analyzer and codecs

SO2JS is a JavaScript engine. This project models five of its parts in Dafny and proves what they are for.

**The static analyzer** (`Ast`, `PrivateNames`, `Analysis`, `Analyzer`, `EarlyErrors`, `LabelIds`, `Annotations`,
`FreshTrees`, `Placement`, `Filling`).
`Analyzer` is the visitor with its counters, stacks, label map and single flag, as a class. `Analysis` is a
recursive reading of the tree with an immutable environment. Each visit is proved to restore every counter and
stack and to report and fill in exactly what the reading says. About the reading it is then proved that label,
break and continue errors are those of section 8.3 of ECMA-262 (`EarlyErrors`), that ids identify labelled
statements (`LabelIds`), and that marks and static bits are right in the whole returned tree (`Annotations`);
`FreshTrees` says what this means for a tree as the parser makes it. All other errors are proved to be reported
exactly when a rule about the tree alone is broken (`Placement`), and analysis to change nothing but what it fills
in (`Filling`).

**The lexer** (`Characters`, `Punctuators`, `Numerals`, `Literals`, `Words`, `Tokens`, `Telling`, `Lexer`, and
`Writing`, `Escapes`, `Quoting`, `Templates`). `Lexer` is the cursor over bytes, as a class. The first modules say, as
grammars and recursive functions of the source, what stands between tokens and how each literal is read. Each lexing
method is proved to compute that, with its errors and panics. The last four say, apart from how they are read, how
numbers, escapes, strings and templates are written, and prove that exactly what is so written is read, as what it
stands for. A telling of a source is its tokens and the gaps before them, up to the end; `Telling` proves
that there is at most one, and the lexer is proved to find it exactly when there is one.

**Text codecs** (`Wtf8`, `Wtf8Strings`, `Utf16`, `StringIterators`, `LexerStream`), **conversion to 16-bit floats**
(`Float16`), and **varints and line numbers** (`Varint`, `LineIndex`, with `Bits` for the bit identities).

`dafny verify dfyconfig.toml` checks everything.

## Reading the model

- Bytes and words are bounded integers. Masks and shifts are written as remainder and division, and joining
  disjoint bits as addition; `Bits` proves the identities behind this.
- A panic that the code can reach is an outcome of its own: decoding at the end of the source (an unterminated
  template, a backslash or `#` as the last byte), pushing a code point above 0x10FFFF, an unterminated varint.
  Arithmetic is that of a build that checks shifts (a varint of more than ten bytes panics).
- A node of the syntax tree stands for all nodes that are visited in the same way. An `Op` is an expression that
  makes its own check and then visits its operands in order; a `Nest` is a statement that makes its own check and
  visits expressions and then statements; an `Outer` is whatever has its own assignment context. A do-while is visited like a
  while, its test first; a function body is one `Nest`; an arrow function with an expression body has a `Nest` that holds it.
- Scopes are opaque: entering and leaving them is modelled, resolving names in them is not.
- ID_Start and ID_Continue are parameters of the lexer. That a source has at most one telling, and that the lexer
  succeeds exactly if there is one, is said of an ID_Start without white space and line separators (`Telling.IsSane`),
  as it is in Unicode.
- The value of a string or template counts by its code points: on overlong source the fast path keeps the bytes.

## Where the code differs from its evident intent

The code is modelled as it is, and what is true of it is stated.

- A labelled switch is a continue target. The standard does not allow this. `EarlyErrors.StandardIsStricter` says
  that this and the next point are the only differences, and `EarlyErrors.ContinueToSwitchIsAccepted` gives programs.
- The options of `import()` are never visited. `EarlyErrors.OnlyOptionsAreMissed`, `LabelIds.LabelIdsAreRight`,
  `Annotations.AnnotationsAreRight` and `Annotations.SuperIsReported` give the exact conditions on the options under
  which the results hold for the whole program, and `FreshTrees` what they are for a tree as the parser makes it;
  `EarlyErrors.BreakInOptionsIsAccepted` and `Annotations.OptionsAreMissed` give programs for which they do not.
- The label map is not always restored when a duplicate label has been reported; `EarlyErrors.LabelsRestoredIff`
  gives the exact condition, and `EarlyErrors.LabelsAreNotAlwaysRestored` a statement.
- `next_back` on code points takes a unit from the front; `StringIterators.NextBackAllCorrect` says for exactly which
  strings the result is still right.
- The code point stream repeats a step backwards, ignores the argument of `peek_n` and starts with a code unit.
  `LexerStream.BackwardsIff`, `LexerStream.PeekIff` and `LexerStream.ReadForwardsIff` say for every state when the
  result is still the promised one, and `LexerStream.Examples` gives inputs.
- `\u{...}` with more than six digits is malformed, where the standard allows leading zeros; `Escapes.LongBraces`
  says that nothing else is refused.
- The fast path for words takes an overlong dollar sign for a part of a word and the slow path does not
  (`Words.OverlongDollar`); `Words.NamesAreLongest` says exactly when this matters.
- The decoder accepts overlong forms and values above 0x10FFFF; `Wtf8.EncodeDecode` and
  `Wtf8.CanonicalIffReencodes` say exactly what re-encodes.

## Model

| member | source | states |
|---|---|---|
| `Analyzer.Analyzer.VisitProgram` | so2js/parser/analyze.rs:332-349 | a whole program: all counters and stacks are as on entry, and errors, annotations and label map are those of the recursive reading `WalkProgram` |
| `Analyzer.Analyzer.VisitStmt` | so2js/parser/analyze.rs:402-575 | every statement restores all counters and stacks, and reports and annotates what `WalkStmt` says in the environment that they stand for |
| `Analyzer.Analyzer.VisitExpr` | so2js/parser/analyze.rs:621-862 | every expression does the same, and raises the single flag exactly if an assignment occurs in it outside nested functions and classes |
| `Analyzer.Analyzer.VisitOuter` | so2js/parser/analyze.rs:395-400 | an expression with its own context is marked by what is in it, whatever the flag was before |
| `Analyzer.Analyzer.VisitExpressionStatement` | so2js/parser/analyze.rs:402-413 | an assignment statement is judged on its two sides only, any other one on the whole |
| `Analyzer.Analyzer.VisitOperator` | so2js/parser/analyze.rs:715-791 | the checks of an operator made on the stacks agree with the checks made on the function around it; a super member is told its static bit |
| `Analyzer.Analyzer.EnclosingNonArrowFunction` | so2js/parser/analyze.rs:235-240 | the search from the top of the stack finds the innermost function that is not an arrow function |
| `Analyzer.Analyzer.VisitPrivateNameUse` | so2js/parser/analyze.rs:1652-1680 | an error exactly if there is no class around, or none around declares the name |
| `Analyzer.Analyzer.SaveState` | so2js/parser/analyze.rs:252-269 | labels, label depth and loop depths are saved and emptied; everything else stays |
| `Analyzer.Analyzer.RestoreState` | so2js/parser/analyze.rs:271-278 | exactly the saved parts come back |
| `Analyzer.Analyzer.VisitFunctionCommon` | so2js/parser/analyze.rs:1061-1254 | a function, arrow function or method leaves stacks, depths, label map and flag as they were, also strict mode, and reads as `WalkFunc` in a fresh label and loop context |
| `Analyzer.InFunctionIsInside` | so2js/parser/analyze.rs:1070-1112 | pushing a function keeps the super and return stacks in step with the function stack, and the counters then stand for the environment inside the function |
| `Analyzer.Analyzer.VisitClass` | so2js/parser/analyze.rs:873-965 | a class is strict throughout, cuts labels and loops, shows its private names to its elements, and leaves everything as it was |
| `Analyzer.Analyzer.VisitMethod` | so2js/parser/analyze.rs:1402-1449 | a method is derived exactly if it is the constructor of a class with heritage; keys are read outside it |
| `Analyzer.Analyzer.VisitFieldValue` | so2js/parser/analyze.rs:1480-1513 | a field initializer reads like a method of its own without "arguments", and stacks are restored |
| `Analyzer.Analyzer.VisitNest` | so2js/parser/analyze.rs:415-439 | loops and switches deepen and restore the counters; the counters are positive exactly inside |
| `Analyzer.Analyzer.VisitNestParts` | so2js/parser/ast_visitor.rs:556-670 | expressions, then sub-statements, in the scope of the statement, which is left again |
| `Analyzer.Analyzer.VisitJump` | so2js/parser/analyze.rs:490-504 | a break or continue gets the id of the label it names, or is reported as misplaced or unresolved |
| `Analyzer.Analyzer.VisitLabeled` | so2js/parser/analyze.rs:445-451 | all labels of a statement get one id, are visible inside it and removed after it |
| `Analyzer.Analyzer.PushAllLabels` | so2js/parser/analyze.rs:1540-1579 | the loop down the labels defines the new ones, reports the repeated ones and marks continue targets |
| `Analyzer.Analyzer.PopAllLabels` | so2js/parser/analyze.rs:1581-1590 | exactly the labels that were not visible before are removed |
| `Analyzer.UnstackedIsLeft` | so2js/parser/analyze.rs:1540-1590 | skipping duplicates on the stack of labels removes each new label and keeps each old one |
| `EarlyErrors.LabelErrorsAreReported` | so2js/parser/analyze.rs:445-504 | a program has no label, break or continue error exactly if sections 8.3.1 to 8.3.3, 14.8.1 and 14.9.1 of ECMA-262, with the code's continue targets, accept its script and each function body in it outside options of imports |
| `EarlyErrors.OnlyOptionsAreMissed` | so2js/parser/ast_visitor.rs:882-887 | all function bodies obey these rules exactly if no error is reported and those in options of imports obey them |
| `EarlyErrors.BreakInOptionsIsAccepted` | so2js/parser/ast_visitor.rs:882-887 | a family of programs with a misplaced break in options of an import, which is not reported |
| `EarlyErrors.StandardIsStricter` | so2js/parser/analyze.rs:1562-1570 | the standard accepts a program exactly if the code reports no label error, no continue names the label of an enclosing switch, and function bodies in options of imports obey the rules |
| `EarlyErrors.ContinueToSwitchIsAccepted` | so2js/parser/analyze.rs:1562-1570 | a family of programs that the code accepts and the standard rejects |
| `EarlyErrors.StmtReport` | so2js/parser/analyze.rs:1540-1650 | the same equivalence for a statement in any context and any label map; without a duplicate label the map is restored exactly |
| `EarlyErrors.LabelTrace` | so2js/parser/analyze.rs:1572-1590 | a statement never changes which labels are visible or their ids; it makes an outer label a continue target exactly if it labels a continue target with the same name |
| `EarlyErrors.LabelsRestoredIff` | so2js/parser/analyze.rs:1572-1590 | the label map is restored exactly, if and only if no continue target inside repeats the label of an outer statement that is none |
| `EarlyErrors.LabelsAreNotAlwaysRestored` | so2js/parser/analyze.rs:1562-1590 | a labelled loop that does not restore the label map |
| `LabelIds.LabelIdsAreRight` | so2js/parser/analyze.rs:1540-1650 | in a program without label errors every break and continue carries the number, counted from outside in its function, of the labelled statement that it names, and a continue names a continue target, if and only if this held before in options of imports, which stay as they are |
| `LabelIds.SameIdSameStatement` | so2js/parser/analyze.rs:1540-1579 | two visible labels have equal ids exactly if they label the same statement |
| `LabelIds.EnteredRepresents` | so2js/parser/analyze.rs:1540-1579 | entering a labelled statement keeps ids distinct and within 1 to the label depth |
| `FreshTrees.ParsedLabelIdsAreRight` | so2js/parser/ast_visitor.rs:882-887 | in a tree as the parser makes it, with all ids 0 and no label errors, all ids come out right if and only if there is no label and no labelled jump in options of imports |
| `Annotations.AnnotationsAreRight` | so2js/parser/analyze.rs:395-413 | in the tree of every analyzed program each mark says whether there is an assignment and each super member has the static bit of the method around it, if and only if in no context the only assignment is in options of an import and the annotations in options were right before |
| `FreshTrees.ParsedAnnotationsAreRight` | so2js/parser/ast_visitor.rs:882-887 | in a tree as the parser makes it, with nothing marked, all marks and static bits come out right if and only if, in options of imports, no context of a nested function or class has an assignment and no super member goes through a static home object, and every visited context with an assignment in options has one outside them too |
| `Annotations.SuperIsReported` | so2js/parser/analyze.rs:757-773 | super outside a method is reported exactly if it occurs outside options of imports; the whole program is legal exactly if nothing is reported and the options are legal |
| `Annotations.OptionsAreMissed` | so2js/parser/ast_visitor.rs:882-887 | an assignment and a super member in options of an import that are not marked and not reported |
| `Annotations.HomeInside` | so2js/parser/analyze.rs:1082-1096 | the top of the super stack is the innermost method seen through arrow functions |
| `PrivateNames.CollectPrivateNames` | so2js/parser/analyze.rs:1256-1400 | the two loops collect names, errors and pair marks as the recursive definitions do |
| `PrivateNames.DuplicatesAreReported` | so2js/parser/analyze.rs:1275-1370 | a duplicate is reported exactly if some name is declared twice other than as one getter and one setter of equal staticness (section 15.7.1 of ECMA-262) |
| `PrivateNames.PairStartsAreMarked` | so2js/parser/analyze.rs:1372-1400 | in a class without duplicates exactly the accessors whose partner follows are marked |
| `Placement.ErrorsAreReported` | so2js/parser/analyze.rs:469-862 | each of the other errors is reported if and only if its rule, stated on the syntax tree alone, is broken outside options of imports: super() outside a derived constructor and super members outside a method, seen through arrow functions; new.target outside a function; return outside a function body or in a static block; with, and eval or arguments as a binding or name, in strict code, which classes always are; await and yield in parameters, await in a static block; arguments in a class initializer; private names that no class around declares, are declared twice or are #constructor |
| `Placement.OnlyOptionsBreakUnreported` | so2js/parser/ast_visitor.rs:882-887 | these rules hold everywhere exactly if nothing is reported and they hold in options of imports |
| `Filling.AnalysisFillsIn` | so2js/parser/analyze.rs:332-349 | the returned tree is the given one node by node and in order, but for ids, marks and static bits; functions other than arrow functions need an arguments object exactly if their scope binds one; accessors are marked exactly if they are the first of a pair |
| `Lexer.Lexer.AdvanceN` | so2js/parser/lexer.rs:88-96 | the cursor moves by n or to the end, and the current byte is the one at the cursor |
| `Lexer.Lexer.LexUtf8CodePoint` | so2js/parser/lexer.rs:1522-1535 | decodes at the cursor and moves over what was decoded, also when it is malformed; panics at the end of the source |
| `Lexer.Lexer.LexAsciiOrUnicodeCharacter` | so2js/parser/lexer.rs:1510-1519 | reads the character at the cursor |
| `Lexer.Lexer.SkipLineComment` | so2js/parser/lexer.rs:578-600 | skips text without a newline and the newline after it, which raises the flag, or to the end; fails only on a malformed character before that |
| `Lexer.Lexer.SkipBlockComment` | so2js/parser/lexer.rs:602-644 | skips text without "*/" and the first "*/"; the flag is raised exactly by a newline in the text; fails only if there is no end or a malformed character before it |
| `Lexer.Lexer.SkipGap` | so2js/parser/lexer.rs:181-195 | what is skipped before a token is a gap, and the newline flag is the one of the gap; it fails only on a malformed character, an unterminated comment or a character that starts no token |
| `Characters.GapMeaning` | so2js/parser/lexer.rs:181-195 | a gap consists of white space, line ends and comments by the grammar of sections 12.2 to 12.5 of ECMA-262; its flag is set exactly if LF, CR, U+2028 or U+2029 occurs in it, also inside comments |
| `Characters.SpacesAndNewlines` | so2js/common/unicode.rs:117-168 | white space and line ends are exactly those of sections 12.2 and 12.3 of ECMA-262 |
| `Lexer.Lexer.Next` | so2js/parser/lexer.rs:181-576 | what stands before the token is a gap, and the newline flag is the one of the gap; the token is what stands behind it (`IsToken`); an error or panic is the one of the token, comment or character at that place, which is none of white space or a complete comment |
| `Lexer.Lexer.LexAll` | so2js/parser/lexer.rs:181-576 | repeated calls end within one more than the number of bytes; on success all tokens and gaps are what stands there and are together the source; otherwise the source cannot be read on behind the tokens told and the gap after them, for the reason given (`IsStuck`) |
| `Lexer.Lexer.LexSource` | so2js/parser/lexer.rs:181-576 | lexing succeeds exactly on sources that have a telling: tokens and gaps from the start to the end of the source, each what stands at its place |
| `Telling.TellingIsUnique` | so2js/parser/lexer.rs:181-576 | a source has at most one telling |
| `Telling.StuckHasNoTelling` | so2js/parser/lexer.rs:181-576 | a source that cannot be read on somewhere has no telling |
| `Telling.StuckIsUnique` | so2js/parser/lexer.rs:181-576 | a source cannot be read on in at most one place, behind the same tokens and gaps, and for one reason: one error or panic |
| `Telling.Examples` | so2js/parser/lexer.rs:181-195 | a space alone has a telling; a space and an at sign cannot be read on behind the space |
| `Telling.GapIsUnique` | so2js/parser/lexer.rs:181-195 | there is one way to read a gap from a place to where no gap goes on |
| `Telling.TokenIsUnique` | so2js/parser/lexer.rs:196-576 | there is at most one token at a place |
| `Telling.NumbersStandApart` | so2js/parser/lexer.rs:895-928 | directly behind a number there is no word other than one that starts with an escape, and no number other than one that starts with a point |
| `Telling.TokenSucceeds` | so2js/parser/lexer.rs:181-576 | where a token stands no error or panic is justified |
| `Lexer.Lexer.LexPunctuator` | so2js/parser/lexer.rs:198-480 | moves over exactly the punctuator that it returns |
| `Punctuators.ChoiceIsLongest` | so2js/parser/lexer.rs:198-480 | the choice fits and no longer punctuator does, "?." before a digit being none; without a choice only a comment or a number could start |
| `Lexer.Lexer.LexNumber` | so2js/parser/lexer.rs:498-526 | a numeric literal by its first characters, with its error, or the error of what follows it: the start of a word, a digit or a malformed character |
| `Lexer.Lexer.LexLiteralWithBase` | so2js/parser/lexer.rs:759-837 | the exact integer that the digits spell, or the digits of a big integer, or the error that separators make |
| `Lexer.Lexer.ScanNumeral` | so2js/parser/lexer.rs:767-815 | the overflow flag is set exactly if the value is at least 2^64, otherwise the value is exact; separators only between two digits |
| `Numerals.AppendDigit` | so2js/parser/lexer.rs:783-795 | checked multiplication and addition keep the 64-bit value and the overflow flag true to the exact number |
| `Writing.DigitIsWritten` | so2js/common/unicode.rs:177-200 | a character has a digit value exactly if it stands at that place in 0123456789abcdef or 0123456789ABCDEF |
| `Writing.WritesIff` | so2js/parser/lexer.rs:767-815 | a run of digits has no error and this value exactly if it writes the number: the last digit is the remainder by the base, the digits before it, maybe with one separator between, write the quotient |
| `Writing.BasedIff` | so2js/parser/lexer.rs:759-849 | 0b, 0o and 0x, in either case, give the number n exactly if the longest run behind them writes n in base 2, 8 or 16 and no n follows |
| `Writing.BasedBigIntIff` | so2js/parser/lexer.rs:818-824 | with an n behind it such a literal is a big integer of its digits, which write a number |
| `Writing.WrittenIsRead` | so2js/parser/lexer.rs:759-849 | every number, written in any of these bases by repeated division, is read back wherever it stands |
| `Writing.LegacyOctalIff` | so2js/parser/lexer.rs:851-893 | a zero and digits give n exactly if they write n in base 8, no digit 8 or 9 follows and it is not strict mode |
| `Writing.DecimalIsRead` | so2js/parser/lexer.rs:690-756 | every decimal literal, from whole digits, fraction and exponent, is read to its end and without its separators |
| `Writing.DecimalIsWritten` | so2js/parser/lexer.rs:690-756 | whatever is read as a decimal number has these parts |
| `Writing.DecimalBigIntIff` | so2js/parser/lexer.rs:700-718 | decimal big integers are digits and an n, without a leading zero unless zero itself |
| `Writing.WithoutSeparatorsConcat` | so2js/parser/lexer.rs:742-752 | dropping separators drops nothing else |
| `Lexer.Lexer.LexLegacyOctalLiteral` | so2js/parser/lexer.rs:851-893 | the exact octal value; with a digit 8 or 9 the cursor is exactly where it was |
| `Lexer.Lexer.SkipDecimalDigits` | so2js/parser/lexer.rs:650-688 | the longest run of digits, with separators only between digits, and whether there was one |
| `Lexer.Lexer.LexDecimalLiteral` | so2js/parser/lexer.rs:690-756 | integer, fraction and exponent; the text without separators; big integers without leading zeros |
| `Lexer.Lexer.ErrorIfCannotFollowNumericLiteral` | so2js/parser/lexer.rs:895-928 | looks at the next character without moving; an error if and only if it starts a word, is a digit or is malformed |
| `Lexer.Lexer.LexStringLiteral` | so2js/parser/lexer.rs:930-1125 | value, end, error and panic are those of the recursive string value; the code points of the value are its code points |
| `Lexer.Lexer.LexStringSlow` | so2js/parser/lexer.rs:969-1125 | the copying loop continues the same string value behind any prefix |
| `Literals.CopyingIsExact` | so2js/parser/lexer.rs:969-1125 | on source whose characters are in range copying makes no difference to value, error or panic, and every code point of the value is at most 0x10FFFF |
| `Literals.CanonicalInRange` | so2js/common/unicode.rs:385-433 | canonical source is in range, wherever in it a character is read |
| `Literals.SliceIsCopy` | so2js/parser/lexer.rs:937-967 | the slice of the fast path is what copying would build exactly if it is canonical WTF-8 |
| `Literals.PlainString` | so2js/parser/lexer.rs:937-962 | characters that stand for themselves contribute just themselves to the string value |
| `Lexer.Lexer.LexStringEscape` | so2js/parser/lexer.rs:969-1108 | an escape adds its code points (section 12.9.4 of ECMA-262); legacy escapes are errors in strict mode; a backslash at the end panics |
| `Lexer.Lexer.LexUnicodeEscapeSequence` | so2js/parser/lexer.rs:1538-1591 | four digits, or one to six in braces within range; the cursor also moves over the malformed ones |
| `Escapes.EscapeIff` | so2js/parser/lexer.rs:969-1070 | an escape is read as these code points exactly if its text, by the grammar of section 12.9.4 of ECMA-262, stands for them: the single escapes by their table, hexadecimal digits by the number that they write, line continuations for nothing, others for themselves |
| `Escapes.LegacyIff` | so2js/parser/lexer.rs:1016-1066 | a legacy octal escape is the longest of at most three octal digits that write at most 0o377; 8 and 9 behind a backslash stand for themselves |
| `Escapes.LongBraces` | so2js/parser/lexer.rs:1538-1572 | an escape with more than six digits in braces is malformed, one with fewer is read, whatever number of digits the standard allows |
| `Quoting.StringEscapeIff` | so2js/parser/lexer.rs:969-1108 | in a string exactly the escapes of the grammar are read, and the legacy ones outside strict mode |
| `Quoting.StringEscapeFails` | so2js/parser/lexer.rs:969-1108 | which error or panic an escape gives, exactly, by its first character and the grammar |
| `Quoting.StringIff` | so2js/parser/lexer.rs:930-1125 | a text is read as a string literal with this value exactly if it is written in signs, which are plain characters and escapes, that together stand for the value |
| `Quoting.QuotedIsRead` | so2js/parser/lexer.rs:930-1125 | every sequence of code points is read back from its quotation, with each of them written plainly, by its name or in braces |
| `Lexer.Lexer.LexTemplateLiteral` | so2js/parser/lexer.rs:1239-1302 | value, raw text, end, error and panic of a template part are those of the recursive definition, with line ends of the raw text normalized |
| `Lexer.Lexer.LexTemplateSlow` | so2js/parser/lexer.rs:1304-1506 | the copying loop, with its CR flag and malformed escapes, and the pass over the raw text give the same |
| `Literals.NormalizeRaw` | so2js/parser/lexer.rs:1467-1490 | splitting at CR and dropping a leading LF is normalization of CR LF and CR to LF |
| `Literals.PlainTemplate` | so2js/parser/lexer.rs:1239-1302 | without a backslash the value of a template part is its raw text with line ends normalized |
| `Literals.PlainTemplateBytes` | so2js/parser/lexer.rs:1454-1490 | on canonical source without a backslash value and raw text agree in every byte, and both are the normalization of the code points |
| `Templates.MalformedIff` | so2js/parser/lexer.rs:1304-1450 | a template part has no value if and only if some backslash in it starts no escape of the grammar; octal escapes are none |
| `Templates.TemplateIsString` | so2js/parser/lexer.rs:1304-1506 | the value of a well-formed template part is that of a string literal in strict mode with its raw text, in which line ends and the quote are escaped; for source whose characters are in range |
| `Literals.NothingToNormalize` | so2js/parser/lexer.rs:1244-1302 | without a CR the fast path has nothing to normalize |
| `Literals.EscapeHasNoCr` | so2js/parser/lexer.rs:1316-1430 | an escape in a template contains a CR exactly if it is a line continuation, so the CR flag misses none |
| `Lexer.Lexer.LexIdentifierAscii` | so2js/parser/lexer.rs:1594-1647 | the fast path and its fall-back give the name that characters and escapes spell, all parts of a word, and end or fail exactly where `FastEnd` does |
| `Lexer.Lexer.LexIdentifierNonAscii` | so2js/parser/lexer.rs:1651-1696 | the slow path continues a name by whole parts, and ends or fails exactly where `SlowEnd` does |
| `Lexer.Lexer.LexName` | so2js/parser/lexer.rs:1713-1745 | a name starts with a start character, behind # if it is private, and ends, fails or panics exactly as `NameEnd` says; what it spells are all parts of a word |
| `Words.NamesAreLongest` | so2js/parser/lexer.rs:1594-1745 | a name is the longest word at its place, if and only if the table for ASCII and the Unicode property agree on the next character |
| `Words.NamesStartRight` | so2js/parser/lexer.rs:1594-1745 | a name starts with a start character of words, literally or as an escape |
| `Words.NameEndEnds` | so2js/parser/lexer.rs:1594-1745 | a name ends only where no part of a word follows, be it an ASCII character, another one or an escape |
| `Words.OverlongDollar` | so2js/parser/lexer.rs:1614-1696 | an overlong dollar sign belongs to the name behind an ASCII letter and does not behind an accented one |
| `Words.NameMeaning` | so2js/parser/lexer.rs:1594-1696 | the code points of a name are those that its text spells |
| `Wtf8.EncodeInto` | so2js/common/unicode.rs:341-363 | writes the shortest form and leaves the rest of the buffer; panics exactly if it does not fit or is out of range |
| `Wtf8.DecodeIff` | so2js/common/unicode.rs:385-433 | the decoder accepts exactly the forms of 2 to 4 bytes, overlong ones and values up to 0x1FFFFF included, and gives the value of the form |
| `Wtf8.DecodeEncode` | so2js/common/unicode.rs:341-433 | decoding undoes encoding, whatever follows |
| `Wtf8.EncodeIsOrdered` | so2js/common/unicode.rs:341-363 | the order of code points is the order of their encodings as byte strings |
| `Wtf8.EncodeBounds` | so2js/common/unicode.rs:341-363 | the first and last code point of each length have the bytes of section 3 of RFC 3629 |
| `Wtf8.EncodeDecode` | so2js/common/unicode.rs:385-433 | encoding undoes decoding exactly on forms that are shortest and in range |
| `Wtf8.Wtf8String.PushAll` | so2js/common/wtf_8.rs:127-131 | pushing any sequence of code points builds a string that iterates as that sequence |
| `Wtf8.Wtf8String.Push` | so2js/common/wtf_8.rs:127-131 | appends the encoding; panics exactly out of range |
| `Wtf8.CodePointsIterator.Next` | so2js/common/wtf_8.rs:174-199 | takes the first code point; panics exactly on malformed bytes |
| `Wtf8.CodePointsOfEncoding` | so2js/common/wtf_8.rs:159-199 | iterating an encoded sequence gives the sequence |
| `Wtf8.CanonicalIffReencodes` | so2js/common/wtf_8.rs:127-199 | a string is the encoding of its code points exactly if it is canonical |
| `Wtf8Strings.IsWellFormed` | so2js/common/wtf_8.rs:321-347 | the loop with one flag: well formed exactly if, read as UTF-16, no surrogate is left unpaired |
| `Utf16.EncodeDecode` | so2js/common/unicode.rs:70-94 | re-encoding the decoding of any code units gives them back |
| `Utf16.DecodeEncode` | so2js/common/unicode.rs:440-455 | decoding the encoding of code points gives them back exactly if no high surrogate is followed by a low one |
| `Utf16.EncodePair` | so2js/common/unicode.rs:70-83 | splitting a code point into a surrogate pair and joining it again is the identity |
| `Utf16.PairEncodes` | so2js/common/unicode.rs:86-94 | joining a surrogate pair and splitting it again is the identity |
| `Utf16.PairsAreOrdered` | so2js/common/unicode.rs:86-95 | the order of surrogate pairs, high surrogate first, is the order of their code points |
| `Utf16.PairsAreCounted` | so2js/common/unicode.rs:70-95 | the pairs in that order have the code points from 0x10000 to 0x10FFFF, without gaps |
| `Utf16.OneCount` | so2js/common/unicode.rs:86-95 | only this assignment of code points to pairs does so |
| `Utf16.StepsAreInverse` | so2js/parser/lexer_stream.rs:652-679 | at every boundary a step forwards and a step backwards undo each other |
| `Utf16.WalksMeet` | so2js/parser/lexer_stream.rs:652-679 | at every boundary the backward walk so far, reversed, and the forward walk from there are the whole |
| `Utf16.BackwardsIsReverse` | so2js/parser/lexer_stream.rs:668-679 | walking backwards from the end gives the code points in reverse order |
| `StringIterators.CodeUnitIterator.Next` | so2js/common/string_iterators.rs:96-116 | takes the first remaining unit |
| `StringIterators.CodeUnitIterator.NextBack` | so2js/common/string_iterators.rs:118-134 | takes the last remaining unit |
| `StringIterators.CodeUnitIterator.ConsumeEquals` | so2js/common/string_iterators.rs:67-79 | true exactly if both iterators have the same units left |
| `StringIterators.CodePointIterator.Next` | so2js/common/string_iterators.rs:173-199 | takes the first code point of the remaining units, which are its encoding and the rest |
| `StringIterators.CodePointIterator.NextBack` | so2js/common/string_iterators.rs:234-258 | as written: behind a low surrogate it takes a unit from the front instead of the back |
| `StringIterators.NextBackStep` | so2js/common/string_iterators.rs:234-258 | one call leaves the string without its last code point exactly if that is no pair or only copies of its high surrogate precede it |
| `StringIterators.NextBackAllCorrect` | so2js/common/string_iterators.rs:234-258 | iterating from the back gives the code points in reverse order exactly if, for each surrogate pair, all units before it equal its high surrogate |
| `StringIterators.NextBackAllExample` | so2js/common/string_iterators.rs:241-249 | a string on which it fails |
| `LexerStream.CodePointStream.constructor` | so2js/parser/lexer_stream.rs:636-650 | the stored unit is the current code point exactly if the source does not start with a surrogate pair |
| `LexerStream.ReadForwardsIff` | so2js/parser/lexer_stream.rs:636-736 | reading a whole string forwards gives its code points exactly if it does not start with a surrogate pair |
| `LexerStream.ForwardsIff` | so2js/parser/lexer_stream.rs:726-736 | at every position and with every current value, exactly when a step forwards moves over one code point |
| `LexerStream.CodePointStream.AdvanceCodePoint` | so2js/parser/lexer_stream.rs:726-736 | moves by the width of the current value, in every state |
| `LexerStream.CodePointStream.AdvanceBackwardsCodePoint` | so2js/parser/lexer_stream.rs:739-762 | as written, in every state: moves by the width of the current value and then over one more code point, or panics |
| `LexerStream.BackwardsIff` | so2js/parser/lexer_stream.rs:739-762 | at every position and with every current value: it moves over one code point exactly if the current value is narrow and a surrogate pair is in front |
| `LexerStream.BackwardsInStepIff` | so2js/parser/lexer_stream.rs:739-762 | it also leaves the code point in front as the current one exactly if, moreover, a copy of the high surrogate of that pair precedes it |
| `LexerStream.BackwardsFromInStep` | so2js/parser/lexer_stream.rs:739-762 | from a stream in step it moves over two code points, or panics if there is only one |
| `LexerStream.BackwardsEndsOnBoundary` | so2js/parser/lexer_stream.rs:739-762 | it ends on a boundary, in step for reading forwards exactly if its first move ended on one |
| `LexerStream.BackwardsNeverEnds` | so2js/parser/lexer_stream.rs:739-762 | no run backwards ever reads the end mark at the start of the input |
| `LexerStream.CodePointStream.PeekN` | so2js/parser/lexer_stream.rs:783-791 | the result is the code point n units ahead exactly if there is none or it equals the one at the cursor |
| `LexerStream.PeekIff` | so2js/parser/lexer_stream.rs:783-791 | for every position and distance, exactly when the peeked code point is the promised one |
| `LexerStream.Examples` | so2js/parser/lexer_stream.rs:726-791 | inputs on which peeking, stepping backwards and stepping forwards from the start go wrong |
| `LexerStream.CodePointStream.PeekPrevCodePoint` | so2js/parser/lexer_stream.rs:765-771 | the code point in front, which at a boundary is the one read forwards from there |
| `LexerStream.CodePointStream.ParseUnicodeCodePoint` | so2js/parser/lexer_stream.rs:794-804 | takes the next code point of the decoding from any position, fails exactly on the end mark, and panics exactly at the end without it |
| `Float16.F64ToF16` | so2js/common/math.rs:43-71 | for every 64-bit pattern: NaN for NaN, otherwise the sign and the f16 magnitude nearest to the exact value, ties to even (section 4.3.1 of IEEE 754-2019), with overflow to infinity |
| `Float16.ConvertDenormal` | so2js/common/math.rs:54-58 | adding the magic number in double precision rounds subnormal results to nearest even |
| `Float16.ConvertMagnitude` | so2js/common/math.rs:50-66 | all ranges of magnitudes round to nearest even, across carries into the next binade |
| `Float16.AddF64` | so2js/common/math.rs:55-55 | the sum of two finite doubles is the double nearest to the exact sum, ties to even |
| `Float16.ConvertsUnique` | so2js/common/math.rs:43-71 | there is only one correct result |
| `Float16.ConvertsMonotone` | so2js/common/math.rs:43-71 | conversion is monotone in the signed value, for numbers of every sign |
| `Float16.ConvertsKind` | so2js/common/math.rs:50-52 | numbers become numbers and NaNs become NaN |
| `Float16.ConvertsExactly` | so2js/common/math.rs:43-71 | a double of either sign that is an f16 value converts to that value |
| `Float16.EveryHalfIsConverted` | so2js/common/math.rs:43-71 | every f16 number of either sign is the value of a double, which converts to it and to nothing else |
| `Float16.OverflowThreshold` | so2js/common/math.rs:22-23 | infinity results, for either sign, exactly from magnitudes halfway beyond the largest finite f16 and up |
| `Bits.RoundsToPowerOfTwo` | so2js/common/math.rs:14-20 | the smallest multiple of the power of two that is not below the value |
| `Bits.OrOfDisjoint` | so2js/common/varint.rs:32-32 | or of disjoint bits is addition |
| `Bits.AndOfHighMask` | so2js/common/unicode.rs:388-420 | a mask of high bits is a division, so that comparing it is comparing a quotient |
| `Bits.AndOfLowMask` | so2js/common/unicode.rs:396-397 | a mask of low bits is a remainder |
| `Varint.EncodeVarint` | so2js/common/varint.rs:11-21 | appends seven bits a byte, lowest first |
| `Varint.DecodeVarint` | so2js/common/varint.rs:24-44 | value and length up to the first byte without a top bit; panics exactly if there is none within ten bytes |
| `Varint.DecodeEncode` | so2js/common/varint.rs:11-44 | decoding undoes encoding, whatever follows, with the exact length, which is 1 to 10 |
| `Varint.NextValue` | so2js/common/varint.rs:24-44 | the byte at index i adds its low seven bits at place 7 i |
| `Varint.DecodeAllEncodeAll` | so2js/common/varint.rs:11-44 | a list of values comes back from its concatenated encodings, whatever follows |
| `Varint.PrefixFree` | so2js/common/varint.rs:11-44 | no encoding is a proper prefix of another |
| `Varint.ReencodeIff` | so2js/common/varint.rs:11-44 | what was decoded is encoded to the same bytes exactly if they were the shortest form and fit a word |
| `Varint.EncodeLength` | so2js/common/varint.rs:11-21 | the length is the number of groups of seven bits |
| `LineIndex.CalculateLineOffsets` | so2js/parser/loc.rs:26-47 | the offsets are 0 and each position after a line feed, in 32 bits |
| `LineIndex.StartsMembers` | so2js/parser/loc.rs:26-47 | an offset is a line start exactly if it is 0 or follows a line feed |
| `LineIndex.NothingIsTruncated` | so2js/parser/loc.rs:41-43 | below the size limit no offset is truncated |
| `LineIndex.FindLargestOffsetLessThanOrEqual` | so2js/parser/loc.rs:62-76 | the binary search finds the last offset that is not beyond the target |
| `LineIndex.FindLineColForPos` | so2js/parser/loc.rs:51-60 | the line is one more than the line feeds before the position, the column one more than the bytes since the last of them |
| `LineIndex.Source.NewForString` | so2js/parser/source.rs:52-61 | an error exactly if the source is at or above the limit |
| `LineIndex.Source.GetLineOffsets` | so2js/parser/source.rs:74-86 | the cache is filled on first use with the offsets and never changed |
| `LineIndex.Source.GetLine` | so2js/parser/source.rs:89-102 | the bytes of a line without its line feed; panics exactly on a line that does not exist |
| `LineIndex.LinesRebuildSource` | so2js/parser/source.rs:89-102 | the lines joined with line feeds are the source |
| `LineIndex.NoLfInLine` | so2js/parser/source.rs:89-102 | no line contains a line feed |

## Left out

- Scope resolution and allocation of VM scopes: the scope tree is not part of this model.
- Checks of the analyzer that look at one node only: duplicate parameters, use-strict with non-simple parameters,
  names of constructors and static members, several constructors or `__proto__` properties, delete in strict mode,
  const without initializer, several defaults, exports and import attributes, labelled function declarations, top-level await.
- Direct eval (`analyze_for_eval`, `maybe_eval_*`) and function constructors: another starting state of the same walk.
- Regular expression literals (`next_regexp_literal`): read again on request of the parser.
- Keywords: `Lexer.Lexer.LexName` gives the word; the table of keywords would only add cases.
- `next_template_part`: the same as `Lexer.Lexer.LexTemplateLiteral` from one byte back.
- Lexer.Lexer.LexDecimalLiteral: gives the text of the number; turning text or a large integer into a double is a library call.
- Positions in lexer errors, and error messages.
- LineIndex.Source.GetLine: gives the bytes of the line; the lossy conversion to UTF-8 after it is a library call.
- Analyzer.Analyzer.VisitLabeled: does not model the 16-bit width of label ids, which bounds the depth of labelled statements.
- The one-byte and the UTF-8 streams of `lexer_stream.rs`: their steps are single bytes or panics.
- Raw pointers, arenas and allocation.
